/** Locale choice of registry/shared/i18n/config/i18n.ts: the first browser
    language whose primary subtag is a supported locale, and the order
    stored value, browser preference, configured default. `localStorage`,
    `navigator` and the configured default are parameters. */
module LocaleConfig {
  import opened Wrappers
  import opened Text
  import Seqs

  const SupportedLocales: seq<string> := ["en", "pl"]

  /** `toLowerCase` on ASCII letters; other characters are kept. */
  function LowerAscii(s: string): (r: string)
    ensures |r| == |s|
  {
    if |s| == 0 then ""
    else [if 'A' <= s[0] <= 'Z' then (s[0] as int + 32) as char else s[0]] + LowerAscii(s[1..])
  }

  /** The text before the first `-`, lower-cased (`en` from `en-US`). */
  function LanguageCode(lang: string): string {
    LowerAscii(Split(lang, '-')[0])
  }

  /** A region or script after the first `-` is ignored, and so is the
      case of the primary subtag. */
  lemma LanguageCodeOfTag(primary: string, rest: string)
    requires '-' !in primary
    ensures LanguageCode(primary + "-" + rest) == LowerAscii(primary)
    ensures LanguageCode(primary) == LowerAscii(primary)
  {
    var tag := primary + "-" + rest;
    assert tag == primary + ("-" + rest);
    Seqs.IndexOfPast(primary, "-" + rest, '-');
    SplitFirst(tag, '-');
    assert tag[..|primary|] == primary;
    SplitFirst(primary, '-');
  }

  predicate Supported(code: string) {
    code != "" && code in SupportedLocales
  }

  /** getPreferredLocale: the code of the first entry that is supported. */
  function GetPreferredLocale(browserLanguages: seq<string>): (r: Option<string>)
    ensures r.Some? ==> r.value in SupportedLocales
  {
    if |browserLanguages| == 0 then None
    else
      var languageCode := LanguageCode(browserLanguages[0]);
      if Supported(languageCode) then Some(languageCode)
      else GetPreferredLocale(browserLanguages[1..])
  }

  /** The answer is the code of the first supported entry, and there is
      none exactly when no entry is supported (so an empty list gives
      none). */
  lemma {:induction false} PreferredIsFirstMatch(browserLanguages: seq<string>)
    ensures GetPreferredLocale(browserLanguages).None? <==>
      forall i :: 0 <= i < |browserLanguages| ==> !Supported(LanguageCode(browserLanguages[i]))
    ensures GetPreferredLocale(browserLanguages).Some? ==>
      exists i :: 0 <= i < |browserLanguages| &&
        LanguageCode(browserLanguages[i]) == GetPreferredLocale(browserLanguages).value &&
        forall j :: 0 <= j < i ==> !Supported(LanguageCode(browserLanguages[j]))
  {
    if |browserLanguages| > 0 && !Supported(LanguageCode(browserLanguages[0])) {
      var rest := browserLanguages[1..];
      PreferredIsFirstMatch(rest);
      assert forall i :: 0 < i < |browserLanguages| ==> browserLanguages[i] == rest[i - 1];
      if GetPreferredLocale(rest).Some? {
        var i :| 0 <= i < |rest| && LanguageCode(rest[i]) == GetPreferredLocale(rest).value &&
          forall j :: 0 <= j < i ==> !Supported(LanguageCode(rest[j]));
        assert browserLanguages[i + 1] == rest[i];
      }
    } else if |browserLanguages| > 0 {
      assert LanguageCode(browserLanguages[0]) == GetPreferredLocale(browserLanguages).value;
    }
  }

  /** getStoredLocale: a supported stored value, then the browser
      preference (`navigator.languages`, or `[navigator.language]` when
      that list is empty), then the configured default. */
  function GetStoredLocale(stored: Option<string>, languages: seq<string>, language: string,
                           defaultLocale: string): (r: string)
    ensures r in SupportedLocales || r == defaultLocale
  {
    if stored.Some? && Supported(stored.value) then stored.value
    else
      var browserLanguages := if |languages| > 0 then languages else [language];
      match GetPreferredLocale(browserLanguages)
      case Some(preferred) => preferred
      case None => defaultLocale
  }

  /** The precedence: a supported stored value wins; an unsupported one is
      as good as none; then the browser preference; the default only when
      neither gives a locale. */
  lemma StoredLocalePrecedence(stored: Option<string>, languages: seq<string>, language: string,
                               defaultLocale: string)
    ensures stored.Some? && Supported(stored.value) ==>
      GetStoredLocale(stored, languages, language, defaultLocale) == stored.value
    ensures !(stored.Some? && Supported(stored.value)) ==>
      GetStoredLocale(stored, languages, language, defaultLocale) == GetStoredLocale(None, languages, language, defaultLocale)
    ensures |languages| > 0 && GetPreferredLocale(languages).Some? ==>
      GetStoredLocale(None, languages, language, defaultLocale) == GetPreferredLocale(languages).value
    ensures |languages| == 0 ==>
      GetStoredLocale(None, languages, language, defaultLocale) ==
        if Supported(LanguageCode(language)) then LanguageCode(language) else defaultLocale
    ensures (forall i :: 0 <= i < |languages| ==> !Supported(LanguageCode(languages[i]))) && |languages| > 0 ==>
      GetStoredLocale(None, languages, language, defaultLocale) == defaultLocale
  {
    if |languages| == 0 {
      assert [language][1..] == [];
      assert GetPreferredLocale([language]) ==
        if Supported(LanguageCode(language)) then Some(LanguageCode(language)) else GetPreferredLocale([]);
    } else {
      PreferredIsFirstMatch(languages);
    }
  }
}
