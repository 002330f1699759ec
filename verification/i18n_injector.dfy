/** cli/src/helpers/i18n-injector.ts: wiring module translations into the
    application's i18n aggregator. The file comes in as its text (None when
    it does not exist) and goes out as the text written back. */
module I18nInjector {
  import opened Wrappers
  import opened Text

  const ImportsAnchor := "// @vbr-insert-module-imports"
  const MergesAnchor := "// @vbr-insert-module-merges"

  predicate IsLower(c: char) {
    'a' <= c <= 'z'
  }

  function Upper(c: char): (u: char)
    requires IsLower(c)
    ensures 'A' <= u <= 'Z'
  {
    (c as int - 32) as char
  }

  /** `toCamelCase`: every `-` followed by a lower-case ASCII letter becomes
      that letter upper-cased, scanning left to right. */
  function ToCamelCase(s: string): (r: string)
    ensures |r| <= |s|
    ensures '-' !in s ==> r == s
    decreases |s|
  {
    if |s| >= 2 && s[0] == '-' && IsLower(s[1]) then [Upper(s[1])] + ToCamelCase(s[2..])
    else if |s| == 0 then ""
    else [s[0]] + ToCamelCase(s[1..])
  }

  /** No `-` is directly followed by a lower-case letter. */
  predicate NoDashLower(s: string) {
    forall k :: 0 <= k < |s| - 1 ==> !(s[k] == '-' && IsLower(s[k + 1]))
  }

  /** The first character of the result. */
  lemma {:induction false} CamelHead(s: string)
    requires |s| > 0
    ensures |ToCamelCase(s)| > 0
    ensures ToCamelCase(s)[0] == (if |s| >= 2 && s[0] == '-' && IsLower(s[1]) then Upper(s[1]) else s[0])
  {
  }

  /** The result never has a `-` before a lower-case letter. */
  lemma {:induction false} CamelClean(s: string)
    ensures NoDashLower(ToCamelCase(s))
    decreases |s|
  {
    if |s| >= 2 && s[0] == '-' && IsLower(s[1]) {
      CamelClean(s[2..]);
      var r := ToCamelCase(s[2..]);
      assert forall k :: 1 <= k < |r| + 1 ==> ([Upper(s[1])] + r)[k] == r[k - 1];
    } else if |s| > 0 {
      CamelClean(s[1..]);
      var r := ToCamelCase(s[1..]);
      assert forall k :: 1 <= k < |r| + 1 ==> ([s[0]] + r)[k] == r[k - 1];
      if |s| >= 2 {
        CamelHead(s[1..]);
        assert s[1..][0] == s[1];
      }
    }
  }

  /** Text with nothing to replace comes back unchanged. */
  lemma {:induction false} CamelIdentity(s: string)
    requires NoDashLower(s)
    ensures ToCamelCase(s) == s
    decreases |s|
  {
    if |s| > 0 {
      assert !(|s| >= 2 && s[0] == '-' && IsLower(s[1]));
      assert forall k :: 0 <= k < |s| - 2 ==> s[1..][k] == s[k + 1];
      CamelIdentity(s[1..]);
    }
  }

  /** Camel-casing twice is camel-casing once. */
  lemma {:induction false} CamelIdempotent(s: string)
    ensures ToCamelCase(ToCamelCase(s)) == ToCamelCase(s)
  {
    CamelClean(s);
    CamelIdentity(ToCamelCase(s));
  }

  /** A dash before a lower-case letter is dropped and the letter raised,
      as in `logs-management` giving `logsManagement`. */
  lemma {:induction false} CamelDash(head: string, c: char, tail: string)
    requires '-' !in head && IsLower(c)
    ensures ToCamelCase(head + ['-', c] + tail) == head + [Upper(c)] + ToCamelCase(tail)
  {
    assert head + ['-', c] + tail == head + (['-', c] + tail);
    CamelPrefix(head, ['-', c] + tail);
    assert (['-', c] + tail)[2..] == tail;
  }

  /** A prefix without `-` is copied through. */
  lemma {:induction false} CamelPrefix(p: string, s: string)
    requires '-' !in p
    ensures ToCamelCase(p + s) == p + ToCamelCase(s)
    decreases |p|
  {
    if |p| > 0 {
      assert (p + s)[1..] == p[1..] + s;
      CamelPrefix(p[1..], s);
    } else {
      assert p + s == s;
    }
  }

  /** A module name as the registry writes them: lower-case letters,
      digits and dashes. */
  predicate Kebab(m: string) {
    forall k :: 0 <= k < |m| ==> IsLower(m[k]) || ('0' <= m[k] <= '9') || m[k] == '-'
  }

  /** A character that may appear in an identifier made from a module name. */
  predicate IdentChar(c: char) {
    IsLower(c) || ('A' <= c <= 'Z') || ('0' <= c <= '9') || c == '-'
  }

  /** Camel-casing a module name yields identifier characters only. */
  lemma {:induction false} CamelChars(m: string)
    requires Kebab(m)
    ensures forall k :: 0 <= k < |ToCamelCase(m)| ==> IdentChar(ToCamelCase(m)[k])
    decreases |m|
  {
    if |m| >= 2 && m[0] == '-' && IsLower(m[1]) {
      CamelChars(m[2..]);
    } else if |m| > 0 {
      CamelChars(m[1..]);
    }
  }

  /** The import of one language's messages of a module. */
  function ImportLine(name: string, lang: string): string {
    "import { " + ToCamelCase(name) + lang + " } from '@/modules/" + name + "/i18n'"
  }

  /** The import lines for the modules: En then Pl for each, in order. */
  function ImportLines(modules: seq<string>): seq<string> {
    if |modules| == 0 then []
    else [ImportLine(modules[0], "En"), ImportLine(modules[0], "Pl")] + ImportLines(modules[1..])
  }

  /** Exactly two lines per module, the En line first. */
  lemma {:induction false} ImportLinesShape(modules: seq<string>)
    ensures |ImportLines(modules)| == 2 * |modules|
    ensures forall k :: 0 <= k < |modules| ==>
      ImportLines(modules)[2 * k] == ImportLine(modules[k], "En") &&
      ImportLines(modules)[2 * k + 1] == ImportLine(modules[k], "Pl")
  {
    if |modules| > 0 {
      ImportLinesShape(modules[1..]);
      var rest := ImportLines(modules[1..]);
      forall k | 1 <= k < |modules|
        ensures ImportLines(modules)[2 * k] == ImportLine(modules[k], "En") &&
                ImportLines(modules)[2 * k + 1] == ImportLine(modules[k], "Pl")
      {
        assert ImportLines(modules)[2 * k] == rest[2 * (k - 1)];
        assert ImportLines(modules)[2 * k + 1] == rest[2 * (k - 1) + 1];
        assert modules[1..][k - 1] == modules[k];
      }
    }
  }

  /** The push loop that builds the import lines. */
  method BuildImportLines(modules: seq<string>) returns (importLines: seq<string>)
    ensures importLines == ImportLines(modules)
  {
    importLines := [];
    var i := 0;
    while i < |modules|
      invariant 0 <= i <= |modules|
      invariant importLines + ImportLines(modules[i..]) == ImportLines(modules)
    {
      ImportLinesAt(modules, i);
      Seqs.PushTwo(importLines, ImportLine(modules[i], "En"), ImportLine(modules[i], "Pl"), ImportLines(modules[i + 1..]));
      var varName := ToCamelCase(modules[i]);
      importLines := importLines + ["import { " + varName + "En" + " } from '@/modules/" + modules[i] + "/i18n'"];
      importLines := importLines + ["import { " + varName + "Pl" + " } from '@/modules/" + modules[i] + "/i18n'"];
      i := i + 1;
    }
  }

  /** The import lines from the i-th module on: its two, then the rest. */
  lemma ImportLinesAt(modules: seq<string>, i: nat)
    requires i < |modules|
    ensures ImportLines(modules[i..]) ==
            [ImportLine(modules[i], "En"), ImportLine(modules[i], "Pl")] + ImportLines(modules[i + 1..])
  {
    assert modules[i..][1..] == modules[i + 1..];
  }

  /** A spread fragment of one language's messages of a module. */
  function Fragment(name: string, lang: string): string {
    "..." + ToCamelCase(name) + lang
  }

  function Fragments(modules: seq<string>, lang: string): (r: seq<string>)
    ensures |r| == |modules|
    ensures forall k :: 0 <= k < |modules| ==> r[k] == Fragment(modules[k], lang)
  {
    if |modules| == 0 then [] else [Fragment(modules[0], lang)] + Fragments(modules[1..], lang)
  }

  /** The push loop that builds both fragment lists. */
  method BuildFragments(modules: seq<string>) returns (mergeFragmentsEn: seq<string>, mergeFragmentsPl: seq<string>)
    ensures mergeFragmentsEn == Fragments(modules, "En") && mergeFragmentsPl == Fragments(modules, "Pl")
  {
    mergeFragmentsEn := [];
    mergeFragmentsPl := [];
    var i := 0;
    while i < |modules|
      invariant 0 <= i <= |modules|
      invariant mergeFragmentsEn == Fragments(modules[..i], "En")
      invariant mergeFragmentsPl == Fragments(modules[..i], "Pl")
    {
      FragmentsSnoc(modules, i, "En");
      FragmentsSnoc(modules, i, "Pl");
      var varName := ToCamelCase(modules[i]);
      mergeFragmentsEn := mergeFragmentsEn + ["..." + varName + "En"];
      mergeFragmentsPl := mergeFragmentsPl + ["..." + varName + "Pl"];
      i := i + 1;
    }
    assert modules[..|modules|] == modules;
  }

  /** One more module adds its fragment at the end. */
  lemma {:induction false} FragmentsSnoc(modules: seq<string>, i: nat, lang: string)
    requires i < |modules|
    ensures Fragments(modules[..i + 1], lang) == Fragments(modules[..i], lang) + [Fragment(modules[i], lang)]
  {
    var a := Fragments(modules[..i + 1], lang);
    var b := Fragments(modules[..i], lang) + [Fragment(modules[i], lang)];
    assert |a| == |b|;
    forall k | 0 <= k < |a| ensures a[k] == b[k] {
      assert modules[..i + 1][k] == modules[k];
      if k < i {
        assert modules[..i][k] == modules[k];
      }
    }
  }

  /** The strings of xs not contained in text, in order. */
  function Missing(xs: seq<string>, text: string): (r: seq<string>)
    ensures |r| <= |xs|
    ensures forall k :: 0 <= k < |r| ==> r[k] in xs && !Contains(text, r[k])
    ensures forall x :: x in xs && !Contains(text, x) ==> x in r
  {
    if |xs| == 0 then []
    else (if Contains(text, xs[0]) then [] else [xs[0]]) + Missing(xs[1..], text)
  }

  /** Every string is contained: nothing is missing. */
  lemma {:induction false} NoneMissing(xs: seq<string>, text: string)
    requires forall x :: x in xs ==> Contains(text, x)
    ensures Missing(xs, text) == []
    decreases |xs|
  {
    if |xs| > 0 {
      NoneMissing(xs[1..], text);
    }
  }

  /** The import stage: the lines the text lacks go right after the first
      imports anchor, newline-separated. */
  function ImportStage(content: string, lines: seq<string>): string {
    if Contains(content, ImportsAnchor) && |lines| > 0 then
      var newImports := Missing(lines, content);
      if |newImports| > 0 then
        ReplaceFirst(content, ImportsAnchor, ImportsAnchor + "\n" + JoinWith(newImports, "\n"))
      else content
    else content
  }

  /** Every import line belongs to one of the modules. */
  lemma {:induction false} ImportLinesFrom(modules: seq<string>, l: string)
    ensures l in ImportLines(modules) ==> exists m :: m in modules && (l == ImportLine(m, "En") || l == ImportLine(m, "Pl"))
  {
    if |modules| > 0 {
      ImportLinesFrom(modules[1..], l);
      if l in ImportLines(modules[1..]) {
        var m :| m in modules[1..] && (l == ImportLine(m, "En") || l == ImportLine(m, "Pl"));
        assert m in modules;
      }
    }
  }

  /** In an import line of a module named in kebab case, the only `@` is the
      one right after the opening quote of the path. */
  lemma {:induction false} LineAtSign(name: string, lang: string)
    requires Kebab(name) && (lang == "En" || lang == "Pl")
    ensures var l := ImportLine(name, lang);
      forall q :: 0 <= q < |l| && l[q] == '@' ==> q >= 1 && l[q - 1] == '\''
  {
    var c := ToCamelCase(name);
    CamelChars(name);
    var a := "import { ";
    var b := " } from '@/modules/";
    var e := "/i18n'";
    var l := ImportLine(name, lang);
    assert l == a + c + lang + b + name + e;
    var n1 := |a|;
    var n2 := n1 + |c|;
    var n3 := n2 + |lang|;
    var n4 := n3 + |b|;
    var n5 := n4 + |name|;
    assert |l| == n5 + |e|;
    assert forall k :: 0 <= k < |a| ==> a[k] != '@';
    assert forall k :: 0 <= k < |b| && b[k] == '@' ==> k == 9;
    assert b[8] == '\'';
    assert forall k :: 0 <= k < |e| ==> e[k] != '@';
    forall q | 0 <= q < |l|
      ensures l[q] == '@' ==> q >= 1 && l[q - 1] == '\''
    {
      if q < n1 {
        assert l[q] == a[q];
      } else if q < n2 {
        assert l[q] == c[q - n1];
      } else if q < n3 {
        assert l[q] == lang[q - n2];
      } else if q < n4 {
        assert l[q] == b[q - n3];
        if q - n3 == 9 {
          assert l[q - 1] == b[8];
        }
      } else if q < n5 {
        assert l[q] == name[q - n4];
      } else {
        assert l[q] == e[q - n5];
      }
    }
  }

  /** An import line of a kebab-case module never straddles the end of an
      imports anchor: it lies before that point or after it. */
  lemma {:induction false} LineApart(s: string, i: int, j: int, name: string, lang: string)
    requires Kebab(name) && (lang == "En" || lang == "Pl")
    ensures var l := ImportLine(name, lang);
      OccursAt(s, ImportsAnchor, i) && OccursAt(s, l, j) ==>
        j + |l| <= i + |ImportsAnchor| || j >= i + |ImportsAnchor|
  {
    var l := ImportLine(name, lang);
    var a := ImportsAnchor;
    LineAtSign(name, lang);
    assert l[..9] == "import { ";
    assert l[0] == 'i' && l[1] == 'm' && l[6] == ' ';
    assert forall k :: 0 <= k < |a| && a[k] == 'i' ==> k == 8 || k == 22;
    assert a[9] == 'n' && a[28] == 's' && a[2] == ' ' && a[3] == '@' && |a| == 29;
    OccursChars(s, a, i);
    OccursChars(s, l, j);
    assert OccursAt(s, a, i) && i <= j < i + |a| ==> s[j] == a[j - i];
    assert OccursAt(s, a, i) && j == i + 8 ==> s[j + 1] == a[9];
    assert OccursAt(s, a, i) && j == i + 22 ==> s[j + 6] == a[28];
    assert OccursAt(s, l, j) ==> s[j] == l[0] && s[j + 1] == l[1] && s[j + 6] == l[6];
    assert OccursAt(s, a, i) ==> s[i + 2] == a[2] && s[i + 3] == a[3];
    assert OccursAt(s, l, j) && j < i && i + |a| <= j + |l| ==> s[i + 3] == l[i + 3 - j] && s[i + 2] == l[i + 2 - j];
  }

  /** After the import stage, every import line of the modules is in the
      text (when the anchor is there to receive them), and the anchor is
      still there. */
  lemma {:induction false} ImportComplete(content: string, modules: seq<string>)
    requires forall k :: 0 <= k < |modules| ==> Kebab(modules[k])
    ensures var r := ImportStage(content, ImportLines(modules));
      Contains(content, ImportsAnchor) ==>
        Contains(r, ImportsAnchor) && forall l :: l in ImportLines(modules) ==> Contains(r, l)
  {
    var lines := ImportLines(modules);
    if |lines| == 0 {
      assert ImportStage(content, lines) == content;
      assert forall l :: l !in lines;
    } else if Contains(content, ImportsAnchor) {
      var news := Missing(lines, content);
      if |news| > 0 {
        InsertionComplete(content, modules, news);
        assert ImportStage(content, lines) == ReplaceFirst(content, ImportsAnchor, ImportsAnchor + "\n" + JoinWith(news, "\n"));
      } else {
        NothingMissing(lines, content);
      }
    }
  }

  /** Nothing missing means everything is contained. */
  lemma {:induction false} NothingMissing(xs: seq<string>, text: string)
    requires Missing(xs, text) == []
    ensures forall x :: x in xs ==> Contains(text, x)
  {
  }

  /** The insertion itself: anchor kept, every line present. */
  lemma {:induction false} InsertionComplete(content: string, modules: seq<string>, news: seq<string>)
    requires forall k :: 0 <= k < |modules| ==> Kebab(modules[k])
    requires news == Missing(ImportLines(modules), content) && Contains(content, ImportsAnchor)
    ensures var r := ReplaceFirst(content, ImportsAnchor, ImportsAnchor + "\n" + JoinWith(news, "\n"));
      Contains(r, ImportsAnchor) && forall l :: l in ImportLines(modules) ==> Contains(r, l)
  {
    var ins := "\n" + JoinWith(news, "\n");
    assert ImportsAnchor + "\n" + JoinWith(news, "\n") == ImportsAnchor + ins;
    InsertAfterKeeps(content, ImportsAnchor, ins, ImportsAnchor);
    FirstOccurrenceExists(content, ImportsAnchor);
    var i :| 0 <= i <= |content| - |ImportsAnchor| && FirstOccurrence(content, ImportsAnchor, i);
    forall l | l in ImportLines(modules)
      ensures Contains(ReplaceFirst(content, ImportsAnchor, ImportsAnchor + ins), l)
    {
      LineAfterStage(content, modules, news, i, l);
    }
  }

  /** One line of the modules after a stage that inserted the missing ones. */
  lemma {:induction false} LineAfterStage(content: string, modules: seq<string>, news: seq<string>, i: nat, l: string)
    requires forall k :: 0 <= k < |modules| ==> Kebab(modules[k])
    requires news == Missing(ImportLines(modules), content)
    requires FirstOccurrence(content, ImportsAnchor, i) && l in ImportLines(modules)
    ensures Contains(ReplaceFirst(content, ImportsAnchor, ImportsAnchor + ("\n" + JoinWith(news, "\n"))), l)
  {
    ImportLinesFrom(modules, l);
    var m :| m in modules && (l == ImportLine(m, "En") || l == ImportLine(m, "Pl"));
    if Contains(content, l) {
      OldLineKept(content, i, "\n" + JoinWith(news, "\n"), l, m);
    } else {
      var k :| 0 <= k < |news| && news[k] == l;
      NewLineAdded(content, news, k);
    }
  }

  /** A line already in the text survives the insertion after the anchor. */
  lemma {:induction false} OldLineKept(content: string, i: nat, ins: string, l: string, m: string)
    requires FirstOccurrence(content, ImportsAnchor, i) && Contains(content, l)
    requires Kebab(m) && (l == ImportLine(m, "En") || l == ImportLine(m, "Pl"))
    ensures Contains(ReplaceFirst(content, ImportsAnchor, ImportsAnchor + ins), l)
  {
    var j :| 0 <= j <= |content| - |l| && OccursAt(content, l, j);
    if l == ImportLine(m, "En") {
      LineApart(content, i, j, m, "En");
    } else {
      LineApart(content, i, j, m, "Pl");
    }
    KeptByInsert(content, ImportsAnchor, ins, i, l, j);
  }

  /** A line of the inserted block is in the result. */
  lemma {:induction false} NewLineAdded(content: string, news: seq<string>, k: nat)
    requires Contains(content, ImportsAnchor) && k < |news|
    ensures Contains(ReplaceFirst(content, ImportsAnchor, ImportsAnchor + ("\n" + JoinWith(news, "\n"))), news[k])
  {
    var ins := "\n" + JoinWith(news, "\n");
    JoinContains(news, "\n", k);
    ContainsInserted("\n", 1, JoinWith(news, "\n"), news[k]);
    assert "\n"[..1] + JoinWith(news, "\n") + "\n"[1..] == ins;
    InsertAfterKeeps(content, ImportsAnchor, ins, news[k]);
  }

  /** Running the import stage a second time with the same modules changes
      nothing. */
  lemma {:induction false} ImportIdempotent(content: string, modules: seq<string>)
    requires forall k :: 0 <= k < |modules| ==> Kebab(modules[k])
    ensures var lines := ImportLines(modules);
      ImportStage(ImportStage(content, lines), lines) == ImportStage(content, lines)
  {
    var lines := ImportLines(modules);
    var r := ImportStage(content, lines);
    if Contains(content, ImportsAnchor) && |lines| > 0 {
      ImportComplete(content, modules);
      NoneMissing(lines, r);
    }
  }

  /** The new lines go right after the first anchor, as one block. */
  lemma {:induction false} ImportPlaced(content: string, lines: seq<string>, i: nat)
    requires FirstOccurrence(content, ImportsAnchor, i)
    ensures var news := Missing(lines, content);
      |lines| > 0 && |news| > 0 ==>
        ImportStage(content, lines) ==
          content[..i + |ImportsAnchor|] + "\n" + JoinWith(news, "\n") + content[i + |ImportsAnchor|..]
  {
    var news := Missing(lines, content);
    var ins := "\n" + JoinWith(news, "\n");
    assert ImportsAnchor + "\n" + JoinWith(news, "\n") == ImportsAnchor + ins;
    InsertAfterFirst(content, ImportsAnchor, ins, i);
    assert Contains(content, ImportsAnchor);
    var p := i + |ImportsAnchor|;
    assert content[..p] + ins + content[p..] == content[..p] + "\n" + JoinWith(news, "\n") + content[p..];
  }

  /** Without the anchor, or with no modules, or when every line is
      already there, the import stage changes nothing. */
  lemma {:induction false} ImportUnchanged(content: string, lines: seq<string>)
    ensures (!Contains(content, ImportsAnchor) || |lines| == 0 ||
             forall l :: l in lines ==> Contains(content, l)) ==>
      ImportStage(content, lines) == content
  {
    if forall l :: l in lines ==> Contains(content, l) {
      NoneMissing(lines, content);
    }
  }

  /** The literal start of a merged declaration: `const en = {`. */
  function DeclHead(lang: string): string {
    "const " + lang + " = {"
  }

  /** The length of the leading run of characters other than `}`. */
  function RunLen(r: string): (n: nat)
    ensures n <= |r|
    ensures forall k :: 0 <= k < n ==> r[k] != '}'
    ensures n < |r| ==> r[n] == '}'
  {
    if |r| == 0 || r[0] == '}' then 0 else 1 + RunLen(r[1..])
  }

  /** The pattern `const <lang> = \{([^}]+)\}` matches at j: the head, at
      least one character other than `}`, then the first `}`. */
  predicate DeclAt(s: string, j: int, lang: string) {
    OccursAt(s, DeclHead(lang), j) &&
    var g := RunLen(s[j + |DeclHead(lang)|..]);
    g > 0 && j + |DeclHead(lang)| + g < |s|
  }

  /** The leftmost match at or after from (`exec` without the global flag). */
  function FindDecl(s: string, lang: string, from: nat): (r: Option<nat>)
    ensures r.Some? ==> (from <= r.value && DeclAt(s, r.value, lang) &&
                         forall j :: from <= j < r.value ==> !DeclAt(s, j, lang))
    ensures r.None? ==> forall j :: from <= j ==> !DeclAt(s, j, lang)
    decreases |s| + 1 - from
  {
    if from > |s| then None
    else if DeclAt(s, from, lang) then Some(from)
    else FindDecl(s, lang, from + 1)
  }

  /** One past the closing `}` of the match at i. */
  function DeclEnd(s: string, i: nat, lang: string): (e: nat)
    requires DeclAt(s, i, lang)
    ensures i + |DeclHead(lang)| < e <= |s| && s[e - 1] == '}'
  {
    i + |DeclHead(lang)| + RunLen(s[i + |DeclHead(lang)|..]) + 1
  }

  /** The captured group: everything between the braces. */
  function Group(s: string, i: nat, lang: string): (g: string)
    requires DeclAt(s, i, lang)
    ensures |g| > 0 && '}' !in g
  {
    var h := i + |DeclHead(lang)|;
    var g := s[h..DeclEnd(s, i, lang) - 1];
    assert forall k :: 0 <= k < |g| ==> g[k] == s[h..][k];
    g
  }

  /** `replace` with the pattern: the first match, if any, becomes text. */
  function ReplaceDecl(s: string, lang: string, text: string): string {
    match FindDecl(s, lang, 0)
    case None => s
    case Some(i) => s[..i] + text + s[DeclEnd(s, i, lang)..]
  }

  /** The updated entry list: the existing entries, then the new ones, all
      separated by `, `. */
  function Merged(existing: string, news: seq<string>): string {
    if existing != "" then existing + ", " + JoinWith(news, ", ") else JoinWith(news, ", ")
  }

  /** The replacement declaration `const <lang> = { <updated list> }`. */
  function Redeclared(lang: string, existing: string, news: seq<string>): string {
    DeclHead(lang) + " " + Merged(existing, news) + " }"
  }

  /** The merge stage: fragments missing from the trimmed entries of the
      first `en` and `pl` declarations are appended to them. Both matches
      are taken before either declaration is rewritten; the `pl` rewrite
      searches the text left by the `en` rewrite. */
  function MergeStage(content: string, fragsEn: seq<string>, fragsPl: seq<string>): string {
    if Contains(content, MergesAnchor) && |fragsEn| > 0 then
      match (FindDecl(content, "en", 0), FindDecl(content, "pl", 0))
      case (Some(ie), Some(ip)) =>
        var existingEn := Trim(Group(content, ie, "en"));
        var existingPl := Trim(Group(content, ip, "pl"));
        var newEn := Missing(fragsEn, existingEn);
        var newPl := Missing(fragsPl, existingPl);
        var withEn := if |newEn| > 0 then ReplaceDecl(content, "en", Redeclared("en", existingEn, newEn)) else content;
        if |newPl| > 0 then ReplaceDecl(withEn, "pl", Redeclared("pl", existingPl, newPl)) else withEn
      case _ => content
    else content
  }

  /** The whole transformation of the aggregator text. */
  function Inject(content: string, modules: seq<string>): string {
    MergeStage(ImportStage(content, ImportLines(modules)), Fragments(modules, "En"), Fragments(modules, "Pl"))
  }

  /** `injectI18nModules`: None when the aggregator file does not exist (no
      write); otherwise the text written back, which is written even when
      unchanged. */
  method InjectI18nModules(modules: seq<string>, indexFile: Option<string>) returns (written: Option<string>)
    ensures indexFile.None? ==> written.None?
    ensures indexFile.Some? ==> written == Some(Inject(indexFile.value, modules))
  {
    if indexFile.None? {
      return None;
    }
    var importLines := BuildImportLines(modules);
    var content := InjectImports(indexFile.value, importLines);
    var mergeFragmentsEn, mergeFragmentsPl := BuildFragments(modules);
    content := InjectMerges(content, mergeFragmentsEn, mergeFragmentsPl);
    return Some(content);
  }

  /** The import step, reassigning the text. */
  method InjectImports(text: string, importLines: seq<string>) returns (content: string)
    ensures content == ImportStage(text, importLines)
  {
    content := text;
    if Contains(content, ImportsAnchor) && |importLines| > 0 {
      var newImports := Missing(importLines, content);
      if |newImports| > 0 {
        content := ReplaceFirst(content, ImportsAnchor, ImportsAnchor + "\n" + JoinWith(newImports, "\n"));
      }
    }
  }

  /** The merge step, reassigning the text once per language. */
  method InjectMerges(text: string, mergeFragmentsEn: seq<string>, mergeFragmentsPl: seq<string>) returns (content: string)
    ensures content == MergeStage(text, mergeFragmentsEn, mergeFragmentsPl)
  {
    content := text;
    if Contains(content, MergesAnchor) && |mergeFragmentsEn| > 0 {
      var enMatch := FindDecl(content, "en", 0);
      var plMatch := FindDecl(content, "pl", 0);
      if enMatch.Some? && plMatch.Some? {
        var existingEn := Trim(Group(content, enMatch.value, "en"));
        var existingPl := Trim(Group(content, plMatch.value, "pl"));
        var newEn := Missing(mergeFragmentsEn, existingEn);
        var newPl := Missing(mergeFragmentsPl, existingPl);
        if |newEn| > 0 {
          content := ReplaceDecl(content, "en", Redeclared("en", existingEn, newEn));
        }
        if |newPl| > 0 {
          content := ReplaceDecl(content, "pl", Redeclared("pl", existingPl, newPl));
        }
      }
    }
  }

  /** With no modules the text is written back unchanged. */
  lemma {:induction false} NoModulesUnchanged(content: string)
    ensures Inject(content, []) == content
  {
    assert ImportLines([]) == [];
  }

  /** Without the merges anchor, or without either declaration, the merge
      stage changes nothing. */
  lemma {:induction false} MergeUnchanged(content: string, fragsEn: seq<string>, fragsPl: seq<string>)
    ensures (!Contains(content, MergesAnchor) || FindDecl(content, "en", 0).None? ||
             FindDecl(content, "pl", 0).None?) ==>
      MergeStage(content, fragsEn, fragsPl) == content
  {
  }

  /** The updated list keeps the existing entries in front and holds every
      fragment: the ones already there and the appended ones. */
  lemma {:induction false} MergedHasAll(existing: string, frags: seq<string>)
    requires |Missing(frags, existing)| > 0
    ensures var m := Merged(existing, Missing(frags, existing));
      StartsWith(m, existing) && forall f :: f in frags ==> Contains(m, f)
  {
    var news := Missing(frags, existing);
    var m := Merged(existing, news);
    var j := JoinWith(news, ", ");
    if existing != "" {
      assert m == existing + (", " + j);
      assert m[..|existing|] == existing;
    }
    forall f | f in frags ensures Contains(m, f) {
      if Contains(existing, f) {
        var q :| 0 <= q <= |existing| - |f| && OccursAt(existing, f, q);
        assert existing != "" ==> m == existing + (", " + j);
        if existing != "" {
          assert m[q..q + |f|] == existing[q..q + |f|];
          assert OccursAt(m, f, q);
        } else {
          assert OccursAt(m, f, 0);
        }
      } else {
        var k :| 0 <= k < |news| && news[k] == f;
        JoinContains(news, ", ", k);
        if existing != "" {
          ContainsAfter(existing + ", ", j, f);
        }
      }
    }
  }

  /** The first `}` decides the run: a prefix free of `}` followed by `}`. */
  lemma {:induction false} RunLenAt(r: string, n: nat)
    requires n < |r| && r[n] == '}' && forall k :: 0 <= k < n ==> r[k] != '}'
    ensures RunLen(r) == n
  {
  }

  /** A `}` at or after the head bounds the run. */
  lemma {:induction false} RunLenBounded(r: string, q: nat)
    requires q < |r| && r[q] == '}'
    ensures RunLen(r) <= q < |r|
  {
  }

  /** The declaration head's `c` is its first character only. */
  lemma {:induction false} HeadChars(lang: string)
    requires lang == "en" || lang == "pl"
    ensures |DeclHead(lang)| == 12 && DeclHead(lang)[0] == 'c' && DeclHead(lang)[11] == '{'
    ensures forall k :: 0 < k < 12 ==> DeclHead(lang)[k] != 'c'
    ensures forall k :: 0 <= k < 12 ==> DeclHead(lang)[k] != '}'
    ensures forall k :: 0 <= k < 11 ==> DeclHead(lang)[k] != '{'
  {
  }

  /** A match at i with none before it. */
  predicate FirstDecl(t: string, lang: string, i: nat) {
    DeclAt(t, i, lang) && forall j :: 0 <= j < i ==> !DeclAt(t, j, lang)
  }

  /** The leftmost match is the one with no match before it. */
  lemma {:induction false} FindDeclIs(t: string, lang: string, i: nat)
    ensures FindDecl(t, lang, 0) == Some(i) <==> FirstDecl(t, lang, i)
  {
  }

  /** A position before i that is no match in s is no match in t either,
      when s and t agree before i, both have the `c` of a head at i, and s
      has a `}` at or after i. */
  lemma {:induction false} NoEarlierDecl(s: string, t: string, lang: string, i: nat, q: nat, j: nat)
    requires lang == "en" || lang == "pl"
    requires j < i < |s| && i < |t| && s[..i] == t[..i] && s[i] == 'c' && t[i] == 'c'
    requires i <= q < |s| && s[q] == '}' && !DeclAt(s, j, lang)
    ensures !DeclAt(t, j, lang)
  {
    var h := DeclHead(lang);
    HeadChars(lang);
    if OccursAt(t, h, j) {
      CharAt(t, h, j, i - j);
      assert j + 12 <= i;
      assert s[j..j + 12] == t[j..j + 12];
      var rs := s[j + 12..];
      assert rs[q - (j + 12)] == s[q];
      RunLenBounded(rs, q - (j + 12));
      assert s[j + 12] == '}';
      assert t[j + 12] == s[j + 12];
      RunLenAt(t[j + 12..], 0);
    }
  }

  /** A declaration written as `const <lang> = { u }` in place of the
      match at i is a match with group ` u `. */
  lemma {:induction false} RedeclaredAt(s: string, lang: string, u: string, i: nat)
    requires lang == "en" || lang == "pl"
    requires DeclAt(s, i, lang) && '}' !in u
    ensures var t := s[..i] + (DeclHead(lang) + " " + u + " }") + s[DeclEnd(s, i, lang)..];
      DeclAt(t, i, lang) && Group(t, i, lang) == " " + u + " " && t[i] == 'c'
  {
    var h := DeclHead(lang);
    HeadChars(lang);
    var e := DeclEnd(s, i, lang);
    var tail := " " + u + " }";
    var t := s[..i] + (DeclHead(lang) + " " + u + " }") + s[e..];
    assert t == s[..i] + h + (tail + s[e..]);
    assert t[i..i + 12] == h;
    var r := t[i + 12..];
    assert r == tail + s[e..];
    TailRun(u, s[e..]);
    assert DeclAt(t, i, lang);
    assert Group(t, i, lang) == r[..|u| + 2];
  }

  /** After ` u }` with no `}` in u, the run stops at that brace. */
  lemma {:induction false} TailRun(u: string, rest: string)
    requires '}' !in u
    ensures var r := " " + u + " }" + rest;
      RunLen(r) == |u| + 2 && r[..|u| + 2] == " " + u + " "
  {
    var r := " " + u + " }" + rest;
    forall k | 0 <= k < |u| + 2 ensures r[k] != '}' {
      if 0 < k <= |u| {
        assert r[k] == u[k - 1];
      }
    }
    RunLenAt(r, |u| + 2);
    assert r[..|u| + 2] == " " + u + " ";
  }

  /** Rewriting the first declaration as `const <lang> = { u }`, with no `}`
      in u, leaves it the first match, at the same place, with group
      ` u `. */
  lemma {:induction false} RedeclaredFirst(s: string, lang: string, u: string, i: nat)
    requires lang == "en" || lang == "pl"
    requires FindDecl(s, lang, 0) == Some(i) && '}' !in u
    ensures var t := ReplaceDecl(s, lang, DeclHead(lang) + " " + u + " }");
      FindDecl(t, lang, 0) == Some(i) && Group(t, i, lang) == " " + u + " "
  {
    var e := DeclEnd(s, i, lang);
    var t := s[..i] + (DeclHead(lang) + " " + u + " }") + s[e..];
    assert ReplaceDecl(s, lang, DeclHead(lang) + " " + u + " }") == t;
    FindDeclIs(s, lang, i);
    RedeclaredFirstAt(s, lang, u, i);
    FindDeclIs(t, lang, i);
  }

  /** The same, for the splice itself. */
  lemma {:induction false} RedeclaredFirstAt(s: string, lang: string, u: string, i: nat)
    requires lang == "en" || lang == "pl"
    requires FirstDecl(s, lang, i) && '}' !in u
    ensures var t := s[..i] + (DeclHead(lang) + " " + u + " }") + s[DeclEnd(s, i, lang)..];
      FirstDecl(t, lang, i) && Group(t, i, lang) == " " + u + " "
  {
    HeadChars(lang);
    var e := DeclEnd(s, i, lang);
    var t := s[..i] + (DeclHead(lang) + " " + u + " }") + s[e..];
    RedeclaredAt(s, lang, u, i);
    assert s[..i] == t[..i] && s[i] == 'c';
    forall j | 0 <= j < i ensures !DeclAt(t, j, lang) {
      NoEarlierDecl(s, t, lang, i, e - 1, j);
    }
  }

  /** Whether a match starts at a position depends only on the text from
      there on. */
  lemma {:induction false} DeclSuffix(s: string, j: nat, t: string, j2: nat, lang: string)
    requires j <= |s| && j2 <= |t| && s[j..] == t[j2..]
    ensures DeclAt(s, j, lang) <==> DeclAt(t, j2, lang)
    ensures DeclAt(s, j, lang) ==>
      DeclEnd(t, j2, lang) - j2 == DeclEnd(s, j, lang) - j && Group(t, j2, lang) == Group(s, j, lang)
  {
    var head := DeclHead(lang);
    var n := |head|;
    assert |s| - j == |t| - j2;
    if j + n <= |s| {
      ShiftedSlice(s, j, t, j2, 0, n);
      ShiftedTail(s, j, t, j2, n);
      assert OccursAt(s, head, j) <==> OccursAt(t, head, j2);
      var g := RunLen(s[j + n..]);
      assert g == RunLen(t[j2 + n..]);
      if DeclAt(s, j, lang) {
        ShiftedSlice(s, j, t, j2, n, n + g);
        assert DeclEnd(s, j, lang) == j + n + g + 1;
        assert DeclEnd(t, j2, lang) == j2 + n + g + 1;
      }
    }
  }

  /** Texts equal from j in s and from j2 in t have equal slices there. */
  lemma {:induction false} ShiftedSlice(s: string, j: nat, t: string, j2: nat, a: nat, b: nat)
    requires j <= |s| && j2 <= |t| && s[j..] == t[j2..] && a <= b <= |s| - j
    ensures s[j + a..j + b] == t[j2 + a..j2 + b]
  {
    forall k | j + a <= k < j + b ensures s[k] == t[k - j + j2] {
      assert s[j..][k - j] == t[j2..][k - j];
    }
  }

  /** ... and equal tails. */
  lemma {:induction false} ShiftedTail(s: string, j: nat, t: string, j2: nat, a: nat)
    requires j <= |s| && j2 <= |t| && s[j..] == t[j2..] && a <= |s| - j
    ensures s[j + a..] == t[j2 + a..]
  {
    assert s[j + a..] == s[j..][a..];
    assert t[j2 + a..] == t[j2..][a..];
  }

  /** A match that ends by n is a match of any text agreeing with s before
      n, with the same end and group. */
  lemma {:induction false} DeclPrefix(s: string, t: string, j: nat, n: nat, lang: string)
    requires DeclAt(s, j, lang) && DeclEnd(s, j, lang) <= n <= |t| && n <= |s| && s[..n] == t[..n]
    ensures DeclAt(t, j, lang) && DeclEnd(t, j, lang) == DeclEnd(s, j, lang) && Group(t, j, lang) == Group(s, j, lang)
  {
    var h := DeclHead(lang);
    var e := DeclEnd(s, j, lang);
    SliceAgree(s, t, n, j, j + |h|);
    var g := RunLen(s[j + |h|..]);
    var ts := t[j + |h|..];
    var ss := s[j + |h|..];
    forall k | 0 <= k <= g ensures ts[k] == ss[k] {
      assert t[j + |h| + k] == s[j + |h| + k];
    }
    RunLenAt(t[j + |h|..], g);
    assert Group(t, j, lang) == t[j + |h|..e - 1] == s[j + |h|..e - 1];
  }

  /** Texts that agree before n agree on any slice that ends by n. */
  lemma {:induction false} SliceAgree(s: string, t: string, n: nat, a: nat, b: nat)
    requires a <= b <= n <= |s| && n <= |t| && s[..n] == t[..n]
    ensures s[a..b] == t[a..b]
  {
    assert |s[a..b]| == |t[a..b]|;
    forall k | 0 <= k < b - a ensures s[a..b][k] == t[a..b][k] {
      assert s[a + k] == s[..n][a + k];
      assert t[a + k] == t[..n][a + k];
    }
  }

  /** The shape of a rewritten declaration: the head, `{` nowhere else, and
      a closing `}` at the end. */
  predicate Rewrite(text: string, lang: string) {
    |text| >= 13 && text[|text| - 1] == '}' && text[..12] == DeclHead(lang) &&
    forall k :: 0 <= k < |text| && text[k] == '{' ==> k == 11
  }

  /** t is s with s[i..e] replaced by text. */
  predicate Spliced(s: string, t: string, i: nat, e: nat, text: string) {
    i <= e <= |s| && |t| == |s| - (e - i) + |text| && t[..i] == s[..i] &&
    t[i..i + |text|] == text && t[i + |text|..] == s[e..]
  }

  /** `const <lang> = { u }` has that shape when u has no braces. */
  lemma {:induction false} RewriteBraces(lang: string, u: string)
    requires lang == "en" || lang == "pl"
    requires '{' !in u && '}' !in u
    ensures Rewrite(DeclHead(lang) + " " + u + " }", lang)
  {
    HeadChars(lang);
    var text := DeclHead(lang) + " " + u + " }";
    forall k | 0 <= k < |text| ensures text[k] == '{' ==> k == 11 {
      if 12 < k < |text| - 2 {
        assert text[k] == u[k - 13];
      }
    }
  }

  /** A splice is what its pieces say it is. */
  lemma {:induction false} SplicedIs(s: string, i: nat, e: nat, text: string)
    requires i <= e <= |s|
    ensures Spliced(s, s[..i] + text + s[e..], i, e, text)
  {
    SpliceParts(s, i, text, e);
  }

  /** A head of the other language cannot start inside a rewritten
      declaration. */
  lemma {:induction false} NoHeadInside(t: string, i: nat, text: string, lang: string, other: string, j: nat)
    requires (lang == "en" && other == "pl") || (lang == "pl" && other == "en")
    requires Rewrite(text, lang)
    requires OccursAt(t, text, i) && i <= j < i + |text|
    ensures !OccursAt(t, DeclHead(other), j)
  {
    var h := DeclHead(other);
    HeadChars(other);
    assert text[6] == DeclHead(lang)[6] != h[6];
    CharAt(t, h, j, 11);
    CharAt(t, text, i, j + 11 - i);
    CharAt(t, h, j, 6);
    CharAt(t, text, i, 6);
    CharAt(t, h, j, i + |text| - 1 - j);
    CharAt(t, text, i, |text| - 1);
  }

  /** Rewriting the first declaration s[i..e] of one language as text keeps
      the first declaration of the other, when the two do not overlap: same
      group, same length, moved only when it came after the rewritten
      one. */
  lemma {:induction false} OtherDeclKept(s: string, t: string, lang: string, other: string, text: string, i: nat, e: nat, x: nat)
    requires (lang == "en" && other == "pl") || (lang == "pl" && other == "en")
    requires FirstDecl(s, lang, i) && e == DeclEnd(s, i, lang) && FirstDecl(s, other, x)
    requires Rewrite(text, lang) && Spliced(s, t, i, e, text)
    requires DeclEnd(s, x, other) <= i || e <= x
    ensures x < i ==>
      FirstDecl(t, other, x) && Group(t, x, other) == Group(s, x, other) &&
      DeclEnd(t, x, other) == DeclEnd(s, x, other)
    ensures e <= x ==> var x2 := x + |text| - (e - i);
      FirstDecl(t, other, x2) && Group(t, x2, other) == Group(s, x, other) &&
      DeclEnd(t, x2, other) - x2 == DeclEnd(s, x, other) - x
  {
    if x < i {
      OtherBefore(s, t, other, i, x);
      DeclPrefix(s, t, x, i, other);
    } else {
      OtherAfter(s, t, lang, other, text, i, e, x);
      MovedDecl(s, t, other, text, i, e, x);
    }
  }

  /** The other declaration lies before the rewritten one, in the part of
      the text that stays. */
  lemma {:induction false} OtherBefore(s: string, t: string, other: string, i: nat, x: nat)
    requires other == "en" || other == "pl"
    requires FirstDecl(s, other, x) && DeclEnd(s, x, other) <= i <= |s| && i <= |t|
    requires s[..i] == t[..i]
    ensures FirstDecl(t, other, x)
  {
    DeclPrefix(s, t, x, i, other);
    PrefixAgree(s, t, i, x);
    CharAt(s, DeclHead(other), x, 0);
    HeadChars(other);
    assert s[x] == s[..i][x] == t[..i][x] == t[x];
    EarlierNone(s, t, other, x, DeclEnd(s, x, other) - 1);
  }

  /** No match before i in t, when s has none and they agree before a head
      start at i with a later `}` in s. */
  lemma {:induction false} EarlierNone(s: string, t: string, lang: string, i: nat, q: nat)
    requires lang == "en" || lang == "pl"
    requires i < |s| && i < |t| && s[..i] == t[..i] && s[i] == 'c' && t[i] == 'c'
    requires i <= q < |s| && s[q] == '}' && forall j :: 0 <= j < i ==> !DeclAt(s, j, lang)
    ensures forall j :: 0 <= j < i ==> !DeclAt(t, j, lang)
  {
    forall j | 0 <= j < i ensures !DeclAt(t, j, lang) {
      NoEarlierDecl(s, t, lang, i, q, j);
    }
  }

  /** A match after the spliced part moves by the change in length and keeps
      its group and length. */
  lemma {:induction false} MovedDecl(s: string, t: string, lang: string, text: string, i: nat, e: nat, x: nat)
    requires Spliced(s, t, i, e, text) && e <= x <= |s|
    ensures var x2 := x + |text| - (e - i);
      x2 <= |t| && (DeclAt(s, x, lang) <==> DeclAt(t, x2, lang)) &&
      (DeclAt(s, x, lang) ==>
        DeclEnd(t, x2, lang) - x2 == DeclEnd(s, x, lang) - x && Group(t, x2, lang) == Group(s, x, lang))
  {
    SuffixShift(s, t, e, i + |text|, x);
    DeclSuffix(s, x, t, x + |text| - (e - i), lang);
  }

  /** The other declaration lies after the rewritten one s[i..e], which t
      holds as text. */
  lemma {:induction false} OtherAfter(s: string, t: string, lang: string, other: string, text: string, i: nat, e: nat, x: nat)
    requires (lang == "en" && other == "pl") || (lang == "pl" && other == "en")
    requires FirstDecl(s, lang, i) && e == DeclEnd(s, i, lang) && FirstDecl(s, other, x) && e <= x
    requires Rewrite(text, lang) && Spliced(s, t, i, e, text)
    ensures FirstDecl(t, other, x + |text| - (e - i))
  {
    MovedDecl(s, t, other, text, i, e, x);
    forall j | 0 <= j < x + |text| - (e - i) ensures !DeclAt(t, j, other) {
      NotBeforeMoved(s, t, lang, other, text, i, e, x, j);
    }
  }

  /** One position of OtherAfter's search. */
  lemma {:induction false} NotBeforeMoved(s: string, t: string, lang: string, other: string, text: string, i: nat, e: nat, x: nat, j: nat)
    requires (lang == "en" && other == "pl") || (lang == "pl" && other == "en")
    requires FirstDecl(s, lang, i) && e == DeclEnd(s, i, lang) && FirstDecl(s, other, x) && e <= x
    requires Rewrite(text, lang) && Spliced(s, t, i, e, text)
    requires j < x + |text| - (e - i)
    ensures !DeclAt(t, j, other)
  {
    if j < i {
      SplicedHead(s, t, lang, text, i, e);
      NoEarlierDecl(s, t, other, i, e - 1, j);
    } else if j < i + |text| {
      assert OccursAt(t, text, i);
      NoHeadInside(t, i, text, lang, other, j);
    } else {
      MovedDecl(s, t, other, text, i, e, j - (i + |text|) + e);
    }
  }

  /** Both texts have the `c` of a head at the splice. */
  lemma {:induction false} SplicedHead(s: string, t: string, lang: string, text: string, i: nat, e: nat)
    requires lang == "en" || lang == "pl"
    requires DeclAt(s, i, lang) && e == DeclEnd(s, i, lang)
    requires Rewrite(text, lang) && Spliced(s, t, i, e, text)
    ensures i < |s| && i < |t| && s[i] == 'c' && t[i] == 'c' && s[e - 1] == '}'
  {
    HeadChars(lang);
    CharAt(s, DeclHead(lang), i, 0);
    assert t[i] == t[i..i + |text|][0] == text[0] == text[..12][0];
  }

  /** Texts that agree from e on in s and from d on in t agree from any
      later point, shifted. */
  lemma {:induction false} SuffixShift(s: string, t: string, e: nat, d: nat, x: nat)
    requires e <= x <= |s| && d <= |t| && t[d..] == s[e..]
    ensures s[x..] == t[x - e + d..]
  {
    assert s[x..] == s[e..][x - e..];
    assert t[x - e + d..] == t[d..][x - e..];
  }

  // Running the merge stage twice

  /** An entry that can sit in a declaration and be found again after a
      trim: not empty, no white space at its ends, no braces. */
  predicate CleanEntry(f: string) {
    |f| > 0 && !IsSpace(f[0]) && !IsSpace(f[|f| - 1]) && '{' !in f && '}' !in f
  }

  /** Every entry of the list is clean. */
  predicate AllClean(frags: seq<string>) {
    forall f :: f in frags ==> CleanEntry(f)
  }

  /** The fragments of registry module names are clean entries. */
  lemma {:induction false} FragmentsClean(modules: seq<string>, lang: string)
    requires lang == "En" || lang == "Pl"
    requires forall k :: 0 <= k < |modules| ==> Kebab(modules[k])
    ensures AllClean(Fragments(modules, lang))
  {
    var r := Fragments(modules, lang);
    forall f | f in r ensures CleanEntry(f) {
      var k :| 0 <= k < |r| && r[k] == f;
      FragmentClean(modules[k], lang);
    }
  }

  /** One fragment: it starts with `.`, ends with the language's last
      letter, and camel-casing brings no brace. */
  lemma {:induction false} FragmentClean(name: string, lang: string)
    requires lang == "En" || lang == "Pl"
    requires Kebab(name)
    ensures CleanEntry(Fragment(name, lang))
  {
    var camel := ToCamelCase(name);
    CamelChars(name);
    var f := Fragment(name, lang);
    assert f == "..." + camel + lang;
    assert f[0] == '.' && f[|f| - 1] == lang[1];
    forall q | 0 <= q < |f| ensures f[q] != '{' && f[q] != '}' {
      if 3 <= q < 3 + |camel| {
        assert f[q] == camel[q - 3];
      }
    }
  }

  /** Joining clean entries with `, ` gives a clean entry. */
  lemma {:induction false} JoinClean(parts: seq<string>)
    requires |parts| > 0 && AllClean(parts)
    ensures CleanEntry(JoinWith(parts, ", "))
    decreases |parts|
  {
    if |parts| > 1 {
      assert parts[0] in parts;
      assert forall f :: f in parts[1..] ==> f in parts;
      JoinClean(parts[1..]);
    } else {
      assert parts[0] in parts;
    }
  }

  /** The updated list is a clean entry when the existing one is trimmed and
      brace-free and the new fragments are clean. */
  lemma {:induction false} MergedClean(existing: string, news: seq<string>)
    requires existing != "" ==> CleanEntry(existing)
    requires |news| > 0 && AllClean(news)
    ensures CleanEntry(Merged(existing, news))
  {
    JoinClean(news);
  }

  /** The first declarations of both languages exist and do not overlap. */
  predicate Apart(t: string, i: nat, x: nat) {
    DeclAt(t, i, "en") && DeclAt(t, x, "pl") && (DeclEnd(t, i, "en") <= x || DeclEnd(t, x, "pl") <= i)
  }

  /** What the merge stage needs to find its own output again: the first
      `en` and `pl` declarations, when both exist, do not overlap and have
      no `{` inside. */
  predicate Separate(c: string) {
    match (FindDecl(c, "en", 0), FindDecl(c, "pl", 0))
    case (Some(ie), Some(ip)) =>
      Apart(c, ie, ip) && '{' !in Group(c, ie, "en") && '{' !in Group(c, ip, "pl")
    case _ => true
  }

  /** The declaration of lang holds every fragment once trimmed. */
  predicate Settled(t: string, lang: string, i: nat, frags: seq<string>) {
    FirstDecl(t, lang, i) && forall f :: f in frags ==> Contains(Trim(Group(t, i, lang)), f)
  }

  /** The text one language's update leaves. */
  function StepText(s: string, lang: string, i: nat, frags: seq<string>): string
    requires DeclAt(s, i, lang)
  {
    var existing := Trim(Group(s, i, lang));
    var news := Missing(frags, existing);
    if |news| > 0 then ReplaceDecl(s, lang, Redeclared(lang, existing, news)) else s
  }

  /** One language's update settles that language and keeps the other
      language's first declaration, its group and the separation. */
  lemma {:induction false} Step(s: string, lang: string, other: string, frags: seq<string>, i: nat, x: nat) returns (x2: nat)
    requires (lang == "en" && other == "pl") || (lang == "pl" && other == "en")
    requires FirstDecl(s, lang, i) && FirstDecl(s, other, x)
    requires if lang == "en" then Apart(s, i, x) else Apart(s, x, i)
    requires '{' !in Group(s, i, lang) && AllClean(frags)
    ensures var t := StepText(s, lang, i, frags);
      Settled(t, lang, i, frags) && FirstDecl(t, other, x2) && Group(t, x2, other) == Group(s, x, other) &&
      (if lang == "en" then Apart(t, i, x2) else Apart(t, x2, i))
  {
    var existing := Trim(Group(s, i, lang));
    var news := Missing(frags, existing);
    if |news| == 0 {
      x2 := x;
      NothingMissing(frags, existing);
    } else {
      x2 := StepRewrite(s, lang, other, frags, i, x);
    }
  }

  /** Step, when there are fragments to add. */
  lemma {:induction false} StepRewrite(s: string, lang: string, other: string, frags: seq<string>, i: nat, x: nat) returns (x2: nat)
    requires (lang == "en" && other == "pl") || (lang == "pl" && other == "en")
    requires FirstDecl(s, lang, i) && FirstDecl(s, other, x)
    requires if lang == "en" then Apart(s, i, x) else Apart(s, x, i)
    requires '{' !in Group(s, i, lang) && AllClean(frags)
    requires |Missing(frags, Trim(Group(s, i, lang)))| > 0
    ensures var t := StepText(s, lang, i, frags);
      Settled(t, lang, i, frags) && FirstDecl(t, other, x2) && Group(t, x2, other) == Group(s, x, other) &&
      (if lang == "en" then Apart(t, i, x2) else Apart(t, x2, i))
  {
    var existing := Trim(Group(s, i, lang));
    var news := Missing(frags, existing);
    var u := Merged(existing, news);
    var text := Redeclared(lang, existing, news);
    var e := DeclEnd(s, i, lang);
    var t := s[..i] + text + s[e..];
    FindDeclIs(s, lang, i);
    assert StepText(s, lang, i, frags) == t;
    CleanMerged(s, lang, frags, i);
    RewriteSettles(s, lang, frags, i);
    RewriteBraces(lang, u);
    SplicedIs(s, i, e, text);
    OtherDeclKept(s, t, lang, other, text, i, e, x);
    x2 := if x < i then x else x + |text| - (e - i);
  }

  /** The rewritten declaration stays first, spans the new text, and holds
      every fragment once trimmed. */
  lemma {:induction false} RewriteSettles(s: string, lang: string, frags: seq<string>, i: nat)
    requires lang == "en" || lang == "pl"
    requires FirstDecl(s, lang, i) && '{' !in Group(s, i, lang)
    requires |Missing(frags, Trim(Group(s, i, lang)))| > 0
    requires CleanEntry(Merged(Trim(Group(s, i, lang)), Missing(frags, Trim(Group(s, i, lang)))))
    ensures var existing := Trim(Group(s, i, lang));
      var text := Redeclared(lang, existing, Missing(frags, existing));
      var t := s[..i] + text + s[DeclEnd(s, i, lang)..];
      Settled(t, lang, i, frags) && DeclEnd(t, i, lang) == i + |text|
  {
    var existing := Trim(Group(s, i, lang));
    var news := Missing(frags, existing);
    var u := Merged(existing, news);
    RedeclaredFirstAt(s, lang, u, i);
    TrimPadded(u);
    MergedHasAll(existing, frags);
    var t := s[..i] + Redeclared(lang, existing, news) + s[DeclEnd(s, i, lang)..];
    assert |Group(t, i, lang)| == |u| + 2;
  }

  /** The updated list of a step is a clean entry. */
  lemma {:induction false} CleanMerged(s: string, lang: string, frags: seq<string>, i: nat)
    requires DeclAt(s, i, lang) && '{' !in Group(s, i, lang) && AllClean(frags)
    requires |Missing(frags, Trim(Group(s, i, lang)))| > 0
    ensures CleanEntry(Merged(Trim(Group(s, i, lang)), Missing(frags, Trim(Group(s, i, lang)))))
  {
    var g := Group(s, i, lang);
    TrimChars(g);
    TrimIdempotent(g);
    MergedClean(Trim(g), Missing(frags, Trim(g)));
  }

  /** A second run of the merge stage with the same fragments changes
      nothing, when the declarations it finds are separate and the
      fragments clean. */
  lemma {:induction false} MergeIdempotent(c: string, fragsEn: seq<string>, fragsPl: seq<string>)
    requires Separate(c)
    requires AllClean(fragsEn)
    requires AllClean(fragsPl)
    ensures MergeStage(MergeStage(c, fragsEn, fragsPl), fragsEn, fragsPl) == MergeStage(c, fragsEn, fragsPl)
  {
    if Contains(c, MergesAnchor) && |fragsEn| > 0 && FindDecl(c, "en", 0).Some? && FindDecl(c, "pl", 0).Some? {
      var ie := FindDecl(c, "en", 0).value;
      var ip := FindDecl(c, "pl", 0).value;
      var ie3, ip3 := MergeSettles(c, fragsEn, fragsPl, ie, ip);
      SettledFixed(MergeStage(c, fragsEn, fragsPl), fragsEn, fragsPl, ie3, ip3);
    }
  }

  /** After one run both first declarations hold every fragment. */
  lemma {:induction false} MergeSettles(c: string, fragsEn: seq<string>, fragsPl: seq<string>, ie: nat, ip: nat) returns (ie3: nat, ip3: nat)
    requires Contains(c, MergesAnchor) && |fragsEn| > 0
    requires FindDecl(c, "en", 0) == Some(ie) && FindDecl(c, "pl", 0) == Some(ip)
    requires Apart(c, ie, ip) && '{' !in Group(c, ie, "en") && '{' !in Group(c, ip, "pl")
    requires AllClean(fragsEn)
    requires AllClean(fragsPl)
    ensures var c3 := MergeStage(c, fragsEn, fragsPl);
      Settled(c3, "en", ie3, fragsEn) && Settled(c3, "pl", ip3, fragsPl)
  {
    FindDeclIs(c, "en", ie);
    FindDeclIs(c, "pl", ip);
    var c2 := StepText(c, "en", ie, fragsEn);
    var ip2 := Step(c, "en", "pl", fragsEn, ie, ip);
    var c3 := StepText(c2, "pl", ip2, fragsPl);
    ie3 := Step(c2, "pl", "en", fragsPl, ip2, ie);
    ip3 := ip2;
    FindDeclIs(c2, "pl", ip2);
    StepTexts(c, fragsEn, fragsPl, ie, ip, ip2);
    assert Settled(c3, "en", ie3, fragsEn) by {
      assert Group(c3, ie3, "en") == Group(c2, ie, "en");
    }
  }

  /** The merge stage is the two steps, `en` then `pl`. */
  lemma {:induction false} StepTexts(c: string, fragsEn: seq<string>, fragsPl: seq<string>, ie: nat, ip: nat, ip2: nat)
    requires Contains(c, MergesAnchor) && |fragsEn| > 0
    requires FindDecl(c, "en", 0) == Some(ie) && FindDecl(c, "pl", 0) == Some(ip)
    requires var c2 := StepText(c, "en", ie, fragsEn);
      FindDecl(c2, "pl", 0) == Some(ip2) && Group(c2, ip2, "pl") == Group(c, ip, "pl")
    ensures MergeStage(c, fragsEn, fragsPl) == StepText(StepText(c, "en", ie, fragsEn), "pl", ip2, fragsPl)
  {
  }

  /** Text whose first declarations already hold every fragment is a fixed
      point of the merge stage. */
  lemma {:induction false} SettledFixed(c: string, fragsEn: seq<string>, fragsPl: seq<string>, ie: nat, ip: nat)
    requires Settled(c, "en", ie, fragsEn) && Settled(c, "pl", ip, fragsPl)
    ensures MergeStage(c, fragsEn, fragsPl) == c
  {
    FindDeclIs(c, "en", ie);
    FindDeclIs(c, "pl", ip);
    NoneMissing(fragsEn, Trim(Group(c, ie, "en")));
    NoneMissing(fragsPl, Trim(Group(c, ip, "pl")));
  }

  // Running the whole injection twice

  /** The braces and ends of an import line: it starts with `import {`,
      has no other `{`, no `}` before its `{`, and ends with a quote. */
  predicate ImportShaped(l: string) {
    |l| > 8 && l[0] == 'i' && l[7] == '{' && l[|l| - 1] == '\'' &&
    (forall k :: 0 <= k < 7 ==> l[k] != '}') &&
    forall q :: 0 <= q < |l| && l[q] == '{' ==> q == 7
  }

  /** The import lines of registry module names have that shape. */
  lemma {:induction false} LineBraces(name: string, lang: string)
    requires Kebab(name) && (lang == "En" || lang == "Pl")
    ensures ImportShaped(ImportLine(name, lang))
  {
    var c := ToCamelCase(name);
    CamelChars(name);
    var a := "import { ";
    var b := " } from '@/modules/";
    var e := "/i18n'";
    var l := ImportLine(name, lang);
    assert l == a + c + lang + b + name + e;
    var n1 := |a|;
    var n2 := n1 + |c|;
    var n3 := n2 + |lang|;
    var n4 := n3 + |b|;
    var n5 := n4 + |name|;
    assert |l| == n5 + |e|;
    assert forall k :: 0 <= k < |a| && a[k] == '{' ==> k == 7;
    assert forall k :: 0 <= k < |b| ==> b[k] != '{';
    assert forall k :: 0 <= k < |e| ==> e[k] != '{';
    forall q | 0 <= q < |l|
      ensures l[q] == '{' ==> q == 7
    {
      if q < n1 {
        assert l[q] == a[q];
      } else if q < n2 {
        assert l[q] == c[q - n1];
      } else if q < n3 {
        assert l[q] == lang[q - n2];
      } else if q < n4 {
        assert l[q] == b[q - n3];
      } else if q < n5 {
        assert l[q] == name[q - n4];
      } else {
        assert l[q] == e[q - n5];
      }
    }
    assert l[|l| - 1] == e[5];
  }

  /** The declaration head has no quote, and `t` fifth. */
  lemma {:induction false} HeadQuote(lang: string)
    requires lang == "en" || lang == "pl"
    ensures forall k :: 0 <= k < 12 ==> DeclHead(lang)[k] != '\''
    ensures DeclHead(lang)[4] == 't'
  {
  }

  /** A character inside the braces of a match belongs to its group. */
  lemma {:induction false} GroupAt(s: string, i: nat, lang: string, q: int)
    ensures DeclAt(s, i, lang) && i + |DeclHead(lang)| <= q < DeclEnd(s, i, lang) - 1 ==>
      s[q] == Group(s, i, lang)[q - i - |DeclHead(lang)|]
  {
  }

  /** An import line cannot overlap a declaration without `{` in its group:
      the line's only `{` would have to be the head's, and its quote or its
      `import` cannot meet the head or the closing `}`. */
  lemma {:induction false} LineOutside(s: string, i: nat, lang: string, l: string, p: nat)
    requires lang == "en" || lang == "pl"
    requires DeclAt(s, i, lang) && '{' !in Group(s, i, lang)
    requires ImportShaped(l) && OccursAt(s, l, p)
    ensures p + |l| <= i || DeclEnd(s, i, lang) <= p
  {
    var e := DeclEnd(s, i, lang);
    var h := DeclHead(lang);
    HeadChars(lang);
    HeadQuote(lang);
    CharAt(s, l, p, 7);
    CharAt(s, h, i, p + 7 - i);
    CharAt(s, h, i, 4);
    CharAt(s, l, p, 0);
    GroupAt(s, i, lang, p + 7);
    CharAt(s, l, p, e - 1 - p);
    CharAt(s, h, i, 11);
    CharAt(s, l, p, i + 11 - p);
    CharAt(s, l, p, |l| - 1);
    CharAt(s, h, i, p + |l| - 1 - i);
  }

  /** One language's update keeps every import line. */
  lemma {:induction false} StepKeepsLine(s: string, lang: string, i: nat, frags: seq<string>, l: string)
    requires lang == "en" || lang == "pl"
    requires FirstDecl(s, lang, i) && '{' !in Group(s, i, lang)
    requires ImportShaped(l) && Contains(s, l)
    ensures Contains(StepText(s, lang, i, frags), l)
  {
    var existing := Trim(Group(s, i, lang));
    var news := Missing(frags, existing);
    if |news| > 0 {
      FindDeclIs(s, lang, i);
      var p :| 0 <= p <= |s| - |l| && OccursAt(s, l, p);
      LineOutside(s, i, lang, l, p);
      SpliceKeeps(s, i, DeclEnd(s, i, lang), Redeclared(lang, existing, news), l, p);
    }
  }

  /** The merge stage keeps every import line. */
  lemma {:induction false} MergeKeepsLine(c: string, fragsEn: seq<string>, fragsPl: seq<string>, l: string)
    requires Separate(c)
    requires AllClean(fragsEn)
    requires AllClean(fragsPl)
    requires ImportShaped(l) && Contains(c, l)
    ensures Contains(MergeStage(c, fragsEn, fragsPl), l)
  {
    if Contains(c, MergesAnchor) && |fragsEn| > 0 && FindDecl(c, "en", 0).Some? && FindDecl(c, "pl", 0).Some? {
      var ie := FindDecl(c, "en", 0).value;
      var ip := FindDecl(c, "pl", 0).value;
      FindDeclIs(c, "en", ie);
      FindDeclIs(c, "pl", ip);
      var c2 := StepText(c, "en", ie, fragsEn);
      var ip2 := Step(c, "en", "pl", fragsEn, ie, ip);
      FindDeclIs(c2, "pl", ip2);
      StepTexts(c, fragsEn, fragsPl, ie, ip, ip2);
      StepKeepsLine(c, "en", ie, fragsEn, l);
      StepKeepsLine(c2, "pl", ip2, fragsPl, l);
    }
  }

  /** The import lines of registry module names all have that shape. */
  lemma {:induction false} LinesShaped(modules: seq<string>, l: string)
    requires forall k :: 0 <= k < |modules| ==> Kebab(modules[k])
    requires l in ImportLines(modules)
    ensures ImportShaped(l)
  {
    ImportLinesFrom(modules, l);
    var m :| m in modules && (l == ImportLine(m, "En") || l == ImportLine(m, "Pl"));
    if l == ImportLine(m, "En") {
      LineBraces(m, "En");
    } else {
      LineBraces(m, "Pl");
    }
  }

  /** The import lines present before the merge stage are present after
      it. */
  lemma {:induction false} LinesKept(c: string, modules: seq<string>)
    requires forall k :: 0 <= k < |modules| ==> Kebab(modules[k])
    ensures Separate(c) && (forall l :: l in ImportLines(modules) ==> Contains(c, l)) ==>
      forall l :: l in ImportLines(modules) ==>
        Contains(MergeStage(c, Fragments(modules, "En"), Fragments(modules, "Pl")), l)
  {
    if Separate(c) && forall l :: l in ImportLines(modules) ==> Contains(c, l) {
      FragmentsBothClean(modules);
      forall l | l in ImportLines(modules)
        ensures Contains(MergeStage(c, Fragments(modules, "En"), Fragments(modules, "Pl")), l)
      {
        LinesShaped(modules, l);
        MergeKeepsLine(c, Fragments(modules, "En"), Fragments(modules, "Pl"), l);
      }
    }
  }

  /** After one injection the import stage has nothing left to add. */
  lemma {:induction false} ImportsSettled(c: string, modules: seq<string>)
    requires forall k :: 0 <= k < |modules| ==> Kebab(modules[k])
    ensures Contains(c, ImportsAnchor) && Separate(ImportStage(c, ImportLines(modules))) ==>
      ImportStage(Inject(c, modules), ImportLines(modules)) == Inject(c, modules)
  {
    if Contains(c, ImportsAnchor) && Separate(ImportStage(c, ImportLines(modules))) {
      ImportComplete(c, modules);
      StageSettled(ImportStage(c, ImportLines(modules)), modules);
    }
  }

  /** Text holding every import line keeps them through the merge stage,
      so the import stage then has nothing to add. */
  lemma {:induction false} StageSettled(s: string, modules: seq<string>)
    requires forall k :: 0 <= k < |modules| ==> Kebab(modules[k])
    requires Separate(s) && forall l :: l in ImportLines(modules) ==> Contains(s, l)
    ensures var t := MergeStage(s, Fragments(modules, "En"), Fragments(modules, "Pl"));
      ImportStage(t, ImportLines(modules)) == t
  {
    LinesKept(s, modules);
    KeptLinesUnchanged(s, modules);
  }

  /** When the merge result holds every import line, the import stage
      leaves it alone. */
  lemma {:induction false} KeptLinesUnchanged(s: string, modules: seq<string>)
    requires forall l :: l in ImportLines(modules) ==>
      Contains(MergeStage(s, Fragments(modules, "En"), Fragments(modules, "Pl")), l)
    ensures var t := MergeStage(s, Fragments(modules, "En"), Fragments(modules, "Pl"));
      ImportStage(t, ImportLines(modules)) == t
  {
    AllPresentUnchanged(MergeStage(s, Fragments(modules, "En"), Fragments(modules, "Pl")), ImportLines(modules));
  }

  /** Text already holding every line is left alone by the import stage. */
  lemma {:induction false} AllPresentUnchanged(content: string, lines: seq<string>)
    requires forall l :: l in lines ==> Contains(content, l)
    ensures ImportStage(content, lines) == content
  {
    NoneMissing(lines, content);
  }

  /** The merge stage with the fragments of registry module names is
      idempotent on separate text. */
  lemma {:induction false} MergeIdempotentModules(c: string, modules: seq<string>)
    requires forall k :: 0 <= k < |modules| ==> Kebab(modules[k])
    ensures var fragsEn := Fragments(modules, "En");
      var fragsPl := Fragments(modules, "Pl");
      Separate(c) ==> MergeStage(MergeStage(c, fragsEn, fragsPl), fragsEn, fragsPl) == MergeStage(c, fragsEn, fragsPl)
  {
    if Separate(c) {
      FragmentsBothClean(modules);
      MergeIdempotent(c, Fragments(modules, "En"), Fragments(modules, "Pl"));
    }
  }

  /** Both fragment lists are clean. */
  lemma {:induction false} FragmentsBothClean(modules: seq<string>)
    requires forall k :: 0 <= k < |modules| ==> Kebab(modules[k])
    ensures AllClean(Fragments(modules, "En")) && AllClean(Fragments(modules, "Pl"))
  {
    FragmentsClean(modules, "En");
    FragmentsClean(modules, "Pl");
  }

  /** A second injection of the same modules changes nothing, when the
      aggregator has its imports anchor, the module names are kebab case
      and the declarations the merge stage finds are separate. */
  lemma {:induction false} InjectIdempotent(c: string, modules: seq<string>)
    requires forall k :: 0 <= k < |modules| ==> Kebab(modules[k])
    ensures Contains(c, ImportsAnchor) && Separate(ImportStage(c, ImportLines(modules))) ==>
      Inject(Inject(c, modules), modules) == Inject(c, modules)
  {
    if Contains(c, ImportsAnchor) && Separate(ImportStage(c, ImportLines(modules))) {
      ImportsSettled(c, modules);
      MergeIdempotentModules(ImportStage(c, ImportLines(modules)), modules);
    }
  }
}
