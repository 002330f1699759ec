/** cli/src/helpers/vite-config.ts: the two text patches applied to a
    project's vite.config.ts. The file comes in as its text and goes out as
    the text written back, None when the file is left alone. The two
    regular expressions are modelled by what they match: `plugins:`, any
    white space, `[`; and white space, `}`, white space, `)`, white space,
    then the end of a line. */
module ViteConfig {
  import opened Wrappers
  import opened Text

  const VueImport := "import vue from '@vitejs/plugin-vue'"
  const TailwindImport := "import tailwindcss from '@tailwindcss/vite'"
  const TailwindMarker := "@tailwindcss/vite"
  const PluginsOpening := "plugins: [\n    tailwindcss(),"
  const ServerMarker := "server:"
  const ProxyBlock := ",\n  " + ServerMarker + " {\n    proxy: {\n      '/api': {\n        target: process.env.VITE_API_PROXY_URL ?? 'http://localhost:8000',\n        changeOrigin: true,\n      },\n    },\n  },"

  /** r starts with `\s*\[`; BracketLen is the length of that match. */
  predicate SpacesThenBracket(r: string)
    decreases |r|
  {
    |r| > 0 && (r[0] == '[' || (IsSpace(r[0]) && SpacesThenBracket(r[1..])))
  }

  function BracketLen(r: string): (n: nat)
    requires SpacesThenBracket(r)
    ensures 1 <= n <= |r| && r[n - 1] == '['
    ensures forall q :: 0 <= q < n - 1 ==> IsSpace(r[q])
    decreases |r|
  {
    if r[0] == '[' then 1 else 1 + BracketLen(r[1..])
  }

  /** r starts with a match of `plugins:\s*\[`. */
  predicate PluginsOpen(r: string) {
    StartsWith(r, "plugins:") && SpacesThenBracket(r[8..])
  }

  /** The length of that match. */
  function PluginsLen(r: string): (n: nat)
    requires PluginsOpen(r)
    ensures 9 <= n <= |r|
  {
    8 + BracketLen(r[8..])
  }

  /** A plugins match starts at index j of s. */
  predicate PluginsAt(s: string, j: int) {
    0 <= j <= |s| && PluginsOpen(s[j..])
  }

  /** The first plugins match starts at i. */
  predicate FirstPlugins(s: string, i: int) {
    PluginsAt(s, i) && forall j :: 0 <= j < i ==> !PluginsAt(s, j)
  }

  /** The leftmost plugins match at or after `from`, as the regular
      expression engine finds it. */
  function FindPlugins(s: string, from: nat): (r: Option<nat>)
    requires from <= |s| + 1
    ensures r.Some? ==> from <= r.value && PluginsAt(s, r.value) &&
                        forall j :: from <= j < r.value ==> !PluginsAt(s, j)
    ensures r.None? ==> forall j :: from <= j <= |s| ==> !PluginsAt(s, j)
    decreases |s| + 1 - from
  {
    if from > |s| then None
    else if PluginsAt(s, from) then Some(from)
    else FindPlugins(s, from + 1)
  }

  /** The first match of `plugins:\s*\[` replaced by r. */
  function ReplacePlugins(s: string, r: string): string {
    match FindPlugins(s, 0)
    case None => s
    case Some(i) => s[..i] + r + s[i + PluginsLen(s[i..])..]
  }

  /** ReplacePlugins cuts s at the first match, and without a match it
      changes nothing. */
  lemma PluginsCut(s: string, r: string, i: nat)
    ensures FirstPlugins(s, i) ==> ReplacePlugins(s, r) == s[..i] + r + s[i + PluginsLen(s[i..])..]
    ensures (forall j :: 0 <= j <= |s| ==> !PluginsAt(s, j)) ==> ReplacePlugins(s, r) == s
  {
    var f := FindPlugins(s, 0);
    if FirstPlugins(s, i) {
      assert f.Some?;
      assert f.value == i;
    }
  }

  /** `addTailwindToViteConfig` on the text: nothing when the marker is
      there, otherwise the import after the vue import and the plugin call
      at the head of the plugins array. */
  function AddTailwind(s: string): string {
    if Contains(s, TailwindMarker) then s
    else ReplacePlugins(ReplaceFirst(s, VueImport, VueImport + "\n" + TailwindImport), PluginsOpening)
  }

  method AddTailwindToViteConfig(viteConfig: string) returns (written: Option<string>)
    ensures Contains(viteConfig, TailwindMarker) ==> written == None
    ensures !Contains(viteConfig, TailwindMarker) ==> written == Some(AddTailwind(viteConfig))
  {
    written := None;
    if !Contains(viteConfig, TailwindMarker) {
      var config := ReplaceFirst(viteConfig, VueImport, VueImport + "\n" + TailwindImport);
      config := ReplacePlugins(config, PluginsOpening);
      written := Some(config);
    }
  }

  /** A plugins match holds only `plugins:`, white space and `[`, so no
      character of it is `@`. */
  lemma MatchHasNoAt(t: string, i: nat)
    requires i <= |t| && PluginsOpen(t[i..])
    ensures t[i] == 'p'
    ensures forall q :: i <= q < i + PluginsLen(t[i..]) ==> t[q] != '@'
  {
    var r := t[i..];
    var n := BracketLen(r[8..]);
    assert r[..8] == "plugins:";
    assert t[i] == r[0] == 'p';
    forall q | i <= q < i + PluginsLen(r) ensures t[q] != '@' {
      assert t[q] == r[q - i];
      if q - i < 8 {
        assert r[q - i] == r[..8][q - i];
      } else {
        assert r[q - i] == r[8..][q - i - 8];
      }
    }
  }

  /** An occurrence of the marker never overlaps a plugins match: the
      marker has no `p` and the match no `@`. */
  lemma MarkerApart(t: string, i: nat, j: int)
    requires i <= |t| && PluginsOpen(t[i..])
    ensures OccursAt(t, TailwindMarker, j) ==> j + |TailwindMarker| <= i || j >= i + PluginsLen(t[i..])
  {
    MatchHasNoAt(t, i);
    OccursChars(t, TailwindMarker, j);
    assert OccursAt(t, TailwindMarker, j) && j <= i < j + |TailwindMarker| ==>
      t[j + (i - j)] == TailwindMarker[i - j];
    assert OccursAt(t, TailwindMarker, j) ==> t[j + 0] == TailwindMarker[0];
    assert TailwindMarker[0] == '@';
    assert forall k :: 0 <= k < |TailwindMarker| ==> TailwindMarker[k] != 'p';
  }

  /** The plugin step keeps the marker. */
  lemma MarkerKept(t: string, r: string)
    requires Contains(t, TailwindMarker)
    ensures Contains(ReplacePlugins(t, r), TailwindMarker)
  {
    var j :| 0 <= j <= |t| - |TailwindMarker| && OccursAt(t, TailwindMarker, j);
    var found := FindPlugins(t, 0);
    if found.Some? {
      var i := found.value;
      MarkerApart(t, i, j);
      SpliceKeeps(t, i, i + PluginsLen(t[i..]), r, TailwindMarker, j);
      PluginsCut(t, r, i);
    } else {
      PluginsCut(t, r, 0);
    }
  }

  /** A config that already mentions `@tailwindcss/vite` is left alone. */
  lemma TailwindPresentUnchanged(s: string)
    requires Contains(s, TailwindMarker)
    ensures AddTailwind(s) == s
  {
  }

  /** Otherwise the import goes right after the first vue import, and the
      plugin call replaces the first plugins match of that text. */
  lemma TailwindPlaced(s: string, i: nat, k: nat)
    requires !Contains(s, TailwindMarker) && FirstOccurrence(s, VueImport, i)
    requires FirstPlugins(ReplaceFirst(s, VueImport, VueImport + "\n" + TailwindImport), k)
    ensures var mid := ReplaceFirst(s, VueImport, VueImport + "\n" + TailwindImport);
      mid == s[..i + |VueImport|] + ("\n" + TailwindImport) + s[i + |VueImport|..] &&
      AddTailwind(s) == mid[..k] + PluginsOpening + mid[k + PluginsLen(mid[k..])..]
  {
    assert VueImport + "\n" + TailwindImport == VueImport + ("\n" + TailwindImport);
    InsertAfterFirst(s, VueImport, "\n" + TailwindImport, i);
    PluginsCut(ReplaceFirst(s, VueImport, VueImport + "\n" + TailwindImport), PluginsOpening, k);
  }

  /** With the vue import in place, the marker arrives with the new import
      line and a second run changes nothing. */
  lemma TailwindIdempotent(s: string)
    requires Contains(s, VueImport)
    ensures AddTailwind(AddTailwind(s)) == AddTailwind(s)
  {
    if !Contains(s, TailwindMarker) {
      TailwindLine();
      InsertAfterKeeps(s, VueImport, "\n" + TailwindImport, TailwindMarker);
      MarkerKept(ReplaceFirst(s, VueImport, VueImport + "\n" + TailwindImport), PluginsOpening);
    }
  }

  /** The inserted text carries the marker. */
  lemma TailwindLine()
    ensures VueImport + "\n" + TailwindImport == VueImport + ("\n" + TailwindImport)
    ensures OccursAt("\n" + TailwindImport, TailwindMarker, 26)
  {
  }

  /** Without the vue import the marker never gets in: after a first run
      the guard still lets the patch through and a plugins match is still
      there, so a second run inserts `tailwindcss(),` again. */
  lemma TailwindRepeats(s: string, k: nat)
    requires !Contains(s, VueImport) && !Contains(s, TailwindMarker)
    requires PluginsAt(s, k)
    ensures !Contains(AddTailwind(s), TailwindMarker)
    ensures exists i :: PluginsAt(AddTailwind(s), i)
  {
    ReplaceFirstAbsent(s, VueImport, VueImport + "\n" + TailwindImport);
    var i := FindPlugins(s, 0).value;
    var e := i + PluginsLen(s[i..]);
    var t := s[..i] + PluginsOpening + s[e..];
    assert t == AddTailwind(s);
    OpeningShape();
    OpeningStartsMatch(t, i);
    SpliceAvoidsMarker(s, i, e, PluginsOpening);
  }

  /** The plugin opening holds no `@`, starts with a `p`, which the marker
      lacks, and starts with `plugins: [`. */
  lemma OpeningShape()
    ensures forall q :: 0 <= q < |PluginsOpening| ==> PluginsOpening[q] != '@'
    ensures forall q :: 0 <= q < |TailwindMarker| ==> TailwindMarker[q] != PluginsOpening[0]
    ensures PluginsOpening[..10] == "plugins: ["
  {
  }

  /** Wherever the opening is spliced in, a plugins match starts there. */
  lemma OpeningStartsMatch(t: string, i: nat)
    requires i + |PluginsOpening| <= |t| && t[i..i + |PluginsOpening|] == PluginsOpening
    ensures PluginsAt(t, i)
  {
    OpeningShape();
    assert t[i..][..10] == PluginsOpening[..10];
    assert StartsWith(t[i..], "plugins:");
    var u := t[i..][8..];
    assert u[0] == ' ' && u[1..][0] == '[';
    assert SpacesThenBracket(u[1..]);
  }

  /** Splicing in text without `@` whose first character the marker lacks
      cannot create the marker. */
  lemma SpliceAvoidsMarker(s: string, i: nat, e: nat, r: string)
    requires i <= e <= |s| && !Contains(s, TailwindMarker) && |r| > 0
    requires forall q :: 0 <= q < |r| ==> r[q] != '@'
    requires forall q :: 0 <= q < |TailwindMarker| ==> TailwindMarker[q] != r[0]
    ensures !Contains(s[..i] + r + s[e..], TailwindMarker)
  {
    var t := s[..i] + r + s[e..];
    var m := TailwindMarker;
    assert m[0] == '@';
    forall j | 0 <= j <= |t| - |m| ensures !OccursAt(t, m, j) {
      if j + |m| <= i {
        assert t[j..j + |m|] == s[j..j + |m|];
        assert !OccursAt(s, m, j);
      } else if j < i {
        assert t[i] == r[0];
        CharAt(t, m, j, i - j);
      } else if j < i + |r| {
        assert t[j] == r[j - i];
        CharAt(t, m, j, 0);
      } else {
        var j' := j - |r| + e - i;
        assert t == (s[..i] + r) + s[e..];
        assert t[j..j + |m|] == s[e..][j - i - |r|..j - i - |r| + |m|];
        assert t[j..j + |m|] == s[j'..j' + |m|];
        assert !OccursAt(s, m, j');
      }
    }
  }

  /** `\s*` then the end of a line: the leading white space of r reaches
      a line terminator or the end of r (the `m` flag's `$`). */
  predicate EndsLine(r: string)
    decreases |r|
  {
    |r| == 0 || r[0] == '\n' || r[0] == '\r' || r[0] == '\U{2028}' || r[0] == '\U{2029}' ||
    (IsSpace(r[0]) && EndsLine(r[1..]))
  }

  /** `\s*\)\s*$`. */
  predicate ParenThenEnd(r: string)
    decreases |r|
  {
    |r| > 0 && ((r[0] == ')' && EndsLine(r[1..])) || (IsSpace(r[0]) && ParenThenEnd(r[1..])))
  }

  /** `\s*}\s*\)\s*$`. */
  predicate BraceThenParen(r: string)
    decreases |r|
  {
    |r| > 0 && ((r[0] == '}' && ParenThenEnd(r[1..])) || (IsSpace(r[0]) && BraceThenParen(r[1..])))
  }

  /** r starts with a match of `(\s+)(}\s*\)\s*)$` under the `m` flag:
      since neither `}` nor `)` is white space, the greedy groups can only
      stop right before them. */
  predicate ClosingAt(r: string) {
    |r| > 0 && IsSpace(r[0]) && BraceThenParen(r[1..])
  }

  /** A closing match starts at index j of s. */
  predicate ClosingIndex(s: string, j: int) {
    0 <= j <= |s| && ClosingAt(s[j..])
  }

  predicate FirstClosing(s: string, i: int) {
    ClosingIndex(s, i) && forall j :: 0 <= j < i ==> !ClosingIndex(s, j)
  }

  /** The leftmost closing match at or after `from`. */
  function FindClosing(s: string, from: nat): (r: Option<nat>)
    requires from <= |s| + 1
    ensures r.Some? ==> from <= r.value && ClosingIndex(s, r.value) &&
                        forall j :: from <= j < r.value ==> !ClosingIndex(s, j)
    ensures r.None? ==> forall j :: from <= j <= |s| ==> !ClosingIndex(s, j)
    decreases |s| + 1 - from
  {
    if from > |s| then None
    else if ClosingIndex(s, from) then Some(from)
    else FindClosing(s, from + 1)
  }

  /** The replacement writes the block followed by the two groups, which
      together are the match itself: the block goes in just before the
      first match. */
  function InsertBeforeClosing(s: string, block: string): string {
    match FindClosing(s, 0)
    case None => s
    case Some(i) => s[..i] + block + s[i..]
  }

  /** `addProxyToViteConfig` on the text. */
  function AddProxy(s: string): string {
    if Contains(s, ServerMarker) then s else InsertBeforeClosing(s, ProxyBlock)
  }

  method AddProxyToViteConfig(viteConfig: string) returns (written: Option<string>)
    ensures Contains(viteConfig, ServerMarker) ==> written == None
    ensures !Contains(viteConfig, ServerMarker) ==> written == Some(AddProxy(viteConfig))
  {
    written := None;
    if !Contains(viteConfig, ServerMarker) {
      var config := InsertBeforeClosing(viteConfig, ProxyBlock);
      written := Some(config);
    }
  }

  /** A config with a `server:` key is left alone; otherwise the proxy
      block lands just before the first closing `})` that ends a line, and
      the closing itself follows it unchanged. */
  lemma ProxyPlaced(s: string, i: nat)
    requires !Contains(s, ServerMarker) && FirstClosing(s, i)
    ensures AddProxy(s) == s[..i] + ProxyBlock + s[i..]
  {
  }

  /** The block itself holds `server:`, so a second run changes nothing. */
  lemma ProxyIdempotent(s: string)
    ensures AddProxy(AddProxy(s)) == AddProxy(s)
  {
    if !Contains(s, ServerMarker) {
      var found := FindClosing(s, 0);
      if found.Some? {
        var i := found.value;
        assert ProxyBlock[4..4 + |ServerMarker|] == ServerMarker;
        assert OccursAt(ProxyBlock, ServerMarker, 4);
        ContainsInserted(s, i, ProxyBlock, ServerMarker);
      }
    }
  }
}
