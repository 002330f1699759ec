/** cli/src/helpers/router-injector.ts: patching the generated router files
    at comment anchors. The two files come in as their contents (None when
    the file does not exist) and go out as the text written back (None when
    nothing is written). */
module RouterInjector {
  import opened Wrappers
  import opened Text

  const ImportsAnchor := "// @vbr-insert-routes:imports"
  const SpreadAnchor := "// @vbr-insert-routes:spread"
  const GuardsAnchor := "// @vbr-insert-guards"

  /** The options that shape the text; absent lists and block are None. */
  datatype Options = Options(
    importLines: Option<seq<string>>,
    spreadLines: Option<seq<string>>,
    guardBlock: Option<string>)

  /** What is written back: the new routes file and router index, each
      None when that file is left untouched. */
  datatype Written = Written(routes: Option<string>, index: Option<string>)

  /** Lines joined by sep and placed right after the first anchor, each
      following a sep; nothing happens without lines or without the anchor. */
  function InjectLines(content: string, anchor: string, sep: string, lines: seq<string>): string {
    if |lines| > 0 && Contains(content, anchor) then
      ReplaceFirst(content, anchor, anchor + sep + JoinWith(lines, sep))
    else content
  }

  /** The guard block after the guards anchor, followed by a newline, unless
      the anchor is missing or the block is already there. */
  function InjectGuard(content: string, block: string): string {
    if Contains(content, GuardsAnchor) && !Contains(content, block) then
      ReplaceFirst(content, GuardsAnchor, GuardsAnchor + "\n" + block + "\n")
    else content
  }

  /** The routes file after both insertions: imports, then spreads. */
  function PatchRoutes(content: string, importLines: seq<string>, spreadLines: seq<string>): string {
    InjectLines(InjectLines(content, ImportsAnchor, "\n", importLines), SpreadAnchor, "\n  ", spreadLines)
  }

  /** `injectRoutesAndGuards`: the routes file, when it exists, is always
      written back; the router index only when the guard goes in. */
  method InjectRoutesAndGuards(options: Options, routesFile: Option<string>, indexFile: Option<string>)
    returns (written: Written)
    ensures written.routes ==
      (if routesFile.Some? then
         Some(PatchRoutes(routesFile.value, NonEmpty(OrEmpty(options.importLines)), NonEmpty(OrEmpty(options.spreadLines))))
       else None)
    ensures written.index ==
      (if options.guardBlock.Some? && Trim(options.guardBlock.value) != "" && indexFile.Some? &&
          Contains(indexFile.value, GuardsAnchor) && !Contains(indexFile.value, Trim(options.guardBlock.value))
       then Some(InjectGuard(indexFile.value, Trim(options.guardBlock.value)))
       else None)
  {
    var importLines := NonEmpty(OrEmpty(options.importLines));
    var spreadLines := NonEmpty(OrEmpty(options.spreadLines));
    var guardBlock := if options.guardBlock.Some? then Trim(options.guardBlock.value) else "";
    written := Written(None, None);

    if routesFile.Some? {
      var content := routesFile.value;
      if |importLines| > 0 && Contains(content, ImportsAnchor) {
        content := ReplaceFirst(content, ImportsAnchor, ImportsAnchor + "\n" + JoinWith(importLines, "\n"));
      }
      if |spreadLines| > 0 && Contains(content, SpreadAnchor) {
        content := ReplaceFirst(content, SpreadAnchor, SpreadAnchor + "\n  " + JoinWith(spreadLines, "\n  "));
      }
      written := written.(routes := Some(content));
    }

    if guardBlock != "" && indexFile.Some? {
      var content := indexFile.value;
      if Contains(content, GuardsAnchor) && !Contains(content, guardBlock) {
        content := ReplaceFirst(content, GuardsAnchor, GuardsAnchor + "\n" + guardBlock + "\n");
        written := written.(index := Some(content));
      }
    }
  }

  /** Empty import and spread strings never reach the file, and the guard
      block has no white space at either end. */
  lemma CleanedInputs(options: Options)
    ensures forall k :: 0 <= k < |NonEmpty(OrEmpty(options.importLines))| ==>
      NonEmpty(OrEmpty(options.importLines))[k] != ""
    ensures options.guardBlock.Some? ==>
      var b := Trim(options.guardBlock.value);
      |b| > 0 ==> !IsSpace(b[0]) && !IsSpace(b[|b| - 1])
  {
    if options.guardBlock.Some? {
      TrimIdempotent(options.guardBlock.value);
    }
  }

  /** With lines and an anchor, the lines go right after the first anchor,
      which stays; otherwise the text is unchanged. */
  lemma {:induction false} InjectLinesPlaces(content: string, anchor: string, sep: string, lines: seq<string>, i: nat)
    requires FirstOccurrence(content, anchor, i)
    ensures |lines| > 0 ==>
      InjectLines(content, anchor, sep, lines) ==
      content[..i + |anchor|] + (sep + JoinWith(lines, sep)) + content[i + |anchor|..]
    ensures |lines| == 0 ==> InjectLines(content, anchor, sep, lines) == content
  {
    assert Contains(content, anchor);
    assert anchor + sep + JoinWith(lines, sep) == anchor + (sep + JoinWith(lines, sep));
    InsertAfterFirst(content, anchor, sep + JoinWith(lines, sep), i);
  }

  /** Without the anchor, injection leaves the text alone. */
  lemma NoAnchorNoChange(content: string, anchor: string, sep: string, lines: seq<string>)
    requires !Contains(content, anchor)
    ensures InjectLines(content, anchor, sep, lines) == content
  {
  }

  /** After an injection every line is in the text and the anchor is still
      there. */
  lemma InjectedLinesPresent(content: string, anchor: string, sep: string, lines: seq<string>, k: nat)
    requires Contains(content, anchor) && k < |lines|
    ensures Contains(InjectLines(content, anchor, sep, lines), lines[k])
    ensures Contains(InjectLines(content, anchor, sep, lines), anchor)
  {
    var ins := sep + JoinWith(lines, sep);
    assert anchor + sep + JoinWith(lines, sep) == anchor + ins;
    JoinContains(lines, sep, k);
    ContainsAfter(sep, JoinWith(lines, sep), lines[k]);
    InsertAfterKeeps(content, anchor, ins, lines[k]);
  }

  /** There is no duplicate check: running the import injection again on
      its own output inserts the lines a second time, so the text grows. */
  lemma ImportsRepeat(content: string, lines: seq<string>)
    requires Contains(content, ImportsAnchor) && |lines| > 0
    ensures var once := InjectLines(content, ImportsAnchor, "\n", lines);
      |InjectLines(once, ImportsAnchor, "\n", lines)| == |once| + 1 + |JoinWith(lines, "\n")|
  {
    var once := InjectLines(content, ImportsAnchor, "\n", lines);
    InjectedLinesPresent(content, ImportsAnchor, "\n", lines, 0);
    FirstOccurrenceExists(once, ImportsAnchor);
    var i :| 0 <= i <= |once| - |ImportsAnchor| && FirstOccurrence(once, ImportsAnchor, i);
    InjectLinesPlaces(once, ImportsAnchor, "\n", lines, i);
  }

  /** The guard injection is idempotent: once the block is in, a second run
      changes nothing. */
  lemma GuardIdempotent(content: string, block: string)
    ensures InjectGuard(InjectGuard(content, block), block) == InjectGuard(content, block)
  {
    if Contains(content, GuardsAnchor) && !Contains(content, block) {
      assert GuardsAnchor + "\n" + block + "\n" == GuardsAnchor + ("\n" + block + "\n");
      assert OccursAt("\n" + block + "\n", block, 1);
      InsertAfterKeeps(content, GuardsAnchor, "\n" + block + "\n", block);
    }
  }

  /** The block lands right after the first guards anchor. */
  lemma GuardPlaced(content: string, block: string, i: nat)
    requires FirstOccurrence(content, GuardsAnchor, i) && !Contains(content, block)
    ensures InjectGuard(content, block) ==
      content[..i + |GuardsAnchor|] + "\n" + block + "\n" + content[i + |GuardsAnchor|..]
  {
    assert GuardsAnchor + "\n" + block + "\n" == GuardsAnchor + ("\n" + block + "\n");
    InsertAfterFirst(content, GuardsAnchor, "\n" + block + "\n", i);
  }

  /** The two routes anchors cannot overlap across the end of one another:
      each begins with `//` and neither has a `/` past its second
      character. */
  lemma AnchorsApart(s: string, i: int, j: int)
    ensures OccursAt(s, ImportsAnchor, i) && OccursAt(s, SpreadAnchor, j) ==>
      j + |SpreadAnchor| <= i + |ImportsAnchor| || j >= i + |ImportsAnchor|
    ensures OccursAt(s, SpreadAnchor, i) && OccursAt(s, ImportsAnchor, j) ==>
      j + |ImportsAnchor| <= i + |SpreadAnchor| || j >= i + |SpreadAnchor|
  {
    SpreadNotAcrossImports(s, i, j);
    ImportsNotAcrossSpread(s, i, j);
  }

  /** The spread anchor does not start inside the imports anchor and run
      past its end. */
  lemma SpreadNotAcrossImports(s: string, i: int, j: int)
    ensures OccursAt(s, ImportsAnchor, i) && OccursAt(s, SpreadAnchor, j) ==>
      j + |SpreadAnchor| <= i + |ImportsAnchor| || j >= i + |ImportsAnchor|
  {
    assert forall k :: 2 <= k < |ImportsAnchor| ==> ImportsAnchor[k] != '/';
    OccursChars(s, ImportsAnchor, i);
    OccursChars(s, SpreadAnchor, j);
    assert OccursAt(s, ImportsAnchor, i) && i <= j < i + |ImportsAnchor| ==> s[j] == ImportsAnchor[j - i];
    assert SpreadAnchor[0] == '/';
    assert OccursAt(s, SpreadAnchor, j) ==> s[j + 0] == SpreadAnchor[0];
  }

  /** The imports anchor does not start inside the spread anchor and run
      past its end. */
  lemma ImportsNotAcrossSpread(s: string, i: int, j: int)
    ensures OccursAt(s, SpreadAnchor, i) && OccursAt(s, ImportsAnchor, j) ==>
      j + |ImportsAnchor| <= i + |SpreadAnchor| || j >= i + |SpreadAnchor|
  {
    assert forall k :: 2 <= k < |SpreadAnchor| ==> SpreadAnchor[k] != '/';
    OccursChars(s, SpreadAnchor, i);
    OccursChars(s, ImportsAnchor, j);
    assert OccursAt(s, SpreadAnchor, i) && i <= j < i + |SpreadAnchor| ==> s[j] == SpreadAnchor[j - i];
    assert ImportsAnchor[0] == '/' && ImportsAnchor[1] == '/';
    assert OccursAt(s, ImportsAnchor, j) ==> s[j + 0] == ImportsAnchor[0] && s[j + 1] == ImportsAnchor[1];
    assert SpreadAnchor[2] == ' ';
    assert OccursAt(s, SpreadAnchor, i) ==> s[i + 22] == 's' && s[i + 2] == SpreadAnchor[2];
    assert OccursAt(s, ImportsAnchor, j) ==> s[j + 22] == 'i' && s[j + 1] == '/';
  }

  /** An anchor present before the routes patch is present after it. */
  lemma AnchorsSurvive(content: string, importLines: seq<string>, spreadLines: seq<string>)
    ensures Contains(content, ImportsAnchor) ==> Contains(PatchRoutes(content, importLines, spreadLines), ImportsAnchor)
    ensures Contains(content, SpreadAnchor) ==> Contains(PatchRoutes(content, importLines, spreadLines), SpreadAnchor)
  {
    var mid := InjectLines(content, ImportsAnchor, "\n", importLines);
    KeepsOther(content, ImportsAnchor, SpreadAnchor, "\n", importLines);
    KeepsOther(mid, SpreadAnchor, ImportsAnchor, "\n  ", spreadLines);
    if |importLines| > 0 && Contains(content, ImportsAnchor) {
      InjectedLinesPresent(content, ImportsAnchor, "\n", importLines, 0);
    }
    if |spreadLines| > 0 && Contains(mid, SpreadAnchor) {
      InjectedLinesPresent(mid, SpreadAnchor, "\n  ", spreadLines, 0);
    }
  }

  /** Injecting at one routes anchor keeps the other. */
  lemma KeepsOther(content: string, anchor: string, other: string, sep: string, lines: seq<string>)
    requires (anchor == ImportsAnchor && other == SpreadAnchor) || (anchor == SpreadAnchor && other == ImportsAnchor)
    ensures Contains(content, other) ==> Contains(InjectLines(content, anchor, sep, lines), other)
  {
    if Contains(content, other) && |lines| > 0 && Contains(content, anchor) {
      FirstOccurrenceExists(content, anchor);
      var i :| 0 <= i <= |content| - |anchor| && FirstOccurrence(content, anchor, i);
      var j :| 0 <= j <= |content| - |other| && OccursAt(content, other, j);
      AnchorsApart(content, i, j);
      assert anchor + sep + JoinWith(lines, sep) == anchor + (sep + JoinWith(lines, sep));
      KeptByInsert(content, anchor, sep + JoinWith(lines, sep), i, other, j);
    }
  }

  /** The guards anchor survives its own injection. */
  lemma GuardsAnchorSurvives(content: string, block: string)
    ensures Contains(content, GuardsAnchor) ==> Contains(InjectGuard(content, block), GuardsAnchor)
  {
    if Contains(content, GuardsAnchor) && !Contains(content, block) {
      assert GuardsAnchor + "\n" + block + "\n" == GuardsAnchor + ("\n" + block + "\n");
      InsertAfterKeeps(content, GuardsAnchor, "\n" + block + "\n", block);
    }
  }
}
