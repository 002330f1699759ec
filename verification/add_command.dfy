/** cli/src/commands/add.ts: the `add` command. Each requested component is
    installed with its registry dependencies (URL dependencies skipped), npm
    packages first, then files; a file the registry cannot deliver aborts
    the run with an error. The prompts read their answers, in order, from a
    session that also tracks which targets exist, and the effects come back
    as a list of actions. */
module AddCommand {
  import opened Wrappers
  import opened Text
  import opened CliConfig
  import opened PackageManagers
  import opened InstallPlan
  import ComponentInstaller
  import Transformers

  /** The array `installComponent` creates and every recursive call of
      `resolveDependencies` appends to. */
  class ResolvedList {
    var items: seq<Item>

    constructor ()
      ensures items == []
    {
      items := [];
    }
  }

  /** `resolveDependencies(item, resolved)`: appends to the shared list in
      place; URL names are dropped before the lookup. */
  method ResolveDependencies(fetch: Fetch, ghost rank: map<string, nat>, item: Item, ghost bound: nat,
                             resolved: ResolvedList)
    requires Ranked(fetch, rank, true) && Below(fetch, rank, true, RegistryDeps(item), bound)
    modifies resolved
    ensures resolved.items == Plan(fetch, rank, true, item, bound, old(resolved.items))
    decreases bound, 1
  {
    if HasName(resolved.items, item.name) {
      return;
    }
    ghost var start := resolved.items;
    var deps := RegistryDeps(item);
    var i := 0;
    while i < |deps|
      invariant 0 <= i <= |deps|
      invariant PlanDeps(fetch, rank, true, deps[i..], bound, resolved.items) == PlanDeps(fetch, rank, true, deps, bound, start)
    {
      var depName := deps[i];
      PlanDepsAt(fetch, rank, true, deps, i, bound, resolved.items);
      if !(StartsWith(depName, "http://") || StartsWith(depName, "https://")) {
        if depName in fetch {
          ResolveDependencies(fetch, rank, fetch[depName], rank[depName], resolved);
        }
      }
      i := i + 1;
    }
    resolved.items := resolved.items + [item];
  }

  // ---------------------------------------------------------------------
  // Prompts and the files on disk

  /** What the run consults at a prompt: the targets that exist now (the
      files there before the run plus every target written since) and the
      answers still to come, one per confirm prompt in the order the
      prompts are asked. A prompt with no answer left counts as cancelled,
      which `prompts` reports as an undefined, falsy answer. */
  datatype Session = Session(existing: set<string>, answers: seq<bool>)

  /** The answer to the next confirm prompt. */
  function Answer(s: Session): bool {
    |s.answers| > 0 && s.answers[0]
  }

  /** The session once the next prompt is answered. */
  function Asked(s: Session): Session {
    s.(answers := if |s.answers| > 0 then s.answers[1..] else [])
  }

  /** The session once target is written. */
  function Wrote(s: Session, target: string): Session {
    s.(existing := s.existing + {target})
  }

  /** Every prompt is answered yes, and at least n answers are given. */
  predicate Consents(s: Session, n: nat) {
    n <= |s.answers| && forall i :: 0 <= i < |s.answers| ==> s.answers[i]
  }

  /** The targets of the writes among actions. */
  function Targets(actions: seq<Action>): set<string> {
    set a | a in actions && a.Write? :: a.path
  }

  /** What a loop leaves: the actions done, the error that stopped it, if
      any, and the session after it. */
  datatype Outcome = Outcome(writes: seq<Action>, error: Option<string>, after: Session)

  /** One step, then what follows unless the step failed. */
  function Then(one: Outcome, next: Outcome): Outcome {
    if one.error.Some? then one else Outcome(one.writes + next.writes, next.error, next.after)
  }

  /** A loop that has done `writes` and still has `rest` ahead of it ends
      with `total`. */
  predicate Resumes(writes: seq<Action>, rest: Outcome, total: Outcome) {
    writes + rest.writes == total.writes && rest.error == total.error && rest.after == total.after
  }

  /** One step of such a loop: the step's own outcome either ends the loop
      with its error, or is done and the loop resumes with what follows. */
  lemma ResumeStep(writes: seq<Action>, one: Outcome, next: Outcome, total: Outcome)
    requires Resumes(writes, Then(one, next), total)
    ensures one.error.Some? ==> Outcome(writes + one.writes, one.error, one.after) == total
    ensures one.error.None? ==> Resumes(writes + one.writes, next, total)
  {
    assert writes + (one.writes + next.writes) == (writes + one.writes) + next.writes;
  }

  // ---------------------------------------------------------------------
  // installFiles

  /** One pass of the file loop: an undelivered file throws; an existing
      target without `--overwrite` asks, and a no skips the file; otherwise
      the transformed content is written and the target exists from then
      on. */
  function FileStep(f: FileEntry, contents: map<string, string>, cwd: string, aliases: Aliases,
                    overwrite: bool, s: Session): (o: Outcome)
    ensures o.after.answers == s.answers || (|s.answers| > 0 && o.after.answers == s.answers[1..])
    ensures o.error.None? <==> ComponentInstaller.Delivered(f, contents)
  {
    if !ComponentInstaller.Delivered(f, contents) then Outcome([], Some("Failed to fetch " + f.path), s)
    else
      var target := TargetPath(cwd, f, aliases);
      var asks := target in s.existing && !overwrite;
      if asks && !Answer(s) then Outcome([], None, Asked(s))
      else Outcome([ComponentInstaller.WriteOf(f, contents, cwd, aliases)], None,
                   Wrote(if asks then Asked(s) else s, target))
  }

  /** The writes of `installFiles`: the files in order, each pass seeing the
      files the earlier passes wrote; the first undelivered file stops the
      loop with its error. */
  function FilesOutcome(files: seq<FileEntry>, contents: map<string, string>, cwd: string, aliases: Aliases,
                        overwrite: bool, s: Session): (o: Outcome)
    ensures |o.writes| <= |files|
    ensures s.existing <= o.after.existing
    decreases |files|
  {
    if |files| == 0 then Outcome([], None, s)
    else
      var one := FileStep(files[0], contents, cwd, aliases, overwrite, s);
      Then(one, FilesOutcome(files[1..], contents, cwd, aliases, overwrite, one.after))
  }

  /** The files from the i-th on: that file's pass, then the rest unless it
      failed. */
  lemma FilesOutcomeAt(files: seq<FileEntry>, i: nat, contents: map<string, string>, cwd: string, aliases: Aliases,
                       overwrite: bool, s: Session)
    requires i < |files|
    ensures var one := FileStep(files[i], contents, cwd, aliases, overwrite, s);
      FilesOutcome(files[i..], contents, cwd, aliases, overwrite, s) ==
        Then(one, FilesOutcome(files[i + 1..], contents, cwd, aliases, overwrite, one.after))
  {
    assert files[i..][1..] == files[i + 1..];
  }

  method InstallFiles(item: Item, cwd: string, aliases: Aliases, overwrite: bool,
                      contents: map<string, string>, session: Session) returns (o: Outcome)
    ensures o == FilesOutcome(item.files, contents, cwd, aliases, overwrite, session)
  {
    ghost var total := FilesOutcome(item.files, contents, cwd, aliases, overwrite, session);
    var s := session;
    var writes := [];
    var i := 0;
    while i < |item.files|
      invariant 0 <= i <= |item.files|
      invariant Resumes(writes, FilesOutcome(item.files[i..], contents, cwd, aliases, overwrite, s), total)
    {
      var file := item.files[i];
      ghost var one := FileStep(file, contents, cwd, aliases, overwrite, s);
      FilesOutcomeAt(item.files, i, contents, cwd, aliases, overwrite, s);
      ResumeStep(writes, one, FilesOutcome(item.files[i + 1..], contents, cwd, aliases, overwrite, one.after), total);
      if !(file.path in contents && contents[file.path] != "") {
        assert writes + [] == writes;
        return Outcome(writes, Some("Failed to fetch " + file.path), s);
      }
      var content := Transformers.TransformImports(contents[file.path], aliases);
      var targetPath := TargetPath(cwd, file, aliases);
      if targetPath in s.existing && !overwrite {
        var shouldOverwrite := Answer(s);
        s := Asked(s);
        if !shouldOverwrite {
          assert writes + [] == writes;
          i := i + 1;
          continue;
        }
      }
      s := Wrote(s, targetPath);
      writes := writes + [Write(targetPath, content)];
      i := i + 1;
    }
    o := Outcome(writes, None, s);
  }

  /** Every file of files is delivered. */
  predicate AllDelivered(files: seq<FileEntry>, contents: map<string, string>) {
    forall i :: 0 <= i < |files| ==> ComponentInstaller.Delivered(files[i], contents)
  }

  /** files[k] is the first file that is not delivered. */
  predicate FirstMissing(files: seq<FileEntry>, contents: map<string, string>, k: int) {
    0 <= k < |files| && !ComponentInstaller.Delivered(files[k], contents) &&
    forall j :: 0 <= j < k ==> ComponentInstaller.Delivered(files[j], contents)
  }

  /** Dropping a delivered first file shifts both notions by one. */
  lemma DeliveredTail(files: seq<FileEntry>, contents: map<string, string>)
    requires |files| > 0 && ComponentInstaller.Delivered(files[0], contents)
    ensures AllDelivered(files, contents) <==> AllDelivered(files[1..], contents)
    ensures forall k :: FirstMissing(files, contents, k) ==> k > 0 && FirstMissing(files[1..], contents, k - 1)
  {
    if AllDelivered(files[1..], contents) {
      forall i | 0 < i < |files| ensures ComponentInstaller.Delivered(files[i], contents) {
        assert files[i] == files[1..][i - 1];
      }
    }
    forall k | FirstMissing(files, contents, k) ensures k > 0 && FirstMissing(files[1..], contents, k - 1) {
      assert files[1..][k - 1] == files[k];
      assert forall j :: 0 <= j < k - 1 ==> files[1..][j] == files[j + 1];
    }
  }

  /** Whatever the answers, the file loop fails exactly when some file is
      not delivered, and then with the path of the first such file. */
  lemma {:induction false} FilesOutcomeErrors(files: seq<FileEntry>, contents: map<string, string>, cwd: string,
                                              aliases: Aliases, overwrite: bool, s: Session)
    ensures var o := FilesOutcome(files, contents, cwd, aliases, overwrite, s);
      (o.error == None <==> AllDelivered(files, contents)) &&
      (forall k :: FirstMissing(files, contents, k) ==> o.error == Some("Failed to fetch " + files[k].path))
    decreases |files|
  {
    if |files| > 0 {
      var one := FileStep(files[0], contents, cwd, aliases, overwrite, s);
      var rest := FilesOutcome(files[1..], contents, cwd, aliases, overwrite, one.after);
      assert FilesOutcome(files, contents, cwd, aliases, overwrite, s).error ==
             if one.error.Some? then one.error else rest.error;
      if ComponentInstaller.Delivered(files[0], contents) {
        FilesOutcomeErrors(files[1..], contents, cwd, aliases, overwrite, one.after);
        DeliveredTail(files, contents);
        forall k | FirstMissing(files, contents, k)
          ensures rest.error == Some("Failed to fetch " + files[k].path)
        {
          assert files[1..][k - 1] == files[k];
        }
      } else {
        assert FirstMissing(files, contents, 0);
        assert forall k :: FirstMissing(files, contents, k) ==> k == 0;
      }
    }
  }

  /** The file loop writes only what the installer would write. */
  lemma {:induction false} FilesOutcomeWritesInstalled(files: seq<FileEntry>, contents: map<string, string>, cwd: string,
                                                       aliases: Aliases, overwrite: bool, s: Session)
    ensures forall a :: a in FilesOutcome(files, contents, cwd, aliases, overwrite, s).writes ==>
              a in ComponentInstaller.FileWrites(files, contents, cwd, aliases)
    decreases |files|
  {
    if |files| > 0 {
      var one := FileStep(files[0], contents, cwd, aliases, overwrite, s);
      FilesOutcomeWritesInstalled(files[1..], contents, cwd, aliases, overwrite, one.after);
    }
  }

  /** After the file loop exactly the files that existed before it and the
      targets it wrote exist. */
  lemma {:induction false} FilesOutcomeExisting(files: seq<FileEntry>, contents: map<string, string>, cwd: string,
                                                aliases: Aliases, overwrite: bool, s: Session)
    ensures var o := FilesOutcome(files, contents, cwd, aliases, overwrite, s);
      o.after.existing == s.existing + Targets(o.writes)
    decreases |files|
  {
    if |files| > 0 {
      var one := FileStep(files[0], contents, cwd, aliases, overwrite, s);
      var rest := FilesOutcome(files[1..], contents, cwd, aliases, overwrite, one.after);
      FilesOutcomeExisting(files[1..], contents, cwd, aliases, overwrite, one.after);
      if one.error.None? {
        assert Targets(one.writes + rest.writes) == Targets(one.writes) + Targets(rest.writes);
      }
    }
  }

  /** b is a suffix of a, shorter by at most n. */
  predicate SuffixWithin(a: seq<bool>, b: seq<bool>, n: int) {
    |a| - n <= |b| <= |a| && b == a[|a| - |b|..]
  }

  /** Suffixes compose, and so do their bounds. */
  lemma SuffixCompose(a: seq<bool>, b: seq<bool>, c: seq<bool>, m: int, n: int)
    requires SuffixWithin(a, b, m) && SuffixWithin(b, c, n)
    ensures SuffixWithin(a, c, m + n)
  {
    assert a[|a| - |b|..][|b| - |c|..] == a[|a| - |c|..];
  }

  /** The file loop takes its answers from the front of the session, at most
      one per file. */
  lemma {:induction false} FilesOutcomeAnswers(files: seq<FileEntry>, contents: map<string, string>, cwd: string,
                                               aliases: Aliases, overwrite: bool, s: Session)
    ensures SuffixWithin(s.answers, FilesOutcome(files, contents, cwd, aliases, overwrite, s).after.answers, |files|)
    decreases |files|
  {
    if |files| > 0 {
      var one := FileStep(files[0], contents, cwd, aliases, overwrite, s);
      var rest := FilesOutcome(files[1..], contents, cwd, aliases, overwrite, one.after);
      assert FilesOutcome(files, contents, cwd, aliases, overwrite, s).after ==
             if one.error.Some? then one.after else rest.after;
      assert SuffixWithin(s.answers, one.after.answers, 1);
      if one.error.None? {
        FilesOutcomeAnswers(files[1..], contents, cwd, aliases, overwrite, one.after);
        SuffixCompose(s.answers, one.after.answers, rest.after.answers, 1, |files| - 1);
      }
    }
  }

  /** A target the run itself created is asked about like any other: the
      same delivered file listed twice, to a target that did not exist, is
      written once and then written again only on a yes. */
  lemma RepeatedTargetAsks(f: FileEntry, contents: map<string, string>, cwd: string, aliases: Aliases, s: Session)
    requires ComponentInstaller.Delivered(f, contents) && TargetPath(cwd, f, aliases) !in s.existing
    ensures var o := FilesOutcome([f, f], contents, cwd, aliases, false, s);
      var w := ComponentInstaller.WriteOf(f, contents, cwd, aliases);
      o.error == None && o.writes == (if Answer(s) then [w, w] else [w]) && o.after.answers == Asked(s).answers
  {
    var one := FileStep(f, contents, cwd, aliases, false, s);
    var two := FileStep(f, contents, cwd, aliases, false, one.after);
    assert [f, f][1..] == [f];
    assert [f][1..] == [];
    assert FilesOutcome([f], contents, cwd, aliases, false, one.after) ==
           Then(two, FilesOutcome([], contents, cwd, aliases, false, two.after));
    assert FilesOutcome([f, f], contents, cwd, aliases, false, s) ==
           Then(one, FilesOutcome([f], contents, cwd, aliases, false, one.after));
  }

  /** A pass over a delivered file, when no prompt says no, writes the
      file; the consent covers the files after it. */
  lemma ConsentedStep(f: FileEntry, contents: map<string, string>, cwd: string, aliases: Aliases,
                      overwrite: bool, s: Session, n: nat)
    requires 1 <= n && (overwrite || Consents(s, n))
    ensures var one := FileStep(f, contents, cwd, aliases, overwrite, s);
      (ComponentInstaller.Delivered(f, contents) ==> one.writes == [ComponentInstaller.WriteOf(f, contents, cwd, aliases)]) &&
      (overwrite || Consents(one.after, n - 1))
  {
    var one := FileStep(f, contents, cwd, aliases, overwrite, s);
    if !overwrite {
      assert one.after.answers == s.answers || one.after.answers == s.answers[1..];
      assert forall i :: 0 <= i < |s.answers| - 1 ==> s.answers[1..][i] == s.answers[i + 1];
    }
  }

  /** The installer's writes for the files before the first undelivered
      one, after a delivered first file. */
  lemma WritesBeforeMissing(files: seq<FileEntry>, contents: map<string, string>, cwd: string, aliases: Aliases, k: int)
    requires FirstMissing(files, contents, k) && k > 0
    ensures ComponentInstaller.FileWrites(files[..k], contents, cwd, aliases) ==
            [ComponentInstaller.WriteOf(files[0], contents, cwd, aliases)] +
            ComponentInstaller.FileWrites(files[1..][..k - 1], contents, cwd, aliases)
  {
    assert files[..k][0] == files[0];
    assert files[..k][1..] == files[1..][..k - 1];
  }

  /** Where the installer skips an undelivered file, the add command stops:
      when no prompt says no, add writes what the installer writes, and on
      failure it has written what the installer writes for the files
      before the first undelivered one. */
  lemma {:induction false} AbortsWhereInstallerSkips(files: seq<FileEntry>, contents: map<string, string>,
                                                     cwd: string, aliases: Aliases, overwrite: bool, s: Session)
    requires overwrite || Consents(s, |files|)
    ensures var o := FilesOutcome(files, contents, cwd, aliases, overwrite, s);
      (o.error == None <==> AllDelivered(files, contents)) &&
      (o.error == None ==> o.writes == ComponentInstaller.FileWrites(files, contents, cwd, aliases)) &&
      (forall k :: FirstMissing(files, contents, k) ==>
         o.error == Some("Failed to fetch " + files[k].path) &&
         o.writes == ComponentInstaller.FileWrites(files[..k], contents, cwd, aliases))
    decreases |files|
  {
    FilesOutcomeErrors(files, contents, cwd, aliases, overwrite, s);
    if |files| > 0 {
      var one := FileStep(files[0], contents, cwd, aliases, overwrite, s);
      var rest := FilesOutcome(files[1..], contents, cwd, aliases, overwrite, one.after);
      var o := FilesOutcome(files, contents, cwd, aliases, overwrite, s);
      if ComponentInstaller.Delivered(files[0], contents) {
        ConsentedStep(files[0], contents, cwd, aliases, overwrite, s, |files|);
        AbortsWhereInstallerSkips(files[1..], contents, cwd, aliases, overwrite, one.after);
        DeliveredTail(files, contents);
        assert o.writes == one.writes + rest.writes;
        forall k | FirstMissing(files, contents, k)
          ensures o.writes == ComponentInstaller.FileWrites(files[..k], contents, cwd, aliases)
        {
          WritesBeforeMissing(files, contents, cwd, aliases, k);
        }
      } else {
        assert o.writes == [];
        assert forall k :: FirstMissing(files, contents, k) ==> k == 0;
      }
    }
  }


  // ---------------------------------------------------------------------
  // The files of every planned item

  /** The writes for the planned items, item after item, up to the first
      error. */
  function AddWrites(items: seq<Item>, contents: map<string, string>, cwd: string, aliases: Aliases,
                     overwrite: bool, s: Session): (o: Outcome)
    ensures s.existing <= o.after.existing
    decreases |items|
  {
    if |items| == 0 then Outcome([], None, s)
    else
      var one := FilesOutcome(items[0].files, contents, cwd, aliases, overwrite, s);
      Then(one, AddWrites(items[1..], contents, cwd, aliases, overwrite, one.after))
  }

  /** The items from the i-th on: that item's files, then the rest unless
      they failed. */
  lemma AddWritesAt(items: seq<Item>, i: nat, contents: map<string, string>, cwd: string, aliases: Aliases,
                    overwrite: bool, s: Session)
    requires i < |items|
    ensures var one := FilesOutcome(items[i].files, contents, cwd, aliases, overwrite, s);
      AddWrites(items[i..], contents, cwd, aliases, overwrite, s) ==
        Then(one, AddWrites(items[i + 1..], contents, cwd, aliases, overwrite, one.after))
  {
    assert items[i..][1..] == items[i + 1..];
  }

  /** The closing loop of `installComponent`; an error from one item ends
      the loop and is passed on. */
  method InstallAllFiles(allDeps: seq<Item>, cwd: string, aliases: Aliases, overwrite: bool,
                         contents: map<string, string>, session: Session) returns (o: Outcome)
    ensures o == AddWrites(allDeps, contents, cwd, aliases, overwrite, session)
  {
    ghost var total := AddWrites(allDeps, contents, cwd, aliases, overwrite, session);
    var s := session;
    var writes := [];
    var i := 0;
    while i < |allDeps|
      invariant 0 <= i <= |allDeps|
      invariant Resumes(writes, AddWrites(allDeps[i..], contents, cwd, aliases, overwrite, s), total)
    {
      AddWritesAt(allDeps, i, contents, cwd, aliases, overwrite, s);
      var one := InstallFiles(allDeps[i], cwd, aliases, overwrite, contents, s);
      ResumeStep(writes, one, AddWrites(allDeps[i + 1..], contents, cwd, aliases, overwrite, one.after), total);
      writes := writes + one.writes;
      if one.error.Some? {
        return Outcome(writes, one.error, one.after);
      }
      s := one.after;
      i := i + 1;
    }
    o := Outcome(writes, None, s);
  }

  /** The number of files of the items. */
  function FileCount(items: seq<Item>): nat
    decreases |items|
  {
    if |items| == 0 then 0 else |items[0].files| + FileCount(items[1..])
  }

  /** Every file of every item is delivered. */
  predicate ItemsDelivered(items: seq<Item>, contents: map<string, string>) {
    forall i, j :: 0 <= i < |items| && 0 <= j < |items[i].files| ==>
      ComponentInstaller.Delivered(items[i].files[j], contents)
  }

  /** Delivery of every item's files splits into the first item's and the
      rest's. */
  lemma ItemsDeliveredSplit(items: seq<Item>, contents: map<string, string>)
    requires |items| > 0 && ItemsDelivered(items, contents)
    ensures AllDelivered(items[0].files, contents) && ItemsDelivered(items[1..], contents)
  {
    var files := items[0].files;
    forall j | 0 <= j < |files| ensures ComponentInstaller.Delivered(files[j], contents) {
      assert ComponentInstaller.Delivered(items[0].files[j], contents);
    }
    forall i, j | 0 <= i < |items| - 1 && 0 <= j < |items[1..][i].files|
      ensures ComponentInstaller.Delivered(items[1..][i].files[j], contents)
    {
      assert items[1..][i] == items[i + 1];
    }
  }

  /** The consent for the items' files carries over, past the first
      item's files, to the remaining items. */
  lemma ConsentPastFirstItem(items: seq<Item>, contents: map<string, string>, cwd: string,
                             aliases: Aliases, s: Session)
    requires |items| > 0 && Consents(s, FileCount(items))
    ensures Consents(FilesOutcome(items[0].files, contents, cwd, aliases, false, s).after, FileCount(items[1..]))
  {
    var files := items[0].files;
    var one := FilesOutcome(files, contents, cwd, aliases, false, s);
    assert FileCount(items) == |files| + FileCount(items[1..]);
    FilesOutcomeAnswers(files, contents, cwd, aliases, false, s);
    ConsentsKept(s, one.after, |files|, FileCount(items));
  }

  /** With every planned file delivered and no prompt answered no, the add
      command writes what the installer writes and reports no error. */
  lemma {:induction false} AddWritesLikeInstaller(items: seq<Item>, contents: map<string, string>, cwd: string,
                                                  aliases: Aliases, overwrite: bool, s: Session)
    requires ItemsDelivered(items, contents)
    requires overwrite || Consents(s, FileCount(items))
    ensures AddWrites(items, contents, cwd, aliases, overwrite, s).writes == ComponentInstaller.AllWrites(items, contents, cwd, aliases)
    ensures AddWrites(items, contents, cwd, aliases, overwrite, s).error == None
    decreases |items|
  {
    if |items| > 0 {
      ItemsDeliveredSplit(items, contents);
      var files := items[0].files;
      if !overwrite {
        assert FileCount(items) == |files| + FileCount(items[1..]);
        ConsentPastFirstItem(items, contents, cwd, aliases, s);
      }
      AbortsWhereInstallerSkips(files, contents, cwd, aliases, overwrite, s);
      var one := FilesOutcome(files, contents, cwd, aliases, overwrite, s);
      AddWritesLikeInstaller(items[1..], contents, cwd, aliases, overwrite, one.after);
    }
  }

  /** Consent carries over to the answers left after m of them are used. */
  lemma ConsentsKept(a: Session, b: Session, m: nat, n: nat)
    requires Consents(a, n) && SuffixWithin(a.answers, b.answers, m) && m <= n
    ensures Consents(b, n - m)
  {
    forall i | 0 <= i < |b.answers| ensures b.answers[i] {
      assert b.answers[i] == a.answers[|a.answers| - |b.answers| + i];
    }
  }

  // ---------------------------------------------------------------------
  // The shadcn-vue fallback

  /** The fallback vector as the add command builds and runs it: pnpm and
      yarn build `dlx shadcn-vue@latest add <name>`, npm builds `npx ...`;
      npm runs the vector's head with its tail, the others run the
      manager's name with the tail, which leaves `dlx` out. */
  function ShadcnFallbackAsWritten(pm: PackageManagerInfo, name: string): (c: Command)
    ensures pm.name == Npm ==> c == Command("npx", ["shadcn-vue@latest", "add", name])
    ensures pm.name != Npm ==> c == Command(NameText(pm.name), ["shadcn-vue@latest", "add", name])
  {
    var shadcnCommand :=
      if pm.name == Pnpm then ["dlx", "shadcn-vue@latest", "add", name]
      else if pm.name == Yarn then ["dlx", "shadcn-vue@latest", "add", name]
      else ["npx", "shadcn-vue@latest", "add", name];
    if pm.name == Npm then Command(shadcnCommand[0], shadcnCommand[1..])
    else Command(NameText(pm.name), shadcnCommand[1..])
  }
  /** For pnpm and yarn the process started as written is
      `<manager> shadcn-vue@latest add <name>`: the package is passed where
      the manager expects a command of its own, and no `dlx` precedes it. */
  lemma ShadcnFallbackDropsDlx(pm: PackageManagerInfo, name: string)
    requires WellFormed(pm) && pm.name != Npm
    ensures ShadcnFallbackAsWritten(pm, name) == Command(pm.command, ["shadcn-vue@latest", "add", name])
    ensures ShadcnFallbackAsWritten(pm, name) != ShadcnFallback(pm, name)
  {
    assert ShadcnFallback(pm, name).args[0] == "dlx";
    assert "shadcn-vue@latest"[0] == 's';
  }

  /** The fallback as evidently intended: the vector the add command
      builds, run whole, which is what executeDlx runs for
      `shadcn-vue@latest add <name>`. */
  function ShadcnFallback(pm: PackageManagerInfo, name: string): (c: Command)
    ensures pm.name == Npm ==> c == Command("npx", ["shadcn-vue@latest", "add", name])
    ensures pm.name != Npm ==> c == Command(pm.command, ["dlx", "shadcn-vue@latest", "add", name])
  {
    DlxCommand(pm, "shadcn-vue@latest", ["add", name], "")
  }

  /** The corrected fallback runs `dlx` for pnpm and yarn, and for npm it
      is the vector the add command runs as written. */
  lemma ShadcnFallbackRunsDlx(pm: PackageManagerInfo, name: string)
    requires WellFormed(pm)
    ensures pm.name == Npm ==> ShadcnFallback(pm, name) == ShadcnFallbackAsWritten(pm, name)
    ensures pm.name != Npm ==> ShadcnFallback(pm, name).program == NameText(pm.name) &&
                               ShadcnFallback(pm, name).args[..2] == ["dlx", "shadcn-vue@latest"]
  {
    var c := ShadcnFallback(pm, name);
    if pm.name == Npm {
      assert ["npx", "shadcn-vue@latest", "add", name][1..] == ["shadcn-vue@latest", "add", name];
      assert ["shadcn-vue@latest"] + ["add", name] == ["shadcn-vue@latest", "add", name];
    } else {
      assert c.args[..2] == ["dlx", "shadcn-vue@latest"];
    }
  }

  // ---------------------------------------------------------------------
  // One component and the whole command

  /** The npm step of `installComponent`: the vector `getAddCommand`
      builds, its head run with its tail; nothing without packages. */
  method NpmStep(pm: PackageManagerInfo, pkgs: seq<string>) returns (actions: seq<Action>)
    ensures actions == ComponentInstaller.InstallCommand(pm, pkgs)
  {
    actions := [];
    if |pkgs| > 0 {
      var addCommand := GetAddCommand(pm, pkgs, false);
      assert addCommand == [pm.command] + (pm.addCommand + pkgs);
      actions := [Run(Command(addCommand[0], addCommand[1..]))];
    }
  }

  /** What `installComponent` does for one name: the shadcn-vue fallback,
      as the add command runs it, when the registry lacks the name; without
      `--yes`, the proceed prompt, after which a no (or a cancel) installs
      nothing; otherwise the npm step and then the files of every planned
      item. */
  ghost function ComponentOutcome(name: string, fetch: Fetch, rank: map<string, nat>, contents: map<string, string>,
                                  present: set<string>, cwd: string, aliases: Aliases, overwrite: bool, yes: bool,
                                  s: Session): (o: Outcome)
    requires Ranked(fetch, rank, true)
    ensures s.existing <= o.after.existing
    ensures name !in fetch ==> o == Outcome([Run(ShadcnFallbackAsWritten(DetectPackageManager(present), name))], None, s)
    ensures name in fetch && !yes && !Answer(s) ==> o.writes == [] && o.error == None && o.after == Asked(s)
    ensures name in fetch && (yes || Answer(s)) ==>
      var files := AddWrites(Plan(fetch, rank, true, fetch[name], rank[name], []), contents, cwd, aliases, overwrite,
                             if yes then s else Asked(s));
      o.error == files.error && o.after == files.after &&
      |files.writes| <= |o.writes| <= |files.writes| + 1 && o.writes[|o.writes| - |files.writes|..] == files.writes
  {
    var pm := DetectPackageManager(present);
    if name !in fetch then Outcome([Run(ShadcnFallbackAsWritten(pm, name))], None, s)
    else if !yes && !Answer(s) then Outcome([], None, Asked(s))
    else
      var plan := Plan(fetch, rank, true, fetch[name], rank[name], []);
      var files := AddWrites(plan, contents, cwd, aliases, overwrite, if yes then s else Asked(s));
      Outcome(ComponentInstaller.InstallCommand(pm, Dedup(AllNpm(plan))) + files.writes, files.error, files.after)
  }

  method InstallComponent(name: string, fetch: Fetch, ghost rank: map<string, nat>, contents: map<string, string>,
                          present: set<string>, cwd: string, aliases: Aliases, overwrite: bool, yes: bool,
                          session: Session) returns (o: Outcome)
    requires Ranked(fetch, rank, true)
    ensures o == ComponentOutcome(name, fetch, rank, contents, present, cwd, aliases, overwrite, yes, session)
  {
    if name !in fetch {
      var packageManager := DetectPackageManager(present);
      return Outcome([Run(ShadcnFallbackAsWritten(packageManager, name))], None, session);
    }
    var item := fetch[name];
    var resolved := new ResolvedList();
    ResolveDependencies(fetch, rank, item, rank[name], resolved);
    var allDeps := resolved.items;
    var s := session;
    if !yes {
      var proceed := Answer(s);
      s := Asked(s);
      if !proceed {
        return Outcome([], None, s);
      }
    }
    var allNpmDeps := NpmPackages(allDeps);
    var packageManager := DetectPackageManager(present);
    var npm := NpmStep(packageManager, allNpmDeps);
    var files := InstallAllFiles(allDeps, cwd, aliases, overwrite, contents, s);
    o := Outcome(npm + files.writes, files.error, files.after);
  }

  /** The add action over the requested names: each installed in turn, each
      with its own prompts; an error ends the run (the process exits), so
      later names are not attempted. */
  ghost function AddOutcome(names: seq<string>, fetch: Fetch, rank: map<string, nat>, contents: map<string, string>,
                            present: set<string>, cwd: string, aliases: Aliases, overwrite: bool, yes: bool,
                            s: Session): (o: Outcome)
    requires Ranked(fetch, rank, true)
    ensures o.after.existing >= s.existing
    decreases |names|
  {
    if |names| == 0 then Outcome([], None, s)
    else
      var one := ComponentOutcome(names[0], fetch, rank, contents, present, cwd, aliases, overwrite, yes, s);
      Then(one, AddOutcome(names[1..], fetch, rank, contents, present, cwd, aliases, overwrite, yes, one.after))
  }

  /** The add action from the i-th name on: that name's outcome, then the
      rest unless it failed. */
  lemma AddOutcomeAt(names: seq<string>, i: nat, fetch: Fetch, rank: map<string, nat>, contents: map<string, string>,
                     present: set<string>, cwd: string, aliases: Aliases, overwrite: bool, yes: bool, s: Session)
    requires Ranked(fetch, rank, true) && i < |names|
    ensures var one := ComponentOutcome(names[i], fetch, rank, contents, present, cwd, aliases, overwrite, yes, s);
      AddOutcome(names[i..], fetch, rank, contents, present, cwd, aliases, overwrite, yes, s) ==
        Then(one, AddOutcome(names[i + 1..], fetch, rank, contents, present, cwd, aliases, overwrite, yes, one.after))
  {
    assert names[i..][1..] == names[i + 1..];
  }

  method Add(components: seq<string>, fetch: Fetch, ghost rank: map<string, nat>, contents: map<string, string>,
             present: set<string>, cwd: string, aliases: Aliases, overwrite: bool, yes: bool,
             session: Session) returns (o: Outcome)
    requires Ranked(fetch, rank, true)
    ensures o == AddOutcome(components, fetch, rank, contents, present, cwd, aliases, overwrite, yes, session)
  {
    var actions := [];
    ghost var total := AddOutcome(components, fetch, rank, contents, present, cwd, aliases, overwrite, yes, session);
    var s := session;
    var i := 0;
    while i < |components|
      invariant 0 <= i <= |components|
      invariant Resumes(actions, AddOutcome(components[i..], fetch, rank, contents, present, cwd, aliases, overwrite, yes, s), total)
    {
      AddOutcomeAt(components, i, fetch, rank, contents, present, cwd, aliases, overwrite, yes, s);
      var one := InstallComponent(components[i], fetch, rank, contents, present, cwd, aliases, overwrite, yes, s);
      ResumeStep(actions, one,
                 AddOutcome(components[i + 1..], fetch, rank, contents, present, cwd, aliases, overwrite, yes, one.after),
                 total);
      actions := actions + one.writes;
      if one.error.Some? {
        return Outcome(actions, one.error, one.after);
      }
      s := one.after;
      i := i + 1;
    }
    o := Outcome(actions, None, s);
  }

  /** When the registry has the component, serves no item under a URL name
      and delivers every planned file, and `--yes` is given and no
      overwrite prompt is answered no, the add command does exactly what
      the installer does (the installer's plan keeps URL names, which the
      registry then does not answer). */
  lemma AddMatchesInstaller(name: string, fetch: Fetch, rank: map<string, nat>, contents: map<string, string>,
                            present: set<string>, cwd: string, aliases: Aliases, overwrite: bool, s: Session)
    requires forall k :: k in fetch ==> !ResolverGraph.IsUrl(k)
    requires Ranked(fetch, rank, false) && name in fetch
    requires var plan := Plan(fetch, rank, false, fetch[name], rank[name], []);
      forall i, j :: 0 <= i < |plan| && 0 <= j < |plan[i].files| ==> ComponentInstaller.Delivered(plan[i].files[j], contents)
    requires overwrite || Consents(s, FileCount(Plan(fetch, rank, false, fetch[name], rank[name], [])))
    ensures Ranked(fetch, rank, true)
    ensures var plan := Plan(fetch, rank, false, fetch[name], rank[name], []);
      var o := ComponentOutcome(name, fetch, rank, contents, present, cwd, aliases, overwrite, true, s);
      o.writes == ComponentInstaller.InstallCommand(DetectPackageManager(present), Dedup(AllNpm(plan))) +
                  ComponentInstaller.AllWrites(plan, contents, cwd, aliases) &&
      o.error == None
  {
    PlanIgnoresUrlSkip(fetch, rank, fetch[name], rank[name], []);
    var plan := Plan(fetch, rank, false, fetch[name], rank[name], []);
    assert ItemsDelivered(plan, contents);
    AddWritesLikeInstaller(plan, contents, cwd, aliases, overwrite, s);
  }
}
