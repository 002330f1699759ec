/** What the two component installers of the CLI share
    (cli/src/helpers/component-installer.ts and cli/src/commands/add.ts):
    registry items as the registry serves them, the install plan their
    recursive `resolveDependencies` builds, the npm package union and the
    rule that places a registry file in the project. */
module InstallPlan {
  import opened Wrappers
  import opened Seqs
  import opened Text
  import opened CliConfig
  import PackageManagers
  import ResolverGraph

  /** A file of a registry item: its path in the registry and its explicit
      target; the empty string stands for an absent or empty target. */
  datatype FileEntry = FileEntry(path: string, target: string)

  /** A registry item as the CLI reads it; absent arrays are None. */
  datatype Item = Item(
    name: string,
    dependencies: Option<seq<string>>,
    registryDependencies: Option<seq<string>>,
    files: seq<FileEntry>)

  /** What an installer does to the outside world: start a process, or
      write a file. */
  datatype Action = Run(cmd: PackageManagers.Command) | Write(path: string, content: string)

  /** `fetchRegistryItem` as a partial map: the names the registry answers
      with an item. A name outside the map stands for a null answer (not
      found, or the request failed). */
  type Fetch = map<string, Item>

  function RegistryDeps(x: Item): seq<string> {
    OrEmpty(x.registryDependencies)
  }

  /** Whether the dependency loop recurses into d: with `skipUrls` (the add
      command) URL names are dropped before the lookup, and the lookup must
      answer. */
  predicate Followed(fetch: Fetch, skipUrls: bool, d: string) {
    !(skipUrls && ResolverGraph.IsUrl(d)) && d in fetch
  }

  /** Every followed name in deps has a rank below bound. */
  predicate Below(fetch: Fetch, rank: map<string, nat>, skipUrls: bool, deps: seq<string>, bound: nat) {
    forall d :: d in deps && Followed(fetch, skipUrls, d) ==> d in rank && rank[d] < bound
  }

  /** The followed dependencies among fetched items are acyclic, as a rank
      that falls along every one of them witnesses. On a cycle neither
      installer terminates, since an item is recorded only after its
      dependencies. */
  predicate Ranked(fetch: Fetch, rank: map<string, nat>, skipUrls: bool) {
    forall k :: k in fetch ==> k in rank && Below(fetch, rank, skipUrls, RegistryDeps(fetch[k]), rank[k])
  }

  /** Two fetched items that follow each other admit no rank: this is the
      cycle on which both planners recurse without end. */
  lemma CycleUnranked(fetch: Fetch, rank: map<string, nat>, skipUrls: bool, a: string, b: string)
    requires a in fetch && b in fetch
    requires b in RegistryDeps(fetch[a]) && a in RegistryDeps(fetch[b])
    requires Followed(fetch, skipUrls, a) && Followed(fetch, skipUrls, b)
    ensures !Ranked(fetch, rank, skipUrls)
  {
  }

  /** Some item of s carries the name n (`resolved.some(r => r.name === n)`). */
  predicate HasName(s: seq<Item>, n: string) {
    exists j :: 0 <= j < |s| && s[j].name == n
  }

  /** The list `resolveDependencies(item, acc)` leaves behind: acc alone
      when an item of the same name is already there; otherwise acc, then
      what resolving each followed registry dependency adds, in listed
      order, then the item itself. `bound` exceeds the rank of every
      followed dependency of the item. */
  function Plan(fetch: Fetch, rank: map<string, nat>, skipUrls: bool, item: Item, bound: nat,
                acc: seq<Item>): (r: seq<Item>)
    requires Ranked(fetch, rank, skipUrls) && Below(fetch, rank, skipUrls, RegistryDeps(item), bound)
    ensures acc <= r
    ensures HasName(acc, item.name) ==> r == acc
    ensures !HasName(acc, item.name) ==> |r| > |acc| && r[|r| - 1] == item
    decreases bound, 1, 0
  {
    if HasName(acc, item.name) then acc
    else PlanDeps(fetch, rank, skipUrls, RegistryDeps(item), bound, acc) + [item]
  }

  /** The dependency loop: each followed name of deps resolved in turn,
      each on the list the previous one left. */
  function PlanDeps(fetch: Fetch, rank: map<string, nat>, skipUrls: bool, deps: seq<string>,
                    bound: nat, acc: seq<Item>): (r: seq<Item>)
    requires Ranked(fetch, rank, skipUrls) && Below(fetch, rank, skipUrls, deps, bound)
    ensures acc <= r
    decreases bound, 0, |deps|
  {
    if |deps| == 0 then acc
    else
      var next := if Followed(fetch, skipUrls, deps[0])
                  then Plan(fetch, rank, skipUrls, fetch[deps[0]], rank[deps[0]], acc)
                  else acc;
      PlanDeps(fetch, rank, skipUrls, deps[1..], bound, next)
  }

  /** The dependency loop from its i-th name on: that name resolved (when
      followed), then the rest. */
  lemma PlanDepsAt(fetch: Fetch, rank: map<string, nat>, skipUrls: bool, deps: seq<string>, i: nat,
                   bound: nat, acc: seq<Item>)
    requires Ranked(fetch, rank, skipUrls) && Below(fetch, rank, skipUrls, deps, bound) && i < |deps|
    ensures Below(fetch, rank, skipUrls, deps[i..], bound) && Below(fetch, rank, skipUrls, deps[i + 1..], bound)
    ensures var next := if Followed(fetch, skipUrls, deps[i])
                        then Plan(fetch, rank, skipUrls, fetch[deps[i]], rank[deps[i]], acc)
                        else acc;
      PlanDeps(fetch, rank, skipUrls, deps[i..], bound, acc) == PlanDeps(fetch, rank, skipUrls, deps[i + 1..], bound, next)
  {
    assert deps[i..][1..] == deps[i + 1..];
  }

  // ---------------------------------------------------------------------
  // Order and uniqueness of the plan

  /** The registry serves every item under its own name. */
  predicate Keyed(fetch: Fetch) {
    forall k :: k in fetch ==> fetch[k].name == k
  }

  predicate DistinctNames(s: seq<Item>) {
    forall i, j :: 0 <= i < j < |s| ==> s[i].name != s[j].name
  }

  /** Every followed dependency of an item of s is named earlier in s. */
  predicate DepsFirst(fetch: Fetch, skipUrls: bool, s: seq<Item>) {
    forall i, d :: 0 <= i < |s| && d in RegistryDeps(s[i]) && Followed(fetch, skipUrls, d) ==>
      HasName(s[..i], d)
  }

  /** The items of s at positions lo up to hi are fetched items of rank
      below bound. */
  predicate Fetched(fetch: Fetch, rank: map<string, nat>, s: seq<Item>, lo: nat, hi: nat, bound: nat) {
    forall i :: lo <= i < hi && i < |s| ==>
      s[i].name in fetch && s[i] == fetch[s[i].name] && s[i].name in rank && rank[s[i].name] < bound
  }

  lemma HasNameExtends(s: seq<Item>, t: seq<Item>, n: string)
    requires s <= t && HasName(s, n)
    ensures HasName(t, n)
  {
    var j :| 0 <= j < |s| && s[j].name == n;
    assert t[j] == s[j];
  }

  lemma DepsFirstAppend(fetch: Fetch, skipUrls: bool, s: seq<Item>, x: Item)
    requires DepsFirst(fetch, skipUrls, s)
    requires forall d :: d in RegistryDeps(x) && Followed(fetch, skipUrls, d) ==> HasName(s, d)
    ensures DepsFirst(fetch, skipUrls, s + [x])
  {
    var t := s + [x];
    forall i, d | 0 <= i < |t| && d in RegistryDeps(t[i]) && Followed(fetch, skipUrls, d)
      ensures HasName(t[..i], d)
    {
      if i < |s| {
        assert t[..i] == s[..i];
      } else {
        assert t[..i] == s;
      }
    }
  }

  /** Two adjacent fetched stretches make one. */
  lemma FetchedJoin(fetch: Fetch, rank: map<string, nat>, acc: seq<Item>, next: seq<Item>, r: seq<Item>, bound: nat)
    requires acc <= next <= r
    requires Fetched(fetch, rank, next, |acc|, |next|, bound) && Fetched(fetch, rank, r, |next|, |r|, bound)
    ensures Fetched(fetch, rank, r, |acc|, |r|, bound)
  {
    forall i | |acc| <= i < |next| ensures r[i] == next[i] {
    }
  }

  /** Appending an item of a new name keeps names distinct, names it, and
      keeps the fetched stretch before it. */
  lemma AppendFacts(fetch: Fetch, rank: map<string, nat>, p: seq<Item>, item: Item, lo: nat, bound: nat)
    requires DistinctNames(p) && forall j :: 0 <= j < |p| ==> p[j].name != item.name
    requires lo <= |p| && Fetched(fetch, rank, p, lo, |p|, bound)
    ensures var r := p + [item];
      DistinctNames(r) && HasName(r, item.name) && Fetched(fetch, rank, r, lo, |r| - 1, bound)
  {
    var r := p + [item];
    assert r[|r| - 1].name == item.name;
    forall i | lo <= i < |r| - 1 ensures r[i] == p[i] {
    }
  }

  /** Resolving one item keeps names distinct and dependencies first, and
      everything it adds before the item itself is a fetched item ranked
      below the bound. */
  lemma {:induction false} PlanFacts(fetch: Fetch, rank: map<string, nat>, skipUrls: bool, item: Item,
                                     bound: nat, acc: seq<Item>)
    requires Ranked(fetch, rank, skipUrls) && Below(fetch, rank, skipUrls, RegistryDeps(item), bound)
    requires Keyed(fetch) && DistinctNames(acc) && DepsFirst(fetch, skipUrls, acc)
    requires item.name in fetch ==> item.name in rank && rank[item.name] >= bound
    ensures var r := Plan(fetch, rank, skipUrls, item, bound, acc);
      DistinctNames(r) && DepsFirst(fetch, skipUrls, r) && HasName(r, item.name) &&
      (!HasName(acc, item.name) ==> Fetched(fetch, rank, r, |acc|, |r| - 1, bound))
    decreases bound, 1, 0
  {
    var r := Plan(fetch, rank, skipUrls, item, bound, acc);
    if !HasName(acc, item.name) {
      var p := PlanDeps(fetch, rank, skipUrls, RegistryDeps(item), bound, acc);
      PlanDepsFacts(fetch, rank, skipUrls, RegistryDeps(item), bound, acc);
      forall j | 0 <= j < |p| ensures p[j].name != item.name {
        if j < |acc| {
          assert acc[j] == p[j];
        }
      }
      DepsFirstAppend(fetch, skipUrls, p, item);
      assert r == p + [item];
      AppendFacts(fetch, rank, p, item, |acc|, bound);
    } else {
      assert r == acc;
    }
  }

  /** The list one name of the dependency loop leaves behind. */
  function DepStep(fetch: Fetch, rank: map<string, nat>, skipUrls: bool, d: string, acc: seq<Item>): seq<Item>
    requires Ranked(fetch, rank, skipUrls)
  {
    if Followed(fetch, skipUrls, d) then Plan(fetch, rank, skipUrls, fetch[d], rank[d], acc) else acc
  }

  /** One name of the dependency loop keeps the plan well formed, adds only
      fetched items below bound, and names d when it is followed. */
  lemma DepStepFacts(fetch: Fetch, rank: map<string, nat>, skipUrls: bool, d: string, bound: nat, acc: seq<Item>)
    requires Ranked(fetch, rank, skipUrls) && Below(fetch, rank, skipUrls, [d], bound)
    requires Keyed(fetch) && DistinctNames(acc) && DepsFirst(fetch, skipUrls, acc)
    ensures var next := DepStep(fetch, rank, skipUrls, d, acc);
      acc <= next && DistinctNames(next) && DepsFirst(fetch, skipUrls, next) &&
      Fetched(fetch, rank, next, |acc|, |next|, bound) &&
      (Followed(fetch, skipUrls, d) ==> HasName(next, d))
    decreases bound, 0, 0
  {
    if Followed(fetch, skipUrls, d) {
      assert d in [d];
      var next := Plan(fetch, rank, skipUrls, fetch[d], rank[d], acc);
      PlanFacts(fetch, rank, skipUrls, fetch[d], rank[d], acc);
      if !HasName(acc, d) {
        assert next[|next| - 1] == fetch[d];
        forall i | |acc| <= i < |next|
          ensures next[i].name in fetch && next[i] == fetch[next[i].name] && next[i].name in rank && rank[next[i].name] < bound
        {
          if i < |next| - 1 {
            assert Fetched(fetch, rank, next, |acc|, |next| - 1, rank[d]);
          }
        }
      }
    }
  }

  lemma {:induction false} PlanDepsFacts(fetch: Fetch, rank: map<string, nat>, skipUrls: bool,
                                         deps: seq<string>, bound: nat, acc: seq<Item>)
    requires Ranked(fetch, rank, skipUrls) && Below(fetch, rank, skipUrls, deps, bound)
    requires Keyed(fetch) && DistinctNames(acc) && DepsFirst(fetch, skipUrls, acc)
    ensures var r := PlanDeps(fetch, rank, skipUrls, deps, bound, acc);
      DistinctNames(r) && DepsFirst(fetch, skipUrls, r) && Fetched(fetch, rank, r, |acc|, |r|, bound) &&
      forall d :: d in deps && Followed(fetch, skipUrls, d) ==> HasName(r, d)
    decreases bound, 0, |deps|
  {
    if |deps| > 0 {
      var d := deps[0];
      var next := DepStep(fetch, rank, skipUrls, d, acc);
      DepStepFacts(fetch, rank, skipUrls, d, bound, acc);
      PlanDepsAt(fetch, rank, skipUrls, deps, 0, bound, acc);
      assert deps[0..] == deps;
      PlanDepsFacts(fetch, rank, skipUrls, deps[1..], bound, next);
      var r := PlanDeps(fetch, rank, skipUrls, deps[1..], bound, next);
      FetchedJoin(fetch, rank, acc, next, r, bound);
      forall e | e in deps && Followed(fetch, skipUrls, e) ensures HasName(r, e) {
        if e == d {
          HasNameExtends(next, r, e);
        } else {
          assert e in deps[1..];
        }
      }
    }
  }

  /** The plan of a fetched item, started from an empty list: no name
      twice, every followed dependency of every planned item planned
      before it, every planned item as the registry serves it, and the
      requested item last. */
  lemma InstallOrder(fetch: Fetch, rank: map<string, nat>, skipUrls: bool, name: string)
    requires Ranked(fetch, rank, skipUrls) && Keyed(fetch) && name in fetch
    ensures var r := Plan(fetch, rank, skipUrls, fetch[name], rank[name], []);
      DistinctNames(r) && DepsFirst(fetch, skipUrls, r) && r[|r| - 1] == fetch[name] &&
      forall i :: 0 <= i < |r| ==> r[i].name in fetch && r[i] == fetch[r[i].name]
  {
    PlanFacts(fetch, rank, skipUrls, fetch[name], rank[name], []);
  }

  /** Without URL-named registry entries, dropping URLs changes nothing:
      both installers then plan the same list. */
  lemma {:induction false} PlanIgnoresUrlSkip(fetch: Fetch, rank: map<string, nat>, item: Item, bound: nat,
                                              acc: seq<Item>)
    requires forall k :: k in fetch ==> !ResolverGraph.IsUrl(k)
    requires Ranked(fetch, rank, false) && Below(fetch, rank, false, RegistryDeps(item), bound)
    ensures Ranked(fetch, rank, true) && Below(fetch, rank, true, RegistryDeps(item), bound)
    ensures Plan(fetch, rank, false, item, bound, acc) == Plan(fetch, rank, true, item, bound, acc)
    decreases bound, 1, 0
  {
    if !HasName(acc, item.name) {
      PlanDepsIgnoresUrlSkip(fetch, rank, RegistryDeps(item), bound, acc);
    }
  }

  lemma {:induction false} PlanDepsIgnoresUrlSkip(fetch: Fetch, rank: map<string, nat>, deps: seq<string>,
                                                  bound: nat, acc: seq<Item>)
    requires forall k :: k in fetch ==> !ResolverGraph.IsUrl(k)
    requires Ranked(fetch, rank, false) && Below(fetch, rank, false, deps, bound)
    ensures Ranked(fetch, rank, true) && Below(fetch, rank, true, deps, bound)
    ensures PlanDeps(fetch, rank, false, deps, bound, acc) == PlanDeps(fetch, rank, true, deps, bound, acc)
    decreases bound, 0, |deps|
  {
    if |deps| > 0 {
      var d := deps[0];
      if d in fetch {
        PlanIgnoresUrlSkip(fetch, rank, fetch[d], rank[d], acc);
        PlanDepsIgnoresUrlSkip(fetch, rank, deps[1..], bound,
                               Plan(fetch, rank, false, fetch[d], rank[d], acc));
      } else {
        PlanDepsIgnoresUrlSkip(fetch, rank, deps[1..], bound, acc);
      }
    }
  }

  /** A registry that answers a URL name: the installer follows it, the
      add command does not. */
  lemma UrlDependencyContrast(url: string, remote: Item, top: Item)
    requires url == "https://x" && remote == Item("remote", None, None, [])
    requires top == Item("top", None, Some([url]), [])
    ensures Plan(map[url := remote], map[url := 0], false, top, 1, []) == [remote, top]
    ensures Plan(map[url := remote], map[url := 0], true, top, 1, []) == [top]
  {
    assert ResolverGraph.IsUrl(url) by {
      assert url[..8] == "https://";
    }
    var fetch, rank := map[url := remote], map[url := 0];
    assert !HasName([], top.name);
    assert !HasName([], remote.name);
    assert !HasName([remote], top.name);
    assert Plan(fetch, rank, false, remote, 0, []) == [remote];
  }

  // ---------------------------------------------------------------------
  // The npm package union

  /** s with later repeats dropped: what a JavaScript `Set` filled from s,
      in order, holds, in its insertion order. */
  function Dedup(s: seq<string>): (d: seq<string>)
    ensures Distinct(d) && forall x :: x in d <==> x in s
  {
    if |s| == 0 then []
    else
      var front := Dedup(s[..|s| - 1]);
      if s[|s| - 1] in front then front else front + [s[|s| - 1]]
  }

  /** Deduplicating more text only appends: the order of first occurrence
      is kept. */
  lemma {:induction false} DedupExtends(a: seq<string>, b: seq<string>)
    ensures Dedup(a) <= Dedup(a + b)
    decreases |b|
  {
    if |b| > 0 {
      var c := a + b;
      assert c[..|c| - 1] == a + b[..|b| - 1];
      DedupExtends(a, b[..|b| - 1]);
    } else {
      assert a + b == a;
    }
  }

  /** The npm dependencies of items, in order, repeats included. */
  function AllNpm(items: seq<Item>): seq<string> {
    if |items| == 0 then []
    else AllNpm(items[..|items| - 1]) + OrEmpty(items[|items| - 1].dependencies)
  }

  lemma {:induction false} AllNpmMembers(items: seq<Item>, x: string)
    ensures x in AllNpm(items) <==> exists i :: 0 <= i < |items| && x in OrEmpty(items[i].dependencies)
  {
    if |items| > 0 {
      var front := items[..|items| - 1];
      AllNpmMembers(front, x);
      if x in AllNpm(front) {
        var i :| 0 <= i < |front| && x in OrEmpty(front[i].dependencies);
        assert items[i] == front[i];
      }
      if exists i :: 0 <= i < |items| && x in OrEmpty(items[i].dependencies) {
        var i :| 0 <= i < |items| && x in OrEmpty(items[i].dependencies);
        if i < |front| {
          assert front[i] == items[i];
        }
      }
    }
  }

  /** The two nested loops filling `allNpmDeps`, read back with
      `Array.from`. */
  method NpmPackages(items: seq<Item>) returns (pkgs: seq<string>)
    ensures pkgs == Dedup(AllNpm(items))
  {
    pkgs := [];
    var i := 0;
    while i < |items|
      invariant 0 <= i <= |items|
      invariant pkgs == Dedup(AllNpm(items[..i]))
    {
      var deps := OrEmpty(items[i].dependencies);
      ghost var seen := AllNpm(items[..i]);
      assert seen + deps[..0] == seen;
      var j := 0;
      while j < |deps|
        invariant 0 <= j <= |deps|
        invariant pkgs == Dedup(seen + deps[..j])
      {
        DedupStep(seen, deps, j);
        if deps[j] !in pkgs {
          pkgs := pkgs + [deps[j]];
        }
        j := j + 1;
      }
      assert deps[..j] == deps;
      AllNpmStep(items, i);
      i := i + 1;
    }
    assert items[..i] == items;
  }

  /** Deduplicating one more name appends it unless it was already seen. */
  lemma DedupStep(seen: seq<string>, deps: seq<string>, j: nat)
    requires j < |deps|
    ensures var d := Dedup(seen + deps[..j]);
      Dedup(seen + deps[..j + 1]) == if deps[j] in d then d else d + [deps[j]]
  {
    var a := seen + deps[..j + 1];
    assert a[..|a| - 1] == seen + deps[..j];
  }

  /** One more item appends its npm dependencies. */
  lemma AllNpmStep(items: seq<Item>, i: nat)
    requires i < |items|
    ensures AllNpm(items[..i + 1]) == AllNpm(items[..i]) + OrEmpty(items[i].dependencies)
  {
    assert items[..i + 1][..i] == items[..i];
  }

  /** The packages installed are exactly the npm dependencies of the
      planned items, each once. */
  lemma NpmPackagesUnion(items: seq<Item>, x: string)
    ensures Distinct(Dedup(AllNpm(items)))
    ensures x in Dedup(AllNpm(items)) <==> exists i :: 0 <= i < |items| && x in OrEmpty(items[i].dependencies)
  {
    AllNpmMembers(items, x);
  }

  // ---------------------------------------------------------------------
  // Where a registry file lands

  /** The target with one leading `~/` removed (`replace(/^~\//, '')`). */
  function StripHome(t: string): string {
    if StartsWith(t, "~/") then t[2..] else t
  }

  /** `path.join` without its normalisation: the non-empty parts joined
      with '/'. */
  function PathJoin(parts: seq<string>): (p: string)
    ensures |parts| > 0 && parts[0] != "" ==>
      StartsWith(p, parts[0]) && (p == parts[0] || p[|parts[0]|] == '/')
  {
    JoinWith(NonEmpty(parts), "/")
  }

  /** The first directories whose full registry path is kept under src/. */
  predicate KeepsFullPath(first: string) {
    first == "modules" || first == "layouts" || first == "shared"
  }

  /** The alias a first directory maps to: lib and composables have their
      own, everything else goes to components. */
  function AliasFor(first: string, aliases: Aliases): string {
    if first == "lib" then aliases.lib
    else if first == "composables" then aliases.composables
    else aliases.components
  }

  /** The project path a registry file is written to, relative to cwd. */
  function TargetPath(cwd: string, file: FileEntry, aliases: Aliases): (p: string)
    ensures cwd != "" ==> StartsWith(p, cwd) && (p == cwd || p[|cwd|] == '/')
  {
    if file.target != "" then PathJoin([cwd, StripHome(file.target)])
    else
      var parts := Split(file.path, '/');
      if KeepsFullPath(parts[0]) then PathJoin([cwd, "src", file.path])
      else PathJoin([cwd, ReplaceFirst(AliasFor(parts[0], aliases), "@/", "src/"), JoinWith(parts[1..], "/")])
  }

  /** An explicit target wins over the registry path, and exactly one
      leading `~/` is removed from it; any other target is used as is. */
  lemma ExplicitTarget(cwd: string, path: string, t: string, aliases: Aliases)
    ensures TargetPath(cwd, FileEntry(path, "~/" + t), aliases) == PathJoin([cwd, t])
    ensures t != "" && !StartsWith(t, "~/") ==> TargetPath(cwd, FileEntry(path, t), aliases) == PathJoin([cwd, t])
  {
    var h := "~/" + t;
    assert h[..2] == "~/" && h[2..] == t;
  }

  lemma PathJoinThree(a: string, b: string, c: string)
    requires a != "" && b != "" && c != ""
    ensures PathJoin([a, b, c]) == a + "/" + b + "/" + c
  {
    assert NonEmpty([c]) == [c];
    assert [b, c][1..] == [c];
    assert NonEmpty([b, c]) == [b, c];
    assert [a, b, c][1..] == [b, c];
    assert NonEmpty([a, b, c]) == [a, b, c];
    assert JoinWith([b, c], "/") == b + "/" + c;
  }

  /** The first '/' of seg + "/" + rest follows seg when seg has none. */
  lemma FirstSeparator(seg: string, rest: string)
    requires '/' !in seg
    ensures var p := seg + "/" + rest;
      '/' in p && IndexOf(p, '/') == |seg| && Split(p, '/')[0] == seg &&
      JoinWith(Split(p, '/')[1..], "/") == rest
  {
    var p := seg + "/" + rest;
    assert p == seg + ("/" + rest);
    IndexOfPast(seg, "/" + rest, '/');
    SplitFirst(p, '/');
    assert p[..|seg|] == seg;
    assert p[|seg| + 1..] == rest;
  }

  /** An alias of the form `@/<seg>` becomes `src/<seg>`. */
  lemma AliasToSrc(alias: string, seg: string)
    requires alias == "@/" + seg
    ensures ReplaceFirst(alias, "@/", "src/") == "src/" + seg
  {
    assert alias[..2] == "@/" && alias[2..] == seg;
  }

  /** A kept directory is joined under src/ whole. */
  lemma MirrorFullPath(cwd: string, seg: string, rest: string, aliases: Aliases)
    requires cwd != "" && '/' !in seg && KeepsFullPath(seg)
    ensures TargetPath(cwd, FileEntry(seg + "/" + rest, ""), aliases) == cwd + "/" + "src" + "/" + (seg + "/" + rest)
  {
    FirstSeparator(seg, rest);
    PathJoinThree(cwd, "src", seg + "/" + rest);
  }

  /** An alias `@/<seg>` for directory seg puts the file under src/<seg>. */
  lemma MirrorAlias(cwd: string, seg: string, rest: string, aliases: Aliases)
    requires cwd != "" && rest != "" && '/' !in seg && !KeepsFullPath(seg)
    requires AliasFor(seg, aliases) == "@/" + seg
    ensures TargetPath(cwd, FileEntry(seg + "/" + rest, ""), aliases) == cwd + "/" + "src" + "/" + (seg + "/" + rest)
  {
    FirstSeparator(seg, rest);
    AliasToSrc(AliasFor(seg, aliases), seg);
    assert TargetPath(cwd, FileEntry(seg + "/" + rest, ""), aliases) == PathJoin([cwd, "src/" + seg, rest]);
    PathJoinThree(cwd, "src/" + seg, rest);
    SrcRegroup(cwd, seg, rest);
  }

  lemma SrcRegroup(cwd: string, seg: string, rest: string)
    ensures cwd + "/" + ("src/" + seg) + "/" + rest == cwd + "/" + "src" + "/" + (seg + "/" + rest)
  {
    assert "src/" == "src" + "/";
  }

  /** The default aliases of the aliased directories are `@/<directory>`. */
  lemma DefaultAliasShape(seg: string)
    requires seg == "components" || seg == "lib" || seg == "composables"
    ensures AliasFor(seg, DefaultAliases) == "@/" + seg
  {
  }

  /** With the default aliases every registry directory the registry uses
      is mirrored under src/: the file lands at cwd/src/<its registry path>. */
  lemma DefaultLayoutMirrored(cwd: string, seg: string, rest: string)
    requires cwd != "" && rest != ""
    requires seg == "components" || seg == "lib" || seg == "composables" ||
             seg == "modules" || seg == "layouts" || seg == "shared"
    ensures TargetPath(cwd, FileEntry(seg + "/" + rest, ""), DefaultAliases) == cwd + "/" + "src" + "/" + (seg + "/" + rest)
  {
    if KeepsFullPath(seg) {
      MirrorFullPath(cwd, seg, rest, DefaultAliases);
    } else {
      DefaultAliasShape(seg);
      MirrorAlias(cwd, seg, rest, DefaultAliases);
    }
  }

  /** A registry path without a directory lands on the alias directory
      itself: the file name is not part of the target. */
  lemma FlatPathTargetsAliasDirectory(cwd: string, path: string, aliases: Aliases)
    requires '/' !in path && !KeepsFullPath(path)
    ensures TargetPath(cwd, FileEntry(path, ""), aliases) ==
            PathJoin([cwd, ReplaceFirst(AliasFor(path, aliases), "@/", "src/"), ""])
  {
    SplitFirst(path, '/');
  }
}
