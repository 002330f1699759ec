/** The data model of src/lib/dependency-resolver.ts and the graph notions
    its four queries are specified with: local edges, walks, reachability and
    cycles. */
module ResolverGraph {
  import opened Wrappers
  import opened Seqs
  import opened Text

  /** A registry item as the loader hands it over. Only the fields the
      resolver reads are kept; `kind` is the item's `type` tag. Absent
      arrays are None. */
  datatype RegistryItem = RegistryItem(
    name: string,
    kind: string,
    dependencies: Option<seq<string>>,
    registryDependencies: Option<seq<string>>)

  /** The resolver's per-item node. `resolved` is written once and never read. */
  datatype DependencyNode = DependencyNode(
    name: string,
    kind: string,
    dependencies: seq<string>,
    registryDependencies: seq<string>,
    resolved: bool)

  /** What resolve and resolveAll return; None stands for `undefined`. */
  datatype DependencyResolution = DependencyResolution(
    installOrder: seq<string>,
    npmPackages: seq<string>,
    circularDependencies: Option<seq<seq<string>>>,
    missingDependencies: Option<seq<string>>)

  type Graph = map<string, DependencyNode>

  /** Registry dependencies of this form point outside the local registry
      and are never traversed. */
  predicate IsUrl(s: string) {
    StartsWith(s, "http://") || StartsWith(s, "https://")
  }

  /** A name that does not begin with 'h' is local. */
  lemma NotUrl(s: string)
    requires |s| == 0 || s[0] != 'h'
    ensures !IsUrl(s)
  {
    if |s| >= 7 {
      assert s[..7][0] == s[0];
    }
    if |s| >= 8 {
      assert s[..8][0] == s[0];
    }
  }

  /** a has a node and lists b as a local (non-URL) registry dependency. */
  predicate Edge(g: Graph, a: string, b: string) {
    a in g && b in g[a].registryDependencies && !IsUrl(b)
  }

  /** w is a non-empty walk along local edges. */
  ghost predicate IsWalk(g: Graph, w: seq<string>) {
    |w| > 0 && (|w| == 1 || (Edge(g, w[0], w[1]) && IsWalk(g, w[1..])))
  }

  /** A walk that comes back to a name it already passed through. */
  ghost predicate CycleWalk(g: Graph, w: seq<string>) {
    IsWalk(g, w) && |w| >= 2 && w[|w| - 1] in w[..|w| - 1]
  }

  /** The local-edge graph among existing nodes has a cycle (self-loops included). */
  ghost predicate HasCycle(g: Graph) {
    exists w :: CycleWalk(g, w)
  }

  /** b can be reached from a in zero or more local edges. */
  ghost predicate Reachable(g: Graph, a: string, b: string) {
    exists w :: IsWalk(g, w) && w[0] == a && w[|w| - 1] == b
  }

  /** b can be reached from a in one or more local edges. */
  ghost predicate ReachablePlus(g: Graph, a: string, b: string) {
    exists w :: IsWalk(g, w) && |w| >= 2 && w[0] == a && w[|w| - 1] == b
  }

  /** Some reported cycle closes with the edge a -> b. */
  ghost predicate EndsWithEdge(cycles: seq<seq<string>>, a: string, b: string) {
    exists c :: c in cycles && |c| >= 2 && c[|c| - 2] == a && c[|c| - 1] == b
  }

  // ---------------------------------------------------------------------
  // Walk lemmas

  lemma {:induction false} WalkAppend(g: Graph, w: seq<string>, x: string)
    requires IsWalk(g, w) && Edge(g, w[|w| - 1], x)
    ensures IsWalk(g, w + [x])
  {
    if |w| > 1 {
      assert (w + [x])[1..] == w[1..] + [x];
      WalkAppend(g, w[1..], x);
    }
  }

  lemma {:induction false} WalkLastEdge(g: Graph, w: seq<string>)
    requires IsWalk(g, w) && |w| >= 2
    ensures Edge(g, w[|w| - 2], w[|w| - 1])
  {
    if |w| > 2 {
      WalkLastEdge(g, w[1..]);
    }
  }

  lemma {:induction false} WalkSuffix(g: Graph, w: seq<string>, j: nat)
    requires IsWalk(g, w) && j < |w|
    ensures IsWalk(g, w[j..])
  {
    if j > 0 {
      WalkSuffix(g, w[1..], j - 1);
      assert w[1..][j - 1..] == w[j..];
    }
  }

  lemma {:induction false} WalkPrefix(g: Graph, w: seq<string>, n: nat)
    requires IsWalk(g, w) && 0 < n <= |w|
    ensures IsWalk(g, w[..n])
  {
    if n > 1 {
      WalkPrefix(g, w[1..], n - 1);
      assert w[1..][..n - 1] == w[..n][1..];
    }
  }

  /** Every name of a walk except the last has a node. */
  lemma {:induction false} WalkInGraph(g: Graph, w: seq<string>, i: nat)
    requires IsWalk(g, w) && i < |w| - 1
    ensures w[i] in g && Edge(g, w[i], w[i + 1])
  {
    if i > 0 {
      WalkInGraph(g, w[1..], i - 1);
    }
  }

  /** A walk of more than one name starts at a name that has a node. */
  lemma WalkHead(g: Graph, w: seq<string>)
    requires IsWalk(g, w)
    ensures |w| == 1 || w[0] in g
  {
    if |w| > 1 {
      WalkInGraph(g, w, 0);
    }
  }

  /** Every cycle walk starts at a name that has a node. */
  lemma CycleHeads(g: Graph, cs: seq<seq<string>>)
    requires forall c :: c in cs ==> CycleWalk(g, c)
    ensures forall c :: c in cs ==> |c| > 0 && c[0] in g
  {
    forall c | c in cs ensures |c| > 0 && c[0] in g {
      WalkHead(g, c);
    }
  }

  lemma ReachableStep(g: Graph, a: string, b: string, c: string)
    requires Reachable(g, a, b) && Edge(g, b, c)
    ensures ReachablePlus(g, a, c) && Reachable(g, a, c)
  {
    var w :| IsWalk(g, w) && w[0] == a && w[|w| - 1] == b;
    WalkAppend(g, w, c);
    assert (w + [c])[0] == a;
  }

  /** Every local edge out of a name of o, to an existing name, points
      backwards in o. */
  ghost predicate EdgesBackward(g: Graph, o: seq<string>) {
    forall v, b :: v in o && Edge(g, v, b) && b in g ==> Before(o, b, v)
  }

  lemma {:induction false} WalkDescends(g: Graph, o: seq<string>, w: seq<string>)
    requires EdgesBackward(g, o) && IsWalk(g, w) && |w| >= 2 && w[0] in o && w[|w| - 1] in g
    ensures Before(o, w[|w| - 1], w[0])
  {
    WalkInGraph(g, w, 0);
    if |w| == 2 {
    } else {
      WalkInGraph(g, w, 1);
      WalkDescends(g, o, w[1..]);
    }
  }

  /** Then no walk that starts in o comes back to a name it passed. */
  lemma NoCycleWhenEdgesBackward(g: Graph, o: seq<string>, w: seq<string>)
    requires EdgesBackward(g, o) && |w| > 0 && w[0] in o
    ensures !CycleWalk(g, w)
  {
    if CycleWalk(g, w) {
      var last := |w| - 1;
      var j :| 0 <= j < last && w[j] == w[last];
      WalkInGraph(g, w, j);
      WalkSuffix(g, w, j);
      assert w[j..][|w[j..]| - 1] == w[last];
      if j > 0 {
        WalkPrefix(g, w, j + 1);
        assert w[..j + 1][0] == w[0] && w[..j + 1][j] == w[j];
        WalkDescends(g, o, w[..j + 1]);
      }
      WalkDescends(g, o, w[j..]);
      assert false;
    }
  }

  // ---------------------------------------------------------------------
  // Notions shared by the depth-first queries

  /** Packages are the union of the npm dependencies of the given nodes. */
  ghost predicate NpmUnion(g: Graph, npm: seq<string>, over: set<string>) {
    Distinct(npm) &&
    forall d :: d in npm <==> exists x :: x in over && x in g && d in g[x].dependencies
  }

  /** Every local edge out of a finished node is settled: its target is
      missing, or it was finished earlier, or the edge closed a reported cycle. */
  ghost predicate Settled(g: Graph, o: seq<string>, done: set<string>, active: set<string>,
                          circular: seq<seq<string>>)
  {
    forall v, b :: v in done && Edge(g, v, b) && b in g ==>
      b in done + active && (Before(o, b, v) || EndsWithEdge(circular, v, b))
  }

  /** A set closed under local edges holds everything reachable from its members. */
  lemma {:induction false} ClosedReach(g: Graph, s: set<string>, w: seq<string>)
    requires forall v, b :: v in s && Edge(g, v, b) && b in g ==> b in s
    requires IsWalk(g, w) && w[0] in s && w[|w| - 1] in g
    ensures w[|w| - 1] in s
  {
    if |w| > 1 {
      WalkInGraph(g, w, 0);
      if |w| > 2 {
        WalkInGraph(g, w, 1);
      }
      ClosedReach(g, s, w[1..]);
    }
  }

  /** `for (const dep of deps) set.add(dep)` on an insertion-ordered set. */
  method AddAll(set0: seq<string>, deps: seq<string>) returns (r: seq<string>)
    requires Distinct(set0)
    ensures Distinct(r) && set0 <= r
    ensures forall d :: d in r <==> d in set0 || d in deps
  {
    r := set0;
    var i := 0;
    while i < |deps|
      invariant 0 <= i <= |deps|
      invariant Distinct(r) && set0 <= r
      invariant forall d :: d in r <==> d in set0 || d in deps[..i]
    {
      var dep := deps[i];
      if dep !in r {
        DistinctAppend(r, dep);
        r := r + [dep];
      }
      assert deps[..i + 1] == deps[..i] + [dep];
      i := i + 1;
    }
    assert deps[..i] == deps;
  }
}
