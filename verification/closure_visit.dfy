/** The `getAllDependencies` query of src/lib/dependency-resolver.ts: a
    depth-first visit that records every local dependency name it meets,
    with or without a node, in an insertion-ordered set. */
module ClosureVisit {
  import opened Seqs
  import opened Text
  import opened ResolverGraph

  /** Every name a visit can reach: the start and every listed registry dependency. */
  function Universe(g: Graph, root: string): set<string> {
    {root} + (set v, x | v in g && x in g[v].registryDependencies :: x)
  }

  /** active: the names whose dependency loop is still running. */
  ghost predicate ClosureInv(g: Graph, root: string, visited: set<string>, result: seq<string>,
                             active: set<string>)
  {
    && active <= visited <= Universe(g, root)
    && Distinct(result)
    && (forall x :: x in result ==> x in Universe(g, root) && ReachablePlus(g, root, x))
    && (forall v :: v in visited ==> v == root || v in result)
    && (forall v, b :: v in visited && v !in active && Edge(g, v, b) ==>
          b in result && b in visited)
  }

  lemma ReachableOfVisited(g: Graph, root: string, visited: set<string>, result: seq<string>,
                           active: set<string>, v: string)
    requires ClosureInv(g, root, visited, result, active) && v in visited
    ensures Reachable(g, root, v)
  {
    if v == root {
      assert IsWalk(g, [root]);
    } else {
      var w :| IsWalk(g, w) && |w| >= 2 && w[0] == root && w[|w| - 1] == v;
    }
  }

  /** Recording child dep of name in the result set. */
  lemma AddStep(g: Graph, root: string, visited: set<string>, result: seq<string>,
                active: set<string>, name: string, dep: string)
    requires ClosureInv(g, root, visited, result, active) && name in visited && Edge(g, name, dep)
    ensures var r := if dep in result then result else result + [dep];
      ClosureInv(g, root, visited, r, active) && result <= r && dep in r
  {
    ReachableOfVisited(g, root, visited, result, active, name);
    ReachableStep(g, root, name, dep);
  }

  /** Marking name visited and opening its dependency loop. */
  lemma EnterStep(g: Graph, root: string, visited: set<string>, result: seq<string>,
                  active: set<string>, name: string)
    requires ClosureInv(g, root, visited, result, active) && name !in visited
    requires name == root || name in result
    ensures ClosureInv(g, root, visited + {name}, result, active + {name})
    ensures name !in g ==> ClosureInv(g, root, visited + {name}, result, active)
  {
  }

  /** The first j local dependencies are recorded and visited. */
  ghost predicate ChildrenIn(deps: seq<string>, j: nat, visited: set<string>, result: seq<string>)
    requires j <= |deps|
  {
    forall k :: 0 <= k < j && !IsUrl(deps[k]) ==> deps[k] in result && deps[k] in visited
  }

  /** A local child counts once it is recorded and visited. */
  lemma ChildrenInGrow(deps: seq<string>, j: nat, visited: set<string>, result: seq<string>,
                       visited': set<string>, result': seq<string>)
    requires j < |deps| && ChildrenIn(deps, j, visited, result)
    requires visited <= visited' && result <= result'
    requires deps[j] in result' && deps[j] in visited'
    ensures ChildrenIn(deps, j + 1, visited', result')
  {
  }

  /** A URL child is passed over. */
  lemma ChildrenInSkip(deps: seq<string>, j: nat, visited: set<string>, result: seq<string>)
    requires j < |deps| && ChildrenIn(deps, j, visited, result) && IsUrl(deps[j])
    ensures ChildrenIn(deps, j + 1, visited, result)
  {
  }

  /** Closing the dependency loop of name once every child is recorded. */
  lemma LeaveStep(g: Graph, root: string, visited: set<string>, result: seq<string>,
                  active: set<string>, name: string)
    requires ClosureInv(g, root, visited, result, active + {name}) && name in g && name !in active
    requires ChildrenIn(g[name].registryDependencies, |g[name].registryDependencies|, visited, result)
    ensures ClosureInv(g, root, visited, result, active)
  {
    forall v, b | v in visited && v !in active && Edge(g, v, b)
      ensures b in result && b in visited
    {
      if v == name {
        var k :| 0 <= k < |g[name].registryDependencies| && g[name].registryDependencies[k] == b;
      }
    }
  }

  method VisitClosure(g: Graph, root: string, name: string, visited: set<string>,
                      result: seq<string>, ghost active: set<string>)
    returns (visited': set<string>, result': seq<string>)
    requires ClosureInv(g, root, visited, result, active)
    requires name == root || name in result
    ensures ClosureInv(g, root, visited', result', active)
    ensures visited <= visited' && result <= result' && name in visited'
    decreases |Universe(g, root) - visited|
  {
    if name in visited {
      return visited, result;
    }
    EnterStep(g, root, visited, result, active, name);
    visited', result' := visited + {name}, result;
    if name !in g {
      return;
    }
    var deps := g[name].registryDependencies;
    var j := 0;
    while j < |deps|
      invariant 0 <= j <= |deps|
      invariant ClosureInv(g, root, visited', result', active + {name})
      invariant visited + {name} <= visited' && result <= result'
      invariant ChildrenIn(deps, j, visited', result')
    {
      var dep := deps[j];
      if !StartsWith(dep, "http://") && !StartsWith(dep, "https://") {
        ghost var (v0, r0) := (visited', result');
        AddStep(g, root, visited', result', active + {name}, name, dep);
        if dep !in result' {
          result' := result' + [dep];
        }
        assert dep in result';
        SubsetSmaller(Universe(g, root) - visited', Universe(g, root) - visited, name);
        visited', result' := VisitClosure(g, root, dep, visited', result', active + {name});
        ChildrenInGrow(deps, j, v0, r0, visited', result');
      } else {
        ChildrenInSkip(deps, j, visited', result');
      }
      j := j + 1;
    }
    LeaveStep(g, root, visited', result', active, name);
  }

  /** A walk out of a set closed under edges ends in the result. */
  lemma {:induction false} ClosedWalk(g: Graph, s: set<string>, result: seq<string>, w: seq<string>)
    requires forall v, b :: v in s && Edge(g, v, b) ==> b in result && b in s
    requires IsWalk(g, w) && |w| >= 2 && w[0] in s
    ensures w[|w| - 1] in result
  {
    if |w| > 2 {
      ClosedWalk(g, s, result, w[1..]);
    }
  }

  /** What `getAllDependencies(root)` promises: every name reachable by one
      or more local edges, once each. */
  ghost predicate ClosureSpec(g: Graph, root: string, deps: seq<string>) {
    Distinct(deps) && forall x :: x in deps <==> ReachablePlus(g, root, x)
  }

  lemma ClosureDone(g: Graph, root: string, visited: set<string>, result: seq<string>)
    requires ClosureInv(g, root, visited, result, {}) && root in visited
    ensures ClosureSpec(g, root, result)
  {
    forall x | ReachablePlus(g, root, x) ensures x in result {
      var w :| IsWalk(g, w) && |w| >= 2 && w[0] == root && w[|w| - 1] == x;
      ClosedWalk(g, visited, result, w);
    }
  }

  /** The item itself is in its own closure exactly when a cycle leads back to it. */
  lemma ClosureHoldsRootOnCycle(g: Graph, root: string, deps: seq<string>)
    requires ClosureSpec(g, root, deps)
    ensures root in deps <==> exists w :: CycleWalk(g, w) && w[0] == root && w[|w| - 1] == root
  {
    if root in deps {
      var w :| IsWalk(g, w) && |w| >= 2 && w[0] == root && w[|w| - 1] == root;
      assert w[|w| - 1] == w[..|w| - 1][0];
      assert CycleWalk(g, w);
    }
  }
}
