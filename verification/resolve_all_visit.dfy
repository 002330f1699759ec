/** The `resolveAll` query of src/lib/dependency-resolver.ts: a depth-first
    visit started from every key in turn, detecting cycles through the
    current path instead of a visiting set and ignoring names without a node. */
module ResolveAllVisit {
  import opened Wrappers
  import opened Seqs
  import opened Text
  import opened ResolverGraph

  /** The locals the `resolveAll` closure captures. */
  datatype AllState = AllState(
    installOrder: seq<string>,
    npmPackages: seq<string>,
    visited: set<string>,
    circular: seq<seq<string>>)

  function PathSet(path: seq<string>): (s: set<string>)
    ensures forall x :: x in s <==> x in path
  {
    set x | x in path
  }

  ghost predicate AllInv(g: Graph, st: AllState, path: seq<string>) {
    && st.visited <= g.Keys && PathSet(path) <= g.Keys && st.visited !! PathSet(path)
    && Distinct(st.installOrder) && (forall x :: x in st.installOrder <==> x in st.visited)
    && NpmUnion(g, st.npmPackages, st.visited + PathSet(path))
    && Settled(g, st.installOrder, st.visited, PathSet(path), st.circular)
    && (forall c :: c in st.circular ==> CycleWalk(g, c))
  }

  /** Lists only grow at the end and the visited set only grows. */
  ghost predicate AllExtends(st: AllState, st': AllState) {
    && st.installOrder <= st'.installOrder
    && st.npmPackages <= st'.npmPackages
    && st.visited <= st'.visited
    && st.circular <= st'.circular
  }

  /** How the visit of child b of parent has ended; active is the path
      including parent. */
  ghost predicate ChildDone(g: Graph, st: AllState, active: set<string>, parent: string, b: string) {
    || b !in g
    || b in st.visited
    || (b in active && EndsWithEdge(st.circular, parent, b))
  }

  ghost predicate ChildrenDone(g: Graph, st: AllState, active: set<string>, parent: string,
                               deps: seq<string>, j: nat)
    requires j <= |deps|
  {
    forall k :: 0 <= k < j && !IsUrl(deps[k]) ==> ChildDone(g, st, active, parent, deps[k])
  }

  lemma CycleStepAll(g: Graph, name: string, path: seq<string>, st: AllState)
    requires AllInv(g, st, path) && name in path
    requires IsWalk(g, path + [name])
    ensures AllInv(g, st.(circular := st.circular + [path + [name]]), path)
  {
    var c := path + [name];
    assert c[..|c| - 1] == path;
    var st' := st.(circular := st.circular + [c]);
    forall v, b | v in st'.visited && Edge(g, v, b) && b in g
      ensures b in st'.visited + PathSet(path) &&
              (Before(st'.installOrder, b, v) || EndsWithEdge(st'.circular, v, b))
    {
      if !Before(st.installOrder, b, v) {
        var e :| e in st.circular && |e| >= 2 && e[|e| - 2] == v && e[|e| - 1] == b;
        assert e in st'.circular;
      }
    }
  }

  lemma StartStepAll(g: Graph, name: string, path: seq<string>, st: AllState, npm: seq<string>)
    requires AllInv(g, st, path) && name in g && name !in st.visited && name !in path
    requires Distinct(npm) && forall d :: d in npm <==> d in st.npmPackages || d in g[name].dependencies
    ensures AllInv(g, st.(npmPackages := npm), path + [name])
  {
    assert PathSet(path + [name]) == PathSet(path) + {name};
  }

  lemma ChildCallPreAll(g: Graph, name: string, path: seq<string>, st: AllState, s: AllState,
                        dep: string)
    requires name in g && Edge(g, name, dep) && IsWalk(g, path + [name])
    requires name !in st.visited && name !in path && st.visited <= s.visited
    requires s.visited !! PathSet(path + [name])
    ensures IsWalk(g, path + [name] + [dep])
    ensures |g.Keys - s.visited - PathSet(path + [name])| < |g.Keys - st.visited - PathSet(path)|
  {
    WalkAppend(g, path + [name], dep);
    SubsetSmaller(g.Keys - s.visited - PathSet(path + [name]),
                  g.Keys - st.visited - PathSet(path), name);
  }

  lemma ChildStepAll(g: Graph, name: string, deps: seq<string>, j: nat, path: seq<string>,
                     before: AllState, after: AllState)
    requires j < |deps| && ChildrenDone(g, before, PathSet(path + [name]), name, deps, j)
    requires AllExtends(before, after)
    requires var dep := deps[j];
      && (dep in g && dep !in before.visited && dep in path + [name] ==>
            path + [name] + [dep] in after.circular)
      && (dep in g && dep !in path + [name] ==> dep in after.visited)
    ensures ChildrenDone(g, after, PathSet(path + [name]), name, deps, j + 1)
  {
    var dep := deps[j];
    forall k | 0 <= k < j && !IsUrl(deps[k])
      ensures ChildDone(g, after, PathSet(path + [name]), name, deps[k])
    {
      var b := deps[k];
      if b in g && b !in before.visited {
        var c :| c in before.circular && |c| >= 2 && c[|c| - 2] == name && c[|c| - 1] == b;
        assert c in after.circular;
      }
    }
    if dep in g && dep !in before.visited && dep in path + [name] {
      var c := path + [name] + [dep];
      assert c[|c| - 2] == name && c[|c| - 1] == dep;
    }
  }

  /** URL dependencies are skipped. */
  lemma ChildSkipAll(g: Graph, st: AllState, active: set<string>, parent: string, deps: seq<string>, j: nat)
    requires j < |deps| && ChildrenDone(g, st, active, parent, deps, j) && IsUrl(deps[j])
    ensures ChildrenDone(g, st, active, parent, deps, j + 1)
  {
  }

  lemma FinishStepAll(g: Graph, name: string, path: seq<string>, s: AllState)
    requires name in g && name !in path
    requires AllInv(g, s, path + [name])
    requires ChildrenDone(g, s, PathSet(path + [name]), name, g[name].registryDependencies,
                          |g[name].registryDependencies|)
    ensures AllInv(g, s.(visited := s.visited + {name}, installOrder := s.installOrder + [name]), path)
  {
    var st' := s.(visited := s.visited + {name}, installOrder := s.installOrder + [name]);
    assert PathSet(path + [name]) == PathSet(path) + {name};
    assert st'.visited + PathSet(path) == s.visited + PathSet(path + [name]);
    DistinctAppend(s.installOrder, name);
    forall v, b | v in st'.visited && Edge(g, v, b) && b in g
      ensures b in st'.visited + PathSet(path) &&
              (Before(st'.installOrder, b, v) || EndsWithEdge(st'.circular, v, b))
    {
      if v == name {
        var k :| 0 <= k < |g[name].registryDependencies| && g[name].registryDependencies[k] == b;
        assert ChildDone(g, s, PathSet(path + [name]), name, g[name].registryDependencies[k]);
        if b in s.visited {
          BeforeLast(s.installOrder, b, name);
        }
      } else if Before(s.installOrder, b, v) {
        BeforeAppend(s.installOrder, [name], b, v);
      }
    }
  }

  method VisitAll(g: Graph, name: string, path: seq<string>, st: AllState)
    returns (st': AllState)
    requires AllInv(g, st, path) && IsWalk(g, path + [name])
    ensures AllInv(g, st', path) && AllExtends(st, st')
    ensures name in g && name !in st.visited && name in path ==> path + [name] in st'.circular
    ensures name in g && name !in path ==> name in st'.visited
    decreases |g.Keys - st.visited - PathSet(path)|, 1
  {
    if name !in g || name in st.visited {
      return st;
    }
    if name in path {
      CycleStepAll(g, name, path, st);
      return st.(circular := st.circular + [path + [name]]);
    }
    st' := VisitAllNode(g, name, path, st);
  }

  /** The rest of the visit for a node not yet visited and not on the path. */
  method VisitAllNode(g: Graph, name: string, path: seq<string>, st: AllState)
    returns (st': AllState)
    requires AllInv(g, st, path) && IsWalk(g, path + [name])
    requires name in g && name !in st.visited && name !in path
    ensures AllInv(g, st', path) && AllExtends(st, st') && name in st'.visited
    decreases |g.Keys - st.visited - PathSet(path)|, 0
  {
    var node := g[name];
    var npm := AddAll(st.npmPackages, node.dependencies);
    StartStepAll(g, name, path, st, npm);
    var s := st.(npmPackages := npm);
    var j := 0;
    while j < |node.registryDependencies|
      invariant 0 <= j <= |node.registryDependencies|
      invariant AllInv(g, s, path + [name]) && AllExtends(st, s)
      invariant ChildrenDone(g, s, PathSet(path + [name]), name, node.registryDependencies, j)
    {
      var dep := node.registryDependencies[j];
      if !StartsWith(dep, "http://") && !StartsWith(dep, "https://") {
        ChildCallPreAll(g, name, path, st, s, dep);
        ghost var before := s;
        s := VisitAll(g, dep, path + [name], s);
        ChildStepAll(g, name, node.registryDependencies, j, path, before, s);
      } else {
        ChildSkipAll(g, s, PathSet(path + [name]), name, node.registryDependencies, j);
      }
      j := j + 1;
    }
    FinishStepAll(g, name, path, s);
    st' := s.(visited := s.visited + {name}, installOrder := s.installOrder + [name]);
  }

  /** What `resolveAll()` promises about its result. */
  ghost predicate ResolveAllSpec(g: Graph, r: DependencyResolution) {
    var o := r.installOrder;
    // a permutation of all node names
    && Distinct(o) && (forall x :: x in o <==> x in g)
    // dependencies first, except along an edge that closed a reported cycle
    && (forall v, b :: Edge(g, v, b) && b in g ==>
          Before(o, b, v) || EndsWithEdge(OrEmpty(r.circularDependencies), v, b))
    && (r.circularDependencies.Some? ==> r.circularDependencies.value != [])
    && (forall c :: c in OrEmpty(r.circularDependencies) ==> CycleWalk(g, c))
    && NpmUnion(g, r.npmPackages, g.Keys)
    // names without a node are never reported
    && r.missingDependencies == None
  }

  /** resolveAll reports cycles exactly when the graph has one. */
  lemma ResolveAllReportsCycles(g: Graph, r: DependencyResolution)
    requires ResolveAllSpec(g, r)
    ensures r.circularDependencies.Some? <==> HasCycle(g)
  {
    if r.circularDependencies.Some? {
      var c := r.circularDependencies.value[0];
      assert c in OrEmpty(r.circularDependencies);
    } else if HasCycle(g) {
      var w :| CycleWalk(g, w);
      assert EdgesBackward(g, r.installOrder);
      WalkInGraph(g, w, 0);
      NoCycleWhenEdgesBackward(g, r.installOrder, w);
    }
  }
}
