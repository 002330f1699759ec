/** The `resolve` query of src/lib/dependency-resolver.ts: its `visit`
    closure, with the captured locals as a state record that the recursive
    method takes and returns. */
module ResolveVisit {
  import opened Wrappers
  import opened Seqs
  import opened Text
  import opened ResolverGraph

  /** The locals the `resolve` closure captures. */
  datatype ResolveState = ResolveState(
    installOrder: seq<string>,
    npmPackages: seq<string>,
    visited: set<string>,
    visiting: set<string>,
    circular: seq<seq<string>>,
    missing: seq<string>)

  ghost predicate ResolveInv(g: Graph, root: string, st: ResolveState) {
    && st.visited <= g.Keys && st.visiting <= g.Keys && st.visited !! st.visiting
    && Distinct(st.installOrder) && (forall x :: x in st.installOrder <==> x in st.visited)
    && NpmUnion(g, st.npmPackages, st.visited + st.visiting)
    && Distinct(st.missing)
    && (forall m :: m in st.missing ==>
          m !in g && (m == root || exists v :: v in st.visited + st.visiting && Edge(g, v, m)))
    && (forall v, b :: v in st.visited && Edge(g, v, b) && b !in g ==> b in st.missing)
    && Settled(g, st.installOrder, st.visited, st.visiting, st.circular)
    && (forall x :: x in st.visited ==> Reachable(g, root, x))
    && (forall c :: c in st.circular ==> CycleWalk(g, c) && c[0] == root)
  }

  /** What one visit may do to the captured locals: lists only grow at the
      end, sets only grow, and the visiting set is restored. */
  ghost predicate Extends(st: ResolveState, st': ResolveState) {
    && st.installOrder <= st'.installOrder
    && st.npmPackages <= st'.npmPackages
    && st.visited <= st'.visited
    && st'.visiting == st.visiting
    && st.circular <= st'.circular
    && st.missing <= st'.missing
  }

  /** How the visit of one child b of parent has ended, as the parent's loop sees it. */
  ghost predicate ChildHandled(g: Graph, st: ResolveState, parent: string, b: string) {
    || (b !in g && b in st.missing)
    || (b in g && b in st.visited)
    || (b in g && b in st.visiting && EndsWithEdge(st.circular, parent, b))
  }

  lemma ChildHandledExtends(g: Graph, st: ResolveState, st': ResolveState, parent: string, b: string)
    requires ChildHandled(g, st, parent, b) && Extends(st, st')
    ensures ChildHandled(g, st', parent, b)
  {
    if b in g && b !in st.visited && b !in st.missing {
      var c :| c in st.circular && |c| >= 2 && c[|c| - 2] == parent && c[|c| - 1] == b;
      assert c in st'.circular;
    }
  }

  lemma MissingStep(g: Graph, root: string, name: string, path: seq<string>, st: ResolveState)
    requires ResolveInv(g, root, st) && name !in g && name !in st.missing
    requires forall x :: x in st.visiting <==> x in path
    requires IsWalk(g, path + [name]) && (path + [name])[0] == root
    ensures ResolveInv(g, root, st.(missing := st.missing + [name]))
    ensures Extends(st, st.(missing := st.missing + [name]))
  {
    if path != [] {
      WalkLastEdge(g, path + [name]);
      assert Edge(g, path[|path| - 1], name);
    }
  }

  lemma CycleStep(g: Graph, root: string, name: string, path: seq<string>, st: ResolveState)
    requires ResolveInv(g, root, st) && name in st.visiting
    requires forall x :: x in st.visiting <==> x in path
    requires IsWalk(g, path + [name]) && (path + [name])[0] == root
    ensures ResolveInv(g, root, st.(circular := st.circular + [path + [name]]))
    ensures Extends(st, st.(circular := st.circular + [path + [name]]))
  {
    var c := path + [name];
    assert c[..|c| - 1] == path;
    var st' := st.(circular := st.circular + [c]);
    forall v, b | v in st'.visited && Edge(g, v, b) && b in g
      ensures b in st'.visited + st'.visiting &&
              (Before(st'.installOrder, b, v) || EndsWithEdge(st'.circular, v, b))
    {
      if !Before(st.installOrder, b, v) {
        var e :| e in st.circular && |e| >= 2 && e[|e| - 2] == v && e[|e| - 1] == b;
        assert e in st'.circular;
      }
    }
  }

  /** Moving a node whose children are all handled from visiting to visited. */
  lemma FinishStep(g: Graph, root: string, name: string, path: seq<string>,
                   st: ResolveState, s: ResolveState)
    requires name in g && name !in st.visiting && name !in st.visited
    requires ResolveInv(g, root, s) && s.visiting == st.visiting + {name}
    requires IsWalk(g, path + [name]) && (path + [name])[0] == root
    requires ChildrenHandled(g, s, name, g[name].registryDependencies,
                             |g[name].registryDependencies|)
    ensures ResolveInv(g, root, s.(visiting := s.visiting - {name},
                                   visited := s.visited + {name},
                                   installOrder := s.installOrder + [name]))
  {
    var st' := s.(visiting := s.visiting - {name}, visited := s.visited + {name},
                  installOrder := s.installOrder + [name]);
    assert st'.visited + st'.visiting == s.visited + s.visiting;
    assert name !in s.installOrder;
    DistinctAppend(s.installOrder, name);
    forall v, b | v in st'.visited && Edge(g, v, b) && b !in g ensures b in st'.missing {
      if v == name {
        var k :| 0 <= k < |g[name].registryDependencies| && g[name].registryDependencies[k] == b;
        assert ChildHandled(g, s, name, g[name].registryDependencies[k]);
      }
    }
    forall v, b | v in st'.visited && Edge(g, v, b) && b in g
      ensures b in st'.visited + st'.visiting &&
              (Before(st'.installOrder, b, v) || EndsWithEdge(st'.circular, v, b))
    {
      if v == name {
        var k :| 0 <= k < |g[name].registryDependencies| && g[name].registryDependencies[k] == b;
        assert ChildHandled(g, s, name, g[name].registryDependencies[k]);
        if b in s.visited {
          BeforeLast(s.installOrder, b, name);
        }
      } else if Before(s.installOrder, b, v) {
        BeforeAppend(s.installOrder, [name], b, v);
      }
    }
    assert Reachable(g, root, name) by {
      assert IsWalk(g, path + [name]);
    }
  }

  /** Entering a fresh node: it becomes visiting and its packages are added. */
  lemma StartStep(g: Graph, root: string, name: string, st: ResolveState, npm: seq<string>)
    requires ResolveInv(g, root, st) && name in g && name !in st.visiting && name !in st.visited
    requires Distinct(npm) && forall d :: d in npm <==> d in st.npmPackages || d in g[name].dependencies
    ensures ResolveInv(g, root, st.(visiting := st.visiting + {name}, npmPackages := npm))
  {
    var s := st.(visiting := st.visiting + {name}, npmPackages := npm);
    assert s.visited + s.visiting == st.visited + st.visiting + {name};
  }

  /** The first j registry dependencies of parent have been handled. */
  ghost predicate ChildrenHandled(g: Graph, st: ResolveState, parent: string,
                                  deps: seq<string>, j: nat)
    requires j <= |deps|
  {
    forall k :: 0 <= k < j && !IsUrl(deps[k]) ==> ChildHandled(g, st, parent, deps[k])
  }

  /** The recursive call on child deps[j] of name is well formed. */
  lemma ChildCallPre(g: Graph, root: string, name: string, path: seq<string>,
                     st: ResolveState, s: ResolveState, dep: string)
    requires name in g && Edge(g, name, dep)
    requires forall x :: x in st.visiting <==> x in path
    requires IsWalk(g, path + [name]) && (path + [name])[0] == root
    requires s.visiting == st.visiting + {name} && st.visited <= s.visited
    requires name !in st.visiting && name !in st.visited && s.visited <= g.Keys
    ensures forall x :: x in s.visiting <==> x in path + [name]
    ensures IsWalk(g, path + [name] + [dep]) && (path + [name] + [dep])[0] == root
    ensures |g.Keys - s.visited - s.visiting| < |g.Keys - st.visited - st.visiting|
  {
    WalkAppend(g, path + [name], dep);
    SubsetSmaller(g.Keys - s.visited - s.visiting, g.Keys - st.visited - st.visiting, name);
  }

  /** The outcome of visiting child deps[j] of name, added to what the loop knows. */
  lemma ChildStep(g: Graph, name: string, deps: seq<string>, j: nat, path: seq<string>,
                  before: ResolveState, after: ResolveState)
    requires j < |deps| && ChildrenHandled(g, before, name, deps, j)
    requires Extends(before, after) && name in g
    requires var dep := deps[j];
      && (dep !in g ==> dep in after.missing)
      && (dep in g && dep in before.visiting ==> path + [name] + [dep] in after.circular)
      && (dep in g && dep !in before.visiting ==> dep in after.visited)
    ensures ChildrenHandled(g, after, name, deps, j + 1)
  {
    var dep := deps[j];
    forall k | 0 <= k < j && !IsUrl(deps[k]) ensures ChildHandled(g, after, name, deps[k]) {
      ChildHandledExtends(g, before, after, name, deps[k]);
    }
    if dep in g && dep in before.visiting {
      var c := path + [name] + [dep];
      assert c[|c| - 2] == name && c[|c| - 1] == dep;
    }
  }

  /** URL dependencies are skipped. */
  lemma ChildSkip(g: Graph, st: ResolveState, name: string, deps: seq<string>, j: nat)
    requires j < |deps| && ChildrenHandled(g, st, name, deps, j) && IsUrl(deps[j])
    ensures ChildrenHandled(g, st, name, deps, j + 1)
  {
  }

  /** `visit` of a name it does not descend into: a missing item is
      recorded once, a name on the current path closes a cycle, and a
      visited item is left alone. */
  function Revisit(g: Graph, name: string, path: seq<string>, st: ResolveState): ResolveState {
    if name !in g then (if name in st.missing then st else st.(missing := st.missing + [name]))
    else if name in st.visiting then st.(circular := st.circular + [path + [name]])
    else st
  }

  lemma RevisitStep(g: Graph, root: string, name: string, path: seq<string>, st: ResolveState)
    requires ResolveInv(g, root, st)
    requires forall x :: x in st.visiting <==> x in path
    requires IsWalk(g, path + [name]) && (path + [name])[0] == root
    requires name !in g || name in st.visiting || name in st.visited
    ensures ResolveInv(g, root, Revisit(g, name, path, st)) && Extends(st, Revisit(g, name, path, st))
    ensures name !in g ==> name in Revisit(g, name, path, st).missing
    ensures name in g && name in st.visiting ==> path + [name] in Revisit(g, name, path, st).circular
    ensures name in g && name !in st.visiting ==> name in Revisit(g, name, path, st).visited
  {
    if name !in g {
      if name !in st.missing {
        MissingStep(g, root, name, path, st);
      }
    } else if name in st.visiting {
      CycleStep(g, root, name, path, st);
    }
  }

  method VisitResolve(g: Graph, root: string, name: string, path: seq<string>, st: ResolveState)
    returns (st': ResolveState)
    requires ResolveInv(g, root, st)
    requires forall x :: x in st.visiting <==> x in path
    requires IsWalk(g, path + [name]) && (path + [name])[0] == root
    ensures ResolveInv(g, root, st') && Extends(st, st')
    ensures name !in g ==> name in st'.missing
    ensures name in g && name in st.visiting ==> path + [name] in st'.circular
    ensures name in g && name !in st.visiting ==> name in st'.visited
    ensures name in g && name !in st.visiting && name !in st.visited ==>
      |st'.installOrder| > 0 && st'.installOrder[|st'.installOrder| - 1] == name
    decreases |g.Keys - st.visited - st.visiting|, 1
  {
    if name !in g || name in st.visiting || name in st.visited {
      RevisitStep(g, root, name, path, st);
      return Revisit(g, name, path, st);
    }
    st' := VisitNode(g, root, name, path, st);
  }

  /** The rest of `visit` for a node seen for the first time: mark it
      visiting, add its packages, visit its local dependencies in order,
      then move it to visited and append it to the install order. */
  method VisitNode(g: Graph, root: string, name: string, path: seq<string>, st: ResolveState)
    returns (st': ResolveState)
    requires ResolveInv(g, root, st)
    requires forall x :: x in st.visiting <==> x in path
    requires IsWalk(g, path + [name]) && (path + [name])[0] == root
    requires name in g && name !in st.visiting && name !in st.visited
    ensures ResolveInv(g, root, st') && Extends(st, st')
    ensures name in st'.visited
    ensures |st'.installOrder| > 0 && st'.installOrder[|st'.installOrder| - 1] == name
    decreases |g.Keys - st.visited - st.visiting|, 0
  {
    var node := g[name];
    var npm := AddAll(st.npmPackages, node.dependencies);
    StartStep(g, root, name, st, npm);
    var s := st.(visiting := st.visiting + {name}, npmPackages := npm);
    var j := 0;
    while j < |node.registryDependencies|
      invariant 0 <= j <= |node.registryDependencies|
      invariant ResolveInv(g, root, s) && s.visiting == st.visiting + {name}
      invariant st.installOrder <= s.installOrder && st.npmPackages <= s.npmPackages
      invariant st.visited <= s.visited && st.circular <= s.circular && st.missing <= s.missing
      invariant ChildrenHandled(g, s, name, node.registryDependencies, j)
    {
      var dep := node.registryDependencies[j];
      if !IsUrl(dep) {
        var depName := if StartsWith(dep, "@") then dep else dep;
        ChildCallPre(g, root, name, path, st, s, depName);
        ghost var before := s;
        s := VisitResolve(g, root, depName, path + [name], s);
        ChildStep(g, name, node.registryDependencies, j, path, before, s);
      } else {
        ChildSkip(g, s, name, node.registryDependencies, j);
      }
      j := j + 1;
    }
    FinishStep(g, root, name, path, st, s);
    st' := s.(visiting := s.visiting - {name}, visited := s.visited + {name},
              installOrder := s.installOrder + [name]);
  }

  /** What `resolve(root)` promises about its result. */
  ghost predicate ResolveSpec(g: Graph, root: string, r: DependencyResolution) {
    var o := r.installOrder;
    // every reachable item exactly once, and nothing else
    && Distinct(o)
    && (forall x :: x in o <==> x in g && Reachable(g, root, x))
    && (root in g ==> |o| > 0 && o[|o| - 1] == root)
    // dependencies first, except along an edge that closed a reported cycle
    && (forall v, b :: v in o && Edge(g, v, b) && b in g ==>
          Before(o, b, v) || EndsWithEdge(OrEmpty(r.circularDependencies), v, b))
    // every reported cycle is a genuine one, found from root
    && (r.circularDependencies.Some? ==> r.circularDependencies.value != [])
    && (forall c :: c in OrEmpty(r.circularDependencies) ==> CycleWalk(g, c) && c[0] == root)
    // the npm packages of exactly the installed items, once each
    && NpmUnion(g, r.npmPackages, set x | x in o)
    // names without a node: root itself, or a local dependency of an installed item
    && (r.missingDependencies.Some? ==> r.missingDependencies.value != [])
    && Distinct(OrEmpty(r.missingDependencies))
    && (forall m :: m in OrEmpty(r.missingDependencies) <==>
          m !in g && (m == root || exists v :: v in o && Edge(g, v, m)))
  }

  function ResultOf(st: ResolveState): (r: DependencyResolution)
    ensures r.installOrder == st.installOrder && r.npmPackages == st.npmPackages
    ensures OrEmpty(r.circularDependencies) == st.circular
    ensures OrEmpty(r.missingDependencies) == st.missing
    ensures r.circularDependencies.Some? <==> st.circular != []
    ensures r.missingDependencies.Some? <==> st.missing != []
  {
    DependencyResolution(
      st.installOrder, st.npmPackages,
      if |st.circular| > 0 then Some(st.circular) else None,
      if |st.missing| > 0 then Some(st.missing) else None)
  }

  /** After the top-level visit nothing is left visiting, which turns the
      invariant into the specification. */
  lemma ResolveDone(g: Graph, root: string, st: ResolveState)
    requires ResolveInv(g, root, st) && st.visiting == {}
    requires root !in g ==> root in st.missing
    requires root in g ==> root in st.visited && st.installOrder[|st.installOrder| - 1] == root
    ensures ResolveSpec(g, root, ResultOf(st))
  {
    var r := ResultOf(st);
    assert (set x | x in st.installOrder) == st.visited;
    forall x | x in g && Reachable(g, root, x) ensures x in st.installOrder {
      var w :| IsWalk(g, w) && w[0] == root && w[|w| - 1] == x;
      if |w| > 1 {
        WalkInGraph(g, w, 0);
      }
      ClosedReach(g, st.visited, w);
    }
  }

  /** resolve reports a cycle exactly when a cycle can be walked from the item. */
  lemma ResolveReportsCycleIff(g: Graph, root: string, r: DependencyResolution)
    requires ResolveSpec(g, root, r)
    ensures r.circularDependencies.Some? <==> exists w :: CycleWalk(g, w) && w[0] == root
  {
    if r.circularDependencies.Some? {
      var c := r.circularDependencies.value[0];
      assert c in OrEmpty(r.circularDependencies);
    } else if w :| CycleWalk(g, w) && w[0] == root {
      WalkInGraph(g, w, 0);
      assert IsWalk(g, [root]);
      assert EdgesBackward(g, r.installOrder);
      NoCycleWhenEdgesBackward(g, r.installOrder, w);
    }
  }

  /** Without a cycle, the install order is a topological order of the
      reachable part: every dependency comes before its dependent. */
  lemma ResolveAcyclicIsTopological(g: Graph, root: string, r: DependencyResolution)
    requires ResolveSpec(g, root, r) && !HasCycle(g)
    ensures r.circularDependencies == None
    ensures forall v, b :: v in r.installOrder && Edge(g, v, b) && b in g ==>
      Before(r.installOrder, b, v)
  {
    ResolveReportsCycleIff(g, root, r);
  }
}
