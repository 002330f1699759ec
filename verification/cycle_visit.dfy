/** The `hasCircularDependencies` query of src/lib/dependency-resolver.ts:
    the recursive `hasCycle` closure over local visited/visiting sets, which
    answers true as soon as it meets a name that is still being visited. */
module CycleVisit {
  import opened Seqs
  import opened Text
  import opened ResolverGraph

  /** Every name hasCycle can be called on: a key or a listed registry dependency. */
  function CallNames(g: Graph): set<string> {
    g.Keys + (set v, x | v in g && x in g[v].registryDependencies :: x)
  }

  /** fin lists the visited names in the order they were finished; every
      edge out of a finished name leads to a name finished before it. */
  ghost predicate CycleInv(g: Graph, visited: set<string>, visiting: set<string>, fin: seq<string>) {
    && visited + visiting <= CallNames(g) && visited !! visiting
    && Distinct(fin) && (forall x :: x in fin <==> x in visited)
    && (forall v, b :: v in visited && Edge(g, v, b) ==> b in visited && Before(fin, b, v))
  }

  ghost predicate ChildrenVisited(deps: seq<string>, j: nat, visited: set<string>)
    requires j <= |deps|
  {
    forall k :: 0 <= k < j && !IsUrl(deps[k]) ==> deps[k] in visited
  }

  lemma ChildrenVisitedGrow(deps: seq<string>, j: nat, visited: set<string>, visited': set<string>)
    requires j < |deps| && ChildrenVisited(deps, j, visited) && visited <= visited'
    requires !IsUrl(deps[j]) ==> deps[j] in visited'
    ensures ChildrenVisited(deps, j + 1, visited')
  {
  }

  lemma StartStep(g: Graph, name: string, visited: set<string>, visiting: set<string>,
                  fin: seq<string>)
    requires CycleInv(g, visited, visiting, fin) && name in CallNames(g) && name !in visited
    ensures CycleInv(g, visited, visiting + {name}, fin)
  {
  }

  lemma FoundCycle(g: Graph, name: string, path: seq<string>)
    requires name in path && IsWalk(g, path + [name])
    ensures HasCycle(g)
  {
    var w := path + [name];
    assert w[..|w| - 1] == path;
    assert CycleWalk(g, w);
  }

  lemma CallPre(g: Graph, name: string, path: seq<string>, visited0: set<string>,
                visiting0: set<string>, visited: set<string>, dep: string)
    requires IsWalk(g, path + [name]) && Edge(g, name, dep)
    requires visited0 <= visited && name !in visited0 + visiting0 && name in CallNames(g)
    requires visited !! visiting0 + {name}
    ensures IsWalk(g, path + [name] + [dep]) && dep in CallNames(g)
    ensures |CallNames(g) - visited - (visiting0 + {name})| < |CallNames(g) - visited0 - visiting0|
  {
    WalkAppend(g, path + [name], dep);
    SubsetSmaller(CallNames(g) - visited - (visiting0 + {name}), CallNames(g) - visited0 - visiting0, name);
  }

  lemma FinishStep(g: Graph, name: string, visited: set<string>, visiting: set<string>,
                   fin: seq<string>)
    requires CycleInv(g, visited, visiting + {name}, fin) && name !in visiting
    requires name in g ==> ChildrenVisited(g[name].registryDependencies,
                                           |g[name].registryDependencies|, visited)
    ensures CycleInv(g, visited + {name}, visiting, fin + [name])
  {
    DistinctAppend(fin, name);
    forall v, b | v in visited + {name} && Edge(g, v, b)
      ensures b in visited + {name} && Before(fin + [name], b, v)
    {
      if v == name {
        var k :| 0 <= k < |g[name].registryDependencies| && g[name].registryDependencies[k] == b;
        BeforeLast(fin, b, name);
      } else {
        BeforeAppend(fin, [name], b, v);
      }
    }
  }

  method HasCycleFrom(g: Graph, name: string, ghost path: seq<string>, visited: set<string>,
                      visiting: set<string>, ghost fin: seq<string>)
    returns (found: bool, visited': set<string>, visiting': set<string>, ghost fin': seq<string>)
    requires CycleInv(g, visited, visiting, fin) && name in CallNames(g)
    requires forall x :: x in visiting <==> x in path
    requires IsWalk(g, path + [name])
    ensures found ==> HasCycle(g)
    ensures !found ==> CycleInv(g, visited', visiting', fin') && visiting' == visiting &&
                       visited <= visited' && name in visited'
    decreases |CallNames(g) - visited - visiting|
  {
    if name in visiting {
      FoundCycle(g, name, path);
      return true, visited, visiting, fin;
    }
    if name in visited {
      return false, visited, visiting, fin;
    }
    StartStep(g, name, visited, visiting, fin);
    visited', visiting', fin' := visited, visiting + {name}, fin;
    if name in g {
      var deps := g[name].registryDependencies;
      var j := 0;
      while j < |deps|
        invariant 0 <= j <= |deps|
        invariant CycleInv(g, visited', visiting', fin') && visiting' == visiting + {name}
        invariant visited <= visited' && ChildrenVisited(deps, j, visited')
      {
        var dep := deps[j];
        if !StartsWith(dep, "http://") && !StartsWith(dep, "https://") {
          CallPre(g, name, path, visited, visiting, visited', dep);
          ghost var before := visited';
          var sub;
          sub, visited', visiting', fin' := HasCycleFrom(g, dep, path + [name], visited', visiting', fin');
          if sub {
            return true, visited', visiting', fin';
          }
          ChildrenVisitedGrow(deps, j, before, visited');
        } else {
          ChildrenVisitedGrow(deps, j, visited', visited');
        }
        j := j + 1;
      }
    }
    FinishStep(g, name, visited', visiting, fin');
    found, visited', visiting', fin' := false, visited' + {name}, visiting' - {name}, fin' + [name];
  }

  /** Once every key is finished without meeting a visiting name, the finish
      order puts every edge backwards, so there is no cycle. */
  lemma NoCycleWhenAllFinished(g: Graph, visited: set<string>, fin: seq<string>)
    requires CycleInv(g, visited, {}, fin) && g.Keys <= visited
    ensures !HasCycle(g)
  {
    if HasCycle(g) {
      var w :| CycleWalk(g, w);
      WalkInGraph(g, w, 0);
      NoCycleWhenEdgesBackward(g, fin, w);
    }
  }
}
