/** The outcomes pinned by src/lib/__tests__/dependency-resolver.spec.ts,
    derived from the query specifications: every result the specification
    admits for these registries is the one the tests expect. */
module ResolverExamples {
  import opened Wrappers
  import opened Seqs
  import opened ResolverGraph
  import opened DependencyResolver
  import ResolveVisit
  import ResolveAllVisit
  import ClosureVisit

  function Node(name: string, deps: seq<string>, regDeps: seq<string>): DependencyNode {
    DependencyNode(name, "registry:lib", deps, regDeps, false)
  }

  function Item(name: string, deps: seq<string>, regDeps: seq<string>): RegistryItem {
    RegistryItem(name, "registry:lib", if deps == [] then None else Some(deps),
                 if regDeps == [] then None else Some(regDeps))
  }

  lemma GraphOfSnoc(items: seq<RegistryItem>, it: RegistryItem)
    ensures GraphOf(items + [it]) == GraphOf(items)[it.name := NodeOf(it)]
  {
    assert (items + [it])[..|items|] == items;
  }

  lemma GraphOfThree(a: RegistryItem, b: RegistryItem, c: RegistryItem)
    ensures GraphOf([a, b, c]) == map[a.name := NodeOf(a)][b.name := NodeOf(b)][c.name := NodeOf(c)]
  {
    GraphOfSnoc([], a);
    GraphOfSnoc([a], b);
    GraphOfSnoc([a, b], c);
    assert [a] == [] + [a] && [a, b] == [a] + [b] && [a, b, c] == [a, b] + [c];
  }

  /** A distinct sequence drawn from two names, ending with the second and
      holding the first, is exactly those two in that order. */
  lemma OrderOfTwo(o: seq<string>, x: string, y: string)
    requires Distinct(o) && x != y && x in o && |o| > 0 && o[|o| - 1] == y
    requires forall e :: e in o ==> e == x || e == y
    ensures o == [x, y]
  {
    DistinctCard(o);
    SubsetCard(Elems(o), {x, y});
    assert o[0] in o;
  }

  /** A distinct sequence drawn from three names that orders them x, y, z
      is exactly [x, y, z]. */
  lemma OrderOfThree(o: seq<string>, x: string, y: string, z: string)
    requires Distinct(o) && Before(o, x, y) && Before(o, y, z)
    requires forall e :: e in o ==> e == x || e == y || e == z
    ensures o == [x, y, z]
  {
    DistinctCard(o);
    SubsetCard(Elems(o), {x, y, z});
  }

  // src/lib/__tests__/dependency-resolver.spec.ts, lines 7-23: one item without dependencies
  lemma ResolveSingleItem(r: DependencyResolution)
    requires ResolveVisit.ResolveSpec(GraphOf([Item("button", [], [])]), "button", r)
    ensures r == DependencyResolution(["button"], [], None, None)
  {
    var g := GraphOf([Item("button", [], [])]);
    assert g == map["button" := Node("button", [], [])];
    DistinctCard(r.installOrder);
    SubsetCard(Elems(r.installOrder), {"button"});
    NoMemberEmpty(r.npmPackages);
    NoMemberEmpty(OrEmpty(r.circularDependencies));
    NoMemberEmpty(OrEmpty(r.missingDependencies));
  }

  /** A requested item without a node yields nothing but itself as missing. */
  lemma ResolveUnknownItem(g: Graph, root: string, r: DependencyResolution)
    requires ResolveVisit.ResolveSpec(g, root, r) && root !in g
    ensures r == DependencyResolution([], [], None, Some([root]))
  {
    forall w | IsWalk(g, w) && w[0] == root ensures |w| == 1 {
      WalkHead(g, w);
    }
    NoMemberEmpty(r.installOrder);
    NoMemberEmpty(r.npmPackages);
    CycleHeads(g, OrEmpty(r.circularDependencies));
    NoMemberEmpty(OrEmpty(r.circularDependencies));
    var m := OrEmpty(r.missingDependencies);
    assert root in m;
    DistinctCard(m);
    SubsetCard(Elems(m), {root});
    assert m == [root];
    assert r.installOrder == [];
    assert r.npmPackages == [];
    assert r.circularDependencies == None;
    assert r.missingDependencies == Some([root]);
  }

  /** Two names, the requested one depending on the other: dependency first. */
  lemma ResolveTwoChain(g: Graph, root: string, dep: string, r: DependencyResolution)
    requires ResolveVisit.ResolveSpec(g, root, r)
    requires g.Keys == {root, dep} && root != dep && Edge(g, root, dep)
    ensures r.installOrder == [dep, root]
  {
    var w := [root, dep];
    assert IsWalk(g, w[1..]);
    assert IsWalk(g, w) && w[0] == root && w[|w| - 1] == dep;
    OrderOfTwo(r.installOrder, dep, root);
  }

  function UtilsButton(): seq<RegistryItem> {
    [Item("utils", [], []), Item("button", [], ["utils"])]
  }

  lemma UtilsButtonGraph()
    ensures GraphOf(UtilsButton()) ==
      map["utils" := Node("utils", [], []), "button" := Node("button", [], ["utils"])]
  {
    assert UtilsButton()[..1] == [Item("utils", [], [])];
  }

  // src/lib/__tests__/dependency-resolver.spec.ts, lines 42-61: a dependency is installed before its dependent
  lemma ResolveWithDependency(r: DependencyResolution)
    requires ResolveVisit.ResolveSpec(GraphOf(UtilsButton()), "button", r)
    ensures r.installOrder == ["utils", "button"]
  {
    UtilsButtonGraph();
    ResolveTwoChain(GraphOf(UtilsButton()), "button", "utils", r);
  }

  /** z depends on y, y on x, and there is no other local edge between nodes. */
  ghost predicate Chain3(g: Graph, x: string, y: string, z: string) {
    && x != y && y != z && x != z && g.Keys == {x, y, z}
    && Edge(g, z, y) && Edge(g, y, x)
    && forall v, b :: Edge(g, v, b) && b in g ==> (v == y && b == x) || (v == z && b == y)
  }

  lemma Chain3Acyclic(g: Graph, x: string, y: string, z: string)
    requires Chain3(g, x, y, z)
    ensures !HasCycle(g)
  {
    var o := [x, y, z];
    assert Before(o, x, y) && Before(o, y, z);
    assert EdgesBackward(g, o);
    if w :| CycleWalk(g, w) {
      WalkInGraph(g, w, 0);
      NoCycleWhenEdgesBackward(g, o, w);
    }
  }

  /** Resolving the top of a chain installs it bottom-up. */
  lemma ResolveChain3(g: Graph, x: string, y: string, z: string, r: DependencyResolution)
    requires ResolveVisit.ResolveSpec(g, z, r) && Chain3(g, x, y, z)
    ensures r.installOrder == [x, y, z]
  {
    Chain3Acyclic(g, x, y, z);
    ResolveVisit.ResolveAcyclicIsTopological(g, z, r);
    var w := [z, y, x];
    assert IsWalk(g, w[2..]) && IsWalk(g, w[1..]);
    assert IsWalk(g, w) && w[0] == z && w[|w| - 1] == x;
    assert IsWalk(g, w[..2]) && w[..2][0] == z && w[..2][1] == y;
    OrderOfThree(r.installOrder, x, y, z);
  }

  /** resolveAll over a chain installs it bottom-up, whatever the key order. */
  lemma ResolveAllChain3(g: Graph, x: string, y: string, z: string, r: DependencyResolution)
    requires ResolveAllVisit.ResolveAllSpec(g, r) && Chain3(g, x, y, z)
    ensures r.installOrder == [x, y, z]
  {
    Chain3Acyclic(g, x, y, z);
    ResolveAllVisit.ResolveAllReportsCycles(g, r);
    OrderOfThree(r.installOrder, x, y, z);
  }

  function UtilsApiAuth(): seq<RegistryItem> {
    [Item("utils", [], []), Item("api-client", [], ["utils"]), Item("auth-service", [], ["api-client"])]
  }

  lemma UtilsApiAuthChain()
    ensures Chain3(GraphOf(UtilsApiAuth()), "utils", "api-client", "auth-service")
  {
    var items := UtilsApiAuth();
    GraphOfThree(items[0], items[1], items[2]);
    var g := GraphOf(items);
    assert g == map["utils" := Node("utils", [], []), "api-client" := Node("api-client", [], ["utils"]),
                    "auth-service" := Node("auth-service", [], ["api-client"])];
    NotUrl("utils");
    NotUrl("api-client");
    assert g.Keys == {"utils", "api-client", "auth-service"};
  }

  // src/lib/__tests__/dependency-resolver.spec.ts, lines 65-90: nested dependencies
  lemma ResolveNested(r: DependencyResolution)
    requires ResolveVisit.ResolveSpec(GraphOf(UtilsApiAuth()), "auth-service", r)
    ensures r.installOrder == ["utils", "api-client", "auth-service"]
  {
    UtilsApiAuthChain();
    ResolveChain3(GraphOf(UtilsApiAuth()), "utils", "api-client", "auth-service", r);
  }

  // src/lib/__tests__/dependency-resolver.spec.ts, lines 225-252: transitive dependencies
  lemma AllDependenciesNested(deps: seq<string>)
    requires ClosureVisit.ClosureSpec(GraphOf(UtilsApiAuth()), "auth-service", deps)
    ensures "api-client" in deps && "utils" in deps
  {
    UtilsApiAuthChain();
    var g := GraphOf(UtilsApiAuth());
    var w := ["auth-service", "api-client", "utils"];
    assert IsWalk(g, w[2..]) && IsWalk(g, w[1..]) && IsWalk(g, w);
    assert IsWalk(g, w[..2]) && w[..2][1] == "api-client";
  }

  function UtilsButtonForm(): seq<RegistryItem> {
    [Item("utils", [], []), Item("button", [], ["utils"]), Item("form", [], ["button"])]
  }

  // src/lib/__tests__/dependency-resolver.spec.ts, lines 196-222: resolveAll in dependency order
  lemma ResolveAllInOrder(r: DependencyResolution)
    requires ResolveAllVisit.ResolveAllSpec(GraphOf(UtilsButtonForm()), r)
    ensures r.installOrder == ["utils", "button", "form"]
  {
    var items := UtilsButtonForm();
    GraphOfThree(items[0], items[1], items[2]);
    var g := GraphOf(items);
    assert g == map["utils" := Node("utils", [], []), "button" := Node("button", [], ["utils"]),
                    "form" := Node("form", [], ["button"])];
    ResolveAllChain3(g, "utils", "button", "form", r);
  }

  function UtilsButtonFormFan(): seq<RegistryItem> {
    [Item("utils", [], []), Item("button", [], []), Item("form", [], ["button", "utils"])]
  }

  /** The requested item comes after each of its existing dependencies. */
  lemma ResolveAfterEachDependency(g: Graph, root: string, a: string, r: DependencyResolution)
    requires ResolveVisit.ResolveSpec(g, root, r)
    requires root in g && a in g && a != root && Edge(g, root, a)
    ensures root in r.installOrder && a in r.installOrder
    ensures IndexOf(r.installOrder, root) > IndexOf(r.installOrder, a)
  {
    var w := [root, a];
    assert IsWalk(g, w[1..]) && IsWalk(g, w) && w[|w| - 1] == a;
    BeforeLastElement(r.installOrder, a);
  }

  // src/lib/__tests__/dependency-resolver.spec.ts, lines 92-124: several dependencies, all before the dependent
  lemma ResolveMultiple(r: DependencyResolution)
    requires ResolveVisit.ResolveSpec(GraphOf(UtilsButtonFormFan()), "form", r)
    ensures "utils" in r.installOrder && "button" in r.installOrder && "form" in r.installOrder
    ensures IndexOf(r.installOrder, "form") > IndexOf(r.installOrder, "button")
    ensures IndexOf(r.installOrder, "form") > IndexOf(r.installOrder, "utils")
  {
    var items := UtilsButtonFormFan();
    GraphOfThree(items[0], items[1], items[2]);
    var g := GraphOf(items);
    assert g == map["utils" := Node("utils", [], []), "button" := Node("button", [], []),
                    "form" := Node("form", [], ["button", "utils"])];
    NotUrl("utils");
    NotUrl("button");
    ResolveAfterEachDependency(g, "form", "button", r);
    ResolveAfterEachDependency(g, "form", "utils", r);
  }

  function MutualPair(): seq<RegistryItem> {
    [Item("a", [], ["b"]), Item("b", [], ["a"])]
  }

  // src/lib/__tests__/dependency-resolver.spec.ts, lines 128-149: a mutual pair is reported as a cycle
  lemma ResolveMutualPair(r: DependencyResolution)
    requires ResolveVisit.ResolveSpec(GraphOf(MutualPair()), "a", r)
    ensures r.circularDependencies.Some? && |r.circularDependencies.value| > 0
  {
    var g := GraphOf(MutualPair());
    GraphOfSnoc([], MutualPair()[0]);
    GraphOfSnoc([MutualPair()[0]], MutualPair()[1]);
    assert MutualPair() == [] + [MutualPair()[0]] + [MutualPair()[1]];
    assert g == map["a" := Node("a", [], ["b"]), "b" := Node("b", [], ["a"])];
    NotUrl("a");
    NotUrl("b");
    var w := ["a", "b", "a"];
    assert IsWalk(g, w[2..]) && IsWalk(g, w[1..]) && IsWalk(g, w);
    assert w[|w| - 1] in w[..|w| - 1];
    ResolveVisit.ResolveReportsCycleIff(g, "a", r);
  }

  function Triangle(): seq<RegistryItem> {
    [Item("a", [], ["b"]), Item("b", [], ["c"]), Item("c", [], ["a"])]
  }

  // src/lib/__tests__/dependency-resolver.spec.ts, lines 151-175: a three-node cycle is detected
  lemma TriangleHasCycle()
    ensures HasCycle(GraphOf(Triangle()))
  {
    var items := Triangle();
    GraphOfThree(items[0], items[1], items[2]);
    var g := GraphOf(items);
    assert g == map["a" := Node("a", [], ["b"]), "b" := Node("b", [], ["c"]), "c" := Node("c", [], ["a"])];
    NotUrl("a");
    NotUrl("b");
    NotUrl("c");
    var w := ["a", "b", "c", "a"];
    assert IsWalk(g, w[3..]) && IsWalk(g, w[2..]) && IsWalk(g, w[1..]) && IsWalk(g, w);
    assert w[|w| - 1] in w[..|w| - 1];
    assert CycleWalk(g, w);
  }

  // src/lib/__tests__/dependency-resolver.spec.ts, lines 178-194: a dependency without a node is reported missing
  lemma ResolveReportsMissing(r: DependencyResolution)
    requires ResolveVisit.ResolveSpec(GraphOf([Item("button", [], ["utils"])]), "button", r)
    ensures r.missingDependencies.Some? && "utils" in r.missingDependencies.value
  {
    var g := GraphOf([Item("button", [], ["utils"])]);
    assert g == map["button" := Node("button", [], ["utils"])];
    NotUrl("utils");
    assert Edge(g, "button", "utils");
  }

  // src/lib/__tests__/dependency-resolver.spec.ts, lines 25-40: the packages of the item are collected
  lemma ResolveCollectsPackages(r: DependencyResolution)
    requires ResolveVisit.ResolveSpec(GraphOf([Item("api-client", ["axios", "zod"], [])]), "api-client", r)
    ensures "axios" in r.npmPackages && "zod" in r.npmPackages
  {
    var g := GraphOf([Item("api-client", ["axios", "zod"], [])]);
    assert g == map["api-client" := Node("api-client", ["axios", "zod"], [])];
    assert "api-client" in r.installOrder;
  }
}
