/** src/lib/dependency-resolver.ts: the DependencyResolver class. The
    constructor fills the node map in a loop; each query runs a recursive
    depth-first closure, modelled in its own module. */
module DependencyResolver {
  import opened Wrappers
  import opened Seqs
  import opened Text
  import opened ResolverGraph
  import ResolveVisit
  import ResolveAllVisit
  import ClosureVisit
  import CycleVisit

  // ---------------------------------------------------------------------
  // Construction

  /** The node built for one item: absent arrays become empty ones. */
  function NodeOf(item: RegistryItem): (n: DependencyNode)
    ensures n.name == item.name && !n.resolved
    ensures n.dependencies == OrEmpty(item.dependencies)
    ensures n.registryDependencies == OrEmpty(item.registryDependencies)
  {
    DependencyNode(item.name, item.kind, OrEmpty(item.dependencies),
                   OrEmpty(item.registryDependencies), false)
  }

  /** The name -> item map after `set` for every item in turn. */
  function RegistryOf(items: seq<RegistryItem>): map<string, RegistryItem> {
    if items == [] then map[]
    else RegistryOf(items[..|items| - 1])[items[|items| - 1].name := items[|items| - 1]]
  }

  /** The name -> node map after `set` for every item in turn. */
  function GraphOf(items: seq<RegistryItem>): Graph {
    if items == [] then map[]
    else GraphOf(items[..|items| - 1])[items[|items| - 1].name := NodeOf(items[|items| - 1])]
  }

  /** The key iteration order of that map: a key keeps the position of its
      first insertion even when a later item overwrites its value. */
  function KeyOrder(items: seq<RegistryItem>): seq<string> {
    if items == [] then []
    else
      var ks := KeyOrder(items[..|items| - 1]);
      if items[|items| - 1].name in ks then ks else ks + [items[|items| - 1].name]
  }

  function Names(items: seq<RegistryItem>): (ns: seq<string>)
    ensures |ns| == |items| && forall i :: 0 <= i < |items| ==> ns[i] == items[i].name
  {
    if items == [] then [] else Names(items[..|items| - 1]) + [items[|items| - 1].name]
  }

  /** Duplicate names: the map holds exactly the names of the items, and
      each name maps to the node of the LAST item carrying it. */
  lemma {:induction false} GraphOfLastWins(items: seq<RegistryItem>, i: nat)
    requires i < |items|
    requires forall j :: i < j < |items| ==> items[j].name != items[i].name
    ensures items[i].name in GraphOf(items) && GraphOf(items)[items[i].name] == NodeOf(items[i])
  {
    if i < |items| - 1 {
      GraphOfLastWins(items[..|items| - 1], i);
    }
  }

  lemma {:induction false} GraphOfKeys(items: seq<RegistryItem>)
    ensures forall n :: n in GraphOf(items) <==> n in Names(items)
  {
    if items != [] {
      GraphOfKeys(items[..|items| - 1]);
    }
  }

  lemma {:induction false} RegistryOfAgrees(items: seq<RegistryItem>)
    ensures RegistryOf(items).Keys == GraphOf(items).Keys
    ensures forall n :: n in GraphOf(items) ==> GraphOf(items)[n] == NodeOf(RegistryOf(items)[n])
  {
    if items != [] {
      RegistryOfAgrees(items[..|items| - 1]);
    }
  }

  /** The key order lists every name once, in the order of first occurrence. */
  lemma KeyOrderFirstOccurrence(items: seq<RegistryItem>)
    ensures Distinct(KeyOrder(items))
    ensures forall n :: n in KeyOrder(items) <==> n in GraphOf(items)
    ensures forall n :: n in KeyOrder(items) <==> n in Names(items)
    ensures forall a, b :: a in KeyOrder(items) && b in KeyOrder(items) ==>
      (IndexOf(KeyOrder(items), a) < IndexOf(KeyOrder(items), b) <==>
       IndexOf(Names(items), a) < IndexOf(Names(items), b))
  {
    GraphOfKeys(items);
    KeyOrderMembers(items);
    KeyOrderRanks(items);
  }

  /** Every name once, and no other. */
  lemma {:induction false} KeyOrderMembers(items: seq<RegistryItem>)
    ensures Distinct(KeyOrder(items))
    ensures forall n :: n in KeyOrder(items) <==> n in Names(items)
  {
    if items != [] {
      KeyOrderMembers(items[..|items| - 1]);
      assert Names(items) == Names(items[..|items| - 1]) + [items[|items| - 1].name];
    }
  }

  /** Two names come in the key order as they first come among the items. */
  lemma {:induction false} KeyOrderRanks(items: seq<RegistryItem>)
    ensures forall n :: n in KeyOrder(items) <==> n in Names(items)
    ensures forall a, b :: a in KeyOrder(items) && b in KeyOrder(items) ==>
      (IndexOf(KeyOrder(items), a) < IndexOf(KeyOrder(items), b) <==>
       IndexOf(Names(items), a) < IndexOf(Names(items), b))
  {
    KeyOrderMembers(items);
    if items != [] {
      var init := items[..|items| - 1];
      var x := items[|items| - 1].name;
      KeyOrderRanks(init);
      assert Names(items) == Names(init) + [x];
      SameOrderAppend(KeyOrder(init), Names(init), x);
    }
  }

  /** Appending a name to the items, and to the key order when it is new,
      keeps the two orders in step. */
  lemma SameOrderAppend(ks: seq<string>, ns: seq<string>, x: string)
    requires forall n :: n in ks <==> n in ns
    requires forall a, b :: a in ks && b in ks ==> (IndexOf(ks, a) < IndexOf(ks, b) <==> IndexOf(ns, a) < IndexOf(ns, b))
    ensures var ks2 := if x in ks then ks else ks + [x];
      forall a, b :: a in ks2 && b in ks2 ==>
        a in ns + [x] && b in ns + [x] && (IndexOf(ks2, a) < IndexOf(ks2, b) <==> IndexOf(ns + [x], a) < IndexOf(ns + [x], b))
  {
    var ks2 := if x in ks then ks else ks + [x];
    forall a | a in ks ensures IndexOf(ns + [x], a) == IndexOf(ns, a) && IndexOf(ks2, a) == IndexOf(ks, a) {
      IndexOfAppend(ns, [x], a);
      IndexOfAppend(ks, if x in ks then [] else [x], a);
      assert ks + [] == ks;
    }
    if x !in ks {
      forall a | a in ks ensures Before(ks + [x], a, x) && Before(ns + [x], a, x) {
        BeforeLast(ks, a, x);
        BeforeLast(ns, a, x);
      }
    }
  }

  /** The resolver: the node map and the item map keyed by name, with the
      insertion order of the node map's keys. */
  class Resolver {
    const nodes: Graph
    const registry: map<string, RegistryItem>
    const keys: seq<string>

    ghost predicate Valid() {
      Distinct(keys) && forall n :: n in keys <==> n in nodes
    }

    constructor(items: seq<RegistryItem>)
      ensures nodes == GraphOf(items) && registry == RegistryOf(items) && keys == KeyOrder(items)
      ensures Valid()
    {
      var reg: map<string, RegistryItem> := map[];
      var i := 0;
      while i < |items|
        invariant 0 <= i <= |items| && reg == RegistryOf(items[..i])
      {
        assert items[..i + 1][..i] == items[..i];
        reg := reg[items[i].name := items[i]];
        i := i + 1;
      }
      var m: Graph := map[];
      var ks: seq<string> := [];
      i := 0;
      while i < |items|
        invariant 0 <= i <= |items| && m == GraphOf(items[..i]) && ks == KeyOrder(items[..i])
      {
        assert items[..i + 1][..i] == items[..i];
        var item := items[i];
        if item.name !in ks {
          ks := ks + [item.name];
        }
        m := m[item.name := NodeOf(item)];
        i := i + 1;
      }
      assert items[..i] == items;
      KeyOrderFirstOccurrence(items);
      nodes := m;
      registry := reg;
      keys := ks;
    }

    /** Install order, npm packages, cycles and missing names for one item. */
    method Resolve(itemName: string) returns (r: DependencyResolution)
      ensures ResolveVisit.ResolveSpec(nodes, itemName, r)
    {
      var st := ResolveVisit.ResolveState([], [], {}, {}, [], []);
      st := ResolveVisit.VisitResolve(nodes, itemName, itemName, [], st);
      ResolveVisit.ResolveDone(nodes, itemName, st);
      r := ResolveVisit.ResultOf(st);
    }

    /** Every node, visited from each key in key order. */
    method ResolveAll() returns (r: DependencyResolution)
      requires Valid()
      ensures ResolveAllVisit.ResolveAllSpec(nodes, r)
    {
      var st := ResolveAllVisit.AllState([], [], {}, []);
      var i := 0;
      while i < |keys|
        invariant 0 <= i <= |keys|
        invariant ResolveAllVisit.AllInv(nodes, st, [])
        invariant forall k :: 0 <= k < i ==> keys[k] in st.visited
      {
        st := ResolveAllVisit.VisitAll(nodes, keys[i], [], st);
        i := i + 1;
      }
      assert st.visited == nodes.Keys by {
        forall n | n in nodes ensures n in st.visited {
          var k :| 0 <= k < |keys| && keys[k] == n;
        }
      }
      assert st.visited + ResolveAllVisit.PathSet([]) == nodes.Keys;
      r := DependencyResolution(st.installOrder, st.npmPackages,
                                if |st.circular| > 0 then Some(st.circular) else None, None);
    }

    /** The names reachable from an item by one or more local edges. */
    method GetAllDependencies(itemName: string) returns (deps: seq<string>)
      ensures ClosureVisit.ClosureSpec(nodes, itemName, deps)
    {
      var visited;
      visited, deps := ClosureVisit.VisitClosure(nodes, itemName, itemName, {}, [], {});
      ClosureVisit.ClosureDone(nodes, itemName, visited, deps);
    }

    /** Whether the local-edge graph among existing nodes has a cycle. */
    method HasCircularDependencies() returns (b: bool)
      requires Valid()
      ensures b <==> HasCycle(nodes)
    {
      var visited: set<string> := {};
      var visiting: set<string> := {};
      ghost var fin: seq<string> := [];
      var i := 0;
      while i < |keys|
        invariant 0 <= i <= |keys|
        invariant CycleVisit.CycleInv(nodes, visited, visiting, fin) && visiting == {}
        invariant forall k :: 0 <= k < i ==> keys[k] in visited
      {
        var found;
        found, visited, visiting, fin := CycleVisit.HasCycleFrom(nodes, keys[i], [], visited, visiting, fin);
        if found {
          return true;
        }
        i := i + 1;
      }
      forall n | n in nodes ensures n in visited {
        var k :| 0 <= k < |keys| && keys[k] == n;
      }
      CycleVisit.NoCycleWhenAllFinished(nodes, visited, fin);
      return false;
    }
  }
}
