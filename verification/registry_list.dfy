/** The `list` command of cli/src/commands/list.ts: the registry's items,
    kept by category when one is given, grouped by type in first-seen
    order, and counted. The fetch is a parameter (None for a failed fetch)
    and printing is left out: the listing is the groups in display order
    and the total. */
module RegistryList {
  import opened Wrappers
  import opened Seqs
  import opened Text

  /** The fields of a registry item the command reads. */
  datatype ListedItem = ListedItem(name: string, itemType: string, categories: Option<seq<string>>, description: Option<string>)

  datatype Registry = Registry(items: Option<seq<ListedItem>>)

  /** What the command shows: nothing after a failed fetch, or the type
      keys in the order of the grouping Map, the items of each, and the
      total. */
  datatype Listing = FetchFailed | Listed(types: seq<string>, grouped: map<string, seq<ListedItem>>, total: nat)

  const TypePrefix := "registry:"

  /** `item.categories?.includes(category)`. */
  predicate InCategory(item: ListedItem, category: string) {
    item.categories.Some? && category in item.categories.value
  }

  /** The items with the category, in their original order. */
  function FilterCategory(items: seq<ListedItem>, category: string): (kept: seq<ListedItem>)
    ensures |kept| <= |items|
    ensures forall x :: x in kept <==> x in items && InCategory(x, category)
  {
    if |items| == 0 then []
    else (if InCategory(items[0], category) then [items[0]] else []) + FilterCategory(items[1..], category)
  }

  /** Filtering works piece by piece, so it keeps the relative order. */
  lemma {:induction false} FilterAppend(a: seq<ListedItem>, b: seq<ListedItem>, category: string)
    ensures FilterCategory(a + b, category) == FilterCategory(a, category) + FilterCategory(b, category)
    decreases |a|
  {
    if |a| == 0 {
      assert a + b == b;
    } else {
      assert (a + b)[1..] == a[1..] + b;
      FilterAppend(a[1..], b, category);
    }
  }

  /** The items the command lists: all of them, or those of a non-empty
      category option. */
  function Kept(items: seq<ListedItem>, category: Option<string>): seq<ListedItem> {
    if category.Some? && category.value != "" then FilterCategory(items, category.value) else items
  }

  /** The group key: the type with its first `registry:` removed. */
  function TypeKey(item: ListedItem): string {
    ReplaceFirst(item.itemType, TypePrefix, "")
  }

  /** The group keys in the order their first item appears. */
  function TypeOrder(items: seq<ListedItem>): (types: seq<string>)
    decreases |items|
  {
    if |items| == 0 then []
    else
      var types := TypeOrder(items[..|items| - 1]);
      var t := TypeKey(items[|items| - 1]);
      if t in types then types else types + [t]
  }

  /** The items with key t, in their original order. */
  function OfType(items: seq<ListedItem>, t: string): seq<ListedItem>
    decreases |items|
  {
    if |items| == 0 then []
    else
      var last := items[|items| - 1];
      OfType(items[..|items| - 1], t) + (if TypeKey(last) == t then [last] else [])
  }

  /** One more item: its key joins the order if new, and its group gets
      it at the end. */
  lemma GroupStep(items: seq<ListedItem>, i: nat, t: string)
    requires i < |items|
    ensures var p := items[..i];
      TypeOrder(items[..i + 1]) ==
        (if TypeKey(items[i]) in TypeOrder(p) then TypeOrder(p) else TypeOrder(p) + [TypeKey(items[i])]) &&
      OfType(items[..i + 1], t) == OfType(p, t) + (if TypeKey(items[i]) == t then [items[i]] else [])
  {
    assert items[..i + 1][..i] == items[..i];
  }

  /** Every item's key is in the order, and every key in it has an item. */
  lemma {:induction false} TypeOrderKeys(items: seq<ListedItem>)
    ensures Distinct(TypeOrder(items))
    ensures forall j :: 0 <= j < |items| ==> TypeKey(items[j]) in TypeOrder(items)
    ensures forall t :: t !in TypeOrder(items) ==> OfType(items, t) == []
    decreases |items|
  {
    if |items| > 0 {
      var p := items[..|items| - 1];
      TypeOrderKeys(p);
      var types := TypeOrder(p);
      var k := TypeKey(items[|items| - 1]);
      if k !in types {
        DistinctAppend(types, k);
      }
      forall j | 0 <= j < |items| ensures TypeKey(items[j]) in TypeOrder(items) {
        if j < |items| - 1 {
          assert items[j] == p[j];
        }
      }
    }
  }

  /** An item is in the group of t exactly when it is a listed item with
      key t: each item lands in one group, the one of its own key. */
  lemma {:induction false} OfTypeMembers(items: seq<ListedItem>, t: string)
    ensures forall x :: x in OfType(items, t) <==> x in items && TypeKey(x) == t
    decreases |items|
  {
    if |items| > 0 {
      var p := items[..|items| - 1];
      OfTypeMembers(p, t);
      assert items == p + [items[|items| - 1]];
    }
  }

  /** Grouping works piece by piece, so within a group the items keep
      their relative order. */
  lemma {:induction false} OfTypeAppend(a: seq<ListedItem>, b: seq<ListedItem>, t: string)
    ensures OfType(a + b, t) == OfType(a, t) + OfType(b, t)
    decreases |b|
  {
    if |b| == 0 {
      assert a + b == a;
    } else {
      var b' := b[..|b| - 1];
      assert (a + b)[..|a + b| - 1] == a + b';
      OfTypeAppend(a, b', t);
    }
  }

  /** The total size of the groups of types. */
  function GroupSizes(types: seq<string>, items: seq<ListedItem>): nat
    decreases |types|
  {
    if |types| == 0 then 0
    else GroupSizes(types[..|types| - 1], items) + |OfType(items, types[|types| - 1])|
  }

  lemma {:induction false} GroupSizesPush(types: seq<string>, p: seq<ListedItem>, x: ListedItem)
    requires Distinct(types)
    ensures GroupSizes(types, p + [x]) == GroupSizes(types, p) + (if TypeKey(x) in types then 1 else 0)
    decreases |types|
  {
    assert (p + [x])[..|p|] == p;
    if |types| > 0 {
      var init := types[..|types| - 1];
      assert types == init + [types[|types| - 1]];
      GroupSizesPush(init, p, x);
    }
  }

  /** The groups partition the items: their sizes add up to the number of
      items, so no item is lost or shown twice. */
  lemma {:induction false} GroupsPartition(items: seq<ListedItem>)
    ensures GroupSizes(TypeOrder(items), items) == |items|
    decreases |items|
  {
    if |items| > 0 {
      var p := items[..|items| - 1];
      var x := items[|items| - 1];
      var k := TypeKey(x);
      assert items == p + [x];
      GroupsPartition(p);
      TypeOrderKeys(p);
      GroupSizesPush(TypeOrder(p), p, x);
      if k !in TypeOrder(p) {
        var types := TypeOrder(p) + [k];
        assert types[..|types| - 1] == TypeOrder(p);
        assert OfType(items, k) == OfType(p, k) + [x];
      }
    }
  }

  /** The grouping loop: a Map from key to items, filled with get, set and
      push; `types` is the Map's insertion order. */
  method GroupByType(items: seq<ListedItem>) returns (types: seq<string>, grouped: map<string, seq<ListedItem>>)
    ensures types == TypeOrder(items)
    ensures forall t :: t in grouped <==> t in types
    ensures forall t :: t in grouped ==> grouped[t] == OfType(items, t)
  {
    types := [];
    grouped := map[];
    for i := 0 to |items|
      invariant types == TypeOrder(items[..i])
      invariant forall t :: t in grouped <==> t in types
      invariant forall t :: t in grouped ==> grouped[t] == OfType(items[..i], t)
    {
      var item := items[i];
      var t := TypeKey(item);
      TypeOrderKeys(items[..i]);
      if t !in grouped {
        grouped := grouped[t := []];
        types := types + [t];
      }
      grouped := grouped[t := grouped[t] + [item]];
      forall u ensures u in grouped ==> grouped[u] == OfType(items[..i + 1], u) {
        GroupStep(items, i, u);
      }
      GroupStep(items, i, t);
    }
    assert items[..|items|] == items;
  }

  /** The list action: stop when the registry or its items are missing
      (an empty array still lists), otherwise group the kept items. */
  method List(registry: Option<Registry>, category: Option<string>) returns (listing: Listing)
    ensures listing.FetchFailed? <==> registry.None? || registry.value.items.None?
    ensures listing.Listed? ==>
      var kept := Kept(registry.value.items.value, category);
      listing.types == TypeOrder(kept) &&
      (forall t :: t in listing.grouped <==> t in listing.types) &&
      (forall t :: t in listing.grouped ==> listing.grouped[t] == OfType(kept, t)) &&
      listing.total == |kept|
  {
    if registry.None? || registry.value.items.None? {
      return FetchFailed;
    }
    var items := registry.value.items.value;
    if category.Some? && category.value != "" {
      items := FilterCategory(items, category.value);
    }
    var types, grouped := GroupByType(items);
    return Listed(types, grouped, |items|);
  }

  /** The total is the sum of the group sizes shown, and with a category
      exactly the items of that category are counted. */
  lemma ListingTotals(registry: Option<Registry>, category: string, listing: Listing)
    requires listing.Listed? && registry.Some? && registry.value.items.Some?
    requires var kept := Kept(registry.value.items.value, Some(category));
      listing.types == TypeOrder(kept) && listing.total == |kept|
    ensures listing.total == GroupSizes(listing.types, Kept(registry.value.items.value, Some(category)))
    ensures category != "" ==>
      forall x :: x in Kept(registry.value.items.value, Some(category)) <==>
        x in registry.value.items.value && InCategory(x, category)
  {
    GroupsPartition(Kept(registry.value.items.value, Some(category)));
  }
}
