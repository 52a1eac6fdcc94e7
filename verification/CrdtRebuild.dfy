/** Rebuilding an array state from a new array, and merging it with the state it came from. */
module CrdtRebuild {
  import opened Wrappers
  import opened Crdt
  import Stores

  /** The item an element with value `v` is matched to. */
  function FirstWith(items: seq<Item>, v: Json): Option<Item> {
    if items == [] then None
    else if items[0].v == v then Some(items[0])
    else FirstWith(items[1..], v)
  }

  /** The items of the new array: an element takes over the first item of its value, unless that
      nid is used up; otherwise it gets the next generated nid. */
  function NewItems(arr: seq<Json>, e: seq<Item>, used: set<string>, gen: seq<string>): seq<Item>
    requires |gen| >= |arr|
  {
    if arr == [] then []
    else
      var m := FirstWith(e, arr[0]);
      if m.Some? && m.value.nid !in used then
        [m.value] + NewItems(arr[1..], e, used + {m.value.nid}, gen)
      else
        [Item(gen[0], arr[0])] + NewItems(arr[1..], e, used + {gen[0]}, gen[1..])
  }

  function AddTombstones(tombs: seq<string>, items: seq<Item>): seq<string>
    decreases |items|
  {
    if items == [] then tombs
    else AddTombstones(if items[0].nid in tombs then tombs else tombs + [items[0].nid], items[1..])
  }

  lemma {:induction false} AddTombstonesAdds(tombs: seq<string>, items: seq<Item>)
    ensures forall n :: n in AddTombstones(tombs, items) <==> n in tombs || n in Nids(items)
    decreases |items|
  {
    if items != [] {
      NidsCons(items);
      AddTombstonesAdds(if items[0].nid in tombs then tombs else tombs + [items[0].nid], items[1..]);
    }
  }

  lemma NidsCons(items: seq<Item>)
    requires items != []
    ensures Nids(items) == {items[0].nid} + Nids(items[1..])
  {
    assert forall i :: i in items <==> i == items[0] || i in items[1..];
  }

  /** `buildRgaState(arr, existing, generateNid)`, the generated nids given in advance. */
  function Build(arr: seq<Json>, e: Rga, gen: seq<string>): Rga
    requires |gen| >= |arr|
  {
    var live := NewItems(arr, e.items, {}, gen);
    var extras := NewTo(Nids(live), e.items);
    Rga(live + extras, AddTombstones(e.tombstones, extras))
  }

  // ----- The loop ----------------------------------------------------------------------------------

  lemma {:induction false} FirstWithAppend(x: seq<Item>, y: seq<Item>, v: Json)
    ensures FirstWith(x + y, v) == if FirstWith(x, v).Some? then FirstWith(x, v) else FirstWith(y, v)
  {
    if x == [] {
      assert x + y == y;
    } else {
      assert (x + y)[1..] == x[1..] + y;
      FirstWithAppend(x[1..], y, v);
    }
  }

  method IndexByValue(items: seq<Item>) returns (byValue: map<Json, Item>)
    ensures forall v :: Stores.Lookup(byValue, v) == FirstWith(items, v)
  {
    byValue := map[];
    var i := 0;
    while i < |items|
      invariant 0 <= i <= |items|
      invariant forall v :: Stores.Lookup(byValue, v) == FirstWith(items[..i], v)
    {
      var item := items[i];
      assert items[..i + 1] == items[..i] + [item];
      ghost var before := byValue;
      if item.v !in byValue { byValue := byValue[item.v := item]; }
      forall v
        ensures Stores.Lookup(byValue, v) == FirstWith(items[..i + 1], v)
      {
        FirstWithAppend(items[..i], [item], v);
        assert [item][1..] == [];
        assert Stores.Lookup(before, v) == FirstWith(items[..i], v);
      }
      i := i + 1;
    }
    assert items[..i] == items;
  }

  lemma NewItemsStep(arr: seq<Json>, e: seq<Item>, used: set<string>, gen: seq<string>, i: nat, g: nat,
                     done: seq<Item>, item: Item, g': nat)
    requires |gen| >= |arr| && g <= i < |arr|
    requires var m := FirstWith(e, arr[i]);
      if m.Some? && m.value.nid !in used then item == m.value && g' == g else item == Item(gen[g], arr[i]) && g' == g + 1
    ensures done + NewItems(arr[i..], e, used, gen[g..]) ==
            (done + [item]) + NewItems(arr[i + 1..], e, used + {item.nid}, gen[g'..])
  {
    assert arr[i..][1..] == arr[i + 1..] && gen[g..][1..] == gen[g + 1..];
    assert arr[i..][0] == arr[i] && gen[g..][0] == gen[g];
    var rest := NewItems(arr[i + 1..], e, used + {item.nid}, gen[g'..]);
    assert done + ([item] + rest) == (done + [item]) + rest;
  }

  /** The loop over the array. */
  method MatchElements(arr: seq<Json>, e: seq<Item>, gen: seq<string>) returns (newItems: seq<Item>, usedNids: set<string>)
    requires |gen| >= |arr|
    ensures newItems == NewItems(arr, e, {}, gen) && usedNids == Nids(newItems)
  {
    var existingByValue := IndexByValue(e);
    newItems, usedNids := [], {};
    var i, generated := 0, 0;
    while i < |arr|
      invariant 0 <= generated <= i <= |arr|
      invariant usedNids == Nids(newItems)
      invariant NewItems(arr, e, {}, gen) == newItems + NewItems(arr[i..], e, usedNids, gen[generated..])
    {
      var el := arr[i];
      var m := Stores.Lookup(existingByValue, el);
      var item;
      ghost var was := generated;
      if m.Some? && m.value.nid !in usedNids {
        item := m.value;
      } else {
        item := Item(gen[generated], el);
        generated := generated + 1;
      }
      NewItemsStep(arr, e, usedNids, gen, i, was, newItems, item, generated);
      NidsSnoc(newItems, item);
      newItems, usedNids := newItems + [item], usedNids + {item.nid};
      i := i + 1;
    }
    assert newItems + [] == newItems;
  }

  /** The loop over the existing items has reached position `j`. */
  ghost predicate ExtrasReached(items: seq<Item>, used: set<string>, before: seq<string>, j: nat, extras: seq<Item>, tombs: seq<string>)
    requires j <= |items|
  {
    var all, rest := NewTo(used, items), NewTo(used, items[j..]);
    all == extras + rest && AddTombstones(before, all) == AddTombstones(tombs, rest)
  }

  lemma ExtrasStart(items: seq<Item>, used: set<string>, before: seq<string>)
    ensures ExtrasReached(items, used, before, 0, [], before)
  {
    assert items[0..] == items;
    var all := NewTo(used, items);
    assert [] + all == all;
  }

  lemma NewToStep(items: seq<Item>, used: set<string>, j: nat)
    requires j < |items|
    ensures NewTo(used, items[j..]) == (if items[j].nid in used then [] else [items[j]]) + NewTo(used, items[j + 1..])
  {
    assert items[j..][1..] == items[j + 1..] && items[j..][0] == items[j];
    var rest := NewTo(used, items[j + 1..]);
    assert [] + rest == rest;
  }

  lemma AddOneTombstone(tombs: seq<string>, item: Item, rest: seq<Item>)
    ensures AddTombstones(tombs, [item] + rest) == AddTombstones(if item.nid in tombs then tombs else tombs + [item.nid], rest)
  {
    assert ([item] + rest)[1..] == rest;
  }

  lemma ExtrasAdvance(items: seq<Item>, used: set<string>, before: seq<string>, j: nat, extras: seq<Item>, tombs: seq<string>)
    requires j < |items| && ExtrasReached(items, used, before, j, extras, tombs)
    ensures var item := items[j];
      if item.nid in used then ExtrasReached(items, used, before, j + 1, extras, tombs)
      else ExtrasReached(items, used, before, j + 1, extras + [item], if item.nid in tombs then tombs else tombs + [item.nid])
  {
    var item, rest := items[j], NewTo(used, items[j + 1..]);
    NewToStep(items, used, j);
    if item.nid in used {
      assert [] + rest == rest;
    } else {
      AddOneTombstone(tombs, item, rest);
      assert extras + ([item] + rest) == (extras + [item]) + rest;
    }
  }

  /** The loop over the existing items: the unmatched ones are tombstoned and kept. */
  method TombstoneExtras(items: seq<Item>, usedNids: set<string>, before: seq<string>) returns (extraItems: seq<Item>, tombstones: seq<string>)
    ensures extraItems == NewTo(usedNids, items)
    ensures tombstones == AddTombstones(before, NewTo(usedNids, items))
  {
    extraItems, tombstones := [], before;
    var j := 0;
    ExtrasStart(items, usedNids, before);
    while j < |items|
      invariant 0 <= j <= |items|
      invariant ExtrasReached(items, usedNids, before, j, extraItems, tombstones)
    {
      var item := items[j];
      ExtrasAdvance(items, usedNids, before, j, extraItems, tombstones);
      if item.nid !in usedNids {
        if item.nid !in tombstones { tombstones := tombstones + [item.nid]; }
        extraItems := extraItems + [item];
      }
      j := j + 1;
    }
    ExtrasEnd(items, usedNids, before, extraItems, tombstones);
  }

  lemma ExtrasEnd(items: seq<Item>, used: set<string>, before: seq<string>, extras: seq<Item>, tombs: seq<string>)
    requires ExtrasReached(items, used, before, |items|, extras, tombs)
    ensures extras == NewTo(used, items) && tombs == AddTombstones(before, NewTo(used, items))
  {
    assert items[|items|..] == [];
    assert extras + [] == extras;
  }

  method BuildRgaState(arr: seq<Json>, existing: Option<Rga>, gen: seq<string>) returns (s: Rga)
    requires |gen| >= |arr|
    ensures s == Build(arr, if existing.Some? then existing.value else Rga([], []), gen)
  {
    var e := if existing.Some? then existing.value else Rga([], []);
    var newItems, usedNids := MatchElements(arr, e.items, gen);
    var extraItems, tombstones := TombstoneExtras(e.items, usedNids, e.tombstones);
    s := Rga(newItems + extraItems, tombstones);
  }

  lemma NidsSnoc(items: seq<Item>, x: Item)
    ensures Nids(items + [x]) == Nids(items) + {x.nid}
  {
    assert forall i :: i in items + [x] <==> i in items || i == x;
  }

  // ----- What rebuilding means -----------------------------------------------------------------------

  /** Generated nids are new: distinct, and unknown to the existing state. */
  predicate FreshFor(gen: seq<string>, e: Rga) {
    && (forall i, j :: 0 <= i < j < |gen| ==> gen[i] != gen[j])
    && (forall n :: n in gen ==> n !in Nids(e.items) && n !in e.tombstones)
  }

  /** Some element of the array would be matched to an item that is already tombstoned. */
  predicate RevivesDead(arr: seq<Json>, e: Rga) {
    exists v :: v in arr && FirstWith(e.items, v).Some? && FirstWith(e.items, v).value.nid in e.tombstones
  }

  lemma {:induction false} FirstWithIs(items: seq<Item>, v: Json)
    ensures var m := FirstWith(items, v); m.Some? ==> m.value in items && m.value.v == v
  {
    if items != [] { FirstWithIs(items[1..], v); }
  }

  lemma OneItemPerNid(items: seq<Item>, x: Item, y: Item)
    requires UniqueNids(items) && x in items && y in items && x.nid == y.nid
    ensures x == y
  {
  }

  function Values(items: seq<Item>): seq<Json> {
    if items == [] then [] else [items[0].v] + Values(items[1..])
  }

  ghost predicate Generable(gen: seq<string>, e: seq<Item>, used: set<string>) {
    && (forall i, j :: 0 <= i < j < |gen| ==> gen[i] != gen[j])
    && (forall n :: n in gen ==> n !in Nids(e) && n !in used)
  }

  /** The head of the new items, and what is left of the generated nids. */
  lemma NewItemsHead(arr: seq<Json>, e: seq<Item>, used: set<string>, gen: seq<string>) returns (x: Item, gen': seq<string>)
    requires |gen| >= |arr| && arr != [] && Generable(gen, e, used)
    ensures |gen'| >= |arr| - 1 && Generable(gen', e, used + {x.nid}) && (forall n :: n in gen' ==> n in gen)
    ensures NewItems(arr, e, used, gen) == [x] + NewItems(arr[1..], e, used + {x.nid}, gen')
    ensures x.v == arr[0] && x.nid !in used
    ensures (x.nid in gen && x.nid !in Nids(e)) || (x in e && FirstWith(e, x.v) == Some(x))
    ensures FirstWith(e, arr[0]).Some? && x.nid in gen ==> FirstWith(e, arr[0]).value.nid in used
  {
    var v, m := arr[0], FirstWith(e, arr[0]);
    FirstWithIs(e, v);
    if m.Some? && m.value.nid !in used {
      x, gen' := m.value, gen;
      assert x.nid in Nids(e);
    } else {
      x, gen' := Item(gen[0], v), gen[1..];
      assert gen[0] in gen;
      assert forall n :: n in gen' ==> n in gen && n != gen[0];
    }
  }

  /** The new items carry the array and have distinct, unused nids. */
  lemma {:induction false} NewItemsCarryArray(arr: seq<Json>, e: seq<Item>, used: set<string>, gen: seq<string>)
    requires |gen| >= |arr| && Generable(gen, e, used)
    ensures var r := NewItems(arr, e, used, gen);
      Values(r) == arr && UniqueNids(r) && (forall i :: 0 <= i < |r| ==> r[i].nid !in used)
    decreases |arr|
  {
    if arr != [] {
      var x, gen' := NewItemsHead(arr, e, used, gen);
      NewItemsCarryArray(arr[1..], e, used + {x.nid}, gen');
      var rest := NewItems(arr[1..], e, used + {x.nid}, gen');
      assert ([x] + rest)[1..] == rest;
      assert arr == [arr[0]] + arr[1..];
    }
  }

  /** Each new item is a match or has a generated nid. */
  lemma {:induction false} NewItemOrigin(arr: seq<Json>, e: seq<Item>, used: set<string>, gen: seq<string>, x: Item)
    requires |gen| >= |arr| && Generable(gen, e, used) && x in NewItems(arr, e, used, gen)
    ensures (x.nid in gen && x.nid !in Nids(e)) || (x in e && x.v in arr && FirstWith(e, x.v) == Some(x))
    decreases |arr|
  {
    if arr != [] {
      var y, gen' := NewItemsHead(arr, e, used, gen);
      var rest := NewItems(arr[1..], e, used + {y.nid}, gen');
      if x != y {
        assert x in rest;
        NewItemOrigin(arr[1..], e, used + {y.nid}, gen', x);
      }
    }
  }

  /** Every match the array offers is taken. */
  lemma {:induction false} MatchesAreTaken(arr: seq<Json>, e: seq<Item>, used: set<string>, gen: seq<string>, v: Json)
    requires |gen| >= |arr| && UniqueNids(e) && Generable(gen, e, used)
    requires v in arr && FirstWith(e, v).Some?
    ensures FirstWith(e, v).value.nid in used || FirstWith(e, v).value in NewItems(arr, e, used, gen)
    decreases |arr|
  {
    var x, gen' := NewItemsHead(arr, e, used, gen);
    var it := FirstWith(e, v).value;
    FirstWithIs(e, v);
    assert it.nid in Nids(e);
    if v != arr[0] {
      assert v in arr[1..];
      MatchesAreTaken(arr[1..], e, used + {x.nid}, gen', v);
      if it.nid == x.nid { OneItemPerNid(e, it, x); }
    }
  }

  lemma {:induction false} LiveAppend(x: seq<Item>, y: seq<Item>, dead: set<string>)
    ensures LiveValues(x + y, dead) == LiveValues(x, dead) + LiveValues(y, dead)
  {
    if x == [] {
      assert x + y == y;
    } else {
      assert (x + y)[1..] == x[1..] + y;
      LiveAppend(x[1..], y, dead);
    }
  }

  lemma {:induction false} AllDead(items: seq<Item>, dead: set<string>)
    requires forall i :: i in items ==> i.nid in dead
    ensures LiveValues(items, dead) == []
  {
    if items != [] { AllDead(items[1..], dead); }
  }

  lemma {:induction false} AllLive(items: seq<Item>, dead: set<string>)
    ensures |LiveValues(items, dead)| <= |items| == |Values(items)|
    ensures LiveValues(items, dead) == Values(items) <==> forall i :: i in items ==> i.nid !in dead
    ensures |LiveValues(items, dead)| == |items| <==> forall i :: i in items ==> i.nid !in dead
  {
    if items != [] {
      AllLive(items[1..], dead);
      assert forall i :: i in items <==> i == items[0] || i in items[1..];
    }
  }

  lemma BuildDead(arr: seq<Json>, e: Rga, gen: seq<string>)
    requires |gen| >= |arr|
    ensures var live := NewItems(arr, e.items, {}, gen);
      Dead(Build(arr, e, gen)) == Dead(e) + Nids(NewTo(Nids(live), e.items))
  {
    AddTombstonesAdds(e.tombstones, NewTo(Nids(NewItems(arr, e.items, {}, gen)), e.items));
  }

  /** A rebuilt state resolves to the array it was built from, exactly if no element is matched to
      a tombstoned item: re-adding a value that was deleted before is lost. */
  lemma RebuildResolvesExactly(arr: seq<Json>, e: Rga, gen: seq<string>)
    requires |gen| >= |arr| && UniqueNids(e.items) && FreshFor(gen, e)
    ensures Resolve(RgaState(Build(arr, e, gen))) == Elements(arr) <==> !RevivesDead(arr, e)
  {
    var b, live := Build(arr, e, gen), NewItems(arr, e.items, {}, gen);
    var extras := NewTo(Nids(live), e.items);
    NewItemsCarryArray(arr, e.items, {}, gen);
    BuildDead(arr, e, gen);
    LiveAppend(live, extras, Dead(b));
    assert forall i :: i in extras ==> i.nid in Nids(extras);
    AllDead(extras, Dead(b));
    assert Live(b) == LiveValues(live, Dead(b));
    AllLive(live, Dead(b));
    assert forall i :: i in live ==> i.nid in Nids(live);
    assert forall i :: i in live ==> (i.nid in Dead(b) <==> i.nid in e.tombstones);
    if RevivesDead(arr, e) {
      var v :| v in arr && FirstWith(e.items, v).Some? && FirstWith(e.items, v).value.nid in e.tombstones;
      MatchesAreTaken(arr, e.items, {}, gen, v);
      assert FirstWith(e.items, v).value in live;
    } else {
      forall i | i in live
        ensures i.nid !in e.tombstones
      {
        NewItemOrigin(arr, e.items, {}, gen, i);
      }
    }
  }

  /** The nids of a state stay unique when it is rebuilt, and no nid changes its value. */
  lemma RebuildKeepsIdentity(arr: seq<Json>, e: Rga, gen: seq<string>)
    requires |gen| >= |arr| && UniqueNids(e.items) && FreshFor(gen, e)
    ensures var b := Build(arr, e, gen);
      && UniqueNids(b.items) && Agree(e.items, b.items) && Nids(e.items) <= Nids(b.items)
      && Dead(e) <= Dead(b)
  {
    var b, live := Build(arr, e, gen), NewItems(arr, e.items, {}, gen);
    NewItemsCarryArray(arr, e.items, {}, gen);
    MergeUnique(live, e.items);
    NidsOfMerge(live, e.items);
    BuildDead(arr, e, gen);
    forall x, y | x in e.items && y in b.items && x.nid == y.nid
      ensures x == y
    {
      assert x.nid in Nids(e.items);
      if y in live { NewItemOrigin(arr, e.items, {}, gen, y); }
      OneItemPerNid(e.items, x, y);
    }
  }

  /** A rebuilt state already contains its ancestor. */
  lemma RebuiltAbsorbsAncestor(arr: seq<Json>, e: Rga, gen: seq<string>)
    requires |gen| >= |arr| && UniqueNids(e.items) && FreshFor(gen, e)
    ensures var b := RgaState(Build(arr, e, gen));
      SameState(Merge(b, RgaState(e)), b) && Resolve(Merge(b, RgaState(e))) == Resolve(b)
  {
    var b := Build(arr, e, gen);
    RebuildKeepsIdentity(arr, e, gen);
    NewToNothing(Nids(b.items), e.items);
    MergeDead(b, e);
  }

  // ----- Merging the other way round -------------------------------------------------------------------

  lemma LiveWithout(y: seq<Item>, k: nat, dead: set<string>)
    requires k < |y|
    ensures multiset(LiveValues(y, dead)) == multiset(LiveValues([y[k]], dead)) + multiset(LiveValues(y[..k] + y[k + 1..], dead))
  {
    assert y == y[..k] + ([y[k]] + y[k + 1..]);
    LiveAppend(y[..k], y[k + 1..], dead);
    LiveAppend(y[..k], [y[k]] + y[k + 1..], dead);
    LiveAppend([y[k]], y[k + 1..], dead);
  }

  lemma {:induction false} LivePermutes(x: seq<Item>, y: seq<Item>, dead: set<string>)
    requires multiset(x) == multiset(y)
    ensures multiset(LiveValues(x, dead)) == multiset(LiveValues(y, dead))
  {
    if x == [] {
      assert |multiset(y)| == |multiset(x)| == 0;
    } else {
      var a := x[0];
      assert x == [a] + x[1..];
      assert a in multiset(y);
      var k :| 0 <= k < |y| && y[k] == a;
      var y' := y[..k] + y[k + 1..];
      assert y == y[..k] + [a] + y[k + 1..];
      assert multiset(x[1..]) == multiset(x) - multiset{a} == multiset(y) - multiset{a} == multiset(y');
      LivePermutes(x[1..], y', dead);
      LiveWithout(y, k, dead);
      LiveWithout(x, 0, dead);
      assert x[..0] + x[1..] == x[1..];
    }
  }

  /** Two devices that merge each other's lists read the same elements, up to order, if no nid stands
      for two values. */
  lemma RgaReplicasAgree(a: Rga, b: Rga)
    requires UniqueNids(a.items) && UniqueNids(b.items) && Agree(a.items, b.items)
    ensures multiset(Resolve(Merge(RgaState(a), RgaState(b))).elements) == multiset(Resolve(Merge(RgaState(b), RgaState(a))).elements)
  {
    RgaMergeCommutesExactly(a, b);
    LivePermutes(MergeRga(a, b).items, MergeRga(b, a).items, Dead(MergeRga(a, b)));
  }

  /** Merging the rebuilt state into its ancestor resolves to the array, up to order. */
  lemma AncestorAbsorbsRebuilt(arr: seq<Json>, e: Rga, gen: seq<string>)
    requires |gen| >= |arr| && UniqueNids(e.items) && FreshFor(gen, e)
    requires !RevivesDead(arr, e)
    ensures multiset(Resolve(Merge(RgaState(e), RgaState(Build(arr, e, gen)))).elements) == multiset(arr)
  {
    var b := Build(arr, e, gen);
    RebuildKeepsIdentity(arr, e, gen);
    RgaReplicasAgree(e, b);
    RebuiltAbsorbsAncestor(arr, e, gen);
    RebuildResolvesExactly(arr, e, gen);
  }

  /** Deleting a value and adding it again, one put after the other, loses it. */
  lemma ReaddedValueIsLost(v: Json, n0: string, n1: string, n2: string)
    requires n0 != n1 && n1 != n2 && n0 != n2
    ensures var s0 := Build([v], Rga([], []), [n0]);
      var s1 := Build([], s0, []);
      var s2 := Build([v], s1, [n2]);
      Resolve(RgaState(s0)) == Elements([v]) && Resolve(RgaState(s1)) == Elements([]) && Resolve(RgaState(s2)) == Elements([])
  {
    var e := Rga([], []);
    var s0 := Build([v], e, [n0]);
    assert [v][1..] == [] && [n0][1..] == [];
    assert NewItems([v], [], {}, [n0]) == [Item(n0, v)];
    RebuildResolvesExactly([v], e, [n0]);
    assert s0.items == [Item(n0, v)];
    var s1 := Build([], s0, []);
    assert NewItems([], s0.items, {}, []) == [] && Nids([]) == {};
    assert [Item(n0, v)][1..] == [];
    assert NewTo({}, [Item(n0, v)]) == [Item(n0, v)];
    assert s1.items == [Item(n0, v)];
    assert Item(n0, v) in s1.items && n0 in Nids(s1.items);
    RebuildResolvesExactly([], s0, []);
    var s2 := Build([v], s1, [n2]);
    assert NewItems([v], s1.items, {}, [n2]) == [Item(n0, v)];
    assert n0 in Nids([Item(n0, v)]) by { assert Item(n0, v) in [Item(n0, v)]; }
    assert s2.items == [Item(n0, v)];
  }
}
