/** CRDT states of a record: per-field last-writer-wins registers and a replicated growable
    array. A value is given by its JSON text, which is what the program compares. */
module Crdt {
  import opened Wrappers
  import Lex

  type Json = string

  datatype Register = Register(v: Json, ts: string)

  type LwwMap = map<string, Register>

  datatype Item = Item(nid: string, v: Json)

  datatype Rga = Rga(items: seq<Item>, tombstones: seq<string>)

  datatype State = LwwState(fields: LwwMap) | RgaState(rga: Rga) | YjsState(update: string)

  datatype Snapshot = Fields(fields: map<string, Json>) | Elements(elements: seq<Json>) | Update(update: string)

  /** What `collection.get()` returns for a state. */
  function Resolve(s: State): Snapshot {
    match s
    case LwwState(fields) => Fields(map f | f in fields :: fields[f].v)
    case RgaState(rga) => Elements(Live(rga))
    case YjsState(update) => Update(update)
  }

  /** The values of the items without a tombstone, in order. */
  function Live(s: Rga): seq<Json> {
    LiveValues(s.items, Dead(s))
  }

  function Dead(s: Rga): set<string> {
    set n | n in s.tombstones
  }

  function LiveValues(items: seq<Item>, dead: set<string>): seq<Json> {
    if items == [] then []
    else if items[0].nid in dead then LiveValues(items[1..], dead)
    else [items[0].v] + LiveValues(items[1..], dead)
  }

  /** States of different modes do not mix, and a Yjs update cannot be merged here. */
  function Merge(a: State, b: State): State {
    match (a, b)
    case (LwwState(f), LwwState(g)) => LwwState(MergeLww(f, g))
    case (RgaState(r), RgaState(q)) => RgaState(MergeRga(r, q))
    case _ => a
  }

  // ----- Last writer wins ------------------------------------------------------------------------

  /** Per field the register with the later timestamp; the first on a tie. */
  function MergeLww(a: LwwMap, b: LwwMap): LwwMap {
    map f | f in a.Keys + b.Keys ::
      if f !in a then b[f] else if f !in b then a[f] else Later(a[f], b[f])
  }

  function Later(a: Register, b: Register): Register {
    if Lex.Le(b.ts, a.ts) then a else b
  }

  method MergeLwwMap(a: LwwMap, b: LwwMap) returns (merged: LwwMap)
    ensures merged == MergeLww(a, b)
  {
    merged := map[];
    var todo := a.Keys + b.Keys;
    while todo != {}
      invariant todo <= a.Keys + b.Keys
      invariant merged.Keys == a.Keys + b.Keys - todo
      invariant forall f :: f in merged ==> merged[f] == MergeLww(a, b)[f]
    {
      var field :| field in todo;
      if field !in a {
        merged := merged[field := b[field]];
      } else if field !in b {
        merged := merged[field := a[field]];
      } else {
        merged := merged[field := if Lex.Le(b[field].ts, a[field].ts) then a[field] else b[field]];
      }
      todo := todo - {field};
    }
  }

  lemma LaterAssociative(a: Register, b: Register, c: Register)
    ensures Later(Later(a, b), c) == Later(a, Later(b, c))
  {
    Lex.Total(a.ts, b.ts); Lex.Total(b.ts, c.ts); Lex.Total(a.ts, c.ts);
    if Lex.Le(c.ts, b.ts) && Lex.Le(b.ts, a.ts) { Lex.Transitive(c.ts, b.ts, a.ts); }
    if Lex.Le(a.ts, b.ts) && Lex.Le(b.ts, c.ts) { Lex.Transitive(a.ts, b.ts, c.ts); }
    if Lex.Le(c.ts, a.ts) && Lex.Le(a.ts, b.ts) { Lex.Transitive(c.ts, a.ts, b.ts); }
  }

  lemma LwwMergeAssociative(a: LwwMap, b: LwwMap, c: LwwMap)
    ensures MergeLww(MergeLww(a, b), c) == MergeLww(a, MergeLww(b, c))
  {
    forall f | f in a && f in b && f in c
      ensures Later(Later(a[f], b[f]), c[f]) == Later(a[f], Later(b[f], c[f]))
    {
      LaterAssociative(a[f], b[f], c[f]);
    }
  }

  lemma LwwMergeIdempotent(a: LwwMap)
    ensures MergeLww(a, a) == a
  {
  }

  /** The merge is commutative exactly if no two writes of a field share a timestamp without
      being the same write. */
  lemma LwwMergeCommutesExactly(a: LwwMap, b: LwwMap)
    ensures MergeLww(a, b) == MergeLww(b, a) <==>
      forall f :: f in a && f in b && a[f].ts == b[f].ts ==> a[f] == b[f]
  {
    forall f | f in a && f in b
      ensures Later(a[f], b[f]) == Later(b[f], a[f]) <==> (a[f].ts == b[f].ts ==> a[f] == b[f])
    {
      Lex.Total(a[f].ts, b[f].ts);
      if Lex.Le(a[f].ts, b[f].ts) && Lex.Le(b[f].ts, a[f].ts) { Lex.Antisymmetric(a[f].ts, b[f].ts); }
    }
    var ab, ba := MergeLww(a, b), MergeLww(b, a);
    assert forall f :: f in a && f in b ==> ab[f] == Later(a[f], b[f]) && ba[f] == Later(b[f], a[f]);
    if forall f :: f in a && f in b && a[f].ts == b[f].ts ==> a[f] == b[f] {
      assert ab.Keys == ba.Keys;
      assert forall f :: f in ab ==> ab[f] == ba[f];
    }
  }

  /** A new record: its fields are written now, the other fields of the old state stay. */
  function BuildLww(record: map<string, Json>, existing: Option<LwwMap>, now: string): LwwMap {
    (if existing.Some? then existing.value else map[]) + map f | f in record :: Register(record[f], now)
  }

  method BuildLwwMapState(record: map<string, Json>, existing: Option<LwwMap>, now: string) returns (fields: LwwMap)
    ensures fields == BuildLww(record, existing, now)
  {
    fields := map[];
    var todo := record.Keys;
    while todo != {}
      invariant todo <= record.Keys && fields.Keys == record.Keys - todo
      invariant forall f :: f in fields ==> fields[f] == Register(record[f], now)
    {
      var field :| field in todo;
      fields, todo := fields[field := Register(record[field], now)], todo - {field};
    }
    if existing.Some? {
      var before := existing.value;
      var rest := before.Keys;
      while rest != {}
        invariant rest <= before.Keys && fields.Keys == record.Keys + (before.Keys - rest)
        invariant forall f :: f in fields ==>
          fields[f] == if f in record then Register(record[f], now) else before[f]
      {
        var field :| field in rest;
        if field !in fields { fields := fields[field := before[field]]; }
        rest := rest - {field};
      }
    }
  }

  /** Merging a rebuilt state with the state it was built from gives the rebuilt state back,
      exactly if the clock has not fallen behind any field the record rewrites. */
  lemma RebuiltLwwAbsorbsAncestorExactly(record: map<string, Json>, e: LwwMap, now: string)
    ensures var b := BuildLww(record, Some(e), now);
      Merge(LwwState(b), LwwState(e)) == LwwState(b) <==> forall f :: f in record && f in e ==> Lex.Le(e[f].ts, now)
  {
    var b := BuildLww(record, Some(e), now);
    forall f | f in record && f in e
      ensures MergeLww(b, e)[f] == b[f] <==> Lex.Le(e[f].ts, now)
    {
      Lex.Total(e[f].ts, now);
      Lex.Reflexive(now);
    }
    assert MergeLww(b, e).Keys == b.Keys;
    forall f | f in e && f !in record
      ensures MergeLww(b, e)[f] == b[f]
    {
    }
  }

  // ----- Replicated growable array ---------------------------------------------------------------

  function Nids(items: seq<Item>): set<string> {
    set i | i in items :: i.nid
  }

  /** `items` without the ones whose nid is in `known`. */
  function NewTo(known: set<string>, items: seq<Item>): (r: seq<Item>)
    ensures forall i :: i in r <==> i in items && i.nid !in known
  {
    if items == [] then []
    else if items[0].nid in known then NewTo(known, items[1..])
    else [items[0]] + NewTo(known, items[1..])
  }

  /** `[...new Set(names)]`: first occurrences only. */
  function Dedup(names: seq<string>, seen: set<string>): (r: seq<string>)
    ensures forall n :: n in r <==> n in names && n !in seen
  {
    if names == [] then []
    else if names[0] in seen then Dedup(names[1..], seen)
    else [names[0]] + Dedup(names[1..], seen + {names[0]})
  }

  /** The first state's items in its order, then the second's new ones; all tombstones. */
  function MergeRga(a: Rga, b: Rga): Rga {
    Rga(a.items + NewTo(Nids(a.items), b.items), Dedup(a.tombstones + b.tombstones, {}))
  }

  /** The same items in the same order, and the same nids dead. */
  predicate SameRga(a: Rga, b: Rga) {
    a.items == b.items && Dead(a) == Dead(b)
  }

  lemma MergeDead(a: Rga, b: Rga)
    ensures Dead(MergeRga(a, b)) == Dead(a) + Dead(b)
  {
  }

  lemma {:induction false} NewToAppend(known: set<string>, x: seq<Item>, y: seq<Item>)
    ensures NewTo(known, x + y) == NewTo(known, x) + NewTo(known, y)
  {
    if x == [] {
      assert x + y == y;
    } else {
      assert (x + y)[1..] == x[1..] + y;
      NewToAppend(known, x[1..], y);
    }
  }

  lemma {:induction false} NewToTwice(k1: set<string>, k2: set<string>, items: seq<Item>)
    ensures NewTo(k1, NewTo(k2, items)) == NewTo(k1 + k2, items)
  {
    if items != [] {
      NewToTwice(k1, k2, items[1..]);
      if items[0].nid !in k2 {
        assert NewTo(k2, items)[1..] == NewTo(k2, items[1..]);
      }
    }
  }

  lemma NewToNothing(known: set<string>, items: seq<Item>)
    requires Nids(items) <= known
    ensures NewTo(known, items) == []
  {
    HasMember(NewTo(known, items));
    assert forall i :: i in items ==> i.nid in Nids(items);
  }

  lemma NidsOfMerge(a: seq<Item>, b: seq<Item>)
    ensures Nids(a + NewTo(Nids(a), b)) == Nids(a) + Nids(b)
  {
    var m := a + NewTo(Nids(a), b);
    forall n | n in Nids(a) + Nids(b)
      ensures n in Nids(m)
    {
      if n in Nids(a) {
        var i :| i in a && i.nid == n;
        assert i in m;
      } else {
        var i :| i in b && i.nid == n;
        assert i in m;
      }
    }
  }

  lemma MergedItemsAssociative(a: seq<Item>, b: seq<Item>, c: seq<Item>)
    ensures var ab, bc := a + NewTo(Nids(a), b), b + NewTo(Nids(b), c);
      ab + NewTo(Nids(ab), c) == a + NewTo(Nids(a), bc)
  {
    var na, nb := Nids(a), Nids(b);
    NidsOfMerge(a, b);
    NewToAppend(na, b, NewTo(nb, c));
    NewToTwice(na, nb, c);
    var x, y := NewTo(na, b), NewTo(na + nb, c);
    assert (a + x) + y == a + (x + y);
  }

  lemma RgaMergeAssociative(a: Rga, b: Rga, c: Rga)
    ensures SameRga(MergeRga(MergeRga(a, b), c), MergeRga(a, MergeRga(b, c)))
  {
    MergedItemsAssociative(a.items, b.items, c.items);
    MergeDead(a, b); MergeDead(b, c); MergeDead(MergeRga(a, b), c); MergeDead(a, MergeRga(b, c));
  }

  lemma RgaMergeIdempotent(a: Rga)
    ensures SameRga(MergeRga(a, a), a)
  {
    NewToNothing(Nids(a.items), a.items);
    MergeDead(a, a);
  }

  predicate UniqueNids(items: seq<Item>) {
    forall i, j :: 0 <= i < j < |items| ==> items[i].nid != items[j].nid
  }

  /** The two states never give one nid to different values. */
  predicate Agree(a: seq<Item>, b: seq<Item>) {
    forall i, j :: i in a && j in b && i.nid == j.nid ==> i == j
  }

  lemma {:induction false} UniqueIsOnce(items: seq<Item>, x: Item)
    requires UniqueNids(items)
    ensures multiset(items)[x] == if x in items then 1 else 0
  {
    if items != [] {
      assert items == [items[0]] + items[1..];
      assert forall j :: 0 <= j < |items| - 1 ==> items[1..][j].nid != items[0].nid;
      UniqueIsOnce(items[1..], x);
    }
  }

  lemma {:induction false} NewToUnique(known: set<string>, items: seq<Item>)
    requires UniqueNids(items)
    ensures UniqueNids(NewTo(known, items))
  {
    if items != [] {
      NewToUnique(known, items[1..]);
      var r := NewTo(known, items[1..]);
      assert forall j :: 0 <= j < |r| ==> r[j] in items[1..];
    }
  }

  lemma MergeUnique(a: seq<Item>, b: seq<Item>)
    requires UniqueNids(a) && UniqueNids(b)
    ensures UniqueNids(a + NewTo(Nids(a), b))
  {
    NewToUnique(Nids(a), b);
    var n := NewTo(Nids(a), b);
    assert forall j :: 0 <= j < |n| ==> n[j] in n && n[j].nid !in Nids(a);
    assert forall i :: 0 <= i < |a| ==> a[i] in a && a[i].nid in Nids(a);
  }

  lemma SameMembersExactly(x: seq<Item>, y: seq<Item>)
    requires UniqueNids(x) && UniqueNids(y)
    ensures multiset(x) == multiset(y) <==> forall i :: i in x <==> i in y
  {
    forall i
      ensures multiset(x)[i] == if i in x then 1 else 0
      ensures multiset(y)[i] == if i in y then 1 else 0
    {
      UniqueIsOnce(x, i);
      UniqueIsOnce(y, i);
    }
    if multiset(x) == multiset(y) {
      forall i
        ensures i in x <==> i in y
      {
        assert multiset(x)[i] == multiset(y)[i];
      }
    }
  }

  /** For states with unique nids, merging in either order gives the same items, up to order,
      exactly if no nid stands for two values. */
  lemma RgaMergeCommutesExactly(a: Rga, b: Rga)
    requires UniqueNids(a.items) && UniqueNids(b.items)
    ensures multiset(MergeRga(a, b).items) == multiset(MergeRga(b, a).items) <==> Agree(a.items, b.items)
    ensures Dead(MergeRga(a, b)) == Dead(MergeRga(b, a))
  {
    MergeDead(a, b); MergeDead(b, a);
    var ab, ba := MergeRga(a, b).items, MergeRga(b, a).items;
    MergeUnique(a.items, b.items); MergeUnique(b.items, a.items);
    SameMembersExactly(ab, ba);
    if Agree(a.items, b.items) {
      forall x
        ensures x in ab <==> x in ba
      {
      }
    } else {
      var i, j :| i in a.items && j in b.items && i.nid == j.nid && i != j;
      assert i in ab && j in ba;
      assert j !in ab by { OneValuePerNid(ab, i, j); }
    }
  }

  lemma OneValuePerNid(items: seq<Item>, x: Item, y: Item)
    requires UniqueNids(items) && x in items && x.nid == y.nid && x != y
    ensures y !in items
  {
  }

  /** A nid tombstoned on either side is dead in the merge, and nothing else dies. */
  lemma MergedLiveness(a: Rga, b: Rga, nid: string)
    ensures nid in Dead(MergeRga(a, b)) <==> nid in Dead(a) || nid in Dead(b)
    ensures nid in Nids(MergeRga(a, b).items) <==> nid in Nids(a.items) || nid in Nids(b.items)
  {
    MergeDead(a, b);
    NidsOfMerge(a.items, b.items);
  }

  // ----- States --------------------------------------------------------------------------------------

  predicate SameMode(a: State, b: State) {
    match (a, b)
    case (LwwState(_), LwwState(_)) => true
    case (RgaState(_), RgaState(_)) => true
    case (YjsState(_), YjsState(_)) => true
    case _ => false
  }

  /** Equal up to the order of tombstones. */
  predicate SameState(a: State, b: State) {
    if a.RgaState? && b.RgaState? then SameRga(a.rga, b.rga) else a == b
  }

  /** The order of tombstones does not show. */
  lemma SameStateResolvesAlike(a: State, b: State)
    requires SameState(a, b)
    ensures Resolve(a) == Resolve(b)
  {
  }

  /** Merging states is associative, exactly unless the first two differ in mode and the third would
      change the first. */
  lemma MergeAssociativeExactly(a: State, b: State, c: State)
    ensures SameState(Merge(Merge(a, b), c), Merge(a, Merge(b, c))) <==> SameMode(a, b) || SameState(Merge(a, c), a)
  {
    match (a, b, c) {
      case (LwwState(f), LwwState(g), LwwState(h)) => LwwMergeAssociative(f, g, h);
      case (RgaState(r), RgaState(q), RgaState(p)) => RgaMergeAssociative(r, q, p);
      case _ =>
    }
  }

  lemma MergeIdempotent(a: State)
    ensures SameState(Merge(a, a), a)
  {
    match a {
      case LwwState(f) => LwwMergeIdempotent(f);
      case RgaState(r) => RgaMergeIdempotent(r);
      case YjsState(_) =>
    }
  }

  /** Two devices that merge each other's map states read the same record, exactly if fields written
      at the same time hold the same value. */
  lemma LwwReplicasAgreeExactly(f: LwwMap, g: LwwMap)
    ensures Resolve(Merge(LwwState(f), LwwState(g))) == Resolve(Merge(LwwState(g), LwwState(f))) <==>
      forall x :: x in f && x in g && f[x].ts == g[x].ts ==> f[x].v == g[x].v
  {
    LwwMergeCommutesExactly(f, g);
    var fg, gf := Resolve(Merge(LwwState(f), LwwState(g))).fields, Resolve(Merge(LwwState(g), LwwState(f))).fields;
    forall x | x in f && x in g && f[x].ts == g[x].ts
      ensures fg[x] == f[x].v && gf[x] == g[x].v
    {
      Lex.Reflexive(f[x].ts);
    }
  }

  /** A rebuilt map state reads as the record it was built from, exactly if the old state has no other
      fields: leaving a field out does not remove it. */
  lemma LwwRebuildResolvesExactly(record: map<string, Json>, e: LwwMap, now: string)
    ensures Resolve(LwwState(BuildLww(record, Some(e), now))) == Fields(record) <==> e.Keys <= record.Keys
  {
    var shown := Resolve(LwwState(BuildLww(record, Some(e), now))).fields;
    assert shown.Keys == e.Keys + record.Keys;
    assert forall f :: f in record ==> shown[f] == record[f];
  }
}
