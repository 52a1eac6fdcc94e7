/** The hot and cold tiers of a routed store, as one map. */
module Tiering {
  import opened Wrappers
  import opened Stores
  import Lex
  import Snapshots

  /** `millis` reads a timestamp; an unreadable one never counts as old. No collections means all. */
  datatype AgePolicy = AgePolicy(collections: set<string>, millis: string -> Option<int>)
  {
    predicate Eligible(coll: string) {
      !Internal(coll) && (collections == {} || coll in collections)
    }

    predicate IsCold(cutoff: int, k: Key, env: Envelope) {
      Eligible(k.coll) && millis(env.ts).Some? && millis(env.ts).value < cutoff
    }
  }

  /** What a reader sees: the hot tier over the cold one. */
  function View(p: AgePolicy, hot: Snapshot<Key>, cold: Snapshot<Key>): Snapshot<Key> {
    map k | k in hot.Keys + cold.Keys && (k in hot || p.Eligible(k.coll)) :: if k in hot then hot[k] else cold[k]
  }

  function Ids(m: Snapshot<Key>, coll: string): set<string> {
    set k | k in m && k.coll == coll :: k.id
  }

  /** The records a compaction with this cutoff moves. */
  function Stale(p: AgePolicy, cutoff: int, colls: set<string>, hot: Snapshot<Key>): set<Key> {
    set k | k in hot && k.coll in colls && p.IsCold(cutoff, k, hot[k])
  }

  /** The tiers after the records in `ks` have moved from hot to cold. */
  ghost predicate Moved(hot0: Snapshot<Key>, cold0: Snapshot<Key>, ks: set<Key>, hot: Snapshot<Key>, cold: Snapshot<Key>) {
    && ks <= hot0.Keys
    && (forall k :: Lookup(hot, k) == if k in ks then None else Lookup(hot0, k))
    && (forall k :: Lookup(cold, k) == if k in ks then Some(hot0[k]) else Lookup(cold0, k))
  }

  lemma MovedOneMore(hot0: Snapshot<Key>, cold0: Snapshot<Key>, ks: set<Key>, hot: Snapshot<Key>, cold: Snapshot<Key>, k: Key)
    requires Moved(hot0, cold0, ks, hot, cold) && k in hot0 && k !in ks
    ensures k in hot && hot[k] == hot0[k]
    ensures Moved(hot0, cold0, ks + {k}, hot - {k}, cold[k := hot[k]])
  {
    assert Lookup(hot, k) == Lookup(hot0, k);
    forall x
      ensures Lookup(hot - {k}, x) == if x in ks + {k} then None else Lookup(hot0, x)
      ensures Lookup(cold[k := hot[k]], x) == if x in ks + {k} then Some(hot0[x]) else Lookup(cold0, x)
    {
      assert Lookup(hot, x) == if x in ks then None else Lookup(hot0, x);
      assert Lookup(cold, x) == if x in ks then Some(hot0[x]) else Lookup(cold0, x);
    }
  }

  /** A conditional put is decided on the hot tier alone. That agrees with the one map exactly
      unless the record is only in the cold tier, at some other version. */
  lemma ConditionalPutAgreesExactly(p: AgePolicy, hot: Snapshot<Key>, cold: Snapshot<Key>, k: Key, expected: Option<int>)
    ensures CasAdmits(hot, k, expected) == CasAdmits(View(p, hot, cold), k, expected) <==>
      !(expected.Some? && k !in hot && k in cold && p.Eligible(k.coll) && cold[k].v != expected.value)
  {
  }

  class TieredStore {
    const hot: MemoryStore<Key>
    const cold: MemoryStore<Key>
    const policy: AgePolicy
    /** What a reader would have seen after each store write of the compactions so far. */
    ghost var views: seq<Snapshot<Key>>

    constructor (hot: MemoryStore<Key>, cold: MemoryStore<Key>, policy: AgePolicy)
      ensures this.hot == hot && this.cold == cold && this.policy == policy && views == []
    {
      this.hot, this.cold, this.policy, views := hot, cold, policy, [];
    }

    ghost function Now(): Snapshot<Key>
      reads hot, cold
    {
      View(policy, hot.data, cold.data)
    }

    method Get(k: Key) returns (r: Option<Envelope>)
      ensures r == Lookup(Now(), k)
    {
      r := hot.Get(k);
      if r.None? && !Internal(k.coll) {
        if policy.collections == {} || k.coll in policy.collections {
          r := cold.Get(k);
        }
      }
    }

    /** The stale cold copy is dropped first, on a best-effort basis. False stands for a conflict or,
        with `hotFails`, for a failed hot write. A refused put changes nothing to a reader, exactly
        unless the hot write failed after the only copy, a cold one, was dropped. */
    method Put(k: Key, env: Envelope, expected: Option<int>, coldFails: bool, hotFails: bool) returns (ok: bool)
      requires hot != cold
      modifies hot, cold
      ensures ok == (!hotFails && CasAdmits(old(hot.data), k, expected))
      ensures ok ==> k in hot.data && Now() == old(Now())[k := env]
      ensures !ok ==> (Now() == old(Now()) <==>
        !(hotFails && !coldFails && k !in old(hot.data) && k in old(cold.data) && policy.Eligible(k.coll)))
      ensures forall x :: x != k ==> Lookup(Now(), x) == Lookup(old(Now()), x)
    {
      ghost var before := Now();
      if !Internal(k.coll) && !coldFails {
        cold.Delete(k);
      }
      if hotFails {
        assert k in before <==> k in hot.data || (k in old(cold.data) && policy.Eligible(k.coll));
        assert k in Now() <==> k in hot.data || (k in cold.data && policy.Eligible(k.coll));
        return false;
      }
      ok := hot.Put(k, env, expected);
    }

    /** A delete acts on the one map, exactly unless the cold tier fails while it holds the record. A
        delete whose hot tier fails changes nothing. */
    method Delete(k: Key, coldFails: bool, hotFails: bool) returns (ok: bool)
      requires hot != cold
      modifies hot, cold
      ensures ok == !hotFails
      ensures !ok ==> Now() == old(Now())
      ensures ok ==> (Now() == old(Now()) - {k} <==> !(coldFails && k in old(cold.data) && policy.Eligible(k.coll)))
      ensures forall x :: x != k ==> Lookup(Now(), x) == Lookup(old(Now()), x)
    {
      if hotFails { return false; }
      hot.Delete(k);
      if !Internal(k.coll) && !coldFails {
        cold.Delete(k);
      }
      assert k in Now() <==> coldFails && k in old(cold.data) && policy.Eligible(k.coll);
      ok := true;
    }

    method List(coll: string) returns (ids: set<string>)
      ensures ids == Ids(Now(), coll)
    {
      ids := Ids(hot.data, coll);
      if !Internal(coll) && (policy.collections == {} || coll in policy.collections) {
        ids := ids + Ids(cold.data, coll);
      }
      ghost var all := Ids(Now(), coll);
      forall id
        ensures id in ids <==> id in all
      {
        assert id in all <==> Key(coll, id) in Now();
        assert id in Ids(hot.data, coll) <==> Key(coll, id) in hot.data;
        assert id in Ids(cold.data, coll) <==> Key(coll, id) in cold.data;
      }
    }

    /** Moves one record down: first the cold copy, then the hot delete. */
    method MoveDown(k: Key)
      requires hot != cold && k in hot.data && policy.Eligible(k.coll)
      modifies hot, cold, this
      ensures hot.data == old(hot.data) - {k} && cold.data == old(cold.data)[k := old(hot.data)[k]]
      ensures views == old(views) + [old(Now()), old(Now())]
    {
      ViewAfterMove(policy, hot.data, cold.data, k);
      var envelope := hot.Get(k);
      var _ := cold.Put(k, envelope.value, None);
      views := views + [Now()];
      hot.Delete(k);
      views := views + [Now()];
    }

    /** Moves the record down if it is old. */
    method MoveIfCold(k: Key, cutoff: int) returns (moved: bool)
      requires hot != cold && k in hot.data
      modifies hot, cold, this
      ensures moved <==> policy.IsCold(cutoff, k, old(hot.data)[k])
      ensures hot.data == if moved then old(hot.data) - {k} else old(hot.data)
      ensures cold.data == if moved then old(cold.data)[k := old(hot.data)[k]] else old(cold.data)
      ensures Now() == old(Now())
      ensures views == if moved then old(views) + [old(Now()), old(Now())] else old(views)
    {
      var envelope := hot.Get(k);
      moved := policy.IsCold(cutoff, k, envelope.value);
      if moved {
        ghost var before := views;
        MoveDown(k);
        assert views[|before|] == views[|views| - 1] == old(Now());
        ViewAfterMove(policy, old(hot.data), old(cold.data), k);
      }
    }

    /** Migrates the records older than the cutoff. A reader sees no change, not even between the
        cold write and the hot delete of a record; afterwards no record of the scanned collections
        that is older than the cutoff is left in the hot tier, and the result counts the moves. */
    method Compact(cutoff: int) returns (migrated: nat)
      requires hot != cold
      modifies hot, cold, this
      ensures var colls := if policy.collections != {} then policy.collections else Ids(old(hot.data), "");
        var stale := Stale(policy, cutoff, colls, old(hot.data));
        && Moved(old(hot.data), old(cold.data), stale, hot.data, cold.data)
        && migrated == |stale|
      ensures Now() == old(Now())
      ensures policy.collections != {} ==> forall k :: k in hot.data ==> !policy.IsCold(cutoff, k, hot.data[k])
      ensures old(views) <= views && forall i :: |old(views)| <= i < |views| ==> views[i] == old(Now())
    {
      var colls := if policy.collections != {} then policy.collections else Ids(hot.data, "");
      ghost var hot0, cold0 := hot.data, cold.data;
      ghost var moved;
      migrated, moved := CompactRecords((set k | k in hot.data && k.coll in colls), cutoff);
      assert moved == Stale(policy, cutoff, colls, hot0);
      NothingStaleLeft(policy, cutoff, colls, hot0, cold0, hot.data, cold.data);
    }

    /** One turn of the loop over the records. */
    method MoveNext(k: Key, cutoff: int, ghost hot0: Snapshot<Key>, ghost cold0: Snapshot<Key>, ghost moved: set<Key>) returns (down: bool)
      requires hot != cold && Moved(hot0, cold0, moved, hot.data, cold.data) && k in hot0 && k !in moved
      modifies hot, cold, this
      ensures down <==> policy.IsCold(cutoff, k, hot0[k])
      ensures Moved(hot0, cold0, if down then moved + {k} else moved, hot.data, cold.data)
      ensures Now() == old(Now())
      ensures views == if down then old(views) + [old(Now()), old(Now())] else old(views)
    {
      MovedOneMore(hot0, cold0, moved, hot.data, cold.data, k);
      down := MoveIfCold(k, cutoff);
    }

    method CompactRecords(ids: set<Key>, cutoff: int) returns (migrated: nat, ghost moved: set<Key>)
      requires hot != cold && ids <= hot.data.Keys
      modifies hot, cold, this
      ensures forall k :: k in moved <==> k in ids && policy.IsCold(cutoff, k, old(hot.data)[k])
      ensures Moved(old(hot.data), old(cold.data), moved, hot.data, cold.data) && migrated == |moved|
      ensures Now() == old(Now())
      ensures old(views) <= views && forall i :: |old(views)| <= i < |views| ==> views[i] == old(Now())
    {
      ghost var hot0, cold0, view0, views0 := hot.data, cold.data, Now(), views;
      ghost var isCold := (k: Key) => k in hot0 && policy.IsCold(cutoff, k, hot0[k]);
      var todo := ids;
      migrated, moved := 0, {};
      while todo != {}
        invariant todo <= ids && Scanned(isCold, ids - todo, moved) && migrated == |moved|
        invariant Moved(hot0, cold0, moved, hot.data, cold.data)
        invariant Now() == view0 && OnlySaw(views0, views, view0)
      {
        var k :| k in todo;
        ghost var seen := views;
        var down := MoveNext(k, cutoff, hot0, cold0, moved);
        ScannedOneMore(isCold, ids - todo, moved, k);
        SawTwice(views0, seen, view0);
        assert ids - (todo - {k}) == (ids - todo) + {k};
        moved := if down then moved + {k} else moved;
        if down { migrated := migrated + 1; }
        todo := todo - {k};
      }
    }
  }

  /** The cold ones among the scanned records. */
  ghost predicate Scanned(isCold: Key -> bool, scanned: set<Key>, moved: set<Key>) {
    forall k :: k in moved <==> k in scanned && isCold(k)
  }

  lemma ScannedOneMore(isCold: Key -> bool, scanned: set<Key>, moved: set<Key>, k: Key)
    requires Scanned(isCold, scanned, moved) && k !in scanned
    ensures k !in moved && |moved + {k}| == |moved| + 1
    ensures Scanned(isCold, scanned + {k}, if isCold(k) then moved + {k} else moved)
  {
  }

  ghost predicate OnlySaw(before: seq<Snapshot<Key>>, views: seq<Snapshot<Key>>, view: Snapshot<Key>) {
    before <= views && forall i :: |before| <= i < |views| ==> views[i] == view
  }

  lemma SawTwice(before: seq<Snapshot<Key>>, views: seq<Snapshot<Key>>, view: Snapshot<Key>)
    requires OnlySaw(before, views, view)
    ensures OnlySaw(before, views + [view, view], view)
  {
  }

  lemma NothingStaleLeft(p: AgePolicy, cutoff: int, colls: set<string>, hot0: Snapshot<Key>, cold0: Snapshot<Key>, hot: Snapshot<Key>, cold: Snapshot<Key>)
    requires Moved(hot0, cold0, Stale(p, cutoff, colls, hot0), hot, cold)
    ensures p.collections != {} && colls == p.collections ==> forall k :: k in hot ==> !p.IsCold(cutoff, k, hot[k])
  {
    forall k | k in hot && k.coll in colls
      ensures !p.IsCold(cutoff, k, hot[k])
    {
      assert Lookup(hot, k) == Some(hot[k]);
      assert Lookup(hot0, k) == Some(hot[k]);
    }
  }

  lemma ViewAfterMove(p: AgePolicy, hot: Snapshot<Key>, cold: Snapshot<Key>, k: Key)
    requires k in hot && p.Eligible(k.coll)
    ensures View(p, hot, cold[k := hot[k]]) == View(p, hot, cold)
    ensures View(p, hot - {k}, cold[k := hot[k]]) == View(p, hot, cold)
  {
  }

  // ----- What is old -------------------------------------------------------------------------------------

  const DAY: int := 24 * 60 * 60 * 1000

  /** `Date.now()` less the configured number of days. */
  function Cutoff(now: int, coldAfterDays: int): int {
    now - coldAfterDays * DAY
  }

  /** A compaction takes a record down exactly if it is in the hot tier of a tiered user collection, its
      timestamp can be read, and more than the configured number of days have passed since. */
  lemma StaleIsOlderThanDays(p: AgePolicy, now: int, coldAfterDays: int, hot: Snapshot<Key>, k: Key)
    requires p.collections != {}
    ensures k in Stale(p, Cutoff(now, coldAfterDays), p.collections, hot) <==>
      && k in hot && k.coll in p.collections && !Internal(k.coll)
      && p.millis(hot[k].ts).Some? && now - p.millis(hot[k].ts).value > coldAfterDays * 86_400_000
  {
  }

  // ----- Loading everything ------------------------------------------------------------------------------

  /** `loadAll` of one store: its user records by collection. */
  function LoadAll(m: Snapshot<Key>): Snapshots.VaultSnapshot {
    map c | c in (set k | k in m && !Internal(k.coll) :: k.coll) :: Records(m, c)
  }

  function Records(m: Snapshot<Key>, coll: string): Snapshots.Collection {
    map id | id in Ids(m, coll) :: m[Key(coll, id)]
  }

  lemma LoadedAt(m: Snapshot<Key>, k: Key)
    ensures Snapshots.At(LoadAll(m), k) == if Internal(k.coll) then None else Lookup(m, k)
  {
    assert k.id in Ids(m, k.coll) <==> k in m by {
      if k.id in Ids(m, k.coll) {
        var x :| x in m && x.coll == k.coll && x.id == k.id;
        assert x == k;
      }
    }
  }

  /** `loadAll` of the routed store merges the tiers, the hot one first. */
  function LoadTiers(hot: Snapshot<Key>, cold: Snapshot<Key>): Snapshots.VaultSnapshot {
    Snapshots.MergeAll(map[], [LoadAll(hot), LoadAll(cold)])
  }

  lemma TierAt(hot: Snapshot<Key>, cold: Snapshot<Key>, k: Key)
    requires !Internal(k.coll)
    ensures Snapshots.At(LoadTiers(hot, cold), k) == Snapshots.Later(Lookup(hot, k), Lookup(cold, k))
  {
    var h, c: Snapshots.VaultSnapshot := LoadAll(hot), LoadAll(cold);
    var snaps := [h, c];
    assert snaps[1..] == [c] && snaps[1..][1..] == [];
    var first := Snapshots.Merge(map[], h);
    assert Snapshots.MergeAll(Snapshots.Merge(first, c), []) == Snapshots.Merge(first, c);
    assert Snapshots.MergeAll(first, [c]) == Snapshots.Merge(first, c) by { assert [c][1..] == []; }
    Snapshots.MergeAt(map[], h, k);
    Snapshots.MergeAt(first, c, k);
    LoadedAt(hot, k);
    LoadedAt(cold, k);
  }

  /** The cold copy of a record would not show: the hot one is the same or strictly later, or there is
      none and readers look in the cold tier. */
  predicate ColdCopyAgrees(p: AgePolicy, hot: Snapshot<Key>, k: Key, copy: Envelope) {
    if k in hot then hot[k] == copy || Lex.Lt(copy.ts, hot[k].ts) else p.Eligible(k.coll)
  }

  /** Loading everything shows what reading the user records one by one does, exactly if every cold copy
      agrees: `get` prefers the hot tier, `loadAll` the later timestamp and the cold tier on a tie. */
  lemma LoadAllAgreesExactly(p: AgePolicy, hot: Snapshot<Key>, cold: Snapshot<Key>)
    ensures (forall k: Key :: !Internal(k.coll) ==> Snapshots.At(LoadTiers(hot, cold), k) == Lookup(View(p, hot, cold), k)) <==>
            (forall k :: k in cold && !Internal(k.coll) ==> ColdCopyAgrees(p, hot, k, cold[k]))
  {
    forall k: Key | !Internal(k.coll)
      ensures Snapshots.At(LoadTiers(hot, cold), k) == Lookup(View(p, hot, cold), k) <==>
              (k in cold ==> ColdCopyAgrees(p, hot, k, cold[k]))
    {
      TierAt(hot, cold, k);
      if k in hot && k in cold { LaterIsHotExactly(hot[k], cold[k]); }
    }
  }

  lemma LaterIsHotExactly(h: Envelope, c: Envelope)
    ensures Snapshots.Newer(h, c) == h <==> h == c || Lex.Lt(c.ts, h.ts)
  {
    Lex.Total(h.ts, c.ts);
    if Lex.Le(h.ts, c.ts) && Lex.Le(c.ts, h.ts) { Lex.Antisymmetric(h.ts, c.ts); }
  }
}
