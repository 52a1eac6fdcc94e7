/** Merging vault snapshots: the router's merge of a list and the bundle store's merge of two. */
module Snapshots {
  import opened Wrappers
  import opened Stores
  import Lex

  type Collection = map<string, Envelope>
  type VaultSnapshot = map<string, Collection>

  /** Last write wins by timestamp; the later snapshot on a tie. */
  function Newer(a: Envelope, b: Envelope): Envelope {
    if Lex.Le(a.ts, b.ts) then b else a
  }

  function MergeCollections(a: Collection, b: Collection): Collection {
    map id | id in a.Keys + b.Keys ::
      if id !in a then b[id] else if id !in b then a[id] else Newer(a[id], b[id])
  }

  /** The merge of two snapshots. */
  function Merge(a: VaultSnapshot, b: VaultSnapshot): VaultSnapshot {
    map c | c in a.Keys + b.Keys ::
      if c !in a then b[c] else if c !in b then a[c] else MergeCollections(a[c], b[c])
  }

  /** The left fold of the two-way merge. */
  function MergeAll(acc: VaultSnapshot, snaps: seq<VaultSnapshot>): VaultSnapshot
    decreases |snaps|
  {
    if snaps == [] then acc else MergeAll(Merge(acc, snaps[0]), snaps[1..])
  }

  // ----- The loops -------------------------------------------------------------------------------------

  /** Overlays the records of one collection. */
  method Overlay(existing: Collection, records: Collection) returns (merged: Collection)
    ensures merged == MergeCollections(existing, records)
  {
    merged := existing;
    var todo := records.Keys;
    while todo != {}
      invariant todo <= records.Keys && merged.Keys == existing.Keys + (records.Keys - todo)
      invariant forall id :: id in merged ==>
        merged[id] == if id in todo || id !in records then existing[id] else MergeCollections(existing, records)[id]
    {
      var id :| id in todo;
      var envelope := records[id];
      if id !in merged || Lex.Le(merged[id].ts, envelope.ts) {
        merged := merged[id := envelope];
      }
      todo := todo - {id};
    }
  }

  /** The bundle store's merge of a remote and a local snapshot. */
  method MergeSnapshots(remote: VaultSnapshot, local: VaultSnapshot) returns (merged: VaultSnapshot)
    ensures merged == Merge(remote, local)
  {
    merged := remote;
    var todo := local.Keys;
    while todo != {}
      invariant todo <= local.Keys && merged.Keys == remote.Keys + (local.Keys - todo)
      invariant forall c :: c in merged ==>
        merged[c] == if c in todo || c !in local then remote[c] else Merge(remote, local)[c]
    {
      var c :| c in todo;
      if c !in merged {
        merged := merged[c := local[c]];
      } else {
        var overlaid := Overlay(merged[c], local[c]);
        merged := merged[c := overlaid];
      }
      todo := todo - {c};
    }
  }

  /** The router's merge of any number of snapshots is the left fold of the merge of two. */
  method MergeSnapshotList(snaps: seq<VaultSnapshot>) returns (merged: VaultSnapshot)
    ensures merged == MergeAll(map[], snaps)
  {
    merged := map[];
    var i := 0;
    while i < |snaps|
      invariant 0 <= i <= |snaps|
      invariant MergeAll(merged, snaps[i..]) == MergeAll(map[], snaps)
    {
      assert snaps[i..][1..] == snaps[i + 1..];
      merged := MergeSnapshots(merged, snaps[i]);
      i := i + 1;
    }
  }

  // ----- Laws ------------------------------------------------------------------------------------------

  lemma NewerAssociative(a: Envelope, b: Envelope, c: Envelope)
    ensures Newer(Newer(a, b), c) == Newer(a, Newer(b, c))
  {
    Lex.Total(a.ts, b.ts); Lex.Total(b.ts, c.ts); Lex.Total(a.ts, c.ts);
    if Lex.Le(a.ts, b.ts) && Lex.Le(b.ts, c.ts) { Lex.Transitive(a.ts, b.ts, c.ts); }
    if Lex.Le(c.ts, b.ts) && Lex.Le(b.ts, a.ts) { Lex.Transitive(c.ts, b.ts, a.ts); }
    if Lex.Le(b.ts, a.ts) && Lex.Le(a.ts, c.ts) { Lex.Transitive(b.ts, a.ts, c.ts); }
  }

  /** The envelope a snapshot has for a record. */
  function At(s: VaultSnapshot, k: Key): Option<Envelope> {
    if k.coll in s then Lookup(s[k.coll], k.id) else None
  }

  function Later(a: Option<Envelope>, b: Option<Envelope>): Option<Envelope> {
    if a.None? then b else if b.None? then a else Some(Newer(a.value, b.value))
  }

  lemma MergeAt(a: VaultSnapshot, b: VaultSnapshot, k: Key)
    ensures At(Merge(a, b), k) == Later(At(a, k), At(b, k))
  {
  }

  /** Snapshots with the same collections and the same envelope for every record are the same. */
  lemma SameEverywhere(a: VaultSnapshot, b: VaultSnapshot)
    requires a.Keys == b.Keys && forall k :: At(a, k) == At(b, k)
    ensures a == b
  {
    forall c | c in a
      ensures a[c] == b[c]
    {
      forall id
        ensures Lookup(a[c], id) == Lookup(b[c], id)
      {
        assert At(a, Key(c, id)) == At(b, Key(c, id));
      }
      assert forall id :: id in a[c] <==> Lookup(a[c], id).Some?;
      assert forall id :: id in b[c] <==> Lookup(b[c], id).Some?;
      assert a[c].Keys == b[c].Keys;
      assert forall id :: id in a[c] ==> Lookup(a[c], id) == Lookup(b[c], id);
    }
  }

  lemma MergeAssociative(a: VaultSnapshot, b: VaultSnapshot, c: VaultSnapshot)
    ensures Merge(Merge(a, b), c) == Merge(a, Merge(b, c))
  {
    var x, y := Merge(Merge(a, b), c), Merge(a, Merge(b, c));
    forall k
      ensures At(x, k) == At(y, k)
    {
      MergeAt(a, b, k); MergeAt(b, c, k); MergeAt(Merge(a, b), c, k); MergeAt(a, Merge(b, c), k);
      if At(a, k).Some? && At(b, k).Some? && At(c, k).Some? {
        NewerAssociative(At(a, k).value, At(b, k).value, At(c, k).value);
      }
    }
    SameEverywhere(x, y);
  }

  lemma MergeIdempotent(a: VaultSnapshot)
    ensures Merge(a, a) == a
  {
    forall k
      ensures At(Merge(a, a), k) == At(a, k)
    {
      MergeAt(a, a, k);
    }
    SameEverywhere(Merge(a, a), a);
  }

  /** An envelope that some snapshot has for the record, with the latest timestamp of all. */
  ghost predicate Latest(snaps: seq<VaultSnapshot>, k: Key, env: Envelope) {
    && (exists i :: 0 <= i < |snaps| && At(snaps[i], k) == Some(env))
    && (forall i :: 0 <= i < |snaps| && At(snaps[i], k).Some? ==> Lex.Le(At(snaps[i], k).value.ts, env.ts))
  }

  ghost predicate SomeHas(snaps: seq<VaultSnapshot>, c: string) {
    exists i :: 0 <= i < |snaps| && c in snaps[i]
  }

  /** A merge loses no collection and no record, invents none, and keeps the latest of each. */
  lemma {:induction false} MergeAllKeepsLatest(snaps: seq<VaultSnapshot>, k: Key)
    requires snaps != []
    ensures var m := At(MergeAll(snaps[0], snaps[1..]), k);
      && (m.None? <==> forall i :: 0 <= i < |snaps| ==> At(snaps[i], k).None?)
      && (m.Some? ==> Latest(snaps, k, m.value))
    ensures forall c :: c in MergeAll(snaps[0], snaps[1..]) <==> SomeHas(snaps, c)
    decreases |snaps|
  {
    if |snaps| == 1 {
      if At(snaps[0], k).Some? { Lex.Reflexive(At(snaps[0], k).value.ts); }
    } else {
      var both := Merge(snaps[0], snaps[1]);
      var rest := [both] + snaps[2..];
      assert rest[1..] == snaps[2..] == snaps[1..][1..];
      MergeAllKeepsLatest(rest, k);
      MergeAt(snaps[0], snaps[1], k);
      MergedPairLatest(snaps, rest, k);
      forall c
        ensures SomeHas(rest, c) <==> SomeHas(snaps, c)
      {
        assert c in rest[0] <==> c in snaps[0] || c in snaps[1];
        assert forall i :: 1 <= i < |rest| ==> rest[i] == snaps[i + 1];
        assert forall i :: 2 <= i < |snaps| ==> snaps[i] == rest[i - 1];
      }
    }
  }

  /** Replacing the first two snapshots by their merge changes neither which records there are nor
      which envelope of each is the latest. */
  lemma MergedPairLatest(snaps: seq<VaultSnapshot>, rest: seq<VaultSnapshot>, k: Key)
    requires |snaps| >= 2 && |rest| == |snaps| - 1
    requires At(rest[0], k) == Later(At(snaps[0], k), At(snaps[1], k))
    requires forall i :: 2 <= i < |snaps| ==> rest[i - 1] == snaps[i]
    ensures (forall i :: 0 <= i < |rest| ==> At(rest[i], k).None?) <==> forall i :: 0 <= i < |snaps| ==> At(snaps[i], k).None?
    ensures forall env :: Latest(rest, k, env) ==> Latest(snaps, k, env)
  {
    var a, b, ab := At(snaps[0], k), At(snaps[1], k), At(rest[0], k);
    assert forall i :: 1 <= i < |rest| ==> rest[i] == snaps[i + 1];
    forall env | Latest(rest, k, env)
      ensures Latest(snaps, k, env)
    {
      var j :| 0 <= j < |rest| && At(rest[j], k) == Some(env);
      if j > 0 { assert At(snaps[j + 1], k) == Some(env); }
      forall i | 0 <= i < |snaps| && At(snaps[i], k).Some?
        ensures Lex.Le(At(snaps[i], k).value.ts, env.ts)
      {
        if i >= 2 {
          assert At(rest[i - 1], k) == At(snaps[i], k);
        } else {
          assert ab.Some? && Lex.Le(ab.value.ts, env.ts);
          if a.Some? && b.Some? { Lex.Total(a.value.ts, b.value.ts); }
          if Lex.Le(At(snaps[i], k).value.ts, ab.value.ts) {
            Lex.Transitive(At(snaps[i], k).value.ts, ab.value.ts, env.ts);
          }
        }
      }
    }
    if forall i :: 0 <= i < |rest| ==> At(rest[i], k).None? {
      assert At(rest[0], k).None?;
      assert forall i :: 2 <= i < |snaps| ==> At(rest[i - 1], k) == At(snaps[i], k);
    }
    if forall i :: 0 <= i < |snaps| ==> At(snaps[i], k).None? {
      assert At(snaps[0], k).None? && At(snaps[1], k).None?;
    }
  }

  predicate SameTime(a: Option<Envelope>, b: Option<Envelope>) {
    a.Some? && b.Some? && a.value.ts == b.value.ts
  }

  /** Two envelopes of one record with the same timestamp are the same envelope. */
  ghost predicate TiesAgree(snaps: seq<VaultSnapshot>) {
    forall i, j, k :: 0 <= i < |snaps| && 0 <= j < |snaps| && SameTime(At(snaps[i], k), At(snaps[j], k)) ==>
      At(snaps[i], k) == At(snaps[j], k)
  }

  /** Snapshots merge to the same result in any order and however often each is repeated, as long
      as equal timestamps mean equal envelopes. */
  lemma MergeIsOrderIndependent(xs: seq<VaultSnapshot>, ys: seq<VaultSnapshot>)
    requires xs != [] && ys != [] && (forall s :: s in xs <==> s in ys) && TiesAgree(xs)
    ensures MergeAll(xs[0], xs[1..]) == MergeAll(ys[0], ys[1..])
  {
    var x, y := MergeAll(xs[0], xs[1..]), MergeAll(ys[0], ys[1..]);
    assert forall i :: 0 <= i < |xs| ==> xs[i] in ys;
    assert forall i :: 0 <= i < |ys| ==> ys[i] in xs;
    forall k: Key
      ensures At(x, k) == At(y, k)
    {
      MergeAllKeepsLatest(xs, k); MergeAllKeepsLatest(ys, k);
      if At(x, k).Some? && At(y, k).Some? {
        SameLatest(xs, ys, k, At(x, k).value, At(y, k).value);
      }
    }
    forall c
      ensures c in x <==> c in y
    {
      MergeAllKeepsLatest(xs, Key(c, "")); MergeAllKeepsLatest(ys, Key(c, ""));
    }
    SameEverywhere(x, y);
  }

  lemma SameLatest(xs: seq<VaultSnapshot>, ys: seq<VaultSnapshot>, k: Key, e: Envelope, f: Envelope)
    requires (forall s :: s in xs <==> s in ys) && TiesAgree(xs) && Latest(xs, k, e) && Latest(ys, k, f)
    ensures e == f
  {
    var i :| 0 <= i < |xs| && At(xs[i], k) == Some(e);
    var j :| 0 <= j < |ys| && At(ys[j], k) == Some(f);
    assert xs[i] in ys && ys[j] in xs;
    var i' :| 0 <= i' < |ys| && ys[i'] == xs[i];
    var j' :| 0 <= j' < |xs| && xs[j'] == ys[j];
    Lex.Antisymmetric(e.ts, f.ts);
    assert At(xs[i], k) == At(xs[j'], k);
  }

  /** Merging into nothing changes nothing. */
  lemma MergeAllFromNothing(snaps: seq<VaultSnapshot>)
    requires snaps != []
    ensures MergeAll(map[], snaps) == MergeAll(snaps[0], snaps[1..])
  {
    var empty: VaultSnapshot := map[];
    forall k
      ensures At(Merge(empty, snaps[0]), k) == At(snaps[0], k)
    {
      MergeAt(empty, snaps[0], k);
    }
    SameEverywhere(Merge(empty, snaps[0]), snaps[0]);
  }

  /** For two snapshots that is also the only case in which the order does not matter. */
  lemma MergeCommutesExactly(a: VaultSnapshot, b: VaultSnapshot)
    ensures Merge(a, b) == Merge(b, a) <==> forall k :: SameTime(At(a, k), At(b, k)) ==> At(a, k) == At(b, k)
  {
    forall k
      ensures At(Merge(a, b), k) == At(Merge(b, a), k) <==> (SameTime(At(a, k), At(b, k)) ==> At(a, k) == At(b, k))
    {
      MergeAt(a, b, k); MergeAt(b, a, k);
      if At(a, k).Some? && At(b, k).Some? {
        var x, y := At(a, k).value.ts, At(b, k).value.ts;
        Lex.Total(x, y);
        if Lex.Le(x, y) && Lex.Le(y, x) { Lex.Antisymmetric(x, y); }
      }
    }
    if forall k :: SameTime(At(a, k), At(b, k)) ==> At(a, k) == At(b, k) {
      SameEverywhere(Merge(a, b), Merge(b, a));
    }
  }
}
