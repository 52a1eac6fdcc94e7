/** Bookkeeping of the dirty log, and exactly when a sync brings two replicas together. */
module SyncProofs {
  import opened Wrappers
  import opened Stores
  import opened SyncSpec

  // ----- The dirty log ---------------------------------------------------------------------------

  lemma UniqueTail(d: DirtyLog)
    requires UniqueKeys(d) && d != []
    ensures UniqueKeys(d[1..]) && forall x :: x in d[1..] ==> x in d && x.key != d[0].key
  {
  }

  lemma UniqueCons(x: DirtyEntry, t: DirtyLog)
    requires UniqueKeys(t) && forall y :: y in t ==> y.key != x.key
    ensures UniqueKeys([x] + t)
  {
    assert forall j :: 0 <= j < |t| ==> t[j] in t;
  }

  /** Tracking a change keeps one entry per record: the new one for this record, the old ones,
      in their places, for all others. */
  lemma {:induction false} TrackKeepsOneEntryPerRecord(d: DirtyLog, e: DirtyEntry)
    requires UniqueKeys(d)
    ensures UniqueKeys(Track(d, e))
    ensures forall x :: x in Track(d, e) <==> x == e || (x in d && x.key != e.key)
    ensures |d| <= |Track(d, e)| && forall i :: 0 <= i < |d| && d[i].key != e.key ==> Track(d, e)[i] == d[i]
  {
    if d != [] {
      var tail := d[1..];
      assert d == [d[0]] + tail;
      UniqueTail(d);
      if d[0].key == e.key {
        UniqueCons(e, tail);
      } else {
        TrackKeepsOneEntryPerRecord(tail, e);
        UniqueCons(d[0], Track(tail, e));
      }
    }
  }

  lemma {:induction false} DropKeepsUnique(d: DirtyLog, dropped: set<Key>)
    requires UniqueKeys(d)
    ensures UniqueKeys(Drop(d, dropped))
  {
    if d != [] {
      UniqueTail(d);
      DropKeepsUnique(d[1..], dropped);
      UniqueCons(d[0], Drop(d[1..], dropped));
    }
  }

  // ----- Push ------------------------------------------------------------------------------------

  /** The two stores agree with `q` at `k`. */
  ghost predicate SameAt(p: Replicas, q: Replicas, k: Key) {
    Lookup(p.local, k) == Lookup(q.local, k) && Lookup(p.remote, k) == Lookup(q.remote, k)
  }

  /** Pushing an entry looks at and changes its own record only. */
  lemma PushEntryIsLocal(cfg: Config, f: Faults, p: Replicas, q: Replicas, e: DirtyEntry)
    requires SameAt(p, q, e.key)
    ensures var (p', o), (q', o') := PushEntry(cfg, f, p, e), PushEntry(cfg, f, q, e);
      && o == o' && SameAt(p', q', e.key)
      && forall k :: k != e.key ==> SameAt(p', p, k)
  {
  }

  ghost predicate Stays(cfg: Config, f: Faults, p: Replicas, select: DirtyEntry -> bool, e: DirtyEntry) {
    select(e) ==> !Completed(PushEntry(cfg, f, p, e).1)
  }

  /** `r` is `d` without the entries that push completes, in the order they were in. */
  ghost predicate Leftover(cfg: Config, f: Faults, p: Replicas, select: DirtyEntry -> bool, d: DirtyLog, r: DirtyLog)
    decreases |d|
  {
    if d == [] then r == []
    else if Stays(cfg, f, p, select, d[0]) then r != [] && r[0] == d[0] && Leftover(cfg, f, p, select, d[1..], r[1..])
    else Leftover(cfg, f, p, select, d[1..], r)
  }

  /** With one entry per record the entries of a push do not interfere: each selected record ends
      as if its entry had been pushed alone, every other record is untouched. */
  lemma {:induction false} PushStores(cfg: Config, f: Faults, p: Replicas, d: DirtyLog, select: DirtyEntry -> bool)
    requires UniqueKeys(d)
    ensures var p' := Push(cfg, f, p, d, select).0;
      && (forall e :: e in d && select(e) ==> SameAt(p', PushEntry(cfg, f, p, e).0, e.key))
      && (forall k :: (forall e :: e in d && select(e) ==> e.key != k) ==> SameAt(p', p, k))
    decreases |d|
  {
    if d != [] {
      var first, rest := d[0], d[1..];
      var p1 := if select(first) then PushEntry(cfg, f, p, first).0 else p;
      PushEntryIsLocal(cfg, f, p, p, first);
      PushStores(cfg, f, p1, rest, select);
      var p' := Push(cfg, f, p1, rest, select).0;
      assert Push(cfg, f, p, d, select).0 == p';
      assert forall x :: x in rest ==> x.key != first.key;
      assert SameAt(p', p1, first.key);
      forall e | e in d && select(e)
        ensures SameAt(p', PushEntry(cfg, f, p, e).0, e.key)
      {
        if e != first {
          assert e in rest;
          PushEntryIsLocal(cfg, f, p1, p, e);
        }
      }
      forall k | forall e :: e in d && select(e) ==> e.key != k
        ensures SameAt(p', p, k)
      {
        assert SameAt(p', p1, k) && SameAt(p1, p, k);
      }
    }
  }

  /** Exactly the completed entries leave the log, and the rest keep their order. */
  lemma {:induction false} PushLog(cfg: Config, f: Faults, p: Replicas, d: DirtyLog, select: DirtyEntry -> bool)
    requires UniqueKeys(d)
    ensures var r := Push(cfg, f, p, d, select).1;
      && (forall e :: e in r <==> e in d && Stays(cfg, f, p, select, e))
      && Leftover(cfg, f, p, select, d, r)
    decreases |d|
  {
    if d != [] {
      var first, rest := d[0], d[1..];
      var p1 := if select(first) then PushEntry(cfg, f, p, first).0 else p;
      PushEntryIsLocal(cfg, f, p, p, first);
      PushLog(cfg, f, p1, rest, select);
      forall e | e in rest
        ensures Stays(cfg, f, p1, select, e) == Stays(cfg, f, p, select, e)
      {
        assert e.key != first.key;
        PushEntryIsLocal(cfg, f, p1, p, e);
      }
      var r' := Push(cfg, f, p1, rest, select).1;
      LeftoverSame(cfg, f, p1, p, select, rest, r');
      assert Push(cfg, f, p, d, select).1 == if Stays(cfg, f, p, select, first) then [first] + r' else r';
      assert forall x :: x in d <==> x == first || x in rest;
    }
  }

  lemma {:induction false} LeftoverSame(cfg: Config, f: Faults, p: Replicas, q: Replicas, select: DirtyEntry -> bool, d: DirtyLog, r: DirtyLog)
    requires forall e :: e in d ==> Stays(cfg, f, p, select, e) == Stays(cfg, f, q, select, e)
    ensures Leftover(cfg, f, p, select, d, r) == Leftover(cfg, f, q, select, d, r)
    decreases |d|
  {
    if d != [] {
      assert d[0] in d;
      if Stays(cfg, f, p, select, d[0]) {
        if r != [] { LeftoverSame(cfg, f, p, q, select, d[1..], r[1..]); }
      } else {
        LeftoverSame(cfg, f, p, q, select, d[1..], r);
      }
    }
  }

  /** A completed put of a record that is present locally leaves both stores with one and the same
      envelope; a completed delete leaves the remote without the record. */
  lemma CompletedEntriesAgree(cfg: Config, f: Faults, p: Replicas, d: DirtyLog, select: DirtyEntry -> bool, e: DirtyEntry)
    requires UniqueKeys(d) && e in d && e !in Push(cfg, f, p, d, select).1
    ensures var p' := Push(cfg, f, p, d, select).0;
      && (e.action.PutAction? && e.key in p.local ==>
            e.key in p'.local && e.key in p'.remote && p'.local[e.key] == p'.remote[e.key])
      && (e.action.DeleteAction? ==> e.key !in p'.remote && Lookup(p'.local, e.key) == Lookup(p.local, e.key))
  {
    PushStores(cfg, f, p, d, select);
    PushLog(cfg, f, p, d, select);
    assert SameAt(Push(cfg, f, p, d, select).0, PushEntry(cfg, f, p, e).0, e.key);
  }

  /** An entry that stays in the log keeps its local envelope. */
  lemma LeftoverEntriesKeepTheirRecord(cfg: Config, f: Faults, p: Replicas, d: DirtyLog, select: DirtyEntry -> bool, e: DirtyEntry)
    requires UniqueKeys(d) && e in Push(cfg, f, p, d, select).1
    ensures Lookup(Push(cfg, f, p, d, select).0.local, e.key) == Lookup(p.local, e.key)
  {
    PushStores(cfg, f, p, d, select);
    PushLog(cfg, f, p, d, select);
    var p' := Push(cfg, f, p, d, select).0;
    if select(e) {
      assert SameAt(p', PushEntry(cfg, f, p, e).0, e.key);
    } else {
      assert forall x :: x in d && select(x) ==> x.key != e.key;
      assert SameAt(p', p, e.key);
    }
  }

  lemma PushKeepsUnique(cfg: Config, f: Faults, p: Replicas, d: DirtyLog, select: DirtyEntry -> bool)
    requires UniqueKeys(d)
    ensures UniqueKeys(Push(cfg, f, p, d, select).1)
  {
    PushLog(cfg, f, p, d, select);
    LeftoverUnique(cfg, f, p, select, d, Push(cfg, f, p, d, select).1);
  }

  lemma {:induction false} LeftoverUnique(cfg: Config, f: Faults, p: Replicas, select: DirtyEntry -> bool, d: DirtyLog, r: DirtyLog)
    requires UniqueKeys(d) && Leftover(cfg, f, p, select, d, r)
    ensures UniqueKeys(r) && forall e :: e in r ==> e in d
    decreases |d|
  {
    if d != [] {
      assert forall x :: x in d[1..] ==> x.key != d[0].key;
      if Stays(cfg, f, p, select, d[0]) {
        LeftoverUnique(cfg, f, p, select, d[1..], r[1..]);
        assert forall j :: 1 <= j < |r| ==> r[j] in r[1..];
        assert forall e :: e in r <==> e == r[0] || e in r[1..];
      } else {
        LeftoverUnique(cfg, f, p, select, d[1..], r);
      }
    }
  }

  // ----- Sync ------------------------------------------------------------------------------------

  function Everything(): DirtyEntry -> bool {
    e => true
  }

  /** `sync()` with all store calls succeeding and no partial-sync options: pull, then push. */
  function Sync(cfg: Config, p: Replicas, d: DirtyLog): (Replicas, DirtyLog) {
    var (p1, d1) := Pull(cfg, {}, PULL_EVERYTHING, p, d);
    var (p2, d2, _) := Push(cfg, {}, p1, d1, Everything());
    (p2, d2)
  }

  /** The state of one record before the sync from which it ends equal on both sides. */
  predicate WillAgree(cfg: Config, k: Key, local: Option<Envelope>, remote: Option<Envelope>, entry: Option<DirtyEntry>) {
    match (entry, local, remote)
    // Nothing to push: the remote must be ahead, or the records already agree.
    case (None, None, _) => true
    case (None, Some(l), None) => false
    case (None, Some(l), Some(r)) => r.v > l.v || l == r
    // A pending delete: pull brings the record back unless it is gone on both sides already, or
    // a conflict on pull replaces the entry by the remote's own envelope.
    case (Some(DirtyEntry(_, DeleteAction, _)), None, None) => true
    case (Some(DirtyEntry(_, DeleteAction, _)), Some(l), Some(r)) =>
      r.v > l.v && (HandleConflict(cfg, k, l, r).KeepRemote? || HandleConflict(cfg, k, l, r) == Merge(r))
    case (Some(DirtyEntry(_, DeleteAction, _)), _, _) => false
    // A pending put: everything but a merge on pull and a deferred conflict is settled.
    case (Some(DirtyEntry(_, PutAction, version)), Some(l), Some(r)) =>
      if r.v > l.v && HandleConflict(cfg, k, l, r).Merge? then HandleConflict(cfg, k, l, r) == Merge(r)
      else l == r || r.v == version - 1 || !HandleConflict(cfg, k, l, r).Defer?
    case (Some(DirtyEntry(_, PutAction, _)), _, _) => true
  }

  ghost function EntryOf(d: DirtyLog, k: Key): (r: Option<DirtyEntry>)
    ensures r.Some? ==> r.value in d && r.value.key == k
    ensures r.None? ==> !IsDirty(d, k)
  {
    if IsDirty(d, k) then var e :| e in d && e.key == k; Some(e) else None
  }

  /** The case analysis behind the next result, for one record: what pull picks, and then what
      pushing its entry does. */
  lemma AgreesByCase(cfg: Config, k: Key, p: Replicas, entry: Option<DirtyEntry>, pick: PullChoice, p1: Replicas, q: Replicas)
    requires !Internal(k.coll) && (entry.Some? ==> entry.value.key == k)
    requires pick == if k in p.remote then PullRecord(cfg, {}, PULL_EVERYTHING, p.local, entry.Some?, k, p.remote[k]) else Skip
    requires Lookup(p1.local, k) == (if pick.Write? then Some(pick.env) else Lookup(p.local, k)) && p1.remote == p.remote
    requires q == if entry.Some? && !(pick.Write? && pick.drop) then PushEntry(cfg, {}, p1, entry.value).0 else p1
    ensures Lookup(q.local, k) == Lookup(q.remote, k) <==> WillAgree(cfg, k, Lookup(p.local, k), Lookup(p.remote, k), entry)
  {
  }

  /** A sync leaves a user record equal on both sides exactly if it was in one of the states
      above: for every conflict strategy and resolver. */
  lemma SyncAgreesExactly(cfg: Config, p: Replicas, d: DirtyLog, k: Key)
    requires UniqueKeys(d) && !Internal(k.coll)
    ensures var p' := Sync(cfg, p, d).0;
      Lookup(p'.local, k) == Lookup(p'.remote, k) <==>
      WillAgree(cfg, k, Lookup(p.local, k), Lookup(p.remote, k), EntryOf(d, k))
  {
    var p1, entry := Pull(cfg, {}, PULL_EVERYTHING, p, d).0, EntryOf(d, k);
    SyncAt(cfg, p, d, k);
    var q := if entry.Some? && k !in DroppedByPull(cfg, {}, PULL_EVERYTHING, p, d) then PushEntry(cfg, {}, p1, entry.value).0 else p1;
    assert SameAt(Sync(cfg, p, d).0, q, k);
    AgreesByCase(cfg, k, p, entry, PullAt(cfg, {}, PULL_EVERYTHING, p, d, k), p1, q);
  }

  /** What a sync does to one record: pull it, and push its entry if pull has not dropped it. */
  lemma SyncAt(cfg: Config, p: Replicas, d: DirtyLog, k: Key)
    requires UniqueKeys(d)
    ensures var p1 := Pull(cfg, {}, PULL_EVERYTHING, p, d).0;
      var entry := EntryOf(d, k);
      SameAt(Sync(cfg, p, d).0,
             if entry.Some? && k !in DroppedByPull(cfg, {}, PULL_EVERYTHING, p, d)
             then PushEntry(cfg, {}, p1, entry.value).0 else p1,
             k)
  {
    var (p1, d1) := Pull(cfg, {}, PULL_EVERYTHING, p, d);
    DropKeepsUnique(d, DroppedByPull(cfg, {}, PULL_EVERYTHING, p, d));
    PushStores(cfg, {}, p1, d1, Everything());
    var entry := EntryOf(d, k);
    if entry.Some? && k !in DroppedByPull(cfg, {}, PULL_EVERYTHING, p, d) {
      assert entry.value in d1 && Everything()(entry.value);
    } else {
      assert forall e :: e in d1 && Everything()(e) ==> e.key != k;
    }
  }

  /** A strategy or resolver that always picks one of the two envelopes. */
  ghost predicate SidePicking(cfg: Config) {
    forall k, l, r :: HandleConflict(cfg, k, l, r).KeepLocal? || HandleConflict(cfg, k, l, r).KeepRemote?
  }

  /** Every record without a pending change is on the remote, at the same version only as the
      same envelope, and never at a lower one. */
  ghost predicate CleanRecordsKnown(p: Replicas, d: DirtyLog) {
    forall k :: k in p.local && !Internal(k.coll) && !IsDirty(d, k) ==>
      k in p.remote && (p.remote[k].v > p.local[k].v || p.remote[k] == p.local[k])
  }

  ghost predicate UserRecordsEqual(p: Replicas) {
    forall k: Key :: !Internal(k.coll) ==> Lookup(p.local, k) == Lookup(p.remote, k)
  }

  /** One sync under a side-picking strategy empties the log and makes the replicas equal. */
  lemma SyncConverges(cfg: Config, p: Replicas, d: DirtyLog)
    requires UniqueKeys(d) && SidePicking(cfg) && CleanRecordsKnown(p, d)
    requires forall e :: e in d ==> e.action.PutAction?
    ensures var (p', d') := Sync(cfg, p, d); d' == [] && UserRecordsEqual(p')
  {
    var (p', d') := Sync(cfg, p, d);
    forall k: Key | !Internal(k.coll)
      ensures Lookup(p'.local, k) == Lookup(p'.remote, k)
    {
      SyncAgreesExactly(cfg, p, d, k);
    }
    var (p1, d1) := Pull(cfg, {}, PULL_EVERYTHING, p, d);
    DropKeepsUnique(d, DroppedByPull(cfg, {}, PULL_EVERYTHING, p, d));
    PushLog(cfg, {}, p1, d1, Everything());
    forall e | e in d1
      ensures !Stays(cfg, {}, p1, Everything(), e)
    {
      assert Completed(PushEntry(cfg, {}, p1, e).1);
    }
    HasMember(d');
  }

  /** A second sync right after changes nothing. */
  lemma ConvergedSyncIsIdle(cfg: Config, p: Replicas)
    requires UserRecordsEqual(p)
    ensures Sync(cfg, p, []) == (p, [])
  {
    assert forall k :: k in p.remote && !Internal(k.coll) ==> Lookup(p.local, k) == Lookup(p.remote, k);
    assert PulledLocal(cfg, {}, PULL_EVERYTHING, p, []) == p.local;
  }

  // ----- Built-in resolvers ----------------------------------------------------------------------

  /** Both built-in policies only ever pick a side, and swapping the replicas swaps the pick
      unless the decisive stamps are equal: two devices resolving the same conflict agree. */
  lemma BuiltInPoliciesAgreeAcrossDevices(k: Key, a: Envelope, b: Envelope)
    ensures a.v != b.v ==> (FirstWriterWins(k, a, b).KeepLocal? <==> FirstWriterWins(k, b, a).KeepRemote?)
    ensures a.ts != b.ts ==> (LastWriterWins(k, a, b).KeepLocal? <==> LastWriterWins(k, b, a).KeepRemote?)
  {
    Lex.Total(a.ts, b.ts);
    if Lex.Le(a.ts, b.ts) && Lex.Le(b.ts, a.ts) { Lex.Antisymmetric(a.ts, b.ts); }
  }
}
