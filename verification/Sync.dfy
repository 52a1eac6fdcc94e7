/** The sync engine: the dirty log and the two stores, updated in place. */
module Sync {
  import opened Wrappers
  import opened Stores
  import opened SyncSpec
  import opened SyncProofs

  // ----- Splicing completed entries out of the log -------------------------------------------------

  /** The first `n` entries without those at the `done` positions. */
  ghost function Keep(d: DirtyLog, done: seq<nat>, n: nat): DirtyLog
    requires n <= |d|
  {
    if n == 0 then [] else Keep(d, done, n - 1) + if n - 1 in done then [] else [d[n - 1]]
  }

  lemma {:induction false} KeepGap(d: DirtyLog, done: seq<nat>, a: nat, b: nat)
    requires a <= b <= |d| && forall i :: a <= i < b ==> i !in done
    ensures Keep(d, done, b) == Keep(d, done, a) + d[a..b]
  {
    if a < b {
      KeepGap(d, done, a, b - 1);
      assert d[a..b] == d[a..b - 1] + [d[b - 1]];
    }
  }

  lemma NoneBetween(done: seq<nat>, j: nat, m: nat)
    requires j < |done| && forall a :: 0 <= a < |done| ==> (a <= j <==> done[a] < m)
    requires forall a, b :: 0 <= a < b < |done| ==> done[a] < done[b]
    ensures done[j] in done && done[j] < m && forall i :: done[j] < i < m ==> i !in done
    ensures forall a :: 0 <= a < |done| ==> (a < j <==> done[a] < done[j])
  {
  }

  lemma SpliceOne(d: DirtyLog, done: seq<nat>, c: nat, m: nat, tail: DirtyLog)
    requires c < m <= |d| && c in done && forall i :: c < i < m ==> i !in done
    ensures var now, tail' := d[..m] + tail, d[c + 1..m] + tail;
      && now[..c] + now[c + 1..] == d[..c] + tail'
      && Keep(d, done, m) + tail == Keep(d, done, c) + tail'
  {
    KeepGap(d, done, c + 1, m);
    assert (Keep(d, done, c) + d[c + 1..m]) + tail == Keep(d, done, c) + (d[c + 1..m] + tail);
  }

  lemma {:induction false} KeepGrows(d: DirtyLog, done: seq<nat>, i: nat, n: nat)
    requires n <= i && n <= |d|
    ensures Keep(d, done + [i], n) == Keep(d, done, n)
  {
    if n > 0 { KeepGrows(d, done, i, n - 1); }
  }

  ghost predicate Ascending(done: seq<nat>, n: nat) {
    && (forall a, b :: 0 <= a < b < |done| ==> done[a] < done[b])
    && (forall a :: 0 <= a < |done| ==> done[a] < n)
  }

  lemma {:induction false} TrackIsUpdate(d: DirtyLog, e: DirtyEntry, idx: nat)
    requires idx <= |d| && forall i :: 0 <= i < idx ==> d[i].key != e.key
    requires idx < |d| ==> d[idx].key == e.key
    ensures Track(d, e) == if idx < |d| then d[idx := e] else d + [e]
  {
    if idx > 0 {
      var tail := d[1..];
      TrackIsUpdate(tail, e, idx - 1);
      assert d == [d[0]] + tail;
      assert if idx < |d| then [d[0]] + tail[idx - 1 := e] == d[idx := e] else [d[0]] + (tail + [e]) == d + [e];
    }
  }

  /** One turn of the push loop at position `i`. */
  lemma PushTurn(cfg: Config, f: Faults, p: Replicas, d: DirtyLog, i: nat, select: DirtyEntry -> bool, p1: Replicas, o: PushOutcome)
    requires i < |d|
    requires (p1, o) == if select(d[i]) then PushEntry(cfg, f, p, d[i]) else (p, Deferred)
    ensures var (p', rest, n) := SyncSpec.Push(cfg, f, p1, d[i + 1..], select);
      SyncSpec.Push(cfg, f, p, d[i..], select) ==
        (p', (if Completed(o) then [] else [d[i]]) + rest, if o.Pushed? then n + 1 else n)
  {
    assert d[i..][1..] == d[i + 1..];
    var rest := SyncSpec.Push(cfg, f, p1, d[i + 1..], select).1;
    assert [] + rest == rest;
  }

  /** The push loop has reached position `i`: what is left to do, put after what is done, is the
      whole push. */
  ghost predicate PushReached(cfg: Config, f: Faults, p0: Replicas, d: DirtyLog, select: DirtyEntry -> bool,
                              p: Replicas, completed: seq<nat>, pushed: nat, i: nat)
    requires i <= |d|
  {
    var (p', rest, n) := SyncSpec.Push(cfg, f, p, d[i..], select);
    SyncSpec.Push(cfg, f, p0, d, select) == (p', Keep(d, completed, i) + rest, pushed + n)
  }

  lemma PushStarts(cfg: Config, f: Faults, p: Replicas, d: DirtyLog, select: DirtyEntry -> bool)
    ensures PushReached(cfg, f, p, d, select, p, [], 0, 0)
  {
    assert d[0..] == d;
    var rest := SyncSpec.Push(cfg, f, p, d, select).1;
    assert [] + rest == rest;
  }

  lemma PushEnds(cfg: Config, f: Faults, p0: Replicas, d: DirtyLog, select: DirtyEntry -> bool,
                 p: Replicas, completed: seq<nat>, pushed: nat)
    requires PushReached(cfg, f, p0, d, select, p, completed, pushed, |d|)
    ensures SyncSpec.Push(cfg, f, p0, d, select) == (p, Keep(d, completed, |d|), pushed)
  {
    var done := Keep(d, completed, |d|);
    assert done + [] == done;
  }

  lemma PushAdvances(cfg: Config, f: Faults, p0: Replicas, d: DirtyLog, select: DirtyEntry -> bool,
                     p: Replicas, completed: seq<nat>, pushed: nat, i: nat, p1: Replicas, o: PushOutcome)
    requires i < |d| && Ascending(completed, i)
    requires PushReached(cfg, f, p0, d, select, p, completed, pushed, i)
    requires (p1, o) == if select(d[i]) then PushEntry(cfg, f, p, d[i]) else (p, Deferred)
    ensures PushReached(cfg, f, p0, d, select, p1, if Completed(o) then completed + [i] else completed,
                        if o.Pushed? then pushed + 1 else pushed, i + 1)
  {
    var (p', rest, n) := SyncSpec.Push(cfg, f, p1, d[i + 1..], select);
    PushTurn(cfg, f, p, d, i, select, p1, o);
    KeepOneMore(d, completed, i, Completed(o), rest);
    var whole := SyncSpec.Push(cfg, f, p0, d, select);
    assert whole.0 == p' && whole.2 == pushed + if o.Pushed? then n + 1 else n;
  }

  lemma KeepOneMore(d: DirtyLog, done: seq<nat>, i: nat, completed: bool, rest: DirtyLog)
    requires i < |d| && Ascending(done, i)
    ensures Keep(d, done, i) + ((if completed then [] else [d[i]]) + rest) ==
            Keep(d, if completed then done + [i] else done, i + 1) + rest
  {
    KeepGrows(d, done, i, i);
    assert i !in done && i in done + [i];
  }

  /** What pull decides for each record. */
  function Picks(cfg: Config, f: Faults, opts: PullOptions, p: Replicas, d: DirtyLog): Key -> PullChoice {
    k => PullAt(cfg, f, opts, p, d, k)
  }

  ghost function DroppedIn(pick: Key -> PullChoice, ks: set<Key>): set<Key> {
    set k | k in ks && pick(k).Write? && pick(k).drop
  }

  ghost function WrittenIn(pick: Key -> PullChoice, ks: set<Key>): set<Key> {
    set k | k in ks && pick(k).Write?
  }

  lemma OneMoreRecord(pick: Key -> PullChoice, ks: set<Key>, k: Key)
    requires k !in ks
    ensures DroppedIn(pick, ks + {k}) == DroppedIn(pick, ks) + (if pick(k).Write? && pick(k).drop then {k} else {})
    ensures |WrittenIn(pick, ks + {k})| == |WrittenIn(pick, ks)| + (if pick(k).Write? then 1 else 0)
  {
    assert WrittenIn(pick, ks + {k}) == WrittenIn(pick, ks) + if pick(k).Write? then {k} else {};
  }

  /** The local store once the records in `ks` have been pulled. */
  ghost predicate PulledSoFar(pick: Key -> PullChoice, local: Snapshot<Key>, ks: set<Key>, now: Snapshot<Key>) {
    forall k :: Lookup(now, k) == if k in ks && pick(k).Write? then Some(pick(k).env) else Lookup(local, k)
  }

  /** The pull loop has been through the records in `ks`. */
  ghost predicate PullReached(pick: Key -> PullChoice, local: Snapshot<Key>, d: DirtyLog, ks: set<Key>,
                              now: Snapshot<Key>, dirty: DirtyLog, pulled: nat) {
    && PulledSoFar(pick, local, ks, now)
    && dirty == Drop(d, DroppedIn(pick, ks))
    && pulled == |WrittenIn(pick, ks)|
  }

  lemma PullAdvances(pick: Key -> PullChoice, local: Snapshot<Key>, d: DirtyLog, ks: set<Key>,
                     now: Snapshot<Key>, dirty: DirtyLog, pulled: nat, k: Key)
    requires PullReached(pick, local, d, ks, now, dirty, pulled) && k !in ks
    ensures PullReached(pick, local, d, ks + {k},
                        if pick(k).Write? then now[k := pick(k).env] else now,
                        if pick(k).Write? && pick(k).drop then Drop(dirty, {k}) else dirty,
                        if pick(k).Write? then pulled + 1 else pulled)
  {
    var dropped := DroppedIn(pick, ks);
    OneMoreRecord(pick, ks, k);
    DropMore(d, dropped, k);
    assert dropped + {} == dropped;
    PulledOneMore(pick, local, ks, now, k);
  }

  lemma PulledOneMore(pick: Key -> PullChoice, local: Snapshot<Key>, ks: set<Key>, now: Snapshot<Key>, k: Key)
    requires PulledSoFar(pick, local, ks, now) && k !in ks
    ensures PulledSoFar(pick, local, ks + {k}, if pick(k).Write? then now[k := pick(k).env] else now)
  {
    var then' := if pick(k).Write? then now[k := pick(k).env] else now;
    forall x
      ensures Lookup(then', x) == if x in ks + {k} && pick(x).Write? then Some(pick(x).env) else Lookup(local, x)
    {
      assert x != k ==> Lookup(then', x) == Lookup(now, x);
    }
  }

  /** Earlier records do not affect the decision for a later one. */
  lemma PullDecides(cfg: Config, f: Faults, opts: PullOptions, p: Replicas, d: DirtyLog, ks: set<Key>,
                    now: Snapshot<Key>, dirty: DirtyLog, pulled: nat, k: Key)
    requires PullReached(Picks(cfg, f, opts, p, d), p.local, d, ks, now, dirty, pulled)
    requires k in p.remote && k !in ks
    ensures PullRecord(cfg, f, opts, now, IsDirty(dirty, k), k, p.remote[k]) == Picks(cfg, f, opts, p, d)(k)
  {
    assert Lookup(now, k) == Lookup(p.local, k);
    DropOthers(d, DroppedIn(Picks(cfg, f, opts, p, d), ks), k);
  }

  lemma PullStarts(pick: Key -> PullChoice, local: Snapshot<Key>, d: DirtyLog)
    ensures PullReached(pick, local, d, {}, local, d, 0)
  {
    DropNothing(d);
    assert DroppedIn(pick, {}) == {};
  }

  lemma PullEnds(cfg: Config, f: Faults, opts: PullOptions, p: Replicas, d: DirtyLog, now: Snapshot<Key>, dirty: DirtyLog, pulled: nat)
    requires PullReached(Picks(cfg, f, opts, p, d), p.local, d, p.remote.Keys, now, dirty, pulled)
    ensures (Replicas(now, p.remote), dirty) == SyncSpec.Pull(cfg, f, opts, p, d)
  {
    var goal := PulledLocal(cfg, f, opts, p, d);
    forall k
      ensures Lookup(now, k) == Lookup(goal, k)
    {
    }
    assert forall k :: k in now <==> Lookup(now, k).Some?;
    assert forall k :: k in goal <==> Lookup(goal, k).Some?;
    assert now.Keys == goal.Keys;
    assert forall k :: k in now ==> Lookup(now, k) == Lookup(goal, k);
    assert now == goal;
    assert DroppedIn(Picks(cfg, f, opts, p, d), p.remote.Keys) == DroppedByPull(cfg, f, opts, p, d);
  }

  class SyncEngine {
    const local: MemoryStore<Key>
    const remote: MemoryStore<Key>
    const cfg: Config
    var dirty: DirtyLog
    /** The log inside the `_sync/meta` record of the local store. */
    var persisted: DirtyLog

    ghost predicate Valid()
      reads this
    {
      local != remote && UniqueKeys(dirty) && persisted == dirty
    }

    ghost function Both(): Replicas
      reads local, remote
    {
      Replicas(local.data, remote.data)
    }

    constructor (local: MemoryStore<Key>, remote: MemoryStore<Key>, cfg: Config)
      requires local != remote
      ensures Valid() && this.local == local && this.remote == remote && this.cfg == cfg && dirty == []
    {
      this.local, this.remote, this.cfg := local, remote, cfg;
      dirty, persisted := [], [];
    }

    /** Loading the persisted log, as after a restart, brings back the log there was. */
    method Reload()
      requires Valid()
      modifies this
      ensures Valid() && dirty == old(dirty)
    {
      dirty := persisted;
    }

    method TrackChange(key: Key, action: Action, version: int)
      requires Valid()
      modifies this
      ensures Valid() && dirty == Track(old(dirty), DirtyEntry(key, action, version))
    {
      var entry := DirtyEntry(key, action, version);
      TrackKeepsOneEntryPerRecord(dirty, entry);
      var idx := 0;
      while idx < |dirty| && dirty[idx].key != key
        invariant 0 <= idx <= |dirty| && dirty == old(dirty)
        invariant forall i :: 0 <= i < idx ==> dirty[i].key != key
      {
        idx := idx + 1;
      }
      TrackIsUpdate(dirty, entry, idx);
      if idx < |dirty| {
        dirty := dirty[idx := entry];
      } else {
        dirty := dirty + [entry];
      }
      persisted := dirty;
    }

    /** One entry of the push loop. The result says whether the entry is completed and pushed. */
    method PushOne(e: DirtyEntry, f: Faults) returns (o: PushOutcome)
      requires local != remote
      modifies local, remote
      ensures (Both(), o) == PushEntry(cfg, f, old(Both()), e)
    {
      var k := e.key;
      if e.action.DeleteAction? {
        if (k, RemoteDelete) in f { return Failed; }
        remote.Delete(k);
        return Pushed;
      }
      if (k, LocalGet) in f { return Failed; }
      var envelope := local.Get(k);
      if envelope.None? { return Vanished; }
      if (k, RemoteCas) in f { return Failed; }
      var stored := remote.Put(k, envelope.value, Some(e.version - 1));
      if stored { return Pushed; }
      if (k, RemoteGet) in f { return Failed; }
      var remoteEnvelope := remote.Get(k);
      match HandleConflict(cfg, k, envelope.value, remoteEnvelope.value) {
        case KeepLocal =>
          if (k, RemoteForce) in f { return Failed; }
          var _ := remote.Put(k, envelope.value, None);
          return Pushed;
        case KeepRemote =>
          if (k, LocalForce) in f { return Failed; }
          var _ := local.Put(k, remoteEnvelope.value, None);
          return TookRemote;
        case Merge(merged) =>
          if (k, RemoteForce) in f { return Failed; }
          var _ := remote.Put(k, merged, None);
          if (k, LocalForce) in f { return Failed; }
          var _ := local.Put(k, merged, None);
          return Pushed;
        case Defer =>
          return Deferred;
      }
    }

    /** `pushFiltered`, of which `push` is the case of a collection filter. */
    method PushFiltered(select: DirtyEntry -> bool, f: Faults) returns (pushed: nat)
      requires Valid()
      modifies this, local, remote
      ensures Valid()
      ensures (Both(), dirty, pushed) == SyncSpec.Push(cfg, f, old(Both()), old(dirty), select)
    {
      ghost var p0, d := Both(), dirty;
      PushKeepsUnique(cfg, f, p0, d, select);
      var completed: seq<nat> := [];
      pushed := 0;
      var i := 0;
      PushStarts(cfg, f, p0, d, select);
      while i < |dirty|
        invariant 0 <= i <= |dirty| && dirty == d && local != remote && persisted == old(persisted)
        invariant Ascending(completed, i)
        invariant PushReached(cfg, f, p0, d, select, Both(), completed, pushed, i)
      {
        completed, pushed := PushNext(select, f, i, completed, pushed, p0);
        i := i + 1;
      }
      PushEnds(cfg, f, p0, d, select, Both(), completed, pushed);
      SpliceCompleted(completed);
      persisted := dirty;
    }

    /** One turn of the push loop. */
    method PushNext(select: DirtyEntry -> bool, f: Faults, i: nat, completed: seq<nat>, pushed: nat, ghost p0: Replicas)
      returns (completed': seq<nat>, pushed': nat)
      requires i < |dirty| && local != remote && Ascending(completed, i)
      requires PushReached(cfg, f, p0, dirty, select, Both(), completed, pushed, i)
      modifies local, remote
      ensures Ascending(completed', i + 1)
      ensures PushReached(cfg, f, p0, dirty, select, Both(), completed', pushed', i + 1)
    {
      var entry := dirty[i];
      ghost var p := Both();
      var o := Deferred;
      if select(entry) { o := PushOne(entry, f); }
      PushAdvances(cfg, f, p0, dirty, select, p, completed, pushed, i, Both(), o);
      completed' := if Completed(o) then completed + [i] else completed;
      pushed' := if o.Pushed? then pushed + 1 else pushed;
    }

    /** Removes the entries at the completed positions, last first. */
    method SpliceCompleted(completed: seq<nat>)
      requires Ascending(completed, |dirty|)
      modifies this`dirty
      ensures dirty == Keep(old(dirty), completed, |old(dirty)|)
    {
      ghost var d := dirty;
      ghost var m: nat := |d|;
      ghost var tail: DirtyLog := [];
      var j := |completed|;
      while j > 0
        invariant 0 <= j <= |completed| && m <= |d|
        invariant forall a :: 0 <= a < |completed| ==> (a < j <==> completed[a] < m)
        invariant dirty == d[..m] + tail
        invariant Keep(d, completed, |d|) == Keep(d, completed, m) + tail
      {
        j := j - 1;
        var c := completed[j];
        NoneBetween(completed, j, m);
        SpliceOne(d, completed, c, m, tail);
        dirty := dirty[..c] + dirty[c + 1..];
        tail := d[c + 1..m] + tail;
        m := c;
      }
      KeepGap(d, completed, 0, m);
    }

    method Push(collections: Option<set<string>>, f: Faults) returns (pushed: nat)
      requires Valid()
      modifies this, local, remote
      ensures Valid()
      ensures (Both(), dirty, pushed) == SyncSpec.Push(cfg, f, old(Both()), old(dirty),
        (e: DirtyEntry) => collections.None? || e.key.coll in collections.value)
    {
      pushed := PushFiltered((e: DirtyEntry) => collections.None? || e.key.coll in collections.value, f);
    }

    /** Pull walks the remote snapshot record by record, in any order. */
    method Pull(opts: PullOptions, f: Faults, snapshotFails: bool) returns (pulled: nat)
      requires Valid()
      modifies this, local
      ensures Valid() && remote.data == old(remote.data)
      ensures snapshotFails ==> Both() == old(Both()) && dirty == old(dirty) && pulled == 0
      ensures !snapshotFails ==> (Both(), dirty) == SyncSpec.Pull(cfg, f, opts, old(Both()), old(dirty))
      ensures !snapshotFails ==> pulled == |WrittenIn(Picks(cfg, f, opts, old(Both()), old(dirty)), remote.data.Keys)|
    {
      pulled := 0;
      if snapshotFails { return; }
      ghost var p0, d0 := Both(), dirty;
      var snapshot := remote.data;
      var todo := snapshot.Keys;
      ghost var done: set<Key> := {};
      ghost var pick := Picks(cfg, f, opts, p0, d0);
      PullStarts(pick, p0.local, d0);
      while todo != {}
        invariant local != remote && remote.data == p0.remote == snapshot
        invariant todo <= snapshot.Keys && done == snapshot.Keys - todo && UniqueKeys(dirty)
        invariant PullReached(pick, p0.local, d0, done, local.data, dirty, pulled)
      {
        var k :| k in todo;
        pulled := PullNext(opts, f, k, snapshot[k], p0, d0, done, pulled);
        todo, done := todo - {k}, done + {k};
      }
      persisted := dirty;
      assert done == p0.remote.Keys;
      PullEnds(cfg, f, opts, p0, d0, local.data, dirty, pulled);
    }

    /** One turn of the pull loop. */
    method PullNext(opts: PullOptions, f: Faults, k: Key, remoteEnvelope: Envelope,
                    ghost p0: Replicas, ghost d0: DirtyLog, ghost done: set<Key>, pulled: nat) returns (pulled': nat)
      requires local != remote && UniqueKeys(dirty)
      requires k in p0.remote && p0.remote[k] == remoteEnvelope && k !in done
      requires PullReached(Picks(cfg, f, opts, p0, d0), p0.local, d0, done, local.data, dirty, pulled)
      modifies this`dirty, local
      ensures UniqueKeys(dirty)
      ensures PullReached(Picks(cfg, f, opts, p0, d0), p0.local, d0, done + {k}, local.data, dirty, pulled')
    {
      PullDecides(cfg, f, opts, p0, d0, done, local.data, dirty, pulled, k);
      PullAdvances(Picks(cfg, f, opts, p0, d0), p0.local, d0, done, local.data, dirty, pulled, k);
      var wrote, drop := PullOne(opts, f, k, remoteEnvelope);
      pulled' := if wrote then pulled + 1 else pulled;
      if drop {
        DropKeepsUnique(dirty, {k});
        dirty := Drop(dirty, {k});
      }
    }

    /** The body of the pull loop for one record. */
    method PullOne(opts: PullOptions, f: Faults, k: Key, remoteEnvelope: Envelope) returns (wrote: bool, drop: bool)
      requires local != remote
      modifies local
      ensures var c := PullRecord(cfg, f, opts, old(local.data), IsDirty(dirty, k), k, remoteEnvelope);
        && wrote == c.Write? && drop == (c.Write? && c.drop)
        && local.data == if c.Write? then old(local.data)[k := c.env] else old(local.data)
    {
      wrote, drop := false, false;
      if Internal(k.coll) || !opts.Takes(k, remoteEnvelope) { return; }
      if (k, LocalGet) in f { return; }
      var localEnvelope := local.Get(k);
      var write := None;
      if localEnvelope.None? {
        write := Some(remoteEnvelope);
      } else if remoteEnvelope.v > localEnvelope.value.v {
        if IsDirty(dirty, k) {
          match HandleConflict(cfg, k, localEnvelope.value, remoteEnvelope) {
            case KeepRemote => write, drop := Some(remoteEnvelope), true;
            case Merge(merged) => write, drop := Some(merged), true;
            case KeepLocal =>
            case Defer =>
          }
        } else {
          write := Some(remoteEnvelope);
        }
      }
      if write.None? { return; }
      if (k, LocalForce) in f { return false, false; }
      var _ := local.Put(k, write.value, None);
      wrote := true;
    }

    /** Pull, then push. */
    method Sync()
      requires Valid()
      modifies this, local, remote
      ensures Valid()
      ensures (Both(), dirty) == SyncProofs.Sync(cfg, old(Both()), old(dirty))
    {
      var _ := Pull(PULL_EVERYTHING, {}, false);
      var _ := PushFiltered(Everything(), {});
    }
  }

  lemma {:induction false} DropNothing(d: DirtyLog)
    ensures Drop(d, {}) == d
  {
    if d != [] { DropNothing(d[1..]); }
  }

  lemma {:induction false} DropMore(d: DirtyLog, dropped: set<Key>, k: Key)
    ensures Drop(Drop(d, dropped), {k}) == Drop(d, dropped + {k})
  {
    if d != [] {
      DropMore(d[1..], dropped, k);
      if d[0].key !in dropped {
        assert Drop(d, dropped)[1..] == Drop(d[1..], dropped);
      }
    }
  }

  /** Dropping other records does not change whether `k` is dirty. */
  lemma DropOthers(d: DirtyLog, dropped: set<Key>, k: Key)
    ensures k !in dropped ==> IsDirty(Drop(d, dropped), k) == IsDirty(d, k)
  {
  }
}
