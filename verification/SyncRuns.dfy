/** Runs of puts and of pulls and pushes that may fail, on any number of devices. */
module SyncRuns {
  import opened Wrappers
  import opened Stores
  import opened SyncSpec
  import opened SyncProofs
  import opened SyncDevices

  /** A put by the application, or a part of a sync with any filter and any failures. */
  datatype Action =
    | PutLocal(k: Key, ts: string, data: string)
    | PushSome(select: DirtyEntry -> bool, pushFaults: Faults)
    | PullSome(opts: PullOptions, pullFaults: Faults)

  /** A put writes the next version and tracks it. */
  function PutAndTrack(d: Device, k: Key, ts: string, data: string): Device {
    var v := (if k in d.local then d.local[k].v else 0) + 1;
    Device(d.cfg, d.local[k := Envelope(v, ts, data)], Track(d.log, DirtyEntry(k, PutAction, v)))
  }

  function Act(d: Device, remote: Snapshot<Key>, a: Action): (Device, Snapshot<Key>) {
    match a
    case PutLocal(k, ts, data) => (PutAndTrack(d, k, ts, data), remote)
    case PushSome(select, f) =>
      var (p, log, _) := Push(d.cfg, f, Replicas(d.local, remote), d.log, select);
      (Device(d.cfg, p.local, log), p.remote)
    case PullSome(opts, f) =>
      var (p, log) := Pull(d.cfg, f, opts, Replicas(d.local, remote), d.log);
      (Device(d.cfg, p.local, log), p.remote)
  }

  /** Fit, and every dirty record is there. */
  ghost predicate Good(d: Device, remote: Snapshot<Key>) {
    Fit(d, remote) && forall e :: e in d.log ==> e.key in d.local
  }

  lemma NewDeviceIsGood(cfg: Config, remote: Snapshot<Key>)
    requires SidePicking(cfg)
    ensures Good(Device(cfg, map[], []), remote)
  {
  }

  // ----- What every action keeps -----------------------------------------------------------------------

  lemma PutKeepsGood(d: Device, remote: Snapshot<Key>, k: Key, ts: string, data: string)
    requires Good(d, remote)
    ensures Good(PutAndTrack(d, k, ts, data), remote)
  {
    var d' := PutAndTrack(d, k, ts, data);
    var entry := DirtyEntry(k, PutAction, d'.local[k].v);
    TrackKeepsOneEntryPerRecord(d.log, entry);
    assert entry in d'.log;
    forall x | x in d'.local && !Internal(x.coll) && !IsDirty(d'.log, x)
      ensures x in remote && (remote[x].v > d'.local[x].v || remote[x] == d'.local[x])
    {
      assert x != k;
      assert !IsDirty(d.log, x);
    }
  }

  lemma PushKeepsGood(d: Device, remote: Snapshot<Key>, select: DirtyEntry -> bool, f: Faults)
    requires Good(d, remote)
    ensures var (d', remote') := Act(d, remote, PushSome(select, f)); Good(d', remote')
  {
    var p := Replicas(d.local, remote);
    var (p', log, _) := Push(d.cfg, f, p, d.log, select);
    PushKeepsUnique(d.cfg, f, p, d.log, select);
    PushLog(d.cfg, f, p, d.log, select);
    PushStores(d.cfg, f, p, d.log, select);
    forall e | e in log
      ensures e.action.PutAction? && e.key in p'.local && p'.local[e.key].v == e.version
    {
      LeftoverEntriesKeepTheirRecord(d.cfg, f, p, d.log, select, e);
      assert Lookup(p'.local, e.key) == Some(p.local[e.key]);
    }
    forall k | k in p'.local && !Internal(k.coll) && !IsDirty(log, k)
      ensures k in p'.remote && (p'.remote[k].v > p'.local[k].v || p'.remote[k] == p'.local[k])
    {
      CleanAfterPush(d, remote, select, f, k);
    }
  }

  lemma CleanAfterPush(d: Device, remote: Snapshot<Key>, select: DirtyEntry -> bool, f: Faults, k: Key)
    requires Good(d, remote) && !Internal(k.coll)
    requires var (p', log, _) := Push(d.cfg, f, Replicas(d.local, remote), d.log, select);
      k in p'.local && !IsDirty(log, k)
    ensures var p' := Push(d.cfg, f, Replicas(d.local, remote), d.log, select).0;
      k in p'.remote && (p'.remote[k].v > p'.local[k].v || p'.remote[k] == p'.local[k])
  {
    var p := Replicas(d.local, remote);
    if IsDirty(d.log, k) {
      var e :| e in d.log && e.key == k;
      CompletedEntriesAgree(d.cfg, f, p, d.log, select, e);
    } else {
      PushStores(d.cfg, f, p, d.log, select);
      assert SameAt(Push(d.cfg, f, p, d.log, select).0, p, k);
    }
  }

  /** Pull takes over the remote's envelope or leaves the record and its entry alone. */
  lemma PullPicks(d: Device, remote: Snapshot<Key>, opts: PullOptions, f: Faults, k: Key)
    requires Good(d, remote) && k in remote
    ensures var c := PullAt(d.cfg, f, opts, Replicas(d.local, remote), d.log, k);
      c.Write? ==> c.env == remote[k] && (IsDirty(d.log, k) ==> c.drop)
  {
    if k in d.local {
      var v := HandleConflict(d.cfg, k, d.local[k], remote[k]);
      assert v.KeepLocal? || v.KeepRemote?;
    }
  }

  lemma PullKeepsGood(d: Device, remote: Snapshot<Key>, opts: PullOptions, f: Faults)
    requires Good(d, remote)
    ensures var (d', remote') := Act(d, remote, PullSome(opts, f)); Good(d', remote') && remote' == remote
  {
    var p := Replicas(d.local, remote);
    var (p', log) := Pull(d.cfg, f, opts, p, d.log);
    DropKeepsUnique(d.log, DroppedByPull(d.cfg, f, opts, p, d.log));
    forall e | e in log
      ensures e.key in p'.local && p'.local[e.key].v == e.version
    {
      if e.key in remote { PullPicks(d, remote, opts, f, e.key); }
    }
    forall k | k in p'.local && !Internal(k.coll) && !IsDirty(log, k)
      ensures k in remote && (remote[k].v > p'.local[k].v || remote[k] == p'.local[k])
    {
      CleanAfterPull(d, remote, opts, f, k);
    }
  }

  lemma CleanAfterPull(d: Device, remote: Snapshot<Key>, opts: PullOptions, f: Faults, k: Key)
    requires Good(d, remote) && !Internal(k.coll)
    requires var (p', log) := Pull(d.cfg, f, opts, Replicas(d.local, remote), d.log); k in p'.local && !IsDirty(log, k)
    ensures var p' := Pull(d.cfg, f, opts, Replicas(d.local, remote), d.log).0;
      k in remote && (remote[k].v > p'.local[k].v || remote[k] == p'.local[k])
  {
    var p := Replicas(d.local, remote);
    if k in remote { PullPicks(d, remote, opts, f, k); }
    if IsDirty(d.log, k) {
      var e :| e in d.log && e.key == k;
      assert e !in Drop(d.log, DroppedByPull(d.cfg, f, opts, p, d.log));
    }
  }

  lemma ActKeepsGood(d: Device, remote: Snapshot<Key>, a: Action)
    requires Good(d, remote)
    ensures var (d', remote') := Act(d, remote, a); d'.cfg == d.cfg && Good(d', remote')
  {
    match a {
      case PutLocal(k, ts, data) => PutKeepsGood(d, remote, k, ts, data);
      case PushSome(select, f) => PushKeepsGood(d, remote, select, f);
      case PullSome(opts, f) => PullKeepsGood(d, remote, opts, f);
    }
  }

  // ----- One device --------------------------------------------------------------------------------------

  function ActAll(d: Device, remote: Snapshot<Key>, actions: seq<Action>): (Device, Snapshot<Key>)
    decreases |actions|
  {
    if actions == [] then (d, remote)
    else
      var (d1, remote1) := Act(d, remote, actions[0]);
      ActAll(d1, remote1, actions[1..])
  }

  lemma {:induction false} RunKeepsGood(d: Device, remote: Snapshot<Key>, actions: seq<Action>)
    requires Good(d, remote)
    ensures var (d', remote') := ActAll(d, remote, actions); Good(d', remote')
    decreases |actions|
  {
    if actions != [] {
      ActKeepsGood(d, remote, actions[0]);
      var (d1, remote1) := Act(d, remote, actions[0]);
      RunKeepsGood(d1, remote1, actions[1..]);
    }
  }

  /** After any run of puts and of pulls and pushes that fail in any way, one sync that works empties the
      log and makes the device equal to the remote, under every strategy that picks a side. */
  lemma FailingRunsThenSyncConverge(d: Device, remote: Snapshot<Key>, actions: seq<Action>)
    requires Good(d, remote)
    ensures var (d1, remote1) := ActAll(d, remote, actions);
      var (d2, remote2) := SyncDevice(d1, remote1);
      d2.log == [] && UserRecordsEqual(Replicas(d2.local, remote2))
  {
    RunKeepsGood(d, remote, actions);
    var (d1, remote1) := ActAll(d, remote, actions);
    SyncConverges(d1.cfg, Replicas(d1.local, remote1), d1.log);
  }

  // ----- Many devices ------------------------------------------------------------------------------------

  /** What one device does to the remote moves it ahead, whatever fails. */
  lemma ActMovesAhead(d: Device, remote: Snapshot<Key>, a: Action)
    requires Good(d, remote) && LocalWinsOnlyAhead(d.cfg)
    ensures AheadEverywhere(remote, Act(d, remote, a).1)
  {
    if a.PushSome? {
      forall k: Key | !Internal(k.coll)
        ensures Ahead(Lookup(remote, k), Lookup(Act(d, remote, a).1, k))
      {
        PushMovesRecordAhead(d, remote, a.select, a.pushFaults, k);
      }
    }
  }

  lemma PushMovesRecordAhead(d: Device, remote: Snapshot<Key>, select: DirtyEntry -> bool, f: Faults, k: Key)
    requires Good(d, remote) && LocalWinsOnlyAhead(d.cfg) && !Internal(k.coll)
    ensures Ahead(Lookup(remote, k), Lookup(Push(d.cfg, f, Replicas(d.local, remote), d.log, select).0.remote, k))
  {
    var p := Replicas(d.local, remote);
    var p' := Push(d.cfg, f, p, d.log, select).0;
    PushStores(d.cfg, f, p, d.log, select);
    if exists e :: e in d.log && select(e) && e.key == k {
      var e :| e in d.log && select(e) && e.key == k;
      PushMovesAhead(d.cfg, f, p, e);
      assert SameAt(p', PushEntry(d.cfg, f, p, e).0, k);
    } else {
      assert forall e :: e in d.log && select(e) ==> e.key != k;
      assert SameAt(p', p, k);
    }
  }

  datatype World = World(devices: seq<Device>, remote: Snapshot<Key>)

  /** Device `device` acts. */
  datatype Turn = Turn(device: nat, action: Action)

  function TakeTurn(w: World, t: Turn): World {
    if t.device >= |w.devices| then w
    else
      var (d, remote) := Act(w.devices[t.device], w.remote, t.action);
      World(w.devices[t.device := d], remote)
  }

  function TakeTurns(w: World, turns: seq<Turn>): World
    decreases |turns|
  {
    if turns == [] then w else TakeTurns(TakeTurn(w, turns[0]), turns[1..])
  }

  ghost predicate AllGood(w: World) {
    forall d :: d in w.devices ==> Good(d, w.remote) && LocalWinsOnlyAhead(d.cfg)
  }

  lemma TurnKeepsAllGood(w: World, t: Turn)
    requires AllGood(w)
    ensures AllGood(TakeTurn(w, t))
  {
    if t.device < |w.devices| {
      var d := w.devices[t.device];
      assert d in w.devices;
      var (d', remote') := Act(d, w.remote, t.action);
      ActKeepsGood(d, w.remote, t.action);
      ActMovesAhead(d, w.remote, t.action);
      forall x | x in TakeTurn(w, t).devices
        ensures Good(x, remote') && LocalWinsOnlyAhead(x.cfg)
      {
        if x != d' {
          assert x in w.devices;
          StillFit(x, w.remote, remote');
        }
      }
    }
  }

  lemma {:induction false} TurnsKeepAllGood(w: World, turns: seq<Turn>)
    requires AllGood(w)
    ensures AllGood(TakeTurns(w, turns))
    decreases |turns|
  {
    if turns != [] {
      TurnKeepsAllGood(w, turns[0]);
      TurnsKeepAllGood(TakeTurn(w, turns[0]), turns[1..]);
    }
  }

  /** Any number of devices put, pull and push in any interleaving, with any failures; then two rounds
      of syncs that work make them all equal to the remote, provided that no device lets its own side
      win over a version that is not lower. */
  lemma FailingTurnsThenTwoRoundsConverge(w: World, turns: seq<Turn>)
    requires AllGood(w)
    ensures var w1 := TakeTurns(w, turns);
      ConvergesInTwoRounds(w1.devices, w1.remote)
  {
    TurnsKeepAllGood(w, turns);
    var w1 := TakeTurns(w, turns);
    forall d | d in w1.devices
      ensures Ready(d, w1.remote)
    {
    }
    TwoRoundsConverge(w1.devices, w1.remote);
  }
}
