/** Any number of devices that sync through one remote, one after the other. */
module SyncDevices {
  import opened Wrappers
  import opened Stores
  import opened SyncSpec
  import opened SyncProofs
  import Lex

  datatype Device = Device(cfg: Config, local: Snapshot<Key>, log: DirtyLog)

  function SyncDevice(d: Device, remote: Snapshot<Key>): (Device, Snapshot<Key>) {
    var (p, log) := Sync(d.cfg, Replicas(d.local, remote), d.log);
    (Device(d.cfg, p.local, log), p.remote)
  }

  /** Each device syncs once, in order. */
  function SyncRound(devices: seq<Device>, remote: Snapshot<Key>): (r: (seq<Device>, Snapshot<Key>))
    ensures |r.0| == |devices|
    decreases |devices|
  {
    if devices == [] then ([], remote)
    else
      var (d, remote1) := SyncDevice(devices[0], remote);
      var (rest, remote2) := SyncRound(devices[1..], remote1);
      ([d] + rest, remote2)
  }

  /** The state of a device whose conflicts are decided for one side and which has no pending deletes:
      a dirty entry has the version of its record, a clean record is known remotely. */
  ghost predicate Fit(d: Device, remote: Snapshot<Key>) {
    && SidePicking(d.cfg) && UniqueKeys(d.log)
    && (forall e :: e in d.log ==> e.action.PutAction? && (e.key in d.local ==> d.local[e.key].v == e.version))
    && CleanRecordsKnown(Replicas(d.local, remote), d.log)
  }

  /** The local side of a conflict is kept only if its version is the higher one. */
  ghost predicate LocalWinsOnlyAhead(cfg: Config) {
    forall k: Key, l, r :: !Internal(k.coll) && HandleConflict(cfg, k, l, r).KeepLocal? ==> l.v > r.v || l == r
  }

  /** A record stays, or appears, or moves to a higher version. */
  predicate Ahead(x: Option<Envelope>, y: Option<Envelope>) {
    x == y || (y.Some? && (x.None? || y.value.v > x.value.v))
  }

  ghost predicate AheadEverywhere(remote: Snapshot<Key>, remote': Snapshot<Key>) {
    forall k: Key :: !Internal(k.coll) ==> Ahead(Lookup(remote, k), Lookup(remote', k))
  }

  /** Pushing a device's own record moves the remote ahead. */
  lemma PushMovesAhead(cfg: Config, f: Faults, p: Replicas, e: DirtyEntry)
    requires LocalWinsOnlyAhead(cfg) && SidePicking(cfg) && !Internal(e.key.coll)
    requires e.action.PutAction?
    requires e.key in p.local ==> p.local[e.key].v == e.version || Lookup(p.remote, e.key) == Lookup(p.local, e.key)
    ensures Ahead(Lookup(p.remote, e.key), Lookup(PushEntry(cfg, f, p, e).0.remote, e.key))
  {
    var k := e.key;
    if k in p.local && k in p.remote {
      var v := HandleConflict(cfg, k, p.local[k], p.remote[k]);
      assert v.KeepLocal? || v.KeepRemote?;
      assert v.KeepLocal? ==> p.local[k].v > p.remote[k].v || p.local[k] == p.remote[k];
    }
  }

  /** What pull leaves of a dirty record: its own envelope, or the remote's. */
  lemma PulledDirty(d: Device, remote: Snapshot<Key>, k: Key)
    requires SidePicking(d.cfg) && !Internal(k.coll) && IsDirty(d.log, k)
    ensures var p1 := Pull(d.cfg, {}, PULL_EVERYTHING, Replicas(d.local, remote), d.log).0;
      && p1.remote == remote
      && (Lookup(p1.local, k) == Lookup(d.local, k) || Lookup(p1.local, k) == Lookup(remote, k))
  {
    var p := Replicas(d.local, remote);
    var c := PullAt(d.cfg, {}, PULL_EVERYTHING, p, d.log, k);
    if k in remote && k in d.local {
      var v := HandleConflict(d.cfg, k, d.local[k], remote[k]);
      assert v.KeepLocal? || v.KeepRemote?;
    }
    assert c.Write? ==> c.env == remote[k];
  }

  lemma RecordMovesAhead(d: Device, remote: Snapshot<Key>, k: Key)
    requires Fit(d, remote) && LocalWinsOnlyAhead(d.cfg) && !Internal(k.coll)
    ensures Ahead(Lookup(remote, k), Lookup(SyncDevice(d, remote).1, k))
  {
    var p := Replicas(d.local, remote);
    var p1 := Pull(d.cfg, {}, PULL_EVERYTHING, p, d.log).0;
    SyncAt(d.cfg, p, d.log, k);
    var entry := EntryOf(d.log, k);
    if entry.Some? {
      PulledDirty(d, remote, k);
      PushMovesAhead(d.cfg, {}, p1, entry.value);
    }
  }

  /** A device stays fit while others move the remote ahead. */
  lemma StillFit(d: Device, remote: Snapshot<Key>, remote': Snapshot<Key>)
    requires Fit(d, remote) && AheadEverywhere(remote, remote')
    ensures Fit(d, remote')
  {
    forall k | k in d.local && !Internal(k.coll) && !IsDirty(d.log, k)
      ensures k in remote' && (remote'[k].v > d.local[k].v || remote'[k] == d.local[k])
    {
      assert Ahead(Lookup(remote, k), Lookup(remote', k));
    }
  }

  lemma AheadComposes(a: Snapshot<Key>, b: Snapshot<Key>, c: Snapshot<Key>)
    requires AheadEverywhere(a, b) && AheadEverywhere(b, c)
    ensures AheadEverywhere(a, c)
  {
    forall k: Key | !Internal(k.coll)
      ensures Ahead(Lookup(a, k), Lookup(c, k))
    {
      assert Ahead(Lookup(a, k), Lookup(b, k)) && Ahead(Lookup(b, k), Lookup(c, k));
    }
  }

  /** One device: it ends clean and equal to the remote, which has moved ahead. */
  lemma OneDevice(d: Device, remote: Snapshot<Key>)
    requires Fit(d, remote) && LocalWinsOnlyAhead(d.cfg)
    ensures var (d', remote') := SyncDevice(d, remote);
      d'.log == [] && UserRecordsEqual(Replicas(d'.local, remote')) && AheadEverywhere(remote, remote') && Fit(d', remote')
  {
    SyncConverges(d.cfg, Replicas(d.local, remote), d.log);
    var (d', remote') := SyncDevice(d, remote);
    forall k: Key | !Internal(k.coll)
      ensures Ahead(Lookup(remote, k), Lookup(remote', k))
    {
      RecordMovesAhead(d, remote, k);
    }
    forall k | k in d'.local && !Internal(k.coll)
      ensures k in remote' && remote'[k] == d'.local[k]
    {
      assert Lookup(d'.local, k) == Lookup(remote', k);
    }
  }

  ghost predicate Ready(d: Device, remote: Snapshot<Key>) {
    Fit(d, remote) && LocalWinsOnlyAhead(d.cfg)
  }

  lemma {:induction false} FirstRound(devices: seq<Device>, remote: Snapshot<Key>)
    requires forall d :: d in devices ==> Ready(d, remote)
    ensures var (devices', remote') := SyncRound(devices, remote);
      && AheadEverywhere(remote, remote')
      && (forall d :: d in devices' ==> d.log == [] && Ready(d, remote'))
    decreases |devices|
  {
    if devices != [] {
      assert devices[0] in devices;
      OneDevice(devices[0], remote);
      var (d, remote1) := SyncDevice(devices[0], remote);
      forall x | x in devices[1..]
        ensures Ready(x, remote1)
      {
        assert x in devices;
        StillFit(x, remote, remote1);
      }
      FirstRound(devices[1..], remote1);
      var remote2 := SyncRound(devices[1..], remote1).1;
      StillFit(d, remote1, remote2);
      AheadComposes(remote, remote1, remote2);
    }
  }

  /** Clean devices leave the remote as it is and take over what they lack. */
  lemma {:induction false} SecondRound(devices: seq<Device>, remote: Snapshot<Key>)
    requires forall d :: d in devices ==> d.log == [] && Fit(d, remote)
    ensures var (devices', remote') := SyncRound(devices, remote);
      remote' == remote && forall d :: d in devices' ==> d.log == [] && UserRecordsEqual(Replicas(d.local, remote))
    decreases |devices|
  {
    if devices != [] {
      assert devices[0] in devices;
      SyncConverges(devices[0].cfg, Replicas(devices[0].local, remote), []);
      assert SyncDevice(devices[0], remote).1 == remote;
      SecondRound(devices[1..], remote);
    }
  }

  /** Two rounds make any number of devices equal to the remote, provided that no device lets its own
      side win over a version that is not lower. */
  lemma TwoRoundsConverge(devices: seq<Device>, remote: Snapshot<Key>)
    requires forall d :: d in devices ==> Ready(d, remote)
    ensures var (devices1, remote1) := SyncRound(devices, remote);
      var (devices2, remote2) := SyncRound(devices1, remote1);
      remote2 == remote1 && forall d :: d in devices2 ==> d.log == [] && UserRecordsEqual(Replicas(d.local, remote2))
  {
    FirstRound(devices, remote);
    SecondRound(SyncRound(devices, remote).0, SyncRound(devices, remote).1);
  }

  // ----- The condition is exact ------------------------------------------------------------------------

  /** A device with an own envelope `l` at `k`, and one that has seen the remote's `r`. */
  function Editor(cfg: Config, k: Key, l: Envelope): Device {
    Device(cfg, map[k := l], [DirtyEntry(k, PutAction, l.v)])
  }

  function Reader(cfg: Config, k: Key, r: Envelope): Device {
    Device(cfg, map[k := r], [])
  }

  /** If the editor wins without a higher version, the reader never takes over the editor's record. */
  lemma ReaderStaysBehind(cfg: Config, k: Key, l: Envelope, r: Envelope)
    requires !Internal(k.coll) && HandleConflict(cfg, k, l, r).KeepLocal? && l.v <= r.v
    ensures var (devices1, remote1) := SyncRound([Editor(cfg, k, l), Reader(cfg, k, r)], map[k := r]);
      devices1 == [Reader(cfg, k, l), Reader(cfg, k, r)] && remote1 == map[k := l]
    ensures SyncRound([Reader(cfg, k, l), Reader(cfg, k, r)], map[k := l]) == ([Reader(cfg, k, l), Reader(cfg, k, r)], map[k := l])
  {
    var a, b := Editor(cfg, k, l), Reader(cfg, k, r);
    EditorPushes(cfg, k, l, r);
    ReaderKeeps(cfg, k, r, l);
    ReaderKeeps(cfg, k, l, l);
    RoundOfTwo(a, b, map[k := r]);
    RoundOfTwo(Reader(cfg, k, l), b, map[k := l]);
  }

  lemma RoundOfTwo(a: Device, b: Device, remote: Snapshot<Key>)
    ensures var (a', remote1) := SyncDevice(a, remote);
      var (b', remote2) := SyncDevice(b, remote1);
      SyncRound([a, b], remote) == ([a', b'], remote2)
  {
    var (a', remote1) := SyncDevice(a, remote);
    var (b', remote2) := SyncDevice(b, remote1);
    assert [a, b][1..] == [b] && [b][1..] == [];
    assert SyncRound([], remote2) == ([], remote2);
    assert SyncRound([b], remote1) == ([b'] + [], remote2);
    assert [a'] + [b'] == [a', b'] && [b'] + [] == [b'];
  }

  lemma EditorPushes(cfg: Config, k: Key, l: Envelope, r: Envelope)
    requires !Internal(k.coll) && HandleConflict(cfg, k, l, r).KeepLocal? && l.v <= r.v
    ensures SyncDevice(Editor(cfg, k, l), map[k := r]) == (Reader(cfg, k, l), map[k := l])
  {
    var p, e := Replicas(map[k := l], map[k := r]), DirtyEntry(k, PutAction, l.v);
    assert e in [e];
    assert PullAt(cfg, {}, PULL_EVERYTHING, p, [e], k) == Skip;
    assert PulledLocal(cfg, {}, PULL_EVERYTHING, p, [e]) == map[k := l];
    assert DroppedByPull(cfg, {}, PULL_EVERYTHING, p, [e]) == {};
    assert Drop([e], {}) == [e] by { assert [e][1..] == []; }
    assert [e][1..] == [];
    assert map[k := r][k := l] == map[k := l];
    assert Push(cfg, {}, p, [e], Everything()) == (Replicas(map[k := l], map[k := l]), [], 1) by {
      assert PushEntry(cfg, {}, p, e) == (Replicas(map[k := l], map[k := l]), Pushed);
    }
  }

  lemma ReaderKeeps(cfg: Config, k: Key, r: Envelope, l: Envelope)
    requires l.v <= r.v
    ensures SyncDevice(Reader(cfg, k, r), map[k := l]) == (Reader(cfg, k, r), map[k := l])
  {
    var p := Replicas(map[k := r], map[k := l]);
    assert PullAt(cfg, {}, PULL_EVERYTHING, p, [], k) == Skip;
    assert PulledLocal(cfg, {}, PULL_EVERYTHING, p, []) == map[k := r];
  }

  ghost predicate ConvergesInTwoRounds(devices: seq<Device>, remote: Snapshot<Key>) {
    var (devices1, remote1) := SyncRound(devices, remote);
    var (devices2, remote2) := SyncRound(devices1, remote1);
    forall d :: d in devices2 ==> d.log == [] && UserRecordsEqual(Replicas(d.local, remote2))
  }

  /** For devices with one configuration: they converge from every fit state exactly if the local side
      wins only with the higher version. Taking the remote side always is one such setting; keeping
      the local side, comparing timestamps and comparing versions with ties are not. */
  lemma DevicesConvergeExactly(cfg: Config)
    requires SidePicking(cfg)
    ensures LocalWinsOnlyAhead(cfg) <==>
      forall devices: seq<Device>, remote ::
        (forall d :: d in devices ==> d.cfg == cfg && Fit(d, remote)) ==> ConvergesInTwoRounds(devices, remote)
  {
    if LocalWinsOnlyAhead(cfg) {
      forall devices: seq<Device>, remote | forall d :: d in devices ==> d.cfg == cfg && Fit(d, remote)
        ensures ConvergesInTwoRounds(devices, remote)
      {
        TwoRoundsConverge(devices, remote);
      }
    } else {
      var k: Key, l, r :| !Internal(k.coll) && HandleConflict(cfg, k, l, r).KeepLocal? && l.v <= r.v && l != r;
      ReaderDiverges(cfg, k, l, r);
    }
  }

  lemma ReaderDiverges(cfg: Config, k: Key, l: Envelope, r: Envelope)
    requires SidePicking(cfg) && !Internal(k.coll) && HandleConflict(cfg, k, l, r).KeepLocal? && l.v <= r.v && l != r
    ensures var devices, remote := [Editor(cfg, k, l), Reader(cfg, k, r)], map[k := r];
      (forall d :: d in devices ==> d.cfg == cfg && Fit(d, remote)) && !ConvergesInTwoRounds(devices, remote)
  {
    EditorIsFit(cfg, k, l, r);
    ReaderStaysBehind(cfg, k, l, r);
    LeftBehind([Reader(cfg, k, l), Reader(cfg, k, r)], map[k := l], k);
  }

  lemma EditorIsFit(cfg: Config, k: Key, l: Envelope, r: Envelope)
    requires SidePicking(cfg)
    ensures Fit(Editor(cfg, k, l), map[k := r]) && Fit(Reader(cfg, k, r), map[k := r])
  {
    var e := DirtyEntry(k, PutAction, l.v);
    assert e in [e];
    assert IsDirty([e], k);
  }

  lemma LeftBehind(devices: seq<Device>, remote: Snapshot<Key>, k: Key)
    requires |devices| == 2 && !Internal(k.coll) && Lookup(devices[1].local, k) != Lookup(remote, k)
    ensures !(forall d :: d in devices ==> d.log == [] && UserRecordsEqual(Replicas(d.local, remote)))
  {
    assert devices[1] in devices;
  }

  /** Of the built-in settings only taking the remote side meets the condition. Keeping the local side,
      comparing versions and the first-writer policy let a tie of versions win locally; the last-writer
      policy even lets a lower version win, with the later timestamp. */
  lemma BuiltInSettings(c: string, s: Strategy, early: string, late: string)
    requires !Internal(c) && Lex.Lt(early, late)
    ensures LocalWinsOnlyAhead(Config(map[], RemoteWins))
    ensures !LocalWinsOnlyAhead(Config(map[], LocalWins)) && !LocalWinsOnlyAhead(Config(map[], ByVersion))
    ensures !LocalWinsOnlyAhead(Config(map[c := FirstWriterWins], s))
    ensures var l, r := Envelope(1, late, ""), Envelope(2, early, "");
      HandleConflict(Config(map[c := LastWriterWins], s), Key(c, ""), l, r).KeepLocal?
    ensures !LocalWinsOnlyAhead(Config(map[c := LastWriterWins], s))
  {
    var k, l, r := Key(c, ""), Envelope(1, late, ""), Envelope(2, early, "");
    var tie, tie' := Envelope(1, early, ""), Envelope(1, early, "x");
    assert tie != tie';
    WinsLocallyFromBehind(Config(map[], LocalWins), k, tie, tie');
    WinsLocallyFromBehind(Config(map[], ByVersion), k, tie, tie');
    WinsLocallyFromBehind(Config(map[c := FirstWriterWins], s), k, tie, tie');
    WinsLocallyFromBehind(Config(map[c := LastWriterWins], s), k, l, r);
  }

  lemma WinsLocallyFromBehind(cfg: Config, k: Key, l: Envelope, r: Envelope)
    requires !Internal(k.coll) && l != r && l.v <= r.v
    ensures HandleConflict(cfg, k, l, r).KeepLocal? ==> !LocalWinsOnlyAhead(cfg)
  {
  }
}
