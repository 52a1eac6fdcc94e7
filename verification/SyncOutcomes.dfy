/** Which envelope a conflict leaves behind, under each built-in strategy and policy. */
module SyncOutcomes {
  import opened Wrappers
  import opened Stores
  import opened SyncSpec
  import opened SyncProofs
  import Lex

  /** The remote has the record at another version than the pending put was made on. */
  predicate Conflicts(p: Replicas, e: DirtyEntry) {
    e.action.PutAction? && e.key in p.local && e.key in p.remote && p.remote[e.key].v != e.version - 1
  }

  /** Both stores have this envelope for the record. */
  predicate BothHold(p: Replicas, k: Key, env: Envelope) {
    Lookup(p.local, k) == Some(env) && Lookup(p.remote, k) == Some(env)
  }

  ghost predicate HasPolicy(cfg: Config, coll: string, policy: Resolver) {
    coll in cfg.resolvers && cfg.resolvers[coll] == policy
  }

  // ----- Push ------------------------------------------------------------------------------------------

  /** A conflict that push completes ends, on both sides, as each strategy promises. */
  lemma StrategiesDecidePush(cfg: Config, f: Faults, p: Replicas, d: DirtyLog, select: DirtyEntry -> bool, e: DirtyEntry)
    requires UniqueKeys(d) && e in d && Conflicts(p, e) && e !in Push(cfg, f, p, d, select).1
    requires e.key.coll !in cfg.resolvers
    ensures var p', l, r := Push(cfg, f, p, d, select).0, p.local[e.key], p.remote[e.key];
      && (cfg.strategy.ByVersion? ==> BothHold(p', e.key, if l.v >= r.v then l else r))
      && (cfg.strategy.LocalWins? ==> BothHold(p', e.key, l))
      && (cfg.strategy.RemoteWins? ==> BothHold(p', e.key, r))
      && (cfg.strategy.Custom? ==> BothHold(p', e.key, if cfg.strategy.pick(e.key, l, r).LocalSide? then l else r))
  {
    PushLog(cfg, f, p, d, select);
    PushStores(cfg, f, p, d, select);
    assert SameAt(Push(cfg, f, p, d, select).0, PushEntry(cfg, f, p, e).0, e.key);
  }

  /** First-writer-wins leaves the lower version, last-writer-wins the later timestamp, and the local one
      on a tie. */
  lemma PoliciesDecidePush(cfg: Config, f: Faults, p: Replicas, d: DirtyLog, select: DirtyEntry -> bool, e: DirtyEntry)
    requires UniqueKeys(d) && e in d && Conflicts(p, e) && e !in Push(cfg, f, p, d, select).1
    ensures var p', l, r := Push(cfg, f, p, d, select).0, p.local[e.key], p.remote[e.key];
      && (HasPolicy(cfg, e.key.coll, FirstWriterWins) ==> BothHold(p', e.key, if r.v < l.v then r else l))
      && (HasPolicy(cfg, e.key.coll, LastWriterWins) ==> BothHold(p', e.key, if Lex.Lt(l.ts, r.ts) then r else l))
  {
    PushLog(cfg, f, p, d, select);
    PushStores(cfg, f, p, d, select);
    assert SameAt(Push(cfg, f, p, d, select).0, PushEntry(cfg, f, p, e).0, e.key);
    LaterOrNot(p.local[e.key].ts, p.remote[e.key].ts);
  }

  lemma LaterOrNot(a: string, b: string)
    ensures Lex.Lt(a, b) <==> !Lex.Le(b, a)
  {
    Lex.Total(a, b);
    Lex.Reflexive(a);
    if Lex.Le(a, b) && Lex.Le(b, a) { Lex.Antisymmetric(a, b); }
  }

  // ----- Sync ------------------------------------------------------------------------------------------

  /** A pending put on a record that both sides have. */
  ghost predicate PendingPut(p: Replicas, d: DirtyLog, e: DirtyEntry) {
    UniqueKeys(d) && e in d && e.action.PutAction? && e.key in p.local && e.key in p.remote && !Internal(e.key.coll)
    && p.local[e.key].v == e.version
  }

  lemma EntryIs(d: DirtyLog, e: DirtyEntry)
    requires UniqueKeys(d) && e in d
    ensures EntryOf(d, e.key) == Some(e)
  {
    assert IsDirty(d, e.key);
  }

  /** Under the default strategy a sync leaves the greater version of a pending put on both sides, and
      the local one on a tie; nothing else can happen to it. */
  lemma DefaultSyncKeepsGreaterVersion(cfg: Config, p: Replicas, d: DirtyLog, e: DirtyEntry)
    requires PendingPut(p, d, e) && cfg.strategy.ByVersion? && e.key.coll !in cfg.resolvers
    ensures var l, r := p.local[e.key], p.remote[e.key];
      BothHold(Sync(cfg, p, d).0, e.key, if l.v >= r.v then l else r)
  {
    SyncAt(cfg, p, d, e.key);
    EntryIs(d, e);
  }

  /** Under the policies too a sync decides by their own measure; only a put made on the very version
      that the remote has is no conflict and goes through. */
  lemma PoliciesDecideSync(cfg: Config, p: Replicas, d: DirtyLog, e: DirtyEntry)
    requires PendingPut(p, d, e)
    ensures var p', l, r := Sync(cfg, p, d).0, p.local[e.key], p.remote[e.key];
      && (HasPolicy(cfg, e.key.coll, FirstWriterWins) ==> BothHold(p', e.key, if r.v < l.v && r.v != l.v - 1 then r else l))
      && (HasPolicy(cfg, e.key.coll, LastWriterWins) ==> BothHold(p', e.key, if Lex.Lt(l.ts, r.ts) && r.v != l.v - 1 then r else l))
  {
    SyncAt(cfg, p, d, e.key);
    EntryIs(d, e);
    LaterOrNot(p.local[e.key].ts, p.remote[e.key].ts);
  }

  // ----- Nothing is lowered ------------------------------------------------------------------------------

  /** The record is still there, at no lower version. */
  predicate NotLowered(before: Option<Envelope>, after: Option<Envelope>) {
    before.Some? ==> after.Some? && after.value.v >= before.value.v
  }

  predicate NotLoweredAt(p: Replicas, p': Replicas, k: Key) {
    NotLowered(Lookup(p.local, k), Lookup(p'.local, k)) && NotLowered(Lookup(p.remote, k), Lookup(p'.remote, k))
  }

  predicate IsDefault(cfg: Config) {
    cfg.resolvers == map[] && cfg.strategy.ByVersion?
  }

  /** Under the default strategy pushing one put lowers a version exactly if the entry claims the remote's
      version as its base while the local envelope is older than that. */
  lemma DefaultPushLowersExactly(cfg: Config, f: Faults, p: Replicas, e: DirtyEntry)
    requires IsDefault(cfg) && e.action.PutAction? && (e.key, LocalGet) !in f && (e.key, RemoteCas) !in f
    ensures NotLoweredAt(p, PushEntry(cfg, f, p, e).0, e.key) <==>
      !(e.key in p.local && e.key in p.remote && p.remote[e.key].v == e.version - 1 && p.local[e.key].v < e.version - 1)
  {
  }

  /** No entry's version is more than one above that of its record. */
  ghost predicate EntriesSound(p: Replicas, d: DirtyLog) {
    forall e :: e in d ==> e.action.PutAction? && (e.key in p.local ==> e.version - 1 <= p.local[e.key].v)
  }

  lemma DefaultEntryNeverLowers(cfg: Config, f: Faults, p: Replicas, e: DirtyEntry, p': Replicas)
    requires IsDefault(cfg) && e.action.PutAction? && (e.key in p.local ==> e.version - 1 <= p.local[e.key].v)
    requires SameAt(p', PushEntry(cfg, f, p, e).0, e.key)
    ensures NotLoweredAt(p, p', e.key)
  {
  }

  lemma SameIsNotLowered(p: Replicas, p': Replicas, k: Key)
    requires SameAt(p', p, k)
    ensures NotLoweredAt(p, p', k)
  {
  }

  /** Under the default strategy no push lowers any record on either side, whatever fails. */
  lemma DefaultPushNeverLowers(cfg: Config, f: Faults, p: Replicas, d: DirtyLog, select: DirtyEntry -> bool, k: Key)
    requires IsDefault(cfg) && UniqueKeys(d) && EntriesSound(p, d)
    ensures NotLoweredAt(p, Push(cfg, f, p, d, select).0, k)
  {
    PushStores(cfg, f, p, d, select);
    var p' := Push(cfg, f, p, d, select).0;
    if e :| e in d && select(e) && e.key == k {
      DefaultEntryNeverLowers(cfg, f, p, e, p');
    } else {
      assert forall e :: e in d && select(e) ==> e.key != k;
      assert SameAt(p', p, k);
      SameIsNotLowered(p, p', k);
    }
  }

  /** Nor does any pull, with any options. */
  lemma DefaultPullNeverLowers(cfg: Config, f: Faults, opts: PullOptions, p: Replicas, d: DirtyLog, k: Key)
    requires IsDefault(cfg)
    ensures NotLoweredAt(p, Pull(cfg, f, opts, p, d).0, k)
  {
  }

  /** Nor does a sync. */
  lemma DefaultSyncNeverLowers(cfg: Config, p: Replicas, d: DirtyLog, k: Key)
    requires IsDefault(cfg) && UniqueKeys(d) && EntriesSound(p, d)
    ensures NotLoweredAt(p, Sync(cfg, p, d).0, k)
  {
    var (p1, d1) := Pull(cfg, {}, PULL_EVERYTHING, p, d);
    DropKeepsUnique(d, DroppedByPull(cfg, {}, PULL_EVERYTHING, p, d));
    forall e | e in d1 && e.key in p1.local
      ensures e.version - 1 <= p1.local[e.key].v || e.key !in p.local
    {
      DefaultPullNeverLowers(cfg, {}, PULL_EVERYTHING, p, d, e.key);
    }
    DefaultPullNeverLowers(cfg, {}, PULL_EVERYTHING, p, d, k);
    PushAfterPull(cfg, p, p1, d1, k);
  }

  /** After a pull, a record that was missing locally is the remote's own and pushing it changes nothing. */
  lemma PushAfterPull(cfg: Config, p: Replicas, p1: Replicas, d: DirtyLog, k: Key)
    requires IsDefault(cfg) && UniqueKeys(d) && p1.remote == p.remote
    requires forall e :: e in d ==> e.action.PutAction?
    requires forall e :: e in d && e.key in p1.local ==>
      e.version - 1 <= p1.local[e.key].v || Lookup(p1.local, e.key) == Lookup(p.remote, e.key)
    ensures NotLoweredAt(p1, Push(cfg, {}, p1, d, Everything()).0, k)
  {
    PushStores(cfg, {}, p1, d, Everything());
    var p' := Push(cfg, {}, p1, d, Everything()).0;
    if exists e :: e in d && e.key == k {
      var e :| e in d && e.key == k;
      assert Everything()(e);
      assert SameAt(p', PushEntry(cfg, {}, p1, e).0, k);
    } else {
      assert SameAt(p', p1, k);
    }
  }

  // ----- What is counted and what is left alone -----------------------------------------------------------

  /** Whether a push writes or removes the entry's record on the remote by this device's decision. */
  ghost function Counts(cfg: Config, f: Faults, p: Replicas, select: DirtyEntry -> bool): DirtyEntry -> bool {
    (e: DirtyEntry) => select(e) && PushEntry(cfg, f, p, e).1.Pushed?
  }

  ghost function KeysWhere(d: DirtyLog, counts: DirtyEntry -> bool): set<Key> {
    set e | e in d && counts(e) :: e.key
  }

  lemma KeysAgree(d: DirtyLog, counts: DirtyEntry -> bool, counts': DirtyEntry -> bool)
    requires forall e :: e in d ==> counts(e) == counts'(e)
    ensures KeysWhere(d, counts) == KeysWhere(d, counts')
  {
  }

  /** The first entry counts for itself, since no other has its key. */
  lemma KeysSplit(d: DirtyLog, counts: DirtyEntry -> bool)
    requires UniqueKeys(d) && d != []
    ensures |KeysWhere(d, counts)| == |KeysWhere(d[1..], counts)| + if counts(d[0]) then 1 else 0
  {
    var rest := KeysWhere(d[1..], counts);
    assert forall e :: e in d <==> e == d[0] || e in d[1..];
    assert d[0].key !in rest;
    assert KeysWhere(d, counts) == if counts(d[0]) then rest + {d[0].key} else rest;
  }

  /** The number that push reports is that of the records it so decided. */
  lemma {:induction false} PushCounts(cfg: Config, f: Faults, p: Replicas, d: DirtyLog, select: DirtyEntry -> bool)
    requires UniqueKeys(d)
    ensures Push(cfg, f, p, d, select).2 == |KeysWhere(d, Counts(cfg, f, p, select))|
    decreases |d|
  {
    if d != [] {
      var first, rest := d[0], d[1..];
      UniqueTail(d);
      assert d == [first] + rest;
      var p1 := if select(first) then PushEntry(cfg, f, p, first).0 else p;
      PushCounts(cfg, f, p1, rest, select);
      forall e | e in rest
        ensures Counts(cfg, f, p1, select)(e) == Counts(cfg, f, p, select)(e)
      {
        PushEntryIsLocal(cfg, f, p, p, first);
        PushEntryIsLocal(cfg, f, p1, p, e);
      }
      KeysAgree(rest, Counts(cfg, f, p1, select), Counts(cfg, f, p, select));
      KeysSplit(d, Counts(cfg, f, p, select));
    }
  }

  /** A put that is counted leaves the remote with what the local store has, and had unless a resolver merged
      the two; one that is completed without being counted has left the remote as it was. */
  lemma CountedMeansWritten(cfg: Config, f: Faults, p: Replicas, e: DirtyEntry)
    ensures var (p', o) := PushEntry(cfg, f, p, e);
      && (o.Pushed? && e.action.PutAction? ==> e.key in p'.remote && Lookup(p'.remote, e.key) == Lookup(p'.local, e.key))
      && (o.Pushed? && e.action.DeleteAction? ==> e.key !in p'.remote)
      && (o.Pushed? && p'.local != p.local ==>
            e.key.coll in cfg.resolvers && cfg.resolvers[e.key.coll](e.key, p.local[e.key], p.remote[e.key]).Merge?)
      && (Completed(o) && !o.Pushed? ==> p'.remote == p.remote)
  {
  }

  /** Partial sync: a pull leaves alone, with their entries, all records outside the named collections and
      all that are not newer than the given time; and it never touches internal collections. */
  lemma PartialPullSpares(cfg: Config, f: Faults, opts: PullOptions, p: Replicas, d: DirtyLog, k: Key)
    requires (opts.collections.Some? && k.coll !in opts.collections.value)
          || (opts.since.Some? && opts.since.value != "" && k in p.remote && !Lex.Lt(opts.since.value, p.remote[k].ts))
          || Internal(k.coll) || k !in p.remote
    ensures var (p', d') := Pull(cfg, f, opts, p, d);
      Lookup(p'.local, k) == Lookup(p.local, k) && forall e: DirtyEntry :: e.key == k ==> (e in d' <==> e in d)
  {
    if k in p.remote && opts.since.Some? { LaterOrNot(opts.since.value, p.remote[k].ts); }
  }

  /** And it does not pass over any other: without failures a record within the options is there
      afterwards, at no lower version than the remote's unless there is a conflict. */
  lemma PartialPullTakes(cfg: Config, opts: PullOptions, p: Replicas, d: DirtyLog, k: Key)
    requires k in p.remote && !Internal(k.coll) && !IsDirty(d, k)
    requires opts.collections.Some? ==> k.coll in opts.collections.value
    requires opts.since.Some? && opts.since.value != "" ==> Lex.Lt(opts.since.value, p.remote[k].ts)
    ensures var local := Pull(cfg, {}, opts, p, d).0.local;
      k in local && local[k].v >= p.remote[k].v && (k !in p.local || p.remote[k].v > p.local[k].v ==> local[k] == p.remote[k])
  {
    if opts.since.Some? { LaterOrNot(opts.since.value, p.remote[k].ts); }
  }
}
