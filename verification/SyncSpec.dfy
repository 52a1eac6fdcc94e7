/** What push and pull do to a local and a remote store, as functions. */
module SyncSpec {
  import opened Wrappers
  import opened Stores
  import Lex

  // ----- Conflict resolution -------------------------------------------------------------------

  datatype Verdict = KeepLocal | KeepRemote | Merge(merged: Envelope) | Defer

  /** A resolver registered for one collection. */
  type Resolver = (Key, Envelope, Envelope) -> Verdict

  datatype Side = LocalSide | RemoteSide

  datatype Strategy =
    | LocalWins
    | RemoteWins
    | ByVersion
    | Custom(pick: (Key, Envelope, Envelope) -> Side)

  datatype Config = Config(resolvers: map<string, Resolver>, strategy: Strategy)

  function LastWriterWins(k: Key, local: Envelope, remote: Envelope): Verdict {
    if Lex.Le(remote.ts, local.ts) then KeepLocal else KeepRemote
  }

  function FirstWriterWins(k: Key, local: Envelope, remote: Envelope): Verdict {
    if local.v <= remote.v then KeepLocal else KeepRemote
  }

  function LegacyResolve(s: Strategy, k: Key, local: Envelope, remote: Envelope): Side {
    match s
    case LocalWins => LocalSide
    case RemoteWins => RemoteSide
    case ByVersion => if local.v >= remote.v then LocalSide else RemoteSide
    case Custom(pick) => pick(k, local, remote)
  }

  /** The collection's own resolver decides if there is one, otherwise the database strategy. */
  function HandleConflict(cfg: Config, k: Key, local: Envelope, remote: Envelope): Verdict {
    if k.coll in cfg.resolvers then cfg.resolvers[k.coll](k, local, remote)
    else if LegacyResolve(cfg.strategy, k, local, remote).LocalSide? then KeepLocal
    else KeepRemote
  }

  // ----- The dirty log ---------------------------------------------------------------------------

  datatype Action = PutAction | DeleteAction

  datatype DirtyEntry = DirtyEntry(key: Key, action: Action, version: int)

  type DirtyLog = seq<DirtyEntry>

  ghost predicate UniqueKeys(d: DirtyLog) {
    forall i, j :: 0 <= i < j < |d| ==> d[i].key != d[j].key
  }

  predicate IsDirty(d: DirtyLog, k: Key) {
    exists e :: e in d && e.key == k
  }

  /** A new change replaces the entry of the same record, in place. */
  function Track(d: DirtyLog, e: DirtyEntry): DirtyLog {
    if d == [] then [e]
    else if d[0].key == e.key then [e] + d[1..]
    else [d[0]] + Track(d[1..], e)
  }

  function Drop(d: DirtyLog, dropped: set<Key>): (r: DirtyLog)
    ensures forall e :: e in r <==> e in d && e.key !in dropped
  {
    if d == [] then []
    else if d[0].key in dropped then Drop(d[1..], dropped)
    else [d[0]] + Drop(d[1..], dropped)
  }

  // ----- Push ------------------------------------------------------------------------------------

  /** The store calls an operation makes for one record; each may fail. */
  datatype Call = LocalGet | RemoteDelete | RemoteCas | RemoteGet | RemoteForce | LocalForce

  type Faults = set<(Key, Call)>

  datatype Replicas = Replicas(local: Snapshot<Key>, remote: Snapshot<Key>)

  datatype PushOutcome = Pushed | TookRemote | Vanished | Deferred | Failed

  predicate Completed(o: PushOutcome) {
    o.Pushed? || o.TookRemote? || o.Vanished?
  }

  function PushEntry(cfg: Config, f: Faults, p: Replicas, e: DirtyEntry): (Replicas, PushOutcome) {
    var k := e.key;
    if e.action.DeleteAction? then
      if (k, RemoteDelete) in f then (p, Failed) else (p.(remote := p.remote - {k}), Pushed)
    else if (k, LocalGet) in f then (p, Failed)
    else if k !in p.local then (p, Vanished)
    else if (k, RemoteCas) in f then (p, Failed)
    else if CasAdmits(p.remote, k, Some(e.version - 1)) then (p.(remote := p.remote[k := p.local[k]]), Pushed)
    else if (k, RemoteGet) in f then (p, Failed)
    else
      match HandleConflict(cfg, k, p.local[k], p.remote[k])
      case KeepLocal =>
        if (k, RemoteForce) in f then (p, Failed) else (p.(remote := p.remote[k := p.local[k]]), Pushed)
      case KeepRemote =>
        if (k, LocalForce) in f then (p, Failed) else (p.(local := p.local[k := p.remote[k]]), TookRemote)
      case Merge(m) =>
        if (k, RemoteForce) in f then (p, Failed)
        else if (k, LocalForce) in f then (p.(remote := p.remote[k := m]), Failed)
        else (Replicas(p.local[k := m], p.remote[k := m]), Pushed)
      case Defer => (p, Deferred)
  }

  /** Push the selected entries in order. Returns the stores, the entries left over, and how many
      were pushed. */
  function Push(cfg: Config, f: Faults, p: Replicas, d: DirtyLog, select: DirtyEntry -> bool): (Replicas, DirtyLog, nat)
    decreases |d|
  {
    if d == [] then (p, [], 0)
    else if !select(d[0]) then
      var (p', rest, n) := Push(cfg, f, p, d[1..], select);
      (p', [d[0]] + rest, n)
    else
      var (p1, o) := PushEntry(cfg, f, p, d[0]);
      var (p', rest, n) := Push(cfg, f, p1, d[1..], select);
      (p', if Completed(o) then rest else [d[0]] + rest, if o.Pushed? then n + 1 else n)
  }

  // ----- Pull ------------------------------------------------------------------------------------

  /** The partial-sync options: named collections, and only records newer than `since`. */
  datatype PullOptions = PullOptions(collections: Option<set<string>>, since: Option<string>)
  {
    predicate Takes(k: Key, env: Envelope) {
      && (collections.Some? ==> k.coll in collections.value)
      && (since.Some? && since.value != "" ==> !Lex.Le(env.ts, since.value))
    }
  }

  const PULL_EVERYTHING := PullOptions(None, None)

  /** What pull decides for one remote record: the new local envelope, if any is written, and
      whether the record's dirty entry is dropped. */
  datatype PullChoice = Skip | Write(env: Envelope, drop: bool)

  function PullRecord(cfg: Config, f: Faults, opts: PullOptions, local: Snapshot<Key>, dirty: bool, k: Key, env: Envelope): PullChoice {
    if Internal(k.coll) || !opts.Takes(k, env) || (k, LocalGet) in f then Skip
    else if k !in local then (if (k, LocalForce) in f then Skip else Write(env, false))
    else if env.v <= local[k].v then Skip
    else if !dirty then (if (k, LocalForce) in f then Skip else Write(env, false))
    else
      match HandleConflict(cfg, k, local[k], env)
      case KeepRemote => if (k, LocalForce) in f then Skip else Write(env, true)
      case Merge(m) => if (k, LocalForce) in f then Skip else Write(m, true)
      case _ => Skip
  }

  function PullAt(cfg: Config, f: Faults, opts: PullOptions, p: Replicas, d: DirtyLog, k: Key): PullChoice {
    if k in p.remote then PullRecord(cfg, f, opts, p.local, IsDirty(d, k), k, p.remote[k]) else Skip
  }

  function PulledLocal(cfg: Config, f: Faults, opts: PullOptions, p: Replicas, d: DirtyLog): Snapshot<Key> {
    map k | k in p.local.Keys + p.remote.Keys && (k in p.local || PullAt(cfg, f, opts, p, d, k).Write?) ::
      var c := PullAt(cfg, f, opts, p, d, k);
      if c.Write? then c.env else p.local[k]
  }

  function DroppedByPull(cfg: Config, f: Faults, opts: PullOptions, p: Replicas, d: DirtyLog): set<Key> {
    set k | k in p.remote && PullAt(cfg, f, opts, p, d, k).Write? && PullAt(cfg, f, opts, p, d, k).drop :: k
  }

  /** Pull touches the local store and the log only; the records do not affect each other, so the
      order in which the snapshot lists them is of no consequence. */
  function Pull(cfg: Config, f: Faults, opts: PullOptions, p: Replicas, d: DirtyLog): (Replicas, DirtyLog) {
    (p.(local := PulledLocal(cfg, f, opts, p, d)), Drop(d, DroppedByPull(cfg, f, opts, p, d)))
  }
}
