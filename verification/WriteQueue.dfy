/** Suspending a route with a write queue, and replaying the queue on resume. */
module WriteQueue {
  import opened Wrappers
  import opened Stores

  datatype Write = PutWrite(key: Key, env: Envelope, expected: Option<int>) | DeleteWrite(key: Key)

  /** A write whose condition fails leaves the store as it is. */
  function ApplyWrite(m: Snapshot<Key>, w: Write): Snapshot<Key> {
    match w
    case PutWrite(k, env, expected) => if CasAdmits(m, k, expected) then m[k := env] else m
    case DeleteWrite(k) => m - {k}
  }

  predicate Succeeds(m: Snapshot<Key>, w: Write) {
    w.PutWrite? ==> CasAdmits(m, w.key, w.expected)
  }

  function ApplyWrites(m: Snapshot<Key>, ws: seq<Write>): Snapshot<Key>
    decreases |ws|
  {
    if ws == [] then m else ApplyWrites(ApplyWrite(m, ws[0]), ws[1..])
  }

  function Successes(m: Snapshot<Key>, ws: seq<Write>): nat
    decreases |ws|
  {
    if ws == [] then 0
    else (if Succeeds(m, ws[0]) then 1 else 0) + Successes(ApplyWrite(m, ws[0]), ws[1..])
  }

  function LastN(ws: seq<Write>, n: nat): seq<Write> {
    if |ws| <= n then ws else ws[|ws| - n..]
  }

  /** How many writes a queue of this size keeps: the newest write is always kept. */
  function Capacity(maxSize: nat): nat {
    if maxSize == 0 then 1 else maxSize
  }

  datatype Queue = Queue(writes: seq<Write>, maxSize: nat)

  /** At capacity the oldest write makes room. */
  function Enqueue(q: Queue, w: Write): Queue {
    q.(writes := (if |q.writes| >= q.maxSize && q.writes != [] then q.writes[1..] else q.writes) + [w])
  }

  /** A queue that has seen `ws` holds the last ones that fit. */
  lemma EnqueueKeepsTheLast(ws: seq<Write>, w: Write, maxSize: nat)
    ensures Enqueue(Queue(LastN(ws, Capacity(maxSize)), maxSize), w) == Queue(LastN(ws + [w], Capacity(maxSize)), maxSize)
  {
    var n := Capacity(maxSize);
    if |ws| > n {
      assert LastN(ws, n)[1..] + [w] == (ws + [w])[|ws| + 1 - n..];
    }
  }

  /** The newest write is never the one that is lost: what it puts is in the store after the replay, unless
      its condition fails there, and what it deletes is not. */
  lemma NewestWriteCounts(m: Snapshot<Key>, ws: seq<Write>, w: Write, maxSize: nat)
    ensures exists before :: ApplyWrites(m, LastN(ws + [w], Capacity(maxSize))) == ApplyWrite(before, w)
  {
    var n := Capacity(maxSize);
    var kept := if |ws| < n then ws else ws[|ws| + 1 - n..];
    assert LastN(ws + [w], n) == kept + [w];
    ApplyOneMore(m, kept, w);
  }

  lemma {:induction false} ApplyOneMore(m: Snapshot<Key>, ws: seq<Write>, w: Write)
    ensures ApplyWrites(m, ws + [w]) == ApplyWrite(ApplyWrites(m, ws), w)
    decreases |ws|
  {
    if ws == [] {
      assert [w][1..] == [] && ws + [w] == [w];
    } else {
      assert (ws + [w])[1..] == ws[1..] + [w];
      ApplyOneMore(ApplyWrite(m, ws[0]), ws[1..], w);
    }
  }

  class SuspendableStore {
    const store: MemoryStore<Key>
    var suspended: bool
    var queue: Option<Queue>

    constructor (store: MemoryStore<Key>)
      ensures this.store == store && !suspended && queue == None
    {
      this.store, suspended, queue := store, false, None;
    }

    method Suspend(queueing: bool, maxSize: nat)
      modifies this
      ensures suspended && queue == if queueing then Some(Queue([], maxSize)) else old(queue)
    {
      suspended := true;
      if queueing { queue := Some(Queue([], maxSize)); }
    }

    /** True if the write was queued. */
    method MaybeQueueWrite(w: Write) returns (queued: bool)
      modifies this`queue
      ensures queued <==> suspended && old(queue).Some?
      ensures queue == if queued then Some(Enqueue(old(queue).value, w)) else old(queue)
    {
      if !suspended || queue.None? { return false; }
      var writes := queue.value.writes;
      if |writes| >= queue.value.maxSize && writes != [] {
        writes := writes[1..];
      }
      queue := Some(queue.value.(writes := writes + [w]));
      queued := true;
    }

    /** A suspended route without a queue drops the write. */
    method Submit(w: Write)
      modifies this`queue, store
      ensures !suspended ==> store.data == ApplyWrite(old(store.data), w) && queue == old(queue)
      ensures suspended ==> store.data == old(store.data)
      ensures suspended ==> queue == if old(queue).None? then None else Some(Enqueue(old(queue).value, w))
    {
      var queued := MaybeQueueWrite(w);
      if queued || suspended { return; }
      match w {
        case PutWrite(k, env, expected) => var _ := store.Put(k, env, expected);
        case DeleteWrite(k) => store.Delete(k);
      }
    }

    /** Replays the queue in order; a write that conflicts is skipped and not counted. */
    method Resume() returns (replayed: nat)
      modifies this, store
      ensures !suspended && queue == None
      ensures old(queue).None? ==> store.data == old(store.data) && replayed == 0
      ensures old(queue).Some? ==>
        && store.data == ApplyWrites(old(store.data), old(queue).value.writes)
        && replayed == Successes(old(store.data), old(queue).value.writes)
    {
      suspended, replayed := false, 0;
      if queue.None? { return; }
      var writes := queue.value.writes;
      var i := 0;
      while i < |writes|
        invariant 0 <= i <= |writes| && !suspended
        invariant ApplyWrites(store.data, writes[i..]) == ApplyWrites(old(store.data), writes)
        invariant replayed + Successes(store.data, writes[i..]) == Successes(old(store.data), writes)
      {
        assert writes[i..][1..] == writes[i + 1..];
        match writes[i] {
          case PutWrite(k, env, expected) =>
            var ok := store.Put(k, env, expected);
            if ok { replayed := replayed + 1; }
          case DeleteWrite(k) =>
            store.Delete(k);
            replayed := replayed + 1;
        }
        i := i + 1;
      }
      queue := None;
    }

    /** Suspending with a queue, submitting any writes, and resuming is the same as applying the
        writes to the store directly, all of them if they fit in the queue and otherwise the last
        ones that do. */
    method SuspendedRun(ws: seq<Write>, maxSize: nat) returns (replayed: nat)
      requires !suspended
      modifies this, store
      ensures !suspended && queue == None
      ensures store.data == ApplyWrites(old(store.data), LastN(ws, Capacity(maxSize)))
      ensures |ws| <= Capacity(maxSize) ==> store.data == ApplyWrites(old(store.data), ws)
    {
      Suspend(true, maxSize);
      var i := 0;
      while i < |ws|
        invariant 0 <= i <= |ws| && suspended && store.data == old(store.data)
        invariant queue == Some(Queue(LastN(ws[..i], Capacity(maxSize)), maxSize))
      {
        assert ws[..i + 1] == ws[..i] + [ws[i]];
        EnqueueKeepsTheLast(ws[..i], ws[i], maxSize);
        Submit(ws[i]);
        i := i + 1;
      }
      assert ws[..i] == ws;
      replayed := Resume();
    }
  }
}
