/** How old an answer of the read-through cache can be when others write to the store behind it. */
module CacheAge {
  import opened Wrappers
  import opened Stores
  import opened Cache

  /** An operation through the cache, or any change made to the store by someone else. */
  datatype Event = Through(op: Op) | Behind(store: Snapshot<Address>)

  /** What the store had at some time. */
  datatype Moment = Moment(time: int, store: Snapshot<Address>)

  /** The cache, and everything the store has been, the present last. */
  datatype History = History(cache: Cached, moments: seq<Moment>)

  function Now(h: History): Snapshot<Address>
    requires h.moments != []
  {
    h.moments[|h.moments| - 1].store
  }

  function Next(s: Settings, h: History, e: Event, now: int): History
    requires h.moments != []
  {
    match e
    case Behind(store) => History(h.cache, h.moments + [Moment(now, store)])
    case Through(op) =>
      var (c', m', _) := Step(s, h.cache, Now(h), op, now);
      History(c', h.moments + [Moment(now, m')])
  }

  function After(s: Settings, h: History, events: seq<Event>, times: seq<int>): (r: History)
    requires h.moments != [] && |times| == |events|
    ensures r.moments != []
    decreases |events|
  {
    if events == [] then h else After(s, Next(s, h, events[0], times[0]), events[1..], times[1..])
  }

  /** The store had this envelope for the address at some moment since the given time. */
  ghost predicate HadSince(moments: seq<Moment>, a: Address, env: Option<Envelope>, since: int) {
    exists i :: 0 <= i < |moments| && moments[i].time >= since && Lookup(moments[i].store, a) == env
  }

  /** Every cached envelope is what the store had when it was cached. */
  ghost predicate Honest(scope: iset<Address>, h: History) {
    forall a :: a in scope && CacheKey(a) in h.cache.entries ==>
      HadSince(h.moments, a, h.cache.entries[CacheKey(a)].envelope, h.cache.entries[CacheKey(a)].cachedAt)
  }

  lemma HadStill(moments: seq<Moment>, m: Moment, a: Address, env: Option<Envelope>, since: int)
    requires HadSince(moments, a, env, since)
    ensures HadSince(moments + [m], a, env, since)
  {
    var i :| 0 <= i < |moments| && moments[i].time >= since && Lookup(moments[i].store, a) == env;
    assert (moments + [m])[i] == moments[i];
  }

  lemma HasNow(moments: seq<Moment>, m: Moment, a: Address)
    ensures HadSince(moments + [m], a, Lookup(m.store, a), m.time)
  {
    assert (moments + [m])[|moments|] == m;
  }

  /** An operation leaves each entry as it was, drops it, or caches what the store then has. */
  lemma EntriesAfter(scope: iset<Address>, s: Settings, c: Cached, m: Snapshot<Address>, op: Op, now: int, b: Address)
    requires Separate(scope) && op.a in scope && b in scope
    ensures var (c', m', _) := Step(s, c, m, op, now);
      CacheKey(b) in c'.entries ==>
        (CacheKey(b) in c.entries && c'.entries[CacheKey(b)] == c.entries[CacheKey(b)]) ||
        c'.entries[CacheKey(b)] == Entry(Lookup(m', b), now)
  {
    if CacheKey(b) == CacheKey(op.a) { assert b == op.a; }
  }

  lemma NextIsHonest(scope: iset<Address>, s: Settings, h: History, e: Event, now: int)
    requires Separate(scope) && h.moments != [] && Honest(scope, h) && (e.Through? ==> e.op.a in scope)
    ensures Honest(scope, Next(s, h, e, now))
  {
    var h' := Next(s, h, e, now);
    var last := h'.moments[|h'.moments| - 1];
    forall a | a in scope && CacheKey(a) in h'.cache.entries
      ensures HadSince(h'.moments, a, h'.cache.entries[CacheKey(a)].envelope, h'.cache.entries[CacheKey(a)].cachedAt)
    {
      if e.Through? { EntriesAfter(scope, s, h.cache, Now(h), e.op, now, a); }
      if CacheKey(a) in h.cache.entries && h'.cache.entries[CacheKey(a)] == h.cache.entries[CacheKey(a)] {
        HadStill(h.moments, last, a, h.cache.entries[CacheKey(a)].envelope, h.cache.entries[CacheKey(a)].cachedAt);
      } else {
        HasNow(h.moments, last, a);
      }
    }
  }

  lemma {:induction false} RunIsHonest(scope: iset<Address>, s: Settings, h: History, events: seq<Event>, times: seq<int>)
    requires Separate(scope) && h.moments != [] && |times| == |events| && Honest(scope, h)
    requires forall e :: e in events && e.Through? ==> e.op.a in scope
    ensures Honest(scope, After(s, h, events, times))
    decreases |events|
  {
    if events != [] {
      assert events[0] in events;
      NextIsHonest(scope, s, h, events[0], times[0]);
      RunIsHonest(scope, s, Next(s, h, events[0], times[0]), events[1..], times[1..]);
    }
  }

  /** Whatever others do to the store behind the cache, with an expiry time set an answer is never older than
      that: after any run through an empty cache, a read at time `now` gives what the store had for the
      address at some moment not before `now - ttlMs`. */
  lemma AnswersAreRecent(scope: iset<Address>, s: Settings, start: Moment, events: seq<Event>, times: seq<int>, a: Address, now: int)
    requires Separate(scope) && |times| == |events| && a in scope && s.ttlMs > 0
    requires forall e :: e in events && e.Through? ==> e.op.a in scope
    ensures var h := After(s, History(EMPTY_CACHE, [start]), events, times);
      HadSince(h.moments + [Moment(now, Now(h))], a, GetStep(s, h.cache, Now(h), a, now).1, now - s.ttlMs)
  {
    RunIsHonest(scope, s, History(EMPTY_CACHE, [start]), events, times);
    var h := After(s, History(EMPTY_CACHE, [start]), events, times);
    var k := CacheKey(a);
    if k in h.cache.entries && now - h.cache.entries[k].cachedAt <= s.ttlMs {
      HadStill(h.moments, Moment(now, Now(h)), a, h.cache.entries[k].envelope, h.cache.entries[k].cachedAt);
      LongSince(h.moments + [Moment(now, Now(h))], a, h.cache.entries[k].envelope, h.cache.entries[k].cachedAt, now - s.ttlMs);
    } else {
      HasNow(h.moments, Moment(now, Now(h)), a);
      LongSince(h.moments + [Moment(now, Now(h))], a, Lookup(Now(h), a), now, now - s.ttlMs);
    }
  }

  lemma LongSince(moments: seq<Moment>, a: Address, env: Option<Envelope>, late: int, early: int)
    requires HadSince(moments, a, env, late) && early <= late
    ensures HadSince(moments, a, env, early)
  {
    var i :| 0 <= i < |moments| && moments[i].time >= late && Lookup(moments[i].store, a) == env;
  }

  /** An entry that has not expired, or any entry if nothing expires, spares the store: the read answers from
      it although the store has changed. */
  lemma FreshEntriesAreUsed(s: Settings, c: Cached, m: Snapshot<Address>, a: Address, now: int)
    requires CacheKey(a) in c.entries && (s.ttlMs <= 0 || now <= c.entries[CacheKey(a)].cachedAt + s.ttlMs)
    ensures GetStep(s, c, m, a, now).1 == c.entries[CacheKey(a)].envelope
  {
  }
}
