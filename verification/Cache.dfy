/** The read-through LRU cache in front of a store. */
module Cache {
  import opened Wrappers
  import opened Stores

  datatype Address = Address(vault: string, coll: string, id: string)

  const NUL := '\0'

  /** Vault, collection and id joined by NUL characters. */
  function CacheKey(a: Address): string {
    a.vault + [NUL] + a.coll + [NUL] + a.id
  }

  predicate NulFree(a: Address) {
    NUL !in a.vault && NUL !in a.coll
  }

  /** Joined keys tell addresses apart as long as vault and collection names hold no NUL. */
  lemma CacheKeyInjective(a: Address, b: Address)
    requires NulFree(a) && NulFree(b) && CacheKey(a) == CacheKey(b)
    ensures a == b
  {
    JoinInjective(a.vault, a.coll + [NUL] + a.id, b.vault, b.coll + [NUL] + b.id, CacheKey(a));
    JoinInjective(a.coll, a.id, b.coll, b.id, a.coll + [NUL] + a.id);
  }

  lemma JoinInjective(x: string, rest: string, y: string, rest': string, joined: string)
    requires NUL !in x && NUL !in y
    requires joined == x + [NUL] + rest && joined == y + [NUL] + rest'
    ensures x == y && rest == rest'
  {
    var n, m := |x|, |y|;
    assert forall i | 0 <= i < n :: joined[i] == x[i] != NUL;
    assert forall i | 0 <= i < m :: joined[i] == y[i] != NUL;
    assert joined[n] == NUL && joined[m] == NUL;
    assert x == joined[..n] && y == joined[..m];
    assert rest == joined[n + 1..] && rest' == joined[m + 1..];
  }

  function Nuls(s: string): nat {
    if s == "" then 0 else (if s[0] == NUL then 1 else 0) + Nuls(s[1..])
  }

  lemma {:induction false} NulsAppend(s: string, t: string)
    ensures Nuls(s + t) == Nuls(s) + Nuls(t)
  {
    if s == "" {
      assert s + t == t;
    } else {
      assert (s + t)[1..] == s[1..] + t;
      NulsAppend(s[1..], t);
    }
  }

  lemma {:induction false} NoNuls(s: string)
    ensures Nuls(s) == 0 <==> NUL !in s
  {
    if s != "" {
      NoNuls(s[1..]);
      assert forall c :: c in s <==> c == s[0] || c in s[1..];
    }
  }

  lemma KeyNuls(a: Address)
    ensures Nuls(CacheKey(a)) == 2 + Nuls(a.vault) + Nuls(a.coll) + Nuls(a.id)
  {
    assert Nuls([NUL]) == 1 by { assert [NUL][1..] == ""; }
    NulsAppend(a.vault + [NUL] + a.coll + [NUL], a.id);
    NulsAppend(a.vault + [NUL] + a.coll, [NUL]);
    NulsAppend(a.vault + [NUL], a.coll);
    NulsAppend(a.vault, [NUL]);
  }

  /** Another address with the same key as one that holds a NUL anywhere: the split moves. */
  function Twin(a: Address): Address
    requires NUL in a.vault || NUL in a.coll || NUL in a.id
  {
    if NUL in a.vault then
      var i := FirstNul(a.vault);
      Address(a.vault[..i], a.vault[i + 1..] + [NUL] + a.coll, a.id)
    else if NUL in a.coll then
      var i := FirstNul(a.coll);
      Address(a.vault, a.coll[..i], a.coll[i + 1..] + [NUL] + a.id)
    else
      var i := FirstNul(a.id);
      Address(a.vault + [NUL] + a.coll, a.id[..i], a.id[i + 1..])
  }

  function FirstNul(s: string): (i: nat)
    requires NUL in s
    ensures i < |s| && s[i] == NUL
  {
    if s[0] == NUL then 0 else 1 + FirstNul(s[1..])
  }

  lemma SplitAtNul(s: string)
    requires NUL in s
    ensures s == s[..FirstNul(s)] + [NUL] + s[FirstNul(s) + 1..]
  {
  }

  lemma Associates(x: string, y: string, z: string)
    ensures (x + y) + z == x + (y + z)
  {
  }

  /** Moving the split between vault and collection does not change the key. */
  lemma VaultSplitMoves(x: string, y: string, coll: string, id: string)
    ensures CacheKey(Address(x + [NUL] + y, coll, id)) == CacheKey(Address(x, y + [NUL] + coll, id))
  {
    Associates(x + [NUL], y, [NUL]);
    Associates(x + [NUL], y + [NUL], coll);
  }

  /** Nor does moving the one between collection and id. */
  lemma IdSplitMoves(vault: string, x: string, y: string, id: string)
    ensures CacheKey(Address(vault, x + [NUL] + y, id)) == CacheKey(Address(vault, x, y + [NUL] + id))
  {
    var head := vault + [NUL] + x + [NUL];
    Associates(vault + [NUL], x, [NUL]);
    Associates(vault + [NUL], x + [NUL], y);
    Associates(head, y, [NUL]);
    Associates(head, y + [NUL], id);
  }

  lemma TwinCollides(a: Address)
    requires NUL in a.vault || NUL in a.coll || NUL in a.id
    ensures Twin(a) != a && CacheKey(Twin(a)) == CacheKey(a)
  {
    if NUL in a.vault {
      VaultTwin(a);
    } else if NUL in a.coll {
      CollectionTwin(a);
    } else {
      IdTwin(a);
    }
  }

  lemma VaultTwin(a: Address)
    requires NUL in a.vault
    ensures Twin(a) != a && CacheKey(Twin(a)) == CacheKey(a)
  {
    SplitAtNul(a.vault);
    VaultSplitMoves(Twin(a).vault, a.vault[FirstNul(a.vault) + 1..], a.coll, a.id);
    assert |Twin(a).vault| < |a.vault|;
  }

  lemma CollectionTwin(a: Address)
    requires NUL !in a.vault && NUL in a.coll
    ensures Twin(a) != a && CacheKey(Twin(a)) == CacheKey(a)
  {
    SplitAtNul(a.coll);
    IdSplitMoves(a.vault, Twin(a).coll, a.coll[FirstNul(a.coll) + 1..], a.id);
    assert |Twin(a).coll| < |a.coll|;
  }

  lemma IdTwin(a: Address)
    requires NUL !in a.vault && NUL !in a.coll && NUL in a.id
    ensures Twin(a) != a && CacheKey(Twin(a)) == CacheKey(a)
  {
    var b := Twin(a);
    SplitAtNul(a.id);
    VaultSplitMoves(a.vault, a.coll, b.coll, b.id);
    IdSplitMoves(a.vault, a.coll, b.coll, b.id);
    assert |b.vault| > |a.vault|;
  }

  /** An address has its key to itself exactly if it holds no NUL at all, in its id included. */
  lemma CacheKeyCollides(a: Address)
    ensures (forall b :: CacheKey(b) == CacheKey(a) ==> b == a) <==> NUL !in a.vault && NUL !in a.coll && NUL !in a.id
  {
    if NUL in a.vault || NUL in a.coll || NUL in a.id {
      TwinCollides(a);
    } else {
      forall b | CacheKey(b) == CacheKey(a)
        ensures b == a
      {
        KeyNuls(a); KeyNuls(b);
        NoNuls(a.vault); NoNuls(a.coll); NoNuls(a.id);
        NoNuls(b.vault); NoNuls(b.coll);
        CacheKeyInjective(a, b);
      }
    }
  }

  datatype Entry = Entry(envelope: Option<Envelope>, cachedAt: int)

  // ----- Runs, without a cache ---------------------------------------------------------------------------

  /** `fails` makes the wrapped store throw before it changes anything. */
  datatype Op =
    | GetOp(a: Address)
    | PutOp(a: Address, env: Envelope, expected: Option<int>, fails: bool)
    | DeleteOp(a: Address, fails: bool)

  datatype Answer = Found(env: Option<Envelope>) | Ok | Thrown

  function Direct(m: Snapshot<Address>, op: Op): (Snapshot<Address>, Answer) {
    match op
    case GetOp(a) => (m, Found(Lookup(m, a)))
    case PutOp(a, env, expected, fails) =>
      if fails || !CasAdmits(m, a, expected) then (m, Thrown) else (m[a := env], Ok)
    case DeleteOp(a, fails) => if fails then (m, Thrown) else (m - {a}, Ok)
  }

  function DirectRun(m: Snapshot<Address>, ops: seq<Op>): (Snapshot<Address>, seq<Answer>)
    decreases |ops|
  {
    if ops == [] then (m, [])
    else
      var (m1, answer) := Direct(m, ops[0]);
      var (m2, rest) := DirectRun(m1, ops[1..]);
      (m2, [answer] + rest)
  }

  // ----- The cache as a value ----------------------------------------------------------------------------

  datatype Settings = Settings(maxEntries: nat, ttlMs: int)

  /** The cache map: its keys in insertion order, and its entries. */
  datatype Cached = Cached(order: seq<string>, entries: map<string, Entry>)

  const EMPTY_CACHE := Cached([], map[])

  /** The key has an entry that has not expired. */
  predicate Live(s: Settings, c: Cached, k: string, now: int) {
    k in c.entries && !(s.ttlMs > 0 && now - c.entries[k].cachedAt > s.ttlMs)
  }

  function Dropped(c: Cached, k: string): Cached {
    Cached(Without(c.order, k), c.entries - {k})
  }

  /** A key that is used moves to the end. */
  function Used(c: Cached, k: string): Cached {
    Cached(Without(c.order, k) + [k], c.entries)
  }

  /** At capacity the first key of the map makes room. */
  function Added(s: Settings, c: Cached, k: string, entry: Entry): Cached {
    if |c.order| >= s.maxEntries && c.order != [] then
      Cached(c.order[1..] + [k], (c.entries - {c.order[0]})[k := entry])
    else Cached(c.order + [k], c.entries[k := entry])
  }

  function GetStep(s: Settings, c: Cached, m: Snapshot<Address>, a: Address, now: int): (Cached, Option<Envelope>) {
    var k := CacheKey(a);
    if Live(s, c, k, now) then (Used(c, k), c.entries[k].envelope)
    else (Added(s, Dropped(c, k), k, Entry(Lookup(m, a), now)), Lookup(m, a))
  }

  /** One operation on the cache and the store behind it. */
  function Step(s: Settings, c: Cached, m: Snapshot<Address>, op: Op, now: int): (Cached, Snapshot<Address>, Answer) {
    match op
    case GetOp(a) =>
      var (c', r) := GetStep(s, c, m, a, now);
      (c', m, Found(r))
    case PutOp(a, env, expected, fails) =>
      var d := Dropped(c, CacheKey(a));
      if fails || !CasAdmits(m, a, expected) then (d, m, Thrown)
      else (Added(s, d, CacheKey(a), Entry(Some(env), now)), m[a := env], Ok)
    case DeleteOp(a, fails) =>
      if fails then (Dropped(c, CacheKey(a)), m, Thrown) else (Dropped(c, CacheKey(a)), m - {a}, Ok)
  }

  function CachedRun(s: Settings, c: Cached, m: Snapshot<Address>, ops: seq<Op>, times: seq<int>): (Cached, Snapshot<Address>, seq<Answer>)
    requires |times| == |ops|
    decreases |ops|
  {
    if ops == [] then (c, m, [])
    else
      var (c1, m1, answer) := Step(s, c, m, ops[0], times[0]);
      var (c2, m2, rest) := CachedRun(s, c1, m1, ops[1..], times[1..]);
      (c2, m2, [answer] + rest)
  }

  // ----- Transparency ------------------------------------------------------------------------------------

  /** No two of the addresses share a key. */
  ghost predicate Separate(scope: iset<Address>) {
    forall a, b :: a in scope && b in scope && CacheKey(a) == CacheKey(b) ==> a == b
  }

  /** Names without NUL are one such scope. */
  lemma NulFreeIsSeparate()
    ensures Separate(iset a | NulFree(a))
  {
    forall a, b | NulFree(a) && NulFree(b) && CacheKey(a) == CacheKey(b)
      ensures a == b
    {
      CacheKeyInjective(a, b);
    }
  }

  /** Every envelope cached for an address of the scope is what the store has. */
  ghost predicate Transparent(scope: iset<Address>, entries: map<string, Entry>, m: Snapshot<Address>) {
    forall a :: a in scope && CacheKey(a) in entries ==> entries[CacheKey(a)].envelope == Lookup(m, a)
  }

  lemma DroppedStaysTransparent(scope: iset<Address>, c: Cached, m: Snapshot<Address>, m': Snapshot<Address>, a: Address)
    requires Separate(scope) && a in scope && Transparent(scope, c.entries, m)
    requires forall b :: b != a ==> Lookup(m', b) == Lookup(m, b)
    ensures Transparent(scope, Dropped(c, CacheKey(a)).entries, m')
  {
    forall b | b in scope && CacheKey(b) in Dropped(c, CacheKey(a)).entries
      ensures c.entries[CacheKey(b)].envelope == Lookup(m', b)
    {
      assert b != a;
    }
  }

  lemma AddedStaysTransparent(scope: iset<Address>, s: Settings, c: Cached, m: Snapshot<Address>, a: Address, now: int)
    requires Separate(scope) && a in scope && Transparent(scope, c.entries, m)
    ensures Transparent(scope, Added(s, c, CacheKey(a), Entry(Lookup(m, a), now)).entries, m)
  {
    forall b | b in scope && CacheKey(b) in Added(s, c, CacheKey(a), Entry(Lookup(m, a), now)).entries
      ensures Added(s, c, CacheKey(a), Entry(Lookup(m, a), now)).entries[CacheKey(b)].envelope == Lookup(m, b)
    {
      if CacheKey(b) == CacheKey(a) { assert b == a; }
    }
  }

  /** One operation answers as the bare store does and leaves the cache transparent. */
  lemma StepIsTransparent(scope: iset<Address>, s: Settings, c: Cached, m: Snapshot<Address>, op: Op, now: int)
    requires Separate(scope) && op.a in scope && Transparent(scope, c.entries, m)
    ensures var (c', m', answer) := Step(s, c, m, op, now);
      (m', answer) == Direct(m, op) && Transparent(scope, c'.entries, m')
  {
    var a := op.a;
    var m' := Direct(m, op).0;
    if !(op.GetOp? && Live(s, c, CacheKey(a), now)) {
      DroppedStaysTransparent(scope, c, m, m', a);
      AddedStaysTransparent(scope, s, Dropped(c, CacheKey(a)), m', a, now);
    }
  }

  lemma {:induction false} RunIsTransparent(scope: iset<Address>, s: Settings, c: Cached, m: Snapshot<Address>, ops: seq<Op>, times: seq<int>)
    requires |times| == |ops| && Separate(scope) && Transparent(scope, c.entries, m)
    requires forall op :: op in ops ==> op.a in scope
    ensures var (c', m', answers) := CachedRun(s, c, m, ops, times);
      (m', answers) == DirectRun(m, ops) && Transparent(scope, c'.entries, m')
    decreases |ops|
  {
    if ops != [] {
      assert ops[0] in ops;
      StepIsTransparent(scope, s, c, m, ops[0], times[0]);
      var (c1, m1, _) := Step(s, c, m, ops[0], times[0]);
      RunIsTransparent(scope, s, c1, m1, ops[1..], times[1..]);
    }
  }

  /** Over a set of addresses, every run through an empty cache answers as the bare store does, for every
      store and every clock, exactly if no two of the addresses share a key. */
  lemma RunsAreTransparentExactly(scope: iset<Address>, s: Settings)
    ensures Separate(scope) <==>
      forall m, ops: seq<Op>, times: seq<int> :: |times| == |ops| && (forall op :: op in ops ==> op.a in scope) ==>
        CachedRun(s, EMPTY_CACHE, m, ops, times).2 == DirectRun(m, ops).1
  {
    if Separate(scope) {
      forall m, ops: seq<Op>, times: seq<int> | |times| == |ops| && forall op :: op in ops ==> op.a in scope
        ensures CachedRun(s, EMPTY_CACHE, m, ops, times).2 == DirectRun(m, ops).1
      {
        RunIsTransparent(scope, s, EMPTY_CACHE, m, ops, times);
      }
    } else {
      var a, b :| a in scope && b in scope && CacheKey(a) == CacheKey(b) && a != b;
      TwoReadsDiffer(s, a, b, Envelope(0, "", ""));
    }
  }

  lemma TwoReadsDiffer(s: Settings, a: Address, b: Address, env: Envelope)
    requires CacheKey(a) == CacheKey(b) && a != b
    ensures var m, ops, times := map[a := env], [GetOp(a), GetOp(b)], [0, 0];
      CachedRun(s, EMPTY_CACHE, m, ops, times).2 == [Found(Some(env)), Found(Some(env))]
      && DirectRun(m, ops).1 == [Found(Some(env)), Found(None)]
  {
    var m: Snapshot<Address>, ops, times := map[a := env], [GetOp(a), GetOp(b)], [0, 0];
    assert ops[1..] == [GetOp(b)] && times[1..] == [0];
    assert [GetOp(b)][1..] == [] && [0][1..] == [];
    var c1 := GetStep(s, EMPTY_CACHE, m, a, 0).0;
    assert Live(s, c1, CacheKey(b), 0) && c1.entries[CacheKey(b)].envelope == Some(env);
    var c2 := GetStep(s, c1, m, b, 0).0;
    assert CachedRun(s, c2, m, [], []) == (c2, m, []);
    assert [Found(Some(env))] + [] == [Found(Some(env))] && [Found(None)] + [] == [Found(None)];
    assert CachedRun(s, c1, m, [GetOp(b)], [0]) == (c2, m, [Found(Some(env))]);
    assert DirectRun(m, []) == (m, []);
    assert DirectRun(m, [GetOp(b)]) == (m, [Found(None)]);
  }

  // ----- Recency -----------------------------------------------------------------------------------------

  /** The order of the map is the order of last use, all before `clock`; so no key occurs twice. */
  ghost predicate ByRecency(order: seq<string>, lastUse: map<string, nat>, clock: nat) {
    order != [] ==>
      && order[0] in lastUse && lastUse[order[0]] < clock
      && (forall k :: k in order[1..] ==> k in lastUse && lastUse[order[0]] < lastUse[k])
      && ByRecency(order[1..], lastUse, clock)
  }

  lemma {:induction false} WithoutByRecency(order: seq<string>, lastUse: map<string, nat>, clock: nat, k: string)
    requires ByRecency(order, lastUse, clock)
    ensures ByRecency(Without(order, k), lastUse, clock)
    ensures |Without(order, k)| <= |order| - (if k in order then 1 else 0)
  {
    if order != [] {
      WithoutByRecency(order[1..], lastUse, clock, k);
      if order[0] != k { assert Without(order, k)[1..] == Without(order[1..], k); }
    }
  }

  /** Using a key now puts it last. */
  lemma {:induction false} TouchByRecency(order: seq<string>, lastUse: map<string, nat>, clock: nat, k: string)
    requires ByRecency(order, lastUse, clock) && k !in order
    ensures ByRecency(order + [k], lastUse[k := clock], clock + 1)
  {
    if order == [] {
      var after := order + [k];
      assert after[1..] == [] && after[0] == k;
      assert ByRecency(after[1..], lastUse[k := clock], clock + 1);
    } else {
      assert forall x :: x in order[1..] ==> x in order;
      TouchByRecency(order[1..], lastUse, clock, k);
      RecencyBelow(order[1..], lastUse, clock);
      assert (order + [k])[1..] == order[1..] + [k];
    }
  }

  lemma {:induction false} RecencyBelow(order: seq<string>, lastUse: map<string, nat>, clock: nat)
    requires ByRecency(order, lastUse, clock)
    ensures forall x :: x in order ==> x in lastUse && lastUse[x] < clock
  {
    if order != [] {
      RecencyBelow(order[1..], lastUse, clock);
      assert forall x :: x in order <==> x == order[0] || x in order[1..];
    }
  }

  class CachedStore {
    const next: MemoryStore<Address>
    const settings: Settings
    /** The keys of the cache map in insertion order. */
    var order: seq<string>
    var entries: map<string, Entry>
    /** When each cached key was last read or written, counting accesses. */
    ghost var lastUse: map<string, nat>
    ghost var clock: nat

    function Now(): Cached
      reads this
    {
      Cached(order, entries)
    }

    /** The map is in order of last use and within its bound. */
    ghost predicate Valid()
      reads this
    {
      && (forall k :: k in order <==> k in entries)
      && |order| <= (if settings.maxEntries == 0 then 1 else settings.maxEntries)
      && ByRecency(order, lastUse, clock)
    }

    constructor (next: MemoryStore<Address>, settings: Settings)
      ensures Valid() && this.next == next && this.settings == settings && Now() == EMPTY_CACHE
    {
      this.next, this.settings := next, settings;
      order, entries, lastUse, clock := [], map[], map[], 0;
    }

    method Invalidate(k: string)
      requires Valid()
      modifies this`order, this`entries
      ensures Valid() && Now() == Dropped(old(Now()), k)
    {
      WithoutByRecency(order, lastUse, clock, k);
      order, entries := Without(order, k), entries - {k};
    }

    /** An expired entry is dropped; a live one moves to the end. `None` stands for undefined. */
    method GetFromCache(k: string, now: int) returns (hit: Option<Option<Envelope>>)
      requires Valid()
      modifies this`order, this`entries, this`lastUse, this`clock
      ensures Valid()
      ensures if Live(settings, old(Now()), k, now) then hit == Some(old(entries)[k].envelope) && Now() == Used(old(Now()), k)
              else hit == None && Now() == Dropped(old(Now()), k)
    {
      if k !in entries {
        WithoutAbsent(order, k);
        return None;
      }
      var entry := entries[k];
      if settings.ttlMs > 0 && now - entry.cachedAt > settings.ttlMs {
        Invalidate(k);
        return None;
      }
      MoveToEnd(k);
      hit := Some(entry.envelope);
    }

    method MoveToEnd(k: string)
      requires Valid() && k in entries
      modifies this`order, this`lastUse, this`clock
      ensures Valid() && Now() == Used(old(Now()), k)
    {
      WithoutByRecency(order, lastUse, clock, k);
      TouchByRecency(Without(order, k), lastUse, clock, k);
      order := Without(order, k) + [k];
      lastUse, clock := lastUse[k := clock], clock + 1;
    }

    /** Adds an entry for a key that is not cached. At capacity the first key of the map goes: the
        one that has not been used for longest. */
    method SetInCache(k: string, envelope: Option<Envelope>, now: int)
      requires Valid() && k !in entries
      modifies this`order, this`entries, this`lastUse, this`clock
      ensures Valid() && Now() == Added(settings, old(Now()), k, Entry(envelope, now))
      ensures forall x, y :: x in old(order) && x !in order && y in order && y != k ==>
                x in old(lastUse) && y in old(lastUse) && old(lastUse)[x] < old(lastUse)[y]
    {
      if |order| >= settings.maxEntries && order != [] { Evict(); }
      Append(k, Entry(envelope, now));
    }

    method Append(k: string, entry: Entry)
      requires (forall x :: x in order <==> x in entries) && ByRecency(order, lastUse, clock) && k !in entries
      modifies this`order, this`entries, this`lastUse, this`clock
      ensures (forall x :: x in order <==> x in entries) && ByRecency(order, lastUse, clock)
      ensures order == old(order) + [k] && entries == old(entries)[k := entry]
    {
      TouchByRecency(order, lastUse, clock, k);
      order, entries := order + [k], entries[k := entry];
      lastUse, clock := lastUse[k := clock], clock + 1;
    }

    method Evict()
      requires Valid() && order != []
      modifies this`order, this`entries
      ensures Valid() && order == old(order)[1..] && entries == old(entries) - {old(order)[0]}
      ensures old(order)[0] in lastUse && forall y :: y in order ==> y in lastUse && lastUse[old(order)[0]] < lastUse[y]
    {
      var oldest := order[0];
      assert forall x :: x in order <==> x == oldest || x in order[1..];
      RecencyBelow(order, lastUse, clock);
      assert oldest !in order[1..];
      order, entries := order[1..], entries - {oldest};
    }

    /** What is cached under the address's key, whoever put it there, or else what the store has. */
    method Get(a: Address, now: int) returns (r: Option<Envelope>)
      requires Valid()
      modifies this
      ensures Valid() && (Now(), r) == GetStep(settings, old(Now()), next.data, a, now)
    {
      var k := CacheKey(a);
      var cached := GetFromCache(k, now);
      if cached.Some? { return cached.value; }
      r := next.Get(a);
      SetInCache(k, r, now);
    }

    /** Two addresses with one key: whichever is read second gets the envelope of the first. */
    method ReadBoth(a: Address, b: Address, now: int) returns (x: Option<Envelope>, y: Option<Envelope>)
      requires Valid() && CacheKey(a) == CacheKey(b) && !Live(settings, Now(), CacheKey(a), now)
      modifies this
      ensures Valid() && x == Lookup(next.data, a) && y == Lookup(next.data, a)
    {
      x := Get(a, now);
      y := Get(b, now);
    }

    /** The entry is dropped before the write, so a write that throws leaves nothing stale. */
    method Put(a: Address, env: Envelope, expected: Option<int>, fails: bool, now: int) returns (ok: bool)
      requires Valid()
      modifies this, next
      ensures Valid()
      ensures (Now(), next.data, if ok then Ok else Thrown) ==
              Step(settings, old(Now()), old(next.data), PutOp(a, env, expected, fails), now)
    {
      var k := CacheKey(a);
      Invalidate(k);
      if fails { return false; }
      ok := next.Put(a, env, expected);
      if ok { SetInCache(k, Some(env), now); }
    }

    method Delete(a: Address, fails: bool) returns (ok: bool)
      requires Valid()
      modifies this, next
      ensures Valid()
      ensures (Now(), next.data, if ok then Ok else Thrown) == Step(settings, old(Now()), old(next.data), DeleteOp(a, fails), 0)
    {
      Invalidate(CacheKey(a));
      if fails { return false; }
      next.Delete(a);
      ok := true;
    }

    method Do(op: Op, now: int) returns (answer: Answer)
      requires Valid()
      modifies this, next
      ensures Valid() && (Now(), next.data, answer) == Step(settings, old(Now()), old(next.data), op, now)
    {
      match op {
        case GetOp(a) =>
          var r := Get(a, now);
          answer := Found(r);
        case PutOp(a, env, expected, fails) =>
          var ok := Put(a, env, expected, fails, now);
          answer := if ok then Ok else Thrown;
        case DeleteOp(a, fails) =>
          var ok := Delete(a, fails);
          answer := if ok then Ok else Thrown;
      }
    }

    /** In every run over addresses with different keys, whatever the clock says at each step, the cached
        store answers as the wrapped store would without a cache, and leaves it in the same state. */
    method RunOps(ops: seq<Op>, times: seq<int>, ghost scope: iset<Address>) returns (answers: seq<Answer>)
      requires Valid() && |times| == |ops|
      modifies this, next
      ensures Valid()
      ensures (Now(), next.data, answers) == CachedRun(settings, old(Now()), old(next.data), ops, times)
      ensures Separate(scope) && Transparent(scope, old(entries), old(next.data)) && (forall op :: op in ops ==> op.a in scope) ==>
                (next.data, answers) == DirectRun(old(next.data), ops) && Transparent(scope, entries, next.data)
    {
      ghost var c, m := Now(), next.data;
      answers := [];
      var i := 0;
      RunStarts(settings, c, m, ops, times);
      while i < |ops|
        invariant 0 <= i <= |ops| && Valid()
        invariant RunReached(settings, c, m, ops, times, i, Now(), next.data, answers)
      {
        ghost var c1, m1 := Now(), next.data;
        var answer := Do(ops[i], times[i]);
        RunAdvances(settings, c, m, ops, times, i, c1, m1, answers, Now(), next.data, answer);
        answers := answers + [answer];
        i := i + 1;
      }
      assert answers + [] == answers;
      if Separate(scope) && Transparent(scope, c.entries, m) && forall op :: op in ops ==> op.a in scope {
        RunIsTransparent(scope, settings, c, m, ops, times);
      }
    }
  }

  /** The run has come to operation `i`. */
  ghost predicate RunReached(s: Settings, c0: Cached, m0: Snapshot<Address>, ops: seq<Op>, times: seq<int>, i: nat,
                             c: Cached, m: Snapshot<Address>, answers: seq<Answer>)
    requires |times| == |ops| && i <= |ops|
  {
    var (c', m', rest) := CachedRun(s, c, m, ops[i..], times[i..]);
    CachedRun(s, c0, m0, ops, times) == (c', m', answers + rest)
  }

  lemma RunStarts(s: Settings, c: Cached, m: Snapshot<Address>, ops: seq<Op>, times: seq<int>)
    requires |times| == |ops|
    ensures RunReached(s, c, m, ops, times, 0, c, m, [])
  {
    assert ops[0..] == ops && times[0..] == times;
    var answers := CachedRun(s, c, m, ops, times).2;
    assert [] + answers == answers;
  }

  lemma RunAdvances(s: Settings, c0: Cached, m0: Snapshot<Address>, ops: seq<Op>, times: seq<int>, i: nat,
                    c: Cached, m: Snapshot<Address>, answers: seq<Answer>, c': Cached, m': Snapshot<Address>, answer: Answer)
    requires |times| == |ops| && i < |ops| && RunReached(s, c0, m0, ops, times, i, c, m, answers)
    requires (c', m', answer) == Step(s, c, m, ops[i], times[i])
    ensures RunReached(s, c0, m0, ops, times, i + 1, c', m', answers + [answer])
  {
    assert ops[i..][1..] == ops[i + 1..] && times[i..][1..] == times[i + 1..];
    var rest := CachedRun(s, c', m', ops[i + 1..], times[i + 1..]).2;
    assert answers + ([answer] + rest) == (answers + [answer]) + rest;
  }
}
