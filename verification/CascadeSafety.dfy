/** Strict refs stay resolvable at every moment of every run, as long as strict rules come before
    the cascade rules that lie on a cycle. */
module CascadeSafety {
  import opened Wrappers
  import opened Refs
  import opened Stores
  import opened Cascade
  import opened CascadeIntegrity

  predicate Resolved(data: Records, row: Row, r: FieldRef) {
    var v := row.Field(r.field);
    v.Null? || (RefId(v).Some? && Key(r.target, RefId(v).value) in data)
  }

  /** Every strict ref held by a record is null or names an existing record. */
  ghost predicate StrictSafe(reg: Registry, data: Records) {
    forall x, r :: x in data && r in reg.Outbound(x.coll) && r.mode.Strict? ==> Resolved(data, data[x], r)
  }

  ghost predicate AlwaysSafe(reg: Registry, log: seq<Records>) {
    forall i :: 0 <= i < |log| ==> StrictSafe(reg, log[i])
  }

  // ----- The order of the rules --------------------------------------------------------------------

  /** A way for a cascade to travel from collection `t`: each rule is inbound to the collection
      the one before it leads to. */
  ghost predicate CascadePath(reg: Registry, t: string, p: seq<Rule>)
    decreases |p|
  {
    p != [] ==> p[0] in reg.Inbound(t) && p[0].mode.Cascade? && CascadePath(reg, p[0].collection, p[1..])
  }

  function PathEnd(t: string, p: seq<Rule>): string {
    if p == [] then t else p[|p| - 1].collection
  }

  /** A delete in collection `from` can cascade to a record of `to`. */
  ghost predicate CascadesTo(reg: Registry, from: string, to: string) {
    exists p :: CascadePath(reg, from, p) && PathEnd(from, p) == to
  }

  /** Rule `i` of collection `t` is a cascade that can come back to `t`, and a strict rule comes
      after it. */
  ghost predicate Misplaced(reg: Registry, t: string, i: nat, j: nat) {
    var rules := reg.Inbound(t);
    i < j < |rules| && rules[i].mode.Cascade? && rules[j].mode.Strict? && CascadesTo(reg, rules[i].collection, t)
  }

  /** In every inbound list the strict rules come before the cascades that lie on a cycle. */
  ghost predicate StrictFirst(reg: Registry) {
    forall t, i: nat, j: nat :: !Misplaced(reg, t, i, j)
  }

  lemma CascadesVia(reg: Registry, t: string, r: Rule, to: string)
    requires r in reg.Inbound(t) && r.mode.Cascade? && CascadesTo(reg, r.collection, to)
    ensures CascadesTo(reg, t, to)
  {
    var p :| CascadePath(reg, r.collection, p) && PathEnd(r.collection, p) == to;
    assert ([r] + p)[1..] == p;
    assert CascadePath(reg, t, [r] + p);
  }

  /** Cascades without any cycle are one way to satisfy it: ranks that fall along every cascade. */
  lemma AcyclicIsStrictFirst(reg: Registry, rank: string -> nat)
    requires forall t, r :: r in reg.Inbound(t) && r.mode.Cascade? ==> rank(r.collection) < rank(t)
    ensures StrictFirst(reg)
  {
    forall t, i: nat, j: nat
      ensures !Misplaced(reg, t, i, j)
    {
      if Misplaced(reg, t, i, j) {
        var r := reg.Inbound(t)[i];
        var p :| CascadePath(reg, r.collection, p) && PathEnd(r.collection, p) == t;
        RankFalls(reg, rank, r.collection, p);
      }
    }
  }

  lemma {:induction false} RankFalls(reg: Registry, rank: string -> nat, t: string, p: seq<Rule>)
    requires forall t, r :: r in reg.Inbound(t) && r.mode.Cascade? ==> rank(r.collection) < rank(t)
    requires CascadePath(reg, t, p)
    ensures rank(PathEnd(t, p)) <= rank(t)
    decreases |p|
  {
    if p != [] { RankFalls(reg, rank, p[0].collection, p[1..]); }
  }

  // ----- One delete ------------------------------------------------------------------------------------

  /** Some record other than `k` holds a strict ref to it. */
  ghost predicate StrictlyHeldByOther(reg: Registry, data: Records, k: Key) {
    exists rule, x :: rule in reg.Inbound(k.coll) && rule.mode.Strict? &&
      x in data && x != k && x.coll == rule.collection && data[x].PointsAt(rule.field, k.id)
  }

  /** Removing a record keeps every strict ref resolvable exactly if no other record holds a strict
      ref to it. */
  lemma RemovingIsSafeExactly(reg: Registry, data: Records, k: Key)
    requires reg.Consistent() && StrictSafe(reg, data)
    ensures StrictSafe(reg, data - {k}) <==> !StrictlyHeldByOther(reg, data, k)
  {
    if StrictlyHeldByOther(reg, data, k) {
      var rule, x :| rule in reg.Inbound(k.coll) && rule.mode.Strict? &&
        x in data && x != k && x.coll == rule.collection && data[x].PointsAt(rule.field, k.id);
      var r := FieldRef(rule.field, k.coll, rule.mode);
      assert r in reg.Outbound(x.coll) && !Resolved(data - {k}, (data - {k})[x], r);
    } else {
      forall x, r | x in data - {k} && r in reg.Outbound(x.coll) && r.mode.Strict?
        ensures Resolved(data - {k}, data[x], r)
      {
        assert Resolved(data, data[x], r);
        var rule := Rule(x.coll, r.field, r.mode);
        assert r == FieldRef(rule.field, r.target, rule.mode);
        assert rule in reg.Inbound(r.target);
      }
    }
  }

  /** None of the strict rules finds a record that refers to `id`. */
  ghost predicate NoStrictHolder(data: Records, rules: seq<Rule>, id: string) {
    forall r :: r in rules && r.mode.Strict? ==> !Held(data, r, id)
  }

  /** The deletes in progress that a cascade from `c` can come back to have no strict refs to them. */
  ghost predicate Guarded(reg: Registry, data: Records, busy: set<string>, c: string) {
    forall x: Key :: FrameKey(x) in busy && '/' !in x.coll && CascadesTo(reg, c, x.coll) ==>
      NoStrictHolder(data, reg.Inbound(x.coll), x.id)
  }

  lemma HoldersOnlyLeave(small: Records, big: Records, rules: seq<Rule>, id: string)
    requires Submap(small, big) && NoStrictHolder(big, rules, id)
    ensures NoStrictHolder(small, rules, id)
  {
    forall r | r in rules && r.mode.Strict?
      ensures !Held(small, r, id)
    {
      assert !Held(big, r, id);
    }
  }

  lemma StillGuarded(reg: Registry, small: Records, big: Records, busy: set<string>, c: string)
    requires Submap(small, big) && Guarded(reg, big, busy, c)
    ensures Guarded(reg, small, busy, c)
  {
    forall x: Key | FrameKey(x) in busy && '/' !in x.coll && CascadesTo(reg, c, x.coll)
      ensures NoStrictHolder(small, reg.Inbound(x.coll), x.id)
    {
      HoldersOnlyLeave(small, big, reg.Inbound(x.coll), x.id);
    }
  }

  ghost predicate SafeWorld(env: Env, w: World) {
    && env.reg.Scoped() && env.reg.Consistent()
    && WellKeyed(w.data) && Listed(w)
    && StrictSafe(env.reg, w.data) && AlwaysSafe(env.reg, w.log)
  }

  /** A nested delete is safe in every frame around it that is guarded. */
  lemma {:induction false} DeleteIsSafe(env: Env, u: set<string>, w: World, busy: set<string>, k: Key)
    requires SafeWorld(env, w) && StrictFirst(env.reg) && Guarded(env.reg, w.data, busy, k.coll)
    requires Covers(u, w.data) && FrameKey(k) in u
    ensures SafeWorld(env, Delete(env, u, w, busy, k).0)
    decreases |u - busy|, 1, 0
  {
    if k.coll in env.writable {
      EnforceSettles(env, u, w, busy, k);
      EnforceIsSafe(env, u, w, busy, k);
      var (w', o) := EnforceOnDelete(env, u, w, busy, k);
      if o.Done? {
        DeleteSettles(env, u, w, busy, k);
        NothingStrictLeft(env, w'.data, busy, k);
        RemovingIsSafeExactly(env.reg, w'.data, k);
      }
    }
  }

  lemma NothingStrictLeft(env: Env, data: Records, busy: set<string>, k: Key)
    requires env.reg.Scoped()
    requires if FrameKey(k) in busy then Guarded(env.reg, data, busy, k.coll) else Unreferenced(env.reg, data, k)
    ensures !StrictlyHeldByOther(env.reg, data, k)
  {
    if '/' in k.coll {
      NoInbound(env.reg, k);
    } else if FrameKey(k) in busy {
      assert CascadePath(env.reg, k.coll, []);
      assert CascadesTo(env.reg, k.coll, k.coll);
    }
    forall rule | rule in env.reg.Inbound(k.coll) && rule.mode.Strict?
      ensures !Held(data, rule, k.id)
    {
    }
  }

  lemma {:induction false} EnforceIsSafe(env: Env, u: set<string>, w: World, busy: set<string>, k: Key)
    requires SafeWorld(env, w) && StrictFirst(env.reg) && Guarded(env.reg, w.data, busy, k.coll)
    requires Covers(u, w.data) && FrameKey(k) in u
    ensures var w' := EnforceOnDelete(env, u, w, busy, k).0;
      SafeWorld(env, w') && Guarded(env.reg, w'.data, busy, k.coll)
    decreases |u - busy|, 0, 0
  {
    if FrameKey(k) !in busy {
      var inner := busy + {FrameKey(k)};
      assert u - inner == (u - busy) - {FrameKey(k)};
      WalkIsSafe(env, u, w, busy, k, 0);
      var rules := env.reg.Inbound(k.coll);
      assert rules[0..] == rules;
      StillGuarded(env.reg, EnforceOnDelete(env, u, w, busy, k).0.data, w.data, busy, k.coll);
    }
  }

  /** The walk over the rules from position `i` on; the strict ones before it found nothing. */
  lemma {:induction false} WalkIsSafe(env: Env, u: set<string>, w: World, busy: set<string>, k: Key, i: nat)
    requires SafeWorld(env, w) && StrictFirst(env.reg) && Guarded(env.reg, w.data, busy, k.coll)
    requires i <= |env.reg.Inbound(k.coll)| && NoStrictHolder(w.data, env.reg.Inbound(k.coll)[..i], k.id)
    requires Covers(u, w.data)
    ensures SafeWorld(env, WalkRules(env, u, w, busy + {FrameKey(k)}, k, env.reg.Inbound(k.coll)[i..]).0)
    decreases |u - (busy + {FrameKey(k)})|, 3, |env.reg.Inbound(k.coll)| - i
  {
    var inner, rules := busy + {FrameKey(k)}, env.reg.Inbound(k.coll);
    if i < |rules| {
      var rule := rules[i];
      var ms := Matching(w.data, w.order, rule, k.id);
      assert rules[i..][1..] == rules[i + 1..] && rules[..i + 1] == rules[..i] + [rule];
      if ms == [] || rule.mode.Warn? {
        MatchingEmpty(w, rule, k.id);
        WalkIsSafe(env, u, w, busy, k, i + 1);
      } else if rule.mode.Cascade? {
        GuardedInside(env.reg, w.data, busy, k, i);
        DeleteAllIsSafe(env, u, w, inner, rule.collection, ms);
        var (w', o) := DeleteAll(env, u, w, inner, rule.collection, ms);
        if o.Done? {
          StillGuarded(env.reg, w'.data, w.data, busy, k.coll);
          HoldersOnlyLeave(w'.data, w.data, rules[..i], k.id);
          WalkIsSafe(env, u, w', busy, k, i + 1);
        }
      }
    }
  }

  /** Inside the cascade of rule `i` the delete of `k` itself is guarded too: if the cascade can come
      back, all strict rules of `k` are behind it. */
  lemma GuardedInside(reg: Registry, data: Records, busy: set<string>, k: Key, i: nat)
    requires StrictFirst(reg) && reg.Scoped() && Guarded(reg, data, busy, k.coll)
    requires i < |reg.Inbound(k.coll)| && reg.Inbound(k.coll)[i].mode.Cascade?
    requires NoStrictHolder(data, reg.Inbound(k.coll)[..i], k.id)
    ensures Guarded(reg, data, busy + {FrameKey(k)}, reg.Inbound(k.coll)[i].collection)
  {
    var rules := reg.Inbound(k.coll);
    forall x: Key | FrameKey(x) in busy + {FrameKey(k)} && '/' !in x.coll && CascadesTo(reg, rules[i].collection, x.coll)
      ensures NoStrictHolder(data, reg.Inbound(x.coll), x.id)
    {
      CascadesVia(reg, k.coll, rules[i], x.coll);
      if FrameKey(x) !in busy {
        FrameKeyInjective(x, k);
        forall r | r in rules && r.mode.Strict?
          ensures r in rules[..i]
        {
          var j :| 0 <= j < |rules| && rules[j] == r;
          assert !Misplaced(reg, k.coll, i, j);
          assert j < i;
        }
      }
    }
  }

  lemma {:induction false} DeleteAllIsSafe(env: Env, u: set<string>, w: World, busy: set<string>, coll: string, ms: seq<Row>)
    requires SafeWorld(env, w) && StrictFirst(env.reg) && Guarded(env.reg, w.data, busy, coll)
    requires Covers(u, w.data) && Nameable(u, coll, ms)
    ensures SafeWorld(env, DeleteAll(env, u, w, busy, coll, ms).0)
    decreases |u - busy|, 2, |ms|
  {
    if ms == [] {
    } else if ms[0].Id().None? {
      DeleteAllIsSafe(env, u, w, busy, coll, ms[1..]);
    } else {
      var k := Key(coll, ms[0].Id().value);
      DeleteIsSafe(env, u, w, busy, k);
      var (w', o) := Delete(env, u, w, busy, k);
      if o.Done? {
        StillGuarded(env.reg, w'.data, w.data, busy, coll);
        DeleteAllIsSafe(env, u, w', busy, coll, ms[1..]);
      }
    }
  }

  // ----- Put -----------------------------------------------------------------------------------

  lemma {:induction false} MetOnPut(data: Records, coll: string, row: Row, refs: seq<FieldRef>)
    ensures UnmetStrictRef(data, coll, row, refs).Done? <==>
      forall r :: r in refs && r.mode.Strict? ==> Resolved(data, row, r)
    ensures UnmetStrictRef(data, coll, row, refs).Done? <==>
      forall r :: r in refs && r.mode.Strict? ==>
        match row.Field(r.field)
        case Null => true
        case Str(text) => Key(r.target, text) in data
        case Num(text) => Key(r.target, text) in data
        case Other => false
  {
    if refs != [] { MetOnPut(data, coll, row, refs[1..]); }
  }

  lemma PutIsSafe(env: Env, w: World, k: Key, fields: map<string, Value>)
    requires SafeWorld(env, w) && Row(0, fields).Id() == Some(k.id)
    ensures SafeWorld(env, Put(env, w, k, fields).0)
  {
    var (w', o) := Put(env, w, k, fields);
    if o.Done? {
      var row := w'.data[k];
      assert row.Id() == Some(k.id);
      MetOnPut(w.data, k.coll, row, env.reg.Outbound(k.coll));
      forall x, r | x in w'.data && r in env.reg.Outbound(x.coll) && r.mode.Strict?
        ensures Resolved(w'.data, w'.data[x], r)
      {
        assert x != k ==> Resolved(w.data, w.data[x], r);
        assert x == k ==> Resolved(w.data, row, r);
      }
    }
  }

  // ----- Runs ----------------------------------------------------------------------------------

  datatype Op = PutOp(key: Key, fields: map<string, Value>) | DeleteOp(key: Key)

  ghost function Step(env: Env, w: World, op: Op): (World, Outcome) {
    match op
    case PutOp(k, fields) => Put(env, w, k, fields)
    case DeleteOp(k) => DeleteTop(env, w, k)
  }

  ghost function Run(env: Env, w: World, ops: seq<Op>): World
    decreases |ops|
  {
    if ops == [] then w else Run(env, Step(env, w, ops[0]).0, ops[1..])
  }

  ghost predicate KeysItsRecords(op: Op) {
    op.PutOp? ==> Row(0, op.fields).Id() == Some(op.key.id)
  }

  /** After every store write of every run of puts and deletes, every strict ref resolves:
      whether operations return, are refused, or die in the middle of a cascade. */
  lemma {:induction false} RunsKeepStrictRefs(env: Env, w: World, ops: seq<Op>)
    requires StrictFirst(env.reg) && SafeWorld(env, w)
    requires forall op :: op in ops ==> KeysItsRecords(op)
    ensures SafeWorld(env, Run(env, w, ops))
    decreases |ops|
  {
    if ops != [] {
      assert KeysItsRecords(ops[0]);
      match ops[0] {
        case PutOp(k, fields) => PutIsSafe(env, w, k, fields);
        case DeleteOp(k) =>
          DeleteIsSafe(env, Universe(w.data, k), w, {}, k);
      }
      RunsKeepStrictRefs(env, Step(env, w, ops[0]).0, ops[1..]);
    }
  }

  // ----- The log is a log ------------------------------------------------------------------------

  /** One store write: a record is removed or written. */
  ghost predicate OneWrite(before: Records, after: Records) {
    exists k: Key :: after == before - {k} || (k in after && after == before[k := after[k]])
  }

  /** The states in the log lead from one state to the other, a write at a time. */
  ghost predicate Steps(before: Records, log: seq<Records>, after: Records)
    decreases |log|
  {
    if log == [] then after == before else OneWrite(before, log[0]) && Steps(log[0], log[1..], after)
  }

  /** What happened between two worlds is in the log, state by state. */
  ghost predicate Logged(w: World, w': World) {
    w.log <= w'.log && Steps(w.data, w'.log[|w.log|..], w'.data)
  }

  lemma {:induction false} StepsCompose(a: Records, x: seq<Records>, b: Records, y: seq<Records>, c: Records)
    requires Steps(a, x, b) && Steps(b, y, c)
    ensures Steps(a, x + y, c)
    decreases |x|
  {
    if x == [] {
      assert x + y == y;
    } else {
      assert (x + y)[1..] == x[1..] + y;
      StepsCompose(x[0], x[1..], b, y, c);
    }
  }

  lemma LoggedComposes(w: World, w1: World, w2: World)
    requires Logged(w, w1) && Logged(w1, w2)
    ensures Logged(w, w2)
  {
    StepsCompose(w.data, w1.log[|w.log|..], w1.data, w2.log[|w1.log|..], w2.data);
    assert w2.log[|w.log|..] == w1.log[|w.log|..] + w2.log[|w1.log|..];
  }

  lemma StoreDeleteLogs(env: Env, w: World, k: Key)
    ensures Logged(w, StoreDelete(env, w, k).0)
  {
    WriteLogged(w, StoreDelete(env, w, k).0);
  }

  lemma WriteLogged(w: World, w': World)
    requires (w'.log == w.log && w'.data == w.data) || (w'.log == w.log + [w'.data] && OneWrite(w.data, w'.data))
    ensures Logged(w, w')
  {
    if w'.log == w.log + [w'.data] {
      var rest := w'.log[|w.log|..];
      assert rest == [w'.data] && rest[1..] == [];
    }
  }

  lemma PutLogs(env: Env, w: World, k: Key, fields: map<string, Value>)
    ensures Logged(w, Put(env, w, k, fields).0)
  {
    var w' := Put(env, w, k, fields).0;
    if w'.log != w.log { assert w'.data == w.data[k := w'.data[k]]; }
    WriteLogged(w, w');
  }

  lemma {:induction false} DeleteLogs(env: Env, u: set<string>, w: World, busy: set<string>, k: Key)
    requires Covers(u, w.data) && FrameKey(k) in u
    ensures Logged(w, Delete(env, u, w, busy, k).0)
    decreases |u - busy|, 1, 0
  {
    if k.coll in env.writable {
      EnforceLogs(env, u, w, busy, k);
      var (w1, o) := EnforceOnDelete(env, u, w, busy, k);
      if o.Done? {
        StoreDeleteLogs(env, w1, k);
        LoggedComposes(w, w1, StoreDelete(env, w1, k).0);
      }
    }
  }

  lemma {:induction false} EnforceLogs(env: Env, u: set<string>, w: World, busy: set<string>, k: Key)
    requires Covers(u, w.data) && FrameKey(k) in u
    ensures Logged(w, EnforceOnDelete(env, u, w, busy, k).0)
    decreases |u - busy|, 0, 0
  {
    if FrameKey(k) !in busy {
      var inner := busy + {FrameKey(k)};
      assert u - inner == (u - busy) - {FrameKey(k)};
      WalkLogs(env, u, w, inner, k, env.reg.Inbound(k.coll));
    }
  }

  lemma {:induction false} WalkLogs(env: Env, u: set<string>, w: World, busy: set<string>, k: Key, rules: seq<Rule>)
    requires Covers(u, w.data)
    ensures Logged(w, WalkRules(env, u, w, busy, k, rules).0)
    decreases |u - busy|, 3, |rules|
  {
    if rules != [] {
      var rule := rules[0];
      var ms := Matching(w.data, w.order, rule, k.id);
      if ms == [] || rule.mode.Warn? {
        WalkLogs(env, u, w, busy, k, rules[1..]);
      } else if rule.mode.Cascade? {
        DeleteAllLogs(env, u, w, busy, rule.collection, ms);
        var (w', o) := DeleteAll(env, u, w, busy, rule.collection, ms);
        if o.Done? {
          WalkLogs(env, u, w', busy, k, rules[1..]);
          LoggedComposes(w, w', WalkRules(env, u, w', busy, k, rules[1..]).0);
        }
      }
    }
  }

  lemma {:induction false} DeleteAllLogs(env: Env, u: set<string>, w: World, busy: set<string>, coll: string, ms: seq<Row>)
    requires Covers(u, w.data) && Nameable(u, coll, ms)
    ensures Logged(w, DeleteAll(env, u, w, busy, coll, ms).0)
    decreases |u - busy|, 2, |ms|
  {
    if ms == [] {
    } else if ms[0].Id().None? {
      DeleteAllLogs(env, u, w, busy, coll, ms[1..]);
    } else {
      var k := Key(coll, ms[0].Id().value);
      DeleteLogs(env, u, w, busy, k);
      var (w', o) := Delete(env, u, w, busy, k);
      if o.Done? {
        DeleteAllLogs(env, u, w', busy, coll, ms[1..]);
        LoggedComposes(w, w', DeleteAll(env, u, w', busy, coll, ms[1..]).0);
      }
    }
  }

  /** The log of a run leads from the first state to the last with one record removed or written
      between any two entries: no moment is left out. */
  lemma {:induction false} RunsLog(env: Env, w: World, ops: seq<Op>)
    ensures Logged(w, Run(env, w, ops))
    decreases |ops|
  {
    if ops != [] {
      match ops[0] {
        case PutOp(k, fields) => PutLogs(env, w, k, fields);
        case DeleteOp(k) => DeleteLogs(env, Universe(w.data, k), w, {}, k);
      }
      var w1 := Step(env, w, ops[0]).0;
      RunsLog(env, w1, ops[1..]);
      LoggedComposes(w, w1, Run(env, w1, ops[1..]));
    }
  }
}
