/** What the lack of write permission protects, through cascades and over runs. */
module CascadeAccess {
  import opened Wrappers
  import opened Refs
  import opened Stores
  import opened Cascade
  import opened CascadeSafety

  /** Records of the collections that may not be written are the same in both. */
  ghost predicate Protected(env: Env, before: Records, after: Records) {
    forall x: Key :: x.coll !in env.writable ==> Lookup(after, x) == Lookup(before, x)
  }

  ghost predicate ProtectedSince(env: Env, w: World, w': World) {
    && Protected(env, w.data, w'.data)
    && w.log <= w'.log && forall i :: |w.log| <= i < |w'.log| ==> Protected(env, w.data, w'.log[i])
  }

  lemma ProtectionComposes(env: Env, w: World, w1: World, w2: World)
    requires ProtectedSince(env, w, w1) && ProtectedSince(env, w1, w2)
    ensures ProtectedSince(env, w, w2)
  {
    forall i | |w.log| <= i < |w2.log|
      ensures Protected(env, w.data, w2.log[i])
    {
      if i < |w1.log| { assert w2.log[i] == w1.log[i]; }
    }
  }

  lemma RemovalIsProtected(env: Env, w: World, k: Key)
    requires k.coll in env.writable
    ensures ProtectedSince(env, w, StoreDelete(env, w, k).0)
  {
  }

  lemma {:induction false} DeleteProtects(env: Env, u: set<string>, w: World, busy: set<string>, k: Key)
    requires Covers(u, w.data) && FrameKey(k) in u
    ensures ProtectedSince(env, w, Delete(env, u, w, busy, k).0)
    decreases |u - busy|, 1, 0
  {
    if k.coll in env.writable {
      EnforceProtects(env, u, w, busy, k);
      var (w1, o) := EnforceOnDelete(env, u, w, busy, k);
      if o.Done? {
        RemovalIsProtected(env, w1, k);
        ProtectionComposes(env, w, w1, StoreDelete(env, w1, k).0);
      }
    }
  }

  lemma {:induction false} EnforceProtects(env: Env, u: set<string>, w: World, busy: set<string>, k: Key)
    requires Covers(u, w.data) && FrameKey(k) in u
    ensures ProtectedSince(env, w, EnforceOnDelete(env, u, w, busy, k).0)
    decreases |u - busy|, 0, 0
  {
    if FrameKey(k) !in busy {
      var inner := busy + {FrameKey(k)};
      assert u - inner == (u - busy) - {FrameKey(k)};
      WalkProtects(env, u, w, inner, k, env.reg.Inbound(k.coll));
    }
  }

  lemma {:induction false} WalkProtects(env: Env, u: set<string>, w: World, busy: set<string>, k: Key, rules: seq<Rule>)
    requires Covers(u, w.data)
    ensures ProtectedSince(env, w, WalkRules(env, u, w, busy, k, rules).0)
    decreases |u - busy|, 3, |rules|
  {
    if rules != [] {
      var rule := rules[0];
      var ms := Matching(w.data, w.order, rule, k.id);
      if ms == [] || rule.mode.Warn? {
        WalkProtects(env, u, w, busy, k, rules[1..]);
      } else if rule.mode.Cascade? {
        DeleteAllProtects(env, u, w, busy, rule.collection, ms);
        var (w', o) := DeleteAll(env, u, w, busy, rule.collection, ms);
        if o.Done? {
          WalkProtects(env, u, w', busy, k, rules[1..]);
          ProtectionComposes(env, w, w', WalkRules(env, u, w', busy, k, rules[1..]).0);
        }
      }
    }
  }

  lemma {:induction false} DeleteAllProtects(env: Env, u: set<string>, w: World, busy: set<string>, coll: string, ms: seq<Row>)
    requires Covers(u, w.data) && Nameable(u, coll, ms)
    ensures ProtectedSince(env, w, DeleteAll(env, u, w, busy, coll, ms).0)
    decreases |u - busy|, 2, |ms|
  {
    if ms == [] {
    } else if ms[0].Id().None? {
      DeleteAllProtects(env, u, w, busy, coll, ms[1..]);
    } else {
      var k := Key(coll, ms[0].Id().value);
      DeleteProtects(env, u, w, busy, k);
      var (w', o) := Delete(env, u, w, busy, k);
      if o.Done? {
        DeleteAllProtects(env, u, w', busy, coll, ms[1..]);
        ProtectionComposes(env, w, w', DeleteAll(env, u, w', busy, coll, ms[1..]).0);
      }
    }
  }

  /** A put or delete in a collection that may not be written is refused and changes nothing. */
  lemma ReadOnlyIsRefused(env: Env, w: World, op: Op)
    requires op.key.coll !in env.writable
    ensures Step(env, w, op) == (w, ReadOnly)
  {
  }

  /** Over every run of puts and deletes, cascades included, no moment of the run shows a change to a
      record of a collection that may not be written. */
  lemma {:induction false} RunsProtectReadOnly(env: Env, w: World, ops: seq<Op>)
    ensures var w' := Run(env, w, ops);
      && (forall x: Key :: x.coll !in env.writable ==> Lookup(w'.data, x) == Lookup(w.data, x))
      && w.log <= w'.log
      && (forall i, x: Key :: |w.log| <= i < |w'.log| && x.coll !in env.writable ==> Lookup(w'.log[i], x) == Lookup(w.data, x))
    decreases |ops|
  {
    RunProtects(env, w, ops);
    var w' := Run(env, w, ops);
    forall i, x: Key | |w.log| <= i < |w'.log| && x.coll !in env.writable
      ensures Lookup(w'.log[i], x) == Lookup(w.data, x)
    {
      assert Protected(env, w.data, w'.log[i]);
    }
  }

  lemma {:induction false} RunProtects(env: Env, w: World, ops: seq<Op>)
    ensures ProtectedSince(env, w, Run(env, w, ops))
    decreases |ops|
  {
    if ops != [] {
      match ops[0] {
        case PutOp(k, fields) => PutProtects(env, w, k, fields);
        case DeleteOp(k) => DeleteProtects(env, Universe(w.data, k), w, {}, k);
      }
      var w1 := Step(env, w, ops[0]).0;
      RunProtects(env, w1, ops[1..]);
      ProtectionComposes(env, w, w1, Run(env, w1, ops[1..]));
    }
  }

  lemma PutProtects(env: Env, w: World, k: Key, fields: map<string, Value>)
    ensures ProtectedSince(env, w, Put(env, w, k, fields).0)
  {
  }

  // ----- Versions ------------------------------------------------------------------------------------------

  function VersionOf(data: Records, x: Key): nat {
    if x in data then data[x].version else 0
  }

  /** How many puts of the record have gone through since it was last missing, on top of the version it
      started with. */
  ghost function PutsSinceMissing(env: Env, w: World, ops: seq<Op>, x: Key, start: nat): nat
    decreases |ops|
  {
    if ops == [] then start
    else
      var (w1, o) := Step(env, w, ops[0]);
      var n := if ops[0].PutOp? && ops[0].key == x && o.Done? then start + 1 else if x in w1.data then start else 0;
      PutsSinceMissing(env, w1, ops[1..], x, n)
  }

  /** Over every run the version of a record counts the puts that went through since it was last missing;
      deletes and cascades around it do not touch it. */
  lemma {:induction false} VersionsCountPuts(env: Env, w: World, ops: seq<Op>, x: Key)
    ensures VersionOf(Run(env, w, ops).data, x) == PutsSinceMissing(env, w, ops, x, VersionOf(w.data, x))
    decreases |ops|
  {
    if ops != [] {
      StepVersion(env, w, ops[0], x);
      VersionsCountPuts(env, Step(env, w, ops[0]).0, ops[1..], x);
    }
  }

  lemma StepVersion(env: Env, w: World, op: Op, x: Key)
    ensures var (w1, o) := Step(env, w, op);
      VersionOf(w1.data, x) == if op.PutOp? && op.key == x && o.Done? then VersionOf(w.data, x) + 1
                               else if x in w1.data then VersionOf(w.data, x) else 0
  {
    if op.DeleteOp? {
      var (w1, _) := DeleteTop(env, w, op.key);
      assert Submap(w1.data, w.data);
    }
  }
}
