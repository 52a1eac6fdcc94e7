/** Which records a cascading delete removes, and when it succeeds. */
module CascadeClosure {
  import opened Refs
  import opened Stores
  import opened Cascade
  import opened CascadeIntegrity
  import opened CascadeSafety

  /** The record at `x` holds a ref of the given mode to `k`. */
  ghost predicate PointsTo(reg: Registry, data: Records, mode: Mode, x: Key, k: Key) {
    x in data && exists rule :: rule in reg.Inbound(k.coll) && rule.mode == mode && x.coll == rule.collection &&
                                data[x].PointsAt(rule.field, k.id)
  }

  /** A chain of cascade refs: each record points to the one before it, the first to `k`. */
  ghost predicate Chain(reg: Registry, data: Records, k: Key, p: seq<Key>)
    decreases |p|
  {
    p != [] ==> PointsTo(reg, data, Cascade, p[0], k) && Chain(reg, data, p[0], p[1..])
  }

  /** `x` is `k` or cascades from it. */
  ghost predicate Reaches(reg: Registry, data: Records, k: Key, x: Key) {
    exists p :: Chain(reg, data, k, p) && x == if p == [] then k else p[|p| - 1]
  }

  lemma ReachesSelf(reg: Registry, data: Records, k: Key)
    ensures Reaches(reg, data, k, k)
  {
    assert Chain(reg, data, k, []);
  }

  lemma ReachesVia(reg: Registry, data: Records, k: Key, m: Key, x: Key)
    requires PointsTo(reg, data, Cascade, m, k) && Reaches(reg, data, m, x)
    ensures Reaches(reg, data, k, x)
  {
    var p :| Chain(reg, data, m, p) && x == if p == [] then m else p[|p| - 1];
    assert ([m] + p)[1..] == p;
    assert Chain(reg, data, k, [m] + p);
  }

  lemma {:induction false} ChainGrows(reg: Registry, small: Records, big: Records, k: Key, p: seq<Key>)
    requires Submap(small, big) && Chain(reg, small, k, p)
    ensures Chain(reg, big, k, p)
    decreases |p|
  {
    if p != [] { ChainGrows(reg, small, big, p[0], p[1..]); }
  }

  lemma ReachesGrows(reg: Registry, small: Records, big: Records, k: Key, x: Key)
    requires Submap(small, big) && Reaches(reg, small, k, x)
    ensures Reaches(reg, big, k, x)
  {
    var p :| Chain(reg, small, k, p) && x == if p == [] then k else p[|p| - 1];
    ChainGrows(reg, small, big, k, p);
  }

  /** Records of the rule's collection, each stored under its own id, that point to `id`. */
  ghost predicate MatchesOf(data: Records, rule: Rule, id: string, ms: seq<Row>) {
    forall m :: m in ms ==>
      && m.Id().Some? && m.PointsAt(rule.field, id)
      && Key(rule.collection, m.Id().value) in data && data[Key(rule.collection, m.Id().value)] == m
  }

  // ----- Only what cascades from the target is removed ------------------------------------------

  ghost predicate RemovedReach(reg: Registry, before: Records, after: Records, k: Key) {
    forall x :: x in before && x !in after ==> Reaches(reg, before, k, x)
  }

  lemma {:induction false} DeleteRemovesReachable(env: Env, u: set<string>, w: World, busy: set<string>, k: Key)
    requires WellKeyed(w.data) && Covers(u, w.data) && FrameKey(k) in u
    ensures RemovedReach(env.reg, w.data, Delete(env, u, w, busy, k).0.data, k)
    decreases |u - busy|, 1, 0
  {
    ReachesSelf(env.reg, w.data, k);
    if k.coll in env.writable { EnforceRemovesReachable(env, u, w, busy, k); }
  }

  lemma {:induction false} EnforceRemovesReachable(env: Env, u: set<string>, w: World, busy: set<string>, k: Key)
    requires WellKeyed(w.data) && Covers(u, w.data) && FrameKey(k) in u
    ensures RemovedReach(env.reg, w.data, EnforceOnDelete(env, u, w, busy, k).0.data, k)
    decreases |u - busy|, 0, 0
  {
    if FrameKey(k) !in busy {
      var inner := busy + {FrameKey(k)};
      assert u - inner == (u - busy) - {FrameKey(k)};
      WalkRemovesReachable(env, u, w, inner, k, env.reg.Inbound(k.coll));
    }
  }

  lemma {:induction false} WalkRemovesReachable(env: Env, u: set<string>, w: World, busy: set<string>, k: Key, rules: seq<Rule>)
    requires WellKeyed(w.data) && Covers(u, w.data)
    requires forall r :: r in rules ==> r in env.reg.Inbound(k.coll)
    ensures RemovedReach(env.reg, w.data, WalkRules(env, u, w, busy, k, rules).0.data, k)
    decreases |u - busy|, 3, |rules|
  {
    if rules != [] {
      var rule := rules[0];
      var ms := Matching(w.data, w.order, rule, k.id);
      if ms == [] || rule.mode.Warn? {
        WalkRemovesReachable(env, u, w, busy, k, rules[1..]);
      } else if rule.mode.Cascade? {
        DeleteAllRemovesReachable(env, u, w, busy, w.data, k, rule, ms);
        var (w', o) := DeleteAll(env, u, w, busy, rule.collection, ms);
        if o.Done? {
          WalkRemovesReachable(env, u, w', busy, k, rules[1..]);
          var end := WalkRules(env, u, w', busy, k, rules[1..]).0.data;
          forall x | x in w.data && x !in end
            ensures Reaches(env.reg, w.data, k, x)
          {
            if x in w'.data { ReachesGrows(env.reg, w'.data, w.data, k, x); }
          }
        }
      }
    }
  }

  lemma {:induction false} DeleteAllRemovesReachable(env: Env, u: set<string>, w: World, busy: set<string>, origin: Records, k: Key, rule: Rule, ms: seq<Row>)
    requires WellKeyed(w.data) && Covers(u, w.data) && Nameable(u, rule.collection, ms)
    requires Submap(w.data, origin) && WellKeyed(origin)
    requires rule in env.reg.Inbound(k.coll) && rule.mode.Cascade?
    requires MatchesOf(origin, rule, k.id, ms)
    ensures var w' := DeleteAll(env, u, w, busy, rule.collection, ms).0;
      forall x :: x in w.data && x !in w'.data ==> Reaches(env.reg, origin, k, x)
    decreases |u - busy|, 2, |ms|
  {
    if ms != [] {
      assert ms[0] in ms;
      var m := Key(rule.collection, ms[0].Id().value);
      DeleteRemovesReachable(env, u, w, busy, m);
      var (w', o) := Delete(env, u, w, busy, m);
      forall x | x in w.data && x !in w'.data
        ensures Reaches(env.reg, origin, k, x)
      {
        ReachesGrows(env.reg, w.data, origin, m, x);
        ReachesVia(env.reg, origin, k, m, x);
      }
      if o.Done? { DeleteAllRemovesReachable(env, u, w', busy, origin, k, rule, ms[1..]); }
    }
  }

  // ----- ... and on a normal return all of it is ---------------------------------------------------

  lemma {:induction false} ChainGone(reg: Registry, before: Records, after: Records, k: Key, p: seq<Key>)
    requires Submap(after, before) && k !in after && Chain(reg, before, k, p) && p != []
    requires forall x :: x == k || (x in before && x !in after) ==> Unreferenced(reg, after, x)
    ensures p[|p| - 1] !in after
    decreases |p|
  {
    var rule :| rule in reg.Inbound(k.coll) && rule.mode == Cascade && p[0].coll == rule.collection &&
                before[p[0]].PointsAt(rule.field, k.id);
    assert !Held(after, rule, k.id);
    assert p[0] !in after;
    if |p| > 1 { ChainGone(reg, before, after, p[0], p[1..]); }
  }

  /** A top-level delete never removes more than the records that cascade from its target; if it
      returns normally it has removed exactly those, whatever cycles the refs form. */
  lemma DeleteRemovesExactlyTheCascade(env: Env, w: World, k: Key)
    requires env.reg.Scoped() && WellKeyed(w.data) && Listed(w)
    ensures var (w', o) := DeleteTop(env, w, k);
      && Submap(w'.data, w.data)
      && (forall x :: x in w.data && x !in w'.data ==> Reaches(env.reg, w.data, k, x))
      && (o.Done? ==> forall x :: x in w.data ==> (x !in w'.data <==> Reaches(env.reg, w.data, k, x)))
  {
    var (w', o) := DeleteTop(env, w, k);
    DeleteRemovesReachable(env, Universe(w.data, k), w, {}, k);
    NormalDeleteLeavesNoRefs(env, w, k);
    if o.Done? {
      forall x | x in w.data && Reaches(env.reg, w.data, k, x)
        ensures x !in w'.data
      {
        var p :| Chain(env.reg, w.data, k, p) && x == if p == [] then k else p[|p| - 1];
        if p != [] { ChainGone(env.reg, w.data, w'.data, k, p); }
      }
    }
  }

  // ----- When it returns normally -------------------------------------------------------------------

  /** Nothing stands in the way of deleting `x`. */
  ghost predicate Deletable(env: Env, data: Records, x: Key) {
    x.coll in env.writable && forall y :: !PointsTo(env.reg, data, Strict, y, x)
  }

  ghost predicate CascadeDeletable(env: Env, data: Records, k: Key) {
    forall x :: Reaches(env.reg, data, k, x) ==> Deletable(env, data, x)
  }

  lemma {:induction false} DeleteSucceeds(env: Env, u: set<string>, w: World, busy: set<string>, k: Key)
    requires env.faulty == {} && WellKeyed(w.data) && Covers(u, w.data) && FrameKey(k) in u
    requires CascadeDeletable(env, w.data, k)
    ensures Delete(env, u, w, busy, k).1.Done?
    decreases |u - busy|, 1, 0
  {
    ReachesSelf(env.reg, w.data, k);
    assert Deletable(env, w.data, k);
    if FrameKey(k) !in busy {
      var inner := busy + {FrameKey(k)};
      assert u - inner == (u - busy) - {FrameKey(k)};
      WalkSucceeds(env, u, w, inner, k, env.reg.Inbound(k.coll));
    }
  }

  lemma {:induction false} WalkSucceeds(env: Env, u: set<string>, w: World, busy: set<string>, k: Key, rules: seq<Rule>)
    requires env.faulty == {} && WellKeyed(w.data) && Covers(u, w.data)
    requires CascadeDeletable(env, w.data, k)
    requires forall r :: r in rules ==> r in env.reg.Inbound(k.coll)
    ensures WalkRules(env, u, w, busy, k, rules).1.Done?
    decreases |u - busy|, 3, |rules|
  {
    if rules != [] {
      var rule := rules[0];
      var ms := Matching(w.data, w.order, rule, k.id);
      if ms == [] || rule.mode.Warn? {
        WalkSucceeds(env, u, w, busy, k, rules[1..]);
      } else {
        NoStrictMatch(env, w, k, rule, ms);
        DeleteAllSucceeds(env, u, w, busy, w.data, k, rule, ms);
        var w' := DeleteAll(env, u, w, busy, rule.collection, ms).0;
        StillDeletable(env, w'.data, w.data, k);
        WalkSucceeds(env, u, w', busy, k, rules[1..]);
      }
    }
  }

  lemma NoStrictMatch(env: Env, w: World, k: Key, rule: Rule, ms: seq<Row>)
    requires CascadeDeletable(env, w.data, k) && rule in env.reg.Inbound(k.coll)
    requires ms == Matching(w.data, w.order, rule, k.id) && ms != []
    ensures !rule.mode.Strict?
  {
    ReachesSelf(env.reg, w.data, k);
    assert ms[0] in ms;
    var y :| y in w.data && y.coll == rule.collection && w.data[y] == ms[0] && ms[0].PointsAt(rule.field, k.id);
    assert Deletable(env, w.data, k);
    assert !PointsTo(env.reg, w.data, Strict, y, k);
  }

  lemma StillDeletable(env: Env, small: Records, big: Records, k: Key)
    requires Submap(small, big) && CascadeDeletable(env, big, k)
    ensures CascadeDeletable(env, small, k)
  {
    forall x | Reaches(env.reg, small, k, x)
      ensures Deletable(env, small, x)
    {
      ReachesGrows(env.reg, small, big, k, x);
      assert Deletable(env, big, x);
      forall y
        ensures !PointsTo(env.reg, small, Strict, y, x)
      {
        assert !PointsTo(env.reg, big, Strict, y, x);
      }
    }
  }

  lemma {:induction false} DeleteAllSucceeds(env: Env, u: set<string>, w: World, busy: set<string>, origin: Records, k: Key, rule: Rule, ms: seq<Row>)
    requires env.faulty == {} && WellKeyed(w.data) && Covers(u, w.data) && Nameable(u, rule.collection, ms)
    requires Submap(w.data, origin) && WellKeyed(origin) && CascadeDeletable(env, origin, k)
    requires rule in env.reg.Inbound(k.coll) && rule.mode.Cascade?
    requires MatchesOf(origin, rule, k.id, ms)
    ensures DeleteAll(env, u, w, busy, rule.collection, ms).1.Done?
    decreases |u - busy|, 2, |ms|
  {
    if ms != [] {
      assert ms[0] in ms;
      var m := Key(rule.collection, ms[0].Id().value);
      forall x | Reaches(env.reg, origin, m, x)
        ensures Deletable(env, origin, x)
      {
        ReachesVia(env.reg, origin, k, m, x);
      }
      StillDeletable(env, w.data, origin, m);
      DeleteSucceeds(env, u, w, busy, m);
      var w' := Delete(env, u, w, busy, m).0;
      DeleteAllSucceeds(env, u, w', busy, origin, k, rule, ms[1..]);
    }
  }

  /** With a working store, write access to every collection the cascade touches and no strict
      ref into it, a delete returns normally. */
  lemma UnobstructedDeleteReturns(env: Env, w: World, k: Key)
    requires env.faulty == {} && WellKeyed(w.data) && CascadeDeletable(env, w.data, k)
    ensures DeleteTop(env, w, k).1.Done?
  {
    DeleteSucceeds(env, Universe(w.data, k), w, {}, k);
  }

  // ----- Cycles --------------------------------------------------------------------------------------

  /** Even when cascades form cycles, a delete that returns normally ends in a strict-safe state. */
  lemma NormalDeleteEndsStrictSafe(env: Env, w: World, k: Key)
    requires SafeWorld(env, w)
    ensures var (w', o) := DeleteTop(env, w, k); o.Done? ==> StrictSafe(env.reg, w'.data)
  {
    var (w', o) := DeleteTop(env, w, k);
    if o.Done? {
      NormalDeleteLeavesNoRefs(env, w, k);
      forall x, r | x in w'.data && r in env.reg.Outbound(x.coll) && r.mode.Strict?
        ensures Resolved(w'.data, w'.data[x], r)
      {
        assert Resolved(w.data, w.data[x], r);
        var rule, v := Rule(x.coll, r.field, r.mode), w'.data[x].Field(r.field);
        assert r == FieldRef(rule.field, r.target, rule.mode);
        assert rule in env.reg.Inbound(r.target);
        assert v.Null? || Held(w'.data, rule, RefId(v).value);
      }
    }
  }
}
