/** What a cascading delete guarantees, for every ref graph. */
module CascadeIntegrity {
  import opened Wrappers
  import opened Refs
  import opened Stores
  import opened Cascade

  /** Each record's `id` field repeats the id it is stored under. */
  ghost predicate WellKeyed(data: Records) {
    forall x :: x in data ==> data[x].Id() == Some(x.id)
  }

  ghost predicate Listed(w: World) {
    forall x :: x in w.data ==> x in w.order
  }

  ghost predicate Held(data: Records, rule: Rule, id: string) {
    exists x :: x in data && x.coll == rule.collection && data[x].PointsAt(rule.field, id)
  }

  /** No record holds a strict or cascade ref to `k`. */
  ghost predicate Unreferenced(reg: Registry, data: Records, k: Key) {
    forall rule :: rule in reg.Inbound(k.coll) && !rule.mode.Warn? ==> !Held(data, rule, k.id)
  }

  /** Everything removed on the way from `before` to `after` is unreferenced, or an enclosing
      delete is still working on it. */
  ghost predicate Settled(reg: Registry, before: Records, after: Records, busy: set<string>) {
    forall x :: x in before && x !in after ==> FrameKey(x) in busy || Unreferenced(reg, after, x)
  }

  // ----- Frame keys --------------------------------------------------------------------------

  lemma NoInbound(reg: Registry, k: Key)
    requires reg.Scoped() && '/' in k.coll
    ensures reg.Inbound(k.coll) == []
  {
    HasMember(reg.Inbound(k.coll));
  }

  /** The slash-joined keys tell records of ref targets apart. */
  lemma FrameKeyInjective(x: Key, y: Key)
    requires FrameKey(x) == FrameKey(y) && '/' !in x.coll && '/' !in y.coll
    ensures x == y
  {
    var n, m := |x.coll|, |y.coll|;
    assert forall i | 0 <= i < n :: FrameKey(x)[i] == x.coll[i] != '/';
    assert forall i | 0 <= i < m :: FrameKey(y)[i] == y.coll[i] != '/';
    assert FrameKey(x)[n] == '/' && FrameKey(y)[m] == '/';
    assert x.coll == FrameKey(x)[..n] == y.coll;
    assert x.id == FrameKey(x)[n + 1..] == y.id;
  }

  // ----- A normal return leaves nothing pointing at what was removed ----------------------------

  lemma {:induction false} DeleteSettles(env: Env, u: set<string>, w: World, busy: set<string>, k: Key)
    requires env.reg.Scoped() && WellKeyed(w.data) && Listed(w)
    requires Covers(u, w.data) && FrameKey(k) in u
    ensures var (w', o) := Delete(env, u, w, busy, k);
      && Listed(w')
      && (o.Done? ==> Settled(env.reg, w.data, w'.data, busy) && k !in w'.data)
      && (o.Done? && FrameKey(k) !in busy ==> Unreferenced(env.reg, w'.data, k))
    decreases |u - busy|, 1, 0
  {
    if k.coll in env.writable { EnforceSettles(env, u, w, busy, k); }
  }

  lemma {:induction false} EnforceSettles(env: Env, u: set<string>, w: World, busy: set<string>, k: Key)
    requires env.reg.Scoped() && WellKeyed(w.data) && Listed(w)
    requires Covers(u, w.data) && FrameKey(k) in u
    ensures var (w', o) := EnforceOnDelete(env, u, w, busy, k);
      && Listed(w')
      && (o.Done? ==> Settled(env.reg, w.data, w'.data, busy))
      && (o.Done? && FrameKey(k) !in busy ==> Unreferenced(env.reg, w'.data, k))
    decreases |u - busy|, 0, 0
  {
    if FrameKey(k) !in busy {
      var inner := busy + {FrameKey(k)};
      assert u - inner == (u - busy) - {FrameKey(k)};
      var rules := env.reg.Inbound(k.coll);
      WalkSettles(env, u, w, inner, k, rules);
      var (w', o) := WalkRules(env, u, w, inner, k, rules);
      if o.Done? {
        if '/' in k.coll { NoInbound(env.reg, k); }
        forall x | x in w.data && x !in w'.data && FrameKey(x) == FrameKey(k)
          ensures Unreferenced(env.reg, w'.data, x)
        {
          if '/' in x.coll { NoInbound(env.reg, x); } else { FrameKeyInjective(x, k); }
        }
      }
    }
  }

  lemma {:induction false} WalkSettles(env: Env, u: set<string>, w: World, busy: set<string>, k: Key, rules: seq<Rule>)
    requires env.reg.Scoped() && WellKeyed(w.data) && Listed(w)
    requires Covers(u, w.data)
    ensures var (w', o) := WalkRules(env, u, w, busy, k, rules);
      && Listed(w')
      && (o.Done? ==> Settled(env.reg, w.data, w'.data, busy))
      && (o.Done? ==> forall r :: r in rules && !r.mode.Warn? ==> !Held(w'.data, r, k.id))
    decreases |u - busy|, 3, |rules|
  {
    if rules != [] {
      var rule := rules[0];
      var ms := Matching(w.data, w.order, rule, k.id);
      if ms == [] || rule.mode.Warn? {
        MatchingEmpty(w, rule, k.id);
        WalkSettles(env, u, w, busy, k, rules[1..]);
      } else if rule.mode.Cascade? {
        DeleteAllSettles(env, u, w, busy, rule.collection, ms);
        var (w', o) := DeleteAll(env, u, w, busy, rule.collection, ms);
        if o.Done? { WalkSettles(env, u, w', busy, k, rules[1..]); }
      }
    }
  }

  lemma MatchingEmpty(w: World, rule: Rule, id: string)
    requires Listed(w)
    ensures Matching(w.data, w.order, rule, id) == [] ==> !Held(w.data, rule, id)
  {
    var ms := Matching(w.data, w.order, rule, id);
    if Held(w.data, rule, id) {
      var x :| x in w.data && x.coll == rule.collection && w.data[x].PointsAt(rule.field, id);
      assert w.data[x] in ms;
    }
  }

  lemma {:induction false} DeleteAllSettles(env: Env, u: set<string>, w: World, busy: set<string>, coll: string, ms: seq<Row>)
    requires env.reg.Scoped() && WellKeyed(w.data) && Listed(w)
    requires Covers(u, w.data) && Nameable(u, coll, ms)
    ensures var (w', o) := DeleteAll(env, u, w, busy, coll, ms);
      && Listed(w')
      && (o.Done? ==> Settled(env.reg, w.data, w'.data, busy))
      && (o.Done? ==> forall m :: m in ms && m.Id().Some? ==> Key(coll, m.Id().value) !in w'.data)
    decreases |u - busy|, 2, |ms|
  {
    if ms == [] {
    } else if ms[0].Id().None? {
      DeleteAllSettles(env, u, w, busy, coll, ms[1..]);
    } else {
      var k := Key(coll, ms[0].Id().value);
      DeleteSettles(env, u, w, busy, k);
      var (w', o) := Delete(env, u, w, busy, k);
      if o.Done? { DeleteAllSettles(env, u, w', busy, coll, ms[1..]); }
    }
  }

  /** No record of the rule's collection has the id in the rule's field, as a string or as a number. */
  ghost predicate NoTextNames(data: Records, rule: Rule, id: string) {
    forall y :: y in data && y.coll == rule.collection ==>
      data[y].Field(rule.field) != Str(id) && data[y].Field(rule.field) != Num(id)
  }

  lemma NotHeldNoText(data: Records, rule: Rule, id: string)
    requires !Held(data, rule, id)
    ensures NoTextNames(data, rule, id)
  {
    forall y | y in data && y.coll == rule.collection
      ensures data[y].Field(rule.field) != Str(id) && data[y].Field(rule.field) != Num(id)
    {
      assert !data[y].PointsAt(rule.field, id);
    }
  }

  /** A top-level delete that returns normally leaves no strict or cascade ref to the record it
      was asked to delete, nor to any record the cascade removed: for every ref graph, cyclic
      ones included. */
  lemma NormalDeleteLeavesNoRefs(env: Env, w: World, k: Key)
    requires env.reg.Scoped() && WellKeyed(w.data) && Listed(w)
    ensures var (w', o) := DeleteTop(env, w, k);
      o.Done? ==>
        && k !in w'.data
        && (forall x :: x == k || (x in w.data && x !in w'.data) ==> Unreferenced(env.reg, w'.data, x))
        && (forall x, rule :: (x == k || (x in w.data && x !in w'.data)) && rule in env.reg.Inbound(x.coll) && !rule.mode.Warn? ==>
              NoTextNames(w'.data, rule, x.id))
  {
    DeleteSettles(env, Universe(w.data, k), w, {}, k);
    var w' := DeleteTop(env, w, k).0;
    forall x, rule | Unreferenced(env.reg, w'.data, x) && rule in env.reg.Inbound(x.coll) && !rule.mode.Warn?
      ensures NoTextNames(w'.data, rule, x.id)
    {
      NotHeldNoText(w'.data, rule, x.id);
    }
  }
}
