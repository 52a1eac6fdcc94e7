/** What an outcome of `put` or `delete` says is true. */
module CascadeRefusals {
  import opened Wrappers
  import opened Refs
  import opened Stores
  import opened Cascade
  import opened CascadeSafety

  /** The store has failed at one of the ticks since. */
  predicate FailedBetween(env: Env, from: nat, to: nat) {
    from < to && to - 1 in env.faulty && forall t :: from <= t < to - 1 ==> t !in env.faulty
  }

  predicate WorkedBetween(env: Env, from: nat, to: nat) {
    from <= to && forall t :: from <= t < to ==> t !in env.faulty
  }

  /** A strict rule for the target is broken by a record that is there, and that the outcome names. */
  ghost predicate Names(env: Env, data: Records, o: Outcome) {
    o.RefViolation? && o.refId.Some? && Rule(o.coll, o.field, Strict) in env.reg.Inbound(o.refTo)
    && exists x :: x in data && x.coll == o.coll && data[x].Id() == o.id && data[x].PointsAt(o.field, o.refId.value)
  }

  /** The collection, or one that a cascade rule deletes from, may not be written. */
  ghost predicate Unwritable(env: Env, coll: string) {
    coll !in env.writable || exists t, r :: r in env.reg.Inbound(t) && r.mode.Cascade? && r.collection !in env.writable
  }

  /** How a delete in the collection ended: by itself, with a failing store, in a collection that may not be
      written, or at a record with a strict ref that is still there. */
  ghost predicate HasReason(env: Env, w: World, w': World, coll: string, o: Outcome) {
    match o
    case Done => WorkedBetween(env, w.tick, w'.tick)
    case StoreFailed => FailedBetween(env, w.tick, w'.tick)
    case ReadOnly => WorkedBetween(env, w.tick, w'.tick) && Unwritable(env, coll)
    case RefViolation(_, _, _, _, _) => WorkedBetween(env, w.tick, w'.tick) && Names(env, w'.data, o)
  }

  lemma ReasonComposes(env: Env, w: World, w1: World, w2: World, coll: string, o: Outcome)
    requires HasReason(env, w, w1, coll, Done) && HasReason(env, w1, w2, coll, o)
    ensures HasReason(env, w, w2, coll, o)
  {
  }

  /** A delete is refused for a reason, and the reason holds in the state it leaves behind: the record
      that a violation names is there, with a strict ref to what was to be deleted. */
  lemma {:induction false} DeleteHasReason(env: Env, u: set<string>, w: World, busy: set<string>, k: Key)
    requires Covers(u, w.data) && FrameKey(k) in u
    ensures var (w', o) := Delete(env, u, w, busy, k); HasReason(env, w, w', k.coll, o)
    decreases |u - busy|, 1, 0
  {
    if k.coll in env.writable {
      EnforceHasReason(env, u, w, busy, k);
      var (w1, o) := EnforceOnDelete(env, u, w, busy, k);
      if o.Done? {
        var (w2, o2) := StoreDelete(env, w1, k);
        ReasonComposes(env, w, w1, w2, k.coll, o2);
      }
    }
  }

  lemma {:induction false} EnforceHasReason(env: Env, u: set<string>, w: World, busy: set<string>, k: Key)
    requires Covers(u, w.data) && FrameKey(k) in u
    ensures var (w', o) := EnforceOnDelete(env, u, w, busy, k); HasReason(env, w, w', k.coll, o)
    decreases |u - busy|, 0, 0
  {
    if FrameKey(k) !in busy {
      var inner := busy + {FrameKey(k)};
      assert u - inner == (u - busy) - {FrameKey(k)};
      WalkHasReason(env, u, w, inner, k, env.reg.Inbound(k.coll));
    }
  }

  lemma {:induction false} WalkHasReason(env: Env, u: set<string>, w: World, busy: set<string>, k: Key, rules: seq<Rule>)
    requires Covers(u, w.data) && forall r :: r in rules ==> r in env.reg.Inbound(k.coll)
    ensures var (w', o) := WalkRules(env, u, w, busy, k, rules); HasReason(env, w, w', k.coll, o)
    decreases |u - busy|, 3, |rules|
  {
    if rules != [] {
      var rule := rules[0];
      var ms := Matching(w.data, w.order, rule, k.id);
      if ms == [] || rule.mode.Warn? {
        WalkHasReason(env, u, w, busy, k, rules[1..]);
      } else if rule.mode.Strict? {
        StrictMatchIsNamed(env, w, k, rule, ms);
      } else {
        DeleteAllHasReason(env, u, w, busy, rule.collection, ms);
        var (w1, o) := DeleteAll(env, u, w, busy, rule.collection, ms);
        if o.Done? {
          WalkHasReason(env, u, w1, busy, k, rules[1..]);
          var (w2, o2) := WalkRules(env, u, w1, busy, k, rules[1..]);
          ReasonComposes(env, w, w1, w2, k.coll, o2);
        }
      }
    }
  }

  lemma StrictMatchIsNamed(env: Env, w: World, k: Key, rule: Rule, ms: seq<Row>)
    requires ms == Matching(w.data, w.order, rule, k.id) && ms != []
    requires rule in env.reg.Inbound(k.coll) && rule.mode.Strict?
    ensures Names(env, w.data, RefViolation(rule.collection, ms[0].Id(), rule.field, k.coll, Some(k.id)))
  {
    assert ms[0] in ms;
    var x :| x in w.order && x in w.data && x.coll == rule.collection && w.data[x] == ms[0] && ms[0].PointsAt(rule.field, k.id);
    assert rule == Rule(rule.collection, rule.field, Strict);
  }

  lemma {:induction false} DeleteAllHasReason(env: Env, u: set<string>, w: World, busy: set<string>, coll: string, ms: seq<Row>)
    requires Covers(u, w.data) && Nameable(u, coll, ms)
    ensures var (w', o) := DeleteAll(env, u, w, busy, coll, ms); HasReason(env, w, w', coll, o)
    decreases |u - busy|, 2, |ms|
  {
    if ms == [] {
    } else if ms[0].Id().None? {
      DeleteAllHasReason(env, u, w, busy, coll, ms[1..]);
    } else {
      var k := Key(coll, ms[0].Id().value);
      DeleteHasReason(env, u, w, busy, k);
      var (w1, o) := Delete(env, u, w, busy, k);
      if o.Done? {
        DeleteAllHasReason(env, u, w1, busy, coll, ms[1..]);
        var (w2, o2) := DeleteAll(env, u, w1, busy, coll, ms[1..]);
        ReasonComposes(env, w, w1, w2, coll, o2);
      }
    }
  }

  // ----- Put -------------------------------------------------------------------------------------------

  /** The ref that a refused put names is declared, strict and unmet, and all declared before it are met. */
  lemma {:induction false} PutViolationIsFirst(data: Records, coll: string, row: Row, refs: seq<FieldRef>)
    ensures var o := UnmetStrictRef(data, coll, row, refs);
      o.Done? || exists i :: 0 <= i < |refs| && IsFirstUnmet(data, coll, row, refs, i, o)
  {
    if refs != [] {
      PutViolationIsFirst(data, coll, row, refs[1..]);
      var o := UnmetStrictRef(data, coll, row, refs);
      if !o.Done? {
        if o == UnmetStrictRef(data, coll, row, refs[1..]) && (!refs[0].mode.Strict? || Resolved(data, row, refs[0])) {
          var i :| 0 <= i < |refs[1..]| && IsFirstUnmet(data, coll, row, refs[1..], i, o);
          assert IsFirstUnmet(data, coll, row, refs, i + 1, o);
        } else {
          assert IsFirstUnmet(data, coll, row, refs, 0, o);
        }
      }
    }
  }

  predicate IsFirstUnmet(data: Records, coll: string, row: Row, refs: seq<FieldRef>, i: nat, o: Outcome)
    requires i < |refs|
  {
    && refs[i].mode.Strict? && !Resolved(data, row, refs[i])
    && (forall j :: 0 <= j < i ==> !refs[j].mode.Strict? || Resolved(data, row, refs[j]))
    && o == RefViolation(coll, row.Id(), refs[i].field, refs[i].target, RefId(row.Field(refs[i].field)))
  }

  /** A put goes through exactly if the collection may be written, the strict refs resolve and the store
      works; then the record holds its fields, in its old place of the cache or, if new, at the end, and every
      other record is as it was. */
  lemma PutGoesThroughExactly(env: Env, w: World, k: Key, fields: map<string, Value>)
    ensures var (w', o) := Put(env, w, k, fields);
      && (o.Done? <==>
            && k.coll in env.writable && w.tick !in env.faulty
            && forall r :: r in env.reg.Outbound(k.coll) && r.mode.Strict? ==> Resolved(w.data, Row(0, fields), r))
      && (o.Done? ==> k in w'.data && w'.data[k].fields == fields && forall x :: x != k ==> Lookup(w'.data, x) == Lookup(w.data, x))
      && (o.Done? ==> if k in w.data then w'.order == w.order else w'.order != [] && w'.order[|w'.order| - 1] == k)
      && (!o.Done? ==> w'.data == w.data && w'.log == w.log)
  {
    var row := Row(if k in w.data then w.data[k].version + 1 else 1, fields);
    MetOnPut(w.data, k.coll, row, env.reg.Outbound(k.coll));
    forall r
      ensures Resolved(w.data, row, r) == Resolved(w.data, Row(0, fields), r)
    {
      assert row.Field(r.field) == Row(0, fields).Field(r.field);
    }
  }
}
