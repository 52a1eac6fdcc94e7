/** What `put` and `delete` of a vault do to its records, as functions.

    A `World` is the state a run passes through: the records, the insertion order of the
    collection caches, a clock of store writes, and the log of every state a store write has
    produced. The store fails at the ticks in `faulty`; a failure aborts the whole operation. */
module Cascade {
  import opened Wrappers
  import opened Refs
  import opened Stores

  /** A field value as the ref checks see it. A number is given by its `String()` rendering. */
  datatype Value = Null | Str(s: string) | Num(text: string) | Other

  datatype Row = Row(version: nat, fields: map<string, Value>)
  {
    function Field(f: string): Value {
      if f in fields then fields[f] else Null
    }

    /** The record's own `id` field. */
    function Id(): Option<string> {
      match Field("id")
      case Str(s) => Some(s)
      case _ => None
    }

    /** The record's field holds the id of the given target. */
    predicate PointsAt(f: string, id: string) {
      RefId(Field(f)) == Some(id)
    }
  }

  function RefId(v: Value): Option<string> {
    match v
    case Str(s) => Some(s)
    case Num(t) => Some(t)
    case _ => None
  }

  type Records = map<Key, Row>

  datatype World = World(data: Records, order: seq<Key>, tick: nat, log: seq<Records>)

  datatype Env = Env(reg: Registry, writable: set<string>, faulty: set<nat>)

  datatype Outcome =
    | Done
    | ReadOnly
    | StoreFailed
    | RefViolation(coll: string, id: Option<string>, field: string, refTo: string, refId: Option<string>)

  /** The entry a delete leaves in the in-progress set. */
  function FrameKey(k: Key): string {
    k.coll + "/" + k.id
  }

  // ----- Steps -----------------------------------------------------------------------------

  function StoreDelete(env: Env, w: World, k: Key): (World, Outcome) {
    if w.tick in env.faulty then (w.(tick := w.tick + 1), StoreFailed)
    else
      var data := w.data - {k};
      (World(data, Without(w.order, k), w.tick + 1, w.log + [data]), Done)
  }

  function StorePut(env: Env, w: World, k: Key, row: Row): (World, Outcome) {
    if w.tick in env.faulty then (w.(tick := w.tick + 1), StoreFailed)
    else
      var data := w.data[k := row];
      (World(data, if k in w.data then w.order else Without(w.order, k) + [k], w.tick + 1, w.log + [data]), Done)
  }

  /** The records of the rule's collection, in cache order, whose field holds `id`. */
  function Matching(data: Records, order: seq<Key>, rule: Rule, id: string): (ms: seq<Row>)
    ensures forall m :: m in ms <==>
      exists x :: x in order && x in data && x.coll == rule.collection && data[x] == m && m.PointsAt(rule.field, id)
  {
    if order == [] then []
    else
      var x := order[0];
      var rest := Matching(data, order[1..], rule, id);
      if x.coll == rule.collection && x in data && data[x].PointsAt(rule.field, id) then [data[x]] + rest else rest
  }

  /** `checkRefs` on put: the first strict ref that is not a scalar or has no target. */
  function UnmetStrictRef(data: Records, coll: string, row: Row, refs: seq<FieldRef>): Outcome {
    if refs == [] then Done
    else
      var r := refs[0];
      var v := row.Field(r.field);
      if !r.mode.Strict? || v.Null? then UnmetStrictRef(data, coll, row, refs[1..])
      else if RefId(v).None? then RefViolation(coll, row.Id(), r.field, r.target, None)
      else if Key(r.target, RefId(v).value) !in data then
        RefViolation(coll, row.Id(), r.field, r.target, RefId(v))
      else UnmetStrictRef(data, coll, row, refs[1..])
  }

  function Put(env: Env, w: World, k: Key, fields: map<string, Value>): (World, Outcome) {
    if k.coll !in env.writable then (w, ReadOnly)
    else
      var row := Row(if k in w.data then w.data[k].version + 1 else 1, fields);
      var check := UnmetStrictRef(w.data, k.coll, row, env.reg.Outbound(k.coll));
      if !check.Done? then (w, check) else StorePut(env, w, k, row)
  }

  // ----- Delete with cascade -----------------------------------------------------------------

  ghost predicate Submap(small: Records, big: Records) {
    small.Keys <= big.Keys && forall x :: x in small ==> small[x] == big[x]
  }

  /** `universe` holds the frame key of every record a cascade over `data` can name. */
  ghost predicate Covers(universe: set<string>, data: Records) {
    forall x :: x in data && data[x].Id().Some? ==> FrameKey(Key(x.coll, data[x].Id().value)) in universe
  }

  ghost function Universe(data: Records, k: Key): (u: set<string>)
    ensures Covers(u, data) && FrameKey(k) in u
  {
    (set x | x in data && data[x].Id().Some? :: FrameKey(Key(x.coll, data[x].Id().value))) + {FrameKey(k)}
  }

  /** `Collection.delete(id)` while the deletes in `busy` are in progress. */
  ghost function Delete(env: Env, u: set<string>, w: World, busy: set<string>, k: Key): (r: (World, Outcome))
    requires Covers(u, w.data) && FrameKey(k) in u
    ensures Submap(r.0.data, w.data)
    decreases |u - busy|, 1, 0
  {
    if k.coll !in env.writable then (w, ReadOnly)
    else
      var (w', o) := EnforceOnDelete(env, u, w, busy, k);
      if !o.Done? then (w', o) else StoreDelete(env, w', k)
  }

  /** `enforceRefsOnDelete(collection, id)`. */
  ghost function EnforceOnDelete(env: Env, u: set<string>, w: World, busy: set<string>, k: Key): (r: (World, Outcome))
    requires Covers(u, w.data) && FrameKey(k) in u
    ensures Submap(r.0.data, w.data)
    decreases |u - busy|, 0, 0
  {
    if FrameKey(k) in busy then (w, Done)
    else
      assert u - (busy + {FrameKey(k)}) == (u - busy) - {FrameKey(k)};
      WalkRules(env, u, w, busy + {FrameKey(k)}, k, env.reg.Inbound(k.coll))
  }

  /** The loop over the inbound rules of the deleted record's collection. */
  ghost function WalkRules(env: Env, u: set<string>, w: World, busy: set<string>, k: Key, rules: seq<Rule>)
    : (r: (World, Outcome))
    requires Covers(u, w.data)
    ensures Submap(r.0.data, w.data)
    decreases |u - busy|, 3, |rules|
  {
    if rules == [] then (w, Done)
    else
      var rule := rules[0];
      var ms := Matching(w.data, w.order, rule, k.id);
      if ms == [] || rule.mode.Warn? then WalkRules(env, u, w, busy, k, rules[1..])
      else if rule.mode.Strict? then
        (w, RefViolation(rule.collection, ms[0].Id(), rule.field, k.coll, Some(k.id)))
      else
        var (w', o) := DeleteAll(env, u, w, busy, rule.collection, ms);
        if !o.Done? then (w', o) else WalkRules(env, u, w', busy, k, rules[1..])
  }

  ghost predicate Nameable(u: set<string>, coll: string, ms: seq<Row>) {
    forall m :: m in ms && m.Id().Some? ==> FrameKey(Key(coll, m.Id().value)) in u
  }

  /** The loop that deletes the matches of one cascade rule; a record without an id is skipped. */
  ghost function DeleteAll(env: Env, u: set<string>, w: World, busy: set<string>, coll: string, ms: seq<Row>)
    : (r: (World, Outcome))
    requires Covers(u, w.data) && Nameable(u, coll, ms)
    ensures Submap(r.0.data, w.data)
    decreases |u - busy|, 2, |ms|
  {
    if ms == [] then (w, Done)
    else if ms[0].Id().None? then DeleteAll(env, u, w, busy, coll, ms[1..])
    else
      var (w', o) := Delete(env, u, w, busy, Key(coll, ms[0].Id().value));
      if !o.Done? then (w', o) else DeleteAll(env, u, w', busy, coll, ms[1..])
  }

  /** A delete called from outside: nothing is in progress. */
  ghost function DeleteTop(env: Env, w: World, k: Key): (r: (World, Outcome)) {
    Delete(env, Universe(w.data, k), w, {}, k)
  }
}
