/** The vault: ref enforcement around puts and deletes, updating the records in place. */
module Vaults {
  import opened Wrappers
  import opened Refs
  import opened Stores
  import opened Cascade
  import opened CascadeIntegrity
  import opened CascadeSafety

  datatype Violation = Violation(key: Key, field: string, refTo: string, refId: Value, mode: Mode)

  /** What `checkIntegrity` reports: a ref of any mode that is not a scalar or has no target. */
  ghost predicate IsViolation(reg: Registry, data: Records, v: Violation) {
    && v.key in data && FieldRef(v.field, v.refTo, v.mode) in reg.Outbound(v.key.coll)
    && v.refId == data[v.key].Field(v.field)
    && !Resolved(data, data[v.key], FieldRef(v.field, v.refTo, v.mode))
  }

  /** `checkIntegrity` finds no strict violation exactly in the states the safety theorem is about. */
  lemma StrictSafeMeansNoStrictViolation(reg: Registry, data: Records)
    ensures StrictSafe(reg, data) <==> forall v :: IsViolation(reg, data, v) ==> !v.mode.Strict?
  {
    if forall v :: IsViolation(reg, data, v) ==> !v.mode.Strict? {
      forall x, r | x in data && r in reg.Outbound(x.coll) && r.mode.Strict?
        ensures Resolved(data, data[x], r)
      {
        var v := Violation(x, r.field, r.target, data[x].Field(r.field), r.mode);
        assert r == FieldRef(v.field, v.refTo, v.mode);
        assert !IsViolation(reg, data, v);
      }
    }
  }

  class Vault {
    const registry: RefRegistry
    /** Collections the keyring may write. */
    const writable: set<string>
    /** The store writes that fail, by position in the run. */
    const faulty: set<nat>

    var data: Records
    var order: seq<Key>
    var tick: nat
    var cascadeInProgress: set<string>
    ghost var log: seq<Records>

    constructor (registry: RefRegistry, writable: set<string>, faulty: set<nat>)
      ensures this.registry == registry && this.writable == writable && this.faulty == faulty
      ensures Now() == World(map[], [], 0, []) && cascadeInProgress == {}
    {
      this.registry, this.writable, this.faulty := registry, writable, faulty;
      data, order, tick, cascadeInProgress, log := map[], [], 0, {}, [];
    }

    ghost function Now(): World
      reads this
    {
      World(data, order, tick, log)
    }

    ghost function Setting(): Env
      reads registry
    {
      Env(registry.View(), writable, faulty)
    }

    method StoreRemove(k: Key) returns (o: Outcome)
      modifies this
      ensures (Now(), o) == StoreDelete(Setting(), old(Now()), k)
      ensures cascadeInProgress == old(cascadeInProgress)
    {
      if tick in faulty {
        tick := tick + 1;
        return StoreFailed;
      }
      data, order, tick := data - {k}, Without(order, k), tick + 1;
      log := log + [data];
      return Done;
    }

    /** The check of strict outbound refs that precedes a write. */
    method EnforceRefsOnPut(coll: string, row: Row) returns (o: Outcome)
      ensures o == UnmetStrictRef(data, coll, row, registry.View().Outbound(coll))
      ensures o.Done? <==> forall r :: r in registry.View().Outbound(coll) && r.mode.Strict? ==> Resolved(data, row, r)
    {
      var refs := registry.View().Outbound(coll);
      MetOnPut(data, coll, row, refs);
      var i := 0;
      while i < |refs|
        invariant 0 <= i <= |refs|
        invariant UnmetStrictRef(data, coll, row, refs) == UnmetStrictRef(data, coll, row, refs[i..])
      {
        var r := refs[i];
        var v := row.Field(r.field);
        if r.mode.Strict? && !v.Null? {
          if RefId(v).None? {
            return RefViolation(coll, row.Id(), r.field, r.target, None);
          }
          if Key(r.target, RefId(v).value) !in data {
            return RefViolation(coll, row.Id(), r.field, r.target, RefId(v));
          }
        }
        i := i + 1;
      }
      return Done;
    }

    method PutRecord(k: Key, fields: map<string, Value>) returns (o: Outcome)
      modifies this
      ensures (Now(), o) == Put(Setting(), old(Now()), k, fields)
      ensures cascadeInProgress == old(cascadeInProgress)
    {
      if k.coll !in writable {
        return ReadOnly;
      }
      var row := Row(if k in data then data[k].version + 1 else 1, fields);
      o := EnforceRefsOnPut(k.coll, row);
      if !o.Done? {
        return;
      }
      if tick in faulty {
        tick := tick + 1;
        return StoreFailed;
      }
      if k !in data { order := Without(order, k) + [k]; }
      data, tick := data[k := row], tick + 1;
      log := log + [data];
    }

    /** `Collection.delete`: refs first, then the record itself. It terminates on every ref graph,
        and leaves the in-progress set as it found it on normal and on throwing exit. */
    method DeleteRecord(k: Key, ghost u: set<string>) returns (o: Outcome)
      requires Covers(u, data) && FrameKey(k) in u
      modifies this
      ensures (Now(), o) == Delete(Setting(), u, old(Now()), old(cascadeInProgress), k)
      ensures cascadeInProgress == old(cascadeInProgress)
      decreases |u - cascadeInProgress|, 1
    {
      if k.coll !in writable {
        return ReadOnly;
      }
      o := EnforceRefsOnDelete(k, u);
      if o.Done? {
        o := StoreRemove(k);
      }
    }

    method EnforceRefsOnDelete(k: Key, ghost u: set<string>) returns (o: Outcome)
      requires Covers(u, data) && FrameKey(k) in u
      modifies this
      ensures (Now(), o) == EnforceOnDelete(Setting(), u, old(Now()), old(cascadeInProgress), k)
      ensures cascadeInProgress == old(cascadeInProgress)
      decreases |u - cascadeInProgress|, 0
    {
      var key := FrameKey(k);
      if key in cascadeInProgress {
        return Done;
      }
      ghost var busy := cascadeInProgress + {key};
      assert u - busy == (u - cascadeInProgress) - {key};
      cascadeInProgress := cascadeInProgress + {key};
      var inbound := registry.View().Inbound(k.coll);
      var i := 0;
      o := Done;
      while i < |inbound| && o.Done?
        invariant 0 <= i <= |inbound|
        invariant cascadeInProgress == busy && Submap(data, old(data))
        invariant WalkRules(Setting(), u, old(Now()), busy, k, inbound) ==
                  if o.Done? then WalkRules(Setting(), u, Now(), busy, k, inbound[i..]) else (Now(), o)
      {
        o := ApplyRule(k, inbound[i..], u);
        assert inbound[i..][1..] == inbound[i + 1..];
        i := i + 1;
      }
      cascadeInProgress := cascadeInProgress - {key};
    }

    /** The first of the remaining rules. */
    method ApplyRule(k: Key, rules: seq<Rule>, ghost u: set<string>) returns (o: Outcome)
      requires rules != [] && Covers(u, data)
      modifies this
      ensures Submap(data, old(data)) && cascadeInProgress == old(cascadeInProgress)
      ensures WalkRules(Setting(), u, old(Now()), old(cascadeInProgress), k, rules) ==
              if o.Done? then WalkRules(Setting(), u, Now(), cascadeInProgress, k, rules[1..]) else (Now(), o)
      decreases |u - cascadeInProgress|, 3
    {
      var rule := rules[0];
      var matches := Matching(data, order, rule, k.id);
      if matches == [] || rule.mode.Warn? { return Done; }
      if rule.mode.Strict? {
        return RefViolation(rule.collection, matches[0].Id(), rule.field, k.coll, Some(k.id));
      }
      o := DeleteMatches(rule.collection, matches, u);
    }

    method DeleteMatches(coll: string, matches: seq<Row>, ghost u: set<string>) returns (o: Outcome)
      requires Covers(u, data) && Nameable(u, coll, matches)
      modifies this
      ensures (Now(), o) == DeleteAll(Setting(), u, old(Now()), old(cascadeInProgress), coll, matches)
      ensures cascadeInProgress == old(cascadeInProgress)
      decreases |u - cascadeInProgress|, 2
    {
      ghost var busy := cascadeInProgress;
      var j := 0;
      o := Done;
      while j < |matches| && o.Done?
        invariant 0 <= j <= |matches|
        invariant cascadeInProgress == busy && Submap(data, old(data))
        invariant DeleteAll(Setting(), u, old(Now()), busy, coll, matches) ==
                  if o.Done? then DeleteAll(Setting(), u, Now(), busy, coll, matches[j..]) else (Now(), o)
      {
        if matches[j].Id().Some? {
          o := DeleteRecord(Key(coll, matches[j].Id().value), u);
        }
        j := j + 1;
      }
    }

    /** A delete asked for by the application. */
    method DeleteTopLevel(k: Key) returns (o: Outcome)
      requires cascadeInProgress == {}
      modifies this
      ensures (Now(), o) == DeleteTop(Setting(), old(Now()), k)
      ensures cascadeInProgress == {}
    {
      o := DeleteRecord(k, Universe(data, k));
    }

    /** `checkIntegrity` lists the violations, each of them and nothing else. */
    method CheckIntegrity() returns (violations: seq<Violation>)
      requires Listed(Now())
      ensures forall v :: v in violations <==> IsViolation(registry.View(), data, v)
    {
      var reg := registry.View();
      var todo := reg.outbound.Keys;
      violations := [];
      while todo != {}
        invariant todo <= reg.outbound.Keys
        invariant forall v :: v in violations <==> v.key.coll !in todo && IsViolation(reg, data, v)
      {
        var coll :| coll in todo;
        var found := CollectionViolations(reg, coll);
        violations, todo := violations + found, todo - {coll};
      }
    }

    method CollectionViolations(reg: Registry, coll: string) returns (found: seq<Violation>)
      requires Listed(Now())
      ensures forall v :: v in found <==> v.key.coll == coll && IsViolation(reg, data, v)
    {
      found := [];
      var i := 0;
      while i < |order|
        invariant 0 <= i <= |order|
        invariant forall v :: v in found <==> v.key in order[..i] && v.key.coll == coll && IsViolation(reg, data, v)
      {
        var k := order[i];
        assert order[..i + 1] == order[..i] + [k];
        if k.coll == coll && k in data && k !in order[..i] {
          var more := RecordViolations(reg, k);
          found := found + more;
        }
        i := i + 1;
      }
      assert order[..i] == order;
    }

    method RecordViolations(reg: Registry, k: Key) returns (found: seq<Violation>)
      requires k in data
      ensures forall v :: v in found <==> v.key == k && IsViolation(reg, data, v)
    {
      var refs := reg.Outbound(k.coll);
      found := [];
      var j := 0;
      while j < |refs|
        invariant 0 <= j <= |refs|
        invariant forall v :: v in found <==>
          v.key == k && FieldRef(v.field, v.refTo, v.mode) in refs[..j] && IsViolation(reg, data, v)
      {
        var r := refs[j];
        assert refs[..j + 1] == refs[..j] + [r];
        var raw := data[k].Field(r.field);
        if !raw.Null? {
          if RefId(raw).None? || Key(r.target, RefId(raw).value) !in data {
            found := found + [Violation(k, r.field, r.target, raw, r.mode)];
          }
        }
        j := j + 1;
      }
      assert refs[..j] == refs;
    }
  }
}
