/** Which registries keep their strict refs through every run: exactly those whose strict rules come
    before the cascades that lie on a cycle. For any other registry a small world is built, one record
    for each step of the cycle and one that holds the strict ref, in which a delete is refused too late. */
module CascadeOrder {
  import opened Wrappers
  import opened Refs
  import opened Stores
  import opened Cascade
  import opened CascadeIntegrity
  import opened CascadeSafety

  /** No ref is kept in the field that holds the record's own id. */
  ghost predicate NoIdRefs(reg: Registry) {
    forall c, r :: r in reg.Outbound(c) ==> r.field != "id"
  }

  /** Each inbound rule is the ref its collection declares for the field. */
  ghost predicate Tidy(reg: Registry) {
    forall t, r :: r in reg.Inbound(t) ==>
      '/' !in t && r.field != "id" && DeclaredAt(reg.Outbound(r.collection), r.field) == Some(FieldRef(r.field, t, r.mode))
  }

  lemma OneRefPerField(reg: Registry, c: string, r: FieldRef)
    requires reg.Unambiguous() && r in reg.Outbound(c)
    ensures DeclaredAt(reg.Outbound(c), r.field) == Some(r)
  {
    assert DistinctFields(reg.Outbound(c));
  }

  lemma ValidIsTidy(reg: Registry)
    requires reg.Valid() && reg.Scoped() && NoIdRefs(reg)
    ensures Tidy(reg)
  {
    forall t, r | r in reg.Inbound(t)
      ensures r.field != "id" && DeclaredAt(reg.Outbound(r.collection), r.field) == Some(FieldRef(r.field, t, r.mode))
    {
      OneRefPerField(reg, r.collection, FieldRef(r.field, t, r.mode));
    }
  }

  /** The cascades `p` lead from `t` back to `t`, which also has the strict rule `s`. */
  ghost predicate Cycle(reg: Registry, t: string, p: seq<Rule>, s: Rule) {
    && p != [] && CascadePath(reg, t, p) && PathEnd(t, p) == t
    && s in reg.Inbound(t) && s.mode.Strict?
  }

  // ----- The world -----------------------------------------------------------------------------------

  function Coll(t: string, p: seq<Rule>, k: nat): string
    requires k <= |p|
  {
    if k == 0 then t else p[k - 1].collection
  }

  /** A different id for each record. */
  function Name(k: nat): (id: string)
    ensures |id| == k + 1
  {
    seq(k + 1, _ => 'x')
  }

  /** The record at step `k` of the cycle; the last step is the first one again. */
  function At(t: string, p: seq<Rule>, k: nat): Key
    requires k <= |p|
  {
    if k == |p| then Key(t, Name(0)) else Key(Coll(t, p, k), Name(k))
  }

  function Holder(p: seq<Rule>, s: Rule): Key {
    Key(s.collection, Name(|p|))
  }

  function Before(p: seq<Rule>, k: nat): nat
    requires k < |p|
  {
    if k == 0 then |p| - 1 else k - 1
  }

  /** Each record refers to the one before it on the cycle, the first one to the last. */
  function CycleRow(p: seq<Rule>, s: Rule, id: string): Row {
    Row(1, if 0 < |id| <= |p| then
             var b := Before(p, |id| - 1);
             map["id" := Str(id), p[b].field := Str(Name(b))]
           else map["id" := Str(id), s.field := Str(Name(0))])
  }

  function CycleOrder(t: string, p: seq<Rule>, s: Rule): (order: seq<Key>)
    ensures |order| == |p| + 1 && order[|p|] == Holder(p, s) && forall k :: 0 <= k < |p| ==> order[k] == At(t, p, k)
  {
    seq(|p|, k requires 0 <= k < |p| => At(t, p, k)) + [Holder(p, s)]
  }

  function CycleWorld(t: string, p: seq<Rule>, s: Rule): World {
    World(map x | x in CycleOrder(t, p, s) :: CycleRow(p, s, x.id), CycleOrder(t, p, s), 0, [])
  }

  ghost function CycleEnv(reg: Registry, t: string, p: seq<Rule>, s: Rule): Env {
    Env(reg, set x | x in CycleOrder(t, p, s) :: x.coll, {})
  }

  lemma {:induction false} PathRule(reg: Registry, t: string, p: seq<Rule>, k: nat)
    requires CascadePath(reg, t, p) && k < |p|
    ensures p[k] in reg.Inbound(Coll(t, p, k)) && p[k].mode.Cascade?
    decreases |p|
  {
    if k > 0 { PathRule(reg, p[0].collection, p[1..], k - 1); }
  }

  /** Every record of the world is at its place in the order. */
  lemma PlaceOf(t: string, p: seq<Rule>, s: Rule, x: Key) returns (k: nat)
    requires x in CycleOrder(t, p, s)
    ensures k <= |p| && x.id == Name(k) && x == if k == |p| then Holder(p, s) else At(t, p, k)
  {
    var order := CycleOrder(t, p, s);
    k :| 0 <= k < |order| && order[k] == x;
  }

  /** The ref a record of the cycle holds to the one before it. */
  lemma StepRef(reg: Registry, t: string, p: seq<Rule>, k: nat)
    requires Tidy(reg) && CascadePath(reg, t, p) && k < |p|
    ensures p[k] in reg.Inbound(Coll(t, p, k)) && p[k].mode.Cascade? && '/' !in Coll(t, p, k) && p[k].field != "id"
    ensures DeclaredAt(reg.Outbound(p[k].collection), p[k].field) == Some(FieldRef(p[k].field, Coll(t, p, k), Cascade))
  {
    PathRule(reg, t, p, k);
  }

  lemma NextColl(t: string, p: seq<Rule>, k: nat)
    requires p != [] && PathEnd(t, p) == t && k < |p|
    ensures At(t, p, k + 1).coll == p[k].collection && At(t, p, k).coll == p[Before(p, k)].collection
    ensures Coll(t, p, k) == At(t, p, k).coll
  {
  }

  lemma RowOf(t: string, p: seq<Rule>, s: Rule, x: Key)
    requires x in CycleOrder(t, p, s)
    ensures x in CycleWorld(t, p, s).data && CycleWorld(t, p, s).data[x] == CycleRow(p, s, x.id)
  {
  }

  lemma StepRow(p: seq<Rule>, s: Rule, k: nat)
    requires k < |p| && p[Before(p, k)].field != "id"
    ensures var row, b := CycleRow(p, s, Name(k)), Before(p, k);
      && row.Field("id") == Str(Name(k)) && row.Field(p[b].field) == Str(Name(b))
      && forall f :: f != "id" && f != p[b].field ==> row.Field(f).Null?
  {
  }

  lemma HolderRow(p: seq<Rule>, s: Rule)
    requires s.field != "id"
    ensures var row := CycleRow(p, s, Name(|p|));
      && row.Field("id") == Str(Name(|p|)) && row.Field(s.field) == Str(Name(0))
      && forall f :: f != "id" && f != s.field ==> row.Field(f).Null?
  {
  }

  /** The record after step `k` points to step `k`, the holder to the first step. */
  lemma Points(reg: Registry, t: string, p: seq<Rule>, s: Rule, k: nat)
    requires Tidy(reg) && Cycle(reg, t, p, s) && k < |p|
    ensures var data := CycleWorld(t, p, s).data;
      && At(t, p, k + 1) in data && data[At(t, p, k + 1)].PointsAt(p[k].field, Name(k))
      && Holder(p, s) in data && data[Holder(p, s)].PointsAt(s.field, Name(0))
  {
    var order, i := CycleOrder(t, p, s), if k + 1 == |p| then 0 else k + 1;
    assert order[i] == At(t, p, k + 1) && order[|p|] == Holder(p, s);
    RowOf(t, p, s, order[i]);
    RowOf(t, p, s, order[|p|]);
    StepRef(reg, t, p, k);
    StepRow(p, s, i);
    HolderRow(p, s);
  }

  /** Apart from these, no rule finds a record that points to step `k`. */
  lemma OnlyPointer(reg: Registry, t: string, p: seq<Rule>, s: Rule, k: nat, rule: Rule, x: Key)
    requires Tidy(reg) && Cycle(reg, t, p, s) && k < |p| && rule in reg.Inbound(Coll(t, p, k))
    requires x in CycleOrder(t, p, s) && x.coll == rule.collection && CycleRow(p, s, x.id).PointsAt(rule.field, Name(k))
    ensures (rule == p[k] && x == At(t, p, k + 1)) || (k == 0 && rule == s && x == Holder(p, s))
  {
    var j := PlaceOf(t, p, s, x);
    if j == |p| {
      HolderRow(p, s);
      assert |Name(0)| == |Name(k)|;
    } else {
      var b := Before(p, j);
      StepRef(reg, t, p, b);
      StepRow(p, s, j);
      assert |Name(b)| == |Name(k)|;
      NextColl(t, p, j);
    }
  }

  lemma CycleIsSafe(reg: Registry, t: string, p: seq<Rule>, s: Rule)
    requires reg.Valid() && reg.Scoped() && NoIdRefs(reg) && Tidy(reg) && Cycle(reg, t, p, s)
    ensures SafeWorld(CycleEnv(reg, t, p, s), CycleWorld(t, p, s))
  {
    var data := CycleWorld(t, p, s).data;
    forall x | x in data
      ensures data[x].Id() == Some(x.id)
    {
      NotTheId(reg, t, p, s, x);
    }
    forall x, r | x in data && r in reg.Outbound(x.coll) && r.mode.Strict?
      ensures Resolved(data, data[x], r)
    {
      OneRefPerField(reg, x.coll, r);
      StrictRefsResolve(reg, t, p, s, x, r);
    }
  }

  lemma NotTheId(reg: Registry, t: string, p: seq<Rule>, s: Rule, x: Key)
    requires Tidy(reg) && Cycle(reg, t, p, s) && x in CycleOrder(t, p, s)
    ensures CycleRow(p, s, x.id).Id() == Some(x.id)
  {
    var k := PlaceOf(t, p, s, x);
    if k < |p| {
      StepRef(reg, t, p, Before(p, k));
      StepRow(p, s, k);
    } else {
      HolderRow(p, s);
    }
  }

  lemma StrictRefsResolve(reg: Registry, t: string, p: seq<Rule>, s: Rule, x: Key, r: FieldRef)
    requires Tidy(reg) && NoIdRefs(reg) && Cycle(reg, t, p, s) && x in CycleOrder(t, p, s)
    requires r in reg.Outbound(x.coll) && DeclaredAt(reg.Outbound(x.coll), r.field) == Some(r) && r.mode.Strict?
    ensures Resolved(CycleWorld(t, p, s).data, CycleRow(p, s, x.id), r)
  {
    var k := PlaceOf(t, p, s, x);
    if k == |p| {
      HolderRow(p, s);
      assert CycleOrder(t, p, s)[0] == Key(t, Name(0));
      RowOf(t, p, s, Key(t, Name(0)));
    } else {
      StepRef(reg, t, p, Before(p, k));
      StepRow(p, s, k);
      NextColl(t, p, k);
    }
  }

  // ----- Walking over rules without matches ------------------------------------------------------------

  lemma {:induction false} WalkSkips(env: Env, u: set<string>, w: World, busy: set<string>, k: Key, rules: seq<Rule>, m: nat)
    requires Covers(u, w.data) && m <= |rules| && forall r :: r in rules[..m] ==> !Held(w.data, r, k.id)
    ensures WalkRules(env, u, w, busy, k, rules) == WalkRules(env, u, w, busy, k, rules[m..])
    decreases m
  {
    if m == 0 {
      assert rules[0..] == rules;
    } else {
      assert rules[0] in rules[..m] && rules[..m][1..] == rules[1..][..m - 1] && rules[1..][m - 1..] == rules[m..];
      HeldByNone(w, rules[0], k.id);
      WalkSkips(env, u, w, busy, k, rules[1..], m - 1);
    }
  }

  lemma HeldByNone(w: World, rule: Rule, id: string)
    requires !Held(w.data, rule, id)
    ensures Matching(w.data, w.order, rule, id) == []
  {
    HasMember(Matching(w.data, w.order, rule, id));
  }

  lemma {:induction false} OneMatch(data: Records, order: seq<Key>, i: nat, rule: Rule, id: string)
    requires i < |order| && order[i] in data && order[i].coll == rule.collection && data[order[i]].PointsAt(rule.field, id)
    requires forall j :: 0 <= j < |order| && j != i && order[j] in data && order[j].coll == rule.collection ==>
      !data[order[j]].PointsAt(rule.field, id)
    ensures Matching(data, order, rule, id) == [data[order[i]]]
    decreases |order|
  {
    if i > 0 {
      OneMatch(data, order[1..], i - 1, rule, id);
    } else {
      forall x | x in order[1..] && x in data && x.coll == rule.collection
        ensures !data[x].PointsAt(rule.field, id)
      {
        var j :| 0 <= j < |order| - 1 && order[1..][j] == x;
        assert order[j + 1] == x;
      }
      HasMember(Matching(data, order[1..], rule, id));
    }
  }

  /** In the whole world, rule `k` of the cycle matches the one record of the next step. */
  lemma NextStepMatches(reg: Registry, t: string, p: seq<Rule>, s: Rule, k: nat)
    requires Tidy(reg) && Cycle(reg, t, p, s) && k < |p|
    ensures var w := CycleWorld(t, p, s);
      At(t, p, k + 1) in w.data && Matching(w.data, w.order, p[k], Name(k)) == [w.data[At(t, p, k + 1)]]
  {
    var w, i := CycleWorld(t, p, s), if k + 1 == |p| then 0 else k + 1;
    Points(reg, t, p, s, k);
    NextColl(t, p, k);
    assert w.order[i] == At(t, p, k + 1);
    forall j | 0 <= j < |w.order| && j != i && w.order[j].coll == p[k].collection
      ensures !w.data[w.order[j]].PointsAt(p[k].field, Name(k))
    {
      NoOtherPointer(reg, t, p, s, k, j, i);
    }
    OneMatch(w.data, w.order, i, p[k], Name(k));
  }

  lemma NoOtherPointer(reg: Registry, t: string, p: seq<Rule>, s: Rule, k: nat, j: nat, i: nat)
    requires Tidy(reg) && Cycle(reg, t, p, s) && k < |p| && j <= |p| && j != i && i == if k + 1 == |p| then 0 else k + 1
    requires var x := CycleOrder(t, p, s)[j]; x.coll == p[k].collection
    ensures !CycleRow(p, s, CycleOrder(t, p, s)[j].id).PointsAt(p[k].field, Name(k))
  {
    var x := CycleOrder(t, p, s)[j];
    PathRule(reg, t, p, k);
    assert |x.id| == j + 1 && |At(t, p, k + 1).id| == i + 1;
    if CycleRow(p, s, x.id).PointsAt(p[k].field, Name(k)) { OnlyPointer(reg, t, p, s, k, p[k], x); }
  }

  // ----- The delete --------------------------------------------------------------------------------------

  /** The frames open when the delete of step `k` begins. */
  ghost function Frames(t: string, p: seq<Rule>, k: nat): set<string>
    requires k <= |p|
  {
    set j | 0 <= j < k :: FrameKey(At(t, p, j))
  }

  lemma NextFrame(reg: Registry, t: string, p: seq<Rule>, k: nat)
    requires Tidy(reg) && p != [] && CascadePath(reg, t, p) && k < |p|
    ensures FrameKey(At(t, p, k)) !in Frames(t, p, k)
    ensures Frames(t, p, k) + {FrameKey(At(t, p, k))} == Frames(t, p, k + 1)
  {
    forall j | 0 <= j < k
      ensures FrameKey(At(t, p, j)) != FrameKey(At(t, p, k))
    {
      StepRef(reg, t, p, j);
      StepRef(reg, t, p, k);
      assert |At(t, p, j).id| != |At(t, p, k).id|;
      if FrameKey(At(t, p, j)) == FrameKey(At(t, p, k)) { FrameKeyInjective(At(t, p, j), At(t, p, k)); }
    }
  }

  lemma Writable(reg: Registry, t: string, p: seq<Rule>, s: Rule, u: set<string>, k: nat)
    requires Tidy(reg) && Cycle(reg, t, p, s) && k <= |p| && Covers(u, CycleWorld(t, p, s).data)
    ensures At(t, p, k).coll in CycleEnv(reg, t, p, s).writable && FrameKey(At(t, p, k)) in u
  {
    var order, i := CycleOrder(t, p, s), if k == |p| then 0 else k;
    assert order[i] == At(t, p, k) && order[i] in order;
    NotTheId(reg, t, p, s, order[i]);
  }

  /** The first record of the cycle and those from step `k` on are gone, the holder is not. */
  ghost predicate Left(t: string, p: seq<Rule>, s: Rule, w: World, k: nat)
    requires k <= |p|
  {
    && At(t, p, 0) !in w.data && (forall j :: k <= j < |p| ==> At(t, p, j) !in w.data)
    && Holder(p, s) in w.data && Holder(p, s) in w.order
  }

  lemma StoreDeleteLeaves(env: Env, t: string, p: seq<Rule>, s: Rule, w: World, k: nat)
    requires p != [] && k <= |p| && env.faulty == {}
    requires if k == |p| then Holder(p, s) in w.data && Holder(p, s) in w.order else Left(t, p, s, w, k + 1)
    ensures var (w', o) := StoreDelete(env, w, At(t, p, k)); o.Done? && Left(t, p, s, w', k)
  {
    assert |At(t, p, k).id| != |Holder(p, s).id|;
  }

  /** At step `k`, in what is left of the world, no rule finds anything but the two. */
  lemma OthersFindNothing(reg: Registry, t: string, p: seq<Rule>, s: Rule, k: nat, small: Records, rules: seq<Rule>)
    requires Tidy(reg) && Cycle(reg, t, p, s) && k < |p| && Submap(small, CycleWorld(t, p, s).data)
    requires forall r :: r in rules ==> r in reg.Inbound(Coll(t, p, k)) && (k == 0 ==> r != s)
    requires At(t, p, k + 1) !in small || p[k] !in rules
    ensures forall r :: r in rules ==> !Held(small, r, Name(k))
  {
    forall r, x | r in rules && x in small && x.coll == r.collection
      ensures !small[x].PointsAt(r.field, Name(k))
    {
      if small[x].PointsAt(r.field, Name(k)) {
        assert x in CycleWorld(t, p, s).data;
        OnlyPointer(reg, t, p, s, k, r, x);
      }
    }
  }

  lemma FirstIndex(rules: seq<Rule>, r: Rule) returns (m: nat)
    requires r in rules
    ensures m < |rules| && rules[m] == r && r !in rules[..m]
  {
    m := 0;
    while rules[m] != r
      invariant m < |rules| && r !in rules[..m] && r in rules[m..]
      decreases |rules| - m
    {
      m := m + 1;
    }
  }

  lemma DeleteOne(env: Env, u: set<string>, w: World, busy: set<string>, k: Key, w': World)
    requires k in w.data && w.data[k].Id() == Some(k.id) && Covers(u, w.data) && FrameKey(k) in u
    requires Delete(env, u, w, busy, k) == (w', Done)
    ensures DeleteAll(env, u, w, busy, k.coll, [w.data[k]]) == (w', Done)
  {
    assert [w.data[k]][1..] == [];
  }

  /** The walk at step `k` after the cascade to the next step. */
  ghost predicate Resumes(reg: Registry, u: set<string>, t: string, p: seq<Rule>, s: Rule, k: nat, w1: World, m: nat)
    requires k < |p| && Covers(u, CycleWorld(t, p, s).data)
  {
    var env, w, rules, busy := CycleEnv(reg, t, p, s), CycleWorld(t, p, s), reg.Inbound(Coll(t, p, k)), Frames(t, p, k + 1);
    && Submap(w1.data, w.data) && Left(t, p, s, w1, k + 1) && m < |rules|
    && WalkRules(env, u, w, busy, At(t, p, k), rules) == WalkRules(env, u, w1, busy, At(t, p, k), rules[m + 1..])
  }

  /** The deletes nested in each other along the cycle, down to the first record, which goes
      without any checks because its own delete is in progress. */
  lemma {:induction false} NestedDelete(reg: Registry, u: set<string>, t: string, p: seq<Rule>, s: Rule, k: nat)
    requires Tidy(reg) && Cycle(reg, t, p, s) && 0 < k <= |p| && Covers(u, CycleWorld(t, p, s).data)
    requires FrameKey(At(t, p, k)) in u
    ensures var (w', o) := Delete(CycleEnv(reg, t, p, s), u, CycleWorld(t, p, s), Frames(t, p, k), At(t, p, k));
      o.Done? && Left(t, p, s, w', k)
    decreases |p| - k, 2
  {
    Writable(reg, t, p, s, u, k);
    if k == |p| {
      LastDelete(reg, u, t, p, s);
    } else {
      PathRule(reg, t, p, k);
      var m := FirstIndex(reg.Inbound(Coll(t, p, k)), p[k]);
      var w1 := CascadeStep(reg, u, t, p, s, k, m);
      DeleteOnTheWay(reg, u, t, p, s, k, w1, m);
    }
  }

  lemma LastDelete(reg: Registry, u: set<string>, t: string, p: seq<Rule>, s: Rule)
    requires p != [] && Covers(u, CycleWorld(t, p, s).data) && FrameKey(At(t, p, |p|)) in u
    requires At(t, p, |p|).coll in CycleEnv(reg, t, p, s).writable
    ensures var (w', o) := Delete(CycleEnv(reg, t, p, s), u, CycleWorld(t, p, s), Frames(t, p, |p|), At(t, p, |p|));
      o.Done? && Left(t, p, s, w', |p|)
  {
    assert FrameKey(At(t, p, 0)) in Frames(t, p, |p|);
    RowOf(t, p, s, CycleOrder(t, p, s)[|p|]);
    StoreDeleteLeaves(CycleEnv(reg, t, p, s), t, p, s, CycleWorld(t, p, s), |p|);
  }

  lemma DeleteOnTheWay(reg: Registry, u: set<string>, t: string, p: seq<Rule>, s: Rule, k: nat, w1: World, m: nat)
    requires Tidy(reg) && Cycle(reg, t, p, s) && 0 < k < |p| && Covers(u, CycleWorld(t, p, s).data)
    requires FrameKey(At(t, p, k)) in u && At(t, p, k).coll in CycleEnv(reg, t, p, s).writable
    requires Resumes(reg, u, t, p, s, k, w1, m)
    ensures var (w', o) := Delete(CycleEnv(reg, t, p, s), u, CycleWorld(t, p, s), Frames(t, p, k), At(t, p, k));
      o.Done? && Left(t, p, s, w', k)
  {
    var env, rest := CycleEnv(reg, t, p, s), reg.Inbound(Coll(t, p, k))[m + 1..];
    NextFrame(reg, t, p, k);
    OthersFindNothing(reg, t, p, s, k, w1.data, rest);
    WalkSkips(env, u, w1, Frames(t, p, k + 1), At(t, p, k), rest, |rest|);
    StoreDeleteLeaves(env, t, p, s, w1, k);
  }

  /** The walk at step `k`, up to and including the cascade to the next step. At the first step the
      strict rule must not come before it. */
  lemma {:induction false} CascadeStep(reg: Registry, u: set<string>, t: string, p: seq<Rule>, s: Rule, k: nat, m: nat) returns (w1: World)
    requires Tidy(reg) && Cycle(reg, t, p, s) && k < |p| && Covers(u, CycleWorld(t, p, s).data)
    requires var rules := reg.Inbound(Coll(t, p, k)); m < |rules| && rules[m] == p[k] && p[k] !in rules[..m]
    requires k == 0 ==> s !in reg.Inbound(t)[..m]
    ensures Resumes(reg, u, t, p, s, k, w1, m)
    decreases |p| - k, 1
  {
    var env, w, rules, busy := CycleEnv(reg, t, p, s), CycleWorld(t, p, s), reg.Inbound(Coll(t, p, k)), Frames(t, p, k + 1);
    var next := At(t, p, k + 1);
    OthersFindNothing(reg, t, p, s, k, w.data, rules[..m]);
    WalkSkips(env, u, w, busy, At(t, p, k), rules, m);
    w1 := StepDelete(reg, u, t, p, s, k);
    PathRule(reg, t, p, k);
    WalkOneMatch(env, u, w, busy, At(t, p, k), rules[m..], next, w1);
    assert rules[m..][1..] == rules[m + 1..];
  }

  /** The nested delete of the next step, as the loop over the one match. */
  lemma {:induction false} StepDelete(reg: Registry, u: set<string>, t: string, p: seq<Rule>, s: Rule, k: nat) returns (w1: World)
    requires Tidy(reg) && Cycle(reg, t, p, s) && k < |p| && Covers(u, CycleWorld(t, p, s).data)
    ensures var env, w, next := CycleEnv(reg, t, p, s), CycleWorld(t, p, s), At(t, p, k + 1);
      && next in w.data && next.coll == p[k].collection && Matching(w.data, w.order, p[k], Name(k)) == [w.data[next]]
      && Nameable(u, next.coll, [w.data[next]]) && Submap(w1.data, w.data) && Left(t, p, s, w1, k + 1)
      && DeleteAll(env, u, w, Frames(t, p, k + 1), next.coll, [w.data[next]]) == (w1, Done)
    decreases |p| - k, 0
  {
    var env, w, next, busy := CycleEnv(reg, t, p, s), CycleWorld(t, p, s), At(t, p, k + 1), Frames(t, p, k + 1);
    NextStepMatches(reg, t, p, s, k);
    Writable(reg, t, p, s, u, k + 1);
    NestedDelete(reg, u, t, p, s, k + 1);
    NextColl(t, p, k);
    NotTheId(reg, t, p, s, next);
    w1 := Delete(env, u, w, busy, next).0;
    DeleteOne(env, u, w, busy, next, w1);
  }

  /** A cascade rule with a single match is one nested delete. */
  lemma WalkOneMatch(env: Env, u: set<string>, w: World, busy: set<string>, k: Key, rules: seq<Rule>, next: Key, w1: World)
    requires Covers(u, w.data) && Covers(u, w1.data) && rules != [] && rules[0].mode.Cascade? && next.coll == rules[0].collection
    requires next in w.data && Matching(w.data, w.order, rules[0], k.id) == [w.data[next]]
    requires Nameable(u, next.coll, [w.data[next]]) && DeleteAll(env, u, w, busy, next.coll, [w.data[next]]) == (w1, Done)
    ensures WalkRules(env, u, w, busy, k, rules) == WalkRules(env, u, w1, busy, k, rules[1..])
  {
  }

  /** The delete of the first record is refused by the strict rule, but the record is gone. */
  lemma RefusedTooLate(reg: Registry, t: string, p: seq<Rule>, s: Rule, m: nat)
    requires Tidy(reg) && Cycle(reg, t, p, s)
    requires m < |reg.Inbound(t)| && reg.Inbound(t)[m] == p[0] && p[0] !in reg.Inbound(t)[..m] && s !in reg.Inbound(t)[..m]
    ensures var (w', o) := DeleteTop(CycleEnv(reg, t, p, s), CycleWorld(t, p, s), At(t, p, 0));
      && o.RefViolation? && w'.data.Keys == {Holder(p, s)}
  {
    var env, w, key := CycleEnv(reg, t, p, s), CycleWorld(t, p, s), At(t, p, 0);
    var u := Universe(w.data, key);
    Writable(reg, t, p, s, u, 0);
    NextFrame(reg, t, p, 0);
    assert Frames(t, p, 0) == {};
    PathRule(reg, t, p, 0);
    var w1 := CascadeStep(reg, u, t, p, s, 0, m);
    StrictRuleStops(reg, u, t, p, s, w1, m);
    OnlyTheHolder(t, p, s, w1);
    EnforceIsWalk(env, u, w, key, Frames(t, p, 1));
  }

  lemma EnforceIsWalk(env: Env, u: set<string>, w: World, k: Key, busy: set<string>)
    requires k.coll in env.writable && Covers(u, w.data) && FrameKey(k) in u && busy == {} + {FrameKey(k)}
    ensures var (w', o) := WalkRules(env, u, w, busy, k, env.reg.Inbound(k.coll));
      !o.Done? ==> Delete(env, u, w, {}, k) == (w', o)
  {
  }

  /** After the cascade the walk comes to the strict rule, which finds the holder. */
  lemma StrictRuleStops(reg: Registry, u: set<string>, t: string, p: seq<Rule>, s: Rule, w1: World, m: nat)
    requires Tidy(reg) && Cycle(reg, t, p, s) && Covers(u, CycleWorld(t, p, s).data)
    requires Resumes(reg, u, t, p, s, 0, w1, m) && s !in reg.Inbound(t)[..m] && reg.Inbound(t)[m] == p[0]
    ensures var (w', o) := WalkRules(CycleEnv(reg, t, p, s), u, CycleWorld(t, p, s), Frames(t, p, 1), At(t, p, 0), reg.Inbound(t));
      w' == w1 && o.RefViolation?
  {
    var rest := reg.Inbound(t)[m + 1..];
    PathRule(reg, t, p, 0);
    LaterInList(reg.Inbound(t), m, s);
    var j := FirstIndex(rest, s);
    OthersFindNothing(reg, t, p, s, 0, w1.data, rest[..j]);
    WalkSkips(CycleEnv(reg, t, p, s), u, w1, Frames(t, p, 1), At(t, p, 0), rest, j);
    Points(reg, t, p, s, 0);
    WalkRefused(CycleEnv(reg, t, p, s), u, w1, Frames(t, p, 1), At(t, p, 0), rest[j..], Holder(p, s));
  }

  lemma LaterInList(rules: seq<Rule>, m: nat, s: Rule)
    requires m < |rules| && s in rules && s !in rules[..m] && s != rules[m]
    ensures s in rules[m + 1..]
  {
    assert rules == rules[..m] + [rules[m]] + rules[m + 1..];
  }

  lemma WalkRefused(env: Env, u: set<string>, w: World, busy: set<string>, k: Key, rules: seq<Rule>, holder: Key)
    requires Covers(u, w.data) && rules != [] && rules[0].mode.Strict? && holder in w.data && holder in w.order
    requires holder.coll == rules[0].collection && w.data[holder].PointsAt(rules[0].field, k.id)
    ensures var (w', o) := WalkRules(env, u, w, busy, k, rules); w' == w && o.RefViolation?
  {
    assert w.data[holder] in Matching(w.data, w.order, rules[0], k.id);
  }

  lemma OnlyTheHolder(t: string, p: seq<Rule>, s: Rule, w1: World)
    requires p != [] && Submap(w1.data, CycleWorld(t, p, s).data) && Left(t, p, s, w1, 1)
    ensures w1.data.Keys == {Holder(p, s)}
  {
    forall x | x in w1.data
      ensures x == Holder(p, s)
    {
      var k := PlaceOf(t, p, s, x);
    }
  }

  lemma Dangling(reg: Registry, t: string, p: seq<Rule>, s: Rule, data: Records)
    requires reg.Consistent() && Tidy(reg) && Cycle(reg, t, p, s)
    requires Submap(data, CycleWorld(t, p, s).data) && data.Keys == {Holder(p, s)}
    ensures !StrictSafe(reg, data)
  {
    HolderRow(p, s);
    assert FieldRef(s.field, t, s.mode) in reg.Outbound(s.collection);
    assert |Holder(p, s).id| != |Name(0)|;
    assert !Resolved(data, data[Holder(p, s)], FieldRef(s.field, t, s.mode));
  }

  // ----- Main results --------------------------------------------------------------------------------------

  lemma CycleBreaks(reg: Registry, t: string, p: seq<Rule>, s: Rule, i: nat, j: nat)
    requires reg.Consistent() && Tidy(reg) && Cycle(reg, t, p, s) && Distinct(reg.Inbound(t))
    requires i < j < |reg.Inbound(t)| && reg.Inbound(t)[i] == p[0] && reg.Inbound(t)[j] == s
    ensures var (w', o) := DeleteTop(CycleEnv(reg, t, p, s), CycleWorld(t, p, s), At(t, p, 0));
      o.RefViolation? && At(t, p, 0) !in w'.data && !StrictSafe(reg, w'.data)
  {
    RefusedTooLate(reg, t, p, s, i);
    Dangling(reg, t, p, s, DeleteTop(CycleEnv(reg, t, p, s), CycleWorld(t, p, s), At(t, p, 0)).0.data);
    assert |At(t, p, 0).id| != |Holder(p, s).id|;
  }

  /** A strict rule behind a cascade that can come back loses the guarantee: in some safe world, with a
      store that never fails, a delete is refused because of a strict ref after its target is gone,
      and the ref is left dangling. */
  lemma CyclicCascadeBreaksStrictRef(reg: Registry, t: string, i: nat, j: nat) returns (env: Env, w: World, k: Key)
    requires reg.Valid() && reg.Scoped() && NoIdRefs(reg) && Misplaced(reg, t, i, j)
    ensures env.reg == reg && env.faulty == {} && SafeWorld(env, w) && k in w.data
    ensures var (w', o) := DeleteTop(env, w, k);
      o.RefViolation? && k !in w'.data && !StrictSafe(reg, w'.data)
  {
    var rules := reg.Inbound(t);
    var q :| CascadePath(reg, rules[i].collection, q) && PathEnd(rules[i].collection, q) == t;
    var p, s := [rules[i]] + q, rules[j];
    assert p[1..] == q;
    env, w, k := CycleEnv(reg, t, p, s), CycleWorld(t, p, s), At(t, p, 0);
    ValidIsTidy(reg);
    CycleIsSafe(reg, t, p, s);
    CycleBreaks(reg, t, p, s, i, j);
    RowOf(t, p, s, CycleOrder(t, p, s)[0]);
  }

  /** Strict refs stay resolvable at every moment of every run, whatever fails, exactly if strict rules
      come before the cascades that can come back. */
  lemma StrictRefsSurviveExactly(reg: Registry)
    requires reg.Valid() && reg.Scoped() && NoIdRefs(reg)
    ensures StrictFirst(reg) <==>
      forall env: Env, w, ops :: env.reg == reg && SafeWorld(env, w) && (forall op :: op in ops ==> KeysItsRecords(op)) ==>
        SafeWorld(env, Run(env, w, ops))
  {
    if StrictFirst(reg) {
      forall env: Env, w, ops | env.reg == reg && SafeWorld(env, w) && forall op :: op in ops ==> KeysItsRecords(op)
        ensures SafeWorld(env, Run(env, w, ops))
      {
        RunsKeepStrictRefs(env, w, ops);
      }
    } else {
      var t, i: nat, j: nat :| Misplaced(reg, t, i, j);
      var env, w, ops := BadRun(reg, t, i, j);
    }
  }

  lemma BadRun(reg: Registry, t: string, i: nat, j: nat) returns (env: Env, w: World, ops: seq<Op>)
    requires reg.Valid() && reg.Scoped() && NoIdRefs(reg) && Misplaced(reg, t, i, j)
    ensures env.reg == reg && SafeWorld(env, w) && (forall op :: op in ops ==> KeysItsRecords(op))
    ensures !SafeWorld(env, Run(env, w, ops))
  {
    var k;
    env, w, k := CyclicCascadeBreaksStrictRef(reg, t, i, j);
    ops := [DeleteOp(k)];
    RunOfOne(env, w, DeleteOp(k));
  }

  lemma RunOfOne(env: Env, w: World, op: Op)
    ensures Run(env, w, [op]) == Step(env, w, op).0
  {
    assert [op][1..] == [];
  }
}
