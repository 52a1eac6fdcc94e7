/** Foreign-key references: the registry of declared refs, and what `put` and `delete` do
    with them. A collection name and a record id together form a `Key`. */
module Refs {
  import opened Wrappers
  import opened Sorting

  // ----- Declarations --------------------------------------------------------------------

  datatype Mode = Strict | Warn | Cascade

  /** One entry of a collection's `refs` option, in declaration order. */
  datatype FieldRef = FieldRef(field: string, target: string, mode: Mode)

  /** One entry of the inbound list of a target collection. */
  datatype Rule = Rule(collection: string, field: string, mode: Mode)

  datatype Registry = Registry(outbound: map<string, seq<FieldRef>>, inbound: map<string, seq<Rule>>)
  {
    function Outbound(c: string): seq<FieldRef> {
      if c in outbound then outbound[c] else []
    }

    function Inbound(t: string): seq<Rule> {
      if t in inbound then inbound[t] else []
    }

    /** The two views say the same thing. */
    ghost predicate Consistent() {
      forall t, r :: r in Inbound(t) <==> FieldRef(r.field, t, r.mode) in Outbound(r.collection)
    }

    /** A field holds one ref, and each is listed once. */
    ghost predicate Unambiguous() {
      (forall c :: DistinctFields(Outbound(c))) && (forall t :: Distinct(Inbound(t)))
    }

    ghost predicate Valid() {
      Consistent() && Unambiguous()
    }

    /** Every target passed the check of `ref()`: no collection with a slash is a target. */
    ghost predicate Scoped() {
      forall t, r :: r in Inbound(t) ==> '/' !in t
    }
  }

  ghost predicate DistinctFields(refs: seq<FieldRef>) {
    forall i, j :: 0 <= i < j < |refs| ==> refs[i].field != refs[j].field
  }

  datatype RefError = CrossVault | BadTarget

  datatype RefResult = Declared(ref: FieldRef) | Rejected(error: RefError)

  /** `ref(target, mode)` for a given field. */
  function MakeRef(field: string, target: string, mode: Mode): (r: RefResult)
  {
    if '/' in target then Rejected(CrossVault)
    else if target == "" || target[0] == '_' then Rejected(BadTarget)
    else Declared(FieldRef(field, target, mode))
  }

  /** The refs of a declaration that come from `ref()`. */
  predicate Checked(refs: seq<FieldRef>) {
    forall r :: r in refs ==> MakeRef(r.field, r.target, r.mode) == Declared(r)
  }

  // ----- Registration ------------------------------------------------------------------------

  /** The inbound lists with a rule for each of the refs appended, in order. */
  function AddRules(inbound: map<string, seq<Rule>>, c: string, refs: seq<FieldRef>): map<string, seq<Rule>> {
    if refs == [] then inbound
    else
      var d, m := refs[|refs| - 1], AddRules(inbound, c, refs[..|refs| - 1]);
      m[d.target := (if d.target in m then m[d.target] else []) + [Rule(c, d.field, d.mode)]]
  }

  /** The registry after `register(c, refs)`: the first declaration of a collection stays. */
  function Registered(reg: Registry, c: string, refs: seq<FieldRef>): Registry {
    if c in reg.outbound then reg else Registry(reg.outbound[c := refs], AddRules(reg.inbound, c, refs))
  }

  /** What `AddRules` adds, and that it adds each rule once. */
  lemma {:induction false} AddRulesAdds(out: map<string, seq<FieldRef>>, inbound: map<string, seq<Rule>>, c: string, refs: seq<FieldRef>)
    requires DistinctFields(refs)
    requires forall t, r :: r in Registry(out, inbound).Inbound(t) ==> r.collection != c
    requires forall t :: Distinct(Registry(out, inbound).Inbound(t))
    ensures var before, after := Registry(out, inbound), Registry(out, AddRules(inbound, c, refs));
      && (forall t, r :: r in after.Inbound(t) <==>
            r in before.Inbound(t) || (r.collection == c && FieldRef(r.field, t, r.mode) in refs))
      && (forall t :: Distinct(after.Inbound(t)))
    decreases |refs|
  {
    if refs != [] {
      var init, d := refs[..|refs| - 1], refs[|refs| - 1];
      assert refs == init + [d];
      AddRulesAdds(out, inbound, c, init);
      var middle, after := Registry(out, AddRules(inbound, c, init)), Registry(out, AddRules(inbound, c, refs));
      var rule := Rule(c, d.field, d.mode);
      assert d == FieldRef(rule.field, d.target, rule.mode) && d !in init;
      assert rule !in Registry(out, inbound).Inbound(d.target);
      assert rule !in middle.Inbound(d.target);
      assert after.Inbound(d.target) == middle.Inbound(d.target) + [rule];
      assert forall t :: t != d.target ==> after.Inbound(t) == middle.Inbound(t);
    }
  }

  lemma RegisteredAdds(reg: Registry, c: string, refs: seq<FieldRef>, reg': Registry)
    requires reg.Valid() && DistinctFields(refs) && c !in reg.outbound && reg' == Registered(reg, c, refs)
    ensures forall t, r :: r in reg'.Inbound(t) <==>
      r in reg.Inbound(t) || (r.collection == c && FieldRef(r.field, t, r.mode) in refs)
    ensures forall t :: Distinct(reg'.Inbound(t))
  {
    forall t, r | r in reg.Inbound(t)
      ensures r.collection != c
    {
      assert FieldRef(r.field, t, r.mode) in reg.Outbound(r.collection);
    }
    var middle := Registry(reg'.outbound, reg.inbound);
    assert forall t :: middle.Inbound(t) == reg.Inbound(t);
    AddRulesAdds(reg'.outbound, reg.inbound, c, refs);
    assert Registry(reg'.outbound, AddRules(reg.inbound, c, refs)) == reg';
  }

  lemma ScopedWithRefs(reg: Registry, reg': Registry, c: string, refs: seq<FieldRef>)
    requires forall t, r :: r in reg'.Inbound(t) <==>
      r in reg.Inbound(t) || (r.collection == c && FieldRef(r.field, t, r.mode) in refs)
    requires reg.Scoped()
    ensures reg'.Scoped() <==> forall r :: r in refs ==> '/' !in r.target
  {
    if reg'.Scoped() {
      forall r | r in refs
        ensures '/' !in r.target
      {
        assert r == FieldRef(r.field, r.target, r.mode);
        assert Rule(c, r.field, r.mode) in reg'.Inbound(r.target);
      }
    } else {
      var t, r :| r in reg'.Inbound(t) && '/' in t;
      assert FieldRef(r.field, t, r.mode) in refs;
    }
  }

  lemma ConsistentWithRefs(reg: Registry, reg': Registry, c: string, refs: seq<FieldRef>)
    requires reg.Consistent() && c !in reg.outbound && reg'.outbound == reg.outbound[c := refs]
    requires forall t, r :: r in reg'.Inbound(t) <==>
      r in reg.Inbound(t) || (r.collection == c && FieldRef(r.field, t, r.mode) in refs)
    ensures reg'.Consistent()
  {
    forall t, r
      ensures r in reg'.Inbound(t) <==> FieldRef(r.field, t, r.mode) in reg'.Outbound(r.collection)
    {
      assert r in reg.Inbound(t) <==> FieldRef(r.field, t, r.mode) in reg.Outbound(r.collection);
    }
  }

  /** Registering keeps the two views mirror images of each other and free of duplicates, and keeps
      the targets within the vault exactly if the new ones are. */
  lemma RegisteredKeepsValid(reg: Registry, c: string, refs: seq<FieldRef>)
    requires reg.Valid() && DistinctFields(refs)
    ensures Registered(reg, c, refs).Valid()
    ensures reg.Scoped() ==>
      (Registered(reg, c, refs).Scoped() <==> c in reg.outbound || forall r :: r in refs ==> '/' !in r.target)
  {
    if c !in reg.outbound {
      var reg' := Registered(reg, c, refs);
      RegisteredAdds(reg, c, refs, reg');
      ConsistentWithRefs(reg, reg', c, refs);
      if reg.Scoped() { ScopedWithRefs(reg, reg', c, refs); }
      forall x
        ensures DistinctFields(reg'.Outbound(x))
      {
        assert DistinctFields(reg.Outbound(x));
      }
    }
  }

  datatype Declaration = Declaration(collection: string, refs: seq<FieldRef>)

  function RegisterAll(reg: Registry, decls: seq<Declaration>): Registry
    decreases |decls|
  {
    if decls == [] then reg else RegisterAll(Registered(reg, decls[0].collection, decls[0].refs), decls[1..])
  }

  ghost predicate NoInternalTargets(reg: Registry) {
    forall t, r :: r in reg.Inbound(t) ==> t != "" && t[0] != '_'
  }

  /** A registry filled from nothing but results of `ref()`, in any number of declarations, has only
      user collections of its own vault as targets. */
  lemma {:induction false} CheckedRegistryIsScoped(reg: Registry, decls: seq<Declaration>)
    requires reg.Valid() && reg.Scoped() && NoInternalTargets(reg)
    requires forall d :: d in decls ==> DistinctFields(d.refs) && Checked(d.refs)
    ensures var r := RegisterAll(reg, decls); r.Valid() && r.Scoped() && NoInternalTargets(r)
    decreases |decls|
  {
    if decls != [] {
      var d := decls[0];
      var next := Registered(reg, d.collection, d.refs);
      assert d in decls;
      RegisteredKeepsValid(reg, d.collection, d.refs);
      forall t, r | r in next.Inbound(t)
        ensures t != "" && t[0] != '_' && '/' !in t
      {
        if r !in reg.Inbound(t) {
          assert FieldRef(r.field, t, r.mode) in next.Outbound(r.collection);
          assert FieldRef(r.field, t, r.mode) !in reg.Outbound(r.collection);
          assert MakeRef(r.field, t, r.mode).Declared?;
        }
      }
      CheckedRegistryIsScoped(next, decls[1..]);
    }
  }

  /** And no weaker check would do: the results of `ref()` are exactly the refs that keep it so. */
  lemma CheckedExactly(reg: Registry, c: string, refs: seq<FieldRef>)
    requires reg.Valid() && reg.Scoped() && NoInternalTargets(reg) && DistinctFields(refs) && c !in reg.outbound
    ensures var r := Registered(reg, c, refs); r.Scoped() && NoInternalTargets(r) <==> Checked(refs)
  {
    var reg' := Registered(reg, c, refs);
    RegisteredKeepsValid(reg, c, refs);
    RegisteredAdds(reg, c, refs, reg');
    if reg'.Scoped() && NoInternalTargets(reg') {
      forall r | r in refs
        ensures MakeRef(r.field, r.target, r.mode) == Declared(r)
      {
        assert r == FieldRef(r.field, r.target, r.mode);
        assert Rule(c, r.field, r.mode) in reg'.Inbound(r.target);
      }
    }
    if Checked(refs) {
      var d := Declaration(c, refs);
      assert RegisterAll(reg, [d]) == RegisterAll(reg', []) by { assert [d][1..] == []; }
      CheckedRegistryIsScoped(reg, [d]);
    }
  }

  // ----- Declaring the same again ----------------------------------------------------------------

  /** `Object.keys(refs)` */
  function FieldNames(refs: seq<FieldRef>): (names: seq<string>)
    ensures |names| == |refs| && forall i :: 0 <= i < |refs| ==> names[i] == refs[i].field
  {
    seq(|refs|, i requires 0 <= i < |refs| => refs[i].field)
  }

  function DeclaredAt(refs: seq<FieldRef>, field: string): (r: Option<FieldRef>)
    ensures r.Some? ==> r.value in refs && r.value.field == field
    ensures r.None? ==> forall d :: d in refs ==> d.field != field
  {
    if refs == [] then None
    else if refs[0].field == field then Some(refs[0])
    else DeclaredAt(refs[1..], field)
  }

  /** `names.join(',')` */
  function Join(names: seq<string>): string {
    if names == [] then "" else if |names| == 1 then names[0] else names[0] + "," + Join(names[1..])
  }

  /** The lengths of the names, each with one comma. */
  function Weight(names: seq<string>): nat {
    if names == [] then 0 else |names[0]| + 1 + Weight(names[1..])
  }

  lemma {:induction false} JoinLength(names: seq<string>)
    requires names != []
    ensures |Join(names)| + 1 == Weight(names)
  {
    if |names| > 1 { JoinLength(names[1..]); }
  }

  lemma {:induction false} WeightWithout(names: seq<string>, i: nat)
    requires i < |names|
    ensures Weight(names) == |names[i]| + 1 + Weight(names[..i] + names[i + 1..])
  {
    if i == 0 {
      assert names[..0] + names[1..] == names[1..];
    } else {
      WeightWithout(names[1..], i - 1);
      assert (names[..i] + names[i + 1..])[1..] == names[1..][..i - 1] + names[1..][i..];
    }
  }

  lemma DistinctWithout(names: seq<string>, i: nat)
    requires Distinct(names) && i < |names|
    ensures Distinct(names[..i] + names[i + 1..])
  {
    var rest := names[..i] + names[i + 1..];
    forall j, k | 0 <= j < k < |rest|
      ensures rest[j] != rest[k]
    {
      assert rest[j] == names[if j < i then j else j + 1];
      assert rest[k] == names[if k < i then k else k + 1];
    }
  }

  /** A list with more names weighs more. */
  lemma {:induction false} SublistWeighsLess(e: seq<string>, r: seq<string>)
    requires Distinct(e) && Distinct(r) && forall x :: x in e ==> x in r
    ensures Weight(e) <= Weight(r)
    ensures Weight(e) == Weight(r) ==> forall x :: x in r ==> x in e
  {
    if e != [] {
      assert e[0] in e;
      var i :| 0 <= i < |r| && r[i] == e[0];
      var r' := r[..i] + r[i + 1..];
      WeightWithout(r, i);
      assert r == r[..i] + [r[i]] + r[i + 1..];
      DistinctWithout(r, i);
      forall x | x in e[1..]
        ensures x in r'
      {
        assert x in e && x != e[0];
      }
      assert forall x :: x in r <==> x == r[i] || x in r';
      SublistWeighsLess(e[1..], r');
    }
  }

  /** Joined lists of which one contains the other are equal only for equal lists, or for the empty
      one and the one of the empty name. */
  lemma EqualJoins(e: seq<string>, r: seq<string>)
    requires Distinct(e) && Distinct(r) && (forall x :: x in e ==> x in r) && Join(e) == Join(r)
    ensures (forall x :: x in r ==> x in e) || (e == [] && r == [""])
  {
    SublistWeighsLess(e, r);
    if r != [] {
      JoinLength(r);
      if e != [] { JoinLength(e); } else { WeighsOne(r); }
    }
  }

  lemma WeighsOne(r: seq<string>)
    requires r != []
    ensures Weight(r) == 1 ==> r == [""]
  {
    assert r == [r[0]] + r[1..];
    if r[1..] != [] { JoinLength(r[1..]); }
  }

  ghost predicate SameEntries(a: seq<FieldRef>, b: seq<FieldRef>) {
    forall r :: r in a <==> r in b
  }

  /** The sorted field names of two declarations. */
  lemma SortedNames(a: seq<FieldRef>)
    requires DistinctFields(a)
    ensures Ascending(Sort(FieldNames(a)))
    ensures forall n :: n in Sort(FieldNames(a)) <==> exists r :: r in a && r.field == n
  {
    SortAscends(FieldNames(a));
    forall n
      ensures n in FieldNames(a) <==> exists r :: r in a && r.field == n
    {
      if n in FieldNames(a) {
        var i :| 0 <= i < |a| && FieldNames(a)[i] == n;
        assert a[i] in a;
      }
      if r :| r in a && r.field == n {
        var i :| 0 <= i < |a| && a[i] == r;
        assert FieldNames(a)[i] == n;
      }
    }
  }

  lemma SameEntriesSameNames(a: seq<FieldRef>, b: seq<FieldRef>)
    requires DistinctFields(a) && DistinctFields(b) && SameEntries(a, b)
    ensures Sort(FieldNames(a)) == Sort(FieldNames(b))
  {
    SortedNames(a);
    SortedNames(b);
    OneAscendingListing(Sort(FieldNames(a)), Sort(FieldNames(b)));
  }

  lemma OnlyTheEmptyName(refs: seq<FieldRef>)
    requires DistinctFields(refs)
    ensures Sort(FieldNames(refs)) == [""] <==> |refs| == 1 && refs[0].field == ""
  {
    SortedNames(refs);
    var names := Sort(FieldNames(refs));
    if names == [""] {
      forall r | r in refs
        ensures r.field == ""
      {
        assert r.field in names;
      }
      assert "" in names;
    }
    if |refs| == 1 && refs[0].field == "" { assert FieldNames(refs) == [""] && [""][1..] == []; }
  }

  /** The comparison `register` makes on a second call: sorted field names joined by commas, then
      the descriptors of the existing fields. The join confuses lists of names, but with the
      descriptors it accepts the same declaration only, except that it takes one field with the
      empty name for none. */
  method SameDeclaration(existing: seq<FieldRef>, refs: seq<FieldRef>) returns (same: bool)
    requires DistinctFields(existing) && DistinctFields(refs)
    ensures same <==> SameEntries(existing, refs) || (existing == [] && |refs| == 1 && refs[0].field == "")
  {
    var existingKeys, newKeys := Sort(FieldNames(existing)), Sort(FieldNames(refs));
    SortedNames(existing);
    OnlyTheEmptyName(refs);
    if SameEntries(existing, refs) { SameEntriesSameNames(existing, refs); }
    if Join(existingKeys) != Join(newKeys) {
      return false;
    }
    same := SameDescriptors(existing, refs, existingKeys);
    if same { ContainedIsSame(existing, refs); }
  }

  /** The loop over the sorted field names of the existing declaration. */
  method SameDescriptors(existing: seq<FieldRef>, refs: seq<FieldRef>, keys: seq<string>) returns (same: bool)
    requires DistinctFields(existing) && DistinctFields(refs)
    requires forall n :: n in keys <==> exists r :: r in existing && r.field == n
    ensures same <==> forall r :: r in existing ==> r in refs
  {
    var i := 0;
    while i < |keys|
      invariant 0 <= i <= |keys|
      invariant forall r :: r in existing && r.field in keys[..i] ==> r in refs
    {
      var k := keys[i];
      var a, b := DeclaredAt(existing, k), DeclaredAt(refs, k);
      assert k in keys;
      if a.None? || b.None? || a.value.target != b.value.target || a.value.mode != b.value.mode {
        return false;
      }
      assert keys[..i + 1] == keys[..i] + [k];
      i := i + 1;
    }
    assert keys[..i] == keys;
    forall r | r in existing
      ensures r in refs
    {
      assert r.field in keys;
    }
    same := true;
  }

  lemma ContainedIsSame(existing: seq<FieldRef>, refs: seq<FieldRef>)
    requires DistinctFields(existing) && DistinctFields(refs) && forall r :: r in existing ==> r in refs
    requires Join(Sort(FieldNames(existing))) == Join(Sort(FieldNames(refs)))
    ensures SameEntries(existing, refs) || (existing == [] && |refs| == 1 && refs[0].field == "")
  {
    var e, n := Sort(FieldNames(existing)), Sort(FieldNames(refs));
    SortedNames(existing);
    SortedNames(refs);
    if existing != [] { assert existing[0] in existing && existing[0].field in e; }
    EqualJoins(e, n);
    if forall x :: x in n ==> x in e {
      forall r | r in refs
        ensures r in existing
      {
        assert r.field in n && r.field in e;
      }
    } else {
      OnlyTheEmptyName(refs);
    }
  }

  // ----- The registry ------------------------------------------------------------------------------

  class RefRegistry {
    var outbound: map<string, seq<FieldRef>>
    var inbound: map<string, seq<Rule>>

    function View(): Registry
      reads this
    {
      Registry(outbound, inbound)
    }

    constructor ()
      ensures View() == Registry(map[], map[])
      ensures View().Valid() && View().Scoped() && NoInternalTargets(View())
    {
      outbound, inbound := map[], map[];
    }

    /** Registers a collection's declarations once; a second call changes nothing, and is accepted
        if it repeats the first. */
    method Register(collection: string, refs: seq<FieldRef>) returns (ok: bool)
      requires View().Valid() && DistinctFields(refs)
      modifies this
      ensures View() == Registered(old(View()), collection, refs) && View().Valid()
      ensures ok <==> collection in old(outbound) ==>
        var existing := old(outbound)[collection];
        SameEntries(existing, refs) || (existing == [] && |refs| == 1 && refs[0].field == "")
    {
      RegisteredKeepsValid(View(), collection, refs);
      if collection in outbound {
        assert DistinctFields(View().Outbound(collection));
        ok := SameDeclaration(outbound[collection], refs);
        return;
      }
      outbound := outbound[collection := refs];
      AddInbound(collection, refs);
      ok := true;
    }

    method AddInbound(collection: string, refs: seq<FieldRef>)
      modifies this`inbound
      ensures inbound == AddRules(old(inbound), collection, refs)
    {
      var i := 0;
      while i < |refs|
        invariant 0 <= i <= |refs|
        invariant inbound == AddRules(old(inbound), collection, refs[..i])
      {
        var d := refs[i];
        assert refs[..i + 1][..i] == refs[..i];
        var list := if d.target in inbound then inbound[d.target] else [];
        inbound := inbound[d.target := list + [Rule(collection, d.field, d.mode)]];
        i := i + 1;
      }
      assert refs[..i] == refs;
    }
  }
}
