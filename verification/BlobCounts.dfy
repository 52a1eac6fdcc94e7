/** Conservation of reference counts: what a blob's `refCount` says beyond the slots and versions
    that point at it is exactly what operations have leaked. */
module BlobCounts {
  import opened Wrappers
  import opened Stores
  import opened Blobs
  import opened BlobReads

  ghost function SlotRefs(s: State, e: string): set<(Record, string)> {
    set r, n | r in s.slots && n in s.slots[r].value && s.slots[r].value[n].eTag == e :: (r, n)
  }

  ghost function VersionRefs(s: State, e: string): set<VersionKey> {
    set k | k in s.versions && s.versions[k].eTag == e
  }

  /** How many slots and published versions point at the blob. */
  ghost function References(s: State, e: string): nat {
    |SlotRefs(s, e)| + |VersionRefs(s, e)|
  }

  function RefCount(s: State, e: string): int {
    if e in s.index then s.index[e].value.refCount else 0
  }

  ghost function Excess(s: State, e: string): int {
    RefCount(s, e) - References(s, e)
  }

  // ----- What one operation changes --------------------------------------------------------------------

  function One(b: bool): nat {
    if b then 1 else 0
  }

  lemma DifferAtOne<T>(a: set<T>, b: set<T>, x: T)
    requires forall y :: y != x ==> (y in a <==> y in b)
    ensures |b| == |a| + One(x in b) - One(x in a)
  {
    var others := a - {x};
    assert others == b - {x};
    assert a == others + if x in a then {x} else {};
    assert b == others + if x in b then {x} else {};
  }

  /** Pointing a slot somewhere else moves one reference. */
  lemma SlotMoves(s: State, s': State, r: Record, n: string, slots: Slots, v: nat, e: string)
    requires s'.slots == s.slots[r := Versioned(slots, v)] && s'.versions == s.versions
    requires forall m :: m != n ==> Lookup(slots, m) == Lookup(s.SlotsOf(r).value, m)
    ensures var was := s.SlotsOf(r).value;
      References(s', e) == References(s, e) + One(n in slots && slots[n].eTag == e) - One(n in was && was[n].eTag == e)
  {
    var before, after := SlotRefs(s, e), SlotRefs(s', e);
    forall p: (Record, string) | p != (r, n)
      ensures p in before <==> p in after
    {
      if p.0 == r { assert Lookup(slots, p.1) == Lookup(s.SlotsOf(r).value, p.1); }
    }
    DifferAtOne(before, after, (r, n));
    assert VersionRefs(s', e) == VersionRefs(s, e);
  }

  /** So does rewriting a version record. */
  lemma VersionMoves(s: State, s': State, k: VersionKey, e: string)
    requires s'.slots == s.slots
    requires forall j :: j != k ==> Lookup(s'.versions, j) == Lookup(s.versions, j)
    ensures References(s', e) == References(s, e) + One(k in s'.versions && s'.versions[k].eTag == e)
                                                  - One(k in s.versions && s.versions[k].eTag == e)
  {
    var before, after := VersionRefs(s, e), VersionRefs(s', e);
    forall j | j != k
      ensures j in before <==> j in after
    {
      assert Lookup(s'.versions, j) == Lookup(s.versions, j);
    }
    DifferAtOne(before, after, k);
    assert SlotRefs(s', e) == SlotRefs(s, e);
  }

  lemma SameReferences(s: State, s': State, e: string)
    requires s'.slots == s.slots && s'.versions == s.versions
    ensures References(s', e) == References(s, e)
  {
  }

  /** The blob an operation gives up its reference to, if any. */
  function GivesUp(c: Codec, s: State, op: Op): Option<string> {
    match op
    case Put(r, slot, data, _, _, _) =>
      var was := s.SlotsOf(r).value;
      if slot in was && was[slot].eTag != c.hash(data) then Some(was[slot].eTag) else None
    case Delete(r, slot, _) =>
      if slot in s.SlotsOf(r).value then Some(s.SlotsOf(r).value[slot].eTag) else None
    case Publish(r, slot, name, _) =>
      var k := VersionKeyOf(r, slot, name);
      if Writes(c, s, op) != [] && k in s.versions then Some(s.versions[k].eTag) else None
    case DeleteVersion(r, slot, name, _) =>
      var k := VersionKeyOf(r, slot, name);
      if k in s.versions then Some(s.versions[k].eTag) else None
  }

  /** Two ways to leak a count: a put of a slot's own bytes counts the slot twice, and a failed
      decrement leaves a count without its reference. */
  function Leak(c: Codec, s: State, op: Op, e: string): nat {
    One(op.Put? && SelfPut(c, s, op) && c.hash(op.data) == e) + One(op.fails && GivesUp(c, s, op) == Some(e))
  }

  predicate SelfPut(c: Codec, s: State, op: Op)
    requires op.Put?
  {
    var was := s.SlotsOf(op.record).value;
    op.slot in was && was[op.slot].eTag == c.hash(op.data)
  }

  // ----- Operation by operation --------------------------------------------------------------------------

  lemma ReleaseCounts(s: State, e: string, fails: bool, x: string)
    ensures RefCount(Released(s, e, fails), x) == RefCount(s, x) - One(!fails && x == e && e in s.index)
    ensures References(Released(s, e, fails), x) == References(s, x)
  {
    SameReferences(s, Released(s, e, fails), x);
  }

  /** A new blob has no references yet. */
  lemma UnindexedUnreferenced(s: State, e: string)
    requires Backed(s) && e !in s.index
    ensures References(s, e) == 0
  {
    assert SlotRefs(s, e) == {};
    assert VersionRefs(s, e) == {};
  }

  lemma UploadCounts(c: Codec, s: State, data: Bytes, compress: bool, size: nat, x: string)
    requires c.Ideal() && Sound(c, s) && size > 0
    ensures var s' := ApplyAll(s, UploadWrites(c, s, data, compress, size));
      && s'.slots == s.slots && s'.versions == s.versions
      && RefCount(s', x) == RefCount(s, x) + One(x == c.hash(data))
      && (forall e :: e in s.index ==> e in s'.index)
  {
    UploadAdmissible(c, s, data, compress, size);
  }

  /** Rewriting a slot, and then giving up the reference to a blob. */
  lemma SlotStepCounts(s: State, stored: State, s': State, r: Record, n: string, slots: Slots, v: nat, gone: Option<string>, fails: bool, x: string)
    requires stored.slots == s.slots[r := Versioned(slots, v)] && stored.versions == s.versions
    requires forall m :: m != n ==> Lookup(slots, m) == Lookup(s.SlotsOf(r).value, m)
    requires s' == if gone.Some? then Released(stored, gone.value, fails) else stored
    requires gone.Some? ==> gone.value in stored.index
    ensures var was := s.SlotsOf(r).value;
      Excess(s', x) == RefCount(stored, x) - One(gone == Some(x) && !fails)
                     - References(s, x) - One(n in slots && slots[n].eTag == x) + One(n in was && was[n].eTag == x)
  {
    SlotMoves(s, stored, r, n, slots, v, x);
    if gone.Some? { ReleaseCounts(stored, gone.value, fails, x); }
  }

  /** After the upload, the slot table and the decrement leave one count too many where the slot already
      pointed at the blob, and one where the decrement fails. */
  lemma PutResultCounts(s: State, uploaded: State, r: Record, slot: string, e: string, length: nat, fails: bool, x: string)
    requires uploaded.slots == s.slots && uploaded.versions == s.versions
    requires RefCount(uploaded, x) == RefCount(s, x) + One(x == e)
    requires var was := s.SlotsOf(r).value; slot in was ==> was[slot].eTag in uploaded.index
    ensures var was := s.SlotsOf(r).value;
      var gone := if slot in was && was[slot].eTag != e then Some(was[slot].eTag) else None;
      Excess(PutResult(s, uploaded, r, slot, e, length, fails), x) ==
        Excess(s, x) + One(slot in was && was[slot].eTag == e && e == x) + One(fails && gone == Some(x))
  {
    var was, w := s.SlotsOf(r).value, SlotUpdate(s, r, slot, e, length);
    var gone := if slot in was && was[slot].eTag != e then Some(was[slot].eTag) else None;
    SlotStepCounts(s, Apply(uploaded, w), PutResult(s, uploaded, r, slot, e, length, fails), r, slot, w.slots, w.v, gone, fails, x);
  }

  lemma PutCounts(c: Codec, s: State, op: Op, x: string)
    requires c.Ideal() && Sound(c, s) && op.Put?
    ensures Excess(Step(c, s, op), x) == Excess(s, x) + Leak(c, s, op, x)
  {
    var r, slot, size := op.record, op.slot, EffectiveChunkSize(op.chunkSize, c.maxBlobBytes);
    var upload := UploadWrites(c, s, op.data, op.compress, size);
    SoundIsNamed(c, s);
    PutIs(c, s, r, slot, op.data, op.compress, size, op.fails, upload);
    UploadCounts(c, s, op.data, op.compress, size, x);
    PutResultCounts(s, ApplyAll(s, upload), r, slot, c.hash(op.data), |op.data|, op.fails, x);
  }

  lemma DeleteCounts(c: Codec, s: State, op: Op, x: string)
    requires Sound(c, s) && op.Delete?
    ensures Excess(Step(c, s, op), x) == Excess(s, x) + Leak(c, s, op, x)
  {
    var r, slot, was := op.record, op.slot, s.SlotsOf(op.record);
    if slot in was.value {
      SoundIsNamed(c, s);
      DeleteIs(c, s, r, slot, op.fails);
      var slots := was.value - {slot};
      var stored := s.(slots := s.slots[r := Versioned(slots, was.v + 1)]);
      SlotStepCounts(s, stored, Step(c, s, op), r, slot, slots, was.v + 1, GivesUp(c, s, op), op.fails, x);
    }
  }

  lemma PublishCounts(c: Codec, s: State, op: Op, x: string)
    requires Sound(c, s) && op.Publish?
    ensures Excess(Step(c, s, op), x) == Excess(s, x) + Leak(c, s, op, x)
  {
    var slots, k := s.SlotsOf(op.record).value, VersionKeyOf(op.record, op.slot, op.tag);
    if op.slot in slots && !(k in s.versions && s.versions[k].eTag == slots[op.slot].eTag) {
      var e := slots[op.slot].eTag;
      PublishIs(c, s, op.record, op.slot, op.tag, op.fails);
      var written := s.(versions := s.versions[k := Version(op.tag, e)]);
      VersionMoves(s, written, k, x);
      var counted := Recounted(written, e, 1);
      SameReferences(written, counted, x);
      if k in s.versions { ReleaseCounts(counted, s.versions[k].eTag, op.fails, x); }
    }
  }

  lemma DeleteVersionCounts(c: Codec, s: State, op: Op, x: string)
    requires Sound(c, s) && op.DeleteVersion?
    ensures Excess(Step(c, s, op), x) == Excess(s, x) + Leak(c, s, op, x)
  {
    var k := VersionKeyOf(op.record, op.slot, op.tag);
    if k in s.versions {
      SoundIsNamed(c, s);
      DeleteVersionIs(c, s, k, op.fails);
      var erased := s.(versions := s.versions - {k});
      VersionMoves(s, erased, k, x);
      ReleaseCounts(erased, s.versions[k].eTag, op.fails, x);
    }
  }

  // ----- Main results --------------------------------------------------------------------------------------

  /** The conservation law of one operation. */
  lemma StepConserves(c: Codec, s: State, op: Op, e: string)
    requires c.Ideal() && Sound(c, s)
    ensures Excess(Step(c, s, op), e) == Excess(s, e) + Leak(c, s, op, e)
  {
    match op {
      case Put(_, _, _, _, _, _) => PutCounts(c, s, op, e);
      case Delete(_, _, _) => DeleteCounts(c, s, op, e);
      case Publish(_, _, _, _) => PublishCounts(c, s, op, e);
      case DeleteVersion(_, _, _, _) => DeleteVersionCounts(c, s, op, e);
    }
  }

  function Leaked(c: Codec, s: State, ops: seq<Op>, e: string): nat
    decreases |ops|
  {
    if ops == [] then 0 else Leak(c, s, ops[0], e) + Leaked(c, Step(c, s, ops[0]), ops[1..], e)
  }

  /** Over any run, over any records: `refCount` minus the slots and versions pointing at a blob
      grows by the leaks of the run and by nothing else. */
  lemma {:induction false} RunConserves(c: Codec, s: State, ops: seq<Op>, e: string)
    requires c.Ideal() && Sound(c, s)
    ensures Sound(c, Run(c, s, ops))
    ensures Excess(Run(c, s, ops), e) == Excess(s, e) + Leaked(c, s, ops, e)
    decreases |ops|
  {
    if ops != [] {
      StepSound(c, s, ops[0]);
      StepConserves(c, s, ops[0], e);
      RunConserves(c, Step(c, s, ops[0]), ops[1..], e);
    }
  }

  const EMPTY := State(map[], map[], map[], map[])

  lemma EmptyIsExact(c: Codec, e: string)
    ensures Sound(c, EMPTY) && Excess(EMPTY, e) == 0
  {
    UnindexedUnreferenced(EMPTY, e);
  }

  /** From an empty vault a blob is never undercounted, and its count is exact as long as nothing
      leaked. In particular a blob with count zero is referenced by nothing. */
  lemma CountsCoverReferences(c: Codec, ops: seq<Op>, e: string)
    requires c.Ideal()
    ensures var s := Run(c, EMPTY, ops);
      && RefCount(s, e) >= References(s, e)
      && (RefCount(s, e) == References(s, e) <==> Leaked(c, EMPTY, ops, e) == 0)
      && (RefCount(s, e) == 0 ==>
            (forall r, n :: r in s.slots && n in s.slots[r].value ==> s.slots[r].value[n].eTag != e) &&
            (forall k :: k in s.versions ==> s.versions[k].eTag != e))
  {
    EmptyIsExact(c, e);
    RunConserves(c, EMPTY, ops, e);
    var s := Run(c, EMPTY, ops);
    if RefCount(s, e) == 0 {
      assert |SlotRefs(s, e)| == 0 && |VersionRefs(s, e)| == 0;
      forall r, n | r in s.slots && n in s.slots[r].value
        ensures s.slots[r].value[n].eTag != e
      {
        assert (r, n) !in SlotRefs(s, e);
      }
      forall k | k in s.versions
        ensures s.versions[k].eTag != e
      {
        assert k !in VersionRefs(s, e);
      }
    }
  }

  // ----- Operations cut short --------------------------------------------------------------------------------

  lemma {:induction false} ChunksKeepCounts(s: State, ws: seq<Write>, x: string)
    requires forall w :: w in ws ==> w.ChunkWrite?
    ensures Excess(ApplyAll(s, ws), x) == Excess(s, x)
    decreases |ws|
  {
    if ws != [] {
      assert ws[0] in ws;
      SameReferences(s, Apply(s, ws[0]), x);
      ChunksKeepCounts(Apply(s, ws[0]), ws[1..], x);
    }
  }

  /** Nothing is missing while a blob is being stored, and afterwards there is one count to spare. */
  lemma CutUploadCovers(c: Codec, s: State, data: Bytes, compress: bool, size: nat, n: nat, x: string)
    requires c.Ideal() && Sound(c, s) && size > 0
    requires n <= |UploadWrites(c, s, data, compress, size)|
    ensures Excess(ApplyAll(s, UploadWrites(c, s, data, compress, size)[..n]), x) >= Excess(s, x)
  {
    var ws := UploadWrites(c, s, data, compress, size);
    if n == |ws| {
      assert ws[..n] == ws;
      UploadCounts(c, s, data, compress, size, x);
      SameReferences(s, ApplyAll(s, ws), x);
    } else if c.hash(data) !in s.index {
      var blob, e := NewBlob(c, data, compress, size), c.hash(data);
      var chunks := ChunkWrites(e, Cut(c, e, if compress then c.gzip(data) else data, size, blob.chunkCount), 0, blob.chunkCount);
      ChunkWritesOnly(e, Cut(c, e, if compress then c.gzip(data) else data, size, blob.chunkCount), 0, blob.chunkCount);
      assert ws[..n] == chunks[..n];
      ChunksKeepCounts(s, chunks[..n], x);
    }
  }

  lemma CutPutCovers(c: Codec, s: State, op: Op, n: nat, x: string)
    requires c.Ideal() && Sound(c, s) && op.Put? && n < |Writes(c, s, op)|
    ensures Excess(ApplyAll(s, Writes(c, s, op)[..n]), x) >= Excess(s, x)
  {
    var size, e := EffectiveChunkSize(op.chunkSize, c.maxBlobBytes), c.hash(op.data);
    var upload, w := UploadWrites(c, s, op.data, op.compress, size), SlotUpdate(s, op.record, op.slot, e, |op.data|);
    CutPut(upload, w, ReleaseReplaced(s, op.record, op.slot, e, op.fails), n);
    if n <= |upload| {
      CutUploadCovers(c, s, op.data, op.compress, size, n, x);
    } else {
      UploadedSlotsCover(c, s, op.data, op.compress, size, w, op.slot, x);
    }
  }

  /** A put cut before its last write has not come to the decrement. */
  lemma CutPut(upload: seq<Write>, w: Write, release: seq<Write>, n: nat)
    requires |release| <= 1 && n < |upload + [w] + release|
    ensures (upload + [w] + release)[..n] == if n <= |upload| then upload[..n] else upload + [w]
  {
  }

  lemma UploadedSlotsCover(c: Codec, s: State, data: Bytes, compress: bool, size: nat, w: Write, slot: string, x: string)
    requires c.Ideal() && Sound(c, s) && size > 0
    requires w.SlotsWrite? && slot in w.slots && w.slots[slot].eTag == c.hash(data)
    requires forall m :: m != slot ==> Lookup(w.slots, m) == Lookup(s.SlotsOf(w.record).value, m)
    ensures Excess(ApplyAll(s, UploadWrites(c, s, data, compress, size) + [w]), x) >= Excess(s, x)
  {
    UploadCounts(c, s, data, compress, size, x);
    SlotsAfterUpload(s, UploadWrites(c, s, data, compress, size), w, slot, c.hash(data), x);
  }

  lemma SlotsAfterUpload(s: State, upload: seq<Write>, w: Write, slot: string, e: string, x: string)
    requires w.SlotsWrite? && slot in w.slots && w.slots[slot].eTag == e
    requires forall m :: m != slot ==> Lookup(w.slots, m) == Lookup(s.SlotsOf(w.record).value, m)
    requires var s1 := ApplyAll(s, upload);
      s1.slots == s.slots && s1.versions == s.versions && RefCount(s1, x) == RefCount(s, x) + One(x == e)
    ensures Excess(ApplyAll(s, upload + [w]), x) >= Excess(s, x)
  {
    ApplyConcat(s, upload, w);
    SlotMoves(s, Apply(ApplyAll(s, upload), w), w.record, slot, w.slots, w.v, x);
  }

  lemma FirstWrite(s: State, ws: seq<Write>, w: Write)
    requires ws != [] && ws[0] == w
    ensures ApplyAll(s, ws[..1]) == Apply(s, w)
  {
    assert ws[..1] == [w];
    assert ApplyAll(s, [w]) == Apply(s, w);
  }

  lemma CutDeleteCovers(c: Codec, s: State, op: Op, n: nat, x: string)
    requires op.Delete? && n < |Writes(c, s, op)|
    ensures Excess(ApplyAll(s, Writes(c, s, op)[..n]), x) >= Excess(s, x)
  {
    var was := s.SlotsOf(op.record);
    var w := SlotsWrite(op.record, was.value - {op.slot}, was.v + 1);
    if n == 1 {
      FirstWrite(s, Writes(c, s, op), w);
      SlotMoves(s, Apply(s, w), op.record, op.slot, w.slots, w.v, x);
    }
  }

  lemma CutDeleteVersionCovers(c: Codec, s: State, op: Op, n: nat, x: string)
    requires op.DeleteVersion? && n < |Writes(c, s, op)|
    ensures Excess(ApplyAll(s, Writes(c, s, op)[..n]), x) >= Excess(s, x)
  {
    var k := VersionKeyOf(op.record, op.slot, op.tag);
    if n == 1 {
      FirstWrite(s, Writes(c, s, op), VersionErase(k));
      VersionMoves(s, Apply(s, VersionErase(k)), k, x);
    }
  }

  /** The blob that a publish has pointed at but not yet counted. */
  predicate Uncounted(c: Codec, s: State, op: Op, n: nat, x: string) {
    op.Publish? && n == 1 && Writes(c, s, op) != [] && x == s.SlotsOf(op.record).value[op.slot].eTag
  }

  lemma CutPublishCounts(c: Codec, s: State, op: Op, n: nat, x: string)
    requires Sound(c, s) && op.Publish? && n < |Writes(c, s, op)|
    ensures var change := Excess(ApplyAll(s, Writes(c, s, op)[..n]), x) - Excess(s, x);
      if Uncounted(c, s, op, n, x) then change == -1 else change >= 0
  {
    var k, e, ws := VersionKeyOf(op.record, op.slot, op.tag), s.SlotsOf(op.record).value[op.slot].eTag, Writes(c, s, op);
    var w := VersionWrite(k, Version(op.tag, e));
    if n >= 1 {
      FirstWrite(s, ws, w);
      VersionRecorded(s, k, w.version, x);
    }
    if n == 2 {
      SoundIsNamed(c, s);
      assert ws[..2] == [w] + Recount(s, e, 1);
      VersionCounted(c, s, w, e, x);
    }
  }

  /** Recording a version of a blob it did not name before. */
  lemma VersionRecorded(s: State, k: VersionKey, version: Version, x: string)
    requires !(k in s.versions && s.versions[k].eTag == version.eTag)
    ensures var change := Excess(Apply(s, VersionWrite(k, version)), x) - Excess(s, x);
      if x == version.eTag then change == -1 else change >= 0
  {
    VersionMoves(s, Apply(s, VersionWrite(k, version)), k, x);
  }

  lemma VersionCounted(c: Codec, s: State, w: Write, e: string, x: string)
    requires Named(s) && w.VersionWrite? && e in s.index
    ensures Excess(ApplyAll(s, [w] + Recount(s, e, 1)), x) == Excess(Apply(s, w), x) + One(x == e)
  {
    var written := Apply(s, w);
    assert ApplyAll(s, [w]) == written;
    ThenRecount(c, s, [w], written, e, 1);
    SameReferences(written, Recounted(written, e, 1), x);
  }

  /** Cut an operation short after any of its writes, or let it finish: a blob ends up with less than
      it had, counts against references, exactly if the operation is a publish of that blob cut
      between recording the version and counting it; and then it is one short. */
  lemma InterruptedPublishUndercounts(c: Codec, s: State, op: Op, n: nat, e: string)
    requires c.Ideal() && Sound(c, s) && n <= |Writes(c, s, op)|
    ensures var s' := ApplyAll(s, Writes(c, s, op)[..n]);
      && (Excess(s', e) < Excess(s, e) <==> Uncounted(c, s, op, n, e))
      && Excess(s', e) >= Excess(s, e) - 1
  {
    var ws := Writes(c, s, op);
    if n == |ws| {
      assert ws[..n] == ws;
      StepConserves(c, s, op, e);
      PublishWritesTwice(c, s, op);
    } else {
      match op {
        case Put(_, _, _, _, _, _) => CutPutCovers(c, s, op, n, e);
        case Delete(_, _, _) => CutDeleteCovers(c, s, op, n, e);
        case Publish(_, _, _, _) => CutPublishCounts(c, s, op, n, e);
        case DeleteVersion(_, _, _, _) => CutDeleteVersionCovers(c, s, op, n, e);
      }
    }
  }

  lemma PublishWritesTwice(c: Codec, s: State, op: Op)
    requires Sound(c, s)
    ensures op.Publish? && Writes(c, s, op) != [] ==> |Writes(c, s, op)| >= 2
  {
  }

  /** Repeating the interrupted publish does not repair the count: the label already names the blob, so
      nothing is written. */
  lemma RetriedPublishWritesNothing(c: Codec, s: State, op: Op, fails: bool)
    requires op.Publish? && Writes(c, s, op) != []
    ensures var s' := ApplyAll(s, Writes(c, s, op)[..1]);
      Writes(c, s', Publish(op.record, op.slot, op.tag, fails)) == []
  {
    var k, e := VersionKeyOf(op.record, op.slot, op.tag), s.SlotsOf(op.record).value[op.slot].eTag;
    FirstWrite(s, Writes(c, s, op), VersionWrite(k, Version(op.tag, e)));
  }

  /** So the blob stays one count short, however often the publish is tried again. */
  lemma {:induction false} RetriesKeepTheShortfall(c: Codec, s: State, op: Op, retries: seq<Op>, e: string)
    requires c.Ideal() && Sound(c, s) && op.Publish? && Uncounted(c, s, op, 1, e)
    requires forall retry :: retry in retries ==> retry == Publish(op.record, op.slot, op.tag, retry.fails)
    ensures var s' := ApplyAll(s, Writes(c, s, op)[..1]);
      Run(c, s', retries) == s' && Excess(Run(c, s', retries), e) == Excess(s, e) - 1
    decreases |retries|
  {
    var s' := ApplyAll(s, Writes(c, s, op)[..1]);
    PublishWritesTwice(c, s, op);
    CutPublishCounts(c, s, op, 1, e);
    if retries != [] {
      assert retries[0] in retries;
      RetriedPublishWritesNothing(c, s, op, retries[0].fails);
      RetriesKeepTheShortfall(c, s, op, retries[1..], e);
    }
  }

  /** How many attempts of a run are publishes of the blob cut after their first write. */
  function UncountedIn(c: Codec, s: State, attempts: seq<Attempt>, e: string): nat
    decreases |attempts|
  {
    if attempts == [] then 0
    else
      var a := attempts[0];
      One(Uncounted(c, s, a.op, |Made(c, s, a)|, e)) + UncountedIn(c, CutStep(c, s, a), attempts[1..], e)
  }

  /** Over a run of operations each of which may be cut short anywhere, a blob falls short by no more
      than the publishes of it that were cut before counting; without such a cut it is never
      undercounted. */
  lemma {:induction false} CutRunFallsShortAtMost(c: Codec, s: State, attempts: seq<Attempt>, e: string)
    requires c.Ideal() && Sound(c, s)
    ensures Excess(CutRun(c, s, attempts), e) >= Excess(s, e) - UncountedIn(c, s, attempts, e)
    decreases |attempts|
  {
    if attempts != [] {
      var a := attempts[0];
      var n, ws := |Made(c, s, a)|, Writes(c, s, a.op);
      assert Made(c, s, a) == ws[..n];
      InterruptedPublishUndercounts(c, s, a.op, n, e);
      InterruptedOperationsStayReadable(c, s, a.op, n);
      CutRunFallsShortAtMost(c, CutStep(c, s, a), attempts[1..], e);
    }
  }
}
