/** Reading back what was written, after any prefix of the writes of any operation. */
module BlobReads {
  import opened Wrappers
  import opened Stores
  import opened Blobs

  // ----- Splitting and reassembling ------------------------------------------------------------------

  lemma TimesSize(i: nat, size: nat)
    ensures (i + 1) * size == i * size + size
  {
  }

  /** The store holds chunks `i..count`. */
  ghost predicate HoldsChunks(chunks: map<(string, nat), Chunk>, e: string, cut: nat -> Chunk, i: nat, count: nat) {
    forall j :: i <= j < count ==> (e, j) in chunks && chunks[(e, j)] == cut(j)
  }

  function From(bytes: Bytes, n: nat): Bytes {
    if n <= |bytes| then bytes[n..] else []
  }

  lemma SubarrayThenRest(bytes: Bytes, start: nat, size: nat)
    ensures Subarray(bytes, start, size) + From(bytes, start + size) == From(bytes, start)
  {
  }

  lemma FetchStep(c: Codec, chunks: map<(string, nat), Chunk>, e: string, i: nat, count: nat, head: Bytes, tail: Bytes)
    requires i < count && (e, i) in chunks && chunks[(e, i)] == SealChunk(c, e, i, count, head)
    requires FetchFrom(c, chunks, e, i + 1, count) == Got(tail)
    ensures FetchFrom(c, chunks, e, i, count) == Got(head + tail)
  {
  }

  lemma {:induction false} FetchConcats(c: Codec, chunks: map<(string, nat), Chunk>, e: string, bytes: Bytes, size: nat, i: nat, count: nat, start: nat)
    requires HoldsChunks(chunks, e, Cut(c, e, bytes, size, count), i, count)
    requires count * size >= |bytes| && i <= count && start == i * size
    ensures FetchFrom(c, chunks, e, i, count) == Got(From(bytes, start))
    decreases count - i
  {
    if i < count {
      TimesSize(i, size);
      FetchConcats(c, chunks, e, bytes, size, i + 1, count, start + size);
      SubarrayThenRest(bytes, start, size);
      FetchStep(c, chunks, e, i, count, Subarray(bytes, start, size), From(bytes, start + size));
    }
  }

  lemma ChunkWritesStep(s: State, e: string, cut: nat -> Chunk, i: nat, count: nat)
    requires i < count
    ensures ApplyAll(s, ChunkWrites(e, cut, i, count))
         == ApplyAll(Apply(s, ChunkWrite(e, i, cut(i))), ChunkWrites(e, cut, i + 1, count))
  {
    var w, rest := ChunkWrite(e, i, cut(i)), ChunkWrites(e, cut, i + 1, count);
    assert ([w] + rest)[1..] == rest;
  }

  lemma {:induction false} ChunksWritten(s: State, e: string, cut: nat -> Chunk, i: nat, count: nat)
    ensures var s' := ApplyAll(s, ChunkWrites(e, cut, i, count));
      && HoldsChunks(s'.chunks, e, cut, i, count)
      && (forall k :: k in s.chunks && !(k.0 == e && i <= k.1) ==> k in s'.chunks && s'.chunks[k] == s.chunks[k])
      && s' == s.(chunks := s'.chunks)
    decreases count - i
  {
    if i < count {
      ChunkWritesStep(s, e, cut, i, count);
      ChunksWritten(Apply(s, ChunkWrite(e, i, cut(i))), e, cut, i + 1, count);
    }
  }

  // ----- The invariant ---------------------------------------------------------------------------------

  /** The index entry reads back as bytes with this content hash. */
  ghost predicate Stored(c: Codec, s: State, e: string) {
    e in s.index && s.index[e].value.eTag == e && exists data :: c.hash(data) == e && Fetch(c, s, s.index[e].value) == Got(data)
  }

  /** Every slot and every published version points at an index entry. */
  ghost predicate Backed(s: State) {
    && (forall r, n :: r in s.slots && n in s.slots[r].value ==> s.slots[r].value[n].eTag in s.index)
    && (forall k :: k in s.versions ==> s.versions[k].eTag in s.index)
  }

  ghost predicate Sound(c: Codec, s: State) {
    Backed(s) && forall e :: e in s.index ==> Stored(c, s, e)
  }

  /** Reading an eTag does not depend on the chunks of others, nor on counts. */
  lemma {:induction false} FetchFrame(c: Codec, x: map<(string, nat), Chunk>, y: map<(string, nat), Chunk>, e: string, i: nat, count: nat)
    requires forall j: nat :: (e, j) in x ==> (e, j) in y && y[(e, j)] == x[(e, j)]
    ensures FetchFrom(c, x, e, i, count).Got? ==> FetchFrom(c, y, e, i, count) == FetchFrom(c, x, e, i, count)
    decreases count - i
  {
    if i < count { FetchFrame(c, x, y, e, i + 1, count); }
  }

  /** Two entries of one blob, up to their counts. */
  predicate SameBlob(a: BlobObject, b: BlobObject) {
    a.(refCount := 0) == b.(refCount := 0)
  }

  /** `s'` knows every blob `s` knows, and reads it the same. */
  ghost predicate KeepsBlobs(s: State, s': State) {
    && (forall e :: e in s.index ==> e in s'.index && SameBlob(s.index[e].value, s'.index[e].value))
    && (forall e, j: nat :: e in s.index && (e, j) in s.chunks ==> (e, j) in s'.chunks && s'.chunks[(e, j)] == s.chunks[(e, j)])
  }

  lemma KeptBlobStored(c: Codec, s: State, s': State, e: string)
    requires KeepsBlobs(s, s') && Stored(c, s, e)
    ensures Stored(c, s', e) && Read(c, s', e) == Read(c, s, e)
  {
    FetchFrame(c, s.chunks, s'.chunks, e, 0, s.index[e].value.chunkCount);
    assert SameBlob(s.index[e].value, s'.index[e].value);
    var data :| c.hash(data) == e && Fetch(c, s, s.index[e].value) == Got(data);
    assert Fetch(c, s', s'.index[e].value) == Got(data);
  }

  // ----- Write by write ----------------------------------------------------------------------------------

  /** A write that may be made next: a chunk of a blob that is not indexed yet, a new count, an
      index entry whose chunks are there, or a pointer to an index entry. */
  ghost predicate Admissible(c: Codec, s: State, w: Write) {
    match w
    case ChunkWrite(e, _, _) => e !in s.index
    case IndexWrite(b, _) =>
      if b.eTag in s.index then SameBlob(b, s.index[b.eTag].value)
      else exists data :: c.hash(data) == b.eTag && Fetch(c, s, b) == Got(data)
    case SlotsWrite(_, slots, _) => forall n :: n in slots ==> slots[n].eTag in s.index
    case VersionWrite(_, version) => version.eTag in s.index
    case VersionErase(_) => true
  }

  lemma AdmissibleKeepsSound(c: Codec, s: State, w: Write)
    requires Sound(c, s) && Admissible(c, s, w)
    ensures Sound(c, Apply(s, w)) && KeepsBlobs(s, Apply(s, w))
  {
    var s' := Apply(s, w);
    assert KeepsBlobs(s, s');
    forall e | e in s'.index
      ensures Stored(c, s', e)
    {
      if e in s.index {
        KeptBlobStored(c, s, s', e);
      } else {
        var data :| c.hash(data) == e && Fetch(c, s, w.blob) == Got(data);
        assert Fetch(c, s', s'.index[e].value) == Got(data);
      }
    }
  }

  ghost predicate AllAdmissible(c: Codec, s: State, ws: seq<Write>)
    decreases |ws|
  {
    ws == [] || (Admissible(c, s, ws[0]) && AllAdmissible(c, Apply(s, ws[0]), ws[1..]))
  }

  lemma {:induction false} Then(s: State, x: seq<Write>, y: seq<Write>)
    ensures ApplyAll(s, x + y) == ApplyAll(ApplyAll(s, x), y)
    decreases |x|
  {
    if x == [] {
      assert x + y == y;
    } else {
      assert (x + y)[1..] == x[1..] + y;
      Then(Apply(s, x[0]), x[1..], y);
    }
  }

  lemma {:induction false} ApplyAppend(c: Codec, s: State, x: seq<Write>, y: seq<Write>)
    ensures ApplyAll(s, x + y) == ApplyAll(ApplyAll(s, x), y)
    ensures AllAdmissible(c, s, x + y) <==> AllAdmissible(c, s, x) && AllAdmissible(c, ApplyAll(s, x), y)
    decreases |x|
  {
    Then(s, x, y);
    if x == [] {
      assert x + y == y;
    } else {
      assert (x + y)[1..] == x[1..] + y;
      ApplyAppend(c, Apply(s, x[0]), x[1..], y);
    }
  }

  lemma {:induction false} PrefixSound(c: Codec, s: State, ws: seq<Write>, n: nat)
    requires Sound(c, s) && AllAdmissible(c, s, ws) && n <= |ws|
    ensures Sound(c, ApplyAll(s, ws[..n])) && KeepsBlobs(s, ApplyAll(s, ws[..n]))
    decreases n
  {
    if n > 0 {
      AdmissibleKeepsSound(c, s, ws[0]);
      PrefixSound(c, Apply(s, ws[0]), ws[1..], n - 1);
      assert ws[..n][1..] == ws[1..][..n - 1];
    }
  }

  lemma {:induction false} ChunksAdmissible(c: Codec, s: State, e: string, cut: nat -> Chunk, i: nat, count: nat)
    requires e !in s.index
    ensures AllAdmissible(c, s, ChunkWrites(e, cut, i, count))
    decreases count - i
  {
    if i < count {
      var w, rest := ChunkWrite(e, i, cut(i)), ChunkWrites(e, cut, i + 1, count);
      assert ([w] + rest)[1..] == rest;
      ChunksAdmissible(c, Apply(s, w), e, cut, i + 1, count);
    }
  }

  /** Writing the chunks of a new blob and then its index entry. */
  lemma NewBlobAdmissible(c: Codec, s: State, data: Bytes, compress: bool, size: nat, bytes: Bytes, blob: BlobObject)
    requires c.Ideal() && size > 0 && c.hash(data) !in s.index
    requires bytes == (if compress then c.gzip(data) else data) && blob == NewBlob(c, data, compress, size)
    ensures var cut := Cut(c, blob.eTag, bytes, size, blob.chunkCount);
      var chunkWrites := ChunkWrites(blob.eTag, cut, 0, blob.chunkCount);
      var s1 := ApplyAll(s, chunkWrites);
      && AllAdmissible(c, s, chunkWrites + [IndexWrite(blob, 1)])
      && ApplyAll(s, chunkWrites + [IndexWrite(blob, 1)]) == Apply(s1, IndexWrite(blob, 1))
      && s1 == s.(chunks := s1.chunks)
  {
    var e, count := blob.eTag, blob.chunkCount;
    var cut := Cut(c, e, bytes, size, count);
    var chunkWrites := ChunkWrites(e, cut, 0, count);
    ChunksAdmissible(c, s, e, cut, 0, count);
    ChunksWritten(s, e, cut, 0, count);
    var s1 := ApplyAll(s, chunkWrites);
    ChunkCountIsCeiling(|bytes|, size);
    FetchConcats(c, s1.chunks, e, bytes, size, 0, count, 0);
    assert Fetch(c, s1, blob) == Got(data);
    assert Admissible(c, s1, IndexWrite(blob, 1));
    ApplyAppend(c, s, chunkWrites, [IndexWrite(blob, 1)]);
  }

  /** Counting a known blob up. */
  lemma CountUpAdmissible(c: Codec, s: State, e: string)
    requires Sound(c, s) && e in s.index
    ensures var ws, blob := Recount(s, e, 1), s.index[e];
      && AllAdmissible(c, s, ws)
      && ApplyAll(s, ws) == s.(index := s.index[e := Versioned(blob.value.(refCount := blob.value.refCount + 1), blob.v + 1)])
  {
    assert Stored(c, s, e);
    var w := Recount(s, e, 1)[0];
    assert ApplyAll(s, [w]) == Apply(s, w);
  }

  /** Uploading: chunks first, then the index entry. Afterwards the blob is there and counted once
      more; nothing else has changed. */
  lemma UploadAdmissible(c: Codec, s: State, data: Bytes, compress: bool, size: nat)
    requires c.Ideal() && Sound(c, s) && size > 0
    ensures var e := c.hash(data);
      var ws := UploadWrites(c, s, data, compress, size);
      var s' := ApplyAll(s, ws);
      && AllAdmissible(c, s, ws)
      && s'.slots == s.slots && s'.versions == s.versions
      && s'.index.Keys == s.index.Keys + {e}
      && (forall x :: x in s.index && x != e ==> s'.index[x] == s.index[x])
      && s'.index[e].value.refCount == (if e in s.index then s.index[e].value.refCount else 0) + 1
  {
    var e := c.hash(data);
    if e in s.index {
      CountUpAdmissible(c, s, e);
    } else {
      NewBlobAdmissible(c, s, data, compress, size, if compress then c.gzip(data) else data, NewBlob(c, data, compress, size));
    }
  }

  lemma ReleaseAdmissible(c: Codec, s: State, t: State, e: string, delta: int, fails: bool)
    requires Sound(c, t) && (e in s.index ==> e in t.index && t.index[e] == s.index[e])
    ensures AllAdmissible(c, t, Recount(s, e, delta)) && AllAdmissible(c, t, Release(s, e, fails))
  {
    if e in s.index { assert Stored(c, t, e); }
  }

  lemma DeleteAdmissible(c: Codec, s: State, r: Record, slot: string, fails: bool)
    requires Sound(c, s)
    ensures AllAdmissible(c, s, DeleteWrites(s, r, slot, fails))
  {
    var was := s.SlotsOf(r);
    if slot in was.value {
      OneThenRelease(c, s, SlotsWrite(r, was.value - {slot}, was.v + 1), was.value[slot].eTag, fails);
    }
  }

  lemma DeleteVersionAdmissible(c: Codec, s: State, k: VersionKey, fails: bool)
    requires Sound(c, s)
    ensures AllAdmissible(c, s, DeleteVersionWrites(s, k, fails))
  {
    if k in s.versions { OneThenRelease(c, s, VersionErase(k), s.versions[k].eTag, fails); }
  }

  lemma OneThenRelease(c: Codec, s: State, w: Write, e: string, fails: bool)
    requires Sound(c, s) && Admissible(c, s, w) && (w.SlotsWrite? || w.VersionErase?)
    ensures AllAdmissible(c, s, [w] + Release(s, e, fails))
  {
    AdmissibleKeepsSound(c, s, w);
    assert ApplyAll(s, [w]) == Apply(s, w);
    ThenReleaseAdmissible(c, s, [w], e, fails);
  }

  lemma OpAdmissible(c: Codec, s: State, op: Op)
    requires c.Ideal() && Sound(c, s)
    ensures AllAdmissible(c, s, Writes(c, s, op))
  {
    match op {
      case Put(r, slot, data, compress, chunkSize, fails) =>
        PutAdmissible(c, s, r, slot, data, compress, EffectiveChunkSize(chunkSize, c.maxBlobBytes), fails);
      case Delete(r, slot, fails) => DeleteAdmissible(c, s, r, slot, fails);
      case Publish(r, slot, name, fails) => PublishAdmissible(c, s, r, slot, name, fails);
      case DeleteVersion(r, slot, name, fails) => DeleteVersionAdmissible(c, s, VersionKeyOf(r, slot, name), fails);
    }
  }

  lemma AllSound(c: Codec, s: State, ws: seq<Write>)
    requires Sound(c, s) && AllAdmissible(c, s, ws)
    ensures Sound(c, ApplyAll(s, ws)) && KeepsBlobs(s, ApplyAll(s, ws))
  {
    PrefixSound(c, s, ws, |ws|);
    assert ws[..|ws|] == ws;
  }

  /** The writes of a put up to the slot table. Blobs other than the new one are as they were. */
  lemma PutHead(c: Codec, s: State, data: Bytes, compress: bool, size: nat, upload: seq<Write>, w: Write)
    requires c.Ideal() && Sound(c, s) && size > 0 && upload == UploadWrites(c, s, data, compress, size)
    requires w.SlotsWrite? && forall n :: n in w.slots ==> w.slots[n].eTag in s.index || w.slots[n].eTag == c.hash(data)
    ensures var s' := ApplyAll(s, upload + [w]);
      && AllAdmissible(c, s, upload + [w]) && Sound(c, s')
      && (forall x :: x in s.index && x != c.hash(data) ==> x in s'.index && s'.index[x] == s.index[x])
  {
    UploadAdmissible(c, s, data, compress, size);
    AllSound(c, s, upload);
    AdmissibleKeepsSound(c, ApplyAll(s, upload), w);
    ApplyAppend(c, s, upload, [w]);
    ApplyConcat(s, upload, w);
  }

  lemma ThenReleaseAdmissible(c: Codec, s: State, head: seq<Write>, e: string, fails: bool)
    requires AllAdmissible(c, s, head) && Sound(c, ApplyAll(s, head))
    requires e in s.index ==> e in ApplyAll(s, head).index && ApplyAll(s, head).index[e] == s.index[e]
    ensures AllAdmissible(c, s, head + Release(s, e, fails))
  {
    ReleaseAdmissible(c, s, ApplyAll(s, head), e, -1, fails);
    ApplyAppend(c, s, head, Release(s, e, fails));
  }

  lemma PutAdmissible(c: Codec, s: State, r: Record, slot: string, data: Bytes, compress: bool, size: nat, fails: bool)
    requires c.Ideal() && Sound(c, s) && size > 0
    ensures AllAdmissible(c, s, PutWrites(c, s, r, slot, data, compress, size, fails))
  {
    var e := c.hash(data);
    var upload, w := UploadWrites(c, s, data, compress, size), SlotUpdate(s, r, slot, e, |data|);
    PutHead(c, s, data, compress, size, upload, w);
    ThenReplacedAdmissible(c, s, upload + [w], r, slot, e, fails);
  }

  lemma ThenReplacedAdmissible(c: Codec, s: State, head: seq<Write>, r: Record, slot: string, e: string, fails: bool)
    requires AllAdmissible(c, s, head) && Sound(c, ApplyAll(s, head))
    requires forall x :: x in s.index && x != e ==> x in ApplyAll(s, head).index && ApplyAll(s, head).index[x] == s.index[x]
    ensures AllAdmissible(c, s, head + ReleaseReplaced(s, r, slot, e, fails))
  {
    var was := s.SlotsOf(r).value;
    if slot in was && was[slot].eTag != e {
      ThenReleaseAdmissible(c, s, head, was[slot].eTag, fails);
    } else {
      assert head + [] == head;
    }
  }

  /** The first two writes of a publish: the version record, then the count. */
  lemma PublishHead(c: Codec, s: State, k: VersionKey, version: Version)
    requires Sound(c, s) && version.eTag in s.index
    ensures var ws := [VersionWrite(k, version)] + Recount(s, version.eTag, 1);
      var blob := s.index[version.eTag];
      && AllAdmissible(c, s, ws)
      && ApplyAll(s, ws) == s.(versions := s.versions[k := version],
                               index := s.index[version.eTag := Versioned(blob.value.(refCount := blob.value.refCount + 1), blob.v + 1)])
  {
    var e, w := version.eTag, VersionWrite(k, version);
    AdmissibleKeepsSound(c, s, w);
    assert Recount(Apply(s, w), e, 1) == Recount(s, e, 1);
    CountUpAdmissible(c, Apply(s, w), e);
    ApplyAppend(c, s, [w], Recount(s, e, 1));
  }

  lemma PublishAdmissible(c: Codec, s: State, r: Record, slot: string, name: string, fails: bool)
    requires c.Ideal() && Sound(c, s)
    ensures AllAdmissible(c, s, PublishWrites(s, r, slot, name, fails))
  {
    var slots, k := s.SlotsOf(r).value, VersionKeyOf(r, slot, name);
    if slot in slots && !(k in s.versions && s.versions[k].eTag == slots[slot].eTag) {
      var e := slots[slot].eTag;
      var head := [VersionWrite(k, Version(name, e))] + Recount(s, e, 1);
      PublishHead(c, s, k, Version(name, e));
      AllSound(c, s, head);
      var tail := if k in s.versions then Release(s, s.versions[k].eTag, fails) else [];
      if k in s.versions { ReleaseAdmissible(c, s, ApplyAll(s, head), s.versions[k].eTag, -1, fails); }
      ApplyAppend(c, s, head, tail);
    }
  }

  // ----- Main results --------------------------------------------------------------------------------------

  /** Cut any operation short after any number of its writes: every index entry still has all its
      chunks, every slot and version still points at an index entry, and every blob that was
      readable still reads the same bytes. */
  lemma InterruptedOperationsStayReadable(c: Codec, s: State, op: Op, n: nat)
    requires c.Ideal() && Sound(c, s) && n <= |Writes(c, s, op)|
    ensures var s' := ApplyAll(s, Writes(c, s, op)[..n]);
      && Sound(c, s')
      && (forall e :: e in s.index ==> Read(c, s', e) == Read(c, s, e))
  {
    OpAdmissible(c, s, op);
    PrefixSound(c, s, Writes(c, s, op), n);
    forall e | e in s.index
      ensures Read(c, ApplyAll(s, Writes(c, s, op)[..n]), e) == Read(c, s, e)
    {
      KeptBlobStored(c, s, ApplyAll(s, Writes(c, s, op)[..n]), e);
    }
  }

  lemma StepSound(c: Codec, s: State, op: Op)
    requires c.Ideal() && Sound(c, s)
    ensures Sound(c, Step(c, s, op)) && forall e :: e in s.index ==> Read(c, Step(c, s, op), e) == Read(c, s, e)
  {
    var ws := Writes(c, s, op);
    InterruptedOperationsStayReadable(c, s, op, |ws|);
    assert ws[..|ws|] == ws;
  }

  /** After `put`, `get` returns the bytes: for every payload, chunk size and compression choice,
      and also if the blob was stored before by someone else with different ones. */
  lemma PutThenGet(c: Codec, s: State, r: Record, slot: string, data: Bytes, compress: bool, chunkSize: nat, fails: bool)
    requires c.Ideal() && Sound(c, s)
    ensures Get(c, Step(c, s, Put(r, slot, data, compress, chunkSize, fails)), r, slot) == Some(Got(data))
  {
    var op := Put(r, slot, data, compress, chunkSize, fails);
    var e, s' := c.hash(data), Step(c, s, op);
    StepSound(c, s, op);
    PutSlots(c, s, r, slot, data, compress, EffectiveChunkSize(chunkSize, c.maxBlobBytes), fails);
    assert Stored(c, s', e);
    var d :| c.hash(d) == e && Fetch(c, s', s'.index[e].value) == Got(d);
  }

  // ----- Closed forms ----------------------------------------------------------------------------------------

  function Recounted(s: State, e: string, delta: int): State {
    if e in s.index then
      s.(index := s.index[e := Versioned(s.index[e].value.(refCount := s.index[e].value.refCount + delta), s.index[e].v + 1)])
    else s
  }

  function Released(s: State, e: string, fails: bool): State {
    if fails then s else Recounted(s, e, -1)
  }

  /** Each index entry is stored under its own eTag. */
  ghost predicate Named(s: State) {
    forall e :: e in s.index ==> s.index[e].value.eTag == e
  }

  lemma SoundIsNamed(c: Codec, s: State)
    requires Sound(c, s)
    ensures Named(s)
  {
    forall e | e in s.index
      ensures s.index[e].value.eTag == e
    {
      assert Stored(c, s, e);
    }
  }

  lemma ThenRecount(c: Codec, s: State, head: seq<Write>, t: State, e: string, delta: int)
    requires Named(s) && ApplyAll(s, head) == t && Lookup(t.index, e) == Lookup(s.index, e)
    ensures ApplyAll(s, head + Recount(s, e, delta)) == Recounted(t, e, delta)
  {
    ApplyAppend(c, s, head, Recount(s, e, delta));
    if e in s.index {
      var w := Recount(s, e, delta)[0];
      assert ApplyAll(t, [w]) == Apply(t, w);
    }
  }

  lemma ThenRelease(c: Codec, s: State, head: seq<Write>, t: State, e: string, fails: bool)
    requires Named(s) && ApplyAll(s, head) == t && Lookup(t.index, e) == Lookup(s.index, e)
    ensures ApplyAll(s, head + Release(s, e, fails)) == Released(t, e, fails)
  {
    ThenRecount(c, s, head, t, e, -1);
    assert head + [] == head;
  }

  lemma ApplyConcat(s: State, x: seq<Write>, w: Write)
    ensures ApplyAll(s, x + [w]) == Apply(ApplyAll(s, x), w)
  {
    Then(s, x, [w]);
    assert ApplyAll(ApplyAll(s, x), [w]) == Apply(ApplyAll(s, x), w);
  }

  /** What an upload does to the index, for any contents of the store. */
  lemma UploadIndexes(c: Codec, s: State, data: Bytes, compress: bool, size: nat)
    requires Named(s) && size > 0
    ensures var e, s' := c.hash(data), ApplyAll(s, UploadWrites(c, s, data, compress, size));
      && Named(s') && s'.slots == s.slots && s'.versions == s.versions
      && (forall x :: x != e ==> Lookup(s'.index, x) == Lookup(s.index, x))
  {
    var e := c.hash(data);
    if e in s.index {
      var w := Recount(s, e, 1)[0];
      assert ApplyAll(s, [w]) == Apply(s, w);
    } else {
      var bytes, blob := if compress then c.gzip(data) else data, NewBlob(c, data, compress, size);
      var cut := Cut(c, e, bytes, size, blob.chunkCount);
      ChunksWritten(s, e, cut, 0, blob.chunkCount);
      ApplyConcat(s, ChunkWrites(e, cut, 0, blob.chunkCount), IndexWrite(blob, 1));
    }
  }

  /** The state after a put, given the one after its upload. */
  function PutResult(s: State, uploaded: State, r: Record, slot: string, e: string, length: nat, fails: bool): State {
    var was := s.SlotsOf(r).value;
    var stored := Apply(uploaded, SlotUpdate(s, r, slot, e, length));
    if slot in was && was[slot].eTag != e then Released(stored, was[slot].eTag, fails) else stored
  }

  lemma PutIs(c: Codec, s: State, r: Record, slot: string, data: Bytes, compress: bool, size: nat, fails: bool, upload: seq<Write>)
    requires Named(s) && size > 0 && upload == UploadWrites(c, s, data, compress, size)
    ensures ApplyAll(s, PutWrites(c, s, r, slot, data, compress, size, fails)) ==
            PutResult(s, ApplyAll(s, upload), r, slot, c.hash(data), |data|, fails)
  {
    UploadIndexes(c, s, data, compress, size);
    PutTail(c, s, r, slot, c.hash(data), |data|, upload, ApplyAll(s, upload), fails);
  }

  lemma PutTail(c: Codec, s: State, r: Record, slot: string, e: string, length: nat, upload: seq<Write>, uploaded: State, fails: bool)
    requires Named(s) && uploaded == ApplyAll(s, upload)
    requires var was := s.SlotsOf(r).value;
      slot in was && was[slot].eTag != e ==> Lookup(uploaded.index, was[slot].eTag) == Lookup(s.index, was[slot].eTag)
    ensures ApplyAll(s, upload + [SlotUpdate(s, r, slot, e, length)] + ReleaseReplaced(s, r, slot, e, fails)) ==
            PutResult(s, uploaded, r, slot, e, length, fails)
  {
    var was, w := s.SlotsOf(r).value, SlotUpdate(s, r, slot, e, length);
    ApplyConcat(s, upload, w);
    if slot in was && was[slot].eTag != e {
      ThenRelease(c, s, upload + [w], Apply(uploaded, w), was[slot].eTag, fails);
    } else {
      assert upload + [w] + [] == upload + [w];
    }
  }

  /** The slot tables after a put. */
  lemma PutSlots(c: Codec, s: State, r: Record, slot: string, data: Bytes, compress: bool, size: nat, fails: bool)
    requires c.Ideal() && Sound(c, s) && size > 0
    ensures var s' := ApplyAll(s, PutWrites(c, s, r, slot, data, compress, size, fails));
      && s'.slots == s.slots[r := Versioned(s.SlotsOf(r).value[slot := Slot(c.hash(data), slot, |data|)], s.SlotsOf(r).v + 1)]
      && s'.versions == s.versions
      && c.hash(data) in s'.index
  {
    SoundIsNamed(c, s);
    PutIs(c, s, r, slot, data, compress, size, fails, UploadWrites(c, s, data, compress, size));
    UploadAdmissible(c, s, data, compress, size);
  }

  lemma DeleteIs(c: Codec, s: State, r: Record, slot: string, fails: bool)
    requires Named(s) && slot in s.SlotsOf(r).value
    ensures var was := s.SlotsOf(r);
      ApplyAll(s, DeleteWrites(s, r, slot, fails)) ==
      Released(s.(slots := s.slots[r := Versioned(was.value - {slot}, was.v + 1)]), was.value[slot].eTag, fails)
  {
    var was := s.SlotsOf(r);
    var w := SlotsWrite(r, was.value - {slot}, was.v + 1);
    assert ApplyAll(s, [w]) == Apply(s, w);
    ThenRelease(c, s, [w], Apply(s, w), was.value[slot].eTag, fails);
  }

  lemma PublishIs(c: Codec, s: State, r: Record, slot: string, name: string, fails: bool)
    requires Sound(c, s) && slot in s.SlotsOf(r).value
    requires var k := VersionKeyOf(r, slot, name); !(k in s.versions && s.versions[k].eTag == s.SlotsOf(r).value[slot].eTag)
    ensures var k, e := VersionKeyOf(r, slot, name), s.SlotsOf(r).value[slot].eTag;
      var counted := Recounted(s.(versions := s.versions[k := Version(name, e)]), e, 1);
      ApplyAll(s, PublishWrites(s, r, slot, name, fails)) ==
      if k in s.versions then Released(counted, s.versions[k].eTag, fails) else counted
  {
    SoundIsNamed(c, s);
    var k, e := VersionKeyOf(r, slot, name), s.SlotsOf(r).value[slot].eTag;
    var w := VersionWrite(k, Version(name, e));
    assert ApplyAll(s, [w]) == Apply(s, w);
    ThenRecount(c, s, [w], Apply(s, w), e, 1);
    var head := [w] + Recount(s, e, 1);
    if k in s.versions {
      ThenRelease(c, s, head, Recounted(Apply(s, w), e, 1), s.versions[k].eTag, fails);
    } else {
      assert head + [] == head;
    }
  }

  lemma DeleteVersionIs(c: Codec, s: State, k: VersionKey, fails: bool)
    requires Named(s) && k in s.versions
    ensures ApplyAll(s, DeleteVersionWrites(s, k, fails)) ==
            Released(s.(versions := s.versions - {k}), s.versions[k].eTag, fails)
  {
    assert ApplyAll(s, [VersionErase(k)]) == Apply(s, VersionErase(k));
    ThenRelease(c, s, [VersionErase(k)], Apply(s, VersionErase(k)), s.versions[k].eTag, fails);
  }

  // ----- Published versions ----------------------------------------------------------------------------------

  /** An operation that does not publish or delete the version leaves its record alone. */
  predicate Spares(op: Op, k: VersionKey) {
    match op
    case Publish(r, slot, name, _) => VersionKeyOf(r, slot, name) != k
    case DeleteVersion(r, slot, name, _) => VersionKeyOf(r, slot, name) != k
    case _ => true
  }

  predicate Rewrites(w: Write, k: VersionKey) {
    match w
    case VersionWrite(key, _) => key == k
    case VersionErase(key) => key == k
    case _ => false
  }

  lemma {:induction false} OthersKeepVersion(s: State, ws: seq<Write>, k: VersionKey)
    requires Spare(ws, k)
    ensures Lookup(ApplyAll(s, ws).versions, k) == Lookup(s.versions, k)
    decreases |ws|
  {
    if ws != [] {
      assert ws[0] in ws;
      OthersKeepVersion(Apply(s, ws[0]), ws[1..], k);
    }
  }

  lemma {:induction false} ChunkWritesOnly(e: string, cut: nat -> Chunk, i: nat, count: nat)
    ensures forall w :: w in ChunkWrites(e, cut, i, count) ==> w.ChunkWrite?
    decreases count - i
  {
    if i < count { ChunkWritesOnly(e, cut, i + 1, count); }
  }

  ghost predicate Spare(ws: seq<Write>, k: VersionKey) {
    forall w :: w in ws ==> !Rewrites(w, k)
  }

  lemma BothSpare(x: seq<Write>, y: seq<Write>, k: VersionKey)
    requires Spare(x, k) && Spare(y, k)
    ensures Spare(x + y, k)
  {
  }

  lemma ReleaseSpares(s: State, e: string, fails: bool, k: VersionKey)
    ensures Spare(Release(s, e, fails), k) && Spare(Recount(s, e, 1), k)
  {
  }

  lemma UploadSpares(c: Codec, s: State, data: Bytes, compress: bool, size: nat, k: VersionKey)
    requires size > 0
    ensures Spare(UploadWrites(c, s, data, compress, size), k)
  {
    var e, blob := c.hash(data), NewBlob(c, data, compress, size);
    if e in s.index {
      ReleaseSpares(s, e, false, k);
    } else {
      var cut := Cut(c, e, if compress then c.gzip(data) else data, size, blob.chunkCount);
      ChunkWritesOnly(e, cut, 0, blob.chunkCount);
      BothSpare(ChunkWrites(e, cut, 0, blob.chunkCount), [IndexWrite(blob, 1)], k);
    }
  }

  lemma PutSpares(c: Codec, s: State, r: Record, slot: string, data: Bytes, compress: bool, size: nat, fails: bool, k: VersionKey)
    requires size > 0
    ensures Spare(PutWrites(c, s, r, slot, data, compress, size, fails), k)
  {
    var upload, w, tail := UploadWrites(c, s, data, compress, size), SlotUpdate(s, r, slot, c.hash(data), |data|), ReleaseReplaced(s, r, slot, c.hash(data), fails);
    UploadSpares(c, s, data, compress, size, k);
    BothSpare(upload, [w], k);
    if slot in s.SlotsOf(r).value { ReleaseSpares(s, s.SlotsOf(r).value[slot].eTag, fails, k); }
    BothSpare(upload + [w], tail, k);
  }

  lemma WritesSpareVersion(c: Codec, s: State, op: Op, k: VersionKey)
    requires Spares(op, k)
    ensures Spare(Writes(c, s, op), k)
  {
    if op.Put? {
      PutSpares(c, s, op.record, op.slot, op.data, op.compress, EffectiveChunkSize(op.chunkSize, c.maxBlobBytes), op.fails, k);
    }
  }

  lemma SparedVersion(c: Codec, s: State, op: Op, k: VersionKey, n: nat)
    requires Spares(op, k) && n <= |Writes(c, s, op)|
    ensures Lookup(ApplyAll(s, Writes(c, s, op)[..n]).versions, k) == Lookup(s.versions, k)
  {
    WritesSpareVersion(c, s, op, k);
    OthersKeepVersion(s, Writes(c, s, op)[..n], k);
  }

  // ----- Runs with crashes -----------------------------------------------------------------------------------

  /** An operation that makes at most `writes` of its writes. */
  datatype Attempt = Attempt(op: Op, writes: nat)

  function Made(c: Codec, s: State, a: Attempt): (ws: seq<Write>)
    ensures ws <= Writes(c, s, a.op)
  {
    var ws := Writes(c, s, a.op);
    if a.writes <= |ws| then ws[..a.writes] else ws
  }

  function CutStep(c: Codec, s: State, a: Attempt): State {
    ApplyAll(s, Made(c, s, a))
  }

  function CutRun(c: Codec, s: State, attempts: seq<Attempt>): State
    decreases |attempts|
  {
    if attempts == [] then s else CutRun(c, CutStep(c, s, attempts[0]), attempts[1..])
  }

  lemma MadePrefix(c: Codec, s: State, a: Attempt)
    ensures exists n: nat :: n <= |Writes(c, s, a.op)| && Made(c, s, a) == Writes(c, s, a.op)[..n]
  {
    var ws := Writes(c, s, a.op);
    var n := if a.writes <= |ws| then a.writes else |ws|;
    assert Made(c, s, a) == ws[..n];
  }

  /** However many operations of a run are cut short, wherever: everything indexed stays complete and
      every blob once readable reads the same bytes. */
  lemma {:induction false} CutRunStaysReadable(c: Codec, s: State, attempts: seq<Attempt>)
    requires c.Ideal() && Sound(c, s)
    ensures var s' := CutRun(c, s, attempts);
      Sound(c, s') && forall e :: e in s.index ==> e in s'.index && Read(c, s', e) == Read(c, s, e)
    decreases |attempts|
  {
    if attempts != [] {
      MadePrefix(c, s, attempts[0]);
      var n: nat :| n <= |Writes(c, s, attempts[0].op)| && Made(c, s, attempts[0]) == Writes(c, s, attempts[0].op)[..n];
      InterruptedOperationsStayReadable(c, s, attempts[0].op, n);
      var s1 := CutStep(c, s, attempts[0]);
      assert forall e :: e in s.index ==> Read(c, s1, e) == Read(c, s, e);
      CutRunStaysReadable(c, s1, attempts[1..]);
    }
  }

  /** A published version reads the same bytes through every later run that does not publish or
      delete under its key: overwriting and deleting the slot included, and operations cut short. */
  lemma {:induction false} PublishedVersionIsStable(c: Codec, s: State, attempts: seq<Attempt>, k: VersionKey)
    requires c.Ideal() && Sound(c, s) && k in s.versions
    requires forall a :: a in attempts ==> Spares(a.op, k)
    ensures GetVersion(c, CutRun(c, s, attempts), k) == GetVersion(c, s, k)
    decreases |attempts|
  {
    if attempts != [] {
      var a := attempts[0];
      assert a in attempts;
      MadePrefix(c, s, a);
      var n: nat :| n <= |Writes(c, s, a.op)| && Made(c, s, a) == Writes(c, s, a.op)[..n];
      SparedVersion(c, s, a.op, k, n);
      InterruptedOperationsStayReadable(c, s, a.op, n);
      PublishedVersionIsStable(c, CutStep(c, s, a), attempts[1..], k);
    }
  }

  /** A run whose attempts all come to their end is a run. */
  lemma {:induction false} WholeRun(c: Codec, s: State, ops: seq<Op>) returns (attempts: seq<Attempt>)
    ensures CutRun(c, s, attempts) == Run(c, s, ops)
    ensures |attempts| == |ops| && forall i :: 0 <= i < |ops| ==> attempts[i].op == ops[i]
    decreases |ops|
  {
    if ops == [] { return []; }
    var rest := WholeRun(c, Step(c, s, ops[0]), ops[1..]);
    attempts := [Attempt(ops[0], |Writes(c, s, ops[0])|)] + rest;
    assert attempts[1..] == rest;
    assert Writes(c, s, ops[0])[..|Writes(c, s, ops[0])|] == Writes(c, s, ops[0]);
  }

  /** A freshly published version reads what the slot reads. */
  lemma PublishThenGetVersion(c: Codec, s: State, r: Record, slot: string, name: string, fails: bool)
    requires c.Ideal() && Sound(c, s) && slot in s.SlotsOf(r).value
    ensures var s' := Step(c, s, Publish(r, slot, name, fails));
      GetVersion(c, s', VersionKeyOf(r, slot, name)) == Get(c, s, r, slot) && Get(c, s, r, slot).Some?
  {
    var op, k, e := Publish(r, slot, name, fails), VersionKeyOf(r, slot, name), s.SlotsOf(r).value[slot].eTag;
    StepSound(c, s, op);
    if Writes(c, s, op) != [] { PublishIs(c, s, r, slot, name, fails); }
  }
}
