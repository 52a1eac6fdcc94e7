/** What the index and the slot tables say about a blob is true of its bytes. */
module BlobMetadata {
  import opened Wrappers
  import opened Stores
  import opened Blobs
  import opened BlobReads

  // ----- Chunks ----------------------------------------------------------------------------------------

  function BytesOf(chunk: Chunk): Bytes {
    match chunk
    case Sealed(_, _, _, bytes) => bytes
    case Plain(bytes) => bytes
  }

  /** An encrypted chunk opens as nothing but the chunk it was sealed as: not in another place of the blob,
      not in another blob, and not in one with another number of chunks. */
  lemma ChunkOpensInPlaceOnly(c: Codec, e: string, i: nat, count: nat, bytes: Bytes, e': string, i': nat, count': nat)
    ensures var got := OpenChunk(c, SealChunk(c, e, i, count, bytes), e', i', count');
      if c.encrypted && (e' != e || i' != i || count' != count) then got == None else got == Some(bytes)
  {
  }

  lemma {:induction false} ChunksFit(e: string, cut: nat -> Chunk, i: nat, count: nat, limit: nat)
    requires forall j: nat :: |BytesOf(cut(j))| <= limit
    ensures forall w :: w in ChunkWrites(e, cut, i, count) ==> w.ChunkWrite? && |BytesOf(w.chunk)| <= limit
    decreases count - i
  {
    if i < count { ChunksFit(e, cut, i + 1, count, limit); }
  }

  /** No chunk that a put writes is larger than asked for, or without a request than the store's limit, or
      without a limit than 256 KiB. */
  lemma PutChunksFit(c: Codec, s: State, op: Op)
    requires op.Put?
    ensures var limit := if op.chunkSize > 0 then op.chunkSize else if c.maxBlobBytes > 0 then c.maxBlobBytes else 262_144;
      forall w :: w in Writes(c, s, op) && w.ChunkWrite? ==> |BytesOf(w.chunk)| <= limit
  {
    UploadChunksFit(c, s, op.data, op.compress, EffectiveChunkSize(op.chunkSize, c.maxBlobBytes));
  }

  lemma UploadChunksFit(c: Codec, s: State, data: Bytes, compress: bool, size: nat)
    requires size > 0
    ensures forall w :: w in UploadWrites(c, s, data, compress, size) && w.ChunkWrite? ==> |BytesOf(w.chunk)| <= size
  {
    var e := c.hash(data);
    if e !in s.index {
      var count := NewBlob(c, data, compress, size).chunkCount;
      var bytes := if compress then c.gzip(data) else data;
      CutFits(c, e, bytes, size, count);
      ChunksFit(e, Cut(c, e, bytes, size, count), 0, count, size);
    }
  }

  lemma CutFits(c: Codec, e: string, bytes: Bytes, size: nat, count: nat)
    ensures forall i: nat :: |BytesOf(Cut(c, e, bytes, size, count)(i))| <= size
  {
    forall i: nat
      ensures |BytesOf(ChunkAt(c, e, bytes, size, count, i))| <= size
    {
      SubarrayFits(bytes, i * size, size);
    }
  }

  lemma SubarrayFits(bytes: Bytes, start: nat, size: nat)
    ensures |Subarray(bytes, start, size)| <= size
  {
  }

  // ----- Where index entries and slots come from ---------------------------------------------------------

  function BlobOf(c: Codec, op: Op): BlobObject
    requires op.Put?
  {
    NewBlob(c, op.data, op.compress, EffectiveChunkSize(op.chunkSize, c.maxBlobBytes))
  }

  /** An index entry is one there was, up to its count, or the new blob of a put. */
  ghost predicate KnownBlob(c: Codec, s: State, op: Op, b: BlobObject) {
    (b.eTag in s.index && SameBlob(b, s.index[b.eTag].value)) || (op.Put? && b == BlobOf(c, op))
  }

  /** A slot is one there was, or the new one of a put. */
  ghost predicate KnownSlot(c: Codec, s: State, op: Op, r: Record, n: string, slot: Slot) {
    (n in s.SlotsOf(r).value && slot == s.SlotsOf(r).value[n]) || (op.Put? && n == op.slot && slot == Slot(c.hash(op.data), op.slot, |op.data|))
  }

  /** A version is one there was, or the one published, under its own label. */
  ghost predicate KnownVersion(s: State, op: Op, k: VersionKey, v: Version) {
    (k in s.versions && v == s.versions[k])
    || (op.Publish? && k == VersionKeyOf(op.record, op.slot, op.tag) && v.tag == op.tag)
  }

  ghost predicate KnownWrite(c: Codec, s: State, op: Op, w: Write) {
    match w
    case IndexWrite(b, _) => KnownBlob(c, s, op, b)
    case SlotsWrite(r, slots, _) => forall n :: n in slots ==> KnownSlot(c, s, op, r, n, slots[n])
    case VersionWrite(k, v) => KnownVersion(s, op, k, v)
    case _ => true
  }

  ghost predicate KnownState(c: Codec, s: State, op: Op, s': State) {
    && (forall e :: e in s'.index ==> s'.index[e].value.eTag == e && KnownBlob(c, s, op, s'.index[e].value))
    && (forall r, n :: r in s'.slots && n in s'.slots[r].value ==> KnownSlot(c, s, op, r, n, s'.slots[r].value[n]))
    && (forall k :: k in s'.versions ==> KnownVersion(s, op, k, s'.versions[k]))
  }

  lemma KnownWriteKnownState(c: Codec, s: State, op: Op, s': State, w: Write)
    requires KnownState(c, s, op, s') && KnownWrite(c, s, op, w)
    ensures KnownState(c, s, op, Apply(s', w))
  {
    var s1 := Apply(s', w);
    forall r, n | r in s1.slots && n in s1.slots[r].value
      ensures KnownSlot(c, s, op, r, n, s1.slots[r].value[n])
    {
      if w.SlotsWrite? && r == w.record { assert s1.slots[r].value == w.slots; }
    }
  }

  lemma {:induction false} KnownWritesKnownState(c: Codec, s: State, op: Op, s': State, ws: seq<Write>)
    requires KnownState(c, s, op, s') && forall w :: w in ws ==> KnownWrite(c, s, op, w)
    ensures KnownState(c, s, op, ApplyAll(s', ws))
    decreases |ws|
  {
    if ws != [] {
      assert ws[0] in ws;
      KnownWriteKnownState(c, s, op, s', ws[0]);
      KnownWritesKnownState(c, s, op, Apply(s', ws[0]), ws[1..]);
    }
  }

  lemma BothKnown(c: Codec, s: State, op: Op, x: seq<Write>, y: seq<Write>)
    requires (forall w :: w in x ==> KnownWrite(c, s, op, w)) && (forall w :: w in y ==> KnownWrite(c, s, op, w))
    ensures forall w :: w in x + y ==> KnownWrite(c, s, op, w)
  {
  }

  lemma RecountKnown(c: Codec, s: State, op: Op, e: string, delta: int, fails: bool)
    requires Named(s)
    ensures forall w :: w in Recount(s, e, delta) ==> KnownWrite(c, s, op, w)
    ensures forall w :: w in Release(s, e, fails) ==> KnownWrite(c, s, op, w)
  {
  }

  lemma UploadKnown(c: Codec, s: State, op: Op)
    requires Named(s) && op.Put?
    ensures forall w :: w in UploadWrites(c, s, op.data, op.compress, EffectiveChunkSize(op.chunkSize, c.maxBlobBytes)) ==>
              KnownWrite(c, s, op, w)
  {
    var e, blob, size := c.hash(op.data), BlobOf(c, op), EffectiveChunkSize(op.chunkSize, c.maxBlobBytes);
    if e in s.index {
      RecountKnown(c, s, op, e, 1, false);
    } else {
      var cut := Cut(c, e, if op.compress then c.gzip(op.data) else op.data, size, blob.chunkCount);
      ChunkWritesOnly(e, cut, 0, blob.chunkCount);
      BothKnown(c, s, op, ChunkWrites(e, cut, 0, blob.chunkCount), [IndexWrite(blob, 1)]);
    }
  }

  lemma PutKnown(c: Codec, s: State, op: Op)
    requires Named(s) && op.Put?
    ensures forall w :: w in Writes(c, s, op) ==> KnownWrite(c, s, op, w)
  {
    var e, size := c.hash(op.data), EffectiveChunkSize(op.chunkSize, c.maxBlobBytes);
    var upload, w := UploadWrites(c, s, op.data, op.compress, size), SlotUpdate(s, op.record, op.slot, e, |op.data|);
    UploadKnown(c, s, op);
    BothKnown(c, s, op, upload, [w]);
    if op.slot in s.SlotsOf(op.record).value { RecountKnown(c, s, op, s.SlotsOf(op.record).value[op.slot].eTag, 1, op.fails); }
    BothKnown(c, s, op, upload + [w], ReleaseReplaced(s, op.record, op.slot, e, op.fails));
  }

  lemma WritesKnown(c: Codec, s: State, op: Op)
    requires Named(s)
    ensures forall w :: w in Writes(c, s, op) ==> KnownWrite(c, s, op, w)
  {
    if op.Put? { PutKnown(c, s, op); }
  }

  // ----- What they say is true ---------------------------------------------------------------------------

  /** The entry's sizes are those of the bytes and of their stored form, and the number of chunks fits. */
  ghost predicate Describes(c: Codec, b: BlobObject, data: Bytes) {
    && c.hash(data) == b.eTag && b.size == |data| && b.chunkSize > 0
    && b.compressedSize == (if b.gzipped then |c.gzip(data)| else |data|)
    && b.chunkCount == ChunkCount(b.compressedSize, b.chunkSize)
  }

  ghost predicate IsTrue(c: Codec, s: State) {
    && (forall e :: e in s.index ==> exists data :: Describes(c, s.index[e].value, data))
    && (forall r, n :: r in s.slots && n in s.slots[r].value ==> SlotIsTrue(c, n, s.slots[r].value[n]))
    && (forall k :: k in s.versions ==> VersionIsTrue(k, s.versions[k]))
  }

  /** The label of a version is the one it is stored under. */
  ghost predicate VersionIsTrue(k: VersionKey, v: Version) {
    exists r, slot :: k == VersionKeyOf(r, slot, v.tag)
  }

  ghost predicate SlotIsTrue(c: Codec, n: string, slot: Slot) {
    slot.filename == n && exists data :: c.hash(data) == slot.eTag && |data| == slot.size
  }

  lemma NewBlobDescribes(c: Codec, op: Op)
    requires op.Put?
    ensures Describes(c, BlobOf(c, op), op.data)
  {
  }

  lemma KnownStateIsTrue(c: Codec, s: State, op: Op, s': State)
    requires IsTrue(c, s) && KnownState(c, s, op, s')
    ensures IsTrue(c, s')
  {
    forall e | e in s'.index
      ensures exists data :: Describes(c, s'.index[e].value, data)
    {
      if e in s.index && SameBlob(s'.index[e].value, s.index[e].value) {
        var data :| Describes(c, s.index[e].value, data);
        SameBlobDescribed(c, s'.index[e].value, s.index[e].value, data);
      } else {
        NewBlobDescribes(c, op);
      }
    }
    forall r, n | r in s'.slots && n in s'.slots[r].value
      ensures SlotIsTrue(c, n, s'.slots[r].value[n])
    {
      assert KnownSlot(c, s, op, r, n, s'.slots[r].value[n]);
    }
  }

  lemma SameBlobDescribed(c: Codec, b: BlobObject, b': BlobObject, data: Bytes)
    requires SameBlob(b, b') && Describes(c, b', data)
    ensures Describes(c, b, data)
  {
    assert b.(refCount := 0) == b'.(refCount := 0);
  }

  lemma SelfKnown(c: Codec, s: State, op: Op)
    requires Named(s)
    ensures KnownState(c, s, op, s)
  {
  }

  /** Over every run, crashes included, the index and the slot tables stay true. */
  lemma {:induction false} MetadataStaysTrue(c: Codec, s: State, attempts: seq<Attempt>)
    requires c.Ideal() && Sound(c, s) && IsTrue(c, s)
    ensures IsTrue(c, CutRun(c, s, attempts))
    decreases |attempts|
  {
    if attempts != [] {
      var a := attempts[0];
      SoundIsNamed(c, s);
      WritesKnown(c, s, a.op);
      SelfKnown(c, s, a.op);
      KnownWritesKnownState(c, s, a.op, s, Made(c, s, a));
      KnownStateIsTrue(c, s, a.op, CutStep(c, s, a));
      MadePrefix(c, s, a);
      var n: nat :| n <= |Writes(c, s, a.op)| && Made(c, s, a) == Writes(c, s, a.op)[..n];
      InterruptedOperationsStayReadable(c, s, a.op, n);
      MetadataStaysTrue(c, CutStep(c, s, a), attempts[1..]);
    }
  }

  /** So the sizes shown are those of the bytes read: in the index and for every slot, which is listed under
      its own name; a version is labelled as it is stored; and a blob has no more chunks than its stored bytes need. */
  lemma SizesAreThoseRead(c: Codec, s: State, attempts: seq<Attempt>)
    requires c.Ideal() && Sound(c, s) && IsTrue(c, s)
    ensures var s' := CutRun(c, s, attempts);
      && (forall e :: e in s'.index ==> var b := s'.index[e].value;
            && Read(c, s', e).Some? && Read(c, s', e).value.Got? && b.size == |Read(c, s', e).value.bytes|
            && b.chunkCount * b.chunkSize >= b.compressedSize && (b.chunkCount == 1 || (b.chunkCount - 1) * b.chunkSize < b.compressedSize))
      && (forall r, n :: r in s'.slots && n in s'.slots[r].value ==> var slot := s'.slots[r].value[n];
            && slot.filename == n
            && Get(c, s', r, n).Some? && Get(c, s', r, n).value.Got? && slot.size == |Get(c, s', r, n).value.bytes|)
      && (forall k :: k in s'.versions ==> exists r, slot :: k == VersionKeyOf(r, slot, s'.versions[k].tag))
  {
    MetadataStaysTrue(c, s, attempts);
    CutRunStaysReadable(c, s, attempts);
    var s' := CutRun(c, s, attempts);
    forall k | k in s'.versions
      ensures exists r, slot :: k == VersionKeyOf(r, slot, s'.versions[k].tag)
    {
      assert VersionIsTrue(k, s'.versions[k]);
    }
    forall e | e in s'.index
      ensures ReadsTrue(c, s', e)
    {
      EntryReadsTrue(c, s', e);
    }
    forall r, n | r in s'.slots && n in s'.slots[r].value
      ensures Get(c, s', r, n).Some? && Get(c, s', r, n).value.Got?
      ensures s'.slots[r].value[n].filename == n && s'.slots[r].value[n].size == |Get(c, s', r, n).value.bytes|
    {
      SlotReadsTrue(c, s', r, n);
    }
  }

  ghost predicate ReadsTrue(c: Codec, s: State, e: string) {
    && e in s.index && Read(c, s, e).Some? && Read(c, s, e).value.Got?
    && var b := s.index[e].value;
      && b.size == |Read(c, s, e).value.bytes|
      && b.chunkCount * b.chunkSize >= b.compressedSize && (b.chunkCount == 1 || (b.chunkCount - 1) * b.chunkSize < b.compressedSize)
  }

  lemma EntryReadsTrue(c: Codec, s: State, e: string)
    requires c.Ideal() && Sound(c, s) && IsTrue(c, s) && e in s.index
    ensures ReadsTrue(c, s, e)
  {
    var b := s.index[e].value;
    assert Stored(c, s, e);
    var data :| Describes(c, b, data);
    ChunkCountIsCeiling(b.compressedSize, b.chunkSize);
  }

  lemma SlotReadsTrue(c: Codec, s: State, r: Record, n: string)
    requires c.Ideal() && Sound(c, s) && IsTrue(c, s) && r in s.slots && n in s.slots[r].value
    ensures Get(c, s, r, n).Some? && Get(c, s, r, n).value.Got?
    ensures s.slots[r].value[n].filename == n && s.slots[r].value[n].size == |Get(c, s, r, n).value.bytes|
  {
    var slot := s.slots[r].value[n];
    assert Stored(c, s, slot.eTag);
    assert SlotIsTrue(c, n, slot);
  }
}
