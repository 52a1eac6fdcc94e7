/** The content-addressed blob store. Each operation is given by the store writes it makes, in
    order, so that a state in which an operation was cut short is a prefix of them. */
module Blobs {
  import opened Wrappers

  type Byte = b: int | 0 <= b < 256
  type Bytes = seq<Byte>

  /** The foreign functions: the keyed content hash and the compressor. */
  datatype Codec = Codec(hash: Bytes -> string, gzip: Bytes -> Bytes, gunzip: Bytes -> Bytes, encrypted: bool, maxBlobBytes: nat)
  {
    ghost predicate Ideal() {
      && (forall x, y :: hash(x) == hash(y) ==> x == y)
      && (forall x :: hash(x) != "")
      && (forall x :: gunzip(gzip(x)) == x)
    }
  }

  // ----- Stored objects ----------------------------------------------------------------------------

  datatype BlobObject = BlobObject(eTag: string, size: nat, compressedSize: nat, gzipped: bool, chunkSize: nat, chunkCount: nat, refCount: int)

  /** An encrypted chunk opens only under the eTag, index and count it was sealed with. */
  datatype Chunk = Sealed(eTag: string, index: nat, count: nat, bytes: Bytes) | Plain(bytes: Bytes)

  datatype Slot = Slot(eTag: string, filename: string, size: nat)

  datatype Version = Version(tag: string, eTag: string)

  datatype Versioned<T> = Versioned(value: T, v: nat)

  datatype Record = Record(coll: string, id: string)

  /** A version record is stored under a joined string key, within a collection. */
  datatype VersionKey = VersionKey(coll: string, key: string)

  function VersionKeyOf(r: Record, slot: string, tag: string): VersionKey {
    VersionKey(r.coll, r.id + "::" + slot + "::" + tag)
  }

  type Slots = map<string, Slot>

  datatype State = State(
    index: map<string, Versioned<BlobObject>>,
    chunks: map<(string, nat), Chunk>,
    slots: map<Record, Versioned<Slots>>,
    versions: map<VersionKey, Version>)
  {
    function SlotsOf(r: Record): Versioned<Slots> {
      if r in slots then slots[r] else Versioned(map[], 0)
    }
  }

  datatype Write =
    | ChunkWrite(eTag: string, i: nat, chunk: Chunk)
    | IndexWrite(blob: BlobObject, v: nat)
    | SlotsWrite(record: Record, slots: Slots, v: nat)
    | VersionWrite(vkey: VersionKey, version: Version)
    | VersionErase(vkey: VersionKey)

  function Apply(s: State, w: Write): State {
    match w
    case ChunkWrite(e, i, c) => s.(chunks := s.chunks[(e, i) := c])
    case IndexWrite(b, v) => s.(index := s.index[b.eTag := Versioned(b, v)])
    case SlotsWrite(r, slots, v) => s.(slots := s.slots[r := Versioned(slots, v)])
    case VersionWrite(k, ver) => s.(versions := s.versions[k := ver])
    case VersionErase(k) => s.(versions := s.versions - {k})
  }

  function ApplyAll(s: State, ws: seq<Write>): State
    decreases |ws|
  {
    if ws == [] then s else ApplyAll(Apply(s, ws[0]), ws[1..])
  }

  // ----- Chunks ------------------------------------------------------------------------------------

  const DEFAULT_CHUNK_SIZE: nat := 256 * 1024

  function EffectiveChunkSize(requested: nat, maxBlobBytes: nat): (size: nat)
    ensures size > 0
  {
    if requested > 0 then requested else if maxBlobBytes > 0 then maxBlobBytes else DEFAULT_CHUNK_SIZE
  }

  /** One chunk for each `size` bytes begun, and at least one. */
  function ChunkCount(length: nat, size: nat): (n: nat)
    requires size > 0
    ensures n >= 1
  {
    if length <= size then 1 else 1 + ChunkCount(length - size, size)
  }

  /** That is `Math.max(1, Math.ceil(length / size))`: the least positive number of chunks that hold
      all bytes. */
  lemma {:induction false} ChunkCountIsCeiling(length: nat, size: nat)
    requires size > 0
    ensures ChunkCount(length, size) * size >= length
    ensures ChunkCount(length, size) == 1 || (ChunkCount(length, size) - 1) * size < length
  {
    if length > size {
      var n := ChunkCount(length - size, size);
      ChunkCountIsCeiling(length - size, size);
      assert (n + 1) * size == n * size + size && n * size == (n - 1) * size + size;
    }
  }

  /** `bytes.subarray(start, start + size)`, which stops at the end of the bytes. */
  function Subarray(bytes: Bytes, start: nat, size: nat): Bytes {
    if start >= |bytes| then [] else if start + size >= |bytes| then bytes[start..] else bytes[start..start + size]
  }

  function SealChunk(c: Codec, e: string, i: nat, count: nat, bytes: Bytes): Chunk {
    if c.encrypted then Sealed(e, i, count, bytes) else Plain(bytes)
  }

  function OpenChunk(c: Codec, chunk: Chunk, e: string, i: nat, count: nat): Option<Bytes> {
    if c.encrypted then
      if chunk.Sealed? && chunk.eTag == e && chunk.index == i && chunk.count == count then Some(chunk.bytes) else None
    else if chunk.Plain? then Some(chunk.bytes) else None
  }

  function ChunkAt(c: Codec, e: string, bytes: Bytes, size: nat, count: nat, i: nat): Chunk {
    SealChunk(c, e, i, count, Subarray(bytes, i * size, size))
  }

  /** The stored form of each chunk of the bytes. */
  function Cut(c: Codec, e: string, bytes: Bytes, size: nat, count: nat): nat -> Chunk {
    (i: nat) => ChunkAt(c, e, bytes, size, count, i)
  }

  /** The chunk writes from number `i` on. */
  function ChunkWrites(e: string, cut: nat -> Chunk, i: nat, count: nat): seq<Write>
    decreases count - i
  {
    if i >= count then [] else [ChunkWrite(e, i, cut(i))] + ChunkWrites(e, cut, i + 1, count)
  }

  datatype Fetched = Got(bytes: Bytes) | ChunkMissing | Undecryptable

  /** The concatenation of the chunks from number `i` on. */
  function FetchFrom(c: Codec, chunks: map<(string, nat), Chunk>, e: string, i: nat, count: nat): Fetched
    decreases count - i
  {
    if i >= count then Got([])
    else if (e, i) !in chunks then ChunkMissing
    else
      match OpenChunk(c, chunks[(e, i)], e, i, count)
      case None => Undecryptable
      case Some(b) =>
        match FetchFrom(c, chunks, e, i + 1, count)
        case Got(rest) => Got(b + rest)
        case failure => failure
  }

  function Fetch(c: Codec, s: State, b: BlobObject): Fetched {
    match FetchFrom(c, s.chunks, b.eTag, 0, b.chunkCount)
    case Got(bytes) => Got(if b.gzipped then c.gunzip(bytes) else bytes)
    case failure => failure
  }

  /** What reading an eTag gives; `None` stands for null. */
  function Read(c: Codec, s: State, e: string): Option<Fetched> {
    if e in s.index then Some(Fetch(c, s, s.index[e].value)) else None
  }

  function Get(c: Codec, s: State, r: Record, slot: string): Option<Fetched> {
    if slot in s.SlotsOf(r).value then Read(c, s, s.SlotsOf(r).value[slot].eTag) else None
  }

  function GetVersion(c: Codec, s: State, k: VersionKey): Option<Fetched> {
    if k in s.versions then Read(c, s, s.versions[k].eTag) else None
  }

  // ----- Operations --------------------------------------------------------------------------------

  /** The write that changes a reference count; none if there is no such blob. */
  function Recount(s: State, e: string, delta: int): seq<Write> {
    if e in s.index then
      [IndexWrite(s.index[e].value.(refCount := s.index[e].value.refCount + delta), s.index[e].v + 1)]
    else []
  }

  /** A best-effort decrement: if it fails nothing is written and nothing is reported. */
  function Release(s: State, e: string, fails: bool): seq<Write> {
    if fails then [] else Recount(s, e, -1)
  }

  function NewBlob(c: Codec, data: Bytes, compress: bool, size: nat): BlobObject
    requires size > 0
  {
    var bytes := if compress then c.gzip(data) else data;
    BlobObject(c.hash(data), |data|, |bytes|, compress, size, ChunkCount(|bytes|, size), 1)
  }

  /** Storing the bytes: count up an existing blob, or write the chunks and then the index entry. */
  function UploadWrites(c: Codec, s: State, data: Bytes, compress: bool, size: nat): seq<Write>
    requires size > 0
  {
    var e := c.hash(data);
    if e in s.index then Recount(s, e, 1)
    else
      var bytes := if compress then c.gzip(data) else data;
      var blob := NewBlob(c, data, compress, size);
      ChunkWrites(e, Cut(c, e, bytes, size, blob.chunkCount), 0, blob.chunkCount) + [IndexWrite(blob, 1)]
  }

  /** The slot table with the slot pointing at the blob. */
  function SlotUpdate(s: State, r: Record, slot: string, e: string, length: nat): Write {
    var was := s.SlotsOf(r);
    SlotsWrite(r, was.value[slot := Slot(e, slot, length)], was.v + 1)
  }

  /** Giving up the blob that the slot pointed at before, if it is another one. */
  function ReleaseReplaced(s: State, r: Record, slot: string, e: string, fails: bool): seq<Write> {
    var was := s.SlotsOf(r).value;
    if slot in was && was[slot].eTag != e then Release(s, was[slot].eTag, fails) else []
  }

  /** Upload, then the slot table, then the decrement. */
  function PutWrites(c: Codec, s: State, r: Record, slot: string, data: Bytes, compress: bool, size: nat, fails: bool): seq<Write>
    requires size > 0
  {
    UploadWrites(c, s, data, compress, size) + [SlotUpdate(s, r, slot, c.hash(data), |data|)] +
    ReleaseReplaced(s, r, slot, c.hash(data), fails)
  }

  function DeleteWrites(s: State, r: Record, slot: string, fails: bool): seq<Write> {
    var was := s.SlotsOf(r);
    if slot !in was.value then []
    else [SlotsWrite(r, was.value - {slot}, was.v + 1)] + Release(s, was.value[slot].eTag, fails)
  }

  /** No slot: `NotFound`, and nothing is written. A label that already names this blob: nothing.
      Counting a blob that is not indexed is `NotFound` too, and ends the operation. */
  function PublishWrites(s: State, r: Record, slot: string, tag: string, fails: bool): seq<Write> {
    var slots, k := s.SlotsOf(r).value, VersionKeyOf(r, slot, tag);
    if slot !in slots || (k in s.versions && s.versions[k].eTag == slots[slot].eTag) then []
    else
      [VersionWrite(k, Version(tag, slots[slot].eTag))] + Recount(s, slots[slot].eTag, 1) +
      (if k in s.versions && slots[slot].eTag in s.index then Release(s, s.versions[k].eTag, fails) else [])
  }

  function DeleteVersionWrites(s: State, k: VersionKey, fails: bool): seq<Write> {
    if k !in s.versions then [] else [VersionErase(k)] + Release(s, s.versions[k].eTag, fails)
  }

  /** An operation on some record; `fails` says whether its best-effort decrement fails. */
  datatype Op =
    | Put(record: Record, slot: string, data: Bytes, compress: bool, chunkSize: nat, fails: bool)
    | Delete(record: Record, slot: string, fails: bool)
    | Publish(record: Record, slot: string, tag: string, fails: bool)
    | DeleteVersion(record: Record, slot: string, tag: string, fails: bool)

  function Writes(c: Codec, s: State, op: Op): seq<Write> {
    match op
    case Put(r, slot, data, compress, size, fails) =>
      PutWrites(c, s, r, slot, data, compress, EffectiveChunkSize(size, c.maxBlobBytes), fails)
    case Delete(r, slot, fails) => DeleteWrites(s, r, slot, fails)
    case Publish(r, slot, tag, fails) => PublishWrites(s, r, slot, tag, fails)
    case DeleteVersion(r, slot, tag, fails) => DeleteVersionWrites(s, VersionKeyOf(r, slot, tag), fails)
  }

  function Step(c: Codec, s: State, op: Op): State {
    ApplyAll(s, Writes(c, s, op))
  }

  function Run(c: Codec, s: State, ops: seq<Op>): State
    decreases |ops|
  {
    if ops == [] then s else Run(c, Step(c, s, ops[0]), ops[1..])
  }
}
