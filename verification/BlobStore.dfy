/** The blob store over the stored objects of a vault, updated write by write. One writer. */
module BlobStores {
  import opened Wrappers
  import opened Stores
  import opened Blobs
  import opened BlobReads

  lemma RecountKeepsNamed(s: State, e: string, delta: int)
    requires Named(s)
    ensures Named(ApplyAll(s, Recount(s, e, delta)))
    ensures forall x :: x != e ==> Lookup(ApplyAll(s, Recount(s, e, delta)).index, x) == Lookup(s.index, x)
  {
    if e in s.index {
      var w := Recount(s, e, delta)[0];
      assert ApplyAll(s, [w]) == Apply(s, w);
    }
  }

  /** The writes of a publish after the version record. */
  function Counting(s: State, e: string, replaced: Option<string>, fails: bool): seq<Write> {
    if replaced.Some? && e in s.index then Recount(s, e, 1) + Release(s, replaced.value, fails) else Recount(s, e, 1)
  }

  lemma CountingIsRest(s: State, w: Write, e: string, replaced: Option<string>, fails: bool)
    requires w.VersionWrite?
    ensures [w] + Counting(Apply(s, w), e, replaced, fails) ==
            [w] + Recount(s, e, 1) + (if replaced.Some? && e in s.index then Release(s, replaced.value, fails) else [])
  {
    assert Apply(s, w).index == s.index;
    if replaced.Some? && e in s.index {
      assert [w] + (Recount(s, e, 1) + Release(s, replaced.value, fails)) == [w] + Recount(s, e, 1) + Release(s, replaced.value, fails);
    } else {
      assert [w] + Recount(s, e, 1) + [] == [w] + Recount(s, e, 1);
    }
  }

  lemma LogOneMore(log: seq<Write>, w: Write, rest: seq<Write>)
    ensures log + ([w] + rest) == (log + [w]) + rest
  {
  }

  /** Concatenating one more chunk in front of the failure or the rest. */
  function Prepend(done: Bytes, rest: Fetched): Fetched {
    match rest
    case Got(bytes) => Got(done + bytes)
    case failure => failure
  }

  class BlobStore {
    const codec: Codec
    var index: map<string, Versioned<BlobObject>>
    var chunks: map<(string, nat), Chunk>
    var slots: map<Record, Versioned<Slots>>
    var versions: map<VersionKey, Version>
    /** The blob whose count the current put still has to decrement. */
    var deferredRefDecrement: Option<string>
    ghost var log: seq<Write>

    ghost function Now(): State
      reads this
    {
      State(index, chunks, slots, versions)
    }

    /** The writes `ws` have been made, in this order, and nothing else. */
    twostate predicate Wrote(ws: seq<Write>)
      reads this
    {
      log == old(log) + ws && Now() == ApplyAll(old(Now()), ws)
    }

    constructor (codec: Codec)
      ensures this.codec == codec && Now() == State(map[], map[], map[], map[]) && log == []
      ensures Named(Now())
    {
      this.codec := codec;
      index, chunks, slots, versions := map[], map[], map[], map[];
      deferredRefDecrement, log := None, [];
    }

    // ----- Index entries ---------------------------------------------------------------------------

    /** False stands for a `ConflictError` of the store. */
    method WriteBlobObject(blob: BlobObject, expected: Option<nat>) returns (ok: bool)
      modifies this`index, this`log
      ensures ok <==> expected.None? || blob.eTag !in old(index) || old(index)[blob.eTag].v == expected.value
      ensures !ok ==> Now() == old(Now()) && log == old(log)
      ensures ok ==> Wrote([IndexWrite(blob, (if expected.Some? then expected.value else 0) + 1)])
    {
      var v := (if expected.Some? then expected.value else 0) + 1;
      if expected.Some? && blob.eTag in index && index[blob.eTag].v != expected.value {
        return false;
      }
      index := index[blob.eTag := Versioned(blob, v)];
      log := log + [IndexWrite(blob, v)];
      ok := true;
    }

    /** Compare-and-set of the count; false stands for `NotFound`. With one writer the version read
        is the version found, so the first attempt goes through. */
    method CasUpdateRefCount(e: string, delta: int) returns (found: bool)
      requires Named(Now())
      modifies this`index, this`log
      ensures found <==> e in old(index)
      ensures Wrote(Recount(old(Now()), e, delta))
    {
      if e !in index { return false; }
      var entry := index[e];
      var ok := WriteBlobObject(entry.value.(refCount := entry.value.refCount + delta), Some(entry.v));
      assert ok;
      return true;
    }

    /** A decrement whose failure is swallowed. */
    method BestEffortDecrement(e: string, fails: bool)
      requires Named(Now())
      modifies this`index, this`log
      ensures Wrote(Release(old(Now()), e, fails))
    {
      if !fails {
        var _ := CasUpdateRefCount(e, -1);
      }
    }

    // ----- Slot tables -------------------------------------------------------------------------------

    method SaveSlots(r: Record, table: Slots, currentVersion: nat) returns (ok: bool)
      modifies this`slots, this`log
      ensures ok <==> currentVersion == 0 || r !in old(slots) || old(slots)[r].v == currentVersion
      ensures !ok ==> Now() == old(Now()) && log == old(log)
      ensures ok ==> Wrote([SlotsWrite(r, table, currentVersion + 1)])
    {
      if currentVersion > 0 && r in slots && slots[r].v != currentVersion {
        return false;
      }
      slots := slots[r := Versioned(table, currentVersion + 1)];
      log := log + [SlotsWrite(r, table, currentVersion + 1)];
      ok := true;
    }

    method PutSlot(r: Record, slot: string, record: Slot)
      modifies this`slots, this`log, this`deferredRefDecrement
      ensures var was := old(Now().SlotsOf(r));
        && Wrote([SlotsWrite(r, was.value[slot := record], was.v + 1)])
        && deferredRefDecrement == (if slot in was.value && was.value[slot].eTag != record.eTag
                                    then Some(was.value[slot].eTag) else old(deferredRefDecrement))
    {
      var loaded := if r in slots then slots[r] else Versioned(map[], 0);
      if slot in loaded.value && loaded.value[slot].eTag != record.eTag {
        deferredRefDecrement := Some(loaded.value[slot].eTag);
      }
      var ok := SaveSlots(r, loaded.value[slot := record], loaded.v);
      assert ok;
    }

    /** Returns the eTag of the removed slot. */
    method RemoveSlot(r: Record, slot: string) returns (removed: Option<string>)
      modifies this`slots, this`log
      ensures var was := old(Now().SlotsOf(r));
        if slot in was.value then
          removed == Some(was.value[slot].eTag) && Wrote([SlotsWrite(r, was.value - {slot}, was.v + 1)])
        else removed == None && Wrote([])
    {
      var loaded := if r in slots then slots[r] else Versioned(map[], 0);
      if slot !in loaded.value { return None; }
      var ok := SaveSlots(r, loaded.value - {slot}, loaded.v);
      assert ok;
      return Some(loaded.value[slot].eTag);
    }

    // ----- Chunks --------------------------------------------------------------------------------------

    method WriteChunk(e: string, i: nat, chunk: Chunk)
      modifies this`chunks, this`log
      ensures log == old(log) + [ChunkWrite(e, i, chunk)] && Now() == Apply(old(Now()), ChunkWrite(e, i, chunk))
    {
      chunks := chunks[(e, i) := chunk];
      log := log + [ChunkWrite(e, i, chunk)];
    }

    method WriteChunks(e: string, bytes: Bytes, size: nat, count: nat)
      modifies this`chunks, this`log
      ensures Wrote(ChunkWrites(e, Cut(codec, e, bytes, size, count), 0, count))
    {
      var i := 0;
      ghost var cut := Cut(codec, e, bytes, size, count);
      ghost var all := ChunkWrites(e, cut, 0, count);
      while i < count
        invariant 0 <= i <= count
        invariant log + ChunkWrites(e, cut, i, count) == old(log) + all
        invariant ApplyAll(Now(), ChunkWrites(e, cut, i, count)) == ApplyAll(old(Now()), all)
      {
        var chunk := ChunkAt(codec, e, bytes, size, count, i);
        ChunkWritesStep(Now(), e, cut, i, count);
        LogOneMore(log, ChunkWrite(e, i, chunk), ChunkWrites(e, cut, i + 1, count));
        WriteChunk(e, i, chunk);
        i := i + 1;
      }
      assert log + [] == log;
    }

    method FetchAllChunks(blob: BlobObject) returns (r: Fetched)
      ensures r == Fetch(codec, Now(), blob)
    {
      var assembled: Bytes := [];
      var i := 0;
      while i < blob.chunkCount
        invariant 0 <= i <= blob.chunkCount
        invariant FetchFrom(codec, chunks, blob.eTag, 0, blob.chunkCount) ==
                  Prepend(assembled, FetchFrom(codec, chunks, blob.eTag, i, blob.chunkCount))
      {
        if (blob.eTag, i) !in chunks { return ChunkMissing; }
        var chunk := OpenChunk(codec, chunks[(blob.eTag, i)], blob.eTag, i, blob.chunkCount);
        if chunk.None? { return Undecryptable; }
        ghost var rest := FetchFrom(codec, chunks, blob.eTag, i + 1, blob.chunkCount);
        assert rest.Got? ==> assembled + (chunk.value + rest.bytes) == (assembled + chunk.value) + rest.bytes;
        assembled := assembled + chunk.value;
        i := i + 1;
      }
      assert assembled + [] == assembled;
      r := Got(if blob.gzipped then codec.gunzip(assembled) else assembled);
    }

    // ----- Slots ---------------------------------------------------------------------------------------

    method Upload(data: Bytes, compress: bool, size: nat)
      requires Named(Now()) && size > 0
      modifies this`index, this`chunks, this`log
      ensures Wrote(UploadWrites(codec, old(Now()), data, compress, size))
    {
      var e := codec.hash(data);
      if e in index {
        var _ := CasUpdateRefCount(e, 1);
      } else {
        var bytes := if compress then codec.gzip(data) else data;
        var blob := NewBlob(codec, data, compress, size);
        ghost var chunkWrites := ChunkWrites(e, Cut(codec, e, bytes, size, blob.chunkCount), 0, blob.chunkCount);
        ghost var before, logBefore := Now(), log;
        WriteChunks(e, bytes, size, blob.chunkCount);
        var _ := WriteBlobObject(blob, None);
        Then(before, chunkWrites, [IndexWrite(blob, 1)]);
        assert log == logBefore + (chunkWrites + [IndexWrite(blob, 1)]);
      }
    }

    method Put(r: Record, slot: string, data: Bytes, compress: bool, chunkSize: nat, fails: bool)
      requires Named(Now()) && deferredRefDecrement == None
      modifies this
      ensures Wrote(Writes(codec, old(Now()), Blobs.Put(r, slot, data, compress, chunkSize, fails)))
      ensures deferredRefDecrement == None
    {
      ghost var s, start, was := Now(), log, Now().SlotsOf(r);
      var size := EffectiveChunkSize(chunkSize, codec.maxBlobBytes);
      var e := codec.hash(data);
      ghost var upload := UploadWrites(codec, s, data, compress, size);
      ghost var w := SlotsWrite(r, was.value[slot := Slot(e, slot, |data|)], was.v + 1);
      UploadIndexes(codec, s, data, compress, size);
      Upload(data, compress, size);
      PutSlot(r, slot, Slot(e, slot, |data|));
      Then(s, upload, [w]);
      assert log == start + (upload + [w]);
      FinishPut(s, start, upload + [w], fails);
    }

    /** The decrement that overwriting a slot leaves to be done. */
    method FinishPut(ghost s: State, ghost start: seq<Write>, ghost done: seq<Write>, fails: bool)
      requires Named(Now()) && Now() == ApplyAll(s, done) && log == start + done
      requires deferredRefDecrement.Some? ==> Lookup(Now().index, deferredRefDecrement.value) == Lookup(s.index, deferredRefDecrement.value)
      modifies this`index, this`log, this`deferredRefDecrement
      ensures var rest := if old(deferredRefDecrement).Some? then Release(s, old(deferredRefDecrement).value, fails) else [];
        log == start + (done + rest) && Now() == ApplyAll(s, done + rest)
      ensures deferredRefDecrement == None
    {
      if deferredRefDecrement.Some? {
        var gone := deferredRefDecrement.value;
        deferredRefDecrement := None;
        BestEffortDecrement(gone, fails);
        Then(s, done, Release(s, gone, fails));
      } else {
        assert done + [] == done;
      }
    }

    method Get(r: Record, slot: string) returns (f: Option<Fetched>)
      ensures f == Blobs.Get(codec, Now(), r, slot)
    {
      var table := if r in slots then slots[r].value else map[];
      if slot !in table { return None; }
      var e := table[slot].eTag;
      if e !in index { return None; }
      var bytes := FetchAllChunks(index[e].value);
      f := Some(bytes);
    }

    method Delete(r: Record, slot: string, fails: bool)
      requires Named(Now())
      modifies this`index, this`slots, this`log
      ensures Wrote(Writes(codec, old(Now()), Blobs.Delete(r, slot, fails)))
    {
      ghost var s, start, was := Now(), log, Now().SlotsOf(r);
      var removed := RemoveSlot(r, slot);
      if removed.Some? {
        BestEffortDecrement(removed.value, fails);
        ghost var w, release := SlotsWrite(r, was.value - {slot}, was.v + 1), Release(s, removed.value, fails);
        Then(s, [w], release);
        assert log == start + ([w] + release);
      }
    }

    // ----- Published versions -----------------------------------------------------------------------------

    method WriteVersion(k: VersionKey, version: Version)
      modifies this`versions, this`log
      ensures Wrote([VersionWrite(k, version)])
    {
      versions := versions[k := version];
      log := log + [VersionWrite(k, version)];
    }

    /** False stands for `NotFound`: the record has no such slot, or the slot no indexed blob. */
    method Publish(r: Record, slot: string, name: string, fails: bool) returns (ok: bool)
      requires Named(Now())
      modifies this`index, this`versions, this`log
      ensures Backed(old(Now())) ==> (ok <==> slot in old(Now().SlotsOf(r)).value)
      ensures Wrote(Writes(codec, old(Now()), Blobs.Publish(r, slot, name, fails)))
    {
      ghost var s, start := Now(), log;
      var table := if r in slots then slots[r].value else map[];
      if slot !in table { return false; }
      var e, k := table[slot].eTag, VersionKeyOf(r, slot, name);
      var existing := if k in versions then Some(versions[k]) else None;
      if existing.Some? && existing.value.eTag == e { return true; }
      ghost var w := VersionWrite(k, Version(name, e));
      WriteVersion(k, Version(name, e));
      ghost var written := Now();
      ok := CountAndRelease(e, if existing.Some? then Some(existing.value.eTag) else None, fails);
      ghost var rest := Counting(written, e, if existing.Some? then Some(existing.value.eTag) else None, fails);
      Then(s, [w], rest);
      assert log == start + ([w] + rest);
      CountingIsRest(s, w, e, if existing.Some? then Some(existing.value.eTag) else None, fails);
    }

    /** Counts the published blob up and, if that went well, the replaced one down. */
    method CountAndRelease(e: string, replaced: Option<string>, fails: bool) returns (ok: bool)
      requires Named(Now()) && replaced != Some(e)
      modifies this`index, this`log
      ensures ok <==> e in old(index)
      ensures Wrote(Counting(old(Now()), e, replaced, fails))
    {
      ghost var s, start := Now(), log;
      RecountKeepsNamed(s, e, 1);
      ok := CasUpdateRefCount(e, 1);
      if ok && replaced.Some? {
        assert Lookup(Now().index, replaced.value) == Lookup(s.index, replaced.value);
        BestEffortDecrement(replaced.value, fails);
        Then(s, Recount(s, e, 1), Release(s, replaced.value, fails));
        assert log == start + (Recount(s, e, 1) + Release(s, replaced.value, fails));
      }
    }

    method GetVersion(r: Record, slot: string, name: string) returns (f: Option<Fetched>)
      ensures f == Blobs.GetVersion(codec, Now(), VersionKeyOf(r, slot, name))
    {
      var k := VersionKeyOf(r, slot, name);
      if k !in versions { return None; }
      var e := versions[k].eTag;
      if e !in index { return None; }
      var bytes := FetchAllChunks(index[e].value);
      f := Some(bytes);
    }

    method DeleteVersion(r: Record, slot: string, name: string, fails: bool)
      requires Named(Now())
      modifies this`index, this`versions, this`log
      ensures Wrote(Writes(codec, old(Now()), Blobs.DeleteVersion(r, slot, name, fails)))
    {
      ghost var s, start := Now(), log;
      var k := VersionKeyOf(r, slot, name);
      if k !in versions { return; }
      var e := versions[k].eTag;
      versions := versions - {k};
      log := log + [VersionErase(k)];
      assert ApplyAll(s, [VersionErase(k)]) == Now();
      BestEffortDecrement(e, fails);
      ghost var release := Release(s, e, fails);
      Then(s, [VersionErase(k)], release);
      assert log == start + ([VersionErase(k)] + release);
    }
  }
}
