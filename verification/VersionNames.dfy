/** The joined keys of published versions, and stability per record, slot and label. */
module VersionNames {
  import opened Wrappers
  import opened Stores
  import opened Blobs
  import opened BlobReads

  const SEP := "::"

  /** What a version is published as. */
  datatype Triple = Triple(record: Record, slot: string, tag: string)

  function KeyOf(t: Triple): VersionKey {
    VersionKeyOf(t.record, t.slot, t.tag)
  }

  function Joined(t: Triple): string {
    t.record.id + SEP + t.slot + SEP + t.tag
  }

  /** The versions of a collection's records are kept under the joined record, slot and label. */
  lemma SameKeyExactly(t: Triple, t': Triple)
    ensures KeyOf(t) == KeyOf(t') <==> t.record.coll == t'.record.coll && Joined(t) == Joined(t')
  {
  }

  predicate SepAt(s: string, i: nat) {
    i + 1 < |s| && s[i] == ':' && s[i + 1] == ':'
  }

  predicate HasSep(s: string) {
    exists i :: 0 <= i < |s| && SepAt(s, i)
  }

  predicate Begins(s: string) {
    s != "" && s[0] == ':'
  }

  predicate Ends(s: string) {
    s != "" && s[|s| - 1] == ':'
  }

  /** No name holds a double colon, and no colon stands next to a separator. */
  predicate Plain(t: Triple) {
    && !HasSep(t.record.id) && !HasSep(t.slot) && !HasSep(t.tag)
    && !Ends(t.record.id) && !Begins(t.slot) && !Ends(t.slot) && !Begins(t.tag)
  }

  // ----- Plain names can be split in one way only --------------------------------------------------------

  /** Where the two separators of the joined names stand. */
  lemma SepsOfJoined(t: Triple)
    ensures var s, i := Joined(t), |t.record.id|;
      && |s| == i + 4 + |t.slot| + |t.tag|
      && s[..i] == t.record.id && SepAt(s, i)
      && s[i + 2..i + 2 + |t.slot|] == t.slot && SepAt(s, i + 2 + |t.slot|)
      && s[i + 4 + |t.slot|..] == t.tag
  {
  }

  lemma CharOfJoined(t: Triple, q: nat)
    requires q < |Joined(t)|
    ensures var i, n := |t.record.id|, |t.slot|;
      Joined(t)[q] == if q < i then t.record.id[q] else if q < i + 2 then ':'
                      else if q < i + 2 + n then t.slot[q - i - 2] else if q < i + 4 + n then ':'
                      else t.tag[q - i - 4 - n]
  {
  }

  /** In plain names there are no other separators, but for the one that overlaps both if the slot has
      the empty name. */
  lemma OnlySeps(t: Triple, q: nat)
    requires Plain(t) && SepAt(Joined(t), q)
    ensures q == |t.record.id| || q == |t.record.id| + 2 + |t.slot| || (t.slot == "" && q == |t.record.id| + 1)
  {
    var i, n := |t.record.id|, |t.slot|;
    CharOfJoined(t, q);
    CharOfJoined(t, q + 1);
    if q + 1 < i { assert SepAt(t.record.id, q); }
    if i + 2 <= q && q + 1 < i + 2 + n { assert SepAt(t.slot, q - i - 2); }
    if i + 4 + n <= q { assert SepAt(t.tag, q - i - 4 - n); }
  }

  lemma PlainSplitsOnce(t: Triple, t': Triple)
    requires Plain(t) && t.record.coll == t'.record.coll && Joined(t) == Joined(t')
    ensures t == t'
  {
    SepsOfJoined(t);
    SepsOfJoined(t');
    OnlySeps(t, |t'.record.id|);
    OnlySeps(t, |t'.record.id| + 2 + |t'.slot|);
    assert |t'.record.id| == |t.record.id| && |t'.slot| == |t.slot|;
  }

  // ----- Other names can be split in another way ---------------------------------------------------------

  lemma SepsOfTail(s: string, i: nat)
    requires s != ""
    ensures SepAt(s[1..], i) <==> SepAt(s, i + 1)
  {
  }

  lemma LaterSep(s: string)
    requires HasSep(s) && !SepAt(s, 0)
    ensures s != "" && HasSep(s[1..])
  {
    var i: nat :| 0 <= i < |s| && SepAt(s, i);
    assert i != 0;
    SepsOfTail(s, i - 1);
  }

  function FirstSep(s: string): (i: nat)
    requires HasSep(s)
    ensures SepAt(s, i)
  {
    if SepAt(s, 0) then 0
    else
      LaterSep(s);
      SepsOfTail(s, FirstSep(s[1..]));
      1 + FirstSep(s[1..])
  }

  /** The same joined names read as another triple. */
  function Twin(t: Triple): Triple
    requires !Plain(t)
  {
    var r, coll := t.record.id, t.record.coll;
    if HasSep(r) then
      var i := FirstSep(r);
      Triple(Record(coll, r[..i]), r[i + 2..] + SEP + t.slot, t.tag)
    else if HasSep(t.slot) then
      var i := FirstSep(t.slot);
      Triple(t.record, t.slot[..i], t.slot[i + 2..] + SEP + t.tag)
    else if HasSep(t.tag) then
      var i := FirstSep(t.tag);
      Triple(Record(coll, r + SEP + t.slot), t.tag[..i], t.tag[i + 2..])
    else if Ends(r) then Triple(Record(coll, r[..|r| - 1]), ":" + t.slot, t.tag)
    else if Begins(t.slot) then Triple(Record(coll, r + ":"), t.slot[1..], t.tag)
    else if Ends(t.slot) then Triple(t.record, t.slot[..|t.slot| - 1], ":" + t.tag)
    else Triple(t.record, t.slot + ":", t.tag[1..])
  }

  lemma SplitAtSep(s: string)
    requires HasSep(s)
    ensures s == s[..FirstSep(s)] + SEP + s[FirstSep(s) + 2..]
  {
  }

  lemma Associates(x: string, y: string, z: string)
    ensures (x + y) + z == x + (y + z)
  {
  }

  /** Joining four parts with three separators, in any grouping. */
  lemma ThreeSeps(w: string, x: string, y: string, z: string)
    ensures (w + SEP + x) + SEP + y + SEP + z == w + SEP + (x + SEP + y) + SEP + z
    ensures w + SEP + (x + SEP + y) + SEP + z == w + SEP + x + SEP + (y + SEP + z)
  {
    var head := w + SEP + x + SEP;
    Associates(w + SEP, x, SEP);
    Associates(w + SEP, x + SEP, y);
    Associates(head, y, SEP);
    Associates(head, y + SEP, z);
  }

  lemma TwinOfSep(t: Triple)
    requires HasSep(t.record.id) || HasSep(t.slot) || HasSep(t.tag)
    ensures Twin(t) != t && Joined(Twin(t)) == Joined(t)
  {
    var u := Twin(t);
    if HasSep(t.record.id) {
      SplitAtSep(t.record.id);
      ThreeSeps(u.record.id, t.record.id[FirstSep(t.record.id) + 2..], t.slot, t.tag);
      assert |u.record.id| < |t.record.id|;
    } else if HasSep(t.slot) {
      SplitAtSep(t.slot);
      ThreeSeps(t.record.id, u.slot, t.slot[FirstSep(t.slot) + 2..], t.tag);
      assert |u.slot| < |t.slot|;
    } else {
      SplitAtSep(t.tag);
      ThreeSeps(t.record.id, t.slot, u.slot, u.tag);
      assert |u.record.id| > |t.record.id|;
    }
  }

  lemma ColonMoves(x: string, y: string)
    ensures (x + ":") + SEP + y == x + SEP + (":" + y)
  {
  }

  lemma TwinOfColon(t: Triple)
    requires !Plain(t) && !HasSep(t.record.id) && !HasSep(t.slot) && !HasSep(t.tag)
    ensures Twin(t) != t && Joined(Twin(t)) == Joined(t)
  {
    var u, r := Twin(t), t.record.id;
    if Ends(r) {
      assert r == u.record.id + ":" && |u.record.id| < |r|;
      ColonMoves(u.record.id, t.slot);
    } else if Begins(t.slot) {
      assert t.slot == ":" + u.slot && |u.slot| < |t.slot|;
      ColonMoves(r, u.slot);
    } else if Ends(t.slot) {
      assert t.slot == u.slot + ":" && |u.slot| < |t.slot|;
      JoinedColonMoves(r, u.slot, t.tag);
    } else {
      assert t.tag == ":" + u.tag && |u.tag| < |t.tag|;
      JoinedColonMoves(r, t.slot, u.tag);
    }
  }

  lemma JoinedColonMoves(r: string, slot: string, tag: string)
    ensures r + SEP + (slot + ":") + SEP + tag == r + SEP + slot + SEP + (":" + tag)
  {
    Associates(r + SEP, slot, ":");
    ColonMoves(r + SEP + slot, tag);
  }

  /** A record, slot and label have their version key to themselves exactly if the names are plain. */
  lemma KeyIsOwnExactly(t: Triple)
    ensures (forall t' :: KeyOf(t') == KeyOf(t) ==> t' == t) <==> Plain(t)
  {
    if Plain(t) {
      forall t' | KeyOf(t') == KeyOf(t)
        ensures t' == t
      {
        SameKeyExactly(t, t');
        PlainSplitsOnce(t, t');
      }
    } else {
      if HasSep(t.record.id) || HasSep(t.slot) || HasSep(t.tag) { TwinOfSep(t); } else { TwinOfColon(t); }
      SameKeyExactly(t, Twin(t));
    }
  }

  // ----- Stability per triple ----------------------------------------------------------------------------

  /** The operation publishes or deletes a version of this very record, slot and label. */
  predicate Touches(op: Op, t: Triple) {
    match op
    case Publish(r, slot, tag, _) => Triple(r, slot, tag) == t
    case DeleteVersion(r, slot, tag, _) => Triple(r, slot, tag) == t
    case _ => false
  }

  lemma PlainIsSpared(op: Op, t: Triple)
    requires Plain(t) && !Touches(op, t)
    ensures Spares(op, KeyOf(t))
  {
    KeyIsOwnExactly(t);
    match op {
      case Publish(r, slot, tag, _) => assert KeyOf(Triple(r, slot, tag)) == VersionKeyOf(r, slot, tag);
      case DeleteVersion(r, slot, tag, _) => assert KeyOf(Triple(r, slot, tag)) == VersionKeyOf(r, slot, tag);
      case _ =>
    }
  }

  /** A published version with plain names reads the same through every run, crashes included, that does
      not publish or delete under that record, slot and label: other labels of the slot may come and go. */
  lemma PlainVersionIsStable(c: Codec, s: State, attempts: seq<Attempt>, t: Triple)
    requires c.Ideal() && Sound(c, s) && Plain(t) && KeyOf(t) in s.versions
    requires forall a :: a in attempts ==> !Touches(a.op, t)
    ensures GetVersion(c, CutRun(c, s, attempts), KeyOf(t)) == GetVersion(c, s, KeyOf(t))
  {
    forall a | a in attempts
      ensures Spares(a.op, KeyOf(t))
    {
      PlainIsSpared(a.op, t);
    }
    PublishedVersionIsStable(c, s, attempts, KeyOf(t));
  }

  /** For other names there is another record, slot and label whose publish takes the version over. */
  lemma TwinTakesOver(c: Codec, s: State, t: Triple, fails: bool)
    requires c.Ideal() && Sound(c, s) && !Plain(t)
    requires var u := Twin(t); u.slot in s.SlotsOf(u.record).value
    ensures var u := Twin(t);
      && u != t && !Touches(Publish(u.record, u.slot, u.tag, fails), t)
      && GetVersion(c, Step(c, s, Publish(u.record, u.slot, u.tag, fails)), KeyOf(t)) == Get(c, s, u.record, u.slot)
  {
    var u := Twin(t);
    if HasSep(t.record.id) || HasSep(t.slot) || HasSep(t.tag) { TwinOfSep(t); } else { TwinOfColon(t); }
    SameKeyExactly(t, u);
    PublishThenGetVersion(c, s, u.record, u.slot, u.tag, fails);
  }

  lemma PlainStepIsStable(c: Codec, s: State, op: Op, t: Triple)
    requires c.Ideal() && Sound(c, s) && Plain(t) && KeyOf(t) in s.versions && !Touches(op, t)
    ensures KeyOf(t) in Step(c, s, op).versions && GetVersion(c, Step(c, s, op), KeyOf(t)) == GetVersion(c, s, KeyOf(t))
  {
    PlainIsSpared(op, t);
    var ws := Writes(c, s, op);
    SparedVersion(c, s, op, KeyOf(t), |ws|);
    assert ws[..|ws|] == ws;
    StepSound(c, s, op);
  }

  /** Publish a slot, put new bytes in it and publish it under another label: the first version still reads
      what it was published with. */
  lemma TwoLabelsTwoVersions(c: Codec, s: State, t: Triple, tag: string, data: Bytes, compress: bool, size: nat)
    requires c.Ideal() && Sound(c, s) && Plain(t) && tag != t.tag && t.slot in s.SlotsOf(t.record).value
    ensures var s1 := Step(c, s, Publish(t.record, t.slot, t.tag, false));
      var s2 := Step(c, s1, Put(t.record, t.slot, data, compress, size, false));
      var s3 := Step(c, s2, Publish(t.record, t.slot, tag, false));
      GetVersion(c, s3, KeyOf(t)) == Get(c, s, t.record, t.slot)
  {
    var first, put, second := Publish(t.record, t.slot, t.tag, false), Put(t.record, t.slot, data, compress, size, false), Publish(t.record, t.slot, tag, false);
    var s1 := Step(c, s, first);
    StepSound(c, s, first);
    PublishThenGetVersion(c, s, t.record, t.slot, t.tag, false);
    StepSound(c, s1, put);
    PlainStepIsStable(c, s1, put, t);
    PlainStepIsStable(c, Step(c, s1, put), second, t);
  }

  /** And the second one reads the new bytes. */
  lemma SecondLabelReadsNewBytes(c: Codec, s: State, t: Triple, data: Bytes, compress: bool, size: nat)
    requires c.Ideal() && Sound(c, s)
    ensures var s1 := Step(c, s, Put(t.record, t.slot, data, compress, size, false));
      GetVersion(c, Step(c, s1, Publish(t.record, t.slot, t.tag, false)), KeyOf(t)) == Some(Got(data))
  {
    var put := Put(t.record, t.slot, data, compress, size, false);
    StepSound(c, s, put);
    PutThenGet(c, s, t.record, t.slot, data, compress, size, false);
    PublishThenGetVersion(c, Step(c, s, put), t.record, t.slot, t.tag, false);
  }
}
