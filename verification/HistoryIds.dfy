/** Ids of history entries: collection, record id and zero-padded version, joined by colons. */
module HistoryIds {
  import opened Wrappers
  import Lex

  const VERSION_PAD: nat := 10

  // ----- Decimal numbers ---------------------------------------------------------------------------------

  function DigitChar(d: nat): char
    requires d < 10
  {
    ('0' as int + d) as char
  }

  predicate IsDigit(c: char) {
    '0' <= c <= '9'
  }

  predicate AllDigits(s: string) {
    forall i :: 0 <= i < |s| ==> IsDigit(s[i])
  }

  /** `String(n)` */
  function Decimal(n: nat): string {
    if n < 10 then [DigitChar(n)] else Decimal(n / 10) + [DigitChar(n % 10)]
  }

  function Zeros(n: nat): (z: string)
    ensures |z| == n
  {
    seq(n, _ => '0')
  }

  /** `padStart(10, '0')`: longer strings stay as they are. */
  function Padded(s: string): string {
    if |s| >= VERSION_PAD then s else Zeros(VERSION_PAD - |s|) + s
  }

  /** The number a string of digits denotes. */
  function Number(s: string): nat
    requires AllDigits(s)
  {
    if s == "" then 0 else 10 * Number(s[..|s| - 1]) + (s[|s| - 1] as int - '0' as int)
  }

  function LeadingDigits(s: string): (r: string)
    ensures AllDigits(r)
  {
    if s == "" || !IsDigit(s[0]) then "" else [s[0]] + LeadingDigits(s[1..])
  }

  /** `parseInt(s, 10)` of a string without leading space or sign; `None` is NaN. */
  function ParseInt(s: string): Option<nat> {
    var d := LeadingDigits(s);
    if d == "" then None else Some(Number(d))
  }

  lemma {:induction false} LeadingDigitsOfDigits(s: string)
    requires AllDigits(s)
    ensures LeadingDigits(s) == s
  {
    if s != "" { LeadingDigitsOfDigits(s[1..]); }
  }

  lemma {:induction false} DecimalDenotes(n: nat)
    ensures AllDigits(Decimal(n)) && Number(Decimal(n)) == n
  {
    if n >= 10 {
      DecimalDenotes(n / 10);
      assert Decimal(n)[..|Decimal(n)| - 1] == Decimal(n / 10);
    } else {
      assert Decimal(n)[..0] == "";
    }
  }

  lemma {:induction false} ZerosDenoteNothing(n: nat, s: string)
    requires AllDigits(s)
    ensures AllDigits(Zeros(n) + s) && Number(Zeros(n) + s) == Number(s)
    decreases n + |s|
  {
    var t := Zeros(n) + s;
    if s != "" {
      ZerosDenoteNothing(n, s[..|s| - 1]);
      assert t[..|t| - 1] == Zeros(n) + s[..|s| - 1];
    } else if n > 0 {
      ZerosDenoteNothing(n - 1, "");
      assert t[..n - 1] == Zeros(n - 1) + "";
    }
  }

  lemma PaddedDenotes(n: nat)
    ensures AllDigits(Padded(Decimal(n))) && Number(Padded(Decimal(n))) == n && Padded(Decimal(n)) != ""
  {
    DecimalDenotes(n);
    if |Decimal(n)| < VERSION_PAD { ZerosDenoteNothing(VERSION_PAD - |Decimal(n)|, Decimal(n)); }
  }

  function Pow10(n: nat): (p: nat)
    ensures p >= 1
  {
    if n == 0 then 1 else 10 * Pow10(n - 1)
  }

  lemma {:induction false} DecimalWidth(n: nat, width: nat)
    requires n < Pow10(width) && width > 0
    ensures |Decimal(n)| <= width
  {
    if n >= 10 { DecimalWidth(n / 10, width - 1); }
  }

  /** Digit strings of one length compare as the numbers they denote. */
  lemma {:induction false} DigitsKeepOrder(s: string, t: string)
    requires |s| == |t| && AllDigits(s) && AllDigits(t)
    ensures Number(s) < Number(t) ==> Lex.Lt(s, t)
    ensures Number(s) == Number(t) ==> s == t
    decreases |s|
  {
    if s != "" {
      var n := |s| - 1;
      var x, y, p, q := s[..n], t[..n], [s[n]], [t[n]];
      assert s == x + p && t == y + q;
      DigitsKeepOrder(x, y);
      DigitsKeepOrder(y, x);
      if x == y {
        Lex.PrefixCancels(x, p, q);
      } else {
        Lex.HeadDecides(x, y, p, q);
      }
    }
  }

  // ----- History ids ---------------------------------------------------------------------------------------

  const COLON := ':'

  function HistoryId(collection: string, recordId: string, version: nat): string {
    collection + [COLON] + recordId + [COLON] + Padded(Decimal(version))
  }

  function IndexOf(s: string, c: char): (i: int)
    ensures i == -1 <==> c !in s
    ensures i != -1 ==> 0 <= i < |s| && s[i] == c && c !in s[..i]
  {
    if s == "" then -1
    else if s[0] == c then 0
    else
      var i := IndexOf(s[1..], c);
      assert forall x :: x in s <==> x == s[0] || x in s[1..];
      if i == -1 then -1 else assert s[..i + 1] == [s[0]] + s[1..][..i]; i + 1
  }

  function LastIndexOf(s: string, c: char): (i: int)
    ensures i == -1 <==> c !in s
    ensures i != -1 ==> 0 <= i < |s| && s[i] == c && c !in s[i + 1..]
  {
    if s == "" then -1
    else if s[|s| - 1] == c then |s| - 1
    else
      var init := s[..|s| - 1];
      var i := LastIndexOf(init, c);
      assert s == init + [s[|s| - 1]];
      if i == -1 then -1 else assert s[i + 1..] == init[i + 1..] + [s[|s| - 1]]; i
  }

  datatype Parsed = Parsed(collection: string, recordId: string, version: Option<nat>)

  /** From the last colon on is the version; up to the first colon is the collection. */
  function ParseHistoryId(id: string): Option<Parsed> {
    var last := LastIndexOf(id, COLON);
    if last < 0 then None
    else
      var rest := id[..last];
      var first := IndexOf(rest, COLON);
      if first < 0 then None else Some(Parsed(rest[..first], rest[first + 1..], ParseInt(id[last + 1..])))
  }

  lemma NoColonInDigits(s: string)
    requires AllDigits(s)
    ensures COLON !in s
  {
  }

  lemma {:induction false} LastColonAt(rest: string, v: string)
    requires COLON !in v
    ensures LastIndexOf(rest + [COLON] + v, COLON) == |rest|
    decreases |v|
  {
    var id := rest + [COLON] + v;
    if v != "" {
      assert id[..|id| - 1] == rest + [COLON] + v[..|v| - 1];
      LastColonAt(rest, v[..|v| - 1]);
    }
  }

  lemma FirstColonAt(head: string, tail: string)
    requires COLON !in head
    ensures IndexOf(head + [COLON] + tail, COLON) == |head|
  {
    var s := head + [COLON] + tail;
    var first := IndexOf(s, COLON);
    assert s[|head|] == COLON;
    assert forall i :: 0 <= i < |head| ==> s[i] == head[i];
    assert forall i :: 0 <= i < first ==> s[i] == s[..first][i];
  }

  lemma ParsedCollectionHasNoColon(id: string)
    ensures ParseHistoryId(id).Some? ==> COLON !in ParseHistoryId(id).value.collection
  {
  }

  lemma ParseJoined(collection: string, recordId: string, v: string)
    requires COLON !in collection && COLON !in v
    ensures ParseHistoryId(collection + [COLON] + recordId + [COLON] + v) == Some(Parsed(collection, recordId, ParseInt(v)))
  {
    var rest := collection + [COLON] + recordId;
    var id := rest + [COLON] + v;
    LastColonAt(rest, v);
    FirstColonAt(collection, recordId);
    assert id[..|rest|] == rest && id[|rest| + 1..] == v;
    assert rest[..|collection|] == collection && rest[|collection| + 1..] == recordId;
  }

  lemma PaddedParses(version: nat)
    ensures COLON !in Padded(Decimal(version)) && ParseInt(Padded(Decimal(version))) == Some(version)
  {
    PaddedDenotes(version);
    LeadingDigitsOfDigits(Padded(Decimal(version)));
    NoColonInDigits(Padded(Decimal(version)));
  }

  /** Parsing gives back what the id was made from, for any record id and version, exactly if the
      collection name has no colon. */
  lemma ParseInvertsExactly(collection: string, recordId: string, version: nat)
    ensures ParseHistoryId(HistoryId(collection, recordId, version)) == Some(Parsed(collection, recordId, Some(version)))
            <==> COLON !in collection
  {
    ParsedCollectionHasNoColon(HistoryId(collection, recordId, version));
    PaddedParses(version);
    if COLON !in collection { ParseJoined(collection, recordId, Padded(Decimal(version))); }
  }

  /** Ids of one record sort by version, as long as versions fit the padding. */
  lemma IdsSortByVersion(collection: string, recordId: string, v1: nat, v2: nat)
    requires v1 < v2 < 10_000_000_000
    ensures Lex.Lt(HistoryId(collection, recordId, v1), HistoryId(collection, recordId, v2))
  {
    var p1, p2 := Padded(Decimal(v1)), Padded(Decimal(v2));
    PaddedDenotes(v1); PaddedDenotes(v2);
    assert Pow10(10) == 10_000_000_000 by { assert Pow10(5) == 100_000; assert Pow10(10) == 10 * (10 * (10 * (10 * (10 * Pow10(5))))); }
    DecimalWidth(v1, 10); DecimalWidth(v2, 10);
    DigitsKeepOrder(p1, p2);
    var prefix := collection + [COLON] + recordId + [COLON];
    Lex.PrefixCancels(prefix, p1, p2);
    assert (prefix + p1)[|prefix|..] == p1 && (prefix + p2)[|prefix|..] == p2;
  }

  lemma {:induction false} DecimalAtLeast(n: nat, width: nat)
    requires n >= Pow10(width)
    ensures |Decimal(n)| > width
  {
    if width > 0 { DecimalAtLeast(n / 10, width - 1); }
  }

  /** The version takes ten digits exactly if it is below 10^10. */
  lemma TenDigitsExactly(version: nat)
    ensures |Padded(Decimal(version))| == 10 <==> version < 10_000_000_000
  {
    assert Pow10(10) == 10_000_000_000 by { assert Pow10(5) == 100_000; assert Pow10(10) == 10 * (10 * (10 * (10 * (10 * Pow10(5))))); }
    if version < 10_000_000_000 { DecimalWidth(version, 10); } else { DecimalAtLeast(version, 10); }
  }

  // ----- Prefixes ------------------------------------------------------------------------------------------

  function Prefix(collection: string, recordId: Option<string>): string {
    if recordId.Some? && recordId.value != "" then collection + [COLON] + recordId.value + [COLON]
    else collection + [COLON]
  }

  predicate Matches(id: string, prefix: string) {
    prefix <= id
  }

  /** What a history id has before its version. */
  function RecordPart(collection: string, recordId: string): string {
    collection + [COLON] + recordId + [COLON]
  }

  lemma ColonPrefix(p: string, head: string, v: string)
    requires p != "" && p[|p| - 1] == COLON && COLON !in v
    ensures p <= head + v <==> p <= head
  {
    var id := head + v;
    if |head| < |p| <= |id| { assert id[|p| - 1] == v[|p| - 1 - |head|]; }
    if p <= head { assert p == head[..|p|] == id[..|p|]; }
  }

  /** A prefix selects exactly the entries whose joined collection and record begin with it: besides
      the record's own those of records whose id goes on after a colon, and those of every
      collection whose name goes on that way, whatever the record. */
  lemma PrefixSelectsExactly(c: string, recordId: Option<string>, c': string, r': string, version: nat)
    ensures Matches(HistoryId(c', r', version), Prefix(c, recordId)) <==> Prefix(c, recordId) <= RecordPart(c', r')
  {
    PaddedParses(version);
    ColonPrefix(Prefix(c, recordId), RecordPart(c', r'), Padded(Decimal(version)));
  }

  /** Within one collection, a record's prefix selects that record and those whose id goes on after
      a colon. */
  lemma PrefixWithinCollection(c: string, r: string, r': string, version: nat)
    requires r != ""
    ensures Matches(HistoryId(c, r', version), Prefix(c, Some(r))) <==> r' == r || r + [COLON] <= r'
  {
    PrefixSelectsExactly(c, Some(r), c, r', version);
    var head, tail, tail' := c + [COLON], r + [COLON], r' + [COLON];
    assert RecordPart(c, r') == head + tail' && Prefix(c, Some(r)) == head + tail;
    CancelHead(head, tail, tail');
    if tail <= tail' {
      if |r| < |r'| { assert tail == tail'[..|tail|] == r'[..|tail|]; } else { assert r == tail'[..|r|] == r'; }
    }
    if tail <= r' { assert tail == r'[..|tail|] == tail'[..|tail|]; }
  }

  /** Across collections, it selects everything in the collection named after the two. */
  lemma PrefixSelectsForeignCollection(c: string, r: string, r': string, version: nat)
    ensures Matches(HistoryId(c + [COLON] + r, r', version), Prefix(c, Some(r)))
  {
    PrefixSelectsExactly(c, Some(r), c + [COLON] + r, r', version);
    var part := RecordPart(c + [COLON] + r, r');
    assert part == (c + [COLON] + r + [COLON]) + (r' + [COLON]) == (c + [COLON]) + (r + [COLON] + r' + [COLON]);
  }

  lemma CancelHead(h: string, x: string, y: string)
    ensures h + x <= h + y <==> x <= y
  {
    if h + x <= h + y {
      assert x == (h + x)[|h|..] == (h + y)[..|h| + |x|][|h|..] == y[..|x|];
    }
    if x <= y {
      assert y == x + y[|x|..];
      assert h + y == (h + x) + y[|x|..];
    }
  }

  // ----- Whose id it is --------------------------------------------------------------------------------------

  lemma {:induction false} DigitsDenoteOne(s: string, t: string)
    requires COLON !in s && COLON !in t
    ensures forall x, y :: x + [COLON] + s == y + [COLON] + t ==> x == y && s == t
  {
    forall x, y | x + [COLON] + s == y + [COLON] + t
      ensures x == y && s == t
    {
      LastColonAt(x, s);
      LastColonAt(y, t);
      var id := x + [COLON] + s;
      assert id[..|x|] == x && id[|x| + 1..] == s;
      assert id[..|y|] == y && id[|y| + 1..] == t;
    }
  }

  /** Two entries have one id exactly if their versions agree and their collections and records join to
      the same string. */
  lemma SameIdExactly(c: string, r: string, v: nat, c': string, r': string, v': nat)
    ensures HistoryId(c, r, v) == HistoryId(c', r', v') <==> v == v' && RecordPart(c, r) == RecordPart(c', r')
  {
    var x, y, s, t := c + [COLON] + r, c' + [COLON] + r', Padded(Decimal(v)), Padded(Decimal(v'));
    PaddedParses(v);
    PaddedParses(v');
    DigitsDenoteOne(s, t);
    assert RecordPart(c, r) == x + [COLON] && RecordPart(c', r') == y + [COLON];
    if RecordPart(c, r) == RecordPart(c', r') { assert x == RecordPart(c, r)[..|x|] == y; }
  }

  /** The other way to read joined names: up to the first colon of the collection, or on to the first
      colon of the record id. */
  function OtherOwner(c: string, r: string): (string, string)
    requires COLON in c || COLON in r
  {
    if COLON in c then
      var i := IndexOf(c, COLON);
      (c[..i], c[i + 1..] + [COLON] + r)
    else
      var i := IndexOf(r, COLON);
      (c + [COLON] + r[..i], r[i + 1..])
  }

  lemma OtherOwnerShares(c: string, r: string)
    requires COLON in c || COLON in r
    ensures OtherOwner(c, r) != (c, r) && RecordPart(OtherOwner(c, r).0, OtherOwner(c, r).1) == RecordPart(c, r)
  {
    var (c', r') := OtherOwner(c, r);
    if COLON in c {
      var i := IndexOf(c, COLON);
      assert c == c' + [COLON] + c[i + 1..];
      assert RecordPart(c, r) == c' + [COLON] + c[i + 1..] + [COLON] + r + [COLON] == RecordPart(c', r');
      assert |c'| < |c|;
    } else {
      var i := IndexOf(r, COLON);
      assert r == r[..i] + [COLON] + r';
      assert RecordPart(c, r) == c + [COLON] + r[..i] + [COLON] + r' + [COLON] == RecordPart(c', r');
      assert |c'| > |c|;
    }
  }

  lemma OneOwner(c: string, r: string, c': string, r': string)
    requires COLON !in c && COLON !in r && RecordPart(c, r) == RecordPart(c', r')
    ensures c' == c && r' == r
  {
    var part := RecordPart(c, r);
    assert part == c + [COLON] + (r + [COLON]) && part == c' + [COLON] + (r' + [COLON]);
    FirstColonAt(c, r + [COLON]);
    assert part[|c'|] == COLON;
    assert forall i :: |c| < i < |part| - 1 ==> part[i] == r[i - |c| - 1] != COLON;
    assert forall i :: 0 <= i < |c| ==> part[i] == c[i] != COLON;
    assert |c'| == |c|;
    assert c == part[..|c|] == c' && r == part[|c| + 1..|part| - 1] == r';
  }

  /** A record has its history ids to itself exactly if neither its collection nor its id has a colon. */
  lemma IdsAreOwnExactly(c: string, r: string, v: nat)
    ensures (forall c', r', v': nat :: HistoryId(c', r', v') == HistoryId(c, r, v) ==> c' == c && r' == r && v' == v)
            <==> COLON !in c && COLON !in r
  {
    if COLON in c || COLON in r {
      OtherOwnerShares(c, r);
      var (c', r') := OtherOwner(c, r);
      SameIdExactly(c, r, v, c', r', v);
    } else {
      forall c', r', v': nat | HistoryId(c', r', v') == HistoryId(c, r, v)
        ensures c' == c && r' == r && v' == v
      {
        SameIdExactly(c, r, v, c', r', v');
        OneOwner(c, r, c', r');
      }
    }
  }
}
