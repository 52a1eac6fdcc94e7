/** ULIDs: fixed-width base-32 encodings of a timestamp and of random bytes. */
module Ulid {
  import Lex

  const ALPHABET := "0123456789ABCDEFGHJKMNPQRSTVWXYZ"

  function Pow32(n: nat): (p: nat)
    ensures p >= 1
  {
    if n == 0 then 1 else 32 * Pow32(n - 1)
  }

  /** The value in base 32, `length` digits, most significant first; higher digits are cut off. */
  function EncodeIn(alphabet: string, value: nat, length: nat): string
    requires |alphabet| == 32
  {
    if length == 0 then "" else EncodeIn(alphabet, value / 32, length - 1) + [alphabet[value % 32]]
  }

  function Encode(value: nat, length: nat): string {
    EncodeIn(ALPHABET, value, length)
  }

  /** The last digit and the ones before it. */
  lemma EncodeSplit(alphabet: string, q: nat, r: nat, length: nat)
    requires |alphabet| == 32 && r < 32 && length > 0
    ensures EncodeIn(alphabet, 32 * q + r, length) == EncodeIn(alphabet, q, length - 1) + [alphabet[r]]
  {
    assert (32 * q + r) / 32 == q && (32 * q + r) % 32 == r;
  }

  method EncodeBase32(value: nat, length: nat) returns (out: string)
    ensures out == Encode(value, length) && |out| == length
  {
    out := "";
    var v := value;
    var i := 0;
    while i < length
      invariant 0 <= i <= length && |out| == i
      invariant EncodeIn(ALPHABET, v, length - i) + out == EncodeIn(ALPHABET, value, length)
    {
      EncodeStep(ALPHABET, v, length - i, out);
      out := [ALPHABET[v % 32]] + out;
      v := v / 32;
      i := i + 1;
    }
  }

  lemma EncodeStep(alphabet: string, v: nat, n: nat, out: string)
    requires |alphabet| == 32 && n > 0
    ensures EncodeIn(alphabet, v, n) + out == EncodeIn(alphabet, v / 32, n - 1) + ([alphabet[v % 32]] + out)
  {
    var x, digit := EncodeIn(alphabet, v / 32, n - 1), [alphabet[v % 32]];
    assert (x + digit) + out == x + (digit + out);
  }

  lemma {:induction false} EncodeInLength(alphabet: string, value: nat, length: nat)
    requires |alphabet| == 32
    ensures |EncodeIn(alphabet, value, length)| == length
    ensures forall c :: c in EncodeIn(alphabet, value, length) ==> c in alphabet
  {
    if length > 0 { EncodeInLength(alphabet, value / 32, length - 1); }
  }

  lemma EncodeLength(value: nat, length: nat)
    ensures |Encode(value, length)| == length
    ensures forall c :: c in Encode(value, length) ==> c in ALPHABET
  {
    EncodeInLength(ALPHABET, value, length);
  }

  // ----- Order -----------------------------------------------------------------------------------------

  ghost predicate Ascends(alphabet: string) {
    forall i, j :: 0 <= i < j < |alphabet| ==> alphabet[i] < alphabet[j]
  }

  lemma AlphabetAscends()
    ensures Ascends(ALPHABET)
  {
    AlphabetSteps();
    forall i, j | 0 <= i < j < |ALPHABET|
      ensures ALPHABET[i] < ALPHABET[j]
    {
      AscendsFrom(ALPHABET, i, j);
    }
  }

  lemma AlphabetSteps()
    ensures forall k :: 0 <= k < 31 ==> ALPHABET[k] < ALPHABET[k + 1]
  {
  }

  lemma {:induction false} AscendsFrom(s: string, i: nat, j: nat)
    requires i < j < |s| && forall k :: 0 <= k < |s| - 1 ==> s[k] < s[k + 1]
    ensures s[i] < s[j]
    decreases j
  {
    if i + 1 < j { AscendsFrom(s, i, j - 1); }
  }

  lemma DivisionBelow(a: nat, length: nat)
    requires length > 0 && a < Pow32(length)
    ensures a / 32 < Pow32(length - 1)
  {
  }

  lemma {:induction false} EncodeInKeepsOrder(alphabet: string, a: nat, b: nat, length: nat)
    requires |alphabet| == 32 && Ascends(alphabet)
    requires a < Pow32(length) && b < Pow32(length) && a < b
    ensures Lex.Lt(EncodeIn(alphabet, a, length), EncodeIn(alphabet, b, length))
  {
    if length > 0 {
      DivisionBelow(a, length); DivisionBelow(b, length);
      EncodeInLength(alphabet, a / 32, length - 1); EncodeInLength(alphabet, b / 32, length - 1);
      var x, y := EncodeIn(alphabet, a / 32, length - 1), EncodeIn(alphabet, b / 32, length - 1);
      var p, q := [alphabet[a % 32]], [alphabet[b % 32]];
      if a / 32 < b / 32 {
        EncodeInKeepsOrder(alphabet, a / 32, b / 32, length - 1);
        Lex.HeadDecides(x, y, p, q);
        assert (x + p)[..length - 1] == x && (y + q)[..length - 1] == y;
      } else {
        assert a / 32 == b / 32 && a % 32 < b % 32;
        Lex.PrefixCancels(x, p, q);
        assert (x + p)[length - 1] != (y + q)[length - 1];
      }
    }
  }

  /** Fixed-width encodings compare as the numbers do, and are different for different numbers. */
  lemma EncodeKeepsOrder(a: nat, b: nat, length: nat)
    requires a < Pow32(length) && b < Pow32(length) && a < b
    ensures Lex.Lt(Encode(a, length), Encode(b, length))
  {
    AlphabetAscends();
    EncodeInKeepsOrder(ALPHABET, a, b, length);
  }

  // ----- The parts of a ULID ------------------------------------------------------------------------------

  type Byte = b: int | 0 <= b < 256

  /** The millisecond timestamp, in two halves of 24 bits. */
  function TimePart(now: nat): string {
    Encode(now / 0x1000000, 5) + Encode(now % 0x1000000, 5)
  }

  function Big40(b: seq<Byte>): (v: nat)
    requires |b| == 5
    ensures v < 0x100_0000_0000
  {
    var b0: int, b1: int, b2: int, b3: int, b4: int := b[0], b[1], b[2], b[3], b[4];
    b0 * 0x1_0000_0000 + b1 * 0x100_0000 + b2 * 0x1_0000 + b3 * 0x100 + b4
  }

  function RandomPart(bytes: seq<Byte>): string
    requires |bytes| == 10
  {
    Encode(Big40(bytes[..5]), 8) + Encode(Big40(bytes[5..]), 8)
  }

  method GenerateUlid(now: nat, bytes: seq<Byte>) returns (ulid: string)
    requires |bytes| == 10
    ensures ulid == TimePart(now) + RandomPart(bytes)
    ensures IsUlid(ulid)
  {
    var high := EncodeBase32(now / 0x1000000, 5);
    var low := EncodeBase32(now % 0x1000000, 5);
    var rand1 := EncodeBase32(Big40(bytes[..5]), 8);
    var rand2 := EncodeBase32(Big40(bytes[5..]), 8);
    ulid := (high + low) + (rand1 + rand2);
    UlidIsWellFormed(now, bytes);
  }

  /** The regular expression of the header check, character class by character class. */
  predicate UlidChar(c: char) {
    '0' <= c <= '9' || 'A' <= c <= 'H' || c == 'J' || c == 'K' || c == 'M' || c == 'N' || 'P' <= c <= 'T' || 'V' <= c <= 'Z'
  }

  predicate IsUlid(s: string) {
    |s| == 26 && forall c :: c in s ==> UlidChar(c)
  }

  lemma UlidIsWellFormed(now: nat, bytes: seq<Byte>)
    requires |bytes| == 10
    ensures IsUlid(TimePart(now) + RandomPart(bytes))
  {
    EncodeLength(now / 0x1000000, 5); EncodeLength(now % 0x1000000, 5);
    EncodeLength(Big40(bytes[..5]), 8); EncodeLength(Big40(bytes[5..]), 8);
    AlphabetIsUlid();
  }

  /** The code of each digit: the letters I, L, O and U are left out. */
  function DigitCode(i: nat): nat {
    if i < 10 then 48 + i else if i < 18 then 55 + i else if i < 20 then 56 + i
    else if i < 22 then 57 + i else if i < 27 then 58 + i else 59 + i
  }

  lemma AlphabetCodes(i: nat)
    requires i < 32
    ensures ALPHABET[i] as int == DigitCode(i)
  {
  }

  /** The characters the check admits are exactly the digits of the encoding. */
  lemma AlphabetIsUlid()
    ensures forall c :: c in ALPHABET <==> UlidChar(c)
  {
    forall c
      ensures c in ALPHABET <==> UlidChar(c)
    {
      if c in ALPHABET {
        var i :| 0 <= i < 32 && ALPHABET[i] == c;
        AlphabetCodes(i);
      }
      if UlidChar(c) {
        var n := c as int;
        var i := if n < 58 then n - 48 else if n < 73 then n - 55 else if n < 76 then n - 56
                 else if n < 79 then n - 57 else if n < 85 then n - 58 else n - 59;
        AlphabetCodes(i);
        assert ALPHABET[i] == c;
      }
    }
  }

  /** Later milliseconds give greater time parts, whatever random parts follow, up to 2^49; that is
      beyond the 48 bits the layout allows for, because each half has a bit to spare. */
  lemma UlidsSortByTime(t1: nat, t2: nat, r1: string, r2: string)
    requires t1 < t2 < 0x2_0000_0000_0000
    ensures Lex.Lt(TimePart(t1) + r1, TimePart(t2) + r2)
  {
    var h1, l1, h2, l2 := t1 / 0x1000000, t1 % 0x1000000, t2 / 0x1000000, t2 % 0x1000000;
    assert Pow32(5) == 0x2000000 by { assert Pow32(3) == 32768; assert Pow32(5) == 32 * (32 * Pow32(3)); }
    EncodeLength(h1, 5); EncodeLength(h2, 5); EncodeLength(l1, 5); EncodeLength(l2, 5);
    if h1 < h2 {
      EncodeKeepsOrder(h1, h2, 5);
      Lex.HeadDecides(Encode(h1, 5), Encode(h2, 5), Encode(l1, 5), Encode(l2, 5));
      assert TimePart(t1)[..5] != TimePart(t2)[..5];
    } else {
      assert h1 == h2 && l1 < l2;
      EncodeKeepsOrder(l1, l2, 5);
      Lex.PrefixCancels(Encode(h1, 5), Encode(l1, 5), Encode(l2, 5));
      assert TimePart(t1)[5..] != TimePart(t2)[5..];
    }
    Lex.HeadDecides(TimePart(t1), TimePart(t2), r1, r2);
    assert (TimePart(t1) + r1)[..10] == TimePart(t1) && (TimePart(t2) + r2)[..10] == TimePart(t2);
  }

  /** The time part repeats every 2^49 milliseconds. */
  lemma TimePartWraps(t: nat)
    ensures TimePart(t + 0x2_0000_0000_0000) == TimePart(t)
  {
    EncodeInWraps(ALPHABET, t / 0x1000000, 5);
    PowersOf32();
    HalvesOf(t);
  }

  lemma HalvesOf(t: nat)
    ensures (t + 0x2_0000_0000_0000) / 0x1000000 == t / 0x1000000 + 0x2000000
    ensures (t + 0x2_0000_0000_0000) % 0x1000000 == t % 0x1000000
  {
  }

  lemma {:induction false} EncodeInWraps(alphabet: string, v: nat, n: nat)
    requires |alphabet| == 32
    ensures EncodeIn(alphabet, v + Pow32(n), n) == EncodeIn(alphabet, v, n)
  {
    if n > 0 {
      var q, r, p := v / 32, v % 32, Pow32(n - 1);
      assert v == 32 * q + r && v + Pow32(n) == 32 * (q + p) + r;
      EncodeInWraps(alphabet, q, n - 1);
      EncodeSplit(alphabet, q, r, n);
      EncodeSplit(alphabet, q + p, r, n);
    }
  }

  lemma LastByte(a: int, b: int, c: int, d: int)
    requires 256 * a + b == 256 * c + d && 0 <= b < 256 && 0 <= d < 256
    ensures a == c && b == d
  {
  }

  lemma Big40Injective(x: seq<Byte>, y: seq<Byte>)
    requires |x| == |y| == 5 && Big40(x) == Big40(y)
    ensures x == y
  {
    var x0: int, x1: int, x2: int, x3: int, x4: int := x[0], x[1], x[2], x[3], x[4];
    var y0: int, y1: int, y2: int, y3: int, y4: int := y[0], y[1], y[2], y[3], y[4];
    LastByte(x0 * 0x100_0000 + x1 * 0x1_0000 + x2 * 0x100 + x3, x4, y0 * 0x100_0000 + y1 * 0x1_0000 + y2 * 0x100 + y3, y4);
    LastByte(x0 * 0x1_0000 + x1 * 0x100 + x2, x3, y0 * 0x1_0000 + y1 * 0x100 + y2, y3);
    LastByte(x0 * 0x100 + x1, x2, y0 * 0x100 + y1, y2);
    LastByte(x0, x1, y0, y1);
  }

  /** The random part determines its ten bytes: no randomness is lost in the encoding. */
  lemma RandomPartInjective(x: seq<Byte>, y: seq<Byte>)
    requires |x| == |y| == 10 && RandomPart(x) == RandomPart(y)
    ensures x == y
  {
    var a, b, c, d := Big40(x[..5]), Big40(y[..5]), Big40(x[5..]), Big40(y[5..]);
    EncodeLength(a, 8); EncodeLength(b, 8); EncodeLength(c, 8); EncodeLength(d, 8);
    assert Encode(a, 8) == RandomPart(x)[..8] == RandomPart(y)[..8] == Encode(b, 8);
    assert Encode(c, 8) == RandomPart(x)[8..] == RandomPart(y)[8..] == Encode(d, 8);
    assert Pow32(8) == 0x100_0000_0000 by {
      assert Pow32(2) == 1024; assert Pow32(4) == 32 * (32 * Pow32(2)); assert Pow32(6) == 32 * (32 * Pow32(4)); assert Pow32(8) == 32 * (32 * Pow32(6));
    }
    EncodeInjective(a, b, 8); EncodeInjective(c, d, 8);
    Big40Injective(x[..5], y[..5]); Big40Injective(x[5..], y[5..]);
    assert x == x[..5] + x[5..] && y == y[..5] + y[5..];
  }

  lemma EncodeInjective(a: nat, b: nat, length: nat)
    requires a < Pow32(length) && b < Pow32(length) && Encode(a, length) == Encode(b, length)
    ensures a == b
  {
    if a < b { EncodeKeepsOrder(a, b, length); }
    if b < a { EncodeKeepsOrder(b, a, length); }
  }

  // ----- Reading the digits back -------------------------------------------------------------------------

  function PlaceIn(s: string, c: char): (i: nat)
    requires c in s
    ensures i < |s| && s[i] == c
  {
    if s[0] == c then 0 else 1 + PlaceIn(s[1..], c)
  }

  predicate DigitsOf(alphabet: string, s: string) {
    forall c :: c in s ==> c in alphabet
  }

  /** The number that digits denote in base 32, most significant first; the value of a digit is its place
      in the alphabet. */
  function Denoted(alphabet: string, s: string): nat
    requires DigitsOf(alphabet, s)
  {
    if s == "" then 0
    else
      assert s[|s| - 1] in s;
      32 * Denoted(alphabet, s[..|s| - 1]) + PlaceIn(alphabet, s[|s| - 1])
  }

  lemma DigitIs(alphabet: string, i: nat)
    requires i < |alphabet| && Ascends(alphabet)
    ensures alphabet[i] in alphabet && PlaceIn(alphabet, alphabet[i]) == i
  {
    var j := PlaceIn(alphabet, alphabet[i]);
  }

  lemma {:induction false} EncodeInDenotes(alphabet: string, value: nat, length: nat)
    requires |alphabet| == 32 && Ascends(alphabet) && value < Pow32(length)
    ensures DigitsOf(alphabet, EncodeIn(alphabet, value, length)) && Denoted(alphabet, EncodeIn(alphabet, value, length)) == value
  {
    EncodeInLength(alphabet, value, length);
    if length > 0 {
      var q, r := value / 32, value % 32;
      DivisionBelow(value, length);
      EncodeInDenotes(alphabet, q, length - 1);
      DigitIs(alphabet, r);
      EncodeSplit(alphabet, q, r, length);
      DenotedLast(alphabet, EncodeIn(alphabet, value, length), EncodeIn(alphabet, q, length - 1), alphabet[r]);
    }
  }

  /** A fixed-width encoding denotes what it encodes. */
  lemma EncodeDenotes(value: nat, length: nat)
    requires value < Pow32(length)
    ensures DigitsOf(ALPHABET, Encode(value, length)) && Denoted(ALPHABET, Encode(value, length)) == value
  {
    AlphabetAscends();
    EncodeInDenotes(ALPHABET, value, length);
  }

  lemma PowersOf32()
    ensures Pow32(5) == 0x200_0000 && Pow32(8) == 0x100_0000_0000
  {
    assert Pow32(3) == 32768;
    assert Pow32(5) == 32 * (32 * Pow32(3));
    assert Pow32(8) == 32 * (32 * (32 * Pow32(5)));
  }

  /** The first five characters hold the milliseconds in units of 2^24, the next five the rest. */
  lemma TimeIsInTwoHalves(t: nat)
    requires t < 0x2_0000_0000_0000
    ensures var s := TimePart(t);
      && |s| == 10 && DigitsOf(ALPHABET, s[..5]) && DigitsOf(ALPHABET, s[5..])
      && Denoted(ALPHABET, s[..5]) * 0x100_0000 + Denoted(ALPHABET, s[5..]) == t && Denoted(ALPHABET, s[5..]) < 0x100_0000
  {
    var high, low := t / 0x100_0000, t % 0x100_0000;
    PowersOf32();
    EncodeDenotes(high, 5);
    EncodeDenotes(low, 5);
    EncodeLength(high, 5);
    EncodeLength(low, 5);
    assert TimePart(t)[..5] == Encode(high, 5) && TimePart(t)[5..] == Encode(low, 5);
  }

  lemma DenotedLast(alphabet: string, s: string, init: string, last: char)
    requires s == init + [last] && DigitsOf(alphabet, s)
    ensures last in alphabet && DigitsOf(alphabet, init)
    ensures Denoted(alphabet, s) == 32 * Denoted(alphabet, init) + PlaceIn(alphabet, last)
  {
    assert s[|s| - 1] == last && last in s && s[..|s| - 1] == init;
    assert forall c :: c in init ==> c in s;
  }

  lemma {:induction false} DenotedConcat(alphabet: string, x: string, y: string)
    requires DigitsOf(alphabet, x) && DigitsOf(alphabet, y)
    ensures DigitsOf(alphabet, x + y)
    ensures Denoted(alphabet, x + y) == Denoted(alphabet, x) * Pow32(|y|) + Denoted(alphabet, y)
    decreases |y|
  {
    if y == "" {
      assert x + y == x;
    } else {
      var init, last := y[..|y| - 1], y[|y| - 1];
      assert y == init + [last];
      DenotedLast(alphabet, y, init, last);
      DenotedConcat(alphabet, x, init);
      assert x + y == (x + init) + [last];
      DenotedLast(alphabet, x + y, x + init, last);
      ShiftDigit(Denoted(alphabet, x), Pow32(|init|), Denoted(alphabet, init), PlaceIn(alphabet, last));
    }
  }

  lemma ShiftDigit(d: nat, p: nat, rest: nat, digit: nat)
    ensures 32 * (d * p + rest) + digit == d * (32 * p) + (32 * rest + digit)
  {
  }

  /** As one number in base 32, as which the ULID format reads it, the time part is not the time, exactly
      from 2^24 milliseconds on: each half is a bit wider than its share. */
  lemma TimePartDenotesExactly(t: nat)
    requires t < 0x2_0000_0000_0000
    ensures DigitsOf(ALPHABET, TimePart(t))
    ensures Denoted(ALPHABET, TimePart(t)) == t + (t / 0x100_0000) * 0x100_0000
    ensures Denoted(ALPHABET, TimePart(t)) == t <==> t < 0x100_0000
  {
    TimeIsInTwoHalves(t);
    var x, y := TimePart(t)[..5], TimePart(t)[5..];
    assert TimePart(t) == x + y;
    FiveDigitsOn(ALPHABET, x, y);
    TwoHalves(Denoted(ALPHABET, x), Denoted(ALPHABET, y), t / 0x100_0000, t % 0x100_0000);
  }

  lemma FiveDigitsOn(alphabet: string, x: string, y: string)
    requires |y| == 5 && DigitsOf(alphabet, x) && DigitsOf(alphabet, y)
    ensures DigitsOf(alphabet, x + y) && Denoted(alphabet, x + y) == Denoted(alphabet, x) * 0x200_0000 + Denoted(alphabet, y)
  {
    DenotedConcat(alphabet, x, y);
    PowersOf32();
  }

  lemma TwoHalves(a: nat, b: nat, high: nat, low: nat)
    requires a * 0x100_0000 + b == high * 0x100_0000 + low && b < 0x100_0000 && low < 0x100_0000
    ensures a == high && b == low
  {
  }

  /** Each half of the random part is the number its five bytes make, the first byte the most significant. */
  lemma RandomPartDenotes(bytes: seq<Byte>)
    requires |bytes| == 10
    ensures var s := RandomPart(bytes);
      && |s| == 16 && DigitsOf(ALPHABET, s[..8]) && DigitsOf(ALPHABET, s[8..])
      && Denoted(ALPHABET, s[..8]) == BigEndian(bytes[..5]) && Denoted(ALPHABET, s[8..]) == BigEndian(bytes[5..])
  {
    var x, y := Big40(bytes[..5]), Big40(bytes[5..]);
    PowersOf32();
    EncodeDenotes(x, 8);
    EncodeDenotes(y, 8);
    EncodeLength(x, 8);
    EncodeLength(y, 8);
    assert RandomPart(bytes)[..8] == Encode(x, 8) && RandomPart(bytes)[8..] == Encode(y, 8);
    Big40IsBigEndian(bytes[..5]);
    Big40IsBigEndian(bytes[5..]);
  }

  function BigEndian(b: seq<Byte>): nat {
    if b == [] then 0 else 256 * BigEndian(b[..|b| - 1]) + b[|b| - 1]
  }

  lemma Big40IsBigEndian(b: seq<Byte>)
    requires |b| == 5
    ensures Big40(b) == BigEndian(b)
  {
    assert b[..4][..3] == b[..3] && b[..3][..2] == b[..2] && b[..2][..1] == b[..1] && b[..1][..0] == [];
    assert BigEndian(b[..1]) == b[0];
    assert BigEndian(b[..2]) == 256 * BigEndian(b[..1]) + b[1];
    assert BigEndian(b[..3]) == 256 * BigEndian(b[..2]) + b[2];
    assert BigEndian(b[..4]) == 256 * BigEndian(b[..3]) + b[3];
  }
}
