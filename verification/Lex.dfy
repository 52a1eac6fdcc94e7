/** The order JavaScript puts on strings: code unit by code unit, a proper prefix first.
    Timestamps, history ids and ULIDs are all compared this way. */
module Lex {

  predicate Le(a: string, b: string) {
    |a| == 0 || (|b| > 0 && (a[0] < b[0] || (a[0] == b[0] && Le(a[1..], b[1..]))))
  }

  predicate Lt(a: string, b: string) {
    Le(a, b) && a != b
  }

  lemma {:induction false} Reflexive(a: string)
    ensures Le(a, a)
  {
    if a != [] { Reflexive(a[1..]); }
  }

  lemma {:induction false} Antisymmetric(a: string, b: string)
    requires Le(a, b) && Le(b, a)
    ensures a == b
  {
    if a != [] {
      Antisymmetric(a[1..], b[1..]);
      assert a == [a[0]] + a[1..] == [b[0]] + b[1..] == b;
    }
  }

  lemma {:induction false} Transitive(a: string, b: string, c: string)
    requires Le(a, b) && Le(b, c)
    ensures Le(a, c)
  {
    if a != [] && a[0] == b[0] == c[0] { Transitive(a[1..], b[1..], c[1..]); }
  }

  lemma {:induction false} Total(a: string, b: string)
    ensures Le(a, b) || Le(b, a)
  {
    if a != [] && b != [] { Total(a[1..], b[1..]); }
  }

  /** A common prefix does not affect the comparison. */
  lemma {:induction false} PrefixCancels(p: string, a: string, b: string)
    ensures Le(p + a, p + b) <==> Le(a, b)
  {
    if p == [] {
      assert p + a == a && p + b == b;
    } else {
      assert (p + a)[1..] == p[1..] + a && (p + b)[1..] == p[1..] + b;
      PrefixCancels(p[1..], a, b);
    }
  }

  /** Strings of one length are compared at their first difference, whatever follows. */
  lemma {:induction false} HeadDecides(a: string, b: string, s: string, t: string)
    requires |a| == |b| && a != b
    ensures Le(a + s, b + t) <==> Le(a, b)
  {
    if a[0] == b[0] {
      assert a == [a[0]] + a[1..] && b == [b[0]] + b[1..];
      assert (a + s)[1..] == a[1..] + s && (b + t)[1..] == b[1..] + t;
      HeadDecides(a[1..], b[1..], s, t);
    } else {
      assert (a + s)[0] == a[0] && (b + t)[0] == b[0];
    }
  }
}
