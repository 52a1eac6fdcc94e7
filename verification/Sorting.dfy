/** Sorting strings by code units. */
module Sorting {
  import opened Wrappers
  import Lex

  function Insert(x: string, s: seq<string>): seq<string> {
    if s == [] || Lex.Le(x, s[0]) then [x] + s else [s[0]] + Insert(x, s[1..])
  }

  /** `sort()`: ascending by code units. */
  function Sort(s: seq<string>): seq<string> {
    if s == [] then [] else Insert(s[0], Sort(s[1..]))
  }

  ghost predicate Ascending(s: seq<string>) {
    forall i, j :: 0 <= i < j < |s| ==> Lex.Lt(s[i], s[j])
  }

  lemma {:induction false} InsertKeepsAscending(x: string, s: seq<string>)
    requires Ascending(s) && x !in s
    ensures Ascending(Insert(x, s))
    ensures forall y :: y in Insert(x, s) <==> y == x || y in s
  {
    if s == [] {
    } else if Lex.Le(x, s[0]) {
      forall j | 0 <= j < |s| ensures Lex.Lt(x, s[j]) {
        if j > 0 { Lex.Transitive(x, s[0], s[j]); }
      }
    } else {
      Lex.Total(x, s[0]);
      var tail := s[1..];
      assert forall y :: y in s <==> y == s[0] || y in tail;
      InsertKeepsAscending(x, tail);
      var rest := Insert(x, tail);
      forall j | 0 <= j < |rest| ensures Lex.Lt(s[0], rest[j]) {
        assert rest[j] in rest;
        if rest[j] != x {
          var i :| 0 <= i < |tail| && tail[i] == rest[j];
          assert tail[i] == s[i + 1];
        }
      }
    }
  }

  lemma {:induction false} SortAscends(s: seq<string>)
    requires Distinct(s)
    ensures Ascending(Sort(s))
    ensures forall y :: y in Sort(s) <==> y in s
  {
    if s != [] {
      assert forall y :: y in s <==> y == s[0] || y in s[1..];
      SortAscends(s[1..]);
      assert s[0] !in s[1..];
      InsertKeepsAscending(s[0], Sort(s[1..]));
    }
  }

  /** A set of strings has one ascending listing. */
  lemma {:induction false} OneAscendingListing(s: seq<string>, t: seq<string>)
    requires Ascending(s) && Ascending(t)
    requires forall x :: x in s <==> x in t
    ensures s == t
  {
    if s == [] || t == [] {
      HasMember(s); HasMember(t);
    } else {
      assert s[0] in t && t[0] in s;
      if s[0] != t[0] {
        Lex.Antisymmetric(s[0], t[0]);
      }
      assert forall x :: x in s <==> x == s[0] || x in s[1..];
      assert forall x :: x in t <==> x == t[0] || x in t[1..];
      assert s[0] !in s[1..] && t[0] !in t[1..];
      OneAscendingListing(s[1..], t[1..]);
    }
  }
}
