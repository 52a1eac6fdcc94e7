/** Version history: reading a record's past versions newest first, and pruning them. */
module History {
  import opened Wrappers
  import opened Stores
  import opened HistoryIds
  import opened Sorting
  import Lex

  /** The `_history` collection: envelopes by history id. */
  type Entries = map<string, Envelope>

  // ----- Sorted ids ----------------------------------------------------------------------------------------

  /** `s.filter(id => matchesPrefix(id, ...))` */
  function Matching(s: seq<string>, prefix: string): (r: seq<string>)
    ensures forall id :: id in r <==> id in s && Matches(id, prefix)
  {
    if s == [] then []
    else if Matches(s[0], prefix) then [s[0]] + Matching(s[1..], prefix)
    else Matching(s[1..], prefix)
  }

  lemma {:induction false} MatchingIsDistinct(s: seq<string>, prefix: string)
    requires Distinct(s)
    ensures Distinct(Matching(s, prefix))
  {
    if s != [] {
      MatchingIsDistinct(s[1..], prefix);
      assert s[0] !in s[1..];
    }
  }

  /** Lists the matching ids of the store in ascending order. */
  ghost predicate Lists(ids: seq<string>, m: Entries, prefix: string) {
    Ascending(ids) && forall id :: id in ids <==> id in m && Matches(id, prefix)
  }

  // ----- Reading -------------------------------------------------------------------------------------------

  /** An absent or empty bound does not filter. */
  predicate InWindow(env: Envelope, from: string, to: string) {
    (from == "" || Lex.Le(from, env.ts)) && (to == "" || Lex.Le(env.ts, to))
  }

  /** The entries at the given ascending ids that lie in the window, newest first. */
  function Newest(m: Entries, ids: seq<string>, from: string, to: string): seq<Envelope>
    requires forall id :: id in ids ==> id in m
  {
    if ids == [] then []
    else
      var last := m[ids[|ids| - 1]];
      (if InWindow(last, from, to) then [last] else []) + Newest(m, ids[..|ids| - 1], from, to)
  }

  /** The first `limit` entries; zero is no limit, and one entry is always let through. */
  function Limited(s: seq<Envelope>, limit: int): seq<Envelope> {
    if limit == 0 || |s| <= limit || s == [] then s
    else if limit < 0 then s[..1]
    else s[..limit]
  }

  lemma NewestStep(m: Entries, ids: seq<string>, n: nat, from: string, to: string)
    requires n < |ids|
    requires forall id :: id in ids ==> id in m
    ensures ids[n] in m
    ensures Newest(m, ids[..n + 1], from, to)
         == (if InWindow(m[ids[n]], from, to) then [m[ids[n]]] else []) + Newest(m, ids[..n], from, to)
  {
    assert ids[..n + 1][..n] == ids[..n] && ids[n] in ids;
  }

  /** One turn of the loop that reads from the last id to the first. */
  lemma ReadStep(m: Entries, ids: seq<string>, n: nat, from: string, to: string, h: seq<Envelope>, all: seq<Envelope>)
    requires n < |ids|
    requires forall id :: id in ids ==> id in m
    requires h + Newest(m, ids[..n + 1], from, to) == all
    ensures ids[n] in m
    ensures (if InWindow(m[ids[n]], from, to) then h + [m[ids[n]]] else h) + Newest(m, ids[..n], from, to) == all
  {
    NewestStep(m, ids, n, from, to);
    var rest := Newest(m, ids[..n], from, to);
    assert [] + rest == rest;
    assert h + ([m[ids[n]]] + rest) == (h + [m[ids[n]]]) + rest;
  }

  lemma {:induction false} NewestWithin(m: Entries, ids: seq<string>, from: string, to: string)
    requires forall id :: id in ids ==> id in m
    ensures forall e :: e in Newest(m, ids, from, to) ==> (from != "" ==> !Lex.Lt(e.ts, from)) && (to != "" ==> !Lex.Lt(to, e.ts))
  {
    if ids != [] {
      var last := m[ids[|ids| - 1]];
      NewestWithin(m, ids[..|ids| - 1], from, to);
      NotLtIsLe(last.ts, from);
      NotLtIsLe(to, last.ts);
    }
  }

  lemma OnlyListing(m: Entries, ids: seq<string>, prefix: string)
    requires Lists(ids, m, prefix)
    ensures forall ids' :: Lists(ids', m, prefix) ==> ids' == ids
  {
    forall ids' | Lists(ids', m, prefix) ensures ids' == ids { OneAscendingListing(ids', ids); }
  }

  // ----- Pruning -------------------------------------------------------------------------------------------

  /** How many of `n` ids are too many when `keep` are to stay; `None` keeps all. */
  function Surplus(n: nat, keep: Option<int>): (k: nat)
    ensures k <= n
  {
    if keep.None? || n <= keep.value then 0
    else if keep.value < 0 then n
    else n - keep.value
  }

  predicate Outdated(env: Envelope, beforeDate: string) {
    beforeDate != "" && Lex.Lt(env.ts, beforeDate)
  }

  /** What pruning deletes, given the matching ids in ascending order. */
  function Pruned(m: Entries, ids: seq<string>, keep: Option<int>, beforeDate: string): set<string>
    requires forall id :: id in ids ==> id in m
  {
    (set i | 0 <= i < |ids| && (i < Surplus(|ids|, keep) || Outdated(m[ids[i]], beforeDate)) :: ids[i])
  }

  lemma NotLtIsLe(a: string, b: string)
    ensures !Lex.Lt(a, b) <==> Lex.Le(b, a)
  {
    Lex.Total(a, b);
    if Lex.Le(a, b) && Lex.Le(b, a) { Lex.Antisymmetric(a, b); }
    Lex.Reflexive(a);
  }

  /** The ids pruning leaves, in order. */
  function Kept(m: Entries, ids: seq<string>, beforeDate: string): (r: seq<string>)
    requires forall id :: id in ids ==> id in m
    ensures forall id :: id in r <==> id in ids && !Outdated(m[id], beforeDate)
  {
    if ids == [] then []
    else
      var n := |ids| - 1;
      assert ids == ids[..n] + [ids[n]];
      Kept(m, ids[..n], beforeDate) + (if Outdated(m[ids[n]], beforeDate) then [] else [ids[n]])
  }

  lemma {:induction false} KeptAscends(m: Entries, ids: seq<string>, beforeDate: string)
    requires forall id :: id in ids ==> id in m
    requires Ascending(ids)
    ensures Ascending(Kept(m, ids, beforeDate))
  {
    if ids != [] {
      var n := |ids| - 1;
      KeptAscends(m, ids[..n], beforeDate);
      var rest := Kept(m, ids[..n], beforeDate);
      forall j | 0 <= j < |rest| ensures Lex.Lt(rest[j], ids[n]) {
        assert rest[j] in ids[..n];
        var i :| 0 <= i < n && ids[i] == rest[j];
      }
    }
  }

  lemma WindowFrom(env: Envelope, beforeDate: string)
    ensures InWindow(env, beforeDate, "") <==> !Outdated(env, beforeDate)
    ensures InWindow(env, "", "")
  {
    NotLtIsLe(env.ts, beforeDate);
  }

  lemma NewestLast(m: Entries, init: seq<string>, ids: seq<string>, from: string, to: string)
    requires ids != [] && init == ids[..|ids| - 1] && forall x :: x in ids ==> x in m
    ensures Newest(m, ids, from, to) ==
      (if InWindow(m[ids[|ids| - 1]], from, to) then [m[ids[|ids| - 1]]] else []) + Newest(m, init, from, to)
  {
  }

  lemma KeptLast(m: Entries, init: seq<string>, ids: seq<string>, beforeDate: string)
    requires ids != [] && init == ids[..|ids| - 1] && forall x :: x in ids ==> x in m
    ensures var kept, rest := Kept(m, ids, beforeDate), Kept(m, init, beforeDate);
      if Outdated(m[ids[|ids| - 1]], beforeDate) then kept == rest
      else kept != [] && kept[..|kept| - 1] == rest && kept[|kept| - 1] == ids[|ids| - 1]
  {
  }

  /** Reading everything that pruning by date leaves is reading from that date on. */
  lemma {:induction false} NewestOfKept(m: Entries, m': Entries, ids: seq<string>, beforeDate: string)
    requires forall id :: id in ids ==> id in m
    requires forall id :: id in ids && !Outdated(m[id], beforeDate) ==> id in m' && m'[id] == m[id]
    ensures Newest(m', Kept(m, ids, beforeDate), "", "") == Newest(m, ids, beforeDate, "")
  {
    if ids != [] {
      var init, last := ids[..|ids| - 1], ids[|ids| - 1];
      NewestOfKept(m, m', init, beforeDate);
      NewestLast(m, init, ids, beforeDate, "");
      KeptLast(m, init, ids, beforeDate);
      WindowFrom(m[last], beforeDate);
      if !Outdated(m[last], beforeDate) {
        NewestLast(m', Kept(m, init, beforeDate), Kept(m, ids, beforeDate), "", "");
      }
    }
  }

  /** The newest entries are the beginning of all entries. */
  lemma {:induction false} NewestOfSuffix(m: Entries, ids: seq<string>, k: nat)
    requires k <= |ids|
    requires forall id :: id in ids ==> id in m
    ensures |Newest(m, ids, "", "")| == |ids|
    ensures Newest(m, ids[k..], "", "") == Newest(m, ids, "", "")[..|ids| - k]
    decreases |ids|
  {
    if ids != [] {
      var n := |ids| - 1;
      var init := ids[..n];
      if k <= n {
        NewestOfSuffix(m, init, k);
        assert ids[k..][..n - k] == init[k..];
        assert ids[k..][n - k] == ids[n];
      } else {
        NewestOfSuffix(m, init, n);
        assert ids[k..] == [];
      }
    }
  }

  lemma SuffixMembers(ids: seq<string>, k: nat, i: nat)
    requires Ascending(ids) && k <= |ids| && i < |ids|
    ensures ids[i] in ids[k..] <==> i >= k
  {
    if i >= k { assert ids[k..][i - k] == ids[i]; }
  }

  lemma PrunedMembers(m: Entries, ids: seq<string>, keep: Option<int>, beforeDate: string, i: nat)
    requires Ascending(ids) && i < |ids|
    requires forall id :: id in ids ==> id in m
    ensures ids[i] in Pruned(m, ids, keep, beforeDate) <==> i < Surplus(|ids|, keep) || Outdated(m[ids[i]], beforeDate)
  {
  }

  /** After pruning, the matching ids are the young ones among those that were to be kept. */
  lemma PruneLeaves(m: Entries, ids: seq<string>, prefix: string, keep: Option<int>, beforeDate: string, kept: seq<string>)
    requires Lists(ids, m, prefix)
    requires kept == Kept(m, ids[Surplus(|ids|, keep)..], beforeDate)
    ensures Lists(kept, m - Pruned(m, ids, keep, beforeDate), prefix)
  {
    var k := Surplus(|ids|, keep);
    KeptAscends(m, ids[k..], beforeDate);
    forall id | id in m && Matches(id, prefix)
      ensures id in kept <==> id !in Pruned(m, ids, keep, beforeDate)
    {
      assert id in ids;
      var i :| 0 <= i < |ids| && ids[i] == id;
      SuffixMembers(ids, k, i);
      PrunedMembers(m, ids, keep, beforeDate, i);
    }
  }

  /** Reading everything after a prune gives what reading the versions to keep from the date on gave
      before it. */
  lemma PruneThenRead(m: Entries, ids: seq<string>, prefix: string, keep: Option<int>, beforeDate: string,
                      m': Entries, ids': seq<string>)
    requires Lists(ids, m, prefix)
    requires m' == m - Pruned(m, ids, keep, beforeDate) && Lists(ids', m', prefix)
    ensures (forall id :: id in ids[Surplus(|ids|, keep)..] ==> id in m)
            && Newest(m', ids', "", "") == Newest(m, ids[Surplus(|ids|, keep)..], beforeDate, "")
  {
    var young := ids[Surplus(|ids|, keep)..];
    assert forall id :: id in young ==> id in ids;
    var kept := Kept(m, young, beforeDate);
    PruneLeaves(m, ids, prefix, keep, beforeDate, kept);
    OneAscendingListing(kept, ids');
    NewestOfKept(m, m', young, beforeDate);
  }

  /** With a date only, that is reading from the date on; with a number of versions only, it is
      reading with that limit. */
  lemma PruneIsLimit(m: Entries, ids: seq<string>, prefix: string, keep: Option<int>, beforeDate: string,
                     m': Entries, ids': seq<string>)
    requires Lists(ids, m, prefix)
    requires m' == m - Pruned(m, ids, keep, beforeDate) && Lists(ids', m', prefix)
    ensures keep.None? ==> Newest(m', ids', "", "") == Newest(m, ids, beforeDate, "")
    ensures keep.Some? && keep.value > 0 && beforeDate == "" ==>
              Newest(m', ids', "", "") == Limited(Newest(m, ids, "", ""), keep.value)
    ensures keep.Some? && keep.value <= 0 ==> Newest(m', ids', "", "") == []
  {
    PruneThenRead(m, ids, prefix, keep, beforeDate, m', ids');
    NewestOfSuffix(m, ids, Surplus(|ids|, keep));
  }

  /** Pruning a record to nothing deletes exactly the entries its prefix selects, other records' and
      other collections' among them. */
  lemma PruneTakesExactly(m: Entries, ids: seq<string>, c: string, recordId: Option<string>, c': string, r': string, version: nat)
    requires Lists(ids, m, Prefix(c, recordId)) && HistoryId(c', r', version) in m
    ensures HistoryId(c', r', version) in Pruned(m, ids, Some(0), "") <==> Prefix(c, recordId) <= RecordPart(c', r')
  {
    var id := HistoryId(c', r', version);
    PrefixSelectsExactly(c, recordId, c', r', version);
    if id in ids {
      var i :| 0 <= i < |ids| && ids[i] == id;
      PrunedMembers(m, ids, Some(0), "", i);
    }
  }

  // ----- What the ids mean ---------------------------------------------------------------------------------

  /** Which collection and record an entry was saved for. */
  datatype Owner = Owner(collection: string, recordId: string)

  /** Joined, as they stand in the id. */
  function PartOf(o: Owner): string {
    RecordPart(o.collection, o.recordId)
  }

  /** Each entry was saved for its owner, under its own version, which fits the padding. Names may hold
      anything. */
  ghost predicate SavedBy(m: Entries, owners: map<string, Owner>) {
    && owners.Keys == m.Keys
    && forall id :: id in m ==>
         0 <= m[id].v < 10_000_000_000 && id == HistoryId(owners[id].collection, owners[id].recordId, m[id].v)
  }

  /** No entry was saved for anyone else whose joined names begin with those of `o`. */
  ghost predicate Alone(owners: map<string, Owner>, o: Owner) {
    forall id :: id in owners && PartOf(o) <= PartOf(owners[id]) ==> owners[id] == o
  }

  ghost predicate Proper(name: string) {
    name != "" && COLON !in name
  }

  lemma OneSplit(c: string, x: string, c': string, x': string)
    requires COLON !in c && COLON !in c'
    requires c + [COLON] + x == c' + [COLON] + x'
    ensures c == c' && x == x'
  {
    FirstColonAt(c, x);
    FirstColonAt(c', x');
    var s := c + [COLON] + x;
    assert s[..|c|] == c && s[|c| + 1..] == x;
    assert s[..|c'|] == c' && s[|c'| + 1..] == x';
  }

  /** Among names without colons, an id matches a record's prefix only if it belongs to that record. */
  lemma PrefixIsOwnership(c: string, r: string, c': string, r': string)
    requires Proper(c) && Proper(r) && Proper(c') && Proper(r')
    requires RecordPart(c, r) <= RecordPart(c', r')
    ensures c == c' && r == r'
  {
    var part, p := RecordPart(c', r'), RecordPart(c, r);
    assert part == c' + [COLON] + (r' + [COLON]) && p == c + [COLON] + (r + [COLON]);
    var after := r + [COLON] + part[|p|..];
    assert part == p + part[|p|..] == c + [COLON] + after;
    OneSplit(c, after, c', r' + [COLON]);
    OneSplit(r, part[|p|..], r', "");
  }

  /** If all names are free of colons, every record is alone. */
  lemma ColonFreeIsAlone(owners: map<string, Owner>, o: Owner)
    requires Proper(o.collection) && Proper(o.recordId)
    requires forall id :: id in owners ==> Proper(owners[id].collection) && Proper(owners[id].recordId)
    ensures Alone(owners, o)
  {
    forall id | id in owners && PartOf(o) <= PartOf(owners[id])
      ensures owners[id] == o
    {
      PrefixIsOwnership(o.collection, o.recordId, owners[id].collection, owners[id].recordId);
    }
  }

  /** A record's prefix lists an entry exactly if the joined names of the record begin those of the
      entry's owner. */
  lemma ListedExactly(m: Entries, owners: map<string, Owner>, o: Owner, ids: seq<string>, id: string)
    requires SavedBy(m, owners) && o.recordId != "" && Lists(ids, m, Prefix(o.collection, Some(o.recordId))) && id in m
    ensures id in ids <==> PartOf(o) <= PartOf(owners[id])
  {
    PrefixSelectsExactly(o.collection, Some(o.recordId), owners[id].collection, owners[id].recordId, m[id].v);
  }

  /** Everything read as the history of a record was saved for it, exactly if the record is alone. */
  lemma HistoryIsOwnExactly(m: Entries, owners: map<string, Owner>, o: Owner, ids: seq<string>)
    requires SavedBy(m, owners) && o.recordId != "" && Lists(ids, m, Prefix(o.collection, Some(o.recordId)))
    ensures (forall id :: id in ids ==> owners[id] == o) <==> Alone(owners, o)
  {
    forall id | id in m
      ensures id in ids <==> PartOf(o) <= PartOf(owners[id])
    {
      ListedExactly(m, owners, o, ids, id);
    }
  }

  lemma LaterIdIsNewer(c: string, r: string, a: nat, b: nat)
    requires a < 10_000_000_000 && b < 10_000_000_000 && Lex.Lt(HistoryId(c, r, a), HistoryId(c, r, b))
    ensures a < b
  {
    if b < a {
      IdsSortByVersion(c, r, b, a);
      Lex.Antisymmetric(HistoryId(c, r, a), HistoryId(c, r, b));
    }
  }

  /** The entries of a record that is alone are listed by version. */
  lemma ListedByVersion(m: Entries, owners: map<string, Owner>, o: Owner, ids: seq<string>)
    requires SavedBy(m, owners) && o.recordId != "" && Alone(owners, o) && Lists(ids, m, Prefix(o.collection, Some(o.recordId)))
    ensures forall id :: id in ids ==> id in m && owners[id] == o
    ensures forall i, j :: 0 <= i < j < |ids| ==> m[ids[i]].v < m[ids[j]].v
  {
    HistoryIsOwnExactly(m, owners, o, ids);
    forall i, j | 0 <= i < j < |ids| ensures m[ids[i]].v < m[ids[j]].v {
      assert ids[i] in ids && ids[j] in ids;
      LaterIdIsNewer(o.collection, o.recordId, m[ids[i]].v, m[ids[j]].v);
    }
  }

  /** Versions in strictly descending order. */
  ghost predicate NewestFirst(h: seq<Envelope>) {
    forall i, j :: 0 <= i < j < |h| ==> h[i].v > h[j].v
  }

  lemma {:induction false} NewestMembers(m: Entries, ids: seq<string>, from: string, to: string, e: Envelope)
    requires forall id :: id in ids ==> id in m
    ensures e in Newest(m, ids, from, to) <==> InWindow(e, from, to) && exists id :: id in ids && m[id] == e
  {
    if ids != [] {
      var n := |ids| - 1;
      NewestMembers(m, ids[..n], from, to, e);
      assert forall id :: id in ids <==> id in ids[..n] || id == ids[n];
    }
  }

  lemma {:induction false} NewestBelow(m: Entries, ids: seq<string>, from: string, to: string, bound: int)
    requires forall id :: id in ids ==> id in m
    requires forall i :: 0 <= i < |ids| ==> m[ids[i]].v < bound
    ensures forall j :: 0 <= j < |Newest(m, ids, from, to)| ==> Newest(m, ids, from, to)[j].v < bound
  {
    if ids != [] { NewestBelow(m, ids[..|ids| - 1], from, to, bound); }
  }

  lemma {:induction false} NewestDescends(m: Entries, ids: seq<string>, from: string, to: string)
    requires forall id :: id in ids ==> id in m
    requires forall i, j :: 0 <= i < j < |ids| ==> m[ids[i]].v < m[ids[j]].v
    ensures NewestFirst(Newest(m, ids, from, to))
  {
    if ids != [] {
      var n := |ids| - 1;
      NewestDescends(m, ids[..n], from, to);
      NewestBelow(m, ids[..n], from, to, m[ids[n]].v);
    }
  }

  /** Reading the history of a record that is alone gives exactly the envelopes saved for it that are
      there and lie in the window, in descending order of version. */
  lemma HistoryIsNewestFirst(m: Entries, owners: map<string, Owner>, o: Owner, ids: seq<string>, from: string, to: string)
    requires SavedBy(m, owners) && o.recordId != "" && Alone(owners, o) && Lists(ids, m, Prefix(o.collection, Some(o.recordId)))
    ensures NewestFirst(Newest(m, ids, from, to))
    ensures forall e :: e in Newest(m, ids, from, to) <==>
              InWindow(e, from, to) && exists id :: id in m && owners[id] == o && m[id] == e
  {
    ListedByVersion(m, owners, o, ids);
    NewestDescends(m, ids, from, to);
    forall id | id in m && owners[id] == o
      ensures id in ids
    {
      ListedExactly(m, owners, o, ids, id);
    }
    forall e
      ensures e in Newest(m, ids, from, to) <==> InWindow(e, from, to) && exists id :: id in m && owners[id] == o && m[id] == e
    {
      NewestMembers(m, ids, from, to, e);
    }
  }

  /** In other words: nothing before `from` and nothing after `to`, the bounds themselves included, and of
      what was saved for the record everything else; an empty bound is none. */
  lemma HistoryReadsBetween(m: Entries, owners: map<string, Owner>, o: Owner, ids: seq<string>, from: string, to: string, e: Envelope)
    requires SavedBy(m, owners) && o.recordId != "" && Alone(owners, o) && Lists(ids, m, Prefix(o.collection, Some(o.recordId)))
    ensures e in Newest(m, ids, from, to) <==>
              && (exists id :: id in m && owners[id] == o && m[id] == e)
              && (from != "" ==> !Lex.Lt(e.ts, from)) && (to != "" ==> !Lex.Lt(to, e.ts))
  {
    HistoryIsNewestFirst(m, owners, o, ids, from, to);
    NotLtIsLe(e.ts, from);
    NotLtIsLe(to, e.ts);
  }

  /** Reading up to a date and reading from it on divide the entries; those exactly at it are in both. */
  lemma WindowsSplit(m: Entries, ids: seq<string>, date: string, e: Envelope)
    requires date != "" && (forall id :: id in ids ==> id in m) && e in Newest(m, ids, "", "")
    ensures e in Newest(m, ids, "", date) || e in Newest(m, ids, date, "")
    ensures e in Newest(m, ids, "", date) && e in Newest(m, ids, date, "") <==> e.ts == date
    ensures e in Newest(m, ids, "", date) <==> Lex.Le(e.ts, date)
  {
    NewestMembers(m, ids, "", "", e);
    NewestMembers(m, ids, "", date, e);
    NewestMembers(m, ids, date, "", e);
    Lex.Total(e.ts, date);
    Lex.Reflexive(date);
    if Lex.Le(e.ts, date) && Lex.Le(date, e.ts) { Lex.Antisymmetric(e.ts, date); }
  }

  /** What a prune by date deletes is strictly before the date, and it deletes all of that. */
  lemma PrunedIsBefore(m: Entries, ids: seq<string>, date: string, id: string)
    requires (forall x :: x in ids ==> x in m) && id in ids && Ascending(ids)
    ensures id in Pruned(m, ids, None, date) <==> date != "" && Lex.Lt(m[id].ts, date)
  {
    var i :| 0 <= i < |ids| && ids[i] == id;
    PrunedMembers(m, ids, None, date, i);
  }

  // ----- Runs of saves -------------------------------------------------------------------------------------

  /** One call of `saveHistory`; the version is that of the envelope. */
  datatype Save = Save(owner: Owner, version: nat, env: Envelope)

  function SaveId(s: Save): string {
    HistoryId(s.owner.collection, s.owner.recordId, s.version)
  }

  /** The entries after a run of saves. */
  function AllSaved(saves: seq<Save>): Entries {
    if saves == [] then map[] else AllSaved(saves[..|saves| - 1])[SaveId(saves[|saves| - 1]) := saves[|saves| - 1].env]
  }

  /** What was last saved for the owner as this version. */
  function LastSaved(saves: seq<Save>, o: Owner, version: nat): Option<Envelope> {
    if saves == [] then None
    else
      var s := saves[|saves| - 1];
      if s.owner == o && s.version == version then Some(s.env) else LastSaved(saves[..|saves| - 1], o, version)
  }

  /** A version is kept under any saves in which no one else has the same joined names. */
  lemma {:induction false} SavesAreKept(saves: seq<Save>, o: Owner, version: nat)
    requires forall s :: s in saves && PartOf(s.owner) == PartOf(o) ==> s.owner == o
    ensures Lookup(AllSaved(saves), HistoryId(o.collection, o.recordId, version)) == LastSaved(saves, o, version)
  {
    if saves != [] {
      var n := |saves| - 1;
      var s := saves[n];
      assert s in saves && forall x :: x in saves[..n] ==> x in saves;
      SavesAreKept(saves[..n], o, version);
      SameIdExactly(s.owner.collection, s.owner.recordId, s.version, o.collection, o.recordId, version);
    }
  }

  /** No save for another record can ever replace or feign a version of this one, exactly if neither its
      collection nor its id has a colon. */
  lemma VersionsAreKeptExactly(o: Owner)
    ensures (forall saves, version: nat ::
               Lookup(AllSaved(saves), HistoryId(o.collection, o.recordId, version)) == LastSaved(saves, o, version))
            <==> COLON !in o.collection && COLON !in o.recordId
  {
    if COLON in o.collection || COLON in o.recordId {
      OtherOwnerShares(o.collection, o.recordId);
      var (c', r') := OtherOwner(o.collection, o.recordId);
      var s := Save(Owner(c', r'), 0, Envelope(0, "", ""));
      SameIdExactly(c', r', 0, o.collection, o.recordId, 0);
      OneSave(s, o);
    } else {
      forall saves: seq<Save>, version: nat
        ensures Lookup(AllSaved(saves), HistoryId(o.collection, o.recordId, version)) == LastSaved(saves, o, version)
      {
        forall s | s in saves && PartOf(s.owner) == PartOf(o)
          ensures s.owner == o
        {
          OneOwner(o.collection, o.recordId, s.owner.collection, s.owner.recordId);
        }
        SavesAreKept(saves, o, version);
      }
    }
  }

  lemma OneSave(s: Save, o: Owner)
    requires s.owner != o
    ensures SaveId(s) in AllSaved([s]) && LastSaved([s], o, s.version) == None
  {
    assert [s][..0] == [];
  }

  function SetOf(ids: seq<string>): set<string> {
    set id | id in ids
  }

  lemma SetOfStep(ids: seq<string>, n: nat)
    requires Distinct(ids) && n < |ids|
    ensures SetOf(ids[..n + 1]) == SetOf(ids[..n]) + {ids[n]} && ids[n] !in SetOf(ids[..n])
  {
    assert ids[..n + 1] == ids[..n] + [ids[n]];
  }

  // ----- The operations ------------------------------------------------------------------------------------

  class HistoryStore {
    var entries: Entries
    /** Which record each entry was last saved for. */
    ghost var owners: map<string, Owner>

    constructor ()
      ensures entries == map[] && SavedBy(entries, owners)
    {
      entries, owners := map[], map[];
    }

    /** `adapter.list`: the ids, in whatever order the store has them. */
    method List() returns (ids: seq<string>)
      ensures Distinct(ids) && forall id :: id in ids <==> id in entries
    {
      ids := [];
      var rest := entries.Keys;
      while rest != {}
        invariant rest <= entries.Keys && Distinct(ids)
        invariant forall id :: id in ids <==> id in entries && id !in rest
      {
        var id :| id in rest;
        ids, rest := ids + [id], rest - {id};
      }
    }

    method SortedMatching(prefix: string) returns (ids: seq<string>)
      ensures Lists(ids, entries, prefix)
    {
      var all := List();
      MatchingIsDistinct(all, prefix);
      SortAscends(Matching(all, prefix));
      ids := Sort(Matching(all, prefix));
    }

    method Save(o: Owner, env: Envelope)
      requires env.v >= 0
      modifies this
      ensures var id := HistoryId(o.collection, o.recordId, env.v);
        entries == old(entries)[id := env] && owners == old(owners)[id := o]
      ensures old(SavedBy(entries, owners)) && env.v < 10_000_000_000 ==> SavedBy(entries, owners)
    {
      var id := HistoryId(o.collection, o.recordId, env.v);
      entries, owners := entries[id := env], owners[id := o];
    }

    method GetHistory(prefix: string, from: string, to: string, limit: int) returns (h: seq<Envelope>)
      ensures forall ids :: Lists(ids, entries, prefix) ==> h == Limited(Newest(entries, ids, from, to), limit)
      ensures forall e :: e in h ==> (from != "" ==> !Lex.Lt(e.ts, from)) && (to != "" ==> !Lex.Lt(to, e.ts))
      ensures limit > 0 ==> |h| <= limit
    {
      var ids := SortedMatching(prefix);
      NewestWithin(entries, ids, from, to);
      h := ReadNewest(ids, from, to, limit);
      OnlyListing(entries, ids, prefix);
    }

    /** The loop over the ids, from the last to the first. */
    method ReadNewest(ids: seq<string>, from: string, to: string, limit: int) returns (h: seq<Envelope>)
      requires forall id :: id in ids ==> id in entries
      ensures h == Limited(Newest(entries, ids, from, to), limit)
    {
      h := [];
      var n := |ids|;
      ghost var all := Newest(entries, ids, from, to);
      assert ids[..n] == ids;
      while n > 0
        invariant 0 <= n <= |ids|
        invariant h + Newest(entries, ids[..n], from, to) == all
        invariant limit != 0 && |h| > 0 ==> |h| < limit
      {
        n := n - 1;
        ReadStep(entries, ids, n, from, to, h, all);
        var env := entries[ids[n]];
        if !InWindow(env, from, to) { continue; }
        h := h + [env];
        if limit != 0 && |h| >= limit { break; }
      }
      LimitedTo(h, all, limit);
    }

    /** Deletes from the matching entries those beyond the newest `keep`, and those before the date. */
    method Prune(prefix: string, keep: Option<int>, beforeDate: string) returns (count: nat)
      modifies this
      ensures forall ids :: Lists(ids, old(entries), prefix) ==>
                entries == old(entries) - Pruned(old(entries), ids, keep, beforeDate)
                && count == |Pruned(old(entries), ids, keep, beforeDate)|
      ensures owners == map id | id in old(owners) && id in entries :: old(owners)[id]
      ensures old(SavedBy(entries, owners)) ==> SavedBy(entries, owners)
    {
      var ids := SortedMatching(prefix);
      var toDelete := Doomed(ids, keep, beforeDate);
      count := DeleteAll(toDelete);
      owners := map id | id in owners && id in entries :: owners[id];
      OnlyListing(old(entries), ids, prefix);
    }

    /** What to delete: the surplus first, then what else is outdated. */
    method Doomed(ids: seq<string>, keep: Option<int>, beforeDate: string) returns (toDelete: seq<string>)
      requires Ascending(ids) && forall id :: id in ids ==> id in entries
      ensures Distinct(toDelete) && SetOf(toDelete) == Pruned(entries, ids, keep, beforeDate)
    {
      var k := Surplus(|ids|, keep);
      toDelete := ids[..k];
      var i := 0;
      while i < |ids|
        invariant i <= |ids| && k <= |toDelete| && Distinct(toDelete)
        invariant forall id :: id in toDelete <==>
          exists j :: 0 <= j < |ids| && ids[j] == id && (j < k || (j < i && Outdated(entries[id], beforeDate)))
      {
        if ids[i] !in toDelete && Outdated(entries[ids[i]], beforeDate) {
          toDelete := toDelete + [ids[i]];
        }
        i := i + 1;
      }
    }

    method DeleteAll(ids: seq<string>) returns (count: nat)
      requires Distinct(ids)
      modifies this`entries
      ensures entries == old(entries) - SetOf(ids)
      ensures count == |ids| == |SetOf(ids)|
    {
      count := 0;
      while count < |ids|
        invariant count <= |ids|
        invariant entries == old(entries) - SetOf(ids[..count])
        invariant |SetOf(ids[..count])| == count
      {
        entries := entries - {ids[count]};
        SetOfStep(ids, count);
        count := count + 1;
      }
      assert ids[..count] == ids;
    }
  }

  lemma LimitedTo(h: seq<Envelope>, all: seq<Envelope>, limit: int)
    requires h <= all && (h == all || (limit != 0 && h != [] && |h| >= limit))
    requires limit != 0 && |h| > 1 ==> |h| <= limit
    ensures h == Limited(all, limit)
  {
  }
}
