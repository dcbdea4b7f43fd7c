/** `sorted(reduced, key=lambda x: x[1], reverse=True)`: a stable sort of (key, count)
    pairs by count, largest first. Python documents that `reverse=True` keeps the sort
    stable, so pairs with equal counts stay in their input order. */
module Ranking {

  /** Counts never increase from left to right. */
  predicate NonIncreasing<K>(s: seq<(K, int)>) {
    forall i, j :: 0 <= i < j < |s| ==> s[i].1 >= s[j].1
  }

  /** Places `x` in front of the first entry whose count is not larger than its own. */
  function Insert<K>(x: (K, int), sorted: seq<(K, int)>): (r: seq<(K, int)>)
    ensures multiset(r) == multiset(sorted) + multiset{x}
  {
    if sorted == [] || sorted[0].1 <= x.1 then [x] + sorted
    else
      assert sorted == [sorted[0]] + sorted[1..];
      [sorted[0]] + Insert(x, sorted[1..])
  }

  /** Insertion sort by count, largest first: the rearrangement Python's stable sort
      with `reverse=True` produces. */
  function SortByCount<K>(s: seq<(K, int)>): (r: seq<(K, int)>)
    ensures multiset(r) == multiset(s)
    ensures |r| == |s|
  {
    if s == [] then []
    else
      assert s == [s[0]] + s[1..];
      Insert(s[0], SortByCount(s[1..]))
  }

  lemma {:induction false} InsertNonIncreasing<K>(x: (K, int), sorted: seq<(K, int)>)
    requires NonIncreasing(sorted)
    ensures NonIncreasing(Insert(x, sorted))
    decreases |sorted|
  {
    if sorted != [] && sorted[0].1 > x.1 {
      var rest := Insert(x, sorted[1..]);
      InsertNonIncreasing(x, sorted[1..]);
      forall j | 0 <= j < |rest|
        ensures sorted[0].1 >= rest[j].1
      {
        assert rest[j] in multiset(rest);
        if rest[j] != x {
          assert rest[j] in multiset(sorted[1..]);
          var k :| 0 <= k < |sorted[1..]| && sorted[1..][k] == rest[j];
          assert sorted[k + 1] == rest[j];
        }
      }
    }
  }

  /** The result is ordered by count, largest first. */
  lemma {:induction false} SortByCountNonIncreasing<K>(s: seq<(K, int)>)
    ensures NonIncreasing(SortByCount(s))
    decreases |s|
  {
    if s != [] {
      SortByCountNonIncreasing(s[1..]);
      InsertNonIncreasing(s[0], SortByCount(s[1..]));
    }
  }

  /** The entries of `s` whose count is `c`, in the order of `s`. */
  function WithCount<K>(s: seq<(K, int)>, c: int): seq<(K, int)> {
    if s == [] then [] else (if s[0].1 == c then [s[0]] else []) + WithCount(s[1..], c)
  }

  lemma {:induction false} WithCountMembers<K>(s: seq<(K, int)>, c: int)
    ensures forall i :: 0 <= i < |WithCount(s, c)| ==> WithCount(s, c)[i].1 == c && WithCount(s, c)[i] in s
    ensures forall i :: 0 <= i < |s| && s[i].1 == c ==> s[i] in WithCount(s, c)
    decreases |s|
  {
    if s != [] {
      WithCountMembers(s[1..], c);
      assert s == [s[0]] + s[1..];
      forall i | 1 <= i < |s| && s[i].1 == c
        ensures s[i] in WithCount(s, c)
      {
        assert s[i] == s[1..][i - 1];
      }
    }
  }

  lemma {:induction false} InsertWithCount<K>(x: (K, int), sorted: seq<(K, int)>, c: int)
    ensures WithCount(Insert(x, sorted), c) == (if x.1 == c then [x] else []) + WithCount(sorted, c)
    decreases |sorted|
  {
    if sorted == [] || sorted[0].1 <= x.1 {
      assert ([x] + sorted)[1..] == sorted;
    } else {
      var rest := Insert(x, sorted[1..]);
      InsertWithCount(x, sorted[1..], c);
      assert ([sorted[0]] + rest)[1..] == rest;
    }
  }

  /** Stability: for every count, the entries with that count appear in the result in
      exactly the order they had in the input. */
  lemma {:induction false} SortByCountStable<K>(s: seq<(K, int)>, c: int)
    ensures WithCount(SortByCount(s), c) == WithCount(s, c)
    decreases |s|
  {
    if s != [] {
      SortByCountStable(s[1..], c);
      InsertWithCount(s[0], SortByCount(s[1..]), c);
    }
  }

  /** Sequences that agree on the entries of every count are empty together. */
  lemma EmptyTogether<K>(t: seq<(K, int)>, u: seq<(K, int)>)
    requires forall c :: WithCount(t, c) == WithCount(u, c)
    ensures t == [] <==> u == []
  {
    WithCountMembers(t, if t == [] then 0 else t[0].1);
    WithCountMembers(u, if u == [] then 0 else u[0].1);
  }

  /** The first entry of `t` occurs in `u` when both hold the same entries of its count,
      so a count-ordered `u` starts with a count at least as large. */
  lemma HeadCountBound<K>(t: seq<(K, int)>, u: seq<(K, int)>)
    requires NonIncreasing(u)
    requires t != [] && WithCount(t, t[0].1) == WithCount(u, t[0].1)
    ensures u != [] && u[0].1 >= t[0].1
  {
    var c := t[0].1;
    WithCountMembers(u, c);
    assert WithCount(t, c)[0] == t[0];
    var p :| 0 <= p < |u| && u[p] == t[0];
  }

  /** Two count-ordered sequences that agree on the entries of every count start with the
      same entry: the first entry of the largest count. */
  lemma SameHead<K>(t: seq<(K, int)>, u: seq<(K, int)>)
    requires NonIncreasing(t) && NonIncreasing(u)
    requires forall c :: WithCount(t, c) == WithCount(u, c)
    requires t != [] && u != []
    ensures t[0] == u[0]
  {
    HeadCountBound(t, u);
    HeadCountBound(u, t);
    var c := t[0].1;
    assert WithCount(t, c)[0] == t[0];
    assert WithCount(u, c)[0] == u[0];
  }

  /** Removing the same first entry keeps two sequences in agreement on every count. */
  lemma WithCountTail<K>(t: seq<(K, int)>, u: seq<(K, int)>)
    requires t != [] && u != [] && t[0] == u[0]
    requires forall c :: WithCount(t, c) == WithCount(u, c)
    ensures forall c :: WithCount(t[1..], c) == WithCount(u[1..], c)
  {
    forall c ensures WithCount(t[1..], c) == WithCount(u[1..], c) {
      var head := if t[0].1 == c then [t[0]] else [];
      assert WithCount(t, c) == head + WithCount(t[1..], c);
      assert WithCount(u, c) == head + WithCount(u[1..], c);
      assert WithCount(t[1..], c) == (head + WithCount(t[1..], c))[|head|..];
      assert WithCount(u[1..], c) == (head + WithCount(u[1..], c))[|head|..];
    }
  }

  /** A stable descending sort is determined by its input: two sequences ordered by
      count that agree, for every count, on the entries with that count are equal. */
  lemma {:induction false} StableOrderUnique<K>(t: seq<(K, int)>, u: seq<(K, int)>)
    requires NonIncreasing(t) && NonIncreasing(u)
    requires forall c :: WithCount(t, c) == WithCount(u, c)
    ensures t == u
    decreases |t|
  {
    EmptyTogether(t, u);
    if t != [] {
      SameHead(t, u);
      WithCountTail(t, u);
      StableOrderUnique(t[1..], u[1..]);
      assert t == [t[0]] + t[1..] && u == [u[0]] + u[1..];
    }
  }

  /** `SortByCount` is Python's stable descending sort: any rearrangement ordered by count
      that keeps the input order among equal counts is exactly `SortByCount(s)`. */
  lemma SortByCountIsStableSort<K>(s: seq<(K, int)>, t: seq<(K, int)>)
    requires NonIncreasing(t)
    requires forall c :: WithCount(t, c) == WithCount(s, c)
    ensures t == SortByCount(s)
  {
    SortByCountNonIncreasing(s);
    forall c ensures WithCount(t, c) == WithCount(SortByCount(s), c) {
      SortByCountStable(s, c);
    }
    StableOrderUnique(t, SortByCount(s));
  }

  /** Ordered by count, largest first, and among equal counts by increasing `rank`. */
  ghost predicate RankedBy<K>(s: seq<(K, int)>, rank: K -> int) {
    forall i, j :: 0 <= i < j < |s| ==>
      s[i].1 > s[j].1 || (s[i].1 == s[j].1 && rank(s[i].0) < rank(s[j].0))
  }

  /** `x` may head a ranked sequence when it ranks before every entry of it. */
  lemma RankedCons<K>(x: (K, int), t: seq<(K, int)>, rank: K -> int)
    requires RankedBy(t, rank)
    requires forall j :: 0 <= j < |t| ==> x.1 > t[j].1 || (x.1 == t[j].1 && rank(x.0) < rank(t[j].0))
    ensures RankedBy([x] + t, rank)
  {
    var r := [x] + t;
    forall i, j | 0 <= i < j < |r|
      ensures r[i].1 > r[j].1 || (r[i].1 == r[j].1 && rank(r[i].0) < rank(r[j].0))
    {
      assert r[j] == t[j - 1];
      if i > 0 {
        assert r[i] == t[i - 1];
      }
    }
  }

  lemma {:induction false} InsertRanked<K>(x: (K, int), sorted: seq<(K, int)>, rank: K -> int)
    requires RankedBy(sorted, rank)
    requires forall y :: y in sorted ==> rank(x.0) < rank(y.0)
    ensures RankedBy(Insert(x, sorted), rank)
    decreases |sorted|
  {
    if sorted == [] || sorted[0].1 <= x.1 {
      forall j | 0 <= j < |sorted|
        ensures x.1 > sorted[j].1 || (x.1 == sorted[j].1 && rank(x.0) < rank(sorted[j].0))
      {
        assert sorted[j] in sorted;
      }
      RankedCons(x, sorted, rank);
    } else {
      var rest := Insert(x, sorted[1..]);
      InsertRanked(x, sorted[1..], rank);
      forall j | 0 <= j < |rest|
        ensures sorted[0].1 > rest[j].1 || (sorted[0].1 == rest[j].1 && rank(sorted[0].0) < rank(rest[j].0))
      {
        assert rest[j] in multiset(rest);
        if rest[j] != x {
          assert rest[j] in multiset(sorted[1..]);
          var k :| 0 <= k < |sorted[1..]| && sorted[1..][k] == rest[j];
          assert sorted[k + 1] == rest[j];
        }
      }
      RankedCons(sorted[0], rest, rank);
    }
  }

  /** When the input is in increasing `rank` order, ties in the sorted output are too. */
  lemma {:induction false} SortByCountRanked<K>(s: seq<(K, int)>, rank: K -> int)
    requires forall i, j :: 0 <= i < j < |s| ==> rank(s[i].0) < rank(s[j].0)
    ensures RankedBy(SortByCount(s), rank)
    decreases |s|
  {
    if s != [] {
      var sortedRest := SortByCount(s[1..]);
      SortByCountRanked(s[1..], rank);
      forall y | y in sortedRest
        ensures rank(s[0].0) < rank(y.0)
      {
        assert y in multiset(sortedRest);
        assert y in multiset(s[1..]);
        var k :| 0 <= k < |s[1..]| && s[1..][k] == y;
        assert s[k + 1] == y;
      }
      InsertRanked(s[0], sortedRest, rank);
    }
  }
}
