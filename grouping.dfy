/** `shuffle_function`: grouping (key, value) pairs into one list of values per key,
    keyed in the insertion order of a Python dict. */
module Grouping {

  /** The keys of a sequence of pairs, in order. */
  function Keys<K, X>(pairs: seq<(K, X)>): seq<K> {
    seq(|pairs|, i requires 0 <= i < |pairs| => pairs[i].0)
  }

  predicate NoDuplicates<K(==)>(s: seq<K>) {
    forall i, j :: 0 <= i < j < |s| ==> s[i] != s[j]
  }

  /** The elements of `s`, each once, in the order of their first occurrence: the order
      in which a dict that receives `s` one key at a time lists its keys. */
  function Dedup<K(==)>(s: seq<K>): (r: seq<K>)
    ensures NoDuplicates(r)
    ensures forall i :: 0 <= i < |r| ==> r[i] in s
    ensures forall i :: 0 <= i < |s| ==> s[i] in r
  {
    if s == [] then []
    else
      var prefix := Dedup(s[..|s| - 1]);
      assert s == s[..|s| - 1] + [s[|s| - 1]];
      if s[|s| - 1] in prefix then prefix else prefix + [s[|s| - 1]]
  }

  /** The position of the first occurrence of `k` in `s` (`s.index(k)`), or `|s|` when
      `k` does not occur. */
  function FirstIndex<K(==)>(s: seq<K>, k: K): (i: nat)
    ensures i <= |s|
    ensures i < |s| ==> s[i] == k
    ensures forall j :: 0 <= j < i ==> s[j] != k
  {
    if s == [] then 0 else if s[0] == k then 0 else 1 + FirstIndex(s[1..], k)
  }

  /** Appending an element moves no first occurrence; a new element is first seen at
      the end. */
  lemma FirstIndexAppend<K>(s: seq<K>, x: K, k: K)
    ensures k in s ==> FirstIndex(s + [x], k) == FirstIndex(s, k)
    ensures k !in s && k == x ==> FirstIndex(s + [x], k) == |s|
  {
    var j := FirstIndex(s, k);
    if k in s {
      var p :| 0 <= p < |s| && s[p] == k;
      assert (s + [x])[j] == k;
    } else if k == x {
      assert (s + [x])[|s|] == k;
    }
  }

  /** Keys come out of `Dedup` in the order of their first occurrence in the input. */
  lemma {:induction false} DedupFirstOccurrenceOrder<K>(s: seq<K>)
    ensures forall i, j :: 0 <= i < j < |Dedup(s)| ==> FirstIndex(s, Dedup(s)[i]) < FirstIndex(s, Dedup(s)[j])
    decreases |s|
  {
    if s != [] {
      var prefix, x := s[..|s| - 1], s[|s| - 1];
      assert s == prefix + [x];
      DedupFirstOccurrenceOrder(prefix);
      var d := Dedup(prefix);
      forall k | k in d
        ensures FirstIndex(s, k) == FirstIndex(prefix, k) < |prefix|
      {
        FirstIndexAppend(prefix, x, k);
        var p :| 0 <= p < |prefix| && prefix[p] == k;
      }
      if x !in d {
        FirstIndexAppend(prefix, x, x);
        assert Dedup(s) == d + [x];
      }
    }
  }

  /** A sequence without duplicates has as many distinct elements as entries. */
  lemma {:induction false} DistinctCardinality<K>(s: seq<K>)
    requires NoDuplicates(s)
    ensures |set k | k in s| == |s|
    decreases |s|
  {
    if s != [] {
      var prefix, x := s[..|s| - 1], s[|s| - 1];
      assert s == prefix + [x];
      DistinctCardinality(prefix);
      assert (set k | k in s) == (set k | k in prefix) + {x};
      assert x !in (set k | k in prefix);
    }
  }

  /** The values of the pairs whose key is `key`, in the order of `pairs`. */
  function ValuesOf<K(==), V>(pairs: seq<(K, V)>, key: K): seq<V> {
    if pairs == [] then []
    else
      var last := pairs[|pairs| - 1];
      ValuesOf(pairs[..|pairs| - 1], key) + (if last.0 == key then [last.1] else [])
  }

  /** A key has a non-empty list of values exactly when some pair carries it. */
  lemma {:induction false} ValuesOfPresent<K, V>(pairs: seq<(K, V)>, key: K)
    ensures ValuesOf(pairs, key) != [] <==> key in Keys(pairs)
    decreases |pairs|
  {
    if pairs != [] {
      var prefix := pairs[..|pairs| - 1];
      ValuesOfPresent(prefix, key);
      assert Keys(pairs) == Keys(prefix) + [pairs[|pairs| - 1].0];
    }
  }

  /** The grouped view of `pairs`: one entry per distinct key, in first-occurrence order,
      holding that key's values in input order. */
  function Group<K(==), V>(pairs: seq<(K, V)>): (groups: seq<(K, seq<V>)>)
    ensures NoDuplicates(Keys(groups))
    ensures forall i :: 0 <= i < |pairs| ==> pairs[i].0 in Keys(groups)
    ensures forall j :: 0 <= j < |groups| ==> groups[j].0 in Keys(pairs)
  {
    var keys := Dedup(Keys(pairs));
    var groups := seq(|keys|, j requires 0 <= j < |keys| => (keys[j], ValuesOf(pairs, keys[j])));
    assert Keys(groups) == keys;
    assert forall i :: 0 <= i < |pairs| ==> pairs[i].0 == Keys(pairs)[i];
    groups
  }

  /** The dict state after the pairs of `prefix` have been inserted: `order` is its key
      order and `lists` maps each key to its values so far. */
  ghost predicate Filled<K(!new), V>(prefix: seq<(K, V)>, order: seq<K>, lists: map<K, seq<V>>) {
    && order == Dedup(Keys(prefix))
    && (forall k :: k in lists <==> k in order)
    && (forall k :: k in lists ==> lists[k] == ValuesOf(prefix, k))
    && (forall k :: k !in lists ==> ValuesOf(prefix, k) == [])
  }

  /** One `defaultdict` append extends the key order exactly when the key is new. */
  lemma ShuffleOrderStep<K(!new), V>(prefix: seq<(K, V)>, x: (K, V), order: seq<K>, lists: map<K, seq<V>>)
    requires Filled(prefix, order, lists)
    ensures Dedup(Keys(prefix + [x])) == if x.0 in lists then order else order + [x.0]
  {
    KeysAppend(prefix, x);
    var s := Keys(prefix + [x]);
    assert s[..|s| - 1] == Keys(prefix);
    assert s[|s| - 1] == x.0;
  }

  /** One `defaultdict` append, seen from a single key `k`: its list stays in step with
      the values of the pairs inserted so far. */
  lemma ShuffleEntryStep<K, V>(prefix: seq<(K, V)>, x: (K, V), lists: map<K, seq<V>>, k: K)
    requires x.0 in lists ==> lists[x.0] == ValuesOf(prefix, x.0)
    requires x.0 !in lists ==> ValuesOf(prefix, x.0) == []
    requires k in lists ==> lists[k] == ValuesOf(prefix, k)
    requires k !in lists ==> ValuesOf(prefix, k) == []
    ensures var lists' := lists[x.0 := (if x.0 in lists then lists[x.0] else []) + [x.1]];
            && (k in lists' ==> lists'[k] == ValuesOf(prefix + [x], k))
            && (k !in lists' ==> ValuesOf(prefix + [x], k) == [])
  {
    ValuesOfAppend(prefix, x, k);
  }

  /** One step of the loop of `Shuffle` keeps the dict state in step with the pairs. */
  lemma ShuffleStep<K(!new), V>(prefix: seq<(K, V)>, x: (K, V), order: seq<K>, lists: map<K, seq<V>>)
    requires Filled(prefix, order, lists)
    ensures Filled(prefix + [x],
                   if x.0 in lists then order else order + [x.0],
                   lists[x.0 := (if x.0 in lists then lists[x.0] else []) + [x.1]])
  {
    var order' := if x.0 in lists then order else order + [x.0];
    var lists' := lists[x.0 := (if x.0 in lists then lists[x.0] else []) + [x.1]];
    ShuffleOrderStep(prefix, x, order, lists);
    forall k
      ensures k in lists' <==> k in order'
      ensures k in lists' ==> lists'[k] == ValuesOf(prefix + [x], k)
      ensures k !in lists' ==> ValuesOf(prefix + [x], k) == []
    {
      ShuffleEntryStep(prefix, x, lists, k);
    }
  }

  /** `shuffle_function`: a dict of lists, filled one pair at a time, whose key order is
      the order of first insertion; its `items()` are returned. */
  method Shuffle<K(==,!new), V>(pairs: seq<(K, V)>) returns (items: seq<(K, seq<V>)>)
    ensures items == Group(pairs)
  {
    var order: seq<K> := [];
    var lists: map<K, seq<V>> := map[];
    for i := 0 to |pairs|
      invariant Filled(pairs[..i], order, lists)
    {
      var (key, value) := pairs[i];
      assert pairs[..i + 1] == pairs[..i] + [pairs[i]];
      ShuffleStep(pairs[..i], pairs[i], order, lists);
      var current := if key in lists then lists[key] else [];
      if key !in lists {
        order := order + [key];
      }
      lists := lists[key := current + [value]];
    }
    assert pairs[..|pairs|] == pairs;
    items := seq(|order|, j requires 0 <= j < |order| => (order[j], lists[order[j]]));
  }

  /** Each distinct key is grouped exactly once, no other key appears, and every group
      is non-empty. */
  lemma GroupKeys<K, V>(pairs: seq<(K, V)>)
    ensures Keys(Group(pairs)) == Dedup(Keys(pairs))
    ensures NoDuplicates(Keys(Group(pairs)))
    ensures forall k :: k in Keys(Group(pairs)) <==> k in Keys(pairs)
    ensures forall j :: 0 <= j < |Group(pairs)| ==> Group(pairs)[j].1 != []
  {
    var groups := Group(pairs);
    forall j | 0 <= j < |groups|
      ensures groups[j].1 != []
    {
      ValuesOfPresent(pairs, groups[j].0);
    }
  }

  /** The number of values held by all groups together. */
  function TotalLength<K, V>(groups: seq<(K, seq<V>)>): nat {
    if groups == [] then 0 else TotalLength(groups[..|groups| - 1]) + |groups[|groups| - 1].1|
  }

  lemma {:induction false} TotalLengthUpdate<K, V>(groups: seq<(K, seq<V>)>, j: nat, g: (K, seq<V>))
    requires j < |groups|
    ensures TotalLength(groups[j := g]) == TotalLength(groups) - |groups[j].1| + |g.1|
    decreases |groups|
  {
    var n := |groups|;
    if j == n - 1 {
      assert groups[j := g][..n - 1] == groups[..n - 1];
    } else {
      assert groups[j := g][..n - 1] == groups[..n - 1][j := g];
      TotalLengthUpdate(groups[..n - 1], j, g);
    }
  }

  lemma ValuesOfAppend<K, V>(pairs: seq<(K, V)>, x: (K, V), k: K)
    ensures ValuesOf(pairs + [x], k) == ValuesOf(pairs, k) + (if x.0 == k then [x.1] else [])
  {
    assert (pairs + [x])[..|pairs|] == pairs;
  }

  lemma KeysAppend<K, V>(pairs: seq<(K, V)>, x: (K, V))
    ensures Keys(pairs + [x]) == Keys(pairs) + [x.0]
    ensures Keys(pairs + [x])[..|pairs|] == Keys(pairs)
  {
  }

  /** A pair whose key is already grouped extends that key's list and nothing else. */
  lemma GroupAppendSeen<K, V>(pairs: seq<(K, V)>, x: (K, V), j: nat)
    requires j < |Group(pairs)| && Group(pairs)[j].0 == x.0
    ensures Group(pairs + [x]) == Group(pairs)[j := (x.0, Group(pairs)[j].1 + [x.1])]
  {
    var d := Dedup(Keys(pairs));
    KeysAppend(pairs, x);
    assert Dedup(Keys(pairs + [x])) == d;
    forall i | 0 <= i < |d|
      ensures Group(pairs + [x])[i] == Group(pairs)[j := (x.0, Group(pairs)[j].1 + [x.1])][i]
    {
      ValuesOfAppend(pairs, x, d[i]);
      assert Group(pairs)[i] == (d[i], ValuesOf(pairs, d[i]));
      assert Group(pairs + [x])[i] == (d[i], ValuesOf(pairs + [x], d[i]));
      var updated := Group(pairs)[j := (x.0, Group(pairs)[j].1 + [x.1])];
      if i == j {
        assert updated[i] == (x.0, ValuesOf(pairs, d[i]) + [x.1]);
      } else {
        assert d[i] != x.0;
        assert updated[i] == Group(pairs)[i];
        assert ValuesOf(pairs + [x], d[i]) == ValuesOf(pairs, d[i]);
      }
    }
  }

  /** A pair with a new key opens a new group at the end. */
  lemma GroupAppendNew<K, V>(pairs: seq<(K, V)>, x: (K, V))
    requires x.0 !in Keys(pairs)
    ensures Group(pairs + [x]) == Group(pairs) + [(x.0, [x.1])]
  {
    var d := Dedup(Keys(pairs));
    KeysAppend(pairs, x);
    assert x.0 !in d;
    assert Dedup(Keys(pairs + [x])) == d + [x.0];
    ValuesOfPresent(pairs, x.0);
    forall i | 0 <= i < |d| + 1
      ensures Group(pairs + [x])[i] == (Group(pairs) + [(x.0, [x.1])])[i]
    {
      var k := (d + [x.0])[i];
      ValuesOfAppend(pairs, x, k);
      assert Group(pairs + [x])[i] == (k, ValuesOf(pairs + [x], k));
      if i < |d| {
        assert Group(pairs)[i] == (k, ValuesOf(pairs, k));
        assert k != x.0;
        assert ValuesOf(pairs + [x], k) == ValuesOf(pairs, k);
        assert (Group(pairs) + [(x.0, [x.1])])[i] == Group(pairs)[i];
      } else {
        assert k == x.0;
        assert ValuesOf(pairs, k) == [];
        assert ValuesOf(pairs + [x], k) == [x.1];
      }
    }
  }

  /** Grouping loses and invents no value: the lists together hold one value per pair. */
  lemma {:induction false} GroupTotal<K, V>(pairs: seq<(K, V)>)
    ensures TotalLength(Group(pairs)) == |pairs|
    decreases |pairs|
  {
    if pairs != [] {
      var prefix, x := pairs[..|pairs| - 1], pairs[|pairs| - 1];
      assert pairs == prefix + [x];
      GroupTotal(prefix);
      var before := Group(prefix);
      GroupKeys(prefix);
      if x.0 in Keys(prefix) {
        var j :| 0 <= j < |before| && Keys(before)[j] == x.0;
        GroupAppendSeen(prefix, x, j);
        TotalLengthUpdate(before, j, (x.0, before[j].1 + [x.1]));
      } else {
        GroupAppendNew(prefix, x);
        var g := (x.0, [x.1]);
        assert (before + [g])[..|before|] == before;
      }
    }
  }
}
