/** The word-frequency pipeline of `map_reduce`: map every token to `(word, 1)`, shuffle
    the pairs into per-word lists, reduce each list to its sum, sort by count (largest
    first, stable) and keep the first `top_n` entries. The thread pools of the original
    run `map_function` and `reduce_function` over independent inputs and return results
    in input order, so they are modelled as plain sequence maps. */
module WordCount {
  import opened Normalize
  import opened Grouping
  import opened Ranking

  /** `map_function`: one occurrence of a word, keyed by the word. */
  function MapFunction(word: string): (p: (string, int))
    ensures p.0 == word
    ensures p.1 == 1
  {
    (word, 1)
  }

  /** `list(executor.map(map_function, words))`. */
  function MapAll(words: seq<string>): (mapped: seq<(string, int)>)
    ensures |mapped| == |words|
    ensures Keys(mapped) == words
  {
    seq(|words|, i requires 0 <= i < |words| => MapFunction(words[i]))
  }

  /** Python's `sum`: a list of ones sums to its length, and non-negative values to a
      non-negative total. */
  function Sum(values: seq<int>): (t: int)
    ensures (forall i :: 0 <= i < |values| ==> values[i] == 1) ==> t == |values|
    ensures (forall i :: 0 <= i < |values| ==> values[i] >= 0) ==> t >= 0
  {
    if values == [] then 0 else Sum(values[..|values| - 1]) + values[|values| - 1]
  }

  /** `reduce_function`: a word with the sum of its grouped values, which for a list of
      occurrences is their number. */
  function ReduceFunction(group: (string, seq<int>)): (r: (string, int))
    ensures r.0 == group.0
    ensures (forall i :: 0 <= i < |group.1| ==> group.1[i] == 1) ==> r.1 == |group.1|
  {
    (group.0, Sum(group.1))
  }

  /** `list(executor.map(reduce_function, shuffled))`. */
  function ReduceAll(groups: seq<(string, seq<int>)>): (r: seq<(string, int)>)
    ensures |r| == |groups|
    ensures forall j :: 0 <= j < |r| ==> r[j].0 == groups[j].0
  {
    seq(|groups|, j requires 0 <= j < |groups| => ReduceFunction(groups[j]))
  }

  /** The reduced (word, count) list before sorting. */
  function CountWords(words: seq<string>): seq<(string, int)> {
    ReduceAll(Group(MapAll(words)))
  }

  /** The reduced list sorted by count, largest first. */
  function Ranked(words: seq<string>): seq<(string, int)> {
    SortByCount(CountWords(words))
  }

  function Min(a: int, b: int): int {
    if a < b then a else b
  }

  /** `sorted_word_counts[:top_n]` for a non-negative `top_n`: a prefix of the sorted
      list, at most `top_n` long, and the whole list when it is shorter. */
  function TopWords(words: seq<string>, topN: nat): (top: seq<(string, int)>)
    ensures top <= Ranked(words)
    ensures |top| <= topN
    ensures |top| < topN ==> top == Ranked(words)
  {
    Ranked(words)[..Min(topN, |Ranked(words)|)]
  }

  /** `map_reduce(text, top_n)`: the stages run one after the other, the shuffle as the
      dictionary-filling loop of `Shuffle`. */
  method MapReduce(text: string, topN: nat := 10) returns (top: seq<(string, int)>)
    ensures top == TopWords(Tokenize(text), topN)
  {
    var words := Tokenize(text);
    var mapped := MapAll(words);
    var shuffled := Shuffle(mapped);
    var reduced := ReduceAll(shuffled);
    var sorted := SortByCount(reduced);
    top := sorted[..Min(topN, |sorted|)];
  }

  /** `n` copies of the value 1. */
  function Ones(n: nat): seq<int> {
    seq(n, _ => 1)
  }

  /** After the shuffle, the list of a word holds one `1` per occurrence of the word. */
  lemma {:induction false} MappedValues(words: seq<string>, w: string)
    ensures ValuesOf(MapAll(words), w) == Ones(multiset(words)[w])
    decreases |words|
  {
    if words != [] {
      var prefix, x := words[..|words| - 1], words[|words| - 1];
      assert words == prefix + [x];
      MappedValues(prefix, w);
      assert MapAll(words) == MapAll(prefix) + [(x, 1)];
      ValuesOfAppend(MapAll(prefix), (x, 1), w);
      var n := multiset(prefix)[w];
      assert multiset(words)[w] == n + (if x == w then 1 else 0);
      if x == w {
        assert Ones(n) + [1] == Ones(n + 1);
      }
    }
  }

  /** The reduced entry at `j` counts the occurrences of its word. */
  lemma CountAt(words: seq<string>, j: nat)
    requires j < |CountWords(words)|
    ensures CountWords(words)[j].1 == multiset(words)[CountWords(words)[j].0]
  {
    var groups := Group(MapAll(words));
    var w := groups[j].0;
    assert CountWords(words)[j] == ReduceFunction(groups[j]);
    assert groups[j].1 == ValuesOf(MapAll(words), w);
    MappedValues(words, w);
  }

  /** Reduction: one entry per distinct word, in order of first occurrence, whose count is
      the number of occurrences of that word. */
  lemma CountsAreOccurrences(words: seq<string>)
    ensures Keys(CountWords(words)) == Dedup(words)
    ensures forall j :: 0 <= j < |CountWords(words)| ==>
              CountWords(words)[j].1 == multiset(words)[CountWords(words)[j].0]
  {
    var groups := Group(MapAll(words));
    assert Keys(CountWords(words)) == Keys(groups);
    GroupKeys(MapAll(words));
    forall j | 0 <= j < |CountWords(words)|
      ensures CountWords(words)[j].1 == multiset(words)[CountWords(words)[j].0]
    {
      CountAt(words, j);
    }
  }

  /** The number of distinct words is the number of reduced entries. */
  lemma DistinctWords(words: seq<string>)
    ensures |CountWords(words)| == |set w | w in words|
  {
    var d := Dedup(words);
    DistinctCardinality(d);
    assert (set w | w in d) == (set w | w in words);
  }

  /** The sum of the counts of a reduced list. */
  function TotalCount(counts: seq<(string, int)>): int {
    if counts == [] then 0 else TotalCount(counts[..|counts| - 1]) + counts[|counts| - 1].1
  }

  lemma {:induction false} ReduceTotal(groups: seq<(string, seq<int>)>)
    requires forall j :: 0 <= j < |groups| ==> Sum(groups[j].1) == |groups[j].1|
    ensures TotalCount(ReduceAll(groups)) == TotalLength(groups)
    decreases |groups|
  {
    if groups != [] {
      var n := |groups|;
      assert ReduceAll(groups)[..n - 1] == ReduceAll(groups[..n - 1]);
      ReduceTotal(groups[..n - 1]);
    }
  }

  /** Counts add up to the number of tokens. */
  lemma CountsSumToTokens(words: seq<string>)
    ensures TotalCount(CountWords(words)) == |words|
  {
    var groups := Group(MapAll(words));
    forall j | 0 <= j < |groups|
      ensures Sum(groups[j].1) == |groups[j].1|
    {
      MappedValues(words, groups[j].0);
    }
    ReduceTotal(groups);
    GroupTotal(MapAll(words));
  }

  /** Every entry of the sorted list is a word of the text with its number of
      occurrences. */
  lemma RankedEntries(words: seq<string>)
    ensures forall i :: 0 <= i < |Ranked(words)| ==>
              Ranked(words)[i].0 in words && Ranked(words)[i].1 == multiset(words)[Ranked(words)[i].0]
  {
    var counts := CountWords(words);
    var ranked := Ranked(words);
    CountsAreOccurrences(words);
    forall i | 0 <= i < |ranked|
      ensures ranked[i].0 in words && ranked[i].1 == multiset(words)[ranked[i].0]
    {
      assert ranked[i] in multiset(counts);
      var j :| 0 <= j < |counts| && counts[j] == ranked[i];
      assert Keys(counts)[j] in Dedup(words);
    }
  }

  /** Every word of the text is in the sorted list, with its number of occurrences. */
  lemma RankedComplete(words: seq<string>, w: string)
    requires w in words
    ensures (w, multiset(words)[w]) in Ranked(words)
  {
    var counts := CountWords(words);
    CountsAreOccurrences(words);
    var d := Dedup(words);
    var j :| 0 <= j < |d| && d[j] == w;
    assert Keys(counts)[j] == w;
    assert counts[j] in multiset(Ranked(words));
  }

  /** The sorted list is ordered by count and, among equal counts, by first occurrence. */
  lemma RankedOrder(words: seq<string>)
    ensures forall i, j :: 0 <= i < j < |Ranked(words)| ==>
              || Ranked(words)[i].1 > Ranked(words)[j].1
              || (Ranked(words)[i].1 == Ranked(words)[j].1 &&
                  FirstIndex(words, Ranked(words)[i].0) < FirstIndex(words, Ranked(words)[j].0))
  {
    var counts := CountWords(words);
    CountsAreOccurrences(words);
    DedupFirstOccurrenceOrder(words);
    assert forall j :: 0 <= j < |counts| ==> counts[j].0 == Keys(counts)[j];
    var rank := (k: string) => FirstIndex(words, k);
    SortByCountRanked(counts, rank);
  }

  /** Truncation law: `min(top_n, number of distinct words)` entries. */
  lemma TruncationLaw(words: seq<string>, topN: nat)
    ensures |TopWords(words, topN)| == Min(topN, |set w | w in words|)
  {
    DistinctWords(words);
  }

  /** Every entry is a word of the text with its number of occurrences. */
  lemma TopWordsCounts(words: seq<string>, topN: nat)
    ensures forall i :: 0 <= i < |TopWords(words, topN)| ==>
              TopWords(words, topN)[i].0 in words &&
              TopWords(words, topN)[i].1 == multiset(words)[TopWords(words, topN)[i].0]
  {
    RankedEntries(words);
  }

  /** Counts do not increase along the result, and equal counts keep the order in which
      their words first occur in the text. */
  lemma TopWordsOrdered(words: seq<string>, topN: nat)
    ensures forall i, j :: 0 <= i < j < |TopWords(words, topN)| ==>
              || TopWords(words, topN)[i].1 > TopWords(words, topN)[j].1
              || (TopWords(words, topN)[i].1 == TopWords(words, topN)[j].1 &&
                  FirstIndex(words, TopWords(words, topN)[i].0) < FirstIndex(words, TopWords(words, topN)[j].0))
  {
    RankedOrder(words);
  }

  /** No word appears twice. */
  lemma TopWordsDistinct(words: seq<string>, topN: nat)
    ensures NoDuplicates(Keys(TopWords(words, topN)))
  {
    RankedEntries(words);
    RankedOrder(words);
  }

  /** The kept words are the most frequent ones: a word left out occurs no more often than
      any word kept. */
  lemma TopWordsMaximal(words: seq<string>, topN: nat, w: string)
    requires w in words
    requires forall i :: 0 <= i < |TopWords(words, topN)| ==> TopWords(words, topN)[i].0 != w
    ensures forall i :: 0 <= i < |TopWords(words, topN)| ==> multiset(words)[w] <= TopWords(words, topN)[i].1
  {
    var ranked := Ranked(words);
    var top := TopWords(words, topN);
    RankedComplete(words, w);
    RankedEntries(words);
    SortByCountNonIncreasing(CountWords(words));
    var p :| 0 <= p < |ranked| && ranked[p] == (w, multiset(words)[w]);
    assert p >= |top|;
  }
}
