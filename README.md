# Word frequencies by map, shuffle and reduce — a Dafny model

The program fetches a text and counts its words in four stages:

1. It cleans the text. `remove_punctuation` deletes every character of `string.punctuation`. The result is lowercased and split on whitespace.
2. `map_function` turns every token into `(word, 1)`.
3. `shuffle_function` groups those pairs into a dict of lists, one list per word.
4. `reduce_function` sums each list. `map_reduce` then sorts the `(word, count)` pairs by count, largest first, and returns the first `top_n` of them.

This project models that pipeline and proves what it computes. Each token is non-empty, lowercase and free of punctuation and whitespace. Each word appears once, with its number of occurrences. The counts add up to the number of tokens. The result is ordered by count, and equal counts keep the order in which their words first occur. The result has `min(top_n, number of distinct words)` entries, and no word left out occurs more often than a word kept.

Files, one module each:

- `normalize.dfy` (`Normalize`) covers punctuation removal, ASCII lowercasing and `str.split()`.
- `grouping.dfy` (`Grouping`) covers `shuffle_function`. `Shuffle` is an imperative loop that fills a map of sequences and keeps the dict's insertion order. `Group` is the value it is proved to compute.
- `ranking.dfy` (`Ranking`) covers `sorted(..., key=count, reverse=True)`. It is modelled as a stable insertion sort and proved to be the unique stable descending sort.
- `word_count.dfy` (`WordCount`) covers map, reduce, truncation, the `map_reduce` method and the lemmas about its result.

Three behaviours of the program that the model keeps:

- **Ties.** A dict iterates in insertion order, and `sorted(..., reverse=True)` is stable. So words with equal counts come out in the order in which they first occur in the text (`WordCount.TopWordsOrdered`).
- **`top_n`.** It defaults to 10. `top_n = 0` returns an empty list. The model accepts any `top_n >= 0`.
- **Map order.** `executor.map` returns its results in input order, and the model keeps that order.

## Model

| member | source | states |
|---|---|---|
| `Normalize.PunctuationTable` | top_frequent_words.py:75 | the character ranges of `IsPunctuation` hold exactly the 32 characters of `string.punctuation` |
| `Normalize.RemovePunctuation` | top_frequent_words.py:64-75 | no character of `string.punctuation` is left, and the result is never longer than the input |
| `Normalize.RemovePunctuationKeeps` | top_frequent_words.py:75 | every other character is kept, exactly as many times as it occurs |
| `Normalize.RemovePunctuationAppend` | top_frequent_words.py:75 | removal acts character by character (it distributes over concatenation), so kept characters keep their order |
| `Normalize.RemovePunctuationClean` | top_frequent_words.py:75 | text without punctuation is returned unchanged, so removal is idempotent |
| `Normalize.Lower` | top_frequent_words.py:134 | same length, no capital letter left, each capital becomes its own lowercase letter (code point plus 32), every other character is unchanged, and whitespace and punctuation are kept as they are |
| `Normalize.LowerSameUpToCase` | top_frequent_words.py:134 | two texts lower to the same string exactly when they differ only in ASCII case, so distinct words never merge |
| `Normalize.LowerRemovePunctuationCommute` | top_frequent_words.py:134 | lowering and punctuation removal commute |
| `Normalize.WhitespaceTable` | top_frequent_words.py:135 | the character ranges of `IsWhitespace` hold exactly the 29 separators of `str.split()`, none of them punctuation |
| `Normalize.Split` | top_frequent_words.py:135 | every token is non-empty and contains no whitespace, and each token's characters come from the input |
| `Normalize.SplitWord` | top_frequent_words.py:135 | a text made of one word splits into exactly that word |
| `Normalize.SplitAround` | top_frequent_words.py:135 | a whitespace character splits the text into two halves that are tokenised independently |
| `Normalize.SplitJoin` | top_frequent_words.py:135 | round trip: splitting words joined by spaces gives the same words back |
| `Normalize.Tokenize` | top_frequent_words.py:134-135 | every token is non-empty and has no whitespace, no punctuation and no capital letter |
| `Grouping.Dedup` | top_frequent_words.py:102-106 | the dict's keys have no duplicates, and they are exactly the keys inserted |
| `Grouping.DedupFirstOccurrenceOrder` | top_frequent_words.py:102-106 | the dict lists its keys in order of first insertion |
| `Grouping.ValuesOfPresent` | top_frequent_words.py:103-104 | a key's list is non-empty exactly when some pair has that key |
| `Grouping.Group` | top_frequent_words.py:106 | the returned items have no repeated key, every input key is among them, and no other key is |
| `Grouping.Shuffle` | top_frequent_words.py:91-106 | the loop that fills the dict of lists returns exactly `Group(pairs)`: one entry per distinct key in first-insertion order, holding that key's values in input order |
| `Grouping.ShuffleOrderStep` | top_frequent_words.py:104 | an append adds its key at the end of the dict's key order exactly when the key is new |
| `Grouping.ShuffleEntryStep` | top_frequent_words.py:104 | after an append, every key's list is the values of that key among the pairs inserted so far |
| `Grouping.ShuffleStep` | top_frequent_words.py:103-104 | one `defaultdict` append keeps the dict's key order and lists equal to those of the pairs inserted so far |
| `Grouping.GroupAppendSeen` | top_frequent_words.py:104 | a pair whose key is already present appends its value to that key's list and changes nothing else |
| `Grouping.GroupAppendNew` | top_frequent_words.py:104 | a pair with a new key adds a new list `[value]` at the end |
| `Grouping.GroupKeys` | top_frequent_words.py:102-106 | each distinct key is grouped exactly once, no other key appears, and every list is non-empty |
| `Grouping.GroupTotal` | top_frequent_words.py:103-104 | the lists together hold exactly one value per input pair |
| `Ranking.Insert` | top_frequent_words.py:148 | inserting adds exactly the one new entry (multiset equality) |
| `Ranking.SortByCount` | top_frequent_words.py:148 | the sorted list is a permutation of the input |
| `Ranking.SortByCountNonIncreasing` | top_frequent_words.py:148 | counts never increase along the sorted list |
| `Ranking.SortByCountStable` | top_frequent_words.py:148 | for each count, the entries with that count keep their input order |
| `Ranking.StableOrderUnique` | top_frequent_words.py:148 | two count-ordered lists with the same entries per count, in the same order, are equal |
| `Ranking.SortByCountIsStableSort` | top_frequent_words.py:148 | any count-ordered rearrangement that keeps input order among equal counts is exactly `SortByCount`, so the model is Python's stable `reverse=True` sort |
| `Ranking.SortByCountRanked` | top_frequent_words.py:148 | when the input is in increasing rank order, equal counts come out in increasing rank order |
| `WordCount.MapReduce` | top_frequent_words.py:123-150 | with `top_n` defaulting to 10, running clean, map, shuffle (the loop), reduce, sort and truncate gives `TopWords(Tokenize(text), top_n)` |
| `WordCount.MapFunction` | top_frequent_words.py:78-88 | the pair is keyed by the word and its value is 1 |
| `WordCount.Sum` | top_frequent_words.py:120 | a list of ones sums to its length, and non-negative values sum to a non-negative total |
| `WordCount.ReduceFunction` | top_frequent_words.py:109-120 | the key is kept, and a list of occurrences reduces to its length |
| `WordCount.MapAll` | top_frequent_words.py:139 | mapping every word with `map_function` keeps one pair per word, in input order, with the words as keys |
| `WordCount.ReduceAll` | top_frequent_words.py:144-145 | reducing every group keeps one entry per group, in input order, with the group's key |
| `WordCount.MappedValues` | top_frequent_words.py:139-142 | after the shuffle, each word's list is one `1` per occurrence of the word |
| `WordCount.CountsAreOccurrences` | top_frequent_words.py:109-120 | the reduced list has one entry per distinct word, in first-occurrence order, and each count is that word's number of occurrences |
| `WordCount.DistinctWords` | top_frequent_words.py:142-145 | the reduced list has as many entries as there are distinct words |
| `WordCount.CountsSumToTokens` | top_frequent_words.py:136-145 | the counts add up to the number of tokens |
| `WordCount.RankedEntries` | top_frequent_words.py:142-148 | every entry of the sorted list is a word of the text with its number of occurrences |
| `WordCount.RankedComplete` | top_frequent_words.py:142-148 | every word of the text is in the sorted list with its number of occurrences |
| `WordCount.RankedOrder` | top_frequent_words.py:142-148 | the sorted list is ordered by count and, among equal counts, by first occurrence in the text |
| `WordCount.TopWords` | top_frequent_words.py:150 | the result is a prefix of the sorted list, at most `top_n` long, and the whole list when it is shorter than `top_n` |
| `WordCount.TruncationLaw` | top_frequent_words.py:150 | the result has `min(top_n, number of distinct words)` entries |
| `WordCount.TopWordsCounts` | top_frequent_words.py:148-150 | each entry is a word of the text with its number of occurrences |
| `WordCount.TopWordsOrdered` | top_frequent_words.py:148-150 | counts never increase, and equal counts are in order of first occurrence in the text |
| `WordCount.TopWordsDistinct` | top_frequent_words.py:148-150 | no word appears twice in the result |
| `WordCount.TopWordsMaximal` | top_frequent_words.py:148-150 | a word left out of the result occurs no more often than any word kept |

## Left out

- `fetch_text` (top_frequent_words.py:43-61): an HTTP request, which is network I/O. The model starts from the text it returns.
- `visualize_top_words` (top_frequent_words.py:153-168): plotting with matplotlib, a display side effect.
- `ColorfulFormatter`, the logger setup and every `logger.info` call: logging only, with no effect on results.
- The `ThreadPoolExecutor` stages: they are modelled as sequential maps. `executor.map` returns results in input order, and the tasks share no state. Fail-fast propagation of a worker exception is not modelled, because the pure map and reduce functions cannot raise.
- The `__main__` block: orchestration and printing.
- `Normalize.Lower`: only ASCII `A`-`Z` is lowercased. Python's full Unicode case mapping is left out, including mappings that change the string's length.
- Unicode normalisation: none is applied, matching Python, which compares code points. The separator set of `Normalize.IsWhitespace` is the one `str.split()` uses, Unicode spaces included.
- A negative `top_n`: with one, Python slicing would drop entries from the end. The model's `topN` is a `nat`.
- The number type: Python integers are unbounded, like Dafny's `int`, so there is no overflow to model.
