/** Text cleaning: `remove_punctuation`, `str.lower()` and `str.split()` as used by
    `map_reduce` to turn a document into a sequence of tokens. */
module Normalize {

  /** Python's `string.punctuation`: the 32 printable ASCII characters that are neither
      letters, digits nor space, i.e. the four code-point ranges `!`..`/`, `:`..`@`,
      `[`..`` ` `` and `{`..`~`. */
  predicate IsPunctuation(c: char) {
    ('!' <= c <= '/') || (':' <= c <= '@') || ('[' <= c <= '`') || ('{' <= c <= '~')
  }

  /** `string.punctuation`, written out character by character. */
  const Punctuation: string := "!\"#$%&'()*+,-./:;<=>?@[\\]^_`{|}~"

  /** The characters `str.split()` treats as separators: the ASCII controls TAB, LF, VT,
      FF, CR, the four information separators 0x1C-0x1F, SPACE, and the Unicode spaces
      NEL, NO-BREAK SPACE, OGHAM SPACE MARK, EN QUAD .. HAIR SPACE, LINE and PARAGRAPH
      SEPARATOR, NARROW NO-BREAK SPACE, MEDIUM MATHEMATICAL SPACE and IDEOGRAPHIC SPACE. */
  predicate IsWhitespace(c: char) {
    || ('\t' <= c <= '\r')
    || ('\U{1C}' <= c <= ' ')
    || c == '\U{85}' || c == '\U{A0}' || c == '\U{1680}'
    || ('\U{2000}' <= c <= '\U{200A}')
    || c == '\U{2028}' || c == '\U{2029}' || c == '\U{202F}' || c == '\U{205F}'
    || c == '\U{3000}'
  }

  /** The separators of `str.split()`, listed one by one. */
  const Whitespace: string :=
    "\t\n\U{0B}\U{0C}\r\U{1C}\U{1D}\U{1E}\U{1F} \U{85}\U{A0}\U{1680}"
    + "\U{2000}\U{2001}\U{2002}\U{2003}\U{2004}\U{2005}\U{2006}\U{2007}\U{2008}\U{2009}\U{200A}"
    + "\U{2028}\U{2029}\U{202F}\U{205F}\U{3000}"

  /** The ranges of `IsPunctuation` are exactly the 32 characters of `string.punctuation`. */
  lemma PunctuationTable(c: char)
    ensures IsPunctuation(c) <==> c in Punctuation
    ensures |Punctuation| == 32
  {
  }

  /** The ranges of `IsWhitespace` are exactly the separators of `str.split()`, and no
      separator is punctuation. */
  lemma WhitespaceTable(c: char)
    ensures IsWhitespace(c) <==> c in Whitespace
    ensures IsWhitespace(c) ==> !IsPunctuation(c)
    ensures |Whitespace| == 29
  {
  }

  predicate IsUpper(c: char) {
    'A' <= c <= 'Z'
  }

  /** The characters of `text`, in order, except those of `string.punctuation`
      (`text.translate(str.maketrans('', '', string.punctuation))`). */
  function RemovePunctuation(text: string): (r: string)
    ensures forall i :: 0 <= i < |r| ==> !IsPunctuation(r[i])
    ensures |r| <= |text|
  {
    if text == [] then []
    else
      (if IsPunctuation(text[0]) then [] else [text[0]]) + RemovePunctuation(text[1..])
  }

  /** Every character outside `string.punctuation` is kept, as often as it occurs. */
  lemma {:induction false} RemovePunctuationKeeps(text: string, c: char)
    requires !IsPunctuation(c)
    ensures multiset(RemovePunctuation(text))[c] == multiset(text)[c]
    decreases |text|
  {
    if text != [] {
      assert text == [text[0]] + text[1..];
      RemovePunctuationKeeps(text[1..], c);
    }
  }

  /** Removal works character by character: on a concatenation it is the concatenation
      of the two removals, so every kept character stays in its place relative to the
      others. */
  lemma {:induction false} RemovePunctuationAppend(a: string, b: string)
    ensures RemovePunctuation(a + b) == RemovePunctuation(a) + RemovePunctuation(b)
    decreases |a|
  {
    if a == [] {
      assert a + b == b;
    } else {
      assert (a + b)[1..] == a[1..] + b;
      RemovePunctuationAppend(a[1..], b);
    }
  }

  /** Text without punctuation passes through unchanged; in particular removal is
      idempotent. */
  lemma {:induction false} RemovePunctuationClean(text: string)
    requires forall i :: 0 <= i < |text| ==> !IsPunctuation(text[i])
    ensures RemovePunctuation(text) == text
    decreases |text|
  {
    if text != [] {
      RemovePunctuationClean(text[1..]);
    }
  }

  /** ASCII case mapping of one character: `A`..`Z` become `a`..`z`. */
  function LowerChar(c: char): char {
    if IsUpper(c) then (c as int + 32) as char else c
  }

  /** `str.lower()` restricted to ASCII letters. */
  function Lower(s: string): (r: string)
    ensures |r| == |s|
    ensures forall i :: 0 <= i < |r| ==> !IsUpper(r[i])
    ensures forall i :: 0 <= i < |r| ==> IsUpper(s[i]) || r[i] == s[i]
    ensures forall i :: 0 <= i < |r| ==> IsUpper(s[i]) ==> r[i] as int == s[i] as int + 32
    ensures forall i :: 0 <= i < |r| ==>
              (IsWhitespace(r[i]) <==> IsWhitespace(s[i])) && (IsPunctuation(r[i]) <==> IsPunctuation(s[i]))
  {
    seq(|s|, i requires 0 <= i < |s| => LowerChar(s[i]))
  }

  /** Two characters that are equal up to ASCII case. */
  predicate SameLetter(x: char, y: char) {
    || x == y
    || (IsUpper(x) && y as int == x as int + 32)
    || (IsUpper(y) && x as int == y as int + 32)
  }

  /** Two strings that are equal up to ASCII case. */
  predicate SameUpToCase(a: string, b: string) {
    |a| == |b| && forall i :: 0 <= i < |a| ==> SameLetter(a[i], b[i])
  }

  /** Lowering merges two strings exactly when they differ only in ASCII case: no two
      different words become the same token. */
  lemma LowerSameUpToCase(a: string, b: string)
    ensures Lower(a) == Lower(b) <==> SameUpToCase(a, b)
  {
    if SameUpToCase(a, b) {
      forall i | 0 <= i < |a|
        ensures Lower(a)[i] == Lower(b)[i]
      {
        assert SameLetter(a[i], b[i]);
      }
    }
    if Lower(a) == Lower(b) {
      forall i | 0 <= i < |a|
        ensures SameLetter(a[i], b[i])
      {
        assert Lower(a)[i] == Lower(b)[i];
      }
    }
  }

  lemma LowerAppend(a: string, b: string)
    ensures Lower(a + b) == Lower(a) + Lower(b)
  {
  }

  /** Lowering and punctuation removal commute, so the order of the two cleaning steps
      in `map_reduce` does not affect the tokens. */
  lemma {:induction false} LowerRemovePunctuationCommute(text: string)
    ensures Lower(RemovePunctuation(text)) == RemovePunctuation(Lower(text))
    decreases |text|
  {
    if text != [] {
      var lowered := Lower(text);
      var rest := RemovePunctuation(text[1..]);
      var head := if IsPunctuation(text[0]) then [] else [text[0]];
      var lowHead := if IsPunctuation(text[0]) then [] else [LowerChar(text[0])];
      assert lowered[1..] == Lower(text[1..]);
      assert RemovePunctuation(lowered) == lowHead + RemovePunctuation(lowered[1..]);
      LowerRemovePunctuationCommute(text[1..]);
      assert RemovePunctuation(text) == head + rest;
      LowerAppend(head, rest);
      assert Lower(head) == lowHead;
    }
  }

  /** A token as `str.split()` yields it: non-empty and free of separators. */
  predicate IsWord(w: string) {
    |w| > 0 && forall i :: 0 <= i < |w| ==> !IsWhitespace(w[i])
  }

  /** Length of the longest separator-free prefix of `s`. */
  function WordLength(s: string): (n: nat)
    ensures n <= |s|
    ensures forall i :: 0 <= i < n ==> !IsWhitespace(s[i])
    ensures n < |s| ==> IsWhitespace(s[n])
  {
    if s == [] || IsWhitespace(s[0]) then 0 else 1 + WordLength(s[1..])
  }

  /** `str.split()` with no separator argument: the maximal runs of non-whitespace
      characters, left to right; leading, trailing and repeated whitespace yield no
      empty tokens. */
  function Split(s: string): (words: seq<string>)
    ensures forall i :: 0 <= i < |words| ==> IsWord(words[i])
    ensures forall i, j :: 0 <= i < |words| && 0 <= j < |words[i]| ==> words[i][j] in s
    decreases |s|
  {
    if s == [] then []
    else if IsWhitespace(s[0]) then Split(s[1..])
    else
      var n := WordLength(s);
      [s[..n]] + Split(s[n..])
  }

  /** A single word splits to itself. */
  lemma SplitWord(w: string)
    requires IsWord(w)
    ensures Split(w) == [w]
  {
    assert WordLength(w) == |w|;
    assert w[..|w|] == w;
    assert w[|w|..] == [];
  }

  /** A word of `a` cannot reach past a separator that follows `a`. */
  lemma {:induction false} WordLengthAround(a: string, c: char, b: string)
    requires IsWhitespace(c)
    ensures WordLength(a + [c] + b) == WordLength(a)
    decreases |a|
  {
    var s := a + [c] + b;
    if a == [] {
      assert s[0] == c;
    } else if !IsWhitespace(a[0]) {
      assert s[1..] == a[1..] + [c] + b;
      WordLengthAround(a[1..], c, b);
    }
  }

  /** A separator character cuts the text in two independent halves. */
  lemma {:induction false} SplitAround(a: string, c: char, b: string)
    requires IsWhitespace(c)
    ensures Split(a + [c] + b) == Split(a) + Split(b)
    decreases |a|
  {
    var s := a + [c] + b;
    if a == [] {
      assert s[1..] == b;
    } else if IsWhitespace(a[0]) {
      assert s[1..] == a[1..] + [c] + b;
      SplitAround(a[1..], c, b);
    } else {
      var m := WordLength(a);
      WordLengthAround(a, c, b);
      assert s[..m] == a[..m];
      assert s[m..] == a[m..] + [c] + b;
      SplitAround(a[m..], c, b);
    }
  }

  /** The words joined with single spaces (`" ".join(words)`). */
  function Join(words: seq<string>): string {
    if words == [] then []
    else if |words| == 1 then words[0]
    else words[0] + " " + Join(words[1..])
  }

  /** Round trip: splitting words joined by spaces gives the words back. */
  lemma {:induction false} SplitJoin(words: seq<string>)
    requires forall i :: 0 <= i < |words| ==> IsWord(words[i])
    ensures Split(Join(words)) == words
    decreases |words|
  {
    if |words| == 1 {
      SplitWord(words[0]);
    } else if |words| > 1 {
      SplitWord(words[0]);
      SplitJoin(words[1..]);
      assert words[0] + " " + Join(words[1..]) == words[0] + [' '] + Join(words[1..]);
      SplitAround(words[0], ' ', Join(words[1..]));
      assert words == [words[0]] + words[1..];
    }
  }

  /** `remove_punctuation(text).lower().split()`: every token is non-empty and has no
      whitespace, no punctuation and no capital letter. */
  function Tokenize(text: string): (words: seq<string>)
    ensures forall i :: 0 <= i < |words| ==> IsToken(words[i])
  {
    Split(Lower(RemovePunctuation(text)))
  }

  /** A token of the pipeline: non-empty, no whitespace, no punctuation, no capital. */
  predicate IsToken(w: string) {
    && |w| > 0
    && forall i :: 0 <= i < |w| ==> !IsWhitespace(w[i]) && !IsPunctuation(w[i]) && !IsUpper(w[i])
  }
}
