/**
 * The lexical helpers of `app/utils/similarity.py`: the suffix stemmer and the
 * keyword extractor. (The sentence-embedding similarity is not part of this model.)
 */
module Similarity {
  import opened Strings

  /** The suffixes `stem_word` tries, in its order. */
  const Suffixes: seq<string> := ["ing", "ed", "s", "es", "ies", "ly"]

  /** The index of the first suffix, from position `i` on, that `word` ends with;
      `|Suffixes|` when there is none. */
  function FirstSuffix(word: string, i: nat): (k: nat)
    requires i <= |Suffixes|
    ensures i <= k <= |Suffixes|
    ensures k < |Suffixes| ==> EndsWith(word, Suffixes[k])
    decreases |Suffixes| - i
  {
    if i == |Suffixes| then i
    else if EndsWith(word, Suffixes[i]) then i
    else FirstSuffix(word, i + 1)
  }

  /** No suffix tried before the one found matches. */
  lemma {:induction false} FirstSuffixIsFirst(word: string, i: nat, j: nat)
    requires i <= |Suffixes| && i <= j < FirstSuffix(word, i)
    ensures !EndsWith(word, Suffixes[j])
    decreases |Suffixes| - i
  {
    if j > i {
      FirstSuffixIsFirst(word, i + 1, j);
    }
  }

  /** The stem: `word` without the first listed suffix it ends with. */
  function Stem(word: string): (r: string)
    ensures |word| - 3 <= |r| <= |word|
    ensures r == word[..|r|]
  {
    var k := FirstSuffix(word, 0);
    if k == |Suffixes| then word else word[..|word| - |Suffixes[k]|]
  }

  /** `stem_word`: tries the suffixes in order and strips the first that matches. */
  method StemWord(word: string) returns (r: string)
    ensures r == Stem(word)
  {
    r := word;
    var i := 0;
    while i < |Suffixes|
      invariant 0 <= i <= |Suffixes|
      invariant r == word
      invariant forall j :: 0 <= j < i ==> !EndsWith(word, Suffixes[j])
    {
      if EndsWith(r, Suffixes[i]) {
        StemStripsFirstSuffix(word, i);
        r := r[..|r| - |Suffixes[i]|];
        break;
      }
      i := i + 1;
    }
    if i == |Suffixes| {
      StemWithoutSuffix(word);
    }
  }

  /** Exactly one suffix goes: the first one, in list order, that the word ends with. */
  lemma StemStripsFirstSuffix(word: string, k: nat)
    requires k < |Suffixes| && EndsWith(word, Suffixes[k])
    requires forall j :: 0 <= j < k ==> !EndsWith(word, Suffixes[j])
    ensures Stem(word) == word[..|word| - |Suffixes[k]|]
  {
    var f := FirstSuffix(word, 0);
    if k < f {
      FirstSuffixIsFirst(word, 0, k);
    }
  }

  /** A word with none of the suffixes is its own stem. */
  lemma StemWithoutSuffix(word: string)
    requires forall j :: 0 <= j < |Suffixes| ==> !EndsWith(word, Suffixes[j])
    ensures Stem(word) == word
  {
  }

  /** Because "s" is tried before "es" and "ies", those two never apply: a word
      ending in "es" (and so one ending in "ies") loses only its final "s". */
  lemma EsEndingLosesOnlyS(word: string)
    requires EndsWith(word, "es")
    ensures Stem(word) == word[..|word| - 1]
  {
    var n := |word|;
    LastCharOf(word, "es");
    LastCharOf(word, "ing");
    LastCharOf(word, "ed");
    assert Suffixes[0] == "ing" && Suffixes[1] == "ed" && Suffixes[2] == "s";
    assert word[n - 1..] == [word[n - 1]];
    StemStripsFirstSuffix(word, 2);
  }

  /** A word ending with `p` ends with the last character of `p`. */
  lemma LastCharOf(word: string, p: string)
    requires |p| > 0
    ensures EndsWith(word, p) ==> word[|word| - 1] == p[|p| - 1]
  {
    if EndsWith(word, p) {
      assert word[|word| - 1] == word[|word| - |p|..][|p| - 1];
    }
  }


  lemma BodiesStemsToBodie()
    ensures Stem("bodies") == "bodie"
  {
    EsEndingLosesOnlyS("bodies");
  }

  /** `stop_words` of `extract_keywords`. */
  const Stopwords: set<string> := {"the", "and", "or", "in", "of", "for", "with", "to", "a", "an"}

  /** The characters of the regular-expression class `\w` (over ASCII). */
  predicate IsWordChar(c: char)
  {
    IsAsciiLetter(c) || IsDigit(c) || c == '_'
  }

  predicate AllLetters(s: string)
  {
    forall i :: 0 <= i < |s| ==> IsAsciiLetter(s[i])
  }

  /** The length of the run of word characters that starts `s`. */
  function RunLength(s: string): (n: nat)
    ensures n <= |s|
    ensures forall i :: 0 <= i < n ==> IsWordChar(s[i])
    ensures n < |s| ==> !IsWordChar(s[n])
  {
    if s == [] || !IsWordChar(s[0]) then 0 else 1 + RunLength(s[1..])
  }

  /** `re.findall(r'\b[a-zA-Z]+\b', s)`: the maximal runs of word characters that
      consist of ASCII letters only (a run holding a digit or `_` has no word
      boundary inside it, so yields nothing). */
  function LetterTokens(s: string): (r: seq<string>)
    ensures |r| <= |s|
    ensures forall k :: 0 <= k < |r| ==> |r[k]| > 0 && AllLetters(r[k])
    decreases |s|
  {
    if s == [] then []
    else if !IsWordChar(s[0]) then LetterTokens(s[1..])
    else
      var n := RunLength(s);
      (if AllLetters(s[..n]) then [s[..n]] else []) + LetterTokens(s[n..])
  }

  /** A token that survives the filter of `extract_keywords`. */
  predicate Kept(token: string)
  {
    token !in Stopwords && |token| > 2
  }

  /** A list comprehension `[f(x) for x in xs if keep(x)]`. */
  function FilterMap<T, U>(f: T -> U, keep: T -> bool, xs: seq<T>): (r: seq<U>)
    ensures |r| <= |xs|
    ensures r == [] <==> forall i :: 0 <= i < |xs| ==> !keep(xs[i])
  {
    if xs == [] then []
    else
      assert forall i :: 1 <= i < |xs| ==> xs[i] == xs[1..][i - 1];
      (if keep(xs[0]) then [f(xs[0])] else []) + FilterMap(f, keep, xs[1..])
  }

  /** The comprehension runs in list order: over a concatenation it gives the results
      of the parts, concatenated. */
  lemma {:induction false} FilterMapAppend<T, U>(f: T -> U, keep: T -> bool, a: seq<T>, b: seq<T>)
    ensures FilterMap(f, keep, a + b) == FilterMap(f, keep, a) + FilterMap(f, keep, b)
  {
    if a == [] {
      assert a + b == b;
    } else {
      var ab, h := a + b, if keep(a[0]) then [f(a[0])] else [];
      assert ab[0] == a[0] && ab[1..] == a[1..] + b;
      FilterMapAppend(f, keep, a[1..], b);
      calc {
        FilterMap(f, keep, ab);
        h + FilterMap(f, keep, a[1..] + b);
        h + (FilterMap(f, keep, a[1..]) + FilterMap(f, keep, b));
        (h + FilterMap(f, keep, a[1..])) + FilterMap(f, keep, b);
        FilterMap(f, keep, a) + FilterMap(f, keep, b);
      }
    }
  }

  /** Every result is `f` of an element that passes `keep`. */
  lemma {:induction false} FilterMapFrom<T, U>(f: T -> U, keep: T -> bool, xs: seq<T>, k: nat)
    requires k < |FilterMap(f, keep, xs)|
    ensures exists j :: 0 <= j < |xs| && keep(xs[j]) && FilterMap(f, keep, xs)[k] == f(xs[j])
  {
    var head := if keep(xs[0]) then [f(xs[0])] else [];
    if k < |head| {
      assert FilterMap(f, keep, xs)[k] == f(xs[0]);
    } else {
      FilterMapFrom(f, keep, xs[1..], k - |head|);
      var j :| 0 <= j < |xs[1..]| && keep(xs[1..][j]) && FilterMap(f, keep, xs[1..])[k - |head|] == f(xs[1..][j]);
      assert xs[1..][j] == xs[j + 1];
    }
  }

  /** The comprehension of `extract_keywords` over an already tokenised text: the
      stem of every kept token. */
  function KeywordsOf(tokens: seq<string>): (r: seq<string>)
    ensures |r| <= |tokens|
  {
    FilterMap(Stem, Kept, tokens)
  }

  /** `extract_keywords`: the stems of the lowercased letter tokens that are long
      enough and not stopwords. */
  function ExtractKeywords(text: string): (r: seq<string>)
    ensures |r| <= |LetterTokens(Lower(text))|
    ensures r == [] <==> forall j :: 0 <= j < |LetterTokens(Lower(text))| ==> !Kept(LetterTokens(Lower(text))[j])
  {
    KeywordsOf(LetterTokens(Lower(text)))
  }

  /** Every keyword is the stem of a kept token. */
  lemma KeywordsAreStemsOfKeptTokens(tokens: seq<string>, k: nat)
    requires k < |KeywordsOf(tokens)|
    ensures exists j :: 0 <= j < |tokens| && Kept(tokens[j]) && KeywordsOf(tokens)[k] == Stem(tokens[j])
  {
    FilterMapFrom(Stem, Kept, tokens, k);
  }

  /** Keywords follow the token order and keep duplicates: the keywords of a
      concatenation are the keywords of the parts, concatenated. */
  lemma KeywordsOfAppend(a: seq<string>, b: seq<string>)
    ensures KeywordsOf(a + b) == KeywordsOf(a) + KeywordsOf(b)
  {
    FilterMapAppend(Stem, Kept, a, b);
  }

  /** A single token yields its stem when it is kept, and nothing otherwise. */
  lemma KeywordsOfSingle(t: string)
    ensures KeywordsOf([t]) == if Kept(t) then [Stem(t)] else []
  {
    assert [t][1..] == [];
  }

  /** A run of word characters followed by the end of the text or by a non-word
      character has exactly its own length. */
  lemma {:induction false} RunLengthOfWord(w: string, rest: string)
    requires AllLetters(w)
    requires rest == [] || !IsWordChar(rest[0])
    ensures RunLength(w + rest) == |w|
    decreases |w|
  {
    if w != [] {
      assert (w + rest)[0] == w[0] && (w + rest)[1..] == w[1..] + rest;
      RunLengthOfWord(w[1..], rest);
    }
  }

  /** `findall` finds every word: a non-empty run of letters that ends the text or
      is followed by a non-word character is the next token. */
  lemma LetterTokensWord(w: string, rest: string)
    requires w != [] && AllLetters(w)
    requires rest == [] || !IsWordChar(rest[0])
    ensures LetterTokens(w + rest) == [w] + LetterTokens(rest)
  {
    var s := w + rest;
    RunLengthOfWord(w, rest);
    assert s[0] == w[0];
    assert s[..|w|] == w && s[|w|..] == rest;
  }

  /** A character outside `\w` only separates tokens. */
  lemma LetterTokensSkipsSeparator(c: char, rest: string)
    requires !IsWordChar(c)
    ensures LetterTokens([c] + rest) == LetterTokens(rest)
  {
    assert ([c] + rest)[1..] == rest;
  }

  /** The keywords of a text that starts with a word: the word's stem, lowercased,
      when it is kept, followed by the keywords of the rest. */
  lemma ExtractKeywordsWord(w: string, rest: string)
    requires w != [] && AllLetters(w)
    requires rest == [] || !IsWordChar(rest[0])
    ensures ExtractKeywords(w + rest) == (if Kept(Lower(w)) then [Stem(Lower(w))] else []) + ExtractKeywords(rest)
  {
    var lw, lr := Lower(w), Lower(rest);
    LowerAppend(w, rest);
    assert AllLetters(lw);
    assert lr == [] || !IsWordChar(lr[0]);
    LetterTokensWord(lw, lr);
    KeywordsOfAppend([lw], LetterTokens(lr));
    KeywordsOfSingle(lw);
  }

  /** The token "ing" stems to the empty string, which is kept as a keyword. */
  lemma IngYieldsEmptyKeyword()
    ensures ExtractKeywords("ing") == [""]
  {
    var s := "ing";
    assert Lower(s) == s;
    assert IsWordChar(s[0]) && IsWordChar(s[1]) && IsWordChar(s[2]);
    var n := RunLength(s);
    assert n == 3;
    assert s[..n] == s && s[n..] == [];
    assert AllLetters(s);
    assert LetterTokens(s) == [s];
    assert Kept(s);
    StemStripsFirstSuffix(s, 0);
    assert FilterMap(Stem, Kept, [s]) == [Stem(s)] + FilterMap(Stem, Kept, []);
  }
}
