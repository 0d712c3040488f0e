/**
 * `normalize_text` of `app/utils/phonetic.py`: drop every character that is neither
 * alphanumeric nor whitespace, then lowercase. (The fuzzy-ratio wrappers of that
 * file are not part of this model.)
 */
module Phonetic {
  import opened Strings

  /** `c.isalnum()`, over ASCII. */
  predicate IsAlnum(c: char)
  {
    IsAsciiLetter(c) || IsDigit(c)
  }

  /** `c.isspace()`, over ASCII: space, tab to carriage return, and the four
      separators U+001C to U+001F. */
  predicate IsSpace(c: char)
  {
    c == ' ' || 9 <= c as int <= 13 || 28 <= c as int <= 31
  }

  predicate Survives(c: char)
  {
    IsAlnum(c) || IsSpace(c)
  }

  /** The characters of `text` that survive, in order. */
  function Surviving(text: string): (r: string)
    ensures |r| <= |text|
    ensures forall i :: 0 <= i < |r| ==> Survives(r[i])
  {
    if text == [] then []
    else (if Survives(text[0]) then [text[0]] else []) + Surviving(text[1..])
  }

  /** `normalize_text`. */
  function NormalizeText(text: string): (r: string)
    ensures |r| <= |text|
    ensures forall i :: 0 <= i < |r| ==> Survives(r[i]) && !IsUpper(r[i])
  {
    Lower(Surviving(text))
  }

  lemma {:induction false} SurvivingAppend(a: string, b: string)
    ensures Surviving(a + b) == Surviving(a) + Surviving(b)
  {
    if a == [] {
      assert a + b == b;
    } else {
      assert (a + b)[0] == a[0] && (a + b)[1..] == a[1..] + b;
      SurvivingAppend(a[1..], b);
    }
  }

  /** Normalisation works character by character: it distributes over concatenation, */
  lemma NormalizeAppend(a: string, b: string)
    ensures NormalizeText(a + b) == NormalizeText(a) + NormalizeText(b)
  {
    SurvivingAppend(a, b);
    LowerAppend(Surviving(a), Surviving(b));
  }

  /** and a single character is kept, lowercased, exactly when it is alphanumeric or
      whitespace; so the result is the input with all other characters removed. */
  lemma NormalizeChar(c: char)
    ensures NormalizeText([c]) == if Survives(c) then [LowerChar(c)] else []
  {
    assert [c][1..] == [];
  }

  lemma {:induction false} SurvivingOfSurvivors(s: string)
    requires forall i :: 0 <= i < |s| ==> Survives(s[i])
    ensures Surviving(s) == s
  {
    if s != [] {
      SurvivingOfSurvivors(s[1..]);
    }
  }

  /** Normalising twice is normalising once. */
  lemma NormalizeIdempotent(text: string)
    ensures NormalizeText(NormalizeText(text)) == NormalizeText(text)
  {
    var n := NormalizeText(text);
    SurvivingOfSurvivors(n);
    LowerOfLowercase(n);
  }
}
