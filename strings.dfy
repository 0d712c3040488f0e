/**
 * The handful of Python `str` operations the terminology engine relies on:
 * `lower()` (over ASCII), the `in` substring test, `startswith`/`endswith`,
 * `' '.join`, `split(';')` and `str(n)` for a natural number.
 */
module Strings {

  predicate IsUpper(c: char) { 'A' <= c <= 'Z' }

  predicate IsLowerLetter(c: char) { 'a' <= c <= 'z' }

  predicate IsDigit(c: char) { '0' <= c <= '9' }

  predicate IsAsciiLetter(c: char) { IsUpper(c) || IsLowerLetter(c) }

  /** `c.lower()` for an ASCII character; every other character is left alone. */
  function LowerChar(c: char): (r: char)
    ensures !IsUpper(r)
    ensures IsUpper(c) ==> IsLowerLetter(r)
    ensures !IsUpper(c) ==> r == c
  {
    if IsUpper(c) then (c as int + 32) as char else c
  }

  /** `s.lower()`: lowercases the ASCII capitals, position by position. */
  function Lower(s: string): (r: string)
    ensures |r| == |s|
    ensures forall i :: 0 <= i < |s| ==> r[i] == LowerChar(s[i])
  {
    seq(|s|, i requires 0 <= i < |s| => LowerChar(s[i]))
  }

  predicate IsLowercase(s: string) { forall i :: 0 <= i < |s| ==> !IsUpper(s[i]) }

  lemma LowerOfLowercase(s: string)
    requires IsLowercase(s)
    ensures Lower(s) == s
  {
  }

  lemma LowerIdempotent(s: string)
    ensures Lower(Lower(s)) == Lower(s)
  {
  }

  lemma LowerAppend(a: string, b: string)
    ensures Lower(a + b) == Lower(a) + Lower(b)
  {
  }

  /** `s.startswith(p)`. */
  predicate IsPrefix(p: string, s: string)
  {
    |p| <= |s| && s[..|p|] == p
  }

  /** `s.endswith(p)`. */
  predicate EndsWith(s: string, p: string)
  {
    |p| <= |s| && s[|s| - |p|..] == p
  }

  /** Python's `p in s` for strings: `p` occurs in `s` at some offset. */
  predicate Contains(s: string, p: string)
    decreases |s|
  {
    IsPrefix(p, s) || (|s| > |p| && Contains(s[1..], p))
  }

  lemma ContainsAt(s: string, p: string, i: nat)
    requires i + |p| <= |s| && s[i..i + |p|] == p
    ensures Contains(s, p)
    decreases i
  {
    if i > 0 {
      assert s[1..][i - 1..i - 1 + |p|] == s[i..i + |p|];
      ContainsAt(s[1..], p, i - 1);
    }
  }

  lemma ContainsWitness(s: string, p: string) returns (i: nat)
    requires Contains(s, p)
    ensures i + |p| <= |s| && s[i..i + |p|] == p
    decreases |s|
  {
    if IsPrefix(p, s) {
      i := 0;
    } else {
      var j := ContainsWitness(s[1..], p);
      i := j + 1;
      assert s[1..][j..j + |p|] == s[i..i + |p|];
    }
  }

  lemma NotContainsLonger(s: string, p: string)
    requires |p| > |s|
    ensures !Contains(s, p)
  {
  }

  /** A phrase found in `s`, or equal to it, has its first two characters in `s`:
      the cheap test by which a literal is shown absent from another. */
  lemma FirstTwoCharsOccur(s: string, phrase: string)
    requires |phrase| >= 2
    ensures Contains(s, phrase) || phrase == s ==> phrase[0] in s && phrase[1] in s
  {
    if Contains(s, phrase) {
      var i := ContainsWitness(s, phrase);
      assert s[i] == phrase[0] && s[i + 1] == phrase[1];
    }
  }

  /** What occurs in a part occurs in the whole. */
  lemma ContainsInConcat(a: string, b: string, p: string)
    ensures Contains(a, p) || Contains(b, p) ==> Contains(a + b, p)
  {
    if Contains(a, p) {
      var i := ContainsWitness(a, p);
      assert (a + b)[i..i + |p|] == a[i..i + |p|];
      ContainsAt(a + b, p, i);
    } else if Contains(b, p) {
      var i := ContainsWitness(b, p);
      assert (a + b)[|a| + i..|a| + i + |p|] == b[i..i + |p|];
      ContainsAt(a + b, p, |a| + i);
    }
  }

  /** Lowercasing both sides keeps an occurrence. */
  lemma LowerKeepsContains(s: string, p: string)
    requires Contains(s, p)
    ensures Contains(Lower(s), Lower(p))
  {
    var i := ContainsWitness(s, p);
    assert Lower(s)[i..i + |p|] == Lower(p);
    ContainsAt(Lower(s), Lower(p), i);
  }

  /** An occurrence inside an occurrence is an occurrence. */
  lemma ContainsTransitive(s: string, x: string, p: string)
    requires Contains(s, x) && Contains(x, p)
    ensures Contains(s, p)
  {
    var i := ContainsWitness(s, x);
    var j := ContainsWitness(x, p);
    forall t | 0 <= t < |p|
      ensures s[i + j + t] == p[t]
    {
      assert s[i + j + t] == s[i..i + |x|][j + t];
      assert p[t] == x[j..j + |p|][t];
    }
    assert s[i + j..i + j + |p|] == p;
    ContainsAt(s, p, i + j);
  }

  /** Every part occurs in the joined string. */
  lemma {:induction false} JoinHoldsParts(parts: seq<string>, sep: string, k: nat)
    requires k < |parts|
    ensures Contains(Join(parts, sep), parts[k])
  {
    if |parts| == 1 {
      ContainsAt(parts[0], parts[0], 0);
    } else if k == 0 {
      ContainsAt(parts[0], parts[0], 0);
      ContainsInConcat(parts[0], sep + Join(parts[1..], sep), parts[0]);
      assert parts[0] + sep + Join(parts[1..], sep) == parts[0] + (sep + Join(parts[1..], sep));
    } else {
      JoinHoldsParts(parts[1..], sep, k - 1);
      ContainsInConcat(parts[0] + sep, Join(parts[1..], sep), parts[k]);
    }
  }

  /** `any(p in s for p in phrases)`: some phrase of the list occurs in `s`. */
  predicate ContainsAny(s: string, phrases: seq<string>)
  {
    |phrases| > 0 && (Contains(s, phrases[0]) || ContainsAny(s, phrases[1..]))
  }

  lemma ContainsAnyIff(s: string, phrases: seq<string>)
    ensures ContainsAny(s, phrases) <==> exists j :: 0 <= j < |phrases| && Contains(s, phrases[j])
  {
    if |phrases| > 0 {
      ContainsAnyIff(s, phrases[1..]);
      assert forall j :: 1 <= j < |phrases| ==> phrases[j] == phrases[1..][j - 1];
    }
  }

  /** Python's `s[:n]` for `n >= 0`. */
  function Take<T>(s: seq<T>, n: nat): (r: seq<T>)
    ensures |r| <= n && |r| <= |s|
    ensures r == s[..|r|]
    ensures |s| <= n ==> r == s
    ensures |s| >= n ==> |r| == n
  {
    if |s| <= n then s else s[..n]
  }

  /** `sep.join(parts)`. */
  function Join(parts: seq<string>, sep: string): string
  {
    if |parts| == 0 then ""
    else if |parts| == 1 then parts[0]
    else parts[0] + sep + Join(parts[1..], sep)
  }

  /** `s.split(sep)` for a one-character separator: always at least one piece. */
  function Split(s: string, sep: char): (r: seq<string>)
    ensures |r| >= 1
    decreases |s|
  {
    if s == [] then [""]
    else
      var rest := Split(s[1..], sep);
      if s[0] == sep then [""] + rest
      else [[s[0]] + rest[0]] + rest[1..]
  }

  /** Splitting and re-joining with the same separator gives back the string. */
  lemma {:induction false} SplitJoin(s: string, sep: char)
    ensures Join(Split(s, sep), [sep]) == s
    decreases |s|
  {
    if s != [] {
      var rest := Split(s[1..], sep);
      SplitJoin(s[1..], sep);
      var parts := Split(s, sep);
      if s[0] == sep {
        assert parts == [""] + rest;
        assert parts[1..] == rest;
        calc {
          Join(parts, [sep]);
          "" + [sep] + Join(rest, [sep]);
          [sep] + s[1..];
          s;
        }
      } else if |rest| == 1 {
        assert parts == [[s[0]] + rest[0]];
        assert Join(rest, [sep]) == rest[0];
        assert [s[0]] + s[1..] == s;
      } else {
        var head := [s[0]] + rest[0];
        assert parts == [head] + rest[1..];
        assert parts[1..] == rest[1..];
        var tail := Join(rest[1..], [sep]);
        calc {
          Join(parts, [sep]);
          head + [sep] + tail;
          [s[0]] + (rest[0] + [sep] + tail);
          [s[0]] + Join(rest, [sep]);
          s;
        }
      }
    }
  }

  /** No piece of a split holds the separator. */
  lemma {:induction false} SplitPiecesFree(s: string, sep: char)
    ensures forall k :: 0 <= k < |Split(s, sep)| ==> sep !in Split(s, sep)[k]
    decreases |s|
  {
    if s != [] {
      var rest := Split(s[1..], sep);
      SplitPiecesFree(s[1..], sep);
      var parts := Split(s, sep);
      if s[0] == sep {
        assert parts == [""] + rest;
        assert forall k :: 1 <= k < |parts| ==> parts[k] == rest[k - 1];
      } else {
        assert parts == [[s[0]] + rest[0]] + rest[1..];
        assert forall k :: 1 <= k < |parts| ==> parts[k] == rest[k];
      }
    }
  }

  function DigitChar(d: nat): (c: char)
    requires d < 10
    ensures IsDigit(c)
  {
    ('0' as int + d) as char
  }

  /** `str(n)` for a natural number: its decimal digits, most significant first. */
  function NatToString(n: nat): (r: string)
    ensures |r| >= 1
    ensures (|r| == 1) == (n < 10)
    decreases n
  {
    if n < 10 then [DigitChar(n)] else NatToString(n / 10) + [DigitChar(n % 10)]
  }

  /** Different numbers print differently. */
  lemma {:induction false} NatToStringInjective(a: nat, b: nat)
    requires NatToString(a) == NatToString(b)
    ensures a == b
    decreases a
  {
    if a >= 10 && b >= 10 {
      var sa, sb := NatToString(a / 10), NatToString(b / 10);
      assert NatToString(a) == sa + [DigitChar(a % 10)];
      assert NatToString(b) == sb + [DigitChar(b % 10)];
      assert DigitChar(a % 10) == NatToString(a)[|sa|];
      assert sa == NatToString(a)[..|sa|];
      assert sb == NatToString(b)[..|sb|];
      NatToStringInjective(a / 10, b / 10);
    } else if a < 10 && b < 10 {
      assert DigitChar(a) == NatToString(a)[0];
    }
  }

  predicate NoDups<T(==)>(s: seq<T>)
  {
    forall i, j :: 0 <= i < j < |s| ==> s[i] != s[j]
  }

  /** The distinct elements of `s`, each at its first occurrence. */
  function Dedup<T(==,!new)>(s: seq<T>): (r: seq<T>)
    ensures NoDups(r)
    ensures forall x :: x in r <==> x in s
    ensures |r| <= |s|
  {
    if s == [] then []
    else
      var init := Dedup(s[..|s| - 1]);
      var last := s[|s| - 1];
      assert forall x :: x in s <==> x in s[..|s| - 1] || x == last;
      if last in s[..|s| - 1] then init else init + [last]
  }
}
