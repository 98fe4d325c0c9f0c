/** Character classes and character-level helpers shared by the grouping
    regular expression and by the number parser. A string is a sequence of
    Unicode scalar values where JavaScript uses UTF-16 code units. Every
    class used here is ASCII, so for a well-formed string the inserted dots
    and the output text are the same, although positions past a character
    outside the Basic Multilingual Plane are numbered differently. */
module Chars {

  /** `\d` of a regular expression without the `u` flag: ASCII digits only. */
  predicate IsDigit(c: char) {
    '0' <= c <= '9'
  }

  /** `\w` of a regular expression without the `u` or `i` flags. */
  predicate IsWordChar(c: char) {
    IsDigit(c) || 'a' <= c <= 'z' || 'A' <= c <= 'Z' || c == '_'
  }

  predicate AllDigits(s: string) {
    forall i :: 0 <= i < |s| ==> IsDigit(s[i])
  }

  predicate NoDots(s: string) {
    forall i :: 0 <= i < |s| ==> s[i] != '.'
  }

  /** Index `j` lies inside `s` and holds a digit. */
  predicate DigitAt(s: string, j: int) {
    0 <= j < |s| && IsDigit(s[j])
  }

  function DigitValue(c: char): (d: nat)
    requires IsDigit(c)
    ensures d < 10
  {
    c as int - '0' as int
  }

  function DigitChar(d: nat): (c: char)
    requires d < 10
    ensures IsDigit(c) && DigitValue(c) == d
  {
    ('0' as int + d) as char
  }

  /** Length of the maximal run of digits that starts at index `j`. */
  function DigitRun(s: string, j: nat): (k: nat)
    requires j <= |s|
    ensures j + k <= |s|
    ensures forall m :: j <= m < j + k ==> IsDigit(s[m])
    ensures j + k == |s| || !IsDigit(s[j + k])
    decreases |s| - j
  {
    if j < |s| && IsDigit(s[j]) then 1 + DigitRun(s, j + 1) else 0
  }

  /** The run of a digit-only string reaches its end. */
  lemma DigitRunAllDigits(s: string, j: nat)
    requires AllDigits(s) && j <= |s|
    ensures DigitRun(s, j) == |s| - j
  {
  }

  /** A run is unaffected by text in front of it. */
  lemma {:induction false} DigitRunShift(p: string, s: string, j: nat)
    requires j <= |s|
    ensures DigitRun(p + s, |p| + j) == DigitRun(s, j)
    decreases |s| - j
  {
    if j < |s| {
      assert (p + s)[|p| + j] == s[j];
      DigitRunShift(p, s, j + 1);
    }
  }

  /** A run stops at a non-digit, whatever follows it. */
  lemma {:induction false} DigitRunPrefix(a: string, rest: string, j: nat)
    requires j <= |a| && |rest| > 0 && !IsDigit(rest[0])
    ensures DigitRun(a + rest, j) == DigitRun(a, j)
    decreases |a| - j
  {
    if j < |a| {
      assert (a + rest)[j] == a[j];
      DigitRunPrefix(a, rest, j + 1);
    } else {
      assert (a + rest)[j] == rest[0];
    }
  }

  /** `s.replace(/\./g, '')`: `s` with every '.' deleted. */
  function StripDots(s: string): (r: string)
    ensures NoDots(r)
    ensures |r| <= |s|
    decreases |s|
  {
    if |s| == 0 then "" else (if s[0] == '.' then "" else [s[0]]) + StripDots(s[1..])
  }

  /** Deleting dots leaves a dot-free string as it is. */
  lemma {:induction false} StripDotsNoDots(s: string)
    requires NoDots(s)
    ensures StripDots(s) == s
    decreases |s|
  {
    if |s| > 0 {
      StripDotsNoDots(s[1..]);
      assert s == [s[0]] + s[1..];
    }
  }

  /** Deleting dots works piecewise. */
  lemma {:induction false} StripDotsAppend(a: string, b: string)
    ensures StripDots(a + b) == StripDots(a) + StripDots(b)
    decreases |a|
  {
    if |a| > 0 {
      assert (a + b)[0] == a[0];
      assert (a + b)[1..] == a[1..] + b;
      StripDotsAppend(a[1..], b);
    } else {
      assert a + b == b;
    }
  }

  lemma StripDotsOfDot()
    ensures StripDots(".") == ""
  {
    assert "."[1..] == "";
  }

  /** A '.' between two dot-free strings is deleted and nothing else. */
  lemma StripDotBetween(a: string, b: string)
    requires NoDots(a) && NoDots(b)
    ensures StripDots(a + "." + b) == a + b
  {
    var dot: string := ".";
    StripDotsAppend(a + dot, b);
    StripDotsAppend(a, dot);
    StripDotsOfDot();
    StripDotsNoDots(a);
    StripDotsNoDots(b);
    assert StripDots(a + dot) == a;
  }

  /** Two digit strings run together are a digit string. */
  lemma AllDigitsAppend(a: string, b: string)
    requires AllDigits(a) && AllDigits(b)
    ensures AllDigits(a + b)
  {
    forall k | 0 <= k < |a + b|
      ensures IsDigit((a + b)[k])
    {
      if k < |a| { assert (a + b)[k] == a[k]; } else { assert (a + b)[k] == b[k - |a|]; }
    }
  }
}
