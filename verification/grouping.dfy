/** The thousands grouping `s.replace(/\B(?=(\d{3})+(?!\d))/g, '.')`
    of `toFormattedAmount`, modelled from the regular expression itself:
    `\B`, the lookahead `(\d{3})+(?!\d)`, and a global replace whose
    matches are all empty, so that a '.' goes in front of every position
    where the pattern matches. */
module Grouping {
  import opened Chars

  /** Index `j` lies inside `s` and holds a `\w` character. */
  predicate WordAt(s: string, j: int) {
    0 <= j < |s| && IsWordChar(s[j])
  }

  /** `\B` at position `i`, the gap in front of `s[i]`: the characters on
      both sides are both word characters or both not (a side outside the
      string counts as not). */
  predicate NotBoundary(s: string, i: nat) {
    WordAt(s, i - 1) == WordAt(s, i)
  }

  /** `(\d{3})+(?!\d)` matched from position `j`: three digits, then either
      another repetition or a position not followed by a digit. The
      regular expression tries the longer repetition first and backtracks;
      only whether some choice succeeds matters inside a lookahead. */
  predicate TriplesToEnd(s: string, j: nat)
    decreases |s| - j
  {
    && j + 3 <= |s|
    && IsDigit(s[j]) && IsDigit(s[j + 1]) && IsDigit(s[j + 2])
    && (TriplesToEnd(s, j + 3) || !DigitAt(s, j + 3))
  }

  /** The whole pattern matches (with an empty match) at position `i`. */
  predicate MatchAt(s: string, i: nat) {
    i <= |s| && NotBoundary(s, i) && TriplesToEnd(s, i)
  }

  /** The output of the global replace for the part of `s` from position
      `i` on. Each position `0..|s|` is tried once (after an empty match
      the search moves on by one), and each match puts '.' in front of
      the character at that position. */
  function ReplaceFrom(s: string, i: nat): string
    requires i <= |s|
    decreases |s| - i
  {
    (if MatchAt(s, i) then "." else "")
    + (if i == |s| then "" else [s[i]] + ReplaceFrom(s, i + 1))
  }

  /** One step of the replace at a position inside the string. */
  lemma ReplaceStep(s: string, i: nat)
    requires i < |s|
    ensures ReplaceFrom(s, i) == (if MatchAt(s, i) then "." else "") + [s[i]] + ReplaceFrom(s, i + 1)
  {
  }

  /** `toFormattedAmount` on the string form of its argument. */
  function Group(s: string): string {
    ReplaceFrom(s, 0)
  }

  /** The lookahead holds exactly where the digit run has a length that
      is a positive multiple of three: `(?!\d)` makes it consume the whole
      run. */
  lemma {:induction false} TriplesToEndIff(s: string, j: nat)
    requires j <= |s|
    ensures TriplesToEnd(s, j) <==> DigitRun(s, j) > 0 && DigitRun(s, j) % 3 == 0
    decreases |s| - j
  {
    if j + 3 <= |s| && IsDigit(s[j]) && IsDigit(s[j + 1]) && IsDigit(s[j + 2]) {
      TriplesToEndIff(s, j + 3);
      assert DigitRun(s, j + 2) == 1 + DigitRun(s, j + 3);
      assert DigitRun(s, j) == 3 + DigitRun(s, j + 3);
    } else {
      assert DigitRun(s, j) < 3;
    }
  }

  /** Where a '.' goes: in front of a digit that follows a word character,
      when the digit run starting there has a length divisible by three. */
  lemma MatchAtIff(s: string, i: nat)
    requires i <= |s|
    ensures MatchAt(s, i) <==>
      && i < |s| && IsDigit(s[i])
      && 0 < i && IsWordChar(s[i - 1])
      && DigitRun(s, i) % 3 == 0
  {
    TriplesToEndIff(s, i);
  }

  /** For a string of digits the rule is plain arithmetic: a '.' goes in
      front of index `i` exactly when `0 < i < n` and `n - i` is a multiple
      of three; never first and never last. */
  lemma DigitMatchAt(s: string, i: nat)
    requires AllDigits(s) && i <= |s|
    ensures MatchAt(s, i) <==> 0 < i < |s| && (|s| - i) % 3 == 0
  {
    MatchAtIff(s, i);
    DigitRunAllDigits(s, i);
  }

  /** The replace never ends in an inserted '.': from any position inside
      the string its output is nonempty and ends with the last character. */
  lemma {:induction false} ReplaceEndsWithLast(s: string, i: nat)
    requires i < |s|
    ensures |ReplaceFrom(s, i)| > 0
    ensures ReplaceFrom(s, i)[|ReplaceFrom(s, i)| - 1] == s[|s| - 1]
    decreases |s| - i
  {
    MatchAtIff(s, |s|);
    if i + 1 < |s| {
      ReplaceEndsWithLast(s, i + 1);
    }
  }

  /** No '.' is put first or last: the output starts with the first
      character of the input and ends with its last one. */
  lemma GroupKeepsEnds(s: string)
    requires |s| > 0
    ensures |Group(s)| > 0
    ensures Group(s)[0] == s[0]
    ensures Group(s)[|Group(s)| - 1] == s[|s| - 1]
  {
    MatchAtIff(s, 0);
    ReplaceEndsWithLast(s, 0);
  }

  /** Nothing but dots is inserted: deleting the dots of the output gives
      the dots-deleted input. */
  lemma {:induction false} ReplaceOnlyInsertsDots(s: string, i: nat)
    requires i <= |s|
    ensures StripDots(ReplaceFrom(s, i)) == StripDots(s[i..])
    decreases |s| - i
  {
    var dot: string := if MatchAt(s, i) then "." else "";
    assert StripDots(dot) == "";
    if i == |s| {
      assert ReplaceFrom(s, i) == dot;
    } else {
      ReplaceOnlyInsertsDots(s, i + 1);
      StripDotsAppend(dot, [s[i]] + ReplaceFrom(s, i + 1));
      StripDotsAppend([s[i]], ReplaceFrom(s, i + 1));
      assert s[i..] == [s[i]] + s[i + 1..];
      StripDotsAppend([s[i]], s[i + 1..]);
    }
  }

  /** Deleting every '.' from `toFormattedAmount(s)` gives back `s` when
      `s` had no dots to begin with. */
  lemma GroupThenStrip(s: string)
    requires NoDots(s)
    ensures StripDots(Group(s)) == s
  {
    ReplaceOnlyInsertsDots(s, 0);
    assert s[0..] == s;
    StripDotsNoDots(s);
  }

  /** After a character that is not a word character, a match decision
      depends only on the text that follows it. */
  lemma MatchShift(p: string, d: string, i: nat)
    requires |p| > 0 && !IsWordChar(p[|p| - 1]) && i <= |d|
    ensures MatchAt(p + d, |p| + i) == MatchAt(d, i)
  {
    var t := p + d;
    MatchAtIff(t, |p| + i);
    MatchAtIff(d, i);
    if i < |d| {
      assert t[|p| + i] == d[i];
      DigitRunShift(p, d, i);
    }
    if i > 0 {
      assert t[|p| + i - 1] == d[i - 1];
    } else {
      assert t[|p| - 1] == p[|p| - 1];
    }
  }

  /** After a character that is not a word character, the matches are
      those of the remaining text on its own. */
  lemma {:induction false} ReplaceShift(p: string, d: string, i: nat)
    requires |p| > 0 && !IsWordChar(p[|p| - 1]) && i <= |d|
    ensures ReplaceFrom(p + d, |p| + i) == ReplaceFrom(d, i)
    decreases |d| - i
  {
    MatchShift(p, d, i);
    if i < |d| {
      assert (p + d)[|p| + i] == d[i];
      ReplaceShift(p, d, i + 1);
    }
  }

  /** Before a character that is not a word character, a match decision
      depends only on the text in front of it. */
  lemma MatchBefore(a: string, rest: string, i: nat)
    requires |rest| > 0 && !IsWordChar(rest[0]) && i <= |a|
    ensures MatchAt(a + rest, i) == MatchAt(a, i)
  {
    var t := a + rest;
    MatchAtIff(t, i);
    MatchAtIff(a, i);
    if i < |a| {
      assert t[i] == a[i];
      DigitRunPrefix(a, rest, i);
    } else {
      assert t[i] == rest[0];
    }
    if i > 0 {
      assert t[i - 1] == a[i - 1];
    }
  }

  /** Before a character that is not a word character, the matches are
      those of the text in front of it on its own. */
  lemma {:induction false} ReplaceBefore(a: string, c: char, b: string, i: nat)
    requires !IsWordChar(c) && i <= |a|
    ensures ReplaceFrom(a + ([c] + b), i) == ReplaceFrom(a, i) + [c] + Group(b)
    decreases |a| - i
  {
    var t := a + ([c] + b);
    MatchBefore(a, [c] + b, i);
    if i < |a| {
      assert t[i] == a[i];
      ReplaceBefore(a, c, b, i + 1);
    } else {
      assert t[i] == c;
      assert t == (a + [c]) + b;
      ReplaceShift(a + [c], b, 0);
    }
  }

  /** A character that is not a word character, such as a sign or a
      decimal point, splits the grouping: the text on each side of it is
      grouped on its own. */
  lemma GroupSplitsAtNonWord(a: string, c: char, b: string)
    requires !IsWordChar(c)
    ensures Group(a + [c] + b) == Group(a) + [c] + Group(b)
  {
    ReplaceBefore(a, c, b, 0);
    assert a + [c] + b == a + ([c] + b);
  }

  /** `\B` fails right after a character such as a leading '-', so the
      sign is kept apart: `"-1234"` is grouped as `"-" + "1.234"`. */
  lemma GroupAfterNonWord(c: char, d: string)
    requires !IsWordChar(c)
    ensures Group([c] + d) == [c] + Group(d)
  {
    GroupSplitsAtNonWord("", c, d);
    assert "" + [c] + d == [c] + d;
    MatchAtIff("", 0);
  }
}
