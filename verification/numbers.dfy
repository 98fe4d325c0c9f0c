/** Decimal digit strings and the integer part of `parseFloat`.
    Values are exact integers; a double that is not an integer the model
    computes (a fraction, an exponent, Infinity) is reported as `Other`. */
module Numbers {
  import opened Chars

  /** The value of a decimal digit string; the empty string is 0. */
  function DigitsToNat(s: string): nat
    requires AllDigits(s)
    decreases |s|
  {
    if |s| == 0 then 0 else 10 * DigitsToNat(s[..|s| - 1]) + DigitValue(s[|s| - 1])
  }

  /** The decimal digits of `n`, without leading zeros. */
  function NatToDigits(n: nat): (s: string)
    ensures |s| > 0 && AllDigits(s)
    ensures s[0] == '0' <==> n == 0
    decreases n
  {
    if n < 10 then [DigitChar(n)] else NatToDigits(n / 10) + [DigitChar(n % 10)]
  }

  /** `Number.prototype.toString` of an integer whose decimal form it
      prints in full. */
  function IntToString(n: int): string {
    if n < 0 then "-" + NatToDigits(-n) else NatToDigits(n)
  }

  /** A digit string without a superfluous leading zero. */
  predicate Canonical(s: string) {
    AllDigits(s) && |s| > 0 && (s[0] != '0' || |s| == 1)
  }

  lemma {:induction false} DigitsOfNat(n: nat)
    ensures DigitsToNat(NatToDigits(n)) == n
    decreases n
  {
    if n >= 10 {
      DigitsOfNat(n / 10);
      var s := NatToDigits(n);
      assert s[..|s| - 1] == NatToDigits(n / 10);
    }
  }

  lemma {:induction false} LeadingNonZero(s: string)
    requires AllDigits(s) && |s| > 0 && s[0] != '0'
    ensures DigitsToNat(s) > 0
    decreases |s|
  {
    if |s| > 1 {
      LeadingNonZero(s[..|s| - 1]);
    }
  }

  /** Digit strings without leading zeros and natural numbers correspond
      one to one. */
  lemma {:induction false} NatOfDigits(s: string)
    requires Canonical(s)
    ensures NatToDigits(DigitsToNat(s)) == s
    decreases |s|
  {
    var n := DigitsToNat(s);
    if |s| == 1 {
      assert DigitChar(DigitValue(s[0])) == s[0];
    } else {
      var p := s[..|s| - 1];
      LeadingNonZero(p);
      NatOfDigits(p);
      assert n / 10 == DigitsToNat(p) && n % 10 == DigitValue(s[|s| - 1]);
      assert DigitChar(DigitValue(s[|s| - 1])) == s[|s| - 1];
      assert s == p + [s[|s| - 1]];
    }
  }

  /** What `parseFloat` returns, as far as this model computes it. */
  datatype Float =
    | Integral(value: int)
    | NaN
      /** A fraction, a value with an exponent, or an infinity. */
    | Other

  /** WhiteSpace and LineTerminator code points of ECMAScript, which
      `parseFloat` skips at the front. */
  predicate IsWhitespace(c: char) {
    || c == '\t' || c == '\n' || c == '\U{B}' || c == '\U{C}' || c == '\r'
    || c == ' ' || c == '\U{A0}' || c == '\U{1680}'
    || ('\U{2000}' <= c <= '\U{200A}')
    || c == '\U{2028}' || c == '\U{2029}' || c == '\U{202F}' || c == '\U{205F}'
    || c == '\U{3000}' || c == '\U{FEFF}'
  }

  /** `s` without its leading whitespace. */
  function TrimStart(s: string): (t: string)
    ensures |t| <= |s| && t == s[|s| - |t|..]
    ensures forall i :: 0 <= i < |s| - |t| ==> IsWhitespace(s[i])
    ensures |t| == 0 || !IsWhitespace(t[0])
    decreases |s|
  {
    if |s| > 0 && IsWhitespace(s[0]) then TrimStart(s[1..]) else s
  }

  /** An ExponentPart (`e` or `E`, an optional sign, a digit) starts at `k`. */
  predicate ExponentAt(t: string, k: nat) {
    && k < |t| && (t[k] == 'e' || t[k] == 'E')
    && (DigitAt(t, k + 1) || (k + 1 < |t| && (t[k + 1] == '+' || t[k + 1] == '-') && DigitAt(t, k + 2)))
  }

  predicate StartsWith(t: string, p: string) {
    |p| <= |t| && t[..|p|] == p
  }

  /** The longest prefix of `t` that is an unsigned decimal literal. */
  function ParseUnsigned(t: string): Float {
    var k := DigitRun(t, 0);
    if k == 0 then
      if StartsWith(t, "Infinity") || (|t| >= 2 && t[0] == '.' && IsDigit(t[1])) then Other else NaN
    else if ExponentAt(t, k) then Other
    else if k < |t| && t[k] == '.' && (DigitAt(t, k + 1) || ExponentAt(t, k + 1)) then Other
    else Integral(DigitsToNat(t[..k]))
  }

  function Negate(f: Float): Float {
    match f
    case Integral(v) => Integral(-v)
    case _ => f
  }

  /** `parseFloat(s)`: leading whitespace skipped, an optional sign, then
      the longest prefix that reads as a decimal literal; NaN when there
      is none. */
  function ParseFloat(s: string): Float {
    var t := TrimStart(s);
    if |t| > 0 && t[0] == '-' then Negate(ParseUnsigned(t[1..]))
    else if |t| > 0 && t[0] == '+' then ParseUnsigned(t[1..])
    else ParseUnsigned(t)
  }

  /** A run of digits read by itself: stopping at the first character
      that cannot continue the literal. */
  lemma ParseUnsignedDigitsThen(d: string, rest: string)
    requires AllDigits(d) && |d| > 0
    requires |rest| > 0 ==> !IsDigit(rest[0]) && rest[0] != '.' && rest[0] != 'e' && rest[0] != 'E'
    ensures ParseUnsigned(d + rest) == Integral(DigitsToNat(d))
  {
    var t := d + rest;
    assert forall m :: 0 <= m < |d| ==> t[m] == d[m];
    assert |rest| > 0 ==> t[|d|] == rest[0];
    assert DigitRun(t, 0) == |d|;
    assert !ExponentAt(t, |d|);
    assert t[..|d|] == d;
  }

  lemma TrimStartStops(s: string)
    requires |s| > 0 && !IsWhitespace(s[0])
    ensures TrimStart(s) == s
  {
  }

  /** `parseFloat` stops at the first character that cannot continue the
      literal: digits followed by such a character give the digits' value. */
  lemma ParseDigitsThen(d: string, rest: string)
    requires AllDigits(d) && |d| > 0
    requires |rest| > 0 ==> !IsDigit(rest[0]) && rest[0] != '.' && rest[0] != 'e' && rest[0] != 'E'
    ensures ParseFloat(d + rest) == Integral(DigitsToNat(d))
  {
    var t := d + rest;
    assert t[0] == d[0];
    TrimStartStops(t);
    ParseUnsignedDigitsThen(d, rest);
  }

  /** A nonempty digit string parses to its value; the empty string is NaN. */
  lemma ParseDigits(d: string)
    requires AllDigits(d)
    ensures |d| > 0 ==> ParseFloat(d) == Integral(DigitsToNat(d))
    ensures |d| == 0 ==> ParseFloat(d) == NaN
  {
    if |d| > 0 {
      ParseDigitsThen(d, "");
      assert d + "" == d;
    }
  }

  /** A minus sign in front negates the value. */
  lemma ParseNegative(d: string)
    requires AllDigits(d) && |d| > 0
    ensures ParseFloat("-" + d) == Integral(-(DigitsToNat(d) as int))
  {
    var t := "-" + d;
    TrimStartStops(t);
    assert t[1..] == d + "";
    ParseUnsignedDigitsThen(d, "");
  }

  /** `parseFloat` reads back what `toString` wrote. */
  lemma ParseIntToString(n: int)
    ensures ParseFloat(IntToString(n)) == Integral(n)
  {
    if n < 0 {
      ParseNegative(NatToDigits(-n));
      DigitsOfNat(-n);
    } else {
      ParseDigits(NatToDigits(n));
      DigitsOfNat(n);
    }
  }
}
