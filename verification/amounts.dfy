/** `toFormattedAmount` and `fromFormattedAmount`: an amount given as a
    string or a number, grouped by thousands with '.', and read back. */
module Amounts {
  import opened Chars
  import opened Grouping
  import opened DigitGroups
  import opened Numbers

  /** `Number.MAX_SAFE_INTEGER`. Up to this magnitude every integer is a
      double and `toString` prints its exact decimal digits. */
  const MaxSafeInteger: int := 0x1F_FFFF_FFFF_FFFF

  type SafeInteger = n: int | -MaxSafeInteger <= n <= MaxSafeInteger

  /** The `string | number` argument of both functions. */
  datatype Amount = Text(s: string) | Number(n: SafeInteger)

  /** `amount.toString()`. */
  function AmountToString(a: Amount): string {
    match a
    case Text(s) => s
    case Number(n) => IntToString(n)
  }

  /** `toFormattedAmount(amount)`. */
  function ToFormattedAmount(a: Amount): string {
    Group(AmountToString(a))
  }

  /** `fromFormattedAmount(amount)`: 0 for the empty string, otherwise
      `parseFloat` of the string with every '.' deleted. */
  function FromFormattedAmount(a: Amount): Float {
    var s := AmountToString(a);
    if s == "" then Integral(0) else ParseFloat(StripDots(s))
  }

  /** The empty string reads as 0, while a string of dots alone, which is
      not empty but deletes to the empty string, reads as NaN. */
  lemma FromFormattedEmpty()
    ensures FromFormattedAmount(Text("")) == Integral(0)
    ensures FromFormattedAmount(Text(".")) == NaN
  {
    assert StripDots(".") == "";
    ParseDigits("");
  }

  /** A number given as such reads as itself. */
  lemma FromFormattedNumber(n: SafeInteger)
    ensures FromFormattedAmount(Number(n)) == Integral(n)
  {
    var s := IntToString(n);
    assert forall i :: 0 <= i < |s| ==> s[i] != '.';
    StripDotsNoDots(s);
    ParseIntToString(n);
  }

  /** Round trip for a digit string: formatting and reading back gives its
      value (the empty string gives 0). */
  lemma RoundTripDigits(s: string)
    requires AllDigits(s)
    ensures FromFormattedAmount(Text(ToFormattedAmount(Text(s)))) == Integral(DigitsToNat(s))
  {
    if |s| == 0 {
      MatchAtIff(s, 0);
      assert Group(s) == "";
    } else {
      GroupKeepsEnds(s);
      GroupThenStrip(s);
      ParseDigits(s);
    }
  }

  /** Round trip for a digit string behind a minus sign: the sign is kept
      apart from the groups and comes back as the sign of the value. */
  lemma RoundTripNegative(d: string)
    requires AllDigits(d) && |d| > 0
    ensures ToFormattedAmount(Text("-" + d)) == "-" + Group(d)
    ensures FromFormattedAmount(Text(ToFormattedAmount(Text("-" + d)))) == Integral(-(DigitsToNat(d) as int))
  {
    GroupAfterNonWord('-', d);
    assert "-" + d == ['-'] + d;
    var g := Group(d);
    GroupThenStrip(d);
    StripDotsAppend("-", g);
    assert StripDots("-") == "-";
    assert StripDots("-" + g) == "-" + d;
    assert "-" + g != "";
    ParseNegative(d);
  }

  /** Round trip for a number: `fromFormattedAmount(toFormattedAmount(n))`
      is `n`. */
  lemma RoundTripNumber(n: SafeInteger)
    ensures FromFormattedAmount(Text(ToFormattedAmount(Number(n)))) == Integral(n)
  {
    if n < 0 {
      RoundTripNegative(NatToDigits(-n));
      DigitsOfNat(-n);
    } else {
      RoundTripDigits(NatToDigits(n));
      DigitsOfNat(n);
    }
  }

  lemma GroupExample()
    ensures Group("1234567") == "1.234.567"
  {
    var s := "1234567";
    GroupDigits(s);
    assert s[..LeadLength(|s|)] == "1";
    assert s[1..] == "234567";
    var t := "234567";
    assert t[..3] == "234" && t[3..] == "567";
    var u := "567";
    assert u[..3] == u && u[3..] == "";
    assert DotTriples(u) == ".567";
    assert DotTriples(t) == ".234" + ".567";
  }

  lemma DigitsExample()
    ensures DigitsToNat("1234567") == 1234567
    ensures IntToString(1234567) == "1234567"
  {
    var s := "1234567";
    assert s[..6] == "123456";
    assert "123456"[..5] == "12345";
    assert "12345"[..4] == "1234";
    assert "1234"[..3] == "123";
    assert "123"[..2] == "12";
    assert "12"[..1] == "1";
    assert "1"[..0] == "";
    NatOfDigits(s);
  }

  /** 1234567 is written `1.234.567`. */
  lemma ToFormattedExample()
    ensures ToFormattedAmount(Number(1234567)) == "1.234.567"
  {
    DigitsExample();
    GroupExample();
  }

  /** `1.234.567` is read back as 1234567. */
  lemma FromFormattedExample()
    ensures FromFormattedAmount(Text("1.234.567")) == Integral(1234567)
  {
    var s := "1234567";
    GroupExample();
    DigitsExample();
    RoundTripDigits(s);
  }

  lemma GroupExampleShort()
    ensures Group("1234") == "1.234"
  {
    var d := "1234";
    GroupDigits(d);
    assert d[..LeadLength(|d|)] == "1" && d[1..] == "234";
    assert DotTriples("234") == ".234";
  }

  lemma GroupExampleFraction()
    ensures Group("5678") == "5.678"
  {
    var d := "5678";
    GroupDigits(d);
    assert d[..LeadLength(|d|)] == "5" && d[1..] == "678";
    assert DotTriples("678") == ".678";
  }

  /** `-1234` keeps its sign apart from the groups. */
  lemma NegativeExample()
    ensures ToFormattedAmount(Text("-1234")) == "-1.234"
  {
    GroupExampleShort();
    GroupAfterNonWord('-', "1234");
    assert ['-'] + "1234" == "-1234";
    assert ['-'] + "1.234" == "-1.234";
  }

  /** The decimal point is deleted like a thousands separator: a
      fraction `a.b` is read as the digits of `a` and `b` run together,
      so `"1.5"` is read as 15. */
  lemma DecimalPointDeleted(a: string, b: string)
    requires AllDigits(a) && AllDigits(b) && |a| > 0
    ensures FromFormattedAmount(Text(a + "." + b)) == FromFormattedAmount(Text(a + b))
    ensures FromFormattedAmount(Text(a + "." + b)) == Integral(DigitsToNat(a + b))
  {
    var ab := a + b;
    AllDigitsAppend(a, b);
    StripDotBetween(a, b);
    assert a + "." + b != "";
    assert ab != "";
    StripDotsNoDots(ab);
    ParseDigits(ab);
  }

  /** A text amount with a fraction is grouped on both sides of its
      decimal point: the digits after it are grouped as a number of their
      own, so `"1234.5678"` becomes `"1.234.5.678"`. */
  lemma FractionExample()
    ensures ToFormattedAmount(Text("1234.5678")) == "1.234.5.678"
  {
    GroupExampleShort();
    GroupExampleFraction();
    var f := "5678";
    GroupSplitsAtNonWord("1234", '.', f);
    assert "1234" + ['.'] + f == "1234.5678";
    assert "1.234" + ['.'] + "5.678" == "1.234.5.678";
  }
}
