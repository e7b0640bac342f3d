/** Amounts in minor units written as `[-]units.cc`, and the round trip of
    that text through the amount parser. */
module Cents {
  import opened Wrappers
  import opened Text
  import opened Amounts

  /** A non-negative amount in minor units (hundredths) written as
      `units.cc`. */
  function CentsText(m: nat): (s: string)
    ensures |s| >= 4 && IsDigit(s[0]) && IsDigit(s[|s| - 1])
  {
    DecimalText(Pad(m / 100, 1 + Digits(m / 100)), Pad(m % 100, 2))
  }

  function Abs(c: int): nat {
    if c < 0 then -c else c
  }

  /** An amount in minor units written as `[-]units.cc`. */
  function FormatCents(c: int): string {
    if c < 0 then ['-'] + CentsText(Abs(c)) else CentsText(Abs(c))
  }

  /** How many digits beyond the first `n` needs. */
  function Digits(n: nat): (d: nat)
    ensures n < Pow10(1 + d)
  {
    if n < 10 then 0 else 1 + Digits(n / 10)
  }
}

/** The text of an amount in minor units is read back by the amount parser
    as exactly that many hundredths. */
module CentsRoundTrip {
  import opened Wrappers
  import opened Text
  import opened Amounts
  import opened Cents

  /** `units.cc` is read back as `m` hundredths, and `-units.cc` as their
      negation. */
  lemma ParseCentsText(m: nat)
    ensures ParseAmount(CentsText(m)) == Some(m as real / 100.0)
    ensures ParseAmount(['-'] + CentsText(m)) == Some(-(m as real / 100.0))
  {
    ParsePositiveCents(m);
    ParseNegativeCents(m);
  }

  lemma ParsePositiveCents(m: nat)
    ensures ParseAmount(CentsText(m)) == Some(m as real / 100.0)
  {
    var whole := Pad(m / 100, 1 + Digits(m / 100));
    var frac := Pad(m % 100, 2);
    CentsPieces(m, whole, frac);
    ParsePlainDecimal(whole, frac);
    SameValue(ParseAmount(CentsText(m)), DecimalValue(whole, frac), m as real / 100.0);
  }

  lemma ParseNegativeCents(m: nat)
    ensures ParseAmount(['-'] + CentsText(m)) == Some(-(m as real / 100.0))
  {
    var whole := Pad(m / 100, 1 + Digits(m / 100));
    var frac := Pad(m % 100, 2);
    CentsPieces(m, whole, frac);
    ParseNegativeDecimal(whole, frac);
    NegatedValue(ParseAmount(['-'] + CentsText(m)), DecimalValue(whole, frac), m as real / 100.0);
  }

  /** The two digit groups of `units.cc` and their decimal value. */
  lemma CentsPieces(m: nat, whole: string, frac: string)
    requires whole == Pad(m / 100, 1 + Digits(m / 100)) && frac == Pad(m % 100, 2)
    ensures AllDigits(whole) && AllDigits(frac) && |whole| > 0 && |frac| > 0
    ensures DecimalValue(whole, frac) == m as real / 100.0
  {
    NumberOfPad(m / 100, 1 + Digits(m / 100));
    NumberOfPad(m % 100, 2);
    CentsValue(m);
  }

  lemma NegatedValue(r: Option<real>, x: real, y: real)
    requires r == Negate(Some(x)) && x == y
    ensures r == Some(-y)
  {
  }

  lemma SameValue(r: Option<real>, x: real, y: real)
    requires r == Some(x) && x == y
    ensures r == Some(y)
  {
  }

  /** Every amount written as `[-]units.cc` is read back as that many
      hundredths. */
  lemma ParseFormattedCents(c: int)
    ensures ParseAmount(FormatCents(c)) == Some(c as real / 100.0)
  {
    if c < 0 {
      ParseFormattedNegative(c);
    } else {
      ParseFormattedNonNegative(c);
    }
  }

  lemma ParseFormattedNegative(c: int)
    requires c < 0
    ensures ParseAmount(['-'] + CentsText(Abs(c))) == Some(c as real / 100.0)
  {
    ParseCentsText(Abs(c));
    NegativeHundredths(c, ParseAmount(['-'] + CentsText(Abs(c))));
  }

  lemma ParseFormattedNonNegative(c: int)
    requires c >= 0
    ensures ParseAmount(CentsText(Abs(c))) == Some(c as real / 100.0)
  {
    ParseCentsText(Abs(c));
    NonNegativeHundredths(c, ParseAmount(CentsText(Abs(c))));
  }

  lemma NegativeHundredths(c: int, r: Option<real>)
    requires c < 0 && r == Some(-(Abs(c) as real / 100.0))
    ensures r == Some(c as real / 100.0)
  {
  }

  lemma NonNegativeHundredths(c: int, r: Option<real>)
    requires c >= 0 && r == Some(Abs(c) as real / 100.0)
    ensures r == Some(c as real / 100.0)
  {
  }

  /** The arithmetic of `[-]units.cc`: units plus hundredths. */
  lemma CentsValue(m: nat)
    ensures (m / 100) as real + Scaled(m % 100, 2) == m as real / 100.0
  {
  }
}
