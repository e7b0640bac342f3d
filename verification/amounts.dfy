/** `String.toDoubleOrNull` for the plain decimal forms an amount cell holds.
    Amounts are exact rationals here, so sums carry no rounding. */
module Amounts {
  import opened Wrappers
  import opened Text

  /** The characters that `toDoubleOrNull` skips around a number: the control
      characters and the space, code points 0 to 32. */
  predicate IsLowChar(c: char) {
    c as int <= 0x20
  }

  /** The first index at or after `i` whose character is not low, or `|s|`. */
  function SkipLow(s: string, i: nat): (j: nat)
    requires i <= |s|
    ensures i <= j <= |s|
    ensures forall k :: i <= k < j ==> IsLowChar(s[k])
    ensures j == |s| || !IsLowChar(s[j])
    decreases |s| - i
  {
    if i < |s| && IsLowChar(s[i]) then SkipLow(s, i + 1) else i
  }

  /** The end, going down from `j` but not below `lo`, after which every
      character up to `j` is low. */
  function SkipLowBack(s: string, lo: nat, j: nat): (e: nat)
    requires lo <= j <= |s|
    ensures lo <= e <= j
    ensures forall k :: e <= k < j ==> IsLowChar(s[k])
    ensures e == lo || !IsLowChar(s[e - 1])
    decreases j
  {
    if lo < j && IsLowChar(s[j - 1]) then SkipLowBack(s, lo, j - 1) else j
  }

  /** Every character is low. */
  predicate AllLow(t: string) {
    forall k :: 0 <= k < |t| ==> IsLowChar(t[k])
  }

  /** `s` without its leading and trailing low characters: a slice of `s`
      that neither starts nor ends with one, everything cut off being low. */
  function StripLow(s: string): (r: string)
    ensures |r| <= |s|
    ensures r == [] || (!IsLowChar(r[0]) && !IsLowChar(r[|r| - 1]))
    ensures exists i :: 0 <= i <= |s| - |r| && r == s[i..i + |r|] && AllLow(s[..i]) && AllLow(s[i + |r|..])
  {
    var i := SkipLow(s, 0);
    var e := SkipLowBack(s, i, |s|);
    StripLowFacts(s, i, e);
    s[i..e]
  }

  /** What `StripLow` cuts off around `s[i..e]` is low. */
  lemma StripLowFacts(s: string, i: nat, e: nat)
    requires i == SkipLow(s, 0) && e == SkipLowBack(s, i, |s|)
    ensures AllLow(s[..i]) && AllLow(s[e..])
  {
    var front := s[..i];
    forall k | 0 <= k < |front|
      ensures IsLowChar(front[k])
    {
      assert front[k] == s[k];
    }
    var back := s[e..];
    forall k | 0 <= k < |back|
      ensures IsLowChar(back[k])
    {
      assert back[k] == s[e + k];
    }
  }

  /** Position of the first `.` in `s`, or `|s|` when there is none. */
  function DotIndex(s: string): (i: nat)
    ensures i <= |s|
    ensures i < |s| ==> s[i] == '.'
    ensures forall k :: 0 <= k < i ==> s[k] != '.'
    decreases |s|
  {
    if s == [] then 0 else if s[0] == '.' then 0 else 1 + DotIndex(s[1..])
  }

  /** `n` divided by ten `k` times: the value of `k` fraction digits. */
  function Scaled(n: int, k: nat): real
    decreases k
  {
    if k == 0 then n as real else Scaled(n, k - 1) / 10.0
  }

  /** The value of the digits `whole` before and `frac` after a point. */
  function DecimalValue(whole: string, frac: string): real
    requires AllDigits(whole) && AllDigits(frac)
  {
    Number(whole) as real + Scaled(Number(frac), |frac|)
  }

  /** An unsigned decimal: digits, optionally followed by `.` and more
      digits, with at least one digit in all (`12`, `12.`, `12.5`, `.5`). */
  function ParseUnsigned(v: string): Option<real>
  {
    var i := DotIndex(v);
    var whole := v[..i];
    var frac := if i < |v| then v[i + 1..] else [];
    if AllDigits(whole) && AllDigits(frac) && |whole| + |frac| > 0 then
      Some(DecimalValue(whole, frac))
    else None
  }

  /** The type suffixes `toDoubleOrNull` accepts after the digits. */
  predicate IsTypeSuffix(c: char) {
    c == 'f' || c == 'F' || c == 'd' || c == 'D'
  }

  /** `u` without a trailing type suffix. */
  function Unsuffixed(u: string): string {
    if |u| > 0 && IsTypeSuffix(u[|u| - 1]) then u[..|u| - 1] else u
  }

  function Negate(r: Option<real>): Option<real> {
    match r
    case None => None
    case Some(x) => Some(-x)
  }

  /** `amountStr.toDoubleOrNull()` on decimal forms: surrounding low
      characters are skipped, then an optional sign, an unsigned decimal and an
      optional `f`, `F`, `d` or `D` suffix. Anything else is not a number. */
  function ParseAmount(s: string): Option<real>
  {
    var t := StripLow(s);
    if t == [] then None
    else if t[0] == '-' then Negate(ParseUnsigned(Unsuffixed(t[1..])))
    else if t[0] == '+' then ParseUnsigned(Unsuffixed(t[1..]))
    else ParseUnsigned(Unsuffixed(t))
  }

  lemma StripLowKeeps(s: string)
    requires s != [] && !IsLowChar(s[0]) && !IsLowChar(s[|s| - 1])
    ensures StripLow(s) == s
  {
  }

  lemma {:induction false} DotIndexOfDigits(a: string, b: string)
    requires AllDigits(a)
    ensures DotIndex(a + ['.'] + b) == |a|
    decreases |a|
  {
    if a != [] {
      assert (a + ['.'] + b)[1..] == a[1..] + ['.'] + b;
      DotIndexOfDigits(a[1..], b);
    }
  }

  lemma ParseUnsignedWithDot(whole: string, frac: string)
    requires AllDigits(whole) && AllDigits(frac) && |whole| > 0
    ensures ParseUnsigned(whole + ['.'] + frac)
            == Some(DecimalValue(whole, frac))
  {
    var v := whole + ['.'] + frac;
    DotIndexOfDigits(whole, frac);
    assert v[..|whole|] == whole;
    assert v[|whole| + 1..] == frac;
  }

  /** A leading `-` negates what the rest of the text parses to. */
  lemma ParseNegated(v: string)
    requires v != [] && !IsLowChar(v[0]) && !IsLowChar(v[|v| - 1])
    requires v[0] != '-' && v[0] != '+'
    ensures ParseAmount(['-'] + v) == Negate(ParseAmount(v))
  {
    var w := ['-'] + v;
    assert w[1..] == v && w[|w| - 1] == v[|v| - 1];
    StripLowKeeps(w);
    StripLowKeeps(v);
  }

  /** Digits `whole`, a point, digits `frac`. */
  function DecimalText(whole: string, frac: string): string {
    whole + ['.'] + frac
  }

  /** A plain `digits.digits` text parses to its decimal value. */
  lemma ParsePlainDecimal(whole: string, frac: string)
    requires AllDigits(whole) && AllDigits(frac) && |whole| > 0 && |frac| > 0
    ensures ParseAmount(DecimalText(whole, frac)) == Some(DecimalValue(whole, frac))
  {
    var v := whole + ['.'] + frac;
    ParseUnsignedWithDot(whole, frac);
    assert v[0] == whole[0] && v[|v| - 1] == frac[|frac| - 1];
    assert !IsTypeSuffix(v[|v| - 1]);
    assert Unsuffixed(v) == v;
    StripLowKeeps(v);
  }

  /** A `-` before a plain `digits.digits` text negates its value. */
  lemma ParseNegativeDecimal(whole: string, frac: string)
    requires AllDigits(whole) && AllDigits(frac) && |whole| > 0 && |frac| > 0
    ensures ParseAmount(['-'] + DecimalText(whole, frac)) == Negate(Some(DecimalValue(whole, frac)))
  {
    ParsePlainDecimal(whole, frac);
    NegatedDecimal(whole, frac);
  }

  lemma NegatedDecimal(whole: string, frac: string)
    requires AllDigits(whole) && AllDigits(frac) && |whole| > 0 && |frac| > 0
    ensures ParseAmount(['-'] + DecimalText(whole, frac)) == Negate(ParseAmount(DecimalText(whole, frac)))
  {
    var v := DecimalText(whole, frac);
    assert v[0] == whole[0] && v[|v| - 1] == frac[|frac| - 1];
    ParseNegated(v);
  }

  /** The characters a number may be written with. */
  predicate NumberChar(c: char) {
    IsDigit(c) || c == '.' || c == '+' || c == '-' || IsTypeSuffix(c)
  }

  /** An unsigned decimal holds digits and at most one point, and at least
      one digit. */
  lemma UnsignedChars(v: string)
    requires ParseUnsigned(v).Some?
    ensures forall k :: 0 <= k < |v| ==> IsDigit(v[k]) || v[k] == '.'
    ensures forall k, l :: 0 <= k < l < |v| && v[k] == '.' ==> v[l] != '.'
    ensures exists k :: 0 <= k < |v| && IsDigit(v[k])
  {
    var i := DotIndex(v);
    var whole := v[..i];
    var frac := if i < |v| then v[i + 1..] else [];
    forall k | 0 <= k < |v|
      ensures IsDigit(v[k]) || v[k] == '.'
      ensures k > i ==> IsDigit(v[k])
    {
      if k < i {
        assert v[k] == whole[k];
      } else if k > i {
        assert v[k] == frac[k - i - 1];
      }
    }
    if |whole| > 0 {
      assert IsDigit(v[0]) by { assert v[0] == whole[0]; }
    } else {
      assert IsDigit(v[i + 1]) by { assert v[i + 1] == frac[0]; }
    }
  }

  /** What the amount parser accepts: once the surrounding low characters
      are skipped, only number characters are left, with at least one digit.
      So `1,234`, `12 EUR`, `abc` and the empty text are not amounts. */
  lemma ParsedAmountShape(s: string)
    requires ParseAmount(s).Some?
    ensures var t := StripLow(s);
            && (forall k :: 0 <= k < |t| ==> NumberChar(t[k]))
            && (exists k :: 0 <= k < |t| && IsDigit(t[k]))
  {
    var t := StripLow(s);
    assert t != [];
    var d := if t[0] == '-' || t[0] == '+' then 1 else 0;
    var u := Unsuffixed(t[d..]);
    AcceptedBody(s, t, u);
    UnsignedChars(u);
    SignedChars(t, d, u);
  }

  /** The text after the sign, without its suffix, is an unsigned decimal. */
  lemma AcceptedBody(s: string, t: string, u: string)
    requires ParseAmount(s).Some? && t == StripLow(s) && t != []
    requires u == Unsuffixed(if t[0] == '-' || t[0] == '+' then t[1..] else t)
    ensures ParseUnsigned(u).Some?
  {
    if t[0] == '-' {
      assert ParseAmount(s) == Negate(ParseUnsigned(u));
    }
  }

  /** A sign, number characters and a suffix are number characters. */
  lemma SignedChars(t: string, d: nat, u: string)
    requires d <= 1 && d <= |t| && (d == 1 ==> t[0] == '-' || t[0] == '+')
    requires u == Unsuffixed(t[d..])
    requires forall k :: 0 <= k < |u| ==> IsDigit(u[k]) || u[k] == '.'
    requires exists k :: 0 <= k < |u| && IsDigit(u[k])
    ensures forall k :: 0 <= k < |t| ==> NumberChar(t[k])
    ensures exists k :: 0 <= k < |t| && IsDigit(t[k])
  {
    var body := t[d..];
    assert u == body[..|u|];
    forall k | 0 <= k < |t|
      ensures NumberChar(t[k])
    {
      if k >= d {
        assert t[k] == body[k - d];
        if k - d < |u| {
          assert body[k - d] == u[k - d];
        }
      }
    }
    var j :| 0 <= j < |u| && IsDigit(u[j]);
    assert t[d + j] == u[j];
  }
}
