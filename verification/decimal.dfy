/**
 Decimal text for the numeric fields of a saved line. Hours are written by
 `Integer.toString` and read back by `Integer.parseInt`, which takes an
 optional sign followed by one or more decimal digits and refuses any value
 outside the 32-bit range. Only the ASCII digits '0'..'9' are read here;
 `Integer.parseInt` also accepts the decimal digits of other scripts, which
 `Integer.toString` never writes. The signed decimal form is also the
 exponent of a salary's scientific form (see `DoubleFormat`).
 */
module Decimal {
  import opened Wrappers

  const INT_MIN: int := -0x8000_0000
  const INT_MAX: int := 0x7fff_ffff

  predicate IsDigit(c: char) {
    '0' <= c <= '9'
  }

  predicate AllDigits(s: string) {
    forall i :: 0 <= i < |s| ==> IsDigit(s[i])
  }

  function DigitChar(d: nat): (c: char)
    requires d < 10
    ensures IsDigit(c)
  {
    ('0' as int + d) as char
  }

  function DigitValue(c: char): (d: nat)
    requires IsDigit(c)
    ensures d < 10 && DigitChar(d) == c
  {
    c as int - '0' as int
  }

  /** The decimal digits of `n`, most significant first, with no leading zero. */
  function NatText(n: nat): (s: string)
    ensures |s| >= 1 && AllDigits(s)
    ensures |s| > 1 ==> s[0] != '0'
    decreases n
  {
    if n < 10 then [DigitChar(n)] else NatText(n / 10) + [DigitChar(n % 10)]
  }

  /** The number a string of decimal digits denotes. */
  function DigitsValue(s: string): nat
    requires AllDigits(s)
    decreases |s|
  {
    if |s| == 0 then 0 else 10 * DigitsValue(s[..|s| - 1]) + DigitValue(s[|s| - 1])
  }

  /** Reading back the digits of `n` gives `n`. */
  lemma {:induction false} NatTextRoundTrip(n: nat)
    ensures DigitsValue(NatText(n)) == n
    decreases n
  {
    if n >= 10 {
      var s := NatText(n);
      assert s[..|s| - 1] == NatText(n / 10);
      NatTextRoundTrip(n / 10);
    }
  }

  /** `Integer.toString`: a minus sign before the digits of a negative number. */
  function IntText(i: int): (s: string)
    ensures |s| >= 1
    ensures forall k :: 0 <= k < |s| ==> IsDigit(s[k]) || s[k] == '-'
    ensures ',' !in s
    ensures s[0] == '-' <==> i < 0
  {
    if i < 0 then "-" + NatText(-i) else NatText(i)
  }

  /** The accepted form: an optional sign followed by one or more digits. */
  predicate SignedDecimal(s: string) {
    || (|s| >= 1 && AllDigits(s))
    || (|s| >= 2 && (s[0] == '-' || s[0] == '+') && AllDigits(s[1..]))
  }

  /** The number written in the signed decimal form, of any magnitude: negative only after a
      minus sign. */
  function ParseSigned(s: string): (r: Option<int>)
    ensures r.Some? <==> SignedDecimal(s)
    ensures r.Some? && s[0] == '-' ==> r.value <= 0
    ensures r.Some? && s[0] != '-' ==> r.value >= 0
  {
    if |s| >= 1 && (s[0] == '-' || s[0] == '+') then
      var digits := s[1..];
      if |digits| >= 1 && AllDigits(digits) then
        var magnitude: int := DigitsValue(digits);
        Some(if s[0] == '-' then -magnitude else magnitude)
      else None
    else if |s| >= 1 && AllDigits(s) then Some(DigitsValue(s))
    else None
  }

  /** `Integer.parseInt`: the signed decimal form, refused when outside the 32-bit range. */
  function ParseJavaInt(s: string): (r: Option<int>)
    ensures r.Some? ==> INT_MIN <= r.value <= INT_MAX && ParseSigned(s) == r
    ensures r.None? && ParseSigned(s).Some? ==> ParseSigned(s).value < INT_MIN || INT_MAX < ParseSigned(s).value
  {
    match ParseSigned(s)
    case Some(v) => if INT_MIN <= v <= INT_MAX then Some(v) else None
    case None => None
  }

  /** Every integer's text is read back as that integer. */
  lemma IntTextRoundTrip(i: int)
    ensures ParseSigned(IntText(i)) == Some(i)
  {
    var s := IntText(i);
    if i < 0 {
      assert s[0] == '-' && s[1..] == NatText(-i);
      NatTextRoundTrip(-i);
    } else {
      assert s == NatText(i);
      NatTextRoundTrip(i);
    }
  }

  /** Within the 32-bit range the text is also read back by `Integer.parseInt`. */
  lemma JavaIntRoundTrip(i: int)
    requires INT_MIN <= i <= INT_MAX
    ensures ParseJavaInt(IntText(i)) == Some(i)
  {
    IntTextRoundTrip(i);
  }
}
