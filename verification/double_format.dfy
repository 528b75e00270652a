/**
 The salary field of a saved line, written by `Double.toString` and read
 back by `Double.parseDouble`. Salaries are whole amounts here. For a whole
 amount `Double.toString` writes the digits followed by ".0" when the
 magnitude is below 10^7, and otherwise the computerized scientific form:
 one digit, a point, the remaining significant digits (at least one) and
 "E" with the decimal exponent. So 1000 is "1000.0", 10^7 is "1.0E7" and
 12345678 is "1.2345678E7". The reader takes an optional sign, one or more
 digits, an optional point with more digits, and an optional exponent, and
 yields the amount when it is whole.
 */
module DoubleFormat {
  import opened Wrappers
  import opened Decimal

  /** From this magnitude on, `Double.toString` switches to the scientific form. */
  const PLAIN_LIMIT: int := 10_000_000

  function Pow10(k: nat): (p: nat)
    ensures p >= 1
  {
    if k == 0 then 1 else 10 * Pow10(k - 1)
  }

  /** `k` zero digits. */
  function Zeros(k: nat): (s: string)
    ensures |s| == k
    ensures forall i :: 0 <= i < k ==> s[i] == '0'
  {
    seq(k, i => '0')
  }

  /** `s` without its trailing zero digits. */
  function TrimZeros(s: string): (r: string)
    ensures |r| <= |s|
    ensures s == r + Zeros(|s| - |r|)
    ensures |r| > 0 ==> r[|r| - 1] != '0'
    decreases |s|
  {
    if |s| > 0 && s[|s| - 1] == '0' then
      var r := TrimZeros(s[..|s| - 1]);
      assert s == s[..|s| - 1] + "0";
      assert Zeros(|s| - 1 - |r|) + "0" == Zeros(|s| - |r|);
      r
    else
      assert s == s + Zeros(0);
      s
  }

  /** Nothing is left of zeros alone. */
  lemma {:induction false} TrimAllZeros(k: nat)
    ensures TrimZeros(Zeros(k)) == ""
  {
    if k > 0 {
      assert Zeros(k)[..k - 1] == Zeros(k - 1);
      TrimAllZeros(k - 1);
    }
  }

  /** A character that can appear in the text of a whole amount. */
  predicate NumberChar(c: char) {
    IsDigit(c) || c == '-' || c == '.' || c == 'E'
  }

  /** The scientific form of a magnitude of at least 10^7: a digit, a point, one or more
      fraction digits, the mark E, and one or more exponent digits. */
  function ScientificText(m: nat): (s: string)
    requires m >= PLAIN_LIMIT
    ensures |s| >= 3 && IsDigit(s[0]) && s[1] == '.'
    ensures forall i :: 0 <= i < |s| ==> NumberChar(s[i])
    ensures exists e :: 2 < e < |s| - 1 && s[e] == 'E' && AllDigits(s[2..e]) && AllDigits(s[e + 1..])
  {
    var digits := NatText(m);
    var trimmed := TrimZeros(digits[1..]);
    var frac := if |trimmed| == 0 then "0" else trimmed;
    var exponent := NatText(|digits| - 1);
    assert AllDigits(frac) by {
      assert forall i :: 0 <= i < |trimmed| ==> trimmed[i] == digits[1 + i];
    }
    ScientificLayout(digits[0], frac, exponent);
    [digits[0]] + "." + frac + "E" + exponent
  }

  /** A digit, a point, fraction digits, the mark E and exponent digits: only number
      characters, with the mark between the two runs of digits. */
  lemma ScientificLayout(d: char, frac: string, exponent: string)
    requires IsDigit(d) && |frac| >= 1 && AllDigits(frac) && |exponent| >= 1 && AllDigits(exponent)
    ensures var s := [d] + "." + frac + "E" + exponent;
      && (forall i :: 0 <= i < |s| ==> NumberChar(s[i]))
      && exists e :: 2 < e < |s| - 1 && s[e] == 'E' && AllDigits(s[2..e]) && AllDigits(s[e + 1..])
  {
    var s := [d] + "." + frac + "E" + exponent;
    forall i | 0 <= i < |s|
      ensures NumberChar(s[i])
    {
      if 2 <= i < 2 + |frac| {
        assert s[i] == frac[i - 2];
      } else if 2 + |frac| < i {
        assert s[i] == exponent[i - 3 - |frac|];
      }
    }
    var e := 2 + |frac|;
    assert s[e] == 'E' && s[2..e] == frac && s[e + 1..] == exponent;
  }

  /** `Double.toString` of a non-negative whole amount. */
  function UnsignedText(m: nat): (s: string)
    ensures |s| >= 3 && IsDigit(s[0])
    ensures forall i :: 0 <= i < |s| ==> NumberChar(s[i])
    ensures '.' in s
  {
    if m < PLAIN_LIMIT then
      var s := NatText(m) + ".0";
      assert s[|NatText(m)|] == '.';
      s
    else
      var s := ScientificText(m);
      assert s[1] == '.';
      s
  }

  /** `Double.toString` of a whole amount: a minus sign before the text of a negative amount.
      It always holds a point, so it is never read as integer text, and never a comma. */
  function DoubleText(n: int): (s: string)
    ensures |s| >= 3
    ensures s[0] == '-' <==> n < 0
    ensures forall i :: 0 <= i < |s| ==> NumberChar(s[i])
    ensures '.' in s && ',' !in s
  {
    if n < 0 then "-" + UnsignedText(-n) else UnsignedText(n)
  }

  /** The position of the first character of `s` that is in `cs`, or `|s|` if there is none. */
  function IndexOfAny(s: string, cs: set<char>): (i: nat)
    ensures i <= |s|
    ensures forall j :: 0 <= j < i ==> s[j] !in cs
    ensures i < |s| ==> s[i] in cs
    decreases |s|
  {
    if |s| == 0 || s[0] in cs then 0
    else
      var i := 1 + IndexOfAny(s[1..], cs);
      assert forall j :: 1 <= j < i ==> s[j] == s[1..][j - 1];
      i
  }

  /** `m * 10^k`, when that is a whole number. */
  function Scaled(m: nat, k: int): Option<nat> {
    if k >= 0 then Some(m * Pow10(k))
    else if m % Pow10(-k) == 0 then Some(m / Pow10(-k))
    else None
  }

  const EXPONENT_MARKS: set<char> := {'E', 'e'}

  /** The digits before the exponent: one or more digits, then optionally a point and more
      digits. The result is the value of all the digits and how many follow the point. */
  function ParseMantissa(m: string): (r: Option<(nat, nat)>)
    ensures |m| >= 1 && AllDigits(m) ==> r == Some((DigitsValue(m), 0))
  {
    var dot := IndexOfAny(m, {'.'});
    var whole := m[..dot];
    var frac := if dot < |m| then m[dot + 1..] else "";
    if |whole| == 0 || !AllDigits(whole + frac) then None
    else
      assert |m| >= 1 && AllDigits(m) ==> dot == |m| && whole + frac == m by {
        if |m| >= 1 && AllDigits(m) {
          assert forall j :: 0 <= j < |m| ==> m[j] != '.';
        }
      }
      Some((DigitsValue(whole + frac), |frac|))
  }

  /** The amount an unsigned decimal text denotes: a mantissa, then optionally an exponent
      mark and a signed exponent; `None` when the text has another form or the amount is not
      whole. */
  function ParseUnsigned(s: string): (r: Option<nat>)
    ensures AllDigits(s) && |s| >= 1 ==> r == Some(DigitsValue(s))
  {
    var e := IndexOfAny(s, EXPONENT_MARKS);
    var exponent := if e < |s| then ParseSigned(s[e + 1..]) else Some(0);
    assert AllDigits(s) && |s| >= 1 ==> e == |s| && s[..e] == s by {
      if AllDigits(s) && |s| >= 1 {
        assert forall j :: 0 <= j < |s| ==> s[j] !in EXPONENT_MARKS;
      }
    }
    match (ParseMantissa(s[..e]), exponent)
    case (Some((digits, scale)), Some(x)) => Scaled(digits, x - scale)
    case _ => None
  }

  /** `Double.parseDouble`, for the texts of whole amounts: an optional sign before the
      unsigned form. */
  function ParseDouble(s: string): (r: Option<int>)
    ensures r.Some? ==> |s| >= 1
    ensures r.Some? && s[0] == '-' ==> r.value <= 0
    ensures r.Some? && s[0] != '-' ==> r.value >= 0
    ensures |s| >= 1 && AllDigits(s) ==> r == Some(DigitsValue(s))
  {
    if |s| > 0 && (s[0] == '-' || s[0] == '+') then
      match ParseUnsigned(s[1..])
      case None => None
      case Some(m) =>
        var v: int := m;
        Some(if s[0] == '-' then -v else v)
    else ParseUnsigned(s)
  }

  /** Appending zero digits multiplies the value by a power of ten. */
  lemma {:induction false} DigitsValueZeros(a: string, z: nat)
    requires AllDigits(a)
    ensures AllDigits(a + Zeros(z))
    ensures DigitsValue(a + Zeros(z)) == DigitsValue(a) * Pow10(z)
    decreases z
  {
    var s := a + Zeros(z);
    if z == 0 {
      assert s == a;
    } else {
      var x, p := DigitsValue(a), Pow10(z - 1);
      assert s[..|s| - 1] == a + Zeros(z - 1) && s[|s| - 1] == '0';
      DigitsValueZeros(a, z - 1);
      assert DigitsValue(s) == 10 * (x * p);
      TenTimes(x, p);
    }
  }

  /** Solver hint for `DigitsValueZeros`: regrouping one factor of ten. */
  lemma TenTimes(x: nat, p: nat)
    ensures 10 * (x * p) == x * (10 * p)
  {
  }

  /** The first character of `a + [c] + b` in `cs` is `c` when `a` has none. */
  lemma IndexOfFirst(a: string, c: char, b: string, cs: set<char>)
    requires forall j :: 0 <= j < |a| ==> a[j] !in cs
    requires c in cs
    ensures IndexOfAny(a + [c] + b, cs) == |a|
  {
    var s := a + [c] + b;
    assert s[|a|] == c;
    assert forall j :: 0 <= j < |a| ==> s[j] == a[j];
  }

  /** Digits, a point and more digits: the value of all the digits, and the count after the
      point. */
  lemma PointedMantissa(whole: string, frac: string)
    requires |whole| >= 1 && AllDigits(whole) && AllDigits(frac)
    ensures AllDigits(whole + frac)
    ensures ParseMantissa(whole + "." + frac) == Some((DigitsValue(whole + frac), |frac|))
  {
    var m := whole + "." + frac;
    assert forall j :: 0 <= j < |whole| ==> whole[j] !in {'.'};
    IndexOfFirst(whole, '.', frac, {'.'});
    assert m[..|whole|] == whole && m[|whole| + 1..] == frac;
    assert forall j :: 0 <= j < |whole + frac| ==>
      (whole + frac)[j] == if j < |whole| then whole[j] else frac[j - |whole|];
  }

  /** A text with no exponent mark is read as its mantissa alone. */
  lemma WithoutExponent(s: string, digits: nat, scale: nat, value: nat)
    requires forall j :: 0 <= j < |s| ==> s[j] !in EXPONENT_MARKS
    requires ParseMantissa(s) == Some((digits, scale))
    requires Scaled(digits, -(scale as int)) == Some(value)
    ensures ParseUnsigned(s) == Some(value)
  {
    assert s[..|s|] == s;
  }

  /** A mantissa, the mark "E" and the digits of `k` are read as the mantissa scaled by `k`. */
  lemma WithExponent(m: string, k: nat, digits: nat, scale: nat, value: nat)
    requires forall j :: 0 <= j < |m| ==> m[j] !in EXPONENT_MARKS
    requires ParseMantissa(m) == Some((digits, scale))
    requires Scaled(digits, k - scale) == Some(value)
    ensures ParseUnsigned(m + "E" + NatText(k)) == Some(value)
  {
    var s := m + "E" + NatText(k);
    IndexOfFirst(m, 'E', NatText(k), EXPONENT_MARKS);
    assert s[..|m|] == m && s[|m| + 1..] == NatText(k);
    ExponentDigits(k);
  }

  /** The digits of an exponent are read back as that exponent. */
  lemma ExponentDigits(k: nat)
    ensures ParseSigned(NatText(k)) == Some(k)
  {
    IntTextRoundTrip(k);
    assert IntText(k) == NatText(k);
  }

  /** Digits followed by ".0" are read as the digits' value. */
  lemma ParsePlain(digits: string)
    requires |digits| >= 1 && AllDigits(digits)
    ensures ParseUnsigned(digits + ".0") == Some(DigitsValue(digits))
  {
    var s := digits + ".0";
    NoExponentMark(digits, ".0");
    assert "0" == Zeros(1);
    PointedMantissa(digits, "0");
    assert digits + "." + "0" == s;
    DigitsValueZeros(digits, 1);
    ScaledDownOne(DigitsValue(digits));
    WithoutExponent(s, DigitsValue(digits) * Pow10(1), 1, DigitsValue(digits));
  }

  /** Solver hint for `ParseScientific`: a non-negative exponent scales up. */
  lemma ScaledUp(v: nat, z: nat)
    ensures Scaled(v, z) == Some(v * Pow10(z))
  {
  }

  /** Solver hint for `ParsePlain`: one fraction digit scales back down by ten. */
  lemma ScaledDownOne(v: nat)
    ensures Scaled(v * Pow10(1), -1) == Some(v)
  {
    assert Pow10(1) == 10;
  }

  /** The plain form of an amount below 10^7 reads back as that amount. */
  lemma PlainRoundTrip(m: nat)
    requires m < PLAIN_LIMIT
    ensures ParseUnsigned(UnsignedText(m)) == Some(m)
  {
    assert UnsignedText(m) == NatText(m) + ".0";
    ParsePlain(NatText(m));
    NatTextRoundTrip(m);
  }

  /** The digits of a magnitude of at least 10^7, split as the scientific form writes them:
      the leading digit, the written fraction, and the zeros the exponent stands for. */
  lemma ScientificDigits(m: nat) returns (frac: string)
    requires m >= PLAIN_LIMIT
    ensures var digits := NatText(m);
      && frac == (if |TrimZeros(digits[1..])| == 0 then "0" else TrimZeros(digits[1..]))
      && 1 <= |frac| <= |digits| - 1
      && digits == [digits[0]] + frac + Zeros(|digits| - 1 - |frac|)
      && AllDigits([digits[0]] + frac)
  {
    var digits := NatText(m);
    assert |digits| >= 2;
    var trimmed := TrimZeros(digits[1..]);
    assert digits == [digits[0]] + digits[1..];
    if |trimmed| == 0 {
      frac := "0";
      assert Zeros(|digits| - 1) == "0" + Zeros(|digits| - 2);
    } else {
      frac := trimmed;
    }
    assert forall i :: 0 <= i < 1 + |frac| ==> ([digits[0]] + frac)[i] == digits[i];
  }

  /** The scientific form of an amount of at least 10^7, in parts: the leading digit, the
      written fraction and the exponent, whose digits scaled by the exponent less the fraction
      length give the amount back. */
  lemma ScientificShape(m: nat) returns (d: char, frac: string, k: nat)
    requires m >= PLAIN_LIMIT
    ensures UnsignedText(m) == [d] + "." + frac + "E" + NatText(k)
    ensures IsDigit(d) && AllDigits(frac) && 1 <= |frac| <= k
    ensures AllDigits([d] + frac) && DigitsValue([d] + frac) * Pow10(k - |frac|) == m
  {
    var digits := NatText(m);
    d, k := digits[0], |digits| - 1;
    frac := ScientificDigits(m);
    ScientificTextOf(m, frac);
    ScientificValue(m, frac);
  }

  /** The significant digits of the scientific form, scaled by the zeros dropped after them,
      give the amount back. */
  lemma ScientificValue(m: nat, frac: string)
    requires m >= PLAIN_LIMIT
    requires var digits := NatText(m);
      && 1 <= |frac| <= |digits| - 1
      && digits == [digits[0]] + frac + Zeros(|digits| - 1 - |frac|)
      && AllDigits([digits[0]] + frac)
    ensures var digits := NatText(m);
      && IsDigit(digits[0]) && AllDigits(frac)
      && DigitsValue([digits[0]] + frac) * Pow10(|digits| - 1 - |frac|) == m
  {
    var digits := NatText(m);
    FractionDigits(digits[0], frac);
    NatTextRoundTrip(m);
    ScaledFraction(digits, digits[0], frac, |digits| - 1 - |frac|);
  }

  lemma ScientificTextOf(m: nat, frac: string)
    requires m >= PLAIN_LIMIT
    requires frac == (if |TrimZeros(NatText(m)[1..])| == 0 then "0" else TrimZeros(NatText(m)[1..]))
    ensures UnsignedText(m) == [NatText(m)[0]] + "." + frac + "E" + NatText(|NatText(m)| - 1)
  {
    assert UnsignedText(m) == ScientificText(m);
  }

  lemma FractionDigits(d: char, frac: string)
    requires AllDigits([d] + frac)
    ensures IsDigit(d) && AllDigits(frac)
  {
    assert ([d] + frac)[0] == d;
    assert forall j :: 0 <= j < |frac| ==> frac[j] == ([d] + frac)[j + 1];
  }

  lemma ScaledFraction(digits: string, d: char, frac: string, z: nat)
    requires AllDigits([d] + frac) && digits == [d] + frac + Zeros(z)
    ensures AllDigits(digits) && DigitsValue(digits) == DigitsValue([d] + frac) * Pow10(z)
  {
    DigitsValueZeros([d] + frac, z);
  }

  /** A text in the scientific form is read as its significant digits scaled by the exponent
      less the number of fraction digits. */
  lemma ParseScientific(text: string, d: char, frac: string, k: nat, v: nat)
    requires text == [d] + "." + frac + "E" + NatText(k)
    requires IsDigit(d) && AllDigits(frac) && 1 <= |frac| <= k
    requires AllDigits([d] + frac) && v == DigitsValue([d] + frac)
    ensures ParseUnsigned(text) == Some(v * Pow10(k - |frac|))
  {
    NoExponentMark([d] + ".", frac);
    PointedMantissa([d], frac);
    ScaledUp(v, k - |frac|);
    WithExponent([d] + "." + frac, k, v, |frac|, v * Pow10(k - |frac|));
  }

  /** Digits and points hold no exponent mark. */
  lemma NoExponentMark(a: string, b: string)
    requires forall j :: 0 <= j < |a| ==> IsDigit(a[j]) || a[j] == '.'
    requires forall j :: 0 <= j < |b| ==> IsDigit(b[j]) || b[j] == '.'
    ensures forall j :: 0 <= j < |a + b| ==> (a + b)[j] !in EXPONENT_MARKS
  {
    assert forall j :: |a| <= j < |a + b| ==> (a + b)[j] == b[j - |a|];
  }

  /** The scientific form of an amount of at least 10^7 reads back as that amount. */
  lemma ScientificRoundTrip(m: nat)
    requires m >= PLAIN_LIMIT
    ensures ParseUnsigned(UnsignedText(m)) == Some(m)
  {
    var d, frac, k := ScientificShape(m);
    ParseScientific(UnsignedText(m), d, frac, k, DigitsValue([d] + frac));
  }

  /** Every whole amount's `Double.toString` text is read back by `Double.parseDouble` as that
      amount. */
  lemma DoubleTextRoundTrip(n: int)
    ensures ParseDouble(DoubleText(n)) == Some(n)
  {
    var m: nat := if n < 0 then -n else n;
    if m < PLAIN_LIMIT {
      PlainRoundTrip(m);
    } else {
      ScientificRoundTrip(m);
    }
    if n < 0 {
      assert DoubleText(n)[1..] == UnsignedText(m);
    }
  }

  /** `Double.parseDouble` also reads an integer's `Integer.toString` text, as that integer. */
  lemma IntTextAsDouble(i: int)
    ensures ParseDouble(IntText(i)) == Some(i)
  {
    var s := IntText(i);
    if i < 0 {
      var t := NatText(-i);
      assert s[0] == '-' && s[1..] == t;
      NatTextRoundTrip(-i);
      assert ParseUnsigned(t) == Some(-i);
    } else {
      assert s == NatText(i);
      NatTextRoundTrip(i);
    }
  }

  /** Below 10^7 in magnitude, a whole amount is written as its integer text followed by
      ".0", as in "1000.0" and "-5.0". */
  lemma PlainIsIntText(n: int)
    requires -PLAIN_LIMIT < n < PLAIN_LIMIT
    ensures DoubleText(n) == IntText(n) + ".0"
  {
  }

  /** The digits of `10^k`: a one and `k` zeros. */
  lemma {:induction false} NatTextPow10(k: nat)
    ensures NatText(Pow10(k)) == "1" + Zeros(k)
  {
    if k > 0 {
      NatTextPow10(k - 1);
      assert Pow10(k) / 10 == Pow10(k - 1) && Pow10(k) % 10 == 0;
      assert "1" + Zeros(k - 1) + "0" == "1" + Zeros(k);
    }
  }

  /** From 10^7 on, a power of ten is written "1.0E" and its exponent, as in "1.0E7". */
  lemma PowerOfTenText(k: nat)
    requires k >= 7
    ensures Pow10(k) >= PLAIN_LIMIT
    ensures DoubleText(Pow10(k)) == "1.0E" + NatText(k)
  {
    var p := Pow10(k);
    assert Pow10(7) == PLAIN_LIMIT;
    Pow10Grows(7, k);
    NatTextPow10(k);
    TrimAllZeros(k);
    ScientificOfOneAndZeros(p, k);
  }

  lemma ScientificOfOneAndZeros(p: nat, k: nat)
    requires p >= PLAIN_LIMIT && NatText(p) == "1" + Zeros(k)
    requires TrimZeros(Zeros(k)) == ""
    ensures DoubleText(p) == "1.0E" + NatText(k)
  {
    var digits := NatText(p);
    assert digits[0] == '1' && digits[1..] == Zeros(k) && |digits| - 1 == k;
    assert [digits[0]] + "." + "0" + "E" + NatText(k) == "1.0E" + NatText(k);
    assert UnsignedText(p) == ScientificText(p);
  }

  lemma {:induction false} Pow10Grows(i: nat, k: nat)
    requires i <= k
    ensures Pow10(i) <= Pow10(k)
    decreases k
  {
    if i < k {
      Pow10Grows(i, k - 1);
    }
  }
}
