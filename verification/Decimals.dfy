/** Decimal digit strings (jcs.rs): what they count, adding one unit in the last place, and
    the ECMAScript layout of `digits` times a power of ten. */
module Decimals {
  import opened Results
  import opened Codec

  predicate IsDigit(c: char) {
    '0' <= c <= '9'
  }

  predicate IsDigits(s: string) {
    forall i | 0 <= i < |s| :: IsDigit(s[i])
  }

  function DigitChar(n: nat): char
    requires n < 10
  {
    '0' + n as char
  }

  function Digit(c: char): nat
    requires IsDigit(c)
  {
    (c - '0') as nat
  }

  /** The number a digit string writes. */
  function Units(s: string): nat
    requires IsDigits(s)
  {
    if s == "" then 0 else 10 * Units(s[..|s| - 1]) + Digit(s[|s| - 1])
  }

  function Pow10(n: nat): (p: nat)
    ensures p >= 1
  {
    if n == 0 then 1 else 10 * Pow10(n - 1)
  }

  function Repeat(c: char, n: nat): (s: string)
    ensures |s| == n && forall i | 0 <= i < n :: s[i] == c
  {
    seq(n, _ => c)
  }

  /** A natural number in decimal, as `{}` prints it. */
  function NatText(n: nat): (s: string)
    ensures s != "" && IsDigits(s) && Units(s) == n
  {
    if n < 10 then
      assert [DigitChar(n)][..0] == "";
      [DigitChar(n)]
    else
      var s := NatText(n / 10) + [DigitChar(n % 10)];
      assert s[..|s| - 1] == NatText(n / 10);
      s
  }

  lemma Regroup(u: nat, p: nat)
    ensures 10 * (u * p) == u * (10 * p)
  {
  }

  lemma {:induction false} UnitsConcat(a: string, b: string)
    requires IsDigits(a) && IsDigits(b)
    ensures IsDigits(a + b) && Units(a + b) == Units(a) * Pow10(|b|) + Units(b)
  {
    if b == "" {
      assert a + b == a;
    } else {
      var init := b[..|b| - 1];
      UnitsConcat(a, init);
      assert (a + b)[..|a + b| - 1] == a + init && (a + b)[|a + b| - 1] == b[|b| - 1];
      Regroup(Units(a), Pow10(|init|));
    }
  }

  lemma UnitsSnoc(s: string, c: char)
    requires IsDigits(s) && IsDigit(c)
    ensures IsDigits(s + [c]) && Units(s + [c]) == 10 * Units(s) + Digit(c)
  {
    assert (s + [c])[..|s|] == s;
  }

  lemma {:induction false} UnitsOfZeros(n: nat)
    ensures Units(Repeat('0', n)) == 0
  {
    if n > 0 {
      assert Repeat('0', n)[..n - 1] == Repeat('0', n - 1);
      UnitsOfZeros(n - 1);
    }
  }

  // ----- Decimal values -----

  /** `coefficient` times ten to the `exponent`. */
  datatype Decimal = Decimal(coefficient: nat, exponent: int)

  /** The same value, whatever the scale. */
  predicate SameDecimal(a: Decimal, b: Decimal) {
    if a.exponent <= b.exponent then a.coefficient == b.coefficient * Pow10(b.exponent - a.exponent)
    else a.coefficient * Pow10(a.exponent - b.exponent) == b.coefficient
  }

  lemma {:induction false} Pow10Adds(m: nat, n: nat)
    ensures Pow10(m + n) == Pow10(m) * Pow10(n)
  {
    if m > 0 {
      Pow10Adds(m - 1, n);
      Regroup(Pow10(n), Pow10(m - 1));
    }
  }

  /** The coefficient in the place `m`. */
  function InPlace(d: Decimal, m: int): nat
    requires m <= d.exponent
  {
    d.coefficient * Pow10(d.exponent - m)
  }

  lemma CancelFactor(a: nat, b: nat, p: nat)
    requires p >= 1
    ensures a * p == b * p <==> a == b
  {
    if a < b { assert a * p < b * p; }
    if b < a { assert b * p < a * p; }
  }

  lemma Associates(a: nat, p: nat, q: nat)
    ensures a * (p * q) == (a * p) * q
  {
  }

  /** Equal values have equal coefficients in any place both reach. */
  lemma SameInPlace(a: Decimal, b: Decimal, m: int)
    requires m <= a.exponent && m <= b.exponent
    ensures SameDecimal(a, b) <==> InPlace(a, m) == InPlace(b, m)
  {
    hide Pow10;
    var low := if a.exponent <= b.exponent then a.exponent else b.exponent;
    Pow10Adds(a.exponent - low, low - m);
    Pow10Adds(b.exponent - low, low - m);
    Associates(a.coefficient, Pow10(a.exponent - low), Pow10(low - m));
    Associates(b.coefficient, Pow10(b.exponent - low), Pow10(low - m));
    CancelFactor(InPlace(a, low), InPlace(b, low), Pow10(low - m));
    PowZero();
  }

  lemma PowZero()
    ensures Pow10(0) == 1
  {
  }

  lemma SameDecimalSymmetric(a: Decimal, b: Decimal)
    requires SameDecimal(a, b)
    ensures SameDecimal(b, a)
  {
    PowZero();
  }

  lemma SameDecimalTransitive(a: Decimal, b: Decimal, c: Decimal)
    requires SameDecimal(a, b) && SameDecimal(b, c)
    ensures SameDecimal(a, c)
  {
    hide SameDecimal, InPlace;
    var low := if a.exponent <= b.exponent then a.exponent else b.exponent;
    var m := if low <= c.exponent then low else c.exponent;
    SameInPlace(a, b, m);
    SameInPlace(b, c, m);
    SameInPlace(a, c, m);
  }

  function Twice(d: Decimal): Decimal {
    Decimal(2 * d.coefficient, d.exponent)
  }

  lemma TwiceTheSame(a: Decimal, b: Decimal)
    requires SameDecimal(a, b)
    ensures SameDecimal(Twice(a), Twice(b))
  {
  }

  /** The digits with the point after the first one, times ten to the `exp`. */
  function Scientific(digits: string, exp: int): Decimal
    requires IsDigits(digits)
  {
    Decimal(Units(digits), exp + 1 - |digits|)
  }

  // ----- One unit more in the last place -----

  predicate AllNines(s: string) {
    forall i | 0 <= i < |s| :: s[i] == '9'
  }

  function Bumped(s: string): string
    requires IsDigits(s) && !AllNines(s)
  {
    var last := |s| - 1;
    if s[last] == '9' then Bumped(s[..last]) + "0" else s[..last] + [s[last] + 1 as char]
  }

  function Carried(n: nat): string {
    ("1" + Repeat('0', n))[..n]
  }

  function Increment(digits: string, exp: int): (string, int)
    requires IsDigits(digits)
  {
    if AllNines(digits) then (Carried(|digits|), exp + 1) else (Bumped(digits), exp)
  }

  lemma {:induction false} BumpedAdds(s: string)
    requires IsDigits(s) && !AllNines(s)
    ensures IsDigits(Bumped(s)) && |Bumped(s)| == |s| && Units(Bumped(s)) == Units(s) + 1
    ensures s[0] != '0' ==> Bumped(s)[0] != '0'
  {
    var last := |s| - 1;
    if s[last] == '9' {
      BumpedAdds(s[..last]);
      UnitsSnoc(Bumped(s[..last]), '0');
    } else {
      UnitsSnoc(s[..last], s[last] + 1 as char);
    }
  }

  lemma {:induction false} NinesAndOne(s: string)
    requires AllNines(s)
    ensures IsDigits(s) && Units(s) + 1 == Pow10(|s|)
  {
    if s != "" {
      NinesAndOne(s[..|s| - 1]);
    }
  }

  lemma CarriedIsPower(n: nat)
    requires n > 0
    ensures IsDigits(Carried(n)) && |Carried(n)| == n && Units(Carried(n)) == Pow10(n - 1) && Carried(n)[0] == '1'
  {
    assert Carried(n) == "1" + Repeat('0', n - 1);
    UnitsConcat("1", Repeat('0', n - 1));
    UnitsOfZeros(n - 1);
    assert "1"[..0] == "";
  }

  /** Exactly one unit in the last place is added, with as many digits as before; the
      exponent grows only when the carry runs out of the top. */
  lemma IncrementAddsOne(digits: string, exp: int)
    requires IsDigits(digits) && digits != ""
    ensures var (r, e) := Increment(digits, exp);
            && IsDigits(r) && |r| == |digits|
            && (e == exp || e == exp + 1) && (e == exp + 1 <==> AllNines(digits))
            && Units(r) * Pow10(e - exp) == Units(digits) + 1
            && SameDecimal(Decimal(Units(digits) + 1, exp + 1 - |digits|), Scientific(r, e))
            && (digits[0] != '0' ==> r[0] != '0')
  {
    assert Pow10(0) == 1 && Pow10(1) == 10 * Pow10(0);
    if AllNines(digits) {
      NinesAndOne(digits);
      CarriedIsPower(|digits|);
      assert Pow10(|digits|) == 10 * Pow10(|digits| - 1);
    } else {
      BumpedAdds(digits);
    }
  }

  lemma {:induction false} BumpedAt(s: string, i: nat)
    requires IsDigits(s) && i < |s| && s[i] != '9' && AllNines(s[i + 1..])
    ensures !AllNines(s) && Bumped(s) == s[..i] + [s[i] + 1 as char] + Repeat('0', |s| - i - 1)
    decreases |s|
  {
    var last := |s| - 1;
    if i < last {
      assert s[last] == s[i + 1..][last - i - 1] == '9';
      var init := s[..last];
      assert init[i + 1..] == s[i + 1..last] == s[i + 1..][..last - i - 1];
      BumpedAt(init, i);
      assert Repeat('0', |s| - i - 1) == Repeat('0', last - i - 1) + "0";
      assert init[..i] == s[..i];
    } else {
      assert Repeat('0', |s| - i - 1) == "";
    }
  }

  /** `increment` of jcs.rs, in place on the bytes, from the last one back. */
  method IncrementBytes(digits: string, exp: int) returns (r: string, e: int)
    requires IsDigits(digits)
    ensures (r, e) == Increment(digits, exp)
  {
    var bytes := new char[|digits|](i requires 0 <= i < |digits| => digits[i]);
    var i := |digits|;
    while i > 0
      invariant 0 <= i <= |digits| == bytes.Length
      invariant bytes[..i] == digits[..i]
      invariant AllNines(digits[i..])
      invariant forall j | i <= j < bytes.Length :: bytes[j] == '0'
    {
      i := i - 1;
      assert bytes[..i + 1][i] == digits[..i + 1][i];
      if bytes[i] == '9' {
        bytes[i] := '0';
        assert digits[i..] == [digits[i]] + digits[i + 1..];
      } else {
        bytes[i] := bytes[i] + 1 as char;
        BumpedAt(digits, i);
        assert bytes[..] == digits[..i] + [digits[i] + 1 as char] + Repeat('0', |digits| - i - 1);
        return bytes[..], exp;
      }
    }
    assert digits[0..] == digits;
    r, e := Carried(|digits|), exp + 1;
  }

  // ----- Layout -----

  function Mantissa(digits: string): string
    requires digits != ""
  {
    if |digits| == 1 then digits else digits[..1] + "." + digits[1..]
  }

  function ExponentText(e: int): string {
    [if e < 0 then '-' else '+'] + NatText(if e < 0 then -e else e)
  }

  /** The ECMAScript layout of the digits with the point after the first one, times ten to
      the `exp`: plain, with a point inside, with leading zeros, or scientific. */
  function Layout(digits: string, exp: int): string
    requires digits != ""
  {
    var k, n := |digits|, exp + 1;
    if k <= n <= 21 then digits + Repeat('0', n - k)
    else if 0 < n <= 21 then digits[..n] + "." + digits[n..]
    else if -6 < n <= 0 then "0." + Repeat('0', -n) + digits
    else Mantissa(digits) + "e" + ExponentText(n - 1)
  }

  /** Reads digits with at most one point. */
  function ReadMantissa(s: string): Option<Decimal> {
    var i := FirstOf(s, '.');
    var whole, frac := s[..i], if i < |s| then s[i + 1..] else "";
    if IsDigits(whole) && IsDigits(frac) then Some(Decimal(Units(whole + frac), -|frac|)) else None
  }

  function ReadExponent(s: string): Option<int> {
    if |s| < 2 || !IsDigits(s[1..]) then None
    else
      var e: int := Units(s[1..]);
      if s[0] == '+' then Some(e) else if s[0] == '-' then Some(-e) else None
  }

  /** Reads an unsigned decimal: digits, perhaps a point, perhaps an exponent. */
  function ReadDecimal(s: string): Option<Decimal> {
    var i := FirstOf(s, 'e');
    match ReadMantissa(s[..i])
    case None => None
    case Some(m) =>
      if i == |s| then Some(m)
      else
        match ReadExponent(s[i + 1..])
        case None => None
        case Some(e) => Some(Decimal(m.coefficient, m.exponent + e))
  }

  lemma DigitsHaveNo(s: string, c: char)
    requires IsDigits(s) && !IsDigit(c)
    ensures c !in s
  {
  }

  lemma MantissaReads(whole: string, frac: string)
    requires IsDigits(whole) && IsDigits(frac)
    ensures ReadMantissa(whole + "." + frac) == Some(Decimal(Units(whole + frac), -|frac|))
    ensures ReadMantissa(whole) == Some(Decimal(Units(whole), 0))
    ensures 'e' !in whole + "." + frac && 'e' !in whole
  {
    var s := whole + "." + frac;
    assert s[..|whole|] == whole && s[|whole| + 1..] == frac;
    FirstOfAt(s, '.', |whole|);
    FirstOfNone(whole, '.');
    assert whole[..|whole|] == whole && whole + "" == whole;
  }

  lemma ExponentReads(e: int)
    ensures ReadExponent(ExponentText(e)) == Some(e)
  {
    var size: nat := if e < 0 then -e else e;
    assert ExponentText(e)[1..] == NatText(size);
  }

  lemma PlainReads(mantissa: string)
    requires 'e' !in mantissa
    ensures ReadDecimal(mantissa) == ReadMantissa(mantissa)
  {
    FirstOfNone(mantissa, 'e');
    assert mantissa[..|mantissa|] == mantissa;
  }

  lemma DecimalReads(mantissa: string, exponent: string, e: int)
    requires 'e' !in mantissa && ReadMantissa(mantissa).Some? && ReadExponent(exponent) == Some(e)
    ensures ReadDecimal(mantissa + "e" + exponent)
         == Some(Decimal(ReadMantissa(mantissa).value.coefficient, ReadMantissa(mantissa).value.exponent + e))
  {
    var s := mantissa + "e" + exponent;
    assert s[..|mantissa|] == mantissa && s[|mantissa| + 1..] == exponent;
    FirstOfAt(s, 'e', |mantissa|);
  }

  lemma MantissaDenotes(digits: string)
    requires IsDigits(digits) && digits != ""
    ensures 'e' !in Mantissa(digits) && ReadMantissa(Mantissa(digits)) == Some(Decimal(Units(digits), 1 - |digits|))
  {
    if |digits| == 1 {
      MantissaReads(digits, "");
    } else {
      hide ReadMantissa, Units;
      var whole, frac := digits[..1], digits[1..];
      assert Mantissa(digits) == whole + "." + frac && whole + frac == digits && |frac| == |digits| - 1;
      hide Mantissa;
      MantissaReads(whole, frac);
    }
  }

  lemma ScientificLayoutDenotes(digits: string, e: int)
    requires IsDigits(digits) && digits != ""
    ensures ReadDecimal(Mantissa(digits) + "e" + ExponentText(e)) == Some(Scientific(digits, e))
  {
    hide ReadDecimal, ReadMantissa, ReadExponent, Mantissa, ExponentText;
    MantissaDenotes(digits);
    ExponentReads(e);
    DecimalReads(Mantissa(digits), ExponentText(e), e);
  }

  lemma ZerosScale(digits: string, zeros: nat)
    requires IsDigits(digits)
    ensures IsDigits(digits + Repeat('0', zeros)) && Units(digits + Repeat('0', zeros)) == Units(digits) * Pow10(zeros)
  {
    UnitsConcat(digits, Repeat('0', zeros));
    UnitsOfZeros(zeros);
  }

  lemma WholeReads(digits: string)
    requires IsDigits(digits)
    ensures ReadDecimal(digits) == Some(Decimal(Units(digits), 0))
  {
    MantissaReads(digits, "");
    PlainReads(digits);
  }

  lemma PointLayoutDenotes(whole: string, frac: string)
    requires IsDigits(whole) && IsDigits(frac)
    ensures ReadDecimal(whole + "." + frac) == Some(Decimal(Units(whole + frac), -|frac|))
  {
    MantissaReads(whole, frac);
    PlainReads(whole + "." + frac);
  }

  lemma LeadingZeros(zeros: nat, digits: string)
    requires IsDigits(digits)
    ensures IsDigits("0" + (Repeat('0', zeros) + digits)) && Units("0" + (Repeat('0', zeros) + digits)) == Units(digits)
  {
    UnitsConcat(Repeat('0', zeros), digits);
    UnitsOfZeros(zeros);
    UnitsConcat("0", Repeat('0', zeros) + digits);
    UnitsSnoc("", '0');
    assert "" + "0" == "0";
  }

  /** The exponent is written exactly from 1e21 on and below 1e-6; a point exactly where
      there are digits after it. */
  lemma LayoutForm(digits: string, exp: int)
    requires IsDigits(digits) && digits != ""
    ensures 'e' in Layout(digits, exp) <==> exp >= 21 || exp < -6
    ensures '.' in Layout(digits, exp) <==> if -6 <= exp < 21 then exp + 1 < |digits| else |digits| > 1
  {
    var k, n := |digits|, exp + 1;
    DigitsHaveNo(digits, 'e');
    DigitsHaveNo(digits, '.');
    if -6 < n <= 21 {
      if n < k {
        if n > 0 {
          assert (digits[..n] + "." + digits[n..])[n] == '.';
          DigitsHaveNo(digits[..n], 'e');
          DigitsHaveNo(digits[n..], 'e');
        } else {
          assert ("0." + Repeat('0', -n) + digits)[1] == '.';
        }
      }
    } else {
      hide NatText;
      var e: nat := if exp < 0 then -exp else exp;
      DigitsHaveNo(NatText(e), '.');
      assert (Mantissa(digits) + "e" + ExponentText(exp))[|Mantissa(digits)|] == 'e';
      if k > 1 {
        assert (Mantissa(digits) + "e" + ExponentText(exp))[1] == '.';
      }
    }
  }

  /** Every branch of the layout writes exactly digits times ten to the n - k. */
  lemma LayoutDenotes(digits: string, exp: int)
    requires IsDigits(digits) && digits != ""
    ensures ReadDecimal(Layout(digits, exp)).Some?
    ensures SameDecimal(ReadDecimal(Layout(digits, exp)).value, Scientific(digits, exp))
  {
    hide ReadDecimal, Mantissa, ExponentText, Units, Repeat;
    var k, n := |digits|, exp + 1;
    if k <= n <= 21 {
      ZerosScale(digits, n - k);
      WholeReads(digits + Repeat('0', n - k));
    } else if 0 < n <= 21 {
      PointLayoutDenotes(digits[..n], digits[n..]);
      assert digits[..n] + digits[n..] == digits;
    } else if -6 < n <= 0 {
      LeadingZeros(-n, digits);
      PointLayoutDenotes("0", Repeat('0', -n) + digits);
      assert Layout(digits, exp) == "0" + "." + (Repeat('0', -n) + digits);
    } else {
      ScientificLayoutDenotes(digits, exp);
    }
  }
}
