/** Doubles as ECMAScript writes them (`number` and `even_on_tie` of jcs.rs; RFC 8785,
    section 3.2.2.3). How a double is formatted and parsed is library code: it comes in as
    functions, with what is assumed of them stated below. */
module Numbers {
  import opened Results
  import opened Json
  import opened Decimals
  import opened Doubles

  type Digits = s: string | IsDigits(s) && s != "" witness "0"

  /** `{:e}` and `{:.1100e}` of a positive double (its bit pattern), the double nearest to a
      decimal, and the double of a natural number. */
  datatype Floats = Floats(
    shortest: nat -> (Digits, int),
    exact: nat -> (Digits, int),
    parse: Decimal -> nat,
    ofInt: nat -> nat)

  /** Above this, neighbouring integers may share a double. */
  const MAX_SAFE_INTEGER: int := 0x1F_FFFF_FFFF_FFFF

  ghost predicate FloatsSound(fl: Floats) {
    && (forall x | 0 < x < FINITE_MAGNITUDES ::
          fl.shortest(x).0[0] != '0' && fl.parse(Scientific(fl.shortest(x).0, fl.shortest(x).1)) == x)
    && (forall x | 0 < x < FINITE_MAGNITUDES ::
          fl.exact(x).0[0] != '0' && SameDecimal(Scientific(fl.exact(x).0, fl.exact(x).1), Worth(x)))
    && (forall a, b | SameDecimal(a, b) :: fl.parse(a) == fl.parse(b))
    && (forall i | 0 <= i <= MAX_SAFE_INTEGER :: IsWorth(fl.ofInt(i), i))
  }

  /** A finite double that is worth the integer `i`. */
  predicate IsWorth(x: nat, i: nat) {
    x < FINITE_MAGNITUDES && SameDecimal(Worth(x), Decimal(i, 0))
  }

  lemma IntegersAreApart(fl: Floats, i: nat, j: nat)
    requires FloatsSound(fl) && i <= MAX_SAFE_INTEGER && j <= MAX_SAFE_INTEGER
    ensures fl.ofInt(0) == 0 && (fl.ofInt(i) == fl.ofInt(j) ==> i == j)
  {
    assert IsWorth(fl.ofInt(0), 0) && IsWorth(fl.ofInt(i), i) && IsWorth(fl.ofInt(j), j);
    WorthNothing(fl.ofInt(0));
    if fl.ofInt(i) == fl.ofInt(j) {
      hide Worth;
      SameDecimalSymmetric(Worth(fl.ofInt(i)), Decimal(i, 0));
      SameDecimalTransitive(Decimal(i, 0), Worth(fl.ofInt(i)), Decimal(j, 0));
      PowZero();
    }
  }

  // ----- Ties -----

  predicate IsTie(tail: string) {
    tail != "" && tail[0] == '5' && forall i | 0 < i < |tail| :: tail[i] == '0'
  }

  /** The exact expansion goes on, after as many digits, with just a 5. */
  predicate TieAt(fl: Floats, x: nat, k: nat, exp: int) {
    var (exact, e) := fl.exact(x);
    e == exp && k <= |exact| && IsTie(exact[k..])
  }

  /** The cut expansion, or one unit more when its last digit is odd. */
  function EvenNeighbour(cut: Digits, exp: int): (string, int) {
    if Digit(cut[|cut| - 1]) % 2 == 0 then (cut, exp) else Increment(cut, exp)
  }

  function EvenOnTie(fl: Floats, x: nat, digits: Digits, exp: int): (Digits, int) {
    if !TieAt(fl, x, |digits|, exp) then (digits, exp)
    else
      var truncated := fl.exact(x).0[..|digits|];
      EvenNeighbourIsEven(truncated, exp);
      var (candidate, e) := EvenNeighbour(truncated, exp);
      if fl.parse(Scientific(candidate, e)) == x then (candidate, e) else (digits, exp)
  }

  /** The even one of two neighbours. */
  function EvenOf(t: nat): nat {
    if t % 2 == 0 then t else t + 1
  }

  lemma FiveAndZeros(tail: string)
    requires IsTie(tail)
    ensures IsDigits(tail) && Units(tail) == 5 * Pow10(|tail| - 1)
  {
    var zeros := |tail| - 1;
    assert tail == "5" + Repeat('0', zeros);
    UnitsConcat("5", Repeat('0', zeros));
    UnitsOfZeros(zeros);
    UnitsSnoc("", '5');
    assert "" + "5" == "5";
  }

  lemma TieIsHalf(exact: Digits, k: nat)
    requires 0 < k <= |exact| && IsTie(exact[k..])
    ensures 2 * Units(exact) == (2 * Units(exact[..k]) + 1) * Pow10(|exact| - k)
  {
    var tail := exact[k..];
    FiveAndZeros(tail);
    hide Units;
    assert exact == exact[..k] + tail;
    UnitsConcat(exact[..k], tail);
    assert Pow10(|tail|) == 10 * Pow10(|tail| - 1);
    Halves(Units(exact[..k]), Pow10(|tail| - 1));
  }

  lemma LastDigitParity(s: Digits)
    ensures Units(s) % 2 == Digit(s[|s| - 1]) % 2
  {
    TenTimes(Units(s[..|s| - 1]), Digit(s[|s| - 1]));
  }

  lemma TenTimes(u: nat, d: nat)
    ensures (10 * u + d) % 2 == d % 2
  {
  }

  lemma EvenNeighbourIsEven(cut: Digits, exp: int)
    ensures var (r, e) := EvenNeighbour(cut, exp);
            && IsDigits(r) && |r| == |cut| && (cut[0] != '0' ==> r[0] != '0')
            && SameDecimal(Decimal(EvenOf(Units(cut)), exp + 1 - |cut|), Scientific(r, e))
  {
    hide Units, Increment;
    IncrementAddsOne(cut, exp);
    LastDigitParity(cut);
    assert Pow10(0) == 1;
  }

  lemma Halves(t: nat, p: nat)
    ensures 2 * (t * (10 * p) + 5 * p) == (2 * t + 1) * (10 * p)
  {
  }

  lemma ParsesAlike(fl: Floats, a: Decimal, b: Decimal)
    requires FloatsSound(fl) && SameDecimal(a, b)
    ensures fl.parse(a) == fl.parse(b)
  {
  }

  /** The exact expansion after as many digits. */
  function CutDigits(fl: Floats, x: nat, digits: Digits, exp: int): (cut: Digits)
    requires TieAt(fl, x, |digits|, exp)
    ensures |digits| <= |fl.exact(x).0| && cut == fl.exact(x).0[..|digits|]
  {
    fl.exact(x).0[..|digits|]
  }

  /** The double is worth the cut expansion and half a unit of its last place. */
  lemma TieIsHalfway(fl: Floats, x: nat, digits: Digits, exp: int)
    requires FloatsSound(fl) && 0 < x < FINITE_MAGNITUDES && TieAt(fl, x, |digits|, exp)
    ensures SameDecimal(Twice(Worth(x)), Decimal(2 * Units(CutDigits(fl, x, digits, exp)) + 1, exp + 1 - |digits|))
  {
    hide Worth;
    var exact, k := fl.exact(x).0, |digits|;
    var half, whole := Decimal(2 * Units(CutDigits(fl, x, digits, exp)) + 1, exp + 1 - k), Scientific(exact, exp);
    TieIsHalf(exact, k);
    assert SameDecimal(Twice(whole), half);
    assert SameDecimal(whole, Worth(x));
    hide *;
    TwiceTheSame(whole, Worth(x));
    SameDecimalSymmetric(Twice(whole), Twice(Worth(x)));
    SameDecimalTransitive(Twice(Worth(x)), Twice(whole), half);
  }

  /** The even neighbour as a value, and whether it is written. */
  lemma EvenIsWritten(fl: Floats, x: nat, digits: Digits, exp: int)
    requires FloatsSound(fl) && TieAt(fl, x, |digits|, exp)
    ensures var cut := CutDigits(fl, x, digits, exp);
            var (r, even) := (EvenOnTie(fl, x, digits, exp), Decimal(EvenOf(Units(cut)), exp + 1 - |digits|));
            if fl.parse(even) == x then |r.0| == |digits| && SameDecimal(even, Scientific(r.0, r.1)) else r == (digits, exp)
  {
    var cut := CutDigits(fl, x, digits, exp);
    var (candidate, e) := EvenNeighbour(cut, exp);
    hide Units, SameDecimal, EvenNeighbour, EvenOf, Scientific, FloatsSound;
    EvenNeighbourIsEven(cut, exp);
    ParsesAlike(fl, Decimal(EvenOf(Units(cut)), exp + 1 - |digits|), Scientific(candidate, e));
  }

  /** On a tie twice the double is worth an odd number of last-place units, so it lies exactly
      halfway, and the even neighbour is written exactly when it reads back as the double;
      without a tie the shortest digits are written. */
  lemma TiesGoToEven(fl: Floats, x: nat, digits: Digits, exp: int)
    requires FloatsSound(fl) && 0 < x < FINITE_MAGNITUDES
    ensures var r := EvenOnTie(fl, x, digits, exp);
            if !TieAt(fl, x, |digits|, exp) then r == (digits, exp)
            else
              var (place, units) := (exp + 1 - |digits|, Units(CutDigits(fl, x, digits, exp)));
              && SameDecimal(Twice(Worth(x)), Decimal(2 * units + 1, place))
              && (var even := Decimal(EvenOf(units), place);
                  if fl.parse(even) == x then |r.0| == |digits| && SameDecimal(even, Scientific(r.0, r.1)) else r == (digits, exp))
  {
    hide Worth, SameDecimal, Units, EvenOf, Scientific, FloatsSound, CutDigits, EvenNeighbour;
    if TieAt(fl, x, |digits|, exp) {
      hide *;
      TieIsHalfway(fl, x, digits, exp);
      EvenIsWritten(fl, x, digits, exp);
    }
  }

  /** No decimal of fewer than `k` digits reads back as the double. */
  ghost predicate NoShorter(fl: Floats, x: nat, k: nat)
    requires k > 0
  {
    forall c: nat, e: int | c < Pow10(k - 1) :: fl.parse(Decimal(c, e)) != x
  }

  lemma {:induction false} UnitsBelow(s: string)
    requires IsDigits(s)
    ensures Units(s) < Pow10(|s|)
  {
    if s != "" {
      UnitsBelow(s[..|s| - 1]);
    }
  }

  lemma TrailingZeroIsLonger(fl: Floats, digits: Digits, exp: int)
    requires FloatsSound(fl) && |digits| > 1 && digits[|digits| - 1] == '0'
    ensures var shorter := digits[..|digits| - 1];
            Units(shorter) < Pow10(|digits| - 1)
            && fl.parse(Decimal(Units(shorter), exp + 2 - |digits|)) == fl.parse(Scientific(digits, exp))
  {
    var init := digits[..|digits| - 1];
    UnitsSnoc(init, '0');
    assert digits == init + "0";
    UnitsBelow(init);
    assert Pow10(0) == 1 && Pow10(1) == 10 * Pow10(0);
    assert SameDecimal(Decimal(Units(init), exp + 2 - |digits|), Scientific(digits, exp));
  }

  lemma ShortestEndsWell(fl: Floats, x: nat, digits: Digits, exp: int)
    requires FloatsSound(fl) && digits[0] != '0'
    requires fl.parse(Scientific(digits, exp)) == x && NoShorter(fl, x, |digits|)
    ensures digits[|digits| - 1] != '0'
  {
    if |digits| > 1 && digits[|digits| - 1] == '0' {
      TrailingZeroIsLonger(fl, digits, exp);
    }
  }

  /** Whichever neighbour is taken reads back as the double, with as many digits, none of
      them a leading zero, nor a trailing one when the digits were shortest. */
  lemma EvenOnTieReadsBack(fl: Floats, x: nat, digits: Digits, exp: int)
    requires FloatsSound(fl) && 0 < x < FINITE_MAGNITUDES && digits[0] != '0'
    requires fl.parse(Scientific(digits, exp)) == x
    ensures var (r, e) := EvenOnTie(fl, x, digits, exp);
            && |r| == |digits| && r[0] != '0'
            && fl.parse(Scientific(r, e)) == x
            && (NoShorter(fl, x, |digits|) ==> r[|r| - 1] != '0')
  {
    var (r, e) := EvenOnTie(fl, x, digits, exp);
    if TieAt(fl, x, |digits|, exp) {
      EvenNeighbourIsEven(fl.exact(x).0[..|digits|], exp);
    }
    if NoShorter(fl, x, |digits|) {
      ShortestEndsWell(fl, x, r, e);
    }
  }

  // ----- Numbers -----

  function Number(fl: Floats, d: Double): Option<string> {
    if d.magnitude >= FINITE_MAGNITUDES then None
    else if d.magnitude == 0 then Some("0")
    else
      var (digits, exp) := fl.shortest(d.magnitude);
      var (r, e) := EvenOnTie(fl, d.magnitude, digits, exp);
      Some((if d.negative then "-" else "") + Layout(r, e))
  }

  function ReadNumber(s: string): Option<(bool, Decimal)> {
    var negative := s != "" && s[0] == '-';
    match ReadDecimal(if negative then s[1..] else s)
    case None => None
    case Some(d) => Some((negative, d))
  }

  predicate NumberChar(c: char) {
    IsDigit(c) || c == '.' || c == 'e' || c == '+' || c == '-'
  }

  predicate IsNumberText(s: string) {
    forall i | 0 <= i < |s| :: NumberChar(s[i])
  }

  lemma DigitsAreText(s: string)
    requires IsDigits(s)
    ensures IsNumberText(s)
  {
  }

  lemma TextJoins(a: string, b: string)
    requires IsNumberText(a) && IsNumberText(b)
    ensures IsNumberText(a + b)
  {
  }

  lemma LayoutChars(digits: string, exp: int)
    requires IsDigits(digits) && digits != ""
    ensures Layout(digits, exp) != "" && IsDigit(Layout(digits, exp)[0])
    ensures IsNumberText(Layout(digits, exp))
  {
    var k, n := |digits|, exp + 1;
    DigitsAreText(digits);
    if 0 < n < k && n <= 21 {
      DigitsAreText(digits[..n]);
      DigitsAreText(digits[n..]);
      TextJoins(digits[..n], ".");
      TextJoins(digits[..n] + ".", digits[n..]);
    } else if 0 < n <= 21 {
      DigitsAreText(Repeat('0', n - k));
      TextJoins(digits, Repeat('0', n - k));
    } else if -6 < n <= 0 {
      DigitsAreText(Repeat('0', -n));
      TextJoins("0.", Repeat('0', -n));
      TextJoins("0." + Repeat('0', -n), digits);
    } else {
      MantissaChars(digits);
      ExponentChars(n - 1);
      hide Mantissa, ExponentText;
      TextJoins(Mantissa(digits), "e");
      TextJoins(Mantissa(digits) + "e", ExponentText(n - 1));
    }
  }

  lemma MantissaChars(digits: string)
    requires IsDigits(digits) && digits != ""
    ensures Mantissa(digits) != "" && Mantissa(digits)[0] == digits[0] && IsNumberText(Mantissa(digits))
  {
    DigitsAreText(digits);
    DigitsAreText(digits[1..]);
    TextJoins(digits[..1], ".");
    TextJoins(digits[..1] + ".", digits[1..]);
  }

  lemma ExponentChars(e: int)
    ensures IsNumberText(ExponentText(e))
  {
    var size: nat := if e < 0 then -e else e;
    hide NatText;
    DigitsAreText(NatText(size));
    TextJoins([if e < 0 then '-' else '+'], NatText(size));
  }

  /** Every finite double is written, in number characters only; but for zero, whose sign is
      dropped, the text reads back as its sign and a decimal that parses to its magnitude. */
  lemma NumberReadsBack(fl: Floats, d: Double)
    requires FloatsSound(fl)
    ensures Number(fl, d).Some? <==> d.magnitude < FINITE_MAGNITUDES
    ensures d.magnitude == 0 ==> Number(fl, d) == Some("0")
    ensures 0 < d.magnitude < FINITE_MAGNITUDES ==>
              (var r := ReadNumber(Number(fl, d).value);
               r.Some? && r.value.0 == d.negative && fl.parse(r.value.1) == d.magnitude)
  {
    if 0 < d.magnitude < FINITE_MAGNITUDES {
      var (digits, exp) := fl.shortest(d.magnitude);
      EvenOnTieReadsBack(fl, d.magnitude, digits, exp);
      var (r, e) := EvenOnTie(fl, d.magnitude, digits, exp);
      LayoutChars(r, e);
      LayoutDenotes(r, e);
      var text := Number(fl, d).value;
      if d.negative {
        assert text[1..] == Layout(r, e);
      } else {
        assert text == Layout(r, e);
      }
    }
  }

  lemma NumberChars(fl: Floats, d: Double)
    requires FloatsSound(fl) && d.magnitude < FINITE_MAGNITUDES
    ensures Number(fl, d).value != "" && (IsDigit(Number(fl, d).value[0]) || Number(fl, d).value[0] == '-')
    ensures IsNumberText(Number(fl, d).value)
  {
    if 0 < d.magnitude {
      var (digits, exp) := fl.shortest(d.magnitude);
      var (r, e) := EvenOnTie(fl, d.magnitude, digits, exp);
      LayoutChars(r, e);
    }
  }

  lemma ZeroIsApart(fl: Floats, d: Double)
    requires FloatsSound(fl) && 0 < d.magnitude < FINITE_MAGNITUDES
    ensures Number(fl, d) != Some("0")
  {
    var (digits, exp) := fl.shortest(d.magnitude);
    EvenOnTieReadsBack(fl, d.magnitude, digits, exp);
    var (r, e) := EvenOnTie(fl, d.magnitude, digits, exp);
    var text := Number(fl, d).value;
    if d.negative {
      assert text[0] == '-';
    } else {
      assert text == Layout(r, e);
      assert text[0] == '0' ==> |text| > 1;
    }
  }

  /** Two doubles are written alike exactly when they are equal. */
  lemma NumberDetermines(fl: Floats, a: Double, b: Double)
    requires FloatsSound(fl) && a.magnitude < FINITE_MAGNITUDES && b.magnitude < FINITE_MAGNITUDES
    ensures Number(fl, a) == Number(fl, b) <==> DoubleEq(a, b)
  {
    NumberReadsBack(fl, a);
    NumberReadsBack(fl, b);
    hide Number, ReadNumber;
    if a.magnitude == 0 && b.magnitude > 0 { ZeroIsApart(fl, b); }
    if b.magnitude == 0 && a.magnitude > 0 { ZeroIsApart(fl, a); }
  }

  lemma Appended(a: string, b: string, c: string)
    ensures a + b + c == a + (b + c)
  {
  }

  /** The layout of `number`, appended part by part. */
  method WriteLayout(sign: string, digits: string, exp: int) returns (out: string)
    requires digits != ""
    ensures out == sign + Layout(digits, exp)
  {
    hide Repeat, NatText, Mantissa, ExponentText;
    var k, n := |digits|, exp + 1;
    out := sign;
    if k <= n <= 21 {
      out := out + digits;
      out := out + Repeat('0', n - k);
      Appended(sign, digits, Repeat('0', n - k));
    } else if 0 < n <= 21 {
      out := out + digits[..n];
      out := out + ".";
      Appended(sign, digits[..n], ".");
      out := out + digits[n..];
      Appended(sign, digits[..n] + ".", digits[n..]);
    } else if -6 < n <= 0 {
      out := out + "0.";
      out := out + Repeat('0', -n);
      Appended(sign, "0.", Repeat('0', -n));
      out := out + digits;
      Appended(sign, "0." + Repeat('0', -n), digits);
    } else {
      out := WriteMantissa(out, digits);
      out := out + "e";
      Appended(sign, Mantissa(digits), "e");
      out := out + ExponentText(n - 1);
      Appended(sign, Mantissa(digits) + "e", ExponentText(n - 1));
    }
  }

  /** The first digit, and the others after a point. */
  method WriteMantissa(before: string, digits: string) returns (out: string)
    requires digits != ""
    ensures out == before + Mantissa(digits)
  {
    out := before + digits[..1];
    if digits[1..] != "" {
      out := out + ".";
      Appended(before, digits[..1], ".");
      out := out + digits[1..];
      Appended(before, digits[..1] + ".", digits[1..]);
    } else {
      assert digits[..1] == digits;
    }
  }

  /** `number` of jcs.rs. */
  method WriteNumber(fl: Floats, d: Double) returns (r: Option<string>)
    ensures r == Number(fl, d)
  {
    if d.magnitude >= FINITE_MAGNITUDES { return None; }
    if d.magnitude == 0 { return Some("0"); }
    var shortest := fl.shortest(d.magnitude);
    var written := EvenOnTie(fl, d.magnitude, shortest.0, shortest.1);
    var out := WriteLayout(if d.negative then "-" else "", written.0, written.1);
    r := Some(out);
  }
}
