/** What a double is worth: the exact value behind the bit pattern of a finite binary64
    (IEEE 754-2019, section 3.4), as a decimal. */
module Doubles {
  import opened Decimals

  /** Two to the 52: how many fractions there are to one exponent. */
  const FRACTIONS: nat := 0x10_0000_0000_0000

  /** The smallest positive double is two to the minus 1074. */
  const PLACES: nat := 1074

  function Pow2(n: nat): (p: nat)
    ensures p >= 1
  {
    if n == 0 then 1 else 2 * Pow2(n - 1)
  }

  function Pow5(n: nat): (p: nat)
    ensures p >= 1
  {
    if n == 0 then 1 else 5 * Pow5(n - 1)
  }

  /** A magnitude in units of the smallest double: subnormal, or with the implicit bit. */
  function Ulps(x: nat): nat {
    var exponent, fraction := x / FRACTIONS, x % FRACTIONS;
    if exponent == 0 then fraction else (FRACTIONS + fraction) * Pow2(exponent - 1)
  }

  /** `u` halved `n` times: one half is five in the next place. */
  function Halved(u: nat, n: nat): Decimal {
    Decimal(u * Pow5(n), 0 - n)
  }

  function Worth(x: nat): Decimal {
    Halved(Ulps(x), PLACES)
  }

  lemma {:induction false} Pow10Splits(n: nat)
    ensures Pow10(n) == Pow2(n) * Pow5(n)
  {
    if n > 0 {
      Pow10Splits(n - 1);
      TenFactors(Pow2(n - 1), Pow5(n - 1));
    }
  }

  lemma TenFactors(a: nat, b: nat)
    ensures 10 * (a * b) == (2 * a) * (5 * b)
  {
  }

  // ----- The order of magnitudes is the order of values -----

  lemma NextUlps(x: nat)
    ensures Ulps(x) < Ulps(x + 1)
  {
    var e, f := x / FRACTIONS, x % FRACTIONS;
    if f == FRACTIONS - 1 {
      assert (x + 1) / FRACTIONS == e + 1 && (x + 1) % FRACTIONS == 0;
      if e > 0 {
        assert Pow2(e) == 2 * Pow2(e - 1);
        Scaled(FRACTIONS + f, 2 * FRACTIONS, Pow2(e - 1));
      }
    } else {
      assert (x + 1) / FRACTIONS == e && (x + 1) % FRACTIONS == f + 1;
      if e > 0 { Scaled(FRACTIONS + f, FRACTIONS + f + 1, Pow2(e - 1)); }
    }
  }

  lemma Scaled(a: nat, b: nat, p: nat)
    requires a < b && p >= 1
    ensures a * p < b * p
  {
  }

  lemma {:induction false} UlpsGrow(x: nat, y: nat)
    requires x < y
    ensures Ulps(x) < Ulps(y)
    decreases y
  {
    NextUlps(y - 1);
    if x < y - 1 { UlpsGrow(x, y - 1); }
  }

  lemma HalvedDetermines(u: nat, v: nat, n: nat)
    requires SameDecimal(Halved(u, n), Halved(v, n))
    ensures u == v
  {
    PowZero();
    CancelFactor(u, v, Pow5(n));
  }

  /** Halving undoes doubling. */
  lemma HalvedDoubled(i: nat, n: nat)
    ensures SameDecimal(Halved(i * Pow2(n), n), Decimal(i, 0))
  {
    Pow10Splits(n);
    Associates(i, Pow2(n), Pow5(n));
    PowZero();
  }

  /** Two magnitudes are worth the same only if they are one. */
  lemma WorthDetermines(x: nat, y: nat)
    requires SameDecimal(Worth(x), Worth(y))
    ensures x == y
  {
    hide SameDecimal, Halved, Ulps;
    HalvedDetermines(Ulps(x), Ulps(y), PLACES);
    if x < y { UlpsGrow(x, y); }
    if y < x { UlpsGrow(y, x); }
  }

  /** Only zero is worth nothing. */
  lemma WorthNothing(x: nat)
    requires SameDecimal(Worth(x), Decimal(0, 0))
    ensures x == 0
  {
    hide Pow5;
    assert Worth(0).coefficient == 0;
    assert SameDecimal(Worth(x), Worth(0)) by {
      SameDecimalTransitive(Worth(x), Decimal(0, 0), Worth(0));
    }
    WorthDetermines(x, 0);
  }
}
