/** How well the cubic of the difficulty rule approximates a power of two
    (electronfittexxcoin/asert_daa.py:134-141). */
module AsertFactor {
  import opened Arith
  import opened BitStrings
  import opened Asert

  /** y^k, by repeated addition: the proofs then treat powers as plain numbers. */
  function Power(y: nat, k: nat): nat {
    if k == 0 then 1 else Times(y, Power(y, k - 1))
  }

  lemma PowerStep(y: nat, k: nat)
    ensures Power(y, k + 1) == y * Power(y, k)
  {
    TimesIs(y, Power(y, k));
  }

  lemma {:induction false} PowersMultiply(y: nat, i: nat, j: nat)
    ensures Power(y, i) * Power(y, j) == Power(y, i + j)
  {
    if i != 0 {
      PowersMultiply(y, i - 1, j);
      PowerStep(y, i - 1);
      PowerStep(y, i + j - 1);
      Associates(y, Power(y, i - 1), Power(y, j));
    }
  }

  lemma Associates(a: nat, b: nat, c: nat)
    ensures (a * b) * c == a * (b * c)
  {}

  // ---------------------------------------------------------------- inequalities between powers

  lemma SquareTimes(p: nat, y: int, s: int)
    ensures y * (y * p) - 2 * s * (y * p) + s * s * p >= 0
  {
    var d := y - s;
    assert d * d >= 0;
    MulMonotone(p, 0, d * d);
    assert p * (d * d) == y * (y * p) - 2 * s * (y * p) + s * s * p;
  }

  /** y^k (y - s)^2 is not negative. */
  lemma Touches(y: nat, k: nat, s: nat)
    ensures Power(y, k + 2) - 2 * s * Power(y, k + 1) + s * s * Power(y, k) >= 0
  {
    PowerStep(y, k);
    PowerStep(y, k + 1);
    SquareTimes(Power(y, k), y, s);
  }

  lemma Capped(y: nat, k: nat)
    requires 2 * y <= RADIX
    ensures 2 * Power(y, k + 1) <= RADIX * Power(y, k)
  {
    PowerStep(y, k);
    MulMonotone(Power(y, k), 2 * y, RADIX);
  }

  /** y^k (RADIX - 2 y) (y - s)^2 is not negative. */
  lemma TouchesCapped(y: nat, k: nat, s: nat)
    requires 2 * y <= RADIX
    ensures
      RADIX * Power(y, k + 2) - 2 * Power(y, k + 3) - 2 * s * (RADIX * Power(y, k + 1) - 2 * Power(y, k + 2))
      + s * s * (RADIX * Power(y, k) - 2 * Power(y, k + 1)) >= 0
  {
    Capped(y, k);
    CapStep(y, k);
    CapStep(y, k + 1);
    SquareTimes(RADIX * Power(y, k) - 2 * Power(y, k + 1), y, s);
  }

  lemma CapStep(y: nat, k: nat)
    ensures RADIX * Power(y, k + 1) - 2 * Power(y, k + 2) == y * (RADIX * Power(y, k) - 2 * Power(y, k + 1))
  {
    PowerStep(y, k);
    PowerStep(y, k + 1);
    Distributes(y, Power(y, k), Power(y, k + 1));
  }

  lemma Distributes(y: int, p: int, q: int)
    ensures RADIX * (y * p) - 2 * (y * q) == y * (RADIX * p - 2 * q)
  {}

  // ---------------------------------------------------------------- the defect of the cubic

  const SCALE: int := 0x1_0000_0000_0000

  /** SCALE * 65536 * (1 + 0.695502049 x + 0.2262698 x^2 + 0.0782318 x^3) at x = y / 65536, from the powers. */
  function Smooth(y1: nat, y2: nat, y3: nat): nat {
    RADIX * SCALE + 195766423245049 * y1 + 971821376 * y2 + 5127 * y3
  }

  /** The square of the cubic at y less its value at 2 y, from the powers. */
  function Defect(y2: nat, y3: nat, y4: nat, y5: nat, y6: nat): int {
    2470612053295137687894725169 * y2 - 186958751570249418076544 * y3 + 2951825690805265822 * y4
    + 9965056389504 * y5 + 26286129 * y6
  }

  const TOLERANCE: int := 34 * RADIX * SCALE * SCALE

  /** A lower bound from squares that touch zero at y = 29229, near the least value. */
  lemma LowFromPowers(y1: nat, y2: nat, y3: nat, y4: nat, y5: nat, y6: nat)
    requires 2 * y1 <= RADIX && y2 - 58458 * y1 + 854334441 * 1 >= 0
    requires y3 - 58458 * y2 + 854334441 * y1 >= 0
    requires y4 - 58458 * y3 + 854334441 * y2 >= 0
    requires y5 - 58458 * y4 + 854334441 * y3 >= 0
    requires y6 - 58458 * y5 + 854334441 * y4 >= 0
    ensures -TOLERANCE <= Defect(y2, y3, y4, y5, y6)
  {}

  /** An upper bound from squares that touch zero at y = 12000, near the greatest value. */
  lemma HighFromPowers(y1: nat, y2: nat, y3: nat, y4: nat, y5: nat, y6: nat)
    requires 2 * y1 <= RADIX && 2 * y5 <= RADIX * y4 && 2 * y6 <= RADIX * y5
    requires y2 - 24000 * y1 + 144000000 * 1 >= 0
    requires RADIX * y2 - 2 * y3 - 24000 * (RADIX * y1 - 2 * y2) + 144000000 * (RADIX * 1 - 2 * y1) >= 0
    requires RADIX * y3 - 2 * y4 - 24000 * (RADIX * y2 - 2 * y3) + 144000000 * (RADIX * y1 - 2 * y2) >= 0
    ensures Defect(y2, y3, y4, y5, y6) <= TOLERANCE
  {}

  lemma DefectLow(y: nat)
    requires 2 * y <= RADIX
    ensures -TOLERANCE <= Defect(Power(y, 2), Power(y, 3), Power(y, 4), Power(y, 5), Power(y, 6))
  {
    FirstPowers(y);
    Touches(y, 0, 29229);
    Touches(y, 1, 29229);
    Touches(y, 2, 29229);
    Touches(y, 3, 29229);
    Touches(y, 4, 29229);
    LowFromPowers(y, Power(y, 2), Power(y, 3), Power(y, 4), Power(y, 5), Power(y, 6));
  }

  lemma DefectHigh(y: nat)
    requires 2 * y <= RADIX
    ensures Defect(Power(y, 2), Power(y, 3), Power(y, 4), Power(y, 5), Power(y, 6)) <= TOLERANCE
  {
    FirstPowers(y);
    Touches(y, 0, 12000);
    TouchesCapped(y, 0, 12000);
    TouchesCapped(y, 1, 12000);
    Capped(y, 4);
    Capped(y, 5);
    HighFromPowers(y, Power(y, 2), Power(y, 3), Power(y, 4), Power(y, 5), Power(y, 6));
  }

  lemma FirstPowers(y: nat)
    ensures Power(y, 0) == 1 && Power(y, 1) == y && Power(y, 2) == Times(y, y) && Power(y, 3) == Times(y, Times(y, y))
  {
    PowerStep(y, 0);
  }

  // ---------------------------------------------------------------- the factor and the cubic

  /** The factor is the cubic, rounded to the nearest unit. */
  lemma FactorRounds(f: nat)
    ensures -SCALE <= 2 * (Factor(f) * SCALE - Smooth(f, Power(f, 2), Power(f, 3))) <= SCALE
  {
    FirstPowers(f);
  }

  lemma DoubledPowers(f: nat)
    ensures Power(2 * f, 2) == 4 * Power(f, 2) && Power(2 * f, 3) == 8 * Power(f, 3)
  {
    DoubledPower(f, 0, 1);
    DoubledPower(f, 1, 2);
    DoubledPower(f, 2, 4);
  }

  lemma DoubledPower(f: nat, k: nat, m: nat)
    requires Power(2 * f, k) == m * Power(f, k)
    ensures Power(2 * f, k + 1) == 2 * m * Power(f, k + 1)
  {
    PowerStep(2 * f, k);
    PowerStep(f, k);
    TwiceTimes(f, m, Power(f, k));
  }

  lemma TwiceTimes(f: nat, m: nat, p: nat)
    ensures 2 * f * (m * p) == 2 * m * (f * p)
  {
    Associates(f, m, p);
    Associates(m, f, p);
    assert f * m == m * f;
  }

  lemma SquareOfSum(k: int, a: int, b: int, c: int)
    ensures (k + a + b + c) * (k + a + b + c)
         == k * k + a * a + b * b + c * c + 2 * (k * a) + 2 * (k * b) + 2 * (k * c) + 2 * (a * b) + 2 * (a * c) + 2 * (b * c)
  {}

  lemma SquareOfCubic(y1: nat, y2: nat, y3: nat, y4: nat, y5: nat, y6: nat)
    requires y1 * y1 == y2 && y1 * y2 == y3 && y1 * y3 == y4 && y2 * y2 == y4 && y2 * y3 == y5 && y3 * y3 == y6
    ensures Smooth(y1, y2, y3) * Smooth(y1, y2, y3) - RADIX * SCALE * Smooth(2 * y1, 4 * y2, 8 * y3)
         == Defect(y2, y3, y4, y5, y6)
  {
    SquareOfSum(RADIX * SCALE, 195766423245049 * y1, 971821376 * y2, 5127 * y3);
  }

  /** What the rounding of both sides adds, for a cubic that is at most sqrt 2. */
  lemma RoundingAdds(factor: nat, double: nat, p: nat, q: nat)
    requires -SCALE <= 2 * (factor * SCALE - p) <= SCALE && -SCALE <= 2 * (double * SCALE - q) <= SCALE
    requires 10 * p <= 15 * RADIX * SCALE && -TOLERANCE <= p * p - RADIX * SCALE * q <= TOLERANCE
    ensures -36 * RADIX <= factor * factor - RADIX * double <= 36 * RADIX
  {
    var (e, g) := (factor * SCALE - p, double * SCALE - q);
    SquareNear(p, e);
    var all := p * p - RADIX * SCALE * q + 2 * (p * e) + e * e - RADIX * SCALE * g;
    assert SCALE * SCALE * (factor * factor - RADIX * double) == all by {
      assert (factor * SCALE) * (factor * SCALE) == SCALE * SCALE * (factor * factor);
      assert factor * SCALE == p + e;
    }
  }

  lemma SquareNear(p: nat, e: int)
    requires -SCALE <= 2 * e <= SCALE
    ensures (p + e) * (p + e) == p * p + 2 * (p * e) + e * e
    ensures 0 <= 4 * (e * e) <= SCALE * SCALE && -(p * SCALE) <= 2 * (p * e) <= p * SCALE
  {
    MulMonotone(p, 2 * e, SCALE);
    MulMonotone(p, -SCALE, 2 * e);
    var d := if e < 0 then -e else e;
    assert e * e == d * d;
    MulMonotone(2 * d, 2 * d, SCALE);
    MulMonotone(SCALE, 2 * d, SCALE);
  }

  lemma SmoothBelow(f: nat)
    requires 2 * f <= RADIX
    ensures 10 * Smooth(f, Power(f, 2), Power(f, 3)) <= 15 * RADIX * SCALE
  {
    FirstPowers(f);
    Capped(f, 1);
    Capped(f, 2);
  }

  /** The square of the factor is the factor of twice the fraction, but for 36 units: like a power of two,
      the factor turns sums into products. */
  lemma FactorDoubles(f: nat)
    requires 2 * f <= RADIX
    ensures -36 * RADIX <= Factor(f) * Factor(f) - RADIX * Factor(2 * f) <= 36 * RADIX
  {
    FactorRounds(f);
    FactorRounds(2 * f);
    DoubledPowers(f);
    PowersMultiply(f, 1, 1);
    PowersMultiply(f, 1, 2);
    PowersMultiply(f, 1, 3);
    PowersMultiply(f, 2, 2);
    PowersMultiply(f, 2, 3);
    PowersMultiply(f, 3, 3);
    FirstPowers(f);
    SquareOfCubic(f, Power(f, 2), Power(f, 3), Power(f, 4), Power(f, 5), Power(f, 6));
    DefectLow(f);
    DefectHigh(f);
    SmoothBelow(f);
    RoundingAdds(Factor(f), Factor(2 * f), Smooth(f, Power(f, 2), Power(f, 3)), Smooth(2 * f, Power(2 * f, 2), Power(2 * f, 3)));
  }

  /** At a whole unit it doubles exactly. */
  lemma FactorAtOne()
    ensures Factor(0) == RADIX && Factor(RADIX) == 2 * RADIX
  {
    TimesIs(RADIX, RADIX);
    TimesIs(RADIX, RADIX * RADIX);
  }
}
