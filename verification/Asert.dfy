/** The aserti3-2d difficulty adjustment (electronfittexxcoin/asert_daa.py:115-157), with the
    division by the half-life done exactly and truncated toward zero. */
module Asert {
  import opened Arith
  import opened BitStrings
  import opened CompactTarget

  const IDEAL_BLOCK_TIME := 600

  const RADIX := 0x1_0000

  /** Division truncating toward zero. */
  function Truncate(a: int, d: int): int
    requires 0 < d
  {
    if a >= 0 then a / d else -(-a / d)
  }

  /** 65536 * 2^(f / 65536), approximately; for a fraction it does not pass the next power of two. */
  function Factor(f: nat): (r: nat)
    ensures RADIX <= r && (f < RADIX ==> r <= 2 * RADIX)
  {
    assert f < RADIX ==> Cubic(f) / 0x1_0000_0000_0000 <= RADIX by {
      if f < RADIX {
        var top: nat := RADIX - 1;
        CubicMonotone(f, top);
        CubicTop(top);
        DivMonotone(Cubic(f), Cubic(top), 0x1_0000_0000_0000);
      }
    }
    RADIX + Cubic(f) / 0x1_0000_0000_0000
  }

  /** The square and the cube are written as repeated additions: the proofs then compare them without
      multiplying them by the large coefficients. */
  function Cubic(f: nat): nat { Weighted(f, Times(f, f), Times(f, Times(f, f))) }

  function Weighted(x: nat, square: nat, cube: nat): nat {
    195766423245049 * x + 971821376 * square + 5127 * cube + 0x8000_0000_0000
  }

  /** v * 2^s, rounded down when s is negative. */
  function Scale(v: nat, s: int): (r: nat) {
    if s < 0 then
      PowPositive(2, -s); DivBounds(v, Pow(2, -s), 0);
      v / Pow(2, -s)
    else
      PowPositive(2, s); MulMonotone(v, 0, Pow(2, s));
      v * Pow(2, s)
  }

  /** The target for an anchor target and a fixed-point exponent. */
  function ScaledTarget(target: nat, exponent: int): nat {
    var shifts := exponent / RADIX;
    var f := exponent - shifts * RADIX;
    MulMonotone(target, 0, Factor(f));
    Scale(target * Factor(f), shifts) / RADIX
  }

  function Delay(timeDiff: int, heightDiff: int): int {
    timeDiff - IDEAL_BLOCK_TIME * (heightDiff + 1)
  }

  function Exponent(timeDiff: int, heightDiff: int, halfLife: int): int
    requires 0 < halfLife
  {
    Truncate(Delay(timeDiff, heightDiff) * RADIX, halfLife)
  }

  /** None where an assertion of the source fails. */
  function NextBits(anchorBits: nat, timeDiff: int, heightDiff: int, halfLife: int): Option<nat>
    requires 0 < halfLife
  {
    var anchor := BitsToTarget(anchorBits);
    if anchor.None? || !(-0x8000_0000_0000 < Delay(timeDiff, heightDiff) < 0x8000_0000_0000) then None
    else
      var target := ScaledTarget(anchor.value, Exponent(timeDiff, heightDiff, halfLife));
      Some(if target == 0 then TargetToBits(1) else if target > MAX_TARGET then MAX_BITS else TargetToBits(target))
  }

  // ---------------------------------------------------------------- monotone pieces

  lemma TruncateMonotone(a: int, b: int, d: int)
    requires 0 < d && a <= b
    ensures Truncate(a, d) <= Truncate(b, d)
  {
    if a >= 0 { DivMonotone(a, b, d); }
    if b < 0 { DivMonotone(-b, -a, d); }
    if a < 0 <= b { DivBounds(-a, d, 0); DivBounds(b, d, 0); }
  }

  lemma SquareAndCubeMonotone(f: nat, g: nat)
    requires f <= g
    ensures f * f <= g * g && f * (f * f) <= g * (g * g)
  {
    MulMonotone(f, f, g);
    MulMonotone(g, f, g);
    MulMonotone(f, f * f, g * g);
    MulMonotone(g * g, f, g);
  }

  /** The powers are the powers, and they grow with the fraction. */
  lemma PowersMonotone(f: nat, g: nat)
    requires f <= g
    ensures Times(f, f) == f * f && Times(f, Times(f, f)) == f * (f * f)
    ensures Times(f, f) <= Times(g, g) && Times(f, Times(f, f)) <= Times(g, Times(g, g))
  {
    TimesIs(f, f);
    TimesIs(f, f * f);
    TimesIs(g, g);
    TimesIs(g, g * g);
    SquareAndCubeMonotone(f, g);
  }

  lemma CubicTop(top: nat)
    requires top == RADIX - 1
    ensures Cubic(top) / 0x1_0000_0000_0000 <= RADIX
  {
    PowersMonotone(top, top);
    assert Times(top, top) == 0xfffe_0001 && Times(top, Times(top, top)) == 0xfffd_0002_ffff;
  }

  lemma WeightedMonotone(x: nat, x': nat, y: nat, y': nat, z: nat, z': nat)
    requires x <= x' && y <= y' && z <= z'
    ensures Weighted(x, y, z) <= Weighted(x', y', z')
  {}

  lemma CubicMonotone(f: nat, g: nat)
    requires f <= g
    ensures Cubic(f) <= Cubic(g)
  {
    PowersMonotone(f, g);
    WeightedMonotone(f, g, Times(f, f), Times(g, g), Times(f, Times(f, f)), Times(g, Times(g, g)));
  }

  lemma FactorMonotone(f: nat, g: nat)
    requires f <= g
    ensures Factor(f) <= Factor(g)
  {
    CubicMonotone(f, g);
    DivMonotone(Cubic(f), Cubic(g), 0x1_0000_0000_0000);
  }

  lemma ScaleMonotone(u: nat, v: nat, s: int)
    requires u <= v
    ensures Scale(u, s) <= Scale(v, s)
  {
    if s < 0 { PowPositive(2, -s); DivMonotone(u, v, Pow(2, -s)); }
    else { PowPositive(2, s); MulMonotone(Pow(2, s), u, v); }
  }

  /** Doubling the value is shifting one place further, on both sides of zero. */
  lemma ScaleDouble(v: nat, s: int)
    ensures Scale(2 * v, s) == Scale(v, s + 1)
  {
    if s >= 0 {
      assert 2 * v * Pow(2, s) == v * (2 * Pow(2, s));
    } else if s == -1 {
      assert Pow(2, 1) == 2 && Pow(2, 0) == 1;
    } else {
      var p := Pow(2, -s - 1);
      PowPositive(2, -s - 1);
      DivDiv(2 * v, 2, p);
    }
  }

  lemma {:induction false} ScaleShiftMonotone(v: nat, s: int, s': int)
    requires s <= s'
    ensures Scale(v, s) <= Scale(v, s')
    decreases s' - s
  {
    if s < s' {
      ScaleMonotone(v, 2 * v, s);
      ScaleDouble(v, s);
      ScaleShiftMonotone(v, s + 1, s');
    }
  }

  lemma Fraction(e: int)
    ensures 0 <= e - (e / RADIX) * RADIX < RADIX
  {}

  /** The target grows with the exponent, also where the fraction wraps into the next shift. */
  lemma ScaledTargetMonotone(target: nat, e: int, e': int)
    requires e <= e'
    ensures ScaledTarget(target, e) <= ScaledTarget(target, e')
  {
    var (s, s') := (e / RADIX, e' / RADIX);
    var (f, f') := (e - s * RADIX, e' - s' * RADIX);
    Fraction(e);
    Fraction(e');
    DivMonotone(e, e', RADIX);
    var (x, x') := (target * Factor(f), target * Factor(f'));
    MulMonotone(target, 0, Factor(f));
    MulMonotone(target, 0, Factor(f'));
    if s == s' {
      FactorMonotone(f, f');
      MulMonotone(target, Factor(f), Factor(f'));
      ScaleMonotone(x, x', s);
    } else {
      WrapMonotone(target, x, x', f, f', s, s');
    }
    DivMonotone(Scale(x, s), Scale(x', s'), RADIX);
  }

  lemma WrapMonotone(target: nat, x: nat, x': nat, f: nat, f': nat, s: int, s': int)
    requires f < RADIX && f' < RADIX && s < s' && x == target * Factor(f) && x' == target * Factor(f')
    ensures Scale(x, s) <= Scale(x', s')
  {
    MulMonotone(target, Factor(f), 2 * RADIX);
    MulMonotone(target, RADIX, Factor(f'));
    ScaleMonotone(x, 2 * (target * RADIX), s);
    ScaleDouble(target * RADIX, s);
    ScaleShiftMonotone(target * RADIX, s + 1, s');
    ScaleMonotone(target * RADIX, x', s');
  }

  // ---------------------------------------------------------------- the adjustment

  /** Rounding to a compact form is monotone. */
  lemma RoundedMonotone(t: nat, u: nat)
    requires 0 < t <= u
    ensures Rounded(t) <= Rounded(u)
  {
    MaxTargetPositive();
    DecodeOfEncode(t);
    DecodeOfEncode(u);
    GreatestRepresentable(Clamp(u), TargetToBits(t));
  }

  /** The ceiling bits are what the encoder writes for any target above the ceiling. */
  lemma MaxBitsIsRounded(t: nat)
    requires t >= MAX_TARGET
    ensures TargetToBits(t) == MAX_BITS
  {
    MaxTargetPositive();
    CompactUnique(MAX_TARGET, 0xffff, 29);
  }

  /** The decoded result: the scaled target, at least 1, rounded to a compact form. */
  lemma NextTarget(anchorBits: nat, timeDiff: int, heightDiff: int, halfLife: int)
    requires 0 < halfLife && NextBits(anchorBits, timeDiff, heightDiff, halfLife).Some?
    ensures
      var t := ScaledTarget(BitsToTarget(anchorBits).value, Exponent(timeDiff, heightDiff, halfLife));
      BitsToTarget(NextBits(anchorBits, timeDiff, heightDiff, halfLife).value) == Some(Rounded(Max(1, t)))
  {
    var t := ScaledTarget(BitsToTarget(anchorBits).value, Exponent(timeDiff, heightDiff, halfLife));
    if t > MAX_TARGET { MaxBitsIsRounded(t); }
    DecodeOfEncode(Max(1, t));
  }

  /** The result can always be read as a target between 1 and the ceiling, and it is refused only
      for an unreadable anchor or a delay of 2^47 seconds or more. */
  lemma Bounded(anchorBits: nat, timeDiff: int, heightDiff: int, halfLife: int)
    requires 0 < halfLife
    ensures
      var r := NextBits(anchorBits, timeDiff, heightDiff, halfLife);
      && (r.Some? <==> BitsToTarget(anchorBits).Some? && -0x8000_0000_0000 < Delay(timeDiff, heightDiff) < 0x8000_0000_0000)
      && (r.Some? ==> BitsToTarget(r.value).Some? && 1 <= BitsToTarget(r.value).value <= MAX_TARGET)
  {
    if NextBits(anchorBits, timeDiff, heightDiff, halfLife).Some? {
      NextTarget(anchorBits, timeDiff, heightDiff, halfLife);
      MaxTargetPositive();
      DecodeOfEncode(Max(1, ScaledTarget(BitsToTarget(anchorBits).value, Exponent(timeDiff, heightDiff, halfLife))));
    }
  }

  /** For one anchor, a later block at the same or a lower height never gets a harder target. */
  lemma Monotone(anchorBits: nat, time: int, height: int, time': int, height': int, halfLife: int)
    requires 0 < halfLife && time <= time' && height' <= height
    requires NextBits(anchorBits, time, height, halfLife).Some?
    requires NextBits(anchorBits, time', height', halfLife).Some?
    ensures BitsToTarget(NextBits(anchorBits, time, height, halfLife).value).Some?
    ensures BitsToTarget(NextBits(anchorBits, time', height', halfLife).value).Some?
    ensures BitsToTarget(NextBits(anchorBits, time, height, halfLife).value).value
         <= BitsToTarget(NextBits(anchorBits, time', height', halfLife).value).value
  {
    NextTarget(anchorBits, time, height, halfLife);
    NextTarget(anchorBits, time', height', halfLife);
    var target := BitsToTarget(anchorBits).value;
    var (e, e') := (Exponent(time, height, halfLife), Exponent(time', height', halfLife));
    TruncateMonotone(Delay(time, height) * RADIX, Delay(time', height') * RADIX, halfLife);
    ScaledTargetMonotone(target, e, e');
    RoundedMonotone(Max(1, ScaledTarget(target, e)), Max(1, ScaledTarget(target, e')));
  }

  /** A block exactly on schedule keeps the anchor's target, if it is within the ceiling. */
  lemma OnSchedule(anchorBits: nat, heightDiff: int, halfLife: int)
    requires 0 < halfLife && BitsToTarget(anchorBits).Some? && 0 < BitsToTarget(anchorBits).value <= MAX_TARGET
    ensures NextBits(anchorBits, 600 * (heightDiff + 1), heightDiff, halfLife)
         == Some(TargetToBits(BitsToTarget(anchorBits).value))
  {
    var t := BitsToTarget(anchorBits).value;
    DivModUnique(0, 0, 0, halfLife);
    assert Factor(0) == RADIX;
    assert Pow(2, 0) == 1;
    DivModUnique(t * RADIX, t, 0, RADIX);
  }

  /** A delay that a half-life takes from before the schedule to behind it: truncation toward zero then
      loses one unit, unless the division is exact. */
  predicate CrossesZero(delay: int, halfLife: int)
    requires 0 < halfLife
  {
    delay < 0 < delay + halfLife && delay * RADIX % halfLife != 0
  }

  /** One half-life later the exponent is one shift higher, or one unit less where the delay crosses zero. */
  lemma HalfLifeExponent(time: int, height: int, halfLife: int)
    requires 0 < halfLife
    ensures Exponent(time + halfLife, height, halfLife)
         == Exponent(time, height, halfLife) + RADIX - (if CrossesZero(Delay(time, height), halfLife) then 1 else 0)
  {
    var d := Delay(time, height);
    assert Delay(time + halfLife, height) * RADIX == d * RADIX + RADIX * halfLife;
    TruncateShift(d * RADIX, RADIX, halfLife);
  }

  lemma TruncateShift(a: int, k: nat, p: int)
    requires 0 < p
    ensures Truncate(a + k * p, p) == Truncate(a, p) + k - (if a < 0 < a + k * p && a % p != 0 then 1 else 0)
  {
    ModShift(a, k, p);
    TruncateFloor(a, p);
    TruncateFloor(a + k * p, p);
    MulMonotone(p, 0, k);
    if a + k * p == 0 { ModSmall(0, p); }
  }

  lemma TruncateFloor(a: int, p: int)
    requires 0 < p
    ensures Truncate(a, p) == a / p + (if a < 0 && a % p != 0 then 1 else 0)
  {
    var (q, r) := (a / p, a % p);
    DivMod(a, p);
    if r == 0 {
      DivModUnique(-a, -q, 0, p);
    } else {
      assert -a == (-q - 1) * p + (p - r);
      DivModUnique(-a, -q - 1, p - r, p);
    }
  }

  lemma ScaleTwice(x: nat, s: int)
    ensures 2 * Scale(x, s) <= Scale(2 * x, s) <= 2 * Scale(x, s) + 1
  {
    if s < 0 {
      PowPositive(2, -s);
      QuotientTwice(x, Pow(2, -s));
    } else {
      assert 2 * x * Pow(2, s) == 2 * (x * Pow(2, s));
    }
  }

  lemma QuotientTwice(x: nat, p: nat)
    requires 0 < p
    ensures 2 * (x / p) <= 2 * x / p <= 2 * (x / p) + 1
  {
    var q := x / p;
    DivBounds(x, p, q);
    DivBounds(x, p, q + 1);
    DivBounds(2 * x, p, 2 * q);
    DivBounds(2 * x, p, 2 * q + 2);
    assert 2 * q * p == 2 * (q * p) && (2 * q + 2) * p == 2 * ((q + 1) * p);
  }

  /** One shift further the scaled target doubles, up to the bit that truncation drops. */
  lemma ShiftDoubles(target: nat, e: int)
    ensures 2 * ScaledTarget(target, e) <= ScaledTarget(target, e + RADIX) <= 2 * ScaledTarget(target, e) + 1
  {
    ModShift(e, 1, RADIX);
    var s := e / RADIX;
    var f := e - s * RADIX;
    Fraction(e);
    MulMonotone(target, 0, Factor(f));
    var x := target * Factor(f);
    ScaleDouble(x, s);
    ScaleTwice(x, s);
    DropsOneBit(Scale(x, s), Scale(x, s + 1));
  }

  lemma DropsOneBit(y: nat, z: nat)
    requires 2 * y <= z <= 2 * y + 1
    ensures 2 * (y / RADIX) <= z / RADIX <= 2 * (y / RADIX) + 1
  {}

  /** One half-life later the scaled target is at most double and one bit more, and at least double except
      where the delay crosses zero. */
  lemma HalfLifeDoubles(target: nat, time: int, height: int, halfLife: int)
    requires 0 < halfLife
    ensures
      var t := ScaledTarget(target, Exponent(time, height, halfLife));
      var later := ScaledTarget(target, Exponent(time + halfLife, height, halfLife));
      later <= 2 * t + 1 && (!CrossesZero(Delay(time, height), halfLife) ==> 2 * t <= later)
  {
    var e := Exponent(time, height, halfLife);
    HalfLifeExponent(time, height, halfLife);
    ShiftDoubles(target, e);
    ScaledTargetMonotone(target, e + RADIX - 1, e + RADIX);
  }
}
