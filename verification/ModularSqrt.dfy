/** Square roots modulo a prime (electronfittexxcoin/msqr.py). */
module ModularSqrt {
  import opened Arith
  import opened NumberTheory

  ghost predicate IsRoot(x: int, a: int, p: int)
    requires 0 < p
  {
    (x * x) % p == a % p
  }

  ghost predicate HasRoot(a: int, p: int)
    requires 0 < p
  {
    exists x :: IsRoot(x, a, p)
  }

  /** Euler's criterion, with p - 1 reported as -1. */
  function LegendreSymbol(a: nat, p: int): int
    requires 2 <= p
  {
    var ls := PowMod(a, (p - 1) / 2, p);
    if ls == p - 1 then -1 else ls
  }

  /** The symbol is 0 exactly on multiples of p, and otherwise 1 or -1; a non-zero square has 1. */
  lemma LegendreValues(a: nat, p: int)
    requires IsPrime(p) && p != 2
    ensures LegendreSymbol(a, p) == 0 <==> a % p == 0
    ensures LegendreSymbol(a, p) in {-1, 0, 1}
    ensures a % p != 0 && HasRoot(a, p) ==> LegendreSymbol(a, p) == 1
  {
    Halves(p);
    var h := (p - 1) / 2;
    if a % p == 0 {
      ModMul(a, Pow(a, h - 1), p);
      assert PowMod(a, h, p) == (0 * Pow(a, h - 1)) % p;
      ModSmall(0, p);
    } else {
      EulerValues(a, p);
      if HasRoot(a, p) {
        var x :| IsRoot(x, a, p);
        SquareHasEulerOne(x, a, p);
      }
    }
  }

  // ---------------------------------------------------------------- the three loop invariants

  ghost function TwoTo(n: nat): (r: nat)
    ensures 0 < r
  {
    PowPositive(2, n);
    Pow(2, n)
  }

  /** x^2 = ab, g has order 2^r and b has order at most 2^(r-1). */
  ghost predicate Invariant(x: int, a: int, b: int, g: int, r: nat, p: int)
    requires 2 <= p
  {
    && 1 <= r && 0 <= x < p && 0 <= b < p
    && (x * x) % p == (a * b) % p
    && PowMod(b, TwoTo(r - 1), p) == 1
    && PowMod(g, TwoTo(r - 1), p) == p - 1
  }

  lemma PowTwice(g: int, k: nat)
    ensures Pow(g, k) * Pow(g, k) == Pow(g, 2 * k)
  {
    PowAdd(g, k, k);
  }

  /** Squaring the 2^(r-m-1)-th power of g leaves an element of order 2^m. */
  lemma NewGenerator(g: int, gs: int, r: nat, m: nat, p: int)
    requires 2 <= p && 1 <= m < r && PowMod(g, TwoTo(r - 1), p) == p - 1
    requires gs == PowMod(g, TwoTo(r - m - 1), p)
    ensures PowMod((gs * gs) % p, TwoTo(m - 1), p) == p - 1
  {
    var k, j := TwoTo(r - m - 1), TwoTo(m - 1);
    PowTwice(g, k);
    ModMul(Pow(g, k), Pow(g, k), p);
    PowMul(g, 2 * k, j);
    PowAdd(2, r - m, m - 1);
    assert TwoTo(r - 1) == 2 * k * j;
    PowModBase(gs * gs, j, p);
    PowModCongruent(gs * gs, Pow(g, 2 * k), j, p);
  }

  lemma NewRoot(x: int, a: int, b: int, gs: int, p: int)
    requires 2 <= p && (x * x) % p == (a * b) % p
    ensures
      var g' := (gs * gs) % p;
      var x', b' := (x * gs) % p, (b * g') % p;
      (x' * x') % p == (a * b') % p
  {
    var g' := (gs * gs) % p;
    var x', b' := (x * gs) % p, (b * g') % p;
    ModMul(x * gs, x * gs, p);
    assert x * gs * (x * gs) == (x * x) * (gs * gs);
    ModMul(x * x, gs * gs, p);
    ModMul(a * b, g', p);
    assert a * b * g' == a * (b * g');
    ModMul(a, b * g', p);
  }

  /** b^(2^(m-1)) is a root of 1 other than 1, so multiplying by the new generator gives 1. */
  lemma NewFudge(b: int, g: int, m: nat, p: int)
    requires IsPrime(p) && p != 2 && 1 <= m
    requires PowMod(b, TwoTo(m), p) == 1 && PowMod(b, TwoTo(m - 1), p) != 1
    requires PowMod(g, TwoTo(m - 1), p) == p - 1
    ensures PowMod((b * g) % p, TwoTo(m - 1), p) == 1
  {
    var j := TwoTo(m - 1);
    PowTwice(b, j);
    RootOfOne(Pow(b, j), p);
    PowModBase(b * g, j, p);
    PowDistributes(b, g, j);
    ModMul(Pow(b, j), Pow(g, j), p);
    assert (p - 1) * (p - 1) == 1 + (p - 2) * p;
    ModShift(1, p - 2, p);
    ModSmall(1, p);
  }

  lemma Step(x: int, a: int, b: int, g: int, r: nat, m: nat, p: int)
    requires IsPrime(p) && p != 2 && Invariant(x, a, b, g, r, p) && 1 <= m < r
    requires PowMod(b, TwoTo(m), p) == 1 && PowMod(b, TwoTo(m - 1), p) != 1
    ensures
      var gs := PowMod(g, TwoTo(r - m - 1), p);
      var g' := (gs * gs) % p;
      Invariant((x * gs) % p, a, (b * g') % p, g', m, p)
  {
    var gs := PowMod(g, TwoTo(r - m - 1), p);
    NewGenerator(g, gs, r, m, p);
    NewRoot(x, a, b, gs, p);
    NewFudge(b, (gs * gs) % p, m, p);
  }

  lemma Start(a: nat, n: nat, s: nat, e: nat, p: int)
    requires 2 <= p && s % 2 == 1 && 1 <= e && s * TwoTo(e) == p - 1
    requires LegendreSymbol(a, p) == 1 && LegendreSymbol(n, p) == -1
    ensures Invariant(PowMod(a, (s + 1) / 2, p), a, PowMod(a, s, p), PowMod(n, s, p), e, p)
  {
    var x, b, g := PowMod(a, (s + 1) / 2, p), PowMod(a, s, p), PowMod(n, s, p);
    var k := TwoTo(e - 1);
    assert s * k == (p - 1) / 2 by { assert s * TwoTo(e) == 2 * (s * k); }
    PowMul(a, s, k);
    PowMul(n, s, k);
    PowModBase(Pow(a, s), k, p);
    PowModBase(Pow(n, s), k, p);
    ModMul(Pow(a, (s + 1) / 2), Pow(a, (s + 1) / 2), p);
    PowTwice(a, (s + 1) / 2);
    ModMul(a, Pow(a, s), p);
  }

  /** When p = 3 mod 4 a single power is the root. */
  lemma RootBySinglePower(a: nat, p: int)
    requires 2 <= p && p % 4 == 3 && LegendreSymbol(a, p) == 1
    ensures IsRoot(PowMod(a, (p + 1) / 4, p), a, p)
  {
    var q := (p + 1) / 4;
    ModMul(Pow(a, q), Pow(a, q), p);
    PowTwice(a, q);
    assert 2 * q == 1 + (p - 1) / 2;
    ModMul(a, Pow(a, (p - 1) / 2), p);
    assert a * 1 == a;
  }

  lemma DivisibleHasZeroRoot(a: int, p: int)
    requires 0 < p && a % p == 0
    ensures IsRoot(0, a, p)
  {
    ModSmall(0, p);
  }

  lemma SquareStep(b: int, i: nat, p: int)
    requires 0 < p
    ensures PowMod(PowMod(b, TwoTo(i), p), 2, p) == PowMod(b, TwoTo(i + 1), p)
  {
    PowModBase(Pow(b, TwoTo(i)), 2, p);
    PowMul(b, TwoTo(i), 2);
  }

  // ---------------------------------------------------------------- the loops

  /** Partition p - 1 into an odd part and a power of two. */
  method OddPart(p: int) returns (s: nat, e: nat)
    requires 2 <= p && p % 2 == 1
    ensures s % 2 == 1 && 1 <= e && s * TwoTo(e) == p - 1
  {
    s, e := p - 1, 0;
    while s % 2 == 0
      invariant 1 <= s && s * TwoTo(e) == p - 1
      invariant e == 0 ==> s == p - 1
      decreases s
    {
      assert s * TwoTo(e) == (s / 2) * TwoTo(e + 1);
      s := s / 2;
      e := e + 1;
    }
  }

  /** The least n >= 2 whose symbol is -1. */
  method LeastNonResidue(p: int) returns (n: nat)
    requires IsPrime(p) && p != 2
    ensures 2 <= n < p && LegendreSymbol(n, p) == -1
    ensures forall k :: 2 <= k < n ==> LegendreSymbol(k, p) != -1
  {
    NonResidueExists(p);
    ghost var w :| 2 <= w < p && NonResidue(w, p);
    n := 2;
    while LegendreSymbol(n, p) != -1
      invariant 2 <= n <= w
      invariant forall k :: 2 <= k < n ==> LegendreSymbol(k, p) != -1
      decreases w - n
    {
      n := n + 1;
    }
  }

  /** The least m with b^(2^m) = 1, found by repeated squaring. */
  method OrderExponent(b: int, r: nat, p: int) returns (m: nat)
    requires 2 <= p && 0 <= b < p && 1 <= r && PowMod(b, TwoTo(r - 1), p) == 1
    ensures m < r && PowMod(b, TwoTo(m), p) == 1
    ensures forall j :: 0 <= j < m ==> PowMod(b, TwoTo(j), p) != 1
  {
    var t := b;
    m := 0;
    assert PowMod(b, TwoTo(0), p) == b by { assert Pow(b, 1) == b * Pow(b, 0); ModSmall(b, p); }
    for i := 0 to r
      invariant m == (if i == 0 then 0 else i - 1)
      invariant t == PowMod(b, TwoTo(i), p)
      invariant forall j :: 0 <= j < i ==> PowMod(b, TwoTo(j), p) != 1
    {
      m := i;
      if t == 1 { break; }
      SquareStep(b, i, p);
      t := PowMod(t, 2, p);
    }
  }

  /** The loop of Tonelli-Shanks: r falls at every pass, because the order of b falls. */
  method Refine(a: nat, x0: int, b0: int, g0: int, e: nat, p: int) returns (x: int)
    requires IsPrime(p) && p != 2 && Invariant(x0, a, b0, g0, e, p)
    ensures 0 <= x < p && IsRoot(x, a, p)
  {
    x := x0;
    var b, g, r := b0, g0, e;
    while true
      invariant Invariant(x, a, b, g, r, p)
      decreases r
    {
      var m := OrderExponent(b, r, p);
      if m == 0 {
        assert PowMod(b, TwoTo(0), p) == b by { assert Pow(b, 1) == b * Pow(b, 0); ModSmall(b, p); }
        assert a * 1 == a;
        return;
      }
      Step(x, a, b, g, r, m, p);
      var gs := PowMod(g, Pow(2, r - m - 1), p);
      g := (gs * gs) % p;
      x := (x * gs) % p;
      b := (b * g) % p;
      r := m;
    }
  }

  /** Tonelli-Shanks. For an odd prime the result is a root whenever one exists, and 0 otherwise;
      the modulus 2 falls into the first test, because its symbol is reported as -1. */
  method ModularSqrt(a: nat, p: int) returns (x: int)
    requires IsPrime(p)
    ensures 0 <= x < p
    ensures p != 2 && HasRoot(a, p) ==> IsRoot(x, a, p)
    ensures p != 2 && !HasRoot(a, p) ==> x == 0
    ensures p != 2 ==> (LegendreSymbol(a, p) == 1 <==> a % p != 0 && HasRoot(a, p))
    ensures p == 2 ==> x == 0
  {
    if p == 2 { assert PowMod(a, 0, p) == 1; } else { LegendreValues(a, p); }
    if LegendreSymbol(a, p) != 1 {
      if a % p == 0 { DivisibleHasZeroRoot(a, p); }
      return 0;
    } else if a == 0 {
      return 0;
    } else if p == 2 {
      return p;
    } else if p % 4 == 3 {
      RootBySinglePower(a, p);
      return PowMod(a, (p + 1) / 4, p);
    }

    Halves(p);
    var s, e := OddPart(p);
    var n := LeastNonResidue(p);
    Start(a, n, s, e, p);
    x := Refine(a, PowMod(a, (s + 1) / 2, p), PowMod(a, s, p), PowMod(n, s, p), e, p);
  }
}
