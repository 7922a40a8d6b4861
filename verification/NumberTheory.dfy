/** The facts about a prime modulus that Tonelli-Shanks rests on: Euclid's lemma, Fermat's
    little theorem, the two values of Euler's criterion, and the existence of a non-residue. */
module NumberTheory {
  import opened Arith

  ghost predicate Divides(d: int, a: int)
    requires d != 0
  {
    a % d == 0
  }

  ghost predicate IsPrime(p: int) {
    2 <= p && forall d :: 2 <= d < p ==> !Divides(d, p)
  }

  /** `pow(b, e, p)`. */
  function PowMod(b: int, e: nat, p: int): int
    requires 0 < p
  {
    Pow(b, e) % p
  }

  // ---------------------------------------------------------------- congruences

  lemma ModMul(a: int, b: int, p: int)
    requires 0 < p
    ensures (a * b) % p == ((a % p) * b) % p == (a * (b % p)) % p == ((a % p) * (b % p)) % p
  {
    assert a * b == (a % p) * b + ((a / p) * b) * p;
    ModShift((a % p) * b, (a / p) * b, p);
    assert a * b == a * (b % p) + (a * (b / p)) * p;
    ModShift(a * (b % p), a * (b / p), p);
    var c := a % p;
    assert c * b == c * (b % p) + (c * (b / p)) * p;
    ModShift(c * (b % p), c * (b / p), p);
  }

  lemma ModSub(a: int, b: int, p: int)
    requires 0 < p
    ensures (a - b) % p == 0 <==> a % p == b % p
  {
    var k := a / p - b / p;
    assert a - b == (a % p - b % p) + k * p by {
      DivMod(a, p); DivMod(b, p);
      assert k * p == (a / p) * p - (b / p) * p;
    }
    ModShift(a % p - b % p, k, p);
    var d := a % p - b % p;
    if d >= 0 { ModSmall(d, p); } else { DivModUnique(d, -1, d + p, p); }
  }

  lemma {:induction false} PowModBase(b: int, e: nat, p: int)
    requires 0 < p
    ensures PowMod(b % p, e, p) == PowMod(b, e, p)
  {
    if e != 0 {
      PowModBase(b, e - 1, p);
      ModMul(b % p, Pow(b % p, e - 1), p);
      ModMul(b % p, Pow(b, e - 1), p);
      ModMul(b, Pow(b, e - 1), p);
      assert (b % p) % p == b % p;
    }
  }

  /** Bases that agree mod p have powers that agree mod p. */
  lemma PowModCongruent(b: int, c: int, e: nat, p: int)
    requires 0 < p && b % p == c % p
    ensures PowMod(b, e, p) == PowMod(c, e, p)
  {
    PowModBase(b, e, p);
    PowModBase(c, e, p);
  }

  lemma {:induction false} PowOne(e: nat)
    ensures Pow(1, e) == 1
  {
    if e != 0 { PowOne(e - 1); }
  }

  // ---------------------------------------------------------------- Euclid's lemma

  lemma {:induction false} EuclidSmall(a: int, b: int, p: int)
    requires IsPrime(p) && 0 < a < p && (a * b) % p == 0
    ensures b % p == 0
    decreases a
  {
    if a != 1 {
      assert !Divides(a, p);
      var q, r := p / a, p % a;
      assert r * b == b * p + (-q) * (a * b) by {
        assert p == q * a + r;
        assert p * b == q * (a * b) + r * b;
      }
      DivMod(a * b, p);
      assert r * b == 0 + (b - q * ((a * b) / p)) * p;
      ModShift(0, b - q * ((a * b) / p), p);
      EuclidSmall(r, b, p);
    }
  }

  lemma Euclid(a: int, b: int, p: int)
    requires IsPrime(p) && (a * b) % p == 0
    ensures a % p == 0 || b % p == 0
  {
    ModMul(a, b, p);
    if a % p != 0 { EuclidSmall(a % p, b, p); }
  }

  lemma {:induction false} PowNonzero(a: int, e: nat, p: int)
    requires IsPrime(p) && a % p != 0
    ensures PowMod(a, e, p) != 0
  {
    if e != 0 {
      PowNonzero(a, e - 1, p);
      if PowMod(a, e, p) == 0 { Euclid(a, Pow(a, e - 1), p); }
    }
  }

  /** A square root of 1 is 1 or -1. */
  lemma RootOfOne(y: int, p: int)
    requires IsPrime(p) && (y * y) % p == 1
    ensures y % p == 1 || y % p == p - 1
  {
    assert (y - 1) * (y + 1) == y * y - 1;
    ModSmall(1, p);
    ModSub(y * y, 1, p);
    Euclid(y - 1, y + 1, p);
    ModSub(y, 1, p);
    ModSub(y, -1, p);
    DivModUnique(-1, -1, p - 1, p);
  }

  // ---------------------------------------------------------------- Fermat's little theorem

  ghost function Product(s: set<int>): int {
    if s == {} then 1 else Pick(s) * Product(s - {Pick(s)})
  }

  lemma Exchange(x: int, y: int, r: int)
    ensures x * (y * r) == y * (x * r)
  {}

  lemma {:induction false} ProductSplit(s: set<int>, y: int)
    requires y in s
    ensures Product(s) == y * Product(s - {y})
  {
    var x := Pick(s);
    if x != y {
      ProductSplit(s - {x}, y);
      ProductSplit(s - {y}, x);
      assert s - {x} - {y} == s - {y} - {x};
      Exchange(x, y, Product(s - {x} - {y}));
    }
  }

  lemma {:induction false} ProductNonzero(s: set<int>, p: int)
    requires IsPrime(p) && forall x :: x in s ==> x % p != 0
    ensures Product(s) % p != 0
  {
    if s == {} {
      ModSmall(1, p);
    } else {
      var x := Pick(s);
      ProductSplit(s, x);
      ProductNonzero(s - {x}, p);
      if Product(s) % p == 0 { Euclid(x, Product(s - {x}), p); }
    }
  }

  ghost function Scaled(s: set<int>, a: int, p: int): set<int>
    requires 0 < p
  {
    set x | x in s :: (a * x) % p
  }

  lemma ScaledInjective(a: int, x: int, y: int, p: int)
    requires IsPrime(p) && a % p != 0 && 0 <= x < p && 0 <= y < p && (a * x) % p == (a * y) % p
    ensures x == y
  {
    ModSub(a * x, a * y, p);
    assert a * x - a * y == a * (x - y);
    Euclid(a, x - y, p);
    ModSub(x, y, p);
    ModSmall(x, p);
    ModSmall(y, p);
  }

  lemma ProductStep(a: int, x: int, u: int, v: int, w: int, p: int)
    requires 0 < p && w % p == (u * v) % p
    ensures (((a * x) % p) * w) % p == ((a * u) * (x * v)) % p
  {
    ModMul(a * x, w, p);
    ModMul(a * x, u * v, p);
    assert a * x * (u * v) == a * u * (x * v);
  }

  /** Scaling takes each member to a member of its own. */
  lemma ScaledMember(s: set<int>, x: int, a: int, p: int)
    requires IsPrime(p) && a % p != 0 && x in s && forall z :: z in s ==> 0 < z < p
    ensures var (y, t') := ((a * x) % p, Scaled(s - {x}, a, p));
            y !in t' && Scaled(s, a, p) == t' + {y} && Scaled(s, a, p) - {y} == t'
  {
    var s', y := s - {x}, (a * x) % p;
    var t' := Scaled(s', a, p);
    if y in t' {
      var z :| z in s' && (a * z) % p == y;
      ScaledInjective(a, x, z, p);
    }
    assert s == s' + {x};
  }

  lemma {:induction false} ScaledProduct(s: set<int>, a: int, p: int)
    requires IsPrime(p) && a % p != 0 && forall x :: x in s ==> 0 < x < p
    ensures |Scaled(s, a, p)| == |s|
    ensures Product(Scaled(s, a, p)) % p == (Pow(a, |s|) * Product(s)) % p
  {
    if s != {} {
      var x := Pick(s);
      var s', y := s - {x}, (a * x) % p;
      var t, t' := Scaled(s, a, p), Scaled(s', a, p);
      ScaledProduct(s', a, p);
      ScaledMember(s, x, a, p);
      ProductSplit(t, y);
      ProductSplit(s, x);
      ProductStep(a, x, Pow(a, |s'|), Product(s'), Product(t'), p);
    }
  }

  ghost function Units(p: int): (s: set<int>)
    requires 1 <= p
    ensures |s| == p - 1 && forall x :: x in s <==> 0 < x < p
  {
    if p == 1 then {} else Units(p - 1) + {p - 1}
  }

  lemma SameSizeSubset(s: set<int>, t: set<int>)
    requires s <= t && |s| == |t|
    ensures s == t
  {
    assert |t - s| == |t| - |s|;
  }

  lemma UnitsScaleToUnits(a: int, p: int)
    requires IsPrime(p) && a % p != 0
    ensures Scaled(Units(p), a, p) <= Units(p)
  {
    forall x | x in Units(p) ensures (a * x) % p in Units(p) {
      ModSmall(x, p);
      if (a * x) % p == 0 { Euclid(a, x, p); }
    }
  }

  /** A factor that fixes a unit mod p is 1. */
  lemma Cancel(u: int, v: int, p: int)
    requires IsPrime(p) && v % p != 0 && v % p == (u * v) % p
    ensures u % p == 1
  {
    ModSub(u * v, v, p);
    assert u * v - v == (u - 1) * v;
    Euclid(u - 1, v, p);
    ModSub(u, 1, p);
    ModSmall(1, p);
  }

  /** A set of units closed under multiplication by a forces a to have order dividing its size. */
  lemma ClosedSetOrder(s: set<int>, a: int, p: int)
    requires IsPrime(p) && a % p != 0 && (forall x :: x in s ==> 0 < x < p)
    requires Scaled(s, a, p) <= s
    ensures PowMod(a, |s|, p) == 1
  {
    forall x | x in s ensures x % p != 0 { ModSmall(x, p); }
    ProductNonzero(s, p);
    ScaledProduct(s, a, p);
    SameSizeSubset(Scaled(s, a, p), s);
    Cancel(Pow(a, |s|), Product(s), p);
  }

  lemma Fermat(a: int, p: int)
    requires IsPrime(p) && a % p != 0
    ensures PowMod(a, p - 1, p) == 1
  {
    UnitsScaleToUnits(a, p);
    ClosedSetOrder(Units(p), a, p);
  }

  lemma Halves(p: int)
    requires IsPrime(p) && p != 2
    ensures p % 2 == 1 && p - 1 == 2 * ((p - 1) / 2) && 1 <= (p - 1) / 2
  {
    assert !Divides(2, p);
  }

  /** Euler's criterion takes only the values 1 and -1 away from 0. */
  lemma EulerValues(a: int, p: int)
    requires IsPrime(p) && p != 2 && a % p != 0
    ensures PowMod(a, (p - 1) / 2, p) == 1 || PowMod(a, (p - 1) / 2, p) == p - 1
  {
    Halves(p);
    var h := (p - 1) / 2;
    Fermat(a, p);
    PowAdd(a, h, h);
    RootOfOne(Pow(a, h), p);
  }

  /** A non-zero square has Euler value 1. */
  lemma SquareHasEulerOne(x: int, a: int, p: int)
    requires IsPrime(p) && p != 2 && a % p != 0 && (x * x) % p == a % p
    ensures PowMod(a, (p - 1) / 2, p) == 1
  {
    Halves(p);
    assert x % p != 0 by {
      ModMul(x, x, p);
      ModSmall(0, p);

    }
    SquarePower(x, (p - 1) / 2);
    Fermat(x, p);
    PowModCongruent(x * x, a, (p - 1) / 2, p);
  }

  lemma SquarePower(x: int, h: nat)
    ensures Pow(x * x, h) == Pow(x, 2 * h)
  {
    PowAdd(x, h, h);
    PowDistributes(x, x, h);
  }

  // ---------------------------------------------------------------- polynomials and their roots

  /** Value at x of the polynomial with coefficients c, constant term first. */
  ghost function Eval(c: seq<int>, x: int): int {
    if c == [] then 0 else c[0] + x * Eval(c[1..], x)
  }

  /** Quotient of c by (X - r). */
  ghost function Quotient(c: seq<int>, r: int): (q: seq<int>)
    requires c != []
    ensures |q| == |c| - 1
    ensures q != [] ==> q[|q| - 1] == c[|c| - 1]
  {
    if |c| == 1 then [] else var q' := Quotient(c[1..], r); assert q' == [] ==> |c| == 2; [Eval(c[1..], r)] + q'
  }

  lemma {:induction false} Factor(c: seq<int>, r: int, x: int)
    requires c != []
    ensures Eval(c, x) - Eval(c, r) == (x - r) * Eval(Quotient(c, r), x)
  {
    if |c| == 1 {
      assert c[1..] == [];
    } else {
      var d, q := c[1..], Quotient(c[1..], r);
      Factor(d, r, x);
      assert Quotient(c, r)[1..] == q;
      var (dx, dr, qx) := (Eval(d, x), Eval(d, r), Eval(q, x));
      assert Eval(Quotient(c, r), x) == dr + x * qx;
      FactorStep(x, r, dx, dr, qx);
    }
  }

  lemma FactorStep(x: int, r: int, dx: int, dr: int, qx: int)
    requires dx - dr == (x - r) * qx
    ensures x * dx - r * dr == (x - r) * (dr + x * qx)
  {
    assert x * dx - r * dr == (x - r) * dr + x * (dx - dr);
    assert x * ((x - r) * qx) == (x - r) * (x * qx);
    assert (x - r) * dr + (x - r) * (x * qx) == (x - r) * (dr + x * qx);
  }

  lemma EvalConstant(c: seq<int>, x: int)
    requires |c| == 1
    ensures Eval(c, x) == c[0]
  {
    assert c[1..] == [];
    assert Eval(c, x) == c[0] + x * Eval([], x);
  }

  lemma OtherRoot(c: seq<int>, r: int, y: int, p: int)
    requires IsPrime(p) && c != [] && 0 <= r < p && 0 <= y < p && y != r
    requires Eval(c, r) % p == 0 && Eval(c, y) % p == 0
    ensures Eval(Quotient(c, r), y) % p == 0
  {
    Factor(c, r, y);
    ModSub(Eval(c, y), Eval(c, r), p);
    Euclid(y - r, Eval(Quotient(c, r), y), p);
    ModSub(y, r, p);
    ModSmall(y, p);
    ModSmall(r, p);
  }

  /** Lagrange: a polynomial with invertible leading coefficient has fewer roots than coefficients. */
  lemma {:induction false} FewRoots(c: seq<int>, roots: seq<int>, p: int)
    requires IsPrime(p) && c != [] && c[|c| - 1] % p != 0
    requires forall i :: 0 <= i < |roots| ==> 0 <= roots[i] < p && Eval(c, roots[i]) % p == 0
    requires forall i, j :: 0 <= i < j < |roots| ==> roots[i] != roots[j]
    ensures |roots| < |c|
    decreases |c|
  {
    if roots != [] {
      var r := roots[0];
      if |c| == 1 { EvalConstant(c, r); }
      var q, rest := Quotient(c, r), roots[1..];
      forall i | 0 <= i < |rest| ensures Eval(q, rest[i]) % p == 0 {
        assert rest[i] == roots[i + 1];
        OtherRoot(c, r, rest[i], p);
      }
      FewRoots(q, rest, p);
    }
  }

  ghost function Monomial(d: nat): (c: seq<int>)
    ensures |c| == d + 1 && c[d] == 1
  {
    if d == 0 then [1] else [0] + Monomial(d - 1)
  }

  lemma {:induction false} MonomialEval(d: nat, x: int)
    ensures Eval(Monomial(d), x) == Pow(x, d)
  {
    if d == 0 {
      assert Monomial(0)[1..] == [];
      assert Eval(Monomial(0), x) == 1 + x * 0;
    } else {
      MonomialEval(d - 1, x);
      assert Monomial(d)[1..] == Monomial(d - 1);
    }
  }

  ghost predicate NonResidue(n: int, p: int) {
    3 <= p && PowMod(n, (p - 1) / 2, p) == p - 1
  }

  /** The coefficients of X^h - 1. */
  ghost function EulerPolynomial(h: nat): (c: seq<int>)
    requires 1 <= h
    ensures |c| == h + 1 && c[h] == 1
  {
    Monomial(h)[0 := -1]
  }

  lemma EulerPolynomialRoot(x: int, p: int)
    requires IsPrime(p) && p != 2 && 1 <= x < p && (x == 1 || !NonResidue(x, p))
    ensures 1 <= (p - 1) / 2 && Eval(EulerPolynomial((p - 1) / 2), x) % p == 0
  {
    Halves(p);
    var h := (p - 1) / 2;
    var c, m := EulerPolynomial(h), Monomial(h);
    assert c[1..] == m[1..] && m[0] == 0;
    MonomialEval(h, x);
    ModSmall(x, p);
    ModSmall(1, p);
    if x == 1 { PowOne(h); } else { EulerValues(x, p); }
    ModSub(Pow(x, h), 1, p);
  }

  /** Not every unit has Euler value 1, since X^((p-1)/2) - 1 has at most (p-1)/2 roots. */
  lemma NonResidueExists(p: int)
    requires IsPrime(p) && p != 2
    ensures exists n :: 2 <= n < p && NonResidue(n, p)
  {
    Halves(p);
    ModSmall(1, p);
    if forall n :: 2 <= n < p ==> !NonResidue(n, p) {
      var roots := seq(p - 1, i => i + 1);
      forall i | 0 <= i < |roots| ensures Eval(EulerPolynomial((p - 1) / 2), roots[i]) % p == 0 {
        EulerPolynomialRoot(roots[i], p);
      }
      FewRoots(EulerPolynomial((p - 1) / 2), roots, p);
    }
  }
}
