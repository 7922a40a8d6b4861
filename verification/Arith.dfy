/** Integer facts shared by the other modules: powers and Euclidean division. */
module Arith {

  function Pow(b: int, e: nat): int {
    if e == 0 then 1 else b * Pow(b, e - 1)
  }

  function Max(a: int, b: int): int { if a < b then b else a }

  function Min(a: int, b: int): int { if a < b then a else b }

  ghost function Pick<T>(s: set<T>): (x: T)
    requires s != {}
    ensures x in s
  {
    var x :| x in s; x
  }

  lemma {:induction false} PowAdd(b: int, e: nat, f: nat)
    ensures Pow(b, e + f) == Pow(b, e) * Pow(b, f)
  {
    if e != 0 {
      PowAdd(b, e - 1, f);
      assert Pow(b, e + f) == b * (Pow(b, e - 1) * Pow(b, f));
    }
  }

  lemma {:induction false} PowMul(b: int, e: nat, f: nat)
    ensures 0 <= e * f && Pow(b, e * f) == Pow(Pow(b, e), f)
  {
    if f != 0 {
      PowMul(b, e, f - 1);
      assert e * f == e + e * (f - 1);
      PowAdd(b, e, e * (f - 1));
    }
  }

  lemma MulSwap(a: int, b: int, x: int, y: int)
    ensures (a * b) * (x * y) == (a * x) * (b * y)
  {
    var z := b * (x * y);
    assert z == x * (b * y);
    assert (a * b) * (x * y) == a * z;
  }

  lemma {:induction false} PowDistributes(a: int, b: int, e: nat)
    ensures Pow(a * b, e) == Pow(a, e) * Pow(b, e)
  {
    if e != 0 {
      PowDistributes(a, b, e - 1);
      MulSwap(a, b, Pow(a, e - 1), Pow(b, e - 1));
    }
  }

  lemma {:induction false} PowPositive(b: nat, e: nat)
    requires 0 < b
    ensures 0 < Pow(b, e)
  {
    if e != 0 { PowPositive(b, e - 1); }
  }

  lemma {:induction false} PowMonotone(b: nat, e: nat, f: nat)
    requires 0 < b && e <= f
    ensures 0 < Pow(b, e) <= Pow(b, f)
  {
    PowPositive(b, e);
    if e < f { PowMonotone(b, e, f - 1); }
  }

  lemma MulMonotone(a: int, x: int, y: int)
    requires 0 <= a && x <= y
    ensures a * x <= a * y
  {}

  lemma MulCancel(a: int, b: int, w: int)
    requires 0 < w && a * w == b * w
    ensures a == b
  {
    if a < b { MulMonotone(w, a + 1, b); }
    if b < a { MulMonotone(w, b + 1, a); }
  }

  /** Quotient and remainder are determined by the division equation. */
  lemma DivModUnique(a: int, q: int, r: int, p: int)
    requires 0 < p && a == q * p + r && 0 <= r < p
    ensures a / p == q && a % p == r
  {
    var d := a / p - q;
    assert d * p == r - a % p by {
      assert a == (a / p) * p + a % p;
      assert d * p == (a / p) * p - q * p;
    }
    if d >= 1 { MulMonotone(p, 1, d); }
    if d <= -1 { MulMonotone(p, d, -1); }
  }

  lemma ModShift(a: int, k: int, p: int)
    requires 0 < p
    ensures (a + k * p) % p == a % p
    ensures (a + k * p) / p == a / p + k
  {
    var q := a / p;
    assert a + k * p == (q + k) * p + a % p;
    DivModUnique(a + k * p, q + k, a % p, p);
  }

  lemma ModSmall(a: int, p: int)
    requires 0 <= a < p
    ensures a % p == a && a / p == 0
  {
    DivModUnique(a, 0, a, p);
  }

  /** The division equation as a fact about products, for callers that multiply it through. */
  lemma DivMod(a: int, p: int)
    requires 0 < p
    ensures a == (a / p) * p + a % p && 0 <= a % p < p
  {}

  lemma DivBounds(a: int, p: int, q: int)
    requires 0 < p
    ensures a / p >= q <==> a >= q * p
    ensures a / p < q <==> a < q * p
  {
    var d := a / p;
    if d >= q { MulMonotone(p, q, d); } else { MulMonotone(p, d + 1, q); }
  }

  lemma DivMonotone(a: int, b: int, p: int)
    requires 0 < p && a <= b
    ensures a / p <= b / p
  {
    DivBounds(b, p, a / p);
  }

  lemma DivDiv(a: int, p: int, q: int)
    requires 0 < p && 0 < q
    ensures 0 < p * q && (a / p) / q == a / (p * q)
  {
    var u := a / p;
    var v := u / q;
    var r := (u % q) * p + a % p;
    assert a == v * (p * q) + r by {
      assert a == (v * q + u % q) * p + a % p;
    }
    assert 0 <= r < p * q by {
      MulMonotone(p, 0, u % q);
      MulMonotone(p, u % q, q - 1);
    }
    DivModUnique(a, v, r, p * q);
  }

  /** Number of binary digits. */
  function BitLength(n: nat): nat {
    if n == 0 then 0 else 1 + BitLength(n / 2)
  }

  lemma {:induction false} BitLengthBounds(n: nat)
    requires 0 < n
    ensures 0 < BitLength(n) && Pow(2, BitLength(n) - 1) <= n < Pow(2, BitLength(n))
  {
    if n > 1 { BitLengthBounds(n / 2); } else { assert BitLength(0) == 0; }
  }

  lemma {:induction false} BitLengthMonotone(m: nat, n: nat)
    requires m <= n
    ensures BitLength(m) <= BitLength(n)
    decreases n
  {
    if m != 0 { BitLengthMonotone(m / 2, n / 2); }
  }
}
