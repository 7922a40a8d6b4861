/** Numbers as digit sequences, most significant digit first. */
module Digits {
  import opened Arith

  predicate DigitsBelow(ds: seq<nat>, base: nat) { forall i :: 0 <= i < |ds| ==> ds[i] < base }

  /** Value of a digit sequence, most significant digit first. */
  function Value(ds: seq<nat>, base: nat): (n: nat)
  {
    if ds == [] then 0
    else
      MulMonotone(base, 0, Value(ds[..|ds| - 1], base));
      Value(ds[..|ds| - 1], base) * base + ds[|ds| - 1]
  }

  /** At least one digit; no leading zero except for 0 itself. */
  function DigitsOf(n: nat, base: nat): (ds: seq<nat>)
    requires 2 <= base
    ensures ds != [] && DigitsBelow(ds, base)
  {
    if n < base then [n]
    else
      Quotients(n, base);
      DigitsOf(n / base, base) + [n % base]
  }

  lemma Quotients(n: nat, base: nat)
    requires 2 <= base <= n
    ensures 0 < n / base < n && 0 <= n % base < base
  {
    DivBounds(n, base, 1);
    DivBounds(n, base, n);
    MulMonotone(n, 2, base);
  }

  lemma ValueSnoc(ds: seq<nat>, d: nat, base: nat)
    ensures Value(ds + [d], base) == Value(ds, base) * base + d
  {
    assert (ds + [d])[..|ds|] == ds;
  }

  lemma {:induction false} ValueOfDigits(n: nat, base: nat)
    requires 2 <= base
    ensures Value(DigitsOf(n, base), base) == n
    ensures 0 < n ==> DigitsOf(n, base)[0] != 0
  {
    if n < base {
      assert [n][..0] == [];
      assert Value([], base) * base == 0;
    } else {
      Quotients(n, base);
      ValueOfDigits(n / base, base);
      ValueSnoc(DigitsOf(n / base, base), n % base, base);
      DivMod(n, base);
    }
  }

  lemma {:induction false} ValuePositive(ds: seq<nat>, base: nat)
    requires 2 <= base && ds != [] && ds[0] != 0
    ensures 0 < Value(ds, base)
  {
    if |ds| > 1 {
      ValuePositive(ds[..|ds| - 1], base);
      MulMonotone(base, 1, Value(ds[..|ds| - 1], base));
    }
  }

  /** A digit sequence without leading zero is the one its value is written with. */
  lemma {:induction false} DigitsOfValue(ds: seq<nat>, base: nat)
    requires 2 <= base && DigitsBelow(ds, base) && ds != [] && ds[0] != 0
    ensures DigitsOf(Value(ds, base), base) == ds
  {
    var (h, d) := (ds[..|ds| - 1], ds[|ds| - 1]);
    assert ds == h + [d];
    if h == [] {
      assert Value([], base) * base == 0;
    } else {
      DigitsOfValue(h, base);
      ValuePositive(h, base);
      var q := Value(h, base);
      MulMonotone(base, 1, q);
      DivModUnique(q * base + d, q, d, base);
    }
  }

  function PlainDigits(n: nat, base: nat): (ds: seq<nat>)
    requires 2 <= base
    ensures DigitsBelow(ds, base)
  {
    if n == 0 then [] else DigitsOf(n, base)
  }

  lemma PlainStep(n: nat, base: nat)
    requires 2 <= base && n != 0
    ensures 0 <= n / base < n && 0 <= n % base && PlainDigits(n, base) == PlainDigits(n / base, base) + [n % base]
  {
    if n < base { ModSmall(n, base); } else { Quotients(n, base); }
  }

  function Reversed(ds: seq<nat>): (r: seq<nat>)
    ensures |r| == |ds| && forall i :: 0 <= i < |ds| ==> r[i] == ds[|ds| - 1 - i]
  {
    seq(|ds|, i requires 0 <= i < |ds| => ds[|ds| - 1 - i])
  }

  lemma ReversedCons(x: nat, ds: seq<nat>)
    ensures Reversed([x] + ds) == Reversed(ds) + [x]
  {}

  lemma ReversedSnoc(ds: seq<nat>, x: nat)
    ensures Reversed(ds + [x]) == [x] + Reversed(ds)
  {}
}
