/** The 40-bit CashAddr checksum (electronfittexxcoin/cashaddr.py:25-58). The register is the
    sequence of its 40 bits, most significant first; symbols are numbers below 32. */
module CashAddrChecksum {
  import opened Arith
  import opened BitStrings

  function Generator(k: nat): nat
    requires k < 5
  {
    if k == 0 then 0x98f2bc8e61 else if k == 1 then 0x79b76d99e2 else if k == 2 then 0xf33e5fb3c4
    else if k == 3 then 0xae2eabe2a8 else 0x1e4f43e470
  }

  /** r after the conditional xors for bits 0 .. k-1 of c0. */
  function Mix(r: Bits, c0: Bits, k: nat): (r': Bits)
    requires |r| == 40 && |c0| == 5 && k <= 5
    ensures |r'| == 40
  {
    if k == 0 then r
    else if c0[5 - k] then Xor(Mix(r, c0, k - 1), BitsOf(Generator(k - 1), 40))
    else Mix(r, c0, k - 1)
  }

  /** Five bits leave at the top, the bits d enter at the bottom. */
  function Step(c: Bits, d: Bits): (r: Bits)
    requires |c| == 40 && |d| == 5
    ensures |r| == 40
  {
    Mix(c[5..] + d, c[..5], 5)
  }

  /** The register after all symbols have moved in. */
  function Run(c: Bits, values: seq<nat>): (r: Bits)
    requires |c| == 40
    ensures |r| == 40
    decreases |values|
  {
    if values == [] then c else Run(Step(c, BitsOf(values[0], 5)), values[1..])
  }

  function One(): Bits { BitsOf(1, 40) }

  function Polymod(values: seq<nat>): (r: Bits)
    ensures |r| == 40
  {
    Xor(Run(One(), values), One())
  }

  /** The five conditional xors of the loop body. */
  method MixIn(base: Bits, c0: Bits) returns (c: Bits)
    requires |base| == 40 && |c0| == 5
    ensures c == Mix(base, c0, 5)
  {
    c := base;
    if c0[4] { c := Xor(c, BitsOf(0x98f2bc8e61, 40)); }
    assert c == Mix(base, c0, 1);
    if c0[3] { c := Xor(c, BitsOf(0x79b76d99e2, 40)); }
    assert c == Mix(base, c0, 2);
    if c0[2] { c := Xor(c, BitsOf(0xf33e5fb3c4, 40)); }
    assert c == Mix(base, c0, 3);
    if c0[1] { c := Xor(c, BitsOf(0xae2eabe2a8, 40)); }
    assert c == Mix(base, c0, 4);
    if c0[0] { c := Xor(c, BitsOf(0x1e4f43e470, 40)); }
  }

  /** The loop over the symbols. */
  method ComputePolymod(values: seq<nat>) returns (checksum: Bits)
    ensures checksum == Polymod(values)
  {
    var c := One();
    for i := 0 to |values|
      invariant |c| == 40
      invariant Run(One(), values) == Run(c, values[i..])
    {
      assert values[i..][1..] == values[i + 1..];
      c := MixIn(c[5..] + BitsOf(values[i], 5), c[..5]);
    }
    checksum := Xor(c, One());
  }

  // ---------------------------------------------------------------- what the constants are

  /** Twice an element of the field of 32 elements, in which x^5 = x^3 + 1. */
  function Twice(s: nat): nat {
    if s < 16 then 2 * s
    else
      var even := 2 * (s - 16);
      even + 1 + (if even / 8 % 2 == 0 then 8 else -8)
  }

  /** Eight symbols, packed from the highest. */
  function Packed(s: seq<nat>): nat
    requires |s| == 8
  {
    (((((((s[0] * 32 + s[1]) * 32 + s[2]) * 32 + s[3]) * 32 + s[4]) * 32 + s[5]) * 32 + s[6]) * 32) + s[7]
  }

  function TwiceAll(s: seq<nat>): (r: seq<nat>)
    requires |s| == 8
    ensures |r| == 8
  {
    [Twice(s[0]), Twice(s[1]), Twice(s[2]), Twice(s[3]), Twice(s[4]), Twice(s[5]), Twice(s[6]), Twice(s[7])]
  }

  /** x^8 reduced by the code's polynomial, times 2^k, over the field of 32 elements. */
  function Reduction(k: nat): (r: seq<nat>)
    ensures |r| == 8
  {
    if k == 0 then [19, 3, 25, 11, 25, 3, 19, 1] else TwiceAll(Reduction(k - 1))
  }

  /** The five constants are the reductions of x^8 and of its multiples by 2, 4, 8 and 16. */
  lemma GeneratorsReduce(k: nat)
    requires k < 5
    ensures Generator(k) == Packed(Reduction(k))
  {
    LowReductions();
    HighReductions();
  }

  lemma LowReductions()
    ensures Reduction(1) == [15, 6, 27, 22, 27, 6, 15, 2]
    ensures Reduction(2) == [30, 12, 31, 5, 31, 12, 30, 4]
  {}

  lemma HighReductions()
    ensures Reduction(3) == [21, 24, 23, 10, 23, 24, 21, 8]
    ensures Reduction(4) == [3, 25, 7, 20, 7, 25, 3, 16]
  {
    LowReductions();
  }

  /** Up to seven symbols stand in the register unchanged, behind a one that makes leading zeros count. */
  lemma {:induction false} ShortRun(values: seq<nat>)
    requires |values| <= 7
    ensures Run(One(), values) == Zeros(39 - 5 * |values|) + [true] + Flat(values, 5)
  {
    if values == [] {
      OneBits();
    } else {
      var (most, d) := (values[..|values| - 1], values[|values| - 1]);
      ShortRun(most);
      assert values == most + [d];
      OneMoreSymbol(One(), most, d, 34 - 5 * |most|);
    }
  }

  lemma OneMoreSymbol(start: Bits, most: seq<nat>, d: nat, n: nat)
    requires |start| == 40 && n + 5 * |most| == 34 && Run(start, most) == Zeros(n + 5) + [true] + Flat(most, 5)
    ensures Run(start, most + [d]) == Zeros(n) + [true] + Flat(most + [d], 5)
  {
    TimesIs(|most|, 5);
    RunSnoc(start, most, d);
    ShiftedIn(n, Flat(most, 5), BitsOf(d, 5));
    FlatSnoc(most, d, 5);
  }

  lemma RunSnoc(c: Bits, most: seq<nat>, d: nat)
    requires |c| == 40
    ensures Run(c, most + [d]) == Step(Run(c, most), BitsOf(d, 5))
  {
    RunAppend(c, most, [d]);
    RunOne(Run(c, most), d);
  }

  lemma RunOne(c: Bits, d: nat)
    requires |c| == 40
    ensures Run(c, [d]) == Step(c, BitsOf(d, 5))
  {
    assert [d][1..] == [];
  }

  /** Five zeros leave at the top, and nothing is mixed in. */
  lemma ShiftedIn(n: nat, tail: Bits, d: Bits)
    requires n + |tail| == 34 && |d| == 5
    ensures Step(Zeros(n + 5) + [true] + tail, d) == Zeros(n) + [true] + (tail + d)
  {
    var c := Zeros(n + 5) + [true] + tail;
    assert c[..5] == Zeros(5);
    assert c[5..] == Zeros(n) + [true] + tail;
    NothingMixed(c[5..] + d, 5);
  }

  lemma {:induction false} NothingMixed(r: Bits, k: nat)
    requires |r| == 40 && k <= 5
    ensures Mix(r, Zeros(5), k) == r
  {
    if k != 0 { NothingMixed(r, k - 1); }
  }

  lemma {:induction false} ZeroBits(w: nat)
    ensures BitsOf(0, w) == Zeros(w)
  {
    if w != 0 { ZeroBits(w - 1); }
  }

  lemma OneBits()
    ensures One() == Zeros(39) + [true]
  {
    ZeroBits(39);
  }

  // ---------------------------------------------------------------- the step is injective

  lemma GeneratorResidue(k: nat)
    requires k < 5
    ensures Generator(k) < 0x1_00_0000_0000
    ensures Generator(k) % 32 == (if k == 0 then 1 else if k == 1 then 2 else if k == 2 then 4 else if k == 3 then 8 else 16)
  {}

  /** The five low bits of the five generators form the identity matrix. */
  lemma GeneratorLowBits(k: nat)
    requires k < 5
    ensures BitsOf(Generator(k), 40)[35..] == Zeros(5)[4 - k := true]
  {
    var n := Generator(k);
    GeneratorResidue(k);
    TwoTo40();
    SplitLow(n, 40);
    FiveBits(n % 32);
  }

  lemma SplitLow(n: nat, w: nat)
    requires 5 <= w && n < Pow(2, w)
    ensures BitsOf(n, w)[w - 5..] == BitsOf(n % 32, 5)
  {
    assert Pow(2, 5) == 32;
    BitsOfSplit(n / 32, n % 32, w, 5);
  }

  lemma FiveBits(n: nat)
    ensures BitsOf(n, 5) == [n / 16 % 2 == 1, n / 8 % 2 == 1, n / 4 % 2 == 1, n / 2 % 2 == 1, n % 2 == 1]
  {
    var (a, b, c, d) := (n / 2, n / 4, n / 8, n / 16);
    assert a / 2 == b && b / 2 == c && c / 2 == d;
    BitsSnoc(d, 0);
    BitsSnoc(c, 1);
    BitsSnoc(b, 2);
    BitsSnoc(a, 3);
    BitsSnoc(n, 4);
  }

  lemma BitsSnoc(n: nat, w: nat)
    ensures BitsOf(n, w + 1) == BitsOf(n / 2, w) + [n % 2 == 1]
  {}

  lemma TwoTo40()
    ensures Pow(2, 40) == 0x1_00_0000_0000
  {
    assert Pow(2, 10) == 1024;
    PowAdd(2, 10, 10);
    PowAdd(2, 20, 20);
  }

  function Low(r: Bits): (l: Bits)
    requires |r| == 40
    ensures |l| == 5
  {
    r[35..]
  }

  /** Mixing changes low bit 4 - j exactly when bit j of c0 is set. */
  lemma {:induction false} MixLowBits(r: Bits, c0: Bits, k: nat)
    requires |r| == 40 && |c0| == 5 && k <= 5
    ensures forall j :: 0 <= j < 5 ==> Low(Mix(r, c0, k))[j] == (Low(r)[j] != (j >= 5 - k && c0[j]))
  {
    if k != 0 {
      MixLowBits(r, c0, k - 1);
      GeneratorLowBits(k - 1);
      var g, m := BitsOf(Generator(k - 1), 40), Mix(r, c0, k - 1);
      forall j | 0 <= j < 5 ensures Low(Xor(m, g))[j] == (Low(m)[j] != (j == 5 - k)) {
        assert Low(Xor(m, g))[j] == (Low(m)[j] != Low(g)[j]);
      }
    }
  }

  /** The mixed-in word depends on c0 only. */
  lemma {:induction false} MixXor(r: Bits, e: Bits, c0: Bits, k: nat)
    requires |r| == 40 && |e| == 40 && |c0| == 5 && k <= 5
    ensures Mix(Xor(r, e), c0, k) == Xor(Mix(r, c0, k), e)
  {
    if k != 0 { MixXor(r, e, c0, k - 1); }
  }

  /** What is mixed in is linear in register and leading bits together. */
  lemma {:induction false} MixLinear(r: Bits, r': Bits, c0: Bits, c0': Bits, k: nat)
    requires |r| == |r'| == 40 && |c0| == |c0'| == 5 && k <= 5
    ensures Mix(Xor(r, r'), Xor(c0, c0'), k) == Xor(Mix(r, c0, k), Mix(r', c0', k))
  {
    if k != 0 {
      MixLinear(r, r', c0, c0', k - 1);
      XorTerms(Mix(r, c0, k - 1), Mix(r', c0', k - 1), BitsOf(Generator(k - 1), 40));
    }
  }

  lemma XorTerms(a: Bits, b: Bits, g: Bits)
    requires |a| == |b| == |g|
    ensures Xor(Xor(a, g), b) == Xor(Xor(a, b), g) == Xor(a, Xor(b, g))
    ensures Xor(Xor(a, g), Xor(b, g)) == Xor(a, b)
  {}

  /** One step of the register is linear over the field of two elements. */
  lemma StepLinear(a: Bits, b: Bits, d: Bits, e: Bits)
    requires |a| == |b| == 40 && |d| == |e| == 5
    ensures Step(Xor(a, b), Xor(d, e)) == Xor(Step(a, d), Step(b, e))
  {
    assert Xor(a, b)[5..] + Xor(d, e) == Xor(a[5..] + d, b[5..] + e);
    assert Xor(a, b)[..5] == Xor(a[..5], b[..5]);
    MixLinear(a[5..] + d, b[5..] + e, a[..5], b[..5], 5);
  }

  lemma XorCancel(a: Bits, b: Bits, e: Bits)
    requires |a| == |b| == |e| && Xor(a, e) == Xor(b, e)
    ensures a == b
  {
    forall i | 0 <= i < |a| ensures a[i] == b[i] { assert Xor(a, e)[i] == Xor(b, e)[i]; }
  }

  lemma MixInjective(r: Bits, r': Bits, c0: Bits)
    requires |r| == 40 && |r'| == 40 && |c0| == 5 && Mix(r, c0, 5) == Mix(r', c0, 5)
    ensures r == r'
  {
    MixXor(r, Xor(r, r'), c0, 5);
    assert Xor(r, Xor(r, r')) == r';
    forall i | 0 <= i < 40 ensures r[i] == r'[i] {
      assert Mix(r', c0, 5)[i] == (Mix(r, c0, 5)[i] != Xor(r, r')[i]);
    }
  }

  lemma StepInjective(a: Bits, b: Bits, d: Bits)
    requires |a| == 40 && |b| == 40 && |d| == 5 && Step(a, d) == Step(b, d)
    ensures a == b
  {
    MixLowBits(a[5..] + d, a[..5], 5);
    MixLowBits(b[5..] + d, b[..5], 5);
    assert a[..5] == b[..5] by {
      forall j | 0 <= j < 5 ensures a[..5][j] == b[..5][j] {
        assert Low(a[5..] + d)[j] == Low(b[5..] + d)[j] == d[j];
        assert Low(Step(a, d))[j] == Low(Step(b, d))[j];
      }
    }
    MixInjective(a[5..] + d, b[5..] + d, a[..5]);
    assert a == a[..5] + (a[5..] + d)[..35];
    assert b == b[..5] + (b[5..] + d)[..35];
  }

  lemma {:induction false} RunInjective(a: Bits, b: Bits, values: seq<nat>)
    requires |a| == 40 && |b| == 40 && Run(a, values) == Run(b, values)
    ensures a == b
    decreases |values|
  {
    if values != [] {
      var d := BitsOf(values[0], 5);
      RunInjective(Step(a, d), Step(b, d), values[1..]);
      StepInjective(a, b, d);
    }
  }

  lemma {:induction false} RunAppend(c: Bits, s: seq<nat>, t: seq<nat>)
    requires |c| == 40
    ensures Run(c, s + t) == Run(Run(c, s), t)
    decreases |s|
  {
    if s == [] {
      assert s + t == t;
    } else {
      assert (s + t)[1..] == s[1..] + t;
      RunAppend(Step(c, BitsOf(s[0], 5)), s[1..], t);
    }
  }

  // ---------------------------------------------------------------- eight symbols fill the register

  ghost function Nulls(n: nat): (s: seq<nat>)
    ensures |s| == n
  {
    seq(n, _ => 0)
  }

  lemma StepXor(a: Bits, e: Bits, d: Bits)
    requires |a| == 40 && |e| == 40 && |d| == 5 && e[..5] == Zeros(5)
    ensures Step(Xor(a, e), d) == Xor(Step(a, Zeros(5)), e[5..] + d)
  {
    assert Xor(a, e)[..5] == a[..5] by {
      forall i | 0 <= i < 5 ensures !e[i] { assert e[i] == e[..5][i]; }
    }
    assert Xor(a, e)[5..] + d == Xor(a[5..] + Zeros(5), e[5..] + d);
    MixXor(a[5..] + Zeros(5), e[5..] + d, a[..5], 5);
  }

  lemma FlatCons(x: seq<nat>, w: nat)
    requires x != []
    ensures Flat(x, w) == BitsOf(x[0], w) + Flat(x[1..], w)
  {
    assert x == [x[0]] + x[1..];
    FlatAppend([x[0]], x[1..], w);
    FlatOne(x[0], w);
  }

  ghost predicate TopClear(e: Bits, n: nat) {
    n <= |e| && forall i :: 0 <= i < n ==> !e[i]
  }

  lemma RunNulls(a: Bits, n: nat)
    requires |a| == 40
    ensures Run(a, Nulls(n + 1)) == Run(Step(a, Zeros(5)), Nulls(n))
  {
    ZerosValue(5);
    assert Nulls(n + 1)[1..] == Nulls(n);
  }

  lemma ShiftIn(e: Bits, d: Bits, f: Bits, n: nat)
    requires |d| == 5 <= n <= |e| && TopClear(e, n)
    ensures e[..5] == Zeros(5) && TopClear(e[5..] + d, n - 5)
    ensures (e[5..] + d)[n - 5..] + f == e[n..] + (d + f)
  {
    assert (e[5..] + d)[n - 5..] == e[n..] + d;
  }

  /** While the difference e keeps 5 |x| clear bits at the top, symbols x are just shifted into it. */
  lemma {:induction false} RunShift(a: Bits, e: Bits, x: seq<nat>, n: nat)
    requires |a| == 40 && |e| == 40 && n == Times(|x|, 5) && TopClear(e, n)
    ensures Run(Xor(a, e), x) == Xor(Run(a, Nulls(|x|)), e[n..] + Flat(x, 5))
    decreases |x|
  {
    if x == [] {
      assert e[0..] + [] == e;
    } else {
      var d, f, m := BitsOf(x[0], 5), Flat(x[1..], 5), |x| - 1;
      var a', e' := Step(a, Zeros(5)), e[5..] + d;
      assert |f| == Times(m, 5) == n - 5;
      ShiftIn(e, d, f, n);
      assert Run(Xor(a, e), x) == Run(Xor(a', e'), x[1..]) by { StepXor(a, e, d); }
      assert Flat(x, 5) == d + f by { FlatCons(x, 5); }
      assert Run(a, Nulls(|x|)) == Run(a', Nulls(m)) by { RunNulls(a, m); }
      RunShift(a', e', x[1..], n - 5);
    }
  }

  /** A run over at most 8 symbols: the symbols appear unchanged, xored onto what zeros would give. */
  lemma RunShort(a: Bits, x: seq<nat>, n: nat)
    requires |a| == 40 && n == Times(|x|, 5) <= 40
    ensures Run(a, x) == Xor(Run(a, Nulls(|x|)), Zeros(40 - n) + Flat(x, 5))
  {
    RunShift(a, Zeros(40), x, n);
    assert Xor(a, Zeros(40)) == a;
    assert Zeros(40)[n..] == Zeros(40 - n);
  }

  lemma ShortRunInjective(a: Bits, x: seq<nat>, y: seq<nat>)
    requires |a| == 40 && |x| == |y| <= 8 && Fits(x, 5) && Fits(y, 5) && Run(a, x) == Run(a, y)
    ensures x == y
  {
    var n := Times(|x|, 5);
    TimesIs(|x|, 5);
    RunShort(a, x, n);
    RunShort(a, y, n);
    PaddedXorCancel(Zeros(40 - n), Flat(x, 5), Flat(y, 5), Run(a, Nulls(|x|)));
    FlatInjective(x, y, 5);
  }

  lemma PaddedXorCancel(z: Bits, s: Bits, t: Bits, r: Bits)
    requires |s| == |t| && |r| == |z| + |s| && Xor(r, z + s) == Xor(r, z + t)
    ensures s == t
  {
    forall i | 0 <= i < |s| ensures s[i] == t[i] {
      assert Xor(r, z + s)[|z| + i] == Xor(r, z + t)[|z| + i];
    }
  }

  /** Two symbol sequences of equal length that differ, and differ only within positions
      i .. i+7, never have the same checksum; in particular not both are accepted. */
  lemma BurstDetected(u: seq<nat>, v: seq<nat>, i: nat)
    requires |u| == |v| && Fits(u, 5) && Fits(v, 5) && u != v
    requires forall k :: 0 <= k < |u| && !(i <= k < i + 8) ==> u[k] == v[k]
    ensures Polymod(u) != Polymod(v)
  {
    if Polymod(u) == Polymod(v) {
      XorCancel(Run(One(), u), Run(One(), v), One());
      var lo, hi := Min(i, |u|), Min(i + 8, |u|);
      SplitAt(u, lo, hi);
      SplitAt(v, lo, hi);
      assert u[..lo] == v[..lo] && u[hi..] == v[hi..];
      FitsSlice(u, lo, hi);
      FitsSlice(v, lo, hi);
      WindowsAgree(u[..lo], u[lo..hi], v[lo..hi], u[hi..]);
    }
  }

  lemma SplitAt(u: seq<nat>, lo: nat, hi: nat)
    requires lo <= hi <= |u|
    ensures u == u[..lo] + u[lo..hi] + u[hi..]
  {}

  lemma FitsSlice(u: seq<nat>, lo: nat, hi: nat)
    requires lo <= hi <= |u| && Fits(u, 5)
    ensures Fits(u[lo..hi], 5)
  {
    forall k | 0 <= k < hi - lo ensures u[lo..hi][k] < Pow(2, 5) { assert u[lo..hi][k] == u[lo + k]; }
  }

  lemma WindowsAgree(p: seq<nat>, x: seq<nat>, y: seq<nat>, t: seq<nat>)
    requires |x| == |y| <= 8 && Fits(x, 5) && Fits(y, 5)
    requires Run(One(), p + x + t) == Run(One(), p + y + t)
    ensures x == y
  {
    var c := Run(One(), p);
    RunAppend(One(), p, x);
    RunAppend(One(), p, y);
    RunAppend(One(), p + x, t);
    RunAppend(One(), p + y, t);
    RunInjective(Run(c, x), Run(c, y), t);
    ShortRunInjective(c, x, y);
  }

  // ---------------------------------------------------------------- creating the checksum

  /** The eight symbols to append after `values`: the register after eight zeros, cut into fives. */
  function Checksum(values: seq<nat>): (cs: seq<nat>)
    ensures |cs| == 8
  {
    TimesIs(8, 5);
    Groups(Polymod(values + [0, 0, 0, 0, 0, 0, 0, 0]), 5, 8)
  }

  lemma XorBack(a: Bits, b: Bits)
    requires |a| == |b|
    ensures Xor(a, Xor(a, b)) == b
  {}

  lemma PolymodZero(values: seq<nat>)
    ensures Polymod(values) == Zeros(40) <==> Run(One(), values) == One()
  {
    var r := Run(One(), values);
    if Polymod(values) == Zeros(40) {
      forall i | 0 <= i < 40 ensures r[i] == One()[i] { assert Polymod(values)[i] == Zeros(40)[i]; }
    }
  }

  /** The created checksum is accepted, and it is the only accepted one. */
  lemma ChecksumUnique(values: seq<nat>, cs: seq<nat>)
    requires |cs| == 8 && Fits(cs, 5)
    ensures Fits(Checksum(values), 5)
    ensures Polymod(values + cs) == Zeros(40) <==> cs == Checksum(values)
  {
    var good, c := Checksum(values), Run(One(), values);
    var zeros := [0, 0, 0, 0, 0, 0, 0, 0];
    TimesIs(8, 5);
    assert Nulls(8) == zeros;
    FlatGroups(Polymod(values + zeros), 5, 8);
    RunAppend(One(), values, zeros);
    RunAppend(One(), values, good);
    RunAppend(One(), values, cs);
    RunShort(c, good, 40);
    var r := Run(c, zeros);
    assert Zeros(0) + Flat(good, 5) == Xor(r, One());
    XorBack(r, One());
    PolymodZero(values + good);
    PolymodZero(values + cs);
    if Polymod(values + cs) == Zeros(40) { ShortRunInjective(c, cs, good); }
  }
}
