/** Numbers as bit strings, most significant bit first, and numbers packed in fixed-width groups. */
module BitStrings {
  import opened Arith
  import opened Sequences

  type Bits = seq<bool>

  /** The w low bits of n. */
  function BitsOf(n: nat, w: nat): (s: Bits)
    ensures |s| == w
  {
    if w == 0 then [] else BitsOf(n / 2, w - 1) + [n % 2 == 1]
  }

  function ValueOf(s: Bits): nat {
    if s == [] then 0 else 2 * ValueOf(s[..|s| - 1]) + (if s[|s| - 1] then 1 else 0)
  }

  function Zeros(n: nat): (s: Bits)
    ensures |s| == n && forall i :: 0 <= i < n ==> !s[i]
  {
    seq(n, _ => false)
  }

  function Xor(a: Bits, b: Bits): (r: Bits)
    requires |a| == |b|
    ensures |r| == |a| && forall i :: 0 <= i < |a| ==> r[i] == (a[i] != b[i])
  {
    seq(|a|, i requires 0 <= i < |a| => a[i] != b[i])
  }

  /** n * w, by repeated addition. */
  function Times(n: nat, w: nat): nat {
    if n == 0 then 0 else Times(n - 1, w) + w
  }

  lemma {:induction false} TimesIs(n: nat, w: nat)
    ensures Times(n, w) == n * w
  {
    if n == 0 {
      assert n * w == 0;
    } else {
      TimesIs(n - 1, w);
      assert n * w == (n - 1) * w + w;
    }
  }

  lemma {:induction false} TimesMonotone(m: nat, n: nat, w: nat)
    requires m <= n
    ensures Times(m, w) <= Times(n, w)
  {
    if m < n { TimesMonotone(m, n - 1, w); }
  }

  /** All groups of width w written one after the other. */
  function Flat(data: seq<nat>, w: nat): (s: Bits)
    ensures |s| == Times(|data|, w)
  {
    if data == [] then [] else Flat(data[..|data| - 1], w) + BitsOf(data[|data| - 1], w)
  }

  ghost predicate Fits(data: seq<nat>, w: nat) {
    forall i :: 0 <= i < |data| ==> data[i] < Pow(2, w)
  }

  lemma {:induction false} ValueOfBits(n: nat, w: nat)
    requires n < Pow(2, w)
    ensures ValueOf(BitsOf(n, w)) == n
  {
    if w != 0 {
      ValueOfBits(n / 2, w - 1);
      assert BitsOf(n, w)[..w - 1] == BitsOf(n / 2, w - 1);
    }
  }

  lemma {:induction false} BitsOfValue(s: Bits)
    ensures ValueOf(s) < Pow(2, |s|) && BitsOf(ValueOf(s), |s|) == s
  {
    if s != [] {
      BitsOfValue(s[..|s| - 1]);
      assert s == s[..|s| - 1] + [s[|s| - 1]];
    }
  }

  lemma BitsOfInjective(a: nat, b: nat, w: nat)
    requires a < Pow(2, w) && b < Pow(2, w) && BitsOf(a, w) == BitsOf(b, w)
    ensures a == b
  {
    ValueOfBits(a, w);
    ValueOfBits(b, w);
  }

  lemma {:induction false} ValueOfAppend(s: Bits, t: Bits)
    ensures ValueOf(s + t) == ValueOf(s) * Pow(2, |t|) + ValueOf(t)
  {
    if t == [] {
      assert s + t == s;
    } else {
      var t', b := t[..|t| - 1], t[|t| - 1];
      ValueOfAppend(s, t');
      assert (s + t)[..|s + t| - 1] == s + t';
      assert ValueOf(s) * Pow(2, |t|) == 2 * (ValueOf(s) * Pow(2, |t'|));
    }
  }

  /** The high and low parts of a number are the prefix and suffix of its bits. */
  lemma {:induction false} BitsOfSplit(hi: nat, lo: nat, w: nat, k: nat)
    requires k <= w && lo < Pow(2, k)
    ensures 0 <= hi * Pow(2, k) && BitsOf(hi * Pow(2, k) + lo, w) == BitsOf(hi, w - k) + BitsOf(lo, k)
  {
    PowPositive(2, k);
    MulMonotone(Pow(2, k), 0, hi);
    if k == 0 {
      assert BitsOf(lo, 0) == [];
    } else {
      var m := hi * Pow(2, k - 1);
      PowPositive(2, k - 1);
      MulMonotone(Pow(2, k - 1), 0, hi);
      assert hi * Pow(2, k) == 2 * m;
      assert (2 * m + lo) / 2 == m + lo / 2 && (2 * m + lo) % 2 == lo % 2;
      BitsOfSplit(hi, lo / 2, w - 1, k - 1);
    }
  }

  /** Bits of a number, split without naming its parts. */
  lemma BitsOfHalves(n: nat, w: nat, k: nat)
    requires k <= w
    ensures 0 < Pow(2, k) && 0 <= n / Pow(2, k) && 0 <= n % Pow(2, k)
    ensures BitsOf(n, w) == BitsOf(n / Pow(2, k), w - k) + BitsOf(n % Pow(2, k), k)
    ensures BitsOf(n % Pow(2, k), k) == BitsOf(n, k)
  {
    PowPositive(2, k);
    DivBounds(n, Pow(2, k), 0);
    DivMod(n, Pow(2, k));
    BitsOfSplit(n / Pow(2, k), n % Pow(2, k), w, k);
    BitsOfSplit(n / Pow(2, k), n % Pow(2, k), k, k);
  }

  lemma {:induction false} ZerosValue(n: nat)
    ensures ValueOf(Zeros(n)) == 0 && BitsOf(0, n) == Zeros(n)
  {
    if n != 0 {
      ZerosValue(n - 1);
      assert Zeros(n)[..n - 1] == Zeros(n - 1);
      assert Zeros(n) == Zeros(n - 1) + [false];
    }
  }

  // ---------------------------------------------------------------- groups

  lemma {:induction false} FlatAppend(a: seq<nat>, b: seq<nat>, w: nat)
    ensures Flat(a + b, w) == Flat(a, w) + Flat(b, w)
  {
    if b == [] {
      assert a + b == a;
    } else {
      var b' := b[..|b| - 1];
      FlatAppend(a, b', w);
      assert (a + b)[..|a + b| - 1] == a + b';
      Associative(Flat(a, w), Flat(b', w), BitsOf(b[|b| - 1], w));
    }
  }

  lemma FlatOne(d: nat, w: nat)
    ensures Flat([d], w) == BitsOf(d, w)
  {
    assert [d][..0] == [];
  }

  lemma SliceWithin(s: Bits, t: Bits, i: nat, j: nat)
    requires i <= j <= |s|
    ensures (s + t)[i..j] == s[i..j]
  {}

  /** Group i occupies bits i*w .. (i+1)*w. */
  lemma {:induction false} FlatSlice(data: seq<nat>, w: nat, i: nat)
    requires i < |data|
    ensures Times(i + 1, w) <= Times(|data|, w)
    ensures Flat(data, w)[Times(i, w)..Times(i + 1, w)] == BitsOf(data[i], w)
  {
    var last := |data| - 1;
    TimesMonotone(i + 1, |data|, w);
    if i != last {
      TimesMonotone(i + 1, last, w);
      FlatSlice(data[..last], w, i);
      SliceWithin(Flat(data[..last], w), BitsOf(data[last], w), Times(i, w), Times(i + 1, w));
    }
  }

  /** The groups can be read back. */
  lemma FlatInjective(a: seq<nat>, b: seq<nat>, w: nat)
    requires |a| == |b| && Fits(a, w) && Fits(b, w) && Flat(a, w) == Flat(b, w)
    ensures a == b
  {
    forall i | 0 <= i < |a| ensures a[i] == b[i] {
      FlatSlice(a, w, i);
      FlatSlice(b, w, i);
      BitsOfInjective(a[i], b[i], w);
    }
  }

  /** The bit string s cut into n groups of width w. */
  function Groups(s: Bits, w: nat, n: nat): (data: seq<nat>)
    requires |s| == Times(n, w)
    ensures |data| == n
    decreases n
  {
    if n == 0 then [] else Groups(s[..|s| - w], w, n - 1) + [ValueOf(s[|s| - w..])]
  }

  lemma FlatSnoc(data: seq<nat>, d: nat, w: nat)
    ensures Flat(data + [d], w) == Flat(data, w) + BitsOf(d, w)
  {
    assert (data + [d])[..|data|] == data;
  }

  lemma GroupsSnoc(h: Bits, t: Bits, g: seq<nat>, w: nat)
    requires |t| == w && Flat(g, w) == h && Fits(g, w)
    ensures Flat(g + [ValueOf(t)], w) == h + t && Fits(g + [ValueOf(t)], w)
  {
    BitsOfValue(t);
    FlatSnoc(g, ValueOf(t), w);
  }

  ghost predicate IsGrouping(g: seq<nat>, s: Bits, w: nat) {
    Flat(g, w) == s && Fits(g, w)
  }

  lemma GroupsStep(s: Bits, w: nat, n: nat)
    requires n != 0 && |s| == Times(n, w)
    requires IsGrouping(Groups(s[..|s| - w], w, n - 1), s[..|s| - w], w)
    ensures IsGrouping(Groups(s, w, n), s, w)
  {
    var h, t := s[..|s| - w], s[|s| - w..];
    GroupsSnoc(h, t, Groups(h, w, n - 1), w);
    assert s == h + t;
  }

  lemma {:induction false} FlatGroups(s: Bits, w: nat, n: nat)
    requires |s| == Times(n, w)
    ensures IsGrouping(Groups(s, w, n), s, w)
    decreases n
  {
    if n != 0 {
      FlatGroups(s[..|s| - w], w, n - 1);
      GroupsStep(s, w, n);
    }
  }

  lemma GroupsFlat(data: seq<nat>, w: nat)
    requires Fits(data, w)
    ensures Groups(Flat(data, w), w, |data|) == data
  {
    FlatGroups(Flat(data, w), w, |data|);
    FlatInjective(Groups(Flat(data, w), w, |data|), data, w);
  }
}
