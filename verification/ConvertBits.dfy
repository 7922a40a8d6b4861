/** Regrouping a bit string (electronfittexxcoin/cashaddr.py:61-78). */
module ConvertBits {
  import opened Arith
  import opened BitStrings

  /** What the conversion means: write all input groups as one bit string and cut it anew, either
      completing the last group with zeros or dropping an incomplete one. */
  function Regrouped(data: seq<nat>, from: nat, to: nat, pad: bool): (ret: seq<nat>)
    requires 0 < to
  {
    var s := Flat(data, from);
    var n, rest := |s| / to, |s| % to;
    DivMod(|s|, to);
    DivBounds(|s|, to, 0);
    TimesIs(n, to);
    if pad && rest != 0 then Groups(s + Zeros(to - rest), to, n + 1) else Groups(s[..|s| - rest], to, n)
  }

  /** The bits still to be written: the low `bits` bits of the accumulator. */
  lemma PushValue(acc: nat, value: nat, bits: nat, from: nat, to: nat)
    requires value < Pow(2, from) && 0 < to && bits < to && 0 < from
    ensures 0 <= acc * Pow(2, from) && 0 < Pow(2, from + to - 1)
    ensures BitsOf((acc * Pow(2, from) + value) % Pow(2, from + to - 1), bits + from)
         == BitsOf(acc, bits) + BitsOf(value, from)
  {
    BitsOfSplit(acc, value, bits + from, from);
    var n := acc * Pow(2, from) + value;
    BitsOfHalves(n, from + to - 1, from + to - 1);
    BitsOfTruncated(n, from + to - 1, bits + from);
  }

  lemma BitsOfTruncated(n: nat, k: nat, w: nat)
    requires w <= k
    ensures 0 < Pow(2, k) && 0 <= n % Pow(2, k) && BitsOf(n % Pow(2, k), w) == BitsOf(n, w)
  {
    BitsOfHalves(n, k, k);
    BitsOfHalves(n, k, w);
    BitsOfHalves(n % Pow(2, k), k, w);
    assert BitsOf(n, k)[k - w..] == BitsOf(n, w);
    assert BitsOf(n % Pow(2, k), k)[k - w..] == BitsOf(n % Pow(2, k), w);
  }

  lemma PopGroup(ret: seq<nat>, acc: nat, bits: nat, to: nat)
    requires to <= bits
    ensures 0 < Pow(2, bits - to) && 0 < Pow(2, to)
    ensures 0 <= (acc / Pow(2, bits - to)) % Pow(2, to)
    ensures Flat(ret + [(acc / Pow(2, bits - to)) % Pow(2, to)], to) + BitsOf(acc, bits - to)
         == Flat(ret, to) + BitsOf(acc, bits)
  {
    BitsOfHalves(acc, bits, bits - to);
    AppendLow(ret, acc / Pow(2, bits - to), to);
    var q := (acc / Pow(2, bits - to)) % Pow(2, to);
    assert (Flat(ret, to) + BitsOf(q, to)) + BitsOf(acc, bits - to) == Flat(ret, to) + (BitsOf(q, to) + BitsOf(acc, bits - to));
  }

  lemma AppendLow(ret: seq<nat>, q: nat, to: nat)
    ensures 0 < Pow(2, to) && 0 <= q % Pow(2, to)
    ensures Flat(ret + [q % Pow(2, to)], to) == Flat(ret, to) + BitsOf(q, to) && BitsOf(q % Pow(2, to), to) == BitsOf(q, to)
  {
    BitsOfHalves(q, to, to);
    FlatSnoc(ret, q % Pow(2, to), to);
  }

  lemma PadGroup(acc: nat, bits: nat, to: nat)
    requires 0 < bits < to
    ensures 0 < Pow(2, to - bits) && 0 < Pow(2, to) && 0 <= (acc * Pow(2, to - bits)) % Pow(2, to)
    ensures BitsOf((acc * Pow(2, to - bits)) % Pow(2, to), to) == BitsOf(acc, bits) + Zeros(to - bits)
  {
    PowPositive(2, to - bits);
    BitsOfSplit(acc, 0, to, to - bits);
    ZerosValue(to - bits);
    BitsOfHalves(acc * Pow(2, to - bits), to, to);
  }

  /** Groups that spell the wanted bit string are the wanted groups. */
  lemma GroupsDetermined(ret: seq<nat>, s: Bits, w: nat, n: nat)
    requires 0 < w && Fits(ret, w) && Flat(ret, w) == s && |s| == Times(n, w)
    ensures ret == Groups(s, w, n)
  {
    TimesIs(|ret|, w);
    TimesIs(n, w);
    MulCancel(|ret|, n, w);
    GroupsFlat(ret, w);
  }

  /** Groups written so far and bits still held, together spelling the input. */
  ghost predicate Spells(ret: seq<nat>, acc: nat, bits: nat, to: nat, s: Bits) {
    Fits(ret, to) && Flat(ret, to) + BitsOf(acc, bits) == s
  }

  lemma FinishDropped(ret: seq<nat>, acc: nat, bits: nat, data: seq<nat>, from: nat, to: nat, pad: bool)
    requires bits < to && Spells(ret, acc, bits, to, Flat(data, from)) && !(pad && bits != 0)
    ensures ret == Regrouped(data, from, to, pad)
  {
    RegroupedExact(data, from, to, pad, |ret|, bits);
    assert Flat(data, from)[..Times(|ret|, to)] == Flat(ret, to);
    GroupsDetermined(ret, Flat(ret, to), to, |ret|);
  }

  lemma FinishPadded(ret: seq<nat>, acc: nat, bits: nat, data: seq<nat>, from: nat, to: nat)
    requires 0 < bits < to && Spells(ret, acc, bits, to, Flat(data, from))
    ensures 0 < Pow(2, to - bits) && 0 < Pow(2, to) && 0 <= (acc * Pow(2, to - bits)) % Pow(2, to)
    ensures ret + [(acc * Pow(2, to - bits)) % Pow(2, to)] == Regrouped(data, from, to, true)
  {
    PadGroup(acc, bits, to);
    var d := (acc * Pow(2, to - bits)) % Pow(2, to);
    FlatSnoc(ret, d, to);
    assert Fits(ret + [d], to);
    PaddedIsRegrouped(ret, d, data, from, to, bits, BitsOf(acc, bits));
  }

  lemma PaddedIsRegrouped(ret: seq<nat>, d: nat, data: seq<nat>, from: nat, to: nat, bits: nat, left: Bits)
    requires 0 < bits < to && Fits(ret + [d], to) && |left| == bits
    requires Flat(data, from) == Flat(ret, to) + left
    requires Flat(ret + [d], to) == Flat(ret, to) + (left + Zeros(to - bits))
    ensures ret + [d] == Regrouped(data, from, to, true)
  {
    var s, z := Flat(data, from), Zeros(to - bits);
    RegroupedPadded(data, from, to, |ret|, bits);
    assert Flat(ret, to) + (left + z) == s + z;
    GroupsDetermined(ret + [d], s + z, to, |ret| + 1);
  }

  lemma RegroupedPadded(data: seq<nat>, from: nat, to: nat, k: nat, bits: nat)
    requires 0 < bits < to && |Flat(data, from)| == Times(k, to) + bits
    ensures Regrouped(data, from, to, true) == Groups(Flat(data, from) + Zeros(to - bits), to, k + 1)
  {
    TimesIs(k, to);
    DivModUnique(|Flat(data, from)|, k, bits, to);
  }

  lemma RegroupedExact(data: seq<nat>, from: nat, to: nat, pad: bool, k: nat, bits: nat)
    requires bits < to && |Flat(data, from)| == Times(k, to) + bits && !(pad && bits != 0)
    ensures Regrouped(data, from, to, pad) == Groups(Flat(data, from)[..Times(k, to)], to, k)
  {
    TimesIs(k, to);
    DivModUnique(|Flat(data, from)|, k, bits, to);
  }

  /** One turn of the outer loop, before whole groups are popped. */
  lemma TakeValue(ret: seq<nat>, acc: nat, bits: nat, data: seq<nat>, i: nat, from: nat, to: nat)
    requires 0 < from && 0 < to && bits < to && i < |data| && Fits(data, from)
    requires Spells(ret, acc, bits, to, Flat(data[..i], from))
    ensures 0 <= acc * Pow(2, from) && 0 < Pow(2, from + to - 1)
    ensures Spells(ret, (acc * Pow(2, from) + data[i]) % Pow(2, from + to - 1), bits + from, to,
                   Flat(data[..i + 1], from))
  {
    PushValue(acc, data[i], bits, from, to);
    FlatSnoc(data[..i], data[i], from);
    assert data[..i + 1] == data[..i] + [data[i]];
    var (f, b, d) := (Flat(ret, to), BitsOf(acc, bits), BitsOf(data[i], from));
    assert f + (b + d) == (f + b) + d;
  }

  method Convert(data: seq<nat>, from: nat, to: nat, pad: bool) returns (ret: seq<nat>)
    requires 0 < from && 0 < to && Fits(data, from)
    ensures ret == Regrouped(data, from, to, pad)
  {
    var acc, bits := 0, 0;
    ret := [];
    PowPositive(2, to);
    PowPositive(2, from + to - 1);
    for i := 0 to |data|
      invariant 0 <= acc && 0 <= bits < to
      invariant Spells(ret, acc, bits, to, Flat(data[..i], from))
    {
      TakeValue(ret, acc, bits, data, i, from, to);
      acc := (acc * Pow(2, from) + data[i]) % Pow(2, from + to - 1);
      bits := bits + from;
      while bits >= to
        invariant 0 <= bits && Spells(ret, acc, bits, to, Flat(data[..i + 1], from))
      {
        PopGroup(ret, acc, bits, to);
        bits := bits - to;
        ret := ret + [(acc / Pow(2, bits)) % Pow(2, to)];
      }
    }
    assert data[..|data|] == data;
    if pad && bits != 0 {
      FinishPadded(ret, acc, bits, data, from, to);
      ret := ret + [(acc * Pow(2, to - bits)) % Pow(2, to)];
    } else {
      FinishDropped(ret, acc, bits, data, from, to, pad);
    }
  }

  // ---------------------------------------------------------------- bytes to 5-bit symbols and back

  /** Zero bits that complete the last symbol when n bytes are written. */
  function PadLength(n: nat): nat { (5 - 8 * n % 5) % 5 }

  lemma LowBitsClear(d: nat, w: nat, x: nat)
    requires x <= w
    ensures 0 < Pow(2, x) && (d % Pow(2, x) == 0 <==> BitsOf(d, w)[w - x..] == Zeros(x))
  {
    BitsOfHalves(d, w, x);
    ZerosValue(x);
    if BitsOf(d, w)[w - x..] == Zeros(x) {
      DivMod(d, Pow(2, x));
      BitsOfInjective(d % Pow(2, x), 0, x);
    }
  }

  lemma LastGroup(p: seq<nat>, w: nat, x: nat)
    requires p != [] && x <= w
    ensures x <= |Flat(p, w)| && Flat(p, w)[|Flat(p, w)| - x..] == BitsOf(p[|p| - 1], w)[w - x..]
  {}

  lemma PackedBits(data: seq<nat>)
    requires Fits(data, 8)
    ensures
      var p, x := Regrouped(data, 8, 5, true), PadLength(|data|);
      IsGrouping(p, Flat(data, 8) + Zeros(x), 5) && 5 * |p| == 8 * |data| + x
  {
    var k, bits := 8 * |data| / 5, 8 * |data| % 5;
    PadFills(|data|, k, bits);
    if bits == 0 { PackedExact(data, k); } else { PackedPadded(data, k, bits); }
  }

  lemma PadFills(n: nat, k: nat, bits: nat)
    requires 8 * n == 5 * k + bits && bits < 5
    ensures PadLength(n) == if bits == 0 then 0 else 5 - bits
  {
    DivModUnique(8 * n, k, bits, 5);
  }

  lemma PackedExact(data: seq<nat>, k: nat)
    requires 8 * |data| == 5 * k
    ensures IsGrouping(Regrouped(data, 8, 5, true), Flat(data, 8) + Zeros(0), 5)
    ensures |Regrouped(data, 8, 5, true)| == k
  {
    var s := Flat(data, 8);
    TimesIs(|data|, 8);
    TimesIs(k, 5);
    RegroupedExact(data, 8, 5, true, k, 0);
    assert s[..Times(k, 5)] == s && s + Zeros(0) == s;
    FlatGroups(s, 5, k);
  }

  lemma PackedPadded(data: seq<nat>, k: nat, bits: nat)
    requires 8 * |data| == 5 * k + bits && 0 < bits < 5
    ensures IsGrouping(Regrouped(data, 8, 5, true), Flat(data, 8) + Zeros(5 - bits), 5)
    ensures |Regrouped(data, 8, 5, true)| == k + 1
  {
    TimesIs(|data|, 8);
    TimesIs(k, 5);
    PaddedGrouping(data, 8, 5, k, bits);
  }

  lemma PaddedGrouping(data: seq<nat>, from: nat, to: nat, k: nat, bits: nat)
    requires 0 < bits < to && |Flat(data, from)| == Times(k, to) + bits
    ensures IsGrouping(Regrouped(data, from, to, true), Flat(data, from) + Zeros(to - bits), to)
    ensures |Regrouped(data, from, to, true)| == k + 1
  {
    RegroupedPadded(data, from, to, k, bits);
    FlatGroups(Flat(data, from) + Zeros(to - bits), to, k + 1);
  }

  /** Groups of one width that carry other groups and then zeros give those back. */
  lemma DroppedGroups(p: seq<nat>, from: nat, data: seq<nat>, to: nat, x: nat)
    requires Fits(data, to) && x < to && Flat(p, from) == Flat(data, to) + Zeros(x)
    ensures Regrouped(p, from, to, false) == data
  {
    RegroupedExact(p, from, to, false, |data|, x);
    assert Flat(p, from)[..Times(|data|, to)] == Flat(data, to);
    GroupsFlat(data, to);
  }

  /** Zeros at the end of the groups are low bits of the last group. */
  lemma ZeroTail(p: seq<nat>, w: nat, s: Bits, x: nat)
    requires p != [] && x <= w && Flat(p, w) == s + Zeros(x)
    ensures 0 < Pow(2, x) && p[|p| - 1] % Pow(2, x) == 0
  {
    LastGroup(p, w, x);
    LowBitsClear(p[|p| - 1], w, x);
    assert Flat(p, w)[|Flat(p, w)| - x..] == Zeros(x);
  }

  /** Unpacking undoes packing; the packed form has fewer than 5 surplus bits, all zero. */
  lemma PackUnpack(data: seq<nat>)
    requires Fits(data, 8)
    ensures
      var p := Regrouped(data, 8, 5, true);
      var x := 5 * |p| % 8;
      && Fits(p, 5) && x < 5 && Regrouped(p, 5, 8, false) == data
      && (p != [] ==> 0 < Pow(2, x) && p[|p| - 1] % Pow(2, x) == 0)
  {
    PackedBits(data);
    var p, x := Regrouped(data, 8, 5, true), PadLength(|data|);
    DivModUnique(5 * |p|, |data|, x, 8);
    DroppedGroups(p, 5, data, 8, x);
    if p != [] { ZeroTail(p, 5, Flat(data, 8), x); }
  }

  /** The bits of the groups without the surplus ones, as groups of the other width. */
  lemma UnpackedBits(p: seq<nat>, from: nat, to: nat, n: nat, x: nat)
    requires x < to && x <= from && |Flat(p, from)| == Times(n, to) + x
    requires p != [] && 0 < Pow(2, x) && p[|p| - 1] % Pow(2, x) == 0
    ensures var data := Regrouped(p, from, to, false);
            |data| == n && Fits(data, to) && Flat(p, from) == Flat(data, to) + Zeros(x)
  {
    RegroupedExact(p, from, to, false, n, x);
    var s := Flat(p, from)[..Times(n, to)];
    FlatGroups(s, to, n);
    LastGroup(p, from, x);
    LowBitsClear(p[|p| - 1], from, x);
    assert Flat(p, from) == s + Zeros(x);
  }

  /** Groups of one width whose bits, completed with zeros, are the wanted groups. */
  lemma PaddedBack(data: seq<nat>, from: nat, p: seq<nat>, to: nat, x: nat)
    requires Fits(p, to) && p != [] && x < to && Flat(p, to) == Flat(data, from) + Zeros(x)
    ensures Regrouped(data, from, to, true) == p
  {
    GroupsFlat(p, to);
    if x == 0 { ExactBack(data, from, p, to); } else { RegroupedPadded(data, from, to, |p| - 1, to - x); }
  }

  lemma ExactBack(data: seq<nat>, from: nat, p: seq<nat>, to: nat)
    requires 0 < to && Fits(p, to) && Flat(p, to) == Flat(data, from) + Zeros(0)
    ensures Regrouped(data, from, to, true) == p
  {
    var f := Flat(data, from);
    assert f == Flat(p, to);
    RegroupedExact(data, from, to, true, |p|, 0);
    assert f[..Times(|p|, to)] == f;
    GroupsFlat(p, to);
  }

  /** Packing undoes unpacking for symbols with fewer than 5 surplus bits, all zero. */
  lemma UnpackPack(p: seq<nat>)
    requires Fits(p, 5) && p != []
    requires
      var x := 5 * |p| % 8;
      x < 5 && 0 < Pow(2, x) && p[|p| - 1] % Pow(2, x) == 0
    ensures Fits(Regrouped(p, 5, 8, false), 8)
    ensures Regrouped(Regrouped(p, 5, 8, false), 8, 5, true) == p
  {
    var x, n := 5 * |p| % 8, 5 * |p| / 8;
    TimesIs(|p|, 5);
    TimesIs(n, 8);
    UnpackedBits(p, 5, 8, n, x);
    PaddedBack(Regrouped(p, 5, 8, false), 8, p, 5, x);
  }
}
