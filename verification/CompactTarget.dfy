/** Compact difficulty targets: the ASERT form (electronfittexxcoin/asert_daa.py:30-104) and the
    byte-scanning form (electronfittexxcoin/blockchain.py:64-125). */
module CompactTarget {
  import opened Arith

  datatype Option<T> = None | Some(value: T)

  /** 256^k. */
  function Bytes(k: nat): (r: nat)
    ensures 0 < r
  {
    PowPositive(256, k);
    Pow(256, k)
  }

  // ---------------------------------------------------------------- lengths

  /** Number of bytes needed to write n. */
  function ByteLength(n: nat): nat { (BitLength(n) + 7) / 8 }

  lemma BytesAreBits(k: nat)
    ensures Bytes(k) == Pow(2, 8 * k)
  {
    PowMul(2, 8, k);
    assert Pow(2, 8) == 256;
  }

  lemma ByteLengthBounds(n: nat)
    requires 0 < n
    ensures 0 < ByteLength(n) && Bytes(ByteLength(n) - 1) <= n < Bytes(ByteLength(n))
  {
    var b, s := BitLength(n), ByteLength(n);
    BitLengthBounds(n);
    assert 8 * (s - 1) <= b - 1 && b <= 8 * s;
    BytesAreBits(s);
    BytesAreBits(s - 1);
    PowMonotone(2, b, 8 * s);
    PowMonotone(2, 8 * (s - 1), b - 1);
  }

  // ---------------------------------------------------------------- the ASERT form

  const MAX_BITS := 0x1d00ffff

  const MAX_TARGET: nat := 0xffff * Bytes(26)

  /** Mantissa w with exponent byte s. */
  function Expand(w: nat, s: nat): nat {
    if s <= 3 then DivNonNegative(w, Bytes(3 - s)); w / Bytes(3 - s) else w * Bytes(s - 3)
  }

  lemma DivNonNegative(w: nat, d: nat)
    requires 0 < d
    ensures 0 <= w / d
  {
    DivBounds(w, d, 0);
  }

  /** None where the source's assertions fail. */
  function BitsToTarget(bits: nat): Option<nat> {
    var (size, word) := (bits / 0x100_0000, bits % 0x100_0000);
    if size <= 0x1d && 0x8000 <= word <= 0x7fffff then Some(Expand(word, size)) else None
  }

  function Low64(n: nat): nat { n % 0x1_0000_0000_0000_0000 }

  /** Mantissa before normalisation: the three leading bytes of t. */
  function Mantissa(t: nat): nat {
    var size := ByteLength(t);
    if size <= 3 then Low64(t) * Bytes(3 - size)
    else DivNonNegative(t, Bytes(size - 3)); Low64(t / Bytes(size - 3))
  }

  /** A mantissa with its sign bit set gives up its last byte to the exponent. */
  function Normalise(w: nat, s: nat): (nat, nat) {
    if w / 0x80_0000 % 2 == 1 then (w / 0x100, s + 1) else (w, s)
  }

  function Compact(t: nat): (nat, nat) { Normalise(Mantissa(t), ByteLength(t)) }

  function Word(t: nat): nat { Compact(t).0 }

  function Size(t: nat): nat { Compact(t).1 }

  function TargetToBits(target: nat): nat
    requires 0 < target
  {
    var t := if target > MAX_TARGET then MAX_TARGET else target;
    Word(t) + Size(t) * 0x100_0000
  }

  lemma BytesStep(k: nat)
    ensures Bytes(k + 1) == 256 * Bytes(k)
  {}

  /** The three leading bytes start with a non-zero one, and reading them back loses only the rest. */
  lemma MantissaMeaning(t: nat)
    requires 0 < t
    ensures 0x1_0000 <= Mantissa(t) < 0x100_0000
    ensures var s := ByteLength(t);
      if s <= 3 then Mantissa(t) == t * Bytes(3 - s)
      else Mantissa(t) * Bytes(s - 3) <= t < (Mantissa(t) + 1) * Bytes(s - 3)
  {
    var s := ByteLength(t);
    ByteLengthBounds(t);
    assert Bytes(2) == 0x1_0000 && Bytes(3) == 0x100_0000 by { assert Bytes(1) == 256; BytesStep(1); BytesStep(2); }
    if s <= 3 {
      PowAdd(256, s - 1, 3 - s);
      PowAdd(256, s, 3 - s);
      MulMonotone(Bytes(3 - s), Bytes(s - 1), t);
      MulMonotone(Bytes(3 - s), t + 1, Bytes(s));
      PowMonotone(256, s, 3);
      ModSmall(t, 0x1_0000_0000_0000_0000);
    } else {
      PowAdd(256, 2, s - 3);
      PowAdd(256, 3, s - 3);
      DivBounds(t, Bytes(s - 3), Bytes(2));
      DivBounds(t, Bytes(s - 3), Bytes(3));
      ModSmall(t / Bytes(s - 3), 0x1_0000_0000_0000_0000);
      DivBounds(t, Bytes(s - 3), Mantissa(t));
      DivBounds(t, Bytes(s - 3), Mantissa(t) + 1);
    }
  }

  /** The normalised form: a mantissa of 16 to 23 bits; reading it back is exact for up to three
      exponent bytes and otherwise drops only bytes below the mantissa. */
  lemma CompactMeaning(t: nat)
    requires 0 < t
    ensures 0x8000 <= Word(t) <= 0x7fffff && 1 <= Size(t)
    ensures Size(t) <= 3 ==> Word(t) == t * Bytes(3 - Size(t))
    ensures Size(t) > 3 ==> Word(t) * Bytes(Size(t) - 3) <= t < (Word(t) + 1) * Bytes(Size(t) - 3)
  {
    MantissaMeaning(t);
    ByteLengthBounds(t);
    var (m, s) := (Mantissa(t), ByteLength(t));
    if m >= 0x80_0000 {
      DivModUnique(m, 1, m - 0x80_0000, 0x80_0000);
      if s <= 2 {
        BytesStep(2 - s);
        assert m == 256 * (t * Bytes(2 - s));
      } else if s == 3 {
        assert Bytes(0) == 1 && Bytes(1) == 256;
      } else {
        DropMantissaByte(m, t, s - 3);
      }
    } else {
      ModSmall(m, 0x80_0000);
    }
  }

  lemma DropMantissaByte(m: nat, t: nat, k: nat)
    requires m * Bytes(k) <= t < (m + 1) * Bytes(k)
    ensures (m / 256) * Bytes(k + 1) <= t < (m / 256 + 1) * Bytes(k + 1)
  {
    var (w, b) := (m / 256, Bytes(k));
    BytesStep(k);
    assert w * (256 * b) == (256 * w) * b;
    MulMonotone(b, 256 * w, m);
    assert (w + 1) * (256 * b) == (256 * w + 256) * b;
    MulMonotone(b, m + 1, 256 * w + 256);
  }

  /** Reading a normalised form back. */
  lemma ExpandCompact(t: nat)
    requires 0 < t
    ensures Expand(Word(t), Size(t)) <= t
    ensures Size(t) <= 3 ==> Expand(Word(t), Size(t)) == t
    ensures (t - Expand(Word(t), Size(t))) * 0x8000 < t
  {
    CompactMeaning(t);
    var (w, s) := (Word(t), Size(t));
    if s <= 3 {
      DivModUnique(w, t, 0, Bytes(3 - s));
    } else {
      var b := Bytes(s - 3);
      assert (w + 1) * b == w * b + b;
      MulMonotone(b, 0x8000, w);
    }
  }

  lemma SizeBound(t: nat)
    requires 0 < t <= MAX_TARGET
    ensures Size(t) <= 0x1d
  {
    var b := ByteLength(t);
    ByteLengthBounds(t);
    BytesStep(27);
    BytesStep(26);
    if b > 28 { PowMonotone(256, 28, b - 1); }
  }

  lemma BitsFields(word: nat, size: nat)
    requires word < 0x100_0000
    ensures (word + size * 0x100_0000) / 0x100_0000 == size
    ensures (word + size * 0x100_0000) % 0x100_0000 == word
  {}

  function Clamp(t: nat): nat { if t > MAX_TARGET then MAX_TARGET else t }

  /** The target that remains after writing t in compact form. */
  function Rounded(t: nat): nat { Expand(Word(Clamp(t)), Size(Clamp(t))) }

  lemma MaxTargetPositive()
    ensures 0 < MAX_TARGET
  {}

  /** A written target can be read, is not above the original, and its loss e has e * 2^15 < t. */
  lemma DecodeOfEncode(t: nat)
    requires 0 < t
    ensures BitsToTarget(TargetToBits(t)) == Some(Rounded(t))
    ensures 1 <= Rounded(t) <= Clamp(t) && (Clamp(t) - Rounded(t)) * 0x8000 < Clamp(t)
  {
    MaxTargetPositive();
    var c := Clamp(t);
    CompactMeaning(c);
    SizeBound(c);
    var (w, s) := (Word(c), Size(c));
    ReadBack(w, s);
    ExpandCompact(c);
    LossLeavesSomething(c, Expand(w, s));
    assert TargetToBits(t) == w + s * 0x100_0000;
  }

  lemma ReadBack(word: nat, size: nat)
    requires 0x8000 <= word <= 0x7fffff && size <= 0x1d
    ensures BitsToTarget(word + size * 0x100_0000) == Some(Expand(word, size))
  {
    BitsFields(word, size);
  }

  lemma LossLeavesSomething(c: nat, r: nat)
    requires r <= c && (c - r) * 0x8000 < c
    ensures 1 <= r
  {}

  /** No readable compact form lies strictly between the written target and the original. */
  lemma GreatestRepresentable(t: nat, bits: nat)
    requires 0 < t <= MAX_TARGET && BitsToTarget(bits).Some? && BitsToTarget(bits).value <= t
    ensures BitsToTarget(bits).value <= Rounded(t)
  {
    CompactMeaning(t);
    ExpandCompact(t);
    var (w, s, w', s') := (Word(t), Size(t), bits % 0x100_0000, bits / 0x100_0000);
    if s > 3 {
      var k := s - 3;
      if s' < s {
        SmallerExponent(w', s', k);
        MulMonotone(Bytes(k), 0x8000, w);
      } else {
        MultipleBelow(w', s' - 3, w, k, t);
      }
    }
  }

  /** A smaller exponent cannot reach the smallest mantissa of the next one. */
  lemma SmallerExponent(w: nat, s: nat, k: nat)
    requires w <= 0x7fffff && s < k + 3 && 1 <= k
    ensures Expand(w, s) <= 0x8000 * Bytes(k)
  {
    BytesStep(k - 1);
    if s <= 3 {
      DivBounds(w, Bytes(3 - s), w + 1);
      MulMonotone(w + 1, 1, Bytes(3 - s));
      assert 0x8000 * Bytes(k) == 0x80_0000 * Bytes(k - 1);
    } else {
      PowMonotone(256, s - 3, k - 1);
      MulMonotone(w, Bytes(s - 3), Bytes(k - 1));
      MulMonotone(Bytes(k - 1), w, 0x80_0000);
    }
  }

  /** A multiple of 256^k that is at most t is at most the multiple just below t. */
  lemma MultipleBelow(w': nat, k': nat, w: nat, k: nat, t: nat)
    requires k <= k' && w' * Bytes(k') <= t < (w + 1) * Bytes(k)
    ensures w' * Bytes(k') <= w * Bytes(k)
  {
    PowAdd(256, k' - k, k);
    var m := w' * Bytes(k' - k);
    assert w' * Bytes(k') == m * Bytes(k);
    if m > w { MulMonotone(Bytes(k), w + 1, m); }
  }

  /** Writing a target that was read gives the same bits exactly when reading dropped nothing. */
  lemma EncodeOfDecode(bits: nat)
    requires BitsToTarget(bits).Some? && 0 < BitsToTarget(bits).value <= MAX_TARGET
    ensures
      var (size, word) := (bits / 0x100_0000, bits % 0x100_0000);
      TargetToBits(BitsToTarget(bits).value) == bits <==> size >= 3 || word % Bytes(3 - size) == 0
  {
    var (s, w, t) := (bits / 0x100_0000, bits % 0x100_0000, BitsToTarget(bits).value);
    CompactMeaning(t);
    BitsFields(Word(t), Size(t));
    if s >= 3 || w % Bytes(3 - s) == 0 {
      ReadExactly(w, s);
      CompactUnique(t, w, s);
    } else if Size(t) == s && Word(t) == w {
      DivModUnique(w, t, 0, Bytes(3 - s));
    }
  }

  lemma ReadExactly(w: nat, s: nat)
    requires s >= 3 || w % Bytes(3 - s) == 0
    ensures if s <= 3 then Expand(w, s) * Bytes(3 - s) == w else Expand(w, s) == w * Bytes(s - 3)
  {
    if s <= 3 { DivMod(w, Bytes(3 - s)); }
  }

  /** A normalised mantissa and exponent that read back to t exactly are the ones written for t. */
  lemma CompactUnique(t: nat, w: nat, s: nat)
    requires 0 < t && 0x8000 <= w <= 0x7fffff
    requires if s <= 3 then t * Bytes(3 - s) == w else t == w * Bytes(s - 3)
    ensures Word(t) == w && Size(t) == s
  {
    CompactMeaning(t);
    AtCommonScale(t, Word(t), Size(t));
    ExactAtCommonScale(t, w, s);
    assert (w + 1) * Bytes(s) == w * Bytes(s) + Bytes(s);
    OneForm(t * Bytes(3), Word(t), Size(t), w, s);
  }

  lemma OneForm(x: nat, w': nat, s': nat, w: nat, s: nat)
    requires 0x8000 <= w <= 0x7fffff && 0x8000 <= w' <= 0x7fffff
    requires w * Bytes(s) <= x < (w + 1) * Bytes(s) && w' * Bytes(s') <= x < (w' + 1) * Bytes(s')
    ensures w' == w && s' == s
  {
    if s' < s {
      Separated(w', s', w, s);
    } else if s < s' {
      Separated(w, s, w', s');
    } else if w < w' {
      MulMonotone(Bytes(s), w + 1, w');
    } else if w > w' {
      MulMonotone(Bytes(s), w' + 1, w);
    }
  }

  lemma ExactAtCommonScale(t: nat, w: nat, s: nat)
    requires s <= 3 ==> t * Bytes(3 - s) == w
    requires s > 3 ==> t == w * Bytes(s - 3)
    ensures t * Bytes(3) == w * Bytes(s)
  {
    if s <= 3 {
      PowAdd(256, 3 - s, s);
      assert t * Bytes(3) == (t * Bytes(3 - s)) * Bytes(s);
    } else {
      PowAdd(256, s - 3, 3);
      assert w * Bytes(s - 3) * Bytes(3) == w * Bytes(s);
    }
  }

  /** t scaled by 256^3 lies in the interval of its mantissa scaled by 256^s. */
  lemma AtCommonScale(t: nat, w: nat, s: nat)
    requires s <= 3 ==> t * Bytes(3 - s) == w
    requires s > 3 ==> w * Bytes(s - 3) <= t < (w + 1) * Bytes(s - 3)
    ensures w * Bytes(s) <= t * Bytes(3) < (w + 1) * Bytes(s)
  {
    if s <= 3 {
      ExactAtCommonScale(t, w, s);
      assert (w + 1) * Bytes(s) == w * Bytes(s) + Bytes(s);
    } else {
      PowAdd(256, s - 3, 3);
      var (b, c) := (Bytes(s - 3), Bytes(3));
      MulMonotone(c, w * b, t);
      MulMonotone(c, t + 1, (w + 1) * b);
      assert w * b * c == w * Bytes(s) && (w + 1) * b * c == (w + 1) * Bytes(s);
    }
  }

  /** Normalised mantissas at different exponents cover disjoint ranges. */
  lemma Separated(w: nat, s: nat, w': nat, s': nat)
    requires w <= 0x7fffff && 0x8000 <= w' && s < s'
    ensures (w + 1) * Bytes(s) <= w' * Bytes(s')
  {
    BytesStep(s);
    PowMonotone(256, s + 1, s');
    MulMonotone(Bytes(s), w + 1, 0x80_0000);
    MulMonotone(0x8000, Bytes(s + 1), Bytes(s'));
    MulMonotone(Bytes(s'), 0x8000, w');
  }

  // ---------------------------------------------------------------- the byte-scanning form

  predicate IsBytes(b: seq<nat>) { forall i :: 0 <= i < |b| ==> b[i] < 256 }

  function ToBytes(n: nat, length: nat): (b: seq<nat>)
    ensures |b| == length && IsBytes(b)
  {
    if length == 0 then [] else [n % 256] + ToBytes(n / 256, length - 1)
  }

  function FromBytes(b: seq<nat>): nat {
    if b == [] then 0 else b[0] + 256 * FromBytes(b[1..])
  }

  lemma RemainderStep(n: nat, b: nat)
    requires 0 < b
    ensures n % (256 * b) == n % 256 + 256 * ((n / 256) % b)
  {
    var q := n / 256;
    DivMod(q, b);
    var r := n % 256 + 256 * (q % b);
    assert (q / b) * (256 * b) == 256 * ((q / b) * b);
    DivModUnique(n, q / b, r, 256 * b);
  }

  lemma {:induction false} FromToBytes(n: nat, length: nat)
    ensures FromBytes(ToBytes(n, length)) == n % Bytes(length)
  {
    if length == 0 {
      assert Bytes(0) == 1;
    } else {
      FromToBytes(n / 256, length - 1);
      assert ToBytes(n, length)[1..] == ToBytes(n / 256, length - 1);
      BytesStep(length - 1);
      RemainderStep(n, Bytes(length - 1));
    }
  }

  lemma ToBytesExact(n: nat, length: nat)
    requires n < Bytes(length)
    ensures FromBytes(ToBytes(n, length)) == n
  {
    FromToBytes(n, length);
    ModSmall(n, Bytes(length));
  }

  lemma {:induction false} LowBytes(n: nat, length: nat, k: nat)
    requires k <= length
    ensures ToBytes(n, length)[..k] == ToBytes(n, k)
  {
    if k != 0 {
      LowBytes(n / 256, length - 1, k - 1);
      assert ToBytes(n, length)[..k] == [n % 256] + ToBytes(n / 256, length - 1)[..k - 1];
    }
  }

  /** The value of b when everything above position pos is zero. */
  lemma {:induction false} TopByte(b: seq<nat>, pos: nat)
    requires IsBytes(b) && pos < |b| && forall i :: pos < i < |b| ==> b[i] == 0
    ensures b[pos] * Bytes(pos) <= FromBytes(b) < (b[pos] + 1) * Bytes(pos)
  {
    if pos == 0 {
      AllZero(b[1..]);
      assert Bytes(0) == 1;
    } else {
      TopByte(b[1..], pos - 1);
      BytesStep(pos - 1);
      ScaleByte(b[pos], Bytes(pos - 1), FromBytes(b[1..]), b[0]);
    }
  }

  lemma ScaleByte(c: nat, d: nat, v: nat, low: nat)
    requires c * d <= v < (c + 1) * d && low < 256
    ensures c * (256 * d) <= low + 256 * v < (c + 1) * (256 * d)
  {
    assert c * (256 * d) == 256 * (c * d) && (c + 1) * (256 * d) == 256 * ((c + 1) * d);
  }

  lemma {:induction false} AllZero(b: seq<nat>)
    requires forall i :: 0 <= i < |b| ==> b[i] == 0
    ensures FromBytes(b) == 0
  {
    if b != [] { AllZero(b[1..]); }
  }

  lemma BitLengthUnique(n: nat, k: nat)
    requires 0 < k && Pow(2, k - 1) <= n < Pow(2, k)
    ensures BitLength(n) == k
  {
    PowPositive(2, k - 1);
    BitLengthBounds(n);
    var b := BitLength(n);
    if b < k { PowMonotone(2, b, k - 1); }
    if k < b { PowMonotone(2, k, b - 1); }
  }

  /** The highest set bit of the highest non-zero byte. */
  lemma TopBit(b: seq<nat>, pos: nat, nbits: nat)
    requires IsBytes(b) && pos < |b| && forall i :: pos < i < |b| ==> b[i] == 0
    requires Pow(2, nbits) <= b[pos] < Pow(2, nbits + 1)
    ensures BitLength(FromBytes(b)) == 8 * pos + nbits + 1
  {
    TopByte(b, pos);
    BytesAreBits(pos);
    PowAdd(2, nbits, 8 * pos);
    PowAdd(2, nbits + 1, 8 * pos);
    MulMonotone(Bytes(pos), Pow(2, nbits), b[pos]);
    MulMonotone(Bytes(pos), b[pos] + 1, Pow(2, nbits + 1));
    BitLengthUnique(FromBytes(b), 8 * pos + nbits + 1);
  }

  /** Position of the highest set bit, plus one; 0 for all zeros. */
  method NumBits(b: seq<nat>) returns (n: nat)
    requires IsBytes(b)
    ensures n == BitLength(FromBytes(b))
  {
    var pos := |b| - 1;
    while pos >= 0
      invariant -1 <= pos < |b|
      invariant forall i :: pos < i < |b| ==> b[i] == 0
    {
      if b[pos] != 0 {
        var nbits := 7;
        assert Pow(2, 8) == 256 && Pow(2, 1) == 2 && Pow(2, 0) == 1;
        while nbits > 0
          invariant 0 <= nbits <= 7 && b[pos] < Pow(2, nbits + 1)
        {
          PowPositive(2, nbits);
          DivBounds(b[pos], Pow(2, nbits), 1);
          DivBounds(b[pos], Pow(2, nbits), 2);
          if b[pos] / Pow(2, nbits) % 2 == 1 {
            TopBit(b, pos, nbits);
            return 8 * pos + nbits + 1;
          }
          nbits := nbits - 1;
        }
        TopBit(b, pos, 0);
        return 8 * pos + 1;
      }
      pos := pos - 1;
    }
    AllZero(b);
    return 0;
  }

  function LittleEndianLow64(b: seq<nat>): nat
    requires 8 <= |b|
  {
    FromBytes(b[..8])
  }

  lemma Low64OfBytes(n: nat)
    ensures LittleEndianLow64(ToBytes(n, 32)) == Low64(n)
  {
    LowBytes(n, 32, 8);
    FromToBytes(n, 8);
    assert Bytes(8) == 0x1_0000_0000_0000_0000 by {
      assert Bytes(1) == 256;
      PowAdd(256, 1, 1); PowAdd(256, 2, 2); PowAdd(256, 4, 4);
    }
  }

  function Packed(c: (nat, nat)): nat { c.0 + c.1 * 0x100_0000 }

  /** Mantissa and exponent packed without a ceiling. */
  function NodeBits(t: nat): nat { Packed(Compact(t)) }

  /** The mantissa as the node computes it from little-endian bytes. */
  function ScannedMantissa(target: nat, b: seq<nat>, size: nat): nat
    requires 8 <= |b|
  {
    if size <= 3 then LittleEndianLow64(b) * Bytes(3 - size) % 0x1_0000_0000
    else
      DivNonNegative(target, Bytes(size - 3));
      LittleEndianLow64(ToBytes(target / Bytes(size - 3), 32)) % 0x1_0000_0000
  }

  lemma MantissaBound(t: nat)
    ensures Mantissa(t) < 0x100_0000
  {
    if t == 0 {
      assert BitLength(0) == 0;
      assert Low64(0) == 0;
    } else {
      MantissaMeaning(t);
    }
  }

  lemma ScannedMantissaMeaning(target: nat)
    ensures ScannedMantissa(target, ToBytes(target, 32), ByteLength(target)) == Mantissa(target)
  {
    var s := ByteLength(target);
    MantissaBound(target);
    ModSmall(Mantissa(target), 0x1_0000_0000);
    if s > 3 { DivNonNegative(target, Bytes(s - 3)); }
    Low64OfBytes(if s <= 3 then target else target / Bytes(s - 3));
  }

  /** Size and mantissa found by scanning the bytes of the target. */
  method ScanCompact(target: nat) returns (compact: nat, size: nat)
    requires target < Bytes(32)
    ensures compact == Mantissa(target) && size == ByteLength(target)
  {
    var b := ToBytes(target, 32);
    ToBytesExact(target, 32);
    var numBits := NumBits(b);
    size := (numBits + 7) / 8;
    compact := ScannedMantissa(target, b, size);
    ScannedMantissaMeaning(target);
  }

  /** The node's encoder computes, by scanning bytes, the same mantissa and exponent. */
  method NodeTargetToBits(target: nat) returns (bits: Option<nat>)
    ensures target < Bytes(32) ==> bits == Some(NodeBits(target))
    ensures target >= Bytes(32) ==> bits == None
  {
    if target >= Pow(256, 32) { return None; }
    var compact, size := ScanCompact(target);
    ghost var normal := Normalise(compact, size);
    if compact / 0x80_0000 % 2 == 1 {
      compact := compact / 256;
      size := size + 1;
    }
    assert normal == (compact, size);
    return Some(compact + size * 0x100_0000);
  }

  /** Targets between 0xffff and 0x10000 at some scale share one compact form. */
  lemma CompactBetween(t: nat, k: nat)
    requires 1 <= k && 0xffff * Bytes(k) <= t < 0x1_0000 * Bytes(k)
    ensures Word(t) == 0xffff && Size(t) == k + 3
  {
    MulMonotone(0xffff, 1, Bytes(k));
    CompactMeaning(t);
    AtCommonScale(t, Word(t), Size(t));
    AtCommonScale(t, 0xffff, k + 3);
    OneForm(t * Bytes(3), Word(t), Size(t), 0xffff, k + 3);
  }

  lemma PackedInjective(w: nat, s: nat, w': nat, s': nat)
    requires w < 0x100_0000 && w' < 0x100_0000
    requires w + s * 0x100_0000 == w' + s' * 0x100_0000
    ensures w == w' && s == s'
  {
    BitsFields(w, s);
    BitsFields(w', s');
  }

  lemma MaxTargetForm()
    ensures 0 < MAX_TARGET < Bytes(28) == 0x1_0000 * Bytes(26) && Word(MAX_TARGET) == 0xffff && Size(MAX_TARGET) == 29
  {
    BytesStep(26);
    BytesStep(27);
    CompactBetween(MAX_TARGET, 26);
  }

  /** The two encoders agree exactly below 2^224: from there on only one of them clamps to the maximum,
      and up to there clamping does not change the compact form. */
  lemma EncodersAgree(t: nat)
    requires 0 < t < Bytes(32)
    ensures NodeBits(t) == TargetToBits(t) <==> t < Bytes(28)
  {
    MaxTargetForm();
    if t > MAX_TARGET {
      assert TargetToBits(t) == 0xffff + 29 * 0x100_0000;
      var (w, s) := (Word(t), Size(t));
      assert NodeBits(t) == w + s * 0x100_0000;
      CompactMeaning(t);
      if t < Bytes(28) {
        CompactBetween(t, 26);
      } else if w + s * 0x100_0000 == 0xffff + 29 * 0x100_0000 {
        PackedInjective(w, s, 0xffff, 29);
      }
    }
  }

  datatype DecodeError = NotUint32 | Negative | Overflow

  datatype Decoded = Target(value: nat) | Failed(error: DecodeError)

  function NodeBitsToTarget(bits: nat): Decoded {
    if bits >= 0x1_0000_0000 then Failed(NotUint32)
    else
      var (size, word) := (bits / 0x100_0000, bits % 0x80_0000);
      var ret := Expand(word, size);
      var kept := if size <= 3 then ret else word;
      if kept != 0 && bits / 0x80_0000 % 2 == 1 then Failed(Negative)
      else if kept != 0 && (size > 34 || (kept > 0xff && size > 33) || (kept > 0xffff && size > 32))
      then Failed(Overflow)
      else Target(ret)
  }

  lemma SignBitClear(word: nat, size: nat)
    requires word <= 0x7fffff
    ensures (word + size * 0x100_0000) % 0x80_0000 == word
    ensures (word + size * 0x100_0000) / 0x80_0000 % 2 == 0
  {
    var bits := word + size * 0x100_0000;
    DivModUnique(bits, 2 * size, word, 0x80_0000);
  }

  /** Whatever ASERT can read the node's decoder reads as the same target. */
  lemma DecodersAgree(bits: nat)
    requires BitsToTarget(bits).Some?
    ensures NodeBitsToTarget(bits) == Target(BitsToTarget(bits).value)
  {
    SignBitClear(bits % 0x100_0000, bits / 0x100_0000);
  }

  /** The node's decoder reads every 256-bit target the node's encoder writes. */
  lemma NodeDecodeOfEncode(t: nat)
    requires 0 < t < Bytes(32)
    ensures NodeBitsToTarget(NodeBits(t)) == Target(Expand(Word(t), Size(t)))
    ensures Expand(Word(t), Size(t)) <= t && (t - Expand(Word(t), Size(t))) * 0x8000 < t
  {
    NodeSizeBound(t);
    CompactMeaning(t);
    ExpandCompact(t);
    var (w, s) := (Word(t), Size(t));
    NodeReadBack(w, s);
    assert NodeBits(t) == w + s * 0x100_0000;
  }

  lemma NodeReadBack(word: nat, size: nat)
    requires 0x8000 <= word <= 0x7fffff && 1 <= size && (size <= 32 || (size == 33 && word <= 0xffff))
    ensures NodeBitsToTarget(word + size * 0x100_0000) == Target(Expand(word, size))
  {
    BitsFields(word, size);
    SignBitClear(word, size);
  }

  lemma NodeSizeBound(t: nat)
    requires 0 < t < Bytes(32)
    ensures Size(t) <= 32 || (Size(t) == 33 && Word(t) <= 0xffff)
  {
    var b := ByteLength(t);
    ByteLengthBounds(t);
    if b > 32 { PowMonotone(256, 32, b - 1); }
    MantissaMeaning(t);
  }
}
