/** Base 58 and base 43 coding of byte strings (electronfittexxcoin/bitcoin.py:549-622,
    electronfittexxcoin/address.py:822-837). */
module BaseCoding {
  import opened Arith
  import opened Digits
  import opened Sequences
  import opened Strings

  const UPPER58 := "ABCDEFGHJKLMN" + "PQRSTUVWXYZ"

  const LOWER58 := "abcdefghijkm" + "nopqrstuvwxyz"

  const CHARS58 := "123456789" + UPPER58 + LOWER58

  const UPPER43 := "ABCDEFGHIJKLM" + "NOPQRSTUVWXYZ"

  const CHARS43 := "0123456789" + UPPER43 + "$*+-./:"

  // ---------------------------------------------------------------- leading zeros

  function LeadingZeros(ds: seq<nat>): (k: nat)
    ensures k <= |ds| && (forall i :: 0 <= i < k ==> ds[i] == 0) && (k < |ds| ==> ds[k] != 0)
  {
    if ds == [] || ds[0] != 0 then 0 else 1 + LeadingZeros(ds[1..])
  }

  function ZeroDigits(k: nat): (ds: seq<nat>)
    ensures |ds| == k && forall i :: 0 <= i < k ==> ds[i] == 0
  {
    seq(k, _ => 0)
  }

  lemma LeadingZerosUnique(ds: seq<nat>, k: nat)
    requires k <= |ds| && (forall i :: 0 <= i < k ==> ds[i] == 0) && (k < |ds| ==> ds[k] != 0)
    ensures LeadingZeros(ds) == k
  {
    var j := LeadingZeros(ds);
    if j < k {} else if k < j {}
  }

  predicate HasNonZero(ds: seq<nat>) { LeadingZeros(ds) < |ds| }

  lemma {:induction false} ZerosDoNotCount(k: nat, ds: seq<nat>, base: nat)
    ensures Value(ZeroDigits(k) + ds, base) == Value(ds, base)
  {
    if ds == [] {
      ValueOfZeros(k, base);
      assert ZeroDigits(k) + [] == ZeroDigits(k);
    } else {
      var h := ds[..|ds| - 1];
      ZerosDoNotCount(k, h, base);
      assert (ZeroDigits(k) + ds)[..k + |h|] == ZeroDigits(k) + h;
    }
  }

  lemma {:induction false} ValueOfZeros(k: nat, base: nat)
    ensures Value(ZeroDigits(k), base) == 0
  {
    if k != 0 {
      ValueOfZeros(k - 1, base);
      assert ZeroDigits(k)[..k - 1] == ZeroDigits(k - 1);
      assert Value(ZeroDigits(k - 1), base) * base == 0;
    }
  }

  // ---------------------------------------------------------------- changing the base

  /** Each leading zero becomes a leading zero; the rest is written as a number in the other base. */
  function Recode(ds: seq<nat>, from: nat, to: nat): (r: seq<nat>)
    requires 2 <= to
    ensures DigitsBelow(r, to)
  {
    ZeroDigits(LeadingZeros(ds)) + DigitsOf(Value(ds, from), to)
  }

  /** Recoding and recoding back gives the same digits exactly when some digit is not zero: an
      all-zero sequence gains a digit each way. */
  lemma RecodeRoundTrip(ds: seq<nat>, from: nat, to: nat)
    requires 2 <= from && 2 <= to && DigitsBelow(ds, from)
    ensures Recode(Recode(ds, from, to), to, from) == ds <==> HasNonZero(ds)
  {
    var (k, n) := (LeadingZeros(ds), Value(ds, from));
    var r := Recode(ds, from, to);
    ZerosDoNotCount(k, DigitsOf(n, to), to);
    ValueOfDigits(n, to);
    if k < |ds| {
      assert ds == ZeroDigits(k) + ds[k..];
      ZerosDoNotCount(k, ds[k..], from);
      ValuePositive(ds[k..], from);
      LeadingZerosUnique(r, k);
      DigitsOfValue(ds[k..], from);
    } else {
      assert ds == ZeroDigits(k);
      ValueOfZeros(k, from);
      LeadingZerosUnique(r, k + 1);
    }
  }

  /** The second encoder writes no digit at all for the number zero. */
  function RecodePlain(ds: seq<nat>, from: nat, to: nat): (r: seq<nat>)
    requires 2 <= to
    ensures DigitsBelow(r, to)
  {
    var n := Value(ds, from);
    ZeroDigits(LeadingZeros(ds)) + (if n == 0 then [] else DigitsOf(n, to))
  }

  /** The two encoders agree exactly on the inputs with a digit other than zero. */
  lemma EncodersAgree(ds: seq<nat>, from: nat, to: nat)
    requires 2 <= from && 2 <= to
    ensures RecodePlain(ds, from, to) == Recode(ds, from, to) <==> HasNonZero(ds)
  {
    var k := LeadingZeros(ds);
    if k < |ds| {
      assert ds == ZeroDigits(k) + ds[k..];
      ZerosDoNotCount(k, ds[k..], from);
      ValuePositive(ds[k..], from);
    } else {
      assert ds == ZeroDigits(k);
      ValueOfZeros(k, from);
    }
  }

  // ---------------------------------------------------------------- strings

  function Alphabet(base: nat): string
    requires base == 58 || base == 43
  {
    if base == 43 then CHARS43 else CHARS58
  }

  ghost predicate Between(s: string, low: char, high: char) {
    forall i :: 0 <= i < |s| ==> low <= s[i] <= high
  }

  lemma UpperDistinct()
    ensures Distinct(UPPER43) && Between(UPPER43, 'A', 'Z')
  {
    var (a, b) := ("ABCDEFGHIJKLM", "NOPQRSTUVWXYZ");
    assert Between(a, 'A', 'M') && Between(b, 'N', 'Z');
    JoinDistinct(a, b);
  }

  lemma Upper58Distinct()
    ensures Distinct(UPPER58) && Between(UPPER58, 'A', 'Z')
  {
    var (a, b) := ("ABCDEFGHJKLMN", "PQRSTUVWXYZ");
    assert Between(a, 'A', 'N') && Between(b, 'P', 'Z');
    JoinDistinct(a, b);
  }

  lemma LowerDistinct()
    ensures Distinct(LOWER58) && Between(LOWER58, 'a', 'z')
  {
    var (a, b) := ("abcdefghijkm", "nopqrstuvwxyz");
    assert Between(a, 'a', 'm') && Between(b, 'n', 'z');
    JoinDistinct(a, b);
  }

  lemma AlphabetsDistinct()
    ensures |CHARS58| == 58 && |CHARS43| == 43 && Distinct(CHARS58) && Distinct(CHARS43)
  {
    UpperDistinct();
    Upper58Distinct();
    LowerDistinct();
    assert Between("123456789", '1', '9') && Between("0123456789", '0', '9');
    JoinDistinct("123456789", UPPER58);
    JoinDistinct("123456789" + UPPER58, LOWER58);
    JoinDistinct("0123456789", UPPER43);
    JoinDistinct("0123456789" + UPPER43, "$*+-./:");
  }

  predicate Digit(c: char) { '0' <= c <= '9' }

  predicate Capital(c: char) { 'A' <= c <= 'Z' }

  predicate Small(c: char) { 'a' <= c <= 'z' }

  ghost predicate Ascending(s: string) { forall i, j :: 0 <= i < j < |s| ==> s[i] < s[j] }

  lemma AscendingJoin(a: string, b: string, low: char, mid: char, next: char, high: char)
    requires Ascending(a) && Ascending(b) && Between(a, low, mid) && Between(b, next, high) && mid < next
    ensures Ascending(a + b)
  {}

  lemma CapitalsToN(c: char)
    ensures var a := "ABCDEFGHJKLMN";
            Ascending(a) && Between(a, 'A', 'N') && (c in a <==> 'A' <= c <= 'N' && c != 'I')
  {}

  lemma CapitalsFromP(c: char)
    ensures var b := "PQRSTUVWXYZ";
            Ascending(b) && Between(b, 'P', 'Z') && (c in b <==> 'P' <= c <= 'Z')
  {}

  lemma SmallToM(c: char)
    ensures var a := "abcdefghijkm";
            Ascending(a) && Between(a, 'a', 'm') && (c in a <==> 'a' <= c <= 'm' && c != 'l')
  {}

  lemma SmallFromN(c: char)
    ensures var b := "nopqrstuvwxyz";
            Ascending(b) && Between(b, 'n', 'z') && (c in b <==> 'n' <= c <= 'z')
  {}

  lemma Upper58Meaning(c: char)
    ensures Ascending(UPPER58) && (c in UPPER58 <==> Capital(c) && c != 'O' && c != 'I')
  {
    CapitalsToN(c);
    CapitalsFromP(c);
    AscendingJoin("ABCDEFGHJKLMN", "PQRSTUVWXYZ", 'A', 'N', 'P', 'Z');
  }

  lemma Lower58Meaning(c: char)
    ensures Ascending(LOWER58) && (c in LOWER58 <==> Small(c) && c != 'l')
  {
    SmallToM(c);
    SmallFromN(c);
    AscendingJoin("abcdefghijkm", "nopqrstuvwxyz", 'a', 'm', 'n', 'z');
  }

  /** Base 58 uses the digits, then the capitals, then the small letters, each in ascending order, without
      0, O, I and l. */
  lemma Alphabet58Meaning(c: char)
    ensures CHARS58 == "123456789" + UPPER58 + LOWER58
    ensures Ascending(UPPER58) && Ascending(LOWER58)
    ensures c in CHARS58 <==> (Digit(c) && c != '0') || (Capital(c) && c != 'O' && c != 'I') || (Small(c) && c != 'l')
  {
    Upper58Meaning(c);
    Lower58Meaning(c);
    assert c in "123456789" <==> Digit(c) && c != '0';
  }

  // ---------------------------------------------------------------- the coders

  /** Sums digits from the least significant one, with a running power of the base. */
  method SumDigits(ds: seq<nat>, base: nat) returns (n: nat)
    ensures n == Value(ds, base)
  {
    n := 0;
    var (power, i) := (1, |ds|);
    assert Pow(base, 0) == 1;
    while i > 0
      invariant 0 <= i <= |ds| && power == Pow(base, |ds| - i) && 0 <= power
      invariant n == Value(ds[i..], base)
    {
      i := i - 1;
      MulMonotone(power, 0, ds[i]);
      ValueCons(ds[i], ds[i + 1..], base);
      assert ds[i..] == [ds[i]] + ds[i + 1..];
      n := n + power * ds[i];
      MulMonotone(base, 0, power);
      power := base * power;
    }
    assert ds[0..] == ds;
  }

  lemma {:induction false} ValueCons(d: nat, ds: seq<nat>, base: nat)
    ensures Value([d] + ds, base) == Pow(base, |ds|) * d + Value(ds, base)
  {
    if ds == [] {
      assert [d] + [] == [d] && [d][..0] == [];
      assert Value([], base) * base == 0;
    } else {
      var h := ds[..|ds| - 1];
      ValueCons(d, h, base);
      ShiftedSum(Pow(base, |h|), d, Value(h, base), base);
      assert ([d] + ds)[..|ds|] == [d] + h;
    }
  }

  lemma ShiftedSum(p: int, d: int, v: int, base: int)
    ensures (p * d + v) * base == (base * p) * d + v * base
  {
    assert (p * d) * base == (base * p) * d;
  }

  /** Digits of n, least significant first, followed by k zero digits and then reversed. */
  method DivideDown(n: nat, base: nat, k: nat) returns (r: seq<nat>)
    requires 2 <= base
    ensures r == ZeroDigits(k) + DigitsOf(n, base)
  {
    var value: nat, result: seq<nat> := n, [];
    while value >= base
      invariant DigitsOf(n, base) == DigitsOf(value, base) + Reversed(result)
      decreases value
    {
      var x := value % base;
      Quotients(value, base);
      ReversedSnoc(result, x);
      Associative(DigitsOf(value / base, base), [x], Reversed(result));
      result := result + [x];
      value := value / base;
    }
    ReversedSnoc(result, value);
    result := result + [value];
    ReversedZeros(result, k);
    r := Reversed(result + ZeroDigits(k));
  }

  method CountLeading(ds: seq<nat>) returns (k: nat)
    ensures k == LeadingZeros(ds)
  {
    k := 0;
    while k < |ds| && ds[k] == 0
      invariant k <= |ds| && forall i :: 0 <= i < k ==> ds[i] == 0
    {
      k := k + 1;
    }
    LeadingZerosUnique(ds, k);
  }

  function BaseEncoded(v: seq<nat>, base: nat): string
    requires base == 58 || base == 43
  {
    AlphabetsDistinct();
    Spell(Recode(v, 256, base), Alphabet(base))
  }

  method BaseEncode(v: seq<nat>, base: nat) returns (s: string)
    requires base == 58 || base == 43
    ensures s == BaseEncoded(v, base)
  {
    AlphabetsDistinct();
    var n := SumDigits(v, 256);
    var k := CountLeading(v);
    var digits := DivideDown(n, base, k);
    s := Spell(digits, Alphabet(base));
  }

  datatype Decoded = Bytes(value: seq<nat>) | WrongLength | Forbidden

  function BaseDecoded(s: string, length: int, base: nat): Decoded
    requires base == 58 || base == 43
  {
    if !Spelled(s, Alphabet(base)) then Forbidden
    else
      var r := Recode(Unspell(s, Alphabet(base)), base, 256);
      if length >= 0 && |r| != length then WrongLength else Bytes(r)
  }

  /** The digit of each character, unless one is not in the alphabet. */
  method ReadDigits(s: string, chars: string) returns (ok: bool, digits: seq<nat>)
    ensures ok <==> Spelled(s, chars)
    ensures ok ==> digits == Unspell(s, chars)
  {
    digits := [];
    for i := 0 to |s|
      invariant |digits| == i && forall j :: 0 <= j < i ==> s[j] in chars && digits[j] == Find(chars, s[j])
    {
      var digit := Find(chars, s[i]);
      if digit < 0 { return false, []; }
      digits := digits + [digit];
    }
    ok := true;
  }

  /** A negative length stands for no length given. */
  method BaseDecode(s: string, length: int, base: nat) returns (d: Decoded)
    requires base == 58 || base == 43
    ensures d == BaseDecoded(s, length, base)
  {
    var ok, digits := ReadDigits(s, Alphabet(base));
    if !ok { return Forbidden; }
    var n := SumDigits(digits, base);
    var k := CountLeading(digits);
    var r := DivideDown(n, 256, k);
    return if length >= 0 && |r| != length then WrongLength else Bytes(r);
  }

  /** Decoding undoes encoding exactly for byte strings with a byte other than zero. */
  lemma DecodeOfEncode(v: seq<nat>, base: nat)
    requires (base == 58 || base == 43) && DigitsBelow(v, 256)
    ensures BaseDecoded(BaseEncoded(v, base), -1, base) == Bytes(v) <==> HasNonZero(v)
    ensures HasNonZero(v) ==> BaseDecoded(BaseEncoded(v, base), |v|, base) == Bytes(v)
  {
    AlphabetsDistinct();
    UnspellSpell(Recode(v, 256, base), Alphabet(base));
    RecodeRoundTrip(v, 256, base);
  }

  /** Encoding undoes decoding exactly for accepted strings with a symbol other than the zero one. */
  lemma EncodeOfDecode(s: string, base: nat)
    requires (base == 58 || base == 43) && Spelled(s, Alphabet(base))
    ensures BaseDecoded(s, -1, base).Bytes?
    ensures BaseEncoded(BaseDecoded(s, -1, base).value, base) == s <==> exists i :: 0 <= i < |s| && s[i] != Alphabet(base)[0]
  {
    AlphabetsDistinct();
    var ds := Unspell(s, Alphabet(base));
    SpellUnspell(s, Alphabet(base));
    RecodeRoundTrip(ds, base, 256);
    UnspellSpell(Recode(Recode(ds, base, 256), 256, base), Alphabet(base));
    forall i | 0 <= i < |s| ensures ds[i] == 0 <==> s[i] == Alphabet(base)[0] {
      FindOwn(Alphabet(base), 0);
    }
    var k := LeadingZeros(ds);
    if k < |ds| { assert s[k] != Alphabet(base)[0]; }
  }

  function PlainEncoded58(v: seq<nat>): string {
    AlphabetsDistinct();
    Spell(RecodePlain(v, 256, 58), CHARS58)
  }

  /** Digits of n, least significant first; the number zero has none. */
  method DivideToZero(n: nat, base: nat) returns (digits: seq<nat>)
    requires 2 <= base
    ensures DigitsBelow(digits, base) && Reversed(digits) == PlainDigits(n, base)
  {
    var value := n;
    digits := [];
    while value != 0
      invariant 0 <= value && DigitsBelow(digits, base)
      invariant PlainDigits(n, base) == PlainDigits(value, base) + Reversed(digits)
      decreases value
    {
      var x := value % base;
      PlainStep(value, base);
      ReversedSnoc(digits, x);
      Associative(PlainDigits(value / base, base), [x], Reversed(digits));
      digits := digits + [x];
      value := value / base;
    }
  }

  /** The second Base58 encoder. */
  method Encode58(v: seq<nat>) returns (s: string)
    ensures s == PlainEncoded58(v)
  {
    AlphabetsDistinct();
    var digits := DivideToZero(Value(v, 256), 58);
    var k := CountLeading(v);
    ReversedZeros(digits, k);
    s := Spell(Reversed(digits + ZeroDigits(k)), CHARS58);
  }

  lemma ReversedZeros(ds: seq<nat>, k: nat)
    ensures Reversed(ds + ZeroDigits(k)) == ZeroDigits(k) + Reversed(ds)
  {}

  /** The two independent Base58 encoders agree exactly on inputs with a byte other than zero. */
  lemma Base58EncodersAgree(v: seq<nat>)
    ensures PlainEncoded58(v) == BaseEncoded(v, 58) <==> HasNonZero(v)
  {
    AlphabetsDistinct();
    EncodersAgree(v, 256, 58);
    UnspellSpell(RecodePlain(v, 256, 58), CHARS58);
    UnspellSpell(Recode(v, 256, 58), CHARS58);
  }
}
