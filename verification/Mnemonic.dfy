/** Seed phrases: the BIP39 checksum and the Electrum word coding
    (electronfittexxcoin/mnemonic.py:338-396, electronfittexxcoin/mnemonic.py:415-430). */
module Mnemonic {
  import opened Arith
  import opened BitStrings
  import opened Digits
  import opened Sequences
  import opened Strings

  // ---------------------------------------------------------------- phrases and words

  predicate Space(c: char): (r: bool)
    ensures r <==> c as int in {9, 10, 11, 12, 13, 28, 29, 30, 31, 32}
  {
    '\t' <= c <= '\r' || 28 <= c as int <= 32
  }

  predicate IsWord(w: string) { w != "" && forall i :: 0 <= i < |w| ==> !Space(w[i]) }

  function Join(ws: seq<string>): string {
    if ws == [] then "" else if |ws| == 1 then ws[0] else ws[0] + " " + Join(ws[1..])
  }

  /** Length of the word that s begins with. */
  function WordLength(s: string): (k: nat)
    ensures k <= |s|
    ensures s != "" && !Space(s[0]) ==> k > 0
  {
    if s == "" || Space(s[0]) then 0 else 1 + WordLength(s[1..])
  }

  /** Words separated by any runs of white space. */
  function Split(s: string): seq<string>
    decreases |s|
  {
    if s == "" then []
    else if Space(s[0]) then Split(s[1..])
    else var k := WordLength(s); [s[..k]] + Split(s[k..])
  }

  lemma {:induction false} FirstWord(w: string, rest: string)
    requires (forall i :: 0 <= i < |w| ==> !Space(w[i])) && (rest == "" || Space(rest[0]))
    ensures WordLength(w + rest) == |w|
  {
    if w == "" {
      assert w + rest == rest;
    } else {
      FirstWord(w[1..], rest);
      assert (w + rest)[1..] == w[1..] + rest;
    }
  }

  lemma {:induction false} SplitOfJoin(ws: seq<string>)
    requires forall i :: 0 <= i < |ws| ==> IsWord(ws[i])
    ensures Split(Join(ws)) == ws
  {
    if ws != [] {
      var (w, s) := (ws[0], Join(ws));
      SplitOfJoin(ws[1..]);
      assert ws == [w] + ws[1..];
      if |ws| == 1 {
        FirstWord(w, "");
        assert w + "" == w && s == w && s[|w|..] == "";
      } else {
        var rest := " " + Join(ws[1..]);
        FirstWord(w, rest);
        assert s == w + rest && s[..|w|] == w && s[|w|..] == rest && rest[1..] == Join(ws[1..]);
        assert s[0] == w[0];
      }
    }
  }

  // ---------------------------------------------------------------- word lists

  /** At least two different words. */
  ghost predicate WordList(words: seq<string>) {
    && |words| >= 2
    && (forall i :: 0 <= i < |words| ==> IsWord(words[i]))
    && Distinct(words)
  }

  lemma WordsOfPhrase(ds: seq<nat>, words: seq<string>)
    requires WordList(words) && DigitsBelow(ds, |words|)
    ensures Spelled(Spell(ds, words), words) && Unspell(Spell(ds, words), words) == ds
    ensures Split(Join(Spell(ds, words))) == Spell(ds, words)
  {
    UnspellSpell(ds, words);
    SplitOfJoin(Spell(ds, words));
  }

  // ---------------------------------------------------------------- bytes as bits

  /** A hash function with 32-byte digests. */
  ghost predicate Digest(sha: seq<nat> -> seq<nat>) {
    forall data :: |sha(data)| == 32 && Fits(sha(data), 8)
  }

  /** The last n base-256 digits of e. */
  function ToBytes(e: nat, n: nat): (data: seq<nat>)
    ensures |data| == n
  {
    if n == 0 then [] else ToBytes(e / 256, n - 1) + [e % 256]
  }

  lemma {:induction false} ToBytesFit(e: nat, n: nat)
    ensures Fits(ToBytes(e, n), 8)
  {
    assert Pow(2, 8) == 256;
    if n != 0 { ToBytesFit(e / 256, n - 1); }
  }

  lemma {:induction false} ToBytesBits(e: nat, n: nat, w: nat)
    requires w == 8 * n
    ensures Flat(ToBytes(e, n), 8) == BitsOf(e, w)
  {
    if n != 0 {
      ToBytesBits(e / 256, n - 1, w - 8);
      LowByte(ToBytes(e / 256, n - 1), e, w);
    } else {
      assert BitsOf(e, 0) == [];
    }
  }

  lemma LowByte(high: seq<nat>, e: nat, w: nat)
    requires 8 <= w && Flat(high, 8) == BitsOf(e / 256, w - 8)
    ensures Flat(high + [e % 256], 8) == BitsOf(e, w)
  {
    assert Pow(2, 8) == 256;
    LowGroup(high, e, w, 8, 256);
  }

  lemma LowGroup(high: seq<nat>, e: nat, w: nat, k: nat, p: nat)
    requires k <= w && p == Pow(2, k) && p > 0 && 0 <= e / p && Flat(high, k) == BitsOf(e / p, w - k)
    ensures 0 <= e % p && Flat(high + [e % p], k) == BitsOf(e, w)
  {
    BitsOfHalves(e, w, k);
    FlatSnoc(high, e % p, k);
  }

  /** The number written by digits of w bits is the number written by all their bits. */
  lemma {:induction false} ValueOfFlat(ds: seq<nat>, w: nat, base: nat)
    requires Fits(ds, w) && base == Pow(2, w)
    ensures ValueOf(Flat(ds, w)) == Value(ds, base)
  {
    if ds != [] {
      var h := ds[..|ds| - 1];
      ValueOfFlat(h, w, base);
      ValueOfAppend(Flat(h, w), BitsOf(ds[|ds| - 1], w));
      ValueOfBits(ds[|ds| - 1], w);
    }
  }

  /** Shifting and masking a number split its bits. */
  lemma ShiftAndMask(s: Bits, k: nat)
    requires k <= |s|
    ensures 0 < Pow(2, k)
    ensures ValueOf(s) / Pow(2, k) == ValueOf(s[..|s| - k])
    ensures ValueOf(s) % Pow(2, k) == ValueOf(s[|s| - k..])
  {
    assert s == s[..|s| - k] + s[|s| - k..];
    JoinedDivMod(s[..|s| - k], s[|s| - k..]);
  }

  lemma JoinedDivMod(h: Bits, t: Bits)
    ensures var p := Pow(2, |t|); 0 < p && ValueOf(h + t) / p == ValueOf(h) && ValueOf(h + t) % p == ValueOf(t)
  {
    PowPositive(2, |t|);
    ValueOfAppend(h, t);
    BitsOfValue(t);
    DivModUnique(ValueOf(h + t), ValueOf(h), ValueOf(t), Pow(2, |t|));
  }

  // ---------------------------------------------------------------- BIP39

  /** Entropy of the five supported sizes: four bytes for every checksum bit. */
  ghost predicate Entropy(data: seq<nat>, c: nat) {
    4 <= c <= 8 && |data| == 4 * c && Fits(data, 8)
  }

  /** Entropy bits followed by the first c bits of their hash. */
  function SeedBits(data: seq<nat>, c: nat, sha: seq<nat> -> seq<nat>): Bits
    requires |sha(data)| == 32 && c <= 256
  {
    TimesIs(32, 8);
    Flat(data, 8) + Flat(sha(data), 8)[..c]
  }

  /** The words of a phrase spell the seed bits, eleven bits a word. */
  ghost predicate Spells(ws: seq<string>, words: seq<string>, data: seq<nat>, c: nat, sha: seq<nat> -> seq<nat>)
    requires |words| == 2048 && Digest(sha) && c <= 256
  {
    Spelled(ws, words) && |ws| == 3 * c && Flat(Unspell(ws, words), 11) == SeedBits(data, c, sha)
  }

  lemma SeedBitsLength(data: seq<nat>, c: nat, sha: seq<nat> -> seq<nat>)
    requires Entropy(data, c) && Digest(sha)
    ensures |SeedBits(data, c, sha)| == 33 * c == Times(3 * c, 11)
  {
    TimesIs(32, 8);
    TimesIs(4 * c, 8);
    TimesIs(3 * c, 11);
  }

  lemma NextGroup(b: Bits, i: nat, indices: seq<nat>)
    requires (i + 1) * 11 <= |b| && Flat(indices, 11) == b[..i * 11]
    ensures var d := ValueOf(b[i * 11..(i + 1) * 11]); d < 2048 && Flat(indices + [d], 11) == b[..(i + 1) * 11]
  {
    var group := b[i * 11..(i + 1) * 11];
    assert Pow(2, 11) == 2048;
    BitsOfValue(group);
    FlatSnoc(indices, ValueOf(group), 11);
    assert b[..(i + 1) * 11] == b[..i * 11] + group;
  }

  /** Eleven bits choose a word. */
  method CutIntoWords(b: Bits, words: seq<string>) returns (result: seq<string>)
    requires WordList(words) && |words| == 2048 && |b| % 11 == 0
    ensures Spelled(result, words) && |result| == |b| / 11 && Flat(Unspell(result, words), 11) == b
    ensures Split(Join(result)) == result
  {
    ghost var indices: seq<nat> := [];
    result := [];
    for i := 0 to |b| / 11
      invariant |indices| == i && DigitsBelow(indices, 2048) && result == Spell(indices, words)
      invariant Flat(indices, 11) == b[..i * 11]
    {
      var group := b[i * 11..(i + 1) * 11];
      NextGroup(b, i, indices);
      indices := indices + [ValueOf(group)];
      result := result + [words[ValueOf(group)]];
    }
    assert b[..|b|] == b;
    WordsOfPhrase(indices, words);
  }

  /** Makes the phrase of some entropy drawn by the caller. */
  method Inner(data: seq<nat>, words: seq<string>, sha: seq<nat> -> seq<nat>) returns (phrase: string)
    requires WordList(words) && |words| == 2048 && Digest(sha) && Entropy(data, |data| / 4)
    ensures Spells(Split(phrase), words, data, |data| / 4, sha)
  {
    SeedBitsLength(data, |data| / 4, sha);
    TimesIs(32, 8);
    var b := Flat(data, 8) + Flat(sha(data), 8)[..|data| * 8 / 32];
    var result := CutIntoWords(b, words);
    phrase := Join(result);
  }

  datatype Validity = Validity(checksum: bool, wordlist: bool)

  /** A phrase passes exactly when some entropy is spelled by its words. */
  ghost predicate Passes(ws: seq<string>, words: seq<string>, sha: seq<nat> -> seq<nat>)
    requires |words| == 2048 && Digest(sha)
  {
    exists data, c: nat :: Entropy(data, c) && Spells(ws, words, data, c, sha)
  }

  /** The comparison the checksum test makes on the number i of 3*c words. */
  predicate ChecksumMatches(i: nat, c: nat, sha: seq<nat> -> seq<nat>)
    requires c <= 256
  {
    PowPositive(2, c);
    PowPositive(2, 256 - c);
    DivBounds(i, Pow(2, c), 0);
    i % Pow(2, c) == Value(sha(ToBytes(i / Pow(2, c), 4 * c)), 256) / Pow(2, 256 - c)
  }

  /** Bytes read from the leading bits are those bits. */
  lemma LeadingBytes(e: Bits, n: nat)
    requires |e| == 8 * n
    ensures Flat(ToBytes(ValueOf(e), n), 8) == e && Fits(ToBytes(ValueOf(e), n), 8)
  {
    ToBytesBits(ValueOf(e), n, |e|);
    ToBytesFit(ValueOf(e), n);
    BitsOfValue(e);
  }

  /** The calculated checksum is the number of the first bits of the digest. */
  lemma DigestTop(digest: seq<nat>, c: nat)
    requires |digest| == 32 && Fits(digest, 8) && c <= 256
    ensures |Flat(digest, 8)| == 256 && 0 < Pow(2, 256 - c)
    ensures Value(digest, 256) / Pow(2, 256 - c) == ValueOf(Flat(digest, 8)[..c])
  {
    TimesIs(32, 8);
    assert Pow(2, 8) == 256;
    ValueOfFlat(digest, 8, 256);
    ShiftAndMask(Flat(digest, 8), 256 - c);
  }

  lemma EqualBits(s: Bits, t: Bits)
    requires |s| == |t|
    ensures ValueOf(s) == ValueOf(t) <==> s == t
  {
    BitsOfValue(s);
    BitsOfValue(t);
  }

  lemma EqualTails(e: Bits, k: Bits, h: Bits)
    ensures e + k == e + h <==> k == h
  {
    if e + k == e + h { assert k == (e + k)[|e|..] == (e + h)[|e|..] == h; }
  }

  /** The arithmetic comparison is a comparison of bits. */
  lemma MatchIsEqualBits(e: Bits, k: Bits, c: nat, sha: seq<nat> -> seq<nat>)
    requires 4 <= c <= 8 && |e| == 32 * c && |k| == c && Digest(sha)
    ensures var data := ToBytes(ValueOf(e), 4 * c);
            ChecksumMatches(ValueOf(e + k), c, sha) <==> e + k == SeedBits(data, c, sha)
  {
    var data := ToBytes(ValueOf(e), 4 * c);
    JoinedDivMod(e, k);
    LeadingBytes(e, 4 * c);
    DigestTop(sha(data), c);
    EqualBits(k, Flat(sha(data), 8)[..c]);
    EqualTails(e, k, Flat(sha(data), 8)[..c]);
  }

  /** Entropy spelled by a phrase can only be its leading bits. */
  lemma SpelledEntropy(ws: seq<string>, words: seq<string>, data: seq<nat>, c: nat, sha: seq<nat> -> seq<nat>)
    requires |words| == 2048 && Digest(sha) && Entropy(data, c) && Spells(ws, words, data, c, sha)
    ensures var b := Flat(Unspell(ws, words), 11); |b| == 33 * c && data == ToBytes(ValueOf(b[..32 * c]), 4 * c)
  {
    var b := Flat(Unspell(ws, words), 11);
    SeedBitsLength(data, c, sha);
    TimesIs(4 * c, 8);
    var e := b[..32 * c];
    assert e == Flat(data, 8);
    LeadingBytes(e, 4 * c);
    FlatInjective(data, ToBytes(ValueOf(e), 4 * c), 8);
  }

  lemma PhraseBits(ws: seq<string>, words: seq<string>, c: nat)
    requires |words| == 2048 && Spelled(ws, words) && |ws| == 3 * c
    ensures var b := Flat(Unspell(ws, words), 11);
            |b| == 33 * c && ValueOf(b) == Value(Unspell(ws, words), 2048) && b == b[..32 * c] + b[32 * c..]
  {
    assert Pow(2, 11) == 2048;
    ValueOfFlat(Unspell(ws, words), 11, 2048);
    TimesIs(3 * c, 11);
  }

  lemma PassesIsMatch(ws: seq<string>, words: seq<string>, c: nat, sha: seq<nat> -> seq<nat>)
    requires |words| == 2048 && Digest(sha) && Spelled(ws, words)
    requires 4 <= c <= 8 && |ws| == 3 * c
    ensures Passes(ws, words, sha) <==> ChecksumMatches(Value(Unspell(ws, words), 2048), c, sha)
  {
    var b := Flat(Unspell(ws, words), 11);
    PhraseBits(ws, words, c);
    var e := b[..32 * c];
    MatchIsEqualBits(e, b[32 * c..], c, sha);
    var own := ToBytes(ValueOf(e), 4 * c);
    if data, d: nat :| Entropy(data, d) && Spells(ws, words, data, d, sha) {
      SpelledEntropy(ws, words, data, d, sha);
    }
    if b == SeedBits(own, c, sha) {
      LeadingBytes(e, 4 * c);
      assert Entropy(own, c) && Spells(ws, words, own, c, sha);
    }
  }

  lemma PassingShape(ws: seq<string>, words: seq<string>, sha: seq<nat> -> seq<nat>)
    requires |words| == 2048 && Digest(sha)
    ensures Passes(ws, words, sha) ==> Spelled(ws, words) && |ws| in {12, 15, 18, 21, 24}
  {
    if Passes(ws, words, sha) {
      var data, c: nat :| Entropy(data, c) && Spells(ws, words, data, c, sha);
      assert |ws| == 3 * c && c in {4, 5, 6, 7, 8};
    }
  }

  /** The words read as one number, the first word most significant. */
  method NumberOfWords(ws: seq<string>, words: seq<string>) returns (listed: bool, i: nat)
    ensures listed <==> Spelled(ws, words)
    ensures listed ==> i == Value(Unspell(ws, words), |words|)
  {
    i := 0;
    for k := 0 to |ws|
      invariant Spelled(ws[..k], words) && i == Value(Unspell(ws[..k], words), |words|)
    {
      if ws[k] !in words { return false, 0; }
      var x := Find(words, ws[k]);
      assert ws[..k + 1] == ws[..k] + [ws[k]];
      assert Unspell(ws[..k + 1], words) == Unspell(ws[..k], words) + [x];
      ValueSnoc(Unspell(ws[..k], words), x, |words|);
      MulMonotone(|words|, 0, i);
      i := i * |words| + x;
    }
    assert ws[..|ws|] == ws;
    listed := true;
  }

  method CompareChecksum(i: nat, checksumLength: nat, entropyLength: nat, sha: seq<nat> -> seq<nat>) returns (ok: bool)
    requires checksumLength <= 256 && entropyLength == 32 * checksumLength
    ensures ok == ChecksumMatches(i, checksumLength, sha)
  {
    PowPositive(2, checksumLength);
    PowPositive(2, 256 - checksumLength);
    DivBounds(i, Pow(2, checksumLength), 0);
    var entropy := i / Pow(2, checksumLength);
    var checksum := i % Pow(2, checksumLength);
    var hashed := Value(sha(ToBytes(entropy, entropyLength / 8)), 256);
    var calculated := hashed / Pow(2, 256 - checksumLength);
    ok := checksum == calculated;
  }

  /** The test accepts exactly the phrases that spell some entropy and its checksum; it reports an unknown
      word apart from a wrong checksum. The text is the normalised one. */
  method IsChecksumValid(text: string, words: seq<string>, sha: seq<nat> -> seq<nat>) returns (v: Validity)
    requires WordList(words) && |words| == 2048 && Digest(sha)
    ensures v.checksum <==> Passes(Split(text), words, sha)
    ensures v.wordlist <==> Spelled(Split(text), words)
  {
    var ws := Split(text);
    var listed, i := NumberOfWords(ws, words);
    PassingShape(ws, words, sha);
    if !listed { return Validity(false, false); }
    if |ws| != 12 && |ws| != 15 && |ws| != 18 && |ws| != 21 && |ws| != 24 {
      return Validity(false, true);
    }
    var checksumLength := 11 * |ws| / 33;
    var entropyLength := 32 * checksumLength;
    var matches := CompareChecksum(i, checksumLength, entropyLength, sha);
    PassesIsMatch(ws, words, checksumLength, sha);
    v := Validity(matches, true);
  }

  /** Every phrase made from supported entropy passes the test. */
  method MadePhrasePasses(data: seq<nat>, words: seq<string>, sha: seq<nat> -> seq<nat>) returns (v: Validity)
    requires WordList(words) && |words| == 2048 && Digest(sha) && Entropy(data, |data| / 4)
    ensures v == Validity(true, true)
  {
    var phrase := Inner(data, words, sha);
    v := IsChecksumValid(phrase, words, sha);
  }

  // ---------------------------------------------------------------- Electrum coding

  /** Words of i, least significant first; the number zero has none. */
  function Encoded(i: nat, words: seq<string>): seq<string>
    requires WordList(words)
  {
    Spell(Reversed(PlainDigits(i, |words|)), words)
  }

  datatype Decoded = Number(value: nat) | UnknownWord

  function DecodedWords(ws: seq<string>, words: seq<string>): Decoded {
    if Spelled(ws, words) then Number(Value(Reversed(Unspell(ws, words)), |words|)) else UnknownWord
  }

  method MnemonicEncode(number: nat, words: seq<string>) returns (phrase: string)
    requires WordList(words)
    ensures phrase == Join(Encoded(number, words))
  {
    var n := |words|;
    var i := number;
    var result: seq<string> := [];
    ghost var digits: seq<nat> := [];
    while i != 0
      invariant 0 <= i && DigitsBelow(digits, n) && result == Spell(digits, words)
      invariant PlainDigits(number, n) == PlainDigits(i, n) + Reversed(digits)
    {
      PlainStep(i, n);
      var x := i % n;
      assert Reversed(digits + [x]) == [x] + Reversed(digits);
      assert PlainDigits(i, n) + Reversed(digits) == PlainDigits(i / n, n) + ([x] + Reversed(digits));
      digits := digits + [x];
      result := result + [words[x]];
      i := i / n;
    }
    assert digits == Reversed(PlainDigits(number, n));
    phrase := Join(result);
  }

  /** A word before the others adds a least significant digit. */
  lemma OneMoreWord(ws: seq<string>, k: nat, words: seq<string>)
    requires k < |ws| && Spelled(ws[k + 1..], words) && ws[k] in words
    ensures Spelled(ws[k..], words)
    ensures Value(Reversed(Unspell(ws[k..], words)), |words|)
         == Value(Reversed(Unspell(ws[k + 1..], words)), |words|) * |words| + Find(words, ws[k])
  {
    TakeOneMore(ws, k);
    var (x, ds) := (Find(words, ws[k]), Unspell(ws[k + 1..], words));
    FirstIndex(ws[k], ws[k + 1..], words);
    ReversedCons(x, ds);
    ValueSnoc(Reversed(ds), x, |words|);
  }

  lemma FirstIndex(w: string, ws: seq<string>, words: seq<string>)
    requires Spelled(ws, words) && w in words
    ensures Spelled([w] + ws, words) && Unspell([w] + ws, words) == [Find(words, w)] + Unspell(ws, words)
  {}

  method MnemonicDecode(seed: string, words: seq<string>) returns (d: Decoded)
    requires WordList(words)
    ensures d == DecodedWords(Split(seed), words)
  {
    var ws := Split(seed);
    var i: nat := 0;
    var k := |ws|;
    TakeAll(ws);
    while k > 0
      invariant 0 <= i && 0 <= k <= |ws| && Spelled(ws[k..], words)
      invariant i == Value(Reversed(Unspell(ws[k..], words)), |words|)
    {
      k := k - 1;
      if ws[k] !in words { return UnknownWord; }
      OneMoreWord(ws, k, words);
      i := i * |words| + Find(words, ws[k]);
    }
    TakeAll(ws);
    d := Number(i);
  }

  /** Decoding undoes encoding for every natural number. */
  lemma DecodeOfEncode(i: nat, words: seq<string>)
    requires WordList(words)
    ensures DecodedWords(Split(Join(Encoded(i, words))), words) == Number(i)
  {
    var ds := PlainDigits(i, |words|);
    WordsOfPhrase(Reversed(ds), words);
    assert Reversed(Reversed(ds)) == ds;
    if i != 0 { ValueOfDigits(i, |words|); }
  }

  /** Encoding undoes decoding exactly when the last word is not the first of the list, which is a
      leading zero. */
  lemma EncodeOfDecode(ws: seq<string>, words: seq<string>)
    requires WordList(words) && Spelled(ws, words)
    ensures Encoded(DecodedWords(ws, words).value, words) == ws <==> ws == [] || ws[|ws| - 1] != words[0]
  {
    var ds := Reversed(Unspell(ws, words));
    var n := Value(ds, |words|);
    SpellUnspell(ws, words);
    assert Reversed(ds) == Unspell(ws, words);
    if ws != [] {
      if ds[0] != 0 {
        DigitsOfValue(ds, |words|);
        ValuePositive(ds, |words|);
        assert ws[|ws| - 1] == words[ds[0]];
      } else {
        ValueOfDigits(n, |words|);
        var digits := Reversed(PlainDigits(n, |words|));
        WordsOfPhrase(digits, words);
        if digits != [] { assert digits[|digits| - 1] != 0; }
      }
    }
  }
}
