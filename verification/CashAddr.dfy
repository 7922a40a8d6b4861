/** CashAddr strings (electronfittexxcoin/cashaddr.py). Case mapping is that of the ASCII letters. */
module CashAddr {
  import opened Arith
  import opened BitStrings
  import opened ConvertBits
  import opened CashAddrChecksum
  import opened Digits
  import opened Sequences
  import opened Strings

  datatype Error =
    | MixedCase | MissingSeparator | MissingPrefix | BadPrefix | BadLength | BadCharacter | BadChecksum
    | EmptyPayload | ExcessPadding | NonZeroPadding | WrongHashSize | BadKind

  datatype Result<T> = Ok(value: T) | Err(error: Error)

  datatype Address = Address(prefix: string, kind: int, hash: seq<nat>)

  const CHARSET := "qpzry9x8gf2tvdw0s3jn54khce6mua7l"

  // ---------------------------------------------------------------- characters

  function LowerChar(c: char): char {
    if 'A' <= c <= 'Z' then (c as int + 32) as char else c
  }

  function UpperChar(c: char): char {
    if 'a' <= c <= 'z' then (c as int - 32) as char else c
  }

  function Lower(s: string): (r: string)
    ensures |r| == |s| && forall i :: 0 <= i < |s| ==> r[i] == LowerChar(s[i])
  {
    seq(|s|, i requires 0 <= i < |s| => LowerChar(s[i]))
  }

  function Upper(s: string): (r: string)
    ensures |r| == |s| && forall i :: 0 <= i < |s| ==> r[i] == UpperChar(s[i])
  {
    seq(|s|, i requires 0 <= i < |s| => UpperChar(s[i]))
  }

  lemma CharsetDistinct()
    ensures |CHARSET| == 32 && Distinct(CHARSET)
  {
    HalvesDistinct();
    HalvesApart();
    JoinDistinct("qpzry9x8gf2tvdw0", "s3jn54khce6mua7l");
  }

  lemma HalvesDistinct()
    ensures Distinct("qpzry9x8gf2tvdw0") && Distinct("s3jn54khce6mua7l")
  {}

  lemma HalvesApart()
    ensures var (a, b) := ("qpzry9x8gf2tvdw0", "s3jn54khce6mua7l");
            forall i, j :: 0 <= i < |a| && 0 <= j < |b| ==> a[i] != b[j]
  {}

  lemma CharsetLower()
    ensures forall i :: 0 <= i < 32 ==> LowerChar(CHARSET[i]) == CHARSET[i] && CHARSET[i] != ':'
  {}

  /** Letters of either case, and digits, by their low five bits; then a separator. */
  function PrefixExpand(prefix: string): (r: seq<nat>)
    ensures |r| == |prefix| + 1
  {
    seq(|prefix|, i requires 0 <= i < |prefix| => prefix[i] as int % 32) + [0]
  }

  function CharsOf(data: seq<nat>): (s: string)
    requires Fits(data, 5)
    ensures |s| == |data|
  {
    FitsAreDigits(data);
    Spell(data, CHARSET)
  }

  function SymbolsOf(payload: string): (data: seq<nat>)
    requires Spelled(payload, CHARSET)
    ensures |data| == |payload| && Fits(data, 5)
  {
    FitsAreDigits(Unspell(payload, CHARSET));
    Unspell(payload, CHARSET)
  }

  lemma FitsAreDigits(data: seq<nat>)
    ensures Fits(data, 5) <==> DigitsBelow(data, |CHARSET|)
  {
    assert Pow(2, 5) == 32 == |CHARSET|;
  }

  lemma SymbolsOfChars(data: seq<nat>)
    requires Fits(data, 5)
    ensures Spelled(CharsOf(data), CHARSET)
    ensures SymbolsOf(CharsOf(data)) == data
    ensures Lower(CharsOf(data)) == CharsOf(data)
  {
    CharsetDistinct();
    CharsetLower();
    FitsAreDigits(data);
    UnspellSpell(data, CHARSET);
  }

  lemma CharsOfSymbols(payload: string)
    requires Spelled(payload, CHARSET)
    ensures CharsOf(SymbolsOf(payload)) == payload
  {
    SpellUnspell(payload, CHARSET);
  }

  // ---------------------------------------------------------------- encoding

  /** `4 | q`. */
  function OrFour(q: nat): nat { if q / 4 % 2 == 1 then q else q + 4 }

  /** The size field of the version byte. */
  function SizeField(length: nat): Result<nat> {
    if length < 20 then Err(WrongHashSize)
    else
      var offset := if length >= 40 then 2 else 1;
      var q := (length - 20 * offset) / (4 * offset);
      var field := if length >= 40 then OrFour(q) else q;
      if (length - 20 * offset) % (4 * offset) != 0 || field > 7 then Err(WrongHashSize) else Ok(field)
  }

  function PackAddrData(kind: int, hash: seq<nat>): Result<seq<nat>> {
    var field := SizeField(|hash|);
    if field.Err? then Err(field.error)
    else
      var version := kind * 8 + field.value;
      if !(0 <= version < 256) then Err(BadKind) else Ok(Regrouped([version] + hash, 8, 5, true))
  }

  predicate KnownKind(kind: int) { 0 <= kind <= 3 }

  function Encode(prefix: string, kind: int, hash: seq<nat>, checktype: bool): Result<string>
    requires Fits(hash, 8)
  {
    if checktype && !KnownKind(kind) then Err(BadKind)
    else
      var payload := PackAddrData(kind, hash);
      if payload.Err? then Err(payload.error)
      else
        PackedFits(kind, hash);
        ChecksumFits(PrefixExpand(prefix) + payload.value);
        Ok(CharsOf(payload.value + Checksum(PrefixExpand(prefix) + payload.value)))
  }

  function EncodeFull(prefix: string, kind: int, hash: seq<nat>, checktype: bool): Result<string>
    requires Fits(hash, 8)
  {
    var body := Encode(prefix, kind, hash, checktype);
    if body.Err? then body else Ok(prefix + ":" + body.value)
  }

  lemma ChecksumFits(values: seq<nat>)
    ensures Fits(Checksum(values), 5)
  {
    PowPositive(2, 5);
    ChecksumUnique(values, [0, 0, 0, 0, 0, 0, 0, 0]);
  }

  lemma PackedFits(kind: int, hash: seq<nat>)
    requires Fits(hash, 8) && PackAddrData(kind, hash).Ok?
    ensures Fits(PackAddrData(kind, hash).value, 5)
  {
    var version := PackedShape(kind, hash);
    VersionFits(version, hash);
    PackUnpack([version] + hash);
  }

  lemma PackedShape(kind: int, hash: seq<nat>) returns (version: nat)
    requires PackAddrData(kind, hash).Ok?
    ensures version < 256 && PackAddrData(kind, hash).value == Regrouped([version] + hash, 8, 5, true)
  {
    version := kind * 8 + SizeField(|hash|).value;
  }

  // ---------------------------------------------------------------- decoding

  /** An address cut at its first separator: prefix and body in lower case, and the prefix to
      report. */
  datatype Parts = Parts(prefix: string, body: string, reported: string)

  function SplitAddress(addr: string): Result<Parts> {
    var lower := Lower(addr);
    if lower != addr && Upper(addr) != addr then Err(MixedCase)
    else
      var k := Find(lower, ':');
      if k == -1 then Err(MissingSeparator)
      else
        var prefix := lower[..k];
        Ok(Parts(prefix, lower[k + 1..], if lower != addr then Upper(prefix) else prefix))
  }

  predicate Printable(prefix: string) { forall i :: 0 <= i < |prefix| ==> 33 <= prefix[i] as int <= 126 }

  /** The payload symbols of a body whose checksum holds. */
  function CheckedSymbols(prefix: string, body: string): (r: Result<seq<nat>>)
    ensures r.Ok? ==> Fits(r.value, 5)
  {
    if prefix == "" then Err(MissingPrefix)
    else if !Printable(prefix) then Err(BadPrefix)
    else if !(8 <= |body| <= 124) then Err(BadLength)
    else if !Spelled(body, CHARSET) then Err(BadCharacter)
    else
      var data := SymbolsOf(body);
      if Polymod(PrefixExpand(prefix) + data) != Zeros(40) then Err(BadChecksum) else Ok(data[..|data| - 8])
  }

  function DecodePayload(addr: string): (r: Result<(string, seq<nat>)>)
    ensures r.Ok? ==> Fits(r.value.1, 5)
  {
    var parts := SplitAddress(addr);
    if parts.Err? then Err(parts.error)
    else
      var payload := CheckedSymbols(parts.value.prefix, parts.value.body);
      if payload.Err? then Err(payload.error) else Ok((parts.value.reported, payload.value))
  }

  lemma UnpackedVersion(p: seq<nat>)
    requires p != [] && 5 * |p| % 8 < 5
    ensures Regrouped(p, 5, 8, false) != []
  {
    var n, x := 5 * |p| / 8, 5 * |p| % 8;
    TimesIs(|p|, 5);
    TimesIs(n, 8);
    RegroupedExact(p, 5, 8, false, n, x);
  }

  /** The hash length announced by a version byte. */
  function SizeOf(version: nat): nat {
    (version % 4 * 4 + 20) * (if version / 4 % 2 == 1 then 2 else 1)
  }

  /** Version byte and hash of a payload. */
  function Unpack(payload: seq<nat>): Result<(nat, seq<nat>)> {
    var extrabits := 5 * |payload| % 8;
    if extrabits >= 5 then Err(ExcessPadding)
    else if payload == [] then Err(EmptyPayload)
    else
      PowPositive(2, extrabits);
      if payload[|payload| - 1] % Pow(2, extrabits) != 0 then Err(NonZeroPadding)
      else
        UnpackedVersion(payload);
        var decoded := Regrouped(payload, 5, 8, false);
        if SizeOf(decoded[0]) != |decoded| - 1 then Err(WrongHashSize) else Ok((decoded[0], decoded[1..]))
  }

  function Decode(addr: string, checktype: bool): Result<Address> {
    var payload := DecodePayload(addr);
    if payload.Err? then Err(payload.error)
    else
      var unpacked := Unpack(payload.value.1);
      if unpacked.Err? then Err(unpacked.error)
      else
        var (version, hash) := unpacked.value;
        if checktype && !KnownKind(version / 8) then Err(BadKind)
        else Ok(Address(payload.value.0, version / 8, hash))
  }

  // ---------------------------------------------------------------- decode after encode

  /** The hash lengths a version byte can announce. */
  predicate StandardSize(n: nat) { n in {20, 24, 28, 32, 40, 48, 56, 64} }

  lemma SizeFieldMeaning(n: nat)
    ensures SizeField(n).Ok? ==> SizeField(n).value < 8
    ensures SizeField(n).Ok? && StandardSize(n) ==> SizeOf(SizeField(n).value) == n
    ensures SizeField(n).Ok? && SizeOf(SizeField(n).value) == n ==> StandardSize(n)
    ensures StandardSize(n) ==> SizeField(n).Ok?
  {}

  /** Conversely a version byte announces a size that is written with its own low three bits. */
  lemma SizeOfMeaning(version: nat)
    ensures StandardSize(SizeOf(version)) && SizeField(SizeOf(version)) == Ok(version % 8)
  {
    var (low, high) := (version % 4, version / 4 % 2);
    assert version % 8 == 4 * high + low;
    if high == 1 {
      assert SizeOf(version) == 8 * low + 40;
    } else {
      assert SizeOf(version) == 4 * low + 20;
    }
  }

  /** Prefixes that survive the trip: printable, without separator, and in lower case; an upper-case
      prefix comes back only from an address that has no lower-case letter at all. */
  predicate PrefixSurvives(prefix: string, addr: string) {
    && prefix != ""
    && Printable(prefix) && ':' !in prefix
    && (Lower(prefix) == prefix || Upper(addr) == addr)
  }

  lemma LowerAppend(s: string, t: string)
    ensures Lower(s + t) == Lower(s) + Lower(t)
  {}

  lemma ExpandIgnoresCase(prefix: string)
    ensures PrefixExpand(Lower(prefix)) == PrefixExpand(prefix)
  {
    forall i | 0 <= i < |prefix| ensures Lower(prefix)[i] as int % 32 == prefix[i] as int % 32 {
      if 'A' <= prefix[i] <= 'Z' { ModShift(prefix[i] as int, 1, 32); }
    }
  }

  lemma FindSeparator(prefix: string, body: string)
    requires ':' !in prefix
    ensures Find(prefix + ":" + body, ':') == |prefix|
  {
    var s := prefix + ":" + body;
    assert s[|prefix|] == ':';
    forall i | 0 <= i < |prefix| ensures s[i] != ':' { assert s[i] == prefix[i]; }
  }

  lemma SplitsAtSeparator(prefix: string, body: string)
    requires Lower(body) == body && PrefixSurvives(prefix, prefix + ":" + body)
    ensures SplitAddress(prefix + ":" + body) == Ok(Parts(Lower(prefix), body, prefix))
  {
    var (addr, low) := (prefix + ":" + body, Lower(prefix));
    LowerAppend(prefix + ":", body);
    LowerAppend(prefix, ":");
    assert Lower(addr) == low + ":" + body;
    forall i | 0 <= i < |low| ensures low[i] != ':' { assert prefix[i] in prefix; }
    FindSeparator(low, body);
    assert (low + ":" + body)[..|prefix|] == low;
    assert (low + ":" + body)[|prefix| + 1..] == body;
    if Lower(addr) != addr { UpperRestores(prefix, addr); } else { LowerRestores(prefix, addr); }
  }

  lemma UpperRestores(prefix: string, addr: string)
    requires prefix <= addr && Upper(addr) == addr
    ensures Upper(Lower(prefix)) == prefix
  {
    forall i | 0 <= i < |prefix| ensures UpperChar(LowerChar(prefix[i])) == prefix[i] {
      assert addr[i] == prefix[i] && Upper(addr)[i] == addr[i];
    }
  }

  lemma LowerRestores(prefix: string, addr: string)
    requires prefix <= addr && Lower(addr) == addr
    ensures Lower(prefix) == prefix
  {
    forall i | 0 <= i < |prefix| ensures Lower(prefix)[i] == prefix[i] { assert Lower(addr)[i] == addr[i]; }
  }

  /** A body made of payload and checksum is accepted, whatever the case of the prefix. */
  lemma AcceptsOwnChecksum(prefix: string, payload: seq<nat>, cs: seq<nat>)
    requires Fits(payload + cs, 5) && |payload| <= 116 && cs == Checksum(PrefixExpand(prefix) + payload)
    requires prefix != "" && Printable(Lower(prefix))
    ensures CheckedSymbols(Lower(prefix), CharsOf(payload + cs)) == Ok(payload)
  {
    var symbols := payload + cs;
    SymbolsOfChars(symbols);
    OwnPolymod(prefix, payload, cs);
    assert symbols[..|symbols| - 8] == payload;
  }

  lemma OwnPolymod(prefix: string, payload: seq<nat>, cs: seq<nat>)
    requires Fits(payload + cs, 5) && cs == Checksum(PrefixExpand(prefix) + payload)
    ensures Polymod(PrefixExpand(Lower(prefix)) + (payload + cs)) == Zeros(40)
  {
    ExpandIgnoresCase(prefix);
    FitsSuffix(payload, cs, 5);
    ChecksumUnique(PrefixExpand(prefix) + payload, cs);
    Associative(PrefixExpand(prefix), payload, cs);
  }

  lemma FitsSuffix(a: seq<nat>, b: seq<nat>, w: nat)
    requires Fits(a + b, w)
    ensures Fits(a, w) && Fits(b, w)
  {
    forall i | 0 <= i < |a| ensures a[i] < Pow(2, w) { assert (a + b)[i] == a[i]; }
    forall i | 0 <= i < |b| ensures b[i] < Pow(2, w) { assert (a + b)[|a| + i] == b[i]; }
  }

  /** Only a surviving prefix comes back from decoding. */
  lemma ReturnedPrefixSurvives(prefix: string, body: string)
    requires DecodePayload(prefix + ":" + body).Ok? && DecodePayload(prefix + ":" + body).value.0 == prefix
    ensures PrefixSurvives(prefix, prefix + ":" + body)
  {
    var addr := prefix + ":" + body;
    var lower := Lower(addr);
    var k := Find(lower, ':');
    assert k == |prefix|;
    forall i | 0 <= i < k ensures 33 <= prefix[i] as int <= 126 && prefix[i] != ':' {
      assert lower[..k][i] == lower[i] == LowerChar(prefix[i]);
    }
    if lower == addr { LowerRestores(prefix, addr); }
  }

  /** What the unpacker makes of a packed version byte and hash. */
  lemma UnpackOfPack(version: nat, hash: seq<nat>)
    requires Fits([version] + hash, 8)
    ensures Unpack(Regrouped([version] + hash, 8, 5, true))
         == if SizeOf(version) == |hash| then Ok((version, hash)) else Err(WrongHashSize)
  {
    var data := [version] + hash;
    PackUnpack(data);
    PackedBits(data);
    assert data[1..] == hash;
  }

  lemma PackedLength(version: nat, hash: seq<nat>)
    requires Fits([version] + hash, 8) && StandardSize(|hash|)
    ensures |Regrouped([version] + hash, 8, 5, true)| <= 116
  {
    PackedBits([version] + hash);
  }

  /** Version byte, payload and body of an encoded address. */
  ghost predicate Encodes(prefix: string, kind: int, hash: seq<nat>, version: nat, payload: seq<nat>,
                          cs: seq<nat>, addr: string) {
    && SizeField(|hash|).Ok? && version == kind * 8 + SizeField(|hash|).value
    && Fits([version] + hash, 8) && payload == Regrouped([version] + hash, 8, 5, true)
    && cs == Checksum(PrefixExpand(prefix) + payload)
    && Fits(payload + cs, 5) && addr == prefix + ":" + CharsOf(payload + cs)
  }

  lemma EncodedShape(prefix: string, kind: int, hash: seq<nat>, checktype: bool, addr: string)
    returns (version: nat, payload: seq<nat>, cs: seq<nat>)
    requires Fits(hash, 8) && EncodeFull(prefix, kind, hash, checktype) == Ok(addr)
    ensures Encodes(prefix, kind, hash, version, payload, cs, addr)
    ensures checktype ==> KnownKind(kind)
  {
    version := kind * 8 + SizeField(|hash|).value;
    VersionFits(version, hash);
    payload := Regrouped([version] + hash, 8, 5, true);
    cs := Checksum(PrefixExpand(prefix) + payload);
    PackedFits(kind, hash);
    ChecksumFits(PrefixExpand(prefix) + payload);
  }

  lemma SplitsBack(prefix: string, symbols: seq<nat>, addr: string)
    requires Fits(symbols, 5) && addr == prefix + ":" + CharsOf(symbols) && PrefixSurvives(prefix, addr)
    ensures SplitAddress(addr) == Ok(Parts(Lower(prefix), CharsOf(symbols), prefix))
  {
    SymbolsOfChars(symbols);
    SplitsAtSeparator(prefix, CharsOf(symbols));
  }

  lemma ChecksBack(prefix: string, version: nat, hash: seq<nat>, payload: seq<nat>, cs: seq<nat>)
    requires Fits([version] + hash, 8) && payload == Regrouped([version] + hash, 8, 5, true)
    requires cs == Checksum(PrefixExpand(prefix) + payload) && Fits(payload + cs, 5)
    requires StandardSize(|hash|) && prefix != "" && Printable(prefix)
    ensures CheckedSymbols(Lower(prefix), CharsOf(payload + cs)) == Ok(payload)
  {
    PackedLength(version, hash);
    PrintableLower(prefix);
    AcceptsOwnChecksum(prefix, payload, cs);
  }

  lemma UnpacksBack(kind: int, hash: seq<nat>, version: nat)
    requires SizeField(|hash|).Ok? && version == kind * 8 + SizeField(|hash|).value
    requires Fits([version] + hash, 8) && StandardSize(|hash|)
    ensures Unpack(Regrouped([version] + hash, 8, 5, true)) == Ok((version, hash)) && version / 8 == kind
  {
    var field := SizeField(|hash|).value;
    assert field < 8 && SizeOf(field) == |hash| by { SizeFieldMeaning(|hash|); }
    assert version / 8 == kind && SizeOf(version) == SizeOf(field) by { VersionParts(kind, field); }
    UnpackOfPack(version, hash);
  }

  lemma DecodesBack(prefix: string, kind: int, hash: seq<nat>, checktype: bool, version: nat,
                    payload: seq<nat>, cs: seq<nat>, addr: string)
    requires Encodes(prefix, kind, hash, version, payload, cs, addr) && (checktype ==> KnownKind(kind))
    requires StandardSize(|hash|) && PrefixSurvives(prefix, addr)
    ensures Decode(addr, checktype) == Ok(Address(prefix, kind, hash))
  {
    SplitsBack(prefix, payload + cs, addr);
    ChecksBack(prefix, version, hash, payload, cs);
    UnpacksBack(kind, hash, version);
    DecodeInStages(addr, checktype, Parts(Lower(prefix), CharsOf(payload + cs), prefix), payload, version, hash);
  }

  lemma DecodeInStages(addr: string, checktype: bool, parts: Parts, payload: seq<nat>, version: nat, hash: seq<nat>)
    requires SplitAddress(addr) == Ok(parts) && CheckedSymbols(parts.prefix, parts.body) == Ok(payload)
    requires Unpack(payload) == Ok((version, hash)) && (checktype ==> KnownKind(version / 8))
    ensures Decode(addr, checktype) == Ok(Address(parts.reported, version / 8, hash))
  {}

  lemma PrintableLower(prefix: string)
    requires Printable(prefix)
    ensures Printable(Lower(prefix))
  {}

  /** Encoding a hash of standard size fails only on the kind: an unknown one when kinds are checked,
      otherwise one that does not fit the version byte. */
  lemma EncodesStandard(prefix: string, kind: int, hash: seq<nat>, checktype: bool)
    requires Fits(hash, 8) && StandardSize(|hash|)
    ensures EncodeFull(prefix, kind, hash, checktype).Ok? <==> if checktype then KnownKind(kind) else 0 <= kind < 32
    ensures EncodeFull(prefix, kind, hash, checktype).Err? ==>
              EncodeFull(prefix, kind, hash, checktype) == Err(BadKind)
  {
    SizeFieldMeaning(|hash|);
  }

  /** For every address the encoder produces, decoding gives the three parts back exactly when the
      hash has a standard size and the prefix survives; the encoder also accepts other sizes. */
  lemma DecodeOfEncode(prefix: string, kind: int, hash: seq<nat>, checktype: bool, addr: string)
    requires Fits(hash, 8) && EncodeFull(prefix, kind, hash, checktype) == Ok(addr)
    ensures Decode(addr, checktype) == Ok(Address(prefix, kind, hash))
       <==> StandardSize(|hash|) && PrefixSurvives(prefix, addr)
  {
    var version, payload, cs := EncodedShape(prefix, kind, hash, checktype, addr);
    if StandardSize(|hash|) && PrefixSurvives(prefix, addr) {
      DecodesBack(prefix, kind, hash, checktype, version, payload, cs, addr);
    } else if Decode(addr, checktype) == Ok(Address(prefix, kind, hash)) {
      HashSizeStandard(addr, checktype);
      ReportedPrefix(addr, checktype);
      ReturnedPrefixSurvives(prefix, CharsOf(payload + cs));
    }
  }

  lemma ReportedPrefix(addr: string, checktype: bool)
    requires Decode(addr, checktype).Ok?
    ensures DecodePayload(addr).Ok? && DecodePayload(addr).value.0 == Decode(addr, checktype).value.prefix
  {}

  lemma VersionFits(version: nat, hash: seq<nat>)
    requires version < 256 && Fits(hash, 8)
    ensures Fits([version] + hash, 8)
  {
    assert Pow(2, 8) == 256;
  }

  lemma HashSizeStandard(addr: string, checktype: bool)
    requires Decode(addr, checktype).Ok?
    ensures StandardSize(|Decode(addr, checktype).value.hash|)
  {
    SizeOfMeaning(Unpack(DecodePayload(addr).value.1).value.0);
  }

  lemma VersionParts(kind: int, field: nat)
    requires field < 8 && 0 <= kind * 8 + field
    ensures (kind * 8 + field) / 8 == kind && SizeOf(kind * 8 + field) == SizeOf(field)
  {
    var v := kind * 8 + field;
    assert v % 4 == field % 4 && v / 4 % 2 == field / 4 % 2;
  }

  // ---------------------------------------------------------------- encode after decode

  /** What a payload unpacks to packs to that payload. */
  lemma PackOfUnpack(payload: seq<nat>)
    requires Fits(payload, 5) && Unpack(payload).Ok?
    ensures
      var (version, hash) := Unpack(payload).value;
      Fits(hash, 8) && PackAddrData(version / 8, hash) == Ok(payload)
  {
    var (version, hash) := Unpack(payload).value;
    UnpackedBytes(payload);
    RepacksVersion(version, hash);
  }

  lemma UnpackedBytes(payload: seq<nat>)
    requires Fits(payload, 5) && Unpack(payload).Ok?
    ensures
      var (version, hash) := Unpack(payload).value;
      && Fits(hash, 8) && version < 256 && SizeOf(version) == |hash|
      && Regrouped([version] + hash, 8, 5, true) == payload
  {
    UnpackedWhole(payload);
    UnpackPack(payload);
    var (version, hash) := Unpack(payload).value;
    BytesFit(version, hash);
  }

  lemma UnpackedWhole(payload: seq<nat>)
    requires Unpack(payload).Ok?
    ensures
      var (version, hash) := Unpack(payload).value;
      Regrouped(payload, 5, 8, false) == [version] + hash && SizeOf(version) == |hash|
  {
    UnpackedVersion(payload);
    LastApart(Regrouped(payload, 5, 8, false));
  }

  lemma BytesFit(version: nat, hash: seq<nat>)
    requires Fits([version] + hash, 8)
    ensures Fits(hash, 8) && version < 256
  {
    FitsSuffix([version], hash, 8);
    assert version < 256 by { assert Pow(2, 8) == 256 && [version][0] == version; }
  }

  lemma RepacksVersion(version: nat, hash: seq<nat>)
    requires version < 256 && SizeOf(version) == |hash|
    ensures PackAddrData(version / 8, hash) == Ok(Regrouped([version] + hash, 8, 5, true))
  {
    SizeOfMeaning(version);
    assert version / 8 * 8 + version % 8 == version;
  }

  /** An accepted body is the payload followed by the only checksum it can have. */
  lemma BodyDetermined(prefix: string, body: string)
    requires CheckedSymbols(prefix, body).Ok?
    ensures
      var payload := CheckedSymbols(prefix, body).value;
      var symbols := payload + Checksum(PrefixExpand(prefix) + payload);
      Fits(symbols, 5) && CharsOf(symbols) == body
  {
    var symbols := SymbolsOf(body);
    var (payload, cs) := (symbols[..|symbols| - 8], symbols[|symbols| - 8..]);
    assert symbols == payload + cs;
    FitsSuffix(payload, cs, 5);
    ChecksumUnique(PrefixExpand(prefix) + payload, cs);
    assert PrefixExpand(prefix) + symbols == PrefixExpand(prefix) + payload + cs;
    CharsOfSymbols(body);
  }

  lemma SplitRejoins(addr: string)
    requires SplitAddress(addr).Ok?
    ensures
      var p := SplitAddress(addr).value;
      && p.prefix + ":" + p.body == Lower(addr)
      && Lower(p.reported) == p.prefix
      && (Lower(addr) == addr ==> p.reported == p.prefix)
  {
    var lower := Lower(addr);
    var k := Find(lower, ':');
    CutAround(lower, k);
    LowerPrefix(addr, k);
  }

  lemma LowerPrefix(addr: string, k: nat)
    requires k <= |addr|
    ensures Lower(Lower(addr)[..k]) == Lower(addr)[..k]
    ensures Lower(Upper(Lower(addr)[..k])) == Lower(addr)[..k]
  {}

  /** Re-encoding any accepted address, with the prefix in lower case, gives the lower-case address. */
  lemma EncodeOfDecode(addr: string, checktype: bool)
    requires Decode(addr, checktype).Ok?
    ensures
      var a := Decode(addr, checktype).value;
      && Fits(a.hash, 8)
      && EncodeFull(Lower(a.prefix), a.kind, a.hash, checktype) == Ok(Lower(addr))
      && (Lower(addr) == addr ==> EncodeFull(a.prefix, a.kind, a.hash, checktype) == Ok(addr))
  {
    var parts, payload := DecodedShape(addr, checktype);
    var a := Decode(addr, checktype).value;
    SplitRejoins(addr);
    BodyDetermined(parts.prefix, parts.body);
    PackOfUnpack(payload);
    EncodeInStages(parts.prefix, a.kind, a.hash, checktype, payload);
  }

  lemma DecodedShape(addr: string, checktype: bool) returns (parts: Parts, payload: seq<nat>)
    requires Decode(addr, checktype).Ok?
    ensures SplitAddress(addr) == Ok(parts) && CheckedSymbols(parts.prefix, parts.body) == Ok(payload)
    ensures
      var a := Decode(addr, checktype).value;
      && Unpack(payload).Ok? && a.kind == Unpack(payload).value.0 / 8 && a.hash == Unpack(payload).value.1
      && a.prefix == parts.reported && (checktype ==> KnownKind(a.kind))
    ensures Fits(payload, 5)
  {
    parts := SplitAddress(addr).value;
    payload := CheckedSymbols(parts.prefix, parts.body).value;
  }

  lemma EncodeInStages(prefix: string, kind: int, hash: seq<nat>, checktype: bool, payload: seq<nat>)
    requires Fits(hash, 8) && PackAddrData(kind, hash) == Ok(payload) && (checktype ==> KnownKind(kind))
    requires Fits(payload + Checksum(PrefixExpand(prefix) + payload), 5)
    ensures EncodeFull(prefix, kind, hash, checktype)
         == Ok(prefix + ":" + CharsOf(payload + Checksum(PrefixExpand(prefix) + payload)))
  {}

  /** The checksum sees the low five bits of a prefix character. */
  predicate SameLowBits(p: string, q: string)
    requires |p| == |q|
  {
    forall i :: 0 <= i < |p| ==> p[i] as int % 32 == q[i] as int % 32
  }

  /** Two addresses of prefix, separator and body that differ at most within eight consecutive characters,
      of the prefix, of the body or of both. */
  ghost predicate DifferWithinEight(p: string, body: string, q: string, other: string, i: nat) {
    && |p| == |q| && |body| == |other|
    && (forall k :: 0 <= k < |p| && !(i <= k < i + 8) ==> p[k] == q[k])
    && (forall k :: 0 <= k < |body| && !(i <= |p| + 1 + k < i + 8) ==> body[k] == other[k])
  }

  /** With at most eight consecutive characters of prefix and body changed, an accepted address is accepted
      again if and only if the body is the same and the changed prefix characters agree with the old ones
      in their low five bits. */
  lemma TypingBurstJudged(p: string, body: string, q: string, other: string, i: nat)
    requires CheckedSymbols(p, body).Ok? && DifferWithinEight(p, body, q, other, i) && Printable(q)
    ensures CheckedSymbols(q, other).Ok? <==> other == body && SameLowBits(p, q)
  {
    if Spelled(other, CHARSET) {
      var (a, b) := (PrefixExpand(p) + SymbolsOf(body), PrefixExpand(q) + SymbolsOf(other));
      ExpandFits(p, SymbolsOf(body));
      ExpandFits(q, SymbolsOf(other));
      SameInputs(p, body, q, other);
      if a != b {
        SameOutside(p, body, q, other, i);
        BurstDetected(a, b, i);
      }
    }
  }

  /** The checksum inputs coincide exactly when the bodies and the low bits of the prefixes do. */
  lemma SameInputs(p: string, body: string, q: string, other: string)
    requires |p| == |q| && |body| == |other| && Spelled(body, CHARSET) && Spelled(other, CHARSET)
    ensures PrefixExpand(p) + SymbolsOf(body) == PrefixExpand(q) + SymbolsOf(other) <==> other == body && SameLowBits(p, q)
  {
    var (e, f, u, v) := (PrefixExpand(p), PrefixExpand(q), SymbolsOf(body), SymbolsOf(other));
    CharsOfSymbols(body);
    CharsOfSymbols(other);
    assert e == f <==> SameLowBits(p, q) by {
      assert forall k :: 0 <= k < |p| ==> e[k] == p[k] as int % 32 && f[k] == q[k] as int % 32;
    }
    assert (e + u)[..|e|] == e && (e + u)[|e|..] == u && (f + v)[..|e|] == f && (f + v)[|e|..] == v;
  }

  lemma SameOutside(p: string, body: string, q: string, other: string, i: nat)
    requires DifferWithinEight(p, body, q, other, i) && Spelled(body, CHARSET) && Spelled(other, CHARSET)
    ensures
      var (a, b) := (PrefixExpand(p) + SymbolsOf(body), PrefixExpand(q) + SymbolsOf(other));
      |a| == |b| && forall k :: 0 <= k < |a| && !(i <= k < i + 8) ==> a[k] == b[k]
  {
    forall k | 0 <= k < |body| && !(i <= |p| + 1 + k < i + 8) ensures SymbolsOf(body)[k] == SymbolsOf(other)[k] {
      UnspellAt(body, other, CHARSET, k);
    }
    JoinedOutside(PrefixExpand(p), SymbolsOf(body), PrefixExpand(q), SymbolsOf(other), i);
  }

  lemma JoinedOutside(e: seq<nat>, u: seq<nat>, f: seq<nat>, v: seq<nat>, i: nat)
    requires |e| == |f| && |u| == |v|
    requires forall k :: 0 <= k < |e| && !(i <= k < i + 8) ==> e[k] == f[k]
    requires forall k :: 0 <= k < |u| && !(i <= |e| + k < i + 8) ==> u[k] == v[k]
    ensures forall k :: 0 <= k < |e + u| && !(i <= k < i + 8) ==> (e + u)[k] == (f + v)[k]
  {
    forall k | 0 <= k < |e + u| && !(i <= k < i + 8) ensures (e + u)[k] == (f + v)[k] {
      if k >= |e| { assert u[k - |e|] == v[k - |e|]; }
    }
  }

  predicate LowerLetters(s: string) { forall i :: 0 <= i < |s| ==> 'a' <= s[i] <= 'z' }

  /** Mistyping lower-case letters of the prefix, or any characters of the body, within eight consecutive
      ones of the whole address never gives an accepted address. */
  lemma AddressBurstRejected(p: string, body: string, q: string, other: string, i: nat)
    requires CheckedSymbols(p, body).Ok? && DifferWithinEight(p, body, q, other, i)
    requires LowerLetters(p) && LowerLetters(q) && (p != q || body != other)
    ensures CheckedSymbols(q, other).Err?
  {
    TypingBurstJudged(p, body, q, other, i);
    LettersApart(p, q);
  }

  lemma LettersApart(p: string, q: string)
    requires |p| == |q| && LowerLetters(p) && LowerLetters(q)
    ensures SameLowBits(p, q) <==> p == q
  {
    if SameLowBits(p, q) {
      forall k | 0 <= k < |p| ensures p[k] == q[k] { assert p[k] as int % 32 == q[k] as int % 32; }
    }
  }

  /** An accepted body with at most eight consecutive characters changed is no longer accepted. */
  lemma TypingBurstRejected(prefix: string, body: string, body': string, i: nat)
    requires CheckedSymbols(prefix, body).Ok? && |body'| == |body| && body' != body
    requires forall k :: 0 <= k < |body| && !(i <= k < i + 8) ==> body'[k] == body[k]
    ensures CheckedSymbols(prefix, body').Err?
  {
    TypingBurstJudged(prefix, body, prefix, body', |prefix| + 1 + i);
  }

  lemma ExpandFits(prefix: string, data: seq<nat>)
    requires Fits(data, 5)
    ensures Fits(PrefixExpand(prefix) + data, 5)
  {
    assert Pow(2, 5) == 32;
  }
}
