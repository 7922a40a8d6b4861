/** Pushing data onto a script and parsing a script into operations
    (electronfittexxcoin/bitcoin.py:367-403, electronfittexxcoin/address.py:728-775). */
module ScriptOps {
  import opened Arith
  import opened Sequences

  type Byte = b: nat | b < 256

  const OP_PUSHDATA1: Byte := 0x4c
  const OP_PUSHDATA2: Byte := 0x4d
  const OP_PUSHDATA4: Byte := 0x4e
  const OP_1NEGATE: Byte := 0x4f
  const OP_1: Byte := 0x51
  const OP_16: Byte := 0x60

  datatype Data = NoData | Bytes(value: seq<Byte>)

  datatype Op = Op(code: Byte, data: Data)

  datatype Parsed = Ops(ops: seq<Op>) | Truncated

  // ---------------------------------------------------------------- little-endian numbers

  function LittleEndian(n: nat, width: nat): (s: seq<Byte>)
    ensures |s| == width
  {
    if width == 0 then [] else [n % 256] + LittleEndian(n / 256, width - 1)
  }

  function Unsigned(s: seq<Byte>): nat {
    if s == [] then 0 else s[0] + 256 * Unsigned(s[1..])
  }

  /** Byte i counts the 256^i: the low byte stands first. */
  lemma {:induction false} LittleEndianByte(n: nat, width: nat, i: nat)
    requires i < width
    ensures 0 < Pow(256, i) && 0 <= n / Pow(256, i) && LittleEndian(n, width)[i] == n / Pow(256, i) % 256
  {
    PowPositive(256, i);
    DivBounds(n, Pow(256, i), 0);
    if i != 0 {
      LittleEndianByte(n / 256, width - 1, i - 1);
      DivDiv(n, 256, Pow(256, i - 1));
    }
  }

  /** The header of a push: the length alone, or the code of its width followed by the length, low byte
      first. */
  lemma PushHeaderBytes(data: seq<Byte>, i: nat)
    requires OP_PUSHDATA1 <= |data| < 0x1_0000_0000
    ensures
      var (bytes, width) := (Push(data, false).bytes, if |data| <= 0xff then 1 else if |data| <= 0xffff then 2 else 4);
      && Push(data, false).Script? && |bytes| == 1 + width + |data|
      && bytes[0] == (if width == 1 then 0x4c else if width == 2 then 0x4d else 0x4e)
      && (i < width ==> 0 < Pow(256, i) && bytes[1 + i] == |data| / Pow(256, i) % 256)
      && bytes[1 + width..] == data
  {
    var width := if |data| <= 0xff then 1 else if |data| <= 0xffff then 2 else 4;
    if i < width { LittleEndianByte(|data|, width, i); }
  }

  lemma {:induction false} UnsignedOfLittleEndian(n: nat, width: nat)
    requires n < Pow(256, width)
    ensures Unsigned(LittleEndian(n, width)) == n
  {
    if width != 0 {
      UnsignedOfLittleEndian(n / 256, width - 1);
      assert LittleEndian(n, width)[1..] == LittleEndian(n / 256, width - 1);
    }
  }

  lemma {:induction false} LittleEndianOfUnsigned(s: seq<Byte>)
    ensures Unsigned(s) < Pow(256, |s|) && LittleEndian(Unsigned(s), |s|) == s
  {
    if s != [] {
      LittleEndianOfUnsigned(s[1..]);
      DivModUnique(Unsigned(s), Unsigned(s[1..]), s[0], 256);
    }
  }

  // ---------------------------------------------------------------- what one operation is

  /** Bytes of explicit length after the code. */
  function Width(code: Byte): nat {
    if code == OP_PUSHDATA1 then 1 else if code == OP_PUSHDATA2 then 2 else if code == OP_PUSHDATA4 then 4 else 0
  }

  /** Data that a code past the pushes stands for. */
  function Synthesized(code: Byte, synthesize: bool): Data {
    if synthesize && OP_1 <= code <= OP_16 then Bytes([1 + (code - OP_1)])
    else if synthesize && code == OP_1NEGATE then Bytes([0x81])
    else NoData
  }

  /** The operations a script can hold. */
  predicate WellFormed(op: Op, synthesize: bool) {
    if op.code > OP_PUSHDATA4 then op.data == Synthesized(op.code, synthesize)
    else if op.code < OP_PUSHDATA1 then op.data.Bytes? && |op.data.value| == op.code
    else op.data.Bytes? && |op.data.value| < Pow(256, Width(op.code))
  }

  /** How an operation is written in a script. */
  function Written(op: Op): (s: seq<Byte>)
    ensures s != []
  {
    if op.code > OP_PUSHDATA4 || op.data.NoData? then [op.code]
    else [op.code] + LittleEndian(|op.data.value|, Width(op.code)) + op.data.value
  }

  function AllWritten(ops: seq<Op>): seq<Byte> {
    if ops == [] then [] else Written(ops[0]) + AllWritten(ops[1..])
  }

  predicate AllWellFormed(ops: seq<Op>, synthesize: bool) {
    ops == [] || (WellFormed(ops[0], synthesize) && AllWellFormed(ops[1..], synthesize))
  }

  // ---------------------------------------------------------------- parsing

  datatype Next = Read(op: Op, used: nat) | Cut

  function NextOp(s: seq<Byte>, synthesize: bool): (r: Next)
    requires s != []
    ensures r.Read? ==> 0 < r.used <= |s|
  {
    var code := s[0];
    if code > OP_PUSHDATA4 then Read(Op(code, Synthesized(code, synthesize)), 1)
    else
      var n := 1 + Width(code);
      if n > |s| then Cut
      else
        var length := if n == 1 then code else Unsigned(s[1..n]);
        if n + length > |s| then Cut else Read(Op(code, Bytes(s[n..n + length])), n + length)
  }

  function Parse(s: seq<Byte>, synthesize: bool): Parsed
    decreases |s|
  {
    if s == [] then Ops([])
    else
      match NextOp(s, synthesize)
      case Cut => Truncated
      case Read(op, used) => Prepend([op], Parse(s[used..], synthesize))
  }

  function Prepend(ops: seq<Op>, p: Parsed): Parsed {
    if p.Ops? then Ops(ops + p.ops) else Truncated
  }

  lemma SliceOfSuffix(s: seq<Byte>, start: nat, i: nat, j: nat)
    requires i <= j && start + j <= |s|
    ensures s[start..][i..j] == s[start + i..start + j]
  {}

  /** Reads the operation at the cursor. */
  method ReadOp(script: seq<Byte>, start: nat, synthesize: bool) returns (r: Next)
    requires start < |script|
    ensures r == NextOp(script[start..], synthesize)
  {
    var code := script[start];
    var n := start + 1;
    var data := NoData;
    if code <= OP_PUSHDATA4 {
      var length: nat := code;
      if code >= OP_PUSHDATA1 {
        var width := if code == OP_PUSHDATA1 then 1 else if code == OP_PUSHDATA2 then 2 else 4;
        if n + width > |script| { return Cut; }
        SliceOfSuffix(script, start, 1, 1 + width);
        length := Unsigned(script[n..n + width]);
        n := n + width;
      }
      if n + length > |script| { return Cut; }
      SliceOfSuffix(script, start, n - start, n - start + length);
      data := Bytes(script[n..n + length]);
      n := n + length;
    } else if synthesize && OP_1 <= code <= OP_16 {
      data := Bytes([1 + (code - OP_1)]);
    } else if synthesize && code == OP_1NEGATE {
      data := Bytes([0x81]);
    }
    r := Read(Op(code, data), n - start);
  }

  method GetOps(script: seq<Byte>, synthesize: bool) returns (p: Parsed)
    ensures p == Parse(script, synthesize)
  {
    var ops: seq<Op> := [];
    var n := 0;
    while n < |script|
      invariant n <= |script|
      invariant Parse(script, synthesize) == Prepend(ops, Parse(script[n..], synthesize))
    {
      var r := ReadOp(script, n, synthesize);
      if r.Cut? { return Truncated; }
      assert script[n..][r.used..] == script[n + r.used..];
      PrependTwice(ops, r.op, Parse(script[n + r.used..], synthesize));
      ops := ops + [r.op];
      n := n + r.used;
    }
    p := Ops(ops);
  }

  lemma PrependTwice(ops: seq<Op>, op: Op, p: Parsed)
    ensures Prepend(ops + [op], p) == Prepend(ops, Prepend([op], p))
  {
    if p.Ops? { assert ops + [op] + p.ops == ops + ([op] + p.ops); }
  }

  // ---------------------------------------------------------------- parsing and writing are inverse

  lemma ReadWritten(op: Op, rest: seq<Byte>, synthesize: bool)
    requires WellFormed(op, synthesize)
    ensures NextOp(Written(op) + rest, synthesize) == Read(op, |Written(op)|)
    ensures (Written(op) + rest)[|Written(op)|..] == rest
  {
    var s := Written(op) + rest;
    if op.code <= OP_PUSHDATA4 {
      var (n, length) := (1 + Width(op.code), |op.data.value|);
      assert s[1..n] == LittleEndian(length, Width(op.code));
      if n > 1 { UnsignedOfLittleEndian(length, Width(op.code)); }
      assert s[n..n + length] == op.data.value;
    }
  }

  lemma WrittenRead(s: seq<Byte>, synthesize: bool)
    requires s != [] && NextOp(s, synthesize).Read?
    ensures var r := NextOp(s, synthesize); WellFormed(r.op, synthesize) && Written(r.op) == s[..r.used]
  {
    var code := s[0];
    var n := 1 + Width(code);
    if code <= OP_PUSHDATA4 && n > 1 {
      LittleEndianOfUnsigned(s[1..n]);
      assert s[..n] == [code] + s[1..n];
      var used := NextOp(s, synthesize).used;
      assert s[..used] == s[..n] + s[n..used];
    }
  }

  lemma {:induction false} ParseOfWritten(ops: seq<Op>, synthesize: bool)
    requires AllWellFormed(ops, synthesize)
    ensures Parse(AllWritten(ops), synthesize) == Ops(ops)
  {
    if ops != [] {
      ReadWritten(ops[0], AllWritten(ops[1..]), synthesize);
      ParseOfWritten(ops[1..], synthesize);
      assert ops == [ops[0]] + ops[1..];
    }
  }

  lemma FirstWritten(op: Op, ops: seq<Op>, synthesize: bool)
    ensures AllWritten([op] + ops) == Written(op) + AllWritten(ops)
    ensures AllWellFormed([op] + ops, synthesize) <==> WellFormed(op, synthesize) && AllWellFormed(ops, synthesize)
  {
    assert ([op] + ops)[1..] == ops;
  }

  lemma ParseFirst(s: seq<Byte>, synthesize: bool)
    requires s != [] && Parse(s, synthesize).Ops?
    ensures var r := NextOp(s, synthesize);
            && r.Read? && Parse(s[r.used..], synthesize).Ops?
            && Parse(s, synthesize).ops == [r.op] + Parse(s[r.used..], synthesize).ops
  {}

  lemma {:induction false} WrittenOfParse(s: seq<Byte>, synthesize: bool, ops: seq<Op>)
    requires Parse(s, synthesize) == Ops(ops)
    ensures AllWellFormed(ops, synthesize) && AllWritten(ops) == s
    decreases |s|
  {
    if s != [] {
      var r := NextOp(s, synthesize);
      WrittenRead(s, synthesize);
      ParseFirst(s, synthesize);
      var rest := Parse(s[r.used..], synthesize).ops;
      WrittenOfParse(s[r.used..], synthesize, rest);
      FirstWritten(r.op, rest, synthesize);
      SplitAt(s, r.used);
    }
  }

  /** The accepted scripts are exactly the written well-formed operations, and each is consumed exactly. */
  lemma AcceptedScripts(s: seq<Byte>, synthesize: bool)
    ensures Parse(s, synthesize).Ops? <==> exists ops :: AllWellFormed(ops, synthesize) && AllWritten(ops) == s
    ensures forall ops :: AllWellFormed(ops, synthesize) && AllWritten(ops) == s ==> Parse(s, synthesize) == Ops(ops)
  {
    if Parse(s, synthesize).Ops? { WrittenOfParse(s, synthesize, Parse(s, synthesize).ops); }
    forall ops | AllWellFormed(ops, synthesize) && AllWritten(ops) == s ensures Parse(s, synthesize) == Ops(ops) {
      ParseOfWritten(ops, synthesize);
    }
  }

  // ---------------------------------------------------------------- pushing

  /** A push, or the overflow error of a length that four bytes cannot hold. */
  datatype Pushed = Script(bytes: seq<Byte>) | Overflow

  function PushHeader(length: nat): Pushed {
    if length < OP_PUSHDATA1 then Script(LittleEndian(length, 1))
    else if length <= 0xff then Script([OP_PUSHDATA1] + LittleEndian(length, 1))
    else if length <= 0xffff then Script([OP_PUSHDATA2] + LittleEndian(length, 2))
    else if length < 0x1_0000_0000 then Script([OP_PUSHDATA4] + LittleEndian(length, 4))
    else Overflow
  }

  function Push(data: seq<Byte>, minimal: bool): Pushed {
    if minimal && (data == [] || data == [0]) then Script([0])
    else if minimal && |data| == 1 && 1 <= data[0] <= 16 then Script([OP_1 + (data[0] - 1)])
    else if minimal && |data| == 1 && data[0] == 0x81 then Script([OP_1NEGATE])
    else
      var h := PushHeader(|data|);
      if h.Overflow? then Overflow else Script(h.bytes + data)
  }

  /** Data pushed by a small-number code under minimal pushing. */
  predicate SmallNumber(data: seq<Byte>) { |data| == 1 && (1 <= data[0] <= 16 || data[0] == 0x81) }

  /** The operation a push stands for. */
  function PushOp(data: seq<Byte>, minimal: bool, synthesize: bool): Op
    requires |data| < 0x1_0000_0000
  {
    if minimal && data == [0] then Op(0, Bytes([]))
    else if minimal && SmallNumber(data) then
      Op(if data[0] == 0x81 then OP_1NEGATE else OP_1 + (data[0] - 1), if synthesize then Bytes(data) else NoData)
    else
      var n := |data|;
      Op(if n < OP_PUSHDATA1 then n else if n <= 0xff then OP_PUSHDATA1 else if n <= 0xffff then OP_PUSHDATA2 else OP_PUSHDATA4,
         Bytes(data))
  }

  lemma Widths()
    ensures Pow(256, 0) == 1 && Pow(256, 1) == 0x100 && Pow(256, 2) == 0x1_0000 && Pow(256, 4) == 0x1_0000_0000
  {
    PowAdd(256, 2, 2);
  }

  lemma PushIsWritten(data: seq<Byte>, minimal: bool, synthesize: bool)
    requires |data| < 0x1_0000_0000
    ensures WellFormed(PushOp(data, minimal, synthesize), synthesize)
    ensures Push(data, minimal) == Script(Written(PushOp(data, minimal, synthesize)))
  {
    Widths();
    var (n, op) := (|data|, PushOp(data, minimal, synthesize));
    if minimal && (data == [0] || SmallNumber(data)) {
      if data == [0] { assert [op.code] + LittleEndian(0, 0) + [] == [0]; }
    } else if n < OP_PUSHDATA1 {
      assert LittleEndian(n, 1) == [n];
      assert [op.code] + LittleEndian(n, 0) + data == [n] + data;
    }
  }

  /** Minimal pushes of a single byte: one byte for zero, for the numbers 1 to 16 and for -1, two up to 255. */
  lemma SinglePushes(b: Byte)
    ensures Push([b], true) == Script(if b == 0 then [0] else if b <= 16 then [0x50 + b] else if b == 0x81 then [0x4f] else [1, b])
  {}

  /** Pushes of at most 2^32 - 1 bytes succeed, and no others. */
  lemma PushOverflows(data: seq<Byte>, minimal: bool)
    ensures Push(data, minimal).Overflow? <==> |data| >= 0x1_0000_0000
  {}

  ghost predicate Pushable(list: seq<seq<Byte>>) { forall i :: 0 <= i < |list| ==> |list[i]| < 0x1_0000_0000 }

  function Pushes(list: seq<seq<Byte>>, minimal: bool): seq<Byte>
    requires Pushable(list)
  {
    if list == [] then []
    else
      PushOverflows(list[0], minimal);
      Push(list[0], minimal).bytes + Pushes(list[1..], minimal)
  }

  function PushOps(list: seq<seq<Byte>>, minimal: bool, synthesize: bool): (ops: seq<Op>)
    requires Pushable(list)
    ensures |ops| == |list| && forall i :: 0 <= i < |list| ==> ops[i] == PushOp(list[i], minimal, synthesize)
  {
    if list == [] then [] else [PushOp(list[0], minimal, synthesize)] + PushOps(list[1..], minimal, synthesize)
  }

  lemma {:induction false} PushesAreWritten(list: seq<seq<Byte>>, minimal: bool, synthesize: bool)
    requires Pushable(list)
    ensures AllWellFormed(PushOps(list, minimal, synthesize), synthesize)
    ensures Pushes(list, minimal) == AllWritten(PushOps(list, minimal, synthesize))
  {
    if list != [] {
      PushIsWritten(list[0], minimal, synthesize);
      PushesAreWritten(list[1..], minimal, synthesize);
      assert PushOps(list, minimal, synthesize)[1..] == PushOps(list[1..], minimal, synthesize);
    }
  }

  /** The parser gives back byte string i as it was pushed. */
  predicate GivenBack(data: seq<Byte>, minimal: bool, synthesize: bool) {
    minimal ==> data != [0] && (synthesize || !SmallNumber(data))
  }

  /** Parsing any concatenation of pushes yields one operation per push. It yields exactly the pushed
      strings when, and only when, minimal pushing met no lone zero byte (which became an empty push), and
      no small number unless the parser synthesizes its data. */
  lemma ParseOfPushes(list: seq<seq<Byte>>, minimal: bool, synthesize: bool)
    requires Pushable(list)
    ensures var p := Parse(Pushes(list, minimal), synthesize);
            p.Ops? && |p.ops| == |list| &&
            forall i :: 0 <= i < |list| ==> (p.ops[i].data == Bytes(list[i]) <==> GivenBack(list[i], minimal, synthesize))
  {
    PushesAreWritten(list, minimal, synthesize);
    ParseOfWritten(PushOps(list, minimal, synthesize), synthesize);
  }

  /** No operation that stands for the data is written in fewer bytes than its minimal push. */
  lemma MinimalPushIsShortest(data: seq<Byte>, op: Op)
    requires |data| < 0x1_0000_0000 && data != [0]
    requires WellFormed(op, true) && op.data == Bytes(data)
    ensures Push(data, true).Script? && |Push(data, true).bytes| <= |Written(op)|
  {
    PushIsWritten(data, true, true);
    Widths();
  }
}
