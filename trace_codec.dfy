/**
 * The trace wire format end to end: the bytes the recorder's writer
 * (recording/src/ExecutionRecorder.ts) produces for an instruction, and the
 * proof that the analyzer's decoder (recording-analyzer-rust/src/instruction.rs)
 * reads exactly that instruction back.
 */
module TraceCodec {
  import opened Wrappers
  import opened Bits
  import opened DynamicByteArrays
  import opened InstructionDecoder
  import W = ExecutionRecorders

  /** The bytes the writer appends for an instruction, or the error it throws. */
  function Wire(i: Instruction): Result<seq<byte>> {
    match i
    case SetModuleId(m) => W.OperandBytes(W.SetModuleId, m, false)
    case CallFunction(f) => W.OperandBytes(W.CallFunction, f, false)
    case ReachedBlock(b) => W.OperandBytes(W.ReachedBlock, b, false)
    case ReturnFunction => Ok([W.OpCode.ReturnFunction.Code()])
    case SetModuleInfo(p) => Ok(W.ModuleInfoBytes(p))
  }

  /** The bytes for a list of instructions written one after another. */
  function WireAll(instrs: seq<Instruction>): Result<seq<byte>>
    decreases |instrs|
  {
    if instrs == [] then Ok([])
    else
      var first :- Wire(instrs[0]);
      var rest :- WireAll(instrs[1..]);
      Ok(first + rest)
  }

  /** Operands the writer accepts, and payloads whose length fits the 32-bit length field. */
  predicate Encodable(i: Instruction) {
    match i
    case SetModuleId(m) => m < W.OPERAND_LIMIT
    case CallFunction(f) => f < W.OPERAND_LIMIT
    case ReachedBlock(b) => b < W.OPERAND_LIMIT
    case ReturnFunction => true
    case SetModuleInfo(p) => |p| < TWO_32
  }

  predicate AllEncodable(instrs: seq<Instruction>) {
    forall k :: 0 <= k < |instrs| ==> Encodable(instrs[k])
  }

  /** `data` holds `w` from `pos` on. */
  predicate EncodedAt(data: seq<byte>, pos: nat, w: seq<byte>) {
    pos + |w| <= |data| && forall j :: 0 <= j < |w| ==> data[pos + j] == w[j]
  }

  /** One byte of an encoding placed at `pos`. */
  lemma EncodedByte(data: seq<byte>, pos: nat, w: seq<byte>, j: nat)
    requires EncodedAt(data, pos, w) && j < |w|
    ensures data[pos + j] == w[j]
  {
  }

  /** The instruction the decoder builds for an opcode and operand. */
  function Decoded(op: W.OpCode, n: nat): Instruction
    requires op.HasOperand()
  {
    match op
    case SetModuleId => SetModuleId(n)
    case CallFunction => CallFunction(n)
    case ReachedBlock => ReachedBlock(n)
  }

  /** The writer accepts every encodable instruction. */
  lemma WireOk(i: Instruction)
    requires Encodable(i)
    ensures Wire(i).Ok?
  {
    match i
    case SetModuleId(m) => W.OperandWidths(W.SetModuleId, m, false);
    case CallFunction(f) => W.OperandWidths(W.CallFunction, f, false);
    case ReachedBlock(b) => W.OperandWidths(W.ReachedBlock, b, false);
    case ReturnFunction =>
    case SetModuleInfo(p) =>
  }

  /** The low six bits of an opcode with free low bits plus `x` are `x`. */
  lemma LowBits(op: W.OpCode, x: nat)
    requires op.HasOperand() && x < 64
    ensures (op.Code() + x) % 64 == x && (op.Code() + x) / 64 == op.Code() / 64
  {
    ModUnique(op.Code() + x, 64, op.Code() / 64, x);
  }

  /** The three little-endian bytes of a value below 2^24 put back together. */
  lemma ThreeBytes(n: nat)
    ensures n % 256 + 0x100 * ((n / 0x100) % 256) + 0x1_0000 * (n / 0x1_0000) == n
  {
    var q1 := n / 0x100;
    assert n == 0x100 * q1 + n % 256;
    assert q1 == 0x100 * (q1 / 0x100) + q1 % 256;
    assert q1 / 0x100 == n / 0x1_0000 by { DivDiv(n, 0x100, 0x100); }
  }

  /** An operand instruction decodes to its kind with the operand `read_u32_vl` reads. */
  lemma OperandDecode(op: W.OpCode, data: seq<byte>, pos: nat, v: nat, next: nat)
    requires op.HasOperand() && pos < |data| && data[pos] / 64 == op.Code() / 64
    requires ReadU32Vl(data, pos + 1, data[pos]) == Ok(Read(v, next))
    ensures FromIter(data, pos) == Ok(Some(Read(Decoded(op, v), next)))
  {
  }

  /** The operand `read_u32_vl` reads from the writer's bytes. */
  lemma OperandRead(op: W.OpCode, n: nat, fixed: bool, data: seq<byte>, pos: nat)
    requires op.HasOperand() && (fixed || n < TWO_32) && W.OperandBytes(op, n, fixed).Ok?
    requires EncodedAt(data, pos, W.OperandBytes(op, n, fixed).value)
    ensures data[pos] / 64 == op.Code() / 64
    ensures ReadU32Vl(data, pos + 1, data[pos]) == Ok(Read(n, pos + |W.OperandBytes(op, n, fixed).value|))
  {
    W.OperandWidths(op, n, fixed);
    if n < 61 {
      ReadDirect(op, n, data, pos);
    } else if n <= 255 {
      ReadEscape1(op, n, data, pos);
    } else if n < 0xFF00 {
      ReadEscape2(op, n, data, pos);
    } else {
      ReadEscape3(op, n, data, pos);
    }
  }

  lemma ReadDirect(op: W.OpCode, n: nat, data: seq<byte>, pos: nat)
    requires op.HasOperand() && n < 61 && EncodedAt(data, pos, [op.Code() + n])
    ensures data[pos] / 64 == op.Code() / 64 && ReadU32Vl(data, pos + 1, data[pos]) == Ok(Read(n, pos + 1))
  {
    EncodedByte(data, pos, [op.Code() + n], 0);
    LowBits(op, n);
  }

  lemma ReadEscape1(op: W.OpCode, n: nat, data: seq<byte>, pos: nat)
    requires op.HasOperand() && 61 <= n <= 255 && EncodedAt(data, pos, [op.Code() + 61, n])
    ensures data[pos] / 64 == op.Code() / 64 && ReadU32Vl(data, pos + 1, data[pos]) == Ok(Read(n, pos + 2))
  {
    var w := [op.Code() + 61, n];
    EncodedByte(data, pos, w, 0);
    EncodedByte(data, pos, w, 1);
    LowBits(op, 61);
  }

  lemma ReadEscape2(op: W.OpCode, n: nat, data: seq<byte>, pos: nat)
    requires op.HasOperand() && 256 <= n < 0xFF00 && n / 0x100 < 256
    requires EncodedAt(data, pos, [op.Code() + 62, n % 256, n / 0x100])
    ensures data[pos] / 64 == op.Code() / 64 && ReadU32Vl(data, pos + 1, data[pos]) == Ok(Read(n, pos + 3))
  {
    var w := [op.Code() + 62, n % 256, n / 0x100];
    EncodedByte(data, pos, w, 0);
    EncodedByte(data, pos, w, 1);
    EncodedByte(data, pos, w, 2);
    LowBits(op, 62);
    ReadTwoBytes(data, pos + 1, data[pos]);
  }

  lemma ReadEscape3(op: W.OpCode, n: nat, data: seq<byte>, pos: nat)
    requires op.HasOperand() && 0xFF00 <= n < W.OPERAND_LIMIT && n / 0x1_0000 < 256
    requires EncodedAt(data, pos, [op.Code() + 63, n % 256, (n / 0x100) % 256, n / 0x1_0000])
    ensures data[pos] / 64 == op.Code() / 64 && ReadU32Vl(data, pos + 1, data[pos]) == Ok(Read(n, pos + 4))
  {
    var w := [op.Code() + 63, n % 256, (n / 0x100) % 256, n / 0x1_0000];
    EncodedByte(data, pos, w, 0);
    EncodedByte(data, pos, w, 1);
    EncodedByte(data, pos, w, 2);
    EncodedByte(data, pos, w, 3);
    LowBits(op, 63);
    ReadThreeBytes(data, pos + 1, data[pos]);
    ThreeBytes(n);
  }

  /**
   * Decoding an operand instruction the writer produced gives back the
   * opcode's instruction with the same operand, just past its bytes. This
   * holds for every operand the corrected width tests accept, and for
   * every accepted operand below 2^32 as the code is written.
   */
  lemma OperandRoundTrip(op: W.OpCode, n: nat, fixed: bool, data: seq<byte>, pos: nat)
    requires op.HasOperand() && (fixed || n < TWO_32) && W.OperandBytes(op, n, fixed).Ok?
    requires EncodedAt(data, pos, W.OperandBytes(op, n, fixed).value)
    ensures FromIter(data, pos) == Ok(Some(Read(Decoded(op, n), pos + |W.OperandBytes(op, n, fixed).value|)))
  {
    OperandRead(op, n, fixed, data, pos);
    OperandDecode(op, data, pos, n, pos + |W.OperandBytes(op, n, fixed).value|);
  }

  /** Decoding module info the writer produced gives back the payload, just past it. */
  lemma ModuleInfoRoundTrip(p: seq<byte>, data: seq<byte>, pos: nat)
    requires |p| < TWO_32 && EncodedAt(data, pos, W.ModuleInfoBytes(p))
    ensures FromIter(data, pos) == Ok(Some(Read(SetModuleInfo(p), pos + 5 + |p|)))
  {
    ModuleInfoHeader(p, data, pos);
    ModuleInfoPayload(p, data, pos);
  }

  /** The tag and the announced length of written module info. */
  lemma ModuleInfoHeader(p: seq<byte>, data: seq<byte>, pos: nat)
    requires |p| < TWO_32 && EncodedAt(data, pos, W.ModuleInfoBytes(p))
    ensures data[pos] == 0xC1 && ReadU32(data, pos + 1) == Ok(Read(|p|, pos + 5))
  {
    var w := W.ModuleInfoBytes(p);
    var d := BigEndian32(|p|);
    assert w[1..5] == d;
    EncodedByte(data, pos, w, 0);
    EncodedByte(data, pos, w, 1);
    EncodedByte(data, pos, w, 2);
    EncodedByte(data, pos, w, 3);
    EncodedByte(data, pos, w, 4);
    assert data[pos + 1] == d[0] && data[pos + 2] == d[1] && data[pos + 3] == d[2] && data[pos + 4] == d[3];
    BigEndian32Value(|p|);
    ReadU32Value(data, pos + 1);
  }

  /** The payload of written module info follows its five header bytes. */
  lemma ModuleInfoPayload(p: seq<byte>, data: seq<byte>, pos: nat)
    requires EncodedAt(data, pos, W.ModuleInfoBytes(p))
    ensures pos + 5 + |p| <= |data| && data[pos + 5..pos + 5 + |p|] == p
  {
    var w := W.ModuleInfoBytes(p);
    forall j | 0 <= j < |p|
      ensures data[pos + 5..pos + 5 + |p|][j] == p[j]
    {
      EncodedByte(data, pos, w, 5 + j);
      assert w[5 + j] == w[5..][j];
    }
  }

  /** A lone 192 decodes as a return. */
  lemma ReturnDecode(data: seq<byte>, pos: nat)
    requires pos < |data| && data[pos] == 0xC0
    ensures FromIter(data, pos) == Ok(Some(Read(ReturnFunction, pos + 1)))
  {
  }

  /** Each encodable instruction decodes back to itself, just past its bytes. */
  lemma WireRoundTrip(i: Instruction, data: seq<byte>, pos: nat)
    requires Encodable(i) && Wire(i).Ok? && EncodedAt(data, pos, Wire(i).value)
    ensures FromIter(data, pos) == Ok(Some(Read(i, pos + |Wire(i).value|)))
  {
    var w := Wire(i).value;
    match i
    case SetModuleId(m) =>
      assert Wire(i) == W.OperandBytes(W.SetModuleId, m, false) && Decoded(W.SetModuleId, m) == i;
      OperandWireRoundTrip(i, W.SetModuleId, m, data, pos);
    case CallFunction(f) =>
      assert Wire(i) == W.OperandBytes(W.CallFunction, f, false) && Decoded(W.CallFunction, f) == i;
      OperandWireRoundTrip(i, W.CallFunction, f, data, pos);
    case ReachedBlock(b) =>
      assert Wire(i) == W.OperandBytes(W.ReachedBlock, b, false) && Decoded(W.ReachedBlock, b) == i;
      OperandWireRoundTrip(i, W.ReachedBlock, b, data, pos);
    case ReturnFunction =>
      assert w == [0xC0];
      assert data[pos] == w[0];
      ReturnDecode(data, pos);
    case SetModuleInfo(p) =>
      assert w == W.ModuleInfoBytes(p) && |w| == 5 + |p|;
      ModuleInfoRoundTrip(p, data, pos);
  }

  lemma OperandWireRoundTrip(i: Instruction, op: W.OpCode, n: nat, data: seq<byte>, pos: nat)
    requires op.HasOperand() && n < TWO_32 && i == Decoded(op, n)
    requires Wire(i) == W.OperandBytes(op, n, false) && Wire(i).Ok? && EncodedAt(data, pos, Wire(i).value)
    ensures FromIter(data, pos) == Ok(Some(Read(i, pos + |Wire(i).value|)))
  {
    OperandRoundTrip(op, n, false, data, pos);
  }

  /** Writing a list of encodable instructions succeeds. */
  lemma {:induction false} WireAllOk(instrs: seq<Instruction>)
    requires AllEncodable(instrs)
    ensures WireAll(instrs).Ok?
    decreases |instrs|
  {
    if instrs != [] {
      AllEncodableTail(instrs);
      WireOk(instrs[0]);
      WireAllOk(instrs[1..]);
    }
  }

  /** Bytes placed as `a + b` hold `a` at the start and `b` right after it. */
  lemma EncodedSplit(data: seq<byte>, pos: nat, a: seq<byte>, b: seq<byte>)
    requires EncodedAt(data, pos, a + b)
    ensures EncodedAt(data, pos, a) && EncodedAt(data, pos + |a|, b)
  {
    forall j | 0 <= j < |a|
      ensures data[pos + j] == a[j]
    {
      assert (a + b)[j] == a[j];
    }
    forall j | 0 <= j < |b|
      ensures data[pos + |a| + j] == b[j]
    {
      assert (a + b)[|a| + j] == b[j];
    }
  }

  /** One step of the decoding loop. */
  lemma DecodeStep(data: seq<byte>, pos: nat, i: Instruction, next: nat, rest: seq<Instruction>)
    requires FromIter(data, pos) == Ok(Some(Read(i, next))) && DecodeFrom(data, next) == Ok(rest)
    ensures DecodeFrom(data, pos) == Ok([i] + rest)
  {
  }

  lemma AllEncodableTail(instrs: seq<Instruction>)
    requires instrs != [] && AllEncodable(instrs)
    ensures Encodable(instrs[0]) && AllEncodable(instrs[1..])
  {
    assert forall k :: 0 <= k < |instrs| - 1 ==> instrs[1..][k] == instrs[k + 1];
  }

  /** Decoding from `pos` to the end of data that holds the writer's bytes for `instrs` there. */
  lemma {:induction false} DecodeWireAll(instrs: seq<Instruction>, data: seq<byte>, pos: nat)
    requires AllEncodable(instrs) && WireAll(instrs).Ok?
    requires EncodedAt(data, pos, WireAll(instrs).value) && pos + |WireAll(instrs).value| == |data|
    ensures DecodeFrom(data, pos) == Ok(instrs)
    decreases |instrs|
  {
    if instrs == [] {
      assert FromIter(data, pos) == Ok(None);
    } else {
      var first := Wire(instrs[0]).value;
      var rest := WireAll(instrs[1..]).value;
      var next := pos + |first|;
      var tail := instrs[1..];
      assert WireAll(instrs).value == first + rest;
      EncodedSplit(data, pos, first, rest);
      AllEncodableTail(instrs);
      assert FromIter(data, pos) == Ok(Some(Read(instrs[0], next))) by {
        WireRoundTrip(instrs[0], data, pos);
      }
      assert DecodeFrom(data, next) == Ok(tail) by {
        DecodeWireAll(tail, data, next);
      }
      DecodeStep(data, pos, instrs[0], next, tail);
      assert [instrs[0]] + tail == instrs;
    }
  }

  /**
   * The round trip of the trace format: decoding the bytes written for a
   * list of encodable instructions yields that list.
   */
  lemma DecodeOfWrite(instrs: seq<Instruction>)
    requires AllEncodable(instrs)
    ensures WireAll(instrs).Ok? && DecodeFrom(WireAll(instrs).value, 0) == Ok(instrs)
  {
    WireAllOk(instrs);
    DecodeWireAll(instrs, WireAll(instrs).value, 0);
  }

  /**
   * As written, an operand of 2^32 passes the width tests, because
   * `2^32 >>> 8` is 0: it is written as the two-byte form of 0 and read
   * back as 0.
   */
  lemma WrappedOperand()
    ensures W.OperandBytes(W.CallFunction, TWO_32, false) == Ok([0x7E, 0, 0])
    ensures FromIter([0x7E, 0, 0], 0) == Ok(Some(Read(CallFunction(0), 3)))
  {
    Pow2Values();
    W.OrOpcode(W.CallFunction, 62);
    assert TWO_32 % TWO_32 == 0;
    ReadU32VlValue([0x7E, 0, 0], 1, 0x7E);
  }

  /**
   * With the exact width tests the writer throws for every operand from
   * 16711680 on, so every operand it accepts decodes back unchanged
   * (`OperandRoundTrip` with `fixed`).
   */
  lemma FixedOperandLimit(op: W.OpCode, n: nat)
    requires op.HasOperand()
    ensures W.OperandBytes(op, n, true).Ok? <==> n < W.OPERAND_LIMIT
    ensures n == TWO_32 ==> W.OperandBytes(op, n, true) == Fail("value is too big")
  {
    W.OperandWidths(op, n, true);
  }
}
