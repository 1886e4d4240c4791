/**
 * The trace recorder (recording/src/ExecutionRecorder.ts): the instrumented
 * program reports function entries, reached blocks and returns, and the
 * recorder packs them into a byte buffer. An instruction is one byte whose
 * top two bits give its kind and whose low six bits hold a small operand or
 * say how many operand bytes follow (least significant first); module info
 * is the byte 193, a big-endian 32-bit length and the payload.
 */
module ExecutionRecorders {
  import opened Wrappers
  import opened Bits
  import opened DynamicByteArrays

  /** `InstructionOpCode`. */
  datatype OpCode = SetModuleId | CallFunction | ReachedBlock | ReturnFunction | SetModuleInfo {
    function Code(): byte {
      match this
      case SetModuleId => 0
      case CallFunction => 0x40
      case ReachedBlock => 0x80
      case ReturnFunction => 0xC0
      case SetModuleInfo => 0xC1
    }

    /** The kinds `writeInstruction` is used for; their low six bits are free for an operand. */
    predicate HasOperand() {
      SetModuleId? || CallFunction? || ReachedBlock?
    }
  }

  /** The escapes in the low six bits saying 1, 2 or 3 operand bytes follow. */
  const ESCAPE_1: nat := 61
  const ESCAPE_2: nat := 62
  const ESCAPE_3: nat := 63

  /** `instruction | x` on a byte. */
  function OrByte(a: byte, b: byte): byte {
    Pow2Values();
    BitOrBound(a, b, 8);
    BitOr(a, b)
  }

  /** An opcode with free low bits or-ed with a six-bit value is their sum. */
  lemma OrOpcode(op: OpCode, x: nat)
    requires op.HasOperand() && x < 64
    ensures OrByte(op.Code(), x) == op.Code() + x
  {
    assert Pow2(6) == 64 by { Pow2Values(); }
    BitOrComm(op.Code(), x);
    BitOrDisjoint(x, op.Code() / 64, 6);
  }

  /**
   * The bytes `writeInstruction(instruction, n, buffer)` pushes, or the
   * error it throws. The width tests use `n >>> 8` and `n >>> 16`, which
   * reduce `n` modulo 2^32 before dividing by 2^8 or 2^16; with `fixed`
   * they use the exact quotients `n / 256` and `n / 65536` instead.
   */
  function OperandBytes(op: OpCode, n: nat, fixed: bool): Result<seq<byte>> {
    var hi8 := if fixed then n / 0x100 else (n % TWO_32) / 0x100;
    var hi16 := if fixed then n / 0x1_0000 else (n % TWO_32) / 0x1_0000;
    if n < ESCAPE_1 then Ok([OrByte(op.Code(), n)])
    else if n <= 255 then Ok([OrByte(op.Code(), ESCAPE_1), n])
    else if hi8 < 255 then Ok([OrByte(op.Code(), ESCAPE_2), n % 256, hi8 % 256])
    else if hi16 < 255 then Ok([OrByte(op.Code(), ESCAPE_3), n % 256, hi8 % 256, hi16 % 256])
    else Fail("value is too big")
  }

  /** The largest operand `writeInstruction` accepts is one below 255 * 65536. */
  const OPERAND_LIMIT: nat := 0xFF_0000

  /**
   * The widths by range: one byte below 61, the escape 61 and one byte up
   * to 255, the escape 62 and two bytes below 65280, the escape 63 and
   * three bytes below 16711680, an error from there on. This holds for
   * every operand below 2^32, and for every operand when `fixed`.
   */
  lemma OperandWidths(op: OpCode, n: nat, fixed: bool)
    requires op.HasOperand() && (fixed || n < TWO_32)
    ensures n < 61 ==> OperandBytes(op, n, fixed) == Ok([op.Code() + n])
    ensures 61 <= n <= 255 ==> OperandBytes(op, n, fixed) == Ok([op.Code() + 61, n])
    ensures 256 <= n < 0xFF00 ==> OperandBytes(op, n, fixed) == Ok([op.Code() + 62, n % 256, n / 0x100])
    ensures 0xFF00 <= n < OPERAND_LIMIT ==>
              OperandBytes(op, n, fixed) == Ok([op.Code() + 63, n % 256, (n / 0x100) % 256, n / 0x1_0000])
    ensures OperandBytes(op, n, fixed).Ok? <==> n < OPERAND_LIMIT
  {
    if !fixed {
      AsWrittenBelow32(op, n);
    }
    if n < 61 {
      OrOpcode(op, n);
    } else if n <= 255 {
      OrOpcode(op, 61);
    } else if n < 0xFF00 {
      OrOpcode(op, 62);
      assert OperandBytes(op, n, true) == Ok([op.Code() + 62, n % 256, n / 0x100]) by {
        DivBelow(n, 0x100, 255);
      }
    } else if n < OPERAND_LIMIT {
      OrOpcode(op, 63);
      assert OperandBytes(op, n, true) == Ok([op.Code() + 63, n % 256, (n / 0x100) % 256, n / 0x1_0000]) by {
        AtLeastQuotient(n, 0x100, 255);
        DivBelow(n, 0x1_0000, 255);
      }
    } else {
      assert OperandBytes(op, n, true).Fail? by {
        AtLeastQuotient(n, 0x100, 255);
        AtLeastQuotient(n, 0x1_0000, 255);
      }
    }
  }

  /** Below 2^32 `>>>` is exact, so the code as written and the corrected tests agree. */
  lemma AsWrittenBelow32(op: OpCode, n: nat)
    requires n < TWO_32
    ensures OperandBytes(op, n, false) == OperandBytes(op, n, true)
  {
    ModUnique(n, TWO_32, 0, n);
  }

  lemma AtLeastQuotient(x: nat, d: nat, c: nat)
    requires d > 0 && x >= d * c
    ensures x / d >= c
  {
    ModUnique(x - d * c, d, (x - d * c) / d, (x - d * c) % d);
    ModUnique(x, d, (x - d * c) / d + c, (x - d * c) % d);
  }

  /** Whatever the operand, a written first byte carries the opcode's kind in its top two bits. */
  lemma FirstByteKind(op: OpCode, n: nat, fixed: bool)
    requires op.HasOperand() && OperandBytes(op, n, fixed).Ok?
    ensures |OperandBytes(op, n, fixed).value| >= 1
    ensures OperandBytes(op, n, fixed).value[0] / 64 == op.Code() / 64
  {
    OrOpcode(op, if n < 61 then n else if n <= 255 then 61 else 62);
    OrOpcode(op, 63);
  }

  /** What a write leaves in the buffer: the bytes, or nothing when it throws. */
  function Appended(r: Result<seq<byte>>): seq<byte> {
    if r.Ok? then r.value else []
  }

  /** The outcome of a write: normal completion or the thrown error. */
  function Outcome(r: Result<seq<byte>>): Result<()> {
    match r
    case Ok(_) => Ok(())
    case Fail(e) => Fail(e)
  }

  /** The bytes `writeModuleInfo` appends for an encoded payload. */
  function ModuleInfoBytes(payload: seq<byte>): (r: seq<byte>)
    ensures |r| == 5 + |payload| && r[0] == SetModuleInfo.Code() && r[5..] == payload
  {
    [SetModuleInfo.Code()] + BigEndian32(|payload|) + payload
  }

  lemma Pushed2(c0: seq<byte>, c1: seq<byte>, c2: seq<byte>, a: byte, b: byte)
    requires c1 == c0 + [a] && c2 == c1 + [b]
    ensures c2 == c0 + [a, b]
  {
  }

  lemma Pushed3(c0: seq<byte>, c1: seq<byte>, c2: seq<byte>, c3: seq<byte>, a: byte, b: byte, c: byte)
    requires c1 == c0 + [a] && c2 == c1 + [b] && c3 == c2 + [c]
    ensures c3 == c0 + [a, b, c]
  {
  }

  lemma Pushed4(c0: seq<byte>, c1: seq<byte>, c2: seq<byte>, c3: seq<byte>, c4: seq<byte>,
                a: byte, b: byte, c: byte, d: byte)
    requires c1 == c0 + [a] && c2 == c1 + [b] && c3 == c2 + [c] && c4 == c3 + [d]
    ensures c4 == c0 + [a, b, c, d]
  {
  }

  lemma PushedPrefix(header: seq<byte>, payload: seq<byte>, i: nat, before: seq<byte>, after: seq<byte>)
    requires i < |payload| && before == header + payload[..i] && after == before + [payload[i]]
    ensures after == header + payload[..i + 1]
  {
    assert payload[..i + 1] == payload[..i] + [payload[i]];
  }

  lemma ModuleInfoPushed(start: seq<byte>, tagged: seq<byte>, header: seq<byte>, done: seq<byte>, payload: seq<byte>)
    requires tagged == start + [SetModuleInfo.Code()] && header == tagged + BigEndian32(|payload|)
    requires done == header + payload[..|payload|]
    ensures done == start + ModuleInfoBytes(payload)
  {
    assert payload[..|payload|] == payload;
  }

  /** `writeInstruction`. */
  method WriteInstruction(op: OpCode, n: nat, buffer: DynamicByteArray) returns (r: Result<()>)
    requires buffer.Valid()
    modifies buffer, buffer.buffer
    ensures buffer.Valid() && buffer.Contents() == old(buffer.Contents()) + Appended(OperandBytes(op, n, false))
    ensures r == Outcome(OperandBytes(op, n, false))
    ensures buffer.buffer == old(buffer.buffer) || fresh(buffer.buffer)
  {
    ghost var w := OperandBytes(op, n, false);
    ghost var c0 := buffer.Contents();
    if n < ESCAPE_1 {
      buffer.Push(OrByte(op.Code(), n));
      assert w.value == [OrByte(op.Code(), n)];
    } else if n <= 255 {
      var first := OrByte(op.Code(), ESCAPE_1);
      buffer.Push(first);
      ghost var c1 := buffer.Contents();
      buffer.Push(n);
      assert w.value == [first, n];
      Pushed2(c0, c1, buffer.Contents(), first, n);
    } else if (n % TWO_32) / 0x100 < 255 {
      var first, lo, hi := OrByte(op.Code(), ESCAPE_2), n % 256, (n % TWO_32) / 0x100 % 256;
      buffer.Push(first);
      ghost var c1 := buffer.Contents();
      buffer.Push(lo);
      ghost var c2 := buffer.Contents();
      buffer.Push(hi);
      assert w.value == [first, lo, hi];
      Pushed3(c0, c1, c2, buffer.Contents(), first, lo, hi);
    } else if (n % TWO_32) / 0x1_0000 < 255 {
      var first, lo, mid, hi := OrByte(op.Code(), ESCAPE_3), n % 256, (n % TWO_32) / 0x100 % 256, (n % TWO_32) / 0x1_0000 % 256;
      buffer.Push(first);
      ghost var c1 := buffer.Contents();
      buffer.Push(lo);
      ghost var c2 := buffer.Contents();
      buffer.Push(mid);
      ghost var c3 := buffer.Contents();
      buffer.Push(hi);
      assert w.value == [first, lo, mid, hi];
      Pushed4(c0, c1, c2, c3, buffer.Contents(), first, lo, mid, hi);
    } else {
      return Fail("value is too big");
    }
    r := Ok(());
  }

  /** `InstructionWriter`: the instruction-level interface over one buffer. */
  class InstructionWriter {
    const buffer: DynamicByteArray

    ghost predicate Valid()
      reads this, buffer
    {
      buffer.Valid()
    }

    /** The bytes written so far. */
    function Bytes(): seq<byte>
      reads this, buffer, buffer.buffer
      requires Valid()
    {
      buffer.Contents()
    }

    constructor()
      ensures Valid() && Bytes() == []
      ensures fresh(buffer) && fresh(buffer.buffer)
    {
      buffer := new DynamicByteArray();
    }

    method GetBuffer() returns (r: seq<byte>)
      requires Valid()
      ensures r == Bytes()
    {
      r := buffer.GetBuffer();
    }

    /** `writeModuleInfo`, given the encoded payload. */
    method WriteModuleInfo(payload: seq<byte>)
      requires Valid()
      modifies buffer, buffer.buffer
      ensures Valid() && Bytes() == old(Bytes()) + ModuleInfoBytes(payload)
      ensures buffer.buffer == old(buffer.buffer) || fresh(buffer.buffer)
    {
      ghost var start := buffer.Contents();
      buffer.Push(SetModuleInfo.Code());
      ghost var tagged := buffer.Contents();
      buffer.PushU32(|payload|);
      ghost var header := buffer.Contents();
      var i := 0;
      while i < |payload|
        invariant 0 <= i <= |payload|
        invariant buffer.Valid() && buffer.Contents() == header + payload[..i]
        invariant buffer.buffer == old(buffer.buffer) || fresh(buffer.buffer)
      {
        ghost var before := buffer.Contents();
        buffer.Push(payload[i]);
        PushedPrefix(header, payload, i, before, buffer.Contents());
        i := i + 1;
      }
      ModuleInfoPushed(start, tagged, header, buffer.Contents(), payload);
    }

    method WriteFunctionEnter(functionId: nat) returns (r: Result<()>)
      requires Valid()
      modifies buffer, buffer.buffer
      ensures Valid() && Bytes() == old(Bytes()) + Appended(OperandBytes(CallFunction, functionId, false))
      ensures r == Outcome(OperandBytes(CallFunction, functionId, false))
      ensures buffer.buffer == old(buffer.buffer) || fresh(buffer.buffer)
    {
      r := WriteInstruction(CallFunction, functionId, buffer);
    }

    method WriteBlockExecution(blockId: nat) returns (r: Result<()>)
      requires Valid()
      modifies buffer, buffer.buffer
      ensures Valid() && Bytes() == old(Bytes()) + Appended(OperandBytes(ReachedBlock, blockId, false))
      ensures r == Outcome(OperandBytes(ReachedBlock, blockId, false))
      ensures buffer.buffer == old(buffer.buffer) || fresh(buffer.buffer)
    {
      r := WriteInstruction(ReachedBlock, blockId, buffer);
    }

    method WriteFunctionReturn()
      requires Valid()
      modifies buffer, buffer.buffer
      ensures Valid() && Bytes() == old(Bytes()) + [ReturnFunction.Code()]
      ensures buffer.buffer == old(buffer.buffer) || fresh(buffer.buffer)
    {
      buffer.Push(ReturnFunction.Code());
    }

    method WriteSetModuleId(moduleId: nat) returns (r: Result<()>)
      requires Valid()
      modifies buffer, buffer.buffer
      ensures Valid() && Bytes() == old(Bytes()) + Appended(OperandBytes(SetModuleId, moduleId, false))
      ensures r == Outcome(OperandBytes(SetModuleId, moduleId, false))
      ensures buffer.buffer == old(buffer.buffer) || fresh(buffer.buffer)
    {
      r := WriteInstruction(SetModuleId, moduleId, buffer);
    }
  }

  /** What a recorder holds: `_lastModuleId`, `_resolvedModules` and the bytes written. */
  datatype RecorderState = RecorderState(lastModuleId: int, resolved: set<nat>, bytes: seq<byte>)

  /** A recorder call's new state and whether it completed or threw. */
  datatype Recorded = Recorded(state: RecorderState, outcome: Result<()>)

  /** A fresh recorder: no module yet (`-1`), none resolved, an empty buffer. */
  const Initial := RecorderState(-1, {}, [])

  /** `_writeModuleInfoIfNeeded`, given the encoded payload of the module. */
  function InfoIfNeeded(st: RecorderState, moduleId: nat, payload: seq<byte>): RecorderState {
    if moduleId in st.resolved then st
    else RecorderState(st.lastModuleId, st.resolved + {moduleId}, st.bytes + ModuleInfoBytes(payload))
  }

  /** `writeFunctionEnter` on a state. */
  function EnterFunction(st: RecorderState, functionId: nat): Recorded {
    var w := OperandBytes(CallFunction, functionId, false);
    Recorded(st.(bytes := st.bytes + Appended(w)), Outcome(w))
  }

  /** `recordFunctionEnter`; `resolve` stands for `resolveModuleId` followed by the payload encoding. */
  function Enter(st: RecorderState, moduleId: nat, functionId: nat, resolve: nat -> seq<byte>): Recorded {
    if moduleId != st.lastModuleId then
      match OperandBytes(SetModuleId, moduleId, false)
      case Fail(e) => Recorded(st, Fail(e))
      case Ok(idBytes) =>
        var switched := RecorderState(moduleId, st.resolved, st.bytes + idBytes);
        EnterFunction(InfoIfNeeded(switched, moduleId, resolve(moduleId)), functionId)
    else EnterFunction(st, functionId)
  }

  /** `recordBlockExecution`. */
  function Block(st: RecorderState, blockId: nat): Recorded {
    var w := OperandBytes(ReachedBlock, blockId, false);
    Recorded(st.(bytes := st.bytes + Appended(w)), Outcome(w))
  }

  /** `recordFunctionReturn`. */
  function Return(st: RecorderState): RecorderState {
    st.(bytes := st.bytes + [ReturnFunction.Code()])
  }

  /** `ExecutionRecorder`. */
  class ExecutionRecorder {
    var lastModuleId: int
    var resolvedModules: set<nat>
    const writer: InstructionWriter
    /** `resolveModuleId`, composed with the JSON and UTF-8 encoding of its result. */
    const resolveModuleId: nat -> seq<byte>

    ghost predicate Valid()
      reads this, writer, writer.buffer
    {
      writer.Valid()
    }

    function State(): RecorderState
      reads this, writer, writer.buffer, writer.buffer.buffer
      requires Valid()
    {
      RecorderState(lastModuleId, resolvedModules, writer.Bytes())
    }

    constructor(resolveModuleId: nat -> seq<byte>)
      ensures Valid() && State() == Initial && this.resolveModuleId == resolveModuleId
      ensures fresh(writer) && fresh(writer.buffer) && fresh(writer.buffer.buffer)
    {
      lastModuleId := -1;
      resolvedModules := {};
      writer := new InstructionWriter();
      this.resolveModuleId := resolveModuleId;
    }

    method GetBuffer() returns (r: seq<byte>)
      requires Valid()
      ensures r == State().bytes
    {
      r := writer.GetBuffer();
    }

    method RecordFunctionEnter(moduleId: nat, functionId: nat) returns (r: Result<()>)
      requires Valid()
      modifies this, writer.buffer, writer.buffer.buffer
      ensures Valid() && Recorded(State(), r) == Enter(old(State()), moduleId, functionId, resolveModuleId)
      ensures writer.buffer.buffer == old(writer.buffer.buffer) || fresh(writer.buffer.buffer)
    {
      if moduleId != lastModuleId {
        r := writer.WriteSetModuleId(moduleId);
        if r.Fail? {
          return;
        }
        lastModuleId := moduleId;
        WriteModuleInfoIfNeeded(moduleId);
      }
      r := writer.WriteFunctionEnter(functionId);
    }

    method RecordBlockExecution(blockId: nat) returns (r: Result<()>)
      requires Valid()
      modifies writer.buffer, writer.buffer.buffer
      ensures Valid() && Recorded(State(), r) == Block(old(State()), blockId)
      ensures writer.buffer.buffer == old(writer.buffer.buffer) || fresh(writer.buffer.buffer)
    {
      r := writer.WriteBlockExecution(blockId);
    }

    method RecordFunctionReturn()
      requires Valid()
      modifies writer.buffer, writer.buffer.buffer
      ensures Valid() && State() == Return(old(State()))
      ensures writer.buffer.buffer == old(writer.buffer.buffer) || fresh(writer.buffer.buffer)
    {
      writer.WriteFunctionReturn();
    }

    method WriteModuleInfoIfNeeded(moduleId: nat)
      requires Valid()
      modifies this, writer.buffer, writer.buffer.buffer
      ensures Valid() && State() == InfoIfNeeded(old(State()), moduleId, resolveModuleId(moduleId))
      ensures writer.buffer.buffer == old(writer.buffer.buffer) || fresh(writer.buffer.buffer)
    {
      if moduleId in resolvedModules {
        return;
      }
      resolvedModules := resolvedModules + {moduleId};
      var payload := resolveModuleId(moduleId);
      writer.WriteModuleInfo(payload);
    }
  }
}
