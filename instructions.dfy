/**
 * The recorder's instruction objects (recording/src/Instruction.ts): their
 * text form, the equality defined through it, and `writeInstruction`,
 * which hands each kind to the matching method of an `InstructionWriter`.
 */
module Instructions {
  import opened Wrappers
  import opened Decimals
  import opened DynamicByteArrays
  import D = InstructionDecoder
  import W = ExecutionRecorders
  import TraceCodec

  /** `Instruction`: the five instruction classes; module info is kept as its JSON text. */
  datatype Instruction =
    | SetModuleIdInstruction(moduleId: nat)
    | SetModuleInfoInstruction(moduleInfoJson: string)
    | CallFunctionInstruction(functionId: nat)
    | ReachedBlockInstruction(blockId: nat)
    | ReturnFunctionInstruction
  {
    /** `toString`. */
    function ToString(): string {
      match this
      case SetModuleIdInstruction(n) => "setModuleId(" + Decimal(n) + ")"
      case SetModuleInfoInstruction(json) => "setModuleInfo(" + json + ")"
      case CallFunctionInstruction(n) => "callFunction(" + Decimal(n) + ")"
      case ReachedBlockInstruction(n) => "reachedBlock(" + Decimal(n) + ")"
      case ReturnFunctionInstruction => "returnFunction"
    }

    /** `equals`: the two instructions print the same. */
    predicate Equals(other: Instruction) {
      ToString() == other.ToString()
    }

    /** The text `toString` starts with, which names the kind. */
    function Head(): (h: string)
      ensures 12 <= |h| <= |ToString()| && ToString()[..|h|] == h
    {
      match this
      case SetModuleIdInstruction(_) => "setModuleId("
      case SetModuleInfoInstruction(_) => "setModuleInfo("
      case CallFunctionInstruction(_) => "callFunction("
      case ReachedBlockInstruction(_) => "reachedBlock("
      case ReturnFunctionInstruction => "returnFunction"
    }

    /**
     * `writeInstruction`. `reencode` stands for `JSON.parse` of the module
     * info text followed by `writeModuleInfo`'s `JSON.stringify` and UTF-8
     * encoding; it fails where `JSON.parse` throws.
     */
    method WriteInstruction(writer: W.InstructionWriter, reencode: string -> Result<seq<byte>>) returns (r: Result<()>)
      requires writer.Valid()
      modifies writer.buffer, writer.buffer.buffer
      ensures writer.Valid() && writer.Bytes() == old(writer.Bytes()) + W.Appended(Wire(this, reencode))
      ensures r == W.Outcome(Wire(this, reencode))
    {
      match this {
        case CallFunctionInstruction(f) =>
          r := writer.WriteFunctionEnter(f);
        case ReachedBlockInstruction(b) =>
          r := writer.WriteBlockExecution(b);
        case ReturnFunctionInstruction =>
          writer.WriteFunctionReturn();
          r := Ok(());
        case SetModuleIdInstruction(m) =>
          r := writer.WriteSetModuleId(m);
        case SetModuleInfoInstruction(json) =>
          var payload := reencode(json);
          if payload.Fail? {
            return Fail(payload.message);
          }
          writer.WriteModuleInfo(payload.value);
          r := Ok(());
      }
    }
  }

  /** The instruction the analyzer reads for a recorded one: module info as its encoded bytes. */
  function Lowered(i: Instruction, reencode: string -> Result<seq<byte>>): Result<D.Instruction> {
    match i
    case SetModuleIdInstruction(m) => Ok(D.SetModuleId(m))
    case SetModuleInfoInstruction(json) =>
      var payload :- reencode(json);
      Ok(D.SetModuleInfo(payload))
    case CallFunctionInstruction(f) => Ok(D.CallFunction(f))
    case ReachedBlockInstruction(b) => Ok(D.ReachedBlock(b))
    case ReturnFunctionInstruction => Ok(D.ReturnFunction)
  }

  /** The bytes `writeInstruction` appends, or what it throws. */
  function Wire(i: Instruction, reencode: string -> Result<seq<byte>>): Result<seq<byte>> {
    match Lowered(i, reencode)
    case Ok(d) => TraceCodec.Wire(d)
    case Fail(e) => Fail(e)
  }

  /** Two kinds with different heads differ at some index both heads have. */
  lemma HeadsDiffer(a: Instruction, b: Instruction)
    requires a.Head() != b.Head()
    ensures exists k :: 0 <= k < |a.Head()| && k < |b.Head()| && a.Head()[k] != b.Head()[k]
  {
    var ha, hb := a.Head(), b.Head();
    if ha[0] != hb[0] {
      assert ha[0] != hb[0];
    } else if ha[0] == 's' {
      assert ha[10] != hb[10];
    } else {
      assert ha[2] != hb[2];
    }
  }

  /** What follows the head of a printed instruction with an operand. */
  lemma ArgumentOf(i: Instruction)
    requires !i.ReturnFunctionInstruction?
    ensures var s := i.ToString();
            |i.Head()| < |s| && s[|i.Head()|..|s| - 1] ==
              match i
              case SetModuleInfoInstruction(json) => json
              case SetModuleIdInstruction(n) => Decimal(n)
              case CallFunctionInstruction(n) => Decimal(n)
              case ReachedBlockInstruction(n) => Decimal(n)
  {
  }

  /** Printing loses nothing: equal texts come from equal instructions. */
  lemma ToStringInjective(a: Instruction, b: Instruction)
    requires a.ToString() == b.ToString()
    ensures a == b
  {
    var s := a.ToString();
    if a.Head() != b.Head() {
      HeadsDiffer(a, b);
      assert false;
    } else if !a.ReturnFunctionInstruction? {
      ArgumentOf(a);
      ArgumentOf(b);
      match a
      case SetModuleIdInstruction(n) => DecimalInjective(n, b.moduleId);
      case CallFunctionInstruction(n) => DecimalInjective(n, b.functionId);
      case ReachedBlockInstruction(n) => DecimalInjective(n, b.blockId);
      case SetModuleInfoInstruction(_) =>
    }
  }

  /** `equals` is structural equality: no two different instructions print alike. */
  lemma EqualsIsEquality(a: Instruction, b: Instruction)
    ensures a.Equals(b) <==> a == b
  {
    if a.Equals(b) {
      ToStringInjective(a, b);
    }
  }

  /**
   * Each kind is written as its own instruction: the bytes `writeInstruction`
   * appends to any trace decode, at the position they start, to the lowered
   * instruction, and end where the next one starts.
   */
  lemma WrittenDecodes(i: Instruction, reencode: string -> Result<seq<byte>>, before: seq<byte>)
    requires Lowered(i, reencode).Ok? && TraceCodec.Encodable(Lowered(i, reencode).value)
    ensures Wire(i, reencode).Ok?
    ensures var w := Wire(i, reencode).value;
            D.FromIter(before + w, |before|) == Ok(Some(D.Read(Lowered(i, reencode).value, |before| + |w|)))
  {
    var d := Lowered(i, reencode).value;
    TraceCodec.WireOk(d);
    var w := TraceCodec.Wire(d).value;
    assert TraceCodec.EncodedAt(before + w, |before|, w) by {
      forall j | 0 <= j < |w|
        ensures (before + w)[|before| + j] == w[j]
      {
      }
    }
    TraceCodec.WireRoundTrip(d, before + w, |before|);
  }
}
