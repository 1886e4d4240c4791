/**
 * The analyzer's queries over a recording (recording-analyzer-rust/src/wasm_api.rs):
 * `decode`, `get_module_info` and `stack_at`. Each consumes the instruction
 * iterator of `InstructionDecoder`; a panic of the decoder or of an
 * `unwrap()` in the replay is a `Fail`. The serde/wasm conversion of the
 * results is not modelled: the methods return the Rust values.
 */
module Replays {
  import opened Wrappers
  import opened DynamicByteArrays
  import opened InstructionDecoder

  /** A pushed call: the caller's block id, and the callee's module and function. */
  datatype StackEntry = StackEntry(parentBlockId: Option<nat>, moduleId: nat, functionId: nat)

  /** `StackFrame`. */
  datatype StackFrame = StackFrame(moduleId: nat, functionId: nat, blockId: Option<nat>)

  /** The locals of `stack_at`'s replay loop: `cur_module_id`, `cur_block_id`, `stack` and `i`. */
  datatype Replay = Replay(curModuleId: Option<nat>, curBlockId: Option<nat>, stack: seq<StackEntry>, counter: nat)

  const Start := Replay(None, None, [], 0)

  /** One instruction's effect on the replay; `unwrap()` on a missing module or an empty stack panics. */
  function Execute(st: Replay, instr: Instruction): (r: Result<Replay>)
    ensures r.Fail? <==> (instr.CallFunction? && st.curModuleId.None?) || (instr.ReturnFunction? && st.stack == [])
    ensures r.Ok? ==> r.value.counter == st.counter + (if instr.CallFunction? || instr.ReachedBlock? then 1 else 0)
  {
    match instr
    case SetModuleId(id) => Ok(st.(curModuleId := Some(id)))
    case CallFunction(f) =>
      if st.curModuleId.None? then Fail(UNWRAP_NONE)
      else Ok(st.(curBlockId := None, stack := st.stack + [StackEntry(st.curBlockId, st.curModuleId.value, f)],
                  counter := st.counter + 1))
    case ReachedBlock(b) => Ok(st.(curBlockId := Some(b), counter := st.counter + 1))
    case ReturnFunction =>
      if st.stack == [] then Fail(UNWRAP_NONE)
      else Ok(st.(curBlockId := st.stack[|st.stack| - 1].parentBlockId, stack := st.stack[..|st.stack| - 1]))
    case SetModuleInfo(_) => Ok(st)
  }

  /**
   * `stack_at`'s loop from `pos`: it stops at the end of the data, or just
   * after an instruction that leaves the counter at `count` or more.
   */
  function ReplayFrom(data: seq<byte>, pos: nat, st: Replay, count: nat): Result<Replay>
    decreases |data| - pos
  {
    match FromIter(data, pos)
    case Fail(e) => Fail(e)
    case Ok(None) => Ok(st)
    case Ok(Some(Read(instr, next))) =>
      var st' :- Execute(st, instr);
      if st'.counter >= count then Ok(st') else ReplayFrom(data, next, st', count)
  }

  /** The frame of stack entry `k`: the top one is in the current block, the others in the block their callee was called from. */
  function FrameAt(stack: seq<StackEntry>, curBlockId: Option<nat>, k: nat): StackFrame
    requires k < |stack|
  {
    StackFrame(stack[k].moduleId, stack[k].functionId, if k + 1 < |stack| then stack[k + 1].parentBlockId else curBlockId)
  }

  /** The frames `stack_at` reports, outermost first. */
  function Frames(stack: seq<StackEntry>, curBlockId: Option<nat>): (r: seq<StackFrame>)
    ensures |r| == |stack|
  {
    seq(|stack|, k requires 0 <= k < |stack| => FrameAt(stack, curBlockId, k))
  }

  function FramesOf(r: Result<Replay>): Result<seq<StackFrame>> {
    match r
    case Ok(st) => Ok(Frames(st.stack, st.curBlockId))
    case Fail(e) => Fail(e)
  }

  /** The `tuple_windows` loop of `stack_at`: each entry paired with the next one, or with none for the top. */
  method CollectFrames(stack: seq<StackEntry>, curBlockId: Option<nat>) returns (frames: seq<StackFrame>)
    ensures frames == Frames(stack, curBlockId)
  {
    frames := [];
    var k := 0;
    while k < |stack|
      invariant k <= |stack| && |frames| == k
      invariant forall j :: 0 <= j < k ==> frames[j] == FrameAt(stack, curBlockId, j)
    {
      var blockId := if k + 1 < |stack| then stack[k + 1].parentBlockId else curBlockId;
      frames := frames + [StackFrame(stack[k].moduleId, stack[k].functionId, blockId)];
      k := k + 1;
    }
  }

  /** `stack_at`. */
  method StackAt(data: seq<byte>, instructionCount: nat) returns (r: Result<seq<StackFrame>>)
    ensures r == FramesOf(ReplayFrom(data, 0, Start, instructionCount))
  {
    var pos := 0;
    var i: nat := 0;
    var curModuleId: Option<nat> := None;
    var curBlockId: Option<nat> := None;
    var stack: seq<StackEntry> := [];
    while true
      invariant pos <= |data|
      invariant ReplayFrom(data, pos, Replay(curModuleId, curBlockId, stack, i), instructionCount) ==
                ReplayFrom(data, 0, Start, instructionCount)
      decreases |data| - pos
    {
      ghost var st := Replay(curModuleId, curBlockId, stack, i);
      var instr := FromIter(data, pos);
      if instr.Fail? {
        return Fail(instr.message);
      }
      if instr.value.None? {
        break;
      }
      var next := instr.value.value.next;
      match instr.value.value.value {
        case SetModuleId(id) =>
          curModuleId := Some(id);
        case CallFunction(f) =>
          i := i + 1;
          if curModuleId.None? {
            assert Execute(st, instr.value.value.value) == Fail(UNWRAP_NONE);
            return Fail(UNWRAP_NONE);
          }
          stack := stack + [StackEntry(curBlockId, curModuleId.value, f)];
          curBlockId := None;
        case ReachedBlock(b) =>
          i := i + 1;
          curBlockId := Some(b);
        case ReturnFunction =>
          if stack == [] {
            assert Execute(st, instr.value.value.value) == Fail(UNWRAP_NONE);
            return Fail(UNWRAP_NONE);
          }
          var item := stack[|stack| - 1];
          stack := stack[..|stack| - 1];
          curBlockId := item.parentBlockId;
        case SetModuleInfo(_) =>
      }
      assert Execute(st, instr.value.value.value) == Ok(Replay(curModuleId, curBlockId, stack, i));
      pos := next;
      if i >= instructionCount {
        break;
      }
    }
    assert ReplayFrom(data, 0, Start, instructionCount) == Ok(Replay(curModuleId, curBlockId, stack, i));
    var frames := CollectFrames(stack, curBlockId);
    r := Ok(frames);
  }

  /** `get_module_info`'s loop from `pos`, with the module id in effect there. */
  function ModuleInfoFrom(data: seq<byte>, pos: nat, moduleId: nat, current: Option<nat>): Result<Option<seq<byte>>>
    decreases |data| - pos
  {
    match FromIter(data, pos)
    case Fail(e) => Fail(e)
    case Ok(None) => Ok(None)
    case Ok(Some(Read(instr, next))) =>
      if instr.SetModuleInfo? && current == Some(moduleId) then Ok(Some(instr.moduleInfoJson))
      else ModuleInfoFrom(data, next, moduleId, if instr.SetModuleId? then Some(instr.moduleId) else current)
  }

  /** `get_module_info`. */
  method GetModuleInfo(data: seq<byte>, moduleId: nat) returns (r: Result<Option<seq<byte>>>)
    ensures r == ModuleInfoFrom(data, 0, moduleId, None)
  {
    var pos := 0;
    var current: Option<nat> := None;
    while true
      invariant pos <= |data|
      invariant ModuleInfoFrom(data, pos, moduleId, current) == ModuleInfoFrom(data, 0, moduleId, None)
      decreases |data| - pos
    {
      var instr := FromIter(data, pos);
      if instr.Fail? {
        return Fail(instr.message);
      }
      if instr.value.None? {
        break;
      }
      var next := instr.value.value.next;
      match instr.value.value.value {
        case SetModuleInfo(json) =>
          if current == Some(moduleId) {
            return Ok(Some(json));
          }
        case SetModuleId(id) =>
          current := Some(id);
        case _ =>
      }
      pos := next;
    }
    r := Ok(None);
  }

  /** A decoded tail behind the instructions collected so far. */
  function Prepend(acc: seq<Instruction>, r: Result<seq<Instruction>>): Result<seq<Instruction>> {
    match r
    case Ok(rest) => Ok(acc + rest)
    case Fail(e) => Fail(e)
  }

  lemma PrependStep(acc: seq<Instruction>, i: Instruction, r: Result<seq<Instruction>>)
    ensures Prepend(acc, Prepend([i], r)) == Prepend(acc + [i], r)
  {
    if r.Ok? {
      assert acc + ([i] + r.value) == acc + [i] + r.value;
    }
  }

  /** `decode`: the instructions of the whole recording, collected until the iterator ends. */
  method Decode(data: seq<byte>) returns (r: Result<seq<Instruction>>)
    ensures r == DecodeFrom(data, 0)
  {
    var pos := 0;
    var acc: seq<Instruction> := [];
    assert Prepend(acc, DecodeFrom(data, 0)) == DecodeFrom(data, 0) by {
      if DecodeFrom(data, 0).Ok? {
        assert [] + DecodeFrom(data, 0).value == DecodeFrom(data, 0).value;
      }
    }
    while true
      invariant pos <= |data|
      invariant Prepend(acc, DecodeFrom(data, pos)) == DecodeFrom(data, 0)
      decreases |data| - pos
    {
      var instr := FromIter(data, pos);
      if instr.Fail? {
        return Fail(instr.message);
      }
      if instr.value.None? {
        break;
      }
      var Read(i, next) := instr.value.value;
      PrependStep(acc, i, DecodeFrom(data, next));
      acc := acc + [i];
      pos := next;
    }
    assert acc + [] == acc;
    r := Ok(acc);
  }
}
