/**
 * Laws of the analyzer's replay (recording-analyzer-rust/src/wasm_api.rs),
 * stated over the decoded instruction list: what a replayed prefix leaves
 * on the stack, where `stack_at` stops, when it panics, how the reported
 * frames evolve, and which payload `get_module_info` finds.
 */
module ReplayLaws {
  import opened Wrappers
  import opened DynamicByteArrays
  import opened InstructionDecoder
  import opened Replays

  /** All of `instrs` executed in order. */
  function Run(st: Replay, instrs: seq<Instruction>): Result<Replay>
    decreases |instrs|
  {
    if instrs == [] then Ok(st)
    else
      var next :- Execute(st, instrs[0]);
      Run(next, instrs[1..])
  }

  function Then(r: Result<Replay>, instrs: seq<Instruction>): Result<Replay> {
    match r
    case Ok(st) => Run(st, instrs)
    case Fail(e) => Fail(e)
  }

  function Calls(instrs: seq<Instruction>): nat
    decreases |instrs|
  {
    if instrs == [] then 0 else (if instrs[0].CallFunction? then 1 else 0) + Calls(instrs[1..])
  }

  function Returns(instrs: seq<Instruction>): nat
    decreases |instrs|
  {
    if instrs == [] then 0 else (if instrs[0].ReturnFunction? then 1 else 0) + Returns(instrs[1..])
  }

  function Blocks(instrs: seq<Instruction>): nat
    decreases |instrs|
  {
    if instrs == [] then 0 else (if instrs[0].ReachedBlock? then 1 else 0) + Blocks(instrs[1..])
  }

  /** The module id in effect after `i`. */
  function NextModule(current: Option<nat>, i: Instruction): Option<nat> {
    if i.SetModuleId? then Some(i.moduleId) else current
  }

  /** The module id of the last `SetModuleId` in `instrs`, or `current` when there is none. */
  function LastModule(current: Option<nat>, instrs: seq<Instruction>): Option<nat>
    decreases |instrs|
  {
    if instrs == [] then current else LastModule(NextModule(current, instrs[0]), instrs[1..])
  }

  /** Where `stack_at`'s loop stops, and how many instructions it has consumed then. */
  datatype Stop = Stop(state: Replay, taken: nat)

  function RunUntil(instrs: seq<Instruction>, st: Replay, count: nat): Result<Stop>
    decreases |instrs|
  {
    if instrs == [] then Ok(Stop(st, 0))
    else
      var next :- Execute(st, instrs[0]);
      if next.counter >= count then Ok(Stop(next, 1))
      else
        var rest :- RunUntil(instrs[1..], next, count);
        Ok(Stop(rest.state, rest.taken + 1))
  }

  function StateOf(r: Result<Stop>): Result<Replay> {
    match r
    case Ok(s) => Ok(s.state)
    case Fail(e) => Fail(e)
  }

  /** Replaying the bytes is running their decoded instructions until the stop. */
  lemma {:induction false} ReplayIsRunUntil(data: seq<byte>, pos: nat, st: Replay, count: nat, instrs: seq<Instruction>)
    requires DecodeFrom(data, pos) == Ok(instrs)
    ensures ReplayFrom(data, pos, st, count) == StateOf(RunUntil(instrs, st, count))
    decreases |data| - pos
  {
    match FromIter(data, pos)
    case Ok(None) =>
      assert instrs == [];
    case Ok(Some(Read(i, next))) =>
      var rest := DecodeFrom(data, next).value;
      assert instrs == [i] + rest;
      assert instrs[0] == i && instrs[1..] == rest;
      var r := Execute(st, i);
      if r.Ok? && r.value.counter < count {
        ReplayIsRunUntil(data, next, r.value, count, rest);
      }
  }

  lemma RunPrefixStep(st: Replay, instrs: seq<Instruction>, k: nat)
    requires 0 < k <= |instrs| && Execute(st, instrs[0]).Ok?
    ensures Run(st, instrs[..k]) == Run(Execute(st, instrs[0]).value, instrs[1..][..k - 1])
  {
    assert instrs[..k][0] == instrs[0];
    assert instrs[..k][1..] == instrs[1..][..k - 1];
  }

  /**
   * The loop stops after the first instruction that brings the counter to
   * `count`, or at the end: the state is the run of the prefix it consumed,
   * and every shorter non-empty prefix leaves the counter below `count`.
   */
  lemma {:induction false} RunUntilPrefix(instrs: seq<Instruction>, st: Replay, count: nat)
    requires RunUntil(instrs, st, count).Ok?
    ensures var s := RunUntil(instrs, st, count).value;
            s.taken <= |instrs| && (instrs != [] ==> s.taken > 0) &&
            Run(st, instrs[..s.taken]) == Ok(s.state) &&
            (s.taken == |instrs| || s.state.counter >= count) &&
            (forall j :: 0 < j < s.taken ==> Run(st, instrs[..j]).Ok? && Run(st, instrs[..j]).value.counter < count)
    decreases |instrs|
  {
    if instrs != [] {
      var next := Execute(st, instrs[0]).value;
      var s := RunUntil(instrs, st, count).value;
      if next.counter >= count {
        RunPrefixStep(st, instrs, 1);
        assert instrs[1..][..0] == [];
      } else {
        var tail := instrs[1..];
        RunUntilPrefix(tail, next, count);
        var t := RunUntil(tail, next, count).value;
        assert s.taken == t.taken + 1;
        RunPrefixStep(st, instrs, s.taken);
        forall j | 0 < j < s.taken
          ensures Run(st, instrs[..j]).Ok? && Run(st, instrs[..j]).value.counter < count
        {
          RunPrefixStep(st, instrs, j);
          if j == 1 {
            assert tail[..0] == [];
          }
        }
      }
    }
  }

  /**
   * A run leaves the stack one longer per call and one shorter per return,
   * the counter raised once per call and per block, and the current module
   * at the last `SetModuleId`.
   */
  lemma {:induction false} RunCounts(st: Replay, instrs: seq<Instruction>)
    requires Run(st, instrs).Ok?
    ensures var e := Run(st, instrs).value;
            |e.stack| + Returns(instrs) == |st.stack| + Calls(instrs) &&
            e.counter == st.counter + Calls(instrs) + Blocks(instrs) &&
            e.curModuleId == LastModule(st.curModuleId, instrs)
    decreases |instrs|
  {
    if instrs != [] {
      var next := Execute(st, instrs[0]).value;
      RunCounts(next, instrs[1..]);
    }
  }

  /** `stack_at` reports one frame per call not yet returned in the prefix it replayed. */
  lemma FrameCount(data: seq<byte>, count: nat, instrs: seq<Instruction>)
    requires DecodeFrom(data, 0) == Ok(instrs) && RunUntil(instrs, Start, count).Ok?
    ensures var k := RunUntil(instrs, Start, count).value.taken;
            k <= |instrs| && FramesOf(ReplayFrom(data, 0, Start, count)).Ok? &&
            |FramesOf(ReplayFrom(data, 0, Start, count)).value| + Returns(instrs[..k]) == Calls(instrs[..k])
  {
    ReplayIsRunUntil(data, 0, Start, count, instrs);
    RunUntilPrefix(instrs, Start, count);
    RunCounts(Start, instrs[..RunUntil(instrs, Start, count).value.taken]);
  }

  lemma {:induction false} RunConcat(st: Replay, a: seq<Instruction>, b: seq<Instruction>)
    ensures Run(st, a + b) == Then(Run(st, a), b)
    decreases |a|
  {
    if a == [] {
      assert a + b == b;
    } else {
      assert (a + b)[0] == a[0] && (a + b)[1..] == a[1..] + b;
      var r := Execute(st, a[0]);
      if r.Ok? {
        RunConcat(r.value, a[1..], b);
      }
    }
  }

  lemma {:induction false} LastModuleNone(instrs: seq<Instruction>)
    requires forall j :: 0 <= j < |instrs| ==> !instrs[j].SetModuleId?
    ensures LastModule(None, instrs) == None
    decreases |instrs|
  {
    if instrs != [] {
      assert !instrs[0].SetModuleId?;
      LastModuleNone(instrs[1..]);
    }
  }

  /** A call with no `SetModuleId` before it panics on `cur_module_id.unwrap()`. */
  lemma CallWithoutModule(st: Replay, pre: seq<Instruction>, f: nat, post: seq<Instruction>)
    requires st.curModuleId.None? && forall j :: 0 <= j < |pre| ==> !pre[j].SetModuleId?
    ensures Run(st, pre + [CallFunction(f)] + post).Fail?
  {
    RunConcat(st, pre + [CallFunction(f)], post);
    RunConcat(st, pre, [CallFunction(f)]);
    if Run(st, pre).Ok? {
      RunCounts(st, pre);
      LastModuleNone(pre);
    }
  }

  /** A return with every earlier call already returned panics on `stack.pop().unwrap()`. */
  lemma ReturnWithoutCall(st: Replay, pre: seq<Instruction>, post: seq<Instruction>)
    requires |st.stack| + Calls(pre) == Returns(pre)
    ensures Run(st, pre + [ReturnFunction] + post).Fail?
  {
    RunConcat(st, pre + [ReturnFunction], post);
    RunConcat(st, pre, [ReturnFunction]);
    if Run(st, pre).Ok? {
      RunCounts(st, pre);
    }
  }

  /** A call adds an innermost frame in no block, and the caller's frame keeps its block. */
  lemma FramesAfterCall(st: Replay, f: nat)
    requires st.curModuleId.Some?
    ensures var e := Execute(st, CallFunction(f)).value;
            Frames(e.stack, e.curBlockId) == Frames(st.stack, st.curBlockId) + [StackFrame(st.curModuleId.value, f, None)]
  {
    var e := Execute(st, CallFunction(f)).value;
    assert forall k :: 0 <= k < |st.stack| ==> FrameAt(e.stack, e.curBlockId, k) == FrameAt(st.stack, st.curBlockId, k);
  }

  /** A return drops the innermost frame; the caller's frame is the one reported before. */
  lemma FramesAfterReturn(st: Replay)
    requires st.stack != []
    ensures var e := Execute(st, ReturnFunction).value;
            Frames(e.stack, e.curBlockId) == Frames(st.stack, st.curBlockId)[..|st.stack| - 1]
  {
    var e := Execute(st, ReturnFunction).value;
    assert forall k :: 0 <= k < |e.stack| ==> FrameAt(e.stack, e.curBlockId, k) == FrameAt(st.stack, st.curBlockId, k);
  }

  /** Reaching a block moves only the innermost frame to it. */
  lemma FramesAfterBlock(st: Replay, b: nat)
    ensures var e := Execute(st, ReachedBlock(b)).value;
            var shown := Frames(st.stack, st.curBlockId);
            Frames(e.stack, e.curBlockId) ==
            if st.stack == [] then shown else shown[|shown| - 1 := shown[|shown| - 1].(blockId := Some(b))]
  {
  }

  /** A call followed by its return restores everything but the counter. */
  lemma CallThenReturn(st: Replay, f: nat)
    requires st.curModuleId.Some?
    ensures Execute(st, CallFunction(f)).Ok?
    ensures Execute(Execute(st, CallFunction(f)).value, ReturnFunction) == Ok(st.(counter := st.counter + 1))
  {
    var e := Execute(st, CallFunction(f)).value;
    assert e.stack[..|e.stack| - 1] == st.stack;
  }

  /** `get_module_info` over the decoded list. */
  function InfoIn(instrs: seq<Instruction>, moduleId: nat, current: Option<nat>): Option<seq<byte>>
    decreases |instrs|
  {
    if instrs == [] then None
    else if instrs[0].SetModuleInfo? && current == Some(moduleId) then Some(instrs[0].moduleInfoJson)
    else InfoIn(instrs[1..], moduleId, NextModule(current, instrs[0]))
  }

  lemma {:induction false} ModuleInfoIsInfoIn(data: seq<byte>, pos: nat, moduleId: nat, current: Option<nat>,
                                              instrs: seq<Instruction>)
    requires DecodeFrom(data, pos) == Ok(instrs)
    ensures ModuleInfoFrom(data, pos, moduleId, current) == Ok(InfoIn(instrs, moduleId, current))
    decreases |data| - pos
  {
    match FromIter(data, pos)
    case Ok(None) =>
      assert instrs == [];
    case Ok(Some(Read(i, next))) =>
      var rest := DecodeFrom(data, next).value;
      assert instrs == [i] + rest;
      assert instrs[0] == i && instrs[1..] == rest;
      if !(i.SetModuleInfo? && current == Some(moduleId)) {
        ModuleInfoIsInfoIn(data, next, moduleId, NextModule(current, i), rest);
      }
  }

  /** Instruction `k` is module info read while `moduleId` is the current module. */
  predicate InfoFor(instrs: seq<Instruction>, k: nat, moduleId: nat, current: Option<nat>)
    requires k < |instrs|
  {
    instrs[k].SetModuleInfo? && LastModule(current, instrs[..k]) == Some(moduleId)
  }

  lemma LastModulePrefixStep(current: Option<nat>, instrs: seq<Instruction>, k: nat)
    requires 0 < k <= |instrs|
    ensures LastModule(current, instrs[..k]) == LastModule(NextModule(current, instrs[0]), instrs[1..][..k - 1])
  {
    assert instrs[..k][0] == instrs[0];
    assert instrs[..k][1..] == instrs[1..][..k - 1];
  }

  lemma InfoForStep(instrs: seq<Instruction>, k: nat, moduleId: nat, current: Option<nat>)
    requires 0 < k < |instrs|
    ensures InfoFor(instrs, k, moduleId, current) == InfoFor(instrs[1..], k - 1, moduleId, NextModule(current, instrs[0]))
  {
    LastModulePrefixStep(current, instrs, k);
  }

  /** `get_module_info` finds the first module info read while the module is current. */
  lemma {:induction false} InfoInFirst(instrs: seq<Instruction>, moduleId: nat, current: Option<nat>, k: nat)
    requires k < |instrs| && InfoFor(instrs, k, moduleId, current)
    requires forall j :: 0 <= j < k ==> !InfoFor(instrs, j, moduleId, current)
    ensures InfoIn(instrs, moduleId, current) == Some(instrs[k].moduleInfoJson)
    decreases k
  {
    assert instrs[..0] == [];
    if k > 0 {
      assert !InfoFor(instrs, 0, moduleId, current);
      var next := NextModule(current, instrs[0]);
      InfoForStep(instrs, k, moduleId, current);
      forall j | 0 <= j < k - 1
        ensures !InfoFor(instrs[1..], j, moduleId, next)
      {
        InfoForStep(instrs, j + 1, moduleId, current);
      }
      InfoInFirst(instrs[1..], moduleId, next, k - 1);
    }
  }

  /** `get_module_info` finds nothing exactly when no module info is read while the module is current. */
  lemma {:induction false} InfoInNone(instrs: seq<Instruction>, moduleId: nat, current: Option<nat>)
    ensures InfoIn(instrs, moduleId, current) == None <==>
            forall k :: 0 <= k < |instrs| ==> !InfoFor(instrs, k, moduleId, current)
    decreases |instrs|
  {
    if instrs != [] {
      assert instrs[..0] == [];
      var next := NextModule(current, instrs[0]);
      InfoInNone(instrs[1..], moduleId, next);
      forall k | 0 < k < |instrs|
        ensures InfoFor(instrs, k, moduleId, current) == InfoFor(instrs[1..], k - 1, moduleId, next)
      {
        InfoForStep(instrs, k, moduleId, current);
      }
      if !InfoFor(instrs, 0, moduleId, current) {
        assert (forall k :: 0 <= k < |instrs| ==> !InfoFor(instrs, k, moduleId, current)) <==>
               (forall k :: 0 <= k < |instrs[1..]| ==> !InfoFor(instrs[1..], k, moduleId, next)) by {
          forall k | 0 <= k < |instrs[1..]|
            ensures InfoFor(instrs[1..], k, moduleId, next) == InfoFor(instrs, k + 1, moduleId, current)
          {
          }
        }
      }
    }
  }
}
