/**
 * Laws of a whole recording (recording/src/ExecutionRecorder.ts): the
 * instructions a sequence of recorder calls writes, where module switches
 * and module info appear in them, and what the analyzer's decoder and
 * `get_module_info` read back from the recorded bytes.
 */
module RecorderLaws {
  import opened Wrappers
  import opened Bits
  import opened DynamicByteArrays
  import opened InstructionDecoder
  import opened TraceCodec
  import opened ReplayLaws
  import Replays
  import W = ExecutionRecorders

  /** A call into the recorder by instrumented code. */
  datatype Event =
    | Entered(moduleId: nat, functionId: nat)
    | BlockReached(blockId: nat)
    | Returned

  /** The recorder call for an event. */
  function Step(st: W.RecorderState, ev: Event, resolve: nat -> seq<byte>): W.Recorded {
    match ev
    case Entered(m, f) => W.Enter(st, m, f, resolve)
    case BlockReached(b) => W.Block(st, b)
    case Returned => W.Recorded(W.Return(st), Ok(()))
  }

  /** The instructions an event writes when its call completes. */
  function Emitted(st: W.RecorderState, ev: Event, resolve: nat -> seq<byte>): seq<Instruction> {
    match ev
    case Entered(m, f) =>
      (if m != st.lastModuleId
       then [SetModuleId(m)] + (if m in st.resolved then [] else [SetModuleInfo(resolve(m))])
       else []) + [CallFunction(f)]
    case BlockReached(b) => [ReachedBlock(b)]
    case Returned => [ReturnFunction]
  }

  /** The bytes of a first instruction followed by those of the rest. */
  function Cons(first: Result<seq<byte>>, rest: Result<seq<byte>>): Result<seq<byte>> {
    match first
    case Fail(e) => Fail(e)
    case Ok(w) =>
      match rest
      case Fail(e) => Fail(e)
      case Ok(v) => Ok(w + v)
  }

  lemma WireAllCons(a: seq<Instruction>)
    requires a != []
    ensures WireAll(a) == Cons(Wire(a[0]), WireAll(a[1..]))
  {
  }

  lemma {:induction false} WireAllConcat(a: seq<Instruction>, b: seq<Instruction>)
    requires WireAll(a).Ok? && WireAll(b).Ok?
    ensures WireAll(a + b) == Ok(WireAll(a).value + WireAll(b).value)
    decreases |a|
  {
    if a == [] {
      assert a + b == b && WireAll(a) == Ok([]);
      assert [] + WireAll(b).value == WireAll(b).value;
    } else {
      var tail := a[1..];
      assert (a + b)[0] == a[0] && (a + b)[1..] == tail + b;
      WireAllCons(a);
      WireAllCons(a + b);
      WireAllConcat(tail, b);
      ConsStep(Wire(a[0]), WireAll(tail), WireAll(tail + b), WireAll(b));
    }
  }

  lemma ConsStep(w: Result<seq<byte>>, ra: Result<seq<byte>>, rab: Result<seq<byte>>, rb: Result<seq<byte>>)
    requires Cons(w, ra).Ok? && rb.Ok? && rab == Ok(ra.value + rb.value)
    ensures Cons(w, rab) == Ok(Cons(w, ra).value + rb.value)
  {
    assert w.value + (ra.value + rb.value) == w.value + ra.value + rb.value;
  }

  lemma WireOne(i: Instruction)
    requires Wire(i).Ok?
    ensures WireAll([i]) == Ok(Wire(i).value)
  {
    WireAllCons([i]);
    assert [i][1..] == [] && [i][0] == i;
    assert Wire(i).value + [] == Wire(i).value;
  }

  /** A completed recorder call appends exactly the bytes of the instructions it emits. */
  lemma StepWire(st: W.RecorderState, ev: Event, resolve: nat -> seq<byte>)
    requires Step(st, ev, resolve).outcome.Ok?
    ensures WireAll(Emitted(st, ev, resolve)).Ok?
    ensures Step(st, ev, resolve).state.bytes == st.bytes + WireAll(Emitted(st, ev, resolve)).value
  {
    match ev
    case Entered(m, f) =>
      var call := [CallFunction(f)];
      WireOne(CallFunction(f));
      if m != st.lastModuleId {
        var id := [SetModuleId(m)];
        WireOne(SetModuleId(m));
        var info: seq<Instruction> := if m in st.resolved then [] else [SetModuleInfo(resolve(m))];
        if m !in st.resolved {
          WireOne(SetModuleInfo(resolve(m)));
        }
        WireAllConcat(id, info);
        WireAllConcat(id + info, call);
        assert Emitted(st, ev, resolve) == id + info + call;
        assert st.bytes + (Wire(SetModuleId(m)).value + WireAll(info).value) + Wire(CallFunction(f)).value
            == st.bytes + Wire(SetModuleId(m)).value + WireAll(info).value + Wire(CallFunction(f)).value;
      } else {
        assert Emitted(st, ev, resolve) == [] + call;
      }
    case BlockReached(b) =>
      WireOne(ReachedBlock(b));
    case Returned =>
      WireOne(ReturnFunction);
  }

  /**
   * For 32-bit ids, `recordFunctionEnter` completes exactly when the
   * function id and, on a module switch, the module id are below the
   * operand limit; `recordBlockExecution` when the block id is.
   */
  lemma StepCompletes(st: W.RecorderState, ev: Event, resolve: nat -> seq<byte>)
    requires EventBelow32(ev)
    ensures Step(st, ev, resolve).outcome.Ok? <==> EventFits(st, ev)
  {
    match ev
    case Entered(m, f) =>
      W.OperandWidths(W.SetModuleId, m, false);
      W.OperandWidths(W.CallFunction, f, false);
    case BlockReached(b) =>
      W.OperandWidths(W.ReachedBlock, b, false);
    case Returned =>
  }

  predicate EventBelow32(ev: Event) {
    match ev
    case Entered(m, f) => m < TWO_32 && f < TWO_32
    case BlockReached(b) => b < TWO_32
    case Returned => true
  }

  predicate EventFits(st: W.RecorderState, ev: Event) {
    match ev
    case Entered(m, f) => (m == st.lastModuleId || m < W.OPERAND_LIMIT) && f < W.OPERAND_LIMIT
    case BlockReached(b) => b < W.OPERAND_LIMIT
    case Returned => true
  }

  /** The recorder calls of a run, up to and including the first that throws. */
  function Record(st: W.RecorderState, evs: seq<Event>, resolve: nat -> seq<byte>): W.Recorded
    decreases |evs|
  {
    if evs == [] then W.Recorded(st, Ok(()))
    else
      var r := Step(st, evs[0], resolve);
      if r.outcome.Fail? then r else Record(r.state, evs[1..], resolve)
  }

  /** The instructions written by the completed calls of a run. */
  function Trace(st: W.RecorderState, evs: seq<Event>, resolve: nat -> seq<byte>): seq<Instruction>
    decreases |evs|
  {
    if evs == [] then []
    else
      var r := Step(st, evs[0], resolve);
      if r.outcome.Fail? then [] else Emitted(st, evs[0], resolve) + Trace(r.state, evs[1..], resolve)
  }

  /** A completed run is its first call followed by the run of the rest. */
  lemma RecordCons(st: W.RecorderState, evs: seq<Event>, resolve: nat -> seq<byte>)
    requires evs != [] && Record(st, evs, resolve).outcome.Ok?
    ensures var r := Step(st, evs[0], resolve);
            r.outcome.Ok? && Record(st, evs, resolve) == Record(r.state, evs[1..], resolve) &&
            Trace(st, evs, resolve) == Emitted(st, evs[0], resolve) + Trace(r.state, evs[1..], resolve)
  {
  }

  /** Recorder calls only append: the buffer ends with the bytes of the trace they wrote. */
  lemma {:induction false} RecordWire(st: W.RecorderState, evs: seq<Event>, resolve: nat -> seq<byte>)
    requires Record(st, evs, resolve).outcome.Ok?
    ensures WireAll(Trace(st, evs, resolve)).Ok?
    ensures Record(st, evs, resolve).state.bytes == st.bytes + WireAll(Trace(st, evs, resolve)).value
    decreases |evs|
  {
    if evs != [] {
      var r := Step(st, evs[0], resolve);
      var e := Emitted(st, evs[0], resolve);
      var t := Trace(r.state, evs[1..], resolve);
      RecordCons(st, evs, resolve);
      assert WireAll(e).Ok? && r.state.bytes == st.bytes + WireAll(e).value by {
        StepWire(st, evs[0], resolve);
      }
      assert WireAll(t).Ok? && Record(r.state, evs[1..], resolve).state.bytes == r.state.bytes + WireAll(t).value by {
        RecordWire(r.state, evs[1..], resolve);
      }
      assert WireAll(e + t) == Ok(WireAll(e).value + WireAll(t).value) by {
        WireAllConcat(e, t);
      }
      AppendBytes(st.bytes, r.state.bytes, Record(r.state, evs[1..], resolve).state.bytes, WireAll(e).value, WireAll(t).value);
    } else {
      assert st.bytes + [] == st.bytes;
    }
  }

  lemma AppendBytes(b0: seq<byte>, b1: seq<byte>, b2: seq<byte>, x: seq<byte>, y: seq<byte>)
    requires b1 == b0 + x && b2 == b1 + y
    ensures b2 == b0 + (x + y)
  {
  }

  /** The ids of the modules switched to in a trace. */
  function SwitchedTo(t: seq<Instruction>): set<nat>
    decreases |t|
  {
    if t == [] then {} else (if t[0].SetModuleId? then {t[0].moduleId} else {}) + SwitchedTo(t[1..])
  }

  lemma {:induction false} SwitchedToConcat(a: seq<Instruction>, b: seq<Instruction>)
    ensures SwitchedTo(a + b) == SwitchedTo(a) + SwitchedTo(b)
    decreases |a|
  {
    if a == [] {
      assert a + b == b;
    } else {
      assert (a + b)[0] == a[0] && (a + b)[1..] == a[1..] + b;
      SwitchedToConcat(a[1..], b);
    }
  }

  /** `_lastModuleId` as an optional module id. */
  function LastWritten(lastModuleId: int): Option<nat> {
    if lastModuleId < 0 then None else Some(lastModuleId)
  }

  /**
   * Module info at `k` comes right after a switch to a module that was not
   * switched to before, and carries that module's payload.
   */
  predicate InfoPlaced(t: seq<Instruction>, k: nat, resolve: nat -> seq<byte>)
    requires k < |t|
  {
    k > 0 && t[k - 1].SetModuleId? && t[k].SetModuleInfo? && t[k].moduleInfoJson == resolve(t[k - 1].moduleId) &&
    t[k - 1].moduleId !in SwitchedTo(t[..k - 1])
  }

  predicate Placement(t: seq<Instruction>, resolve: nat -> seq<byte>) {
    forall k :: 0 <= k < |t| && t[k].SetModuleInfo? ==> InfoPlaced(t, k, resolve)
  }

  /** What `get_module_info` finds in a trace, for every module. */
  ghost predicate InfoOfResolved(t: seq<Instruction>, resolved: set<nat>, resolve: nat -> seq<byte>) {
    forall m: nat :: InfoIn(t, m, None) == if m in resolved then Some(resolve(m)) else None
  }

  /** The relation between the recorder's fields and the trace it has written. */
  ghost predicate Inv(st: W.RecorderState, t: seq<Instruction>, resolve: nat -> seq<byte>) {
    LastWritten(st.lastModuleId) == LastModule(None, t) &&
    st.resolved == SwitchedTo(t) &&
    Placement(t, resolve) &&
    InfoOfResolved(t, st.resolved, resolve)
  }

  lemma {:induction false} LastModuleConcat(current: Option<nat>, a: seq<Instruction>, b: seq<Instruction>)
    ensures LastModule(current, a + b) == LastModule(LastModule(current, a), b)
    decreases |a|
  {
    if a == [] {
      assert a + b == b;
    } else {
      assert (a + b)[0] == a[0] && (a + b)[1..] == a[1..] + b;
      LastModuleConcat(NextModule(current, a[0]), a[1..], b);
    }
  }

  lemma {:induction false} InfoInConcat(a: seq<Instruction>, b: seq<Instruction>, m: nat, current: Option<nat>)
    ensures InfoIn(a + b, m, current) ==
            if InfoIn(a, m, current).Some? then InfoIn(a, m, current) else InfoIn(b, m, LastModule(current, a))
    decreases |a|
  {
    if a == [] {
      assert a + b == b;
    } else {
      assert (a + b)[0] == a[0] && (a + b)[1..] == a[1..] + b;
      InfoInConcat(a[1..], b, m, NextModule(current, a[0]));
    }
  }

  /** The last module written is always in `_resolvedModules`. */
  lemma LastIsResolved(st: W.RecorderState, t: seq<Instruction>, resolve: nat -> seq<byte>)
    requires Inv(st, t, resolve)
    ensures st.lastModuleId >= 0 ==> st.lastModuleId in st.resolved
  {
    LastModuleSwitched(None, t);
  }

  lemma {:induction false} LastModuleSwitched(current: Option<nat>, t: seq<Instruction>)
    ensures LastModule(current, t) == current || (LastModule(current, t).Some? && LastModule(current, t).value in SwitchedTo(t))
    decreases |t|
  {
    if t != [] {
      LastModuleSwitched(NextModule(current, t[0]), t[1..]);
    }
  }

  /** The event switches the recorder to a module other than the last one written. */
  predicate Switches(st: W.RecorderState, ev: Event) {
    ev.Entered? && ev.moduleId != st.lastModuleId
  }

  /** A completed call sets `_lastModuleId` to the module entered and resolves it on a switch. */
  lemma StepFields(st: W.RecorderState, ev: Event, resolve: nat -> seq<byte>)
    requires Step(st, ev, resolve).outcome.Ok?
    ensures var st' := Step(st, ev, resolve).state;
            st'.lastModuleId == (if ev.Entered? then ev.moduleId else st.lastModuleId) &&
            st'.resolved == st.resolved + (if Switches(st, ev) then {ev.moduleId} else {})
  {
  }

  lemma {:induction false} NoSwitch(current: Option<nat>, s: seq<Instruction>)
    requires forall k :: 0 <= k < |s| ==> !s[k].SetModuleId?
    ensures LastModule(current, s) == current && SwitchedTo(s) == {}
    decreases |s|
  {
    if s != [] {
      assert !s[0].SetModuleId?;
      NoSwitch(current, s[1..]);
    }
  }

  lemma {:induction false} NoInfo(s: seq<Instruction>, m: nat, current: Option<nat>)
    requires forall k :: 0 <= k < |s| ==> !s[k].SetModuleInfo?
    ensures InfoIn(s, m, current) == None
    decreases |s|
  {
    if s != [] {
      assert !s[0].SetModuleInfo?;
      NoInfo(s[1..], m, NextModule(current, s[0]));
    }
  }

  /** The instructions of a switching call: the switch, module info for a new module, the call. */
  lemma SwitchShape(st: W.RecorderState, ev: Event, resolve: nat -> seq<byte>)
    requires Switches(st, ev)
    ensures var e := Emitted(st, ev, resolve);
            e[0] == SetModuleId(ev.moduleId) &&
            e[1..] == (if ev.moduleId in st.resolved then [] else [SetModuleInfo(resolve(ev.moduleId))]) + [CallFunction(ev.functionId)]
  {
  }

  /** An event's instructions leave the module current and the modules switched to as the event says. */
  lemma EmittedModules(st: W.RecorderState, ev: Event, resolve: nat -> seq<byte>, current: Option<nat>)
    ensures var e := Emitted(st, ev, resolve);
            LastModule(current, e) == (if Switches(st, ev) then Some(ev.moduleId) else current) &&
            SwitchedTo(e) == (if Switches(st, ev) then {ev.moduleId} else {})
  {
    var e := Emitted(st, ev, resolve);
    if Switches(st, ev) {
      SwitchShape(st, ev, resolve);
      NoSwitch(Some(ev.moduleId), e[1..]);
    } else {
      NoSwitch(current, e);
    }
  }

  /** What `get_module_info` finds in one event's instructions. */
  lemma EmittedInfo(st: W.RecorderState, ev: Event, resolve: nat -> seq<byte>, m: nat, current: Option<nat>)
    ensures InfoIn(Emitted(st, ev, resolve), m, current) ==
            if Switches(st, ev) && ev.moduleId == m && m !in st.resolved then Some(resolve(m)) else None
  {
    var e := Emitted(st, ev, resolve);
    if Switches(st, ev) {
      SwitchShape(st, ev, resolve);
      var m' := ev.moduleId;
      if m' in st.resolved {
        NoInfo(e[1..], m, Some(m'));
      } else {
        NoInfo(e[1..][1..], m, Some(m'));
      }
    } else {
      NoInfo(e, m, current);
    }
  }

  /** The only module info among an event's instructions is the second one of a call switching to a new module. */
  lemma EmittedInfoAt(st: W.RecorderState, ev: Event, resolve: nat -> seq<byte>, j: nat)
    requires j < |Emitted(st, ev, resolve)| && Emitted(st, ev, resolve)[j].SetModuleInfo?
    ensures Switches(st, ev) && ev.moduleId !in st.resolved && j == 1
    ensures Emitted(st, ev, resolve)[0] == SetModuleId(ev.moduleId)
    ensures Emitted(st, ev, resolve)[1] == SetModuleInfo(resolve(ev.moduleId))
  {
    if Switches(st, ev) {
      SwitchShape(st, ev, resolve);
      var e := Emitted(st, ev, resolve);
      assert e[j] == e[1..][j - 1];
    }
  }

  lemma PlacedKept(t: seq<Instruction>, e: seq<Instruction>, k: nat, resolve: nat -> seq<byte>)
    requires k < |t| && InfoPlaced(t, k, resolve)
    ensures InfoPlaced(t + e, k, resolve)
  {
    assert (t + e)[..k - 1] == t[..k - 1];
    assert (t + e)[k] == t[k] && (t + e)[k - 1] == t[k - 1];
  }

  lemma StepPlacement(st: W.RecorderState, t: seq<Instruction>, ev: Event, resolve: nat -> seq<byte>)
    requires Placement(t, resolve) && st.resolved == SwitchedTo(t)
    ensures Placement(t + Emitted(st, ev, resolve), resolve)
  {
    var e := Emitted(st, ev, resolve);
    var u := t + e;
    forall k | 0 <= k < |u| && u[k].SetModuleInfo?
      ensures InfoPlaced(u, k, resolve)
    {
      if k < |t| {
        assert u[k] == t[k];
        PlacedKept(t, e, k, resolve);
      } else {
        assert u[k] == e[k - |t|];
        EmittedInfoAt(st, ev, resolve, k - |t|);
        assert u[k - 1] == e[0];
        assert u[..k - 1] == t;
      }
    }
  }

  /** One event keeps `Inv`, with its instructions appended to the trace. */
  lemma StepInv(st: W.RecorderState, t: seq<Instruction>, ev: Event, resolve: nat -> seq<byte>)
    requires Inv(st, t, resolve) && Step(st, ev, resolve).outcome.Ok?
    ensures Inv(Step(st, ev, resolve).state, t + Emitted(st, ev, resolve), resolve)
  {
    var e := Emitted(st, ev, resolve);
    var st' := Step(st, ev, resolve).state;
    var cur := LastModule(None, t);
    StepFields(st, ev, resolve);
    EmittedModules(st, ev, resolve, cur);
    assert LastWritten(st'.lastModuleId) == LastModule(None, t + e) by {
      LastModuleConcat(None, t, e);
    }
    assert st'.resolved == SwitchedTo(t + e) by {
      SwitchedToConcat(t, e);
    }
    forall m: nat
      ensures InfoIn(t + e, m, None) == if m in st'.resolved then Some(resolve(m)) else None
    {
      InfoInConcat(t, e, m, None);
      EmittedInfo(st, ev, resolve, m, cur);
    }
    StepPlacement(st, t, ev, resolve);
  }

  /** A run from any state satisfying `Inv` keeps it, with its trace appended. */
  lemma {:induction false} RecordInv(st: W.RecorderState, t: seq<Instruction>, evs: seq<Event>, resolve: nat -> seq<byte>)
    requires Inv(st, t, resolve) && Record(st, evs, resolve).outcome.Ok?
    ensures Inv(Record(st, evs, resolve).state, t + Trace(st, evs, resolve), resolve)
    decreases |evs|
  {
    if evs == [] {
      assert t + [] == t;
    } else {
      var r := Step(st, evs[0], resolve);
      var e := Emitted(st, evs[0], resolve);
      var rest := Trace(r.state, evs[1..], resolve);
      RecordCons(st, evs, resolve);
      assert Inv(r.state, t + e, resolve) by {
        StepInv(st, t, evs[0], resolve);
      }
      assert Inv(Record(r.state, evs[1..], resolve).state, t + e + rest, resolve) by {
        RecordInv(r.state, t + e, evs[1..], resolve);
      }
      TraceAssoc(t, e, rest);
    }
  }

  lemma TraceAssoc(a: seq<Instruction>, b: seq<Instruction>, c: seq<Instruction>)
    ensures a + b + c == a + (b + c)
  {
  }

  lemma InitialInv(resolve: nat -> seq<byte>)
    ensures Inv(W.Initial, [], resolve)
  {
  }

  /**
   * A completed recording: `_lastModuleId` is the last module switched to,
   * `_resolvedModules` the modules switched to, every module info follows
   * the first switch to its module, and `get_module_info` finds the
   * payload of exactly the resolved modules.
   */
  lemma RecordingLaws(evs: seq<Event>, resolve: nat -> seq<byte>)
    requires Record(W.Initial, evs, resolve).outcome.Ok?
    ensures var st := Record(W.Initial, evs, resolve).state;
            Inv(st, Trace(W.Initial, evs, resolve), resolve)
  {
    InitialInv(resolve);
    RecordInv(W.Initial, [], evs, resolve);
    assert [] + Trace(W.Initial, evs, resolve) == Trace(W.Initial, evs, resolve);
  }

  /** No two module infos in a placed trace belong to the same module. */
  lemma InfoOncePerModule(t: seq<Instruction>, resolve: nat -> seq<byte>, j: nat, k: nat)
    requires Placement(t, resolve) && j < k < |t| && t[j].SetModuleInfo? && t[k].SetModuleInfo?
    ensures t[j - 1].SetModuleId? && t[k - 1].SetModuleId? && t[j - 1].moduleId != t[k - 1].moduleId
  {
    assert InfoPlaced(t, j, resolve) && InfoPlaced(t, k, resolve);
    SwitchedToHas(t[..k - 1], j - 1);
    assert t[..k - 1][j - 1] == t[j - 1];
  }

  lemma {:induction false} SwitchedToHas(t: seq<Instruction>, i: nat)
    requires i < |t| && t[i].SetModuleId?
    ensures t[i].moduleId in SwitchedTo(t)
    decreases i
  {
    if i > 0 {
      SwitchedToHas(t[1..], i - 1);
    }
  }

  predicate AllBelow32(evs: seq<Event>) {
    forall k :: 0 <= k < |evs| ==> EventBelow32(evs[k])
  }

  ghost predicate PayloadsFit(resolve: nat -> seq<byte>) {
    forall m: nat :: |resolve(m)| < TWO_32
  }

  /** A completed call with 32-bit ids writes only instructions the decoder reads back. */
  lemma EmittedEncodable(st: W.RecorderState, ev: Event, resolve: nat -> seq<byte>)
    requires EventBelow32(ev) && PayloadsFit(resolve) && Step(st, ev, resolve).outcome.Ok?
    ensures AllEncodable(Emitted(st, ev, resolve))
  {
    StepCompletes(st, ev, resolve);
    match ev
    case Entered(m, f) =>
      assert |resolve(m)| < TWO_32;
    case BlockReached(b) =>
    case Returned =>
  }

  lemma {:induction false} TraceEncodable(st: W.RecorderState, evs: seq<Event>, resolve: nat -> seq<byte>)
    requires AllBelow32(evs) && PayloadsFit(resolve)
    ensures AllEncodable(Trace(st, evs, resolve))
    decreases |evs|
  {
    if evs != [] {
      var r := Step(st, evs[0], resolve);
      if r.outcome.Ok? {
        assert EventBelow32(evs[0]);
        EmittedEncodable(st, evs[0], resolve);
        assert AllBelow32(evs[1..]) by {
          forall k | 0 <= k < |evs[1..]|
            ensures EventBelow32(evs[1..][k])
          {
            assert evs[1..][k] == evs[k + 1];
          }
        }
        TraceEncodable(r.state, evs[1..], resolve);
        AllEncodableConcat(Emitted(st, evs[0], resolve), Trace(r.state, evs[1..], resolve));
      }
    }
  }

  lemma AllEncodableConcat(a: seq<Instruction>, b: seq<Instruction>)
    requires AllEncodable(a) && AllEncodable(b)
    ensures AllEncodable(a + b)
  {
    forall k | 0 <= k < |a + b|
      ensures Encodable((a + b)[k])
    {
      if k < |a| {
        assert (a + b)[k] == a[k];
      } else {
        assert (a + b)[k] == b[k - |a|];
      }
    }
  }

  /**
   * The round trip of a recording: the analyzer decodes the recorded bytes
   * into the instructions the recorder calls wrote, and `get_module_info`
   * returns the payload of exactly the modules the recorder resolved.
   */
  lemma RecordingRoundTrip(evs: seq<Event>, resolve: nat -> seq<byte>, m: nat)
    requires Record(W.Initial, evs, resolve).outcome.Ok? && AllBelow32(evs) && PayloadsFit(resolve)
    ensures var st := Record(W.Initial, evs, resolve).state;
            DecodeFrom(st.bytes, 0) == Ok(Trace(W.Initial, evs, resolve)) &&
            Replays.ModuleInfoFrom(st.bytes, 0, m, None) == Ok(if m in st.resolved then Some(resolve(m)) else None)
  {
    var st := Record(W.Initial, evs, resolve).state;
    var t := Trace(W.Initial, evs, resolve);
    RecordWire(W.Initial, evs, resolve);
    assert st.bytes == WireAll(t).value;
    TraceEncodable(W.Initial, evs, resolve);
    DecodeOfWrite(t);
    RecordingLaws(evs, resolve);
    ModuleInfoIsInfoIn(st.bytes, 0, m, None, t);
  }
}
