/**
 * Per-module location tables (recording/src/ModuleInfo.ts): the location of
 * each function and of each of its blocks, their compact serialised form,
 * and the lookup of the source position of a (function, block) pair.
 *
 * The serialised form omits what has not changed: one tracker holding the
 * last character index and source path index is threaded through every
 * reference of every function in order, by both `serialize` and `from`.
 */
module ModuleInfos {
  import opened Wrappers
  import opened Decimals
  import opened TextPositions

  /** `LocationRef`. */
  datatype LocationRef = LocationRef(lineIdx: nat, charIdx: nat, sourcePathIdx: nat)

  /** `FunctionInfo`: the function's own location and one per block id; `null` is `None`. */
  datatype FunctionInfo = FunctionInfo(location: Option<LocationRef>, locationPerBlockId: seq<Option<LocationRef>>) {
    /**
     * `getBlockLocationRef`: no block id means the function itself; a block
     * id past the table reads `undefined`, which every caller treats as `null`.
     */
    function GetBlockLocationRef(blockId: Option<nat>): (r: Option<LocationRef>)
      ensures blockId.None? ==> r == location
      ensures blockId.Some? ==> (r.Some? <==> blockId.value < |locationPerBlockId| && locationPerBlockId[blockId.value].Some?)
      ensures blockId.Some? && r.Some? ==> r == locationPerBlockId[blockId.value]
    {
      match blockId
      case None => location
      case Some(b) => if b < |locationPerBlockId| then locationPerBlockId[b] else None
    }
  }

  /** `ModuleInfo`. */
  datatype ModuleInfo = ModuleInfo(sourcePaths: seq<string>, fnInfos: seq<FunctionInfo>)

  /**
   * `SerializedLocationRef`: `[line, char, path]`, `[line, char]` (path as
   * before) or a bare line number (character and path as before).
   */
  datatype SerializedRef =
    | Full(lineIdx: nat, charIdx: nat, sourcePathIdx: nat)
    | LineChar(lineIdx: nat, charIdx: nat)
    | Line(lineIdx: nat)
  {
    function LineIdx(): nat {
      match this
      case Full(l, _, _) => l
      case LineChar(l, _) => l
      case Line(l) => l
    }
  }

  /** `ISerializedModuleInfo`: per function, its location followed by its blocks' locations. */
  datatype SerializedModuleInfo = SerializedModuleInfo(sourcePaths: seq<string>, fnInfos: seq<seq<Option<SerializedRef>>>)

  /** The running `charIdx` and `sourcePathIdx`. */
  datatype Tracker = Tracker(charIdx: nat, sourcePathIdx: nat)

  const Untracked := Tracker(0, 0)

  /** The tracker after a reference, and the serialised reference. */
  datatype Translated = Translated(tracker: Tracker, ref: Option<SerializedRef>)

  /**
   * `translateLocation`: the path changed, the character changed, or only
   * the line is written. The tracker then holds the reference's character
   * and path, and a `null` leaves it as it was.
   */
  function Translate(t: Tracker, loc: Option<LocationRef>): (r: Translated)
    ensures r.ref.Some? <==> loc.Some?
    ensures r.tracker == if loc.Some? then Tracker(loc.value.charIdx, loc.value.sourcePathIdx) else t
    ensures r.ref.Some? ==> r.ref.value.LineIdx() == loc.value.lineIdx
  {
    match loc
    case None => Translated(t, None)
    case Some(LocationRef(l, c, p)) =>
      if p != t.sourcePathIdx then Translated(Tracker(c, p), Some(Full(l, c, p)))
      else if c != t.charIdx then Translated(Tracker(c, t.sourcePathIdx), Some(LineChar(l, c)))
      else Translated(t, Some(Line(l)))
  }

  /** The tracker after a run of references, and their serialised forms in order. */
  datatype Serializing = Serializing(tracker: Tracker, refs: seq<Option<SerializedRef>>)

  function TranslateAll(t: Tracker, locs: seq<Option<LocationRef>>): (r: Serializing)
    ensures |r.refs| == |locs|
    decreases |locs|
  {
    if locs == [] then Serializing(t, [])
    else
      var before := TranslateAll(t, locs[..|locs| - 1]);
      var last := Translate(before.tracker, locs[|locs| - 1]);
      Serializing(last.tracker, before.refs + [last.ref])
  }

  /** A function's references in the order they are written: its own location, then its blocks'. */
  function Refs(fn: FunctionInfo): seq<Option<LocationRef>> {
    [fn.location] + fn.locationPerBlockId
  }

  datatype SerializedFns = SerializedFns(tracker: Tracker, fnInfos: seq<seq<Option<SerializedRef>>>)

  function SerializeFns(t: Tracker, fns: seq<FunctionInfo>): (r: SerializedFns)
    ensures |r.fnInfos| == |fns|
    decreases |fns|
  {
    if fns == [] then SerializedFns(t, [])
    else
      var before := SerializeFns(t, fns[..|fns| - 1]);
      var last := TranslateAll(before.tracker, Refs(fns[|fns| - 1]));
      SerializedFns(last.tracker, before.fnInfos + [last.refs])
  }

  /** `serialize` as a function of the module info. */
  function Serialized(m: ModuleInfo): SerializedModuleInfo {
    SerializedModuleInfo(m.sourcePaths, SerializeFns(Untracked, m.fnInfos).fnInfos)
  }

  /** `serialize`. */
  method Serialize(m: ModuleInfo) returns (info: SerializedModuleInfo)
    ensures info == Serialized(m)
  {
    var fnInfos: seq<seq<Option<SerializedRef>>> := [];
    var charIdx: nat := 0;
    var sourcePathIdx: nat := 0;
    var k := 0;
    while k < |m.fnInfos|
      invariant k <= |m.fnInfos|
      invariant SerializeFns(Untracked, m.fnInfos[..k]) == SerializedFns(Tracker(charIdx, sourcePathIdx), fnInfos)
    {
      var fn := m.fnInfos[k];
      var t0 := Tracker(charIdx, sourcePathIdx);
      var locationsByBlockIdPlusOne: seq<Option<SerializedRef>> := [];
      var tr := Translate(Tracker(charIdx, sourcePathIdx), fn.location);
      charIdx, sourcePathIdx := tr.tracker.charIdx, tr.tracker.sourcePathIdx;
      locationsByBlockIdPlusOne := locationsByBlockIdPlusOne + [tr.ref];
      RefsFirst(fn);
      TranslateAllSnoc(t0, [], fn.location);
      var j := 0;
      while j < |fn.locationPerBlockId|
        invariant j <= |fn.locationPerBlockId|
        invariant TranslateAll(t0, Refs(fn)[..j + 1]) == Serializing(Tracker(charIdx, sourcePathIdx), locationsByBlockIdPlusOne)
      {
        RefsNext(fn, j);
        TranslateAllSnoc(t0, Refs(fn)[..j + 1], fn.locationPerBlockId[j]);
        tr := Translate(Tracker(charIdx, sourcePathIdx), fn.locationPerBlockId[j]);
        charIdx, sourcePathIdx := tr.tracker.charIdx, tr.tracker.sourcePathIdx;
        locationsByBlockIdPlusOne := locationsByBlockIdPlusOne + [tr.ref];
        j := j + 1;
      }
      assert Refs(fn)[..j + 1] == Refs(fn);
      PrefixSnoc(m.fnInfos, k);
      SerializeFnsSnoc(Untracked, m.fnInfos[..k], fn);
      fnInfos := fnInfos + [locationsByBlockIdPlusOne];
      k := k + 1;
    }
    assert m.fnInfos[..k] == m.fnInfos;
    info := SerializedModuleInfo(m.sourcePaths, fnInfos);
  }

  lemma RefsFirst(fn: FunctionInfo)
    ensures Refs(fn)[..1] == [] + [fn.location]
  {
  }

  lemma RefsNext(fn: FunctionInfo, j: nat)
    requires j < |fn.locationPerBlockId|
    ensures Refs(fn)[..j + 2] == Refs(fn)[..j + 1] + [fn.locationPerBlockId[j]]
  {
  }

  lemma PrefixSnoc<T>(s: seq<T>, k: nat)
    requires k < |s|
    ensures s[..k + 1] == s[..k] + [s[k]]
  {
  }

  /** The tracker after reading a reference, and the location read. */
  datatype Processed = Processed(tracker: Tracker, loc: Option<LocationRef>)

  /**
   * The body of `from`'s inner loop for one reference. As written (`fixed`
   * false), the test `!loc` is also true of the bare line number `0`, which
   * then reads back as `null`; `fixed` reads it as a line.
   */
  function Process(t: Tracker, ref: Option<SerializedRef>, fixed: bool): (r: Processed)
    ensures r.loc.None? ==> r.tracker == t
    ensures r.loc.Some? ==> r.tracker == Tracker(r.loc.value.charIdx, r.loc.value.sourcePathIdx)
    ensures r.loc.None? <==> ref.None? || (!fixed && ref == Some(Line(0)))
  {
    match ref
    case None => Processed(t, None)
    case Some(Full(l, c, p)) => Processed(Tracker(c, p), Some(LocationRef(l, c, p)))
    case Some(LineChar(l, c)) => Processed(Tracker(c, t.sourcePathIdx), Some(LocationRef(l, c, t.sourcePathIdx)))
    case Some(Line(l)) =>
      if !fixed && l == 0 then Processed(t, None)
      else Processed(t, Some(LocationRef(l, t.charIdx, t.sourcePathIdx)))
  }

  datatype Reading = Reading(tracker: Tracker, locs: seq<Option<LocationRef>>)

  function ProcessAll(t: Tracker, refs: seq<Option<SerializedRef>>, fixed: bool): (r: Reading)
    ensures |r.locs| == |refs|
    decreases |refs|
  {
    if refs == [] then Reading(t, [])
    else
      var before := ProcessAll(t, refs[..|refs| - 1], fixed);
      var last := Process(before.tracker, refs[|refs| - 1], fixed);
      Reading(last.tracker, before.locs + [last.loc])
  }

  /** The first location read is the function's, the others its blocks'; none at all gives `null`. */
  function FunctionOf(locs: seq<Option<LocationRef>>): FunctionInfo {
    if locs == [] then FunctionInfo(None, []) else FunctionInfo(locs[0], locs[1..])
  }

  datatype ReadFunctions = ReadFunctions(tracker: Tracker, fns: seq<FunctionInfo>)

  function ReadFns(t: Tracker, fnInfos: seq<seq<Option<SerializedRef>>>, fixed: bool): (r: ReadFunctions)
    ensures |r.fns| == |fnInfos|
    decreases |fnInfos|
  {
    if fnInfos == [] then ReadFunctions(t, [])
    else
      var before := ReadFns(t, fnInfos[..|fnInfos| - 1], fixed);
      var last := ProcessAll(before.tracker, fnInfos[|fnInfos| - 1], fixed);
      ReadFunctions(last.tracker, before.fns + [FunctionOf(last.locs)])
  }

  /** `ModuleInfo.from` as a function of the serialised form. */
  function Deserialized(info: SerializedModuleInfo, fixed: bool): ModuleInfo {
    ModuleInfo(info.sourcePaths, ReadFns(Untracked, info.fnInfos, fixed).fns)
  }

  lemma TranslateAllSnoc(t: Tracker, locs: seq<Option<LocationRef>>, loc: Option<LocationRef>)
    ensures var before := TranslateAll(t, locs);
            var last := Translate(before.tracker, loc);
            TranslateAll(t, locs + [loc]) == Serializing(last.tracker, before.refs + [last.ref])
  {
    assert (locs + [loc])[..|locs|] == locs;
  }

  lemma SerializeFnsSnoc(t: Tracker, fns: seq<FunctionInfo>, fn: FunctionInfo)
    ensures var before := SerializeFns(t, fns);
            var last := TranslateAll(before.tracker, Refs(fn));
            SerializeFns(t, fns + [fn]) == SerializedFns(last.tracker, before.fnInfos + [last.refs])
  {
    assert (fns + [fn])[..|fns|] == fns;
  }

  lemma ProcessAllSnoc(t: Tracker, refs: seq<Option<SerializedRef>>, ref: Option<SerializedRef>, fixed: bool)
    ensures var before := ProcessAll(t, refs, fixed);
            var last := Process(before.tracker, ref, fixed);
            ProcessAll(t, refs + [ref], fixed) == Reading(last.tracker, before.locs + [last.loc])
  {
    assert (refs + [ref])[..|refs|] == refs;
  }

  lemma ReadFnsSnoc(t: Tracker, fnInfos: seq<seq<Option<SerializedRef>>>, refs: seq<Option<SerializedRef>>, fixed: bool)
    ensures var before := ReadFns(t, fnInfos, fixed);
            var last := ProcessAll(before.tracker, refs, fixed);
            ReadFns(t, fnInfos + [refs], fixed) == ReadFunctions(last.tracker, before.fns + [FunctionOf(last.locs)])
  {
    assert (fnInfos + [refs])[..|fnInfos|] == fnInfos;
  }

  /** `ModuleInfo.from`, as written. */
  method From(info: SerializedModuleInfo) returns (m: ModuleInfo)
    ensures m == Deserialized(info, false)
  {
    var fnInfos: seq<FunctionInfo> := [];
    var charIdx: nat := 0;
    var sourcePathIdx: nat := 0;
    var k := 0;
    while k < |info.fnInfos|
      invariant k <= |info.fnInfos|
      invariant ReadFns(Untracked, info.fnInfos[..k], false) == ReadFunctions(Tracker(charIdx, sourcePathIdx), fnInfos)
    {
      var fnInfo := info.fnInfos[k];
      var t0 := Tracker(charIdx, sourcePathIdx);
      var isFirst := true;
      var fnLocation: Option<LocationRef> := None;
      var locByBlockId: seq<Option<LocationRef>> := [];
      var j := 0;
      while j < |fnInfo|
        invariant j <= |fnInfo| && (isFirst <==> j == 0)
        invariant var read := ProcessAll(t0, fnInfo[..j], false);
                  read.tracker == Tracker(charIdx, sourcePathIdx) && FunctionOf(read.locs) == FunctionInfo(fnLocation, locByBlockId)
      {
        ghost var before := ProcessAll(t0, fnInfo[..j], false);
        var loc := fnInfo[j];
        PrefixSnoc(fnInfo, j);
        ProcessAllSnoc(t0, fnInfo[..j], loc, false);
        var processedLoc: Option<LocationRef>;
        if loc.None? || loc == Some(Line(0)) {
          processedLoc := None;
        } else {
          var lineIdx := 0;
          match loc.value {
            case Full(l, c, p) =>
              lineIdx := l;
              charIdx := c;
              sourcePathIdx := p;
            case LineChar(l, c) =>
              lineIdx := l;
              charIdx := c;
            case Line(l) =>
              lineIdx := l;
          }
          processedLoc := Some(LocationRef(lineIdx, charIdx, sourcePathIdx));
        }
        assert Process(before.tracker, loc, false) == Processed(Tracker(charIdx, sourcePathIdx), processedLoc);
        if isFirst {
          fnLocation := processedLoc;
          isFirst := false;
        } else {
          locByBlockId := locByBlockId + [processedLoc];
        }
        FunctionOfSnoc(before.locs, processedLoc);
        j := j + 1;
      }
      assert fnInfo[..j] == fnInfo;
      PrefixSnoc(info.fnInfos, k);
      ReadFnsSnoc(Untracked, info.fnInfos[..k], fnInfo, false);
      fnInfos := fnInfos + [FunctionInfo(fnLocation, locByBlockId)];
      k := k + 1;
    }
    assert info.fnInfos[..k] == info.fnInfos;
    m := ModuleInfo(info.sourcePaths, fnInfos);
  }

  /** One more location read goes to the function if it is the first, else to the next block. */
  lemma FunctionOfSnoc(locs: seq<Option<LocationRef>>, loc: Option<LocationRef>)
    ensures FunctionOf(locs + [loc]) ==
            if locs == [] then FunctionInfo(loc, [])
            else FunctionInfo(FunctionOf(locs).location, FunctionOf(locs).locationPerBlockId + [loc])
  {
    if locs != [] {
      assert (locs + [loc])[1..] == locs[1..] + [loc];
    }
  }

  /** Reading a serialised reference with the same tracker gives the location back, and the same tracker. */
  lemma ProcessTranslate(t: Tracker, loc: Option<LocationRef>)
    ensures var tr := Translate(t, loc);
            Process(t, tr.ref, true) == Processed(tr.tracker, loc)
  {
  }

  /** Reading a serialised run of references gives the run back; both sides end with the same tracker. */
  lemma {:induction false} ProcessTranslateAll(t: Tracker, locs: seq<Option<LocationRef>>)
    ensures var s := TranslateAll(t, locs);
            ProcessAll(t, s.refs, true) == Reading(s.tracker, locs)
    decreases |locs|
  {
    if locs != [] {
      var init, loc := locs[..|locs| - 1], locs[|locs| - 1];
      assert init + [loc] == locs;
      var before := TranslateAll(t, init);
      var last := Translate(before.tracker, loc);
      assert TranslateAll(t, locs) == Serializing(last.tracker, before.refs + [last.ref]) by {
        TranslateAllSnoc(t, init, loc);
      }
      assert ProcessAll(t, before.refs, true) == Reading(before.tracker, init) by {
        ProcessTranslateAll(t, init);
      }
      assert Process(before.tracker, last.ref, true) == Processed(last.tracker, loc) by {
        ProcessTranslate(before.tracker, loc);
      }
      ProcessAllSnoc(t, before.refs, last.ref, true);
    }
  }

  /** Reading the serialised functions gives the functions back, with the same tracker. */
  lemma {:induction false} ReadSerializedFns(t: Tracker, fns: seq<FunctionInfo>)
    ensures var s := SerializeFns(t, fns);
            ReadFns(t, s.fnInfos, true) == ReadFunctions(s.tracker, fns)
    decreases |fns|
  {
    if fns != [] {
      var init, fn := fns[..|fns| - 1], fns[|fns| - 1];
      assert init + [fn] == fns;
      var before := SerializeFns(t, init);
      var last := TranslateAll(before.tracker, Refs(fn));
      assert SerializeFns(t, fns) == SerializedFns(last.tracker, before.fnInfos + [last.refs]) by {
        SerializeFnsSnoc(t, init, fn);
      }
      assert ReadFns(t, before.fnInfos, true) == ReadFunctions(before.tracker, init) by {
        ReadSerializedFns(t, init);
      }
      assert ProcessAll(before.tracker, last.refs, true) == Reading(last.tracker, Refs(fn)) by {
        ProcessTranslateAll(before.tracker, Refs(fn));
      }
      assert FunctionOf(Refs(fn)) == fn by {
        assert Refs(fn)[1..] == fn.locationPerBlockId;
      }
      ReadFnsSnoc(t, before.fnInfos, last.refs, true);
    }
  }

  /** With the bare line `0` read as a line, `from(serialize(m))` is `m`. */
  lemma RoundTrip(m: ModuleInfo)
    ensures Deserialized(Serialized(m), true) == m
  {
    ReadSerializedFns(Untracked, m.fnInfos);
  }

  /** No serialised reference is the bare line number `0`. */
  predicate NoBareZero(info: SerializedModuleInfo) {
    forall k, j :: 0 <= k < |info.fnInfos| && 0 <= j < |info.fnInfos[k]| ==> info.fnInfos[k][j] != Some(Line(0))
  }

  lemma {:induction false} ProcessAllAsWritten(t: Tracker, refs: seq<Option<SerializedRef>>)
    requires forall j :: 0 <= j < |refs| ==> refs[j] != Some(Line(0))
    ensures ProcessAll(t, refs, false) == ProcessAll(t, refs, true)
    decreases |refs|
  {
    if refs != [] {
      ProcessAllAsWritten(t, refs[..|refs| - 1]);
    }
  }

  lemma {:induction false} ReadFnsAsWritten(t: Tracker, fnInfos: seq<seq<Option<SerializedRef>>>)
    requires forall k, j :: 0 <= k < |fnInfos| && 0 <= j < |fnInfos[k]| ==> fnInfos[k][j] != Some(Line(0))
    ensures ReadFns(t, fnInfos, false) == ReadFns(t, fnInfos, true)
    decreases |fnInfos|
  {
    if fnInfos != [] {
      var init := fnInfos[..|fnInfos| - 1];
      ReadFnsAsWritten(t, init);
      ProcessAllAsWritten(ReadFns(t, init, true).tracker, fnInfos[|fnInfos| - 1]);
    }
  }

  /** The test `!loc` as written only matters for the bare line `0`. */
  lemma AsWrittenAgrees(info: SerializedModuleInfo)
    requires NoBareZero(info)
    ensures Deserialized(info, false) == Deserialized(info, true)
  {
    ReadFnsAsWritten(Untracked, info.fnInfos);
  }

  /** Every location of the module is on a line after the first. */
  predicate PositiveLines(m: ModuleInfo) {
    forall k, j :: 0 <= k < |m.fnInfos| && 0 <= j < |Refs(m.fnInfos[k])| && Refs(m.fnInfos[k])[j].Some? ==>
      Refs(m.fnInfos[k])[j].value.lineIdx > 0
  }

  /** Only a location on line `0` can serialise as the bare `0`. */
  lemma {:induction false} TranslateAllNoBareZero(t: Tracker, locs: seq<Option<LocationRef>>)
    requires forall j :: 0 <= j < |locs| && locs[j].Some? ==> locs[j].value.lineIdx > 0
    ensures forall j :: 0 <= j < |locs| ==> TranslateAll(t, locs).refs[j] != Some(Line(0))
    decreases |locs|
  {
    if locs != [] {
      var init, loc := locs[..|locs| - 1], locs[|locs| - 1];
      assert init + [loc] == locs;
      TranslateAllNoBareZero(t, init);
      TranslateAllSnoc(t, init, loc);
    }
  }

  lemma {:induction false} SerializeFnsNoBareZero(t: Tracker, fns: seq<FunctionInfo>)
    requires forall k, j :: 0 <= k < |fns| && 0 <= j < |Refs(fns[k])| && Refs(fns[k])[j].Some? ==>
               Refs(fns[k])[j].value.lineIdx > 0
    ensures var infos := SerializeFns(t, fns).fnInfos;
            forall k, j :: 0 <= k < |infos| && 0 <= j < |infos[k]| ==> infos[k][j] != Some(Line(0))
    decreases |fns|
  {
    if fns != [] {
      var init, fn := fns[..|fns| - 1], fns[|fns| - 1];
      assert init + [fn] == fns;
      SerializeFnsNoBareZero(t, init);
      TranslateAllNoBareZero(SerializeFns(t, init).tracker, Refs(fn));
      SerializeFnsSnoc(t, init, fn);
    }
  }

  /** As written, `from(serialize(m))` is `m` when no location is on the first line. */
  lemma RoundTripAsWritten(m: ModuleInfo)
    requires PositiveLines(m)
    ensures Deserialized(Serialized(m), false) == m
  {
    SerializeFnsNoBareZero(Untracked, m.fnInfos);
    assert Serialized(m).fnInfos == SerializeFns(Untracked, m.fnInfos).fnInfos;
    AsWrittenAgrees(Serialized(m));
    RoundTrip(m);
  }

  /** A function located at the very start of its file, path 0, loses its location through `serialize` and `from`. */
  lemma FirstLineLost()
    ensures var m := ModuleInfo([], [FunctionInfo(Some(LocationRef(0, 0, 0)), [])]);
            Serialized(m).fnInfos == [[Some(Line(0))]] &&
            Deserialized(Serialized(m), false) == ModuleInfo([], [FunctionInfo(None, [])]) &&
            Deserialized(Serialized(m), false) != m
  {
    var m := ModuleInfo([], [FunctionInfo(Some(LocationRef(0, 0, 0)), [])]);
    var refs := Refs(m.fnInfos[0]);
    assert refs == [Some(LocationRef(0, 0, 0))];
    assert refs[..0] == [];
    assert TranslateAll(Untracked, refs) == Serializing(Untracked, [Some(Line(0))]);
    assert m.fnInfos[..0] == [];
    assert Serialized(m).fnInfos == [[Some(Line(0))]];
    var info := [[Some(Line(0))]];
    assert info[..0] == [] && info[0][..0] == [];
    assert ProcessAll(Untracked, info[0], false) == Reading(Untracked, [None]);
    var none: seq<Option<LocationRef>> := [None];
    assert FunctionOf(none) == FunctionInfo(None, []) by {
      assert none[1..] == [];
    }
    assert ReadFns(Untracked, info, false) == ReadFunctions(Untracked, [FunctionInfo(None, [])]);
  }

  /** `SourceLocation`; a path index past `sourcePaths` reads `undefined`. */
  datatype SourceLocation = SourceLocation(sourcePath: Option<string>, pos: TextPos) {
    /** The path as a template literal prints it. */
    function PathText(): string {
      if sourcePath.Some? then sourcePath.value else "undefined"
    }

    /** `toString`: the path, then the line and the character, both counted from 1. */
    function ToString(): string {
      PathText() + ":" + IntString(pos.lineIdx + 1) + ":" + IntString(pos.charIdx + 1)
    }
  }

  /** `ExecutionPosition`. */
  datatype ExecutionPosition = ExecutionPosition(functionId: nat, blockId: Option<nat>, location: Option<SourceLocation>) {
    /** The function id, then `#` and the block id when there is one. */
    function IdsText(): string {
      Decimal(functionId) + if blockId.Some? then "#" + Decimal(blockId.value) else ""
    }

    function LocationText(): string {
      if location.Some? then location.value.ToString() else "?"
    }

    /** `toString`: the location or `?`, then the ids in braces. */
    function ToString(): string {
      LocationText() + " {" + IdsText() + "}"
    }
  }

  /** The source path of a reference: `sourcePaths[i]`, or `undefined` past the end. */
  function PathAt(sourcePaths: seq<string>, i: nat): Option<string> {
    if i < |sourcePaths| then Some(sourcePaths[i]) else None
  }

  /** Reading a property of `fnInfos[functionId]` when it is `undefined`. */
  const NO_FUNCTION_INFO := "TypeError: Cannot read properties of undefined (reading 'getBlockLocationRef')"

  /**
   * `getTextPos`: an unknown function throws; a missing reference gives a
   * position without location; otherwise the reference's path and position.
   */
  function GetTextPos(m: ModuleInfo, functionId: nat, blockId: Option<nat>): (r: Result<ExecutionPosition>)
    ensures r.Fail? <==> functionId >= |m.fnInfos|
    ensures r.Ok? ==> r.value.functionId == functionId && r.value.blockId == blockId
    ensures r.Ok? ==> (r.value.location.None? <==> m.fnInfos[functionId].GetBlockLocationRef(blockId).None?)
    ensures r.Ok? && r.value.location.Some? ==>
              var loc := m.fnInfos[functionId].GetBlockLocationRef(blockId).value;
              r.value.location.value == SourceLocation(PathAt(m.sourcePaths, loc.sourcePathIdx), TextPos(loc.lineIdx, loc.charIdx))
  {
    if functionId >= |m.fnInfos| then Fail(NO_FUNCTION_INFO)
    else
      match m.fnInfos[functionId].GetBlockLocationRef(blockId)
      case None => Ok(ExecutionPosition(functionId, blockId, None))
      case Some(loc) =>
        Ok(ExecutionPosition(functionId, blockId,
                             Some(SourceLocation(PathAt(m.sourcePaths, loc.sourcePathIdx), TextPos(loc.lineIdx, loc.charIdx)))))
  }

  /** The recorded positions survive the serialised form: `from(serialize(m))` answers every lookup as `m` does. */
  lemma TextPosRoundTrip(m: ModuleInfo, functionId: nat, blockId: Option<nat>)
    ensures GetTextPos(Deserialized(Serialized(m), true), functionId, blockId) == GetTextPos(m, functionId, blockId)
  {
    RoundTrip(m);
  }

  /** As written, the lookup of the function of `FirstLineLost` finds no location, though it has one. */
  lemma FirstLineLookupLost()
    ensures var m := ModuleInfo([], [FunctionInfo(Some(LocationRef(0, 0, 0)), [])]);
            GetTextPos(m, 0, None) == Ok(ExecutionPosition(0, None, Some(SourceLocation(None, TextPos(0, 0))))) &&
            GetTextPos(Deserialized(Serialized(m), false), 0, None) == Ok(ExecutionPosition(0, None, None))
  {
    FirstLineLost();
  }

  /** When the text after the last `c` holds no `c`, the split at it is unique. */
  lemma SplitAtLast(x: string, y: string, x': string, y': string, c: char)
    requires x + [c] + y == x' + [c] + y'
    requires forall k :: 0 <= k < |y| ==> y[k] != c
    requires forall k :: 0 <= k < |y'| ==> y'[k] != c
    ensures x == x' && y == y'
  {
    LastOccurrence(x, c, y);
    LastOccurrence(x', c, y');
    assert |x| == |x'|;
    var s := x + [c] + y;
    assert x == s[..|x|] && x' == s[..|x'|];
    assert y == s[|x| + 1..] && y' == s[|x'| + 1..];
  }

  /** The `c` after `x` is the last one. */
  lemma LastOccurrence(x: string, c: char, y: string)
    requires forall k :: 0 <= k < |y| ==> y[k] != c
    ensures var s := x + [c] + y;
            s[|x|] == c && forall i :: |x| < i < |s| ==> s[i] != c
  {
    var s := x + [c] + y;
    forall i | |x| < i < |s|
      ensures s[i] != c
    {
      assert s[i] == y[i - |x| - 1];
    }
  }

  /** `SourceLocation.toString` keeps the position: the same text means the same path text, line and character. */
  lemma SourceLocationText(a: SourceLocation, b: SourceLocation)
    requires a.ToString() == b.ToString()
    ensures a.PathText() == b.PathText() && a.pos == b.pos
  {
    var la, lb := IntString(a.pos.lineIdx + 1), IntString(b.pos.lineIdx + 1);
    var ca, cb := IntString(a.pos.charIdx + 1), IntString(b.pos.charIdx + 1);
    SplitAtLast(a.PathText() + ":" + la, ca, b.PathText() + ":" + lb, cb, ':');
    SplitAtLast(a.PathText(), la, b.PathText(), lb, ':');
    IntStringInjective(a.pos.lineIdx + 1, b.pos.lineIdx + 1);
    IntStringInjective(a.pos.charIdx + 1, b.pos.charIdx + 1);
  }

  /** The printed line and character are the zero-based ones plus one. */
  lemma SourceLocationOneBased(l: SourceLocation)
    requires l.pos.lineIdx >= 0 && l.pos.charIdx >= 0
    ensures exists p: string, line: string, ch: string ::
              l.ToString() == p + ":" + line + ":" + ch && p == l.PathText() &&
              AllDigits(line) && Value(line) == l.pos.lineIdx + 1 && AllDigits(ch) && Value(ch) == l.pos.charIdx + 1
  {
    ValueOfDecimal(l.pos.lineIdx + 1);
    ValueOfDecimal(l.pos.charIdx + 1);
    var line, ch := Decimal(l.pos.lineIdx + 1), Decimal(l.pos.charIdx + 1);
    assert l.ToString() == l.PathText() + ":" + line + ":" + ch;
  }

  /** `ExecutionPosition.toString` keeps the ids: the same text means the same function and block. */
  lemma ExecutionPositionIds(a: ExecutionPosition, b: ExecutionPosition)
    requires a.ToString() == b.ToString()
    ensures a.functionId == b.functionId && a.blockId == b.blockId
  {
    var ia, ib := a.IdsText(), b.IdsText();
    var la, lb := a.LocationText(), b.LocationText();
    NoBraceInIds(a);
    NoBraceInIds(b);
    Braced(la, ia);
    Braced(lb, ib);
    SplitAtLast(la + " ", ia + "}", lb + " ", ib + "}", '{');
    DropLast(ia, ib, '}');
    IdsInjective(a, b);
  }

  lemma Braced(l: string, ids: string)
    ensures l + " {" + ids + "}" == l + " " + ['{'] + (ids + "}")
  {
  }

  lemma DropLast(x: string, y: string, c: char)
    requires x + [c] == y + [c]
    ensures x == y
  {
    assert x == (x + [c])[..|x|];
    assert y == (y + [c])[..|y|];
  }

  lemma NoBraceInIds(p: ExecutionPosition)
    ensures forall k :: 0 <= k < |p.IdsText() + "}"| ==> (p.IdsText() + "}")[k] != '{'
  {
    var f := Decimal(p.functionId);
    assert forall k :: 0 <= k < |f| ==> IsDigit(f[k]);
    if p.blockId.Some? {
      var b := Decimal(p.blockId.value);
      assert forall k :: 0 <= k < |b| ==> IsDigit(b[k]);
    }
  }

  /** Ids with a block never print like ids without one. */
  lemma MixedIds(f: nat, b: nat, f': nat)
    ensures Decimal(f) + ("#" + Decimal(b)) != Decimal(f') + ""
  {
    var s, t := Decimal(f) + ("#" + Decimal(b)), Decimal(f') + "";
    assert s[|Decimal(f)|] == '#';
    assert t == Decimal(f');
    if |Decimal(f)| < |t| {
      assert IsDigit(t[|Decimal(f)|]);
    }
  }

  lemma IdsInjective(a: ExecutionPosition, b: ExecutionPosition)
    requires a.IdsText() == b.IdsText()
    ensures a.functionId == b.functionId && a.blockId == b.blockId
  {
    var fa, fb := Decimal(a.functionId), Decimal(b.functionId);
    var s := a.IdsText();
    if a.blockId.Some? && b.blockId.Some? {
      var ba, bb := Decimal(a.blockId.value), Decimal(b.blockId.value);
      assert forall k :: 0 <= k < |ba| ==> IsDigit(ba[k]);
      assert forall k :: 0 <= k < |bb| ==> IsDigit(bb[k]);
      assert fa + ("#" + ba) == fa + ['#'] + ba;
      assert fb + ("#" + bb) == fb + ['#'] + bb;
      SplitAtLast(fa, ba, fb, bb, '#');
      DecimalInjective(a.functionId, b.functionId);
      DecimalInjective(a.blockId.value, b.blockId.value);
    } else if a.blockId.Some? {
      MixedIds(a.functionId, a.blockId.value, b.functionId);
      assert false;
    } else if b.blockId.Some? {
      MixedIds(b.functionId, b.blockId.value, a.functionId);
      assert false;
    } else {
      assert fa + "" == fa && fb + "" == fb;
      DecimalInjective(a.functionId, b.functionId);
    }
  }
}
