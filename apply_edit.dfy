/**
 * Carrying a source map's segment table across an edit of the generated
 * text (sourcemap/src/sourceMapApplyEdit.ts). The gaps between the edits
 * are copied from the old table, the inserted texts get unmapped segments.
 */
module ApplyEdits {
  import opened Codec
  import opened TextPositions
  import opened TextRanges
  import opened TextLengths
  import opened TextEdits
  import opened Search
  import opened SourceMaps
  import opened Wrappers

  /**
   * The variables the closures of `mappingsApplyEdit` share: the input
   * table (which the multi-line branch appends to), the output lines, the
   * last of which is `lastLine`, and `lastLineLength`.
   */
  datatype EditState = EditState(mappings: Mappings, result: Mappings, lastLineLength: int)

  /** The state before the first edit: one empty output line at column 0. */
  function Initial(mappings: Mappings): EditState {
    EditState(mappings, [[]], 0)
  }

  /** `lastLine`. */
  function LastLine(st: EditState): Line
    requires |st.result| >= 1
  {
    st.result[|st.result| - 1]
  }

  /** The output with `lastLine` replaced by `line`: what pushing onto `lastLine` amounts to. */
  function WithLast(result: Mappings, line: Line): (r: Mappings)
    requires |result| >= 1
    ensures |r| == |result| && r[|r| - 1] == line
    ensures r[..|r| - 1] == result[..|result| - 1]
  {
    result[..|result| - 1] + [line]
  }

  /** The search predicate of both branches: the segment starts before `column`. */
  function StartsBefore(column: int): Segment -> bool {
    (s: Segment) => s.genColumn < column
  }

  /** The index of the segment a gap starting at `column` cuts through, or -1. */
  function CutIndex(line: Line, column: int): (idx: int)
    ensures -1 <= idx < |line|
  {
    LastIdx(line, StartsBefore(column), 0, |line|)
  }

  /**
   * The segment a gap starting at `gapStart` cuts through, re-anchored at
   * output column `out`. As written (`fixed` false) `withDeltaColumn` moves
   * both columns by `out - genColumn`; the source column of the text at the
   * gap start is `sourceColumn + (gapStart - genColumn)`.
   */
  function Cut(before: Segment, gapStart: int, out: int, fixed: bool): (r: Segment)
    ensures r.genColumn == out
  {
    if fixed then before.WithDeltaColumn(gapStart - before.genColumn).WithGenColumn(out)
    else before.WithDeltaColumn(out - before.genColumn)
  }

  /**
   * The cut keeps the segment's kind, source file, source line and name.
   * Corrected, its source column is that of the text at the gap start; as
   * written, it is off by `out - gapStart`.
   */
  lemma CutFields(before: Segment, gapStart: int, out: int, fixed: bool)
    ensures var r := Cut(before, gapStart, out, fixed);
      r.Seg1? == before.Seg1? && r.Seg4? == before.Seg4? && r.Seg5? == before.Seg5? &&
      (!before.Seg1? ==> r.sourceIdx == before.sourceIdx && r.sourceLine == before.sourceLine) &&
      (before.Seg5? ==> r.nameIdx == before.nameIdx) &&
      (!before.Seg1? && fixed ==> r.sourceColumn == before.sourceColumn + (gapStart - before.genColumn)) &&
      (!before.Seg1? && !fixed ==> r.sourceColumn == before.sourceColumn + (gapStart - before.genColumn) + (out - gapStart))
  {
  }

  /** The cut segment of a gap starting at `gapStart`, if its start falls after a segment. */
  function CutPart(line: Line, gapStart: int, out: int, fixed: bool): (r: Line)
    ensures |r| <= 1 && (|r| == 1 <==> CutIndex(line, gapStart) != -1)
    ensures |r| == 1 ==> r[0] == Cut(line[CutIndex(line, gapStart)], gapStart, out, fixed) && r[0].genColumn == out
  {
    var idx := CutIndex(line, gapStart);
    if idx != -1 then [Cut(line[idx], gapStart, out, fixed)] else []
  }

  /** `line[i..]` up to the first segment starting at or after `end`, each moved by `offset`. */
  function CopyUntil(line: Line, i: nat, end: int, offset: int): Line
    decreases |line| - i
  {
    if i >= |line| || line[i].genColumn >= end then []
    else [line[i].WithGenColumn(line[i].genColumn + offset)] + CopyUntil(line, i + 1, end, offset)
  }

  /** `line[i..]`, each segment moved by `offset`. */
  function ShiftAll(line: Line, i: nat, offset: int): Line
    decreases |line| - i
  {
    if i >= |line| then []
    else [line[i].WithGenColumn(line[i].genColumn + offset)] + ShiftAll(line, i + 1, offset)
  }

  /** `line[i..]` up to the first segment starting at or after `end`, unmoved. */
  function TakeBefore(line: Line, i: nat, end: int): Line
    decreases |line| - i
  {
    if i >= |line| || line[i].genColumn >= end then []
    else [line[i]] + TakeBefore(line, i + 1, end)
  }

  /** `appendExisting` on a gap within one line. */
  function AppendSingle(st: EditState, range: TextRange, fixed: bool): (r: EditState)
    requires |st.result| >= 1 && 0 <= range.start.lineIdx < |st.mappings|
    ensures r.mappings == st.mappings && |r.result| == |st.result|
    ensures r.result[..|r.result| - 1] == st.result[..|st.result| - 1]
    ensures r.lastLineLength == st.lastLineLength + (range.endExclusive.charIdx - range.start.charIdx)
  {
    var L' := st.lastLineLength + (range.endExclusive.charIdx - range.start.charIdx);
    EditState(st.mappings, WithLast(st.result, SingleLast(st, range, fixed)), L')
  }

  /** The new `lastLine` of a one-line gap: the cut, the copies, and the gap end. */
  function SingleLast(st: EditState, range: TextRange, fixed: bool): Line
    requires |st.result| >= 1 && 0 <= range.start.lineIdx < |st.mappings|
  {
    var line := st.mappings[range.start.lineIdx];
    var s := range.start.charIdx;
    var L := st.lastLineLength;
    var idx := CutIndex(line, s);
    var L' := L + (range.endExclusive.charIdx - s);
    LastLine(st) + CutPart(line, s, L, fixed) + CopyUntil(line, idx + 1, range.endExclusive.charIdx, L - s) + [Seg1(L')]
  }

  /**
   * `appendExisting` on a gap over several lines. As written the cut
   * segment is pushed onto the input's start line, which the copy loop then
   * walks over; corrected, it goes onto `lastLine` like in the one-line case.
   */
  function AppendMulti(st: EditState, range: TextRange, fixed: bool): (r: EditState)
    requires |st.result| >= 1 && 0 <= range.start.lineIdx < range.endExclusive.lineIdx < |st.mappings|
    ensures |r.mappings| == |st.mappings|
    ensures fixed ==> r.mappings == st.mappings
    ensures |r.result| == |st.result| + (range.endExclusive.lineIdx - range.start.lineIdx)
    ensures r.result[..|st.result| - 1] == st.result[..|st.result| - 1]
    ensures r.lastLineLength == range.endExclusive.charIdx
  {
    var mappings' := StartMappings(st, range, fixed);
    var result1 := WithLast(st.result, LastLine(st) + StartCopied(st, range, fixed));
    var endPart := TakeBefore(mappings'[range.endExclusive.lineIdx], 0, range.endExclusive.charIdx);
    EditState(mappings', result1 + mappings'[range.start.lineIdx + 1..range.endExclusive.lineIdx] + [endPart],
      range.endExclusive.charIdx)
  }

  /** The input's start line with the cut segment pushed onto it, as written. */
  function GrownStartLine(st: EditState, range: TextRange): (r: Line)
    requires 0 <= range.start.lineIdx < |st.mappings|
    ensures var line := st.mappings[range.start.lineIdx];
      var idx := CutIndex(line, range.start.charIdx);
      |r| == |line| + (if idx == -1 then 0 else 1) && r[..|line|] == line
  {
    var line := st.mappings[range.start.lineIdx];
    var idx := CutIndex(line, range.start.charIdx);
    if idx != -1 then line + [Cut(line[idx], range.start.charIdx, st.lastLineLength, false)] else line
  }

  /** The mappings after the start line of a multi-line gap: changed only as written. */
  function StartMappings(st: EditState, range: TextRange, fixed: bool): (r: Mappings)
    requires 0 <= range.start.lineIdx < |st.mappings|
    ensures |r| == |st.mappings|
    ensures fixed ==> r == st.mappings
    ensures forall k :: 0 <= k < |r| && k != range.start.lineIdx ==> r[k] == st.mappings[k]
  {
    var line := st.mappings[range.start.lineIdx];
    if fixed || CutIndex(line, range.start.charIdx) == -1 then st.mappings
    else st.mappings[range.start.lineIdx := GrownStartLine(st, range)]
  }

  /** What the start line of a multi-line gap contributes to the last output line. */
  function StartCopied(st: EditState, range: TextRange, fixed: bool): Line
    requires 0 <= range.start.lineIdx < |st.mappings|
  {
    var line := st.mappings[range.start.lineIdx];
    var s := range.start.charIdx;
    var L := st.lastLineLength;
    var idx := CutIndex(line, s);
    if fixed then CutPart(line, s, L, true) + ShiftAll(line, idx + 1, L - s)
    else ShiftAll(GrownStartLine(st, range), idx + 1, L - s)
  }

  /** `appendExisting(range)` of the forwards gap `range`. */
  function AppendExistingSpec(st: EditState, range: TextRange, fixed: bool): (r: EditState)
    requires |st.result| >= 1
    requires 0 <= range.start.lineIdx <= range.endExclusive.lineIdx < |st.mappings|
    ensures |r.mappings| == |st.mappings| && (fixed ==> r.mappings == st.mappings)
    ensures |r.result| == |st.result| + (range.endExclusive.lineIdx - range.start.lineIdx)
    ensures r.result[..|st.result| - 1] == st.result[..|st.result| - 1]
  {
    if range.IsSingleLine() then AppendSingle(st, range, fixed) else AppendMulti(st, range, fixed)
  }

  /** `n` new empty lines. */
  function EmptyLines(n: nat): (r: Mappings)
    ensures |r| == n
  {
    seq(n, _ => [])
  }

  /**
   * `insert(text)`: an unmapped segment at the current output column, then
   * the column moves past the text, or `lineCount` empty lines open and the
   * column is the number of characters after the text's last line break.
   */
  function InsertSpec(st: EditState, text: string): (r: EditState)
    requires |st.result| >= 1
    ensures r.mappings == st.mappings
    ensures |r.result| == |st.result| + LengthOfText(text).lineCount
    ensures r.result[..|st.result| - 1] == st.result[..|st.result| - 1]
    ensures r.result[|st.result| - 1] == LastLine(st) + [Seg1(st.lastLineLength)]
    ensures forall i :: |st.result| <= i < |r.result| ==> r.result[i] == []
    ensures LengthOfText(text).lineCount == 0 ==> r.lastLineLength == st.lastLineLength + |text|
    ensures LengthOfText(text).lineCount > 0 ==> r.lastLineLength == LengthOfText(text).columnCount
  {
    var length := LengthOfText(text);
    var result1 := WithLast(st.result, LastLine(st) + [Seg1(st.lastLineLength)]);
    LengthOfTextCounts(text);
    if length.lineCount == 0 then
      NoLineBreakColumns(text);
      EditState(st.mappings, result1, st.lastLineLength + length.columnCount)
    else
      EditState(st.mappings, result1 + EmptyLines(length.lineCount), length.columnCount)
  }

  /** A text without line breaks is all columns. */
  lemma NoLineBreakColumns(text: string)
    requires LengthOfText(text).lineCount == 0
    ensures LengthOfText(text).columnCount == |text|
  {
    LengthOfTextCounts(text);
    var c := LengthOfText(text).columnCount;
    assert c < |text| ==> text[|text| - c - 1] in multiset(text);
  }

  // ---- the walk over the edits ----

  /**
   * `from`, the edits and `to` in order: each edit starts at or after the
   * previous end position and ends at or after its own start.
   */
  predicate Chain(from: TextPos, edits: seq<SingleTextEdit>, to: TextPos)
    decreases |edits|
  {
    if edits == [] then from.IsBeforeOrEqual(to)
    else from.IsBeforeOrEqual(edits[0].range.start) &&
         edits[0].range.start.IsBeforeOrEqual(edits[0].range.endExclusive) &&
         Chain(edits[0].range.endExclusive, edits[1..], to)
  }

  /** The end of the last edit, or `from` when there is none. */
  function EndAfter(from: TextPos, edits: seq<SingleTextEdit>, to: TextPos): (r: TextPos)
    requires Chain(from, edits, to)
    ensures from.IsBeforeOrEqual(r) && r.IsBeforeOrEqual(to)
    decreases |edits|
  {
    if edits == [] then from else EndAfter(edits[0].range.endExclusive, edits[1..], to)
  }

  /** A chain ends after it starts. */
  lemma ChainBound(from: TextPos, edits: seq<SingleTextEdit>, to: TextPos)
    requires Chain(from, edits, to)
    ensures from.IsBeforeOrEqual(to)
  {
    var last := EndAfter(from, edits, to);
  }

  /** One iteration of `constructResultWithEdit`: the gap before the edit, if any, then its text. */
  function Step(st: EditState, lastEditEnd: TextPos, e: SingleTextEdit, fixed: bool): (r: EditState)
    requires |st.result| >= 1 && 0 <= lastEditEnd.lineIdx
    requires lastEditEnd.IsBeforeOrEqual(e.range.start) && e.range.start.lineIdx < |st.mappings|
    ensures |r.mappings| == |st.mappings| && (fixed ==> r.mappings == st.mappings)
    ensures |r.result| == |st.result| + (e.range.start.lineIdx - lastEditEnd.lineIdx) + LengthOfText(e.text).lineCount
  {
    var gap := TextRange(lastEditEnd, e.range.start);
    var st1 := if !gap.IsEmpty() then AppendExistingSpec(st, gap, fixed) else st;
    InsertSpec(st1, e.text)
  }

  /** The state after the loop of `constructResultWithEdit` has processed `edits`. */
  function Fold(st: EditState, lastEditEnd: TextPos, edits: seq<SingleTextEdit>, end: TextPos, fixed: bool): (r: EditState)
    requires |st.result| >= 1 && 0 <= lastEditEnd.lineIdx && end.lineIdx < |st.mappings|
    requires Chain(lastEditEnd, edits, end)
    ensures |r.result| >= 1 && |r.mappings| == |st.mappings| && (fixed ==> r.mappings == st.mappings)
    decreases |edits|
  {
    if edits == [] then st
    else
      var e := edits[0];
      ChainBound(e.range.endExclusive, edits[1..], end);
      Fold(Step(st, lastEditEnd, e, fixed), e.range.endExclusive, edits[1..], end, fixed)
  }

  /** `constructResultWithEdit`: the loop, then the gap from the last edit up to `end`. */
  function Construct(st: EditState, edits: seq<SingleTextEdit>, end: TextPos, fixed: bool): (r: EditState)
    requires |st.result| >= 1 && end.lineIdx < |st.mappings| && Chain(Zero, edits, end)
    ensures |r.mappings| == |st.mappings| && (fixed ==> r.mappings == st.mappings)
  {
    var st1 := Fold(st, Zero, edits, end, fixed);
    var gap := TextRange(EndAfter(Zero, edits, end), end);
    if !gap.IsEmpty() then AppendExistingSpec(st1, gap, fixed) else st1
  }

  /** The position `mappingsApplyEdit` runs the last gap up to. */
  function EndOf(mappings: Mappings): TextPos {
    TextPos(|mappings| - 1, MAX_SAFE_INTEGER)
  }

  /** The walk over already normalized edits that stay within the table. */
  function AfterNormalized(mappings: Mappings, normalized: seq<SingleTextEdit>, fixed: bool): Mappings
    requires |mappings| >= 1 && Chain(Zero, normalized, EndOf(mappings))
  {
    Construct(Initial(mappings), normalized, EndOf(mappings), fixed).result
  }

  /** What `mappingsApplyEdit` returns. */
  function MappingsAfterEdit(mappings: Mappings, edits: seq<SingleTextEdit>, fixed: bool): Mappings
    requires |mappings| >= 1 && Chain(Zero, edits, EndOf(mappings))
  {
    NormalizeChain(Zero, edits, EndOf(mappings));
    AfterNormalized(mappings, NormalizeFold(edits), fixed)
  }

  /** The end of the last edit, or `Zero` when there is none. */
  function LastEnd(edits: seq<SingleTextEdit>): TextPos {
    if edits == [] then Zero else edits[|edits| - 1].range.endExclusive
  }

  /** The edits are in order: each starts at or after the previous end and ends at or after its start. */
  predicate InOrder(edits: seq<SingleTextEdit>) {
    Chain(Zero, edits, LastEnd(edits))
  }

  /** A chain runs up to the end of its last edit. */
  lemma {:induction false} ChainToLastEnd(from: TextPos, edits: seq<SingleTextEdit>, to: TextPos)
    requires Chain(from, edits, to)
    ensures EndAfter(from, edits, to) == (if edits == [] then from else LastEnd(edits))
    ensures Chain(from, edits, EndAfter(from, edits, to))
    decreases |edits|
  {
    if edits != [] {
      ChainToLastEnd(edits[0].range.endExclusive, edits[1..], to);
      if |edits| > 1 {
        assert LastEnd(edits[1..]) == LastEnd(edits);
      }
    }
  }

  /**
   * When the last edit ends on a line past the table, the gap after it is
   * not empty, spans several lines and starts on a line the table does not
   * have: `appendExisting` reads `startLine.length` of `undefined`.
   */
  lemma FinalGapPastTable(mappings: Mappings, last: TextPos)
    requires last.lineIdx >= |mappings|
    ensures var gap := TextRange(last, EndOf(mappings));
      !gap.IsEmpty() && !gap.IsSingleLine() && gap.start.lineIdx >= |mappings|
  {
  }

  /** The error a JavaScript engine throws on reading `length` of a missing line. */
  const MissingLineError := "TypeError: Cannot read properties of undefined (reading 'length')"

  // ---- the closures and loops of mappingsApplyEdit ----

  /** `appendExisting`, as written: the cut segment of a multi-line gap goes onto the input's start line. */
  method AppendExisting(st: EditState, range: TextRange) returns (st': EditState)
    requires |st.result| >= 1
    requires 0 <= range.start.lineIdx <= range.endExclusive.lineIdx < |st.mappings|
    ensures st' == AppendExistingSpec(st, range, false)
  {
    if range.IsSingleLine() {
      st' := AppendSingleLine(st, range);
    } else {
      st' := AppendLines(st, range);
    }
  }

  /** The one-line branch of `appendExisting`. */
  method AppendSingleLine(st: EditState, range: TextRange) returns (st': EditState)
    requires |st.result| >= 1 && 0 <= range.start.lineIdx < |st.mappings|
    ensures st' == AppendSingle(st, range, false)
  {
    var mappings := st.mappings;
    var lastLine := LastLine(st);
    var lastLineLength := st.lastLineLength;
    var line := mappings[range.start.lineIdx];
    var columnOffset := lastLineLength - range.start.charIdx;
    var idx := FindLastIdxMonotonous(line, StartsBefore(range.start.charIdx), 0, |line|);
    ghost var cut := CutPart(line, range.start.charIdx, lastLineLength, false);
    if idx != -1 {
      var before := line[idx];
      lastLine := lastLine + [before.WithDeltaColumn(lastLineLength - before.genColumn)];
    } else {
      NothingAppended(lastLine);
    }
    assert lastLine == LastLine(st) + cut;
    lastLine := CopyGap(lastLine, line, idx + 1, range.endExclusive.charIdx, columnOffset);
    lastLineLength := lastLineLength + (range.endExclusive.charIdx - range.start.charIdx);
    lastLine := lastLine + [Seg1(lastLineLength)];
    st' := EditState(mappings, WithLast(st.result, lastLine), lastLineLength);
  }

  /** The copy loop of the one-line branch: segments before the gap end, moved by `columnOffset`. */
  method CopyGap(lastLine: Line, line: Line, from: nat, end: int, columnOffset: int) returns (lastLine': Line)
    requires from <= |line|
    ensures lastLine' == lastLine + CopyUntil(line, from, end, columnOffset)
  {
    lastLine' := lastLine;
    var i := from;
    while i < |line|
      invariant from <= i <= |line|
      invariant lastLine' + CopyUntil(line, i, end, columnOffset) == lastLine + CopyUntil(line, from, end, columnOffset)
    {
      var s := line[i];
      if s.genColumn >= end {
        assert CopyUntil(line, i, end, columnOffset) == [];
        NothingAppended(lastLine');
        return;
      }
      ConsAssoc(lastLine', s.WithGenColumn(s.genColumn + columnOffset), CopyUntil(line, i + 1, end, columnOffset),
        lastLine + CopyUntil(line, from, end, columnOffset));
      lastLine' := lastLine' + [s.WithGenColumn(s.genColumn + columnOffset)];
      i := i + 1;
    }
    NothingAppended(lastLine');
  }

  /** The branch of `appendExisting` for a gap over several lines. */
  method AppendLines(st: EditState, range: TextRange) returns (st': EditState)
    requires |st.result| >= 1 && 0 <= range.start.lineIdx < range.endExclusive.lineIdx < |st.mappings|
    ensures st' == AppendMulti(st, range, false)
  {
    // start line
    var mappings, copied := AppendStartLine(st, range);
    var result := WithLast(st.result, LastLine(st) + copied);
    ghost var result1 := result;
    // full lines
    result := CopyLines(result, mappings, range.start.lineIdx + 1, range.endExclusive.lineIdx);
    // last line
    var lastLine := CopyBefore(mappings[range.endExclusive.lineIdx], range.endExclusive.charIdx);
    result := result + [lastLine];
    assert result == result1 + mappings[range.start.lineIdx + 1..range.endExclusive.lineIdx] + [lastLine];
    st' := EditState(mappings, result, range.endExclusive.charIdx);
  }

  /** The start-line part of the multi-line branch, which grows the input's start line. */
  method AppendStartLine(st: EditState, range: TextRange) returns (mappings: Mappings, copied: Line)
    requires 0 <= range.start.lineIdx < |st.mappings|
    ensures mappings == StartMappings(st, range, false)
    ensures copied == StartCopied(st, range, false)
  {
    mappings := st.mappings;
    var lastLineLength := st.lastLineLength;
    var startLine := mappings[range.start.lineIdx];
    var columnOffset := lastLineLength - range.start.charIdx;
    var idx := FindLastIdxMonotonous(startLine, StartsBefore(range.start.charIdx), 0, |startLine|);
    if idx != -1 {
      var before := startLine[idx];
      startLine := startLine + [before.WithDeltaColumn(lastLineLength - before.genColumn)];
      mappings := mappings[range.start.lineIdx := startLine];
    }
    assert startLine == GrownStartLine(st, range);
    assert idx == CutIndex(st.mappings[range.start.lineIdx], range.start.charIdx);
    copied := CopyRest([], startLine, idx + 1, columnOffset);
    assert copied == ShiftAll(startLine, idx + 1, columnOffset);
  }

  /** The start-line loop of the multi-line branch: every segment from `from` on, moved by `columnOffset`. */
  method CopyRest(lastLine: Line, startLine: Line, from: nat, columnOffset: int) returns (lastLine': Line)
    requires from <= |startLine|
    ensures lastLine' == lastLine + ShiftAll(startLine, from, columnOffset)
  {
    lastLine' := lastLine;
    var i := from;
    while i < |startLine|
      invariant from <= i <= |startLine|
      invariant lastLine' + ShiftAll(startLine, i, columnOffset) == lastLine + ShiftAll(startLine, from, columnOffset)
    {
      var s := startLine[i];
      ConsAssoc(lastLine', s.WithGenColumn(s.genColumn + columnOffset), ShiftAll(startLine, i + 1, columnOffset),
        lastLine + ShiftAll(startLine, from, columnOffset));
      lastLine' := lastLine' + [s.WithGenColumn(s.genColumn + columnOffset)];
      i := i + 1;
    }
    NothingAppended(lastLine');
  }

  /** The full-lines loop: lines `from` up to `to` of the input, as they are. */
  method CopyLines(result: Mappings, mappings: Mappings, from: nat, to: nat) returns (result': Mappings)
    requires from <= to <= |mappings|
    ensures result' == result + mappings[from..to]
  {
    result' := result;
    var i := from;
    while i < to
      invariant from <= i <= to
      invariant result' == result + mappings[from..i]
    {
      assert mappings[from..i + 1] == mappings[from..i] + [mappings[i]];
      result' := result' + [mappings[i]];
      i := i + 1;
    }
  }

  /** The last-line loop: the end line's segments before column `end`, unmoved. */
  method CopyBefore(endLine: Line, end: int) returns (lastLine: Line)
    ensures lastLine == TakeBefore(endLine, 0, end)
  {
    lastLine := [];
    var i := 0;
    while i < |endLine|
      invariant 0 <= i <= |endLine|
      invariant lastLine + TakeBefore(endLine, i, end) == TakeBefore(endLine, 0, end)
    {
      var s := endLine[i];
      if s.genColumn >= end {
        assert TakeBefore(endLine, i, end) == [];
        NothingAppended(lastLine);
        return;
      }
      ConsAssoc(lastLine, s, TakeBefore(endLine, i + 1, end), TakeBefore(endLine, 0, end));
      lastLine := lastLine + [s];
      i := i + 1;
    }
    NothingAppended(lastLine);
  }

  /** `insert`. */
  method Insert(st: EditState, text: string) returns (st': EditState)
    requires |st.result| >= 1
    ensures st' == InsertSpec(st, text)
  {
    var length := OfText(text);
    var lastLineLength := st.lastLineLength;
    var result := WithLast(st.result, LastLine(st) + [Seg1(lastLineLength)]);
    if length.lineCount == 0 {
      lastLineLength := lastLineLength + length.columnCount;
    } else {
      ghost var pushed := result;
      var i := 0;
      while i < length.lineCount
        invariant 0 <= i <= length.lineCount
        invariant result == pushed + EmptyLines(i)
      {
        var line: Line := [];
        assert EmptyLines(i + 1) == EmptyLines(i) + [line];
        result := result + [line];
        i := i + 1;
      }
      lastLineLength := length.columnCount;
    }
    st' := EditState(st.mappings, result, lastLineLength);
  }

  /** `constructResultWithEdit`, with `appendExisting` and `insert` as its two callbacks. */
  method ConstructResultWithEdit(st: EditState, edits: seq<SingleTextEdit>, end: TextPos) returns (st': EditState)
    requires |st.result| >= 1 && end.lineIdx < |st.mappings| && Chain(Zero, edits, end)
    ensures st' == Construct(st, edits, end, false)
  {
    var cur := st;
    var lastEditEnd := Zero;
    var i := 0;
    while i < |edits|
      invariant 0 <= i <= |edits|
      invariant |cur.result| >= 1 && |cur.mappings| == |st.mappings| && 0 <= lastEditEnd.lineIdx
      invariant Chain(lastEditEnd, edits[i..], end)
      invariant Fold(cur, lastEditEnd, edits[i..], end, false) == Fold(st, Zero, edits, end, false)
      invariant EndAfter(lastEditEnd, edits[i..], end) == EndAfter(Zero, edits, end)
    {
      var e := edits[i];
      assert edits[i..][0] == e && edits[i..][1..] == edits[i + 1..];
      ChainBound(e.range.endExclusive, edits[i + 1..], end);
      var r := TextRange(lastEditEnd, e.range.start);
      if !r.IsEmpty() {
        cur := AppendExisting(cur, r);
      }
      cur := Insert(cur, e.text);
      lastEditEnd := e.range.endExclusive;
      i := i + 1;
    }
    assert edits[i..] == [];
    var r := TextRange(lastEditEnd, end);
    if !r.IsEmpty() {
      cur := AppendExisting(cur, r);
    }
    st' := cur;
  }

  /**
   * `mappingsApplyEdit`: normalizes the edit, then walks gaps and inserted
   * texts up to the end of the last line. A gap that reaches a line past the
   * table throws; the lines only grow along the walk, so that happens exactly
   * when the last normalized edit ends past the table, and the gap after it
   * is then one (`FinalGapPastTable`). The model tests this before the walk.
   */
  method MappingsApplyEdit(mappings: Mappings, edit: TextEdit) returns (result: Result<Mappings>)
    requires InOrder(edit.edits)
    requires var last := LastEnd(NormalizeFold(edit.edits));
      last.lineIdx >= |mappings| || last.IsBeforeOrEqual(EndOf(mappings))
    ensures result.Fail? <==> LastEnd(NormalizeFold(edit.edits)).lineIdx >= |mappings|
    ensures result.Fail? ==> result.message == MissingLineError
    ensures result.Ok? ==> (|mappings| >= 1 && Chain(Zero, NormalizeFold(edit.edits), EndOf(mappings)) &&
      result.value == AfterNormalized(mappings, NormalizeFold(edit.edits), false))
    ensures |mappings| >= 1 && Chain(Zero, edit.edits, EndOf(mappings)) ==>
      result == Ok(MappingsAfterEdit(mappings, edit.edits, false))
  {
    var normalized := Normalize(edit);
    if |mappings| >= 1 && Chain(Zero, edit.edits, EndOf(mappings)) {
      NormalizedLastEnd(edit.edits, EndOf(mappings));
    }
    var last := LastEnd(normalized.edits);
    if last.lineIdx >= |mappings| {
      FinalGapPastTable(mappings, last);
      return Fail(MissingLineError);
    }
    NormalizedWithinTable(mappings, edit.edits);
    var st := ConstructResultWithEdit(Initial(mappings), normalized.edits, TextPos(|mappings| - 1, MAX_SAFE_INTEGER));
    result := Ok(st.result);
  }

  /** Normalized edits chain up to the end of their last edit, which is at or before any end of the original chain. */
  lemma NormalizedLastEnd(edits: seq<SingleTextEdit>, to: TextPos)
    requires Chain(Zero, edits, to)
    ensures Chain(Zero, NormalizeFold(edits), LastEnd(NormalizeFold(edits)))
    ensures LastEnd(NormalizeFold(edits)).IsBeforeOrEqual(to)
  {
    NormalizeChain(Zero, edits, to);
    ChainToLastEnd(Zero, NormalizeFold(edits), to);
  }

  /** Ordered edits whose normalized form ends within the last line of the table stay within the table. */
  lemma NormalizedWithinTable(mappings: Mappings, edits: seq<SingleTextEdit>)
    requires InOrder(edits) && LastEnd(NormalizeFold(edits)).IsBeforeOrEqual(EndOf(mappings))
    ensures |mappings| >= 1 && Chain(Zero, NormalizeFold(edits), EndOf(mappings))
  {
    NormalizedLastEnd(edits, LastEnd(edits));
    ChainWeaken(Zero, NormalizeFold(edits), LastEnd(NormalizeFold(edits)), EndOf(mappings));
    ChainBound(Zero, NormalizeFold(edits), EndOf(mappings));
  }

  /** `sourceMapApplyEdit`: decode, carry the table across the edit, encode into a new map. */
  method SourceMapApplyEdit(sourceMap: SourceMapV3, edit: TextEdit) returns (r: Result<SourceMapV3>)
    requires InOrder(edit.edits)
    requires var last := LastEnd(NormalizeFold(edit.edits));
      last.lineIdx >= |MappingsOf(sourceMap.mappings)| || last.IsBeforeOrEqual(EndOf(MappingsOf(sourceMap.mappings)))
    ensures |MappingsOf(sourceMap.mappings)| >= 1
    ensures r.Fail? <==> LastEnd(NormalizeFold(edit.edits)).lineIdx >= |MappingsOf(sourceMap.mappings)|
    ensures r.Fail? ==> r.message == MissingLineError
    ensures r.Ok? ==> (fresh(r.value) && r.value.Valid() && r.value.decoded.None? &&
      Chain(Zero, NormalizeFold(edit.edits), EndOf(MappingsOf(sourceMap.mappings))) &&
      r.value.mappings == Encoding(AfterNormalized(MappingsOf(sourceMap.mappings), NormalizeFold(edit.edits), false)))
    ensures r.Ok? ==> (r.value.file == sourceMap.file && r.value.sourceRoot == sourceMap.sourceRoot &&
      r.value.sources == sourceMap.sources && r.value.sourcesContent == sourceMap.sourcesContent &&
      r.value.names == sourceMap.names)
    ensures Chain(Zero, edit.edits, EndOf(MappingsOf(sourceMap.mappings))) ==>
      r.Ok? && r.value.mappings == Encoding(MappingsAfterEdit(MappingsOf(sourceMap.mappings), edit.edits, false))
  {
    var decoded := DecodeMappings(sourceMap.mappings);
    LineCount(sourceMap.mappings);
    var resultMappings := MappingsApplyEdit(decoded, edit);
    if resultMappings.Fail? {
      return Fail(resultMappings.message);
    }
    var resultMappingsStr := Encode(resultMappings.value);
    var map' := sourceMap.WithMappings(resultMappingsStr);
    r := Ok(map');
  }

  lemma NothingAppended<T>(x: seq<T>)
    ensures x + [] == x
  {
  }

  // ---- normalize keeps the edits in order ----

  /** A chain may end later. */
  lemma {:induction false} ChainWeaken(from: TextPos, edits: seq<SingleTextEdit>, a: TextPos, b: TextPos)
    requires Chain(from, edits, a) && a.IsBeforeOrEqual(b)
    ensures Chain(from, edits, b)
    decreases |edits|
  {
    if edits != [] {
      ChainWeaken(edits[0].range.endExclusive, edits[1..], a, b);
    }
  }

  /** A chain through `init + [e]` is a chain through `init` up to `e`'s start, then `e`. */
  lemma {:induction false} ChainSnoc(from: TextPos, init: seq<SingleTextEdit>, e: SingleTextEdit, to: TextPos)
    ensures Chain(from, init + [e], to) <==>
      Chain(from, init, e.range.start) && e.range.start.IsBeforeOrEqual(e.range.endExclusive) &&
      e.range.endExclusive.IsBeforeOrEqual(to)
    decreases |init|
  {
    if init == [] {
      assert [e][1..] == [];
    } else {
      assert (init + [e])[1..] == init[1..] + [e];
      ChainSnoc(init[0].range.endExclusive, init[1..], e, to);
    }
  }

  /** `normalize` keeps a chain of edits a chain between the same positions. */
  lemma {:induction false} NormalizeChain(from: TextPos, edits: seq<SingleTextEdit>, to: TextPos)
    requires Chain(from, edits, to)
    ensures Chain(from, NormalizeFold(edits), to)
    decreases |edits|
  {
    if edits == [] {
      return;
    }
    var init := edits[..|edits| - 1];
    var e := edits[|edits| - 1];
    assert edits == init + [e];
    ChainSnoc(from, init, e, to);
    NormalizeChain(from, init, e.range.start);
    var acc := NormalizeFold(init);
    if |acc| > 0 && acc[|acc| - 1].range.endExclusive.Equals(e.range.start) {
      var last := acc[|acc| - 1];
      var front := acc[..|acc| - 1];
      assert acc == front + [last];
      ChainSnoc(from, front, last, e.range.start);
      PlusRangeOfAdjacent(last.range, e.range);
      var merged := SingleTextEdit(last.range.PlusRange(e.range), last.text + e.text);
      ChainSnoc(from, front, merged, to);
    } else if !e.IsEmpty() {
      ChainSnoc(from, acc, e, to);
    } else {
      ChainWeaken(from, acc, e.range.start, to);
    }
  }
}
