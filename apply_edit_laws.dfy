/**
 * What carrying a segment table across an edit preserves
 * (sourcemap/src/sourceMapApplyEdit.ts): the line accounting, the order of
 * the segments on a line, and which segments a gap copies.
 */
module ApplyEditLaws {
  import opened Codec
  import opened TextPositions
  import opened TextRanges
  import opened TextLengths
  import opened TextEdits
  import opened Search
  import opened SourceMaps
  import opened ApplyEdits

  // ---- line accounting ----

  /** The number of line breaks the range of `e` covers in the old text. */
  function Span(e: SingleTextEdit): int {
    e.range.endExclusive.lineIdx - e.range.start.lineIdx
  }

  /** The line breaks removed by all the edits. */
  function SpanSum(edits: seq<SingleTextEdit>): int
    decreases |edits|
  {
    if edits == [] then 0 else Span(edits[0]) + SpanSum(edits[1..])
  }

  /** The line breaks inserted by all the edits. */
  function NewlineSum(edits: seq<SingleTextEdit>): int
    decreases |edits|
  {
    if edits == [] then 0 else LengthOfText(edits[0].text).lineCount + NewlineSum(edits[1..])
  }

  /** Both sums taken one edit at the back. */
  lemma {:induction false} SumsSnoc(init: seq<SingleTextEdit>, e: SingleTextEdit)
    ensures SpanSum(init + [e]) == SpanSum(init) + Span(e)
    ensures NewlineSum(init + [e]) == NewlineSum(init) + LengthOfText(e.text).lineCount
    decreases |init|
  {
    if init == [] {
      assert [e][1..] == [];
    } else {
      assert (init + [e])[1..] == init[1..] + [e];
      SumsSnoc(init[1..], e);
    }
  }

  /** The edits of a chain all go forwards. */
  lemma {:induction false} ChainForwards(from: TextPos, edits: seq<SingleTextEdit>, to: TextPos)
    requires Chain(from, edits, to)
    ensures Forwards(edits)
    decreases |edits|
  {
    if edits != [] {
      ChainForwards(edits[0].range.endExclusive, edits[1..], to);
      assert forall i :: 1 <= i < |edits| ==> edits[i] == edits[1..][i - 1];
    }
  }

  /**
   * `normalize` removes and inserts the same line breaks: a merged edit
   * covers both ranges and carries both texts, a dropped one covers and
   * carries nothing.
   */
  lemma {:induction false} NormalizeKeepsSums(edits: seq<SingleTextEdit>)
    requires Forwards(edits)
    ensures SpanSum(NormalizeFold(edits)) == SpanSum(edits)
    ensures NewlineSum(NormalizeFold(edits)) == NewlineSum(edits)
    decreases |edits|
  {
    if edits == [] {
      return;
    }
    var init := edits[..|edits| - 1];
    var e := edits[|edits| - 1];
    assert edits == init + [e];
    assert forall i :: 0 <= i < |init| ==> init[i] == edits[i];
    NormalizeKeepsSums(init);
    NormalizeIsNormalized(init);
    SumsSnoc(init, e);
    var acc := NormalizeFold(init);
    assert NormalizeFold(edits) == NormalizeStep(acc, e);
    if |acc| > 0 && acc[|acc| - 1].range.endExclusive.Equals(e.range.start) {
      var last := acc[|acc| - 1];
      var merged := MergeShape(acc, e);
      SnocSplit(acc);
      SumsSnoc(acc[..|acc| - 1], last);
      SumsSnoc(acc[..|acc| - 1], merged);
      LengthOfConcat(last.text, e.text);
    } else if !e.IsEmpty() {
      SumsSnoc(acc, e);
    } else {
      CompareZeroIffEquals(e.range, e.range);
      assert e.text == "";
    }
  }

  /** Each step of the loop adds the gap's line breaks and the text's. */
  lemma {:induction false} FoldLineCount(st: EditState, from: TextPos, edits: seq<SingleTextEdit>, end: TextPos, fixed: bool)
    requires |st.result| >= 1 && 0 <= from.lineIdx && end.lineIdx < |st.mappings|
    requires Chain(from, edits, end)
    ensures |Fold(st, from, edits, end, fixed).result| ==
      |st.result| + (EndAfter(from, edits, end).lineIdx - from.lineIdx) - SpanSum(edits) + NewlineSum(edits)
    decreases |edits|
  {
    if edits != [] {
      var e := edits[0];
      ChainBound(e.range.endExclusive, edits[1..], end);
      FoldLineCount(Step(st, from, e, fixed), e.range.endExclusive, edits[1..], end, fixed);
    }
  }

  /** `constructResultWithEdit` covers every old line break up to `end`, less the edited ones, plus the inserted ones. */
  lemma ConstructLineCount(st: EditState, edits: seq<SingleTextEdit>, end: TextPos, fixed: bool)
    requires |st.result| >= 1 && end.lineIdx < |st.mappings| && Chain(Zero, edits, end)
    ensures |Construct(st, edits, end, fixed).result| == |st.result| + end.lineIdx - SpanSum(edits) + NewlineSum(edits)
  {
    FoldLineCount(st, Zero, edits, end, fixed);
    var last := EndAfter(Zero, edits, end);
    CompareZeroIffEquals(TextRange(last, end), TextRange(last, end));
  }

  /**
   * The output of `mappingsApplyEdit` has one line per line of the edited
   * text: the old line count, less the line breaks the edits cover, plus
   * those their texts insert.
   */
  lemma MappingsAfterEditLineCount(mappings: Mappings, edits: seq<SingleTextEdit>, fixed: bool)
    requires |mappings| >= 1 && Chain(Zero, edits, EndOf(mappings))
    ensures |MappingsAfterEdit(mappings, edits, fixed)| == |mappings| - SpanSum(edits) + NewlineSum(edits)
  {
    NormalizeChain(Zero, edits, EndOf(mappings));
    ConstructLineCount(Initial(mappings), NormalizeFold(edits), EndOf(mappings), fixed);
    ChainForwards(Zero, edits, EndOf(mappings));
    NormalizeKeepsSums(edits);
  }

  // ---- order of the segments ----

  /** Every segment of `line` starts at or before column `m`. */
  predicate AtMost(line: Line, m: int) {
    forall k :: 0 <= k < |line| ==> line[k].genColumn <= m
  }

  /** Every segment of `line` starts at or after column `m`. */
  predicate AtLeast(line: Line, m: int) {
    forall k :: 0 <= k < |line| ==> line[k].genColumn >= m
  }

  /** Every line of the table is sorted by generated column. */
  predicate AllSorted(ms: Mappings) {
    forall i :: 0 <= i < |ms| ==> SortedByGenColumn(ms[i])
  }

  /**
   * The invariant of the walk: input and output lines sorted, and nothing
   * on `lastLine` past the output column `lastLineLength`.
   */
  predicate Ordered(st: EditState) {
    |st.result| >= 1 && AllSorted(st.mappings) && AllSorted(st.result) && AtMost(LastLine(st), st.lastLineLength)
  }

  /** Two sorted lines, the first ending where the second may start, make a sorted line. */
  lemma SortedConcat(a: Line, b: Line, m: int)
    requires SortedByGenColumn(a) && SortedByGenColumn(b) && AtMost(a, m) && AtLeast(b, m)
    ensures SortedByGenColumn(a + b)
  {
    forall x, y | 0 <= x < y < |a + b|
      ensures (a + b)[x].genColumn <= (a + b)[y].genColumn
    {
      if y < |a| {
        assert (a + b)[x] == a[x] && (a + b)[y] == a[y];
      } else if x >= |a| {
        assert (a + b)[x] == b[x - |a|] && (a + b)[y] == b[y - |a|];
      } else {
        assert (a + b)[x] == a[x] && (a + b)[y] == b[y - |a|];
      }
    }
  }

  /** Bounds of a concatenation. */
  lemma BoundsConcat(a: Line, b: Line, lo: int, hi: int)
    ensures AtMost(a, hi) && AtMost(b, hi) ==> AtMost(a + b, hi)
    ensures AtLeast(a, lo) && AtLeast(b, lo) ==> AtLeast(a + b, lo)
  {
    assert forall k :: 0 <= k < |a + b| ==> (a + b)[k] == if k < |a| then a[k] else b[k - |a|];
  }

  /** Sorted tables concatenate into a sorted table. */
  lemma AllSortedConcat(a: Mappings, b: Mappings)
    requires AllSorted(a) && AllSorted(b)
    ensures AllSorted(a + b)
  {
    assert forall k :: 0 <= k < |a + b| ==> (a + b)[k] == if k < |a| then a[k] else b[k - |a|];
  }

  /** Replacing the last line by a sorted one keeps the output sorted. */
  lemma AllSortedWithLast(result: Mappings, line: Line)
    requires |result| >= 1 && AllSorted(result) && SortedByGenColumn(line)
    ensures AllSorted(WithLast(result, line))
  {
    var r := WithLast(result, line);
    assert forall k :: 0 <= k < |r| - 1 ==> r[k] == result[k];
  }

  /** Every segment of `line` from index `i` on starts at or after column `m`. */
  predicate AtLeastFrom(line: Line, i: int, m: int) {
    forall k :: 0 <= k < |line| && i <= k ==> line[k].genColumn >= m
  }

  /** On a sorted line, the segments after the cut start at or after the gap start. */
  lemma AfterCut(line: Line, column: int)
    requires SortedByGenColumn(line)
    ensures AtLeastFrom(line, CutIndex(line, column) + 1, column)
  {
    forall x, y | 0 <= x < y < |line| && !StartsBefore(column)(line[x])
      ensures !StartsBefore(column)(line[y])
    {
    }
    LastIdxSplits(line, StartsBefore(column), 0, |line|);
  }

  /** The copies of a one-line gap keep their order and land in `[lo + offset, end + offset)`. */
  lemma {:induction false} CopyUntilBounds(line: Line, i: nat, end: int, offset: int, lo: int)
    requires i <= |line| && SortedByGenColumn(line) && AtLeastFrom(line, i, lo)
    ensures SortedByGenColumn(CopyUntil(line, i, end, offset))
    ensures AtLeast(CopyUntil(line, i, end, offset), lo + offset)
    ensures AtMost(CopyUntil(line, i, end, offset), end + offset - 1)
    decreases |line| - i
  {
    if i < |line| && line[i].genColumn < end {
      CopyUntilBounds(line, i + 1, end, offset, line[i].genColumn);
      var head := [line[i].WithGenColumn(line[i].genColumn + offset)];
      SortedConcat(head, CopyUntil(line, i + 1, end, offset), line[i].genColumn + offset);
      BoundsConcat(head, CopyUntil(line, i + 1, end, offset), lo + offset, end + offset - 1);
    }
  }

  /** The copies of the start line keep their order and start at or after `lo + offset`. */
  lemma {:induction false} ShiftAllBounds(line: Line, i: nat, offset: int, lo: int)
    requires i <= |line| && SortedByGenColumn(line) && AtLeastFrom(line, i, lo)
    ensures SortedByGenColumn(ShiftAll(line, i, offset))
    ensures AtLeast(ShiftAll(line, i, offset), lo + offset)
    decreases |line| - i
  {
    if i < |line| {
      ShiftAllBounds(line, i + 1, offset, line[i].genColumn);
      var head := [line[i].WithGenColumn(line[i].genColumn + offset)];
      SortedConcat(head, ShiftAll(line, i + 1, offset), line[i].genColumn + offset);
      BoundsConcat(head, ShiftAll(line, i + 1, offset), lo + offset, 0);
    }
  }

  /** The end line's part before the gap end keeps its order and ends before `end`. */
  lemma {:induction false} TakeBeforeBounds(line: Line, i: nat, end: int)
    requires i <= |line| && SortedByGenColumn(line)
    ensures SortedByGenColumn(TakeBefore(line, i, end)) && AtMost(TakeBefore(line, i, end), end - 1)
    ensures AtLeast(TakeBefore(line, i, end), if i < |line| then line[i].genColumn else 0)
    decreases |line| - i
  {
    if i < |line| && line[i].genColumn < end {
      TakeBeforeBounds(line, i + 1, end);
      var lo := if i + 1 < |line| then line[i + 1].genColumn else 0;
      var rest := TakeBefore(line, i + 1, end);
      assert rest != [] ==> AtLeast(rest, line[i].genColumn);
      SortedConcat([line[i]], rest, line[i].genColumn);
      BoundsConcat([line[i]], rest, line[i].genColumn, end - 1);
    }
  }

  /** `insert` keeps the walk ordered: its segment sits at the end of `lastLine`, and its new lines are empty. */
  lemma InsertKeepsOrdered(st: EditState, text: string)
    requires Ordered(st)
    ensures Ordered(InsertSpec(st, text))
  {
    var r := InsertSpec(st, text);
    var L := st.lastLineLength;
    SortedConcat(LastLine(st), [Seg1(L)], L);
    BoundsConcat(LastLine(st), [Seg1(L)], 0, L);
    var last := LastLine(st) + [Seg1(L)];
    AllSortedWithLast(st.result, last);
    assert forall k :: 0 <= k < |r.result| ==>
      r.result[k] == if k < |st.result| then WithLast(st.result, last)[k] else [];
  }

  /** The new last line of a one-line gap: sorted, and ending at the new output column. */
  lemma SingleLastLine(lastLine: Line, cut: Line, copies: Line, L: int, L': int, whole: Line)
    requires SortedByGenColumn(lastLine) && AtMost(lastLine, L)
    requires |cut| <= 1 && (|cut| == 1 ==> cut[0].genColumn == L)
    requires SortedByGenColumn(copies) && AtLeast(copies, L) && AtMost(copies, L' - 1) && L <= L'
    requires whole == lastLine + cut + copies + [Seg1(L')]
    ensures SortedByGenColumn(whole) && AtMost(whole, L')
  {
    SortedConcat(lastLine, cut, L);
    BoundsConcat(lastLine, cut, 0, L);
    SortedConcat(lastLine + cut, copies, L);
    BoundsConcat(lastLine + cut, copies, 0, L');
    SortedConcat(lastLine + cut + copies, [Seg1(L')], L');
    BoundsConcat(lastLine + cut + copies, [Seg1(L')], 0, L');
  }

  /** A one-line gap keeps the walk ordered, as written and corrected: the cut goes first, at the output column. */
  lemma AppendSingleKeepsOrdered(st: EditState, range: TextRange, fixed: bool)
    requires Ordered(st) && 0 <= range.start.lineIdx < |st.mappings|
    requires range.start.charIdx <= range.endExclusive.charIdx
    ensures Ordered(AppendSingle(st, range, fixed))
  {
    var L' := st.lastLineLength + (range.endExclusive.charIdx - range.start.charIdx);
    SingleLastOrdered(st, range, fixed);
    OrderedWithLast(st, SingleLast(st, range, fixed), L');
  }

  /** The new last line of a one-line gap is sorted and ends at the new output column. */
  lemma SingleLastOrdered(st: EditState, range: TextRange, fixed: bool)
    requires |st.result| >= 1 && 0 <= range.start.lineIdx < |st.mappings|
    requires SortedByGenColumn(st.mappings[range.start.lineIdx])
    requires SortedByGenColumn(LastLine(st)) && AtMost(LastLine(st), st.lastLineLength)
    requires range.start.charIdx <= range.endExclusive.charIdx
    ensures var whole := SingleLast(st, range, fixed);
      SortedByGenColumn(whole) && AtMost(whole, st.lastLineLength + (range.endExclusive.charIdx - range.start.charIdx))
  {
    var line := st.mappings[range.start.lineIdx];
    var s := range.start.charIdx;
    var e := range.endExclusive.charIdx;
    var L := st.lastLineLength;
    var idx := CutIndex(line, s);
    var copies := CopyUntil(line, idx + 1, e, L - s);
    AfterCut(line, s);
    CopyUntilBounds(line, idx + 1, e, L - s, s);
    SingleLastLine(LastLine(st), CutPart(line, s, L, fixed), copies, L, L + (e - s), SingleLast(st, range, fixed));
  }

  /** Replacing the last output line by a sorted one within the new column keeps the walk ordered. */
  lemma OrderedWithLast(st: EditState, last: Line, L': int)
    requires Ordered(st) && SortedByGenColumn(last) && AtMost(last, L')
    ensures Ordered(EditState(st.mappings, WithLast(st.result, last), L'))
  {
    AllSortedWithLast(st.result, last);
  }

  /** A multi-line gap keeps the corrected walk ordered. */
  lemma AppendMultiKeepsOrdered(st: EditState, range: TextRange)
    requires Ordered(st) && 0 <= range.start.lineIdx < range.endExclusive.lineIdx < |st.mappings|
    ensures Ordered(AppendMulti(st, range, true))
  {
    var endLine := st.mappings[range.endExclusive.lineIdx];
    StartCopiedOrdered(st, range);
    AllSortedSlice(st.mappings, range.start.lineIdx + 1, range.endExclusive.lineIdx);
    TakeBeforeBounds(endLine, 0, range.endExclusive.charIdx);
    MultiResultSorted(st.result, LastLine(st) + StartCopied(st, range, true),
      st.mappings[range.start.lineIdx + 1..range.endExclusive.lineIdx], TakeBefore(endLine, 0, range.endExclusive.charIdx));
  }

  /** Corrected, the start line of a multi-line gap extends `lastLine` in order. */
  lemma StartCopiedOrdered(st: EditState, range: TextRange)
    requires Ordered(st) && 0 <= range.start.lineIdx < |st.mappings|
    ensures SortedByGenColumn(LastLine(st) + StartCopied(st, range, true))
  {
    var line := st.mappings[range.start.lineIdx];
    var s := range.start.charIdx;
    var L := st.lastLineLength;
    var idx := CutIndex(line, s);
    var cut := CutPart(line, s, L, true);
    var copies := ShiftAll(line, idx + 1, L - s);
    AfterCut(line, s);
    ShiftAllBounds(line, idx + 1, L - s, s);
    SortedConcat(cut, copies, L);
    BoundsConcat(cut, copies, L, 0);
    assert StartCopied(st, range, true) == cut + copies;
    SortedConcat(LastLine(st), cut + copies, L);
  }

  /** A slice of a sorted table is sorted. */
  lemma AllSortedSlice(ms: Mappings, lo: int, hi: int)
    requires 0 <= lo <= hi <= |ms| && AllSorted(ms)
    ensures AllSorted(ms[lo..hi])
  {
    assert forall k :: 0 <= k < hi - lo ==> ms[lo..hi][k] == ms[lo + k];
  }

  /** The output of a multi-line gap, from sorted pieces. */
  lemma MultiResultSorted(result: Mappings, first: Line, full: Mappings, endPart: Line)
    requires |result| >= 1 && AllSorted(result) && SortedByGenColumn(first)
    requires AllSorted(full) && SortedByGenColumn(endPart)
    ensures AllSorted(WithLast(result, first) + full + [endPart])
  {
    AllSortedWithLast(result, first);
    AllSortedConcat(WithLast(result, first), full);
    AllSortedConcat(WithLast(result, first) + full, [endPart]);
  }

  /** A forwards gap keeps the corrected walk ordered. */
  lemma AppendExistingKeepsOrdered(st: EditState, range: TextRange)
    requires Ordered(st) && 0 <= range.start.lineIdx <= range.endExclusive.lineIdx < |st.mappings|
    requires range.start.IsBeforeOrEqual(range.endExclusive)
    ensures Ordered(AppendExistingSpec(st, range, true))
  {
    if range.IsSingleLine() {
      AppendSingleKeepsOrdered(st, range, true);
    } else {
      AppendMultiKeepsOrdered(st, range);
    }
  }

  /** The corrected loop keeps the walk ordered. */
  lemma {:induction false} FoldKeepsOrdered(st: EditState, from: TextPos, edits: seq<SingleTextEdit>, end: TextPos)
    requires Ordered(st) && 0 <= from.lineIdx && end.lineIdx < |st.mappings|
    requires Chain(from, edits, end)
    ensures Ordered(Fold(st, from, edits, end, true))
    decreases |edits|
  {
    if edits != [] {
      var e := edits[0];
      ChainBound(e.range.endExclusive, edits[1..], end);
      var gap := TextRange(from, e.range.start);
      if !gap.IsEmpty() {
        AppendExistingKeepsOrdered(st, gap);
        InsertKeepsOrdered(AppendExistingSpec(st, gap, true), e.text);
      } else {
        InsertKeepsOrdered(st, e.text);
      }
      FoldKeepsOrdered(Step(st, from, e, true), e.range.endExclusive, edits[1..], end);
    }
  }

  /**
   * With the cut segment kept off the input, sorted input lines give sorted
   * output lines.
   */
  lemma MappingsAfterEditSorted(mappings: Mappings, edits: seq<SingleTextEdit>)
    requires |mappings| >= 1 && Chain(Zero, edits, EndOf(mappings))
    requires AllSorted(mappings)
    ensures AllSorted(MappingsAfterEdit(mappings, edits, true))
  {
    var norm := NormalizeFold(edits);
    var end := EndOf(mappings);
    NormalizeChain(Zero, edits, end);
    assert Ordered(Initial(mappings));
    FoldKeepsOrdered(Initial(mappings), Zero, norm, end);
    var st1 := Fold(Initial(mappings), Zero, norm, end, true);
    var gap := TextRange(EndAfter(Zero, norm, end), end);
    if !gap.IsEmpty() {
      AppendExistingKeepsOrdered(st1, gap);
    }
  }

  // ---- where the walk as written goes wrong ----

  /** `insert("")`: only the unmapped segment at the current column. */
  lemma InsertNothing(st: EditState)
    requires |st.result| >= 1
    ensures InsertSpec(st, "") == EditState(st.mappings, WithLast(st.result, LastLine(st) + [Seg1(st.lastLineLength)]), st.lastLineLength)
  {
    LengthOfTextCounts("");
  }

  /** Deleting the first `c` characters of the first line. */
  function DeleteFirst(c: int): seq<SingleTextEdit> {
    [SingleTextEdit(TextRange(Zero, TextPos(0, c)), "")]
  }

  /**
   * The walk over `DeleteFirst(c)`: one unmapped segment at output column
   * 0, then the gap from column `c` of the first line to the end.
   */
  lemma DeleteWalk(mappings: Mappings, c: int, fixed: bool)
    requires |mappings| >= 1 && 0 < c < MAX_SAFE_INTEGER
    ensures Chain(Zero, DeleteFirst(c), EndOf(mappings))
    ensures MappingsAfterEdit(mappings, DeleteFirst(c), fixed) ==
      AppendExistingSpec(EditState(mappings, [[Seg1(0)]], 0), TextRange(TextPos(0, c), EndOf(mappings)), fixed).result
  {
    var edits := DeleteFirst(c);
    assert edits[..0] == [];
    assert edits[1..] == [];
    assert NormalizeFold(edits) == edits;
    InsertNothing(Initial(mappings));
    var first: Mappings := [[]];
    assert first[..0] == [];
    assert LastLine(Initial(mappings)) + [Seg1(0)] == [Seg1(0)];
    assert Fold(Initial(mappings), Zero, edits, EndOf(mappings), fixed) == EditState(mappings, [[Seg1(0)]], 0);
    assert EndAfter(Zero, edits, EndOf(mappings)) == TextPos(0, c);
    CompareZeroIffEquals(TextRange(TextPos(0, c), EndOf(mappings)), TextRange(TextPos(0, c), EndOf(mappings)));
  }

  /** In a one-line gap whose start cuts a segment, the cut follows what `lastLine` held. */
  lemma SingleLineCutAt(st: EditState, range: TextRange, fixed: bool)
    requires |st.result| >= 1 && 0 <= range.start.lineIdx < |st.mappings|
    requires CutIndex(st.mappings[range.start.lineIdx], range.start.charIdx) >= 0
    ensures var line := st.mappings[range.start.lineIdx];
      var last := AppendSingle(st, range, fixed).result[|st.result| - 1];
      |LastLine(st)| < |last| &&
      last[|LastLine(st)|] == Cut(line[CutIndex(line, range.start.charIdx)], range.start.charIdx, st.lastLineLength, fixed)
  {
  }

  /** One line with one segment, at column 0 and mapping to source column 0. */
  function OneSegmentTable(): Mappings {
    [[Seg4(0, 0, 0, 0)]]
  }

  /**
   * Deleting the first `c` characters of a one-line table, where column `c`
   * cuts a segment: the cut comes right after the leading unmapped segment.
   */
  lemma SingleLineDeleteCut(m: Mappings, c: int, fixed: bool)
    requires |m| == 1 && 0 < c < MAX_SAFE_INTEGER && CutIndex(m[0], c) >= 0
    ensures Chain(Zero, DeleteFirst(c), EndOf(m))
    ensures var r := MappingsAfterEdit(m, DeleteFirst(c), fixed);
      |r| >= 1 && |r[0]| > 1 && r[0][1] == Cut(m[0][CutIndex(m[0], c)], c, 0, fixed)
  {
    DeleteWalk(m, c, fixed);
    SingleLineCutAt(EditState(m, [[Seg1(0)]], 0), TextRange(TextPos(0, c), EndOf(m)), fixed);
  }

  /**
   * After deleting the first two characters, output column 0 holds the
   * text of old column 2, source column 2. As written the cut maps it to
   * source column 0: `withDeltaColumn` moves by `0 - 0` rather than `2 - 0`.
   */
  lemma SingleLineCutColumn()
    ensures Chain(Zero, DeleteFirst(2), EndOf(OneSegmentTable()))
    ensures var r := MappingsAfterEdit(OneSegmentTable(), DeleteFirst(2), false);
      |r| >= 1 && |r[0]| > 1 && r[0][1] == Seg4(0, 0, 0, 0)
    ensures var r := MappingsAfterEdit(OneSegmentTable(), DeleteFirst(2), true);
      |r| >= 1 && |r[0]| > 1 && r[0][1] == Seg4(0, 0, 0, 2)
  {
    var m := OneSegmentTable();
    assert CutIndex(m[0], 2) == 0;
    SingleLineDeleteCut(m, 2, false);
    SingleLineDeleteCut(m, 2, true);
  }

  /** The segments of `ShiftAll` one by one. */
  lemma {:induction false} ShiftAllAt(line: Line, i: nat, offset: int, k: nat)
    requires i + k < |line|
    ensures |ShiftAll(line, i, offset)| == |line| - i
    ensures ShiftAll(line, i, offset)[k] == line[i + k].WithGenColumn(line[i + k].genColumn + offset)
    decreases k
  {
    if k > 0 {
      ShiftAllAt(line, i + 1, offset, k - 1);
    } else {
      ShiftAllLength(line, i, offset);
    }
  }

  /** `ShiftAll` copies every segment from `i` on. */
  lemma {:induction false} ShiftAllLength(line: Line, i: nat, offset: int)
    requires i <= |line|
    ensures |ShiftAll(line, i, offset)| == |line| - i
    decreases |line| - i
  {
    if i < |line| {
      ShiftAllLength(line, i + 1, offset);
    }
  }

  /**
   * As written, a multi-line gap whose start cuts a segment grows the
   * input's start line by that cut, which the copy loop then walks over:
   * when the output column is left of the gap start and a segment follows
   * the cut, the copied cut lands left of the segments copied before it.
   */
  lemma MultiLineCutAsWritten(st: EditState, range: TextRange)
    requires |st.result| >= 1 && 0 <= range.start.lineIdx < range.endExclusive.lineIdx < |st.mappings|
    requires SortedByGenColumn(st.mappings[range.start.lineIdx])
    requires 0 <= CutIndex(st.mappings[range.start.lineIdx], range.start.charIdx) < |st.mappings[range.start.lineIdx]| - 1
    requires st.lastLineLength < range.start.charIdx
    ensures |AppendMulti(st, range, false).mappings[range.start.lineIdx]| == |st.mappings[range.start.lineIdx]| + 1
    ensures !SortedByGenColumn(AppendMulti(st, range, false).result[|st.result| - 1])
  {
    MultiLineCutShape(st, range);
    GrownCopyUnsorted(st.mappings[range.start.lineIdx], range.start.charIdx, st.lastLineLength, LastLine(st));
  }

  /** Whatever precedes them, the copies of a grown start line are out of order. */
  lemma GrownCopyUnsorted(line: Line, s: int, L: int, prefix: Line)
    requires SortedByGenColumn(line) && 0 <= CutIndex(line, s) < |line| - 1 && L < s
    ensures var idx := CutIndex(line, s);
      !SortedByGenColumn(prefix + ShiftAll(line + [Cut(line[idx], s, L, false)], idx + 1, L - s))
  {
    var idx := CutIndex(line, s);
    var cut := Cut(line[idx], s, L, false);
    AfterCut(line, s);
    GrownCopyOutOfOrder(line, idx, cut, s, L);
    UnsortedSuffix(prefix, ShiftAll(line + [cut], idx + 1, L - s), 0, |line| - idx - 1);
  }

  /** As written, where a multi-line gap cuts a segment, what the start line becomes and contributes. */
  lemma MultiLineCutShape(st: EditState, range: TextRange)
    requires |st.result| >= 1 && 0 <= range.start.lineIdx < range.endExclusive.lineIdx < |st.mappings|
    requires CutIndex(st.mappings[range.start.lineIdx], range.start.charIdx) >= 0
    ensures var line := st.mappings[range.start.lineIdx];
      var idx := CutIndex(line, range.start.charIdx);
      var cut := Cut(line[idx], range.start.charIdx, st.lastLineLength, false);
      StartCopied(st, range, false) == ShiftAll(line + [cut], idx + 1, st.lastLineLength - range.start.charIdx) &&
      |AppendMulti(st, range, false).mappings[range.start.lineIdx]| == |line| + 1 &&
      AppendMulti(st, range, false).result[|st.result| - 1] == LastLine(st) + StartCopied(st, range, false)
  {
  }

  /**
   * The copy loop over the grown start line: its first copy starts at or
   * after the output column `L`, its last (the copied cut, at `L`) left of it.
   */
  lemma GrownCopyOutOfOrder(line: Line, idx: int, cut: Segment, s: int, L: int)
    requires 0 <= idx < |line| - 1 && AtLeastFrom(line, idx + 1, s) && cut.genColumn == L && L < s
    ensures var copied := ShiftAll(line + [cut], idx + 1, L - s);
      |copied| == |line| - idx && copied[|line| - idx - 1].genColumn < copied[0].genColumn
  {
    var g := line + [cut];
    assert g[idx + 1] == line[idx + 1];
    assert g[|line|] == cut;
    ShiftAllAt(g, idx + 1, L - s, 0);
    ShiftAllAt(g, idx + 1, L - s, |line| - idx - 1);
  }

  /** Two segments out of order anywhere after a prefix make the line unsorted. */
  lemma UnsortedSuffix(prefix: Line, tail: Line, a: int, b: int)
    requires 0 <= a < b < |tail| && tail[b].genColumn < tail[a].genColumn
    ensures !SortedByGenColumn(prefix + tail)
  {
    assert (prefix + tail)[|prefix| + a] == tail[a];
    assert (prefix + tail)[|prefix| + b] == tail[b];
  }

  /**
   * As written, deleting the first `c` characters of a table of two or more
   * lines, where column `c` cuts a segment of the sorted first line that
   * another segment follows, leaves the first output line out of order.
   */
  lemma MultiLineDeleteUnsorted(m: Mappings, c: int)
    requires |m| >= 2 && 0 < c < MAX_SAFE_INTEGER && SortedByGenColumn(m[0])
    requires 0 <= CutIndex(m[0], c) < |m[0]| - 1
    ensures Chain(Zero, DeleteFirst(c), EndOf(m))
    ensures !AllSorted(MappingsAfterEdit(m, DeleteFirst(c), false))
  {
    var st := EditState(m, [[Seg1(0)]], 0);
    var gap := TextRange(TextPos(0, c), EndOf(m));
    DeleteWalk(m, c, false);
    assert !gap.IsSingleLine();
    MultiLineCutAsWritten(st, gap);
    assert !SortedByGenColumn(MappingsAfterEdit(m, DeleteFirst(c), false)[0]);
  }

  /** One line with segments at columns 0 and 10, and an empty line. */
  function CutTable(): Mappings {
    [[Seg4(0, 0, 0, 0), Seg4(10, 0, 0, 5)], []]
  }

  /**
   * Deleting the first five characters of `CutTable` reaches the multi-line
   * final gap from column 5 at output column 0, cutting the first segment:
   * as written the output's first line is out of order.
   */
  lemma MultiLineCutTable()
    ensures AllSorted(CutTable()) && Chain(Zero, DeleteFirst(5), EndOf(CutTable()))
    ensures !AllSorted(MappingsAfterEdit(CutTable(), DeleteFirst(5), false))
  {
    CutTableFacts(CutTable());
    MultiLineDeleteUnsorted(CutTable(), 5);
  }

  /** Corrected, the same edit of the same table gives sorted lines. */
  lemma MultiLineCutTableCorrected()
    ensures AllSorted(MappingsAfterEdit(CutTable(), DeleteFirst(5), true))
  {
    var m := CutTable();
    CutTableFacts(m);
    DeleteWalk(m, 5, true);
    MappingsAfterEditSorted(m, DeleteFirst(5));
  }

  /** `CutTable` is sorted, and a gap from column 5 cuts its first segment. */
  lemma CutTableFacts(m: Mappings)
    requires m == CutTable()
    ensures |m| == 2 && |m[0]| == 2 && AllSorted(m) && SortedByGenColumn(m[0])
    ensures CutIndex(m[0], 5) == 0
  {
  }
}
