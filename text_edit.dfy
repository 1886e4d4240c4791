/** Edits of a text and their application to a string (sourcemap/src/text/TextEdit.ts). */
module TextEdits {
  import opened Wrappers
  import opened TextPositions
  import opened TextRanges
  import opened TextLengths
  import opened OffsetRanges
  import opened PositionOffsetTransformers

  /** JavaScript's Number.MAX_SAFE_INTEGER, 2^53 - 1. */
  const MAX_SAFE_INTEGER: int := 0x1F_FFFF_FFFF_FFFF

  /** Replace `range` of the original text with `text`. */
  datatype SingleTextEdit = SingleTextEdit(range: TextRange, text: string) {
    predicate IsEmpty() {
      range.IsEmpty() && |text| == 0
    }

    predicate Equals(other: SingleTextEdit) {
      range.Equals(other.range) && text == other.text
    }
  }

  function Insert(at: TextPos, text: string): (e: SingleTextEdit)
    ensures e.range.IsEmpty() && e.range.start == at && e.text == text
  {
    SingleTextEdit(EmptyAt(at), text)
  }

  /** `SingleTextEdit.equals` is structural equality. */
  lemma SingleTextEditEqualsIsEquality(a: SingleTextEdit, b: SingleTextEdit)
    ensures a.Equals(b) <==> a == b
  {
    if a.Equals(b) {
      CompareAgreesWithEquals(a.range.start, b.range.start);
      CompareAgreesWithEquals(a.range.endExclusive, b.range.endExclusive);
    }
  }

  /** A list of single edits, all referring to positions of the original text. */
  datatype TextEdit = TextEdit(edits: seq<SingleTextEdit>)

  const Empty: TextEdit := TextEdit([])

  function Single(originalRange: TextRange, newText: string): (e: TextEdit)
    ensures e.edits == [SingleTextEdit(originalRange, newText)]
  {
    TextEdit([SingleTextEdit(originalRange, newText)])
  }

  /**
   * `rangeFromPositions`: a start at MAX_SAFE_INTEGER on the end's line means
   * the empty range at the end; otherwise the start must not come after the end.
   */
  function RangeFromPositions(start: TextPos, end: TextPos): (r: Result<TextRange>)
    ensures start.lineIdx == end.lineIdx && start.charIdx == MAX_SAFE_INTEGER ==> r == Ok(EmptyAt(end))
    ensures !(start.lineIdx == end.lineIdx && start.charIdx == MAX_SAFE_INTEGER) ==>
              (r.Ok? <==> start.IsBeforeOrEqual(end)) && (r.Ok? ==> r.value.start == start && r.value.endExclusive == end)
  {
    if start.lineIdx == end.lineIdx && start.charIdx == MAX_SAFE_INTEGER then Ok(TextRange(end, end))
    else if !start.IsBeforeOrEqual(end) then Fail("start must be before end")
    else Ok(TextRange(start, end))
  }

  // ---- StringText ----

  /** The line index lies in the text, so the line-start table has an entry for it. */
  predicate OnExistingLine(value: string, p: TextPos) {
    0 <= p.lineIdx < |LineStarts(value)|
  }

  /** Positions of valid columns have offsets inside the text. */
  lemma ValidOffsetBounds(value: string, p: TextPos)
    ensures IsValidPosition(value, p) ==> 0 <= OffsetAt(value, p) <= |value|
  {
    if IsValidPosition(value, p) {
      PositionOfOffset(value, p);
    }
  }

  /**
   * `StringText.getValueOfRange`: the substring between the two offsets. The
   * OffsetRange constructor throws when the end's offset comes first.
   */
  function ValueOfRange(value: string, range: TextRange): (r: Result<string>)
    requires OnExistingLine(value, range.start) && OnExistingLine(value, range.endExclusive)
    ensures r.Ok? <==> OffsetAt(value, range.start) <= OffsetAt(value, range.endExclusive)
    ensures r.Ok? && IsValidPosition(value, range.start) && IsValidPosition(value, range.endExclusive) ==>
              r.value == value[OffsetAt(value, range.start)..OffsetAt(value, range.endExclusive)]
  {
    ValidOffsetBounds(value, range.start);
    ValidOffsetBounds(value, range.endExclusive);
    match Create(OffsetAt(value, range.start), OffsetAt(value, range.endExclusive))
    case Fail(m) => Fail(m)
    case Ok(o) => Ok(RangeSubstring(o, value))
  }

  /** `getValue`: the value of the whole-text range is the text itself. */
  lemma GetValueIsValue(value: string)
    ensures LengthOfText(value).ToRange() == TextRange(Zero, EndPosition(value))
    ensures ValueOfRange(value, TextRange(Zero, EndPosition(value))) == Ok(value)
  {
    EndPositionIsValid(value);
    ZeroIsValid(value);
    assert value[0..|value|] == value;
  }

  // ---- apply ----

  datatype ApplyState = ApplyState(result: string, lastEditEnd: TextPos)

  predicate EditsOnExistingLines(text: string, edits: seq<SingleTextEdit>) {
    forall i :: 0 <= i < |edits| ==>
      OnExistingLine(text, edits[i].range.start) && OnExistingLine(text, edits[i].range.endExclusive)
  }

  /** The text between two positions, appended only when the range is not empty. */
  function AppendGap(text: string, result: string, from: TextPos, to: TextPos): Result<string>
    requires OnExistingLine(text, from) && OnExistingLine(text, to)
  {
    var r :- RangeFromPositions(from, to);
    if r.IsEmpty() then Ok(result)
    else
      var v :- ValueOfRange(text, r);
      Ok(result + v)
  }

  /** One iteration of `apply`'s loop: the gap since the previous edit, then the edit's text. */
  function ApplyStep(text: string, st: ApplyState, edit: SingleTextEdit): Result<ApplyState>
    requires OnExistingLine(text, st.lastEditEnd) && OnExistingLine(text, edit.range.start)
  {
    var result :- AppendGap(text, st.result, st.lastEditEnd, edit.range.start);
    Ok(ApplyState(result + edit.text, edit.range.endExclusive))
  }

  function LastEnd(edits: seq<SingleTextEdit>): TextPos {
    if edits == [] then Zero else edits[|edits| - 1].range.endExclusive
  }

  /** The state after `apply`'s loop has processed `edits`. */
  function ApplyFold(text: string, edits: seq<SingleTextEdit>): (r: Result<ApplyState>)
    requires EditsOnExistingLines(text, edits)
    ensures r.Ok? ==> r.value.lastEditEnd == LastEnd(edits)
    decreases |edits|
  {
    if edits == [] then Ok(ApplyState("", Zero))
    else
      var st :- ApplyFold(text, edits[..|edits| - 1]);
      ApplyStep(text, st, edits[|edits| - 1])
  }

  /** `apply` on a StringText: the loop, then the gap up to the end of the text. */
  function ApplySpec(text: string, edits: seq<SingleTextEdit>): Result<string>
    requires EditsOnExistingLines(text, edits)
  {
    var st :- ApplyFold(text, edits);
    EndPositionIsValid(text);
    AppendGap(text, st.result, st.lastEditEnd, EndPosition(text))
  }

  /** Once a prefix fails, `apply` fails with the same error. */
  lemma {:induction false} ApplyFoldFailStays(text: string, edits: seq<SingleTextEdit>, i: nat)
    requires EditsOnExistingLines(text, edits) && i <= |edits|
    requires ApplyFold(text, edits[..i]).Fail?
    ensures ApplyFold(text, edits) == ApplyFold(text, edits[..i])
    decreases |edits| - i
  {
    if i < |edits| {
      assert edits[..i + 1][..i] == edits[..i];
      ApplyFoldFailStays(text, edits, i + 1);
    } else {
      assert edits[..i] == edits;
    }
  }

  /** `apply`, with `result` and `lastEditEnd` updated edit by edit. */
  method Apply(edit: TextEdit, text: string) returns (r: Result<string>)
    requires EditsOnExistingLines(text, edit.edits)
    ensures r == ApplySpec(text, edit.edits)
  {
    var edits := edit.edits;
    var result := "";
    var lastEditEnd := Zero;
    var i := 0;
    while i < |edits|
      invariant 0 <= i <= |edits|
      invariant ApplyFold(text, edits[..i]) == Ok(ApplyState(result, lastEditEnd))
    {
      assert edits[..i + 1][..i] == edits[..i];
      var e := edits[i];
      var withGap := AppendGapOf(text, result, lastEditEnd, e.range.start);
      if withGap.Fail? {
        ApplyFoldFailStays(text, edits, i + 1);
        return Fail(withGap.message);
      }
      result := withGap.value + e.text;
      lastEditEnd := e.range.endExclusive;
      i := i + 1;
    }
    assert edits[..i] == edits;
    EndPositionIsValid(text);
    r := AppendGapOf(text, result, lastEditEnd, EndPosition(text));
  }

  /** The part of `apply` that appends the original text between two positions, unless that range is empty. */
  method AppendGapOf(text: string, result: string, from: TextPos, to: TextPos) returns (r: Result<string>)
    requires OnExistingLine(text, from) && OnExistingLine(text, to)
    ensures r == AppendGap(text, result, from, to)
  {
    var gap := RangeFromPositions(from, to);
    if gap.Fail? {
      return Fail(gap.message);
    }
    if gap.value.IsEmpty() {
      return Ok(result);
    }
    var v := ValueOfRange(text, gap.value);
    if v.Fail? {
      return Fail(v.message);
    }
    r := Ok(result + v.value);
  }

  /** `applyToString`: apply to a StringText over `str`. */
  method ApplyToString(edit: TextEdit, str: string) returns (r: Result<string>)
    requires EditsOnExistingLines(str, edit.edits)
    ensures r == ApplySpec(str, edit.edits)
  {
    r := Apply(edit, str);
  }

  /** `TextEdit.empty.applyToString(s)` is `s`. */
  lemma ApplyEmptyIsIdentity(text: string)
    ensures ApplySpec(text, Empty.edits) == Ok(text)
  {
    EndPositionIsValid(text);
    ZeroIsValid(text);
    ZeroIsFirst(EndPosition(text));
    assert ApplyFold(text, []) == Ok(ApplyState("", Zero));
    AppendGapIsGap(text, "", Zero, EndPosition(text));
    GapWhole(text);
    EmptyPrefix(Gap(text, LineStarts(text), Zero, EndPosition(text)));
  }

  lemma EmptyPrefix(s: string)
    ensures "" + s == s
  {
  }

  /** The gap from the start to the end of the text is the whole text. */
  lemma GapWhole(text: string)
    ensures 0 <= EndPosition(text).lineIdx < |LineStarts(text)|
    ensures Gap(text, LineStarts(text), Zero, EndPosition(text)) == text
  {
    EndPositionIsValid(text);
    ZeroIsValid(text);
    assert text[0..|text|] == text;
  }

  // ---- normalize ----

  /** One iteration of `normalize`: merge with the previous result if touching, drop if empty. */
  function NormalizeStep(acc: seq<SingleTextEdit>, edit: SingleTextEdit): seq<SingleTextEdit> {
    if |acc| > 0 && acc[|acc| - 1].range.endExclusive.Equals(edit.range.start) then
      var last := acc[|acc| - 1];
      acc[..|acc| - 1] + [SingleTextEdit(last.range.PlusRange(edit.range), last.text + edit.text)]
    else if !edit.IsEmpty() then acc + [edit]
    else acc
  }

  /** The list `normalize` has built after processing `edits`. */
  function NormalizeFold(edits: seq<SingleTextEdit>): seq<SingleTextEdit>
    decreases |edits|
  {
    if edits == [] then []
    else NormalizeStep(NormalizeFold(edits[..|edits| - 1]), edits[|edits| - 1])
  }

  /** `normalize`: joins touching edits and removes empty ones. */
  method Normalize(edit: TextEdit) returns (r: TextEdit)
    ensures r.edits == NormalizeFold(edit.edits)
  {
    var edits: seq<SingleTextEdit> := [];
    var i := 0;
    while i < |edit.edits|
      invariant 0 <= i <= |edit.edits|
      invariant edits == NormalizeFold(edit.edits[..i])
    {
      assert edit.edits[..i + 1][..i] == edit.edits[..i];
      var e := edit.edits[i];
      if |edits| > 0 && edits[|edits| - 1].range.endExclusive.Equals(e.range.start) {
        var last := edits[|edits| - 1];
        edits := edits[|edits| - 1 := SingleTextEdit(last.range.PlusRange(e.range), last.text + e.text)];
      } else if !e.IsEmpty() {
        edits := edits + [e];
      }
      i := i + 1;
    }
    assert edit.edits[..i] == edit.edits;
    r := TextEdit(edits);
  }

  predicate Forwards(edits: seq<SingleTextEdit>) {
    forall i :: 0 <= i < |edits| ==> edits[i].range.start.IsBeforeOrEqual(edits[i].range.endExclusive)
  }

  /** What `normalize` promises: no empty edits, and no edit starts where its predecessor ends. */
  predicate IsNormalized(edits: seq<SingleTextEdit>) {
    (forall i :: 0 <= i < |edits| ==> !edits[i].IsEmpty()) &&
    (forall i :: 0 <= i < |edits| - 1 ==> edits[i].range.endExclusive != edits[i + 1].range.start)
  }

  /** On forwards ranges `normalize` yields a normalized list of forwards ranges. */
  lemma {:induction false} NormalizeIsNormalized(edits: seq<SingleTextEdit>)
    requires Forwards(edits)
    ensures Forwards(NormalizeFold(edits)) && IsNormalized(NormalizeFold(edits))
    decreases |edits|
  {
    if edits != [] {
      var init := edits[..|edits| - 1];
      var e := edits[|edits| - 1];
      assert Forwards(init);
      NormalizeIsNormalized(init);
      var acc := NormalizeFold(init);
      if |acc| > 0 && acc[|acc| - 1].range.endExclusive.Equals(e.range.start) {
        var last := acc[|acc| - 1];
        PlusRangeOfAdjacent(last.range, e.range);
        var merged := SingleTextEdit(last.range.PlusRange(e.range), last.text + e.text);
        assert !merged.IsEmpty() by {
          if merged.range.IsEmpty() {
            assert last.range.IsEmpty();
          }
        }
        var res := acc[..|acc| - 1] + [merged];
        assert forall k :: 0 <= k < |acc| - 1 ==> res[k] == acc[k];
        assert res[|res| - 1] == merged;
      }
    }
  }

  /** A normalized list is left as it is. */
  lemma {:induction false} NormalizeOfNormalized(edits: seq<SingleTextEdit>)
    requires IsNormalized(edits)
    ensures NormalizeFold(edits) == edits
    decreases |edits|
  {
    if edits != [] {
      var init := edits[..|edits| - 1];
      var e := edits[|edits| - 1];
      assert IsNormalized(init) by {
        assert forall i :: 0 <= i < |init| ==> init[i] == edits[i];
      }
      NormalizeOfNormalized(init);
      assert !e.IsEmpty();
      if |init| > 0 {
        assert init[|init| - 1] == edits[|edits| - 2];
        assert !init[|init| - 1].range.endExclusive.Equals(e.range.start);
      }
      assert NormalizeStep(init, e) == init + [e];
      assert init + [e] == edits;
    }
  }

  lemma NormalizeIdempotent(edits: seq<SingleTextEdit>)
    requires Forwards(edits)
    ensures NormalizeFold(NormalizeFold(edits)) == NormalizeFold(edits)
  {
    NormalizeIsNormalized(edits);
    NormalizeOfNormalized(NormalizeFold(edits));
  }

  lemma ZeroIsValid(text: string)
    ensures IsValidPosition(text, Zero) && OffsetAt(text, Zero) == 0
  {
    LineStartsIncreasing(text);
  }

  // ---- apply and normalize on sorted edits, in terms of offsets ----

  /**
   * Edits the source applies as intended, for a text with line table `ls`
   * and length `n`: every position is valid, every range runs forwards, and
   * each edit starts no earlier than the previous one ends. Stated edit by
   * edit from the back, the way `apply` and `normalize` consume the list.
   */
  predicate SortedValidIn(ls: seq<int>, n: int, edits: seq<SingleTextEdit>)
    decreases |edits|
  {
    edits == [] ||
    (var init := edits[..|edits| - 1];
     var e := edits[|edits| - 1];
     SortedValidIn(ls, n, init) &&
     IsValidIn(ls, n, e.range.start) && IsValidIn(ls, n, e.range.endExclusive) &&
     e.range.start.IsBeforeOrEqual(e.range.endExclusive) &&
     LastEnd(init).IsBeforeOrEqual(e.range.start))
  }

  predicate SortedValid(text: string, edits: seq<SingleTextEdit>) {
    SortedValidIn(LineStarts(text), |text|, edits)
  }

  /** Sorted, valid edits lie on existing lines, which is what `apply` asks of them. */
  lemma {:induction false} SortedValidOnExistingLines(text: string, edits: seq<SingleTextEdit>)
    requires SortedValid(text, edits)
    ensures EditsOnExistingLines(text, edits)
    decreases |edits|
  {
    if edits != [] {
      var init := edits[..|edits| - 1];
      SortedValidOnExistingLines(text, init);
      assert forall k :: 0 <= k < |init| ==> edits[k] == init[k];
    }
  }

  function OffsetIn(ls: seq<int>, p: TextPos): int
    requires 0 <= p.lineIdx < |ls|
  {
    ls[p.lineIdx] + p.charIdx
  }

  /** The original text between two positions. */
  function Gap(text: string, ls: seq<int>, a: TextPos, b: TextPos): string
    requires 0 <= a.lineIdx < |ls| && 0 <= b.lineIdx < |ls|
  {
    Substring(text, OffsetIn(ls, a), OffsetIn(ls, b))
  }

  lemma GapConcat(text: string, ls: seq<int>, a: TextPos, b: TextPos, c: TextPos)
    requires IsLineTable(ls, |text|)
    requires IsValidIn(ls, |text|, a) && IsValidIn(ls, |text|, b) && IsValidIn(ls, |text|, c)
    requires a.IsBeforeOrEqual(b) && b.IsBeforeOrEqual(c)
    ensures Gap(text, ls, a, b) + Gap(text, ls, b, c) == Gap(text, ls, a, c)
  {
    OffsetMonotoneIn(ls, |text|, a, b);
    OffsetMonotoneIn(ls, |text|, b, c);
    SubstringConcat(text, OffsetIn(ls, a), OffsetIn(ls, b), OffsetIn(ls, c));
  }

  lemma GapEmpty(text: string, ls: seq<int>, a: TextPos)
    requires 0 <= a.lineIdx < |ls|
    ensures Gap(text, ls, a, a) == ""
  {
  }

  lemma ZeroIsValidIn(ls: seq<int>, n: int)
    requires IsLineTable(ls, n)
    ensures IsValidIn(ls, n, Zero) && OffsetIn(ls, Zero) == 0
  {
  }

  lemma ZeroIsFirst(p: TextPos)
    requires p.lineIdx >= 0 && p.charIdx >= 0
    ensures Zero.IsBeforeOrEqual(p)
  {
  }

  /** The reference result: gap, text, gap, text, ..., computed on offsets. */
  function OffsetApply(text: string, ls: seq<int>, edits: seq<SingleTextEdit>): string
    requires SortedValidIn(ls, |text|, edits) && |ls| >= 1
    decreases |edits|
  {
    if edits == [] then ""
    else
      var init := edits[..|edits| - 1];
      OffsetApply(text, ls, init) + Gap(text, ls, LastEnd(init), edits[|edits| - 1].range.start) + edits[|edits| - 1].text
  }

  lemma SortedValidPrefix(text: string, ls: seq<int>, init: seq<SingleTextEdit>, e: SingleTextEdit)
    requires IsLineTable(ls, |text|) && SortedValidIn(ls, |text|, init + [e])
    ensures SortedValidIn(ls, |text|, init)
    ensures IsValidIn(ls, |text|, e.range.start) && IsValidIn(ls, |text|, e.range.endExclusive)
    ensures e.range.start.IsBeforeOrEqual(e.range.endExclusive)
    ensures IsValidIn(ls, |text|, LastEnd(init)) && LastEnd(init).IsBeforeOrEqual(e.range.start)
    ensures LastEnd(init + [e]) == e.range.endExclusive
    ensures OffsetApply(text, ls, init + [e]) == OffsetApply(text, ls, init) + Gap(text, ls, LastEnd(init), e.range.start) + e.text
  {
    var edits := init + [e];
    assert edits[..|edits| - 1] == init;
    assert edits[|edits| - 1] == e;
    if init == [] {
      ZeroIsValidIn(ls, |text|);
    }
  }

  /** Between valid, ordered positions the loop appends exactly the gap. */
  lemma AppendGapIsGap(text: string, result: string, a: TextPos, b: TextPos)
    requires IsValidPosition(text, a) && IsValidPosition(text, b) && a.IsBeforeOrEqual(b)
    requires |text| < MAX_SAFE_INTEGER || a.charIdx < MAX_SAFE_INTEGER
    ensures AppendGap(text, result, a, b) == Ok(result + Gap(text, LineStarts(text), a, b))
  {
    var g := ValueBetweenValid(text, a, b);
    ValidOffsetBounds(text, a);
    assert a.charIdx <= |text| || a.charIdx < MAX_SAFE_INTEGER;
    assert RangeFromPositions(a, b) == Ok(TextRange(a, b));
    if a == b {
      assert result + "" == result;
    }
  }

  /** Between valid, ordered positions the value of the range is the gap. */
  lemma ValueBetweenValid(text: string, a: TextPos, b: TextPos) returns (g: string)
    requires IsValidPosition(text, a) && IsValidPosition(text, b) && a.IsBeforeOrEqual(b)
    ensures g == Gap(text, LineStarts(text), a, b)
    ensures ValueOfRange(text, TextRange(a, b)) == Ok(g)
    ensures a == b ==> g == ""
  {
    ValidOffsetBounds(text, a);
    ValidOffsetBounds(text, b);
    OffsetMonotone(text, a, b);
    var oa, ob := OffsetAt(text, a), OffsetAt(text, b);
    g := text[oa..ob];
  }

  /** On sorted, valid edits `apply`'s loop builds the reference result. */
  lemma {:induction false} ApplyFoldSorted(text: string, edits: seq<SingleTextEdit>)
    requires SortedValid(text, edits) && |text| < MAX_SAFE_INTEGER
    ensures EditsOnExistingLines(text, edits)
    ensures ApplyFold(text, edits) == Ok(ApplyState(OffsetApply(text, LineStarts(text), edits), LastEnd(edits)))
    decreases |edits|
  {
    var ls := LineStarts(text);
    LineStartsIncreasing(text);
    SortedValidOnExistingLines(text, edits);
    if edits != [] {
      var init := edits[..|edits| - 1];
      var e := edits[|edits| - 1];
      assert edits == init + [e];
      SortedValidPrefix(text, ls, init, e);
      ApplyFoldSorted(text, init);
      AppendGapIsGap(text, OffsetApply(text, ls, init), LastEnd(init), e.range.start);
    }
  }

  /** `apply` on sorted, valid edits never throws: the reference result, then the rest of the text. */
  lemma ApplySorted(text: string, edits: seq<SingleTextEdit>)
    requires SortedValid(text, edits) && |text| < MAX_SAFE_INTEGER
    ensures EditsOnExistingLines(text, edits)
    ensures ApplySpec(text, edits) == Ok(OffsetApply(text, LineStarts(text), edits) + Gap(text, LineStarts(text), LastEnd(edits), EndPosition(text)))
  {
    ApplyFoldSorted(text, edits);
    EndPositionIsValid(text);
    LineStartsIncreasing(text);
    ZeroIsValidIn(LineStarts(text), |text|);
    var last := LastEnd(edits);
    assert IsValidPosition(text, last) by {
      if edits != [] {
        assert last == edits[|edits| - 1].range.endExclusive;
      }
    }
    ValidBeforeEnd(text, last);
    AppendGapIsGap(text, OffsetApply(text, LineStarts(text), edits), last, EndPosition(text));
  }

  /** The state the invariant of `normalize` describes, for the normalized list `n` of `edits`. */
  predicate NormalizeInvariant(text: string, ls: seq<int>, n: seq<SingleTextEdit>, edits: seq<SingleTextEdit>)
    requires |ls| >= 1
  {
    SortedValidIn(ls, |text|, n) && SortedValidIn(ls, |text|, edits) &&
    IsValidIn(ls, |text|, LastEnd(n)) && IsValidIn(ls, |text|, LastEnd(edits)) &&
    LastEnd(n).IsBeforeOrEqual(LastEnd(edits)) &&
    OffsetApply(text, ls, n) + Gap(text, ls, LastEnd(n), LastEnd(edits)) == OffsetApply(text, ls, edits)
  }

  /**
   * The invariant of `normalize` over sorted, valid edits: the result is
   * sorted and valid, it ends no later than the input, and its reference
   * result, followed by the text between the two ends, is the input's.
   */
  lemma {:induction false} NormalizeKeepsOffsetApply(text: string, ls: seq<int>, edits: seq<SingleTextEdit>)
    requires IsLineTable(ls, |text|) && SortedValidIn(ls, |text|, edits)
    ensures NormalizeInvariant(text, ls, NormalizeFold(edits), edits)
    decreases |edits|
  {
    ZeroIsValidIn(ls, |text|);
    if edits == [] {
      GapEmpty(text, ls, Zero);
    } else {
      var init := edits[..|edits| - 1];
      var e := edits[|edits| - 1];
      assert edits == init + [e];
      SortedValidPrefix(text, ls, init, e);
      NormalizeKeepsOffsetApply(text, ls, init);
      NormalizeStepKeeps(text, ls, init, e);
    }
  }

  /** One step of the invariant: merging, pushing or dropping `e`. */
  lemma NormalizeStepKeeps(text: string, ls: seq<int>, init: seq<SingleTextEdit>, e: SingleTextEdit)
    requires IsLineTable(ls, |text|) && SortedValidIn(ls, |text|, init + [e])
    requires NormalizeInvariant(text, ls, NormalizeFold(init), init)
    ensures NormalizeFold(init + [e]) == NormalizeStep(NormalizeFold(init), e)
    ensures NormalizeInvariant(text, ls, NormalizeStep(NormalizeFold(init), e), init + [e])
  {
    assert (init + [e])[..|init + [e]| - 1] == init;
    var acc := NormalizeFold(init);
    if |acc| > 0 && acc[|acc| - 1].range.endExclusive.Equals(e.range.start) {
      NormalizeMergeKeeps(text, ls, init, acc, e);
    } else if !e.IsEmpty() {
      NormalizePushKeeps(text, ls, init, acc, e);
    } else {
      NormalizeDropKeeps(text, ls, init, acc, e);
    }
  }

  /** Regrouping the strings of one step: the gap splits at the previous end of the input. */
  lemma Regroup(x: string, g1: string, g2: string, g: string, y: string)
    requires x + g1 == y && g == g1 + g2
    ensures x + g == y + g2
  {
    calc {
      x + g;
      x + (g1 + g2);
      (x + g1) + g2;
    }
  }

  /** Regrouping for a dropped edit, whose text is empty. */
  lemma RegroupDrop(x: string, g1: string, g2: string, g: string, t: string, y: string)
    requires x + g1 == y && g == g1 + g2 && t == ""
    ensures x + g == y + g2 + t
  {
    Regroup(x, g1, g2, g, y);
    assert y + g2 + t == y + g2;
  }

  /** Regrouping for a pushed edit, followed by the empty gap at its end. */
  lemma RegroupPush(x: string, g1: string, g2: string, g: string, t: string, ge: string, y: string)
    requires x + g1 == y && g == g1 + g2 && ge == ""
    ensures x + g + t + ge == y + g2 + t
  {
    Regroup(x, g1, g2, g, y);
    assert x + g + t + ge == x + g + t;
  }

  lemma NormalizeDropKeeps(text: string, ls: seq<int>, init: seq<SingleTextEdit>, acc: seq<SingleTextEdit>, e: SingleTextEdit)
    requires IsLineTable(ls, |text|) && SortedValidIn(ls, |text|, init + [e])
    requires NormalizeInvariant(text, ls, acc, init)
    requires !(|acc| > 0 && acc[|acc| - 1].range.endExclusive.Equals(e.range.start)) && e.IsEmpty()
    ensures NormalizeInvariant(text, ls, NormalizeStep(acc, e), init + [e])
  {
    SortedValidPrefix(text, ls, init, e);
    assert NormalizeStep(acc, e) == acc;
    assert e.range.start == e.range.endExclusive && e.text == [];
    IsBeforeOrEqualIsTotalOrder(LastEnd(acc), LastEnd(init), e.range.start);
    GapConcat(text, ls, LastEnd(acc), LastEnd(init), e.range.start);
    RegroupDrop(OffsetApply(text, ls, acc), Gap(text, ls, LastEnd(acc), LastEnd(init)), Gap(text, ls, LastEnd(init), e.range.start),
      Gap(text, ls, LastEnd(acc), e.range.start), e.text, OffsetApply(text, ls, init));
  }

  lemma NormalizePushKeeps(text: string, ls: seq<int>, init: seq<SingleTextEdit>, acc: seq<SingleTextEdit>, e: SingleTextEdit)
    requires IsLineTable(ls, |text|) && SortedValidIn(ls, |text|, init + [e])
    requires NormalizeInvariant(text, ls, acc, init)
    requires !(|acc| > 0 && acc[|acc| - 1].range.endExclusive.Equals(e.range.start)) && !e.IsEmpty()
    ensures NormalizeInvariant(text, ls, NormalizeStep(acc, e), init + [e])
  {
    SortedValidPrefix(text, ls, init, e);
    assert NormalizeStep(acc, e) == acc + [e];
    IsBeforeOrEqualIsTotalOrder(LastEnd(acc), LastEnd(init), e.range.start);
    PushedSortedValid(ls, |text|, acc, e);
    SortedValidPrefix(text, ls, acc, e);
    GapConcat(text, ls, LastEnd(acc), LastEnd(init), e.range.start);
    GapEmpty(text, ls, e.range.endExclusive);
    RegroupPush(OffsetApply(text, ls, acc), Gap(text, ls, LastEnd(acc), LastEnd(init)), Gap(text, ls, LastEnd(init), e.range.start),
      Gap(text, ls, LastEnd(acc), e.range.start), e.text, Gap(text, ls, e.range.endExclusive, e.range.endExclusive), OffsetApply(text, ls, init));
  }

  lemma PushedSortedValid(ls: seq<int>, n: int, acc: seq<SingleTextEdit>, e: SingleTextEdit)
    requires SortedValidIn(ls, n, acc)
    requires IsValidIn(ls, n, e.range.start) && IsValidIn(ls, n, e.range.endExclusive)
    requires e.range.start.IsBeforeOrEqual(e.range.endExclusive) && LastEnd(acc).IsBeforeOrEqual(e.range.start)
    ensures SortedValidIn(ls, n, acc + [e])
  {
    var res := acc + [e];
    assert res[..|res| - 1] == acc;
  }

  /** For forwards ranges that touch, the merged range keeps the earlier start and takes the later end. */
  lemma NormalizeMergeKeeps(text: string, ls: seq<int>, init: seq<SingleTextEdit>, acc: seq<SingleTextEdit>, e: SingleTextEdit)
    requires IsLineTable(ls, |text|) && SortedValidIn(ls, |text|, init + [e])
    requires NormalizeInvariant(text, ls, acc, init)
    requires |acc| > 0 && acc[|acc| - 1].range.endExclusive.Equals(e.range.start)
    ensures NormalizeInvariant(text, ls, NormalizeStep(acc, e), init + [e])
  {
    var merged := MergeStructure(text, ls, init, acc, e);
    SortedValidPrefix(text, ls, init, e);
    MergeString(text, ls, init, acc, e, merged);
  }

  /** The reference result of a merged list, followed by nothing, is that of the input. */
  lemma MergeString(text: string, ls: seq<int>, init: seq<SingleTextEdit>, acc: seq<SingleTextEdit>, e: SingleTextEdit, merged: SingleTextEdit)
    requires IsLineTable(ls, |text|) && SortedValidIn(ls, |text|, init + [e]) && SortedValidIn(ls, |text|, init)
    requires |acc| > 0 && SortedValidIn(ls, |text|, acc) && SortedValidIn(ls, |text|, acc[..|acc| - 1] + [merged])
    requires merged == SingleTextEdit(TextRange(acc[|acc| - 1].range.start, e.range.endExclusive), acc[|acc| - 1].text + e.text)
    requires LastEnd(acc) == e.range.start && LastEnd(init) == e.range.start
    requires OffsetApply(text, ls, acc) + Gap(text, ls, LastEnd(acc), LastEnd(init)) == OffsetApply(text, ls, init)
    ensures OffsetApply(text, ls, acc[..|acc| - 1] + [merged]) + Gap(text, ls, e.range.endExclusive, e.range.endExclusive)
            == OffsetApply(text, ls, init + [e])
  {
    var last := acc[|acc| - 1];
    var before := acc[..|acc| - 1];
    SnocSplit(acc);
    OffsetApplySnoc(text, ls, init, e);
    OffsetApplySnoc(text, ls, before, last);
    OffsetApplySnoc(text, ls, before, merged);
    GapEmpty(text, ls, e.range.start);
    GapEmpty(text, ls, e.range.endExclusive);
    MergeRegroup(OffsetApply(text, ls, before) + Gap(text, ls, LastEnd(before), last.range.start), last.text, e.text,
      OffsetApply(text, ls, acc), Gap(text, ls, LastEnd(acc), LastEnd(init)), Gap(text, ls, LastEnd(init), e.range.start),
      OffsetApply(text, ls, init), OffsetApply(text, ls, init + [e]),
      OffsetApply(text, ls, before + [merged]), Gap(text, ls, e.range.endExclusive, e.range.endExclusive));
  }

  /** One edit more: the reference result grows by the gap before it and its text. */
  lemma OffsetApplySnoc(text: string, ls: seq<int>, init: seq<SingleTextEdit>, e: SingleTextEdit)
    requires |ls| >= 1 && SortedValidIn(ls, |text|, init + [e])
    ensures SortedValidIn(ls, |text|, init)
    ensures OffsetApply(text, ls, init + [e]) == OffsetApply(text, ls, init) + Gap(text, ls, LastEnd(init), e.range.start) + e.text
  {
    assert (init + [e])[..|init + [e]| - 1] == init;
  }

  /** The list shape after a merging step, and why the gaps around the merge are empty. */
  lemma MergeStructure(text: string, ls: seq<int>, init: seq<SingleTextEdit>, acc: seq<SingleTextEdit>, e: SingleTextEdit)
    returns (merged: SingleTextEdit)
    requires IsLineTable(ls, |text|) && SortedValidIn(ls, |text|, init + [e])
    requires NormalizeInvariant(text, ls, acc, init)
    requires |acc| > 0 && acc[|acc| - 1].range.endExclusive.Equals(e.range.start)
    ensures merged == SingleTextEdit(TextRange(acc[|acc| - 1].range.start, e.range.endExclusive), acc[|acc| - 1].text + e.text)
    ensures NormalizeStep(acc, e) == acc[..|acc| - 1] + [merged]
    ensures SortedValidIn(ls, |text|, acc[..|acc| - 1] + [merged])
    ensures LastEnd(acc) == e.range.start && LastEnd(init) == e.range.start
  {
    SortedValidPrefix(text, ls, init, e);
    var last := acc[|acc| - 1];
    var before := acc[..|acc| - 1];
    SnocSplit(acc);
    SortedValidPrefix(text, ls, before, last);
    merged := MergeShape(acc, e);
    MergedSortedValid(ls, |text|, before, last, merged);
    IsBeforeOrEqualIsTotalOrder(LastEnd(acc), LastEnd(init), e.range.start);
  }

  lemma SnocSplit<T>(s: seq<T>)
    requires |s| > 0
    ensures s == s[..|s| - 1] + [s[|s| - 1]]
  {
  }

  /** A merging step replaces the last edit by one from its start to the new end, with both texts. */
  lemma MergeShape(acc: seq<SingleTextEdit>, e: SingleTextEdit) returns (merged: SingleTextEdit)
    requires |acc| > 0 && acc[|acc| - 1].range.endExclusive.Equals(e.range.start)
    requires acc[|acc| - 1].range.start.IsBeforeOrEqual(acc[|acc| - 1].range.endExclusive)
    requires e.range.start.IsBeforeOrEqual(e.range.endExclusive)
    ensures merged == SingleTextEdit(TextRange(acc[|acc| - 1].range.start, e.range.endExclusive), acc[|acc| - 1].text + e.text)
    ensures NormalizeStep(acc, e) == acc[..|acc| - 1] + [merged]
  {
    var last := acc[|acc| - 1];
    PlusRangeOfAdjacent(last.range, e.range);
    merged := SingleTextEdit(TextRange(last.range.start, e.range.endExclusive), last.text + e.text);
  }

  /** Regrouping for a merge: the merged text is the two texts, and the gap between them is empty. */
  lemma MergeRegroup(p: string, t1: string, t2: string, a: string, g1: string, g2: string, y: string, z: string, m: string, ge: string)
    requires a == p + t1 && a + g1 == y && z == y + g2 + t2 && g1 == "" && g2 == ""
    requires m == p + (t1 + t2) && ge == ""
    ensures m + ge == z
  {
    calc {
      m + ge;
      p + (t1 + t2);
      (p + t1) + t2;
      a + "" + "" + t2;
    }
  }

  lemma MergedSortedValid(ls: seq<int>, n: int, init: seq<SingleTextEdit>, last: SingleTextEdit, merged: SingleTextEdit)
    requires SortedValidIn(ls, n, init + [last])
    requires merged.range.start == last.range.start
    requires IsValidIn(ls, n, merged.range.endExclusive)
    requires merged.range.start.IsBeforeOrEqual(merged.range.endExclusive)
    ensures SortedValidIn(ls, n, init + [merged])
  {
    var acc := init + [last];
    var res := init + [merged];
    assert acc[..|acc| - 1] == init;
    assert res[..|res| - 1] == init;
  }

  /** Normalizing sorted, valid edits does not change what `apply` produces. */
  lemma ApplyNormalize(text: string, edits: seq<SingleTextEdit>)
    requires SortedValid(text, edits) && |text| < MAX_SAFE_INTEGER
    ensures EditsOnExistingLines(text, edits) && EditsOnExistingLines(text, NormalizeFold(edits))
    ensures ApplySpec(text, NormalizeFold(edits)) == ApplySpec(text, edits)
  {
    var ls := LineStarts(text);
    LineStartsIncreasing(text);
    var n := NormalizeFold(edits);
    NormalizeKeepsOffsetApply(text, ls, edits);
    ApplySorted(text, edits);
    ApplySorted(text, n);
    EndPositionIsValid(text);
    ValidBeforeEnd(text, LastEnd(edits));
    GapConcat(text, ls, LastEnd(n), LastEnd(edits), EndPosition(text));
    Regroup(OffsetApply(text, ls, n), Gap(text, ls, LastEnd(n), LastEnd(edits)), Gap(text, ls, LastEnd(edits), EndPosition(text)),
      Gap(text, ls, LastEnd(n), EndPosition(text)), OffsetApply(text, ls, edits));
  }
}
