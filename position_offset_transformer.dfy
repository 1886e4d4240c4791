/** Converting between offsets and (line, column) positions of one text (sourcemap/src/text/PositionOffsetTransformer.ts). */
module PositionOffsetTransformers {
  import opened Wrappers
  import opened TextPositions
  import opened TextRanges
  import opened TextLengths
  import opened OffsetRanges
  import opened Search

  predicate StrictlyIncreasing(ls: seq<int>) {
    forall a, b :: 0 <= a < b < |ls| ==> ls[a] < ls[b]
  }

  /** The offsets at which lines start: 0, then i + 1 for every '\n' at offset i. */
  function LineStarts(text: string): (ls: seq<int>)
    ensures |ls| >= 1 && ls[0] == 0
    ensures forall k :: 0 <= k < |ls| ==> 0 <= ls[k] <= |text|
    decreases |text|
  {
    if text == [] then [0]
    else
      var before := LineStarts(text[..|text| - 1]);
      if text[|text| - 1] == '\n' then before + [|text|] else before
  }

  /** The table is strictly increasing. */
  lemma {:induction false} LineStartsIncreasing(text: string)
    ensures StrictlyIncreasing(LineStarts(text))
    decreases |text|
  {
    if text != [] {
      LineStartsIncreasing(text[..|text| - 1]);
    }
  }

  /**
   * Every start after the first follows a '\n', no '\n' lies inside a line,
   * and there is one start more than there are '\n'.
   */
  lemma LineStartsShape(text: string)
    ensures forall k :: 0 < k < |LineStarts(text)| ==> LineStarts(text)[k] > 0 && text[LineStarts(text)[k] - 1] == '\n'
    ensures forall k, o :: 0 <= k < |LineStarts(text)| && LineStarts(text)[k] <= o < LineEnd(text, k) ==> text[o] != '\n'
    ensures |LineStarts(text)| - 1 == multiset(text)['\n']
  {
    LineStartsFollowNewline(text);
    LineStartsNoNewlineInside(text);
    LineStartsCount(text);
  }

  lemma {:induction false} LineStartsFollowNewline(text: string)
    ensures forall k :: 0 < k < |LineStarts(text)| ==> LineStarts(text)[k] > 0 && text[LineStarts(text)[k] - 1] == '\n'
    decreases |text|
  {
    if text != [] {
      var init := text[..|text| - 1];
      LineStartsFollowNewline(init);
      LineStartsIncreasing(init);
      var ls := LineStarts(text);
      var before := LineStarts(init);
      forall k | 0 < k < |ls|
        ensures ls[k] > 0 && text[ls[k] - 1] == '\n'
      {
        if k < |before| {
          assert ls[k] == before[k];
          assert text[ls[k] - 1] == init[ls[k] - 1];
        }
      }
    }
  }

  lemma {:induction false} LineStartsNoNewlineInside(text: string)
    ensures forall k, o :: 0 <= k < |LineStarts(text)| && LineStarts(text)[k] <= o < LineEnd(text, k) ==> text[o] != '\n'
    decreases |text|
  {
    if text != [] {
      var init := text[..|text| - 1];
      LineStartsNoNewlineInside(init);
      var ls := LineStarts(text);
      var before := LineStarts(init);
      forall k, o | 0 <= k < |ls| && ls[k] <= o < LineEnd(text, k)
        ensures text[o] != '\n'
      {
        if o < |init| {
          assert ls[k] == before[k];
          if k + 1 < |before| {
            assert LineEnd(init, k) == LineEnd(text, k);
          }
          assert text[o] == init[o];
        }
      }
    }
  }

  lemma {:induction false} LineStartsCount(text: string)
    ensures |LineStarts(text)| - 1 == multiset(text)['\n']
    decreases |text|
  {
    if text != [] {
      var init := text[..|text| - 1];
      LineStartsCount(init);
      assert text == init + [text[|text| - 1]];
      assert multiset(text) == multiset(init) + multiset{text[|text| - 1]};
    }
  }

  /** Where line k of a table ends: one before the next line's start, or the end of the text. */
  function LineEndIn(ls: seq<int>, n: int, k: int): int
    requires 0 <= k < |ls|
  {
    if k + 1 < |ls| then ls[k + 1] - 1 else n
  }

  function LineEnd(text: string, k: int): int
    requires 0 <= k < |LineStarts(text)|
  {
    LineEndIn(LineStarts(text), |text|, k)
  }

  predicate IsValidIn(ls: seq<int>, n: int, p: TextPos) {
    0 <= p.lineIdx < |ls| &&
    0 <= p.charIdx <= LineEndIn(ls, n, p.lineIdx) - ls[p.lineIdx]
  }

  /** A position that denotes an offset of the text: an existing line, a column within it. */
  predicate IsValidPosition(text: string, p: TextPos) {
    IsValidIn(LineStarts(text), |text|, p)
  }

  /** The last line that starts at or before `offset`, searched from the back. */
  function LineOf(ls: seq<int>, offset: int): (k: int)
    ensures -1 <= k < |ls|
    ensures k >= 0 ==> ls[k] <= offset
    ensures forall m :: k < m < |ls| ==> ls[m] > offset
    decreases |ls|
  {
    if ls == [] then -1
    else if ls[|ls| - 1] <= offset then |ls| - 1
    else LineOf(ls[..|ls| - 1], offset)
  }

  function PositionIn(ls: seq<int>, offset: int): TextPos {
    var k := LineOf(ls, offset);
    TextPos(k, offset - (if k >= 0 then ls[k] else 0))
  }

  /** The position an offset denotes. */
  function PositionOf(text: string, offset: int): TextPos {
    PositionIn(LineStarts(text), offset)
  }

  /** A table as LineStarts builds it for a text of length n. */
  predicate IsLineTable(ls: seq<int>, n: int) {
    |ls| >= 1 && ls[0] == 0 && StrictlyIncreasing(ls) &&
    forall k :: 0 <= k < |ls| ==> 0 <= ls[k] <= n
  }

  /** On a strictly increasing table, LineOf is pinned down by its two boundary facts. */
  lemma LineOfUnique(ls: seq<int>, offset: int, k: int)
    requires StrictlyIncreasing(ls)
    requires -1 <= k < |ls|
    requires k >= 0 ==> ls[k] <= offset
    requires k + 1 < |ls| ==> ls[k + 1] > offset
    ensures LineOf(ls, offset) == k
  {
  }

  class PositionOffsetTransformer {
    const text: string
    const lineStartOffsetByLineIdx: seq<int>

    /** The constructor's loop: one table entry per '\n', after the initial 0. */
    constructor(text: string)
      ensures this.text == text
      ensures lineStartOffsetByLineIdx == LineStarts(text)
    {
      var starts := [0];
      var i := 0;
      while i < |text|
        invariant 0 <= i <= |text|
        invariant starts == LineStarts(text[..i])
      {
        assert text[..i + 1][..i] == text[..i];
        if text[i] == '\n' {
          starts := starts + [i + 1];
        }
        i := i + 1;
      }
      assert text[..i] == text;
      this.text := text;
      lineStartOffsetByLineIdx := starts;
    }

    ghost predicate Valid() {
      lineStartOffsetByLineIdx == LineStarts(text)
    }

    /** `getOffset`: the line's start plus the column. The source yields NaN for a missing line. */
    function GetOffset(position: TextPos): (offset: int)
      requires Valid()
      requires 0 <= position.lineIdx < |lineStartOffsetByLineIdx|
      ensures IsValidPosition(text, position) ==> 0 <= offset <= |text|
      ensures IsValidPosition(text, position) ==> PositionOf(text, offset) == position
    {
      var offset := lineStartOffsetByLineIdx[position.lineIdx] + position.charIdx;
      if IsValidPosition(text, position) then
        PositionOfOffset(text, position);
        offset
      else offset
    }

    /** `getPosition`: binary search for the line, then the column relative to its start. */
    method GetPosition(offset: int) returns (p: TextPos)
      requires Valid()
      requires offset >= 0
      ensures p == PositionOf(text, offset)
      ensures 0 <= offset <= |text| ==> IsValidPosition(text, p) && GetOffset(p) == offset
    {
        LineStartsIncreasing(text);
      var ls := lineStartOffsetByLineIdx;
      var idx := FindLastIdxMonotonous(ls, i => i <= offset, 0, |ls|);
      LineOfUnique(ls, offset, idx);
      p := TextPos(idx, offset - ls[idx]);
      if offset <= |text| {
        OffsetOfPosition(text, offset);
      }
    }

    /** `getOffsetRange`. The OffsetRange constructor throws when the end comes before the start. */
    function GetOffsetRange(range: TextRange): (r: Result<OffsetRange>)
      requires Valid()
      requires 0 <= range.start.lineIdx < |lineStartOffsetByLineIdx|
      requires 0 <= range.endExclusive.lineIdx < |lineStartOffsetByLineIdx|
      ensures r.Ok? <==> GetOffset(range.start) <= GetOffset(range.endExclusive)
      ensures r.Ok? ==> r.value.start == GetOffset(range.start) && r.value.endExclusive == GetOffset(range.endExclusive)
    {
      Create(GetOffset(range.start), GetOffset(range.endExclusive))
    }

    /** `getRange`: both ends converted; inverse of `getOffsetRange` on ranges within the text. */
    method GetRange(offsetRange: OffsetRange) returns (r: TextRange)
      requires Valid()
      requires offsetRange.start >= 0
      ensures r == TextRange(PositionOf(text, offsetRange.start), PositionOf(text, offsetRange.endExclusive))
      ensures offsetRange.endExclusive <= |text| ==> GetOffsetRange(r) == Ok(offsetRange)
    {
      var s := GetPosition(offsetRange.start);
      var e := GetPosition(offsetRange.endExclusive);
      r := TextRange(s, e);
    }

    /** `getTextLength`: the TextLength between the two converted ends. */
    method GetTextLength(offsetRange: OffsetRange) returns (len: TextLength)
      requires Valid()
      requires offsetRange.start >= 0
      ensures len == OfRange(TextRange(PositionOf(text, offsetRange.start), PositionOf(text, offsetRange.endExclusive)))
    {
      var r := GetRange(offsetRange);
      len := OfRange(r);
    }

    /** `textLength`: the last line's index and the columns after its start. */
    function TextLengthOf(): (len: TextLength)
      requires Valid()
      ensures len == LengthOfText(text)
    {
      var lineIdx := |lineStartOffsetByLineIdx| - 1;
      LineStartsLength(text);
      TextLength(lineIdx, |text| - lineStartOffsetByLineIdx[lineIdx])
    }
  }

  lemma PositionOfOffsetIn(ls: seq<int>, n: int, p: TextPos)
    requires IsLineTable(ls, n) && IsValidIn(ls, n, p)
    ensures PositionIn(ls, ls[p.lineIdx] + p.charIdx) == p
    ensures ls[p.lineIdx] + p.charIdx <= n
  {
    var o := ls[p.lineIdx] + p.charIdx;
    LineOfUnique(ls, o, p.lineIdx);
  }

  /** The offset a position denotes: its line's start plus its column. */
  function OffsetAt(text: string, p: TextPos): int
    requires 0 <= p.lineIdx < |LineStarts(text)|
  {
    LineStarts(text)[p.lineIdx] + p.charIdx
  }

  /** A valid position's offset lies in the text and converts back to that position. */
  lemma PositionOfOffset(text: string, p: TextPos)
    requires IsValidPosition(text, p)
    ensures 0 <= OffsetAt(text, p) <= |text|
    ensures PositionOf(text, OffsetAt(text, p)) == p
  {
    LineStartsIncreasing(text);
    PositionOfOffsetIn(LineStarts(text), |text|, p);
  }

  lemma OffsetOfPositionIn(ls: seq<int>, n: int, offset: int)
    requires IsLineTable(ls, n) && 0 <= offset <= n
    ensures IsValidIn(ls, n, PositionIn(ls, offset))
    ensures ls[PositionIn(ls, offset).lineIdx] + PositionIn(ls, offset).charIdx == offset
  {
  }

  /** An offset within the text converts to a valid position whose offset is the same. */
  lemma OffsetOfPosition(text: string, offset: int)
    requires 0 <= offset <= |text|
    ensures IsValidPosition(text, PositionOf(text, offset))
    ensures OffsetAt(text, PositionOf(text, offset)) == offset
  {
    LineStartsIncreasing(text);
    OffsetOfPositionIn(LineStarts(text), |text|, offset);
  }

  /** The table's last entry is where the text's last line starts, as LengthOfText counts it. */
  lemma {:induction false} LineStartsLength(text: string)
    ensures LengthOfText(text) == TextLength(|LineStarts(text)| - 1, |text| - LineStarts(text)[|LineStarts(text)| - 1])
    decreases |text|
  {
    if text != [] {
      LineStartsLength(text[..|text| - 1]);
    }
  }

  /** `getRange` undoes `getOffsetRange` on ranges whose ends are valid positions. */
  lemma RangeRoundTrip(text: string, r: TextRange)
    requires IsValidPosition(text, r.start) && IsValidPosition(text, r.endExclusive)
    ensures TextRange(PositionOf(text, OffsetAt(text, r.start)), PositionOf(text, OffsetAt(text, r.endExclusive))) == r
  {
    PositionOfOffset(text, r.start);
    PositionOfOffset(text, r.endExclusive);
  }

  /** Offsets follow the order of valid positions. */
  lemma OffsetMonotoneIn(ls: seq<int>, n: int, p: TextPos, q: TextPos)
    requires IsLineTable(ls, n) && IsValidIn(ls, n, p) && IsValidIn(ls, n, q)
    requires p.IsBeforeOrEqual(q)
    ensures ls[p.lineIdx] + p.charIdx <= ls[q.lineIdx] + q.charIdx
  {
    if p.lineIdx < q.lineIdx {
      assert ls[p.lineIdx + 1] <= ls[q.lineIdx];
    }
  }

  lemma OffsetMonotone(text: string, p: TextPos, q: TextPos)
    requires IsValidPosition(text, p) && IsValidPosition(text, q)
    requires p.IsBeforeOrEqual(q)
    ensures OffsetAt(text, p) <= OffsetAt(text, q)
  {
    LineStartsIncreasing(text);
    OffsetMonotoneIn(LineStarts(text), |text|, p, q);
  }

  /** Distinct valid positions denote distinct offsets. */
  lemma OffsetInjective(text: string, p: TextPos, q: TextPos)
    requires IsValidPosition(text, p) && IsValidPosition(text, q)
    requires OffsetAt(text, p) == OffsetAt(text, q)
    ensures p == q
  {
    PositionOfOffset(text, p);
    PositionOfOffset(text, q);
  }

  /** `endPositionExclusive`: the text's length walked from (0, 0). */
  function EndPosition(text: string): (p: TextPos)
    ensures 0 <= p.lineIdx < |LineStarts(text)|
  {
    LineStartsLength(text);
    LengthOfText(text).AddToPosition(Zero)
  }

  /** The end position is the last line's position after its last column, at offset |text|. */
  lemma EndPositionIsValid(text: string)
    ensures EndPosition(text) == TextPos(|LineStarts(text)| - 1, |text| - LineStarts(text)[|LineStarts(text)| - 1])
    ensures IsValidPosition(text, EndPosition(text))
    ensures OffsetAt(text, EndPosition(text)) == |text|
  {
    LineStartsLength(text);
  }

  /** Every valid position is at or before the end position. */
  lemma ValidBeforeEnd(text: string, p: TextPos)
    requires IsValidPosition(text, p)
    ensures p.IsBeforeOrEqual(EndPosition(text))
  {
    EndPositionIsValid(text);
  }
}
