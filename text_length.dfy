/**
 * Lengths of text measured in lines and columns
 * (sourcemap/src/text/TextLength.ts).
 */
module TextLengths {
  import opened TextPositions
  import opened TextRanges

  datatype TextLength = TextLength(lineCount: int, columnCount: int) {

    predicate IsZero() {
      lineCount == 0 && columnCount == 0
    }

    predicate IsLessThan(other: TextLength) {
      if lineCount != other.lineCount then lineCount < other.lineCount
      else columnCount < other.columnCount
    }

    predicate IsGreaterThan(other: TextLength) {
      if lineCount != other.lineCount then lineCount > other.lineCount
      else columnCount > other.columnCount
    }

    predicate IsGreaterThanOrEqualTo(other: TextLength) {
      if lineCount != other.lineCount then lineCount > other.lineCount
      else columnCount >= other.columnCount
    }

    predicate Equals(other: TextLength) {
      lineCount == other.lineCount && columnCount == other.columnCount
    }

    /** Negative, zero or positive as this length is shorter, equal or longer. */
    function Compare(other: TextLength): (r: int)
      ensures r == 0 <==> Equals(other)
      ensures r < 0 <==> IsLessThan(other)
      ensures r > 0 <==> IsGreaterThan(other)
      ensures r >= 0 <==> IsGreaterThanOrEqualTo(other)
    {
      if lineCount != other.lineCount then lineCount - other.lineCount
      else columnCount - other.columnCount
    }

    /** Appending `other`: columns add up unless `other` spans a line break. */
    function Add(other: TextLength): TextLength {
      if other.lineCount == 0 then TextLength(lineCount, columnCount + other.columnCount)
      else TextLength(lineCount + other.lineCount, other.columnCount)
    }

    /** The position reached by walking this length from `position`. */
    function AddToPosition(position: TextPos): TextPos {
      if lineCount == 0 then TextPos(position.lineIdx, position.charIdx + columnCount)
      else TextPos(position.lineIdx + lineCount, columnCount)
    }

    function CreateRange(startPosition: TextPos): (r: TextRange)
      ensures r.start == startPosition
      ensures BetweenPositions(r.start, r.endExclusive) == this
    {
      BetweenAfterAdd(startPosition, this);
      TextRange(startPosition, AddToPosition(startPosition))
    }

    function ToRange(): (r: TextRange)
      ensures r.start == Zero && r.endExclusive == AddToPosition(Zero)
    {
      CreateRange(TextPos(0, 0))
    }
  }

  const ZeroLength: TextLength := TextLength(0, 0)

  /** The length from `start` to `end`, or zero when `end` is shorter than `start`. */
  function LengthDiffNonNegative(start: TextLength, end: TextLength): (r: TextLength)
    ensures end.IsLessThan(start) ==> r == ZeroLength
    ensures !end.IsLessThan(start) ==> start.Add(r) == end
  {
    if end.IsLessThan(start) then ZeroLength
    else if start.lineCount == end.lineCount then TextLength(0, end.columnCount - start.columnCount)
    else TextLength(end.lineCount - start.lineCount, end.columnCount)
  }

  function BetweenPositions(position1: TextPos, position2: TextPos): TextLength {
    if position1.lineIdx == position2.lineIdx then TextLength(0, position2.charIdx - position1.charIdx)
    else TextLength(position2.lineIdx - position1.lineIdx, position2.charIdx)
  }

  function OfRange(range: TextRange): (r: TextLength)
    ensures r.AddToPosition(range.start) == range.endExclusive
  {
    AddAfterBetween(range.start, range.endExclusive);
    BetweenPositions(range.start, range.endExclusive)
  }

  /** BetweenPositions undoes AddToPosition ... */
  lemma BetweenAfterAdd(p: TextPos, len: TextLength)
    ensures BetweenPositions(p, len.AddToPosition(p)) == len
  {
  }

  /** ... and AddToPosition undoes BetweenPositions. */
  lemma AddAfterBetween(p: TextPos, q: TextPos)
    ensures BetweenPositions(p, q).AddToPosition(p) == q
  {
  }

  /** Zero is the identity of Add. */
  lemma AddZero(a: TextLength)
    ensures a.Add(ZeroLength) == a && ZeroLength.Add(a) == a
  {
  }

  /** Add is associative on lengths whose line counts are non-negative. */
  lemma AddAssociative(a: TextLength, b: TextLength, c: TextLength)
    requires a.lineCount >= 0 && b.lineCount >= 0 && c.lineCount >= 0
    ensures a.Add(b).Add(c) == a.Add(b.Add(c))
  {
  }

  /** Walking a then b from a position is walking their sum. */
  lemma AddToPositionOfAdd(p: TextPos, a: TextLength, b: TextLength)
    requires a.lineCount >= 0 && b.lineCount >= 0
    ensures b.AddToPosition(a.AddToPosition(p)) == a.Add(b).AddToPosition(p)
  {
  }

  /** The length of a text: one line per '\n', columns after the last '\n'. */
  function LengthOfText(text: string): (r: TextLength)
    ensures r.lineCount >= 0 && r.columnCount >= 0
    decreases |text|
  {
    if text == [] then ZeroLength
    else
      var before := LengthOfText(text[..|text| - 1]);
      if text[|text| - 1] == '\n' then TextLength(before.lineCount + 1, 0)
      else TextLength(before.lineCount, before.columnCount + 1)
  }

  /** `ofText`: the loop over the characters of `text`. */
  method OfText(text: string) returns (r: TextLength)
    ensures r == LengthOfText(text)
  {
    var line, column := 0, 0;
    var i := 0;
    while i < |text|
      invariant 0 <= i <= |text|
      invariant TextLength(line, column) == LengthOfText(text[..i])
    {
      assert text[..i + 1][..i] == text[..i];
      if text[i] == '\n' {
        line := line + 1;
        column := 0;
      } else {
        column := column + 1;
      }
      i := i + 1;
    }
    assert text[..i] == text;
    r := TextLength(line, column);
  }

  /**
   * lineCount is the number of '\n' in the text; columnCount is the number
   * of characters after the last '\n' (or the whole text when there is none).
   */
  lemma {:induction false} LengthOfTextCounts(text: string)
    ensures LengthOfText(text).lineCount == multiset(text)['\n']
    ensures LengthOfText(text).columnCount <= |text|
    ensures '\n' !in text[|text| - LengthOfText(text).columnCount..]
    ensures LengthOfText(text).columnCount < |text| ==> text[|text| - LengthOfText(text).columnCount - 1] == '\n'
    decreases |text|
  {
    if text != [] {
      var init := text[..|text| - 1];
      LengthOfTextCounts(init);
      assert text == init + [text[|text| - 1]];
      assert multiset(text) == multiset(init) + multiset{text[|text| - 1]};
    }
  }

  /** The length of a concatenation is the sum of the lengths. */
  lemma {:induction false} LengthOfConcat(a: string, b: string)
    ensures LengthOfText(a + b) == LengthOfText(a).Add(LengthOfText(b))
    decreases |b|
  {
    if b == [] {
      assert a + b == a;
    } else {
      var init := b[..|b| - 1];
      LengthOfConcat(a, init);
      assert (a + b)[..|a + b| - 1] == a + init;
    }
  }
}
