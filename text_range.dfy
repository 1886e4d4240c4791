/** Half-open ranges of text positions (sourcemap/src/text/TextRange.ts). */
module TextRanges {
  import opened TextPositions

  datatype TextRange = TextRange(start: TextPos, endExclusive: TextPos) {

    predicate IsSingleLine() {
      start.lineIdx == endExclusive.lineIdx
    }

    predicate IsEmpty() {
      start.Equals(endExclusive)
    }

    predicate Equals(other: TextRange) {
      start.Equals(other.start) && endExclusive.Equals(other.endExclusive)
    }

    /** The smallest range covering both: minimum of the starts, maximum of the ends. */
    function PlusRange(range: TextRange): (r: TextRange)
      ensures r.start == start || r.start == range.start
      ensures r.start.IsBeforeOrEqual(start) && r.start.IsBeforeOrEqual(range.start)
      ensures r.endExclusive == endExclusive || r.endExclusive == range.endExclusive
      ensures endExclusive.IsBeforeOrEqual(r.endExclusive) && range.endExclusive.IsBeforeOrEqual(r.endExclusive)
    {
      TextRange(Min2(start, range.start), Max2(endExclusive, range.endExclusive))
    }
  }

  function EmptyAt(pos: TextPos): (r: TextRange)
    ensures r.IsEmpty() && r.start == pos
  {
    TextRange(pos, pos)
  }

  /** Orders by start position, then by end position. */
  function Compare(a: TextRange, b: TextRange): (r: int)
    ensures r in {-1, 0, 1}
    ensures a.start != b.start ==> r == TextPositions.Compare(a.start, b.start)
    ensures a.start == b.start ==> r == TextPositions.Compare(a.endExclusive, b.endExclusive)
  {
    var startCompare := TextPositions.Compare(a.start, b.start);
    if startCompare != 0 then startCompare
    else TextPositions.Compare(a.endExclusive, b.endExclusive)
  }

  /** Compare is 0 exactly when the ranges are equal; IsEmpty means start equals end. */
  lemma CompareZeroIffEquals(a: TextRange, b: TextRange)
    ensures Compare(a, b) == 0 <==> a.Equals(b)
    ensures a.Equals(b) <==> a == b
    ensures a.IsEmpty() <==> a.start == a.endExclusive
    ensures a.IsSingleLine() <==> a.start.lineIdx == a.endExclusive.lineIdx
  {
    CompareAgreesWithEquals(a.start, b.start);
    CompareAgreesWithEquals(a.endExclusive, b.endExclusive);
  }

  /** For ranges that follow one another (the first ends where the second starts), PlusRange spans both. */
  lemma PlusRangeOfAdjacent(a: TextRange, b: TextRange)
    requires a.start.IsBeforeOrEqual(a.endExclusive)
    requires a.endExclusive == b.start
    requires b.start.IsBeforeOrEqual(b.endExclusive)
    ensures a.PlusRange(b) == TextRange(a.start, b.endExclusive)
  {
  }
}
