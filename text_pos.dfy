/**
 * Zero-based text positions (recording/src/utils/TextPos.ts, which also
 * stands for the position type the source-map code imports).
 */
module TextPositions {

  datatype TextPos = TextPos(lineIdx: int, charIdx: int) {

    predicate Equals(other: TextPos) {
      lineIdx == other.lineIdx && charIdx == other.charIdx
    }

    predicate IsBefore(other: TextPos) {
      lineIdx < other.lineIdx || (lineIdx == other.lineIdx && charIdx < other.charIdx)
    }

    predicate IsBeforeOrEqual(other: TextPos) {
      lineIdx < other.lineIdx || (lineIdx == other.lineIdx && charIdx <= other.charIdx)
    }
  }

  const Zero: TextPos := TextPos(0, 0)

  /** Lexicographic comparison on (lineIdx, charIdx) with results -1, 0 or 1. */
  function Compare(a: TextPos, b: TextPos): (r: int)
    ensures r in {-1, 0, 1}
    ensures r == -1 <==> a.lineIdx < b.lineIdx || (a.lineIdx == b.lineIdx && a.charIdx < b.charIdx)
    ensures r == 1 <==> a.lineIdx > b.lineIdx || (a.lineIdx == b.lineIdx && a.charIdx > b.charIdx)
  {
    if a.lineIdx < b.lineIdx then -1
    else if a.lineIdx > b.lineIdx then 1
    else if a.charIdx < b.charIdx then -1
    else if a.charIdx > b.charIdx then 1
    else 0
  }

  function Min2(a: TextPos, b: TextPos): (r: TextPos)
    ensures r == a || r == b
    ensures r.IsBeforeOrEqual(a) && r.IsBeforeOrEqual(b)
  {
    if a.IsBefore(b) then a else b
  }

  function Max2(a: TextPos, b: TextPos): (r: TextPos)
    ensures r == a || r == b
    ensures a.IsBeforeOrEqual(r) && b.IsBeforeOrEqual(r)
  {
    if a.IsBefore(b) then b else a
  }

  /** Compare is 0 exactly for equal positions, and agrees with IsBefore. */
  lemma CompareAgreesWithEquals(a: TextPos, b: TextPos)
    ensures Compare(a, b) == 0 <==> a.Equals(b)
    ensures a.Equals(b) <==> a == b
    ensures Compare(a, b) == -1 <==> a.IsBefore(b)
    ensures Compare(a, b) == 1 <==> b.IsBefore(a)
  {
  }

  /** IsBefore is a strict total order; IsBeforeOrEqual is IsBefore or Equals. */
  lemma IsBeforeIsStrictTotalOrder(a: TextPos, b: TextPos, c: TextPos)
    ensures !a.IsBefore(a)
    ensures a.IsBefore(b) && b.IsBefore(c) ==> a.IsBefore(c)
    ensures a.IsBefore(b) || a == b || b.IsBefore(a)
    ensures a.IsBefore(b) ==> !b.IsBefore(a)
    ensures a.IsBeforeOrEqual(b) <==> a.IsBefore(b) || a.Equals(b)
  {
  }

  lemma IsBeforeOrEqualIsTotalOrder(a: TextPos, b: TextPos, c: TextPos)
    ensures a.IsBeforeOrEqual(a)
    ensures a.IsBeforeOrEqual(b) && b.IsBeforeOrEqual(c) ==> a.IsBeforeOrEqual(c)
    ensures a.IsBeforeOrEqual(b) && b.IsBeforeOrEqual(a) ==> a == b
    ensures a.IsBeforeOrEqual(b) || b.IsBeforeOrEqual(a)
    ensures a.IsBeforeOrEqual(b) <==> !b.IsBefore(a)
  {
  }
}
