/** The binary search of sourcemap/src/utils.ts. */
module Search {
  /** `predicate` is monotonous on a[start..end]: once false, it stays false. */
  ghost predicate Monotonous<T>(a: seq<T>, pred: T -> bool, start: int, end: int)
    requires 0 <= start <= end <= |a|
  {
    forall x, y :: start <= x < y < end && !pred(a[x]) ==> !pred(a[y])
  }

  /**
   * The index `findLastIdxMonotonous` returns after narrowing the window to
   * [i, j). Whatever the predicate, it sits at a true/false boundary; for a
   * monotonous predicate it is the last index where the predicate holds,
   * or `i - 1` when there is none.
   */
  function LastIdx<T>(a: seq<T>, pred: T -> bool, i: int, j: int): (r: int)
    requires 0 <= i <= j <= |a|
    ensures i - 1 <= r < j
    ensures r >= i ==> pred(a[r])
    ensures r + 1 < j ==> !pred(a[r + 1])
    decreases j - i
  {
    if i < j then
      var k := (i + j) / 2;
      if pred(a[k]) then LastIdx(a, pred, k + 1, j) else LastIdx(a, pred, i, k)
    else i - 1
  }

  /** For a monotonous predicate, `LastIdx` splits the window into the part where it holds and the rest. */
  lemma {:induction false} LastIdxSplits<T>(a: seq<T>, pred: T -> bool, i: int, j: int)
    requires 0 <= i <= j <= |a| && Monotonous(a, pred, i, j)
    ensures forall k :: i <= k <= LastIdx(a, pred, i, j) ==> pred(a[k])
    ensures forall k :: LastIdx(a, pred, i, j) < k < j ==> !pred(a[k])
    decreases j - i
  {
    if i < j {
      var k := (i + j) / 2;
      if pred(a[k]) {
        LastIdxSplits(a, pred, k + 1, j);
      } else {
        LastIdxSplits(a, pred, i, k);
      }
    }
  }

  /** `findLastIdxMonotonous`: the binary search loop. */
  method FindLastIdxMonotonous<T>(a: seq<T>, pred: T -> bool, start: int, end: int) returns (r: int)
    requires 0 <= start <= end <= |a|
    ensures r == LastIdx(a, pred, start, end)
  {
    var i := start;
    var j := end;
    while i < j
      invariant start <= i <= j <= end
      invariant LastIdx(a, pred, i, j) == LastIdx(a, pred, start, end)
      decreases j - i
    {
      var k := (i + j) / 2;
      if pred(a[k]) {
        i := k + 1;
      } else {
        j := k;
      }
    }
    r := i - 1;
  }
}
