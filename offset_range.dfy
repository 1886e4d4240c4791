/** Half-open ranges of 0-based offsets (sourcemap/src/text/OffsetRange.ts). */
module OffsetRanges {
  import opened Wrappers
  import opened Bits

  datatype Span = Span(start: int, endExclusive: int)

  /** Every OffsetRange the source builds has passed the constructor's check. */
  type OffsetRange = r: Span | r.start <= r.endExclusive witness Span(0, 0)

  /** The constructor: throws when start > endExclusive. */
  function Create(start: int, endExclusive: int): (r: Result<OffsetRange>)
    ensures r.Ok? <==> start <= endExclusive
    ensures r.Ok? ==> r.value.start == start && r.value.endExclusive == endExclusive
  {
    if start > endExclusive then Fail("Invalid range") else Ok(Span(start, endExclusive))
  }

  /** Like the constructor, but returns undefined instead of throwing. */
  function TryCreate(start: int, endExclusive: int): (r: Option<OffsetRange>)
    ensures r.Some? <==> Create(start, endExclusive).Ok?
    ensures r.Some? ==> r.value == Create(start, endExclusive).value
  {
    if start > endExclusive then None else Some(Span(start, endExclusive))
  }

  function OfLength(length: nat): OffsetRange {
    Span(0, length)
  }

  /** A range of `length` offsets starting at `start`; throws for a negative length. */
  function OfStartAndLength(start: int, length: int): (r: Result<OffsetRange>)
    ensures r.Ok? <==> length >= 0
    ensures r.Ok? ==> r.value.start == start && Length(r.value) == length
  {
    Create(start, start + length)
  }

  function IsEmpty(r: OffsetRange): bool {
    r.start == r.endExclusive
  }

  function Length(r: OffsetRange): (n: nat)
    ensures n == 0 <==> IsEmpty(r)
  {
    r.endExclusive - r.start
  }

  predicate Contains(r: OffsetRange, offset: int) {
    r.start <= offset < r.endExclusive
  }

  predicate ContainsRange(r: OffsetRange, other: OffsetRange) {
    r.start <= other.start && other.endExclusive <= r.endExclusive
  }

  /** Shifting both ends: the length and the contained offsets move together. */
  function Delta(r: OffsetRange, offset: int): (d: OffsetRange)
    ensures d.start == r.start + offset && Length(d) == Length(r)
    ensures forall n :: Contains(r, n) <==> Contains(d, n + offset)
  {
    Span(r.start + offset, r.endExclusive + offset)
  }

  /** Moving the start by `offset`: fails when it would pass the end, otherwise the end stays. */
  function DeltaStart(r: OffsetRange, offset: int): (d: Result<OffsetRange>)
    ensures d.Ok? <==> offset <= Length(r)
    ensures d.Ok? ==> d.value.endExclusive == r.endExclusive && Length(d.value) == Length(r) - offset
  {
    Create(r.start + offset, r.endExclusive)
  }

  /** Moving the end by `offset`: fails when it would pass the start, otherwise the start stays. */
  function DeltaEnd(r: OffsetRange, offset: int): (d: Result<OffsetRange>)
    ensures d.Ok? <==> -offset <= Length(r)
    ensures d.Ok? ==> d.value.start == r.start && Length(d.value) == Length(r) + offset
  {
    Create(r.start, r.endExclusive + offset)
  }

  /** The smallest range containing both: every offset of either is in the join. */
  function Join(a: OffsetRange, b: OffsetRange): (r: OffsetRange)
    ensures forall n :: Contains(a, n) || Contains(b, n) ==> Contains(r, n)
    ensures ContainsRange(r, a) && ContainsRange(r, b)
    ensures r.start == a.start || r.start == b.start
    ensures r.endExclusive == a.endExclusive || r.endExclusive == b.endExclusive
  {
    Span(if a.start <= b.start then a.start else b.start,
         if a.endExclusive >= b.endExclusive then a.endExclusive else b.endExclusive)
  }

  /**
   * Contains n iff both ranges do; undefined exactly when the ranges do not
   * even touch.
   */
  function Intersect(a: OffsetRange, b: OffsetRange): (r: Option<OffsetRange>)
    ensures r.None? <==> a.endExclusive < b.start || b.endExclusive < a.start
    ensures r.Some? ==> forall n :: Contains(r.value, n) <==> Contains(a, n) && Contains(b, n)
  {
    var start := if a.start >= b.start then a.start else b.start;
    var end := if a.endExclusive <= b.endExclusive then a.endExclusive else b.endExclusive;
    if start <= end then Some(Span(start, end)) else None
  }

  predicate Intersects(a: OffsetRange, b: OffsetRange) {
    (if a.start >= b.start then a.start else b.start) < (if a.endExclusive <= b.endExclusive then a.endExclusive else b.endExclusive)
  }

  predicate IntersectsOrTouches(a: OffsetRange, b: OffsetRange) {
    (if a.start >= b.start then a.start else b.start) <= (if a.endExclusive <= b.endExclusive then a.endExclusive else b.endExclusive)
  }

  predicate IsBefore(a: OffsetRange, b: OffsetRange) {
    a.endExclusive <= b.start
  }

  predicate IsAfter(a: OffsetRange, b: OffsetRange) {
    a.start >= b.endExclusive
  }

  /** Intersects means some offset lies in both; IntersectsOrTouches means Intersect is defined. */
  lemma IntersectsMeansCommonOffset(a: OffsetRange, b: OffsetRange)
    ensures Intersects(a, b) <==> exists n :: Contains(a, n) && Contains(b, n)
    ensures IntersectsOrTouches(a, b) <==> Intersect(a, b).Some?
  {
    if Intersects(a, b) {
      var n := if a.start >= b.start then a.start else b.start;
      assert Contains(a, n) && Contains(b, n);
    }
  }

  /** JavaScript's `substring`: both ends clamped to [0, |s|], then swapped if reversed. */
  function Substring<T>(s: seq<T>, from: int, to: int): (r: seq<T>)
    ensures |r| <= |s|
  {
    var a := if from < 0 then 0 else if from > |s| then |s| else from;
    var b := if to < 0 then 0 else if to > |s| then |s| else to;
    if a <= b then s[a..b] else s[b..a]
  }

  function RangeSubstring(r: OffsetRange, s: string): (t: string)
    ensures 0 <= r.start && r.endExclusive <= |s| ==> t == s[r.start..r.endExclusive]
  {
    Substring(s, r.start, r.endExclusive)
  }

  /** Substrings of consecutive ranges concatenate, whatever clamping happens. */
  lemma SubstringConcat<T>(s: seq<T>, a: int, b: int, c: int)
    requires a <= b <= c
    ensures Substring(s, a, b) + Substring(s, b, c) == Substring(s, a, c)
  {
    var ca := if a < 0 then 0 else if a > |s| then |s| else a;
    var cb := if b < 0 then 0 else if b > |s| then |s| else b;
    var cc := if c < 0 then 0 else if c > |s| then |s| else c;
    assert ca <= cb <= cc;
    assert s[ca..cb] + s[cb..cc] == s[ca..cc];
  }

  /** JavaScript's `Array.prototype.slice`: negative ends count from the back, then clamp. */
  function Slice<T>(s: seq<T>, from: int, to: int): (r: seq<T>)
    ensures |r| <= |s|
    ensures 0 <= from <= to <= |s| ==> r == s[from..to]
  {
    var a := if from < 0 then (if |s| + from < 0 then 0 else |s| + from) else if from > |s| then |s| else from;
    var b := if to < 0 then (if |s| + to < 0 then 0 else |s| + to) else if to > |s| then |s| else to;
    if a <= b then s[a..b] else []
  }

  function RangeSlice<T>(r: OffsetRange, s: seq<T>): (t: seq<T>)
    ensures 0 <= r.start && r.endExclusive <= |s| ==> t == s[r.start..r.endExclusive] && |t| == Length(r)
  {
    Slice(s, r.start, r.endExclusive)
  }

  /** The contained value closest to `value`; throws on an empty range. */
  function Clip(r: OffsetRange, value: int): (v: Result<int>)
    ensures v.Fail? <==> IsEmpty(r)
    ensures v.Ok? ==> Contains(r, v.value)
    ensures v.Ok? && Contains(r, value) ==> v.value == value
    ensures v.Ok? && value < r.start ==> v.value == r.start
    ensures v.Ok? && value >= r.endExclusive ==> v.value == r.endExclusive - 1
  {
    if IsEmpty(r) then Fail("Invalid clipping range")
    else
      var m := if r.endExclusive - 1 <= value then r.endExclusive - 1 else value;
      Ok(if r.start >= m then r.start else m)
  }

  /**
   * `clipCyclic` as written: for a value below the range it returns
   * `endExclusive - ((start - value) % length)`, which is `endExclusive`
   * itself, outside the range, whenever `start - value` is a multiple of the
   * length. Both operands are positive there, so JavaScript's `%` agrees with
   * Dafny's.
   */
  function ClipCyclicAsWritten(r: OffsetRange, value: int): (v: Result<int>)
    ensures v.Fail? <==> IsEmpty(r)
    ensures v.Ok? ==> r.start <= v.value <= r.endExclusive
    ensures v.Ok? && Contains(r, value) ==> v.value == value
  {
    if IsEmpty(r) then Fail("Invalid clipping range")
    else if value < r.start then
      Ok(r.endExclusive - ((r.start - value) % Length(r)))
    else if value >= r.endExclusive then
      Ok(r.start + ((value - r.start) % Length(r)))
    else Ok(value)
  }

  /** [5, 10).clipCyclic(0) yields 10, which [5, 10) does not contain; 0 + 1 * 5 = 5 does. */
  lemma ClipCyclicAsWrittenLeavesRange()
    ensures ClipCyclicAsWritten(Span(5, 10), 0) == Ok(10)
    ensures !Contains(Span(5, 10), 10) && Contains(Span(5, 10), 0 + 1 * 5)
  {
    var r: OffsetRange := Span(5, 10);
    assert !IsEmpty(r) && Length(r) == 5;
    assert (r.start - 0) % Length(r) == 0;
  }

  /**
   * `clipCyclic` as its doc comment promises: `value + k * length` inside the
   * range. Below the range the remainder is taken of `start - value - 1`, so
   * a multiple of the length maps to `start` rather than to `endExclusive`.
   */
  function ClipCyclic(r: OffsetRange, value: int): (v: Result<int>)
    ensures v.Fail? <==> IsEmpty(r)
    ensures v.Ok? ==> Contains(r, v.value)
    ensures v.Ok? && Contains(r, value) ==> v.value == value
  {
    if IsEmpty(r) then Fail("Invalid clipping range")
    else if value < r.start then
      Ok(r.endExclusive - 1 - ((r.start - value - 1) % Length(r)))
    else if value >= r.endExclusive then
      Ok(r.start + ((value - r.start) % Length(r)))
    else Ok(value)
  }

  /** The corrected result differs from the value by a whole number of lengths. */
  lemma ClipCyclicShiftsByLength(r: OffsetRange, value: int) returns (k: int)
    requires !IsEmpty(r)
    ensures ClipCyclic(r, value).value == value + k * Length(r)
  {
    var len := Length(r);
    if value < r.start {
      var q := (r.start - value - 1) / len;
      assert r.start - value - 1 == len * q + (r.start - value - 1) % len;
      k := q + 1;
      assert len * (q + 1) == len * q + len;
    } else if value >= r.endExclusive {
      var q := (value - r.start) / len;
      assert value - r.start == len * q + (value - r.start) % len;
      k := -q;
      assert len * -q == -(len * q);
    } else {
      k := 0;
    }
  }

  /** The two versions differ only where `start - value` is a positive multiple of the length. */
  lemma ClipCyclicAgreesOffMultiples(r: OffsetRange, value: int)
    requires !IsEmpty(r)
    ensures ClipCyclic(r, value) != ClipCyclicAsWritten(r, value) <==>
              value < r.start && (r.start - value) % Length(r) == 0
  {
    var len := Length(r);
    if value < r.start {
      var x := r.start - value - 1;
      var q := x / len;
      var m := x % len;
      assert x == len * q + m;
      if m == len - 1 {
        ModUnique(x + 1, len, q + 1, 0);
      } else {
        ModUnique(x + 1, len, q, m + 1);
      }
    }
  }

  /** The examples of the doc comment: [5, 10).clipCyclic(10) = 5, (11) = 6, (4) = 9. */
  lemma ClipCyclicExamples()
    ensures ClipCyclic(Span(5, 10), 10) == Ok(5)
    ensures ClipCyclic(Span(5, 10), 11) == Ok(6)
    ensures ClipCyclic(Span(5, 10), 4) == Ok(9)
    ensures ClipCyclic(Span(5, 10), 0) == Ok(5)
  {
  }

  /** `map`: f applied to every offset of the range, in increasing order. */
  method Map<T>(r: OffsetRange, f: int -> T) returns (result: seq<T>)
    ensures |result| == Length(r)
    ensures forall k :: 0 <= k < |result| ==> result[k] == f(r.start + k)
  {
    result := [];
    var i := r.start;
    while i < r.endExclusive
      invariant r.start <= i <= r.endExclusive
      invariant |result| == i - r.start
      invariant forall k :: 0 <= k < |result| ==> result[k] == f(r.start + k)
    {
      result := result + [f(i)];
      i := i + 1;
    }
  }

  // ---- addRange: keeping a list of disjoint, sorted ranges ----

  /** Sorted with strict gaps: each range ends before the next one starts. */
  predicate SortedDisjoint(ranges: seq<OffsetRange>) {
    forall k :: 0 <= k < |ranges| - 1 ==> ranges[k].endExclusive < ranges[k + 1].start
  }

  predicate Covers(ranges: seq<OffsetRange>, n: int) {
    exists k :: 0 <= k < |ranges| && Contains(ranges[k], n)
  }

  lemma SortedDisjointOrdered(ranges: seq<OffsetRange>, a: int, b: int)
    requires SortedDisjoint(ranges)
    requires 0 <= a < b < |ranges|
    ensures ranges[a].endExclusive < ranges[b].start
    decreases b - a
  {
    if a + 1 < b {
      SortedDisjointOrdered(ranges, a + 1, b);
    }
  }

  /**
   * `addRange`: inserts `range` into `sortedRanges`, merging it with every
   * range it overlaps or touches. The source splices the array in place;
   * here the new contents are returned.
   */
  method AddRange(range: OffsetRange, sortedRanges: seq<OffsetRange>) returns (result: seq<OffsetRange>)
    requires SortedDisjoint(sortedRanges)
    ensures SortedDisjoint(result)
    ensures forall n :: Covers(result, n) <==> Covers(sortedRanges, n) || Contains(range, n)
  {
    var i := 0;
    while i < |sortedRanges| && sortedRanges[i].endExclusive < range.start
      invariant 0 <= i <= |sortedRanges|
      invariant forall k :: 0 <= k < i ==> sortedRanges[k].endExclusive < range.start
    {
      i := i + 1;
    }
    var j := i;
    while j < |sortedRanges| && sortedRanges[j].start <= range.endExclusive
      invariant i <= j <= |sortedRanges|
      invariant forall k :: i <= k < j ==> sortedRanges[k].start <= range.endExclusive
    {
      j := j + 1;
    }
    if i == j {
      result := sortedRanges[..i] + [range] + sortedRanges[i..];
      InsertKeepsInvariant(range, sortedRanges, i);
    } else {
      var start := if range.start <= sortedRanges[i].start then range.start else sortedRanges[i].start;
      var end := if range.endExclusive >= sortedRanges[j - 1].endExclusive then range.endExclusive else sortedRanges[j - 1].endExclusive;
      var merged: OffsetRange := Span(start, end);
      result := sortedRanges[..i] + [merged] + sortedRanges[j..];
      MergeKeepsInvariant(range, sortedRanges, i, j, merged);
    }
  }

  lemma InsertKeepsInvariant(range: OffsetRange, rs: seq<OffsetRange>, i: int)
    requires SortedDisjoint(rs) && 0 <= i <= |rs|
    requires forall k :: 0 <= k < i ==> rs[k].endExclusive < range.start
    requires i < |rs| ==> range.endExclusive < rs[i].start
    ensures SortedDisjoint(rs[..i] + [range] + rs[i..])
    ensures forall n :: Covers(rs[..i] + [range] + rs[i..], n) <==> Covers(rs, n) || Contains(range, n)
  {
    var res := rs[..i] + [range] + rs[i..];
    assert forall k :: 0 <= k < i ==> res[k] == rs[k];
    assert res[i] == range;
    assert forall k :: i < k < |res| ==> res[k] == rs[k - 1];
    forall n
      ensures Covers(res, n) <==> Covers(rs, n) || Contains(range, n)
    {
      if Covers(res, n) {
        var k :| 0 <= k < |res| && Contains(res[k], n);
        if k < i { assert Contains(rs[k], n); }
        else if k > i { assert Contains(rs[k - 1], n); }
      }
      if Covers(rs, n) {
        var k :| 0 <= k < |rs| && Contains(rs[k], n);
        if k < i { assert Contains(res[k], n); } else { assert Contains(res[k + 1], n); }
      }
      if Contains(range, n) {
        assert Contains(res[i], n);
      }
    }
  }

  lemma MergeKeepsInvariant(range: OffsetRange, rs: seq<OffsetRange>, i: int, j: int, merged: OffsetRange)
    requires SortedDisjoint(rs) && 0 <= i < j <= |rs|
    requires forall k :: 0 <= k < i ==> rs[k].endExclusive < range.start
    requires rs[i].endExclusive >= range.start
    requires forall k :: i <= k < j ==> rs[k].start <= range.endExclusive
    requires j < |rs| ==> range.endExclusive < rs[j].start
    requires merged.start == (if range.start <= rs[i].start then range.start else rs[i].start)
    requires merged.endExclusive == (if range.endExclusive >= rs[j - 1].endExclusive then range.endExclusive else rs[j - 1].endExclusive)
    ensures SortedDisjoint(rs[..i] + [merged] + rs[j..])
    ensures forall n :: Covers(rs[..i] + [merged] + rs[j..], n) <==> Covers(rs, n) || Contains(range, n)
  {
    var res := rs[..i] + [merged] + rs[j..];
    assert forall k :: 0 <= k < i ==> res[k] == rs[k];
    assert res[i] == merged;
    assert forall k :: i < k < |res| ==> res[k] == rs[k + j - i - 1];
    MergedIsSorted(range, rs, i, j, merged, res);
    forall n
      ensures Covers(res, n) <==> Covers(rs, n) || Contains(range, n)
    {
      if Covers(res, n) {
        var k :| 0 <= k < |res| && Contains(res[k], n);
        if k < i {
          assert Contains(rs[k], n);
        } else if k > i {
          assert Contains(rs[k + j - i - 1], n);
        } else {
          MergedIsCovered(range, rs, i, j, n);
        }
      }
      if Covers(rs, n) {
        var k :| 0 <= k < |rs| && Contains(rs[k], n);
        if k < i {
          assert Contains(res[k], n);
        } else if k >= j {
          assert res[k - j + i + 1] == rs[k];
        } else {
          MergedContainsInner(rs, i, j, k, merged);
          assert Contains(res[i], n);
        }
      }
      if Contains(range, n) {
        assert Contains(res[i], n);
      }
    }
  }

  lemma MergedContainsInner(rs: seq<OffsetRange>, i: int, j: int, k: int, merged: OffsetRange)
    requires SortedDisjoint(rs) && 0 <= i <= k < j <= |rs|
    requires merged.start <= rs[i].start && rs[j - 1].endExclusive <= merged.endExclusive
    ensures ContainsRange(merged, rs[k])
  {
    if k > i { SortedDisjointOrdered(rs, i, k); }
    if k < j - 1 { SortedDisjointOrdered(rs, k, j - 1); }
  }

  lemma MergedIsSorted(range: OffsetRange, rs: seq<OffsetRange>, i: int, j: int, merged: OffsetRange, res: seq<OffsetRange>)
    requires SortedDisjoint(rs) && 0 <= i < j <= |rs|
    requires forall k :: 0 <= k < i ==> rs[k].endExclusive < range.start
    requires j < |rs| ==> range.endExclusive < rs[j].start
    requires merged.start == (if range.start <= rs[i].start then range.start else rs[i].start)
    requires merged.endExclusive == (if range.endExclusive >= rs[j - 1].endExclusive then range.endExclusive else rs[j - 1].endExclusive)
    requires res == rs[..i] + [merged] + rs[j..]
    ensures SortedDisjoint(res)
  {
    assert |res| == |rs| - (j - i) + 1;
    forall k | 0 <= k < |res| - 1
      ensures res[k].endExclusive < res[k + 1].start
    {
      if k + 1 < i {
        assert res[k] == rs[k] && res[k + 1] == rs[k + 1];
      } else if k + 1 == i {
        assert res[k] == rs[k] && res[k + 1] == merged;
        assert rs[i - 1].endExclusive < rs[i].start;
      } else if k == i {
        assert res[k + 1] == rs[j];
        assert rs[j - 1].endExclusive < rs[j].start;
      } else {
        assert res[k] == rs[k + j - i - 1] && res[k + 1] == rs[k + j - i];
      }
    }
  }

  /** Every offset of the merged range lies in `range` or in one of rs[i..j]. */
  lemma MergedIsCovered(range: OffsetRange, rs: seq<OffsetRange>, i: int, j: int, n: int)
    requires SortedDisjoint(rs) && 0 <= i < j <= |rs|
    requires rs[i].endExclusive >= range.start
    requires forall k :: i <= k < j ==> rs[k].start <= range.endExclusive
    requires (if range.start <= rs[i].start then range.start else rs[i].start) <= n
    requires n < (if range.endExclusive >= rs[j - 1].endExclusive then range.endExclusive else rs[j - 1].endExclusive)
    ensures Covers(rs, n) || Contains(range, n)
  {
    if !Contains(range, n) {
      if n < range.start {
        assert Contains(rs[i], n);
      } else {
        // n is at or after range's end, inside rs[j-1]'s reach
        assert n >= range.endExclusive;
        assert rs[j - 1].start <= range.endExclusive <= n;
        assert Contains(rs[j - 1], n);
      }
    }
  }
}
