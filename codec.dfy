/**
 * The `mappings` field of a Source Map Revision 3 file
 * (sourcemap/src/codec/codec.ts): lines separated by ';', segments by ',',
 * each segment 1, 4 or 5 VLQ fields relative to running totals.
 *
 * The 16 KiB output buffer of `encode` and its flushing through a text
 * decoder are modelled as appending to a string.
 */
module Codec {
  import opened Vlq

  /** A segment: generated column, then optionally source index, line and column, then optionally a name index. */
  datatype Segment =
    | Seg1(genColumn: int)
    | Seg4(genColumn: int, sourceIdx: int, sourceLine: int, sourceColumn: int)
    | Seg5(genColumn: int, sourceIdx: int, sourceLine: int, sourceColumn: int, nameIdx: int)
  {
    /** `withGenColumn`: the same kind of segment with only the generated column replaced. */
    function WithGenColumn(column: int): (r: Segment)
      ensures r.genColumn == column
      ensures r == this.(genColumn := column)
    {
      match this
      case Seg1(_) => Seg1(column)
      case Seg4(_, s, l, c) => Seg4(column, s, l, c)
      case Seg5(_, s, l, c, n) => Seg5(column, s, l, c, n)
    }

    /**
     * `withDeltaColumn`: shifts the generated column and, for a mapped
     * segment, the source column by the same amount.
     */
    function WithDeltaColumn(delta: int): (r: Segment)
      ensures r.genColumn == genColumn + delta
      ensures Seg1? ==> r == Seg1(genColumn + delta)
      ensures !Seg1? ==> r == this.(genColumn := genColumn + delta, sourceColumn := sourceColumn + delta)
    {
      match this
      case Seg1(g) => Seg1(g + delta)
      case Seg4(g, s, l, c) => Seg4(g + delta, s, l, c + delta)
      case Seg5(g, s, l, c, n) => Seg5(g + delta, s, l, c + delta, n)
    }
  }

  /** Shifting twice is shifting by the sum; shifting by zero changes nothing. */
  lemma WithDeltaColumnAdds(seg: Segment, a: int, b: int)
    ensures seg.WithDeltaColumn(a).WithDeltaColumn(b) == seg.WithDeltaColumn(a + b)
    ensures seg.WithDeltaColumn(0) == seg
  {
  }

  /** Replacing the generated column with its own value changes nothing, and the last replacement wins. */
  lemma WithGenColumnLaws(seg: Segment, a: int, b: int)
    ensures seg.WithGenColumn(seg.genColumn) == seg
    ensures seg.WithGenColumn(a).WithGenColumn(b) == seg.WithGenColumn(b)
  {
  }

  type Line = seq<Segment>
  type Mappings = seq<Line>

  /** The five running totals every field is relative to. */
  datatype Totals = Totals(genColumn: int, sourcesIndex: int, sourceLine: int, sourceColumn: int, namesIndex: int)

  const Start: Totals := Totals(0, 0, 0, 0, 0)

  // ---- decoding ----

  datatype SegmentRead = SegmentRead(seg: Segment, totals: Totals, posOut: nat)
  datatype LineRead = LineRead(line: Line, totals: Totals)

  /**
   * One segment starting at `i`: the generated column, then three more
   * fields if something other than a comma follows before `semi`, then a
   * name index under the same test.
   */
  function DecodeSegment(m: string, i: nat, semi: nat, t: Totals): (r: SegmentRead)
    ensures r.posOut > i
  {
    var g := DecodeInteger(m, i, t.genColumn);
    if HasMoreVlq(m, g.posOut, semi) then
      var s := DecodeInteger(m, g.posOut, t.sourcesIndex);
      var l := DecodeInteger(m, s.posOut, t.sourceLine);
      var c := DecodeInteger(m, l.posOut, t.sourceColumn);
      if HasMoreVlq(m, c.posOut, semi) then
        var n := DecodeInteger(m, c.posOut, t.namesIndex);
        SegmentRead(Seg5(g.value, s.value, l.value, c.value, n.value),
                    Totals(g.value, s.value, l.value, c.value, n.value), n.posOut)
      else
        SegmentRead(Seg4(g.value, s.value, l.value, c.value),
                    Totals(g.value, s.value, l.value, c.value, t.namesIndex), c.posOut)
    else
      SegmentRead(Seg1(g.value), t.(genColumn := g.value), g.posOut)
  }

  /** The segments from `i` to the line end `semi`: the for loop's test, then its body and the iterations after it. */
  function DecodeLine(m: string, i: nat, semi: nat, t: Totals): LineRead
    decreases semi - i, 1
  {
    if i >= semi then LineRead([], t) else DecodeSegmentThen(m, i, semi, t)
  }

  /** One segment at `i`, then the rest of the line from one past its `posOut`. */
  function DecodeSegmentThen(m: string, i: nat, semi: nat, t: Totals): LineRead
    requires i < semi
    decreases semi - i, 0
  {
    var r := DecodeSegment(m, i, semi, t);
    var rest := DecodeLine(m, r.posOut + 1, semi, r.totals);
    LineRead([r.seg] + rest.line, rest.totals)
  }

  /** The lines from `index` on: each ends at the next ';' or at the end, and starts from generated column 0. */
  function DecodeLines(m: string, index: nat, t: Totals): Mappings
    requires index <= |m|
    decreases |m| - index
  {
    var semi := IndexOf(m, Semicolon, index);
    var r := DecodeLine(m, index, semi, t.(genColumn := 0));
    [r.line] + (if semi + 1 <= |m| then DecodeLines(m, semi + 1, r.totals) else [])
  }

  /** What `decodeMappings` returns. */
  function MappingsOf(m: string): Mappings {
    DecodeLines(m, 0, Start)
  }

  /** `decodeInteger`'s five calls for one segment, each from the previous `posOut`. */
  method ReadSegment(m: string, i: nat, semi: nat, t: Totals) returns (r: SegmentRead)
    ensures r == DecodeSegment(m, i, semi, t)
  {
    var genColumn, posOut := DecodeIntegerLoop(m, i, t.genColumn);
    if HasMoreVlq(m, posOut, semi) {
      var sourcesIndex, p1 := DecodeIntegerLoop(m, posOut, t.sourcesIndex);
      var sourceLine, p2 := DecodeIntegerLoop(m, p1, t.sourceLine);
      var sourceColumn, p3 := DecodeIntegerLoop(m, p2, t.sourceColumn);
      if HasMoreVlq(m, p3, semi) {
        var namesIndex, p4 := DecodeIntegerLoop(m, p3, t.namesIndex);
        r := SegmentRead(Seg5(genColumn, sourcesIndex, sourceLine, sourceColumn, namesIndex),
                         Totals(genColumn, sourcesIndex, sourceLine, sourceColumn, namesIndex), p4);
      } else {
        r := SegmentRead(Seg4(genColumn, sourcesIndex, sourceLine, sourceColumn),
                         Totals(genColumn, sourcesIndex, sourceLine, sourceColumn, t.namesIndex), p3);
      }
    } else {
      r := SegmentRead(Seg1(genColumn), t.(genColumn := genColumn), posOut);
    }
  }

  /** The for loop of `decodeCallback` over the segments of one line. */
  method DecodeLineLoop(m: string, index: nat, semi: nat, start: Totals) returns (line: Line, t: Totals)
    ensures LineRead(line, t) == DecodeLine(m, index, semi, start)
  {
    t := start;
    line := [];
    var i := index;
    while i < semi
      invariant LineRead(line + DecodeLine(m, i, semi, t).line, DecodeLine(m, i, semi, t).totals)
        == DecodeLine(m, index, semi, start)
      decreases semi - i
    {
      var r := ReadSegment(m, i, semi, t);
      var rest := DecodeLine(m, r.posOut + 1, semi, r.totals);
      assert DecodeLine(m, i, semi, t) == DecodeSegmentThen(m, i, semi, t);
      assert DecodeSegmentThen(m, i, semi, t) == LineRead([r.seg] + rest.line, rest.totals);
      assert line + ([r.seg] + rest.line) == (line + [r.seg]) + rest.line;
      line := line + [r.seg];
      t := r.totals;
      i := r.posOut + 1;
    }
    assert DecodeLine(m, i, semi, t) == LineRead([], t);
    assert line + [] == line;
  }

  /**
   * `decodeMappings`: `decodeCallback`'s do-while over the lines and for
   * loop over the segments, with the callbacks that push each segment to
   * the current line and each line to the result.
   */
  method DecodeMappings(m: string) returns (result: Mappings)
    ensures result == MappingsOf(m)
  {
    result := [];
    var t := Start;
    var index := 0;
    while true
      invariant index <= |m|
      invariant result + DecodeLines(m, index, t) == MappingsOf(m)
      decreases |m| - index
    {
      var semi := IndexOf(m, Semicolon, index);
      var line, next := DecodeLineLoop(m, index, semi, t.(genColumn := 0));
      DecodeLinesUnfold(m, index, t, semi, LineRead(line, next));
      ghost var rest := if semi + 1 <= |m| then DecodeLines(m, semi + 1, next) else [];
      ConsAssoc(result, line, rest, MappingsOf(m));
      result := result + [line];
      t := next;
      index := semi + 1;
      if index > |m| {
        break;
      }
    }
  }

  lemma ConsAssoc<T>(done: seq<T>, x: T, rest: seq<T>, whole: seq<T>)
    requires done + ([x] + rest) == whole
    ensures (done + [x]) + rest == whole
    ensures rest == [] ==> done + [x] == whole
  {
  }

  // ---- encoding ----

  /** Text written and the running totals after it. */
  datatype Written = Written(text: string, totals: Totals)

  /** The fields `encode` writes for one segment, each relative to its running total. */
  function EncodeSegment(seg: Segment, t: Totals): Written {
    match seg
    case Seg1(g) =>
      Written(EncodeInteger(g, t.genColumn), t.(genColumn := g))
    case Seg4(g, s, l, c) =>
      Written(EncodeInteger(g, t.genColumn) + (EncodeInteger(s, t.sourcesIndex) +
              (EncodeInteger(l, t.sourceLine) + EncodeInteger(c, t.sourceColumn))),
              Totals(g, s, l, c, t.namesIndex))
    case Seg5(g, s, l, c, n) =>
      Written(EncodeInteger(g, t.genColumn) + (EncodeInteger(s, t.sourcesIndex) +
              (EncodeInteger(l, t.sourceLine) + (EncodeInteger(c, t.sourceColumn) +
              EncodeInteger(n, t.namesIndex)))),
              Totals(g, s, l, c, n))
  }

  /** The segments of a line from index `j` on, a ',' before every one but the first of the line. */
  function SegmentsFrom(line: Line, j: nat, t: Totals): Written
    decreases |line| - j, 1
  {
    if j >= |line| then Written("", t)
    else
      var r := SegmentsAt(line, j, t);
      Written((if j > 0 then [Comma] else []) + r.text, r.totals)
  }

  /** The segment at `j`, then the ones after it, each behind a ','. */
  function SegmentsAt(line: Line, j: nat, t: Totals): Written
    requires j < |line|
    decreases |line| - j, 0
  {
    var w := EncodeSegment(line[j], t);
    var rest := SegmentsFrom(line, j + 1, w.totals);
    Written(w.text + rest.text, rest.totals)
  }

  /** A line's text: nothing for an empty line, else its segments from generated column 0. */
  function LineBody(line: Line, t: Totals): Written {
    if |line| == 0 then Written("", t) else SegmentsFrom(line, 0, t.(genColumn := 0))
  }

  /** The lines from index `i` on, a ';' before every one but the first. */
  function LinesFrom(ms: Mappings, i: nat, t: Totals): Written
    decreases |ms| - i
  {
    if i >= |ms| then Written("", t)
    else
      var w := LineBody(ms[i], t);
      var rest := LinesFrom(ms, i + 1, w.totals);
      Written((if i > 0 then [Semicolon] else []) + w.text + rest.text, rest.totals)
  }

  /** What `encode` returns. */
  function Encoding(ms: Mappings): string {
    LinesFrom(ms, 0, Start).text
  }

  /** `encode`'s `instanceof` chain for one segment: each field through `encodeInteger`. */
  method WriteSegment(out: string, seg: Segment, t: Totals) returns (out': string, t': Totals)
    ensures out' == out + EncodeSegment(seg, t).text && t' == EncodeSegment(seg, t).totals
  {
    match seg {
    case Seg1(g) =>
      var genColumn;
      genColumn, out' := EncodeIntegerLoop(out, g, t.genColumn);
      t' := t.(genColumn := genColumn);
    case Seg4(g, s, l, c) =>
      out', t' := WriteSeg4(out, g, s, l, c, t);
    case Seg5(g, s, l, c, n) =>
      out', t' := WriteSeg5(out, g, s, l, c, n, t);
    }
  }

  method WriteSeg4(out: string, g: int, s: int, l: int, c: int, t: Totals) returns (out': string, t': Totals)
    ensures out' == out + EncodeSegment(Seg4(g, s, l, c), t).text
    ensures t' == EncodeSegment(Seg4(g, s, l, c), t).totals
  {
    var genColumn, o1 := EncodeIntegerLoop(out, g, t.genColumn);
    var sourcesIndex, o2 := EncodeIntegerLoop(o1, s, t.sourcesIndex);
    var sourceLine, o3 := EncodeIntegerLoop(o2, l, t.sourceLine);
    var sourceColumn, o4 := EncodeIntegerLoop(o3, c, t.sourceColumn);
    Append4(out, EncodeInteger(g, t.genColumn), EncodeInteger(s, t.sourcesIndex),
            EncodeInteger(l, t.sourceLine), EncodeInteger(c, t.sourceColumn), o1, o2, o3, o4);
    out' := o4;
    t' := Totals(genColumn, sourcesIndex, sourceLine, sourceColumn, t.namesIndex);
  }

  method WriteSeg5(out: string, g: int, s: int, l: int, c: int, n: int, t: Totals) returns (out': string, t': Totals)
    ensures out' == out + EncodeSegment(Seg5(g, s, l, c, n), t).text
    ensures t' == EncodeSegment(Seg5(g, s, l, c, n), t).totals
  {
    var genColumn, o1 := EncodeIntegerLoop(out, g, t.genColumn);
    var sourcesIndex, o2 := EncodeIntegerLoop(o1, s, t.sourcesIndex);
    var sourceLine, o3 := EncodeIntegerLoop(o2, l, t.sourceLine);
    var sourceColumn, o4 := EncodeIntegerLoop(o3, c, t.sourceColumn);
    var namesIndex, o5 := EncodeIntegerLoop(o4, n, t.namesIndex);
    Append5(out, EncodeInteger(g, t.genColumn), EncodeInteger(s, t.sourcesIndex),
            EncodeInteger(l, t.sourceLine), EncodeInteger(c, t.sourceColumn),
            EncodeInteger(n, t.namesIndex), o1, o2, o3, o4, o5);
    out' := o5;
    t' := Totals(genColumn, sourcesIndex, sourceLine, sourceColumn, namesIndex);
  }

  lemma Append4(o: string, a: string, b: string, c: string, d: string, o1: string, o2: string, o3: string, o4: string)
    requires o1 == o + a && o2 == o1 + b && o3 == o2 + c && o4 == o3 + d
    ensures o4 == o + (a + (b + (c + d)))
  {
  }

  lemma Append5(o: string, a: string, b: string, c: string, d: string, e: string,
                o1: string, o2: string, o3: string, o4: string, o5: string)
    requires o1 == o + a && o2 == o1 + b && o3 == o2 + c && o4 == o3 + d && o5 == o4 + e
    ensures o5 == o + (a + (b + (c + (d + e))))
  {
  }

  /** The inner loop of `encode` over the segments of a non-empty line, from generated column 0. */
  method WriteLine(out: string, line: Line, t: Totals) returns (out': string, t': Totals)
    requires |line| > 0
    ensures out' == out + LineBody(line, t).text && t' == LineBody(line, t).totals
  {
    out' := out;
    t' := t.(genColumn := 0);
    var j := 0;
    while j < |line|
      invariant 0 <= j <= |line|
      invariant out' + SegmentsFrom(line, j, t').text == out + LineBody(line, t).text
      invariant SegmentsFrom(line, j, t').totals == LineBody(line, t).totals
    {
      ghost var o := out';
      ghost var tj := t';
      ghost var sep: string := if j > 0 then [Comma] else [];
      ghost var w := EncodeSegment(line[j], t');
      ghost var next := SegmentsFrom(line, j + 1, w.totals);
      SegmentsFromStep(line, j, t');
      if j > 0 {
        out' := out' + [Comma];
      } else {
        AppendEmpty(out');
      }
      out', t' := WriteSegment(out', line[j], t');
      Reassociate(o, sep, w.text, next.text, SegmentsFrom(line, j, tj).text, out + LineBody(line, t).text);
      j := j + 1;
    }
    AppendEmpty(out');
  }

  lemma SegmentsFromStep(line: Line, j: nat, t: Totals)
    requires j < |line|
    ensures var w := EncodeSegment(line[j], t);
      var next := SegmentsFrom(line, j + 1, w.totals);
      SegmentsFrom(line, j, t) == Written((if j > 0 then [Comma] else []) + w.text + next.text, next.totals)
  {
    var sep: string := if j > 0 then [Comma] else [];
    var w := EncodeSegment(line[j], t);
    var next := SegmentsFrom(line, j + 1, w.totals);
    assert SegmentsFrom(line, j, t).text == sep + (w.text + next.text);
    assert sep + (w.text + next.text) == sep + w.text + next.text;
  }

  lemma LinesFromStep(ms: Mappings, i: nat, t: Totals)
    requires i < |ms|
    ensures var w := LineBody(ms[i], t);
      var next := LinesFrom(ms, i + 1, w.totals);
      LinesFrom(ms, i, t) == Written((if i > 0 then [Semicolon] else []) + w.text + next.text, next.totals)
  {
  }

  lemma AppendEmpty(x: string)
    ensures x + [] == x
  {
  }

  lemma Reassociate(o: string, sep: string, w: string, next: string, whole: string, x: string)
    requires whole == sep + w + next && o + whole == x
    ensures o + sep + w + next == x
  {
  }

  /** `encode`: the loop over lines and, inside it, over segments. */
  method Encode(ms: Mappings) returns (out: string)
    ensures out == Encoding(ms)
  {
    out := "";
    var t := Start;
    var i := 0;
    while i < |ms|
      invariant 0 <= i <= |ms|
      invariant out + LinesFrom(ms, i, t).text == Encoding(ms)
    {
      var line := ms[i];
      ghost var o := out;
      ghost var t0 := t;
      ghost var body := LineBody(line, t0);
      ghost var sep: string := if i > 0 then [Semicolon] else [];
      ghost var next := LinesFrom(ms, i + 1, body.totals);
      LinesFromStep(ms, i, t0);
      if i > 0 {
        out := out + [Semicolon];
      } else {
        AppendEmpty(out);
      }
      if |line| == 0 {
        AppendEmpty(out);
        Reassociate(o, sep, body.text, next.text, LinesFrom(ms, i, t0).text, Encoding(ms));
        i := i + 1;
        continue;
      }
      out, t := WriteLine(out, line, t);
      Reassociate(o, sep, body.text, next.text, LinesFrom(ms, i, t0).text, Encoding(ms));
      i := i + 1;
    }
  }

  // ---- properties ----

  /** The number of lines from `index` on: one, plus those after the next ';' if there is one. */
  function LinesFromIndex(m: string, index: nat): nat
    requires index <= |m|
    decreases |m| - index
  {
    var semi := IndexOf(m, Semicolon, index);
    1 + (if semi + 1 <= |m| then LinesFromIndex(m, semi + 1) else 0)
  }

  /** The decoder yields one line per line end. */
  lemma {:induction false} DecodeLinesCount(m: string, index: nat, t: Totals)
    requires index <= |m|
    ensures |DecodeLines(m, index, t)| == LinesFromIndex(m, index)
    decreases |m| - index
  {
    var semi := IndexOf(m, Semicolon, index);
    var next := DecodeLine(m, index, semi, t.(genColumn := 0)).totals;
    DecodeLinesLength(m, index, t, semi, next);
    if semi + 1 <= |m| {
      DecodeLinesCount(m, semi + 1, next);
      LinesFromIndexStep(m, index, semi);
    }
  }

  lemma LinesFromIndexStep(m: string, index: nat, semi: nat)
    requires index <= |m| && semi == IndexOf(m, Semicolon, index) && semi + 1 <= |m|
    ensures LinesFromIndex(m, index) == 1 + LinesFromIndex(m, semi + 1)
  {
  }

  /** There is one line per ';' plus one. */
  lemma {:induction false} LinesFromIndexCount(m: string, index: nat)
    requires index <= |m|
    ensures LinesFromIndex(m, index) == multiset(m[index..])[Semicolon] + 1
    decreases |m| - index
  {
    var semi := IndexOf(m, Semicolon, index);
    IndexOfSkips(m, Semicolon, index);
    CountAtLineEnd(m, index, semi);
    if semi + 1 <= |m| {
      LinesFromIndexCount(m, semi + 1);
    }
  }

  /** One line, then the lines after its ';' from the totals it ends with. */
  lemma DecodeLinesLength(m: string, index: nat, t: Totals, semi: nat, next: Totals)
    requires index <= |m| && semi == IndexOf(m, Semicolon, index)
    requires next == DecodeLine(m, index, semi, t.(genColumn := 0)).totals
    ensures semi + 1 <= |m| ==> |DecodeLines(m, index, t)| == 1 + |DecodeLines(m, semi + 1, next)|
    ensures semi + 1 > |m| ==> |DecodeLines(m, index, t)| == 1
  {
  }

  /** The ';' from `index` on: none before the line end `semi`, then the one at `semi` if any. */
  lemma CountAtLineEnd(m: string, index: nat, semi: nat)
    requires index <= semi <= |m|
    requires semi < |m| ==> m[semi] == Semicolon
    requires forall k :: index <= k < semi ==> m[k] != Semicolon
    ensures multiset(m[index..])[Semicolon] ==
      if semi < |m| then 1 + multiset(m[semi + 1..])[Semicolon] else 0
  {
    assert m[index..] == m[index..semi] + m[semi..];
    assert Semicolon !in m[index..semi];
    if semi < |m| {
      assert m[semi..] == [m[semi]] + m[semi + 1..];
    } else {
      assert m[semi..] == [];
    }
  }

  /** `decodeMappings` yields exactly (number of ';') + 1 lines. */
  lemma LineCount(m: string)
    ensures |MappingsOf(m)| == multiset(m)[Semicolon] + 1
  {
    DecodeLinesCount(m, 0, Start);
    LinesFromIndexCount(m, 0);
    assert m[0..] == m;
  }

  /**
   * Every line starts from generated column 0: the generated column
   * carried in from the previous line has no effect, unlike the other four
   * totals.
   */
  lemma LinesIgnoreGenColumn(m: string, index: nat, t: Totals, column: int)
    requires index <= |m|
    ensures DecodeLines(m, index, t.(genColumn := column)) == DecodeLines(m, index, t)
  {
    assert t.(genColumn := column).(genColumn := 0) == t.(genColumn := 0);
  }

  /** The encoder writes one ';' between consecutive lines, whatever they hold. */
  lemma {:induction false} LinesFromSemicolons(ms: Mappings, i: nat, t: Totals)
    requires i < |ms|
    ensures multiset(LinesFrom(ms, i, t).text)[Semicolon] == (if i > 0 then |ms| - i else |ms| - 1)
    decreases |ms| - i
  {
    var body := LineBody(ms[i], t);
    var next := LinesFrom(ms, i + 1, body.totals);
    var sep: string := if i > 0 then [Semicolon] else [];
    LinesFromStep(ms, i, t);
    LineBodyNoSemicolon(ms[i], t);
    assert multiset(sep + body.text + next.text) == multiset(sep) + multiset(body.text) + multiset(next.text);
    if i + 1 < |ms| {
      LinesFromSemicolons(ms, i + 1, body.totals);
    }
  }

  /** `encode` of non-empty mappings holds one ';' fewer than it has lines. */
  lemma EncodingSemicolons(ms: Mappings)
    requires |ms| >= 1
    ensures multiset(Encoding(ms))[Semicolon] == |ms| - 1
  {
    LinesFromSemicolons(ms, 0, Start);
  }

  lemma {:induction false} SegmentsFromNoSemicolon(line: Line, j: nat, t: Totals)
    ensures Semicolon !in SegmentsFrom(line, j, t).text
    decreases |line| - j
  {
    if j < |line| {
      var w := EncodeSegment(line[j], t);
      SegmentsFromNoSemicolon(line, j + 1, w.totals);
      SegmentNoSeparator(line[j], t);
      SegmentsFromStep(line, j, t);
    }
  }

  lemma LineBodyNoSemicolon(line: Line, t: Totals)
    ensures Semicolon !in LineBody(line, t).text
  {
    if |line| > 0 {
      SegmentsFromNoSemicolon(line, 0, t.(genColumn := 0));
    }
  }

  /** A segment's text is base64 digits only, starting with one. */
  lemma SegmentNoSeparator(seg: Segment, t: Totals)
    ensures |EncodeSegment(seg, t).text| >= 1
    ensures Semicolon !in EncodeSegment(seg, t).text && Comma !in EncodeSegment(seg, t).text
  {
    EncodeIntegerChars(seg.genColumn, t.genColumn);
    if !seg.Seg1? {
      EncodeIntegerChars(seg.sourceIdx, t.sourcesIndex);
      EncodeIntegerChars(seg.sourceLine, t.sourceLine);
      EncodeIntegerChars(seg.sourceColumn, t.sourceColumn);
    }
    if seg.Seg5? {
      EncodeIntegerChars(seg.nameIdx, t.namesIndex);
    }
  }

  // ---- the round trip ----

  /** Every field's delta fits the 32-bit zigzag range. */
  predicate InVlqRange(delta: int) {
    -0x8000_0000 <= delta < 0x8000_0000
  }

  predicate SegmentFits(seg: Segment, t: Totals) {
    InVlqRange(seg.genColumn - t.genColumn) &&
    (!seg.Seg1? ==>
      InVlqRange(seg.sourceIdx - t.sourcesIndex) && InVlqRange(seg.sourceLine - t.sourceLine) &&
      InVlqRange(seg.sourceColumn - t.sourceColumn)) &&
    (seg.Seg5? ==> InVlqRange(seg.nameIdx - t.namesIndex))
  }

  predicate SegmentsFit(line: Line, j: nat, t: Totals)
    decreases |line| - j
  {
    j >= |line| || (SegmentFits(line[j], t) && SegmentsFit(line, j + 1, EncodeSegment(line[j], t).totals))
  }

  predicate LinesFit(ms: Mappings, i: nat, t: Totals)
    decreases |ms| - i
  {
    i >= |ms| ||
    ((|ms[i]| == 0 || SegmentsFit(ms[i], 0, t.(genColumn := 0))) && LinesFit(ms, i + 1, LineBody(ms[i], t).totals))
  }

  /** The mappings whose every delta against the running totals fits the VLQ range. */
  predicate Encodable(ms: Mappings) {
    LinesFit(ms, 0, Start)
  }

  /** `m` holds `s` at position `i`. */
  predicate StartsAt(m: string, i: nat, s: string) {
    i + |s| <= |m| && forall k :: 0 <= k < |s| ==> m[i + k] == s[k]
  }

  lemma StartsAtSlice(m: string, i: nat, s: string)
    requires StartsAt(m, i, s)
    ensures m[i..i + |s|] == s
  {
    forall k | 0 <= k < |s|
      ensures m[i..i + |s|][k] == s[k]
    {
      assert m[i + k] == s[k];
    }
  }

  lemma StartsAtSplit(m: string, i: nat, a: string, b: string)
    requires StartsAt(m, i, a + b)
    ensures StartsAt(m, i, a) && StartsAt(m, i + |a|, b)
  {
    forall k | 0 <= k < |a|
      ensures m[i + k] == a[k]
    {
      assert (a + b)[k] == a[k];
    }
    forall k | 0 <= k < |b|
      ensures m[i + |a| + k] == b[k]
    {
      assert (a + b)[|a| + k] == b[k];
      assert i + (|a| + k) == i + |a| + k;
    }
  }

  /** The character after a field: what follows its digits decides whether another field is read. */
  lemma StartsAtFirst(m: string, i: nat, s: string)
    requires StartsAt(m, i, s) && |s| >= 1
    ensures i < |m| && m[i] == s[0]
  {
    assert m[i + 0] == s[0];
  }

  /** One field: the decoder reads back what the encoder wrote at `p`, and the next field starts at `q`. */
  lemma Field(m: string, p: nat, q: nat, F: string, num: int, relative: int)
    requires F == EncodeInteger(num, relative) && InVlqRange(num - relative)
    requires StartsAt(m, p, F) && q == p + |F|
    ensures DecodeInteger(m, p, relative) == Decoded(num, q)
  {
    StartsAtSlice(m, p, F);
    DecodeOfEncode(m, p, num, relative);
  }

  /** A field follows at `p` before the line end: the segment goes on. */
  lemma MoreAt(m: string, p: nat, semi: nat, num: int, relative: int)
    requires StartsAt(m, p, EncodeInteger(num, relative)) && p + |EncodeInteger(num, relative)| <= semi
    ensures HasMoreVlq(m, p, semi)
  {
    var F := EncodeInteger(num, relative);
    EncodeIntegerChars(num, relative);
    StartsAtFirst(m, p, F);
    assert F[0] in F;
  }

  /** Where the four fields of a mapped segment sit. */
  lemma Split4(m: string, i: nat, G: string, S: string, L: string, C: string)
    requires StartsAt(m, i, G + (S + (L + C)))
    ensures StartsAt(m, i, G) && StartsAt(m, i + |G|, S)
    ensures StartsAt(m, i + |G| + |S|, L) && StartsAt(m, i + |G| + |S| + |L|, C)
    ensures |G + (S + (L + C))| == |G| + |S| + |L| + |C|
  {
    StartsAtSplit(m, i, G, S + (L + C));
    StartsAtSplit(m, i + |G|, S, L + C);
    StartsAtSplit(m, i + |G| + |S|, L, C);
  }

  /** Where the five fields of a named segment sit. */
  lemma Split5(m: string, i: nat, G: string, S: string, L: string, C: string, N: string)
    requires StartsAt(m, i, G + (S + (L + (C + N))))
    ensures StartsAt(m, i, G) && StartsAt(m, i + |G|, S)
    ensures StartsAt(m, i + |G| + |S|, L) && StartsAt(m, i + |G| + |S| + |L|, C)
    ensures StartsAt(m, i + |G| + |S| + |L| + |C|, N)
    ensures |G + (S + (L + (C + N)))| == |G| + |S| + |L| + |C| + |N|
  {
    StartsAtSplit(m, i, G, S + (L + (C + N)));
    StartsAtSplit(m, i + |G|, S, L + (C + N));
    StartsAtSplit(m, i + |G| + |S|, L, C + N);
    StartsAtSplit(m, i + |G| + |S| + |L|, C, N);
  }

  /**
   * The decoder reads back one segment the encoder wrote, when a ',' or the
   * line end follows it, and stops right after it.
   */
  lemma DecodeSegmentOfEncode(seg: Segment, t: Totals, m: string, i: nat, semi: nat)
    requires SegmentFits(seg, t)
    requires var text := EncodeSegment(seg, t).text;
      StartsAt(m, i, text) && i + |text| <= semi <= |m| && (i + |text| == semi || m[i + |text|] == Comma)
    ensures DecodeSegment(m, i, semi, t) == SegmentRead(seg, EncodeSegment(seg, t).totals, i + |EncodeSegment(seg, t).text|)
  {
    match seg
    case Seg1(g) =>
      DecodeSeg1Of(g, t, m, i, semi);
    case Seg4(g, s, l, c) =>
      DecodeSeg4Of(g, s, l, c, t, m, i, semi);
    case Seg5(g, s, l, c, n) =>
      DecodeSeg5Of(g, s, l, c, n, t, m, i, semi);
  }

  lemma DecodeSeg1Of(g: int, t: Totals, m: string, i: nat, semi: nat)
    requires InVlqRange(g - t.genColumn)
    requires var G := EncodeInteger(g, t.genColumn);
      StartsAt(m, i, G) && i + |G| <= semi <= |m| && (i + |G| == semi || m[i + |G|] == Comma)
    ensures DecodeSegment(m, i, semi, t) ==
      SegmentRead(Seg1(g), t.(genColumn := g), i + |EncodeInteger(g, t.genColumn)|)
  {
    var G := EncodeInteger(g, t.genColumn);
    Field(m, i, i + |G|, G, g, t.genColumn);
    DecodeSeg1(m, i, semi, t, g, i + |G|);
  }

  lemma DecodeSeg4Of(g: int, s: int, l: int, c: int, t: Totals, m: string, i: nat, semi: nat)
    requires InVlqRange(g - t.genColumn) && InVlqRange(s - t.sourcesIndex)
    requires InVlqRange(l - t.sourceLine) && InVlqRange(c - t.sourceColumn)
    requires var text := EncodeSegment(Seg4(g, s, l, c), t).text;
      StartsAt(m, i, text) && i + |text| <= semi <= |m| && (i + |text| == semi || m[i + |text|] == Comma)
    ensures DecodeSegment(m, i, semi, t) ==
      SegmentRead(Seg4(g, s, l, c), Totals(g, s, l, c, t.namesIndex), i + |EncodeSegment(Seg4(g, s, l, c), t).text|)
  {
    var G, S, L, C := EncodeInteger(g, t.genColumn), EncodeInteger(s, t.sourcesIndex),
      EncodeInteger(l, t.sourceLine), EncodeInteger(c, t.sourceColumn);
    Split4(m, i, G, S, L, C);
    var p1 := i + |G|;
    var p2 := i + |G| + |S|;
    var p3 := i + |G| + |S| + |L|;
    var p4 := i + |G| + |S| + |L| + |C|;
    Field(m, i, p1, G, g, t.genColumn);
    Field(m, p1, p2, S, s, t.sourcesIndex);
    Field(m, p2, p3, L, l, t.sourceLine);
    Field(m, p3, p4, C, c, t.sourceColumn);
    MoreAt(m, p1, semi, s, t.sourcesIndex);
    DecodeSeg4(m, i, semi, t, g, s, l, c, p1, p2, p3, p4);
  }

  lemma DecodeSeg5Of(g: int, s: int, l: int, c: int, n: int, t: Totals, m: string, i: nat, semi: nat)
    requires InVlqRange(g - t.genColumn) && InVlqRange(s - t.sourcesIndex)
    requires InVlqRange(l - t.sourceLine) && InVlqRange(c - t.sourceColumn)
    requires InVlqRange(n - t.namesIndex)
    requires var text := EncodeSegment(Seg5(g, s, l, c, n), t).text;
      StartsAt(m, i, text) && i + |text| <= semi <= |m| && (i + |text| == semi || m[i + |text|] == Comma)
    ensures DecodeSegment(m, i, semi, t) ==
      SegmentRead(Seg5(g, s, l, c, n), Totals(g, s, l, c, n), i + |EncodeSegment(Seg5(g, s, l, c, n), t).text|)
  {
    var G, S, L, C := EncodeInteger(g, t.genColumn), EncodeInteger(s, t.sourcesIndex),
      EncodeInteger(l, t.sourceLine), EncodeInteger(c, t.sourceColumn);
    var N := EncodeInteger(n, t.namesIndex);
    Split5(m, i, G, S, L, C, N);
    var p1 := i + |G|;
    var p2 := i + |G| + |S|;
    var p3 := i + |G| + |S| + |L|;
    var p4 := i + |G| + |S| + |L| + |C|;
    var p5 := i + |G| + |S| + |L| + |C| + |N|;
    Field(m, i, p1, G, g, t.genColumn);
    Field(m, p1, p2, S, s, t.sourcesIndex);
    Field(m, p2, p3, L, l, t.sourceLine);
    Field(m, p3, p4, C, c, t.sourceColumn);
    Field(m, p4, p5, N, n, t.namesIndex);
    MoreAt(m, p1, semi, s, t.sourcesIndex);
    MoreAt(m, p4, semi, n, t.namesIndex);
    DecodeSeg5(m, i, semi, t, g, s, l, c, n, p1, p2, p3, p4, p5);
  }

  /** `decodeCallback` with one field read before a ',' or the line end. */
  lemma DecodeSeg1(m: string, i: nat, semi: nat, t: Totals, g: int, p1: nat)
    requires DecodeInteger(m, i, t.genColumn) == Decoded(g, p1) && !HasMoreVlq(m, p1, semi)
    ensures DecodeSegment(m, i, semi, t) == SegmentRead(Seg1(g), t.(genColumn := g), p1)
  {
  }

  /** `decodeCallback` with four fields read. */
  lemma DecodeSeg4(m: string, i: nat, semi: nat, t: Totals, g: int, s: int, l: int, c: int,
                   p1: nat, p2: nat, p3: nat, p4: nat)
    requires DecodeInteger(m, i, t.genColumn) == Decoded(g, p1) && HasMoreVlq(m, p1, semi)
    requires DecodeInteger(m, p1, t.sourcesIndex) == Decoded(s, p2)
    requires DecodeInteger(m, p2, t.sourceLine) == Decoded(l, p3)
    requires DecodeInteger(m, p3, t.sourceColumn) == Decoded(c, p4) && !HasMoreVlq(m, p4, semi)
    ensures DecodeSegment(m, i, semi, t) == SegmentRead(Seg4(g, s, l, c), Totals(g, s, l, c, t.namesIndex), p4)
  {
  }

  /** `decodeCallback` with five fields read. */
  lemma DecodeSeg5(m: string, i: nat, semi: nat, t: Totals, g: int, s: int, l: int, c: int, n: int,
                   p1: nat, p2: nat, p3: nat, p4: nat, p5: nat)
    requires DecodeInteger(m, i, t.genColumn) == Decoded(g, p1) && HasMoreVlq(m, p1, semi)
    requires DecodeInteger(m, p1, t.sourcesIndex) == Decoded(s, p2)
    requires DecodeInteger(m, p2, t.sourceLine) == Decoded(l, p3)
    requires DecodeInteger(m, p3, t.sourceColumn) == Decoded(c, p4) && HasMoreVlq(m, p4, semi)
    requires DecodeInteger(m, p4, t.namesIndex) == Decoded(n, p5)
    ensures DecodeSegment(m, i, semi, t) == SegmentRead(Seg5(g, s, l, c, n), Totals(g, s, l, c, n), p5)
  {
  }

  // ---- lines ----

  lemma SegmentsFromTail(line: Line, j: nat, t: Totals)
    requires j < |line|
    ensures j > 0 ==> SegmentsFrom(line, j, t).text == [Comma] + SegmentsAt(line, j, t).text
    ensures j == 0 ==> SegmentsFrom(line, j, t).text == SegmentsAt(line, j, t).text
    ensures SegmentsFrom(line, j, t).totals == SegmentsAt(line, j, t).totals
  {
    EmptyPrefix(SegmentsAt(line, j, t).text);
  }

  lemma EmptyPrefix(x: string)
    ensures [] + x == x
  {
  }

  lemma SeqCons<T>(s: seq<T>, j: nat)
    requires j < |s|
    ensures s[j..] == [s[j]] + s[j + 1..]
  {
  }

  /** `s` starts with the character `c`, and `rest` follows it. */
  lemma CharThen(m: string, q: nat, c: char, rest: string)
    requires StartsAt(m, q, [c] + rest)
    ensures q < |m| && m[q] == c && StartsAt(m, q + 1, rest)
  {
    StartsAtSplit(m, q, [c], rest);
    StartsAtFirst(m, q, [c]);
  }

  /** A character absent from `s` is absent from the place where `s` sits. */
  lemma NotInAt(m: string, index: nat, s: string, c: char)
    requires StartsAt(m, index, s) && c !in s
    ensures forall q :: index <= q < index + |s| ==> m[q] != c
  {
    forall q | index <= q < index + |s|
      ensures m[q] != c
    {
      assert m[index + (q - index)] == s[q - index];
    }
  }

  /** `indexOf` finds the first `c` from `index`, or the end. */
  lemma IndexOfAt(m: string, c: char, index: nat, k: nat)
    requires index <= k <= |m|
    requires forall q :: index <= q < k ==> m[q] != c
    requires k < |m| ==> m[k] == c
    ensures IndexOf(m, c, index) == k
  {
    IndexOfSkips(m, c, index);
  }

  /**
   * The segments the encoder wrote from `j` on, up to the line end `semi`,
   * read back, with the totals after the last of them.
   */
  lemma {:induction false} DecodeLineOfEncode(line: Line, j: nat, t: Totals, m: string, i: nat, semi: nat)
    requires j < |line| && SegmentsFit(line, j, t)
    requires StartsAt(m, i, SegmentsAt(line, j, t).text) && i + |SegmentsAt(line, j, t).text| == semi <= |m|
    ensures DecodeLine(m, i, semi, t) == LineRead(line[j..], SegmentsAt(line, j, t).totals)
    decreases |line| - j
  {
    var w := EncodeSegment(line[j], t);
    SegmentsAtSplit(line, j, t, m, i, semi);
    if j + 1 < |line| {
      DecodeLineOfEncode(line, j + 1, w.totals, m, i + |w.text| + 1, semi);
    }
    DecodeLineStep(line, j, t, m, i, semi);
  }

  /** Where the segment at `j` and the ones after it sit. */
  lemma SegmentsAtSplit(line: Line, j: nat, t: Totals, m: string, i: nat, semi: nat)
    requires j < |line|
    requires StartsAt(m, i, SegmentsAt(line, j, t).text) && i + |SegmentsAt(line, j, t).text| == semi <= |m|
    ensures var w := EncodeSegment(line[j], t);
      var q := i + |w.text|;
      StartsAt(m, i, w.text) && q <= semi &&
      (j + 1 == |line| ==> q == semi) &&
      (j + 1 < |line| ==>
        q < semi && m[q] == Comma &&
        StartsAt(m, q + 1, SegmentsAt(line, j + 1, w.totals).text) &&
        q + 1 + |SegmentsAt(line, j + 1, w.totals).text| == semi)
  {
    var w := EncodeSegment(line[j], t);
    var rest := SegmentsFrom(line, j + 1, w.totals);
    StartsAtSplit(m, i, w.text, rest.text);
    if j + 1 < |line| {
      SegmentsFromTail(line, j + 1, w.totals);
      CharThen(m, i + |w.text|, Comma, SegmentsAt(line, j + 1, w.totals).text);
    }
  }

  /** One segment read back, then the rest of the line. */
  lemma DecodeLineStep(line: Line, j: nat, t: Totals, m: string, i: nat, semi: nat)
    requires j < |line|
    requires SegmentFits(line[j], t)
    requires semi <= |m|
    requires StartsAt(m, i, EncodeSegment(line[j], t).text)
    requires i + |EncodeSegment(line[j], t).text| <= semi
    requires j + 1 == |line| ==> i + |EncodeSegment(line[j], t).text| == semi
    requires j + 1 < |line| ==> i + |EncodeSegment(line[j], t).text| < semi
    requires j + 1 < |line| ==> m[i + |EncodeSegment(line[j], t).text|] == Comma
    requires j + 1 < |line| ==>
      DecodeLine(m, i + |EncodeSegment(line[j], t).text| + 1, semi, EncodeSegment(line[j], t).totals) ==
      LineRead(line[j + 1..], SegmentsAt(line, j + 1, EncodeSegment(line[j], t).totals).totals)
    ensures DecodeLine(m, i, semi, t) == LineRead(line[j..], SegmentsAt(line, j, t).totals)
  {
    var w := EncodeSegment(line[j], t);
    var rest := DecodeLine(m, i + |w.text| + 1, semi, w.totals);
    DecodeSegmentThenOfEncode(line[j], t, m, i, semi, rest);
    if j + 1 < |line| {
      SegmentsFromTail(line, j + 1, w.totals);
    }
    SeqCons(line, j);
  }

  /** The decoder reads back one segment the encoder wrote, then goes on one past it. */
  lemma DecodeSegmentThenOfEncode(seg: Segment, t: Totals, m: string, i: nat, semi: nat, rest: LineRead)
    requires SegmentFits(seg, t)
    requires var text := EncodeSegment(seg, t).text;
      StartsAt(m, i, text) && i + |text| <= semi <= |m| && (i + |text| == semi || m[i + |text|] == Comma)
    requires rest == DecodeLine(m, i + |EncodeSegment(seg, t).text| + 1, semi, EncodeSegment(seg, t).totals)
    ensures DecodeLine(m, i, semi, t) == LineRead([seg] + rest.line, rest.totals)
  {
    SegmentNoSeparator(seg, t);
    DecodeSegmentOfEncode(seg, t, m, i, semi);
    assert DecodeLine(m, i, semi, t) == DecodeSegmentThen(m, i, semi, t);
  }

  /** A line's text read back up to its end `semi`: the same segments, and the totals the encoder ends with. */
  lemma DecodeLineOfBody(line: Line, t: Totals, m: string, index: nat, semi: nat)
    requires |line| == 0 || SegmentsFit(line, 0, t.(genColumn := 0))
    requires StartsAt(m, index, LineBody(line, t).text) && index + |LineBody(line, t).text| == semi <= |m|
    ensures DecodeLine(m, index, semi, t.(genColumn := 0)).line == line
    ensures DecodeLine(m, index, semi, t.(genColumn := 0)).totals.(genColumn := 0) ==
      LineBody(line, t).totals.(genColumn := 0)
  {
    if |line| > 0 {
      SegmentsFromTail(line, 0, t.(genColumn := 0));
      DecodeLineOfEncode(line, 0, t.(genColumn := 0), m, index, semi);
      assert line[0..] == line;
    }
  }

  /** The lines from `i` on, without the ';' in front of the first of them. */
  function LineTail(ms: Mappings, i: nat, t: Totals): string
    requires i < |ms|
  {
    var w := LineBody(ms[i], t);
    w.text + LinesFrom(ms, i + 1, w.totals).text
  }

  lemma LinesFromTail(ms: Mappings, i: nat, t: Totals)
    requires i < |ms|
    ensures i > 0 ==> LinesFrom(ms, i, t).text == [Semicolon] + LineTail(ms, i, t)
    ensures i == 0 ==> LinesFrom(ms, i, t).text == LineTail(ms, i, t)
  {
    var w := LineBody(ms[i], t);
    var next := LinesFrom(ms, i + 1, w.totals);
    var sep: string := if i > 0 then [Semicolon] else [];
    LinesFromStep(ms, i, t);
    assert sep + w.text + next.text == sep + (w.text + next.text);
    EmptyPrefix(w.text + next.text);
  }

  lemma DecodeLinesUnfold(m: string, index: nat, t: Totals, semi: nat, r: LineRead)
    requires index <= |m| && semi == IndexOf(m, Semicolon, index)
    requires r == DecodeLine(m, index, semi, t.(genColumn := 0))
    ensures DecodeLines(m, index, t) == [r.line] + (if semi + 1 <= |m| then DecodeLines(m, semi + 1, r.totals) else [])
  {
  }

  /** The lines the encoder wrote from `i` on, to the end of `m`, read back. */
  lemma {:induction false} DecodeLinesOfEncode(ms: Mappings, i: nat, t: Totals, m: string, index: nat)
    requires i < |ms| && LinesFit(ms, i, t)
    requires StartsAt(m, index, LineTail(ms, i, t)) && index + |LineTail(ms, i, t)| == |m|
    ensures DecodeLines(m, index, t) == ms[i..]
    decreases |ms| - i
  {
    var body := LineBody(ms[i], t);
    var semi := index + |body.text|;
    LineTailSplit(ms, i, t, m, index);
    DecodeLineOfBody(ms[i], t, m, index, semi);
    if i + 1 < |ms| {
      DecodeLinesOfEncode(ms, i + 1, body.totals, m, semi + 1);
    }
    DecodeLinesStep(ms, i, t, body.totals, m, index, semi);
  }

  /** Where line `i` and the lines after it sit; the line ends at the next ';' or at the end. */
  lemma LineTailSplit(ms: Mappings, i: nat, t: Totals, m: string, index: nat)
    requires i < |ms|
    requires StartsAt(m, index, LineTail(ms, i, t)) && index + |LineTail(ms, i, t)| == |m|
    ensures var body := LineBody(ms[i], t);
      var semi := index + |body.text|;
      StartsAt(m, index, body.text) && semi <= |m| && IndexOf(m, Semicolon, index) == semi &&
      (i + 1 == |ms| ==> semi == |m|) &&
      (i + 1 < |ms| ==>
        semi < |m| &&
        StartsAt(m, semi + 1, LineTail(ms, i + 1, body.totals)) && semi + 1 + |LineTail(ms, i + 1, body.totals)| == |m|)
  {
    var body := LineBody(ms[i], t);
    var rest := LinesFrom(ms, i + 1, body.totals);
    var semi := index + |body.text|;
    StartsAtSplit(m, index, body.text, rest.text);
    LineBodyNoSemicolon(ms[i], t);
    NotInAt(m, index, body.text, Semicolon);
    if i + 1 < |ms| {
      LinesFromTail(ms, i + 1, body.totals);
      CharThen(m, semi, Semicolon, LineTail(ms, i + 1, body.totals));
    }
    IndexOfAt(m, Semicolon, index, semi);
  }

  /**
   * One line read back, then the lines after it: `lineTotals` are the
   * totals the encoder ends the line with.
   */
  lemma DecodeLinesStep(ms: Mappings, i: nat, t: Totals, lineTotals: Totals, m: string, index: nat, semi: nat)
    requires i < |ms| && index <= semi <= |m| && semi == IndexOf(m, Semicolon, index)
    requires DecodeLine(m, index, semi, t.(genColumn := 0)).line == ms[i]
    requires DecodeLine(m, index, semi, t.(genColumn := 0)).totals.(genColumn := 0) == lineTotals.(genColumn := 0)
    requires i + 1 == |ms| ==> semi == |m|
    requires i + 1 < |ms| ==> semi < |m| && DecodeLines(m, semi + 1, lineTotals) == ms[i + 1..]
    ensures DecodeLines(m, index, t) == ms[i..]
  {
    var r := DecodeLine(m, index, semi, t.(genColumn := 0));
    DecodeLinesUnfold(m, index, t, semi, r);
    if i + 1 < |ms| {
      SameLines(m, semi + 1, r.totals, lineTotals);
      SeqCons(ms, i);
    } else {
      assert ms[i..] == [ms[i]];
    }
  }

  /** Totals that differ at most in the generated column decode the same lines. */
  lemma SameLines(m: string, index: nat, a: Totals, b: Totals)
    requires index <= |m| && a.(genColumn := 0) == b.(genColumn := 0)
    ensures DecodeLines(m, index, a) == DecodeLines(m, index, b)
  {
  }

  /** `decodeMappings(encode(ms)) == ms` for mappings of one line or more whose deltas fit the VLQ range. */
  lemma RoundTrip(ms: Mappings)
    requires |ms| >= 1 && Encodable(ms)
    ensures MappingsOf(Encoding(ms)) == ms
  {
    var m := Encoding(ms);
    LinesFromTail(ms, 0, Start);
    assert m == LineTail(ms, 0, Start);
    StartsAtWhole(m);
    DecodeLinesOfEncode(ms, 0, Start, m, 0);
    assert ms[0..] == ms;
  }

  lemma StartsAtWhole(m: string)
    ensures StartsAt(m, 0, m)
  {
    forall k | 0 <= k < |m|
      ensures m[0 + k] == m[k]
    {
    }
  }

  /** No lines encode to the empty text, which decodes to one empty line. */
  lemma EmptyMappings()
    ensures Encoding([]) == ""
    ensures MappingsOf("") == [[]]
  {
  }
}
