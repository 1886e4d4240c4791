/**
 * Source map objects and the `//# sourceMappingURL=` comment of a
 * generated file (sourcemap/src/SourceMap.ts).
 */
module SourceMaps {
  import opened Wrappers
  import opened Codec
  import opened OffsetRanges
  import opened Search

  // ---- the source map object ----

  /**
   * The fields of the parsed JSON object that `fromJson` reads; `version`
   * is None when the field is missing or not an integer.
   */
  datatype Json = Json(version: Option<int>, file: Option<string>, sourceRoot: Option<string>,
                       sources: seq<string>, sourcesContent: Option<seq<Option<string>>>,
                       names: seq<string>, mappings: string)

  /** What `lookup` returns: a position in one of the sources. */
  datatype SourcePosition = SourcePosition(sourceIdx: int, lineIdx: int, columnIdx: int)

  /** `SourceMapV3`: immutable fields and the cache of the decoded `mappings`. */
  class SourceMapV3 {
    const version: int
    const file: Option<string>
    const sourceRoot: Option<string>
    const sources: seq<string>
    const sourcesContent: Option<seq<Option<string>>>
    const names: seq<string>
    const mappings: string
    var decoded: Option<Mappings>

    /** The cache, once filled, holds the decoding of `mappings`. */
    ghost predicate Valid()
      reads this
    {
      version == 3 && (decoded.Some? ==> decoded.value == MappingsOf(mappings))
    }

    constructor(file: Option<string>, sourceRoot: Option<string>, sources: seq<string>,
                sourcesContent: Option<seq<Option<string>>>, names: seq<string>, mappings: string)
      ensures this.file == file && this.sourceRoot == sourceRoot && this.sources == sources
      ensures this.sourcesContent == sourcesContent && this.names == names && this.mappings == mappings
      ensures decoded == None && Valid()
    {
      this.version := 3;
      this.file := file;
      this.sourceRoot := sourceRoot;
      this.sources := sources;
      this.sourcesContent := sourcesContent;
      this.names := names;
      this.mappings := mappings;
      this.decoded := None;
    }

    /** `withMappings`: a new map that differs from this one in `mappings` only. */
    method WithMappings(mappings: string) returns (r: SourceMapV3)
      ensures fresh(r) && r.Valid() && r.decoded == None
      ensures r.mappings == mappings
      ensures r.file == file && r.sourceRoot == sourceRoot && r.sources == sources
      ensures r.sourcesContent == sourcesContent && r.names == names
    {
      r := new SourceMapV3(file, sourceRoot, sources, sourcesContent, names, mappings);
    }

    /** `getDecodedMappings`: decodes on the first call, then returns the cached value. */
    method GetDecodedMappings() returns (ms: Mappings)
      requires Valid()
      modifies this
      ensures Valid() && ms == MappingsOf(mappings) && decoded == Some(ms)
      ensures old(decoded).Some? ==> decoded == old(decoded)
    {
      if decoded.None? {
        var d := DecodeMappings(mappings);
        decoded := Some(d);
      }
      ms := decoded.value;
    }

    /**
     * `lookup`: the source position of the last segment of line `lineIdx`
     * that starts at or before `charIdx`, found by binary search.
     */
    method Lookup(lineIdx: int, charIdx: int) returns (r: Option<SourcePosition>)
      requires Valid()
      modifies this
      ensures Valid() && decoded == Some(MappingsOf(mappings))
      ensures !(0 <= lineIdx < |MappingsOf(mappings)|) ==> r == None
      ensures 0 <= lineIdx < |MappingsOf(mappings)| && SortedByGenColumn(MappingsOf(mappings)[lineIdx]) ==>
        r == LookupIn(MappingsOf(mappings), lineIdx, charIdx)
      ensures r.Some? ==>
        0 <= lineIdx < |MappingsOf(mappings)| && MappedAtOrBefore(MappingsOf(mappings)[lineIdx], charIdx, r.value)
    {
      var ms := GetDecodedMappings();
      if !(0 <= lineIdx < |ms|) {
        return None;
      }
      var line := ms[lineIdx];
      var idx := FindLastIdxMonotonous(line, AtOrBefore(charIdx), 0, |line|);
      if SortedByGenColumn(line) {
        SortedIsMonotonous(line, charIdx);
        LastIdxSplits(line, AtOrBefore(charIdx), 0, |line|);
        LastAtOrBeforeIs(line, charIdx, idx);
      }
      if idx == -1 {
        return None;
      }
      var segment := line[idx];
      if segment.Seg1? {
        return None;
      }
      r := Some(SourcePosition(segment.sourceIdx, segment.sourceLine, segment.sourceColumn));
    }
  }

  /** `fromJson`: throws unless the version is 3. */
  method FromJson(d: Json) returns (r: Result<SourceMapV3>)
    ensures r.Ok? <==> d.version == Some(3)
    ensures r.Ok? ==> fresh(r.value) && r.value.Valid() && r.value.decoded == None
    ensures r.Ok? ==> r.value.mappings == d.mappings && r.value.sources == d.sources && r.value.names == d.names
    ensures r.Ok? ==> r.value.file == d.file && r.value.sourceRoot == d.sourceRoot
    ensures r.Ok? ==> r.value.sourcesContent == d.sourcesContent
    ensures r.Fail? ==> r.message == "Unsupported version"
  {
    if d.version != Some(3) {
      return Fail("Unsupported version");
    }
    var m := new SourceMapV3(d.file, d.sourceRoot, d.sources, d.sourcesContent, d.names, d.mappings);
    r := Ok(m);
  }

  // ---- lookup ----

  /** Segments in order of their generated column, as a well-formed map has them. */
  predicate SortedByGenColumn(line: Line) {
    forall a, b :: 0 <= a < b < |line| ==> line[a].genColumn <= line[b].genColumn
  }

  /** The predicate `lookup` searches with: the segment starts at or before `charIdx`. */
  function AtOrBefore(charIdx: int): Segment -> bool {
    (s: Segment) => s.genColumn <= charIdx
  }

  /** The last index below `end` whose segment starts at or before `charIdx`, or -1. */
  function LastAtOrBefore(line: Line, charIdx: int, end: nat): (k: int)
    requires end <= |line|
    ensures -1 <= k < end
    ensures k >= 0 ==> line[k].genColumn <= charIdx
    ensures forall j :: k < j < end ==> line[j].genColumn > charIdx
    decreases end
  {
    if end == 0 then -1
    else if line[end - 1].genColumn <= charIdx then end - 1
    else LastAtOrBefore(line, charIdx, end - 1)
  }

  /** What `lookup` returns for decoded mappings `ms`. */
  function LookupIn(ms: Mappings, lineIdx: int, charIdx: int): Option<SourcePosition> {
    if !(0 <= lineIdx < |ms|) then None
    else
      var k := LastAtOrBefore(ms[lineIdx], charIdx, |ms[lineIdx]|);
      if k < 0 || ms[lineIdx][k].Seg1? then None
      else
        var s := ms[lineIdx][k];
        Some(SourcePosition(s.sourceIdx, s.sourceLine, s.sourceColumn))
  }

  /** `p` is the source position of a mapped segment of `line` that starts at or before `charIdx`. */
  predicate MappedAtOrBefore(line: Line, charIdx: int, p: SourcePosition) {
    exists k :: 0 <= k < |line| && line[k].genColumn <= charIdx && !line[k].Seg1? &&
      p == SourcePosition(line[k].sourceIdx, line[k].sourceLine, line[k].sourceColumn)
  }

  /** On a sorted line the search predicate is monotonous: once false, it stays false. */
  lemma SortedIsMonotonous(line: Line, charIdx: int)
    requires SortedByGenColumn(line)
    ensures Monotonous(line, AtOrBefore(charIdx), 0, |line|)
  {
    forall x, y | 0 <= x < y < |line| && !AtOrBefore(charIdx)(line[x])
      ensures !AtOrBefore(charIdx)(line[y])
    {
      assert line[x].genColumn <= line[y].genColumn;
    }
  }

  /** An index at the true/false boundary of the search predicate is the last one at or before `charIdx`. */
  lemma LastAtOrBeforeIs(line: Line, charIdx: int, idx: int)
    requires -1 <= idx < |line|
    requires forall k :: 0 <= k <= idx ==> AtOrBefore(charIdx)(line[k])
    requires forall k :: idx < k < |line| ==> !AtOrBefore(charIdx)(line[k])
    ensures LastAtOrBefore(line, charIdx, |line|) == idx
  {
    var k := LastAtOrBefore(line, charIdx, |line|);
    assert idx >= 0 ==> AtOrBefore(charIdx)(line[idx]);
    assert k >= 0 ==> AtOrBefore(charIdx)(line[k]);
  }

  /** On a sorted line, `lookup` answers from the last segment at or before the column, when it is mapped. */
  lemma LookupOfSorted(ms: Mappings, lineIdx: int, charIdx: int, k: nat)
    requires 0 <= lineIdx < |ms| && k < |ms[lineIdx]|
    requires ms[lineIdx][k].genColumn <= charIdx
    requires forall j :: k < j < |ms[lineIdx]| ==> ms[lineIdx][j].genColumn > charIdx
    ensures LookupIn(ms, lineIdx, charIdx).Some? <==> !ms[lineIdx][k].Seg1?
    ensures LookupIn(ms, lineIdx, charIdx).Some? ==>
      LookupIn(ms, lineIdx, charIdx).value ==
        SourcePosition(ms[lineIdx][k].sourceIdx, ms[lineIdx][k].sourceLine, ms[lineIdx][k].sourceColumn)
  {
  }

  // ---- the sourceMappingURL comment ----

  /** ' ' and '\t': the characters `findLastNonEmptyLine` skips besides '\n'. */
  predicate IsBlank(c: char) {
    c == ' ' || c == '\t'
  }

  /** A character that makes its line non-empty. */
  predicate IsInk(c: char) {
    c != '\n' && !IsBlank(c)
  }

  /** The last index below `i` holding an ink character, or -1. */
  function LastInkBefore(s: string, i: nat): (k: int)
    requires i <= |s|
    ensures -1 <= k < i
    ensures k >= 0 ==> IsInk(s[k])
    ensures forall j :: k < j < i ==> !IsInk(s[j])
    decreases i
  {
    if i == 0 then -1
    else if IsInk(s[i - 1]) then i - 1
    else LastInkBefore(s, i - 1)
  }

  /** The start of the line holding position `k`: just past the last '\n' before it, or 0. */
  function LineStart(s: string, k: nat): (a: nat)
    requires k <= |s|
    ensures a <= k
    ensures a == 0 || s[a - 1] == '\n'
    ensures forall j :: a <= j < k ==> s[j] != '\n'
    decreases k
  {
    if k == 0 then 0
    else if s[k - 1] == '\n' then k
    else LineStart(s, k - 1)
  }

  /** The end of the line holding position `k`: just past its '\n', or the end of the text. */
  function LineEnd(s: string, k: nat): (e: nat)
    requires k <= |s|
    ensures k <= e <= |s|
    ensures e < |s| ==> k < e && s[e - 1] == '\n'
    ensures forall j :: k <= j < e && s[j] == '\n' ==> j == e - 1
    decreases |s| - k
  {
    if k == |s| then |s|
    else if s[k] == '\n' then k + 1
    else LineEnd(s, k + 1)
  }

  /** A line of the text and where it sits. */
  datatype FoundLine = FoundLine(line: string, range: OffsetRange)

  /**
   * The line `findLastNonEmptyLine` returns: the one holding the last ink
   * character, from its start up to and including the '\n' that ends it.
   */
  function LastNonEmptyLine(s: string): (r: Option<FoundLine>)
    ensures r.None? <==> forall j :: 0 <= j < |s| ==> !IsInk(s[j])
    ensures r.Some? ==> 0 <= r.value.range.start <= r.value.range.endExclusive <= |s|
    ensures r.Some? ==> r.value.line == s[r.value.range.start..r.value.range.endExclusive]
    ensures r.Some? ==> r.value.range.start <= LastInkBefore(s, |s|) < r.value.range.endExclusive
    ensures r.Some? ==> r.value.range.start == 0 || s[r.value.range.start - 1] == '\n'
    ensures r.Some? ==> forall j :: r.value.range.endExclusive <= j < |s| ==> !IsInk(s[j])
    ensures r.Some? ==> forall j :: 0 <= j < |r.value.line| - 1 ==> r.value.line[j] != '\n'
  {
    var k := LastInkBefore(s, |s|);
    if k < 0 then None
    else
      var a := LineStart(s, k);
      var e := LineEnd(s, k);
      Some(FoundLine(s[a..e], Span(a, e)))
  }

  /** `findLastNonEmptyLine`: the backward scan with `lineEnd` and `didSeeNonWsChar`. */
  method FindLastNonEmptyLine(str: string) returns (r: Option<FoundLine>)
    ensures r == LastNonEmptyLine(str)
  {
    var lineEnd := |str|;
    var didSeeNonWsChar := false;
    var i := |str|;
    while i > 0
      invariant 0 <= i <= |str|
      invariant !didSeeNonWsChar ==> (forall j :: i <= j < |str| ==> !IsInk(str[j])) && lineEnd == LineEnd(str, i)
      invariant didSeeNonWsChar ==>
        var k := LastInkBefore(str, |str|);
        i <= k < |str| && lineEnd == LineEnd(str, k) && forall j :: i <= j < k ==> str[j] != '\n'
      decreases i
    {
      var charBefore := str[i - 1];
      if charBefore == '\n' {
        if didSeeNonWsChar {
          LineStartIs(str, LastInkBefore(str, |str|), i);
          return Some(FoundLine(str[i..lineEnd], Span(i, lineEnd)));
        } else {
          lineEnd := i;
        }
      } else if !IsBlank(charBefore) {
        if !didSeeNonWsChar {
          LastInkIs(str, |str|, i - 1);
        }
        didSeeNonWsChar := true;
      }
      i := i - 1;
    }
    if didSeeNonWsChar {
      LineStartIs(str, LastInkBefore(str, |str|), 0);
      return Some(FoundLine(str[0..lineEnd], Span(0, lineEnd)));
    }
    return None;
  }

  /** An ink character with only blanks and '\n' after it, up to `i`, is the last one. */
  lemma {:induction false} LastInkIs(s: string, i: nat, k: nat)
    requires k < i <= |s| && IsInk(s[k])
    requires forall j :: k < j < i ==> !IsInk(s[j])
    ensures LastInkBefore(s, i) == k
    decreases i
  {
    if i - 1 > k {
      LastInkIs(s, i - 1, k);
    }
  }

  /** A position just past a '\n' (or 0) with no '\n' up to `k` is the start of `k`'s line. */
  lemma {:induction false} LineStartIs(s: string, k: nat, a: nat)
    requires a <= k <= |s|
    requires a == 0 || s[a - 1] == '\n'
    requires forall j :: a <= j < k ==> s[j] != '\n'
    ensures LineStart(s, k) == a
    decreases k
  {
    if k > a {
      LineStartIs(s, k - 1, a);
    }
  }

  // ---- trim ----

  /** The characters JavaScript's `trim` removes: WhiteSpace and LineTerminator of ECMA-262. */
  predicate IsJsWhitespace(c: char) {
    c == '\t' || c == '\n' || c == '\U{B}' || c == '\U{C}' || c == '\r' || c == ' ' ||
    c == '\U{A0}' || c == '\U{1680}' || ('\U{2000}' <= c <= '\U{200A}') ||
    c == '\U{2028}' || c == '\U{2029}' || c == '\U{202F}' || c == '\U{205F}' ||
    c == '\U{3000}' || c == '\U{FEFF}'
  }

  /** `s` without its leading whitespace. */
  function TrimStart(s: string): (t: string)
    ensures |t| <= |s| && t == s[|s| - |t|..]
    ensures |t| > 0 ==> !IsJsWhitespace(t[0])
    ensures forall j :: 0 <= j < |s| - |t| ==> IsJsWhitespace(s[j])
    decreases |s|
  {
    if |s| > 0 && IsJsWhitespace(s[0]) then TrimStart(s[1..]) else s
  }

  /** `s` without its trailing whitespace. */
  function TrimEnd(s: string): (t: string)
    ensures |t| <= |s| && t == s[..|t|]
    ensures |t| > 0 ==> !IsJsWhitespace(t[|t| - 1])
    ensures forall j :: |t| <= j < |s| ==> IsJsWhitespace(s[j])
    decreases |s|
  {
    if |s| > 0 && IsJsWhitespace(s[|s| - 1]) then TrimEnd(s[..|s| - 1]) else s
  }

  /** `trim`. */
  function Trim(s: string): string {
    TrimEnd(TrimStart(s))
  }

  /** No whitespace at either end. */
  predicate IsTrimmed(s: string) {
    |s| == 0 || (!IsJsWhitespace(s[0]) && !IsJsWhitespace(s[|s| - 1]))
  }

  /** Trimming leaves no whitespace at either end and keeps a trimmed string as it is. */
  lemma TrimLaws(s: string)
    ensures IsTrimmed(Trim(s))
    ensures IsTrimmed(s) ==> Trim(s) == s
  {
    var t := TrimStart(s);
    var u := TrimEnd(t);
    if |u| > 0 {
      assert u[0] == t[0];
    }
  }

  /** A line break after a trimmed text is what `trim` takes away. */
  lemma TrimLineBreak(url: string)
    requires IsTrimmed(url)
    ensures Trim(url + "\n") == url
  {
    var s := url + "\n";
    if |url| > 0 {
      assert TrimStart(s) == s;
      assert s[..|s| - 1] == url;
      assert TrimEnd(s) == TrimEnd(url);
      TrimLaws(url);
      assert TrimStart(url) == url;
    } else {
      assert TrimStart(s) == TrimStart(s[1..]);
      assert s[1..] == "";
    }
  }

  // ---- find and set ----

  const Prefix: string := "//# sourceMappingURL="

  /** `SourceMapLocation`, holding the URL of the map. */
  datatype SourceMapLocation = SourceMapLocation(sourceMappingUrl: string) {
    /** The comment line, ending in '\n'. */
    function ToString(): (s: string)
      ensures |s| == |Prefix| + |sourceMappingUrl| + 1 && s[|s| - 1] == '\n'
      ensures s[..|Prefix|] == Prefix && s[|Prefix|..|s| - 1] == sourceMappingUrl
    {
      Prefix + sourceMappingUrl + "\n"
    }
  }

  datatype Found = Found(location: SourceMapLocation, range: OffsetRange)

  predicate StartsWith(s: string, prefix: string) {
    |prefix| <= |s| && s[..|prefix|] == prefix
  }

  predicate EndsWith(s: string, suffix: string) {
    |suffix| <= |s| && s[|s| - |suffix|..] == suffix
  }

  /** `findWithRange`: the last non-empty line, when it is a `sourceMappingURL` comment. */
  function FindWithRange(source: string): (r: Option<Found>)
    ensures r.Some? ==> LastNonEmptyLine(source).Some? && r.value.range == LastNonEmptyLine(source).value.range
    ensures r.Some? ==> StartsWith(LastNonEmptyLine(source).value.line, Prefix)
    ensures r.Some? ==> IsTrimmed(r.value.location.sourceMappingUrl)
    ensures r.None? ==> LastNonEmptyLine(source).None? || !StartsWith(LastNonEmptyLine(source).value.line, Prefix)
  {
    match LastNonEmptyLine(source)
    case None => None
    case Some(l) =>
      if !StartsWith(l.line, Prefix) then None
      else
        TrimLaws(l.line[|Prefix|..]);
        Some(Found(SourceMapLocation(Trim(l.line[|Prefix|..])), l.range))
  }

  /** `find`. */
  function Find(source: string): (r: Option<SourceMapLocation>)
    ensures r.Some? <==> FindWithRange(source).Some?
  {
    match FindWithRange(source)
    case None => None
    case Some(f) => Some(f.location)
  }

  /**
   * `set` as written: with no location to set, `undefined?.toString()`
   * concatenates to the text "undefined" in place of the old comment.
   */
  function SetAsWritten(source: string, location: Option<SourceMapLocation>): string {
    match FindWithRange(source)
    case Some(existing) =>
      source[..existing.range.start] +
      (if location.Some? then location.value.ToString() else "undefined") +
      source[existing.range.endExclusive..]
    case None =>
      var str := if location.Some? then location.value.ToString() else "";
      source + (if !EndsWith(source, "\n") then "\n" + str else str)
  }

  /** `set`, with an absent location removing the old comment. */
  function Set(source: string, location: Option<SourceMapLocation>): string {
    match FindWithRange(source)
    case Some(existing) =>
      source[..existing.range.start] +
      (if location.Some? then location.value.ToString() else "") +
      source[existing.range.endExclusive..]
    case None =>
      var str := if location.Some? then location.value.ToString() else "";
      source + (if !EndsWith(source, "\n") then "\n" + str else str)
  }

  /** A URL that `findWithRange` reads back unchanged: no line break and nothing to trim. */
  predicate IsPlainUrl(url: string) {
    IsTrimmed(url) && forall j :: 0 <= j < |url| ==> url[j] != '\n'
  }

  lemma PrefixFacts()
    ensures |Prefix| == 21 && Prefix[20] == '='
    ensures forall j :: 0 <= j < |Prefix| ==> Prefix[j] != '\n'
  {
  }

  /** A one-line text ending in '\n' whose last character before the '\n' is ink. */
  predicate IsCommentLine(text: string) {
    |text| >= 2 && text[|text| - 1] == '\n' && IsInk(text[|text| - 2]) &&
    forall j :: 0 <= j < |text| - 1 ==> text[j] != '\n'
  }

  lemma CommentLineOf(url: string)
    requires IsPlainUrl(url)
    ensures IsCommentLine(SourceMapLocation(url).ToString())
  {
    var text := SourceMapLocation(url).ToString();
    PrefixFacts();
    if |url| > 0 {
      assert text[|text| - 2] == url[|url| - 1];
    } else {
      assert text[|text| - 2] == Prefix[20];
    }
    forall j | 0 <= j < |text| - 1
      ensures text[j] != '\n'
    {
      if j < |Prefix| {
        assert text[j] == Prefix[j];
      } else {
        assert text[j] == url[j - |Prefix|];
      }
    }
  }

  /**
   * `text` sits in `n` from index `a`, at the start of a line, with nothing
   * but blanks and line breaks after it.
   */
  predicate PlacedAt(n: string, a: int, text: string) {
    0 <= a && a + |text| <= |n| &&
    (forall j :: 0 <= j < |text| ==> n[a + j] == text[j]) &&
    (a == 0 || n[a - 1] == '\n') &&
    (forall j :: a + |text| <= j < |n| ==> !IsInk(n[j]))
  }

  /** A text between a line start and trailing blanks is placed there. */
  lemma PlacedBetween(n: string, pre: string, text: string, post: string)
    requires n == pre + text + post
    requires |pre| == 0 || pre[|pre| - 1] == '\n'
    requires forall j :: 0 <= j < |post| ==> !IsInk(post[j])
    ensures PlacedAt(n, |pre|, text)
  {
    forall j | |pre| + |text| <= j < |n|
      ensures !IsInk(n[j])
    {
      assert n[j] == post[j - |pre| - |text|];
    }
    if |pre| > 0 {
      assert n[|pre| - 1] == pre[|pre| - 1];
    }
  }

  /** The ink character just before the comment's '\n' is the last one of the text. */
  lemma LastInkAt(n: string, a: int, text: string)
    requires IsCommentLine(text) && PlacedAt(n, a, text)
    ensures LastInkBefore(n, |n|) == a + |text| - 2
  {
    var kk := a + |text| - 2;
    assert n[kk] == text[|text| - 2];
    assert n[kk + 1] == text[|text| - 1];
    LastInkIs(n, |n|, kk);
  }

  /** The line around the comment's last ink character is the comment line. */
  lemma LineAt(n: string, a: int, text: string)
    requires IsCommentLine(text) && PlacedAt(n, a, text)
    ensures LineStart(n, a + |text| - 2) == a
    ensures LineEnd(n, a + |text| - 2) == a + |text|
    ensures n[a..a + |text|] == text
  {
    var kk := a + |text| - 2;
    forall j | a <= j < kk
      ensures n[j] != '\n'
    {
      assert n[a + (j - a)] == text[j - a];
    }
    LineStartIs(n, kk, a);
    assert n[kk] == text[|text| - 2];
    assert n[kk + 1] == text[|text| - 1];
    assert LineEnd(n, kk) == LineEnd(n, kk + 1);
    assert forall j :: 0 <= j < |text| ==> n[a..a + |text|][j] == text[j];
  }

  /** A comment line placed at `a` is the last non-empty line. */
  lemma LastLineAt(n: string, a: int, text: string)
    requires IsCommentLine(text) && PlacedAt(n, a, text)
    ensures LastNonEmptyLine(n) == Some(FoundLine(text, Span(a, a + |text|)))
  {
    var k := a + |text| - 2;
    LastInkAt(n, a, text);
    LineAt(n, a, text);
    LastLineIs(n, k, a, a + |text|, text);
  }

  /** The last non-empty line, from where the last ink character and its line lie. */
  lemma LastLineIs(n: string, k: int, a: int, e: int, text: string)
    requires 0 <= k < |n| && LastInkBefore(n, |n|) == k
    requires LineStart(n, k) == a && LineEnd(n, k) == e && a <= e && n[a..e] == text
    ensures LastNonEmptyLine(n) == Some(FoundLine(text, Span(a, e)))
  {
  }

  /** A comment placed at `a` is what `findWithRange` finds. */
  lemma FindAt(n: string, a: int, url: string)
    requires IsPlainUrl(url) && PlacedAt(n, a, SourceMapLocation(url).ToString())
    ensures FindWithRange(n) == Some(Found(SourceMapLocation(url), Span(a, a + |SourceMapLocation(url).ToString()|)))
  {
    var text := SourceMapLocation(url).ToString();
    var span := Span(a, a + |text|);
    assert LastNonEmptyLine(n) == Some(FoundLine(text, span)) by {
      CommentLineOf(url);
      LastLineAt(n, a, text);
    }
    assert Trim(text[|Prefix|..]) == url by {
      assert text[|Prefix|..] == url + "\n";
      TrimLineBreak(url);
    }
    FindIs(n, text, span, url);
  }

  /** What `findWithRange` makes of a last non-empty line that is a comment. */
  lemma FindIs(n: string, line: string, span: OffsetRange, url: string)
    requires LastNonEmptyLine(n) == Some(FoundLine(line, span))
    requires StartsWith(line, Prefix) && Trim(line[|Prefix|..]) == url
    ensures FindWithRange(n) == Some(Found(SourceMapLocation(url), span))
  {
  }

  /** `set` then `findWithRange` gives back the location set, and where its comment went. */
  lemma SetThenFind(source: string, location: SourceMapLocation)
    requires IsPlainUrl(location.sourceMappingUrl)
    ensures var r := FindWithRange(Set(source, Some(location)));
      r.Some? && r.value.location == location &&
      Set(source, Some(location))[r.value.range.start..r.value.range.endExclusive] == location.ToString()
  {
    var a := SetPlaces(source, location);
    FoundPlaced(Set(source, Some(location)), a, location);
  }

  /** A comment placed at `a` is found, with its location and its text's range. */
  lemma FoundPlaced(n: string, a: int, location: SourceMapLocation)
    requires IsPlainUrl(location.sourceMappingUrl) && PlacedAt(n, a, location.ToString())
    ensures var r := FindWithRange(n);
      r.Some? && r.value.location == location &&
      n[r.value.range.start..r.value.range.endExclusive] == location.ToString()
  {
    var text := location.ToString();
    assert FindWithRange(n) == Some(Found(location, Span(a, a + |text|))) by {
      FindAt(n, a, location.sourceMappingUrl);
    }
    assert n[a..a + |text|] == text by {
      CommentLineOf(location.sourceMappingUrl);
      LineAt(n, a, text);
    }
  }

  /** Where `set` puts the comment: at a line start, with only blanks and line breaks after it. */
  lemma SetPlaces(source: string, location: SourceMapLocation) returns (a: int)
    ensures PlacedAt(Set(source, Some(location)), a, location.ToString())
  {
    var text := location.ToString();
    var n := Set(source, Some(location));
    match FindWithRange(source)
    case Some(existing) =>
      var pre := source[..existing.range.start];
      var post := source[existing.range.endExclusive..];
      assert forall j :: 0 <= j < |post| ==> post[j] == source[existing.range.endExclusive + j];
      PlacedBetween(n, pre, text, post);
      a := |pre|;
    case None =>
      var pre := if !EndsWith(source, "\n") then source + "\n" else source;
      assert n == pre + text + "";
      assert |pre| > 0 && pre[|pre| - 1] == '\n';
      PlacedBetween(n, pre, text, "");
      a := |pre|;
  }

  /**
   * With an existing comment and no location, `set` as written puts the
   * word "undefined" where the comment was; the corrected `set` removes it.
   */
  lemma SetUndefined(location: SourceMapLocation)
    requires IsPlainUrl(location.sourceMappingUrl)
    ensures SetAsWritten(location.ToString(), None) == "undefined"
    ensures Set(location.ToString(), None) == ""
  {
    var text := location.ToString();
    FindAt(text, 0, location.sourceMappingUrl);
    SetWhole(text);
  }

  /** Setting nothing over a text that is one whole comment. */
  lemma SetWhole(source: string)
    requires FindWithRange(source).Some? && FindWithRange(source).value.range == Span(0, |source|)
    ensures SetAsWritten(source, None) == "undefined"
    ensures Set(source, None) == ""
  {
    assert source[..0] == "" && source[|source|..] == "";
  }

  /** The corrected `set` without a location cuts exactly the comment's range out. */
  lemma SetRemovesComment(source: string)
    requires FindWithRange(source).Some?
    ensures var range := FindWithRange(source).value.range;
      Set(source, None) == source[..range.start] + source[range.endExclusive..] &&
      |Set(source, None)| == |source| - Length(range)
  {
  }

  /** Without an existing comment, `set` appends the comment, after a '\n' unless the source ends in one. */
  lemma SetAppends(source: string, location: SourceMapLocation)
    requires FindWithRange(source).None?
    ensures EndsWith(source, "\n") ==> Set(source, Some(location)) == source + location.ToString()
    ensures !EndsWith(source, "\n") ==> Set(source, Some(location)) == source + "\n" + location.ToString()
  {
  }
}
