# Delorean JS debug: source maps and execution traces, in Dafny

This project models the two halves of the time-travel debugger's core.

**Source maps.**
- `vlq.dfy` and `codec.dfy`: the base64 VLQ codec for the `mappings` string of a version 3 source map. This covers `decodeInteger` and `encodeInteger`, `decodeMappings` and `encode`. The segments have one, four or five fields, and each field is stored relative to the previous one.
- `source_map.dfy`: the `SourceMapV3` object with its cached decoding and its `lookup`, plus the `//# sourceMappingURL=` comment handling (`findLastNonEmptyLine`, `findWithRange`, `find`, `set`).
- `apply_edit.dfy` and `apply_edit_laws.dfy`: `sourceMapApplyEdit`, which carries a decoded mapping table across a text edit.
- The text geometry it rests on:
  - `text_pos.dfy`, `text_range.dfy`, `text_length.dfy`: positions, ranges and lengths in lines and columns;
  - `offset_range.dfy`: offset ranges;
  - `position_offset_transformer.dfy`: the line-start table;
  - `text_edit.dfy`: `TextEdit` with `normalize` and `apply`;
  - `search.dfy`: the binary search `findLastIdxMonotonous`.

**Execution traces.**
- `dynamic_byte_array.dfy`: the recorder's growable byte buffer, an array that doubles when full.
- `execution_recorder.dfy`: the instruction writer, with its variable-length operand encoding, and the `ExecutionRecorder`. The recorder switches modules, writes each module's info once and records calls, blocks and returns.
- `instructions.dfy`: the instruction objects (`Instruction.ts`), with their text form and `writeInstruction`.
- `module_info.dfy` (`ModuleInfo.ts`): the compact serialised form of function and block locations, which carries the character and path of the previous reference over. It also covers `getTextPos` and the `toString` of positions.
- `decimal.dfy`: the decimal text of numbers.
- The Rust analyzer:
  - `instruction_decoder.dfy`: `Instruction::from_iter`, `read_u32` and `read_u32_vl`;
  - `replay.dfy` and `replay_laws.dfy`: `decode`, `get_module_info` and `stack_at` of `wasm_api.rs`;
  - `trace_codec.dfy`: proves that the analyzer reads back what the recorder writes;
  - `recorder_laws.dfy`: lifts that to whole recordings.

**How the code is modelled.**
- Code that changes state becomes methods:
  - the buffer, the writer, the recorder, the source map cache and the line-start table are classes;
  - the loops stay loops.
- Each method is proved equal to a pure specification function. The properties are then proved about those functions.
- Objects that never change are datatypes:
  - text positions, ranges, lengths, segments, instructions and module info;
  - the edit state of `mappingsApplyEdit`, which the source mutates through closures and the model threads as a value.
- Errors the source throws or panics with become a `Result` failure carrying the source's message. This holds for explicit throws and for the `TypeError` of `mappingsApplyEdit` on an edit past the table. Inputs the source mishandles without throwing are excluded by preconditions. These are listed under "## Left out".
- JavaScript numbers are unbounded integers. The 32-bit operations are written out: `<<`, `>>>` and `|` in the VLQ codec, and `>>>` in `writeInstruction` and `pushU32`.

**Where the code was followed against its own description:**
- Operand widths: the two-byte form is used for operands below 65280, and the three-byte form below 16711680. (The tests compare `n >>> 8` and `n >>> 16` with 255 using `<`.)
- `ModuleInfo.serialize` keeps a single character/path tracker across a function's own location and its blocks' locations, and across functions.
- The range `findLastNonEmptyLine` returns includes the line's terminating `'\n'`.

## Model

| member | source | states |
|---|---|---|
| TextPositions.Compare | recording/src/utils/TextPos.ts:22-36 | The result is -1, 0 or 1, ordering positions by line and then by character. |
| TextPositions.Min2 | recording/src/utils/TextPos.ts:8-13 | The result is one of the two positions and is at or before both. |
| TextPositions.Max2 | recording/src/utils/TextPos.ts:15-20 | The result is one of the two positions and is at or after both. |
| TextPositions.CompareAgreesWithEquals | recording/src/utils/TextPos.ts:22-50 | `compare` is 0 exactly when `equals` holds, which is structural equality. It is -1 exactly when `isBefore` holds and 1 exactly when the converse holds. |
| TextPositions.IsBeforeIsStrictTotalOrder | recording/src/utils/TextPos.ts:48-54 | `isBefore` is irreflexive, transitive, total and asymmetric. `isBeforeOrEqual` is `isBefore` or `equals`. |
| TextPositions.IsBeforeOrEqualIsTotalOrder | recording/src/utils/TextPos.ts:52-54 | `isBeforeOrEqual` is reflexive, transitive, antisymmetric and total, and is the negation of the reversed `isBefore`. |
| TextRanges.TextRange.PlusRange | sourcemap/src/text/TextRange.ts:35-39 | The start is one of the two starts and at or before both. The end is one of the two ends and at or after both. |
| TextRanges.EmptyAt | sourcemap/src/text/TextRange.ts:4-6 | The range is empty and starts at the position. |
| TextRanges.Compare | sourcemap/src/text/TextRange.ts:8-15 | Ranges are ordered by their start positions; when the starts are equal, by their end positions. |
| TextRanges.CompareZeroIffEquals | sourcemap/src/text/TextRange.ts:8-46 | `compare` is 0 exactly for equal ranges. `equals` is structural equality. `isEmpty` means start equals end. `isSingleLine` means both ends are on one line. |
| TextRanges.PlusRangeOfAdjacent | sourcemap/src/text/TextRange.ts:35-39 | Joining a forwards range with one that starts where it ends spans from the first start to the second end. |
| TextLengths.TextLength.Compare | sourcemap/src/text/TextLength.ts:82-87 | The sign is negative, zero or positive as this length is shorter than, equal to or longer than the other, lexicographically. |
| TextLengths.TextLength.CreateRange | sourcemap/src/text/TextLength.ts:97-100 | The range starts at the position and ends where the length walked from it ends. |
| TextLengths.TextLength.ToRange | sourcemap/src/text/TextLength.ts:102-104 | The range from (0, 0) to the end of the length. |
| TextLengths.LengthDiffNonNegative | sourcemap/src/text/TextLength.ts:11-20 | The result is zero when `end` is shorter than `start`. Otherwise adding it to `start` gives `end`. |
| TextLengths.OfRange | sourcemap/src/text/TextLength.ts:30-32 | The length of a forwards range, walked from its start, reaches its end. |
| TextLengths.BetweenAfterAdd | sourcemap/src/text/TextLength.ts:22-28 | `betweenPositions(p, length.addToPosition(p))` gives the length back. |
| TextLengths.AddAfterBetween | sourcemap/src/text/TextLength.ts:22-28 | Walking `betweenPositions(p, q)` from `p` reaches `q`. |
| TextLengths.AddZero | sourcemap/src/text/TextLength.ts:89-95 | `zero` is a left and right identity of `add`. |
| TextLengths.AddAssociative | sourcemap/src/text/TextLength.ts:89-95 | `add` is associative. |
| TextLengths.AddToPositionOfAdd | sourcemap/src/text/TextLength.ts:89-112 | Walking `a.add(b)` from a position is walking `a`, then `b`. |
| TextLengths.LengthOfText | sourcemap/src/text/TextLength.ts:34-46 | Both counts are non-negative; `LengthOfTextCounts` states what they count. |
| TextLengths.OfText | sourcemap/src/text/TextLength.ts:34-46 | The character loop of `ofText` computes `LengthOfText`. |
| TextLengths.LengthOfTextCounts | sourcemap/src/text/TextLength.ts:34-46 | The line count is the number of `'\n'` characters. The column count is the number of characters after the last one, or the whole length when there is none. |
| TextLengths.LengthOfConcat | sourcemap/src/text/TextLength.ts:34-95 | The length of a concatenation is the `add` of the lengths. |
| Search.LastIdx | sourcemap/src/utils.ts:7-19 | For any predicate, the result lies from one before the window's start to its last index. The predicate holds at the result and fails just after it. |
| Search.LastIdxSplits | sourcemap/src/utils.ts:1-19 | For a monotonous predicate, the predicate holds exactly up to the result, and fails after it. |
| Search.FindLastIdxMonotonous | sourcemap/src/utils.ts:7-19 | The binary search loop returns `LastIdx`. |
| OffsetRanges.Create | sourcemap/src/text/OffsetRange.ts:45-49 | Construction fails exactly when start > endExclusive; otherwise it keeps both ends. |
| OffsetRanges.TryCreate | sourcemap/src/text/OffsetRange.ts:30-35 | The result is `None` exactly when `create` would throw, and otherwise the range `create` builds. |
| OffsetRanges.OfStartAndLength | sourcemap/src/text/OffsetRange.ts:41-43 | The result fails for a negative length. Otherwise the range starts at `start` and has that length. |
| OffsetRanges.Length | sourcemap/src/text/OffsetRange.ts:67-69 | The length is zero exactly for an empty range. |
| OffsetRanges.Delta | sourcemap/src/text/OffsetRange.ts:55-57 | Shifting moves the start by the offset and keeps the length. The result contains `n + offset` exactly when the original contains `n`. |
| OffsetRanges.DeltaStart | sourcemap/src/text/OffsetRange.ts:59-61 | Moving the start fails exactly when it passes the end. Otherwise the end stays and the length shrinks by the offset. |
| OffsetRanges.DeltaEnd | sourcemap/src/text/OffsetRange.ts:63-65 | Moving the end fails exactly when it passes the start. Otherwise the start stays and the length grows by the offset. |
| OffsetRanges.Join | sourcemap/src/text/OffsetRange.ts:87-93 | The join contains every offset of either range and both ranges. Its ends are the outer ends. |
| OffsetRanges.Intersect | sourcemap/src/text/OffsetRange.ts:95-108 | The intersection is `None` exactly when the ranges do not even touch. Otherwise it contains `n` exactly when both ranges do. |
| OffsetRanges.IntersectsMeansCommonOffset | sourcemap/src/text/OffsetRange.ts:110-120 | `intersects` holds exactly when some offset lies in both ranges. `intersectsOrTouches` holds exactly when `intersect` is defined. |
| OffsetRanges.RangeSubstring | sourcemap/src/text/OffsetRange.ts:134-136 | On a range inside the string, the result is the slice between its ends. |
| OffsetRanges.Substring | sourcemap/src/text/OffsetRange.ts:134-136 | `String.substring` never gives more than the string. |
| OffsetRanges.SubstringConcat | sourcemap/src/text/OffsetRange.ts:134-136 | Substrings of consecutive ranges concatenate to the substring of their union, whatever clamping happens. |
| OffsetRanges.Slice | sourcemap/src/text/OffsetRange.ts:130-132 | The result is never longer than the array, and it is the plain slice for ends inside the array. |
| OffsetRanges.RangeSlice | sourcemap/src/text/OffsetRange.ts:130-132 | For a range within the array, the result is the slice between its ends and has the range's length. |
| OffsetRanges.Clip | sourcemap/src/text/OffsetRange.ts:138-147 | The result fails exactly on an empty range. Otherwise it is in the range: the value itself when contained, otherwise the nearest end. |
| OffsetRanges.ClipCyclicAsWritten | sourcemap/src/text/OffsetRange.ts:155-166 | `clipCyclic` as written fails exactly on an empty range. Otherwise the result lies from the start up to the end inclusive, and is the value itself when the range contains it. |
| OffsetRanges.ClipCyclicAsWrittenLeavesRange | sourcemap/src/text/OffsetRange.ts:149-166 | [5, 10).clipCyclic(0) is 10 as written, which [5, 10) does not contain. |
| OffsetRanges.ClipCyclic | sourcemap/src/text/OffsetRange.ts:149-166 | The corrected `clipCyclic` fails exactly on an empty range. Otherwise the result is in the range, and is the value itself when the range contains it. |
| OffsetRanges.ClipCyclicShiftsByLength | sourcemap/src/text/OffsetRange.ts:149-152 | The corrected result is `value + k * length` for an integer k the lemma returns. |
| OffsetRanges.ClipCyclicAgreesOffMultiples | sourcemap/src/text/OffsetRange.ts:159-161 | The written and corrected versions agree unless `start - value` is a positive multiple of the length. |
| OffsetRanges.ClipCyclicExamples | sourcemap/src/text/OffsetRange.ts:153 | The corrected version gives 5, 6 and 9 for the doc comment's three examples, and 5 for the value 0. |
| OffsetRanges.Map | sourcemap/src/text/OffsetRange.ts:168-174 | The result has one entry per offset: entry k is `f(start + k)`. |
| OffsetRanges.AddRange | sourcemap/src/text/OffsetRange.ts:12-28 | The result stays sorted and disjoint, with gaps between ranges. It covers exactly the offsets the old list or the new range covers. |
| OffsetRanges.InsertKeepsInvariant | sourcemap/src/text/OffsetRange.ts:21-22 | Splicing in a range that touches nothing keeps the list sorted and disjoint, and adds exactly its offsets. |
| OffsetRanges.MergeKeepsInvariant | sourcemap/src/text/OffsetRange.ts:23-27 | Replacing the touched ranges with their merge keeps the list sorted and disjoint, and adds exactly the new range's offsets. |
| OffsetRanges.MergedIsCovered | sourcemap/src/text/OffsetRange.ts:23-27 | Every offset of the merged range lies in the new range or in one of the ranges it replaces. |
| OffsetRanges.MergedIsSorted | sourcemap/src/text/OffsetRange.ts:23-27 | Replacing the touched ranges by their merge keeps the list sorted and disjoint. |
| OffsetRanges.SortedDisjointOrdered | sourcemap/src/text/OffsetRange.ts:12-28 | In a sorted disjoint list, every range ends before any later one starts. |
| PositionOffsetTransformers.LineStarts | sourcemap/src/text/PositionOffsetTransformer.ts:10-18 | The table starts with 0, and every entry lies within the text, one past its end included. |
| PositionOffsetTransformers.LineStartsIncreasing | sourcemap/src/text/PositionOffsetTransformer.ts:10-18 | The line-start table is strictly increasing. |
| PositionOffsetTransformers.LineStartsShape | sourcemap/src/text/PositionOffsetTransformer.ts:10-18 | Every start after the first follows a `'\n'`. No `'\n'` lies inside a line. There is one start more than there are `'\n'` characters. |
| PositionOffsetTransformers.LineStartsCount | sourcemap/src/text/PositionOffsetTransformer.ts:10-18 | There is one line start more than there are `'\n'` characters. |
| PositionOffsetTransformers.LineOf | sourcemap/src/text/PositionOffsetTransformer.ts:31-36 | The line found starts at or before the offset, and the next line (if any) starts after it. |
| PositionOffsetTransformers.LineOfUnique | sourcemap/src/text/PositionOffsetTransformer.ts:31-36 | On an increasing table, any index with those two boundary facts is `LineOf`. |
| PositionOffsetTransformers.PositionOffsetTransformer.constructor | sourcemap/src/text/PositionOffsetTransformer.ts:10-18 | The constructor's loop builds the line-start table. |
| PositionOffsetTransformers.PositionOffsetTransformer.GetOffset | sourcemap/src/text/PositionOffsetTransformer.ts:20-22 | For a valid position the offset lies in the text, and `getPosition` maps it back to the position. |
| PositionOffsetTransformers.PositionOffsetTransformer.GetPosition | sourcemap/src/text/PositionOffsetTransformer.ts:31-36 | The result is `PositionOf` the offset. For an offset in the text it is a valid position whose `getOffset` is the offset. |
| PositionOffsetTransformers.PositionOffsetTransformer.GetOffsetRange | sourcemap/src/text/PositionOffsetTransformer.ts:24-29 | The result fails exactly when the end offset comes before the start offset. Otherwise it is the two offsets. |
| PositionOffsetTransformers.PositionOffsetTransformer.GetRange | sourcemap/src/text/PositionOffsetTransformer.ts:38-43 | Both ends are converted to positions. When the offsets lie in the text, `getOffsetRange` gives the offset range back. |
| PositionOffsetTransformers.PositionOffsetTransformer.GetTextLength | sourcemap/src/text/PositionOffsetTransformer.ts:45-47 | The result is the `TextLength` between the two converted ends. |
| PositionOffsetTransformers.PositionOffsetTransformer.TextLengthOf | sourcemap/src/text/PositionOffsetTransformer.ts:49-52 | The result is `LengthOfText` of the text. |
| PositionOffsetTransformers.PositionOfOffset | sourcemap/src/text/PositionOffsetTransformer.ts:20-36 | A valid position's offset lies in the text, and `getPosition` turns it back into that position. |
| PositionOffsetTransformers.OffsetOfPosition | sourcemap/src/text/PositionOffsetTransformer.ts:20-36 | An offset in the text becomes a valid position, whose `getOffset` is that offset. |
| PositionOffsetTransformers.LineStartsLength | sourcemap/src/text/PositionOffsetTransformer.ts:49-52 | `LengthOfText` counts the last table index as lines and the characters after the last start as columns. |
| PositionOffsetTransformers.RangeRoundTrip | sourcemap/src/text/PositionOffsetTransformer.ts:24-43 | `getRange(getOffsetRange(r)) == r` for ranges whose ends are valid positions. |
| PositionOffsetTransformers.OffsetMonotone | sourcemap/src/text/PositionOffsetTransformer.ts:20-22 | Offsets follow the order of valid positions. |
| PositionOffsetTransformers.OffsetInjective | sourcemap/src/text/PositionOffsetTransformer.ts:20-22 | Distinct valid positions have distinct offsets. |
| PositionOffsetTransformers.EndPosition | sourcemap/src/text/TextEdit.ts:179-181 | The end position lies on a line of the table. |
| PositionOffsetTransformers.EndPositionIsValid | sourcemap/src/text/TextEdit.ts:179-181 | The end position is the last line after its last column, and its offset is the text's length. |
| PositionOffsetTransformers.ValidBeforeEnd | sourcemap/src/text/TextEdit.ts:179-181 | Every valid position is at or before the end position. |
| TextEdits.Insert | sourcemap/src/text/TextEdit.ts:147-149 | The edit's range is empty at the position and it carries the text. |
| TextEdits.Single | sourcemap/src/text/TextEdit.ts:10-12 | The edit holds exactly the one replacement. |
| TextEdits.SingleTextEditEqualsIsEquality | sourcemap/src/text/TextEdit.ts:161-163 | `SingleTextEdit.equals` is structural equality. |
| TextEdits.RangeFromPositions | sourcemap/src/text/TextEdit.ts:166-173 | A start at MAX_SAFE_INTEGER on the end's line gives the empty range at the end. A start after the end throws. Otherwise the range is from start to end. |
| TextEdits.ValueOfRange | sourcemap/src/text/TextEdit.ts:223-225 | The result fails exactly when the end's offset comes before the start's. For valid positions it is otherwise the substring between the two offsets. |
| TextEdits.GetValueIsValue | sourcemap/src/text/TextEdit.ts:183-185 | The whole-text range of a `StringText` runs from (0, 0) to its end position, and `getValue()` over it is the string. |
| TextEdits.ApplyFold | sourcemap/src/text/TextEdit.ts:89-103 | When the loop completes, its `lastEditEnd` is the end of the final edit, or (0, 0) when there are none. |
| TextEdits.ApplyFoldFailStays | sourcemap/src/text/TextEdit.ts:97-99 | Once a prefix of the edits throws, `apply` throws the same error. |
| TextEdits.Apply | sourcemap/src/text/TextEdit.ts:89-109 | The loop and the final gap compute the reference fold of `apply`. |
| TextEdits.AppendGapOf | sourcemap/src/text/TextEdit.ts:104-107 | The gap step of the loop computes its reference step. |
| TextEdits.ApplyToString | sourcemap/src/text/TextEdit.ts:111-114 | The result is `apply` over a `StringText` of the string. |
| TextEdits.ApplyEmptyIsIdentity | sourcemap/src/text/TextEdit.ts:8 | Applying `TextEdit.empty` to any string gives the string. |
| TextEdits.Normalize | sourcemap/src/text/TextEdit.ts:21-32 | The loop of `normalize` computes its reference fold. |
| TextEdits.NormalizeIsNormalized | sourcemap/src/text/TextEdit.ts:18-32 | On forwards ranges, the result has no empty edit, no two touching edits, and keeps every range forwards. |
| TextEdits.NormalizeOfNormalized | sourcemap/src/text/TextEdit.ts:21-32 | An already normalized list is left unchanged. |
| TextEdits.NormalizeIdempotent | sourcemap/src/text/TextEdit.ts:21-32 | Normalizing twice is normalizing once. |
| TextEdits.SortedValidOnExistingLines | sourcemap/src/text/TextEdit.ts:89-109 | Sorted edits with valid positions lie on lines the text has. |
| TextEdits.AppendGapIsGap | sourcemap/src/text/TextEdit.ts:97-100 | Between valid, ordered positions, the loop appends exactly the text between their offsets. |
| TextEdits.ApplyFoldSorted | sourcemap/src/text/TextEdit.ts:89-103 | On sorted, valid edits the loop never throws. It builds the reference result: the gaps and the inserted texts in turn. |
| TextEdits.ApplySorted | sourcemap/src/text/TextEdit.ts:89-109 | On sorted, valid edits, `apply` never throws. It yields the reference result followed by the remaining text. |
| TextEdits.NormalizeKeepsOffsetApply | sourcemap/src/text/TextEdit.ts:21-32 | The loop invariant of `normalize`: the list stays sorted and valid, and produces the same text as the edits consumed so far. |
| TextEdits.NormalizeMergeKeeps | sourcemap/src/text/TextEdit.ts:24-26 | Merging two touching forwards ranges keeps the earlier start and takes the later end. |
| TextEdits.ApplyNormalize | sourcemap/src/text/TextEdit.ts:21-109 | Normalizing sorted, valid edits does not change the text `apply` produces. |
| Bits.Shl32 | sourcemap/src/codec/vlq.ts:53 | The result is an unsigned 32-bit pattern; `Shl32Value` gives its value when nothing overflows. |
| Bits.Shl32Value | sourcemap/src/codec/vlq.ts:53 | A shift that does not overflow 32 bits is exact multiplication. |
| Bits.Ushr32 | sourcemap/src/codec/vlq.ts:40 | The result is an unsigned 32-bit value; `Ushr32Of` gives it for 32-bit inputs. |
| Bits.Ushr32Of | sourcemap/src/codec/vlq.ts:56 | On a 32-bit value, `>>>` is plain division by a power of two. |
| Bits.BitOrDisjoint | sourcemap/src/codec/vlq.ts:35 | Or-ing a value below 2^k with a multiple of 2^k adds them. |
| Vlq.CharToInt | sourcemap/src/codec/vlq.ts:3-11 | Every character maps to a six-bit value, and a character outside the base64 alphabet maps to 0. |
| Vlq.CharToIntOfIntToChar | sourcemap/src/codec/vlq.ts:7-11 | `charToInt[intToChar[i]] == i` for every digit. |
| Vlq.IntToCharOfCharToInt | sourcemap/src/codec/vlq.ts:7-11 | Every base64 character is `intToChar` of its value. |
| Vlq.CharOfDigit | sourcemap/src/codec/vlq.ts:7-11 | The only base64 character of value i is `intToChar[i]`. |
| Vlq.BuildTables | sourcemap/src/codec/vlq.ts:3-11 | The table loop fills the 64 and 128 entries with the characters' codes and their values. |
| Vlq.HasMoreVlq | sourcemap/src/codec/vlq.ts:16-19 | The result is true exactly when the index is before the end and the character there is not a comma. |
| Vlq.IndexOf | sourcemap/src/codec/vlq.ts:21-24 | From an index inside the string, the result lies between the index and the length; from one past it, the result is the length. Where the result is below the length, the character there is `c`. |
| Vlq.IndexOfSkips | sourcemap/src/codec/vlq.ts:21-24 | No occurrence of `c` lies between the index and the result. |
| Vlq.DigitAt | sourcemap/src/codec/vlq.ts:33-34 | Every character read is a six-bit digit. |
| Vlq.DecodeDigits | sourcemap/src/codec/vlq.ts:32-37 | The digit loop collects a 32-bit pattern and always consumes a character. |
| Vlq.DecodeInteger | sourcemap/src/codec/vlq.ts:27-48 | Decoding always consumes at least one character. |
| Vlq.DecodeIntegerLoop | sourcemap/src/codec/vlq.ts:27-48 | The do-while loop computes `DecodeInteger`. |
| Vlq.FromZigzag | sourcemap/src/codec/vlq.ts:39-44 | The result is a signed 32-bit value, negative exactly when the low bit of the pattern is set. |
| Vlq.Zigzag | sourcemap/src/codec/vlq.ts:53 | The result is an unsigned 32-bit pattern. |
| Vlq.ZigzagSign | sourcemap/src/codec/vlq.ts:53 | The low bit of the pattern is the sign of the delta. |
| Vlq.VlqDigits | sourcemap/src/codec/vlq.ts:54-59 | There is at least one digit. |
| Vlq.EncodeIntegerLoop | sourcemap/src/codec/vlq.ts:50-63 | The loop appends exactly `EncodeInteger` to the buffer, and returns `num`. |
| Vlq.ZigzagValue | sourcemap/src/codec/vlq.ts:53 | For deltas in (-2^31, 2^31) nothing wraps: the pattern is twice the magnitude, plus one for a negative delta. |
| Vlq.FromZigzagOfZigzag | sourcemap/src/codec/vlq.ts:39-53 | Decoding the sign undoes encoding it for every delta in [-2^31, 2^31). |
| Vlq.VlqDigitsShape | sourcemap/src/codec/vlq.ts:54-59 | The digits are base64. All but the last carry the continuation bit and the last does not. Their payloads spell the pattern. |
| Vlq.VlqDigitsLength | sourcemap/src/codec/vlq.ts:54-59 | A pattern below 32^k takes at most k digits, and a 32-bit pattern at most 7. |
| Vlq.DecodeDigitsOfVlq | sourcemap/src/codec/vlq.ts:32-37 | The decoding loop collects the pattern the encoder's digits spell, and stops right after them. |
| Vlq.DecodeOfEncode | sourcemap/src/codec/vlq.ts:27-63 | Decoding at `pos` what `encodeInteger` wrote there gives the number back with any relative base, whatever follows. `posOut` is just past the digits. |
| Vlq.EncodeIntegerExamples | sourcemap/src/codec/vlq.ts:50-63 | 0, 1, -1 and 16 encode as "A", "C", "D" and "gB". |
| Vlq.EncodeIntegerChars | sourcemap/src/codec/vlq.ts:54-59 | The encoder writes only base64 characters, never a separator. |
| Codec.Segment.WithGenColumn | sourcemap/src/codec/codec.ts:22-80 | The result keeps the segment's kind and its other fields, and has the new generated column. |
| Codec.Segment.WithDeltaColumn | sourcemap/src/codec/codec.ts:26-84 | The generated column moves by `delta`, and so does the source column of a mapped segment. The kind and the other fields stay. |
| Codec.WithDeltaColumnAdds | sourcemap/src/codec/codec.ts:26-84 | Shifting twice is shifting by the sum, and shifting by zero changes nothing. |
| Codec.WithGenColumnLaws | sourcemap/src/codec/codec.ts:22-80 | Replacing the column with its own value changes nothing, and the last replacement wins. |
| Codec.DecodeSegment | sourcemap/src/codec/codec.ts:101-119 | Decoding a segment always consumes input; `DecodeSegmentOfEncode` states what it reads. |
| Codec.ReadSegment | sourcemap/src/codec/codec.ts:104-112 | The five `decodeInteger` calls of a segment compute `DecodeSegment`. |
| Codec.DecodeLineLoop | sourcemap/src/codec/codec.ts:101-122 | The segment loop of one line computes the line and the totals `DecodeLine` specifies. |
| Codec.DecodeMappings | sourcemap/src/codec/codec.ts:89-144 | `decodeMappings` with its two callbacks computes `MappingsOf`. |
| Codec.WriteSegment | sourcemap/src/codec/codec.ts:179-190 | The `instanceof` chain appends the encoding of the segment's fields relative to the totals. |
| Codec.WriteLine | sourcemap/src/codec/codec.ts:171-191 | The inner loop appends the line's body from generated column 0: the segments separated by commas. |
| Codec.Encode | sourcemap/src/codec/codec.ts:148-195 | `encode` computes `Encoding`. |
| Codec.LineCount | sourcemap/src/codec/codec.ts:96-126 | Decoding yields exactly one more line than the text has `';'` characters. |
| Codec.DecodeLinesCount | sourcemap/src/codec/codec.ts:96-126 | From any index, decoding yields one line per `';'` left, plus one. |
| Codec.LinesIgnoreGenColumn | sourcemap/src/codec/codec.ts:99 | Every line restarts the generated column at 0, so the column carried in has no effect. |
| Codec.LinesFromSemicolons | sourcemap/src/codec/codec.ts:167 | The encoder writes one `';'` between consecutive lines. |
| Codec.EncodingSemicolons | sourcemap/src/codec/codec.ts:163-169 | The encoding of non-empty mappings holds one `';'` fewer than it has lines. |
| Codec.SegmentNoSeparator | sourcemap/src/codec/codec.ts:179-190 | A segment's text is non-empty and holds no comma and no semicolon. |
| Codec.DecodeSegmentOfEncode | sourcemap/src/codec/codec.ts:101-122 | The decoder reads back one segment the encoder wrote, when a comma or the line end follows it, and stops right after it. |
| Codec.DecodeLineOfEncode | sourcemap/src/codec/codec.ts:101-122 | The segments the encoder wrote for a line are read back, with the totals the encoder ends with. |
| Codec.DecodeLinesOfEncode | sourcemap/src/codec/codec.ts:96-126 | The lines the encoder wrote are read back to the end of the text. |
| Codec.SameLines | sourcemap/src/codec/codec.ts:99 | Totals that differ only in the generated column decode the same lines. |
| Codec.RoundTrip | sourcemap/src/codec/codec.ts:89-195 | `decodeMappings(encode(ms)) == ms` for one line or more, when every relative field fits in 32 bits. |
| Codec.EmptyMappings | sourcemap/src/codec/codec.ts:96-163 | Encoding no lines gives "", which decodes to one empty line. |
| SourceMaps.SourceMapV3.constructor | sourcemap/src/SourceMap.ts:30-37 | The constructor stores every field and starts with an empty cache. |
| SourceMaps.SourceMapV3.WithMappings | sourcemap/src/SourceMap.ts:39-41 | The result is a new map that differs from this one in `mappings` only, with an empty cache. |
| SourceMaps.SourceMapV3.GetDecodedMappings | sourcemap/src/SourceMap.ts:43-48 | The result is the decoding of `mappings`. After the first call the cache holds it and keeps it. |
| SourceMaps.SourceMapV3.Lookup | sourcemap/src/SourceMap.ts:50-66 | The result is `undefined` for a missing line. On a sorted line it is the source position of the last segment at or before the column, when that segment is mapped. Any answer is such a segment's position. |
| SourceMaps.FromJson | sourcemap/src/SourceMap.ts:17-24 | The result succeeds exactly for version 3, keeping every field. Otherwise it throws "Unsupported version". |
| SourceMaps.SortedIsMonotonous | sourcemap/src/SourceMap.ts:54 | On a sorted line, the search predicate of `lookup` is monotonous. |
| SourceMaps.LastAtOrBefore | sourcemap/src/SourceMap.ts:54 | The index is the last segment at or before the column, or -1 when there is none. |
| SourceMaps.LastAtOrBeforeIs | sourcemap/src/SourceMap.ts:54-55 | The index at the search's boundary is the last segment at or before the column. |
| SourceMaps.LookupOfSorted | sourcemap/src/SourceMap.ts:50-66 | `lookup` answers exactly when the last segment at or before the column is mapped, and then with its source, line and column. |
| SourceMaps.LastNonEmptyLine | sourcemap/src/SourceMap.ts:136-155 | The result is `None` exactly when the text has no ink character. Otherwise the line holds the last ink character, starts at a line start, runs through its terminating `'\n'`, and has only blanks after it. |
| SourceMaps.FindLastNonEmptyLine | sourcemap/src/SourceMap.ts:136-155 | The backward scan computes `LastNonEmptyLine`. |
| SourceMaps.TrimLaws | sourcemap/src/SourceMap.ts:104 | `trim` leaves no JavaScript whitespace at either end, and keeps a trimmed string unchanged. |
| SourceMaps.SourceMapLocation.ToString | sourcemap/src/SourceMap.ts:130-132 | The comment line starts with the prefix and ends in `'\n'`. |
| SourceMaps.FindWithRange | sourcemap/src/SourceMap.ts:93-107 | The result is found exactly when the last non-empty line starts with `//# sourceMappingURL=`. It then has that line's range and a trimmed URL. |
| SourceMaps.Find | sourcemap/src/SourceMap.ts:109-111 | `find` succeeds exactly when `findWithRange` does. |
| SourceMaps.SetThenFind | sourcemap/src/SourceMap.ts:93-125 | For a trimmed URL without line breaks, `findWithRange` after `set(source, loc)` finds `loc`, and its range holds exactly `loc.toString()`. |
| SourceMaps.FoundPlaced | sourcemap/src/SourceMap.ts:93-107 | A comment with a plain URL, placed at a line start with only whitespace after it, is found with its location and its exact range. |
| SourceMaps.SetPlaces | sourcemap/src/SourceMap.ts:113-125 | `set` puts the comment text at a line start, with only whitespace after it. |
| SourceMaps.SetUndefined | sourcemap/src/SourceMap.ts:117 | Over a text that is one comment with a plain URL, `set(source, undefined)` as written gives "undefined", and the corrected `set` gives "". |
| SourceMaps.SetRemovesComment | sourcemap/src/SourceMap.ts:113-117 | The corrected `set` with no location cuts exactly the comment's range out. |
| SourceMaps.SetAppends | sourcemap/src/SourceMap.ts:118-124 | Without a comment, `set` appends it, after a `'\n'` unless the source already ends in one. |
| ApplyEdits.CutIndex | sourcemap/src/sourceMapApplyEdit.ts:29 | The result is -1 or an index into the line; `CutPart` states which segment it picks. |
| ApplyEdits.Cut | sourcemap/src/sourceMapApplyEdit.ts:33-34 | The cut segment starts at the output column. |
| ApplyEdits.CutPart | sourcemap/src/sourceMapApplyEdit.ts:29-35 | There is one cut segment exactly when some segment starts before the gap start. It is that segment, cut, at the output column. |
| ApplyEdits.CutFields | sourcemap/src/sourceMapApplyEdit.ts:34 | The cut keeps the segment's kind, source, source line and name. Corrected, its source column moves by the cut's distance into the segment. As written, it moves further, by the output column's distance from the gap start. |
| ApplyEdits.AppendExistingSpec | sourcemap/src/sourceMapApplyEdit.ts:24-80 | A gap adds one output line per line it spans and keeps the finished output lines. Corrected, the input table is unchanged. |
| ApplyEdits.InsertSpec | sourcemap/src/sourceMapApplyEdit.ts:82-95 | An unmapped segment goes at the current column. The text's line breaks open that many empty lines, and the column moves past the text's last line. |
| ApplyEdits.AppendSingle | sourcemap/src/sourceMapApplyEdit.ts:25-46 | A one-line gap keeps the input table and the finished output lines, adds no line, and moves the output column by the gap's width. |
| ApplyEdits.StartMappings | sourcemap/src/sourceMapApplyEdit.ts:52-56 | Only the gap's start line of the input table can change. Corrected, none changes. |
| ApplyEdits.AppendMulti | sourcemap/src/sourceMapApplyEdit.ts:47-79 | A gap over several lines adds one output line per line break, keeps the finished output lines, and ends at the gap end's column. Corrected, the input table is unchanged. |
| ApplyEdits.Step | sourcemap/src/sourceMapApplyEdit.ts:109-121 | One edit adds the gap's line breaks and the inserted text's line breaks to the output lines. The input table keeps its size, and stays unchanged when corrected. |
| ApplyEdits.Fold | sourcemap/src/sourceMapApplyEdit.ts:109-121 | After any chain of edits the output has a line and the input table keeps its size. Corrected, the table is unchanged. |
| ApplyEdits.Construct | sourcemap/src/sourceMapApplyEdit.ts:107-126 | The input table keeps its number of lines, and it is unchanged when corrected. |
| ApplyEdits.AppendExisting | sourcemap/src/sourceMapApplyEdit.ts:24-80 | `appendExisting`'s two branches and their loops compute `AppendExistingSpec`, as written. |
| ApplyEdits.AppendSingleLine | sourcemap/src/sourceMapApplyEdit.ts:25-46 | The one-line branch computes `AppendSingle` as written. |
| ApplyEdits.AppendLines | sourcemap/src/sourceMapApplyEdit.ts:47-79 | The multi-line branch computes `AppendMulti` as written. |
| ApplyEdits.AppendStartLine | sourcemap/src/sourceMapApplyEdit.ts:49-60 | The start-line part of the branch computes the changed input table and the copied segments, as written. |
| ApplyEdits.CopyGap | sourcemap/src/sourceMapApplyEdit.ts:37-43 | The copy loop appends the segments before the gap end, moved by the column offset. |
| ApplyEdits.CopyRest | sourcemap/src/sourceMapApplyEdit.ts:57-60 | The start-line loop appends every segment from the index on, moved by the column offset. |
| ApplyEdits.CopyLines | sourcemap/src/sourceMapApplyEdit.ts:63-65 | The full-lines loop appends the input lines in between, unchanged. |
| ApplyEdits.CopyBefore | sourcemap/src/sourceMapApplyEdit.ts:70-77 | The last-line loop takes the end line's segments before the end column. |
| ApplyEdits.Insert | sourcemap/src/sourceMapApplyEdit.ts:82-95 | `insert` computes `InsertSpec`. |
| ApplyEdits.ConstructResultWithEdit | sourcemap/src/sourceMapApplyEdit.ts:107-126 | The loop over the edits and the final gap compute `Construct`, as written. |
| ApplyEdits.MappingsApplyEdit | sourcemap/src/sourceMapApplyEdit.ts:17-105 | `mappingsApplyEdit` fails with the `TypeError` exactly when the last normalized edit ends on a line past the table. Otherwise it walks the normalized edits up to the end of the last line, as written. For edits that stay within the table, this is `MappingsAfterEdit`. |
| ApplyEdits.ChainToLastEnd | sourcemap/src/sourceMapApplyEdit.ts:107-121 | A chain of edits ends at its last edit's end, and it is also a chain up to that end. |
| ApplyEdits.FinalGapPastTable | sourcemap/src/sourceMapApplyEdit.ts:47-51 | When the last edit ends past the table, the gap after it is non-empty and spans several lines. It starts on a line the table lacks, so `appendExisting` reads a missing start line. |
| ApplyEdits.NormalizedLastEnd | sourcemap/src/sourceMapApplyEdit.ts:18 | Normalized edits still form a chain, and they end no later than the original chain may end. |
| ApplyEdits.NormalizedWithinTable | sourcemap/src/sourceMapApplyEdit.ts:18-102 | If ordered edits end within the table's last line once normalized, the table has a line and the normalized edits chain up to its end. |
| ApplyEdits.SourceMapApplyEdit | sourcemap/src/sourceMapApplyEdit.ts:10-15 | It fails with the `TypeError` exactly when the edit reaches past the decoded table. Otherwise the new map's `mappings` is the encoding of the edited decoded table, and every other field is copied. |
| ApplyEdits.NormalizeChain | sourcemap/src/sourceMapApplyEdit.ts:18 | `normalize` keeps a chain of forwards, ordered edits a chain between the same positions. |
| ApplyEditLaws.NormalizeKeepsSums | sourcemap/src/sourceMapApplyEdit.ts:18 | `normalize` keeps the number of line breaks the edits cover and the number they insert. |
| ApplyEditLaws.FoldLineCount | sourcemap/src/sourceMapApplyEdit.ts:107-121 | The walk adds the line breaks from its start to the end, less those the edits span, plus those they insert. |
| ApplyEditLaws.ConstructLineCount | sourcemap/src/sourceMapApplyEdit.ts:107-126 | The walk's output gains each old line break up to the end, except the edited ones, plus each inserted one. |
| ApplyEditLaws.MappingsAfterEditLineCount | sourcemap/src/sourceMapApplyEdit.ts:17-105 | The result has one line per line of the edited text: the old count, less the line breaks the edits remove, plus those they insert. |
| ApplyEditLaws.InsertKeepsOrdered | sourcemap/src/sourceMapApplyEdit.ts:82-95 | `insert` keeps the output lines sorted by generated column, within the current column. |
| ApplyEditLaws.AppendSingleKeepsOrdered | sourcemap/src/sourceMapApplyEdit.ts:25-46 | A one-line gap keeps the output sorted, both as written and corrected. |
| ApplyEditLaws.AppendMultiKeepsOrdered | sourcemap/src/sourceMapApplyEdit.ts:47-79 | A gap over several lines keeps the corrected output sorted. |
| ApplyEditLaws.AppendExistingKeepsOrdered | sourcemap/src/sourceMapApplyEdit.ts:24-80 | Any gap keeps the corrected output sorted. |
| ApplyEditLaws.CopyUntilBounds | sourcemap/src/sourceMapApplyEdit.ts:37-43 | The copied segments are sorted, moved by the offset, and end before the moved gap end. |
| ApplyEditLaws.ShiftAllBounds | sourcemap/src/sourceMapApplyEdit.ts:57-60 | The copied rest of a sorted line is sorted and moved by the offset. |
| ApplyEditLaws.TakeBeforeBounds | sourcemap/src/sourceMapApplyEdit.ts:70-77 | The taken segments are sorted and all before the end column. |
| ApplyEditLaws.FoldKeepsOrdered | sourcemap/src/sourceMapApplyEdit.ts:107-126 | The corrected walk keeps the output sorted over any chain of edits. |
| ApplyEditLaws.MappingsAfterEditSorted | sourcemap/src/sourceMapApplyEdit.ts:17-105 | Corrected, sorted input lines give sorted output lines. |
| ApplyEditLaws.SingleLineCutColumn | sourcemap/src/sourceMapApplyEdit.ts:31-35 | Deleting two characters of [[(0,0,0,0)]]: as written the cut maps output column 0 to source column 0; corrected, to source column 2. |
| ApplyEditLaws.MultiLineCutAsWritten | sourcemap/src/sourceMapApplyEdit.ts:52-60 | As written, a multi-line gap that cuts a segment grows the input's start line by one. When the output column is left of the gap start, the output line becomes unsorted. |
| ApplyEditLaws.MultiLineDeleteUnsorted | sourcemap/src/sourceMapApplyEdit.ts:49-60 | As written, deleting a line's first characters where they cut a segment that another follows gives unsorted output. |
| ApplyEditLaws.GrownCopyOutOfOrder | sourcemap/src/sourceMapApplyEdit.ts:57-60 | When the cut pushed onto the start line lies left of the gap start, copying that line puts it after segments with larger columns. |
| ApplyEditLaws.MultiLineCutTable | sourcemap/src/sourceMapApplyEdit.ts:49-60 | A concrete sorted two-line table whose as-written result is unsorted. |
| ApplyEditLaws.MultiLineCutTableCorrected | sourcemap/src/sourceMapApplyEdit.ts:49-60 | The corrected result for the same table and edit is sorted. |
| DynamicByteArrays.BigEndian32 | recording/src/utils/DynamicByteArray.ts:16-21 | There are four bytes; `BigEndian32Value` states what they spell. |
| DynamicByteArrays.BigEndian32Value | recording/src/utils/DynamicByteArray.ts:16-21 | For a 32-bit value the four bytes are its base-256 digits, most significant first, and spell the value. |
| DynamicByteArrays.DynamicByteArray.constructor | recording/src/utils/DynamicByteArray.ts:2-5 | The buffer starts empty, with capacity 1024. |
| DynamicByteArrays.DynamicByteArray.Push | recording/src/utils/DynamicByteArray.ts:7-14 | The byte is appended. A full buffer is first doubled and keeps its old contents. |
| DynamicByteArrays.DynamicByteArray.PushU32 | recording/src/utils/DynamicByteArray.ts:16-21 | The four big-endian bytes of the value are appended. |
| DynamicByteArrays.DynamicByteArray.GetBuffer | recording/src/utils/DynamicByteArray.ts:23-25 | The result is a copy of exactly the pushed bytes. |
| ExecutionRecorders.OrOpcode | recording/src/ExecutionRecorder.ts:93-106 | Or-ing an opcode with a six-bit value adds them. |
| ExecutionRecorders.OperandWidths | recording/src/ExecutionRecorder.ts:93-109 | The operand is one byte below 61. Above that it is an escape followed by 1, 2 or 3 little-endian bytes, up to 255, below 65280 and below 16711680. Larger operands throw. |
| ExecutionRecorders.AsWrittenBelow32 | recording/src/ExecutionRecorder.ts:98-102 | Below 2^32 the `>>>` width tests agree with the exact ones. |
| ExecutionRecorders.FirstByteKind | recording/src/ExecutionRecorder.ts:80-106 | Every written first byte carries the opcode's kind in its top two bits. |
| ExecutionRecorders.ModuleInfoBytes | recording/src/ExecutionRecorder.ts:51-61 | Module info is the tag 193, the payload length in four big-endian bytes, then the payload. |
| ExecutionRecorders.WriteInstruction | recording/src/ExecutionRecorder.ts:88-110 | Appends exactly the operand encoding as written, or appends nothing and throws "value is too big". |
| ExecutionRecorders.InstructionWriter.GetBuffer | recording/src/ExecutionRecorder.ts:47-49 | The result is the bytes written so far. |
| ExecutionRecorders.InstructionWriter.WriteModuleInfo | recording/src/ExecutionRecorder.ts:51-61 | The tag, the length and the payload are appended. |
| ExecutionRecorders.InstructionWriter.WriteFunctionEnter | recording/src/ExecutionRecorder.ts:63-65 | The call opcode with the function id is appended, or the method throws. |
| ExecutionRecorders.InstructionWriter.WriteBlockExecution | recording/src/ExecutionRecorder.ts:67-69 | The block opcode with the block id is appended, or the method throws. |
| ExecutionRecorders.InstructionWriter.WriteFunctionReturn | recording/src/ExecutionRecorder.ts:71-73 | The byte 192 is appended. |
| ExecutionRecorders.InstructionWriter.WriteSetModuleId | recording/src/ExecutionRecorder.ts:75-77 | The module opcode with the module id is appended, or the method throws. |
| ExecutionRecorders.ExecutionRecorder.constructor | recording/src/ExecutionRecorder.ts:5-13 | The recorder starts with `_lastModuleId` -1, no resolved modules and an empty buffer. |
| ExecutionRecorders.ExecutionRecorder.GetBuffer | recording/src/ExecutionRecorder.ts:15-17 | The result is the recorded bytes. |
| ExecutionRecorders.ExecutionRecorder.RecordFunctionEnter | recording/src/ExecutionRecorder.ts:19-26 | On a module switch, the module id is written, the module becomes current, and its info is written if new. Then the call is written. The new state is `Enter`'s. |
| ExecutionRecorders.ExecutionRecorder.RecordBlockExecution | recording/src/ExecutionRecorder.ts:28-30 | The new state is `Block`'s: only the block instruction is appended, or the call throws. |
| ExecutionRecorders.ExecutionRecorder.RecordFunctionReturn | recording/src/ExecutionRecorder.ts:32-34 | The new state is `Return`'s: only the return byte is appended. |
| ExecutionRecorders.ExecutionRecorder.WriteModuleInfoIfNeeded | recording/src/ExecutionRecorder.ts:36-41 | A resolved module changes nothing. Otherwise the module joins the resolved set and its info is appended. |
| RecorderLaws.StepWire | recording/src/ExecutionRecorder.ts:19-41 | A completed recorder call appends exactly the wire bytes of the instructions it emits. |
| RecorderLaws.StepCompletes | recording/src/ExecutionRecorder.ts:19-34 | For 32-bit ids, a call completes exactly when its ids are below the operand limit: the function id, and the module id on a switch. |
| RecorderLaws.RecordWire | recording/src/ExecutionRecorder.ts:19-41 | A run of recorder calls only appends: the buffer ends with the bytes of the trace they wrote. |
| RecorderLaws.LastIsResolved | recording/src/ExecutionRecorder.ts:19-41 | The last module switched to is always among the resolved modules. |
| RecorderLaws.StepFields | recording/src/ExecutionRecorder.ts:19-24 | A completed call sets `_lastModuleId` to the module entered, and resolves it on a switch. |
| RecorderLaws.SwitchShape | recording/src/ExecutionRecorder.ts:19-26 | A switching call emits the switch, then module info for a new module, then the call. |
| RecorderLaws.EmittedInfoAt | recording/src/ExecutionRecorder.ts:19-41 | The only module info a call emits is the second instruction of a switch to a new module. |
| RecorderLaws.StepInv | recording/src/ExecutionRecorder.ts:19-41 | One call keeps the recording invariant, with its instructions appended to the trace. |
| RecorderLaws.RecordInv | recording/src/ExecutionRecorder.ts:19-41 | A whole run from a state meeting the invariant keeps it, with its trace appended. |
| RecorderLaws.RecordingLaws | recording/src/ExecutionRecorder.ts:5-41 | After a completed recording, `_lastModuleId` is the last module switched to in the trace, and `_resolvedModules` is the set of modules switched to. Every module info directly follows a switch to its module, and `get_module_info` over the trace finds the resolver's info for exactly the resolved modules. |
| RecorderLaws.InfoOncePerModule | recording/src/ExecutionRecorder.ts:36-41 | No two module infos in a recorded trace belong to the same module. |
| RecorderLaws.EmittedEncodable | recording/src/ExecutionRecorder.ts:88-110 | A completed call with 32-bit ids writes only instructions the decoder reads back. |
| RecorderLaws.RecordingRoundTrip | recording/src/ExecutionRecorder.ts:19-110 | The analyzer decodes the recorded bytes into exactly the instructions the recorder calls emitted. For every module switched to, `get_module_info` returns the info the resolver gave. |
| TraceCodec.WireOk | recording/src/ExecutionRecorder.ts:88-110 | The writer accepts every instruction whose operand is below the limit. |
| TraceCodec.OperandDecode | recording-analyzer-rust/src/instruction.rs:32-44 | An operand instruction decodes to its kind, with the operand `read_u32_vl` reads. |
| TraceCodec.OperandRead | recording-analyzer-rust/src/instruction.rs:68-99 | `read_u32_vl` reads back the operand the writer encoded, just past its bytes. |
| TraceCodec.OperandRoundTrip | recording-analyzer-rust/src/instruction.rs:27-99 | Decoding an operand instruction the writer produced gives back the opcode's instruction and operand, just past its bytes. |
| TraceCodec.ModuleInfoRoundTrip | recording-analyzer-rust/src/instruction.rs:46-51 | Decoding written module info gives back the payload, just past it. |
| TraceCodec.ModuleInfoHeader | recording/src/ExecutionRecorder.ts:51-61 | Written module info starts with the tag 193, followed by the payload length, which `read_u32` reads back. |
| TraceCodec.ReturnDecode | recording-analyzer-rust/src/instruction.rs:45 | A lone 192 decodes as a return. |
| TraceCodec.WireRoundTrip | recording-analyzer-rust/src/instruction.rs:27-54 | Each encodable instruction written anywhere decodes back to itself, ending where its bytes end. |
| TraceCodec.WireAllOk | recording/src/ExecutionRecorder.ts:88-110 | Writing a list of encodable instructions succeeds. |
| TraceCodec.DecodeWireAll | recording-analyzer-rust/src/instruction.rs:102-116 | Decoding from a position up to the end of the written bytes yields the list written there. |
| TraceCodec.DecodeOfWrite | recording-analyzer-rust/src/instruction.rs:102-123 | Decoding the bytes written for a list of encodable instructions gives that list. |
| TraceCodec.WrappedOperand | recording/src/ExecutionRecorder.ts:98-101 | As written, the operand 2^32 is written as [0x7E, 0, 0], which decodes as a call of function 0. |
| TraceCodec.FixedOperandLimit | recording/src/ExecutionRecorder.ts:93-109 | With exact width tests, the writer succeeds exactly below 16711680, and throws for 2^32. |
| InstructionDecoder.ReadU32Value | recording-analyzer-rust/src/instruction.rs:57-66 | With four bytes left, `read_u32` gives their big-endian value and moves past them. |
| InstructionDecoder.NextByte | recording-analyzer-rust/src/instruction.rs:77 | `iter.next()` gives a byte exactly before the end of the data, and then the byte at the position. |
| InstructionDecoder.ReadU32VlValue | recording-analyzer-rust/src/instruction.rs:68-99 | `read_u32_vl` is the low six bits of the first byte, or the escape's 1, 2 or 3 bytes least significant first. |
| InstructionDecoder.FromIter | recording-analyzer-rust/src/instruction.rs:27-54 | The result is `None` exactly at the end of the data. An instruction read ends after its first byte and within the data. |
| InstructionDecoder.FromIterKind | recording-analyzer-rust/src/instruction.rs:32-52 | The first byte alone decides the kind: 0-63, 64-127, 128-191, 192 and 193. |
| InstructionDecoder.FromIterInvalid | recording-analyzer-rust/src/instruction.rs:52 | Bytes 194 to 255 panic with "Invalid instruction". |
| Replays.Execute | recording-analyzer-rust/src/wasm_api.rs:74-93 | An instruction panics exactly for a call with no current module, or a return on an empty stack. The counter rises for calls and blocks. |
| Replays.Frames | recording-analyzer-rust/src/wasm_api.rs:100-118 | There is one frame per stack entry. |
| Replays.CollectFrames | recording-analyzer-rust/src/wasm_api.rs:100-118 | The `tuple_windows` loop computes `Frames`. |
| Replays.StackAt | recording-analyzer-rust/src/wasm_api.rs:59-122 | `stack_at` is the frames of the replay that stops once the counter reaches the count. |
| Replays.GetModuleInfo | recording-analyzer-rust/src/wasm_api.rs:33-57 | The loop computes the first module info read while the module is current. |
| Replays.Decode | recording-analyzer-rust/src/wasm_api.rs:26-31 | `decode` collects every instruction until the data ends. |
| ReplayLaws.ReplayIsRunUntil | recording-analyzer-rust/src/wasm_api.rs:59-98 | Replaying the bytes is running their decoded instructions until the stop. |
| ReplayLaws.RunUntilPrefix | recording-analyzer-rust/src/wasm_api.rs:71-98 | The loop stops after the first instruction that brings the counter to the count, or at the end. Its state is the run of the prefix it consumed. |
| ReplayLaws.RunCounts | recording-analyzer-rust/src/wasm_api.rs:74-93 | A run's stack grows by one per call and shrinks by one per return; the counter rises once per call and per block. The current module is the last one set. |
| ReplayLaws.FrameCount | recording-analyzer-rust/src/wasm_api.rs:59-122 | `stack_at` reports one frame per call not yet returned in the prefix it replayed. |
| ReplayLaws.CallWithoutModule | recording-analyzer-rust/src/wasm_api.rs:78-80 | A call with no earlier `SetModuleId` panics. |
| ReplayLaws.ReturnWithoutCall | recording-analyzer-rust/src/wasm_api.rs:87-88 | A return with every earlier call already returned panics. |
| ReplayLaws.FramesAfterCall | recording-analyzer-rust/src/wasm_api.rs:78-82 | A call adds an innermost frame in no block, and the caller's frame keeps its block. |
| ReplayLaws.FramesAfterReturn | recording-analyzer-rust/src/wasm_api.rs:87-90 | A return drops the innermost frame, and the caller's frame is as it was reported before. |
| ReplayLaws.FramesAfterBlock | recording-analyzer-rust/src/wasm_api.rs:83-86 | Reaching a block moves only the innermost frame to it. |
| ReplayLaws.CallThenReturn | recording-analyzer-rust/src/wasm_api.rs:78-90 | A call followed by its return restores everything but the counter. |
| ReplayLaws.InfoInFirst | recording-analyzer-rust/src/wasm_api.rs:40-54 | `get_module_info` returns the first module info read while the module is current. |
| ReplayLaws.InfoInNone | recording-analyzer-rust/src/wasm_api.rs:40-56 | `get_module_info` finds nothing exactly when no module info is read while the module is current. |
| Decimals.Decimal | recording/src/Instruction.ts:36 | The result is digits without leading zeros, with "0" for zero, and is one digit exactly below 10. |
| Decimals.ValueOfDecimal | recording/src/Instruction.ts:36 | Reading the digits back gives the number. |
| Decimals.DecimalInjective | recording/src/Instruction.ts:36 | Distinct numbers print differently. |
| Decimals.IntString | recording/src/ModuleInfo.ts:150 | The result is digits exactly for non-negative numbers and starts with '-' exactly for negative ones. It never holds ':'. |
| Decimals.IntStringInjective | recording/src/ModuleInfo.ts:150 | Distinct integers print differently. |
| Instructions.Instruction.WriteInstruction | recording/src/Instruction.ts:8-28 | Each kind goes to its writer method. The bytes appended are the wire form of the lowered instruction, and a failed JSON round trip throws. |
| Instructions.ToStringInjective | recording/src/Instruction.ts:35-72 | Equal texts come from equal instructions. |
| Instructions.EqualsIsEquality | recording/src/Instruction.ts:4-6 | `equals` holds exactly for structurally equal instructions. |
| Instructions.WrittenDecodes | recording/src/Instruction.ts:8-28 | The bytes `writeInstruction` appends decode, where they start, to the instruction written, and end where the next one starts. |
| ModuleInfos.FunctionInfo.GetBlockLocationRef | recording/src/ModuleInfo.ts:122-127 | No block id gives the function's own location. A block id gives that block's entry, or none when it is past the table or the entry is empty. |
| ModuleInfos.Translate | recording/src/ModuleInfo.ts:63-75 | A reference is written exactly when there is a location. It carries the location's line, and the tracker then holds the location's character and path. |
| ModuleInfos.Serialize | recording/src/ModuleInfo.ts:57-91 | The nested loops compute `Serialized`. |
| ModuleInfos.Process | recording/src/ModuleInfo.ts:22-38 | A missing reference reads as no location and leaves the tracker; as written, so does the bare line `0`. A location read sets the tracker to its character and path. |
| ModuleInfos.From | recording/src/ModuleInfo.ts:12-50 | `from`'s nested loops compute `Deserialized`, as written. |
| ModuleInfos.FunctionOfSnoc | recording/src/ModuleInfo.ts:39-44 | The first location read goes to the function and the others go to its blocks, in order. |
| ModuleInfos.ProcessTranslate | recording/src/ModuleInfo.ts:63-75 | Reading a written reference with the same tracker gives the location back, and leaves the same tracker. |
| ModuleInfos.ProcessTranslateAll | recording/src/ModuleInfo.ts:77-82 | Reading a written run of references gives the run back. |
| ModuleInfos.ReadSerializedFns | recording/src/ModuleInfo.ts:12-91 | Reading the written functions gives the functions back. |
| ModuleInfos.RoundTrip | recording/src/ModuleInfo.ts:12-91 | With the bare `0` read as a line, `from(serialize(m))` is `m`. |
| ModuleInfos.AsWrittenAgrees | recording/src/ModuleInfo.ts:24 | The test `!loc` as written differs from the corrected reading only when a bare `0` occurs. |
| ModuleInfos.TranslateAllNoBareZero | recording/src/ModuleInfo.ts:72-73 | Only a location on line 0 can be written as the bare `0`. |
| ModuleInfos.RoundTripAsWritten | recording/src/ModuleInfo.ts:12-91 | As written, `from(serialize(m))` is `m` when no location is on the first line. |
| ModuleInfos.FirstLineLost | recording/src/ModuleInfo.ts:24 | A function at (0, 0) of path 0 is written as the bare `0`, and `from` then reads it without a location. |
| ModuleInfos.GetTextPos | recording/src/ModuleInfo.ts:93-105 | An unknown function throws. A missing reference gives a position without a location. Otherwise the position has the reference's path, line and character. |
| ModuleInfos.TextPosRoundTrip | recording/src/ModuleInfo.ts:93-105 | `from(serialize(m))`, corrected, answers every `getTextPos` as `m` does. |
| ModuleInfos.FirstLineLookupLost | recording/src/ModuleInfo.ts:93-99 | As written, `getTextPos` for the function of `FirstLineLost` finds no location, though it has one. |
| ModuleInfos.SourceLocationText | recording/src/ModuleInfo.ts:148-151 | `SourceLocation.toString` is injective in the path text, the line and the character. |
| ModuleInfos.SourceLocationOneBased | recording/src/ModuleInfo.ts:148-151 | The printed line and character are the zero-based ones plus one. |
| ModuleInfos.ExecutionPositionIds | recording/src/ModuleInfo.ts:137-139 | Equal texts of `ExecutionPosition.toString` have the same function and the same block. |
| ModuleInfos.MixedIds | recording/src/ModuleInfo.ts:138 | Ids with a block never print like ids without one. |

## Left out

- **I/O and encodings.** Reading files, `TextDecoder`/`TextEncoder` and `Buffer` are not modelled. JSON text is not parsed:
  - `writeModuleInfo`'s JSON serialisation and UTF-8 encoding are a parameter giving the payload bytes;
  - `JSON.parse` in `writeInstruction` is a parameter that may fail;
  - the analyzer's `String::from_utf8(...).unwrap()` keeps the payload as bytes, so invalid UTF-8 is not a panic in the model.
- **Strings.** A string is a sequence of UTF-16 code units. `TextLength.ofText` iterates code points, so an astral character counts as two columns here.
- **JavaScript numbers.** They are modelled as unbounded integers.
  - Positions outside the text, which give `NaN` in JavaScript, are excluded by preconditions of `getOffset` and the text-edit functions.
  - PositionOffsetTransformers.PositionOffsetTransformer.GetPosition requires a non-negative offset. For a negative offset the source returns `TextPos(-1, NaN)`; every caller passes an offset of at least 0.
  - `${n}` texts use plain digits; the exponent notation JavaScript uses from 10^21 on and non-integral numbers are not modelled.
- **Buffering in the VLQ codec.** `maybeWrite`, `td` and the 16 KiB chunked output of `encode` are not modelled: the encoder appends to a string, which gives the same text.
- **Mutation the source does on values.**
  - `addRange` splices its argument in place; the model returns the new list.
  - `mappingsApplyEdit`'s closures mutate `lastLine`, `lastLineLength` and `resultMappings`; the model threads them as one state value. The growth of the input's start line (see Findings) is kept in that state.
- **`Int8Array` signedness.** The buffer holds bytes 0..255; the signed view `getBuffer` returns and the `wasm_bindgen` copy into `Vec<u8>` are not modelled.
- **Serialisation glue.** `serde_wasm_bindgen::to_value`, `parse_recording` and `get_len` of `wasm_api.rs` are not modelled, because they only convert values for JavaScript; results are returned as values.
- **`stack_at`'s `(None, _) => panic!("cannot happen")` branch.** It cannot be reached, and the model has no counterpart.
- **Two default branches are unreachable with closed datatypes and are omitted:**
  - `Instruction.writeInstruction`'s default branch ("Unknown instruction type");
  - the `instanceof` fall-through of `encode`.
- **Not modelled (file-system paths and base64 of JSON):** `SourceMapV3WithPath.fromFile` and `getFullSourcePath`, and `SourceMapLocation.createInline`.
- **Debugging text and callbacks.** `toString` of `OffsetRange`, `TextRange` and `TextLength` is debugging text and is not modelled. `OffsetRange.forEach` calls a callback only for its effects; `Map` models the same walk over the offsets.
- **Malformed serialised module info is not modelled.** The types exclude, for example, a `null` path index or a non-number line.
- **The recorder's callers are not part of this model:** `Recording.ts`, `RecordingAnalyzerApi.ts`, `recording/src/index.ts`, the instrumentation transformer and the extension.
- **Commented-out code is not modelled:** `TextEdit`'s `mapPosition`, `mapRange`, `inverse`, `getNewRanges` and `LineBasedText` are commented out in the source.
- ApplyEdits.MappingsApplyEdit and ApplyEdits.SourceMapApplyEdit require the edits in order, each ending at or after its start.
  - They also require the last normalized edit not to end on the table's last line beyond column `Number.MAX_SAFE_INTEGER`. The source does not throw there: its final gap runs backwards.
  - An edit that ends on a later line is modelled: it gives the `TypeError`.
- **Snapshot view:**
  - SourceMaps.SourceMapV3.Lookup: the result is pinned down only for sorted lines; on an unsorted line the model states that any answer is a mapped segment at or before the column, not which one the binary search picks.
  - ExecutionRecorders.ExecutionRecorder.RecordFunctionEnter: `resolveModuleId` is a total function from ids to payload bytes; a resolver that throws is not modelled.
- Vlq.DecodeOfEncode: stated for deltas in [-2^31, 2^31) only, because the encoder's `<< 1` drops the top bit outside that range.
- Codec.RoundTrip: stated for tables of at least one line whose relative fields fit 32 bits, because `encode([])` is "" and that decodes to one empty line (`EmptyMappings`).

## Findings

| source | as written | input that shows it | evidently intended | confidence | as-written member | corrected member |
|---|---|---|---|---|---|---|
| recording/src/ModuleInfo.ts:24 | `if (!loc)` treats the serialised bare line number `0` like `null`. | A module with one function located at line 0, character 0, path 0: `serialize` writes `[[0]]`, and `from` reads the function back without a location. | Only `null` means "no location", so `from(serialize(m))` equals `m`. | not executed | ModuleInfos.FirstLineLost | ModuleInfos.RoundTrip |
| sourcemap/src/sourceMapApplyEdit.ts:34 | The cut segment is moved with `withDeltaColumn(lastLineLength - before.genColumn)`, which shifts its source column by the same amount as its generated column. | The table `[[(0,0,0,0)]]` with its first two characters deleted: output column 0 maps to source column 0. | The cut maps to the source column of the text at the gap start, source column 2. | not executed | ApplyEditLaws.SingleLineCutColumn | ApplyEdits.CutFields |
| sourcemap/src/sourceMapApplyEdit.ts:55 | In a gap spanning several lines, the cut segment is pushed onto the input's start line (`startLine.push`). The loop after it then copies it a second time, shifted by `columnOffset`. | The table `[[(0,0,0,0), (10,0,0,5)], []]` with its first five characters deleted: the first output line is no longer sorted by generated column. The copied cut lands at column -5. | The cut is pushed onto the output line, as in the one-line branch, and the output stays sorted. | not executed | ApplyEditLaws.MultiLineCutTable | ApplyEditLaws.MappingsAfterEditSorted |
| sourcemap/src/SourceMap.ts:117 | `sourceMapLocation?.toString()` is concatenated even when the location is `undefined`. | `set("//# sourceMappingURL=a.js.map\n", undefined)` returns "undefined". | Setting no location removes the existing comment, returning "". | not executed | SourceMaps.SetUndefined | SourceMaps.SetRemovesComment |
| recording/src/ExecutionRecorder.ts:98 | The width tests use `n >>> 8` and `n >>> 16`, which reduce `n` modulo 2^32 first. | The function id 2^32 is written as `[0x7E, 0, 0]`, which the analyzer reads as function 0. | Operands of 16711680 and more throw "value is too big". | not executed | TraceCodec.WrappedOperand | TraceCodec.FixedOperandLimit |
| sourcemap/src/text/OffsetRange.ts:160 | Below the range `clipCyclic` returns `endExclusive - ((start - value) % length)`. When `start - value` is a multiple of the length, that is `endExclusive`. | `[5, 10).clipCyclic(0)` returns 10, which the range does not contain. | The result is `value + k * length` inside the range: 5 for this input. | not executed | OffsetRanges.ClipCyclicAsWrittenLeavesRange | OffsetRanges.ClipCyclic |
