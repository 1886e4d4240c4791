/**
 * The trace decoder of the analyzer (recording-analyzer-rust/src/instruction.rs):
 * it reads one instruction at a time from a byte iterator. The iterator is
 * modelled as the byte sequence and a position; every read returns the
 * position after it. A panic, which ends the analysis, is a `Fail`.
 */
module InstructionDecoder {
  import opened Wrappers
  import opened Bits
  import opened DynamicByteArrays

  /** `Instruction`; the module info JSON is kept as its undecoded bytes. */
  datatype Instruction =
    | SetModuleId(moduleId: nat)
    | CallFunction(functionId: nat)
    | ReachedBlock(blockId: nat)
    | ReturnFunction
    | SetModuleInfo(moduleInfoJson: seq<byte>)

  /** A value read from the stream and the position just after it. */
  datatype Read<+T> = Read(value: T, next: nat)

  /** The panic message of `unwrap()` on an exhausted iterator. */
  const UNWRAP_NONE := "called `Option::unwrap()` on a `None` value"
  const INVALID_INSTRUCTION := "Invalid instruction"

  /** `iter.next().unwrap()`. */
  function NextByte(data: seq<byte>, pos: nat): (r: Result<Read<byte>>)
    ensures r.Ok? <==> pos < |data|
    ensures r.Ok? ==> r.value == Read(data[pos], pos + 1)
  {
    if pos < |data| then Ok(Read(data[pos], pos + 1)) else Fail(UNWRAP_NONE)
  }

  /** `read_u32`: four bytes, most significant first, or-ed together after shifting. */
  function ReadU32(data: seq<byte>, pos: nat): Result<Read<nat>> {
    var b0 :- NextByte(data, pos);
    var b1 :- NextByte(data, b0.next);
    var b2 :- NextByte(data, b1.next);
    var b3 :- NextByte(data, b2.next);
    Ok(Read(BitOr(BitOr(BitOr(0x100_0000 * b0.value, 0x1_0000 * b1.value), 0x100 * b2.value), b3.value), b3.next))
  }

  /**
   * `read_u32_vl`: the low six bits of the first byte are the value, unless
   * they are 61, 62 or 63, in which case 1, 2 or 3 bytes follow, least
   * significant first.
   */
  function ReadU32Vl(data: seq<byte>, pos: nat, firstByte: byte): Result<Read<nat>> {
    var low: nat := firstByte % 64;
    if low == 61 then
      var b0 :- NextByte(data, pos);
      Ok(Read(b0.value as nat, b0.next))
    else if low == 62 then
      var b0 :- NextByte(data, pos);
      var b1 :- NextByte(data, b0.next);
      Ok(Read(BitOr(b0.value, 0x100 * b1.value as nat), b1.next))
    else if low == 63 then
      var b0 :- NextByte(data, pos);
      var b1 :- NextByte(data, b0.next);
      var b2 :- NextByte(data, b1.next);
      Ok(Read(BitOr(BitOr(b0.value, 0x100 * b1.value), 0x1_0000 * b2.value), b2.next))
    else Ok(Read(low, pos))
  }

  /** `read_u32` is the big-endian value of the four bytes. */
  lemma ReadU32Value(data: seq<byte>, pos: nat)
    requires pos + 4 <= |data|
    ensures ReadU32(data, pos) == Ok(Read(data[pos] as nat * 0x100_0000 + data[pos + 1] as nat * 0x1_0000
                                          + data[pos + 2] as nat * 0x100 + data[pos + 3] as nat, pos + 4))
  {
    var b0: nat, b1: nat, b2: nat, b3: nat := data[pos], data[pos + 1], data[pos + 2], data[pos + 3];
    Pow2Values();
    assert BitOr(0x100_0000 * b0, 0x1_0000 * b1) == 0x1_0000 * b1 + 0x100_0000 * b0 by {
      assert 0x100_0000 * b0 == 0x1_0000 * (0x100 * b0);
      BitOrShifted(0x100 * b0, b1, 16);
      BitOrComm(0x100 * b0, b1);
      BitOrDisjoint(b1, b0, 8);
    }
    var hi := 0x1_0000 * b1 + 0x100_0000 * b0;
    assert BitOr(hi, 0x100 * b2) == 0x100 * b2 + hi by {
      var h := 0x100 * b1 + 0x1_0000 * b0;
      assert hi == 0x100 * h;
      BitOrShifted(h, b2, 8);
      BitOrComm(h, b2);
      assert h == 0x100 * (b1 + 0x100 * b0);
      BitOrDisjoint(b2, b1 + 0x100 * b0, 8);
    }
    var mid := 0x100 * b2 + hi;
    assert BitOr(mid, b3) == b3 + mid by {
      BitOrComm(mid, b3);
      assert mid == 0x100 * (b2 + 0x100 * b1 + 0x1_0000 * b0);
      BitOrDisjoint(b3, b2 + 0x100 * b1 + 0x1_0000 * b0, 8);
    }
  }

  /** `read_u32_vl` is the value of the escape's bytes, least significant first. */
  lemma ReadU32VlValue(data: seq<byte>, pos: nat, firstByte: byte)
    ensures firstByte % 64 < 61 ==> ReadU32Vl(data, pos, firstByte) == Ok(Read((firstByte % 64) as nat, pos))
    ensures firstByte % 64 == 61 && pos + 1 <= |data| ==>
              ReadU32Vl(data, pos, firstByte) == Ok(Read(data[pos] as nat, pos + 1))
    ensures firstByte % 64 == 62 && pos + 2 <= |data| ==>
              ReadU32Vl(data, pos, firstByte) == Ok(Read(data[pos] as nat + 0x100 * data[pos + 1] as nat, pos + 2))
    ensures firstByte % 64 == 63 && pos + 3 <= |data| ==>
              ReadU32Vl(data, pos, firstByte) ==
              Ok(Read(data[pos] as nat + 0x100 * data[pos + 1] as nat + 0x1_0000 * data[pos + 2] as nat, pos + 3))
    ensures firstByte % 64 >= 61 && pos + firstByte % 64 - 60 > |data| ==> ReadU32Vl(data, pos, firstByte).Fail?
  {
    if firstByte % 64 == 62 && pos + 2 <= |data| {
      ReadTwoBytes(data, pos, firstByte);
    }
    if firstByte % 64 == 63 && pos + 3 <= |data| {
      ReadThreeBytes(data, pos, firstByte);
    }
  }

  lemma ReadTwoBytes(data: seq<byte>, pos: nat, firstByte: byte)
    requires firstByte % 64 == 62 && pos + 2 <= |data|
    ensures ReadU32Vl(data, pos, firstByte) == Ok(Read(data[pos] as nat + 0x100 * data[pos + 1] as nat, pos + 2))
  {
    assert Pow2(8) == 0x100 by { Pow2Values(); }
    BitOrDisjoint(data[pos], data[pos + 1], 8);
  }

  lemma ReadThreeBytes(data: seq<byte>, pos: nat, firstByte: byte)
    requires firstByte % 64 == 63 && pos + 3 <= |data|
    ensures ReadU32Vl(data, pos, firstByte) ==
            Ok(Read(data[pos] as nat + 0x100 * data[pos + 1] as nat + 0x1_0000 * data[pos + 2] as nat, pos + 3))
  {
    var lo: nat := data[pos] as nat + 0x100 * data[pos + 1] as nat;
    assert BitOr(data[pos], 0x100 * data[pos + 1] as nat) == lo by {
      assert Pow2(8) == 0x100 by { Pow2Values(); }
      BitOrDisjoint(data[pos], data[pos + 1], 8);
    }
    assert BitOr(lo, 0x1_0000 * data[pos + 2] as nat) == lo + 0x1_0000 * data[pos + 2] as nat by {
      assert Pow2(16) == 0x1_0000 by { Pow2Values(); }
      BitOrDisjoint(lo, data[pos + 2], 16);
    }
  }

  /**
   * `Instruction::from_iter`: `None` when the data is exhausted, else the
   * instruction at `pos` and the position after it. Module info takes the
   * announced number of bytes, or what is left when fewer remain.
   */
  function FromIter(data: seq<byte>, pos: nat): (r: Result<Option<Read<Instruction>>>)
    ensures r == Ok(None) <==> pos >= |data|
    ensures r.Ok? && r.value.Some? ==> pos < r.value.value.next <= |data|
  {
    if pos >= |data| then Ok(None)
    else
      var first := data[pos];
      if first < 0x40 then
        var n :- ReadU32VlFrom(data, pos + 1, first);
        Ok(Some(Read(SetModuleId(n.value), n.next)))
      else if first < 0x80 then
        var n :- ReadU32VlFrom(data, pos + 1, first);
        Ok(Some(Read(CallFunction(n.value), n.next)))
      else if first < 0xC0 then
        var n :- ReadU32VlFrom(data, pos + 1, first);
        Ok(Some(Read(ReachedBlock(n.value), n.next)))
      else if first == 0xC0 then Ok(Some(Read(ReturnFunction, pos + 1)))
      else if first == 0xC1 then
        var len :- ReadU32From(data, pos + 1);
        var taken := if len.value <= |data| - len.next then len.value else |data| - len.next;
        Ok(Some(Read(SetModuleInfo(data[len.next..len.next + taken]), len.next + taken)))
      else Fail(INVALID_INSTRUCTION)
  }

  /** `ReadU32Vl` with the bound on the position it returns. */
  function ReadU32VlFrom(data: seq<byte>, pos: nat, firstByte: byte): (r: Result<Read<nat>>)
    requires pos <= |data|
    ensures r == ReadU32Vl(data, pos, firstByte)
    ensures r.Ok? ==> pos <= r.value.next <= |data|
  {
    ReadU32Vl(data, pos, firstByte)
  }

  /** `ReadU32` with the bound on the position it returns. */
  function ReadU32From(data: seq<byte>, pos: nat): (r: Result<Read<nat>>)
    requires pos <= |data|
    ensures r == ReadU32(data, pos)
    ensures r.Ok? ==> r.value.next == pos + 4 <= |data|
  {
    ReadU32(data, pos)
  }

  /** The first byte alone decides the kind: 0-63, 64-127, 128-191, then 192, 193 and a panic above. */
  lemma FromIterKind(data: seq<byte>, pos: nat)
    requires pos < |data| && FromIter(data, pos).Ok?
    ensures FromIter(data, pos).value.Some?
    ensures var i := FromIter(data, pos).value.value.value;
            (data[pos] < 0x40 <==> i.SetModuleId?) && (0x40 <= data[pos] < 0x80 <==> i.CallFunction?) &&
            (0x80 <= data[pos] < 0xC0 <==> i.ReachedBlock?) && (data[pos] == 0xC0 <==> i.ReturnFunction?) &&
            (data[pos] == 0xC1 <==> i.SetModuleInfo?)
  {
  }

  /** Bytes 194 to 255 are not instructions: decoding panics there. */
  lemma FromIterInvalid(data: seq<byte>, pos: nat)
    requires pos < |data| && data[pos] > 0xC1
    ensures FromIter(data, pos) == Fail(INVALID_INSTRUCTION)
  {
  }

  /** `InstructionIter` run to its end, as `collect` does: the instructions from `pos` on. */
  function DecodeFrom(data: seq<byte>, pos: nat): Result<seq<Instruction>>
    decreases |data| - pos
  {
    match FromIter(data, pos)
    case Fail(e) => Fail(e)
    case Ok(None) => Ok([])
    case Ok(Some(Read(instr, next))) =>
      var rest :- DecodeFrom(data, next);
      Ok([instr] + rest)
  }
}
