/**
 * Base64 VLQ integers of the Source Map Revision 3 format
 * (sourcemap/src/codec/vlq.ts): the alphabet of section 4 of RFC 4648,
 * five payload bits per digit, bit 5 as continuation flag, the sign in the
 * lowest bit of the first digit.
 *
 * JavaScript's bitwise operators work on 32-bit patterns; they are modelled
 * on naturals below 2^32 with `Bits`. Reading past the end of the string
 * gives `NaN`, which the tables map to digit 0, so decoding stops there.
 */
module Vlq {
  import opened Bits

  // ---- the alphabet ----

  const Comma: char := ','
  const Semicolon: char := ';'

  predicate IsBase64(c: char) {
    'A' <= c <= 'Z' || 'a' <= c <= 'z' || '0' <= c <= '9' || c == '+' || c == '/'
  }

  /** The `chars` alphabet 'A'..'Z', 'a'..'z', '0'..'9', '+', '/', indexed by digit value. */
  function IntToChar(i: int): char
    requires 0 <= i < 64
  {
    if i < 26 then (65 + i) as char
    else if i < 52 then (97 + i - 26) as char
    else if i < 62 then (48 + i - 52) as char
    else if i == 62 then '+'
    else '/'
  }

  /** The `charToInt` table: the digit value, and 0 for every other character. */
  function CharToInt(c: char): (i: int)
    ensures 0 <= i < 64
    ensures !IsBase64(c) ==> i == 0
  {
    if 'A' <= c <= 'Z' then c as int - 65
    else if 'a' <= c <= 'z' then c as int - 97 + 26
    else if '0' <= c <= '9' then c as int - 48 + 52
    else if c == '+' then 62
    else if c == '/' then 63
    else 0
  }

  /** `charToInt[intToChar[i]] == i`: the two tables are inverse on digits. */
  lemma CharToIntOfIntToChar(i: int)
    requires 0 <= i < 64
    ensures IsBase64(IntToChar(i)) && CharToInt(IntToChar(i)) == i
  {
  }

  /** ... and every base64 character is the digit of its value. */
  lemma IntToCharOfCharToInt(c: char)
    requires IsBase64(c)
    ensures IntToChar(CharToInt(c)) == c
  {
  }

  /** A digit value has one character. */
  lemma CharOfDigit(i: int)
    requires 0 <= i < 64
    ensures forall c: char :: IsBase64(c) && CharToInt(c) == i ==> c == IntToChar(i)
  {
  }

  /**
   * The loop that fills `intToChar` (char codes by value) and `charToInt`
   * (values by char code, 128 entries, zero-initialised) from the alphabet.
   */
  method BuildTables() returns (intToChar: seq<int>, charToInt: seq<int>)
    ensures |intToChar| == 64 && |charToInt| == 128
    ensures forall i :: 0 <= i < 64 ==> intToChar[i] == IntToChar(i) as int
    ensures forall c :: 0 <= c < 128 ==> charToInt[c] == CharToInt(c as char)
  {
    intToChar := seq(64, _ => 0);
    charToInt := seq(128, _ => 0);
    var i := 0;
    while i < 64
      invariant 0 <= i <= 64
      invariant |intToChar| == 64 && |charToInt| == 128
      invariant forall k :: 0 <= k < i ==> intToChar[k] == IntToChar(k) as int
      invariant forall c :: 0 <= c < 128 ==>
        charToInt[c] == (if IsBase64(c as char) && CharToInt(c as char) < i then CharToInt(c as char) else 0)
    {
      var code := IntToChar(i) as int;
      CharToIntOfIntToChar(i);
      CharOfDigit(i);
      intToChar := intToChar[i := code];
      charToInt := charToInt[code := i];
      i := i + 1;
    }
  }

  // ---- scanning ----

  /** `hasMoreVlq`: another field follows unless the line has ended or a comma comes next. */
  function HasMoreVlq(mappings: string, i: int, length: int): (b: bool)
    ensures i >= length ==> !b
    ensures 0 <= i < length && i < |mappings| ==> (b <==> mappings[i] != Comma)
  {
    if i >= length then false
    else !(0 <= i < |mappings| && mappings[i] == Comma)
  }

  /** `indexOf`: the first occurrence of `c` at or after `index`, or the length when there is none. */
  function IndexOf(mappings: string, c: char, index: nat): (r: nat)
    ensures index <= |mappings| ==> index <= r <= |mappings|
    ensures index > |mappings| ==> r == |mappings|
    ensures r < |mappings| ==> mappings[r] == c
    decreases |mappings| - index
  {
    if index >= |mappings| then |mappings|
    else if mappings[index] == c then index
    else IndexOf(mappings, c, index + 1)
  }

  /** `indexOf` skips no occurrence of `c`: none lies between `index` and the result. */
  lemma {:induction false} IndexOfSkips(mappings: string, c: char, index: nat)
    ensures forall k :: index <= k < IndexOf(mappings, c, index) ==> mappings[k] != c
    decreases |mappings| - index
  {
    if index < |mappings| && mappings[index] != c {
      IndexOfSkips(mappings, c, index + 1);
    }
  }

  // ---- decoding ----

  datatype Decoded = Decoded(value: int, posOut: nat)

  /** `charToInt[mappings.charCodeAt(pos)]`, which is 0 past the end. */
  function DigitAt(mappings: string, pos: nat): (d: int)
    ensures 0 <= d < 64
  {
    if pos < |mappings| then CharToInt(mappings[pos]) else 0
  }

  /**
   * The rest of `decodeInteger`'s do-while loop from `pos`, with `value`
   * the 32-bit pattern collected so far and `shift` the next shift.
   */
  function DecodeDigits(mappings: string, pos: nat, shift: nat, value: nat): (r: Decoded)
    requires value < TWO_32
    ensures 0 <= r.value < TWO_32 && r.posOut > pos
    decreases |mappings| - pos
  {
    var integer := DigitAt(mappings, pos);
    var part := Shl32(integer % 32, shift);
    Pow2Values();
    BitOrBound(value, part, 32);
    var value' := BitOr(value, part);
    if integer >= 32 then DecodeDigits(mappings, pos + 1, shift + 5, value')
    else Decoded(value', pos + 1)
  }

  /**
   * The sign sits in the lowest bit. A set sign bit yields
   * `-0x80000000 | -value`: that is `-value`, whose sign bit is already
   * set, except for `value == 0`, where it is -2^31.
   */
  function FromZigzag(pattern: nat): (v: int)
    requires pattern < TWO_32
    ensures -0x8000_0000 <= v < 0x8000_0000
    ensures v < 0 <==> pattern % 2 == 1
  {
    var value := pattern / 2;
    if pattern % 2 == 1 then (if value == 0 then -0x8000_0000 else -value) else value
  }

  /** `decodeInteger(mappings, pos, relative)`, with `posOut` returned. */
  function DecodeInteger(mappings: string, pos: nat, relative: int): (r: Decoded)
    ensures r.posOut > pos
  {
    var d := DecodeDigits(mappings, pos, 0, 0);
    Decoded(relative + FromZigzag(d.value), d.posOut)
  }

  /** The do-while loop of `decodeInteger`. */
  method DecodeIntegerLoop(mappings: string, pos: nat, relative: int) returns (r: int, posOut: nat)
    ensures Decoded(r, posOut) == DecodeInteger(mappings, pos, relative)
  {
    var value: nat := 0;
    var shift: nat := 0;
    var p := pos;
    while true
      invariant value < TWO_32
      invariant DecodeDigits(mappings, p, shift, value) == DecodeDigits(mappings, pos, 0, 0)
      decreases |mappings| - p
    {
      var integer := DigitAt(mappings, p);
      p := p + 1;
      var part := Shl32(integer % 32, shift);
      Pow2Values();
      BitOrBound(value, part, 32);
      value := BitOr(value, part);
      shift := shift + 5;
      if integer < 32 {
        break;
      }
    }
    r := relative + FromZigzag(value);
    posOut := p;
  }

  // ---- encoding ----

  /** `delta < 0 ? (-delta << 1) | 1 : delta << 1`, as a 32-bit pattern. */
  function Zigzag(delta: int): (u: nat)
    ensures u < TWO_32
  {
    if delta < 0 then
      var shifted := Shl32(-delta, 1);
      Pow2Values();
      BitOrBound(shifted, 1, 32);
      BitOr(shifted, 1)
    else Shl32(delta, 1)
  }

  /** The digits the encoder's do-while loop emits for the pattern `u`, least significant first. */
  function VlqDigits(u: nat): (s: string)
    ensures |s| >= 1
    decreases u
  {
    var clamped := u % 32;
    var rest := u / 32;
    // `clamped |= 0b100000` on a value below 32 adds 32
    if rest > 0 then [IntToChar(clamped + 32)] + VlqDigits(rest)
    else [IntToChar(clamped)]
  }

  /** What `encodeInteger(buf, pos, num, relative)` writes at `pos`. */
  function EncodeInteger(num: int, relative: int): string {
    VlqDigits(Zigzag(num - relative))
  }

  /**
   * `encodeInteger` on a buffer modelled as the characters written so far:
   * it appends the digits, the new length is `posOut`, and it returns `num`.
   */
  method EncodeIntegerLoop(buf: string, num: int, relative: int) returns (r: int, out: string)
    ensures out == buf + EncodeInteger(num, relative)
    ensures r == num
  {
    var delta := Zigzag(num - relative);
    out := buf;
    while true
      invariant out + VlqDigits(delta) == buf + EncodeInteger(num, relative)
      decreases delta
    {
      var clamped := delta % 32;
      var rest := delta / 32;
      if rest > 0 {
        clamped := clamped + 32;
      }
      assert VlqDigits(delta) == [IntToChar(clamped)] + (if rest > 0 then VlqDigits(rest) else []);
      out := out + [IntToChar(clamped)];
      delta := rest;
      if delta == 0 {
        assert out == buf + EncodeInteger(num, relative);
        break;
      }
    }
    r := num;
  }

  // ---- properties ----

  /** Zigzag puts the sign in bit 0: negative deltas become odd patterns, the others even ones. */
  lemma ZigzagSign(delta: int)
    ensures Zigzag(delta) % 2 == (if delta < 0 then 1 else 0)
  {
    var x := if delta < 0 then -delta else delta;
    var shifted := Shl32(x, 1);
    assert Scaled(x, 1) == 2 * x;
    assert shifted == (2 * x) % TWO_32;
    ShiftedEven(x);
    if delta < 0 {
      BitOrOne(shifted / 2);
    }
  }

  /** Doubling modulo 2^32 gives an even pattern. */
  lemma ShiftedEven(x: nat)
    ensures ((2 * x) % TWO_32) % 2 == 0
  {
    var q := (2 * x) / TWO_32;
    var r := (2 * x) % TWO_32;
    assert 2 * x == TWO_32 * q + r;
    assert r == 2 * (x - 0x8000_0000 * q);
    ModUnique(r, 2, x - 0x8000_0000 * q, 0);
  }

  /** Inside the 32-bit range nothing wraps: the pattern is twice the magnitude plus the sign bit. */
  lemma ZigzagValue(delta: int)
    requires -0x8000_0000 < delta < 0x8000_0000
    ensures Zigzag(delta) == if delta < 0 then -2 * delta + 1 else 2 * delta
  {
    var x := if delta < 0 then -delta else delta;
    assert Pow2(1) == 2;
    Shl32Value(x, 1);
    if delta < 0 {
      BitOrOne(x);
    }
  }

  /**
   * `FromZigzag` undoes `Zigzag` on the 32-bit range of deltas. (The
   * encoder's `<< 1` loses the top bit outside it.)
   */
  lemma FromZigzagOfZigzag(delta: int)
    requires -0x8000_0000 <= delta < 0x8000_0000
    ensures FromZigzag(Zigzag(delta)) == delta
  {
    if delta == -0x8000_0000 {
      ModUnique(2 * 0x8000_0000, TWO_32, 1, 0);
      assert Shl32(-delta, 1) == 0;
      assert Zigzag(delta) == 1;
    } else {
      ZigzagValue(delta);
    }
  }

  lemma BitOrOne(q: nat)
    ensures BitOr(2 * q, 1) == 2 * q + 1
  {
    if q != 0 {
      assert BitOr(q, 0) == q;
    }
  }

  /** The value the digits of a VLQ carry, five bits each, least significant first. */
  function DigitsValue(s: string): nat
    decreases |s|
  {
    if s == [] then 0 else CharToInt(s[0]) % 32 + 32 * DigitsValue(s[1..])
  }

  /**
   * The digits are base64 characters; all but the last carry the
   * continuation bit 32, the last does not; their payloads spell `u`.
   */
  lemma VlqDigitsShape(u: nat)
    ensures forall i :: 0 <= i < |VlqDigits(u)| ==> IsBase64(VlqDigits(u)[i])
    ensures forall i :: 0 <= i < |VlqDigits(u)| - 1 ==> CharToInt(VlqDigits(u)[i]) >= 32
    ensures CharToInt(VlqDigits(u)[|VlqDigits(u)| - 1]) < 32
    ensures DigitsValue(VlqDigits(u)) == u
  {
    VlqDigitsBase64(u);
    VlqDigitsContinue(u);
    VlqDigitsLast(u);
    VlqDigitsValue(u);
  }

  /** The first digit, and the digits of the rest after it. */
  lemma VlqDigitsCons(u: nat)
    ensures u / 32 > 0 ==> VlqDigits(u) == [IntToChar(u % 32 + 32)] + VlqDigits(u / 32)
    ensures u / 32 > 0 ==> VlqDigits(u)[1..] == VlqDigits(u / 32)
    ensures u / 32 == 0 ==> VlqDigits(u) == [IntToChar(u % 32)]
    ensures CharToInt(VlqDigits(u)[0]) == (if u / 32 > 0 then u % 32 + 32 else u % 32)
    ensures IsBase64(VlqDigits(u)[0])
  {
    if u / 32 > 0 {
      CharToIntOfIntToChar(u % 32 + 32);
      assert VlqDigits(u)[1..] == VlqDigits(u / 32);
    } else {
      CharToIntOfIntToChar(u % 32);
    }
  }

  lemma {:induction false} VlqDigitsBase64(u: nat)
    ensures forall i :: 0 <= i < |VlqDigits(u)| ==> IsBase64(VlqDigits(u)[i])
    decreases u
  {
    VlqDigitsCons(u);
    if u / 32 > 0 {
      VlqDigitsBase64(u / 32);
      var s, t := VlqDigits(u), VlqDigits(u / 32);
      assert forall i :: 1 <= i < |s| ==> s[i] == t[i - 1];
    }
  }

  lemma {:induction false} VlqDigitsContinue(u: nat)
    ensures forall i :: 0 <= i < |VlqDigits(u)| - 1 ==> CharToInt(VlqDigits(u)[i]) >= 32
    decreases u
  {
    VlqDigitsCons(u);
    if u / 32 > 0 {
      VlqDigitsContinue(u / 32);
      var s, t := VlqDigits(u), VlqDigits(u / 32);
      assert forall i :: 1 <= i < |s| ==> s[i] == t[i - 1];
    }
  }

  lemma {:induction false} VlqDigitsLast(u: nat)
    ensures CharToInt(VlqDigits(u)[|VlqDigits(u)| - 1]) < 32
    decreases u
  {
    VlqDigitsCons(u);
    if u / 32 > 0 {
      VlqDigitsLast(u / 32);
      var s, t := VlqDigits(u), VlqDigits(u / 32);
      assert s[|s| - 1] == t[|t| - 1];
    }
  }

  lemma {:induction false} VlqDigitsValue(u: nat)
    ensures DigitsValue(VlqDigits(u)) == u
    decreases u
  {
    VlqDigitsCons(u);
    if u / 32 > 0 {
      VlqDigitsValue(u / 32);
    }
  }

  /** A pattern below 32^k takes at most k digits; 32-bit patterns take at most 7. */
  lemma {:induction false} VlqDigitsLength(u: nat, k: nat)
    requires k >= 1 && u < Pow2(5 * k)
    ensures |VlqDigits(u)| <= k
    decreases k
  {
    if u / 32 > 0 {
      assert k >= 1;
      Pow2Add(5 * (k - 1), 5);
      Pow2Values();
      assert 5 * (k - 1) + 5 == 5 * k;
      assert u / 32 < Pow2(5 * (k - 1));
      if k == 1 {
        assert false;
      }
      VlqDigitsLength(u / 32, k - 1);
    }
  }

  lemma VlqDigitsAtMostSeven(u: nat)
    requires u < TWO_32
    ensures |VlqDigits(u)| <= 7
  {
    Pow2Values();
    Pow2Monotone(32, 35);
    VlqDigitsLength(u, 7);
  }

  /**
   * Reading the digits of `u` at `pos`, with the shift a multiple of 5 and
   * the earlier bits `value` below 2^shift: the loop collects
   * `value + u * 2^shift` and stops right after the last digit, whatever
   * follows it.
   */
  lemma {:induction false} DecodeDigitsOfVlq(m: string, pos: nat, u: nat, shift: nat, value: nat)
    requires pos + |VlqDigits(u)| <= |m| && m[pos..pos + |VlqDigits(u)|] == VlqDigits(u)
    requires shift % 5 == 0 && shift <= 30
    requires value < Pow2(shift) && value + Scaled(u, shift) < TWO_32
    ensures DecodeDigits(m, pos, shift, value) == Decoded(value + Scaled(u, shift), pos + |VlqDigits(u)|)
    decreases u
  {
    var rest := u / 32;
    StepArith(u, shift, value);
    if rest > 0 {
      var value' := value + Scaled(u % 32, shift);
      RestDigits(m, pos, u);
      DecodeDigitsOfVlq(m, pos + 1, rest, shift + 5, value');
      DecodeMore(m, pos, u, shift, value, value', value + Scaled(u, shift));
    } else {
      DecodeLast(m, pos, u, shift, value);
    }
  }

  /** The last digit: the loop stops after it with all bits collected. */
  lemma DecodeLast(m: string, pos: nat, u: nat, shift: nat, value: nat)
    requires u / 32 == 0
    requires pos + |VlqDigits(u)| <= |m| && m[pos..pos + |VlqDigits(u)|] == VlqDigits(u)
    requires shift % 5 == 0 && shift <= 30
    requires value < Pow2(shift) && value + Scaled(u, shift) < TWO_32
    ensures DecodeDigits(m, pos, shift, value) == Decoded(value + Scaled(u, shift), pos + |VlqDigits(u)|)
  {
    StepArith(u, shift, value);
    OrAdds(value, u % 32, shift);
    FirstDigit(m, pos, u);
    DecodeDigitsUnfold(m, pos, shift, value);
  }

  /**
   * A digit with the continuation bit: the loop goes on from `next`, the
   * bits collected with this digit's added.
   */
  lemma DecodeMore(m: string, pos: nat, u: nat, shift: nat, value: nat, next: nat, total: nat)
    requires u / 32 > 0
    requires pos + |VlqDigits(u)| <= |m| && m[pos..pos + |VlqDigits(u)|] == VlqDigits(u)
    requires shift <= 30 && value < Pow2(shift) && value < TWO_32
    requires next == value + Scaled(u % 32, shift) && next < TWO_32
    requires DecodeDigits(m, pos + 1, shift + 5, next) == Decoded(total, pos + 1 + |VlqDigits(u / 32)|)
    ensures DecodeDigits(m, pos, shift, value) == Decoded(total, pos + |VlqDigits(u)|)
  {
    var digit := u % 32;
    assert BitOr(value, Shl32(digit, shift)) == next by {
      OrAdds(value, digit, shift);
    }
    assert DigitAt(m, pos) == digit + 32 by {
      FirstDigit(m, pos, u);
    }
    UnfoldContinue(m, pos, shift, value, digit, next);
    RestDigits(m, pos, u);
  }

  lemma UnfoldContinue(m: string, pos: nat, shift: nat, value: nat, digit: nat, next: nat)
    requires value < TWO_32 && next < TWO_32
    requires digit < 32 && DigitAt(m, pos) == digit + 32
    requires BitOr(value, Shl32(digit, shift)) == next
    ensures DecodeDigits(m, pos, shift, value) == DecodeDigits(m, pos + 1, shift + 5, next)
  {
    DecodeDigitsUnfold(m, pos, shift, value);
  }

  /** The arithmetic of one digit: the bits collected stay in range and the next shift is legal. */
  lemma StepArith(u: nat, shift: nat, value: nat)
    requires shift % 5 == 0 && shift <= 30
    requires value < Pow2(shift) && value + Scaled(u, shift) < TWO_32
    ensures value < TWO_32
    ensures value + Scaled(u % 32, shift) < TWO_32
    ensures Scaled(u, shift) == Scaled(u % 32, shift) + Scaled(u / 32, shift + 5)
    ensures u / 32 == 0 ==> Scaled(u % 32, shift) == Scaled(u, shift)
    ensures u / 32 > 0 ==> shift + 5 <= 30
    ensures u / 32 > 0 ==> value + Scaled(u % 32, shift) < Pow2(shift + 5)
  {
    var digit := u % 32;
    var rest := u / 32;
    var w := Pow2(shift);
    var w' := Pow2(shift + 5);
    ScaledIsMul(u, shift);
    ScaledIsMul(digit, shift);
    ScaledIsMul(rest, shift + 5);
    DigitSplit(u, shift);
    MulNonNegative(rest, w');
    MulNonNegative(digit, w);
    if rest > 0 {
      MulAtLeast(w', rest);
      if shift + 5 > 30 {
        Pow2Monotone(32, shift + 5);
        Pow2Values();
        assert false;
      }
      DigitBound(value, digit, shift);
    }
  }

  /** One turn of the decoding loop. */
  lemma DecodeDigitsUnfold(m: string, pos: nat, shift: nat, value: nat)
    requires value < TWO_32
    ensures var integer := DigitAt(m, pos);
      var value' := BitOr(value, Shl32(integer % 32, shift));
      value' < TWO_32 &&
      DecodeDigits(m, pos, shift, value) ==
        if integer >= 32 then DecodeDigits(m, pos + 1, shift + 5, value') else Decoded(value', pos + 1)
  {
    Pow2Values();
    BitOrBound(value, Shl32(DigitAt(m, pos) % 32, shift), 32);
  }

  /** The first digit of `u` at `pos`: its value and whether the loop goes on. */
  lemma FirstDigit(m: string, pos: nat, u: nat)
    requires pos + |VlqDigits(u)| <= |m| && m[pos..pos + |VlqDigits(u)|] == VlqDigits(u)
    ensures DigitAt(m, pos) == (if u / 32 > 0 then u % 32 + 32 else u % 32)
  {
    assert m[pos] == VlqDigits(u)[0];
    if u / 32 > 0 {
      CharToIntOfIntToChar(u % 32 + 32);
    } else {
      CharToIntOfIntToChar(u % 32);
    }
  }

  lemma RestDigits(m: string, pos: nat, u: nat)
    requires u / 32 > 0
    requires pos + |VlqDigits(u)| <= |m| && m[pos..pos + |VlqDigits(u)|] == VlqDigits(u)
    ensures |VlqDigits(u)| == 1 + |VlqDigits(u / 32)|
    ensures m[pos + 1..pos + 1 + |VlqDigits(u / 32)|] == VlqDigits(u / 32)
  {
    var s := VlqDigits(u);
    var t := VlqDigits(u / 32);
    assert s == [IntToChar(u % 32 + 32)] + t;
    assert s[1..] == t;
    assert m[pos + 1..pos + 1 + |t|] == m[pos..pos + |s|][1..];
  }

  /** Splitting off the lowest digit: `u * 2^s == (u % 32) * 2^s + (u / 32) * 2^(s+5)`. */
  lemma DigitSplit(u: nat, shift: nat)
    ensures Pow2(shift + 5) == 32 * Pow2(shift)
    ensures u * Pow2(shift) == (u % 32) * Pow2(shift) + (u / 32) * Pow2(shift + 5)
  {
    Pow2Add(shift, 5);
    Pow2Values();
    SplitArith(u, Pow2(shift));
  }

  lemma SplitArith(u: nat, w: nat)
    ensures u * w == (u % 32) * w + (u / 32) * (32 * w)
  {
    var d, r := u % 32, u / 32;
    assert u == 32 * r + d;
    calc {
      u * w;
      (32 * r + d) * w;
      d * w + (32 * r) * w;
      d * w + r * (32 * w);
    }
  }

  /** Below the shift there is room for one more 5-bit digit. */
  lemma DigitBound(value: nat, digit: nat, shift: nat)
    requires value < Pow2(shift) && digit < 32
    ensures value + digit * Pow2(shift) < Pow2(shift + 5)
  {
    var w := Pow2(shift);
    Pow2Add(shift, 5);
    Pow2Values();
    assert Pow2(shift + 5) == 32 * w;
    MulMonotone(digit, 31, w);
  }

  lemma MulMonotone(a: int, b: int, w: int)
    requires a <= b && w >= 0
    ensures a * w <= b * w
  {
    MulNonNegative(b - a, w);
    assert (b - a) * w == b * w - a * w;
  }

  /** `value | (digit << shift)` is addition while nothing wraps and the bits do not overlap. */
  lemma OrAdds(value: nat, digit: nat, shift: nat)
    requires shift <= 30 && value < Pow2(shift)
    requires value + Scaled(digit, shift) < TWO_32
    ensures BitOr(value, Shl32(digit, shift)) == value + Scaled(digit, shift)
  {
    ScaledIsMul(digit, shift);
    var w := Pow2(shift);
    MulNonNegative(digit, w);
    Shl32Value(digit, shift);
    BitOrDisjoint(value, digit, shift);
    assert w * digit == digit * w;
  }

  /**
   * `decodeInteger` reads back what `encodeInteger` wrote, whatever
   * follows, when the delta fits 32 bits, and `posOut` lands just past the
   * digits.
   */
  lemma DecodeOfEncode(m: string, pos: nat, num: int, relative: int)
    requires -0x8000_0000 <= num - relative < 0x8000_0000
    requires pos + |EncodeInteger(num, relative)| <= |m|
    requires m[pos..pos + |EncodeInteger(num, relative)|] == EncodeInteger(num, relative)
    ensures DecodeInteger(m, pos, relative) == Decoded(num, pos + |EncodeInteger(num, relative)|)
  {
    var u := Zigzag(num - relative);
    Pow2Values();
    DecodeDigitsOfVlq(m, pos, u, 0, 0);
    FromZigzagOfZigzag(num - relative);
  }

  /** Digits of small values: 0 is "A", 1 is "C", -1 is "D", 16 is "gB". */
  lemma EncodeIntegerExamples()
    ensures EncodeInteger(0, 0) == "A" && EncodeInteger(1, 0) == "C" && EncodeInteger(-1, 0) == "D"
    ensures EncodeInteger(16, 0) == "gB"
  {
    ZigzagValue(0);
    ZigzagValue(1);
    ZigzagValue(-1);
    ZigzagValue(16);
    assert VlqDigits(32) == [IntToChar(32)] + VlqDigits(1);
  }

  /** What `encodeInteger` writes is base64 only: never a ',' or ';' separator. */
  lemma EncodeIntegerChars(num: int, relative: int)
    ensures |EncodeInteger(num, relative)| >= 1
    ensures forall k :: 0 <= k < |EncodeInteger(num, relative)| ==> IsBase64(EncodeInteger(num, relative)[k])
    ensures Comma !in EncodeInteger(num, relative) && Semicolon !in EncodeInteger(num, relative)
  {
    VlqDigitsBase64(Zigzag(num - relative));
  }
}
