/**
 * The growable byte buffer the trace recorder writes into
 * (recording/src/utils/DynamicByteArray.ts): an array that doubles its
 * capacity when full, starting at 1024, and a count of the bytes in use.
 */
module DynamicByteArrays {
  import opened Bits

  /** A buffer byte; the signedness of `Int8Array` is not modelled. */
  type byte = x: int | 0 <= x < 256

  const INITIAL_CAPACITY: nat := 1024

  /** The capacities a buffer can reach: 1024 doubled any number of times. */
  ghost predicate IsCapacity(n: nat)
    decreases n
  {
    n == INITIAL_CAPACITY || (n > INITIAL_CAPACITY && n % 2 == 0 && IsCapacity(n / 2))
  }

  lemma {:induction false} CapacityAtLeastInitial(n: nat)
    requires IsCapacity(n)
    ensures n >= INITIAL_CAPACITY
  {
  }

  /**
   * The four bytes `pushU32` appends for `value`: `value >>> 24`,
   * `value >>> 16`, `value >>> 8` and `value`, each masked to its low 8 bits.
   * `x >>> k` reduces `x` modulo 2^32 and divides by 2^k.
   */
  function BigEndian32(value: nat): (r: seq<byte>)
    ensures |r| == 4
  {
    [(value % TWO_32) / 0x100_0000 % 256, (value % TWO_32) / 0x1_0000 % 256, (value % TWO_32) / 0x100 % 256, value % 256]
  }

  /** For a 32-bit value these are its base-256 digits, most significant first. */
  lemma BigEndian32Value(value: nat)
    requires value < TWO_32
    ensures BigEndian32(value) == Digits4(value)
    ensures value == (Digits4(value)[0] as int) * 0x100_0000 + (Digits4(value)[1] as int) * 0x1_0000
                     + (Digits4(value)[2] as int) * 0x100 + Digits4(value)[3]
  {
    assert value % TWO_32 == value by { ModUnique(value, TWO_32, 0, value); }
    assert value / 0x100_0000 < 256 by { DivBelow(value, 0x100_0000, 256); }
    DigitsValue(value);
  }

  /** The base-256 digits of a value below 2^32, most significant first. */
  function Digits4(value: nat): (r: seq<byte>)
    requires value < TWO_32
    ensures |r| == 4 && r[3] == value % 256
  {
    DivBelow(value, 0x100_0000, 256);
    [value / 0x100_0000, (value / 0x1_0000) % 256, (value / 0x100) % 256, value % 256]
  }

  lemma DigitsValue(value: nat)
    requires value < TWO_32
    ensures value == (Digits4(value)[0] as int) * 0x100_0000 + (Digits4(value)[1] as int) * 0x1_0000
                     + (Digits4(value)[2] as int) * 0x100 + Digits4(value)[3]
  {
    var q1 := value / 0x100;
    var q2 := value / 0x1_0000;
    var q3 := value / 0x100_0000;
    assert value == q1 * 0x100 + value % 256;
    assert q2 == q1 / 0x100 by { DivDiv(value, 0x100, 0x100); }
    assert q1 == q2 * 0x100 + q1 % 256;
    assert q3 == q2 / 0x100 by { DivDiv(value, 0x1_0000, 0x100); }
    assert q2 == q3 * 0x100 + q2 % 256;
    Regroup256(value, q1, q2, q3, value % 256, q1 % 256, q2 % 256);
  }

  lemma Regroup256(v: int, q1: int, q2: int, q3: int, b3: int, b2: int, b1: int)
    requires v == q1 * 0x100 + b3 && q1 == q2 * 0x100 + b2 && q2 == q3 * 0x100 + b1
    ensures v == q3 * 0x100_0000 + b1 * 0x1_0000 + b2 * 0x100 + b3
  {
  }

  /** Dividing twice is dividing by the product. */
  lemma DivDiv(a: nat, b: nat, c: nat)
    requires b > 0 && c > 0
    ensures a / b / c == a / (b * c)
  {
    var q := a / b / c;
    var r := a / b % c;
    var s := a % b;
    assert a == b * (a / b) + s;
    assert a / b == c * q + r;
    Regroup(a, b, c, q, r, s);
    ModUnique(a, b * c, q, b * r + s);
  }

  /** Nesting the two divisions: `a == b * (c * q + r) + s` with both remainders in range. */
  lemma Regroup(a: int, b: int, c: int, q: int, r: int, s: int)
    requires b > 0 && 0 <= r < c && 0 <= s < b && a == b * (c * q + r) + s
    ensures a == (b * c) * q + (b * r + s) && 0 <= b * r + s < b * c
  {
    MulDistributes(b, c * q, r);
    MulAssociates(b, c, q);
    MulDistributes(b, r, c - 1 - r);
    MulNonNegative(b, c - 1 - r);
  }

  lemma MulDistributes(a: int, x: int, y: int)
    ensures a * (x + y) == a * x + a * y
  {
  }

  lemma MulAssociates(a: int, b: int, c: int)
    ensures a * (b * c) == (a * b) * c
  {
  }

  lemma MulNonNegative(a: int, b: int)
    requires a >= 0 && b >= 0
    ensures a * b >= 0
  {
  }

  /** `DynamicByteArray`. */
  class DynamicByteArray {
    var buffer: array<byte>
    var length: nat

    /** The count never passes the capacity, and the capacity is 1024 doubled. */
    ghost predicate Valid()
      reads this
    {
      length <= buffer.Length && IsCapacity(buffer.Length)
    }

    /** The bytes pushed so far, in push order. */
    function Contents(): seq<byte>
      reads this, buffer
      requires Valid()
    {
      buffer[..length]
    }

    constructor()
      ensures Valid() && Contents() == [] && buffer.Length == INITIAL_CAPACITY
      ensures fresh(buffer)
    {
      buffer := new byte[INITIAL_CAPACITY](_ => 0);
      length := 0;
    }

    /**
     * `push`: appends `b`; a full buffer is first replaced by one of twice
     * the capacity holding a copy of the old contents.
     */
    method Push(b: byte)
      requires Valid()
      modifies this, buffer
      ensures Valid() && Contents() == old(Contents()) + [b]
      ensures buffer.Length == if old(length) == old(buffer.Length) then 2 * old(buffer.Length) else old(buffer.Length)
      ensures buffer == old(buffer) || fresh(buffer)
    {
      if length >= buffer.Length {
        var oldBuffer := buffer;
        var grown := new byte[2 * oldBuffer.Length](_ => 0);
        var i := 0;
        while i < oldBuffer.Length
          invariant 0 <= i <= oldBuffer.Length
          invariant grown[..i] == oldBuffer[..i]
          invariant buffer == oldBuffer && length == oldBuffer.Length
          invariant oldBuffer[..] == old(buffer[..])
        {
          grown[i] := oldBuffer[i];
          i := i + 1;
        }
        assert grown[..length] == oldBuffer[..length] by {
          assert grown[..i][..length] == grown[..length];
        }
        buffer := grown;
        assert IsCapacity(grown.Length) by {
          CapacityAtLeastInitial(oldBuffer.Length);
          assert grown.Length / 2 == oldBuffer.Length;
        }
      }
      var before := buffer[..length];
      assert before == old(Contents());
      buffer[length] := b;
      assert buffer[..length + 1] == before + [b];
      length := length + 1;
    }

    /** `pushU32`: appends the four big-endian bytes of `value`. */
    method PushU32(value: nat)
      requires Valid()
      modifies this, buffer
      ensures Valid() && Contents() == old(Contents()) + BigEndian32(value)
      ensures buffer == old(buffer) || fresh(buffer)
    {
      var bytes := BigEndian32(value);
      Push(bytes[0]);
      Push(bytes[1]);
      Push(bytes[2]);
      Push(bytes[3]);
      assert Contents() == old(Contents()) + bytes;
    }

    /** `getBuffer`: a copy of exactly the pushed bytes. */
    method GetBuffer() returns (r: seq<byte>)
      requires Valid()
      ensures r == Contents() && |r| == length
    {
      r := buffer[..length];
    }
  }
}
