/**
 * Unsigned 32-bit arithmetic as JavaScript's bitwise operators perform it:
 * every operand of `|`, `&`, `<<`, `>>>` is first reduced modulo 2^32.
 * Numbers are naturals here; `BitOr` is the bitwise or of two naturals.
 */
module Bits {

  const TWO_32: int := 0x1_0000_0000

  function Pow2(k: nat): (r: nat)
    ensures r >= 1
  {
    if k == 0 then 1 else 2 * Pow2(k - 1)
  }

  lemma {:induction false} Pow2Add(a: nat, b: nat)
    ensures Pow2(a + b) == Pow2(a) * Pow2(b)
  {
    if a > 0 {
      Pow2Add(a - 1, b);
    }
  }

  lemma {:induction false} Pow2Monotone(a: nat, b: nat)
    requires a <= b
    ensures Pow2(a) <= Pow2(b)
  {
    if a < b {
      Pow2Monotone(a, b - 1);
    }
  }

  lemma Pow2Values()
    ensures Pow2(5) == 32 && Pow2(8) == 0x100 && Pow2(16) == 0x1_0000
    ensures Pow2(24) == 0x100_0000 && Pow2(32) == TWO_32
  {
    assert Pow2(4) == 16;
    assert Pow2(8) == 0x100;
    assert Pow2(16) == 0x1_0000 by { Pow2Add(8, 8); }
    assert Pow2(24) == 0x100_0000 by { Pow2Add(16, 8); }
    Pow2Add(16, 16);
  }

  /** The bitwise or of two naturals, bit by bit from the least significant. */
  function BitOr(a: nat, b: nat): nat
    decreases a + b
  {
    if a == 0 then b
    else if b == 0 then a
    else 2 * BitOr(a / 2, b / 2) + (if a % 2 == 1 || b % 2 == 1 then 1 else 0)
  }

  /** `|` does not depend on the order of its operands. */
  lemma {:induction false} BitOrComm(a: nat, b: nat)
    ensures BitOr(a, b) == BitOr(b, a)
    decreases a + b
  {
    if a != 0 && b != 0 {
      BitOrComm(a / 2, b / 2);
    }
  }

  /** Or-ing two values below 2^k stays below 2^k. */
  lemma {:induction false} BitOrBound(a: nat, b: nat, k: nat)
    requires a < Pow2(k) && b < Pow2(k)
    ensures BitOr(a, b) < Pow2(k)
    decreases k
  {
    if a != 0 && b != 0 {
      BitOrBound(a / 2, b / 2, k - 1);
    }
  }

  /** Doubling both operands doubles their or. */
  lemma BitOrDouble(a: nat, b: nat)
    ensures BitOr(2 * a, 2 * b) == 2 * BitOr(a, b)
  {
    if a != 0 && b != 0 {
      assert (2 * a) / 2 == a && (2 * b) / 2 == b;
      assert (2 * a) % 2 == 0 && (2 * b) % 2 == 0;
    }
  }

  /** Shifting both operands left by `k` shifts their or by `k`. */
  lemma BitOrShifted(a: nat, b: nat, k: nat)
    ensures BitOr(Pow2(k) * a, Pow2(k) * b) == Pow2(k) * BitOr(a, b)
  {
    var p := Pow2(k);
    var c := BitOr(a, b);
    var sa, sb, sc := Scaled(a, k), Scaled(b, k), Scaled(c, k);
    assert sa == p * a by { ScaledIsMul(a, k); }
    assert sb == p * b by { ScaledIsMul(b, k); }
    assert sc == p * c by { ScaledIsMul(c, k); }
    assert BitOr(sa, sb) == sc by { BitOrScaled(a, b, k); }
  }

  lemma {:induction false} BitOrScaled(a: nat, b: nat, k: nat)
    ensures BitOr(Scaled(a, k), Scaled(b, k)) == Scaled(BitOr(a, b), k)
    decreases k
  {
    if k > 0 {
      BitOrScaled(a, b, k - 1);
      BitOrDouble(Scaled(a, k - 1), Scaled(b, k - 1));
    }
  }

  /** Or-ing a value below 2^k with a multiple of 2^k is addition. */
  lemma {:induction false} BitOrDisjoint(a: nat, q: nat, k: nat)
    requires a < Pow2(k)
    ensures BitOr(a, Pow2(k) * q) == a + Pow2(k) * q
    decreases k
  {
    var b := Pow2(k) * q;
    if a != 0 && b != 0 {
      assert k > 0;
      var h := Pow2(k - 1);
      assert Pow2(k) == 2 * h;
      assert b == 2 * (h * q);
      assert b / 2 == h * q && b % 2 == 0;
      assert a / 2 < h;
      BitOrDisjoint(a / 2, q, k - 1);
      assert BitOr(a, b) == 2 * BitOr(a / 2, b / 2) + a % 2;
    }
  }

  lemma DivIsAtMost(a: nat, d: nat)
    requires d >= 1
    ensures 0 <= a / d <= a
  {
    var q, m := a / d, a % d;
    assert a == d * q + m && 0 <= m < d && q >= 0;
    MulNonNegative(d - 1, q);
    assert d * q == q + (d - 1) * q;
  }

  lemma MulNonNegative(x: int, y: int)
    requires x >= 0 && y >= 0
    ensures x * y >= 0
  {
  }

  lemma ModTwo32(x: int)
    ensures 0 <= x % TWO_32 < TWO_32
  {
  }

  lemma MulAtLeast(d: int, k: int)
    requires d > 0 && k >= 1
    ensures d * k >= d
  {
    assert d * k == d * (k - 1) + d;
    assert d * (k - 1) >= 0;
  }

  /** Euclidean division has one remainder: any `x == d * q + m` with `0 <= m < d` gives it. */
  lemma ModUnique(x: int, d: int, q: int, m: int)
    requires d > 0 && 0 <= m < d && x == d * q + m
    ensures x % d == m && x / d == q
  {
    var q' := x / d;
    var m' := x % d;
    assert x == d * q' + m';
    var diff := q - q';
    assert d * q - d * q' == d * diff;
    if diff >= 1 {
      MulAtLeast(d, diff);
    } else if diff <= -1 {
      MulAtLeast(d, -diff);
    }
  }

  /** `u * 2^k`, as `k` doublings. */
  function Scaled(u: nat, k: nat): nat
    decreases k
  {
    if k == 0 then u else 2 * Scaled(u, k - 1)
  }

  lemma {:induction false} ScaledIsMul(u: nat, k: nat)
    ensures Scaled(u, k) == u * Pow2(k)
    decreases k
  {
    if k > 0 {
      ScaledIsMul(u, k - 1);
      assert u * Pow2(k) == 2 * (u * Pow2(k - 1));
    }
  }

  /** `x << s` on int32 operands, as the unsigned pattern of its 32 bits. */
  function Shl32(x: nat, s: nat): (r: nat)
    ensures r < TWO_32
  {
    Scaled(x, s % 32) % TWO_32
  }

  /** A shift that does not overflow is exact multiplication. */
  lemma Shl32Value(x: nat, s: nat)
    requires s < 32 && x * Pow2(s) < TWO_32
    ensures Shl32(x, s) == x * Pow2(s)
  {
    ScaledIsMul(x, s);
    MulNonNegative(x, Pow2(s));
    ModUnique(x * Pow2(s), TWO_32, 0, x * Pow2(s));
  }

  /** `x >>> s`: x is reduced modulo 2^32, then shifted right by s mod 32. */
  function Ushr32(x: int, s: nat): (r: nat)
    ensures r < TWO_32
  {
    var m := x % TWO_32;
    ModTwo32(x);
    var p := Pow2(s % 32);
    DivIsAtMost(m, p);
    m / p
  }

  /** On a 32-bit value `>>>` is plain division by a power of two. */
  lemma Ushr32Of(x: int, s: nat)
    requires 0 <= x < TWO_32 && s < 32
    ensures Ushr32(x, s) == x / Pow2(s)
  {
    assert x % TWO_32 == x by { ModUnique(x, TWO_32, 0, x); }
    assert s % 32 == s;
  }

  /** A quotient below `c` follows from a dividend below `d * c`. */
  lemma DivBelow(x: nat, d: nat, c: nat)
    requires d > 0 && x < d * c
    ensures x / d < c
  {
    var q := x / d;
    assert d * q <= x;
    assert d * q < d * c;
    assert d * (c - q) > 0;
  }
}
