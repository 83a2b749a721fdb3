/**
 * Bitwise OR and AND on byte values, defined one bit at a time from the
 * least significant bit up, over a given number of bits. Flag values are
 * combined with `Or` and tested with `And`, the byte-wide (eight-bit) forms.
 */
module Bits {
  import opened Constants

  /** 2 to the power `n`. */
  function Pow2(n: nat): (p: nat)
    ensures p >= 1
  {
    if n == 0 then 1 else 2 * Pow2(n - 1)
  }

  /** The bit at position 0 of `a`, as 0 or 1. */
  function Low(a: nat): (b: nat)
    ensures b <= 1
  {
    a % 2
  }

  /** The bitwise OR of the low `n` bits of `a` and `b`. */
  function OrBits(a: nat, b: nat, n: nat): (r: nat)
    ensures r < Pow2(n)
  {
    if n == 0 then 0
    else 2 * OrBits(a / 2, b / 2, n - 1) + (if Low(a) == 1 || Low(b) == 1 then 1 else 0)
  }

  /** The bitwise AND of the low `n` bits of `a` and `b`. */
  function AndBits(a: nat, b: nat, n: nat): (r: nat)
    ensures r < Pow2(n) && r <= b
  {
    if n == 0 then 0
    else 2 * AndBits(a / 2, b / 2, n - 1) + (if Low(a) == 1 && Low(b) == 1 then 1 else 0)
  }

  /** `a | b` on bytes. */
  function Or(a: byte, b: byte): (r: byte)
  {
    assert Pow2(8) == 256;
    OrBits(a, b, 8)
  }

  /** `a & b` on bytes. */
  function And(a: byte, b: byte): (r: byte)
  {
    assert Pow2(8) == 256;
    AndBits(a, b, 8)
  }

  /** OR-ing the same value in a second time changes nothing. */
  lemma {:induction false} OrBitsAgain(a: nat, b: nat, n: nat)
    ensures OrBits(OrBits(a, b, n), b, n) == OrBits(a, b, n)
  {
    if n > 0 {
      OrBitsAgain(a / 2, b / 2, n - 1);
    }
  }

  /** A value OR-ed into another is found again by AND-ing with it. */
  lemma {:induction false} AndBitsOfOr(a: nat, x: nat, n: nat)
    requires a < Pow2(n)
    ensures AndBits(OrBits(a, x, n), a, n) == a
    ensures AndBits(OrBits(x, a, n), a, n) == a
  {
    if n > 0 {
      AndBitsOfOr(a / 2, x / 2, n - 1);
    }
  }

  /** AND-ing a value with itself gives it back. */
  lemma {:induction false} AndBitsSelf(a: nat, n: nat)
    requires a < Pow2(n)
    ensures AndBits(a, a, n) == a
  {
    if n > 0 {
      AndBitsSelf(a / 2, n - 1);
    }
  }

  /** OR-ing more bits in never clears a bit that a mask tests. */
  lemma {:induction false} AndBitsGrows(f: nat, x: nat, m: nat, n: nat)
    requires AndBits(OrBits(f, x, n), m, n) == 0
    ensures AndBits(f, m, n) == 0
  {
    if n > 0 {
      AndBitsGrows(f / 2, x / 2, m / 2, n - 1);
    }
  }

  /** OR-ing two values below a power of two stays below it. */
  lemma {:induction false} OrBitsBelow(a: nat, b: nat, k: nat, n: nat)
    requires a < Pow2(k) && b < Pow2(k)
    ensures OrBits(a, b, n) < Pow2(k)
  {
    if n > 0 {
      if k == 0 {
        OrBitsBelow(a / 2, b / 2, 0, n - 1);
      } else {
        OrBitsBelow(a / 2, b / 2, k - 1, n - 1);
      }
    }
  }

  /** OR-ing more bits in keeps every bit a mask finds set, on either side. */
  lemma {:induction false} OrBitsKeeps(f: nat, x: nat, m: nat, n: nat)
    requires AndBits(f, m, n) == m
    ensures AndBits(OrBits(f, x, n), m, n) == m
    ensures AndBits(OrBits(x, f, n), m, n) == m
  {
    if n > 0 {
      OrBitsKeeps(f / 2, x / 2, m / 2, n - 1);
    }
  }

  /** `(f | x) | x == f | x`. */
  lemma OrAgain(f: byte, x: byte)
    ensures Or(Or(f, x), x) == Or(f, x)
  {
    OrBitsAgain(f, x, 8);
  }

  /** A non-zero mask OR-ed into a value is set in the result, whichever side it is on. */
  lemma AndOfOr(m: byte, x: byte)
    ensures And(Or(m, x), m) == m && And(Or(x, m), m) == m
  {
    assert Pow2(8) == 256;
    AndBitsOfOr(m, x, 8);
  }

  /** A mask whose bits are all set in `f` stays set once more bits are OR-ed in. */
  lemma OrKeeps(f: byte, x: byte, m: byte)
    requires And(f, m) == m
    ensures And(Or(f, x), m) == m && And(Or(x, f), m) == m
  {
    OrBitsKeeps(f, x, m, 8);
  }

  /** `a & a == a`. */
  lemma AndSelf(a: byte)
    ensures And(a, a) == a
  {
    assert Pow2(8) == 256;
    AndBitsSelf(a, 8);
  }

  /** When `(f | x) & m` is zero, so is `f & m`. */
  lemma AndGrows(f: byte, x: byte, m: byte)
    requires And(Or(f, x), m) == 0
    ensures And(f, m) == 0
  {
    AndBitsGrows(f, x, m, 8);
  }

  /** OR-ing two values of the low seven bits stays in the low seven bits. */
  lemma OrBelow80(a: byte, b: byte)
    requires a < 0x80 && b < 0x80
    ensures Or(a, b) < 0x80
  {
    assert Pow2(7) == 0x80;
    OrBitsBelow(a, b, 7, 8);
  }

  /** Setting bit `k` (when `top`) above a value of `k` bits is OR-ing it in. */
  lemma {:induction false} OrTopBit(top: bool, a: nat, k: nat)
    requires a < Pow2(k)
    ensures OrBits(if top then Pow2(k) else 0, a, k + 1) == (if top then Pow2(k) else 0) + a
  {
    if k > 0 {
      OrTopBit(top, a / 2, k - 1);
    }
  }

  /** The mask `2^k - 1` recovers the low `k` bits under a top bit `k`. */
  lemma {:induction false} AndLowBits(top: bool, a: nat, k: nat)
    requires a < Pow2(k)
    ensures AndBits((if top then Pow2(k) else 0) + a, Pow2(k) - 1, k + 1) == a
  {
    var t := if top then Pow2(k) else 0;
    if k > 0 {
      var t' := if top then Pow2(k - 1) else 0;
      AndLowBits(top, a / 2, k - 1);
      assert (t + a) / 2 == t' + a / 2 && Low(t + a) == Low(a);
      assert (Pow2(k) - 1) / 2 == Pow2(k - 1) - 1 && Low(Pow2(k) - 1) == 1;
    }
  }

  /** The mask `2^k` recovers bit `k` above `k` low bits. */
  lemma {:induction false} AndTopBit(top: bool, a: nat, k: nat)
    requires a < Pow2(k)
    ensures AndBits((if top then Pow2(k) else 0) + a, Pow2(k), k + 1) == (if top then Pow2(k) else 0)
  {
    var t := if top then Pow2(k) else 0;
    if k > 0 {
      var t' := if top then Pow2(k - 1) else 0;
      AndTopBit(top, a / 2, k - 1);
      assert (t + a) / 2 == t' + a / 2;
      assert Pow2(k) / 2 == Pow2(k - 1) && Low(Pow2(k)) == 0;
    }
  }

  /**
   * Byte 0 of a frame: a one-bit version above seven flag bits. OR-ing them
   * together is adding them, and the masks 0x7F and 0x80 take them apart.
   */
  lemma VersionAndFlags(v: byte, f: byte)
    requires v <= 1 && f < 0x80
    ensures Or(v * 128 % 256, f) == v * 128 + f
    ensures And(v * 128 + f, 0x7F) == f && And(v * 128 + f, 0x80) == v * 128
  {
    VersionOrFlags(v, f);
    assert Pow2(7) == 128;
    AndLowBits(v == 1, f, 7);
    AndTopBit(v == 1, f, 7);
  }

  /** The OR half of `VersionAndFlags`. */
  lemma VersionOrFlags(v: byte, f: byte)
    requires v <= 1 && f < 0x80
    ensures Or(v * 128 % 256, f) == v * 128 + f
  {
    assert Pow2(7) == 128 && v * 128 % 256 == v * 128;
    OrTopBit(v == 1, f, 7);
  }
}
