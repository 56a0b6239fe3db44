/**
 * The 32-bit integer arithmetic of JavaScript's bitwise operators, written
 * out on unbounded integers: `x | 0` (ToInt32), the unsigned bit pattern of
 * a value, `<<` and `|` on 32-bit patterns.
 *
 * A 32-bit pattern is a natural number below 2^32; the signed value it
 * stands for is `Signed(p)`.
 */
module Int32 {

  const TWO31: int := 0x8000_0000
  const TWO32: int := 0x1_0000_0000

  /** A value a JavaScript bitwise operator can produce. */
  type int32 = x: int | -0x8000_0000 <= x < 0x8000_0000

  /** A 32-bit pattern, read unsigned. */
  type uint32 = x: int | 0 <= x < 0x1_0000_0000

  /** `x | 0` for an integer-valued number: reduce modulo 2^32 into the signed range. */
  function ToInt32(x: int): (r: int32)
    ensures (r - x) % TWO32 == 0
    ensures -TWO31 <= x < TWO31 ==> r == x
  {
    var m := x % TWO32;
    if m < TWO31 then m else m - TWO32
  }

  /** `x >>> 0`: the unsigned pattern of an integer-valued number. */
  function ToUint32(x: int): (r: uint32)
    ensures (r - x) % TWO32 == 0
    ensures 0 <= x < TWO32 ==> r == x
  {
    x % TWO32
  }

  /** The signed value a pattern stands for: the top bit counts -2^31. */
  function Signed(p: uint32): (r: int32)
    ensures ToUint32(r) == p
    ensures r >= 0 <==> p < TWO31
  {
    if p < TWO31 then p else p - TWO32
  }

  function Pow2(n: nat): (r: nat)
    ensures r >= 1
  {
    if n == 0 then 1 else 2 * Pow2(n - 1)
  }

  /**
   * Bitwise OR of two naturals, one binary digit at a time (on patterns this
   * is JavaScript's `|`). It never loses a bit of either operand and never
   * exceeds their sum.
   */
  function BitOr(a: nat, b: nat): (r: nat)
    ensures a <= r && b <= r && r <= a + b
  {
    if a == 0 then b
    else if b == 0 then a
    else 2 * BitOr(a / 2, b / 2) + (if a % 2 == 1 || b % 2 == 1 then 1 else 0)
  }

  /** `x << s` on a pattern: the shift count is taken modulo 32 and the bits above 31 fall off. */
  function ShiftLeft(x: nat, s: nat): (r: uint32)
    ensures (r - x * Pow2(s % 32)) % TWO32 == 0
  {
    (x * Pow2(s % 32)) % TWO32
  }

  /** Bit `k` of `x`: its lowest bit once halved `k` times. */
  function Bit(x: nat, k: nat): (r: nat)
    ensures r <= 1
  {
    if k == 0 then x % 2 else Bit(x / 2, k - 1)
  }

  lemma {:induction false} ZeroBits(k: nat)
    ensures Bit(0, k) == 0
  {
    if k > 0 {
      ZeroBits(k - 1);
    }
  }

  /** A bit of `a | b` is set exactly when it is set in `a` or in `b`. */
  lemma {:induction false} BitOrBits(a: nat, b: nat, k: nat)
    ensures Bit(BitOr(a, b), k) == 1 <==> Bit(a, k) == 1 || Bit(b, k) == 1
  {
    if a == 0 {
      ZeroBits(k);
    } else if b == 0 {
      ZeroBits(k);
    } else if k > 0 {
      var c := if a % 2 == 1 || b % 2 == 1 then 1 else 0;
      assert (2 * BitOr(a / 2, b / 2) + c) / 2 == BitOr(a / 2, b / 2);
      BitOrBits(a / 2, b / 2, k - 1);
    }
  }

  lemma {:induction false} BitOrBelow(a: nat, b: nat, k: nat)
    requires a < Pow2(k) && b < Pow2(k)
    ensures BitOr(a, b) < Pow2(k)
  {
    if a != 0 && b != 0 {
      assert k > 0;
      BitOrBelow(a / 2, b / 2, k - 1);
    }
  }

  /** On patterns, OR stays a pattern. */
  lemma BitOrPattern(a: uint32, b: uint32)
    ensures BitOr(a, b) < TWO32
  {
    Pow2Value32();
    BitOrBelow(a, b, 32);
  }

  /** When a fits in the low k bits, OR with a multiple of 2^k is addition. */
  lemma {:induction false} BitOrDisjoint(a: nat, q: nat, k: nat)
    requires a < Pow2(k)
    ensures BitOr(a, Pow2(k) * q) == a + Pow2(k) * q
  {
    var b := Pow2(k) * q;
    if a != 0 && b != 0 {
      assert k > 0;
      var t := Pow2(k - 1) * q;
      assert b == 2 * t;
      BitOrDisjoint(a / 2, q, k - 1);
    }
  }

  lemma Pow2Value32()
    ensures Pow2(32) == 0x1_0000_0000
  {
    Pow2Groups();
    assert Pow2(30) == 0x4000_0000;
  }

  /** The shift amounts a VarInt decoder uses for its first five groups. */
  lemma Pow2Groups()
    ensures Pow2(0) == 1 && Pow2(7) == 0x80 && Pow2(14) == 0x4000
    ensures Pow2(21) == 0x20_0000 && Pow2(28) == 0x1000_0000
  {
  }
}
