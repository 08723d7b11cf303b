/** Machine arithmetic of the controller's C++ code: 32-bit `unsigned long`
    with wrap-around, and C's `/` and `%`, which truncate toward zero
    (Dafny's own `/` and `%` are Euclidean). */
module CInt {

  const ULongModulus: int := 0x1_0000_0000

  /** `unsigned long` on the target (32 bits). */
  type ULong = x: int | 0 <= x < ULongModulus

  /** Unsigned addition, wrapping modulo 2^32. */
  function AddU(a: ULong, b: ULong): (r: ULong)
    ensures a + b < ULongModulus ==> r == a + b
    ensures a + b >= ULongModulus ==> r == a + b - ULongModulus
  {
    (a + b) % ULongModulus
  }

  /** Unsigned subtraction, wrapping modulo 2^32. */
  function SubU(a: ULong, b: ULong): (r: ULong)
    ensures b <= a ==> r == a - b
    ensures a < b ==> r == a - b + ULongModulus
  {
    (a - b) % ULongModulus
  }

  /** C's integer division: truncates toward zero. */
  function CDiv(a: int, b: int): int
    requires b != 0
  {
    if a >= 0 && b > 0 then a / b
    else if a >= 0 then -(a / -b)
    else if b > 0 then -(-a / b)
    else -a / -b
  }

  /** C's remainder: has the sign of the dividend. */
  function CRem(a: int, b: int): int
    requires b != 0
  {
    a - b * CDiv(a, b)
  }

  /** The remainder takes the dividend's sign, is smaller than the divisor in
      magnitude, and agrees with the Euclidean one on non-negative operands. */
  lemma CRemBounds(a: int, b: int)
    requires b > 0
    ensures a >= 0 ==> 0 <= CRem(a, b) < b && CRem(a, b) == a % b && CDiv(a, b) == a / b
    ensures a < 0 ==> -b < CRem(a, b) <= 0
    ensures CDiv(a, b) * b + CRem(a, b) == a
  {
    if a < 0 {
      assert CDiv(a, b) == -(-a / b);
      assert CRem(a, b) == a + b * (-a / b);
      assert -a == b * (-a / b) + (-a) % b;
    }
  }

  function Pow2(k: nat): (r: nat)
    ensures r >= 1
  {
    if k == 0 then 1 else 2 * Pow2(k - 1)
  }

  /** `x << k` on an `unsigned long`: bits shifted past bit 31 are lost. */
  function Shl(x: ULong, k: nat): ULong {
    x * Pow2(k) % ULongModulus
  }

  /** Bitwise OR of two non-negative numbers, bit by bit from the lowest. */
  function BitOr(a: nat, b: nat): nat
    decreases a + b
  {
    if a == 0 && b == 0 then 0
    else 2 * BitOr(a / 2, b / 2) + (if a % 2 == 1 || b % 2 == 1 then 1 else 0)
  }

  lemma {:induction false} BitOrZero(a: nat)
    ensures BitOr(a, 0) == a
    decreases a
  {
    if a != 0 {
      BitOrZero(a / 2);
    }
  }

  /** OR-ing a number whose low `k` bits are clear with one below 2^k adds them. */
  lemma {:induction false} BitOrDisjoint(a: nat, b: nat, k: nat)
    requires b < Pow2(k)
    ensures BitOr(a * Pow2(k), b) == a * Pow2(k) + b
    decreases k
  {
    if k == 0 {
      BitOrZero(a);
    } else {
      var high := a * Pow2(k - 1);
      assert a * Pow2(k) == 2 * high;
      BitOrDisjoint(a, b / 2, k - 1);
      if high != 0 || b != 0 {
        assert BitOr(2 * high, b) == 2 * BitOr(high, b / 2) + b % 2;
      }
    }
  }

  lemma Doubling(x: int, p: int)
    ensures x * (2 * p) == 2 * (x * p)
  {
  }

  lemma BitOrEven(a: nat, b: nat)
    ensures BitOr(2 * a, 2 * b) == 2 * BitOr(a, b)
  {
  }

  /** Shifting both operands left by `k` bits shifts their OR by `k` bits. */
  lemma {:induction false} BitOrScaled(a: nat, b: nat, k: nat)
    ensures BitOr(a * Pow2(k), b * Pow2(k)) == BitOr(a, b) * Pow2(k)
    decreases k
  {
    if k > 0 {
      var p := Pow2(k - 1);
      var high, low := a * p, b * p;
      assert a * Pow2(k) == 2 * high by {
        Doubling(a, p);
      }
      assert b * Pow2(k) == 2 * low by {
        Doubling(b, p);
      }
      assert BitOr(2 * high, 2 * low) == 2 * BitOr(high, low) by {
        BitOrEven(high, low);
      }
      assert BitOr(high, low) == BitOr(a, b) * p by {
        BitOrScaled(a, b, k - 1);
      }
      Doubling(BitOr(a, b), p);
    }
  }
}
