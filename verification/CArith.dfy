/**
 * The slice of C integer semantics that the firmware relies on: fixed-width
 * unsigned and signed types, division and remainder that truncate toward
 * zero, unsigned wrap-around, left shift on `uint32_t` and bitwise OR.
 * Dafny's own `/` and `%` are Euclidean, so every C division whose operand
 * may be negative goes through CDiv and CRem below.
 */
module CArith {

  const TWO_TO_32: int := 0x1_0000_0000

  type byte = x: int | 0 <= x < 0x100
  type uint16 = x: int | 0 <= x < 0x1_0000
  type int16 = x: int | -0x8000 <= x < 0x8000
  type uint32 = x: int | 0 <= x < 0x1_0000_0000

  /** C's `a / b` for a positive divisor: the quotient truncated toward zero. */
  function CDiv(a: int, b: int): (q: int)
    requires b > 0
    ensures a >= 0 ==> 0 <= a - q * b < b
    ensures a < 0 ==> -b < a - q * b <= 0
  {
    if a >= 0 then a / b else -((-a) / b)
  }

  /** C's `a % b` for a positive divisor: the remainder takes the sign of `a`. */
  function CRem(a: int, b: int): (r: int)
    requires b > 0
    ensures CDiv(a, b) * b + r == a
    ensures a >= 0 ==> 0 <= r < b
    ensures a < 0 ==> -b < r <= 0
  {
    a - CDiv(a, b) * b
  }

  /** C's `a - b` on `uint32_t` operands: the difference modulo 2^32. */
  function Sub32(a: uint32, b: uint32): (r: uint32)
    ensures a >= b ==> r == a - b
    ensures a < b ==> r == a - b + TWO_TO_32
  {
    (a - b) % TWO_TO_32
  }

  function Pow2(k: nat): (p: nat)
    ensures p >= 1
  {
    if k == 0 then 1 else 2 * Pow2(k - 1)
  }

  lemma {:induction false} Pow2Add(j: nat, k: nat)
    ensures Pow2(j) * Pow2(k) == Pow2(j + k)
    decreases j
  {
    if j > 0 {
      Pow2Add(j - 1, k);
    }
  }

  /** A value below 2^(32 - k) shifted left by k still fits in 32 bits. */
  lemma ShiftFits(x: nat, k: nat)
    requires k <= 32 && x < Pow2(32 - k)
    ensures x * Pow2(k) < TWO_TO_32
  {
    var p, q := Pow2(k), Pow2(32 - k);
    Pow2Add(32 - k, k);
    Pow2Add(16, 16);
    Pow2Values();
    assert q * p == TWO_TO_32;
    MulGap(x, q, p);
  }

  /** Multiplying by p keeps a gap of at least p between x and a larger q. */
  lemma {:induction false} MulGap(x: nat, q: nat, p: nat)
    requires x < q
    ensures x * p + p <= q * p
    decreases p
  {
    if p > 0 {
      MulGap(x, q, p - 1);
      assert x * p == x * (p - 1) + x && q * p == q * (p - 1) + q;
    }
  }

  /**
   * C's `x << k` on a `uint32_t`: bits shifted past bit 31 are lost, and
   * nothing is lost when x fits in the low 32 - k bits.
   */
  function Shl32(x: uint32, k: nat): (r: uint32)
    ensures exists q: int :: x * Pow2(k) == q * TWO_TO_32 + r
    ensures k <= 32 && x < Pow2(32 - k) ==> r == x * Pow2(k)
  {
    var v := x * Pow2(k);
    assert v == v / TWO_TO_32 * TWO_TO_32 + v % TWO_TO_32;
    if k <= 32 && x < Pow2(32 - k) then
      ShiftFits(x, k);
      v % TWO_TO_32
    else
      v % TWO_TO_32
  }

  /**
   * Bitwise OR of two non-negative integers, defined bit by bit from the least
   * significant end.  It keeps every bit of both operands, so it is at least
   * each of them, and at most their sum.
   */
  function BitOr(a: nat, b: nat): (r: nat)
    ensures a <= r && b <= r && r <= a + b
    decreases a + b
  {
    if a == 0 then b
    else if b == 0 then a
    else 2 * BitOr(a / 2, b / 2) + (if a % 2 == 1 || b % 2 == 1 then 1 else 0)
  }

  /** OR-ing a value into the low k bits left clear by a shift is addition. */
  lemma {:induction false} BitOrDisjoint(a: nat, b: nat, k: nat)
    requires b < Pow2(k)
    ensures BitOr(a * Pow2(k), b) == a * Pow2(k) + b
    decreases k
  {
    if k == 0 {
      assert b == 0;
    } else if a * Pow2(k) == 0 || b == 0 {
    } else {
      var high := a * Pow2(k - 1);
      assert a * Pow2(k) == 2 * high;
      assert (2 * high) / 2 == high && (2 * high) % 2 == 0;
      assert b / 2 < Pow2(k - 1);
      BitOrDisjoint(a, b / 2, k - 1);
      assert BitOr(2 * high, b) == 2 * (high + b / 2) + b % 2;
    }
  }

  lemma Pow2Values()
    ensures Pow2(8) == 0x100 && Pow2(16) == 0x1_0000
  {
    assert Pow2(4) == 16;
    assert Pow2(8) == 16 * Pow2(4);
  }

  /** Euclidean division by the calendar's constant divisors, stated once so that the solver need not search for it. */
  lemma DivMod4(k: int, r: int)
    requires 0 <= r < 4
    ensures (4 * k + r) / 4 == k && (4 * k + r) % 4 == r
  {
  }

  lemma DivMod100(k: int, r: int)
    requires 0 <= r < 100
    ensures (100 * k + r) / 100 == k && (100 * k + r) % 100 == r
  {
  }

  lemma DivMod400(k: int, r: int)
    requires 0 <= r < 400
    ensures (400 * k + r) / 400 == k && (400 * k + r) % 400 == r
  {
  }
}
