/** Arithmetic on the bits of non-negative Python integers.

    Every operation is written by recursion on halves, so that an induction that strips one
    level off a Merkle tree strips one bit off every size and index at the same time. */
module Bits {

  /** `x.bit_length()` */
  function BitLength(x: nat): nat {
    if x == 0 then 0 else 1 + BitLength(x / 2)
  }

  /** `x >> b` */
  function ShiftRight(x: nat, b: nat): nat {
    if b == 0 then x else ShiftRight(x / 2, b - 1)
  }

  /** `1 << e` */
  function Pow2(e: nat): (p: nat)
    ensures p > 0
  {
    if e == 0 then 1 else 2 * Pow2(e - 1)
  }

  /** `x & y` */
  function And(x: nat, y: nat): nat {
    if x == 0 || y == 0 then 0
    else 2 * And(x / 2, y / 2) + (if x % 2 == 1 && y % 2 == 1 then 1 else 0)
  }

  /** `x & -x`: in two's complement `-x` is the complement of `x - 1`, so this keeps the bits of `x`
      that `x - 1` does not have. */
  function AndMinus(x: nat): int
    requires x > 0
  {
    x - And(x, x - 1)
  }

  predicate IsPowerOfTwo(n: nat) {
    n == 1 || (n > 0 && n % 2 == 0 && IsPowerOfTwo(n / 2))
  }

  /** The largest power of two that divides `n`. */
  function LowBit(n: nat): (b: nat)
    requires n > 0
    ensures 0 < b <= n
  {
    if n % 2 == 1 then 1 else 2 * LowBit(n / 2)
  }

  /** The largest power of two below `n`. */
  function SplitPoint(n: nat): (k: nat)
    requires n >= 2
    ensures k < n <= 2 * k
  {
    if n == 2 then 1 else 2 * SplitPoint((n + 1) / 2)
  }

  lemma SplitPointOfTwo()
    ensures SplitPoint(2) == 1
  {
  }

  /** One level up, the split point is halved. */
  lemma SplitPointHalves(n: nat)
    requires n >= 3
    ensures SplitPoint(n) == 2 * SplitPoint((n + 1) / 2)
  {
  }

  lemma {:induction false} SplitPointIsPowerOfTwo(n: nat)
    requires n >= 2
    ensures IsPowerOfTwo(SplitPoint(n))
  {
    if n > 2 { SplitPointIsPowerOfTwo((n + 1) / 2); }
  }

  /** `1 << ((n - 1).bit_length() - 1)` computes the split point. */
  lemma {:induction false} SplitPointByShift(n: nat)
    requires n >= 2
    ensures BitLength(n - 1) >= 1 && SplitPoint(n) == Pow2(BitLength(n - 1) - 1)
  {
    if n > 2 {
      SplitPointByShift((n + 1) / 2);
      assert (n + 1) / 2 - 1 == (n - 1) / 2;
    }
  }

  /** No other power of two k satisfies k < n <= 2k. */
  lemma {:induction false} SplitPointUnique(n: nat, k: nat)
    requires n >= 2 && k < n <= 2 * k && IsPowerOfTwo(k)
    ensures k == SplitPoint(n)
  {
    if n > 2 {
      SplitPointUnique((n + 1) / 2, k / 2);
    }
  }

  /** `n & (n - 1) == 0` is the test for a power of two. */
  lemma {:induction false} AndPredecessor(n: nat)
    requires n > 0
    ensures And(n, n - 1) == n - LowBit(n)
    ensures And(n, n - 1) == 0 <==> IsPowerOfTwo(n)
  {
    if n % 2 == 1 {
      if n > 1 {
        assert (n - 1) / 2 == n / 2;
        AndSelf(n / 2);
      }
    } else {
      assert (n - 1) / 2 == n / 2 - 1;
      AndPredecessor(n / 2);
    }
  }

  /** `n & -n` is the lowest set bit. */
  lemma AndMinusIsLowBit(n: nat)
    requires n > 0
    ensures AndMinus(n) == LowBit(n)
  {
    AndPredecessor(n);
  }

  lemma {:induction false} AndSelf(n: nat)
    ensures And(n, n) == n
  {
    if n > 0 { AndSelf(n / 2); }
  }

  /** Removing the lowest block of a size leaves a size whose lowest block is at least twice as big. */
  lemma {:induction false} LowBitDoubles(n: nat)
    requires n > 0
    ensures n - LowBit(n) > 0 ==> LowBit(n - LowBit(n)) >= 2 * LowBit(n)
  {
    if n % 2 == 0 {
      LowBitDoubles(n / 2);
    }
  }

  lemma {:induction false} LowBitIsPowerOfTwo(n: nat)
    requires n > 0
    ensures IsPowerOfTwo(LowBit(n))
  {
    if n % 2 == 0 { LowBitIsPowerOfTwo(n / 2); }
  }
}
