/** Java `int` values and the power-of-two arithmetic that sizes the bucket tables. */
module Sizing {

  /** Java's 32-bit signed `int`; hash codes and the constructor's size hint have this type. */
  newtype int32 = x: int | -0x8000_0000 <= x < 0x8000_0000

  /** Smallest table length the constructor produces. */
  const MIN_CAPACITY: nat := 16

  /** Largest power of two a Java `int` holds; doubling a table of this length overflows. */
  const MAX_CAPACITY: nat := 0x4000_0000

  predicate IsPowerOfTwo(n: int)
    decreases if n > 0 then n else 0
  {
    n == 1 || (n >= 2 && n % 2 == 0 && IsPowerOfTwo(n / 2))
  }

  function Max(a: int, b: int): int {
    if a >= b then a else b
  }

  /** The value of `1 << (31 - Integer.numberOfLeadingZeros(n))` for a positive `n`:
      the highest one-bit of `n`, i.e. `n` rounded DOWN to a power of two. */
  function HighestOneBit(n: int): (r: nat)
    requires n >= 1
    ensures IsPowerOfTwo(r)
    ensures r <= n < 2 * r
  {
    if n == 1 then 1 else 2 * HighestOneBit(n / 2)
  }

  /** The table length chosen by the constructor for the size hint `hint`. */
  function InitialCapacity(hint: int32): (r: nat)
    ensures IsPowerOfTwo(r)
    ensures MIN_CAPACITY <= r <= Max(MIN_CAPACITY, hint as int) < 2 * r
  {
    var r := HighestOneBit(Max(MIN_CAPACITY, hint as int));
    PowerOfTwoBelowDouble(MIN_CAPACITY, r);
    r
  }

  /** Half of a power of two of at least 2 is again a power of two. */
  lemma HalfIsPowerOfTwo(n: int)
    requires IsPowerOfTwo(n) && n >= 2
    ensures IsPowerOfTwo(n / 2) && n == 2 * (n / 2)
  {
  }

  /** Twice a power of two is a power of two. */
  lemma DoubleIsPowerOfTwo(n: int)
    requires IsPowerOfTwo(n)
    ensures IsPowerOfTwo(2 * n)
  {
    assert (2 * n) / 2 == n;
  }

  /** Every power of two of at least 8 is a multiple of 8, so the 8-bucket batches tile a table. */
  lemma {:induction false} PowerOfTwoMultipleOfEight(n: int)
    requires IsPowerOfTwo(n) && n >= 8
    ensures n % 8 == 0
  {
    if n < 16 {
      PowerOfTwoBelowDouble(n, 8);
    } else {
      PowerOfTwoMultipleOfEight(n / 2);
    }
  }

  /** Powers of two are ordered by halving: a power of two below twice another is at most it. */
  lemma {:induction false} PowerOfTwoBelowDouble(p: int, q: int)
    requires IsPowerOfTwo(p) && IsPowerOfTwo(q) && p < 2 * q
    ensures p <= q
  {
    if p != 1 && q != 1 {
      PowerOfTwoBelowDouble(p / 2, q / 2);
    }
  }

  /** A hint that is already a power of two of at least 16 is kept as the table length. */
  lemma InitialCapacityKeepsPowers(hint: int32)
    requires IsPowerOfTwo(hint as int) && hint as int >= MIN_CAPACITY
    ensures InitialCapacity(hint) == hint as int
  {
    PowerOfTwoBelowDouble(hint as int, InitialCapacity(hint));
  }

  /** The constructor turns a hint of 10 into 16 buckets, and a hint of 100 into 64 (not 128). */
  lemma InitialCapacityExamples()
    ensures InitialCapacity(10) == 16
    ensures InitialCapacity(100) == 64
  {
    assert HighestOneBit(16) == 16 by {
      assert HighestOneBit(2) == 2;
    }
    assert HighestOneBit(100) == 64 by {
      assert HighestOneBit(3) == 2;
      assert HighestOneBit(6) == 4;
      assert HighestOneBit(12) == 8;
    }
  }
}
