/** Population count of a 32-bit value, defined by bit position.

    `Popcount(x)` is the number of positions i in [0, 32) at which `x` has a
    1-bit. It is the reference against which the shift-and-test loop of
    `getCidr` is checked, and it does not depend on the byte order in which
    the value was read.
 */
module BitCount {
  import opened ByteOrder

  /** Bit `i` of `x` is set (bit 0 is the least significant). */
  predicate Bit(x: bv32, i: bv32)
    requires i < 32
  {
    (x >> i) & 1 == 1
  }

  /** The number of set bits of `x` at positions lo, lo + 1, ..., hi - 1. */
  function CountRange(x: bv32, lo: bv32, hi: bv32): (n: nat)
    requires lo <= hi <= 32
    decreases hi - lo
  {
    if lo == hi then 0 else (if Bit(x, lo) then 1 else 0) + CountRange(x, lo + 1, hi)
  }

  /** The number of 1-bits of `x`. */
  function Popcount(x: bv32): (n: nat)
    ensures n <= 32
  {
    CountBelowAllOnes(x, 0);
    CountPrefixHigh(32, 0);
    CountRange(x, 0, 32)
  }

  /** No value has more 1-bits in a range than the all-ones value. */
  lemma {:induction false} CountBelowAllOnes(x: bv32, lo: bv32)
    requires lo <= 32
    ensures CountRange(x, lo, 32) <= CountRange(0xFFFF_FFFF, lo, 32)
    decreases 32 - lo
  {
    if lo < 32 {
      assert Bit(0xFFFF_FFFF, lo);
      CountBelowAllOnes(x, lo + 1);
    }
  }

  /** Counting a range is counting its two halves. */
  lemma {:induction false} CountSplit(x: bv32, lo: bv32, mid: bv32, hi: bv32)
    requires lo <= mid <= hi <= 32
    ensures CountRange(x, lo, hi) == CountRange(x, lo, mid) + CountRange(x, mid, hi)
    decreases mid - lo
  {
    if lo < mid {
      CountSplit(x, lo + 1, mid, hi);
    }
  }

  /** A range without set bits counts zero. */
  lemma {:induction false} CountClear(x: bv32, lo: bv32, hi: bv32)
    requires lo <= hi <= 32
    requires (x >> lo) == 0
    ensures CountRange(x, lo, hi) == 0
    decreases hi - lo
  {
    if lo < hi {
      ClearStep(x, lo);
      CountClear(x, lo + 1, hi);
    }
  }

  /** A value that is zero after a shift by `lo` has bit `lo` clear and
      stays zero after a shift by one more. */
  lemma ClearStep(x: bv32, lo: bv32)
    ensures lo < 32 && x >> lo == 0 ==> !Bit(x, lo) && x >> (lo + 1) == 0
  {
  }

  /** After a right shift by one, the bits of `x` at lo + 1 .. 31 sit at
      lo .. 30. */
  lemma {:induction false} CountShiftRight(x: bv32, lo: bv32)
    requires lo <= 31
    ensures CountRange(x >> 1, lo, 31) == CountRange(x, lo + 1, 32)
    decreases 31 - lo
  {
    if lo < 31 {
      assert Bit(x >> 1, lo) == Bit(x, lo + 1);
      CountShiftRight(x, lo + 1);
    }
  }

  /** One step of the `getCidr` loop: the lowest bit plus the 1-bits of
      the value shifted right by one make up all 1-bits. */
  lemma PopcountStep(x: bv32)
    ensures Popcount(x) == (x & 1) as int + Popcount(x >> 1)
  {
    CountShiftRight(x, 0);
    CountSplit(x >> 1, 0, 31, 32);
    assert !Bit(x >> 1, 31);
    assert Bit(x, 0) <==> x & 1 == 1;
  }

  /** Only zero has no 1-bits. */
  lemma PopcountZero(x: bv32)
    ensures Popcount(x) == 0 <==> x == 0
  {
    if x == 0 {
      CountClear(x, 0, 32);
    } else {
      PopcountNonZero(x, 0);
    }
  }

  lemma {:induction false} PopcountNonZero(x: bv32, lo: bv32)
    requires lo <= 32
    requires x >> lo != 0
    ensures CountRange(x, lo, 32) > 0
    decreases 32 - lo
  {
    if lo == 32 {
      assert false;
    } else if !Bit(x, lo) {
      assert x >> (lo + 1) != 0;
      PopcountNonZero(x, lo + 1);
    }
  }

  lemma ReverseBit(x: bv32, j: bv32, k: bv32)
    requires j < 4 && k < 8
    ensures Bit(Reverse(x), 8 * j + k) == Bit(x, 8 * (3 - j) + k)
  {
  }

  /** Byte reversal moves the eight bits of byte j of `x` to byte 3 - j;
      counting them from position 8 * j + k up to the end of the byte
      gives the same number at either place. */
  lemma {:induction false} CountReversedByte(x: bv32, j: bv32, k: bv32)
    requires j < 4 && k <= 8
    ensures CountRange(Reverse(x), 8 * j + k, 8 * j + 8)
         == CountRange(x, 8 * (3 - j) + k, 8 * (3 - j) + 8)
    decreases 8 - k
  {
    if k < 8 {
      ReverseBit(x, j, k);
      CountReversedByte(x, j, k + 1);
    }
  }

  /** The count of all 32 bits is the sum of the counts of the four bytes. */
  lemma PopcountBytes(x: bv32)
    ensures Popcount(x) == CountRange(x, 0, 8) + CountRange(x, 8, 16)
                         + CountRange(x, 16, 24) + CountRange(x, 24, 32)
  {
    CountSplit(x, 0, 8, 32);
    CountSplit(x, 8, 16, 32);
    CountSplit(x, 16, 24, 32);
  }

  /** A population count does not depend on byte order: both kinds of
      host count the same number of 1-bits in a mask. */
  lemma PopcountSwap(e: Endian, x: bv32)
    ensures Popcount(Swap(e, x)) == Popcount(x)
  {
    if e == LittleEndian {
      PopcountBytes(x);
      PopcountBytes(Reverse(x));
      CountReversedByte(x, 0, 0);
      CountReversedByte(x, 1, 0);
      CountReversedByte(x, 2, 0);
      CountReversedByte(x, 3, 0);
    }
  }

  /** The network-order value of a contiguous mask of prefix length `p`:
      `p` 1-bits followed by 32 - p 0-bits. */
  function PrefixValue(p: bv32): (m: bv32)
    requires p <= 32
  {
    if p == 0 then 0 else 0xFFFF_FFFF << (32 - p)
  }

  /** A contiguous mask of length `p` has a 1-bit at every position from
      32 - p up to 31. */
  lemma CountPrefixHigh(p: bv32, lo: bv32)
    requires p <= 32 && 32 - p <= lo <= 32
    ensures CountRange(PrefixValue(p), lo, 32) == (32 - lo) as int
  {
    CountPrefixHighFrom(p, lo);
  }

  /** The induction behind `CountPrefixHigh`, with its hypothesis stated
      as an implication so that each step has a single obligation. */
  lemma {:induction false} CountPrefixHighFrom(p: bv32, lo: bv32)
    ensures p <= 32 && 32 - p <= lo <= 32 ==> CountRange(PrefixValue(p), lo, 32) == (32 - lo) as int
    decreases 32 - lo
  {
    if lo < 32 {
      PrefixBitHigh(p, lo);
      StepBelow(32 - p, lo);
      StepDecreases(lo);
      StepCount(lo);
      CountPrefixHighFrom(p, lo + 1);
    }
  }

  // One step from `lo` towards 32, one fact per lemma: each is cheap on
  // its own, and the solver slows down sharply once they are combined.

  lemma StepBelow(a: bv32, lo: bv32)
    ensures a <= lo < 32 ==> a <= lo + 1 <= 32
  {
  }

  lemma StepDecreases(lo: bv32)
    ensures lo < 32 ==> 32 - (lo + 1) < 32 - lo
  {
  }

  lemma StepCount(lo: bv32)
    ensures lo < 32 ==> (32 - lo) as int == (32 - (lo + 1)) as int + 1
  {
  }

  /** The top `p` bits of a contiguous mask of length `p` are set. */
  lemma PrefixBitHigh(p: bv32, i: bv32)
    ensures p <= 32 && 32 - p <= i < 32 ==> Bit(PrefixValue(p), i)
  {
  }

  lemma {:induction false} CountPrefixLow(p: bv32, lo: bv32)
    requires p <= 32 && lo <= 32 - p
    ensures CountRange(PrefixValue(p), lo, 32 - p) == 0
    decreases 32 - p - lo
  {
    if lo < 32 - p {
      PrefixBitLow(p, lo);
      CountPrefixLow(p, lo + 1);
    }
  }

  /** The low 32 - p bits of a contiguous mask of length `p` are clear. */
  lemma PrefixBitLow(p: bv32, i: bv32)
    ensures p <= 32 && i < 32 - p ==> !Bit(PrefixValue(p), i)
  {
  }

  /** A contiguous mask of prefix length `p` has exactly `p` 1-bits. */
  lemma PopcountPrefix(p: bv32)
    requires p <= 32
    ensures Popcount(PrefixValue(p)) == p as int
  {
    CountSplit(PrefixValue(p), 0, 32 - p, 32);
    CountPrefixLow(p, 0);
    CountPrefixHigh(p, 32 - p);
  }
}
