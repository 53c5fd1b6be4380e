/*
 * The reference every bit-counting routine is measured against: the number
 * of set bits of a 32-bit `unsigned int` (what the test driver obtains from
 * `__builtin_popcount`).
 *
 * `PopLow(n, k)` counts the set bits among the `k` lowest bits of `n`, peeling
 * one bit per step; `Popcount(n)` is `PopLow(n, 32)`. The recursion runs on
 * the natural number `k`, never on the word itself, so every lemma below
 * proceeds by induction on a width and meets only shifts by the constant 1.
 */
module PopcountSpec {

  /** Value of the least significant bit of `n`, as a number. */
  function LowBit(n: bv32): (r: nat)
    ensures r <= 1
    ensures r == 1 <==> n & 1 == 1
  {
    if n & 1 == 1 then 1 else 0
  }

  /** Number of set bits among the `k` least significant bits of `n`. */
  function PopLow(n: bv32, k: nat): nat
    decreases k
  {
    if k == 0 then 0 else LowBit(n) + PopLow(n >> 1, k - 1)
  }

  /** `n` shifted right one position `k` times. */
  function ShiftRightN(n: bv32, k: nat): bv32
    decreases k
  {
    if k == 0 then n else ShiftRightN(n >> 1, k - 1)
  }

  /** Width of `unsigned int`. */
  const WordBits: nat := 32

  /** Population count of a 32-bit word. */
  function Popcount(n: bv32): nat
  {
    PopLow(n, WordBits)
  }

  /** The `k` lowest bits of `z` are all clear. */
  predicate LowZero(z: bv32, k: nat)
    decreases k
  {
    k == 0 || (z & 1 == 0 && LowZero(z >> 1, k - 1))
  }

  /** `a` and `b` share no set bit and together make up `c`. */
  predicate Disjoint(a: bv32, b: bv32, c: bv32)
  {
    a & b == 0 && c == a | b
  }

  // ---------------------------------------------------------------------
  // Bounds and known values

  lemma {:induction false} PopLowBound(n: bv32, k: nat)
    ensures PopLow(n, k) <= k
    decreases k
  {
    if k > 0 {
      PopLowBound(n >> 1, k - 1);
    }
  }

  /** A 32-bit word has at most 32 set bits. */
  lemma PopcountBound(n: bv32)
    ensures Popcount(n) <= 32
  {
    PopLowBound(n, 32);
  }

  /** A word below 2^16 has at most 16 set bits. */
  lemma HalfWordBound(n: bv32)
    requires n < 0x1_0000
    ensures Popcount(n) <= 16
  {
    PopLowConcat(n, 16, 16);
    ShiftRight16(n);
    assert n >> 16 == 0;
    PopLowZero(16);
    PopLowBound(n, 16);
  }

  lemma {:induction false} PopLowZero(k: nat)
    ensures PopLow(0, k) == 0
    decreases k
  {
    if k > 0 {
      PopLowZero(k - 1);
    }
  }

  /** Only the zero word has no set bit. */
  lemma {:induction false} PopLowZeroOnly(n: bv32, k: nat)
    requires PopLow(n, k) == 0 && ShiftRightN(n, k) == 0
    ensures n == 0
    decreases k
  {
    if k > 0 {
      PopLowZeroOnly(n >> 1, k - 1);
      ShiftOneZero(n);
    }
  }

  lemma ShiftOneZero(n: bv32)
    requires n & 1 == 0 && n >> 1 == 0
    ensures n == 0
  {
  }

  // ---------------------------------------------------------------------
  // Shifting

  lemma {:induction false} ShiftRightNAdd(x: bv32, a: nat, b: nat)
    ensures ShiftRightN(x, a + b) == ShiftRightN(ShiftRightN(x, a), b)
    decreases a
  {
    if a > 0 {
      ShiftRightNAdd(x >> 1, a - 1, b);
    }
  }

  lemma ShiftRight6(x: bv32)
    ensures ShiftRightN(x, 6) == x >> 6
  {
    assert ShiftRightN(x, 6) == ShiftRightN(x >> 1, 5) == ShiftRightN(x >> 2, 4) == ShiftRightN(x >> 3, 3);
    assert ShiftRightN(x >> 3, 3) == ShiftRightN(x >> 4, 2) == ShiftRightN(x >> 5, 1) == ShiftRightN(x >> 6, 0);
  }

  lemma ShiftRight8(x: bv32)
    ensures ShiftRightN(x, 8) == x >> 8
  {
    assert ShiftRightN(x, 8) == ShiftRightN(x >> 1, 7) == ShiftRightN(x >> 2, 6) == ShiftRightN(x >> 3, 5) == ShiftRightN(x >> 4, 4);
    assert ShiftRightN(x >> 4, 4) == ShiftRightN(x >> 5, 3) == ShiftRightN(x >> 6, 2) == ShiftRightN(x >> 7, 1) == ShiftRightN(x >> 8, 0);
  }

  /** Thirty-two single shifts clear any word. */
  lemma ShiftRightAll(x: bv32)
    ensures ShiftRightN(x, 32) == 0
  {
    ShiftRightNAdd(x, 8, 24);
    ShiftRightNAdd(x >> 8, 8, 16);
    ShiftRightNAdd((x >> 8) >> 8, 8, 8);
    ShiftRight8(x);
    ShiftRight8(x >> 8);
    ShiftRight8((x >> 8) >> 8);
    ShiftRight8(((x >> 8) >> 8) >> 8);
  }

  // ---------------------------------------------------------------------
  // Splitting a count

  /** Counting `k + m` low bits is counting `k`, then `m` more above them. */
  lemma {:induction false} PopLowConcat(x: bv32, k: nat, m: nat)
    ensures PopLow(x, k + m) == PopLow(x, k) + PopLow(ShiftRightN(x, k), m)
    decreases k
  {
    if k > 0 {
      PopLowConcat(x >> 1, k - 1, m);
    }
  }

  /** The count of a word is its lowest bit plus the count of the rest. */
  lemma PopcountUnfold(n: bv32)
    ensures Popcount(n) == LowBit(n) + Popcount(n >> 1)
  {
    PopLowConcat(n >> 1, 31, 1);
    ShiftRightAll(n);
    PopLowZero(1);
  }

  lemma DisjointStep(a: bv32, b: bv32, c: bv32)
    requires Disjoint(a, b, c)
    ensures LowBit(c) == LowBit(a) + LowBit(b)
    ensures Disjoint(a >> 1, b >> 1, c >> 1)
  {
  }

  lemma {:induction false} PopLowAdditive(a: bv32, b: bv32, c: bv32, k: nat)
    requires Disjoint(a, b, c)
    ensures PopLow(c, k) == PopLow(a, k) + PopLow(b, k)
    decreases k
  {
    if k > 0 {
      DisjointStep(a, b, c);
      PopLowAdditive(a >> 1, b >> 1, c >> 1, k - 1);
    }
  }

  /** Counts of words with no common set bit add up. */
  lemma Additive(a: bv32, b: bv32)
    requires a & b == 0
    ensures Popcount(a | b) == Popcount(a) + Popcount(b)
  {
    PopLowAdditive(a, b, a | b, 32);
  }

  lemma {:induction false} LowZeroPopLow(z: bv32, k: nat)
    requires LowZero(z, k)
    ensures PopLow(z, k) == 0
    decreases k
  {
    if k > 0 {
      LowZeroPopLow(z >> 1, k - 1);
    }
  }

  /** Shifting out bits that are clear does not change the count. */
  lemma DropLow(z: bv32, k: nat)
    requires k <= 32 && LowZero(z, k)
    ensures Popcount(z) == Popcount(ShiftRightN(z, k))
  {
    LowZeroPopLow(z, k);
    PopLowConcat(z, k, 32 - k);
    PopLowConcat(ShiftRightN(z, k), 32 - k, k);
    ShiftRightNAdd(z, k, 32 - k);
    ShiftRightAll(z);
    PopLowZero(k);
  }

  lemma LowZeroSix(z: bv32)
    requires z & 0x3f == 0
    ensures LowZero(z, 6)
  {
    assert LowZero(z >> 6, 0);
    assert LowZero(z >> 5, 1) by { assert (z >> 5) >> 1 == z >> 6; }
    assert LowZero(z >> 4, 2) by { assert (z >> 4) >> 1 == z >> 5; }
    assert LowZero(z >> 3, 3) by { assert (z >> 3) >> 1 == z >> 4; }
    assert LowZero(z >> 2, 4) by { assert (z >> 2) >> 1 == z >> 3; }
    assert LowZero(z >> 1, 5) by { assert (z >> 1) >> 1 == z >> 2; }
  }

  lemma LowZeroByte(z: bv32)
    requires z & 0xff == 0
    ensures LowZero(z, 8)
  {
    assert LowZero(z >> 8, 0);
    assert LowZero(z >> 7, 1) by { assert (z >> 7) >> 1 == z >> 8; }
    assert LowZero(z >> 6, 2) by { assert (z >> 6) >> 1 == z >> 7; }
    assert LowZero(z >> 5, 3) by { assert (z >> 5) >> 1 == z >> 6; }
    assert LowZero(z >> 4, 4) by { assert (z >> 4) >> 1 == z >> 5; }
    assert LowZero(z >> 3, 5) by { assert (z >> 3) >> 1 == z >> 4; }
    assert LowZero(z >> 2, 6) by { assert (z >> 2) >> 1 == z >> 3; }
    assert LowZero(z >> 1, 7) by { assert (z >> 1) >> 1 == z >> 2; }
  }

  lemma SixParts(x: bv32)
    ensures Disjoint(x & 0x3f, x & 0xffff_ffc0, x)
    ensures (x & 0xffff_ffc0) & 0x3f == 0 && (x & 0xffff_ffc0) >> 6 == x >> 6
  {
  }

  lemma ByteParts(x: bv32)
    ensures Disjoint(x & 0xff, x & 0xffff_ff00, x)
    ensures (x & 0xffff_ff00) & 0xff == 0 && (x & 0xffff_ff00) >> 8 == x >> 8
  {
  }

  lemma HighSix(x: bv32)
    ensures Popcount(x & 0xffff_ffc0) == Popcount(x >> 6)
  {
    SixParts(x);
    LowZeroSix(x & 0xffff_ffc0);
    DropLow(x & 0xffff_ffc0, 6);
    ShiftRight6(x & 0xffff_ffc0);
  }

  lemma HighBytes(x: bv32)
    ensures Popcount(x & 0xffff_ff00) == Popcount(x >> 8)
  {
    ByteParts(x);
    LowZeroByte(x & 0xffff_ff00);
    DropLow(x & 0xffff_ff00, 8);
    ShiftRight8(x & 0xffff_ff00);
  }

  /** The count of a word is the count of its low six bits plus the rest. */
  lemma SixSplit(x: bv32)
    ensures Popcount(x) == Popcount(x & 0x3f) + Popcount(x >> 6)
  {
    SixParts(x);
    PopLowAdditive(x & 0x3f, x & 0xffff_ffc0, x, 32);
    HighSix(x);
  }

  /** The count of a word is the count of its low byte plus the rest. */
  lemma ByteSplit(x: bv32)
    ensures Popcount(x) == Popcount(x & 0xff) + Popcount(x >> 8)
  {
    ByteParts(x);
    PopLowAdditive(x & 0xff, x & 0xffff_ff00, x, 32);
    HighBytes(x);
  }

  /** The count of a word is the sum of the counts of its four bytes. */
  lemma WordBytes(x: bv32)
    ensures Popcount(x) == Popcount(x & 0xff) + Popcount((x >> 8) & 0xff)
                           + Popcount((x >> 16) & 0xff) + Popcount((x >> 24) & 0xff)
  {
    WordBytesAt(x, x >> 8, x >> 16, x >> 24);
  }

  lemma WordBytesAt(x: bv32, y: bv32, z: bv32, w: bv32)
    requires y == x >> 8 && z == x >> 16 && w == x >> 24
    ensures Popcount(x) == Popcount(x & 0xff) + Popcount(y & 0xff) + Popcount(z & 0xff) + Popcount(w & 0xff)
  {
    ShiftsBy8(x, y, z, w);
    WordBytesShifted(x, y, z, w);
  }

  lemma ShiftsBy8(x: bv32, y: bv32, z: bv32, w: bv32)
    requires y == x >> 8 && z == x >> 16 && w == x >> 24
    ensures z == y >> 8 && w == z >> 8
  {
  }

  lemma WordBytesShifted(x: bv32, y: bv32, z: bv32, w: bv32)
    requires y == x >> 8 && z == y >> 8 && w == z >> 8
    ensures Popcount(x) == Popcount(x & 0xff) + Popcount(y & 0xff) + Popcount(z & 0xff) + Popcount(w & 0xff)
  {
    ByteSplit(x);
    ByteSplit(y);
    ByteSplit(z);
    assert w & 0xff == w;
  }

  /**
   * The count of a word is the sum of the counts of its five low 6-bit
   * fields and of its top two bits (`x1` to `x5` are `x0` shifted right by
   * 6, 12, 18, 24, 30).
   */
  lemma WordSextets(x0: bv32, x1: bv32, x2: bv32, x3: bv32, x4: bv32, x5: bv32)
    requires x1 == x0 >> 6 && x2 == x1 >> 6 && x3 == x2 >> 6 && x4 == x3 >> 6 && x5 == x4 >> 6
    ensures Popcount(x0) == Popcount(x0 & 0x3f) + Popcount(x1 & 0x3f) + Popcount(x2 & 0x3f)
                            + Popcount(x3 & 0x3f) + Popcount(x4 & 0x3f) + Popcount(x5)
  {
    SixSplit(x0);
    SixSplit(x1);
    SixSplit(x2);
    SixSplit(x3);
    SixSplit(x4);
  }

  lemma {:induction false} LowZeroConcat(z: bv32, a: nat, b: nat)
    requires LowZero(z, a) && LowZero(ShiftRightN(z, a), b)
    ensures LowZero(z, a + b)
    decreases a
  {
    if a > 0 {
      LowZeroConcat(z >> 1, a - 1, b);
    }
  }

  lemma ShiftRight16(x: bv32)
    ensures ShiftRightN(x, 16) == x >> 16
  {
    ShiftRightNAdd(x, 8, 8);
    ShiftRight8(x);
    ShiftRight8(x >> 8);
    assert (x >> 8) >> 8 == x >> 16;
  }

  lemma HalfParts(x: bv32)
    ensures Disjoint(x & 0xffff, x & 0xffff_0000, x)
    ensures (x & 0xffff_0000) & 0xff == 0 && ((x & 0xffff_0000) >> 8) & 0xff == 0
    ensures (x & 0xffff_0000) >> 16 == x >> 16
  {
  }

  lemma HighHalf(x: bv32)
    ensures Popcount(x & 0xffff_0000) == Popcount(x >> 16)
  {
    var z := x & 0xffff_0000;
    HalfParts(x);
    LowZeroByte(z);
    ShiftRight8(z);
    LowZeroByte(z >> 8);
    LowZeroConcat(z, 8, 8);
    DropLow(z, 16);
    ShiftRight16(z);
  }

  /** The count of a word is the count of its low half plus its high half. */
  lemma HalfSplit(x: bv32)
    ensures Popcount(x) == Popcount(x & 0xffff) + Popcount(x >> 16)
  {
    HalfParts(x);
    PopLowAdditive(x & 0xffff, x & 0xffff_0000, x, 32);
    HighHalf(x);
  }

  // ---------------------------------------------------------------------
  // Clearing the lowest set bit

  lemma ClearStep(n: bv32)
    requires n != 0
    ensures LowBit(n & (n - 1)) == 0
    ensures n & 1 == 1 ==> (n & (n - 1)) >> 1 == n >> 1
    ensures n & 1 == 0 ==> n >> 1 != 0 && (n & (n - 1)) >> 1 == (n >> 1) & ((n >> 1) - 1)
  {
  }

  lemma {:induction false} PopLowClear(n: bv32, k: nat)
    requires n != 0 && ShiftRightN(n, k) == 0
    ensures PopLow(n & (n - 1), k) + 1 == PopLow(n, k)
    decreases k
  {
    ClearStep(n);
    if n & 1 == 0 {
      PopLowClear(n >> 1, k - 1);
    }
  }

  /** `n & -n` of a non-zero word is a single set bit. */
  lemma LowestBitSingle(n: bv32, low: bv32)
    requires n != 0 && low == n & (0 - n)
    ensures low != 0 && low & (low - 1) == 0
  {
  }

  /** No set bit of `n` lies below `n & -n`. */
  lemma LowestBitLowest(n: bv32, low: bv32)
    requires n != 0 && low == n & (0 - n)
    ensures n & (low - 1) == 0
  {
  }

  /**
   * `n & (n - 1)` clears exactly the lowest set bit of a non-zero word: the
   * result is `n` with the bit `n & -n` flipped.
   */
  lemma ClearsLowest(n: bv32, low: bv32)
    requires n != 0 && low == n & (0 - n)
    ensures n & (n - 1) == n ^ low
  {
  }

  /** `n & (n - 1)` clears exactly one set bit of a non-zero word. */
  lemma ClearLowestSetBit(n: bv32)
    requires n != 0
    ensures Popcount(n & (n - 1)) == Popcount(n) - 1
  {
    ShiftRightAll(n);
    PopLowClear(n, 32);
  }

  // ---------------------------------------------------------------------
  // Complement and known values

  /** The zero word is the only one without set bits. */
  lemma PopcountZero(n: bv32)
    ensures Popcount(n) == 0 <==> n == 0
  {
    PopLowZero(32);
    if Popcount(n) == 0 {
      ShiftRightAll(n);
      PopLowZeroOnly(n, 32);
    }
  }

  lemma PopcountOne()
    ensures Popcount(1) == 1
  {
    PopcountUnfold(1);
    PopLowZero(32);
  }

  lemma ByteOnes()
    ensures Popcount(0xff) == 8
  {
    PopcountUnfold(0xff);
    PopcountUnfold(0x7f);
    PopcountUnfold(0x3f);
    PopcountUnfold(0x1f);
    PopcountUnfold(0xf);
    PopcountUnfold(0x7);
    PopcountUnfold(0x3);
    PopcountOne();
  }

  /** The explicit values the test driver checks first. */
  lemma KnownCounts()
    ensures Popcount(0) == 0 && Popcount(1) == 1 && Popcount(0xffff_ffff) == 32
  {
    PopcountZero(0);
    PopcountOne();
    AllOnes();
  }

  /** Every bit of the all-ones word is set. */
  lemma AllOnes()
    ensures Popcount(0xffff_ffff) == 32
  {
    ByteOnes();
    ByteSplit(0xffff_ffff);
    ByteSplit(0x00ff_ffff);
    ByteSplit(0x0000_ffff);
  }

  lemma ComplementParts(n: bv32)
    ensures Disjoint(n, !n, 0xffff_ffff)
  {
  }

  /** Complementing a word turns its set bits into clear ones and back. */
  lemma Complement(n: bv32)
    ensures Popcount(!n) == 32 - Popcount(n)
  {
    ComplementParts(n);
    PopLowAdditive(n, !n, 0xffff_ffff, 32);
    AllOnes();
  }
}
