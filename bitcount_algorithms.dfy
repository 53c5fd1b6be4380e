/*
 * The bit-counting routines of bitcount_algorithms.cpp. Every routine takes a
 * 32-bit `unsigned int` (here `bv32`) and returns an `int`; each is proved to
 * return the population count of its argument for every input.
 *
 * bitcount.cpp repeats the same routines, statement for statement, with
 * tables of its own; the model below stands for both copies.
 */
module BitcountAlgorithms {
  import opened PopcountSpec
  import opened Swar
  import opened Macros

  /** `sizeof(int)` on the platforms the program is written for. */
  const SizeOfInt: nat := 4

  // ---------------------------------------------------------------------
  // Loop-based counters

  /** Adds up the low bit while shifting the word right until it is zero. */
  method Bitcount(n0: bv32) returns (count: int)
    ensures count == Popcount(n0)
  {
    count := 0;
    var n := n0;
    while n != 0
      invariant count + Popcount(n) == Popcount(n0)
      decreases n
    {
      PopcountUnfold(n);
      count := count + (n & 1) as int;
      n := n >> 1;
    }
    PopcountZero(n);
  }

  /** Clears the lowest set bit until the word is zero, once per set bit. */
  method BitcountSparse(n0: bv32) returns (count: int)
    ensures count == Popcount(n0)
  {
    count := 0;
    var n := n0;
    while n != 0
      invariant count + Popcount(n) == Popcount(n0)
      decreases Popcount(n)
    {
      ClearLowestSetBit(n);
      count := count + 1;
      n := n & (n - 1);
    }
    PopcountZero(n);
  }

  /**
   * Starts from the number of bits in an `int` and takes one off for every
   * set bit of the complement.
   */
  method BitcountDense(n0: bv32) returns (count: int)
    ensures count == Popcount(n0)
    ensures 0 <= count <= 8 * SizeOfInt
  {
    count := 8 * SizeOfInt;
    var n := n0 ^ 0xffff_ffff;
    assert n == !n0;
    Complement(n0);
    PopcountBound(n0);
    while n != 0
      invariant count - Popcount(n) == Popcount(n0)
      invariant Popcount(n) <= count
      decreases Popcount(n)
    {
      ClearLowestSetBit(n);
      count := count - 1;
      n := n & (n - 1);
    }
    PopcountZero(n);
  }

  // ---------------------------------------------------------------------
  // Table-lookup counters

  /** A `char` of the platforms the program is written for (signed, 8 bits). */
  newtype Char = x: int | -128 <= x < 128

  lemma RoundTrip(b: bv32)
    ensures (b as int) as bv32 == b
  {
  }

  lemma ByteIndex(b: bv32)
    requires b < 0x100
    ensures b as int < 0x100
  {
  }

  lemma HalfWiden(h: bv16)
    ensures (h as bv32) as int == h as int
  {
  }

  lemma LowHalfWord(n: bv32)
    ensures ((n & 0xffff) as bv16) as bv32 == n & 0xffff
  {
  }

  lemma HighHalfWord(n: bv32)
    ensures (((n >> 16) & 0xffff) as bv16) as bv32 == n >> 16
  {
  }

  lemma HalvesSum(n: bv32, lo: bv16, hi: bv16)
    requires lo as bv32 == n & 0xffff && hi as bv32 == n >> 16
    ensures Popcount(lo as bv32) + Popcount(hi as bv32) == Popcount(n)
  {
    HalfSplit(n);
  }

  lemma HalfValue(i: int)
    requires 0 <= i < 0x1_0000
    ensures i as bv32 < 0x1_0000
  {
  }

  /**
   * The two lookup tables, `bits_in_char` (256 `int` entries) and
   * `bits_in_16bits` (65536 `char` entries). Both are static, so they start out
   * zero-filled and hold nothing useful until their setup routine has run.
   */
  class LookupTables {
    const bitsInChar: array<int>
    const bitsIn16Bits: array<Char>

    predicate Valid()
    {
      bitsInChar.Length == 0x100 && bitsIn16Bits.Length == 0x1_0000
    }

    /** Every entry of `bits_in_char` is the count of its index. */
    ghost predicate Precomp8Ready()
      requires Valid()
      reads bitsInChar
    {
      forall i {:trigger bitsInChar[i]} :: 0 <= i < 0x100 ==> bitsInChar[i] == Popcount(i as bv32)
    }

    /** Every entry of `bits_in_16bits` is the count of its index. */
    ghost predicate Precomp16Ready()
      requires Valid()
      reads bitsIn16Bits
    {
      forall i {:trigger bitsIn16Bits[i]} :: 0 <= i < 0x1_0000 ==> bitsIn16Bits[i] as int == Popcount(i as bv32)
    }

    /** The tables as static storage provides them: all zero. */
    constructor ()
      ensures Valid()
      ensures fresh(bitsInChar) && fresh(bitsIn16Bits)
      ensures forall i :: 0 <= i < bitsInChar.Length ==> bitsInChar[i] == 0
      ensures forall i :: 0 <= i < bitsIn16Bits.Length ==> bitsIn16Bits[i] == 0
    {
      bitsInChar := new int[0x100](_ => 0);
      bitsIn16Bits := new Char[0x1_0000](_ => 0);
    }

    /**
     * Fills `bits_in_char` with `bitcount` of every byte value. Only that
     * table changes, and a second run rewrites every entry with its own value.
     */
    method CreatePrecomp8()
      requires Valid()
      modifies bitsInChar
      ensures Precomp8Ready()
      ensures old(Precomp8Ready()) ==> bitsInChar[..] == old(bitsInChar[..])
    {
      var i := 0;
      while i < 0x100
        invariant i <= 0x100
        invariant forall j {:trigger bitsInChar[j]} :: 0 <= j < i ==> bitsInChar[j] == Popcount(j as bv32)
      {
        var c := Bitcount(i as bv32);
        bitsInChar[i] := c;
        i := i + 1;
      }
      if old(Precomp8Ready()) {
        forall j | 0 <= j < 0x100
          ensures bitsInChar[j] == old(bitsInChar[j])
        {
        }
        assert bitsInChar[..] == old(bitsInChar[..]);
      }
    }

    lemma Precomp8Entry(b: bv32)
      requires Valid() && Precomp8Ready() && b < 0x100
      ensures bitsInChar[b] == Popcount(b)
    {
      ByteIndex(b);
      RoundTrip(b);
    }

    lemma Precomp8Entries(n: bv32)
      requires Valid()
      ensures Precomp8Ready() ==>
        bitsInChar[n & 0xff] + bitsInChar[(n >> 8) & 0xff] + bitsInChar[(n >> 16) & 0xff] + bitsInChar[(n >> 24) & 0xff]
        == Popcount(n)
    {
      if Precomp8Ready() {
        Precomp8Entry(n & 0xff);
        Precomp8Entry((n >> 8) & 0xff);
        Precomp8Entry((n >> 16) & 0xff);
        Precomp8Entry((n >> 24) & 0xff);
        WordBytes(n);
      }
    }

    /** Adds up the table entries of the four bytes of `n`. */
    function BitcountPrecomp8(n: bv32): (r: int)
      requires Valid()
      reads bitsInChar
      ensures Precomp8Ready() ==> r == Popcount(n)
    {
      Precomp8Entries(n);
      bitsInChar[n & 0xff] + bitsInChar[(n >> 8) & 0xff] + bitsInChar[(n >> 16) & 0xff] + bitsInChar[(n >> 24) & 0xff]
    }

    /**
     * Fills `bits_in_16bits` with `bitcount` of every 16-bit value; each
     * count fits in a `char`. Only that table changes, and a second run
     * rewrites every entry with its own value.
     */
    method CreatePrecomp16()
      requires Valid()
      modifies bitsIn16Bits
      ensures Precomp16Ready()
      ensures old(Precomp16Ready()) ==> bitsIn16Bits[..] == old(bitsIn16Bits[..])
    {
      var i := 0;
      while i < 0x1_0000
        invariant i <= 0x1_0000
        invariant forall j {:trigger bitsIn16Bits[j]} :: 0 <= j < i ==> bitsIn16Bits[j] as int == Popcount(j as bv32)
      {
        var c := Bitcount(i as bv32);
        PopcountBound(i as bv32);
        bitsIn16Bits[i] := c as Char;
        i := i + 1;
      }
      if old(Precomp16Ready()) {
        forall j | 0 <= j < 0x1_0000
          ensures bitsIn16Bits[j] == old(bitsIn16Bits[j])
        {
        }
        assert bitsIn16Bits[..] == old(bitsIn16Bits[..]);
      }
    }

    /** Once filled, no entry of `bits_in_16bits` exceeds 16. */
    lemma Precomp16Bounded()
      requires Valid() && Precomp16Ready()
      ensures forall i :: 0 <= i < 0x1_0000 ==> 0 <= bitsIn16Bits[i] <= 16
    {
      forall i | 0 <= i < 0x1_0000
        ensures 0 <= bitsIn16Bits[i] <= 16
      {
        HalfValue(i);
        HalfWordBound(i as bv32);
      }
    }

    lemma Precomp16Entry(h: bv16)
      requires Valid() && Precomp16Ready()
      ensures bitsIn16Bits[h] as int == Popcount(h as bv32)
    {
      HalfWiden(h);
      RoundTrip(h as bv32);
    }

    lemma Precomp16Entries(n: bv32)
      requires Valid()
      ensures Precomp16Ready() ==>
        bitsIn16Bits[(n & 0xffff) as bv16] as int + bitsIn16Bits[((n >> 16) & 0xffff) as bv16] as int
        == Popcount(n)
    {
      if Precomp16Ready() {
        var lo := (n & 0xffff) as bv16;
        var hi := ((n >> 16) & 0xffff) as bv16;
        Precomp16Entry(lo);
        Precomp16Entry(hi);
        LowHalfWord(n);
        HighHalfWord(n);
        HalvesSum(n, lo, hi);
      }
    }

    /**
     * Adds up the table entries of the two halves of `n`; each half is
     * below 0x1_0000, which `bv16` makes explicit as the index type.
     */
    function BitcountPrecomp16(n: bv32): (r: int)
      requires Valid()
      reads bitsIn16Bits
      ensures Precomp16Ready() ==> r == Popcount(n)
    {
      Precomp16Entries(n);
      bitsIn16Bits[(n & 0xffff) as bv16] as int + bitsIn16Bits[((n >> 16) & 0xffff) as bv16] as int
    }
  }

  /**
   * The start-up of the benchmark and the test driver: both tables are
   * filled, one after the other, before any lookup. Filling the 16-bit table
   * leaves the 8-bit one as it was, so both are ready afterwards.
   */
  method PrepareTables() returns (t: LookupTables)
    ensures fresh(t) && t.Valid()
    ensures t.Precomp8Ready() && t.Precomp16Ready()
  {
    t := new LookupTables();
    t.CreatePrecomp8();
    t.CreatePrecomp16();
  }

  // ---------------------------------------------------------------------
  // Straight-line counters

  /** The first three rounds leave each byte holding its own count. */
  lemma ByteRounds(n: bv32, n1: bv32, n2: bv32, n3: bv32)
    requires n1 == Count(n, 0) && n2 == Count(n1, 1) && n3 == Count(n2, 2)
    ensures n3 == ByteCounts(n)
  {
    CountRound0(n);
    CountRound1(n1);
    CountRound2(n2);
    ByteCountsFolds(n, n1, n2, n3);
  }

  /** The last two rounds add the four bytes together. */
  lemma FoldRounds(n3: bv32, n4: bv32, n5: bv32)
    requires n4 == Count(n3, 3) && n5 == Count(n4, 4)
    ensures n5 == FoldBytes(n3)
  {
    CountRound3(n3);
    CountRound4(n4);
  }

  /** Five rounds of `COUNT` leave the whole count in the word. */
  function BitcountParallel(n: bv32): (r: int)
    ensures r == Popcount(n)
  {
    var n1 := Count(n, 0);
    var n2 := Count(n1, 1);
    var n3 := Count(n2, 2);
    var n4 := Count(n3, 3);
    var n5 := Count(n4, 4);
    ByteRounds(n, n1, n2, n3);
    FoldRounds(n3, n4, n5);
    FoldByteCounts(n);
    n5 as int
  }

  /** `MASK_01010101`: alternate bits. */
  const Mask01010101: bv32 := 0x5555_5555
  /** `MASK_00110011`: alternate bit pairs. */
  const Mask00110011: bv32 := 0x3333_3333
  /** `MASK_00001111`: alternate nibbles. */
  const Mask00001111: bv32 := 0x0f0f_0f0f

  /** The masks are the quotients of all-ones by 3, 5 and 17, as the macros define them. */
  lemma NiftyMasks()
    ensures Mask01010101 == 0xffff_ffff / 3 && Mask00110011 == 0xffff_ffff / 5 && Mask00001111 == 0xffff_ffff / 17
  {
  }

  /**
   * The three nifty lines leave each byte of the word holding the count of the
   * same byte of the input (`f0` the low byte), so no byte exceeds 8.
   */
  lemma NiftySteps(n: bv32, n1: bv32, n2: bv32, n3: bv32, y: bv32, z: bv32, w: bv32)
    returns (f0: bv4, f1: bv4, f2: bv4, f3: bv4)
    requires n1 == (n & Mask01010101) + ((n >> 1) & Mask01010101)
    requires n2 == (n1 & Mask00110011) + ((n1 >> 2) & Mask00110011)
    requires n3 == (n2 & Mask00001111) + ((n2 >> 4) & Mask00001111)
    requires y == n >> 8 && z == y >> 8 && w == z >> 8
    ensures n3 == (f0 as bv32) + ((f1 as bv32) << 8) + ((f2 as bv32) << 16) + ((f3 as bv32) << 24)
    ensures f0 as int == Popcount(n & 0xff) && f1 as int == Popcount(y & 0xff)
    ensures f2 as int == Popcount(z & 0xff) && f3 as int == Popcount(w & 0xff)
    ensures f0 <= 8 && f1 <= 8 && f2 <= 8 && f3 <= 8
  {
    assert n3 == ByteCounts(n);
    f0, f1, f2, f3 := ByteCountsFields(n, y, z, w);
  }

  /** The byte sum left by the nifty lines is their word's remainder by 255. */
  lemma NiftyMod(n: bv32, n1: bv32, n2: bv32, n3: bv32)
    requires n1 == (n & Mask01010101) + ((n >> 1) & Mask01010101)
    requires n2 == (n1 & Mask00110011) + ((n1 >> 2) & Mask00110011)
    requires n3 == (n2 & Mask00001111) + ((n2 >> 4) & Mask00001111)
    ensures (n3 as int) % 255 == Popcount(n)
  {
    var y := n >> 8;
    var z := y >> 8;
    var w := z >> 8;
    var f0, f1, f2, f3 := NiftySteps(n, n1, n2, n3, y, z, w);
    ByteFieldsMod(n3, f0, f1, f2, f3);
    WordBytesShifted(n, y, z, w);
  }

  /**
   * Three folds leave each byte holding its own count; the byte sum is the
   * remainder by 255, since 256 leaves remainder 1.
   */
  function BitcountNifty(n: bv32): (r: int)
    ensures r == Popcount(n)
  {
    var n1 := (n & Mask01010101) + ((n >> 1) & Mask01010101);
    var n2 := (n1 & Mask00110011) + ((n1 >> 2) & Mask00110011);
    var n3 := (n2 & Mask00001111) + ((n2 >> 4) & Mask00001111);
    NiftyMod(n, n1, n2, n3);
    (n3 as int) % 255
  }

  /**
   * HAKMEM item 169: `tmp` holds the count of every 3-bit group (the octal
   * constants 033333333333 and 011111111111 are 0xdb6d_b6db and
   * 0x4924_9249); adding neighbouring groups and masking with 030707070707
   * (0xc71c_71c7) leaves the count of every 6-bit group, and 64 leaves
   * remainder 1 by 63.
   */
  function BitcountHakmem(n: bv32): (r: int)
    ensures r == Popcount(n)
  {
    TripletsBySubtraction(n);
    SextetCountsMod63(n);
    var tmp := n - ((n >> 1) & 0xdb6d_b6db) - ((n >> 2) & 0x4924_9249);
    (((tmp + (tmp >> 3)) & 0xc71c_71c7) as int) % 63
  }
}
