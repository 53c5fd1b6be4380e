/*
 * Field-level facts behind the straight-line ("SIMD within a register")
 * counters. Each counter first turns the word into a row of small fields, each
 * holding the number of set bits of the input bits it covers, and then adds the
 * fields up. The three field layouts used are defined here by their plain
 * mask-and-add form:
 *
 *   ByteCounts      every byte holds the count of the same byte of the input
 *   TripletCounts   every 3-bit group holds the count of the same input group
 *   SextetCounts    every 6-bit field holds the count of the same input field
 *
 * For each layout the lemmas show that a field depends only on the input
 * bits it covers (shifting and masking commute with the layout), that a field
 * never exceeds its width, and that it equals the population count of those
 * bits. The last part turns the row of fields into the numeric total.
 */
module Swar {
  import opened PopcountSpec

  // ---------------------------------------------------------------------
  // Byte-wide fields

  /**
   * One fold: adds each field of `x` selected by `mask` to the field `shift`
   * bits above it. Every layout below is built from folds.
   */
  function AddFields(x: bv32, shift: bv32, mask: bv32): bv32
    requires shift < 32
  {
    (x & mask) + ((x >> shift) & mask)
  }

  /**
   * Pairwise sums of bits, then of 2-bit fields, then of nibbles: three folds.
   * They are spelled out rather than nested `AddFields` calls, which the solver
   * handles far more slowly; `ByteCountsFolds` states that the two agree.
   */
  function ByteCounts(x: bv32): bv32
  {
    var a := (x & 0x5555_5555) + ((x >> 1) & 0x5555_5555);
    var b := (a & 0x3333_3333) + ((a >> 2) & 0x3333_3333);
    (b & 0x0f0f_0f0f) + ((b >> 4) & 0x0f0f_0f0f)
  }

  /** The three folds of `ByteCounts`, one `AddFields` each. */
  lemma ByteCountsFolds(x: bv32, a: bv32, b: bv32, c: bv32)
    requires a == AddFields(x, 1, 0x5555_5555)
    requires b == AddFields(a, 2, 0x3333_3333)
    requires c == AddFields(b, 4, 0x0f0f_0f0f)
    ensures c == ByteCounts(x)
  {
  }

  lemma ByteCountsShift(x: bv32)
    ensures ByteCounts(x >> 8) == ByteCounts(x) >> 8
  {
  }

  lemma ByteCountsLow(x: bv32)
    ensures ByteCounts(x) & 0xff == ByteCounts(x & 0xff)
  {
  }

  lemma ByteCountsStep(b: bv32)
    requires b < 0x100
    ensures ByteCounts(b) == (b & 1) + ByteCounts(b >> 1)
  {
  }

  lemma ByteCountsBound(b: bv32)
    requires b < 0x100
    ensures ByteCounts(b) <= 8
  {
  }

  lemma ByteCountsStepValue(b: bv32)
    requires b < 0x100
    ensures ByteCounts(b) as int == LowBit(b) + ByteCounts(b >> 1) as int
  {
    ByteCountsStep(b);
    ByteCountsBound(b >> 1);
  }

  lemma {:induction false} ByteCountsPopLow(b: bv32, k: nat)
    requires b < 0x100 && ShiftRightN(b, k) == 0
    ensures ByteCounts(b) as int == PopLow(b, k)
    decreases k
  {
    if k > 0 {
      ByteCountsStepValue(b);
      ByteCountsPopLow(b >> 1, k - 1);
    }
  }

  /** The byte-wide layout of a single byte is that byte's count. */
  lemma ByteCountsOfByte(b: bv32)
    requires b < 0x100
    ensures ByteCounts(b) as int == Popcount(b)
  {
    ShiftRight8(b);
    ByteCountsPopLow(b, 8);
    PopLowConcat(b, 8, 24);
    PopLowZero(24);
  }

  /** The low byte of the layout counts the low byte of the input. */
  lemma ByteCountsLowByte(x: bv32)
    ensures ByteCounts(x) & 0xff <= 8
    ensures (ByteCounts(x) & 0xff) as int == Popcount(x & 0xff)
  {
    ByteCountsLow(x);
    ByteCountsBound(x & 0xff);
    ByteCountsOfByte(x & 0xff);
  }

  lemma NarrowByte(v: bv32, p: nat)
    requires v <= 8 && v as int == p
    ensures v < 16 && (v as bv4) as bv32 == v && (v as bv4) as int == p
  {
  }

  /** The low byte of the layout as a 4-bit number. */
  lemma ByteCountsLowField(x: bv32) returns (f: bv4)
    ensures f as bv32 == ByteCounts(x) & 0xff
    ensures f as int == Popcount(x & 0xff) && f <= 8
  {
    ByteCountsLowByte(x);
    NarrowByte(ByteCounts(x) & 0xff, Popcount(x & 0xff));
    f := (ByteCounts(x) & 0xff) as bv4;
  }

  /** A word is its low byte plus its next three bytes, shifted into place. */
  lemma BytesJoin(c: bv32, c1: bv32, c2: bv32, c3: bv32)
    requires c1 == c >> 8 && c2 == c1 >> 8 && c3 == c2 >> 8
    ensures c == (c & 0xff) + ((c1 & 0xff) << 8) + ((c2 & 0xff) << 16) + ((c3 & 0xff) << 24)
  {
  }

  /**
   * The byte-wide layout of `x` is the four byte counts of `x` placed in
   * consecutive bytes (`y`, `z`, `w` are `x` shifted right by 8, 16, 24).
   */
  lemma ByteCountsFields(x: bv32, y: bv32, z: bv32, w: bv32) returns (f0: bv4, f1: bv4, f2: bv4, f3: bv4)
    requires y == x >> 8 && z == y >> 8 && w == z >> 8
    ensures ByteCounts(x) == (f0 as bv32) + ((f1 as bv32) << 8) + ((f2 as bv32) << 16) + ((f3 as bv32) << 24)
    ensures f0 as int == Popcount(x & 0xff) && f1 as int == Popcount(y & 0xff)
    ensures f2 as int == Popcount(z & 0xff) && f3 as int == Popcount(w & 0xff)
    ensures f0 <= 8 && f1 <= 8 && f2 <= 8 && f3 <= 8
  {
    ByteCountsShift(x);
    ByteCountsShift(y);
    ByteCountsShift(z);
    f0 := ByteCountsLowField(x);
    f1 := ByteCountsLowField(y);
    f2 := ByteCountsLowField(z);
    f3 := ByteCountsLowField(w);
    BytesJoin(ByteCounts(x), ByteCounts(y), ByteCounts(z), ByteCounts(w));
  }

  // ---------------------------------------------------------------------
  // From a row of byte fields to a number

  /** Value of four small fields placed in consecutive bytes. */
  lemma ByteFieldsValue(c: bv32, f0: bv4, f1: bv4, f2: bv4, f3: bv4)
    requires c == (f0 as bv32) + ((f1 as bv32) << 8) + ((f2 as bv32) << 16) + ((f3 as bv32) << 24)
    ensures c as int == f0 as int + 0x100 * f1 as int + 0x1_0000 * f2 as int + 0x100_0000 * f3 as int
  {
  }

  /** Since 256 leaves remainder 1 modulo 255, so does every power of 256. */
  lemma CastOutByteFields(v: int, f0: bv4, f1: bv4, f2: bv4, f3: bv4)
    requires v == f0 as int + 0x100 * f1 as int + 0x1_0000 * f2 as int + 0x100_0000 * f3 as int
    ensures v % 255 == f0 as int + f1 as int + f2 as int + f3 as int
  {
  }

  lemma ByteFieldsMod(c: bv32, f0: bv4, f1: bv4, f2: bv4, f3: bv4)
    requires c == (f0 as bv32) + ((f1 as bv32) << 8) + ((f2 as bv32) << 16) + ((f3 as bv32) << 24)
    ensures (c as int) % 255 == f0 as int + f1 as int + f2 as int + f3 as int
  {
    ByteFieldsValue(c, f0, f1, f2, f3);
    CastOutByteFields(c as int, f0, f1, f2, f3);
  }

  lemma ByteCountsModShifted(x: bv32, y: bv32, z: bv32, w: bv32)
    requires y == x >> 8 && z == y >> 8 && w == z >> 8
    ensures (ByteCounts(x) as int) % 255 == Popcount(x)
  {
    var f0, f1, f2, f3 := ByteCountsFields(x, y, z, w);
    ByteFieldsMod(ByteCounts(x), f0, f1, f2, f3);
    WordBytesShifted(x, y, z, w);
  }

  /** The byte-wide layout, read as a number, leaves the count modulo 255. */
  lemma ByteCountsMod255(x: bv32)
    ensures (ByteCounts(x) as int) % 255 == Popcount(x)
  {
    var y := x >> 8;
    var z := y >> 8;
    var w := z >> 8;
    ByteCountsModShifted(x, y, z, w);
  }

  /** Adds each odd byte onto the even byte below it. */
  function PairSums(c: bv32): bv32
  {
    AddFields(c, 8, 0x00ff_00ff)
  }

  /** Adds the high half onto the low half. */
  function HalfSums(d: bv32): bv32
  {
    AddFields(d, 16, 0x0000_ffff)
  }

  /** Adds the odd bytes onto the even ones, then the high half onto the low. */
  function FoldBytes(c: bv32): bv32
  {
    HalfSums(PairSums(c))
  }

  lemma FoldPairs(c: bv32, f0: bv4, f1: bv4, f2: bv4, f3: bv4)
    requires c == (f0 as bv32) + ((f1 as bv32) << 8) + ((f2 as bv32) << 16) + ((f3 as bv32) << 24)
    ensures PairSums(c) == ((f0 as bv32) + (f1 as bv32)) + (((f2 as bv32) + (f3 as bv32)) << 16)
  {
  }

  lemma FoldHalves(g0: bv32, g1: bv32)
    requires g0 < 0x100 && g1 < 0x100
    ensures HalfSums(g0 + (g1 << 16)) == g0 + g1
  {
  }

  lemma FoldFields(c: bv32, f0: bv4, f1: bv4, f2: bv4, f3: bv4)
    requires c == (f0 as bv32) + ((f1 as bv32) << 8) + ((f2 as bv32) << 16) + ((f3 as bv32) << 24)
    ensures FoldBytes(c) == ((f0 as bv32) + (f1 as bv32)) + ((f2 as bv32) + (f3 as bv32))
  {
    FoldPairs(c, f0, f1, f2, f3);
    FoldHalves((f0 as bv32) + (f1 as bv32), (f2 as bv32) + (f3 as bv32));
  }

  lemma SumFields(f0: bv4, f1: bv4, f2: bv4, f3: bv4)
    ensures (((f0 as bv32) + (f1 as bv32)) + ((f2 as bv32) + (f3 as bv32))) as int == f0 as int + f1 as int + f2 as int + f3 as int
  {
  }

  lemma FoldByteCountsShifted(x: bv32, y: bv32, z: bv32, w: bv32)
    requires y == x >> 8 && z == y >> 8 && w == z >> 8
    ensures FoldBytes(ByteCounts(x)) as int == Popcount(x)
  {
    var f0, f1, f2, f3 := ByteCountsFields(x, y, z, w);
    FoldFields(ByteCounts(x), f0, f1, f2, f3);
    SumFields(f0, f1, f2, f3);
    WordBytesShifted(x, y, z, w);
  }

  /** Folding the byte-wide layout leaves the count itself. */
  lemma FoldByteCounts(x: bv32)
    ensures FoldBytes(ByteCounts(x)) as int == Popcount(x)
  {
    var y := x >> 8;
    var z := y >> 8;
    var w := z >> 8;
    FoldByteCountsShifted(x, y, z, w);
  }

  // ---------------------------------------------------------------------
  // 3-bit and 6-bit fields

  /** Every 3-bit group holds the sum of its three bits. */
  function TripletCounts(x: bv32): bv32
  {
    (x & 0x4924_9249) + ((x >> 1) & 0x4924_9249) + ((x >> 2) & 0x4924_9249)
  }

  lemma SubtractionStep(x: bv32)
    ensures x - ((x >> 1) & 0xdb6d_b6db) == TripletCounts(x) + ((x >> 2) & 0x4924_9249)
  {
  }

  lemma AddCancel(u: bv32, a: bv32)
    ensures (u + a) - a == u
  {
  }

  /**
   * Subtracting a group's value halved and quartered (rounded down) leaves
   * the number of set bits of the group.
   */
  lemma TripletsBySubtraction(x: bv32)
    ensures x - ((x >> 1) & 0xdb6d_b6db) - ((x >> 2) & 0x4924_9249) == TripletCounts(x)
  {
    SubtractionStep(x);
    AddCancel(TripletCounts(x), (x >> 2) & 0x4924_9249);
  }

  /** Adjacent triplet counts added into every other group, then masked. */
  function SextetCounts(x: bv32): bv32
  {
    var t := TripletCounts(x);
    (t + (t >> 3)) & 0xc71c_71c7
  }

  lemma SextetCountsShift(x: bv32)
    ensures SextetCounts(x >> 6) == SextetCounts(x) >> 6
  {
  }

  lemma SextetCountsLow(x: bv32)
    ensures SextetCounts(x) & 0x3f == SextetCounts(x & 0x3f)
  {
  }

  lemma SextetCountsStep(g: bv32)
    requires g < 0x40
    ensures SextetCounts(g) == (g & 1) + SextetCounts(g >> 1)
  {
  }

  lemma SextetCountsBound(g: bv32)
    requires g < 0x40
    ensures SextetCounts(g) <= 6
  {
  }

  lemma SextetCountsStepValue(g: bv32)
    requires g < 0x40
    ensures SextetCounts(g) as int == LowBit(g) + SextetCounts(g >> 1) as int
  {
    SextetCountsStep(g);
    SextetCountsBound(g >> 1);
  }

  lemma {:induction false} SextetCountsPopLow(g: bv32, k: nat)
    requires g < 0x40 && ShiftRightN(g, k) == 0
    ensures SextetCounts(g) as int == PopLow(g, k)
    decreases k
  {
    if k > 0 {
      SextetCountsStepValue(g);
      SextetCountsPopLow(g >> 1, k - 1);
    }
  }

  /** The 6-bit layout of a 6-bit group is that group's count. */
  lemma SextetCountsOfSextet(g: bv32)
    requires g < 0x40
    ensures SextetCounts(g) as int == Popcount(g)
  {
    ShiftRight6(g);
    SextetCountsPopLow(g, 6);
    PopLowConcat(g, 6, 26);
    PopLowZero(26);
  }

  lemma NarrowSextet(v: bv32, p: nat)
    requires v <= 6 && v as int == p
    ensures v < 8 && (v as bv3) as bv32 == v && (v as bv3) as int == p
  {
  }

  /** The low 6-bit field of the layout as a 3-bit number. */
  lemma SextetCountsLowField(x: bv32) returns (f: bv3)
    ensures f as bv32 == SextetCounts(x) & 0x3f
    ensures f as int == Popcount(x & 0x3f) && f <= 6
  {
    SextetCountsLow(x);
    SextetCountsBound(x & 0x3f);
    SextetCountsOfSextet(x & 0x3f);
    NarrowSextet(SextetCounts(x) & 0x3f, Popcount(x & 0x3f));
    f := (SextetCounts(x) & 0x3f) as bv3;
  }

  lemma TopSextetBound(g: bv32)
    requires g < 4
    ensures SextetCounts(g) <= 2
  {
  }

  /** The top two bits of the layout, for a word with only its low two bits left. */
  lemma SextetCountsTopField(g: bv32) returns (f: bv2)
    requires g < 4
    ensures f as bv32 == SextetCounts(g)
    ensures f as int == Popcount(g) && f <= 2
  {
    TopSextetBound(g);
    SextetCountsOfSextet(g);
    f := SextetCounts(g) as bv2;
  }

  lemma SextetsJoin(c0: bv32, c1: bv32, c2: bv32, c3: bv32, c4: bv32, c5: bv32)
    requires c1 == c0 >> 6 && c2 == c1 >> 6 && c3 == c2 >> 6 && c4 == c3 >> 6 && c5 == c4 >> 6
    ensures c0 == (c0 & 0x3f) + ((c1 & 0x3f) << 6) + ((c2 & 0x3f) << 12) + ((c3 & 0x3f) << 18)
                  + ((c4 & 0x3f) << 24) + (c5 << 30)
  {
  }

  lemma TopSextet(x0: bv32, x1: bv32, x2: bv32, x3: bv32, x4: bv32, x5: bv32)
    requires x1 == x0 >> 6 && x2 == x1 >> 6 && x3 == x2 >> 6 && x4 == x3 >> 6 && x5 == x4 >> 6
    ensures x5 < 4
  {
  }

  /**
   * The 6-bit layout of `x0` is the counts of its five low 6-bit fields and
   * of its top two bits placed in consecutive 6-bit fields (`x1` to `x5` are
   * `x0` shifted right by 6, 12, 18, 24, 30).
   */
  lemma SextetCountsFields(x0: bv32, x1: bv32, x2: bv32, x3: bv32, x4: bv32, x5: bv32)
    returns (f0: bv3, f1: bv3, f2: bv3, f3: bv3, f4: bv3, f5: bv2)
    requires x1 == x0 >> 6 && x2 == x1 >> 6 && x3 == x2 >> 6 && x4 == x3 >> 6 && x5 == x4 >> 6
    ensures SextetCounts(x0) == (f0 as bv32) + ((f1 as bv32) << 6) + ((f2 as bv32) << 12)
                                + ((f3 as bv32) << 18) + ((f4 as bv32) << 24) + ((f5 as bv32) << 30)
    ensures f0 as int == Popcount(x0 & 0x3f) && f1 as int == Popcount(x1 & 0x3f)
    ensures f2 as int == Popcount(x2 & 0x3f) && f3 as int == Popcount(x3 & 0x3f)
    ensures f4 as int == Popcount(x4 & 0x3f) && f5 as int == Popcount(x5)
    ensures f0 <= 6 && f1 <= 6 && f2 <= 6 && f3 <= 6 && f4 <= 6 && f5 <= 2
  {
    SextetCountsJoined(x0, x1, x2, x3, x4, x5);
    TopSextet(x0, x1, x2, x3, x4, x5);
    f0 := SextetCountsLowField(x0);
    f1 := SextetCountsLowField(x1);
    f2 := SextetCountsLowField(x2);
    f3 := SextetCountsLowField(x3);
    f4 := SextetCountsLowField(x4);
    f5 := SextetCountsTopField(x5);
  }

  lemma SextetCountsJoined(x0: bv32, x1: bv32, x2: bv32, x3: bv32, x4: bv32, x5: bv32)
    requires x1 == x0 >> 6 && x2 == x1 >> 6 && x3 == x2 >> 6 && x4 == x3 >> 6 && x5 == x4 >> 6
    ensures SextetCounts(x0) == (SextetCounts(x0) & 0x3f) + ((SextetCounts(x1) & 0x3f) << 6)
                                + ((SextetCounts(x2) & 0x3f) << 12) + ((SextetCounts(x3) & 0x3f) << 18)
                                + ((SextetCounts(x4) & 0x3f) << 24) + (SextetCounts(x5) << 30)
  {
    SextetCountsShift(x0);
    SextetCountsShift(x1);
    SextetCountsShift(x2);
    SextetCountsShift(x3);
    SextetCountsShift(x4);
    SextetsJoin(SextetCounts(x0), SextetCounts(x1), SextetCounts(x2), SextetCounts(x3), SextetCounts(x4), SextetCounts(x5));
  }

  /** Value of six small fields placed in consecutive 6-bit fields. */
  lemma SextetFieldsValue(c: bv32, f0: bv3, f1: bv3, f2: bv3, f3: bv3, f4: bv3, f5: bv2)
    requires c == (f0 as bv32) + ((f1 as bv32) << 6) + ((f2 as bv32) << 12)
                  + ((f3 as bv32) << 18) + ((f4 as bv32) << 24) + ((f5 as bv32) << 30)
    ensures c as int == f0 as int + 0x40 * f1 as int + 0x1000 * f2 as int + 0x4_0000 * f3 as int
                        + 0x100_0000 * f4 as int + 0x4000_0000 * f5 as int
  {
  }

  /** Since 64 leaves remainder 1 modulo 63, so does every power of 64. */
  lemma CastOutSextetFields(v: int, f0: bv3, f1: bv3, f2: bv3, f3: bv3, f4: bv3, f5: bv2)
    requires v == f0 as int + 0x40 * f1 as int + 0x1000 * f2 as int + 0x4_0000 * f3 as int
                  + 0x100_0000 * f4 as int + 0x4000_0000 * f5 as int
    ensures v % 63 == f0 as int + f1 as int + f2 as int + f3 as int + f4 as int + f5 as int
  {
  }

  lemma SextetFieldsMod(c: bv32, f0: bv3, f1: bv3, f2: bv3, f3: bv3, f4: bv3, f5: bv2)
    requires c == (f0 as bv32) + ((f1 as bv32) << 6) + ((f2 as bv32) << 12)
                  + ((f3 as bv32) << 18) + ((f4 as bv32) << 24) + ((f5 as bv32) << 30)
    ensures (c as int) % 63 == f0 as int + f1 as int + f2 as int + f3 as int + f4 as int + f5 as int
  {
    SextetFieldsValue(c, f0, f1, f2, f3, f4, f5);
    CastOutSextetFields(c as int, f0, f1, f2, f3, f4, f5);
  }

  lemma SextetCountsModShifted(x0: bv32, x1: bv32, x2: bv32, x3: bv32, x4: bv32, x5: bv32)
    requires x1 == x0 >> 6 && x2 == x1 >> 6 && x3 == x2 >> 6 && x4 == x3 >> 6 && x5 == x4 >> 6
    ensures (SextetCounts(x0) as int) % 63 == Popcount(x0)
  {
    var f0, f1, f2, f3, f4, f5 := SextetCountsFields(x0, x1, x2, x3, x4, x5);
    SextetFieldsMod(SextetCounts(x0), f0, f1, f2, f3, f4, f5);
    WordSextets(x0, x1, x2, x3, x4, x5);
  }

  /** The 6-bit layout, read as a number, leaves the count modulo 63. */
  lemma SextetCountsMod63(x: bv32)
    ensures (SextetCounts(x) as int) % 63 == Popcount(x)
  {
    var x1 := x >> 6;
    var x2 := x1 >> 6;
    var x3 := x2 >> 6;
    var x4 := x3 >> 6;
    var x5 := x4 >> 6;
    SextetCountsModShifted(x, x1, x2, x3, x4, x5);
  }
}
