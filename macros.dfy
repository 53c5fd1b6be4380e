/*
 * The preprocessor macros behind `bitcount_parallel`: `TWO(c)` is a single
 * bit, `MASK(c)` the pattern of alternating runs of 2^c ones and zeros, and
 * `COUNT(x, c)` one round of adding neighbouring fields. The lemmas give the
 * value of every mask and round the program uses (c = 0 .. 4).
 */
module Macros {
  import opened Swar

  /** `TWO(c)`: the word with only bit `c` set (C leaves wider shifts undefined). */
  function Two(c: bv32): bv32
    requires c < 32
  {
    1 << c
  }

  /**
   * `MASK(c)`: all-ones divided by 2^(2^c) + 1, which repeats 2^c one bits
   * followed by 2^c zero bits. The program uses c = 0 .. 4; at c = 5 the
   * inner shift would be by 32.
   */
  function Mask(c: bv32): bv32
    requires c <= 4
  {
    0xffff_ffff / (Two(Two(c)) + 1)
  }

  /** `COUNT(x, c)`: adds each field of width 2^c onto its neighbour. */
  function Count(x: bv32, c: bv32): bv32
    requires c <= 4
  {
    AddFields(x, Two(c), Mask(c))
  }

  lemma TwoValues()
    ensures Two(0) == 1 && Two(1) == 2 && Two(2) == 4 && Two(3) == 8 && Two(4) == 16
    ensures Two(8) == 0x100 && Two(16) == 0x1_0000
  {
  }

  /** The masks are the alternating patterns the folds need. */
  lemma MaskValues()
    ensures Mask(0) == 0x5555_5555 && Mask(1) == 0x3333_3333 && Mask(2) == 0x0f0f_0f0f
    ensures Mask(3) == 0x00ff_00ff && Mask(4) == 0x0000_ffff
  {
    TwoValues();
  }

  lemma CountRound0(x: bv32)
    ensures Count(x, 0) == AddFields(x, 1, 0x5555_5555)
  {
    TwoValues();
    MaskValues();
  }

  lemma CountRound1(x: bv32)
    ensures Count(x, 1) == AddFields(x, 2, 0x3333_3333)
  {
    TwoValues();
    MaskValues();
  }

  lemma CountRound2(x: bv32)
    ensures Count(x, 2) == AddFields(x, 4, 0x0f0f_0f0f)
  {
    TwoValues();
    MaskValues();
  }

  lemma CountRound3(x: bv32)
    ensures Count(x, 3) == AddFields(x, 8, 0x00ff_00ff)
  {
    TwoValues();
    MaskValues();
  }

  lemma CountRound4(x: bv32)
    ensures Count(x, 4) == AddFields(x, 16, 0x0000_ffff)
  {
    TwoValues();
    MaskValues();
  }
}
