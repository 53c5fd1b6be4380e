# Bit counting, modelled in Dafny

This project models the bit-counting routines of bitcount_algorithms.cpp and
the `StopWatch` class of bitcount.cpp. Every routine takes a 32-bit
`unsigned int` and returns its number of set bits. The model proves that each
routine returns the population count of its argument for every input, not
just for the values the test driver samples.

- `PopcountSpec` (popcount.dfy) is the reference count, the role
  `__builtin_popcount` plays in the test driver. `Popcount(n)` adds up the 32
  bits of `n` one at a time. The lemmas split a word into bytes, halves and
  6-bit fields, bound the count, and show what `n & (n - 1)` and `~n` do to it.
- `Swar` (swar.dfy) holds the field layouts of the straight-line counters.
  - `ByteCounts`: every byte holds its own count.
  - `TripletCounts`: every 3-bit group holds its own count.
  - `SextetCounts`: every 6-bit field holds its own count.
  - The lemmas turn each row of fields into the total: by folding (parallel),
    by the remainder modulo 255 (nifty) or by the remainder modulo 63 (HAKMEM).
- `Macros` (macros.dfy) holds the `TWO`, `MASK` and `COUNT` macros of
  `bitcount_parallel`, with the value of every mask and round the program uses.
- `BitcountAlgorithms` (bitcount_algorithms.dfy) holds the eight counters.
  - The three loop counters are methods with loop invariants.
  - The two tables are arrays owned by a class `LookupTables`. Their setup
    routines are methods that fill the arrays in place. The lookups are
    functions that read them.
  - The three straight-line counters are functions.
- `Timing` (stopwatch.dfy) models `StopWatch` as a class with two mutable
  timestamps.

bitcount.cpp contains a second copy of every counter and table. The copy is
the same statement for statement, up to white space and comments, except that
its `bitcount_hakmem` declares `tmp` as `register unsigned int`
(bitcount.cpp:152) where bitcount_algorithms.cpp:84 has plain `unsigned int`.
That storage hint does not change the result. Each copy
has its own static tables. One `LookupTables` object stands for one file's
pair of tables. The model below therefore covers both copies:

| routine | bitcount_algorithms.cpp | bitcount.cpp |
|---|---|---|
| `bitcount` | 3-10 | 58-65 |
| `bitcount_sparse` | 12-19 | 67-74 |
| `bitcount_dense` | 21-29 | 76-84 |
| `bits_in_char`, `create_precomp8`, `bitcount_precomp8` | 31-44 | 86-103 |
| `bits_in_16bits`, `create_precomp16`, `bitcount_precomp16` | 46-57 | 105-120 |
| `TWO`, `MASK`, `COUNT`, `bitcount_parallel` | 59-70 | 122-136 |
| nifty masks, `bitcount_nifty` | 72-81 | 138-146 |
| `bitcount_hakmem` | 83-87 | 148-157 |

How C types and operators are represented:

- `unsigned int` is `bv32`.
  - Shifts, `&`, `^`, `+` and `-` on it wrap exactly as in C. The subtractions
    in `bitcount_hakmem` and in `n & (n - 1)` rely on this.
- `int` results are Dafny `int`. Every result lies in 0..32, so no conversion
  changes a value.
- `n % 255` and `n % 63` are taken on the non-negative value of the word.
  There the unsigned C remainder and Dafny's `%` agree.
- `sizeof(int)` is the constant `SizeOfInt` = 4.
- `char` is a signed 8-bit newtype `Char`. Every entry of `bits_in_16bits` is
  at most 16, so it fits.
- The loop counter `i` of the table setups is a mathematical integer. It stays
  below 2^16 + 1, so the `unsigned int` never wraps.
- The 16-bit table is indexed by a `bv16` value, which is the same number as
  `n & 0xffffu` and `(n >> 16) & 0xffffu`.
- Dafny has no octal literals. The HAKMEM constants 033333333333,
  011111111111 and 030707070707 are written as 0xdb6d_b6db, 0x4924_9249 and
  0xc71c_71c7.
- The nifty masks `(unsigned int)(-1) / 3`, `/ 5` and `/ 17` are written as
  their values. `NiftyMasks` proves that each value is that quotient.
- `unsigned long` is the 64-bit newtype `ULong`.
- The clock is a parameter: `Start` and `Stop` take the reading that
  `NowMicroseconds` would have returned.

## Model

| member | source | states |
|---|---|---|
| `BitcountAlgorithms.Bitcount` | bitcount_algorithms.cpp:3-10 | the shift loop returns the population count of its argument; the word itself decreases, so the loop terminates |
| `BitcountAlgorithms.BitcountSparse` | bitcount_algorithms.cpp:12-19 | the clear-lowest-bit loop returns the population count; it runs once per set bit |
| `BitcountAlgorithms.BitcountDense` | bitcount_algorithms.cpp:21-29 | starting from 8 * sizeof(int) and stepping down once per set bit of the complement, the result is the population count and stays within 0..32 |
| `BitcountAlgorithms.LookupTables.constructor` | bitcount_algorithms.cpp:31-46 | both static tables are newly allocated with their C sizes (256 and 65536) and start zero-filled, so the setups may write them |
| `BitcountAlgorithms.LookupTables.CreatePrecomp8` | bitcount_algorithms.cpp:33-37 | afterwards every entry of `bits_in_char` is the count of its index; only that table is written, and a second run leaves it unchanged |
| `BitcountAlgorithms.PrepareTables` | bitcount_test.cpp:9-10 | filling the 8-bit table and then the 16-bit table on fresh storage leaves both ready: the second fill does not disturb the first |
| `BitcountAlgorithms.LookupTables.Precomp8Entries` | bitcount_algorithms.cpp:39-44 | once the table is filled, the four byte lookups add up to the population count of the word |
| `BitcountAlgorithms.LookupTables.BitcountPrecomp8` | bitcount_algorithms.cpp:39-44 | after `create_precomp8` the lookup returns the population count |
| `BitcountAlgorithms.LookupTables.CreatePrecomp16` | bitcount_algorithms.cpp:48-52 | afterwards every entry of `bits_in_16bits` is the count of its index (each count fits in a `char`); only that table is written, and a second run leaves it unchanged |
| `BitcountAlgorithms.LookupTables.Precomp16Bounded` | bitcount_algorithms.cpp:46-52 | once filled, every entry of the `char` table lies in 0..16 |
| `BitcountAlgorithms.LookupTables.Precomp16Entries` | bitcount_algorithms.cpp:54-57 | once the table is filled, the two half-word lookups add up to the population count |
| `BitcountAlgorithms.LookupTables.BitcountPrecomp16` | bitcount_algorithms.cpp:54-57 | after `create_precomp16` the lookup returns the population count |
| `Macros.MaskValues` | bitcount_algorithms.cpp:59-60 | `MASK(0)` to `MASK(4)` are 0x55555555, 0x33333333, 0x0f0f0f0f, 0x00ff00ff and 0x0000ffff: runs of 2^c ones and 2^c zeros |
| `Macros.CountRound4` | bitcount_algorithms.cpp:59-61 | `COUNT(x, 4)` adds the high half of `x` onto the low half (rounds 0 to 3 are `Macros.CountRound0` to `Macros.CountRound3`) |
| `Macros.CountRound0` | bitcount_algorithms.cpp:59-61 | `COUNT(x, 0)` adds each odd bit onto the even bit below it |
| `Macros.CountRound1` | bitcount_algorithms.cpp:59-61 | `COUNT(x, 1)` adds 2-bit fields pairwise |
| `Macros.CountRound2` | bitcount_algorithms.cpp:59-61 | `COUNT(x, 2)` adds nibbles pairwise |
| `Macros.CountRound3` | bitcount_algorithms.cpp:59-61 | `COUNT(x, 3)` adds bytes pairwise |
| `BitcountAlgorithms.ByteRounds` | bitcount_algorithms.cpp:64-66 | after the rounds for c = 0, 1, 2 every byte holds the count of the same input byte, with no carry into its neighbour |
| `BitcountAlgorithms.FoldRounds` | bitcount_algorithms.cpp:67-68 | the rounds for c = 3, 4 add the four bytes together |
| `BitcountAlgorithms.BitcountParallel` | bitcount_algorithms.cpp:63-70 | five `COUNT` rounds return the population count |
| `BitcountAlgorithms.NiftyMasks` | bitcount_algorithms.cpp:72-74 | the three nifty masks are all-ones divided by 3, 5 and 17 |
| `BitcountAlgorithms.NiftySteps` | bitcount_algorithms.cpp:77-79 | after the three mask-and-add lines the word is four byte fields, each the count of the same input byte and at most 8 |
| `BitcountAlgorithms.NiftyMod` | bitcount_algorithms.cpp:76-80 | the word the three lines leave has the population count of the input as its remainder by 255 |
| `BitcountAlgorithms.BitcountNifty` | bitcount_algorithms.cpp:76-81 | the remainder by 255 of the byte-wise counts is the population count |
| `BitcountAlgorithms.BitcountHakmem` | bitcount_algorithms.cpp:83-87 | the two subtractions, the add-and-mask with 030707070707 and the remainder by 63 return the population count |
| `Swar.ByteCountsFields` | bitcount_algorithms.cpp:77-79 | each byte of the byte-wise counts is the count of the same input byte, at most 8, so no byte carries into the next |
| `Swar.ByteCountsMod255` | bitcount_algorithms.cpp:80 | the byte-wise counts, taken as a number, leave the population count as remainder by 255 (256 leaves remainder 1 and the total is at most 32) |
| `Swar.FoldByteCounts` | bitcount_algorithms.cpp:67-69 | folding the byte-wise counts (odd bytes onto even, high half onto low) leaves the population count |
| `Swar.TripletsBySubtraction` | bitcount_algorithms.cpp:85 | subtracting the word shifted by one and by two, masked with 033333333333 and 011111111111, leaves every 3-bit group holding its own count |
| `Swar.SextetCountsFields` | bitcount_algorithms.cpp:86 | after `(tmp + (tmp >> 3)) & 030707070707` every 6-bit field holds the count of the same input field, at most 6 (the top field at most 2) |
| `Swar.SextetCountsMod63` | bitcount_algorithms.cpp:86 | those fields, taken as a number, leave the population count as remainder by 63 (64 leaves remainder 1) |
| `PopcountSpec.PopcountUnfold` | bitcount_algorithms.cpp:5-8 | the count of a word is its low bit plus the count of the word shifted right by one |
| `PopcountSpec.LowestBitSingle` | bitcount_algorithms.cpp:16 | for a non-zero word, `n & -n` has exactly one bit set |
| `PopcountSpec.LowestBitLowest` | bitcount_algorithms.cpp:16 | no set bit of `n` lies below the bit `n & -n` |
| `PopcountSpec.ClearsLowest` | bitcount_algorithms.cpp:16 | `n & (n - 1)` is `n` with the bit `n & -n` flipped: it clears exactly the lowest set bit of a non-zero word and keeps every other bit |
| `PopcountSpec.ClearLowestSetBit` | bitcount_algorithms.cpp:14-17 | `n & (n - 1)` lowers the count of a non-zero word by exactly one |
| `PopcountSpec.PopcountZero` | bitcount_algorithms.cpp:5 | the count is zero exactly when the word is zero, which is the loops' exit test |
| `PopcountSpec.Complement` | bitcount_algorithms.cpp:22-23 | the complement `n ^ (unsigned int)-1` has 32 minus the count of `n` set bits |
| `PopcountSpec.PopcountBound` | bitcount_test.cpp:16-38 | every count lies in 0..32 |
| `PopcountSpec.HalfWordBound` | bitcount_algorithms.cpp:46-51 | a value below 2^16 has at most 16 set bits |
| `PopcountSpec.WordBytes` | bitcount_algorithms.cpp:40-43 | the count of a word is the sum of the counts of its four bytes |
| `PopcountSpec.HalfSplit` | bitcount_algorithms.cpp:55-56 | the count of a word is the sum of the counts of its two halves |
| `PopcountSpec.KnownCounts` | bitcount_test.cpp:16-27 | the counts of 0, 1 and 0xFFFFFFFF are 0, 1 and 32 |
| `Timing.StopWatch.constructor` | bitcount.cpp:13 | both timestamps start at 0, so the elapsed time of a fresh watch is 0 |
| `Timing.StopWatch.Start` | bitcount.cpp:15 | sets the start time and leaves the stop time untouched |
| `Timing.StopWatch.Stop` | bitcount.cpp:16 | sets the stop time and leaves the start time untouched |
| `Timing.StopWatch.ElapsedMicrosec` | bitcount.cpp:19 | the result is the difference when the stop time is later and 0 otherwise; it never underflows, never exceeds the stop time, and reads the fields without changing them |
| `Timing.TimeRun` | bitcount.cpp:43-53 | a watch started at `t0` and stopped at `t1` reports `t1 - t0` when `t0 <= t1`, and 0 otherwise |

## Left out

- `run_test` (bitcount.cpp:41-56): its counting loop, `lrand48`, `printf` and
  the floating-point throughput `(double)iters / elapsed` are not modelled.
  That division has no finite value when `elapsed` is 0. Only its use of the
  stop watch is modelled, as `Timing.TimeRun`.
- `StopWatch::NowMicroseconds` (bitcount.cpp:21-31): it reads the wall clock
  through `gettimeofday`, so the model takes the reading as a parameter.
- The `main` functions of bitcount.cpp and bitcount_test.cpp are command-line
  and test drivers. The test driver's assertions are stated as the contracts
  above, for every input rather than for sampled ones.
- bitcount_algorithms.h: the registry `g1()` (declared at line 12) and the
  routines declared at lines 23-43 have no definitions in the source files, so
  they are not part of this model. The `REGISTER_BITCOUNT_ALGO` macro
  (lines 14-21) only appends a name and two function pointers to that registry
  and is left out with it.
- Concurrency: the program is single-threaded.
