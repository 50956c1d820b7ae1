/** bitshifting/bitshifting.cpp: the lowest and the highest set bit, by halving down to a byte.
    Results are `unsigned`, 32 bits that wrap; all ones stands for "no bit set". */
module BitScans {
  import opened Words
  import PopCounts

  const NONE: u32 := 0xffff_ffff

  /** `+` on `unsigned`, wrapping */
  function Add32(a: u32, b: u32): u32 {
    if a + b < 0x1_0000_0000 then a + b else a + b - 0x1_0000_0000
  }

  /** The number of bits up to and including the highest one. */
  function BitLength(n: nat): nat {
    if n == 0 then 0 else 1 + BitLength(n / 2)
  }

  /** The number of zero bits below the lowest one. */
  function TrailingZeros(n: nat): nat
    requires n > 0
  {
    if n % 2 == 1 then 0 else 1 + TrailingZeros(n / 2)
  }

  // ----- bytes: what the two loops compute

  function MinBit8(v: u8): u32 {
    if v == 0 then NONE
    else
      TrailingZerosOf(v, 8);
      TrailingZeros(v)
  }

  function MaxBit8(v: u8): u32 {
    BitLengthBound(v, 8);
    Add32(NONE, BitLength(v))
  }

  lemma {:induction false} TrailingZerosOf(n: nat, j: nat)
    requires 0 < n < Pow2(j) || (j == 8 && 0 < n < 0x100)
    ensures TrailingZeros(n) < j
  {
    assert Pow2(8) == 0x100;
    if n % 2 == 0 {
      TrailingZerosOf(n / 2, j - 1);
    }
  }

  lemma {:induction false} BitLengthBound(n: nat, j: nat)
    requires n < Pow2(j) || (j == 8 && n < 0x100)
    ensures BitLength(n) <= j
  {
    assert Pow2(8) == 0x100;
    if n > 0 {
      BitLengthBound(n / 2, j - 1);
    }
  }

  method MinBit8Loop(byte: u8) returns (r: u32)
    ensures r == MinBit8(byte)
    ensures if byte == 0 then r == 0xffff_ffff else r == TrailingZeros(byte) < 8
  {
    var v := byte;
    if v == 0 {
      return NONE;
    }
    assert Pow2(8) == 256;
    r := 0;
    while r < 8
      invariant 0 <= r <= 8
      invariant 0 < v < Pow2(8 - r)
      invariant TrailingZeros(byte) == r + TrailingZeros(v)
    {
      if v % 2 == 1 {
        return;
      }
      v := v / 2;
      r := r + 1;
    }
    return NONE;
  }

  /** The counter starts at -1, that is at all ones, and wraps on its first increment. */
  method MaxBit8Loop(byte: u8) returns (r: u32)
    ensures r == MaxBit8(byte)
    ensures if byte == 0 then r == 0xffff_ffff else r == BitLength(byte) - 1 < 8
  {
    var v := byte;
    r := NONE;
    ghost var rounds: nat := 0;
    BitLengthBound(byte, 8);
    while v > 0
      invariant BitLength(byte) == rounds + BitLength(v) <= 8
      invariant r == if rounds == 0 then NONE else rounds - 1
    {
      v := v / 2;
      r := Add32(r, 1);
      rounds := rounds + 1;
    }
  }

  // ----- wider words: one half decides, and a call narrows its argument to that half
  // (`v & 0xff` and its like are written as remainders, `v >> 8` as quotients)

  /** The masks of the source take remainders. */
  lemma MasksTakeRemainders(v: u64)
    ensures BitAnd(v, 1) == v % 2 && BitAnd(v, 0xff) == v % 0x100
    ensures BitAnd(v, 0xffff) == v % 0x1_0000 && BitAnd(v, 0xffff_ffff) == v % 0x1_0000_0000
  {
    WordPowers();
    BitAndLow(v, 1);
    BitAndLow(v, 8);
    BitAndLow(v, 16);
    BitAndLow(v, 32);
  }

  function MinBit16(v: u16): u32 {
    if v == 0 then NONE
    else if v % 0x100 != 0 then MinBit8(v % 0x100) else Add32(MinBit8(v / 0x100), 8)
  }

  function MinBit32(v: u32): u32 {
    if v == 0 then NONE
    else if v % 0x1_0000 != 0 then MinBit16(v % 0x1_0000) else Add32(MinBit16(v / 0x1_0000), 16)
  }

  function MinBit64(v: u64): u32 {
    if v == 0 then NONE
    else if v % 0x1_0000_0000 != 0 then MinBit32(v % 0x1_0000_0000) else Add32(MinBit32(v / 0x1_0000_0000), 32)
  }

  function MaxBit16(v: u16): u32 {
    if v / 0x100 != 0 then Add32(MaxBit8(v / 0x100), 8) else MaxBit8(v % 0x100)
  }

  function MaxBit32(v: u32): u32 {
    if v / 0x1_0000 != 0 then Add32(MaxBit16(v / 0x1_0000), 16) else MaxBit16(v % 0x1_0000)
  }

  function MaxBit64(v: u64): u32 {
    if v / 0x1_0000_0000 != 0 then Add32(MaxBit32(v / 0x1_0000_0000), 32) else MaxBit32(v % 0x1_0000_0000)
  }

  // ----- splitting a number at bit j

  lemma {:induction false} ZerosSplit(n: nat, a: nat, x: nat, j: nat)
    requires n == Shl(a, j) + x && x < Pow2(j) && n > 0
    requires x == 0 ==> a > 0
    ensures TrailingZeros(n) == if x > 0 then TrailingZeros(x) else j + TrailingZeros(a)
    decreases j
  {
    if j > 0 && n % 2 == 0 {
      ZerosSplit(n / 2, a, x / 2, j - 1);
    }
  }

  lemma {:induction false} LengthSplit(n: nat, a: nat, x: nat, j: nat)
    requires n == Shl(a, j) + x && x < Pow2(j) && a > 0
    ensures BitLength(n) == j + BitLength(a)
    decreases j
  {
    if j > 0 {
      LengthSplit(n / 2, a, x / 2, j - 1);
      assert n > 0;
    }
  }

  /** The two halves of a word of 2j bits, j being 8, 16 or 32. */
  ghost predicate Halves(n: nat, a: nat, x: nat, j: nat) {
    || (j == 8 && n == 0x100 * a + x && x < 0x100)
    || (j == 16 && n == 0x1_0000 * a + x && x < 0x1_0000)
    || (j == 32 && n == 0x1_0000_0000 * a + x && x < 0x1_0000_0000)
  }

  lemma HalvesShift(n: nat, a: nat, x: nat, j: nat)
    requires Halves(n, a, x, j)
    ensures n == Shl(a, j) + x && x < Pow2(j)
  {
    var p := HalfSize(j);
    ShlTimes(a, j);
    assert a * Pow2(j) == a * p;
  }

  /** 2^j */
  lemma HalfSize(j: nat) returns (p: nat)
    requires j == 8 || j == 16 || j == 32
    ensures p == Pow2(j)
    ensures p == if j == 8 then 0x100 else if j == 16 then 0x1_0000 else 0x1_0000_0000
  {
    WordPowers();
    p := Pow2(j);
  }

  lemma ZerosOfHalves(n: nat, a: nat, x: nat, j: nat)
    requires Halves(n, a, x, j) && n > 0
    ensures x == 0 ==> a > 0
    ensures TrailingZeros(n) == if x > 0 then TrailingZeros(x) else j + TrailingZeros(a)
  {
    HalvesShift(n, a, x, j);
    ZerosSplit(n, a, x, j);
  }

  lemma LengthOfHalves(n: nat, a: nat, x: nat, j: nat)
    requires Halves(n, a, x, j)
    ensures BitLength(n) == if a > 0 then j + BitLength(a) else BitLength(x)
  {
    if a > 0 {
      HalvesShift(n, a, x, j);
      LengthSplit(n, a, x, j);
    }
  }

  lemma MinBit8Counts(v: u8)
    ensures if v == 0 then MinBit8(v) == 0xffff_ffff else MinBit8(v) == TrailingZeros(v) < 8
  {
    if v == 0 {
      return;
    }
    assert Pow2(8) == 256;
    TrailingZerosOf(v, 8);
  }

  lemma MinBit16Counts(v: u16)
    ensures if v == 0 then MinBit16(v) == 0xffff_ffff else MinBit16(v) == TrailingZeros(v) < 16
  {
    if v == 0 {
      return;
    }
    var a, x := v / 0x100, v % 0x100;
    ZerosOfHalves(v, a, x, 8);
    if x > 0 {
      MinBit8Counts(x);
    } else {
      MinBit8Counts(a);
    }
  }

  lemma MinBit32Counts(v: u32)
    ensures if v == 0 then MinBit32(v) == 0xffff_ffff else MinBit32(v) == TrailingZeros(v) < 32
  {
    if v == 0 {
      return;
    }
    var a, x := v / 0x1_0000, v % 0x1_0000;
    ZerosOfHalves(v, a, x, 16);
    if x > 0 {
      MinBit16Counts(x);
    } else {
      MinBit16Counts(a);
    }
  }

  lemma MinBit64Counts(v: u64)
    ensures if v == 0 then MinBit64(v) == 0xffff_ffff else MinBit64(v) == TrailingZeros(v) < 64
  {
    if v == 0 {
      return;
    }
    var a, x := v / 0x1_0000_0000, v % 0x1_0000_0000;
    ZerosOfHalves(v, a, x, 32);
    if x > 0 {
      MinBit32Counts(x);
    } else {
      MinBit32Counts(a);
    }
  }

  lemma MaxBit8Counts(v: u8)
    ensures MaxBit8(v) == if v == 0 then 0xffff_ffff else BitLength(v) - 1
    ensures BitLength(v) <= 8
  {
    assert Pow2(8) == 256;
    BitLengthBound(v, 8);
  }

  lemma MaxBit16Counts(v: u16)
    ensures MaxBit16(v) == if v == 0 then 0xffff_ffff else BitLength(v) - 1
    ensures BitLength(v) <= 16
  {
    var a, x := v / 0x100, v % 0x100;
    LengthOfHalves(v, a, x, 8);
    MaxBit8Counts(a);
    MaxBit8Counts(x);
  }

  lemma MaxBit32Counts(v: u32)
    ensures MaxBit32(v) == if v == 0 then 0xffff_ffff else BitLength(v) - 1
    ensures BitLength(v) <= 32
  {
    var a, x := v / 0x1_0000, v % 0x1_0000;
    LengthOfHalves(v, a, x, 16);
    MaxBit16Counts(a);
    MaxBit16Counts(x);
  }

  lemma MaxBit64Counts(v: u64)
    ensures MaxBit64(v) == if v == 0 then 0xffff_ffff else BitLength(v) - 1
    ensures BitLength(v) <= 64
  {
    var a, x := v / 0x1_0000_0000, v % 0x1_0000_0000;
    LengthOfHalves(v, a, x, 32);
    MaxBit32Counts(a);
    MaxBit32Counts(x);
  }

  // ----- what the two numbers mean

  lemma {:induction false} LengthBrackets(n: nat)
    requires n > 0
    ensures BitLength(n) > 0 && Pow2(BitLength(n) - 1) <= n < Pow2(BitLength(n))
  {
    if n > 1 {
      LengthBrackets(n / 2);
    }
  }

  function OddTimes(c: nat, k: nat): nat {
    (2 * c + 1) * Pow2(k)
  }

  lemma {:induction false} ZerosFactor(n: nat) returns (c: nat)
    requires n > 0
    ensures n == OddTimes(c, TrailingZeros(n))
  {
    if n % 2 == 1 {
      c := n / 2;
      assert OddTimes(c, 0) == 2 * c + 1;
    } else {
      c := ZerosFactor(n / 2);
      TwiceOdd(c, TrailingZeros(n / 2));
    }
  }

  lemma TwiceOdd(c: nat, k: nat)
    ensures OddTimes(c, k + 1) == 2 * OddTimes(c, k)
  {
    DoubleSecond(2 * c + 1, Pow2(k), Pow2(k + 1));
  }

  lemma DoubleSecond(a: int, p: int, q: int)
    requires q == 2 * p
    ensures a * q == 2 * (a * p)
  {
  }

  /** `maxbit64` finds the highest set bit: 2^m <= v < 2^(m+1); all ones for zero. */
  lemma MaxBit64Highest(v: u64)
    ensures v == 0 ==> MaxBit64(v) == 0xffff_ffff
    ensures v > 0 ==> Pow2(MaxBit64(v)) <= v < Pow2(MaxBit64(v) + 1)
  {
    MaxBit64Counts(v);
    if v > 0 {
      LengthBrackets(v);
    }
  }

  /** `minbit64` finds the lowest: v is an odd multiple of 2^m; all ones for zero. */
  lemma MinBit64Lowest(v: u64)
    ensures v == 0 ==> MinBit64(v) == 0xffff_ffff
    ensures v > 0 ==> exists c :: v == OddTimes(c, MinBit64(v))
  {
    if v > 0 {
      MinBit64Counts(v);
      var c := ZerosFactor(v);
    }
  }

  // ----- the three bit routines agree

  /** The ones of `n` form one run of adjacent bits. */
  ghost predicate OneRun(n: nat) {
    exists lo: nat, hi: nat :: lo < hi && IsRun(n, lo, hi)
  }

  ghost predicate IsRun(n: nat, lo: nat, hi: nat) {
    n == Pow2(hi) - Pow2(lo)
  }

  lemma {:induction false} OnesWithinLength(n: nat)
    ensures Ones(n) <= BitLength(n)
    ensures Ones(n) == BitLength(n) <==> n + 1 == Pow2(BitLength(n))
  {
    if n > 0 {
      OnesWithinLength(n / 2);
    }
  }

  lemma {:induction false} OnesWithinSpan(n: nat)
    requires n > 0
    ensures TrailingZeros(n) < BitLength(n)
    ensures 0 < Ones(n) <= BitLength(n) - TrailingZeros(n)
    ensures Ones(n) == BitLength(n) - TrailingZeros(n) <==> IsRun(n, TrailingZeros(n), BitLength(n))
    ensures Ones(n) == 1 <==> BitLength(n) == TrailingZeros(n) + 1
  {
    if n % 2 == 1 {
      OnesWithinLength(n);
      assert Pow2(0) == 1;
      if n > 1 {
        OnesWithinSpan(n / 2);
      }
    } else {
      OnesWithinSpan(n / 2);
    }
  }

  lemma {:induction false} RunEnds(n: nat, lo: nat, hi: nat)
    requires lo < hi && IsRun(n, lo, hi)
    ensures n > 0 && TrailingZeros(n) == lo && BitLength(n) == hi
    decreases hi
  {
    PowersGrow(lo, hi);
    if lo > 0 {
      RunEnds(n / 2, lo - 1, hi - 1);
    } else if hi > 1 {
      RunEnds(n / 2, 0, hi - 1);
    }
  }

  /** Between the lowest and the highest bit there is room for the ones `popcount` counts; they fill it
      exactly when they form one run, and there is one of them exactly when the two ends meet. */
  lemma BitRoutinesAgree(v: u64)
    requires v > 0
    ensures 1 <= Ones(v) <= MaxBit64(v) - MinBit64(v) + 1
    ensures Ones(v) == MaxBit64(v) - MinBit64(v) + 1 <==> OneRun(v)
    ensures Ones(v) == 1 <==> MinBit64(v) == MaxBit64(v)
  {
    MaxBit64Counts(v);
    MinBit64Counts(v);
    OnesWithinSpan(v);
    if OneRun(v) {
      var lo: nat, hi: nat :| lo < hi && IsRun(v, lo, hi);
      RunEnds(v, lo, hi);
    }
  }

  /** The same about the results the routines return. */
  method CompareBitRoutines(v: u64) returns (ones: int, low: u32, high: u32)
    requires v > 0
    ensures 1 <= ones <= high - low + 1 <= 64
    ensures ones == high - low + 1 <==> OneRun(v)
    ensures ones == 1 <==> low == high
    ensures Pow2(high) <= v < Pow2(high + 1) && exists c :: v == OddTimes(c, low)
  {
    ones := PopCounts.PopCount(Wrap(v));
    PatternOfWrap(v);
    low, high := MinBit64(v), MaxBit64(v);
    ResultsAgree(v, ones, low, high);
  }

  lemma PatternOfWrap(v: u64)
    ensures Pattern(Wrap(v)) == v
  {
  }

  lemma ResultsAgree(v: u64, ones: int, low: u32, high: u32)
    requires v > 0 && ones == Ones(v) && low == MinBit64(v) && high == MaxBit64(v)
    ensures 1 <= ones <= high - low + 1 <= 64
    ensures ones == high - low + 1 <==> OneRun(v)
    ensures ones == 1 <==> low == high
    ensures Pow2(high) <= v < Pow2(high + 1) && exists c :: v == OddTimes(c, low)
  {
    BitRoutinesAgree(v);
    MaxBit64Counts(v);
    MaxBit64Highest(v);
    MinBit64Lowest(v);
  }
}
