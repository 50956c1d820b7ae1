/** building_library/popcount.cpp: counting one bits by summing ever wider fields of the word. */
module PopCounts {
  import opened Words

  const M1 := 0x5555_5555_5555_5555
  const M2 := 0x3333_3333_3333_3333
  const M4 := 0x0f0f_0f0f_0f0f_0f0f
  const H01 := 0x0101_0101_0101_0101

  // ----- what the word holds after each stage: every field the number of ones of its own bits of `n`

  function PairCounts(n: nat, k: nat): nat {
    if k == 0 then 0 else 4 * PairCounts(n / 4, k - 1) + Ones(n % 4)
  }

  function NibbleCounts(n: nat, k: nat): nat {
    if k == 0 then 0 else 16 * NibbleCounts(n / 16, k - 1) + Ones(n % 16)
  }

  function ByteCounts(n: nat, k: nat): nat {
    if k == 0 then 0 else 256 * ByteCounts(n / 256, k - 1) + Ones(n % 256)
  }

  // The masks of the source, for k fields: 0101..., 0011 0011..., 00001111...

  function PairMask(k: nat): nat {
    if k == 0 then 0 else 4 * PairMask(k - 1) + 1
  }

  function NibbleMask(k: nat): nat {
    if k == 0 then 0 else 16 * NibbleMask(k - 1) + 3
  }

  function ByteMask(k: nat): nat {
    if k == 0 then 0 else 256 * ByteMask(k - 1) + 15
  }

  // ----- the stages, on bit patterns of k fields

  function Stage1(n: nat, k: nat): int {
    n - BitAnd(n / 2, PairMask(k))
  }

  function Stage2(n: nat, k: nat): nat {
    BitAnd(n, NibbleMask(k)) + BitAnd(n / 4, NibbleMask(k))
  }

  function Stage3(n: nat, k: nat): nat {
    BitAnd(n + n / 16, ByteMask(k))
  }

  // What masking keeps of one field: its lower half, and nothing of its neighbours.

  lemma ByFields4(r: nat, x: nat, m: nat, y: nat)
    requires x < 4 && y < 4
    ensures BitAnd(4 * r + x, 4 * m + y) == 4 * BitAnd(r, m) + BitAnd(x, y)
  {
    ShlSmall(r);
    ShlSmall(m);
    ShlSmall(BitAnd(r, m));
    BitAndSplit(r, x, m, y, 2);
  }

  lemma ByFields16(r: nat, x: nat, m: nat, y: nat)
    requires x < 16 && y < 16
    ensures BitAnd(16 * r + x, 16 * m + y) == 16 * BitAnd(r, m) + BitAnd(x, y)
  {
    ShlSmall(r);
    ShlSmall(m);
    ShlSmall(BitAnd(r, m));
    BitAndSplit(r, x, m, y, 4);
  }

  lemma ByFields256(r: nat, x: nat, m: nat, y: nat)
    requires x < 256 && y < 256
    ensures BitAnd(256 * r + x, 256 * m + y) == 256 * BitAnd(r, m) + BitAnd(x, y)
  {
    ShlSmall(r);
    ShlSmall(m);
    ShlSmall(BitAnd(r, m));
    BitAndSplit(r, x, m, y, 8);
  }

  lemma MaskPair(n: nat, r: nat, e: nat, d: nat, m: nat)
    requires e < 2 && d < 2 && n == 4 * r + (2 * e + d)
    ensures BitAnd(n, 4 * m + 1) == 4 * BitAnd(r, m) + d
  {
    ByFields4(r, 2 * e + d, m, 1);
    LowHalf(e, d, 1);
  }

  lemma MaskNibble(n: nat, r: nat, e: nat, y: nat, m: nat)
    requires e < 4 && y < 4 && n == 16 * r + (4 * e + y)
    ensures BitAnd(n, 16 * m + 3) == 16 * BitAnd(r, m) + y
  {
    ByFields16(r, 4 * e + y, m, 3);
    LowHalf(e, y, 2);
  }

  lemma MaskByte(n: nat, r: nat, e: nat, z: nat, m: nat)
    requires e < 16 && z < 16 && n == 256 * r + (16 * e + z)
    ensures BitAnd(n, 256 * m + 15) == 256 * BitAnd(r, m) + z
  {
    ByFields256(r, 16 * e + z, m, 15);
    LowHalf(e, z, 4);
  }

  /** Masking one field: its upper half `e` goes, its lower half `y` stays. */
  lemma LowHalf(e: nat, y: nat, j: nat)
    requires (j == 1 && y < 2) || (j == 2 && y < 4) || (j == 4 && y < 16)
    ensures j == 1 ==> BitAnd(2 * e + y, 1) == y
    ensures j == 2 ==> BitAnd(4 * e + y, 3) == y
    ensures j == 4 ==> BitAnd(16 * e + y, 15) == y
  {
    ShlSmall(e);
    BitAndIgnoresHigh(Shl(e, j) + y, y, e, Pow2(j) - 1, j);
    BitAndFull(y, j);
  }

  // One field of each stage: no field carries into its neighbour.

  lemma Stage1Step(n: nat, r: nat, d1: nat, d0: nat, k: nat)
    requires d1 < 2 && d0 < 2 && k > 0 && n == 4 * r + 2 * d1 + d0
    ensures Stage1(n, k) == 4 * Stage1(r, k - 1) + (d1 + d0)
  {
    MaskPair(n / 2, r / 2, r % 2, d1, PairMask(k - 1));
  }

  lemma Stage2Step(n: nat, r: nat, y1: nat, y0: nat, k: nat)
    requires y1 <= 2 && y0 <= 2 && k > 0 && n == 4 * (4 * r + y1) + y0
    ensures Stage2(n, k) == 16 * Stage2(r, k - 1) + (y1 + y0)
  {
    MaskNibble(n, r, y1, y0, NibbleMask(k - 1));
    MaskNibble(n / 4, r / 4, r % 4, y1, NibbleMask(k - 1));
  }

  lemma Stage3Step(n: nat, r: nat, z1: nat, z0: nat, k: nat)
    requires z1 <= 4 && z0 <= 4 && r % 16 <= 4 && k > 0 && n == 16 * (16 * r + z1) + z0
    ensures Stage3(n, k) == 256 * Stage3(r, k - 1) + (z1 + z0)
  {
    MaskByte(n + n / 16, r + r / 16, z1 + r % 16, z1 + z0, ByteMask(k - 1));
  }

  /** After the first stage every two-bit field holds the number of ones of those two bits. */
  lemma {:induction false} Stage1Counts(n: nat, k: nat)
    requires n < Power(4, k)
    ensures Stage1(n, k) == PairCounts(n, k)
    decreases k
  {
    if k == 0 {
      assert BitAnd(0, 0) == 0;
    } else {
      var r, y := n / 4, n % 4;
      Stage1Counts(r, k - 1);
      Stage1Step(n, r, y / 2, y % 2, k);
      OnesOf4(y);
    }
  }

  /** After the second every four-bit field does, ... */
  lemma {:induction false} Stage2Counts(n: nat, k: nat)
    ensures Stage2(PairCounts(n, 2 * k), k) == NibbleCounts(n, k)
    decreases k
  {
    if k == 0 {
      assert BitAnd(0, 0) == 0;
    } else {
      var r, y := n / 16, n % 16;
      Stage2Counts(r, k - 1);
      OnesOf16(y);
      TwoPairs(n, 2 * k);
      Stage2Step(PairCounts(n, 2 * k), PairCounts(r, 2 * (k - 1)), Ones(y / 4), Ones(y % 4), k);
    }
  }

  /** ... and after the third every byte. */
  lemma {:induction false} Stage3Counts(n: nat, k: nat)
    ensures Stage3(NibbleCounts(n, 2 * k), k) == ByteCounts(n, k)
    decreases k
  {
    if k == 0 {
      assert BitAnd(0, 0) == 0;
    } else {
      var r, y := n / 256, n % 256;
      Stage3Counts(r, k - 1);
      OnesOf256(y);
      TwoNibbles(n, 2 * k);
      LowNibble(r, 2 * (k - 1));
      Stage3Step(NibbleCounts(n, 2 * k), NibbleCounts(r, 2 * (k - 1)), Ones(y / 16), Ones(y % 16), k);
    }
  }

  lemma TwoPairs(n: nat, k: nat)
    requires k >= 2
    ensures PairCounts(n, k) == 4 * (4 * PairCounts(n / 16, k - 2) + Ones(n % 16 / 4)) + Ones(n % 16 % 4)
  {
    assert n / 4 / 4 == n / 16 && n / 4 % 4 == n % 16 / 4 && n % 4 == n % 16 % 4;
  }

  lemma TwoNibbles(n: nat, k: nat)
    requires k >= 2
    ensures NibbleCounts(n, k) == 16 * (16 * NibbleCounts(n / 256, k - 2) + Ones(n % 256 / 16)) + Ones(n % 256 % 16)
  {
    assert n / 16 / 16 == n / 256 && n / 16 % 16 == n % 256 / 16 && n % 16 == n % 256 % 16;
  }

  lemma LowNibble(n: nat, k: nat)
    ensures NibbleCounts(n, k) % 16 <= 4
  {
    if k > 0 {
      ShlSmall(0);
      OnesAtMost(n % 16, 4);
      LastDigit(NibbleCounts(n, k), NibbleCounts(n / 16, k - 1), Ones(n % 16));
    }
  }

  lemma LastDigit(n: nat, q: nat, d: nat)
    requires n == 16 * q + d && d < 16
    ensures n % 16 == d
  {
  }

  lemma OnesOf4(y: nat)
    requires y < 4
    ensures Ones(y) == y / 2 + y % 2
  {
    assert Ones(y) == y % 2 + Ones(y / 2) && Ones(y / 2) == y / 2;
  }

  lemma OnesOf16(y: nat)
    requires y < 16
    ensures Ones(y) == Ones(y / 4) + Ones(y % 4)
    ensures Ones(y / 4) <= 2 && Ones(y % 4) <= 2
  {
    ShlSmall(y / 4);
    OnesSplit(y / 4, y % 4, 2);
    OnesAtMost(y / 4, 2);
    OnesAtMost(y % 4, 2);
  }

  lemma OnesOf256(y: nat)
    requires y < 256
    ensures Ones(y) == Ones(y / 16) + Ones(y % 16)
    ensures Ones(y / 16) <= 4 && Ones(y % 16) <= 4
  {
    ShlSmall(y / 16);
    OnesSplit(y / 16, y % 16, 4);
    OnesAtMost(y / 16, 4);
    OnesAtMost(y % 16, 4);
  }

  // ----- the last stage: one multiplication adds up the eight bytes

  /** The low byte `b` and the rest `r` of a number, and of its counts. */
  lemma LowByte(n: nat, k: nat) returns (r: nat, b: nat)
    requires k >= 1 && n < Power(256, k)
    ensures r < Power(256, k - 1) && b <= 8
    ensures ByteCounts(n, k) == 0x100 * ByteCounts(r, k - 1) + b
    ensures Ones(n) == Ones(r) + b
  {
    var x := n % 256;
    r, b := n / 256, Ones(x);
    ShlSmall(r);
    assert n == Shl(r, 8) + x;
    OnesSplit(r, x, 8);
    OnesAtMost(x, 8);
  }

  lemma LowTwo(n: nat, k: nat) returns (r: nat, b0: nat, b1: nat)
    requires k >= 2 && n < Power(256, k)
    ensures r < Power(256, k - 2) && b0 <= 8 && b1 <= 8
    ensures ByteCounts(n, k) == 0x1_0000 * ByteCounts(r, k - 2) + 0x100 * b1 + b0
    ensures Ones(n) == Ones(r) + b1 + b0
  {
    r, b0 := LowByte(n, k);
    r, b1 := LowByte(r, k - 1);
  }

  lemma LowFour(n: nat, k: nat) returns (r: nat, b: seq<nat>)
    requires k >= 4 && n < Power(256, k)
    ensures r < Power(256, k - 4) && |b| == 4 && forall i | 0 <= i < 4 :: b[i] <= 8
    ensures ByteCounts(n, k) == 0x1_0000_0000 * ByteCounts(r, k - 4)
                                + 0x100_0000 * b[3] + 0x1_0000 * b[2] + 0x100 * b[1] + b[0]
    ensures Ones(n) == Ones(r) + b[3] + b[2] + b[1] + b[0]
  {
    var b0, b1, b2, b3;
    r, b0, b1 := LowTwo(n, k);
    r, b2, b3 := LowTwo(r, k - 2);
    b := [b0, b1, b2, b3];
  }

  /** `x` has the bytes `b`, lowest first, all of them at most 8. */
  ghost predicate Bytes(x: int, b: seq<nat>) {
    && |b| == 8 && (forall i | 0 <= i < 8 :: b[i] <= 8)
    && x == b[0] + 0x100 * b[1] + 0x1_0000 * b[2] + 0x100_0000 * b[3] + 0x1_0000_0000 * b[4]
            + 0x100_0000_0000 * b[5] + 0x1_0000_0000_0000 * b[6] + 0x100_0000_0000_0000 * b[7]
  }

  ghost function Sum(b: seq<nat>): nat
    requires |b| == 8
  {
    b[0] + b[1] + b[2] + b[3] + b[4] + b[5] + b[6] + b[7]
  }

  /** The bytes left by the third stage add up to the ones of the whole number. */
  lemma BytesOf(n: u64) returns (b: seq<nat>)
    ensures Bytes(ByteCounts(n, 8), b) && Sum(b) == Ones(n)
  {
    WordPowers();
    var r, low := LowFour(n, 8);
    var zero, high := LowFour(r, 4);
    b := low + high;
  }

  /** The product overflows 64 bits; what is left has the sum of the bytes on top. */
  lemma TopByteSums(x: int, b: seq<nat>) returns (low: nat)
    requires Bytes(x, b)
    ensures Sum(b) <= 64 && low < 0x100_0000_0000_0000
    ensures x * H01 % TWO64 == 0x100_0000_0000_0000 * Sum(b) + low
  {
    var s0 := b[0];
    var s1 := s0 + b[1];
    var s2 := s1 + b[2];
    var s3 := s2 + b[3];
    var s4 := s3 + b[4];
    var s5 := s4 + b[5];
    var s6 := s5 + b[6];
    var s7 := s6 + b[7];
    low := s0 + 0x100 * s1 + 0x1_0000 * s2 + 0x100_0000 * s3 + 0x1_0000_0000 * s4
           + 0x100_0000_0000 * s5 + 0x1_0000_0000_0000 * s6;
    var high := (s7 - s0) + 0x100 * (s7 - s1) + 0x1_0000 * (s7 - s2) + 0x100_0000 * (s7 - s3)
                + 0x1_0000_0000 * (s7 - s4) + 0x100_0000_0000 * (s7 - s5) + 0x1_0000_0000_0000 * (s7 - s6);
    Remainder(x * H01, high, 0x100_0000_0000_0000 * s7 + low);
  }

  lemma Remainder(n: int, q: int, r: int)
    requires n == TWO64 * q + r && 0 <= r < TWO64
    ensures n % TWO64 == r
  {
  }

  // ----- signed words: the masks hide what the arithmetic shift brings in

  lemma {:induction false} MaskValues(k: nat)
    ensures 3 * PairMask(k) == Power(4, k) - 1
    ensures 5 * NibbleMask(k) == Power(16, k) - 1
    ensures 17 * ByteMask(k) == Power(256, k) - 1
  {
    if k > 0 {
      MaskValues(k - 1);
    }
  }

  lemma MasksAreRows()
    ensures M1 == PairMask(32) && M2 == NibbleMask(16) && M4 == ByteMask(8)
  {
    M1IsRow();
    M2IsRow();
    M4IsRow();
  }

  lemma M1IsRow()
    ensures M1 == PairMask(32)
  {
    WordPowers();
    MaskValues(32);
  }

  lemma M2IsRow()
    ensures M2 == NibbleMask(16)
  {
    WordPowers();
    MaskValues(16);
  }

  lemma M4IsRow()
    ensures M4 == ByteMask(8)
  {
    WordPowers();
    MaskValues(8);
  }

  // What the arithmetic shifts do to the bit pattern: they copy the sign down.

  lemma PatternShift1(x: i64)
    ensures Pattern(x / 2) == Pattern(x) / 2 + if x < 0 then TWO63 else 0
  {
  }

  lemma PatternShift2(x: i64)
    ensures Pattern(x / 4) == Pattern(x) / 4 + if x < 0 then 0xc000_0000_0000_0000 else 0
  {
  }

  /** A mask below the copied sign bits does not see them. */
  lemma ShiftBy1ThenMask(x: i64, m: nat)
    requires m < TWO63
    ensures BitAnd(Pattern(x / 2), m) == BitAnd(Pattern(x) / 2, m)
  {
    PatternShift1(x);
    WordPowers();
    ShlMultiplies(63);
    BitAndIgnoresHigh(Pattern(x / 2), Pattern(x) / 2, if x < 0 then 1 else 0, m, 63);
  }

  lemma ShiftBy2ThenMask(x: i64, m: nat)
    requires m < 0x4000_0000_0000_0000
    ensures BitAnd(Pattern(x / 4), m) == BitAnd(Pattern(x) / 4, m)
  {
    PatternShift2(x);
    WordPowers();
    ShlMultiplies(62);
    BitAndIgnoresHigh(Pattern(x / 4), Pattern(x) / 4, if x < 0 then 3 else 0, m, 62);
  }

  lemma Small(n: nat)
    requires n < TWO63
    ensures Wrap(n) == n && Pattern(n) == n
  {
  }

  lemma MaskedAsPattern(a: i64, p: nat, m: nat)
    requires m < TWO63 && p == Pattern(a)
    ensures And64(a, m) == BitAnd(p, m)
  {
    Small(m);
    BitAndAtMost(p, m);
    Small(BitAnd(p, m));
  }

  lemma SubtractPattern(x: i64, a: nat)
    requires a <= Pattern(x)
    ensures Pattern(Wrap(x - a)) == Pattern(x) - a
  {
    if x < 0 {
      Remainder(x - a, -1, Pattern(x) - a);
    } else {
      Remainder(x - a, 0, Pattern(x) - a);
    }
  }

  // ----- the four lines: what each computes before its result is kept in 64 bits

  /** `x - ((x >> 1) & m1)` */
  function LessPairs(x: i64): int {
    x - And64(x / 2, M1)
  }

  /** `(x & m2) + ((x >> 2) & m2)` */
  function AddPairs(x: i64): int {
    And64(x, M2) + And64(x / 4, M2)
  }

  /** `x + (x >> 4)` */
  function AddNibbles(x: i64): int {
    x + x / 16
  }

  /** `x * h01` */
  function AddBytes(x: i64): int {
    x * H01
  }

  lemma HalfMasked(x: i64, p: nat, a: nat)
    requires p == Pattern(x) && a == BitAnd(p / 2, M1)
    ensures And64(x / 2, M1) == a <= p
  {
    MaskedAsPattern(x / 2, Pattern(x / 2), M1);
    ShiftBy1ThenMask(x, M1);
    BitAndAtMost(p / 2, M1);
  }

  lemma Stage1Word(p: u64)
    ensures p - BitAnd(p / 2, M1) == PairCounts(p, 32)
  {
    M1IsRow();
    WordPowers();
    Stage1Counts(p, 32);
  }

  lemma SignedStage1(x: i64, p: u64)
    requires p == Pattern(x)
    ensures Pattern(Wrap(LessPairs(x))) == PairCounts(p, 32)
  {
    var a := BitAnd(p / 2, M1);
    HalfMasked(x, p, a);
    SubtractPattern(x, a);
    Stage1Word(p);
  }

  lemma SignedStage2(x: i64, n: u64)
    requires Pattern(x) == PairCounts(n, 32)
    ensures AddPairs(x) == NibbleCounts(n, 16) < TWO63
  {
    NibblesFit(n);
    SignedHalves(x, Pattern(x));
    Stage2Counts(n, 16);
  }

  lemma SignedHalves(x: i64, p: nat)
    requires p == Pattern(x)
    ensures AddPairs(x) == Stage2(p, 16)
  {
    MaskedAsPattern(x, p, M2);
    MaskedAsPattern(x / 4, Pattern(x / 4), M2);
    ShiftBy2ThenMask(x, M2);
    M2IsRow();
  }

  lemma {:induction false} NibblesSmall(n: nat, k: nat)
    ensures 15 * NibbleCounts(n, k) <= 4 * (Power(16, k) - 1)
  {
    if k > 0 {
      NibblesSmall(n / 16, k - 1);
      OnesAtMost(n % 16, 4);
      ShlSmall(0);
    }
  }

  /** Four-bit fields of at most 4 leave the sign bit alone, even after adding a sixteenth of the word. */
  lemma NibblesFit(n: u64)
    ensures NibbleCounts(n, 16) + NibbleCounts(n, 16) / 16 < TWO63
  {
    WordPowers();
    NibblesSmall(n, 16);
  }

  lemma SignedStage3(x: i64, n: u64)
    requires x == NibbleCounts(n, 16)
    ensures 0 <= AddNibbles(x) < TWO63
    ensures And64(AddNibbles(x), M4) == ByteCounts(n, 8)
  {
    var v := AddNibbles(x);
    NibblesFit(n);
    Small(v);
    MaskedAsPattern(v, v, M4);
    Stage3Word(n, v);
  }

  lemma Stage3Word(n: u64, v: nat)
    requires v == NibbleCounts(n, 16) + NibbleCounts(n, 16) / 16
    ensures BitAnd(v, M4) == ByteCounts(n, 8)
  {
    M4IsRow();
    Stage3Counts(n, 8);
  }

  lemma SignedStage4(x: i64, n: u64)
    requires x == ByteCounts(n, 8)
    ensures Wrap(AddBytes(x)) / 0x100_0000_0000_0000 == Ones(n) <= 64
  {
    var b := BytesOf(n);
    var low := TopByteSums(x, b);
  }

  /** `popcount` on every signed 64-bit value, taking arithmetic that overflows to keep the low 64 bits. */
  method PopCount(arg: i64) returns (r: int)
    ensures r == Ones(Pattern(arg))
    ensures 0 <= r <= 64
  {
    ghost var n := Pattern(arg);
    var x := arg;
    SignedStage1(x, n);
    x := Wrap(LessPairs(x));
    SignedStage2(x, n);
    Small(AddPairs(x));
    x := Wrap(AddPairs(x));
    SignedStage3(x, n);
    Small(AddNibbles(x));
    x := And64(Wrap(AddNibbles(x)), M4);
    SignedStage4(x, n);
    r := Wrap(AddBytes(x)) / 0x100_0000_0000_0000;
  }

  // ----- which arguments need no wrapping

  ghost predicate Fits(n: int) {
    -TWO63 <= n < TWO63
  }

  /** No line computes a value outside `long long`. */
  ghost predicate NoOverflow(arg: i64) {
    && Fits(LessPairs(arg))
    && var x1 := Wrap(LessPairs(arg));
    && Fits(AddPairs(x1))
    && var x2 := Wrap(AddPairs(x1));
    && Fits(AddNibbles(x2))
    && var x3 := And64(Wrap(AddNibbles(x2)), M4);
    && Fits(AddBytes(x3))
  }

  /** The subtraction overflows exactly below -2^62, ... */
  lemma LessPairsFits(x: i64)
    ensures Fits(LessPairs(x)) <==> x >= -0x4000_0000_0000_0000
  {
    var p := Pattern(x);
    var a := BitAnd(p / 2, M1);
    HalfMasked(x, p, a);
    if x < 0 {
      assert p == x + TWO64;
      HalfOfNegative(p / 2, a);
    }
  }

  /** The half of a negative word has bit 62, which `m1` keeps; with bit 61 it loses at least that one. */
  lemma HalfOfNegative(q: nat, a: nat)
    requires 0x4000_0000_0000_0000 <= q < TWO63 && a == BitAnd(q, M1)
    ensures a >= 0x4000_0000_0000_0000
    ensures q >= 0x6000_0000_0000_0000 ==> a <= q - 0x2000_0000_0000_0000
  {
    WordPowers();
    var low := M1 - 0x4000_0000_0000_0000;
    if q < 0x6000_0000_0000_0000 {
      HighBits(q, 2, q - 0x4000_0000_0000_0000, low);
    } else {
      HighBits(q, 3, q - 0x6000_0000_0000_0000, low);
    }
  }

  lemma HighBits(q: nat, h: nat, x: nat, low: nat)
    requires (h == 2 || h == 3) && x < 0x2000_0000_0000_0000 && low < 0x2000_0000_0000_0000
    requires q == 0x2000_0000_0000_0000 * h + x && M1 == 0x4000_0000_0000_0000 + low
    ensures 0x4000_0000_0000_0000 <= BitAnd(q, M1) <= 0x4000_0000_0000_0000 + x
  {
    Shl61();
    TwoBits();
    BitAndSplit(h, x, 2, low, 61);
    BitAndAtMost(x, low);
  }

  lemma Shl61()
    ensures Pow2(61) == 0x2000_0000_0000_0000
    ensures Shl(2, 61) == 0x4000_0000_0000_0000 && Shl(3, 61) == 0x6000_0000_0000_0000
  {
    WordPowers();
    ShlTimes(2, 61);
    ShlTimes(3, 61);
  }

  lemma TwoBits()
    ensures BitAnd(2, 2) == 2 && BitAnd(3, 2) == 2
  {
    assert BitAnd(1, 1) == 1;
  }

  /** ... the multiplication exactly when more than the lowest byte has ones. */
  lemma AddBytesFits(x: i64, n: u64)
    requires x == ByteCounts(n, 8)
    ensures Fits(AddBytes(x)) <==> n < 256
  {
    var r, b := n / 256, Ones(n % 256);
    ShlSmall(0);
    OnesAtMost(n % 256, 8);
    assert x == 256 * ByteCounts(r, 7) + b;
    WordPowers();
    ByteCountsZero(r, 7);
  }

  lemma {:induction false} ByteCountsZero(n: nat, k: nat)
    requires n < Power(256, k)
    ensures ByteCounts(n, k) == 0 <==> n == 0
  {
    if k > 0 {
      ByteCountsZero(n / 256, k - 1);
      OnesZero(n % 256);
    }
  }

  lemma {:induction false} OnesZero(n: nat)
    ensures Ones(n) == 0 <==> n == 0
  {
    if n > 0 {
      OnesZero(n / 2);
    }
  }

  lemma MiddleLinesFit(n: u64, x1: i64, x2: i64, x3: i64)
    requires Pattern(x1) == PairCounts(n, 32)
    requires x2 == Wrap(AddPairs(x1)) && x3 == And64(Wrap(AddNibbles(x2)), M4)
    ensures Fits(AddPairs(x1)) && Fits(AddNibbles(x2)) && x3 == ByteCounts(n, 8)
  {
    SignedStage2(x1, n);
    Small(AddPairs(x1));
    SignedStage3(x2, n);
    Small(AddNibbles(x2));
  }

  lemma SmallPattern(x: i64)
    ensures Pattern(x) < 256 <==> 0 <= x < 256
  {
  }

  /** `popcount` stays inside `long long` exactly on 0 to 255. */
  lemma OverflowFree(arg: i64)
    ensures NoOverflow(arg) <==> 0 <= arg < 256
  {
    var n := Pattern(arg);
    var x1 := Wrap(LessPairs(arg));
    var x2 := Wrap(AddPairs(x1));
    var x3 := And64(Wrap(AddNibbles(x2)), M4);
    LessPairsFits(arg);
    SignedStage1(arg, n);
    MiddleLinesFit(n, x1, x2, x3);
    AddBytesFits(x3, n);
    SmallPattern(arg);
  }

  /** The smallest argument that overflows: its counts are 256, and 256 * h01 is above 2^64. */
  lemma MultiplicationOverflows()
    ensures !NoOverflow(256) && Fits(LessPairs(256))
    ensures ByteCounts(256, 8) == 256 && !Fits(AddBytes(256))
  {
    OverflowFree(256);
    LessPairsFits(256);
    assert ByteCounts(1, 7) == 1;
  }

  /** On the lowest number the subtraction already does. */
  lemma SubtractionOverflows()
    ensures !Fits(LessPairs(-TWO63))
  {
    LessPairsFits(-TWO63);
  }
}
