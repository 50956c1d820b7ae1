/** Machine words as integers: bit patterns, two's complement, and the arithmetic of powers of two. */
module Words {

  const TWO63 := 0x8000_0000_0000_0000
  const TWO64 := 0x1_0000_0000_0000_0000

  type u8 = x: int | 0 <= x < 0x100
  type u16 = x: int | 0 <= x < 0x1_0000
  type u32 = x: int | 0 <= x < 0x1_0000_0000
  type u64 = x: int | 0 <= x < TWO64
  type i64 = x: int | -TWO63 <= x < TWO63

  /** What keeping the low 64 bits of a result as a signed word gives. */
  function Wrap(n: int): (x: i64)
    ensures (x - n) % TWO64 == 0
  {
    if n % TWO64 < TWO63 then n % TWO64 else n % TWO64 - TWO64
  }

  /** The 64 bits of a signed word, read as an unsigned number. */
  function Pattern(x: i64): (p: u64)
    ensures (p - x) % TWO64 == 0
  {
    if x < 0 then x + TWO64 else x
  }

  function Power(b: nat, k: nat): nat {
    if k == 0 then 1 else b * Power(b, k - 1)
  }

  function Pow2(k: nat): (p: nat)
    ensures p > 0
  {
    if k == 0 then 1 else 2 * Pow2(k - 1)
  }

  /** `a << j`, as a number */
  function Shl(a: nat, j: nat): nat {
    if j == 0 then a else 2 * Shl(a, j - 1)
  }

  lemma ShlSmall(a: nat)
    ensures Shl(a, 1) == 2 * a && Shl(a, 2) == 4 * a && Shl(a, 4) == 16 * a && Shl(a, 8) == 256 * a
    ensures Pow2(1) == 2 && Pow2(2) == 4 && Pow2(4) == 16 && Pow2(8) == 256
  {
    assert Shl(a, 2) == 2 * Shl(a, 1);
    assert Shl(a, 4) == 4 * Shl(a, 2);
    assert Shl(a, 6) == 4 * Shl(a, 4);
    assert Shl(a, 8) == 4 * Shl(a, 6);
  }

  lemma {:induction false} ShlMultiplies(j: nat)
    ensures Shl(0, j) == 0 && Shl(1, j) == Pow2(j) && Shl(3, j) == 3 * Pow2(j)
  {
    if j > 0 {
      ShlMultiplies(j - 1);
    }
  }

  lemma {:induction false} PowersOf256(k: nat)
    ensures Power(4, 4 * k) == Power(16, 2 * k) == Pow2(8 * k) == Power(256, k)
  {
    if k > 0 {
      PowersOf256(k - 1);
      assert Power(4, 4 * k) == 16 * Power(4, 4 * k - 2) && Power(4, 4 * k - 2) == 16 * Power(4, 4 * k - 4);
      assert Power(16, 2 * k) == 256 * Power(16, 2 * k - 2);
      assert Pow2(8 * k) == 16 * Pow2(8 * k - 4) by {
        assert Pow2(8 * k) == 4 * Pow2(8 * k - 2);
      }
      assert Pow2(8 * k - 4) == 16 * Pow2(8 * k - 8) by {
        assert Pow2(8 * k - 4) == 4 * Pow2(8 * k - 6);
      }
    }
  }

  /** The word sizes in play. */
  lemma WordPowers()
    ensures Power(4, 32) == Power(16, 16) == Power(256, 8) == Pow2(64) == TWO64
    ensures Pow2(63) == TWO63 && Pow2(62) == 0x4000_0000_0000_0000 && Pow2(61) == 0x2000_0000_0000_0000
    ensures Pow2(8) == 0x100 && Pow2(16) == 0x1_0000 && Pow2(32) == 0x1_0000_0000
  {
    PowersOf256(1);
    PowersOf256(2);
    PowersOf256(4);
    PowersOf256(8);
    var p1 := Power(256, 1);
    assert p1 == 256;
    var p2 := Power(256, 2);
    assert p2 == 256 * p1;
    var p3 := Power(256, 3);
    assert p3 == 256 * p2;
    var p4 := Power(256, 4);
    assert p4 == 256 * p3;
    var p5 := Power(256, 5);
    assert p5 == 256 * p4;
    var p6 := Power(256, 6);
    assert p6 == 256 * p5;
    var p7 := Power(256, 7);
    assert p7 == 256 * p6;
    assert Power(256, 8) == 256 * p7;
    assert Pow2(64) == 2 * Pow2(63) && Pow2(63) == 2 * Pow2(62) && Pow2(62) == 2 * Pow2(61);
  }

  /** `&` on bit patterns of any length */
  function BitAnd(a: nat, b: nat): nat
    decreases a
  {
    if a == 0 || b == 0 then 0
    else (if a % 2 == 1 && b % 2 == 1 then 1 else 0) + 2 * BitAnd(a / 2, b / 2)
  }

  /** The number of one bits, counted one by one. */
  function Ones(n: nat): nat {
    if n == 0 then 0 else n % 2 + Ones(n / 2)
  }

  /** `&` of signed words works on their patterns. */
  function And64(a: i64, b: i64): i64 {
    Wrap(BitAnd(Pattern(a), Pattern(b)))
  }

  lemma {:induction false} BitAndAtMost(a: nat, b: nat)
    ensures BitAnd(a, b) <= a && BitAnd(a, b) <= b
    decreases a
  {
    if a != 0 && b != 0 {
      BitAndAtMost(a / 2, b / 2);
    }
  }

  lemma BitAndUnfold(a: nat, b: nat)
    ensures BitAnd(a, b) == (if a % 2 == 1 && b % 2 == 1 then 1 else 0) + 2 * BitAnd(a / 2, b / 2)
  {
  }

  lemma BitAndHalf(n: nat, m: nat, p: nat, x: nat, r: nat, y: nat, s: nat)
    requires n == 2 * p + x && m == 2 * r + y
    requires BitAnd(p + x / 2, r + y / 2) == s + BitAnd(x / 2, y / 2)
    ensures BitAnd(n, m) == 2 * s + BitAnd(x, y)
  {
    BitAndUnfold(n, m);
    BitAndUnfold(x, y);
    assert n / 2 == p + x / 2 && m / 2 == r + y / 2;
  }

  /** `&` works on the low `j` bits and on the rest separately. */
  lemma {:induction false} BitAndSplit(a: nat, x: nat, b: nat, y: nat, j: nat)
    requires x < Pow2(j) && y < Pow2(j)
    ensures BitAnd(Shl(a, j) + x, Shl(b, j) + y) == Shl(BitAnd(a, b), j) + BitAnd(x, y)
    decreases j
  {
    var c := BitAnd(a, b);
    if j == 0 {
      assert Shl(a, 0) == a && Shl(b, 0) == b && Shl(c, 0) == c && x == y == 0;
    } else {
      BitAndSplit(a, x / 2, b, y / 2, j - 1);
      SplitStep(a, x, b, y, c, j);
    }
  }

  lemma SplitStep(a: nat, x: nat, b: nat, y: nat, c: nat, j: nat)
    requires j > 0
    requires BitAnd(Shl(a, j - 1) + x / 2, Shl(b, j - 1) + y / 2) == Shl(c, j - 1) + BitAnd(x / 2, y / 2)
    ensures BitAnd(Shl(a, j) + x, Shl(b, j) + y) == Shl(c, j) + BitAnd(x, y)
  {
    BitAndHalf(Shl(a, j) + x, Shl(b, j) + y, Shl(a, j - 1), x, Shl(b, j - 1), y, Shl(c, j - 1));
  }

  /** A mask of `j` low ones keeps a number of `j` bits. */
  lemma {:induction false} BitAndFull(x: nat, j: nat)
    requires x < Pow2(j)
    ensures BitAnd(x, Pow2(j) - 1) == x
    decreases j
  {
    var m := Pow2(j) - 1;
    BitAndUnfold(x, m);
    if j > 0 {
      BitAndFull(x / 2, j - 1);
      assert m == 2 * (Pow2(j - 1) - 1) + 1;
    }
  }

  /** Bits above a mask do not matter. */
  lemma {:induction false} BitAndIgnoresHigh(n: nat, a: nat, c: nat, m: nat, j: nat)
    requires m < Pow2(j) && n == a + Shl(c, j)
    ensures BitAnd(n, m) == BitAnd(a, m)
    decreases j
  {
    if j > 0 {
      BitAndIgnoresHigh(n / 2, a / 2, c, m / 2, j - 1);
      BitAndUnfold(n, m);
      BitAndUnfold(a, m);
    }
  }

  /** The ones of a number are those of its low `j` bits and those of the rest. */
  lemma {:induction false} OnesSplit(a: nat, x: nat, j: nat)
    requires x < Pow2(j)
    ensures Ones(Shl(a, j) + x) == Ones(a) + Ones(x)
    decreases j
  {
    if j > 0 {
      var p := Shl(a, j - 1);
      OnesSplit(a, x / 2, j - 1);
      assert (2 * p + x) / 2 == p + x / 2 && (2 * p + x) % 2 == x % 2;
    }
  }

  lemma {:induction false} OnesAtMost(n: nat, j: nat)
    requires n < Pow2(j)
    ensures Ones(n) <= j
  {
    if n > 0 {
      OnesAtMost(n / 2, j - 1);
    }
  }

  lemma {:induction false} ShlTimes(a: nat, j: nat)
    ensures Shl(a, j) == a * Pow2(j)
  {
    if j > 0 {
      ShlTimes(a, j - 1);
      assert a * Pow2(j) == 2 * (a * Pow2(j - 1));
    }
  }

  /** A mask of `j` low ones takes the remainder. */
  lemma BitAndLow(n: nat, j: nat)
    ensures BitAnd(n, Pow2(j) - 1) == n % Pow2(j)
  {
    var p := Pow2(j);
    var q, r := Division(n, p);
    ShlTimes(q, j);
    BitAndIgnoresHigh(n, r, q, p - 1, j);
    BitAndFull(r, j);
  }

  lemma Division(n: nat, p: nat) returns (q: nat, r: nat)
    requires p > 0
    ensures n == q * p + r && r == n % p < p
  {
    q, r := n / p, n % p;
  }

  /** `n >> k`, as a number */
  function Shr(n: nat, k: nat): nat {
    if k == 0 then n else Shr(n, k - 1) / 2
  }

  lemma {:induction false} ShrHalf(n: nat, k: nat)
    ensures Shr(n / 2, k) == Shr(n, k + 1)
  {
    if k > 0 {
      ShrHalf(n, k - 1);
    }
  }

  lemma {:induction false} ShrBound(n: nat, k: nat, j: nat)
    requires n < Pow2(j) && k <= j
    ensures Shr(n, k) < Pow2(j - k)
  {
    if k > 0 {
      ShrBound(n, k - 1, j);
    }
  }

  /** Testing a number against a mask of one bit. */
  lemma {:induction false} BitAndSingle(n: nat, k: nat)
    ensures BitAnd(n, Pow2(k)) != 0 <==> Shr(n, k) % 2 == 1
    decreases k
  {
    BitAndUnfold(n, Pow2(k));
    if k > 0 {
      BitAndSingle(n / 2, k - 1);
      ShrHalf(n, k - 1);
    }
  }

  lemma {:induction false} PowersGrow(lo: nat, hi: nat)
    requires lo < hi
    ensures Pow2(lo) < Pow2(hi)
  {
    if hi > lo + 1 {
      PowersGrow(lo, hi - 1);
    }
  }
}
