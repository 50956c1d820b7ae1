/** displaybinary/displaybinary.cpp: printing the bits of a number, and reading them back. */
module BinaryDisplays {
  import opened Words
  import opened BitScans

  function Digit(bytes: nat, mask: nat): char {
    if BitAnd(bytes, mask) != 0 then '1' else '0'
  }

  // ----- two arguments: highest bit first, by recursion on the mask

  /** `mask << 1` on 64 bits */
  function ShiftedMask(mask: u64): (m: u64)
    ensures (m - 2 * mask) % TWO64 == 0
  {
    if mask < TWO63 then 2 * mask else 2 * mask - TWO64
  }

  /** The masks after whose digit a space is printed. */
  predicate EndsByte(mask: u64) {
    || mask == 0x100 || mask == 0x1_0000 || mask == 0x100_0000 || mask == 0x1_0000_0000
    || mask == 0x100_0000_0000 || mask == 0x1_0000_0000_0000 || mask == 0x100_0000_0000_0000
  }

  /** The recursion ends at the top bit alone, which every mask but zero reaches (`EndsUnlessZero`). */
  function Display(bytes: u64, mask: u64): string
    requires mask != 0
    decreases 64 - TrailingZeros(mask)
  {
    (if mask != TWO63 then ShiftProgress(mask); Display(bytes, ShiftedMask(mask)) else "")
    + [Digit(bytes, mask)] + (if EndsByte(mask) then " " else "")
  }

  /** A shift moves the lowest bit of a mask up by one, as long as there is more to it than the top bit. */
  lemma ShiftProgress(mask: u64)
    requires mask != 0 && mask != TWO63
    ensures ShiftedMask(mask) != 0
    ensures TrailingZeros(ShiftedMask(mask)) == TrailingZeros(mask) + 1 < 64
  {
    var low := if mask < TWO63 then mask else mask - TWO63;
    if mask >= TWO63 {
      WithoutTopBit(mask, low);
    }
    Doubled(low, ShiftedMask(mask));
    BelowTopBit(low);
  }

  lemma BelowTopBit(low: nat)
    requires 0 < low < TWO63
    ensures TrailingZeros(low) < 63
  {
    WordPowers();
    TrailingZerosOf(low, 63);
  }

  lemma WithoutTopBit(mask: u64, low: nat)
    requires low > 0 && mask == TWO63 + low
    ensures TrailingZeros(mask) == TrailingZeros(low)
  {
    WordPowers();
    ShlMultiplies(63);
    ZerosSplit(mask, 1, low, 63);
  }

  lemma Doubled(n: nat, m: nat)
    requires n > 0 && m == 2 * n
    ensures TrailingZeros(m) == TrailingZeros(n) + 1
  {
  }

  lemma TopMask(mask: u64)
    requires mask != 0
    ensures TrailingZeros(mask) <= 63
    ensures TrailingZeros(mask) == 63 <==> mask == TWO63
  {
    if mask != TWO63 {
      ShiftProgress(mask);
    } else {
      TopBitZeros();
    }
  }

  lemma TopBitZeros()
    ensures TrailingZeros(TWO63) == 63
  {
    WordPowers();
    ShlMultiplies(63);
    ZerosSplit(TWO63, 1, 0, 63);
  }

  /** The mask `n` calls further down. */
  function MaskAfter(mask: u64, n: nat): u64
    decreases n
  {
    if n == 0 then mask else MaskAfter(ShiftedMask(mask), n - 1)
  }

  lemma {:induction false} ZeroStays(n: nat)
    ensures MaskAfter(0, n) == 0
  {
    if n > 0 {
      ZeroStays(n - 1);
    }
  }

  /** Every mask but zero ends the recursion, at one depth: when its lowest bit has become the top one. */
  lemma {:induction false} EndsAtDepth(mask: u64, n: nat)
    requires mask != 0
    ensures MaskAfter(mask, n) == TWO63 <==> n == 63 - TrailingZeros(mask)
    decreases n
  {
    TopMask(mask);
    if n > 0 {
      if mask == TWO63 {
        ZeroStays(n - 1);
      } else {
        ShiftProgress(mask);
        EndsAtDepth(ShiftedMask(mask), n - 1);
      }
    }
  }

  /** The recursion ends exactly for the masks that are not zero. */
  lemma EndsUnlessZero(mask: u64)
    ensures (exists n :: MaskAfter(mask, n) == TWO63) <==> mask != 0
  {
    if mask == 0 {
      forall n: nat
        ensures MaskAfter(0, n) != TWO63
      {
        ZeroStays(n);
      }
    } else {
      TopMask(mask);
      EndsAtDepth(mask, 63 - TrailingZeros(mask));
    }
  }

  // ----- reading: spaces are skipped

  /** Highest digit first, after having read `acc`. */
  function ReadHighFirst(s: string, acc: nat): nat {
    if s == "" then acc
    else if s[0] == ' ' then ReadHighFirst(s[1..], acc)
    else ReadHighFirst(s[1..], 2 * acc + if s[0] == '1' then 1 else 0)
  }

  /** Lowest digit first. */
  function ReadLowFirst(s: string): nat {
    if s == "" then 0
    else if s[0] == ' ' then ReadLowFirst(s[1..])
    else (if s[0] == '1' then 1 else 0) + 2 * ReadLowFirst(s[1..])
  }

  lemma {:induction false} ReadHighFirstAppend(s: string, t: string, acc: nat)
    ensures ReadHighFirst(s + t, acc) == ReadHighFirst(t, ReadHighFirst(s, acc))
    decreases |s|
  {
    if s == "" {
      assert s + t == t;
    } else {
      assert (s + t)[1..] == s[1..] + t;
      ReadHighFirstAppend(s[1..], t, if s[0] == ' ' then acc else 2 * acc + if s[0] == '1' then 1 else 0);
    }
  }

  // ----- what any mask prints

  function WithoutSpaces(s: string): string {
    if s == "" then "" else (if s[0] == ' ' then "" else [s[0]]) + WithoutSpaces(s[1..])
  }

  lemma {:induction false} WithoutSpacesAppend(s: string, t: string)
    ensures WithoutSpaces(s + t) == WithoutSpaces(s) + WithoutSpaces(t)
    decreases |s|
  {
    if s == "" {
      assert s + t == t;
    } else {
      assert (s + t)[1..] == s[1..] + t;
      WithoutSpacesAppend(s[1..], t);
    }
  }

  lemma LastDigit(s: string, before: string, d: char, space: string)
    requires s == before + [d] + space && d != ' ' && (space == "" || space == " ")
    ensures WithoutSpaces(s) == WithoutSpaces(before) + [d]
  {
    WithoutSpacesAppend(before + [d], space);
    WithoutSpacesAppend(before, [d]);
    assert [d][1..] == "" && " "[1..] == "";
  }

  /** One digit for each mask until the top bit stands alone, the last one for `mask` itself, each saying
      whether the number has a bit in common with its mask. */
  ghost predicate DigitsFor(t: string, v: u64, mask: u64)
    requires mask != 0
  {
    && |t| == 64 - TrailingZeros(mask)
    && forall i | 0 <= i < |t| :: t[|t| - 1 - i] == if BitAnd(v, MaskAfter(mask, i)) != 0 then '1' else '0'
  }

  lemma OneMoreDigit(t: string, v: u64, mask: u64, next: u64, d: char)
    requires mask != 0 && next != 0 && next == ShiftedMask(mask)
    requires TrailingZeros(next) == TrailingZeros(mask) + 1
    requires DigitsFor(t, v, next) && d == if BitAnd(v, mask) != 0 then '1' else '0'
    ensures DigitsFor(t + [d], v, mask)
  {
    var u := t + [d];
    forall i | 0 <= i < |u|
      ensures u[|u| - 1 - i] == if BitAnd(v, MaskAfter(mask, i)) != 0 then '1' else '0'
    {
      if i > 0 {
        assert MaskAfter(mask, i) == MaskAfter(next, i - 1);
        assert u[|u| - 1 - i] == t[|t| - 1 - (i - 1)];
      }
    }
  }

  /** What is printed from any mask but zero. */
  lemma {:induction false} DisplayDigits(v: u64, mask: u64)
    requires mask != 0
    ensures DigitsFor(WithoutSpaces(Display(v, mask)), v, mask)
    decreases 64 - TrailingZeros(mask)
  {
    var d, space := Digit(v, mask), if EndsByte(mask) then " " else "";
    if mask == TWO63 {
      assert WithoutSpaces("") + [d] == [d];
      LastDigit(Display(v, mask), "", d, space);
      TopDigit(v, d);
    } else {
      ShiftProgress(mask);
      var next := ShiftedMask(mask);
      var before := Display(v, next);
      LastDigit(Display(v, mask), before, d, space);
      DisplayDigits(v, next);
      OneMoreDigit(WithoutSpaces(before), v, mask, next, d);
    }
  }

  lemma TopDigit(v: u64, d: char)
    requires d == Digit(v, TWO63)
    ensures DigitsFor([d], v, TWO63)
  {
    TopBitZeros();
    assert MaskAfter(TWO63, 0) == TWO63;
  }

  // ----- round trip and layout of the recursive printer

  lemma SingleBitMasks(k: nat)
    requires k < 64
    ensures Pow2(k) <= TWO63
    ensures Pow2(k) == TWO63 <==> k == 63
    ensures k < 63 ==> ShiftedMask(Pow2(k)) == Pow2(k + 1)
  {
    WordPowers();
    if k < 63 {
      PowersGrow(k, 63);
    }
  }

  lemma BytePowers()
    ensures Pow2(8) == 0x100 && Pow2(16) == 0x1_0000 && Pow2(24) == 0x100_0000 && Pow2(32) == 0x1_0000_0000
    ensures Pow2(40) == 0x100_0000_0000 && Pow2(48) == 0x1_0000_0000_0000 && Pow2(56) == 0x100_0000_0000_0000
  {
    ByteUp(0);
    ByteUp(8);
    ByteUp(16);
    ByteUp(24);
    ByteUp(32);
    ByteUp(40);
    ByteUp(48);
  }

  lemma ByteUp(k: nat)
    ensures Pow2(k + 8) == 0x100 * Pow2(k)
  {
    assert Pow2(k + 8) == 4 * Pow2(k + 6) && Pow2(k + 6) == 4 * Pow2(k + 4);
    assert Pow2(k + 4) == 4 * Pow2(k + 2) && Pow2(k + 2) == 4 * Pow2(k);
  }

  lemma EndsByteAt(k: nat)
    requires k < 64
    ensures Pow2(k) < TWO64
    ensures EndsByte(Pow2(k)) <==> k % 8 == 0 && k > 0
  {
    SingleBitMasks(k);
    BytePowers();
    IsPower(k, 8, 0x100);
    IsPower(k, 16, 0x1_0000);
    IsPower(k, 24, 0x100_0000);
    IsPower(k, 32, 0x1_0000_0000);
    IsPower(k, 40, 0x100_0000_0000);
    IsPower(k, 48, 0x1_0000_0000_0000);
    IsPower(k, 56, 0x100_0000_0000_0000);
    MultiplesOf8(k);
  }

  lemma MultiplesOf8(k: nat)
    requires k < 64
    ensures k % 8 == 0 && k > 0 <==> k == 8 || k == 16 || k == 24 || k == 32 || k == 40 || k == 48 || k == 56
  {
  }

  lemma IsPower(k: nat, j: nat, p: nat)
    requires p == Pow2(j)
    ensures Pow2(k) == p <==> k == j
  {
    if k < j {
      PowersGrow(k, j);
    } else if j < k {
      PowersGrow(j, k);
    }
  }

  /** One level of the recursion. */
  lemma DisplayStep(v: u64, k: nat)
    requires k < 64
    ensures 0 < Pow2(k) < TWO64 && (k < 63 ==> Pow2(k + 1) < TWO64)
    ensures Display(v, Pow2(k)) == (if k < 63 then Display(v, Pow2(k + 1)) else "")
                                   + ([Digit(v, Pow2(k))] + if k % 8 == 0 && k > 0 then " " else "")
  {
    SingleBitMasks(k);
    EndsByteAt(k);
    if k < 63 {
      SingleBitMasks(k + 1);
    }
  }

  lemma TopBit(v: u64)
    ensures Shr(v, 63) < 2
  {
    WordPowers();
    ShrBound(v, 63, 64);
    assert Pow2(1) == 2;
  }

  /** The digits from bit 63 down to bit `k` are those of `v >> k`. */
  lemma {:induction false} DisplayReads(v: u64, k: nat)
    requires k < 64
    ensures 0 < Pow2(k) < TWO64
    ensures ReadHighFirst(Display(v, Pow2(k)), 0) == Shr(v, k)
    decreases 64 - k
  {
    DisplayStep(v, k);
    BitAndSingle(v, k);
    var before, d := if k < 63 then Display(v, Pow2(k + 1)) else "", Digit(v, Pow2(k));
    if k < 63 {
      DisplayReads(v, k + 1);
    } else {
      TopBit(v);
    }
    ReadDigit(before, d, if k % 8 == 0 && k > 0 then " " else "");
  }

  lemma ReadDigit(before: string, d: char, space: string)
    requires d != ' ' && (space == "" || space == " ")
    ensures ReadHighFirst(before + ([d] + space), 0) == 2 * ReadHighFirst(before, 0) + if d == '1' then 1 else 0
  {
    var acc := ReadHighFirst(before, 0);
    ReadHighFirstAppend(before, [d] + space, 0);
    ReadHighFirstAppend([d], space, acc);
    ReadOne(d, acc);
    ReadOne(d, 2 * acc + if d == '1' then 1 else 0);
  }

  lemma ReadOne(c: char, acc: nat)
    ensures ReadHighFirst([c], acc) == if c == ' ' then acc else 2 * acc + if c == '1' then 1 else 0
    ensures ReadHighFirst(" ", acc) == acc
  {
    assert [c][1..] == "" && " "[1..] == "";
  }

  /** A text in groups of eight binary digits, single spaces between. */
  ghost predicate Grouped(s: string) {
    forall i | 0 <= i < |s| :: if i % 9 == 8 then s[i] == ' ' else s[i] == '0' || s[i] == '1'
  }

  lemma {:induction false} DisplayLayout(v: u64, k: nat)
    requires k < 64
    ensures 0 < Pow2(k) < TWO64
    ensures Grouped(Display(v, Pow2(k)))
    ensures |Display(v, Pow2(k))| == 64 - k + if k == 0 then 7 else (64 - k) / 8
    decreases 64 - k
  {
    DisplayStep(v, k);
    if k == 63 {
      LayoutStep("", Digit(v, Pow2(k)), 0, Display(v, Pow2(k)));
    } else {
      DisplayLayout(v, k + 1);
      LayoutStep(Display(v, Pow2(k + 1)), Digit(v, Pow2(k)), 63 - k, Display(v, Pow2(k)));
    }
  }

  /** The text after `n` digits, one more digit, and a space if that ends a byte but the last. */
  lemma LayoutStep(before: string, d: char, n: nat, after: string)
    requires Grouped(before) && |before| == n + n / 8 && n < 64
    requires d == '0' || d == '1'
    requires after == before + ([d] + if (63 - n) % 8 == 0 && n < 63 then " " else "")
    ensures Grouped(after) && |after| == n + 1 + if n == 63 then 7 else (n + 1) / 8
  {
    BitsPrinted(n);
    GroupedAppend(before, d);
    if (63 - n) % 8 == 0 && n < 63 {
      assert n % 8 == 7;
      GroupedAppend(before + [d], ' ');
      assert after == before + [d] + [' '];
    } else {
      assert after == before + [d];
    }
  }

  lemma GroupedAppend(s: string, c: char)
    requires Grouped(s)
    requires if |s| % 9 == 8 then c == ' ' else c == '0' || c == '1'
    ensures Grouped(s + [c])
  {
  }

  /** After `n` digits and a space behind every eighth, where the next digit goes. */
  lemma BitsPrinted(n: nat)
    ensures (n + n / 8) % 9 == n % 8
    ensures n % 8 == 7 ==> (n + 1 + n / 8) % 9 == 8 && (n + 1) / 8 == n / 8 + 1
    ensures n % 8 != 7 ==> (n + 1) / 8 == n / 8
  {
    var q, r := n / 8, n % 8;
    assert n + n / 8 == 9 * q + r;
  }

  /** What `display(v, 1)` prints: 64 digits in eight groups of eight, and reading them gives `v`. */
  lemma DisplayRoundTrip(v: u64)
    ensures ReadHighFirst(Display(v, 1), 0) == v
    ensures Grouped(Display(v, 1)) && |Display(v, 1)| == 64 + 7
  {
    assert Pow2(0) == 1;
    DisplayReads(v, 0);
    DisplayLayout(v, 0);
  }

  // ----- one argument: lowest bit first, by a loop over a 32-bit `int`

  type i32 = x: int | -0x8000_0000 <= x < 0x8000_0000

  function Pattern32(x: i32): (p: u32)
    ensures (p - x) % 0x1_0000_0000 == 0
  {
    if x < 0 then x + 0x1_0000_0000 else x
  }

  ghost function DigitCount(s: string): nat {
    if s == "" then 0 else (if s[0] == ' ' then 0 else 1) + DigitCount(s[1..])
  }

  lemma {:induction false} ReadLowFirstAppend(s: string, c: char)
    ensures ReadLowFirst(s + [c]) == ReadLowFirst(s) + if c == '1' then Pow2(DigitCount(s)) else 0
    ensures DigitCount(s + [c]) == DigitCount(s) + if c == ' ' then 0 else 1
    decreases |s|
  {
    if s == "" {
      assert s + [c] == [c] && [c][1..] == "" && Pow2(0) == 1;
    } else {
      assert (s + [c])[1..] == s[1..] + [c];
      ReadLowFirstAppend(s[1..], c);
    }
  }

  lemma {:induction false} ShlAdds(q: nat, b: nat, i: nat)
    requires b < 2
    ensures Shl(2 * q + b, i) == Shl(q, i + 1) + if b == 1 then Pow2(i) else 0
  {
    if i > 0 {
      ShlAdds(q, b, i - 1);
    }
  }

  /** What the loop has printed before bit `i`, and what is still to come. */
  ghost predicate Printed(v: nat, text: string, i: nat) {
    && DigitCount(text) == i
    && v == ReadLowFirst(text) + Shl(Shr(v, i), i)
    && Grouped(text) && |text| == i + if i == 0 then 0 else (i - 1) / 8
  }

  lemma PrintSpace(v: nat, text: string, i: nat)
    requires Printed(v, text, i) && i % 8 == 0 && i > 0
    ensures ReadLowFirst(text + " ") == ReadLowFirst(text) && DigitCount(text + " ") == i
    ensures Grouped(text + " ") && |text + " "| == i + i / 8
  {
    BitsPrinted(i - 1);
    ReadLowFirstAppend(text, ' ');
    GroupedAppend(text, ' ');
  }

  lemma PrintDigit(v: nat, text: string, i: nat, c: char)
    requires DigitCount(text) == i && v == ReadLowFirst(text) + Shl(Shr(v, i), i)
    requires Grouped(text) && |text| == i + i / 8
    requires c == if Shr(v, i) % 2 == 1 then '1' else '0'
    ensures Printed(v, text + [c], i + 1)
  {
    var q, b := Shr(v, i + 1), Shr(v, i) % 2;
    assert Shr(v, i) == 2 * q + b;
    ShlAdds(q, b, i);
    ReadLowFirstAppend(text, c);
    BitsPrinted(i);
    GroupedAppend(text, c);
  }

  /** The line printed for `aByte` reads back, lowest digit first, as `aByte` modulo 2^32. */
  method DisplayLoop(aByte: i32) returns (line: string)
    ensures |line| == 32 + 3 + 1 && line[35] == '\n'
    ensures Grouped(line[..35]) && ReadLowFirst(line[..35]) < 0x1_0000_0000
    ensures (ReadLowFirst(line[..35]) - aByte) % 0x1_0000_0000 == 0
  {
    var v := Pattern32(aByte);
    line := "";
    assert Shl(v, 0) == v;
    for i := 0 to 32
      invariant Printed(v, line, i)
    {
      if i % 8 == 0 && i != 0 {
        PrintSpace(v, line, i);
        line := line + " ";
      }
      BitAndSingle(v, i);
      PrintDigit(v, line, i, Digit(v, Pow2(i)));
      line := line + [Digit(v, Pow2(i))];
    }
    NothingLeft(v);
    assert (line + "\n")[..35] == line;
    line := line + "\n";
  }

  lemma NothingLeft(v: u32)
    ensures Shl(Shr(v, 32), 32) == 0
  {
    WordPowers();
    ShrBound(v, 32, 32);
    ShlMultiplies(32);
    assert Pow2(0) == 1;
  }
}
