/** QuickSort.cpp, `quickSort`: Hoare partition in place, then recursion on both sides. */
module QuickSorts {
  import opened Words

  ghost predicate Sorted(s: seq<int>, left: int, right: int)
    requires 0 <= left && right < |s|
  {
    forall a, b | left <= a < b <= right :: s[a] <= s[b]
  }

  /** `t` is `s` with the elements from `left` to `right` (inclusive) permuted and the rest in place. */
  ghost predicate Rearranged(s: seq<int>, t: seq<int>, left: int, right: int) {
    && |s| == |t| && 0 <= left <= right + 1 <= |s|
    && s[..left] == t[..left] && s[right + 1..] == t[right + 1..]
    && multiset(s[left..right + 1]) == multiset(t[left..right + 1])
  }

  lemma Widen(s: seq<int>, t: seq<int>, left: int, l: int, r: int, right: int)
    requires Rearranged(s, t, l, r)
    requires 0 <= left <= l && r <= right < |s|
    ensures Rearranged(s, t, left, right)
  {
    Slices(s, left, l, r, right);
    Slices(t, left, l, r, right);
  }

  lemma Slices(s: seq<int>, left: int, l: int, r: int, right: int)
    requires 0 <= left <= l <= r + 1 <= right + 1 <= |s|
    ensures s[left..right + 1] == s[..l][left..] + s[l..r + 1] + s[r + 1..][..right - r]
    ensures s[..left] == s[..l][..left] && s[right + 1..] == s[r + 1..][right - r..]
  {
    Cut(s, left, l, right + 1);
    Cut(s, l, r + 1, right + 1);
    var a, b, c := s[left..l], s[l..r + 1], s[r + 1..right + 1];
    assert s[..l][left..] == a && s[r + 1..][..right - r] == c;
    assert a + (b + c) == a + b + c;
  }

  lemma Cut(s: seq<int>, i: int, j: int, k: int)
    requires 0 <= i <= j <= k <= |s|
    ensures s[i..k] == s[i..j] + s[j..k]
  {
  }

  lemma Compose(s: seq<int>, t: seq<int>, u: seq<int>, left: int, right: int)
    requires Rearranged(s, t, left, right) && Rearranged(t, u, left, right)
    ensures Rearranged(s, u, left, right)
  {
  }

  /** Outside the range the elements are the same, one by one. */
  lemma OthersStay(s: seq<int>, t: seq<int>, left: int, right: int)
    requires Rearranged(s, t, left, right)
    ensures forall k | 0 <= k < left || right < k < |s| :: t[k] == s[k]
  {
    assert forall k | 0 <= k < left :: t[k] == t[..left][k] == s[k];
    assert forall k | right < k < |s| :: t[k] == t[right + 1..][k - right - 1] == s[k];
  }

  /** A rearranged range holds nothing that was not there before. */
  lemma NothingNew(s: seq<int>, t: seq<int>, left: int, right: int)
    requires Rearranged(s, t, left, right)
    ensures forall k | left <= k <= right :: t[k] in s[left..right + 1]
  {
    var a, b := s[left..right + 1], t[left..right + 1];
    forall k | left <= k <= right
      ensures t[k] in a
    {
      assert t[k] == b[k - left];
      assert t[k] in multiset(b);
      assert t[k] in multiset(a);
    }
  }

  lemma SwapRearranges(s: seq<int>, i: int, j: int)
    requires 0 <= i <= j < |s|
    ensures Rearranged(s, s[i := s[j]][j := s[i]], i, j)
  {
    var t := s[i := s[j]][j := s[i]];
    if i < j {
      assert s[i..j + 1] == [s[i]] + s[i + 1..j] + [s[j]];
      assert t[i..j + 1] == [s[j]] + s[i + 1..j] + [s[i]];
    } else {
      assert s == t;
    }
  }

  /** Everything from `left` to `j` is at most `pivot`, everything from `i` to `right` at least, and
      whatever lies between is the pivot. */
  ghost predicate Split(s: seq<int>, left: int, right: int, i: int, j: int, pivot: int)
    requires 0 <= left <= right < |s|
  {
    && left - 1 <= j < right && left < i <= right + 1 && 1 <= i - j <= 2
    && (forall k | left <= k <= j :: s[k] <= pivot)
    && (forall k | i <= k <= right :: s[k] >= pivot)
    && (forall k | j < k < i :: s[k] == pivot)
  }

  /** The scan from the left. It checks no bounds: some `stop` on its way must hold it. */
  method ScanUp(arr: array<int>, start: int, pivot: int, ghost stop: int) returns (i: int, comparisons: nat)
    requires 0 <= start <= stop < arr.Length && arr[stop] >= pivot
    ensures start <= i <= stop && arr[i] >= pivot
    ensures forall k | start <= k < i :: arr[k] < pivot
    ensures comparisons == i - start + 1
  {
    i, comparisons := start, 1;
    while arr[i] < pivot
      invariant start <= i <= stop
      invariant forall k | start <= k < i :: arr[k] < pivot
      invariant comparisons == i - start + 1
      decreases stop - i
    {
      i, comparisons := i + 1, comparisons + 1;
    }
  }

  /** The scan from the right, held by some `stop` below. */
  method ScanDown(arr: array<int>, start: int, pivot: int, ghost stop: int) returns (j: int, comparisons: nat)
    requires 0 <= stop <= start < arr.Length && arr[stop] <= pivot
    ensures stop <= j <= start && arr[j] <= pivot
    ensures forall k | j < k <= start :: arr[k] > pivot
    ensures comparisons == start - j + 1
  {
    j, comparisons := start, 1;
    while arr[j] > pivot
      invariant stop <= j <= start
      invariant forall k | j < k <= start :: arr[k] > pivot
      invariant comparisons == start - j + 1
      decreases j - stop
    {
      j, comparisons := j - 1, comparisons + 1;
    }
  }

  method Swap(arr: array<int>, i: int, j: int)
    requires 0 <= i <= j < arr.Length
    modifies arr
    ensures arr[..] == old(arr[..])[i := old(arr[j])][j := old(arr[i])]
  {
    var tmp := arr[i];
    arr[i] := arr[j];
    arr[j] := tmp;
  }

  /** What a round of the partition has established once the indices are at `i` and `j`. */
  ghost predicate Parting(s: seq<int>, left: int, right: int, i: int, j: int, pivot: int)
    requires 0 <= left <= right < |s|
  {
    && left <= i <= right + 1 && left - 1 <= j <= right
    && (forall k | left <= k < i :: s[k] <= pivot)
    && (forall k | j < k <= right :: s[k] >= pivot)
  }

  lemma SwapStep(s0: seq<int>, s: seq<int>, left: int, right: int, i: int, j: int, pivot: int)
    requires 0 <= left <= right < |s| && Parting(s, left, right, i, j, pivot)
    requires i <= j && s[j] <= pivot <= s[i]
    requires Rearranged(s0, s, left, right)
    ensures var t := s[i := s[j]][j := s[i]];
            Rearranged(s0, t, left, right) && Parting(t, left, right, i + 1, j - 1, pivot)
  {
    var t := s[i := s[j]][j := s[i]];
    SwapRearranges(s, i, j);
    Widen(s, t, left, i, j, right);
    Compose(s0, s, t, left, right);
  }

  /** The partition loop. What stops the scans is the pivot itself until the first swap, and
      afterwards the elements already swapped across.
      Every comparison but the last ones of a scan moves an index, which bounds their number. */
  method Partition(arr: array<int>, left: int, right: int) returns (i: int, j: int, comparisons: nat)
    requires 0 <= left <= right < arr.Length
    modifies arr
    ensures Rearranged(old(arr[..]), arr[..], left, right)
    ensures Split(arr[..], left, right, i, j, old(arr[(left + right) / 2]))
    ensures comparisons == (right - left) + (i - j) || (i - j == 1 && comparisons == (right - left) + 3)
  {
    i, j, comparisons := left, right, 0;
    var m := (left + right) / 2;
    var pivot := arr[m];
    ghost var missed := 0;  // 2 once a round has ended without a swap
    while i <= j
      invariant Parting(arr[..], left, right, i, j, pivot) && i - j <= 2
      invariant (i == left && j == right && arr[m] == pivot && missed == 0) || (left < i && j < right)
      invariant Rearranged(old(arr[..]), arr[..], left, right)
      invariant missed == 0 || (missed == 2 && i - j == 1)
      invariant comparisons == (i - left) + (right - j) + missed
      decreases j - i, 2 - missed
    {
      ghost var i0, j0, s := i, j, arr[..];
      var up, down;
      i, up := ScanUp(arr, i, pivot, if j < right then j + 1 else m);
      j, down := ScanDown(arr, j, pivot, if left < i0 then i0 - 1 else m);
      comparisons := comparisons + up + down;
      assert Parting(s, left, right, i, j, pivot);
      if i <= j {
        Swap(arr, i, j);
        SwapStep(old(arr[..]), s, left, right, i, j, pivot);
        i, j := i + 1, j - 1;
      } else {
        assert i0 < i ==> s[i - 1] < pivot;
        missed := 2;
      }
    }
  }

  /** Rearranging inside one part, or both, keeps a split. */
  lemma SplitSurvives(s: seq<int>, t: seq<int>, left: int, right: int, i: int, j: int, pivot: int, l: int, r: int)
    requires 0 <= left <= right < |s| && Split(s, left, right, i, j, pivot)
    requires Rearranged(s, t, l, r)
    requires (l == left && r == j) || (l == i && r == right)
    ensures Split(t, left, right, i, j, pivot)
  {
    NothingNew(s, t, l, r);
    OthersStay(s, t, l, r);
  }

  /** Twice the comparisons that sorting a range whose ends are `d` apart can cost: the worst split
      takes one element off, and a partition of `d + 1` elements compares at most `d + 3` times. */
  function WorstCost(d: int): int {
    if d < 1 then 0 else WorstCost(d - 1) + 2 * (d + 3)
  }

  lemma {:induction false} CostClosedForm(d: int)
    ensures WorstCost(d) == if d < 1 then 0 else d * (d + 7)
  {
    if d >= 1 {
      CostClosedForm(d - 1);
    }
  }

  lemma {:induction false} CostTogether(a: nat, b: nat)
    ensures WorstCost(a) + WorstCost(b) <= WorstCost(a + b)
    ensures 0 <= WorstCost(b)
  {
    if b > 0 {
      CostTogether(a, b - 1);
    }
  }

  /** The comparisons, beside one for every call, that `n` elements take at least: the best split halves
      what the pivot leaves. */
  function LeastCost(n: nat): nat {
    if n < 2 then 0 else n - 1 + LeastCost((n - 1) / 2) + LeastCost(n / 2)
  }

  /** For 2^k - 1 elements this is (k - 2) 2^k + 2, so it grows like n log n. */
  lemma {:induction false} LeastCostGrowth(k: nat)
    requires k > 0
    ensures LeastCost(Pow2(k) - 1) == (k - 2) * Pow2(k) + 2
  {
    if k > 1 {
      LeastCostGrowth(k - 1);
      var p := Pow2(k - 1);
      LeastOfOdd(2 * p - 1, p - 1);
      GrowthStep(k, p);
    } else {
      assert Pow2(1) == 2;
    }
  }

  lemma LeastOfOdd(n: nat, half: nat)
    requires n == 2 * half + 1
    ensures LeastCost(n) == n - 1 + 2 * LeastCost(half)
  {
    if half > 0 {
      LeastUnfold(n, half, half);
    }
  }

  lemma LeastUnfold(n: nat, lo: nat, hi: nat)
    requires n >= 2 && lo == (n - 1) / 2 && hi == n / 2
    ensures LeastCost(n) == n - 1 + LeastCost(lo) + LeastCost(hi)
  {
  }

  lemma GrowthStep(k: int, p: int)
    ensures 2 * p - 2 + 2 * ((k - 3) * p + 2) == (k - 2) * (2 * p) + 2
  {
  }

  /** What one element more adds. */
  function Gain(n: nat): int {
    LeastCost(n + 1) - LeastCost(n)
  }

  lemma GainStep(n: nat)
    requires n > 0
    ensures Gain(n) == 1 + Gain((n - 1) / 2)
  {
    assert (n - 1) / 2 + 1 == (n + 1) / 2;
    if n == 1 {
      assert LeastCost(2) == 1 + LeastCost(0) + LeastCost(1);
    }
  }

  lemma {:induction false} GainGrows(a: nat, b: nat)
    requires a <= b
    ensures 0 <= Gain(a) <= Gain(b)
    decreases b
  {
    if b > 0 {
      GainStep(b);
      if a > 0 {
        GainStep(a);
        GainGrows((a - 1) / 2, (b - 1) / 2);
      } else {
        GainGrows(0, (b - 1) / 2);
      }
    }
  }

  /** Moving one element from the larger part to the smaller does not cost more ... */
  lemma MoveOne(a: nat, b: nat)
    requires a < b
    ensures LeastCost(a + 1) + LeastCost(b - 1) <= LeastCost(a) + LeastCost(b)
  {
    GainGrows(a, b - 1);
    assert Gain(a) == LeastCost(a + 1) - LeastCost(a) && Gain(b - 1) == LeastCost(b) - LeastCost(b - 1);
  }

  /** ... so no split costs less than an even one. */
  lemma {:induction false} EvenSplitIsBest(a: nat, b: nat, lo: nat, hi: nat)
    requires a <= lo <= hi <= b && a + b == lo + hi
    ensures LeastCost(lo) + LeastCost(hi) <= LeastCost(a) + LeastCost(b)
    decreases lo - a
  {
    if a < lo {
      MoveOne(a, b);
      EvenSplitIsBest(a + 1, b - 1, lo, hi);
    }
  }

  lemma AnySplit(a: nat, b: nat, lo: nat, hi: nat)
    requires a + b == lo + hi && lo <= hi <= lo + 1
    ensures LeastCost(lo) + LeastCost(hi) <= LeastCost(a) + LeastCost(b)
  {
    if a <= b {
      EvenSplitIsBest(a, b, lo, hi);
    } else {
      EvenSplitIsBest(b, a, lo, hi);
    }
  }

  /** Parts of `a` and `b` elements, all but at most one of `n`, cost at least what `n` does after the first
      n - 1 comparisons. */
  lemma PartsCostAtLeast(a: nat, b: nat, n: nat)
    requires n >= 2 && n - 1 <= a + b <= n
    ensures LeastCost(n) <= n - 1 + LeastCost(a) + LeastCost(b)
  {
    var lo, hi, top := (n - 1) / 2, n / 2, (n + 1) / 2;
    LeastUnfold(n, lo, hi);
    if a + b == n {
      AnySplit(a, b, hi, top);
      LeastCostGrows(lo, hi);
      LeastCostGrows(hi, top);
    } else {
      AnySplit(a, b, lo, hi);
    }
  }

  lemma CallsAtLeast(a: nat, b: nat, n: nat)
    requires n >= 2 && n - 1 <= a + b
    ensures n / 2 <= 1 + a / 2 + b / 2
  {
  }

  lemma LeastCostGrows(a: nat, b: nat)
    requires a <= b <= a + 1
    ensures LeastCost(a) <= LeastCost(b)
  {
    GainGrows(a, a);
    assert Gain(a) == LeastCost(a + 1) - LeastCost(a);
  }

  /** The bounds on calls and comparisons for a part of a range, which costs nothing when it has
      fewer than two elements. */
  ghost predicate Affordable(left: int, right: int, calls: int, comparisons: int)
    requires left <= right + 1
  {
    && (right - left + 1) / 2 <= calls <= (if left < right then right - left else 0)
    && calls + LeastCost(right - left + 1) <= comparisons && 2 * comparisons <= WorstCost(right - left)
  }

  lemma TotalCost(left: int, right: int, i: int, j: int, cost: nat, calls: nat, costLeft: nat, calls': nat, costRight: nat)
    requires left < right && 1 <= i - j <= 2 && left - 1 <= j < right && left < i <= right + 1
    requires right - left + 1 <= cost <= right - left + 3
    requires Affordable(left, j, calls, costLeft) && Affordable(i, right, calls', costRight)
    ensures Affordable(left, right, 1 + calls + calls', cost + costLeft + costRight)
  {
    var a, b, n := j - left + 1, right - i + 1, right - left + 1;
    WorstTogether(a, b, n, calls, costLeft, calls', costRight);
    LeastTogether(a, b, n, calls, costLeft, calls', costRight);
  }

  lemma WorstTogether(a: nat, b: nat, n: nat, calls: nat, costLeft: nat, calls': nat, costRight: nat)
    requires n >= 2 && a < n && b < n && a + b <= n
    requires calls <= (if a > 1 then a - 1 else 0) && 2 * costLeft <= WorstCost(a - 1)
    requires calls' <= (if b > 1 then b - 1 else 0) && 2 * costRight <= WorstCost(b - 1)
    ensures 1 + calls + calls' <= n - 1
    ensures 2 * (n + 2 + costLeft + costRight) <= WorstCost(n - 1)
  {
    var x, y: nat := if a > 1 then a - 1 else 0, if b > 1 then b - 1 else 0;
    CostTogether(x, y);
    CostTogether(x + y, n - 2 - x - y);
  }

  lemma LeastTogether(a: nat, b: nat, n: nat, calls: nat, costLeft: nat, calls': nat, costRight: nat)
    requires n >= 2 && n - 1 <= a + b <= n
    requires a / 2 <= calls && calls + LeastCost(a) <= costLeft
    requires b / 2 <= calls' && calls' + LeastCost(b) <= costRight
    ensures n / 2 <= 1 + calls + calls'
    ensures 1 + calls + calls' + LeastCost(n) <= n + costLeft + costRight
  {
    PartsCostAtLeast(a, b, n);
    CallsAtLeast(a, b, n);
  }

  /** Sorting `left..right` in place.  `level` is what the debug build counts: the calls of `quickSort`. */
  method QuickSort(arr: array<int>, left: int, right: int) returns (level: nat, comparisons: nat)
    requires 0 <= left <= right < arr.Length
    modifies arr
    ensures Rearranged(old(arr[..]), arr[..], left, right)
    ensures Sorted(arr[..], left, right)
    ensures if left < right then Affordable(left, right, level, comparisons) else level == 1 && comparisons == 2
    decreases right - left, 1
  {
    ghost var pivot := arr[(left + right) / 2];
    var i, j, cost := Partition(arr, left, right);
    ghost var s := arr[..];
    var calls, costLeft := SortPart(arr, left, j);
    ghost var t := arr[..];
    LeftDone(old(arr[..]), s, t, left, right, i, j, pivot);
    var calls', costRight := SortPart(arr, i, right);
    RightDone(old(arr[..]), t, arr[..], left, right, i, j, pivot);
    SplitSorts(arr[..], left, right, i, j, pivot);
    level, comparisons := 1 + calls + calls', cost + costLeft + costRight;
    if left < right {
      TotalCost(left, right, i, j, cost, calls, costLeft, calls', costRight);
    }
  }

  /** One guarded recursive call: parts of fewer than two elements are left alone. */
  method SortPart(arr: array<int>, left: int, right: int) returns (calls: nat, comparisons: nat)
    requires 0 <= left <= right + 1 && right < arr.Length
    modifies arr
    ensures Rearranged(old(arr[..]), arr[..], left, right)
    ensures Sorted(arr[..], left, right)
    ensures Affordable(left, right, calls, comparisons)
    decreases right - left, 2
  {
    calls, comparisons := 0, 0;
    if left < right {
      calls, comparisons := QuickSort(arr, left, right);
    }
  }

  lemma LeftDone(s0: seq<int>, s: seq<int>, t: seq<int>, left: int, right: int, i: int, j: int, pivot: int)
    requires 0 <= left <= right < |s| && Split(s, left, right, i, j, pivot)
    requires Rearranged(s0, s, left, right) && Rearranged(s, t, left, j)
    ensures Rearranged(s0, t, left, right) && Split(t, left, right, i, j, pivot)
  {
    SplitSurvives(s, t, left, right, i, j, pivot, left, j);
    Widen(s, t, left, left, j, right);
    Compose(s0, s, t, left, right);
  }

  lemma RightDone(s0: seq<int>, s: seq<int>, t: seq<int>, left: int, right: int, i: int, j: int, pivot: int)
    requires 0 <= left <= right < |s| && Split(s, left, right, i, j, pivot)
    requires Rearranged(s0, s, left, right) && Rearranged(s, t, i, right)
    requires Sorted(s, left, j)
    ensures Rearranged(s0, t, left, right) && Split(t, left, right, i, j, pivot) && Sorted(t, left, j)
  {
    SplitSurvives(s, t, left, right, i, j, pivot, i, right);
    OthersStay(s, t, i, right);
    Widen(s, t, left, i, right, right);
    Compose(s0, s, t, left, right);
  }

  lemma SplitSorts(s: seq<int>, left: int, right: int, i: int, j: int, pivot: int)
    requires 0 <= left <= right < |s| && Split(s, left, right, i, j, pivot)
    requires Sorted(s, left, j) && Sorted(s, i, right)
    ensures Sorted(s, left, right)
  {
  }

  // ----- the result is determined: there is only one sorted rearrangement

  lemma SortedUnique(s: seq<int>, t: seq<int>, u: seq<int>, left: int, right: int)
    requires Rearranged(s, t, left, right) && Sorted(t, left, right)
    requires Rearranged(s, u, left, right) && Sorted(u, left, right)
    ensures t == u
  {
    var a, b := t[left..right + 1], u[left..right + 1];
    SameSortedElements(a, b);
    ThreeParts(t, left, right + 1);
    ThreeParts(u, left, right + 1);
  }

  lemma ThreeParts(s: seq<int>, i: int, j: int)
    requires 0 <= i <= j <= |s|
    ensures s == s[..i] + s[i..j] + s[j..]
  {
  }

  lemma {:induction false} SameSortedElements(a: seq<int>, b: seq<int>)
    requires multiset(a) == multiset(b)
    requires Sorted(a, 0, |a| - 1) && Sorted(b, 0, |b| - 1)
    ensures a == b
  {
    assert |a| == |multiset(a)| == |multiset(b)| == |b|;
    if a != [] {
      SmallestFirst(a, b);
      SmallestFirst(b, a);
      WithoutFirst(a);
      WithoutFirst(b);
      SameSortedElements(a[1..], b[1..]);
    }
  }

  lemma WithoutFirst(a: seq<int>)
    requires a != []
    ensures a == [a[0]] + a[1..] && multiset(a[1..]) == multiset(a) - multiset{a[0]}
  {
    assert a == [a[0]] + a[1..];
  }

  lemma SmallestFirst(a: seq<int>, b: seq<int>)
    requires a != [] && b != [] && multiset(a) == multiset(b)
    requires Sorted(a, 0, |a| - 1)
    ensures a[0] <= b[0]
  {
    assert b[0] in multiset(b);
    assert b[0] in multiset(a);
    var k :| 0 <= k < |a| && a[k] == b[0];
  }
}
