/** `Solution.findKth` and `Solution.findMedianSortedArrays`: the median of two
    ascending arrays of Java `int`s, by selecting the k-th smallest element of
    their merge in O(log k) halving steps. Arrays are modelled as immutable
    sequences, so neither input can be changed by either operation. */
module MedianOfSortedArrays {
  import opened JavaInt
  import opened SortedMerge

  /** One probe of the halving step: the element at `idx`, or the sentinel
      `Integer.MAX_VALUE` when `idx` lies past the end of `s`. */
  function Probe(s: seq<Int32>, idx: nat): (r: Int32)
    ensures idx < |s| ==> r == s[idx]
    ensures |s| <= idx ==> r == MaxValue
  {
    if idx < |s| then s[idx] else MaxValue
  }

  /** In an ascending array the probe splits the elements: every element up to
      the probe index is at most the probe, and every element from it on is at
      least the probe. So a probe below the other side's probe bounds the whole
      prefix it ends, and the sentinel past the end bounds every element. */
  lemma ProbeSplits(s: seq<Int32>, idx: nat)
    requires Sorted(s)
    ensures forall t :: 0 <= t < |s| && t <= idx ==> s[t] <= Probe(s, idx)
    ensures forall t :: idx <= t < |s| ==> Probe(s, idx) <= s[t]
  {
    forall t | 0 <= t < |s| && t <= idx
      ensures s[t] <= Probe(s, idx)
    {
      if idx < |s| {
        SortedAt(s, t, idx);
      }
    }
    forall t | idx <= t < |s|
      ensures Probe(s, idx) <= s[t]
    {
      SortedAt(s, idx, t);
    }
  }

  /** The reference selection: the k-th (from 1) element met when `x` and `y`
      are merged head by head, always taking the smaller head next. */
  function KthSmallest(x: seq<Int32>, y: seq<Int32>, k: nat): Int32
    requires 1 <= k <= |x| + |y|
    decreases k
  {
    if x == [] then y[k - 1]
    else if y == [] then x[k - 1]
    else if k == 1 then Min(x[0], y[0])
    else if x[0] <= y[0] then KthSmallest(x[1..], y, k - 1)
    else KthSmallest(x, y[1..], k - 1)
  }

  /** On ascending inputs the walk reads the k-th element of the ascending
      arrangement of all their elements. */
  lemma {:induction false} KthSmallestInMerged(x: seq<Int32>, y: seq<Int32>, k: nat)
    requires Sorted(x) && Sorted(y) && 1 <= k <= |x| + |y|
    ensures KthSmallest(x, y, k) == Merged(x, y)[k - 1]
    decreases k
  {
    MergedBaseCases(x, y);
    if x != [] && y != [] && k > 1 {
      if x[0] <= y[0] {
        MergedTakesFirst(x, y);
        SortedDrop(x, 1);
        KthSmallestInMerged(x[1..], y, k - 1);
      } else {
        MergedTakesSecond(x, y);
        SortedDrop(y, 1);
        KthSmallestInMerged(x, y[1..], k - 1);
      }
    }
  }

  /** The cases `FindKth` answers directly: one side exhausted, or `k` is 1. */
  lemma {:induction false} DirectCases(a: seq<Int32>, i: nat, b: seq<Int32>, j: nat, k: nat)
    requires Sorted(a) && Sorted(b)
    requires 1 <= k <= Remaining(a, i) + Remaining(b, j)
    ensures i >= |a| ==> Merged(Suffix(a, i), Suffix(b, j))[k - 1] == b[j + k - 1]
    ensures i < |a| && j >= |b| ==> Merged(Suffix(a, i), Suffix(b, j))[k - 1] == a[i + k - 1]
    ensures i < |a| && j < |b| && k == 1 ==> Merged(Suffix(a, i), Suffix(b, j))[k - 1] == Min(a[i], b[j])
  {
    SuffixSorted(a, i);
    SuffixSorted(b, j);
    var x, y := Suffix(a, i), Suffix(b, j);
    MergedBaseCases(x, y);
    if i >= |a| {
      SuffixAt(b, j, k - 1);
    } else if j >= |b| {
      SuffixAt(a, i, k - 1);
    } else {
      SuffixAt(a, i, 0);
      SuffixAt(b, j, 0);
    }
  }

  /** `findKth(nums1, i, nums2, j, k)`: the k-th smallest (from 1) element of
      `a[i..]` and `b[j..]` together. Every array access is in bounds and the
      recursion ends, since each call drops `k / 2` from `k`. A start index may
      pass the end of its array (see `DropFromB`); the remaining counts are
      clamped at zero accordingly. */
  function FindKth(a: seq<Int32>, i: nat, b: seq<Int32>, j: nat, k: nat): (r: Int32)
    requires Sorted(a) && Sorted(b)
    requires 1 <= k <= Remaining(a, i) + Remaining(b, j)
    ensures r == Merged(Suffix(a, i), Suffix(b, j))[k - 1]
    decreases k
  {
    DirectCases(a, i, b, j, k);
    if i >= |a| then b[j + k - 1]
    else if j >= |b| then a[i + k - 1]
    else if k == 1 then Min(a[i], b[j])
    else if Probe(a, i + k / 2 - 1) < Probe(b, j + k / 2 - 1) then
      DropFromA(a, i, b, j, k);
      FindKth(a, i + k / 2, b, j, k - k / 2)
    else
      DropFromB(a, i, b, j, k);
      FindKth(a, i, b, j + k / 2, k - k / 2)
  }

  /** Under the precondition of `FindKth` the two probes are never both past
      the end, so the sentinel never stands in for both sides at once. */
  lemma ProbesNotBothPastEnd(a: seq<Int32>, i: nat, b: seq<Int32>, j: nat, k: nat)
    requires i < |a| && j < |b| && 2 <= k <= Remaining(a, i) + Remaining(b, j)
    ensures i + k / 2 - 1 < |a| || j + k / 2 - 1 < |b|
  {
  }

  /** The step that drops `k / 2` elements of `a`: it is taken only when the
      probe into `a` is a real element, and it keeps the answer. */
  lemma DropFromA(a: seq<Int32>, i: nat, b: seq<Int32>, j: nat, k: nat)
    requires Sorted(a) && Sorted(b)
    requires i < |a| && j < |b| && 2 <= k <= Remaining(a, i) + Remaining(b, j)
    requires Probe(a, i + k / 2 - 1) < Probe(b, j + k / 2 - 1)
    ensures Remaining(a, i + k / 2) == Remaining(a, i) - k / 2
    ensures Merged(Suffix(a, i), Suffix(b, j))[k - 1]
         == Merged(Suffix(a, i + k / 2), Suffix(b, j))[k - k / 2 - 1]
  {
    DropWithinA(a, i, b, j, k);
  }

  /** `DropFromA` once the probe into `a` is known to read an element of `a`. */
  lemma {:induction false} DropWithinA(a: seq<Int32>, i: nat, b: seq<Int32>, j: nat, k: nat)
    requires Sorted(a) && Sorted(b)
    requires i < |a| && j < |b| && 2 <= k <= Remaining(a, i) + Remaining(b, j)
    requires i + k / 2 - 1 < |a| && a[i + k / 2 - 1] < Probe(b, j + k / 2 - 1)
    ensures Remaining(a, i + k / 2) == Remaining(a, i) - k / 2
    ensures Merged(Suffix(a, i), Suffix(b, j))[k - 1]
         == Merged(Suffix(a, i + k / 2), Suffix(b, j))[k - k / 2 - 1]
  {
    SuffixSorted(a, i);
    SuffixSorted(b, j);
    var x, y := Suffix(a, i), Suffix(b, j);
    SuffixAt(a, i, k / 2 - 1);
    if k / 2 <= |y| {
      SuffixAt(b, j, k / 2 - 1);
    }
    DiscardPrefix(x, y, k / 2, k);
    SuffixOfSuffix(a, i, k / 2);
  }

  /** The step that drops `k / 2` elements of `b`. When the probe into `b` is
      past the end, the probe into `a` read a real `Integer.MAX_VALUE`: all of
      `b` is dropped although it is shorter than `k / 2`, and the answer is
      still kept, since it is `Integer.MAX_VALUE` either way. */
  lemma DropFromB(a: seq<Int32>, i: nat, b: seq<Int32>, j: nat, k: nat)
    requires Sorted(a) && Sorted(b)
    requires i < |a| && j < |b| && 2 <= k <= Remaining(a, i) + Remaining(b, j)
    requires Probe(b, j + k / 2 - 1) <= Probe(a, i + k / 2 - 1)
    ensures k - k / 2 <= Remaining(a, i) + Remaining(b, j + k / 2)
    ensures Merged(Suffix(a, i), Suffix(b, j))[k - 1]
         == Merged(Suffix(a, i), Suffix(b, j + k / 2))[k - k / 2 - 1]
  {
    if j + k / 2 - 1 < |b| {
      DropWithinB(a, i, b, j, k);
    } else {
      DropPastEndOfB(a, i, b, j, k);
    }
  }

  /** `DropFromB` when the probe into `b` reads an element of `b`. */
  lemma {:induction false} DropWithinB(a: seq<Int32>, i: nat, b: seq<Int32>, j: nat, k: nat)
    requires Sorted(a) && Sorted(b)
    requires i < |a| && j < |b| && 2 <= k <= Remaining(a, i) + Remaining(b, j)
    requires j + k / 2 - 1 < |b| && b[j + k / 2 - 1] <= Probe(a, i + k / 2 - 1)
    ensures Merged(Suffix(a, i), Suffix(b, j))[k - 1]
         == Merged(Suffix(a, i), Suffix(b, j + k / 2))[k - k / 2 - 1]
  {
    SuffixSorted(a, i);
    SuffixSorted(b, j);
    var x, y := Suffix(a, i), Suffix(b, j);
    SuffixAt(b, j, k / 2 - 1);
    if k / 2 <= |x| {
      SuffixAt(a, i, k / 2 - 1);
    }
    DiscardPrefixOfSecond(x, y, k / 2, k);
    SuffixOfSuffix(b, j, k / 2);
  }

  /** `DropFromB` when the probe into `b` is past its end. */
  lemma {:induction false} DropPastEndOfB(a: seq<Int32>, i: nat, b: seq<Int32>, j: nat, k: nat)
    requires Sorted(a) && Sorted(b)
    requires i < |a| && j < |b| && 2 <= k <= Remaining(a, i) + Remaining(b, j)
    requires |b| <= j + k / 2 - 1 && MaxValue <= Probe(a, i + k / 2 - 1)
    ensures k - k / 2 <= Remaining(a, i)
    ensures Merged(Suffix(a, i), Suffix(b, j))[k - 1]
         == Merged(Suffix(a, i), Suffix(b, j + k / 2))[k - k / 2 - 1]
  {
    SuffixSorted(a, i);
    SuffixSorted(b, j);
    var x, y := Suffix(a, i), Suffix(b, j);
    SuffixAt(a, i, k / 2 - 1);
    DiscardPastEnd(x, y, k / 2, k);
    MergedBaseCases(x, Suffix(b, j + k / 2));
  }

  /** `FindKth` agrees with the head-by-head reference walk. */
  lemma {:induction false} FindKthIsWalk(a: seq<Int32>, i: nat, b: seq<Int32>, j: nat, k: nat)
    requires Sorted(a) && Sorted(b)
    requires 1 <= k <= Remaining(a, i) + Remaining(b, j)
    ensures FindKth(a, i, b, j, k) == KthSmallest(Suffix(a, i), Suffix(b, j), k)
  {
    SuffixSorted(a, i);
    SuffixSorted(b, j);
    KthSmallestInMerged(Suffix(a, i), Suffix(b, j), k);
  }

  /** `FindKth` picks the k-th element of ANY ascending arrangement of the
      remaining elements, not only of the one `Merge` builds. */
  lemma {:induction false} FindKthIsKthSmallest(a: seq<Int32>, i: nat, b: seq<Int32>, j: nat, k: nat, s: seq<Int32>)
    requires Sorted(a) && Sorted(b)
    requires 1 <= k <= Remaining(a, i) + Remaining(b, j)
    requires Sorted(s) && multiset(s) == multiset(Suffix(a, i)) + multiset(Suffix(b, j))
    ensures k <= |s| && FindKth(a, i, b, j, k) == s[k - 1]
  {
    SuffixSorted(a, i);
    SuffixSorted(b, j);
    SortedUnique(Merged(Suffix(a, i), Suffix(b, j)), s);
  }

  /** Started at the front of both arrays, `findKth` selects the element of
      rank `k` of their merge. */
  lemma {:induction false} FindKthFromStart(a: seq<Int32>, b: seq<Int32>, k: nat)
    requires Sorted(a) && Sorted(b) && 1 <= k <= |a| + |b|
    ensures FindKth(a, 0, b, 0, k) == Merged(a, b)[k - 1]
  {
  }

  /** `left = (m + n + 1) / 2`, the lower central rank (from 1) of `total`
      elements: the middle one for an odd total, the lower of the two middle
      ones for an even total. */
  function LeftRank(total: nat): (r: nat)
    requires 1 <= total
    ensures 1 <= r <= total
    ensures total % 2 == 1 ==> r == total / 2 + 1
    ensures total % 2 == 0 ==> r == total / 2
  {
    (total + 1) / 2
  }

  /** `right = (m + n + 2) / 2`, the upper central rank: the same as the lower
      one for an odd total, the next one for an even total. */
  function RightRank(total: nat): (r: nat)
    requires 1 <= total
    ensures LeftRank(total) <= r <= total
    ensures total % 2 == 1 ==> r == LeftRank(total)
    ensures total % 2 == 0 ==> r == LeftRank(total) + 1
  {
    (total + 2) / 2
  }

  /** The median of an ascending sequence: its middle element, or the mean of
      its two middle elements, as an exact rational number. */
  function MedianOf(s: seq<Int32>): real
    requires |s| >= 1
  {
    if |s| % 2 == 1 then s[|s| / 2] as real
    else (s[|s| / 2 - 1] as real + s[|s| / 2] as real) / 2.0
  }

  /** `findMedianSortedArrays`: the median of the merge of `a` and `b`. The
      two selected values are added as exact integers (see `FindMedianAsWritten`
      for the `int` addition of the original). */
  function FindMedianSortedArrays(a: seq<Int32>, b: seq<Int32>): (r: real)
    requires Sorted(a) && Sorted(b) && 1 <= |a| + |b|
    ensures r == MedianOf(Merged(a, b))
  {
    FindKthFromStart(a, b, LeftRank(|a| + |b|));
    FindKthFromStart(a, b, RightRank(|a| + |b|));
    MedianAtRanks(a, b);
    (FindKth(a, 0, b, 0, LeftRank(|a| + |b|)) as real
      + FindKth(a, 0, b, 0, RightRank(|a| + |b|)) as real) / 2.0
  }

  /** Averaging the elements of the merge at the two central ranks gives its
      median. */
  lemma MedianAtRanks(a: seq<Int32>, b: seq<Int32>)
    requires Sorted(a) && Sorted(b) && 1 <= |a| + |b|
    ensures (Merged(a, b)[LeftRank(|a| + |b|) - 1] as real
      + Merged(a, b)[RightRank(|a| + |b|) - 1] as real) / 2.0 == MedianOf(Merged(a, b))
  {
  }

  /** The result is the median of every ascending arrangement of the combined
      elements. */
  lemma {:induction false} MedianOfAnyArrangement(a: seq<Int32>, b: seq<Int32>, s: seq<Int32>)
    requires Sorted(a) && Sorted(b) && 1 <= |a| + |b|
    requires Sorted(s) && multiset(s) == multiset(a) + multiset(b)
    ensures |s| == |a| + |b| && FindMedianSortedArrays(a, b) == MedianOf(s)
  {
    SortedUnique(Merged(a, b), s);
  }

  /** The result is the median of what the head-by-head `Merge` builds. */
  lemma {:induction false} MedianOfMerge(a: seq<Int32>, b: seq<Int32>)
    requires Sorted(a) && Sorted(b) && 1 <= |a| + |b|
    ensures FindMedianSortedArrays(a, b) == MedianOf(Merge(a, b))
  {
    MergeIsMerged(a, b);
  }

  /** The worked example with an odd total. */
  lemma ExampleOddTotal()
    ensures FindMedianSortedArrays([1, 3], [2]) == 2.0
  {
  }

  /** The worked example with an even total. */
  lemma ExampleEvenTotal()
    ensures FindMedianSortedArrays([1, 2], [3, 4]) == 2.5
  {
  }

  /** The worked example of equal elements. */
  lemma ExampleAllEqual()
    ensures FindMedianSortedArrays([0, 0], [0, 0]) == 0.0
  {
    MedianOfMerge([0, 0], [0, 0]);
    assert Merge([0, 0], [0, 0]) == [0, 0, 0, 0];
  }

  /** The worked example with the first array empty. */
  lemma ExampleFirstEmpty()
    ensures FindMedianSortedArrays([], [1]) == 1.0
  {
  }

  /** The worked example with the second array empty. */
  lemma ExampleSecondEmpty()
    ensures FindMedianSortedArrays([2], []) == 2.0
  {
  }

  /** The element bound the method documents for its inputs. */
  predicate InDocumentedRange(s: seq<Int32>) {
    forall t :: 0 <= t < |s| ==> -1_000_000 <= s[t] <= 1_000_000
  }

  /** `(m + n + 1) / 2` as Java evaluates it: `int` additions that wrap, then
      a division that truncates toward zero. Adding the lengths first and then
      1 wraps to the same `int` as adding `total + 1` at once. */
  function LeftRankAsWritten(total: nat): Int32 {
    Half(Wrap(total + 1))
  }

  /** `(m + n + 2) / 2` as Java evaluates it. */
  function RightRankAsWritten(total: nat): Int32 {
    Half(Wrap(total + 2))
  }

  /** For two Java array lengths, the `int` rank arithmetic is exact up to a
      total of 2^31 - 3 elements; from 2^31 - 2 on, `m + n + 2` wraps to a
      negative number or to 0 and the upper rank is not positive. */
  lemma RankArithmetic(total: nat)
    requires total <= 2 * MaxValue as int
    ensures 1 <= total <= 0x7FFF_FFFD ==>
      LeftRankAsWritten(total) as int == LeftRank(total) && RightRankAsWritten(total) as int == RightRank(total)
    ensures 0x7FFF_FFFE <= total ==> RightRankAsWritten(total) <= 0
  {
    if total <= 0x7FFF_FFFD {
      assert Wrap(total + 1) as int == total + 1 && Wrap(total + 2) as int == total + 2;
    } else {
      assert Wrap(total + 2) as int == total + 2 - Modulus;
    }
  }

  /** The two arrays of the smallest total at which the rank arithmetic wraps,
      2^30 - 1 elements each: the lower rank is still right, the upper one is
      -2^30, and `findKth` is called with that negative `k`. */
  lemma RankOverflowExample()
    ensures LeftRankAsWritten(0x3FFF_FFFF + 0x3FFF_FFFF) == 0x3FFF_FFFF
    ensures RightRankAsWritten(0x3FFF_FFFF + 0x3FFF_FFFF) == -0x4000_0000
  {
  }

  /** What a call of `findMedianSortedArrays` as written ends with: a value,
      or the `ArrayIndexOutOfBoundsException` that `findKth` throws. */
  datatype Outcome = Returns(value: real) | IndexOutOfBounds

  /** The return statement of `findMedianSortedArrays` for two ranks within
      the total: the two selected values are added with Java's `int` addition,
      which wraps around modulo 2^32, before the division by 2.0, so twice the
      result is always an `int`. */
  function SumAtRanksAsWritten(a: seq<Int32>, b: seq<Int32>, left: nat, right: nat): (r: real)
    requires Sorted(a) && Sorted(b)
    requires 1 <= left <= |a| + |b| && 1 <= right <= |a| + |b|
    ensures -2147483648.0 <= 2.0 * r <= 2147483647.0
  {
    Wrap(FindKth(a, 0, b, 0, left) as int + FindKth(a, 0, b, 0, right) as int) as real / 2.0
  }

  /** `findMedianSortedArrays` as written, for arrays whose lengths Java can
      hold. The ranks are computed with `int` arithmetic, and a rank below 1
      makes `findKth` read index `k - 1` or `i + k / 2 - 1`, which is
      negative, and throw. */
  function FindMedianAsWritten(a: seq<Int32>, b: seq<Int32>): (r: Outcome)
    requires Sorted(a) && Sorted(b) && 1 <= |a| + |b|
    requires |a| <= MaxValue as int && |b| <= MaxValue as int
    ensures r.IndexOutOfBounds? <==> 0x7FFF_FFFE <= |a| + |b|
    ensures r.Returns? ==> -2147483648.0 <= 2.0 * r.value <= 2147483647.0
  {
    RankArithmetic(|a| + |b|);
    if LeftRankAsWritten(|a| + |b|) < 1 || RightRankAsWritten(|a| + |b|) < 1 then IndexOutOfBounds
    else Returns(SumAtRanksAsWritten(a, b, LeftRankAsWritten(|a| + |b|) as int, RightRankAsWritten(|a| + |b|) as int))
  }

  /** Within the documented range, so is every element `findKth` selects. */
  lemma {:induction false} SelectedInRange(a: seq<Int32>, b: seq<Int32>, k: nat)
    requires Sorted(a) && Sorted(b) && 1 <= k <= |a| + |b|
    requires InDocumentedRange(a) && InDocumentedRange(b)
    ensures -1_000_000 <= FindKth(a, 0, b, 0, k) <= 1_000_000
  {
    MergedBounded(a, b, -1_000_000, 1_000_000);
    FindKthFromStart(a, b, k);
  }

  /** Within the documented range, the two elements the return statement adds
      have an `int` sum. */
  lemma {:induction false} CentralSumInRange(a: seq<Int32>, b: seq<Int32>)
    requires Sorted(a) && Sorted(b) && 1 <= |a| + |b|
    requires InDocumentedRange(a) && InDocumentedRange(b)
    ensures -0x8000_0000 <= FindKth(a, 0, b, 0, LeftRank(|a| + |b|)) as int
                             + FindKth(a, 0, b, 0, RightRank(|a| + |b|)) as int < 0x8000_0000
  {
    SelectedInRange(a, b, LeftRank(|a| + |b|));
    SelectedInRange(a, b, RightRank(|a| + |b|));
  }

  /** Below 2^31 - 2 elements in all and within the documented element range
      nothing wraps, so the code as written computes the exact median. */
  lemma {:induction false} AsWrittenExactInRange(a: seq<Int32>, b: seq<Int32>)
    requires Sorted(a) && Sorted(b) && 1 <= |a| + |b| <= 0x7FFF_FFFD
    requires InDocumentedRange(a) && InDocumentedRange(b)
    ensures FindMedianAsWritten(a, b) == Returns(FindMedianSortedArrays(a, b))
  {
    AsWrittenAtRanks(a, b);
    CentralSumInRange(a, b);
    SumExactInRange(a, b, LeftRank(|a| + |b|), RightRank(|a| + |b|));
  }

  /** Below 2^31 - 2 elements in all, the code as written reaches its return
      statement with the two central ranks. */
  lemma AsWrittenAtRanks(a: seq<Int32>, b: seq<Int32>)
    requires Sorted(a) && Sorted(b) && 1 <= |a| + |b| <= 0x7FFF_FFFD
    ensures FindMedianAsWritten(a, b)
         == Returns(SumAtRanksAsWritten(a, b, LeftRank(|a| + |b|), RightRank(|a| + |b|)))
  {
    RankArithmetic(|a| + |b|);
  }

  /** When the two selected values add up without wrapping, the return
      statement averages them exactly. */
  lemma SumExactInRange(a: seq<Int32>, b: seq<Int32>, left: nat, right: nat)
    requires Sorted(a) && Sorted(b)
    requires 1 <= left <= |a| + |b| && 1 <= right <= |a| + |b|
    requires -0x8000_0000 <= FindKth(a, 0, b, 0, left) as int + FindKth(a, 0, b, 0, right) as int < 0x8000_0000
    ensures SumAtRanksAsWritten(a, b, left, right)
         == (FindKth(a, 0, b, 0, left) as real + FindKth(a, 0, b, 0, right) as real) / 2.0
  {
  }

  /** Outside that range the `int` addition wraps: for two arrays holding one
      `Integer.MAX_VALUE` each, the code as written answers -1.0 where the
      median is 2147483647. */
  lemma SumOverflowExample()
    ensures FindMedianAsWritten([MaxValue], [MaxValue]) == Returns(-1.0)
    ensures FindMedianSortedArrays([MaxValue], [MaxValue]) == 2147483647.0
  {
  }
}
