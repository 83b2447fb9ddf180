/** The reference meaning of "the k-th smallest element of two sorted arrays":
    the one and only ascending arrangement of their combined elements, and the
    facts about it that the halving selection relies on. */
module SortedMerge {
  import opened JavaInt

  /** `s[i]` under a name of its own: ascending order is stated through it, so
      that it is applied only to the positions a proof names (`SortedAt`)
      rather than to every pair of positions in sight. */
  function At(s: seq<Int32>, i: nat): Int32
    requires i < |s|
  {
    s[i]
  }

  /** Ascending order, duplicates allowed. */
  predicate Sorted(s: seq<Int32>) {
    forall i, j {:trigger At(s, i), At(s, j)} :: 0 <= i < j < |s| ==> At(s, i) <= At(s, j)
  }

  /** Ascending order at two given positions. */
  lemma SortedAt(s: seq<Int32>, i: nat, j: nat)
    requires Sorted(s) && i <= j < |s|
    ensures s[i] <= s[j]
  {
    if i < j {
      assert At(s, i) <= At(s, j);
    }
  }

  /** Every tail of a sorted sequence is sorted. */
  lemma SortedDrop(s: seq<Int32>, lo: nat)
    requires Sorted(s) && lo <= |s|
    ensures Sorted(s[lo..])
  {
    var r := s[lo..];
    forall p: int, q: int | 0 <= p < q < |r| ensures At(r, p) <= At(r, q) {
      SortedAt(s, lo + p, lo + q);
    }
  }

  /** Every prefix of a sorted sequence is sorted. */
  lemma SortedTake(s: seq<Int32>, hi: nat)
    requires Sorted(s) && hi <= |s|
    ensures Sorted(s[..hi])
  {
    var r := s[..hi];
    forall p: int, q: int | 0 <= p < q < |r| ensures At(r, p) <= At(r, q) {
      SortedAt(s, p, q);
    }
  }

  /** How many elements of `s` lie at index `i` or later. */
  function Remaining(s: seq<Int32>, i: nat): nat {
    if i < |s| then |s| - i else 0
  }

  /** The elements of `s` from index `i` on; empty once `i` has passed the end.
      Defined one element at a time, so that a proof sees it as a slice only
      where it asks to (`SuffixIsSlice`). */
  function Suffix(s: seq<Int32>, i: nat): (r: seq<Int32>)
    ensures |r| == Remaining(s, i)
    decreases i
  {
    if i == 0 || s == [] then s else Suffix(s[1..], i - 1)
  }

  /** Within the bounds, a suffix is the slice from `i`. */
  lemma {:induction false} SuffixIsSlice(s: seq<Int32>, i: nat)
    requires i <= |s|
    ensures Suffix(s, i) == s[i..]
    decreases i
  {
    if i != 0 {
      SuffixIsSlice(s[1..], i - 1);
      assert s[1..][i - 1..] == s[i..];
    }
  }

  /** Position `t` of a suffix is position `i + t` of the whole. */
  lemma SuffixAt(s: seq<Int32>, i: nat, t: nat)
    requires t < Remaining(s, i)
    ensures Suffix(s, i)[t] == s[i + t]
  {
    SuffixIsSlice(s, i);
  }

  /** A suffix of a sorted sequence is sorted. */
  lemma {:induction false} SuffixSorted(s: seq<Int32>, i: nat)
    requires Sorted(s)
    ensures Sorted(Suffix(s, i))
  {
    if i < |s| {
      SuffixIsSlice(s, i);
      SortedDrop(s, i);
    }
  }

  /** Dropping `h` more elements of a suffix gives the later suffix. */
  lemma {:induction false} SuffixOfSuffix(s: seq<Int32>, i: nat, h: nat)
    requires h <= Remaining(s, i)
    ensures Suffix(s, i)[h..] == Suffix(s, i + h)
  {
    if i < |s| {
      SuffixIsSlice(s, i);
      SuffixIsSlice(s, i + h);
    }
  }

  /** The sorted merge of `a` and `b`, built one element at a time: all their
      elements, taking the smaller head first (the head of `a` on a tie). */
  function Merge(a: seq<Int32>, b: seq<Int32>): (r: seq<Int32>)
    ensures |r| == |a| + |b|
    decreases |a| + |b|
  {
    if a == [] then b
    else if b == [] then a
    else if a[0] <= b[0] then [a[0]] + Merge(a[1..], b)
    else [b[0]] + Merge(a, b[1..])
  }

  /** The merge holds exactly the elements of its two inputs. */
  lemma {:induction false} MergePermutes(a: seq<Int32>, b: seq<Int32>)
    ensures multiset(Merge(a, b)) == multiset(a) + multiset(b)
    decreases |a| + |b|
  {
    if a != [] && b != [] {
      if a[0] <= b[0] {
        assert a == [a[0]] + a[1..];
        MergePermutes(a[1..], b);
      } else {
        assert b == [b[0]] + b[1..];
        MergePermutes(a, b[1..]);
      }
    }
  }

  /** The merge of two ascending sequences is ascending. */
  lemma {:induction false} MergeSorted(a: seq<Int32>, b: seq<Int32>)
    requires Sorted(a) && Sorted(b)
    ensures Sorted(Merge(a, b))
    decreases |a| + |b|
  {
    if a != [] && b != [] {
      if a[0] <= b[0] {
        SortedDrop(a, 1);
        if 1 < |a| {
          SortedAt(a, 0, 1);
        }
        MergeSorted(a[1..], b);
        MergePermutes(a[1..], b);
        HeadBelow(a[0], Merge(a[1..], b), a[1..], b);
      } else {
        SortedDrop(b, 1);
        if 1 < |b| {
          SortedAt(b, 0, 1);
        }
        MergeSorted(a, b[1..]);
        MergePermutes(a, b[1..]);
        HeadBelow(b[0], Merge(a, b[1..]), a, b[1..]);
      }
    }
  }

  /** A value at most the first element of each of two sorted sequences may
      be put in front of any sorted arrangement of their elements. */
  lemma {:induction false} HeadBelow(v: Int32, m: seq<Int32>, a: seq<Int32>, b: seq<Int32>)
    requires multiset(m) == multiset(a) + multiset(b)
    requires Sorted(a) && Sorted(b) && Sorted(m)
    requires a != [] ==> v <= a[0]
    requires b != [] ==> v <= b[0]
    ensures Sorted([v] + m)
  {
    forall t | 0 <= t < |m| ensures v <= m[t] {
      assert m[t] in multiset(m);
      if m[t] in multiset(a) {
        var p :| 0 <= p < |a| && a[p] == m[t];
        SortedAt(a, 0, p);
      } else {
        assert m[t] in multiset(b);
        var p :| 0 <= p < |b| && b[p] == m[t];
        SortedAt(b, 0, p);
      }
    }
    var r := [v] + m;
    forall p: int, q: int | 0 <= p < q < |r| ensures At(r, p) <= At(r, q) {
      if 0 < p {
        SortedAt(m, p - 1, q - 1);
      }
    }
  }

  /** Two sorted sequences with the same elements are the same sequence. */
  lemma {:induction false} SortedUnique(s: seq<Int32>, t: seq<Int32>)
    requires Sorted(s) && Sorted(t)
    requires multiset(s) == multiset(t)
    ensures s == t
  {
    if s == [] {
      assert |multiset(t)| == 0;
    } else {
      assert |t| == |multiset(t)| == |s|;
      HeadIsLeast(t, s[0]);
      HeadIsLeast(s, t[0]);
      var u, w := s[1..], t[1..];
      assert s == [s[0]] + u;
      assert t == [t[0]] + w;
      assert s[0] == t[0];
      assert multiset(s) == multiset{s[0]} + multiset(u);
      assert multiset(t) == multiset{t[0]} + multiset(w);
      assert multiset(u) == multiset(s) - multiset{s[0]};
      assert multiset(w) == multiset(t) - multiset{t[0]};
      SortedDrop(s, 1);
      SortedDrop(t, 1);
      SortedUnique(u, w);
    }
  }

  /** The head of a non-empty sorted sequence is at most each of its elements. */
  lemma {:induction false} HeadIsLeast(s: seq<Int32>, e: Int32)
    requires Sorted(s) && e in multiset(s)
    ensures s[0] <= e
  {
    var p :| 0 <= p < |s| && s[p] == e;
    SortedAt(s, 0, p);
  }

  /** THE ascending arrangement of the elements of two ascending sequences
      (unique by `SortedUnique`; `Merge` builds it, see `MergeIsMerged`).
      For inputs that are not both ascending it is only their concatenation,
      which nothing relies on. */
  ghost function Merged(a: seq<Int32>, b: seq<Int32>): (r: seq<Int32>)
    ensures |r| == |a| + |b|
    ensures Sorted(a) && Sorted(b) ==> Sorted(r) && multiset(r) == multiset(a) + multiset(b)
  {
    if Sorted(a) && Sorted(b) then
      MergeSorted(a, b);
      MergePermutes(a, b);
      var r: seq<Int32> :| Sorted(r) && multiset(r) == multiset(a) + multiset(b);
      assert |r| == |multiset(r)|;
      r
    else
      a + b
  }

  /** Merging head by head yields the ascending arrangement. */
  lemma {:induction false} MergeIsMerged(a: seq<Int32>, b: seq<Int32>)
    requires Sorted(a) && Sorted(b)
    ensures Merge(a, b) == Merged(a, b)
  {
    MergeSorted(a, b);
    MergePermutes(a, b);
    SortedUnique(Merge(a, b), Merged(a, b));
  }

  /** The three cases the selection answers directly: with one side empty the
      arrangement is the other side, and its first element is the smaller head. */
  lemma {:induction false} MergedBaseCases(a: seq<Int32>, b: seq<Int32>)
    requires Sorted(a) && Sorted(b)
    ensures a == [] ==> Merged(a, b) == b
    ensures b == [] ==> Merged(a, b) == a
    ensures a != [] && b != [] ==> Merged(a, b)[0] == Min(a[0], b[0])
  {
    MergeIsMerged(a, b);
  }

  /** When the head of `a` is no greater than the head of `b`, it comes first,
      followed by the arrangement of the rest. */
  lemma {:induction false} MergedTakesFirst(a: seq<Int32>, b: seq<Int32>)
    requires Sorted(a) && Sorted(b) && a != [] && b != [] && a[0] <= b[0]
    ensures Merged(a, b) == [a[0]] + Merged(a[1..], b)
  {
    MergeIsMerged(a, b);
    SortedDrop(a, 1);
    MergeIsMerged(a[1..], b);
  }

  /** When the head of `b` is smaller than the head of `a`, it comes first,
      followed by the arrangement of the rest. */
  lemma {:induction false} MergedTakesSecond(a: seq<Int32>, b: seq<Int32>)
    requires Sorted(a) && Sorted(b) && a != [] && b != [] && b[0] < a[0]
    ensures Merged(a, b) == [b[0]] + Merged(a, b[1..])
  {
    MergeIsMerged(a, b);
    SortedDrop(b, 1);
    MergeIsMerged(a, b[1..]);
  }

  /** The arrangement does not depend on which sequence comes first. */
  lemma {:induction false} MergedCommutes(a: seq<Int32>, b: seq<Int32>)
    requires Sorted(a) && Sorted(b)
    ensures Merged(a, b) == Merged(b, a)
  {
    SortedUnique(Merged(a, b), Merged(b, a));
  }

  /** Joining two sorted sequences, the first wholly at or below `v` and the
      second wholly at or above it, gives a sorted sequence. */
  lemma {:induction false} SortedJoin(l: seq<Int32>, r: seq<Int32>, v: Int32)
    requires Sorted(l) && Sorted(r)
    requires forall t :: 0 <= t < |l| ==> l[t] <= v
    requires forall t :: 0 <= t < |r| ==> v <= r[t]
    ensures Sorted(l + r)
  {
    var lr := l + r;
    forall p: int, q: int | 0 <= p < q < |lr| ensures At(lr, p) <= At(lr, q) {
      if q < |l| {
        SortedAt(l, p, q);
      } else if |l| <= p {
        SortedAt(r, p - |l|, q - |l|);
      }
    }
  }

  /** Every element of the arrangement comes from one of the inputs, so bounds
      on the inputs carry over to it. */
  lemma {:induction false} MergedBounded(a: seq<Int32>, b: seq<Int32>, lo: int, hi: int)
    requires Sorted(a) && Sorted(b)
    requires forall t :: 0 <= t < |a| ==> lo <= a[t] as int <= hi
    requires forall t :: 0 <= t < |b| ==> lo <= b[t] as int <= hi
    ensures forall t :: 0 <= t < |Merged(a, b)| ==> lo <= Merged(a, b)[t] as int <= hi
  {
    var m := Merged(a, b);
    forall t | 0 <= t < |m| ensures lo <= m[t] as int <= hi {
      assert m[t] in multiset(m);
      if m[t] in multiset(a) {
        var p :| 0 <= p < |a| && a[p] == m[t];
      } else {
        assert m[t] in multiset(b);
        var p :| 0 <= p < |b| && b[p] == m[t];
      }
    }
  }

  /** Number of leading elements of `s` strictly below `v`. */
  function CountBelow(s: seq<Int32>, v: Int32): (c: nat)
    ensures c <= |s|
    ensures forall t :: 0 <= t < c ==> s[t] < v
    ensures c < |s| ==> v <= s[c]
  {
    if s == [] || v <= s[0] then 0 else 1 + CountBelow(s[1..], v)
  }

  /** When every element of `x[..p]` and `y[..q]` is at most `v` and every
      element of `x[p..]` and `y[q..]` at least `v`, the arrangement is that of
      the two low parts followed by that of the two high parts. */
  lemma {:induction false} MergedSplits(x: seq<Int32>, y: seq<Int32>, p: nat, q: nat, v: Int32)
    requires Sorted(x) && Sorted(y) && p <= |x| && q <= |y|
    requires forall t :: 0 <= t < p ==> x[t] <= v
    requires forall t :: 0 <= t < q ==> y[t] <= v
    requires forall t :: p <= t < |x| ==> v <= x[t]
    requires forall t :: q <= t < |y| ==> v <= y[t]
    ensures Merged(x, y) == Merged(x[..p], y[..q]) + Merged(x[p..], y[q..])
  {
    var xl, xr, yl, yr := x[..p], x[p..], y[..q], y[q..];
    assert x == xl + xr;
    assert y == yl + yr;
    SortedTake(x, p);
    SortedDrop(x, p);
    SortedTake(y, q);
    SortedDrop(y, q);
    var left, right := Merged(xl, yl), Merged(xr, yr);
    MergedBounded(xl, yl, MinValue as int, v as int);
    MergedBounded(xr, yr, v as int, MaxValue as int);
    SortedJoin(left, right, v);
    assert multiset(left + right) == multiset(x) + multiset(y);
    SortedUnique(Merged(x, y), left + right);
  }

  /** Indexing past the first part of a concatenation reads the second part. */
  lemma {:induction false} IndexInSecond(l: seq<Int32>, r: seq<Int32>, n: nat)
    requires |l| <= n < |l| + |r|
    ensures (l + r)[n] == r[n - |l|]
  {
  }

  /** With `q` the number of elements of `y` below `x[p - 1]`, the arrangement
      holds `x[..p]` and `y[..q]` below rank `p + q`, and the arrangement of
      the rest from there on. */
  lemma {:induction false} RankInHighPart(x: seq<Int32>, y: seq<Int32>, p: nat, q: nat, n: nat)
    requires Sorted(x) && Sorted(y) && 1 <= p <= |x| && q <= |y|
    requires forall t :: 0 <= t < q ==> y[t] < x[p - 1]
    requires q < |y| ==> x[p - 1] <= y[q]
    requires p + q <= n < |x| + |y|
    ensures Merged(x, y)[n] == Merged(x[p..], y[q..])[n - p - q]
  {
    var v := x[p - 1];
    forall t | 0 <= t < p ensures x[t] <= v {
      SortedAt(x, t, p - 1);
    }
    forall t | p <= t < |x| ensures v <= x[t] {
      SortedAt(x, p - 1, t);
    }
    forall t | q <= t < |y| ensures v <= y[t] {
      SortedAt(y, q, t);
    }
    MergedSplits(x, y, p, q, v);
    var low, high := Merged(x[..p], y[..q]), Merged(x[p..], y[q..]);
    IndexInSecond(low, high, n);
  }

  /** Elements of `y` below everything in `x` come first in the arrangement. */
  lemma {:induction false} LowHeadsFirst(x: seq<Int32>, y: seq<Int32>, q: nat, v: Int32)
    requires Sorted(x) && Sorted(y) && q <= |y|
    requires forall t :: 0 <= t < q ==> y[t] < v
    requires x != [] ==> v <= x[0]
    requires q < |y| ==> v <= y[q]
    ensures Merged(x, y) == y[..q] + Merged(x, y[q..])
  {
    forall t | 0 <= t < |x| ensures v <= x[t] {
      SortedAt(x, 0, t);
    }
    forall t | q <= t < |y| ensures v <= y[t] {
      SortedAt(y, q, t);
    }
    MergedSplits(x, y, 0, q, v);
    assert x[..0] == [] && x[0..] == x;
    SortedTake(y, q);
    MergedBaseCases([], y[..q]);
  }

  /** The halving step of the k-th selection. When `x` has at least `h`
      elements and its `h`-th is no greater than the `h`-th of `y` (or `y` has
      fewer than `h`), the first `h` elements of `x` all rank below `k` (for
      `2h <= k`): dropping them turns the k-th element into the (k-h)-th. */
  lemma {:induction false} DiscardPrefix(x: seq<Int32>, y: seq<Int32>, h: nat, k: nat)
    requires Sorted(x) && Sorted(y)
    requires 1 <= h <= |x| && 2 * h <= k <= |x| + |y|
    requires h > |y| || x[h - 1] <= y[h - 1]
    ensures Merged(x, y)[k - 1] == Merged(x[h..], y)[k - 1 - h]
  {
    var c := CountBelow(y, x[h - 1]);
    assert c < h;
    DiscardAround(x, y, h, c, k);
  }

  /** The halving step, given the number `c < h` of elements of `y` below `x[h - 1]`. */
  lemma {:induction false} DiscardAround(x: seq<Int32>, y: seq<Int32>, h: nat, c: nat, k: nat)
    requires Sorted(x) && Sorted(y)
    requires 1 <= h <= |x| && 2 * h <= k <= |x| + |y| && c < h && c <= |y|
    requires forall t :: 0 <= t < c ==> y[t] < x[h - 1]
    requires c < |y| ==> x[h - 1] <= y[c]
    ensures Merged(x, y)[k - 1] == Merged(x[h..], y)[k - 1 - h]
  {
    // The whole arrangement splits at rank h + c ...
    RankInHighPart(x, y, h, c, k - 1);
    // ... and without x's first h elements, the c small elements of y come first.
    var xr := x[h..];
    SortedDrop(x, h);
    if h < |x| {
      SortedAt(x, h - 1, h);
    }
    LowHeadsFirst(xr, y, c, x[h - 1]);
    var low, high := y[..c], Merged(xr, y[c..]);
    IndexInSecond(low, high, k - 1 - h);
  }

  /** The halving step with the roles of the two sequences exchanged. */
  lemma {:induction false} DiscardPrefixOfSecond(x: seq<Int32>, y: seq<Int32>, h: nat, k: nat)
    requires Sorted(x) && Sorted(y)
    requires 1 <= h <= |y| && 2 * h <= k <= |x| + |y|
    requires h > |x| || y[h - 1] <= x[h - 1]
    ensures Merged(x, y)[k - 1] == Merged(x, y[h..])[k - 1 - h]
  {
    MergedCommutes(x, y);
    DiscardPrefix(y, x, h, k);
    SortedDrop(y, h);
    MergedCommutes(x, y[h..]);
  }

  /** The halving step when the probe into `y` falls past its end while the
      probe into `x` reads a real `Integer.MAX_VALUE`: the selection then
      drops the whole of `y` (fewer than `h` elements, yet counted as `h`).
      The answer is still right, because the k-th element of the arrangement
      and the (k-h)-th of `x` are both `Integer.MAX_VALUE`. */
  lemma {:induction false} DiscardPastEnd(x: seq<Int32>, y: seq<Int32>, h: nat, k: nat)
    requires Sorted(x) && Sorted(y)
    requires 1 <= h <= |x| && |y| < h && 2 * h <= k <= |x| + |y|
    requires x[h - 1] == MaxValue
    ensures k - h - 1 < |x|
    ensures Merged(x, y)[k - 1] == x[k - h - 1] == MaxValue
  {
    var xl, xr := x[..h - 1], x[h - 1..];
    assert x == xl + xr;
    SortedTake(x, h - 1);
    SortedDrop(x, h - 1);
    forall t | 0 <= t < |xr| ensures MaxValue <= xr[t] {
      SortedAt(x, h - 1, h - 1 + t);
    }
    var left := Merged(xl, y);
    MergedBounded(xl, y, MinValue as int, MaxValue as int);
    SortedJoin(left, xr, MaxValue);
    assert multiset(left + xr) == multiset(x) + multiset(y);
    SortedUnique(Merged(x, y), left + xr);
    IndexInSecond(left, xr, k - 1);
  }
}
