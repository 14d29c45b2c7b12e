/**
 * Quicksort in four flavours over one metrics record: the optimised sort
 * (shuffle, random pivot, recursion on the smaller side and iteration on the
 * larger, insertion sort below the cutoff), three-way partitioning for
 * duplicates, a plain random-pivot quicksort, and the optimised loop with a
 * median-of-three pivot instead of a random one.
 *
 * Pivots come from `ArrayUtils.NextInt`, an arbitrary choice in range, so
 * every property below holds whatever pivots are drawn.
 */
module QuickSort {
  import opened Segments
  import opened Metrics
  import opened ArrayUtils

  /** Ranges with `high - low` below this are insertion-sorted. */
  const InsertionSortCutoff := 10

  /**
   * The state of the tail-iterating loop over the original range
   * `[low0, high0]`, whose array started as `a0`: the range is a rearrangement
   * of `a0`'s, the finished prefix `[low0, low)` and suffix `(high, high0]` are
   * sorted, and each is in place relative to everything after or before it.
   * `[low, high]` is what is left to sort.
   */
  ghost predicate Progress(a0: seq<int>, s: seq<int>, low0: int, low: int, high: int, high0: int) {
    && Perm(a0, s, low0, high0 + 1)
    && Finished(s, low0, low, high, high0)
  }

  /** The ordering half of `Progress`. */
  ghost predicate Finished(s: seq<int>, low0: int, low: int, high: int, high0: int) {
    && 0 <= low0 <= low <= high + 1 <= high0 + 1 <= |s|
    && SortedRange(s, low0, low) && SortedRange(s, high + 1, high0 + 1)
    && Split(s, low0, low, high0 + 1) && Split(s, low0, high + 1, high0 + 1)
  }

  /** Before the first iteration nothing is finished. */
  lemma ProgressStart(a0: seq<int>, low0: int, high0: int)
    requires 0 <= low0 <= high0 + 1 <= |a0|
    ensures Progress(a0, a0, low0, low0, high0, high0)
  {
    PermRefl(a0, low0, high0 + 1);
  }

  /** A lower bound on every element of a rearranged range survives the rearrangement. */
  lemma PermKeepsAtLeast(s: seq<int>, t: seq<int>, lo: int, hi: int, v: int)
    requires Perm(s, t, lo, hi) && forall k :: lo <= k < hi ==> v <= s[k]
    ensures forall k :: lo <= k < hi ==> v <= t[k]
  {
    forall k | lo <= k < hi ensures v <= t[k] {
      var k' := PermSource(s, t, lo, hi, k);
    }
  }

  /** Rearranging what is left to sort keeps the loop state. */
  lemma ProgressKept(a0: seq<int>, s: seq<int>, t: seq<int>, low0: int, low: int, high: int, high0: int)
    requires Progress(a0, s, low0, low, high, high0) && Perm(s, t, low, high + 1)
    ensures Progress(a0, t, low0, low, high, high0)
  {
    PermWiden(s, t, low0, high0 + 1, low, high + 1);
    PermTrans(a0, s, t, low0, high0 + 1);
    FinishedKept(s, t, low0, low, high, high0);
  }

  /** Rearranging what is left to sort keeps the finished parts finished. */
  lemma FinishedKept(s: seq<int>, t: seq<int>, low0: int, low: int, high: int, high0: int)
    requires Finished(s, low0, low, high, high0) && Perm(s, t, low, high + 1)
    ensures Finished(t, low0, low, high, high0)
  {
    PermKeepsSorted(s, t, low, high + 1, low0, low);
    PermKeepsSorted(s, t, low, high + 1, high + 1, high0 + 1);
    PermKeepsSplit(s, t, low, high + 1, low0, low, high0 + 1);
    PermKeepsSplit(s, t, low, high + 1, low0, high + 1, high0 + 1);
  }

  /** Sorting the left side of a partition keeps the pivot in place. */
  lemma PivotKeptLeft(s1: seq<int>, s2: seq<int>, low: int, p: int, high: int)
    requires 0 <= low <= p <= high < |s1| && PivotAt(s1, low, p, high) && Perm(s1, s2, low, p)
    ensures PivotAt(s2, low, p, high)
  {
    PermKeepsBelow(s1, s2, low, p, s1[p]);
    assert s2[p..] == s1[p..];
    forall k | p <= k <= high ensures s2[k] == s1[k] {
      assert s2[k] == s2[p..][k - p];
    }
  }

  /** Sorting the right side of a partition keeps the pivot in place. */
  lemma PivotKeptRight(s1: seq<int>, s2: seq<int>, low: int, p: int, high: int)
    requires 0 <= low <= p <= high < |s1| && PivotAt(s1, low, p, high) && Perm(s1, s2, p + 1, high + 1)
    ensures PivotAt(s2, low, p, high)
  {
    PermKeepsAtLeast(s1, s2, p + 1, high + 1, s1[p]);
    assert s2[..p + 1] == s1[..p + 1];
    forall k | low <= k <= p ensures s2[k] == s1[k] {
      assert s2[k] == s2[..p + 1][k];
    }
  }

  /** A pivot in place with a sorted left side extends the finished prefix past the pivot. */
  lemma ExtendLeft(a0: seq<int>, t: seq<int>, low0: int, low: int, p: int, high: int, high0: int)
    requires Progress(a0, t, low0, low, high, high0) && low <= p <= high
    requires PivotAt(t, low, p, high) && SortedRange(t, low, p)
    ensures Progress(a0, t, low0, p + 1, high, high0)
  {
    forall i, j | low0 <= i <= p < j <= high0 ensures t[i] <= t[j] {
      if j <= high && low <= i {
        assert t[i] <= t[p];
      }
    }
    SortedFromParts(t, low0, low, p, p + 1);
  }

  /** A pivot in place with a sorted right side extends the finished suffix down to the pivot. */
  lemma ExtendRight(a0: seq<int>, t: seq<int>, low0: int, low: int, p: int, high: int, high0: int)
    requires Progress(a0, t, low0, low, high, high0) && low <= p <= high
    requires PivotAt(t, low, p, high) && SortedRange(t, p + 1, high + 1)
    ensures Progress(a0, t, low0, low, p - 1, high0)
  {
    forall i, j | low0 <= i < p <= j <= high0 ensures t[i] <= t[j] {
      if low <= i && j <= high {
        assert t[p] <= t[j];
      }
    }
    SortedFromParts(t, p, p + 1, high + 1, high0 + 1);
  }

  /**
   * After partitioning `[low, high]` at `p` and sorting the left side, the
   * finished prefix grows to `[low0, p]`.
   */
  lemma ProgressLeft(a0: seq<int>, s1: seq<int>, s2: seq<int>,
                     low0: int, low: int, p: int, high: int, high0: int)
    requires Progress(a0, s1, low0, low, high, high0) && low <= p <= high && PivotAt(s1, low, p, high)
    requires Perm(s1, s2, low, p) && SortedRange(s2, low, p)
    ensures Progress(a0, s2, low0, p + 1, high, high0)
  {
    PermWiden(s1, s2, low, high + 1, low, p);
    ProgressKept(a0, s1, s2, low0, low, high, high0);
    PivotKeptLeft(s1, s2, low, p, high);
    ExtendLeft(a0, s2, low0, low, p, high, high0);
  }

  /**
   * After partitioning `[low, high]` at `p` and sorting the right side, the
   * finished suffix grows to `[p, high0]`.
   */
  lemma ProgressRight(a0: seq<int>, s1: seq<int>, s2: seq<int>,
                      low0: int, low: int, p: int, high: int, high0: int)
    requires Progress(a0, s1, low0, low, high, high0) && low <= p <= high && PivotAt(s1, low, p, high)
    requires Perm(s1, s2, p + 1, high + 1) && SortedRange(s2, p + 1, high + 1)
    ensures Progress(a0, s2, low0, low, p - 1, high0)
  {
    PermWiden(s1, s2, low, high + 1, p + 1, high + 1);
    ProgressKept(a0, s1, s2, low0, low, high, high0);
    PivotKeptRight(s1, s2, low, p, high);
    ExtendRight(a0, s2, low0, low, p, high, high0);
  }

  /** Sorting what is left finishes the whole range. */
  lemma ProgressFinish(a0: seq<int>, s: seq<int>, s2: seq<int>, low0: int, low: int, high: int, high0: int)
    requires Progress(a0, s, low0, low, high, high0)
    requires Perm(s, s2, low, high + 1) && SortedRange(s2, low, high + 1)
    ensures Perm(a0, s2, low0, high0 + 1) && SortedRange(s2, low0, high0 + 1)
  {
    ProgressKept(a0, s, s2, low0, low, high, high0);
    SortedFromParts(s2, low0, low, high + 1, high0 + 1);
  }

  /**
   * Partitioning at `p` and then sorting both sides sorts the range: the
   * correctness argument of plain quicksort.
   */
  lemma PivotSorted(s: seq<int>, s1: seq<int>, s2: seq<int>, s3: seq<int>, low: int, p: int, high: int)
    requires 0 <= low <= p <= high < |s|
    requires Perm(s, s1, low, high + 1) && PivotAt(s1, low, p, high)
    requires Perm(s1, s2, low, p) && SortedRange(s2, low, p)
    requires Perm(s2, s3, p + 1, high + 1) && SortedRange(s3, p + 1, high + 1)
    ensures Perm(s, s3, low, high + 1) && SortedRange(s3, low, high + 1)
  {
    ProgressStart(s, low, high);
    ProgressKept(s, s, s1, low, low, high, high);
    ProgressLeft(s, s1, s2, low, low, p, high, high);
    ProgressFinish(s, s2, s3, low, p + 1, high, high);
  }

  /**
   * Three-way partitioning into bands around `pivot` and then sorting the
   * outer bands sorts the range; the middle band needs no work.
   */
  lemma BandsSorted(s: seq<int>, s1: seq<int>, s2: seq<int>, s3: seq<int>,
                    low: int, lt: int, gt: int, high: int, pivot: int)
    requires 0 <= low <= lt <= gt <= high < |s|
    requires Perm(s, s1, low, high + 1) && Bands(s1, low, lt, gt, high, pivot)
    requires Perm(s1, s2, low, lt) && SortedRange(s2, low, lt)
    requires Perm(s2, s3, gt + 1, high + 1) && SortedRange(s3, gt + 1, high + 1)
    ensures Perm(s, s3, low, high + 1) && SortedRange(s3, low, high + 1)
  {
    PermBothSides(s, s1, s2, s3, low, lt, gt + 1, high + 1);
    BandsKeptLow(s1, s2, low, lt, gt, high, pivot);
    BandsKeptHigh(s2, s3, low, lt, gt, high, pivot);
    PermKeepsSorted(s2, s3, gt + 1, high + 1, low, lt);
    BandsInOrder(s3, low, lt, gt, high, pivot);
  }

  /** Rearranging a range, then a left piece of it and then a right piece, rearranges the range. */
  lemma PermBothSides(s: seq<int>, s1: seq<int>, s2: seq<int>, s3: seq<int>, lo: int, a: int, b: int, hi: int)
    requires Perm(s, s1, lo, hi) && lo <= a <= b <= hi
    requires Perm(s1, s2, lo, a) && Perm(s2, s3, b, hi)
    ensures Perm(s, s3, lo, hi)
  {
    PermWiden(s1, s2, lo, hi, lo, a);
    PermWiden(s2, s3, lo, hi, b, hi);
    PermTrans(s, s1, s2, lo, hi);
    PermTrans(s, s2, s3, lo, hi);
  }

  /** Rearranging the lower band keeps the bands. */
  lemma BandsKeptLow(s: seq<int>, t: seq<int>, low: int, lt: int, gt: int, high: int, pivot: int)
    requires 0 <= low <= lt <= gt <= high < |s| && Bands(s, low, lt, gt, high, pivot) && Perm(s, t, low, lt)
    ensures Bands(t, low, lt, gt, high, pivot)
  {
    PermKeepsBelow(s, t, low, lt, pivot);
    assert t[lt..] == s[lt..];
    forall k | lt <= k <= high ensures t[k] == s[k] {
      assert t[k] == t[lt..][k - lt];
    }
  }

  /** Rearranging the upper band keeps the bands. */
  lemma BandsKeptHigh(s: seq<int>, t: seq<int>, low: int, lt: int, gt: int, high: int, pivot: int)
    requires 0 <= low <= lt <= gt <= high < |s| && Bands(s, low, lt, gt, high, pivot) && Perm(s, t, gt + 1, high + 1)
    ensures Bands(t, low, lt, gt, high, pivot)
  {
    forall k | gt < k <= high ensures pivot < t[k] {
      var k' := PermSource(s, t, gt + 1, high + 1, k);
    }
    assert t[..gt + 1] == s[..gt + 1];
    forall k | low <= k <= gt ensures t[k] == s[k] {
      assert t[k] == t[..gt + 1][k];
    }
  }

  /** Bands whose outer two are sorted make a sorted range. */
  lemma BandsInOrder(s: seq<int>, low: int, lt: int, gt: int, high: int, pivot: int)
    requires 0 <= low <= lt <= gt <= high < |s| && Bands(s, low, lt, gt, high, pivot)
    requires SortedRange(s, low, lt) && SortedRange(s, gt + 1, high + 1)
    ensures SortedRange(s, low, high + 1)
  {
    SortedFromParts(s, low, lt, gt + 1, high + 1);
  }

  /**
   * Splitting `[low, high]` at `p`, the smaller side holds at most half of
   * the other elements, so it fits a budget one smaller than the range's.
   */
  lemma SmallerSideFits(low: int, p: int, high: int, b: nat)
    requires low <= p <= high && low < high && high - low + 1 <= Pow2(b)
    ensures p - low < high - p ==> p - low <= (high - low) / 2
    ensures !(p - low < high - p) ==> high - p <= (high - low) / 2
    ensures b >= 1
    ensures p - low < high - p ==> p - low <= Pow2(b - 1)
    ensures !(p - low < high - p) ==> high - p <= Pow2(b - 1)
  {
  }

  /** `s` with positions `i` and `j` exchanged when `s[i] > s[j]`. */
  ghost function Ordered(s: seq<int>, i: int, j: int): (r: seq<int>)
    requires 0 <= i < |s| && 0 <= j < |s|
    ensures |r| == |s| && r[i] <= r[j]
  {
    if s[i] > s[j] then Swapped(s, i, j) else s
  }

  lemma PermOrdered(s: seq<int>, i: int, j: int, lo: int, hi: int)
    requires 0 <= lo <= i < hi <= |s| && lo <= j < hi
    ensures Perm(s, Ordered(s, i, j), lo, hi)
  {
    if s[i] > s[j] {
      PermSwap(s, i, j, lo, hi);
    } else {
      PermRefl(s, lo, hi);
    }
  }

  /** The three compare-and-swaps of median-of-three, on sequences. */
  ghost function MedianOrdered(s: seq<int>, low: int, mid: int, high: int): (t: seq<int>)
    requires 0 <= low <= mid <= high < |s|
    ensures |t| == |s|
  {
    Ordered(Ordered(Ordered(s, low, mid), low, high), mid, high)
  }

  /** After the three compare-and-swaps the values at `low`, `mid` and `high` are in order. */
  lemma MedianOrderedSorts(s: seq<int>, low: int, mid: int, high: int)
    requires 0 <= low <= mid <= high < |s|
    ensures var t := MedianOrdered(s, low, mid, high); t[low] <= t[mid] <= t[high]
  {
    var t1 := Ordered(s, low, mid);
    var t2 := Ordered(t1, low, high);
    var t3 := Ordered(t2, mid, high);
    if low == mid {
      assert t3[low] == t3[mid];
    } else if mid == high {
      assert t3[mid] == t3[high];
    } else {
      assert t2[low] <= t1[low] <= t1[mid] == t2[mid];
      assert t3[low] == t2[low];
      assert t2[low] <= t3[mid];
    }
  }

  /**
   * The three compare-and-swaps only rearrange the values at `low`, `mid`
   * and `high` among themselves.
   */
  lemma MedianOrderedPerm(s: seq<int>, low: int, mid: int, high: int)
    requires 0 <= low <= mid <= high < |s|
    ensures var t := MedianOrdered(s, low, mid, high);
      && Perm(s, t, low, high + 1)
      && (forall k :: 0 <= k < |s| && k != low && k != mid && k != high ==> t[k] == s[k])
  {
    var t1 := Ordered(s, low, mid);
    var t2 := Ordered(t1, low, high);
    var t3 := Ordered(t2, mid, high);
    PermOrdered(s, low, mid, low, high + 1);
    PermOrdered(t1, low, high, low, high + 1);
    PermOrdered(t2, mid, high, low, high + 1);
    PermTrans(s, t1, t2, low, high + 1);
    PermTrans(s, t2, t3, low, high + 1);
  }

  /** With three distinct positions, the three values are rearranged among themselves. */
  lemma MedianOrderedThree(s: seq<int>, low: int, mid: int, high: int)
    requires 0 <= low < mid < high < |s|
    ensures var t := MedianOrdered(s, low, mid, high);
      multiset{t[low], t[mid], t[high]} == multiset{s[low], s[mid], s[high]}
  {
    var t1 := Ordered(s, low, mid);
    var t2 := Ordered(t1, low, high);
    var t3 := Ordered(t2, mid, high);
    ExchangeKeepsThree(s[low], s[mid], s[high]);
    assert t1[high] == s[high] && (t1[low], t1[mid]) in {(s[low], s[mid]), (s[mid], s[low])};
    ExchangeKeepsThree(t1[low], t1[mid], t1[high]);
    assert t2[mid] == t1[mid] && (t2[low], t2[high]) in {(t1[low], t1[high]), (t1[high], t1[low])};
    ExchangeKeepsThree(t2[low], t2[mid], t2[high]);
    assert t3[low] == t2[low] && (t3[mid], t3[high]) in {(t2[mid], t2[high]), (t2[high], t2[mid])};
  }

  /** Exchanging two of three values keeps the multiset of the three. */
  lemma ExchangeKeepsThree(x: int, y: int, z: int)
    ensures multiset{y, x, z} == multiset{x, y, z}
    ensures multiset{z, y, x} == multiset{x, y, z}
    ensures multiset{x, z, y} == multiset{x, y, z}
  {
    ExchangeFirstTwo(x, y, z);
    ExchangeOuter(x, y, z);
    ExchangeFirstTwo(x, z, y);
  }

  lemma ExchangeFirstTwo(x: int, y: int, z: int)
    ensures multiset{y, x, z} == multiset{x, y, z}
  {
    assert multiset{y, x} == multiset{x, y};
  }

  lemma ExchangeOuter(x: int, y: int, z: int)
    ensures multiset{z, y, x} == multiset{x, y, z}
  {
    assert multiset{z, y, x} == multiset{z} + multiset{y} + multiset{x};
  }

  /** How the tail-iterating quicksort picks the pivot of each round. */
  datatype PivotRule = RandomPivot | MedianOfThreePivot

  /** A sorter: its metrics record, named "QuickSort". */
  class QuickSort {
    const metrics: MetricsCollector

    constructor ()
      ensures fresh(metrics) && metrics.algorithmName == "QuickSort"
      ensures metrics.comparisons == 0 && metrics.swaps == 0 && metrics.allocations == 0
    {
      metrics := new MetricsCollector("QuickSort");
    }

    /**
     * The optimised sort: shuffles, then runs the tail-iterating quicksort.
     * Arrays of fewer than two elements are left alone, metrics included.
     */
    method Sort(arr: array?<int>, d: DepthTracker, startNanos: int, stopNanos: int)
      modifies metrics, arr, d
      ensures arr == null || arr.Length <= 1 ==> unchanged(metrics, d) && (arr != null ==> unchanged(arr))
      ensures arr != null && arr.Length > 1 ==>
        && Sorted(arr[..]) && multiset(arr[..]) == multiset(old(arr[..]))
        && metrics.allocations == 0 && metrics.swaps >= 0 && metrics.comparisons >= 0
        && metrics.inputSize == arr.Length && metrics.recordedMaxDepth == 0
        && metrics.startTime == startNanos && metrics.endTime == stopNanos
        && metrics.algorithmName == old(metrics.algorithmName)
        && d.current == old(d.current)
        && old(d.maxDepth) <= d.maxDepth <= Max(old(d.maxDepth), old(d.current) + Log2(arr.Length) + 2)
    {
      if arr == null || arr.Length <= 1 {
        return;
      }
      metrics.Reset();
      metrics.SetInputSize(arr.Length);
      metrics.StartTimer(startNanos);
      Shuffle(arr);
      ghost var a0 := arr[..];
      Log2Bounds(arr.Length);
      QuickSortOptimized(arr, 0, arr.Length - 1, d, RandomPivot, Log2(arr.Length) + 1);
      WholeArray(a0, arr[..]);
      metrics.StopTimer(stopNanos);
    }

    /**
     * The tail-iterating quicksort of `arr[low..high]` behind both `Sort`
     * (random pivots) and `SortMedianOfThree` (median-of-three pivots): while
     * the range has two or more elements, one depth level per round, either
     * insertion-sorts it (below the cutoff) and stops, or partitions it,
     * recurses on the smaller side and keeps iterating on the larger. The
     * ghost `b` is a depth budget: a range of at most `2^b` elements goes at
     * most `b + 1` levels deep, because each recursive call gets at most half
     * of the range.
     */
    method QuickSortOptimized(arr: array<int>, low: int, high: int, d: DepthTracker, rule: PivotRule, ghost b: nat)
      requires 0 <= low <= high + 1 <= arr.Length && high - low + 1 <= Pow2(b)
      modifies arr, metrics, d
      ensures Perm(old(arr[..]), arr[..], low, high + 1) && SortedRange(arr[..], low, high + 1)
      ensures metrics.comparisons >= old(metrics.comparisons) && metrics.swaps >= old(metrics.swaps)
      ensures metrics.allocations == old(metrics.allocations) && metrics.Settings() == old(metrics.Settings())
      ensures d.current == old(d.current)
      ensures old(d.maxDepth) <= d.maxDepth <= Max(old(d.maxDepth), old(d.current) + b + 1)
      decreases high - low + 1, 2
    {
      ghost var a0 := arr[..];
      ProgressStart(a0, low, high);
      var lo, hi := low, high;
      while lo < hi
        invariant Progress(a0, arr[..], low, lo, hi, high)
        invariant metrics.comparisons >= old(metrics.comparisons) && metrics.swaps >= old(metrics.swaps)
        invariant metrics.allocations == old(metrics.allocations) && metrics.Settings() == old(metrics.Settings())
        invariant d.current == old(d.current)
        invariant old(d.maxDepth) <= d.maxDepth <= Max(old(d.maxDepth), old(d.current) + b + 1)
        decreases hi - lo
      {
        d.EnterRecursion();
        ghost var s := arr[..];
        if hi - lo < InsertionSortCutoff {
          SortSmall(arr, lo, hi, metrics);
          ProgressFinish(a0, s, arr[..], low, lo, hi, high);
          d.ExitRecursion();
          return;
        }
        lo, hi := PartitionAndRecurse(arr, a0, low, high, lo, hi, d, rule, b);
        d.ExitRecursion();
      }
      PermRefl(arr[..], lo, hi + 1);
      ProgressFinish(a0, arr[..], arr[..], low, lo, hi, high);
    }

    /**
     * One round of `QuickSortOptimized` on a range of at least the cutoff:
     * partition `arr[lo..hi]` around a pivot chosen by `rule`, sort the
     * smaller side recursively, and return the larger side as what is left.
     */
    method PartitionAndRecurse(arr: array<int>, ghost a0: seq<int>, ghost low0: int, ghost high0: int,
                               lo: int, hi: int, d: DepthTracker, rule: PivotRule, ghost b: nat)
      returns (lo': int, hi': int)
      requires Progress(a0, arr[..], low0, lo, hi, high0) && lo < hi && hi - lo + 1 <= Pow2(b)
      modifies arr, metrics, d
      ensures Progress(a0, arr[..], low0, lo', hi', high0) && hi' - lo' < hi - lo
      ensures metrics.comparisons >= old(metrics.comparisons) && metrics.swaps >= old(metrics.swaps)
      ensures metrics.allocations == old(metrics.allocations) && metrics.Settings() == old(metrics.Settings())
      ensures d.current == old(d.current)
      ensures old(d.maxDepth) <= d.maxDepth <= Max(old(d.maxDepth), old(d.current) + b)
      decreases hi - lo + 1, 1
    {
      var p := PartitionRound(arr, a0, low0, high0, lo, hi, rule);
      if p - lo < hi - p {
        RecurseLeft(arr, a0, low0, high0, lo, p, hi, d, rule, b);
        lo', hi' := p + 1, hi;
      } else {
        RecurseRight(arr, a0, low0, high0, lo, p, hi, d, rule, b);
        lo', hi' := lo, p - 1;
      }
    }

    /** Picks a pivot by `rule` and partitions `arr[lo..hi]` around it. */
    method PartitionRound(arr: array<int>, ghost a0: seq<int>, ghost low0: int, ghost high0: int,
                          lo: int, hi: int, rule: PivotRule) returns (p: int)
      requires Progress(a0, arr[..], low0, lo, hi, high0) && lo < hi
      modifies arr, metrics
      ensures Progress(a0, arr[..], low0, lo, hi, high0) && lo <= p <= hi && PivotAt(arr[..], lo, p, hi)
      ensures metrics.comparisons >= old(metrics.comparisons) && metrics.swaps >= old(metrics.swaps)
      ensures metrics.allocations == old(metrics.allocations) && metrics.Settings() == old(metrics.Settings())
    {
      ghost var s := arr[..];
      var pivotIndex := ChoosePivot(arr, lo, hi, rule);
      ghost var sp := arr[..];
      p := Partition(arr, lo, hi, pivotIndex, metrics);
      PermTrans(s, sp, arr[..], lo, hi + 1);
      ProgressKept(a0, s, arr[..], low0, lo, hi, high0);
    }

    /** Picks the pivot index of one round: at random, or by median-of-three. */
    method ChoosePivot(arr: array<int>, lo: int, hi: int, rule: PivotRule) returns (pivotIndex: int)
      requires 0 <= lo < hi < arr.Length
      modifies arr, metrics
      ensures lo <= pivotIndex <= hi && Perm(old(arr[..]), arr[..], lo, hi + 1)
      ensures metrics.comparisons >= old(metrics.comparisons) && metrics.swaps >= old(metrics.swaps)
      ensures metrics.allocations == old(metrics.allocations) && metrics.Settings() == old(metrics.Settings())
    {
      if rule == RandomPivot {
        var r := NextInt(hi - lo + 1);
        pivotIndex := lo + r;
        PermRefl(arr[..], lo, hi + 1);
      } else {
        pivotIndex := MedianOfThree(arr, lo, hi);
      }
    }

    /** Sorts the left side `arr[lo..p-1]` of a partitioned range when it is the smaller one, one level deeper. */
    method RecurseLeft(arr: array<int>, ghost a0: seq<int>, ghost low0: int, ghost high0: int,
                       lo: int, p: int, hi: int, d: DepthTracker, rule: PivotRule, ghost b: nat)
      requires Progress(a0, arr[..], low0, lo, hi, high0) && lo <= p <= hi
      requires PivotAt(arr[..], lo, p, hi) && lo < hi && p - lo < hi - p && hi - lo + 1 <= Pow2(b)
      modifies arr, metrics, d
      ensures Progress(a0, arr[..], low0, p + 1, hi, high0)
      ensures metrics.comparisons >= old(metrics.comparisons) && metrics.swaps >= old(metrics.swaps)
      ensures metrics.allocations == old(metrics.allocations) && metrics.Settings() == old(metrics.Settings())
      ensures d.current == old(d.current)
      ensures old(d.maxDepth) <= d.maxDepth <= Max(old(d.maxDepth), old(d.current) + b)
      decreases hi - lo + 1, 0
    {
      ghost var s1 := arr[..];
      SmallerSideFits(lo, p, hi, b);
      QuickSortOptimized(arr, lo, p - 1, d, rule, b - 1);
      ProgressLeft(a0, s1, arr[..], low0, lo, p, hi, high0);
    }

    /** Sorts the right side `arr[p+1..hi]` of a partitioned range when it is not the larger one, one level deeper. */
    method RecurseRight(arr: array<int>, ghost a0: seq<int>, ghost low0: int, ghost high0: int,
                        lo: int, p: int, hi: int, d: DepthTracker, rule: PivotRule, ghost b: nat)
      requires Progress(a0, arr[..], low0, lo, hi, high0) && lo <= p <= hi
      requires PivotAt(arr[..], lo, p, hi) && lo < hi && p - lo >= hi - p && hi - lo + 1 <= Pow2(b)
      modifies arr, metrics, d
      ensures Progress(a0, arr[..], low0, lo, p - 1, high0)
      ensures metrics.comparisons >= old(metrics.comparisons) && metrics.swaps >= old(metrics.swaps)
      ensures metrics.allocations == old(metrics.allocations) && metrics.Settings() == old(metrics.Settings())
      ensures d.current == old(d.current)
      ensures old(d.maxDepth) <= d.maxDepth <= Max(old(d.maxDepth), old(d.current) + b)
      decreases hi - lo + 1, 0
    {
      ghost var s1 := arr[..];
      SmallerSideFits(lo, p, hi, b);
      QuickSortOptimized(arr, p + 1, hi, d, rule, b - 1);
      ProgressRight(a0, s1, arr[..], low0, lo, p, hi, high0);
    }

    /** The three-way sort: no shuffle, straight into `QuickSort3Way`. */
    method Sort3Way(arr: array?<int>, d: DepthTracker, startNanos: int, stopNanos: int)
      modifies metrics, arr, d
      ensures arr == null || arr.Length <= 1 ==> unchanged(metrics, d) && (arr != null ==> unchanged(arr))
      ensures arr != null && arr.Length > 1 ==>
        && Sorted(arr[..]) && multiset(arr[..]) == multiset(old(arr[..]))
        && metrics.allocations == 0 && metrics.swaps >= 0 && metrics.comparisons >= 0
        && metrics.inputSize == arr.Length && metrics.recordedMaxDepth == 0
        && metrics.startTime == startNanos && metrics.endTime == stopNanos
        && metrics.algorithmName == old(metrics.algorithmName)
        && d.current == old(d.current)
        && old(d.maxDepth) <= d.maxDepth <= Max(old(d.maxDepth), old(d.current) + arr.Length)
    {
      if arr == null || arr.Length <= 1 {
        return;
      }
      metrics.Reset();
      metrics.SetInputSize(arr.Length);
      metrics.StartTimer(startNanos);
      ghost var a0 := arr[..];
      QuickSort3Way(arr, 0, arr.Length - 1, d);
      WholeArray(a0, arr[..]);
      metrics.StopTimer(stopNanos);
    }

    /**
     * Sorts `arr[low..high]` by three-way partitioning around `arr[low]` and
     * recursing on the bands below and above the pivot; every call on two or
     * more elements is one depth level. Each level removes at least the
     * pivot, so the depth is bounded by the range length.
     */
    method QuickSort3Way(arr: array<int>, low: int, high: int, d: DepthTracker)
      requires 0 <= low <= high + 1 <= arr.Length
      modifies arr, metrics, d
      ensures Perm(old(arr[..]), arr[..], low, high + 1) && SortedRange(arr[..], low, high + 1)
      ensures metrics.comparisons >= old(metrics.comparisons) && metrics.swaps >= old(metrics.swaps)
      ensures metrics.allocations == old(metrics.allocations) && metrics.Settings() == old(metrics.Settings())
      ensures d.current == old(d.current)
      ensures old(d.maxDepth) <= d.maxDepth <= Max(old(d.maxDepth), old(d.current) + (high - low + 1))
      decreases high - low + 1, 1
    {
      if low >= high {
        PermRefl(arr[..], low, high + 1);
        return;
      }
      d.EnterRecursion();
      if high - low < InsertionSortCutoff {
        SortSmall(arr, low, high, metrics);
      } else {
        SortOuterBands(arr, low, high, d);
      }
      d.ExitRecursion();
    }

    /** The recursive case of `QuickSort3Way`: partition into bands, then sort the outer two. */
    method SortOuterBands(arr: array<int>, low: int, high: int, d: DepthTracker)
      requires 0 <= low < high < arr.Length
      modifies arr, metrics, d
      ensures Perm(old(arr[..]), arr[..], low, high + 1) && SortedRange(arr[..], low, high + 1)
      ensures metrics.comparisons >= old(metrics.comparisons) && metrics.swaps >= old(metrics.swaps)
      ensures metrics.allocations == old(metrics.allocations) && metrics.Settings() == old(metrics.Settings())
      ensures d.current == old(d.current)
      ensures old(d.maxDepth) <= d.maxDepth <= Max(old(d.maxDepth), old(d.current) + (high - low))
      decreases high - low + 1, 0
    {
      ghost var s := arr[..];
      var lt, gt := Partition3Way(arr, low, high, metrics);
      ghost var s1 := arr[..];
      QuickSort3Way(arr, low, lt - 1, d);
      ghost var s2 := arr[..];
      QuickSort3Way(arr, gt + 1, high, d);
      BandsSorted(s, s1, s2, arr[..], low, lt, gt, high, s[low]);
    }

    /** The plain sort: no shuffle, straight into `QuickSortBasic`. */
    method SortBasic(arr: array?<int>, d: DepthTracker, startNanos: int, stopNanos: int)
      modifies metrics, arr, d
      ensures arr == null || arr.Length <= 1 ==> unchanged(metrics, d) && (arr != null ==> unchanged(arr))
      ensures arr != null && arr.Length > 1 ==>
        && Sorted(arr[..]) && multiset(arr[..]) == multiset(old(arr[..]))
        && metrics.allocations == 0 && metrics.swaps >= 0 && metrics.comparisons >= 0
        && metrics.inputSize == arr.Length && metrics.recordedMaxDepth == 0
        && metrics.startTime == startNanos && metrics.endTime == stopNanos
        && metrics.algorithmName == old(metrics.algorithmName)
        && d.current == old(d.current)
        && old(d.maxDepth) <= d.maxDepth <= Max(old(d.maxDepth), old(d.current) + arr.Length)
    {
      if arr == null || arr.Length <= 1 {
        return;
      }
      metrics.Reset();
      metrics.SetInputSize(arr.Length);
      metrics.StartTimer(startNanos);
      ghost var a0 := arr[..];
      QuickSortBasic(arr, 0, arr.Length - 1, d);
      WholeArray(a0, arr[..]);
      metrics.StopTimer(stopNanos);
    }

    /**
     * Sorts `arr[low..high]` by partitioning around a random pivot and
     * recursing on both sides, with no cutoff; every call on two or more
     * elements is one depth level.
     */
    method QuickSortBasic(arr: array<int>, low: int, high: int, d: DepthTracker)
      requires 0 <= low <= high + 1 <= arr.Length
      modifies arr, metrics, d
      ensures Perm(old(arr[..]), arr[..], low, high + 1) && SortedRange(arr[..], low, high + 1)
      ensures metrics.comparisons >= old(metrics.comparisons) && metrics.swaps >= old(metrics.swaps)
      ensures metrics.allocations == old(metrics.allocations) && metrics.Settings() == old(metrics.Settings())
      ensures d.current == old(d.current)
      ensures old(d.maxDepth) <= d.maxDepth <= Max(old(d.maxDepth), old(d.current) + (high - low + 1))
      decreases high - low + 1, 1
    {
      if low >= high {
        PermRefl(arr[..], low, high + 1);
        return;
      }
      d.EnterRecursion();
      SortAroundPivot(arr, low, high, d);
      d.ExitRecursion();
    }

    /** The body of `QuickSortBasic`: partition around a random pivot, then sort both sides. */
    method SortAroundPivot(arr: array<int>, low: int, high: int, d: DepthTracker)
      requires 0 <= low < high < arr.Length
      modifies arr, metrics, d
      ensures Perm(old(arr[..]), arr[..], low, high + 1) && SortedRange(arr[..], low, high + 1)
      ensures metrics.comparisons >= old(metrics.comparisons) && metrics.swaps >= old(metrics.swaps)
      ensures metrics.allocations == old(metrics.allocations) && metrics.Settings() == old(metrics.Settings())
      ensures d.current == old(d.current)
      ensures old(d.maxDepth) <= d.maxDepth <= Max(old(d.maxDepth), old(d.current) + (high - low))
      decreases high - low + 1, 0
    {
      ghost var s := arr[..];
      var r := NextInt(high - low + 1);
      var p := Partition(arr, low, high, low + r, metrics);
      ghost var s1 := arr[..];
      QuickSortBasic(arr, low, p - 1, d);
      ghost var s2 := arr[..];
      QuickSortBasic(arr, p + 1, high, d);
      PivotSorted(s, s1, s2, arr[..], low, p, high);
    }

    /**
     * Orders `arr[low]`, `arr[mid]` and `arr[high]` with three counted
     * compare-and-swaps, `mid` being the midpoint of the range, and returns
     * `mid`: afterwards `arr[mid]` is the median of the three sampled values.
     */
    method MedianOfThree(arr: array<int>, low: int, high: int) returns (mid: int)
      requires 0 <= low <= high < arr.Length
      modifies arr, metrics
      ensures mid == low + (high - low) / 2
      ensures arr[low] <= arr[mid] <= arr[high]
      ensures Perm(old(arr[..]), arr[..], low, high + 1)
      ensures forall k :: low < k < high && k != mid ==> arr[k] == old(arr[k])
      ensures low < mid < high ==>
        multiset{arr[low], arr[mid], arr[high]} == multiset{old(arr[low]), old(arr[mid]), old(arr[high])}
      ensures metrics.comparisons == old(metrics.comparisons) + 3
      ensures old(metrics.swaps) <= metrics.swaps <= old(metrics.swaps) + 3
      ensures metrics.allocations == old(metrics.allocations) && metrics.Settings() == old(metrics.Settings())
    {
      mid := low + (high - low) / 2;
      ghost var s0 := arr[..];
      CompareAndSwap(arr, low, mid);
      CompareAndSwap(arr, low, high);
      CompareAndSwap(arr, mid, high);
      assert arr[..] == MedianOrdered(s0, low, mid, high);
      MedianOrderedSorts(s0, low, mid, high);
      MedianOrderedPerm(s0, low, mid, high);
      if low < mid < high {
        MedianOrderedThree(s0, low, mid, high);
      }
    }

    /** One counted comparison of `arr[i]` with `arr[j]`, swapping them when they are out of order. */
    method CompareAndSwap(arr: array<int>, i: int, j: int)
      requires 0 <= i < arr.Length && 0 <= j < arr.Length
      modifies arr, metrics
      ensures arr[..] == Ordered(old(arr[..]), i, j)
      ensures metrics.comparisons == old(metrics.comparisons) + 1
      ensures old(metrics.swaps) <= metrics.swaps <= old(metrics.swaps) + 1
      ensures metrics.allocations == old(metrics.allocations) && metrics.Settings() == old(metrics.Settings())
    {
      metrics.IncrementComparisons();
      if arr[i] > arr[j] {
        SwapCounted(arr, i, j, metrics);
      }
    }

    /** The median-of-three sort: no shuffle, then `QuickSortOptimized` with median-of-three pivots. */
    method SortMedianOfThree(arr: array?<int>, d: DepthTracker, startNanos: int, stopNanos: int)
      modifies metrics, arr, d
      ensures arr == null || arr.Length <= 1 ==> unchanged(metrics, d) && (arr != null ==> unchanged(arr))
      ensures arr != null && arr.Length > 1 ==>
        && Sorted(arr[..]) && multiset(arr[..]) == multiset(old(arr[..]))
        && metrics.allocations == 0 && metrics.swaps >= 0 && metrics.comparisons >= 0
        && metrics.inputSize == arr.Length && metrics.recordedMaxDepth == 0
        && metrics.startTime == startNanos && metrics.endTime == stopNanos
        && metrics.algorithmName == old(metrics.algorithmName)
        && d.current == old(d.current)
        && old(d.maxDepth) <= d.maxDepth <= Max(old(d.maxDepth), old(d.current) + Log2(arr.Length) + 2)
    {
      if arr == null || arr.Length <= 1 {
        return;
      }
      metrics.Reset();
      metrics.SetInputSize(arr.Length);
      metrics.StartTimer(startNanos);
      ghost var a0 := arr[..];
      Log2Bounds(arr.Length);
      QuickSortOptimized(arr, 0, arr.Length - 1, d, MedianOfThreePivot, Log2(arr.Length) + 1);
      WholeArray(a0, arr[..]);
      metrics.StopTimer(stopNanos);
    }

  }
}
