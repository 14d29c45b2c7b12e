/**
 * k-th smallest selection (k counted from 0): the deterministic
 * median-of-medians select over groups of five, and a randomized quickselect
 * that shuffles and then always takes the first element as pivot. Both work
 * on a copy, so the caller's array is never modified.
 */
module Selection {
  import opened Segments
  import opened Metrics
  import opened ArrayUtils

  /** Elements per group in the median-of-medians pivot rule. */
  const GroupSize := 5

  /**
   * What the public entry points yield: the selected value, or the rejection
   * the original signals by throwing an IllegalArgumentException ("Invalid
   * input").
   */
  datatype SelectResult = Found(value: int) | InvalidInput

  /** The arguments `select` and `quickSelect` reject. */
  predicate Invalid(arr: array?<int>, k: int) {
    arr == null || arr.Length == 0 || k < 0 || k >= arr.Length
  }

  /** The `k`-th smallest (from 0) of `t`. */
  ghost function Pick(t: seq<int>, k: int): int
    requires 0 <= k < |t|
  {
    SortedOf(t)[k]
  }

  /**
   * `Pick(s[lo..hi], k)` after `steps` empty unfoldings. The verifier unfolds
   * a recursive definition only a bounded number of times per use, so the
   * select methods below, whose proofs chain this value through calls without
   * ever needing its definition, do not expand the sorted copy; the lemmas
   * that do need it go through `KthSmallestIsPick`.
   */
  ghost function Ranked(s: seq<int>, lo: int, hi: int, k: int, steps: nat): int
    requires 0 <= lo <= hi <= |s| && 0 <= k < hi - lo
    decreases steps
  {
    if steps == 0 then Pick(s[lo..hi], k) else Ranked(s, lo, hi, k, steps - 1)
  }

  /** The `k`-th smallest (from 0) of `s[lo..hi]`. */
  ghost function KthSmallest(s: seq<int>, lo: int, hi: int, k: int): int
    requires 0 <= lo <= hi <= |s| && 0 <= k < hi - lo
  {
    Ranked(s, lo, hi, k, hi - lo + 2)
  }

  lemma {:induction false} RankedIsPick(s: seq<int>, lo: int, hi: int, k: int, steps: nat)
    requires 0 <= lo <= hi <= |s| && 0 <= k < hi - lo
    ensures Ranked(s, lo, hi, k, steps) == SortedOf(s[lo..hi])[k]
    decreases steps
  {
    if steps > 0 {
      RankedIsPick(s, lo, hi, k, steps - 1);
    }
  }

  /** `KthSmallest` is the `k`-th element of the range's sorted copy. */
  lemma KthSmallestIsPick(s: seq<int>, lo: int, hi: int, k: int)
    requires 0 <= lo <= hi <= |s| && 0 <= k < hi - lo
    ensures KthSmallest(s, lo, hi, k) == SortedOf(s[lo..hi])[k]
  {
    RankedIsPick(s, lo, hi, k, hi - lo + 2);
  }

  /** The `k`-th smallest of a whole rearrangement of `a` is the `k`-th of sorted `a`. */
  lemma WholePick(a: seq<int>, w: seq<int>, k: int)
    requires multiset(a) == multiset(w) && 0 <= k < |w|
    ensures KthSmallest(w, 0, |w|, k) == SortedOf(a)[k]
  {
    assert w[0..|w|] == w;
    SortedOfPerm(a, w);
    KthSmallestIsPick(w, 0, |w|, k);
  }

  /** The working copy both selections take of their input. */
  method CopyOf(arr: array<int>) returns (work: array<int>)
    ensures fresh(work) && work[..] == arr[..]
  {
    work := new int[arr.Length];
    forall i | 0 <= i < arr.Length {
      work[i] := arr[i];
    }
  }

  /** A range's `k`-th smallest is one of its elements. */
  lemma KthSmallestIn(s: seq<int>, lo: int, hi: int, k: int)
    requires 0 <= lo <= hi <= |s| && 0 <= k < hi - lo
    ensures KthSmallest(s, lo, hi, k) in s[lo..hi]
  {
    var r := SortedOf(s[lo..hi]);
    KthSmallestIsPick(s, lo, hi, k);
    SortedOfSpec(s[lo..hi]);
    assert r[k] in multiset(r);
  }

  /** Rearranging a range does not change its `k`-th smallest. */
  lemma KthSmallestPerm(s0: seq<int>, s1: seq<int>, lo: int, hi: int, k: int)
    requires Perm(s0, s1, lo, hi) && 0 <= k < hi - lo
    ensures KthSmallest(s0, lo, hi, k) == KthSmallest(s1, lo, hi, k)
  {
    KthSmallestIsPick(s0, lo, hi, k);
    KthSmallestIsPick(s1, lo, hi, k);
    SortedOfPerm(s0[lo..hi], s1[lo..hi]);
  }

  /** In a one-element range the only choice is that element. */
  lemma KthSmallestSingle(s: seq<int>, lo: int)
    requires 0 <= lo < |s|
    ensures KthSmallest(s, lo, lo + 1, 0) == s[lo]
  {
    KthSmallestIsPick(s, lo, lo + 1, 0);
    assert s[lo..lo + 1] == [s[lo]];
    SortedOfSorted([s[lo]]);
  }

  /**
   * The part of `low..high` that holds the `k`-th smallest once the pivot
   * sits at `p` and is not itself the answer, and the rank to look for
   * there: the left part with the same `k`, or the right part with `k`
   * reduced by the left part and the pivot.
   */
  function SideRange(low: int, p: int, high: int, k: int): (int, int, int) {
    if k < p - low then (low, p - 1, k) else (p + 1, high, k - (p - low) - 1)
  }

  /**
   * One partition step of both selects: after `s0[low..high]` is rearranged
   * around a pivot that lands at `p`, the range's `k`-th smallest is the
   * pivot or the answer in the part `SideRange` names.
   */
  lemma SelectStep(s0: seq<int>, s1: seq<int>, low: int, p: int, high: int, k: int)
    requires Perm(s0, s1, low, high + 1) && 0 <= low <= p <= high < |s0|
    requires PivotAt(s1, low, p, high) && 0 <= k <= high - low
    ensures k == p - low ==> KthSmallest(s0, low, high + 1, k) == s1[p]
    ensures k != p - low ==>
      var (lo, hi, kk) := SideRange(low, p, high, k);
      low <= lo && hi <= high && 0 <= kk <= hi - lo && KthSmallest(s0, low, high + 1, k) == KthSmallest(s1, lo, hi + 1, kk)
  {
    if k == p - low {
      SelectPivot(s0, s1, low, p, high, k);
    } else if k < p - low {
      SelectLeft(s0, s1, low, p, high, k);
    } else {
      SelectRight(s0, s1, low, p, high, k);
    }
  }

  lemma SelectPivot(s0: seq<int>, s1: seq<int>, low: int, p: int, high: int, k: int)
    requires Perm(s0, s1, low, high + 1) && 0 <= low <= p <= high < |s0|
    requires PivotAt(s1, low, p, high) && k == p - low
    ensures KthSmallest(s0, low, high + 1, k) == s1[p]
  {
    RangeAroundPivot(s0, s1, low, p, high);
    KthSmallestIsPick(s0, low, high + 1, k);
  }

  lemma SelectLeft(s0: seq<int>, s1: seq<int>, low: int, p: int, high: int, k: int)
    requires Perm(s0, s1, low, high + 1) && 0 <= low <= p <= high < |s0|
    requires PivotAt(s1, low, p, high) && 0 <= k < p - low
    ensures KthSmallest(s0, low, high + 1, k) == KthSmallest(s1, low, p, k)
  {
    RangeAroundPivot(s0, s1, low, p, high);
    KthSmallestIsPick(s0, low, high + 1, k);
    KthSmallestIsPick(s1, low, p, k);
  }

  lemma SelectRight(s0: seq<int>, s1: seq<int>, low: int, p: int, high: int, k: int)
    requires Perm(s0, s1, low, high + 1) && 0 <= low <= p <= high < |s0|
    requires PivotAt(s1, low, p, high) && p - low < k <= high - low
    ensures KthSmallest(s0, low, high + 1, k) == KthSmallest(s1, p + 1, high + 1, k - (p - low) - 1)
  {
    RangeAroundPivot(s0, s1, low, p, high);
    KthSmallestIsPick(s0, low, high + 1, k);
    KthSmallestIsPick(s1, p + 1, high + 1, k - (p - low) - 1);
    IndexPastPivot(SortedOf(s1[low..p]), s1[p], SortedOf(s1[p + 1..high + 1]), k);
  }

  /** Past the left part and the pivot, the concatenation reads from the right part. */
  lemma IndexPastPivot(l: seq<int>, x: int, r: seq<int>, k: int)
    requires |l| < k < |l| + 1 + |r|
    ensures (l + [x] + r)[k] == r[k - |l| - 1]
  {
  }

  /**
   * Sorted, a range rearranged around a pivot at `p` is its sorted left part,
   * the pivot, and its sorted right part.
   */
  lemma RangeAroundPivot(s0: seq<int>, s1: seq<int>, low: int, p: int, high: int)
    requires Perm(s0, s1, low, high + 1) && 0 <= low <= p <= high < |s0|
    requires PivotAt(s1, low, p, high)
    ensures SortedOf(s0[low..high + 1]) == SortedOf(s1[low..p]) + [s1[p]] + SortedOf(s1[p + 1..high + 1])
  {
    var t := s1[low..high + 1];
    PivotSlice(s1, t, low, p, high);
    SortedOfAroundPivot(t, p - low);
    PivotParts(s1, low, p, high);
    SortedOfPerm(s0[low..high + 1], t);
  }

  /** The parts of the slice `s[low..high]` around position `p`. */
  lemma PivotParts(s: seq<int>, low: int, p: int, high: int)
    requires 0 <= low <= p <= high < |s|
    ensures s[low..high + 1][..p - low] == s[low..p]
    ensures s[low..high + 1][p - low] == s[p]
    ensures s[low..high + 1][p - low + 1..] == s[p + 1..high + 1]
  {
  }

  /** `PivotAt` restated for the slice `s[low..high]` on its own. */
  lemma PivotSlice(s: seq<int>, t: seq<int>, low: int, p: int, high: int)
    requires 0 <= low <= p <= high < |s| && PivotAt(s, low, p, high) && t == s[low..high + 1]
    ensures forall i :: 0 <= i < p - low ==> t[i] < t[p - low]
    ensures forall i :: p - low < i < |t| ==> t[p - low] <= t[i]
  {
  }

  /** After a recursive call rearranged one side, the whole range is still a rearrangement. */
  lemma SideKept(s0: seq<int>, s2: seq<int>, s3: seq<int>, low: int, lo: int, hi: int, high: int)
    requires Perm(s0, s2, low, high + 1) && Perm(s2, s3, lo, hi) && low <= lo && hi <= high + 1
    ensures Perm(s0, s3, low, high + 1)
  {
    PermWiden(s2, s3, low, high + 1, lo, hi);
    PermTrans(s0, s2, s3, low, high + 1);
  }

  /** The last position of the group whose first position is `groupStart`. */
  function GroupEnd(groupStart: int, high: int): (e: int)
    ensures e <= high && e <= groupStart + GroupSize - 1
    ensures e == high || e == groupStart + GroupSize - 1
  {
    if groupStart + GroupSize - 1 < high then groupStart + GroupSize - 1 else high
  }

  /** The median (the middle of the sorted group, the upper one for even sizes) of group `g` of `s[low..high]`. */
  ghost function GroupMedian(s: seq<int>, low: int, high: int, g: int): int
    requires 0 <= low <= high < |s| && 0 <= g && low + GroupSize * g <= high
  {
    var start := low + GroupSize * g;
    var end := GroupEnd(start, high);
    KthSmallest(s, start, end + 1, (end - start + 1) / 2)
  }

  /** The medians of the groups of five of `s[low..high]`, in group order. */
  ghost function MediansOf(s: seq<int>, low: int, high: int): (r: seq<int>)
    requires 0 <= low <= high < |s|
    ensures |r| == (high - low + 1 + GroupSize - 1) / GroupSize
    ensures forall g :: 0 <= g < |r| ==> r[g] == GroupMedian(s, low, high, g)
  {
    seq((high - low + 1 + GroupSize - 1) / GroupSize,
        g requires 0 <= g < (high - low + 1 + GroupSize - 1) / GroupSize => GroupMedian(s, low, high, g))
  }

  /** Every entry of `idx` is a position in `lo..hi`. */
  ghost predicate InRange(idx: seq<int>, lo: int, hi: int) {
    forall t :: 0 <= t < |idx| ==> lo <= idx[t] <= hi
  }

  /** The values of `a` at the positions listed in `idx`, in that order. */
  ghost function Keys(a: seq<int>, idx: seq<int>): (r: seq<int>)
    requires forall t :: 0 <= t < |idx| ==> 0 <= idx[t] < |a|
    ensures |r| == |idx| && forall t :: 0 <= t < |idx| ==> r[t] == a[idx[t]]
  {
    seq(|idx|, t requires 0 <= t < |idx| => a[idx[t]])
  }

  /** Exchanging two listed positions exchanges the two keys. */
  lemma KeysSwapped(a: seq<int>, idx: seq<int>, x: int, y: int)
    requires forall t :: 0 <= t < |idx| ==> 0 <= idx[t] < |a|
    requires 0 <= x < |idx| && 0 <= y < |idx|
    ensures Keys(a, Swapped(idx, x, y)) == Swapped(Keys(a, idx), x, y)
  {
  }

  /**
   * The state of one insertion pass of `findMedianIndex`: the key being
   * inserted sits at `j`, strictly below everything it has moved past, with
   * sorted runs on both sides of it.
   */
  ghost predicate Inserting(s: seq<int>, j: int, i: int)
    requires 0 <= j <= i < |s|
  {
    && SortedRange(s, 0, j)
    && SortedRange(s, j + 1, i + 1)
    && (forall x, y :: 0 <= x < j < y <= i ==> s[x] <= s[y])
    && (forall y :: j < y <= i ==> s[j] < s[y])
  }

  lemma InsertingStart(s: seq<int>, i: int)
    requires 0 <= i < |s| && SortedRange(s, 0, i)
    ensures Inserting(s, i, i)
  {
  }

  lemma InsertingStep(s: seq<int>, j: int, i: int)
    requires 0 < j <= i < |s| && Inserting(s, j, i) && s[j] < s[j - 1]
    ensures Inserting(Swapped(s, j - 1, j), j - 1, i)
  {
    var t := Swapped(s, j - 1, j);
    forall x, y | j - 1 <= x < y <= i
      ensures t[x] <= t[y]
    {
      if x == j - 1 {
        if y > j {
          assert t[y] == s[y];
        }
      } else if x == j {
        assert t[y] == s[y];
      } else {
        assert t[x] == s[x] && t[y] == s[y];
      }
    }
    forall x, y | 0 <= x < j - 1 < y <= i
      ensures t[x] <= t[y]
    {
      if y == j {
        assert t[y] == s[j - 1];
      } else {
        assert t[y] == s[y];
      }
    }
    forall y | j - 1 < y <= i
      ensures t[j - 1] < t[y]
    {
      if y > j {
        assert t[y] == s[y];
      }
    }
  }

  lemma InsertingDone(s: seq<int>, j: int, i: int)
    requires 0 <= j <= i < |s| && Inserting(s, j, i) && (j == 0 || s[j - 1] <= s[j])
    ensures SortedRange(s, 0, i + 1)
  {
  }

  /** Sorted keys that rearrange `a[lo..hi]` are exactly its sorted copy. */
  lemma KeysSorted(a: seq<int>, idx: seq<int>, lo: int, hi: int)
    requires 0 <= lo <= hi <= |a| && InRange(idx, lo, hi - 1)
    requires multiset(Keys(a, idx)) == multiset(a[lo..hi]) && SortedRange(Keys(a, idx), 0, |idx|)
    ensures Keys(a, idx) == SortedOf(a[lo..hi])
  {
    SortedOfSpec(a[lo..hi]);
    SortedUnique(Keys(a, idx), SortedOf(a[lo..hi]));
  }

  /**
   * The state of `findMedianIndex` before pass `i`: the values at the
   * positions listed in `idx`, all in `lo..hi`, rearrange `a[lo..hi]`, and
   * the first `i` of them are in order.
   */
  ghost predicate IndexState(a: seq<int>, idx: seq<int>, lo: int, hi: int, i: int) {
    && 0 <= lo <= hi < |a| && |idx| == hi - lo + 1 && 1 <= i <= |idx|
    && IndexStateAfter(a, idx, lo, hi, i, |idx| + 2)
  }

  ghost predicate IndexStateBody(a: seq<int>, idx: seq<int>, lo: int, hi: int, i: int) {
    && 0 <= lo <= hi < |a| && |idx| == hi - lo + 1 && 1 <= i <= |idx|
    && InRange(idx, lo, hi)
    && multiset(Keys(a, idx)) == multiset(a[lo..hi + 1])
    && SortedRange(Keys(a, idx), 0, i)
  }

  /**
   * `IndexStateBody` behind `steps` empty unfoldings, so that the loops of
   * `findMedianIndex` carry the state as one fact; the lemmas below open
   * it through `IndexStateAfterIs`.
   */
  ghost predicate IndexStateAfter(a: seq<int>, idx: seq<int>, lo: int, hi: int, i: int, steps: nat)
    decreases steps
  {
    if steps == 0 then IndexStateBody(a, idx, lo, hi, i) else IndexStateAfter(a, idx, lo, hi, i, steps - 1)
  }

  lemma {:induction false} IndexStateAfterIs(a: seq<int>, idx: seq<int>, lo: int, hi: int, i: int, steps: nat)
    ensures IndexStateAfter(a, idx, lo, hi, i, steps) == IndexStateBody(a, idx, lo, hi, i)
    decreases steps
  {
    if steps > 0 {
      IndexStateAfterIs(a, idx, lo, hi, i, steps - 1);
    }
  }

  /** Pass `i` in progress, with the position being inserted now at `j`. */
  ghost predicate InsertState(a: seq<int>, idx: seq<int>, lo: int, hi: int, j: int, i: int) {
    && 0 <= lo <= hi < |a| && |idx| == hi - lo + 1 && 0 <= j <= i < |idx|
    && InsertStateAfter(a, idx, lo, hi, j, i, |idx| + 2)
  }

  ghost predicate InsertStateBody(a: seq<int>, idx: seq<int>, lo: int, hi: int, j: int, i: int) {
    && 0 <= lo <= hi < |a| && |idx| == hi - lo + 1 && 0 <= j <= i < |idx|
    && InRange(idx, lo, hi)
    && multiset(Keys(a, idx)) == multiset(a[lo..hi + 1])
    && Inserting(Keys(a, idx), j, i)
  }

  /** `InsertStateBody` behind `steps` empty unfoldings, as for `IndexStateAfter`. */
  ghost predicate InsertStateAfter(a: seq<int>, idx: seq<int>, lo: int, hi: int, j: int, i: int, steps: nat)
    decreases steps
  {
    if steps == 0 then InsertStateBody(a, idx, lo, hi, j, i) else InsertStateAfter(a, idx, lo, hi, j, i, steps - 1)
  }

  lemma {:induction false} InsertStateAfterIs(a: seq<int>, idx: seq<int>, lo: int, hi: int, j: int, i: int, steps: nat)
    ensures InsertStateAfter(a, idx, lo, hi, j, i, steps) == InsertStateBody(a, idx, lo, hi, j, i)
    decreases steps
  {
    if steps > 0 {
      InsertStateAfterIs(a, idx, lo, hi, j, i, steps - 1);
    }
  }

  /** The positions a pass compares are in range. */
  lemma InsertBounds(a: seq<int>, idx: seq<int>, lo: int, hi: int, j: int, i: int)
    requires InsertState(a, idx, lo, hi, j, i)
    ensures 0 <= j <= i < |idx| && 0 <= idx[j] < |a| && (0 < j ==> 0 <= idx[j - 1] < |a|)
  {
    InsertStateAfterIs(a, idx, lo, hi, j, i, |idx| + 2);
  }

  /** The positions `lo, lo + 1, ..., hi` in order are the state before the first pass. */
  lemma IndexStart(a: seq<int>, idx: seq<int>, lo: int, hi: int)
    requires 0 <= lo <= hi < |a| && |idx| == hi - lo + 1
    requires forall t :: 0 <= t < |idx| ==> idx[t] == lo + t
    ensures IndexState(a, idx, lo, hi, 1)
  {
    assert Keys(a, idx) == a[lo..hi + 1];
    IndexStateAfterIs(a, idx, lo, hi, 1, |idx| + 2);
  }

  lemma PassStart(a: seq<int>, idx: seq<int>, lo: int, hi: int, i: int)
    requires IndexState(a, idx, lo, hi, i) && i < |idx|
    ensures InsertState(a, idx, lo, hi, i, i)
  {
    IndexStateAfterIs(a, idx, lo, hi, i, |idx| + 2);
    InsertStateAfterIs(a, idx, lo, hi, i, i, |idx| + 2);
    InsertingStart(Keys(a, idx), i);
  }

  /** The position listed at `j` holds a smaller value than the one listed before it. */
  ghost predicate Descends(a: seq<int>, idx: seq<int>, j: int) {
    0 < j < |idx| && 0 <= idx[j - 1] < |a| && 0 <= idx[j] < |a| && a[idx[j]] < a[idx[j - 1]]
  }

  /** Exchanging the inserted position with a larger predecessor moves it one step left. */
  lemma PassStep(a: seq<int>, idx: seq<int>, lo: int, hi: int, j: int, i: int)
    requires InsertState(a, idx, lo, hi, j, i) && Descends(a, idx, j)
    ensures InsertState(a, Swapped(idx, j - 1, j), lo, hi, j - 1, i)
  {
    InsertStateAfterIs(a, idx, lo, hi, j, i, |idx| + 2);
    PassStepBody(a, idx, lo, hi, j, i);
    InsertStateAfterIs(a, Swapped(idx, j - 1, j), lo, hi, j - 1, i, |idx| + 2);
  }

  lemma PassStepBody(a: seq<int>, idx: seq<int>, lo: int, hi: int, j: int, i: int)
    requires InsertStateBody(a, idx, lo, hi, j, i) && Descends(a, idx, j)
    ensures InsertStateBody(a, Swapped(idx, j - 1, j), lo, hi, j - 1, i)
  {
    var keys := Keys(a, idx);
    InsertingStep(keys, j, i);
    SwappedMultiset(keys, j - 1, j);
    KeysSwapped(a, idx, j - 1, j);
  }

  /** The pass ends at the front or at a predecessor that is not larger. */
  lemma PassDone(a: seq<int>, idx: seq<int>, lo: int, hi: int, j: int, i: int)
    requires InsertState(a, idx, lo, hi, j, i) && !Descends(a, idx, j)
    ensures IndexState(a, idx, lo, hi, i + 1)
  {
    InsertStateAfterIs(a, idx, lo, hi, j, i, |idx| + 2);
    InsertingDone(Keys(a, idx), j, i);
    IndexStateAfterIs(a, idx, lo, hi, i + 1, |idx| + 2);
  }

  /** After the last pass the middle listed position holds the median. */
  lemma IndexDone(a: seq<int>, idx: seq<int>, lo: int, hi: int)
    requires IndexState(a, idx, lo, hi, |idx|)
    ensures lo <= idx[|idx| / 2] <= hi
    ensures a[idx[|idx| / 2]] == KthSmallest(a, lo, hi + 1, |idx| / 2)
  {
    IndexStateAfterIs(a, idx, lo, hi, |idx|, |idx| + 2);
    KeysSorted(a, idx, lo, hi + 1);
    KthSmallestIsPick(a, lo, hi + 1, |idx| / 2);
  }

  /**
   * The state of the group loop of `medianOfMedians` before group `i`: `s`
   * rearranges `s0[low..high]`, the first `i` group medians sit both in
   * `meds` and at `s[low..low + i]`, and the groups not yet visited are as
   * they were.
   */
  ghost predicate GatherState(s0: seq<int>, s: seq<int>, meds: seq<int>, low: int, high: int, i: int) {
    && 0 <= low <= high < |s0| == |s| && 0 <= i <= |meds| && low + GroupSize * (|meds| - 1) <= high
    && GatherStateAfter(s0, s, meds, low, high, i, |s| + 2)
  }

  /** `GatherStateBody` behind `steps` empty unfoldings, as for `IndexStateAfter`. */
  ghost predicate GatherStateAfter(s0: seq<int>, s: seq<int>, meds: seq<int>, low: int, high: int, i: int, steps: nat)
    decreases steps
  {
    if steps == 0 then GatherStateBody(s0, s, meds, low, high, i)
    else GatherStateAfter(s0, s, meds, low, high, i, steps - 1)
  }

  lemma {:induction false} GatherStateAfterIs(s0: seq<int>, s: seq<int>, meds: seq<int>, low: int, high: int, i: int, steps: nat)
    ensures GatherStateAfter(s0, s, meds, low, high, i, steps) == GatherStateBody(s0, s, meds, low, high, i)
    decreases steps
  {
    if steps > 0 {
      GatherStateAfterIs(s0, s, meds, low, high, i, steps - 1);
    }
  }

  ghost predicate GatherStateBody(s0: seq<int>, s: seq<int>, meds: seq<int>, low: int, high: int, i: int) {
    && 0 <= low <= high < |s0| == |s| && 0 <= i <= |meds| && low + GroupSize * (|meds| - 1) <= high
    && Perm(s0, s, low, high + 1)
    && MediansAt(s0, s, meds, low, high, i)
    && Untouched(s0, s, low + GroupSize * i, high)
  }

  /** The first `i` group medians sit both in `meds` and at `s[low..low + i]`. */
  ghost predicate MediansAt(s0: seq<int>, s: seq<int>, meds: seq<int>, low: int, high: int, i: int)
    requires 0 <= low <= high < |s0| == |s| && 0 <= i <= |meds| && low + GroupSize * (|meds| - 1) <= high
  {
    forall g :: 0 <= g < i ==> s[low + g] == meds[g] == GroupMedian(s0, low, high, g)
  }

  /** `s` and `s0` agree from `from` to `high`. */
  ghost predicate Untouched(s0: seq<int>, s: seq<int>, from: int, high: int)
    requires high < |s0| == |s|
  {
    forall t :: 0 <= from <= t <= high ==> s[t] == s0[t]
  }

  lemma GatherStart(s0: seq<int>, meds: seq<int>, low: int, high: int)
    requires 0 <= low <= high < |s0| && |meds| == (high - low + 1 + GroupSize - 1) / GroupSize
    ensures GatherState(s0, s0, meds, low, high, 0)
  {
    PermRefl(s0, low, high + 1);
    GatherStateAfterIs(s0, s0, meds, low, high, 0, |s0| + 2);
  }

  /**
   * A group that is still as it was in `s0` has the same median in `s` as
   * in `s0`.
   */
  lemma GroupUntouched(s0: seq<int>, s: seq<int>, low: int, high: int, i: int, m: int)
    requires 0 <= low <= high < |s0| == |s| && 0 <= i && low + GroupSize * i <= high
    requires Untouched(s0, s, low + GroupSize * i, high)
    requires low + GroupSize * i <= m <= GroupEnd(low + GroupSize * i, high)
    requires s[m] == KthSmallest(s, low + GroupSize * i, GroupEnd(low + GroupSize * i, high) + 1,
      (GroupEnd(low + GroupSize * i, high) - (low + GroupSize * i) + 1) / 2)
    ensures s[m] == GroupMedian(s0, low, high, i)
  {
    var start := low + GroupSize * i;
    var end := GroupEnd(start, high);
    var h := (end - start + 1) / 2;
    assert s[start..end + 1] == s0[start..end + 1];
    KthSmallestIsPick(s, start, end + 1, h);
    KthSmallestIsPick(s0, start, end + 1, h);
  }

  /**
   * Group `i` is still untouched, so the median found in it is its group
   * median; recording it and swapping it to `low + i` gives the state before
   * group `i + 1`.
   */
  lemma GatherStep(s0: seq<int>, s: seq<int>, meds: seq<int>, low: int, high: int, i: int, m: int)
    requires GatherState(s0, s, meds, low, high, i) && i < |meds|
    requires low + GroupSize * i <= m <= GroupEnd(low + GroupSize * i, high)
    requires s[m] == KthSmallest(s, low + GroupSize * i, GroupEnd(low + GroupSize * i, high) + 1,
      (GroupEnd(low + GroupSize * i, high) - (low + GroupSize * i) + 1) / 2)
    ensures GatherState(s0, Swapped(s, low + i, m), meds[i := s[m]], low, high, i + 1)
  {
    GatherStateAfterIs(s0, s, meds, low, high, i, |s| + 2);
    GatherParts(s0, s, meds, low, high, i, m);
    GatherMake(s0, Swapped(s, low + i, m), meds[i := s[m]], low, high, i + 1);
  }

  /** `GatherStep` on the three parts of the state. */
  lemma GatherParts(s0: seq<int>, s: seq<int>, meds: seq<int>, low: int, high: int, i: int, m: int)
    requires 0 <= low <= high < |s0| == |s| && 0 <= i < |meds| && low + GroupSize * (|meds| - 1) <= high
    requires Perm(s0, s, low, high + 1)
    requires MediansAt(s0, s, meds, low, high, i) && Untouched(s0, s, low + GroupSize * i, high)
    requires low + GroupSize * i <= m <= GroupEnd(low + GroupSize * i, high)
    requires s[m] == KthSmallest(s, low + GroupSize * i, GroupEnd(low + GroupSize * i, high) + 1,
      (GroupEnd(low + GroupSize * i, high) - (low + GroupSize * i) + 1) / 2)
    ensures Perm(s0, Swapped(s, low + i, m), low, high + 1)
    ensures MediansAt(s0, Swapped(s, low + i, m), meds[i := s[m]], low, high, i + 1)
    ensures Untouched(s0, Swapped(s, low + i, m), low + GroupSize * (i + 1), high)
  {
    GroupUntouched(s0, s, low, high, i, m);
    PermThenSwap(s0, s, low + i, m, low, high + 1);
    GatherPrefix(s0, s, meds, low, high, i, m);
    GatherSuffix(s0, s, low, high, i, m);
  }

  /** `GatherState` from its parts. */
  lemma GatherMake(s0: seq<int>, s: seq<int>, meds: seq<int>, low: int, high: int, i: int)
    requires 0 <= low <= high < |s0| == |s| && 0 <= i <= |meds| && low + GroupSize * (|meds| - 1) <= high
    requires Perm(s0, s, low, high + 1)
    requires MediansAt(s0, s, meds, low, high, i) && Untouched(s0, s, low + GroupSize * i, high)
    ensures GatherState(s0, s, meds, low, high, i)
  {
    GatherStateAfterIs(s0, s, meds, low, high, i, |s| + 2);
  }

  /** The swap keeps the medians already at the front and adds the new one. */
  lemma GatherPrefix(s0: seq<int>, s: seq<int>, meds: seq<int>, low: int, high: int, i: int, m: int)
    requires 0 <= low <= high < |s0| == |s| && 0 <= i < |meds| && low + GroupSize * (|meds| - 1) <= high
    requires MediansAt(s0, s, meds, low, high, i)
    requires low + GroupSize * i <= m <= high && s[m] == GroupMedian(s0, low, high, i)
    ensures MediansAt(s0, Swapped(s, low + i, m), meds[i := s[m]], low, high, i + 1)
  {
    var t := Swapped(s, low + i, m);
    forall g | 0 <= g < i + 1
      ensures t[low + g] == meds[i := s[m]][g] == GroupMedian(s0, low, high, g)
    {
      if g < i {
        assert t[low + g] == s[low + g];
      }
    }
  }

  /** The swap leaves the groups after group `i` as they were. */
  lemma GatherSuffix(s0: seq<int>, s: seq<int>, low: int, high: int, i: int, m: int)
    requires 0 <= low <= high < |s0| == |s| && 0 <= i
    requires Untouched(s0, s, low + GroupSize * i, high)
    requires low + GroupSize * i <= m <= GroupEnd(low + GroupSize * i, high)
    ensures Untouched(s0, Swapped(s, low + i, m), low + GroupSize * (i + 1), high)
  {
    var t := Swapped(s, low + i, m);
    forall x | low + GroupSize * (i + 1) <= x <= high
      ensures t[x] == s0[x]
    {
      assert t[x] == s[x];
    }
  }

  lemma GatherDone(s0: seq<int>, s: seq<int>, meds: seq<int>, low: int, high: int)
    requires GatherState(s0, s, meds, low, high, |meds|)
    ensures Perm(s0, s, low, high + 1) && meds == s[low..low + |meds|]
    ensures forall g :: 0 <= g < |meds| ==> meds[g] == GroupMedian(s0, low, high, g)
  {
    GatherStateAfterIs(s0, s, meds, low, high, |meds|, |s| + 2);
    assert meds == s[low..low + |meds|];
  }

  /**
   * The first position in `a[lo..hi]` holding `value`, for a value known to
   * occur there.
   */
  method IndexOf(a: array<int>, lo: int, hi: int, value: int) returns (i: int)
    requires 0 <= lo <= hi <= a.Length && value in a[lo..hi]
    ensures lo <= i < hi && a[i] == value
    ensures forall t :: lo <= t < i ==> a[t] != value
  {
    i := lo;
    while a[i] != value
      invariant lo <= i < hi && value in a[i..hi]
      invariant forall t :: lo <= t < i ==> a[t] != value
      decreases hi - i
    {
      assert a[i..hi] == [a[i]] + a[i + 1..hi];
      i := i + 1;
    }
  }

  class DeterministicSelect {
    const metrics: MetricsCollector

    constructor ()
      ensures fresh(metrics) && metrics.algorithmName == "DeterministicSelect"
      ensures metrics.comparisons == 0 && metrics.swaps == 0 && metrics.allocations == 0
    {
      metrics := new MetricsCollector("DeterministicSelect");
    }

    /**
     * The `k`-th smallest element of `arr`, found by median-of-medians
     * selection on a copy. Invalid arguments are rejected before the metrics
     * are touched; otherwise the metrics are reset and the copy is counted as
     * `arr.Length` allocations. `arr` itself is not in the frame, so it is
     * left as it was.
     */
    method Select(arr: array?<int>, k: int, d: DepthTracker, startNanos: int, stopNanos: int)
      returns (r: SelectResult)
      modifies metrics, d
      ensures Invalid(arr, k) ==> r == InvalidInput && unchanged(metrics, d)
      ensures !Invalid(arr, k) ==>
        && r == Found(SortedOf(arr[..])[k])
        && metrics.allocations >= arr.Length && metrics.swaps >= 0 && metrics.comparisons >= 0
        && metrics.inputSize == arr.Length && metrics.recordedMaxDepth == 0
        && metrics.startTime == startNanos && metrics.endTime == stopNanos
        && metrics.algorithmName == old(metrics.algorithmName)
        && d.current == old(d.current)
        && old(d.current) < d.maxDepth && old(d.maxDepth) <= d.maxDepth
        && d.maxDepth <= Max(old(d.maxDepth), old(d.current) + arr.Length)
    {
      if arr == null || arr.Length == 0 || k < 0 || k >= arr.Length {
        return InvalidInput;
      }
      metrics.Reset();
      metrics.SetInputSize(arr.Length);
      metrics.StartTimer(startNanos);
      var work := CopyOf(arr);
      metrics.IncrementAllocationsBy(arr.Length);
      WholePick(arr[..], work[..], k);
      ghost var top := Max(d.maxDepth, d.current + arr.Length);
      var v := DeterministicSelect(work, 0, arr.Length - 1, k, d, top);
      metrics.StopTimer(stopNanos);
      r := Found(v);
    }

    /**
     * The `k`-th smallest of `arr[low..high]` (`k` relative to `low`): one
     * depth level, then either the single element or a partition round
     * around the median of medians.
     */
    method DeterministicSelect(arr: array<int>, low: int, high: int, k: int, d: DepthTracker, ghost top: int)
      returns (r: int)
      requires 0 <= low <= high < arr.Length && 0 <= k <= high - low
      requires d.maxDepth <= top && d.current + (high - low + 1) <= top
      modifies arr, metrics, d
      ensures r == KthSmallest(old(arr[..]), low, high + 1, k)
      ensures Perm(old(arr[..]), arr[..], low, high + 1)
      ensures metrics.comparisons >= old(metrics.comparisons) && metrics.swaps >= old(metrics.swaps)
      ensures metrics.allocations >= old(metrics.allocations) && metrics.Settings() == old(metrics.Settings())
      ensures d.current == old(d.current)
      ensures old(d.current) < d.maxDepth && old(d.maxDepth) <= d.maxDepth <= top
      decreases high - low + 1, 3
    {
      d.EnterRecursion();
      if low == high {
        r := arr[low];
        KthSmallestSingle(arr[..], low);
        PermRefl(arr[..], low, high + 1);
      } else {
        r := SelectAroundMedian(arr, low, high, k, d, top);
      }
      d.ExitRecursion();
    }

    /** A range of two or more: the median of medians is the pivot. */
    method SelectAroundMedian(arr: array<int>, low: int, high: int, k: int, d: DepthTracker, ghost top: int)
      returns (r: int)
      requires 0 <= low < high < arr.Length && 0 <= k <= high - low
      requires d.maxDepth <= top && d.current + (high - low) <= top
      modifies arr, metrics, d
      ensures r == KthSmallest(old(arr[..]), low, high + 1, k)
      ensures Perm(old(arr[..]), arr[..], low, high + 1)
      ensures metrics.comparisons >= old(metrics.comparisons) && metrics.swaps >= old(metrics.swaps)
      ensures metrics.allocations >= old(metrics.allocations) && metrics.Settings() == old(metrics.Settings())
      ensures d.current == old(d.current)
      ensures old(d.maxDepth) <= d.maxDepth <= top
      decreases high - low + 1, 2
    {
      ghost var s0 := arr[..];
      var pivotIndex := MedianOfMedians(arr, low, high, d, top);
      ghost var s1 := arr[..];
      r := PartitionAndSelect(arr, low, high, pivotIndex, k, d, top);
      KthSmallestPerm(s0, s1, low, high + 1, k);
      PermTrans(s0, s1, arr[..], low, high + 1);
    }

    /**
     * Partitions around `arr[pivotIndex]`, then answers with the pivot when
     * it is the `k`-th smallest, or selects recursively in the part that
     * holds the answer.
     */
    method PartitionAndSelect(arr: array<int>, low: int, high: int, pivotIndex: int, k: int, d: DepthTracker, ghost top: int)
      returns (r: int)
      requires 0 <= low <= pivotIndex <= high < arr.Length && low < high && 0 <= k <= high - low
      requires d.maxDepth <= top && d.current + (high - low) <= top
      modifies arr, metrics, d
      ensures r == KthSmallest(old(arr[..]), low, high + 1, k)
      ensures Perm(old(arr[..]), arr[..], low, high + 1)
      ensures metrics.comparisons >= old(metrics.comparisons) && metrics.swaps >= old(metrics.swaps)
      ensures metrics.allocations >= old(metrics.allocations) && metrics.Settings() == old(metrics.Settings())
      ensures d.current == old(d.current)
      ensures old(d.maxDepth) <= d.maxDepth <= top
      decreases high - low + 1, 1
    {
      ghost var s0 := arr[..];
      var partitionIndex := SplitForSelect(arr, low, high, pivotIndex, k);
      if k == partitionIndex - low {
        r := arr[partitionIndex];
      } else {
        ghost var s1 := arr[..];
        var (lo, hi, kk) := SideRange(low, partitionIndex, high, k);
        r := DeterministicSelect(arr, lo, hi, kk, d, top);
        SideKept(s0, s1, arr[..], low, lo, hi + 1, high);
      }
    }

    /**
     * The partition step both selects share: `arr[low..high]` is partitioned
     * around `arr[pivotIndex]`, and the range's `k`-th smallest is then the
     * pivot, or the answer in the part `SideRange` names.
     */
    method SplitForSelect(arr: array<int>, low: int, high: int, pivotIndex: int, k: int) returns (p: int)
      requires 0 <= low <= pivotIndex <= high < arr.Length && 0 <= k <= high - low
      modifies arr, metrics
      ensures low <= p <= high && Perm(old(arr[..]), arr[..], low, high + 1)
      ensures k == p - low ==> KthSmallest(old(arr[..]), low, high + 1, k) == arr[p]
      ensures k != p - low ==>
        var (lo, hi, kk) := SideRange(low, p, high, k);
        low <= lo && hi <= high && 0 <= kk <= hi - lo
        && KthSmallest(old(arr[..]), low, high + 1, k) == KthSmallest(arr[..], lo, hi + 1, kk)
      ensures metrics.comparisons >= old(metrics.comparisons) && metrics.swaps >= old(metrics.swaps)
      ensures metrics.allocations == old(metrics.allocations) && metrics.Settings() == old(metrics.Settings())
    {
      ghost var s0 := arr[..];
      p := Partition(arr, low, high, pivotIndex, metrics);
      SelectStep(s0, arr[..], low, p, high, k);
    }

    /**
     * The pivot position for `arr[low..high]`: for five or fewer elements
     * their median; otherwise the median of the group medians, which are
     * first gathered at the front of the range and into a fresh array of
     * `(n + 4) / 5` counted allocations, and then selected recursively.
     */
    method MedianOfMedians(arr: array<int>, low: int, high: int, d: DepthTracker, ghost top: int)
      returns (pivotIndex: int)
      requires 0 <= low <= high < arr.Length
      requires d.maxDepth <= top && d.current + (high - low) <= top
      modifies arr, metrics, d
      ensures low <= pivotIndex <= high
      ensures high - low + 1 <= GroupSize ==>
        arr[pivotIndex] == KthSmallest(old(arr[..]), low, high + 1, (high - low + 1) / 2)
      ensures high - low + 1 > GroupSize ==>
        var meds := MediansOf(old(arr[..]), low, high);
        arr[pivotIndex] == KthSmallest(meds, 0, |meds|, |meds| / 2)
      ensures Perm(old(arr[..]), arr[..], low, high + 1)
      ensures metrics.comparisons >= old(metrics.comparisons) && metrics.swaps >= old(metrics.swaps)
      ensures metrics.allocations >= old(metrics.allocations) && metrics.Settings() == old(metrics.Settings())
      ensures d.current == old(d.current)
      ensures old(d.maxDepth) <= d.maxDepth <= top
      decreases high - low + 1, 0
    {
      ghost var s0 := arr[..];
      var n := high - low + 1;
      if n <= GroupSize {
        pivotIndex := FindMedianIndex(arr, low, high);
        PermRefl(arr[..], low, high + 1);
        return;
      }
      // n > GroupSize, so there are at least two groups and the branch for a
      // single group never runs.
      var numGroups := (n + GroupSize - 1) / GroupSize;
      assert 2 <= numGroups < n;
      var medians := new int[numGroups];
      metrics.IncrementAllocationsBy(numGroups);
      GatherGroupMedians(arr, low, high, medians);
      ghost var m0 := medians[..];
      var value := DeterministicSelect(medians, 0, numGroups - 1, numGroups / 2, d, top);
      KthSmallestIn(m0, 0, numGroups, numGroups / 2);
      assert m0[0..numGroups] == arr[low..low + numGroups];
      // The medians sit in arr[low..low + numGroups], so the search always succeeds.
      pivotIndex := IndexOf(arr, low, low + numGroups, value);
      assert m0 == MediansOf(s0, low, high);
    }

    /**
     * The group loop of `medianOfMedians`: for each group of five (the last
     * one possibly shorter) its median goes into `medians` and, by a counted
     * swap, to the front of the range.
     */
    method GatherGroupMedians(arr: array<int>, low: int, high: int, medians: array<int>)
      requires 0 <= low <= high < arr.Length && medians != arr
      requires medians.Length == (high - low + 1 + GroupSize - 1) / GroupSize
      modifies arr, medians, metrics
      ensures Perm(old(arr[..]), arr[..], low, high + 1)
      ensures medians[..] == arr[low..low + medians.Length]
      ensures forall g :: 0 <= g < medians.Length ==> medians[g] == GroupMedian(old(arr[..]), low, high, g)
      ensures metrics.comparisons >= old(metrics.comparisons) && metrics.swaps >= old(metrics.swaps)
      ensures metrics.allocations >= old(metrics.allocations) && metrics.Settings() == old(metrics.Settings())
    {
      ghost var s0 := arr[..];
      GatherStart(s0, medians[..], low, high);
      var i := 0;
      while i < medians.Length
        invariant GatherState(s0, arr[..], medians[..], low, high, i)
        invariant metrics.comparisons >= old(metrics.comparisons) && metrics.swaps >= old(metrics.swaps)
        invariant metrics.allocations == old(metrics.allocations) && metrics.Settings() == old(metrics.Settings())
      {
        ghost var s := arr[..];
        ghost var meds := medians[..];
        var medianIndex := MoveGroupMedian(arr, low, high, medians, i);
        GatherStep(s0, s, meds, low, high, i, medianIndex);
        i := i + 1;
      }
      GatherDone(s0, arr[..], medians[..], low, high);
    }

    /**
     * One iteration of the group loop: the median of group `i` is recorded
     * in `medians[i]` and swapped, with one counted swap, to `low + i`.
     */
    method MoveGroupMedian(arr: array<int>, low: int, high: int, medians: array<int>, i: int)
      returns (medianIndex: int)
      requires 0 <= low <= high < arr.Length && medians != arr
      requires 0 <= i < medians.Length && low + GroupSize * i <= high
      modifies arr, medians, metrics
      ensures low + GroupSize * i <= medianIndex <= GroupEnd(low + GroupSize * i, high)
      ensures old(arr[medianIndex]) == KthSmallest(old(arr[..]), low + GroupSize * i,
        GroupEnd(low + GroupSize * i, high) + 1, (GroupEnd(low + GroupSize * i, high) - (low + GroupSize * i) + 1) / 2)
      ensures arr[..] == Swapped(old(arr[..]), low + i, medianIndex)
      ensures medians[..] == old(medians[..])[i := old(arr[medianIndex])]
      ensures metrics.comparisons >= old(metrics.comparisons) && metrics.swaps >= old(metrics.swaps)
      ensures metrics.allocations == old(metrics.allocations) && metrics.Settings() == old(metrics.Settings())
    {
      var groupStart := low + GroupSize * i;
      var groupEnd := GroupEnd(groupStart, high);
      medianIndex := FindMedianIndex(arr, groupStart, groupEnd);
      medians[i] := arr[medianIndex];
      SwapCounted(arr, low + i, medianIndex, metrics);
    }

    /**
     * The position of the median of `arr[low..high]`, found by
     * insertion-sorting a list of its positions by value (one counted
     * comparison per test). `arr` is not modified.
     */
    method FindMedianIndex(arr: array<int>, low: int, high: int) returns (r: int)
      requires 0 <= low <= high < arr.Length
      modifies metrics
      ensures low <= r <= high
      ensures arr[r] == KthSmallest(arr[..], low, high + 1, (high - low + 1) / 2)
      ensures metrics.comparisons >= old(metrics.comparisons)
      ensures metrics.swaps == old(metrics.swaps) && metrics.allocations == old(metrics.allocations)
      ensures metrics.Settings() == old(metrics.Settings())
    {
      var n := high - low + 1;
      var indices := new int[n];
      var i := 0;
      while i < n
        invariant 0 <= i <= n
        invariant forall t :: 0 <= t < i ==> indices[t] == low + t
        modifies indices
      {
        indices[i] := low + i;
        i := i + 1;
      }
      ghost var a := arr[..];
      IndexStart(a, indices[..], low, high);
      i := 1;
      while i < n
        invariant i <= n && IndexState(a, indices[..], low, high, i)
        invariant metrics.comparisons >= old(metrics.comparisons)
        invariant metrics.swaps == old(metrics.swaps) && metrics.allocations == old(metrics.allocations)
        invariant metrics.Settings() == old(metrics.Settings())
      {
        InsertIndex(arr, indices, low, high, i);
        i := i + 1;
      }
      IndexDone(a, indices[..], low, high);
      r := indices[n / 2];
    }

    /**
     * One pass of the insertion sort in `findMedianIndex`: the position at
     * `indices[i]` moves left past every position holding a larger value,
     * one counted comparison per test.
     */
    method InsertIndex(arr: array<int>, indices: array<int>, low: int, high: int, i: int)
      requires indices != arr && i < indices.Length && IndexState(arr[..], indices[..], low, high, i)
      modifies indices, metrics
      ensures IndexState(arr[..], indices[..], low, high, i + 1)
      ensures metrics.comparisons >= old(metrics.comparisons)
      ensures metrics.swaps == old(metrics.swaps) && metrics.allocations == old(metrics.allocations)
      ensures metrics.Settings() == old(metrics.Settings())
    {
      ghost var a := arr[..];
      PassStart(a, indices[..], low, high, i);
      var j := i;
      while j > 0
        invariant InsertState(a, indices[..], low, high, j, i)
        invariant metrics.comparisons >= old(metrics.comparisons)
        invariant metrics.swaps == old(metrics.swaps) && metrics.allocations == old(metrics.allocations)
        invariant metrics.Settings() == old(metrics.Settings())
      {
        InsertBounds(a, indices[..], low, high, j, i);
        metrics.IncrementComparisons();
        if arr[indices[j]] < arr[indices[j - 1]] {
          PassStep(a, indices[..], low, high, j, i);
          Swap(indices, j - 1, j);
          j := j - 1;
        } else {
          break;
        }
      }
      PassDone(a, indices[..], low, high, j, i);
    }

    /**
     * The `k`-th smallest element of `arr`, found by randomized quickselect
     * on a shuffled copy; the same rejections, and the same answer, as
     * `Select`.
     */
    method QuickSelect(arr: array?<int>, k: int, d: DepthTracker, startNanos: int, stopNanos: int)
      returns (r: SelectResult)
      modifies metrics, d
      ensures Invalid(arr, k) ==> r == InvalidInput && unchanged(metrics, d)
      ensures !Invalid(arr, k) ==>
        && r == Found(SortedOf(arr[..])[k])
        && metrics.allocations == arr.Length && metrics.swaps >= 0 && metrics.comparisons >= 0
        && metrics.inputSize == arr.Length && metrics.recordedMaxDepth == 0
        && metrics.startTime == startNanos && metrics.endTime == stopNanos
        && metrics.algorithmName == old(metrics.algorithmName)
        && d.current == old(d.current)
        && old(d.current) < d.maxDepth && old(d.maxDepth) <= d.maxDepth
        && d.maxDepth <= Max(old(d.maxDepth), old(d.current) + arr.Length)
    {
      if arr == null || arr.Length == 0 || k < 0 || k >= arr.Length {
        return InvalidInput;
      }
      metrics.Reset();
      metrics.SetInputSize(arr.Length);
      metrics.StartTimer(startNanos);
      var work := CopyOf(arr);
      metrics.IncrementAllocationsBy(arr.Length);
      Shuffle(work);
      WholePick(arr[..], work[..], k);
      ghost var top := Max(d.maxDepth, d.current + arr.Length);
      var v := RandomizedSelect(work, 0, arr.Length - 1, k, d, top);
      metrics.StopTimer(stopNanos);
      r := Found(v);
    }

    /** Quickselect on `arr[low..high]` with the first element of each range as pivot. */
    method RandomizedSelect(arr: array<int>, low: int, high: int, k: int, d: DepthTracker, ghost top: int)
      returns (r: int)
      requires 0 <= low <= high < arr.Length && 0 <= k <= high - low
      requires d.maxDepth <= top && d.current + (high - low + 1) <= top
      modifies arr, metrics, d
      ensures r == KthSmallest(old(arr[..]), low, high + 1, k)
      ensures Perm(old(arr[..]), arr[..], low, high + 1)
      ensures metrics.comparisons >= old(metrics.comparisons) && metrics.swaps >= old(metrics.swaps)
      ensures metrics.allocations == old(metrics.allocations) && metrics.Settings() == old(metrics.Settings())
      ensures d.current == old(d.current)
      ensures old(d.current) < d.maxDepth && old(d.maxDepth) <= d.maxDepth <= top
      decreases high - low + 1, 2
    {
      d.EnterRecursion();
      if low == high {
        r := arr[low];
        KthSmallestSingle(arr[..], low);
        PermRefl(arr[..], low, high + 1);
      } else {
        r := SelectAroundFirst(arr, low, high, k, d, top);
      }
      d.ExitRecursion();
    }

    /** A range of two or more: partition around `arr[low]`, then answer or recurse. */
    method SelectAroundFirst(arr: array<int>, low: int, high: int, k: int, d: DepthTracker, ghost top: int)
      returns (r: int)
      requires 0 <= low < high < arr.Length && 0 <= k <= high - low
      requires d.maxDepth <= top && d.current + (high - low) <= top
      modifies arr, metrics, d
      ensures r == KthSmallest(old(arr[..]), low, high + 1, k)
      ensures Perm(old(arr[..]), arr[..], low, high + 1)
      ensures metrics.comparisons >= old(metrics.comparisons) && metrics.swaps >= old(metrics.swaps)
      ensures metrics.allocations == old(metrics.allocations) && metrics.Settings() == old(metrics.Settings())
      ensures d.current == old(d.current)
      ensures old(d.maxDepth) <= d.maxDepth <= top
      decreases high - low + 1, 1
    {
      ghost var s0 := arr[..];
      var partitionIndex := SplitForSelect(arr, low, high, low, k);
      if k == partitionIndex - low {
        r := arr[partitionIndex];
      } else {
        ghost var s1 := arr[..];
        var (lo, hi, kk) := SideRange(low, partitionIndex, high, k);
        r := RandomizedSelect(arr, lo, hi, kk, d, top);
        SideKept(s0, s1, arr[..], low, lo, hi + 1, high);
      }
    }

    /**
     * The median of `arr`: `Select` with `k = arr.Length / 2`, the upper
     * median for even lengths. An empty array is rejected by `Select`.
     */
    method FindMedian(arr: array<int>, d: DepthTracker, startNanos: int, stopNanos: int)
      returns (r: SelectResult)
      modifies metrics, d
      ensures arr.Length == 0 ==> r == InvalidInput && unchanged(metrics, d)
      ensures arr.Length > 0 ==>
        && r == Found(SortedOf(arr[..])[arr.Length / 2])
        && metrics.inputSize == arr.Length && metrics.allocations >= arr.Length
        && d.current == old(d.current)
    {
      r := Select(arr, arr.Length / 2, d, startNanos, stopNanos);
    }
  }
}
