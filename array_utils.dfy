/**
 * The array primitives every algorithm is built on: swaps (plain and
 * counted), the Fisher-Yates shuffle, Lomuto and three-way partitioning,
 * range insertion sort, the sortedness check and the test-array generators.
 */
module ArrayUtils {
  import opened Segments
  import opened Metrics

  /**
   * An arbitrary index in `[0, bound)`: stands for `Random.nextInt(bound)`.
   * Nothing but the range is known about the choice, so every property
   * proved for its callers holds for every sequence of random draws.
   */
  method NextInt(bound: int) returns (r: int)
    requires bound > 0
    ensures 0 <= r < bound
  {
    r :| 0 <= r < bound;
  }

  /** Exchanges `a[i]` and `a[j]`; with `i == j` nothing changes. */
  method Swap(a: array<int>, i: int, j: int)
    requires 0 <= i < a.Length && 0 <= j < a.Length
    modifies a
    ensures a[..] == Swapped(old(a[..]), i, j)
    ensures a[i] == old(a[j]) && a[j] == old(a[i])
    ensures forall k :: 0 <= k < a.Length && k != i && k != j ==> a[k] == old(a[k])
  {
    if i != j {
      var temp := a[i];
      a[i] := a[j];
      a[j] := temp;
    }
  }

  /** `Swap` that counts one swap exactly when the positions differ. */
  method SwapCounted(a: array<int>, i: int, j: int, m: MetricsCollector)
    requires 0 <= i < a.Length && 0 <= j < a.Length
    modifies a, m
    ensures a[..] == Swapped(old(a[..]), i, j)
    ensures a[i] == old(a[j]) && a[j] == old(a[i])
    ensures forall k :: 0 <= k < a.Length && k != i && k != j ==> a[k] == old(a[k])
    ensures m.swaps == old(m.swaps) + (if i != j then 1 else 0)
    ensures m.comparisons == old(m.comparisons) && m.allocations == old(m.allocations)
    ensures m.Settings() == old(m.Settings())
  {
    if i != j {
      m.IncrementSwaps();
      Swap(a, i, j);
    }
  }

  /** Fisher-Yates: from the last index down to 1, swap with a random earlier-or-equal index. */
  method Shuffle(a: array<int>)
    modifies a
    ensures multiset(a[..]) == old(multiset(a[..]))
  {
    var i := a.Length - 1;
    while i > 0
      invariant multiset(a[..]) == old(multiset(a[..]))
    {
      var j := NextInt(i + 1);
      SwappedMultiset(a[..], i, j);
      Swap(a, i, j);
      i := i - 1;
    }
  }

  /**
   * Lomuto partition of `a[low..high]` around the value at `pivotIndex`;
   * returns the pivot's final position.
   */
  method Partition(a: array<int>, low: int, high: int, pivotIndex: int, m: MetricsCollector)
    returns (s: int)
    requires 0 <= low <= pivotIndex <= high < a.Length
    modifies a, m
    ensures low <= s <= high && a[s] == old(a[pivotIndex])
    ensures PivotAt(a[..], low, s, high)
    ensures Perm(old(a[..]), a[..], low, high + 1)
    ensures m.comparisons == old(m.comparisons) + (high - low)
    ensures old(m.swaps) <= m.swaps <= old(m.swaps) + (high - low) + 2
    ensures m.allocations == old(m.allocations) && m.Settings() == old(m.Settings())
  {
    ghost var a0 := a[..];
    var pivotValue := a[pivotIndex];
    LomutoStart(a0, low, pivotIndex, high);
    SwapCounted(a, pivotIndex, high, m);
    var storeIndex := low;
    var i := low;
    while i < high
      invariant Lomuto(a[..], low, storeIndex, i, high, pivotValue)
      invariant Perm(a0, a[..], low, high + 1)
      invariant m.comparisons == old(m.comparisons) + (i - low)
      invariant old(m.swaps) <= m.swaps <= old(m.swaps) + 1 + (i - low)
      invariant m.allocations == old(m.allocations) && m.Settings() == old(m.Settings())
    {
      m.IncrementComparisons();
      if a[i] < pivotValue {
        LomutoLess(a0, a[..], low, storeIndex, i, high, pivotValue);
        SwapCounted(a, i, storeIndex, m);
        storeIndex := storeIndex + 1;
      } else {
        LomutoSkip(a[..], low, storeIndex, i, high, pivotValue);
      }
      i := i + 1;
    }

    LomutoFinish(a0, a[..], low, storeIndex, high, pivotValue);
    SwapCounted(a, storeIndex, high, m);
    s := storeIndex;
  }

  /** Everything in `s[low..p-1]` is below `s[p]`, everything in `s[p+1..high]` at least it. */
  ghost predicate PivotAt(s: seq<int>, low: int, p: int, high: int)
    requires 0 <= low <= p <= high < |s|
  {
    && (forall k :: low <= k < p ==> s[k] < s[p])
    && (forall k :: p < k <= high ==> s[p] <= s[k])
  }

  /**
   * The state of the Lomuto loop: the pivot parked at `s[high]`, `s[low..store]`
   * below it, `s[store..i]` at least it, `s[i..high]` unexamined.
   */
  ghost predicate Lomuto(s: seq<int>, low: int, store: int, i: int, high: int, pivot: int)
  {
    && 0 <= low <= store <= i <= high < |s|
    && s[high] == pivot
    && (forall k :: low <= k < store ==> s[k] < pivot)
    && (forall k :: store <= k < i ==> pivot <= s[k])
  }

  /** Parking the pivot at `high` starts the loop with both sides empty. */
  lemma LomutoStart(s: seq<int>, low: int, pivotIndex: int, high: int)
    requires 0 <= low <= pivotIndex <= high < |s|
    ensures Lomuto(Swapped(s, pivotIndex, high), low, low, low, high, s[pivotIndex])
    ensures Perm(s, Swapped(s, pivotIndex, high), low, high + 1)
  {
    PermSwap(s, pivotIndex, high, low, high + 1);
  }

  lemma LomutoLess(s0: seq<int>, s: seq<int>, low: int, store: int, i: int, high: int, pivot: int)
    requires Lomuto(s, low, store, i, high, pivot) && Perm(s0, s, low, high + 1)
    requires i < high && s[i] < pivot
    ensures Lomuto(Swapped(s, i, store), low, store + 1, i + 1, high, pivot)
    ensures Perm(s0, Swapped(s, i, store), low, high + 1)
  {
    PermThenSwap(s0, s, i, store, low, high + 1);
  }

  lemma LomutoSkip(s: seq<int>, low: int, store: int, i: int, high: int, pivot: int)
    requires Lomuto(s, low, store, i, high, pivot)
    requires i < high && pivot <= s[i]
    ensures Lomuto(s, low, store, i + 1, high, pivot)
  {
  }

  /** The closing swap puts the pivot between the two sides. */
  lemma LomutoFinish(s0: seq<int>, s: seq<int>, low: int, store: int, high: int, pivot: int)
    requires Lomuto(s, low, store, high, high, pivot) && Perm(s0, s, low, high + 1)
    ensures Swapped(s, store, high)[store] == pivot
    ensures PivotAt(Swapped(s, store, high), low, store, high)
    ensures Perm(s0, Swapped(s, store, high), low, high + 1)
  {
    PermThenSwap(s0, s, store, high, low, high + 1);
  }

  /**
   * Dutch-national-flag partition of `a[low..high]` around the value at `low`.
   * Returns `(lt, gt)` with the band of pivot copies at `a[lt..gt]`; a range of
   * fewer than two elements comes back as `(low, high)` untouched.
   */
  method Partition3Way(a: array<int>, low: int, high: int, m: MetricsCollector)
    returns (lt: int, gt: int)
    requires 0 <= low && high < a.Length
    modifies a, m
    ensures high <= low ==> lt == low && gt == high && a[..] == old(a[..])
    ensures high <= low ==> m.comparisons == old(m.comparisons) && m.swaps == old(m.swaps)
    ensures low < high ==> low <= lt <= gt <= high && Bands(a[..], low, lt, gt, high, old(a[low]))
    ensures low < high ==> Perm(old(a[..]), a[..], low, high + 1)
    ensures low < high ==> m.comparisons == old(m.comparisons) + (high - low + 1)
    ensures low < high ==> old(m.swaps) <= m.swaps <= old(m.swaps) + (high - low + 1)
    ensures m.allocations == old(m.allocations) && m.Settings() == old(m.Settings())
  {
    if high <= low {
      return low, high;
    }
    ghost var a0 := a[..];
    var pivot := a[low];
    assert a0[low] == pivot;
    var i := low;
    lt, gt := low, high;
    while i <= gt
      invariant ThreeWay(a[..], low, lt, i, gt, high, pivot)
      invariant Perm(a0, a[..], low, high + 1)
      invariant m.comparisons == old(m.comparisons) + (i - low) + (high - gt)
      invariant old(m.swaps) <= m.swaps <= old(m.swaps) + (i - low) + (high - gt)
      invariant m.allocations == old(m.allocations) && m.Settings() == old(m.Settings())
      decreases gt + 1 - i
    {
      m.IncrementComparisons();
      if a[i] < pivot {
        ThreeWayLess(a0, a[..], low, lt, i, gt, high, pivot);
        SwapCounted(a, i, lt, m);
        i, lt := i + 1, lt + 1;
      } else if a[i] > pivot {
        ThreeWayGreater(a0, a[..], low, lt, i, gt, high, pivot);
        SwapCounted(a, i, gt, m);
        gt := gt - 1;
      } else {
        i := i + 1;
      }
    }
  }

  /** `s[low..lt-1]` below `pivot`, `s[lt..gt]` equal to it, `s[gt+1..high]` above it. */
  ghost predicate Bands(s: seq<int>, low: int, lt: int, gt: int, high: int, pivot: int)
    requires 0 <= low <= lt <= gt + 1 <= high + 1 <= |s|
  {
    && (forall k :: low <= k < lt ==> s[k] < pivot)
    && (forall k :: lt <= k <= gt ==> s[k] == pivot)
    && (forall k :: gt < k <= high ==> pivot < s[k])
  }

  /**
   * The state of the three-way loop: `s[low..lt]` below the pivot,
   * `s[lt..i]` equal to it, `s[gt+1..high]` above it, `s[i..gt]` unexamined.
   */
  ghost predicate ThreeWay(s: seq<int>, low: int, lt: int, i: int, gt: int, high: int, pivot: int)
  {
    && 0 <= low <= lt <= i <= gt + 1 <= high + 1 <= |s| && low <= high
    && ((i == low && s[low] == pivot) || lt < i)
    && (forall k :: low <= k < lt ==> s[k] < pivot)
    && (forall k :: lt <= k < i ==> s[k] == pivot)
    && (forall k :: gt < k <= high ==> pivot < s[k])
  }

  lemma ThreeWayLess(s0: seq<int>, s: seq<int>, low: int, lt: int, i: int, gt: int, high: int, pivot: int)
    requires ThreeWay(s, low, lt, i, gt, high, pivot) && Perm(s0, s, low, high + 1)
    requires i <= gt && s[i] < pivot
    ensures ThreeWay(Swapped(s, i, lt), low, lt + 1, i + 1, gt, high, pivot)
    ensures Perm(s0, Swapped(s, i, lt), low, high + 1)
  {
    PermThenSwap(s0, s, i, lt, low, high + 1);
  }

  lemma ThreeWayGreater(s0: seq<int>, s: seq<int>, low: int, lt: int, i: int, gt: int, high: int, pivot: int)
    requires ThreeWay(s, low, lt, i, gt, high, pivot) && Perm(s0, s, low, high + 1)
    requires i <= gt && s[i] > pivot
    ensures ThreeWay(Swapped(s, i, gt), low, lt, i, gt - 1, high, pivot)
    ensures Perm(s0, Swapped(s, i, gt), low, high + 1)
  {
    PermThenSwap(s0, s, i, gt, low, high + 1);
  }

  /**
   * Insertion sort of `a[low..high]` (inclusive). Every element comparison,
   * including the one that ends a shift loop, is counted; no swap is counted.
   */
  method InsertionSort(a: array<int>, low: int, high: int, m: MetricsCollector)
    requires 0 <= low && high < a.Length
    modifies a, m
    ensures low <= high ==> a[..] == InsertionSorted(old(a[..]), low, high + 1)
    ensures low <= high ==> m.comparisons == old(m.comparisons) + SortComparisons(old(a[..]), low, high + 1)
    ensures high < low ==> a[..] == old(a[..]) && m.comparisons == old(m.comparisons)
    ensures m.swaps == old(m.swaps) && m.allocations == old(m.allocations)
    ensures m.Settings() == old(m.Settings())
  {
    if high < low {
      return;
    }
    ghost var a0 := a[..];
    var i := low + 1;
    while i <= high
      invariant low + 1 <= i <= high + 1
      invariant a[..] == InsertionSorted(a0, low, i)
      invariant m.comparisons == old(m.comparisons) + SortComparisons(a0, low, i)
      invariant m.swaps == old(m.swaps) && m.allocations == old(m.allocations)
      invariant m.Settings() == old(m.Settings())
    {
      ghost var b := a[..];
      var key := a[i];
      var j := ShiftLarger(a, low, i, key, m);
      a[j + 1] := key;
      assert a[..] == InsertPass(b, low, i);
      i := i + 1;
    }
  }

  /**
   * Insertion sort of a non-empty range as the divide-and-conquer sorters use
   * it at their cutoff: the range ends up sorted and rearranged, and only
   * comparisons are counted.
   */
  method SortSmall(a: array<int>, low: int, high: int, m: MetricsCollector)
    requires 0 <= low <= high < a.Length
    modifies a, m
    ensures Perm(old(a[..]), a[..], low, high + 1) && SortedRange(a[..], low, high + 1)
    ensures m.comparisons >= old(m.comparisons)
    ensures m.swaps == old(m.swaps) && m.allocations == old(m.allocations)
    ensures m.Settings() == old(m.Settings())
  {
    ghost var a0 := a[..];
    InsertionSort(a, low, high, m);
    InsertionSortedCorrect(a0, low, high + 1, high + 1);
    SortComparisonsBounds(a0, low, high + 1);
  }

  /**
   * The shift loop of insertion-sort step `i`, with the comparison that ends
   * it: every element of `a[low..i-1]` above `key`, from the right, is copied
   * one place right; returns the index just below the gap.
   */
  method ShiftLarger(a: array<int>, low: int, i: int, key: int, m: MetricsCollector) returns (j: int)
    requires 0 <= low < i < a.Length && key == a[i]
    modifies a, m
    ensures j == StopAt(old(a[..]), low, i - 1, key)
    ensures a[..] == Shifted(old(a[..]), j, i)
    ensures m.comparisons == old(m.comparisons) + PassComparisons(old(a[..]), low, i)
    ensures m.swaps == old(m.swaps) && m.allocations == old(m.allocations)
    ensures m.Settings() == old(m.Settings())
  {
    ghost var b := a[..];
    j := i - 1;
    while j >= low && a[j] > key
      invariant low - 1 <= j <= i - 1
      invariant a[..] == Shifted(b, j, i)
      invariant StopAt(b, low, j, key) == StopAt(b, low, i - 1, key)
      invariant m.comparisons == old(m.comparisons) + (i - 1 - j)
      invariant m.swaps == old(m.swaps) && m.allocations == old(m.allocations)
      invariant m.Settings() == old(m.Settings())
    {
      m.IncrementComparisons();
      ShiftedBelow(b, j, i, j);
      a[j + 1] := a[j];
      j := j - 1;
    }
    if j >= low {
      ShiftedBelow(b, j, i, j);
      m.IncrementComparisons();
    }
  }

  /**
   * Where the shift loop for key `key` stops when it starts at `j`: the first
   * index at or below `j` that is below `low` or holds a value at most `key`.
   */
  ghost function StopAt(s: seq<int>, low: int, j: int, key: int): (r: int)
    requires 0 <= low && low - 1 <= j < |s|
    ensures low - 1 <= r <= j
    decreases j + 1
  {
    if j >= low && s[j] > key then StopAt(s, low, j - 1, key) else j
  }

  /** Step `i` of insertion sort: `s[i]` moved down to where the shift loop stops. */
  ghost function InsertPass(s: seq<int>, low: int, i: int): (r: seq<int>)
    requires 0 <= low < i < |s|
    ensures |r| == |s|
  {
    Inserted(s, StopAt(s, low, i - 1, s[i]), i)
  }

  /** `s` after the steps `low + 1 .. n - 1` of insertion sort on `s[low..]`. */
  ghost function InsertionSorted(s: seq<int>, low: int, n: int): (r: seq<int>)
    requires 0 <= low < n <= |s|
    ensures |r| == |s|
    decreases n
  {
    if n == low + 1 then s else InsertPass(InsertionSorted(s, low, n - 1), low, n - 1)
  }

  /** Comparisons counted by step `i`: one per shift, plus the one that stops it inside the range. */
  ghost function PassComparisons(s: seq<int>, low: int, i: int): int
    requires 0 <= low < i < |s|
  {
    var j := StopAt(s, low, i - 1, s[i]);
    (i - 1 - j) + (if j >= low then 1 else 0)
  }

  /** Comparisons counted by the steps `low + 1 .. n - 1`. */
  ghost function SortComparisons(s: seq<int>, low: int, n: int): int
    requires 0 <= low < n <= |s|
    decreases n
  {
    if n == low + 1 then 0
    else SortComparisons(s, low, n - 1) + PassComparisons(InsertionSorted(s, low, n - 1), low, n - 1)
  }

  /** The classical worst case of insertion sort on `n` elements. */
  function Triangle(n: nat): nat {
    if n == 0 then 0 else Triangle(n - 1) + (n - 1)
  }

  /** On the `m = n - low` elements of the range: at least `m - 1` and at most `m(m-1)/2` comparisons. */
  lemma {:induction false} SortComparisonsBounds(s: seq<int>, low: int, n: int)
    requires 0 <= low < n <= |s|
    ensures n - low - 1 <= SortComparisons(s, low, n) <= Triangle(n - low)
    decreases n
  {
    if n > low + 1 {
      SortComparisonsBounds(s, low, n - 1);
    }
  }

  /** Everything the loop shifted past is above the key; the stop, if in range, is not. */
  lemma {:induction false} StopAtFacts(s: seq<int>, low: int, j: int, key: int)
    requires 0 <= low && low - 1 <= j < |s|
    ensures StopAt(s, low, j, key) >= low ==> s[StopAt(s, low, j, key)] <= key
    ensures forall k :: StopAt(s, low, j, key) < k <= j ==> key < s[k]
    decreases j + 1
  {
    if j >= low && s[j] > key {
      StopAtFacts(s, low, j - 1, key);
    }
  }

  /** Insertion sort permutes the range and sorts it. */
  lemma {:induction false} InsertionSortedCorrect(s: seq<int>, low: int, n: int, hi: int)
    requires 0 <= low < n <= hi <= |s|
    ensures Perm(s, InsertionSorted(s, low, n), low, hi)
    ensures SortedRange(InsertionSorted(s, low, n), low, n)
    decreases n
  {
    if n == low + 1 {
      PermRefl(s, low, hi);
    } else {
      InsertionSortedCorrect(s, low, n - 1, hi);
      InsertionSortedStep(s, InsertionSorted(s, low, n - 1), low, n, hi);
    }
  }

  /** One more step of insertion sort on a permuted prefix-sorted range. */
  lemma InsertionSortedStep(s: seq<int>, t: seq<int>, low: int, n: int, hi: int)
    requires 0 <= low < n - 1 && n <= hi <= |s|
    requires Perm(s, t, low, hi) && SortedRange(t, low, n - 1)
    ensures Perm(s, InsertPass(t, low, n - 1), low, hi)
    ensures SortedRange(InsertPass(t, low, n - 1), low, n)
  {
    InsertPassSorted(t, low, n - 1);
    InsertedPerm(t, low, StopAt(t, low, n - 2, t[n - 1]), n - 1, hi);
    PermTrans(s, t, InsertPass(t, low, n - 1), low, hi);
  }

  /** Step `i` extends a sorted prefix `[low, i)` by one. */
  lemma InsertPassSorted(t: seq<int>, low: int, i: int)
    requires 0 <= low < i < |t| && SortedRange(t, low, i)
    ensures SortedRange(InsertPass(t, low, i), low, i + 1)
  {
    StopAtFacts(t, low, i - 1, t[i]);
    InsertedSorted(t, low, StopAt(t, low, i - 1, t[i]), i);
  }

  /**
   * `b` after the shift loop of step `i` has run down to `j`: each of
   * `b[j+1..i-1]` copied one place right, in the order the loop copies them.
   */
  ghost function Shifted(b: seq<int>, j: int, i: int): (r: seq<int>)
    requires -1 <= j < i < |b|
    ensures |r| == |b|
    decreases i - j
  {
    if j == i - 1 then b else Shifted(b, j + 1, i)[j + 2 := b[j + 1]]
  }

  /** The positions the shift has not reached still hold `b`. */
  lemma {:induction false} ShiftedBelow(b: seq<int>, j: int, i: int, k: int)
    requires -1 <= j < i < |b| && 0 <= k <= j + 1
    ensures Shifted(b, j, i)[k] == b[k]
    decreases i - j
  {
    if j < i - 1 {
      ShiftedBelow(b, j + 1, i, k);
    }
  }

  /** Element by element: `b[j+1..i-1]` sits at `j + 2 .. i`, the rest is `b`. */
  lemma {:induction false} ShiftedAt(b: seq<int>, j: int, i: int)
    requires -1 <= j < i < |b|
    ensures forall k {:trigger Shifted(b, j, i)[k]} :: 0 <= k < |b| ==>
      Shifted(b, j, i)[k] == (if j + 2 <= k <= i then b[k - 1] else b[k])
    decreases i - j
  {
    if j < i - 1 {
      ShiftedAt(b, j + 1, i);
    }
  }

  /** `b` with `b[i]` moved down to position `j + 1`: the end of step `i`. */
  ghost function Inserted(b: seq<int>, j: int, i: int): (r: seq<int>)
    requires -1 <= j < i < |b|
    ensures |r| == |b|
  {
    Shifted(b, j, i)[j + 1 := b[i]]
  }

  lemma InsertedAt(b: seq<int>, j: int, i: int)
    requires -1 <= j < i < |b|
    ensures forall k {:trigger Inserted(b, j, i)[k]} :: 0 <= k < |b| ==>
      Inserted(b, j, i)[k] == (if k <= j then b[k] else if k == j + 1 then b[i] else if k <= i then b[k - 1] else b[k])
  {
    ShiftedAt(b, j, i);
  }

  lemma InsertedShape(b: seq<int>, j: int, i: int)
    requires -1 <= j < i < |b|
    ensures Inserted(b, j, i) == b[..j + 1] + [b[i]] + b[j + 1..i] + b[i + 1..]
  {
    InsertedAt(b, j, i);
    var t, u := Inserted(b, j, i), b[..j + 1] + [b[i]] + b[j + 1..i] + b[i + 1..];
    forall k | 0 <= k < |b|
      ensures t[k] == u[k]
    {
      if k <= j {
        assert u[k] == b[k];
      } else if k == j + 1 {
        assert u[k] == b[i];
      } else if k <= i {
        assert u[k] == b[j + 1..i][k - (j + 2)];
      } else {
        assert u[k] == b[i + 1..][k - (i + 1)];
      }
    }
  }

  /**
   * One outer step of insertion sort: `b[i]` moved down over the larger
   * elements `b[j+1..i-1]` keeps the range a permutation and extends the
   * sorted prefix by one.
   */
  lemma InsertStep(b: seq<int>, low: int, j: int, i: int, hi: int)
    requires 0 <= low <= j + 1 <= i < hi <= |b|
    requires SortedRange(b, low, i)
    requires forall k :: j + 1 <= k < i ==> b[i] < b[k]
    requires j >= low ==> b[j] <= b[i]
    ensures Perm(b, Inserted(b, j, i), low, hi)
    ensures SortedRange(Inserted(b, j, i), low, i + 1)
  {
    InsertedPerm(b, low, j, i, hi);
    InsertedSorted(b, low, j, i);
  }

  lemma InsertedPerm(b: seq<int>, low: int, j: int, i: int, hi: int)
    requires 0 <= low <= j + 1 <= i < hi <= |b|
    ensures Perm(b, Inserted(b, j, i), low, hi)
  {
    var t := Inserted(b, j, i);
    var p, q := b[..low], b[i + 1..];
    var x := b[low..j + 1] + [b[i]] + b[j + 1..i];
    var y := b[low..j + 1] + b[j + 1..i] + [b[i]];
    InsertedShape(b, j, i);
    assert b[..j + 1] == p + b[low..j + 1];
    assert t == p + x + q;
    assert b == p + y + q by {
      assert b == b[..low] + b[low..j + 1] + b[j + 1..i] + [b[i]] + b[i + 1..];
    }
    ThreeParts(p, x, q);
    ThreeParts(p, y, q);
    assert multiset(x) == multiset(y);
    PermWiden(b, t, low, hi, low, i + 1);
  }

  /** The three parts of `p + x + q`, recovered by slicing. */
  lemma ThreeParts(p: seq<int>, x: seq<int>, q: seq<int>)
    ensures (p + x + q)[..|p|] == p
    ensures (p + x + q)[|p|..|p| + |x|] == x
    ensures (p + x + q)[|p| + |x|..] == q
  {
  }

  lemma InsertedSorted(b: seq<int>, low: int, j: int, i: int)
    requires 0 <= low <= j + 1 <= i < |b|
    requires SortedRange(b, low, i)
    requires forall k :: j + 1 <= k < i ==> b[i] < b[k]
    requires j >= low ==> b[j] <= b[i]
    ensures SortedRange(Inserted(b, j, i), low, i + 1)
  {
    InsertedAt(b, j, i);
    var t := Inserted(b, j, i);
    forall p, q | low <= p < q < i + 1
      ensures t[p] <= t[q]
    {
      if q == j + 1 && j >= low {
        assert b[p] <= b[j];
      }
    }
  }

  /** True exactly when no element is smaller than its left neighbour. */
  method IsSorted(a: array<int>) returns (r: bool)
    ensures r <==> AdjacentSorted(a[..])
    ensures r <==> Sorted(a[..])
  {
    AdjacentSortedIff(a[..]);
    var i := 1;
    while i < a.Length
      invariant 1 <= i <= a.Length || a.Length == 0
      invariant forall k :: 1 <= k < i && k < a.Length ==> a[k - 1] <= a[k]
    {
      if a[i] < a[i - 1] {
        return false;
      }
      i := i + 1;
    }
    return true;
  }

  /** `[0, 1, ..., size - 1]`. */
  method GenerateSortedArray(size: nat) returns (a: array<int>)
    ensures fresh(a) && a.Length == size
    ensures forall i :: 0 <= i < size ==> a[i] == i
    ensures Sorted(a[..])
  {
    a := new int[size];
    var i := 0;
    while i < size
      invariant 0 <= i <= size
      invariant forall k :: 0 <= k < i ==> a[k] == k
    {
      a[i] := i;
      i := i + 1;
    }
  }

  /** `[size, size - 1, ..., 1]`. */
  method GenerateReverseSortedArray(size: nat) returns (a: array<int>)
    ensures fresh(a) && a.Length == size
    ensures forall i :: 0 <= i < size ==> a[i] == size - i
    ensures forall i, j :: 0 <= i < j < size ==> a[i] > a[j]
  {
    a := new int[size];
    var i := 0;
    while i < size
      invariant 0 <= i <= size
      invariant forall k :: 0 <= k < i ==> a[k] == size - k
    {
      a[i] := size - i;
      i := i + 1;
    }
  }
}
