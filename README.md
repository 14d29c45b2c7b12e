# Divide-and-conquer algorithms lab, modelled in Dafny

This project models the algorithm engine of a small Java lab for
divide-and-conquer algorithms, together with the instrumentation it reports
through:

- the array primitives: swaps with and without a swap counter, the
  Fisher–Yates shuffle, Lomuto and three-way partitioning, range insertion
  sort, the sortedness check and the sorted and reverse-sorted generators;
- top-down merge sort. It has an insertion-sort cutoff and one scratch buffer
  shared by the whole recursion. A variant allocates fresh buffers for every
  merge;
- quicksort in four variants:
  - shuffle, random pivot, recurse on the smaller side and loop on the larger;
  - three-way partitioning;
  - plain random-pivot quicksort;
  - the loop form with a median-of-three pivot;
- median-of-medians selection of the k-th smallest element, and a randomized
  quickselect;
- the metrics record (comparisons, swaps, allocations, timestamps, input
  size, recorded depth), the recursion-depth tracker, and the history of
  archived runs.

Every component is sequential and works in place on `int` arrays. The model
keeps that form. Each algorithm is a class holding its metrics record. Its
methods modify `array<int>` and prove their loops with invariants.

Each method's contract ties the new state to specification functions and
predicates, mostly in module `Segments`:

- `Sorted` and `SortedRange` state order;
- `Perm` says a range was rearranged and everything outside it kept;
- `SortedOf` is the sorted rearrangement of a sequence;
- `KthSmallest` is the k-th smallest element of a range;
- `Merged` is the left-biased merge;
- `InsertionSorted` is insertion sort, step by step.

Lemmas prove what those functions guarantee. Examples: the merge of two sorted
runs is sorted and keeps their elements; a sorted rearrangement is unique;
partitioning around a pivot splits the sorted copy at the pivot.

The model departs from the Java program in these ways:

- The depth tracker is `static` and `ThreadLocal` in the source. Here it is one
  explicit `DepthTracker` object passed to each recursive method.
- The static history list is an explicit `MetricsHistory` object.
- `System.nanoTime()` readings are replaced by timestamps the caller passes
  in.
- `Random.nextInt` is `ArrayUtils.NextInt`, an arbitrary choice in range.
  Every property therefore holds for every sequence of random draws and every
  shuffle.
- Counters are Java `long`s. Here they are unbounded integers.
- `IllegalArgumentException` becomes `SelectResult.InvalidInput`. Other
  runtime exceptions are excluded by parameter types; see "Left out".

Recursion depth is proved with a ghost budget `b`: a range of at most `2^b`
elements enters the tracker at most `b + 1` levels below where it started.
The top-level call uses `b = Log2(n) + 1`. This gives a maximum depth of at
most `⌊log₂ n⌋ + 2` above the starting depth, for both merge sorts and for
both loop-form quicksorts. The quicksort bound holds for every pivot choice,
because the recursive call is always on the side with at most half the
range. The lab's tests expect `⌊log₂ n⌋ + 5` for merge sort and
`2·⌊log₂ n⌋ + 10` for quicksort, so both proved bounds are tighter.

## Model

| member | source | states |
|---|---|---|
| `Metrics.MetricsCollector.constructor` | src/main/java/org/AITU/metrics/MetricsCollector.java:34-37 | the record starts with the given name and every counter, time, size and recorded depth at zero |
| `Metrics.MetricsCollector.Reset` | src/main/java/org/AITU/metrics/MetricsCollector.java:39-49 | comparisons, swaps, allocations, both times, input size and recorded depth become 0; the algorithm name is kept; the depth tracker is not in its frame, so it is untouched |
| `Metrics.DepthTracker.EnterRecursion` | src/main/java/org/AITU/metrics/MetricsCollector.java:52-58 | current depth goes up by one; max depth becomes the larger of the old max and the new current; the invariant `0 <= current <= max` is preserved |
| `Metrics.DepthTracker.ExitRecursion` | src/main/java/org/AITU/metrics/MetricsCollector.java:60-62 | current depth goes down by one and max depth is unchanged; the invariant holds afterwards whenever the current depth was positive, that is, while exits do not outnumber enters |
| `Metrics.DepthTracker.GetMaxDepth` | src/main/java/org/AITU/metrics/MetricsCollector.java:64-66 | returns the max depth; the tracker is not in its frame, so nothing changes |
| `Metrics.DepthTracker.ResetDepth` | src/main/java/org/AITU/metrics/MetricsCollector.java:68-71 | current and max depth are both 0 |
| `Metrics.MetricsCollector.IncrementComparisons` | src/main/java/org/AITU/metrics/MetricsCollector.java:74-76 | comparisons go up by exactly 1; swaps, allocations, name, times, size and recorded depth are unchanged |
| `Metrics.MetricsCollector.IncrementComparisonsBy` | src/main/java/org/AITU/metrics/MetricsCollector.java:78-80 | comparisons go up by exactly `count`; every other field is unchanged |
| `Metrics.MetricsCollector.IncrementSwaps` | src/main/java/org/AITU/metrics/MetricsCollector.java:82-84 | swaps go up by exactly 1; every other field is unchanged |
| `Metrics.MetricsCollector.IncrementAllocations` | src/main/java/org/AITU/metrics/MetricsCollector.java:86-88 | allocations go up by exactly 1; every other field is unchanged |
| `Metrics.MetricsCollector.IncrementAllocationsBy` | src/main/java/org/AITU/metrics/MetricsCollector.java:90-92 | allocations go up by exactly `count`; every other field is unchanged |
| `Metrics.MetricsCollector.StartTimer` | src/main/java/org/AITU/metrics/MetricsCollector.java:95-97 | the start time becomes the supplied timestamp and nothing else changes |
| `Metrics.MetricsCollector.StopTimer` | src/main/java/org/AITU/metrics/MetricsCollector.java:99-101 | the end time becomes the supplied timestamp and nothing else changes |
| `Metrics.MetricsCollector.GetElapsedTimeNanos` | src/main/java/org/AITU/metrics/MetricsCollector.java:103-105 | the result is the gap between the start and end timestamps (`start + elapsed == end`) |
| `Metrics.MetricsCollector.SetInputSize` | src/main/java/org/AITU/metrics/MetricsCollector.java:112-114 | the input size becomes `size` and nothing else changes |
| `Metrics.MetricsCollector.RecordRun` | src/main/java/org/AITU/metrics/MetricsCollector.java:137-152 | the history grows by exactly one snapshot at its end. The snapshot's name, counters, times and size are the live values, and its recorded depth is the tracker's current max. A snapshot is an immutable value, so later changes to the live record cannot reach it |
| `Metrics.MetricsHistory.ClearAllMetrics` | src/main/java/org/AITU/metrics/MetricsCollector.java:179-181 | the history is empty |
| `ArrayUtils.NextInt` | src/main/java/org/AITU/utils/ArrayUtils.java:40 | the random draw is some index in `[0, bound)` and nothing more is known about it |
| `ArrayUtils.Swap` | src/main/java/org/AITU/utils/ArrayUtils.java:17-23 | `a[i]` and `a[j]` are exchanged and every other position is kept; with `i == j` the array is unchanged |
| `ArrayUtils.SwapCounted` | src/main/java/org/AITU/utils/ArrayUtils.java:28-33 | the same exchange; swaps go up by exactly 1 when `i != j` and by 0 otherwise; no other counter moves |
| `ArrayUtils.Shuffle` | src/main/java/org/AITU/utils/ArrayUtils.java:38-43 | the array ends up a rearrangement of its old contents (same multiset), whatever the random draws |
| `ArrayUtils.Partition` | src/main/java/org/AITU/utils/ArrayUtils.java:49-67 | returns `s` in `[low, high]` and `a[s]` is the old `a[pivotIndex]`. Everything in `a[low..s-1]` is below the pivot and everything in `a[s+1..high]` is at least the pivot. The range is a permutation of its old contents and nothing outside it changes. Comparisons rise by exactly `high - low`; swaps rise by at most `high - low + 2` |
| `ArrayUtils.Partition3Way` | src/main/java/org/AITU/utils/ArrayUtils.java:73-93 | with `high <= low` it returns `(low, high)` and touches nothing. Otherwise `low <= lt <= gt <= high`, and the bands around the old `a[low]` are strictly below, equal and strictly above. The range is permuted and the rest kept. Comparisons rise by exactly `high - low + 1` |
| `ArrayUtils.InsertionSort` | src/main/java/org/AITU/utils/ArrayUtils.java:98-112 | the array becomes `InsertionSorted` of its old contents, the step-by-step insertion sort of the range. Comparisons rise by exactly the number the shift loops make, including each loop-ending test inside the range. Swaps and allocations are untouched |
| `ArrayUtils.ShiftLarger` | src/main/java/org/AITU/utils/ArrayUtils.java:100-108 | the shift loop copies each larger element one place right and stops at the first position holding at most the key, or just below `low`. It counts one comparison per shift, plus one for a stop inside the range |
| `ArrayUtils.InsertionSortedCorrect` | src/main/java/org/AITU/utils/ArrayUtils.java:98-112 | insertion sort leaves the range non-decreasing and a permutation of its old contents, and keeps every other position |
| `ArrayUtils.SortComparisonsBounds` | src/main/java/org/AITU/utils/ArrayUtils.java:99-109 | insertion sort on `n` elements counts at least `n - 1` and at most `n(n-1)/2` comparisons |
| `ArrayUtils.SortSmall` | src/main/java/org/AITU/utils/ArrayUtils.java:98-112 | insertion sort as the sorters call it at their cutoff: the range ends sorted and permuted, the rest is kept, only comparisons move |
| `ArrayUtils.IsSorted` | src/main/java/org/AITU/utils/ArrayUtils.java:153-160 | true exactly when every `a[i-1] <= a[i]`, which holds exactly when the whole array is sorted |
| `ArrayUtils.GenerateSortedArray` | src/main/java/org/AITU/utils/ArrayUtils.java:125-131 | a fresh array of length `size` with `a[i] == i`, hence sorted |
| `ArrayUtils.GenerateReverseSortedArray` | src/main/java/org/AITU/utils/ArrayUtils.java:133-139 | a fresh array of length `size` with `a[i] == size - i`, hence strictly decreasing |
| `MergeSort.MergeSort.constructor` | src/main/java/org/AITU/algorithms/MergeSort.java:22-24 | a fresh record named "MergeSort" with zero counters, and no buffer |
| `MergeSort.MergeSort.Sort` | src/main/java/org/AITU/algorithms/MergeSort.java:29-44 | null or short arrays: array, metrics and tracker untouched. Otherwise: the array is a sorted permutation of its input; allocations are exactly `arr.Length`; swaps are 0; size and times are recorded; the buffer is dropped; current depth is restored; max depth is at most `⌊log₂ n⌋ + 2` above the starting depth |
| `MergeSort.MergeSort.MergeSortHelper` | src/main/java/org/AITU/algorithms/MergeSort.java:49-72 | sorts and permutes `arr[low..high]` and keeps the rest. It enters and leaves the tracker once each, so current depth ends where it started. Max depth stays within `b + 1` levels for a range of at most `2^b` elements |
| `MergeSort.MergeSort.SortHalves` | src/main/java/org/AITU/algorithms/MergeSort.java:59-67 | the recursive case: both halves sorted one level deeper, then merged, give a sorted permutation of the range |
| `MergeSort.MergeSort.Merge` | src/main/java/org/AITU/algorithms/MergeSort.java:77-106 | the range becomes the left-biased merge `Merged` of its two halves and nothing outside it changes. Comparisons rise by exactly the merge's head-to-head count. The shared buffer holds a copy of the range |
| `MergeSort.MergeThrough` | src/main/java/org/AITU/algorithms/MergeSort.java:77-106 | the range is first copied into the buffer at the same positions, then the two halves are merged back. The range becomes `Merged` of its old halves. Comparisons rise by exactly the head-to-head count, and swaps and allocations do not change |
| `MergeSort.MergeInto` | src/main/java/org/AITU/algorithms/MergeSort.java:83-105 | the head-to-head loop and the two drain loops write exactly `Merged(left run, right run)` from `k0` on. Only head-to-head tests are counted |
| `MergeSort.MergeHeads` | src/main/java/org/AITU/algorithms/MergeSort.java:88-95 | the head-to-head loop stops with one run exhausted, having written the matching prefix of the merge and counted one comparison per step |
| `MergeSort.PlaceSmaller` | src/main/java/org/AITU/algorithms/MergeSort.java:89-94 | one step writes the left head when `left[i] <= right[j]` (ties go left) and otherwise the right head, with exactly one comparison |
| `MergeSort.CopyRun` | src/main/java/org/AITU/algorithms/MergeSort.java:97-105 | a drain loop copies the rest of one run into place and counts nothing |
| `MergeSort.MergedSorted` | src/main/java/org/AITU/algorithms/MergeSort.java:77-106 | the merge of two sorted runs is sorted |
| `MergeSort.MergedMultiset` | src/main/java/org/AITU/algorithms/MergeSort.java:77-106 | the merge holds exactly the elements of both runs |
| `MergeSort.MergeComparisonsBounds` | src/main/java/org/AITU/algorithms/MergeSort.java:88-95 | a merge makes no comparisons when a run is empty. Otherwise it makes at least the shorter run's length and at most `|l| + |r| - 1`, which is `high - low` |
| `MergeSort.MergeResult` | src/main/java/org/AITU/algorithms/MergeSort.java:77-106 | merging the sorted halves in place leaves the range sorted and a permutation of what it held |
| `MergeSort.MergeSortStep` | src/main/java/org/AITU/algorithms/MergeSort.java:63-67 | sorting the left half, then the right half, then merging, sorts and permutes the whole range |
| `MergeSort.MergeSort.SortWithoutBufferReuse` | src/main/java/org/AITU/algorithms/MergeSort.java:111-121 | same guard and same sorted-permutation result as `Sort`. At least `arr.Length` allocations are counted. Depth is restored, and the max depth is at most `⌊log₂ n⌋ + 2` above the start |
| `MergeSort.MergeSort.MergeSortNoReuse` | src/main/java/org/AITU/algorithms/MergeSort.java:123-138 | sorts and permutes `arr[low..high]`; enter and exit are balanced; for two or more elements at least the range's size is allocated |
| `MergeSort.MergeSort.SortHalvesNoReuse` | src/main/java/org/AITU/algorithms/MergeSort.java:127-134 | the recursive case of the no-reuse sort: both halves, then the merge, give a sorted permutation |
| `MergeSort.MergeSort.MergeWithNewBuffer` | src/main/java/org/AITU/algorithms/MergeSort.java:140-176 | the range becomes the left-biased merge of its halves. Allocations rise by exactly `high - low + 1`; comparisons rise by the merge's head-to-head count |
| `QuickSort.QuickSort.constructor` | src/main/java/org/AITU/algorithms/QuickSort.java:24-26 | a fresh record named "QuickSort" with zero counters |
| `QuickSort.QuickSort.Sort` | src/main/java/org/AITU/algorithms/QuickSort.java:31-44 | null or short arrays: everything untouched. Otherwise, for every shuffle and pivot choice: a sorted permutation of the input; allocations 0; size and times recorded; current depth restored; max depth at most `⌊log₂ n⌋ + 2` above the start |
| `QuickSort.QuickSort.QuickSortOptimized` | src/main/java/org/AITU/algorithms/QuickSort.java:50-83 | the tail-iterating loop, also used for `quickSortMedianOfThree` (lines 198-225). It leaves `arr[low..high]` sorted and permuted. Each round enters and exits once. Max depth stays within `b + 1` levels for a range of at most `2^b` elements, whatever the pivots |
| `QuickSort.QuickSort.PartitionAndRecurse` | src/main/java/org/AITU/algorithms/QuickSort.java:61-79 | one round keeps the loop invariant: the finished parts are sorted and in place, and the unfinished window strictly shrinks. Its recursive call stays within a depth budget one smaller than the window's |
| `QuickSort.QuickSort.PartitionRound` | src/main/java/org/AITU/algorithms/QuickSort.java:61-63 | picks a pivot and partitions the window: the pivot ends at `p` with smaller values left and the rest right, and the loop invariant still holds |
| `QuickSort.QuickSort.ChoosePivot` | src/main/java/org/AITU/algorithms/QuickSort.java:209 | the pivot index is in the window. Under the random rule it is any position there; under the median-of-three rule the window is also rearranged (only permuted) |
| `QuickSort.QuickSort.RecurseLeft` | src/main/java/org/AITU/algorithms/QuickSort.java:69-73 | when the left side is smaller it is sorted one level deeper; the finished prefix grows past the pivot |
| `QuickSort.QuickSort.RecurseRight` | src/main/java/org/AITU/algorithms/QuickSort.java:74-79 | when the right side is no larger it is sorted one level deeper; the finished suffix grows down to the pivot |
| `QuickSort.SmallerSideFits` | src/main/java/org/AITU/algorithms/QuickSort.java:66-79 | the side chosen for the recursive call has at most `(high - low) / 2` elements, so it fits a depth budget one smaller |
| `QuickSort.QuickSort.Sort3Way` | src/main/java/org/AITU/algorithms/QuickSort.java:89-99 | null or short arrays: everything untouched. Otherwise: a sorted permutation; allocations 0; current depth restored; max depth at most `n` above the start |
| `QuickSort.QuickSort.QuickSort3Way` | src/main/java/org/AITU/algorithms/QuickSort.java:101-125 | ranges of fewer than two elements return at once. Otherwise the range is sorted and permuted, with enter and exit balanced. Termination is by the range length, because each recursive range excludes the pivot band |
| `QuickSort.QuickSort.SortOuterBands` | src/main/java/org/AITU/algorithms/QuickSort.java:113-120 | three-way partition, then sorting the bands below `lt` and above `gt`, sorts the whole range; the equal band is already in final position |
| `QuickSort.BandsSorted` | src/main/java/org/AITU/algorithms/QuickSort.java:113-120 | if the below-band and the above-band are each sorted in place and the equal band is untouched, the range is sorted and a permutation of the original |
| `QuickSort.QuickSort.SortBasic` | src/main/java/org/AITU/algorithms/QuickSort.java:130-140 | null or short arrays: everything untouched. Otherwise a sorted permutation for every pivot choice, with depth restored |
| `QuickSort.QuickSort.QuickSortBasic` | src/main/java/org/AITU/algorithms/QuickSort.java:142-157 | sorts and permutes `arr[low..high]` with enter and exit balanced |
| `QuickSort.QuickSort.SortAroundPivot` | src/main/java/org/AITU/algorithms/QuickSort.java:147-151 | partition around a random pivot, then sort both sides: a sorted permutation of the range |
| `QuickSort.PivotSorted` | src/main/java/org/AITU/algorithms/QuickSort.java:147-151 | a range partitioned at `p` whose two sides are then sorted in place is sorted and a permutation of the original |
| `QuickSort.QuickSort.MedianOfThree` | src/main/java/org/AITU/algorithms/QuickSort.java:162-181 | returns `mid = low + (high-low)/2` with `arr[low] <= arr[mid] <= arr[high]`. Only those three positions change, and their three values are permuted among themselves. Comparisons rise by exactly 3 |
| `QuickSort.QuickSort.CompareAndSwap` | src/main/java/org/AITU/algorithms/QuickSort.java:165-168 | the pair at `i`, `j` is put in order (`Ordered`): the smaller value ends at `i`. Exactly one comparison is counted, and at most one swap |
| `QuickSort.MedianOrderedSorts` | src/main/java/org/AITU/algorithms/QuickSort.java:162-181 | after the three compare-and-swaps the values at `low`, `mid`, `high` are in order |
| `QuickSort.MedianOrderedThree` | src/main/java/org/AITU/algorithms/QuickSort.java:162-181 | the three compare-and-swaps keep the multiset of the three sampled values |
| `QuickSort.QuickSort.SortMedianOfThree` | src/main/java/org/AITU/algorithms/QuickSort.java:186-196 | null or short arrays: everything untouched. Otherwise a sorted permutation with no shuffle; max depth at most `⌊log₂ n⌋ + 2` above the start |
| `Selection.DeterministicSelect.constructor` | src/main/java/org/AITU/algorithms/DeterministicSelect.java:23-25 | a fresh record named "DeterministicSelect" with zero counters |
| `Selection.DeterministicSelect.Select` | src/main/java/org/AITU/algorithms/DeterministicSelect.java:30-47 | a null or empty array, or `k` outside `[0, length)`, gives `InvalidInput` with metrics and tracker untouched. Otherwise the result is `Found(sorted(arr)[k])`. The caller's array is outside the frame, so it is unchanged. At least `arr.Length` allocations are counted and depth is restored |
| `Selection.DeterministicSelect.DeterministicSelect` | src/main/java/org/AITU/algorithms/DeterministicSelect.java:52-84 | for `0 <= k <= high - low`, returns the k-th smallest of the old `arr[low..high]`. The range is only permuted, and enter and exit are balanced |
| `Selection.DeterministicSelect.SelectAroundMedian` | src/main/java/org/AITU/algorithms/DeterministicSelect.java:61-79 | for two or more elements, the median of medians as pivot yields the k-th smallest |
| `Selection.DeterministicSelect.PartitionAndSelect` | src/main/java/org/AITU/algorithms/DeterministicSelect.java:64-79 | if `k == position` the pivot is the answer. If `k < position` the answer is found on the left with the same `k`; otherwise on the right with `k - position - 1` |
| `Selection.DeterministicSelect.SplitForSelect` | src/main/java/org/AITU/algorithms/DeterministicSelect.java:64-68 | after partitioning, the range's k-th smallest is the pivot or the rebased answer in the side `SideRange` names |
| `Selection.SelectStep` | src/main/java/org/AITU/algorithms/DeterministicSelect.java:67-79 | around a pivot at `p`, the k-th smallest of the range is the pivot when `k == p - low`. Otherwise it is the k-th of the left part, or the `(k - position - 1)`-th of the right part |
| `Selection.KthSmallestPerm` | src/main/java/org/AITU/algorithms/DeterministicSelect.java:61-65 | rearranging a range does not change its k-th smallest |
| `Selection.DeterministicSelect.MedianOfMedians` | src/main/java/org/AITU/algorithms/DeterministicSelect.java:91-136 | returns an index in `[low, high]`. For at most five elements it holds the range's `n/2`-th smallest value. Otherwise it holds the `numGroups/2`-th smallest of `MediansOf` the old range, the sequence of its group-of-five medians. The range is only permuted, current depth is restored, and max depth stays within the caller's budget |
| `Selection.DeterministicSelect.GatherGroupMedians` | src/main/java/org/AITU/algorithms/DeterministicSelect.java:104-115 | `medians[g]` is the median of group `g` of the old range, and the medians also sit at the front of the range, which is only permuted |
| `Selection.DeterministicSelect.MoveGroupMedian` | src/main/java/org/AITU/algorithms/DeterministicSelect.java:106-114 | one group: its median index lies in the group and held the group's median (its `size/2`-th smallest). That value is recorded in `medians[i]` and swapped to `low + i`; nothing else changes |
| `Selection.KthSmallestIn` | src/main/java/org/AITU/algorithms/DeterministicSelect.java:127-134 | the selected median of medians occurs in the range, so the search for it always succeeds |
| `Selection.IndexOf` | src/main/java/org/AITU/algorithms/DeterministicSelect.java:128-132 | returns the first position in `[lo, hi)` holding the value |
| `Selection.DeterministicSelect.FindMedianIndex` | src/main/java/org/AITU/algorithms/DeterministicSelect.java:141-168 | returns an index in `[low, high]` whose value is the `(high-low+1)/2`-th smallest of the range; the array is not modified |
| `Selection.DeterministicSelect.InsertIndex` | src/main/java/org/AITU/algorithms/DeterministicSelect.java:150-164 | one pass of the index insertion sort extends the sorted-by-value prefix of `indices` by one, keeping it a rearrangement of the range's positions |
| `Selection.IndexDone` | src/main/java/org/AITU/algorithms/DeterministicSelect.java:166-167 | once the positions are sorted by value, `indices[n/2]` is in the range and holds its `n/2`-th smallest value |
| `Selection.WholePick` | src/main/java/org/AITU/algorithms/DeterministicSelect.java:39-43 | selecting in a rearranged copy gives `sorted(arr)[k]` |
| `Selection.CopyOf` | src/main/java/org/AITU/algorithms/DeterministicSelect.java:40 | the working copy is fresh and equal to the input |
| `Selection.DeterministicSelect.QuickSelect` | src/main/java/org/AITU/algorithms/DeterministicSelect.java:173-190 | it rejects the same arguments as `Select`. Otherwise it returns the same `Found(sorted(arr)[k])` whatever the shuffle, counts exactly `arr.Length` allocations, and leaves the caller's array unchanged |
| `Selection.DeterministicSelect.RandomizedSelect` | src/main/java/org/AITU/algorithms/DeterministicSelect.java:192-217 | returns the k-th smallest of the old `arr[low..high]` with `arr[low]` as pivot; the range is only permuted; enter and exit are balanced |
| `Selection.DeterministicSelect.SelectAroundFirst` | src/main/java/org/AITU/algorithms/DeterministicSelect.java:200-212 | partition around the first element, then answer or recurse into the side holding the rank |
| `Selection.DeterministicSelect.FindMedian` | src/main/java/org/AITU/algorithms/DeterministicSelect.java:222-224 | exactly `Select(arr, arr.Length / 2)`: the upper median, or `InvalidInput` for an empty array |
| `Segments.SortedUnique` | src/main/java/org/AITU/algorithms/DeterministicSelect.java:43 | two sorted sequences with the same elements are equal, so "the k-th smallest" is well defined and both selects must agree |
| `Segments.SortedOfAroundPivot` | src/main/java/org/AITU/utils/ArrayUtils.java:49-67 | once a pivot sits between smaller and not-smaller elements, the sorted copy is the sorted left part, the pivot, then the sorted right part |

## Left out

- `ClosestPair` is not part of this model. It computes with `double` coordinates and `Math.sqrt` distances, i.e. floating-point geometry.
- `Main`, the benchmark harness and the JUnit tests are not part of this model. The tests only served as evidence for the properties above.
- `MetricsCollector.exportToCSV`, `getElapsedTimeMillis` and `toString` are left out. They are file I/O, double division and locale-dependent formatting. The plain getters (`getComparisons` and the like) are field reads and have no separate members.
- `ArrayUtils.generateRandomArray`, `generateArrayWithDuplicates` and `copyArray` are left out as random or library wrappers. The selection copy is modelled by `Selection.CopyOf`.
- `ThreadLocal` isolation of the depth counters is not modelled. One explicit `DepthTracker` object stands for the tracker of one execution context. The history list's concurrent access is not modelled either.
- Counter overflow is not modelled. The Java counters are 64-bit `long`s, and the model uses unbounded integers.
- The `numGroups == 1` branch and the final `return low` fallback in `medianOfMedians` (DeterministicSelect.java:119-120, 134) are not modelled as code, because neither can run. The single-group branch needs `numGroups == 1`, but the code only reaches it with `n > 5`, and `n > 5` gives `numGroups >= 2`. The fallback would need the median of medians to be missing from the gathered medians, and `Selection.KthSmallestIn` proves it is always there.
- `MergeSort.MergeSort.SortWithoutBufferReuse` and `MergeSort.MergeSort.MergeSortNoReuse` state only a lower bound on total allocations, not the exact sum over every merge (about `n·⌈log₂ n⌉`). The exact amount is proved per merge by `MergeWithNewBuffer`.
- `QuickSort.QuickSort.Sort3Way`, `QuickSort.QuickSort.SortBasic`, `Selection.DeterministicSelect.Select` and `Selection.DeterministicSelect.QuickSelect` bound the maximum depth by the input length only. No logarithmic bound holds for every input:
  - `quickSort3Way` pivots on `arr[low]`, so on sorted distinct input every level peels off one element.
  - `quickSortBasic` and `randomizedSelect` recurse on a side of arbitrary size, because the pivot is arbitrary.
  - In `deterministicSelect`, the Lomuto partition's strict `<` (ArrayUtils.java:58) leaves the pivot at `low` when all elements are equal. With `k = n - 1`, every level then recurses on `n - 1` elements, even with the median-of-medians pivot.
- The swap and comparison counts of the sorts and selects are stated as non-decreasing rather than exact. Exact counts are stated on the primitives: `Partition`, `Partition3Way`, `InsertionSort`, `Merge` and `MedianOfThree`.
- `ArrayUtils.GenerateSortedArray` and `ArrayUtils.GenerateReverseSortedArray` take a natural-number size. The `NegativeArraySizeException` that `new int[size]` throws for a negative size (ArrayUtils.java:126, 134) is not modelled.
- `Selection.DeterministicSelect.FindMedian` takes a non-null array. `findMedian(null)` reads `arr.length` before `select` checks for null (DeterministicSelect.java:223), so it throws a `NullPointerException`; that exception is not modelled.
