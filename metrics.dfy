/**
 * The instrumentation every algorithm reports through: a per-run counter
 * bundle, a recursion-depth tracker, and a history of archived runs.
 *
 * The depth tracker and the history are static (thread-local for the depth)
 * in the original; here each is one explicit context object handed to the
 * code that uses it. Timestamps come in as parameters instead of being read
 * from a clock.
 */
module Metrics {

  /** A point-in-time copy of a metrics record, as archived by `RecordRun`. */
  datatype Snapshot = Snapshot(
    algorithmName: string,
    comparisons: int,
    swaps: int,
    allocations: int,
    startTime: int,
    endTime: int,
    inputSize: int,
    recordedMaxDepth: int)

  function Max(a: int, b: int): int {
    if a < b then b else a
  }

  /** The counters of one algorithm instance for one run. */
  class MetricsCollector {
    var comparisons: int
    var swaps: int
    var allocations: int
    var startTime: int
    var endTime: int
    var inputSize: int
    var algorithmName: string
    var recordedMaxDepth: int

    /** The fields that only `Reset`, the timers and `SetInputSize` change. */
    ghost function Settings(): (string, int, int, int, int)
      reads this
    {
      (algorithmName, startTime, endTime, inputSize, recordedMaxDepth)
    }

    /** The live values, with the depth the caller supplies. */
    function Copy(maxDepth: int): Snapshot
      reads this
    {
      Snapshot(algorithmName, comparisons, swaps, allocations, startTime, endTime, inputSize, maxDepth)
    }

    constructor (name: string)
      ensures algorithmName == name
      ensures comparisons == 0 && swaps == 0 && allocations == 0
      ensures startTime == 0 && endTime == 0 && inputSize == 0 && recordedMaxDepth == 0
    {
      algorithmName := name;
      comparisons, swaps, allocations := 0, 0, 0;
      startTime, endTime, inputSize, recordedMaxDepth := 0, 0, 0, 0;
    }

    /** Zeroes every counter, time, size and recorded depth; keeps the name. */
    method Reset()
      modifies this
      ensures algorithmName == old(algorithmName)
      ensures comparisons == 0 && swaps == 0 && allocations == 0
      ensures startTime == 0 && endTime == 0 && inputSize == 0 && recordedMaxDepth == 0
    {
      comparisons := 0;
      swaps := 0;
      allocations := 0;
      startTime := 0;
      endTime := 0;
      inputSize := 0;
      recordedMaxDepth := 0;
    }

    method IncrementComparisons()
      modifies this
      ensures comparisons == old(comparisons) + 1
      ensures swaps == old(swaps) && allocations == old(allocations) && Settings() == old(Settings())
    {
      comparisons := comparisons + 1;
    }

    method IncrementComparisonsBy(count: int)
      modifies this
      ensures comparisons == old(comparisons) + count
      ensures swaps == old(swaps) && allocations == old(allocations) && Settings() == old(Settings())
    {
      comparisons := comparisons + count;
    }

    method IncrementSwaps()
      modifies this
      ensures swaps == old(swaps) + 1
      ensures comparisons == old(comparisons) && allocations == old(allocations) && Settings() == old(Settings())
    {
      swaps := swaps + 1;
    }

    method IncrementAllocations()
      modifies this
      ensures allocations == old(allocations) + 1
      ensures comparisons == old(comparisons) && swaps == old(swaps) && Settings() == old(Settings())
    {
      allocations := allocations + 1;
    }

    method IncrementAllocationsBy(count: int)
      modifies this
      ensures allocations == old(allocations) + count
      ensures comparisons == old(comparisons) && swaps == old(swaps) && Settings() == old(Settings())
    {
      allocations := allocations + count;
    }

    /** Records the start timestamp `now` (the original reads the nanosecond clock). */
    method StartTimer(now: int)
      modifies this
      ensures startTime == now
      ensures Copy(0) == old(Copy(0)).(startTime := now) && recordedMaxDepth == old(recordedMaxDepth)
    {
      startTime := now;
    }

    /** Records the end timestamp `now`. */
    method StopTimer(now: int)
      modifies this
      ensures endTime == now
      ensures Copy(0) == old(Copy(0)).(endTime := now) && recordedMaxDepth == old(recordedMaxDepth)
    {
      endTime := now;
    }

    method SetInputSize(size: int)
      modifies this
      ensures inputSize == size
      ensures Copy(0) == old(Copy(0)).(inputSize := size) && recordedMaxDepth == old(recordedMaxDepth)
    {
      inputSize := size;
    }

    /** Elapsed time between the two timestamps, in nanoseconds. */
    method GetElapsedTimeNanos() returns (elapsed: int)
      ensures startTime + elapsed == endTime
    {
      elapsed := endTime - startTime;
    }

    /** Archives a copy of the live values, with the tracker's maximum depth. */
    method RecordRun(depth: DepthTracker, history: MetricsHistory)
      modifies history
      ensures history.runs == old(history.runs) + [Copy(depth.maxDepth)]
    {
      history.runs := history.runs + [Copy(depth.maxDepth)];
    }
  }

  /**
   * The recursion-depth tracker of one execution context: the current depth
   * and the largest depth reached since the last reset.
   */
  class DepthTracker {
    var current: int
    var maxDepth: int

    /** The tracker's invariant while enters and exits stay balanced. */
    ghost predicate Valid()
      reads this
    {
      0 <= current <= maxDepth
    }

    constructor ()
      ensures current == 0 && maxDepth == 0 && Valid()
    {
      current, maxDepth := 0, 0;
    }

    method EnterRecursion()
      modifies this
      ensures current == old(current) + 1
      ensures maxDepth == Max(old(maxDepth), current)
      ensures current <= maxDepth
      ensures old(Valid()) ==> Valid()
    {
      current := current + 1;
      if current > maxDepth {
        maxDepth := current;
      }
    }

    method ExitRecursion()
      modifies this
      ensures current == old(current) - 1 && maxDepth == old(maxDepth)
      ensures old(Valid()) && old(current) > 0 ==> Valid()
    {
      current := current - 1;
    }

    method GetMaxDepth() returns (d: int)
      ensures d == maxDepth
    {
      d := maxDepth;
    }

    method ResetDepth()
      modifies this
      ensures current == 0 && maxDepth == 0 && Valid()
    {
      current := 0;
      maxDepth := 0;
    }
  }

  /** The process-wide, append-only list of archived runs. */
  class MetricsHistory {
    var runs: seq<Snapshot>

    constructor ()
      ensures runs == []
    {
      runs := [];
    }

    method ClearAllMetrics()
      modifies this
      ensures runs == []
    {
      runs := [];
    }
  }

  /** Floor of the base-2 logarithm. */
  function Log2(n: nat): nat
    requires n >= 1
  {
    if n == 1 then 0 else 1 + Log2(n / 2)
  }

  function Pow2(k: nat): (p: nat)
    ensures p >= 1
  {
    if k == 0 then 1 else 2 * Pow2(k - 1)
  }

  /** `Log2(n)` is the exponent of the largest power of two not above `n`. */
  lemma {:induction false} Log2Bounds(n: nat)
    requires n >= 1
    ensures Pow2(Log2(n)) <= n < Pow2(Log2(n) + 1)
  {
    if n > 1 {
      Log2Bounds(n / 2);
    }
  }

  lemma {:induction false} Log2Monotone(m: nat, n: nat)
    requires 1 <= m <= n
    ensures Log2(m) <= Log2(n)
  {
    if m > 1 {
      Log2Monotone(m / 2, n / 2);
    }
  }
}
