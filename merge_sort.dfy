/**
 * Top-down merge sort with a cutoff to insertion sort for ranges of at most
 * ten elements, merging through one scratch buffer that lives for the whole
 * run, and a variant that allocates fresh left and right buffers for every
 * merge instead.
 */
module MergeSort {
  import opened Segments
  import opened Metrics
  import opened ArrayUtils

  /** Ranges with `high - low` below this are insertion-sorted. */
  const InsertionSortCutoff := 10

  /** The left-biased merge of two runs: on a tie the left run's head goes first. */
  ghost function Merged(l: seq<int>, r: seq<int>): (m: seq<int>)
    ensures |m| == |l| + |r|
    decreases |l| + |r|
  {
    if l == [] then r
    else if r == [] then l
    else if l[0] <= r[0] then [l[0]] + Merged(l[1..], r)
    else [r[0]] + Merged(l, r[1..])
  }

  /** Head-to-head comparisons the merge of `l` and `r` performs. */
  ghost function MergeComparisons(l: seq<int>, r: seq<int>): nat
    decreases |l| + |r|
  {
    if l == [] || r == [] then 0
    else if l[0] <= r[0] then 1 + MergeComparisons(l[1..], r)
    else 1 + MergeComparisons(l, r[1..])
  }

  /** Merging keeps every element of both runs. */
  lemma {:induction false} MergedMultiset(l: seq<int>, r: seq<int>)
    ensures multiset(Merged(l, r)) == multiset(l) + multiset(r)
    decreases |l| + |r|
  {
    if l != [] && r != [] {
      if l[0] <= r[0] {
        MergedMultiset(l[1..], r);
        MergedMultisetLeft(l, r);
      } else {
        MergedMultiset(l, r[1..]);
        MergedMultisetRight(l, r);
      }
    }
  }

  lemma MergedMultisetLeft(l: seq<int>, r: seq<int>)
    requires l != [] && r != [] && l[0] <= r[0]
    requires multiset(Merged(l[1..], r)) == multiset(l[1..]) + multiset(r)
    ensures multiset(Merged(l, r)) == multiset(l) + multiset(r)
  {
    ConsMultiset(l);
    ConsMultiset(Merged(l, r));
  }

  lemma MergedMultisetRight(l: seq<int>, r: seq<int>)
    requires l != [] && r != [] && r[0] < l[0]
    requires multiset(Merged(l, r[1..])) == multiset(l) + multiset(r[1..])
    ensures multiset(Merged(l, r)) == multiset(l) + multiset(r)
  {
    ConsMultiset(r);
    ConsMultiset(Merged(l, r));
  }

  /** A non-empty sequence holds its head once more than its tail. */
  lemma ConsMultiset(s: seq<int>)
    requires s != []
    ensures multiset(s) == multiset{s[0]} + multiset(s[1..])
  {
    assert s == [s[0]] + s[1..];
  }

  /** The merge starts with the smaller head, the left one on a tie. */
  lemma MergedHead(l: seq<int>, r: seq<int>)
    requires l != [] || r != []
    ensures Merged(l, r)[0] == (if r == [] || (l != [] && l[0] <= r[0]) then l[0] else r[0])
  {
  }

  /** Merging two sorted runs yields a sorted run. */
  lemma {:induction false} MergedSorted(l: seq<int>, r: seq<int>)
    requires Sorted(l) && Sorted(r)
    ensures Sorted(Merged(l, r))
    decreases |l| + |r|
  {
    if l != [] && r != [] {
      if l[0] <= r[0] {
        SortedTail(l);
        MergedSorted(l[1..], r);
        if Merged(l[1..], r) != [] {
          MergedHead(l[1..], r);
          if l[1..] != [] {
            assert l[0] <= l[1];
          }
        }
        SortedCons(l[0], Merged(l[1..], r));
      } else {
        SortedTail(r);
        MergedSorted(l, r[1..]);
        if Merged(l, r[1..]) != [] {
          MergedHead(l, r[1..]);
          if r[1..] != [] {
            assert r[0] <= r[1];
          }
        }
        SortedCons(r[0], Merged(l, r[1..]));
      }
    }
  }

  lemma SortedCons(x: int, s: seq<int>)
    requires Sorted(s) && (s != [] ==> x <= s[0])
    ensures Sorted([x] + s)
  {
  }

  /**
   * A merge compares at most one pair per element it places, except the last
   * one, and at least once per element of the shorter run.
   */
  lemma {:induction false} MergeComparisonsBounds(l: seq<int>, r: seq<int>)
    ensures l == [] || r == [] ==> MergeComparisons(l, r) == 0
    ensures l != [] && r != [] ==> Min(|l|, |r|) <= MergeComparisons(l, r) <= |l| + |r| - 1
    decreases |l| + |r|
  {
    if l != [] && r != [] {
      if l[0] <= r[0] {
        MergeComparisonsBounds(l[1..], r);
      } else {
        MergeComparisonsBounds(l, r[1..]);
      }
    }
  }

  function Min(a: int, b: int): int {
    if a < b then a else b
  }

  /** `Merged(l[i..i1], r[j..j1])`, unfolded on indices (the form the merge loops walk). */
  ghost function MergeOf(l: seq<int>, i: int, i1: int, r: seq<int>, j: int, j1: int): (m: seq<int>)
    requires 0 <= i <= i1 <= |l| && 0 <= j <= j1 <= |r|
    ensures |m| == (i1 - i) + (j1 - j)
    decreases (i1 - i) + (j1 - j)
  {
    if i == i1 then r[j..j1]
    else if j == j1 then l[i..i1]
    else if l[i] <= r[j] then [l[i]] + MergeOf(l, i + 1, i1, r, j, j1)
    else [r[j]] + MergeOf(l, i, i1, r, j + 1, j1)
  }

  /** `MergeComparisons(l[i..i1], r[j..j1])`, unfolded on indices. */
  ghost function CountOf(l: seq<int>, i: int, i1: int, r: seq<int>, j: int, j1: int): nat
    requires 0 <= i <= i1 <= |l| && 0 <= j <= j1 <= |r|
    decreases (i1 - i) + (j1 - j)
  {
    if i == i1 || j == j1 then 0
    else if l[i] <= r[j] then 1 + CountOf(l, i + 1, i1, r, j, j1)
    else 1 + CountOf(l, i, i1, r, j + 1, j1)
  }

  lemma {:induction false} MergeOfIsMerged(l: seq<int>, i: int, i1: int, r: seq<int>, j: int, j1: int)
    requires 0 <= i <= i1 <= |l| && 0 <= j <= j1 <= |r|
    ensures MergeOf(l, i, i1, r, j, j1) == Merged(l[i..i1], r[j..j1])
    ensures CountOf(l, i, i1, r, j, j1) == MergeComparisons(l[i..i1], r[j..j1])
    decreases (i1 - i) + (j1 - j)
  {
    if i < i1 && j < j1 {
      assert l[i..i1][1..] == l[i + 1..i1];
      assert r[j..j1][1..] == r[j + 1..j1];
      if l[i] <= r[j] {
        MergeOfIsMerged(l, i + 1, i1, r, j, j1);
      } else {
        MergeOfIsMerged(l, i, i1, r, j + 1, j1);
      }
    }
  }

  /**
   * The merge loops shared by both merges: the head-to-head loop and the two
   * drain loops, writing the merge of `left[i0..i1]` and `right[j0..j1]` to
   * `a` from index `k0` on. Only the head-to-head loop counts comparisons.
   */
  method MergeInto(a: array<int>, k0: int, left: array<int>, i0: int, i1: int,
                   right: array<int>, j0: int, j1: int, m: MetricsCollector)
    requires a != left && a != right
    requires 0 <= i0 <= i1 <= left.Length && 0 <= j0 <= j1 <= right.Length
    requires 0 <= k0 && k0 + (i1 - i0) + (j1 - j0) <= a.Length
    modifies a, m
    ensures Overwritten(old(a[..]), a[..], k0, Merged(old(left[i0..i1]), old(right[j0..j1])))
    ensures m.comparisons == old(m.comparisons) + MergeComparisons(old(left[i0..i1]), old(right[j0..j1]))
    ensures m.swaps == old(m.swaps) && m.allocations == old(m.allocations)
    ensures m.Settings() == old(m.Settings())
  {
    ghost var a0 := a[..];
    ghost var kEnd := k0 + (i1 - i0) + (j1 - j0);
    MergeOfIsMerged(left[..], i0, i1, right[..], j0, j1);
    var i, j, k := MergeHeads(a, k0, left, i0, i1, right, j0, j1, m);
    ghost var a1 := a[..];
    var k' := CopyRun(a, k, left, i, i1);
    ghost var a2 := a[..];
    var k'' := CopyRun(a, k', right, j, j1);
    MergeFinish(a0, a1, a2, a[..], k0, k, kEnd, MergeOf(left[..], i0, i1, right[..], j0, j1), left[..], i, i1, right[..], j, j1);
  }

  /**
   * The head-to-head loop: while both runs have elements, compare the heads
   * (counting one comparison) and place the smaller one, the left on a tie.
   */
  method MergeHeads(a: array<int>, k0: int, left: array<int>, i0: int, i1: int,
                    right: array<int>, j0: int, j1: int, m: MetricsCollector)
    returns (i: int, j: int, k: int)
    requires a != left && a != right
    requires 0 <= i0 <= i1 <= left.Length && 0 <= j0 <= j1 <= right.Length
    requires 0 <= k0 && k0 + (i1 - i0) + (j1 - j0) <= a.Length
    modifies a, m
    ensures i == i1 || j == j1
    ensures MergeState(old(a[..]), a[..], k0, k, k0 + (i1 - i0) + (j1 - j0), MergeOf(left[..], i0, i1, right[..], j0, j1),
                       left[..], i, i1, right[..], j, j1)
    ensures m.comparisons == old(m.comparisons) + CountOf(left[..], i0, i1, right[..], j0, j1)
    ensures m.swaps == old(m.swaps) && m.allocations == old(m.allocations)
    ensures m.Settings() == old(m.Settings())
  {
    ghost var a0, l, r := a[..], left[..], right[..];
    ghost var kEnd := k0 + (i1 - i0) + (j1 - j0);
    ghost var merged := MergeOf(l, i0, i1, r, j0, j1);
    ghost var count := CountOf(l, i0, i1, r, j0, j1);
    i, j, k := i0, j0, k0;
    MergeStart(a0, k0, kEnd, l, i0, i1, r, j0, j1);
    while i < i1 && j < j1
      invariant left[..] == l && right[..] == r
      invariant MergeState(a0, a[..], k0, k, kEnd, merged, l, i, i1, r, j, j1)
      invariant m.comparisons + CountOf(l, i, i1, r, j, j1) == old(m.comparisons) + count
      invariant m.swaps == old(m.swaps) && m.allocations == old(m.allocations)
      invariant m.Settings() == old(m.Settings())
    {
      if left[i] <= right[j] {
        MergeStepLeft(a0, a[..], k0, k, kEnd, merged, l, i, i1, r, j, j1);
      } else {
        MergeStepRight(a0, a[..], k0, k, kEnd, merged, l, i, i1, r, j, j1);
      }
      i, j := PlaceSmaller(a, k, left, i, right, j, m);
      k := k + 1;
    }
  }

  /**
   * One step of the head-to-head loop: one comparison, then the smaller head
   * (the left one on a tie) is written at `k` and its run advances.
   */
  method PlaceSmaller(a: array<int>, k: int, left: array<int>, i: int, right: array<int>, j: int,
                      m: MetricsCollector) returns (i': int, j': int)
    requires a != left && a != right
    requires 0 <= k < a.Length && 0 <= i < left.Length && 0 <= j < right.Length
    modifies a, m
    ensures left[i] <= right[j] ==> a[..] == old(a[..])[k := left[i]] && i' == i + 1 && j' == j
    ensures right[j] < left[i] ==> a[..] == old(a[..])[k := right[j]] && i' == i && j' == j + 1
    ensures m.comparisons == old(m.comparisons) + 1
    ensures m.swaps == old(m.swaps) && m.allocations == old(m.allocations)
    ensures m.Settings() == old(m.Settings())
  {
    m.IncrementComparisons();
    if left[i] <= right[j] {
      a[k] := left[i];
      i', j' := i + 1, j;
    } else {
      a[k] := right[j];
      i', j' := i, j + 1;
    }
  }

  /** A drain loop: copies `src[i0..i1]` to `a` from index `k0` on. */
  method CopyRun(a: array<int>, k0: int, src: array<int>, i0: int, i1: int) returns (k: int)
    requires a != src && 0 <= i0 <= i1 <= src.Length
    requires 0 <= k0 && k0 + (i1 - i0) <= a.Length
    modifies a
    ensures k == k0 + (i1 - i0)
    ensures Overwritten(old(a[..]), a[..], k0, src[i0..i1])
  {
    ghost var a0 := a[..];
    var i := i0;
    k := k0;
    while i < i1
      invariant i0 <= i <= i1 && k == k0 + (i - i0)
      invariant a[..] == a0[..k0] + src[i0..i] + a0[k..]
    {
      ghost var b := a[..];
      a[k] := src[i];
      assert src[i0..i + 1] == src[i0..i] + [src[i]];
      assert a[..] == a0[..k0] + src[i0..i + 1] + a0[k + 1..] by {
        assert a[..] == b[k := src[i]];
      }
      i := i + 1;
      k := k + 1;
    }
    OverwrittenClose(a0, a[..], k0, src[i0..i1]);
  }

  /**
   * `s` is `s0` with `m` written over it from index `k0` on and the rest as it
   * was. The equation sits behind `|s0| + 2` empty unfoldings so that method
   * contexts carry it as one fact; `OverwrittenOpen` and `OverwrittenClose`
   * convert.
   */
  ghost predicate Overwritten(s0: seq<int>, s: seq<int>, k0: int, m: seq<int>)
  {
    0 <= k0 && k0 + |m| <= |s0| == |s| && OverwrittenAfter(s0, s, k0, m, |s0| + 2)
  }

  ghost predicate OverwrittenAfter(s0: seq<int>, s: seq<int>, k0: int, m: seq<int>, steps: nat)
    decreases steps
  {
    if steps == 0 then 0 <= k0 && k0 + |m| <= |s0| && s == s0[..k0] + m + s0[k0 + |m|..]
    else OverwrittenAfter(s0, s, k0, m, steps - 1)
  }

  lemma {:induction false} OverwrittenAfterIs(s0: seq<int>, s: seq<int>, k0: int, m: seq<int>, steps: nat)
    ensures OverwrittenAfter(s0, s, k0, m, steps)
         == (0 <= k0 && k0 + |m| <= |s0| && s == s0[..k0] + m + s0[k0 + |m|..])
    decreases steps
  {
    if steps > 0 {
      OverwrittenAfterIs(s0, s, k0, m, steps - 1);
    }
  }

  lemma OverwrittenOpen(s0: seq<int>, s: seq<int>, k0: int, m: seq<int>)
    requires Overwritten(s0, s, k0, m)
    ensures s == s0[..k0] + m + s0[k0 + |m|..]
  {
    OverwrittenAfterIs(s0, s, k0, m, |s0| + 2);
  }

  lemma OverwrittenClose(s0: seq<int>, s: seq<int>, k0: int, m: seq<int>)
    requires 0 <= k0 && k0 + |m| <= |s0| && s == s0[..k0] + m + s0[k0 + |m|..]
    ensures Overwritten(s0, s, k0, m)
  {
    OverwrittenAfterIs(s0, s, k0, m, |s0| + 2);
  }

  /**
   * Merge loop state: `s` is `s0` with its first `k - k0` positions from `k0`
   * on overwritten by the prefix of the merge written so far, and the merge of
   * what is left of the two runs, `l[i..i1]` and `r[j..j1]`, is the rest of it.
   */
  ghost predicate MergeState(s0: seq<int>, s: seq<int>, k0: int, k: int, kEnd: int, merged: seq<int>,
                             l: seq<int>, i: int, i1: int, r: seq<int>, j: int, j1: int)
  {
    && 0 <= k0 <= k <= kEnd <= |s0| == |s|
    && 0 <= i <= i1 <= |l| && 0 <= j <= j1 <= |r|
    && kEnd - k == (i1 - i) + (j1 - j)
    && |merged| == kEnd - k0
    && MergeStateAfter(s0, s, k0, k, merged, l, i, i1, r, j, j1, |s| + 2)
  }

  /**
   * The contents half of `MergeState` behind `steps` empty unfoldings, so
   * that the merge loop carries it as one fact; the step lemmas open it
   * through `MergeStateAfterIs`.
   */
  ghost predicate MergeStateAfter(s0: seq<int>, s: seq<int>, k0: int, k: int, merged: seq<int>,
                                  l: seq<int>, i: int, i1: int, r: seq<int>, j: int, j1: int, steps: nat)
    decreases steps
  {
    if steps == 0 then MergeContents(s0, s, k0, k, merged, l, i, i1, r, j, j1)
    else MergeStateAfter(s0, s, k0, k, merged, l, i, i1, r, j, j1, steps - 1)
  }

  /** `s` holds the first `k - k0` merged elements from `k0` on, and the rest of the merge is still to come. */
  ghost predicate MergeContents(s0: seq<int>, s: seq<int>, k0: int, k: int, merged: seq<int>,
                                l: seq<int>, i: int, i1: int, r: seq<int>, j: int, j1: int)
  {
    && 0 <= k0 <= k <= |s0| && k - k0 <= |merged|
    && 0 <= i <= i1 <= |l| && 0 <= j <= j1 <= |r|
    && s == s0[..k0] + merged[..k - k0] + s0[k..]
    && MergeOf(l, i, i1, r, j, j1) == merged[k - k0..]
  }

  lemma {:induction false} MergeStateAfterIs(s0: seq<int>, s: seq<int>, k0: int, k: int, merged: seq<int>,
                                             l: seq<int>, i: int, i1: int, r: seq<int>, j: int, j1: int, steps: nat)
    ensures MergeStateAfter(s0, s, k0, k, merged, l, i, i1, r, j, j1, steps)
         == MergeContents(s0, s, k0, k, merged, l, i, i1, r, j, j1)
    decreases steps
  {
    if steps > 0 {
      MergeStateAfterIs(s0, s, k0, k, merged, l, i, i1, r, j, j1, steps - 1);
    }
  }

  lemma MergeStart(s0: seq<int>, k0: int, kEnd: int, l: seq<int>, i0: int, i1: int, r: seq<int>, j0: int, j1: int)
    requires 0 <= k0 && kEnd == k0 + (i1 - i0) + (j1 - j0) <= |s0|
    requires 0 <= i0 <= i1 <= |l| && 0 <= j0 <= j1 <= |r|
    ensures MergeState(s0, s0, k0, k0, kEnd, MergeOf(l, i0, i1, r, j0, j1), l, i0, i1, r, j0, j1)
  {
    assert s0 == s0[..k0] + s0[k0..];
    MergeStateAfterIs(s0, s0, k0, k0, MergeOf(l, i0, i1, r, j0, j1), l, i0, i1, r, j0, j1, |s0| + 2);
  }

  /** Placing the left head, when it is no larger than the right one, advances the state. */
  lemma MergeStepLeft(s0: seq<int>, s: seq<int>, k0: int, k: int, kEnd: int, merged: seq<int>,
                      l: seq<int>, i: int, i1: int, r: seq<int>, j: int, j1: int)
    requires MergeState(s0, s, k0, k, kEnd, merged, l, i, i1, r, j, j1)
    requires i < i1 && (j == j1 || l[i] <= r[j])
    ensures MergeState(s0, s[k := l[i]], k0, k + 1, kEnd, merged, l, i + 1, i1, r, j, j1)
    ensures j < j1 ==> CountOf(l, i, i1, r, j, j1) == 1 + CountOf(l, i + 1, i1, r, j, j1)
  {
    MergeStateAfterIs(s0, s, k0, k, merged, l, i, i1, r, j, j1, |s| + 2);
    ContentsLeft(s0, s, k0, k, merged, l, i, i1, r, j, j1);
    MergeStateAfterIs(s0, s[k := l[i]], k0, k + 1, merged, l, i + 1, i1, r, j, j1, |s| + 2);
  }

  lemma ContentsLeft(s0: seq<int>, s: seq<int>, k0: int, k: int, merged: seq<int>,
                     l: seq<int>, i: int, i1: int, r: seq<int>, j: int, j1: int)
    requires MergeContents(s0, s, k0, k, merged, l, i, i1, r, j, j1) && k < |s0|
    requires i < i1 && (j == j1 || l[i] <= r[j])
    ensures MergeContents(s0, s[k := l[i]], k0, k + 1, merged, l, i + 1, i1, r, j, j1)
  {
    assert MergeOf(l, i, i1, r, j, j1) == [l[i]] + MergeOf(l, i + 1, i1, r, j, j1);
    WriteAt(s0, k0, k, merged, l[i]);
  }

  /** Placing the right head, when it is smaller than the left one, advances the state. */
  lemma MergeStepRight(s0: seq<int>, s: seq<int>, k0: int, k: int, kEnd: int, merged: seq<int>,
                       l: seq<int>, i: int, i1: int, r: seq<int>, j: int, j1: int)
    requires MergeState(s0, s, k0, k, kEnd, merged, l, i, i1, r, j, j1)
    requires j < j1 && (i == i1 || r[j] < l[i])
    ensures MergeState(s0, s[k := r[j]], k0, k + 1, kEnd, merged, l, i, i1, r, j + 1, j1)
    ensures i < i1 ==> CountOf(l, i, i1, r, j, j1) == 1 + CountOf(l, i, i1, r, j + 1, j1)
  {
    MergeStateAfterIs(s0, s, k0, k, merged, l, i, i1, r, j, j1, |s| + 2);
    ContentsRight(s0, s, k0, k, merged, l, i, i1, r, j, j1);
    MergeStateAfterIs(s0, s[k := r[j]], k0, k + 1, merged, l, i, i1, r, j + 1, j1, |s| + 2);
  }

  lemma ContentsRight(s0: seq<int>, s: seq<int>, k0: int, k: int, merged: seq<int>,
                      l: seq<int>, i: int, i1: int, r: seq<int>, j: int, j1: int)
    requires MergeContents(s0, s, k0, k, merged, l, i, i1, r, j, j1) && k < |s0|
    requires j < j1 && (i == i1 || r[j] < l[i])
    ensures MergeContents(s0, s[k := r[j]], k0, k + 1, merged, l, i, i1, r, j + 1, j1)
  {
    assert MergeOf(l, i, i1, r, j, j1) == [r[j]] + MergeOf(l, i, i1, r, j + 1, j1);
    WriteAt(s0, k0, k, merged, r[j]);
  }

  /** Writing the next merged element at `k` extends the written prefix by one. */
  lemma WriteAt(s0: seq<int>, k0: int, k: int, merged: seq<int>, x: int)
    requires 0 <= k0 <= k < |s0| && k - k0 < |merged| && merged[k - k0] == x
    ensures (s0[..k0] + merged[..k - k0] + s0[k..])[k := x] == s0[..k0] + merged[..k + 1 - k0] + s0[k + 1..]
  {
    WriteNext(s0[..k0] + merged[..k - k0], s0[k..], x);
    assert merged[..k + 1 - k0] == merged[..k - k0] + [x];
    assert s0[k..][1..] == s0[k + 1..];
  }

  /** Overwriting the first element after a prefix. */
  lemma WriteNext(p: seq<int>, q: seq<int>, x: int)
    requires q != []
    ensures (p + q)[|p| := x] == p + [x] + q[1..]
  {
  }

  /** After the head loop one run is exhausted; draining both leaves the full merge in place. */
  lemma MergeFinish(s0: seq<int>, s1: seq<int>, s2: seq<int>, s3: seq<int>, k0: int, k: int, kEnd: int,
                    merged: seq<int>, l: seq<int>, i: int, i1: int, r: seq<int>, j: int, j1: int)
    requires MergeState(s0, s1, k0, k, kEnd, merged, l, i, i1, r, j, j1) && (i == i1 || j == j1)
    requires Overwritten(s1, s2, k, l[i..i1])
    requires Overwritten(s2, s3, k + (i1 - i), r[j..j1])
    ensures Overwritten(s0, s3, k0, merged)
  {
    OverwrittenOpen(s1, s2, k, l[i..i1]);
    OverwrittenOpen(s2, s3, k + (i1 - i), r[j..j1]);
    MergeDrained(s0, s1, s2, s3, k0, k, kEnd, merged, l, i, i1, r, j, j1);
    OverwrittenClose(s0, s3, k0, merged);
  }

  lemma MergeDrained(s0: seq<int>, s1: seq<int>, s2: seq<int>, s3: seq<int>, k0: int, k: int, kEnd: int,
                     merged: seq<int>, l: seq<int>, i: int, i1: int, r: seq<int>, j: int, j1: int)
    requires MergeState(s0, s1, k0, k, kEnd, merged, l, i, i1, r, j, j1) && (i == i1 || j == j1)
    requires s2 == s1[..k] + l[i..i1] + s1[k + (i1 - i)..]
    requires s3 == s2[..k + (i1 - i)] + r[j..j1] + s2[kEnd..]
    ensures s3 == s0[..k0] + merged + s0[kEnd..]
  {
    MergeStateAfterIs(s0, s1, k0, k, merged, l, i, i1, r, j, j1, |s1| + 2);
    if i == i1 {
      assert s2 == s1;
      assert MergeOf(l, i, i1, r, j, j1) == r[j..j1];
      DrainDone(s0, s1, s3, k0, k, kEnd, merged, r[j..j1]);
    } else {
      assert s3 == s2;
      assert MergeOf(l, i, i1, r, j, j1) == l[i..i1];
      DrainDone(s0, s1, s2, k0, k, kEnd, merged, l[i..i1]);
    }
  }

  /** Copying the rest of the merge into the unwritten gap completes it. */
  lemma DrainDone(s0: seq<int>, s1: seq<int>, s2: seq<int>, k0: int, k: int, kEnd: int,
                  merged: seq<int>, rest: seq<int>)
    requires 0 <= k0 <= k <= kEnd <= |s0| && |merged| == kEnd - k0
    requires s1 == s0[..k0] + merged[..k - k0] + s0[k..]
    requires merged[k - k0..] == rest
    requires s2 == s1[..k] + rest + s1[kEnd..]
    ensures s2 == s0[..k0] + merged + s0[kEnd..]
  {
    assert s1[..k] == s0[..k0] + merged[..k - k0];
    assert s1[kEnd..] == s0[kEnd..];
    assert merged == merged[..k - k0] + rest;
  }

  /** The split point both sorts use for `[low, high]`. */
  function Mid(low: int, high: int): int {
    low + (high - low) / 2
  }

  /**
   * A range that fits in `2^b` elements splits into halves that fit in
   * `2^(b-1)`: the recursion budget one level down.
   */
  lemma HalvesFit(low: int, high: int, b: nat)
    requires low < high && high - low + 1 <= Pow2(b)
    ensures b >= 1
    ensures Mid(low, high) - low + 1 <= Pow2(b - 1) && high - Mid(low, high) <= Pow2(b - 1)
  {
  }

  /** `n` elements fit in `2^(Log2(n) + 1)`. */
  lemma FitsLog2(n: int)
    requires n >= 1
    ensures n <= Pow2(Log2(n) + 1)
  {
    Log2Bounds(n);
  }

  /** `t` is `s` with its sorted halves `s[low..mid]` and `s[mid+1..high]` merged in place. */
  ghost predicate MergedHalves(s: seq<int>, t: seq<int>, low: int, mid: int, high: int)
  {
    0 <= low <= mid <= high < |s| && Overwritten(s, t, low, Merged(s[low..mid + 1], s[mid + 1..high + 1]))
  }

  /** Comparisons of the merge of `s[low..mid]` and `s[mid+1..high]`. */
  ghost function HalvesComparisons(s: seq<int>, low: int, mid: int, high: int): nat
    requires 0 <= low <= mid <= high < |s|
  {
    MergeComparisons(s[low..mid + 1], s[mid + 1..high + 1])
  }

  /** Merging the two sorted halves of a range leaves it sorted and permuted. */
  lemma MergeResult(s: seq<int>, t: seq<int>, low: int, mid: int, high: int)
    requires MergedHalves(s, t, low, mid, high)
    requires SortedRange(s, low, mid + 1) && SortedRange(s, mid + 1, high + 1)
    ensures Perm(s, t, low, high + 1) && SortedRange(t, low, high + 1)
  {
    var l, r := s[low..mid + 1], s[mid + 1..high + 1];
    OverwrittenOpen(s, t, low, Merged(l, r));
    MiddleReplaced(s, t, low, high + 1, Merged(l, r));
    MergeResultPerm(s, t, low, mid, high);
    SortedSlice(s, low, mid + 1);
    SortedSlice(s, mid + 1, high + 1);
    MergedSorted(l, r);
    SortedSlice(t, low, high + 1);
  }

  /** Merging the two halves of a range permutes it. */
  lemma MergeResultPerm(s: seq<int>, t: seq<int>, low: int, mid: int, high: int)
    requires MergedHalves(s, t, low, mid, high)
    ensures Perm(s, t, low, high + 1)
  {
    var l, r := s[low..mid + 1], s[mid + 1..high + 1];
    OverwrittenOpen(s, t, low, Merged(l, r));
    MiddleReplaced(s, t, low, high + 1, Merged(l, r));
    MergedRangePerm(s, t, low, mid, high);
  }

  /** A range holding the merge of its own two halves is a permutation of them. */
  lemma MergedRangePerm(s: seq<int>, t: seq<int>, low: int, mid: int, high: int)
    requires 0 <= low <= mid <= high < |s| == |t|
    requires s[..low] == t[..low] && s[high + 1..] == t[high + 1..]
    requires t[low..high + 1] == Merged(s[low..mid + 1], s[mid + 1..high + 1])
    ensures Perm(s, t, low, high + 1)
  {
    HalvesMergedMultiset(s, low, mid, high);
  }

  /** The merge of a range's two halves holds the range's elements. */
  lemma HalvesMergedMultiset(s: seq<int>, low: int, mid: int, high: int)
    requires 0 <= low <= mid <= high < |s|
    ensures multiset(Merged(s[low..mid + 1], s[mid + 1..high + 1])) == multiset(s[low..high + 1])
  {
    MergedMultiset(s[low..mid + 1], s[mid + 1..high + 1]);
    SplitMultiset(s, low, mid + 1, high + 1);
  }

  lemma SplitMultiset(s: seq<int>, a: int, b: int, c: int)
    requires 0 <= a <= b <= c <= |s|
    ensures multiset(s[a..c]) == multiset(s[a..b]) + multiset(s[b..c])
  {
    SliceSplit(s, a, b, c);
  }

  lemma SliceSplit(s: seq<int>, a: int, b: int, c: int)
    requires 0 <= a <= b <= c <= |s|
    ensures s[a..c] == s[a..b] + s[b..c]
  {
  }

  /** `t` is `s` with `s[lo..hi]` replaced by `m`. */
  lemma MiddleReplaced(s: seq<int>, t: seq<int>, lo: int, hi: int, m: seq<int>)
    requires 0 <= lo <= hi <= |s| && |m| == hi - lo
    requires t == s[..lo] + m + s[hi..]
    ensures |t| == |s| && s[..lo] == t[..lo] && t[lo..hi] == m && s[hi..] == t[hi..]
  {
  }

  /** Sorting both halves, then merging, sorts the whole range. */
  lemma MergeSortStep(a0: seq<int>, a1: seq<int>, a2: seq<int>, a3: seq<int>, low: int, mid: int, high: int)
    requires 0 <= low <= mid < high < |a0|
    requires SortedPerm(a0, a1, low, mid + 1) && SortedPerm(a1, a2, mid + 1, high + 1)
    requires MergedHalves(a2, a3, low, mid, high)
    ensures SortedPerm(a0, a3, low, high + 1)
  {
    SortedPermOpen(a0, a1, low, mid + 1);
    SortedPermOpen(a1, a2, mid + 1, high + 1);
    MergeSortStepOpen(a0, a1, a2, a3, low, mid, high);
    SortedPermClose(a0, a3, low, high + 1);
  }

  lemma MergeSortStepOpen(a0: seq<int>, a1: seq<int>, a2: seq<int>, a3: seq<int>, low: int, mid: int, high: int)
    requires 0 <= low <= mid < high < |a0|
    requires Perm(a0, a1, low, mid + 1) && SortedRange(a1, low, mid + 1)
    requires Perm(a1, a2, mid + 1, high + 1) && SortedRange(a2, mid + 1, high + 1)
    requires MergedHalves(a2, a3, low, mid, high)
    ensures Perm(a0, a3, low, high + 1) && SortedRange(a3, low, high + 1)
  {
    PermKeepsSorted(a1, a2, mid + 1, high + 1, low, mid + 1);
    MergeResult(a2, a3, low, mid, high);
    HalvesPerm(a0, a1, a2, low, mid, high);
    PermTrans(a0, a2, a3, low, high + 1);
  }

  /** Rearranging each half in turn rearranges the whole range. */
  lemma HalvesPerm(a0: seq<int>, a1: seq<int>, a2: seq<int>, low: int, mid: int, high: int)
    requires 0 <= low <= mid < high < |a0|
    requires Perm(a0, a1, low, mid + 1) && Perm(a1, a2, mid + 1, high + 1)
    ensures Perm(a0, a2, low, high + 1)
  {
    PermWiden(a0, a1, low, high + 1, low, mid + 1);
    PermWiden(a1, a2, low, high + 1, mid + 1, high + 1);
    PermTrans(a0, a1, a2, low, high + 1);
  }

  /** The buffer holding a copy of `s[low..high]` at the same positions holds both halves there. */
  lemma CopiedHalves(s: seq<int>, b0: seq<int>, b: seq<int>, low: int, mid: int, high: int)
    requires 0 <= low <= mid <= high < |s|
    requires Overwritten(b0, b, low, s[low..high + 1])
    ensures b[low..mid + 1] == s[low..mid + 1] && b[mid + 1..high + 1] == s[mid + 1..high + 1]
  {
    var x := s[low..high + 1];
    OverwrittenOpen(b0, b, low, x);
    var p, q := b0[..low], b0[low + |x|..];
    InMiddle(p, x, q, 0, mid + 1 - low);
    InMiddle(p, x, q, mid + 1 - low, high + 1 - low);
    assert x[0..mid + 1 - low] == s[low..mid + 1];
    assert x[mid + 1 - low..high + 1 - low] == s[mid + 1..high + 1];
  }

  /** A fresh buffer that received a copy of `s[lo..hi]` holds exactly that copy. */
  lemma CopiedWhole(b0: seq<int>, b: seq<int>, s: seq<int>, lo: int, hi: int)
    requires 0 <= lo <= hi <= |s| && |b| == hi - lo
    requires Overwritten(b0, b, 0, s[lo..hi])
    ensures b[0..hi - lo] == s[lo..hi]
  {
    OverwrittenOpen(b0, b, 0, s[lo..hi]);
  }

  /** Merging the buffered halves back over `s` is merging the halves of `s`. */
  lemma MergedBack(s: seq<int>, l: seq<int>, r: seq<int>, t: seq<int>, low: int, mid: int, high: int)
    requires 0 <= low <= mid <= high < |s|
    requires l == s[low..mid + 1] && r == s[mid + 1..high + 1]
    requires Overwritten(s, t, low, Merged(l, r))
    ensures MergedHalves(s, t, low, mid, high)
  {
  }

  /** A slice of the middle part of `p + x + q`. */
  lemma InMiddle(p: seq<int>, x: seq<int>, q: seq<int>, a: int, b: int)
    requires 0 <= a <= b <= |x|
    ensures (p + x + q)[|p| + a..|p| + b] == x[a..b]
  {
    assert (p + x + q)[|p|..|p| + |x|] == x;
  }

  /**
   * The body of the buffered merge: copies `arr[low..high]` into `buf` at
   * the same positions, then merges the two halves back from there.
   */
  method MergeThrough(arr: array<int>, buf: array<int>, low: int, mid: int, high: int, m: MetricsCollector)
    requires buf != arr
    requires 0 <= low <= mid <= high < arr.Length && high < buf.Length
    modifies arr, buf, m
    ensures MergedHalves(old(arr[..]), arr[..], low, mid, high)
    ensures m.comparisons == old(m.comparisons) + HalvesComparisons(old(arr[..]), low, mid, high)
    ensures m.swaps == old(m.swaps) && m.allocations == old(m.allocations)
    ensures m.Settings() == old(m.Settings())
    ensures Overwritten(old(buf[..]), buf[..], low, old(arr[low..high + 1]))
  {
    ghost var s0, b0 := arr[..], buf[..];
    var k := CopyRun(buf, low, arr, low, high + 1);
    ghost var l, r := buf[low..mid + 1], buf[mid + 1..high + 1];
    CopiedHalves(s0, b0, buf[..], low, mid, high);
    MergeInto(arr, low, buf, low, mid + 1, buf, mid + 1, high + 1, m);
    MergedBack(s0, l, r, arr[..], low, mid, high);
  }

  /**
   * The sorter: its metrics record and the scratch buffer that one run of
   * `Sort` allocates, shares across the whole recursion and then drops.
   */
  class MergeSort {
    var aux: array?<int>
    const metrics: MetricsCollector

    constructor ()
      ensures fresh(metrics) && aux == null
      ensures metrics.algorithmName == "MergeSort"
      ensures metrics.comparisons == 0 && metrics.swaps == 0 && metrics.allocations == 0
    {
      metrics := new MetricsCollector("MergeSort");
      aux := null;
    }

    /**
     * Sorts `arr` with the shared buffer. Arrays that are null or have at
     * most one element are left alone, metrics included; otherwise the metrics
     * are reset and then record the run, and the buffer is dropped at the end.
     */
    method Sort(arr: array?<int>, d: DepthTracker, startNanos: int, stopNanos: int)
      modifies this, metrics, arr, d
      ensures arr == null || arr.Length <= 1 ==> unchanged(this, metrics, d) && (arr != null ==> unchanged(arr))
      ensures arr != null && arr.Length > 1 ==>
        && Sorted(arr[..]) && multiset(arr[..]) == multiset(old(arr[..]))
        && aux == null
        && metrics.allocations == arr.Length && metrics.swaps == 0 && metrics.comparisons >= 0
        && metrics.inputSize == arr.Length && metrics.recordedMaxDepth == 0
        && metrics.startTime == startNanos && metrics.endTime == stopNanos
        && metrics.algorithmName == old(metrics.algorithmName)
        && d.current == old(d.current)
        && old(d.current) + 1 <= d.maxDepth
        && old(d.maxDepth) <= d.maxDepth <= Max(old(d.maxDepth), old(d.current) + Log2(arr.Length) + 2)
    {
      if arr == null || arr.Length <= 1 {
        return;
      }
      metrics.Reset();
      metrics.SetInputSize(arr.Length);
      metrics.StartTimer(startNanos);
      aux := new int[arr.Length];
      metrics.IncrementAllocationsBy(arr.Length);
      ghost var a0 := arr[..];
      FitsLog2(arr.Length);
      MergeSortHelper(arr, 0, arr.Length - 1, d, Log2(arr.Length) + 1);
      SortedPermOpen(a0, arr[..], 0, arr.Length);
      WholeArray(a0, arr[..]);
      metrics.StopTimer(stopNanos);
      aux := null;
    }

    /**
     * Sorts `arr[low..high]`: insertion sort below the cutoff, otherwise both
     * halves recursively and then a merge. Enters the depth tracker on the
     * way in and leaves it on every way out. The ghost `b` is a recursion
     * budget: a range of at most `2^b` elements goes at most `b + 1` levels deep.
     */
    method MergeSortHelper(arr: array<int>, low: int, high: int, d: DepthTracker, ghost b: nat)
      requires aux != null && aux != arr
      requires 0 <= low <= high < arr.Length <= aux.Length && high - low + 1 <= Pow2(b)
      modifies arr, aux, metrics, d
      ensures SortedPerm(old(arr[..]), arr[..], low, high + 1)
      ensures metrics.comparisons >= old(metrics.comparisons)
      ensures metrics.swaps == old(metrics.swaps) && metrics.allocations == old(metrics.allocations)
      ensures metrics.Settings() == old(metrics.Settings())
      ensures d.current == old(d.current) && old(d.current) + 1 <= d.maxDepth
      ensures old(d.maxDepth) <= d.maxDepth <= Max(old(d.maxDepth), old(d.current) + b + 1)
      decreases high - low, 1
    {
      d.EnterRecursion();
      if high - low < InsertionSortCutoff {
        ghost var a0 := arr[..];
        SortSmall(arr, low, high, metrics);
        SortedPermClose(a0, arr[..], low, high + 1);
      } else {
        SortHalves(arr, low, high, d, b);
      }
      d.ExitRecursion();
    }

    /** The recursive case of the buffered sort: both halves one level deeper, then `Merge`. */
    method SortHalves(arr: array<int>, low: int, high: int, d: DepthTracker, ghost b: nat)
      requires aux != null && aux != arr
      requires 0 <= low < high < arr.Length <= aux.Length && high - low + 1 <= Pow2(b)
      modifies arr, aux, metrics, d
      ensures SortedPerm(old(arr[..]), arr[..], low, high + 1)
      ensures metrics.comparisons >= old(metrics.comparisons)
      ensures metrics.swaps == old(metrics.swaps) && metrics.allocations == old(metrics.allocations)
      ensures metrics.Settings() == old(metrics.Settings())
      ensures d.current == old(d.current)
      ensures old(d.maxDepth) <= d.maxDepth <= Max(old(d.maxDepth), old(d.current) + b)
      decreases high - low, 0
    {
      ghost var a0 := arr[..];
      var mid := Mid(low, high);
      HalvesFit(low, high, b);
      MergeSortHelper(arr, low, mid, d, b - 1);
      ghost var a1 := arr[..];
      MergeSortHelper(arr, mid + 1, high, d, b - 1);
      ghost var a2 := arr[..];
      Merge(arr, low, mid, high);
      MergeSortStep(a0, a1, a2, arr[..], low, mid, high);
    }

    /**
     * Merges the sorted runs `arr[low..mid]` and `arr[mid+1..high]`: copies
     * the range into the shared buffer, then merges back from it.
     */
    method Merge(arr: array<int>, low: int, mid: int, high: int)
      requires aux != null && aux != arr
      requires 0 <= low <= mid <= high < arr.Length && high < aux.Length
      modifies arr, aux, metrics
      ensures MergedHalves(old(arr[..]), arr[..], low, mid, high)
      ensures metrics.comparisons == old(metrics.comparisons) + HalvesComparisons(old(arr[..]), low, mid, high)
      ensures metrics.swaps == old(metrics.swaps) && metrics.allocations == old(metrics.allocations)
      ensures metrics.Settings() == old(metrics.Settings())
      ensures Overwritten(old(aux[..]), aux[..], low, old(arr[low..high + 1]))
    {
      MergeThrough(arr, aux, low, mid, high, metrics);
    }

    /** Sorts `arr` allocating fresh buffers for every merge; same null and short-array guard. */
    method SortWithoutBufferReuse(arr: array?<int>, d: DepthTracker, startNanos: int, stopNanos: int)
      modifies metrics, arr, d
      ensures arr == null || arr.Length <= 1 ==> unchanged(metrics, d) && (arr != null ==> unchanged(arr))
      ensures arr != null && arr.Length > 1 ==>
        && Sorted(arr[..]) && multiset(arr[..]) == multiset(old(arr[..]))
        && arr.Length <= metrics.allocations
        && metrics.swaps == 0 && metrics.comparisons >= 0
        && metrics.inputSize == arr.Length && metrics.recordedMaxDepth == 0
        && metrics.startTime == startNanos && metrics.endTime == stopNanos
        && metrics.algorithmName == old(metrics.algorithmName)
        && d.current == old(d.current)
        && old(d.current) + 1 <= d.maxDepth
        && old(d.maxDepth) <= d.maxDepth <= Max(old(d.maxDepth), old(d.current) + Log2(arr.Length) + 2)
    {
      if arr == null || arr.Length <= 1 {
        return;
      }
      metrics.Reset();
      metrics.SetInputSize(arr.Length);
      metrics.StartTimer(startNanos);
      ghost var a0 := arr[..];
      FitsLog2(arr.Length);
      MergeSortNoReuse(arr, 0, arr.Length - 1, d, Log2(arr.Length) + 1);
      SortedPermOpen(a0, arr[..], 0, arr.Length);
      WholeArray(a0, arr[..]);
      metrics.StopTimer(stopNanos);
    }

    /**
     * Plain top-down merge sort of `arr[low..high]`, no cutoff, with the same
     * depth tracking and recursion budget `b` as the buffered sort. Every merge
     * allocates its whole range, so a range of two or more elements allocates
     * at least its own size.
     */
    method MergeSortNoReuse(arr: array<int>, low: int, high: int, d: DepthTracker, ghost b: nat)
      requires 0 <= low <= high < arr.Length && high - low + 1 <= Pow2(b)
      modifies arr, metrics, d
      ensures SortedPerm(old(arr[..]), arr[..], low, high + 1)
      ensures low < high ==> old(metrics.allocations) + (high - low + 1) <= metrics.allocations
      ensures old(metrics.allocations) <= metrics.allocations
      ensures metrics.comparisons >= old(metrics.comparisons) && metrics.swaps == old(metrics.swaps)
      ensures metrics.Settings() == old(metrics.Settings())
      ensures d.current == old(d.current) && old(d.current) + 1 <= d.maxDepth
      ensures old(d.maxDepth) <= d.maxDepth <= Max(old(d.maxDepth), old(d.current) + b + 1)
      decreases high - low, 1
    {
      d.EnterRecursion();
      if low < high {
        SortHalvesNoReuse(arr, low, high, d, b);
      } else {
        PermRefl(arr[..], low, high + 1);
        SortedPermClose(arr[..], arr[..], low, high + 1);
      }
      d.ExitRecursion();
    }

    /** The recursive case of the no-reuse sort: both halves one level deeper, then `MergeWithNewBuffer`. */
    method SortHalvesNoReuse(arr: array<int>, low: int, high: int, d: DepthTracker, ghost b: nat)
      requires 0 <= low < high < arr.Length && high - low + 1 <= Pow2(b)
      modifies arr, metrics, d
      ensures SortedPerm(old(arr[..]), arr[..], low, high + 1)
      ensures old(metrics.allocations) + (high - low + 1) <= metrics.allocations
      ensures metrics.comparisons >= old(metrics.comparisons) && metrics.swaps == old(metrics.swaps)
      ensures metrics.Settings() == old(metrics.Settings())
      ensures d.current == old(d.current)
      ensures old(d.maxDepth) <= d.maxDepth <= Max(old(d.maxDepth), old(d.current) + b)
      decreases high - low, 0
    {
      ghost var a0 := arr[..];
      var mid := Mid(low, high);
      HalvesFit(low, high, b);
      MergeSortNoReuse(arr, low, mid, d, b - 1);
      ghost var a1 := arr[..];
      MergeSortNoReuse(arr, mid + 1, high, d, b - 1);
      ghost var a2 := arr[..];
      MergeWithNewBuffer(arr, low, mid, high);
      MergeSortStep(a0, a1, a2, arr[..], low, mid, high);
    }

    /**
     * Merges `arr[low..mid]` and `arr[mid+1..high]` through two freshly
     * allocated arrays, counting their `high - low + 1` elements as allocations.
     */
    method MergeWithNewBuffer(arr: array<int>, low: int, mid: int, high: int)
      requires 0 <= low <= mid <= high < arr.Length
      modifies arr, metrics
      ensures MergedHalves(old(arr[..]), arr[..], low, mid, high)
      ensures metrics.comparisons == old(metrics.comparisons) + HalvesComparisons(old(arr[..]), low, mid, high)
      ensures metrics.allocations == old(metrics.allocations) + (high - low + 1)
      ensures metrics.swaps == old(metrics.swaps) && metrics.Settings() == old(metrics.Settings())
    {
      ghost var s0 := arr[..];
      var n1 := mid - low + 1;
      var n2 := high - mid;
      var left := new int[n1];
      var right := new int[n2];
      metrics.IncrementAllocationsBy(n1 + n2);
      ghost var l0, r0 := left[..], right[..];
      var i := CopyRun(left, 0, arr, low, mid + 1);
      var j := CopyRun(right, 0, arr, mid + 1, high + 1);
      ghost var l, r := left[0..n1], right[0..n2];
      CopiedWhole(l0, left[..], s0, low, mid + 1);
      CopiedWhole(r0, right[..], s0, mid + 1, high + 1);
      MergeInto(arr, low, left, 0, n1, right, 0, n2, metrics);
      MergedBack(s0, l, r, arr[..], low, mid, high);
    }
  }
}
