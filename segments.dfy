/**
 * Specification vocabulary shared by every algorithm of the lab: sortedness,
 * "everything left of a split is no larger than everything right of it",
 * permutation of a range with the rest left alone, and the sorted rearrangement
 * of a sequence that order statistics are measured against.
 *
 * Ranges are half-open here (`lo` inclusive, `hi` exclusive); the algorithms
 * themselves use inclusive `[low, high]` ranges and pass `high + 1`.
 */
module Segments {

  /** Every element is no larger than every element after it. */
  ghost predicate Sorted(s: seq<int>) {
    forall i, j :: 0 <= i < j < |s| ==> s[i] <= s[j]
  }

  /** Each element is no larger than its right neighbour. */
  ghost predicate AdjacentSorted(s: seq<int>) {
    forall i :: 1 <= i < |s| ==> s[i - 1] <= s[i]
  }

  /** `s[lo..hi]` is non-decreasing. */
  ghost predicate SortedRange(s: seq<int>, lo: int, hi: int)
    requires 0 <= lo && hi <= |s|
  {
    forall i, j :: lo <= i < j < hi ==> s[i] <= s[j]
  }

  /** Everything in `s[lo..mid]` is at most everything in `s[mid..hi]`. */
  ghost predicate Split(s: seq<int>, lo: int, mid: int, hi: int)
    requires 0 <= lo && hi <= |s|
  {
    forall i, j :: lo <= i < mid <= j < hi ==> s[i] <= s[j]
  }

  /** `t` is `s` with `s[lo..hi]` rearranged and every other position kept. */
  ghost predicate Perm(s: seq<int>, t: seq<int>, lo: int, hi: int) {
    && 0 <= lo <= hi <= |s| == |t|
    && s[..lo] == t[..lo] && s[hi..] == t[hi..]
    && multiset(s[lo..hi]) == multiset(t[lo..hi])
  }

  /** `s` with positions `i` and `j` exchanged. */
  function Swapped(s: seq<int>, i: int, j: int): (r: seq<int>)
    requires 0 <= i < |s| && 0 <= j < |s|
    ensures |r| == |s| && r[i] == s[j] && r[j] == s[i]
    ensures forall k {:trigger r[k]} :: 0 <= k < |s| && k != i && k != j ==> r[k] == s[k]
  {
    SwappedAfterIs(s, i, j, |s| + 2);
    SwappedAfter(s, i, j, |s| + 2)
  }

  /**
   * The exchange itself, after `steps` empty unfoldings. The verifier unfolds
   * a recursive definition only a bounded number of times per use, so callers
   * of `Swapped` work from its postconditions alone and are not handed the
   * sequence updates of its body.
   */
  function SwappedAfter(s: seq<int>, i: int, j: int, steps: nat): seq<int>
    requires 0 <= i < |s| && 0 <= j < |s|
    decreases steps
  {
    if steps == 0 then s[i := s[j]][j := s[i]] else SwappedAfter(s, i, j, steps - 1)
  }

  lemma {:induction false} SwappedAfterIs(s: seq<int>, i: int, j: int, steps: nat)
    requires 0 <= i < |s| && 0 <= j < |s|
    ensures SwappedAfter(s, i, j, steps) == s[i := s[j]][j := s[i]]
    decreases steps
  {
    if steps > 0 {
      SwappedAfterIs(s, i, j, steps - 1);
    }
  }

  lemma AdjacentSortedIff(s: seq<int>)
    ensures AdjacentSorted(s) <==> Sorted(s)
  {
    if AdjacentSorted(s) {
      AdjacentToSorted(s, |s|);
    }
  }

  lemma {:induction false} AdjacentToSorted(s: seq<int>, n: nat)
    requires n <= |s| && AdjacentSorted(s)
    ensures SortedRange(s, 0, n)
  {
    if n > 1 {
      AdjacentToSorted(s, n - 1);
      assert forall i :: 0 <= i < n - 1 ==> s[i] <= s[n - 2];
    }
  }

  lemma SortedSlice(s: seq<int>, lo: int, hi: int)
    requires 0 <= lo <= hi <= |s|
    ensures SortedRange(s, lo, hi) <==> Sorted(s[lo..hi])
  {
    if Sorted(s[lo..hi]) {
      forall i, j | lo <= i < j < hi ensures s[i] <= s[j] {
        assert s[i] == s[lo..hi][i - lo] && s[j] == s[lo..hi][j - lo];
      }
    }
  }

  lemma PermSwap(s: seq<int>, i: int, j: int, lo: int, hi: int)
    requires 0 <= lo <= i < hi <= |s| && lo <= j < hi
    ensures Perm(s, Swapped(s, i, j), lo, hi)
  {
    SwappedSlices(s, i, j, lo, hi);
    SwapUpdateMultiset(s[lo..hi], i - lo, j - lo);
  }

  /** Outside `[lo, hi)` a swap inside it changes nothing; inside, it swaps the slice. */
  lemma SwappedSlices(s: seq<int>, i: int, j: int, lo: int, hi: int)
    requires 0 <= lo <= i < hi <= |s| && lo <= j < hi
    ensures s[..lo] == Swapped(s, i, j)[..lo] && s[hi..] == Swapped(s, i, j)[hi..]
    ensures Swapped(s, i, j)[lo..hi] == s[lo..hi][i - lo := s[lo..hi][j - lo]][j - lo := s[lo..hi][i - lo]]
  {
  }

  /** Exchanging two entries by updates keeps the elements. */
  lemma SwapUpdateMultiset(u: seq<int>, a: int, b: int)
    requires 0 <= a < |u| && 0 <= b < |u|
    ensures multiset(u[a := u[b]][b := u[a]]) == multiset(u)
  {
  }

  /** Swapping two positions keeps the whole sequence's elements. */
  lemma SwappedMultiset(s: seq<int>, x: int, y: int)
    requires 0 <= x < |s| && 0 <= y < |s|
    ensures multiset(Swapped(s, x, y)) == multiset(s)
  {
    PermSwap(s, x, y, 0, |s|);
    assert s[0..|s|] == s;
    assert Swapped(s, x, y)[0..|s|] == Swapped(s, x, y);
  }

  /** Swapping inside a rearranged range keeps it a rearrangement. */
  lemma PermThenSwap(s0: seq<int>, s: seq<int>, i: int, j: int, lo: int, hi: int)
    requires Perm(s0, s, lo, hi) && lo <= i < hi && lo <= j < hi
    ensures Perm(s0, Swapped(s, i, j), lo, hi)
  {
    PermSwap(s, i, j, lo, hi);
    PermTrans(s0, s, Swapped(s, i, j), lo, hi);
  }

  lemma PermRefl(s: seq<int>, lo: int, hi: int)
    requires 0 <= lo <= hi <= |s|
    ensures Perm(s, s, lo, hi)
  {
  }

  lemma PermTrans(s: seq<int>, t: seq<int>, u: seq<int>, lo: int, hi: int)
    requires Perm(s, t, lo, hi) && Perm(t, u, lo, hi)
    ensures Perm(s, u, lo, hi)
  {
  }

  /** Rearranging an inner range rearranges every range that contains it. */
  lemma PermWiden(s: seq<int>, t: seq<int>, lo: int, hi: int, lo': int, hi': int)
    requires Perm(s, t, lo', hi') && 0 <= lo <= lo' && hi' <= hi <= |s|
    ensures Perm(s, t, lo, hi)
  {
    assert s[lo..hi] == s[lo..lo'] + s[lo'..hi'] + s[hi'..hi];
    assert t[lo..hi] == t[lo..lo'] + t[lo'..hi'] + t[hi'..hi];
    assert s[lo..lo'] == t[lo..lo'];
    assert s[hi'..hi] == t[hi'..hi];
  }

  /** Every element of a rearranged range came from that range. */
  lemma PermSource(s: seq<int>, t: seq<int>, lo: int, hi: int, k: int) returns (k': int)
    requires Perm(s, t, lo, hi) && lo <= k < hi
    ensures lo <= k' < hi && t[k] == s[k']
  {
    assert t[k] == t[lo..hi][k - lo];
    assert t[k] in multiset(s[lo..hi]);
    var d :| 0 <= d < hi - lo && s[lo..hi][d] == t[k];
    k' := lo + d;
  }

  /** A rearrangement inside one side of a split (or outside it) keeps the split. */
  lemma PermKeepsSplit(s: seq<int>, t: seq<int>, x: int, y: int, lo: int, mid: int, hi: int)
    requires Perm(s, t, x, y) && 0 <= lo <= mid <= hi <= |s| && Split(s, lo, mid, hi)
    requires (lo <= x && y <= mid) || (mid <= x && y <= hi) || y <= lo || hi <= x || x == y
    ensures Split(t, lo, mid, hi)
  {
    forall i, j | lo <= i < mid <= j < hi ensures t[i] <= t[j] {
      if x <= i < y {
        var i' := PermSource(s, t, x, y, i);
      }
      if x <= j < y {
        var j' := PermSource(s, t, x, y, j);
      }
    }
  }

  /** A rearrangement outside a sorted range keeps it sorted. */
  lemma PermKeepsSorted(s: seq<int>, t: seq<int>, x: int, y: int, lo: int, hi: int)
    requires Perm(s, t, x, y) && 0 <= lo <= hi <= |s| && SortedRange(s, lo, hi)
    requires y <= lo || hi <= x || x == y
    ensures SortedRange(t, lo, hi)
  {
  }

  /** A rearrangement keeps a strict upper bound on the range it rearranges. */
  lemma PermKeepsBelow(s: seq<int>, t: seq<int>, lo: int, hi: int, v: int)
    requires Perm(s, t, lo, hi) && forall k :: lo <= k < hi ==> s[k] < v
    ensures forall k :: lo <= k < hi ==> t[k] < v
  {
    forall k | lo <= k < hi ensures t[k] < v {
      var k' := PermSource(s, t, lo, hi, k);
    }
  }

  /**
   * Three sorted consecutive pieces, each split from what follows it, form one
   * sorted range.
   */
  lemma SortedFromParts(s: seq<int>, lo: int, a: int, b: int, hi: int)
    requires 0 <= lo <= a <= b <= hi <= |s|
    requires SortedRange(s, lo, a) && SortedRange(s, a, b) && SortedRange(s, b, hi)
    requires Split(s, lo, a, hi) && Split(s, lo, b, hi)
    ensures SortedRange(s, lo, hi)
  {
  }

  /** Inserts `x` into a sorted sequence before the first larger element. */
  function Insert(s: seq<int>, x: int): (r: seq<int>)
    ensures |r| == |s| + 1 && multiset(r) == multiset(s) + multiset{x}
  {
    if s == [] then [x]
    else if x <= s[0] then [x] + s
    else
      assert s == [s[0]] + s[1..];
      [s[0]] + Insert(s[1..], x)
  }

  lemma {:induction false} InsertSorted(s: seq<int>, x: int)
    requires Sorted(s)
    ensures Sorted(Insert(s, x))
  {
    if s != [] && x > s[0] {
      InsertSorted(s[1..], x);
      InsertAbove(s, x);
      SortedConsAll(s[0], Insert(s[1..], x));
    }
  }

  /** Inserting above the head of a sorted sequence keeps the head below the rest. */
  lemma InsertAbove(s: seq<int>, x: int)
    requires Sorted(s) && s != [] && s[0] < x
    ensures forall k :: 0 <= k < |Insert(s[1..], x)| ==> s[0] <= Insert(s[1..], x)[k]
  {
    var t := Insert(s[1..], x);
    forall k | 0 <= k < |t| ensures s[0] <= t[k] {
      assert t[k] in multiset(t);
      if t[k] != x {
        assert t[k] in multiset(s[1..]);
        SortedHeadBelow(s, t[k]);
      }
    }
  }

  /** A sorted sequence stays sorted behind a new head no larger than any of it. */
  lemma SortedConsAll(x: int, t: seq<int>)
    requires Sorted(t) && forall k :: 0 <= k < |t| ==> x <= t[k]
    ensures Sorted([x] + t)
  {
  }

  /** The head of a sorted sequence is at most each of its elements. */
  lemma SortedHeadBelow(s: seq<int>, y: int)
    requires Sorted(s) && y in s
    ensures s[0] <= y
  {
    var k :| 0 <= k < |s| && s[k] == y;
  }

  /** `s` insertion-sorted: its elements inserted one at a time, last one last. */
  function InsertAll(s: seq<int>): (r: seq<int>)
    ensures |r| == |s|
  {
    if s == [] then [] else Insert(InsertAll(s[..|s| - 1]), s[|s| - 1])
  }

  lemma {:induction false} InsertAllSorts(s: seq<int>)
    ensures Sorted(InsertAll(s)) && multiset(InsertAll(s)) == multiset(s)
  {
    if s != [] {
      var init, x := s[..|s| - 1], s[|s| - 1];
      SplitLast(s);
      InsertAllSorts(init);
      InsertAllStep(init, x);
    }
  }

  lemma SplitLast(s: seq<int>)
    requires s != []
    ensures s == s[..|s| - 1] + [s[|s| - 1]]
  {
  }

  /** Inserting one more element into the sorted rest sorts the whole. */
  lemma InsertAllStep(init: seq<int>, x: int)
    requires Sorted(InsertAll(init)) && multiset(InsertAll(init)) == multiset(init)
    ensures Sorted(InsertAll(init + [x])) && multiset(InsertAll(init + [x])) == multiset(init) + multiset{x}
  {
    assert (init + [x])[..|init|] == init;
    InsertSorted(InsertAll(init), x);
  }

  /**
   * The sorted rearrangement of `s` (unique by `SortedUnique`); it exists
   * because `InsertAll` builds one.
   */
  ghost function SortedOf(s: seq<int>): (r: seq<int>)
    ensures |r| == |s|
  {
    InsertAllSorts(s);
    var r :| |r| == |s| && Sorted(r) && multiset(r) == multiset(s); r
  }

  lemma SortedOfSpec(s: seq<int>)
    ensures Sorted(SortedOf(s)) && multiset(SortedOf(s)) == multiset(s)
  {
    InsertAllSorts(s);
  }

  /** Two sorted sequences with the same elements are equal. */
  lemma {:induction false} SortedUnique(a: seq<int>, b: seq<int>)
    requires Sorted(a) && Sorted(b) && multiset(a) == multiset(b)
    ensures a == b
  {
    assert |a| == |b| by { assert |multiset(a)| == |multiset(b)|; }
    if a != [] {
      SortedHeadsEqual(a, b);
      SortedTail(a);
      SortedTail(b);
      SortedUnique(a[1..], b[1..]);
      assert a == [a[0]] + a[1..];
      assert b == [b[0]] + b[1..];
    }
  }

  /** Both heads are the least element of the same multiset. */
  lemma SortedHeadsEqual(a: seq<int>, b: seq<int>)
    requires Sorted(a) && Sorted(b) && multiset(a) == multiset(b) && a != [] && b != []
    ensures a[0] == b[0]
  {
    assert a[0] in multiset(b) && b[0] in multiset(a);
    SortedHeadBelow(a, b[0]);
    SortedHeadBelow(b, a[0]);
  }

  /** Dropping the head keeps a sequence sorted and removes one copy of the head. */
  lemma SortedTail(s: seq<int>)
    requires Sorted(s) && s != []
    ensures Sorted(s[1..])
    ensures multiset(s[1..]) == multiset(s) - multiset{s[0]}
  {
    assert s == [s[0]] + s[1..];
  }

  /** The sorted rearrangement depends only on the multiset of elements. */
  lemma SortedOfPerm(s: seq<int>, t: seq<int>)
    requires multiset(s) == multiset(t)
    ensures SortedOf(s) == SortedOf(t)
  {
    SortedOfSpec(s);
    SortedOfSpec(t);
    SortedUnique(SortedOf(s), SortedOf(t));
  }

  /** A sorted sequence is its own sorted rearrangement. */
  lemma SortedOfSorted(s: seq<int>)
    requires Sorted(s)
    ensures SortedOf(s) == s
  {
    SortedOfSpec(s);
    SortedUnique(SortedOf(s), s);
  }

  /**
   * Once `s[p]` is in pivot position (smaller elements before, the rest
   * after), the sorted rearrangement is the sorted left part, the pivot, and
   * the sorted right part.
   */
  lemma SortedOfAroundPivot(s: seq<int>, p: int)
    requires 0 <= p < |s|
    requires forall i :: 0 <= i < p ==> s[i] < s[p]
    requires forall i :: p < i < |s| ==> s[p] <= s[i]
    ensures SortedOf(s) == SortedOf(s[..p]) + [s[p]] + SortedOf(s[p + 1..])
  {
    AroundPivotSorted(s, p);
    SortedOfSpec(s);
    SortedUnique(SortedOf(s), SortedOf(s[..p]) + [s[p]] + SortedOf(s[p + 1..]));
  }

  lemma AroundPivotSorted(s: seq<int>, p: int)
    requires 0 <= p < |s|
    requires forall i :: 0 <= i < p ==> s[i] < s[p]
    requires forall i :: p < i < |s| ==> s[p] <= s[i]
    ensures Sorted(SortedOf(s[..p]) + [s[p]] + SortedOf(s[p + 1..]))
    ensures multiset(SortedOf(s[..p]) + [s[p]] + SortedOf(s[p + 1..])) == multiset(s)
  {
    var l, r := SortedOf(s[..p]), SortedOf(s[p + 1..]);
    SortedOfSpec(s[..p]);
    SortedOfSpec(s[p + 1..]);
    SortedOfBelow(s[..p], s[p]);
    SortedOfAtLeast(s[p + 1..], s[p]);
    SortedAroundPivot(l, s[p], r);
    assert s == s[..p] + [s[p]] + s[p + 1..];
    assert multiset(l + [s[p]] + r) == multiset(l) + multiset{s[p]} + multiset(r);
  }

  /** A strict upper bound on every element bounds the sorted rearrangement too. */
  lemma SortedOfBelow(s: seq<int>, x: int)
    requires forall i :: 0 <= i < |s| ==> s[i] < x
    ensures forall i :: 0 <= i < |s| ==> SortedOf(s)[i] < x
  {
    var r := SortedOf(s);
    SortedOfSpec(s);
    forall i | 0 <= i < |r| ensures r[i] < x {
      assert r[i] in multiset(s);
    }
  }

  /** A lower bound on every element bounds the sorted rearrangement too. */
  lemma SortedOfAtLeast(s: seq<int>, x: int)
    requires forall i :: 0 <= i < |s| ==> x <= s[i]
    ensures forall i :: 0 <= i < |s| ==> x <= SortedOf(s)[i]
  {
    var r := SortedOf(s);
    SortedOfSpec(s);
    forall i | 0 <= i < |r| ensures x <= r[i] {
      assert r[i] in multiset(s);
    }
  }

  lemma SortedAroundPivot(l: seq<int>, x: int, r: seq<int>)
    requires Sorted(l) && Sorted(r)
    requires forall i :: 0 <= i < |l| ==> l[i] < x
    requires forall i :: 0 <= i < |r| ==> x <= r[i]
    ensures Sorted(l + [x] + r)
  {
    var c := l + [x] + r;
    forall i, j | 0 <= i < j < |c| ensures c[i] <= c[j] {
      if j > |l| {
        assert c[j] == r[j - |l| - 1];
      }
    }
  }

  /**
   * `t[lo..hi]` is a sorted rearrangement of `s[lo..hi]` and `t` agrees
   * with `s` outside it: what each recursive sorting call promises.
   */
  ghost predicate SortedPerm(s: seq<int>, t: seq<int>, lo: int, hi: int) {
    0 <= lo <= hi <= |s| == |t| && SortedPermAfter(s, t, lo, hi, |s| + 2)
  }

  /**
   * `Perm` and `SortedRange` behind `steps` empty unfoldings, so that the
   * recursive sorts pass the promise on as one fact; `SortedPermOpen` and
   * `SortedPermClose` convert.
   */
  ghost predicate SortedPermAfter(s: seq<int>, t: seq<int>, lo: int, hi: int, steps: nat)
    decreases steps
  {
    if steps == 0 then Perm(s, t, lo, hi) && SortedRange(t, lo, hi)
    else SortedPermAfter(s, t, lo, hi, steps - 1)
  }

  lemma {:induction false} SortedPermAfterIs(s: seq<int>, t: seq<int>, lo: int, hi: int, steps: nat)
    ensures SortedPermAfter(s, t, lo, hi, steps) == (Perm(s, t, lo, hi) && SortedRange(t, lo, hi))
    decreases steps
  {
    if steps > 0 {
      SortedPermAfterIs(s, t, lo, hi, steps - 1);
    }
  }

  lemma SortedPermOpen(s: seq<int>, t: seq<int>, lo: int, hi: int)
    requires SortedPerm(s, t, lo, hi)
    ensures Perm(s, t, lo, hi) && SortedRange(t, lo, hi)
  {
    SortedPermAfterIs(s, t, lo, hi, |s| + 2);
  }

  lemma SortedPermClose(s: seq<int>, t: seq<int>, lo: int, hi: int)
    requires Perm(s, t, lo, hi) && SortedRange(t, lo, hi)
    ensures SortedPerm(s, t, lo, hi)
  {
    SortedPermAfterIs(s, t, lo, hi, |s| + 2);
  }

  /** A permutation of the whole array that sorts it. */
  lemma WholeArray(s: seq<int>, t: seq<int>)
    requires Perm(s, t, 0, |s|) && SortedRange(t, 0, |t|)
    ensures Sorted(t) && multiset(t) == multiset(s)
  {
    assert s[0..|s|] == s && t[0..|t|] == t;
  }
}
