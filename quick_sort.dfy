/**
 * Quick sort of lib/algorithms.tsx:422-608: Lomuto partition around the last element of
 * the range, then the two sides recursively, on a copy of the input (:444).
 */
module QuickSort {
  import opened SortCore

  /** Everything in s[lo..hi] is at most x. */
  predicate AllAtMost(s: seq<int>, lo: int, hi: int, x: int)
    requires 0 <= lo <= hi <= |s|
  {
    forall k :: lo <= k < hi ==> s[k] <= x
  }

  /** Everything in s[lo..hi] is greater than x. */
  predicate AllAbove(s: seq<int>, lo: int, hi: int, x: int)
    requires 0 <= lo <= hi <= |s|
  {
    forall k :: lo <= k < hi ==> s[k] > x
  }

  /**
   * Placing the pivot after a completed scan: exchanging the pivot t[hi] = x with the
   * first element of the "greater" part puts it between the two parts.
   */
  lemma PivotPlaced(t: seq<int>, lo: int, i: int, hi: int, x: int)
    requires 0 <= lo <= i + 1 <= hi < |t| && t[hi] == x
    requires AllAtMost(t, lo, i + 1, x) && AllAbove(t, i + 1, hi, x)
    ensures SlicePermuted(t, Exchange(t, i + 1, hi), lo, hi + 1)
    ensures Exchange(t, i + 1, hi)[i + 1] == x
    ensures AllAtMost(Exchange(t, i + 1, hi), lo, i + 1, x)
    ensures AllAbove(Exchange(t, i + 1, hi), i + 1 + 1, hi + 1, x)
  {
    ExchangeInSlice(t, i + 1, hi, lo, hi + 1);
    PivotBounds(t, lo, i, hi, x);
  }

  /** The bounds half of placing the pivot. */
  lemma PivotBounds(t: seq<int>, lo: int, i: int, hi: int, x: int)
    requires 0 <= lo <= i + 1 <= hi < |t| && t[hi] == x
    requires AllAtMost(t, lo, i + 1, x) && AllAbove(t, i + 1, hi, x)
    ensures Exchange(t, i + 1, hi)[i + 1] == x
    ensures AllAtMost(Exchange(t, i + 1, hi), lo, i + 1, x)
    ensures AllAbove(Exchange(t, i + 1, hi), i + 1 + 1, hi + 1, x)
  {
  }

  /**
   * One Lomuto step: with [lo, i) at most the pivot x and [i, j) above it, swapping
   * t[j] <= x into position i extends the first part by one and shifts the second, and
   * the range stays a rearrangement of s.
   */
  lemma LomutoStep(s: seq<int>, t: seq<int>, r: seq<int>, lo: int, i: int, j: int, hi: int, x: int)
    requires 0 <= lo <= i <= j < hi < |t| == |s| && t[hi] == x && r == Exchange(t, i, j)
    requires SlicePermuted(s, t, lo, hi + 1)
    requires AllAtMost(t, lo, i, x) && AllAbove(t, i, j, x) && t[j] <= x
    ensures SlicePermuted(s, r, lo, hi + 1) && r[hi] == x
    ensures AllAtMost(r, lo, i + 1, x) && AllAbove(r, i + 1, j + 1, x)
  {
    ExchangeInSliceAfter(s, t, i, j, lo, hi + 1);
    LomutoBounds(t, lo, i, j, x);
  }

  /** The bounds half of a Lomuto step. */
  lemma LomutoBounds(t: seq<int>, lo: int, i: int, j: int, x: int)
    requires 0 <= lo <= i <= j < |t|
    requires AllAtMost(t, lo, i, x) && AllAbove(t, i, j, x) && t[j] <= x
    ensures AllAtMost(Exchange(t, i, j), lo, i + 1, x) && AllAbove(Exchange(t, i, j), i + 1, j + 1, x)
  {
  }

  /** An element above x at the end of a part above x extends it. */
  lemma AllAboveExtend(s: seq<int>, lo: int, hi: int, x: int)
    requires 0 <= lo <= hi < |s| && AllAbove(s, lo, hi, x) && s[hi] > x
    ensures AllAbove(s, lo, hi + 1, x)
  {
  }

  /**
   * The loop of `partition` (lib/algorithms.tsx:496-549): for each j in [low, high), read
   * the flag, count the comparison with the pivot arr[high], and when arr[j] <= pivot move
   * it to the front part with a counted, published swap. It only rearranges [low, high)
   * and keeps everything in [low, i] at most the pivot and everything in (i, j) greater.
   */
  method PartitionScan(a: array<int>, lo: int, hi: int, run0: Run, cancel: Cancel) returns (i: int, j: int, run: Run)
    requires 0 <= lo < hi < a.Length
    requires run0.Valid(a.Length, cancel) && !run0.cancelled && run0.shown == a[..]
    modifies a
    ensures lo - 1 <= i < j <= hi && (!run.cancelled ==> j == hi)
    ensures SlicePermuted(old(a[..]), a[..], lo, hi + 1) && a[hi] == old(a[hi])
    ensures AllAtMost(a[..], lo, i + 1, a[hi]) && AllAbove(a[..], i + 1, j, a[hi])
    ensures run.Valid(a.Length, cancel) && run.shown == a[..] && Grows(run0, run)
    ensures run.comparisons == run0.comparisons + (j - lo)
  {
    ghost var s := a[..];
    var pivot := a[hi];
    run := run0;
    i, j := lo - 1, lo;
    SlicePermutedRefl(s, lo, hi + 1);
    while j < hi
      invariant lo - 1 <= i < j <= hi
      invariant SlicePermuted(s, a[..], lo, hi + 1) && a[hi] == pivot
      invariant AllAtMost(a[..], lo, i + 1, pivot) && AllAbove(a[..], i + 1, j, pivot)
      invariant run.Valid(a.Length, cancel) && !run.cancelled && run.shown == a[..] && Grows(run0, run)
      invariant run.comparisons == run0.comparisons + (j - lo)
    {
      run := run.Poll(cancel);
      if run.cancelled {
        return;
      }
      i, run := ScanStep(a, lo, i, j, hi, pivot, s, run, cancel);
      j := j + 1;
    }
  }

  /**
   * One round of the loop of `partition` after its read of the flag: count the comparison
   * of arr[j] with the pivot and, when arr[j] is at most the pivot, swap it to the end of
   * the front part, counted and published.
   */
  method ScanStep(a: array<int>, lo: int, i0: int, j: int, hi: int, pivot: int, ghost s: seq<int>, run0: Run, cancel: Cancel)
    returns (i: int, run: Run)
    requires 0 <= lo && lo - 1 <= i0 < j < hi < a.Length == |s|
    requires SlicePermuted(s, a[..], lo, hi + 1) && a[hi] == pivot
    requires AllAtMost(a[..], lo, i0 + 1, pivot) && AllAbove(a[..], i0 + 1, j, pivot)
    requires run0.Valid(a.Length, cancel) && !run0.cancelled && run0.shown == a[..]
    modifies a
    ensures i == i0 || i == i0 + 1
    ensures SlicePermuted(s, a[..], lo, hi + 1) && a[hi] == pivot
    ensures AllAtMost(a[..], lo, i + 1, pivot) && AllAbove(a[..], i + 1, j + 1, pivot)
    ensures run.Valid(a.Length, cancel) && !run.cancelled && run.shown == a[..] && Grows(run0, run)
    ensures run.comparisons == run0.comparisons + 1
  {
    i := i0;
    run := run0.Compare().Touch(j).Touch(hi);
    if a[j] <= pivot {
      i := i + 1;
      run := SwapToFront(a, lo, i, j, hi, pivot, s, run, cancel);
    } else {
      AllAboveExtend(a[..], i + 1, j, pivot);
    }
  }

  /** The counted, published swap of arr[i] and arr[j] in the loop of `partition`. */
  method SwapToFront(a: array<int>, lo: int, i: int, j: int, hi: int, pivot: int, ghost s: seq<int>, run0: Run, cancel: Cancel)
    returns (run: Run)
    requires 0 <= lo <= i <= j < hi < a.Length == |s|
    requires SlicePermuted(s, a[..], lo, hi + 1) && a[hi] == pivot
    requires AllAtMost(a[..], lo, i, pivot) && AllAbove(a[..], i, j, pivot) && a[j] <= pivot
    requires run0.Valid(a.Length, cancel) && !run0.cancelled
    modifies a
    ensures SlicePermuted(s, a[..], lo, hi + 1) && a[hi] == pivot
    ensures AllAtMost(a[..], lo, i + 1, pivot) && AllAbove(a[..], i + 1, j + 1, pivot)
    ensures run.Valid(a.Length, cancel) && !run.cancelled && run.shown == a[..] && Grows(run0, run)
    ensures run.comparisons == run0.comparisons && run.swaps == run0.swaps + 1
  {
    ghost var t := a[..];
    run := run0.Touch(i).Touch(j);
    SwapEntries(a, i, j);
    LomutoStep(s, t, a[..], lo, i, j, hi, pivot);
    run := run.Swap().Publish(a[..]);
  }

  /**
   * `partition(arr, low, high)` (lib/algorithms.tsx:481-573). The pivot is arr[high];
   * the scan swaps every element at most the pivot to the front part, and the pivot then
   * goes to i+1. The range is only rearranged, and on success everything before the
   * returned position is at most the pivot, which sits there, and everything after it is
   * greater. When the flag is seen (in the scan or in the check after it) the function
   * gives up without placing the pivot; when it was seen before the call, nothing is
   * written at all.
   */
  method Partition(a: array<int>, lo: int, hi: int, run0: Run, cancel: Cancel) returns (p: int, placed: bool, run: Run)
    requires 0 <= lo < hi < a.Length
    requires run0.Valid(a.Length, cancel) && run0.shown == a[..]
    modifies a
    ensures SlicePermuted(old(a[..]), a[..], lo, hi + 1)
    ensures run.Valid(a.Length, cancel) && run.shown == a[..] && Grows(run0, run)
    ensures placed <==> !run.cancelled
    ensures placed ==> lo <= p <= hi && a[p] == old(a[hi])
    ensures placed ==> AllAtMost(a[..], lo, p, old(a[hi])) && AllAbove(a[..], p + 1, hi + 1, old(a[hi]))
    ensures run0.cancelled ==> a[..] == old(a[..]) && run.polls == run0.polls + 1
  {
    ghost var s := a[..];
    var pivot := a[hi];
    run := run0.Touch(hi);
    p, placed := 0, false;
    if run.cancelled {
      // the first read in the loop sees the flag again
      run := run.PollAgain(cancel);
      SlicePermutedRefl(s, lo, hi + 1);
      return;
    }
    var i, j;
    i, j, run := PartitionScan(a, lo, hi, run, cancel);
    if run.cancelled {
      return;
    }
    p, placed, run := AfterScan(a, lo, i, hi, pivot, s, run, cancel);
  }

  /**
   * The end of `partition` after a scan that ran to the end (lib/algorithms.tsx:551-572):
   * read the flag and give up when it is set, otherwise place the pivot at i+1.
   */
  method AfterScan(a: array<int>, lo: int, i: int, hi: int, pivot: int, ghost s: seq<int>, run0: Run, cancel: Cancel)
    returns (p: int, placed: bool, run: Run)
    requires 0 <= lo <= i + 1 <= hi < a.Length == |s| && a[hi] == pivot
    requires SlicePermuted(s, a[..], lo, hi + 1)
    requires AllAtMost(a[..], lo, i + 1, pivot) && AllAbove(a[..], i + 1, hi, pivot)
    requires run0.Valid(a.Length, cancel) && !run0.cancelled && run0.shown == a[..]
    modifies a
    ensures SlicePermuted(s, a[..], lo, hi + 1)
    ensures run.Valid(a.Length, cancel) && run.shown == a[..] && Grows(run0, run)
    ensures placed <==> !run.cancelled
    ensures placed ==> p == i + 1 && a[p] == pivot
    ensures placed ==> AllAtMost(a[..], lo, p, pivot) && AllAbove(a[..], p + 1, hi + 1, pivot)
  {
    p, placed := 0, false;
    run := run0.Poll(cancel);
    if run.cancelled {
      return;
    }
    ghost var t := a[..];
    run := PlacePivot(a, lo, i, hi, pivot, run, cancel);
    SlicePermutedTrans(s, t, a[..], lo, hi + 1);
    p, placed := i + 1, true;
  }

  /**
   * The end of `partition` (lib/algorithms.tsx:552-572): the counted, published swap of
   * arr[i+1] with the pivot arr[high].
   */
  method PlacePivot(a: array<int>, lo: int, i: int, hi: int, x: int, run0: Run, cancel: Cancel) returns (run: Run)
    requires 0 <= lo <= i + 1 <= hi < a.Length && a[hi] == x
    requires AllAtMost(a[..], lo, i + 1, x) && AllAbove(a[..], i + 1, hi, x)
    requires run0.Valid(a.Length, cancel) && !run0.cancelled
    modifies a
    ensures SlicePermuted(old(a[..]), a[..], lo, hi + 1)
    ensures a[i + 1] == x && AllAtMost(a[..], lo, i + 1, x) && AllAbove(a[..], i + 1 + 1, hi + 1, x)
    ensures run.Valid(a.Length, cancel) && !run.cancelled && run.shown == a[..] && Grows(run0, run)
  {
    ghost var t := a[..];
    run := run0.Touch(i + 1).Touch(hi);
    SwapEntries(a, i + 1, hi);
    PivotPlaced(t, lo, i, hi, x);
    run := run.Swap().Publish(a[..]);
  }

  /**
   * What the two recursive calls of quickSort achieve together for the contents: each
   * rearranges one side of the pivot, so the whole range is rearranged.
   */
  lemma SidesPermuted(s0: seq<int>, s1: seq<int>, s2: seq<int>, s3: seq<int>, lo: int, p: int, hi: int)
    requires 0 <= lo <= p <= hi < |s0|
    requires SlicePermuted(s0, s1, lo, hi + 1)
    requires SlicePermuted(s1, s2, lo, p) && SlicePermuted(s2, s3, p + 1, hi + 1)
    ensures SlicePermuted(s0, s3, lo, hi + 1)
  {
    SlicePermutedWiden(s1, s2, lo, p, lo, hi + 1);
    SlicePermutedTrans(s0, s1, s2, lo, hi + 1);
    SlicePermutedWiden(s2, s3, p + 1, hi + 1, lo, hi + 1);
    SlicePermutedTrans(s0, s2, s3, lo, hi + 1);
  }

  /**
   * What the two recursive calls of quickSort achieve together for the order: the sides
   * keep their bounds against the pivot x, so both sides sorted put the range in order.
   */
  lemma SidesSorted(s1: seq<int>, s2: seq<int>, s3: seq<int>, lo: int, p: int, hi: int, x: int)
    requires 0 <= lo <= p <= hi < |s1| && s1[p] == x
    requires AllAtMost(s1, lo, p, x) && AllAbove(s1, p + 1, hi + 1, x)
    requires SlicePermuted(s1, s2, lo, p) && SlicePermuted(s2, s3, p + 1, hi + 1)
    requires SortedBetween(s2, lo, p) && SortedBetween(s3, p + 1, hi + 1)
    ensures SortedBetween(s3, lo, hi + 1)
  {
    SlicePermutedKeepsAtMost(s1, s2, lo, p, x);
    assert s2[p..] == s1[p..];
    assert s2[p] == s2[p..][0] && s1[p] == s1[p..][0];
    assert forall k :: p < k <= hi ==> s2[k] == s2[p..][k - p] == s1[p..][k - p] == s1[k];
    SlicePermutedKeepsAbove(s2, s3, p + 1, hi + 1, x);
    assert s3[..p + 1] == s2[..p + 1];
    assert forall k :: 0 <= k <= p ==> s3[k] == s3[..p + 1][k] == s2[..p + 1][k] == s2[k];
    JoinAroundPivot(s3, lo, p, hi, x);
  }

  /**
   * Everything in [lo, p) at most the pivot x = s[p] and everything in (p, hi] above it,
   * with both sides in order, puts [lo, hi] in order.
   */
  lemma JoinAroundPivot(s: seq<int>, lo: int, p: int, hi: int, x: int)
    requires 0 <= lo <= p <= hi < |s| && s[p] == x
    requires AllAtMost(s, lo, p, x) && AllAbove(s, p + 1, hi + 1, x)
    requires SortedBetween(s, lo, p) && SortedBetween(s, p + 1, hi + 1)
    ensures SortedBetween(s, lo, hi + 1)
  {
  }

  /**
   * The two recursive calls of quickSort put together: the range is rearranged, and in
   * order when neither call saw the flag.
   */
  lemma SidesClose(s1: seq<int>, s2: seq<int>, s3: seq<int>, lo: int, p: int, hi: int, x: int, c2: bool, c3: bool)
    requires 0 <= lo <= p <= hi < |s1| && s1[p] == x
    requires AllAtMost(s1, lo, p, x) && AllAbove(s1, p + 1, hi + 1, x)
    requires SlicePermuted(s1, s2, lo, p) && SlicePermuted(s2, s3, p + 1, hi + 1)
    requires !c2 ==> SortedBetween(s2, lo, p)
    requires !c3 ==> SortedBetween(s3, p + 1, hi + 1) && !c2
    ensures SlicePermuted(s1, s3, lo, hi + 1)
    ensures !c3 ==> SortedBetween(s3, lo, hi + 1)
  {
    SlicePermutedRefl(s1, lo, hi + 1);
    SidesPermuted(s1, s1, s2, s3, lo, p, hi);
    if !c3 {
      SidesSorted(s1, s2, s3, lo, p, hi, x);
    }
  }

  /**
   * `quickSort(arr, low, high)` (lib/algorithms.tsx:575-591). Only [low, high] is
   * rearranged, and, unless the flag was seen, it ends in order. Once the flag has been
   * seen nothing more is written: a partition that gave up returns undefined, and both
   * recursive calls on an undefined bound do nothing.
   */
  method SortRange(a: array<int>, lo: int, hi: int, run0: Run, cancel: Cancel) returns (run: Run)
    requires 0 <= lo <= hi + 1 <= a.Length
    requires run0.Valid(a.Length, cancel) && run0.shown == a[..]
    modifies a
    decreases hi - lo, 1
    ensures SlicePermuted(old(a[..]), a[..], lo, hi + 1)
    ensures run.Valid(a.Length, cancel) && run.shown == a[..] && Grows(run0, run)
    ensures !run.cancelled ==> SortedBetween(a[..], lo, hi + 1)
    ensures run0.cancelled ==> a[..] == old(a[..])
  {
    run := run0;
    if lo < hi {
      ghost var s0 := a[..];
      var p, placed;
      p, placed, run := Partition(a, lo, hi, run, cancel);
      if !placed {
        return;
      }
      ghost var s1 := a[..];
      run := SortSides(a, lo, p, hi, s0[hi], run, cancel);
      SlicePermutedTrans(s0, s1, a[..], lo, hi + 1);
    } else {
      SlicePermutedRefl(a[..], lo, hi + 1);
    }
  }

  /**
   * The two recursive calls of `quickSort` after a partition that placed the pivot x at
   * p (lib/algorithms.tsx:587-588): the range is rearranged, and in order unless the flag
   * was seen.
   */
  method SortSides(a: array<int>, lo: int, p: int, hi: int, ghost x: int, run0: Run, cancel: Cancel) returns (run: Run)
    requires 0 <= lo <= p <= hi < a.Length && a[p] == x
    requires AllAtMost(a[..], lo, p, x) && AllAbove(a[..], p + 1, hi + 1, x)
    requires run0.Valid(a.Length, cancel) && !run0.cancelled && run0.shown == a[..]
    modifies a
    decreases hi - lo, 0
    ensures SlicePermuted(old(a[..]), a[..], lo, hi + 1)
    ensures run.Valid(a.Length, cancel) && run.shown == a[..] && Grows(run0, run)
    ensures !run.cancelled ==> SortedBetween(a[..], lo, hi + 1)
  {
    ghost var s1 := a[..];
    run := SortRange(a, lo, p - 1, run0, cancel);
    ghost var s2, r2 := a[..], run;
    run := SortRange(a, p + 1, hi, run, cancel);
    assert !run.cancelled ==> !r2.cancelled;
    SidesClose(s1, s2, a[..], lo, p, hi, x, r2.cancelled, run.cancelled);
  }

  /**
   * The quick sort entry (lib/algorithms.tsx:429-606): `quickSort(arr, 0, arr.length - 1)`
   * on a copy of the input. The result is a rearrangement of the input, the last published
   * snapshot, and sorted unless the flag was seen.
   */
  method Sort(input: seq<int>, cancel: Cancel) returns (result: seq<int>, run: Run)
    ensures multiset(result) == multiset(input)
    ensures run.Valid(|input|, cancel) && run.shown == result
    ensures !run.cancelled ==> Sorted(result)
  {
    var n := |input|;
    var a := new int[n](k requires 0 <= k < n => input[k]);
    assert a[..] == input;
    run := Start(input);
    run := SortRange(a, 0, n - 1, run, cancel);
    result := a[..];
    SlicePermutedWhole(input, result);
  }
}
