/**
 * Merge sort of lib/algorithms.tsx:617-812: top-down halving at floor((left+right)/2),
 * then `merge`, which copies both halves out to L and R and writes them back in order,
 * taking from the left half on ties.
 */
module MergeSort {
  import opened SortCore

  /**
   * The stable merge of two sequences: repeatedly take the smaller head, the left one
   * when they are equal.
   */
  function Merged(L: seq<int>, R: seq<int>): (m: seq<int>)
    decreases |L| + |R|
    ensures |m| == |L| + |R|
  {
    if L == [] then R
    else if R == [] then L
    else if L[0] <= R[0] then [L[0]] + Merged(L[1..], R)
    else [R[0]] + Merged(L, R[1..])
  }

  /** Merging only rearranges: the result holds exactly the values of both inputs. */
  lemma {:induction false} MergedPermutes(L: seq<int>, R: seq<int>)
    decreases |L| + |R|
    ensures multiset(Merged(L, R)) == multiset(L) + multiset(R)
  {
    if L != [] && R != [] {
      if L[0] <= R[0] {
        MergedPermutes(L[1..], R);
        ConsPermutes(L, Merged(L[1..], R), R);
      } else {
        MergedPermutes(L, R[1..]);
        ConsPermutes(R, Merged(L, R[1..]), L);
      }
    }
  }

  /** Putting the head of t back in front of a rearrangement of its tail and u. */
  lemma ConsPermutes(t: seq<int>, m: seq<int>, u: seq<int>)
    requires t != [] && (multiset(m) == multiset(t[1..]) + multiset(u) || multiset(m) == multiset(u) + multiset(t[1..]))
    ensures multiset([t[0]] + m) == multiset(t) + multiset(u) && multiset([t[0]] + m) == multiset(u) + multiset(t)
  {
    assert t == [t[0]] + t[1..];
  }

  /** A bound below both heads of two sorted sequences is below every value of their merge. */
  lemma {:induction false} MergedAbove(L: seq<int>, R: seq<int>, x: int)
    requires Sorted(L) && Sorted(R)
    requires (L != [] ==> x <= L[0]) && (R != [] ==> x <= R[0])
    decreases |L| + |R|
    ensures forall k :: 0 <= k < |Merged(L, R)| ==> x <= Merged(L, R)[k]
  {
    if L == [] {
    } else if R == [] {
    } else if L[0] <= R[0] {
      MergedAbove(L[1..], R, x);
    } else {
      MergedAbove(L, R[1..], x);
    }
  }

  /** Merging two sorted sequences gives a sorted sequence. */
  lemma {:induction false} MergedSorted(L: seq<int>, R: seq<int>)
    requires Sorted(L) && Sorted(R)
    decreases |L| + |R|
    ensures Sorted(Merged(L, R))
  {
    if L != [] && R != [] {
      var m := Merged(L, R);
      var h, t;
      if L[0] <= R[0] {
        h, t := L[0], Merged(L[1..], R);
        MergedSorted(L[1..], R);
        MergedAbove(L[1..], R, L[0]);
      } else {
        h, t := R[0], Merged(L, R[1..]);
        MergedSorted(L, R[1..]);
        MergedAbove(L, R[1..], R[0]);
      }
      HeadSorted(h, t);
    }
  }

  /** A sorted sequence behind a value no larger than any of its own is sorted. */
  lemma HeadSorted(h: int, t: seq<int>)
    requires Sorted(t) && forall k :: 0 <= k < |t| ==> h <= t[k]
    ensures Sorted([h] + t)
  {
  }

  /** Halves already in order (the left's last at most the right's first) merge to their concatenation. */
  lemma {:induction false} MergedOrderedHalves(L: seq<int>, R: seq<int>)
    requires Sorted(L) && Sorted(R)
    requires forall x, y :: 0 <= x < |L| && 0 <= y < |R| ==> L[x] <= R[y]
    decreases |L|
    ensures Merged(L, R) == L + R
  {
    if L != [] && R != [] {
      MergedOrderedHalves(L[1..], R);
      assert L == [L[0]] + L[1..];
    }
  }

  /** One step of the main loop of `merge`, from the left half. */
  lemma MergedTakeLeft(L: seq<int>, R: seq<int>, i: int, j: int)
    requires 0 <= i < |L| && 0 <= j < |R| && L[i] <= R[j]
    ensures Merged(L[i..], R[j..]) == [L[i]] + Merged(L[i + 1..], R[j..])
  {
    assert L[i..][1..] == L[i + 1..];
  }

  /** One step of the main loop of `merge`, from the right half. */
  lemma MergedTakeRight(L: seq<int>, R: seq<int>, i: int, j: int)
    requires 0 <= i < |L| && 0 <= j < |R| && L[i] > R[j]
    ensures Merged(L[i..], R[j..]) == [R[j]] + Merged(L[i..], R[j + 1..])
  {
    assert R[j..][1..] == R[j + 1..];
  }

  /**
   * s after the first w values of the merge m were written from position left on: the
   * positions after them still hold their values from before.
   */
  function Written(s: seq<int>, left: int, m: seq<int>, w: int): (r: seq<int>)
    requires 0 <= left && 0 <= w <= |m| && left + w <= |s|
    ensures |r| == |s|
  {
    seq(|s|, k requires 0 <= k < |s| => if left <= k < left + w then m[k - left] else s[k])
  }

  /** Writing the next value of the merge at its position. */
  lemma WrittenStep(s: seq<int>, left: int, m: seq<int>, w: int)
    requires 0 <= left && 0 <= w < |m| && left + w < |s|
    ensures Written(s, left, m, w)[left + w := m[w]] == Written(s, left, m, w + 1)
  {
  }

  /** Writing a prefix of the merge changes nothing outside the merge's range. */
  lemma WrittenOutside(s: seq<int>, left: int, m: seq<int>, w: int, hi: int)
    requires 0 <= left && 0 <= w <= |m| && hi == left + |m| <= |s|
    ensures SameOutside(s, Written(s, left, m, w), left, hi)
  {
  }

  /** All of the merge written: the range holds the merge. */
  lemma WrittenAll(s: seq<int>, left: int, m: seq<int>, hi: int)
    requires 0 <= left && hi == left + |m| <= |s|
    ensures Written(s, left, m, |m|)[left..hi] == m
  {
  }

  /**
   * `for (let i = 0; i < n; i++) L[i] = arr[lo + i]` with its access count: a copy of
   * a[lo..hi), and only the tally moves.
   */
  method CopyOut(a: seq<int>, lo: int, hi: int, run0: Run) returns (L: seq<int>, run: Run)
    requires 0 <= lo <= hi <= |a|
    ensures L == a[lo..hi]
    ensures OnlyTallied(run0, run)
  {
    L, run := [], run0;
    var k := lo;
    while k < hi
      invariant lo <= k <= hi && L == a[lo..k]
      invariant OnlyTallied(run0, run)
    {
      L := L + [a[k]];
      run := run.Touch(k);
      k := k + 1;
    }
  }

  /**
   * The main loop of `merge` (lib/algorithms.tsx:690-724): while both halves have values
   * left, read the flag, count a comparison, write the smaller head (the left one on a
   * tie) and count the write as a swap. What is written is the beginning of Merged(L, R);
   * it returns how much was written, w = i + j, and the half V with values left from
   * index v0 on, which are the rest of the merge.
   */
  method MergeFront(a: array<int>, left: int, hi: int, L: seq<int>, R: seq<int>, ghost s: seq<int>, ghost m: seq<int>,
                    run0: Run, cancel: Cancel)
    returns (w: int, V: seq<int>, v0: int, run: Run)
    requires 0 <= left && hi == left + |L| + |R| <= a.Length && |L| > 0 && |R| > 0
    requires a[..] == s && m == Merged(L, R)
    requires run0.Valid(a.Length, cancel) && !run0.cancelled && run0.shown == a[..]
    modifies a
    ensures 0 <= v0 <= |V| && 0 <= w < |m|
    ensures a[..] == Written(s, left, m, w) && SameOutside(s, a[..], left, hi)
    ensures !run.cancelled ==> w + (|V| - v0) == |m| && m[w..] == V[v0..] && (|L| <= w || |R| <= w)
    ensures run.Valid(a.Length, cancel) && run.shown == a[..] && Grows(run0, run)
    ensures run.comparisons == run0.comparisons + w && run.swaps == run0.swaps + w
  {
    var i, j := 0, 0;
    run := run0;
    assert Written(s, left, m, 0) == s;
    while i < |L| && j < |R|
      invariant 0 <= i <= |L| && 0 <= j <= |R| && (i < |L| || j < |R|)
      invariant a[..] == Written(s, left, m, i + j)
      invariant m[i + j..] == Merged(L[i..], R[j..])
      invariant run.Valid(a.Length, cancel) && !run.cancelled && run.shown == a[..] && Grows(run0, run)
      invariant run.comparisons == run0.comparisons + (i + j) && run.swaps == run0.swaps + (i + j)
    {
      run := run.Poll(cancel);
      if run.cancelled {
        WrittenOutside(s, left, m, i + j, hi);
        w, V, v0 := i + j, L, i;
        return;
      }
      i, j, run := MergeStep(a, left, L, R, s, m, i, j, run, cancel);
    }
    WrittenOutside(s, left, m, i + j, hi);
    w := i + j;
    if j == |R| {
      assert R[j..] == [];
      V, v0 := L, i;
    } else {
      assert L[i..] == [];
      V, v0 := R, j;
    }
  }

  /**
   * One round of the main loop of `merge` after its read of the flag: count the
   * comparison, write the smaller head (the left one on a tie), count the write.
   */
  method MergeStep(a: array<int>, left: int, L: seq<int>, R: seq<int>, ghost s: seq<int>, ghost m: seq<int>,
                   i0: int, j0: int, run0: Run, cancel: Cancel)
    returns (i: int, j: int, run: Run)
    requires 0 <= left && left + |L| + |R| <= a.Length == |s| && |m| == |L| + |R|
    requires 0 <= i0 < |L| && 0 <= j0 < |R|
    requires a[..] == Written(s, left, m, i0 + j0) && m[i0 + j0..] == Merged(L[i0..], R[j0..])
    requires run0.Valid(a.Length, cancel) && !run0.cancelled
    modifies a
    ensures (i == i0 + 1 && j == j0) || (i == i0 && j == j0 + 1)
    ensures a[..] == Written(s, left, m, i + j) && m[i + j..] == Merged(L[i..], R[j..])
    ensures run.Valid(a.Length, cancel) && !run.cancelled && run.shown == a[..] && Grows(run0, run)
    ensures run.comparisons == run0.comparisons + 1 && run.swaps == run0.swaps + 1 && run.polls == run0.polls
  {
    var k := left + i0 + j0;
    WrittenStep(s, left, m, i0 + j0);
    if L[i0] <= R[j0] {
      MergedTakeLeft(L, R, i0, j0);
      assert m[i0 + j0..][1..] == m[i0 + 1 + j0..];
      Put(a, k, L[i0]);
      i, j := i0 + 1, j0;
    } else {
      MergedTakeRight(L, R, i0, j0);
      assert m[i0 + j0..][1..] == m[i0 + j0 + 1..];
      Put(a, k, R[j0]);
      i, j := i0, j0 + 1;
    }
    run := run0.Compare().Touch(k).Swap().Publish(a[..]);
  }

  /**
   * One of the two copy-back loops of `merge` (lib/algorithms.tsx:725-761): while the
   * half V has values left (the other half being used up), read the flag and write the
   * next one, counted as a swap. It writes the rest of the merge.
   */
  method Drain(a: array<int>, left: int, hi: int, ghost s: seq<int>, ghost m: seq<int>, V: seq<int>, w0: int, v0: int,
               run0: Run, cancel: Cancel)
    returns (v: int, run: Run)
    requires 0 <= left && 0 <= v0 <= |V| && 0 <= w0 && w0 + (|V| - v0) == |m| && hi == left + |m| <= a.Length == |s|
    requires a[..] == Written(s, left, m, w0) && m[w0..] == V[v0..]
    requires run0.Valid(a.Length, cancel) && !run0.cancelled && run0.shown == a[..]
    modifies a
    ensures SameOutside(s, a[..], left, hi)
    ensures !run.cancelled ==> a[..][left..hi] == m
    ensures run.Valid(a.Length, cancel) && run.shown == a[..] && Grows(run0, run)
    ensures run.comparisons == run0.comparisons && run.swaps == run0.swaps + (v - v0)
    ensures !run.cancelled ==> v == |V|
  {
    v, run := v0, run0;
    while v < |V|
      invariant v0 <= v <= |V|
      invariant a[..] == Written(s, left, m, w0 + (v - v0))
      invariant m[w0 + (v - v0)..] == V[v..]
      invariant run.Valid(a.Length, cancel) && !run.cancelled && run.shown == a[..] && Grows(run0, run)
      invariant run.comparisons == run0.comparisons && run.swaps == run0.swaps + (v - v0)
      invariant run.polls == run0.polls + (v - v0)
    {
      run := run.Poll(cancel);
      if run.cancelled {
        WrittenOutside(s, left, m, w0 + (v - v0), hi);
        return;
      }
      var k := left + w0 + (v - v0);
      WrittenStep(s, left, m, w0 + (v - v0));
      assert m[w0 + (v - v0)] == V[v];
      Put(a, k, V[v]);
      v := v + 1;
      run := run.Touch(k).Swap().Publish(a[..]);
    }
    WrittenOutside(s, left, m, w0 + (v - v0), hi);
    WrittenAll(s, left, m, hi);
  }

  /**
   * `merge(arr, left, mid, right)` (lib/algorithms.tsx:669-762): copy out both halves,
   * then write back their merge. Run to the end it leaves the stable merge of the two
   * halves in [left, right], with one swap counted per write and between min(n1, n2) and
   * n1 + n2 - 1 comparisons; it never writes outside the range, and nothing at all once
   * the flag was seen before the call.
   */
  method Merge(a: array<int>, left: int, mid: int, right: int, run0: Run, cancel: Cancel) returns (run: Run)
    requires 0 <= left <= mid < right < a.Length
    requires run0.Valid(a.Length, cancel) && run0.shown == a[..]
    modifies a
    ensures SameOutside(old(a[..]), a[..], left, right + 1)
    ensures run.Valid(a.Length, cancel) && run.shown == a[..] && Grows(run0, run)
    ensures !run.cancelled ==> a[..][left..right + 1] == Merged(old(a[..])[left..mid + 1], old(a[..])[mid + 1..right + 1])
    ensures !run.cancelled ==> run.swaps == run0.swaps + (right + 1 - left)
    ensures !run.cancelled ==> run0.comparisons + (mid + 1 - left) <= run.comparisons || run0.comparisons + (right - mid) <= run.comparisons
    ensures run.comparisons <= run0.comparisons + (right - left)
    ensures run0.cancelled ==> a[..] == old(a[..])
  {
    var s := a[..];
    var L, R;
    L, run := CopyOut(s, left, mid + 1, run0);
    R, run := CopyOut(s, mid + 1, right + 1, run);
    assert |L| == mid + 1 - left && |R| == right - mid;
    if run.cancelled {
      // the first read of the main loop sees the flag again
      run := run.PollAgain(cancel);
      return;
    }
    run := WriteBack(a, left, right + 1, L, R, run, cancel);
    assert L == old(a[..])[left..mid + 1] && R == old(a[..])[mid + 1..right + 1];
  }

  /**
   * The write-back part of `merge` (lib/algorithms.tsx:696-761): the main loop, then the
   * copy loop of the half with values left. Run to the end, [left, hi) holds the merge,
   * each write is counted as a swap, and the comparisons number at least the shorter
   * half and fewer than both together.
   */
  method WriteBack(a: array<int>, left: int, hi: int, L: seq<int>, R: seq<int>, run0: Run, cancel: Cancel) returns (run: Run)
    requires 0 <= left && hi == left + |L| + |R| <= a.Length && |L| > 0 && |R| > 0
    requires run0.Valid(a.Length, cancel) && !run0.cancelled && run0.shown == a[..]
    modifies a
    ensures SameOutside(old(a[..]), a[..], left, hi)
    ensures run.Valid(a.Length, cancel) && run.shown == a[..] && Grows(run0, run)
    ensures !run.cancelled ==> a[..][left..hi] == Merged(L, R) && run.swaps == run0.swaps + (hi - left)
    ensures !run.cancelled ==> run0.comparisons + |L| <= run.comparisons || run0.comparisons + |R| <= run.comparisons
    ensures run.comparisons < run0.comparisons + (hi - left)
  {
    ghost var s := a[..];
    ghost var m := Merged(L, R);
    var w, V, v0;
    w, V, v0, run := MergeFront(a, left, hi, L, R, s, m, run0, cancel);
    if run.cancelled {
      return;
    }
    // only the copy loop of the half with values left has anything to do
    var v;
    v, run := Drain(a, left, hi, s, m, V, w, v0, run, cancel);
  }

  /**
   * After mergeSort(left, mid), mergeSort(mid + 1, right) and merge: the range is a
   * rearrangement of what it held after the second call.
   */
  lemma MergeHalvesPermute(s2: seq<int>, s3: seq<int>, left: int, mid: int, right: int)
    requires 0 <= left <= mid < right < |s2|
    requires SameOutside(s2, s3, left, right + 1) && s3[left..right + 1] == Merged(s2[left..mid + 1], s2[mid + 1..right + 1])
    ensures SlicePermuted(s2, s3, left, right + 1)
  {
    var L, R := s2[left..mid + 1], s2[mid + 1..right + 1];
    MergedPermutes(L, R);
    HalvesPermute(s2, s3, left, mid, right, Merged(L, R));
  }

  /** The range holding a rearrangement m of its two halves is a rearrangement of the range. */
  lemma HalvesPermute(s2: seq<int>, s3: seq<int>, left: int, mid: int, right: int, m: seq<int>)
    requires 0 <= left <= mid < right < |s2|
    requires SameOutside(s2, s3, left, right + 1) && s3[left..right + 1] == m
    requires multiset(m) == multiset(s2[left..mid + 1]) + multiset(s2[mid + 1..right + 1])
    ensures SlicePermuted(s2, s3, left, right + 1)
  {
    assert s2[left..right + 1] == s2[left..mid + 1] + s2[mid + 1..right + 1];
  }

  /** ... and it is in order when both halves were. */
  lemma MergeHalvesSorted(s1: seq<int>, s2: seq<int>, s3: seq<int>, left: int, mid: int, right: int)
    requires 0 <= left <= mid < right < |s1| == |s2| == |s3|
    requires s2[..mid + 1] == s1[..mid + 1] && SortedBetween(s1, left, mid + 1) && SortedBetween(s2, mid + 1, right + 1)
    requires s3[left..right + 1] == Merged(s2[left..mid + 1], s2[mid + 1..right + 1])
    ensures SortedBetween(s3, left, right + 1)
  {
    forall i, j | left <= i < j < mid + 1
      ensures s2[i] <= s2[j]
    {
      assert s2[i] == s2[..mid + 1][i] == s1[i] && s2[j] == s2[..mid + 1][j] == s1[j];
    }
    SortedSlice(s2, left, mid + 1);
    SortedSlice(s2, mid + 1, right + 1);
    MergedSorted(s2[left..mid + 1], s2[mid + 1..right + 1]);
    SortedSlice(s3, left, right + 1);
  }

  /** The two sorted halves and their merge give a sorted rearrangement of the whole range. */
  lemma SortedRangeJoin(s0: seq<int>, s1: seq<int>, s2: seq<int>, s3: seq<int>, left: int, mid: int, right: int)
    requires 0 <= left <= mid < right < |s0|
    requires SlicePermuted(s0, s1, left, mid + 1) && SortedBetween(s1, left, mid + 1)
    requires SlicePermuted(s1, s2, mid + 1, right + 1) && SortedBetween(s2, mid + 1, right + 1)
    requires SameOutside(s2, s3, left, right + 1) && s3[left..right + 1] == Merged(s2[left..mid + 1], s2[mid + 1..right + 1])
    ensures SlicePermuted(s0, s3, left, right + 1) && SortedBetween(s3, left, right + 1)
  {
    RangeJoinPermuted(s0, s1, s2, s3, left, mid, right);
    assert s2[..mid + 1] == s1[..mid + 1];
    MergeHalvesSorted(s1, s2, s3, left, mid, right);
  }

  /** The range after the two calls and the merge is a rearrangement of what it held before them. */
  lemma RangeJoinPermuted(s0: seq<int>, s1: seq<int>, s2: seq<int>, s3: seq<int>, left: int, mid: int, right: int)
    requires 0 <= left <= mid < right < |s0|
    requires SlicePermuted(s0, s1, left, mid + 1) && SlicePermuted(s1, s2, mid + 1, right + 1)
    requires SameOutside(s2, s3, left, right + 1) && s3[left..right + 1] == Merged(s2[left..mid + 1], s2[mid + 1..right + 1])
    ensures SlicePermuted(s0, s3, left, right + 1)
  {
    MergeHalvesPermute(s2, s3, left, mid, right);
    HalvesSortedPermuted(s0, s1, s2, left, mid, right);
    SlicePermutedTrans(s0, s2, s3, left, right + 1);
  }

  /** The two recursive calls together rearrange the range they were given. */
  lemma HalvesSortedPermuted(s0: seq<int>, s1: seq<int>, s2: seq<int>, left: int, mid: int, right: int)
    requires 0 <= left <= mid < right < |s0|
    requires SlicePermuted(s0, s1, left, mid + 1) && SlicePermuted(s1, s2, mid + 1, right + 1)
    ensures SlicePermuted(s0, s2, left, right + 1)
  {
    SlicePermutedWiden(s0, s1, left, mid + 1, left, right + 1);
    SlicePermutedWithin(s0, s1, s2, mid + 1, right + 1, left, right + 1);
  }

  /**
   * What the two recursive calls and the merge of `mergeSort` leave, put together: only
   * the range changed, and, when none of them saw the flag, it is a sorted rearrangement.
   */
  lemma SortRangeClose(s0: seq<int>, s1: seq<int>, s2: seq<int>, s3: seq<int>, left: int, mid: int, right: int,
                       c1: bool, c2: bool, c3: bool)
    requires 0 <= left <= mid < right < |s0|
    requires SameOutside(s0, s1, left, mid + 1) && SameOutside(s1, s2, mid + 1, right + 1) && SameOutside(s2, s3, left, right + 1)
    requires !c1 ==> SlicePermuted(s0, s1, left, mid + 1) && SortedBetween(s1, left, mid + 1)
    requires !c2 ==> SlicePermuted(s1, s2, mid + 1, right + 1) && SortedBetween(s2, mid + 1, right + 1)
    requires !c3 ==> s3[left..right + 1] == Merged(s2[left..mid + 1], s2[mid + 1..right + 1]) && !c1 && !c2
    ensures SameOutside(s0, s3, left, right + 1)
    ensures !c3 ==> SlicePermuted(s0, s3, left, right + 1) && SortedBetween(s3, left, right + 1)
  {
    SameOutsideWiden(s0, s1, left, mid + 1, left, right + 1);
    SameOutsideWiden(s1, s2, mid + 1, right + 1, left, right + 1);
    if !c3 {
      SortedRangeJoin(s0, s1, s2, s3, left, mid, right);
    }
  }

  /**
   * `mergeSort(arr, left, right)` (lib/algorithms.tsx:792-802): only [left, right] is
   * written, and, unless the flag was seen, it ends as a sorted rearrangement of what it
   * held; once the flag was seen before the call nothing is written.
   */
  method SortRange(a: array<int>, left: int, right: int, run0: Run, cancel: Cancel) returns (run: Run)
    requires 0 <= left <= right + 1 <= a.Length
    requires run0.Valid(a.Length, cancel) && run0.shown == a[..]
    modifies a
    decreases right - left
    ensures SameOutside(old(a[..]), a[..], left, right + 1)
    ensures run.Valid(a.Length, cancel) && run.shown == a[..] && Grows(run0, run)
    ensures !run.cancelled ==> SlicePermuted(old(a[..]), a[..], left, right + 1) && SortedBetween(a[..], left, right + 1)
    ensures run0.cancelled ==> a[..] == old(a[..])
  {
    run := run0;
    if left < right {
      var mid := (left + right) / 2;
      ghost var s0 := a[..];
      run := SortRange(a, left, mid, run, cancel);
      ghost var s1, r1 := a[..], run;
      run := SortRange(a, mid + 1, right, run, cancel);
      ghost var s2, r2 := a[..], run;
      run := Merge(a, left, mid, right, run, cancel);
      assert !run.cancelled ==> !r2.cancelled && !r1.cancelled;
      SortRangeClose(s0, s1, s2, a[..], left, mid, right, r1.cancelled, r2.cancelled, run.cancelled);
      if run0.cancelled {
        assert r1.cancelled && r2.cancelled;
      }
    } else {
      SlicePermutedRefl(a[..], left, right + 1);
    }
  }

  /**
   * The merge sort entry (lib/algorithms.tsx:617-812): `mergeSort(arr, 0, arr.length - 1)`
   * on a copy of the input. Unless the flag was seen, the result is a sorted rearrangement
   * of the input; it is always the last published snapshot and as long as the input.
   */
  method Sort(input: seq<int>, cancel: Cancel) returns (result: seq<int>, run: Run)
    ensures |result| == |input|
    ensures run.Valid(|input|, cancel) && run.shown == result
    ensures !run.cancelled ==> multiset(result) == multiset(input) && Sorted(result)
  {
    var n := |input|;
    var a := new int[n](k requires 0 <= k < n => input[k]);
    assert a[..] == input;
    run := Start(input);
    run := SortRange(a, 0, n - 1, run, cancel);
    result := a[..];
    if !run.cancelled {
      SlicePermutedWhole(input, result);
      SortedSlice(result, 0, n);
      assert result[0..n] == result;
    }
  }
}
