/**
 * Heap sort of lib/algorithms.tsx:828-1039: build a max-heap bottom-up with `heapify`,
 * then repeatedly move the root to the end of the shrinking heap and sift the new root
 * down. The children of index k are 2k+1 and 2k+2.
 */
module HeapSort {
  import opened SortCore

  /** Node k of the heap s[..n) is at least each of its children. */
  predicate HeapAt(s: seq<int>, n: int, k: int)
    requires 0 <= k && n <= |s|
  {
    (2 * k + 1 < n ==> s[2 * k + 1] <= s[k]) && (2 * k + 2 < n ==> s[2 * k + 2] <= s[k])
  }

  /** Every node in [lo, n) is at least each of its children. */
  predicate Heap(s: seq<int>, n: int, lo: int)
    requires 0 <= lo && n <= |s|
  {
    forall k :: lo <= k < n ==> HeapAt(s, n, k)
  }

  /** The children of node i (inside s[..n)) are at most x. */
  predicate ChildrenAtMost(s: seq<int>, n: int, i: int, x: int)
    requires 0 <= i && n <= |s|
  {
    (2 * i + 1 < n ==> s[2 * i + 1] <= x) && (2 * i + 2 < n ==> s[2 * i + 2] <= x)
  }

  /**
   * The heap on [lo, n) is broken at most at node i, and i's children are still at most
   * i's parent (when that parent is in the range): what sifting down from i repairs.
   */
  predicate HeapExcept(s: seq<int>, n: int, lo: int, i: int)
    requires 0 <= lo <= i < n <= |s|
  {
    (forall k :: lo <= k < n && k != i ==> HeapAt(s, n, k))
    && (0 < i && lo <= (i - 1) / 2 ==> ChildrenAtMost(s, n, i, s[(i - 1) / 2]))
  }

  /** When node i is at least its children, nothing is broken any more. */
  lemma SiftDone(s: seq<int>, n: int, lo: int, i: int)
    requires 0 <= lo <= i < n <= |s| && HeapExcept(s, n, lo, i) && ChildrenAtMost(s, n, i, s[i])
    ensures Heap(s, n, lo)
  {
  }

  /**
   * Exchanging node i with its larger child c moves the break down to c: the heap on
   * [lo, n) is then broken at most at c.
   */
  lemma SiftStep(s: seq<int>, n: int, lo: int, i: int, c: int)
    requires 0 <= lo <= i < n <= |s| && HeapExcept(s, n, lo, i)
    requires (c == 2 * i + 1 || c == 2 * i + 2) && c < n
    requires s[i] <= s[c] && ChildrenAtMost(s, n, i, s[c])
    ensures HeapExcept(Exchange(s, i, c), n, lo, c)
  {
    var t := Exchange(s, i, c);
    forall k | lo <= k < n && k != c
      ensures HeapAt(t, n, k)
    {
      if k == i {
      } else if 0 < i && k == (i - 1) / 2 {
        assert HeapAt(s, n, k);
      } else {
        assert HeapAt(s, n, k);
      }
    }
    assert HeapAt(s, n, c);
  }

  /** The root of a heap is its largest value. */
  lemma {:induction false} RootIsMax(s: seq<int>, n: int, k: int)
    requires 0 <= k < n <= |s| && Heap(s, n, 0)
    ensures s[k] <= s[0]
  {
    if k > 0 {
      var p := (k - 1) / 2;
      assert HeapAt(s, n, p);
      RootIsMax(s, n, p);
    }
  }

  /**
   * The comparisons of `heapify` (lib/algorithms.tsx:881-954): starting from node i, a
   * child inside [0, n) that is strictly larger than the largest so far takes its place,
   * the left child first; each comparison comes after a read of the flag. The result is
   * node i or one of its children, and it is at least node i and both children.
   */
  method Largest(a: array<int>, n: int, i: int, run0: Run, cancel: Cancel) returns (largest: int, run: Run)
    requires 0 <= i < n <= a.Length
    requires run0.Valid(a.Length, cancel) && !run0.cancelled
    ensures largest == i || ((largest == 2 * i + 1 || largest == 2 * i + 2) && largest < n)
    ensures !run.cancelled ==> a[i] <= a[largest] && ChildrenAtMost(a[..], n, i, a[largest])
    ensures run.Valid(a.Length, cancel) && run.shown == run0.shown && Grows(run0, run)
  {
    largest := i;
    var left, right := 2 * i + 1, 2 * i + 2;
    run := run0.Touch(i);
    if left < n {
      run := run.Poll(cancel);
      if run.cancelled {
        return;
      }
      run := run.Compare().Touch(largest).Touch(left);
      if a[left] > a[largest] {
        largest := left;
      }
    }
    if right < n {
      run := run.Poll(cancel);
      if run.cancelled {
        return;
      }
      run := run.Compare().Touch(largest).Touch(right);
      if a[right] > a[largest] {
        largest := right;
      }
    }
  }

  /**
   * `heapify(arr, n, i)` (lib/algorithms.tsx:880-991): find the largest of node i and its
   * children inside [0, n); when it is a child, read the flag, exchange it with node i
   * and continue from there. It only rearranges [i, n); run to the end it repairs a heap
   * broken at i.
   */
  method Heapify(a: array<int>, n: int, i: int, ghost lo: int, run0: Run, cancel: Cancel) returns (run: Run)
    requires 0 <= lo <= i < n <= a.Length && HeapExcept(a[..], n, lo, i)
    requires run0.Valid(a.Length, cancel) && !run0.cancelled && run0.shown == a[..]
    modifies a
    decreases n - i
    ensures SlicePermuted(old(a[..]), a[..], i, n)
    ensures run.Valid(a.Length, cancel) && run.shown == a[..] && Grows(run0, run)
    ensures !run.cancelled ==> Heap(a[..], n, lo)
  {
    ghost var s := a[..];
    SlicePermutedRefl(s, i, n);
    var largest;
    largest, run := Largest(a, n, i, run0, cancel);
    if run.cancelled {
      return;
    }
    if largest != i {
      run := run.Poll(cancel);
      if run.cancelled {
        return;
      }
      run := run.Touch(i).Touch(largest);
      SwapEntries(a, i, largest);
      SiftStep(s, n, lo, i, largest);
      ExchangeInSlice(s, i, largest, i, n);
      run := run.Swap().Publish(a[..]);
      ghost var t := a[..];
      run := Heapify(a, n, largest, lo, run, cancel);
      SlicePermutedWiden(t, a[..], largest, n, i, n);
      SlicePermutedTrans(s, t, a[..], i, n);
    } else {
      SiftDone(s, n, lo, i);
    }
  }

  /**
   * The build loop of heap sort (lib/algorithms.tsx:990-997): for i from
   * floor(n/2) - 1 down to 0, read the flag (and stop when it is set), then heapify at i.
   * It only rearranges the array, and run to the end it leaves a max-heap. `stopped`
   * says that a read at the loop head saw the flag, which ends the whole sort.
   */
  method BuildHeap(a: array<int>, run0: Run, cancel: Cancel) returns (run: Run, stopped: bool)
    requires run0.Valid(a.Length, cancel) && !run0.cancelled && run0.shown == a[..]
    modifies a
    ensures SlicePermuted(old(a[..]), a[..], 0, a.Length)
    ensures run.Valid(a.Length, cancel) && run.shown == a[..] && Grows(run0, run)
    ensures stopped ==> run.cancelled
    ensures !run.cancelled ==> Heap(a[..], a.Length, 0)
  {
    ghost var s := a[..];
    var n := a.Length;
    SlicePermutedRefl(s, 0, n);
    run, stopped := run0, false;
    var i := n / 2 - 1;
    while i >= 0
      invariant -1 <= i <= n / 2 - 1
      invariant SlicePermuted(s, a[..], 0, n)
      invariant run.Valid(n, cancel) && run.shown == a[..] && Grows(run0, run)
      invariant !run.cancelled ==> Heap(a[..], n, i + 1)
    {
      run := run.Read(cancel);
      if run.cancelled {
        stopped := true;
        return;
      }
      ghost var t := a[..];
      run := Heapify(a, n, i, i, run, cancel);
      SlicePermutedWiden(t, a[..], i, n, 0, n);
      SlicePermutedTrans(s, t, a[..], 0, n);
      i := i - 1;
    }
  }

  /** Moving the root (the largest value of the heap [0, i]) to position i extends the sorted suffix by one. */
  lemma RootToEnd(s: seq<int>, i: int)
    requires 0 < i < |s| && Heap(s, i + 1, 0)
    requires SortedBetween(s, i + 1, |s|) && SplitAt(s, i + 1)
    ensures SortedBetween(Exchange(s, 0, i), i, |s|) && SplitAt(Exchange(s, 0, i), i)
    ensures HeapExcept(Exchange(s, 0, i), i, 0, 0)
  {
    var t := Exchange(s, 0, i);
    forall k | 0 <= k <= i
      ensures s[k] <= s[0]
    {
      RootIsMax(s, i + 1, k);
    }
    forall k | 0 < k < i
      ensures HeapAt(t, i, k)
    {
      assert HeapAt(s, i + 1, k);
    }
  }

  /**
   * One round of the extraction loop (lib/algorithms.tsx:1000-1028) after its read of
   * the flag: exchange the root with position i, count the swap, then heapify [0, i).
   * The sorted suffix grows by one, and run to the end the prefix is a heap again.
   */
  method ExtractRound(a: array<int>, i: int, run0: Run, cancel: Cancel) returns (run: Run)
    requires 0 < i < a.Length && Heap(a[..], i + 1, 0)
    requires SortedBetween(a[..], i + 1, a.Length) && SplitAt(a[..], i + 1)
    requires run0.Valid(a.Length, cancel) && !run0.cancelled
    modifies a
    ensures SlicePermuted(old(a[..]), a[..], 0, i + 1)
    ensures SortedBetween(a[..], i, a.Length) && SplitAt(a[..], i)
    ensures run.Valid(a.Length, cancel) && run.shown == a[..] && Grows(run0, run)
    ensures !run.cancelled ==> Heap(a[..], i, 0)
  {
    ghost var s := a[..];
    run := run0.Touch(0).Touch(i);
    SwapEntries(a, 0, i);
    RootToEnd(s, i);
    ExchangeInSlice(s, 0, i, 0, i + 1);
    run := run.Swap().Publish(a[..]);
    ghost var t := a[..];
    run := Heapify(a, i, 0, 0, run, cancel);
    KeepsSplit(t, a[..], i);
    SlicePermutedWiden(t, a[..], 0, i, 0, i + 1);
    SlicePermutedTrans(s, t, a[..], 0, i + 1);
  }

  /** Rearranging the part before a split point keeps the split and the order after it. */
  lemma KeepsSplit(s: seq<int>, r: seq<int>, i: int)
    requires 0 < i < |s| && SlicePermuted(s, r, 0, i)
    requires SortedBetween(s, i, |s|) && SplitAt(s, i)
    ensures SortedBetween(r, i, |s|) && SplitAt(r, i)
  {
    assert forall k :: i <= k < |s| ==> r[k] == r[i..][k - i] == s[i..][k - i] == s[k];
    SlicePermutedKeepsAtMost(s, r, 0, i, s[i]);
  }

  /**
   * The extraction loop of heap sort (lib/algorithms.tsx:1000-1028): for i from n - 1
   * down to 1, read the flag (and stop when it is set), move the root to i and heapify
   * [0, i). It only rearranges the array, and run to the end it leaves it sorted.
   */
  method ExtractAll(a: array<int>, run0: Run, cancel: Cancel) returns (run: Run)
    requires run0.Valid(a.Length, cancel) && run0.shown == a[..]
    requires !run0.cancelled ==> Heap(a[..], a.Length, 0)
    modifies a
    ensures SlicePermuted(old(a[..]), a[..], 0, a.Length)
    ensures run.Valid(a.Length, cancel) && run.shown == a[..] && Grows(run0, run)
    ensures !run.cancelled ==> Sorted(a[..])
  {
    ghost var s := a[..];
    var n := a.Length;
    SlicePermutedRefl(s, 0, n);
    run := run0;
    var i := n - 1;
    while i > 0
      invariant -1 <= i < n && (n > 0 ==> 0 <= i)
      invariant SlicePermuted(s, a[..], 0, n)
      invariant SortedBetween(a[..], i + 1, n) && SplitAt(a[..], i + 1)
      invariant run.Valid(n, cancel) && run.shown == a[..] && Grows(run0, run)
      invariant !run.cancelled ==> Heap(a[..], i + 1, 0)
    {
      run := run.Read(cancel);
      if run.cancelled {
        return;
      }
      ghost var t := a[..];
      run := ExtractRound(a, i, run, cancel);
      SlicePermutedWithin(s, t, a[..], 0, i + 1, 0, n);
      i := i - 1;
    }
    if n > 0 {
      SortedFromOne(a[..]);
    }
  }

  /** With the end sorted from 1 on and nothing before it larger, the whole is sorted. */
  lemma SortedFromOne(s: seq<int>)
    requires |s| > 0 && SortedBetween(s, 1, |s|) && SplitAt(s, 1)
    ensures Sorted(s)
  {
  }

  /**
   * The heap sort entry (lib/algorithms.tsx:828-1039) on a copy of the input. The array
   * is only ever rearranged by exchanges, so the result is a rearrangement of the input
   * even when the run was stopped; unless the flag was seen it is sorted.
   */
  method Sort(input: seq<int>, cancel: Cancel) returns (result: seq<int>, run: Run)
    ensures multiset(result) == multiset(input)
    ensures run.Valid(|input|, cancel) && run.shown == result
    ensures !run.cancelled ==> Sorted(result)
  {
    var n := |input|;
    var a := new int[n](k requires 0 <= k < n => input[k]);
    assert a[..] == input;
    run := Start(input);
    var stopped;
    run, stopped := BuildHeap(a, run, cancel);
    if !stopped {
      ghost var t := a[..];
      run := ExtractAll(a, run, cancel);
      SlicePermutedTrans(input, t, a[..], 0, n);
    }
    result := a[..];
    SlicePermutedWhole(input, result);
  }
}
