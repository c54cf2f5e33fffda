/**
 * Bubble, selection and insertion sort of lib/algorithms.tsx. Each works on its own copy
 * of the input (lib/algorithms.tsx:38, :165, :315), reads the cancel flag at the head of
 * every loop iteration and returns at once when it is set.
 */
module SimpleSorts {
  import opened SortCore

  /** The array after one bubble-sort step at j: arr[j] and arr[j+1] exchanged when out of order. */
  function CompareExchange(s: seq<int>, j: nat): (r: seq<int>)
    requires j + 1 < |s|
    ensures multiset(r) == multiset(s) && |r| == |s|
    ensures r[j] <= r[j + 1]
  {
    if s[j] > s[j + 1] then Exchange(s, j, j + 1) else s
  }

  /** A bubble-sort step removes exactly the inversion it repairs, if any. */
  lemma CompareExchangeInversions(s: seq<int>, j: nat)
    requires j + 1 < |s|
    ensures Inversions(CompareExchange(s, j)) + (if s[j] > s[j + 1] then 1 else 0) == Inversions(s)
  {
    if s[j] > s[j + 1] {
      InversionsSwapAdjacent(s, j);
    }
  }

  /** s[j] is the largest of s[0..j]. */
  predicate MaxAt(s: seq<int>, j: nat)
    requires j < |s|
  {
    forall k :: 0 <= k <= j ==> s[k] <= s[j]
  }

  /** The array after the first j compare-exchange steps of a bubble-sort pass. */
  function PassSteps(s: seq<int>, j: nat): (r: seq<int>)
    requires j < |s|
    ensures |r| == |s|
  {
    if j == 0 then s else CompareExchange(PassSteps(s, j - 1), j - 1)
  }

  /** How many of the first j steps of a pass exchanged a pair. */
  function PassSwaps(s: seq<int>, j: nat): nat
    requires j < |s|
  {
    if j == 0 then 0
    else
      var t := PassSteps(s, j - 1);
      PassSwaps(s, j - 1) + (if t[j - 1] > t[j] then 1 else 0)
  }

  /** The first j steps of a pass permute the array. */
  lemma {:induction false} PassPermutes(s: seq<int>, j: nat)
    requires j < |s|
    ensures multiset(PassSteps(s, j)) == multiset(s)
  {
    if j > 0 {
      PassPermutes(s, j - 1);
    }
  }

  /** The first j steps of a pass leave everything after position j alone. */
  lemma {:induction false} PassKeepsTail(s: seq<int>, j: nat)
    requires j < |s|
    ensures forall k :: j < k < |s| ==> PassSteps(s, j)[k] == s[k]
  {
    if j > 0 {
      PassKeepsTail(s, j - 1);
    }
  }

  /** Split of a sequence around position m into its head and tail. */
  lemma PermutedHead(s: seq<int>, r: seq<int>, m: nat)
    requires |r| == |s| && m <= |s|
    requires multiset(r) == multiset(s) && r[m..] == s[m..]
    ensures multiset(r[..m]) == multiset(s[..m])
  {
    assert r == r[..m] + r[m..];
    assert s == s[..m] + s[m..];
    assert multiset(r) == multiset(r[..m]) + multiset(r[m..]);
    assert multiset(s) == multiset(s[..m]) + multiset(s[m..]);
    assert multiset(r[..m]) == multiset(r) - multiset(r[m..]);
  }

  /** The first j steps of a pass carry the largest of s[..j+1] to position j. */
  lemma {:induction false} PassCarriesMax(s: seq<int>, j: nat)
    requires j < |s|
    ensures MaxAt(PassSteps(s, j), j)
  {
    if j > 0 {
      PassCarriesMax(s, j - 1);
    }
  }

  /** Each exchange made by the first j steps of a pass removes one inversion. */
  lemma {:induction false} PassRemovesInversions(s: seq<int>, j: nat)
    requires j < |s|
    ensures Inversions(PassSteps(s, j)) + PassSwaps(s, j) == Inversions(s)
    ensures PassSwaps(s, j) <= j
  {
    if j > 0 {
      PassRemovesInversions(s, j - 1);
      CompareExchangeInversions(PassSteps(s, j - 1), j - 1);
    }
  }

  /** A pass that has exchanged nothing has left the array as it was. */
  lemma {:induction false} PassQuietKeeps(s: seq<int>, j: nat)
    requires j < |s|
    ensures PassSwaps(s, j) == 0 ==> PassSteps(s, j) == s
  {
    if j > 0 {
      PassQuietKeeps(s, j - 1);
    }
  }

  /**
   * The first j steps of a pass exchange nothing exactly when s[..j+1] is already in
   * order.
   */
  lemma {:induction false} PassQuietIffSorted(s: seq<int>, j: nat)
    requires j < |s|
    ensures PassSwaps(s, j) == 0 <==> SortedBetween(s, 0, j + 1)
  {
    if j > 0 {
      PassQuietIffSorted(s, j - 1);
      PassQuietKeeps(s, j - 1);
      if SortedBetween(s, 0, j + 1) {
        assert SortedBetween(s, 0, j) && s[j - 1] <= s[j];
      }
      if PassSwaps(s, j) == 0 {
        SortedExtend(s, j);
      }
    }
  }

  /** An ordered s[..j] whose last entry is at most s[j] extends to an ordered s[..j+1]. */
  lemma SortedExtend(s: seq<int>, j: nat)
    requires 0 < j < |s| && SortedBetween(s, 0, j) && s[j - 1] <= s[j]
    ensures SortedBetween(s, 0, j + 1)
  {
    forall p, q | 0 <= p < q < j + 1
      ensures s[p] <= s[q]
    {
      if q == j && p < j - 1 {
        assert s[p] <= s[j - 1];
      }
    }
  }

  /** Permuting the part before a settled suffix keeps it settled. */
  lemma PrefixPermutationKeepsSplit(s: seq<int>, r: seq<int>, m: nat)
    requires |r| == |s| && m <= |s|
    requires multiset(r[..m]) == multiset(s[..m]) && r[m..] == s[m..]
    requires SortedBetween(s, m, |s|) && SplitAt(s, m)
    ensures SortedBetween(r, m, |s|) && SplitAt(r, m)
  {
    forall i, j | 0 <= i < m <= j < |r|
      ensures r[i] <= r[j]
    {
      assert r[i] in multiset(r[..m]) by { assert r[i] == r[..m][i]; }
      var i' :| 0 <= i' < m && s[..m][i'] == r[i];
      assert r[j] == r[m..][j - m] == s[j];
    }
    forall i, j | m <= i < j < |r|
      ensures r[i] <= r[j]
    {
      assert r[i] == r[m..][i - m] && r[j] == r[m..][j - m];
    }
  }

  /** A finished pass has moved the boundary of the settled suffix one place left. */
  lemma PassEnd(s: seq<int>, m: nat)
    requires 0 < m <= |s| && MaxAt(s, m - 1)
    requires SortedBetween(s, m, |s|) && SplitAt(s, m)
    ensures SortedBetween(s, m - 1, |s|) && SplitAt(s, m - 1)
  {
  }

  /** An ordered head and an ordered tail, split at m, make an ordered whole. */
  lemma SortedFromParts(s: seq<int>, m: nat)
    requires m <= |s| && SortedBetween(s, 0, m) && SortedBetween(s, m, |s|) && SplitAt(s, m)
    ensures Sorted(s)
  {
  }

  /** A completed pass over s[..m] settles one more element at the end. */
  lemma PassSettles(s: seq<int>, m: nat)
    requires 0 < m <= |s| && SortedBetween(s, m, |s|) && SplitAt(s, m)
    ensures SortedBetween(PassSteps(s, m - 1), m - 1, |s|) && SplitAt(PassSteps(s, m - 1), m - 1)
  {
    var r := PassSteps(s, m - 1);
    PassPermutes(s, m - 1);
    PassKeepsTail(s, m - 1);
    assert r[m..] == s[m..];
    PermutedHead(r, s, m);
    PrefixPermutationKeepsSplit(s, r, m);
    PassCarriesMax(s, m - 1);
    PassEnd(r, m);
  }

  /**
   * One inner step of bubble sort (lib/algorithms.tsx:90-127): tally both positions, count
   * the comparison, and exchange arr[j] and arr[j+1] when arr[j] > arr[j+1], publishing the
   * new array and counting the swap.
   */
  method BubbleStep(a: array<int>, j: nat, run0: Run, ghost cancel: Cancel) returns (run: Run, didSwap: bool)
    requires j + 1 < a.Length
    requires run0.Valid(a.Length, cancel) && !run0.cancelled && run0.shown == a[..]
    modifies a
    ensures a[..] == CompareExchange(old(a[..]), j)
    ensures run.Valid(a.Length, cancel) && !run.cancelled && run.shown == a[..]
    ensures Grows(run0, run) && run.comparisons == run0.comparisons + 1 && run.polls == run0.polls
    ensures didSwap == (old(a[j]) > old(a[j + 1]))
    ensures run.swaps == run0.swaps + (if didSwap then 1 else 0)
  {
    run := run0.Touch(j).Touch(j + 1).Compare();
    didSwap := a[j] > a[j + 1];
    if didSwap {
      a[j], a[j + 1] := a[j + 1], a[j];
      run := run.Publish(a[..]).Swap();
    }
  }

  /**
   * Pass i of bubble sort (lib/algorithms.tsx:82-128): compares arr[j] with arr[j+1] for
   * j < n-i-1 and swaps them when arr[j] > arr[j+1], reading the cancel flag before each
   * comparison. Completed, it has made the n-i-1 steps of PassSteps.
   */
  method BubblePass(a: array<int>, i: nat, run0: Run, cancel: Cancel) returns (run: Run, swapped: bool, steps: nat)
    requires i + 1 < a.Length
    requires run0.Valid(a.Length, cancel) && !run0.cancelled && run0.shown == a[..]
    modifies a
    ensures steps <= a.Length - i - 1 && a[..] == PassSteps(old(a[..]), steps)
    ensures !run.cancelled ==> steps == a.Length - i - 1
    ensures run.Valid(a.Length, cancel) && run.shown == a[..] && Grows(run0, run)
    ensures run.cancelled ==> cancel == FromPoll(run.polls - 1)
    ensures run.comparisons == run0.comparisons + steps
    ensures run.swaps == run0.swaps + PassSwaps(old(a[..]), steps)
    ensures swapped == (PassSwaps(old(a[..]), steps) > 0)
  {
    var n := a.Length;
    ghost var s := a[..];
    run := run0;
    swapped := false;
    steps := 0;
    while steps < n - i - 1
      invariant 0 <= steps <= n - i - 1
      invariant a[..] == PassSteps(s, steps)
      invariant run.Valid(n, cancel) && !run.cancelled && run.shown == a[..] && Grows(run0, run)
      invariant run.comparisons == run0.comparisons + steps
      invariant run.swaps == run0.swaps + PassSwaps(s, steps)
      invariant swapped == (PassSwaps(s, steps) > 0)
    {
      run := run.Poll(cancel);
      if run.cancelled {
        return;
      }
      var didSwap;
      run, didSwap := BubbleStep(a, steps, run, cancel);
      swapped := swapped || didSwap;
      steps := steps + 1;
    }
  }

  /**
   * Pass i of bubble sort seen from the outer loop: with the last i places settled, a
   * completed pass settles one more; the array stays a permutation and every swap removes
   * one inversion; the pass swaps nothing exactly when the unsettled part was in order,
   * and then the whole array is sorted.
   */
  method BubbleRound(a: array<int>, i: nat, run0: Run, cancel: Cancel) returns (run: Run, swapped: bool)
    requires i + 1 < a.Length
    requires run0.Valid(a.Length, cancel) && !run0.cancelled && run0.shown == a[..]
    requires SortedBetween(a[..], a.Length - i, a.Length) && SplitAt(a[..], a.Length - i)
    modifies a
    ensures multiset(a[..]) == multiset(old(a[..]))
    ensures run.Valid(a.Length, cancel) && run.shown == a[..] && Grows(run0, run)
    ensures run.cancelled ==> cancel == FromPoll(run.polls - 1)
    ensures run.swaps + Inversions(a[..]) == run0.swaps + Inversions(old(a[..]))
    ensures run.swaps - run0.swaps <= run.comparisons - run0.comparisons
    ensures !run.cancelled ==> run.comparisons == run0.comparisons + (a.Length - i - 1)
    ensures !run.cancelled ==> SortedBetween(a[..], a.Length - i - 1, a.Length) && SplitAt(a[..], a.Length - i - 1)
    ensures !run.cancelled ==> (swapped <==> !SortedBetween(old(a[..]), 0, a.Length - i))
    ensures !run.cancelled && swapped ==> !Sorted(old(a[..]))
    ensures !run.cancelled && !swapped ==> Sorted(a[..]) && run.swaps == run0.swaps
  {
    ghost var s := a[..];
    var steps;
    run, swapped, steps := BubblePass(a, i, run0, cancel);
    PassPermutes(s, steps);
    PassRemovesInversions(s, steps);
    if !run.cancelled {
      PassSettles(s, a.Length - i);
      PassQuietIffSorted(s, steps);
      PassQuietKeeps(s, steps);
      if !swapped {
        SortedFromParts(a[..], a.Length - i);
      }
    }
  }

  /**
   * Bubble sort with early exit (lib/algorithms.tsx:70-133). Run to completion it sorts;
   * either way it only exchanges adjacent inverted pairs, so the result is a permutation
   * and is what the display shows, and the swap count is the number of inversions it
   * removed. It stops at the first read that sees the cancel flag. A pass without a swap
   * ends the sort, so a sorted input costs one pass of n-1 comparisons.
   */
  method BubbleSort(input: seq<int>, cancel: Cancel) returns (result: seq<int>, run: Run)
    ensures multiset(result) == multiset(input)
    ensures run.Valid(|input|, cancel) && run.shown == result
    ensures !run.cancelled ==> Sorted(result)
    ensures run.cancelled ==> cancel == FromPoll(run.polls - 1)
    ensures run.swaps + Inversions(result) == Inversions(input)
    ensures !run.cancelled ==> run.swaps == Inversions(input)
    ensures run.swaps <= run.comparisons
    ensures !run.cancelled && Sorted(input) && |input| > 1 ==> run.comparisons == |input| - 1 && run.swaps == 0
  {
    var n := |input|;
    var a := new int[n](k requires 0 <= k < n => input[k]);
    assert a[..] == input;
    run := Start(input);
    var i := 0;
    while i < n - 1
      invariant 0 <= i && (n > 0 ==> i <= n - 1)
      invariant multiset(a[..]) == multiset(input)
      invariant run.Valid(n, cancel) && !run.cancelled && run.shown == a[..]
      invariant SortedBetween(a[..], n - i, n) && SplitAt(a[..], n - i)
      invariant run.swaps + Inversions(a[..]) == Inversions(input)
      invariant run.swaps <= run.comparisons
      invariant i == 0 ==> a[..] == input && run.swaps == 0 && run.comparisons == 0
      invariant i > 0 ==> !Sorted(input)
    {
      run := run.Poll(cancel);
      if run.cancelled {
        result := a[..];
        return;
      }
      var swapped;
      run, swapped := BubbleRound(a, i, run, cancel);
      if run.cancelled || !swapped {
        result := a[..];
        if !run.cancelled {
          SortedHasNoInversions(result);
        }
        return;
      }
      i := i + 1;
    }
    result := a[..];
    if n > 0 {
      SortedFromParts(result, 1);
    }
    SortedHasNoInversions(result);
  }

  /**
   * The scan of one selection-sort pass (lib/algorithms.tsx:214-248): compares arr[j] with
   * arr[minIndex] for every j > i and moves minIndex on a strictly smaller value, so it
   * ends on the first occurrence of the minimum of arr[i..].
   */
  method FindMin(a: array<int>, i: nat, run0: Run, cancel: Cancel) returns (minIndex: nat, run: Run)
    requires i < a.Length
    requires run0.Valid(a.Length, cancel) && !run0.cancelled
    ensures i <= minIndex < a.Length
    ensures run.Valid(a.Length, cancel) && Grows(run0, run) && run.swaps == run0.swaps && run.shown == run0.shown
    ensures run.cancelled ==> cancel == FromPoll(run.polls - 1)
    ensures !run.cancelled ==> run.comparisons == run0.comparisons + (a.Length - i - 1)
    ensures !run.cancelled ==> forall k :: i <= k < a.Length ==> a[minIndex] <= a[k]
    ensures !run.cancelled ==> forall k :: i <= k < minIndex ==> a[minIndex] < a[k]
  {
    minIndex := i;
    run := run0;
    var j := i + 1;
    while j < a.Length
      invariant i + 1 <= j <= a.Length && i <= minIndex < j
      invariant forall k :: i <= k < j ==> a[minIndex] <= a[k]
      invariant forall k :: i <= k < minIndex ==> a[minIndex] < a[k]
      invariant run.Valid(a.Length, cancel) && !run.cancelled && Grows(run0, run)
      invariant run.swaps == run0.swaps && run.shown == run0.shown
      invariant run.comparisons == run0.comparisons + (j - i - 1)
    {
      run := run.Poll(cancel);
      if run.cancelled {
        return;
      }
      run := run.Compare().Touch(j).Touch(minIndex);
      if a[j] < a[minIndex] {
        minIndex := j;
      }
      j := j + 1;
    }
  }

  /** Twice the comparisons selection sort makes before pass i over n elements. */
  function SelectionComparisons(n: nat, i: nat): nat
    requires i <= n
  {
    if i == 0 then 0 else SelectionComparisons(n, i - 1) + (n - i)
  }

  /** Selection sort compares every pair once: n(n-1)/2 comparisons in all. */
  lemma {:induction false} SelectionComparisonsTotal(n: nat, i: nat)
    requires i <= n
    ensures 2 * SelectionComparisons(n, i) == i * (2 * n - i - 1)
  {
    if i > 0 {
      SelectionComparisonsTotal(n, i - 1);
    }
  }

  /**
   * Moving a minimum of s[i..] to position i extends the settled prefix by one place.
   */
  lemma SelectStepSettles(s: seq<int>, i: nat, m: nat)
    requires i <= m < |s|
    requires SortedBetween(s, 0, i) && SplitAt(s, i)
    requires forall k :: i <= k < |s| ==> s[m] <= s[k]
    ensures SortedBetween(Exchange(s, i, m), 0, i + 1) && SplitAt(Exchange(s, i, m), i + 1)
  {
    var r := Exchange(s, i, m);
    forall p, q | 0 <= p < i + 1 <= q < |r|
      ensures r[p] <= r[q]
    {
      if p < i {
        assert r[p] == s[p];
        if q == m { assert r[q] == s[i]; } else { assert r[q] == s[q]; }
      } else {
        if q == m { assert r[q] == s[i]; } else { assert r[q] == s[q]; }
      }
    }
    forall p, q | 0 <= p < q < i + 1
      ensures r[p] <= r[q]
    {
      assert r[p] == s[p];
      if q < i { assert r[q] == s[q]; }
    }
  }

  /**
   * Pass i of selection sort (lib/algorithms.tsx:201-272 without the loop head): tally
   * position i, find the first minimum of arr[i..], and exchange it into position i when it
   * lies elsewhere, counting the swap and publishing. Completed, the settled prefix grows by
   * one; stopped by the flag, the array is untouched. A pass over an ordered suffix, and the
   * last pass, exchange nothing.
   */
  method SelectionRound(a: array<int>, i: nat, run0: Run, cancel: Cancel) returns (run: Run)
    requires i < a.Length
    requires run0.Valid(a.Length, cancel) && !run0.cancelled && run0.shown == a[..]
    requires SortedBetween(a[..], 0, i) && SplitAt(a[..], i)
    modifies a
    ensures multiset(a[..]) == multiset(old(a[..]))
    ensures run.Valid(a.Length, cancel) && run.shown == a[..] && Grows(run0, run)
    ensures run.cancelled ==> cancel == FromPoll(run.polls - 1) && a[..] == old(a[..])
    ensures !run.cancelled ==> run.comparisons == run0.comparisons + (a.Length - i - 1)
    ensures !run.cancelled ==> SortedBetween(a[..], 0, i + 1) && SplitAt(a[..], i + 1)
    ensures run.swaps == run0.swaps || (run.swaps == run0.swaps + 1 && i + 1 < a.Length)
    ensures SortedBetween(old(a[..]), i, a.Length) ==> a[..] == old(a[..]) && run.swaps == run0.swaps
  {
    var minIndex;
    minIndex, run := FindMin(a, i, run0.Touch(i), cancel);
    if run.cancelled {
      return;
    }
    FirstMinOfSorted(a[..], i, minIndex);
    if minIndex != i {
      run := SelectSwap(a, i, minIndex, run, cancel);
    } else {
      SelectStepSettles(a[..], i, i);
      assert Exchange(a[..], i, i) == a[..];
    }
  }

  /** In an ordered suffix the first minimum is its first entry. */
  lemma FirstMinOfSorted(s: seq<int>, i: nat, m: nat)
    requires i <= m < |s| && forall k :: i <= k < m ==> s[m] < s[k]
    ensures SortedBetween(s, i, |s|) ==> m == i
  {
    if m != i {
      assert s[m] < s[i];
    }
  }

  /**
   * The exchange of a selection pass (lib/algorithms.tsx:251-270): the first minimum of
   * arr[i..] trades places with arr[i], which settles one more entry; both positions are
   * tallied, the swap counted and the array published.
   */
  method SelectSwap(a: array<int>, i: nat, m: nat, run0: Run, ghost cancel: Cancel) returns (run: Run)
    requires i < m < a.Length && forall k :: i <= k < a.Length ==> a[m] <= a[k]
    requires SortedBetween(a[..], 0, i) && SplitAt(a[..], i)
    requires run0.Valid(a.Length, cancel) && !run0.cancelled
    modifies a
    ensures multiset(a[..]) == multiset(old(a[..]))
    ensures SortedBetween(a[..], 0, i + 1) && SplitAt(a[..], i + 1)
    ensures run.Valid(a.Length, cancel) && !run.cancelled && run.shown == a[..] && Grows(run0, run)
    ensures run.comparisons == run0.comparisons && run.swaps == run0.swaps + 1
  {
    ghost var s := a[..];
    run := run0.Touch(i).Touch(m);
    SwapEntries(a, i, m);
    run := run.Swap().Publish(a[..]);
    SelectStepSettles(s, i, m);
  }

  /**
   * Selection sort (lib/algorithms.tsx:200-272): pass i finds the first minimum of
   * arr[i..] and swaps it into place only when it is elsewhere. Run to completion it sorts
   * after exactly n(n-1)/2 comparisons and fewer than n swaps; a sorted input is never
   * swapped. Cancelled, it stops at once and leaves a permutation on display.
   */
  method SelectionSort(input: seq<int>, cancel: Cancel) returns (result: seq<int>, run: Run)
    ensures multiset(result) == multiset(input)
    ensures run.Valid(|input|, cancel) && run.shown == result
    ensures !run.cancelled ==> Sorted(result)
    ensures run.cancelled ==> cancel == FromPoll(run.polls - 1)
    ensures !run.cancelled ==> 2 * run.comparisons == |input| * (|input| - 1)
    ensures run.swaps == 0 || run.swaps < |input|
    ensures Sorted(input) ==> run.swaps == 0 && result == input
  {
    var n := |input|;
    var a := new int[n](k requires 0 <= k < n => input[k]);
    assert a[..] == input;
    run := Start(input);
    var i := 0;
    while i < n
      invariant 0 <= i <= n
      invariant multiset(a[..]) == multiset(input)
      invariant SortedBetween(a[..], 0, i) && SplitAt(a[..], i)
      invariant run.Valid(n, cancel) && !run.cancelled && run.shown == a[..]
      invariant run.comparisons == SelectionComparisons(n, i)
      invariant run.swaps <= i && (run.swaps == 0 || run.swaps < n)
      invariant Sorted(input) ==> a[..] == input && run.swaps == 0
    {
      run := run.Poll(cancel);
      if run.cancelled {
        result := a[..];
        return;
      }
      run := SelectionRound(a, i, run, cancel);
      if run.cancelled {
        result := a[..];
        return;
      }
      i := i + 1;
    }
    result := a[..];
    SelectionComparisonsTotal(n, n);
  }

  /**
   * The array while insertion sort shifts s[i] left: s[h..i] has been copied one place to
   * the right and s[h] is still in place, so the value being inserted is held aside.
   */
  function Shifted(s: seq<int>, i: nat, h: nat): (r: seq<int>)
    requires h <= i < |s|
    ensures |r| == |s|
  {
    seq(|s|, k requires 0 <= k < |s| => if k <= h then s[k] else if k <= i then s[k - 1] else s[k])
  }

  /** s with s[i] moved to position h <= i and s[h..i] one place to the right. */
  function Inserted(s: seq<int>, i: nat, h: nat): (r: seq<int>)
    requires h <= i < |s|
    ensures |r| == |s|
  {
    s[..h] + [s[i]] + s[h..i] + s[i + 1..]
  }

  /** One more copy to the right moves the held-aside gap one place left. */
  lemma ShiftStep(s: seq<int>, i: nat, h: nat)
    requires 0 < h <= i < |s|
    ensures Shifted(s, i, h)[h := s[h - 1]] == Shifted(s, i, h - 1)
  {
    var r := Shifted(s, i, h)[h := s[h - 1]];
    var t := Shifted(s, i, h - 1);
    forall k | 0 <= k < |s|
      ensures r[k] == t[k]
    {
      if k < h {
      } else if k == h {
      } else if k <= i {
        assert t[k] == s[k - 1];
        assert r[k] == Shifted(s, i, h)[k] == s[k - 1];
      } else {
        assert t[k] == s[k] && r[k] == s[k];
      }
    }
  }

  /** Writing the held value into the gap completes the insertion. */
  lemma ShiftFinish(s: seq<int>, i: nat, h: nat)
    requires h <= i < |s|
    ensures Shifted(s, i, h)[h := s[i]] == Inserted(s, i, h)
  {
    var r := Shifted(s, i, h)[h := s[i]];
    var t := Inserted(s, i, h);
    forall k | 0 <= k < |s|
      ensures r[k] == t[k]
    {
      if k < h {
      } else if k == h {
      } else if k <= i {
        assert t[k] == s[k - 1];
        assert r[k] == Shifted(s, i, h)[k] == s[k - 1];
      } else {
        assert t[k] == s[k] && r[k] == s[k];
      }
    }
  }

  /** Before any copy the array is the one the pass started from. */
  lemma ShiftStart(s: seq<int>, i: nat)
    requires i < |s|
    ensures Shifted(s, i, i) == s
  {
  }

  /** Moving an element within the array keeps its multiset of values. */
  lemma InsertedPermutes(s: seq<int>, i: nat, h: nat)
    requires h <= i < |s|
    ensures multiset(Inserted(s, i, h)) == multiset(s)
  {
    assert Inserted(s, i, h) == s[..h] + [s[i]] + s[h..i] + s[i + 1..];
    assert s == s[..h] + s[h..i] + [s[i]] + s[i + 1..];
  }

  /**
   * Giving up in the middle of the shift, as the cancel check inside the `while` does, loses
   * the held value: the shift of 1 past [2, 3] stopped after its one copy leaves [2, 3, 3].
   */
  lemma ShiftLosesValue()
    ensures Shifted([2, 3, 1], 2, 1) == [2, 3, 3] && multiset(Shifted([2, 3, 1], 2, 1)) != multiset([2, 3, 1])
  {
    var r := Shifted([2, 3, 1], 2, 1);
    assert r[0] == 2 && r[1] == 3 && r[2] == 3;
    assert r == [2, 3, 3];
    assert multiset(r)[1] == 0;
  }

  /**
   * Writing the held value into the hole before giving up, wherever the shift stands, leaves
   * a rearrangement of the array the pass started from.
   */
  lemma ShiftRestored(s: seq<int>, i: nat, h: nat)
    requires h <= i < |s|
    ensures multiset(Shifted(s, i, h)[h := s[i]]) == multiset(s)
  {
    ShiftFinish(s, i, h);
    InsertedPermutes(s, i, h);
  }

  /**
   * Inserting s[i] just after the last element of the ordered prefix s[..i] that is not
   * greater than it extends the order to s[..i+1]; inserting it where it already is
   * changes nothing.
   */
  lemma InsertedSorted(s: seq<int>, i: nat, h: nat)
    requires h <= i < |s| && SortedBetween(s, 0, i)
    requires forall k :: h <= k < i ==> s[k] > s[i]
    requires h > 0 ==> s[h - 1] <= s[i]
    ensures SortedBetween(Inserted(s, i, h), 0, i + 1)
    ensures h == i ==> Inserted(s, i, h) == s
  {
    var r := Inserted(s, i, h);
    forall p, q | 0 <= p < q < i + 1
      ensures r[p] <= r[q]
    {
      if q < h {
      } else if q == h {
        if p < h - 1 { assert s[p] <= s[h - 1]; }
      } else if p < h {
        assert r[q] == s[q - 1];
      } else if p == h {
        assert r[q] == s[q - 1];
      } else {
        assert r[p] == s[p - 1] && r[q] == s[q - 1];
      }
    }
    if h == i {
      assert s == s[..i] + [s[i]] + s[i + 1..];
    }
  }

  /**
   * The inner loop of insertion sort (lib/algorithms.tsx:368-398) for the element at i:
   * while arr[j] > current it counts a comparison, copies arr[j] one place right and
   * publishes; then it writes current into the hole. Completed, the array is the old one
   * with arr[i] moved to the hole, every value it passed is greater and the one before
   * the hole is not; stopped by the cancel flag, the last copy is left without current
   * written back.
   */
  method ShiftRight(a: array<int>, i: nat, run0: Run, cancel: Cancel) returns (hole: nat, run: Run)
    requires 0 < i < a.Length
    requires run0.Valid(a.Length, cancel) && !run0.cancelled && run0.shown == a[..]
    modifies a
    ensures hole <= i
    ensures run.Valid(a.Length, cancel) && run.shown == a[..] && Grows(run0, run)
    ensures run.cancelled ==> cancel == FromPoll(run.polls - 1) && a[..] == Shifted(old(a[..]), i, hole)
    ensures !run.cancelled ==> a[..] == Inserted(old(a[..]), i, hole)
    ensures run.comparisons - run0.comparisons == run.swaps - run0.swaps == i - hole
    ensures run.polls == run0.polls + (i - hole) + (if run.cancelled then 1 else 0)
    ensures forall k :: hole <= k < i ==> old(a[k]) > old(a[i])
    ensures !run.cancelled && hole > 0 ==> old(a[hole - 1]) <= old(a[i])
    ensures old(a[i - 1]) <= old(a[i]) ==> hole == i && !run.cancelled
  {
    ghost var s := a[..];
    var current := a[i];
    hole, run := MakeRoom(a, s, i, current, run0, cancel);
    if !run.cancelled {
      WriteHole(a, s, i, hole, current);
      run := run.Publish(a[..]);
    }
  }

  /**
   * The `while` of the inner loop (lib/algorithms.tsx:368-394): every value before i
   * greater than current is copied one place right, until one is not greater or the
   * flag is seen.
   */
  method MakeRoom(a: array<int>, ghost s: seq<int>, i: nat, current: int, run0: Run, cancel: Cancel)
    returns (hole: nat, run: Run)
    requires 0 < i < a.Length && a[..] == s && current == s[i]
    requires run0.Valid(a.Length, cancel) && !run0.cancelled && run0.shown == a[..]
    modifies a
    ensures hole <= i && a[..] == Shifted(s, i, hole)
    ensures run.Valid(a.Length, cancel) && run.shown == a[..] && Grows(run0, run)
    ensures run.cancelled ==> cancel == FromPoll(run.polls - 1)
    ensures run.comparisons - run0.comparisons == run.swaps - run0.swaps == i - hole
    ensures run.polls == run0.polls + (i - hole) + (if run.cancelled then 1 else 0)
    ensures forall k :: hole <= k < i ==> s[k] > current
    ensures !run.cancelled && hole > 0 ==> s[hole - 1] <= current
    ensures s[i - 1] <= current ==> hole == i && !run.cancelled
  {
    var j: int := i - 1;
    run := run0;
    ShiftStart(s, i);
    while j >= 0 && a[j] > current
      invariant -1 <= j < i
      invariant a[..] == Shifted(s, i, j + 1)
      invariant forall k :: j + 1 <= k < i ==> s[k] > current
      invariant s[i - 1] <= current ==> j == i - 1
      invariant run.Valid(a.Length, cancel) && !run.cancelled && run.shown == Shifted(s, i, j + 1) && Grows(run0, run)
      invariant run.comparisons - run0.comparisons == run.swaps - run0.swaps == i - (j + 1)
      invariant run.polls == run0.polls + (i - (j + 1))
    {
      assert a[j] == s[j];
      run := run.Poll(cancel);
      if run.cancelled {
        hole := j + 1;
        return;
      }
      run := CopyRight(a, s, i, j, run, cancel);
      j := j - 1;
    }
    hole := j + 1;
    if j >= 0 {
      assert a[j] == s[j];
    }
  }

  /** The end of the shift: current is written into the hole, completing the insertion. */
  method WriteHole(a: array<int>, ghost s: seq<int>, i: nat, hole: nat, current: int)
    requires hole <= i < a.Length && |s| == a.Length && current == s[i] && a[..] == Shifted(s, i, hole)
    modifies a
    ensures a[..] == Inserted(s, i, hole)
  {
    a[hole] := current;
    ShiftFinish(s, i, hole);
  }

  /** One step of the shift: arr[j] is counted, copied one place right and published. */
  method CopyRight(a: array<int>, ghost s: seq<int>, i: nat, j: nat, run0: Run, ghost cancel: Cancel) returns (run: Run)
    requires j < i < a.Length && |s| == a.Length && a[..] == Shifted(s, i, j + 1)
    requires run0.Valid(a.Length, cancel) && !run0.cancelled
    modifies a
    ensures a[..] == Shifted(s, i, j)
    ensures run.Valid(a.Length, cancel) && !run.cancelled && run.shown == a[..] && Grows(run0, run)
    ensures run.comparisons == run0.comparisons + 1 && run.swaps == run0.swaps + 1 && run.polls == run0.polls
  {
    run := run0.Compare().Touch(j).Touch(j + 1);
    assert a[j] == s[j];
    a[j + 1] := a[j];
    ShiftStep(s, i, j + 1);
    run := run.Swap().Publish(a[..]);
  }

  /**
   * Pass i of insertion sort (lib/algorithms.tsx:358-407 without the loop head): tally
   * position i and insert arr[i] into the ordered prefix. Completed, the ordered prefix
   * grows by one and the array stays a permutation; when arr[i] was already in order,
   * nothing moves and nothing is counted.
   */
  method InsertionRound(a: array<int>, i: nat, run0: Run, cancel: Cancel) returns (hole: nat, run: Run)
    requires 0 < i < a.Length && SortedBetween(a[..], 0, i)
    requires run0.Valid(a.Length, cancel) && !run0.cancelled && run0.shown == a[..]
    modifies a
    ensures run.Valid(a.Length, cancel) && run.shown == a[..] && Grows(run0, run)
    ensures run.cancelled ==> cancel == FromPoll(run.polls - 1)
    ensures run.comparisons - run0.comparisons == run.swaps - run0.swaps
    ensures !run.cancelled ==> multiset(a[..]) == multiset(old(a[..])) && SortedBetween(a[..], 0, i + 1)
    ensures SortedBetween(old(a[..]), 0, i + 1) && !run.cancelled ==> a[..] == old(a[..]) && run.swaps == run0.swaps
    ensures hole <= i && run.polls == run0.polls + (i - hole) + (if run.cancelled then 1 else 0)
    ensures run.cancelled ==> a[..] == Shifted(old(a[..]), i, hole)
    ensures forall k :: hole <= k < i ==> old(a[k]) > old(a[i])
    ensures !run.cancelled && hole > 0 ==> old(a[hole - 1]) <= old(a[i])
    ensures old(a[i - 1]) <= old(a[i]) ==> hole == i && !run.cancelled
  {
    ghost var s := a[..];
    hole, run := ShiftRight(a, i, run0.Touch(i), cancel);
    if !run.cancelled {
      InsertedPermutes(s, i, hole);
      InsertedSorted(s, i, hole);
    }
  }

  /**
   * Insertion sort (lib/algorithms.tsx:352-408). Run to completion the result is sorted and
   * a permutation of the input, every comparison it counts is followed by one shift, and
   * it stops at the first read that sees the cancel flag with the display up to date.
   * A sorted input is left as it is without a single shift.
   */
  method InsertionSort(input: seq<int>, cancel: Cancel) returns (result: seq<int>, run: Run)
    ensures |result| == |input|
    ensures run.Valid(|input|, cancel) && run.shown == result
    ensures !run.cancelled ==> Sorted(result) && multiset(result) == multiset(input)
    ensures run.cancelled ==> cancel == FromPoll(run.polls - 1)
    ensures run.comparisons == run.swaps
    ensures Sorted(input) && !run.cancelled ==> run.swaps == 0 && result == input
  {
    var n := |input|;
    var a := new int[n](k requires 0 <= k < n => input[k]);
    assert a[..] == input;
    run := Start(input);
    var i := 1;
    while i < n
      invariant 1 <= i && (n > 0 ==> i <= n)
      invariant multiset(a[..]) == multiset(input)
      invariant SortedBetween(a[..], 0, i)
      invariant run.Valid(n, cancel) && !run.cancelled && run.shown == a[..]
      invariant run.comparisons == run.swaps
      invariant Sorted(input) ==> a[..] == input && run.swaps == 0
    {
      run := run.Poll(cancel);
      if run.cancelled {
        result := a[..];
        return;
      }
      var hole;
      hole, run := InsertionRound(a, i, run, cancel);
      if run.cancelled {
        result := a[..];
        return;
      }
      i := i + 1;
    }
    result := a[..];
  }

  /**
   * The lost value reached by insertion sort itself: on [2, 3, 1] with the flag first seen
   * by the fourth read of the run (numbered 3 from 0), pass 1 moves nothing, and pass 2
   * copies 3 one place right and then sees the flag at the second read of its shift. It returns with [2, 3, 3] on display, which is not
   * a rearrangement of the input. The calls are those of InsertionSort: a read at each
   * pass's head, then the pass.
   */
  method InsertionCancelShown() returns (shown: seq<int>, run: Run)
    ensures run.cancelled && shown == run.shown
    ensures shown == [2, 3, 3] && multiset(shown) != multiset([2, 3, 1])
  {
    var cancel := FromPoll(3);
    var a := new int[3];
    a[0], a[1], a[2] := 2, 3, 1;
    assert a[..] == [2, 3, 1];
    run := Start(a[..]);
    run := run.Poll(cancel);
    var hole;
    hole, run := InsertionRound(a, 1, run, cancel);
    run := run.Poll(cancel);
    assert a[..] == [2, 3, 1];
    hole, run := InsertionRound(a, 2, run, cancel);
    assert run.cancelled;
    assert hole == 1;
    ShiftLosesValue();
    shown := run.shown;
  }

}
