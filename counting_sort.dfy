/**
 * Counting sort of lib/algorithms.tsx: find the maximum, count every value, turn the
 * counts into end positions, place the entries right to left into an output array, copy
 * it back. Only non-negative integers can be counted (the count array is indexed by value).
 */
module CountingSort {
  import opened SortCore
  import opened Distribution

  /** The largest entry of a non-empty sequence. */
  function Max(s: seq<int>): (m: int)
    requires |s| > 0
    ensures m in s && forall i :: 0 <= i < |s| ==> s[i] <= m
  {
    if |s| == 1 then s[0]
    else
      var m := Max(s[..|s| - 1]);
      assert forall i :: 0 <= i < |s| - 1 ==> s[..|s| - 1][i] == s[i];
      if s[|s| - 1] > m then s[|s| - 1] else m
  }

  /**
   * The maximum scan (lib/algorithms.tsx:1099-1131): `max = arr[0]`, then for every later
   * index read the flag (and stop when it is set), tally the index, count a comparison and
   * keep the larger value. Run to the end it has the maximum after n - 1 comparisons.
   */
  method FindMax(a: array<int>, run0: Run, cancel: Cancel) returns (max: int, run: Run)
    requires a.Length > 0 && run0.Valid(a.Length, cancel) && !run0.cancelled
    ensures run.Valid(a.Length, cancel) && Grows(run0, run)
    ensures run.swaps == run0.swaps && run.shown == run0.shown
    ensures !run.cancelled ==> max == Max(a[..]) && run.comparisons == run0.comparisons + a.Length - 1
  {
    max := a[0];
    run := run0;
    var i := 1;
    while i < a.Length
      invariant 1 <= i <= a.Length
      invariant max in a[..i] && forall j :: 0 <= j < i ==> a[j] <= max
      invariant run.Valid(a.Length, cancel) && !run.cancelled && Grows(run0, run)
      invariant run.swaps == run0.swaps && run.shown == run0.shown
      invariant run.comparisons == run0.comparisons + i - 1
    {
      run := run.Poll(cancel);
      if run.cancelled {
        return;
      }
      run := run.Touch(i).Compare();
      if a[i] > max {
        max := a[i];
      }
      assert a[..i + 1] == a[..i] + [a[i]];
      i := i + 1;
    }
    assert a[..] == a[..a.Length];
    MaxUnique(a[..], max);
  }

  /** A value that occurs in s and bounds every entry is the maximum. */
  lemma MaxUnique(s: seq<int>, m: int)
    requires |s| > 0 && m in s && forall i :: 0 <= i < |s| ==> s[i] <= m
    ensures m == Max(s)
  {
  }

  /**
   * Counting sort (lib/algorithms.tsx:1049-1225) on a non-empty input of non-negative
   * integers. Run to the end, the result is the input in ascending order, shown on screen,
   * after n - 1 comparisons and n placements counted as swaps. The working array is only
   * written by the final copy, so a cancelled run leaves the input as it was.
   */
  method Sort(input: seq<int>, cancel: Cancel) returns (result: seq<int>, run: Run)
    requires |input| > 0 && forall i :: 0 <= i < |input| ==> input[i] >= 0
    ensures run.Valid(|input|, cancel)
    ensures run.cancelled ==> result == input
    ensures !run.cancelled ==> Sorted(result) && multiset(result) == multiset(input) && run.shown == result
    ensures !run.cancelled ==> run.comparisons == |input| - 1 && run.swaps == |input|
  {
    var n := |input|;
    var a := new int[n](k requires 0 <= k < n => input[k]);
    assert a[..] == input;
    result := input;
    run := Start(input);
    var max;
    max, run := FindMax(a, run, cancel);
    if run.cancelled {
      return;
    }
    var cnt := new int[max + 1](_ => 0);
    ghost var ks := a[..];
    assert KeysOf(ks, ByValue, a[..]) && KeysIn(ks, cnt.Length);
    run := CountKeys(a, cnt, ByValue, ks, run, cancel);
    if run.cancelled {
      return;
    }
    PrefixSums(cnt, ks);
    var out := new Slot[n](_ => Empty);
    run := Place(a, cnt, out, ByValue, ks, run, cancel, true);
    if run.cancelled {
      return;
    }
    ghost var g := Grouped(input, input, cnt.Length);
    CopyBack(a, out, g);
    run := run.Publish(a[..]);
    result := a[..];
    GroupedPermutes(input, input, cnt.Length);
    GroupedByValueSorted(input, cnt.Length);
  }
}
