/**
 * Bucket sort of lib/algorithms.tsx: scan for the range, push every entry into one of
 * `min(n, 10)` buckets by its position in the range, insertion-sort each bucket, then
 * write the buckets back one after another. Unlike counting and radix sort it takes any
 * integers, negative ones included, and the empty array.
 */
module BucketSort {
  import opened SortCore
  import opened Distribution
  import SimpleSorts
  import CountingSort
  import RadixSort

  /** The smallest entry of a non-empty sequence. */
  function Min(s: seq<int>): (m: int)
    requires |s| > 0
    ensures m in s && forall i :: 0 <= i < |s| ==> m <= s[i]
  {
    if |s| == 1 then s[0]
    else
      var m := Min(s[..|s| - 1]);
      assert forall i :: 0 <= i < |s| - 1 ==> s[..|s| - 1][i] == s[i];
      if s[|s| - 1] < m then s[|s| - 1] else m
  }

  /** `Math.min(arr.length, 10)`: at most ten buckets. */
  function BucketCount(n: nat): nat
  {
    if n < 10 then n else 10
  }

  /** The bucket key of a non-empty input: `range = max - min + 1` split into BucketCount(n) parts. */
  function KeyFor(s: seq<int>): (key: Key)
    requires |s| > 0
    ensures key.ByBucket? && key.count >= 1 && key.range >= 1
  {
    ByBucket(BucketCount(|s|), Min(s), CountingSort.Max(s) - Min(s) + 1)
  }

  /** The bucket number of every entry. */
  function Keys(s: seq<int>): (ks: seq<int>)
    requires |s| > 0
    ensures KeysOf(ks, KeyFor(s), s)
  {
    seq(|s|, i requires 0 <= i < |s| => KeyFor(s).Of(s[i]))
  }

  /** Groups 0 .. K - 1 as separate sequences. */
  function GroupsOf(s: seq<int>, ks: seq<int>, K: nat): (bs: seq<seq<int>>)
    requires |ks| == |s|
    ensures |bs| == K && forall k :: 0 <= k < K ==> bs[k] == Group(s, ks, k)
  {
    if K == 0 then [] else GroupsOf(s, ks, K - 1) + [Group(s, ks, K - 1)]
  }

  /** The buckets right after the distribution: bucket k holds the entries of key k in input order. */
  function Buckets(s: seq<int>): seq<seq<int>>
    requires |s| > 0
  {
    GroupsOf(s, Keys(s), BucketCount(|s|))
  }

  /** `[].concat(...buckets)`: the buckets one after another. */
  function Flatten(bs: seq<seq<int>>): (r: seq<int>)
  {
    if bs == [] then [] else Flatten(bs[..|bs| - 1]) + bs[|bs| - 1]
  }

  /**
   * How many insertion steps the bucket phase makes: one per entry of a bucket after its
   * first (`for (let j = 1; j < bucket.length; j++)`).
   */
  function InsertionSteps(bs: seq<seq<int>>): nat
  {
    if bs == [] then 0 else InsertionSteps(bs[..|bs| - 1]) + Steps(|bs[|bs| - 1]|)
  }

  /** The insertion steps of one bucket of the given length. */
  function Steps(len: nat): nat
  {
    if len > 0 then len - 1 else 0
  }

  /**
   * The frame shown while a bucket is sorted: a copy of the working array with its first
   * positions overwritten by the flattened buckets (`tempArr[m] = flattenedBuckets[m]`
   * for m < arr.length).
   */
  function Overwrite(arr: seq<int>, flat: seq<int>): (r: seq<int>)
    ensures |flat| == |arr| ==> r == flat
  {
    seq(|arr|, m requires 0 <= m < |arr| => if m < |flat| then flat[m] else arr[m])
  }

  /** Every bucket entry before every entry of a later bucket. */
  predicate Ordered(bs: seq<seq<int>>)
  {
    forall k, l, i, j :: 0 <= k < l < |bs| && 0 <= i < |bs[k]| && 0 <= j < |bs[l]| ==> bs[k][i] <= bs[l][j]
  }

  /** Floor division by a positive number keeps order. */
  lemma DivMono(a: int, b: int, d: int)
    requires a <= b && d > 0
    ensures a / d <= b / d
  {
    if a / d > b / d {
      RadixSort.MulMono(b / d + 1, a / d, d);
    }
  }

  /** An entry inside [lo, lo + range) gets a bucket number in [0, count). */
  lemma BucketInRange(key: Key, x: int)
    requires key.ByBucket? && key.count >= 1 && key.range >= 1 && key.lo <= x < key.lo + key.range
    ensures 0 <= key.Of(x) < key.count
  {
    RadixSort.MulMono(0, x - key.lo, key.count);
    DivMono(0, key.count * (x - key.lo), key.range);
  }

  /** The bucket number never decreases as the value grows. */
  lemma BucketMonotone(key: Key, x: int, y: int)
    requires key.ByBucket? && key.range >= 1 && x <= y
    ensures key.Of(x) <= key.Of(y)
  {
    RadixSort.MulMono(x - key.lo, y - key.lo, key.count);
    DivMono(key.count * (x - key.lo), key.count * (y - key.lo), key.range);
  }

  /** Every bucket number lies among the BucketCount(n) buckets. */
  lemma KeysInBuckets(s: seq<int>)
    requires |s| > 0
    ensures KeysIn(Keys(s), BucketCount(|s|))
  {
    var key, ks := KeyFor(s), Keys(s);
    forall i | 0 <= i < |s|
      ensures 0 <= ks[i] < key.count
    {
      BucketInRange(key, s[i]);
    }
  }

  /** The first i + 1 buckets flattened are the first i followed by bucket i. */
  lemma FlattenNext(bs: seq<seq<int>>, i: int)
    requires 0 <= i < |bs|
    ensures Flatten(bs[..i + 1]) == Flatten(bs[..i]) + bs[i]
  {
    assert bs[..i + 1][..i] == bs[..i];
  }

  /** The first i buckets flattened are a prefix of all of them flattened. */
  lemma {:induction false} FlattenPrefix(bs: seq<seq<int>>, i: int)
    requires 0 <= i <= |bs|
    ensures |Flatten(bs[..i])| <= |Flatten(bs)| && Flatten(bs)[..|Flatten(bs[..i])|] == Flatten(bs[..i])
    decreases |bs| - i
  {
    if i == |bs| {
      assert bs[..i] == bs;
    } else {
      FlattenPrefix(bs, i + 1);
      FlattenNext(bs, i);
      var f, g := Flatten(bs[..i]), Flatten(bs[..i + 1]);
      assert Flatten(bs)[..|f|] == g[..|f|];
    }
  }

  /** Entry j of bucket i sits right after the buckets before it. */
  lemma FlattenAt(bs: seq<seq<int>>, i: int, j: int)
    requires 0 <= i < |bs| && 0 <= j < |bs[i]|
    ensures |Flatten(bs[..i])| + |bs[i]| == |Flatten(bs[..i + 1])| <= |Flatten(bs)|
    ensures Flatten(bs)[|Flatten(bs[..i])| + j] == bs[i][j]
  {
    FlattenPrefix(bs, i + 1);
    FlattenNext(bs, i);
  }

  /** Flattening the groups one by one gives the groups one after another. */
  lemma {:induction false} FlattenGroups(s: seq<int>, ks: seq<int>, K: nat)
    requires |ks| == |s|
    ensures Flatten(GroupsOf(s, ks, K)) == Grouped(s, ks, K)
    decreases K
  {
    if K > 0 {
      FlattenGroups(s, ks, K - 1);
      GroupsOfLast(s, ks, K);
      GroupedNext(s, ks, K - 1);
    }
  }

  /** The first K groups flattened are the first K - 1 flattened followed by group K - 1. */
  lemma GroupsOfLast(s: seq<int>, ks: seq<int>, K: nat)
    requires |ks| == |s| && K > 0
    ensures Flatten(GroupsOf(s, ks, K)) == Flatten(GroupsOf(s, ks, K - 1)) + Group(s, ks, K - 1)
  {
    var g := GroupsOf(s, ks, K);
    assert g[..K - 1] == GroupsOf(s, ks, K - 1);
  }

  /** Rearranging inside every bucket rearranges the flattened whole. */
  lemma {:induction false} FlattenMultiset(bs: seq<seq<int>>, cs: seq<seq<int>>)
    requires |bs| == |cs| && forall k :: 0 <= k < |bs| ==> multiset(bs[k]) == multiset(cs[k])
    ensures multiset(Flatten(bs)) == multiset(Flatten(cs))
    decreases |bs|
  {
    if bs != [] {
      var m := |bs| - 1;
      FlattenMultiset(bs[..m], cs[..m]);
    }
  }

  /** A bound on every bucket entry bounds the flattened buckets. */
  lemma {:induction false} FlattenBelow(bs: seq<seq<int>>, y: int)
    requires forall k, i :: 0 <= k < |bs| && 0 <= i < |bs[k]| ==> bs[k][i] <= y
    ensures forall p :: 0 <= p < |Flatten(bs)| ==> Flatten(bs)[p] <= y
    decreases |bs|
  {
    if bs != [] {
      var m := |bs| - 1;
      FlattenBelow(bs[..m], y);
    }
  }

  /** Buckets each in ascending order, and in order among themselves, flatten to an ascending sequence. */
  lemma {:induction false} FlattenSorted(bs: seq<seq<int>>)
    requires Ordered(bs) && forall k :: 0 <= k < |bs| ==> Sorted(bs[k])
    ensures Sorted(Flatten(bs))
    decreases |bs|
  {
    if bs != [] {
      var m := |bs| - 1;
      var f, last := Flatten(bs[..m]), bs[m];
      FlattenSorted(bs[..m]);
      forall q | 0 <= q < |last|
        ensures forall p :: 0 <= p < |f| ==> f[p] <= last[q]
      {
        FlattenBelow(bs[..m], last[q]);
      }
      forall p, q | 0 <= p < q < |f + last|
        ensures (f + last)[p] <= (f + last)[q]
      {
        if q < |f| {
        } else if p < |f| {
          assert (f + last)[q] == last[q - |f|];
        } else {
          assert (f + last)[p] == last[p - |f|] && (f + last)[q] == last[q - |f|];
        }
      }
    }
  }

  /**
   * The buckets are in order among themselves: after any rearrangement inside each bucket,
   * an entry of bucket k is at most every entry of a later bucket, because a larger value
   * never gets a smaller bucket number.
   */
  lemma BucketsOrdered(s: seq<int>, bs: seq<seq<int>>)
    requires |s| > 0 && |bs| == BucketCount(|s|)
    requires forall k :: 0 <= k < |bs| ==> multiset(bs[k]) == multiset(Group(s, Keys(s), k))
    ensures Ordered(bs)
  {
    forall k, l, i, j | 0 <= k < l < |bs| && 0 <= i < |bs[k]| && 0 <= j < |bs[l]|
      ensures bs[k][i] <= bs[l][j]
    {
      BucketPairOrdered(s, bs[k], bs[l], k, l, i, j);
    }
  }

  /** An entry of an earlier bucket is at most an entry of a later one. */
  lemma BucketPairOrdered(s: seq<int>, b: seq<int>, c: seq<int>, k: int, l: int, i: int, j: int)
    requires |s| > 0 && 0 <= k < l && 0 <= i < |b| && 0 <= j < |c|
    requires multiset(b) == multiset(Group(s, Keys(s), k)) && multiset(c) == multiset(Group(s, Keys(s), l))
    ensures b[i] <= c[j]
  {
    var key, ks := KeyFor(s), Keys(s);
    var x, y := b[i], c[j];
    assert x in multiset(b) && y in multiset(c);
    GroupMembers(s, ks, k);
    GroupMembers(s, ks, l);
    assert x in Group(s, ks, k) && y in Group(s, ks, l);
    assert key.Of(x) == k && key.Of(y) == l;
    if y < x {
      BucketMonotone(key, y, x);
    }
  }

  /**
   * The range scan (lib/algorithms.tsx:1466-1499): from the second entry on, read the flag
   * (and stop when it is set), tally the index, count two comparisons and widen [min, max].
   */
  method Range(a: array<int>, run0: Run, cancel: Cancel) returns (min: int, max: int, run: Run)
    requires a.Length > 0 && run0.Valid(a.Length, cancel) && !run0.cancelled
    ensures run.Valid(a.Length, cancel) && Grows(run0, run)
    ensures run.swaps == run0.swaps && run.shown == run0.shown
    ensures !run.cancelled ==> min == Min(a[..]) && max == CountingSort.Max(a[..])
    ensures !run.cancelled ==> run.comparisons == run0.comparisons + 2 * (a.Length - 1)
  {
    max, min := a[0], a[0];
    run := run0;
    var i := 1;
    while i < a.Length
      invariant 1 <= i <= a.Length
      invariant max in a[..i] && forall j :: 0 <= j < i ==> a[j] <= max
      invariant min in a[..i] && forall j :: 0 <= j < i ==> min <= a[j]
      invariant run.Valid(a.Length, cancel) && !run.cancelled && Grows(run0, run)
      invariant run.swaps == run0.swaps && run.shown == run0.shown
      invariant run.comparisons == run0.comparisons + 2 * (i - 1)
    {
      run := run.Poll(cancel);
      if run.cancelled {
        return;
      }
      run := run.Touch(i).CompareBy(2);
      if a[i] > max {
        max := a[i];
      }
      if a[i] < min {
        min := a[i];
      }
      assert a[..i + 1] == a[..i] + [a[i]];
      i := i + 1;
    }
    assert a[..] == a[..a.Length];
    CountingSort.MaxUnique(a[..], max);
    MinUnique(a[..], min);
  }

  /** A value that occurs in s and is at most every entry is the minimum. */
  lemma MinUnique(s: seq<int>, m: int)
    requires |s| > 0 && m in s && forall i :: 0 <= i < |s| ==> m <= s[i]
    ensures m == Min(s)
  {
  }

  /**
   * The distribution (lib/algorithms.tsx:1501-1536): for every entry read the flag, tally
   * it and push it onto the bucket its key names. Run to the end, bucket k holds exactly
   * the entries of key k, in input order.
   */
  method Distribute(a: array<int>, key: Key, ghost ks: seq<int>, run0: Run, cancel: Cancel)
    returns (buckets: seq<seq<int>>, run: Run)
    requires key.ByBucket? && KeysOf(ks, key, a[..]) && KeysIn(ks, key.count)
    requires run0.Valid(a.Length, cancel) && !run0.cancelled
    ensures run.Valid(a.Length, cancel) && Grows(run0, run)
    ensures run.comparisons == run0.comparisons && run.swaps == run0.swaps && run.shown == run0.shown
    ensures !run.cancelled ==> buckets == GroupsOf(a[..], ks, key.count)
  {
    buckets := seq(key.count, _ => []);
    run := run0;
    var i := 0;
    while i < a.Length
      invariant 0 <= i <= a.Length
      invariant buckets == GroupsOf(a[..i], ks[..i], key.count)
      invariant run.Valid(a.Length, cancel) && !run.cancelled && Grows(run0, run)
      invariant run.comparisons == run0.comparisons && run.swaps == run0.swaps && run.shown == run0.shown
    {
      run := run.Poll(cancel);
      if run.cancelled {
        return;
      }
      run := run.Touch(i);
      var b := key.Of(a[i]);
      assert b == ks[i];
      buckets := buckets[b := buckets[b] + [a[i]]];
      assert a[..i + 1] == a[..i] + [a[i]] && ks[..i + 1] == ks[..i] + [ks[i]];
      forall k | 0 <= k < key.count
        ensures buckets[k] == Group(a[..i + 1], ks[..i + 1], k)
      {
        GroupSnoc(a[..i], ks[..i], k, a[i], ks[i]);
      }
      i := i + 1;
    }
    assert a[..] == a[..i] && ks == ks[..i];
  }

  /**
   * One insertion step inside a bucket (lib/algorithms.tsx:1552-1579): count a comparison,
   * then while the entry before the hole is greater read the flag, copy it one place
   * right and count a swap and a comparison; finally write the held value into the hole.
   * Completed, the bucket is the old one with entry j moved to the hole past every greater
   * entry; stopped, the last copy is left without the held value written back. Nothing is
   * tallied or shown.
   */
  method InsertInBucket(b: array<int>, j: nat, run0: Run, cancel: Cancel) returns (hole: nat, run: Run)
    requires 0 < j < b.Length
    requires run0.Valid(|run0.access|, cancel) && !run0.cancelled
    modifies b
    ensures hole <= j
    ensures run.Valid(|run0.access|, cancel) && run.access == run0.access && run.shown == run0.shown && Grows(run0, run)
    ensures run.swaps - run0.swaps == j - hole && run.comparisons - run0.comparisons == 1 + (j - hole)
    ensures run.cancelled ==> b[..] == SimpleSorts.Shifted(old(b[..]), j, hole)
    ensures !run.cancelled ==> b[..] == SimpleSorts.Inserted(old(b[..]), j, hole)
    ensures forall k :: hole <= k < j ==> old(b[k]) > old(b[j])
    ensures !run.cancelled && hole > 0 ==> old(b[hole - 1]) <= old(b[j])
  {
    ghost var s := b[..];
    var current := b[j];
    var k: int := j - 1;
    run := run0.Compare();
    SimpleSorts.ShiftStart(s, j);
    while k >= 0 && b[k] > current
      invariant -1 <= k < j
      invariant b[..] == SimpleSorts.Shifted(s, j, k + 1)
      invariant forall m :: k + 1 <= m < j ==> s[m] > current
      invariant run.Valid(|run0.access|, cancel) && !run.cancelled && Grows(run0, run)
      invariant run.access == run0.access && run.shown == run0.shown
      invariant run.swaps - run0.swaps == j - (k + 1) && run.comparisons - run0.comparisons == 1 + (j - (k + 1))
    {
      run := run.Poll(cancel);
      if run.cancelled {
        hole := k + 1;
        return;
      }
      assert b[k] == s[k];
      b[k + 1] := b[k];
      SimpleSorts.ShiftStep(s, j, k + 1);
      k := k - 1;
      run := run.Swap().Compare();
    }
    hole := k + 1;
    if k >= 0 {
      assert b[k] == s[k];
    }
    b[hole] := current;
    SimpleSorts.ShiftFinish(s, j, hole);
  }

  /**
   * One turn of a bucket's insertion loop (lib/algorithms.tsx:1553-1594): read the flag,
   * insert entry j into the ascending prefix before it, and show the working array
   * overwritten by all buckets flattened, this one as it now is. Completed, the ascending
   * prefix grows by one and the bucket is a rearrangement of what it held.
   */
  method InsertStep(b: array<int>, j: nat, buckets: seq<seq<int>>, i: nat, arr: seq<int>, run0: Run, cancel: Cancel)
    returns (run: Run)
    requires 0 < j < b.Length && i < |buckets| && SortedBetween(b[..], 0, j)
    requires run0.Valid(|run0.access|, cancel) && !run0.cancelled
    modifies b
    ensures run.Valid(|run0.access|, cancel) && run.access == run0.access && Grows(run0, run)
    ensures !run.cancelled ==> multiset(b[..]) == multiset(old(b[..])) && SortedBetween(b[..], 0, j + 1)
    ensures !run.cancelled ==> run.comparisons - run0.comparisons == run.swaps - run0.swaps + 1
    ensures !run.cancelled ==> run.shown == Overwrite(arr, Flatten(buckets[i := b[..]]))
  {
    run := run0.Poll(cancel);
    if run.cancelled {
      return;
    }
    ghost var s := b[..];
    var hole;
    hole, run := InsertInBucket(b, j, run, cancel);
    if run.cancelled {
      return;
    }
    SimpleSorts.InsertedPermutes(s, j, hole);
    SimpleSorts.InsertedSorted(s, j, hole);
    run := run.Publish(Overwrite(arr, Flatten(buckets[i := b[..]])));
  }

  /**
   * Insertion sort of bucket i (lib/algorithms.tsx:1547-1598). Completed, the bucket is
   * ascending and a rearrangement of what it held, with one comparison per step besides
   * one per shift, and the last frame shows the working array overwritten by the buckets
   * with this one sorted; a bucket of fewer than two entries is left alone and nothing is
   * shown.
   */
  method SortBucket(b: array<int>, buckets: seq<seq<int>>, i: nat, arr: seq<int>, run0: Run, cancel: Cancel)
    returns (run: Run)
    requires i < |buckets| && b[..] == buckets[i]
    requires run0.Valid(|run0.access|, cancel) && !run0.cancelled
    modifies b
    ensures run.Valid(|run0.access|, cancel) && run.access == run0.access && Grows(run0, run)
    ensures b.Length < 2 ==> b[..] == buckets[i] && run == run0
    ensures !run.cancelled ==> Sorted(b[..]) && multiset(b[..]) == multiset(buckets[i])
    ensures !run.cancelled ==> run.comparisons - run0.comparisons == run.swaps - run0.swaps + Steps(b.Length)
    ensures !run.cancelled && b.Length >= 2 ==> run.shown == Overwrite(arr, Flatten(buckets[i := b[..]]))
  {
    run := run0;
    if b.Length < 2 {
      return;
    }
    var j := 1;
    while j < b.Length
      invariant 1 <= j <= b.Length
      invariant multiset(b[..]) == multiset(buckets[i]) && SortedBetween(b[..], 0, j)
      invariant run.Valid(|run0.access|, cancel) && !run.cancelled && Grows(run0, run)
      invariant run.access == run0.access
      invariant run.comparisons - run0.comparisons == run.swaps - run0.swaps + (j - 1)
      invariant j > 1 ==> run.shown == Overwrite(arr, Flatten(buckets[i := b[..]]))
    {
      run := InsertStep(b, j, buckets, i, arr, run, cancel);
      if run.cancelled {
        return;
      }
      j := j + 1;
    }
  }

  /**
   * One turn of the bucket phase (lib/algorithms.tsx:1539-1602): read the flag, then
   * insertion-sort bucket i. Completed, bucket i is ascending and a rearrangement of what
   * it held and no other bucket changed; a bucket of fewer than two entries is left as
   * it is and nothing new is shown.
   */
  method SortOne(buckets0: seq<seq<int>>, i: nat, arr: seq<int>, run0: Run, cancel: Cancel)
    returns (buckets: seq<seq<int>>, run: Run)
    requires i < |buckets0| && run0.Valid(|run0.access|, cancel) && !run0.cancelled
    ensures run.Valid(|run0.access|, cancel) && run.access == run0.access && Grows(run0, run)
    ensures !run.cancelled ==> |buckets| == |buckets0| && Sorted(buckets[i]) && multiset(buckets[i]) == multiset(buckets0[i])
    ensures !run.cancelled ==> forall k :: 0 <= k < |buckets| && k != i ==> buckets[k] == buckets0[k]
    ensures !run.cancelled ==> run.comparisons - run0.comparisons == run.swaps - run0.swaps + Steps(|buckets0[i]|)
    ensures !run.cancelled && |buckets0[i]| < 2 ==> buckets == buckets0 && run.shown == run0.shown
    ensures !run.cancelled && |buckets0[i]| >= 2 ==> run.shown == Overwrite(arr, Flatten(buckets))
  {
    buckets := buckets0;
    run := run0.Poll(cancel);
    if run.cancelled {
      return;
    }
    var bucket := buckets[i];
    var b := new int[|bucket|](m requires 0 <= m < |bucket| => bucket[m]);
    assert b[..] == bucket;
    run := SortBucket(b, buckets, i, arr, run, cancel);
    if run.cancelled {
      return;
    }
    if b.Length < 2 {
      assert buckets[i := b[..]] == buckets;
    }
    buckets := buckets[i := b[..]];
  }

  /**
   * The bucket phase (lib/algorithms.tsx:1538-1603): sort every bucket in turn.
   * Completed, every bucket is ascending and a rearrangement of what it held, the
   * comparisons exceed the swaps by the number of insertion steps, and the last frame
   * shown (if any) is the working array overwritten by the sorted buckets.
   */
  method SortBuckets(buckets0: seq<seq<int>>, arr: seq<int>, run0: Run, cancel: Cancel)
    returns (buckets: seq<seq<int>>, run: Run)
    requires run0.Valid(|run0.access|, cancel) && !run0.cancelled
    ensures run.Valid(|run0.access|, cancel) && run.access == run0.access && Grows(run0, run)
    ensures !run.cancelled ==> |buckets| == |buckets0|
    ensures !run.cancelled ==> forall k :: 0 <= k < |buckets| ==> Sorted(buckets[k]) && multiset(buckets[k]) == multiset(buckets0[k])
    ensures !run.cancelled ==> run.comparisons - run0.comparisons == run.swaps - run0.swaps + InsertionSteps(buckets0)
    ensures !run.cancelled ==> run.shown == if InsertionSteps(buckets0) == 0 then run0.shown else Overwrite(arr, Flatten(buckets))
  {
    buckets := buckets0;
    run := run0;
    var i := 0;
    while i < |buckets0|
      invariant 0 <= i <= |buckets0| && |buckets| == |buckets0|
      invariant forall k :: 0 <= k < i ==> Sorted(buckets[k]) && multiset(buckets[k]) == multiset(buckets0[k])
      invariant forall k :: i <= k < |buckets| ==> buckets[k] == buckets0[k]
      invariant run.Valid(|run0.access|, cancel) && !run.cancelled && Grows(run0, run)
      invariant run.access == run0.access
      invariant run.comparisons - run0.comparisons == run.swaps - run0.swaps + InsertionSteps(buckets0[..i])
      invariant run.shown == if InsertionSteps(buckets0[..i]) == 0 then run0.shown else Overwrite(arr, Flatten(buckets))
    {
      ghost var before := buckets;
      buckets, run := SortOne(buckets, i, arr, run, cancel);
      if run.cancelled {
        return;
      }
      InsertionStepsNext(buckets0, i);
      i := i + 1;
    }
    assert buckets0[..i] == buckets0;
  }

  /** The insertion steps of the first i + 1 buckets. */
  lemma InsertionStepsNext(bs: seq<seq<int>>, i: int)
    requires 0 <= i < |bs|
    ensures InsertionSteps(bs[..i + 1]) == InsertionSteps(bs[..i]) + Steps(|bs[i]|)
  {
    assert bs[..i + 1][..i] == bs[..i];
  }

  /** s with its first m entries replaced by those of F: the array while the buckets are written back. */
  function Copied(F: seq<int>, s: seq<int>, m: int): (r: seq<int>)
    requires 0 <= m <= |F| == |s|
    ensures |r| == |s|
  {
    seq(|s|, p requires 0 <= p < |s| => if p < m then F[p] else s[p])
  }

  /** Copying entry m of F extends the copied prefix by one. */
  lemma CopiedNext(F: seq<int>, s: seq<int>, m: int)
    requires 0 <= m < |F| == |s|
    ensures Copied(F, s, m)[m := F[m]] == Copied(F, s, m + 1)
  {
  }

  /** Nothing copied leaves s; everything copied gives F. */
  lemma CopiedAll(F: seq<int>, s: seq<int>)
    requires |F| == |s|
    ensures Copied(F, s, 0) == s && Copied(F, s, |s|) == F
  {
  }

  /** The copied prefix comes from F and the rest from s. */
  lemma CopiedParts(F: seq<int>, s: seq<int>, m: int)
    requires 0 <= m <= |F| == |s|
    ensures Copied(F, s, m)[..m] == F[..m] && Copied(F, s, m)[m..] == s[m..]
  {
  }

  /**
   * Writing back one bucket (lib/algorithms.tsx:1615-1640): for every entry read the flag,
   * tally the next position, write the entry there and show the array. The array stays
   * the flattened buckets up to `index` followed by what it held from there on.
   */
  method CopyBucket(a: array<int>, buckets: seq<seq<int>>, i: nat, index0: nat, ghost s: seq<int>, run0: Run, cancel: Cancel)
    returns (index: nat, run: Run)
    requires i < |buckets| && index0 == |Flatten(buckets[..i])| <= a.Length
    requires |Flatten(buckets)| == a.Length == |s|
    requires a[..] == Copied(Flatten(buckets), s, index0)
    requires run0.Valid(a.Length, cancel) && !run0.cancelled
    modifies a
    ensures index0 <= index <= a.Length && a[..] == Copied(Flatten(buckets), s, index)
    ensures run.Valid(a.Length, cancel) && Grows(run0, run)
    ensures run.comparisons == run0.comparisons && run.swaps == run0.swaps
    ensures run.shown == if index == index0 then run0.shown else a[..]
    ensures !run.cancelled ==> index == |Flatten(buckets[..i + 1])|
  {
    ghost var F := Flatten(buckets);
    var bucket := buckets[i];
    index := index0;
    run := run0;
    var j := 0;
    FlattenNext(buckets, i);
    FlattenPrefix(buckets, i + 1);
    while j < |bucket|
      invariant 0 <= j <= |bucket| && index == index0 + j <= a.Length
      decreases |bucket| - j
      invariant a[..] == Copied(F, s, index)
      invariant run.Valid(a.Length, cancel) && !run.cancelled && Grows(run0, run)
      invariant run.comparisons == run0.comparisons && run.swaps == run0.swaps
      invariant run.shown == if index == index0 then run0.shown else a[..]
    {
      run := run.Poll(cancel);
      if run.cancelled {
        return;
      }
      FlattenAt(buckets, i, j);
      run := run.Touch(index);
      CopiedNext(F, s, index);
      Put(a, index, bucket[j]);
      index := index + 1;
      j := j + 1;
      run := run.Publish(a[..]);
    }
  }

  /**
   * The write-back phase (lib/algorithms.tsx:1605-1642): for every bucket read the flag,
   * then copy it into the working array after the buckets before it. Completed, the array
   * is the buckets flattened and, unless it is empty, on screen; stopped, a prefix has
   * been overwritten and the rest is as it was.
   */
  method Concatenate(a: array<int>, buckets: seq<seq<int>>, run0: Run, cancel: Cancel) returns (run: Run)
    requires |Flatten(buckets)| == a.Length && run0.Valid(a.Length, cancel) && !run0.cancelled
    modifies a
    ensures run.Valid(a.Length, cancel) && Grows(run0, run)
    ensures run.comparisons == run0.comparisons && run.swaps == run0.swaps
    ensures !run.cancelled ==> a[..] == Flatten(buckets) && run.shown == if a.Length == 0 then run0.shown else a[..]
    ensures run.cancelled ==> exists m :: 0 <= m <= a.Length && a[..] == Copied(Flatten(buckets), old(a[..]), m)
  {
    ghost var s := a[..];
    ghost var F := Flatten(buckets);
    CopiedAll(F, s);
    var index := 0;
    run := run0;
    var i := 0;
    while i < |buckets|
      invariant 0 <= i <= |buckets| && index == |Flatten(buckets[..i])| <= a.Length
      invariant a[..] == Copied(F, s, index)
      invariant run.Valid(a.Length, cancel) && !run.cancelled && Grows(run0, run)
      invariant run.comparisons == run0.comparisons && run.swaps == run0.swaps
      invariant run.shown == if index == 0 then run0.shown else a[..]
    {
      run := run.Poll(cancel);
      if run.cancelled {
        return;
      }
      index, run := CopyBucket(a, buckets, i, index, s, run, cancel);
      if run.cancelled {
        return;
      }
      i := i + 1;
    }
    assert buckets[..i] == buckets;
    CopiedAll(F, s);
  }

  /** A prefix of a sequence holds no value more often than the whole. */
  lemma PrefixSubMultiset(t: seq<int>, m: int)
    requires 0 <= m <= |t|
    ensures multiset(t[..m]) <= multiset(t)
  {
    assert t == t[..m] + t[m..];
  }

  /**
   * The sorted buckets flattened are the input in ascending order: each bucket is ascending,
   * a larger value never lands in an earlier bucket, and the buckets together hold the input.
   */
  lemma SortedBuckets(s: seq<int>, bs: seq<seq<int>>)
    requires |s| > 0 && |bs| == BucketCount(|s|)
    requires forall k :: 0 <= k < |bs| ==> Sorted(bs[k]) && multiset(bs[k]) == multiset(Buckets(s)[k])
    ensures multiset(Flatten(bs)) == multiset(s) && |Flatten(bs)| == |s| && Sorted(Flatten(bs))
  {
    BucketsPermute(s, bs);
    BucketsOrdered(s, bs);
    FlattenSorted(bs);
  }

  /** Buckets holding rearrangements of the distribution's buckets together hold a rearrangement of the input. */
  lemma BucketsPermute(s: seq<int>, bs: seq<seq<int>>)
    requires |s| > 0 && |bs| == BucketCount(|s|)
    requires forall k :: 0 <= k < |bs| ==> multiset(bs[k]) == multiset(Buckets(s)[k])
    ensures multiset(Flatten(bs)) == multiset(s) && |Flatten(bs)| == |s|
  {
    FlattenMultiset(bs, Buckets(s));
    BucketsHoldInput(s);
    assert |multiset(Flatten(bs))| == |Flatten(bs)| && |multiset(s)| == |s|;
  }

  /** The buckets of the distribution together hold exactly the input. */
  lemma BucketsHoldInput(s: seq<int>)
    requires |s| > 0
    ensures multiset(Flatten(Buckets(s))) == multiset(s)
  {
    var ks, K := Keys(s), BucketCount(|s|);
    FlattenGroups(s, ks, K);
    KeysInBuckets(s);
    GroupedPermutes(s, ks, K);
  }

  /**
   * The first two phases (lib/algorithms.tsx:1466-1536) on a non-empty array: find the
   * range, then distribute. Completed, the buckets hold the entries by bucket number, in
   * input order, after two comparisons per entry past the first; the array is untouched.
   */
  method Gather(a: array<int>, run0: Run, cancel: Cancel) returns (buckets: seq<seq<int>>, run: Run)
    requires a.Length > 0 && run0.Valid(a.Length, cancel) && !run0.cancelled
    ensures run.Valid(a.Length, cancel) && Grows(run0, run) && run.swaps == run0.swaps && run.shown == run0.shown
    ensures !run.cancelled ==> buckets == Buckets(a[..]) && run.comparisons == run0.comparisons + 2 * (a.Length - 1)
  {
    var min, max;
    buckets := [];
    min, max, run := Range(a, run0, cancel);
    if run.cancelled {
      return;
    }
    var n := a.Length;
    var bucketCount := if n < 10 then n else 10;
    var key := ByBucket(bucketCount, min, max - min + 1);
    ghost var ks := Keys(a[..]);
    KeysInBuckets(a[..]);
    buckets, run := Distribute(a, key, ks, run, cancel);
  }

  /**
   * Bucket sort (lib/algorithms.tsx:1408-1653). Run to the end, the result is the input in
   * ascending order and on screen; the comparisons are two per entry after the first plus
   * one per shift and one per insertion step inside the buckets. Stopped, the working
   * array has a prefix overwritten by entries of the input and the rest as it was. The
   * empty input comes back as it is: its bucket count is 0 and every loop is empty.
   */
  method Sort(input: seq<int>, cancel: Cancel) returns (result: seq<int>, run: Run)
    ensures run.Valid(|input|, cancel) && |result| == |input|
    ensures !run.cancelled ==> Sorted(result) && multiset(result) == multiset(input)
    ensures !run.cancelled && |input| > 0 ==> run.shown == result
    ensures !run.cancelled && |input| > 0 ==>
      run.comparisons == 2 * (|input| - 1) + run.swaps + InsertionSteps(Buckets(input))
    ensures run.cancelled ==>
      exists m :: 0 <= m <= |input| && result[m..] == input[m..] && multiset(result[..m]) <= multiset(input)
  {
    var n := |input|;
    var a := new int[n](k requires 0 <= k < n => input[k]);
    assert a[..] == input;
    result := input;
    run := Start(input);
    if n == 0 {
      return;
    }
    assert input[..0] == [] && input[0..] == input;
    var buckets;
    buckets, run := Gather(a, run, cancel);
    if run.cancelled {
      return;
    }
    buckets, run := SortBuckets(buckets, a[..], run, cancel);
    if run.cancelled {
      return;
    }
    SortedBuckets(input, buckets);
    run := Concatenate(a, buckets, run, cancel);
    result := a[..];
    if run.cancelled {
      var m :| 0 <= m <= n && result == Copied(Flatten(buckets), input, m);
      PrefixSubMultiset(Flatten(buckets), m);
      CopiedParts(Flatten(buckets), input, m);
    }
  }
}
