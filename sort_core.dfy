/**
 * Shared vocabulary of the sorting engine (lib/algorithms.tsx): the cancel flag, the
 * counters every sort keeps, and the order facts the sorts share.
 */
module SortCore {

  /**
   * The shared cancel reference as a sort sees it. The stop control sets it once
   * during a run, so it reads false up to some poll and true from then on.
   * `FromPoll(k)`: the poll numbered k (counting from 0) is the first to see it set.
   */
  datatype Cancel = Never | FromPoll(k: nat)
  {
    /** The value read by the poll numbered p. */
    predicate At(p: nat) { FromPoll? && k <= p }
  }

  /**
   * What a sort keeps besides its working array: the comparison and swap counters, the
   * per-index access tally (`accessPatternMap`), how often it read the cancel flag and
   * whether one of those reads saw it set, and the array it last handed to `setArray`.
   */
  datatype Run = Run(
    comparisons: nat,
    swaps: nat,
    access: seq<nat>,
    polls: nat,
    cancelled: bool,
    shown: seq<int>)
  {
    /**
     * The books are in order for an array of length n under cancel flag c: one tally
     * slot per index, and the run counts as cancelled exactly when one of its reads
     * came at or after the moment the flag was set.
     */
    predicate Valid(n: nat, c: Cancel)
    {
      |access| == n && (cancelled <==> c.FromPoll? && c.k < polls)
    }

    /** `comparisons++` followed by `setComparisons(comparisons)`. */
    function Compare(): (r: Run)
      ensures r.comparisons == comparisons + 1
    {
      this.(comparisons := comparisons + 1)
    }

    /** `comparisons += k` followed by `setComparisons(comparisons)`. */
    function CompareBy(k: nat): (r: Run)
      ensures r.comparisons == comparisons + k
    {
      this.(comparisons := comparisons + k)
    }

    /** `swaps++` followed by `setSwaps(swaps)`. */
    function Swap(): (r: Run)
      ensures r.swaps == swaps + 1
    {
      this.(swaps := swaps + 1)
    }

    /** `accessPatternMap[i]++`; an index past the end is not tallied. Only Touch changes the tally. */
    function Touch(i: int): (r: Run)
      ensures |r.access| == |access|
      ensures 0 <= i < |access| ==> r.access[i] == access[i] + 1
      ensures forall k :: 0 <= k < |access| && k != i ==> r.access[k] == access[k]
    {
      if 0 <= i < |access| then this.(access := access[i := access[i] + 1]) else this
    }

    /** `setArray([...arr])`. */
    function Publish(a: seq<int>): (r: Run)
      ensures r.shown == a
    {
      this.(shown := a)
    }

    /** One read of the cancel reference: the run is cancelled once a read sees it set. */
    function Poll(c: Cancel): (r: Run)
      requires Valid(|access|, c) && !cancelled
      ensures r.Valid(|access|, c)
      ensures r.polls == polls + 1 && r.cancelled == c.At(polls)
      ensures r.cancelled ==> c == FromPoll(polls)
    {
      this.(polls := polls + 1, cancelled := c.At(polls))
    }

    /**
     * A read of the cancel reference whether or not an earlier read saw it set (a sort
     * whose inner step gave up reads it again at its next loop head).
     */
    function Read(c: Cancel): (r: Run)
      requires Valid(|access|, c)
      ensures r.Valid(|access|, c)
      ensures r.polls == polls + 1 && r.cancelled == c.At(polls) && (cancelled ==> r.cancelled)
    {
      this.(polls := polls + 1, cancelled := c.At(polls))
    }

    /**
     * A read made after the run already saw the flag: it reads true again
     * (quick sort keeps reading after its partition gave up).
     */
    function PollAgain(c: Cancel): (r: Run)
      requires Valid(|access|, c) && cancelled
      ensures r.Valid(|access|, c) && r.cancelled
      ensures r.polls == polls + 1 && c.At(polls)
    {
      this.(polls := polls + 1)
    }
  }

  /** The books of a sort that has done nothing yet on the given input. */
  function Start(input: seq<int>): (r: Run)
    ensures r.Valid(|input|, Never) && r.comparisons == 0 && r.swaps == 0 && r.polls == 0
    ensures forall c: Cancel :: r.Valid(|input|, c)
    ensures |r.access| == |input| && forall k :: 0 <= k < |input| ==> r.access[k] == 0
    ensures !r.cancelled && r.shown == input
  {
    Run(0, 0, seq(|input|, _ => 0), 0, false, input)
  }

  /**
   * The counters only grow between two moments of a run: comparisons, swaps and reads of
   * the flag. (The access tally changes only through Touch, which only adds.)
   */
  predicate Grows(r0: Run, r1: Run)
  {
    r0.comparisons <= r1.comparisons && r0.swaps <= r1.swaps && r0.polls <= r1.polls
  }

  /** Between two moments only the access tally moved: every other part of the books is equal. */
  predicate OnlyTallied(r0: Run, r1: Run)
  {
    r1.comparisons == r0.comparisons && r1.swaps == r0.swaps && r1.polls == r0.polls
    && r1.cancelled == r0.cancelled && r1.shown == r0.shown && |r1.access| == |r0.access|
  }

  /** Ascending order. */
  predicate Sorted(s: seq<int>)
  {
    forall i, j :: 0 <= i < j < |s| ==> s[i] <= s[j]
  }

  /** Ascending order on the index range [lo, hi). */
  predicate SortedBetween(s: seq<int>, lo: int, hi: int)
  {
    forall i, j :: 0 <= lo <= i < j < hi <= |s| ==> s[i] <= s[j]
  }

  /** Everything before index k is at most everything from k on. */
  predicate SplitAt(s: seq<int>, k: int)
  {
    forall i, j :: 0 <= i < k <= j < |s| ==> s[i] <= s[j]
  }

  /** The number of elements of s smaller than x. */
  function CountBelow(s: seq<int>, x: int): nat
  {
    if |s| == 0 then 0 else (if s[0] < x then 1 else 0) + CountBelow(s[1..], x)
  }

  /** The number of pairs i < j with s[i] > s[j]: the work an adjacent-swap sort must do. */
  function Inversions(s: seq<int>): nat
  {
    if |s| == 0 then 0 else CountBelow(s[1..], s[0]) + Inversions(s[1..])
  }

  /** s with the entries at i and j exchanged. */
  function Exchange(s: seq<int>, i: nat, j: nat): (r: seq<int>)
    requires i < |s| && j < |s|
    ensures |r| == |s| && r[i] == s[j] && r[j] == s[i]
    ensures forall k :: 0 <= k < |s| && k != i && k != j ==> r[k] == s[k]
    ensures multiset(r) == multiset(s)
  {
    s[i := s[j]][j := s[i]]
  }

  /** `arr[k] = v`, stated on the whole array. */
  method Put(a: array<int>, k: int, v: int)
    requires 0 <= k < a.Length
    modifies a
    ensures a[..] == old(a[..])[k := v]
  {
    a[k] := v;
  }

  /** Exchange two entries of the working array (the three-line temp swap of every sort). */
  method SwapEntries(a: array<int>, x: nat, y: nat)
    requires x < a.Length && y < a.Length
    modifies a
    ensures a[..] == Exchange(old(a[..]), x, y)
  {
    a[x], a[y] := a[y], a[x];
  }

  lemma {:induction false} CountBelowSwapAdjacent(s: seq<int>, j: nat, x: int)
    requires j + 1 < |s|
    ensures CountBelow(Exchange(s, j, j + 1), x) == CountBelow(s, x)
  {
    var t := Exchange(s, j, j + 1);
    if j == 0 {
      assert t[2..] == s[2..];
      assert t[1..][1..] == t[2..] && s[1..][1..] == s[2..];
    } else {
      assert t[1..] == Exchange(s[1..], j - 1, j);
      CountBelowSwapAdjacent(s[1..], j - 1, x);
    }
  }

  /** Exchanging an inverted adjacent pair removes exactly one inversion. */
  lemma {:induction false} InversionsSwapAdjacent(s: seq<int>, j: nat)
    requires j + 1 < |s| && s[j] > s[j + 1]
    ensures Inversions(Exchange(s, j, j + 1)) + 1 == Inversions(s)
  {
    var t := Exchange(s, j, j + 1);
    if j == 0 {
      assert t[1..][1..] == s[2..] && s[1..][1..] == s[2..];
      assert CountBelow(s[1..], s[0]) == 1 + CountBelow(s[2..], s[0]);
      assert Inversions(t[1..]) == CountBelow(s[2..], s[0]) + Inversions(s[2..]);
      assert Inversions(s[1..]) == CountBelow(s[2..], s[1]) + Inversions(s[2..]);
    } else {
      assert t[1..] == Exchange(s[1..], j - 1, j);
      InversionsSwapAdjacent(s[1..], j - 1);
      CountBelowSwapAdjacent(s[1..], j - 1, s[0]);
    }
  }

  lemma {:induction false} CountBelowOfLowerBound(s: seq<int>, x: int)
    requires forall k :: 0 <= k < |s| ==> x <= s[k]
    ensures CountBelow(s, x) == 0
  {
    if |s| > 0 {
      CountBelowOfLowerBound(s[1..], x);
    }
  }

  /** A sorted sequence has no inversions. */
  lemma {:induction false} SortedHasNoInversions(s: seq<int>)
    requires Sorted(s)
    ensures Inversions(s) == 0
  {
    if |s| > 0 {
      CountBelowOfLowerBound(s[1..], s[0]);
      SortedHasNoInversions(s[1..]);
    }
  }

  /**
   * r is s with only the part [lo, hi) rearranged: the same length, the same values
   * outside the range, and the same multiset of values inside it.
   */
  predicate SlicePermuted(s: seq<int>, r: seq<int>, lo: int, hi: int)
    requires 0 <= lo <= hi <= |s|
  {
    |r| == |s| && r[..lo] == s[..lo] && r[hi..] == s[hi..] && multiset(r[lo..hi]) == multiset(s[lo..hi])
  }

  lemma SlicePermutedRefl(s: seq<int>, lo: int, hi: int)
    requires 0 <= lo <= hi <= |s|
    ensures SlicePermuted(s, s, lo, hi)
  {
  }

  lemma SlicePermutedTrans(s: seq<int>, r: seq<int>, t: seq<int>, lo: int, hi: int)
    requires 0 <= lo <= hi <= |s|
    requires SlicePermuted(s, r, lo, hi) && SlicePermuted(r, t, lo, hi)
    ensures SlicePermuted(s, t, lo, hi)
  {
  }

  /** Rearranging a part of a range rearranges the range. */
  lemma {:induction false} SlicePermutedWiden(s: seq<int>, r: seq<int>, lo: int, hi: int, lo': int, hi': int)
    requires 0 <= lo' <= lo <= hi <= hi' <= |s|
    requires SlicePermuted(s, r, lo, hi)
    ensures SlicePermuted(s, r, lo', hi')
  {
    assert r[..lo'] == r[..lo][..lo'] && s[..lo'] == s[..lo][..lo'];
    assert r[hi'..] == r[hi..][hi' - hi..] && s[hi'..] == s[hi..][hi' - hi..];
    assert r[lo'..hi'] == r[lo'..lo] + r[lo..hi] + r[hi..hi'];
    assert s[lo'..hi'] == s[lo'..lo] + s[lo..hi] + s[hi..hi'];
    assert r[lo'..lo] == r[..lo][lo'..] && s[lo'..lo] == s[..lo][lo'..];
    assert r[hi..hi'] == r[hi..][..hi' - hi] && s[hi..hi'] == s[hi..][..hi' - hi];
  }

  /** Exchanging two entries of a range rearranges the range. */
  lemma ExchangeInSlice(s: seq<int>, x: nat, y: nat, lo: int, hi: int)
    requires 0 <= lo <= x < hi <= |s| && lo <= y < hi
    ensures SlicePermuted(s, Exchange(s, x, y), lo, hi)
  {
    var r := Exchange(s, x, y);
    assert r[lo..hi] == Exchange(s[lo..hi], x - lo, y - lo);
  }

  /** Rearranging a part of a range that is a rearrangement of s keeps it one. */
  lemma SlicePermutedWithin(s: seq<int>, t: seq<int>, r: seq<int>, lo: int, hi: int, lo': int, hi': int)
    requires 0 <= lo' <= lo <= hi <= hi' <= |s|
    requires SlicePermuted(s, t, lo', hi') && SlicePermuted(t, r, lo, hi)
    ensures SlicePermuted(s, r, lo', hi')
  {
    SlicePermutedWiden(t, r, lo, hi, lo', hi');
    SlicePermutedTrans(s, t, r, lo', hi');
  }

  /** Exchanging two entries of a range that is a rearrangement of s keeps it one. */
  lemma ExchangeInSliceAfter(s: seq<int>, t: seq<int>, x: nat, y: nat, lo: int, hi: int)
    requires 0 <= lo <= x < hi <= |t| == |s| && lo <= y < hi
    requires SlicePermuted(s, t, lo, hi)
    ensures SlicePermuted(s, Exchange(t, x, y), lo, hi)
  {
    ExchangeInSlice(t, x, y, lo, hi);
    SlicePermutedTrans(s, t, Exchange(t, x, y), lo, hi);
  }

  /** An upper bound on every value of a range survives rearranging the range. */
  lemma SlicePermutedKeepsAtMost(s: seq<int>, r: seq<int>, lo: int, hi: int, x: int)
    requires 0 <= lo <= hi <= |s| && SlicePermuted(s, r, lo, hi)
    requires forall k :: lo <= k < hi ==> s[k] <= x
    ensures forall k :: lo <= k < hi ==> r[k] <= x
  {
    forall k | lo <= k < hi
      ensures r[k] <= x
    {
      assert r[k] == r[lo..hi][k - lo];
      assert r[k] in multiset(s[lo..hi]);
      var k' :| 0 <= k' < hi - lo && s[lo..hi][k'] == r[k];
      assert s[lo + k'] == r[k];
    }
  }

  /** A strict lower bound on every value of a range survives rearranging the range. */
  lemma SlicePermutedKeepsAbove(s: seq<int>, r: seq<int>, lo: int, hi: int, x: int)
    requires 0 <= lo <= hi <= |s| && SlicePermuted(s, r, lo, hi)
    requires forall k :: lo <= k < hi ==> s[k] > x
    ensures forall k :: lo <= k < hi ==> r[k] > x
  {
    forall k | lo <= k < hi
      ensures r[k] > x
    {
      assert r[k] == r[lo..hi][k - lo];
      assert r[k] in multiset(s[lo..hi]);
      var k' :| 0 <= k' < hi - lo && s[lo..hi][k'] == r[k];
      assert s[lo + k'] == r[k];
    }
  }

  /** Rearranging all of s keeps its multiset. */
  lemma SlicePermutedWhole(s: seq<int>, r: seq<int>)
    requires SlicePermuted(s, r, 0, |s|)
    ensures multiset(r) == multiset(s)
  {
    assert r == r[0..|s|] && s == s[0..|s|];
  }

  /** r is s with at most the part [lo, hi) changed. */
  predicate SameOutside(s: seq<int>, r: seq<int>, lo: int, hi: int)
    requires 0 <= lo <= hi <= |s|
  {
    |r| == |s| && r[..lo] == s[..lo] && r[hi..] == s[hi..]
  }

  /** Changing a part of a range changes only the range. */
  lemma {:induction false} SameOutsideWiden(s: seq<int>, r: seq<int>, lo: int, hi: int, lo': int, hi': int)
    requires 0 <= lo' <= lo <= hi <= hi' <= |s|
    requires SameOutside(s, r, lo, hi)
    ensures SameOutside(s, r, lo', hi')
  {
    assert r[..lo'] == r[..lo][..lo'] && s[..lo'] == s[..lo][..lo'];
    assert r[hi'..] == r[hi..][hi' - hi..] && s[hi'..] == s[hi..][hi' - hi..];
  }

  /** Order on an index range is order of the slice. */
  lemma SortedSlice(s: seq<int>, lo: int, hi: int)
    requires 0 <= lo <= hi <= |s|
    ensures SortedBetween(s, lo, hi) <==> Sorted(s[lo..hi])
  {
    if Sorted(s[lo..hi]) {
      forall i, j | lo <= i < j < hi
        ensures s[i] <= s[j]
      {
        assert s[i] == s[lo..hi][i - lo] && s[j] == s[lo..hi][j - lo];
      }
    }
  }
}
