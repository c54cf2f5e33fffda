/**
 * Radix sort of lib/algorithms.tsx (least significant digit first, base 10): one stable
 * counting pass per decimal digit of the maximum. Only non-negative integers are handled
 * (a negative entry gives a negative digit, which indexes no counter).
 */
module RadixSort {
  import opened SortCore
  import opened Distribution
  import CountingSort

  /** 10 to the power d. */
  function Pow10(d: nat): (p: nat)
    ensures p >= 1
  {
    if d == 0 then 1 else 10 * Pow10(d - 1)
  }

  /** The length of the decimal numeral of m (`m.toString().length`): the least k >= 1 with m < 10^k. */
  function Digits(m: nat): (k: nat)
    ensures k >= 1 && m < Pow10(k)
    ensures k == 1 || Pow10(k - 1) <= m
  {
    if m < 10 then 1 else 1 + Digits(m / 10)
  }

  /** The decimal digit at place value p: `Math.floor(x / p) % 10` for x >= 0. */
  function DigitAt(x: int, p: nat): int
    requires p >= 1
  {
    (x / p) % 10
  }

  /** Every entry lies in [0, max]. */
  predicate Bounded(s: seq<int>, max: int)
  {
    forall i :: 0 <= i < |s| ==> 0 <= s[i] <= max
  }

  /** The remainders of the entries modulo p: their last digits below place value p. */
  function Mods(s: seq<int>, p: nat): (r: seq<int>)
    requires p >= 1
    ensures |r| == |s| && forall i {:trigger r[i]} :: 0 <= i < |s| ==> r[i] == s[i] % p
  {
    seq(|s|, i requires 0 <= i < |s| => s[i] % p)
  }

  /** Ascending by the remainder modulo p: the order on the last digits below place value p. */
  predicate SortedMod(s: seq<int>, p: nat)
    requires p >= 1
  {
    Sorted(Mods(s, p))
  }

  /** Multiplying by a non-negative factor keeps order. */
  lemma MulMono(a: int, b: int, m: int)
    requires a <= b && m >= 0
    ensures a * m <= b * m
  {
    assert b * m - a * m == (b - a) * m;
  }

  /** Division with remainder is unique. */
  lemma DivModUnique(x: int, m: int, q: int, r: int)
    requires m > 0 && 0 <= r < m && x == q * m + r
    ensures x / m == q && x % m == r
  {
    var q', r' := x / m, x % m;
    assert x == q' * m + r';
    if q' > q {
      MulMono(q + 1, q', m);
    } else if q' < q {
      MulMono(q' + 1, q, m);
    }
  }

  /** The remainder modulo 10p splits into the digit at place p and the remainder modulo p. */
  lemma ModSplit(x: int, p: nat)
    requires x >= 0 && p >= 1
    ensures x % (10 * p) == DigitAt(x, p) * p + x % p
  {
    var q, r := x / p, x % p;
    var t, d := q / 10, q % 10;
    assert x == q * p + r;
    assert q == t * 10 + d;
    assert q * p == t * (10 * p) + d * p;
    MulMono(d, 9, p);
    MulMono(0, d, p);
    DivModUnique(x, 10 * p, t, d * p + r);
  }

  /** A value below the place value p is its own remainder. */
  lemma ModSmall(x: int, p: nat)
    requires 0 <= x < p
    ensures x % p == x
  {
    DivModUnique(x, p, 0, x);
  }

  /** A group of a sequence ascending modulo p is ascending modulo p. */
  lemma {:induction false} GroupSortedMod(s: seq<int>, ks: seq<int>, k: int, p: nat)
    requires |ks| == |s| && p >= 1 && SortedMod(s, p)
    ensures SortedMod(Group(s, ks, k), p)
    decreases |s|
  {
    if s != [] {
      var s', ks' := s[..|s| - 1], ks[..|s| - 1];
      var m, m' := Mods(s, p), Mods(s', p);
      assert SortedMod(s', p) by {
        forall i, j | 0 <= i < j < |s'|
          ensures m'[i] <= m'[j]
        {
          assert m[i] <= m[j];
        }
      }
      GroupSortedMod(s', ks', k, p);
      GroupMembers(s', ks', k);
      var g', g := Group(s', ks', k), Group(s, ks, k);
      var n', n := Mods(g', p), Mods(g, p);
      forall i, j | 0 <= i < j < |g|
        ensures n[i] <= n[j]
      {
        if j < |g'| {
          assert n'[i] <= n'[j];
        } else {
          assert g[i] == g'[i] && g'[i] in g';
          var u :| 0 <= u < |s'| && s'[u] == g'[i] && ks'[u] == k;
          assert m[u] <= m[|s| - 1];
        }
      }
    }
  }

  /** Entries whose digits at place p differ are ordered modulo 10p as their digits are. */
  lemma DigitOrder(x: int, y: int, p: nat)
    requires x >= 0 && y >= 0 && p >= 1 && DigitAt(x, p) < DigitAt(y, p)
    ensures x % (10 * p) < y % (10 * p)
  {
    ModSplit(x, p);
    ModSplit(y, p);
    var dx, dy := DigitAt(x, p), DigitAt(y, p);
    MulMono(dx + 1, dy, p);
    assert (dx + 1) * p == dx * p + p;
  }

  /** Entries with the same digit at place p are ordered modulo 10p as they are modulo p. */
  lemma SameDigitOrder(x: int, y: int, p: nat)
    requires x >= 0 && y >= 0 && p >= 1 && DigitAt(x, p) == DigitAt(y, p) && x % p <= y % p
    ensures x % (10 * p) <= y % (10 * p)
  {
    ModSplit(x, p);
    ModSplit(y, p);
  }

  /**
   * One stable pass on the digit at place value p turns order modulo p into order modulo
   * 10p: the groups come in digit order, and inside a group the earlier order modulo p is
   * kept.
   */
  lemma {:induction false} PassSorts(s: seq<int>, ks: seq<int>, k: int, p: nat)
    requires |ks| == |s| && p >= 1 && SortedMod(s, p) && 0 <= k
    requires forall i :: 0 <= i < |s| ==> s[i] >= 0 && ks[i] == DigitAt(s[i], p)
    ensures SortedMod(Grouped(s, ks, k), 10 * p)
    decreases k
  {
    if k > 0 {
      var a, b := Grouped(s, ks, k - 1), Group(s, ks, k - 1);
      PassSorts(s, ks, k - 1, p);
      GroupSortedMod(s, ks, k - 1, p);
      GroupedMembers(s, ks, k - 1);
      GroupMembers(s, ks, k - 1);
      var ma, mb, m := Mods(a, 10 * p), Mods(b, p), Mods(a + b, 10 * p);
      forall i, j | 0 <= i < j < |a + b|
        ensures m[i] <= m[j]
      {
        if j < |a| {
          assert ma[i] <= ma[j];
        } else if i < |a| {
          assert a[i] in a && b[j - |a|] in b;
          DigitOrder(a[i], b[j - |a|], p);
        } else {
          assert b[i - |a|] in b && b[j - |a|] in b;
          assert mb[i - |a|] <= mb[j - |a|];
          SameDigitOrder(b[i - |a|], b[j - |a|], p);
        }
      }
      assert Grouped(s, ks, k) == a + b;
    }
  }

  /** A rearrangement keeps every entry within the same bounds. */
  lemma BoundedPermuted(s: seq<int>, t: seq<int>, max: int)
    requires Bounded(s, max) && multiset(t) == multiset(s)
    ensures Bounded(t, max)
  {
    forall i | 0 <= i < |t|
      ensures 0 <= t[i] <= max
    {
      assert t[i] in multiset(t);
      assert t[i] in s;
    }
  }

  /** With every entry below p, order modulo p is plain ascending order. */
  lemma SortedModDone(s: seq<int>, p: nat)
    requires p >= 1 && SortedMod(s, p) && forall i :: 0 <= i < |s| ==> 0 <= s[i] < p
    ensures Sorted(s)
  {
    var m := Mods(s, p);
    forall i | 0 <= i < |s|
      ensures m[i] == s[i]
    {
      ModSmall(s[i], p);
    }
    assert m == s;
  }

  /**
   * The maximum scan of radix sort (lib/algorithms.tsx:1285-1293): no reads of the flag
   * and no tallies, one comparison counted per entry after the first.
   */
  method ScanMax(a: array<int>, run0: Run) returns (max: int, run: Run)
    requires a.Length > 0
    ensures max == CountingSort.Max(a[..])
    ensures run == run0.CompareBy(a.Length - 1)
  {
    max := a[0];
    run := run0;
    var i := 1;
    while i < a.Length
      invariant 1 <= i <= a.Length
      invariant max in a[..i] && forall j :: 0 <= j < i ==> a[j] <= max
      invariant run == run0.CompareBy(i - 1)
    {
      if a[i] > max {
        max := a[i];
      }
      run := run.Compare();
      assert a[..i + 1] == a[..i] + [a[i]];
      i := i + 1;
    }
    assert a[..] == a[..a.Length];
    CountingSort.MaxUnique(a[..], max);
  }

  /**
   * One digit pass after its read of the flag (lib/algorithms.tsx:1308-1391): count the
   * digits at place value p, turn the counts into end positions, place the entries right
   * to left, copy back and show the array. Run to the end, an array ascending modulo p
   * comes out ascending modulo 10p after n placements; cancelled, the array is untouched.
   */
  method Pass(a: array<int>, p: nat, ghost max: int, run0: Run, cancel: Cancel) returns (run: Run)
    requires p >= 1 && Bounded(a[..], max) && SortedMod(a[..], p)
    requires run0.Valid(a.Length, cancel) && !run0.cancelled
    modifies a
    ensures run.Valid(a.Length, cancel) && Grows(run0, run) && run.comparisons == run0.comparisons
    ensures multiset(a[..]) == multiset(old(a[..])) && Bounded(a[..], max)
    ensures run.cancelled ==> a[..] == old(a[..])
    ensures !run.cancelled ==> SortedMod(a[..], 10 * p) && run.shown == a[..] && run.swaps == run0.swaps + a.Length
  {
    var n := a.Length;
    var cnt := new int[10](_ => 0);
    ghost var s := a[..];
    ghost var ks := seq(n, i requires 0 <= i < n => DigitAt(s[i], p));
    assert forall i :: 0 <= i < n ==> s[i] >= 0 && ks[i] == DigitAt(s[i], p);
    assert KeysOf(ks, ByDigit(p), s) && KeysIn(ks, 10);
    run := CountKeys(a, cnt, ByDigit(p), ks, run0, cancel);
    if run.cancelled {
      return;
    }
    PrefixSums(cnt, ks);
    var out := new Slot[n](_ => Empty);
    run := Place(a, cnt, out, ByDigit(p), ks, run, cancel, false);
    if run.cancelled {
      return;
    }
    ghost var g := Grouped(s, ks, 10);
    CopyBack(a, out, g);
    run := run.Publish(a[..]);
    GroupedPermutes(s, ks, 10);
    PassSorts(s, ks, 10, p);
    BoundedPermuted(s, a[..], max);
  }

  /**
   * One turn of the digit loop (lib/algorithms.tsx:1302-1394): read the flag, and unless
   * it is set make the pass on the digit numbered `digit`, counted from the right.
   */
  method Round(a: array<int>, digit: nat, ghost max: int, run0: Run, cancel: Cancel) returns (run: Run)
    requires Bounded(a[..], max) && SortedMod(a[..], Pow10(digit))
    requires run0.Valid(a.Length, cancel) && !run0.cancelled
    modifies a
    ensures run.Valid(a.Length, cancel) && run.comparisons == run0.comparisons
    ensures multiset(a[..]) == multiset(old(a[..])) && Bounded(a[..], max)
    ensures !run.cancelled ==> SortedMod(a[..], Pow10(digit + 1)) && run.shown == a[..]
    ensures !run.cancelled ==> run.swaps == run0.swaps + a.Length
  {
    run := run0.Poll(cancel);
    if run.cancelled {
      return;
    }
    run := Pass(a, Pow10(digit), max, run, cancel);
  }

  /**
   * Radix sort (lib/algorithms.tsx:1236-1405) on a non-empty input of non-negative
   * integers: as many passes as the maximum has decimal digits, each reading the flag
   * first. The array is only ever replaced by a whole pass's output, so it stays a
   * permutation of the input even when cancelled. Run to the end it is ascending and on
   * screen, after n - 1 comparisons and n swaps per digit.
   */
  method Sort(input: seq<int>, cancel: Cancel) returns (result: seq<int>, run: Run)
    requires |input| > 0 && forall i :: 0 <= i < |input| ==> input[i] >= 0
    ensures run.Valid(|input|, cancel) && multiset(result) == multiset(input)
    ensures !run.cancelled ==> Sorted(result) && run.shown == result
    ensures !run.cancelled ==> run.comparisons == |input| - 1
    ensures !run.cancelled ==> run.swaps == |input| * Digits(CountingSort.Max(input))
  {
    var n := |input|;
    var a := new int[n](k requires 0 <= k < n => input[k]);
    assert a[..] == input;
    run := Start(input);
    var max;
    max, run := ScanMax(a, run);
    var maxDigits := Digits(max);
    var digit := 0;
    while digit < maxDigits
      invariant 0 <= digit <= maxDigits
      invariant multiset(a[..]) == multiset(input) && Bounded(a[..], max)
      invariant SortedMod(a[..], Pow10(digit))
      invariant run.Valid(n, cancel) && !run.cancelled && run.shown == a[..]
      invariant run.comparisons == n - 1 && run.swaps == n * digit
    {
      run := Round(a, digit, max, run, cancel);
      if run.cancelled {
        result := a[..];
        return;
      }
      assert n * (digit + 1) == n * digit + n;
      digit := digit + 1;
    }
    result := a[..];
    SortedModDone(result, Pow10(maxDigits));
  }
}
