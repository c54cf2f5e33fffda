/**
 * The specification shared by the three distribution sorts of lib/algorithms.tsx
 * (counting, radix and bucket sort): the entries of an array gathered by their keys into
 * groups 0, 1, ..., K - 1, each group keeping the entries in their original order. The
 * keys are given as a sequence ks running beside the entries (ks[i] is the key of s[i]);
 * each sort says how it computes them.
 */
module Distribution {
  import opened SortCore

  /**
   * The keys the distribution sorts group by: counting sort by the value itself, a pass
   * of radix sort by the decimal digit at place value `place`, bucket sort by
   * `Math.min(Math.floor((count * (x - lo)) / range), count - 1)`.
   */
  datatype Key = ByValue | ByDigit(place: nat) | ByBucket(count: nat, lo: int, range: nat)
  {
    function Of(x: int): int
    {
      match this
      case ByValue => x
      case ByDigit(place) => if place == 0 then 0 else (x / place) % 10
      case ByBucket(count, lo, range) =>
        var q := if range == 0 then 0 else (count * (x - lo)) / range;
        if q < count - 1 then q else count - 1
    }
  }

  /** ks holds the key of every entry of s. */
  predicate KeysOf(ks: seq<int>, key: Key, s: seq<int>)
  {
    |ks| == |s| && forall i :: 0 <= i < |s| ==> ks[i] == key.Of(s[i])
  }

  /** Every key lies in [0, K). */
  predicate KeysIn(ks: seq<int>, K: int)
  {
    forall i :: 0 <= i < |ks| ==> 0 <= ks[i] < K
  }

  /** The entries of s whose key is k, in their order in s. */
  function Group(s: seq<int>, ks: seq<int>, k: int): (g: seq<int>)
    requires |ks| == |s|
    ensures |g| <= |s|
  {
    if s == [] then []
    else Group(s[..|s| - 1], ks[..|s| - 1], k) + (if ks[|s| - 1] == k then [s[|s| - 1]] else [])
  }

  /** Groups 0 .. k - 1 one after the other. */
  function Grouped(s: seq<int>, ks: seq<int>, k: int): (g: seq<int>)
    requires |ks| == |s|
    decreases k
  {
    if k <= 0 then [] else Grouped(s, ks, k - 1) + Group(s, ks, k - 1)
  }

  /** The first k + 1 groups are the first k followed by group k. */
  lemma GroupedNext(s: seq<int>, ks: seq<int>, k: int)
    requires |ks| == |s| && 0 <= k
    ensures Grouped(s, ks, k + 1) == Grouped(s, ks, k) + Group(s, ks, k)
    ensures |Grouped(s, ks, k + 1)| == |Grouped(s, ks, k)| + |Group(s, ks, k)|
  {
  }

  /** Appending one entry appends it to its own group and to no other. */
  lemma GroupSnoc(s: seq<int>, ks: seq<int>, k: int, x: int, y: int)
    requires |ks| == |s|
    ensures Group(s + [x], ks + [y], k) == Group(s, ks, k) + (if y == k then [x] else [])
  {
    assert (s + [x])[..|s|] == s && (ks + [y])[..|s|] == ks;
  }

  /** Grouping distributes over concatenation. */
  lemma {:induction false} GroupAppend(s: seq<int>, ks: seq<int>, t: seq<int>, ts: seq<int>, k: int)
    requires |ks| == |s| && |ts| == |t|
    ensures Group(s + t, ks + ts, k) == Group(s, ks, k) + Group(t, ts, k)
    decreases |t|
  {
    if t == [] {
      assert s + t == s && ks + ts == ks;
    } else {
      var t', ts' := t[..|t| - 1], ts[..|t| - 1];
      assert (s + t)[..|s + t| - 1] == s + t' && (ks + ts)[..|s + t| - 1] == ks + ts';
      GroupAppend(s, ks, t', ts', k);
    }
  }

  /** How many times v occurs in t. */
  function Occ(t: seq<int>, v: int): (n: nat)
    ensures n <= |t|
  {
    if t == [] then 0 else Occ(t[..|t| - 1], v) + (if t[|t| - 1] == v then 1 else 0)
  }

  /** Nothing is grouped from nothing. */
  lemma {:induction false} GroupedEmpty(k: int)
    ensures Grouped([], [], k) == []
    decreases k
  {
    if k > 0 {
      GroupedEmpty(k - 1);
    }
  }

  /** An entry appended with key y leaves the groups below y as they were. */
  lemma {:induction false} GroupedSnocBelow(s: seq<int>, ks: seq<int>, k: int, x: int, y: int)
    requires |ks| == |s| && k <= y
    ensures Grouped(s + [x], ks + [y], k) == Grouped(s, ks, k)
    decreases k
  {
    if k > 0 {
      GroupedSnocBelow(s, ks, k - 1, x, y);
      GroupSnoc(s, ks, k - 1, x, y);
    }
  }

  /** An entry appended with key k - 1 lands at the very end of the first k groups. */
  lemma GroupedSnocTop(s: seq<int>, ks: seq<int>, k: int, x: int, y: int)
    requires |ks| == |s| && y == k - 1 && 0 <= y
    ensures Grouped(s + [x], ks + [y], k) == Grouped(s, ks, k) + [x]
  {
    GroupedSnocBelow(s, ks, k - 1, x, y);
    GroupSnoc(s, ks, k - 1, x, y);
    assert Grouped(s, ks, k - 1) + (Group(s, ks, k - 1) + [x]) == (Grouped(s, ks, k - 1) + Group(s, ks, k - 1)) + [x];
  }

  /** Appending the same sequence to two sequences keeps one extra entry in the first. */
  lemma MultisetJoin(a: seq<int>, a0: seq<int>, b: seq<int>, x: int)
    requires multiset(a) == multiset(a0) + multiset{x}
    ensures multiset(a + b) == multiset(a0 + b) + multiset{x}
  {
  }

  /** An entry appended with key y in [0, k) adds exactly that entry to the first k groups. */
  lemma {:induction false} GroupedSnocAbove(s: seq<int>, ks: seq<int>, k: int, x: int, y: int)
    requires |ks| == |s| && 0 <= y < k
    ensures multiset(Grouped(s + [x], ks + [y], k)) == multiset(Grouped(s, ks, k)) + multiset{x}
    decreases k
  {
    if k - 1 == y {
      GroupedSnocTop(s, ks, k, x, y);
    } else {
      GroupedSnocAbove(s, ks, k - 1, x, y);
      GroupSnoc(s, ks, k - 1, x, y);
      MultisetJoin(Grouped(s + [x], ks + [y], k - 1), Grouped(s, ks, k - 1), Group(s, ks, k - 1), x);
    }
  }

  /** With every key in [0, K), the K groups together are a rearrangement of s. */
  lemma {:induction false} GroupedPermutes(s: seq<int>, ks: seq<int>, K: int)
    requires |ks| == |s| && KeysIn(ks, K)
    ensures multiset(Grouped(s, ks, K)) == multiset(s)
    ensures |Grouped(s, ks, K)| == |s|
    decreases |s|
  {
    if s == [] {
      GroupedEmpty(K);
    } else {
      var s', ks' := s[..|s| - 1], ks[..|s| - 1];
      assert s == s' + [s[|s| - 1]] && ks == ks' + [ks[|s| - 1]];
      GroupedPermutes(s', ks', K);
      GroupedSnocAbove(s', ks', K, s[|s| - 1], ks[|s| - 1]);
    }
    assert |multiset(Grouped(s, ks, K))| == |Grouped(s, ks, K)|;
  }

  /** Every entry of group k is an entry of s whose key is k. */
  lemma {:induction false} GroupMembers(s: seq<int>, ks: seq<int>, k: int)
    requires |ks| == |s|
    ensures forall x :: x in Group(s, ks, k) ==> exists i :: 0 <= i < |s| && s[i] == x && ks[i] == k
    decreases |s|
  {
    if s != [] {
      var s', ks' := s[..|s| - 1], ks[..|s| - 1];
      GroupMembers(s', ks', k);
      forall x | x in Group(s, ks, k)
        ensures exists i :: 0 <= i < |s| && s[i] == x && ks[i] == k
      {
        if x in Group(s', ks', k) {
          var i :| 0 <= i < |s'| && s'[i] == x && ks'[i] == k;
          assert s[i] == x && ks[i] == k;
        } else {
          assert s[|s| - 1] == x && ks[|s| - 1] == k;
        }
      }
    }
  }

  /** Every entry of the first k groups is an entry of s whose key is in [0, k). */
  lemma {:induction false} GroupedMembers(s: seq<int>, ks: seq<int>, k: int)
    requires |ks| == |s|
    ensures forall x :: x in Grouped(s, ks, k) ==> exists i :: 0 <= i < |s| && s[i] == x && 0 <= ks[i] < k
    decreases k
  {
    if k > 0 {
      GroupedMembers(s, ks, k - 1);
      GroupMembers(s, ks, k - 1);
      forall x | x in Grouped(s, ks, k)
        ensures exists i :: 0 <= i < |s| && s[i] == x && 0 <= ks[i] < k
      {
        if x in Grouped(s, ks, k - 1) {
          var i :| 0 <= i < |s| && s[i] == x && 0 <= ks[i] < k - 1;
        } else {
          assert x in Group(s, ks, k - 1);
          var i :| 0 <= i < |s| && s[i] == x && ks[i] == k - 1;
        }
      }
    }
  }

  /** Group k has one entry for every occurrence of k among the keys. */
  lemma {:induction false} GroupSize(s: seq<int>, ks: seq<int>, k: int)
    requires |ks| == |s|
    ensures |Group(s, ks, k)| == Occ(ks, k)
    decreases |s|
  {
    if s != [] {
      GroupSize(s[..|s| - 1], ks[..|s| - 1], k);
    }
  }

  /** Occurrences in a prefix one entry longer. */
  lemma OccPrefixStep(t: seq<int>, i: int, v: int)
    requires 0 <= i < |t|
    ensures Occ(t[..i + 1], v) == Occ(t[..i], v) + (if t[i] == v then 1 else 0)
  {
    assert t[..i + 1][..i] == t[..i];
  }

  /** The whole of t is its longest prefix; the empty prefix has no occurrences. */
  lemma OccWhole(t: seq<int>, v: int)
    ensures Occ(t[..|t|], v) == Occ(t, v) && Occ(t[..0], v) == 0
  {
    assert t[..|t|] == t;
  }

  /**
   * Where group k begins when the groups are laid out in key order: the number of keys
   * below k, counted key by key from 0.
   */
  function GroupStart(ks: seq<int>, k: int): (n: nat)
    decreases k
  {
    if k <= 0 then 0 else GroupStart(ks, k - 1) + Occ(ks, k - 1)
  }

  /** The first k groups laid out take up exactly the positions before group k's start. */
  lemma {:induction false} GroupStartLength(s: seq<int>, ks: seq<int>, k: int)
    requires |ks| == |s|
    ensures GroupStart(ks, k) == |Grouped(s, ks, k)|
    decreases k
  {
    if k > 0 {
      GroupStartLength(s, ks, k - 1);
      GroupSize(s, ks, k - 1);
    }
  }

  /** With every key in [0, K), group K starts past every entry. */
  lemma GroupStartAll(ks: seq<int>, K: int)
    requires KeysIn(ks, K)
    ensures GroupStart(ks, K) == |ks|
  {
    GroupStartLength(ks, ks, K);
    GroupedPermutes(ks, ks, K);
  }

  /** Later groups begin no earlier than earlier groups end. */
  lemma {:induction false} GroupStartGrows(ks: seq<int>, k: int, k': int)
    requires 0 <= k <= k'
    ensures GroupStart(ks, k) <= GroupStart(ks, k')
    decreases k'
  {
    if k < k' {
      GroupStartGrows(ks, k, k' - 1);
    }
  }

  /** The group r whose block [GroupStart(r), GroupStart(r + 1)) holds position p, for p before the start of group K. */
  function BlockOf(ks: seq<int>, K: int, p: int): (r: int)
    requires 0 <= p < GroupStart(ks, K)
    ensures 0 <= r < K
    ensures GroupStart(ks, r) <= p < GroupStart(ks, r + 1)
    decreases K
  {
    if p >= GroupStart(ks, K - 1) then K - 1 else BlockOf(ks, K - 1, p)
  }

  /** Position p lies in group k when p is inside k's block. */
  lemma BlockOfUnique(ks: seq<int>, K: int, p: int, k: int)
    requires 0 <= k < K && 0 <= p < GroupStart(ks, K)
    requires GroupStart(ks, k) <= p < GroupStart(ks, k + 1)
    ensures BlockOf(ks, K, p) == k
  {
    var r := BlockOf(ks, K, p);
    if r < k {
      GroupStartGrows(ks, r + 1, k);
    } else if r > k {
      GroupStartGrows(ks, k + 1, r);
    }
  }

  /** Entry j of group k is entry GroupStart(k) + j of the first K groups laid out, for k < K. */
  lemma {:induction false} GroupedAt(s: seq<int>, ks: seq<int>, K: int, k: int, j: int)
    requires |ks| == |s| && 0 <= k < K && 0 <= j < |Group(s, ks, k)|
    ensures GroupStart(ks, k) + j < |Grouped(s, ks, K)|
    ensures Grouped(s, ks, K)[GroupStart(ks, k) + j] == Group(s, ks, k)[j]
    decreases K
  {
    var a, b := Grouped(s, ks, K - 1), Group(s, ks, K - 1);
    assert Grouped(s, ks, K) == a + b;
    if k < K - 1 {
      GroupedAt(s, ks, K - 1, k, j);
    } else {
      GroupStartLength(s, ks, k);
      assert (a + b)[|a| + j] == b[j];
    }
  }

  /**
   * Entry i of s sits in its group right after the entries with the same key that come
   * before it.
   */
  lemma GroupPlace(s: seq<int>, ks: seq<int>, i: int)
    requires |ks| == |s| && 0 <= i < |s|
    ensures Occ(ks[..i], ks[i]) < |Group(s, ks, ks[i])|
    ensures Group(s, ks, ks[i])[Occ(ks[..i], ks[i])] == s[i]
  {
    var k := ks[i];
    assert s == s[..i + 1] + s[i + 1..] && ks == ks[..i + 1] + ks[i + 1..];
    assert s[..i + 1] == s[..i] + [s[i]] && ks[..i + 1] == ks[..i] + [ks[i]];
    GroupSnoc(s[..i], ks[..i], k, s[i], ks[i]);
    GroupAppend(s[..i + 1], ks[..i + 1], s[i + 1..], ks[i + 1..], k);
    GroupSize(s[..i], ks[..i], k);
  }

  /** Fewer entries before index i share its key than the whole sequence has. */
  lemma OccBefore(t: seq<int>, i: int)
    requires 0 <= i < |t|
    ensures Occ(t[..i], t[i]) < Occ(t, t[i])
  {
    GroupPlace(t, t, i);
    GroupSize(t, t, t[i]);
  }

  /**
   * Entry i of s, whose key is k < K, belongs at position GroupStart(k) + (the number of
   * earlier entries with key k) of the K groups laid out.
   */
  lemma PlaceTarget(s: seq<int>, ks: seq<int>, K: int, i: int)
    requires |ks| == |s| && 0 <= i < |s| && 0 <= ks[i] < K
    ensures GroupStart(ks, ks[i]) + Occ(ks[..i], ks[i]) < |Grouped(s, ks, K)|
    ensures Grouped(s, ks, K)[GroupStart(ks, ks[i]) + Occ(ks[..i], ks[i])] == s[i]
  {
    GroupPlace(s, ks, i);
    GroupedAt(s, ks, K, ks[i], Occ(ks[..i], ks[i]));
  }

  /** When every key is the value itself, the groups laid out in key order are ascending. */
  lemma {:induction false} GroupedByValueSorted(s: seq<int>, K: int)
    requires 0 <= K
    ensures Sorted(Grouped(s, s, K))
    decreases K
  {
    if K > 0 {
      var a, b := Grouped(s, s, K - 1), Group(s, s, K - 1);
      GroupedByValueSorted(s, K - 1);
      GroupedMembers(s, s, K - 1);
      GroupMembers(s, s, K - 1);
      forall p, q | 0 <= p < q < |a + b|
        ensures (a + b)[p] <= (a + b)[q]
      {
        if q < |a| {
        } else if p < |a| {
          assert a[p] in a && b[q - |a|] in b;
        } else {
          assert b[p - |a|] in b && b[q - |a|] in b;
        }
      }
      assert Grouped(s, s, K) == a + b;
    }
  }

  /** A slot of an output array under construction: `undefined`, or the value put there. */
  datatype Slot = Empty | Holds(v: int)

  /**
   * The output array half built by the right-to-left placement loop of counting and radix
   * sort, for keys ks in [0, |c|) and the target g (the groups laid out in key order),
   * when the entries [0, u) are still to be placed: counter k points just past the free
   * part of group k's block, and a slot is filled, with the target's value there, exactly
   * when it lies past the counter of its block.
   */
  predicate Placing(ks: seq<int>, g: seq<int>, c: seq<int>, o: seq<Slot>, u: int)
  {
    |g| == |ks| && |o| == |ks| && 0 <= u <= |ks| && GroupStart(ks, |c|) == |ks|
    && (forall k {:trigger c[k]} :: 0 <= k < |c| ==> c[k] == GroupStart(ks, k) + Occ(ks[..u], k))
    && (forall p {:trigger o[p]} :: 0 <= p < |ks| ==>
          o[p] == if c[BlockOf(ks, |c|, p)] <= p then Holds(g[p]) else Empty)
  }

  /** After the prefix sums and with every slot empty, placement has not begun. */
  lemma PlacingStart(ks: seq<int>, g: seq<int>, c: seq<int>, o: seq<Slot>)
    requires KeysIn(ks, |c|) && |g| == |ks| && |o| == |ks|
    requires forall k :: 0 <= k < |c| ==> c[k] == GroupStart(ks, k + 1)
    requires forall p :: 0 <= p < |o| ==> o[p] == Empty
    ensures Placing(ks, g, c, o, |ks|)
  {
    GroupStartAll(ks, |c|);
    forall k | 0 <= k < |c|
      ensures c[k] == GroupStart(ks, k) + Occ(ks[..|ks|], k)
    {
      OccWhole(ks, k);
    }
  }

  /**
   * Placing entry i, whose key is k: its counter drops by one and names the last free slot
   * of its block, which the target gives to this entry.
   */
  lemma {:induction false} PlacingStep(s: seq<int>, ks: seq<int>, g: seq<int>, c: seq<int>, o: seq<Slot>, i: int, k: int)
    requires |ks| == |s| && 0 <= i < |s| && k == ks[i] && 0 <= k < |c| && g == Grouped(s, ks, |c|)
    requires Placing(ks, g, c, o, i + 1)
    ensures 0 <= c[k] - 1 < |s| && g[c[k] - 1] == s[i]
    ensures Placing(ks, g, c[k := c[k] - 1], o[c[k] - 1 := Holds(s[i])], i)
  {
    var K := |c|;
    OccPrefixStep(ks, i, k);
    var pos := c[k] - 1;
    assert pos == GroupStart(ks, k) + Occ(ks[..i], k);
    assert g[pos] == s[i] by {
      PlaceTarget(s, ks, K, i);
    }
    OccBefore(ks, i);
    BlockOfUnique(ks, K, pos, k);
    var c', o' := c[k := c[k] - 1], o[pos := Holds(s[i])];
    forall k' | 0 <= k' < K
      ensures c'[k'] == GroupStart(ks, k') + Occ(ks[..i], k')
    {
      OccPrefixStep(ks, i, k');
    }
    forall p | 0 <= p < |s|
      ensures o'[p] == if c'[BlockOf(ks, K, p)] <= p then Holds(g[p]) else Empty
    {
      if p != pos {
        assert o'[p] == o[p];
      }
    }
  }

  /** With nothing left to place, every slot holds the target's value. */
  lemma PlacingDone(ks: seq<int>, g: seq<int>, c: seq<int>, o: seq<Slot>)
    requires Placing(ks, g, c, o, 0)
    ensures forall p :: 0 <= p < |ks| ==> o[p] == Holds(g[p])
  {
    forall p | 0 <= p < |ks|
      ensures o[p] == Holds(g[p])
    {
      var k := BlockOf(ks, |c|, p);
      OccWhole(ks, k);
    }
  }

  /**
   * The counting loop of counting and radix sort (lib/algorithms.tsx:1137-1159,
   * lib/algorithms.tsx:1314-1340): for each index, read the flag (and stop when it is
   * set), tally the index and count its key. Run to the end, counter k is the size of
   * group k.
   */
  method CountKeys(a: array<int>, cnt: array<int>, key: Key, ghost ks: seq<int>, run0: Run, cancel: Cancel)
    returns (run: Run)
    requires a != cnt && KeysOf(ks, key, a[..]) && KeysIn(ks, cnt.Length)
    requires forall k :: 0 <= k < cnt.Length ==> cnt[k] == 0
    requires run0.Valid(a.Length, cancel) && !run0.cancelled
    modifies cnt
    ensures run.Valid(a.Length, cancel) && Grows(run0, run) && run.shown == run0.shown
    ensures run.comparisons == run0.comparisons && run.swaps == run0.swaps
    ensures !run.cancelled ==> forall k :: 0 <= k < cnt.Length ==> cnt[k] == Occ(ks, k)
  {
    run := run0;
    forall k | 0 <= k < cnt.Length
      ensures cnt[k] == Occ(ks[..0], k)
    {
      OccWhole(ks, k);
    }
    var i := 0;
    while i < a.Length
      invariant 0 <= i <= a.Length
      invariant forall k :: 0 <= k < cnt.Length ==> cnt[k] == Occ(ks[..i], k)
      invariant run.Valid(a.Length, cancel) && !run.cancelled && Grows(run0, run) && run.shown == run0.shown
      invariant run.comparisons == run0.comparisons && run.swaps == run0.swaps
    {
      run := run.Poll(cancel);
      if run.cancelled {
        return;
      }
      run := run.Touch(i);
      var k := key.Of(a[i]);
      assert k == ks[i];
      cnt[k] := cnt[k] + 1;
      forall k' | 0 <= k' < cnt.Length
        ensures cnt[k'] == Occ(ks[..i + 1], k')
      {
        OccPrefixStep(ks, i, k');
      }
      i := i + 1;
    }
    forall k | 0 <= k < cnt.Length
      ensures cnt[k] == Occ(ks, k)
    {
      OccWhole(ks, k);
    }
  }

  /**
   * The prefix-sum loop of counting and radix sort (lib/algorithms.tsx:1161-1166,
   * lib/algorithms.tsx:1342-1345): `count[i] += count[i - 1]` for i from 1 on. Counter k
   * goes from the number of keys equal to k to the number of keys up to k, the start of
   * group k + 1.
   */
  method PrefixSums(cnt: array<int>, ghost ks: seq<int>)
    requires forall k :: 0 <= k < cnt.Length ==> cnt[k] == Occ(ks, k)
    modifies cnt
    ensures forall k :: 0 <= k < cnt.Length ==> cnt[k] == GroupStart(ks, k + 1)
  {
    if cnt.Length == 0 {
      return;
    }
    var i := 1;
    while i < cnt.Length
      invariant 1 <= i <= cnt.Length
      invariant forall k :: 0 <= k < i ==> cnt[k] == GroupStart(ks, k + 1)
      invariant forall k :: i <= k < cnt.Length ==> cnt[k] == Occ(ks, k)
    {
      cnt[i] := cnt[i] + cnt[i - 1];
      i := i + 1;
    }
  }

  /** The array counting sort hands to `setArray` while placing: the placed values over the old array. */
  function Overlay(s: seq<int>, o: seq<Slot>): (r: seq<int>)
    requires |o| == |s|
    ensures |r| == |s|
    ensures forall j :: 0 <= j < |s| ==> r[j] == if o[j].Holds? then o[j].v else s[j]
  {
    seq(|s|, j requires 0 <= j < |s| => if o[j].Holds? then o[j].v else s[j])
  }

  /**
   * One round of the placement loop after its read of the flag (lib/algorithms.tsx:1180-1205,
   * lib/algorithms.tsx:1359-1384): tally index i, put arr[i] at `count[key] - 1`, lower
   * that counter and count a swap; counting sort also shows the placed values.
   */
  method PlaceStep(a: array<int>, cnt: array<int>, out: array<Slot>, key: Key, ghost ks: seq<int>,
                   ghost g: seq<int>, i: int, run0: Run, cancel: Cancel, show: bool) returns (run: Run)
    requires a != cnt && 0 <= i < a.Length && KeysOf(ks, key, a[..]) && KeysIn(ks, cnt.Length)
    requires g == Grouped(a[..], ks, cnt.Length) && Placing(ks, g, cnt[..], out[..], i + 1)
    requires run0.Valid(a.Length, cancel)
    modifies cnt, out
    ensures Placing(ks, g, cnt[..], out[..], i)
    ensures run.Valid(a.Length, cancel) && run.cancelled == run0.cancelled && run.polls == run0.polls
    ensures run.comparisons == run0.comparisons && run.swaps == run0.swaps + 1
    ensures run.shown == if show then Overlay(a[..], out[..]) else run0.shown
  {
    ghost var c, o := cnt[..], out[..];
    run := run0.Touch(i);
    var element := a[i];
    var k := key.Of(element);
    assert k == ks[i];
    var position := cnt[k] - 1;
    PlacingStep(a[..], ks, g, c, o, i, k);
    out[position] := Holds(element);
    cnt[k] := cnt[k] - 1;
    assert cnt[..] == c[k := c[k] - 1] && out[..] == o[c[k] - 1 := Holds(a[i])];
    run := run.Swap();
    if show {
      run := run.Publish(Overlay(a[..], out[..]));
    }
  }

  /**
   * The placement loop of counting and radix sort (lib/algorithms.tsx:1168-1208,
   * lib/algorithms.tsx:1347-1385): for i from n - 1 down to 0, read the flag (and stop
   * when it is set), then place arr[i]. Run to the end, the output holds the groups laid
   * out in key order, every slot filled, with one swap counted per entry.
   */
  method Place(a: array<int>, cnt: array<int>, out: array<Slot>, key: Key, ghost ks: seq<int>,
               run0: Run, cancel: Cancel, show: bool) returns (run: Run)
    requires a != cnt && out.Length == a.Length && KeysOf(ks, key, a[..]) && KeysIn(ks, cnt.Length)
    requires forall k :: 0 <= k < cnt.Length ==> cnt[k] == GroupStart(ks, k + 1)
    requires forall p :: 0 <= p < out.Length ==> out[p] == Empty
    requires run0.Valid(a.Length, cancel) && !run0.cancelled
    modifies cnt, out
    ensures run.Valid(a.Length, cancel) && Grows(run0, run) && run.comparisons == run0.comparisons
    ensures !show ==> run.shown == run0.shown
    ensures |Grouped(a[..], ks, cnt.Length)| == a.Length
    ensures !run.cancelled ==> run.swaps == run0.swaps + a.Length
    ensures !run.cancelled ==> forall p :: 0 <= p < a.Length ==> out[p] == Holds(Grouped(a[..], ks, cnt.Length)[p])
  {
    ghost var g := Grouped(a[..], ks, cnt.Length);
    GroupedPermutes(a[..], ks, cnt.Length);
    PlacingStart(ks, g, cnt[..], out[..]);
    run := run0;
    var i := a.Length - 1;
    while i >= 0
      invariant -1 <= i < a.Length
      invariant Placing(ks, g, cnt[..], out[..], i + 1)
      invariant run.Valid(a.Length, cancel) && !run.cancelled && Grows(run0, run)
      invariant run.comparisons == run0.comparisons && run.swaps == run0.swaps + (a.Length - 1 - i)
      invariant !show ==> run.shown == run0.shown
    {
      run := run.Poll(cancel);
      if run.cancelled {
        return;
      }
      run := PlaceStep(a, cnt, out, key, ks, g, i, run, cancel, show);
      i := i - 1;
    }
    PlacingDone(ks, g, cnt[..], out[..]);
  }

  /**
   * The copy-back loop of counting and radix sort (lib/algorithms.tsx:1210-1214,
   * lib/algorithms.tsx:1387-1390): `arr[i] = output[i]` for every index, once every slot
   * is filled; the array becomes what the output holds.
   */
  method CopyBack(a: array<int>, out: array<Slot>, ghost g: seq<int>)
    requires out.Length == a.Length == |g| && forall p :: 0 <= p < out.Length ==> out[p] == Holds(g[p])
    modifies a
    ensures a[..] == g
  {
    var i := 0;
    while i < a.Length
      invariant 0 <= i <= a.Length
      invariant a[..i] == g[..i]
    {
      a[i] := out[i].v;
      assert a[..i + 1] == a[..i] + [a[i]] && g[..i + 1] == g[..i] + [g[i]];
      i := i + 1;
    }
    assert a[..] == a[..a.Length] && g == g[..|g|];
  }
}
