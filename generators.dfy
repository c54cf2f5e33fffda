/**
 * The array generators of the sorting page and of its challenges: random values, nearly and
 * mostly sorted permutations, a reversed run and few distinct values. The hook's generators
 * (hooks/useAlgorithmVisualizer.ts:91-165) and the challenge generators (lib/challenges.ts:5-77)
 * build their arrays the same way and are modelled once, here. `Math.random` is a parameter:
 * `u(k)` is the k-th number it returns during one call of a generator.
 */
module Generators {

  /** Every draw of `Math.random` lies in [0, 1). */
  ghost predicate Draws(u: nat -> real)
  {
    forall k: nat :: 0.0 <= u(k) < 1.0
  }

  /**
   * `Math.floor(Math.random() * k)`: an index below k, or 0 when k is 0.
   */
  function Pick(r: real, k: nat): (i: nat)
    requires 0.0 <= r < 1.0
    ensures if k == 0 then i == 0 else i < k
  {
    if k == 0 then 0 else ScaleBelow(r, k as real); (r * k as real).Floor
  }

  /** A draw from [0, 1) scaled by a positive x lies in [0, x). */
  lemma ScaleBelow(r: real, x: real)
    requires 0.0 <= r < 1.0 && x > 0.0
    ensures 0.0 <= r * x < x
  {
    assert x - r * x == (1.0 - r) * x;
  }

  /** `1, 2, ..., n`. */
  function Ascending(n: nat): (s: seq<int>)
  {
    seq(n, i => i + 1)
  }

  /** `n, n - 1, ..., 1`. */
  function Descending(n: nat): (s: seq<int>)
  {
    seq(n, i => n - i)
  }

  /** The values the "few unique" generators draw from. */
  const Unique: seq<int> := [10, 30, 50, 70, 90]

  /** The entries at i and j exchanged. */
  function Swap<T>(s: seq<T>, i: nat, j: nat): (r: seq<T>)
    requires i < |s| && j < |s|
    ensures |r| == |s| && multiset(r) == multiset(s)
    ensures r[i] == s[j] && r[j] == s[i]
    ensures forall k :: 0 <= k < |s| && k != i && k != j ==> r[k] == s[k]
  {
    s[i := s[j]][j := s[i]]
  }

  /** The positions at which two sequences of one length hold different values. */
  ghost function Differ<T>(s: seq<T>, r: seq<T>): set<int>
    requires |s| == |r|
  {
    set k | 0 <= k < |s| && s[k] != r[k]
  }

  /** One more swap adds at most its two positions to those that differ from the start. */
  lemma DifferSwap<T>(s: seq<T>, r: seq<T>, i: nat, j: nat, touched: set<int>)
    requires |s| == |r| && i < |r| && j < |r| && Differ(s, r) <= touched
    ensures Differ(s, Swap(r, i, j)) <= touched + {i, j}
    ensures |touched + {i, j}| <= |touched| + 2
  {
    var t := touched + {i};
    assert |t| <= |touched| + 1;
    assert t + {j} == touched + {i, j};
  }

  /** Fewer differing positions than touched ones. */
  lemma DifferBound<T>(s: seq<T>, r: seq<T>, touched: set<int>)
    requires |s| == |r| && Differ(s, r) <= touched
    ensures |Differ(s, r)| <= |touched|
  {
    var d := Differ(s, r);
    assert touched == d + (touched - d);
  }

  /** Descending is a permutation of ascending: both hold each of 1..n once. */
  lemma {:induction false} DescendingPermutes(n: nat)
    ensures multiset(Descending(n)) == multiset(Ascending(n))
  {
    if n > 0 {
      DescendingPermutes(n - 1);
      assert Descending(n) == [n] + Descending(n - 1);
      assert Ascending(n) == Ascending(n - 1) + [n];
    }
  }

  /**
   * `generateArray` (hooks/useAlgorithmVisualizer.ts:91-96) and the "Random Array" challenge
   * (lib/challenges.ts:5-11): `size` values, the i-th one `floor(u(i) * 100) + 1`, so each lies
   * in [1, 100].
   */
  method RandomArray(size: nat, u: nat -> real) returns (a: seq<int>)
    requires Draws(u)
    ensures |a| == size && forall i :: 0 <= i < size ==> 1 <= a[i] <= 100
    ensures forall i :: 0 <= i < size ==> a[i] == Pick(u(i), 100) + 1
  {
    a := [];
    for i := 0 to size
      invariant |a| == i && forall k :: 0 <= k < i ==> a[k] == Pick(u(k), 100) + 1
    {
      a := a + [Pick(u(i), 100) + 1];
    }
  }

  /** The identity arrangement `1..size`, pushed one value at a time. */
  method Identity(size: nat) returns (a: seq<int>)
    ensures a == Ascending(size)
  {
    a := [];
    for i := 0 to size
      invariant a == Ascending(i)
    {
      a := a + [i + 1];
    }
  }

  /**
   * The swap loop of the nearly and mostly sorted generators: `count` times, two indices
   * `floor(u * |a|)` are drawn (draws 2k and 2k + 1 in round k) and their entries exchanged.
   * The result is a permutation of the input that differs from it in at most `2 * count`
   * positions. Drawing from an empty array is the caller's concern: with no entries there is
   * nothing to swap.
   */
  method SwapRandomly(a: seq<int>, count: nat, u: nat -> real) returns (r: seq<int>)
    requires Draws(u) && (count > 0 ==> |a| > 0)
    ensures |r| == |a| && multiset(r) == multiset(a)
    ensures |Differ(a, r)| <= 2 * count
  {
    r := a;
    ghost var touched: set<int> := {};
    for k := 0 to count
      invariant |r| == |a| && multiset(r) == multiset(a)
      invariant Differ(a, r) <= touched && |touched| <= 2 * k
    {
      var i := Pick(u(2 * k), |r|);
      var j := Pick(u(2 * k + 1), |r|);
      DifferSwap(a, r, i, j, touched);
      r := Swap(r, i, j);
      touched := touched + {i, j};
    }
    DifferBound(a, r, touched);
  }

  /**
   * `generateNearlySortedArray` (hooks/useAlgorithmVisualizer.ts:110-124) and the "Nearly
   * Sorted" challenge (lib/challenges.ts:17-33): `1..size` with `floor(size * 0.1)` random
   * swaps. For a whole number n, `n * 0.1` in floating point never falls below the next whole
   * number down, so that count is `size / 10`. The result is a permutation of `1..size` with at
   * most `2 * (size / 10)` values out of place.
   */
  method NearlySorted(size: nat, u: nat -> real) returns (a: seq<int>)
    requires Draws(u)
    ensures |a| == size && multiset(a) == multiset(Ascending(size))
    ensures |Differ(Ascending(size), a)| <= 2 * (size / 10)
  {
    var id := Identity(size);
    a := SwapRandomly(id, size / 10, u);
  }

  /**
   * `generateReversedArray` (hooks/useAlgorithmVisualizer.ts:140-146) and the "Reversed"
   * challenge (lib/challenges.ts:38-44): `size, size - 1, ..., 1`, a permutation of `1..size`
   * in strictly falling order.
   */
  method Reversed(size: nat) returns (a: seq<int>)
    ensures a == Descending(size)
    ensures multiset(a) == multiset(Ascending(size))
    ensures forall i, j :: 0 <= i < j < |a| ==> a[i] > a[j]
  {
    a := [];
    var i := size;
    while i > 0
      invariant 0 <= i <= size && a == Descending(size)[..size - i]
    {
      assert Descending(size)[..size - i + 1] == Descending(size)[..size - i] + [i];
      a := a + [i];
      i := i - 1;
    }
    DescendingPermutes(size);
  }

  /**
   * `generateFewUniqueArray` (hooks/useAlgorithmVisualizer.ts:159-165) and the "Few Unique"
   * challenge (lib/challenges.ts:49-56): `size` values, the i-th one the entry of
   * `[10, 30, 50, 70, 90]` at `floor(u(i) * 5)`.
   */
  method FewUnique(size: nat, u: nat -> real) returns (a: seq<int>)
    requires Draws(u)
    ensures |a| == size && forall i :: 0 <= i < size ==> a[i] in Unique
    ensures forall i :: 0 <= i < size ==> a[i] == Unique[Pick(u(i), |Unique|)]
  {
    a := [];
    for i := 0 to size
      invariant |a| == i && forall k :: 0 <= k < i ==> a[k] == Unique[Pick(u(k), |Unique|)]
    {
      a := a + [Unique[Pick(u(i), |Unique|)]];
    }
  }

  /**
   * The "Mostly Sorted" challenge (lib/challenges.ts:62-77) as intended: `1..size` with three
   * random swaps, so a permutation of `1..size` with at most six values out of place; with
   * size 0 there is nothing to swap and the array stays empty.
   */
  method MostlySorted(size: nat, u: nat -> real) returns (a: seq<int>)
    requires Draws(u)
    ensures |a| == size && multiset(a) == multiset(Ascending(size))
    ensures |Differ(Ascending(size), a)| <= 6
  {
    a := Identity(size);
    if size > 0 {
      a := SwapRandomly(a, 3, u);
    } else {
      assert Differ(Ascending(size), a) == {};
    }
  }

  /** A JavaScript array entry: a number, or `undefined` read from a hole or past the end. */
  datatype Val = Num(n: int) | Undefined

  /** Reading `arr[i]`: past the end it is `undefined`. */
  function Load(s: seq<Val>, i: nat): (v: Val)
    ensures i >= |s| ==> v == Undefined
  {
    if i < |s| then s[i] else Undefined
  }

  /** Writing `arr[i] = v`: past the end the array grows to i + 1 entries, holes read as `undefined`. */
  function Store(s: seq<Val>, i: nat, v: Val): (r: seq<Val>)
    ensures |r| == if i < |s| then |s| else i + 1
    ensures r[i] == v && forall k :: 0 <= k < |s| && k != i ==> r[k] == s[k]
  {
    if i < |s| then s[i := v] else s + seq(i - |s|, _ => Undefined) + [v]
  }

  /** `1..n` as JavaScript numbers. */
  function Numbers(n: nat): (s: seq<Val>)
  {
    seq(n, i => Num(i + 1))
  }

  /**
   * `temp = arr[i]; arr[i] = arr[j]; arr[j] = temp` on a JavaScript array: inside the array
   * an exchange; on an empty array at index 0 it leaves one `undefined` entry behind.
   */
  function Exchange(s: seq<Val>, i: nat, j: nat): (r: seq<Val>)
    ensures i < |s| && j < |s| ==> r == Swap(s, i, j)
    ensures s == [] && i == 0 && j == 0 ==> r == [Undefined]
    ensures s == [Undefined] && i == 0 && j == 0 ==> r == [Undefined]
  {
    var temp := Load(s, i);
    var t := Store(s, i, Load(s, j));
    Store(t, j, temp)
  }

  /**
   * The "Mostly Sorted" challenge as written (lib/challenges.ts:62-77): the three swaps run
   * whatever the size. With size 0 each draws index `floor(u * 0) = 0`, reads `arr[0]`, which
   * is `undefined`, and writes it back, so the generator returns `[undefined]`, one entry
   * where none was asked for. For every other size it is a permutation of `1..size`.
   */
  method MostlySortedAsWritten(size: nat, u: nat -> real) returns (a: seq<Val>)
    requires Draws(u)
    ensures size == 0 ==> a == [Undefined]
    ensures size > 0 ==> |a| == size && multiset(a) == multiset(Numbers(size))
  {
    a := [];
    for i := 0 to size
      invariant a == Numbers(i)
    {
      a := a + [Num(i + 1)];
    }
    for k := 0 to 3
      invariant size == 0 ==> a == if k == 0 then [] else [Undefined]
      invariant size > 0 ==> |a| == size && multiset(a) == multiset(Numbers(size))
    {
      var i := Pick(u(2 * k), size);
      var j := Pick(u(2 * k + 1), size);
      a := Exchange(a, i, j);
    }
  }
}
