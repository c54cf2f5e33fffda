/**
 * The `number[][]` boards the backtracking solvers of hooks/useBacktracking.ts work on: a
 * board is a value here, and setting a cell gives a new board. Counting the cells that hold
 * a value gives the solvers their measures (the empty cells left) and N-Queens its "one queen
 * per row".
 */
module Boards {
  type Board = seq<seq<int>>

  /** n rows of n cells each. */
  predicate Square(b: Board, n: nat)
  {
    |b| == n && forall i :: 0 <= i < n ==> |b[i]| == n
  }

  /** `board[r][c] = v`. */
  function Set(b: Board, r: nat, c: nat, v: int): Board
    requires r < |b| && c < |b[r]|
  {
    b[r := b[r][c := v]]
  }

  /** `Array(n).fill(0).map(() => Array(n).fill(0))`: n rows of n zeros. */
  function Zeroes(n: nat): (b: Board)
    ensures Square(b, n)
    ensures forall i, j :: 0 <= i < n && 0 <= j < n ==> b[i][j] == 0
  {
    seq(n, _ => seq(n, _ => 0))
  }

  /** How many cells of the row hold v. */
  function CountIn(r: seq<int>, v: int): nat
    decreases |r|
  {
    if r == [] then 0 else (if r[|r| - 1] == v then 1 else 0) + CountIn(r[..|r| - 1], v)
  }

  /** How many cells of the board hold v. */
  function Count(b: Board, v: int): nat
    decreases |b|
  {
    if b == [] then 0 else CountIn(b[|b| - 1], v) + Count(b[..|b| - 1], v)
  }

  /** No cell holds v exactly when the count is zero. */
  lemma {:induction false} CountInNone(r: seq<int>, v: int)
    ensures CountIn(r, v) == 0 <==> forall j :: 0 <= j < |r| ==> r[j] != v
    decreases |r|
  {
    if r != [] {
      CountInNone(r[..|r| - 1], v);
    }
  }

  /** Two different cells holding v count twice: with a count of one, v is in one cell only. */
  lemma {:induction false} CountInTwo(r: seq<int>, v: int, a: nat, b: nat)
    requires a < |r| && b < |r| && a != b && r[a] == v && r[b] == v
    ensures CountIn(r, v) >= 2
    decreases |r|
  {
    var k := |r| - 1;
    if a != k && b != k {
      CountInTwo(r[..k], v, a, b);
    } else {
      var other := if a == k then b else a;
      CountInNone(r[..k], v);
      assert r[..k][other] == v;
    }
  }

  /** Writing w over the cell at c: the count of v loses that cell's old value and gains w. */
  lemma {:induction false} CountInSet(r: seq<int>, c: nat, v: int, w: int)
    requires c < |r|
    ensures CountIn(r[c := w], v) + (if r[c] == v then 1 else 0) == CountIn(r, v) + (if w == v then 1 else 0)
    decreases |r|
  {
    var k := |r| - 1;
    if c < k {
      CountInSet(r[..k], c, v, w);
      assert r[c := w][..k] == r[..k][c := w];
    } else {
      assert r[c := w][..k] == r[..k];
    }
  }

  /** The same for the whole board. */
  lemma {:induction false} CountSet(b: Board, r: nat, c: nat, v: int, w: int)
    requires r < |b| && c < |b[r]|
    ensures Count(Set(b, r, c, w), v) + (if b[r][c] == v then 1 else 0) == Count(b, v) + (if w == v then 1 else 0)
    decreases |b|
  {
    var k := |b| - 1;
    CountInSet(b[r], c, v, w);
    if r < k {
      CountSet(b[..k], r, c, v, w);
      assert Set(b, r, c, w)[..k] == Set(b[..k], r, c, w);
    } else {
      assert Set(b, r, c, w)[..k] == b[..k];
    }
  }

  /** No cell of the board holds v exactly when the count is zero. */
  lemma {:induction false} CountNone(b: Board, v: int)
    ensures Count(b, v) == 0 <==> forall i, j :: 0 <= i < |b| && 0 <= j < |b[i]| ==> b[i][j] != v
    decreases |b|
  {
    if b != [] {
      var k := |b| - 1;
      CountNone(b[..k], v);
      CountInNone(b[k], v);
      assert forall i :: 0 <= i < k ==> b[..k][i] == b[i];
    }
  }

  /** A row whose every cell holds v counts all its cells. */
  lemma {:induction false} CountInAll(r: seq<int>, v: int)
    requires forall j :: 0 <= j < |r| ==> r[j] == v
    ensures CountIn(r, v) == |r|
    decreases |r|
  {
    if r != [] {
      CountInAll(r[..|r| - 1], v);
    }
  }

  /** An n-column board whose every cell holds v counts all its cells. */
  lemma {:induction false} CountAll(b: Board, n: nat, v: int)
    requires forall i :: 0 <= i < |b| ==> |b[i]| == n
    requires forall i, j :: 0 <= i < |b| && 0 <= j < n ==> b[i][j] == v
    ensures Count(b, v) == |b| * n
    decreases |b|
  {
    if b != [] {
      var k := |b| - 1;
      CountAll(b[..k], n, v);
      CountInAll(b[k], v);
    }
  }

  /** Writing 0 back over a cell that held 0 gives the board back. */
  lemma SetBack(b: Board, r: nat, c: nat, v: int)
    requires r < |b| && c < |b[r]| && b[r][c] == 0
    ensures Set(Set(b, r, c, v), r, c, 0) == b
  {
    assert b[r][c := v][c := 0] == b[r];
  }

  /** Writing 0 over a cell that holds 0 changes nothing. */
  lemma SetZero(b: Board, r: nat, c: nat)
    requires r < |b| && c < |b[r]| && b[r][c] == 0
    ensures Set(b, r, c, 0) == b
  {
    assert b[r][c := 0] == b[r];
  }
}
