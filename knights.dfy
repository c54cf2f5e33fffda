/**
 * `generateKnightsTourSteps` (hooks/useBacktracking.ts:882-1061): starting at the top-left
 * square with move 1, the knight writes its move number on each square it lands on and tries
 * its eight moves in a fixed order onto squares still holding 0, taking a move back (the
 * square back to 0) when the rest of the tour cannot be completed. When the last square is
 * numbered, a closed tour is accepted only if the knight can jump from there back to the
 * first square; otherwise that square goes back to 0 and the search goes on.
 */
module Knights {
  import opened RecursionTree
  import opened Boards

  /** A `[row, col]` square. */
  datatype Cell = Cell(row: int, col: int)

  /** The eight knight moves, in the order they are tried. */
  const Moves: seq<(int, int)> := [(-2, -1), (-2, 1), (-1, -2), (-1, 2), (1, -2), (1, 2), (2, -1), (2, 1)]

  function Abs(x: int): nat
  {
    if x < 0 then -x else x
  }

  /**
   * `canKnightMove` (hooks/useBacktracking.ts:1031-1035): the rows differ by two and the
   * columns by one, or the other way round; these are exactly the eight moves.
   */
  function CanKnightMove(r1: int, c1: int, r2: int, c2: int): (r: bool)
    ensures r <==> (r2 - r1, c2 - c1) in Moves
  {
    var dr := Abs(r1 - r2);
    var dc := Abs(c1 - c2);
    (dr == 2 && dc == 1) || (dr == 1 && dc == 2)
  }

  /** The square is on the n by n board. */
  predicate Inside(n: nat, x: Cell)
  {
    0 <= x.row < n && 0 <= x.col < n
  }

  /** The squares in the order the knight reached them: from the top-left corner, each a knight move on from the one before. */
  ghost predicate Tour(n: nat, tour: seq<Cell>)
  {
    (|tour| > 0 ==> tour[0] == Cell(0, 0))
    && (forall k :: 0 <= k < |tour| ==> Inside(n, tour[k]))
    && (forall i, j :: 0 <= i && j == i + 1 && j < |tour| ==>
          CanKnightMove(tour[i].row, tour[i].col, tour[j].row, tour[j].col))
  }

  /** The k-th square of the tour lies on the board and holds k + 1. */
  ghost predicate Marks(b: Board, n: nat, tour: seq<Cell>)
    requires Square(b, n)
  {
    forall k :: 0 <= k < |tour| ==> Inside(n, tour[k]) && b[tour[k].row][tour[k].col] == k + 1
  }

  /** Every square holds 0 or a move number of the tour. */
  ghost predicate Bounded(b: Board, n: nat, tour: seq<Cell>)
    requires Square(b, n)
  {
    forall r, c :: 0 <= r < n && 0 <= c < n ==> 0 <= b[r][c] <= |tour|
  }

  /**
   * The board holds the tour's move numbers: the k-th square of the tour holds k + 1, no
   * square holds more than the tour's length, and as many squares as the tour leaves hold 0.
   */
  ghost predicate Numbered(b: Board, n: nat, tour: seq<Cell>)
    requires Square(b, n)
  {
    Marks(b, n, tour) && Bounded(b, n, tour) && Count(b, 0) + |tour| == n * n
  }

  /** A finished tour: every square numbered, and for a closed tour a last square one knight move from the first. */
  ghost predicate Complete(n: nat, closed: bool, tour: seq<Cell>)
  {
    |tour| == n * n && |tour| > 0
    && (closed ==> CanKnightMove(tour[|tour| - 1].row, tour[|tour| - 1].col, 0, 0))
  }

  /** The board is n by n and holds the move numbers of a tour from the top-left square. */
  ghost predicate Good(n: nat, b: Board, tour: seq<Cell>)
  {
    Square(b, n) && Tour(n, tour) && Numbered(b, n, tour)
  }

  /**
   * Numbering an empty square a knight move on from the tour's last square (or the top-left
   * square, to begin with) extends the tour and leaves one empty square fewer.
   */
  lemma GoodOn(n: nat, b: Board, tour: seq<Cell>, r: nat, c: nat)
    requires Good(n, b, tour) && r < n && c < n && b[r][c] == 0
    requires if tour == [] then r == 0 && c == 0
             else CanKnightMove(tour[|tour| - 1].row, tour[|tour| - 1].col, r, c)
    ensures Good(n, Set(b, r, c, |tour| + 1), tour + [Cell(r, c)])
    ensures Count(Set(b, r, c, |tour| + 1), 0) < Count(b, 0)
  {
    CountSet(b, r, c, 0, |tour| + 1);
    NumberOn(b, n, tour, r, c);
  }

  /** An empty board holds the empty tour. */
  lemma NumberedEmpty(n: nat)
    ensures Numbered(Zeroes(n), n, [])
  {
    CountAll(Zeroes(n), n, 0);
  }

  /** Writing the next move number on an empty square of the board extends the tour by that square. */
  lemma NumberOn(b: Board, n: nat, tour: seq<Cell>, r: nat, c: nat)
    requires Square(b, n) && Numbered(b, n, tour) && r < n && c < n && b[r][c] == 0
    ensures Square(Set(b, r, c, |tour| + 1), n)
    ensures Numbered(Set(b, r, c, |tour| + 1), n, tour + [Cell(r, c)])
  {
    CountSet(b, r, c, 0, |tour| + 1);
    MarksOn(b, n, tour, r, c);
    BoundedOn(b, n, tour, r, c);
  }

  lemma MarksOn(b: Board, n: nat, tour: seq<Cell>, r: nat, c: nat)
    requires Square(b, n) && Marks(b, n, tour) && r < n && c < n && b[r][c] == 0
    ensures Square(Set(b, r, c, |tour| + 1), n) && Marks(Set(b, r, c, |tour| + 1), n, tour + [Cell(r, c)])
  {
    var b', t' := Set(b, r, c, |tour| + 1), tour + [Cell(r, c)];
    forall k | 0 <= k < |t'|
      ensures Inside(n, t'[k]) && b'[t'[k].row][t'[k].col] == k + 1
    {
      if k < |tour| {
        assert t'[k] == tour[k] && b[tour[k].row][tour[k].col] == k + 1;
      }
    }
  }

  lemma BoundedOn(b: Board, n: nat, tour: seq<Cell>, r: nat, c: nat)
    requires Square(b, n) && Bounded(b, n, tour) && r < n && c < n
    ensures Square(Set(b, r, c, |tour| + 1), n) && Bounded(Set(b, r, c, |tour| + 1), n, tour + [Cell(r, c)])
  {
  }

  /** No square appears twice in a numbered tour. */
  lemma NumberedDistinct(b: Board, n: nat, tour: seq<Cell>)
    requires Square(b, n) && Numbered(b, n, tour)
    ensures forall i, j :: 0 <= i < j < |tour| ==> tour[i] != tour[j]
  {
    forall i, j | 0 <= i < j < |tour|
      ensures tour[i] != tour[j]
    {
      assert b[tour[i].row][tour[i].col] == i + 1 && b[tour[j].row][tour[j].col] == j + 1;
    }
  }

  /**
   * A tour as long as the board has squares covers the whole board: every square holds a
   * move number from 1 to n * n, and no square is visited twice.
   */
  lemma {:induction false} TourCovers(b: Board, n: nat, tour: seq<Cell>)
    requires Square(b, n) && Numbered(b, n, tour) && |tour| == n * n
    ensures forall r, c :: 0 <= r < n && 0 <= c < n ==> 1 <= b[r][c] <= n * n
    ensures forall i, j :: 0 <= i < j < |tour| ==> tour[i] != tour[j]
  {
    CountNone(b, 0);
    NumberedDistinct(b, n, tour);
  }

  /**
   * What a step records, with the `currentRow`, `currentCol` and `moveNumber` of its state.
   * A backtracking step's state is the square the knight returns to; the square it clears,
   * named in its description, is `cleared`.
   */
  datatype Event = Start(size: nat) | At(row: int, col: int, move: nat) | Try(row: int, col: int, move: nat)
                 | Back(row: int, col: int, move: nat, cleared: Cell) | Completed(row: int, col: int, move: nat)

  /** A step's description and state: the event and a copy of the board. */
  datatype KnightStep = KnightStep(event: Event, board: Board)

  /** The run of the Knight's Tour solver: board size, tour type, the board, and its steps and tree. */
  class Solver {
    const n: nat
    const closed: bool
    const rec: Recorder<KnightStep>
    var board: Board
    /** The squares numbered so far, in move order. */
    ghost var tour: seq<Cell>

    /** The board is n by n and holds the move numbers of a tour from the top-left square. */
    ghost predicate Valid()
      reads this, rec
    {
      rec.Valid() && Good(n, board, tour)
    }

    /**
     * The set-up of `generateKnightsTourSteps` (hooks/useBacktracking.ts:882-903): an empty
     * `knightsTourSize` board and a first step showing it; `closed` is `knightsTourType === "closed"`.
     */
    constructor (n: nat, closed: bool)
      ensures Valid() && this.n == n && this.closed == closed && fresh(rec)
      ensures board == Zeroes(n) && tour == []
      ensures rec.tree == Tree(Root, Title("Knight's Tour"), []) && rec.steps == [Step(KnightStep(Start(n), Zeroes(n)), Root)]
    {
      this.n, this.closed := n, closed;
      rec := new Recorder("Knight's Tour");
      board, tour := Zeroes(n), [];
      NumberedEmpty(n);
      new;
      rec.Push(KnightStep(Start(n), board), Root);
    }

    /**
     * `solveKnightsTour` (hooks/useBacktracking.ts:906-1028) at (row, col) with move number
     * moveNum: number the square, accept a finished tour (a closed one only if the knight can
     * return to the start), or try the eight moves on. A failed call leaves the board as it
     * found it; a successful one leaves a finished tour extending the one it was given.
     */
    method Solve(row: nat, col: nat, moveNum: nat, parent: NodeId) returns (done: bool)
      requires Valid() && parent in Ids(rec.tree) && row < n && col < n && board[row][col] == 0
      requires moveNum == |tour| + 1
      requires if tour == [] then row == 0 && col == 0
               else CanKnightMove(tour[|tour| - 1].row, tour[|tour| - 1].col, row, col)
      modifies this, rec
      ensures Valid() && old(rec.steps) <= rec.steps && Ids(old(rec.tree)) <= Ids(rec.tree)
      ensures !done ==> board == old(board) && tour == old(tour)
      ensures done ==> old(tour) <= tour && Complete(n, closed, tour)
      decreases Count(board, 0), 2
    {
      var before := board;
      GoodOn(n, board, tour, row, col);
      board := Set(board, row, col, moveNum);
      tour := tour + [Cell(row, col)];
      if moveNum == n * n {
        if closed && !CanKnightMove(row, col, 0, 0) {
          SetBack(before, row, col, moveNum);
          board := Set(board, row, col, 0);
          tour := old(tour);
          return false;
        }
        rec.Push(KnightStep(Completed(row, col, moveNum), board), parent);
        return true;
      }
      done := Explore(row, col, moveNum, parent);
      if !done {
        SetBack(before, row, col, moveNum);
        board := Set(board, row, col, 0);
        tour := old(tour);
      }
    }

    /**
     * The rest of `solveKnightsTour` (hooks/useBacktracking.ts:942-1027) once (row, col) holds
     * moveNum and the tour is not finished: a tree node for the move, a step showing the
     * knight there, and the eight moves tried in order until one completes the tour.
     */
    method Explore(row: nat, col: nat, moveNum: nat, parent: NodeId) returns (done: bool)
      requires Valid() && parent in Ids(rec.tree) && row < n && col < n
      requires moveNum == |tour| > 0 && tour[|tour| - 1] == Cell(row, col) && moveNum < n * n
      modifies this, rec
      ensures Valid() && old(rec.steps) <= rec.steps && Ids(old(rec.tree)) <= Ids(rec.tree)
      ensures !done ==> board == old(board) && tour == old(tour)
      ensures done ==> old(tour) <= tour && Complete(n, closed, tour)
      decreases Count(board, 0) + 1, 1
    {
      var node := rec.Open(parent, MoveOf(moveNum));
      rec.Push(KnightStep(At(row, col, moveNum), board), node);
      for i := 0 to |Moves|
        invariant Valid() && board == old(board) && tour == old(tour) && node in Ids(rec.tree)
        invariant old(rec.steps) <= rec.steps && Ids(old(rec.tree)) <= Ids(rec.tree)
      {
        done := TryMove(row, col, moveNum, i, node);
        if done {
          return;
        }
      }
      done := false;
    }

    /**
     * One round of the move loop of `solveKnightsTour` (hooks/useBacktracking.ts:980-1023):
     * when the i-th move lands on the board on a square still holding 0, go on from there,
     * and clear that square again when that fails.
     */
    method TryMove(row: nat, col: nat, moveNum: nat, i: nat, node: NodeId) returns (done: bool)
      requires Valid() && node in Ids(rec.tree) && i < |Moves| && row < n && col < n
      requires moveNum == |tour| > 0 && tour[|tour| - 1] == Cell(row, col) && moveNum < n * n
      modifies this, rec
      ensures Valid() && old(rec.steps) <= rec.steps && Ids(old(rec.tree)) <= Ids(rec.tree)
      ensures !done ==> board == old(board) && tour == old(tour)
      ensures done ==> old(tour) <= tour && Complete(n, closed, tour)
      decreases Count(board, 0) + 1, 0
    {
      var r, c := row + Moves[i].0, col + Moves[i].1;
      done := false;
      if 0 <= r < n && 0 <= c < n && board[r][c] == 0 {
        rec.Push(KnightStep(Try(r, c, moveNum + 1), board), node);
        done := Solve(r, c, moveNum + 1, node);
        if done {
          return;
        }
        SetZero(board, r, c);
        board := Set(board, r, c, 0);
        rec.Push(KnightStep(Back(row, col, moveNum, Cell(r, c)), board), node);
      }
    }

    /**
     * `generateKnightsTourSteps` from `solveKnightsTour(board, 0, 0, 1, "root")` on: a solved
     * run leaves every square numbered once, from 1 to n * n, along a chain of knight moves
     * from the top-left square; an unsolved one leaves the board empty.
     */
    method Run() returns (solved: bool, steps: seq<Step<KnightStep>>)
      requires Valid() && tour == [] && n > 0
      modifies this, rec
      ensures Valid() && steps == rec.steps && old(rec.steps) <= steps
      ensures !solved ==> board == old(board) && tour == []
      ensures solved ==> Complete(n, closed, tour)
      ensures solved ==> forall r, c :: 0 <= r < n && 0 <= c < n ==> 1 <= board[r][c] <= n * n
    {
      solved := Solve(0, 0, 1, Root);
      if solved {
        TourCovers(board, n, tour);
      }
      steps := rec.steps;
    }
  }
}
