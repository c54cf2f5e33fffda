/**
 * The Sudoku solver (`generateSudokuSteps`, hooks/useBacktracking.ts:501-696) and the hint
 * helpers of the board component (components/backtracking/SudokuSolver.tsx:29-96). A board of
 * side `size` is split into boxes of side `box`, with `box * box == size` (the sizes offered
 * are 4, 9 and 16, whose `Math.sqrt` is whole); 0 marks an empty cell.
 */
module Sudoku {
  import opened RecursionTree
  import opened Boards

  /** Cells (i, j) and (k, l) share a row, a column or a box. */
  predicate Unit(box: nat, i: int, j: int, k: int, l: int)
    requires box > 0
  {
    i == k || j == l || (i / box == k / box && j / box == l / box)
  }

  /**
   * num may go at (row, col): no cell sharing a row, a column or a box with it holds num
   * (the cell itself included, as the checks of the source include it).
   */
  predicate Allowed(b: Board, size: nat, box: nat, row: nat, col: nat, num: int)
    requires Square(b, size) && box > 0
  {
    forall i, j :: 0 <= i < size && 0 <= j < size && Unit(box, row, col, i, j) ==> b[i][j] != num
  }

  /** The rows a box covers: x is in the q-th box exactly when it lies in [q * box, q * box + box). */
  lemma SameBox(box: nat, q: int, x: int)
    requires box > 0
    ensures x / box == q <==> q * box <= x < q * box + box
  {
    var r, m := x / box, x % box;
    assert x == r * box + m && 0 <= m < box;
    if r < q {
      assert (q - r) * box >= box by {
        assert q - r >= 1;
      }
    } else if r > q {
      assert (r - q) * box >= box by {
        assert r - q >= 1;
      }
    }
  }

  /** The box of a cell of the board lies inside the board. */
  lemma BoxInside(size: nat, box: nat, x: nat)
    requires box > 0 && box * box == size && x < size
    ensures 0 <= (x / box) * box && (x / box) * box + box <= size
  {
    var q := x / box;
    SameBox(box, q, x);
    FactorBelow(q, box, box);
    FactorMono(q + 1, box, box);
  }

  /** A smaller product with the same positive factor has the smaller other factor. */
  lemma FactorBelow(a: int, b: int, c: int)
    requires c > 0 && a * c < b * c
    ensures a < b
  {
    assert (b - a) * c == b * c - a * c;
  }

  lemma FactorMono(a: int, b: int, c: nat)
    requires a <= b
    ensures a * c <= b * c
  {
    assert (b - a) * c >= 0;
  }

  /**
   * `isSafe` (hooks/useBacktracking.ts:640-669), written again as `isValidPlacement` in
   * components/backtracking/SudokuSolver.tsx:67-96: the row, then the column, then the box of
   * the cell; num may be placed exactly when none of them holds it.
   */
  method Placeable(b: Board, size: nat, box: nat, row: nat, col: nat, num: int) returns (ok: bool)
    requires Square(b, size) && box > 0 && box * box == size && row < size && col < size
    ensures (ok <==> Allowed(b, size, box, row, col, num))
  {
    BoxInside(size, box, row);
    BoxInside(size, box, col);
    for j := 0 to size
      invariant forall l :: 0 <= l < j ==> b[row][l] != num
    {
      if b[row][j] == num {
        return false;
      }
    }
    for i := 0 to size
      invariant forall k :: 0 <= k < i ==> b[k][col] != num
    {
      if b[i][col] == num {
        return false;
      }
    }
    var boxRow, boxCol := (row / box) * box, (col / box) * box;
    for i := 0 to box
      invariant forall x, y :: boxRow <= x < boxRow + i && boxCol <= y < boxCol + box ==> b[x][y] != num
    {
      for j := 0 to box
        invariant forall x, y :: boxRow <= x < boxRow + i && boxCol <= y < boxCol + box ==> b[x][y] != num
        invariant forall x, y :: x == boxRow + i && boxCol <= y < boxCol + j ==> b[x][y] != num
      {
        if b[boxRow + i][boxCol + j] == num {
          SameBox(box, row / box, boxRow + i);
          SameBox(box, col / box, boxCol + j);
          return false;
        }
      }
    }
    forall x, y | 0 <= x < size && 0 <= y < size && x / box == row / box && y / box == col / box
      ensures b[x][y] != num
    {
      SameBox(box, row / box, x);
      SameBox(box, col / box, y);
    }
    return true;
  }

  /** Every cell of the board is filled. */
  predicate Full(b: Board, size: nat)
    requires Square(b, size)
  {
    forall i, j :: 0 <= i < size && 0 <= j < size ==> b[i][j] != 0
  }

  /** No two cells sharing a row, a column or a box hold the same number. */
  ghost predicate Consistent(b: Board, size: nat, box: nat)
    requires Square(b, size) && box > 0
  {
    forall i, j, k, l :: 0 <= i < size && 0 <= j < size && 0 <= k < size && 0 <= l < size
      && (i != k || j != l) && Unit(box, i, j, k, l) && b[i][j] != 0
      ==> b[i][j] != b[k][l]
  }

  /** b fills in b0: its filled cells are kept, and its empty cells get a number from 1 to size. */
  ghost predicate Kept(size: nat, b0: Board, b: Board)
    requires Square(b0, size) && Square(b, size)
  {
    forall i, j :: 0 <= i < size && 0 <= j < size ==>
      (b0[i][j] != 0 ==> b[i][j] == b0[i][j]) && (b0[i][j] == 0 ==> 1 <= b[i][j] <= size)
  }

  /** Placing an allowed number in an empty cell of a consistent board keeps it consistent. */
  lemma PlaceConsistent(b: Board, size: nat, box: nat, row: nat, col: nat, num: int)
    requires Square(b, size) && box > 0 && row < size && col < size && num != 0
    requires Consistent(b, size, box) && Allowed(b, size, box, row, col, num)
    ensures Consistent(Set(b, row, col, num), size, box)
  {
    var b' := Set(b, row, col, num);
    forall i, j, k, l | 0 <= i < size && 0 <= j < size && 0 <= k < size && 0 <= l < size
      && (i != k || j != l) && Unit(box, i, j, k, l) && b'[i][j] != 0
      ensures b'[i][j] != b'[k][l]
    {
      if i == row && j == col {
        assert b'[k][l] == b[k][l];
      } else if k == row && l == col {
        assert Unit(box, row, col, i, j);
      }
    }
  }

  /**
   * b solves the puzzle b0: it is full, fills b0 in, and is consistent whenever b0 is.
   */
  ghost predicate Solves(size: nat, box: nat, b0: Board, b: Board)
    requires Square(b0, size) && Square(b, size) && box > 0
  {
    Full(b, size) && Kept(size, b0, b) && (Consistent(b0, size, box) ==> Consistent(b, size, box))
  }

  /** A solution of the board with an allowed number placed in an empty cell solves the board. */
  lemma SolvesPlaced(size: nat, box: nat, b0: Board, row: nat, col: nat, num: int, b: Board)
    requires Square(b0, size) && Square(b, size) && box > 0 && row < size && col < size
    requires b0[row][col] == 0 && 1 <= num <= size && Allowed(b0, size, box, row, col, num)
    requires Solves(size, box, Set(b0, row, col, num), b)
    ensures Solves(size, box, b0, b)
  {
    if Consistent(b0, size, box) {
      PlaceConsistent(b0, size, box, row, col, num);
    }
  }

  /**
   * The first empty cell, in row-major order (hooks/useBacktracking.ts:529-543), or -1 and -1
   * with isEmpty false when the board is full.
   */
  method FirstEmpty(b: Board, size: nat) returns (isEmpty: bool, row: int, col: int)
    requires Square(b, size)
    ensures isEmpty ==> 0 <= row < size && 0 <= col < size && b[row][col] == 0
    ensures isEmpty ==> forall i, j :: 0 <= i < size && 0 <= j < size && (i < row || (i == row && j < col)) ==> b[i][j] != 0
    ensures !isEmpty ==> row == -1 && col == -1 && Full(b, size)
  {
    row, col, isEmpty := -1, -1, false;
    for i := 0 to size
      invariant forall k, l :: 0 <= k < i && 0 <= l < size ==> b[k][l] != 0
    {
      for j := 0 to size
        invariant forall l :: 0 <= l < j ==> b[i][l] != 0
      {
        if b[i][j] == 0 {
          return true, i, j;
        }
      }
    }
  }

  /** What a step records, with the `currentRow`, `currentCol`, `currentValue` and `isValid` of its state. */
  datatype Event = Start | TryCell(row: nat, col: nat) | Check(row: nat, col: nat, num: nat, valid: bool)
                 | Place(row: nat, col: nat, num: nat) | Remove(row: nat, col: nat, num: nat) | Solved

  /** A step's description and state: the event and a copy of the board. */
  datatype SudokuStep = SudokuStep(event: Event, board: Board)

  /** The run of the solver: the board it fills in, its steps and its tree. */
  class Solver {
    const size: nat
    const box: nat
    const rec: Recorder<SudokuStep>
    var board: Board

    ghost predicate Valid()
      reads this, rec
    {
      rec.Valid() && box > 0 && box * box == size && Square(board, size)
    }

    /**
     * The set-up of `generateSudokuSteps` (hooks/useBacktracking.ts:501-524): a copy of
     * `sudokuBoard`, or an empty board when there is none, and a first step showing it.
     */
    constructor (size: nat, box: nat, given: Option<Board>)
      requires box > 0 && box * box == size && (given.Some? ==> Square(given.value, size))
      ensures Valid() && this.size == size && this.box == box && fresh(rec)
      ensures board == if given.Some? then given.value else Zeroes(size)
      ensures rec.tree == Tree(Root, Title("Sudoku"), []) && rec.steps == [Step(SudokuStep(Start, board), Root)]
    {
      this.size, this.box := size, box;
      rec := new Recorder("Sudoku");
      board := if given.Some? then given.value else Zeroes(size);
      new;
      rec.Push(SudokuStep(Start, board), Root);
    }

    /**
     * `solveSudoku` (hooks/useBacktracking.ts:527-638) under the tree node parent: fill the
     * first empty cell with each number from 1 to size that may go there, and go on with the
     * rest. A failed call leaves the board as it found it. A successful one leaves a full board
     * that keeps every filled cell and is consistent whenever the board it started from was.
     */
    method Solve(parent: NodeId) returns (done: bool)
      requires Valid() && parent in Ids(rec.tree)
      modifies this, rec
      ensures Valid() && old(rec.steps) <= rec.steps && Ids(old(rec.tree)) <= Ids(rec.tree)
      ensures !done ==> board == old(board)
      ensures done ==> Solves(size, box, old(board), board)
      decreases Count(board, 0), 1
    {
      var isEmpty, row, col := FirstEmpty(board, size);
      if !isEmpty {
        rec.Push(SudokuStep(Solved, board), parent);
        return true;
      }
      var node := rec.Open(parent, CellAt(row, col));
      rec.Push(SudokuStep(TryCell(row, col), board), node);
      for num := 1 to size + 1
        invariant Valid() && board == old(board) && node in Ids(rec.tree)
        invariant old(rec.steps) <= rec.steps && Ids(old(rec.tree)) <= Ids(rec.tree)
      {
        done := TryValue(row, col, num, node);
        if done {
          return;
        }
      }
      done := false;
    }

    /**
     * One round of the number loop of `solveSudoku` (hooks/useBacktracking.ts:586-635): check
     * num at the empty cell, and when it may go there place it, go on with the rest of the
     * board, and empty the cell again when that fails.
     */
    method TryValue(row: nat, col: nat, num: nat, node: NodeId) returns (done: bool)
      requires Valid() && row < size && col < size && board[row][col] == 0 && 1 <= num <= size
      requires node in Ids(rec.tree)
      modifies this, rec
      ensures Valid() && old(rec.steps) <= rec.steps && Ids(old(rec.tree)) <= Ids(rec.tree)
      ensures !done ==> board == old(board)
      ensures done ==> Solves(size, box, old(board), board)
      decreases Count(board, 0), 0
    {
      var valid := Placeable(board, size, box, row, col, num);
      rec.Push(SudokuStep(Check(row, col, num, valid), board), node);
      done := false;
      if valid {
        var before := board;
        CountSet(board, row, col, 0, num);
        board := Set(board, row, col, num);
        rec.Push(SudokuStep(Place(row, col, num), board), node);
        done := Solve(node);
        if done {
          SolvesPlaced(size, box, before, row, col, num, board);
          return;
        }
        assert board[row][col := 0] == before[row];
        board := Set(board, row, col, 0);
        rec.Push(SudokuStep(Remove(row, col, num), board), node);
      }
    }

    /**
     * `generateSudokuSteps` from `solveSudoku(board, "root")` on: when it succeeds, the board
     * is a solution of the puzzle it started from, provided that puzzle had no clash.
     */
    method Run() returns (solved: bool, steps: seq<Step<SudokuStep>>)
      requires Valid()
      modifies this, rec
      ensures Valid() && steps == rec.steps && old(rec.steps) <= steps
      ensures !solved ==> board == old(board)
      ensures solved ==> Solves(size, box, old(board), board)
      ensures solved && Consistent(old(board), size, box) ==> Consistent(board, size, box)
    {
      solved := Solve(Root);
      steps := rec.steps;
    }
  }

  /**
   * `safeBoard` (components/backtracking/SudokuSolver.tsx:29-37): the board passed in when it
   * is size by size, otherwise an empty size by size board.
   */
  function SafeBoard(board: seq<seq<int>>, size: nat): (r: Board)
    ensures Square(r, size)
    ensures Square(board, size) ==> r == board
    ensures !Square(board, size) ==> forall i, j :: 0 <= i < size && 0 <= j < size ==> r[i][j] == 0
  {
    if |board| == size && forall i :: 0 <= i < |board| ==> |board[i]| == size then board else Zeroes(size)
  }

  /** The numbers from num to size that may go at (row, col), in increasing order. */
  ghost function Candidates(b: Board, size: nat, box: nat, row: nat, col: nat, num: nat): seq<int>
    requires Square(b, size) && box > 0
    decreases size + 1 - num
  {
    if num > size then []
    else (if Allowed(b, size, box, row, col, num) then [num] else []) + Candidates(b, size, box, row, col, num + 1)
  }

  /** A number is a candidate exactly when it is in range and allowed; candidates rise strictly. */
  lemma {:induction false} CandidatesAre(b: Board, size: nat, box: nat, row: nat, col: nat, num: nat)
    requires Square(b, size) && box > 0
    ensures forall x :: x in Candidates(b, size, box, row, col, num) <==> num <= x <= size && Allowed(b, size, box, row, col, x)
    ensures forall p, q :: 0 <= p < q < |Candidates(b, size, box, row, col, num)| ==>
              Candidates(b, size, box, row, col, num)[p] < Candidates(b, size, box, row, col, num)[q]
    decreases size + 1 - num
  {
    if num <= size {
      CandidatesAre(b, size, box, row, col, num + 1);
      var rest := Candidates(b, size, box, row, col, num + 1);
      assert forall q :: 0 <= q < |rest| ==> rest[q] in rest;
    }
  }

  /**
   * `calculatePossibleValues` (components/backtracking/SudokuSolver.tsx:45-64): a key for
   * each empty cell and for no other, holding the numbers from 1 to size that may go there,
   * in increasing order. The key `"row,col"` is the pair (row, col).
   */
  method PossibleValues(b: Board, size: nat, box: nat) returns (r: map<(nat, nat), seq<int>>)
    requires Square(b, size) && box > 0 && box * box == size
    ensures forall row: nat, col: nat :: (row, col) in r <==> row < size && col < size && b[row][col] == 0
    ensures forall row: nat, col: nat :: (row, col) in r ==> r[(row, col)] == Candidates(b, size, box, row, col, 1)
  {
    r := map[];
    for row := 0 to size
      invariant forall i: nat, j: nat :: (i, j) in r <==> i < row && j < size && b[i][j] == 0
      invariant forall i: nat, j: nat :: (i, j) in r ==> r[(i, j)] == Candidates(b, size, box, i, j, 1)
    {
      for col := 0 to size
        invariant forall i: nat, j: nat :: (i, j) in r <==> ((i < row && j < size) || (i == row && j < col)) && b[i][j] == 0
        invariant forall i: nat, j: nat :: (i, j) in r ==> r[(i, j)] == Candidates(b, size, box, i, j, 1)
      {
        if b[row][col] == 0 {
          var possible := [];
          for num := 1 to size + 1
            invariant possible + Candidates(b, size, box, row, col, num) == Candidates(b, size, box, row, col, 1)
          {
            var ok := Placeable(b, size, box, row, col, num);
            if ok {
              possible := possible + [num];
            }
          }
          r := r[(row, col) := possible];
        }
      }
    }
  }

  /**
   * `possibleValues` (components/backtracking/SudokuSolver.tsx:39-42): nothing when hints are
   * off, otherwise the possible values of every empty cell of the safe board.
   */
  method Hints(board: seq<seq<int>>, size: nat, box: nat, showHints: bool) returns (r: Option<map<(nat, nat), seq<int>>>)
    requires box > 0 && box * box == size
    ensures r.None? <==> !showHints
    ensures r.Some? ==> forall row: nat, col: nat :: (row, col) in r.value <==> row < size && col < size && SafeBoard(board, size)[row][col] == 0
    ensures r.Some? ==> forall row: nat, col: nat, x :: (row, col) in r.value ==>
              (x in r.value[(row, col)] <==> 1 <= x <= size && Allowed(SafeBoard(board, size), size, box, row, col, x))
  {
    if !showHints {
      return None;
    }
    var safe := SafeBoard(board, size);
    var values := PossibleValues(safe, size, box);
    forall row: nat, col: nat | (row, col) in values
      ensures forall x :: x in values[(row, col)] <==> 1 <= x <= size && Allowed(safe, size, box, row, col, x)
    {
      CandidatesAre(safe, size, box, row, col, 1);
    }
    return Some(values);
  }
}
