/**
 * `generateNQueensSteps` (hooks/useBacktracking.ts:291-496): place one queen per row, top to
 * bottom, trying the columns left to right; a queen goes only where `isSafe` finds no queen
 * above it in its column or on either diagonal going up, and is taken off again when the rows
 * below cannot be completed. A queen at the configured starting position stands from the
 * outset and its row is skipped. Every action is recorded as a step holding a copy of the
 * board, under the recursion-tree node of the row being filled.
 */
module NQueens {
  import opened RecursionTree
  import opened Boards

  /** `nQueensConfig.startingPosition`: a `[row, col]` pair. */
  datatype Position = Position(row: int, col: int)

  /** The settings a run reads: `nQueensSize`, `startingPosition`, `findAllSolutions`. */
  datatype Config = Config(n: nat, start: Option<Position>, findAll: bool)

  /** The starting position lies on the board, so a queen stands there from the outset. */
  predicate Placed(cfg: Config)
  {
    cfg.start.Some? && 0 <= cfg.start.value.row < cfg.n && 0 <= cfg.start.value.col < cfg.n
  }

  /** Row i is the starting queen's row, which the solver skips. */
  predicate Fixed(cfg: Config, i: int)
  {
    Placed(cfg) && i == cfg.start.value.row
  }

  /** What a step records, with the `currentRow`, `currentCol` and `isValid` of its state. */
  datatype Event = Start(size: nat) | TryRow(row: nat) | Check(row: nat, col: nat, valid: bool)
                 | Place(row: nat, col: nat) | Remove(row: nat, col: nat) | Solved(number: nat) | Summary(count: nat)

  /** A step's description and state: the event and a copy of the board. */
  datatype QueenStep = QueenStep(event: Event, board: Board)

  /** No queen above (row, col), in its column or on either diagonal going up. */
  predicate Clear(b: Board, n: nat, row: nat, col: nat)
    requires Square(b, n) && row < n && col < n
  {
    forall i, j :: 0 <= i < row && 0 <= j < n && (j == col || row - i == col - j || row - i == j - col) ==> b[i][j] != 1
  }

  /** Rows below row i play no part in whether a cell of row i is clear. */
  lemma ClearAbove(b: Board, b': Board, n: nat, i: nat, c: nat)
    requires Square(b, n) && Square(b', n) && i < n && c < n
    requires forall k :: 0 <= k < i ==> b'[k] == b[k]
    ensures Clear(b', n, i, c) == Clear(b, n, i, c)
  {
  }

  /**
   * `isSafe` (hooks/useBacktracking.ts:439-456): the column above, then the two diagonals from
   * the cell itself upwards. It is safe exactly when neither the cell nor any cell above it
   * in its column or diagonals holds a queen; the rows below are never looked at.
   */
  method IsSafe(b: Board, n: nat, row: nat, col: nat) returns (safe: bool)
    requires Square(b, n) && row < n && col < n
    ensures safe <==> b[row][col] != 1 && Clear(b, n, row, col)
  {
    for i := 0 to row
      invariant forall k :: 0 <= k < i ==> b[k][col] != 1
    {
      if b[i][col] == 1 {
        return false;
      }
    }
    var i, j := row as int, col as int;
    while i >= 0 && j >= 0
      invariant -1 <= i <= row && j - i == col - row
      invariant forall k, m :: i < k <= row && 0 <= m < n && row - k == col - m ==> b[k][m] != 1
      decreases i
    {
      if b[i][j] == 1 {
        return false;
      }
      i, j := i - 1, j - 1;
    }
    i, j := row, col;
    while i >= 0 && j < n
      invariant -1 <= i <= row && i + j == row + col
      invariant forall k, m :: i < k <= row && 0 <= m < n && row - k == m - col ==> b[k][m] != 1
      decreases i
    {
      if b[i][j] == 1 {
        return false;
      }
      i, j := i - 1, j + 1;
    }
    return true;
  }

  /** Row i holds one queen, and no queen of the row has a queen above it in its column or diagonals. */
  ghost predicate Settled(b: Board, n: nat, i: nat)
    requires Square(b, n) && i < n
  {
    CountIn(b[i], 1) == 1 && forall c :: 0 <= c < n && b[i][c] == 1 ==> Clear(b, n, i, c)
  }

  /**
   * The board when the solver is about to fill row: every row above it, but the starting
   * queen's, is settled; every row from row down, but the starting queen's, is empty.
   */
  ghost predicate Layout(cfg: Config, b: Board, row: nat)
    requires Square(b, cfg.n)
  {
    forall i :: 0 <= i < cfg.n && !Fixed(cfg, i) ==>
      (i < row ==> Settled(b, cfg.n, i)) && (i >= row ==> CountIn(b[i], 1) == 0)
  }

  /**
   * A board the solver records as a solution: one queen in every row, and every row but the
   * starting queen's settled.
   */
  ghost predicate Complete(cfg: Config, b: Board)
    requires Square(b, cfg.n)
  {
    (forall i :: 0 <= i < cfg.n ==> CountIn(b[i], 1) == 1)
    && forall i :: 0 <= i < cfg.n && !Fixed(cfg, i) ==> Settled(b, cfg.n, i)
  }

  /**
   * The board between steps: n by n, 0 or 1 in every cell, and the starting queen, when it is
   * on the board, alone in its row.
   */
  ghost predicate Shaped(cfg: Config, b: Board)
  {
    Square(b, cfg.n)
    && (forall i, j :: 0 <= i < cfg.n && 0 <= j < cfg.n ==> b[i][j] == 0 || b[i][j] == 1)
    && (Placed(cfg) ==> b[cfg.start.value.row][cfg.start.value.col] == 1 && CountIn(b[cfg.start.value.row], 1) == 1)
  }

  /** The board a run starts from, as it does: empty, with the starting queen if it is on the board. */
  function Initial(cfg: Config): Board
  {
    if Placed(cfg) then Set(Zeroes(cfg.n), cfg.start.value.row, cfg.start.value.col, 1) else Zeroes(cfg.n)
  }

  /**
   * Setting a queen where `isSafe` allows it in the row being filled keeps the board's shape
   * and gives the layout for the next row.
   */
  lemma PlaceKeeps(cfg: Config, b: Board, row: nat, col: nat)
    requires Shaped(cfg, b) && row < cfg.n && col < cfg.n && !Fixed(cfg, row)
    requires Layout(cfg, b, row) && b[row][col] != 1 && Clear(b, cfg.n, row, col)
    ensures Shaped(cfg, Set(b, row, col, 1)) && Layout(cfg, Set(b, row, col, 1), row + 1)
  {
    var n := cfg.n;
    var b' := Set(b, row, col, 1);
    CountInSet(b[row], col, 1, 1);
    CountInNone(b[row], 1);
    assert forall k :: 0 <= k < n && k != row ==> b'[k] == b[k];
    forall i | 0 <= i < n && !Fixed(cfg, i) && i <= row
      ensures Settled(b', n, i)
    {
      forall c | 0 <= c < n && b'[i][c] == 1
        ensures Clear(b', n, i, c)
      {
        ClearAbove(b, b', n, i, c);
        if i == row {
          assert c == col;
        }
      }
    }
  }

  /** Taking the queen off again gives back the board it was set on. */
  lemma RemoveRestores(b: Board, row: nat, col: nat)
    requires row < |b| && col < |b[row]| && b[row][col] == 0
    ensures Set(Set(b, row, col, 1), row, col, 0) == b
  {
    assert Set(b, row, col, 1)[row][col := 0] == b[row];
  }

  /** With every row filled, the layout is a complete board. */
  lemma LayoutComplete(cfg: Config, b: Board)
    requires Shaped(cfg, b) && Layout(cfg, b, cfg.n)
    ensures Complete(cfg, b)
  {
  }

  /** The initial board is laid out for row 0, the starting queen alone in its row. */
  lemma InitialLayout(cfg: Config)
    ensures Shaped(cfg, Initial(cfg)) && Layout(cfg, Initial(cfg), 0)
  {
    var z := Zeroes(cfg.n);
    forall i | 0 <= i < cfg.n
      ensures CountIn(z[i], 1) == 0
    {
      CountInNone(z[i], 1);
    }
    if Placed(cfg) {
      var s := cfg.start.value;
      CountInSet(z[s.row], s.col, 1, 1);
    }
  }

  /** A queen at (i', c') with nothing above it in its column or diagonals attacks no queen above it. */
  lemma ClearPeace(b: Board, n: nat, i: nat, c: nat, i': nat, c': nat)
    requires Square(b, n) && i < i' < n && c < n && c' < n && b[i][c] == 1 && Clear(b, n, i', c')
    ensures c != c' && i' - i != c' - c && i' - i != c - c'
  {
    var d := i' - i;
    if c' >= d {
      assert b[i' - d][c' - d] == b[i][c' - d];
    }
    if c' + d < n {
      assert b[i' - d][c' + d] == b[i][c' + d];
    }
  }

  /**
   * What a recorded solution means: no two queens attack each other, except that a queen in
   * the starting queen's row was never checked against the queens above it.
   */
  lemma SolutionPeace(cfg: Config, b: Board, i: nat, c: nat, i': nat, c': nat)
    requires Square(b, cfg.n) && Complete(cfg, b)
    requires i < i' < cfg.n && c < cfg.n && c' < cfg.n && b[i][c] == 1 && b[i'][c'] == 1
    requires !Fixed(cfg, i')
    ensures c != c' && i' - i != c' - c && i' - i != c - c'
  {
    assert Settled(b, cfg.n, i');
    ClearPeace(b, cfg.n, i, c, i', c');
  }

  /**
   * The check as intended: the starting queen's row settled like every other, so the starting
   * queen too has nothing above it in its column or diagonals.
   */
  ghost predicate Checked(cfg: Config, b: Board)
    requires Square(b, cfg.n)
  {
    forall i :: 0 <= i < cfg.n ==> Settled(b, cfg.n, i)
  }

  /**
   * With the starting queen's row checked as well, a board holds one queen per row and no two
   * queens attack each other, the starting queen included.
   */
  lemma CheckedPeace(cfg: Config, b: Board, i: nat, c: nat, i': nat, c': nat)
    requires Square(b, cfg.n) && Checked(cfg, b)
    requires i < i' < cfg.n && c < cfg.n && c' < cfg.n && b[i][c] == 1 && b[i'][c'] == 1
    ensures CountIn(b[i], 1) == 1 && CountIn(b[i'], 1) == 1
    ensures c != c' && i' - i != c' - c && i' - i != c - c'
  {
    assert Settled(b, cfg.n, i) && Settled(b, cfg.n, i');
    ClearPeace(b, cfg.n, i, c, i', c');
  }

  /** The board that slips through the unchecked start fails the intended check. */
  lemma StartCaught()
    ensures var cfg := Config(4, Some(Position(1, 0)), false);
            var b := [[1, 0, 0, 0], [1, 0, 0, 0], [0, 0, 0, 1], [0, 1, 0, 0]];
            Square(b, 4) && !Checked(cfg, b)
  {
    var cfg := Config(4, Some(Position(1, 0)), false);
    var b := [[1, 0, 0, 0], [1, 0, 0, 0], [0, 0, 0, 1], [0, 1, 0, 0]];
    assert !Clear(b, 4, 1, 0) by { assert b[0][0] == 1; }
    assert !Settled(b, 4, 1);
  }

  /** Two queens in one row of a recorded solution are one queen. */
  lemma SolutionRows(cfg: Config, b: Board, i: nat, c: nat, c': nat)
    requires Square(b, cfg.n) && Complete(cfg, b)
    requires i < cfg.n && c < c' < cfg.n && b[i][c] == 1
    ensures b[i][c'] != 1
  {
    if b[i][c'] == 1 {
      CountInTwo(b[i], 1, c, c');
    }
  }

  /**
   * The starting queen is not protected: with a 4 by 4 board and the starting queen at row 1,
   * column 0, the board with queens at (0, 0), (1, 0), (2, 3), (3, 1), two of them in column
   * 0, meets everything a recorded solution is checked against: row 0 may take column 0,
   * since nothing above it forbids that, row 1 is skipped, and rows 2 and 3 only look upwards.
   * Whether the search records this board first is not claimed here.
   */
  lemma StartUnchecked()
    ensures var cfg := Config(4, Some(Position(1, 0)), false);
            var b := [[1, 0, 0, 0], [1, 0, 0, 0], [0, 0, 0, 1], [0, 1, 0, 0]];
            Square(b, 4) && Complete(cfg, b) && b[0][0] == 1 && b[1][0] == 1
  {
    var cfg := Config(4, Some(Position(1, 0)), false);
    var b := [[1, 0, 0, 0], [1, 0, 0, 0], [0, 0, 0, 1], [0, 1, 0, 0]];
    forall i | 0 <= i < 4
      ensures CountIn(b[i], 1) == 1
    {
      var k := if i < 2 then 0 else if i == 2 then 3 else 1;
      CountInNone([0, 0, 0, 0], 1);
      CountInSet([0, 0, 0, 0], k, 1, 1);
      assert b[i] == [0, 0, 0, 0][k := 1];
    }
    assert Clear(b, 4, 0, 0);
    assert Clear(b, 4, 2, 3);
    assert Clear(b, 4, 3, 1);
  }

  /** Every board in the list is a complete n by n board. */
  ghost predicate Solutions(cfg: Config, bs: seq<Board>)
  {
    forall k :: 0 <= k < |bs| ==> Square(bs[k], cfg.n) && Complete(cfg, bs[k])
  }

  /** The run of one N-Queens problem: the board it works on, the solutions found, its steps and tree. */
  class Solver {
    const cfg: Config
    const rec: Recorder<QueenStep>
    var board: Board
    /** `allSolutions`, each a copy of the board when the last row was filled. */
    var solutions: seq<Board>

    /**
     * The board is n by n with 0 or 1 in every cell, the starting queen stands alone in its
     * row, and every solution recorded is a complete board.
     */
    ghost predicate Valid()
      reads this, rec
    {
      rec.Valid() && Shaped(cfg, board) && Solutions(cfg, solutions)
    }

    /**
     * The set-up of `generateNQueensSteps` (hooks/useBacktracking.ts:291-320): an empty board
     * with the starting queen if it lies on the board, and a first step showing it.
     */
    constructor (cfg: Config)
      ensures Valid() && this.cfg == cfg && board == Initial(cfg) && Layout(cfg, board, 0) && solutions == []
      ensures fresh(rec) && rec.tree == Tree(Root, Title("N-Queens"), [])
      ensures rec.steps == [Step(QueenStep(Start(cfg.n), Initial(cfg)), Root)]
    {
      this.cfg := cfg;
      rec := new Recorder("N-Queens");
      var b := Zeroes(cfg.n);
      if cfg.start.Some? {
        var s := cfg.start.value;
        if 0 <= s.row < cfg.n && 0 <= s.col < cfg.n {
          b := Set(b, s.row, s.col, 1);
        }
      }
      board, solutions := b, [];
      InitialLayout(cfg);
      new;
      rec.Push(QueenStep(Start(cfg.n), board), Root);
    }

    /**
     * `solveNQueens` (hooks/useBacktracking.ts:326-436) on row, under the tree node parent.
     * A failed call leaves the board as it found it; a successful one (only when one solution
     * is wanted) leaves the complete board it recorded last. Steps, tree and solutions only
     * grow, and a solution is recorded at most once unless all are wanted.
     */
    method Solve(row: nat, parent: NodeId) returns (done: bool)
      requires Valid() && row <= cfg.n && Layout(cfg, board, row) && parent in Ids(rec.tree)
      modifies this, rec
      ensures Valid() && old(rec.steps) <= rec.steps && Ids(old(rec.tree)) <= Ids(rec.tree)
      ensures old(solutions) <= solutions
      ensures !done ==> board == old(board)
      ensures done ==> !cfg.findAll && Complete(cfg, board) && solutions == old(solutions) + [board]
      ensures !cfg.findAll && !done ==> solutions == old(solutions)
      decreases cfg.n - row, 1
    {
      if row == cfg.n {
        LayoutComplete(cfg, board);
        solutions := solutions + [board];
        rec.Push(QueenStep(Solved(|solutions|), board), parent);
        return !cfg.findAll;
      }
      if cfg.start.Some? && row == cfg.start.value.row && 0 <= cfg.start.value.col < cfg.n
         && board[row][cfg.start.value.col] == 1 {
        done := Solve(row + 1, parent);
        return;
      }
      var node := rec.Open(parent, RowOf(row));
      rec.Push(QueenStep(TryRow(row), board), node);
      for col := 0 to cfg.n
        invariant Valid() && board == old(board) && node in Ids(rec.tree)
        invariant old(rec.steps) <= rec.steps && Ids(old(rec.tree)) <= Ids(rec.tree)
        invariant old(solutions) <= solutions && (!cfg.findAll ==> solutions == old(solutions))
      {
        done := TryColumn(row, col, node);
        if done {
          return;
        }
      }
      done := false;
    }

    /**
     * One round of the column loop of `solveNQueens` (hooks/useBacktracking.ts:386-431): check
     * the cell, and when it is safe place the queen, go on with the next row, and take the
     * queen off again when that fails.
     */
    method TryColumn(row: nat, col: nat, node: NodeId) returns (done: bool)
      requires Valid() && row < cfg.n && col < cfg.n && !Fixed(cfg, row)
      requires Layout(cfg, board, row) && node in Ids(rec.tree)
      modifies this, rec
      ensures Valid() && old(rec.steps) <= rec.steps && Ids(old(rec.tree)) <= Ids(rec.tree)
      ensures old(solutions) <= solutions
      ensures !done ==> board == old(board)
      ensures done ==> !cfg.findAll && Complete(cfg, board) && solutions == old(solutions) + [board]
      ensures !cfg.findAll && !done ==> solutions == old(solutions)
      decreases cfg.n - row, 0
    {
      var valid := IsSafe(board, cfg.n, row, col);
      rec.Push(QueenStep(Check(row, col, valid), board), node);
      done := false;
      if valid {
        CountInNone(board[row], 1);
        PlaceKeeps(cfg, board, row, col);
        RemoveRestores(board, row, col);
        board := Set(board, row, col, 1);
        rec.Push(QueenStep(Place(row, col), board), node);
        done := Solve(row + 1, node);
        if !done {
          board := Set(board, row, col, 0);
          rec.Push(QueenStep(Remove(row, col), board), node);
        }
      }
    }

    /**
     * `generateNQueensSteps` from `solveNQueens(0, board, "root")` on (hooks/useBacktracking.ts:476-495):
     * the search, then, when all solutions are wanted and there are some, a summary step
     * with their count and the last of them.
     */
    method Run() returns (steps: seq<Step<QueenStep>>)
      requires Valid() && Layout(cfg, board, 0) && solutions == []
      modifies this, rec
      ensures Valid() && steps == rec.steps && old(rec.steps) <= steps
      ensures !cfg.findAll ==> |solutions| <= 1
      ensures cfg.findAll && solutions != [] ==>
                |steps| > 0 && steps[|steps| - 1] == Step(QueenStep(Summary(|solutions|), solutions[|solutions| - 1]), Root)
    {
      var _ := Solve(0, Root);
      if cfg.findAll && |solutions| > 0 {
        rec.Push(QueenStep(Summary(|solutions|), solutions[|solutions| - 1]), Root);
      }
      steps := rec.steps;
    }
  }
}
