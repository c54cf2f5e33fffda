/**
 * The maze solver (`generateMazeSteps`, hooks/useBacktracking.ts:699-879): from the start,
 * try to move up, right, down and left in that order into an open cell not visited before,
 * recording the path walked so far and every cell ever visited; a move that leads nowhere is
 * taken back off the path, but its cell stays visited.
 */
module Maze {
  import opened RecursionTree

  /** A `[row, col]` pair. */
  datatype Cell = Cell(row: int, col: int)

  /**
   * A move may end at (r, c): inside the maze, whose width is taken from its first row, and
   * holding 0 (a cell past the end of a shorter row is `undefined`, which is not 0).
   */
  predicate Open(maze: seq<seq<int>>, x: Cell)
  {
    0 <= x.row < |maze| && 0 <= x.col < |maze[0]| && x.col < |maze[x.row]| && maze[x.row][x.col] == 0
  }

  /** The open cells of the maze. */
  function Opens(maze: seq<seq<int>>): (r: set<Cell>)
    ensures forall x :: x in r <==> Open(maze, x)
  {
    set r, c | 0 <= r < |maze| && 0 <= c < |maze[r]| && Open(maze, Cell(r, c)) :: Cell(r, c)
  }

  /** `moves`, in the order they are tried: up, right, down, left. */
  const Moves: seq<(int, int)> := [(-1, 0), (0, 1), (1, 0), (0, -1)]

  /** x and y are side by side. */
  predicate Adjacent(x: Cell, y: Cell)
  {
    (x.row == y.row && (x.col - y.col == 1 || y.col - x.col == 1))
    || (x.col == y.col && (x.row - y.row == 1 || y.row - x.row == 1))
  }

  /** What a step records: the start, a move tried, a move made, a move taken back, the exit reached. */
  datatype Event = Start | Try(dir: nat, from: Cell, to: Cell) | Move(dir: nat, to: Cell)
                 | Back(from: Cell, to: Cell) | Exit(at: Cell)

  /** A step's description and state: the event, the current cell, and copies of the path and the visited list. */
  datatype MazeStep = MazeStep(event: Event, current: Cell, path: seq<Cell>, visited: seq<Cell>)

  /** visited holds no cell twice, and every cell of it after the first is open. */
  ghost predicate Visits(maze: seq<seq<int>>, visited: seq<Cell>)
  {
    |visited| > 0
    && (forall i, j :: 0 <= i < j < |visited| ==> visited[i] != visited[j])
    && (forall i :: 0 < i < |visited| ==> Open(maze, visited[i]))
  }

  /** The cells of a list with no repeats are as many as its entries. */
  lemma {:induction false} DistinctCard(s: seq<Cell>)
    requires forall i, j :: 0 <= i < j < |s| ==> s[i] != s[j]
    ensures |set x | x in s| == |s|
  {
    if s != [] {
      var k := |s| - 1;
      DistinctCard(s[..k]);
      assert (set x | x in s) == (set x | x in s[..k]) + {s[k]};
    }
  }

  /**
   * Each cell is visited once and all but the start are open, so the visited list is never
   * longer than one more than the open cells: the search ends.
   */
  lemma {:induction false} VisitBound(maze: seq<seq<int>>, opens: set<Cell>, visited: seq<Cell>)
    requires Visits(maze, visited) && forall x :: Open(maze, x) ==> x in opens
    ensures |visited| <= |opens| + 1
  {
    var rest := visited[1..];
    DistinctCard(rest);
    var cells := set x | x in rest;
    assert cells <= opens;
    assert opens == cells + (opens - cells);
  }

  /**
   * path goes by neighbouring open cells from its first cell on, never comes back to a cell,
   * and every cell on it has been visited.
   */
  ghost predicate Walk(maze: seq<seq<int>>, path: seq<Cell>, visited: seq<Cell>)
  {
    |path| > 0
    && (forall i :: 0 < i < |path| ==> Open(maze, path[i]))
    && (forall i, j :: 0 <= i && j == i + 1 && j < |path| ==> Adjacent(path[i], path[j]))
    && (forall i, j :: 0 <= i < j < |path| ==> path[i] != path[j])
    && (forall i :: 0 <= i < |path| ==> path[i] in visited)
  }

  /** Stepping onto a neighbouring open cell not visited yet, and visiting it, extends the walk and the visits. */
  lemma StepOn(maze: seq<seq<int>>, path: seq<Cell>, visited: seq<Cell>, next: Cell)
    requires Walk(maze, path, visited) && Visits(maze, visited)
    requires Open(maze, next) && Adjacent(path[|path| - 1], next) && next !in visited
    ensures Walk(maze, path + [next], visited + [next]) && Visits(maze, visited + [next])
  {
  }

  /** Stepping back off the last cell, whatever has been visited since, leaves a walk. */
  lemma StepBack(maze: seq<seq<int>>, path: seq<Cell>, visited: seq<Cell>, more: seq<Cell>)
    requires Walk(maze, path, visited) && |path| > 1 && visited <= more
    ensures Walk(maze, path[..|path| - 1], more)
  {
    forall i | 0 <= i < |path| - 1
      ensures path[i] in more
    {
      assert path[i] in visited;
    }
  }

  /** The run of the maze solver: the maze, the exit, the path and visited lists, its steps and tree. */
  class Solver {
    const maze: seq<seq<int>>
    const finish: Cell
    const rec: Recorder<MazeStep>
    var path: seq<Cell>
    var visited: seq<Cell>
    /** The open cells of the maze: the visited list never holds more than these and the start. */
    ghost const opens: set<Cell>

    /** The path is a walk from the start through visited cells, and no cell is visited twice. */
    ghost predicate Valid()
      reads this, rec
    {
      rec.Valid() && Walk(maze, path, visited) && Visits(maze, visited)
      && (forall x :: Open(maze, x) ==> x in opens) && |visited| <= |opens| + 1
    }

    /**
     * The set-up of `generateMazeSteps` (hooks/useBacktracking.ts:699-722, 871-872): the path
     * and the visited list hold the start alone, and a first step shows them.
     */
    constructor (maze: seq<seq<int>>, start: Cell, finish: Cell)
      ensures Valid() && this.maze == maze && this.finish == finish && fresh(rec)
      ensures path == [start] && visited == [start]
      ensures rec.tree == Tree(Root, Title("Maze"), []) && rec.steps == [Step(MazeStep(Start, start, [start], [start]), Root)]
    {
      this.maze, this.finish := maze, finish;
      rec := new Recorder("Maze");
      path, visited := [start], [start];
      opens := Opens(maze);
      new;
      rec.Push(MazeStep(Start, start, [start], [start]), Root);
    }

    /**
     * `solveMaze` (hooks/useBacktracking.ts:725-851) from the last cell of the path. Cells are
     * only ever added to the visited list. A failed call gives the path back as it was; a
     * successful one extends it to the exit.
     */
    method Solve(at: Cell, parent: NodeId) returns (done: bool)
      requires Valid() && path[|path| - 1] == at && parent in Ids(rec.tree)
      modifies this, rec
      ensures Valid() && old(rec.steps) <= rec.steps && Ids(old(rec.tree)) <= Ids(rec.tree)
      ensures old(visited) <= visited
      ensures !done ==> path == old(path)
      ensures done ==> old(path) <= path && path[|path| - 1] == finish
      decreases |opens| + 1 - |visited|, 1
    {
      if at == finish {
        rec.Push(MazeStep(Exit(at), at, path, visited), parent);
        return true;
      }
      var node := rec.Open(parent, CellAt(at.row, at.col));
      for i := 0 to |Moves|
        invariant Valid() && path == old(path) && old(visited) <= visited && node in Ids(rec.tree)
        invariant old(rec.steps) <= rec.steps && Ids(old(rec.tree)) <= Ids(rec.tree)
      {
        done := TryMove(at, i, node);
        if done {
          return;
        }
      }
      done := false;
    }

    /**
     * One round of the move loop of `solveMaze` (hooks/useBacktracking.ts:775-848): when the
     * move leads to an open cell not visited yet, visit it, step onto it, go on from there,
     * and step back off it when that fails.
     */
    method TryMove(at: Cell, i: nat, node: NodeId) returns (done: bool)
      requires Valid() && path[|path| - 1] == at && i < |Moves| && node in Ids(rec.tree)
      modifies this, rec
      ensures Valid() && old(rec.steps) <= rec.steps && Ids(old(rec.tree)) <= Ids(rec.tree)
      ensures old(visited) <= visited
      ensures !done ==> path == old(path)
      ensures done ==> old(path) <= path && path[|path| - 1] == finish
      decreases |opens| + 1 - |visited|, 0
    {
      var next := Cell(at.row + Moves[i].0, at.col + Moves[i].1);
      done := false;
      if 0 <= next.row < |maze| && 0 <= next.col < |maze[0]| && next.col < |maze[next.row]|
         && maze[next.row][next.col] == 0 && next !in visited {
        Advance(at, i, next, node);
        done := Solve(next, node);
        if !done {
          Retreat(at, next, node);
        }
      }
    }

    /** Record the move tried, visit its cell and step onto it (hooks/useBacktracking.ts:789-815). */
    method Advance(at: Cell, i: nat, next: Cell, node: NodeId)
      requires Valid() && path[|path| - 1] == at && node in Ids(rec.tree)
      requires Open(maze, next) && Adjacent(at, next) && next !in visited
      modifies this`path, this`visited, rec
      ensures Valid() && path == old(path) + [next] && visited == old(visited) + [next]
      ensures old(rec.steps) <= rec.steps && rec.tree == old(rec.tree)
    {
      rec.Push(MazeStep(Try(i, at, next), next, path, visited), node);
      StepOn(maze, path, visited, next);
      VisitBound(maze, opens, visited + [next]);
      visited := visited + [next];
      path := path + [next];
      rec.Push(MazeStep(Move(i, next), next, path, visited), node);
    }

    /** Take the last cell back off the path, leaving it visited (hooks/useBacktracking.ts:833-846). */
    method Retreat(at: Cell, next: Cell, node: NodeId)
      requires Valid() && |path| > 1 && node in Ids(rec.tree)
      modifies this`path, rec
      ensures Valid() && path == old(path[..|path| - 1])
      ensures old(rec.steps) <= rec.steps && rec.tree == old(rec.tree)
    {
      StepBack(maze, path, visited, visited);
      path := path[..|path| - 1];
      rec.Push(MazeStep(Back(next, at), at, path, visited), node);
    }

    /** `generateMazeSteps` from `solveMaze(maze, startRow, startCol, ..., "root")` on. */
    method Run() returns (solved: bool, steps: seq<Step<MazeStep>>)
      requires Valid() && |path| == 1
      modifies this, rec
      ensures Valid() && steps == rec.steps && old(rec.steps) <= steps && old(visited) <= visited
      ensures !solved ==> path == old(path)
      ensures solved ==> path[0] == old(path[0]) && path[|path| - 1] == finish
    {
      solved := Solve(path[0], Root);
      steps := rec.steps;
    }
  }
}
