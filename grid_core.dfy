/**
 * The grid of the pathfinding engine, hooks/usePathfinding.ts: a rectangle of nodes, each with
 * its flags, its `distance` (`Infinity` until a search reaches it), its `previousNode` link
 * and the A* scores, together with the pure grid helpers: the neighbours of a node, the
 * Manhattan distance, toggling a wall and clearing a finished search.
 */
module GridCore {
  import opened JsSort

  /** A node's place: the `row` and `col` fields, which always agree with its place in the grid. */
  datatype Pos = Pos(row: nat, col: nat)

  /** `previousNode`: `null`, or the node a search reached this one from. */
  datatype Link = NoLink | Prev(p: Pos)

  /** The `Node` interface (hooks/usePathfinding.ts:5-18); `gScore`, `fScore`, `hScore` are A*'s. */
  datatype Cell = Cell(isStart: bool, isFinish: bool, isWall: bool, isVisited: bool, isPath: bool,
                       distance: Key, previous: Link, gScore: Key, fScore: Key, hScore: int)

  type Grid = seq<seq<Cell>>

  /** `grid[0].length`: the width of the grid. */
  function Cols(g: Grid): nat
  {
    if |g| == 0 then 0 else |g[0]|
  }

  /** Every row is as long as the first. */
  predicate Rect(g: Grid)
  {
    forall r :: 0 <= r < |g| ==> |g[r]| == Cols(g)
  }

  predicate In(g: Grid, p: Pos)
  {
    p.row < |g| && p.col < Cols(g)
  }

  function At(g: Grid, p: Pos): Cell
    requires Rect(g) && In(g, p)
  {
    g[p.row][p.col]
  }

  /** The grid with the node at p replaced by x. */
  function Put(g: Grid, p: Pos, x: Cell): (r: Grid)
    requires Rect(g) && In(g, p)
    ensures Rect(r) && |r| == |g| && Cols(r) == Cols(g)
    ensures forall q :: In(r, q) ==> At(r, q) == if q == p then x else At(g, q)
  {
    g[p.row := g[p.row][p.col := x]]
  }

  /** Two grids of the same shape. */
  predicate SameShape(g: Grid, h: Grid)
  {
    Rect(g) && Rect(h) && |g| == |h| && Cols(g) == Cols(h)
  }

  function Abs(x: int): nat
  {
    if x < 0 then -x else x
  }

  /** `manhattanDistance` (hooks/usePathfinding.ts:562-564). */
  function Manhattan(a: Pos, b: Pos): nat
  {
    Abs(a.row - b.row) + Abs(a.col - b.col)
  }

  /**
   * The Manhattan distance is a metric: zero exactly between equal places, symmetric, and
   * never more than a detour through a third place.
   */
  lemma ManhattanMetric(a: Pos, b: Pos, c: Pos)
    ensures Manhattan(a, b) == 0 <==> a == b
    ensures Manhattan(a, b) == Manhattan(b, a)
    ensures Manhattan(a, c) <= Manhattan(a, b) + Manhattan(b, c)
  {
  }

  /**
   * A* estimates with the Manhattan distance to the finish, and one move changes that estimate
   * by exactly one: the heuristic never drops by more than the cost of a move.
   */
  lemma ManhattanStep(p: Pos, q: Pos, f: Pos)
    requires Manhattan(p, q) == 1
    ensures Manhattan(q, f) == Manhattan(p, f) + 1 || Manhattan(q, f) + 1 == Manhattan(p, f)
  {
  }

  /** The unvisited places among s, in order: the `filter` of `getNeighbors`. */
  function Unvisited(g: Grid, s: seq<Pos>): (r: seq<Pos>)
    requires Rect(g) && forall i :: 0 <= i < |s| ==> In(g, s[i])
    ensures |r| <= |s|
    ensures forall q :: q in r <==> q in s && !At(g, q).isVisited
    decreases |s|
  {
    if s == [] then []
    else if At(g, s[0]).isVisited then Unvisited(g, s[1..])
    else [s[0]] + Unvisited(g, s[1..])
  }

  /** The node above, below, to the left and to the right of p, those inside the grid. */
  function Around(g: Grid, p: Pos): (r: seq<Pos>)
  {
    var up := if p.row > 0 then [Pos(p.row - 1, p.col)] else [];
    var down := if p.row < |g| - 1 then [Pos(p.row + 1, p.col)] else [];
    var left := if p.col > 0 then [Pos(p.row, p.col - 1)] else [];
    var right := if p.col < Cols(g) - 1 then [Pos(p.row, p.col + 1)] else [];
    up + down + left + right
  }

  /** Those are at most four, each once, and exactly the nodes of the grid one step away. */
  lemma AroundExact(g: Grid, p: Pos)
    requires In(g, p)
    ensures |Around(g, p)| <= 4
    ensures forall i, j :: 0 <= i < j < |Around(g, p)| ==> Around(g, p)[i] != Around(g, p)[j]
    ensures forall q :: q in Around(g, p) <==> In(g, q) && Manhattan(p, q) == 1
  {
    var s := Around(g, p);
    forall i, j | 0 <= i < j < |s|
      ensures s[i] != s[j]
    {
    }
    forall q | In(g, q) && Manhattan(p, q) == 1
      ensures q in s
    {
      if q.row < p.row {
        assert q == Pos(p.row - 1, p.col);
      } else if q.row > p.row {
        assert q == Pos(p.row + 1, p.col);
      } else if q.col < p.col {
        assert q == Pos(p.row, p.col - 1);
      } else {
        assert q == Pos(p.row, p.col + 1);
      }
    }
  }

  /**
   * `getNeighbors` (hooks/usePathfinding.ts:594-604): the nodes around p, in the order up,
   * down, left, right, keeping the ones not yet visited.
   */
  function Neighbours(g: Grid, p: Pos): (r: seq<Pos>)
    requires Rect(g) && In(g, p)
    ensures forall i :: 0 <= i < |r| ==> In(g, r[i])
  {
    AroundExact(g, p);
    Unvisited(g, Around(g, p))
  }

  /**
   * The neighbours are at most four, each once, and they are exactly the unvisited nodes of
   * the grid one step away.
   */
  lemma NeighboursExact(g: Grid, p: Pos)
    requires Rect(g) && In(g, p)
    ensures |Neighbours(g, p)| <= 4
    ensures forall i, j :: 0 <= i < j < |Neighbours(g, p)| ==> Neighbours(g, p)[i] != Neighbours(g, p)[j]
    ensures forall q :: q in Neighbours(g, p) <==> In(g, q) && Manhattan(p, q) == 1 && !At(g, q).isVisited
  {
    AroundExact(g, p);
    UnvisitedNoDup(g, Around(g, p));
  }

  /** Filtering a sequence without repeats leaves one without repeats. */
  lemma {:induction false} UnvisitedNoDup(g: Grid, s: seq<Pos>)
    requires Rect(g) && forall i :: 0 <= i < |s| ==> In(g, s[i])
    requires forall i, j :: 0 <= i < j < |s| ==> s[i] != s[j]
    ensures forall i, j :: 0 <= i < j < |Unvisited(g, s)| ==> Unvisited(g, s)[i] != Unvisited(g, s)[j]
    decreases |s|
  {
    if s != [] {
      UnvisitedNoDup(g, s[1..]);
      assert s[0] !in s[1..];
    }
  }

  /**
   * `getNewGridWithWallToggled` (hooks/usePathfinding.ts:132-145): the wall flag of the node
   * at p flips unless it is the start or the finish; no other node changes.
   */
  function WallToggled(g: Grid, p: Pos): (r: Grid)
    requires Rect(g) && In(g, p)
    ensures SameShape(g, r)
    ensures forall q :: In(g, q) && q != p ==> At(r, q) == At(g, q)
    ensures At(g, p).isStart || At(g, p).isFinish ==> At(r, p) == At(g, p)
    ensures !At(g, p).isStart && !At(g, p).isFinish ==>
              At(r, p).isWall != At(g, p).isWall && At(r, p) == At(g, p).(isWall := At(r, p).isWall)
  {
    var node := At(g, p);
    if !node.isStart && !node.isFinish then Put(g, p, node.(isWall := !node.isWall)) else g
  }

  /** Toggling the same node twice gives back the grid. */
  lemma ToggleTwice(g: Grid, p: Pos)
    requires Rect(g) && In(g, p)
    ensures WallToggled(WallToggled(g, p), p) == g
  {
    var h := WallToggled(WallToggled(g, p), p);
    forall r | 0 <= r < |g|
      ensures h[r] == g[r]
    {
      forall c | 0 <= c < Cols(g)
        ensures h[r][c] == g[r][c]
      {
        assert At(h, Pos(r, c)) == At(g, Pos(r, c));
      }
    }
  }

  /** What a search leaves behind is gone: no visit, no path mark, no distance, no link. */
  predicate Reset(c: Cell)
  {
    !c.isVisited && !c.isPath && c.distance == Inf && c.previous == NoLink
  }

  /** The parts of a node a search and `clearPath` leave alone. */
  predicate Kept(a: Cell, b: Cell)
  {
    a.isStart == b.isStart && a.isFinish == b.isFinish && a.isWall == b.isWall
  }

  function Cleared(c: Cell): Cell
  {
    c.(isVisited := false, isPath := false, distance := Inf, previous := NoLink)
  }

  /**
   * The grid transform of `clearPath` (hooks/usePathfinding.ts:177-186): every node is reset
   * and keeps its start, finish and wall flags and its A* scores.
   */
  function ClearPath(g: Grid): (r: Grid)
    requires Rect(g)
    ensures SameShape(g, r)
    ensures forall q :: In(g, q) ==> Reset(At(r, q)) && Kept(At(r, q), At(g, q))
    ensures forall q :: In(g, q) ==> At(r, q).gScore == At(g, q).gScore && At(r, q).fScore == At(g, q).fScore
    ensures forall q :: In(g, q) ==> At(r, q).hScore == At(g, q).hScore
  {
    seq(|g|, r requires 0 <= r < |g| => seq(|g[r]|, c requires 0 <= c < |g[r]| => Cleared(g[r][c])))
  }

  /** Clearing a cleared grid changes nothing. */
  lemma ClearTwice(g: Grid)
    requires Rect(g)
    ensures ClearPath(ClearPath(g)) == ClearPath(g)
  {
    var h, k := ClearPath(ClearPath(g)), ClearPath(g);
    forall r | 0 <= r < |g|
      ensures h[r] == k[r]
    {
      forall c | 0 <= c < Cols(g)
        ensures h[r][c] == k[r][c]
      {
        assert At(h, Pos(r, c)) == At(k, Pos(r, c));
      }
    }
  }

  /** Row-major order: the order `getAllNodes` lists the nodes in. */
  predicate Before(a: Pos, b: Pos)
  {
    a.row < b.row || (a.row == b.row && a.col < b.col)
  }

  /**
   * `getAllNodes` (hooks/usePathfinding.ts:567-575): every node of the grid, row by row, each
   * row left to right.
   */
  method AllNodes(g: Grid) returns (nodes: seq<Pos>)
    requires Rect(g)
    ensures forall q :: q in nodes <==> In(g, q)
    ensures forall i, j :: 0 <= i < j < |nodes| ==> Before(nodes[i], nodes[j])
  {
    nodes := [];
    for row := 0 to |g|
      invariant forall q :: q in nodes <==> In(g, q) && q.row < row
      invariant forall i, j :: 0 <= i < j < |nodes| ==> Before(nodes[i], nodes[j])
      invariant forall i :: 0 <= i < |nodes| ==> nodes[i].row < row
    {
      for col := 0 to |g[row]|
        invariant forall q :: q in nodes <==> In(g, q) && (q.row < row || (q.row == row && q.col < col))
        invariant forall i, j :: 0 <= i < j < |nodes| ==> Before(nodes[i], nodes[j])
        invariant forall i :: 0 <= i < |nodes| ==> Before(nodes[i], Pos(row, col))
      {
        nodes := nodes + [Pos(row, col)];
      }
    }
  }
}
