/**
 * Reading the shortest path off the grid a search left behind (hooks/usePathfinding.ts:607-617):
 * from the finish node, follow `previousNode` links back until a node has none. The walk
 * always starts from the finish, reached or not. A finish the search never gave a distance
 * reads back to itself alone; a finish dragged onto a wall is never listed, yet as a neighbour
 * of a listed node it may get a distance and a link, and then reads back to a path from the
 * start like a reached one.
 */
module GridPath {
  import opened JsSort
  import opened GridCore
  import opened GridVisit
  import opened GridSearch

  /**
   * The links of g lead somewhere: every link points inside the grid, to a node of lower rank.
   * Without such a ranking the loop of `getNodesInShortestPathOrder` could go round a cycle
   * of links forever.
   */
  ghost predicate Chain(g: Grid, rank: Pos -> nat)
    requires Rect(g)
  {
    forall q :: In(g, q) && At(g, q).previous.Prev? ==>
      In(g, At(g, q).previous.p) && rank(At(g, q).previous.p) < rank(q)
  }

  /**
   * path ends at the finish, each node of it is the link of the next, and its first node has
   * no link.
   */
  ghost predicate Walk(g: Grid, path: seq<Pos>, finish: Pos)
    requires Rect(g)
  {
    |path| > 0 && path[|path| - 1] == finish
    && (forall i :: 0 <= i < |path| ==> In(g, path[i]))
    && At(g, path[0]).previous == NoLink
    && (forall i :: 0 <= i < |path| - 1 ==> At(g, path[i + 1]).previous == Prev(path[i]))
  }

  /**
   * `getNodesInShortestPathOrder` (hooks/usePathfinding.ts:607-617): the nodes from the first
   * one without a link up to the finish, each the link of the next, none twice.
   */
  method PathOrder(g: Grid, finish: Pos, ghost rank: Pos -> nat) returns (path: seq<Pos>)
    requires Rect(g) && In(g, finish) && Chain(g, rank)
    ensures |path| > 0 && path[|path| - 1] == finish
    ensures forall i :: 0 <= i < |path| ==> In(g, path[i])
    ensures At(g, path[0]).previous == NoLink
    ensures forall i :: 0 <= i < |path| - 1 ==> At(g, path[i + 1]).previous == Prev(path[i])
    ensures Distinct(path)
  {
    path := [];
    var current := Prev(finish);
    while current != NoLink
      invariant current.Prev? ==> In(g, current.p)
      invariant forall i :: 0 <= i < |path| ==> In(g, path[i])
      invariant path == [] ==> current == Prev(finish)
      invariant path != [] ==> path[|path| - 1] == finish && At(g, path[0]).previous == current
      invariant forall i :: 0 <= i < |path| - 1 ==> At(g, path[i + 1]).previous == Prev(path[i])
      invariant forall i, j :: 0 <= i < j < |path| ==> rank(path[i]) < rank(path[j])
      invariant current.Prev? && path != [] ==> rank(current.p) < rank(path[0])
      decreases if current.Prev? then rank(current.p) + 1 else 0
    {
      path := [current.p] + path;
      current := At(g, current.p).previous;
    }
  }

  /**
   * After a search that started on a grid with no links, the links of the grid it leaves
   * are ranked by the visit order (a node linked but not yet visited ranking after all the
   * visited ones), so `PathOrder` can be called on it.
   */
  lemma SearchChain(g0: Grid, g: Grid, start: Pos, result: seq<Pos>, order: map<Pos, nat>, m: Measure)
    requires Trace(g0, g, start, result, order, m)
    requires forall q :: In(g0, q) ==> At(g0, q).previous == NoLink
    requires In(g, start) && At(g, start).previous == NoLink
    ensures Chain(g, q => if q in order then order[q] else |result|)
  {
    var rank := q => if q in order then order[q] else |result|;
    forall q | In(g, q) && At(g, q).previous.Prev?
      ensures In(g, At(g, q).previous.p) && rank(At(g, q).previous.p) < rank(q)
    {
      assert q != start && Changed(g0, g, q, m);
      assert LinkedBy(g, order, q, m);
    }
  }

  /**
   * The walk back from the finish on the grid of such a search, where only the start had a
   * score, is a path of moves from the start: when it has more than one node it begins at the
   * start, consecutive nodes are one step apart, and each is one more step from the start
   * than the one before, so the path has as many moves as the finish's score.
   */
  lemma {:induction false} WalkFromStart(g0: Grid, g: Grid, start: Pos, finish: Pos, result: seq<Pos>,
                                         order: map<Pos, nat>, m: Measure, path: seq<Pos>)
    requires Trace(g0, g, start, result, order, m)
    requires forall q :: In(g0, q) && q != start ==> At(g0, q).previous == NoLink && Score(At(g0, q), m) == Inf
    requires In(g, start) && Score(At(g, start), m) == Fin(0) && At(g, start).previous == NoLink
    requires Walk(g, path, finish)
    ensures |path| > 1 ==> path[0] == start
    ensures forall i :: 0 <= i < |path| - 1 ==> Manhattan(path[i], path[i + 1]) == 1
    ensures |path| > 1 ==> forall i :: 0 <= i < |path| ==> Score(At(g, path[i]), m) == Fin(i)
  {
    WalkLinks(g0, g, start, finish, order, m, path);
    if |path| > 1 {
      assert path[0] in order;
      if path[0] != start {
        assert Score(At(g, path[0]), m).Fin?;
        assert Changed(g0, g, path[0], m);
        assert false;
      }
      ScoreSteps(g, path, m);
    }
  }

  /** Each step of a walk read back along the links goes from a visited node to a neighbour scored one more. */
  lemma {:induction false} WalkLinks(g0: Grid, g: Grid, start: Pos, finish: Pos,
                                     order: map<Pos, nat>, m: Measure, path: seq<Pos>)
    requires SameShape(g0, g) && Linked(g0, g, start, order, m)
    requires forall q :: In(g0, q) && q != start ==> At(g0, q).previous == NoLink && Score(At(g0, q), m) == Inf
    requires In(g, start) && At(g, start).previous == NoLink
    requires Walk(g, path, finish)
    ensures forall i :: 0 <= i < |path| - 1 ==>
              path[i] in order && Manhattan(path[i], path[i + 1]) == 1
              && Score(At(g, path[i]), m).Fin? && Score(At(g, path[i + 1]), m) == Fin(Score(At(g, path[i]), m).n + 1)
  {
    forall i | 0 <= i < |path| - 1
      ensures path[i] in order && Manhattan(path[i], path[i + 1]) == 1
      ensures Score(At(g, path[i]), m).Fin? && Score(At(g, path[i + 1]), m) == Fin(Score(At(g, path[i]), m).n + 1)
    {
      LinkStep(g0, g, start, order, m, path[i + 1], path[i]);
    }
  }

  /** A node linked to p after a search from a cleared grid is a neighbour of p, scored one more. */
  lemma LinkStep(g0: Grid, g: Grid, start: Pos, order: map<Pos, nat>, m: Measure, q: Pos, p: Pos)
    requires SameShape(g0, g) && Linked(g0, g, start, order, m)
    requires forall q :: In(g0, q) && q != start ==> At(g0, q).previous == NoLink && Score(At(g0, q), m) == Inf
    requires In(g, start) && At(g, start).previous == NoLink
    requires In(g, q) && At(g, q).previous == Prev(p)
    ensures p in order && In(g, p) && Manhattan(p, q) == 1
    ensures Score(At(g, p), m).Fin? && Score(At(g, q), m) == Fin(Score(At(g, p), m).n + 1)
  {
    assert In(g0, q) && q != start;
    assert Changed(g0, g, q, m);
    assert LinkedBy(g, order, q, m);
  }

  /** Scores that start at 0 and rise by one along the path are the indices of the path. */
  lemma {:induction false} ScoreSteps(g: Grid, path: seq<Pos>, m: Measure)
    requires Rect(g) && |path| > 0 && forall i :: 0 <= i < |path| ==> In(g, path[i])
    requires Score(At(g, path[0]), m) == Fin(0)
    requires forall i :: 0 <= i < |path| - 1 ==>
               Score(At(g, path[i]), m).Fin? && Score(At(g, path[i + 1]), m) == Fin(Score(At(g, path[i]), m).n + 1)
    ensures forall i :: 0 <= i < |path| ==> Score(At(g, path[i]), m) == Fin(i)
    decreases |path|
  {
    if |path| > 1 {
      ScoreSteps(g, path[..|path| - 1], m);
      assert Score(At(g, path[|path| - 2]), m) == Fin(|path| - 2);
    }
  }

  /**
   * `bfs` or `dfs` run on a cleared grid (the state `clearPath` leaves) links its nodes so that
   * the path can be read back, and the path read back from a finish it reached, other than
   * the start itself, runs from the start to the finish by single steps, as many as the
   * finish's `distance`. Any path of more than one node, even from a walled finish the search
   * linked without listing it, runs that way from the start; from a finish the search left
   * without a distance, the path is the finish alone.
   */
  lemma FoundPath(grid: Grid, g: Grid, start: Pos, finish: Pos, result: seq<Pos>, order: map<Pos, nat>, path: seq<Pos>)
    requires Rect(grid) && forall q :: In(grid, q) ==> Reset(At(grid, q))
    requires Found(grid, g, start, finish, result, order) && In(g, finish) && Walk(g, path, finish)
    ensures Chain(g, q => if q in order then order[q] else |result|)
    ensures finish in result && finish != start ==> |path| > 1
    ensures |path| > 1 ==> path[0] == start
    ensures forall i :: 0 <= i < |path| - 1 ==> Manhattan(path[i], path[i + 1]) == 1
    ensures |path| > 1 ==> At(g, finish).distance == Fin(|path| - 1)
    ensures finish !in result && At(g, finish).distance == Inf ==> path == [finish]
  {
    SearchChain(grid, g, start, result, order, Distance);
    WalkFromStart(grid, g, start, finish, result, order, Distance, path);
    if finish in result && finish != start {
      assert finish in order;
      assert Changed(grid, g, finish, Distance);
      assert LinkedBy(g, order, finish, Distance);
    }
  }
}
