/**
 * Breadth-first and depth-first search over the grid, `bfs` and `dfs` of
 * hooks/usePathfinding.ts:406-475. Both set the start's distance to 0 and keep a line of nodes
 * to visit, seeded with the start; `bfs` takes from the front (a queue), `dfs` from the back
 * (a stack). A node taken that is a wall or already visited is skipped; otherwise it is marked
 * visited and listed, the search stops if it is the finish, and each unvisited neighbour gets
 * a distance one more and a link back to it and joins the line.
 */
module GridSearch {
  import opened JsSort
  import opened GridCore
  import opened GridVisit

  /** Every node in the line is inside the grid, and is the start or is linked back. */
  ghost predicate Waiting(g: Grid, start: Pos, line: seq<Pos>, order: map<Pos, nat>)
    requires Rect(g)
  {
    forall i :: 0 <= i < |line| ==> In(g, line[i]) && (line[i] == start || LinkedBy(g, order, line[i], Distance))
  }

  /** Every node next to a listed node is a wall, visited, or waiting in the line. */
  ghost predicate Covered(g: Grid, order: map<Pos, nat>, line: seq<Pos>)
    requires Rect(g)
  {
    forall x, q :: x in order && In(g, q) && Manhattan(x, q) == 1 ==> At(g, q).isWall || At(g, q).isVisited || q in line
  }

  /**
   * The state of `bfs` and `dfs` between two turns of their loop: the trace of the search,
   * the start first and at distance 0 with its link untouched, the finish not yet listed,
   * the line as above, and the line holding only the start until something is listed.
   */
  ghost predicate Searching(g0: Grid, g: Grid, start: Pos, finish: Pos, result: seq<Pos>,
                            order: map<Pos, nat>, line: seq<Pos>)
  {
    Trace(g0, g, start, result, order, Distance) && In(g, start) && finish !in order
    && At(g, start).distance == Fin(0) && At(g, start).previous == At(g0, start).previous
    && (result == [] ==> line == [start] || line == [])
    && (result != [] ==> result[0] == start)
    && Waiting(g, start, line, order) && Covered(g, order, line)
    && (forall q :: q in order ==> !At(g0, q).isVisited)
  }

  /**
   * The `for` over the neighbours of the node just visited (hooks/usePathfinding.ts:428-435,
   * 464-471): each one, unvisited, gets distance one more than cur's and a link back to cur,
   * and joins the end of the line.
   */
  method Expand(ghost g0: Grid, g: Grid, start: Pos, ghost finish: Pos, ghost result: seq<Pos>,
                ghost order: map<Pos, nat>, cur: Pos, line: seq<Pos>)
    returns (g': Grid, line': seq<Pos>)
    requires Expanding(g0, g, g, start, result, order, line) && cur in order
    ensures Expanding(g0, g, g', start, result, order, line')
    ensures line' == line + Neighbours(g, cur)
  {
    var neighbours := Neighbours(g, cur);
    NeighboursExact(g, cur);
    g', line' := g, line;
    for i := 0 to |neighbours|
      invariant Expanding(g0, g, g', start, result, order, line')
      invariant line' == line + neighbours[..i]
    {
      var n := neighbours[i];
      if !At(g', n).isVisited {
        ExpandStep(g0, g, g', start, result, order, line', cur, n);
        g', line' := Attach(g', cur, n, Distance), line' + [n];
      } else {
        assert false;
      }
      Extend(line, neighbours, i);
    }
    assert neighbours[..|neighbours|] == neighbours;
  }

  /** A line that has taken the first i + 1 nodes of s is the one that had taken i, with s[i] added. */
  lemma Extend(line: seq<Pos>, s: seq<Pos>, i: nat)
    requires i < |s|
    ensures line + s[..i] + [s[i]] == line + s[..i + 1]
  {
    assert s[..i + 1] == s[..i] + [s[i]];
  }

  /** What `Expand` keeps while it goes through the neighbours of one node, g' its grid so far. */
  ghost predicate Expanding(g0: Grid, g: Grid, g': Grid, start: Pos, result: seq<Pos>, order: map<Pos, nat>, line: seq<Pos>)
  {
    SameShape(g, g') && Trace(g0, g', start, result, order, Distance) && Waiting(g', start, line, order)
    && Fresh(g') == Fresh(g)
    && (forall q :: In(g, q) ==> At(g', q).isVisited == At(g, q).isVisited && At(g', q).isWall == At(g, q).isWall)
    && In(g, start) && At(g', start).distance == Fin(0) && At(g', start).previous == At(g0, start).previous
    && start in order
  }

  /** Linking one more unvisited neighbour n of a listed node cur keeps all of that. */
  lemma ExpandStep(g0: Grid, g: Grid, g': Grid, start: Pos, result: seq<Pos>, order: map<Pos, nat>,
                   line: seq<Pos>, cur: Pos, n: Pos)
    requires Expanding(g0, g, g', start, result, order, line)
    requires cur in order && In(g', n) && !At(g', n).isVisited && Manhattan(cur, n) == 1
    ensures Expanding(g0, g, Attach(g', cur, n, Distance), start, result, order, line + [n])
  {
    assert n != start;
    AttachKeeps(g0, g', start, result, order, Distance, cur, n);
    AttachFresh(g', cur, n, Distance);
    AttachCells(g', cur, n, Distance);
    AttachWaiting(g', start, result, order, line, cur, n);
  }

  /** Linking n to cur keeps the line waiting, with n joining its end. */
  lemma AttachWaiting(g: Grid, start: Pos, result: seq<Pos>, order: map<Pos, nat>, line: seq<Pos>, cur: Pos, n: Pos)
    requires Rect(g) && In(g, cur) && In(g, n) && Waiting(g, start, line, order)
    requires LinkedBy(Attach(g, cur, n, Distance), order, n, Distance)
    requires forall q :: In(g, q) && q != n && LinkedBy(g, order, q, Distance) ==> LinkedBy(Attach(g, cur, n, Distance), order, q, Distance)
    ensures Waiting(Attach(g, cur, n, Distance), start, line + [n], order)
  {
    var g' := Attach(g, cur, n, Distance);
    forall k | 0 <= k < |line|
      ensures In(g', line[k]) && (line[k] == start || LinkedBy(g', order, line[k], Distance))
    {
      assert In(g, line[k]) && (line[k] == start || LinkedBy(g, order, line[k], Distance));
    }
  }

  /**
   * One turn of the loop of `bfs` or `dfs` on the node at index k of the line, which it
   * takes out (hooks/usePathfinding.ts:416-435, 452-471): a wall or a visited node is
   * skipped; otherwise it is visited. Either fewer nodes are unvisited or the line is
   * shorter.
   */
  method Take(ghost g0: Grid, g: Grid, start: Pos, finish: Pos, result: seq<Pos>,
              ghost order: map<Pos, nat>, line: seq<Pos>, k: nat)
    returns (g': Grid, result': seq<Pos>, ghost order': map<Pos, nat>, line': seq<Pos>, done: bool)
    requires Searching(g0, g, start, finish, result, order, line) && k < |line|
    ensures Trace(g0, g', start, result', order', Distance)
    ensures done ==> result' == result + [line[k]] && line[k] == finish
    ensures result' == (if At(g, line[k]).isWall || At(g, line[k]).isVisited then result else result + [line[k]])
    ensures !done ==> Searching(g0, g', start, finish, result', order', line')
    ensures !done ==> |Fresh(g')| < |Fresh(g)| || (Fresh(g') == Fresh(g) && |line'| < |line|)
    ensures forall q :: q in order' ==> !At(g0, q).isVisited
    ensures result' != [] ==> result'[0] == start
    ensures At(g', start).distance == Fin(0) && At(g', start).previous == At(g0, start).previous
  {
    var cur := line[k];
    var rest := line[..k] + line[k + 1..];
    if At(g, cur).isWall || At(g, cur).isVisited {
      g', result', order', line', done := g, result, order, rest, false;
      assert forall q :: q in line ==> q == cur || q in rest;
      assert forall i :: 0 <= i < |rest| ==> rest[i] in line;
      return;
    }
    g', result', order', line', done := Visit(g0, g, start, finish, result, order, line, k);
  }

  /**
   * The node at index k of the line, neither a wall nor visited, is marked and listed; the
   * search is done if it is the finish, and otherwise its neighbours join the line.
   */
  method Visit(ghost g0: Grid, g: Grid, start: Pos, finish: Pos, result: seq<Pos>,
               ghost order: map<Pos, nat>, line: seq<Pos>, k: nat)
    returns (g': Grid, result': seq<Pos>, ghost order': map<Pos, nat>, line': seq<Pos>, done: bool)
    requires Searching(g0, g, start, finish, result, order, line) && k < |line|
    requires In(g, line[k]) && !At(g, line[k]).isWall && !At(g, line[k]).isVisited
    ensures Trace(g0, g', start, result', order', Distance)
    ensures result' == result + [line[k]] && (done <==> line[k] == finish)
    ensures !done ==> Searching(g0, g', start, finish, result', order', line')
    ensures |Fresh(g')| < |Fresh(g)|
    ensures forall q :: q in order' ==> !At(g0, q).isVisited
    ensures result'[0] == start
    ensures At(g', start).distance == Fin(0) && At(g', start).previous == At(g0, start).previous
  {
    var cur := line[k];
    var rest := line[..k] + line[k + 1..];
    Listing(g0, g, start, finish, result, order, line, k);
    var gm := Mark(g, cur);
    g', result', order', line' := gm, result + [cur], order[cur := |result|], rest;
    done := cur == finish;
    if done {
      return;
    }
    g', line' := Grow(g0, gm, start, finish, result', order, cur, rest);
  }

  /** Marking and listing the node at index k of the line, the rest of the line still waits. */
  lemma Listing(g0: Grid, g: Grid, start: Pos, finish: Pos, result: seq<Pos>,
                order: map<Pos, nat>, line: seq<Pos>, k: nat)
    requires Searching(g0, g, start, finish, result, order, line) && k < |line|
    requires In(g, line[k]) && !At(g, line[k]).isWall && !At(g, line[k]).isVisited
    ensures var cur, gm, order' := line[k], Mark(g, line[k]), order[line[k] := |result|];
            Trace(g0, gm, start, result + [cur], order', Distance) && cur !in order
            && |Fresh(gm)| < |Fresh(g)| && (forall q :: q in order' ==> !At(g0, q).isVisited)
            && (result + [cur])[0] == start && In(gm, start) && At(gm, cur).isVisited
            && At(gm, start).distance == Fin(0) && At(gm, start).previous == At(g0, start).previous
            && Waiting(gm, start, line[..k] + line[k + 1..], order')
            && Covered(gm, order, line[..k] + line[k + 1..])
  {
    var cur := line[k];
    assert cur !in order;
    assert cur == start || LinkedBy(g, order, cur, Distance);
    assert result == [] ==> cur == start;
    MarkKeeps(g0, g, start, result, order, Distance, cur);
    MarkShrinks(g, cur);
    MarkCells(g, cur);
    Rest(g, start, result, order, line, k);
  }

  /** The line without its node at index k still waits and covers once that node is marked. */
  lemma Rest(g: Grid, start: Pos, result: seq<Pos>, order: map<Pos, nat>, line: seq<Pos>, k: nat)
    requires Rect(g) && k < |line| && Waiting(g, start, line, order) && Covered(g, order, line)
    requires line[k] !in order && !At(g, line[k]).isVisited
    requires forall q :: q in line && LinkedBy(g, order, q, Distance) ==>
               LinkedBy(Mark(g, line[k]), order[line[k] := |result|], q, Distance)
    ensures Waiting(Mark(g, line[k]), start, line[..k] + line[k + 1..], order[line[k] := |result|])
    ensures Covered(Mark(g, line[k]), order, line[..k] + line[k + 1..])
  {
    var cur := line[k];
    var rest := line[..k] + line[k + 1..];
    assert forall q :: q in line ==> q == cur || q in rest;
    assert forall i :: 0 <= i < |rest| ==> rest[i] in line;
    MarkCells(g, cur);
    var gm := Mark(g, cur);
    forall i | 0 <= i < |rest|
      ensures In(gm, rest[i]) && (rest[i] == start || LinkedBy(gm, order[cur := |result|], rest[i], Distance))
    {
      assert rest[i] in line;
    }
    CoveredMark(g, order, line, cur, rest);
  }

  /** Marking the node taken out of the line keeps the other listed nodes covered. */
  lemma CoveredMark(g: Grid, order: map<Pos, nat>, line: seq<Pos>, cur: Pos, rest: seq<Pos>)
    requires Rect(g) && In(g, cur) && Covered(g, order, line)
    requires forall q :: q in line ==> q == cur || q in rest
    ensures Covered(Mark(g, cur), order, rest)
  {
    MarkCells(g, cur);
    forall x, q | x in order && In(g, q) && Manhattan(x, q) == 1
      ensures At(Mark(g, cur), q).isWall || At(Mark(g, cur), q).isVisited || q in rest
    {
      assert At(g, q).isWall || At(g, q).isVisited || q in line;
    }
  }

  /**
   * The neighbours of the node just listed, cur, join the line; every listed node, cur
   * included, is then covered, and the search goes on.
   */
  method Grow(ghost g0: Grid, gm: Grid, start: Pos, ghost finish: Pos, ghost result: seq<Pos>,
              ghost order: map<Pos, nat>, cur: Pos, rest: seq<Pos>)
    returns (g': Grid, line': seq<Pos>)
    requires result != [] && result[|result| - 1] == cur && cur != finish
    requires Trace(g0, gm, start, result, order[cur := |result| - 1], Distance) && cur !in order
    requires In(gm, start) && finish !in order
    requires At(gm, start).distance == Fin(0) && At(gm, start).previous == At(g0, start).previous
    requires result[0] == start && At(gm, cur).isVisited
    requires Waiting(gm, start, rest, order[cur := |result| - 1]) && Covered(gm, order, rest)
    requires forall q :: q in order[cur := |result| - 1] ==> !At(g0, q).isVisited
    ensures Searching(g0, g', start, finish, result, order[cur := |result| - 1], line')
    ensures Fresh(g') == Fresh(gm)
  {
    var order' := order[cur := |result| - 1];
    assert start in order';
    g', line' := Expand(g0, gm, start, finish, result, order', cur, rest);
    NeighboursExact(gm, cur);
    forall q | In(gm, q) && Manhattan(cur, q) == 1
      ensures At(g', q).isVisited || At(g', q).isWall || q in line'
    {
      if !At(gm, q).isVisited {
        assert q in Neighbours(gm, cur);
      }
    }
    forall q | q in rest
      ensures q in line'
    {
      assert line' == rest + Neighbours(gm, cur);
    }
    CoveredAfter(gm, g', order, cur, |result| - 1, rest, rest, line');
  }

  /**
   * Covering survives a turn: walls stay walls, visited nodes stay visited, the node taken is
   * now visited, the rest of the line is still waiting, and the neighbours of the node taken
   * are covered.
   */
  lemma CoveredAfter(g: Grid, g': Grid, order: map<Pos, nat>, cur: Pos, k: nat,
                     line: seq<Pos>, rest: seq<Pos>, line': seq<Pos>)
    requires SameShape(g, g') && Covered(g, order, line) && In(g, cur) && At(g', cur).isVisited
    requires forall q :: In(g, q) ==> At(g', q).isWall == At(g, q).isWall
    requires forall q :: In(g, q) && At(g, q).isVisited ==> At(g', q).isVisited
    requires forall q :: q in line ==> q == cur || q in rest
    requires forall q :: q in rest ==> q in line'
    requires forall q :: In(g, q) && Manhattan(cur, q) == 1 ==> At(g', q).isVisited || At(g', q).isWall || q in line'
    ensures Covered(g', order[cur := k], line')
  {
    forall x, q | x in order[cur := k] && In(g', q) && Manhattan(x, q) == 1
      ensures At(g', q).isWall || At(g', q).isVisited || q in line'
    {
      if x != cur {
        assert x in order;
        assert At(g, q).isWall || At(g, q).isVisited || q in line;
      }
    }
  }

  /**
   * What a finished `bfs` or `dfs` promises about the grid g it leaves and the list of nodes it
   * visited, in order: the trace (each listed node marked once, every link written back to a
   * neighbour listed earlier at one less distance, nothing else changed); no node twice, each
   * one a node of the grid that was neither a wall nor visited; the start first, at distance
   * 0, and the finish, if listed, last.
   */
  ghost predicate Found(grid: Grid, g: Grid, start: Pos, finish: Pos, result: seq<Pos>, order: map<Pos, nat>)
  {
    Trace(grid, g, start, result, order, Distance) && Distinct(result)
    && (forall i :: 0 <= i < |result| ==> In(grid, result[i]) && !At(grid, result[i]).isWall && !At(grid, result[i]).isVisited)
    && (result != [] ==> result[0] == start)
    && (forall i :: 0 <= i < |result| - 1 ==> result[i] != finish)
    && In(g, start) && At(g, start).distance == Fin(0) && At(g, start).previous == At(grid, start).previous
  }

  /** A search's trace, with the start first and the finish last if listed, is `Found`. */
  lemma Outcome(grid: Grid, g: Grid, start: Pos, finish: Pos, result: seq<Pos>, order: map<Pos, nat>)
    requires Trace(grid, g, start, result, order, Distance) && In(g, start) && At(g, start).distance == Fin(0)
    requires At(g, start).previous == At(grid, start).previous
    requires forall q :: q in order ==> !At(grid, q).isVisited
    requires result != [] ==> result[0] == start
    requires finish in order ==> |result| > 0 && result[|result| - 1] == finish
    ensures Found(grid, g, start, finish, result, order)
  {
    RankedDistinct(result, order);
    forall i | 0 <= i < |result|
      ensures In(grid, result[i]) && !At(grid, result[i]).isWall && !At(grid, result[i]).isVisited
    {
      assert result[i] in order;
      assert Only(At(g, result[i]), At(grid, result[i]), Distance);
    }
  }

  /** The start with distance 0 (hooks/usePathfinding.ts:410, 446), as both searches begin. */
  lemma Begin(grid: Grid, start: Pos, finish: Pos)
    requires Rect(grid) && In(grid, start)
    ensures Searching(grid, Put(grid, start, At(grid, start).(distance := Fin(0))), start, finish, [], map[], [start])
  {
    var g := Put(grid, start, At(grid, start).(distance := Fin(0)));
    TraceStart(grid, g, start, Distance);
  }

  /**
   * `bfs` (hooks/usePathfinding.ts:406-439). The listed nodes are visited in the order listed,
   * each once, none a wall and none visited before; the start comes first, and the finish, if
   * reached, last. The start's distance is 0, and every other node whose distance or link was
   * written is linked to a neighbour listed before it, at one less distance. Unless stopped
   * by the cancel flag or the finish, every node next to a listed node ends visited or is a
   * wall. Nothing else changes.
   */
  method Bfs(grid: Grid, start: Pos, finish: Pos, cancelled: bool)
    returns (g: Grid, result: seq<Pos>, ghost order: map<Pos, nat>)
    requires Rect(grid) && In(grid, start)
    ensures Found(grid, g, start, finish, result, order)
    ensures cancelled ==> result == []
    ensures !cancelled && !At(grid, start).isWall && !At(grid, start).isVisited ==> result != []
    ensures !cancelled && finish !in result ==> Closed(g, order)
  {
    g := Put(grid, start, At(grid, start).(distance := Fin(0)));
    Begin(grid, start, finish);
    var queue := [start];
    result, order := [], map[];
    while |queue| > 0
      invariant Searching(grid, g, start, finish, result, order, queue)
      invariant cancelled ==> result == [] && queue == [start]
      invariant !At(grid, start).isWall && !At(grid, start).isVisited && result == [] ==> queue == [start]
      decreases |Fresh(g)|, |queue|
    {
      if cancelled {
        break;
      }
      var done;
      g, result, order, queue, done := Take(grid, g, start, finish, result, order, queue, 0);
      if done {
        Outcome(grid, g, start, finish, result, order);
        return;
      }
    }
    Outcome(grid, g, start, finish, result, order);
  }


  /**
   * `dfs` (hooks/usePathfinding.ts:442-475): as `bfs`, with the line taken from the back.
   * The same promises hold.
   */
  method Dfs(grid: Grid, start: Pos, finish: Pos, cancelled: bool)
    returns (g: Grid, result: seq<Pos>, ghost order: map<Pos, nat>)
    requires Rect(grid) && In(grid, start)
    ensures Found(grid, g, start, finish, result, order)
    ensures cancelled ==> result == []
    ensures !cancelled && !At(grid, start).isWall && !At(grid, start).isVisited ==> result != []
    ensures !cancelled && finish !in result ==> Closed(g, order)
  {
    g := Put(grid, start, At(grid, start).(distance := Fin(0)));
    Begin(grid, start, finish);
    var stack := [start];
    result, order := [], map[];
    while |stack| > 0
      invariant Searching(grid, g, start, finish, result, order, stack)
      invariant cancelled ==> result == [] && stack == [start]
      invariant !At(grid, start).isWall && !At(grid, start).isVisited && result == [] ==> stack == [start]
      decreases |Fresh(g)|, |stack|
    {
      if cancelled {
        break;
      }
      var done;
      g, result, order, stack, done := Take(grid, g, start, finish, result, order, stack, |stack| - 1);
      if done {
        Outcome(grid, g, start, finish, result, order);
        return;
      }
    }
    Outcome(grid, g, start, finish, result, order);
  }

}
