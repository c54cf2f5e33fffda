/**
 * `astar` of the pathfinding engine (hooks/usePathfinding.ts:506-559). Every node gets
 * `gScore` and `fScore` `Infinity` and the Manhattan distance to the finish as `hScore`; the
 * start gets `gScore` 0. The open set starts as the start alone; each turn it is sorted by
 * `fScore` and its head taken: a wall is skipped, anything else is visited and listed, and
 * each unvisited neighbour whose `gScore` one step through it would improve gets that score,
 * `fScore = gScore + hScore`, a link back to it, and a place in the open set if it has none.
 */
module GridAstar {
  import opened JsSort
  import opened GridCore
  import opened GridVisit

  /** A node after the scoring loop (hooks/usePathfinding.ts:511-517). */
  function Scored(c: Cell, q: Pos, finish: Pos): Cell
  {
    c.(gScore := Inf, fScore := Inf, hScore := Manhattan(q, finish))
  }

  /** The scoring loop over every node, row by row (hooks/usePathfinding.ts:511-517). */
  method InitScores(grid: Grid, finish: Pos) returns (g: Grid)
    requires Rect(grid)
    ensures SameShape(grid, g)
    ensures forall q :: In(grid, q) ==> At(g, q) == Scored(At(grid, q), q, finish)
  {
    g := grid;
    for row := 0 to |grid|
      invariant SameShape(grid, g)
      invariant forall q :: In(grid, q) ==> At(g, q) == if q.row < row then Scored(At(grid, q), q, finish) else At(grid, q)
    {
      for col := 0 to Cols(grid)
        invariant SameShape(grid, g)
        invariant forall q :: In(grid, q) ==>
                    At(g, q) == if q.row < row || (q.row == row && q.col < col) then Scored(At(grid, q), q, finish) else At(grid, q)
      {
        g := Put(g, Pos(row, col), Scored(At(g, Pos(row, col)), Pos(row, col), finish));
      }
    }
  }

  /** The sort key of the open set: a node's `fScore` in g. */
  function FScore(g: Grid): Pos -> Key
  {
    p => if Rect(g) && In(g, p) then At(g, p).fScore else Inf
  }

  /** One step through cur would give n a smaller `gScore`: `tentativeGScore < neighbor.gScore`. */
  predicate Better(g: Grid, cur: Pos, n: Pos)
    requires Rect(g) && In(g, cur) && In(g, n)
  {
    Below(Plus1(At(g, cur).gScore), At(g, n).gScore)
  }

  /** The node at n once reached more cheaply through cur. */
  function Improved(g: Grid, cur: Pos, n: Pos): Cell
    requires Rect(g) && In(g, cur) && In(g, n)
  {
    var t := Plus1(At(g, cur).gScore);
    At(g, n).(previous := Prev(cur), gScore := t, fScore := Plus(t, At(g, n).hScore))
  }

  /** The nodes of ns, in order, that cur improves and that are not yet in the open set. */
  function Joining(g: Grid, cur: Pos, ns: seq<Pos>, open: seq<Pos>): (r: seq<Pos>)
    requires Rect(g) && In(g, cur) && forall i :: 0 <= i < |ns| ==> In(g, ns[i])
    decreases |ns|
  {
    if ns == [] then []
    else
      var n := ns[|ns| - 1];
      Joining(g, cur, ns[..|ns| - 1], open) + if Better(g, cur, n) && n !in open then [n] else []
  }

  /** Those are exactly the improved nodes of ns not in the open set, each once if ns has no repeats. */
  lemma {:induction false} JoiningExact(g: Grid, cur: Pos, ns: seq<Pos>, open: seq<Pos>)
    requires Rect(g) && In(g, cur) && forall i :: 0 <= i < |ns| ==> In(g, ns[i])
    ensures forall q :: q in Joining(g, cur, ns, open) <==> q in ns && Better(g, cur, q) && q !in open
    ensures Distinct(ns) ==> Distinct(Joining(g, cur, ns, open))
    decreases |ns|
  {
    if ns != [] {
      var init := ns[..|ns| - 1];
      JoiningExact(g, cur, init, open);
      assert ns == init + [ns[|ns| - 1]];
      assert forall q :: q in ns <==> q in init || q == ns[|ns| - 1];
    }
  }

  /** g' is g after the neighbour loop of cur (hooks/usePathfinding.ts:537-552). */
  ghost predicate Improvement(g: Grid, g': Grid, cur: Pos)
    requires Rect(g) && In(g, cur)
  {
    SameShape(g, g')
    && forall q :: In(g, q) ==>
         At(g', q) == if q in Neighbours(g, cur) && Better(g, cur, q) then Improved(g, cur, q) else At(g, q)
  }

  /**
   * The neighbour loop of `astar` (hooks/usePathfinding.ts:537-552): each unvisited neighbour
   * that one step through cur would improve takes the better `gScore`, the `fScore` that goes
   * with it and a link back to cur, and joins the end of the open set unless it is in it;
   * nothing else changes.
   */
  method Improve(g: Grid, cur: Pos, open: seq<Pos>) returns (g': Grid, open': seq<Pos>)
    requires Rect(g) && In(g, cur)
    ensures Improvement(g, g', cur)
    ensures open' == open + Joining(g, cur, Neighbours(g, cur), open)
  {
    var neighbours := Neighbours(g, cur);
    NeighboursExact(g, cur);
    g', open' := g, open;
    for i := 0 to |neighbours|
      invariant SameShape(g, g')
      invariant forall q :: In(g, q) ==>
                  At(g', q) == if q in neighbours[..i] && Better(g, cur, q) then Improved(g, cur, q) else At(g, q)
      invariant open' == open + Joining(g, cur, neighbours[..i], open)
    {
      var n := neighbours[i];
      assert n !in neighbours[..i] && n != cur;
      assert At(g', n) == At(g, n) && At(g', cur) == At(g, cur) && !At(g, n).isVisited;
      JoinStep(g, cur, neighbours, i, open, open');
      if !At(g', n).isVisited {
        var tentative := Plus1(At(g', cur).gScore);
        if Below(tentative, At(g', n).gScore) {
          g' := Put(g', n, At(g', n).(previous := Prev(cur), gScore := tentative, fScore := Plus(tentative, At(g', n).hScore)));
          if n !in open' {
            open' := open' + [n];
          }
        }
      }
    }
    assert neighbours[..|neighbours|] == neighbours;
  }

  /** One more neighbour considered: the open set grows by it exactly when `Joining` does. */
  lemma JoinStep(g: Grid, cur: Pos, ns: seq<Pos>, i: nat, open: seq<Pos>, open': seq<Pos>)
    requires Rect(g) && In(g, cur) && i < |ns| && (forall k :: 0 <= k < |ns| ==> In(g, ns[k])) && Distinct(ns)
    requires open' == open + Joining(g, cur, ns[..i], open)
    ensures ns[i] in open' <==> ns[i] in open
    ensures forall q :: q in ns[..i + 1] <==> q in ns[..i] || q == ns[i]
    ensures open + Joining(g, cur, ns[..i + 1], open)
         == if Better(g, cur, ns[i]) && ns[i] !in open' then open' + [ns[i]] else open'
  {
    assert ns[i] !in ns[..i];
    JoiningExact(g, cur, ns[..i], open);
    assert ns[..i + 1] == ns[..i] + [ns[i]];
    JoinSnoc(g, cur, ns[..i + 1], open);
  }

  /** `Joining` of a longer list: the open set grows by its last node exactly when that one joins. */
  lemma JoinSnoc(g: Grid, cur: Pos, ns: seq<Pos>, open: seq<Pos>)
    requires Rect(g) && In(g, cur) && |ns| > 0 && forall k :: 0 <= k < |ns| ==> In(g, ns[k])
    ensures var n, joined := ns[|ns| - 1], Joining(g, cur, ns[..|ns| - 1], open);
            open + Joining(g, cur, ns, open) == if Better(g, cur, n) && n !in open then (open + joined) + [n] else open + joined
  {
    var n, joined := ns[|ns| - 1], Joining(g, cur, ns[..|ns| - 1], open);
    if Better(g, cur, n) && n !in open {
      assert open + (joined + [n]) == (open + joined) + [n];
    } else {
      assert joined + [] == joined;
    }
  }

  /**
   * The A* scores are consistent: `hScore` is the Manhattan distance to the finish, and a node
   * has either no scores yet or `fScore = gScore + hScore`.
   */
  ghost predicate Scores(g: Grid, finish: Pos)
    requires Rect(g)
  {
    forall q :: In(g, q) ==>
      At(g, q).hScore == Manhattan(q, finish)
      && ((At(g, q).gScore == Inf && At(g, q).fScore == Inf)
          || (At(g, q).gScore.Fin? && At(g, q).fScore == Fin(At(g, q).gScore.n + At(g, q).hScore)))
  }

  /**
   * The open set: nodes of the grid, each once, with a finite `gScore`, none listed, and
   * after the first turn none visited.
   */
  ghost predicate Open(g: Grid, order: map<Pos, nat>, open: seq<Pos>, first: bool)
    requires Rect(g)
  {
    (forall i :: 0 <= i < |open| ==> In(g, open[i]) && At(g, open[i]).gScore.Fin? && open[i] !in order)
    && (forall i :: 0 <= i < |open| ==> first || !At(g, open[i]).isVisited)
    && (forall q :: multiset(open)[q] <= 1)
  }

  /**
   * Every node with a finite `gScore` is in the open set, listed, or a wall taken out of it;
   * every node next to a listed node is visited or has a finite `gScore`.
   */
  ghost predicate Tracked(g: Grid, order: map<Pos, nat>, open: seq<Pos>)
    requires Rect(g)
  {
    (forall q :: In(g, q) && At(g, q).gScore.Fin? ==> q in open || q in order || At(g, q).isWall)
    && (forall x, q :: x in order && In(g, q) && Manhattan(x, q) == 1 ==> At(g, q).isVisited || At(g, q).gScore.Fin?)
  }

  /** The invariant of the loop of `astar`, init being the grid once scored. */
  ghost predicate Hunting(init: Grid, g: Grid, start: Pos, finish: Pos, result: seq<Pos>,
                          order: map<Pos, nat>, open: seq<Pos>, first: bool)
  {
    Trace(init, g, start, result, order, GScore) && finish !in order && Scores(g, finish)
    && Open(g, order, open, first) && Tracked(g, order, open)
    && (first ==> result == [] && open == [start])
    && (!first && result == [] ==> open == [])
    && (result != [] ==> result[0] == start)
  }

  /** The scored grid with the start at `gScore` 0 and nothing listed. */
  lemma Begin(grid: Grid, scored: Grid, start: Pos, finish: Pos)
    requires Rect(grid) && In(grid, start) && SameShape(grid, scored)
    requires forall q :: In(grid, q) ==> At(scored, q) == Scored(At(grid, q), q, finish)
    ensures var init := Put(scored, start, At(scored, start).(gScore := Fin(0), fScore := Fin(At(scored, start).hScore)));
            Hunting(init, init, start, finish, [], map[], [start], true) && Initial(grid, init, start, finish)
  {
    var init := Put(scored, start, At(scored, start).(gScore := Fin(0), fScore := Fin(At(scored, start).hScore)));
    assert multiset([start]) == multiset{start};
    forall q | In(init, q) && At(init, q).gScore.Fin?
      ensures q == start
    {
    }
  }

  /** Sorting the open set by `fScore` keeps the invariant: it holds the same nodes. */
  lemma SortKeeps(init: Grid, g: Grid, start: Pos, finish: Pos, result: seq<Pos>,
                  order: map<Pos, nat>, open: seq<Pos>, first: bool)
    requires Hunting(init, g, start, finish, result, order, open, first)
    ensures Hunting(init, g, start, finish, result, order, SortBy(open, FScore(g)), first)
  {
    var s := SortBy(open, FScore(g));
    forall q
      ensures q in s <==> q in open
    {
      SortByMembers(open, FScore(g), q);
    }
    forall i | 0 <= i < |s|
      ensures In(g, s[i]) && At(g, s[i]).gScore.Fin? && s[i] !in order && (first || !At(g, s[i]).isVisited)
    {
      assert s[i] in open;
    }
    if first {
      assert multiset(s) == multiset{start};
      assert s == [start];
    }
  }

  /** Taking the head off the open set leaves a set without it. */
  lemma Pop(g: Grid, order: map<Pos, nat>, s: seq<Pos>, first: bool)
    requires Rect(g) && Open(g, order, s, first) && s != []
    ensures s[0] !in s[1..]
    ensures forall q :: multiset(s[1..])[q] <= 1
    ensures forall q :: q in s ==> q == s[0] || q in s[1..]
  {
    assert s == [s[0]] + s[1..];
    assert multiset(s) == multiset{s[0]} + multiset(s[1..]);
    assert multiset(s)[s[0]] <= 1;
    forall q
      ensures multiset(s[1..])[q] <= 1
    {
      assert multiset(s)[q] <= 1;
    }
  }

  /** A wall taken off the open set is skipped. */
  lemma SkipKeeps(init: Grid, g: Grid, start: Pos, finish: Pos, result: seq<Pos>,
                  order: map<Pos, nat>, s: seq<Pos>, first: bool)
    requires Hunting(init, g, start, finish, result, order, s, first) && s != [] && At(g, s[0]).isWall
    ensures Hunting(init, g, start, finish, result, order, s[1..], false)
  {
    Pop(g, order, s, first);
  }

  /** Marking and listing the head c of the open set keeps everything but c's neighbours. */
  lemma ListKeeps(init: Grid, g: Grid, start: Pos, finish: Pos, result: seq<Pos>,
                  order: map<Pos, nat>, s: seq<Pos>, first: bool)
    requires Hunting(init, g, start, finish, result, order, s, first) && s != [] && !At(g, s[0]).isWall
    ensures var c, gm, order' := s[0], Mark(g, s[0]), order[s[0] := |result|];
            Trace(init, gm, start, result + [c], order', GScore) && Scores(gm, finish)
            && Open(gm, order', s[1..], false) && At(gm, c).gScore.Fin? && At(gm, c).isVisited
            && (forall q :: In(gm, q) && At(gm, q).gScore.Fin? ==> q in s[1..] || q in order' || At(gm, q).isWall)
            && (forall x, q :: x in order && In(gm, q) && Manhattan(x, q) == 1 ==> At(gm, q).isVisited || At(gm, q).gScore.Fin?)
            && (result + [c])[0] == start
            && (first || |Fresh(gm)| < |Fresh(g)|)
  {
    var c := s[0];
    MarkKeeps(init, g, start, result, order, GScore, c);
    MarkCells(g, c);
    if !first {
      MarkShrinks(g, c);
    }
    ListOpen(g, order, s, first, |result|);
    ListTracked(g, order, s, |result|);
    MarkScores(g, c, finish);
  }

  /** Marking a node changes no score. */
  lemma MarkScores(g: Grid, c: Pos, finish: Pos)
    requires Rect(g) && In(g, c) && Scores(g, finish)
    ensures Scores(Mark(g, c), finish)
  {
    forall q | In(g, q)
      ensures At(Mark(g, c), q).hScore == At(g, q).hScore
      ensures At(Mark(g, c), q).gScore == At(g, q).gScore && At(Mark(g, c), q).fScore == At(g, q).fScore
    {
    }
  }

  /** The rest of the open set is still open once its head is marked and listed. */
  lemma ListOpen(g: Grid, order: map<Pos, nat>, s: seq<Pos>, first: bool, k: nat)
    requires Rect(g) && Open(g, order, s, first) && s != [] && (first ==> s == [s[0]])
    ensures Open(Mark(g, s[0]), order[s[0] := k], s[1..], false)
  {
    var c, gm := s[0], Mark(g, s[0]);
    Pop(g, order, s, first);
    MarkCells(g, c);
    forall i | 0 <= i < |s| - 1
      ensures In(gm, s[1..][i]) && At(gm, s[1..][i]).gScore.Fin? && s[1..][i] !in order[c := k] && !At(gm, s[1..][i]).isVisited
    {
      assert s[1..][i] == s[i + 1] && s[i + 1] != c;
    }
  }

  /** Marking the head c and listing it keeps the bookkeeping of `Tracked`, c's neighbours aside. */
  lemma ListTracked(g: Grid, order: map<Pos, nat>, s: seq<Pos>, k: nat)
    requires Rect(g) && Tracked(g, order, s) && s != [] && In(g, s[0])
    ensures var gm := Mark(g, s[0]);
            (forall q :: In(gm, q) && At(gm, q).gScore.Fin? ==> q in s[1..] || q in order[s[0] := k] || At(gm, q).isWall)
            && (forall x, q :: x in order && In(gm, q) && Manhattan(x, q) == 1 ==> At(gm, q).isVisited || At(gm, q).gScore.Fin?)
  {
    var c, gm := s[0], Mark(g, s[0]);
    MarkCells(g, c);
    assert forall q :: q in s ==> q == c || q in s[1..];
    forall q | In(gm, q) && At(gm, q).gScore.Fin?
      ensures q in s[1..] || q in order[c := k] || At(gm, q).isWall
    {
      assert q in s || q in order || At(g, q).isWall;
    }
    forall x, q | x in order && In(gm, q) && Manhattan(x, q) == 1
      ensures At(gm, q).isVisited || At(gm, q).gScore.Fin?
    {
      assert At(g, q).isVisited || At(g, q).gScore.Fin?;
    }
  }

  /**
   * The improvement keeps the trace: the neighbours it writes are unvisited, so none is
   * listed, and each is linked to cur, which is listed. Listed nodes do not change.
   */
  lemma ImproveKeeps(init: Grid, g: Grid, g': Grid, start: Pos, result: seq<Pos>, order: map<Pos, nat>, cur: Pos)
    requires Trace(init, g, start, result, order, GScore) && cur in order && Improvement(g, g', cur)
    ensures Trace(init, g', start, result, order, GScore)
  {
    NeighboursExact(g, cur);
    assert At(g', cur) == At(g, cur);
    forall q | In(g, q) && q in Neighbours(g, cur)
      ensures q !in order
    {
      assert At(g, q).isVisited == (At(init, q).isVisited || q in order);
    }
    ImproveShaped(init, g, g', start, result, order, cur);
    forall q | In(g', q) && q != start && Changed(init, g', q, GScore)
      ensures LinkedBy(g', order, q, GScore)
    {
      if q in Neighbours(g, cur) && Better(g, cur, q) {
        assert Score(At(g, cur), GScore).Fin?;
      } else {
        assert Changed(init, g, q, GScore);
        var p := At(g, q).previous.p;
        assert LinkedBy(g, order, q, GScore);
        assert At(g', p) == At(g, p);
      }
    }
  }

  /** The improvement writes only links and scores, and leaves every visit flag alone. */
  lemma ImproveShaped(init: Grid, g: Grid, g': Grid, start: Pos, result: seq<Pos>, order: map<Pos, nat>, cur: Pos)
    requires Trace(init, g, start, result, order, GScore) && cur in order && Improvement(g, g', cur)
    requires forall q :: In(g, q) && q in Neighbours(g, cur) ==> q !in order
    ensures Shaped(init, g', GScore) && Flagged(init, g', order) && Settled(g', order, GScore)
  {
    forall q | In(g', q)
      ensures Only(At(g', q), At(init, q), GScore)
      ensures At(g', q).isVisited == (At(init, q).isVisited || q in order)
    {
      assert Only(At(g, q), At(init, q), GScore);
      assert At(g, q).isVisited == (At(init, q).isVisited || q in order);
    }
  }

  /** The improvement keeps the scores consistent and the open set and its bookkeeping whole. */
  lemma ImproveOpen(gm: Grid, g': Grid, cur: Pos, finish: Pos, order: map<Pos, nat>, rest: seq<Pos>)
    requires Rect(gm) && In(gm, cur) && Improvement(gm, g', cur) && cur in order
    requires At(gm, cur).gScore.Fin? && Scores(gm, finish) && Open(gm, order, rest, false)
    requires forall q :: In(gm, q) && q in Neighbours(gm, cur) ==> q !in order
    requires forall q :: In(gm, q) && At(gm, q).gScore.Fin? ==> q in rest || q in order || At(gm, q).isWall
    requires forall x, q :: x in order && x != cur && In(gm, q) && Manhattan(x, q) == 1 ==> At(gm, q).isVisited || At(gm, q).gScore.Fin?
    ensures var open' := rest + Joining(gm, cur, Neighbours(gm, cur), rest);
            Scores(g', finish) && Open(g', order, open', false) && Tracked(g', order, open')
            && Fresh(g') == Fresh(gm)
  {
    NeighboursExact(gm, cur);
    JoiningExact(gm, cur, Neighbours(gm, cur), rest);
    ImproveScores(gm, g', cur, finish);
    ImproveOpenSet(gm, g', cur, order, rest);
    ImproveTracked(gm, g', cur, order, rest);
    FreshSame(gm, g');
  }

  /** An improved node gets `fScore = gScore + hScore` with its `hScore` unchanged. */
  lemma ImproveScores(gm: Grid, g': Grid, cur: Pos, finish: Pos)
    requires Rect(gm) && In(gm, cur) && Improvement(gm, g', cur)
    requires At(gm, cur).gScore.Fin? && Scores(gm, finish)
    ensures Scores(g', finish)
  {
    forall q | In(g', q)
      ensures At(g', q).hScore == Manhattan(q, finish)
      ensures (At(g', q).gScore == Inf && At(g', q).fScore == Inf)
              || (At(g', q).gScore.Fin? && At(g', q).fScore == Fin(At(g', q).gScore.n + At(g', q).hScore))
    {
    }
  }

  /** The open set with the joining nodes appended is open: each once, finite, unlisted, unvisited. */
  lemma ImproveOpenSet(gm: Grid, g': Grid, cur: Pos, order: map<Pos, nat>, rest: seq<Pos>)
    requires Rect(gm) && In(gm, cur) && Improvement(gm, g', cur)
    requires At(gm, cur).gScore.Fin? && Open(gm, order, rest, false)
    requires forall q :: In(gm, q) && q in Neighbours(gm, cur) ==> q !in order
    requires Distinct(Neighbours(gm, cur))
    requires forall q :: q in Joining(gm, cur, Neighbours(gm, cur), rest) <==>
               q in Neighbours(gm, cur) && Better(gm, cur, q) && q !in rest
    requires Distinct(Neighbours(gm, cur)) ==> Distinct(Joining(gm, cur, Neighbours(gm, cur), rest))
    ensures Open(g', order, rest + Joining(gm, cur, Neighbours(gm, cur), rest), false)
  {
    var ns := Neighbours(gm, cur);
    var joining := Joining(gm, cur, ns, rest);
    var open' := rest + joining;
    DistinctOnce(joining);
    forall q
      ensures multiset(open')[q] <= 1
    {
      assert multiset(open') == multiset(rest) + multiset(joining);
      if q in joining {
        assert q !in rest;
      }
    }
    forall i | 0 <= i < |open'|
      ensures In(g', open'[i]) && At(g', open'[i]).gScore.Fin? && open'[i] !in order && !At(g', open'[i]).isVisited
    {
      if i >= |rest| {
        assert open'[i] in joining;
      }
    }
  }

  /** The bookkeeping of `Tracked` holds again once cur's neighbours are improved. */
  lemma ImproveTracked(gm: Grid, g': Grid, cur: Pos, order: map<Pos, nat>, rest: seq<Pos>)
    requires Rect(gm) && In(gm, cur) && Improvement(gm, g', cur) && cur in order && At(gm, cur).gScore.Fin?
    requires forall q :: q in Neighbours(gm, cur) <==> In(gm, q) && Manhattan(cur, q) == 1 && !At(gm, q).isVisited
    requires forall q :: q in Joining(gm, cur, Neighbours(gm, cur), rest) <==>
               q in Neighbours(gm, cur) && Better(gm, cur, q) && q !in rest
    requires forall q :: In(gm, q) && At(gm, q).gScore.Fin? ==> q in rest || q in order || At(gm, q).isWall
    requires forall x, q :: x in order && x != cur && In(gm, q) && Manhattan(x, q) == 1 ==> At(gm, q).isVisited || At(gm, q).gScore.Fin?
    ensures Tracked(g', order, rest + Joining(gm, cur, Neighbours(gm, cur), rest))
  {
    var ns := Neighbours(gm, cur);
    var joining := Joining(gm, cur, ns, rest);
    var open' := rest + joining;
    forall q | In(g', q) && At(g', q).gScore.Fin?
      ensures q in open' || q in order || At(g', q).isWall
    {
      if q in ns && Better(gm, cur, q) && q !in rest {
        assert q in joining;
      }
    }
    forall x, q | x in order && In(g', q) && Manhattan(x, q) == 1
      ensures At(g', q).isVisited || At(g', q).gScore.Fin?
    {
      if x != cur {
        assert At(gm, q).isVisited || At(gm, q).gScore.Fin?;
      } else if !At(gm, q).isVisited {
        assert q in ns;
      }
    }
  }

  /** Two grids of one shape with the same visit flags have the same unvisited nodes. */
  lemma FreshSame(g: Grid, g': Grid)
    requires SameShape(g, g') && forall q :: In(g, q) ==> At(g', q).isVisited == At(g, q).isVisited
    ensures Fresh(g') == Fresh(g)
  {
    forall q | q in Fresh(g')
      ensures q in Fresh(g)
    {
      assert In(g, q);
    }
    forall q | q in Fresh(g)
      ensures q in Fresh(g')
    {
      assert In(g, q);
    }
  }

  /** The head c, listed and not the finish, improves its neighbours: the invariant holds again. */
  lemma SettleKeeps(init: Grid, g: Grid, g': Grid, start: Pos, finish: Pos, result: seq<Pos>,
                    order: map<Pos, nat>, s: seq<Pos>, first: bool)
    requires Hunting(init, g, start, finish, result, order, s, first) && s != [] && !At(g, s[0]).isWall
    requires s[0] != finish && Improvement(Mark(g, s[0]), g', s[0])
    ensures var gm := Mark(g, s[0]);
            Hunting(init, g', start, finish, result + [s[0]], order[s[0] := |result|],
                    s[1..] + Joining(gm, s[0], Neighbours(gm, s[0]), s[1..]), false)
    ensures first || |Fresh(g')| < |Fresh(g)|
  {
    var c := s[0];
    var gm, result', order' := Mark(g, c), result + [c], order[c := |result|];
    ListKeeps(init, g, start, finish, result, order, s, first);
    ImproveKeeps(init, gm, g', start, result', order', c);
    NeighboursExact(gm, c);
    forall q | In(gm, q) && q in Neighbours(gm, c)
      ensures q !in order'
    {
      assert At(gm, q).isVisited == (At(init, q).isVisited || q in order');
    }
    ImproveOpen(gm, g', c, finish, order', s[1..]);
  }

  /**
   * init is the grid once scored: every node at `gScore` and `fScore` `Infinity` and `hScore`
   * its Manhattan distance to the finish, the start at `gScore` 0 and `fScore` its `hScore`.
   */
  ghost predicate Initial(grid: Grid, init: Grid, start: Pos, finish: Pos)
    requires Rect(grid) && In(grid, start)
  {
    SameShape(grid, init)
    && (forall q :: In(grid, q) && q != start ==> At(init, q) == Scored(At(grid, q), q, finish))
    && At(init, start) == Scored(At(grid, start), start, finish).(gScore := Fin(0), fScore := Fin(Manhattan(start, finish)))
  }

  /**
   * What a finished `astar` promises about the grid g it leaves and the list of nodes it
   * visited: against init the trace holds (every node other than the start whose link or
   * `gScore` was written is linked to a neighbour listed before it, with a `gScore` one less;
   * nothing but visit flags, links and scores changed); the scores stay consistent; no node
   * is listed twice, none is a wall, the start comes first and the finish, if listed, last.
   */
  ghost predicate Explored(grid: Grid, init: Grid, g: Grid, start: Pos, finish: Pos, result: seq<Pos>, order: map<Pos, nat>)
    requires Rect(grid) && In(grid, start)
  {
    Trace(init, g, start, result, order, GScore) && Scores(g, finish) && Distinct(result)
    && (forall i :: 0 <= i < |result| ==> In(grid, result[i]) && !At(grid, result[i]).isWall)
    && (result != [] ==> result[0] == start)
    && (forall i :: 0 <= i < |result| - 1 ==> result[i] != finish)
  }

  /** A search's trace, with the start first and the finish last if listed, is `Explored`. */
  lemma Finish(grid: Grid, init: Grid, g: Grid, start: Pos, finish: Pos, result: seq<Pos>, order: map<Pos, nat>)
    requires Rect(grid) && In(grid, start) && Initial(grid, init, start, finish)
    requires Trace(init, g, start, result, order, GScore) && Scores(g, finish)
    requires result != [] ==> result[0] == start
    requires finish in order ==> |result| > 0 && result[|result| - 1] == finish
    ensures Explored(grid, init, g, start, finish, result, order)
  {
    RankedDistinct(result, order);
    forall i | 0 <= i < |result|
      ensures In(grid, result[i]) && !At(grid, result[i]).isWall
    {
      assert result[i] in order;
      assert Only(At(g, result[i]), At(init, result[i]), GScore);
    }
  }

  /** With the open set empty, every node next to a listed node is a wall or visited. */
  lemma EmptyClosed(init: Grid, g: Grid, start: Pos, finish: Pos, result: seq<Pos>, order: map<Pos, nat>, first: bool)
    requires Hunting(init, g, start, finish, result, order, [], first)
    ensures Closed(g, order)
  {
    forall x, q | x in order && In(g, q) && Manhattan(x, q) == 1
      ensures At(g, q).isWall || At(g, q).isVisited
    {
      assert At(g, q).isVisited == (At(init, q).isVisited || q in order);
    }
  }

  /**
   * `astar` (hooks/usePathfinding.ts:506-559): scores the grid (init), then repeatedly takes
   * the open node of least `fScore`, skips it if a wall, stops at the finish, and otherwise
   * lists it and improves its neighbours. The outcome is `Explored` against init; unless
   * stopped by the cancel flag or the finish, every node next to a listed node ends a wall
   * or visited.
   */
  method Astar(grid: Grid, start: Pos, finish: Pos, cancelled: bool)
    returns (g: Grid, result: seq<Pos>, ghost order: map<Pos, nat>, ghost init: Grid)
    requires Rect(grid) && In(grid, start)
    ensures Initial(grid, init, start, finish)
    ensures Explored(grid, init, g, start, finish, result, order)
    ensures cancelled ==> result == []
    ensures !cancelled && !At(grid, start).isWall ==> result != []
    ensures !cancelled && finish !in result ==> Closed(g, order)
  {
    var scored := InitScores(grid, finish);
    g := Put(scored, start, At(scored, start).(gScore := Fin(0), fScore := Fin(At(scored, start).hScore)));
    init := g;
    Begin(grid, scored, start, finish);
    var openSet := [start];
    result, order := [], map[];
    ghost var first := true;
    while |openSet| > 0
      invariant Hunting(init, g, start, finish, result, order, openSet, first)
      invariant cancelled ==> first
      invariant first ==> At(g, start).isWall == At(grid, start).isWall
      invariant !first && result == [] ==> At(grid, start).isWall
      decreases if first then 1 else 0, |Fresh(g)|, |openSet|
    {
      if cancelled {
        break;
      }
      SortKeeps(init, g, start, finish, result, order, openSet, first);
      openSet := SortBy(openSet, FScore(g));
      var current := openSet[0];
      if At(g, current).isWall {
        SkipKeeps(init, g, start, finish, result, order, openSet, first);
        openSet, first := openSet[1..], false;
        continue;
      }
      if current == finish {
        ListKeeps(init, g, start, finish, result, order, openSet, first);
        g, result, order := Mark(g, current), result + [current], order[current := |result|];
        Finish(grid, init, g, start, finish, result, order);
        return;
      }
      var g', open' := Improve(Mark(g, current), current, openSet[1..]);
      SettleKeeps(init, g, g', start, finish, result, order, openSet, first);
      g, result, order, openSet, first := g', result + [current], order[current := |result|], open', false;
    }
    if !cancelled {
      EmptyClosed(init, g, start, finish, result, order, first);
    }
    Finish(grid, init, g, start, finish, result, order);
  }
}
