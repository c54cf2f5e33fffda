/**
 * What the four grid searches of hooks/usePathfinding.ts:406-559 have in common. Each marks
 * nodes visited one at a time, listing them in `visitedNodesInOrder`, and links each unvisited
 * neighbour of the node it has just visited back to it, one more than that node's distance
 * (or `gScore`, for A*). The trace below is the state every search keeps between two turns
 * of its loop, and the lemmas show that marking a node and linking a neighbour keep it.
 */
module GridVisit {
  import opened JsSort
  import opened GridCore

  /** The score a search counts steps in: `distance`, or A*'s `gScore`. */
  datatype Measure = Distance | GScore

  function Score(c: Cell, m: Measure): Key
  {
    match m
    case Distance => c.distance
    case GScore => c.gScore
  }

  /** `x + 1` on a number that may be `Infinity`. */
  function Plus1(k: Key): Key
  {
    match k
    case Inf => Inf
    case Fin(n) => Fin(n + 1)
  }

  /**
   * The fields a search may write: the visit flag, the link and the score it counts in (with
   * A*'s other two scores); every other field of a stays as in b.
   */
  predicate Only(a: Cell, b: Cell, m: Measure)
  {
    match m
    case Distance => a == b.(isVisited := a.isVisited, distance := a.distance, previous := a.previous)
    case GScore => a == b.(isVisited := a.isVisited, previous := a.previous, gScore := a.gScore,
                           fScore := a.fScore, hScore := a.hScore)
  }

  /** The search has written the link or the score of the node at q. */
  predicate Changed(g0: Grid, g: Grid, q: Pos, m: Measure)
    requires SameShape(g0, g) && In(g, q)
  {
    At(g, q).previous != At(g0, q).previous || Score(At(g, q), m) != Score(At(g0, q), m)
  }

  /** s has no repeats. */
  predicate Distinct(s: seq<Pos>)
  {
    forall i, j :: 0 <= i < j < |s| ==> s[i] != s[j]
  }

  /** order gives each listed node its index in result, and nothing else. */
  predicate Ranked(result: seq<Pos>, order: map<Pos, nat>)
  {
    (forall i :: 0 <= i < |result| ==> result[i] in order && order[result[i]] == i)
    && (forall q :: q in order ==> order[q] < |result| && result[order[q]] == q)
  }

  /**
   * The node at q was reached from its `previousNode`: a node one step away, visited earlier
   * in this search (before q, if q is visited too), whose score is finite and one less than
   * q's.
   */
  ghost predicate LinkedBy(g: Grid, order: map<Pos, nat>, q: Pos, m: Measure)
    requires Rect(g) && In(g, q)
  {
    var c := At(g, q);
    c.previous.Prev? && In(g, c.previous.p) && c.previous.p in order
    && (q in order ==> order[c.previous.p] < order[q])
    && Manhattan(c.previous.p, q) == 1
    && Score(At(g, c.previous.p), m).Fin?
    && Score(c, m) == Fin(Score(At(g, c.previous.p), m).n + 1)
  }

  /** Only the search's own fields have changed. */
  ghost predicate Shaped(g0: Grid, g: Grid, m: Measure)
  {
    SameShape(g0, g) && forall q :: In(g, q) ==> Only(At(g, q), At(g0, q), m)
  }

  /** A node is visited exactly when it was before or is listed. */
  ghost predicate Flagged(g0: Grid, g: Grid, order: map<Pos, nat>)
    requires SameShape(g0, g)
  {
    forall q :: In(g, q) ==> At(g, q).isVisited == (At(g0, q).isVisited || q in order)
  }

  /** The listed nodes are inside the grid, no wall among them, each with a finite score. */
  ghost predicate Settled(g: Grid, order: map<Pos, nat>, m: Measure)
    requires Rect(g)
  {
    forall q :: q in order ==> In(g, q) && !At(g, q).isWall && Score(At(g, q), m).Fin?
  }

  /** Every node other than the start whose link or score the search wrote is linked back. */
  ghost predicate Linked(g0: Grid, g: Grid, start: Pos, order: map<Pos, nat>, m: Measure)
    requires SameShape(g0, g)
  {
    forall q :: In(g, q) && q != start && Changed(g0, g, q, m) ==> LinkedBy(g, order, q, m)
  }

  /**
   * The state of a search that started on g0 from start, with the nodes of result visited in
   * that order.
   */
  ghost predicate Trace(g0: Grid, g: Grid, start: Pos, result: seq<Pos>, order: map<Pos, nat>, m: Measure)
  {
    Shaped(g0, g, m) && Flagged(g0, g, order) && Ranked(result, order) && Settled(g, order, m)
    && Linked(g0, g, start, order, m)
  }

  /** A sequence without repeats holds each element once. */
  lemma {:induction false} DistinctOnce(s: seq<Pos>)
    requires Distinct(s)
    ensures forall q :: multiset(s)[q] <= 1
  {
    if s != [] {
      DistinctOnce(s[1..]);
      assert s == [s[0]] + s[1..];
      assert s[0] !in s[1..];
    }
  }

  /** A ranked list has no repeats. */
  lemma RankedDistinct(result: seq<Pos>, order: map<Pos, nat>)
    requires Ranked(result, order)
    ensures Distinct(result)
  {
    forall i, j | 0 <= i < j < |result|
      ensures result[i] != result[j]
    {
      assert order[result[i]] == i && order[result[j]] == j;
    }
  }

  /** Listing one more node, not listed before, keeps the ranking. */
  lemma RankedSnoc(result: seq<Pos>, order: map<Pos, nat>, cur: Pos)
    requires Ranked(result, order) && cur !in order
    ensures Ranked(result + [cur], order[cur := |result|])
  {
    var result', order' := result + [cur], order[cur := |result|];
    forall i | 0 <= i < |result'|
      ensures result'[i] in order' && order'[result'[i]] == i
    {
      if i < |result| {
        assert result[i] in order && result[i] != cur;
      }
    }
  }

  /** Nothing visited yet: the trace of a search before its loop. */
  lemma TraceStart(g0: Grid, g: Grid, start: Pos, m: Measure)
    requires SameShape(g0, g) && In(g, start)
    requires forall q :: In(g, q) && q != start ==> At(g, q) == At(g0, q)
    requires Only(At(g, start), At(g0, start), m) && At(g, start).isVisited == At(g0, start).isVisited
    ensures Trace(g0, g, start, [], map[], m)
  {
    forall q | In(g, q) && q != start && Changed(g0, g, q, m)
      ensures false
    {
    }
  }

  /** The grid with the node at q marked visited. */
  function Mark(g: Grid, q: Pos): (r: Grid)
    requires Rect(g) && In(g, q)
    ensures SameShape(g, r)
  {
    Put(g, q, At(g, q).(isVisited := true))
  }

  /** Marking a node changes no node's link or score. */
  lemma MarkCells(g: Grid, cur: Pos)
    requires Rect(g) && In(g, cur)
    ensures forall q :: In(g, q) ==> At(Mark(g, cur), q).previous == At(g, q).previous
    ensures forall q, m :: In(g, q) ==> Score(At(Mark(g, cur), q), m) == Score(At(g, q), m)
    ensures forall q :: In(g, q) && q != cur ==> At(Mark(g, cur), q) == At(g, q)
  {
  }

  /** A link into an earlier listed node survives marking and listing one more node. */
  lemma MarkLinkedBy(g: Grid, order: map<Pos, nat>, m: Measure, cur: Pos, k: nat, q: Pos)
    requires Rect(g) && In(g, cur) && In(g, q) && cur !in order && LinkedBy(g, order, q, m)
    requires forall x :: x in order ==> order[x] < k
    ensures LinkedBy(Mark(g, cur), order[cur := k], q, m)
  {
    MarkCells(g, cur);
    var p := At(g, q).previous.p;
    assert p != cur && At(Mark(g, cur), p) == At(g, p);
  }

  /**
   * Marking a node that is not yet listed, not a wall and has a finite score, and listing it
   * next, keeps the trace, and every link there was.
   */
  lemma MarkKeeps(g0: Grid, g: Grid, start: Pos, result: seq<Pos>, order: map<Pos, nat>, m: Measure, cur: Pos)
    requires Trace(g0, g, start, result, order, m) && In(g, cur) && cur !in order
    requires !At(g, cur).isWall && Score(At(g, cur), m).Fin?
    ensures Trace(g0, Mark(g, cur), start, result + [cur], order[cur := |result|], m)
    ensures forall q :: In(g, q) && LinkedBy(g, order, q, m) ==> LinkedBy(Mark(g, cur), order[cur := |result|], q, m)
  {
    var g', order' := Mark(g, cur), order[cur := |result|];
    RankedSnoc(result, order, cur);
    MarkCells(g, cur);
    assert Shaped(g0, g', m) by {
      forall q | In(g', q)
        ensures Only(At(g', q), At(g0, q), m)
      {
        assert Only(At(g, q), At(g0, q), m);
      }
    }
    assert Flagged(g0, g', order') by {
      forall q | In(g', q)
        ensures At(g', q).isVisited == (At(g0, q).isVisited || q in order')
      {
        assert At(g, q).isVisited == (At(g0, q).isVisited || q in order);
      }
    }
    assert Settled(g', order', m) by {
      forall q | q in order'
        ensures In(g', q) && !At(g', q).isWall && Score(At(g', q), m).Fin?
      {
        if q != cur {
          assert q in order;
        }
      }
    }
    forall q | In(g, q) && LinkedBy(g, order, q, m)
      ensures LinkedBy(g', order', q, m)
    {
      MarkLinkedBy(g, order, m, cur, |result|, q);
    }
    assert Linked(g0, g', start, order', m) by {
      forall q | In(g', q) && q != start && Changed(g0, g', q, m)
        ensures LinkedBy(g', order', q, m)
      {
        assert Changed(g0, g, q, m);
      }
    }
  }

  /** The neighbour n with its link set to cur and its score to one more than cur's. */
  function Attach(g: Grid, cur: Pos, n: Pos, m: Measure): (r: Grid)
    requires Rect(g) && In(g, cur) && In(g, n)
    ensures SameShape(g, r)
  {
    var score := Plus1(Score(At(g, cur), m));
    match m
    case Distance => Put(g, n, At(g, n).(distance := score, previous := Prev(cur)))
    case GScore => Put(g, n, At(g, n).(gScore := score, fScore := Plus(score, At(g, n).hScore), previous := Prev(cur)))
  }

  /** `gScore + hScore`, with `Infinity` absorbing. */
  function Plus(k: Key, h: int): Key
  {
    match k
    case Inf => Inf
    case Fin(n) => Fin(n + h)
  }

  /** Linking n changes no other node, and n only in the link and the score fields. */
  lemma AttachCells(g: Grid, cur: Pos, n: Pos, m: Measure)
    requires Rect(g) && In(g, cur) && In(g, n)
    ensures forall q :: In(g, q) && q != n ==> At(Attach(g, cur, n, m), q) == At(g, q)
    ensures Only(At(Attach(g, cur, n, m), n), At(g, n), m)
    ensures At(Attach(g, cur, n, m), n).previous == Prev(cur)
    ensures Score(At(Attach(g, cur, n, m), n), m) == Plus1(Score(At(g, cur), m))
  {
  }

  /** Linking an unlisted node writes only its link and score and no visit flag. */
  lemma AttachFlags(g0: Grid, g: Grid, start: Pos, result: seq<Pos>, order: map<Pos, nat>, m: Measure, cur: Pos, n: Pos)
    requires Trace(g0, g, start, result, order, m) && In(g, cur) && In(g, n) && n !in order
    ensures Shaped(g0, Attach(g, cur, n, m), m) && Flagged(g0, Attach(g, cur, n, m), order)
    ensures Settled(Attach(g, cur, n, m), order, m)
  {
    var g' := Attach(g, cur, n, m);
    AttachCells(g, cur, n, m);
    forall q | In(g', q)
      ensures Only(At(g', q), At(g0, q), m)
      ensures At(g', q).isVisited == (At(g0, q).isVisited || q in order)
    {
      assert Only(At(g, q), At(g0, q), m);
      assert At(g, q).isVisited == (At(g0, q).isVisited || q in order);
    }
    forall q | q in order
      ensures In(g', q) && !At(g', q).isWall && Score(At(g', q), m).Fin?
    {
      assert q != n;
    }
  }

  /** A link into a node other than n survives linking n. */
  lemma AttachLinkedBy(g: Grid, order: map<Pos, nat>, m: Measure, cur: Pos, n: Pos, q: Pos)
    requires Rect(g) && In(g, cur) && In(g, n) && In(g, q) && n !in order && q != n
    requires LinkedBy(g, order, q, m)
    ensures LinkedBy(Attach(g, cur, n, m), order, q, m)
  {
    AttachCells(g, cur, n, m);
    var p := At(g, q).previous.p;
    assert p != n && At(Attach(g, cur, n, m), p) == At(g, p);
  }

  /** The neighbour just linked is linked back to cur. */
  lemma AttachNew(g: Grid, order: map<Pos, nat>, m: Measure, cur: Pos, n: Pos)
    requires Rect(g) && In(g, cur) && In(g, n) && cur in order && n !in order
    requires Manhattan(cur, n) == 1 && Score(At(g, cur), m).Fin?
    ensures LinkedBy(Attach(g, cur, n, m), order, n, m)
  {
    AttachCells(g, cur, n, m);
    assert cur != n;
  }

  /**
   * Linking an unvisited neighbour of a listed node keeps the trace, leaves the neighbour
   * linked back to that node, and keeps every other node linked as it was.
   */
  lemma AttachKeeps(g0: Grid, g: Grid, start: Pos, result: seq<Pos>, order: map<Pos, nat>, m: Measure, cur: Pos, n: Pos)
    requires Trace(g0, g, start, result, order, m) && cur in order && In(g, n) && !At(g, n).isVisited
    requires Manhattan(cur, n) == 1
    ensures Trace(g0, Attach(g, cur, n, m), start, result, order, m)
    ensures LinkedBy(Attach(g, cur, n, m), order, n, m)
    ensures forall q :: In(g, q) && q != n && LinkedBy(g, order, q, m) ==> LinkedBy(Attach(g, cur, n, m), order, q, m)
  {
    var g' := Attach(g, cur, n, m);
    AttachCells(g, cur, n, m);
    assert n !in order by {
      assert At(g, n).isVisited == (At(g0, n).isVisited || n in order);
    }
    assert cur != n && At(g', cur) == At(g, cur);
    AttachNew(g, order, m, cur, n);
    AttachFlags(g0, g, start, result, order, m, cur, n);
    forall q | In(g, q) && q != n && LinkedBy(g, order, q, m)
      ensures LinkedBy(g', order, q, m)
    {
      AttachLinkedBy(g, order, m, cur, n, q);
    }
    assert Linked(g0, g', start, order, m) by {
      forall q | In(g', q) && q != start && Changed(g0, g', q, m)
        ensures LinkedBy(g', order, q, m)
      {
        if q != n {
          assert Changed(g0, g, q, m);
        }
      }
    }
  }

  /** The unvisited nodes of the grid. */
  function Fresh(g: Grid): set<Pos>
    requires Rect(g)
  {
    set r, c | 0 <= r < |g| && 0 <= c < Cols(g) && !g[r][c].isVisited :: Pos(r, c)
  }

  /** Marking an unvisited node leaves one fewer unvisited node. */
  lemma MarkShrinks(g: Grid, q: Pos)
    requires Rect(g) && In(g, q) && !At(g, q).isVisited
    ensures Fresh(Mark(g, q)) == Fresh(g) - {q}
    ensures |Fresh(Mark(g, q))| < |Fresh(g)|
  {
    var g' := Mark(g, q);
    forall x | x in Fresh(g')
      ensures x in Fresh(g) - {q}
    {
      assert At(g', x) == At(g, x);
    }
    forall x | x in Fresh(g) - {q}
      ensures x in Fresh(g')
    {
      assert At(g', x) == At(g, x);
    }
    assert q in Fresh(g);
  }

  /** Linking leaves the visit flags alone. */
  lemma AttachFresh(g: Grid, cur: Pos, n: Pos, m: Measure)
    requires Rect(g) && In(g, cur) && In(g, n)
    ensures Fresh(Attach(g, cur, n, m)) == Fresh(g)
  {
    var g' := Attach(g, cur, n, m);
    forall x | x in Fresh(g')
      ensures x in Fresh(g)
    {
      assert At(g', x).isVisited == At(g, x).isVisited;
    }
    forall x | x in Fresh(g)
      ensures x in Fresh(g')
    {
      assert At(g', x).isVisited == At(g, x).isVisited;
    }
  }

  /** Every node next to a listed node is a wall or visited: nothing reachable was missed. */
  ghost predicate Closed(g: Grid, order: map<Pos, nat>)
    requires Rect(g)
  {
    forall x, q :: x in order && In(g, q) && Manhattan(x, q) == 1 ==> At(g, q).isWall || At(g, q).isVisited
  }
}
