/**
 * `dijkstra` of the pathfinding engine (hooks/usePathfinding.ts:477-503) with its helper
 * `updateUnvisitedNeighbors` (hooks/usePathfinding.ts:583-591). Every node of the grid starts
 * in the unvisited list; each turn the list is sorted by distance and its head taken: a wall
 * is skipped, an infinite distance ends the search, anything else is visited and listed, and
 * its unvisited neighbours get its distance plus one and a link back to it. Neighbours are
 * overwritten without comparing distances, exactly as the source does.
 */
module GridDijkstra {
  import opened JsSort
  import opened GridCore
  import opened GridVisit

  /** The sort key of `sortNodesByDistance`: a node's distance in g. */
  function Dist(g: Grid): Pos -> Key
  {
    p => if Rect(g) && In(g, p) then At(g, p).distance else Inf
  }

  /** The node at q as `updateUnvisitedNeighbors` leaves it when it is a neighbour of node. */
  function Relaxed(g: Grid, node: Pos, q: Pos): Cell
    requires Rect(g) && In(g, node) && In(g, q)
  {
    At(g, q).(distance := Plus1(At(g, node).distance), previous := Prev(node))
  }

  /** g' is g after `updateUnvisitedNeighbors(node)`. */
  ghost predicate Updated(g: Grid, g': Grid, node: Pos)
    requires Rect(g) && In(g, node)
  {
    SameShape(g, g')
    && forall q :: In(g, q) ==> At(g', q) == if q in Neighbours(g, node) then Relaxed(g, node, q) else At(g, q)
  }

  /**
   * `updateUnvisitedNeighbors` (hooks/usePathfinding.ts:583-591): each unvisited neighbour of
   * node gets node's distance plus one and a link back to node, whatever distance it had; no
   * other node and no other field changes.
   */
  method UpdateUnvisitedNeighbors(g: Grid, node: Pos) returns (g': Grid)
    requires Rect(g) && In(g, node)
    ensures Updated(g, g', node)
  {
    var neighbours := Neighbours(g, node);
    NeighboursExact(g, node);
    g' := g;
    for i := 0 to |neighbours|
      invariant SameShape(g, g')
      invariant forall q :: In(g, q) ==> At(g', q) == if q in neighbours[..i] then Relaxed(g, node, q) else At(g, q)
    {
      var n := neighbours[i];
      assert n !in neighbours[..i];
      if !At(g', n).isVisited {
        g' := Put(g', n, At(g', n).(distance := Plus1(At(g', node).distance), previous := Prev(node)));
      }
      assert neighbours[..i + 1] == neighbours[..i] + [n];
    }
    assert neighbours[..|neighbours|] == neighbours;
  }

  /**
   * The update keeps the search's trace: the neighbours it writes are unvisited, so none is
   * listed, and each is linked to node, which is listed. Listed nodes do not change, and a
   * finite distance stays finite.
   */
  lemma UpdateKeeps(g0: Grid, g: Grid, g': Grid, start: Pos, result: seq<Pos>, order: map<Pos, nat>, node: Pos)
    requires Trace(g0, g, start, result, order, Distance) && node in order && Updated(g, g', node)
    ensures Trace(g0, g', start, result, order, Distance)
    ensures forall q :: q in order ==> At(g', q) == At(g, q)
    ensures forall q :: In(g, q) && At(g, q).distance.Fin? ==> At(g', q).distance.Fin?
  {
    NeighboursExact(g, node);
    assert At(g', node) == At(g, node);
    forall q | In(g, q) && q in Neighbours(g, node)
      ensures q !in order
    {
      assert At(g, q).isVisited == (At(g0, q).isVisited || q in order);
    }
    UpdateShaped(g0, g, g', start, result, order, node);
    forall q | In(g', q) && q != start && Changed(g0, g', q, Distance)
      ensures LinkedBy(g', order, q, Distance)
    {
      if q in Neighbours(g, node) {
        assert Score(At(g, node), Distance).Fin?;
      } else {
        assert Changed(g0, g, q, Distance);
        var p := At(g, q).previous.p;
        assert LinkedBy(g, order, q, Distance);
        assert At(g', p) == At(g, p);
      }
    }
  }

  /** The update writes only the link and the distance, and leaves every visit flag alone. */
  lemma UpdateShaped(g0: Grid, g: Grid, g': Grid, start: Pos, result: seq<Pos>, order: map<Pos, nat>, node: Pos)
    requires Trace(g0, g, start, result, order, Distance) && node in order && Updated(g, g', node)
    requires forall q :: In(g, q) && q in Neighbours(g, node) ==> q !in order
    ensures Shaped(g0, g', Distance) && Flagged(g0, g', order) && Settled(g', order, Distance)
  {
    forall q | In(g', q)
      ensures Only(At(g', q), At(g0, q), Distance)
      ensures At(g', q).isVisited == (At(g0, q).isVisited || q in order)
    {
      assert Only(At(g, q), At(g0, q), Distance);
      assert At(g, q).isVisited == (At(g0, q).isVisited || q in order);
    }
  }

  /**
   * The unvisited list of the loop: nodes of the grid, each once, none listed; every node of
   * the grid is in it, listed, or a wall the loop took out and skipped.
   */
  ghost predicate Pending(g: Grid, order: map<Pos, nat>, unvisited: seq<Pos>)
    requires Rect(g)
  {
    (forall i :: 0 <= i < |unvisited| ==> In(g, unvisited[i]) && unvisited[i] !in order)
    && (forall q :: multiset(unvisited)[q] <= 1)
    && (forall q :: In(g, q) ==> q in unvisited || q in order || At(g, q).isWall)
  }

  /** No node still in the list is closer than the node listed last. */
  ghost predicate Floor(g: Grid, result: seq<Pos>, unvisited: seq<Pos>)
  {
    result != [] ==> AtLeast(unvisited, Dist(g), Dist(g)(result[|result| - 1]))
  }

  /** Every node next to a listed node is visited or has a finite distance. */
  ghost predicate Reached(g: Grid, order: map<Pos, nat>)
    requires Rect(g)
  {
    forall x, q :: x in order && In(g, q) && Manhattan(x, q) == 1 ==> At(g, q).isVisited || At(g, q).distance.Fin?
  }

  /** Every node neither a wall nor listed is still at distance `Infinity`. */
  ghost predicate Exhausted(g: Grid, order: map<Pos, nat>)
    requires Rect(g)
  {
    forall q :: In(g, q) && !At(g, q).isWall && q !in order ==> At(g, q).distance == Inf
  }

  /** The invariant of the loop of `dijkstra`. */
  ghost predicate Scanning(g0: Grid, g: Grid, start: Pos, finish: Pos, result: seq<Pos>,
                           order: map<Pos, nat>, unvisited: seq<Pos>)
  {
    Trace(g0, g, start, result, order, Distance) && finish !in order
    && Pending(g, order, unvisited) && Ordered(result, Dist(g)) && Floor(g, result, unvisited)
    && Reached(g, order)
  }

  /** Before the loop: every node unvisited, none listed, only the start's distance written. */
  lemma Begin(grid: Grid, start: Pos, finish: Pos, all: seq<Pos>)
    requires Rect(grid) && In(grid, start)
    requires (forall q :: q in all <==> In(grid, q)) && Distinct(all)
    ensures Scanning(grid, Put(grid, start, At(grid, start).(distance := Fin(0))), start, finish, [], map[], all)
  {
    TraceStart(grid, Put(grid, start, At(grid, start).(distance := Fin(0))), start, Distance);
    DistinctOnce(all);
    forall i | 0 <= i < |all|
      ensures In(grid, all[i])
    {
      assert all[i] in all;
    }
  }

  /** Sorting the list by distance keeps the invariant: it holds the same nodes. */
  lemma SortKeeps(g0: Grid, g: Grid, start: Pos, finish: Pos, result: seq<Pos>,
                  order: map<Pos, nat>, unvisited: seq<Pos>)
    requires Scanning(g0, g, start, finish, result, order, unvisited)
    ensures Scanning(g0, g, start, finish, result, order, SortBy(unvisited, Dist(g)))
    ensures Ordered(SortBy(unvisited, Dist(g)), Dist(g))
  {
    var s := SortBy(unvisited, Dist(g));
    SortByOrdered(unvisited, Dist(g));
    forall q
      ensures q in s <==> q in unvisited
    {
      SortByMembers(unvisited, Dist(g), q);
    }
    forall i | 0 <= i < |s|
      ensures In(g, s[i]) && s[i] !in order && (result != [] ==> !Below(Dist(g)(s[i]), Dist(g)(result[|result| - 1])))
    {
      assert s[i] in unvisited;
    }
  }

  /** Taking the head off the list leaves a list without it. */
  lemma Pop(g: Grid, order: map<Pos, nat>, s: seq<Pos>)
    requires Rect(g) && Pending(g, order, s) && s != []
    ensures s[0] !in s[1..]
    ensures forall q :: multiset(s[1..])[q] <= 1
    ensures forall q :: q in s ==> q == s[0] || q in s[1..]
  {
    assert s == [s[0]] + s[1..];
    assert multiset(s) == multiset{s[0]} + multiset(s[1..]);
    assert multiset(s)[s[0]] <= 1;
    forall q
      ensures multiset(s[1..])[q] <= 1
    {
      assert multiset(s)[q] <= 1;
    }
  }

  /** A wall taken off the head of the list is skipped, and the invariant holds for the rest. */
  lemma SkipKeeps(g0: Grid, g: Grid, start: Pos, finish: Pos, result: seq<Pos>,
                  order: map<Pos, nat>, s: seq<Pos>)
    requires Scanning(g0, g, start, finish, result, order, s) && s != [] && At(g, s[0]).isWall
    ensures Scanning(g0, g, start, finish, result, order, s[1..])
  {
    Pop(g, order, s);
  }

  /**
   * The head of the sorted list at distance `Infinity` means every node still in the list is
   * at `Infinity` too, and so is every node neither listed nor a wall.
   */
  lemma StopExhausted(g0: Grid, g: Grid, start: Pos, finish: Pos, result: seq<Pos>,
                      order: map<Pos, nat>, s: seq<Pos>)
    requires Scanning(g0, g, start, finish, result, order, s) && Ordered(s, Dist(g))
    requires s != [] && !At(g, s[0]).isWall && At(g, s[0]).distance == Inf
    ensures Exhausted(g, order) && Closed(g, order)
  {
    forall q | In(g, q) && !At(g, q).isWall && q !in order
      ensures At(g, q).distance == Inf
    {
      assert q in s;
      var k :| 0 <= k < |s| && s[k] == q;
      if k > 0 {
        assert !Below(Dist(g)(s[k]), Dist(g)(s[0]));
      }
    }
    ExhaustedClosed(g0, g, start, result, order);
  }

  /** With the list empty, every node is listed or a wall. */
  lemma EmptyExhausted(g0: Grid, g: Grid, start: Pos, finish: Pos, result: seq<Pos>, order: map<Pos, nat>)
    requires Scanning(g0, g, start, finish, result, order, [])
    ensures Exhausted(g, order) && Closed(g, order)
  {
    ExhaustedClosed(g0, g, start, result, order);
  }

  /**
   * Once every node neither listed nor a wall is at `Infinity`, every node next to a listed
   * node is a wall or visited: the search missed nothing it could reach.
   */
  lemma ExhaustedClosed(g0: Grid, g: Grid, start: Pos, result: seq<Pos>, order: map<Pos, nat>)
    requires Trace(g0, g, start, result, order, Distance) && Reached(g, order) && Exhausted(g, order)
    ensures Closed(g, order)
  {
    forall x, q | x in order && In(g, q) && Manhattan(x, q) == 1
      ensures At(g, q).isWall || At(g, q).isVisited
    {
      assert At(g, q).isVisited == (At(g0, q).isVisited || q in order);
    }
  }

  /** Marking and listing the head c of the sorted list keeps the list's part of the invariant. */
  lemma ListKeeps(g0: Grid, g: Grid, start: Pos, finish: Pos, result: seq<Pos>,
                  order: map<Pos, nat>, s: seq<Pos>)
    requires Scanning(g0, g, start, finish, result, order, s) && Ordered(s, Dist(g))
    requires s != [] && !At(g, s[0]).isWall && At(g, s[0]).distance.Fin?
    ensures var c := s[0];
            Trace(g0, Mark(g, c), start, result + [c], order[c := |result|], Distance)
            && Pending(Mark(g, c), order[c := |result|], s[1..])
            && Ordered(result + [c], Dist(Mark(g, c))) && AtLeast(s[1..], Dist(g), Dist(g)(c))
            && (forall q :: In(g, q) && At(g, q).distance.Fin? ==> At(Mark(g, c), q).distance.Fin?)
            && (forall q :: In(g, q) ==> At(Mark(g, c), q).isVisited == (At(g, q).isVisited || q == c))
  {
    var c := s[0];
    var gm, order' := Mark(g, c), order[c := |result|];
    Pop(g, order, s);
    MarkKeeps(g0, g, start, result, order, Distance, c);
    MarkCells(g, c);
    forall i | 0 <= i < |s| - 1
      ensures !Below(Dist(g)(s[1..][i]), Dist(g)(c))
    {
      assert s[1..][i] == s[i + 1];
    }
    forall i | 0 <= i < |result|
      ensures Dist(gm)(result[i]) == Dist(g)(result[i])
    {
      assert result[i] in order;
    }
    assert Dist(gm)(c) == Dist(g)(c);
    forall i, j | 0 <= i < j < |result| + 1
      ensures !Below(Dist(gm)((result + [c])[j]), Dist(gm)((result + [c])[i]))
    {
      if j == |result| {
        assert result != [];
        assert !Below(Dist(g)(c), Dist(g)(result[|result| - 1]));
        if i < |result| - 1 {
          assert !Below(Dist(g)(result[|result| - 1]), Dist(g)(result[i]));
        }
      }
    }
  }

  /**
   * The head c, listed and not the finish, has its unvisited neighbours updated: the whole
   * invariant holds again for the rest of the list.
   */
  lemma SettleKeeps(g0: Grid, g: Grid, g': Grid, start: Pos, finish: Pos, result: seq<Pos>,
                    order: map<Pos, nat>, s: seq<Pos>)
    requires Scanning(g0, g, start, finish, result, order, s) && Ordered(s, Dist(g))
    requires s != [] && !At(g, s[0]).isWall && At(g, s[0]).distance.Fin? && s[0] != finish
    requires Updated(Mark(g, s[0]), g', s[0])
    ensures Scanning(g0, g', start, finish, result + [s[0]], order[s[0] := |result|], s[1..])
  {
    var c := s[0];
    var gm, result', order' := Mark(g, c), result + [c], order[c := |result|];
    ListKeeps(g0, g, start, finish, result, order, s);
    UpdateKeeps(g0, gm, g', start, result', order', c);
    MarkCells(g, c);
    assert Dist(gm)(c) == Dist(g)(c);
    forall k | 0 <= k < |s[1..]|
      ensures !Below(Dist(gm)(s[1..][k]), Dist(gm)(c))
    {
      assert !Below(Dist(g)(s[1..][k]), Dist(g)(c));
      assert s[1..][k] != c;
    }
    UpdatedPending(gm, g', c, order', s[1..]);
    UpdatedOrdered(gm, g', c, result', order', s[1..]);
    ReachedList(g, gm, order, c);
    UpdatedReached(gm, g', c, order');
  }

  /** The update changes no wall flag, so the list keeps its part of the invariant. */
  lemma UpdatedPending(gm: Grid, g': Grid, c: Pos, order: map<Pos, nat>, rest: seq<Pos>)
    requires Rect(gm) && In(gm, c) && Updated(gm, g', c) && Pending(gm, order, rest)
    ensures Pending(g', order, rest)
  {
    forall q | In(gm, q)
      ensures At(g', q).isWall == At(gm, q).isWall
    {
    }
  }

  /**
   * The update leaves listed nodes alone and gives each updated node c's distance plus one,
   * so the listed nodes stay in order and none left in the list is closer than c.
   */
  lemma UpdatedOrdered(gm: Grid, g': Grid, c: Pos, result: seq<Pos>, order: map<Pos, nat>, rest: seq<Pos>)
    requires Rect(gm) && In(gm, c) && Updated(gm, g', c) && At(gm, c).isVisited && At(gm, c).distance.Fin?
    requires result != [] && result[|result| - 1] == c
    requires Ordered(result, Dist(gm)) && AtLeast(rest, Dist(gm), Dist(gm)(c))
    requires forall i :: 0 <= i < |result| ==> In(gm, result[i]) && At(gm, result[i]).isVisited
    requires forall i :: 0 <= i < |rest| ==> In(gm, rest[i])
    ensures Ordered(result, Dist(g')) && Floor(g', result, rest)
  {
    NeighboursExact(gm, c);
    forall i | 0 <= i < |result|
      ensures Dist(g')(result[i]) == Dist(gm)(result[i])
    {
    }
    forall k | 0 <= k < |rest|
      ensures !Below(Dist(g')(rest[k]), Dist(g')(c))
    {
      assert !Below(Dist(gm)(rest[k]), Dist(gm)(c));
    }
  }

  /** Marking c and listing it keeps what `Reached` says of the nodes listed before it. */
  lemma ReachedList(g: Grid, gm: Grid, order: map<Pos, nat>, c: Pos)
    requires Rect(g) && In(g, c) && gm == Mark(g, c) && Reached(g, order)
    ensures forall x, q :: x in order && In(gm, q) && Manhattan(x, q) == 1 ==> At(gm, q).isVisited || At(gm, q).distance.Fin?
  {
    MarkCells(g, c);
    forall x, q | x in order && In(gm, q) && Manhattan(x, q) == 1
      ensures At(gm, q).isVisited || At(gm, q).distance.Fin?
    {
      assert At(g, q).isVisited || At(g, q).distance.Fin?;
    }
  }

  /** After the update every node next to c is visited or at a finite distance, as before. */
  lemma UpdatedReached(gm: Grid, g': Grid, c: Pos, order: map<Pos, nat>)
    requires Rect(gm) && In(gm, c) && Updated(gm, g', c) && At(gm, c).distance.Fin? && c in order
    requires forall x, q :: x in order && x != c && In(gm, q) && Manhattan(x, q) == 1 ==> At(gm, q).isVisited || At(gm, q).distance.Fin?
    ensures Reached(g', order)
  {
    NeighboursExact(gm, c);
    forall x, q | x in order && In(g', q) && Manhattan(x, q) == 1
      ensures At(g', q).isVisited || At(g', q).distance.Fin?
    {
      if x != c {
        assert At(gm, q).isVisited || At(gm, q).distance.Fin?;
      } else if !At(gm, q).isVisited {
        assert q in Neighbours(gm, c);
      }
    }
  }

  /**
   * `dijkstra` (hooks/usePathfinding.ts:477-503). The nodes are visited in the order listed,
   * each once, never a wall, in nondecreasing distance; the finish, if listed, comes last.
   * The trace holds: every node whose distance or link was written, other than the start, is
   * linked to a neighbour listed before it, at one less distance. Unless stopped by the
   * cancel flag or the finish, every node neither listed nor a wall is left at `Infinity`,
   * and every node next to a listed node is a wall or visited.
   */
  method Dijkstra(grid: Grid, start: Pos, finish: Pos, cancelled: bool)
    returns (g: Grid, result: seq<Pos>, ghost order: map<Pos, nat>)
    requires Rect(grid) && In(grid, start)
    ensures Trace(grid, g, start, result, order, Distance) && Distinct(result)
    ensures forall i :: 0 <= i < |result| ==> In(grid, result[i]) && !At(grid, result[i]).isWall
    ensures Ordered(result, Dist(g))
    ensures forall i :: 0 <= i < |result| - 1 ==> result[i] != finish
    ensures cancelled ==> result == []
    ensures !cancelled && finish !in result ==> Exhausted(g, order) && Closed(g, order)
  {
    var unvisited := AllNodes(grid);
    assert Distinct(unvisited) by {
      forall i, j | 0 <= i < j < |unvisited|
        ensures unvisited[i] != unvisited[j]
      {
        assert Before(unvisited[i], unvisited[j]);
      }
    }
    g := Put(grid, start, At(grid, start).(distance := Fin(0)));
    Begin(grid, start, finish, unvisited);
    result, order := [], map[];
    while |unvisited| > 0
      invariant Scanning(grid, g, start, finish, result, order, unvisited)
      invariant cancelled ==> result == []
      decreases |unvisited|
    {
      if cancelled {
        break;
      }
      SortKeeps(grid, g, start, finish, result, order, unvisited);
      unvisited := SortBy(unvisited, Dist(g));
      var closest := unvisited[0];
      if At(g, closest).isWall {
        SkipKeeps(grid, g, start, finish, result, order, unvisited);
        unvisited := unvisited[1..];
        continue;
      }
      if At(g, closest).distance == Inf {
        StopExhausted(grid, g, start, finish, result, order, unvisited);
        Finish(grid, g, start, finish, result, order);
        return;
      }
      if closest == finish {
        ListKeeps(grid, g, start, finish, result, order, unvisited);
        g, result, order := Mark(g, closest), result + [closest], order[closest := |result|];
        Finish(grid, g, start, finish, result, order);
        return;
      }
      var updated := UpdateUnvisitedNeighbors(Mark(g, closest), closest);
      SettleKeeps(grid, g, updated, start, finish, result, order, unvisited);
      g, result, order := updated, result + [closest], order[closest := |result|];
      unvisited := unvisited[1..];
    }
    if !cancelled {
      EmptyExhausted(grid, g, start, finish, result, order);
    }
    Finish(grid, g, start, finish, result, order);
  }

  /** What the trace says about the list: no repeats, and every node of it a node, not a wall. */
  lemma Finish(grid: Grid, g: Grid, start: Pos, finish: Pos, result: seq<Pos>, order: map<Pos, nat>)
    requires Trace(grid, g, start, result, order, Distance)
    requires finish in order ==> |result| > 0 && result[|result| - 1] == finish
    ensures Distinct(result)
    ensures forall i :: 0 <= i < |result| ==> In(grid, result[i]) && !At(grid, result[i]).isWall
    ensures forall i :: 0 <= i < |result| - 1 ==> result[i] != finish
  {
    RankedDistinct(result, order);
    forall i | 0 <= i < |result|
      ensures In(grid, result[i]) && !At(grid, result[i]).isWall
    {
      assert result[i] in order;
      assert Only(At(g, result[i]), At(grid, result[i]), Distance);
    }
  }
}
