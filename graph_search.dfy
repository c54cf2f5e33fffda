/**
 * Breadth-first and depth-first traversal of hooks/useGraph.ts:488-555. Both start from
 * the given node, follow edges forwards (and backwards when the graph is undirected), and
 * list every node they reach once, in the order they first visit it.
 */
module GraphSearch {
  import opened GraphCore
  import opened GraphVisit

  /** Each neighbour of a node reachable from the start lies in U and is reachable too. */
  lemma NeighboursInside(es: seq<Edge>, directed: bool, start: NodeId, U: set<NodeId>, u: NodeId, adj: seq<NodeId>)
    requires Endpoints(es) <= U && Reachable(es, directed, start, u) && adj == Adjacent(es, u, directed)
    ensures forall k :: 0 <= k < |adj| ==> adj[k] in U
    ensures forall k {:trigger Reachable(es, directed, start, adj[k])} :: 0 <= k < |adj| ==> Reachable(es, directed, start, adj[k])
  {
    AdjacentInEndpoints(es, u, directed);
    ReachNeighbours(es, directed, start, u);
  }

  /**
   * Every node listed before index h + 1 has its neighbours visited once those of the node
   * at index h, u, have been visited and earlier positions are kept.
   */
  lemma ExpandedClosed(es: seq<Edge>, directed: bool, u: NodeId, h: nat,
                       line0: seq<NodeId>, pos0: map<NodeId, nat>, visited0: set<NodeId>,
                       line: seq<NodeId>, pos: map<NodeId, nat>, visited: set<NodeId>)
    requires Indexed(line0, pos0) && Indexed(line, pos) && Extends(pos0, pos) && visited0 <= visited
    requires h < |line0| && line0[h] == u
    requires forall w, v {:trigger v in Adjacent(es, w, directed)} :: w in pos0 && pos0[w] < h && v in Adjacent(es, w, directed) ==> v in visited0
    requires forall v :: v in Adjacent(es, u, directed) ==> v in visited
    ensures forall w, v {:trigger v in Adjacent(es, w, directed)} :: w in pos && pos[w] < h + 1 && v in Adjacent(es, w, directed) ==> v in visited
  {
    forall w, v | w in pos && pos[w] < h + 1 && v in Adjacent(es, w, directed)
      ensures v in visited
    {
      var k := pos[w];
      assert line0[k] in pos0 && pos[line0[k]] == k;
      assert line[k] == line0[k] == w;
    }
  }

  /**
   * The inner `for` of `bfs` (hooks/useGraph.ts:514-519) over the neighbours of the
   * dequeued node: each one not yet visited is marked and enqueued, in order. The line
   * (listed nodes followed by the queue) grows by exactly those neighbours.
   */
  method Enqueue(adj: seq<NodeId>, ghost es: seq<Edge>, ghost directed: bool, ghost start: NodeId,
                 ghost U: set<NodeId>, visited0: set<NodeId>, queue0: seq<NodeId>, ghost h: nat,
                 ghost line0: seq<NodeId>, ghost pos0: map<NodeId, nat>)
    returns (visited: set<NodeId>, queue: seq<NodeId>, ghost line: seq<NodeId>, ghost pos: map<NodeId, nat>)
    requires visited0 <= U && visited0 == pos0.Keys && Indexed(line0, pos0)
    requires h <= |line0| && queue0 == line0[h..]
    requires forall k :: 0 <= k < |adj| ==> adj[k] in U
    requires forall k {:trigger Reachable(es, directed, start, adj[k])} :: 0 <= k < |adj| ==> Reachable(es, directed, start, adj[k])
    requires ReachAll(es, directed, start, visited0)
    ensures visited0 <= visited <= U && visited == pos.Keys && Indexed(line, pos) && Extends(pos0, pos)
    ensures h <= |line| && queue == line[h..]
    ensures forall k :: 0 <= k < |adj| ==> adj[k] in visited
    ensures ReachAll(es, directed, start, visited)
    ensures visited == visited0 ==> queue == queue0
  {
    visited, queue, line, pos := visited0, queue0, line0, pos0;
    for i := 0 to |adj|
      invariant visited0 <= visited <= U && visited == pos.Keys && Indexed(line, pos) && Extends(pos0, pos)
      invariant h <= |line| && queue == line[h..]
      invariant ReachAll(es, directed, start, visited)
      invariant forall k :: 0 <= k < i ==> adj[k] in visited
      invariant visited == visited0 ==> queue == queue0
    {
      var v := adj[i];
      if v !in visited {
        GrowShrinks(U, visited, v);
        IndexedSnoc(line, pos, v);
        ReachAllAdd(es, directed, start, visited, v);
        assert (line + [v])[h..] == line[h..] + [v];
        line, pos := line + [v], pos[v := |line|];
        visited := visited + {v};
        queue := queue + [v];
      }
    }
  }

  /**
   * The state of `bfs` between dequeues: the line lists the dequeued nodes (the first h)
   * followed by the queue, every visited node is on it once, starting with the start node,
   * every visited node is reachable, and the neighbours of every dequeued node are visited.
   */
  ghost predicate BfsInv(es: seq<Edge>, directed: bool, start: NodeId, U: set<NodeId>,
                         order: seq<NodeId>, queue: seq<NodeId>, visited: set<NodeId>,
                         h: nat, line: seq<NodeId>, pos: map<NodeId, nat>)
  {
    h <= |line| && order == line[..h] && queue == line[h..]
    && |line| > 0 && line[0] == start
    && Endpoints(es) <= U && visited <= U && visited == pos.Keys && Indexed(line, pos)
    && ReachAll(es, directed, start, visited)
    && forall w, v {:trigger v in Adjacent(es, w, directed)} :: w in pos && pos[w] < h && v in Adjacent(es, w, directed) ==> v in visited
  }

  /**
   * One turn of the `while` of `bfs` (hooks/useGraph.ts:500-520): dequeue the head, list it,
   * then mark and enqueue its unvisited neighbours. Either more of the graph is visited, or
   * nothing new was marked and the queue is one shorter.
   */
  method Dequeue(es: seq<Edge>, directed: bool, ghost start: NodeId, ghost U: set<NodeId>,
                 order0: seq<NodeId>, queue0: seq<NodeId>, visited0: set<NodeId>,
                 ghost h0: nat, ghost line0: seq<NodeId>, ghost pos0: map<NodeId, nat>)
    returns (order: seq<NodeId>, queue: seq<NodeId>, visited: set<NodeId>,
             ghost h: nat, ghost line: seq<NodeId>, ghost pos: map<NodeId, nat>)
    requires BfsInv(es, directed, start, U, order0, queue0, visited0, h0, line0, pos0) && queue0 != []
    ensures BfsInv(es, directed, start, U, order, queue, visited, h, line, pos)
    ensures |U - visited| < |U - visited0| || (visited == visited0 && |queue| < |queue0|)
  {
    var u := queue0[0];
    queue := queue0[1..];
    order := order0 + [u];
    assert u == line0[h0] && pos0[u] == h0;
    assert order == line0[..h0 + 1];
    var adj := Adjacent(es, u, directed);
    NeighboursInside(es, directed, start, U, u, adj);
    visited, queue, line, pos := Enqueue(adj, es, directed, start, U, visited0, queue, h0 + 1, line0, pos0);
    if visited != visited0 {
      StrictCoverShrinks(U, visited0, visited);
    }
    ExpandedClosed(es, directed, u, h0, line0, pos0, visited0, line, pos, visited);
    h := h0 + 1;
    assert line[..h] == line0[..h] by {
      forall k | 0 <= k < h
        ensures line[k] == line0[k]
      {
        assert line0[k] in pos0 && pos[line0[k]] == k;
      }
    }
  }

  /**
   * `bfs` (hooks/useGraph.ts:488-523): a FIFO queue seeded with the start node, which is
   * marked visited when enqueued; each dequeued node is listed and its unvisited
   * neighbours are marked and enqueued in edge order. The list starts with the start node,
   * has no repeats, and holds exactly the nodes reachable from it.
   */
  method Bfs(g: Graph, start: NodeId, directed: bool) returns (order: seq<NodeId>)
    ensures |order| > 0 && order[0] == start && NoDup(order)
    ensures forall v :: v in order ==> Reachable(g.edges, directed, start, v)
    ensures forall v :: Reachable(g.edges, directed, start, v) ==> v in order
  {
    var es := g.edges;
    order := [];
    var queue := [start];
    var visited := {start};
    ghost var U := {start} + Endpoints(es);
    ghost var line: seq<NodeId>, pos: map<NodeId, nat>, h: nat := [start], map[start := 0], 0;
    ReachSelf(es, directed, start);
    while queue != []
      invariant BfsInv(es, directed, start, U, order, queue, visited, h, line, pos)
      decreases |U - visited|, |queue|
    {
      order, queue, visited, h, line, pos := Dequeue(es, directed, start, U, order, queue, visited, h, line, pos);
    }
    BfsDone(es, directed, start, U, order, visited, h, line, pos);
  }

  /** When the queue runs empty, the list is the whole line and the visited set is closed. */
  lemma BfsDone(es: seq<Edge>, directed: bool, start: NodeId, U: set<NodeId>,
                order: seq<NodeId>, visited: set<NodeId>, h: nat, line: seq<NodeId>, pos: map<NodeId, nat>)
    requires BfsInv(es, directed, start, U, order, [], visited, h, line, pos)
    ensures |order| > 0 && order[0] == start && NoDup(order)
    ensures forall v :: v in order ==> Reachable(es, directed, start, v)
    ensures forall v :: Reachable(es, directed, start, v) ==> v in order
  {
    assert order == line;
    assert Closed(es, directed, visited);
    IndexedNoDup(line, pos);
    IndexedMembers(line, pos);
    ClosedHoldsReachable(es, directed, visited, start);
  }

  /** The neighbours of every member of A outside B lie in S. */
  ghost predicate ClosedOver(es: seq<Edge>, directed: bool, A: set<NodeId>, B: set<NodeId>, S: set<NodeId>)
  {
    forall w, v {:trigger v in Adjacent(es, w, directed)} :: w in A && w !in B && v in Adjacent(es, w, directed) ==> v in S
  }

  /**
   * How a depth-first visit leaves its state: more nodes are marked, all listed once at
   * their recorded positions with earlier positions kept, all reachable, and every newly
   * marked node has its neighbours marked.
   */
  ghost predicate Grown(es: seq<Edge>, directed: bool, start: NodeId, U: set<NodeId>,
                        visited0: set<NodeId>, pos0: map<NodeId, nat>,
                        visited: set<NodeId>, order: seq<NodeId>, pos: map<NodeId, nat>)
  {
    visited0 <= visited <= U && visited == pos.Keys && Indexed(order, pos) && Extends(pos0, pos)
    && ReachAll(es, directed, start, visited) && ClosedOver(es, directed, visited, visited0, visited)
  }

  /** Two visits in a row grow the state as one. */
  lemma GrownTrans(es: seq<Edge>, directed: bool, start: NodeId, U: set<NodeId>,
                   visited0: set<NodeId>, pos0: map<NodeId, nat>,
                   visited1: set<NodeId>, order1: seq<NodeId>, pos1: map<NodeId, nat>,
                   visited: set<NodeId>, order: seq<NodeId>, pos: map<NodeId, nat>)
    requires Grown(es, directed, start, U, visited0, pos0, visited1, order1, pos1)
    requires Grown(es, directed, start, U, visited1, pos1, visited, order, pos)
    ensures Grown(es, directed, start, U, visited0, pos0, visited, order, pos)
  {
  }

  /**
   * `dfsRecursive` (hooks/useGraph.ts:534-550) on an unvisited node u reachable from the
   * start: mark u, list it, then visit its neighbours in edge order. u is listed at the old
   * length of the list, what was listed keeps its place, and every node this call marks
   * has all its neighbours marked when it returns.
   */
  method DfsVisit(es: seq<Edge>, directed: bool, u: NodeId, ghost start: NodeId, ghost U: set<NodeId>,
                  visited0: set<NodeId>, order0: seq<NodeId>, ghost pos0: map<NodeId, nat>)
    returns (visited: set<NodeId>, order: seq<NodeId>, ghost pos: map<NodeId, nat>)
    requires Endpoints(es) <= U && u in U && visited0 <= U && u !in visited0
    requires visited0 == pos0.Keys && Indexed(order0, pos0)
    requires Reachable(es, directed, start, u) && ReachAll(es, directed, start, visited0)
    ensures Grown(es, directed, start, U, visited0, pos0, visited, order, pos)
    ensures u in pos && pos[u] == |order0|
    decreases |U - visited0|, 0
  {
    IndexedSnoc(order0, pos0, u);
    GrowShrinks(U, visited0, u);
    ReachAllAdd(es, directed, start, visited0, u);
    var adj := Adjacent(es, u, directed);
    NeighboursInside(es, directed, start, U, u, adj);
    var visited1 := visited0 + {u};
    visited, order, pos := DfsNeighbours(adj, es, directed, start, U, visited1, order0 + [u], pos0[u := |order0|]);
    VisitGrown(es, directed, start, U, u, adj, visited0, order0, pos0, visited, order, pos);
  }

  /**
   * Marking and listing u, then visiting its neighbours, grows the state: u keeps the
   * position it was listed at, and once its neighbours are marked it is closed as well.
   */
  lemma VisitGrown(es: seq<Edge>, directed: bool, start: NodeId, U: set<NodeId>, u: NodeId, adj: seq<NodeId>,
                   visited0: set<NodeId>, order0: seq<NodeId>, pos0: map<NodeId, nat>,
                   visited: set<NodeId>, order: seq<NodeId>, pos: map<NodeId, nat>)
    requires u !in visited0 && visited0 == pos0.Keys
    requires Grown(es, directed, start, U, visited0 + {u}, pos0[u := |order0|], visited, order, pos)
    requires adj == Adjacent(es, u, directed) && forall k :: 0 <= k < |adj| ==> adj[k] in visited
    ensures Grown(es, directed, start, U, visited0, pos0, visited, order, pos)
    ensures u in pos && pos[u] == |order0|
  {
  }

  /**
   * The `for` of `dfsRecursive` (hooks/useGraph.ts:546-550): each neighbour in turn is
   * visited unless it is already marked. Afterwards every neighbour is visited, and every
   * node marked on the way has its neighbours marked.
   */
  method DfsNeighbours(adj: seq<NodeId>, es: seq<Edge>, directed: bool, ghost start: NodeId, ghost U: set<NodeId>,
                       visited0: set<NodeId>, order0: seq<NodeId>, ghost pos0: map<NodeId, nat>)
    returns (visited: set<NodeId>, order: seq<NodeId>, ghost pos: map<NodeId, nat>)
    requires Endpoints(es) <= U && visited0 <= U && visited0 == pos0.Keys && Indexed(order0, pos0)
    requires forall k :: 0 <= k < |adj| ==> adj[k] in U
    requires forall k {:trigger Reachable(es, directed, start, adj[k])} :: 0 <= k < |adj| ==> Reachable(es, directed, start, adj[k])
    requires ReachAll(es, directed, start, visited0)
    ensures Grown(es, directed, start, U, visited0, pos0, visited, order, pos)
    ensures forall k :: 0 <= k < |adj| ==> adj[k] in visited
    decreases |U - visited0|, 2
  {
    visited, order, pos := visited0, order0, pos0;
    for i := 0 to |adj|
      invariant Grown(es, directed, start, U, visited0, pos0, visited, order, pos)
      invariant forall k :: 0 <= k < i ==> adj[k] in visited
    {
      CoverShrinks(U, visited0, visited);
      ghost var visited1, order1, pos1 := visited, order, pos;
      visited, order, pos := VisitIfNew(adj[i], es, directed, start, U, visited, order, pos);
      GrownTrans(es, directed, start, U, visited0, pos0, visited1, order1, pos1, visited, order, pos);
      PrefixCovered(adj, i, visited1, visited);
    }
  }

  /** One neighbour: `if (!visited.has(neighborId)) dfsRecursive(neighborId)`. */
  method VisitIfNew(v: NodeId, es: seq<Edge>, directed: bool, ghost start: NodeId, ghost U: set<NodeId>,
                    visited0: set<NodeId>, order0: seq<NodeId>, ghost pos0: map<NodeId, nat>)
    returns (visited: set<NodeId>, order: seq<NodeId>, ghost pos: map<NodeId, nat>)
    requires Endpoints(es) <= U && v in U && visited0 <= U && visited0 == pos0.Keys && Indexed(order0, pos0)
    requires Reachable(es, directed, start, v) && ReachAll(es, directed, start, visited0)
    ensures Grown(es, directed, start, U, visited0, pos0, visited, order, pos) && v in visited
    decreases |U - visited0|, 1
  {
    if v !in visited0 {
      visited, order, pos := DfsVisit(es, directed, v, start, U, visited0, order0, pos0);
    } else {
      visited, order, pos := visited0, order0, pos0;
    }
  }

  /**
   * `dfs` (hooks/useGraph.ts:526-555): the recursive visit from the start node with nothing
   * marked. The list is a preorder that starts with the start node, has no repeats, and
   * holds exactly the nodes reachable from it.
   */
  method Dfs(g: Graph, start: NodeId, directed: bool) returns (order: seq<NodeId>)
    ensures |order| > 0 && order[0] == start && NoDup(order)
    ensures forall v :: v in order ==> Reachable(g.edges, directed, start, v)
    ensures forall v :: Reachable(g.edges, directed, start, v) ==> v in order
  {
    ghost var U := {start} + Endpoints(g.edges);
    ReachSelf(g.edges, directed, start);
    var visited;
    ghost var pos: map<NodeId, nat>;
    visited, order, pos := DfsVisit(g.edges, directed, start, start, U, {}, [], map[]);
    assert Closed(g.edges, directed, visited);
    IndexedNoDup(order, pos);
    IndexedMembers(order, pos);
    ClosedHoldsReachable(g.edges, directed, visited, start);
  }
}
