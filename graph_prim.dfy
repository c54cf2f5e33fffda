/**
 * `primMST` of hooks/useGraph.ts:669-741: a tree grown from a start node. The queue holds
 * the edges that leave the visited nodes, kept sorted by weight; the lightest is taken off,
 * and when it leads to a node not yet visited its id is pushed, that node is visited, and the
 * edges from it to nodes not yet visited join the queue.
 */
module GraphPrim {
  import opened GraphCore
  import opened JsSort

  /** Edge e leads from u to a node not visited (or into u from one, when undirected). */
  predicate Leaves(e: Edge, u: NodeId, visited: set<NodeId>, directed: bool)
  {
    (e.source == u && e.target !in visited) || (!directed && e.target == u && e.source !in visited)
  }

  /** The edges, in order, that lead from v to a node not visited. */
  function Candidates(es: seq<Edge>, v: NodeId, visited: set<NodeId>, directed: bool): (r: seq<Edge>)
    ensures |r| <= |es|
  {
    if es == [] then []
    else
      var e := es[|es| - 1];
      Candidates(es[..|es| - 1], v, visited, directed) + (if Leaves(e, v, visited, directed) then [e] else [])
  }

  /** The candidates are exactly the edges that leave v. */
  lemma {:induction false} CandidatesMembers(es: seq<Edge>, v: NodeId, visited: set<NodeId>, directed: bool, e: Edge)
    ensures e in Candidates(es, v, visited, directed) <==> e in es && Leaves(e, v, visited, directed)
  {
    if es != [] {
      CandidatesMembers(es[..|es| - 1], v, visited, directed, e);
      assert es == es[..|es| - 1] + [es[|es| - 1]];
    }
  }

  /**
   * The `for (const edge of graph.edges) if (...) pq.push(...)` loops of
   * hooks/useGraph.ts:687-699 and 720-734: the edges leaving v pushed in edge order.
   */
  method PushCandidates(pq: seq<Edge>, es: seq<Edge>, v: NodeId, visited: set<NodeId>, directed: bool)
    returns (pq': seq<Edge>)
    ensures pq' == pq + Candidates(es, v, visited, directed)
  {
    pq' := pq;
    for k := 0 to |es|
      invariant pq' == pq + Candidates(es[..k], v, visited, directed)
    {
      assert es[..k + 1][..k] == es[..k];
      if Leaves(es[k], v, visited, directed) {
        pq' := pq' + [es[k]];
      }
    }
    assert es[..|es|] == es;
  }

  /** Every queued edge is an edge of the graph with a visited end it was pushed from. */
  ghost predicate Queued(es: seq<Edge>, pq: seq<Edge>, visited: set<NodeId>, directed: bool)
  {
    forall e :: e in pq ==> e in es && (e.source in visited || (!directed && e.target in visited))
  }

  /** Every edge that leaves a visited node for one not visited is in the queue. */
  ghost predicate Frontier(es: seq<Edge>, pq: seq<Edge>, visited: set<NodeId>, directed: bool)
  {
    forall u, e {:trigger Leaves(e, u, visited, directed)} ::
      u in visited && e in es && Leaves(e, u, visited, directed) ==> e in pq
  }

  /** The tree's edges join visited nodes, and every visited node is reached from the start along them. */
  ghost predicate Grown(tree: seq<Edge>, start: NodeId, visited: set<NodeId>)
  {
    (forall k :: 0 <= k < |tree| ==> tree[k].source in visited && tree[k].target in visited)
    && (forall v :: v in visited ==> Reachable(tree, false, start, v))
  }

  /** What holds at the head of the `while` loop of hooks/useGraph.ts:705-738. */
  ghost predicate PrimKept(g: Graph, directed: bool, start: NodeId, visited: set<NodeId>,
                           pq: seq<Edge>, tree: seq<Edge>, result: seq<EdgeId>)
  {
    start in visited && visited <= Listed(g.nodes) + {start} + Endpoints(g.edges)
    && |visited| <= |g.nodes| && |tree| + 1 == |visited|
    && Queued(g.edges, pq, visited, directed) && Ordered(pq, WeightKey) && Frontier(g.edges, pq, visited, directed)
    && (forall k :: 0 <= k < |tree| ==> tree[k] in g.edges) && Acyclic(tree) && Grown(tree, start, visited)
    && result == Ids(tree)
  }

  /** A queue sorted again holds the same edges. */
  lemma SortedQueue(es: seq<Edge>, pq: seq<Edge>, visited: set<NodeId>, directed: bool)
    requires Queued(es, pq, visited, directed) && Frontier(es, pq, visited, directed)
    ensures Queued(es, SortBy(pq, WeightKey), visited, directed) && Frontier(es, SortBy(pq, WeightKey), visited, directed)
    ensures Ordered(SortBy(pq, WeightKey), WeightKey)
  {
    SortByOrdered(pq, WeightKey);
    forall e | e in SortBy(pq, WeightKey)
      ensures e in es && (e.source in visited || (!directed && e.target in visited))
    {
      SortByMembers(pq, WeightKey, e);
    }
    forall u, e | u in visited && e in es && Leaves(e, u, visited, directed)
      ensures e in SortBy(pq, WeightKey)
    {
      SortByMembers(pq, WeightKey, e);
    }
  }

  /** The edges the start node leaves by are the queue of a walk that has visited just the start. */
  lemma StartQueued(es: seq<Edge>, directed: bool, start: NodeId)
    ensures Queued(es, Candidates(es, start, {}, directed), {start}, directed)
    ensures Frontier(es, Candidates(es, start, {}, directed), {start}, directed)
  {
    var pq := Candidates(es, start, {}, directed);
    forall e | e in pq
      ensures e in es && (e.source in {start} || (!directed && e.target in {start}))
    {
      CandidatesMembers(es, start, {}, directed, e);
    }
    forall u, e | u in {start} && e in es && Leaves(e, u, {start}, directed)
      ensures e in pq
    {
      CandidatesMembers(es, start, {}, directed, e);
    }
  }

  /** Before the loop: the start visited, the edges leaving it queued and sorted. */
  lemma PrimStart(g: Graph, directed: bool, start: NodeId)
    requires |g.nodes| > 0
    ensures PrimKept(g, directed, start, {start}, SortBy(Candidates(g.edges, start, {}, directed), WeightKey), [], [])
  {
    StartQueued(g.edges, directed, start);
    SortedQueue(g.edges, Candidates(g.edges, start, {}, directed), {start}, directed);
    ReachSelf([], false, start);
  }

  /** Passing over a queued edge whose ends are both visited keeps every edge leaving them queued. */
  lemma FrontierSkip(es: seq<Edge>, pq: seq<Edge>, visited: set<NodeId>, directed: bool)
    requires Frontier(es, pq, visited, directed) && |pq| > 0
    requires pq[0].source in visited && pq[0].target in visited
    ensures Frontier(es, pq[1..], visited, directed)
  {
    forall u, e | u in visited && e in es && Leaves(e, u, visited, directed)
      ensures e in pq[1..]
    {
      assert e in pq && e != pq[0];
      assert pq == [pq[0]] + pq[1..];
    }
  }

  /** Visiting n and queueing the edges that leave it keeps every edge leaving a visited node queued. */
  lemma FrontierGrow(es: seq<Edge>, pq: seq<Edge>, visited: set<NodeId>, directed: bool, n: NodeId)
    requires Frontier(es, pq, visited, directed) && |pq| > 0
    requires pq[0].source in visited + {n} && pq[0].target in visited + {n}
    ensures Frontier(es, pq[1..] + Candidates(es, n, visited + {n}, directed), visited + {n}, directed)
  {
    var visited' := visited + {n};
    forall u, e | u in visited' && e in es && Leaves(e, u, visited', directed)
      ensures e in pq[1..] + Candidates(es, n, visited', directed)
    {
      if u == n {
        CandidatesMembers(es, n, visited', directed, e);
      } else {
        assert Leaves(e, u, visited, directed);
        assert e in pq && e != pq[0];
        assert pq == [pq[0]] + pq[1..];
      }
    }
  }

  /** The queue after n is visited holds graph edges with a visited end. */
  lemma QueuedGrow(es: seq<Edge>, pq: seq<Edge>, visited: set<NodeId>, directed: bool, n: NodeId)
    requires Queued(es, pq, visited, directed) && |pq| > 0
    ensures Queued(es, pq[1..] + Candidates(es, n, visited + {n}, directed), visited + {n}, directed)
  {
    forall e | e in pq[1..] + Candidates(es, n, visited + {n}, directed)
      ensures e in es && (e.source in visited + {n} || (!directed && e.target in visited + {n}))
    {
      CandidatesMembers(es, n, visited + {n}, directed, e);
      if e in pq[1..] {
        assert pq == [pq[0]] + pq[1..];
      }
    }
  }

  /** A node no edge touches reaches nothing but itself. */
  lemma Untouched(tree: seq<Edge>, n: NodeId, v: NodeId)
    requires forall k :: 0 <= k < |tree| ==> tree[k].source != n && tree[k].target != n
    requires Reachable(tree, false, n, v)
    ensures v == n
  {
    forall w
      ensures w !in Adjacent(tree, n, false)
    {
      AdjacentLinked(tree, n, w, false);
    }
    assert Closed(tree, false, {n});
    ClosedHoldsReachable(tree, false, {n}, n);
  }

  /** The nodes the tree's edges join are closed under the tree's adjacency. */
  lemma TreeClosed(tree: seq<Edge>, visited: set<NodeId>)
    requires forall k :: 0 <= k < |tree| ==> tree[k].source in visited && tree[k].target in visited
    ensures Closed(tree, false, visited)
  {
    forall u, w | u in visited && w in Adjacent(tree, u, false)
      ensures w in visited
    {
      AdjacentLinked(tree, u, w, false);
      var e :| e in tree && Joins(e, u, w, false);
      var k :| 0 <= k < |tree| && tree[k] == e;
    }
  }

  /** An edge from a visited node x to a new node n grows the tree without a cycle. */
  lemma TreeGrow(tree: seq<Edge>, start: NodeId, visited: set<NodeId>, e: Edge, x: NodeId, n: NodeId)
    requires Acyclic(tree) && Grown(tree, start, visited)
    requires x in visited && n !in visited && Joins(e, x, n, false)
    ensures Acyclic(tree + [e]) && Grown(tree + [e], start, visited + {n})
  {
    if e.source == n {
      if Reachable(tree, false, n, x) {
        Untouched(tree, n, x);
      }
    } else {
      TreeClosed(tree, visited);
      ClosedHoldsReachable(tree, false, visited, x);
    }
    AcyclicSnoc(tree, e);
    forall v | v in visited + {n}
      ensures Reachable(tree + [e], false, start, v)
    {
      if v == n {
        ReachWider(tree, e, false, start, x);
        ReachAlong(tree, e, x, n);
        ReachTrans(tree + [e], false, start, x, n);
      } else {
        ReachWider(tree, e, false, start, v);
      }
    }
  }

  /** The head of a sorted queue that holds every edge leaving the visited nodes is the lightest such edge. */
  lemma Lightest(es: seq<Edge>, pq: seq<Edge>, visited: set<NodeId>, directed: bool)
    requires Frontier(es, pq, visited, directed) && Ordered(pq, WeightKey) && |pq| > 0
    ensures forall u, f {:trigger Leaves(f, u, visited, directed)} ::
      u in visited && f in es && Leaves(f, u, visited, directed) ==> pq[0].weight <= f.weight
  {
    forall u, f {:trigger Leaves(f, u, visited, directed)} |
      u in visited && f in es && Leaves(f, u, visited, directed)
      ensures pq[0].weight <= f.weight
    {
      var j :| 0 <= j < |pq| && pq[j] == f;
      if j > 0 {
        assert !Below(WeightKey(pq[j]), WeightKey(pq[0]));
      }
    }
  }

  /** Passing over the head of the queue when both its ends are visited keeps the loop's facts. */
  lemma SkipKept(g: Graph, directed: bool, start: NodeId, visited: set<NodeId>, pq: seq<Edge>,
                 tree: seq<Edge>, result: seq<EdgeId>)
    requires PrimKept(g, directed, start, visited, pq, tree, result) && |pq| > 0
    requires pq[0].source in visited && pq[0].target in visited
    ensures PrimKept(g, directed, start, visited, pq[1..], tree, result)
  {
    FrontierSkip(g.edges, pq, visited, directed);
    assert pq == [pq[0]] + pq[1..];
  }

  /** Taking the head of the queue to a new node n and queueing the edges leaving n keeps the loop's facts. */
  lemma GrowKept(g: Graph, directed: bool, start: NodeId, visited: set<NodeId>, pq: seq<Edge>,
                 tree: seq<Edge>, result: seq<EdgeId>, x: NodeId, n: NodeId)
    requires PrimKept(g, directed, start, visited, pq, tree, result) && |pq| > 0 && |visited| < |g.nodes|
    requires x in visited && n !in visited && Joins(pq[0], x, n, false)
    ensures PrimKept(g, directed, start, visited + {n},
                     SortBy(pq[1..] + Candidates(g.edges, n, visited + {n}, directed), WeightKey),
                     tree + [pq[0]], result + [pq[0].id])
  {
    var e := pq[0];
    var pushed := pq[1..] + Candidates(g.edges, n, visited + {n}, directed);
    QueuedGrow(g.edges, pq, visited, directed, n);
    FrontierGrow(g.edges, pq, visited, directed, n);
    SortedQueue(g.edges, pushed, visited + {n}, directed);
    TreeGrow(tree, start, visited, e, x, n);
    IdsSnoc(tree, e);
    assert e in g.edges;
  }

  /**
   * One turn of the loop of hooks/useGraph.ts:705-738: the lightest queued edge is taken off.
   * When both its ends are visited it is passed over; otherwise it joins the tree, its
   * unvisited end is visited, and the edges leaving that end are queued and the queue sorted.
   * A taken edge is the lightest of all edges that leave the visited nodes.
   */
  method PrimStep(g: Graph, directed: bool, start: NodeId, visited: set<NodeId>, pq: seq<Edge>,
                  ghost tree: seq<Edge>, result: seq<EdgeId>)
    returns (visited': set<NodeId>, pq': seq<Edge>, ghost tree': seq<Edge>, result': seq<EdgeId>)
    requires PrimKept(g, directed, start, visited, pq, tree, result) && |pq| > 0 && |visited| < |g.nodes|
    ensures PrimKept(g, directed, start, visited', pq', tree', result')
    ensures visited' == visited ==> pq' == pq[1..] && tree' == tree && result' == result
    ensures visited' != visited ==> |visited'| == |visited| + 1 && tree' == tree + [pq[0]]
    ensures visited' != visited ==>
      forall u, f {:trigger Leaves(f, u, visited, directed)} ::
        u in visited && f in g.edges && Leaves(f, u, visited, directed) ==> pq[0].weight <= f.weight
  {
    var e := pq[0];
    var next := if e.source in visited then e.target else e.source;
    if next in visited {
      SkipKept(g, directed, start, visited, pq, tree, result);
      visited', pq', tree', result' := visited, pq[1..], tree, result;
    } else {
      var x := if e.source in visited then e.source else e.target;
      visited' := visited + {next};
      var pushed := PushCandidates(pq[1..], g.edges, next, visited', directed);
      pq' := SortBy(pushed, WeightKey);
      tree' := tree + [e];
      result' := result + [e.id];
      GrowKept(g, directed, start, visited, pq, tree, result, x, next);
      Lightest(g.edges, pq, visited, directed);
    }
  }

  /**
   * When the loop stops, the tree is made of graph edges, has no cycle and is spanned from the
   * start; and every node reachable from the start is reached along it, for a start that is a
   * node of a well-formed graph without repeated node ids: either no queued edge is left, so no
   * edge leaves the visited nodes, or every node has been visited.
   */
  lemma PrimEnd(g: Graph, directed: bool, start: NodeId, visited: set<NodeId>, pq: seq<Edge>,
                tree: seq<Edge>, result: seq<EdgeId>)
    requires PrimKept(g, directed, start, visited, pq, tree, result) && (pq == [] || |visited| >= |g.nodes|)
    ensures result == Ids(tree) && Acyclic(tree) && |tree| < |g.nodes|
    ensures forall k :: 0 <= k < |tree| ==> tree[k] in g.edges
    ensures forall k :: 0 <= k < |tree| ==> Reachable(tree, false, start, tree[k].source) && Reachable(tree, false, start, tree[k].target)
    ensures WellFormed(g) && NoDup(g.nodes) && start in g.nodes ==>
      forall v :: Reachable(g.edges, directed, start, v) ==> Reachable(tree, false, start, v)
  {
    if WellFormed(g) && NoDup(g.nodes) && start in g.nodes {
      if pq != [] {
        DistinctCount(g.nodes);
        forall v | v in Endpoints(g.edges)
          ensures v in Listed(g.nodes)
        {
        }
        FullSubset(visited, Listed(g.nodes));
      }
      forall u, v | u in visited && v in Adjacent(g.edges, u, directed)
        ensures v in visited
      {
        AdjacentLinked(g.edges, u, v, directed);
        var e :| e in g.edges && Joins(e, u, v, directed);
        if v !in visited {
          assert Leaves(e, u, visited, directed);
        }
      }
      ClosedHoldsReachable(g.edges, directed, visited, start);
    }
  }

  /**
   * `primMST` (hooks/useGraph.ts:669-741): the ids of the tree edges in the order taken. The
   * tree is made of graph edges, has no cycle, has fewer edges than the graph has nodes, and
   * every node reachable from the start in the graph is reached from it along the tree.
   */
  method Prim(g: Graph, directed: bool, start: NodeId) returns (result: seq<EdgeId>, ghost tree: seq<Edge>)
    ensures result == Ids(tree) && Acyclic(tree)
    ensures forall k :: 0 <= k < |tree| ==> tree[k] in g.edges
    ensures |g.nodes| == 0 ==> result == []
    ensures |g.nodes| > 0 ==> |tree| < |g.nodes|
    ensures forall k :: 0 <= k < |tree| ==> Reachable(tree, false, start, tree[k].source) && Reachable(tree, false, start, tree[k].target)
    ensures WellFormed(g) && NoDup(g.nodes) && start in g.nodes ==>
      forall v :: Reachable(g.edges, directed, start, v) ==> Reachable(tree, false, start, v)
  {
    tree := [];
    if |g.nodes| == 0 {
      return [], tree;
    }
    var visited := {start};
    var pq := PushCandidates([], g.edges, start, {}, directed);
    assert pq == Candidates(g.edges, start, {}, directed);
    pq := SortBy(pq, WeightKey);
    result := [];
    PrimStart(g, directed, start);
    while |pq| > 0 && |visited| < |g.nodes|
      invariant PrimKept(g, directed, start, visited, pq, tree, result)
      decreases |g.nodes| - |visited|, |pq|
    {
      visited, pq, tree, result := PrimStep(g, directed, start, visited, pq, tree, result);
    }
    PrimEnd(g, directed, start, visited, pq, tree, result);
  }
}
