/**
 * `findSCC` of hooks/useGraph.ts:744-813, Kosaraju's two passes. The first pass runs a
 * depth-first search along outgoing edges from every node in node order and pushes each node
 * on a stack when it finishes. The second pass pops the stack and, from every popped node not
 * yet claimed, runs a depth-first search along edges backwards, claiming a component; the
 * components' nodes are listed one component after the other.
 */
module GraphScc {
  import opened GraphCore
  import opened GraphVisit

  /** Every edge turned around, so that following it forwards goes backwards in es. */
  function Transposed(es: seq<Edge>): (r: seq<Edge>)
    ensures |r| == |es|
    ensures forall k :: 0 <= k < |es| ==> r[k] == Edge(es[k].id, es[k].target, es[k].source, es[k].weight)
  {
    seq(|es|, k requires 0 <= k < |es| => Edge(es[k].id, es[k].target, es[k].source, es[k].weight))
  }

  /**
   * The neighbours in the transposed edges are the sources of the edges that enter a node
   * (the `filter`/`map` of hooks/useGraph.ts:773-775): v is one for u exactly when es has
   * an edge from v to u.
   */
  lemma TransposedAdjacent(es: seq<Edge>, u: NodeId, v: NodeId)
    ensures v in Adjacent(Transposed(es), u, true) <==> u in Adjacent(es, v, true)
  {
    var T := Transposed(es);
    AdjacentLinked(T, u, v, true);
    AdjacentLinked(es, v, u, true);
    if Linked(T, u, v, true) {
      var e :| e in T && Joins(e, u, v, true);
      var k :| 0 <= k < |T| && T[k] == e;
      assert es[k] in es && Joins(es[k], v, u, true);
    }
    if Linked(es, v, u, true) {
      var e :| e in es && Joins(e, v, u, true);
      var k :| 0 <= k < |es| && es[k] == e;
      assert T[k] in T && Joins(T[k], u, v, true);
    }
  }

  /** Turning the edges around names the same ids. */
  lemma TransposedEndpoints(es: seq<Edge>)
    ensures Endpoints(Transposed(es)) == Endpoints(es)
  {
    var T := Transposed(es);
    forall v | v in Endpoints(T)
      ensures v in Endpoints(es)
    {
      var e :| e in T && (e.source == v || e.target == v);
      var k :| 0 <= k < |T| && T[k] == e;
      assert es[k] in es;
    }
    forall v | v in Endpoints(es)
      ensures v in Endpoints(T)
    {
      var e :| e in es && (e.source == v || e.target == v);
      var k :| 0 <= k < |es| && es[k] == e;
      assert T[k] in T;
    }
  }

  /**
   * What calls of `fillOrder` leave behind: more nodes marked, all inside U, and the stack
   * lists once each the nodes it listed before together with those newly marked.
   */
  ghost predicate Filled(U: set<NodeId>, visited0: set<NodeId>, pos0: map<NodeId, nat>,
                         visited: set<NodeId>, stack: seq<NodeId>, pos: map<NodeId, nat>)
  {
    visited0 <= visited <= U && Indexed(stack, pos) && pos.Keys == pos0.Keys + (visited - visited0)
  }

  /**
   * `fillOrder` (hooks/useGraph.ts:750-765) on an unmarked node u: mark u, visit each unmarked
   * target of u's outgoing edges in edge order, then push u. u finishes on top of the stack.
   */
  method FillOrder(es: seq<Edge>, u: NodeId, ghost U: set<NodeId>, visited0: set<NodeId>,
                   stack0: seq<NodeId>, ghost pos0: map<NodeId, nat>)
    returns (visited: set<NodeId>, stack: seq<NodeId>, ghost pos: map<NodeId, nat>)
    requires Endpoints(es) <= U && u in U && visited0 <= U && u !in visited0
    requires Indexed(stack0, pos0) && pos0.Keys <= visited0
    ensures Filled(U, visited0, pos0, visited, stack, pos) && u in visited
    ensures |stack| > 0 && stack[|stack| - 1] == u
    decreases |U - visited0|, 0
  {
    GrowShrinks(U, visited0, u);
    var adj := Adjacent(es, u, true);
    AdjacentInEndpoints(es, u, true);
    visited, stack, pos := FillNeighbours(es, adj, U, visited0 + {u}, stack0, pos0);
    IndexedSnoc(stack, pos, u);
    stack, pos := stack + [u], pos[u := |stack|];
  }

  /** The `for` of `fillOrder` (hooks/useGraph.ts:758-762): each unmarked neighbour is visited. */
  method FillNeighbours(es: seq<Edge>, adj: seq<NodeId>, ghost U: set<NodeId>, visited0: set<NodeId>,
                        stack0: seq<NodeId>, ghost pos0: map<NodeId, nat>)
    returns (visited: set<NodeId>, stack: seq<NodeId>, ghost pos: map<NodeId, nat>)
    requires Endpoints(es) <= U && visited0 <= U && Indexed(stack0, pos0) && pos0.Keys <= visited0
    requires forall k :: 0 <= k < |adj| ==> adj[k] in U
    ensures Filled(U, visited0, pos0, visited, stack, pos)
    ensures forall k :: 0 <= k < |adj| ==> adj[k] in visited
    decreases |U - visited0|, 1
  {
    visited, stack, pos := visited0, stack0, pos0;
    for i := 0 to |adj|
      invariant Filled(U, visited0, pos0, visited, stack, pos)
      invariant forall k :: 0 <= k < i ==> adj[k] in visited
    {
      if adj[i] !in visited {
        CoverShrinks(U, visited0, visited);
        ghost var visited1 := visited;
        visited, stack, pos := FillOrder(es, adj[i], U, visited, stack, pos);
        PrefixCovered(adj, i, visited1, visited);
      }
    }
  }

  /** Every node of S reaches the root along edges. */
  ghost predicate ToRoot(es: seq<Edge>, root: NodeId, S: set<NodeId>)
  {
    forall v :: v in S ==> Reachable(es, true, v, root)
  }

  /**
   * What calls of `dfsUtil` leave behind: more nodes marked, all inside U; the nodes listed
   * before the component followed by the component list the marked nodes once each; the
   * component only grows at its end; and every node marked since the component was started
   * reaches its root.
   */
  ghost predicate Claimed(es: seq<Edge>, root: NodeId, U: set<NodeId>, done: seq<NodeId>, visitedC: set<NodeId>,
                          visited0: set<NodeId>, comp0: seq<NodeId>,
                          visited: set<NodeId>, comp: seq<NodeId>, pos: map<NodeId, nat>)
  {
    visited0 <= visited <= U && Indexed(done + comp, pos) && pos.Keys == visited
    && |comp0| <= |comp| && comp[..|comp0|] == comp0 && ToRoot(es, root, visited - visitedC)
  }

  /** The backward neighbours of a node that reaches the root lie in U and reach the root too. */
  lemma Backwards(es: seq<Edge>, root: NodeId, U: set<NodeId>, u: NodeId, adj: seq<NodeId>)
    requires Endpoints(es) <= U && Reachable(es, true, u, root) && adj == Adjacent(Transposed(es), u, true)
    ensures forall k :: 0 <= k < |adj| ==> adj[k] in U
    ensures forall k {:trigger adj[k]} :: 0 <= k < |adj| ==> Reachable(es, true, adj[k], root)
  {
    TransposedEndpoints(es);
    AdjacentInEndpoints(Transposed(es), u, true);
    forall k | 0 <= k < |adj|
      ensures Reachable(es, true, adj[k], root)
    {
      TransposedAdjacent(es, u, adj[k]);
      ReachSelf(es, true, adj[k]);
      ReachStep(es, true, adj[k], adj[k], u);
      ReachTrans(es, true, adj[k], u, root);
    }
  }

  /**
   * `dfsUtil` (hooks/useGraph.ts:768-782) on an unmarked node u that reaches the root: mark u,
   * add it to the component, then visit each unmarked source of an edge entering u, in edge
   * order.
   */
  method DfsUtil(es: seq<Edge>, u: NodeId, ghost root: NodeId, ghost U: set<NodeId>, visited0: set<NodeId>,
                 comp0: seq<NodeId>, ghost done: seq<NodeId>, ghost visitedC: set<NodeId>, ghost pos0: map<NodeId, nat>)
    returns (visited: set<NodeId>, comp: seq<NodeId>, ghost pos: map<NodeId, nat>)
    requires Endpoints(es) <= U && u in U && visited0 <= U && u !in visited0
    requires Indexed(done + comp0, pos0) && pos0.Keys == visited0
    requires Reachable(es, true, u, root) && ToRoot(es, root, visited0 - visitedC)
    ensures Claimed(es, root, U, done, visitedC, visited0, comp0, visited, comp, pos)
    ensures u in visited && |comp| > |comp0| && comp[|comp0|] == u
    decreases |U - visited0|, 0
  {
    GrowShrinks(U, visited0, u);
    IndexedSnoc(done + comp0, pos0, u);
    assert (done + comp0) + [u] == done + (comp0 + [u]);
    var adj := Adjacent(Transposed(es), u, true);
    Backwards(es, root, U, u, adj);
    visited, comp, pos := ClaimNeighbours(es, adj, root, U, visited0 + {u}, comp0 + [u], done, visitedC,
                                          pos0[u := |done + comp0|]);
    assert comp[..|comp0| + 1] == comp0 + [u];
    assert comp[..|comp0|] == comp[..|comp0| + 1][..|comp0|];
  }

  /** The `for` of `dfsUtil` (hooks/useGraph.ts:777-781): each unmarked backward neighbour is visited. */
  method ClaimNeighbours(es: seq<Edge>, adj: seq<NodeId>, ghost root: NodeId, ghost U: set<NodeId>,
                         visited0: set<NodeId>, comp0: seq<NodeId>, ghost done: seq<NodeId>,
                         ghost visitedC: set<NodeId>, ghost pos0: map<NodeId, nat>)
    returns (visited: set<NodeId>, comp: seq<NodeId>, ghost pos: map<NodeId, nat>)
    requires Endpoints(es) <= U && visited0 <= U && Indexed(done + comp0, pos0) && pos0.Keys == visited0
    requires forall k :: 0 <= k < |adj| ==> adj[k] in U
    requires forall k {:trigger adj[k]} :: 0 <= k < |adj| ==> Reachable(es, true, adj[k], root)
    requires ToRoot(es, root, visited0 - visitedC)
    ensures Claimed(es, root, U, done, visitedC, visited0, comp0, visited, comp, pos)
    decreases |U - visited0|, 1
  {
    visited, comp, pos := visited0, comp0, pos0;
    for i := 0 to |adj|
      invariant Claimed(es, root, U, done, visitedC, visited0, comp0, visited, comp, pos)
    {
      if adj[i] !in visited {
        CoverShrinks(U, visited0, visited);
        ghost var comp1 := comp;
        visited, comp, pos := DfsUtil(es, adj[i], root, U, visited, comp, done, visitedC, pos);
        assert comp[..|comp0|] == comp[..|comp1|][..|comp0|];
      }
    }
  }

  /** The components one after the other. */
  function Flatten(comps: seq<seq<NodeId>>): (r: seq<NodeId>)
    decreases |comps|
  {
    if comps == [] then [] else Flatten(comps[..|comps| - 1]) + comps[|comps| - 1]
  }

  /** Every component is non-empty, and each of its nodes reaches its first node, the root it was claimed from. */
  ghost predicate Components(es: seq<Edge>, comps: seq<seq<NodeId>>)
  {
    forall i :: 0 <= i < |comps| ==> |comps[i]| > 0 && forall v :: v in comps[i] ==> Reachable(es, true, v, comps[i][0])
  }

  /**
   * The second pass so far: the marked nodes lie inside U and are listed once each in the
   * result, which is the claimed components one after the other.
   */
  ghost predicate Listing(es: seq<Edge>, U: set<NodeId>, visited: set<NodeId>, result: seq<NodeId>,
                          rpos: map<NodeId, nat>, comps: seq<seq<NodeId>>)
  {
    visited <= U && Indexed(result, rpos) && rpos.Keys == visited && result == Flatten(comps) && Components(es, comps)
  }

  /** No node of a component listed after done was listed in done. */
  lemma CompFresh(done: seq<NodeId>, comp: seq<NodeId>, pos: map<NodeId, nat>)
    requires Indexed(done + comp, pos)
    ensures forall v :: v in comp ==> v !in done
  {
    forall v | v in comp
      ensures v !in done
    {
      var j :| 0 <= j < |comp| && comp[j] == v;
      assert (done + comp)[|done| + j] == v;
      forall i | 0 <= i < |done|
        ensures done[i] != v
      {
        assert (done + comp)[i] == done[i];
      }
    }
  }

  /**
   * A popped node not yet marked (hooks/useGraph.ts:796-810): a new component is claimed from
   * it by `dfsUtil` and its nodes are pushed onto the result in the order they were added.
   */
  method Claim(es: seq<Edge>, root: NodeId, ghost U: set<NodeId>, visited0: set<NodeId>, result0: seq<NodeId>,
               ghost rpos0: map<NodeId, nat>, ghost comps0: seq<seq<NodeId>>)
    returns (visited: set<NodeId>, result: seq<NodeId>, ghost rpos: map<NodeId, nat>, ghost comps: seq<seq<NodeId>>)
    requires Endpoints(es) <= U && root in U && root !in visited0 && Listing(es, U, visited0, result0, rpos0, comps0)
    ensures Listing(es, U, visited, result, rpos, comps) && visited0 + {root} <= visited
  {
    ReachSelf(es, true, root);
    assert result0 + [] == result0;
    var component;
    visited, component, rpos := DfsUtil(es, root, root, U, visited0, [], result0, visited0, rpos0);
    result := result0;
    for j := 0 to |component|
      invariant result == result0 + component[..j]
    {
      assert component[..j + 1] == component[..j] + [component[j]];
      result := result + [component[j]];
    }
    assert component[..|component|] == component;
    IndexedMembers(result0, rpos0);
    IndexedMembers(result0 + component, rpos);
    CompFresh(result0, component, rpos);
    forall v | v in component
      ensures Reachable(es, true, v, component[0])
    {
      assert v in result0 + component;
    }
    ComponentsSnoc(es, comps0, component);
    comps := comps0 + [component];
    assert comps[..|comps| - 1] == comps0;
  }

  /** A claimed component whose nodes reach its first node can follow the others. */
  lemma ComponentsSnoc(es: seq<Edge>, comps: seq<seq<NodeId>>, comp: seq<NodeId>)
    requires Components(es, comps) && |comp| > 0 && forall v :: v in comp ==> Reachable(es, true, v, comp[0])
    ensures Components(es, comps + [comp])
  {
  }

  /**
   * `findSCC` (hooks/useGraph.ts:744-813). The first pass marks every node and every node
   * reachable from one, pushing each once; after the marks are cleared the second pass pops
   * every pushed node and claims a component from each one still unmarked. The result is
   * the components one after the other: it lists no node twice, lists every node of the
   * graph, and lists nothing but nodes and edge endpoints; every node of a component reaches
   * the component's first node.
   */
  method FindScc(g: Graph) returns (result: seq<NodeId>, ghost comps: seq<seq<NodeId>>)
    ensures result == Flatten(comps) && Components(g.edges, comps) && NoDup(result)
    ensures forall v :: v in g.nodes ==> v in result
    ensures forall v :: v in result ==> v in g.nodes || v in Endpoints(g.edges)
  {
    var es := g.edges;
    ghost var U := Listed(g.nodes) + Endpoints(es);
    var visited: set<NodeId> := {};
    var stack: seq<NodeId> := [];
    ghost var pos: map<NodeId, nat> := map[];
    for i := 0 to |g.nodes|
      invariant Filled(U, {}, map[], visited, stack, pos)
      invariant forall k :: 0 <= k < i ==> g.nodes[k] in visited
    {
      if g.nodes[i] !in visited {
        visited, stack, pos := FillOrder(es, g.nodes[i], U, visited, stack, pos);
      }
    }
    ghost var stack1, visited1 := stack, visited;
    visited := {};
    result := [];
    ghost var rpos: map<NodeId, nat> := map[];
    comps := [];
    while |stack| > 0
      invariant |stack| <= |stack1| && stack == stack1[..|stack|]
      invariant forall k :: |stack| <= k < |stack1| ==> stack1[k] in visited
      invariant Listing(es, U, visited, result, rpos, comps)
    {
      var nodeId := stack[|stack| - 1];
      stack := stack[..|stack| - 1];
      if nodeId !in visited {
        visited, result, rpos, comps := Claim(es, nodeId, U, visited, result, rpos, comps);
      }
    }
    IndexedNoDup(result, rpos);
    IndexedMembers(result, rpos);
    IndexedMembers(stack1, pos);
    forall v | v in g.nodes
      ensures v in result
    {
      assert v in visited1 && v in stack1;
      var k :| 0 <= k < |stack1| && stack1[k] == v;
    }
  }
}
