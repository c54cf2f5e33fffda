/**
 * Editing the graph (hooks/useGraph.ts:71-110): adding an edge unless an equal one is
 * there, removing a node together with every edge that touches it, removing an edge.
 * Each builds a new graph from the old one.
 */
module GraphEdit {
  import opened GraphCore

  /**
   * `addEdge` (hooks/useGraph.ts:71-89): when an edge source -> target exists, or, in an
   * undirected graph, one target -> source, nothing changes; otherwise a new edge with id
   * `edge-<counter>` is appended and the counter moves on.
   */
  function AddEdge(g: Graph, counter: EdgeId, directed: bool, source: NodeId, target: NodeId, weight: int)
    : (r: (Graph, EdgeId))
    ensures Linked(g.edges, source, target, directed) ==> r == (g, counter)
    ensures !Linked(g.edges, source, target, directed) ==>
      r.0.nodes == g.nodes && r.0.edges == g.edges + [Edge(counter, source, target, weight)] && r.1 == counter + 1
  {
    if exists e :: e in g.edges && ((e.source == source && e.target == target) || (!directed && e.target == source && e.source == target))
    then (g, counter)
    else (Graph(g.nodes, g.edges + [Edge(counter, source, target, weight)]), counter + 1)
  }

  /** The nodes other than id, in their order (`nodes.filter((node) => node.id !== id)`). */
  function WithoutNode(ns: seq<NodeId>, id: NodeId): (r: seq<NodeId>)
    ensures forall v :: v in r <==> v in ns && v != id
  {
    if ns == [] then []
    else WithoutNode(ns[..|ns| - 1], id) + (if ns[|ns| - 1] != id then [ns[|ns| - 1]] else [])
  }

  /** The edges that do not touch id, in their order. */
  function Untouched(es: seq<Edge>, id: NodeId): (r: seq<Edge>)
    ensures forall e :: e in r <==> e in es && e.source != id && e.target != id
  {
    if es == [] then []
    else
      var e := es[|es| - 1];
      Untouched(es[..|es| - 1], id) + (if e.source != id && e.target != id then [e] else [])
  }

  /** The edges other than the one with the given id, in their order. */
  function WithoutEdge(es: seq<Edge>, id: EdgeId): (r: seq<Edge>)
    ensures forall e :: e in r <==> e in es && e.id != id
  {
    if es == [] then []
    else WithoutEdge(es[..|es| - 1], id) + (if es[|es| - 1].id != id then [es[|es| - 1]] else [])
  }

  /** `removeNode` (hooks/useGraph.ts:92-103): drop the node and every edge touching it. */
  function RemoveNode(g: Graph, id: NodeId): (r: Graph)
    ensures id !in r.nodes && forall e :: e in r.edges ==> e.source != id && e.target != id
    ensures forall v :: v in r.nodes <==> v in g.nodes && v != id
    ensures forall e :: e in r.edges <==> e in g.edges && e.source != id && e.target != id
  {
    Graph(WithoutNode(g.nodes, id), Untouched(g.edges, id))
  }

  /** `removeEdge` (hooks/useGraph.ts:106-110): drop the edge with the given id; the nodes stay. */
  function RemoveEdge(g: Graph, id: EdgeId): (r: Graph)
    ensures r.nodes == g.nodes
    ensures forall e :: e in r.edges <==> e in g.edges && e.id != id
  {
    Graph(g.nodes, WithoutEdge(g.edges, id))
  }

  /** After `addEdge` the two nodes are linked, whether or not an edge was added. */
  lemma AddEdgeLinks(g: Graph, counter: EdgeId, directed: bool, source: NodeId, target: NodeId, weight: int)
    ensures Linked(AddEdge(g, counter, directed, source, target, weight).0.edges, source, target, directed)
  {
    var r := AddEdge(g, counter, directed, source, target, weight);
    if !Linked(g.edges, source, target, directed) {
      assert Edge(counter, source, target, weight) in r.0.edges;
    }
  }

  /** Adding the same edge twice is the same as adding it once. */
  lemma AddEdgeIdempotent(g: Graph, counter: EdgeId, directed: bool, source: NodeId, target: NodeId, weight: int, weight': int)
    ensures var r := AddEdge(g, counter, directed, source, target, weight);
      AddEdge(r.0, r.1, directed, source, target, weight') == r
  {
    AddEdgeLinks(g, counter, directed, source, target, weight);
  }

  /** In a graph without the reverse-edge rule, adding u -> v never blocks adding v -> u. */
  lemma AddEdgeDirectedReverse(g: Graph, counter: EdgeId, u: NodeId, v: NodeId, weight: int)
    requires u != v && !Linked(g.edges, v, u, true)
    ensures var r := AddEdge(g, counter, true, u, v, weight);
      !Linked(r.0.edges, v, u, true)
  {
  }

  /** Edges added between existing nodes keep every edge between existing nodes. */
  lemma AddEdgeWellFormed(g: Graph, counter: EdgeId, directed: bool, source: NodeId, target: NodeId, weight: int)
    requires WellFormed(g) && source in g.nodes && target in g.nodes
    ensures WellFormed(AddEdge(g, counter, directed, source, target, weight).0)
  {
  }

  /** Removing a node keeps every edge between existing nodes: the cascade leaves no dangling edge. */
  lemma RemoveNodeWellFormed(g: Graph, id: NodeId)
    requires WellFormed(g)
    ensures WellFormed(RemoveNode(g, id))
  {
  }

  /** Every edge id lies below the counter, as when every edge came from `addEdge`. */
  predicate FreshBelow(g: Graph, counter: EdgeId)
  {
    forall e :: e in g.edges ==> e.id < counter
  }

  /** Removing a just-added edge by its id undoes the addition. */
  lemma {:induction false} RemoveAddedEdge(g: Graph, counter: EdgeId, directed: bool, source: NodeId, target: NodeId, weight: int)
    requires FreshBelow(g, counter) && !Linked(g.edges, source, target, directed)
    ensures RemoveEdge(AddEdge(g, counter, directed, source, target, weight).0, counter) == g
  {
    var es := g.edges + [Edge(counter, source, target, weight)];
    assert es[..|es| - 1] == g.edges;
    WithoutFreshEdge(g.edges, counter);
  }

  /** Removing an id no edge carries changes nothing. */
  lemma {:induction false} WithoutFreshEdge(es: seq<Edge>, id: EdgeId)
    requires forall e :: e in es ==> e.id < id
    ensures WithoutEdge(es, id) == es
    decreases |es|
  {
    if es != [] {
      assert es[|es| - 1] in es;
      WithoutFreshEdge(es[..|es| - 1], id);
      assert es == es[..|es| - 1] + [es[|es| - 1]];
    }
  }

  /** Removing a node that is absent and touched by no edge changes nothing. */
  lemma {:induction false} RemoveAbsentNode(g: Graph, id: NodeId)
    requires id !in g.nodes && forall e :: e in g.edges ==> e.source != id && e.target != id
    ensures RemoveNode(g, id) == g
  {
    WithoutAbsent(g.nodes, id);
    UntouchedAll(g.edges, id);
  }

  lemma {:induction false} WithoutAbsent(ns: seq<NodeId>, id: NodeId)
    requires id !in ns
    ensures WithoutNode(ns, id) == ns
    decreases |ns|
  {
    if ns != [] {
      WithoutAbsent(ns[..|ns| - 1], id);
      assert ns == ns[..|ns| - 1] + [ns[|ns| - 1]];
    }
  }

  lemma {:induction false} UntouchedAll(es: seq<Edge>, id: NodeId)
    requires forall e :: e in es ==> e.source != id && e.target != id
    ensures Untouched(es, id) == es
    decreases |es|
  {
    if es != [] {
      assert es[|es| - 1] in es;
      UntouchedAll(es[..|es| - 1], id);
      assert es == es[..|es| - 1] + [es[|es| - 1]];
    }
  }
}
