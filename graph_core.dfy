/**
 * The graph of hooks/useGraph.ts: a list of nodes and a list of edges that name their
 * endpoints by node id. Node ids `node-k` and edge ids `edge-k` are modelled by their
 * counter value k. Coordinates and labels only place and name a node on the canvas and
 * are left out.
 */
module GraphCore {
  import opened JsSort

  type NodeId = nat
  type EdgeId = nat

  datatype Edge = Edge(id: EdgeId, source: NodeId, target: NodeId, weight: int)

  datatype Graph = Graph(nodes: seq<NodeId>, edges: seq<Edge>)

  /** Every edge joins two nodes of the graph. */
  predicate WellFormed(g: Graph)
  {
    forall e :: e in g.edges ==> e.source in g.nodes && e.target in g.nodes
  }

  /** The weight of an edge as a sort key, for the sorts by `a.weight - b.weight`. */
  function WeightKey(e: Edge): Key
  {
    Fin(e.weight)
  }

  /** No entry occurs twice. */
  predicate NoDup<T(==)>(s: seq<T>)
  {
    forall i, j :: 0 <= i < j < |s| ==> s[i] != s[j]
  }

  /**
   * The neighbours of u in edge order (the `filter`/`map` of hooks/useGraph.ts:505-512):
   * the target of every edge leaving u and, when the graph is undirected, the source of
   * every edge entering u.
   */
  function Adjacent(es: seq<Edge>, u: NodeId, directed: bool): (r: seq<NodeId>)
    ensures |r| <= |es|
  {
    AdjacentIn(es, |es|, u, directed)
  }

  /** The neighbours of u that the first n edges contribute. */
  function AdjacentIn(es: seq<Edge>, n: nat, u: NodeId, directed: bool): (r: seq<NodeId>)
    requires n <= |es|
    ensures |r| <= n
  {
    if n == 0 then []
    else
      var e := es[n - 1];
      AdjacentIn(es, n - 1, u, directed)
      + (if e.source == u then [e.target] else if !directed && e.target == u then [e.source] else [])
  }

  /** Edge e joins u to v, in either direction when the graph is undirected. */
  predicate Joins(e: Edge, u: NodeId, v: NodeId, directed: bool)
  {
    (e.source == u && e.target == v) || (!directed && e.target == u && e.source == v)
  }

  /** There is an edge u -> v, or v -> u when the graph is undirected. */
  predicate Linked(es: seq<Edge>, u: NodeId, v: NodeId, directed: bool)
  {
    exists e :: e in es && Joins(e, u, v, directed)
  }

  /** The neighbours contributed by the first n edges are those some of them joins to u. */
  lemma {:induction false} AdjacentInJoins(es: seq<Edge>, n: nat, u: NodeId, v: NodeId, directed: bool)
    requires n <= |es|
    ensures v in AdjacentIn(es, n, u, directed) <==> exists k :: 0 <= k < n && Joins(es[k], u, v, directed)
  {
    if n > 0 {
      AdjacentInJoins(es, n - 1, u, v, directed);
      if exists k :: 0 <= k < n && Joins(es[k], u, v, directed) {
        var k :| 0 <= k < n && Joins(es[k], u, v, directed);
        if k < n - 1 {
          assert v in AdjacentIn(es, n - 1, u, directed);
        }
      }
    }
  }

  /** The neighbours are exactly the nodes linked to u. */
  lemma AdjacentLinked(es: seq<Edge>, u: NodeId, v: NodeId, directed: bool)
    ensures v in Adjacent(es, u, directed) <==> Linked(es, u, v, directed)
  {
    AdjacentInJoins(es, |es|, u, v, directed);
    if Linked(es, u, v, directed) {
      var e :| e in es && Joins(e, u, v, directed);
      var k :| 0 <= k < |es| && es[k] == e;
      assert Joins(es[k], u, v, directed);
    }
  }

  /** Every id an edge names. */
  function Endpoints(es: seq<Edge>): set<NodeId>
  {
    (set e | e in es :: e.source) + (set e | e in es :: e.target)
  }

  /** A neighbour is always an id some edge names. */
  lemma AdjacentInEndpoints(es: seq<Edge>, u: NodeId, directed: bool)
    ensures forall v :: v in Adjacent(es, u, directed) ==> v in Endpoints(es)
  {
    forall v | v in Adjacent(es, u, directed)
      ensures v in Endpoints(es)
    {
      AdjacentLinked(es, u, v, directed);
    }
  }

  /** A walk: every node after the first is a neighbour of the one before. */
  ghost predicate Walk(es: seq<Edge>, directed: bool, p: seq<NodeId>)
    decreases |p|
  {
    |p| <= 1 || (Walk(es, directed, p[..|p| - 1]) && p[|p| - 1] in Adjacent(es, p[|p| - 2], directed))
  }

  /** b can be reached from a by following edges (in either direction when undirected). */
  ghost predicate Reachable(es: seq<Edge>, directed: bool, a: NodeId, b: NodeId)
  {
    exists p {:trigger Walk(es, directed, p)} :: |p| > 0 && p[0] == a && p[|p| - 1] == b && Walk(es, directed, p)
  }

  /** Every node reaches itself. */
  lemma ReachSelf(es: seq<Edge>, directed: bool, a: NodeId)
    ensures Reachable(es, directed, a, a)
  {
    assert Walk(es, directed, [a]);
  }

  /** A neighbour of a reachable node is reachable. */
  lemma ReachStep(es: seq<Edge>, directed: bool, a: NodeId, u: NodeId, v: NodeId)
    requires Reachable(es, directed, a, u) && v in Adjacent(es, u, directed)
    ensures Reachable(es, directed, a, v)
  {
    var p :| |p| > 0 && p[0] == a && p[|p| - 1] == u && Walk(es, directed, p);
    var q := p + [v];
    assert q[..|q| - 1] == p;
    assert Walk(es, directed, q);
  }

  /** Every neighbour of a reachable node is reachable. */
  lemma ReachNeighbours(es: seq<Edge>, directed: bool, a: NodeId, u: NodeId)
    requires Reachable(es, directed, a, u)
    ensures forall v :: v in Adjacent(es, u, directed) ==> Reachable(es, directed, a, v)
  {
    forall v | v in Adjacent(es, u, directed)
      ensures Reachable(es, directed, a, v)
    {
      ReachStep(es, directed, a, u, v);
    }
  }

  /** Following a walk from a node reachable from a stays reachable from a. */
  lemma {:induction false} WalkReach(es: seq<Edge>, directed: bool, a: NodeId, p: seq<NodeId>)
    requires |p| > 0 && Reachable(es, directed, a, p[0]) && Walk(es, directed, p)
    ensures Reachable(es, directed, a, p[|p| - 1])
    decreases |p|
  {
    if |p| > 1 {
      var p' := p[..|p| - 1];
      WalkReach(es, directed, a, p');
      ReachStep(es, directed, a, p'[|p'| - 1], p[|p| - 1]);
    }
  }

  /** Reachability is transitive. */
  lemma ReachTrans(es: seq<Edge>, directed: bool, a: NodeId, b: NodeId, c: NodeId)
    requires Reachable(es, directed, a, b) && Reachable(es, directed, b, c)
    ensures Reachable(es, directed, a, c)
  {
    var p :| |p| > 0 && p[0] == b && p[|p| - 1] == c && Walk(es, directed, p);
    WalkReach(es, directed, a, p);
  }

  /** A walk along some edges is a walk along those edges and one more. */
  lemma {:induction false} WalkWider(es: seq<Edge>, e: Edge, directed: bool, p: seq<NodeId>)
    requires Walk(es, directed, p)
    ensures Walk(es + [e], directed, p)
    decreases |p|
  {
    if |p| > 1 {
      var u, v := p[|p| - 2], p[|p| - 1];
      WalkWider(es, e, directed, p[..|p| - 1]);
      AdjacentLinked(es, u, v, directed);
      AdjacentLinked(es + [e], u, v, directed);
      var x :| x in es && Joins(x, u, v, directed);
      assert x in es + [e];
    }
  }

  /** One more edge keeps every node reachable that was. */
  lemma ReachWider(es: seq<Edge>, e: Edge, directed: bool, a: NodeId, b: NodeId)
    requires Reachable(es, directed, a, b)
    ensures Reachable(es + [e], directed, a, b)
  {
    var p :| |p| > 0 && p[0] == a && p[|p| - 1] == b && Walk(es, directed, p);
    WalkWider(es, e, directed, p);
  }

  /** Along an undirected edge each endpoint reaches the other. */
  lemma ReachAlong(es: seq<Edge>, e: Edge, u: NodeId, v: NodeId)
    requires Joins(e, u, v, false)
    ensures Reachable(es + [e], false, u, v)
  {
    AdjacentLinked(es + [e], u, v, false);
    assert e in es + [e];
    ReachSelf(es + [e], false, u);
    ReachStep(es + [e], false, u, u, v);
  }

  /** The ids of a list of edges. */
  function Ids(es: seq<Edge>): (r: seq<EdgeId>)
    ensures |r| == |es| && forall k :: 0 <= k < |es| ==> r[k] == es[k].id
  {
    seq(|es|, k requires 0 <= k < |es| => es[k].id)
  }

  /** Pushing an edge pushes its id. */
  lemma IdsSnoc(es: seq<Edge>, e: Edge)
    ensures Ids(es + [e]) == Ids(es) + [e.id]
  {
    assert forall k :: 0 <= k < |es| + 1 ==> Ids(es + [e])[k] == (Ids(es) + [e.id])[k];
  }

  /** No edge of the tree joins two ids that the edges before it already connect. */
  ghost predicate Acyclic(tree: seq<Edge>)
  {
    forall k :: 0 <= k < |tree| ==> !Reachable(tree[..k], false, tree[k].source, tree[k].target)
  }

  /** Adding an edge between two nodes the tree does not yet connect keeps it acyclic. */
  lemma AcyclicSnoc(tree: seq<Edge>, e: Edge)
    requires Acyclic(tree) && !Reachable(tree, false, e.source, e.target)
    ensures Acyclic(tree + [e])
  {
    var tree' := tree + [e];
    forall k | 0 <= k < |tree'|
      ensures !Reachable(tree'[..k], false, tree'[k].source, tree'[k].target)
    {
      assert tree'[..k] == tree[..k] || k == |tree|;
      if k == |tree| {
        assert tree'[..k] == tree;
      }
    }
  }

  /** Every member of S can be reached from a. */
  ghost predicate ReachAll(es: seq<Edge>, directed: bool, a: NodeId, S: set<NodeId>)
  {
    forall v {:trigger Reachable(es, directed, a, v)} :: v in S ==> Reachable(es, directed, a, v)
  }

  /** Adding a reachable node keeps every member reachable. */
  lemma ReachAllAdd(es: seq<Edge>, directed: bool, a: NodeId, S: set<NodeId>, v: NodeId)
    requires ReachAll(es, directed, a, S) && Reachable(es, directed, a, v)
    ensures ReachAll(es, directed, a, S + {v})
  {
  }

  /** A set holding every neighbour of each of its members is closed under adjacency. */
  ghost predicate Closed(es: seq<Edge>, directed: bool, S: set<NodeId>)
  {
    forall u, v {:trigger v in Adjacent(es, u, directed)} :: u in S && v in Adjacent(es, u, directed) ==> v in S
  }

  /** A walk that starts inside a closed set never leaves it. */
  lemma {:induction false} WalkStaysIn(es: seq<Edge>, directed: bool, S: set<NodeId>, p: seq<NodeId>)
    requires Closed(es, directed, S) && Walk(es, directed, p) && |p| > 0 && p[0] in S
    ensures p[|p| - 1] in S
    decreases |p|
  {
    if |p| > 1 {
      var p' := p[..|p| - 1];
      WalkStaysIn(es, directed, S, p');
      assert p'[|p'| - 1] == p[|p| - 2];
    }
  }

  /** A closed set holding a contains every node reachable from a. */
  lemma ClosedHoldsReachable(es: seq<Edge>, directed: bool, S: set<NodeId>, a: NodeId)
    requires Closed(es, directed, S) && a in S
    ensures forall b :: Reachable(es, directed, a, b) ==> b in S
  {
    forall b | Reachable(es, directed, a, b)
      ensures b in S
    {
      var p :| |p| > 0 && p[0] == a && p[|p| - 1] == b && Walk(es, directed, p);
      WalkStaysIn(es, directed, S, p);
    }
  }

  /** Adding a new member of a finite universe leaves less of it uncovered. */
  lemma GrowShrinks(U: set<NodeId>, A: set<NodeId>, x: NodeId)
    requires A <= U && x in U && x !in A
    ensures |U - (A + {x})| < |U - A|
  {
    assert U - A == (U - (A + {x})) + {x};
  }

  /** The ids a list holds. */
  function Listed(s: seq<NodeId>): (r: set<NodeId>)
    ensures forall v :: v in r <==> v in s
  {
    set v | v in s
  }

  /** A list without repeats has as many distinct members as entries. */
  lemma {:induction false} DistinctCount(s: seq<NodeId>)
    requires NoDup(s)
    ensures |Listed(s)| == |s|
    decreases |s|
  {
    if s == [] {
      assert Listed(s) == {};
    } else {
      var t := s[..|s| - 1];
      var x := s[|s| - 1];
      assert NoDup(t);
      DistinctCount(t);
      assert Listed(s) == Listed(t) + {x};
      assert x !in t;
    }
  }

  /** A subset with as many members as the whole is the whole. */
  lemma FullSubset(A: set<NodeId>, B: set<NodeId>)
    requires A <= B && |A| >= |B|
    ensures A == B
  {
    assert B == A + (B - A);
  }
}
