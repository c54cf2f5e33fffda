/**
 * `kruskalMST` of hooks/useGraph.ts:611-667: the edges sorted by weight, a disjoint-set
 * forest over the node ids (the `parent` and `rank` records with `find` and `union`), and
 * an edge accepted exactly when its endpoints have different roots.
 */
module GraphKruskal {
  import opened GraphCore
  import opened JsSort

  /** The parent of x, named so that facts about it are drawn only where a proof asks for them. */
  function Up(parent: map<NodeId, NodeId>, x: NodeId): NodeId
    requires x in parent
  {
    parent[x]
  }

  /**
   * The parent of x is an id with the same root; x is its own root when it is its own
   * parent, and otherwise its rank is below its parent's and its root's.
   */
  ghost predicate ParentIn(parent: map<NodeId, NodeId>, rank: map<NodeId, nat>, root: map<NodeId, NodeId>, x: NodeId)
    requires x in parent
  {
    parent[x] in parent && x in root && x in rank && parent[x] in root && parent[x] in rank && root[x] in rank
    && root[parent[x]] == root[x] && (parent[x] == x ==> root[x] == x)
    && (parent[x] != x ==> rank[x] < rank[parent[x]] && rank[x] < rank[root[x]])
  }

  /** The three records have the same ids. */
  ghost predicate SameIds(parent: map<NodeId, NodeId>, rank: map<NodeId, nat>, root: map<NodeId, NodeId>)
  {
    rank.Keys == parent.Keys && root.Keys == parent.Keys
  }

  /** The root of x, named for the same reason as `Up`. */
  ghost function Top(root: map<NodeId, NodeId>, x: NodeId): NodeId
    requires x in root
  {
    root[x]
  }

  /** Every root is an id that is its own parent and its own root. */
  ghost predicate RootsFixed(parent: map<NodeId, NodeId>, root: map<NodeId, NodeId>)
  {
    forall x {:trigger Top(root, x)} :: x in root ==>
      var r := Top(root, x); r in parent && r in root && parent[r] == r && root[r] == r
  }

  /** Every id relates to its parent as ParentIn says. */
  ghost predicate Chains(parent: map<NodeId, NodeId>, rank: map<NodeId, nat>, root: map<NodeId, NodeId>)
  {
    forall x {:trigger Up(parent, x)} :: x in parent ==> ParentIn(parent, rank, root, x)
  }

  /**
   * A disjoint-set forest over the ids of `parent`, with the root each id's chain of parents
   * ends at. Ranks rise strictly along a chain, which is why following parents ends. (The
   * facts about one id's parent are drawn only where `Up` names it: following parents from
   * id to id would otherwise never stop.)
   */
  ghost predicate Forest(parent: map<NodeId, NodeId>, rank: map<NodeId, nat>, root: map<NodeId, NodeId>)
  {
    SameIds(parent, rank, root) && RootsFixed(parent, root) && Chains(parent, rank, root)
  }

  /** Pointing x straight at its root keeps the forest and every set. */
  lemma Compress(parent: map<NodeId, NodeId>, rank: map<NodeId, nat>, root: map<NodeId, NodeId>, x: NodeId)
    requires Forest(parent, rank, root) && x in parent && Up(parent, x) != x
    ensures Forest(parent[x := root[x]], rank, root)
  {
    var parent' := parent[x := root[x]];
    var _ := Top(root, x);
    forall y | y in parent'
      ensures ParentIn(parent', rank, root, y)
    {
      var _ := Up(parent, y);
    }
  }

  /** Root a put under root b, whose rank rises by one when `bump` is set, keeps a forest. */
  lemma Attached(parent: map<NodeId, NodeId>, rank: map<NodeId, nat>, root: map<NodeId, NodeId>,
                 a: NodeId, b: NodeId, bump: bool)
    requires Forest(parent, rank, root) && a in parent && b in parent && a != b && parent[a] == a && parent[b] == b
    requires if bump then rank[a] == rank[b] else rank[a] < rank[b]
    ensures Forest(parent[a := b], if bump then rank[b := rank[b] + 1] else rank, Renamed(root, a, b))
  {
    var rank' := if bump then rank[b := rank[b] + 1] else rank;
    AttachedIds(parent, rank, root, a, b, bump);
    AttachedRoots(parent, rank, root, a, b);
    AttachedChains(parent, rank, root, a, b, bump);
  }

  lemma AttachedIds(parent: map<NodeId, NodeId>, rank: map<NodeId, nat>, root: map<NodeId, NodeId>,
                    a: NodeId, b: NodeId, bump: bool)
    requires SameIds(parent, rank, root) && a in parent && b in parent
    ensures SameIds(parent[a := b], if bump then rank[b := rank[b] + 1] else rank, Renamed(root, a, b))
  {
  }

  lemma AttachedRoots(parent: map<NodeId, NodeId>, rank: map<NodeId, nat>, root: map<NodeId, NodeId>, a: NodeId, b: NodeId)
    requires Forest(parent, rank, root) && a in parent && b in parent && a != b && parent[a] == a && parent[b] == b
    ensures RootsFixed(parent[a := b], Renamed(root, a, b))
  {
    var parent', root' := parent[a := b], Renamed(root, a, b);
    var _ := Up(parent, a);
    var _ := Up(parent, b);
    forall x | x in root'
      ensures root'[x] in parent' && root'[x] in root' && parent'[root'[x]] == root'[x] && root'[root'[x]] == root'[x]
    {
      var r := Top(root, x);
      if r == a {
        assert root'[x] == b;
      } else {
        assert root'[x] == r && r != a && root[r] == r;
      }
    }
  }

  lemma AttachedChains(parent: map<NodeId, NodeId>, rank: map<NodeId, nat>, root: map<NodeId, NodeId>,
                       a: NodeId, b: NodeId, bump: bool)
    requires Forest(parent, rank, root) && a in parent && b in parent && a != b && parent[a] == a && parent[b] == b
    requires if bump then rank[a] == rank[b] else rank[a] < rank[b]
    ensures Chains(parent[a := b], if bump then rank[b := rank[b] + 1] else rank, Renamed(root, a, b))
  {
    var parent', rank', root' := parent[a := b], if bump then rank[b := rank[b] + 1] else rank, Renamed(root, a, b);
    var _ := Up(parent, a);
    var _ := Up(parent, b);
    forall y | y in parent'
      ensures ParentIn(parent', rank', root', y)
    {
      var _ := Up(parent, y);
    }
  }

  /** The ids that are their own parent. */
  ghost function RootsOf(parent: map<NodeId, NodeId>): set<NodeId>
  {
    set x | x in parent && parent[x] == x
  }

  /** Putting root a under another id leaves one root fewer. */
  lemma RootsAttached(parent: map<NodeId, NodeId>, a: NodeId, b: NodeId)
    requires a in parent && parent[a] == a && a != b
    ensures RootsOf(parent[a := b]) == RootsOf(parent) - {a}
    ensures |RootsOf(parent[a := b])| == |RootsOf(parent)| - 1
  {
    assert a in RootsOf(parent);
  }

  /** Every id sits alone in its own set of rank 0, as after the make-set loop. */
  ghost predicate Singletons(parent: map<NodeId, NodeId>, rank: map<NodeId, nat>, root: map<NodeId, NodeId>)
  {
    forall x :: x in parent ==> parent[x] == x && x in rank && rank[x] == 0 && x in root && root[x] == x
  }

  /** `parent[node.id] = node.id; rank[node.id] = 0` keeps every id alone in its own set. */
  lemma MadeSet(parent: map<NodeId, NodeId>, rank: map<NodeId, nat>, root: map<NodeId, NodeId>, v: NodeId)
    requires Forest(parent, rank, root) && Singletons(parent, rank, root)
    ensures Forest(parent[v := v], rank[v := 0], root[v := v]) && Singletons(parent[v := v], rank[v := 0], root[v := v])
  {
    var parent', rank', root' := parent[v := v], rank[v := 0], root[v := v];
    forall y | y in parent'
      ensures ParentIn(parent', rank', root', y)
    {
    }
  }

  /** How far x's rank lies below its root's, which bounds the chain from x to its root. */
  ghost function Height(parent: map<NodeId, NodeId>, rank: map<NodeId, nat>, root: map<NodeId, NodeId>, x: NodeId): nat
    requires Forest(parent, rank, root) && x in parent
  {
    var _ := Up(parent, x);
    rank[root[x]] - rank[x]
  }

  /**
   * `find` (hooks/useGraph.ts:628-633): the root of x, with every id on the way made a
   * child of the root. No set and no rank changes, and x is then a child of its root.
   */
  method Find(parent: map<NodeId, NodeId>, ghost rank: map<NodeId, nat>, ghost root: map<NodeId, NodeId>, x: NodeId)
    returns (parent': map<NodeId, NodeId>, r: NodeId)
    requires Forest(parent, rank, root) && x in parent
    ensures parent'.Keys == parent.Keys && Forest(parent', rank, root)
    ensures r == Top(root, x) && parent'[x] == r && parent'[r] == r
    ensures RootsOf(parent') == RootsOf(parent)
    decreases Height(parent, rank, root, x)
  {
    parent' := parent;
    if Up(parent, x) != x {
      var p := Up(parent, x);
      var q;
      parent', q := Find(parent, rank, root, p);
      Compress(parent', rank, root, x);
      parent' := parent'[x := q];
    }
    r := parent'[x];
  }

  /**
   * `union` (hooks/useGraph.ts:636-650): nothing but path compression when x and y share
   * a root; otherwise the root of smaller rank is put under the other one, and on equal
   * ranks the root of y goes under the root of x, whose rank rises by one. One set fewer.
   */
  method Union(parent: map<NodeId, NodeId>, rank: map<NodeId, nat>, ghost root: map<NodeId, NodeId>, x: NodeId, y: NodeId)
    returns (parent': map<NodeId, NodeId>, rank': map<NodeId, nat>, ghost root': map<NodeId, NodeId>)
    requires Forest(parent, rank, root) && x in parent && y in parent
    ensures parent'.Keys == parent.Keys && Forest(parent', rank', root')
    ensures root[x] == root[y] ==> root' == root && rank' == rank && RootsOf(parent') == RootsOf(parent)
    ensures root[x] != root[y] ==> Merged(rank, root, root[x], root[y], rank', root')
    ensures root[x] != root[y] ==> |RootsOf(parent')| == |RootsOf(parent)| - 1
  {
    var rx, ry;
    parent', rx := Find(parent, rank, root, x);
    parent', ry := Find(parent', rank, root, y);
    assert rx in RootsOf(parent');
    parent', rank', root' := Link(parent', rank, root, rx, ry);
  }

  /**
   * The sets and ranks after the distinct roots rx and ry are linked: the root of smaller
   * rank goes under the other; on equal ranks ry goes under rx, whose rank rises by one.
   */
  ghost predicate Merged(rank: map<NodeId, nat>, root: map<NodeId, NodeId>, rx: NodeId, ry: NodeId,
                           rank': map<NodeId, nat>, root': map<NodeId, NodeId>)
  {
    rx in rank && ry in rank &&
    if rank[rx] < rank[ry] then root' == Renamed(root, rx, ry) && rank' == rank
    else if rank[rx] > rank[ry] then root' == Renamed(root, ry, rx) && rank' == rank
    else root' == Renamed(root, ry, rx) && rank' == rank[rx := rank[rx] + 1]
  }

  /** The rank comparison of `union` on the two roots it found. */
  method Link(parent: map<NodeId, NodeId>, rank: map<NodeId, nat>, ghost root: map<NodeId, NodeId>, rx: NodeId, ry: NodeId)
    returns (parent': map<NodeId, NodeId>, rank': map<NodeId, nat>, ghost root': map<NodeId, NodeId>)
    requires Forest(parent, rank, root) && rx in parent && ry in parent && parent[rx] == rx && parent[ry] == ry
    ensures parent'.Keys == parent.Keys && Forest(parent', rank', root')
    ensures rx == ry ==> parent' == parent && root' == root && rank' == rank
    ensures rx != ry ==> Merged(rank, root, rx, ry, rank', root')
    ensures rx != ry ==> |RootsOf(parent')| == |RootsOf(parent)| - 1
  {
    if rx == ry {
      return parent, rank, root;
    }
    if rank[rx] < rank[ry] {
      parent', rank', root' := Attach(parent, rank, root, rx, ry, false);
    } else if rank[rx] > rank[ry] {
      parent', rank', root' := Attach(parent, rank, root, ry, rx, false);
    } else {
      parent', rank', root' := Attach(parent, rank, root, ry, rx, true);
    }
  }

  /** Root a goes under root b, whose rank rises by one when `bump` is set. */
  method Attach(parent: map<NodeId, NodeId>, rank: map<NodeId, nat>, ghost root: map<NodeId, NodeId>,
                a: NodeId, b: NodeId, bump: bool)
    returns (parent': map<NodeId, NodeId>, rank': map<NodeId, nat>, ghost root': map<NodeId, NodeId>)
    requires Forest(parent, rank, root) && a in parent && b in parent && a != b && parent[a] == a && parent[b] == b
    requires if bump then rank[a] == rank[b] else rank[a] < rank[b]
    ensures parent'.Keys == parent.Keys && Forest(parent', rank', root')
    ensures root' == Renamed(root, a, b)
    ensures bump ==> rank' == rank[b := rank[b] + 1]
    ensures !bump ==> rank' == rank
    ensures RootsOf(parent') == RootsOf(parent) - {a} && |RootsOf(parent')| == |RootsOf(parent)| - 1
  {
    Attached(parent, rank, root, a, b, bump);
    RootsAttached(parent, a, b);
    parent' := parent[a := b];
    rank' := if bump then rank[b := rank[b] + 1] else rank;
    root' := Renamed(root, a, b);
  }

  /** The sets after root a's set is merged into root b's. */
  ghost function Renamed(root: map<NodeId, NodeId>, a: NodeId, b: NodeId): (r: map<NodeId, NodeId>)
    ensures r.Keys == root.Keys
    ensures forall z {:trigger r[z]} :: z in root ==> r[z] == if root[z] == a then b else root[z]
  {
    map z | z in root :: if root[z] == a then b else root[z]
  }

  /** Every edge of the tree joins two ids of one set. */
  ghost predicate Within(tree: seq<Edge>, root: map<NodeId, NodeId>)
  {
    forall k :: 0 <= k < |tree| ==>
      tree[k].source in root && tree[k].target in root && root[tree[k].source] == root[tree[k].target]
  }

  /** Two ids of one set are joined along the tree's edges, through their common root. */
  lemma SameSetJoined(tree: seq<Edge>, root: map<NodeId, NodeId>, s: NodeId, t: NodeId)
    requires Spans(tree, root) && s in root && t in root && root[s] == root[t]
    ensures Reachable(tree, false, s, t)
  {
    assert Top(root, t) == Top(root, s);
    ReachTrans(tree, false, s, Top(root, s), t);
  }

  /** Edges that never leave a set cannot join ids of two different sets. */
  lemma NotYetJoined(tree: seq<Edge>, root: map<NodeId, NodeId>, s: NodeId, t: NodeId)
    requires Within(tree, root) && s in root && t in root && root[s] != root[t]
    ensures !Reachable(tree, false, s, t)
  {
    var S := set z | z in root && root[z] == root[s];
    forall u, v | u in S && v in Adjacent(tree, u, false)
      ensures v in S
    {
      AdjacentLinked(tree, u, v, false);
      var e :| e in tree && Joins(e, u, v, false);
      var k :| 0 <= k < |tree| && tree[k] == e;
    }
    assert Closed(tree, false, S);
    ClosedHoldsReachable(tree, false, S, s);
  }

  /** Merging the two sets an edge joins keeps every edge of the tree, and that one, inside one set. */
  lemma WithinMerged(tree: seq<Edge>, root: map<NodeId, NodeId>, e: Edge, a: NodeId, b: NodeId)
    requires Within(tree, root) && e.source in root && e.target in root
    requires {root[e.source], root[e.target]} == {a, b}
    ensures Within(tree + [e], Renamed(root, a, b))
  {
  }

  /**
   * One edge of the sorted list (hooks/useGraph.ts:655-663): it is taken exactly when its
   * endpoints lie in different sets, and then the two sets are merged. A taken edge joins
   * two ids the edges taken before it did not connect, and every set stays a union of
   * taken edges' endpoints.
   */
  method Consider(parent: map<NodeId, NodeId>, rank: map<NodeId, nat>, ghost root: map<NodeId, NodeId>,
                  ghost tree: seq<Edge>, e: Edge)
    returns (parent': map<NodeId, NodeId>, rank': map<NodeId, nat>, ghost root': map<NodeId, NodeId>, taken: bool)
    requires Forest(parent, rank, root) && e.source in parent && e.target in parent
    requires Within(tree, root) && Spans(tree, root)
    ensures parent'.Keys == parent.Keys && Forest(parent', rank', root')
    ensures taken <==> root[e.source] != root[e.target]
    ensures taken <==> !Reachable(tree, false, e.source, e.target)
    ensures Within(if taken then tree + [e] else tree, root') && Spans(if taken then tree + [e] else tree, root')
    ensures Coarser(root, root') && Top(root', e.source) == Top(root', e.target)
    ensures |RootsOf(parent')| + (if taken then 1 else 0) == |RootsOf(parent)|
  {
    var rs, rt;
    parent', rs := Find(parent, rank, root, e.source);
    parent', rt := Find(parent', rank, root, e.target);
    taken := rs != rt;
    if taken {
      NotYetJoined(tree, root, e.source, e.target);
      parent', rank', root' := Take(parent', rank, root, tree, e);
    } else {
      rank', root' := rank, root;
      SameSetJoined(tree, root, e.source, e.target);
      CoarserSelf(parent, root);
    }
  }

  /** `union` on the endpoints of an edge that joins two sets: the sets now hold the edge too. */
  method Take(parent: map<NodeId, NodeId>, rank: map<NodeId, nat>, ghost root: map<NodeId, NodeId>,
              ghost tree: seq<Edge>, e: Edge)
    returns (parent': map<NodeId, NodeId>, rank': map<NodeId, nat>, ghost root': map<NodeId, NodeId>)
    requires Forest(parent, rank, root) && e.source in parent && e.target in parent
    requires Within(tree, root) && Spans(tree, root) && root[e.source] != root[e.target]
    ensures parent'.Keys == parent.Keys && Forest(parent', rank', root')
    ensures Within(tree + [e], root') && Spans(tree + [e], root')
    ensures Coarser(root, root') && Top(root', e.source) == Top(root', e.target)
    ensures |RootsOf(parent')| == |RootsOf(parent)| - 1
  {
    parent', rank', root' := Union(parent, rank, root, e.source, e.target);
    MergedWithin(tree, rank, root, e, rank', root');
    MergedSpans(tree, rank, root, e, rank', root');
    MergedCoarser(parent, rank, root, e, rank', root');
  }

  /** Every id and its root reach each other along the tree's edges. */
  ghost predicate Spans(tree: seq<Edge>, root: map<NodeId, NodeId>)
  {
    forall u {:trigger Top(root, u)} :: u in root ==>
      Reachable(tree, false, u, Top(root, u)) && Reachable(tree, false, Top(root, u), u)
  }

  /** With every id alone in its set, no edges are needed. */
  lemma SinglesSpan(parent: map<NodeId, NodeId>, rank: map<NodeId, nat>, root: map<NodeId, NodeId>)
    requires Forest(parent, rank, root) && Singletons(parent, rank, root)
    ensures Spans([], root)
  {
    forall u | u in root
      ensures Reachable([], false, u, Top(root, u)) && Reachable([], false, Top(root, u), u)
    {
      ReachSelf([], false, u);
    }
  }

  /** A path to one end of an edge, the edge, and a path from its other end. */
  lemma Bridge(es: seq<Edge>, e: Edge, p: NodeId, q: NodeId, r: NodeId, s: NodeId)
    requires Reachable(es, false, p, q) && Joins(e, q, r, false) && Reachable(es, false, r, s)
    ensures Reachable(es + [e], false, p, s)
  {
    ReachWider(es, e, false, p, q);
    ReachAlong(es, e, q, r);
    ReachWider(es, e, false, r, s);
    ReachTrans(es + [e], false, p, q, r);
    ReachTrans(es + [e], false, p, r, s);
  }

  /** Merging the sets of an edge's endpoints, with the edge taken, keeps every id reaching its root. */
  lemma MergedSpans(tree: seq<Edge>, rank: map<NodeId, nat>, root: map<NodeId, NodeId>, e: Edge,
                    rank': map<NodeId, nat>, root': map<NodeId, NodeId>)
    requires Spans(tree, root) && e.source in root && e.target in root && root[e.source] != root[e.target]
    requires Merged(rank, root, root[e.source], root[e.target], rank', root')
    ensures Spans(tree + [e], root')
  {
    var rs, rt := Top(root, e.source), Top(root, e.target);
    var x, y, a, b := if rank[rs] < rank[rt] then e.source else e.target, if rank[rs] < rank[rt] then e.target else e.source,
                      if rank[rs] < rank[rt] then rs else rt, if rank[rs] < rank[rt] then rt else rs;
    assert root' == Renamed(root, a, b);
    assert Top(root, x) == a && Top(root, y) == b;
    forall u | u in root'
      ensures Reachable(tree + [e], false, u, Top(root', u)) && Reachable(tree + [e], false, Top(root', u), u)
    {
      var r := Top(root, u);
      if r == a {
        ReachTrans(tree, false, u, a, x);
        Bridge(tree, e, u, x, y, b);
        ReachTrans(tree, false, x, a, u);
        Bridge(tree, e, b, y, x, u);
      } else {
        ReachWider(tree, e, false, u, r);
        ReachWider(tree, e, false, r, u);
      }
    }
  }

  /** Every id's new root is the new root of its old root: ids of one set stay in one set. */
  ghost predicate Coarser(root: map<NodeId, NodeId>, root': map<NodeId, NodeId>)
  {
    root'.Keys == root.Keys
    && forall u {:trigger Top(root', u)} :: u in root ==> root[u] in root && Top(root', u) == root'[root[u]]
  }

  /** Keeping every set is coarser. */
  lemma CoarserSelf(parent: map<NodeId, NodeId>, root: map<NodeId, NodeId>)
    requires RootsFixed(parent, root)
    ensures Coarser(root, root)
  {
    forall u | u in root
      ensures root[u] in root && Top(root, u) == root[root[u]]
    {
      var _ := Top(root, u);
    }
  }

  /** Merging two sets is coarser. */
  lemma MergedCoarser(parent: map<NodeId, NodeId>, rank: map<NodeId, nat>, root: map<NodeId, NodeId>, e: Edge,
                      rank': map<NodeId, nat>, root': map<NodeId, NodeId>)
    requires RootsFixed(parent, root) && e.source in root && e.target in root
    requires Merged(rank, root, root[e.source], root[e.target], rank', root')
    ensures Coarser(root, root') && Top(root', e.source) == Top(root', e.target)
  {
    forall u | u in root
      ensures root[u] in root && Top(root', u) == root'[root[u]]
    {
      var _ := Top(root, u);
    }
  }

  /** Each of the first n edges joins two ids of one set. */
  ghost predicate Settled(es: seq<Edge>, n: nat, root: map<NodeId, NodeId>)
  {
    forall j :: 0 <= j < n <= |es| ==>
      es[j].source in root && es[j].target in root && Top(root, es[j].source) == Top(root, es[j].target)
  }

  /** Coarser sets keep every settled edge settled. */
  lemma SettledNext(es: seq<Edge>, n: nat, root: map<NodeId, NodeId>, root': map<NodeId, NodeId>)
    requires n < |es| && Settled(es, n, root) && Coarser(root, root') && es[n].source in root && es[n].target in root
    requires Top(root', es[n].source) == Top(root', es[n].target)
    ensures Settled(es, n + 1, root')
  {
    forall j | 0 <= j < n
      ensures Top(root', es[j].source) == Top(root', es[j].target)
    {
    }
  }

  /** A forest over at least one id has at least one root. */
  lemma SomeRoot(parent: map<NodeId, NodeId>, rank: map<NodeId, nat>, root: map<NodeId, NodeId>, v: NodeId)
    requires Forest(parent, rank, root) && v in parent
    ensures |RootsOf(parent)| > 0
  {
    assert Top(root, v) in RootsOf(parent);
  }

  /** Once every sorted edge is settled, the tree connects the ends of every edge of the graph. */
  lemma AllSpanned(edges: seq<Edge>, sorted: seq<Edge>, tree: seq<Edge>, root: map<NodeId, NodeId>)
    requires sorted == SortBy(edges, WeightKey) && Settled(sorted, |sorted|, root) && Spans(tree, root)
    ensures forall e :: e in edges ==> Reachable(tree, false, e.source, e.target)
  {
    forall e | e in edges
      ensures Reachable(tree, false, e.source, e.target)
    {
      SortByMembers(edges, WeightKey, e);
      var j :| 0 <= j < |sorted| && sorted[j] == e;
      Spanning(sorted, tree, root, j);
    }
  }

  /** When every edge is settled and every id reaches its root, each edge's ends are connected. */
  lemma Spanning(es: seq<Edge>, tree: seq<Edge>, root: map<NodeId, NodeId>, j: nat)
    requires Settled(es, |es|, root) && Spans(tree, root) && j < |es|
    ensures Reachable(tree, false, es[j].source, es[j].target)
  {
    var r := Top(root, es[j].source);
    assert Top(root, es[j].target) == r;
    ReachTrans(tree, false, es[j].source, r, es[j].target);
  }

  /** Merging the sets of an edge's endpoints keeps every edge of the tree, and that one, inside one set. */
  lemma MergedWithin(tree: seq<Edge>, rank: map<NodeId, nat>, root: map<NodeId, NodeId>, e: Edge,
                     rank': map<NodeId, nat>, root': map<NodeId, NodeId>)
    requires Within(tree, root) && e.source in root && e.target in root
    requires root[e.source] in rank && root[e.target] in rank
    requires Merged(rank, root, root[e.source], root[e.target], rank', root')
    ensures Within(tree + [e], root')
  {
    var a, b := root[e.source], root[e.target];
    if rank[a] < rank[b] {
      WithinMerged(tree, root, e, a, b);
    } else {
      WithinMerged(tree, root, e, b, a);
    }
  }

  /** Every node in a set of its own, of rank 0 (hooks/useGraph.ts:622-625). */
  method MakeSets(nodes: seq<NodeId>) returns (parent: map<NodeId, NodeId>, rank: map<NodeId, nat>, ghost root: map<NodeId, NodeId>)
    ensures Forest(parent, rank, root) && Singletons(parent, rank, root)
    ensures parent.Keys == RootsOf(parent) == set v | v in nodes
  {
    parent, rank, root := map[], map[], map[];
    for k := 0 to |nodes|
      invariant Forest(parent, rank, root) && Singletons(parent, rank, root)
      invariant parent.Keys == set v | v in nodes[..k]
    {
      assert nodes[..k + 1] == nodes[..k] + [nodes[k]];
      MadeSet(parent, rank, root, nodes[k]);
      parent, rank, root := parent[nodes[k] := nodes[k]], rank[nodes[k] := 0], root[nodes[k] := nodes[k]];
    }
    assert nodes[..|nodes|] == nodes;
  }

  /**
   * What the edges taken from the first i of the sorted edges are: edges of the graph,
   * in order of weight, none heavier than an edge still to come, and without a cycle.
   */
  ghost predicate Scanned(g: Graph, sorted: seq<Edge>, i: nat, tree: seq<Edge>)
  {
    i <= |sorted|
    && (forall k :: 0 <= k < |tree| ==> tree[k] in g.edges)
    && (forall k, j :: 0 <= k < |tree| && i <= j < |sorted| ==> tree[k].weight <= sorted[j].weight)
    && (forall k, j :: 0 <= k < j < |tree| ==> tree[k].weight <= tree[j].weight)
    && Acyclic(tree)
  }

  /** Passing over the next edge, or taking it when it joins two unconnected ids, keeps Scanned. */
  lemma ScannedNext(g: Graph, sorted: seq<Edge>, i: nat, tree: seq<Edge>, taken: bool)
    requires Scanned(g, sorted, i, tree) && i < |sorted| && Ordered(sorted, WeightKey) && sorted[i] in g.edges
    requires taken ==> !Reachable(tree, false, sorted[i].source, sorted[i].target)
    ensures Scanned(g, sorted, i + 1, if taken then tree + [sorted[i]] else tree)
  {
    if taken {
      var e, tree' := sorted[i], tree + [sorted[i]];
      forall k, j | 0 <= k < |tree'| && i + 1 <= j < |sorted|
        ensures tree'[k].weight <= sorted[j].weight
      {
        if k == |tree| {
          assert !Below(WeightKey(sorted[j]), WeightKey(sorted[i]));
        }
      }
      AcyclicSnoc(tree, e);
    }
  }

  /** The edges of the tree no heavier than w, in their order. */
  function Light(tree: seq<Edge>, w: int): seq<Edge>
  {
    if tree == [] then []
    else
      var t, e := tree[..|tree| - 1], tree[|tree| - 1];
      Light(t, w) + (if e.weight <= w then [e] else [])
  }

  /** The light part of a longer tree: the light part before, and the new edge when it is light. */
  lemma LightSnoc(tree: seq<Edge>, e: Edge, w: int)
    ensures Light(tree + [e], w) == Light(tree, w) + (if e.weight <= w then [e] else [])
  {
    assert (tree + [e])[..|tree|] == tree;
  }

  /** A tree none of whose edges is heavier than w is its own light part. */
  lemma {:induction false} LightAll(tree: seq<Edge>, w: int)
    requires forall k :: 0 <= k < |tree| ==> tree[k].weight <= w
    ensures Light(tree, w) == tree
  {
    if tree != [] {
      var t := tree[..|tree| - 1];
      LightAll(t, w);
      assert t + [tree[|tree| - 1]] == tree;
    }
  }

  /**
   * Each of the first n sorted edges has its ends connected by taken edges no heavier than
   * it: the cycle property, which makes a spanning forest a minimum one.
   */
  ghost predicate LightlyJoined(es: seq<Edge>, n: nat, tree: seq<Edge>)
  {
    forall j {:trigger Light(tree, es[j].weight)} :: 0 <= j < n <= |es| ==> Reachable(Light(tree, es[j].weight), false, es[j].source, es[j].target)
  }

  /**
   * The next sorted edge: taken, it joins its own ends; passed over, its ends were already
   * connected by taken edges, and all of those are no heavier than it because the edges
   * come in order of weight. Taking it keeps every earlier edge's connection.
   */
  lemma LightlyJoinedNext(g: Graph, sorted: seq<Edge>, i: nat, tree: seq<Edge>, taken: bool)
    requires i < |sorted| && Scanned(g, sorted, i, tree) && LightlyJoined(sorted, i, tree)
    requires !taken ==> Reachable(tree, false, sorted[i].source, sorted[i].target)
    ensures LightlyJoined(sorted, i + 1, if taken then tree + [sorted[i]] else tree)
  {
    var e := sorted[i];
    var tree' := if taken then tree + [e] else tree;
    forall j | 0 <= j < i + 1
      ensures Reachable(Light(tree', sorted[j].weight), false, sorted[j].source, sorted[j].target)
    {
      var w := sorted[j].weight;
      if taken {
        LightSnoc(tree, e, w);
      }
      if j < i {
        assert Reachable(Light(tree, w), false, sorted[j].source, sorted[j].target);
        if taken && e.weight <= w {
          ReachWider(Light(tree, w), e, false, sorted[j].source, sorted[j].target);
          assert Light(tree', w) == Light(tree, w) + [e];
        } else {
          assert Light(tree', w) == Light(tree, w);
        }
      } else if taken {
        ReachAlong(Light(tree, w), e, e.source, e.target);
        assert Light(tree', w) == Light(tree, w) + [e];
      } else {
        forall k | 0 <= k < |tree|
          ensures tree[k].weight <= w
        {
          assert tree[k].weight <= sorted[i].weight;
        }
        LightAll(tree, w);
      }
    }
  }

  /** What holds after the first i sorted edges have been scanned. */
  ghost predicate Kept(g: Graph, sorted: seq<Edge>, i: nat, parent: map<NodeId, NodeId>, rank: map<NodeId, nat>,
                       root: map<NodeId, NodeId>, tree: seq<Edge>, result: seq<EdgeId>, U: set<NodeId>)
  {
    Forest(parent, rank, root) && parent.Keys == U && |tree| + |RootsOf(parent)| == |U|
    && Within(tree, root) && Spans(tree, root) && Scanned(g, sorted, i, tree) && Settled(sorted, i, root)
    && LightlyJoined(sorted, i, tree) && result == Ids(tree)
  }

  /** Before the first edge: every node alone in its set and no edge taken. */
  lemma KeptAtStart(g: Graph, sorted: seq<Edge>, parent: map<NodeId, NodeId>, rank: map<NodeId, nat>,
                    root: map<NodeId, NodeId>, U: set<NodeId>)
    requires Forest(parent, rank, root) && Singletons(parent, rank, root) && parent.Keys == RootsOf(parent) == U
    ensures Kept(g, sorted, 0, parent, rank, root, [], [], U)
  {
    SinglesSpan(parent, rank, root);
  }

  /** After the last edge: the taken edges form a spanning forest with fewer edges than nodes. */
  lemma KeptAtEnd(g: Graph, sorted: seq<Edge>, parent: map<NodeId, NodeId>, rank: map<NodeId, nat>,
                  root: map<NodeId, NodeId>, tree: seq<Edge>, result: seq<EdgeId>, U: set<NodeId>)
    requires sorted == SortBy(g.edges, WeightKey) && Kept(g, sorted, |sorted|, parent, rank, root, tree, result, U)
    requires |g.nodes| > 0 && U == set v | v in g.nodes
    ensures result == Ids(tree)
    ensures forall k :: 0 <= k < |tree| ==> tree[k] in g.edges
    ensures forall i, j :: 0 <= i < j < |tree| ==> tree[i].weight <= tree[j].weight
    ensures Acyclic(tree)
    ensures forall e :: e in g.edges ==> Reachable(tree, false, e.source, e.target)
    ensures forall e :: e in g.edges ==> Reachable(Light(tree, e.weight), false, e.source, e.target)
    ensures |tree| < |U|
  {
    SomeRoot(parent, rank, root, g.nodes[0]);
    AllSpanned(g.edges, sorted, tree, root);
    forall e | e in g.edges
      ensures Reachable(Light(tree, e.weight), false, e.source, e.target)
    {
      SortByMembers(g.edges, WeightKey, e);
      var j :| 0 <= j < |sorted| && sorted[j] == e;
    }
  }

  /**
   * One pass of the loop of hooks/useGraph.ts:655-663: the edge's id is pushed exactly
   * when its endpoints have different roots, and then their sets are merged.
   */
  method ScanEdge(g: Graph, sorted: seq<Edge>, i: nat, parent: map<NodeId, NodeId>, rank: map<NodeId, nat>,
                  ghost root: map<NodeId, NodeId>, ghost tree: seq<Edge>, result: seq<EdgeId>, ghost U: set<NodeId>)
    returns (parent': map<NodeId, NodeId>, rank': map<NodeId, nat>, ghost root': map<NodeId, NodeId>,
             ghost tree': seq<Edge>, result': seq<EdgeId>)
    requires WellFormed(g) && sorted == SortBy(g.edges, WeightKey) && i < |sorted| && U == set v | v in g.nodes
    requires Kept(g, sorted, i, parent, rank, root, tree, result, U)
    ensures Kept(g, sorted, i + 1, parent', rank', root', tree', result', U)
  {
    var e := sorted[i];
    SortByOrdered(g.edges, WeightKey);
    SortByMembers(g.edges, WeightKey, e);
    var taken;
    parent', rank', root', taken := Consider(parent, rank, root, tree, e);
    LightlyJoinedNext(g, sorted, i, tree, taken);
    ScannedNext(g, sorted, i, tree, taken);
    SettledNext(sorted, i, root, root');
    tree', result' := tree, result;
    if taken {
      IdsSnoc(tree, e);
      tree', result' := tree + [e], result + [e.id];
    }
  }

  /**
   * `kruskalMST`: no edges for a graph without nodes; otherwise the accepted edges, in
   * order of non-decreasing weight, each taken from the graph, each joining two nodes that
   * the edges accepted before it did not yet connect (so they form a forest), and fewer of
   * them than there are nodes.
   */
  method Kruskal(g: Graph) returns (result: seq<EdgeId>, ghost tree: seq<Edge>)
    requires WellFormed(g)
    ensures result == Ids(tree)
    ensures |g.nodes| == 0 ==> result == []
    ensures forall k :: 0 <= k < |tree| ==> tree[k] in g.edges
    ensures forall i, j :: 0 <= i < j < |tree| ==> tree[i].weight <= tree[j].weight
    ensures Acyclic(tree)
    ensures forall e :: e in g.edges ==> Reachable(tree, false, e.source, e.target)
    ensures forall e :: e in g.edges ==> Reachable(Light(tree, e.weight), false, e.source, e.target)
    ensures |g.nodes| > 0 ==> |tree| < |set v | v in g.nodes|
  {
    if |g.nodes| == 0 {
      return [], [];
    }
    var sorted := SortBy(g.edges, WeightKey);
    ghost var U := set v | v in g.nodes;
    var parent, rank, root := MakeSets(g.nodes);
    KeptAtStart(g, sorted, parent, rank, root, U);
    parent, rank, root, tree, result := ScanAll(g, sorted, parent, rank, root, U);
    KeptAtEnd(g, sorted, parent, rank, root, tree, result, U);
  }

  /** The loop of hooks/useGraph.ts:655-663 over every sorted edge, from single-node sets. */
  method ScanAll(g: Graph, sorted: seq<Edge>, parent: map<NodeId, NodeId>, rank: map<NodeId, nat>,
                 ghost root: map<NodeId, NodeId>, ghost U: set<NodeId>)
    returns (parent': map<NodeId, NodeId>, rank': map<NodeId, nat>, ghost root': map<NodeId, NodeId>,
             ghost tree: seq<Edge>, result: seq<EdgeId>)
    requires WellFormed(g) && sorted == SortBy(g.edges, WeightKey) && U == set v | v in g.nodes
    requires Kept(g, sorted, 0, parent, rank, root, [], [], U)
    ensures Kept(g, sorted, |sorted|, parent', rank', root', tree, result, U)
  {
    parent', rank', root', tree, result := parent, rank, root, [], [];
    for i := 0 to |sorted|
      invariant Kept(g, sorted, i, parent', rank', root', tree, result, U)
    {
      parent', rank', root', tree, result := ScanEdge(g, sorted, i, parent', rank', root', tree, result, U);
    }
  }
}
