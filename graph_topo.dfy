/**
 * Topological sort of hooks/useGraph.ts:558-608: a depth-first search over outgoing edges
 * that keeps the nodes of the current descent in `temp` (a node met again while in `temp`
 * closes a cycle, and the whole sort gives up with an empty list) and puts each finished
 * node at the front of the result.
 */
module GraphTopo {
  import opened GraphCore
  import opened GraphVisit

  /** s back to front. */
  function Reversed(s: seq<NodeId>): (r: seq<NodeId>)
    ensures |r| == |s| && forall i {:trigger r[i]} :: 0 <= i < |s| ==> r[i] == s[|s| - 1 - i]
  {
    seq(|s|, i requires 0 <= i < |s| => s[|s| - 1 - i])
  }

  /** A closed walk of at least one edge along edge directions. */
  ghost predicate HasCycle(es: seq<Edge>)
  {
    exists p {:trigger Walk(es, true, p)} :: |p| > 1 && p[0] == p[|p| - 1] && Walk(es, true, p)
  }

  /** Every edge between two listed nodes points forwards in the list. */
  predicate Ordered(es: seq<Edge>, r: seq<NodeId>)
  {
    forall i, j :: 0 <= i < |r| && 0 <= j < |r| && r[j] in Adjacent(es, r[i], true) ==> i < j
  }

  /** The tail of a walk is a walk. */
  lemma {:induction false} WalkSuffix(es: seq<Edge>, directed: bool, p: seq<NodeId>, k: nat)
    requires Walk(es, directed, p) && k < |p|
    ensures Walk(es, directed, p[k..])
    decreases |p|
  {
    if |p| - k > 1 {
      var p' := p[..|p| - 1];
      WalkSuffix(es, directed, p', k);
      assert p[k..][..|p[k..]| - 1] == p'[k..];
    }
  }

  /** A descent that steps onto one of its own nodes closes a cycle. */
  lemma CycleFound(es: seq<Edge>, path: seq<NodeId>, u: NodeId)
    requires Walk(es, true, path) && |path| > 0 && u in Members(path) && u in Adjacent(es, path[|path| - 1], true)
    ensures HasCycle(es)
  {
    MembersListed(path, u);
    var k :| 0 <= k < |path| && path[k] == u;
    WalkSuffix(es, true, path, k);
    var q := path[k..] + [u];
    assert q[..|q| - 1] == path[k..];
    assert Walk(es, true, q);
  }

  /**
   * The finished nodes, in finishing order: each is listed once at its recorded position,
   * and every edge leaving a finished node ends at a node that finished earlier.
   */
  ghost predicate Finished(es: seq<Edge>, U: set<NodeId>, visited: set<NodeId>, post: seq<NodeId>, pos: map<NodeId, nat>)
  {
    visited <= U && visited == pos.Keys && Indexed(post, pos)
    && forall x, y {:trigger y in Adjacent(es, x, true)} ::
         x in visited && y in Adjacent(es, x, true) ==> y in visited && pos[y] < pos[x]
  }

  /** The nodes in `temp` are those of the current descent, a walk, and none has finished. */
  ghost predicate Descent(es: seq<Edge>, U: set<NodeId>, temp: set<NodeId>, visited: set<NodeId>, path: seq<NodeId>)
  {
    temp <= U && temp * visited == {} && Walk(es, true, path) && temp == Members(path)
  }

  /** Finishing u after all its successors keeps the finished nodes in order. */
  lemma FinishNode(es: seq<Edge>, U: set<NodeId>, u: NodeId, visited: set<NodeId>, post: seq<NodeId>, pos: map<NodeId, nat>)
    requires Finished(es, U, visited, post, pos) && u in U && u !in visited
    requires forall k :: 0 <= k < |Adjacent(es, u, true)| ==> Adjacent(es, u, true)[k] in visited
    ensures Finished(es, U, visited + {u}, post + [u], pos[u := |post|])
  {
    IndexedSnoc(post, pos, u);
    var pos' := pos[u := |post|];
    forall x, y | x in visited + {u} && y in Adjacent(es, x, true)
      ensures y in visited + {u} && pos'[y] < pos'[x]
    {
      if x != u {
        assert y in visited && y != u;
      } else {
        assert y in visited && pos[y] < |post|;
      }
    }
  }

  /** The targets of u's outgoing edges are ids some edge names. */
  lemma TargetsInside(es: seq<Edge>, U: set<NodeId>, u: NodeId, targets: seq<NodeId>)
    requires Endpoints(es) <= U && targets == Adjacent(es, u, true)
    ensures forall k :: 0 <= k < |targets| ==> targets[k] in U
  {
    AdjacentInEndpoints(es, u, true);
  }

  /** Putting u in front of the reversed finishing order reverses the longer order. */
  lemma ReversedSnoc(post: seq<NodeId>, u: NodeId)
    ensures Reversed(post + [u]) == [u] + Reversed(post)
  {
    assert (post + [u])[..|post|] == post;
  }

  /**
   * `visit` (hooks/useGraph.ts:563-595) on u, entered along an edge from the end of the
   * current descent: false when u is still in `temp` (a cycle, which is then exhibited);
   * true at once when u has finished; otherwise u joins `temp`, its outgoing targets are
   * visited in edge order (false as soon as one fails), and u leaves `temp`, finishes and
   * goes to the front of the result.
   */
  method Visit(es: seq<Edge>, u: NodeId, ghost U: set<NodeId>, temp0: set<NodeId>, visited0: set<NodeId>,
               result0: seq<NodeId>, ghost post0: seq<NodeId>, ghost pos0: map<NodeId, nat>, ghost path: seq<NodeId>)
    returns (ok: bool, temp: set<NodeId>, visited: set<NodeId>, result: seq<NodeId>,
             ghost post: seq<NodeId>, ghost pos: map<NodeId, nat>)
    requires Endpoints(es) <= U && u in U
    requires Finished(es, U, visited0, post0, pos0) && result0 == Reversed(post0)
    requires Descent(es, U, temp0, visited0, path)
    requires path == [] || u in Adjacent(es, path[|path| - 1], true)
    ensures !ok ==> HasCycle(es)
    ensures ok ==> Finished(es, U, visited, post, pos) && result == Reversed(post) && Extends(pos0, pos)
    ensures ok ==> temp == temp0 && temp * visited == {} && visited0 <= visited && u in visited
    decreases |U - (temp0 + visited0)|, 1
  {
    temp, visited, result, post, pos := temp0, visited0, result0, post0, pos0;
    if u in temp0 {
      CycleFound(es, path, u);
      return false, temp, visited, result, post, pos;
    }
    if u in visited0 {
      return true, temp, visited, result, post, pos;
    }
    ok, temp, visited, result, post, pos := Explore(es, u, U, temp0, visited0, result0, post0, pos0, path);
  }

  /**
   * The rest of `visit` (hooks/useGraph.ts:574-593) on a node neither in `temp` nor finished:
   * u joins `temp`, its outgoing targets are visited, and on success u leaves `temp`,
   * finishes and goes to the front of the result.
   */
  method Explore(es: seq<Edge>, u: NodeId, ghost U: set<NodeId>, temp0: set<NodeId>, visited0: set<NodeId>,
                 result0: seq<NodeId>, ghost post0: seq<NodeId>, ghost pos0: map<NodeId, nat>, ghost path: seq<NodeId>)
    returns (ok: bool, temp: set<NodeId>, visited: set<NodeId>, result: seq<NodeId>,
             ghost post: seq<NodeId>, ghost pos: map<NodeId, nat>)
    requires Endpoints(es) <= U && u in U && u !in temp0 && u !in visited0
    requires Finished(es, U, visited0, post0, pos0) && result0 == Reversed(post0)
    requires Descent(es, U, temp0, visited0, path)
    requires path == [] || u in Adjacent(es, path[|path| - 1], true)
    ensures !ok ==> HasCycle(es)
    ensures ok ==> Finished(es, U, visited, post, pos) && result == Reversed(post) && Extends(pos0, pos)
    ensures ok ==> temp == temp0 && temp * visited == {} && visited0 <= visited && u in visited
    decreases |U - (temp0 + visited0)|, 0
  {
    ghost var path' := path + [u];
    ExploreEntry(es, U, u, temp0, visited0, path);
    temp := temp0 + {u};
    var targets := Adjacent(es, u, true);
    TargetsInside(es, U, u, targets);
    ok, temp, visited, result, post, pos := VisitTargets(es, u, targets, U, temp, visited0, result0, post0, pos0, path');
    if !ok {
      return;
    }
    ExploreExit(es, U, u, targets, temp0, visited0, visited, result, post, pos0, pos);
    temp := temp - {u};
    visited := visited + {u};
    result := [u] + result;
    post, pos := post + [u], pos[u := |post|];
  }

  /** Stepping onto u extends the descent and leaves less of U untouched. */
  lemma ExploreEntry(es: seq<Edge>, U: set<NodeId>, u: NodeId, temp0: set<NodeId>, visited0: set<NodeId>, path: seq<NodeId>)
    requires visited0 <= U && u in U && u !in temp0 && u !in visited0 && Descent(es, U, temp0, visited0, path)
    requires path == [] || u in Adjacent(es, path[|path| - 1], true)
    ensures Descent(es, U, temp0 + {u}, visited0, path + [u]) && (path + [u])[|path|] == u
    ensures |U - ((temp0 + {u}) + visited0)| < |U - (temp0 + visited0)|
  {
    JoinShrinks(U, temp0, visited0, u);
    assert (path + [u])[..|path|] == path;
    MembersSnoc(path, u);
  }

  /** u joining `temp` leaves less of U neither in `temp` nor finished. */
  lemma JoinShrinks(U: set<NodeId>, temp0: set<NodeId>, visited0: set<NodeId>, u: NodeId)
    requires temp0 <= U && visited0 <= U && u in U && u !in temp0 && u !in visited0
    ensures |U - ((temp0 + {u}) + visited0)| < |U - (temp0 + visited0)|
  {
    GrowShrinks(U, temp0 + visited0, u);
    assert (temp0 + {u}) + visited0 == (temp0 + visited0) + {u};
  }

  /** Once its targets have finished, u leaves the descent and finishes last. */
  lemma ExploreExit(es: seq<Edge>, U: set<NodeId>, u: NodeId, targets: seq<NodeId>, temp0: set<NodeId>,
                    visited0: set<NodeId>, visited: set<NodeId>, result: seq<NodeId>, post: seq<NodeId>,
                    pos0: map<NodeId, nat>, pos: map<NodeId, nat>)
    requires u in U && u !in temp0 && targets == Adjacent(es, u, true)
    requires Finished(es, U, visited, post, pos) && result == Reversed(post) && Extends(pos0, pos)
    requires (temp0 + {u}) * visited == {} && visited0 <= visited
    requires forall k :: 0 <= k < |targets| ==> targets[k] in visited
    ensures Finished(es, U, visited + {u}, post + [u], pos[u := |post|])
    ensures [u] + result == Reversed(post + [u]) && Extends(pos0, pos[u := |post|])
    ensures (temp0 + {u}) - {u} == temp0 && temp0 * (visited + {u}) == {}
    ensures visited0 <= visited + {u}
  {
    assert u !in (temp0 + {u}) * visited;
    FinishNode(es, U, u, visited, post, pos);
    ReversedSnoc(post, u);
    LeaveDescent(temp0, visited0, visited, u);
    ExtendsAdd(pos0, pos, u, |post|);
  }

  /** Taking u back out of the descent restores it, still apart from the finished nodes. */
  lemma LeaveDescent(temp0: set<NodeId>, visited0: set<NodeId>, visited: set<NodeId>, u: NodeId)
    requires u !in temp0 && (temp0 + {u}) * visited == {} && visited0 <= visited
    ensures (temp0 + {u}) - {u} == temp0 && temp0 * (visited + {u}) == {} && visited0 <= visited + {u}
  {
  }

  /**
   * The `for` of `visit` (hooks/useGraph.ts:577-586): the targets of u's outgoing edges
   * are visited in edge order, stopping with false at the first failure. On success all
   * of them have finished and `temp` is as before.
   */
  method VisitTargets(es: seq<Edge>, u: NodeId, targets: seq<NodeId>, ghost U: set<NodeId>,
                      temp0: set<NodeId>, visited0: set<NodeId>, result0: seq<NodeId>,
                      ghost post0: seq<NodeId>, ghost pos0: map<NodeId, nat>, ghost path: seq<NodeId>)
    returns (ok: bool, temp: set<NodeId>, visited: set<NodeId>, result: seq<NodeId>,
             ghost post: seq<NodeId>, ghost pos: map<NodeId, nat>)
    requires Endpoints(es) <= U && targets == Adjacent(es, u, true)
    requires forall k :: 0 <= k < |targets| ==> targets[k] in U
    requires Finished(es, U, visited0, post0, pos0) && result0 == Reversed(post0)
    requires Descent(es, U, temp0, visited0, path) && |path| > 0 && path[|path| - 1] == u
    ensures !ok ==> HasCycle(es)
    ensures ok ==> Finished(es, U, visited, post, pos) && result == Reversed(post) && Extends(pos0, pos)
    ensures ok ==> temp == temp0 && temp * visited == {} && visited0 <= visited
    ensures ok ==> forall k :: 0 <= k < |targets| ==> targets[k] in visited
    decreases |U - (temp0 + visited0)|, 2
  {
    temp, visited, result, post, pos := temp0, visited0, result0, post0, pos0;
    for i := 0 to |targets|
      invariant Finished(es, U, visited, post, pos) && result == Reversed(post) && Extends(pos0, pos)
      invariant temp == temp0 && temp * visited == {} && visited0 <= visited
      invariant forall k :: 0 <= k < i ==> targets[k] in visited
    {
      CoverShrinks(U, temp0 + visited0, temp0 + visited);
      ghost var visited1, pos1 := visited, pos;
      ok, temp, visited, result, post, pos := Visit(es, targets[i], U, temp, visited, result, post, pos, path);
      if !ok {
        return;
      }
      ExtendsTrans(pos0, pos1, pos);
      PrefixCovered(targets, i, visited1, visited);
    }
    ok := true;
  }

  /**
   * `topologicalSort` (hooks/useGraph.ts:557-608): every node not yet finished is visited
   * in node order. The result is empty and the graph has a cycle when a visit fails;
   * otherwise it lists every node once, and every edge points forwards in it.
   */
  method TopologicalSort(g: Graph) returns (result: seq<NodeId>)
    ensures (result == [] && HasCycle(g.edges))
      || (NoDup(result) && (forall v :: v in g.nodes ==> v in result) && Ordered(g.edges, result))
    ensures WellFormed(g) && HasCycle(g.edges) ==> result == []
  {
    var es := g.edges;
    ghost var U := (set v | v in g.nodes) + Endpoints(es);
    var temp: set<NodeId> := {};
    var visited: set<NodeId> := {};
    result := [];
    ghost var post: seq<NodeId> := [];
    ghost var pos: map<NodeId, nat> := map[];
    for i := 0 to |g.nodes|
      invariant Finished(es, U, visited, post, pos) && result == Reversed(post) && temp == {}
      invariant forall k :: 0 <= k < i ==> g.nodes[k] in visited
    {
      if g.nodes[i] !in visited {
        var ok;
        ok, temp, visited, result, post, pos := Visit(es, g.nodes[i], U, temp, visited, result, post, pos, []);
        if !ok {
          return [];
        }
      }
    }
    TopoResult(es, g.nodes, U, visited, post, pos);
    if WellFormed(g) {
      OrderedNoCycle(es, result);
    }
  }

  /**
   * In a list holding every edge's ends with every edge forwards, the last node of a walk of
   * at least one edge is listed after its first.
   */
  lemma {:induction false} WalkForwards(es: seq<Edge>, r: seq<NodeId>, p: seq<NodeId>)
    requires Ordered(es, r) && forall e :: e in es ==> e.source in r && e.target in r
    requires Walk(es, true, p) && |p| > 1
    ensures forall i, j :: 0 <= i < |r| && 0 <= j < |r| && r[i] == p[0] && r[j] == p[|p| - 1] ==> i < j
    decreases |p|
  {
    var u, v := p[|p| - 2], p[|p| - 1];
    AdjacentLinked(es, u, v, true);
    var e :| e in es && Joins(e, u, v, true);
    var m :| 0 <= m < |r| && r[m] == u;
    if |p| > 2 {
      var p' := p[..|p| - 1];
      WalkForwards(es, r, p');
      assert p'[0] == p[0] && p'[|p'| - 1] == u;
    }
  }

  /** A list holding every edge's ends with every edge forwards rules out a cycle. */
  lemma OrderedNoCycle(es: seq<Edge>, r: seq<NodeId>)
    requires Ordered(es, r) && forall e :: e in es ==> e.source in r && e.target in r
    ensures !HasCycle(es)
  {
    if HasCycle(es) {
      var p :| |p| > 1 && p[0] == p[|p| - 1] && Walk(es, true, p);
      WalkForwards(es, r, p);
      AdjacentLinked(es, p[|p| - 2], p[|p| - 1], true);
    }
  }

  /** The reversed finishing order of all nodes lists them once, with every edge forwards. */
  lemma TopoResult(es: seq<Edge>, nodes: seq<NodeId>, U: set<NodeId>, visited: set<NodeId>,
                   post: seq<NodeId>, pos: map<NodeId, nat>)
    requires Finished(es, U, visited, post, pos) && forall k :: 0 <= k < |nodes| ==> nodes[k] in visited
    ensures NoDup(Reversed(post)) && (forall v :: v in nodes ==> v in Reversed(post)) && Ordered(es, Reversed(post))
  {
    var r, n := Reversed(post), |post|;
    IndexedNoDup(post, pos);
    IndexedMembers(post, pos);
    forall i, j | 0 <= i < j < n
      ensures r[i] != r[j]
    {
      assert r[i] == post[n - 1 - i] && r[j] == post[n - 1 - j];
    }
    forall v | v in nodes
      ensures v in r
    {
      assert post[pos[v]] == v && r[n - 1 - pos[v]] == v;
    }
    forall i, j | 0 <= i < n && 0 <= j < n && r[j] in Adjacent(es, r[i], true)
      ensures i < j
    {
      assert post[n - 1 - i] in pos && pos[post[n - 1 - i]] == n - 1 - i;
      assert post[n - 1 - j] in pos && pos[post[n - 1 - j]] == n - 1 - j;
    }
  }
}
