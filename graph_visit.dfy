/**
 * Bookkeeping shared by the graph traversals: a list of node ids paired with a map from
 * each listed id to its index, and counting lemmas for the part of a finite universe of
 * ids that a growing visited set has not yet covered.
 */
module GraphVisit {
  import opened GraphCore

  /** Each set of ids lies inside U and is at most as large as the part of U it covers. */
  lemma CoverShrinks(U: set<NodeId>, A: set<NodeId>, B: set<NodeId>)
    requires A <= B <= U
    ensures |U - B| <= |U - A|
  {
    assert U - A == (U - B) + (B - A);
    assert (U - B) * (B - A) == {};
  }

  /** A strictly larger set inside U leaves strictly less of U uncovered. */
  lemma StrictCoverShrinks(U: set<NodeId>, A: set<NodeId>, B: set<NodeId>)
    requires A <= B <= U && A != B
    ensures |U - B| < |U - A|
  {
    var x :| x in B && x !in A;
    GrowShrinks(U, A, x);
    CoverShrinks(U, A + {x}, B);
  }

  /**
   * Where each listed node sits: pos maps every node of the line to its index there, so a
   * node occurs at most once and the keys of pos are exactly the listed nodes.
   */
  ghost predicate Indexed(line: seq<NodeId>, pos: map<NodeId, nat>)
  {
    (forall k :: 0 <= k < |line| ==> line[k] in pos && pos[line[k]] == k)
    && (forall v :: v in pos ==> pos[v] < |line| && line[pos[v]] == v)
  }

  /** An indexed line has no repeats. */
  lemma IndexedNoDup(line: seq<NodeId>, pos: map<NodeId, nat>)
    requires Indexed(line, pos)
    ensures NoDup(line)
  {
    forall i, j | 0 <= i < j < |line|
      ensures line[i] != line[j]
    {
      assert pos[line[i]] == i && pos[line[j]] == j;
    }
  }

  /** The keys of pos are the members of the line. */
  lemma IndexedMembers(line: seq<NodeId>, pos: map<NodeId, nat>)
    requires Indexed(line, pos)
    ensures forall v :: v in line <==> v in pos
  {
    forall v | v in pos
      ensures v in line
    {
      assert line[pos[v]] == v;
    }
  }

  /** Appending a node that is not yet listed keeps the line indexed. */
  lemma IndexedSnoc(line: seq<NodeId>, pos: map<NodeId, nat>, v: NodeId)
    requires Indexed(line, pos) && v !in pos
    ensures Indexed(line + [v], pos[v := |line|])
  {
    var line', pos' := line + [v], pos[v := |line|];
    forall k | 0 <= k < |line'|
      ensures line'[k] in pos' && pos'[line'[k]] == k
    {
      if k < |line| {
        assert line'[k] == line[k] && line[k] != v;
      }
    }
  }

  /** pos' keeps every position that pos records. */
  ghost predicate Extends(pos: map<NodeId, nat>, pos': map<NodeId, nat>)
  {
    forall w :: w in pos ==> w in pos' && pos'[w] == pos[w]
  }


  /** Two extensions in a row are one. */
  lemma ExtendsTrans(pos0: map<NodeId, nat>, pos1: map<NodeId, nat>, pos: map<NodeId, nat>)
    requires Extends(pos0, pos1) && Extends(pos1, pos)
    ensures Extends(pos0, pos)
  {
  }

  /** Recording a new entry keeps every earlier one. */
  lemma ExtendsAdd(pos0: map<NodeId, nat>, pos: map<NodeId, nat>, u: NodeId, n: nat)
    requires Extends(pos0, pos) && u !in pos
    ensures Extends(pos0, pos[u := n])
  {
  }

  /** The first i + 1 entries of s are in S once the first i were in a subset of S and the i-th is. */
  lemma PrefixCovered(s: seq<NodeId>, i: nat, A: set<NodeId>, S: set<NodeId>)
    requires i < |s| && A <= S && s[i] in S
    requires forall k :: 0 <= k < i ==> s[k] in A
    ensures forall k :: 0 <= k < i + 1 ==> s[k] in S
  {
  }

  /** The ids listed in s. */
  ghost function Members(s: seq<NodeId>): (r: set<NodeId>)
    decreases |s|
  {
    if s == [] then {} else Members(s[..|s| - 1]) + {s[|s| - 1]}
  }

  /** Every member is listed. */
  lemma {:induction false} MembersListed(s: seq<NodeId>, x: NodeId)
    requires x in Members(s)
    ensures x in s
    decreases |s|
  {
    if s != [] && x != s[|s| - 1] {
      MembersListed(s[..|s| - 1], x);
    }
  }

  /** Listing one more id adds just that id. */
  lemma MembersSnoc(s: seq<NodeId>, x: NodeId)
    ensures Members(s + [x]) == Members(s) + {x}
  {
    assert (s + [x])[..|s|] == s;
  }
}
