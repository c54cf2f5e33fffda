/**
 * What the five backtracking solvers of hooks/useBacktracking.ts share: the append-only list
 * of steps they record (each with the id of the recursion-tree node it belongs to) and the
 * recursion tree itself, which grows by one child per recursive call. Ids come from `uuidv4`;
 * here they are drawn from a counter, so each is fresh.
 */
module RecursionTree {
  /** A tree node's id: `"root"`, or the n-th id drawn. */
  datatype NodeId = Root | Uuid(n: nat)

  /**
   * A node's `name`: the solver's title at the root, otherwise what the name is built from
   * (`Row r`, `Cell (r,c)`, `Move k`, `Index i`).
   */
  datatype Label = Title(text: string) | RowOf(row: int) | CellAt(row: int, col: int) | MoveOf(k: int) | IndexOf(i: int)

  /** `RecursionTreeNode`: an id, a name and the children in the order they were added. */
  datatype Tree = Tree(id: NodeId, name: Label, children: seq<Tree>)

  datatype Option<T> = None | Some(value: T)

  /** One entry of `newSteps`: what happened, the state copied at that moment, and its node. */
  datatype Step<E> = Step(event: E, nodeId: NodeId)

  /** The ids in the tree. */
  function Ids(t: Tree): set<NodeId>
    decreases t, 1
  {
    {t.id} + IdsIn(t.children)
  }

  function IdsIn(ts: seq<Tree>): set<NodeId>
    decreases ts, 0
  {
    if ts == [] then {} else Ids(ts[0]) + IdsIn(ts[1..])
  }

  /**
   * `findNodeById` (hooks/useBacktracking.ts:459-473): the node itself if it has the id,
   * otherwise the first match in its children, searched in order, each depth first.
   */
  function Find(t: Tree, id: NodeId): (r: Option<Tree>)
    ensures r.Some? <==> id in Ids(t)
    ensures r.Some? ==> r.value.id == id
    decreases t, 1
  {
    if t.id == id then Some(t) else FindIn(t.children, id)
  }

  function FindIn(ts: seq<Tree>, id: NodeId): (r: Option<Tree>)
    ensures r.Some? <==> id in IdsIn(ts)
    ensures r.Some? ==> r.value.id == id
    decreases ts, 0
  {
    if ts == [] then None
    else
      var found := Find(ts[0], id);
      if found.Some? then found else FindIn(ts[1..], id)
  }

  /**
   * `parentNode.children.push(child)` on the node `findNodeById` returns for parent; when
   * there is none the tree is left as it is.
   */
  function AddChild(t: Tree, parent: NodeId, child: Tree): Tree
    decreases t, 1
  {
    if t.id == parent then t.(children := t.children + [child])
    else t.(children := AddChildIn(t.children, parent, child))
  }

  function AddChildIn(ts: seq<Tree>, parent: NodeId, child: Tree): seq<Tree>
    decreases ts, 0
  {
    if ts == [] then []
    else if parent in Ids(ts[0]) then [AddChild(ts[0], parent, child)] + ts[1..]
    else [ts[0]] + AddChildIn(ts[1..], parent, child)
  }

  /** `IdsIn` of a list with one more tree in front. */
  lemma IdsInCons(t: Tree, ts: seq<Tree>)
    ensures IdsIn([t] + ts) == Ids(t) + IdsIn(ts)
  {
    assert ([t] + ts)[1..] == ts;
  }

  /**
   * Adding a child under a node of the tree adds exactly the child's ids; with no such node
   * nothing changes. The node `findNodeById` returns for parent is the one that gets the child,
   * as its last.
   */
  lemma {:induction false} AddChildIds(t: Tree, parent: NodeId, child: Tree)
    ensures parent in Ids(t) ==> Ids(AddChild(t, parent, child)) == Ids(t) + Ids(child)
    ensures parent !in Ids(t) ==> AddChild(t, parent, child) == t
    ensures parent in Ids(t) ==>
              Find(AddChild(t, parent, child), parent) == Some(Find(t, parent).value.(children := Find(t, parent).value.children + [child]))
    decreases t, 1
  {
    if t.id == parent {
      IdsAppend(t.children, child);
    } else {
      AddChildInIds(t.children, parent, child);
    }
  }

  lemma {:induction false} AddChildInIds(ts: seq<Tree>, parent: NodeId, child: Tree)
    ensures parent in IdsIn(ts) ==> IdsIn(AddChildIn(ts, parent, child)) == IdsIn(ts) + Ids(child)
    ensures parent !in IdsIn(ts) ==> AddChildIn(ts, parent, child) == ts
    ensures parent in IdsIn(ts) ==>
              FindIn(AddChildIn(ts, parent, child), parent) == Some(FindIn(ts, parent).value.(children := FindIn(ts, parent).value.children + [child]))
    decreases ts, 0
  {
    if ts != [] {
      AddChildIds(ts[0], parent, child);
      AddChildInIds(ts[1..], parent, child);
      if parent in Ids(ts[0]) {
        IdsInCons(AddChild(ts[0], parent, child), ts[1..]);
      } else {
        IdsInCons(ts[0], AddChildIn(ts[1..], parent, child));
        assert ts == [ts[0]] + ts[1..];
      }
    }
  }

  /** The ids of a list with one more tree at the end. */
  lemma {:induction false} IdsAppend(ts: seq<Tree>, t: Tree)
    ensures IdsIn(ts + [t]) == IdsIn(ts) + Ids(t)
    decreases |ts|
  {
    if ts == [] {
      assert IdsIn([t]) == Ids(t) + IdsIn([]);
    } else {
      IdsAppend(ts[1..], t);
      assert (ts + [t])[1..] == ts[1..] + [t];
    }
  }

  /** Every drawn id in the tree was drawn before the n-th. */
  predicate Drawn(ids: set<NodeId>, n: nat)
  {
    forall id :: id in ids && id.Uuid? ==> id.n < n
  }

  /** Steps recorded after steps recorded after a run are recorded after it too. */
  lemma Later<E>(a: seq<Step<E>>, b: seq<Step<E>>, c: seq<Step<E>>)
    requires a <= b && b <= c
    ensures a <= c
  {
    assert c[..|a|] == b[..|a|];
  }

  /**
   * The steps and the recursion tree of one solver run: `newSteps`, `treeNodes`, and the
   * counter the ids are drawn from.
   */
  class Recorder<E> {
    var steps: seq<Step<E>>
    var tree: Tree
    var next: nat

    /** The tree's root is `"root"`, every step names a node of the tree, and the counter is past every id drawn. */
    ghost predicate Valid()
      reads this
    {
      tree.id == Root
      && (forall i :: 0 <= i < |steps| ==> steps[i].nodeId in Ids(tree))
      && Drawn(Ids(tree), next)
    }

    /** An empty run: no steps, and a tree that is a root with the solver's title. */
    constructor (title: string)
      ensures Valid() && steps == [] && tree == Tree(Root, Title(title), []) && next == 0
    {
      steps := [];
      tree := Tree(Root, Title(title), []);
      next := 0;
    }

    /** `newSteps.push(step)`, for a step belonging to a node of the tree. */
    method Push(event: E, node: NodeId)
      requires Valid() && node in Ids(tree)
      modifies this
      ensures Valid()
      ensures steps == old(steps) + [Step(event, node)] && tree == old(tree) && next == old(next)
    {
      steps := steps + [Step(event, node)];
    }

    /**
     * The opening of every recursive call (for instance hooks/useBacktracking.ts:362-373): a
     * fresh id, and a childless node with it added under parent. A parent not in the tree
     * gets no child, as `if (parentNode)` skips it.
     */
    method Open(parent: NodeId, name: Label) returns (id: NodeId)
      requires Valid()
      modifies this
      ensures Valid()
      ensures id == Uuid(old(next)) && id !in Ids(old(tree)) && next == old(next) + 1
      ensures tree == AddChild(old(tree), parent, Tree(id, name, [])) && steps == old(steps)
      ensures parent in Ids(old(tree)) ==> Ids(tree) == Ids(old(tree)) + {id}
      ensures parent !in Ids(old(tree)) ==> tree == old(tree)
    {
      id := Uuid(next);
      var child := Tree(id, name, []);
      AddChildIds(tree, parent, child);
      assert Ids(child) == {id};
      tree := AddChild(tree, parent, child);
      next := next + 1;
    }
  }
}
