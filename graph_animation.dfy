/**
 * The playback of a graph algorithm's output, `animateAlgorithm` of hooks/useGraph.ts:300-485.
 * Four lists are shown one entry per frame, in phases: the visited nodes, then the traversed
 * edges, then the result nodes, then the result edges. Every frame advances the step count and
 * sets the progress to the percentage of steps done; the frame after the last entry marks the
 * run finished at 100%. A stop request makes the next frame end the run instead.
 */
module GraphAnimation {
  import opened GraphCore

  /** How many times d fits into x: floor division, counted by repeated subtraction. */
  function Quot(x: nat, d: nat): nat
    requires 0 < d
    decreases x
  {
    if x < d then 0 else 1 + Quot(x - d, d)
  }

  /** The count is the quotient of integer division. */
  lemma {:induction false} QuotIsDiv(x: nat, d: nat)
    requires 0 < d
    ensures Quot(x, d) == x / d
    decreases x
  {
    if x >= d {
      QuotIsDiv(x - d, d);
      DivStep(x, d);
    }
  }

  /** Taking d away takes one from the quotient. */
  lemma DivStep(x: nat, d: nat)
    requires 0 < d <= x
    ensures (x - d) / d + 1 == x / d
  {
    var q, r := (x - d) / d, (x - d) % d;
    assert x - d == q * d + r && r < d;
    assert (q + 1) * d == q * d + d;
    DivUnique(x, d, q + 1, r);
  }

  /** The quotient and remainder of integer division are the only ones. */
  lemma DivUnique(x: nat, d: nat, q: nat, r: nat)
    requires 0 < d && x == q * d + r && r < d
    ensures x / d == q
  {
    var q', r' := x / d, x % d;
    assert x == q' * d + r' && r' < d;
    MulMono(q + 1, q', d);
    MulMono(q' + 1, q, d);
    assert (q + 1) * d == q * d + d && (q' + 1) * d == q' * d + d;
  }

  /** Multiplying by the same number keeps the order. */
  lemma {:induction false} MulMono(a: nat, b: nat, c: nat)
    ensures a <= b ==> a * c <= b * c
    decreases c
  {
    if c > 0 {
      MulMono(a, b, c - 1);
      assert a * c == a * (c - 1) + a && b * c == b * (c - 1) + b;
    }
  }

  /** A larger number holds d at least as often. */
  lemma {:induction false} QuotMono(x: nat, y: nat, d: nat)
    requires 0 < d && x <= y
    ensures Quot(x, d) <= Quot(y, d)
    decreases x
  {
    if x >= d {
      QuotMono(x - d, y - d, d);
    }
  }

  /** n times d holds d exactly n times. */
  lemma {:induction false} QuotMul(n: nat, d: nat)
    requires 0 < d
    ensures Quot(n * d, d) == n
    decreases n
  {
    if n > 0 {
      assert n * d - d == (n - 1) * d;
      QuotMul(n - 1, d);
    }
  }

  /**
   * `Math.floor((step / totalSteps) * 100)` of hooks/useGraph.ts:360 and its copies, taken as
   * exact arithmetic: the whole percentages that step out of total makes. A share of the whole
   * is at most 100 percent, and the whole is exactly 100.
   */
  function Percent(step: nat, total: nat): (r: nat)
    requires 0 < total
    ensures step <= total ==> r <= 100
    ensures step == total ==> r == 100
  {
    QuotMul(100, total);
    if step <= total then
      QuotMono(step * 100, 100 * total, total);
      Quot(step * 100, total)
    else
      Quot(step * 100, total)
  }

  /** The percentage is the floor of step * 100 / total. */
  lemma PercentIsFloor(step: nat, total: nat)
    requires 0 < total
    ensures Percent(step, total) == step * 100 / total
  {
    QuotIsDiv(step * 100, total);
  }

  /** More steps done never shows less progress. */
  lemma PercentMono(a: nat, b: nat, total: nat)
    requires 0 < total && a <= b
    ensures Percent(a, total) <= Percent(b, total)
  {
    QuotMono(a * 100, b * 100, total);
  }

  class Animation {
    const visitedIn: seq<NodeId>
    const activeIn: seq<EdgeId>
    const resultNodesIn: seq<NodeId>
    const resultEdgesIn: seq<EdgeId>

    /** What is on screen: the `visitedNodes`, `activeEdges`, `resultNodes` and `resultEdges` states. */
    var visitedNodes: seq<NodeId>
    var activeEdges: seq<EdgeId>
    var resultNodes: seq<NodeId>
    var resultEdges: seq<EdgeId>

    var visitedIdx: nat
    var activeEdgeIdx: nat
    var resultNodeIdx: nat
    var resultEdgeIdx: nat
    var step: nat
    var progress: nat
    var running: bool
    var finished: bool
    /** `cancelRef.current`. */
    var cancelled: bool

    /** `totalSteps`: one step per entry of the four lists. */
    function Total(): nat
    {
      |visitedIn| + |activeIn| + |resultNodesIn| + |resultEdgesIn|
    }

    /**
     * Each list is shown as far as its index, and a later phase starts only once the one
     * before it is complete.
     */
    ghost predicate Shown()
      reads this`visitedNodes, this`activeEdges, this`resultNodes, this`resultEdges
      reads this`visitedIdx, this`activeEdgeIdx, this`resultNodeIdx, this`resultEdgeIdx
    {
      visitedIdx <= |visitedIn| && activeEdgeIdx <= |activeIn|
      && resultNodeIdx <= |resultNodesIn| && resultEdgeIdx <= |resultEdgesIn|
      && (activeEdgeIdx > 0 ==> visitedIdx == |visitedIn|)
      && (resultNodeIdx > 0 ==> activeEdgeIdx == |activeIn|)
      && (resultEdgeIdx > 0 ==> resultNodeIdx == |resultNodesIn|)
      && visitedNodes == visitedIn[..visitedIdx] && activeEdges == activeIn[..activeEdgeIdx]
      && resultNodes == resultNodesIn[..resultNodeIdx] && resultEdges == resultEdgesIn[..resultEdgeIdx]
    }

    /** How many entries are on screen. */
    function ShownCount(): nat
      reads this`visitedIdx, this`activeEdgeIdx, this`resultNodeIdx, this`resultEdgeIdx
    {
      visitedIdx + activeEdgeIdx + resultNodeIdx + resultEdgeIdx
    }

    /**
     * The shown lists, the step count is the number of entries shown, and the progress is the
     * percentage of steps done, 100 once finished.
     */
    ghost predicate Valid()
      reads this
    {
      Shown()
      && step == ShownCount()
      && (step == 0 && !finished ==> progress == 0)
      && (step > 0 && !finished ==> progress == Percent(step, Total()))
      && (finished ==> step == Total() && progress == 100)
      && running == !(cancelled || finished)
    }

    /**
     * A run set up by `visualizeAlgorithm` (hooks/useGraph.ts:234-283): the display reset
     * (hooks/useGraph.ts:128-144), the run marked running and not cancelled.
     */
    constructor (visitedIn: seq<NodeId>, activeIn: seq<EdgeId>, resultNodesIn: seq<NodeId>, resultEdgesIn: seq<EdgeId>)
      ensures Valid() && running && !finished && !cancelled && step == 0 && progress == 0
      ensures this.visitedIn == visitedIn && this.activeIn == activeIn
      ensures this.resultNodesIn == resultNodesIn && this.resultEdgesIn == resultEdgesIn
      ensures visitedNodes == [] && activeEdges == [] && resultNodes == [] && resultEdges == []
    {
      this.visitedIn, this.activeIn := visitedIn, activeIn;
      this.resultNodesIn, this.resultEdgesIn := resultNodesIn, resultEdgesIn;
      visitedNodes, activeEdges, resultNodes, resultEdges := [], [], [], [];
      visitedIdx, activeEdgeIdx, resultNodeIdx, resultEdgeIdx := 0, 0, 0, 0;
      step, progress := 0, 0;
      running, finished, cancelled := true, false, false;
    }

    /**
     * One frame, `animate` (hooks/useGraph.ts:318-482). A cancelled run only stops. Otherwise
     * the next entry of the first unfinished list is shown and the step advances, or, with
     * every list shown, the run finishes. Progress never goes back and never passes 100.
     */
    method Tick()
      requires Valid() && !finished
      modifies this
      ensures Valid()
      ensures old(cancelled) ==> !running && !finished && step == old(step) && progress == old(progress)
      ensures old(cancelled) ==> (visitedNodes == old(visitedNodes) && activeEdges == old(activeEdges)
                                  && resultNodes == old(resultNodes) && resultEdges == old(resultEdges))
      ensures !old(cancelled) && old(step) < Total() ==> step == old(step) + 1 && running && !finished
      ensures !old(cancelled) && old(step) == Total() ==> finished && !running && progress == 100
      ensures finished ==> (visitedNodes == visitedIn && activeEdges == activeIn
                            && resultNodes == resultNodesIn && resultEdges == resultEdgesIn)
      ensures old(progress) <= progress <= 100
      ensures cancelled == old(cancelled)
    {
      if cancelled {
        running := false;
        return;
      }
      if step < Total() {
        Advance();
      } else {
        Finish();
      }
    }

    /** A frame with an entry left to show: it goes on screen and the progress is recomputed. */
    method Advance()
      requires Valid() && !finished && !cancelled && step < Total()
      modifies this
      ensures Valid() && step == old(step) + 1 && running && !finished && !cancelled
      ensures old(progress) <= progress <= 100
    {
      var before := step;
      ShowNext();
      step := step + 1;
      if before > 0 {
        PercentMono(before, step, Total());
      }
      progress := Percent(step, Total());
    }

    /** The frame after the last entry: the run is finished at 100%. */
    method Finish()
      requires Valid() && !finished && !cancelled && step == Total()
      modifies this
      ensures Valid() && finished && !running && !cancelled && progress == 100
      ensures visitedNodes == visitedIn && activeEdges == activeIn
      ensures resultNodes == resultNodesIn && resultEdges == resultEdgesIn
    {
      AllShown();
      running, finished := false, true;
      progress := 100;
    }

    /** With as many entries shown as there are, every list is on screen in full. */
    lemma AllShown()
      requires Shown() && ShownCount() == Total()
      ensures visitedNodes == visitedIn && activeEdges == activeIn
      ensures resultNodes == resultNodesIn && resultEdges == resultEdgesIn
    {
      assert visitedIn[..|visitedIn|] == visitedIn && activeIn[..|activeIn|] == activeIn;
      assert resultNodesIn[..|resultNodesIn|] == resultNodesIn && resultEdgesIn[..|resultEdgesIn|] == resultEdgesIn;
    }

    /**
     * The next entry of the first list not yet fully shown goes on screen: the branches of
     * `animate` (hooks/useGraph.ts:324-455) without their messages and sounds.
     */
    method ShowNext()
      requires Shown() && ShownCount() < Total()
      modifies this
      ensures Shown() && ShownCount() == old(ShownCount()) + 1
      ensures step == old(step) && progress == old(progress) && running == old(running)
      ensures finished == old(finished) && cancelled == old(cancelled)
    {
      if visitedIdx < |visitedIn| {
        ShowVisited();
      } else if activeEdgeIdx < |activeIn| {
        ShowActive();
      } else if resultNodeIdx < |resultNodesIn| {
        ShowResultNode();
      } else {
        ShowResultEdge();
      }
    }

    /** The next visited node goes on screen (hooks/useGraph.ts:324-358). */
    method ShowVisited()
      requires Shown() && visitedIdx < |visitedIn|
      modifies this
      ensures Shown() && ShownCount() == old(ShownCount()) + 1
      ensures visitedNodes == old(visitedNodes) + [visitedIn[old(visitedIdx)]]
      ensures step == old(step) && progress == old(progress) && running == old(running)
      ensures finished == old(finished) && cancelled == old(cancelled)
    {
      assert visitedIn[..visitedIdx + 1] == visitedIn[..visitedIdx] + [visitedIn[visitedIdx]];
      visitedNodes := visitedNodes + [visitedIn[visitedIdx]];
      visitedIdx := visitedIdx + 1;
    }

    /** The next traversed edge goes on screen (hooks/useGraph.ts:365-371). */
    method ShowActive()
      requires Shown() && activeEdgeIdx < |activeIn| && visitedIdx == |visitedIn|
      modifies this
      ensures Shown() && ShownCount() == old(ShownCount()) + 1
      ensures activeEdges == old(activeEdges) + [activeIn[old(activeEdgeIdx)]]
      ensures step == old(step) && progress == old(progress) && running == old(running)
      ensures finished == old(finished) && cancelled == old(cancelled)
    {
      assert activeIn[..activeEdgeIdx + 1] == activeIn[..activeEdgeIdx] + [activeIn[activeEdgeIdx]];
      activeEdges := activeEdges + [activeIn[activeEdgeIdx]];
      activeEdgeIdx := activeEdgeIdx + 1;
    }

    /** The next result node goes on screen (hooks/useGraph.ts:378-412). */
    method ShowResultNode()
      requires Shown() && resultNodeIdx < |resultNodesIn| && visitedIdx == |visitedIn| && activeEdgeIdx == |activeIn|
      modifies this
      ensures Shown() && ShownCount() == old(ShownCount()) + 1
      ensures resultNodes == old(resultNodes) + [resultNodesIn[old(resultNodeIdx)]]
      ensures step == old(step) && progress == old(progress) && running == old(running)
      ensures finished == old(finished) && cancelled == old(cancelled)
    {
      assert resultNodesIn[..resultNodeIdx + 1] == resultNodesIn[..resultNodeIdx] + [resultNodesIn[resultNodeIdx]];
      resultNodes := resultNodes + [resultNodesIn[resultNodeIdx]];
      resultNodeIdx := resultNodeIdx + 1;
    }

    /** The next result edge goes on screen (hooks/useGraph.ts:419-449). */
    method ShowResultEdge()
      requires Shown() && resultEdgeIdx < |resultEdgesIn| && visitedIdx == |visitedIn| && activeEdgeIdx == |activeIn| && resultNodeIdx == |resultNodesIn|
      modifies this
      ensures Shown() && ShownCount() == old(ShownCount()) + 1
      ensures resultEdges == old(resultEdges) + [resultEdgesIn[old(resultEdgeIdx)]]
      ensures step == old(step) && progress == old(progress) && running == old(running)
      ensures finished == old(finished) && cancelled == old(cancelled)
    {
      assert resultEdgesIn[..resultEdgeIdx + 1] == resultEdgesIn[..resultEdgeIdx] + [resultEdgesIn[resultEdgeIdx]];
      resultEdges := resultEdges + [resultEdgesIn[resultEdgeIdx]];
      resultEdgeIdx := resultEdgeIdx + 1;
    }

    /**
     * `stopVisualization` (hooks/useGraph.ts:287-298): a running animation is cancelled and
     * stops running; otherwise nothing happens.
     */
    method Stop()
      requires Valid()
      modifies this
      ensures Valid()
      ensures old(running) ==> cancelled && !running
      ensures !old(running) ==> cancelled == old(cancelled) && running == old(running)
      ensures step == old(step) && progress == old(progress) && finished == old(finished)
    {
      if !running {
        return;
      }
      cancelled, running := true, false;
    }
  }
}
