/**
 * `generateSubsetSumSteps` (hooks/useBacktracking.ts:1064-1261): walk the numbers left to
 * right, first including and then excluding each, keeping the running sum and the subset
 * built so far. A subset whose sum is the target and whose size is within the maximum is
 * recorded as a solution; a branch stops when the numbers run out, the sum passes the target
 * or the subset is already at the maximum size. Without `findAllSolutions` the first
 * solution ends the search.
 */
module SubsetSum {
  import opened RecursionTree

  /** The sum of the numbers of s. */
  function Sum(s: seq<int>): int
    decreases |s|
  {
    if s == [] then 0 else Sum(s[..|s| - 1]) + s[|s| - 1]
  }

  /** Appending x adds x to the sum. */
  lemma SumSnoc(s: seq<int>, x: int)
    ensures Sum(s + [x]) == Sum(s) + x
  {
    assert (s + [x])[..|s|] == s;
  }

  /** `subsetSumConfig` with `maxSubsetSize` (None for `null`) and `findAllSolutions`. */
  datatype Config = Config(numbers: seq<int>, target: int, maxSize: Option<nat>, findAll: bool)

  /** `maxSubsetSize === null || subset.length <= maxSubsetSize`. */
  predicate Fits(maxSize: Option<nat>, s: seq<int>)
  {
    maxSize.None? || |s| <= maxSize.value
  }

  /** The subset is recorded as a solution (hooks/useBacktracking.ts:1097-1100). */
  predicate Hit(cfg: Config, sum: int, s: seq<int>)
  {
    sum == cfg.target && Fits(cfg.maxSize, s)
  }

  /** The branch goes no deeper (hooks/useBacktracking.ts:1122-1130). */
  predicate Pruned(cfg: Config, index: nat, sum: int, s: seq<int>)
  {
    index >= |cfg.numbers| || sum > cfg.target || (cfg.maxSize.Some? && |s| >= cfg.maxSize.value)
  }

  /** s is drawn from the numbers in order: its k-th entry is the number at index picks[k], and the indices rise. */
  ghost predicate Picked(numbers: seq<int>, s: seq<int>, picks: seq<nat>)
  {
    |picks| == |s|
    && (forall k :: 0 <= k < |s| ==> picks[k] < |numbers| && s[k] == numbers[picks[k]])
    && (forall i, j :: 0 <= i && j == i + 1 && j < |picks| ==> picks[i] < picks[j])
  }

  /** s is a solution: drawn from the numbers in order, summing to the target, within the maximum size. */
  ghost predicate Solution(cfg: Config, s: seq<int>, picks: seq<nat>)
  {
    Picked(cfg.numbers, s, picks) && Sum(s) == cfg.target && Fits(cfg.maxSize, s)
  }

  /** Every solution recorded is one. */
  ghost predicate Sound(cfg: Config, solutions: seq<seq<int>>, chosen: seq<seq<nat>>)
  {
    |chosen| == |solutions| && forall k :: 0 <= k < |solutions| ==> Solution(cfg, solutions[k], chosen[k])
  }

  /** The state between two calls: a subset drawn in order from the numbers, and sound solutions. */
  ghost predicate Good(cfg: Config, subset: seq<int>, picks: seq<nat>, solutions: seq<seq<int>>, chosen: seq<seq<nat>>)
  {
    Picked(cfg.numbers, subset, picks) && Sound(cfg, solutions, chosen)
  }

  /** Taking the number at index onto a subset drawn from the numbers before it keeps it drawn in order. */
  lemma PickOn(numbers: seq<int>, s: seq<int>, picks: seq<nat>, index: nat)
    requires Picked(numbers, s, picks) && index < |numbers|
    requires forall k :: 0 <= k < |picks| ==> picks[k] < index
    ensures Picked(numbers, s + [numbers[index]], picks + [index])
  {
  }

  /** Taking the last number off keeps the rest drawn in order. */
  lemma PickOff(numbers: seq<int>, s: seq<int>, picks: seq<nat>, index: nat)
    requires |s| > 0 && Picked(numbers, s, picks + [index])
    ensures Picked(numbers, s[..|s| - 1], picks)
  {
    assert forall k :: 0 <= k < |picks| ==> (picks + [index])[k] == picks[k];
  }

  /** Recording a hit adds a solution and keeps them all sound. */
  lemma Record(cfg: Config, subset: seq<int>, picks: seq<nat>, solutions: seq<seq<int>>, chosen: seq<seq<nat>>)
    requires Good(cfg, subset, picks, solutions, chosen) && Hit(cfg, Sum(subset), subset)
    ensures Good(cfg, subset, picks, solutions + [subset], chosen + [picks])
  {
    assert Solution(cfg, subset, picks);
  }

  /**
   * What a call leaves behind, from subset s0 with picks p0 and solutions sol0 to s, p and
   * sol: solutions are only added; a call that is not done gives the subset back, and adds
   * none when only one solution is wanted; a done call (only when one solution is wanted)
   * extends the subset and has recorded it as the one new solution.
   */
  ghost predicate Outcome(done: bool, findAll: bool, s0: seq<int>, p0: seq<nat>, sol0: seq<seq<int>>,
                          s: seq<int>, p: seq<nat>, sol: seq<seq<int>>)
  {
    sol0 <= sol
    && (!done ==> s == s0 && p == p0 && (!findAll ==> sol == sol0))
    && (done ==> !findAll && s0 <= s && sol == sol0 + [s])
  }

  /** A done call below the included number is done for the call that included it. */
  lemma OutcomeTaken(findAll: bool, s0: seq<int>, p0: seq<nat>, sol0: seq<seq<int>>, x: int, i: nat,
                     s: seq<int>, p: seq<nat>, sol: seq<seq<int>>)
    requires Outcome(true, findAll, s0 + [x], p0 + [i], sol0, s, p, sol)
    ensures Outcome(true, findAll, s0, p0, sol0, s, p, sol)
  {
    assert s0 <= s0 + [x];
  }

  /** After a failed include, the exclude call's outcome is the whole call's. */
  lemma OutcomeDropped(done: bool, findAll: bool, s0: seq<int>, p0: seq<nat>, sol0: seq<seq<int>>, sol1: seq<seq<int>>,
                       s: seq<int>, p: seq<nat>, sol: seq<seq<int>>)
    requires sol0 <= sol1 && (!findAll ==> sol1 == sol0)
    requires Outcome(done, findAll, s0, p0, sol1, s, p, sol)
    ensures Outcome(done, findAll, s0, p0, sol0, s, p, sol)
  {
  }

  /** What a step records, with the `currentIndex` of its state. */
  datatype Event = Start | Found(index: nat) | Consider(index: nat) | Include(index: nat) | Exclude(index: nat)
                 | NoSolution(index: nat) | Summary(count: nat)

  /** A step's description and state: the event, `currentSum`, and copies of `currentSubset` and `solutions`. */
  datatype SubsetStep = SubsetStep(event: Event, sum: int, subset: seq<int>, solutions: seq<seq<int>>)

  /** The run of the Subset Sum solver: its settings, the subset being built, the solutions, its steps and tree. */
  class Solver {
    const cfg: Config
    const rec: Recorder<SubsetStep>
    var subset: seq<int>
    var solutions: seq<seq<int>>
    /** The indices the subset and each solution were drawn from. */
    ghost var picks: seq<nat>
    ghost var chosen: seq<seq<nat>>

    /** The subset is drawn from the numbers in order, and every solution recorded is sound. */
    ghost predicate Valid()
      reads this, rec
    {
      rec.Valid() && Good(cfg, subset, picks, solutions, chosen)
    }

    /** The set-up of `generateSubsetSumSteps` (hooks/useBacktracking.ts:1064-1086): no subset, no solutions, a first step. */
    constructor (cfg: Config)
      ensures Valid() && this.cfg == cfg && fresh(rec) && subset == [] && solutions == []
      ensures rec.tree == Tree(Root, Title("Subset Sum"), []) && rec.steps == [Step(SubsetStep(Start, 0, [], []), Root)]
    {
      this.cfg := cfg;
      rec := new Recorder("Subset Sum");
      subset, solutions, picks, chosen := [], [], [], [];
      new;
      rec.Push(SubsetStep(Start, 0, [], []), Root);
    }

    /**
     * `solveSubsetSum` (hooks/useBacktracking.ts:1089-1208) at index with the running sum:
     * record the subset when it hits the target within the size limit, stop there when only
     * one solution is wanted, and otherwise go on with the number at index unless the branch
     * is pruned. A call that is not done gives the subset back as it found it; solutions are
     * only ever added; a pruned call adds at most the subset itself and draws no tree node.
     */
    method Solve(index: nat, sum: int, parent: NodeId) returns (done: bool)
      requires Valid() && parent in Ids(rec.tree) && sum == Sum(subset)
      requires forall k :: 0 <= k < |picks| ==> picks[k] < index
      modifies this, rec
      ensures Valid() && old(rec.steps) <= rec.steps && Ids(old(rec.tree)) <= Ids(rec.tree)
      ensures Outcome(done, cfg.findAll, old(subset), old(picks), old(solutions), subset, picks, solutions)
      ensures Pruned(cfg, index, sum, old(subset)) ==>
                solutions == old(solutions) + (if Hit(cfg, sum, old(subset)) then [old(subset)] else [])
                && rec.tree == old(rec.tree)
      decreases |cfg.numbers| - index, 2
    {
      done := false;
      if sum == cfg.target && (cfg.maxSize.None? || |subset| <= cfg.maxSize.value) {
        Keep(index, sum, parent);
        if !cfg.findAll {
          return true;
        }
      }
      if index >= |cfg.numbers| || sum > cfg.target {
        return false;
      }
      if cfg.maxSize.Some? && |subset| >= cfg.maxSize.value {
        return false;
      }
      ghost var kept := rec.steps;
      var node := rec.Open(parent, IndexOf(index));
      rec.Push(SubsetStep(Consider(index), sum, subset, solutions), node);
      ghost var considered := rec.steps;
      done := Branch(index, sum, node);
      Later(kept, considered, rec.steps);
      Later(old(rec.steps), kept, rec.steps);
    }

    /** `solutions.push([...currentSubset])` and its step (hooks/useBacktracking.ts:1099-1113). */
    method Keep(index: nat, sum: int, parent: NodeId)
      requires Valid() && parent in Ids(rec.tree) && sum == Sum(subset) && Hit(cfg, sum, subset)
      modifies this`solutions, this`chosen, rec
      ensures Valid() && solutions == old(solutions) + [subset]
      ensures old(rec.steps) <= rec.steps && rec.tree == old(rec.tree)
    {
      Record(cfg, subset, picks, solutions, chosen);
      solutions, chosen := solutions + [subset], chosen + [picks];
      rec.Push(SubsetStep(Found(index), sum, subset, solutions), parent);
    }

    /**
     * Both branches at index (hooks/useBacktracking.ts:1157-1207): with the number included,
     * and, unless that finished the search, with it excluded again.
     */
    method Branch(index: nat, sum: int, node: NodeId) returns (done: bool)
      requires Valid() && node in Ids(rec.tree) && sum == Sum(subset) && index < |cfg.numbers|
      requires forall k :: 0 <= k < |picks| ==> picks[k] < index
      modifies this, rec
      ensures Valid() && old(rec.steps) <= rec.steps && Ids(old(rec.tree)) <= Ids(rec.tree)
      ensures Outcome(done, cfg.findAll, old(subset), old(picks), old(solutions), subset, picks, solutions)
      decreases |cfg.numbers| - index, 1
    {
      done := Included(index, sum, node);
      if done {
        return;
      }
      var sol1 := solutions;
      done := Excluded(index, sum, node);
      OutcomeDropped(done, cfg.findAll, old(subset), old(picks), old(solutions), sol1, subset, picks, solutions);
    }

    /** The branch with the number at index included (hooks/useBacktracking.ts:1157-1184). */
    method Included(index: nat, sum: int, node: NodeId) returns (done: bool)
      requires Valid() && node in Ids(rec.tree) && sum == Sum(subset) && index < |cfg.numbers|
      requires forall k :: 0 <= k < |picks| ==> picks[k] < index
      modifies this, rec
      ensures Valid() && old(rec.steps) <= rec.steps && Ids(old(rec.tree)) <= Ids(rec.tree)
      ensures Outcome(done, cfg.findAll, old(subset), old(picks), old(solutions), subset, picks, solutions)
      decreases |cfg.numbers| - index, 0
    {
      var x := cfg.numbers[index];
      Take(index, sum, node);
      ghost var taken := rec.steps;
      done := Solve(index + 1, sum + x, node);
      Later(old(rec.steps), taken, rec.steps);
      if done {
        OutcomeTaken(cfg.findAll, old(subset), old(picks), old(solutions), x, index, subset, picks, solutions);
      } else {
        ghost var back := rec.steps;
        Drop(index, sum, node, old(subset), old(picks));
        Later(old(rec.steps), back, rec.steps);
      }
    }

    /** The branch with the number at index left out (hooks/useBacktracking.ts:1186-1207). */
    method Excluded(index: nat, sum: int, node: NodeId) returns (done: bool)
      requires Valid() && node in Ids(rec.tree) && sum == Sum(subset) && index < |cfg.numbers|
      requires forall k :: 0 <= k < |picks| ==> picks[k] < index
      modifies this, rec
      ensures Valid() && old(rec.steps) <= rec.steps && Ids(old(rec.tree)) <= Ids(rec.tree)
      ensures Outcome(done, cfg.findAll, old(subset), old(picks), old(solutions), subset, picks, solutions)
      decreases |cfg.numbers| - index, 0
    {
      done := Solve(index + 1, sum, node);
    }

    /** `currentSubset.push(numbers[index])` and its step (hooks/useBacktracking.ts:1157-1171). */
    method Take(index: nat, sum: int, node: NodeId)
      requires Valid() && node in Ids(rec.tree) && sum == Sum(subset) && index < |cfg.numbers|
      requires forall k :: 0 <= k < |picks| ==> picks[k] < index
      modifies this`subset, this`picks, rec
      ensures Valid() && old(rec.steps) <= rec.steps && rec.tree == old(rec.tree)
      ensures subset == old(subset) + [cfg.numbers[index]] && picks == old(picks) + [index]
      ensures Sum(subset) == sum + cfg.numbers[index] && forall k :: 0 <= k < |picks| ==> picks[k] < index + 1
    {
      var x := cfg.numbers[index];
      SumSnoc(subset, x);
      PickOn(cfg.numbers, subset, picks, index);
      subset, picks := subset + [x], picks + [index];
      rec.Push(SubsetStep(Include(index), sum + x, subset, solutions), node);
    }

    /** `currentSubset.pop()` and its step (hooks/useBacktracking.ts:1186-1198). */
    method Drop(index: nat, sum: int, node: NodeId, ghost keep: seq<int>, ghost before: seq<nat>)
      requires Valid() && node in Ids(rec.tree) && index < |cfg.numbers|
      requires subset == keep + [cfg.numbers[index]] && picks == before + [index]
      modifies this`subset, this`picks, rec
      ensures Valid() && old(rec.steps) <= rec.steps && rec.tree == old(rec.tree)
      ensures subset == keep && picks == before
    {
      PickOff(cfg.numbers, subset, before, index);
      assert subset[..|subset| - 1] == keep;
      subset, picks := subset[..|subset| - 1], before;
      rec.Push(SubsetStep(Exclude(index), sum, subset, solutions), node);
    }

    /**
     * `generateSubsetSumSteps` from `solveSubsetSum(0, 0, [], solutions, "root")` on
     * (hooks/useBacktracking.ts:1227-1255): every solution sums to the target, fits the size
     * limit and is drawn from the numbers in order; the last step says there was no solution
     * when there was none, and counts them when all were sought and more than one was found.
     */
    method Run() returns (steps: seq<Step<SubsetStep>>)
      requires Valid() && subset == [] && solutions == [] && |rec.steps| > 0
      modifies this, rec
      ensures Valid() && steps == rec.steps && old(rec.steps) <= steps && |steps| > 0
      ensures solutions == [] ==> steps[|steps| - 1] == Step(SubsetStep(NoSolution(|cfg.numbers|), 0, [], []), Root)
      ensures cfg.findAll && |solutions| > 1 ==>
                steps[|steps| - 1] == Step(SubsetStep(Summary(|solutions|), 0, [], solutions), Root)
      ensures !cfg.findAll ==> |solutions| <= 1
    {
      var done := Solve(0, 0, Root);
      if |solutions| == 0 {
        rec.Push(SubsetStep(NoSolution(|cfg.numbers|), 0, [], []), Root);
      } else if cfg.findAll && |solutions| > 1 {
        rec.Push(SubsetStep(Summary(|solutions|), 0, [], solutions), Root);
      }
      steps := rec.steps;
    }
  }
}
