/**
 * The replay of a backtracking run (hooks/useBacktracking.ts:179-255): the page holds the list
 * of recorded steps and an index into it, and an interval moves the index on by one per tick
 * until the last step is shown. The interval callback sees the length of the list as it was
 * when the replay was started.
 */
module Replay {

  /** The replay state of the backtracking page. */
  class Cursor {
    /** `activeSteps.length`: the number of steps the page holds. */
    var length: nat
    /** `currentStepIndex`. */
    var index: nat
    /** `running`. */
    var running: bool
    /** An interval is scheduled in `timerRef`. */
    var ticking: bool
    /** The length of the step list the scheduled interval reads. */
    var seen: nat

    /**
     * The page is replaying exactly while an interval is scheduled, and a replaying index
     * never lies past the last step the interval knows of (it is 0 when there is none).
     */
    ghost predicate Valid()
      reads this
    {
      running == ticking && (ticking ==> index == 0 || index < seen)
    }

    /** The ticks a running replay has left before it stops at the last step. */
    ghost function Remaining(): nat
      reads this
    {
      if index < seen then seen - index else 0
    }

    /** A page showing the first of `count` steps, not replaying. */
    constructor (count: nat)
      ensures Valid() && length == count && index == 0 && !running && !ticking
    {
      length, index, running, ticking, seen := count, 0, false, false, 0;
    }

    /**
     * `startVisualization` (hooks/useBacktracking.ts:179-231). A running replay is left
     * alone. Otherwise an empty step list is first prepared, which puts `prepared` steps on
     * the page and the index at 0; an index at or past the last step starts over at 0; and
     * the interval is scheduled with the length the page held when it was pressed, so after
     * preparing it sees no steps at all.
     */
    method Start(prepared: nat)
      requires Valid()
      modifies this
      ensures Valid()
      ensures old(running) ==> length == old(length) && index == old(index) && running && ticking && seen == old(seen)
      ensures !old(running) ==> running && ticking && seen == old(length)
      ensures !old(running) ==> length == (if old(length) == 0 then prepared else old(length))
      ensures !old(running) ==> index == (if old(index) + 1 >= old(length) then 0 else old(index))
    {
      if running {
        return;
      }
      var before := length;
      if length == 0 {
        Prepare(prepared);
      }
      if index + 1 >= before {
        index := 0;
      }
      running, ticking, seen := true, true, before;
    }

    /**
     * `prepareAlgorithm` (hooks/useBacktracking.ts:131-153): the interval is cleared, the
     * replay stops, the index goes back to the first step and `count` steps, cached or newly
     * generated, are put on the page.
     */
    method Prepare(count: nat)
      modifies this
      ensures Valid() && length == count && index == 0 && !running && !ticking && seen == old(seen)
    {
      ticking, running, index, length := false, false, 0, count;
    }

    /**
     * One call of the interval callback (hooks/useBacktracking.ts:197-230): at or past the
     * last step the interval is cleared and the replay stops, with the index kept; otherwise
     * the index moves on by one. Without a scheduled interval nothing happens.
     */
    method Tick()
      requires Valid()
      modifies this`index, this`running, this`ticking
      ensures Valid()
      ensures !old(ticking) ==> index == old(index) && running == old(running) && ticking == old(ticking)
      ensures old(ticking) && old(index) + 1 >= seen ==> !running && !ticking && index == old(index)
      ensures old(ticking) && old(index) + 1 < seen ==> running && ticking && index == old(index) + 1
      ensures old(ticking) && ticking ==> Remaining() < old(Remaining())
    {
      if !ticking {
        return;
      }
      if index + 1 >= seen {
        ticking, running := false, false;
      } else {
        index := index + 1;
      }
    }

    /**
     * `stopVisualization` (hooks/useBacktracking.ts:234-243): a running replay has its
     * interval cleared and stops where it is; a stopped one is left alone.
     */
    method Stop()
      requires Valid()
      modifies this`running, this`ticking
      ensures Valid() && !running && !ticking
    {
      if !running {
        return;
      }
      ticking, running := false, false;
    }

    /**
     * `resetVisualization` (hooks/useBacktracking.ts:246-255): the replay stops, the index
     * goes back to the first step, and a newly generated list of `count` steps replaces the
     * old one.
     */
    method Reset(count: nat)
      requires Valid()
      modifies this
      ensures Valid() && !running && !ticking && index == 0 && length == count && seen == old(seen)
    {
      if running {
        Stop();
      }
      index := 0;
      length := count;
    }
  }
}
