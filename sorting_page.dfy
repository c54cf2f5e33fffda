/**
 * The state of the sorting page (hooks/useAlgorithmVisualizer.ts): the array on show, the
 * counters a run fills in, the flags that start and cancel a run, the race results and the
 * drag-and-drop reordering of bars by hand. React's state setters become assignments to the
 * fields of one object; the sorts a run starts are modelled in their own modules.
 */
module SortingPage {
  import opened RecursionTree
  import opened JsSort
  import Generators

  /** The statistics kept across runs: `totalSorts`, `fastestSort`, `algorithmsUsed`, ... */
  datatype Stats = Stats(totalSorts: nat, fastest: Key, used: set<string>, minComparisons: Key,
                         arraySize: int, challenges: nat)

  /** What a finished racer reports: its algorithm, time and counters. */
  datatype RaceResult = RaceResult(algorithm: string, time: int, comparisons: int, swaps: int, name: string)

  /** The sort key of a race result: its time. */
  function Time(r: RaceResult): Key
  {
    Fin(r.time)
  }

  /**
   * `results.sort((a, b) => a.time - b.time)` (hooks/useAlgorithmVisualizer.ts:375-376): the
   * same results, fastest first, racers with equal times in the order they were listed.
   */
  function Ranked(results: seq<RaceResult>): (r: seq<RaceResult>)
    ensures |r| == |results| && multiset(r) == multiset(results) && Ordered(r, Time)
  {
    SortByOrdered(results, Time);
    SortBy(results, Time)
  }

  /** Racers with equal times keep the order in which they were listed. */
  lemma RankedStable(results: seq<RaceResult>, t: int)
    ensures WithKey(Ranked(results), Time, Fin(t)) == WithKey(results, Time, Fin(t))
  {
    SortByStable(results, Time, Fin(t));
  }

  /** The first of the ranked results is the fastest racer: no result took less time. */
  lemma RankedFirst(results: seq<RaceResult>, k: int)
    requires 0 <= k < |results|
    ensures Ranked(results)[0].time <= results[k].time
  {
    var r := Ranked(results);
    assert results[k] in multiset(r);
    var j :| 0 <= j < |r| && r[j] == results[k];
    if j > 0 {
      assert !Below(Time(r[j]), Time(r[0]));
    }
  }

  /** `Math.min(m, x)` where m may still be `Infinity`. */
  function Least(m: Key, x: int): (r: Key)
    ensures r.Fin? && r.n <= x && (m.Fin? ==> r.n <= m.n) && (r.n == x || r == m)
  {
    if m.Fin? && m.n < x then m else Fin(x)
  }

  /** `Math.min(...results.map((r) => r.comparisons))`: the fewest comparisons of any racer. */
  function Fewest(s: seq<RaceResult>): (m: int)
    requires |s| > 0
    ensures forall k :: 0 <= k < |s| ==> m <= s[k].comparisons
    ensures exists k :: 0 <= k < |s| && m == s[k].comparisons
  {
    if |s| == 1 then s[0].comparisons
    else
      var m := Fewest(s[1..]);
      assert forall k :: 1 <= k < |s| ==> s[k] == s[1..][k - 1];
      if s[0].comparisons <= m then s[0].comparisons else m
  }

  /**
   * `handleDrop` (hooks/useAlgorithmVisualizer.ts:465-482): the value at `from` is taken out
   * with `splice(from, 1)` and put back with `splice(to, 0, value)`. The array keeps its
   * length and its values, the dragged value lands at `to`, and every other value keeps its
   * order.
   */
  function Moved<T>(s: seq<T>, from: nat, to: nat): (r: seq<T>)
    requires from < |s| && to < |s|
    ensures |r| == |s| && multiset(r) == multiset(s) && r[to] == s[from]
    ensures r[..to] + r[to + 1..] == s[..from] + s[from + 1..]
  {
    var rest := s[..from] + s[from + 1..];
    assert s == s[..from] + [s[from]] + s[from + 1..];
    var r := rest[..to] + [s[from]] + rest[to..];
    assert rest == rest[..to] + rest[to..];
    assert multiset(r) == multiset(rest[..to]) + multiset{s[from]} + multiset(rest[to..]);
    assert multiset(rest) == multiset(rest[..to]) + multiset(rest[to..]);
    assert multiset(rest) == multiset(s[..from]) + multiset(s[from + 1..]);
    assert multiset(r) == multiset(rest) + multiset{s[from]} == multiset(s);
    assert multiset(s) == multiset(s[..from]) + multiset{s[from]} + multiset(s[from + 1..]);
    assert r[..to] == rest[..to] && r[to + 1..] == rest[to..];
    r
  }

  /** Every entry of s is 0: `Array(n).fill(0)`. */
  predicate Zeroes(s: seq<int>)
  {
    forall k :: 0 <= k < |s| ==> s[k] == 0
  }

  /** The sorting page's state. */
  class Visualizer {
    var arraySize: nat
    /** `array`: the values on show. */
    var values: seq<int>
    /** `originalRaceArrayRef`: the array as generated, which a race starts every racer from. */
    var original: seq<int>
    var running: bool
    var comparisons: int
    var swaps: int
    /** `executionTime`. */
    var time: int
    /** `currentStep`: the narration line. */
    var step: string
    var active: seq<int>
    /** `accessPattern`: how often each position was read. */
    var access: seq<int>
    var progress: int
    /** `timerRef` holds an interval that updates `executionTime`. */
    var timer: bool
    /** `startTimeRef`. */
    var startTime: Option<int>
    /** `cancelRef`: the flag every running sort polls. */
    var cancel: bool
    var raceMode: bool
    var raceAlgorithms: seq<string>
    var raceResults: seq<RaceResult>
    var stats: Stats
    var dragged: Option<nat>
    var over: Option<nat>

    /**
     * `generateArray` (hooks/useAlgorithmVisualizer.ts:91-107): a new random array, which
     * is also kept as the array races start from.
     */
    method GenerateArray(u: nat -> real)
      requires Generators.Draws(u)
      modifies this`values, this`original
      ensures |values| == arraySize && forall i :: 0 <= i < |values| ==> 1 <= values[i] <= 100
      ensures original == values
    {
      values := Generators.RandomArray(arraySize, u);
      original := values;
    }

    /** `generateNearlySortedArray` (hooks/useAlgorithmVisualizer.ts:110-137). */
    method GenerateNearlySorted(u: nat -> real)
      requires Generators.Draws(u)
      modifies this`values, this`original
      ensures |values| == arraySize && multiset(values) == multiset(Generators.Ascending(arraySize))
      ensures |Generators.Differ(Generators.Ascending(arraySize), values)| <= 2 * (arraySize / 10)
      ensures original == values
    {
      values := Generators.NearlySorted(arraySize, u);
      original := values;
    }

    /** `generateReversedArray` (hooks/useAlgorithmVisualizer.ts:140-156). */
    method GenerateReversed()
      modifies this`values, this`original
      ensures values == Generators.Descending(arraySize) && original == values
    {
      values := Generators.Reversed(arraySize);
      original := values;
    }

    /** `generateFewUniqueArray` (hooks/useAlgorithmVisualizer.ts:159-176). */
    method GenerateFewUnique(u: nat -> real)
      requires Generators.Draws(u)
      modifies this`values, this`original
      ensures |values| == arraySize && forall i :: 0 <= i < |values| ==> values[i] in Generators.Unique
      ensures original == values
    {
      values := Generators.FewUnique(arraySize, u);
      original := values;
    }

    /**
     * `resetStats` (hooks/useAlgorithmVisualizer.ts:179-193): the counters, the time, the
     * narration and the progress go back to nothing, every position's access count to 0, the
     * timer is cleared, and the cancel flag is raised so that a sort still running stops.
     */
    method ResetStats()
      modifies this`comparisons, this`swaps, this`time, this`step, this`active, this`access
      modifies this`progress, this`timer, this`startTime, this`cancel
      ensures comparisons == 0 && swaps == 0 && time == 0 && step == "" && active == [] && progress == 0
      ensures |access| == |values| && Zeroes(access)
      ensures !timer && startTime == None && cancel
    {
      comparisons, swaps, time, step, active := 0, 0, 0, "", [];
      access := seq(|values|, _ => 0);
      progress := 0;
      timer := false;
      startTime := None;
      cancel := true;
    }

    /**
     * `startSorting` (hooks/useAlgorithmVisualizer.ts:219-250): only a page that is not
     * running and has a non-empty array starts a run; it then resets the statistics, lowers
     * the cancel flag, notes the start time `now` and schedules the timer. The array is left
     * as it is.
     */
    method StartSorting(now: int)
      modifies this`running, this`comparisons, this`swaps, this`time, this`step, this`active
      modifies this`access, this`progress, this`timer, this`startTime, this`cancel
      ensures old(running) || |values| == 0 ==> unchanged(this)
      ensures !old(running) && |values| > 0 ==>
                running && !cancel && timer && startTime == Some(now) &&
                comparisons == 0 && swaps == 0 && time == 0 && progress == 0 &&
                |access| == |values| && Zeroes(access)
    {
      if !running && |values| > 0 {
        running := true;
        ResetStats();
        cancel := false;
        startTime := Some(now);
        timer := true;
      }
    }

    /** The narration of a race stopped before any racer reported. */
    const RaceStopped := "Race stopped. Click 'Start Race' to begin again or 'Reset' to reset the arrays."

    /**
     * `stopSorting` (hooks/useAlgorithmVisualizer.ts:253-278): a running page raises the
     * cancel flag, clears the timer and stops; a race stopped before it had results says so
     * in the narration. A page that is not running is left alone.
     */
    method StopSorting()
      modifies this`running, this`cancel, this`timer, this`step
      ensures !old(running) ==> unchanged(this)
      ensures old(running) ==> !running && cancel && !timer
      ensures old(running) && !(raceMode && raceResults == []) ==> step == old(step)
      ensures old(running) && raceMode && raceResults == [] ==> step == RaceStopped
    {
      if running {
        cancel := true;
        timer := false;
        running := false;
        if raceMode && raceResults == [] {
          step := RaceStopped;
        }
      }
    }

    /**
     * The end of `startRace` (hooks/useAlgorithmVisualizer.ts:371-407), once every racer has
     * reported. Unless the race was cancelled the results are ranked fastest first and the
     * statistics take in the race: one more sort per racer and the algorithms used; the
     * fastest time and the fewest comparisons each become the smaller of the old value and
     * the race's, `Math.min` as the source writes it. With no racers at all, reading the fastest result
     * throws, and the statistics are left as they were. Either way the timer is cleared and
     * the page stops.
     */
    method FinishRace(results: seq<RaceResult>)
      modifies this`raceResults, this`stats, this`timer, this`running
      ensures !running && !timer
      ensures cancel ==> raceResults == old(raceResults) && stats == old(stats)
      ensures !cancel ==> |raceResults| == |results| && multiset(raceResults) == multiset(results)
      ensures !cancel ==> Ordered(raceResults, Time)
      ensures !cancel && results == [] ==> stats == old(stats)
      ensures !cancel && results != [] ==>
                stats.totalSorts == old(stats.totalSorts) + |raceAlgorithms| &&
                stats.fastest.Fin? && (forall k :: 0 <= k < |results| ==> stats.fastest.n <= results[k].time) &&
                stats.used == old(stats.used) + (set a | a in raceAlgorithms) &&
                stats.minComparisons.Fin? &&
                (forall k :: 0 <= k < |results| ==> stats.minComparisons.n <= results[k].comparisons)
    ensures !cancel && results != [] ==>
                (old(stats.fastest).Fin? ==> stats.fastest.n <= old(stats.fastest).n) &&
                (stats.fastest == old(stats.fastest) || exists k :: 0 <= k < |results| && stats.fastest.n == results[k].time) &&
                (old(stats.minComparisons).Fin? ==> stats.minComparisons.n <= old(stats.minComparisons).n) &&
                (stats.minComparisons == old(stats.minComparisons) ||
                 exists k :: 0 <= k < |results| && stats.minComparisons.n == results[k].comparisons)
    ensures stats.arraySize == old(stats.arraySize) && stats.challenges == old(stats.challenges)
    {
      if !cancel {
        raceResults := Ranked(results);
        if results != [] {
          forall k | 0 <= k < |results|
            ensures raceResults[0].time <= results[k].time
          {
            RankedFirst(results, k);
          }
          assert raceResults[0] in multiset(results);
          var first :| 0 <= first < |results| && results[first] == raceResults[0];
          stats := stats.(totalSorts := stats.totalSorts + |raceAlgorithms|,
                          fastest := Least(stats.fastest, raceResults[0].time),
                          used := stats.used + (set a | a in raceAlgorithms),
                          minComparisons := Least(stats.minComparisons, Fewest(results)));
        }
      }
      timer := false;
      running := false;
    }

    /** `handleDragStart` (hooks/useAlgorithmVisualizer.ts:456-458): the bar at index is picked up. */
    method DragStart(index: nat)
      modifies this`dragged
      ensures dragged == Some(index)
    {
      dragged := Some(index);
    }

    /** `handleDragOver` (hooks/useAlgorithmVisualizer.ts:460-463): the pointer is over the bar at index. */
    method DragOver(index: nat)
      modifies this`over
      ensures over == Some(index)
    {
      over := Some(index);
    }

    /**
     * `handleDrop` (hooks/useAlgorithmVisualizer.ts:465-482): with a bar picked up, its value
     * moves to index and the drag ends; with none the drop does nothing.
     */
    method Drop(index: nat)
      requires dragged.Some? ==> dragged.value < |values| && index < |values|
      modifies this`values, this`dragged, this`over
      ensures old(dragged) == None ==> unchanged(this)
      ensures old(dragged).Some? ==> values == Moved(old(values), old(dragged).value, index) && dragged == None && over == None
    {
      if dragged.Some? {
        values := Moved(values, dragged.value, index);
        dragged, over := None, None;
      }
    }
  }
}
