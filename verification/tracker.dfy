/**
 The scroll-depth bookkeeping of the `useScrollTracker` hook
 (src/useScrollTracker.ts), reduced to a pure state machine.

 The hook keeps the depths still to be reported (`scrollDepths`; absent when
 the caller passed none) and the `scrollY` it exposes. Each scroll event runs
 `handleScroll`, modelled here as `Step`: it sorts the depths, reports every
 depth the current percentage has reached (one callback record each, in
 ascending order), keeps the rest, and detaches the listener once nothing
 remains. The React state hooks and the event subscription are reduced to the
 `listening` flag.
 */
module Tracker {
  import opened Wrappers
  import opened Depths
  import Geometry

  /** The hook's state: remaining depths (`None` when none were configured), `scrollY`, and whether the listener is attached. */
  datatype State = State(scrollDepths: Option<seq<real>>, scrollY: real, listening: bool)

  /** The argument of one callback invocation. */
  datatype Record = Record(scrollY: real, scrollPercent: real, remainingDepths: seq<real>)

  /** What one scroll event does: the state afterwards and the callback records it emitted, in order. */
  datatype StepResult = StepResult(state: State, calls: seq<Record>)

  /** The state on mount: the configured depths, `scrollY` 0, listener attached. */
  function Init(trackScrollDepths: Option<seq<real>>): State {
    State(trackScrollDepths, 0.0, true)
  }

  /** `endScrollTracker`: detach the scroll listener. */
  function EndScrollTracker(s: State): (r: State)
    ensures !r.listening
    ensures r.scrollDepths == s.scrollDepths && r.scrollY == s.scrollY
  {
    s.(listening := false)
  }

  /** The `scrollY` fields of a list of records. */
  function ScrollYs(calls: seq<Record>): seq<real> {
    seq(|calls|, i requires 0 <= i < |calls| => calls[i].scrollY)
  }

  lemma ScrollYsAppend(a: seq<Record>, b: seq<Record>)
    ensures ScrollYs(a + b) == ScrollYs(a) + ScrollYs(b)
  {
  }

  /**
   The callback records for the depths `reached` at `percent`, ascending: the
   i-th reports `reached[i]` and, as still remaining, the reached depths after
   it followed by the unreached ones.
   */
  function Emit(reached: seq<real>, remaining: seq<real>, percent: real): (calls: seq<Record>)
    ensures |calls| == |reached|
  {
    seq(|reached|, i requires 0 <= i < |reached| => Record(reached[i], percent, reached[i + 1..] + remaining))
  }

  /**
   The records report the reached depths in the order given, each with the
   current percentage. Each record's depth followed by its remaining list is
   the rest of the batch from that record on; so each remaining list is the
   next record's depth followed by the next record's list, and the last one
   is the unreached depths.
   */
  lemma EmitReportsInOrder(reached: seq<real>, remaining: seq<real>, percent: real)
    ensures ScrollYs(Emit(reached, remaining, percent)) == reached
    ensures var calls := Emit(reached, remaining, percent);
      forall i :: 0 <= i < |calls| ==> calls[i].scrollPercent == percent
    ensures var calls := Emit(reached, remaining, percent);
      forall i :: 0 <= i < |calls| ==> [calls[i].scrollY] + calls[i].remainingDepths == reached[i..] + remaining
    ensures var calls := Emit(reached, remaining, percent);
      forall i, j :: 0 <= i && j == i + 1 && j < |calls| ==>
        calls[i].remainingDepths == [calls[j].scrollY] + calls[j].remainingDepths
    ensures var calls := Emit(reached, remaining, percent);
      |calls| > 0 ==> calls[|calls| - 1].remainingDepths == remaining
  {
    var calls := Emit(reached, remaining, percent);
    EmitRecordsAreSuffixes(reached, remaining, percent);
    forall i, j | 0 <= i && j == i + 1 && j < |calls|
      ensures calls[i].remainingDepths == [calls[j].scrollY] + calls[j].remainingDepths
    {
      assert calls[i].remainingDepths == reached[j..] + remaining;
    }
  }

  /** Each record's depth followed by its remaining list is the rest of the batch from that record on. */
  lemma EmitRecordsAreSuffixes(reached: seq<real>, remaining: seq<real>, percent: real)
    ensures var calls := Emit(reached, remaining, percent);
      forall i :: 0 <= i < |calls| ==> [calls[i].scrollY] + calls[i].remainingDepths == reached[i..] + remaining
  {
    var calls := Emit(reached, remaining, percent);
    forall i | 0 <= i < |calls|
      ensures [calls[i].scrollY] + calls[i].remainingDepths == reached[i..] + remaining
    {
      assert reached[i..] == [reached[i]] + reached[i + 1..];
    }
  }

  /**
   `handleScroll` at scroll percentage `percent`; `hasCallback` says whether
   the caller supplied a callback.
   */
  function Step(s: State, percent: real, hasCallback: bool): (r: StepResult)
    ensures !s.listening ==> r == StepResult(s, [])
    ensures r.state.listening ==> s.listening
    ensures !hasCallback ==> r.calls == []
  {
    if !s.listening then StepResult(s, [])
    else match s.scrollDepths
      case None => StepResult(s.(scrollY := percent), [])
      case Some(depths) =>
        var sorted := Sort(depths);
        var reached := Reached(sorted, percent);
        var remaining := Remaining(sorted, percent);
        if |reached| > 0 then
          var calls := if hasCallback then Emit(reached, remaining, percent) else [];
          StepResult(State(Some(remaining), reached[|reached| - 1], |remaining| != 0), calls)
        else
          StepResult(s, [])
  }

  /** True iff `percent` reaches at least one of `depths`. */
  predicate Hits(depths: seq<real>, percent: real) {
    exists i :: 0 <= i < |depths| && depths[i] <= percent
  }

  /** True iff some of `depths` lies above `percent`, so is still to be reached. */
  predicate HasUnreached(depths: seq<real>, percent: real) {
    exists i :: 0 <= i < |depths| && percent < depths[i]
  }

  /** The sorted depths split into the reached ones and the remaining ones, and the split is exact. */
  lemma SortedSplit(depths: seq<real>, percent: real)
    ensures Reached(Sort(depths), percent) + Remaining(Sort(depths), percent) == Sort(depths)
    ensures multiset(Reached(Sort(depths), percent)) == multiset(Reached(depths, percent))
    ensures multiset(Remaining(Sort(depths), percent)) == multiset(Remaining(depths, percent))
    ensures |Reached(Sort(depths), percent)| > 0 <==> Hits(depths, percent)
  {
    var sorted := Sort(depths);
    SortedSplits(sorted, percent);
    FiltersRespectPermutation(sorted, depths, percent);
    ReachedNonEmptyIffHits(depths, percent);
  }

  /** Some depth is reached exactly when the reached list is non-empty. */
  lemma ReachedNonEmptyIffHits(depths: seq<real>, percent: real)
    ensures |Reached(depths, percent)| > 0 <==> Hits(depths, percent)
  {
    var a := Reached(depths, percent);
    if Hits(depths, percent) {
      var i :| 0 <= i < |depths| && depths[i] <= percent;
      PartitionIsExact(depths, percent);
      FilterCounts(depths, percent);
      assert depths[i] in multiset(depths);
      assert multiset(a)[depths[i]] > 0;
    } else {
      FiltersAreSubMultisets(depths, percent);
    }
  }

  /** Some depth remains exactly when the remaining list is non-empty. */
  lemma RemainingNonEmptyIffAbove(depths: seq<real>, percent: real)
    ensures |Remaining(depths, percent)| > 0 <==> HasUnreached(depths, percent)
  {
    var b := Remaining(depths, percent);
    if HasUnreached(depths, percent) {
      var i :| 0 <= i < |depths| && percent < depths[i];
      PartitionIsExact(depths, percent);
      FilterCounts(depths, percent);
      assert depths[i] in multiset(depths);
      assert multiset(b)[depths[i]] > 0;
    } else {
      FiltersAreSubMultisets(depths, percent);
    }
  }

  /** With no depths configured, a step stores the raw percentage as `scrollY` and reports nothing. */
  lemma StepWithoutDepths(s: State, percent: real, hasCallback: bool)
    requires s.listening && s.scrollDepths.None?
    ensures Step(s, percent, hasCallback) == StepResult(s.(scrollY := percent), [])
  {
  }

  /**
   After a step the stored depths are exactly the configured depths the
   percentage has not reached: all of them lie above it, and none is lost.
   */
  lemma StepKeepsUnreached(s: State, percent: real, hasCallback: bool)
    requires s.listening && s.scrollDepths.Some?
    ensures Step(s, percent, hasCallback).state.scrollDepths.Some?
    ensures var next := Step(s, percent, hasCallback).state.scrollDepths.value;
      forall i :: 0 <= i < |next| ==> percent < next[i]
    ensures var next := Step(s, percent, hasCallback).state.scrollDepths.value;
      multiset(next) == multiset(Remaining(s.scrollDepths.value, percent))
  {
    var depths := s.scrollDepths.value;
    SortedSplit(depths, percent);
    if !Hits(depths, percent) {
      PartitionIsExact(depths, percent);
      ReachedNonEmptyIffHits(depths, percent);
      assert multiset(Reached(depths, percent)) == multiset{};
    }
  }

  /**
   With a callback, a step emits one record per reached depth (counted with
   multiplicity), in ascending order, all carrying the current percentage. Each
   record's remaining list is the next record's depth followed by the next
   record's remaining list, so it shrinks by one per record; the last one is
   the new stored list, and the first depth with its remaining list is the
   whole sorted configuration.
   */
  lemma StepReports(s: State, percent: real)
    requires s.listening && s.scrollDepths.Some?
    ensures var r := Step(s, percent, true);
      multiset(ScrollYs(r.calls)) == multiset(Reached(s.scrollDepths.value, percent))
    ensures Sorted(ScrollYs(Step(s, percent, true).calls))
    ensures var r := Step(s, percent, true);
      forall i :: 0 <= i < |r.calls| ==> r.calls[i].scrollPercent == percent
    ensures var r := Step(s, percent, true);
      forall i, j :: 0 <= i && j == i + 1 && j < |r.calls| ==>
        r.calls[i].remainingDepths == [r.calls[j].scrollY] + r.calls[j].remainingDepths
    ensures var r := Step(s, percent, true);
      |r.calls| > 0 ==> r.calls[|r.calls| - 1].remainingDepths == r.state.scrollDepths.value
    ensures var r := Step(s, percent, true);
      |r.calls| > 0 ==> [r.calls[0].scrollY] + r.calls[0].remainingDepths == Sort(s.scrollDepths.value)
  {
    var depths := s.scrollDepths.value;
    var sorted := Sort(depths);
    SortedSplit(depths, percent);
    FiltersKeepOrder(sorted, percent);
    EmitReportsInOrder(Reached(sorted, percent), Remaining(sorted, percent), percent);
    if !Hits(depths, percent) {
      ReachedNonEmptyIffHits(depths, percent);
    }
  }

  /** The last of the reached depths is the largest depth the percentage reaches. */
  lemma LastReachedIsLargest(depths: seq<real>, percent: real)
    requires Hits(depths, percent)
    ensures |Reached(Sort(depths), percent)| > 0
    ensures var reached := Reached(Sort(depths), percent);
      reached[|reached| - 1] <= percent && reached[|reached| - 1] in depths
    ensures var reached := Reached(Sort(depths), percent);
      forall i :: 0 <= i < |depths| && depths[i] <= percent ==> depths[i] <= reached[|reached| - 1]
  {
    var sorted := Sort(depths);
    var reached := Reached(sorted, percent);
    SortedSplit(depths, percent);
    FiltersKeepOrder(sorted, percent);
    var y := reached[|reached| - 1];
    assert y in multiset(reached);
    assert y in multiset(sorted);
    LastIsLargest(reached);
    ReachedKeepsAllBelow(sorted, percent);
    forall i | 0 <= i < |depths| && depths[i] <= percent
      ensures depths[i] <= y
    {
      assert depths[i] in multiset(sorted);
      var j :| 0 <= j < |sorted| && sorted[j] == depths[i];
      assert sorted[j] in reached;
    }
  }

  /**
   On a step that reaches some depth, `scrollY` becomes the largest reached
   depth, the stored list is ascending, and the listener stays attached
   exactly when some depth lies above the percentage; otherwise nothing is
   left to track.
   */
  lemma StepHit(s: State, percent: real, hasCallback: bool)
    requires s.listening && s.scrollDepths.Some?
    requires Hits(s.scrollDepths.value, percent)
    ensures var y := Step(s, percent, hasCallback).state.scrollY;
      y <= percent && y in s.scrollDepths.value
    ensures var y := Step(s, percent, hasCallback).state.scrollY;
      forall i :: 0 <= i < |s.scrollDepths.value| && s.scrollDepths.value[i] <= percent ==>
        s.scrollDepths.value[i] <= y
    ensures Sorted(Step(s, percent, hasCallback).state.scrollDepths.value)
    ensures Step(s, percent, hasCallback).state.listening <==> HasUnreached(s.scrollDepths.value, percent)
    ensures !Step(s, percent, hasCallback).state.listening ==>
      Step(s, percent, hasCallback).state.scrollDepths == Some([])
  {
    var depths := s.scrollDepths.value;
    LastReachedIsLargest(depths, percent);
    SortedSplit(depths, percent);
    FiltersKeepOrder(Sort(depths), percent);
    var remaining := Remaining(Sort(depths), percent);
    assert multiset(remaining) == multiset(Remaining(depths, percent));
    assert |multiset(remaining)| == |multiset(Remaining(depths, percent))|;
    RemainingNonEmptyIffAbove(depths, percent);
  }

  /** A step changes nothing and reports nothing exactly when no depth is reached. */
  lemma StepNoHit(s: State, percent: real, hasCallback: bool)
    requires s.listening && s.scrollDepths.Some?
    ensures !Hits(s.scrollDepths.value, percent) <==> Step(s, percent, hasCallback) == StepResult(s, [])
  {
    var depths := s.scrollDepths.value;
    SortedSplit(depths, percent);
    if Hits(depths, percent) {
      var sorted := Sort(depths);
      assert |Remaining(sorted, percent)| < |sorted|;
      assert |sorted| == |multiset(sorted)| == |depths|;
    }
  }

  /** Whether a callback is supplied changes what is reported, never the state. */
  lemma StepStateIgnoresCallback(s: State, percent: real)
    ensures Step(s, percent, false) == StepResult(Step(s, percent, true).state, [])
  {
  }

  /**
   The order in which the depths were configured does not matter: the same
   records are emitted, and a step that reaches a depth leaves the same state.
   */
  lemma StepIsOrderIndependent(s: State, other: seq<real>, percent: real, hasCallback: bool)
    requires s.scrollDepths.Some?
    requires multiset(other) == multiset(s.scrollDepths.value)
    ensures Step(s.(scrollDepths := Some(other)), percent, hasCallback).calls == Step(s, percent, hasCallback).calls
    ensures s.listening && Hits(s.scrollDepths.value, percent) ==>
      Step(s.(scrollDepths := Some(other)), percent, hasCallback).state == Step(s, percent, hasCallback).state
  {
    var depths := s.scrollDepths.value;
    var s' := s.(scrollDepths := Some(other));
    SortIsOrderIndependent(other, depths);
    SortedSplit(depths, percent);
    var sorted := Sort(depths);
    var reached, remaining := Reached(sorted, percent), Remaining(sorted, percent);
    if s.listening && Hits(depths, percent) {
      var calls := if hasCallback then Emit(reached, remaining, percent) else [];
      var next := State(Some(remaining), reached[|reached| - 1], |remaining| != 0);
      assert Step(s, percent, hasCallback) == StepResult(next, calls);
      assert Step(s', percent, hasCallback) == StepResult(next, calls);
    }
  }

  /**
   A tracker whose list is exhausted is idle even with a listener attached, as
   it is after React re-runs the subscribing effect on the emptied list.
   */
  lemma StepExhaustedIsIdle(s: State, percent: real, hasCallback: bool)
    requires s.scrollDepths == Some([])
    ensures Step(s, percent, hasCallback) == StepResult(s, [])
  {
  }

  /** Once the listener is detached no scroll event has any effect, and detaching again changes nothing. */
  lemma EndScrollTrackerIsFinal(s: State, percent: real, hasCallback: bool)
    ensures Step(EndScrollTracker(s), percent, hasCallback) == StepResult(EndScrollTracker(s), [])
    ensures EndScrollTracker(EndScrollTracker(s)) == EndScrollTracker(s)
  {
  }

  /** Every record a step emits carries the step's percentage. */
  lemma StepCallsCarryPercent(s: State, percent: real, hasCallback: bool)
    ensures var r := Step(s, percent, hasCallback);
      forall i :: 0 <= i < |r.calls| ==> r.calls[i].scrollPercent == percent
  {
    if s.listening && s.scrollDepths.Some? {
      var sorted := Sort(s.scrollDepths.value);
      EmitReportsInOrder(Reached(sorted, percent), Remaining(sorted, percent), percent);
    }
  }

  /**
   `handleScroll` on a document: the step at the document's scroll percentage.
   The source divides by the scrollable height without a guard; a zero
   scrollable height gives no real percentage, so it is excluded here.
   */
  function HandleScroll(s: State, doc: Geometry.Document, hasCallback: bool): (r: StepResult)
    requires Geometry.ScrollableHeight(doc) != 0.0
    ensures s.listening && s.scrollDepths.None? ==>
      Geometry.IsPercentOf(r.state.scrollY, Geometry.ScrollTop(doc), Geometry.ScrollableHeight(doc))
    ensures forall i :: 0 <= i < |r.calls| ==>
      Geometry.IsPercentOf(r.calls[i].scrollPercent, Geometry.ScrollTop(doc), Geometry.ScrollableHeight(doc))
    ensures forall p :: Geometry.IsPercentOf(p, Geometry.ScrollTop(doc), Geometry.ScrollableHeight(doc)) ==>
      r == Step(s, p, hasCallback)
  {
    var percent := Geometry.ScrollPercent(doc).value;
    Geometry.PercentIsUnique(percent, Geometry.ScrollTop(doc), Geometry.ScrollableHeight(doc));
    StepCallsCarryPercent(s, percent, hasCallback);
    Step(s, percent, hasCallback)
  }
}
