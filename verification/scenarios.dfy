/**
 The hook's documented scenarios, replayed on the model: a document 1000
 pixels tall in a 500-pixel viewport, scrolled to a given percentage of its
 500 scrollable pixels. Each scenario is stated for any depths ordered like
 the documented ones, so it covers the documented values as one instance.
 */
module Scenarios {
  import opened Wrappers
  import opened Depths
  import opened Tracker
  import opened Runs
  import Geometry

  /** The document of the scenarios, scrolled to `percent`. */
  function Page(percent: real): Geometry.Document {
    Geometry.DocumentAt(percent, 1000.0, 500.0)
  }

  /** A scroll event on the scenario page at `percent` is a step at exactly `percent`. */
  function ScrollTo(s: State, percent: real, hasCallback: bool): (r: StepResult)
    ensures r == Step(s, percent, hasCallback)
  {
    Geometry.DocumentAtRoundTrip(percent, 1000.0, 500.0);
    HandleScroll(s, Page(percent), hasCallback)
  }

  /** A step at `percent` on the ascending list `depths` whose first `k` entries it reaches. */
  lemma StepOnSorted(s: State, depths: seq<real>, k: nat, percent: real, hasCallback: bool)
    requires s.listening && s.scrollDepths == Some(depths) && Sorted(depths)
    requires 0 < k <= |depths|
    requires forall i :: 0 <= i < k ==> depths[i] <= percent
    requires forall i :: k <= i < |depths| ==> percent < depths[i]
    ensures Step(s, percent, hasCallback)
         == StepResult(State(Some(depths[k..]), depths[k - 1], k < |depths|),
                       if hasCallback then Emit(depths[..k], depths[k..], percent) else [])
  {
    var sorted := Sort(depths);
    SortOfSortedIsIdentity(depths);
    SplitAtBoundary(depths, k, percent);
    var reached, remaining := Reached(sorted, percent), Remaining(sorted, percent);
    assert reached == depths[..k];
    assert remaining == depths[k..];
    assert |reached| > 0;
    var last := reached[|reached| - 1];
    assert last == depths[k - 1];
    var calls := if hasCallback then Emit(reached, remaining, percent) else [];
    var next := State(Some(remaining), last, |remaining| != 0);
    assert Step(s, percent, hasCallback) == StepResult(next, calls);
  }

  /** Before any scroll event `scrollY` is 0. */
  lemma InitialScrollYIsZero(depths: Option<seq<real>>)
    ensures Init(depths).scrollY == 0.0
  {
  }

  /**
   Ascending depths (25, 50, 75, 100 in the scenario), scrolled to a
   percentage between the first and the second: `scrollY` becomes the first
   depth, and the one record reports it with all the others still to come.
   */
  lemma FirstDepthReached(depths: seq<real>, percent: real, hasCallback: bool)
    requires Sorted(depths) && |depths| >= 2
    requires depths[0] <= percent < depths[1]
    ensures Step(Init(Some(depths)), percent, hasCallback).state.scrollY == depths[0]
    ensures hasCallback ==>
      Step(Init(Some(depths)), percent, hasCallback).calls == [Record(depths[0], percent, depths[1..])]
  {
    StepCrossesOne(Init(Some(depths)), depths, percent, hasCallback);
  }

  /** A listening tracker whose smallest depth alone is reached reports exactly that depth. */
  lemma StepCrossesOne(s: State, depths: seq<real>, percent: real, hasCallback: bool)
    requires s.listening && s.scrollDepths == Some(depths)
    requires Sorted(depths) && |depths| >= 2
    requires depths[0] <= percent < depths[1]
    ensures Step(s, percent, hasCallback)
         == StepResult(State(Some(depths[1..]), depths[0], true),
                       if hasCallback then [Record(depths[0], percent, depths[1..])] else [])
  {
    StepOnSorted(s, depths, 1, percent, hasCallback);
    EmitOne(depths, percent);
  }

  /** The records of a batch with nothing left over: each lists the depths after it. */
  lemma EmitWithNothingLeft(depths: seq<real>, percent: real)
    ensures var calls := Emit(depths, [], percent);
      forall i :: 0 <= i < |depths| ==> calls[i] == Record(depths[i], percent, depths[i + 1..])
  {
    var calls := Emit(depths, [], percent);
    forall i | 0 <= i < |depths|
      ensures calls[i] == Record(depths[i], percent, depths[i + 1..])
    {
      assert depths[i + 1..] + [] == depths[i + 1..];
    }
  }

  /** The records of a batch of one depth. */
  lemma EmitOne(depths: seq<real>, percent: real)
    requires |depths| > 0
    ensures Emit(depths[..1], depths[1..], percent) == [Record(depths[0], percent, depths[1..])]
  {
    var calls := Emit(depths[..1], depths[1..], percent);
    assert |calls| == 1 && calls[0] == Record(depths[0], percent, depths[1..]);
  }

  /**
   Ascending depths (25, 50, 75 in the scenario), scrolled first to a
   percentage between the first and second depth and then to one between the
   second and third: one record per event, each reporting the depth just
   crossed with a remaining list one shorter than before, and `scrollY`
   following the depth just crossed.
   */
  lemma ProgressiveTracking(depths: seq<real>, p1: real, p2: real)
    requires Sorted(depths) && |depths| >= 3
    requires depths[0] <= p1 < depths[1] <= p2 < depths[2]
    ensures var first := Step(Init(Some(depths)), p1, true);
      first.state.scrollY == depths[0] && first.calls == [Record(depths[0], p1, depths[1..])]
    ensures var second := Step(Step(Init(Some(depths)), p1, true).state, p2, true);
      second.state.scrollY == depths[1] && second.calls == [Record(depths[1], p2, depths[2..])]
  {
    var rest := depths[1..];
    StepCrossesOne(Init(Some(depths)), depths, p1, true);
    assert Sorted(rest) && rest[1..] == depths[2..];
    StepCrossesOne(State(Some(rest), depths[0], true), rest, p2, true);
  }

  /**
   Ascending depths (25, 50, 75 in the scenario), scrolled in one event to a
   percentage at or past the last: one record per depth, in order, the i-th
   listing the depths after it as still remaining, and the tracker stops with
   `scrollY` at the last depth.
   */
  lemma JumpPastEveryDepth(depths: seq<real>, percent: real)
    requires Sorted(depths) && |depths| > 0
    requires forall i :: 0 <= i < |depths| ==> depths[i] <= percent
    ensures var r := Step(Init(Some(depths)), percent, true);
      |r.calls| == |depths|
      && (forall i :: 0 <= i < |depths| ==> r.calls[i] == Record(depths[i], percent, depths[i + 1..]))
    ensures var r := Step(Init(Some(depths)), percent, true);
      r.state == State(Some([]), depths[|depths| - 1], false)
  {
    var s0 := Init(Some(depths));
    assert Step(s0, percent, true) == StepResult(State(Some([]), depths[|depths| - 1], false), Emit(depths, [], percent)) by {
      StepOnSorted(s0, depths, |depths|, percent, true);
      assert depths[..|depths|] == depths;
      assert depths[|depths|..] == [];
    }
    EmitWithNothingLeft(depths, percent);
  }
}
