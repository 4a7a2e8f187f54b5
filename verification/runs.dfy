/**
 A sequence of scroll events fed to the hook one after another: the
 properties that span several `handleScroll` calls.
 */
module Runs {
  import opened Wrappers
  import opened Depths
  import opened Tracker

  /** The state after the scroll events at `percents`, and every record emitted on the way, in order. */
  function Run(s: State, percents: seq<real>, hasCallback: bool): (r: StepResult)
    ensures r.state.listening ==> s.listening
    ensures !hasCallback ==> r.calls == []
    decreases |percents|
  {
    if |percents| == 0 then StepResult(s, [])
    else
      var first := Step(s, percents[0], hasCallback);
      var rest := Run(first.state, percents[1..], hasCallback);
      StepResult(rest.state, first.calls + rest.calls)
  }

  /** Once the listener is detached, no later scroll event emits anything or changes the state. */
  lemma {:induction false} RunStoppedIsIdle(s: State, percents: seq<real>, hasCallback: bool)
    requires !s.listening
    ensures Run(s, percents, hasCallback) == StepResult(s, [])
    decreases |percents|
  {
    if |percents| > 0 {
      RunStoppedIsIdle(s, percents[1..], hasCallback);
    }
  }

  /** A tracker whose depth list is exhausted stays idle, listener attached or not. */
  lemma {:induction false} RunExhaustedIsIdle(s: State, percents: seq<real>, hasCallback: bool)
    requires s.scrollDepths == Some([])
    ensures Run(s, percents, hasCallback) == StepResult(s, [])
    decreases |percents|
  {
    if |percents| > 0 {
      StepExhaustedIsIdle(s, percents[0], hasCallback);
      RunExhaustedIsIdle(s, percents[1..], hasCallback);
    }
  }

  /**
   A step that reaches every remaining depth is terminal: the listener is
   detached and no later event emits anything or changes the state.
   */
  lemma ReachingEveryDepthIsTerminal(s: State, percent: real, later: seq<real>, hasCallback: bool)
    requires s.listening && s.scrollDepths.Some? && |s.scrollDepths.value| > 0
    requires forall i :: 0 <= i < |s.scrollDepths.value| ==> s.scrollDepths.value[i] <= percent
    ensures !Step(s, percent, hasCallback).state.listening
    ensures Step(s, percent, hasCallback).state.scrollDepths == Some([])
    ensures var next := Step(s, percent, hasCallback).state;
      Run(next, later, hasCallback) == StepResult(next, [])
  {
    var depths := s.scrollDepths.value;
    assert depths[0] <= percent;
    assert Hits(depths, percent);
    StepHit(s, percent, hasCallback);
    RunStoppedIsIdle(Step(s, percent, hasCallback).state, later, hasCallback);
  }

  /**
   Without configured depths the tracker never stops, never reports, and its
   `scrollY` is the latest percentage (0 before the first event).
   */
  lemma {:induction false} RunWithoutDepths(depthless: State, percents: seq<real>, hasCallback: bool)
    requires depthless.listening && depthless.scrollDepths.None?
    ensures var r := Run(depthless, percents, hasCallback);
      r.calls == [] && r.state.listening && r.state.scrollDepths.None?
    ensures Run(depthless, percents, hasCallback).state.scrollY
         == if |percents| == 0 then depthless.scrollY else percents[|percents| - 1]
    decreases |percents|
  {
    if |percents| > 0 {
      StepWithoutDepths(depthless, percents[0], hasCallback);
      RunWithoutDepths(depthless.(scrollY := percents[0]), percents[1..], hasCallback);
    }
  }

  /** The hook starts with `scrollY` 0 and, without depths, then follows the percentage. */
  lemma InitWithoutDepths(percents: seq<real>, hasCallback: bool)
    ensures Init(None).scrollY == 0.0 && Init(None).listening
    ensures Run(Init(None), percents, hasCallback).state.scrollY
         == if |percents| == 0 then 0.0 else percents[|percents| - 1]
  {
    RunWithoutDepths(Init(None), percents, hasCallback);
  }

  /**
   Every configured depth is reported at most once over any run: the
   depths reported so far and the depths still stored together make up the
   configured depths, counted with multiplicity.
   */
  lemma {:induction false} RunReportsEachDepthOnce(s: State, percents: seq<real>)
    requires s.scrollDepths.Some?
    ensures Run(s, percents, true).state.scrollDepths.Some?
    ensures var r := Run(s, percents, true);
      multiset(ScrollYs(r.calls)) + multiset(r.state.scrollDepths.value) == multiset(s.scrollDepths.value)
    decreases |percents|
  {
    if |percents| > 0 {
      var first := Step(s, percents[0], true);
      StepConserves(s, percents[0]);
      RunReportsEachDepthOnce(first.state, percents[1..]);
      ScrollYsAppend(first.calls, Run(first.state, percents[1..], true).calls);
    }
  }

  /** One step moves the reached depths from the stored list into the records. */
  lemma StepConserves(s: State, percent: real)
    requires s.scrollDepths.Some?
    ensures Step(s, percent, true).state.scrollDepths.Some?
    ensures var r := Step(s, percent, true);
      multiset(ScrollYs(r.calls)) + multiset(r.state.scrollDepths.value) == multiset(s.scrollDepths.value)
  {
    if s.listening {
      StepReports(s, percent);
      StepKeepsUnreached(s, percent, true);
      PartitionIsExact(s.scrollDepths.value, percent);
    }
  }

  /**
   The stored depths only ever shrink: whatever the callback, a run keeps a
   sub-multiset of the depths it started with.
   */
  lemma {:induction false} RunDepthsShrink(s: State, percents: seq<real>, hasCallback: bool)
    requires s.scrollDepths.Some?
    ensures Run(s, percents, hasCallback).state.scrollDepths.Some?
    ensures multiset(Run(s, percents, hasCallback).state.scrollDepths.value) <= multiset(s.scrollDepths.value)
    decreases |percents|
  {
    if |percents| > 0 {
      var first := Step(s, percents[0], hasCallback);
      StepStateIgnoresCallback(s, percents[0]);
      StepConserves(s, percents[0]);
      RunDepthsShrink(first.state, percents[1..], hasCallback);
    }
  }

  /**
   A reached depth is never reported again, even when the page scrolls back
   up: every depth still stored after a run lies above every percentage the
   run has seen.
   */
  lemma {:induction false} RunKeepsOnlyUnreached(s: State, percents: seq<real>, hasCallback: bool)
    requires s.listening && s.scrollDepths.Some?
    ensures Run(s, percents, hasCallback).state.scrollDepths.Some?
    ensures var rest := Run(s, percents, hasCallback).state.scrollDepths.value;
      forall i, k :: 0 <= i < |percents| && 0 <= k < |rest| ==> percents[i] < rest[k]
    decreases |percents|
  {
    RunDepthsShrink(s, percents, hasCallback);
    if |percents| > 0 {
      var first := Step(s, percents[0], hasCallback);
      StepKeepsUnreached(s, percents[0], hasCallback);
      var final := Run(first.state, percents[1..], hasCallback).state.scrollDepths.value;
      if first.state.listening {
        RunKeepsOnlyUnreached(first.state, percents[1..], hasCallback);
        RunDepthsShrink(first.state, percents[1..], hasCallback);
        AboveCarriesOver(first.state.scrollDepths.value, final, percents[0]);
        AllBelow(percents, final);
      } else {
        StepHit(s, percents[0], hasCallback);
        RunStoppedIsIdle(first.state, percents[1..], hasCallback);
      }
    }
  }

  /** Lifts "below every stored depth" from the first percentage and the later ones to all of them. */
  lemma AllBelow(percents: seq<real>, final: seq<real>)
    requires |percents| > 0
    requires forall k :: 0 <= k < |final| ==> percents[0] < final[k]
    requires forall i, k :: 0 <= i < |percents[1..]| && 0 <= k < |final| ==> percents[1..][i] < final[k]
    ensures forall i, k :: 0 <= i < |percents| && 0 <= k < |final| ==> percents[i] < final[k]
  {
    forall i, k | 0 <= i < |percents| && 0 <= k < |final|
      ensures percents[i] < final[k]
    {
      if i > 0 {
        assert percents[i] == percents[1..][i - 1];
      }
    }
  }

  /** A sub-multiset of a list lying above `percent` lies above it too. */
  lemma AboveCarriesOver(next: seq<real>, final: seq<real>, percent: real)
    requires multiset(final) <= multiset(next)
    requires forall i :: 0 <= i < |next| ==> percent < next[i]
    ensures forall k :: 0 <= k < |final| ==> percent < final[k]
  {
    forall k | 0 <= k < |final|
      ensures percent < final[k]
    {
      assert final[k] in multiset(final);
      assert final[k] in next;
    }
  }

  /** Putting an ascending list before a list of values no smaller than any of it keeps it ascending. */
  lemma SortedConcat(a: seq<real>, b: seq<real>)
    requires Sorted(a) && Sorted(b)
    requires forall i, j :: 0 <= i < |a| && 0 <= j < |b| ==> a[i] <= b[j]
    ensures Sorted(a + b)
  {
  }

  /**
   Across a whole run the depths are reported in ascending order: later
   events only ever report depths above everything reported before.
   */
  lemma {:induction false} RunReportsAscending(s: State, percents: seq<real>)
    requires s.scrollDepths.Some?
    ensures Sorted(ScrollYs(Run(s, percents, true).calls))
    decreases |percents|
  {
    if |percents| > 0 {
      var percent := percents[0];
      var first := Step(s, percent, true);
      var rest := Run(first.state, percents[1..], true);
      RunReportsAscending(first.state, percents[1..]);
      ScrollYsAppend(first.calls, rest.calls);
      if s.listening {
        StepReports(s, percent);
        StepKeepsUnreached(s, percent, true);
        RunReportsEachDepthOnce(first.state, percents[1..]);
        var mine, theirs := ScrollYs(first.calls), ScrollYs(rest.calls);
        var next := first.state.scrollDepths.value;
        forall i, j | 0 <= i < |mine| && 0 <= j < |theirs|
          ensures mine[i] <= theirs[j]
        {
          assert mine[i] in multiset(Reached(s.scrollDepths.value, percent));
          assert mine[i] <= percent;
          assert theirs[j] in multiset(theirs);
          assert theirs[j] in multiset(next);
          assert theirs[j] in next;
        }
        SortedConcat(mine, theirs);
      }
    }
  }
}
