# react-scroll-tracker, modelled in Dafny

`useScrollTracker(trackScrollDepths?, callback?)` is a React hook. It reports how far the page has been scrolled, as a percentage of the scrollable height.

It works in one of two modes:

- **No depths configured.** Each scroll event stores the raw percentage as `scrollY`.
- **Depths configured.** The hook keeps a list of depths (thresholds) that have not yet been reached. On each scroll event it:
  - sorts that list;
  - splits it into the depths the current percentage has *reached* (`percent >= depth`) and those that *remain*;
  - calls the callback once per reached depth, in ascending order, with `{scrollY: depth, scrollPercent, remainingDepths}`;
  - stores the remaining depths and sets `scrollY` to the largest reached depth;
  - detaches its scroll listener once nothing remains.

The percentage comes from `getScrollPercent`:

- `scrollTop` and `scrollHeight` are the root element's, or the body's when the root reports 0 (JavaScript `||`).
- `clientHeight` is the root element's only.
- The result is `scrollTop / (scrollHeight - clientHeight) * 100`.

The model is pure and functional. One scroll event is the function `Tracker.Step` from a `State` to a new `State` plus the list of callback `Record`s it emits. A run of events is `Runs.Run`.

Modules:

| module | file | contents |
|---|---|---|
| `Wrappers` | wrappers.dfy | `Option` |
| `Depths` | depths.dfy | the ascending sort (insertion sort), the `Reached` / `Remaining` filters, and their algebra |
| `Geometry` | geometry.dfy | `getScrollPercent` over an explicit `Document` value |
| `Tracker` | tracker.dfy | the hook's state, `handleScroll` (`Step`, `HandleScroll`), `endScrollTracker`, and the callback records |
| `Runs` | runs.dfy | sequences of scroll events |
| `Scenarios` | scenarios.dfy | the documented scenarios, generalised to any depths ordered like the documented ones |

Representation choices:

- Numbers are `real`.
- `trackScrollDepths` is `Option<seq<real>>`. `None` is the `undefined` argument. `Some([])` is an empty array, which is truthy in JavaScript, so it selects threshold mode and never changes anything.
- Whether a callback was passed is a `hasCallback: bool` parameter. Without a callback, no records are emitted and the state changes the same way (`Tracker.StepStateIgnoresCallback`).
- Whether the scroll listener is attached is the `listening` flag of `State`.

## Model

| member | source | states |
|---|---|---|
| Depths.Insert | src/useScrollTracker.ts:46 | inserting into an ascending list gives an ascending list with exactly one more occurrence of the value |
| Depths.Sort | src/useScrollTracker.ts:46 | the numeric sort `sort((a, b) => a - b)` returns an ascending permutation of the copied list |
| Depths.SortedPermutationUnique | src/useScrollTracker.ts:46 | two ascending lists with the same elements are equal, so sortedness and permutation determine the sort |
| Depths.SortIsOrderIndependent | src/useScrollTracker.ts:46 | the sorted list depends only on the multiset of configured depths, not on their order |
| Depths.SortOfSortedIsIdentity | src/useScrollTracker.ts:46 | sorting an already ascending list leaves it unchanged |
| Depths.Reached | src/useScrollTracker.ts:47 | every depth kept by the reached filter is at most the percentage |
| Depths.Remaining | src/useScrollTracker.ts:48 | every depth kept by the remaining filter is strictly above the percentage |
| Depths.PartitionIsExact | src/useScrollTracker.ts:47-48 | the reached and remaining depths together are exactly the input, counted with multiplicity |
| Depths.FiltersAreSubMultisets | src/useScrollTracker.ts:47-48 | each filter keeps only input depths, none more often than it occurs |
| Depths.FiltersKeepOrder | src/useScrollTracker.ts:46-48 | filtering an ascending list keeps each part ascending |
| Depths.SortedSplits | src/useScrollTracker.ts:46-48 | on an ascending list the reached depths are a prefix and the remaining depths the rest |
| Depths.FilterCounts | src/useScrollTracker.ts:47-48 | no value at or below the percentage remains, and no value above it is reached |
| Depths.FiltersRespectPermutation | src/useScrollTracker.ts:47-48 | reordering the input does not change which depths are reached or remain |
| Depths.NothingReachedBelowFirst | src/useScrollTracker.ts:47 | if the smallest depth of an ascending list is above the percentage, nothing is reached |
| Depths.SplitAtBoundary | src/useScrollTracker.ts:47-48 | if the first k depths are at most the percentage and the rest above it, the filters return those two slices |
| Depths.ReachedKeepsAllBelow | src/useScrollTracker.ts:47 | every input depth at or below the percentage appears among the reached depths |
| Geometry.FirstNonZero | src/utils.ts:5-6 | the JavaScript logical or of two numbers yields its first operand whenever that is non-zero, otherwise the second; it is zero only when both are |
| Geometry.ScrollTop | src/utils.ts:5 | the root's offset is used whenever it is non-zero, otherwise the body's; the result is zero only when both are |
| Geometry.ScrollHeight | src/utils.ts:6 | the root's content height is used whenever it is non-zero, otherwise the body's; the result is zero only when both are |
| Geometry.ClientHeight | src/utils.ts:7 | no contract; see `Geometry.BodyClientHeightNeverUsed` |
| Geometry.PercentIsUnique | src/utils.ts:9 | on a scrollable document an offset corresponds to exactly one percentage |
| Geometry.Percent | src/utils.ts:9 | the percentage is undefined exactly when the scrollable height is zero; otherwise percent × scrollable = scrollTop × 100 |
| Geometry.ScrollPercent | src/utils.ts:1-12 | `getScrollPercent` is undefined exactly when the content height equals the viewport height; otherwise it is the chosen offset as a percentage of the scrollable height |
| Geometry.BodyScrollTopIgnoredWhenRootScrolled | src/utils.ts:5 | while the root's offset is non-zero, changing the body's offset does not change the percentage |
| Geometry.BodyScrollTopUsedWhenRootAtZero | src/utils.ts:5 | when the root's offset is zero, the body's offset is the one used |
| Geometry.BodyScrollHeightIgnoredWhenRootSet | src/utils.ts:6 | while the root's content height is non-zero, the body's content height is ignored |
| Geometry.BodyScrollHeightUsedWhenRootZero | src/utils.ts:6 | when the root's content height is zero, the body's content height is the one used |
| Geometry.BodyClientHeightNeverUsed | src/utils.ts:7 | the body's viewport height never affects the percentage |
| Geometry.PercentEndpoints | src/utils.ts:9 | offset 0 gives 0 and offset equal to the scrollable height gives 100 |
| Geometry.PercentMonotone | src/utils.ts:9 | on a document that scrolls down, a larger offset never gives a smaller percentage |
| Geometry.DocumentAtRoundTrip | src/tests/utils.ts:33-45 | placing both offsets at `percent / 100 × (scrollHeight − clientHeight)` makes `getScrollPercent` return exactly `percent` |
| Tracker.Init | src/useScrollTracker.ts:14-17 | no contract; see `Runs.InitWithoutDepths` and `Scenarios.InitialScrollYIsZero` |
| Tracker.EndScrollTracker | src/useScrollTracker.ts:36-37 | the listener is detached and nothing else changes; see also `Tracker.EndScrollTrackerIsFinal` |
| Tracker.Emit | src/useScrollTracker.ts:56-65 | one record per reached depth; see `Tracker.EmitReportsInOrder` for their contents |
| Tracker.EmitReportsInOrder | src/useScrollTracker.ts:56-65 | one record per reached depth, in the given order, each with the current percentage; each record's remaining list is the next record's depth followed by that record's list, and the last record's remaining list is the unreached depths |
| Tracker.EmitRecordsAreSuffixes | src/useScrollTracker.ts:56-58 | a record's depth followed by its remaining list is the rest of the batch from that record on, followed by the unreached depths |
| Tracker.ScrollYsAppend | src/useScrollTracker.ts:60-64 | the depths reported by two batches of records, one after the other, are the two batches' depths concatenated |
| Tracker.Step | src/useScrollTracker.ts:42-73 | a detached handler does nothing; a step only ever detaches the listener, never attaches it; without a callback no record is emitted (the full effect of a step is stated by the lemmas below) |
| Tracker.SortedSplit | src/useScrollTracker.ts:46-50 | the reached and remaining parts of the sorted list concatenate to it, match the filters of the unsorted list as multisets, and the reached part is non-empty exactly when some depth is reached |
| Tracker.ReachedNonEmptyIffHits | src/useScrollTracker.ts:50 | the reached list is non-empty exactly when some configured depth is at most the percentage |
| Tracker.RemainingNonEmptyIffAbove | src/useScrollTracker.ts:51 | the remaining list is non-empty exactly when some configured depth is above the percentage |
| Tracker.StepWithoutDepths | src/useScrollTracker.ts:42-44 | with no depths configured, `scrollY` becomes the percentage, nothing else changes, and no record is emitted |
| Tracker.StepKeepsUnreached | src/useScrollTracker.ts:48-71 | after a step the stored depths are exactly the configured depths above the percentage, as a multiset |
| Tracker.StepReports | src/useScrollTracker.ts:55-65 | with a callback, the reported depths are exactly the reached depths, in ascending order, each with the current percentage; the remaining lists form a chain that starts at the whole sorted list and ends at the next stored list |
| Tracker.LastReachedIsLargest | src/useScrollTracker.ts:69 | the last reached depth is a configured depth, at most the percentage, and no smaller than any configured depth the percentage reaches |
| Tracker.StepHit | src/useScrollTracker.ts:50-71 | on a hit, `scrollY` is the largest reached depth, the stored list is ascending, the listener stays attached exactly when some depth lies above the percentage, and a detached tracker holds an empty list |
| Tracker.StepNoHit | src/useScrollTracker.ts:50-73 | a step with stored depths changes nothing and emits nothing exactly when no depth is reached |
| Tracker.StepStateIgnoresCallback | src/useScrollTracker.ts:55-71 | with or without a callback the state changes the same way; without one, nothing is emitted |
| Tracker.StepIsOrderIndependent | src/useScrollTracker.ts:46-71 | reordering the stored depths changes neither the records nor, on a hit, the next state |
| Tracker.StepExhaustedIsIdle | src/useScrollTracker.ts:46-50 | once the stored list is empty, every step is a no-op, whether or not the listener is attached |
| Tracker.EndScrollTrackerIsFinal | src/useScrollTracker.ts:36-37 | after `endScrollTracker` no scroll event changes anything, and detaching twice is the same as detaching once |
| Tracker.StepCallsCarryPercent | src/useScrollTracker.ts:62 | every record of a step carries the step's percentage |
| Tracker.HandleScroll | src/useScrollTracker.ts:39-74 | on a scrollable document, the handler is exactly the step at the document's own scroll percentage (the unique value that is the chosen offset as a percentage of the scrollable height): the depths are split at that percentage, the raw `scrollY` without depths is it, and every record's `scrollPercent` is it |
| Runs.Run | src/useScrollTracker.ts:39-76 | successive scroll events never re-attach a detached listener, and without a callback emit no record |
| Runs.RunStoppedIsIdle | src/useScrollTracker.ts:36-37 | once the listener is detached, no sequence of scroll events changes the state or emits a record |
| Runs.RunExhaustedIsIdle | src/useScrollTracker.ts:46-50 | with an empty stored list, no sequence of events changes anything |
| Runs.ReachingEveryDepthIsTerminal | src/useScrollTracker.ts:51-53 | a percentage that reaches every stored depth detaches the listener and empties the list, and nothing happens afterwards |
| Runs.RunWithoutDepths | src/useScrollTracker.ts:42-44 | without depths the listener stays attached, nothing is emitted, and `scrollY` is the last percentage, or unchanged after no events |
| Runs.InitWithoutDepths | src/useScrollTracker.ts:14-17 | the hook starts at `scrollY` 0 and listening; without depths, after any events `scrollY` is the last percentage, or 0 |
| Runs.StepConserves | src/useScrollTracker.ts:56-70 | in one step, the reported depths plus the stored depths are the previously stored depths |
| Runs.RunReportsEachDepthOnce | src/useScrollTracker.ts:56-70 | over any run, the reported depths plus the still-stored depths are exactly the initially configured depths, so each is reported at most once |
| Runs.RunDepthsShrink | src/useScrollTracker.ts:70 | the stored list only ever loses depths |
| Runs.RunKeepsOnlyUnreached | src/useScrollTracker.ts:47-48 | after any run, every stored depth lies above every percentage seen so far |
| Runs.RunReportsAscending | src/useScrollTracker.ts:56-65 | over any run, the reported depths are in ascending order across events |
| Scenarios.ScrollTo | src/tests/utils.ts:33-50 | a scroll event on the 1000/500-pixel scenario page at a given percentage is a step at exactly that percentage |
| Scenarios.StepOnSorted | src/useScrollTracker.ts:46-71 | on an ascending list whose first k depths are reached, the step stores the rest, sets `scrollY` to the k-th depth, and emits the first k with their remaining lists |
| Scenarios.InitialScrollYIsZero | src/tests/useScrollTracker.test.ts:10-14 | before any scroll, `scrollY` is 0 |
| Scenarios.FirstDepthReached | src/tests/useScrollTracker.test.ts:16-36 | reaching only the first depth sets `scrollY` to it and emits one record listing every other depth |
| Scenarios.StepCrossesOne | src/useScrollTracker.ts:46-71 | a listening tracker whose smallest depth alone is reached reports that depth and keeps the rest, still listening |
| Scenarios.EmitWithNothingLeft | src/useScrollTracker.ts:56-58 | when nothing remains, the i-th record lists exactly the reached depths after it |
| Scenarios.EmitOne | src/useScrollTracker.ts:56-64 | a batch of one reached depth emits one record listing the unreached depths |
| Scenarios.ProgressiveTracking | src/tests/useScrollTracker.test.ts:38-58 | two events, each crossing one more depth, emit one record each with a remaining list one shorter, and `scrollY` follows the crossed depth |
| Scenarios.JumpPastEveryDepth | src/tests/useScrollTracker.test.ts:72-98 | one event past every depth emits one record per depth, in order, each listing the depths after it, then stops with `scrollY` at the last depth |

## Left out

- React plumbing. `useState`, `useEffect`, re-rendering and the returned `{ scrollY }` object are reduced to the `State` value that `Step` transforms.
- Listener re-attachment. When `setState` stores a new depth list, React re-runs the effect: it detaches the old listener and attaches a new one over the new list. The model keeps a single `listening` flag and does not model the re-attachment. A tracker detached with an empty list `Some([])` is idle whether or not a listener is attached again (`Tracker.StepExhaustedIsIdle`, `Runs.RunExhaustedIsIdle`), so the omission changes no observable behaviour.
- Stale closures and React's batching of state updates: each step reads the latest state.
- The mount effect that copies `window.pageYOffset` into `scrollY` (src/useScrollTracker.ts:21-29). It reads a browser global in pixels, not a percentage, and it is not part of `handleScroll`.
- The `typeof window === 'undefined'` guard for server-side rendering.
- IEEE floating point. Numbers are exact reals, so rounding, `NaN` (which `||` also treats as falsy) and `Infinity` are not modelled.
- Tracker.Step assumes the callback returns normally. In the source, `endScrollTracker()` (src/useScrollTracker.ts:51-53) runs before the callbacks (:56-65), and `setState` (:68-71) runs after them, so a callback that throws ends `handleScroll` with the state not updated. If depths remain, the listener stays attached and the next event reports the same batch again from its first depth, which `Runs.RunReportsEachDepthOnce` does not cover. If nothing remains, the listener is removed but neither the empty list nor the new `scrollY` is stored.
- Tracker.State holds the depth list as a value. The hook stores the caller's array by reference (src/useScrollTracker.ts:15) and copies it only when sorting (:46), so a caller that mutates that array in place changes what later steps see; the model does not represent such aliasing.
- Tracker.HandleScroll requires a non-zero scrollable height. With a zero height the source divides by zero, giving `Infinity` or `NaN`, which reals cannot represent. `Geometry.ScrollPercent` returns `None` in exactly that case.
- Throttling and a latest-callback ref: `src/useScrollTracker.ts` has no throttling and no ref holding the latest callback. Every scroll event is handled, with the callback captured when the listener was attached, and the model does the same.
- The test harness helpers in `src/tests/utils.ts` (`setupDocumentDimensions`, `act`, `fireEvent`) are modelled only by the document they produce (`Geometry.DocumentAt`, `Scenarios.Page`).
- Scenarios are stated for any ascending depth lists, not for the literal arrays `[25, 50, 75, 100]` and `[25, 50, 75]`. The literal arrays are instances of those statements.
- The scenario "should handle incremental scrolling correctly" (src/tests/useScrollTracker.test.ts:100-120) is the same two-step pattern as `Scenarios.ProgressiveTracking`, so it has no lemma of its own.
