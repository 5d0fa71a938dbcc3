# Sentinel: admission and statistics, verified

A Dafny model of the engine that decides which calls of a resource may pass, and of the statistics it decides by. It
covers the sliding-window counters, the Direct + Reject flow limiter, the metric log aggregator, the circuit breaker with
the life cycle of the entries that probe it, the two hot-spot parameter limiters with their caches, flow pacing and
warm-up, the reload of circuit breaker rules, concurrency isolation, and the metric log line format.

Each component comes in two layers. A pure layer describes one operation as a function of a value, and lemmas say what
holds over every run of such operations. Where the source updates an object in place there is also a class, or a method
with a loop, whose postconditions tie the new state to those functions. Every public call is one atomic step with one
reading of a clock that does not go back. Times, interval lengths and the 32-bit concurrency comparison keep their widths
where wrap-around matters; counters are unbounded integers and floating-point values are reals.

| module | component | main results |
|---|---|---|
| `LeapRing`, `LeapArrays`, `MetricBuckets`, `SlidingWindow`, `BucketLeapArrays` | circular bucket array and its views | every read equals the total of a log of all writes over whole buckets; the previous window survives later writes |
| `RejectLimiter` | Direct + Reject | no window of the rule ever exceeds the threshold, and exactly when; bounds for arbitrary time spans, and their tightness |
| `Aggregator`, `AggregatorRuns`, `LateTicks` | metric log task | every second of every node is reported once and in full, with nodes created between ticks; conservation of counts; exactly what a late tick still reports in full |
| `Breakers`, `BreakerRuns`, `BreakerEvidence`, `CircuitBreakers` | one circuit breaker | trips, closes and lets probes through exactly as counted from the operations of the run; open period; listener trace |
| `EntryLifecycle`, `EntryFates`, `ProbeLimit` | breakers and entries together | exactly which entries pass and what the breakers are told of them; one probe per recovery; no stuck probe in any interleaving; breakers are decided when all entries are done exactly when no rule asks for more than one probe |
| `Lru`, `LruCaches`, `HotspotReject`, `HotspotThrottling` | hot-spot limiters | LRU stack property and exactly when inclusion holds; caches in lock-step; token-bucket bound; pacing |
| `FlowThrottling`, `WarmUp`, `WarmUpRuns` | flow shaping | schedule and rate bound; range and envelope of the warm-up curve; exactly when an idle resource cools down and which traffic warms it up |
| `RuleReload` | circuit breaker rule reload | no breaker or statistic used twice; existing rules keep their breakers exactly when rule equality is transitive on them |
| `Isolation` | concurrency | exact accounting; exactly which thresholds and which batches keep the limit |
| `MetricLine` | metric log lines | printing and parsing are inverse |

`Clock` and `Options` hold the shared arithmetic and the type of missing values.

The code departs from what one would expect, or from its own comments, in these places; each is stated as a lemma:

- A bucket exactly one interval old is not expired by the age test alone, and a bucket in the future is expired only
  because the subtraction wraps around. Reads are exact all the same (`LeapRing.FullRead`, `LeapRing.WindowRead`).
- Until one view interval has passed since time 0 the start of a view's window wraps around and the view reads 0, so that
  a limiter on an array created that early admits too much; `RejectLimiter.BoundedIffSettled` says exactly when.
- A view as long as its array loses an operation of the previous window once the bucket one array interval later has been
  written, or only refreshed by a read (`SlidingWindow.PreviousSumMisses`); `SlidingWindow.PreviousSumExactIff` says
  exactly when, for every view and every run of writes and refreshes.
- A tick that comes too late reports a second in full exactly when none of its counted writes has expired or had its slot
  recycled (`LateTicks.LateTickIff`).
- With two or more probes per recovery a breaker can stay half-open with no entry under way
  (`ProbeLimit.MoreProbesStayHalfOpen`); `ProbeLimit.DecidedIffOneProbe` says exactly when, for every list of rules.
- The configured number of probes does not limit how many requests a half-open breaker lets through: with any number
  configured, even 1, it lets through every one that asks, and only without one a single probe
  (`BreakerEvidence.ProbesLetThrough`, `EntryFates.OneProbePerRecovery`).
- Rule equality compares thresholds within a precision and need not be transitive, so the greedy match of a reload can
  rebuild a breaker although every rule still exists (`RuleReload.GreedyRebuilds`, `RuleReload.NearThresholdsRebuild`);
  `RuleReload.NeverRebuildsIff` says exactly when. The list of old breakers passed in is left with stale entries behind
  the unused ones (`RuleReload.CallerListStart`).
- Without room above the warning line the warm-up formula yields no number in some reachable state
  (`WarmUp.RateIsNumberIff`). An idle calculator does not cool down at the warning line, and nowhere above it when the
  threshold is below the cold factor (`WarmUp.CoolsDownIff`); a new one with a warning line of 0 starts warm
  (`WarmUp.StartsColdIff`). Traffic below the cold share of the threshold, however long, never warms it up
  (`WarmUpRuns.WarmsUpIff`).
- An isolation rule of 2^31 or more does not hold, because the signed counter of a full one is negative and reads as 0
  (`Isolation.LimitHoldsIff`); below that, exactly a batch of 0 or one that overflows the 32-bit sum breaks it
  (`Isolation.BatchBreaksIff`).
- A lookup that hits a larger cache and misses a smaller one that is not empty breaks inclusion; additions, removals and
  all other lookups keep it (`Lru.InclusionIff`).

## Model

| member | source | states |
|---|---|---|
| `LeapRing.NewRepresents` | core/stat/base/leap_array.go:65-97 | a new array, with its buckets laid out into the future from the current slot, stands for the empty log |
| `Clock.SubtractionWraps` | core/stat/base/leap_array.go:275-278 | the age of a bucket is a 64-bit difference: a bucket in the future is 2^64 less its lead old |
| `LeapRing.TouchShape` | core/stat/base/leap_array.go:185-229 | under a clock that does not go back and is not zero the "already behind" error is never returned, and the current slot then starts at the current bucket |
| `LeapRing.TouchFailsIff` | core/stat/base/leap_array.go:185-229 | the refresh fails if and only if the time is 0 or lies before the start of its slot in an array of at least two; a single slot is then kept as it is |
| `LeapRing.TouchRepresents` | core/stat/base/leap_array.go:185-229 | refreshing the current bucket, with or without a reset, does not change what the array stands for |
| `LeapRing.RecordRepresents` | core/stat/base/bucket_leap_array.go:94-136 | recording an operation appends exactly that operation to the log the array stands for |
| `LeapRing.ClearRepresents` | core/circuitbreaker/circuit_breaker.go:365-379 | emptying the visible buckets makes the array stand for the empty log; the expired buckets it skips can never be seen again |
| `LeapRing.ReadIsHeld` | core/stat/base/leap_array.go:242-278 | a filtered read is the logged total of the operations whose bucket is still held and shown |
| `LeapRing.RecentIsHeld` | core/stat/base/leap_array.go:185-237 | every operation younger than one interval before the last touch still has its bucket in the array |
| `LeapRing.WindowRead` | core/stat/base/leap_array.go:259-278 | a read of a range of bucket starts that ends by now and is in reach is exactly the logged total of the range |
| `LeapRing.FullRead` | core/stat/base/bucket_leap_array.go:143-174 | after a refresh an unfiltered read is the logged total of exactly the last n buckets |
| `LeapRing.RangeNeverOver` | core/stat/base/leap_array.go:259-278 | a range read never exceeds the logged total, whatever has been recycled |
| `LeapRing.RangeExactIff` | core/stat/base/leap_array.go:259-278 | at any time, a range read is exact if and only if every counted operation of the range still has its slot and is not expired |
| `LeapRing.WindowPeak` | core/stat/base/sliding_window_metric.go:225-254 | the largest concurrency read from the buckets of a range is the largest one logged there |
| `LeapArrays.LeapArray.constructor` | core/stat/base/leap_array.go:165-179 | the object built is the new array of the pure layer |
| `LeapArrays.LeapArray.LayOut` | core/stat/base/leap_array.go:65-97 | the two fill loops, from the current slot to the end and from the beginning to it, put every slot at its start time |
| `LeapArrays.LeapArray.Create` | core/stat/base/leap_array.go:165-179 | the constructor fails exactly when there are no buckets or they do not divide the interval |
| `LeapArrays.LeapArray.CurrentBucketOfTime` | core/stat/base/leap_array.go:185-236 | returns the current slot and resets it in place when it is older, with the error cases of the pure refresh |
| `LeapArrays.LeapArray.ValuesConditional` | core/stat/base/leap_array.go:259-278 | the loop returns exactly the buckets that are not expired and satisfy the predicate, in slot order |
| `LeapArrays.LeapArray.ValuesWithTime` | core/stat/base/leap_array.go:242-257 | the same without a predicate |
| `MetricBuckets.CountersAdditive` | core/stat/base/metric_bucket.go:43-66 | the counter of an event is the sum of the counts added for it: each count added for one of the events 0 to 4 weighs its own number for that event and nothing for any other |
| `MetricBuckets.CountedFor` | core/stat/base/metric_bucket.go:43-98 | which writes count for which event, for all buckets: events 0 to 4 count for themselves alone, any other number reads 0 and changes nothing, and only a concurrency report can raise the largest concurrency |
| `MetricBuckets.EventNumbers` | core/base/stat.go:29-39 | pass, block, complete, error and response time are events 0 to 4 |
| `MetricBuckets.ConcurrencyPeaking` | core/stat/base/metric_bucket.go:88-98 | the stored concurrency is the largest one reported to the bucket |
| `SlidingWindow.AcceptedShape` | core/base/stat.go:138-158 | a view that passes the check is made of whole buckets of the array and spans all of it or at most half |
| `SlidingWindow.AcceptedIff` | core/base/stat.go:138-158 | a view is accepted if and only if it and the array are made of whole buckets, whole view intervals make up the array interval and whole array buckets a view bucket |
| `SlidingWindow.WholeBuckets` | core/stat/base/sliding_window_metric.go:40-56 | the buckets of an accepted view fill its interval exactly |
| `SlidingWindow.ViewSumIsWindowTotal` | core/stat/base/sliding_window_metric.go:59-117 | a view reads exactly the logged total of its window, without refreshing first; within the first interval after time 0 the start wraps around and it reads 0 |
| `SlidingWindow.RunRefinesLog` | core/stat/base/sliding_window_metric.go:59-117 | after any run of writes and refreshes from creation on, a refresh succeeds, every accepted view reads the logged total of its window, or 0 within the first interval after time 0, and the whole array that of its interval |
| `SlidingWindow.RunCountsEvents` | core/stat/base/bucket_leap_array.go:94-163 | after any run of writes and refreshes, reading an event from 0 to 4 through a view or from the whole array gives the sum of exactly the counts the run added for that event in the window, and reading any other gives 0 |
| `SlidingWindow.PreviousSumIsWindowTotal` | core/stat/base/sliding_window_metric.go:101-117 | the previous window is exact although later writes have recycled slots, if the view is shorter than the array |
| `SlidingWindow.PreviousSumNeverOver` | core/stat/base/sliding_window_metric.go:101-117 | with equal intervals the previous window is never over-counted |
| `SlidingWindow.PreviousSumExactIff` | core/stat/base/sliding_window_metric.go:101-117 | after any run of writes and refreshes, the previous window of any accepted view is read exactly if and only if none of its counted writes was followed, one array interval later, by a write or a refresh |
| `SlidingWindow.PreviousSumMisses` | core/stat/base/sliding_window_metric.go:101-117 | a pass, and a write or a refresh one array interval later: a view as long as the array misses the pass in its previous window |
| `SlidingWindow.OverwrittenIsMissed` | core/stat/base/sliding_window_metric.go:101-117 | a counted write that was followed by a write or a refresh one array interval later is missing from the previous sum |
| `SlidingWindow.HeldIff` | core/stat/base/leap_array.go:185-237 | a write keeps its slot if and only if no later bucket of that slot has been written or refreshed |
| `SlidingWindow.PreviousSumEarly` | core/stat/base/sliding_window_metric.go:101-117 | while there is no whole previous window since time 0 the previous sum is 0, wrap-around of the time included |
| `BucketLeapArrays.BucketLeapArray.constructor` | core/stat/base/bucket_leap_array.go:52-67 | a new metric array has an empty log |
| `BucketLeapArrays.BucketLeapArray.Write` | core/stat/base/bucket_leap_array.go:94-136 | every write at a non-zero time is appended to the log of the object and applied in place |
| `BucketLeapArrays.BucketLeapArray.AddCountWithTime` | core/stat/base/bucket_leap_array.go:94-100 | adding a count appends one logged operation |
| `BucketLeapArrays.BucketLeapArray.Refresh` | core/stat/base/bucket_leap_array.go:143-148 | the refresh before a read makes the current bucket current and keeps the log |
| `BucketLeapArrays.BucketLeapArray.CountWithTime` | core/stat/base/bucket_leap_array.go:143-163 | the count is the logged total of the whole interval ending with the current bucket |
| `BucketLeapArrays.Count` | core/stat/base/sliding_window_metric.go:70-86 | the loop sums the event over the given buckets |
| `BucketLeapArrays.SlidingWindowMetric.Create` | core/stat/base/sliding_window_metric.go:40-56 | a view is built exactly when the check accepts it, and otherwise the reason is returned |
| `BucketLeapArrays.SlidingWindowMetric.SumAt` | core/stat/base/sliding_window_metric.go:59-117 | the object reads the buckets of the view's window and changes nothing |
| `BucketLeapArrays.SlidingWindowMetric.GetSumWithTime` | core/stat/base/sliding_window_metric.go:92-95 | the sum is the logged total of the window |
| `BucketLeapArrays.SlidingWindowMetric.GetPreviousQPS` | core/stat/base/sliding_window_metric.go:101-107 | the previous rate is the logged total of the window one view bucket earlier, per second, when the view is shorter than the array |
| `RejectLimiter.PassesIffRoom` | core/flow/tc_default.go:57-68 | a request passes if and only if the passes logged in its window leave room for its batch |
| `RejectLimiter.StepRecords` | core/stat/stat_slot.go:49-90 | an entry is recorded with its batch as event 0 if its window has room and the other slots allow it, and as event 1 otherwise |
| `RejectLimiter.StepKeepsInv` | core/stat/stat_slot.go:76-90 | checking and recording one request keeps every window, past and future, within the threshold |
| `RejectLimiter.RunKeepsInv` | core/flow/tc_default.go:57-68 | over every run no window of the rule ever holds more passes than the threshold |
| `RejectLimiter.BoundedIffSettled` | core/flow/tc_default.go:57-68 | every run of a new limiter keeps every window within the threshold if and only if its array was created late enough after time 0, or the threshold is below 1 |
| `RejectLimiter.EarlyBreaks` | core/stat/base/sliding_window_metric.go:59-64 | two full batches right at a creation before that exceed the threshold |
| `RejectLimiter.SpanBound` | core/flow/tc_default.go:57-68 | over every run any span of interval minus one bucket holds at most the threshold, any span of one interval at most twice that |
| `RejectLimiter.SpanBoundTight` | core/flow/tc_default.go:57-68 | one millisecond more than interval minus one bucket can hold twice the threshold |
| `Aggregator.SecondExact` | core/stat/base/sliding_window_metric.go:225-254 | a second that a tick covers is read with its full logged totals and its largest concurrency |
| `Aggregator.GroupIsValues` | core/stat/base/sliding_window_metric.go:197-223 | grouping the collected buckets by second is the same as reading that second alone |
| `Aggregator.CollectExact` | core/log/metric/aggregator.go:137-159 | one tick reports exactly the active seconds from the last fetch up to the current second, each in full |
| `Aggregator.ExactlyOnce` | core/log/metric/aggregator.go:100-122 | over every run of writes, refreshes and ticks in time of one node, every fetched second with activity is emitted by one tick, once, with its full totals, and no later second has been emitted |
| `AggregatorRuns.AllExactlyOnce` | core/log/metric/aggregator.go:100-135 | over every run of all nodes together, whichever are created between ticks, every fetched second of every node has been handed to the writer once with its full totals if anything happened in it, and nothing else has |
| `AggregatorRuns.FleetKeepsInv` | core/log/metric/aggregator.go:100-135 | creating a node, writing to one, refreshing one and a tick over all keep this |
| `AggregatorRuns.ObjectTakesStep` | core/log/metric/aggregator.go:100-122 | whatever the aggregator object writes in a tick over the arrays of the nodes is a step of such a run |
| `Aggregator.NewNodeInv` | core/log/metric/aggregator.go:100-122 | a node created between two ticks starts with nothing reported and nothing to report |
| `LateTicks.LateTickIff` | core/log/metric/aggregator.go:142-159 | whenever a tick comes, the count it reports for a second it covers is never too large, and complete if and only if no counted write of the second has expired or had its slot recycled |
| `Aggregator.Conservation` | core/log/metric/aggregator.go:100-159 | over every run the counts in all emitted records add up to the counts logged in the fetched seconds |
| `Aggregator.InactiveIffEmpty` | core/log/metric/aggregator.go:137-140 | with counts that are not negative, a second has no record if and only if none of the five events was counted in it and no concurrency reported |
| `Aggregator.RecordMeans` | core/stat/base/sliding_window_metric.go:225-254 | a record holds the counts the log adds for events 0 to 3 in its second, the response times of event 4 shared out over the completions and rounded down, and the largest concurrency reported, or 0 |
| `Aggregator.MetricItemFromBuckets` | core/stat/base/sliding_window_metric.go:225-254 | the loop computes the record of its buckets |
| `Aggregator.GroupBySecond` | core/stat/base/sliding_window_metric.go:197-223 | the loop puts every bucket on the list of its second, and only there |
| `Aggregator.ActiveRecords` | core/log/metric/aggregator.go:147-159 | the loop keeps exactly the active records |
| `Aggregator.CurrentMetricItems` | core/log/metric/aggregator.go:142-159 | what one node contributes to a tick, computed from the array object |
| `Aggregator.AggregateIntoMap` | core/log/metric/aggregator.go:124-135 | the records of a node are appended to those already there, second by second |
| `Aggregator.TaggedExact` | core/log/metric/aggregator.go:124-135 | a record is written for a node and a second if and only if the node contributed it |
| `Aggregator.CollectAll` | core/log/metric/aggregator.go:107-114 | the loop over all nodes merges exactly what the nodes contribute |
| `Aggregator.MetricAggregator.DoAggregate` | core/log/metric/aggregator.go:100-122 | a tick in a new second moves the fetch time and writes the merged records; any other tick does nothing |
| `Breakers.BucketCount` | core/circuitbreaker/rule.go:133-140 | the bucket count used always divides the statistic interval |
| `Breakers.CountersAdd` | core/circuitbreaker/circuit_breaker.go:314-325 | both counters of a bucket are sums over the completions applied to it |
| `Breakers.StepPath` | core/circuitbreaker/circuit_breaker.go:172-245 | every call leaves a listener trace that is a path of the four legal edges from Closed to the current state |
| `BreakerRuns.RunKeepsInv` | core/circuitbreaker/circuit_breaker.go:290-369 | over every run of a new breaker the counters stand for the completions since it last closed, the probe counter for the half-open successes, and the trace is a legal path |
| `BreakerRuns.ExceedsMeans` | core/circuitbreaker/circuit_breaker.go:347-361 | the threshold test means a share above the threshold less the precision, or a count above the threshold less one |
| `BreakerRuns.TripIffEvidence` | core/circuitbreaker/circuit_breaker.go:305-363 | in every run a closed breaker trips if and only if the completions in the window since it last closed, at least the minimum number, meet the threshold |
| `BreakerRuns.LogIsSinceLastClose` | core/circuitbreaker/circuit_breaker.go:332-344 | those completions are exactly the ones after the latest move from half-open to closed |
| `BreakerRuns.LastCloseIsLatest` | core/circuitbreaker/circuit_breaker.go:234-245 | the operation taken for that move is one, and none after it is |
| `BreakerRuns.CloseIffEnoughSuccesses` | core/circuitbreaker/circuit_breaker.go:332-344 | in every run a half-open breaker closes exactly on the last success needed and opens on a failure |
| `BreakerRuns.OpenPeriodRespected` | core/circuitbreaker/circuit_breaker.go:154-160 | after a trip or failed probe a request is let through if and only if the retry timeout has passed, whatever completes meanwhile |
| `BreakerRuns.RollbackUndoesProbe` | core/circuitbreaker/circuit_breaker.go:187-214 | the exit hook of a blocked probe restores the breaker, so that the next request may probe at once |
| `BreakerEvidence.JudgedBy` | core/circuitbreaker/circuit_breaker.go:305-317 | under the error strategies the new state does not depend on the response time; under the slow request strategy it does not depend on the error, and on the response time only through being above the allowed one |
| `BreakerEvidence.TripIff` | core/circuitbreaker/circuit_breaker.go:305-363 | in every run a closed breaker trips on a completion if and only if, among the operations since it last closed, enough requests finished in the statistic window and too large a share of them was slow, or failed, or too many failed; all counted from the operations |
| `BreakerEvidence.CloseIff` | core/circuitbreaker/circuit_breaker.go:332-344 | in every run a half-open breaker opens on a completion that is slow, respectively failed, and otherwise closes exactly when the good completions since its last decision, counted from the operations, reach the number of probes |
| `BreakerEvidence.ProbesLetThrough` | core/circuitbreaker/circuit_breaker.go:290-302 | in every run, from the move to half-open to the next state change, exactly one request is let through when no number of probes is configured, and every request that asks otherwise |
| `BreakerEvidence.ListenersSeeTheStates` | core/circuitbreaker/circuit_breaker.go:172-245 | in every run the reported changes start in Closed, hang together and end in the current state, and each is one of the four legal ones |
| `BreakerEvidence.BuiltShape` | core/circuitbreaker/rule.go:133-140 | the statistic spans the configured interval, in the configured number of buckets if that divides it and in one otherwise |
| `CircuitBreakers.CircuitBreaker.constructor` | core/circuitbreaker/circuit_breaker.go:256-283 | a new breaker is closed with empty counters of the rule's shape |
| `CircuitBreakers.CircuitBreaker.FromClosedToOpen` | core/circuitbreaker/circuit_breaker.go:172-185 | this transition in place, and only from Closed |
| `CircuitBreakers.CircuitBreaker.FromOpenToHalfOpen` | core/circuitbreaker/circuit_breaker.go:187-214 | this transition in place, and only from Open |
| `CircuitBreakers.CircuitBreaker.FromHalfOpenToOpen` | core/circuitbreaker/circuit_breaker.go:218-232 | this transition in place, with the probe counter reset and a new deadline |
| `CircuitBreakers.CircuitBreaker.FromHalfOpenToClosed` | core/circuitbreaker/circuit_breaker.go:234-245 | this transition in place, with the probe counter reset |
| `CircuitBreakers.CircuitBreaker.ExitHook` | core/circuitbreaker/circuit_breaker.go:200-207 | a blocked probe moves back to Open and touches nothing else |
| `CircuitBreakers.CircuitBreaker.TryPass` | core/circuitbreaker/circuit_breaker.go:290-302 | a request passes if and only if the breaker is closed, or open and past its deadline, or half-open with a number of probes configured; the new state is that of the pure breaker |
| `CircuitBreakers.CircuitBreaker.ResetMetric` | core/circuitbreaker/circuit_breaker.go:365-379 | the loop empties exactly the counters that are not expired |
| `CircuitBreakers.CircuitBreaker.AllCounters` | core/circuitbreaker/circuit_breaker.go:319-325 | the loop computes both sums over the visible counters |
| `CircuitBreakers.CircuitBreaker.AddRequest` | core/circuitbreaker/circuit_breaker.go:305-317 | a completion is counted in the current bucket, or reported when there is none |
| `CircuitBreakers.CircuitBreaker.OnRequestComplete` | core/circuitbreaker/circuit_breaker.go:305-363 | the whole new state of the breaker object is that of the pure breaker; a half-open one opens on a slow, respectively failed, request, and closes on the last good one needed |
| `EntryLifecycle.CompletionDecides` | core/circuitbreaker/circuit_breaker.go:305-345 | a completion is always counted, and decides a half-open breaker that needs at most one probe |
| `EntryLifecycle.NextKeepsInv` | core/base/slot_chain.go:162-235 | every step of any entry, with response times taken from the clock, keeps, for each half-open breaker, an entry that will still decide it |
| `EntryLifecycle.RunKeepsInv` | core/base/entry.go:84-116 | the same over every interleaving of any number of entries |
| `EntryLifecycle.NoStuckProbe` | core/circuitbreaker/circuit_breaker.go:187-214 | in every reachable state a half-open breaker still has the entry that moved it there, whichever slot or sibling blocks that entry and however others complete |
| `EntryLifecycle.QuiescentIsDecided` | api/api.go:151-185 | once all entries are done, passed or blocked, no breaker is half-open |
| `EntryFates.PhaseFollowsStory` | core/base/slot_chain.go:162-235 | in every run the phase of every entry is the one told by its steps and the answers of the breakers when they were asked |
| `EntryFates.PassedIff` | core/circuitbreaker/slot.go:53-62 | an entry is handed to the caller at some point of a run if and only if no earlier slot refused it, every breaker, asked in order at its own time, let it pass, and the later slots allowed it |
| `EntryFates.RefusedForGood` | core/base/slot_chain.go:192-201 | an entry refused anywhere is never with the caller or completing in any later state |
| `EntryFates.StepDoes` | core/base/slot_chain.go:162-235 | in every run, what a step does to a breaker: it answers the check of an entry in turn, is told the time from begin to exit and the reported error of an admitted one in turn, takes back a probe that a refused entry made itself, and is otherwise left alone |
| `EntryFates.CountedOnce` | core/base/slot_chain.go:217-235 | a counter changes only when it is the turn of its breaker after an admitted entry exited; each breaker gets one turn, and a refused entry none |
| `EntryFates.DoneIsTold` | core/base/entry.go:84-116 | an entry that is done was refused and all its probes were taken back, or was admitted and told to every breaker |
| `EntryFates.OneProbePerRecovery` | core/circuitbreaker/circuit_breaker.go:290-302 | in every interleaving, from the step that makes a breaker half-open to its next state change, a breaker without a configured number of probes lets through only the entry that made the move, one with a number every entry that asks |
| `ProbeLimit.MoreProbesStayHalfOpen` | core/circuitbreaker/circuit_breaker.go:332-344 | for every list of rules and every rule in it with two or more probes there is a run that ends with all entries done and that breaker half-open, still letting requests probe |
| `ProbeLimit.DecidedIffOneProbe` | core/circuitbreaker/circuit_breaker.go:332-344 | every run leaves all breakers of a resource decided if and only if no rule asks for more than one probe |
| `ProbeLimit.TripAll` | core/circuitbreaker/circuit_breaker.go:305-363 | enough entries that enter while everything is closed, outlast every allowed response time and then fail at once trip every breaker of the resource |
| `Isolation.CheckPass` | core/isolation/slot.go:55-74 | passes exactly when no rule refuses, and otherwise names the first one that does |
| `Isolation.AllowsIff` | core/isolation/slot.go:55-74 | an entry is allowed if and only if for every rule on concurrency the counter, or 0 if negative, plus the batch in 32 bits is within the threshold |
| `Isolation.RunCounts` | core/stat/stat_slot.go:49-101 | in every run the concurrency is the number of passed entries not yet exited, whatever is blocked and however often an entry exits |
| `Isolation.LiveStep` | core/stat/stat_slot.go:49-101 | an entry is live from being let in by the rules and the other slots, at most once, until it exits |
| `Isolation.RunBounded` | core/isolation/slot.go:55-74 | in every run with batches of at least 1 that do not overflow, neither the live entries nor the counter exceed a rule below 2^31 |
| `Isolation.LimitBrokenIff` | core/isolation/slot.go:61-71 | with as many live entries as its threshold, a rule lets another one in if and only if its batch is 0 or overflows 32 bits, or, from 2^31 on, whenever the batch alone is within the threshold |
| `Isolation.LimitHoldsIff` | core/isolation/slot.go:55-74 | runs with batches of at least 1 that do not overflow keep a rule if and only if its threshold is below 2^31 |
| `Isolation.BatchBreaksIff` | core/isolation/slot.go:55-74 | beside batches of 1, exactly a batch of 0 or one that overflows a full rule breaks a rule below 2^31 |
| `Lru.StackProperty` | core/hotspot/cache/lru.go:65-118 | after any run of additions and lookups the cache holds exactly the most recently touched distinct keys, in order, up to its size, and list and table agree; a missed lookup is no touch |
| `Lru.RunValid` | core/hotspot/cache/lru.go:65-146 | over every run, removals included, list and table agree and the size is respected |
| `Lru.InclusionProperty` | core/hotspot/cache/lru.go:65-146 | without lookups, a smaller cache holds a prefix of a larger one |
| `Lru.InclusionIff` | core/hotspot/cache/lru.go:65-146 | over any run of additions, lookups and removals, inclusion holds after every prefix if and only if no lookup hits the larger cache and misses the smaller one while that is not empty |
| `Lru.InclusionFailsWithGets` | core/hotspot/cache/lru.go:109-118 | a run with such a lookup, in which the keys of the smaller cache are no prefix |
| `Lru.ValuesAfter` | core/hotspot/cache/lru.go:65-118 | an addition sets its own value, a conditional one returns the value already there, and all other values that stay are untouched |
| `Lru.InsertValid` | core/hotspot/cache/lru.go:77-84 | inserting evicts exactly the oldest key when the cache is full |
| `Lru.RemoveValid` | core/hotspot/cache/lru.go:139-146 | removing takes out one key and leaves the others |
| `LruCaches.LruCache.Create` | core/hotspot/cache/lru.go:41-52 | a cache is built exactly for a positive size, and is empty |
| `LruCaches.LruCache.Add` | core/hotspot/cache/lru.go:65-85 | updates list and table in place as the pure cache does |
| `LruCaches.LruCache.AddIfAbsent` | core/hotspot/cache/lru.go:87-107 | likewise, returning the prior value |
| `LruCaches.LruCache.Get` | core/hotspot/cache/lru.go:109-118 | likewise, moving a hit to the front |
| `LruCaches.LruCache.Remove` | core/hotspot/cache/lru.go:139-146 | likewise, telling whether the key was there |
| `LruCaches.LruCache.RemoveOldest` | core/hotspot/cache/lru.go:199-220 | evicts the last key of the list from list and table |
| `LruCaches.LruCache.Keys` | core/hotspot/cache/lru.go:170-178 | the keys from the oldest to the newest |
| `HotspotReject.CacheSize` | core/hotspot/traffic_shaping.go:74-93 | a positive configured capacity is used as it is; otherwise it is 4000 per second of duration, at most 20000, and 20000 without a duration |
| `HotspotReject.AttemptKeepsLockStep` | core/hotspot/traffic_shaping.go:262-318 | after every round both caches hold the same keys in the same order, and the round reaches a verdict, so the retry loop ends in its first round |
| `HotspotReject.AttemptKnown` | core/hotspot/traffic_shaping.go:272-318 | a round on a known key updates exactly its own two counters |
| `HotspotReject.AttemptNew` | core/hotspot/traffic_shaping.go:262-270 | a round on a new key starts it in both caches with the capacity less its batch |
| `HotspotReject.PassesIffAvailable` | core/hotspot/traffic_shaping.go:272-318 | a request passes if and only if its batch is available, and then pays exactly for it |
| `HotspotReject.DecideInBudget` | core/hotspot/traffic_shaping.go:272-318 | refills, caps and refusals keep a key within its budget |
| `HotspotReject.RunKeepsInv` | core/hotspot/traffic_shaping.go:227-319 | over every run, any mix of keys and evictions, the caches are in lock-step and every cached key within its budget |
| `HotspotReject.AdmittedWithinBudget` | core/hotspot/traffic_shaping.go:245-319 | since a key entered the cache, at most its own or the common threshold, plus the burst, plus what the elapsed time is worth at that threshold per duration has been admitted, and its tokens stay within threshold and burst |
| `HotspotReject.CheckIff` | core/hotspot/traffic_shaping.go:245-318 | every verdict in the numbers of the rule: refused at once exactly without a threshold or above threshold and burst; otherwise a new key passes, and a known one exactly if the batch is within what is left and earned |
| `HotspotReject.RejectController.RefillTokens` | core/hotspot/traffic_shaping.go:274-301 | the refill branch on the cache objects |
| `HotspotReject.RejectController.SpendTokens` | core/hotspot/traffic_shaping.go:302-318 | the branch inside the window on the cache objects |
| `HotspotReject.RejectController.TryOnce` | core/hotspot/traffic_shaping.go:262-318 | one round of the loop on the cache objects |
| `HotspotReject.RejectController.PerformChecking` | core/hotspot/traffic_shaping.go:227-319 | the loop terminates, with the verdict and state of one round, and keeps the caches in lock-step |
| `HotspotThrottling.DecideSpaces` | core/hotspot/traffic_shaping.go:356-393 | in both branches a grant is its cost after the last one, waits stay below the limit, and a request is refused exactly when its wait would reach it |
| `HotspotThrottling.ServeKeepsInv` | core/hotspot/traffic_shaping.go:322-394 | one request keeps every cached key paced, evictions included |
| `HotspotThrottling.RunIsPaced` | core/hotspot/traffic_shaping.go:350-393 | over every run the grants of a key since it entered the cache are each at least their own cost after the one before |
| `HotspotThrottling.SpacedTotal` | core/hotspot/traffic_shaping.go:350-393 | so the grants after the first cost no more than the time they are spread over |
| `HotspotThrottling.CostIsLargest` | core/hotspot/traffic_shaping.go:350 | the cost of a batch is the largest whole number of ms that, times the threshold, is within the batch times the duration |
| `HotspotThrottling.RunRate` | core/hotspot/traffic_shaping.go:322-394 | over every run the batches granted to a key after its first request, times the duration, are at most its threshold times the time they span, with one ms of rounding for each |
| `HotspotThrottling.CheckIff` | core/hotspot/traffic_shaping.go:322-394 | every verdict and stored time: a request is due its cost after the last pass of its key, a key that is new or was quiet for a duration counting as passed a duration ago; it passes when due and is refused exactly if the wait reaches the limit |
| `HotspotThrottling.ThrottlingController.Admit` | core/hotspot/traffic_shaping.go:378-387 | a grant stores its pass time |
| `HotspotThrottling.ThrottlingController.Check` | core/hotspot/traffic_shaping.go:322-394 | the verdict and the new cache are those of the pure limiter |
| `FlowThrottling.NewChecker` | core/flow/tc_throttling.go:40-52 | both durations in nanoseconds, and a full second when the statistic interval is not set |
| `FlowThrottling.EarliestPass` | core/flow/tc_throttling.go:58-109 | a request passes at the earliest time its interval allows, and is blocked exactly when that wait exceeds the limit |
| `FlowThrottling.IntervalIsLeast` | core/flow/tc_throttling.go:80 | the interval of a batch is the least whole time in which the threshold allows it |
| `FlowThrottling.CheckIff` | core/flow/tc_throttling.go:58-109 | every verdict without a division: refused exactly if the batch exceeds the threshold or what the threshold allows within the queueing time, passed at once exactly if the threshold allows it by now |
| `FlowThrottling.RunIsSpaced` | core/flow/tc_throttling.go:58-109 | over every run, with changing thresholds, each grant is at least its own interval after the one before |
| `FlowThrottling.RunRateBound` | core/flow/tc_throttling.go:58-109 | at a constant threshold the batches after the first, times the interval, are at most the threshold times the time they span |
| `FlowThrottling.ThrottlingChecker.Check` | core/flow/tc_throttling.go:58-109 | the verdict and the stored pass time are those of the pure checker; the second queueing test never fires in one step |
| `WarmUp.NewConfig` | core/flow/tc_warm_up.go:43-68 | a cold factor of 0 or 1 is replaced by 3, any other kept; the lines and the slope are those of the rule |
| `WarmUpRuns.LineIsLargest` | core/flow/tc_warm_up.go:49 | the warning line is the largest whole number that, times the cold factor less one, is within what the threshold earns in the warm-up period |
| `WarmUpRuns.RoomIsLargest` | core/flow/tc_warm_up.go:51 | the room above it is the largest whole number that, times the cold factor plus one, is within twice as much |
| `WarmUp.RunKeepsRange` | core/flow/tc_warm_up.go:88-127 | in every reachable state the stored tokens are between 0 and the maximum |
| `WarmUp.RateEnvelope` | core/flow/tc_warm_up.go:70-86 | the allowed rate is between threshold / coldFactor and the threshold |
| `WarmUp.EnvelopeIsTight` | core/flow/tc_warm_up.go:53-86 | both ends are reached, at the warning line and at the maximum |
| `WarmUp.RateAntitone` | core/flow/tc_warm_up.go:70-86 | more stored tokens never allow a higher rate |
| `WarmUpRuns.RateCurve` | core/flow/tc_warm_up.go:70-86 | above the warning line the rate is threshold * room / (room + (coldFactor - 1) * tokens above the line) |
| `WarmUpRuns.FullRateIff` | core/flow/tc_warm_up.go:70-86 | the rate is the full threshold if and only if the tokens are not above the warning line |
| `WarmUp.ReachableRate` | core/flow/tc_warm_up.go:43-127 | range and envelope hold in every reachable state |
| `WarmUp.RateIsNumberIff` | core/flow/tc_warm_up.go:43-86 | the rate is a number in every reachable state if and only if there is room above the warning line |
| `WarmUp.StartsColdIff` | core/flow/tc_warm_up.go:88-127 | the first late synchronisation of a new idle calculator fills it up if and only if the warning line is above 0 or there is nothing to fill |
| `WarmUp.CoolsDownIff` | core/flow/tc_warm_up.go:108-127 | some idle synchronisation adds tokens if and only if there is room and the tokens are below the warning line, or above it with a threshold of at least the cold factor |
| `WarmUp.IdleFills` | core/flow/tc_warm_up.go:88-127 | where an idle resource cools down, one late synchronisation fills it up |
| `WarmUp.IdleRunStays` | core/flow/tc_warm_up.go:88-127 | where it does not, no idle run changes the tokens |
| `WarmUpRuns.BusySync` | core/flow/tc_warm_up.go:88-127 | in a new second, at or above the warning line, a rate of at least the cold share of the threshold takes off exactly its whole part, down to 0 |
| `WarmUpRuns.CoolingSync` | core/flow/tc_warm_up.go:88-127 | below the line, or above it at a slower rate, the threshold per second is added first, as far as there is room |
| `WarmUpRuns.SameSecondSync` | core/flow/tc_warm_up.go:88-95 | within the second of the last synchronisation nothing changes |
| `WarmUpRuns.BusyRun` | core/flow/tc_warm_up.go:88-127 | over any run of busy seconds down to the line, exactly the requests that passed are taken off |
| `WarmUpRuns.WarmAfter` | core/flow/tc_warm_up.go:70-127 | steady busy traffic takes the tokens below the warning line in a stated number of seconds and not before, and the rate is then the full threshold |
| `WarmUpRuns.WarmsUpIff` | core/flow/tc_warm_up.go:70-127 | steady traffic brings the rate to the full threshold if and only if it is there already, or the traffic is at least one request per second and at least the cold share of the threshold |
| `WarmUp.WarmUpCalculator.Sync` | core/flow/tc_warm_up.go:88-106 | the synchronisation in place, keeping the range; a busy second at or above the warning line takes off its whole rate |
| `WarmUp.WarmUpCalculator.CalculateAllowedTokens` | core/flow/tc_warm_up.go:70-86 | the rate for the tokens after synchronisation |
| `RuleReload.EqualIndex` | core/circuitbreaker/rule_manager.go:200-224 | the first old breaker with an equal rule, and none before it |
| `RuleReload.ReuseIndex` | core/circuitbreaker/rule_manager.go:200-224 | the first old breaker with a compatible statistic, and none before it |
| `RuleReload.CalculateReuseIndexFor` | core/circuitbreaker/rule_manager.go:200-224 | one loop finds both |
| `RuleReload.BuildForRule` | core/circuitbreaker/rule_manager.go:407-444 | the breaker for one rule and the old breaker it draws on |
| `RuleReload.BuildResourceCircuitBreaker` | core/circuitbreaker/rule_manager.go:404-447 | the loop builds the list of the pure layer and shifts the caller's list of old breakers in place |
| `RuleReload.RemoveInPlace` | core/circuitbreaker/rule_manager.go:419-442 | one old breaker is taken out by moving the later ones down, in the array of the caller |
| `RuleReload.CallerListStart` | core/circuitbreaker/rule_manager.go:404-447 | the caller's list begins with the unused breakers afterwards and keeps its length |
| `RuleReload.NoDoubleUse` | core/circuitbreaker/rule_manager.go:404-447 | the old breakers drawn on and those left make up the old list, so none is drawn on twice or lost |
| `RuleReload.NoSharedStatistic` | core/circuitbreaker/rule_manager.go:404-447 | new breakers never share an old statistic if the old ones did not |
| `RuleReload.OneBreakerPerRule` | core/circuitbreaker/rule_manager.go:404-447 | every rule with a built-in strategy gets exactly one breaker that serves it, in order |
| `RuleReload.OnlyOwnRules` | core/circuitbreaker/rule_manager.go:407-410 | nothing is built for a rule of another resource |
| `RuleReload.HandedOnFits` | core/circuitbreaker/rule.go:94-100 | a statistic is handed on only to a rule of the same resource, strategy, interval and bucket count |
| `RuleReload.KeptFits` | core/circuitbreaker/rule.go:107-131 | a breaker is kept only for a rule with the same fields, thresholds within 10^-8, and never for a custom strategy |
| `RuleReload.AfreshOnlyIfNothingFits` | core/circuitbreaker/rule_manager.go:407-444 | while an old breaker with the same fields is left none is built, while an old statistic fits none is created, and a custom strategy without a working generator gets nothing |
| `RuleReload.SubsetIsKept` | core/circuitbreaker/rule.go:94-131 | if the new rules are a sub-multiset of the old ones and different thresholds are a precision apart, every result is an existing breaker |
| `RuleReload.SameRulesSameBreakers` | core/circuitbreaker/rule_manager.go:404-447 | reloading the same list returns the same breakers in the same order, whatever the thresholds |
| `RuleReload.GreedyRebuilds` | core/circuitbreaker/rule_manager.go:200-224 | three rules of which the first equals the second and the second the third, but not the first the third, can be reordered so that a breaker is rebuilt |
| `RuleReload.NeverRebuildsIff` | core/circuitbreaker/rule_manager.go:200-224 | reloading any selection of existing rules in any order keeps every breaker if and only if rule equality is transitive on the rules |
| `RuleReload.NearThresholdsRebuild` | core/circuitbreaker/rule.go:107-131 | three versions of any rule with thresholds 9 * 10^-9 apart are such rules |
| `MetricLine.UintRoundTrip` | core/base/metric_item.go:75-138 | printed unsigned numbers parse back within their width |
| `MetricLine.Int32RoundTrip` | core/base/metric_item.go:131-136 | printed 32-bit signed numbers parse back |
| `MetricLine.SplitJoin` | core/base/metric_item.go:75-83 | splitting undoes joining for fields without the separator |
| `MetricLine.SetApartByBars` | core/base/metric_item.go:47-60 | fields are set apart by vertical bars |
| `MetricLine.RoundTrip` | core/base/metric_item.go:47-60 | every printed item parses back to itself with separators in the resource replaced |
| `MetricLine.CutLineRoundTrip` | core/base/metric_item.go:75-138 | a line cut to at least eight fields parses to the item with the missing fields 0 |
| `MetricLine.DamagedLineRefused` | core/base/metric_item.go:75-117 | a line that is too short or has a damaged number is refused |

## Left out

- BreakerRuns.TripIffEvidence: for a breaker with a statistic of its own; a statistic taken over in a rule reload brings earlier completions with it.
- WarmUp.WarmUpCalculator.Sync: for a positive threshold and a previous rate that is not negative; the conversion of a threshold of 2^32 or more to 32 bits is not modelled.
- Breakers.CountersAdd: the counters of the three strategies are one pair (bad, total); a custom strategy is only known by whether its generator succeeds.
- Interleavings of single instructions inside one call: spin loops, try-locks, compare-and-swap retries and check-then-act gaps. Calls of different entries interleave freely in `EntryLifecycle`.
- Buckets are values in array slots, not shared objects; a bucket pointer kept across a reset is not captured.
- The slot chain, entry, context pool and statistic slot objects are steps of a state machine over values (`EntryLifecycle`, `Isolation`), not mutable objects; the order in which slots are sorted is given.
- Panic recovery in the slot chain: slots do not panic.
- Clock readings from 2^63 on, a clock that goes back, overflow of 64-bit counters and products, rounding of floating-point numbers, and the one-step adjustment of the warm-up rate to the next float.
- Smallest, average and per-bucket largest response times, and recording into the global inbound node.
- The concurrency mode of the hot-spot limiters, and argument extraction.
- Purge, peek and resize of the cache.
- Rule loading, validation and the managers around the reload; a resource-level reload hands unvalidated rules to the builder.
- Memory-adaptive and warm-up-throttling combinations, associated-resource strategies and system rules: one comparison each.
- Outlier ejection, the token rate limiter for language models, metric log files, data sources, framework adapters, configuration, logging and exporters.
