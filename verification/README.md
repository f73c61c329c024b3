# latency-dash: the metrics calculator and event shaping, in Dafny

This project models the core of latency-dash's Go backend. That core is the
per-series latency statistics engine in `backend/calculator/calculator.go`
together with the event-shaping rules of the synthetic generator in
`backend/generator/generator.go`.

The statistics engine works like this:

- An event `{TargetId, Key, ServerTimestamp, Metadata}` is queued on a channel of capacity 1000.
- The single run loop takes the event off the queue and finds or creates the series keyed `target:key[:k=v…]`.
- It folds the event's timestamp into that series (`Metrics.Update`).
- It builds a `MetricsUpdate` and offers it to every subscriber channel, each of capacity 100. A full channel skips that update.

A series keeps a `container/ring` of the last 1000 timestamps, a count, and
the minimum, maximum and average interval between consecutive events. It
also stores a 90th percentile, which `calculatePercentile` recomputes from
the ring.

The model is sequential and functional. It has these parts:

- Immutable datatypes: `Ring`, `Metrics`, `MetricsCalculator`, `Event`, `MetricsUpdate` and `Config`.
- Pure functions for every operation.
- Lemmas for the invariants that the implementation and its tests rely on.

Times are integer nanoseconds. The random draws, the clock and the identities
of new subscriber channels are parameters.

Files (one module each):

- `wrappers.dfy`: `Option`, `Result`.
- `sorting.dfy`: a verified insertion sort, which stands in for `sort.Float64s`.
- `sample_ring.dfy`: the ring of timestamps and its first-in first-out eviction.
- `proto.dfy`: the event and update records.
- `series_metrics.dfy`: `Metrics.Update`, `calculatePercentile` and the series invariants.
- `calculator.dfy`: series identity, get-or-create, the bounded event queue, subscribe/unsubscribe, the drop-on-full fan-out and the per-event step of the run loop.
- `generator.dfy`: `calculateInterval`, `calculatePayloadSize` and `generateEvent`.

## Behaviour worth knowing (proved about the model)

- **The first event stores an interval of 0.** It sets min, max and avg to 0, and `min` never increases afterwards. So `min` stays 0 for the lifetime of every series (`FreshSeriesHistory`).
- **`calculatePercentile` does not look at "the last N intervals".** It starts at the newest ring element and steps forward `count` times. Stepping forward reaches the elements that have not been written yet, then wraps to the oldest. As a result, a new series reports `p90 == 0` for as long as it has seen at most half the ring's capacity of events, whatever the timestamps. With the default ring that means the first 500 events (`EarlyP90IsZero`). For example, ten events 100 ms apart give a p90 of 0.
- **With timestamps in order, `p90 <= max`.** Every collected difference is then either an observed interval or a non-positive step out of the newest element (`PercentileAtMostMax`, `FreshSeriesHistory`). Out-of-order timestamps can break this bound.
- **The average counts the first event's 0.** The first event stores an interval of 0 as the average, and later events fold into it with a truncating mean. So two events 100 ms apart give an average of 50 ms, not 100 ms (`TwoEventsAverageHalf`). With timestamps in order, `avg * count` never exceeds the time from the first event to the last (`AvgAtMostSpan`).
- **Equal timestamps give an interval of exactly 0.** An earlier timestamp is also clamped to 0. Both zeros are stored, and a zero difference is collected by the percentile (`Interval`, `EarlierSecondEventIsZero`).
- **The series key is not canonical.** Metadata pairs are appended in map iteration order, so the same metadata met in two orders gives two series keys (`IterationOrderSplitsSeries`). Distinct series keys are distinct series, but the metadata part of a key cannot be read back. With a target and a key that contain no colon, the key still separates series. Two different such targets never share a series key (`TargetOfSeriesKey`, `DistinctTargetsDistinctSeries`). Nor do two different such keys of one target, whatever their metadata, so events over n keys of one target make at least n series (`DistinctKeysDistinctSeries`). There are more when one key's events carry different metadata, or the same metadata in another order (`MetadataValueSplitsSeries`, `IterationOrderSplitsSeries`).
- **The payload size depends on iteration order; the interval does not.** The payload is truncated after every matching rule, so the order of the rules changes the result: 3 with rules 0.5 and 3.0 gives 3 or 4 (`PayloadDependsOnOrder`). The interval multiplier is a plain product, which is the same for every reordering of the metadata pairs (`MultiplierPermutationFree`).
- **Some configurations panic on the first event.** `rand.Intn` panics for a bound that is not positive. That happens when `NumKeys <= 0` or `MaxPayload <= MinPayload`. A `MinPayload` above `MaxPayload` passes the generator test's start guard. `make([]byte, n)` panics for a negative size, which a negative `MinPayload` allows. The model returns each panic as a failure (`GenerateEvent`, `PayloadSpanPanics`, `NegativeMinPayloadPanics`).
- **The generator has no upper clamp.** `calculateInterval` never returns less than `MinInterval`, but it can return more than `MaxInterval`. For example, 100 ms with a 2x rule gives 200 ms (`SlowTierDoublesInterval`).

## Model

| member | source | states |
|---|---|---|
| SampleRing.NewRing | backend/calculator/calculator.go:206 | a new ring has the requested capacity, every element empty and the cursor on the first |
| SampleRing.Record | backend/calculator/calculator.go:267-269 | recording a timestamp moves the cursor exactly one element forward (wrapping), stores the timestamp there, and leaves every other element and the capacity unchanged |
| SampleRing.RecordAllKeepsNewest | backend/calculator/calculator.go:206 | after k timestamps in a fresh ring of n elements the cursor is at k mod n, each of the newest min(k, n) timestamps is in the element it was written to, and exactly those elements are filled (first-in first-out eviction, never more than n held) |
| SeriesMetrics.NewMetrics | backend/calculator/calculator.go:201-213 | a created series carries the event's target, key and metadata, has count 0, an empty ring of the requested capacity, and satisfies the series invariant |
| SeriesMetrics.Interval | backend/calculator/calculator.go:250-265 | the interval is never negative; after the first event it is at least the new timestamp minus the one at the cursor and equals that difference unless it is clamped to 0; the first event's interval is 0 |
| SeriesMetrics.Update | backend/calculator/calculator.go:246-318 | count grows by exactly one whatever the timestamp; the cursor advances one element, holds the new timestamp, and no other element changes; the first event leaves min = max = avg = p90 = 0; later events never raise min or lower max, min and max are either unchanged or become the new interval, and they bracket that interval; avg becomes the truncated mean (avg*count + interval)/(count+1); p90 is the percentile recomputed after the new timestamp is recorded |
| SeriesMetrics.TruncDiv | backend/calculator/calculator.go:309 | integer division truncates toward zero: the remainder has the sign of the dividend and is smaller than the divisor |
| SeriesMetrics.Advance | backend/calculator/calculator.go:250-315 | folding in an event raises the count by one, records the timestamp in the ring, and keeps the series' target, key and metadata |
| SeriesMetrics.AvgIsMeanHistory | backend/calculator/calculator.go:255-313 | the average a created series stores after any timestamps equals a running mean computed from the timestamps alone: 0 for the first event, then each clamped distance from the previous timestamp folded in with truncating division |
| SeriesMetrics.MeanHistoryAtMostSpan | backend/calculator/calculator.go:306-313 | for timestamps in order the running mean is non-negative and, times the number of events, at most the last timestamp minus the first |
| SeriesMetrics.AvgAtMostSpan | backend/calculator/calculator.go:274-313 | for a created series fed timestamps in order, avg * count is at most the last timestamp minus the first |
| SeriesMetrics.TwoEventsAverageHalf | backend/calculator/calculator.go:274-313 | two events 100 ms apart give count 2, min 0, max 100 ms and avg 50 ms, because the first event's stored 0 is averaged in |
| SeriesMetrics.Walk | backend/calculator/calculator.go:328-337 | the traversal of `count` steps collects at most `count` timestamps, each of them held in the ring |
| SeriesMetrics.WalkVisitsInOrder | backend/calculator/calculator.go:328-337 | the traversal meets, in order and with repeats, the timestamps held in the `count` elements at positions cursor, cursor+1, ... modulo the capacity, skipping empty ones |
| SeriesMetrics.NonNegGaps | backend/calculator/calculator.go:339-345 | every collected sample is a non-negative difference of consecutive timestamps, every such difference occurs among the samples, and there are fewer samples than timestamps |
| SeriesMetrics.NonNegGapsInOrder | backend/calculator/calculator.go:339-345 | the collected samples are the non-negative consecutive differences, in order and with repeats |
| SeriesMetrics.CollectedGapsInOrder | backend/calculator/calculator.go:326-345 | what is sorted is the non-negative consecutive differences of the timestamps held in the `count` elements from the cursor on, in the order the walk meets them |
| SeriesMetrics.RankIndex | backend/calculator/calculator.go:355-358 | the rank is a valid position of the sorted samples, and for a percentile of at most 100 it is floor((len-1)*p/100) itself, so the clamp to the last position never fires |
| SeriesMetrics.Percentile | backend/calculator/calculator.go:320-360 | three outcomes: the average when count <= 1; 0 when no non-negative difference is collected; otherwise a collected difference, namely the one at position floor((len-1)*p/100) of the differences sorted ascending |
| SeriesMetrics.PercentileNonNegative | backend/calculator/calculator.go:321-349 | on a well-formed series the percentile is never negative |
| SeriesMetrics.PercentileAtMostMax | backend/calculator/calculator.go:326-359 | when every held timestamp is at most the newest, every collected difference is at most max, so the percentile is at most max |
| SeriesMetrics.AdvanceWellFormed | backend/calculator/calculator.go:274-315 | folding in an interval keeps 0 <= min <= avg <= max (the truncating incremental mean stays between the new min and max) and keeps the ring's shape invariant |
| SeriesMetrics.UpdateValid | backend/calculator/calculator.go:246-318 | every update keeps the series invariant: ring shape, 0 <= min <= avg <= max, every step between neighbouring held timestamps at most max, and p90 >= 0 |
| SeriesMetrics.UpdateInOrder | backend/calculator/calculator.go:246-318 | an event not earlier than the newest held timestamp keeps all held timestamps at most the newest, and then the stored p90 is at most the stored max |
| SeriesMetrics.FreshSeriesHistory | backend/calculator/calculator.go:246-318 | after any sequence of events a created series is valid, counts them all, holds the last timestamp at the cursor, keeps min at the 0 stored by its first event, and with non-decreasing timestamps has p90 <= max |
| SeriesMetrics.EarlyP90IsZero | backend/calculator/calculator.go:328-349 | a created series reports p90 = 0 after n events whenever 1 <= n and 2n <= capacity, because the walk from the newest element meets only unwritten elements |
| SeriesMetrics.EarlierSecondEventIsZero | backend/calculator/calculator.go:255-264 | a second event earlier than the first leaves count 2 and min = max = avg = p90 = 0 |
| Sorting.SortSeq | backend/calculator/calculator.go:352 | the sorted samples are in ascending order and are a permutation of the input |
| Calculator.NewMetricsCalculator | backend/calculator/calculator.go:79-86 | a new calculator has no series, an empty queue and no subscriber, and is consistent |
| Calculator.SeriesKey | backend/calculator/calculator.go:217-223 | a series key starts with target:key; without metadata it is exactly that; with metadata a colon follows it. `SeriesKeyAppendPair` gives the metadata text |
| Calculator.SeriesKeyAppendPair | backend/calculator/calculator.go:220-222 | meeting one more metadata pair appends exactly `:k=v` to the series key |
| Calculator.MetadataValueSplitsSeries | backend/calculator/calculator.go:217-223 | two different values for the same metadata key give two different series keys |
| Calculator.MetadataSuffix | backend/calculator/calculator.go:220-222 | the suffix is empty exactly when there is no metadata, otherwise starts with a colon, and for one pair is exactly `:k=v` |
| Calculator.MetadataSuffixAppend | backend/calculator/calculator.go:220-222 | the suffix of metadata met in two runs is the two runs' suffixes joined, one ":k=v" per pair in iteration order |
| Calculator.IterationOrderSplitsSeries | backend/calculator/calculator.go:217-223 | the metadata {a=1, b=2} met in its two iteration orders gives two different series keys |
| Calculator.TargetOfSeriesKey | backend/calculator/calculator.go:217-223 | a target containing no colon is recovered from any series key built on it as the part before the first colon |
| Calculator.DistinctTargetsDistinctSeries | backend/calculator/calculator.go:215-231 | events of two different colon-free targets never share a series key |
| Calculator.DistinctKeysDistinctSeries | backend/calculator/calculator.go:215-231 | events of one target with two different colon-free keys never share a series key, whatever their metadata |
| Calculator.TierTestSeriesKey | backend/calculator/calculator.go:217-223 | an event of target test-target and key test-key with metadata tier=test has series key test-target:test-key:tier=test |
| Calculator.GetOrCreate | backend/calculator/calculator.go:215-231 | the returned series is the one stored under the event's key; an existing series is reused, otherwise a fresh count-0 series is inserted; only that key may be added and no other entry changes |
| Calculator.ProcessEvent | backend/calculator/calculator.go:145-153 | enqueueing succeeds iff fewer than 1000 events are queued, and then appends the event at the back; otherwise it fails with "event queue full" and the queue is left unchanged |
| Calculator.Subscribe | backend/calculator/calculator.go:156-162 | subscribing adds one empty channel and leaves the other channels, the series and the queue unchanged |
| Calculator.Unsubscribe | backend/calculator/calculator.go:164-169 | unsubscribing removes exactly that channel and leaves the other channels, the series and the queue unchanged |
| Calculator.SubscribeThenUnsubscribe | backend/calculator/calculator.go:156-169 | subscribing and then unsubscribing a new channel restores the calculator exactly |
| Calculator.NotifySubscribers | backend/calculator/calculator.go:233-244 | every channel holding fewer than 100 updates gets the update appended at its back; a full channel is left as it was; which channels exist does not change, and each channel's outcome depends only on its own buffer |
| Calculator.NotifyKeepsBuffersBounded | backend/calculator/calculator.go:157 | fan-out never makes any subscriber buffer exceed its capacity of 100 |
| Calculator.HandleEvent | backend/calculator/calculator.go:120-140 | handling an event touches only the series under its key, which is reused or freshly created and then updated, so its count grows by one; no other series changes; the emitted update carries the event's target, key and metadata with that series' post-update statistics and count, and is offered to the subscribers |
| Calculator.Step | backend/calculator/calculator.go:114-141 | a loop iteration consumes the oldest queued event. The event's series, reused or created, becomes the series updated with the event's timestamp, and no other series changes. The resulting update, stamped with the clock reading, is fanned out to the subscribers |
| Calculator.HandleEventConsistent | backend/calculator/calculator.go:124-140 | handling an event keeps every series valid, the queue within 1000 and every subscriber buffer within 100 |
| Calculator.OperationsConsistent | backend/calculator/calculator.go:145-169 | enqueueing, subscribing, unsubscribing and a loop step all preserve consistency |
| Calculator.EventsCountedOnce | backend/calculator/calculator.go:124-125 | after a sequence of events a series exists iff it existed before or some event belongs to it, and its count grew by exactly the number of events that belong to it (no update lost or duplicated) |
| Generator.Trunc | backend/generator/generator.go:108 | converting a float to an integer truncates toward zero: the result is within one of the value, on the side of zero |
| Generator.ToInt32 | backend/generator/generator.go:87 | the int32 conversion lands in the int32 range, differs from its argument by a multiple of 2^32 (two's-complement wrap-around), and is the identity on values already in range |
| Generator.BaseInterval | backend/generator/generator.go:95 | the base interval is MinInterval plus the draw's share u of the span MaxInterval - MinInterval, truncated toward zero (the share rounds down for a non-negative span and up for a negative one); for MinInterval <= MaxInterval it lies in [MinInterval, MaxInterval] |
| Generator.CalculateInterval | backend/generator/generator.go:94-113 | the interval is the larger of MinInterval and the truncated product of the base interval and the metadata multiplier: never below either, and equal to one of them, so there is no upper clamp |
| Generator.MultiplyRulesScales | backend/generator/generator.go:98-105 | starting the product at acc yields acc times the multiplier, which is the product of the multipliers of the matching pairs |
| Generator.MultiplierAppend | backend/generator/generator.go:98-105 | the multiplier of metadata met in two runs is the product of the two runs' multipliers |
| Generator.MultiplierOrderFree | backend/generator/generator.go:98-105 | swapping two runs of metadata leaves the interval multiplier unchanged |
| Generator.MultiplierPermutationFree | backend/generator/generator.go:98-105 | any reordering of the same metadata pairs, as a different map iteration order gives, yields the same interval multiplier |
| Generator.NoRuleKeepsMultiplier | backend/generator/generator.go:98-105 | with no metadata pair matching a rule the multiplier stays at its initial value |
| Generator.UnmatchedPairKeepsMultiplier | backend/generator/generator.go:99-104 | a metadata pair with an unknown key or an unknown value can be dropped without changing the interval multiplier |
| Generator.FixedInterval | backend/generator/generator.go:95-112 | with MinInterval = MaxInterval = d >= 0, a multiplier m >= 1 yields trunc(d*m) and a multiplier in [0, 1] yields d |
| Generator.SlowTierDoublesInterval | backend/generator/generator_test.go:63-86 | 100 ms with a 2x rule for the event's metadata gives 200 ms, above MaxInterval |
| Generator.CalculatePayloadSize | backend/generator/generator.go:115-135 | the payload size lies in [MinPayload, MaxPayload]; an adjusted size inside those bounds is returned unchanged, one below is raised to MinPayload and one above is lowered to MaxPayload; with no matching rule it is exactly MinPayload + r for the draw 0 <= r < MaxPayload - MinPayload |
| Generator.PayloadRulesAppend | backend/generator/generator.go:119-125 | adjusting over metadata met in two runs adjusts by the first run and then by the second |
| Generator.PayloadDependsOnOrder | backend/generator/generator.go:119-125 | with truncation after each rule, size 3 with multipliers 0.5 and 3.0 becomes 3 in one order and 4 in the other |
| Generator.NoRuleKeepsPayload | backend/generator/generator.go:116-125 | with no metadata pair matching a rule the drawn size passes through the adjustment loop unchanged |
| Generator.UnmatchedPairKeepsPayload | backend/generator/generator.go:119-124 | a metadata pair with an unknown key or an unknown value can be dropped without changing the payload size |
| Generator.KeyChar | backend/generator/generator.go:77 | for key indices below the surrogate range the key character is 'A' plus the index |
| Generator.GenerateEvent | backend/generator/generator.go:75-92 | generation fails with the Intn panic when NumKeys <= 0 or MaxPayload <= MinPayload. Otherwise it fails with the make panic exactly when the final payload size is negative, which never happens for MinPayload >= 0. A generated event has the configured target and metadata, the clock reading as timestamp, and key KeyPrefix followed by the single character for the drawn index. Its payload size is the int32 conversion of the computed size, within [MinPayload, MaxPayload] when MaxPayload fits in int32 |
| Generator.NegativeMinPayloadPanics | backend/generator/generator_test.go:223-233 | with MinPayload -1, MaxPayload 100 and no rules, generation panics for the payload draw 0 and succeeds for every other draw |
| Generator.PayloadSpanPanics | backend/generator/generator.go:116 | with MinPayload 100 above MaxPayload 10 the payload draw panics on every event |
| Generator.KeyNamesDraw | backend/generator/generator.go:76-77 | the drawn index is recovered from the key's last character, so distinct draws give distinct keys |

## Left out

- Concurrency is not modelled, and the model has a single sequential writer. This covers goroutines, the `select` over `stopCh`, `ctx.Done()` and the event channel, `Stop`, `sync.Once`, the mutexes and the atomic compare-and-swap loops. The `Start` prologue and its deferred cleanup, which close the channels and clear the maps, are also left out.
- `ProcessEvent` is not modelled after `Stop`. Its "calculator is stopping" branch is chosen at random by Go's `select`, and a send on the closed channel panics there.
- Float64 millisecond conversions are not modelled. This covers the ring's `float64` millisecond values, the `int64(ms * 1e6)` round trips and the `Min`/`Max`/`Avg`/`P90`/`Count` getters. Timestamps and intervals are exact integer nanoseconds.
- SeriesMetrics.Update: int64 overflow of `avg*count` is not modelled. Integers are unbounded.
- SeriesMetrics.PercentileAtMostMax: stated only for timestamps held in order. Out-of-order timestamps can produce a collected difference above max.
- Go's map iteration order is not modelled. The metadata map is given as a sequence of pairs in iteration order. Both the series key and the payload adjustment depend on that order.
- Calculator.Subscribe: the fresh channel's identity is a parameter that must not already be registered. Go allocates a new channel instead.
- Calculator.Unsubscribe: requires a registered channel. Go would close an unregistered channel, and closing an already closed channel panics.
- Calculator.Step: defined only when an event is queued. With an empty queue the Go loop blocks.
- The consumers that drain subscriber channels are not modelled. They live in `backend/server/websocket.go`, which is not part of this model. In the model a buffer only fills.
- The `MetricsUpdate` clock reading `time.Now()` and the generator's `ServerTimestamp` are parameters.
- The generator's run loop, event channel, `time.Sleep` and `rand` source are not modelled. The draws `rand.Intn` and `rand.Float64` are parameters in their documented ranges. A draw is constrained only when its bound is positive; otherwise the model reports the panic.
- Float64 rounding is not modelled. Multipliers are exact reals, and conversions to integers truncate toward zero.
- The payload bytes of an event are not modelled, only its size.
- Generator.KeyChar: the `rune` conversion of `'A'+i` is modelled with int32 wrap-around and U+FFFD for invalid code points. Only indices below the surrogate range are characterised.
- Strings are sequences of Unicode scalar values, not Go's byte strings. Invalid UTF-8 cannot be represented, and a key character that Go encodes in several bytes (any index of 63 or more) is one element here.
- `backend/server/websocket.go`, `backend/cmd/server/main.go`, `backend/test_helpers.go` and `backend/tools.go` are not part of this model. They cover I/O, process wiring, fixtures and build tooling.
