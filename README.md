# metriki-core, modelled in Dafny

This project models the core of `metriki-core`, a Rust metrics library:

- the **metrics registry**: get-or-create of meters, histograms, counters and timers under a key, gauge registration, metrics sets, the snapshot filter and `snapshots()`;
- **keys**: a name plus an ordered list of tags, with their equality, ordering and hashing;
- the **instruments**:
  - the counter, a wrapping signed 64-bit cell;
  - the histogram, a value reservoir plus an exact update count;
  - the meter, an event count plus three exponentially weighted moving averages, ticked lazily every 5 seconds;
  - the timer, a meter plus a histogram of latencies.

Instruments that the code updates in place are classes:

- `Counters.Counter`, `Histograms.Histogram`, `Meters.Ewma`, `Meters.Meter`, `Timers.Timer` and `Registry.MetricsRegistry`;
- their methods carry `modifies` clauses;
- each method is specified by a function of the old state: `Step`, `UpdateState`, `TickState`, `Replay`, `NextSchedule`, `LookupKind`, `SnapshotOf`.

Keys are values with pure functions.

Time is a parameter:

- monotonic instants are `nat` milliseconds;
- wall-clock readings are `int` milliseconds (`Meters.Clock`).

The fixed-width integers of the atomics are written out explicitly:

- u64 count wrap-around (`WrapU64`);
- i64 counter wrap-around (`WrapI64`);
- `as u64` truncation of elapsed milliseconds;
- saturating `Instant` subtraction (`TickAge`).

The snapshot walks two hash maps in an unspecified order. `Snapshots` returns a ghost `order` in which the metrics sets were visited. The result is proved equal to `SnapshotOf(..., order)`. The lemmas about `SnapshotOf` hold for every order.

Two points deserve a word:

- **Get-or-create with the wrong kind.** Asking for an instrument under a key that holds another kind panics, as the code and its documentation both say. The model does not panic: the call returns `Err(existing kind)` and leaves the registry unchanged.
- **A timer context records a sample every time it is stopped.** The model follows the code here, not the "stopped or dropped" wording of its documentation. The `Drop` of a `TimerContext` calls `stop()` unconditionally. So a context that was stopped explicitly records a second sample when it goes out of scope, and `scoped` records two samples per call. `Timers.TimerContext.Drop`, `Timers.Timer.Scoped` and `Timers.DropTimerContextScenario` state this. In the unit test, the unbound `timer.start();` is dropped at the end of that statement, so its sample is about 0 ms, not the 500 ms the sleep suggests.

## Model

| member | source | states |
|---|---|---|
| Numeric.WrapI64 | metriki-core/src/metrics/counter.rs:10-12 | the i64 value congruent to the argument modulo 2^64, equal to it when in range |
| Numeric.WrapU64 | metriki-core/src/metrics/meter.rs:34-35 | the u64 value congruent to the argument modulo 2^64, equal to it when in range |
| Numeric.WrappingAdd | metriki-core/src/metrics/counter.rs:21-23 | `fetch_add` result: congruent to a + b modulo 2^64, exactly a + b without overflow |
| Numeric.WrappingSub | metriki-core/src/metrics/counter.rs:25-27 | `fetch_sub` result: congruent to a - b modulo 2^64, exactly a - b without overflow |
| Keys.FromName | metriki-core/src/key.rs:20-25 | the key's name is the given name and it has no tags |
| Keys.From | metriki-core/src/key.rs:27-32 | the key's name and tags are exactly those given, order kept |
| Keys.KeyEq | metriki-core/src/key.rs:43-47 | equal iff names equal and tag vectors equal element-wise in order, i.e. structural equality |
| Keys.Key.KeyName | metriki-core/src/key.rs:34-36 | `key()` returns the name |
| Keys.Key.Tags | metriki-core/src/key.rs:38-40 | `tags()` returns the tag slice, order kept |
| Keys.CompareTag | metriki-core/src/key.rs:13 | the derived tag ordering reports Equal exactly for equal tags |
| Keys.CompareKey | metriki-core/src/key.rs:57-61 | `Ord for Key` reports Equal exactly when `PartialEq for Key` holds |
| Keys.LexTotal | metriki-core/src/key.rs:57-61 | slice comparison extends a total order to a total order (equality iff Equal, antisymmetric, transitive) |
| Keys.StringOrderTotal | metriki-core/src/key.rs:59 | string comparison is a total order consistent with equality |
| Keys.TagOrderTotal | metriki-core/src/key.rs:13-17 | the derived tag ordering (key, then value) is a total order consistent with equality |
| Keys.KeyOrderTotal | metriki-core/src/key.rs:51-61 | `Ord for Key` is a total order, and `cmp == Equal` exactly when `PartialEq` holds |
| Keys.TagOrderMatters | metriki-core/src/key.rs:57-61 | the same two distinct tags in the other order form a different key that compares unequal |
| Keys.UntaggedAndTaggedDiffer | metriki-core/src/key.rs:19-32 | a tagged key differs from the untagged key of the same name; untagged keys are equal iff names are |
| Keys.AccessorsRoundTrip | metriki-core/src/key.rs:34-40 | rebuilding a key from `key()` and `tags()` gives the same key |
| Keys.StrHash | metriki-core/src/key.rs:86 | `str::hash` writes each character in order and then the terminator |
| Keys.KeyHash | metriki-core/src/key.rs:85-88 | the hasher sees the name's encoding first, then the tag count |
| Keys.StrHashPrefixFree | metriki-core/src/key.rs:85-86 | the hash encoding of a name can be split off uniquely from what follows |
| Keys.TagsBodyPrefixFree | metriki-core/src/key.rs:87 | the hash encoding of equally long tag lists can be split off uniquely |
| Keys.KeyHashInjective | metriki-core/src/key.rs:63-67 | keys feed the hasher the same tokens iff they are equal, so Hash agrees with Eq in both directions |
| Counters.Counter.constructor | metriki-core/src/metrics/counter.rs:15-19 | a new counter holds 0 |
| Counters.Counter.Inc | metriki-core/src/metrics/counter.rs:21-23 | the value becomes the wrapping sum with n |
| Counters.Counter.Dec | metriki-core/src/metrics/counter.rs:25-27 | the value becomes the wrapping difference with n |
| Counters.Counter.Value | metriki-core/src/metrics/counter.rs:29-31 | returns the current value |
| Counters.ApplyIsWrappedSum | metriki-core/src/metrics/counter.rs:21-27 | after any sequence of inc/dec calls, the value is the exact net sum reduced into i64 |
| Counters.NetDeltaAppend | metriki-core/src/metrics/counter.rs:21-27 | the net change of two histories in a row is the sum of their net changes |
| Counters.ApplyStep | metriki-core/src/metrics/counter.rs:21-27 | applying a history and then one more call equals applying the extended history |
| Counters.ApplyCommutes | metriki-core/src/metrics/counter.rs:21-27 | two batches of calls give the same value in either order |
| Counters.IncNegIsDec | metriki-core/src/metrics/counter.rs:21-27 | `inc` of the wrapped negation equals `dec`, for every n including i64::MIN |
| Counters.IncThenDec | metriki-core/src/metrics/counter.rs:21-27 | from zero, `inc(a); dec(b)` holds a - b wrapped; `inc(5); dec(2)` holds 3 |
| Counters.OnesAddUp | metriki-core/src/metrics/counter.rs:21-23 | N increments by one from zero read N below the i64 limit |
| Histograms.Histogram.constructor | metriki-core/src/metrics/histogram.rs:27-34 | a new histogram has no values and count 0 |
| Histograms.Histogram.Update | metriki-core/src/metrics/histogram.rs:36-40 | the value is appended, the count grows by one modulo 2^64, and count = number of updates is preserved |
| Histograms.Histogram.Snapshot | metriki-core/src/metrics/histogram.rs:42-51 | the snapshot holds the current values and count; its count is the number of updates |
| Histograms.HistogramSnapshot.Count | metriki-core/src/metrics/histogram.rs:55-57 | `count()` returns the count captured by the snapshot |
| Meters.Ewma.constructor | metriki-core/src/metrics/meter.rs:86-94 | a new window has the given alpha, nothing uncounted and no rate |
| Meters.Ewma.Update | metriki-core/src/metrics/meter.rs:96-98 | the events are added to the uncounted total, wrapping |
| Meters.Ewma.Tick | metriki-core/src/metrics/meter.rs:100-110 | uncounted events are taken and folded into the rate (instant rate on the first tick) |
| Meters.Ewma.GetRate | metriki-core/src/metrics/meter.rs:112-118 | 0 before the first tick, then the stored rate times 10^9 per second, non-negative when the stored rate is |
| Meters.FirstTickRate | metriki-core/src/metrics/meter.rs:100-118 | after the first tick a window reports count / 5 events per second |
| Meters.NextRateBetween | metriki-core/src/metrics/meter.rs:100-110 | a tick moves the rate toward the instant rate and never past either of them |
| Meters.SteadyRateIsFixed | metriki-core/src/metrics/meter.rs:100-110 | a steady event rate is a fixed point of the average |
| Meters.IdleTick | metriki-core/src/metrics/meter.rs:100-110 | a tick with no events scales the rate by 1 - alpha |
| Meters.ReplayFoldsPendingOnce | metriki-core/src/metrics/meter.rs:166-190 | replaying k ticks folds pending events into the first tick and decays the rate k - 1 more times |
| Meters.DecayShrinks | metriki-core/src/metrics/meter.rs:100-110 | an idle window's rate stays between 0 and where it was |
| Meters.ReplayRateNonNegative | metriki-core/src/metrics/meter.rs:100-118 | reported rates are never negative, and exist after at least one tick |
| Meters.MarkedEventsWaitForNextTick | metriki-core/src/metrics/meter.rs:34-38 | `mark_n`'s events are added after the due ticks, so they wait alone for the next tick |
| Meters.NextSchedule | metriki-core/src/metrics/meter.rs:166-190 | within one interval nothing happens; otherwise `last_tick` moves by whole intervals, one per tick, to within one interval of now |
| Meters.ScheduleIdempotent | metriki-core/src/metrics/meter.rs:166-190 | a second call at the same instant replays no ticks |
| Meters.LazyTicksKeepPace | metriki-core/src/metrics/meter.rs:166-190 | over any increasing sequence of calls, `last_tick` advances one interval per tick and ends within one interval of the last call |
| Meters.MeanRateAsWritten | metriki-core/src/metrics/meter.rs:59-73 | `mean_rate` as written: 0 with no events or a clock behind the start; +infinity exactly when events were counted within the first second; otherwise between 0 and the count |
| Meters.MeanRateInfiniteInFirstSecond | metriki-core/src/metrics/meter.rs:59-73 | a meter marked once and read 0.5 s after creation reports +infinity as written |
| Meters.MeanRateOf | metriki-core/src/metrics/meter.rs:59-73 | the intended mean rate is between 0 and the count, and 0 with no events or less than a second elapsed |
| Meters.MeanRateAgrees | metriki-core/src/metrics/meter.rs:59-73 | the written and the intended mean rate agree wherever the written one is finite; it is infinite exactly when events were counted in the first second |
| Meters.Meter.constructor | metriki-core/src/metrics/meter.rs:22-28 | count 0, three fresh empty windows with their alphas, `last_tick` and `start_time` from the clock |
| Meters.Meter.TickIfNeeded | metriki-core/src/metrics/meter.rs:166-190 | `last_tick` follows `NextSchedule` and each window has replayed exactly its number of ticks |
| Meters.Meter.MarkN | metriki-core/src/metrics/meter.rs:34-38 | count grows by n (wrapping); due ticks are replayed, then n is added to every window |
| Meters.Meter.Mark | metriki-core/src/metrics/meter.rs:30-32 | `mark_n(1)` |
| Meters.Meter.M1Rate | metriki-core/src/metrics/meter.rs:40-43 | due ticks are replayed, then the 1-minute window's rate per second is returned |
| Meters.Meter.M5Rate | metriki-core/src/metrics/meter.rs:45-48 | due ticks are replayed, then the 5-minute window's rate per second is returned |
| Meters.Meter.M15Rate | metriki-core/src/metrics/meter.rs:50-53 | due ticks are replayed, then the 15-minute window's rate per second is returned |
| Meters.Meter.Count | metriki-core/src/metrics/meter.rs:55-57 | returns the count |
| Meters.Meter.MeanRate | metriki-core/src/metrics/meter.rs:59-73 | mean rate (corrected form) is 0 without events and never exceeds the count |
| Meters.MarkNCountsExactly | metriki-core/src/metrics/meter.rs:34-35 | below 2^64 the count grows by exactly n and never decreases |
| Timers.LatencySample | metriki-core/src/metrics/timer.rs:72-77 | the sample is congruent to the saturated elapsed ms modulo 2^64: 0 for a clock at or before the start, the elapsed ms itself below 2^63 |
| Timers.Timer.constructor | metriki-core/src/metrics/timer.rs:26-31 | a fresh meter with count 0 and a fresh empty histogram |
| Timers.Timer.StartAt | metriki-core/src/metrics/timer.rs:41-47 | needs only a well-formed meter; marks it once: count + 1, due ticks replayed and one event added to every window; histogram untouched; returns a context with the start instant |
| Timers.Timer.Start | metriki-core/src/metrics/timer.rs:35-37 | `start_at(now)`, with the same effect on the meter |
| Timers.Timer.Scoped | metriki-core/src/metrics/timer.rs:50-58 | returns f's result; one mark at the start instant (count, `last_tick` and windows as for `start`) and two latency samples, explicit stop then drop |
| Timers.Timer.Rate | metriki-core/src/metrics/timer.rs:61-63 | returns the timer's own meter |
| Timers.Timer.Latency | metriki-core/src/metrics/timer.rs:66-68 | a snapshot of the latency histogram, whose count is the number of samples |
| Timers.TimerContext.Stop | metriki-core/src/metrics/timer.rs:72-77 | appends the elapsed-ms sample and counts it, keeping count = number of samples; the meter is untouched |
| Timers.TimerContext.Drop | metriki-core/src/metrics/timer.rs:80-84 | stops again unconditionally: one more sample even after an explicit stop |
| Timers.DropTimerContextScenario | metriki-core/src/metrics/timer.rs:123-138 | the meter counts 1 and then 2 starts; the histogram ends with three samples |
| Metrics.Gauge.constructor | metriki-core/src/metrics/gauge.rs:24-27 | the gauge keeps the function it was given |
| Registry.Accepts | metriki-core/src/registry.rs:246 | with no filter every entry is kept; with a filter, exactly the entries `accept` approves |
| Registry.LookupKind | metriki-core/src/registry.rs:67-79 | absent iff the key is unbound; found iff bound to the requested kind; conflict reports the other kind |
| Registry.CreatedIsFoundAgain | metriki-core/src/registry.rs:67-88 | after a creation the same kind finds that instrument, other kinds conflict, other keys are unaffected |
| Registry.StaticPart | metriki-core/src/registry.rs:244-249 | exactly the registered entries the filter accepts, each with its own instrument |
| Registry.StaticPartInsert | metriki-core/src/registry.rs:244-249 | one more entry appears in the static part exactly when the filter accepts it |
| Registry.SetPartOn | metriki-core/src/registry.rs:251-257 | exactly the accepted set entries, under their names' untagged keys |
| Registry.SnapshotOfAppend | metriki-core/src/registry.rs:250-258 | visiting one more set merges its accepted entries over the rest |
| Registry.SnapshotKeys | metriki-core/src/registry.rs:240-261 | a key is in the snapshot iff it is an accepted static key or the untagged key of an accepted set entry |
| Registry.ProvidedSomewhereSplit | metriki-core/src/registry.rs:251-253 | some visited set provides a name iff an earlier one or the last one does |
| Registry.StaticEntryKept | metriki-core/src/registry.rs:244-249 | an accepted static entry keeps its instrument unless a set provides the same untagged key |
| Registry.SetEntryWins | metriki-core/src/registry.rs:250-258 | an accepted set entry overrides a static entry, and the last set that provides the name wins |
| Registry.UnionLookup | metriki-core/src/registry.rs:255 | an inserted entry replaces an existing one under the same key and leaves other keys alone |
| Registry.MetricsRegistry.constructor | metriki-core/src/registry.rs:40-42 | empty registry: no metrics, no sets, no filter |
| Registry.MetricsRegistry.DoMeter | metriki-core/src/registry.rs:67-88 | same meter when one is bound; Err with the other kind and no change on a conflict; otherwise a fresh zero meter is bound |
| Registry.MetricsRegistry.GetMeter | metriki-core/src/registry.rs:57-60 | `do_meter` under the untagged key |
| Registry.MetricsRegistry.MeterWithTags | metriki-core/src/registry.rs:62-65 | `do_meter` under the tagged key, tags as given |
| Registry.MetricsRegistry.DoHistogram | metriki-core/src/registry.rs:109-132 | same histogram when one is bound; Err and no change on a conflict; otherwise a fresh empty histogram is bound |
| Registry.MetricsRegistry.GetHistogram | metriki-core/src/registry.rs:99-102 | `do_histogram` under the untagged key |
| Registry.MetricsRegistry.HistogramWithTags | metriki-core/src/registry.rs:104-107 | `do_histogram` under the tagged key |
| Registry.MetricsRegistry.DoCounter | metriki-core/src/registry.rs:151-174 | same counter when one is bound; Err and no change on a conflict; otherwise a fresh zero counter is bound |
| Registry.MetricsRegistry.GetCounter | metriki-core/src/registry.rs:141-144 | `do_counter` under the untagged key |
| Registry.MetricsRegistry.CounterWithTags | metriki-core/src/registry.rs:146-149 | `do_counter` under the tagged key |
| Registry.MetricsRegistry.DoTimer | metriki-core/src/registry.rs:194-215 | same timer when one is bound; Err and no change on a conflict; otherwise a fresh idle timer (fresh meter, windows and histogram) is bound; any returned timer can be started |
| Registry.MetricsRegistry.GetTimer | metriki-core/src/registry.rs:184-187 | `do_timer` under the untagged key |
| Registry.MetricsRegistry.TimerWithTags | metriki-core/src/registry.rs:189-192 | `do_timer` under the tagged key |
| Registry.MetricsRegistry.DoGauge | metriki-core/src/registry.rs:230-234 | a fresh gauge replaces whatever the key held; no other key changes |
| Registry.MetricsRegistry.GetGauge | metriki-core/src/registry.rs:220-223 | `do_gauge` under the untagged key |
| Registry.MetricsRegistry.GaugeWithTags | metriki-core/src/registry.rs:225-228 | `do_gauge` under the tagged key |
| Registry.MetricsRegistry.SetFilter | metriki-core/src/registry.rs:266-268 | the filter is replaced (or removed) |
| Registry.MetricsRegistry.RegisterMetricsSet | metriki-core/src/registry.rs:278-280 | the set is bound to its name, replacing any set of that name |
| Registry.MetricsRegistry.UnregisterMetricsSet | metriki-core/src/registry.rs:283-285 | only that name is removed |
| Registry.MetricsRegistry.Snapshots | metriki-core/src/registry.rs:240-261 | every registered set is visited once, and the result is the snapshot for that visiting order |
| Registry.CopyStatic | metriki-core/src/registry.rs:244-249 | the first loop yields exactly the static part |
| Registry.MergeSet | metriki-core/src/registry.rs:251-257 | the inner loop merges a set's accepted entries over what is there |
| Registry.AddOneName | metriki-core/src/registry.rs:253-257 | handling one more entry of a set inserts it iff the filter accepts it |
| Registry.UnionUpdate | metriki-core/src/registry.rs:255 | inserting into the merged-in part is inserting into the union |
| RegistryScenarios.TwoOfFourKept | metriki-core/src/registry.rs:295-313 | four distinct names, two of them accepted: the filtered static part has two entries |
| RegistryScenarios.FilterExampleNames | metriki-core/src/registry.rs:298-307 | the two "l1" names pass the name filter and the two "l2" names do not |
| RegistryScenarios.FilterExampleNamesDiffer | metriki-core/src/registry.rs:298-301 | the four meter names are pairwise different |
| RegistryScenarios.MetricsFilterScenario | metriki-core/src/registry.rs:295-314 | four marked meters and the "l1" filter: the snapshot has 2 entries |
| RegistryScenarios.MarkedMeter | metriki-core/src/registry.rs:298 | `meter(name).mark()` binds a new meter with count 1 |
| RegistryScenarios.MetricsSetScenario | metriki-core/src/mset.rs:43-53 | with one set and one static counter the snapshot has 2 entries, holding both names |
| RegistryScenarios.SetScenarioSnapshot | metriki-core/src/mset.rs:48-52 | the snapshot of that registry state has both counters and nothing else |
| RegistryScenarios.SingleSetOrder | metriki-core/src/mset.rs:45 | with one registered set there is only one visiting order |
| RegistryScenarios.IncrementedCounter | metriki-core/src/mset.rs:46 | `counter(name).inc(n)` binds a new counter holding n |
| RegistryScenarios.DummyGetAll | metriki-core/src/mset.rs:31-39 | the set provides one counter named "test.set.counter" holding 10 |
| RegistryScenarios.SetAndStaticCounters | metriki-core/src/mset.rs:48-52 | the static counter and the set's counter sit under two different untagged keys |
| RegistryScenarios.SameMeterTwice | metriki-core/src/registry.rs:67-88 | asking twice for a meter returns the same object and registers one entry |
| RegistryScenarios.TaggedAndUntaggedMeters | metriki-core/src/registry.rs:57-65 | the untagged and the tagged meter of one name are two entries with two objects |
| RegistryScenarios.KindConflictScenario | metriki-core/src/registry.rs:151-163 | a counter asked for under a meter's key is refused with the meter kept; a gauge then replaces it |
| RegistryScenarios.RegistryTimerScenario | metriki-core/src/lib.rs:59-62 | a registry timer started and stopped, then found again and started, counts 2 starts and holds 1 sample |

## Left out

- Concurrency is not modelled. This covers the atomics, `AtomicCell`, the `DashMap` shards, the compare-and-swap on `last_tick` and the histogram's mutex. Every operation runs sequentially, so the compare-and-swap always succeeds. `Counters.ApplyCommutes` is the one statement about interleavings.
- f64 arithmetic is modelled as exact real arithmetic. The `alpha` values are `1 - exp(...)`, and the exponential is floating-point code. The three constants are only known to lie strictly between 0 and 1.
- The exponentially decaying reservoir of the histogram belongs to another library. Its mean, min, max, standard deviation and quantiles are not modelled. The reservoir is the sequence of every value passed to `update`.
- Clocks are parameters: `Instant::now()` and `SystemTime::now()` become `Meters.Clock` and the `now` arguments.
- Serialization, the reporters, `global.rs` and the macros are outside the core.
- What a gauge function returns is not modelled, and neither is what a metrics set's `get_all` computes. A gauge keeps only the function's identity. A set's metrics are supplied to `Snapshots` as data.
- `utils.rs` (`secs_to_nanos`) is not part of this model. The window interval is the constant 5 000 000 000 ns.
- `Meters.NextSchedule`: `(current_tick - previous_tick).as_millis() as u64` is not truncated to 64 bits. Ages of 2^64 ms or more, about 585 million years, are out of scope.
- `Registry.MetricsRegistry.DoMeter`, `Registry.MetricsRegistry.DoHistogram`, `Registry.MetricsRegistry.DoCounter` and `Registry.MetricsRegistry.DoTimer` model the panic on a kind conflict as an `Err` result with the registry unchanged. A panic cannot be resumed from, so there is no continuation to model.
- `Timers.TimerContext.Stop` passes the elapsed milliseconds `as u64` to the histogram's i64 `update`. The model reads that u64 as i64 by wrapping.
- `Timers.Timer.Scoped`: the closure `f` is not run. Its result is passed in as a value, so nothing `f` does is modelled. In the source, `f` could start this very timer or stop one of its contexts. The "one mark, two samples" contract holds only for an `f` that leaves the timer alone.
- `Registry.Filter` is a function of the name and the instrument reference only. It cannot read the instrument's current data, although `MetricsFilter` may filter on "name, type or actual data". An installed filter therefore decides the same way however the instruments change.
- `Meters.NextSchedule` and `Meters.LazyTicksKeepPace` work at whole-millisecond resolution. In the source, `as_millis()` truncates the tick age, so the new `last_tick` keeps the sub-millisecond part of now. With a finer clock, `last_tick` moves by whole intervals plus less than one millisecond per replay.
- Lifetimes and `Arc` sharing become shared object references. Two entries hold the same instrument exactly when they hold the same object.

## Findings

| source | as written | input that shows it | evidently intended | confidence | as-written member | corrected member |
|---|---|---|---|---|---|---|
| metriki-core/src/metrics/meter.rs:59-73 | `mean_rate` divides the count by the whole seconds elapsed (`as_secs() as f64`), which is 0.0 during the first second, so the f64 division gives +infinity | a meter marked once and read 500 ms after creation (count 1, elapsed 0 whole seconds) | a finite rate between 0 and the count, 0 before one whole second has elapsed | not executed; follows from f64 division of a positive number by 0.0 | Meters.MeanRateInfiniteInFirstSecond | Meters.MeanRateOf |
