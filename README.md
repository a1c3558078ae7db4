# Bar aggregation engine with a lookback indicator

This project models the `series` engine of the pine trading library. The
engine turns trade executions (`TPQ`) or whole bars (`OHLCV`) into a series of
fixed-length bars. Each bar starts at a whole number of intervals after the
UTC midnight of its day. The project also models the `prev` wrapper, which
answers a query with the value its source indicator had `lookback` intervals
earlier.

The engine keeps its bars in three structures:

- `values`: a list of copies taken when each bar is inserted;
- `timemap`: a map from interval start to a mutable bar;
- `lastOHLC`: a pointer to the bar the next execution merges into.

These are modelled as Dafny heap state:

- `Engine.Series` is a class with those fields.
- `Engine.Bar` is a class for a mutable bar.
- The bar-changing methods `InsertInterval`, `AddExec`, `AddOHLCV` and
  `InitValues` are proved to change the fields exactly as a pure function on
  the value `BarStore.Store` says.
- The ghost field `Contents` holds that value. `Coupled` ties it to the heap.
- The pure functions are `Insert`, `Rewrite`, `Detach`, `AddExecStore`,
  `AddOHLCVStore` and `InitStore`. What the library promises is proved as
  lemmas about them, in `BarStore`, `GapFill`, `Ingest`, `Recency` and
  `Align`. The `prev` wrapper's properties are in `PreviousProps`.
- `AddIndicator` changes only `items`. Its result is stated through the
  indicator functions `ApplyOpts` and `FeedAll`.
- Every method that allocates a bar ensures that `lastOHLC` is unchanged or
  fresh, and `NewSeries` ensures that every bar it returns is fresh. So calls
  can be chained on one series: `Session.Replay` runs any sequence of
  AddExec and AddOHLCV calls after NewSeries, and
  `Session.ReplaceThenNextSeries` replays the bar test.

The model keeps these behaviours of the source:

- `values` holds stale copies. In-place merges and replacements never reach
  it, and `AddIndicator` replays those copies.
- After `AddOHLCV`, `lastOHLC` points to a private copy of the incoming bar,
  even on the earlier-interval path. The `attached` flag of `Store` records
  whether `lastOHLC` is still the stored bar.
- The gap loops discard indicator errors, and `AddOHLCV` updates no
  indicator.
- High and low are updated through an `else if`.
- `lastOHLC` is the last bar inserted or written, not the latest stored one.
  After a bar for an earlier interval, or initial bars out of time order, it
  lags behind a stored bar; executions for that bar's interval then reach
  no stored bar (`Recency`).
- The gap count follows `lastOHLC` one interval at a time and is truncated.
  For an interval that does not divide a day, a gap across midnight can
  store an execution one interval early, or drop it.

The indicator interface (`ApplyOpts`, `Update`, `GetValueForInterval`) is the
datatype `Indicators.Indicator`. Its two kinds are:

- `Previous`, the `prev` struct;
- `Leaf`, any other indicator, given by:
  - whether it accepts given options;
  - whether it accepts a bar after the bars it has received;
  - what it answers, as a function of its options and those bars.

The registered indicators are the map `items`. Go's unspecified map iteration
order is modelled with a nondeterministic choice (`:|`) in the loops of
`UpdateAll` and `QueryAll`. The contracts of those loops do not depend on the
order.

Time is an integer number of seconds since the Unix epoch. The UTC day start
of `t` is `t - t % 86400`. Prices and quantities are `real`.

## Model

| member | source | states |
|---|---|---|
| Engine.NewSeries | series.go:64-84 | fails exactly when `Interval <= 0` or `Max <= 0`; otherwise returns a fresh series with no indicators and a zero `lastExec`, holding `InitStore` of the initial bars in fresh bars, which satisfies the store invariant; when the initial bars' interval starts never decrease, the last bar is the latest stored one (`Latest`) |
| Engine.Series.constructor | series.go:75-81 | the empty series: the given options, no indicators, no bars, no `lastOHLC` and a zero `lastExec` |
| Engine.Bar.constructor | series.go:107-108 | a new heap bar holding the given bar's fields (`&v`) |
| Engine.Bar.Snap | series.go:36-39 | the bar's current fields as a value; GetValueForInterval returns this copy, and `Coupled` requires each stored bar's copy to equal the bar in `Contents` |
| Engine.Series.InitValues | series.go:95-99 | inserting the initial bars one by one into an empty series yields `InitStore(bars)`, held in fresh bars |
| Ingest.InitStoreKeys | series.go:95-110 | after loading, the store invariant holds, the keys are exactly the aligned starts of the input, and every stored bar equals its copy in `values` |
| Ingest.InitStoreValues | series.go:95-110 | after loading, `values` is the first bar of each aligned start, re-stamped, in input order |
| Ingest.InitStoreFirst | series.go:95-110 | the bar stored at the aligned start of a first occurrence is that bar, re-stamped |
| Engine.Series.InsertInterval | series.go:101-110 | re-stamps the bar to its interval start; if that key is new, it appends a copy to `values`, maps the key to a new bar and points `lastOHLC` at it, all together; otherwise nothing changes (`Insert`); every bar it leaves in `timemap` is old or fresh |
| BarStore.InsertValid | series.go:101-110 | `Insert` keeps the invariant: one bar per aligned key stamped with its key, as many copies as keys with distinct starts, `lastOHLC` nil exactly when nothing is stored, an attached last bar equal to its stored bar |
| Engine.Series.UpdateIndicators | series.go:112-119 | keeps every indicator name; each indicator is left as it was or updated once with the bar; if all accept, all are updated; the error is returned exactly when some indicator rejects the bar |
| Engine.UpdateAll | series.go:113-118 | the loop over the indicator table, in an unspecified order, stopping at the first rejection; same contract |
| Align.AlignBounds | series.go:121-131 | the aligned start lies in the same UTC day as `t`, satisfies `start <= t < start + Interval`, and is a whole number of intervals after midnight |
| Align.AlignIdempotent | series.go:121-126 | aligning an aligned start returns it unchanged |
| Align.AlignMonotone | series.go:121-126 | alignment is monotone in `t` |
| Align.AlignedIff | series.go:121-131 | `t` is aligned exactly when its offset from midnight is a multiple of the interval |
| Align.GapCount | series.go:128-131 | for an interval dividing a day and an aligned last start below `start`, the truncated count `m` is at least 1 and `start == last + m * Interval` |
| Engine.Series.AddExec | series.go:139-157 | the bars become `AddExecStore`; the indicators are offered `AddExecFeed` in order; the error is returned exactly on an unknown policy, or when a first-bar or same-interval update is rejected; `lastExec` is set only on success; the store invariant is kept, and so is `Latest`; `lastOHLC` is unchanged or fresh |
| Ingest.AddExecFirst | series.go:139-171 | with no bar yet, the only stored bar is O=H=L=C=px, V=qty at the aligned start, attached, and it is the one bar handed to the indicators |
| Engine.Series.CreateNewOHLCV | series.go:163-171 | inserts the one-price bar and hands it to the indicators, returning their error |
| Engine.Series.UpdateLastOHLCV | series.go:173-186 | merges the execution into the bar `lastOHLC` points to (`Rewrite` with `MergeExec`) and hands the merged bar to the indicators, returning their error |
| BarStore.MergeExecFields | series.go:174-181 | the merge keeps O, sets C=px and adds qty to V; if px > H it raises H and leaves L; otherwise it lowers L only when px < L |
| BarStore.MergeExecWellFormed | series.go:174-181 | on a bar whose low and high bound its prices, the `else if` loses nothing: H and L become the max and min with px |
| Ingest.AddExecSame | series.go:173-186 | an execution in the last bar's interval changes the last bar to the merged bar; the stored bar changes only while attached; `values` keeps its old copy; the merged bar is handed to the indicators |
| Ingest.AddExecEarlier | series.go:139-157 | an execution for an earlier interval changes no bar, feeds no indicator and raises no error |
| Engine.Series.UpdateAndFillGaps | series.go:188-234 | for a later interval, under each policy, the bars become `AddExecStore` and the feed is `AddExecFeed`; the error is returned exactly on an unknown policy; indicator errors are discarded |
| Engine.Series.GapLoop | series.go:188-225 | the gap loops of updateAndFillGaps, which are also those of AddOHLCV at lines 271-305: `m` iterations build the bar one interval after the last one (the final bar at `usenew`, otherwise a filler at the last close or zero) and insert it, giving `GapFrom`; when pushing, the indicators are offered exactly `GapFeed`; otherwise they are untouched |
| Engine.Series.GapStep | series.go:194-206 | one iteration of a gap loop: the loop's progress invariant `GapProgress` moves from `i` to `i + 1`, and `lastOHLC` is unchanged or fresh |
| GapFill.GapFillExact | series.go:188-225 | for an interval dividing a day and a last bar that is the latest (`Latest`): `values` gains exactly the `m` reference bars at `L+I, ..., L+m*I`; the first `m-1` are fillers at the last close (or 0) with no volume and the `m`-th is the final bar; every earlier bar is kept; the last bar is the final one, attached; the same bars are handed over in order |
| Ingest.AddExecGap | series.go:188-225 | under UseLastClose or UseZeros, with `m = (start - L) / I`: `m >= 1`, `start == L + m*I`, exactly `m` bars are appended, the `m`-th carrying px/qty at `start`, and they are the bars handed to the indicators |
| Ingest.AddExecIgnore | series.go:226-229 | under Ignore a later execution hands exactly the one-price bar at `start` to the indicators; if `start` is not yet stored, it adds exactly that bar, attached; if `lastOHLC` lags behind a bar already stored at `start`, nothing is stored or merged; a latest last bar excludes the second case |
| Ingest.PolicyErrorIff | series.go:230-231 | for a later interval, the error is returned exactly when the policy is none of the three known ones |
| Ingest.AddExecStoreValid | series.go:139-234 | every AddExec branch keeps the store invariant |
| Engine.Series.AddIndicator | series.go:238-251 | fails without registering when ApplyOpts fails or any copy in `values` is rejected in order; otherwise registers the configured, replayed indicator under `name`, replacing any earlier one; the bars are unchanged |
| Engine.FeedValues | series.go:244-248 | the replay loop returns `FeedAll` of the copies: the first rejection is an error, otherwise the indicator after every update in order |
| Indicators.FeedAllPrefixErr | series.go:244-248 | once a prefix of the replay fails, the replay fails |
| Engine.Series.AddOHLCV | series.go:255-314 | the bars become `AddOHLCVStore`; the error is returned exactly on a later interval under an unknown policy; no indicator changes; the store invariant is kept, and `Latest` too unless the bar's interval is earlier than the last bar's; `lastOHLC` is unchanged or fresh |
| Engine.Series.ReplaceLast | series.go:261-268 | writes all five fields of the incoming bar into the bar `lastOHLC` points to (`Rewrite`) |
| Engine.Series.PointLastAt | series.go:312 | `lastOHLC` points to a fresh private copy of the bar (`Detach`) |
| Ingest.AddOHLCVSame | series.go:255-314 | for the last bar's interval, the incoming O, H, L, C and V replace the last bar without merging; the stored bar changes only while attached; `lastOHLC` then detaches |
| Ingest.AddOHLCVReplaceTwice | series.go:255-314 | a second bar for the same interval rewrites only the detached copy, so the stored bar keeps the first replacement |
| Ingest.AddExecAfterOHLCV | series.go:173-186 | an execution after AddOHLCV in the same interval merges into the detached copy and leaves every stored bar unchanged |
| Ingest.AddOHLCVEarlier | series.go:255-314 | a bar for an earlier interval stores nothing, yet `lastOHLC` is left pointing at a copy of it |
| Ingest.AddOHLCVGap | series.go:269-305 | under UseLastClose or UseZeros, `m-1` fillers are appended and then the incoming bar re-stamped to `start`, and `lastOHLC` detaches onto it; with `m = 1` this is exactly the incoming bar with S aligned |
| Ingest.AddOHLCVIgnore | series.go:306-312 | under Ignore, if `start` is not yet stored, the incoming bar, re-stamped, is stored there and `lastOHLC` detaches onto it; if `lastOHLC` lags behind a bar already stored at `start`, only the detaching happens; a latest last bar excludes the second case |
| Ingest.AddOHLCVStoreValid | series.go:255-314 | every AddOHLCV branch keeps the store invariant |
| Ingest.AddExecIsGap | series.go:149-225 | under UseLastClose or UseZeros, a later execution's effect on the bars and on the indicators is the gap loop from the last bar with `m = MultiplierDiff(t, L)` and `usenew = UseNew(m)` |
| Types.NewOHLCVWithSamePx | series.go:159-161 | the bar with all four prices `px`, volume `qty` and start `t` (a constructor; used by `Ingest.AddExecFirst` and `GapFill.GapExpected`) |
| Align.LastIntervalFromTime | series.go:121-126 | the UTC midnight of `t` plus a truncated whole number of intervals; its bounds are stated by `Align.AlignBounds` |
| Align.MultiplierDiff | series.go:128-131 | the number of whole intervals in `t - st`, truncated toward zero; `Recency.CountBelow` and `Align.GapCount` state its bounds |
| Indicators.NewPrevious | previous.go:17-22 | a `prev` with the given source and lookback and no options yet; `PreviousProps.NewPreviousApplyOpts` states what configuring it does |
| BarStore.MergeExec | series.go:174-181 | the field updates of updateLastOHLCV as a function on bars; stated by `BarStore.MergeExecFields` |
| Engine.Bar.Merge | series.go:174-181 | the bar's fields become `MergeExec` of their old values with the execution |
| Engine.Bar.Assign | series.go:263-268 | the bar's O, H, L, C and V become the incoming bar's; its start is kept |
| Engine.Series.RecordExec | series.go:155 | `lastExec` becomes the execution; the bars and the invariant are unchanged |
| Engine.Series.PushIgnoringErrors | series.go:206 | hands one more bar to the indicators and discards the error: the bars handed over so far grow by that bar and the bars do not change |
| BarStore.Insert | series.go:101-110 | insertInterval on the bar store; stated by `BarStore.InsertValid` and `Recency.InsertLatest` |
| BarStore.Rewrite | series.go:173-181 | writing the last bar through `lastOHLC`, which reaches the stored bar only while attached; stated by `Ingest.AddExecSame` and `Ingest.AddOHLCVSame` |
| BarStore.Detach | series.go:312 | `s.lastOHLC = &v`; stated by `Ingest.AddOHLCVReplaceTwice` and `Ingest.AddExecAfterOHLCV` |
| BarStore.FinalBar | series.go:196-198 | the last bar of a gap: the execution at `newt` with all four prices `px`, or the incoming bar itself (series.go:279-280) |
| BarStore.UseNew | series.go:193 | `max(m - 1, 0)`; equal to `m - 1` whenever the loop runs |
| BarStore.GapBar | series.go:194-204 | the bar built in one iteration of a gap loop, one interval after the current last bar |
| BarStore.GapFrom | series.go:194-207 | the remaining iterations of a gap loop on the bar store; it always leaves a last bar; `GapFill.GapFillExact` states its result |
| BarStore.GapFeed | series.go:194-207 | the bars a gap loop hands to the indicators; `GapFill.GapFillExact` states them |
| BarStore.AddExecStore | series.go:139-234 | AddExec's effect on the bars, branch by branch; stated by the `Ingest.AddExec*` lemmas |
| BarStore.AddOHLCVStore | series.go:255-314 | AddOHLCV's effect on the bars, branch by branch; stated by the `Ingest.AddOHLCV*` lemmas |
| BarStore.InitStore | series.go:95-99 | initValues on the bar store; stated by `Ingest.InitStoreKeys`, `Ingest.InitStoreValues` and `Recency.InitStoreLatest` |
| Recency.InsertLatest | series.go:101-110 | inserting a bar whose interval starts after the latest bar stores it, attached, and keeps the last bar the latest |
| Recency.GapFromLatest | series.go:188-225 | each bar of an execution's gap loop lands after the current last bar, so the loop keeps the last bar the latest for every interval |
| Recency.GapFromBelow | series.go:271-305 | when the fillers still to come and the incoming bar stay at or before a bound, so do all keys after AddOHLCV's gap loop |
| Recency.CountBelow | series.go:128-131 | for `t > st`, the truncated count is non-negative and `st + m * Interval <= t` |
| Recency.AddExecLatest | series.go:139-234 | every branch of AddExec keeps the last bar the latest, for every interval and policy |
| Recency.AddOHLCVGapLatest | series.go:269-305 | after AddOHLCV's gap loop, no stored key lies after the incoming bar, which becomes the last bar |
| Recency.AddOHLCVLatest | series.go:255-314 | AddOHLCV keeps the last bar the latest for a bar of the same or a later interval; a bar of an earlier interval leaves `lastOHLC` behind a stored bar whenever the old last bar was stored |
| Recency.InitStoreLatest | series.go:95-110 | initial bars whose interval starts never decrease (`StartsInOrder`) leave the last bar the latest, with no last bar only when nothing is stored |
| Recency.InitStoreLatestSorted | series.go:95-110 | in particular, initial bars in time order leave the last bar the latest |
| Recency.InitStoreOutOfOrder | series.go:95-110 | two initial bars with the second one's interval earlier leave `lastOHLC` on the second while the first stays stored, so the last bar is not the latest |
| Recency.LaggingDropsExec | series.go:226-229 | after a bar for an earlier interval, an execution under Ignore in the latest stored interval is handed to the indicators but stored and merged nowhere |
| Recency.GapAcrossMidnight | series.go:192-205 | at a seven-hour interval, after a last bar at 75600, an execution at 136800 gives `m = 2`: a filler at 86400 and the execution's bar at 111600, and no bar at 136800 |
| Recency.ExecLostAtMidnight | series.go:192-194 | at a seven-hour interval, after a last bar at 75600, an execution at 86400 lies in a later interval but gives `m = 0`: nothing is stored, nothing is handed over and there is no error |
| Engine.Series.GetValueForInterval | series.go:318-343 | none exactly when there is no bar yet or no bar at the aligned `t`; otherwise the stored bar of the aligned start, stamped with that start, with an indicator entry exactly for the indicators that have a value there, holding that value; no state changes |
| Engine.QueryAll | series.go:327-333 | the query loop yields, for each name, the indicator's value when it is not nil, and no entry otherwise |
| Indicators.PrevApplyOpts | previous.go:42-51 | fails when `Max < lookback`, without consulting the source; otherwise succeeds exactly when the source accepts, and then stores the options around the configured source |
| PreviousProps.NewPreviousApplyOpts | previous.go:17-51 | a new wrapper accepts options exactly when `Max >= lookback` and the source accepts, and then holds the configured source and the options |
| Indicators.PrevUpdate | previous.go:35-40 | forwards the bar to the source once, fails exactly when the source fails, and otherwise changes only the source |
| PreviousProps.PreviousFeedAll | previous.go:35-40 | feeding a wrapper feeds its source the same bars and nothing else |
| Indicators.PrevValueAt | previous.go:24-33 | none exactly when the source has no value at `t - lookback * Interval`; otherwise `StartTime == t` (unshifted) and the source's value |
| PreviousProps.PreviousAfterFeed | previous.go:24-40 | after any successful history of updates, a configured wrapper answers at `t` exactly when its fed source answers at the shifted time, with that value |
| PreviousProps.PreviousCompose | previous.go:24-33 | looking back `b` intervals over a lookback of `a` intervals is a lookback of `a + b` |
| PreviousProps.PreviousZero | previous.go:24-33 | a lookback of zero answers with the source's value at the same time |
| PreviousProps.ApplyOptsConfigures | previous.go:42-51 | a successful ApplyOpts leaves every wrapper in the chain with stored options, so a later query dereferences no nil options |
| PreviousProps.FeedAllKeepsConfigured | previous.go:35-40 | updates never remove stored options |
| Indicators.FedTrans | series.go:112-119 | offering bars and then one more bar is offering the longer sequence, which is what chains the gap loop's updates |
| Indicators.ApplyOpts | series.go:17-21 | the interface's ApplyOpts: a leaf accepts the options or not, and a `prev` runs `PrevApplyOpts`; `PreviousProps.ApplyOptsConfigures` states that success leaves every wrapper configured |
| Indicators.Update | series.go:17-21 | the interface's Update: a leaf appends an admitted bar to its history, and a `prev` runs `PrevUpdate`; stated by `PreviousProps.FeedAllKeepsConfigured` and `Indicators.FedTrans` |
| Indicators.ValueAt | series.go:17-21 | the interface's GetValueForInterval on a configured indicator; stated by `Indicators.PrevValueAt` and `PreviousProps.PreviousAfterFeed` |
| Indicators.FeedAll | series.go:244-248 | Update with each bar in order, failing at the first rejection; stated by `Indicators.FeedAllPrefixErr`, `PreviousProps.PreviousFeedAll` and `Engine.FeedValues` |
| BarStore.AddExecFeed | series.go:139-229 | the bars AddExec hands to the indicators, branch by branch; stated by `Ingest.AddExecFirst`, `Ingest.AddExecSame`, `Ingest.AddExecEarlier`, `Ingest.AddExecGap` and `Ingest.AddExecIgnore` |
| BarStore.AddExecPropagates | series.go:141-148 | the first-bar and same-interval branches, the two that return the indicators' error; `Engine.Series.AddExec` fails on them exactly when an indicator rejects |
| BarStore.PolicyError | series.go:230-231 | a later interval under a policy none of the three known ones (also series.go:308-309); `Ingest.PolicyErrorIff` states it |
| BarStore.Restamp | series.go:102-103 | the bar with its start moved to the start of its interval (also series.go:256-257); `Align.AlignIdempotent` makes it idempotent |
| Align.DayStart | series.go:121-123 | the UTC midnight of `t`; stated by `Align.DayStartShape` |
| Align.DayStartShape | series.go:121-123 | the day start is a multiple of 86400 and `DayStart(t) <= t < DayStart(t) + 86400` |
| Ingest.AddOHLCVNext | series.go:269-305 | under UseLastClose or UseZeros, a bar exactly one interval after the last bar adds no filler: it is stored as it is, re-stamped, unless its start is already stored; `lastOHLC` detaches onto it and there is no error |
| Session.Step | series.go:139-314 | one AddExec or AddOHLCV call on the bar store; stated by `Session.Apply` |
| Session.Run | series.go:139-314 | the calls of a sequence of events, in order, on the bar store; stated by `Session.RunExecsLatest` and `Session.Replay` |
| Session.RunSnoc | series.go:139-314 | running one more event is one more `Step` |
| Session.RunExecsLatest | series.go:139-234 | any sequence of executions keeps the store invariant and the last bar the latest |
| Session.Apply | series.go:139-314 | one AddExec or AddOHLCV call on a series: the bars become `Step` of the old bars; the store invariant holds; `lastOHLC` is unchanged or fresh |
| Session.ApplyAll | series.go:139-314 | calls on a series, one per event, each on the state the previous one left: the bars become `Run` of the old bars |
| Session.Replay | series.go:64-314 | NewSeries then one call per event: fails exactly as NewSeries fails; otherwise a fresh valid series whose bars are `Run` of `InitStore` of the initial bars, with the store invariant |
| Scenario.OneInitialBar | series.go:95-110 | NewSeries with one bar stores that bar, re-stamped, as the only bar and the attached last bar, with the store invariant and `Latest` |
| Scenario.ReplaceThenNext | test/series_add_ohlcv_dynamic_set_test.go:32-94 | after one initial bar, a bar for the same interval replaces it and a bar for the next interval is stored after it, with no error: the bars are then exactly those two, re-stamped |
| Session.ReplaceThenNextSeries | test/series_add_ohlcv_dynamic_set_test.go:32-94 | the same on a series: both AddOHLCV calls succeed, the query at the first bar's time returns the replacing bar and the query at the next bar's time returns the next bar |
| Scenario.MergeSequence | series.go:173-181 | the four executions per interval of test/series_add_exec_from_empty_test.go:33-73 merge into the bars it expects at lines 87-108 |
| Scenario.GapSequence | series.go:188-207 | the execution at the third interval of that test leaves the filler it expects at lines 109-119 |

## Left out

- The SMA, StdDev, OHLCProp and Constant indicators are not part of this model. They are `Leaf` values with arbitrary behaviour, and every property holds for any such behaviour.
- Indicators are values, not shared pointers. An indicator registered under two names, or kept by the caller after registration, cannot alias here. A `prev` whose ApplyOpts fails partway leaves no half-configured source behind.
- `prev.ApplyOpts` writes its `opts` field in place. The model returns the configured wrapper as a new value, because the indicator table holds values.
- The `lastUpdate` field of `prev` is never written by the source and is not modelled.
- The `Interval.OHLCV` pointer returned by GetValueForInterval aliases the stored bar. The model returns a copy (`Snap`).
- Floating point: prices and quantities are exact `real`s. `getMultiplierDiff` divides whole seconds with truncation toward zero, where the source divides floats.
- `time.Time`: time zones, sub-second precision, monotonic readings and `Duration` overflow are left out. Times are whole seconds.
- The `Max` option is validated but never used to bound the series in the source, so it bounds nothing here.
- Error values carry no message. Only failure versus success is modelled.
- Concurrency: the engine has no locking, and the model is sequential.
- `getOHLCV` is never called in the source and is not modelled.
- The two copies of the gap loop per entry point (UseLastClose and UseZeros) are one method, `GapLoop`, with a `zeros` flag. The loops of updateAndFillGaps and AddOHLCV are the same method with a `Final` bar and a `push` flag.
- GapFill.GapFillExact, Ingest.AddExecGap and Ingest.AddOHLCVGap require an interval that divides a day, and a last bar that is the latest stored one (`Latest`). The series keeps `Latest` from initial bars whose interval starts never decrease, through every AddExec, and through every AddOHLCV except one for an earlier interval (`Recency`). `lastOHLC` lags behind in two cases: after AddOHLCV on an earlier interval, and after NewSeries with initial bars out of time order (`Recency.InitStoreOutOfOrder`). A later gap then re-inserts keys that already exist, and those keys are skipped. The model computes that as `GapFrom`, but no lemma describes the bars such a lagging gap stores. The Ignore lemmas state the lagging case.
- For an interval that does not divide a day, the gap lemmas describe only the concrete cases `Recency.GapAcrossMidnight` and `Recency.ExecLostAtMidnight`; `Recency.AddExecLatest` and `Recency.AddOHLCVLatest` hold for every interval.
- Indicators.Update: a rejected Update is modelled as leaving the indicator exactly as it was, because `Err` carries no state. In the source, Update works through a pointer and may change the indicator before it returns the error (a `prev` returns its source's error after the source ran; leaf internals are not part of this model). So the promise of Engine.Series.UpdateIndicators, "each indicator is left as it was or updated once", holds of the model only.
- Engine.Series.Valid carries the coupling between the fields and `Contents`, plus the alignment facts the methods need. Engine.NewSeries ensures the full store invariant `ValidStore`. Engine.Series.AddExec and Engine.Series.AddOHLCV preserve it. The internal methods do not restate it.
