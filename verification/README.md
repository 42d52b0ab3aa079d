# taplytix: a verified model

taplytix is an in-memory telemetry pipeline with a terminal dashboard. Agents stream metrics, spans and log
lines over a lossy connection; the dashboard files them in a per-service store, assembles traces, evaluates
alert rules against the store on a timer, and draws what it has. This project models that logic in Dafny and
proves what the components promise, each by itself and where they meet.

`dafny verify dfyconfig.toml` checks everything.

## How the model is built

Code that changes state step by step is a class or a method here too: rings, series, the store, the trace
table, the alert engine, the dashboard's alert list, the bus, the depth-first walk, the parsers and printers.
Each method is proved equal to a function of values (`PushStore`, `AddV`, `Evaluate`, `Offered`, `Parse`, ...),
and the theorems are about those functions, over every history, run, arrival order or line of text. For each
operation some of them say in its own terms, without that function, what it computes: `AddFiles`, `FiredSays`,
`ComparedIs`, `SeenCounts`, `BarOfSpan`, `ParsesByWords` and others. Concurrent parts (creating a service under two
locks, pushes into the store and the reads that meet them, the event pipeline) are step relations: one step per locked
region or channel operation, and theorems over every interleaving.

| files | subject |
|---|---|
| `TraceModel`, `TraceMap`, `TraceFiling`, `TraceOrder`, `TraceEviction`, `TraceList` | assembling traces from spans in any order; evicting and listing them |
| `TreeDrawing`, `TraceWalk`, `TraceVisit`, `TraceRows`, `TraceGlyphs`, `TraceFinite` | the walk over a trace, the box-drawing rows it prints, and exactly when it ends and lists every span once |
| `AlertModel`, `AlertMessages`, `AlertTiming`, `AlertRuns`, `AlertValues` | alerts: one tick, whole runs whatever the ticks see, and what the messages say |
| `AlertStore`, `AlertLive`, `AlertGap`, `AlertEngine`, `AlertMirror` | what the engine sees in the store, runs over a store under concurrent writers, the engine, the dashboard's mirror |
| `Ring`, `Series`, `Percentile`, `MetricKey`, `StoreModel`, `StoreSteps`, `StoreStatus`, `StatusReads`, `Store`, `ServiceTable` | the store, a push at once and in its steps, and a status read meanwhile |
| `Wire`, `Pipeline`, `Bus`, `EndToEnd` | events from an agent's pump to a subscriber |
| `Logfmt`, `LogfmtRoundTrip`, `LogfmtFields`, `Waterfall`, `BarShape`, `Histogram` | text and cell arithmetic |
| `Common`, `SortedStrings` | shared vocabulary |

Conventions: times and durations are unbounded integers with 0 for the zero time, and the clock is an argument;
float values are exact reals without NaN; a Go map walked in an order that matters is a nondeterministic choice
or a ghost result.

## What came out

Some expectations hold only under a condition. Each of these is stated as an equivalence, or with a concrete
run on which it fails:

* Trace assembly is independent of arrival order if and only if no trace has two different roots
  (`OrderIndependentIff`): a later root replaces an earlier one. The panel's span count is the number of spans
  added if and only if there is at most one root (`SpanCountExact`).
* The walk over a trace ends if and only if no path from the root meets a span twice (`WalkEndsIff`). Then it lists
  exactly the spans at the ends of such paths, each once if and only if no span reached lists a child twice and
  spans reached that share an ID have no children (`ListsOnceIff`). One root and distinct IDs are enough
  (`WellFormedIsTidy`); a child that reuses its parent's ID makes the walk endless (`ReusedIdNeverEnds`).
* The comment in `buildBar` says a bar that is too long "should not happen". It does, by one cell, exactly when the
  span's scaled start lies strictly inside the last cell, whatever its length (`OverrunExactly`), and for every width
  there are such spans (`OverrunHappens`); the cut that follows keeps the width right.
* A longer span can be drawn with fewer cells: by one, exactly when both spans start inside a cell, the shorter is
  shorter than a cell and the longer exactly one cell long (`LongerTakesFewerIff`, `LongerTakesFewer`).
* The log panel's attribute line parses back to the same map if and only if no key holds `=` or a space, no
  value holds a space and no value begins with a quote (`RoundTripExactlyWhenClean`).
* The error rate can leave [0, 1], for two reasons. The two rings evict independently, so old events that arrive late
  can push recent ones out (`ErrorRateExceedsOne`). And a status copies the ring of errors after the ring of events,
  without a lock over both, so pushes in between add errors without their events: two error logs of one moment can
  show a rate of 2 (`OvertakenReaderExceedsOne`). Over every interleaving of writers and reader it stays in [0, 1] if
  and only if the service is unknown, or no event copied is recent, or the recent errors copied whose event was evicted
  before or recorded after the events were copied are no more than the recent events copied without an error copied
  (`SeenErrorRateIff`). For a reader that no push to the service overtakes this depends on the pushes alone
  (`UndisturbedStatus`, `ErrorRateInRangeIff`), and holds when times are recorded in order or before anything was
  evicted (`ErrorRateBounded`). Each single copy is exact in any case (`SeenEventsExact`).
* `PushMetric` installs a new series, pushes its first sample after unlocking, and sets the last value after that.
  An engine that looks in between sees an empty series. Over any interleaving, with the engine listing the series,
  asking for a length and reading a value at three moments, the ticks of a streak have all breached if and only if none
  of them asked for the length of a series in that gap (`UnbrokenIff`), and an alert can indeed
  fire across a tick that saw nothing (`SkippedTickStillFires`, built from two ordinary pushes). When it fires and
  resolves is exact in any case (`LiveAlerts`). Between first sample and first last value a rule on the raw last
  value compares zero, and at no other moment of a push does a rule compare anything but a sample
  (`ComparesSampleUnlessFirst`).
* Another series shares the key of a series if and only if the series has labels, or its name ends like a label
  (`KeySharedIff`): every labelled series shares its key with the bare series of that name. Names without `{`,
  label keys without `=` and label values without `}` are enough to keep keys apart (`KeyInjective`); an `=` or a
  `}` in those places makes labelled series collide (`EqualsInKeyCollides`, `BraceInValueCollides`).
* From the registration of the dashboard's connection on, and as long as nothing goes wrong on it, no event is lost:
  what is emitted, then what is in flight, is exactly what the pump had not fanned out before (`NothingLost`). An event
  fanned out while the connection is still being accepted is lost for good (`LostBeforeRegistration`, `GoneForGood`).
* P50 <= P95 <= P99 holds of one window (`PercentilesInOrder`). The three calls copy the window one after the other, and
  a windowful of smaller samples in between makes them cross (`PercentilesCanCross`).

## Model

| member | source | states |
|---|---|---|
| `TraceModel.AssembleClosedForm` | internal/store/tracemap.go:25-52 | after any arrivals each trace exists iff a span of it arrived, holds exactly those spans filed by parent in order, has the last root, and the incremental Duration is latest end minus root start, or the longest span without a root |
| `TraceModel.AddDescribes` | internal/store/tracemap.go:25-52 | one Add keeps that description true |
| `TraceFiling.AddFiles` | internal/store/tracemap.go:25-52 | a parent ID with a character other than '0' makes the span the newest child under it and leaves the root; one without makes it the root and leaves the children; nothing else changes |
| `TraceFiling.FiledByCharacters` | internal/store/tracemap.go:99-109 | after any arrivals the children under an ID are exactly the trace's spans with that parent ID, if it is not all zeros, and the root is the last span whose parent ID is all zeros or empty |
| `TraceFiling.DurationCovers` | internal/store/tracemap.go:45-51 | over any run, with a root: no span starts plus lasts beyond root start plus Duration, and one reaches it |
| `TraceFiling.EvictedByEnds` | internal/store/tracemap.go:79-91 | a trace stays, unchanged, iff its root's or a child's start plus duration is not before the cutoff |
| `TraceOrder.OrderIndependentIff` | internal/store/tracemap.go:25-52 | every permutation of the arrivals assembles the same traces (root, Duration, multiset of children) iff no trace has two different roots |
| `TraceEviction.HeldSinceEviction` | internal/store/tracemap.go:25-91 | over any run of arrivals and evictions a trace is held iff a span arrived for it since its last eviction, and is exactly what those spans describe |
| `TraceEviction.DurationsStayExact` | internal/store/tracemap.go:46-51 | after any such run Duration is latest end minus root start, or without a root the longest span since the last eviction, at least 0 |
| `TraceEviction.EvictsExactly` | internal/store/tracemap.go:79-91 | a trace outlives an eviction, unchanged, iff its root or another span it keeps ends at or after the cutoff (without a root the zero time counts) |
| `TraceOrder.TraceSpanCount` | internal/tui/panels/traces.go:305-317 | the counting loop sums the root and all child lists, in any map order |
| `TraceOrder.SpanCountExact` | internal/tui/panels/traces.go:305-317 | the panel's span count is the number of spans added for a trace iff at most one was a root |
| `TraceMaps.Trace.Update` | internal/store/tracemap.go:40-51 | the locked part of Add on one trace object: root or child list, then Duration |
| `TraceMaps.IsRootSpan` | internal/store/tracemap.go:99-109 | a parent ID that is empty or all zeros makes a root |
| `TraceMaps.TraceLatestEnd` | internal/store/tracemap.go:123-137 | the running maximum is the maximum end of all spans held, whatever the map order |
| `TraceMaps.TraceMap.Add` | internal/store/tracemap.go:25-52 | filing a span in place refines the assembly step; an empty trace ID changes nothing |
| `TraceMaps.TraceMap.Evict` | internal/store/tracemap.go:79-91 | what is left is exactly the fresh traces, unchanged, and the result is how many went |
| `TraceList.TraceStart` | internal/store/tracemap.go:111-121 | the start used for listing: the root's, else some child's, else the zero time |
| `TraceList.Recent` | internal/store/tracemap.go:62-76 | by starts that traceStart may report: newest first, each trace once, nothing left out is newer than anything listed; all of them for n <= 0 |
| `TraceList.Refresh` | internal/tui/panels/traces.go:164-208 | the merged, sorted, truncated list holds the 50 newest of the services shown, and the selection follows the selected trace |
| `TraceList.NewestMeans` | internal/tui/panels/traces.go:164-190 | such a list is in the order of starts, a root's trace by the root's, and while a trace is missing it is full and shows nothing older |
| `TraceList.NewestUnique` | internal/tui/panels/traces.go:164-190 | with distinct starts the list is a function of the store: map order does not show |
| `TraceList.RootedListing` | internal/store/tracemap.go:111-121 | when every trace shown has its root, any two readings of the starts give the same lists |
| `TreeDrawing.BuildTreePrefix` | internal/tui/panels/traces.go:270-289 | the loop draws stem cells for the ancestors and a tee or corner for the row |
| `TreeDrawing.PrefixInjective` | internal/tui/panels/traces.go:270-289 | equal prefixes come from equal has-next lists |
| `TreeDrawing.GlyphsMeanSiblings` | internal/tui/panels/traces.go:255-289 | a line at level k of a row stands there iff a later row is a sibling of the row's level-k ancestor before the enclosing subtree ends |
| `TreeDrawing.GlyphsExact` | internal/tui/panels/traces.go:270-289 | the three cells of each level: tee or corner at the row's own, pipe or blanks at its ancestors', by whether a sibling follows |
| `TraceGlyphs.LinesMeanSiblings` | internal/tui/panels/traces.go:255-289 | with one root and distinct IDs, a line at level k of a row stands there iff a later row has the same parent as the ancestor that the row's parent IDs lead to at that depth |
| `TraceGlyphs.DepthIsDistance` | internal/tui/panels/traces.go:255-268 | and the row is indented as many levels as its parent IDs are steps from the root |
| `TreeDrawing.DrawingRoundTrip` | internal/tui/panels/traces.go:255-289 | reading the rows back gives the tree: the drawing determines its shape |
| `TraceWalk.PathNoRepeat` | internal/tui/panels/traces.go:255-268 | no span repeats on a path from the root |
| `TraceWalk.WellFormedNeverRepeats` | internal/tui/panels/traces.go:255-268 | so with one root and distinct IDs no path from the root meets a span twice |
| `TraceWalk.PathFits` | internal/tui/panels/traces.go:255-268 | without such a repetition a path never outgrows the set of spans: the walk's measure |
| `TraceWalk.WalkTraceDFS` | internal/tui/panels/traces.go:255-268 | whenever the recursion can end at all, it ends, appends the rows of an ordered tree of the children and only reorders the child lists it sorts in place |
| `TraceWalk.SortKidsInPlace` | internal/tui/panels/traces.go:261-262 | children in start order; the map's own list of that parent becomes this one, other lists stay |
| `TraceWalk.RenderRows` | internal/tui/panels/traces.go:212-248 | the rows of the selected trace are the drawing of its tree from the root |
| `TraceVisit.WalkVisitsConnected` | internal/tui/panels/traces.go:255-268 | the root is first, every span connected to the root has exactly one row, and no other span has one |
| `TraceRows.RowsOrdered` | internal/tui/panels/traces.go:255-268 | every row's parent is above it, and siblings stand in start order across the whole list |
| `TraceRows.RowCount` | internal/tui/panels/traces.go:305-317 | at most as many rows as counted spans, equal iff no span is cut off from the root |
| `TraceRows.AssembledIsWellFormed` | internal/store/tracemap.go:25-52 | any arrivals with one root and distinct IDs assemble to what the walk needs |
| `TraceRows.WaterfallOfArrivals` | internal/tui/panels/traces.go:255-268 | from arrivals to rows: at most one row per arrived span, all of them iff all are connected |
| `TraceFinite.WalkEndsIff` | internal/tui/panels/traces.go:255-268 | a finite tree from the root exists iff no path from the root meets a span twice, for any spans and IDs |
| `TraceFinite.ListsReached` | internal/tui/panels/traces.go:255-268 | the walk lists exactly the spans at the ends of paths from the root |
| `TraceFinite.ListsOnceIff` | internal/tui/panels/traces.go:255-268 | it lists each of them once iff no span reached lists a child twice and spans reached that share an ID have no children |
| `TraceFinite.WellFormedIsTidy` | internal/tui/panels/traces.go:255-268 | one root and distinct IDs meet both conditions |
| `TraceFinite.AssembledIsFiled` | internal/store/tracemap.go:40-44 | every assembled trace files each child under its own parent ID |
| `TraceFinite.ReusedIdNeverEnds` | internal/store/tracemap.go:40-44 | the trace assembled from a root and a child that reuses its span ID has no finite tree |
| `AlertEngine.FindSeries` | internal/alert/engine.go:217-227 | the series under the bare metric name, else any of that name, else none |
| `AlertEngine.ComputeValue` | internal/alert/engine.go:205-213 | nothing for a series empty when its length is asked; else, as it is when the value is read, the last sample for percentile 0 or the percentile |
| `AlertEngine.Engine.Active` | internal/alert/engine.go:61-71 | the fired entries with their alerts |
| `AlertEngine.Engine.OnBreach` | internal/alert/engine.go:129-156 | creates or updates the entry in place and fires once the hold time has passed |
| `AlertEngine.Engine.OnClear` | internal/alert/engine.go:158-180 | deletes the entry and resolves it if it had fired |
| `AlertEngine.Engine.FanoutNotify` | internal/alert/engine.go:188-200 | calls the configured notifiers that exist, in order |
| `AlertEngine.CallsAre` | internal/alert/engine.go:188-200 | exactly the configured notifiers among the names, as often as named and in order, each with the alert |
| `AlertEngine.EveryMessageNotifies` | internal/alert/engine.go:152-179 | every message of a run, fired or resolved, calls each configured notifier its rule names with its own alert, and there are no other calls |
| `AlertEngine.Engine.EvaluateOnce` | internal/alert/engine.go:89-127 | one tick: every rule against every service, then every fired entry that saw no breach is cleared, once |
| `AlertEngine.Engine.RunTicks` | internal/alert/engine.go:73-87 | the ticker's loop over whatever the store answers leaves exactly the state of that run |
| `AlertEngine.TickerIsLive` | internal/alert/engine.go:73-127 | and over a store written to meanwhile that run is one of those `AlertLive` speaks of |
| `AlertTiming.TickActsPerKey` | internal/alert/engine.go:89-127 | with distinct keys a tick acts on each key by that key's observation alone, stale sweep included |
| `AlertMessages.RunDisciplined` | internal/alert/engine.go:129-180 | over any run each key's messages alternate Fired and Resolved, each Resolved carries the FiredAt, rule and service of the Fired it closes, and the entry is fired iff the last message is Fired |
| `AlertMessages.ReplayKeepsLastFired` | internal/tui/app.go:112-120 | folding the messages keeps exactly the keys whose last message is Fired, with that alert |
| `AlertMessages.MirrorIsActive` | internal/tui/app.go:112-120 | the list rebuilt from messages equals the engine's active set after any run |
| `AlertMirror.AppModel.Update` | internal/tui/app.go:112-120 | the two message cases, and the status bar counts the alerts |
| `AlertMirror.AppModel.Drain` | internal/tui/app.go:112-120 | after reading every message the dashboard's list is their replay |
| `AlertRuns.FiresExactlyWhenRipe` | internal/alert/engine.go:129-156 | for every run, skipped ticks included: fires at n iff n is the first tick at which some streak has lasted for the hold time |
| `AlertRuns.ResolvesExactlyWhenBroken` | internal/alert/engine.go:118-180 | for every run: resolves at n iff n ends a streak that had lasted for the hold time, by clearing or by a miss |
| `AlertRuns.FiresOnceAndPromptly` | internal/alert/engine.go:129-156 | when every tick from a streak's beginning on breaches, exactly one tick fires: the first at or after the hold time, less than one tick gap late |
| `AlertRuns.FiredIsJustified` | internal/alert/engine.go:129-156 | whatever the store does, a firing tick breaches, and an earlier breach lies at least the hold time back with no clearing observation since |
| `AlertValues.FiredSays` | internal/alert/engine.go:139-155 | for every run: the alert sent at a firing tick has that tick's rule, service, observed value and time, and no resolution |
| `AlertValues.ResolvedSays` | internal/alert/engine.go:165-179 | a Resolved is the key's last Fired alert with the tick's time, and the value the tick observed or zero |
| `AlertValues.BreachMeans` | internal/alert/rule.go:71-88 | a tick breaches iff it observed a value that stands to the threshold as the operator says; unknown operators never breach |
| `AlertValues.ValidatesExactly` | internal/alert/rule.go:52-68 | a rule validates iff it has name, metric, a percentile from 0 to 100 and an operator under which some value breaches |
| `AlertStore.ValidatedValueIsSample` | internal/alert/rule.go:52-68 | for a rule that validates, the compared value is a sample in the window iff a percentile is asked for or the last value is a sample |
| `AlertStore.ComparedIs` | internal/alert/engine.go:205-213 | the compared value is the last for percentile 0, the largest sample for 100, and else the sample with at least that share of the samples at or below it and less below |
| `AlertStore.ObservedIs` | internal/alert/engine.go:94-104 | an observation has the value of the series under the bare name, or without one of some series of that name, and none only if there is none or the one looked at was empty |
| `AlertStore.ComparesSampleUnlessFirst` | internal/store/timeseries.go:38-44 | after any complete pushes and at every moment of one more, for every service and series with samples, the compared value is a sample, except for the raw last value between that series' first sample and its first last value |
| `StoreSteps.StepsMakePush` | internal/store/store.go:56-92 | the steps of a push (service, series, sample, last value, last time, event, error), undisturbed, amount to the push taken at once |
| `StoreSteps.AllStepsMakePushes` | internal/store/store.go:56-92 | and so do those of any sequence of pushes |
| `StoreSteps.StepsGrow` | internal/store/store.go:56-80 | whatever steps are taken, by whatever writers, no service or series is removed or renamed |
| `StoreSteps.SeriesHistory` | internal/store/store.go:56-68 | under every interleaving a series exists iff it was installed, and is empty iff it has had no first sample |
| `StoreSteps.ReadMidPush` | internal/store/timeseries.go:38-44 | in the middle of a push the last value of every series is one of its samples, or the series has just had its first and still shows zero |
| `AlertStore.StillFound` | internal/alert/engine.go:95-98 | a rule that has found a series for a service finds one in every later store |
| `AlertStore.KeysDoNotCollide` | internal/alert/engine.go:105 | rule names without a colon keep `rule::service` keys apart |
| `AlertStore.TickKeys` | internal/alert/engine.go:94-114 | a tick observes each key at most once, by its own rule, exactly when it knows the service |
| `AlertLive.ValueUnlessGap` | internal/alert/engine.go:205-213 | an observation that found a series has a value iff its length was not asked between the series' installation and its first sample |
| `AlertLive.ObservedUnlessGap` | internal/alert/engine.go:94-114 | once a key was observed, a later tick observes it iff it does not ask a length in such a gap, also while pushes are under way and between list, length and value |
| `AlertLive.UnbrokenIff` | internal/alert/engine.go:94-156 | all ticks of a streak breached iff none of them looked into a gap |
| `AlertLive.LiveAlerts` | internal/alert/engine.go:89-180 | over any interleaving with the writers: when each rule fires and resolves, and that the firing streak was unbroken iff no look fell into a gap |
| `AlertLive.LiveFiredSays` | internal/alert/engine.go:89-156 | and it fires with its rule, service, the tick's time and the value that tick read for them |
| `AlertGap.PushesAreOrderly` | internal/store/store.go:56-80 | every sequence of pushes is an orderly history of steps |
| `AlertGap.SkippedTickStillFires` | internal/store/store.go:56-68 | two pushes and three ticks among their steps: the middle tick looks into a gap, and the last one fires |
| `Rings.WindowPush` | internal/store/ring.go:22-30 | writing at head and advancing appends to the window and drops the oldest when full |
| `Rings.Ring.Push` | internal/store/ring.go:22-30 | the buffer holds the last cap values after the push |
| `Rings.Ring.Slice` | internal/store/ring.go:33-45 | the contents, oldest first |
| `Rings.PushedIsWindow` | internal/store/ring.go:22-45 | after any pushes the contents are the last cap values pushed |
| `SeriesModel.Series.Push` | internal/store/timeseries.go:38-44 | value into the window, last value and time updated |
| `SeriesModel.Series.P50` | internal/store/timeseries.go:62 | the 50th percentile of the window as it is at the call |
| `SeriesModel.Series.P95` | internal/store/timeseries.go:63 | the 95th |
| `SeriesModel.Series.P99` | internal/store/timeseries.go:64 | the 99th |
| `SeriesModel.PercentilesInOrder` | internal/store/timeseries.go:62-64 | of one window they never cross |
| `SeriesModel.PercentilesCanCross` | internal/store/timeseries.go:62-64 | whatever the window, enough smaller samples between two calls leave the later P95 below the earlier P50 |
| `SeriesModel.Series.Sparkline` | internal/store/timeseries.go:67-73 | the newest n samples, or all |
| `SeriesModel.SeriesIsWindow` | internal/store/timeseries.go:38-73 | after any history: the newest 300 values, Last the newest |
| `Percentiles.Percentile` | internal/store/percentile.go:11-32 | the copied, sorted, clamped selection |
| `Percentiles.NearestRank` | internal/store/percentile.go:8-32 | the result is a sample with at least k samples at or below and fewer than k below, k = ceil(p n / 100) |
| `Percentiles.NearestRankUnique` | internal/store/percentile.go:8-32 | only one value satisfies that |
| `Percentiles.NearestShare` | internal/store/percentile.go:8-32 | without a rank: at least p hundredths of the samples are at or below the result, fewer below |
| `Percentiles.PercentileEnds` | internal/store/percentile.go:11-23 | zero without samples, the smallest up to 0, the largest from 100 on |
| `Percentiles.RankInRange` | internal/store/percentile.go:24-30 | both clamps are unreachable for 0 < p < 100 |
| `Percentiles.PercentilePermutation` | internal/store/percentile.go:11-32 | the order of the samples does not matter |
| `Percentiles.PercentileMonotone` | internal/store/percentile.go:11-32 | a higher percentile is never smaller, clamped ones included |
| `MetricKeys.MetricKey` | internal/store/store.go:212-226 | the key is a function of name and label map alone, not of map order |
| `MetricKeys.KeyInjective` | internal/store/store.go:212-226 | clean names and labels: equal keys only for equal series |
| `MetricKeys.KeySharedIff` | internal/store/store.go:212-226 | another series shares the key iff the series has labels or its name ends like a label |
| `MetricKeys.EqualsInKeyCollides` | internal/store/store.go:223 | every label key with an equals sign collides with a shorter key |
| `MetricKeys.BraceInValueCollides` | internal/store/store.go:223 | a brace in a label value can end the label early and start the next one |
| `StoreModel.ServicesAreSeparate` | internal/store/store.go:56-80 | each service's state is what its own events alone make it |
| `StoreModel.MetricIsKept` | internal/store/store.go:56-68 | one metric: the named service or "unknown", its own series' newest sample and last value, its own time or the clock's recorded, no error, all else untouched |
| `StoreModel.SpanIsKept` | internal/store/store.go:70-74 | one span: filed among the traces, recorded at start plus duration, an error iff that is its status |
| `StoreModel.LogIsKept` | internal/store/store.go:76-80 | one log line: the newest of at most 1000, an error iff its level is ERROR |
| `StoreModel.StoredSeries` | internal/store/store.go:56-68 | each (service, name, labels) has a series iff samples arrived, holding exactly their newest 300, Last the newest |
| `StoreModel.SeriesRefineHistory` | internal/store/store.go:56-68 | the same within a service: no cross-talk between series |
| `StoreModel.ActivityIsWindow` | internal/store/store.go:82-92 | the two rings are the newest 4096 times and the newest 4096 error times |
| `StoreModel.LogsAndTraces` | internal/store/store.go:70-80 | logs are the newest 1000, traces the assembly of all spans |
| `StoreModel.LastSeenIsMax` | internal/store/store.go:82-87 | LastSeen is the latest time ever recorded |
| `StoreStatus.EventsPerSecondExact` | internal/store/store.go:176-198 | times in order: min(4096, events after the cutoff) / 5 |
| `StoreStatus.StatusCounts` | internal/store/store.go:176-199 | five times the events per second are the recent events held, the error rate times those the recent errors held; no recent events, no rate |
| `StoreStatus.StatusCountsAll` | internal/store/store.go:176-199 | in order or before any eviction these are all recent ones recorded, up to 4096 each |
| `StoreStatus.ConnectedExactly` | internal/store/store.go:189-200 | connected iff some recorded time after the zero time is at most ten seconds old; the last time shown is the newest |
| `StoreStatus.ErrorRateInRangeIff` | internal/store/store.go:176-199 | for a reader no push overtakes, the rate is in [0, 1] iff no event is recent or the stray recent errors are no more than the recent events that are no errors |
| `StoreStatus.ErrorRateBounded` | internal/store/store.go:176-199 | for such a reader it is when times are in order or at most 4096 events were recorded |
| `StoreStatus.ErrorRateExceedsOne` | internal/store/store.go:192-195 | a history out of order whose rate is 2 |
| `StatusReads.CopiedRing` | internal/store/store.go:82-92 | after any steps of any writers a ring holds the times of its newest 4096 ring steps |
| `StatusReads.SeenCounts` | internal/store/store.go:171-202 | the same figures for a status read while others push, from the recent events and errors copied; zero for an unknown service |
| `StatusReads.SeenConnected` | internal/store/store.go:189-200 | connected iff by the last read a time after the zero time had been noted that is at most ten seconds old |
| `StatusReads.SeenErrorRateIff` | internal/store/store.go:171-202 | events and errors copied at two moments of any interleaving: the rate is in [0, 1] iff the service is unknown, or no event copied is recent, or stray and late errors are no more than unmatched events |
| `StatusReads.OnlyLatecomers` | internal/store/store.go:171-202 | before any eviction only errors recorded between the two copies count against it |
| `StatusReads.UndisturbedStatus` | internal/store/store.go:171-202 | while only other services are pushed to, the status is that of the complete pushes, and its rate is in [0, 1] iff their stray errors are covered |
| `StatusReads.SeenEventsExact` | internal/store/store.go:176-198 | times in order: min(4096, events recorded when the ring is copied) / 5, whatever is under way |
| `StatusReads.CountedMeansConnected` | internal/store/store.go:82-92 | under every interleaving a status that counts an event shows a last time later than the cutoff, and connected |
| `StatusReads.PushesArePaired` | internal/store/store.go:82-92 | every error the only writer records follows its own event |
| `StatusReads.OvertakenReaderExceedsOne` | internal/store/store.go:179-195 | two error logs of one moment, the reader overtaken between the rings: a rate of 2 with times in order and nothing evicted |
| `Stores.Store.PushMetric` | internal/store/store.go:56-68 | in place: service, series, sample and activity; everything else untouched |
| `Stores.Store.PushSpan` | internal/store/store.go:70-74 | the same for a span |
| `Stores.Store.PushLog` | internal/store/store.go:76-80 | the same for a log line |
| `Stores.Store.ServiceFor` | internal/store/store.go:142-166 | returns the installed state, creating an empty one at most once |
| `Stores.Store.Services` | internal/store/store.go:131-140 | all names, in order |
| `SortedStrings.SortedKeysAscend` | internal/store/store.go:138 | that order is ascending |
| `SortedStrings.LexByFirstDifference` | internal/store/store.go:138 | and the first differing character decides it |
| `Stores.Store.GetStatus` | internal/store/store.go:171-202 | the counting loops compute the status of the current contents |
| `ServiceTable.OneStatePerName` | internal/store/store.go:142-166 | under every interleaving at most one state per name, the same for all its callers, different for different names |
| `ServiceTable.InstalledForGood` | internal/store/store.go:142-166 | an installed state is never replaced |
| `ServiceTable.BothMayMiss` | internal/store/store.go:146-151 | two callers can both fail the first look-up, so the second one is needed |
| `Wire.EncodeDecode` | internal/model/wire.go:29-60 | what encodes decodes to the same event |
| `Wire.UnwrapExact` | internal/model/wire.go:63-83 | unwrapping succeeds iff the payload its kind names is present, and wraps back to it |
| `Pipeline.StepKeeps` | internal/agent/broadcaster.go:37-119 | every step of pump, fan-out, writers and dashboard keeps the invariant on positions in flight |
| `Pipeline.EmitsInOrderSubsequence` | internal/receiver/remote.go:69-126 | over every run with losses, re-dials and stale clients, what is emitted is an in-order subsequence of what entered the pump, no duplicates, each event as it was |
| `Pipeline.NothingLost` | internal/agent/broadcaster.go:37-119 | over every run from the registration of the dashboard's connection on, handshake finished or not, as long as it neither fails nor drops: events emitted, then those in flight, are exactly the encodable ones not fanned out before |
| `Pipeline.GoneForGood` | internal/agent/broadcaster.go:55-70 | an event that was not emitted and that pump, clients and connections no longer carry is never emitted, in any continuation |
| `Pipeline.LostBeforeRegistration` | internal/agent/broadcaster.go:82-85 | so it is with an event fanned out between the dashboard's dial and the registration of its connection |
| `Pipeline.SmoothRunDeliversAll` | internal/agent/broadcaster.go:37-70 | such runs exist: for every list of events one that delivers all of them |
| `Buses.Chan.TrySend` | internal/bus/bus.go:32-35 | buffers the event iff there is room; the channel must be open |
| `Buses.Bus.Publish` | internal/bus/bus.go:28-37 | offers the event to every subscriber once; no channel on the list is closed |
| `Buses.Bus.Subscribe` | internal/bus/bus.go:41-47 | appends one open, empty channel |
| `Buses.Bus.Close` | internal/bus/bus.go:70-77 | closes each channel once and forgets them |
| `Buses.BusConserves` | internal/bus/bus.go:28-47 | over any run, received then buffered equals published since subscribing minus exactly what met a full buffer, and the buffer stays within its capacity |
| `Buses.BusAccounts` | internal/bus/bus.go:28-47 | published = received + buffered + dropped, in order |
| `Buses.PublishReaches` | internal/bus/bus.go:28-37 | in any run a publication reaches a subscriber iff its buffer has room, behind all that waits there |
| `Buses.ReceiveTakesOldest` | internal/bus/bus.go:41-47 | a receive takes the longest waiting event from that subscriber alone; a new subscriber has nothing |
| `Buses.SeesAllIff` | internal/bus/bus.go:28-37 | a subscriber sees or still has all that was published since it subscribed iff none of it met a full buffer |
| `EndToEnd.SeenInOrder` | cmd/taplytix/main.go:290-305 | over every interleaving of agent, connection, all receivers, their queue, publishing loop and subscribers: a subscriber sees an in-order subsequence of what entered the queue, and of the agent's events an in-order subsequence of what entered its pump |
| `EndToEnd.WayKeeps` | cmd/taplytix/main.go:290-305 | the queue never exceeds its 4096 places, what was published is what was taken from it, and the agent's part of it is what the connection emitted |
| `Logfmt.ParseLogfmtPairs` | internal/receiver/logtail.go:387-440 | the index-driven loop ends on every line and computes the grammar's parse |
| `LogfmtRoundTrip.FormatAttrs` | internal/tui/panels/logs.go:256-275 | prints the pairs in key order separated by single spaces |
| `LogfmtRoundTrip.RoundTripExactlyWhenClean` | internal/receiver/logtail.go:387-440 | parsing the printed map gives the map iff it is clean |
| `LogfmtRoundTrip.QuotedRoundTrip` | internal/receiver/logtail.go:409-427 | any values survive in quotes with backslash escapes, with any blanks between pairs |
| `LogfmtRoundTrip.LastValueWins` | internal/receiver/logtail.go:437 | the map holds the last value given for each key |
| `LogfmtFields.ParsesByWords` | internal/receiver/logtail.go:387-440 | a line without quotes parses iff each of its words has an equals sign, and to the words cut at the first one |
| `LogfmtFields.UnclosedQuote` | internal/receiver/logtail.go:409-427 | a quote the line does not close takes its rest, a final backslash standing for itself |
| `Waterfall.BuildBar` | internal/render/waterfall.go:40-94 | exactly width cells for every offset, duration, total and width |
| `BarShape.BarOfSpan` | internal/render/waterfall.go:45-84 | cell by cell: blank before the start, then the length in eighths, or for a start inside a cell a first cell that marks it and then the rest |
| `BarShape.BarExtends` | internal/render/waterfall.go:45-94 | the first cell drawn is the one the span starts in, cells follow without a gap, and their number is exact |
| `BarShape.LongerTakesFewerIff` | internal/render/waterfall.go:64-84 | of two spans with one start the longer takes fewer cells iff the start lies inside a cell, the shorter is under a cell and the longer exactly one |
| `BarShape.LongerTakesFewer` | internal/render/waterfall.go:71-84 | two such spans |
| `BarShape.InkIsLength` | internal/render/waterfall.go:64-84 | from a start at a cell's edge the bar shows exactly as many eighths as the span is long |
| `Waterfall.OverrunExactly` | internal/render/waterfall.go:40-94 | before the cut the bar of a span is at most one cell too long, and iff its scaled start lies strictly inside the last cell |
| `Waterfall.OverrunHappens` | internal/render/waterfall.go:86-91 | the branch the code calls impossible, at every width: for a span that starts an eighth of a cell before the end of the trace |
| `Waterfall.SpanShowsExactly` | internal/render/waterfall.go:45-60 | a row shows something iff the span starts before the trace ends |
| `Histograms.MakeBuckets` | internal/render/histogram.go:58-90 | counts add up to the values; with max > min there are n buckets labelled by lower bound, each counting exactly the values its interval covers |
| `Histograms.CountedWhereCovered` | internal/render/histogram.go:82-87 | a value is counted in the one bucket whose half-open interval contains it, the last one closed |
| `Histograms.CountedIs` | internal/render/histogram.go:77-88 | bucket i is labelled min + width i and counts the values from there up to the next bound, the last one without end |
| `Histograms.BarWidths` | internal/render/histogram.go:35-40 | bars fit, the largest fills the width, more is never shorter, nonzero shows |
| `Histograms.BarProportional` | internal/render/histogram.go:35-40 | a bar is its count's share of the width rounded down, or one cell when that would be none |
| `Histograms.Histogram` | internal/render/histogram.go:18-53 | the text: one row per bucket with padded label, bar, blanks and count |
| `Histograms.HistogramColumns` | internal/render/histogram.go:27-53 | the text has one line per bucket; in all of them bars start in one column and counts in another, fixed by the longest label; each line shows its label, as many bar cells as its bar is wide, and a count that reads back |
| `Histograms.DecimalStarts` | internal/render/histogram.go:45-48 | counts are printed in digits, without zeros in front |

## Left out

- Network, files and processes: gRPC, HTTP, UDP, WebSocket framing, file tailing, `/proc`. A connection is a queue that may close.
- OTLP, Prometheus and StatsD conversion, command line, configuration, theme and key bindings.
- Wire.EncodeDecode: JSON is a codec that reads back what it wrote, or refuses; JSON's treatment of NaN and of invalid UTF-8 is not modelled.
- Percentiles.NearestRank: exact arithmetic; in floats `p/100*n` can round up past the exact rank.
- Histograms.MakeBuckets: exact arithmetic, no NaN; the default label format is an argument.
- Waterfall.BuildBar: exact arithmetic; every block rune is one cell; colours are not modelled.
- Histograms.Histogram: one cell per character; colours are not modelled.
- StoreModel.LastSeenIsMax: times are unbounded integers from the zero time on; Go's saturation far from it is not modelled.
- TraceList.Refresh: a trace's start is read once per refresh; the code's comparator asks again each time, and for a trace without a root the answer can change between calls.
- TraceList.Recent: traces are values here, so later updates of a listed trace, which the code shares by reference, are not captured.
- TraceWalk.WalkTraceDFS: the sort in place runs without the table's lock in the code, and that race is not modelled; traces on which the recursion does not end are excluded, exactly.
- AlertEngine.Engine.RunTicks: the ticker's timing and the engine's shutdown; a run is any finite number of ticks at any times.
- AlertEngine.Engine.OnBreach: notifier bodies and their goroutines; the calls are recorded. Messages are recorded as dispatched, a dashboard being connected.
- Stores.Store.PushMetric: one call at a time; the steps other threads can see are `StoreSteps`, concurrent creation of services `ServiceTable`.
- Pipeline.EmitsInOrderSubsequence: the dashboard has one connection loop; timeouts and the backoff between dials are unconstrained steps, and shutdown is a run that stops.
- Histograms.HistogramColumns: labels are single lines, as the default format makes them.
- Stores.Store.GetStatus: one call at a time; a status read while pushes are under way is `StatusReads`.
- Log-level detection, timestamp formats and regular expressions of the log tailer.
