// A run in which the engine looks at the store in the middle of a push, and an alert fires across the tick that
// saw nothing: internal/alert/engine.go, evaluateOnce, over internal/store/store.go, PushMetric.
module AlertGap {
  import opened Common
  import opened SortedStrings
  import opened MetricKeys
  import opened SeriesModel
  import opened StoreModel
  import opened StoreSteps
  import opened AlertModel
  import opened AlertTiming
  import opened AlertRuns
  import opened AlertStore
  import opened AlertLive

  // ---- one push after the other is an orderly history ---------------------------------------------------

  /** Each step of a push comes after the ones before it, whatever else has happened. */
  lemma PushIsProper(before: seq<StoreStep>, p: Push, j: nat)
    requires j < |StepsOf(p)|
    ensures Proper(before + StepsOf(p)[..j], StepsOf(p)[j])
  {
    var steps, all := StepsOf(p), before + StepsOf(p)[..j];
    if j > 0 { assert all[|before|] == steps[0] && all[|before| + j - 1] == steps[j - 1]; }
    if j > 1 { assert all[|before| + 1] == steps[1]; }
  }

  lemma {:induction false} PushesAreOrderly(ps: seq<Push>)
    ensures Orderly(AllSteps(ps))
  {
    if ps != [] {
      var init, p := ps[..|ps| - 1], ps[|ps| - 1];
      PushesAreOrderly(init);
      var before, all := AllSteps(init), AllSteps(ps);
      forall i | 0 <= i < |all| ensures Proper(all[..i], all[i]) {
        if i < |before| {
          assert all[..i] == before[..i] && all[i] == before[i];
        } else {
          PushIsProper(before, p, i - |before|);
          assert all[..i] == before + StepsOf(p)[..i - |before|];
        }
      }
    }
  }

  // ---- three ticks, the middle one without a value ---------------------------------------------------------

  lemma {:induction false} OneObs(st: State, o: Obs, now: int)
    ensures Evaluate(st, Tick([o], [], now)) == Observe(st, o, now)
    ensures ObserveAll(st, [o], now) == Observe(st, o, now) && ObsFor([o], ObsKey(o)) == Some(o)
  {
    assert [o][..0] == [];
    assert ObserveAll(st, [o], now) == Observe(st, o, now);
    assert ClearAll(Observe(st, o, now), [], now) == Observe(st, o, now);
  }

  function SkippedRun(rule: Rule, service: string, value: real): (r: seq<Tick>)
    ensures |r| == 3
  {
    var breach := Obs(rule, service, Some(value));
    [Tick([breach], [], 0), Tick([Obs(rule, service, None)], [], 1), Tick([breach], [], rule.hold)]
  }

  lemma SkippedRunStates(rule: Rule, service: string, value: real)
    requires Compare(value, rule.threshold, rule.op) && 0 < rule.hold
    ensures var ticks, key := SkippedRun(rule, service, value), RuleKey(rule.name, service);
            var p := PendingV(rule, service, 0, false, value, None);
            && Run(ticks[..0]) == INIT
            && Run(ticks[..1]) == State(map[key := p], [])
            && Run(ticks[..2]) == Run(ticks[..1])
            && Run(ticks[..3]).sent == [Fired(Alert(rule, service, value, rule.hold, None))]
            && ValidRun(ticks)
  {
    var ticks, key := SkippedRun(rule, service, value), RuleKey(rule.name, service);
    var breach, none := Obs(rule, service, Some(value)), Obs(rule, service, None);
    assert ticks[..0] == [] && ticks[..1][..0] == [] && ticks[..2][..1] == ticks[..1] && ticks[..3][..2] == ticks[..2];
    OneObs(INIT, breach, 0);
    OneObs(Run(ticks[..1]), none, 1);
    OneObs(Run(ticks[..2]), breach, rule.hold);
    assert Breaches(breach);
    assert key in Seen([breach]) by { assert ObsKey([breach][0]) == key; }
    assert forall n :: 0 <= n < 3 ==> ticks[n].stale == [];
  }

  lemma SkippedRunObserves(rule: Rule, service: string, value: real, n: nat)
    requires n < 3
    ensures var obs := SkippedRun(rule, service, value)[n].obs;
            |obs| == 1 && ObsFor(obs, RuleKey(rule.name, service)) == Some(obs[0])
  {
    OneObs(INIT, SkippedRun(rule, service, value)[n].obs[0], 0);
  }

  lemma SkippedRunFires(rule: Rule, service: string, value: real)
    requires Compare(value, rule.threshold, rule.op) && 0 < rule.hold
    ensures FiresAt(SkippedRun(rule, service, value), RuleKey(rule.name, service), 2)
  {
    hide Evaluate, SkippedRun;
    var ticks, key := SkippedRun(rule, service, value), RuleKey(rule.name, service);
    SkippedRunStates(rule, service, value);
    var a := Alert(rule, service, value, rule.hold, None);
    FilterAppend([], Fired(a), ForKey(key));
    assert [] + [Fired(a)] == [Fired(a)];
    assert Sent(ticks, key, 3) == Sent(ticks, key, 2) + [Fired(a)];
  }

  // ---- the store these ticks read --------------------------------------------------------------------------

  /** A sample of a labelled series, then one of the series stored under the bare metric name. */
  function Labelled(metric: string, service: string, value: real): Push {
    PushedMetric(MetricEvent(metric, value, map["k" := "v"], Gauge, 1, service), 1)
  }

  function Bare(metric: string, service: string, value: real): Push {
    PushedMetric(MetricEvent(metric, value, map[], Gauge, 2, service), 2)
  }

  function LabelledKey(metric: string): string { metric + Cell("k", "v") }

  ghost function GapSteps(metric: string, service: string, value: real): (r: seq<StoreStep>)
    ensures |r| == 12
  {
    StepsOf(Labelled(metric, service, value)) + StepsOf(Bare(metric, service, value))
  }

  lemma GapStepsAreOrderly(metric: string, service: string, value: real)
    ensures Orderly(GapSteps(metric, service, value))
  {
    var a, b := Labelled(metric, service, value), Bare(metric, service, value);
    PushesAreOrderly([a, b]);
    TwoPushes(a, b);
  }

  function FirstSeries(metric: string, service: string, value: real): SeriesV {
    var e := Labelled(metric, service, value).metric;
    PushV(NewSeriesV(e, DEFAULT_SERIES_CAPACITY), e)
  }

  /** The labelled series alone; then the bare one beside it, empty; then with its sample. */
  ghost function GapMetrics(metric: string, service: string, value: real, stage: nat): map<string, SeriesV> {
    var first := map[LabelledKey(metric) := FirstSeries(metric, service, value)];
    var e := Bare(metric, service, value).metric;
    var empty := NewSeriesV(e, DEFAULT_SERIES_CAPACITY);
    if stage == 0 then first else if stage == 1 then first[metric := empty] else first[metric := PushV(empty, e)]
  }

  function StageEnd(stage: nat): nat { if stage == 0 then 6 else if stage == 1 then 8 else 12 }

  lemma GapKeys(metric: string)
    ensures KeyOf(metric, map["k" := "v"]) == LabelledKey(metric)
    ensures KeyOf(metric, map[]) == metric && LabelledKey(metric) != metric
  {
    KeyOfOne(metric, "k", "v");
    KeyOfNone(metric);
    assert |LabelledKey(metric)| > |metric|;
  }

  lemma FirstStage(metric: string, service: string, value: real)
    requires service != ""
    ensures var v := FoldSteps(map[], StepsOf(Labelled(metric, service, value)));
            v.Keys == {service} && v[service].metrics == GapMetrics(metric, service, value, 0)
  {
    var p := Labelled(metric, service, value);
    GapKeys(metric);
    FoldWithin(map[], service, StepsOf(p));
    MidPush(NEW_SERVICE, p, 6);
    assert StepsOf(p)[..6] == StepsOf(p);
  }

  lemma GapStages(metric: string, service: string, value: real, stage: nat)
    requires service != "" && stage < 3
    ensures var v := AfterSteps(GapSteps(metric, service, value)[..StageEnd(stage)]);
            v.Keys == {service} && v[service].metrics == GapMetrics(metric, service, value, stage)
  {
    var a, b := Labelled(metric, service, value), Bare(metric, service, value);
    var steps, v := GapSteps(metric, service, value), FoldSteps(map[], StepsOf(a));
    FirstStage(metric, service, value);
    if stage == 0 {
      assert steps[..6] == StepsOf(a);
    } else {
      var j := if stage == 1 then 2 else 6;
      assert steps[..StageEnd(stage)] == StepsOf(a) + StepsOf(b)[..j];
      FoldConcat(map[], StepsOf(a), StepsOf(b)[..j]);
      StepsStayIn(b, j);
      FoldWithin(v, service, StepsOf(b)[..j]);
      GapKeys(metric);
      MidPush(v[service], b, j);
      hide FoldSteps, FoldService, StepsOf, KeyOf;
      SecondStage(metric, service, value, stage);
    }
  }

  lemma SecondStage(metric: string, service: string, value: real, stage: nat)
    requires 0 < stage < 3
    ensures var e := Bare(metric, service, value).metric;
            MidMetrics(GapMetrics(metric, service, value, 0), e, metric, if stage == 1 then 2 else 6)
            == GapMetrics(metric, service, value, stage)
  {
    GapKeys(metric);
  }

  // ---- what the engine sees in it ----------------------------------------------------------------------------

  function StageMoment(stage: nat): Moment { Moment(StageEnd(stage), StageEnd(stage), StageEnd(stage)) }

  ghost function GapReading(metric: string, stage: nat): Reading {
    Reading(StageEnd(stage), [StageMoment(stage)], [Some(if stage == 0 then LabelledKey(metric) else metric)])
  }

  lemma OnePair(rule: Rule, service: string)
    ensures Pairs([rule], SortedKeys({service})) == [(rule, service)]
  {
    AscendingIsSortedKeys([service], {service});
    assert [rule][..0] == [];
    var none: seq<(Rule, string)> := [];
    assert Pairs([], [service]) == none && Row(rule, [service]) == [(rule, service)];
    assert none + [(rule, service)] == [(rule, service)];
  }

  lemma GapSees(rule: Rule, service: string, value: real, stage: nat)
    requires service != "" && stage < 3 && rule.percentile == 0
    ensures var steps, o := GapSteps(rule.metric, service, value), SkippedRun(rule, service, value)[stage].obs[0];
            Sees(LookAt(steps, StageMoment(stage)), o, GapReading(rule.metric, stage).found[0])
  {
    GapStages(rule.metric, service, value, stage);
    GapKeys(rule.metric);
  }

  lemma OneObservation(w: Look, rule: Rule, service: string, o: Obs, k: Option<string>)
    requires Sees(w, o, k) && o.rule == rule && o.service == service
    ensures TickObserves({service}, [w], [rule], [o])
  {
    hide Sees;
    OnePair(rule, service);
    assert Observes(w, o);
    assert Matches([w], [(rule, service)], [o]);
  }

  lemma GapTick(rule: Rule, service: string, value: real, stage: nat)
    requires service != "" && stage < 3 && rule.percentile == 0
    ensures TickReads(GapSteps(rule.metric, service, value), [rule], SkippedRun(rule, service, value)[stage].obs,
                      GapReading(rule.metric, stage))
  {
    var steps, r := GapSteps(rule.metric, service, value), GapReading(rule.metric, stage);
    var w, o := LookAt(steps, StageMoment(stage)), SkippedRun(rule, service, value)[stage].obs[0];
    GapStages(rule.metric, service, value, stage);
    GapSees(rule, service, value, stage);
    SkippedObs(rule, service, value, stage);
    hide Sees, GapSteps, GapMetrics, SkippedRun, TickObserves;
    OneObservation(w, rule, service, o, r.found[0]);
    assert LooksAt(steps, r.at) == [w];
  }

  lemma SkippedObs(rule: Rule, service: string, value: real, stage: nat)
    requires stage < 3
    ensures var obs := SkippedRun(rule, service, value)[stage].obs;
            |obs| == 1 && obs == [obs[0]] && obs[0].rule == rule && obs[0].service == service
  {
  }

  ghost function GapReadings(metric: string): seq<Reading> {
    [GapReading(metric, 0), GapReading(metric, 1), GapReading(metric, 2)]
  }

  lemma GapRunIsLive(rule: Rule, service: string, value: real)
    requires Compare(value, rule.threshold, rule.op) && 0 < rule.hold && rule.percentile == 0
    requires ':' !in rule.name && service != ""
    ensures Live(SkippedRun(rule, service, value), [rule], GapSteps(rule.metric, service, value),
                 GapReadings(rule.metric))
  {
    GapStepsAreOrderly(rule.metric, service, value);
    SkippedRunStates(rule, service, value);
    GapInOrder(rule.metric);
    OneRule(rule);
    hide TickReads, Orderly, ValidRun, InOrder, DistinctRules, GapSteps, SkippedRun, GapReading;
    forall n | 0 <= n < 3
      ensures TickReads(GapSteps(rule.metric, service, value), [rule], SkippedRun(rule, service, value)[n].obs,
                        GapReadings(rule.metric)[n])
    {
      GapTick(rule, service, value, n);
    }
  }

  lemma GapInOrder(metric: string)
    ensures InOrder(GapReadings(metric))
  {
  }

  lemma OneRule(rule: Rule)
    requires ':' !in rule.name
    ensures DistinctRules([rule])
  {
  }

  lemma GapLook(rule: Rule, service: string, value: real)
    requires service != "" && rule.percentile == 0
    ensures LooksIntoGap(GapSteps(rule.metric, service, value), SkippedRun(rule, service, value)[1].obs,
                         GapReading(rule.metric, 1), RuleKey(rule.name, service))
  {
    var steps, o := GapSteps(rule.metric, service, value), SkippedRun(rule, service, value)[1].obs[0];
    GapSees(rule, service, value, 1);
    GapStepsAreOrderly(rule.metric, service, value);
    ValueUnlessGap(steps, o, StageMoment(1), Some(rule.metric));
    assert IsGapLook(steps, o, StageEnd(1), Some(rule.metric), RuleKey(rule.name, service));
  }

  /** Two ordinary pushes and three ticks: the second tick comes between the installation of a series and its
      first sample, sees nothing, and the third fires although not every tick since the first breach breached. */
  lemma SkippedTickStillFires(rule: Rule, service: string, value: real)
    requires Compare(value, rule.threshold, rule.op) && 0 < rule.hold && rule.percentile == 0
    requires ':' !in rule.name && service != ""
    ensures var ticks, key := SkippedRun(rule, service, value), RuleKey(rule.name, service);
            && Live(ticks, [rule], AllSteps([Labelled(rule.metric, service, value), Bare(rule.metric, service, value)]),
                    GapReadings(rule.metric))
            && BreachAt(ticks, key, 0) && !BreachAt(ticks, key, 1) && FiresAt(ticks, key, 2)
            && LooksIntoGap(GapSteps(rule.metric, service, value), ticks[1].obs, GapReading(rule.metric, 1), key)
  {
    var a, b := Labelled(rule.metric, service, value), Bare(rule.metric, service, value);
    GapRunIsLive(rule, service, value);
    SkippedRunFires(rule, service, value);
    GapLook(rule, service, value);
    SkippedRunObserves(rule, service, value, 0);
    SkippedRunObserves(rule, service, value, 1);
    TwoPushes(a, b);
  }
}
