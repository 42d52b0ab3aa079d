// A push into the store in the steps another thread can see: internal/store/store.go, PushMetric, PushSpan,
// PushLog, and internal/store/timeseries.go, Push.
module StoreSteps {
  import opened Common
  import opened MetricKeys
  import opened SeriesModel
  import opened StoreModel
  import opened TraceModel

  datatype StoreStep =
    | Enter(service: string)                                         // the service's state is found or created
    | Install(service: string, key: string, e: MetricEvent)          // the series is found or created, empty
    | Fill(service: string, key: string, value: real)                // the sample enters the ring
    | Stamp(service: string, key: string, value: real, time: int)    // the last value and its time are set
    | FileSpan(service: string, span: Span)
    | KeepLog(service: string, log: LogEvent)
    | NoteTime(service: string, time: int)                           // the time of the newest event is raised
    | RingEvent(service: string, time: int)                          // the time enters the ring of events
    | RingError(service: string, time: int)                          // and that of an error the ring of errors

  ghost function StepService(sv: ServiceV, step: StoreStep): ServiceV {
    match step
    case Enter(_) => sv
    case Install(_, key, e) =>
      if key in sv.metrics then sv else sv.(metrics := sv.metrics[key := NewSeriesV(e, DEFAULT_SERIES_CAPACITY)])
    case Fill(_, key, x) =>
      if key !in sv.metrics then sv
      else
        var s := sv.metrics[key];
        sv.(metrics := sv.metrics[key := s.(values := LastN(s.values + [x], s.cap))])
    case Stamp(_, key, x, t) =>
      if key !in sv.metrics then sv
      else sv.(metrics := sv.metrics[key := sv.metrics[key].(last := x, lastTime := t)])
    case FileSpan(_, s) => sv.(traces := AddV(sv.traces, s))
    case KeepLog(_, l) => sv.(logs := LastN(sv.logs + [l], DEFAULT_LOG_CAPACITY))
    case NoteTime(_, t) => sv.(lastSeen := if t > sv.lastSeen then t else sv.lastSeen)
    case RingEvent(_, t) => sv.(events := LastN(sv.events + [t], DEFAULT_EVENT_TRACKER_CAPACITY))
    case RingError(_, t) => sv.(errors := LastN(sv.errors + [t], DEFAULT_EVENT_TRACKER_CAPACITY))
  }

  ghost function StepStore(v: StoreV, step: StoreStep): StoreV {
    if step.Enter? || step.service in v
    then v[step.service := StepService(ServiceIn(v, step.service), step)]
    else v
  }

  ghost function FoldSteps(v: StoreV, steps: seq<StoreStep>): StoreV {
    if steps == [] then v else StepStore(FoldSteps(v, steps[..|steps| - 1]), steps[|steps| - 1])
  }

  ghost function AfterSteps(steps: seq<StoreStep>): StoreV { FoldSteps(map[], steps) }

  lemma FoldPush(v: StoreV, steps: seq<StoreStep>, step: StoreStep)
    ensures FoldSteps(v, steps + [step]) == StepStore(FoldSteps(v, steps), step)
  {
    assert (steps + [step])[..|steps|] == steps;
  }

  lemma {:induction false} FoldConcat(v: StoreV, a: seq<StoreStep>, b: seq<StoreStep>)
    ensures FoldSteps(v, a + b) == FoldSteps(FoldSteps(v, a), b)
  {
    hide StepStore;
    if b == [] {
      assert a + b == a;
    } else {
      var b' := b[..|b| - 1];
      FoldConcat(v, a, b');
      FoldPush(v, a + b', b[|b| - 1]);
      assert a + b == a + b' + [b[|b| - 1]];
    }
  }

  // ---- the steps of a push ---------------------------------------------------------------------------

  /** The event is kept. */
  ghost function KeepSteps(p: Push): (r: seq<StoreStep>)
    ensures |r| == if p.PushedMetric? then 4 else 2
  {
    var n := p.Service();
    match p
    case PushedMetric(e, _) =>
      var key := KeyOf(e.name, e.labels);
      [Enter(n), Install(n, key, e), Fill(n, key, e.value), Stamp(n, key, e.value, e.timestamp)]
    case PushedSpan(s, _) => [Enter(n), FileSpan(n, s)]
    case PushedLog(l, _) => [Enter(n), KeepLog(n, l)]
  }

  /** Its activity is recorded. */
  ghost function NoteSteps(p: Push): (r: seq<StoreStep>)
    ensures |r| == if p.IsError() then 3 else 2
  {
    var n, t := p.Service(), p.Time();
    if p.IsError() then [NoteTime(n, t), RingEvent(n, t), RingError(n, t)] else [NoteTime(n, t), RingEvent(n, t)]
  }

  ghost function StepsOf(p: Push): (r: seq<StoreStep>)
    ensures |r| == |KeepSteps(p)| + |NoteSteps(p)|
    ensures p.PushedMetric? ==> |r| == 6
  {
    KeepSteps(p) + NoteSteps(p)
  }

  /** A service's own state after some steps. */
  ghost function FoldService(sv: ServiceV, steps: seq<StoreStep>): ServiceV {
    if steps == [] then sv else StepService(FoldService(sv, steps[..|steps| - 1]), steps[|steps| - 1])
  }

  lemma FoldServicePush(sv: ServiceV, steps: seq<StoreStep>, step: StoreStep)
    ensures FoldService(sv, steps + [step]) == StepService(FoldService(sv, steps), step)
  {
    assert (steps + [step])[..|steps|] == steps;
  }

  /** Steps that enter a service first and stay in it change only that service. */
  lemma {:induction false} FoldWithin(v: StoreV, n: string, steps: seq<StoreStep>)
    requires steps != [] && steps[0] == Enter(n) && forall i :: 0 <= i < |steps| ==> steps[i].service == n
    ensures FoldSteps(v, steps) == v[n := FoldService(ServiceIn(v, n), steps)]
  {
    var init := steps[..|steps| - 1];
    if init == [] {
      assert FoldSteps(v, init) == v && FoldService(ServiceIn(v, n), init) == ServiceIn(v, n);
    } else {
      FoldWithin(v, n, init);
    }
  }

  lemma {:induction false} FoldServiceConcat(sv: ServiceV, a: seq<StoreStep>, b: seq<StoreStep>)
    ensures FoldService(sv, a + b) == FoldService(FoldService(sv, a), b)
  {
    hide StepService;
    if b == [] {
      assert a + b == a;
    } else {
      var b' := b[..|b| - 1];
      FoldServiceConcat(sv, a, b');
      FoldServicePush(sv, a + b', b[|b| - 1]);
      assert a + b == a + b' + [b[|b| - 1]];
    }
  }

  lemma FoldTwo(sv: ServiceV, x: StoreStep, y: StoreStep)
    ensures FoldService(sv, [x, y]) == StepService(StepService(sv, x), y)
  {
    var none: seq<StoreStep> := [];
    assert none + [x] == [x] && [x] + [y] == [x, y];
    FoldServicePush(sv, none, x);
    FoldServicePush(sv, [x], y);
  }

  lemma SplitSteps(p: Push)
    ensures p.PushedMetric? ==> KeepSteps(p) == KeepSteps(p)[..2] + [KeepSteps(p)[2], KeepSteps(p)[3]]
    ensures p.PushedMetric? ==> KeepSteps(p)[..2] == [KeepSteps(p)[0], KeepSteps(p)[1]]
    ensures p.IsError() ==> NoteSteps(p) == [NoteSteps(p)[0], NoteSteps(p)[1]] + [NoteSteps(p)[2]]
  {
  }

  lemma KeepingKeeps(sv: ServiceV, p: Push)
    ensures FoldService(sv, KeepSteps(p)) == Keep(sv, p)
  {
    var steps := KeepSteps(p);
    FoldTwo(sv, steps[0], steps[1]);
    if p.PushedMetric? {
      SplitSteps(p);
      FoldServiceConcat(sv, steps[..2], [steps[2], steps[3]]);
      FoldTwo(FoldService(sv, steps[..2]), steps[2], steps[3]);
      SampleSteps(sv, KeyOf(p.metric.name, p.metric.labels), p.metric);
    }
  }

  lemma NotingRecords(sv: ServiceV, p: Push)
    ensures FoldService(sv, NoteSteps(p)) == Record(sv, p.Time(), p.IsError())
  {
    var steps := NoteSteps(p);
    FoldTwo(sv, steps[0], steps[1]);
    if p.IsError() {
      SplitSteps(p);
      FoldServicePush(sv, [steps[0], steps[1]], steps[2]);
    }
  }

  /** Installing, filling and stamping amount to one sample added. */
  lemma SampleSteps(sv: ServiceV, key: string, e: MetricEvent)
    ensures StepService(StepService(StepService(sv, Install("", key, e)), Fill("", key, e.value)),
                        Stamp("", key, e.value, e.timestamp)) == AddSampleUnder(sv, key, e)
  {
    var a := StepService(sv, Install("", key, e));
    assert a.metrics == sv.metrics[key := SeriesOr(sv.metrics, key, e)];
    var b := StepService(a, Fill("", key, e.value));
    var c := StepService(b, Stamp("", key, e.value, e.timestamp));
    assert c.metrics == sv.metrics[key := PushV(SeriesOr(sv.metrics, key, e), e)];
  }

  lemma StepsStayIn(p: Push, j: nat)
    requires 0 < j <= |StepsOf(p)|
    ensures StepsOf(p)[..j][0] == Enter(p.Service())
    ensures forall i :: 0 <= i < j ==> StepsOf(p)[..j][i].service == p.Service()
  {
  }

  /** A push taken in its steps, undisturbed, is the push taken at once. */
  lemma StepsMakePush(v: StoreV, p: Push)
    ensures FoldSteps(v, StepsOf(p)) == PushStore(v, p)
  {
    var sv := ServiceIn(v, p.Service());
    StepsStayIn(p, |StepsOf(p)|);
    assert StepsOf(p)[..|StepsOf(p)|] == StepsOf(p);
    FoldWithin(v, p.Service(), StepsOf(p));
    FoldServiceConcat(sv, KeepSteps(p), NoteSteps(p));
    KeepingKeeps(sv, p);
    NotingRecords(FoldService(sv, KeepSteps(p)), p);
  }

  /** One push after the other, as the dashboard's only writer does it. */
  ghost function AllSteps(ps: seq<Push>): seq<StoreStep> {
    if ps == [] then [] else AllSteps(ps[..|ps| - 1]) + StepsOf(ps[|ps| - 1])
  }

  lemma {:induction false} AllStepsMakePushes(ps: seq<Push>)
    ensures AfterSteps(AllSteps(ps)) == StoreAfter(ps)
  {
    if ps != [] {
      AllStepsMakePushes(ps[..|ps| - 1]);
      FoldConcat(map[], AllSteps(ps[..|ps| - 1]), StepsOf(ps[|ps| - 1]));
      StepsMakePush(StoreAfter(ps[..|ps| - 1]), ps[|ps| - 1]);
    }
  }

  lemma TwoPushes(a: Push, b: Push)
    ensures AllSteps([a, b]) == StepsOf(a) + StepsOf(b)
  {
    var none: seq<StoreStep> := [];
    assert [a, b][..1] == [a] && [a][..0] == [];
    assert AllSteps([a]) == none + StepsOf(a) == StepsOf(a);
  }

  // ---- what a history of steps says about a series -----------------------------------------------------

  ghost predicate Entered(steps: seq<StoreStep>, n: string) {
    exists i :: 0 <= i < |steps| && steps[i] == Enter(n)
  }

  ghost predicate Installed(steps: seq<StoreStep>, n: string, key: string) {
    exists i :: 0 <= i < |steps| && steps[i].Install? && steps[i].service == n && steps[i].key == key
  }

  ghost predicate Filled(steps: seq<StoreStep>, n: string, key: string) {
    exists i :: 0 <= i < |steps| && steps[i].Fill? && steps[i].service == n && steps[i].key == key
  }

  /** A step comes after those its own push takes before it. */
  ghost predicate Proper(before: seq<StoreStep>, step: StoreStep) {
    match step
    case Enter(_) => true
    case Fill(n, key, _) => Installed(before, n, key)
    case Stamp(n, key, _, _) => Installed(before, n, key)
    case RingEvent(n, t) => Entered(before, n) && NoteTime(n, t) in before
    case RingError(n, t) => Entered(before, n) && RingEvent(n, t) in before
    case _ => Entered(before, step.service)
  }

  /** A history of any number of writers, interleaved in any way. */
  ghost predicate Orderly(steps: seq<StoreStep>) {
    forall i :: 0 <= i < |steps| ==> Proper(steps[..i], steps[i])
  }

  /** The series is installed and has not had its first sample. */
  ghost predicate InGap(steps: seq<StoreStep>, n: string, key: string) {
    Installed(steps, n, key) && !Filled(steps, n, key)
  }

  lemma OrderlyPrefix(steps: seq<StoreStep>, k: nat)
    requires Orderly(steps) && k <= |steps|
    ensures Orderly(steps[..k])
  {
    forall i | 0 <= i < k ensures Proper(steps[..k][..i], steps[..k][i]) { assert steps[..k][..i] == steps[..i]; }
  }

  lemma OrderlyLast(steps: seq<StoreStep>)
    requires Orderly(steps) && steps != []
    ensures Orderly(steps[..|steps| - 1]) && Proper(steps[..|steps| - 1], steps[|steps| - 1])
  {
    OrderlyPrefix(steps, |steps| - 1);
  }

  lemma HistoryPush(steps: seq<StoreStep>, step: StoreStep, n: string, key: string)
    ensures Entered(steps + [step], n) <==> Entered(steps, n) || step == Enter(n)
    ensures Installed(steps + [step], n, key) <==>
              Installed(steps, n, key) || (step.Install? && step.service == n && step.key == key)
    ensures Filled(steps + [step], n, key) <==>
              Filled(steps, n, key) || (step.Fill? && step.service == n && step.key == key)
  {
    var all := steps + [step];
    assert forall i :: 0 <= i < |steps| ==> all[i] == steps[i];
    assert all[|steps|] == step;
  }

  /** Services and series exist from the step that makes them on, and a series is empty exactly in its gap. */
  lemma {:induction false} SeriesHistory(steps: seq<StoreStep>, n: string, key: string)
    requires Orderly(steps)
    ensures var v := AfterSteps(steps);
            && (n in v <==> Entered(steps, n))
            && (n in v && key in v[n].metrics <==> Installed(steps, n, key))
            && (Installed(steps, n, key) ==> (v[n].metrics[key].values == [] <==> !Filled(steps, n, key)))
            && (Installed(steps, n, key) ==> v[n].metrics[key].cap == DEFAULT_SERIES_CAPACITY)
  {
    if steps != [] {
      var init, step := steps[..|steps| - 1], steps[|steps| - 1];
      hide Entered, Installed, Filled, Orderly, StepStore;
      OrderlyLast(steps);
      SeriesHistory(init, n, key);
      if step.service != n { SeriesHistory(init, step.service, key); }
      HistoryPush(init, step, n, key);
      assert steps == init + [step];
      StepHistory(AfterSteps(init), step, n, key);
    }
  }

  /** How one step changes whether a series is there and whether it is empty. */
  lemma StepHistory(v: StoreV, step: StoreStep, n: string, key: string)
    requires n in v && key in v[n].metrics ==> v[n].metrics[key].cap == DEFAULT_SERIES_CAPACITY
    ensures var w := StepStore(v, step);
            && (n in w <==> n in v || step == Enter(n))
            && (n in w && key in w[n].metrics <==>
                  (n in v && key in v[n].metrics) || (n in v && step.Install? && step.service == n && step.key == key))
            && (n in w && key in w[n].metrics ==>
                  && w[n].metrics[key].cap == DEFAULT_SERIES_CAPACITY
                  && (n in v && key in v[n].metrics ==>
                        (w[n].metrics[key].values == [] <==>
                           v[n].metrics[key].values == [] && !(step.Fill? && step.service == n && step.key == key)))
                  && (n !in v || key !in v[n].metrics ==> w[n].metrics[key].values == []))
  {
  }

  // ---- the store only grows ------------------------------------------------------------------------------

  /** Services and series are never removed, and a series keeps its name. */
  ghost predicate Grows(v: StoreV, w: StoreV) {
    forall n :: n in v ==> n in w && MetricsGrow(v[n].metrics, w[n].metrics)
  }

  ghost predicate MetricsGrow(v: map<string, SeriesV>, w: map<string, SeriesV>) {
    forall k :: k in v ==> k in w && w[k].name == v[k].name
  }

  lemma StepGrows(v: StoreV, step: StoreStep)
    ensures Grows(v, StepStore(v, step))
  {
    var sv := ServiceIn(v, step.service);
    assert MetricsGrow(sv.metrics, StepService(sv, step).metrics);
  }

  /** Whatever steps are taken, by whatever writers, a later store has all an earlier one had. */
  lemma {:induction false} StepsGrow(steps: seq<StoreStep>, m: nat, n: nat)
    requires m <= n <= |steps|
    ensures Grows(AfterSteps(steps[..m]), AfterSteps(steps[..n]))
    decreases n
  {
    if m < n {
      StepsGrow(steps, m, n - 1);
      assert steps[..n] == steps[..n - 1] + [steps[n - 1]];
      FoldPush(map[], steps[..n - 1], steps[n - 1]);
      StepGrows(AfterSteps(steps[..n - 1]), steps[n - 1]);
    }
  }

  // ---- reading the last value in the middle of a push ------------------------------------------------------

  /** Every series holds samples, the last value being the newest of them. */
  ghost predicate Settled(m: map<string, SeriesV>) {
    forall k :: k in m ==>
      m[k].values != [] && m[k].cap == DEFAULT_SERIES_CAPACITY && m[k].last == m[k].values[|m[k].values| - 1]
  }

  lemma PushSettles(sv: ServiceV, p: Push)
    requires Settled(sv.metrics)
    ensures Settled(PushService(sv, p).metrics)
  {
    if p.PushedMetric? {
      var e, key := p.metric, KeyOf(p.metric.name, p.metric.labels);
      assert PushService(sv, p).metrics == sv.metrics[key := PushV(SeriesOr(sv.metrics, key, e), e)];
    } else {
      assert PushService(sv, p).metrics == sv.metrics;
    }
  }

  lemma {:induction false} PushesSettle(ps: seq<Push>, n: string)
    ensures Settled(ServiceIn(StoreAfter(ps), n).metrics)
  {
    if ps != [] {
      PushesSettle(ps[..|ps| - 1], n);
      PushSettles(ServiceIn(StoreAfter(ps[..|ps| - 1]), n), ps[|ps| - 1]);
    }
  }

  /** One step of the next push, seen from a series. */
  ghost predicate HalfFilled(s: SeriesV, x: real) { s.values == [x] && s.last == 0.0 }

  ghost predicate LastIsHeld(s: SeriesV) { s.values != [] ==> s.last in s.values }

  lemma SettledHeld(m: map<string, SeriesV>)
    requires Settled(m)
    ensures forall k :: k in m ==> LastIsHeld(m[k])
  {
  }

  /** The series of a service after the first j steps of pushing a metric. */
  ghost function MidMetrics(m: map<string, SeriesV>, e: MetricEvent, key: string, j: nat): map<string, SeriesV> {
    var s := SeriesOr(m, key, e);
    if j < 2 then m
    else if j == 2 then m[key := s]
    else if j == 3 then m[key := s.(values := LastN(s.values + [e.value], s.cap))]
    else m[key := PushV(s, e)]
  }

  lemma {:induction false} MidPush(sv: ServiceV, p: Push, j: nat)
    requires p.PushedMetric? && j <= 6
    ensures var e := p.metric;
            FoldService(sv, StepsOf(p)[..j]).metrics == MidMetrics(sv.metrics, e, KeyOf(e.name, e.labels), j)
  {
    var steps := StepsOf(p);
    if j == 0 {
      assert steps[..0] == [];
    } else {
      MidPush(sv, p, j - 1);
      assert steps[..j] == steps[..j - 1] + [steps[j - 1]];
      FoldServicePush(sv, steps[..j - 1], steps[j - 1]);
      MidStep(sv, FoldService(sv, steps[..j - 1]), p, j);
    }
  }

  /** A span or a log line leaves the series alone, step by step. */
  lemma {:induction false} OtherPushes(sv: ServiceV, p: Push, j: nat)
    requires !p.PushedMetric? && j <= |StepsOf(p)|
    ensures FoldService(sv, StepsOf(p)[..j]).metrics == sv.metrics
  {
    var steps := StepsOf(p);
    if j == 0 {
      assert steps[..0] == [];
    } else {
      hide FoldService, StepsOf, StepService;
      OtherPushes(sv, p, j - 1);
      assert steps[..j] == steps[..j - 1] + [steps[j - 1]];
      FoldServicePush(sv, steps[..j - 1], steps[j - 1]);
      OtherStep(p, j - 1);
      OtherStepLeaves(FoldService(sv, steps[..j - 1]), steps[j - 1]);
    }
  }

  lemma OtherStep(p: Push, i: nat)
    requires !p.PushedMetric? && i < |StepsOf(p)|
    ensures var step := StepsOf(p)[i]; !step.Install? && !step.Fill? && !step.Stamp?
  {
  }

  lemma OtherStepLeaves(sv: ServiceV, step: StoreStep)
    requires !step.Install? && !step.Fill? && !step.Stamp?
    ensures StepService(sv, step).metrics == sv.metrics
  {
    hide LastN, AddV;
  }

  lemma MidStep(sv: ServiceV, mid: ServiceV, p: Push, j: nat)
    requires p.PushedMetric? && 0 < j <= 6
    requires var e := p.metric; mid.metrics == MidMetrics(sv.metrics, e, KeyOf(e.name, e.labels), j - 1)
    ensures var e := p.metric;
            StepService(mid, StepsOf(p)[j - 1]).metrics == MidMetrics(sv.metrics, e, KeyOf(e.name, e.labels), j)
  {
    hide KeyOf, LastN, AddV;
    var e, key, step := p.metric, KeyOf(p.metric.name, p.metric.labels), StepsOf(p)[j - 1];
    if j == 2 {
      assert step == Install(p.Service(), key, e);
    } else if j == 3 {
      assert step == Fill(p.Service(), key, e.value);
    } else if j == 4 {
      assert step == Stamp(p.Service(), key, e.value, e.timestamp);
    }
  }

  /** While a metric is being pushed after complete pushes, the last value of every series is one of its samples,
      or the series has just had its very first sample and still shows zero. */
  lemma ReadMidPush(sv: ServiceV, p: Push, j: nat)
    requires Settled(sv.metrics) && p.PushedMetric? && j <= 6
    ensures var m := FoldService(sv, StepsOf(p)[..j]).metrics;
            forall k :: k in m ==>
              || LastIsHeld(m[k])
              || (j == 3 && k == KeyOf(p.metric.name, p.metric.labels) && k !in sv.metrics
                  && HalfFilled(m[k], p.metric.value))
  {
    var e, key := p.metric, KeyOf(p.metric.name, p.metric.labels);
    MidPush(sv, p, j);
    hide FoldService, StepsOf;
    SettledHeld(sv.metrics);
    FilledHeld(sv.metrics, e, key);
  }

  /** The sample is in the ring, the last value still the one before. */
  lemma FilledHeld(m: map<string, SeriesV>, e: MetricEvent, key: string)
    requires Settled(m)
    ensures var s := SeriesOr(m, key, e);
            var t := s.(values := LastN(s.values + [e.value], s.cap));
            && (if key in m then LastIsHeld(t) else HalfFilled(t, e.value))
            && LastIsHeld(t.(last := e.value, lastTime := e.timestamp))
  {
    var s := SeriesOr(m, key, e);
    var t := s.(values := LastN(s.values + [e.value], s.cap));
    assert t.values[|t.values| - 1] == e.value;
    if key in m { assert t.values[|t.values| - 2] == s.values[|s.values| - 1]; }
  }
}
