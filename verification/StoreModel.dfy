// The per-service store as functions of values, and the histories it keeps: internal/store/store.go.
module StoreModel {
  import opened Common
  import opened MetricKeys
  import opened SeriesModel
  import opened TraceModel

  const DEFAULT_LOG_CAPACITY: nat := 1000
  const DEFAULT_EVENT_TRACKER_CAPACITY: nat := 4096

  datatype LogEvent = LogEvent(
    timestamp: int, level: string, body: string, service: string, traceID: string, attrs: map<string, string>)

  datatype ServiceV = ServiceV(
    metrics: map<string, SeriesV>, traces: map<string, TraceV>, logs: seq<LogEvent>,
    events: seq<int>, errors: seq<int>, lastSeen: int)

  type StoreV = map<string, ServiceV>

  const NEW_SERVICE := ServiceV(map[], map[], [], [], [], 0)

  function ServiceName(name: string): string { if name == "" then "unknown" else name }

  /** The zero time stands for "not set". */
  function TimeOrNow(t: int, now: int): int { if t == 0 then now else t }

  function Record(sv: ServiceV, ts: int, isErr: bool): ServiceV {
    sv.(lastSeen := if ts > sv.lastSeen then ts else sv.lastSeen,
        events := LastN(sv.events + [ts], DEFAULT_EVENT_TRACKER_CAPACITY),
        errors := if isErr then LastN(sv.errors + [ts], DEFAULT_EVENT_TRACKER_CAPACITY) else sv.errors)
  }

  /** The series stored under a key, or the new one its first sample starts. */
  function SeriesOr(metrics: map<string, SeriesV>, key: string, e: MetricEvent): SeriesV {
    if key in metrics then metrics[key] else NewSeriesV(e, DEFAULT_SERIES_CAPACITY)
  }

  function AddSampleUnder(sv: ServiceV, key: string, e: MetricEvent): ServiceV {
    sv.(metrics := sv.metrics[key := PushV(SeriesOr(sv.metrics, key, e), e)])
  }

  ghost function AddSample(sv: ServiceV, e: MetricEvent): ServiceV {
    AddSampleUnder(sv, KeyOf(e.name, e.labels), e)
  }

  /** One event entering the store; now is the wall clock, used when the event carries no time. */
  datatype Push =
    | PushedMetric(metric: MetricEvent, now: int)
    | PushedSpan(span: Span, now: int)
    | PushedLog(log: LogEvent, now: int)
  {
    function Service(): string {
      ServiceName(match this
                  case PushedMetric(e, _) => e.source
                  case PushedSpan(s, _) => s.service
                  case PushedLog(l, _) => l.service)
    }

    function Time(): int {
      match this
      case PushedMetric(e, now) => TimeOrNow(e.timestamp, now)
      case PushedSpan(s, now) => TimeOrNow(End(s), now)
      case PushedLog(l, now) => TimeOrNow(l.timestamp, now)
    }

    predicate IsError() {
      match this
      case PushedMetric(_, _) => false
      case PushedSpan(s, _) => s.status == StatusError
      case PushedLog(l, _) => l.level == "ERROR"
    }
  }

  ghost function Keep(sv: ServiceV, p: Push): ServiceV {
    match p
    case PushedMetric(e, _) => AddSample(sv, e)
    case PushedSpan(s, _) => sv.(traces := AddV(sv.traces, s))
    case PushedLog(l, _) => sv.(logs := LastN(sv.logs + [l], DEFAULT_LOG_CAPACITY))
  }

  ghost function PushService(sv: ServiceV, p: Push): ServiceV {
    Record(Keep(sv, p), p.Time(), p.IsError())
  }

  function ServiceIn(st: StoreV, name: string): ServiceV {
    if name in st then st[name] else NEW_SERVICE
  }

  ghost function PushStore(st: StoreV, p: Push): StoreV {
    st[p.Service() := PushService(ServiceIn(st, p.Service()), p)]
  }

  ghost function StoreAfter(ps: seq<Push>): StoreV {
    if ps == [] then map[] else PushStore(StoreAfter(ps[..|ps| - 1]), ps[|ps| - 1])
  }

  // ---- histories ------------------------------------------------------------------------------

  function ToService(name: string): Push -> bool { (p: Push) => p.Service() == name }

  function ErrorPush(): Push -> bool { (p: Push) => p.IsError() }

  /** What arrived for one service, in order. */
  function For(ps: seq<Push>, name: string): seq<Push> { Filter(ps, ToService(name)) }

  function Times(ps: seq<Push>): (r: seq<int>)
    ensures |r| == |ps|
  {
    seq(|ps|, i requires 0 <= i < |ps| => ps[i].Time())
  }

  function Errors(ps: seq<Push>): seq<Push> { Filter(ps, ErrorPush()) }

  function MetricsIn(ps: seq<Push>, name: string, labels: Labels): seq<MetricEvent> {
    if ps == [] then []
    else
      var p, init := ps[|ps| - 1], MetricsIn(ps[..|ps| - 1], name, labels);
      if p.PushedMetric? && p.metric.name == name && p.metric.labels == labels then init + [p.metric] else init
  }

  function SpansIn(ps: seq<Push>): seq<Span> {
    if ps == [] then []
    else
      var p, init := ps[|ps| - 1], SpansIn(ps[..|ps| - 1]);
      if p.PushedSpan? then init + [p.span] else init
  }

  function LogsIn(ps: seq<Push>): seq<LogEvent> {
    if ps == [] then []
    else
      var p, init := ps[|ps| - 1], LogsIn(ps[..|ps| - 1]);
      if p.PushedLog? then init + [p.log] else init
  }

  /** One service's state after its own pushes. */
  ghost function ServiceAfter(ps: seq<Push>): ServiceV {
    if ps == [] then NEW_SERVICE else PushService(ServiceAfter(ps[..|ps| - 1]), ps[|ps| - 1])
  }

  /** No cross-talk between services: each one is what its own events alone make it. */
  lemma {:induction false} ServicesAreSeparate(ps: seq<Push>, name: string)
    ensures name in StoreAfter(ps) <==> For(ps, name) != []
    ensures ServiceIn(StoreAfter(ps), name) == ServiceAfter(For(ps, name))
  {
    if ps != [] {
      var init, p := ps[..|ps| - 1], ps[|ps| - 1];
      ServicesAreSeparate(init, name);
      if p.Service() == name {
        var own := For(init, name);
        assert For(ps, name) == own + [p];
        assert (own + [p])[..|own|] == own;
      } else {
        assert For(ps, name) == For(init, name);
      }
    }
  }

  lemma KeepsActivity(sv: ServiceV, p: Push)
    ensures var r := PushService(sv, p);
            && r.events == LastN(sv.events + [p.Time()], DEFAULT_EVENT_TRACKER_CAPACITY)
            && r.errors == (if p.IsError()
                            then LastN(sv.errors + [p.Time()], DEFAULT_EVENT_TRACKER_CAPACITY)
                            else sv.errors)
            && r.lastSeen == Max(p.Time(), sv.lastSeen)
  {
  }

  lemma TimesPush(ps: seq<Push>, p: Push)
    ensures Times(ps + [p]) == Times(ps) + [p.Time()]
  {
  }

  lemma TimesInit(ps: seq<Push>)
    requires ps != []
    ensures Times(ps) == Times(ps[..|ps| - 1]) + [ps[|ps| - 1].Time()]
  {
  }

  /** The activity rings are windows on the times recorded and on the times of the errors among them. */
  lemma {:induction false} ActivityIsWindow(ps: seq<Push>)
    ensures ServiceAfter(ps).events == LastN(Times(ps), DEFAULT_EVENT_TRACKER_CAPACITY)
    ensures ServiceAfter(ps).errors == LastN(Times(Errors(ps)), DEFAULT_EVENT_TRACKER_CAPACITY)
  {
    if ps != [] {
      var init, p := ps[..|ps| - 1], ps[|ps| - 1];
      ActivityIsWindow(init);
      KeepsActivity(ServiceAfter(init), p);
      TimesInit(ps);
      LastNPush(Times(init), p.Time(), DEFAULT_EVENT_TRACKER_CAPACITY);
      if p.IsError() {
        TimesPush(Errors(init), p);
        LastNPush(Times(Errors(init)), p.Time(), DEFAULT_EVENT_TRACKER_CAPACITY);
      }
    }
  }

  /** Logs keep the newest thousand; traces hold every span that arrived. */
  lemma {:induction false} LogsAndTraces(ps: seq<Push>)
    ensures ServiceAfter(ps).logs == LastN(LogsIn(ps), DEFAULT_LOG_CAPACITY)
    ensures ServiceAfter(ps).traces == Assemble(SpansIn(ps))
  {
    if ps != [] {
      var init, p := ps[..|ps| - 1], ps[|ps| - 1];
      LogsAndTraces(init);
      match p {
        case PushedMetric(_, _) =>
        case PushedSpan(s, _) => assert (SpansIn(init) + [s])[..|SpansIn(init)|] == SpansIn(init);
        case PushedLog(l, _) => LastNPush(LogsIn(init), l, DEFAULT_LOG_CAPACITY);
      }
    }
  }

  /** The newest of these times, or the zero time before any. */
  ghost predicate IsNewest(last: int, times: seq<int>) {
    && (last == 0 || last in times)
    && last >= 0
    && forall t :: t in times ==> t <= last
  }

  lemma NewestPush(last: int, times: seq<int>, t: int)
    requires IsNewest(last, times)
    ensures IsNewest(Max(t, last), times + [t])
  {
  }

  /** LastSeen is the newest time ever recorded (the zero time before anything arrives). */
  lemma {:induction false} LastSeenIsMax(ps: seq<Push>)
    ensures IsNewest(ServiceAfter(ps).lastSeen, Times(ps))
  {
    if ps != [] {
      var init, p := ps[..|ps| - 1], ps[|ps| - 1];
      LastSeenIsMax(init);
      KeepsActivity(ServiceAfter(init), p);
      TimesInit(ps);
      NewestPush(ServiceAfter(init).lastSeen, Times(init), p.Time());
    }
  }

  // ---- what one push leaves behind ---------------------------------------------------------------------------

  /** A service's activity after one push: its time is the newest event, and the newest error if it is an error. */
  ghost predicate Recorded(before: ServiceV, after: ServiceV, time: int, isErr: bool) {
    && |after.events| > 0 && after.events[|after.events| - 1] == time
    && after.events == LastN(before.events + [time], 4096)
    && after.errors == (if isErr then LastN(before.errors + [time], 4096) else before.errors)
    && after.lastSeen >= time && after.lastSeen >= before.lastSeen
    && (after.lastSeen == time || after.lastSeen == before.lastSeen)
  }

  /** The series after one sample: under the key it is the newest and the last value; the others are untouched. */
  ghost predicate Sampled(before: map<string, SeriesV>, after: map<string, SeriesV>, key: string, e: MetricEvent) {
    && after.Keys == before.Keys + {key} && (forall k :: k in before && k != key ==> after[k] == before[k])
    && after[key].last == e.value && after[key].lastTime == e.timestamp
    && (if key in before
        then after[key].values == LastN(before[key].values + [e.value], before[key].cap)
        else after[key] == SeriesV(e.name, e.labels, e.kind, 300, [e.value], e.value, e.timestamp))
  }

  lemma SampleIsKept(sv: ServiceV, key: string, e: MetricEvent)
    ensures Sampled(sv.metrics, AddSampleUnder(sv, key, e).metrics, key, e)
  {
  }

  lemma PushKeeps(st: StoreV, p: Push)
    ensures var n, st' := p.Service(), PushStore(st, p);
            && st'.Keys == st.Keys + {n} && (forall k :: k in st && k != n ==> st'[k] == st[k])
            && st'[n] == Record(Keep(ServiceIn(st, n), p), p.Time(), p.IsError())
  {
  }

  lemma RecordRecords(before: ServiceV, kept: ServiceV, time: int, isErr: bool)
    requires kept.events == before.events && kept.errors == before.errors && kept.lastSeen == before.lastSeen
    ensures var after := Record(kept, time, isErr);
            && Recorded(before, after, time, isErr)
            && after.metrics == kept.metrics && after.traces == kept.traces && after.logs == kept.logs
  {
  }

  /** A metric goes to the service it names, "unknown" if it names none, and under its own key it is the newest sample
      and the last value; its own time is recorded, or the clock's if it has none, and never as an error. */
  lemma MetricIsKept(st: StoreV, e: MetricEvent, now: int)
    ensures var n, st' := if e.source == "" then "unknown" else e.source, PushStore(st, PushedMetric(e, now));
            && st'.Keys == st.Keys + {n} && (forall k :: k in st && k != n ==> st'[k] == st[k])
            && Recorded(ServiceIn(st, n), st'[n], if e.timestamp == 0 then now else e.timestamp, false)
            && st'[n].logs == ServiceIn(st, n).logs && st'[n].traces == ServiceIn(st, n).traces
            && Sampled(ServiceIn(st, n).metrics, st'[n].metrics, KeyOf(e.name, e.labels), e)
  {
    var p := PushedMetric(e, now);
    var before := ServiceIn(st, p.Service());
    PushKeeps(st, p);
    SampleIsKept(before, KeyOf(e.name, e.labels), e);
    RecordRecords(before, Keep(before, p), p.Time(), p.IsError());
    hide PushStore, Record, Recorded, Sampled, KeyOf;
  }

  /** A span is filed among the traces of its service and recorded at its end, as an error if that is its status. */
  lemma SpanIsKept(st: StoreV, s: Span, now: int)
    ensures var n, st' := if s.service == "" then "unknown" else s.service, PushStore(st, PushedSpan(s, now));
            && st'.Keys == st.Keys + {n} && (forall k :: k in st && k != n ==> st'[k] == st[k])
            && var before, after, end := ServiceIn(st, n), st'[n], s.start + s.duration;
               && Recorded(before, after, if end == 0 then now else end, s.status == StatusError)
               && after.metrics == before.metrics && after.logs == before.logs
               && after.traces == AddV(before.traces, s)
  {
  }

  /** A log line is the newest of at most a thousand, recorded as an error if its level is ERROR. */
  lemma LogIsKept(st: StoreV, l: LogEvent, now: int)
    ensures var n, st' := if l.service == "" then "unknown" else l.service, PushStore(st, PushedLog(l, now));
            && st'.Keys == st.Keys + {n} && (forall k :: k in st && k != n ==> st'[k] == st[k])
            && var before, after := ServiceIn(st, n), st'[n];
               && Recorded(before, after, if l.timestamp == 0 then now else l.timestamp, l.level == "ERROR")
               && after.metrics == before.metrics && after.traces == before.traces
               && after.logs == LastN(before.logs + [l], 1000)
  {
  }

  ghost predicate CleanPushes(ps: seq<Push>) {
    forall i :: 0 <= i < |ps| && ps[i].PushedMetric? ==> Clean(ps[i].metric.name, ps[i].metric.labels)
  }

  /** The store refines the map from (service, name, labels) to that series' last 300 samples: a series
      exists exactly when samples arrived, holds the newest of exactly those, and Last is the newest. */
  lemma {:induction false} SeriesRefineHistory(ps: seq<Push>, name: string, labels: Labels)
    requires CleanPushes(ps) && Clean(name, labels)
    ensures HoldsSeries(ServiceAfter(ps), name, labels, MetricsIn(ps, name, labels))
  {
    if ps != [] {
      var init, p := ps[..|ps| - 1], ps[|ps| - 1];
      SeriesRefineHistory(init, name, labels);
      if p.PushedMetric? {
        SampleStep(ServiceAfter(init), p.metric, name, labels, MetricsIn(init, name, labels));
      }
    }
  }

  ghost predicate HoldsSeries(sv: ServiceV, name: string, labels: Labels, es: seq<MetricEvent>) {
    var key := KeyOf(name, labels);
    && (key in sv.metrics <==> es != [])
    && (key in sv.metrics ==> sv.metrics[key] == PushAllV(NewSeriesV(es[0], DEFAULT_SERIES_CAPACITY), es))
  }

  lemma SampleStep(sv: ServiceV, e: MetricEvent, name: string, labels: Labels, es: seq<MetricEvent>)
    requires HoldsSeries(sv, name, labels, es)
    requires Clean(name, labels) && Clean(e.name, e.labels)
    ensures HoldsSeries(AddSample(sv, e), name, labels, if e.name == name && e.labels == labels then es + [e] else es)
  {
    if KeyOf(e.name, e.labels) == KeyOf(name, labels) {
      KeyInjective(e.name, e.labels, name, labels);
      assert (es + [e])[..|es|] == es;
    }
  }

  lemma {:induction false} MetricsAlike(ps: seq<Push>, name: string, labels: Labels)
    ensures forall e :: e in MetricsIn(ps, name, labels) ==> e.name == name && e.labels == labels
  {
    if ps != [] { MetricsAlike(ps[..|ps| - 1], name, labels); }
  }

  lemma CleanFor(ps: seq<Push>, service: string)
    requires CleanPushes(ps)
    ensures CleanPushes(For(ps, service))
  {
    var own := For(ps, service);
    forall i | 0 <= i < |own| && own[i].PushedMetric? ensures Clean(own[i].metric.name, own[i].metric.labels) {
      FilterMember(ps, own[i], ToService(service));
    }
  }

  ghost predicate IsWindowOn(s: SeriesV, es: seq<MetricEvent>) {
    && es != [] && s.values == LastN(ValuesOf(es), DEFAULT_SERIES_CAPACITY)
    && s.last == es[|es| - 1].value == s.values[|s.values| - 1]
  }

  /** The same for the whole store: each (service, name, labels) has its own window of newest samples. */
  lemma StoredSeries(ps: seq<Push>, service: string, name: string, labels: Labels)
    requires CleanPushes(ps) && Clean(name, labels) && service != ""
    ensures var es, sv := MetricsIn(For(ps, service), name, labels), ServiceIn(StoreAfter(ps), service);
            var key := KeyOf(name, labels);
            && (key in sv.metrics <==> es != [])
            && (es != [] ==>
                  && IsWindowOn(sv.metrics[key], es)
                  && sv.metrics[key].name == name && sv.metrics[key].labels == labels)
  {
    var own := For(ps, service);
    ServicesAreSeparate(ps, service);
    CleanFor(ps, service);
    SeriesRefineHistory(own, name, labels);
    var es := MetricsIn(own, name, labels);
    if es != [] {
      SeriesIsWindow(NewSeriesV(es[0], DEFAULT_SERIES_CAPACITY), es);
      MetricsAlike(own, name, labels);
      assert es[0] in es;
    }
  }
}
