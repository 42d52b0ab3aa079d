// The mutable store: internal/store/store.go. Rings, series and trace tables are updated in place.
module Stores {
  import opened Common
  import opened Rings
  import opened MetricKeys
  import opened SeriesModel
  import opened SortedStrings
  import opened TraceModel
  import opened TraceMaps
  import opened StoreModel
  import opened StoreStatus

  class ServiceState {
    var metrics: map<string, Series>
    const traces: TraceMap
    const logs: Ring<LogEvent>
    const events: Ring<int>
    const errors: Ring<int>
    var lastSeen: int
    ghost var SeriesRepr: set<object>
    ghost var Repr: set<object>

    /** A series and everything it owns. */
    static ghost function Footprint(s: Series): set<object> { {s, s.values, s.values.buf} }

    ghost predicate SeriesValid()
      reads this`metrics, this`SeriesRepr, SeriesRepr
    {
      && (forall k :: k in metrics ==> Footprint(metrics[k]) <= SeriesRepr && metrics[k].Valid())
      && (forall j, k :: j in metrics && k in metrics && j != k ==> Footprint(metrics[j]) !! Footprint(metrics[k]))
    }

    ghost function Metrics(): map<string, SeriesV>
      requires SeriesValid()
      reads this`metrics, this`SeriesRepr, SeriesRepr
    {
      map k | k in metrics :: metrics[k].View()
    }

    ghost predicate Valid()
      reads this, Repr
      ensures Valid() ==> this in Repr
    {
      && this in Repr && traces in Repr && logs in Repr && logs.buf in Repr
      && events in Repr && events.buf in Repr && errors in Repr && errors.buf in Repr
      && SeriesRepr <= Repr && this !in SeriesRepr && traces !in SeriesRepr
      && logs !in SeriesRepr && logs.buf !in SeriesRepr
      && events !in SeriesRepr && events.buf !in SeriesRepr && errors !in SeriesRepr && errors.buf !in SeriesRepr
      && events != errors && events.buf != errors.buf
      && logs.Valid() && events.Valid() && errors.Valid() && traces.Valid()
      && logs.cap == DEFAULT_LOG_CAPACITY
      && events.cap == errors.cap == DEFAULT_EVENT_TRACKER_CAPACITY
      && (forall id :: id in traces.traces ==> traces.traces[id] in Repr && traces.traces[id] !in SeriesRepr)
      && SeriesValid()
    }

    ghost function View(): ServiceV
      requires Valid()
      reads this, Repr
    {
      ServiceV(Metrics(), traces.View(), logs.Contents(), events.Contents(), errors.Contents(), lastSeen)
    }

    constructor ()
      ensures Valid() && fresh(Repr) && View() == NEW_SERVICE
    {
      metrics := map[];
      var tm := new TraceMap();
      var lg := new Ring(DEFAULT_LOG_CAPACITY);
      var ev := new Ring(DEFAULT_EVENT_TRACKER_CAPACITY);
      var er := new Ring(DEFAULT_EVENT_TRACKER_CAPACITY);
      traces, logs, events, errors := tm, lg, ev, er;
      lastSeen := 0;
      SeriesRepr := {};
      Repr := {this, tm, lg, lg.buf, ev, ev.buf, er, er.buf};
    }

    twostate lemma KeepSeries()
      requires old(SeriesValid())
      requires metrics == old(metrics) && SeriesRepr == old(SeriesRepr) && unchanged(SeriesRepr)
      ensures SeriesValid() && Metrics() == old(Metrics())
    {
    }

    twostate lemma KeepRings()
      requires logs.Valid() && events.Valid() && errors.Valid()
      requires old(logs.Valid() && events.Valid() && errors.Valid())
      requires unchanged(logs, logs.buf, events, events.buf, errors, errors.buf)
      ensures logs.Contents() == old(logs.Contents())
      ensures events.Contents() == old(events.Contents()) && errors.Contents() == old(errors.Contents())
    {
    }

    method NoteEvent(ts: int)
      requires Valid()
      modifies this`lastSeen, events, events.buf
      ensures Valid()
      ensures View() == Record(old(View()), ts, false)
    {
      hide SeriesValid, Metrics;
      if ts > lastSeen {
        lastSeen := ts;
      }
      events.Push(ts);
      KeepSeries();
    }

    method NoteError(ts: int)
      requires Valid()
      modifies errors, errors.buf
      ensures Valid()
      ensures View() == old(View()).(errors := LastN(old(View()).errors + [ts], DEFAULT_EVENT_TRACKER_CAPACITY))
    {
      hide SeriesValid, Metrics;
      errors.Push(ts);
      KeepSeries();
    }

    method RecordEvent(ts: int, isErr: bool)
      requires Valid()
      modifies this`lastSeen, events, events.buf, errors, errors.buf
      ensures Valid()
      ensures View() == Record(old(View()), ts, isErr)
    {
      NoteEvent(ts);
      if isErr {
        NoteError(ts);
      }
    }

    /** What the store does once it has found the service's state. */
    method Add(p: Push)
      requires Valid()
      modifies Repr
      ensures Valid() && fresh(Repr - old(Repr)) && old(Repr) <= Repr
      ensures View() == PushService(old(View()), p)
    {
      match p {
        case PushedMetric(e, now) => AddMetric(e, now);
        case PushedSpan(s, now) => AddSpan(s, now);
        case PushedLog(e, now) => AddLog(e, now);
      }
    }

    /** The series under this key, created on first sight. */
    method SeriesFor(key: string, e: MetricEvent) returns (series: Series)
      requires Valid()
      modifies this`metrics, this`SeriesRepr, this`Repr
      ensures Valid() && fresh(Repr - old(Repr)) && old(Repr) <= Repr
      ensures fresh(SeriesRepr - old(SeriesRepr))
      ensures key in metrics && metrics[key] == series
      ensures series.View() == SeriesOr(old(View()).metrics, key, e)
      ensures View() == old(View()).(metrics := old(View()).metrics[key := series.View()])
    {
      hide Series.Valid, Series.View;
      ghost var m := View().metrics;
      if key in metrics {
        series := metrics[key];
        assert m[key := m[key]] == m;
      } else {
        series := new Series(e.name, e.kind, e.labels, DEFAULT_SERIES_CAPACITY);
        InstallSeries(key, series);
      }
    }

    method InstallSeries(key: string, series: Series)
      requires Valid() && series.Valid() && key !in metrics
      requires Footprint(series) !! Repr
      modifies this`metrics, this`SeriesRepr, this`Repr
      ensures Valid() && Repr == old(Repr) + Footprint(series) && SeriesRepr == old(SeriesRepr) + Footprint(series)
      ensures metrics == old(metrics)[key := series]
      ensures View() == old(View()).(metrics := old(Metrics())[key := series.View()])
    {
      metrics := metrics[key := series];
      SeriesRepr := SeriesRepr + Footprint(series);
      Repr := Repr + Footprint(series);
      AddedSeries(key);
    }

    twostate predicate OneMore(key: string)
      reads this, SeriesRepr
    {
      && old(SeriesValid()) && key in metrics && key !in old(metrics)
      && metrics == old(metrics)[key := metrics[key]]
      && Footprint(metrics[key]) !! old(SeriesRepr)
      && SeriesRepr == old(SeriesRepr) + Footprint(metrics[key])
    }

    twostate lemma AddedSeries(key: string)
      requires OneMore(key) && metrics[key].Valid() && unchanged(old(SeriesRepr))
      ensures SeriesValid() && Metrics() == old(Metrics())[key := metrics[key].View()]
    {
      hide Series.Valid, Series.View;
      AddedSeriesValid(key);
      forall k | k in old(metrics) ensures metrics[k].View() == old(Metrics())[k] { OneSeriesKept(k); }
    }

    twostate lemma AddedSeriesValid(key: string)
      requires OneMore(key) && metrics[key].Valid() && unchanged(old(SeriesRepr))
      ensures SeriesValid()
    {
      forall k | k in old(metrics) ensures metrics[k].Valid() && Footprint(metrics[k]) <= old(SeriesRepr) {
        OneSeriesKept(k);
      }
    }

    twostate lemma OneSeriesKept(k: string)
      requires old(SeriesValid()) && k in old(metrics) && unchanged(old(SeriesRepr))
      ensures old(metrics)[k].Valid() && Footprint(old(metrics)[k]) <= old(SeriesRepr)
      ensures old(metrics)[k].View() == old(Metrics())[k]
    {
      assert Footprint(old(metrics)[k]) <= old(SeriesRepr);
    }

    twostate lemma KeepOtherSeries(key: string)
      requires old(SeriesValid()) && key in metrics && metrics[key].Valid()
      requires metrics == old(metrics) && SeriesRepr == old(SeriesRepr)
      requires unchanged(SeriesRepr - Footprint(metrics[key]))
      ensures SeriesValid() && Metrics() == old(Metrics())[key := metrics[key].View()]
    {
      hide Series.Valid, Series.View;
      forall k | k in metrics && k != key
        ensures metrics[k].Valid() && metrics[k].View() == old(metrics[k].View())
      {
        assert Footprint(metrics[k]) <= SeriesRepr - Footprint(metrics[key]);
      }
    }

    method PushSample(key: string, e: MetricEvent)
      requires Valid() && key in metrics
      modifies metrics[key], metrics[key].values, metrics[key].values.buf
      ensures Valid()
      ensures View() == old(View()).(metrics := old(View()).metrics[key := PushV(old(View()).metrics[key], e)])
    {
      hide PushV, Series.Valid, Series.View, SeriesValid;
      assert Footprint(metrics[key]) <= SeriesRepr by { InSeriesRepr(key); }
      PushInto(key, e);
    }

    lemma InSeriesRepr(key: string)
      requires SeriesValid() && key in metrics
      ensures Footprint(metrics[key]) <= SeriesRepr
    {
    }

    method PushInto(key: string, e: MetricEvent)
      requires SeriesValid() && key in metrics && this !in SeriesRepr
      modifies metrics[key], metrics[key].values, metrics[key].values.buf
      ensures SeriesValid() && Metrics() == old(Metrics())[key := PushV(old(Metrics())[key], e)]
    {
      hide PushV;
      metrics[key].Push(e);
      KeepOtherSeries(key);
    }

    static lemma KeptMetric(v: ServiceV, e: MetricEvent, now: int)
      ensures PushService(v, PushedMetric(e, now)) == Record(AddSample(v, e), TimeOrNow(e.timestamp, now), false)
    {
    }

    static lemma KeptSpan(v: ServiceV, s: Span, now: int)
      ensures PushService(v, PushedSpan(s, now))
           == Record(v.(traces := AddV(v.traces, s)), TimeOrNow(End(s), now), s.status == StatusError)
    {
    }

    static lemma SampleAdded(v: ServiceV, key: string, e: MetricEvent, s: SeriesV)
      requires s == SeriesOr(v.metrics, key, e)
      ensures var w := v.(metrics := v.metrics[key := s]);
              w.(metrics := w.metrics[key := PushV(w.metrics[key], e)]) == AddSampleUnder(v, key, e)
    {
    }

    method KeepUnder(key: string, e: MetricEvent)
      requires Valid()
      modifies this`metrics, this`SeriesRepr, this`Repr, SeriesRepr
      ensures Valid() && fresh(Repr - old(Repr)) && old(Repr) <= Repr
      ensures View() == AddSampleUnder(old(View()), key, e)
    {
      ghost var v := View();
      var series := SeriesFor(key, e);
      SampleAdded(v, key, e, series.View());
      PushSample(key, e);
    }

    method KeepMetric(e: MetricEvent)
      requires Valid()
      modifies this`metrics, this`SeriesRepr, this`Repr, SeriesRepr
      ensures Valid() && fresh(Repr - old(Repr)) && old(Repr) <= Repr
      ensures View() == AddSample(old(View()), e)
    {
      hide Valid, View, AddSampleUnder;
      var key := MetricKey(e.name, e.labels);
      KeepUnder(key, e);
    }

    method AddMetric(e: MetricEvent, now: int)
      requires Valid()
      modifies Repr
      ensures Valid() && fresh(Repr - old(Repr)) && old(Repr) <= Repr
      ensures View() == PushService(old(View()), PushedMetric(e, now))
    {
      hide SeriesValid, View, AddSample, PushService;
      ghost var v := View();
      KeepMetric(e);
      KeptMetric(v, e, now);
      RecordEvent(TimeOrNow(e.timestamp, now), false);
    }

    method Status(now: int) returns (r: ServiceStatus)
      requires Valid()
      ensures r == StatusOf(View(), now)
    {
      var cutoff := now - 5 * SECOND;
      var recent := events.Slice();
      var ev := CountNewer(recent, cutoff);
      recent := errors.Slice();
      var er := CountNewer(recent, cutoff);
      var rate := 0.0;
      if ev > 0 {
        rate := er as real / ev as real;
      }
      r := ServiceStatus(lastSeen, ev as real / 5.0, rate, lastSeen != 0 && now - lastSeen <= 10 * SECOND);
    }

    method AddLog(e: LogEvent, now: int)
      requires Valid()
      modifies Repr
      ensures Valid() && fresh(Repr - old(Repr)) && old(Repr) <= Repr
      ensures View() == PushService(old(View()), PushedLog(e, now))
    {
      KeepLog(e);
      RecordEvent(TimeOrNow(e.timestamp, now), e.level == "ERROR");
    }

    method KeepLog(e: LogEvent)
      requires Valid()
      modifies logs, logs.buf
      ensures Valid()
      ensures View() == old(View()).(logs := LastN(old(View()).logs + [e], DEFAULT_LOG_CAPACITY))
    {
      hide SeriesValid, Metrics;
      logs.Push(e);
      KeepSeries();
    }

    method AddSpan(s: Span, now: int)
      requires Valid()
      modifies Repr
      ensures Valid() && fresh(Repr - old(Repr)) && old(Repr) <= Repr
      ensures View() == PushService(old(View()), PushedSpan(s, now))
    {
      KeptSpan(View(), s, now);
      KeepSpan(s);
      RecordEvent(TimeOrNow(s.start + s.duration, now), s.status == StatusError);
    }

    method KeepSpan(s: Span)
      requires Valid()
      modifies this`Repr, traces, traces.traces.Values
      ensures Valid() && fresh(Repr - old(Repr)) && old(Repr) <= Repr
      ensures View() == old(View()).(traces := AddV(old(View()).traces, s))
    {
      hide SeriesValid, Metrics, AddV;
      traces.Add(s);
      Repr := Repr + traces.traces.Values;
      KeepSeries();
      KeepRings();
    }
  }

  /** How many of the times are later than the cutoff. */
  method CountNewer(times: seq<int>, cutoff: int) returns (n: nat)
    ensures n == CountAfter(times, cutoff)
  {
    n := 0;
    for i := 0 to |times|
      invariant n == CountAfter(times[..i], cutoff)
    {
      assert times[..i + 1][..i] == times[..i];
      if times[i] > cutoff {
        n := n + 1;
      }
    }
    assert times[..|times|] == times;
  }

  class Store {
    var services: map<string, ServiceState>
    ghost var Repr: set<object>

    ghost predicate Valid()
      reads this, Repr
      ensures Valid() ==> this in Repr
    {
      && this in Repr
      && (forall n :: n in services ==>
            services[n] in Repr && services[n].Repr <= Repr && this !in services[n].Repr && services[n].Valid())
      && (forall m, n :: m in services && n in services && m != n ==> services[m].Repr !! services[n].Repr)
    }

    ghost function View(): StoreV
      requires Valid()
      reads this, Repr
    {
      map n | n in services :: services[n].View()
    }

    constructor ()
      ensures Valid() && fresh(Repr) && View() == map[]
    {
      services := map[];
      Repr := {this};
    }

    /** The names of all services, in order. */
    method Services() returns (names: seq<string>)
      requires Valid()
      ensures names == SortedKeys(View().Keys)
    {
      names := SortedKeysOf(services.Keys);
      assert services.Keys == View().Keys;
    }

    /** The state of a service, created on first sight; the empty name stands for "unknown". */
    method ServiceFor(name: string) returns (st: ServiceState)
      requires Valid()
      modifies this
      ensures Valid() && fresh(Repr - old(Repr)) && old(Repr) <= Repr
      ensures ServiceName(name) in services && services[ServiceName(name)] == st
      ensures ServiceName(name) in old(services) ==> services == old(services)
      ensures st.View() == ServiceIn(old(View()), ServiceName(name))
      ensures View() == old(View())[ServiceName(name) := st.View()]
    {
      hide ServiceState.Valid, ServiceState.View;
      var n := if name == "" then "unknown" else name;
      if n in services {
        st := services[n];
        KeptService(View(), n);
      } else {
        st := NewService(n);
      }
    }

    static lemma KeptService(v: StoreV, n: string)
      requires n in v
      ensures v[n := v[n]] == v
    {
    }

    method NewService(n: string) returns (st: ServiceState)
      requires Valid() && n !in services
      modifies this
      ensures Valid() && fresh(Repr - old(Repr)) && old(Repr) <= Repr
      ensures services == old(services)[n := st] && st.Valid()
      ensures st.View() == NEW_SERVICE && View() == old(View())[n := NEW_SERVICE]
    {
      hide ServiceState.Valid, ServiceState.View;
      st := new ServiceState();
      Install(n, st);
    }

    method Install(n: string, st: ServiceState)
      requires Valid() && n !in services && st.Valid() && st.Repr !! Repr
      modifies this
      ensures Valid() && Repr == old(Repr) + st.Repr && services == old(services)[n := st]
      ensures st.View() == old(st.View()) && View() == old(View())[n := st.View()]
    {
      hide ServiceState.Valid, ServiceState.View;
      services := services[n := st];
      Repr := Repr + st.Repr;
      Installed(n);
    }

    twostate lemma Installed(n: string)
      requires old(Valid()) && n in services && n !in old(services) && services == old(services)[n := services[n]]
      requires Valid() && forall m :: m in old(services) ==> unchanged(old(services[m].Repr))
      ensures View() == old(View())[n := services[n].View()]
    {
      hide ServiceState.Valid, ServiceState.View;
      forall m | m in old(services) ensures services[m].View() == old(View())[m] { SameService(m); }
      OneMoreService(old(View()), View(), n);
    }

    static lemma OneMoreService(v: StoreV, w: StoreV, n: string)
      requires w.Keys == v.Keys + {n} && forall m :: m in v && m != n ==> w[m] == v[m]
      ensures w == v[n := w[n]]
    {
    }

    twostate lemma SameService(m: string)
      requires old(Valid()) && m in old(services) && unchanged(old(services[m].Repr))
      ensures old(services)[m].Valid() && old(services)[m].Repr == old(services[m].Repr)
      ensures old(services)[m].View() == old(View())[m]
    {
    }

    /** Of the store's objects only those of one service have changed, and it may own new ones. */
    twostate predicate OnlyService(name: string)
      reads this, Repr
    {
      && old(Valid()) && name in services && services == old(services)
      && this in Repr && services[name] in Repr && services[name].Repr <= Repr
      && Repr == old(Repr) + services[name].Repr
      && services[name].Valid()
      && fresh(services[name].Repr - old(services[name].Repr))
    }

    ghost function OtherObjects(name: string): set<object>
      requires name in services
      reads this, services[name]
    {
      Repr - {this} - services[name].Repr
    }

    twostate lemma OneReplacedValid(name: string)
      requires OnlyService(name)
      requires name in old(services) && unchanged(old(OtherObjects(name)))
      ensures Valid()
    {
      hide ServiceState.Valid, ServiceState.View;
      forall m | m in services && m != name
        ensures services[m].Valid() && services[m].Repr == old(services[m].Repr)
      {
        assert old(services[m].Repr) <= old(OtherObjects(name));
        SameService(m);
      }
    }

    twostate lemma OneReplaced(name: string)
      requires OnlyService(name)
      requires name in old(services) && unchanged(old(OtherObjects(name)))
      ensures Valid()
      ensures View() == old(View())[name := services[name].View()]
    {
      hide ServiceState.Valid, ServiceState.View;
      OneReplacedValid(name);
      forall m | m in services && m != name ensures services[m].View() == old(View())[m] {
        assert old(services[m].Repr) <= old(OtherObjects(name));
        SameService(m);
      }
    }

    method AddTo(n: string, p: Push)
      requires Valid() && n in services
      modifies Repr
      ensures Valid() && fresh(Repr - old(Repr)) && services == old(services)
      ensures View() == old(View())[n := PushService(old(View())[n], p)]
    {
      hide ServiceState.Valid, ServiceState.View, PushService;
      var st := services[n];
      st.Add(p);
      Adopt(st);
      OneReplaced(n);
    }

    /** Records that the store owns what the service owns now. */
    method Adopt(st: ServiceState)
      requires st.Valid() && this !in st.Repr
      modifies this`Repr
      ensures st.Valid() && st.View() == old(st.View()) && Repr == old(Repr) + st.Repr
    {
      Repr := Repr + st.Repr;
    }

    method Push(p: Push)
      requires Valid()
      modifies Repr
      ensures Valid() && fresh(Repr - old(Repr))
      ensures View() == PushStore(old(View()), p)
    {
      hide ServiceState.Valid, ServiceState.View, PushService, PushStore;
      var n := p.Service();
      ghost var v := View();
      var st := ServiceFor(n);
      ghost var s0 := st.View();
      AddTo(n, p);
      PushedInto(v, n, s0, View(), p);
    }

    static lemma PushedInto(v: StoreV, n: string, s0: ServiceV, x: StoreV, p: Push)
      requires n == p.Service() && s0 == ServiceIn(v, n)
      requires x == v[n := s0][n := PushService(s0, p)]
      ensures x == PushStore(v, p)
    {
    }

    method PushMetric(e: MetricEvent, now: int)
      requires Valid()
      modifies Repr
      ensures Valid() && fresh(Repr - old(Repr))
      ensures View() == PushStore(old(View()), PushedMetric(e, now))
    {
      Push(PushedMetric(e, now));
    }

    method PushSpan(s: Span, now: int)
      requires Valid()
      modifies Repr
      ensures Valid() && fresh(Repr - old(Repr))
      ensures View() == PushStore(old(View()), PushedSpan(s, now))
    {
      Push(PushedSpan(s, now));
    }

    method PushLog(e: LogEvent, now: int)
      requires Valid()
      modifies Repr
      ensures Valid() && fresh(Repr - old(Repr))
      ensures View() == PushStore(old(View()), PushedLog(e, now))
    {
      Push(PushedLog(e, now));
    }

    /** The activity of a service over the last five seconds; zero for a service never seen. */
    method GetStatus(name: string, now: int) returns (r: ServiceStatus)
      requires Valid()
      ensures r == if name in View() then StatusOf(View()[name], now) else ServiceStatus(0, 0.0, 0.0, false)
    {
      if name !in services {
        return ServiceStatus(0, 0.0, 0.0, false);
      }
      var st := services[name];
      r := st.Status(now);
    }
  }
}
