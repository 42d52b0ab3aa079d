// The engine itself, with its table updated in place: internal/alert/engine.go.
module AlertEngine {
  import opened Common
  import opened SortedStrings
  import opened Percentiles
  import opened SeriesModel
  import opened AlertModel
  import opened AlertMessages
  import opened AlertStore
  import opened AlertLive
  import opened StoreSteps

  class Pending {
    var rule: Rule
    var service: string
    var firingSince: int
    var fired: bool
    var lastValue: real
    var firedAlert: Option<Alert>

    ghost function View(): PendingV
      reads this
    {
      PendingV(rule, service, firingSince, fired, lastValue, firedAlert)
    }

    constructor (rule: Rule, service: string, firingSince: int)
      ensures View() == PendingV(rule, service, firingSince, false, 0.0, None)
    {
      this.rule, this.service, this.firingSince := rule, service, firingSince;
      fired, lastValue, firedAlert := false, 0.0, None;
    }

    /** Records a breach; returns the alert when this one fires it. */
    method Breach(rule: Rule, svc: string, value: real, now: int) returns (alert: Option<Alert>)
      modifies this
      ensures var r := BreachEntry(Some(old(View())), Obs(rule, svc, Some(value)), value, now);
              View() == r.0 && r.1 == if alert.Some? then [Fired(alert.value)] else []
    {
      lastValue := value;
      var already := fired;
      var shouldFire := !already && now - firingSince >= rule.hold;
      alert := None;
      if shouldFire {
        alert := Some(Alert(rule, svc, value, now, None));
        fired := true;
        firedAlert := alert;
      }
    }
  }

  datatype Notification = Notification(notifier: string, alert: Alert)

  /** The notifiers one message reaches: those it names that are configured, in order. */
  function Calls(names: seq<string>, notifiers: set<string>, a: Alert): seq<Notification> {
    if names == [] then []
    else
      var init, last := Calls(names[..|names| - 1], notifiers, a), names[|names| - 1];
      if last in notifiers then init + [Notification(last, a)] else init
  }

  /** The notifier calls that a message history stands for. */
  function CallsOf(sent: seq<Msg>, notifiers: set<string>): seq<Notification> {
    if sent == [] then []
    else
      var init, last := sent[..|sent| - 1], sent[|sent| - 1];
      CallsOf(init, notifiers) + Calls(last.alert.rule.notify, notifiers, last.alert)
  }

  function Configured(notifiers: set<string>): string -> bool { name => name in notifiers }

  /** Exactly the names that are configured are called with the alert, as often as they are named and in that order. */
  lemma {:induction false} CallsAre(names: seq<string>, notifiers: set<string>, a: Alert)
    ensures var known, calls := Filter(names, Configured(notifiers)), Calls(names, notifiers, a);
            |calls| == |known| && forall i :: 0 <= i < |calls| ==> calls[i] == Notification(known[i], a)
  {
    if names != [] { CallsAre(names[..|names| - 1], notifiers, a); }
  }

  ghost predicate IsCall(c: Notification, m: Msg, notifiers: set<string>) {
    c.alert == m.alert && c.notifier in m.alert.rule.notify && c.notifier in notifiers
  }

  /** Every message, fired or resolved, calls each configured notifier its rule names, with its own alert; there are no
      other calls. */
  lemma {:induction false} EveryMessageNotifies(sent: seq<Msg>, notifiers: set<string>, c: Notification)
    ensures c in CallsOf(sent, notifiers) <==> exists m :: m in sent && IsCall(c, m, notifiers)
  {
    if sent != [] {
      var init, last := sent[..|sent| - 1], sent[|sent| - 1];
      EveryMessageNotifies(init, notifiers, c);
      CalledBy(last, notifiers, c);
      assert sent == init + [last];
      hide Calls, IsCall;
      if m :| m in init && IsCall(c, m, notifiers) { assert m in sent; }
    }
  }

  lemma CalledBy(m: Msg, notifiers: set<string>, c: Notification)
    ensures c in Calls(m.alert.rule.notify, notifiers, m.alert) <==> IsCall(c, m, notifiers)
  {
    var names := m.alert.rule.notify;
    CallsAre(names, notifiers, m.alert);
    FilterMember(names, c.notifier, Configured(notifiers));
    hide Calls;
    var known := Filter(names, Configured(notifiers));
    if c.alert == m.alert && c.notifier in known {
      var i :| 0 <= i < |known| && known[i] == c.notifier;
      assert Calls(names, notifiers, m.alert)[i] == c;
    }
  }

  /** The series is named by the key it lies under: the engine holds a reference, so it reads whatever has been pushed
      into that series since. */
  method FindSeries(metrics: Metrics, metricName: string) returns (found: Option<string>)
    ensures FindsKey(metrics, metricName, found)
    ensures metricName in metrics ==> found == Some(metricName)
    ensures found.None? <==> metricName !in metrics && forall k :: k in metrics ==> metrics[k].name != metricName
    ensures found.Some? ==> found.value in metrics
    ensures found.Some? && metricName !in metrics ==> metrics[found.value].name == metricName
  {
    if metricName in metrics { return Some(metricName); }
    var rest := metrics.Keys;
    while rest != {}
      invariant rest <= metrics.Keys
      invariant forall k :: k in metrics && k !in rest ==> metrics[k].name != metricName
      decreases |rest|
    {
      var k :| k in rest;
      if metrics[k].name == metricName { return Some(k); }
      rest := rest - {k};
    }
    return None;
  }

  lemma ComputedRank(values: seq<real>, p: int)
    ensures p == 100 && values != [] ==>
              var v := PercentileOf(values, 100.0); v in values && forall x :: x in values ==> x <= v
    ensures 0 < p < 100 && values != [] ==>
              var v, k := PercentileOf(values, p as real), Ceil(p as real / 100.0 * |values| as real);
              v in values && CountAtMost(values, v) >= k > CountBelow(values, v)
  {
    hide PercentileOf, CountAtMost, CountBelow, Ceil;
    if values != [] {
      if p == 100 { PercentileEnds(values, 100.0); }
      if 0 < p < 100 { NearestRank(values, p as real); }
    }
  }

  /** sized is the series when its length is asked, read the series when its value is. */
  method ComputeValue(sized: SeriesV, read: SeriesV, p: int) returns (v: Option<real>)
    ensures v == ValueOf(sized, read, p)
    ensures v.None? <==> sized.values == []
    ensures v.Some? && p == 0 ==> v.value == read.last
    ensures v.Some? && p == 100 && read.values != [] ==>
              v.value in read.values && forall x :: x in read.values ==> x <= v.value
    ensures v.Some? && 0 < p < 100 && read.values != [] ==>
              var k := Ceil(p as real / 100.0 * |read.values| as real);
              v.value in read.values && CountAtMost(read.values, v.value) >= k > CountBelow(read.values, v.value)
  {
    hide PercentileOf, CountAtMost, CountBelow, Ceil;
    if |sized.values| == 0 { return None; }
    if p == 0 { return Some(read.last); }
    ComputedRank(read.values, p);
    var q := Percentile(read.values, p as real);
    return Some(q);
  }

  class Engine {
    const rules: seq<Rule>
    const notifiers: set<string>
    var firing: map<string, Pending>
    var sent: seq<Msg>             // every message dispatched to the bus
    var called: seq<Notification>  // every notifier call started

    ghost predicate Valid()
      reads this, firing.Values
      ensures Valid() ==> called == CallsOf(sent, notifiers)
    {
      && (forall j, k :: j in firing && k in firing && firing[j] == firing[k] ==> j == k)
      && called == CallsOf(sent, notifiers)
    }

    ghost function Table(): map<string, PendingV>
      reads this`firing, firing.Values
    {
      map k | k in firing :: firing[k].View()
    }

    ghost function View(): State
      reads this, firing.Values
    {
      State(Table(), sent)
    }

    constructor (rules: seq<Rule>, notifiers: set<string>)
      ensures Valid() && View() == INIT && firing == map[]
      ensures this.rules == rules && this.notifiers == notifiers
    {
      this.rules, this.notifiers := rules, notifiers;
      firing, sent, called := map[], [], [];
    }

    method Dispatch(m: Msg)
      requires Valid()
      modifies this`sent, this`called
      ensures Valid() && sent == old(sent) + [m]
    {
      sent := sent + [m];
      var calls := FanoutNotify(m.alert.rule.notify, m.alert);
      called := called + calls;
    }

    method FanoutNotify(names: seq<string>, a: Alert) returns (calls: seq<Notification>)
      ensures calls == Calls(names, notifiers, a)
    {
      calls := [];
      for i := 0 to |names|
        invariant calls == Calls(names[..i], notifiers, a)
      {
        assert names[..i + 1][..i] == names[..i];
        if names[i] in notifiers {
          calls := calls + [Notification(names[i], a)];
        }
      }
      assert names[..|names|] == names;
    }

    /** A fired-but-unresolved snapshot of every entry, in any order. */
    method Active() returns (out: map<string, Alert>)
      requires Valid()
      ensures out == ActiveOf(View())
    {
      out := map k | k in firing && firing[k].fired && firing[k].firedAlert.Some? :: firing[k].firedAlert.value;
    }

    method Lookup(key: string, rule: Rule, service: string, now: int) returns (p: Pending)
      requires Valid()
      modifies this`firing
      ensures Valid() && key in firing && firing[key] == p
      ensures fresh(firing.Values - old(firing.Values))
      ensures p.View() ==
              if key in old(firing) then old(Table())[key] else PendingV(rule, service, now, false, 0.0, None)
      ensures Table() == old(Table())[key := p.View()]
    {
      if key in firing {
        p := firing[key];
        ghost var t := Table();
        assert t[key := t[key]] == t;
      } else {
        p := new Pending(rule, service, now);
        assert p !in firing.Values;
        firing := firing[key := p];
      }
    }

    /** The locked part of onBreach: the entry is created or updated in place. */
    method Touch(rule: Rule, svc: string, key: string, value: real, now: int) returns (alert: Option<Alert>)
      requires Valid()
      modifies this`firing, firing.Values
      ensures Valid() && fresh(firing.Values - old(firing.Values))
      ensures var r := BreachEntry(Entry(old(View()), key), Obs(rule, svc, Some(value)), value, now);
              Table() == old(Table())[key := r.0] && r.1 == if alert.Some? then [Fired(alert.value)] else []
    {
      var p := Lookup(key, rule, svc, now);
      ghost var table, entry := Table(), p.View();
      alert := p.Breach(rule, svc, value, now);
      assert firing.Keys == table.Keys;
      Overwrite(old(Table()), table, Table(), key, entry);
    }

    static lemma Overwrite(
      t: map<string, PendingV>, u: map<string, PendingV>, v: map<string, PendingV>, key: string, e: PendingV)
      requires u == t[key := e] && v.Keys == u.Keys && forall k :: k in u && k != key ==> v[k] == u[k]
      ensures v == t[key := v[key]]
    {
    }

    method OnBreach(rule: Rule, svc: string, key: string, value: real, now: int)
      requires Valid()
      modifies this, firing.Values
      ensures Valid() && fresh(firing.Values - old(firing.Values))
      ensures View() == AlertModel.OnBreach(old(View()), Obs(rule, svc, Some(value)), key, value, now)
    {
      var alert := Touch(rule, svc, key, value, now);
      if alert.Some? {
        Dispatch(Fired(alert.value));
      }
    }

    method OnClear(key: string, value: real, now: int)
      requires Valid()
      modifies this
      ensures Valid() && firing.Values <= old(firing.Values)
      ensures View() == AlertModel.OnClear(old(View()), key, value, now)
    {
      hide AlertModel.OnClear;
      if key !in firing {
        Absent(View(), key, value, now);
        return;
      }
      var p := firing[key];
      var wasFired := p.fired;
      var resolved := ZERO_ALERT;
      if wasFired && p.firedAlert.Some? {
        resolved := p.firedAlert.value.(resolvedAt := Some(now), value := value);
      }
      firing := firing - {key};
      if wasFired {
        Dispatch(Resolved(resolved));
      }
      Cleared(old(View()), View(), key, value, now, resolved);
    }

    static lemma Absent(st: State, key: string, value: real, now: int)
      requires key !in st.firing
      ensures AlertModel.OnClear(st, key, value, now) == st
    {
    }

    static lemma Cleared(st: State, after: State, key: string, value: real, now: int, resolved: Alert)
      requires key in st.firing && after.firing == st.firing - {key}
      requires after.sent == if st.firing[key].fired then st.sent + [Resolved(resolved)] else st.sent
      requires var p := st.firing[key];
               p.fired ==> resolved == if p.firedAlert.None? then ZERO_ALERT
                                       else p.firedAlert.value.(resolvedAt := Some(now), value := value)
      ensures after == AlertModel.OnClear(st, key, value, now)
    {
    }

    /** What the rule sees of the service. */
    static method ObserveService(rule: Rule, svc: string, look: Look) returns (value: Option<real>)
      requires Growing(look)
      ensures Observes(look, Obs(rule, svc, value))
    {
      hide FindsKey, ValueOf, Growing;
      var metrics := MetricsOf(look.listed, svc);
      var found := FindSeries(metrics, rule.metric);
      if found.None? {
        value := None;
      } else {
        StillThere(look, svc, found.value);
        var sized, read := look.sized[svc].metrics[found.value], look.read[svc].metrics[found.value];
        value := ComputeValue(sized, read, rule.percentile);
      }
      assert Sees(look, Obs(rule, svc, value), found);
    }

    /** One rule against one service: the observation made, and its effect. */
    method EvaluateOne(rule: Rule, svc: string, look: Look, now: int) returns (breached: bool, ghost o: Obs)
      requires Valid() && Growing(look)
      modifies this, firing.Values
      ensures Valid() && fresh(firing.Values - old(firing.Values))
      ensures o.rule == rule && o.service == svc && Observes(look, o) && breached == Breaches(o)
      ensures View() == Observe(old(View()), o, now)
    {
      hide Observes, Growing, Valid, View;
      var value := ObserveService(rule, svc, look);
      breached, o := false, Obs(rule, svc, value);
      if value.None? { return; }
      var key := rule.name + "::" + svc;
      breached := Compare(value.value, rule.threshold, rule.op);
      if breached {
        OnBreach(rule, svc, key, value.value, now);
      } else {
        OnClear(key, value.value, now);
      }
    }

    static lemma StillThere(look: Look, svc: string, key: string)
      requires Growing(look) && key in MetricsOf(look.listed, svc)
      ensures svc in look.sized && key in look.sized[svc].metrics
      ensures svc in look.read && key in look.read[svc].metrics
    {
      assert MetricsGrow(look.listed[svc].metrics, look.sized[svc].metrics);
      assert MetricsGrow(look.sized[svc].metrics, look.read[svc].metrics);
    }

    /** One rule against every service, in order; looks are the stores met for each. */
    method EvaluateRule(rule: Rule, services: seq<string>, looks: seq<Look>, now: int)
      returns (seen: set<string>, ghost obs: seq<Obs>)
      requires Valid() && |looks| == |services| && AllGrowing(looks)
      modifies this, firing.Values
      ensures Valid() && fresh(firing.Values - old(firing.Values))
      ensures Matches(looks, Row(rule, services), obs) && seen == Seen(obs)
      ensures View() == ObserveAll(old(View()), obs, now)
    {
      seen, obs := {}, [];
      for j := 0 to |services|
        invariant Valid() && fresh(firing.Values - old(firing.Values))
        invariant |obs| == j && Matches(looks[..j], Row(rule, services)[..j], obs) && seen == Seen(obs)
        invariant View() == ObserveAll(old(View()), obs, now)
      {
        var breached, o := EvaluateOne(rule, services[j], looks[j], now);
        MatchesNext(looks, Row(rule, services), j, obs, o);
        SeenNext(obs, o);
        if breached { seen := seen + {rule.name + "::" + services[j]}; }
        assert (obs + [o])[..j] == obs;
        obs := obs + [o];
      }
      assert Row(rule, services)[..|services|] == Row(rule, services) && looks[..|services|] == looks;
    }

    /** Every rule against every service. */
    method EvaluateRules(services: seq<string>, looks: seq<seq<Look>>, now: int)
      returns (seen: set<string>, ghost obs: seq<Obs>)
      requires Valid() && |looks| == |rules|
      requires forall i :: 0 <= i < |looks| ==> |looks[i]| == |services| && AllGrowing(looks[i])
      modifies this, firing.Values
      ensures Valid() && fresh(firing.Values - old(firing.Values))
      ensures Matches(Flat(looks), Pairs(rules, services), obs) && seen == Seen(obs)
      ensures View() == ObserveAll(old(View()), obs, now)
    {
      seen, obs := {}, [];
      for i := 0 to |rules|
        invariant Valid() && fresh(firing.Values - old(firing.Values))
        invariant Matches(Flat(looks[..i]), Pairs(rules[..i], services), obs) && seen == Seen(obs)
        invariant View() == ObserveAll(old(View()), obs, now)
      {
        var s, row := EvaluateRule(rules[i], services, looks[i], now);
        MatchesRow(rules, services, looks, i, obs, row);
        SeenConcat(obs, row);
        ObserveConcat(old(View()), obs, row, now);
        seen, obs := seen + s, obs + row;
      }
      assert rules[..|rules|] == rules && looks[..|rules|] == looks;
    }

    /** One tick. names are the services the store lists first; looks[i][j] is the store as met for rule i and
        service j, which may have grown since. The ghost result records what was observed and the order in
        which stale entries were met. */
    method EvaluateOnce(names: set<string>, looks: seq<seq<Look>>, now: int) returns (ghost tick: Tick)
      requires Valid() && |looks| == |rules|
      requires forall i :: 0 <= i < |looks| ==> |looks[i]| == |names| && AllGrowing(looks[i])
      modifies this, firing.Values
      ensures Valid() && fresh(firing.Values - old(firing.Values))
      ensures tick.now == now && TickObserves(names, Flat(looks), rules, tick.obs)
      ensures ValidTick(old(View()), tick) && View() == Evaluate(old(View()), tick)
    {
      hide Valid, View, Matches, Flat, Pairs, ObserveAll, ClearAll, Seen;
      var services := SortedKeysOf(names);
      var seen, obs := EvaluateRules(services, looks, now);
      var stale := CollectStale(seen);
      ClearStale(stale, now);
      tick := Tick(obs, stale, now);
    }

    /** The ticker's loop: one evaluation after the other, each over what the store answers to it. */
    method RunTicks(inputs: seq<TickInput>) returns (ghost ticks: seq<Tick>)
      requires Valid() && View() == INIT
      requires forall n :: 0 <= n < |inputs| ==> Fits(inputs[n], |rules|)
      modifies this, firing.Values
      ensures Valid() && |ticks| == |inputs| && ValidRun(ticks) && View() == Run(ticks)
      ensures forall n :: 0 <= n < |ticks| ==> Answers(inputs[n], rules, ticks[n])
    {
      ticks := [];
      for n := 0 to |inputs|
        invariant Valid() && fresh(firing.Values - old(firing.Values))
        invariant |ticks| == n && ValidRun(ticks) && View() == Run(ticks)
        invariant forall m :: 0 <= m < n ==> Answers(inputs[m], rules, ticks[m])
      {
        hide Valid, View, Answers, Evaluate, TickObserves;
        ghost var tick := EvaluateOnce(inputs[n].names, inputs[n].looks, inputs[n].now);
        assert Answers(inputs[n], rules, tick) by { IsAnswer(inputs[n], rules, tick); }
        RunPush(ticks, tick);
        ticks := ticks + [tick];
      }
    }

    /** The fired entries that no breach touched this tick, in map order. */
    method CollectStale(seen: set<string>) returns (stale: seq<string>)
      requires Valid()
      ensures NoDup(stale)
      ensures forall k :: k in stale <==> k in View().firing && View().firing[k].fired && k !in seen
    {
      stale := [];
      var rest := firing.Keys;
      while rest != {}
        invariant rest <= firing.Keys && NoDup(stale)
        invariant forall k :: k in stale <==> k in firing && k !in rest && firing[k].fired && k !in seen
        decreases |rest|
      {
        var k :| k in rest;
        if k !in seen && firing[k].fired {
          stale := stale + [k];
        }
        rest := rest - {k};
      }
    }

    method ClearStale(stale: seq<string>, now: int)
      requires Valid()
      modifies this
      ensures Valid() && firing.Values <= old(firing.Values)
      ensures View() == ClearAll(old(View()), stale, now)
    {
      for i := 0 to |stale|
        invariant Valid() && firing.Values <= old(firing.Values)
        invariant View() == ClearAll(old(View()), stale[..i], now)
      {
        assert stale[..i + 1][..i] == stale[..i];
        OnClear(stale[i], 0.0, now);
      }
      assert stale[..|stale|] == stale;
    }
  }

  ghost predicate AllGrowing(looks: seq<Look>) { forall j :: 0 <= j < |looks| ==> Growing(looks[j]) }

  /** What the store answers during one tick: the services, and the contents for each rule and service. */
  datatype TickInput = TickInput(names: set<string>, looks: seq<seq<Look>>, now: int)

  ghost predicate Fits(input: TickInput, rules: nat) {
    && |input.looks| == rules
    && forall i :: 0 <= i < |input.looks| ==> |input.looks[i]| == |input.names| && AllGrowing(input.looks[i])
  }

  /** The tick is the engine's reaction to these answers. */
  ghost predicate Answers(input: TickInput, rules: seq<Rule>, tick: Tick) {
    tick.now == input.now && TickObserves(input.names, Flat(input.looks), rules, tick.obs)
  }

  lemma IsAnswer(input: TickInput, rules: seq<Rule>, tick: Tick)
    requires tick.now == input.now && TickObserves(input.names, Flat(input.looks), rules, tick.obs)
    ensures Answers(input, rules, tick)
  {
  }

  lemma RunPush(ticks: seq<Tick>, tick: Tick)
    requires ValidRun(ticks) && ValidTick(Run(ticks), tick)
    ensures ValidRun(ticks + [tick]) && Run(ticks + [tick]) == Evaluate(Run(ticks), tick)
  {
    assert (ticks + [tick])[..|ticks|] == ticks;
    forall n | 0 <= n < |ticks + [tick]| ensures ValidTick(Run((ticks + [tick])[..n]), (ticks + [tick])[n]) {
      assert n < |ticks| ==> (ticks + [tick])[..n] == ticks[..n];
    }
  }

  // ---- the ticker over a live store ------------------------------------------------------------------------

  ghost function FoundIn(w: Look, o: Obs): (k: Option<string>)
    requires Observes(w, o)
    ensures Sees(w, o, k)
  {
    var k: Option<string> :| Sees(w, o, k);
    k
  }

  /** The answers were read from the store after these numbers of its writers' steps. */
  ghost predicate ReadFrom(input: TickInput, steps: seq<StoreStep>, names: nat, at: seq<Moment>) {
    && names <= |steps| && (forall i :: 0 <= i < |at| ==> InTime(at[i], names, |steps|))
    && input.names == AfterSteps(steps[..names]).Keys && Flat(input.looks) == LooksAt(steps, at)
  }

  lemma TickIsRead(input: TickInput, rules: seq<Rule>, tick: Tick, steps: seq<StoreStep>, names: nat, at: seq<Moment>)
    returns (r: Reading)
    requires Answers(input, rules, tick) && ReadFrom(input, steps, names, at)
    ensures TickReads(steps, rules, tick.obs, r) && r.names == names && r.at == at
  {
    var looks := Flat(input.looks);
    assert Matches(looks, Pairs(rules, SortedKeys(input.names)), tick.obs);
    var found := seq(|tick.obs|, i requires 0 <= i < |tick.obs| => FoundIn(looks[i], tick.obs[i]));
    r := Reading(names, at, found);
  }

  /** Whatever the engine's ticker does over a store that is written to meanwhile is a live run, so everything
      proved of live runs holds of it. */
  lemma {:induction false} TickerIsLive(
    inputs: seq<TickInput>, rules: seq<Rule>, ticks: seq<Tick>, steps: seq<StoreStep>, names: seq<nat>,
    at: seq<seq<Moment>>)
    returns (readings: seq<Reading>)
    requires |ticks| == |inputs| == |names| == |at| && ValidRun(ticks) && DistinctRules(rules) && Orderly(steps)
    requires forall n :: 0 <= n < |ticks| ==> Answers(inputs[n], rules, ticks[n])
    requires forall n :: 0 <= n < |ticks| ==> ReadFrom(inputs[n], steps, names[n], at[n])
    requires forall m, n :: 0 <= m < n < |ticks| ==>
               && names[m] <= names[n]
               && forall i, j :: 0 <= i < |at[m]| && 0 <= j < |at[n]| ==> at[m][i].read <= at[n][j].list
    ensures Live(ticks, rules, steps, readings)
  {
    hide TickReads, ReadFrom, Answers, ValidRun, DistinctRules, Orderly, Evaluate;
    readings := [];
    for n := 0 to |ticks|
      invariant |readings| == n
      invariant forall m :: 0 <= m < n ==>
                  && TickReads(steps, rules, ticks[m].obs, readings[m])
                  && readings[m].names == names[m] && readings[m].at == at[m]
    {
      var r := TickIsRead(inputs[n], rules, ticks[n], steps, names[n], at[n]);
      readings := readings + [r];
    }
  }

  function Flat(looks: seq<seq<Look>>): seq<Look> {
    if looks == [] then [] else Flat(looks[..|looks| - 1]) + looks[|looks| - 1]
  }

  lemma MatchesNext(looks: seq<Look>, pairs: seq<(Rule, string)>, j: nat, obs: seq<Obs>, o: Obs)
    requires j < |pairs| == |looks| && Matches(looks[..j], pairs[..j], obs)
    requires (o.rule, o.service) == pairs[j] && Observes(looks[j], o)
    ensures Matches(looks[..j + 1], pairs[..j + 1], obs + [o])
  {
    hide Observes;
  }

  lemma MatchesConcat(
    v: seq<Look>, p: seq<(Rule, string)>, a: seq<Obs>, w: seq<Look>, q: seq<(Rule, string)>, b: seq<Obs>)
    requires Matches(v, p, a) && Matches(w, q, b)
    ensures Matches(v + w, p + q, a + b)
  {
    hide Observes;
  }

  lemma MatchesRow(rules: seq<Rule>, services: seq<string>, looks: seq<seq<Look>>, i: nat, obs: seq<Obs>, row: seq<Obs>)
    requires i < |rules| == |looks|
    requires Matches(Flat(looks[..i]), Pairs(rules[..i], services), obs)
    requires Matches(looks[i], Row(rules[i], services), row)
    ensures Matches(Flat(looks[..i + 1]), Pairs(rules[..i + 1], services), obs + row)
  {
    hide Matches;
    assert rules[..i + 1][..i] == rules[..i] && looks[..i + 1][..i] == looks[..i];
    MatchesConcat(Flat(looks[..i]), Pairs(rules[..i], services), obs, looks[i], Row(rules[i], services), row);
  }

  lemma SeenNext(obs: seq<Obs>, o: Obs)
    ensures Seen(obs + [o]) == if Breaches(o) then Seen(obs) + {ObsKey(o)} else Seen(obs)
  {
    SeenConcat(obs, [o]);
    assert Breaches(o) ==> ObsKey([o][0]) in Seen([o]);
    assert Seen([o]) == if Breaches(o) then {ObsKey(o)} else {};
  }

  lemma SeenConcat(a: seq<Obs>, b: seq<Obs>)
    ensures Seen(a + b) == Seen(a) + Seen(b)
  {
    forall k | k in Seen(a) + Seen(b) ensures k in Seen(a + b) {
      if i :| 0 <= i < |a| && Breaches(a[i]) && ObsKey(a[i]) == k {
        assert (a + b)[i] == a[i];
      } else {
        var i :| 0 <= i < |b| && Breaches(b[i]) && ObsKey(b[i]) == k;
        assert (a + b)[|a| + i] == b[i];
      }
    }
  }

  lemma {:induction false} ObserveConcat(st: State, a: seq<Obs>, b: seq<Obs>, now: int)
    ensures ObserveAll(st, a + b, now) == ObserveAll(ObserveAll(st, a, now), b, now)
  {
    if b == [] {
      assert a + b == a;
    } else {
      ObserveConcat(st, a, b[..|b| - 1], now);
      assert (a + b)[..|a + b| - 1] == a + b[..|b| - 1];
    }
  }
}
