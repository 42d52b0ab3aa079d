// Alerts over a store that other threads push into while the engine runs: internal/alert/engine.go over
// internal/store/store.go.
module AlertLive {
  import opened Common
  import opened StoreSteps
  import opened AlertModel
  import opened AlertTiming
  import opened AlertRuns
  import opened AlertStore
  import opened AlertValues

  /** After how many of the writers' steps an observation listed the series, asked the length of the one it found, and
      read its value. */
  datatype Moment = Moment(list: nat, size: nat, read: nat)

  /** How one tick read the store: after how many steps it listed the services, when it made each observation, and
      under which key it found a series for it. */
  datatype Reading = Reading(names: nat, at: seq<Moment>, found: seq<Option<string>>)

  ghost predicate InTime(m: Moment, from: nat, to: nat) { from <= m.list <= m.size <= m.read <= to }

  /** The observations of a tick come from its readings. */
  ghost predicate TickReads(steps: seq<StoreStep>, rules: seq<Rule>, obs: seq<Obs>, r: Reading) {
    && r.names <= |steps|
    && |obs| == |r.at| == |r.found|
    && (forall i :: 0 <= i < |r.at| ==> InTime(r.at[i], r.names, |steps|))
    && TickObserves(AfterSteps(steps[..r.names]).Keys, LooksAt(steps, r.at), rules, obs)
    && (forall i :: 0 <= i < |obs| ==> Sees(LookAt(steps, r.at[i]), obs[i], r.found[i]))
  }

  /** The store as an observation at that moment meets it. */
  ghost function LookAt(steps: seq<StoreStep>, m: Moment): Look
    requires InTime(m, 0, |steps|)
  {
    Look(AfterSteps(steps[..m.list]), AfterSteps(steps[..m.size]), AfterSteps(steps[..m.read]))
  }

  ghost function LooksAt(steps: seq<StoreStep>, at: seq<Moment>): (v: seq<Look>)
    requires forall i :: 0 <= i < |at| ==> InTime(at[i], 0, |steps|)
    ensures |v| == |at| && forall i :: 0 <= i < |v| ==> v[i] == LookAt(steps, at[i])
  {
    seq(|at|, i requires 0 <= i < |at| => LookAt(steps, at[i]))
  }

  /** No tick reads before an earlier one has finished. */
  ghost predicate InOrder(readings: seq<Reading>) {
    forall m, n :: 0 <= m < n < |readings| ==>
      && readings[m].names <= readings[n].names
      && forall i, j :: 0 <= i < |readings[m].at| && 0 <= j < |readings[n].at| ==>
           readings[m].at[i].read <= readings[n].at[j].list
  }

  /** A run of the engine over a store whose writers take the given steps, interleaved in any way with the
      engine's reads. */
  ghost predicate Live(ticks: seq<Tick>, rules: seq<Rule>, steps: seq<StoreStep>, readings: seq<Reading>) {
    && ValidRun(ticks) && DistinctRules(rules) && Orderly(steps)
    && |readings| == |ticks| && InOrder(readings)
    && forall n :: 0 <= n < |ticks| ==> TickReads(steps, rules, ticks[n].obs, readings[n])
  }

  /** The tick's observation for the key asked the length of a series between its installation and its first sample. */
  ghost predicate LooksIntoGap(steps: seq<StoreStep>, obs: seq<Obs>, r: Reading, key: string) {
    exists i :: 0 <= i < |obs| && i < |r.at| && i < |r.found| && r.at[i].size <= |steps|
      && IsGapLook(steps, obs[i], r.at[i].size, r.found[i], key)
  }

  ghost predicate IsGapLook(steps: seq<StoreStep>, o: Obs, size: nat, found: Option<string>, key: string)
    requires size <= |steps|
  {
    ObsKey(o) == key && found.Some? && InGap(steps[..size], o.service, found.value)
  }

  lemma LiveTick(
    ticks: seq<Tick>, rules: seq<Rule>, steps: seq<StoreStep>, readings: seq<Reading>, rule: Rule, service: string,
    n: nat)
    requires Live(ticks, rules, steps, readings) && rule in rules && n < |ticks|
    ensures TickReads(steps, rules, ticks[n].obs, readings[n])
    ensures DistinctKeys(ticks[n].obs)
    ensures ObsFor(ticks[n].obs, RuleKey(rule.name, service)).Some? <==>
            service in AfterSteps(steps[..readings[n].names])
    ensures service in AfterSteps(steps[..readings[n].names]) ==>
              exists i :: 0 <= i < |ticks[n].obs| && IsOwn(ticks[n].obs, i, rule, service)
  {
    var r, obs := readings[n], ticks[n].obs;
    var v := AfterSteps(steps[..r.names]);
    TickKeys(v.Keys, LooksAt(steps, r.at), rules, obs, rule, service);
    if service in v {
      var i :| 0 <= i < |obs| && obs[i].rule == rule && obs[i].service == service
               && ObsFor(obs, RuleKey(rule.name, service)) == Some(obs[i]);
      assert IsOwn(obs, i, rule, service);
    }
  }

  /** Observation i is the one for this rule and service. */
  ghost predicate IsOwn(obs: seq<Obs>, i: nat, rule: Rule, service: string)
    requires i < |obs|
  {
    && obs[i].rule == rule && obs[i].service == service
    && ObsFor(obs, RuleKey(rule.name, service)) == Some(obs[i])
  }

  lemma LiveIsKeyRun(
    ticks: seq<Tick>, rules: seq<Rule>, steps: seq<StoreStep>, readings: seq<Reading>, rule: Rule, service: string)
    requires Live(ticks, rules, steps, readings) && rule in rules
    ensures KeyRun(ticks, RuleKey(rule.name, service), rule)
  {
    hide TickReads, InOrder, ObsFor, Orderly;
    forall n | 0 <= n < |ticks|
      ensures DistinctKeys(ticks[n].obs)
      ensures var o := ObsFor(ticks[n].obs, RuleKey(rule.name, service)); o.Some? ==> o.value.rule == rule
    {
      LiveTick(ticks, rules, steps, readings, rule, service, n);
    }
  }

  /** A series is empty exactly in its gap, so an observation that found one has a value exactly outside it. */
  lemma ValueUnlessGap(steps: seq<StoreStep>, o: Obs, at: Moment, found: Option<string>)
    requires Orderly(steps) && InTime(at, 0, |steps|) && Sees(LookAt(steps, at), o, found) && found.Some?
    ensures o.value.Some? <==> !InGap(steps[..at.size], o.service, found.value)
  {
    OrderlyPrefix(steps, at.size);
    SeriesHistory(steps[..at.size], o.service, found.value);
  }

  /** No other observation of the tick can carry the key. */
  lemma GapLookIsOwn(steps: seq<StoreStep>, obs: seq<Obs>, r: Reading, i: nat, rule: Rule, service: string)
    requires DistinctKeys(obs) && i < |obs| == |r.at| == |r.found| && r.at[i].size <= |steps|
    requires IsOwn(obs, i, rule, service) && r.found[i].Some?
    ensures LooksIntoGap(steps, obs, r, RuleKey(rule.name, service)) <==>
            InGap(steps[..r.at[i].size], service, r.found[i].value)
  {
    var key := RuleKey(rule.name, service);
    if InGap(steps[..r.at[i].size], service, r.found[i].value) {
      assert IsGapLook(steps, obs[i], r.at[i].size, r.found[i], key);
    }
    if LooksIntoGap(steps, obs, r, key) {
      var j :| 0 <= j < |obs| && j < |r.at| && j < |r.found| && r.at[j].size <= |steps|
               && IsGapLook(steps, obs[j], r.at[j].size, r.found[j], key);
      assert ObsKey(obs[i]) == key == ObsKey(obs[j]);
      assert i == j;
    }
  }

  /** What a tick that observed the key leaves behind: it found a series. */
  lemma ObservedFound(
    ticks: seq<Tick>, rules: seq<Rule>, steps: seq<StoreStep>, readings: seq<Reading>, rule: Rule, service: string,
    m: nat)
    returns (i: nat)
    requires Live(ticks, rules, steps, readings) && rule in rules && m < |ticks|
    requires ObservedAt(ticks, RuleKey(rule.name, service), m)
    ensures i < |ticks[m].obs| == |readings[m].at| == |readings[m].found|
    ensures InTime(readings[m].at[i], readings[m].names, |steps|)
    ensures service in AfterSteps(steps[..readings[m].names]) && readings[m].found[i].Some?
    ensures FindsKey(MetricsOf(AfterSteps(steps[..readings[m].at[i].list]), service), rule.metric, readings[m].found[i])
  {
    LiveTick(ticks, rules, steps, readings, rule, service, m);
    i :| 0 <= i < |ticks[m].obs| && IsOwn(ticks[m].obs, i, rule, service);
    assert Sees(LookAt(steps, readings[m].at[i]), ticks[m].obs[i], readings[m].found[i]);
  }

  /** Once a key has been observed, a later tick observes it too, unless it looks into a gap. */
  lemma ObservedUnlessGap(
    ticks: seq<Tick>, rules: seq<Rule>, steps: seq<StoreStep>, readings: seq<Reading>, rule: Rule, service: string,
    m: nat, n: nat)
    requires Live(ticks, rules, steps, readings) && rule in rules && m < n < |ticks|
    requires ObservedAt(ticks, RuleKey(rule.name, service), m)
    ensures ObservedAt(ticks, RuleKey(rule.name, service), n) <==>
            !LooksIntoGap(steps, ticks[n].obs, readings[n], RuleKey(rule.name, service))
  {
    var i := ObservedFound(ticks, rules, steps, readings, rule, service, m);
    var r, obs := readings[n], ticks[n].obs;
    LiveTick(ticks, rules, steps, readings, rule, service, n);
    StepsGrow(steps, readings[m].names, r.names);
    var j :| 0 <= j < |obs| && IsOwn(obs, j, rule, service);
    assert Sees(LookAt(steps, r.at[j]), obs[j], r.found[j]);
    assert readings[m].at[i].read <= r.at[j].list;
    StepsGrow(steps, readings[m].at[i].list, r.at[j].list);
    StillFound(AfterSteps(steps[..readings[m].at[i].list]), AfterSteps(steps[..r.at[j].list]), service, rule.metric,
               readings[m].found[i], r.found[j]);
    ValueUnlessGap(steps, obs[j], r.at[j], r.found[j]);
    GapLookIsOwn(steps, obs, r, j, rule, service);
  }

  /** The tick itself. */
  lemma ObservedIsNoGap(
    ticks: seq<Tick>, rules: seq<Rule>, steps: seq<StoreStep>, readings: seq<Reading>, rule: Rule, service: string,
    m: nat)
    requires Live(ticks, rules, steps, readings) && rule in rules && m < |ticks|
    requires ObservedAt(ticks, RuleKey(rule.name, service), m)
    ensures !LooksIntoGap(steps, ticks[m].obs, readings[m], RuleKey(rule.name, service))
  {
    LiveTick(ticks, rules, steps, readings, rule, service, m);
    var r, obs := readings[m], ticks[m].obs;
    var j :| 0 <= j < |obs| && IsOwn(obs, j, rule, service);
    assert Sees(LookAt(steps, r.at[j]), obs[j], r.found[j]);
    ValueUnlessGap(steps, obs[j], r.at[j], r.found[j]);
    GapLookIsOwn(steps, obs, r, j, rule, service);
  }

  /** No look for the key from tick m to tick n falls into a gap. */
  ghost predicate NoGapLooks(
    ticks: seq<Tick>, steps: seq<StoreStep>, readings: seq<Reading>, key: string, m: nat, n: nat)
    requires n < |ticks| == |readings|
  {
    forall i :: m <= i <= n ==> !LooksIntoGap(steps, ticks[i].obs, readings[i], key)
  }

  /** Over a live store, the ticks of a streak have all breached exactly when none of them looked at a series
      between its installation and its first sample. */
  lemma UnbrokenIff(
    ticks: seq<Tick>, rules: seq<Rule>, steps: seq<StoreStep>, readings: seq<Reading>, rule: Rule, service: string,
    m: nat, n: nat)
    requires Live(ticks, rules, steps, readings) && rule in rules && n < |ticks|
    requires Stands(ticks, RuleKey(rule.name, service), rule.hold, m, n)
    ensures AllBreach(ticks, RuleKey(rule.name, service), m, n) <==>
            NoGapLooks(ticks, steps, readings, RuleKey(rule.name, service), m, n)
  {
    var key := RuleKey(rule.name, service);
    forall i | m <= i <= n
      ensures BreachAt(ticks, key, i) <==> !LooksIntoGap(steps, ticks[i].obs, readings[i], key)
    {
      if i == m {
        ObservedIsNoGap(ticks, rules, steps, readings, rule, service, m);
      } else {
        assert ObservedAt(ticks, key, m) && !ClearAt(ticks, key, i);
        ObservedUnlessGap(ticks, rules, steps, readings, rule, service, m, i);
      }
    }
  }

  /** Over a live store, for every rule and service: the alert fires exactly at the first tick at which a streak
      has lasted for the hold time, every tick since the streak began having breached exactly when none of them
      looked into a gap; and it resolves exactly when such a streak ends. */
  lemma LiveAlerts(
    ticks: seq<Tick>, rules: seq<Rule>, steps: seq<StoreStep>, readings: seq<Reading>, rule: Rule, service: string,
    n: nat)
    requires Live(ticks, rules, steps, readings) && rule in rules && n < |ticks|
    ensures var key := RuleKey(rule.name, service);
            && (FiresAt(ticks, key, n) <==> exists m: nat :: m <= n && Ripens(ticks, key, rule.hold, m, n))
            && (forall m: nat :: m <= n && Ripens(ticks, key, rule.hold, m, n) ==>
                  (AllBreach(ticks, key, m, n) <==> NoGapLooks(ticks, steps, readings, key, m, n)))
            && (ResolvesAt(ticks, key, n) <==> exists m: nat :: m < n && Breaks(ticks, key, rule.hold, m, n))
  {
    var key := RuleKey(rule.name, service);
    LiveIsKeyRun(ticks, rules, steps, readings, rule, service);
    hide Live, FiresAt, ResolvesAt, KeyRun, AllBreach, NoGapLooks, Opens, Stands;
    FiresExactlyWhenRipe(ticks, key, rule, n);
    ResolvesExactlyWhenBroken(ticks, key, rule, n);
    forall m: nat | m <= n && Ripens(ticks, key, rule.hold, m, n)
      ensures AllBreach(ticks, key, m, n) <==> NoGapLooks(ticks, steps, readings, key, m, n)
    {
      UnbrokenIff(ticks, rules, steps, readings, rule, service, m, n);
    }
  }

  /** And what it fires with: the rule, the service, the time of the tick, and the value the tick read for them. */
  lemma LiveFiredSays(
    ticks: seq<Tick>, rules: seq<Rule>, steps: seq<StoreStep>, readings: seq<Reading>, rule: Rule, service: string,
    n: nat)
    requires Live(ticks, rules, steps, readings) && rule in rules && n < |ticks|
    requires FiresAt(ticks, RuleKey(rule.name, service), n)
    ensures var key, obs := RuleKey(rule.name, service), ticks[n].obs;
            exists i: nat ::
              && i < |obs| && IsOwn(obs, i, rule, service) && obs[i].value.Some?
              && Sent(ticks, key, n + 1) ==
                 Sent(ticks, key, n) + [Fired(Alert(rule, service, obs[i].value.value, ticks[n].now, None))]
  {
    var key, obs := RuleKey(rule.name, service), ticks[n].obs;
    LiveIsKeyRun(ticks, rules, steps, readings, rule, service);
    LiveTick(ticks, rules, steps, readings, rule, service, n);
    hide Live, KeyRun, FiresAt, Sent, ObsFor, TickReads;
    FiredSays(ticks, key, rule, n);
    var i: nat :| i < |obs| && IsOwn(obs, i, rule, service);
  }
}
