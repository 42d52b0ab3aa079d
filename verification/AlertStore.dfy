// What a rule observes in the store, and what one tick of the engine observes in all.
module AlertStore {
  import opened Common
  import opened Percentiles
  import opened SeriesModel
  import opened MetricKeys
  import opened SortedStrings
  import opened StoreModel
  import opened StoreSteps
  import opened AlertModel
  import opened AlertTiming

  type Metrics = map<string, SeriesV>

  /** findSeries, by key: the series stored under the bare metric name, or else any one with that name. */
  ghost predicate FindsKey(metrics: Metrics, metric: string, k: Option<string>) {
    if metric in metrics then k == Some(metric)
    else if k.Some? then k.value in metrics && metrics[k.value].name == metric
    else forall j :: j in metrics ==> metrics[j].name != metric
  }

  /** What computeValue compares: the last sample for percentile 0, else the percentile. */
  function Compared(s: SeriesV, percentile: int): real {
    if percentile == 0 then s.last else PercentileOf(s.values, percentile as real)
  }

  /** computeValue on a series as it is when its length is asked and when its value is read: nothing if it is empty
      the first time. */
  function ValueOf(sized: SeriesV, read: SeriesV, percentile: int): Option<real> {
    if sized.values == [] then None else Some(Compared(read, percentile))
  }

  /** The store as an observation meets it: when the series are listed, when the length of the one found is asked,
      and when its value is read. */
  datatype Look = Look(listed: StoreV, sized: StoreV, read: StoreV)

  ghost predicate Growing(w: Look) { Grows(w.listed, w.sized) && Grows(w.sized, w.read) }

  function MetricsOf(view: StoreV, service: string): Metrics {
    if service in view then view[service].metrics else map[]
  }

  /** The observation o, made by looking at the series under k, if any. */
  ghost predicate Sees(w: Look, o: Obs, k: Option<string>) {
    && FindsKey(MetricsOf(w.listed, o.service), o.rule.metric, k)
    && if k.None? then o.value == None
       else
         var sized, read := MetricsOf(w.sized, o.service), MetricsOf(w.read, o.service);
         && k.value in sized && k.value in read
         && o.value == ValueOf(sized[k.value], read[k.value], o.rule.percentile)
  }

  /** What one rule may observe for one service, given the store's contents. */
  ghost predicate Observes(w: Look, o: Obs) { exists k: Option<string> :: Sees(w, o, k) }

  /** A rule that has found a series for a service finds one in every later store. */
  lemma StillFound(v: StoreV, w: StoreV, service: string, metric: string, k: Option<string>, k': Option<string>)
    requires Grows(v, w) && k.Some?
    requires FindsKey(MetricsOf(v, service), metric, k) && FindsKey(MetricsOf(w, service), metric, k')
    ensures k'.Some?
  {
    assert k.value in MetricsOf(v, service) && service in v;
    assert MetricsGrow(v[service].metrics, w[service].metrics);
  }

  /** What a validated rule compares is one of the samples in the series' window exactly when it asks for a
      percentile, or the last value is such a sample. */
  lemma ValidatedValueIsSample(s: SeriesV, r: Rule)
    requires Validate(r) == None && s.values != []
    ensures Compared(s, r.percentile) in s.values <==> r.percentile != 0 || s.last in s.values
  {
    var p := r.percentile as real;
    if 0 < r.percentile < 100 {
      NearestRank(s.values, p);
    } else if r.percentile == 100 {
      PercentileEnds(s.values, p);
    }
  }

  /** The series of one service after complete pushes to the store and j steps of one more push. */
  ghost function MetricsMidPush(ps: seq<Push>, p: Push, j: nat, n: string): Metrics
    requires j <= |StepsOf(p)|
  {
    ServiceIn(AfterSteps(AllSteps(ps) + StepsOf(p)[..j]), n).metrics
  }

  lemma MidPushMetrics(ps: seq<Push>, p: Push, j: nat, n: string)
    requires j <= |StepsOf(p)|
    ensures MetricsMidPush(ps, p, j, n) ==
            if n == p.Service() && p.PushedMetric?
            then FoldService(ServiceIn(StoreAfter(ps), n), StepsOf(p)[..j]).metrics
            else ServiceIn(StoreAfter(ps), n).metrics
  {
    hide StoreAfter, AllSteps, StepsOf;
    var steps, sv := StepsOf(p)[..j], ServiceIn(StoreAfter(ps), p.Service());
    AllStepsMakePushes(ps);
    FoldConcat(map[], AllSteps(ps), steps);
    if j == 0 {
      assert steps == [];
      assert FoldSteps(StoreAfter(ps), steps) == StoreAfter(ps) && FoldService(sv, steps) == sv;
    } else {
      StepsStayIn(p, j);
      FoldWithin(StoreAfter(ps), p.Service(), steps);
      if !p.PushedMetric? { OtherPushes(sv, p, j); }
    }
    hide FoldSteps, FoldService;
  }

  /** With complete pushes behind it and at most one under way, a rule that reads a series with samples compares one
      of them, except in the one moment when the series has its very first sample but no last value yet: then
      percentile 0 reads zero. */
  lemma ComparesSampleUnlessFirst(ps: seq<Push>, p: Push, j: nat, n: string, r: Rule, key: string)
    requires j <= |StepsOf(p)| && Validate(r) == None
    requires key in MetricsMidPush(ps, p, j, n) && MetricsMidPush(ps, p, j, n)[key].values != []
    ensures var s, before := MetricsMidPush(ps, p, j, n)[key], ServiceIn(StoreAfter(ps), n).metrics;
            Compared(s, r.percentile) in s.values <==>
              !(r.percentile == 0 && j == 3 && n == p.Service() && p.PushedMetric? && p.metric.value != 0.0
                && key == KeyOf(p.metric.name, p.metric.labels) && key !in before)
  {
    var before := ServiceIn(StoreAfter(ps), n);
    PushesSettle(ps, n);
    MidPushMetrics(ps, p, j, n);
    hide MetricsMidPush;
    ValidatedValueIsSample(MetricsMidPush(ps, p, j, n)[key], r);
    if n == p.Service() && p.PushedMetric? {
      ReadMidPush(before, p, j);
      FirstMidPush(before, p, j, key);
    } else {
      SettledHeld(before.metrics);
    }
    hide *;
  }

  /** In that moment the series holds just the new sample, and zero. */
  lemma FirstMidPush(sv: ServiceV, p: Push, j: nat, key: string)
    requires Settled(sv.metrics) && p.PushedMetric? && j <= 6
    ensures j == 3 && key == KeyOf(p.metric.name, p.metric.labels) && key !in sv.metrics ==>
              var m := FoldService(sv, StepsOf(p)[..j]).metrics;
              key in m && HalfFilled(m[key], p.metric.value)
  {
    MidPush(sv, p, j);
    hide FoldService, StepsOf, KeyOf;
    if j == 3 && key == KeyOf(p.metric.name, p.metric.labels) { FilledHeld(sv.metrics, p.metric, key); }
  }

  /** The value compared: the last one for percentile 0, the largest sample for 100, and in between the sample with
      at least that share of the samples at or below it, and less below. */
  lemma ComparedIs(s: SeriesV, percentile: int)
    requires s.values != [] && 0 <= percentile <= 100
    ensures percentile == 0 ==> Compared(s, percentile) == s.last
    ensures percentile == 100 ==>
              Compared(s, percentile) in s.values && forall v :: v in s.values ==> v <= Compared(s, percentile)
    ensures 0 < percentile < 100 ==>
              var v, share := Compared(s, percentile), percentile as real / 100.0 * |s.values| as real;
              v in s.values && CountAtMost(s.values, v) as real >= share > CountBelow(s.values, v) as real
  {
    hide PercentileOf, CountAtMost, CountBelow;
    if 0 < percentile < 100 {
      NearestShare(s.values, percentile as real);
    } else if percentile == 100 {
      PercentileEnds(s.values, 100.0);
    }
  }

  /** What an observation says of the store: it has a value exactly when some listed series carries the metric's name,
      or lies under it, and the one looked at, the one under the bare name if there is one, had samples when asked. */
  lemma ObservedIs(w: Look, o: Obs)
    requires Observes(w, o)
    ensures o.value.Some? ==>
              exists k :: HasMetric(w.listed, o.service, o.rule.metric, k) && HasSeries(w.sized, o.service, k)
                          && HasSeries(w.read, o.service, k) && w.sized[o.service].metrics[k].values != []
                          && o.value.value == Compared(w.read[o.service].metrics[k], o.rule.percentile)
    ensures o.value.None? ==>
              || (forall k :: HasSeries(w.listed, o.service, k) ==>
                    k != o.rule.metric && w.listed[o.service].metrics[k].name != o.rule.metric)
              || exists k :: HasMetric(w.listed, o.service, o.rule.metric, k) && HasSeries(w.sized, o.service, k)
                             && w.sized[o.service].metrics[k].values == []
  {
    var k: Option<string> :| Sees(w, o, k);
    if k.Some? { assert HasMetric(w.listed, o.service, o.rule.metric, k.value); }
  }

  ghost predicate HasSeries(v: StoreV, service: string, k: string) { service in v && k in v[service].metrics }

  /** The series under k is one to look at for the metric: the one under the bare name, or when there is none, one that
      carries it. */
  ghost predicate HasMetric(v: StoreV, service: string, metric: string, k: string) {
    && HasSeries(v, service, k)
    && (k == metric || (!HasSeries(v, service, metric) && v[service].metrics[k].name == metric))
  }

  // ---- one tick of the engine ----------------------------------------------------------------------

  function Row(rule: Rule, services: seq<string>): (r: seq<(Rule, string)>)
    ensures |r| == |services|
  {
    seq(|services|, j requires 0 <= j < |services| => (rule, services[j]))
  }

  /** Every rule with every service, in the order of the engine's nested loops. */
  function Pairs(rules: seq<Rule>, services: seq<string>): seq<(Rule, string)> {
    if rules == [] then [] else Pairs(rules[..|rules| - 1], services) + Row(rules[|rules| - 1], services)
  }

  function PairKey(p: (Rule, string)): string { RuleKey(p.0.name, p.1) }

  /** Observation i is of pair i, made on the store as the engine met it for that pair. */
  ghost predicate Matches(looks: seq<Look>, pairs: seq<(Rule, string)>, obs: seq<Obs>) {
    && |obs| == |pairs| == |looks|
    && forall i :: 0 <= i < |obs| ==> (obs[i].rule, obs[i].service) == pairs[i] && Observes(looks[i], obs[i])
  }

  /** The observations of one tick: one for each rule and each service known when the tick began. The store may
      change between and during them, so each has its own look. */
  ghost predicate TickObserves(names: set<string>, looks: seq<Look>, rules: seq<Rule>, obs: seq<Obs>) {
    Matches(looks, Pairs(rules, SortedKeys(names)), obs)
  }

  /** Rules with different names, none containing a colon. */
  ghost predicate DistinctRules(rules: seq<Rule>) {
    && (forall i :: 0 <= i < |rules| ==> ':' !in rules[i].name)
    && (forall i, j :: 0 <= i < j < |rules| ==> rules[i].name != rules[j].name)
  }

  /** Rule names without a colon keep rule and service apart in the key. */
  lemma KeysDoNotCollide(n1: string, s1: string, n2: string, s2: string)
    requires ':' !in n1 && ':' !in n2 && RuleKey(n1, s1) == RuleKey(n2, s2)
    ensures n1 == n2 && s1 == s2
  {
    assert RuleKey(n1, s1) == n1 + [':'] + ([':'] + s1);
    assert RuleKey(n2, s2) == n2 + [':'] + ([':'] + s2);
    UntilStops(n1, ':', [':'] + s1);
    UntilStops(n2, ':', [':'] + s2);
    assert RuleKey(n1, s1)[|n1| + 2..] == s1 && RuleKey(n2, s2)[|n1| + 2..] == s2;
  }

  lemma {:induction false} PairMember(rules: seq<Rule>, services: seq<string>, p: (Rule, string))
    ensures p in Pairs(rules, services) <==> p.0 in rules && p.1 in services
  {
    if rules != [] {
      var init, last := rules[..|rules| - 1], rules[|rules| - 1];
      PairMember(init, services, p);
      assert rules == init + [last];
      assert p in Row(last, services) <==> p.0 == last && p.1 in services by {
        if p.0 == last && p.1 in services {
          var j :| 0 <= j < |services| && services[j] == p.1;
          assert Row(last, services)[j] == p;
        }
      }
    }
  }

  lemma {:induction false} PairsDistinct(rules: seq<Rule>, services: seq<string>)
    requires DistinctRules(rules) && NoDup(services)
    ensures forall i, j :: 0 <= i < j < |Pairs(rules, services)| ==>
              PairKey(Pairs(rules, services)[i]) != PairKey(Pairs(rules, services)[j])
  {
    if rules != [] {
      var init, last := rules[..|rules| - 1], rules[|rules| - 1];
      PairsDistinct(init, services);
      var a, b := Pairs(init, services), Row(last, services);
      forall i, j | 0 <= i < j < |a + b| ensures PairKey((a + b)[i]) != PairKey((a + b)[j]) {
        var p, q := (a + b)[i], (a + b)[j];
        if j >= |a| {
          if i < |a| { EarlierRule(init, last, services, p); }
          if PairKey(p) == PairKey(q) {
            assert ':' !in p.0.name;
            KeysDoNotCollide(p.0.name, p.1, q.0.name, q.1);
          }
        }
      }
    }
  }

  lemma EarlierRule(init: seq<Rule>, last: Rule, services: seq<string>, p: (Rule, string))
    requires DistinctRules(init + [last]) && p in Pairs(init, services)
    ensures p.0.name != last.name && ':' !in p.0.name
  {
    PairMember(init, services, p);
    var i :| 0 <= i < |init| && init[i] == p.0;
    assert (init + [last])[i] == p.0 && (init + [last])[|init|] == last;
  }

  /** With distinct rules no two observations of a tick share a key. */
  lemma TickDistinct(names: set<string>, looks: seq<Look>, rules: seq<Rule>, obs: seq<Obs>)
    requires TickObserves(names, looks, rules, obs) && DistinctRules(rules)
    ensures DistinctKeys(obs)
  {
    var pairs := Pairs(rules, SortedKeys(names));
    SortedKeysNoDup(names);
    PairsDistinct(rules, SortedKeys(names));
    forall i, j | 0 <= i < j < |obs| ensures ObsKey(obs[i]) != ObsKey(obs[j]) {
      assert PairKey(pairs[i]) != PairKey(pairs[j]);
    }
  }

  /** A tick observes each key by its own rule, exactly when it knows the service. */
  lemma {:induction false} TickKeys(
    names: set<string>, looks: seq<Look>, rules: seq<Rule>, obs: seq<Obs>, rule: Rule, service: string)
    requires TickObserves(names, looks, rules, obs) && DistinctRules(rules) && rule in rules
    ensures DistinctKeys(obs)
    ensures ObsFor(obs, RuleKey(rule.name, service)).Some? <==> service in names
    ensures service in names ==>
              exists i :: 0 <= i < |obs| && obs[i].rule == rule && obs[i].service == service
                          && ObsFor(obs, RuleKey(rule.name, service)) == Some(obs[i])
  {
    var services, key := SortedKeys(names), RuleKey(rule.name, service);
    var pairs := Pairs(rules, services);
    TickDistinct(names, looks, rules, obs);
    PairMember(rules, services, (rule, service));
    if service in names {
      var i :| 0 <= i < |pairs| && pairs[i] == (rule, service);
      assert (obs[i].rule, obs[i].service) == pairs[i];
      ObsForUnique(obs, key, i);
    } else {
      UnknownService(names, looks, rules, obs, rule, service);
      ObsForAbsent(obs, key);
    }
  }

  lemma UnknownService(
    names: set<string>, looks: seq<Look>, rules: seq<Rule>, obs: seq<Obs>, rule: Rule, service: string)
    requires TickObserves(names, looks, rules, obs) && DistinctRules(rules) && rule in rules && service !in names
    ensures forall i :: 0 <= i < |obs| ==> ObsKey(obs[i]) != RuleKey(rule.name, service)
  {
    var services := SortedKeys(names);
    var pairs := Pairs(rules, services);
    forall i | 0 <= i < |obs| ensures ObsKey(obs[i]) != RuleKey(rule.name, service) {
      PairMember(rules, services, pairs[i]);
      assert ':' !in obs[i].rule.name;
      if ObsKey(obs[i]) == RuleKey(rule.name, service) {
        KeysDoNotCollide(obs[i].rule.name, obs[i].service, rule.name, service);
      }
    }
  }

  lemma {:induction false} ObsForUnique(obs: seq<Obs>, key: string, i: nat)
    requires DistinctKeys(obs) && i < |obs| && ObsKey(obs[i]) == key
    ensures ObsFor(obs, key) == Some(obs[i])
  {
    if i < |obs| - 1 { ObsForUnique(obs[..|obs| - 1], key, i); }
  }
}
