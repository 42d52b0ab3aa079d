// The alert state machine as functions of values: internal/alert/rule.go and engine.go.
module AlertModel {
  import opened Common

  /** Comparison operators are strings; anything else never holds. */
  type Op = string

  datatype Rule = Rule(
    name: string, metric: string, percentile: int, op: Op, threshold: real, hold: int, notify: seq<string>)

  datatype Alert = Alert(rule: Rule, service: string, value: real, firedAt: int, resolvedAt: Option<int>)

  datatype Msg = Fired(alert: Alert) | Resolved(alert: Alert)

  predicate Compare(value: real, threshold: real, op: Op) {
    if op == ">" then value > threshold
    else if op == "<" then value < threshold
    else if op == ">=" then value >= threshold
    else if op == "<=" then value <= threshold
    else if op == "==" then value == threshold
    else if op == "!=" then value != threshold
    else false
  }

  datatype RuleError = NameRequired | MetricRequired | BadPercentile | UnknownOp

  const OPS: set<Op> := {">", "<", ">=", "<=", "==", "!="}

  function Validate(r: Rule): Option<RuleError> {
    if r.name == "" then Some(NameRequired)
    else if r.metric == "" then Some(MetricRequired)
    else if r.percentile < 0 || r.percentile > 100 then Some(BadPercentile)
    else if r.op !in OPS then Some(UnknownOp)
    else None
  }

  function RuleKey(name: string, service: string): string { name + "::" + service }

  /** alertKey in the TUI, and the engine's key for the same rule and service. */
  function AlertKey(a: Alert): string { RuleKey(a.rule.name, a.service) }

  datatype PendingV = PendingV(
    rule: Rule, service: string, firingSince: int, fired: bool, lastValue: real, firedAlert: Option<Alert>)

  /** The engine's firing table and every message dispatched so far. */
  datatype State = State(firing: map<string, PendingV>, sent: seq<Msg>)

  const ZERO_RULE := Rule("", "", 0, "", 0.0, 0, [])
  const ZERO_ALERT := Alert(ZERO_RULE, "", 0.0, 0, None)

  /** One observation the engine makes in a tick: the value a rule sees for a service, if any. */
  datatype Obs = Obs(rule: Rule, service: string, value: Option<real>)

  function ObsKey(o: Obs): string { RuleKey(o.rule.name, o.service) }

  predicate Breaches(o: Obs) { o.value.Some? && Compare(o.value.value, o.rule.threshold, o.rule.op) }

  // ---- one entry ---------------------------------------------------------------------------

  /** An entry after a breach, and the message the breach sends. */
  function BreachEntry(p: Option<PendingV>, o: Obs, value: real, now: int): (PendingV, seq<Msg>) {
    var p0 := if p.Some? then p.value else PendingV(o.rule, o.service, now, false, 0.0, None);
    var p1 := p0.(lastValue := value);
    if !p1.fired && now - p1.firingSince >= o.rule.hold then
      var alert := Alert(o.rule, o.service, value, now, None);
      (p1.(fired := true, firedAlert := Some(alert)), [Fired(alert)])
    else (p1, [])
  }

  /** The message that clearing an entry sends. */
  function ClearMsgs(p: PendingV, value: real, now: int): seq<Msg> {
    if !p.fired then []
    else if p.firedAlert.None? then [Resolved(ZERO_ALERT)]
    else [Resolved(p.firedAlert.value.(resolvedAt := Some(now), value := value))]
  }

  function Entry(st: State, key: string): Option<PendingV> {
    if key in st.firing then Some(st.firing[key]) else None
  }

  function OnBreach(st: State, o: Obs, key: string, value: real, now: int): State {
    var r := BreachEntry(Entry(st, key), o, value, now);
    State(st.firing[key := r.0], st.sent + r.1)
  }

  function OnClear(st: State, key: string, value: real, now: int): State {
    if key !in st.firing then st
    else State(st.firing - {key}, st.sent + ClearMsgs(st.firing[key], value, now))
  }

  // ---- one tick ----------------------------------------------------------------------------

  function Observe(st: State, o: Obs, now: int): State {
    if o.value.None? then st
    else if Breaches(o) then OnBreach(st, o, ObsKey(o), o.value.value, now)
    else OnClear(st, ObsKey(o), o.value.value, now)
  }

  function ObserveAll(st: State, obs: seq<Obs>, now: int): State {
    if obs == [] then st
    else Observe(ObserveAll(st, obs[..|obs| - 1], now), obs[|obs| - 1], now)
  }

  function Seen(obs: seq<Obs>): set<string> {
    set i | 0 <= i < |obs| && Breaches(obs[i]) :: ObsKey(obs[i])
  }

  function ClearAll(st: State, keys: seq<string>, now: int): State {
    if keys == [] then st
    else OnClear(ClearAll(st, keys[..|keys| - 1], now), keys[|keys| - 1], 0.0, now)
  }

  /** A tick: what was observed, in order, and the order in which stale entries were collected. */
  datatype Tick = Tick(obs: seq<Obs>, stale: seq<string>, now: int)

  /** stale lists, once each, the fired entries that saw no breach this tick. */
  ghost predicate StaleOrder(st: State, obs: seq<Obs>, stale: seq<string>) {
    && NoDup(stale)
    && forall k :: k in stale <==> k in st.firing && st.firing[k].fired && k !in Seen(obs)
  }

  function Evaluate(st: State, t: Tick): State {
    ClearAll(ObserveAll(st, t.obs, t.now), t.stale, t.now)
  }

  ghost predicate ValidTick(st: State, t: Tick) {
    StaleOrder(ObserveAll(st, t.obs, t.now), t.obs, t.stale)
  }

  const INIT := State(map[], [])

  function Run(ticks: seq<Tick>): State {
    if ticks == [] then INIT else Evaluate(Run(ticks[..|ticks| - 1]), ticks[|ticks| - 1])
  }

  /** ticks is a run of the engine from start-up. */
  ghost predicate ValidRun(ticks: seq<Tick>) {
    forall n :: 0 <= n < |ticks| ==> ValidTick(Run(ticks[..n]), ticks[n])
  }

  // ---- the messages of one key ----------------------------------------------------------------

  function ForKey(key: string): Msg -> bool { (m: Msg) => AlertKey(m.alert) == key }

  function MsgsOf(sent: seq<Msg>, key: string): seq<Msg> { Filter(sent, ForKey(key)) }
}
