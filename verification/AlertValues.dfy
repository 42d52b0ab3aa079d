// What the messages say: internal/alert/engine.go, onBreach and onClear, and internal/alert/rule.go, Compare.
module AlertValues {
  import opened Common
  import opened AlertModel
  import opened AlertMessages
  import opened AlertTiming
  import opened AlertRuns

  /** The value tick n observed for the key, if it observed one. */
  function ValueAt(ticks: seq<Tick>, key: string, n: nat): Option<real>
    requires n < |ticks|
  {
    var o := ObsFor(ticks[n].obs, key);
    if o.None? then None else o.value.value
  }

  /** What a message sent at a breach says of the observation. */
  lemma BreachSays(p: Option<PendingV>, o: Obs, value: real, now: int)
    ensures var r := BreachEntry(p, o, value, now).1;
            r == [] || r == [Fired(Alert(o.rule, o.service, value, now, None))]
  {
  }

  lemma OneAppended(s: seq<Msg>, t: seq<Msg>, m: Msg)
    requires s + t == s + [m]
    ensures t == [m]
  {
    assert (s + t)[|s|..] == t && (s + [m])[|s|..] == [m];
  }

  /** A Fired message carries the rule and service of the observation that tick made for the key, the value observed,
      the time of the tick, and no resolution. */
  lemma FiredSays(ticks: seq<Tick>, key: string, rule: Rule, n: nat)
    requires KeyRun(ticks, key, rule) && n < |ticks| && FiresAt(ticks, key, n)
    ensures var o := ObsFor(ticks[n].obs, key);
            && o.Some? && o.value.value.Some?
            && Sent(ticks, key, n + 1) == Sent(ticks, key, n)
               + [Fired(Alert(rule, o.value.service, o.value.value.value, ticks[n].now, None))]
  {
    StepAt(ticks, key, rule, n);
    var p, o := EntryAfter(ticks, key, n), ObsFor(ticks[n].obs, key);
    var r := KeyStep(p, o, ticks[n].now);
    var a :| Sent(ticks, key, n + 1) == Sent(ticks, key, n) + [Fired(a)];
    OneAppended(Sent(ticks, key, n), r.1, Fired(a));
    if o.Some? && o.value.value.Some? { BreachSays(p, o.value, o.value.value.value, ticks[n].now); }
  }

  /** A Resolved message repeats the alert last fired for the key, with the time of the tick as its resolution and the
      value that tick observed, or zero when it observed none. */
  lemma ResolvedSays(ticks: seq<Tick>, key: string, rule: Rule, n: nat)
    requires KeyRun(ticks, key, rule) && n < |ticks| && ResolvesAt(ticks, key, n)
    ensures var sent := Sent(ticks, key, n);
            && sent != [] && sent[|sent| - 1].Fired?
            && var f, v := sent[|sent| - 1].alert, ValueAt(ticks, key, n);
               Sent(ticks, key, n + 1) == sent
               + [Resolved(Alert(f.rule, f.service, if v.Some? then v.value else 0.0, f.firedAt, Some(ticks[n].now)))]
  {
    StepAt(ticks, key, rule, n);
    var p, o, sent := EntryAfter(ticks, key, n), ObsFor(ticks[n].obs, key), Sent(ticks, key, n);
    var r := KeyStep(p, o, ticks[n].now);
    var a :| Sent(ticks, key, n + 1) == sent + [Resolved(a)];
    OneAppended(sent, r.1, Resolved(a));
    RunDisciplined(ticks[..n]);
    assert EntryMatches(p, sent);
    if p.Some? && p.value.fired { LastOfAlternating(sent); }
  }

  // ---- what a breach is --------------------------------------------------------------------------------

  /** A tick breaches exactly when it observed a value and that value stands to the threshold as the operator says;
      an unknown operator never breaches. */
  lemma BreachMeans(ticks: seq<Tick>, key: string, rule: Rule, n: nat)
    requires KeyRun(ticks, key, rule) && n < |ticks|
    ensures var v := ValueAt(ticks, key, n);
            BreachAt(ticks, key, n) <==>
              && v.Some?
              && rule.op in (if v.value > rule.threshold then {">", ">=", "!="}
                             else if v.value < rule.threshold then {"<", "<=", "!="}
                             else {">=", "==", "<="})
  {
    OpsDiffer();
  }

  lemma OpsDiffer()
    ensures ">" != "<" && ">" != ">=" && ">" != "<=" && ">" != "==" && ">" != "!="
    ensures "<" != ">=" && "<" != "<=" && "<" != "==" && "<" != "!="
    ensures ">=" != "<=" && ">=" != "==" && ">=" != "!="
    ensures "<=" != "==" && "<=" != "!=" && "==" != "!="
  {
    assert |">"| == 1 && |"<"| == 1 && |">="| == 2 && |"<="| == 2 && |"=="| == 2 && |"!="| == 2;
    assert ">"[0] != "<"[0] && ">="[0] != "<="[0] && ">="[0] != "=="[0] && ">="[0] != "!="[0];
    assert "<="[0] != "=="[0] && "<="[0] != "!="[0] && "=="[0] != "!="[0];
  }

  /** A rule validates exactly when it has a name, a metric, a percentile from 0 to 100, and an operator under which
      some value breaches. */
  lemma ValidatesExactly(rule: Rule)
    ensures Validate(rule) == None <==>
              && rule.name != "" && rule.metric != "" && 0 <= rule.percentile <= 100
              && exists v: real :: Compare(v, rule.threshold, rule.op)
  {
    var t := rule.threshold;
    if rule.op in OPS {
      assert Compare(t - 1.0, t, rule.op) || Compare(t, t, rule.op) || Compare(t + 1.0, t, rule.op);
    }
  }
}
