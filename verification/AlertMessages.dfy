// What the engine's messages look like over any run, and what a consumer can rebuild from them.
module AlertMessages {
  import opened Common
  import opened AlertModel

  /** (Fired Resolved)* with an optional trailing Fired; each Resolved closes the Fired before it. */
  ghost predicate Alternating(msgs: seq<Msg>) {
    forall i :: 0 <= i < |msgs| ==> InTurn(msgs, i)
  }

  ghost predicate InTurn(msgs: seq<Msg>, i: nat)
    requires i < |msgs|
  {
    if i % 2 == 0 then msgs[i].Fired? && msgs[i].alert.resolvedAt.None?
    else msgs[i].Resolved? && Closes(msgs[i].alert, msgs[i - 1].alert)
  }

  lemma AlternatingAppend(msgs: seq<Msg>, m: Msg)
    requires Alternating(msgs)
    requires InTurn(msgs + [m], |msgs|)
    ensures Alternating(msgs + [m])
  {
    forall i | 0 <= i < |msgs| ensures InTurn(msgs + [m], i) { assert InTurn(msgs, i); }
  }

  ghost predicate Closes(r: Alert, f: Alert) {
    && r.rule == f.rule && r.service == f.service && r.firedAt == f.firedAt && r.resolvedAt.Some?
  }

  /** The entry's fired flag and alert are exactly the last message sent for the key. */
  ghost predicate EntryMatches(p: Option<PendingV>, msgs: seq<Msg>) {
    && Alternating(msgs)
    && ((p.Some? && p.value.fired) <==> |msgs| % 2 == 1)
    && (p.Some? && p.value.fired ==> p.value.firedAlert == Some(msgs[|msgs| - 1].alert))
  }

  ghost predicate Disciplined(st: State) {
    forall key :: EntryMatches(Entry(st, key), MsgsOf(st.sent, key))
  }

  lemma SendOne(sent: seq<Msg>, m: Msg, key: string)
    ensures MsgsOf(sent + [m], key) == if AlertKey(m.alert) == key then MsgsOf(sent, key) + [m] else MsgsOf(sent, key)
  {
    FilterAppend(sent, m, ForKey(key));
  }

  lemma BreachEntryMatches(p: Option<PendingV>, msgs: seq<Msg>, o: Obs, value: real, now: int)
    requires EntryMatches(p, msgs)
    ensures var r := BreachEntry(p, o, value, now); EntryMatches(Some(r.0), msgs + r.1)
  {
    var r := BreachEntry(p, o, value, now);
    if r.1 == [] {
      assert msgs + r.1 == msgs;
    } else {
      AlternatingAppend(msgs, r.1[0]);
    }
  }

  lemma ClearEntryMatches(p: PendingV, msgs: seq<Msg>, value: real, now: int)
    requires EntryMatches(Some(p), msgs)
    ensures EntryMatches(None, msgs + ClearMsgs(p, value, now))
    ensures p.fired ==> msgs != [] && |ClearMsgs(p, value, now)| == 1
                        && AlertKey(ClearMsgs(p, value, now)[0].alert) == AlertKey(msgs[|msgs| - 1].alert)
  {
    var c := ClearMsgs(p, value, now);
    if c == [] {
      assert msgs + c == msgs;
    } else {
      assert InTurn(msgs, |msgs| - 1);
      AlternatingAppend(msgs, c[0]);
    }
  }

  /** Sending a key's own messages extends its history and no other. */
  lemma SendOwn(sent: seq<Msg>, msgs: seq<Msg>, own: string, key: string)
    requires |msgs| <= 1 && forall m :: m in msgs ==> AlertKey(m.alert) == own
    ensures key == own ==> MsgsOf(sent + msgs, key) == MsgsOf(sent, key) + msgs
    ensures key != own ==> MsgsOf(sent + msgs, key) == MsgsOf(sent, key)
  {
    if msgs == [] {
      assert sent + msgs == sent;
    } else {
      assert msgs == [msgs[0]];
      SendOne(sent, msgs[0], key);
    }
  }

  lemma BreachDisciplined(st: State, o: Obs, value: real, now: int)
    requires Disciplined(st)
    ensures Disciplined(OnBreach(st, o, ObsKey(o), value, now))
  {
    var st', own := OnBreach(st, o, ObsKey(o), value, now), ObsKey(o);
    var r := BreachEntry(Entry(st, own), o, value, now);
    forall key ensures EntryMatches(Entry(st', key), MsgsOf(st'.sent, key)) {
      assert EntryMatches(Entry(st, key), MsgsOf(st.sent, key));
      SendOwn(st.sent, r.1, own, key);
      if key == own { BreachEntryMatches(Entry(st, own), MsgsOf(st.sent, own), o, value, now); }
    }
  }

  lemma ClearDisciplined(st: State, own: string, value: real, now: int)
    requires Disciplined(st)
    ensures Disciplined(OnClear(st, own, value, now))
  {
    if own in st.firing {
      var st', p, msgs := OnClear(st, own, value, now), st.firing[own], MsgsOf(st.sent, own);
      assert EntryMatches(Entry(st, own), msgs);
      OwnLastMessage(st.sent, own);
      ClearEntryMatches(p, msgs, value, now);
      forall key ensures EntryMatches(Entry(st', key), MsgsOf(st'.sent, key)) {
        assert EntryMatches(Entry(st, key), MsgsOf(st.sent, key));
        SendOwn(st.sent, ClearMsgs(p, value, now), own, key);
      }
    }
  }

  lemma OwnLastMessage(sent: seq<Msg>, key: string)
    ensures forall m :: m in MsgsOf(sent, key) ==> AlertKey(m.alert) == key
  {
    forall m | m in MsgsOf(sent, key) ensures AlertKey(m.alert) == key { FilterMember(sent, m, ForKey(key)); }
  }

  lemma {:induction false} ObserveDisciplined(st: State, obs: seq<Obs>, now: int)
    requires Disciplined(st)
    ensures Disciplined(ObserveAll(st, obs, now))
  {
    if obs != [] {
      var init, o := obs[..|obs| - 1], obs[|obs| - 1];
      ObserveDisciplined(st, init, now);
      if o.value.Some? {
        BreachDisciplined(ObserveAll(st, init, now), o, o.value.value, now);
        ClearDisciplined(ObserveAll(st, init, now), ObsKey(o), o.value.value, now);
      }
    }
  }

  lemma {:induction false} StaleDisciplined(st: State, keys: seq<string>, now: int)
    requires Disciplined(st)
    ensures Disciplined(ClearAll(st, keys, now))
  {
    if keys != [] {
      StaleDisciplined(st, keys[..|keys| - 1], now);
      ClearDisciplined(ClearAll(st, keys[..|keys| - 1], now), keys[|keys| - 1], 0.0, now);
    }
  }

  /** Over any run whatever, with any rules, values and clock: for every key the messages alternate, each
      Resolved closes the Fired before it, and the entry is fired exactly when the last message is Fired. */
  lemma {:induction false} RunDisciplined(ticks: seq<Tick>)
    ensures Disciplined(Run(ticks))
  {
    if ticks != [] {
      var init, t := ticks[..|ticks| - 1], ticks[|ticks| - 1];
      RunDisciplined(init);
      ObserveDisciplined(Run(init), t.obs, t.now);
      StaleDisciplined(ObserveAll(Run(init), t.obs, t.now), t.stale, t.now);
    }
  }

  // ---- the TUI's mirror --------------------------------------------------------------------------

  type Mirror = map<string, Alert>

  function Apply(mirror: Mirror, m: Msg): Mirror {
    match m
    case Fired(a) => mirror[AlertKey(a) := a]
    case Resolved(a) => mirror - {AlertKey(a)}
  }

  function Replay(msgs: seq<Msg>): Mirror {
    if msgs == [] then map[] else Apply(Replay(msgs[..|msgs| - 1]), msgs[|msgs| - 1])
  }

  /** Replaying messages leaves exactly the keys whose last message is Fired, each with that alert. */
  lemma {:induction false} ReplayKeepsLastFired(sent: seq<Msg>, key: string)
    ensures var msgs := MsgsOf(sent, key);
            if msgs != [] && msgs[|msgs| - 1].Fired?
            then key in Replay(sent) && Replay(sent)[key] == msgs[|msgs| - 1].alert
            else key !in Replay(sent)
  {
    if sent != [] {
      var init, m := sent[..|sent| - 1], sent[|sent| - 1];
      ReplayKeepsLastFired(init, key);
      assert sent == init + [m];
      SendOne(init, m, key);
    }
  }

  /** What Active returns, by key. */
  function ActiveOf(st: State): Mirror {
    map k | k in st.firing && st.firing[k].fired && st.firing[k].firedAlert.Some? :: st.firing[k].firedAlert.value
  }

  /** The alert list a viewer rebuilds from the messages alone is the engine's own active set, key by key,
      alert by alert, so the status bar's count is the number of active alerts. */
  lemma MirrorIsActive(ticks: seq<Tick>)
    ensures Replay(Run(ticks).sent) == ActiveOf(Run(ticks))
  {
    var st := Run(ticks);
    RunDisciplined(ticks);
    forall key
      ensures key in Replay(st.sent) <==> key in ActiveOf(st)
      ensures key in ActiveOf(st) ==> key in Replay(st.sent) && Replay(st.sent)[key] == ActiveOf(st)[key]
    {
      ReplayKeepsLastFired(st.sent, key);
      assert EntryMatches(Entry(st, key), MsgsOf(st.sent, key));
      LastOfAlternating(MsgsOf(st.sent, key));
    }
  }

  lemma LastOfAlternating(msgs: seq<Msg>)
    requires Alternating(msgs)
    ensures (msgs != [] && msgs[|msgs| - 1].Fired?) <==> |msgs| % 2 == 1
  {
    if msgs != [] { assert InTurn(msgs, |msgs| - 1); }
  }
}
