// When alerts fire and resolve, key by key, over whole runs of the engine.
module AlertTiming {
  import opened Common
  import opened AlertModel
  import opened AlertMessages

  /** What a tick observes for a key. */
  function ObsFor(obs: seq<Obs>, key: string): Option<Obs> {
    if obs == [] then None
    else if ObsKey(obs[|obs| - 1]) == key then Some(obs[|obs| - 1])
    else ObsFor(obs[..|obs| - 1], key)
  }

  ghost predicate DistinctKeys(obs: seq<Obs>) {
    forall i, j :: 0 <= i < j < |obs| ==> ObsKey(obs[i]) != ObsKey(obs[j])
  }

  // ---- the machine of a single key ---------------------------------------------------------------

  function Seeing(p: Option<PendingV>, o: Option<Obs>, now: int): (Option<PendingV>, seq<Msg>) {
    if o.None? || o.value.value.None? then (p, [])
    else if Breaches(o.value) then
      var r := BreachEntry(p, o.value, o.value.value.value, now);
      (Some(r.0), r.1)
    else (None, if p.Some? then ClearMsgs(p.value, o.value.value.value, now) else [])
  }

  function KeyStep(p: Option<PendingV>, o: Option<Obs>, now: int): (Option<PendingV>, seq<Msg>) {
    if o.Some? && o.value.value.Some? then Seeing(p, o, now)
    else if p.Some? && p.value.fired then (None, ClearMsgs(p.value, 0.0, now))
    else (p, [])
  }

  ghost predicate Effect(st: State, st': State, key: string, r: (Option<PendingV>, seq<Msg>)) {
    Entry(st', key) == r.0 && MsgsOf(st'.sent, key) == MsgsOf(st.sent, key) + r.1
  }

  lemma NoEffect(st: State, key: string)
    ensures Effect(st, st, key, (Entry(st, key), []))
  {
    assert MsgsOf(st.sent, key) + [] == MsgsOf(st.sent, key);
  }

  lemma ClearEffect(st: State, own: string, key: string, value: real, now: int)
    requires Disciplined(st)
    ensures key != own ==> Effect(st, OnClear(st, own, value, now), key, (Entry(st, key), []))
    ensures key == own ==> Effect(st, OnClear(st, own, value, now), key,
                             (None, if own in st.firing then ClearMsgs(st.firing[own], value, now) else []))
  {
    NoEffect(st, key);
    if own in st.firing {
      assert EntryMatches(Entry(st, own), MsgsOf(st.sent, own));
      OwnLastMessage(st.sent, own);
      ClearEntryMatches(st.firing[own], MsgsOf(st.sent, own), value, now);
      SendOwn(st.sent, ClearMsgs(st.firing[own], value, now), own, key);
      assert MsgsOf(st.sent, key) + [] == MsgsOf(st.sent, key);
    }
  }

  lemma ObserveEffect(st: State, o: Obs, key: string, now: int)
    requires Disciplined(st)
    ensures key != ObsKey(o) ==> Effect(st, Observe(st, o, now), key, (Entry(st, key), []))
    ensures key == ObsKey(o) ==> Effect(st, Observe(st, o, now), key, Seeing(Entry(st, key), Some(o), now))
  {
    NoEffect(st, key);
    if o.value.Some? {
      if Breaches(o) {
        var r := BreachEntry(Entry(st, ObsKey(o)), o, o.value.value, now);
        SendOwn(st.sent, r.1, ObsKey(o), key);
        assert MsgsOf(st.sent, key) + [] == MsgsOf(st.sent, key);
      } else {
        ClearEffect(st, ObsKey(o), key, o.value.value, now);
      }
    }
  }

  lemma {:induction false} ObsForAbsent(obs: seq<Obs>, key: string)
    requires forall i :: 0 <= i < |obs| ==> ObsKey(obs[i]) != key
    ensures ObsFor(obs, key) == None
  {
    if obs != [] { ObsForAbsent(obs[..|obs| - 1], key); }
  }

  lemma {:induction false} ObserveAllEffect(st: State, obs: seq<Obs>, key: string, now: int)
    requires Disciplined(st) && DistinctKeys(obs)
    ensures Effect(st, ObserveAll(st, obs, now), key, Seeing(Entry(st, key), ObsFor(obs, key), now))
  {
    if obs == [] {
      NoEffect(st, key);
    } else {
      var init, o := obs[..|obs| - 1], obs[|obs| - 1];
      hide Observe, Disciplined;
      ObserveAllEffect(st, init, key, now);
      ObserveDisciplined(st, init, now);
      ObserveEffect(ObserveAll(st, init, now), o, key, now);
      if key == ObsKey(o) { ObsForAbsent(init, key); }
    }
  }

  lemma {:induction false} ClearAllEffect(st: State, keys: seq<string>, key: string, now: int)
    requires Disciplined(st) && NoDup(keys)
    ensures key !in keys ==> Effect(st, ClearAll(st, keys, now), key, (Entry(st, key), []))
    ensures key in keys ==> Effect(st, ClearAll(st, keys, now), key,
                              (None, if key in st.firing then ClearMsgs(st.firing[key], 0.0, now) else []))
  {
    if keys == [] {
      NoEffect(st, key);
    } else {
      var init, last := keys[..|keys| - 1], keys[|keys| - 1];
      ClearAllEffect(st, init, key, now);
      StaleDisciplined(st, init, now);
      ClearEffect(ClearAll(st, init, now), last, key, 0.0, now);
      assert keys == init + [last] && last !in init;
    }
  }

  lemma {:induction false} SeenKey(obs: seq<Obs>, key: string)
    requires DistinctKeys(obs)
    ensures key in Seen(obs) <==> ObsFor(obs, key).Some? && Breaches(ObsFor(obs, key).value)
  {
    if obs != [] {
      var init, o := obs[..|obs| - 1], obs[|obs| - 1];
      SeenKey(init, key);
      assert forall i :: 0 <= i < |init| ==> init[i] == obs[i];
      if ObsKey(o) == key {
        ObsForAbsent(init, key);
        if key in Seen(obs) {
          var i :| 0 <= i < |obs| && Breaches(obs[i]) && ObsKey(obs[i]) == key;
        }
      } else if key in Seen(obs) {
        var i :| 0 <= i < |obs| && Breaches(obs[i]) && ObsKey(obs[i]) == key;
        assert Breaches(init[i]) && ObsKey(init[i]) == key;
      }
    }
  }

  /** A tick acts on each key alone: all rules and services together behave as one small machine per key. */
  lemma TickActsPerKey(st: State, t: Tick, key: string)
    requires Disciplined(st) && ValidTick(st, t) && DistinctKeys(t.obs)
    ensures Effect(st, Evaluate(st, t), key, KeyStep(Entry(st, key), ObsFor(t.obs, key), t.now))
  {
    var mid := ObserveAll(st, t.obs, t.now);
    ObserveAllEffect(st, t.obs, key, t.now);
    ObserveDisciplined(st, t.obs, t.now);
    SeenKey(t.obs, key);
    ClearAllEffect(mid, t.stale, key, t.now);
    assert key in t.stale <==> key in mid.firing && mid.firing[key].fired && key !in Seen(t.obs);
    var a, b := Seeing(Entry(st, key), ObsFor(t.obs, key), t.now).1, MsgsOf(st.sent, key);
    assert b + a + [] == b + a;
    assert a == [] ==> forall c: seq<Msg> :: b + a + c == b + c;
  }
}
