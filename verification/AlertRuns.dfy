// Exactly when an alert fires and resolves, in terms of what the ticks observed.
module AlertRuns {
  import opened Common
  import opened AlertModel
  import opened AlertMessages
  import opened AlertTiming

  ghost predicate ObservedAt(ticks: seq<Tick>, key: string, n: nat)
    requires n < |ticks|
  {
    var o := ObsFor(ticks[n].obs, key);
    o.Some? && o.value.value.Some?
  }

  ghost predicate BreachAt(ticks: seq<Tick>, key: string, n: nat)
    requires n < |ticks|
  {
    var o := ObsFor(ticks[n].obs, key);
    o.Some? && Breaches(o.value)
  }

  ghost predicate ClearAt(ticks: seq<Tick>, key: string, n: nat)
    requires n < |ticks|
  {
    ObservedAt(ticks, key, n) && !BreachAt(ticks, key, n)
  }

  /** Messages for the key when tick n has been evaluated. */
  function Sent(ticks: seq<Tick>, key: string, n: nat): seq<Msg>
    requires n <= |ticks|
  {
    MsgsOf(Run(ticks[..n]).sent, key)
  }

  ghost predicate FiresAt(ticks: seq<Tick>, key: string, n: nat)
    requires n < |ticks|
  {
    exists a :: Sent(ticks, key, n + 1) == Sent(ticks, key, n) + [Fired(a)]
  }

  ghost predicate ResolvesAt(ticks: seq<Tick>, key: string, n: nat)
    requires n < |ticks|
  {
    exists a :: Sent(ticks, key, n + 1) == Sent(ticks, key, n) + [Resolved(a)]
  }

  /** A run of an engine whose keys are distinct, and whose rule for this key is fixed. */
  ghost predicate KeyRun(ticks: seq<Tick>, key: string, rule: Rule) {
    && ValidRun(ticks)
    && (forall n :: 0 <= n < |ticks| ==> DistinctKeys(ticks[n].obs))
    && (forall n :: 0 <= n < |ticks| && ObsFor(ticks[n].obs, key).Some? ==>
          ObsFor(ticks[n].obs, key).value.rule == rule)
  }

  function EntryAfter(ticks: seq<Tick>, key: string, n: nat): Option<PendingV>
    requires n <= |ticks|
  {
    Entry(Run(ticks[..n]), key)
  }

  lemma StepAt(ticks: seq<Tick>, key: string, rule: Rule, n: nat)
    requires KeyRun(ticks, key, rule) && n < |ticks|
    ensures var r := KeyStep(EntryAfter(ticks, key, n), ObsFor(ticks[n].obs, key), ticks[n].now);
            EntryAfter(ticks, key, n + 1) == r.0 && Sent(ticks, key, n + 1) == Sent(ticks, key, n) + r.1
  {
    RunDisciplined(ticks[..n]);
    assert ticks[..n + 1][..n] == ticks[..n];
    assert ValidTick(Run(ticks[..n]), ticks[n]);
    TickActsPerKey(Run(ticks[..n]), ticks[n], key);
  }

  // ---- streaks -----------------------------------------------------------------------------------

  /** Some breach from m to n came at least the hold time after tick m. */
  ghost predicate RipeBy(ticks: seq<Tick>, key: string, hold: int, m: nat, n: nat)
    requires n < |ticks| && m <= n
  {
    exists i :: m <= i <= n && BreachAt(ticks, key, i) && ticks[i].now - ticks[m].now >= hold
  }

  /** A streak begun by the breach at m still stands after tick n: no tick has observed the condition cleared,
      and no tick has missed the key once the streak was ripe. A tick that misses it earlier does no harm. */
  ghost predicate Stands(ticks: seq<Tick>, key: string, hold: int, m: nat, n: nat)
    requires n < |ticks|
  {
    && m <= n && BreachAt(ticks, key, m)
    && (forall i :: m < i <= n ==> !ClearAt(ticks, key, i))
    && (forall i :: m < i <= n && !ObservedAt(ticks, key, i) ==> !RipeBy(ticks, key, hold, m, i - 1))
  }

  /** Tick m begins a streak: it breaches, and no earlier streak still stands. */
  ghost predicate Opens(ticks: seq<Tick>, key: string, hold: int, m: nat)
    requires m < |ticks|
  {
    BreachAt(ticks, key, m) && forall l :: 0 <= l < m && Opens(ticks, key, hold, l) ==> !Stands(ticks, key, hold, l, m)
  }

  /** Tick n is the first of the streak begun at m at which the hold time has passed. */
  ghost predicate Ripens(ticks: seq<Tick>, key: string, hold: int, m: nat, n: nat)
    requires n < |ticks|
  {
    && Stands(ticks, key, hold, m, n) && Opens(ticks, key, hold, m)
    && BreachAt(ticks, key, n) && ticks[n].now - ticks[m].now >= hold
    && (n == m || !RipeBy(ticks, key, hold, m, n - 1))
  }

  /** Tick n ends the streak begun at m, which was ripe. */
  ghost predicate Breaks(ticks: seq<Tick>, key: string, hold: int, m: nat, n: nat)
    requires n < |ticks|
  {
    && n > 0 && !BreachAt(ticks, key, n)
    && Stands(ticks, key, hold, m, n - 1) && Opens(ticks, key, hold, m) && RipeBy(ticks, key, hold, m, n - 1)
  }

  lemma StoodBefore(ticks: seq<Tick>, key: string, hold: int, m: nat, l: nat, n: nat)
    requires n < |ticks| && m <= l <= n && Stands(ticks, key, hold, m, n)
    ensures Stands(ticks, key, hold, m, l)
  {
  }

  /** At most one streak stands at a time. */
  lemma OneStands(ticks: seq<Tick>, key: string, hold: int, l: nat, m: nat, n: nat)
    requires n < |ticks| && l <= n && m <= n && Opens(ticks, key, hold, l) && Opens(ticks, key, hold, m)
    requires Stands(ticks, key, hold, l, n) && Stands(ticks, key, hold, m, n)
    ensures l == m
  {
    if l < m { StoodBefore(ticks, key, hold, l, m, n); }
    if m < l { StoodBefore(ticks, key, hold, m, l, n); }
  }

  /** What the engine remembers of a key after tick n: exactly the streak that stands, if any. */
  ghost predicate Remembers(p: Option<PendingV>, ticks: seq<Tick>, key: string, hold: int, n: nat)
    requires n < |ticks|
  {
    if p.Some? then exists m :: 0 <= m <= n && IsEntryOf(p.value, ticks, key, hold, m, n)
    else forall m :: 0 <= m <= n && Opens(ticks, key, hold, m) ==> !Stands(ticks, key, hold, m, n)
  }

  ghost predicate IsEntryOf(p: PendingV, ticks: seq<Tick>, key: string, hold: int, m: nat, n: nat)
    requires n < |ticks| && m <= n
  {
    && Opens(ticks, key, hold, m) && Stands(ticks, key, hold, m, n)
    && p.firingSince == ticks[m].now && (p.fired <==> RipeBy(ticks, key, hold, m, n))
  }

  lemma RipeStep(ticks: seq<Tick>, key: string, hold: int, m: nat, n: nat)
    requires n < |ticks| && m < n
    ensures RipeBy(ticks, key, hold, m, n) <==>
              || RipeBy(ticks, key, hold, m, n - 1)
              || (BreachAt(ticks, key, n) && ticks[n].now - ticks[m].now >= hold)
  {
  }

  /** No streak standing before n means that a breach at n begins one. */
  lemma OpensAfresh(ticks: seq<Tick>, key: string, hold: int, n: nat)
    requires n < |ticks| && BreachAt(ticks, key, n)
    requires forall l :: 0 <= l < n && Opens(ticks, key, hold, l) ==> !Stands(ticks, key, hold, l, n - 1)
    ensures Opens(ticks, key, hold, n) && Stands(ticks, key, hold, n, n)
  {
    forall l | 0 <= l < n && Opens(ticks, key, hold, l) ensures !Stands(ticks, key, hold, l, n) {
      if Stands(ticks, key, hold, l, n) { StoodBefore(ticks, key, hold, l, n - 1, n); }
    }
  }

  /** A streak that breaches or is missed early goes on; one that clears, or is missed when ripe, is over. */
  lemma StandsStep(ticks: seq<Tick>, key: string, hold: int, m: nat, n: nat)
    requires n < |ticks| && m < n
    ensures Stands(ticks, key, hold, m, n) <==>
              && Stands(ticks, key, hold, m, n - 1)
              && !ClearAt(ticks, key, n) && (ObservedAt(ticks, key, n) || !RipeBy(ticks, key, hold, m, n - 1))
  {
  }

  ghost predicate Remembered(p: Option<PendingV>, ticks: seq<Tick>, key: string, hold: int, n: nat)
    requires n < |ticks|
  {
    if n > 0 then Remembers(p, ticks, key, hold, n - 1) else p.None?
  }

  /** The tick after an entry: it goes on with its streak, or goes. */
  lemma EntryStep(p: PendingV, ticks: seq<Tick>, key: string, rule: Rule, m: nat, n: nat)
    requires n < |ticks| && m < n && IsEntryOf(p, ticks, key, rule.hold, m, n - 1)
    requires ObsFor(ticks[n].obs, key).Some? ==> ObsFor(ticks[n].obs, key).value.rule == rule
    ensures var r := KeyStep(Some(p), ObsFor(ticks[n].obs, key), ticks[n].now);
            && Remembers(r.0, ticks, key, rule.hold, n) && |r.1| <= 1
            && (r.1 != [] && r.1[0].Fired? <==> Ripens(ticks, key, rule.hold, m, n))
            && (r.1 != [] && r.1[0].Resolved? <==> Breaks(ticks, key, rule.hold, m, n))
  {
    hide Opens;
    var hold := rule.hold;
    var q := KeyStep(Some(p), ObsFor(ticks[n].obs, key), ticks[n].now).0;
    RipeStep(ticks, key, hold, m, n);
    StandsStep(ticks, key, hold, m, n);
    if q.Some? {
      assert IsEntryOf(q.value, ticks, key, hold, m, n);
    } else {
      forall l | 0 <= l <= n && Opens(ticks, key, hold, l) ensures !Stands(ticks, key, hold, l, n) {
        if Stands(ticks, key, hold, l, n) { Successor(ticks, key, hold, l, m, n); }
      }
    }
  }

  /** What stands at n without a breach there stood before. */
  lemma Successor(ticks: seq<Tick>, key: string, hold: int, l: nat, m: nat, n: nat)
    requires n < |ticks| && m < n && l <= n && Opens(ticks, key, hold, l) && Opens(ticks, key, hold, m)
    requires Stands(ticks, key, hold, l, n) && Stands(ticks, key, hold, m, n - 1)
    ensures l == m || (l == n && BreachAt(ticks, key, n))
  {
    if l < n {
      StoodBefore(ticks, key, hold, l, n - 1, n);
      OneStands(ticks, key, hold, l, m, n - 1);
    }
  }

  /** The tick after no entry: a breach begins one. */
  lemma FreshStep(ticks: seq<Tick>, key: string, rule: Rule, n: nat)
    requires n < |ticks| && Remembered(None, ticks, key, rule.hold, n)
    requires ObsFor(ticks[n].obs, key).Some? ==> ObsFor(ticks[n].obs, key).value.rule == rule
    ensures var r := KeyStep(None, ObsFor(ticks[n].obs, key), ticks[n].now);
            && Remembers(r.0, ticks, key, rule.hold, n) && |r.1| <= 1
            && (r.1 != [] && r.1[0].Fired? <==> Ripens(ticks, key, rule.hold, n, n))
            && (r.1 == [] || r.1[0].Fired?)
  {
    var hold := rule.hold;
    if BreachAt(ticks, key, n) {
      OpensAfresh(ticks, key, hold, n);
      var q := KeyStep(None, ObsFor(ticks[n].obs, key), ticks[n].now).0;
      assert RipeBy(ticks, key, hold, n, n) <==> 0 >= hold;
      assert IsEntryOf(q.value, ticks, key, hold, n, n);
    } else {
      forall l | 0 <= l <= n && Opens(ticks, key, hold, l) ensures !Stands(ticks, key, hold, l, n) {
        if l < n && Stands(ticks, key, hold, l, n) { StoodBefore(ticks, key, hold, l, n - 1, n); }
      }
    }
  }

  lemma {:induction false} EntryIsStreak(ticks: seq<Tick>, key: string, rule: Rule, n: nat)
    requires KeyRun(ticks, key, rule) && n < |ticks|
    ensures Remembered(EntryAfter(ticks, key, n), ticks, key, rule.hold, n)
  {
    hide KeyStep, Ripens, Breaks, Opens, Stands, RipeBy;
    if n > 0 {
      EntryIsStreak(ticks, key, rule, n - 1);
      StepAt(ticks, key, rule, n - 1);
      var p := EntryAfter(ticks, key, n - 1);
      if p.Some? {
        var m: nat :| 0 <= m <= n - 2 && IsEntryOf(p.value, ticks, key, rule.hold, m, n - 2);
        EntryStep(p.value, ticks, key, rule, m, n - 1);
      } else {
        FreshStep(ticks, key, rule, n - 1);
      }
    } else {
      assert ticks[..0] == [];
    }
  }

  lemma AppendedKind(s: seq<Msg>, t: seq<Msg>)
    requires |t| <= 1
    ensures (exists a :: s + t == s + [Fired(a)]) <==> t != [] && t[0].Fired?
    ensures (exists a :: s + t == s + [Resolved(a)]) <==> t != [] && t[0].Resolved?
  {
    assert forall m :: s + t == s + [m] ==> (s + t)[|s|] == m && t == [m];
    if t != [] {
      assert t == [t[0]];
      match t[0] {
        case Fired(a) => assert s + t == s + [Fired(a)];
        case Resolved(a) => assert s + t == s + [Resolved(a)];
      }
    }
  }

  /** The message a tick sends for the key, read off the streaks. */
  lemma StreakMessage(ticks: seq<Tick>, key: string, rule: Rule, n: nat)
    requires KeyRun(ticks, key, rule) && n < |ticks|
    ensures FiresAt(ticks, key, n) <==> exists m: nat :: m <= n && Ripens(ticks, key, rule.hold, m, n)
    ensures ResolvesAt(ticks, key, n) <==> exists m: nat :: m < n && Breaks(ticks, key, rule.hold, m, n)
  {
    StepAt(ticks, key, rule, n);
    EntryIsStreak(ticks, key, rule, n);
    var p := EntryAfter(ticks, key, n);
    var r := KeyStep(p, ObsFor(ticks[n].obs, key), ticks[n].now);
    if p.Some? {
      var m: nat :| 0 <= m <= n - 1 && IsEntryOf(p.value, ticks, key, rule.hold, m, n - 1);
      EntryStep(p.value, ticks, key, rule, m, n);
      AppendedKind(Sent(ticks, key, n), r.1);
      OnlyStreak(ticks, key, rule.hold, m, n);
    } else {
      FreshStep(ticks, key, rule, n);
      AppendedKind(Sent(ticks, key, n), r.1);
      NoStreak(ticks, key, rule.hold, n);
    }
  }

  lemma OnlyStreak(ticks: seq<Tick>, key: string, hold: int, m: nat, n: nat)
    requires n < |ticks| && m < n && Opens(ticks, key, hold, m) && Stands(ticks, key, hold, m, n - 1)
    ensures forall l: nat :: l <= n && Ripens(ticks, key, hold, l, n) ==> l == m
    ensures forall l: nat :: l < n && Breaks(ticks, key, hold, l, n) ==> l == m
  {
    forall l: nat | l <= n && Ripens(ticks, key, hold, l, n) ensures l == m {
      Successor(ticks, key, hold, l, m, n);
      if l == n { StandsStep(ticks, key, hold, m, n); }
    }
    forall l: nat | l < n && Breaks(ticks, key, hold, l, n) ensures l == m { OneStands(ticks, key, hold, l, m, n - 1); }
  }

  lemma NoStreak(ticks: seq<Tick>, key: string, hold: int, n: nat)
    requires n < |ticks| && Remembered(None, ticks, key, hold, n)
    ensures forall l: nat :: l <= n && Ripens(ticks, key, hold, l, n) ==> l == n
    ensures forall l: nat :: l < n ==> !Breaks(ticks, key, hold, l, n)
  {
    forall l: nat | l <= n && Ripens(ticks, key, hold, l, n) ensures l == n {
      if l < n { StoodBefore(ticks, key, hold, l, n - 1, n); }
    }
  }

  /** An alert fires at tick n exactly when n is the first tick at which some streak has lasted for the hold
      time. */
  lemma FiresExactlyWhenRipe(ticks: seq<Tick>, key: string, rule: Rule, n: nat)
    requires KeyRun(ticks, key, rule) && n < |ticks|
    ensures FiresAt(ticks, key, n) <==> exists m: nat :: m <= n && Ripens(ticks, key, rule.hold, m, n)
  {
    StreakMessage(ticks, key, rule, n);
  }

  /** It resolves exactly when a streak that had lasted for the hold time ends. */
  lemma ResolvesExactlyWhenBroken(ticks: seq<Tick>, key: string, rule: Rule, n: nat)
    requires KeyRun(ticks, key, rule) && n < |ticks|
    ensures ResolvesAt(ticks, key, n) <==> exists m: nat :: m < n && Breaks(ticks, key, rule.hold, m, n)
  {
    StreakMessage(ticks, key, rule, n);
  }

  // ---- promptness ----------------------------------------------------------------------------------

  ghost predicate AllBreach(ticks: seq<Tick>, key: string, m: nat, n: nat)
    requires n < |ticks|
  {
    forall i :: m <= i <= n ==> BreachAt(ticks, key, i)
  }

  lemma BreachesStand(ticks: seq<Tick>, key: string, hold: int, m: nat, n: nat)
    requires n < |ticks| && m <= n && AllBreach(ticks, key, m, n)
    ensures Stands(ticks, key, hold, m, n)
  {
    forall i | m <= i <= n ensures BreachAt(ticks, key, i) && ObservedAt(ticks, key, i) {}
  }

  /** The first tick from m on that comes at least the hold time after m. */
  lemma {:induction false} FirstLate(ticks: seq<Tick>, hold: int, m: nat, n: nat) returns (i: nat)
    requires m <= n < |ticks| && ticks[n].now - ticks[m].now >= hold
    ensures m <= i <= n && ticks[i].now - ticks[m].now >= hold
    ensures forall j :: m <= j < i ==> ticks[j].now - ticks[m].now < hold
    decreases n
  {
    if j :| m <= j < n && ticks[j].now - ticks[m].now >= hold {
      i := FirstLate(ticks, hold, m, j);
    } else {
      i := n;
    }
  }

  /** Promptness: when every tick from the streak's beginning on breaches, for at least the hold time and with
      ticks at most gap apart, exactly one tick fires: the first one at or after the hold time, so less than a
      gap late. */
  lemma FiresOnceAndPromptly(ticks: seq<Tick>, key: string, rule: Rule, m: nat, n: nat, gap: int) returns (i: nat)
    requires KeyRun(ticks, key, rule) && m <= n < |ticks| && Opens(ticks, key, rule.hold, m)
    requires AllBreach(ticks, key, m, n) && ticks[n].now - ticks[m].now >= rule.hold
    requires gap > 0 && forall j :: m < j <= n ==> ticks[j].now - ticks[j - 1].now <= gap
    ensures m <= i <= n && FiresAt(ticks, key, i)
    ensures forall j :: m <= j <= n && FiresAt(ticks, key, j) ==> j == i
    ensures forall j :: m <= j < i ==> ticks[j].now - ticks[m].now < rule.hold
    ensures rule.hold <= ticks[i].now - ticks[m].now < Max(rule.hold, 0) + gap
  {
    hide FiresAt, KeyRun, Opens;
    i := FirstLate(ticks, rule.hold, m, n);
    BreachesStand(ticks, key, rule.hold, m, i);
    assert Ripens(ticks, key, rule.hold, m, i);
    FiresExactlyWhenRipe(ticks, key, rule, i);
    if i > m { assert ticks[i - 1].now - ticks[m].now < rule.hold && ticks[i].now - ticks[i - 1].now <= gap; }
    forall j | m <= j <= n && FiresAt(ticks, key, j) ensures j == i {
      FiresExactlyWhenRipe(ticks, key, rule, j);
      var l: nat :| l <= j && Ripens(ticks, key, rule.hold, l, j);
      BreachesStand(ticks, key, rule.hold, m, j);
      OneStands(ticks, key, rule.hold, l, m, j);
      OneRipens(ticks, key, rule.hold, m, i, j);
    }
  }

  lemma OneRipens(ticks: seq<Tick>, key: string, hold: int, m: nat, i: nat, j: nat)
    requires m <= i < |ticks| && m <= j < |ticks|
    requires Ripens(ticks, key, hold, m, i) && Ripens(ticks, key, hold, m, j)
    ensures i == j
  {
  }

  /** Whatever the ticks observe or miss, an alert fires only on a breach, at least the hold time after an
      earlier breach of the same key (or at once), with no clearing observation in between. */
  lemma FiredIsJustified(ticks: seq<Tick>, key: string, rule: Rule, n: nat)
    requires KeyRun(ticks, key, rule) && n < |ticks| && FiresAt(ticks, key, n)
    ensures BreachAt(ticks, key, n)
    ensures exists m: nat ::
              && m <= n && BreachAt(ticks, key, m) && ticks[n].now - ticks[m].now >= rule.hold
              && forall i :: m <= i <= n ==> !ClearAt(ticks, key, i)
  {
    FiresExactlyWhenRipe(ticks, key, rule, n);
  }
}
