// ServiceStatus while other threads push: internal/store/store.go, ServiceStatus over recordEvent.
module StatusReads {
  import opened Common
  import opened StoreModel
  import opened StoreSteps
  import opened StoreStatus

  /** After how many of the writers' steps a status looked its service up, copied the ring of events, copied the
      ring of errors, and read the last time. */
  datatype StatusRead = StatusRead(look: nat, events: nat, errors: nat, last: nat)

  ghost predicate InTurn(steps: seq<StoreStep>, r: StatusRead) {
    r.look <= r.events <= r.errors <= r.last <= |steps|
  }

  const NO_STATUS := ServiceStatus(0, 0.0, 0.0, false)

  ghost function ServiceAt(steps: seq<StoreStep>, i: nat, n: string): ServiceV
    requires i <= |steps|
  {
    ServiceIn(AfterSteps(steps[..i]), n)
  }

  /** The status such a reader returns. */
  ghost function StatusSeen(steps: seq<StoreStep>, n: string, r: StatusRead, now: int): ServiceStatus
    requires InTurn(steps, r)
  {
    if n !in AfterSteps(steps[..r.look]) then NO_STATUS
    else StatusFrom(ServiceAt(steps, r.events, n).events, ServiceAt(steps, r.errors, n).errors,
                    ServiceAt(steps, r.last, n).lastSeen, now)
  }

  // ---- the rings hold the newest ring steps ---------------------------------------------------------------

  predicate Rings(step: StoreStep, n: string, err: bool) {
    step.service == n && if err then step.RingError? else step.RingEvent?
  }

  /** The positions of the steps that entered a time into a ring of the service. */
  function Rung(steps: seq<StoreStep>, n: string, err: bool): seq<nat> {
    if steps == [] then []
    else
      var init := Rung(steps[..|steps| - 1], n, err);
      if Rings(steps[|steps| - 1], n, err) then init + [|steps| - 1] else init
  }

  lemma {:induction false} RungAre(steps: seq<StoreStep>, n: string, err: bool)
    ensures forall i :: 0 <= i < |Rung(steps, n, err)| ==>
              Rung(steps, n, err)[i] < |steps| && Rings(steps[Rung(steps, n, err)[i]], n, err)
    ensures forall i, j :: 0 <= i < j < |Rung(steps, n, err)| ==> Rung(steps, n, err)[i] < Rung(steps, n, err)[j]
    ensures forall p :: 0 <= p < |steps| && Rings(steps[p], n, err) ==> p in Rung(steps, n, err)
  {
    if steps != [] { RungAre(steps[..|steps| - 1], n, err); }
  }

  /** The time recorded by the ring step at a position. */
  function TimeAt(steps: seq<StoreStep>, k: nat): int {
    if k < |steps| && (steps[k].RingEvent? || steps[k].RingError?) then steps[k].time else 0
  }

  function TimesAt(steps: seq<StoreStep>, at: seq<nat>): (r: seq<int>)
    ensures |r| == |at|
  {
    seq(|at|, i requires 0 <= i < |at| => TimeAt(steps, at[i]))
  }

  /** The positions of the steps whose times a ring holds after the first i steps. */
  function Held(steps: seq<StoreStep>, i: nat, n: string, err: bool): (r: seq<nat>)
    requires i <= |steps|
    ensures |r| <= DEFAULT_EVENT_TRACKER_CAPACITY
    ensures NoDup(r) && forall k :: k in r ==> k < i && Rings(steps[k], n, err)
  {
    RungAre(steps[..i], n, err);
    LastN(Rung(steps[..i], n, err), DEFAULT_EVENT_TRACKER_CAPACITY)
  }

  function RingOf(sv: ServiceV, err: bool): seq<int> { if err then sv.errors else sv.events }

  lemma StepRing(v: StoreV, step: StoreStep, n: string, err: bool)
    requires step.RingEvent? || step.RingError? ==> step.service in v
    ensures RingOf(ServiceIn(StepStore(v, step), n), err) ==
            if Rings(step, n, err)
            then LastN(RingOf(ServiceIn(v, n), err) + [step.time], DEFAULT_EVENT_TRACKER_CAPACITY)
            else RingOf(ServiceIn(v, n), err)
  {
    hide LastN;
  }

  /** The times of the ring steps, one step further. */
  lemma RungPush(init: seq<StoreStep>, step: StoreStep, n: string, err: bool)
    ensures var before, after := TimesAt(init, Rung(init, n, err)), TimesAt(init + [step], Rung(init + [step], n, err));
            after == if Rings(step, n, err) then before + [step.time] else before
  {
    var steps := init + [step];
    assert steps[..|init|] == init;
    RungAre(init, n, err);
    assert forall k :: 0 <= k < |init| ==> TimeAt(steps, k) == TimeAt(init, k);
    assert TimesAt(steps, Rung(init, n, err)) == TimesAt(init, Rung(init, n, err));
    if Rings(step, n, err) { assert TimeAt(steps, |init|) == step.time; }
  }

  lemma {:induction false} RingHolds(steps: seq<StoreStep>, n: string, err: bool)
    requires Orderly(steps)
    ensures RingOf(ServiceIn(AfterSteps(steps), n), err)
         == LastN(TimesAt(steps, Rung(steps, n, err)), DEFAULT_EVENT_TRACKER_CAPACITY)
  {
    if steps == [] {
      assert AfterSteps(steps) == map[];
    } else {
      var init, step := steps[..|steps| - 1], steps[|steps| - 1];
      hide Orderly, StepStore, LastN, TimesAt, Rung, Rings, RingOf;
      OrderlyLast(steps);
      RingHolds(init, n, err);
      ProperEntered(init, step);
      StepRing(AfterSteps(init), step, n, err);
      assert steps == init + [step];
      RungPush(init, step, n, err);
      FoldPush(map[], init, step);
      if Rings(step, n, err) {
        LastNPush(TimesAt(init, Rung(init, n, err)), step.time, DEFAULT_EVENT_TRACKER_CAPACITY);
      }
    }
  }

  lemma ProperEntered(init: seq<StoreStep>, step: StoreStep)
    requires Orderly(init) && Proper(init, step)
    ensures step.RingEvent? || step.RingError? ==> step.service in AfterSteps(init)
  {
    SeriesHistory(init, step.service, "");
  }

  /** What a reader copies after i steps are the times of the newest ring steps before it. */
  lemma CopiedRing(steps: seq<StoreStep>, i: nat, n: string, err: bool)
    requires Orderly(steps) && i <= |steps|
    ensures RingOf(ServiceAt(steps, i, n), err) == TimesAt(steps, Held(steps, i, n, err))
  {
    OrderlyPrefix(steps, i);
    RingHolds(steps[..i], n, err);
    assert forall k :: 0 <= k < i ==> TimeAt(steps[..i], k) == TimeAt(steps, k);
    assert LastN(TimesAt(steps[..i], Rung(steps[..i], n, err)), DEFAULT_EVENT_TRACKER_CAPACITY)
        == TimesAt(steps[..i], Held(steps, i, n, err));
  }

  // ---- exactly when the error rate is a rate ---------------------------------------------------------------

  /** own[k] is the position at which the push that takes the error step k recorded the same event. */
  ghost predicate Paired(steps: seq<StoreStep>, own: map<nat, nat>) {
    && (forall k: nat :: k < |steps| && steps[k].RingError? ==>
          k in own && own[k] < k && steps[own[k]] == RingEvent(steps[k].service, steps[k].time))
    && (forall j: nat, k: nat ::
          j < k < |steps| && steps[j].RingError? && steps[k].RingError? && j in own && k in own ==>
            own[j] != own[k])
  }

  /** The positions of the recent times a reader copies. */
  function Recents(steps: seq<StoreStep>, i: nat, n: string, err: bool, cutoff: int): set<nat>
    requires i <= |steps|
  {
    set k | k in Held(steps, i, n, err) && TimeAt(steps, k) > cutoff
  }

  /** The recent errors copied whose event was evicted before the events were copied, */
  ghost function Strays(steps: seq<StoreStep>, own: map<nat, nat>, r: StatusRead, n: string, cutoff: int): set<nat>
    requires InTurn(steps, r) && Paired(steps, own)
  {
    set k | k in Recents(steps, r.errors, n, true, cutoff)
            && own[k] < r.events && own[k] !in Held(steps, r.events, n, false)
  }

  /** those whose event was recorded only afterwards, */
  ghost function Latecomers(steps: seq<StoreStep>, own: map<nat, nat>, r: StatusRead, n: string, cutoff: int): set<nat>
    requires InTurn(steps, r) && Paired(steps, own)
  {
    set k | k in Recents(steps, r.errors, n, true, cutoff) && own[k] >= r.events
  }

  /** and the recent events copied that are no errors, or whose error was not there when the errors were copied:
      not recorded yet, or evicted since. */
  ghost function Unmatched(steps: seq<StoreStep>, own: map<nat, nat>, r: StatusRead, n: string, cutoff: int): set<nat>
    requires InTurn(steps, r) && Paired(steps, own)
  {
    set p | p in Recents(steps, r.events, n, false, cutoff)
            && forall k :: k in Held(steps, r.errors, n, true) ==> own[k] != p
  }

  lemma {:induction false} CountsRecents(steps: seq<StoreStep>, at: seq<nat>, cutoff: int)
    requires NoDup(at)
    ensures CountAfter(TimesAt(steps, at), cutoff) == |set k | k in at && TimeAt(steps, k) > cutoff|
  {
    var s := set k | k in at && TimeAt(steps, k) > cutoff;
    if at == [] {
      assert s == {};
    } else {
      var init, last := at[..|at| - 1], at[|at| - 1];
      var s' := set k | k in init && TimeAt(steps, k) > cutoff;
      CountsRecents(steps, init, cutoff);
      assert at == init + [last];
      assert TimesAt(steps, at) == TimesAt(steps, init) + [TimeAt(steps, last)];
      CountPush(TimesAt(steps, init), TimeAt(steps, last), cutoff);
      assert last !in init;
      assert s == if TimeAt(steps, last) > cutoff then s' + {last} else s';
    }
  }

  lemma {:induction false} ImageSize(s: set<nat>, own: map<nat, nat>)
    requires forall k :: k in s ==> k in own
    requires forall j, k :: j in s && k in s && j != k ==> own[j] != own[k]
    ensures |set k | k in s :: own[k]| == |s|
  {
    if s != {} {
      var x :| x in s;
      var rest := s - {x};
      ImageSize(rest, own);
      assert (set k | k in s :: own[k]) == (set k | k in rest :: own[k]) + {own[x]};
    }
  }

  /** The recent errors copied whose event was copied too. */
  ghost function Matched(steps: seq<StoreStep>, own: map<nat, nat>, r: StatusRead, n: string, cutoff: int): set<nat>
    requires InTurn(steps, r) && Paired(steps, own)
  {
    Recents(steps, r.errors, n, true, cutoff) - Strays(steps, own, r, n, cutoff) - Latecomers(steps, own, r, n, cutoff)
  }

  lemma OwnEvent(steps: seq<StoreStep>, own: map<nat, nat>, r: StatusRead, n: string, k: nat)
    requires InTurn(steps, r) && Paired(steps, own) && k in Held(steps, r.errors, n, true)
    ensures k in own && TimeAt(steps, own[k]) == TimeAt(steps, k)
    ensures forall j :: j in Held(steps, r.errors, n, true) && j != k && j in own ==> own[j] != own[k]
  {
  }

  lemma MatchedEvents(steps: seq<StoreStep>, own: map<nat, nat>, r: StatusRead, n: string, cutoff: int)
    requires InTurn(steps, r) && Paired(steps, own)
    ensures forall k :: k in Matched(steps, own, r, n, cutoff) ==> k in own
    ensures var matched := Matched(steps, own, r, n, cutoff);
            forall j, k :: j in matched && k in matched && j != k ==> own[j] != own[k]
    ensures (set k | k in Matched(steps, own, r, n, cutoff) :: own[k])
         == Recents(steps, r.events, n, false, cutoff) - Unmatched(steps, own, r, n, cutoff)
  {
    var held, matched := Held(steps, r.errors, n, true), Matched(steps, own, r, n, cutoff);
    forall k | k in held
      ensures k in own && TimeAt(steps, own[k]) == TimeAt(steps, k)
      ensures forall j :: j in held && j != k && j in own ==> own[j] != own[k]
    {
      OwnEvent(steps, own, r, n, k);
    }
    hide Paired, Held, TimeAt, Orderly;
    forall p | p in Recents(steps, r.events, n, false, cutoff) - Unmatched(steps, own, r, n, cutoff)
      ensures p in set k | k in matched :: own[k]
    {
      var k :| k in held && own[k] == p;
      assert k in matched;
    }
  }

  lemma ExcessIff(
    ev: set<nat>, er: set<nat>, strays: set<nat>, late: set<nat>, unmatched: set<nat>, image: set<nat>)
    requires strays <= er && late <= er && strays !! late && unmatched <= ev
    requires image == ev - unmatched && |image| == |er - strays - late|
    ensures |er| <= |ev| <==> |strays| + |late| <= |unmatched|
  {
    assert |er| == |strays| + |late| + |er - strays - late| by {
      assert er == strays + late + (er - strays - late);
    }
    assert |ev| == |unmatched| + |image| by { assert ev == unmatched + image; }
  }

  /** Whatever is pushed while a status is read, by whatever writers: its error rate lies in [0, 1] exactly when the
      service was unknown, or no event copied is recent, or the strays and latecomers among the errors are no more
      than the events without a match. */
  lemma SeenErrorRateIff(steps: seq<StoreStep>, own: map<nat, nat>, r: StatusRead, n: string, now: int)
    requires Orderly(steps) && Paired(steps, own) && InTurn(steps, r)
    ensures var cutoff := now - 5 * SECOND;
            0.0 <= StatusSeen(steps, n, r, now).errorRate <= 1.0 <==>
              || n !in AfterSteps(steps[..r.look])
              || Recents(steps, r.events, n, false, cutoff) == {}
              || |Strays(steps, own, r, n, cutoff)| + |Latecomers(steps, own, r, n, cutoff)|
                 <= |Unmatched(steps, own, r, n, cutoff)|
  {
    var cutoff := now - 5 * SECOND;
    if n in AfterSteps(steps[..r.look]) {
      var ev, er := Recents(steps, r.events, n, false, cutoff), Recents(steps, r.errors, n, true, cutoff);
      CopiedRing(steps, r.events, n, false);
      CopiedRing(steps, r.errors, n, true);
      CountsRecents(steps, Held(steps, r.events, n, false), cutoff);
      CountsRecents(steps, Held(steps, r.errors, n, true), cutoff);
      MatchedEvents(steps, own, r, n, cutoff);
      ImageSize(Matched(steps, own, r, n, cutoff), own);
      ExcessIff(ev, er, Strays(steps, own, r, n, cutoff), Latecomers(steps, own, r, n, cutoff),
                Unmatched(steps, own, r, n, cutoff), set k | k in Matched(steps, own, r, n, cutoff) :: own[k]);
      if ev != {} { RateInRange(|er|, |ev|); }
    }
  }

  lemma AllHeld(steps: seq<StoreStep>, i: nat, n: string)
    requires i <= |steps| && |Rung(steps[..i], n, false)| <= DEFAULT_EVENT_TRACKER_CAPACITY
    ensures forall p :: 0 <= p < i && Rings(steps[p], n, false) ==> p in Held(steps, i, n, false)
  {
    RungAre(steps[..i], n, false);
    assert forall p :: 0 <= p < i ==> steps[..i][p] == steps[p];
  }

  /** The figures of a status read while others push: five times the events per second are the recent events copied, the
      rate times those the recent errors copied; a service not found, or without recent events, shows zero. */
  lemma SeenCounts(steps: seq<StoreStep>, n: string, r: StatusRead, now: int)
    requires Orderly(steps) && InTurn(steps, r)
    ensures var s, cutoff := StatusSeen(steps, n, r, now), now - 5_000_000_000;
            var ev, er := |Recents(steps, r.events, n, false, cutoff)|, |Recents(steps, r.errors, n, true, cutoff)|;
            if n in AfterSteps(steps[..r.look]) then
              && s.eventsPerSecond * 5.0 == ev as real
              && (if ev > 0 then s.errorRate * ev as real == er as real else s.errorRate == 0.0)
            else s == ServiceStatus(0, 0.0, 0.0, false)
  {
    hide AfterSteps, CountAfter, Held, TimeAt, Orderly;
    if n in AfterSteps(steps[..r.look]) {
      var cutoff := now - 5 * SECOND;
      CopiedRing(steps, r.events, n, false);
      CopiedRing(steps, r.errors, n, true);
      CountsRecents(steps, Held(steps, r.events, n, false), cutoff);
      CountsRecents(steps, Held(steps, r.errors, n, true), cutoff);
      var ev, er := |Recents(steps, r.events, n, false, cutoff)|, |Recents(steps, r.errors, n, true, cutoff)|;
      if ev > 0 { QuotientTimes(er, ev); }
    }
  }

  /** Before any event of the service was evicted, only errors recorded between the two reads can lift the rate. */
  lemma OnlyLatecomers(steps: seq<StoreStep>, own: map<nat, nat>, r: StatusRead, n: string, now: int)
    requires Orderly(steps) && Paired(steps, own) && InTurn(steps, r)
    requires |Rung(steps[..r.events], n, false)| <= DEFAULT_EVENT_TRACKER_CAPACITY
    ensures var cutoff := now - 5 * SECOND;
            0.0 <= StatusSeen(steps, n, r, now).errorRate <= 1.0 <==>
              || n !in AfterSteps(steps[..r.look])
              || Recents(steps, r.events, n, false, cutoff) == {}
              || |Latecomers(steps, own, r, n, cutoff)| <= |Unmatched(steps, own, r, n, cutoff)|
  {
    var cutoff := now - 5 * SECOND;
    SeenErrorRateIff(steps, own, r, n, now);
    AllHeld(steps, r.events, n);
    hide Held, Rung;
    assert Strays(steps, own, r, n, cutoff) == {};
  }

  // ---- a reader no push overtakes ----------------------------------------------------------------------------

  lemma {:induction false} OthersLeave(steps: seq<StoreStep>, i: nat, j: nat, n: string)
    requires i <= j <= |steps| && forall k :: i <= k < j ==> steps[k].service != n
    ensures n in AfterSteps(steps[..j]) <==> n in AfterSteps(steps[..i])
    ensures ServiceAt(steps, j, n) == ServiceAt(steps, i, n)
    decreases j
  {
    hide StepService;
    if i < j {
      OthersLeave(steps, i, j - 1, n);
      assert steps[..j] == steps[..j - 1] + [steps[j - 1]];
      FoldPush(map[], steps[..j - 1], steps[j - 1]);
    }
  }

  /** After complete pushes, and while only other services are pushed to, the status is that of the store's contents,
      and its error rate is a rate exactly when the stray errors are covered. */
  lemma UndisturbedStatus(ps: seq<Push>, steps: seq<StoreStep>, n: string, r: StatusRead, now: int)
    requires AllSteps(ps) <= steps && InTurn(steps, r) && r.look == |AllSteps(ps)|
    requires forall k :: r.look <= k < r.last ==> steps[k].service != n
    ensures StatusSeen(steps, n, r, now) ==
            if For(ps, n) == [] then NO_STATUS else StatusOf(ServiceAfter(For(ps, n)), now)
    ensures 0.0 <= StatusSeen(steps, n, r, now).errorRate <= 1.0 <==> StraysCovered(For(ps, n), now - 5 * SECOND)
  {
    assert steps[..r.look] == AllSteps(ps);
    AllStepsMakePushes(ps);
    ServicesAreSeparate(ps, n);
    OthersLeave(steps, r.look, r.events, n);
    OthersLeave(steps, r.look, r.errors, n);
    OthersLeave(steps, r.look, r.last, n);
    ErrorRateInRangeIff(For(ps, n), now);
  }

  // ---- what one copy alone shows is exact -----------------------------------------------------------------------

  /** When the service's times are recorded in order, EventsPerSecond counts exactly the events recorded when the
      ring was copied, whatever is under way. */
  lemma SeenEventsExact(steps: seq<StoreStep>, n: string, r: StatusRead, now: int)
    requires Orderly(steps) && InTurn(steps, r) && n in AfterSteps(steps[..r.look])
    requires Nondecreasing(TimesAt(steps, Rung(steps[..r.events], n, false)))
    ensures StatusSeen(steps, n, r, now).eventsPerSecond
         == Min(DEFAULT_EVENT_TRACKER_CAPACITY,
                CountAfter(TimesAt(steps, Rung(steps[..r.events], n, false)), now - 5 * SECOND)) as real / 5.0
  {
    var times := TimesAt(steps, Rung(steps[..r.events], n, false));
    CopiedRing(steps, r.events, n, false);
    assert TimesAt(steps, Held(steps, r.events, n, false)) == LastN(times, DEFAULT_EVENT_TRACKER_CAPACITY);
    WindowCount(times, DEFAULT_EVENT_TRACKER_CAPACITY, now - 5 * SECOND);
  }

  lemma StepRaises(v: StoreV, step: StoreStep, n: string)
    ensures ServiceIn(v, n).lastSeen <= ServiceIn(StepStore(v, step), n).lastSeen
    ensures step.NoteTime? && step.service == n && n in v ==> step.time <= ServiceIn(StepStore(v, step), n).lastSeen
  {
    hide LastN;
  }

  lemma {:induction false} LastSeenCovers(steps: seq<StoreStep>, n: string, t: int)
    requires Orderly(steps) && NoteTime(n, t) in steps
    ensures t <= ServiceIn(AfterSteps(steps), n).lastSeen
  {
    var init, step := steps[..|steps| - 1], steps[|steps| - 1];
    OrderlyLast(steps);
    if step == NoteTime(n, t) { SeriesHistory(init, n, ""); }
    hide Orderly, StepStore, Installed, Filled;
    assert steps == init + [step];
    FoldPush(map[], init, step);
    StepRaises(AfterSteps(init), step, n);
    if step != NoteTime(n, t) { LastSeenCovers(init, n, t); }
  }

  /** The last time is the newest noted, or the zero time. */
  lemma {:induction false} LastSeenNoted(steps: seq<StoreStep>, n: string)
    requires Orderly(steps)
    ensures var last := ServiceIn(AfterSteps(steps), n).lastSeen;
            last >= 0 && (last == 0 || NoteTime(n, last) in steps)
  {
    if steps != [] {
      var init, step := steps[..|steps| - 1], steps[|steps| - 1];
      OrderlyLast(steps);
      LastSeenNoted(init, n);
      hide Orderly, StepStore;
      assert steps == init + [step];
      FoldPush(map[], init, step);
      StepNotes(AfterSteps(init), step, n);
    } else {
      assert AfterSteps(steps) == map[];
    }
  }

  lemma StepNotes(v: StoreV, step: StoreStep, n: string)
    ensures var before, after := ServiceIn(v, n).lastSeen, ServiceIn(StepStore(v, step), n).lastSeen;
            after == before || (step == NoteTime(n, after) && after > before)
  {
    hide LastN;
  }

  /** A status shows its service as connected exactly when, by the time it read the last time, some time later than the
      zero time had been noted for it that is at most ten seconds old. */
  lemma SeenConnected(steps: seq<StoreStep>, n: string, r: StatusRead, now: int)
    requires Orderly(steps) && InTurn(steps, r) && n in AfterSteps(steps[..r.look])
    ensures StatusSeen(steps, n, r, now).connected <==>
            exists t :: NoteTime(n, t) in steps[..r.last] && t > 0 && now - t <= 10_000_000_000
  {
    hide AfterSteps, CountAfter;
    var noted := steps[..r.last];
    OrderlyPrefix(steps, r.last);
    LastSeenNoted(noted, n);
    forall t | NoteTime(n, t) in noted ensures t <= ServiceIn(AfterSteps(noted), n).lastSeen {
      LastSeenCovers(noted, n, t);
    }
  }

  lemma NotedBefore(steps: seq<StoreStep>, n: string, k: nat, i: nat)
    requires Orderly(steps) && k < i <= |steps| && Rings(steps[k], n, false)
    ensures NoteTime(n, TimeAt(steps, k)) in steps[..i]
  {
    assert Proper(steps[..k], steps[k]);
  }

  /** The last time shown is at least every time counted, so a service with counted events shows as connected. */
  lemma CountedMeansConnected(steps: seq<StoreStep>, n: string, r: StatusRead, now: int)
    requires Orderly(steps) && InTurn(steps, r) && now >= 5 * SECOND
    requires StatusSeen(steps, n, r, now).eventsPerSecond > 0.0
    ensures StatusSeen(steps, n, r, now).connected && StatusSeen(steps, n, r, now).lastSeen > now - 5 * SECOND
  {
    hide AfterSteps, CountAfter, Held, TimeAt, Orderly;
    var cutoff, held := now - 5 * SECOND, Held(steps, r.events, n, false);
    CopiedRing(steps, r.events, n, false);
    CountsRecents(steps, held, cutoff);
    var recents := Recents(steps, r.events, n, false, cutoff);
    assert recents != {};
    var k :| k in recents;
    NotedBefore(steps, n, k, r.last);
    OrderlyPrefix(steps, r.last);
    LastSeenCovers(steps[..r.last], n, TimeAt(steps, k));
  }

  // ---- a reader overtaken between the two rings ---------------------------------------------------------------------

  /** Every error step follows the event step of its own push, as the only writer's do. */
  ghost predicate ErrorsFollow(steps: seq<StoreStep>) {
    forall k :: 0 <= k < |steps| && steps[k].RingError? ==>
      0 < k && steps[k - 1] == RingEvent(steps[k].service, steps[k].time)
  }

  function Preceding(steps: seq<StoreStep>): map<nat, nat> {
    map k: nat | 0 < k < |steps| && steps[k].RingError? :: k - 1
  }

  lemma FollowersArePaired(steps: seq<StoreStep>)
    requires ErrorsFollow(steps)
    ensures Paired(steps, Preceding(steps))
  {
  }

  lemma FollowConcat(a: seq<StoreStep>, b: seq<StoreStep>)
    requires ErrorsFollow(a) && ErrorsFollow(b)
    ensures ErrorsFollow(a + b)
  {
    var all := a + b;
    forall k | 0 <= k < |all| && all[k].RingError?
      ensures 0 < k && all[k - 1] == RingEvent(all[k].service, all[k].time)
    {
      if k >= |a| { assert all[k] == b[k - |a|]; }
    }
  }

  lemma {:induction false} PushesArePaired(ps: seq<Push>)
    ensures ErrorsFollow(AllSteps(ps)) && Paired(AllSteps(ps), Preceding(AllSteps(ps)))
  {
    if ps != [] {
      PushesArePaired(ps[..|ps| - 1]);
      assert ErrorsFollow(StepsOf(ps[|ps| - 1]));
      hide StepsOf, ErrorsFollow, Paired;
      FollowConcat(AllSteps(ps[..|ps| - 1]), StepsOf(ps[|ps| - 1]));
    }
    FollowersArePaired(AllSteps(ps));
  }

  function ErrorLog(service: string, t: int): Push { PushedLog(LogEvent(t, "ERROR", "", service, "", map[]), t) }

  /** The first four steps of pushing an error log, up to its event. */
  lemma BeforeError(a: Push)
    requires a.PushedLog? && a.IsError()
    ensures |StepsOf(a)| == 5 && ServiceAt(StepsOf(a), 4, a.Service()).events == [a.Time()]
    ensures a.Service() in AfterSteps(StepsOf(a)[..4])
  {
    var n, note := a.Service(), [NoteTime(a.Service(), a.Time()), RingEvent(a.Service(), a.Time())];
    var steps := KeepSteps(a) + note;
    assert StepsOf(a)[..4] == steps;
    FoldWithin(map[], n, steps);
    FoldServiceConcat(NEW_SERVICE, KeepSteps(a), note);
    KeepingKeeps(NEW_SERVICE, a);
    FoldTwo(Keep(NEW_SERVICE, a), note[0], note[1]);
  }

  lemma TwoErrors(a: Push)
    requires a.IsError()
    ensures ServiceAfter([a, a]).errors == [a.Time(), a.Time()] && For([a, a], a.Service()) == [a, a]
  {
    AllPass([a, a], ErrorPush());
    AllPass([a, a], ToService(a.Service()));
    ActivityIsWindow([a, a]);
    assert Times([a, a]) == [a.Time(), a.Time()];
  }

  lemma CountTwo(x: int, cutoff: int)
    requires x > cutoff
    ensures CountAfter([x], cutoff) == 1 && CountAfter([x, x], cutoff) == 2
  {
    CountOne(x, cutoff);
    assert [x] + [x] == [x, x];
    CountPush([x], x, cutoff);
  }

  /** What a reader copies that is overtaken by the error of one such push and by the whole next one. */
  lemma OvertakenCopies(a: Push)
    requires a.PushedLog? && a.IsError()
    ensures var n, steps := a.Service(), AllSteps([a, a]);
            && |steps| == 10 && n in AfterSteps(steps[..4])
            && ServiceAt(steps, 4, n).events == [a.Time()] && ServiceAt(steps, 10, n).errors == [a.Time(), a.Time()]
  {
    var steps := AllSteps([a, a]);
    TwoPushes(a, a);
    BeforeError(a);
    assert steps[..4] == StepsOf(a)[..4] && steps[..10] == steps;
    AllStepsMakePushes([a, a]);
    ServicesAreSeparate([a, a], a.Service());
    TwoErrors(a);
    hide *;
  }

  /** Two error logs of the same moment, the events copied after the first is recorded and the errors after both: a
      rate of 2, although times are in order, nothing was evicted, and no stray error is ever uncovered. */
  lemma OvertakenReaderExceedsOne(service: string, now: int)
    requires service != ""
    ensures var a := ErrorLog(service, now);
            var steps, r := AllSteps([a, a]), StatusRead(4, 4, 10, 10);
            && InTurn(steps, r) && StatusSeen(steps, service, r, now).errorRate == 2.0
            && Nondecreasing(Times([a, a])) && forall cutoff :: StraysCovered([a, a], cutoff)
  {
    hide AllSteps, ServiceAt, AfterSteps, CountAfter;
    var a := ErrorLog(service, now);
    OvertakenCopies(a);
    CountTwo(now, now - 5 * SECOND);
    forall cutoff ensures StraysCovered([a, a], cutoff) { NoStray([a, a], cutoff); }
  }
}
