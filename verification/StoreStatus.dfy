// Activity figures of a service: internal/store/store.go, ServiceStatus.
module StoreStatus {
  import opened Common
  import opened StoreModel

  const SECOND := 1_000_000_000

  datatype ServiceStatus = ServiceStatus(lastSeen: int, eventsPerSecond: real, errorRate: real, connected: bool)

  /** How many of the times are later than the cutoff. */
  function CountAfter(s: seq<int>, cutoff: int): (n: nat)
    ensures n <= |s|
  {
    if s == [] then 0
    else CountAfter(s[..|s| - 1], cutoff) + if s[|s| - 1] > cutoff then 1 else 0
  }

  /** The status computed from what was read of the two rings and of the last time. */
  function StatusFrom(events: seq<int>, errors: seq<int>, lastSeen: int, now: int): ServiceStatus {
    var ev := CountAfter(events, now - 5 * SECOND);
    var er := CountAfter(errors, now - 5 * SECOND);
    ServiceStatus(
      lastSeen, ev as real / 5.0, if ev > 0 then er as real / ev as real else 0.0,
      lastSeen != 0 && now - lastSeen <= 10 * SECOND)
  }

  /** All of them read with no push in between. */
  function StatusOf(sv: ServiceV, now: int): ServiceStatus { StatusFrom(sv.events, sv.errors, sv.lastSeen, now) }

  ghost predicate Nondecreasing(s: seq<int>) {
    forall i, j :: 0 <= i <= j < |s| ==> s[i] <= s[j]
  }

  lemma {:induction false} CountNone(s: seq<int>, cutoff: int)
    requires forall i :: 0 <= i < |s| ==> s[i] <= cutoff
    ensures CountAfter(s, cutoff) == 0
  {
    if s != [] { CountNone(s[..|s| - 1], cutoff); }
  }

  /** In sorted times the later ones are the last ones, so a window of size n counts min(n, all) of them. */
  lemma {:induction false} WindowCount(s: seq<int>, n: nat, cutoff: int)
    requires Nondecreasing(s)
    ensures CountAfter(LastN(s, n), cutoff) == Min(n, CountAfter(s, cutoff))
  {
    if |s| > n {
      var init, last := s[..|s| - 1], s[|s| - 1];
      if last <= cutoff {
        CountNone(s, cutoff);
        CountNone(LastN(s, n), cutoff);
      } else if n > 0 {
        WindowCount(init, n - 1, cutoff);
        LastNInit(s, n);
      }
    }
  }

  lemma LastNInit(s: seq<int>, n: nat)
    requires 0 < n <= |s|
    ensures LastN(s, n)[..n - 1] == LastN(s[..|s| - 1], n - 1) && LastN(s, n)[n - 1] == s[|s| - 1]
  {
    assert LastN(s, n) == s[|s| - n..];
    assert s[|s| - n..][..n - 1] == s[..|s| - 1][|s| - n..];
  }

  lemma CountPush(s: seq<int>, t: int, cutoff: int)
    ensures CountAfter(s + [t], cutoff) == CountAfter(s, cutoff) + if t > cutoff then 1 else 0
  {
    assert (s + [t])[..|s|] == s;
  }

  lemma {:induction false} ErrorsAreEvents(ps: seq<Push>, cutoff: int)
    ensures CountAfter(Times(Errors(ps)), cutoff) <= CountAfter(Times(ps), cutoff)
    ensures forall t :: t in Times(Errors(ps)) ==> t in Times(ps)
  {
    if ps != [] {
      var init, p := ps[..|ps| - 1], ps[|ps| - 1];
      ErrorsAreEvents(init, cutoff);
      TimesInit(ps);
      TimesPush(Errors(init), p);
      CountPush(Times(init), p.Time(), cutoff);
      CountPush(Times(Errors(init)), p.Time(), cutoff);
    }
  }

  lemma {:induction false} ErrorsNondecreasing(ps: seq<Push>)
    requires Nondecreasing(Times(ps))
    ensures Nondecreasing(Times(Errors(ps)))
  {
    if ps != [] {
      var init, p := ps[..|ps| - 1], ps[|ps| - 1];
      assert Times(ps) == Times(init) + [p.Time()];
      assert Times(ps)[|init|] == p.Time();
      forall i | 0 <= i < |init| ensures Times(init)[i] <= p.Time() {
        assert Times(init)[i] == Times(ps)[i] <= Times(ps)[|init|];
      }
      forall i, j | 0 <= i <= j < |init| ensures Times(init)[i] <= Times(init)[j] {
        assert Times(ps)[i] <= Times(ps)[j];
      }
      ErrorsNondecreasing(init);
      ErrorsAreEvents(init, 0);
      var es := Times(Errors(init));
      forall i | 0 <= i < |es| ensures es[i] <= p.Time() { assert es[i] in Times(init); }
      if p.IsError() { assert Times(Errors(init) + [p]) == es + [p.Time()]; }
    }
  }

  /** When times are recorded in order, EventsPerSecond counts exactly the events of the last five seconds,
      up to the ring's capacity. */
  lemma EventsPerSecondExact(ps: seq<Push>, now: int)
    requires Nondecreasing(Times(ps))
    ensures StatusOf(ServiceAfter(ps), now).eventsPerSecond
         == Min(DEFAULT_EVENT_TRACKER_CAPACITY, CountAfter(Times(ps), now - 5 * SECOND)) as real / 5.0
  {
    ActivityIsWindow(ps);
    WindowCount(Times(ps), DEFAULT_EVENT_TRACKER_CAPACITY, now - 5 * SECOND);
  }

  lemma RatioBounds(er: nat, ev: nat)
    requires ev > 0 && er <= ev
    ensures 0.0 <= er as real / ev as real <= 1.0
  {
  }

  function Later(cutoff: int): int -> bool { t => t > cutoff }

  lemma {:induction false} CountIsFilter(s: seq<int>, cutoff: int)
    ensures CountAfter(s, cutoff) == |Filter(s, Later(cutoff))|
  {
    if s != [] { CountIsFilter(s[..|s| - 1], cutoff); }
  }

  lemma QuotientTimes(x: nat, y: nat)
    requires y > 0
    ensures x as real / y as real * y as real == x as real
  {
  }

  /** The figures, whatever was pushed: events per second times five are the recent events still held, the error rate
      times those the recent errors still held, and without recent events there is no rate. */
  lemma StatusCounts(ps: seq<Push>, now: int)
    ensures var s := StatusOf(ServiceAfter(ps), now);
            var ev := |Filter(LastN(Times(ps), 4096), Later(now - 5_000_000_000))|;
            var er := |Filter(LastN(Times(Errors(ps)), 4096), Later(now - 5_000_000_000))|;
            && s.eventsPerSecond * 5.0 == ev as real
            && (if ev > 0 then s.errorRate * ev as real == er as real else s.errorRate == 0.0)
  {
    var sv, cutoff := ServiceAfter(ps), now - 5 * SECOND;
    hide ServiceAfter, Times, Errors, LastN, CountAfter, Filter;
    ActivityIsWindow(ps);
    CountIsFilter(sv.events, cutoff);
    CountIsFilter(sv.errors, cutoff);
    var ev, er := CountAfter(sv.events, cutoff), CountAfter(sv.errors, cutoff);
    if ev > 0 { QuotientTimes(er, ev); }
  }

  /** With times in order, or before any eviction, the counts are those of all that was recorded, up to the rings'
      capacity. */
  lemma StatusCountsAll(ps: seq<Push>, now: int)
    requires Nondecreasing(Times(ps)) || |ps| <= 4096
    ensures var s := StatusOf(ServiceAfter(ps), now);
            var ev := Min(4096, |Filter(Times(ps), Later(now - 5_000_000_000))|);
            var er := Min(4096, |Filter(Times(Errors(ps)), Later(now - 5_000_000_000))|);
            && s.eventsPerSecond * 5.0 == ev as real
            && (if ev > 0 then s.errorRate * ev as real == er as real else s.errorRate == 0.0)
  {
    var cutoff := now - 5 * SECOND;
    hide ServiceAfter, StatusOf, Times, Errors, CountAfter, Filter, Nondecreasing;
    StatusCounts(ps, now);
    WindowFilter(Times(ps), cutoff);
    if Nondecreasing(Times(ps)) { ErrorsNondecreasing(ps); }
    FilteredErrors(ps);
    WindowFilter(Times(Errors(ps)), cutoff);
  }

  lemma FilteredErrors(ps: seq<Push>)
    ensures |Times(Errors(ps))| <= |Times(ps)| == |ps|
  {
  }

  lemma WindowFilter(s: seq<int>, cutoff: int)
    requires Nondecreasing(s) || |s| <= 4096
    ensures |Filter(LastN(s, 4096), Later(cutoff))| == Min(4096, |Filter(s, Later(cutoff))|)
  {
    CountIsFilter(s, cutoff);
    CountIsFilter(LastN(s, 4096), cutoff);
    if Nondecreasing(s) { WindowCount(s, 4096, cutoff); }
  }

  /** A service is connected exactly when some time recorded for it, later than the zero time, is at most ten seconds
      old; the last time shown is the newest recorded, or the zero time. */
  lemma ConnectedExactly(ps: seq<Push>, now: int)
    ensures var s := StatusOf(ServiceAfter(ps), now);
            && (s.connected <==> exists t :: t in Times(ps) && t > 0 && now - t <= 10_000_000_000)
            && s.lastSeen >= 0 && (forall t :: t in Times(ps) ==> t <= s.lastSeen)
            && (s.lastSeen == 0 || s.lastSeen in Times(ps))
  {
    hide ServiceAfter, Times, CountAfter;
    LastSeenIsMax(ps);
  }

  // ---- exactly when the error rate is a rate -------------------------------------------------------

  /** The pushes behind the events still in the ring, and those before them. */
  function Recent(ps: seq<Push>): (r: seq<Push>)
    ensures |r| <= DEFAULT_EVENT_TRACKER_CAPACITY
  {
    LastN(ps, DEFAULT_EVENT_TRACKER_CAPACITY)
  }

  function Older(ps: seq<Push>): (r: seq<Push>)
    ensures ps == r + Recent(ps)
  {
    ps[..|ps| - |Recent(ps)|]
  }

  function NotErrorPush(): Push -> bool { (p: Push) => !p.IsError() }

  function NonErrors(ps: seq<Push>): seq<Push> { Filter(ps, NotErrorPush()) }

  /** How many recent errors the error ring still holds of pushes whose events are already evicted. */
  function Stray(ps: seq<Push>, cutoff: int): nat {
    CountAfter(
      LastN(Times(Errors(Older(ps))), DEFAULT_EVENT_TRACKER_CAPACITY - |Errors(Recent(ps))|), cutoff)
  }

  /** No event is recent, or the stray errors are no more than the recent events that are no errors. */
  predicate StraysCovered(ps: seq<Push>, cutoff: int) {
    CountAfter(Times(Recent(ps)), cutoff) == 0 || Stray(ps, cutoff) <= CountAfter(Times(NonErrors(Recent(ps))), cutoff)
  }

  lemma TimesConcat(a: seq<Push>, b: seq<Push>)
    ensures Times(a + b) == Times(a) + Times(b)
  {
  }

  lemma LastNConcat(a: seq<int>, b: seq<int>, n: nat)
    requires |b| <= n
    ensures LastN(a + b, n) == LastN(a, n - |b|) + b
  {
  }

  lemma LastNTimes(ps: seq<Push>, n: nat)
    ensures LastN(Times(ps), n) == Times(LastN(ps, n))
  {
  }

  lemma {:induction false} SplitCount(ps: seq<Push>, cutoff: int)
    ensures CountAfter(Times(ps), cutoff) ==
            CountAfter(Times(Errors(ps)), cutoff) + CountAfter(Times(NonErrors(ps)), cutoff)
  {
    if ps != [] {
      var init, p := ps[..|ps| - 1], ps[|ps| - 1];
      SplitCount(init, cutoff);
      TimesInit(ps);
      CountPush(Times(init), p.Time(), cutoff);
      if p.IsError() {
        TimesPush(Errors(init), p);
        CountPush(Times(Errors(init)), p.Time(), cutoff);
      } else {
        TimesPush(NonErrors(init), p);
        CountPush(Times(NonErrors(init)), p.Time(), cutoff);
      }
    }
  }

  /** The counted errors are the stray ones and those among the recent pushes. */
  lemma CountedErrors(ps: seq<Push>, cutoff: int)
    ensures CountAfter(LastN(Times(Errors(ps)), DEFAULT_EVENT_TRACKER_CAPACITY), cutoff)
         == Stray(ps, cutoff) + CountAfter(Times(Errors(Recent(ps))), cutoff)
  {
    hide CountAfter, LastN, Times;
    var gone, win := Older(ps), Recent(ps);
    FilterConcat(gone, win, ErrorPush());
    TimesConcat(Errors(gone), Errors(win));
    LastNConcat(Times(Errors(gone)), Times(Errors(win)), DEFAULT_EVENT_TRACKER_CAPACITY);
    CountConcat(
      LastN(Times(Errors(gone)), DEFAULT_EVENT_TRACKER_CAPACITY - |Errors(win)|), Times(Errors(win)), cutoff);
  }

  lemma RateInRange(er: nat, ev: nat)
    requires ev > 0
    ensures 0.0 <= er as real / ev as real <= 1.0 <==> er <= ev
  {
    var q := er as real / ev as real;
    assert q * ev as real == er as real;
    if er <= ev { RatioBounds(er, ev); } else { assert q > 1.0 by { RatioAbove(er as real, ev as real); } }
  }

  lemma RatioAbove(x: real, y: real)
    requires 0.0 < y < x
    ensures x / y > 1.0
  {
  }

  /** For a reader no push overtakes, the error rate lies in [0, 1] exactly when the strays are covered. */
  lemma ErrorRateInRangeIff(ps: seq<Push>, now: int)
    ensures 0.0 <= StatusOf(ServiceAfter(ps), now).errorRate <= 1.0 <==> StraysCovered(ps, now - 5 * SECOND)
  {
    hide ServiceAfter, PushService, CountAfter, LastN, Times, Errors, NonErrors, Stray;
    var cutoff := now - 5 * SECOND;
    ActivityIsWindow(ps);
    LastNTimes(ps, DEFAULT_EVENT_TRACKER_CAPACITY);
    CountedErrors(ps, cutoff);
    SplitCount(Recent(ps), cutoff);
    var sv := ServiceAfter(ps);
    var er, ev := CountAfter(sv.errors, cutoff), CountAfter(sv.events, cutoff);
    if ev > 0 { RateInRange(er, ev); }
  }

  /** In order, a stray error is recent only when a whole ring of events is. */
  lemma OrderedStray(ps: seq<Push>, cutoff: int)
    requires Nondecreasing(Times(ps))
    ensures StraysCovered(ps, cutoff)
  {
    hide CountAfter, LastN, Times, Errors, NonErrors, Stray;
    ErrorsAreEvents(ps, cutoff);
    ErrorsNondecreasing(ps);
    WindowCount(Times(ps), DEFAULT_EVENT_TRACKER_CAPACITY, cutoff);
    WindowCount(Times(Errors(ps)), DEFAULT_EVENT_TRACKER_CAPACITY, cutoff);
    LastNTimes(ps, DEFAULT_EVENT_TRACKER_CAPACITY);
    CountedErrors(ps, cutoff);
    SplitCount(Recent(ps), cutoff);
  }

  lemma NoStray(ps: seq<Push>, cutoff: int)
    requires |ps| <= DEFAULT_EVENT_TRACKER_CAPACITY
    ensures Stray(ps, cutoff) == 0
  {
    assert Older(ps) == [];
  }

  /** The two rings evict independently, yet for such a reader the error rate stays in [0, 1] when times are
      recorded in order or when nothing has been evicted yet. */
  lemma ErrorRateBounded(ps: seq<Push>, now: int)
    requires Nondecreasing(Times(ps)) || |ps| <= DEFAULT_EVENT_TRACKER_CAPACITY
    ensures 0.0 <= StatusOf(ServiceAfter(ps), now).errorRate <= 1.0
  {
    hide ServiceAfter, StatusOf, Stray, CountAfter, Nondecreasing;
    ErrorRateInRangeIff(ps, now);
    if |ps| <= DEFAULT_EVENT_TRACKER_CAPACITY {
      NoStray(ps, now - 5 * SECOND);
    } else {
      OrderedStray(ps, now - 5 * SECOND);
    }
  }

  // ---- the bound fails out of order --------------------------------------------------------------

  function Late(n: nat, log: LogEvent): seq<Push> {
    if n == 0 then [] else Late(n - 1, log) + [PushedLog(log, 0)]
  }

  lemma {:induction false} LateTimes(n: nat, log: LogEvent)
    requires log.timestamp == 1 && log.level != "ERROR"
    ensures |Late(n, log)| == n && Errors(Late(n, log)) == []
    ensures forall i :: 0 <= i < n ==> Late(n, log)[i] == PushedLog(log, 0)
  {
    if n > 0 {
      LateTimes(n - 1, log);
      FilterAppend(Late(n - 1, log), PushedLog(log, 0), ErrorPush());
    }
  }

  /** Two recent errors, then 4095 old log lines delivered late: one recent event is left, and both errors. */
  function OutOfOrder(now: int): seq<Push> {
    var err, info := LogEvent(now, "ERROR", "", "s", "", map[]), LogEvent(1, "INFO", "", "s", "", map[]);
    [PushedLog(err, 0), PushedLog(err, 0)] + Late(DEFAULT_EVENT_TRACKER_CAPACITY - 1, info)
  }

  lemma ExampleErrors(now: int)
    requires now > 0
    ensures Times(Errors(OutOfOrder(now))) == [now, now]
  {
    var err, info := LogEvent(now, "ERROR", "", "s", "", map[]), LogEvent(1, "INFO", "", "s", "", map[]);
    var two, late := [PushedLog(err, 0), PushedLog(err, 0)], Late(DEFAULT_EVENT_TRACKER_CAPACITY - 1, info);
    LateTimes(DEFAULT_EVENT_TRACKER_CAPACITY - 1, info);
    FilterConcat(two, late, ErrorPush());
    AllPass(two, ErrorPush());
    assert Errors(OutOfOrder(now)) == two;
  }

  lemma ExampleEvents(now: int)
    requires now > 0
    ensures var ev := LastN(Times(OutOfOrder(now)), DEFAULT_EVENT_TRACKER_CAPACITY);
            |ev| == DEFAULT_EVENT_TRACKER_CAPACITY && ev[0] == now && forall i :: 0 < i < |ev| ==> ev[i] == 1
  {
    var err, info := LogEvent(now, "ERROR", "", "s", "", map[]), LogEvent(1, "INFO", "", "s", "", map[]);
    var late := Late(DEFAULT_EVENT_TRACKER_CAPACITY - 1, info);
    LateTimes(DEFAULT_EVENT_TRACKER_CAPACITY - 1, info);
    var ps := OutOfOrder(now);
    assert forall i :: 2 <= i < |ps| ==> ps[i] == late[i - 2];
    assert ps[1] == PushedLog(err, 0);
  }

  lemma CountOne(x: int, cutoff: int)
    requires x > cutoff
    ensures CountAfter([x], cutoff) == 1
  {
    assert [x][..0] == [];
  }

  lemma ErrorRateExceedsOne(now: int)
    requires now > 6 * SECOND
    ensures StatusOf(ServiceAfter(OutOfOrder(now)), now).errorRate == 2.0
  {
    var ps, cutoff := OutOfOrder(now), now - 5 * SECOND;
    ActivityIsWindow(ps);
    ExampleErrors(now);
    ExampleEvents(now);
    CountOne(now, cutoff);
    assert [now, now] == [now] + [now];
    CountConcat([now], [now], cutoff);
    var ev := LastN(Times(ps), DEFAULT_EVENT_TRACKER_CAPACITY);
    assert ev == [now] + ev[1..];
    CountConcat([now], ev[1..], cutoff);
    CountNone(ev[1..], cutoff);
  }

  lemma {:induction false} CountConcat(a: seq<int>, b: seq<int>, cutoff: int)
    ensures CountAfter(a + b, cutoff) == CountAfter(a, cutoff) + CountAfter(b, cutoff)
  {
    if b == [] {
      assert a + b == a;
    } else {
      CountConcat(a, b[..|b| - 1], cutoff);
      assert (a + b)[..|a + b| - 1] == a + b[..|b| - 1];
    }
  }
}
