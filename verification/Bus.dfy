// Non-blocking publish and subscribe: internal/bus/bus.go, over Go's buffered channels.
module Buses {
  import opened Pipeline

  const DEFAULT_SUBSCRIBER_BUFFER: nat := 1000

  /** One attempt to hand an event to a subscriber, and whether its buffer had room. */
  datatype Attempt<T> = Attempt(event: T, room: bool)

  /** A subscriber: what waits in its buffer, what it has received, and every attempt since it subscribed. */
  datatype Sub<T> = Sub(cap: nat, buf: seq<T>, received: seq<T>, log: seq<Attempt<T>>)

  function Offered<T>(s: Sub<T>, e: T): Sub<T> {
    var room := |s.buf| < s.cap;
    s.(buf := if room then s.buf + [e] else s.buf, log := s.log + [Attempt(e, room)])
  }

  function Taken<T>(s: Sub<T>): Sub<T>
    requires s.buf != []
  {
    s.(buf := s.buf[1..], received := s.received + [s.buf[0]])
  }

  /** The events that found room, in order. */
  function Kept<T>(log: seq<Attempt<T>>): seq<T> {
    if log == [] then []
    else
      var init, last := Kept(log[..|log| - 1]), log[|log| - 1];
      if last.room then init + [last.event] else init
  }

  function Lost<T>(log: seq<Attempt<T>>): seq<T> {
    if log == [] then []
    else
      var init, last := Lost(log[..|log| - 1]), log[|log| - 1];
      if last.room then init else init + [last.event]
  }

  function EventsIn<T>(log: seq<Attempt<T>>): (r: seq<T>)
    ensures |r| == |log|
  {
    seq(|log|, i requires 0 <= i < |log| => log[i].event)
  }

  /** received, then buffered, is exactly what found room; the buffer never outgrows its capacity. */
  ghost predicate Conserved<T>(s: Sub<T>) {
    s.received + s.buf == Kept(s.log) && |s.buf| <= s.cap
  }

  lemma OfferConserves<T>(s: Sub<T>, e: T)
    requires Conserved(s)
    ensures Conserved(Offered(s, e)) && EventsIn(Offered(s, e).log) == EventsIn(s.log) + [e]
  {
    var a := Attempt(e, |s.buf| < s.cap);
    assert (s.log + [a])[..|s.log|] == s.log;
    assert s.received + (s.buf + [e]) == (s.received + s.buf) + [e];
  }

  lemma TakeConserves<T>(s: Sub<T>)
    requires Conserved(s) && s.buf != []
    ensures Conserved(Taken(s)) && Taken(s).log == s.log
  {
    assert s.received + [s.buf[0]] + s.buf[1..] == s.received + s.buf;
  }

  /** published = received + buffered + dropped. */
  lemma {:induction false} KeptPlusLost<T>(log: seq<Attempt<T>>)
    ensures multiset(EventsIn(log)) == multiset(Kept(log)) + multiset(Lost(log))
    ensures |log| == |Kept(log)| + |Lost(log)|
  {
    if log != [] {
      var init, last := log[..|log| - 1], log[|log| - 1];
      KeptPlusLost(init);
      assert EventsIn(log) == EventsIn(init) + [last.event];
    }
  }

  lemma {:induction false} KeptInOrder<T>(log: seq<Attempt<T>>)
    ensures Subsequence(Kept(log), EventsIn(log))
    decreases |log|
  {
    if log == [] {
      assert Embeds(Kept(log), EventsIn(log), []);
    } else {
      var init, last := log[..|log| - 1], log[|log| - 1];
      KeptInOrder(init);
      var at: seq<nat> :| Embeds(Kept(init), EventsIn(init), at);
      assert EventsIn(log) == EventsIn(init) + [last.event];
      EmbedsAppend(Kept(init), EventsIn(init), at, last.event);
      assert Embeds(Kept(log), EventsIn(log), if last.room then at + [|init|] else at);
    }
  }

  lemma EmbedsAppend<T>(a: seq<T>, b: seq<T>, at: seq<nat>, x: T)
    requires Embeds(a, b, at)
    ensures Embeds(a, b + [x], at) && Embeds(a + [x], b + [x], at + [|b|])
  {
  }

  // ---- whole runs of the bus --------------------------------------------------------------------------

  datatype Step<T> = Publish(event: T) | Subscribe | Receive(i: nat)

  function OfferAll<T>(subs: seq<Sub<T>>, e: T): (r: seq<Sub<T>>)
    ensures |r| == |subs|
  {
    seq(|subs|, i requires 0 <= i < |subs| => Offered(subs[i], e))
  }

  function NewSub<T>(cap: nat): Sub<T> { Sub(cap, [], [], []) }

  /** A receive on an empty buffer blocks: it is no step. */
  function StepBus<T>(subs: seq<Sub<T>>, cap: nat, step: Step<T>): seq<Sub<T>> {
    match step
    case Publish(e) => OfferAll(subs, e)
    case Subscribe => subs + [NewSub(cap)]
    case Receive(i) => if i < |subs| && subs[i].buf != [] then subs[i := Taken(subs[i])] else subs
  }

  function RunBus<T>(cap: nat, steps: seq<Step<T>>): seq<Sub<T>> {
    if steps == [] then [] else StepBus(RunBus(cap, steps[..|steps| - 1]), cap, steps[|steps| - 1])
  }

  /** The events published after the i-th subscription. */
  function PublishedSince<T>(cap: nat, steps: seq<Step<T>>, i: nat): seq<T> {
    if steps == [] then []
    else
      var init, last := steps[..|steps| - 1], steps[|steps| - 1];
      if last.Publish? && i < |RunBus(cap, init)| then PublishedSince(cap, init, i) + [last.event]
      else PublishedSince(cap, init, i)
  }

  lemma {:induction false} NothingBefore<T>(cap: nat, steps: seq<Step<T>>, i: nat)
    requires i >= |RunBus(cap, steps)|
    ensures PublishedSince(cap, steps, i) == []
  {
    if steps != [] { NothingBefore(cap, steps[..|steps| - 1], i); }
  }

  /** For every run and every subscriber: what it received followed by what is buffered are exactly the events
      published since it subscribed that found room, in order; the rest met a full buffer. */
  lemma {:induction false} BusConserves<T>(cap: nat, steps: seq<Step<T>>, i: nat)
    requires i < |RunBus(cap, steps)|
    ensures var s := RunBus(cap, steps)[i];
            Conserved(s) && s.cap == cap && EventsIn(s.log) == PublishedSince(cap, steps, i)
  {
    var init, last := steps[..|steps| - 1], steps[|steps| - 1];
    var subs := RunBus(cap, init);
    if i < |subs| {
      BusConserves(cap, init, i);
      match last {
        case Publish(e) => OfferConserves(subs[i], e);
        case Subscribe =>
        case Receive(j) => if j == i && subs[i].buf != [] { TakeConserves(subs[i]); }
      }
    } else {
      NothingBefore(cap, init, i);
    }
  }

  /** So published = received + buffered + dropped, and a subscriber sees an in-order subsequence. */
  lemma BusAccounts<T>(cap: nat, steps: seq<Step<T>>, i: nat)
    requires i < |RunBus(cap, steps)|
    ensures var s, published := RunBus(cap, steps)[i], PublishedSince(cap, steps, i);
            && |published| == |s.received| + |s.buf| + |Lost(s.log)|
            && |s.buf| <= cap
            && Subsequence(s.received + s.buf, published)
  {
    BusConserves(cap, steps, i);
    KeptPlusLost(RunBus(cap, steps)[i].log);
    KeptInOrder(RunBus(cap, steps)[i].log);
  }

  // ---- what is dropped ---------------------------------------------------------------------------------

  /** A publication reaches a subscriber exactly when its buffer has room, and then waits behind all that does. */
  lemma PublishReaches<T>(cap: nat, steps: seq<Step<T>>, e: T, i: nat)
    requires i < |RunBus(cap, steps)|
    ensures var before, subs := RunBus(cap, steps)[i], RunBus(cap, steps + [Publish(e)]);
            && |subs| == |RunBus(cap, steps)| && subs[i].received == before.received && before.cap == cap
            && subs[i].buf == if |before.buf| < cap then before.buf + [e] else before.buf
  {
    BusConserves(cap, steps, i);
    assert (steps + [Publish(e)])[..|steps|] == steps;
  }

  /** A receive takes the event that has waited longest, from that subscriber alone; a new subscriber has nothing. */
  lemma ReceiveTakesOldest<T>(cap: nat, steps: seq<Step<T>>, i: nat)
    ensures var subs, after := RunBus(cap, steps), RunBus(cap, steps + [Receive(i)]);
            && |after| == |subs| && (forall j :: 0 <= j < |subs| && j != i ==> after[j] == subs[j])
            && (i < |subs| && subs[i].buf == [] ==> after[i] == subs[i])
            && (i < |subs| && subs[i].buf != [] ==>
                  after[i].received + after[i].buf == subs[i].received + subs[i].buf
                  && after[i].received == subs[i].received + [subs[i].buf[0]])
    ensures var subs, after := RunBus(cap, steps), RunBus(cap, steps + [Subscribe]);
            && |after| == |subs| + 1 && after[..|subs|] == subs
            && after[|subs|].received == [] && after[|subs|].buf == []
  {
    assert (steps + [Receive(i)])[..|steps|] == steps && (steps + [Step<T>.Subscribe])[..|steps|] == steps;
    var subs := RunBus(cap, steps);
    if i < |subs| && subs[i].buf != [] {
      assert subs[i].received + [subs[i].buf[0]] + subs[i].buf[1..] == subs[i].received + subs[i].buf;
    }
  }

  /** No publication met a full buffer of this subscriber. */
  ghost predicate NeverFull<T>(cap: nat, steps: seq<Step<T>>, i: nat) {
    forall k :: 0 <= k < |steps| && steps[k].Publish? && i < |RunBus(cap, steps[..k])| ==>
      |RunBus(cap, steps[..k])[i].buf| < cap
  }

  lemma NeverFullInit<T>(cap: nat, steps: seq<Step<T>>, i: nat)
    requires steps != []
    ensures var init, last := steps[..|steps| - 1], steps[|steps| - 1];
            NeverFull(cap, steps, i) <==>
              && NeverFull(cap, init, i)
              && (last.Publish? && i < |RunBus(cap, init)| ==> |RunBus(cap, init)[i].buf| < cap)
  {
    hide RunBus;
    var init := steps[..|steps| - 1];
    assert forall k :: 0 <= k < |init| ==> init[..k] == steps[..k] && init[k] == steps[k];
  }

  lemma {:induction false} NothingFull<T>(cap: nat, steps: seq<Step<T>>, i: nat)
    requires i >= |RunBus(cap, steps)|
    ensures NeverFull(cap, steps, i)
  {
    if steps != [] {
      NothingFull(cap, steps[..|steps| - 1], i);
      NeverFullInit(cap, steps, i);
    }
  }

  ghost predicate Complete<T>(seen: seq<T>, published: seq<T>, full: bool) {
    |seen| <= |published| && (|seen| == |published| <==> !full) && (!full ==> seen == published)
  }

  /** What one step does to what a subscriber has seen and to what was published to it. */
  lemma CompleteStep<T>(cap: nat, steps: seq<Step<T>>, i: nat)
    requires steps != []
    requires var init := steps[..|steps| - 1];
             && i < |RunBus(cap, init)|
             && var s := RunBus(cap, init)[i];
                Complete(s.received + s.buf, PublishedSince(cap, init, i), !NeverFull(cap, init, i))
    ensures var s := RunBus(cap, steps)[i];
            Complete(s.received + s.buf, PublishedSince(cap, steps, i), !NeverFull(cap, steps, i))
  {
    var init, last := steps[..|steps| - 1], steps[|steps| - 1];
    assert steps == init + [last];
    NeverFullInit(cap, steps, i);
    hide NeverFull;
    match last {
      case Publish(e) => PublishReaches(cap, init, e, i);
      case Subscribe => ReceiveTakesOldest(cap, init, i);
      case Receive(j) => ReceiveTakesOldest(cap, init, j);
    }
  }

  /** A subscriber sees, or still has waiting, all that was published since it subscribed exactly when none of it met a
      full buffer. */
  lemma {:induction false} SeesAllIff<T>(cap: nat, steps: seq<Step<T>>, i: nat)
    requires i < |RunBus(cap, steps)|
    ensures var s := RunBus(cap, steps)[i];
            Complete(s.received + s.buf, PublishedSince(cap, steps, i), !NeverFull(cap, steps, i))
  {
    var init := steps[..|steps| - 1];
    if i < |RunBus(cap, init)| {
      SeesAllIff(cap, init, i);
      CompleteStep(cap, steps, i);
    } else {
      NothingBefore(cap, init, i);
      NothingFull(cap, init, i);
      NeverFullInit(cap, steps, i);
    }
  }

  function AllPublished<T>(steps: seq<Step<T>>): seq<T> {
    if steps == [] then []
    else
      var init, last := AllPublished(steps[..|steps| - 1]), steps[|steps| - 1];
      if last.Publish? then init + [last.event] else init
  }

  lemma {:induction false} PublishedSinceIsPart<T>(cap: nat, steps: seq<Step<T>>, i: nat)
    ensures Subsequence(PublishedSince(cap, steps, i), AllPublished(steps))
    decreases |steps|
  {
    if steps == [] {
      assert Embeds(PublishedSince(cap, steps, i), AllPublished(steps), []);
    } else {
      var init, last := steps[..|steps| - 1], steps[|steps| - 1];
      PublishedSinceIsPart(cap, init, i);
      var at: seq<nat> :| Embeds(PublishedSince(cap, init, i), AllPublished(init), at);
      if last.Publish? {
        EmbedsAppend(PublishedSince(cap, init, i), AllPublished(init), at, last.event);
      }
    }
  }

  // ---- the bus itself -----------------------------------------------------------------------------------

  /** A Go channel as the bus uses it. The ghost fields remember its past. */
  class Chan<T> {
    const cap: nat
    var buf: seq<T>
    var closed: bool
    ghost var received: seq<T>
    ghost var log: seq<Attempt<T>>

    ghost function View(): Sub<T>
      reads this
    {
      Sub(cap, buf, received, log)
    }

    constructor (cap: nat)
      ensures View() == NewSub(cap) && !closed
    {
      this.cap := cap;
      buf, closed, received, log := [], false, [], [];
    }

    /** A send that does not wait. On a closed channel it would panic, hence the precondition. */
    method TrySend(event: T)
      requires !closed
      modifies this
      ensures !closed && View() == Offered(old(View()), event)
      ensures buf == if |old(buf)| < cap then old(buf) + [event] else old(buf)
    {
      log := log + [Attempt(event, |buf| < cap)];
      if |buf| < cap {
        buf := buf + [event];
      }
    }

    method Receive() returns (event: T)
      requires buf != []
      modifies this
      ensures closed == old(closed) && View() == Taken(old(View())) && event == old(buf)[0]
    {
      event := buf[0];
      buf, received := buf[1..], received + [event];
    }
  }

  class Bus<T> {
    var subscribers: seq<Chan<T>>
    const bufSize: nat

    /** Every channel on the list is open and listed once, so no send ever meets a closed channel. */
    ghost predicate Valid()
      reads this, subscribers
    {
      && (forall i :: 0 <= i < |subscribers| ==> !subscribers[i].closed)
      && (forall i, j :: 0 <= i < j < |subscribers| ==> subscribers[i] != subscribers[j])
    }

    ghost function View(): (v: seq<Sub<T>>)
      reads this, subscribers
      ensures |v| == |subscribers|
    {
      seq(|subscribers|, i requires 0 <= i < |subscribers| reads this, subscribers => subscribers[i].View())
    }

    constructor ()
      ensures Valid() && View() == RunBus(DEFAULT_SUBSCRIBER_BUFFER, []) && bufSize == DEFAULT_SUBSCRIBER_BUFFER
    {
      subscribers := [];
      bufSize := DEFAULT_SUBSCRIBER_BUFFER;
    }

    method Publish(event: T)
      requires Valid()
      modifies subscribers
      ensures Valid()
      ensures View() == StepBus(old(View()), bufSize, Step.Publish(event))
    {
      for i := 0 to |subscribers|
        invariant Valid()
        invariant forall j :: 0 <= j < i ==> subscribers[j].View() == Offered(old(subscribers[j].View()), event)
        invariant forall j :: i <= j < |subscribers| ==> subscribers[j].View() == old(subscribers[j].View())
      {
        subscribers[i].TrySend(event);
      }
    }

    method Subscribe() returns (ch: Chan<T>)
      requires Valid()
      modifies this
      ensures Valid() && fresh(ch) && subscribers == old(subscribers) + [ch]
      ensures View() == StepBus(old(View()), bufSize, Step.Subscribe)
    {
      ch := new Chan(bufSize);
      subscribers := subscribers + [ch];
    }

    /** Closes each channel once and forgets them all: later publishes reach nobody. */
    method Close()
      requires Valid()
      modifies this, subscribers
      ensures Valid() && subscribers == []
      ensures forall i :: 0 <= i < |old(subscribers)| ==>
                old(subscribers)[i].closed && old(subscribers)[i].View() == old(subscribers[i].View())
    {
      for i := 0 to |subscribers|
        invariant subscribers == old(subscribers)
        invariant forall j :: 0 <= j < i ==> subscribers[j].closed
        invariant forall j :: 0 <= j < |subscribers| ==> subscribers[j].View() == old(subscribers[j].View())
      {
        subscribers[i].closed := true;
      }
      subscribers := [];
    }
  }
}
