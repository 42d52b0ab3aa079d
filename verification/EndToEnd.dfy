// From an agent's pump to a subscriber of the dashboard's bus: cmd/taplytix/main.go, startReceivers, between
// internal/receiver/remote.go and internal/bus/bus.go.
module EndToEnd {
  import opened Common
  import opened Buses
  import opened Pipeline
  import Wire

  const OUT_BUFFER: nat := 4096

  /** An event in the receivers' queue: from the agent, or from any other receiver. */
  datatype Arrival = Arrival(agent: bool, event: Wire.Event)

  /** The whole way: the agent's steps, another receiver putting an event into the queue, one step of the dashboard's
      loop that takes the next event from the queue and publishes it, and the subscribers' own steps. */
  datatype WayStep =
    | Agent(agent: Pipeline.Step)
    | Other(event: Wire.Event)
    | Forward
    | Consumer(consumer: Buses.Step<Wire.Event>)

  /** What agent and bus have done so far, all that entered the queue, and how much of it the loop has taken. */
  datatype Way = Way(agent: seq<Pipeline.Step>, bus: seq<Buses.Step<Wire.Event>>, arrived: seq<Arrival>, taken: nat)

  predicate HasRoom(w: Way) { |w.arrived| - w.taken < OUT_BUFFER }

  ghost predicate WayEnabled(c: Wire.Codec, w: Way, step: WayStep)
    requires Pipeline.Run(c, w.agent)
  {
    match step
    case Agent(a) => Pipeline.Enabled(c, After(c, w.agent), a) && (a.Read? ==> a.room == HasRoom(w))
    case Other(_) => HasRoom(w)
    case Forward => w.taken < |w.arrived|
    case Consumer(b) => !b.Publish?
  }

  ghost function WayNext(c: Wire.Codec, w: Way, step: WayStep): (r: Way)
    requires Pipeline.Run(c, w.agent) && WayEnabled(c, w, step)
    ensures Pipeline.Run(c, r.agent)
  {
    match step
    case Agent(a) =>
      AppendStep(c, w.agent, a);
      var before, after := After(c, w.agent).emitted, After(c, w.agent + [a]).emitted;
      w.(agent := w.agent + [a],
         arrived := if |after| > |before| then w.arrived + [Arrival(true, after[|after| - 1].1)] else w.arrived)
    case Other(e) => w.(arrived := w.arrived + [Arrival(false, e)])
    case Forward => w.(bus := w.bus + [Publish(w.arrived[w.taken].event)], taken := w.taken + 1)
    case Consumer(b) => w.(bus := w.bus + [b])
  }

  ghost predicate WayRun(c: Wire.Codec, steps: seq<WayStep>)
    decreases |steps|, 0
  {
    if steps == [] then true
    else
      && WayRun(c, steps[..|steps| - 1])
      && WayEnabled(c, WayAfter(c, steps[..|steps| - 1]), steps[|steps| - 1])
  }

  ghost function WayAfter(c: Wire.Codec, steps: seq<WayStep>): (w: Way)
    requires WayRun(c, steps)
    ensures Pipeline.Run(c, w.agent)
    decreases |steps|, 1
  {
    if steps == [] then Way([], [], [], 0) else WayNext(c, WayAfter(c, steps[..|steps| - 1]), steps[|steps| - 1])
  }

  // ---- what entered the queue --------------------------------------------------------------------------------

  function EventsOf(arrived: seq<Arrival>): (r: seq<Wire.Event>)
    ensures |r| == |arrived|
  {
    seq(|arrived|, i requires 0 <= i < |arrived| => arrived[i].event)
  }

  function IsAgents(): Arrival -> bool { (a: Arrival) => a.agent }

  /** The agent's part of the queue. */
  function AgentEvents(arrived: seq<Arrival>): seq<Wire.Event> { EventsOf(Filter(arrived, IsAgents())) }

  lemma AgentEventsPush(arrived: seq<Arrival>, a: Arrival)
    ensures EventsOf(arrived + [a]) == EventsOf(arrived) + [a.event]
    ensures AgentEvents(arrived + [a]) == if a.agent then AgentEvents(arrived) + [a.event] else AgentEvents(arrived)
  {
    FilterAppend(arrived, a, IsAgents());
  }

  /** The loop has published what it has taken, the agent's part of the queue is what the dashboard's connection
      emitted, and the queue never overflows. */
  ghost predicate WayInv(c: Wire.Codec, w: Way)
    requires Pipeline.Run(c, w.agent)
  {
    && w.taken <= |w.arrived| <= w.taken + OUT_BUFFER
    && AllPublished(w.bus) == EventsOf(w.arrived[..w.taken])
    && AgentEvents(w.arrived) == Events(After(c, w.agent).emitted)
  }

  lemma EmitsAtMostOne(c: Wire.Codec, s: Pipeline.State, step: Pipeline.Step)
    requires Pipeline.Enabled(c, s, step)
    ensures var e := Next(c, s, step).emitted;
            e == s.emitted || (step.Read? && step.room && |e| == |s.emitted| + 1 && e[..|s.emitted|] == s.emitted)
  {
  }

  lemma AllPublishedPush<T>(steps: seq<Buses.Step<T>>, step: Buses.Step<T>)
    ensures AllPublished(steps + [step]) ==
            if step.Publish? then AllPublished(steps) + [step.event] else AllPublished(steps)
  {
    assert (steps + [step])[..|steps|] == steps;
  }

  lemma AgentKeeps(c: Wire.Codec, w: Way, a: Pipeline.Step)
    requires Pipeline.Run(c, w.agent) && WayInv(c, w) && WayEnabled(c, w, Agent(a))
    ensures WayInv(c, WayNext(c, w, Agent(a)))
  {
    var before, after := After(c, w.agent).emitted, Next(c, After(c, w.agent), a).emitted;
    AppendStep(c, w.agent, a);
    EmitsAtMostOne(c, After(c, w.agent), a);
    hide Pipeline.Run, After, Next, Pipeline.Enabled;
    if after != before {
      var last := after[|before|];
      assert after == before + [last];
      EventsPush(before, last.0, last.1);
      AgentEventsPush(w.arrived, Arrival(true, last.1));
      assert (w.arrived + [Arrival(true, last.1)])[..w.taken] == w.arrived[..w.taken];
    }
  }

  lemma WayStepKeeps(c: Wire.Codec, w: Way, step: WayStep)
    requires Pipeline.Run(c, w.agent) && WayInv(c, w) && WayEnabled(c, w, step)
    ensures WayInv(c, WayNext(c, w, step))
  {
    match step {
      case Agent(a) => AgentKeeps(c, w, a);
      case Other(e) =>
        AgentEventsPush(w.arrived, Arrival(false, e));
        assert (w.arrived + [Arrival(false, e)])[..w.taken] == w.arrived[..w.taken];
      case Forward =>
        AllPublishedPush(w.bus, Publish(w.arrived[w.taken].event));
        assert w.arrived[..w.taken + 1] == w.arrived[..w.taken] + [w.arrived[w.taken]];
        AgentEventsPush(w.arrived[..w.taken], w.arrived[w.taken]);
      case Consumer(b) => AllPublishedPush(w.bus, b);
    }
  }

  lemma {:induction false} WayKeeps(c: Wire.Codec, steps: seq<WayStep>)
    requires WayRun(c, steps)
    ensures WayInv(c, WayAfter(c, steps))
  {
    if steps != [] {
      WayKeeps(c, steps[..|steps| - 1]);
      WayStepKeeps(c, WayAfter(c, steps[..|steps| - 1]), steps[|steps| - 1]);
    } else {
      assert AllPublished(WayAfter(c, []).bus) == [];
    }
  }

  // ---- what a subscriber sees of it --------------------------------------------------------------------------

  /** The events seen that came from the agent; at[j] is the place in the queue of the j-th event seen. */
  function Agents(seen: seq<Wire.Event>, at: seq<nat>, arrived: seq<Arrival>): seq<Wire.Event>
    requires |at| == |seen| && forall j :: 0 <= j < |at| ==> at[j] < |arrived|
  {
    if seen == [] then []
    else
      var j := |seen| - 1;
      var init := Agents(seen[..j], at[..j], arrived);
      if arrived[at[j]].agent then init + [seen[j]] else init
  }

  /** Leaving out all but the agent's events on both sides keeps order and identity. */
  lemma {:induction false} AgentsEmbed(seen: seq<Wire.Event>, at: seq<nat>, arrived: seq<Arrival>)
    requires Embeds(seen, EventsOf(arrived), at)
    ensures Subsequence(Agents(seen, at, arrived), AgentEvents(arrived))
    decreases |arrived|
  {
    if seen == [] {
      assert Embeds(Agents(seen, at, arrived), AgentEvents(arrived), []);
    } else {
      assert at[|seen| - 1] < |arrived|;
      var init, last, j := arrived[..|arrived| - 1], arrived[|arrived| - 1], |seen| - 1;
      assert arrived == init + [last];
      AgentEventsPush(init, last);
      if at[j] == |init| {
        EmbedsInit(seen, at, arrived);
        AgentsEmbed(seen[..j], at[..j], init);
        AgentsShorter(seen[..j], at[..j], init, last);
        AppendBoth(Agents(seen[..j], at[..j], init), AgentEvents(init), last);
      } else {
        AgentsEmbed(seen, at, init);
        AgentsShorter(seen, at, init, last);
        AppendBoth(Agents(seen, at, init), AgentEvents(init), last);
      }
    }
  }

  lemma EmbedsInit(seen: seq<Wire.Event>, at: seq<nat>, arrived: seq<Arrival>)
    requires Embeds(seen, EventsOf(arrived), at) && seen != [] && at[|seen| - 1] == |arrived| - 1
    ensures Embeds(seen[..|seen| - 1], EventsOf(arrived[..|arrived| - 1]), at[..|seen| - 1])
  {
  }

  /** Places before the last do not depend on it. */
  lemma {:induction false} AgentsShorter(seen: seq<Wire.Event>, at: seq<nat>, init: seq<Arrival>, last: Arrival)
    requires |at| == |seen| && forall j :: 0 <= j < |at| ==> at[j] < |init|
    ensures Agents(seen, at, init + [last]) == Agents(seen, at, init)
    decreases |seen|
  {
    if seen != [] { AgentsShorter(seen[..|seen| - 1], at[..|seen| - 1], init, last); }
  }

  lemma AppendBoth(a: seq<Wire.Event>, b: seq<Wire.Event>, last: Arrival)
    requires Subsequence(a, b)
    ensures Subsequence(a, if last.agent then b + [last.event] else b)
    ensures last.agent ==> Subsequence(a + [last.event], b + [last.event])
  {
    var at: seq<nat> :| Embeds(a, b, at);
    if last.agent {
      assert Embeds(a, b + [last.event], at);
      assert Embeds(a + [last.event], b + [last.event], at + [|b|]);
    }
  }

  /** What a subscriber has received, and what waits in its buffer. */
  function SeenBy(cap: nat, bus: seq<Buses.Step<Wire.Event>>, i: nat): seq<Wire.Event>
    requires i < |RunBus(cap, bus)|
  {
    RunBus(cap, bus)[i].received + RunBus(cap, bus)[i].buf
  }

  lemma SeenEmbeds(cap: nat, bus: seq<Buses.Step<Wire.Event>>, i: nat, arrived: seq<Arrival>, taken: nat)
    returns (at: seq<nat>)
    requires i < |RunBus(cap, bus)| && taken <= |arrived| && AllPublished(bus) == EventsOf(arrived[..taken])
    ensures Embeds(SeenBy(cap, bus, i), EventsOf(arrived), at)
  {
    BusAccounts(cap, bus, i);
    PublishedSinceIsPart(cap, bus, i);
    SubsequenceTransitive(SeenBy(cap, bus, i), PublishedSince(cap, bus, i), AllPublished(bus));
    at :| Embeds(SeenBy(cap, bus, i), AllPublished(bus), at);
  }

  /** Over every interleaving of agent, connection, all receivers, the publishing loop and the subscribers: a subscriber
      sees an in-order subsequence of what entered the receivers' queue, and what it sees of the agent is an in-order
      subsequence of what entered the agent's pump. */
  lemma SeenInOrder(c: Wire.Codec, steps: seq<WayStep>, cap: nat, i: nat) returns (at: seq<nat>)
    requires Wire.Lossless(c) && WayRun(c, steps) && i < |RunBus(cap, WayAfter(c, steps).bus)|
    ensures var w := WayAfter(c, steps);
            && Embeds(SeenBy(cap, w.bus, i), EventsOf(w.arrived), at)
            && Subsequence(Agents(SeenBy(cap, w.bus, i), at, w.arrived), After(c, w.agent).input)
  {
    WayKeeps(c, steps);
    var w := WayAfter(c, steps);
    at := SeenEmbeds(cap, w.bus, i, w.arrived, w.taken);
    AgentsEmbed(SeenBy(cap, w.bus, i), at, w.arrived);
    EmitsInOrderSubsequence(c, w.agent);
    var seen := Agents(SeenBy(cap, w.bus, i), at, w.arrived);
    SubsequenceTransitive(seen, AgentEvents(w.arrived), After(c, w.agent).input);
  }
}
