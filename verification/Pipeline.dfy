// The lossy event pipeline from an agent to a dashboard: internal/agent/broadcaster.go (Pump, fanout,
// ServeHTTP) and internal/receiver/remote.go (runLoop, connectAndPump, emit), as steps of concurrent threads.
module Pipeline {
  import opened Common
  import opened Wire

  const SEND_BUFFER: nat := 1024

  type ClientId = nat

  /** An encoded event on its way, with its position in the pump's input. */
  datatype Item = Item(idx: nat, data: Bytes)

  /** One server-side connection: its send channel, and what has been written but not yet read. */
  datatype Client = Client(
    accepted: bool, registered: bool, writing: bool, send: seq<Item>, conn: seq<Item>)

  const NEW_CLIENT := Client(false, false, false, [], [])

  /** The pump's loop: waiting for input, holding an encoded item, or offering it to a snapshot of the clients. */
  datatype Pump = Waiting | Encoded(item: Item) | Sending(item: Item, targets: set<ClientId>)

  /** The dashboard's connection loop. */
  datatype Receiver = Idle | Dialing(c: ClientId) | Reading(c: ClientId)

  /** input is everything the pump has taken in; emitted is what the dashboard has passed on. */
  datatype State = State(
    input: seq<Event>, pump: Pump, clients: map<ClientId, Client>, recv: Receiver, emitted: seq<(nat, Event)>)

  const INIT := State([], Waiting, map[], Idle, [])

  datatype Step =
    | PumpRead(ev: Event)             // Pump takes an event and encodes it
    | PumpSnapshot                    // fanout copies the table of clients
    | PumpOffer(c: ClientId)          // one non-blocking send of fanout
    | PumpDone                        // fanout returns
    | Dial(c: ClientId)               // the dashboard opens a connection
    | DialFails
    | Adopt                           // the handshake completes at the dashboard
    | OtherClient(c: ClientId)        // some other dashboard connects
    | Register(c: ClientId)           // ServeHTTP enters the client in the table
    | Write(c: ClientId)              // the writer loop moves a message to the connection
    | WriteFails(c: ClientId)         // the write fails: the message is lost and the writer stops
    | Stop(c: ClientId)               // the connection's context ends: the writer stops
    | Unregister(c: ClientId)         // the deferred delete
    | Read(room: bool)                // the dashboard reads a frame; room says whether its channel can take it
    | ReadFails                       // the connection is lost; anything unread on it is gone

  ghost predicate Enabled(c: Codec, s: State, step: Step) {
    match step
    case PumpRead(_) => s.pump.Waiting?
    case PumpSnapshot => s.pump.Encoded?
    case PumpOffer(i) => s.pump.Sending? && i in s.pump.targets && i in s.clients
    case PumpDone => s.pump.Sending? && s.pump.targets == {}
    case Dial(i) => s.recv.Idle? && i !in s.clients
    case DialFails => s.recv.Dialing?
    case Adopt => s.recv.Dialing?
    case OtherClient(i) => i !in s.clients
    case Register(i) => i in s.clients && !s.clients[i].accepted
    case Write(i) => i in s.clients && s.clients[i].writing && s.clients[i].send != []
    case WriteFails(i) => i in s.clients && s.clients[i].writing && s.clients[i].send != []
    case Stop(i) => i in s.clients && s.clients[i].writing
    case Unregister(i) => i in s.clients && s.clients[i].registered && !s.clients[i].writing
    case Read(_) => s.recv.Reading? && s.recv.c in s.clients && s.clients[s.recv.c].conn != []
    case ReadFails => s.recv.Reading?
  }

  function Registered(s: State): set<ClientId> { set i | i in s.clients && s.clients[i].registered }

  /** A send that does not wait: into the queue when there is room, else dropped. */
  function Offer(k: Client, item: Item): Client {
    if |k.send| < SEND_BUFFER then k.(send := k.send + [item]) else k
  }

  function Next(c: Codec, s: State, step: Step): State
    requires Enabled(c, s, step)
  {
    match step
    case PumpRead(ev) =>
      var data := EncodeEvent(c, ev);
      s.(input := s.input + [ev],
         pump := if data.None? then Waiting else Encoded(Item(|s.input|, data.value)))
    case PumpSnapshot => s.(pump := Sending(s.pump.item, Registered(s)))
    case PumpOffer(i) =>
      s.(clients := s.clients[i := Offer(s.clients[i], s.pump.item)],
         pump := Sending(s.pump.item, s.pump.targets - {i}))
    case PumpDone => s.(pump := Waiting)
    case Dial(i) => s.(recv := Dialing(i), clients := s.clients[i := NEW_CLIENT])
    case DialFails => s.(recv := Idle)
    case Adopt => s.(recv := Reading(s.recv.c))
    case OtherClient(i) => s.(clients := s.clients[i := NEW_CLIENT])
    case Register(i) =>
      s.(clients := s.clients[i := s.clients[i].(accepted := true, registered := true, writing := true)])
    case Write(i) =>
      var k := s.clients[i];
      s.(clients := s.clients[i := k.(send := k.send[1..], conn := k.conn + [k.send[0]])])
    case WriteFails(i) =>
      var k := s.clients[i];
      s.(clients := s.clients[i := k.(send := k.send[1..], writing := false)])
    case Stop(i) => s.(clients := s.clients[i := s.clients[i].(writing := false)])
    case Unregister(i) => s.(clients := s.clients[i := s.clients[i].(registered := false)])
    case Read(room) =>
      var k := s.clients[s.recv.c];
      var ev := DecodeEvent(c, k.conn[0].data);
      s.(clients := s.clients[s.recv.c := k.(conn := k.conn[1..])],
         emitted := if ev.Some? && room then s.emitted + [(k.conn[0].idx, ev.value)] else s.emitted)
    case ReadFails => s.(recv := Idle)
  }

  ghost predicate Run(c: Codec, steps: seq<Step>)
    decreases |steps|, 0
  {
    if steps == [] then true
    else Run(c, steps[..|steps| - 1]) && Enabled(c, After(c, steps[..|steps| - 1]), steps[|steps| - 1])
  }

  ghost function After(c: Codec, steps: seq<Step>): State
    requires Run(c, steps)
    decreases |steps|, 1
  {
    if steps == [] then INIT else Next(c, After(c, steps[..|steps| - 1]), steps[|steps| - 1])
  }

  // ---- the invariant --------------------------------------------------------------------------------

  ghost predicate Rising(items: seq<Item>) {
    forall i, j :: 0 <= i < j < |items| ==> items[i].idx < items[j].idx
  }

  /** An item carries the encoding of the input event at its position. */
  ghost predicate Genuine(c: Codec, s: State, item: Item) {
    item.idx < |s.input| && EncodeEvent(c, s.input[item.idx]) == Some(item.data)
  }

  /** What a connection still holds, in the order the dashboard would read it. */
  function Held(k: Client): seq<Item> { k.conn + k.send }

  /** The pump carries an item that it has not offered to this client and still may. */
  predicate MayGet(s: State, i: ClientId) {
    s.pump.Encoded? || (s.pump.Sending? && i in s.pump.targets)
  }

  ghost predicate ClientOK(c: Codec, s: State, i: ClientId)
    requires i in s.clients
  {
    var held := Held(s.clients[i]);
    && Rising(held) && |s.clients[i].send| <= SEND_BUFFER
    && (forall j :: 0 <= j < |held| ==> Genuine(c, s, held[j]))
    && (!s.clients[i].accepted ==> held == [] && !s.clients[i].registered)
    && (MayGet(s, i) ==> forall j :: 0 <= j < |held| ==> held[j].idx < s.pump.item.idx)
  }

  ghost predicate PumpOK(c: Codec, s: State) {
    !s.pump.Waiting? ==>
      && Genuine(c, s, s.pump.item) && s.pump.item.idx == |s.input| - 1
      && (s.pump.Sending? ==> forall i :: i in s.pump.targets ==> i in s.clients && s.clients[i].accepted)
  }

  /** Emitted events are input events, at strictly rising positions. */
  ghost predicate EmittedOK(s: State) {
    && (forall j :: 0 <= j < |s.emitted| ==> s.emitted[j].0 < |s.input| && s.emitted[j].1 == s.input[s.emitted[j].0])
    && (forall i, j :: 0 <= i < j < |s.emitted| ==> s.emitted[i].0 < s.emitted[j].0)
    && (s.pump.Encoded? ==> AfterEmitted(s, s.pump.item.idx))
  }

  ghost predicate AfterEmitted(s: State, idx: nat) {
    s.emitted != [] ==> s.emitted[|s.emitted| - 1].0 < idx
  }

  /** Nothing that the dashboard's current connection holds, or is about to be offered, was emitted before. */
  ghost predicate CurrentOK(s: State) {
    !s.recv.Idle? ==>
      && s.recv.c in s.clients
      && (forall j :: 0 <= j < |Held(s.clients[s.recv.c])| ==> AfterEmitted(s, Held(s.clients[s.recv.c])[j].idx))
      && (MayGet(s, s.recv.c) ==> AfterEmitted(s, s.pump.item.idx))
  }

  ghost predicate Inv(c: Codec, s: State) {
    && PumpOK(c, s) && EmittedOK(s) && CurrentOK(s)
    && forall i :: i in s.clients ==> ClientOK(c, s, i)
  }

  lemma OfferHeld(k: Client, item: Item)
    ensures Held(Offer(k, item)) == if |k.send| < SEND_BUFFER then Held(k) + [item] else Held(k)
  {
  }

  lemma OfferClientOK(c: Codec, s: State, i: ClientId, j: ClientId)
    requires Inv(c, s) && Enabled(c, s, PumpOffer(i)) && j in s.clients
    ensures ClientOK(c, Next(c, s, PumpOffer(i)), j)
  {
    assert ClientOK(c, s, j);
    hide CurrentOK, EmittedOK, Rising;
    if j == i {
      OfferHeld(s.clients[i], s.pump.item);
      OfferedOne(c, s, i);
      hide Held;
    } else {
      hide Held, Offer, PumpOK;
    }
  }

  /** The item offered is newer than all the client holds. */
  lemma OfferedOne(c: Codec, s: State, i: ClientId)
    requires PumpOK(c, s) && Enabled(c, s, PumpOffer(i)) && ClientOK(c, s, i)
    ensures var held, item := Held(s.clients[i]), s.pump.item;
            && Rising(held + [item]) && s.clients[i].accepted
            && forall j :: 0 <= j < |held + [item]| ==> Genuine(c, s, (held + [item])[j])
  {
  }

  lemma OfferCurrentOK(c: Codec, s: State, i: ClientId)
    requires Inv(c, s) && Enabled(c, s, PumpOffer(i))
    ensures CurrentOK(Next(c, s, PumpOffer(i)))
  {
    hide ClientOK, EmittedOK, Genuine;
    OfferHeld(s.clients[i], s.pump.item);
  }

  lemma OfferKeeps(c: Codec, s: State, i: ClientId)
    requires Inv(c, s) && Enabled(c, s, PumpOffer(i))
    ensures Inv(c, Next(c, s, PumpOffer(i)))
  {
    hide Offer, Held, AfterEmitted, CurrentOK;
    OfferCurrentOK(c, s, i);
    forall j | j in Next(c, s, PumpOffer(i)).clients ensures ClientOK(c, Next(c, s, PumpOffer(i)), j) {
      OfferClientOK(c, s, i, j);
    }
  }

  lemma PumpReadKeeps(c: Codec, s: State, ev: Event)
    requires Inv(c, s) && Enabled(c, s, PumpRead(ev))
    ensures Inv(c, Next(c, s, PumpRead(ev)))
  {
    var s' := Next(c, s, PumpRead(ev));
    forall i | i in s'.clients ensures ClientOK(c, s', i) {
      assert ClientOK(c, s, i);
      var held := Held(s.clients[i]);
      forall j | 0 <= j < |held| ensures Genuine(c, s', held[j]) { assert Genuine(c, s, held[j]); }
    }
  }

  /** k is client i with its connection in another state, and at most one item fewer. */
  ghost predicate Moved(s: State, i: ClientId, k: Client) {
    && i in s.clients
    && (k.accepted == s.clients[i].accepted || (k.accepted && Held(k) == Held(s.clients[i])))
    && (k.registered ==> k.accepted) && |k.send| <= |s.clients[i].send|
    && IsDropOne(Held(k), Held(s.clients[i]))
  }

  lemma MoveKeeps(c: Codec, s: State, i: ClientId, k: Client)
    requires Inv(c, s) && Moved(s, i, k)
    ensures Inv(c, s.(clients := s.clients[i := k]))
  {
    var s' := s.(clients := s.clients[i := k]);
    hide Held, IsDropOne;
    forall j | j in s'.clients ensures ClientOK(c, s', j) { MovedClientOK(c, s, i, k, j); }
    MovedCurrentOK(s, i, k);
    hide ClientOK, CurrentOK, Moved;
  }

  lemma MovedClientOK(c: Codec, s: State, i: ClientId, k: Client, j: ClientId)
    requires Moved(s, i, k) && j in s.clients && ClientOK(c, s, j)
    ensures ClientOK(c, s.(clients := s.clients[i := k]), j)
  {
    hide IsDropOne;
    if j == i { DropOneOK(c, s, i, Held(k)); }
  }

  lemma MovedCurrentOK(s: State, i: ClientId, k: Client)
    requires Moved(s, i, k) && CurrentOK(s)
    ensures CurrentOK(s.(clients := s.clients[i := k]))
  {
    if s.recv != Idle && s.recv.c == i { DropOneMembers(Held(k), Held(s.clients[i])); }
  }

  /** a is b, or b with one element left out. */
  ghost predicate IsDropOne(a: seq<Item>, b: seq<Item>) {
    a == b || exists n: nat :: n < |b| && a == b[..n] + b[n + 1..]
  }

  lemma DropOneMembers(a: seq<Item>, b: seq<Item>)
    requires IsDropOne(a, b)
    ensures forall j :: 0 <= j < |a| ==> a[j] in b
    ensures Rising(b) ==> Rising(a)
  {
    if a != b {
      var n: nat :| n < |b| && a == b[..n] + b[n + 1..];
      assert forall j :: 0 <= j < |a| ==> a[j] == b[if j < n then j else j + 1];
    }
  }

  lemma DropOneOK(c: Codec, s: State, i: ClientId, held: seq<Item>)
    requires i in s.clients && ClientOK(c, s, i) && IsDropOne(held, Held(s.clients[i]))
    ensures Rising(held) && forall j :: 0 <= j < |held| ==> Genuine(c, s, held[j])
    ensures MayGet(s, i) ==> forall j :: 0 <= j < |held| ==> held[j].idx < s.pump.item.idx
    ensures Held(s.clients[i]) == [] ==> held == []
  {
    DropOneMembers(held, Held(s.clients[i]));
  }

  lemma ReadKeeps(c: Codec, s: State, room: bool)
    requires Lossless(c) && Inv(c, s) && Enabled(c, s, Read(room))
    ensures Inv(c, Next(c, s, Read(room)))
  {
    ReadEmits(c, s, room);
    forall j | j in Next(c, s, Read(room)).clients ensures ClientOK(c, Next(c, s, Read(room)), j) {
      ReadClients(c, s, room, j);
    }
  }

  lemma ReadClients(c: Codec, s: State, room: bool, j: ClientId)
    requires Inv(c, s) && Enabled(c, s, Read(room)) && j in s.clients
    ensures ClientOK(c, Next(c, s, Read(room)), j)
  {
    hide PumpOK, EmittedOK, CurrentOK;
    var held := Held(s.clients[j]);
    assert ClientOK(c, s, j);
    if j == s.recv.c {
      var k := s.clients[j];
      assert k.conn[1..] + k.send == held[1..];
      assert forall n :: 0 <= n < |held| - 1 ==> held[1..][n] == held[n + 1];
    }
  }

  lemma ReadEmits(c: Codec, s: State, room: bool)
    requires Lossless(c) && Inv(c, s) && Enabled(c, s, Read(room))
    ensures EmittedOK(Next(c, s, Read(room))) && CurrentOK(Next(c, s, Read(room)))
  {
    var s' := Next(c, s, Read(room));
    var i := s.recv.c;
    var held := Held(s.clients[i]);
    assert ClientOK(c, s, i) && held[0] == s.clients[i].conn[0];
    assert Genuine(c, s, held[0]) && AfterEmitted(s, held[0].idx);
    EncodeDecode(c, s.input[held[0].idx]);
    assert Held(s'.clients[i]) == held[1..];
    forall j | 0 <= j < |Held(s'.clients[i])| ensures AfterEmitted(s', Held(s'.clients[i])[j].idx) {
      assert Held(s'.clients[i])[j] == held[j + 1];
      assert held[0].idx < held[j + 1].idx && AfterEmitted(s, held[j + 1].idx);
    }
  }

  lemma WriteKeeps(c: Codec, s: State, i: ClientId)
    requires Inv(c, s) && Enabled(c, s, Write(i))
    ensures Inv(c, Next(c, s, Write(i)))
  {
    var k := s.clients[i];
    assert ClientOK(c, s, i);
    hide Inv, ClientOK;
    assert k.conn + [k.send[0]] + k.send[1..] == Held(k);
    MoveKeeps(c, s, i, k.(send := k.send[1..], conn := k.conn + [k.send[0]]));
  }

  lemma WriteFailsKeeps(c: Codec, s: State, i: ClientId)
    requires Inv(c, s) && Enabled(c, s, WriteFails(i))
    ensures Inv(c, Next(c, s, WriteFails(i)))
  {
    var k := s.clients[i];
    assert ClientOK(c, s, i);
    hide Inv, ClientOK;
    var n := |k.conn|;
    assert k.conn + k.send[1..] == Held(k)[..n] + Held(k)[n + 1..];
    MoveKeeps(c, s, i, k.(send := k.send[1..], writing := false));
  }

  /** The client's flags change, what it holds does not. */
  lemma FlagsKeep(c: Codec, s: State, step: Step, i: ClientId)
    requires Inv(c, s) && Enabled(c, s, step) && (step == Register(i) || step == Stop(i) || step == Unregister(i))
    ensures Inv(c, Next(c, s, step))
  {
    assert ClientOK(c, s, i);
    hide Inv, ClientOK;
    var k := Next(c, s, step).clients[i];
    assert Held(k) == Held(s.clients[i]);
    MoveKeeps(c, s, i, k);
  }

  lemma StepKeeps(c: Codec, s: State, step: Step)
    requires Lossless(c) && Inv(c, s) && Enabled(c, s, step)
    ensures Inv(c, Next(c, s, step))
  {
    hide Inv;
    match step {
      case PumpRead(ev) => PumpReadKeeps(c, s, ev);
      case PumpOffer(i) => OfferKeeps(c, s, i);
      case Read(room) => ReadKeeps(c, s, room);
      case Register(i) => FlagsKeep(c, s, step, i);
      case Write(i) => WriteKeeps(c, s, i);
      case WriteFails(i) => WriteFailsKeeps(c, s, i);
      case Stop(i) => FlagsKeep(c, s, step, i);
      case Unregister(i) => FlagsKeep(c, s, step, i);
      case Dial(i) => NewClientKeeps(c, s, i, Dialing(i));
      case OtherClient(i) => NewClientKeeps(c, s, i, s.recv);
      case _ => QuietKeeps(c, s, step);
    }
  }

  lemma NewClientKeeps(c: Codec, s: State, i: ClientId, recv: Receiver)
    requires Inv(c, s) && i !in s.clients && (recv == s.recv || recv == Dialing(i))
    ensures Inv(c, s.(recv := recv, clients := s.clients[i := NEW_CLIENT]))
  {
    var s' := s.(recv := recv, clients := s.clients[i := NEW_CLIENT]);
    forall j | j in s'.clients ensures ClientOK(c, s', j) {
      if j != i { assert ClientOK(c, s, j); }
      hide CurrentOK, EmittedOK, PumpOK;
    }
    hide ClientOK, Rising, Genuine;
  }

  lemma QuietKeeps(c: Codec, s: State, step: Step)
    requires Inv(c, s) && Enabled(c, s, step)
    requires step.PumpSnapshot? || step.PumpDone? || step.DialFails? || step.Adopt? || step.ReadFails?
    ensures Inv(c, Next(c, s, step))
  {
    var s' := Next(c, s, step);
    forall j | j in s'.clients ensures ClientOK(c, s', j) { assert ClientOK(c, s, j); }
    if step.PumpSnapshot? {
      assert forall j :: j in Registered(s) ==> ClientOK(c, s, j);
    }
  }

  lemma {:induction false} RunKeeps(c: Codec, steps: seq<Step>)
    requires Lossless(c) && Run(c, steps)
    ensures Inv(c, After(c, steps))
  {
    if steps != [] {
      RunKeeps(c, steps[..|steps| - 1]);
      StepKeeps(c, After(c, steps[..|steps| - 1]), steps[|steps| - 1]);
    }
  }

  /** a is b with some elements left out, the rest in order. */
  ghost predicate Subsequence<T>(a: seq<T>, b: seq<T>) {
    exists at: seq<nat> :: Embeds(a, b, at)
  }

  ghost predicate Embeds<T>(a: seq<T>, b: seq<T>, at: seq<nat>) {
    && |at| == |a|
    && (forall j :: 0 <= j < |a| ==> at[j] < |b| && a[j] == b[at[j]])
    && (forall i, j :: 0 <= i < j < |a| ==> at[i] < at[j])
  }

  function Events(emitted: seq<(nat, Event)>): (r: seq<Event>)
    ensures |r| == |emitted|
  {
    seq(|emitted|, i requires 0 <= i < |emitted| => emitted[i].1)
  }

  /** Over every interleaving of pump, fan-out, writers, connection losses and re-dials, with any number of
      stale and foreign clients: what the dashboard emits is an in-order subsequence of what entered the pump,
      without duplicates, each event as it was before encoding. */
  lemma EmitsInOrderSubsequence(c: Codec, steps: seq<Step>)
    requires Lossless(c) && Run(c, steps)
    ensures Subsequence(Events(After(c, steps).emitted), After(c, steps).input)
  {
    RunKeeps(c, steps);
    var s := After(c, steps);
    var at: seq<nat> := seq(|s.emitted|, i requires 0 <= i < |s.emitted| => s.emitted[i].0);
    assert Embeds(Events(s.emitted), s.input, at);
  }

  lemma SubsequenceTransitive<T>(a: seq<T>, b: seq<T>, d: seq<T>)
    requires Subsequence(a, b) && Subsequence(b, d)
    ensures Subsequence(a, d)
  {
    var at: seq<nat> :| Embeds(a, b, at);
    var bt: seq<nat> :| Embeds(b, d, bt);
    var ct: seq<nat> := seq(|a|, i requires 0 <= i < |a| => bt[at[i]]);
    assert Embeds(a, d, ct);
  }

  // ---- and nothing is lost when nothing fails ------------------------------------------------------------

  function Encodable(c: Codec, evs: seq<Event>): seq<Event> {
    if evs == [] then []
    else
      var init, last := Encodable(c, evs[..|evs| - 1]), evs[|evs| - 1];
      if EncodeEvent(c, last).Some? then init + [last] else init
  }

  lemma EncodablePush(c: Codec, evs: seq<Event>, ev: Event)
    ensures Encodable(c, evs + [ev]) == if EncodeEvent(c, ev).Some? then Encodable(c, evs) + [ev] else Encodable(c, evs)
  {
    assert (evs + [ev])[..|evs|] == evs;
  }

  /** Connection i is up: the dashboard reads it or is about to, the pump knows it, and its writer runs. */
  ghost predicate Up(s: State, i: ClientId) {
    && (s.recv == Dialing(i) || s.recv == Reading(i)) && i in s.clients
    && s.clients[i].accepted && s.clients[i].registered && s.clients[i].writing
  }

  /** The pump is going to offer its item to client i. */
  predicate Due(s: State, i: ClientId)
    requires i in s.clients
  {
    (s.pump.Encoded? && s.clients[i].registered) || (s.pump.Sending? && i in s.pump.targets)
  }

  /** What is on its way over connection i, oldest first: written, queued, and on offer. */
  function InFlight(s: State, i: ClientId): seq<Item>
    requires i in s.clients
  {
    Held(s.clients[i]) + if Due(s, i) then [s.pump.item] else []
  }

  /** A step at which connection i neither fails nor drops anything, and the dashboard has room for what it reads. */
  ghost predicate Smooth(s: State, step: Step, i: ClientId) {
    match step
    case PumpOffer(j) => j == i && i in s.clients ==> |s.clients[i].send| < SEND_BUFFER
    case WriteFails(j) => j != i
    case Stop(j) => j != i
    case Unregister(j) => j != i
    case Read(room) => room
    case ReadFails => false
    case DialFails => false
    case _ => true
  }

  /** The events at the positions the items carry. */
  ghost function EventsAt(input: seq<Event>, items: seq<Item>): (r: seq<Event>)
    requires forall j :: 0 <= j < |items| ==> items[j].idx < |input|
    ensures |r| == |items|
  {
    seq(|items|, j requires 0 <= j < |items| => input[items[j].idx])
  }

  /** Counting from a moment when e0 events had been emitted and n0 taken in: the events emitted since, then
      those in flight, are exactly the encodable ones taken in since. */
  ghost predicate Balanced(c: Codec, s: State, i: ClientId, e0: nat, n0: nat) {
    && Up(s, i) && e0 <= |s.emitted| && n0 <= |s.input|
    && (forall j :: 0 <= j < |InFlight(s, i)| ==> InFlight(s, i)[j].idx < |s.input|)
    && Events(s.emitted[e0..]) + EventsAt(s.input, InFlight(s, i)) == Encodable(c, s.input[n0..])
  }

  /** Steps that leave input, emitted and the items in flight alone. */
  lemma StillBalanced(c: Codec, s: State, s': State, i: ClientId, e0: nat, n0: nat)
    requires Balanced(c, s, i, e0, n0) && Up(s', i)
    requires s'.input == s.input && s'.emitted == s.emitted && InFlight(s', i) == InFlight(s, i)
    ensures Balanced(c, s', i, e0, n0)
  {
  }

  lemma ReadsBalanced(c: Codec, s: State, i: ClientId, ev: Event, e0: nat, n0: nat)
    requires Balanced(c, s, i, e0, n0) && Enabled(c, s, PumpRead(ev))
    ensures Balanced(c, Next(c, s, PumpRead(ev)), i, e0, n0)
  {
    var s' := Next(c, s, PumpRead(ev));
    EncodablePush(c, s.input[n0..], ev);
    assert s'.input[n0..] == s.input[n0..] + [ev];
    if EncodeEvent(c, ev).Some? {
      assert InFlight(s', i) == InFlight(s, i) + [s'.pump.item];
    } else {
      assert InFlight(s', i) == InFlight(s, i);
    }
    LaterInput(s.input, ev, InFlight(s, i), Item(|s.input|, []));
    LaterInput(s.input, ev, InFlight(s, i), if s'.pump.Encoded? then s'.pump.item else Item(|s.input|, []));
  }

  /** Old positions keep their events, and the next one gets the new event. */
  lemma LaterInput(input: seq<Event>, ev: Event, items: seq<Item>, item: Item)
    requires (forall j :: 0 <= j < |items| ==> items[j].idx < |input|) && item.idx == |input|
    ensures EventsAt(input + [ev], items) == EventsAt(input, items)
    ensures EventsAt(input + [ev], items + [item]) == EventsAt(input, items) + [ev]
  {
  }

  lemma EmitsBalanced(c: Codec, s: State, i: ClientId, e0: nat, n0: nat)
    requires Lossless(c) && Inv(c, s) && Balanced(c, s, i, e0, n0) && Enabled(c, s, Read(true))
    ensures Balanced(c, Next(c, s, Read(true)), i, e0, n0)
  {
    var s', k := Next(c, s, Read(true)), s.clients[i];
    assert ClientOK(c, s, i) && Held(k)[0] == k.conn[0];
    assert Genuine(c, s, Held(k)[0]);
    var ev := s.input[k.conn[0].idx];
    EncodeDecode(c, ev);
    HeadRead(s, i);
    assert s'.emitted[e0..] == s.emitted[e0..] + [(k.conn[0].idx, ev)];
    EventsPush(s.emitted[e0..], k.conn[0].idx, ev);
    forall j | 0 <= j < |InFlight(s', i)| ensures InFlight(s', i)[j].idx < |s.input| {
      assert InFlight(s, i)[j + 1] == InFlight(s', i)[j];
    }
    HeadEvent(s.input, k.conn[0], InFlight(s', i));
    Shift(Events(s.emitted[e0..]), ev, EventsAt(s'.input, InFlight(s', i)));
  }

  /** Reading takes the oldest item in flight. */
  lemma HeadRead(s: State, i: ClientId)
    requires i in s.clients && s.clients[i].conn != []
    ensures var k := s.clients[i];
            InFlight(s, i) == [k.conn[0]] + InFlight(s.(clients := s.clients[i := k.(conn := k.conn[1..])]), i)
  {
  }

  lemma HeadEvent(input: seq<Event>, item: Item, items: seq<Item>)
    requires item.idx < |input| && forall j :: 0 <= j < |items| ==> items[j].idx < |input|
    ensures EventsAt(input, [item] + items) == [input[item.idx]] + EventsAt(input, items)
  {
  }

  lemma Shift(a: seq<Event>, ev: Event, b: seq<Event>)
    ensures a + ([ev] + b) == a + [ev] + b
  {
  }

  /** An item offered goes from the pump to the end of the queue. */
  lemma OfferBalanced(c: Codec, s: State, j: ClientId, i: ClientId, e0: nat, n0: nat)
    requires Enabled(c, s, PumpOffer(j)) && Smooth(s, PumpOffer(j), i) && Balanced(c, s, i, e0, n0)
    ensures Balanced(c, Next(c, s, PumpOffer(j)), i, e0, n0)
  {
    if j == i { OfferHeld(s.clients[i], s.pump.item); }
    StillBalanced(c, s, Next(c, s, PumpOffer(j)), i, e0, n0);
  }

  lemma WriteBalanced(c: Codec, s: State, j: ClientId, i: ClientId, e0: nat, n0: nat)
    requires Enabled(c, s, Write(j)) && Balanced(c, s, i, e0, n0)
    ensures Balanced(c, Next(c, s, Write(j)), i, e0, n0)
  {
    var k := s.clients[j];
    assert k.conn + [k.send[0]] + k.send[1..] == Held(k);
    StillBalanced(c, s, Next(c, s, Write(j)), i, e0, n0);
  }

  lemma SmoothStep(c: Codec, s: State, step: Step, i: ClientId, e0: nat, n0: nat)
    requires Lossless(c) && Inv(c, s) && Enabled(c, s, step) && Smooth(s, step, i) && Balanced(c, s, i, e0, n0)
    ensures Balanced(c, Next(c, s, step), i, e0, n0)
  {
    match step {
      case PumpRead(ev) => ReadsBalanced(c, s, i, ev, e0, n0);
      case Read(_) => EmitsBalanced(c, s, i, e0, n0);
      case PumpOffer(j) => OfferBalanced(c, s, j, i, e0, n0);
      case Write(j) => WriteBalanced(c, s, j, i, e0, n0);
      case PumpSnapshot => StillBalanced(c, s, Next(c, s, step), i, e0, n0);
      case PumpDone => StillBalanced(c, s, Next(c, s, step), i, e0, n0);
      case Adopt => StillBalanced(c, s, Next(c, s, step), i, e0, n0);
      case OtherClient(_) => StillBalanced(c, s, Next(c, s, step), i, e0, n0);
      case Register(_) => StillBalanced(c, s, Next(c, s, step), i, e0, n0);
      case WriteFails(_) => StillBalanced(c, s, Next(c, s, step), i, e0, n0);
      case Stop(_) => StillBalanced(c, s, Next(c, s, step), i, e0, n0);
      case Unregister(_) => StillBalanced(c, s, Next(c, s, step), i, e0, n0);
      case _ => // the dashboard does not dial or fail while it has a connection
    }
  }

  lemma {:induction false} PrefixRuns(c: Codec, steps: seq<Step>, n: nat)
    requires Run(c, steps) && n <= |steps|
    ensures Run(c, steps[..n])
    decreases |steps|
  {
    if n < |steps| {
      PrefixRuns(c, steps[..|steps| - 1], n);
      assert steps[..|steps| - 1][..n] == steps[..n];
    } else {
      assert steps[..n] == steps;
    }
  }

  /** From step start on nothing goes wrong on connection i. */
  ghost predicate SmoothFrom(c: Codec, steps: seq<Step>, start: nat, i: ClientId) {
    forall k :: start <= k < |steps| ==> Run(c, steps[..k]) && Smooth(After(c, steps[..k]), steps[k], i)
  }

  lemma {:induction false} StaysBalanced(c: Codec, steps: seq<Step>, start: nat, i: ClientId, e0: nat, n0: nat)
    requires Lossless(c) && Run(c, steps) && start <= |steps| && SmoothFrom(c, steps, start, i)
    requires Run(c, steps[..start]) && Balanced(c, After(c, steps[..start]), i, e0, n0)
    ensures Balanced(c, After(c, steps), i, e0, n0)
    decreases |steps|
  {
    if start == |steps| {
      assert steps[..start] == steps;
    } else {
      var init, last := steps[..|steps| - 1], steps[|steps| - 1];
      assert init[..start] == steps[..start];
      assert forall k :: start <= k < |init| ==> init[..k] == steps[..k] && init[k] == steps[k];
      StaysBalanced(c, init, start, i, e0, n0);
      RunKeeps(c, init);
      SmoothStep(c, After(c, init), last, i, e0, n0);
    }
  }

  /** The input the pump has taken in and copied the table of clients for, if it had to. */
  function Fanned(s: State): nat {
    if s.pump.Encoded? && s.input != [] then |s.input| - 1 else |s.input|
  }

  /** A connection starts balanced when it is registered, whether or not the handshake is through. */
  lemma RegisterBalances(c: Codec, s: State, i: ClientId)
    requires Inv(c, s) && Enabled(c, s, Register(i)) && (s.recv == Dialing(i) || s.recv == Reading(i))
    ensures Balanced(c, Next(c, s, Register(i)), i, |s.emitted|, Fanned(s))
  {
    var s' := Next(c, s, Register(i));
    FreshInFlight(c, s, i);
    assert s'.emitted[|s.emitted|..] == [];
    if s.pump.Encoded? { LastEncodable(c, s.input, s.pump.item); }
    hide Inv, Enabled, Next, InFlight, Encodable, Genuine, Events;
    EmptyEvents(s);
  }

  lemma EmptyEvents(s: State)
    ensures Events([]) == [] && s.input[|s.input|..] == []
    ensures EventsAt(s.input, []) == []
  {
  }

  lemma LastEncodable(c: Codec, input: seq<Event>, item: Item)
    requires item.idx == |input| - 1 && EncodeEvent(c, input[item.idx]).Some?
    ensures EventsAt(input, [item]) == Encodable(c, input[|input| - 1..]) == [input[|input| - 1]]
  {
    var ev := input[|input| - 1];
    assert input[|input| - 1..] == [] + [ev];
    EncodablePush(c, [], ev);
  }

  /** A connection just registered has nothing in flight but what the pump is still to fan out. */
  lemma FreshInFlight(c: Codec, s: State, i: ClientId)
    requires Inv(c, s) && Enabled(c, s, Register(i)) && (s.recv == Dialing(i) || s.recv == Reading(i))
    ensures var s' := Next(c, s, Register(i));
            && Up(s', i) && s'.input == s.input && s'.emitted == s.emitted
            && InFlight(s', i) == (if s.pump.Encoded? then [s.pump.item] else [])
            && (s.pump.Encoded? ==> Genuine(c, s, s.pump.item) && s.pump.item.idx == |s.input| - 1)
  {
    hide CurrentOK, EmittedOK;
    assert ClientOK(c, s, i);
  }

  /** From the registration of the dashboard's connection on, and as long as nothing goes wrong on it, no encodable
      event is lost, whatever the pump, the writers and all other clients do meanwhile: the events emitted since, then
      those in flight, are exactly the encodable ones the pump had not fanned out by then. */
  lemma NothingLost(c: Codec, steps: seq<Step>, start: nat, i: ClientId)
    requires Lossless(c) && Run(c, steps) && start < |steps| && steps[start] == Register(i)
    requires Run(c, steps[..start]) && SmoothFrom(c, steps, start + 1, i)
    requires var recv := After(c, steps[..start]).recv; recv == Dialing(i) || recv == Reading(i)
    ensures var s0 := After(c, steps[..start]);
            Balanced(c, After(c, steps), i, |s0.emitted|, Fanned(s0))
  {
    var s0 := After(c, steps[..start]);
    PrefixRuns(c, steps, start + 1);
    RunKeeps(c, steps[..start]);
    assert steps[..start + 1][..start] == steps[..start];
    RegisterBalances(c, s0, i);
    StaysBalanced(c, steps, start + 1, i, |s0.emitted|, Fanned(s0));
  }

  // ---- what was fanned out before is lost ------------------------------------------------------------------

  /** The event at this position was taken in, was not emitted, and no one carries it any more. */
  ghost predicate Gone(s: State, idx: nat) {
    && idx < |s.input|
    && (s.pump.Waiting? || s.pump.item.idx != idx)
    && (forall i :: i in s.clients ==> forall j :: 0 <= j < |Held(s.clients[i])| ==> Held(s.clients[i])[j].idx != idx)
    && (forall j :: 0 <= j < |s.emitted| ==> s.emitted[j].0 != idx)
  }

  lemma StepLeavesGone(c: Codec, s: State, step: Step, idx: nat)
    requires Gone(s, idx) && Enabled(c, s, step)
    ensures Gone(Next(c, s, step), idx)
  {
    var s' := Next(c, s, step);
    forall i | i in s'.clients
      ensures forall j :: 0 <= j < |Held(s'.clients[i])| ==> Held(s'.clients[i])[j].idx != idx
    {
      if i in s.clients { HeldBefore(c, s, step, i); }
    }
    if step.Read? { assert Held(s.clients[s.recv.c])[0] == s.clients[s.recv.c].conn[0]; }
  }

  /** A client gets its items from the pump and from nowhere else. */
  lemma HeldBefore(c: Codec, s: State, step: Step, i: ClientId)
    requires Enabled(c, s, step) && i in s.clients
    ensures var s' := Next(c, s, step);
            i in s'.clients && forall j :: 0 <= j < |Held(s'.clients[i])| ==>
              Held(s'.clients[i])[j] in Held(s.clients[i]) || (s.pump.Sending? && Held(s'.clients[i])[j] == s.pump.item)
  {
  }

  /** Such an event is never emitted, whatever happens afterwards. */
  lemma {:induction false} GoneForGood(c: Codec, steps: seq<Step>, later: seq<Step>, idx: nat)
    requires Run(c, steps) && Gone(After(c, steps), idx) && Run(c, steps + later)
    ensures Gone(After(c, steps + later), idx)
    decreases |later|
  {
    if later == [] {
      assert steps + later == steps;
    } else {
      var init, last := later[..|later| - 1], later[|later| - 1];
      assert (steps + later)[..|steps + later| - 1] == steps + init;
      GoneForGood(c, steps, init, idx);
      StepLeavesGone(c, After(c, steps + init), last, idx);
    }
  }

  /** An event fanned out while the dashboard's connection is still being accepted never reaches the dashboard, in no
      continuation of the run. */
  lemma LostBeforeRegistration(c: Codec, ev: Event, later: seq<Step>)
    requires EncodeEvent(c, ev).Some?
    ensures var steps := [Dial(0), PumpRead(ev), PumpSnapshot, PumpDone, Adopt, Register(0)];
            && Run(c, steps) && Up(After(c, steps), 0) && After(c, steps).input == [ev]
            && (Run(c, steps + later) ==> forall j :: 0 <= j < |After(c, steps + later).emitted| ==>
                  After(c, steps + later).emitted[j].0 != 0)
  {
    var steps := [Dial(0), PumpRead(ev), PumpSnapshot, PumpDone, Adopt, Register(0)];
    var none: seq<Step> := [];
    assert Run(c, none);
    AppendStep(c, none, Dial(0));
    AppendStep(c, none + [Dial(0)], PumpRead(ev));
    AppendStep(c, none + [Dial(0)] + [PumpRead(ev)], PumpSnapshot);
    assert Registered(After(c, none + [Dial(0)] + [PumpRead(ev)])) == {};
    var sent := none + [Dial(0)] + [PumpRead(ev)] + [PumpSnapshot];
    AppendStep(c, sent, PumpDone);
    AppendStep(c, sent + [PumpDone], Adopt);
    AppendStep(c, sent + [PumpDone] + [Adopt], Register(0));
    assert sent + [PumpDone] + [Adopt] + [Register(0)] == steps;
    if Run(c, steps + later) { GoneForGood(c, steps, later, 0); }
  }

  /** One dashboard reading connection 0, with everything so far delivered. */
  ghost predicate Caught(c: Codec, s: State, evs: seq<Event>) {
    && s.input == evs && s.pump == Waiting && s.recv == Reading(0)
    && s.clients == map[0 := Client(true, true, true, [], [])]
    && Events(s.emitted) == Encodable(c, evs)
  }

  function Delivery(c: Codec, ev: Event): seq<Step> {
    if EncodeEvent(c, ev).Some? then [PumpRead(ev), PumpSnapshot, PumpOffer(0), PumpDone, Write(0), Read(true)]
    else [PumpRead(ev)]
  }

  function SmoothRun(c: Codec, evs: seq<Event>): seq<Step> {
    if evs == [] then [Dial(0), Adopt, Register(0)]
    else SmoothRun(c, evs[..|evs| - 1]) + Delivery(c, evs[|evs| - 1])
  }

  lemma AppendStep(c: Codec, steps: seq<Step>, step: Step)
    requires Run(c, steps) && Enabled(c, After(c, steps), step)
    ensures Run(c, steps + [step]) && After(c, steps + [step]) == Next(c, After(c, steps), step)
  {
    assert (steps + [step])[..|steps|] == steps;
  }

  /** The one client right after its item was queued, and after it was written. */
  lemma ItemMoves(item: Item)
    ensures Offer(Client(true, true, true, [], []), item) == Client(true, true, true, [item], [])
    ensures [item][1..] == [] && [] + [item] == [item]
  {
  }

  lemma DeliverOne(c: Codec, steps: seq<Step>, evs: seq<Event>, ev: Event)
    requires Lossless(c) && Run(c, steps) && Caught(c, After(c, steps), evs)
    ensures Run(c, steps + Delivery(c, ev)) && Caught(c, After(c, steps + Delivery(c, ev)), evs + [ev])
  {
    hide Lossless, EncodeEvent, Run, After;
    if EncodeEvent(c, ev).Some? {
      hide Caught;
      Queued(c, steps, evs, ev);
      SixSteps(steps, PumpRead(ev), PumpSnapshot, PumpOffer(0), PumpDone, Write(0), Read(true));
      Fetched(c, steps + [PumpRead(ev)] + [PumpSnapshot] + [PumpOffer(0)] + [PumpDone], evs, ev);
    } else {
      EncodablePush(c, evs, ev);
      AppendStep(c, steps, PumpRead(ev));
    }
  }

  lemma SixSteps<T>(s: seq<T>, a: T, b: T, c: T, d: T, e: T, f: T)
    ensures s + [a, b, c, d, e, f] == s + [a] + [b] + [c] + [d] + [e] + [f]
  {
  }

  /** The pump's half of a delivery: the item waits in the client's queue. */
  lemma Queued(c: Codec, steps: seq<Step>, evs: seq<Event>, ev: Event)
    requires Run(c, steps) && Caught(c, After(c, steps), evs) && EncodeEvent(c, ev).Some?
    ensures var s3 := steps + [PumpRead(ev)] + [PumpSnapshot] + [PumpOffer(0)] + [PumpDone];
            Run(c, s3) && Waits(c, After(c, s3), evs, ev)
  {
    var s1 := steps + [PumpRead(ev)];
    var s2 := s1 + [PumpSnapshot];
    AppendStep(c, steps, PumpRead(ev));
    assert Registered(After(c, steps)) == {0};
    ItemMoves(Item(|evs|, EncodeEvent(c, ev).value));
    AppendStep(c, s1, PumpSnapshot);
    AppendStep(c, s2, PumpOffer(0));
    AppendStep(c, s2 + [PumpOffer(0)], PumpDone);
  }

  ghost predicate Waits(c: Codec, s: State, evs: seq<Event>, ev: Event) {
    && EncodeEvent(c, ev).Some?
    && s.input == evs + [ev] && s.pump == Waiting && s.recv == Reading(0)
    && s.clients == map[0 := Client(true, true, true, [Item(|evs|, EncodeEvent(c, ev).value)], [])]
    && Events(s.emitted) == Encodable(c, evs)
  }

  /** The dashboard's half: written, read, decoded, emitted. */
  lemma Fetched(c: Codec, s3: seq<Step>, evs: seq<Event>, ev: Event)
    requires Lossless(c) && Run(c, s3) && Waits(c, After(c, s3), evs, ev)
    ensures var s5 := s3 + [Write(0)] + [Read(true)];
            Run(c, s5) && Caught(c, After(c, s5), evs + [ev])
  {
    EncodablePush(c, evs, ev);
    ItemMoves(Item(|evs|, EncodeEvent(c, ev).value));
    AppendStep(c, s3, Write(0));
    AppendStep(c, s3 + [Write(0)], Read(true));
    EncodeDecode(c, ev);
    EventsPush(After(c, s3).emitted, |evs|, ev);
  }

  lemma EventsPush(emitted: seq<(nat, Event)>, idx: nat, ev: Event)
    ensures Events(emitted + [(idx, ev)]) == Events(emitted) + [ev]
  {
  }

  /** Such runs exist and drain: for every list of events there is one that delivers all that can be encoded. */
  lemma {:induction false} SmoothRunDeliversAll(c: Codec, evs: seq<Event>)
    requires Lossless(c)
    ensures Run(c, SmoothRun(c, evs)) && Caught(c, After(c, SmoothRun(c, evs)), evs)
  {
    if evs == [] {
      assert Run(c, []);
      AppendStep(c, [], Dial(0));
      AppendStep(c, [] + [Dial(0)], Adopt);
      AppendStep(c, [] + [Dial(0)] + [Adopt], Register(0));
      assert [] + [Dial(0)] + [Adopt] + [Register(0)] == SmoothRun(c, []);
    } else {
      SmoothRunDeliversAll(c, evs[..|evs| - 1]);
      DeliverOne(c, SmoothRun(c, evs[..|evs| - 1]), evs[..|evs| - 1], evs[|evs| - 1]);
      assert evs == evs[..|evs| - 1] + [evs[|evs| - 1]];
    }
  }
}
