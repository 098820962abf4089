/** The interrupt-driven I2C master: one buffer, an index and a length, advanced by the
    interrupt from one bus event to the next.
  */
module Twi {
  type octet = x: nat | x < 256

  const BUFFER_LENGTH := 32
  const NO_ERROR: octet := 0xFF

  type buffer = s: seq<octet> | |s| == BUFFER_LENGTH witness seq(BUFFER_LENGTH, _ => 0)

  datatype Mode = Ready | Receiving | Transmitting

  /** The last command written to the control register. */
  datatype Control = SendStart | Reply(ack: bool) | Stop | Release | HoldStart

  /** The status that an interrupt reports, with the byte in the data register. */
  datatype Status =
    | Start | RepStart
    | WriteAddressAck | WriteAddressNack | WriteDataAck | WriteDataNack | ArbitrationLost
    | ReadAddressAck | ReadAddressNack | ReadDataAck(data: octet) | ReadDataNack(data: octet)
    | NoInfo | BusError

  /** An interrupt, and whether the stop condition completes in time if one is sent. */
  datatype Event = Event(status: Status, stops: bool)

  datatype Engine = Engine(
    mode: Mode, slarw: octet, sendStop: bool, inRepStart: bool,
    buffer: buffer, index: octet, length: octet, error: octet, data: octet, control: Control)

  function Stopped(t: Engine, stops: bool): Engine {
    t.(control := Stop, mode := if stops then Ready else t.mode)
  }

  /** The end of a transaction: a stop, or a start that is held back for the next one. */
  function Ended(t: Engine, stops: bool): Engine {
    if t.sendStop then Stopped(t, stops) else t.(inRepStart := true, control := HoldStart, mode := Ready)
  }

  function Kept(t: Engine, data: octet): Engine
    requires t.index < BUFFER_LENGTH
  {
    t.(buffer := t.buffer[t.index := data], index := t.index + 1)
  }

  /** The interrupt can index the buffer. */
  predicate InBounds(t: Engine, e: Event) {
    match e.status
    case WriteAddressAck => t.index < t.length ==> t.index < BUFFER_LENGTH
    case WriteDataAck => t.index < t.length ==> t.index < BUFFER_LENGTH
    case ReadDataAck(_) => t.index < BUFFER_LENGTH
    case ReadDataNack(_) => t.index < BUFFER_LENGTH
    case _ => true
  }

  /** After the interrupt. */
  function Interrupted(t: Engine, e: Event): Engine
    requires InBounds(t, e)
  {
    match e.status
    case Start => t.(data := t.slarw, control := Reply(true))
    case RepStart => t.(data := t.slarw, control := Reply(true))
    case WriteAddressAck => SendNext(t, e.stops)
    case WriteDataAck => SendNext(t, e.stops)
    case WriteAddressNack => Stopped(t.(error := 0x20), e.stops)
    case WriteDataNack => Stopped(t.(error := 0x30), e.stops)
    case ArbitrationLost => t.(error := 0x38, control := Release, mode := Ready)
    case ReadDataAck(data) => AskNext(Kept(t, data))
    case ReadAddressAck => AskNext(t)
    case ReadDataNack(data) => Ended(Kept(t, data), e.stops)
    case ReadAddressNack => Stopped(t, e.stops)
    case NoInfo => t
    case BusError => Stopped(t.(error := 0), e.stops)
  }

  function SendNext(t: Engine, stops: bool): Engine
    requires t.index < t.length ==> t.index < BUFFER_LENGTH
  {
    if t.index < t.length then t.(data := t.buffer[t.index], index := t.index + 1, control := Reply(true))
    else Ended(t, stops)
  }

  function AskNext(t: Engine): Engine {
    t.(control := Reply(t.index < t.length))
  }

  /** The start of a transaction; after a held start only the address is still to be sent. */
  function Begun(t: Engine, mode: Mode, slarw: octet, sendStop: bool, length: octet): Engine {
    var u := t.(mode := mode, sendStop := sendStop, error := NO_ERROR, index := 0, length := length, slarw := slarw);
    if t.inRepStart then u.(inRepStart := false, data := slarw, control := Reply(true)) else u.(control := SendStart)
  }

  /** The length for a read counts one less, in eight bits, because the answer to a byte is
      chosen when the byte before it has come.
    */
  function ReadBegun(t: Engine, address: octet, length: octet, sendStop: bool): Engine
    requires address < 128
  {
    Begun(t, Receiving, 2 * address + 1, sendStop, (length + 255) % 256)
  }

  function WriteBegun(t: Engine, address: octet, bytes: seq<octet>, sendStop: bool): Engine
    requires address < 128 && |bytes| <= BUFFER_LENGTH
  {
    Begun(t.(buffer := bytes + t.buffer[|bytes|..]), Transmitting, 2 * address, sendStop, |bytes|)
  }

  // ---------- What the bus does ----------

  datatype Phase = Waiting | Started | Addressed

  /** What has happened on the bus in this transaction: the address byte once it has been sent,
      the bytes that came in, whether one of them was answered by NACK, and the bytes the slave
      has acknowledged.
    */
  datatype Bus = Bus(phase: Phase, addressed: seq<octet>, received: seq<octet>, refused: bool, acknowledged: seq<octet>)

  datatype System = System(twi: Engine, bus: Bus)

  /** A slave has answered to an address byte with this last bit. */
  predicate Direction(b: Bus, bit: nat) {
    b.phase == Addressed && b.addressed != [] && b.addressed[|b.addressed| - 1] % 2 == bit
  }

  /** The events that the peripheral may report next: an address is answered after a start, in
      the direction of its last bit; a data byte follows only an acknowledged address, and is
      acknowledged exactly as the last reply said.
    */
  predicate Possible(s: System, e: Event) {
    match e.status
    case NoInfo => true
    case BusError => s.twi.control != HoldStart
    case ArbitrationLost => s.twi.control == SendStart || s.twi.control.Reply?
    case Start => s.twi.control == SendStart
    case RepStart => s.twi.control == SendStart
    case WriteAddressAck => s.twi.control.Reply? && s.bus.phase == Started && s.twi.data % 2 == 0
    case WriteAddressNack => s.twi.control.Reply? && s.bus.phase == Started && s.twi.data % 2 == 0
    case ReadAddressAck => s.twi.control.Reply? && s.bus.phase == Started && s.twi.data % 2 == 1
    case ReadAddressNack => s.twi.control.Reply? && s.bus.phase == Started && s.twi.data % 2 == 1
    case WriteDataAck => s.twi.control.Reply? && Direction(s.bus, 0)
    case WriteDataNack => s.twi.control.Reply? && Direction(s.bus, 0)
    case ReadDataAck(_) => s.twi.control == Reply(true) && Direction(s.bus, 1)
    case ReadDataNack(_) => s.twi.control == Reply(false) && Direction(s.bus, 1)
  }

  /** The address goes out from the data register. */
  function Sent(s: System): Bus {
    s.bus.(addressed := s.bus.addressed + [s.twi.data])
  }

  function BusAfter(s: System, e: Event): Bus {
    match e.status
    case Start => s.bus.(phase := Started)
    case RepStart => s.bus.(phase := Started)
    case WriteAddressAck => Sent(s).(phase := Addressed)
    case ReadAddressAck => Sent(s).(phase := Addressed)
    case WriteAddressNack => Sent(s)
    case ReadAddressNack => Sent(s)
    case WriteDataAck => s.bus.(acknowledged := s.bus.acknowledged + [s.twi.data])
    case ReadDataAck(data) => s.bus.(received := s.bus.received + [data])
    case ReadDataNack(data) => s.bus.(received := s.bus.received + [data], refused := true)
    case _ => s.bus
  }

  function After(s: System, e: Event): System
    requires InBounds(s.twi, e)
  {
    System(Interrupted(s.twi, e), BusAfter(s, e))
  }

  function Opened(t: Engine, inRepStart: bool): System {
    System(t, Bus(if inRepStart then Started else Waiting, [], [], false, []))
  }

  /** The events lead from s to t, each of them possible where it comes. */
  predicate Run(s: System, events: seq<Event>, t: System)
    decreases |events|
  {
    if events == [] then t == s
    else Possible(s, events[0]) && InBounds(s.twi, events[0]) && Run(After(s, events[0]), events[1..], t)
  }

  /** The bus behaves: each event is possible where it comes.  Whether the engine stays inside
      its buffer is another matter.
    */
  predicate Plays(s: System, events: seq<Event>)
    decreases |events|
  {
    || events == []
    || (Possible(s, events[0]) && (InBounds(s.twi, events[0]) ==> Plays(After(s, events[0]), events[1..])))
  }

  /** The bus behaves, and the engine stays inside its buffer. */
  predicate StaysInside(s: System, events: seq<Event>)
    decreases |events|
  {
    || events == []
    || (Possible(s, events[0]) && InBounds(s.twi, events[0]) && StaysInside(After(s, events[0]), events[1..]))
  }

  /** The state after the events, as far as the engine stays inside. */
  function Played(s: System, events: seq<Event>): System
    decreases |events|
  {
    if events == [] || !InBounds(s.twi, events[0]) then s else Played(After(s, events[0]), events[1..])
  }

  /** The state in which a loop that polls for the end of `busy` stops: before each look, some
      events have happened.
    */
  function Awaited(s: System, busy: Mode, polls: seq<seq<Event>>): System
    decreases |polls|
  {
    if s.twi.mode != busy || polls == [] then s else Awaited(Played(s, polls[0]), busy, polls[1..])
  }

  lemma {:induction false} PlayedOn(s: System, a: seq<Event>, b: seq<Event>)
    requires StaysInside(s, a + b)
    ensures StaysInside(s, a) && Run(s, a, Played(s, a)) && StaysInside(Played(s, a), b)
    decreases |a|
  {
    hide Possible, InBounds, After;
    if a == [] {
      assert a + b == b;
    } else {
      assert (a + b)[0] == a[0] && (a + b)[1..] == a[1..] + b;
      PlayedOn(After(s, a[0]), a[1..], b);
    }
  }

  /** The events up to that state make a run. */
  lemma {:induction false} AwaitedRuns(s: System, busy: Mode, polls: seq<seq<Event>>) returns (events: seq<Event>)
    requires StaysInside(s, Flattened(polls))
    ensures Run(s, events, Awaited(s, busy, polls)) && events <= Flattened(polls)
    decreases |polls|
  {
    hide Run, StaysInside, Played;
    Nothing(s);
    events := [];
    if s.twi.mode == busy && polls != [] {
      PlayedOn(s, polls[0], Flattened(polls[1..]));
      events := AwaitedRuns(Played(s, polls[0]), busy, polls[1..]);
      RunsJoined(s, polls[0], Played(s, polls[0]), events, Awaited(s, busy, polls));
      events := polls[0] + events;
    }
  }

  lemma {:induction false} RunsJoined(s: System, a: seq<Event>, t: System, b: seq<Event>, u: System)
    requires Run(s, a, t) && Run(t, b, u)
    ensures Run(s, a + b, u)
    decreases |a|
  {
    hide Possible, InBounds, After;
    if a == [] {
      assert a + b == b;
    } else {
      assert (a + b)[0] == a[0] && (a + b)[1..] == a[1..] + b;
      RunsJoined(After(s, a[0]), a[1..], t, b, u);
    }
  }

  /** The engine has asked for something that the bus is still to do. */
  predicate InProgress(t: Engine) {
    t.control == SendStart || t.control.Reply?
  }

  /** The address byte is the one wanted: it is about to be sent, or has been, once. */
  predicate AddressInv(s: System, slarw: octet) {
    && s.twi.slarw == slarw && (s.bus.addressed == [] || s.bus.addressed == [slarw])
    && (s.bus.phase == Addressed ==> s.bus.addressed == [slarw])
    && (s.twi.control == SendStart ==> s.bus.phase == Waiting && s.bus.addressed == [])
    && (s.twi.control.Reply? && s.bus.phase == Started ==> s.twi.data == slarw && s.bus.addressed == [])
  }

  /** Whatever ends a transaction leaves the engine ready, provided that the stop completes. */
  lemma TransactionEnds(s: System, e: Event)
    requires InProgress(s.twi) && Possible(s, e) && InBounds(s.twi, e) && e.stops
    ensures InProgress(After(s, e).twi) || After(s, e).twi.mode == Ready
  {
  }

  // ---------- Reading ----------

  /** A read of n bytes in progress: what has come in lies in the buffer in order, the answer
      to the next byte is NACK exactly if that byte is the last, and a byte has been answered
      so exactly if all have come, as they have when bytes came and the read is over without
      an error.
    */
  predicate ReadInv(s: System, n: nat, address: octet) {
    && 1 <= n <= BUFFER_LENGTH && address < 128 && s.twi.length == n - 1
    && AddressInv(s, 2 * address + 1) && (s.twi.index > 0 ==> s.bus.addressed != [])
    && s.twi.index == |s.bus.received| <= n && s.twi.buffer[..s.twi.index] == s.bus.received
    && (s.twi.control == SendStart ==> s.bus.phase == Waiting && s.twi.index == 0)
    && (s.twi.control.Reply? ==>
          && s.bus.phase != Waiting && s.twi.index < n
          && (s.bus.phase == Started ==> s.twi.index == 0 && s.twi.control == Reply(true))
          && (s.bus.phase == Addressed ==> (s.twi.control == Reply(false) <==> s.twi.index == n - 1)))
    && (s.twi.control == HoldStart ==> s.twi.index == n)
    && (s.bus.refused <==> s.twi.index == n)
    && (InProgress(s.twi) ==> s.twi.mode == Receiving)
    && (!InProgress(s.twi) && s.twi.error == NO_ERROR && s.twi.index > 0 ==> s.bus.refused)
  }

  lemma ReadOpens(t: Engine, address: octet, n: octet, sendStop: bool)
    requires address < 128 && 1 <= n <= BUFFER_LENGTH
    ensures ReadInv(Opened(ReadBegun(t, address, n, sendStop), t.inRepStart), n, address)
  {
    Odd(address);
  }

  lemma Odd(a: nat)
    ensures (2 * a + 1) % 2 == 1 && (2 * a) % 2 == 0
  {
  }

  lemma ReadStep(s: System, e: Event, n: nat, address: octet)
    requires ReadInv(s, n, address) && Possible(s, e)
    ensures InBounds(s.twi, e) && ReadInv(After(s, e), n, address)
  {
    if e.status.ReadDataAck? || e.status.ReadDataNack? {
      var t := After(s, e);
      assert t.twi.buffer[..t.twi.index] == s.twi.buffer[..s.twi.index] + [e.status.data];
    }
  }

  lemma {:induction false} ReadRun(s: System, events: seq<Event>, t: System, n: nat, address: octet)
    requires ReadInv(s, n, address) && Run(s, events, t)
    ensures ReadInv(t, n, address)
    decreases |events|
  {
    hide ReadInv, Possible, InBounds, After;
    if events != [] {
      ReadStep(s, events[0], n, address);
      ReadRun(After(s, events[0]), events[1..], t, n, address);
    }
  }

  /** A read stays inside the buffer through all of what the bus does. */
  lemma {:induction false} ReadPlays(s: System, events: seq<Event>, n: nat, address: octet)
    requires ReadInv(s, n, address) && Plays(s, events)
    ensures StaysInside(s, events)
    decreases |events|
  {
    hide ReadInv, Possible, InBounds, After;
    if events != [] {
      ReadStep(s, events[0], n, address);
      ReadPlays(After(s, events[0]), events[1..], n, address);
    }
  }

  /** For every read of 1 to 32 bytes and every possible sequence of events: the index never
      passes the length, the bytes that came in are in the buffer in order, and the reply is
      NACK exactly for the last byte.  Whatever event is possible next stays inside the buffer.
    */
  lemma ReadSafe(t: Engine, address: octet, n: octet, sendStop: bool, events: seq<Event>, s: System)
    requires address < 128 && 1 <= n <= BUFFER_LENGTH
    requires Run(Opened(ReadBegun(t, address, n, sendStop), t.inRepStart), events, s)
    ensures s.twi.index <= n && s.twi.buffer[..s.twi.index] == s.bus.received
    ensures s.bus.phase == Addressed && s.twi.control.Reply? ==>
              (s.twi.control == Reply(false) <==> s.twi.index + 1 == n)
    ensures s.twi.control == HoldStart ==> s.twi.index == n
    ensures s.bus.refused <==> s.twi.index == n
    ensures s.bus.addressed == [] || s.bus.addressed == [2 * address + 1]
    ensures s.bus.received != [] ==> s.bus.addressed != []
    ensures s.twi.mode != Receiving && s.twi.error == NO_ERROR && s.twi.index > 0 ==> s.twi.index == n
    ensures forall e | Possible(s, e) :: InBounds(s.twi, e)
  {
    hide Run;
    ReadOpens(t, address, n, sendStop);
    ReadRun(Opened(ReadBegun(t, address, n, sendStop), t.inRepStart), events, s, n, address);
    forall e | Possible(s, e)
      ensures InBounds(s.twi, e)
    {
      ReadStep(s, e, n, address);
    }
  }

  function Ok(status: Status): Event {
    Event(status, true)
  }

  /** The start of a transaction that a slave answers to. */
  function Opening(inRepStart: bool, answer: Status): seq<Event> {
    if inRepStart then [Ok(answer)] else [Ok(Start), Ok(answer)]
  }

  /** The bytes of a slave that sends as many as it is asked for. */
  function Answers(data: seq<octet>): seq<Event>
    requires data != []
  {
    if |data| == 1 then [Ok(ReadDataNack(data[0]))] else [Ok(ReadDataAck(data[0]))] + Answers(data[1..])
  }

  lemma {:induction false} DataArrives(s: System, data: seq<octet>, n: nat, address: octet)
    requires ReadInv(s, n, address) && s.bus.phase == Addressed && s.twi.control.Reply?
    requires data != [] && s.twi.index + |data| == n
    ensures StaysInside(s, Answers(data))
    ensures var t := Played(s, Answers(data));
            && ReadInv(t, n, address) && t.twi.mode == Ready && t.bus.received == s.bus.received + data
            && t.twi.error == s.twi.error && t.twi.control == if s.twi.sendStop then Stop else HoldStart
    decreases |data|
  {
    hide ReadInv;
    var e := Answers(data)[0];
    assert Possible(s, e) && s.twi.index < n by {
      NextByte(s, data, n, address);
    }
    ReadStep(s, e, n, address);
    if |data| > 1 {
      AnotherByte(s, data[0], n, address);
      assert Answers(data)[1..] == Answers(data[1..]);
      DataArrives(After(s, e), data[1..], n, address);
      assert s.bus.received + [data[0]] + data[1..] == s.bus.received + data;
    }
  }

  lemma NextByte(s: System, data: seq<octet>, n: nat, address: octet)
    requires ReadInv(s, n, address) && s.bus.phase == Addressed && s.twi.control.Reply?
    requires data != [] && s.twi.index + |data| == n
    ensures Possible(s, Answers(data)[0]) && InBounds(s.twi, Answers(data)[0])
  {
  }

  lemma AnotherByte(s: System, d: octet, n: nat, address: octet)
    requires ReadInv(s, n, address) && s.bus.phase == Addressed && s.twi.control.Reply? && s.twi.index + 1 < n
    ensures var e := Ok(ReadDataAck(d));
            InBounds(s.twi, e) && var t := After(s, e);
            && t.bus.phase == Addressed && t.twi.control.Reply? && t.twi.index == s.twi.index + 1
            && t.bus.received == s.bus.received + [d] && t.twi.error == s.twi.error && t.twi.sendStop == s.twi.sendStop
  {
  }

  /** A read that a slave answers to ends, with all of its bytes. */
  lemma ReadCompletes(t: Engine, address: octet, data: seq<octet>, sendStop: bool)
    requires address < 128 && 1 <= |data| <= BUFFER_LENGTH
    ensures var s := Opened(ReadBegun(t, address, |data|, sendStop), t.inRepStart);
            var polls := [Opening(t.inRepStart, ReadAddressAck) + Answers(data)];
            && StaysInside(s, Flattened(polls))
            && var u := Awaited(s, Receiving, polls);
               && u.twi.mode == Ready && u.bus.received == data && u.bus.addressed == [2 * address + 1]
               && u.twi.error == NO_ERROR && u.twi.control == if sendStop then Stop else HoldStart
  {
    var s, n := Opened(ReadBegun(t, address, |data|, sendStop), t.inRepStart), |data|;
    ReadOpens(t, address, n, sendStop);
    var u := ReadStarts(t, address, n, sendStop);
    hide *;
    assert [] + data == data;
    DataArrives(After(u, Ok(ReadAddressAck)), data, n, address);
    AfterOpening(s, u, ReadAddressAck, t.inRepStart, Answers(data));
    OnePoll(s, Receiving, Opening(t.inRepStart, ReadAddressAck) + Answers(data));
    AllArrived(Awaited(s, Receiving, [Opening(t.inRepStart, ReadAddressAck) + Answers(data)]), n, address);
  }

  lemma AllArrived(s: System, n: nat, address: octet)
    requires ReadInv(s, n, address) && s.bus.received != []
    ensures s.bus.addressed == [2 * address + 1]
  {
  }

  lemma ReadStarts(t: Engine, address: octet, n: octet, sendStop: bool) returns (u: System)
    requires address < 128 && 1 <= n <= BUFFER_LENGTH
    ensures var s := Opened(ReadBegun(t, address, n, sendStop), t.inRepStart);
            && s.twi.mode == Receiving && (t.inRepStart || Possible(s, Ok(Start)))
            && u == (if t.inRepStart then s else After(s, Ok(Start))) && Possible(u, Ok(ReadAddressAck))
    ensures var v := After(u, Ok(ReadAddressAck));
            && ReadInv(v, n, address) && v.bus.phase == Addressed && v.twi.control.Reply? && v.twi.index == 0
            && v.bus.received == [] && v.twi.error == NO_ERROR && v.twi.sendStop == sendStop
  {
    var s := Opened(ReadBegun(t, address, n, sendStop), t.inRepStart);
    ReadOpens(t, address, n, sendStop);
    Odd(address);
    u := s;
    if !t.inRepStart {
      ReadStep(s, Ok(Start), n, address);
      u := After(s, Ok(Start));
    }
    hide ReadInv;
    ReadStep(u, Ok(ReadAddressAck), n, address);
  }

  lemma AfterOpening(s: System, u: System, answer: Status, inRepStart: bool, rest: seq<Event>)
    requires Possible(s, Ok(Start)) || inRepStart
    requires u == if inRepStart then s else After(s, Ok(Start))
    requires Possible(u, Ok(answer)) && InBounds(u.twi, Ok(answer)) && StaysInside(After(u, Ok(answer)), rest)
    ensures StaysInside(s, Opening(inRepStart, answer) + rest)
    ensures Played(s, Opening(inRepStart, answer) + rest) == Played(After(u, Ok(answer)), rest)
  {
    hide Possible, After;
    var events := Opening(inRepStart, answer) + rest;
    if inRepStart {
      assert events[1..] == rest;
    } else {
      assert events[1..] == [Ok(answer)] + rest && ([Ok(answer)] + rest)[1..] == rest;
    }
  }

  lemma OnePoll(s: System, busy: Mode, events: seq<Event>)
    requires s.twi.mode == busy
    ensures Awaited(s, busy, [events]) == Played(s, events) && Flattened([events]) == events
  {
    hide Played;
    assert [events][1..] == [];
    assert Awaited(s, busy, [events]) == Awaited(Played(s, events), busy, []);
  }

  /** A read of two bytes that ends after the first, because of an error on the bus, leaves the
      receiving mode like one that is complete, with one byte in its buffer.
    */
  lemma ShortRead(t: Engine, address: octet, sendStop: bool, data: octet) returns (events: seq<Event>, s: System)
    requires address < 128 && !t.inRepStart
    ensures Run(Opened(ReadBegun(t, address, 2, sendStop), t.inRepStart), events, s)
    ensures s.twi.mode == Ready && s.twi.index == 1 && s.bus.received == [data]
    ensures !s.bus.refused && s.twi.error != NO_ERROR
  {
    hide Run;
    Odd(address);
    s := Opened(ReadBegun(t, address, 2, sendStop), t.inRepStart);
    var start := s;
    events := [];
    Nothing(start);
    var statuses := [Start, ReadAddressAck, ReadDataAck(data), BusError];
    for i := 0 to 4
      invariant Run(start, events, s) && s.twi.slarw % 2 == 1 && s.twi.length == 1
      invariant i >= 2 ==> Direction(s.bus, 1)
      invariant s.twi.index == (if i < 3 then 0 else 1) && !s.bus.refused
      invariant s.bus.received == if i < 3 then [] else [data]
      invariant i == 0 ==> s.twi.control == SendStart
      invariant i == 1 ==> s.twi.control.Reply? && s.bus.phase == Started && s.twi.data == s.twi.slarw
      invariant i == 2 ==> s.twi.control == Reply(true)
      invariant i == 3 ==> s.twi.control == Reply(false)
      invariant i == 4 ==> s.twi.mode == Ready && s.twi.error == 0
    {
      var e := Event(statuses[i], true);
      RunOn(start, events, s, e);
      events, s := events + [e], After(s, e);
    }
  }

  lemma Nothing(s: System)
    ensures Run(s, [], s)
  {
  }

  /** After a read of nothing was begun and k bytes were sent by the slave. */
  function Flooded(s: System, k: nat): System
    requires s.twi.index == 0 && k <= BUFFER_LENGTH
    ensures Flooded(s, k).twi.index == k
  {
    if k == 0 then s else After(Flooded(s, k - 1), Event(ReadDataAck(0), true))
  }

  /** A length of zero is not rejected, and its count wraps around: every byte is
      acknowledged, and after 32 of them the next would be written behind the buffer.
    */
  lemma {:induction false} EmptyReadRunsOn(t: Engine, address: octet, sendStop: bool, k: nat)
    requires address < 128 && k <= BUFFER_LENGTH && !t.inRepStart
    ensures var s0 := Opened(ReadBegun(t, address, 0, sendStop), false);
            var s2 := After(After(s0, Event(Start, true)), Event(ReadAddressAck, true));
            && Possible(s0, Event(Start, true)) && Possible(After(s0, Event(Start, true)), Event(ReadAddressAck, true))
            && s2.twi.index == 0
            && Possible(Flooded(s2, k), Event(ReadDataAck(0), true))
            && (InBounds(Flooded(s2, k).twi, Event(ReadDataAck(0), true)) <==> k < BUFFER_LENGTH)
  {
    Odd(address);
    var s0 := Opened(ReadBegun(t, address, 0, sendStop), false);
    var s2 := After(After(s0, Event(Start, true)), Event(ReadAddressAck, true));
    FloodedAcks(s2, k);
  }

  lemma {:induction false} FloodedAcks(s: System, k: nat)
    requires s.twi.index == 0 && s.twi.length == 255 && s.twi.control == Reply(true) && Direction(s.bus, 1)
    requires k <= BUFFER_LENGTH
    ensures var f := Flooded(s, k);
            && f.twi.length == 255 && f.twi.control == Reply(true)
            && Direction(f.bus, 1)
  {
    if k > 0 {
      FloodedAcks(s, k - 1);
    }
  }

  // ---------- Writing ----------

  /** A write in progress: the slave has acknowledged all bytes before the one in the data
      register; once it is over without an error, all of them.
    */
  predicate WriteInv(s: System, bytes: seq<octet>, address: octet) {
    && address < 128 && AddressInv(s, 2 * address)
    && |bytes| <= BUFFER_LENGTH && s.twi.length == |bytes| && s.twi.buffer[..|bytes|] == bytes
    && s.twi.index <= |bytes| && s.bus.acknowledged <= bytes
    && (s.twi.control == SendStart ==> s.bus.phase == Waiting && s.twi.index == 0)
    && (s.twi.control.Reply? ==>
          && s.bus.phase != Waiting
          && (s.bus.phase == Started ==> s.twi.index == 0)
          && (s.bus.phase == Addressed ==>
                && s.twi.index > 0 && s.twi.data == bytes[s.twi.index - 1]
                && s.bus.acknowledged == bytes[..s.twi.index - 1]))
    && (s.twi.index == 0 ==> s.bus.acknowledged == [])
    && (InProgress(s.twi) ==> s.twi.mode == Transmitting)
    && (!InProgress(s.twi) && s.twi.error == NO_ERROR ==> s.bus.acknowledged == bytes && s.bus.addressed != [])
  }

  lemma WriteOpens(t: Engine, address: octet, bytes: seq<octet>, sendStop: bool)
    requires address < 128 && |bytes| <= BUFFER_LENGTH
    ensures WriteInv(Opened(WriteBegun(t, address, bytes, sendStop), t.inRepStart), bytes, address)
  {
    Odd(address);
  }

  lemma WriteStep(s: System, e: Event, bytes: seq<octet>, address: octet)
    requires WriteInv(s, bytes, address) && Possible(s, e)
    ensures InBounds(s.twi, e) && WriteInv(After(s, e), bytes, address)
  {
    assert forall i | 0 <= i < |bytes| :: s.twi.buffer[i] == s.twi.buffer[..|bytes|][i];
    if e.status == WriteDataAck {
      var k := s.twi.index;
      assert bytes[..k] == bytes[..k - 1] + [bytes[k - 1]];
    }
  }

  lemma {:induction false} WriteRun(s: System, events: seq<Event>, t: System, bytes: seq<octet>, address: octet)
    requires WriteInv(s, bytes, address) && Run(s, events, t)
    ensures WriteInv(t, bytes, address)
    decreases |events|
  {
    hide WriteInv, Possible, InBounds, After;
    if events != [] {
      WriteStep(s, events[0], bytes, address);
      WriteRun(After(s, events[0]), events[1..], t, bytes, address);
    }
  }

  /** So does a write. */
  lemma {:induction false} WritePlays(s: System, events: seq<Event>, bytes: seq<octet>, address: octet)
    requires WriteInv(s, bytes, address) && Plays(s, events)
    ensures StaysInside(s, events)
    decreases |events|
  {
    hide WriteInv, Possible, InBounds, After;
    if events != [] {
      WriteStep(s, events[0], bytes, address);
      WritePlays(After(s, events[0]), events[1..], bytes, address);
    }
  }

  /** A write that has left the transmitting mode without an error has had every byte
      acknowledged, in order; in any case the acknowledged bytes are a prefix, and no possible
      event reads behind the buffer.
    */
  lemma WriteSafe(t: Engine, address: octet, bytes: seq<octet>, sendStop: bool, events: seq<Event>, s: System)
    requires address < 128 && |bytes| <= BUFFER_LENGTH
    requires Run(Opened(WriteBegun(t, address, bytes, sendStop), t.inRepStart), events, s)
    ensures s.bus.acknowledged <= bytes && s.twi.index <= |bytes|
    ensures s.twi.mode != Transmitting && s.twi.error == NO_ERROR ==>
              s.bus.acknowledged == bytes && s.bus.addressed != []
    ensures s.bus.addressed == [] || s.bus.addressed == [2 * address]
    ensures forall e | Possible(s, e) :: InBounds(s.twi, e)
  {
    hide Run;
    WriteOpens(t, address, bytes, sendStop);
    WriteRun(Opened(WriteBegun(t, address, bytes, sendStop), t.inRepStart), events, s, bytes, address);
    forall e | Possible(s, e)
      ensures InBounds(s.twi, e)
    {
      WriteStep(s, e, bytes, address);
    }
  }

  /** As many acknowledged bytes. */
  function Acks(n: nat): seq<Event> {
    if n == 0 then [] else [Ok(WriteDataAck)] + Acks(n - 1)
  }

  lemma {:induction false} DataTaken(s: System, bytes: seq<octet>, n: nat, address: octet)
    requires WriteInv(s, bytes, address) && s.bus.phase == Addressed && s.twi.control.Reply?
    requires s.twi.index + n == |bytes| + 1 && n > 0
    ensures StaysInside(s, Acks(n))
    ensures var t := Played(s, Acks(n));
            && WriteInv(t, bytes, address) && t.twi.mode == Ready && t.twi.error == s.twi.error
            && t.twi.control == if s.twi.sendStop then Stop else HoldStart
    decreases n
  {
    hide WriteInv;
    var e := Ok(WriteDataAck);
    NextTaken(s, bytes, n, address);
    WriteStep(s, e, bytes, address);
    assert Acks(n)[1..] == Acks(n - 1);
    if n > 1 {
      DataTaken(After(s, e), bytes, n - 1, address);
    } else {
      assert Acks(0) == [];
    }
  }

  lemma NextTaken(s: System, bytes: seq<octet>, n: nat, address: octet)
    requires WriteInv(s, bytes, address) && s.bus.phase == Addressed && s.twi.control.Reply?
    requires s.twi.index + n == |bytes| + 1 && n > 0
    ensures var e := Ok(WriteDataAck);
            Possible(s, e) && InBounds(s.twi, e) && var t := After(s, e);
            && t.twi.error == s.twi.error && t.twi.sendStop == s.twi.sendStop
            && if n > 1 then t.bus.phase == Addressed && t.twi.control.Reply? && t.twi.index == s.twi.index + 1
               else t.twi.mode == Ready && t.twi.control == if s.twi.sendStop then Stop else HoldStart
  {
  }

  /** A write that a slave takes ends, without an error. */
  lemma WriteCompletes(t: Engine, address: octet, bytes: seq<octet>, sendStop: bool)
    requires address < 128 && |bytes| <= BUFFER_LENGTH
    ensures var s := Opened(WriteBegun(t, address, bytes, sendStop), t.inRepStart);
            var polls := [Opening(t.inRepStart, WriteAddressAck) + Acks(|bytes|)];
            && StaysInside(s, Flattened(polls))
            && var u := Awaited(s, Transmitting, polls);
               && u.twi.mode == Ready && u.bus.acknowledged == bytes && u.bus.addressed == [2 * address]
               && u.twi.error == NO_ERROR && u.twi.control == if sendStop then Stop else HoldStart
  {
    var s, n := Opened(WriteBegun(t, address, bytes, sendStop), t.inRepStart), |bytes|;
    var u := WriteStarts(t, address, bytes, sendStop);
    hide WriteInv, Possible, WriteBegun, Opened, Played, StaysInside, Awaited, Flattened, Opening, After;
    var v := After(u, Ok(WriteAddressAck));
    if n > 0 {
      DataTaken(v, bytes, n, address);
    } else {
      NoEvents(v);
    }
    AfterOpening(s, u, WriteAddressAck, t.inRepStart, Acks(n));
    OnePoll(s, Transmitting, Opening(t.inRepStart, WriteAddressAck) + Acks(n));
    AllTaken(Awaited(s, Transmitting, [Opening(t.inRepStart, WriteAddressAck) + Acks(n)]), bytes, address);
  }

  lemma NoEvents(s: System)
    ensures StaysInside(s, []) && Played(s, []) == s
  {
  }

  lemma AllTaken(s: System, bytes: seq<octet>, address: octet)
    requires WriteInv(s, bytes, address) && !InProgress(s.twi) && s.twi.error == NO_ERROR
    ensures s.bus.acknowledged == bytes && s.bus.addressed == [2 * address]
  {
  }

  lemma WriteStarts(t: Engine, address: octet, bytes: seq<octet>, sendStop: bool) returns (u: System)
    requires address < 128 && |bytes| <= BUFFER_LENGTH
    ensures var s := Opened(WriteBegun(t, address, bytes, sendStop), t.inRepStart);
            && s.twi.mode == Transmitting && (t.inRepStart || Possible(s, Ok(Start)))
            && u == (if t.inRepStart then s else After(s, Ok(Start)))
            && Possible(u, Ok(WriteAddressAck)) && InBounds(u.twi, Ok(WriteAddressAck))
    ensures var v := After(u, Ok(WriteAddressAck));
            && WriteInv(v, bytes, address) && v.twi.error == NO_ERROR && v.twi.sendStop == sendStop
            && if bytes != [] then v.bus.phase == Addressed && v.twi.control.Reply? && v.twi.index == 1
               else v.twi.mode == Ready && v.twi.control == if sendStop then Stop else HoldStart
  {
    var s := Opened(WriteBegun(t, address, bytes, sendStop), t.inRepStart);
    WriteOpens(t, address, bytes, sendStop);
    Odd(address);
    u := s;
    if !t.inRepStart {
      WriteStep(s, Ok(Start), bytes, address);
      u := After(s, Ok(Start));
    }
    hide WriteInv;
    WriteStep(u, Ok(WriteAddressAck), bytes, address);
  }

  // ---------- The engine in memory ----------

  class Master {
    const buffer: array<octet>
    var mode: Mode
    var slarw: octet
    var sendStop: bool
    var inRepStart: bool
    var index: octet
    var length: octet
    var error: octet
    var data: octet
    var control: Control
    /** What has happened on the bus since the transaction began. */
    ghost var bus: Bus

    ghost predicate Valid() {
      buffer.Length == BUFFER_LENGTH
    }

    ghost function View(): System
      requires Valid()
      reads this, buffer
    {
      System(Engine(mode, slarw, sendStop, inRepStart, buffer[..], index, length, error, data, control), bus)
    }

    constructor ()
      ensures Valid() && fresh(buffer) && mode == Ready && !inRepStart
    {
      buffer := new octet[BUFFER_LENGTH](_ => 0);
      mode, slarw, sendStop, inRepStart, index, length, error, data := Ready, 0, true, false, 0, 0, 0, 0;
      control, bus := Release, Bus(Waiting, [], [], false, []);
    }

    method SendStopCondition(stops: bool)
      requires Valid()
      modifies this`control, this`mode
      ensures View() == old(View()).(twi := Stopped(old(View()).twi, stops))
    {
      control := Stop;
      if stops {
        mode := Ready;
      }
    }

    /** The end of a transaction. */
    method Finish(stops: bool)
      requires Valid()
      modifies this`control, this`mode, this`inRepStart
      ensures View() == old(View()).(twi := Ended(old(View()).twi, stops))
    {
      if sendStop {
        SendStopCondition(stops);
      } else {
        inRepStart := true;
        control := HoldStart;
        mode := Ready;
      }
    }

    /** The TWI interrupt. */
    method Interrupt(e: Event)
      requires Valid() && InBounds(View().twi, e)
      modifies this, buffer
      ensures View() == After(old(View()), e)
    {
      bus := BusAfter(View(), e);
      match e.status {
        case Start =>
          data := slarw;
          control := Reply(true);
        case RepStart =>
          data := slarw;
          control := Reply(true);
        case WriteAddressAck =>
          Send(e.stops);
        case WriteDataAck =>
          Send(e.stops);
        case WriteAddressNack =>
          error := 0x20;
          SendStopCondition(e.stops);
        case WriteDataNack =>
          error := 0x30;
          SendStopCondition(e.stops);
        case ArbitrationLost =>
          error := 0x38;
          control := Release;
          mode := Ready;
        case ReadDataAck(received) =>
          buffer[index] := received;
          index := index + 1;
          control := Reply(index < length);
        case ReadAddressAck =>
          control := Reply(index < length);
        case ReadDataNack(received) =>
          buffer[index] := received;
          index := index + 1;
          Finish(e.stops);
        case ReadAddressNack =>
          SendStopCondition(e.stops);
        case NoInfo =>
        case BusError =>
          error := 0;
          SendStopCondition(e.stops);
      }
    }

    method Send(stops: bool)
      requires Valid() && (index < length ==> index < BUFFER_LENGTH)
      modifies this`data, this`index, this`control, this`mode, this`inRepStart
      ensures View() == old(View()).(twi := SendNext(old(View()).twi, stops))
    {
      if index < length {
        data := buffer[index];
        index := index + 1;
        control := Reply(true);
      } else {
        Finish(stops);
      }
    }

    /** The common end of both entry points: the address goes out at once after a held start. */
    method Open(newMode: Mode, newSlarw: octet, stop: bool, newLength: octet)
      requires Valid()
      modifies this
      ensures View() == Opened(Begun(old(View()).twi, newMode, newSlarw, stop, newLength), old(inRepStart))
    {
      bus := Bus(if inRepStart then Started else Waiting, [], [], false, []);
      mode, sendStop, error, index, length, slarw := newMode, stop, NO_ERROR, 0, newLength, newSlarw;
      if inRepStart {
        inRepStart := false;
        data := slarw;
        control := Reply(true);
      } else {
        control := SendStart;
      }
    }

    /** Polls the mode while interrupts come in between, each poll after any number of them,
        until the transaction is over or the polls have run out.
      */
    method WaitWhile(busy: Mode, polls: seq<seq<Event>>) returns (over: bool)
      requires Valid() && StaysInside(View(), Flattened(polls))
      modifies this, buffer
      ensures View() == Awaited(old(View()), busy, polls) && (over <==> mode != busy)
    {
      hide Possible, InBounds, After;
      ghost var start := View();
      var i := 0;
      assert polls[0..] == polls;
      while mode == busy && i < |polls|
        invariant i <= |polls| && StaysInside(View(), Flattened(polls[i..]))
        invariant Awaited(View(), busy, polls[i..]) == Awaited(start, busy, polls)
      {
        var j, batch := 0, polls[i];
        ghost var later := polls[i + 1..];
        assert polls[i..][0] == batch && polls[i..][1..] == later && batch[0..] == batch;
        while j < |batch|
          invariant j <= |batch| && StaysInside(View(), batch[j..] + Flattened(later))
          invariant Awaited(Played(View(), batch[j..]), busy, later) == Awaited(start, busy, polls)
        {
          NextPlayed(View(), batch[j..], Flattened(later));
          assert batch[j..][0] == batch[j] && batch[j..][1..] == batch[j + 1..];
          Interrupt(batch[j]);
          j := j + 1;
        }
        assert batch[j..] + Flattened(later) == Flattened(later);
        i := i + 1;
      }
      over := mode != busy;
    }

    /** A read.  A timeout returns nothing; otherwise all bytes that came in are copied, and
        success means that there was one.  Those are all that were asked for exactly if a byte
        was answered by NACK; that no error was recorded, which is not looked at, would be enough.
      */
    method ReadFrom(address: octet, count: octet, stop: bool, polls: seq<seq<Event>>)
      returns (success: bool, bytes: seq<octet>)
      requires Valid() && address < 128
      requires mode == Ready && 1 <= count <= BUFFER_LENGTH ==>
                 Plays(Opened(ReadBegun(View().twi, address, count, stop), inRepStart), Flattened(polls))
      requires mode == Ready && count == 0 ==>
                 StaysInside(Opened(ReadBegun(View().twi, address, count, stop), inRepStart), Flattened(polls))
      modifies this, buffer
      ensures if old(mode) != Ready || count > BUFFER_LENGTH then View() == old(View()) && bytes == []
              else var start := Opened(ReadBegun(old(View()).twi, address, count, stop), old(inRepStart));
                   View() == Awaited(start, Receiving, polls)
                   && bytes == if mode == Receiving || count == 0 then [] else bus.received
      ensures success <==> bytes != []
      ensures success ==> |bytes| <= count && bus.addressed == [2 * address + 1]
      ensures success ==> (|bytes| == count <==> bus.refused) && (error == NO_ERROR ==> |bytes| == count)
    {
      success, bytes := false, [];
      if BUFFER_LENGTH < count || mode != Ready {
        return;
      }
      ghost var t := View().twi;
      ghost var start := Opened(ReadBegun(t, address, count, stop), inRepStart);
      if count > 0 {
        ReadOpens(t, address, count, stop);
        ReadPlays(start, Flattened(polls), count, address);
      }
      ghost var happened := AwaitedRuns(start, Receiving, polls);
      Open(Receiving, 2 * address + 1, stop, (count + 255) % 256);
      var over := WaitWhile(Receiving, polls);
      if !over {
        return;
      }
      if count > 0 {
        ReadSafe(t, address, count, stop, happened, View());
      }
      var n := count;
      if index < n {
        n := index;
      }
      success, bytes := n != 0, buffer[..n];
      assert count > 0 ==> bytes == View().twi.buffer[..index];
    }

    /** A write, waited for.  True means that the transaction is over without an error, and then
        every byte has been acknowledged by the slave addressed.
      */
    method WriteTo(address: octet, bytes: seq<octet>, stop: bool, polls: seq<seq<Event>>)
      returns (written: bool)
      requires Valid() && address < 128
      requires mode == Ready && |bytes| <= BUFFER_LENGTH ==>
                 Plays(Opened(WriteBegun(View().twi, address, bytes, stop), inRepStart), Flattened(polls))
      modifies this, buffer
      ensures if old(mode) != Ready || |bytes| > BUFFER_LENGTH then View() == old(View()) && !written
              else var start := Opened(WriteBegun(old(View()).twi, address, bytes, stop), old(inRepStart));
                   View() == Awaited(start, Transmitting, polls)
                   && (written <==> mode != Transmitting && error == NO_ERROR)
      ensures written ==> bus.acknowledged == bytes && bus.addressed == [2 * address]
    {
      if BUFFER_LENGTH < |bytes| || mode != Ready {
        return false;
      }
      ghost var t := View().twi;
      forall i | 0 <= i < |bytes| {
        buffer[i] := bytes[i];
      }
      assert buffer[..] == bytes + t.buffer[|bytes|..];
      WriteOpens(t, address, bytes, stop);
      ghost var start := Opened(WriteBegun(t, address, bytes, stop), inRepStart);
      WritePlays(start, Flattened(polls), bytes, address);
      ghost var happened := AwaitedRuns(start, Transmitting, polls);
      Open(Transmitting, 2 * address, stop, |bytes|);
      var over := WaitWhile(Transmitting, polls);
      if !over {
        return false;
      }
      WriteSafe(t, address, bytes, stop, happened, View());
      return error == NO_ERROR;
    }
  }

  lemma NextPlayed(s: System, a: seq<Event>, b: seq<Event>)
    requires a != [] && StaysInside(s, a + b)
    ensures InBounds(s.twi, a[0]) && StaysInside(After(s, a[0]), a[1..] + b)
    ensures Played(s, a) == Played(After(s, a[0]), a[1..])
  {
    hide Possible, InBounds, After;
    assert (a + b)[1..] == a[1..] + b;
  }

  function Flattened(polls: seq<seq<Event>>): seq<Event> {
    if polls == [] then [] else polls[0] + Flattened(polls[1..])
  }

  /** A run with one more event at its end. */
  lemma {:induction false} RunOn(s: System, events: seq<Event>, t: System, e: Event)
    requires Run(s, events, t) && Possible(t, e) && InBounds(t.twi, e)
    ensures Run(s, events + [e], After(t, e))
    decreases |events|
  {
    hide Possible, InBounds, After;
    if events == [] {
      assert [e][1..] == [];
    } else {
      assert (events + [e])[1..] == events[1..] + [e];
      RunOn(After(s, events[0]), events[1..], t, e);
    }
  }
}
