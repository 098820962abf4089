/** The two processors of an Uno exchanging packets over a serial line.

    Every step of either main loop, of any of the four interrupts, and of the line itself may
    come next.  The bridge's rings appear as the queues that module UnoRings proves them to be.
  */
module UnoLink {
  import opened UnoRings
  import opened UnoMain

  // ---------- Requests ----------

  datatype Request =
    | DataRequest
    | DataTransmit(data: seq<octet>)
    | Validation(setup: seq<octet>)
    | ControlIn(setup: seq<octet>)
    | ControlOut(setup: seq<octet>, data: seq<octet>)
    | DeviceId
    | Descriptor(fields: seq<octet>)

  function Id(r: Request): octet {
    match r
    case DataRequest => REQUEST
    case DataTransmit(_) => TRANSMIT
    case Validation(_) => VALIDATION
    case ControlIn(_) => CONTROL_REQUEST
    case ControlOut(_, _) => CONTROL_REQUEST
    case DeviceId => DEVICE_ID
    case Descriptor(_) => DESCRIPTOR
  }

  function Body(r: Request): seq<octet> {
    match r
    case DataRequest => []
    case DataTransmit(data) => data
    case Validation(setup) => setup
    case ControlIn(setup) => setup
    case ControlOut(setup, data) => setup + data
    case DeviceId => []
    case Descriptor(fields) => fields
  }

  /** Setup packets have eight bytes, descriptor requests three words, and the whole request
      fits into the ring towards the second processor.
    */
  predicate WellFormed(r: Request) {
    && (r.Validation? || r.ControlIn? || r.ControlOut? ==> |r.setup| == 8)
    && (r.Descriptor? ==> |r.fields| == 6)
    && HEADER + |Body(r)| < OUT_SIZE
  }

  function Packet(r: Request): (p: seq<octet>)
    requires WellFormed(r)
    ensures HEADER <= |p| < OUT_SIZE && p[2] == |p|
  {
    [VALID_PACKET, Id(r), HEADER + |Body(r)|] + Body(r)
  }

  // ---------- The bridge's reader ----------

  /** The control reader knows the direction of the host's request; the data reader serves the
      controller's endpoints.
    */
  datatype Reader = Control(deviceToHost: bool) | Data

  function ReaderOf(r: Request): Reader {
    match r
    case DataRequest => Data
    case DataTransmit(_) => Data
    case ControlOut(_, _) => Control(false)
    case Validation(setup) => Control(setup != [] && setup[0] >= 128)
    case _ => Control(true)
  }

  datatype Bridge =
    | Idle
    | NoPacket(reader: Reader)
    | ReadType(reader: Reader)
    | ReadLength(reader: Reader, kind: octet)
    | ReadAndReturn
    | WaitForBytes(count: nat)
    | CopyPayload(left: nat)
    | Rebooting

  predicate ReadsNext(b: Bridge) {
    b.NoPacket? || b.ReadType? || b.ReadLength? || b.ReadAndReturn? || (b.CopyPayload? && b.left > 0)
  }

  /** What the reader does with the next byte. */
  function Read(b: Bridge, data: octet): Bridge
    requires ReadsNext(b)
  {
    match b
    case NoPacket(reader) => if data == VALID_PACKET then ReadType(reader) else b
    case ReadType(reader) => ReadLength(reader, data)
    case ReadLength(Control(deviceToHost), kind) =>
      if kind == VALIDATION || kind == DEVICE_ID then ReadAndReturn
      else if kind == RESTART_USB then Rebooting
      else if !deviceToHost then Idle
      else WaitForBytes(data)
    case ReadLength(Data, kind) => if kind == TRANSMIT then Idle else WaitForBytes(data)
    case ReadAndReturn => Idle
    case CopyPayload(left) => CopyPayload(left - 1)
  }

  // ---------- The whole system ----------

  /** The two line directions hold the bytes in flight.  `unread` is the ring from the second
      processor past the reader's pointer, and `read` what the current exchange has read.
      The four logs record whole exchanges: requests started, packets that the second
      processor has seen, its replies, and what the bridge read for each.
    */
  datatype State = State(
    bridge: Bridge, out: seq<octet>, toMain: seq<octet>,
    main: Main,
    toBridge: seq<octet>, unread: seq<octet>, read: seq<octet>,
    started: seq<Request>, decoded: seq<seq<octet>>, replies: seq<seq<octet>>, consumed: seq<seq<octet>>)

  datatype Step =
    | Start(request: Request)
    | BridgeSends
    | MainReceives
    | MainTakes
    | MainHandles(answer: Answer, after: Main)
    | MainSends
    | BridgeReceives
    | BridgeReads
    | BridgeHasBytes
    | BridgeFinishes

  predicate Initial(s: State) {
    && s.bridge == Idle && s.out == s.toMain == s.toBridge == s.unread == s.read == []
    && s.main.idx == 0 && !s.main.ready && !s.main.handling && !s.main.sending
    && s.started == [] && s.decoded == s.replies == s.consumed == []
  }

  function Current(s: State): Request
    requires s.started != []
  {
    s.started[|s.started| - 1]
  }

  /** The bridge is done with a reply. */
  function Settled(s: State, b: Bridge): State {
    if b == Idle || b == Rebooting then s.(bridge := b, consumed := s.consumed + [s.read]) else s.(bridge := b)
  }

  /** A reply that the bridge's reader has room for; it does not read a payload that answers a
      host-to-device request.
    */
  predicate MayAnswer(s: State, a: Answer) {
    Fits(a) && (s.started != [] && Current(s).ControlOut? ==> a.payload == [])
  }

  /** The step can be taken in s. */
  predicate Enabled(s: State, step: Step) {
    match step
    case Start(request) => s.bridge == Idle && WellFormed(request)
    case BridgeSends => s.out != []
    case MainReceives => s.toMain != [] && s.main.idx < BUF_SIZE
    case MainTakes => s.main.ready
    case MainHandles(a, after) => s.main.handling && MayAnswer(s, a) && Handled(s.main, a, after)
    case MainSends => s.main.sending && (s.main.idxTX > 0 ==> s.main.txPos < BUF_SIZE)
    case BridgeReceives => s.toBridge != []
    case BridgeReads => ReadsNext(s.bridge) && s.unread != []
    case BridgeHasBytes => s.bridge.WaitForBytes? && |s.unread| >= s.bridge.count
    case BridgeFinishes => s.bridge == CopyPayload(0)
  }

  function After(s: State, step: Step): State
    requires Enabled(s, step)
  {
    match step
    case Start(request) =>
      s.(bridge := NoPacket(ReaderOf(request)), out := s.out + Packet(request), read := [],
         started := s.started + [request])
    case BridgeSends => s.(out := s.out[1..], toMain := s.toMain + [s.out[0]])
    case MainReceives =>
      var m := Received(s.main, s.toMain[0]);
      s.(toMain := s.toMain[1..], main := m,
         decoded := if m.ready && !s.main.ready then s.decoded + [m.buf[..s.main.idx + 1]] else s.decoded)
    case MainTakes => s.(main := s.main.(ready := false, handling := true))
    case MainHandles(a, after) =>
      s.(main := after, replies := if Answered(s.main.buf[1]) then s.replies + [Reply(s.main.buf[1], a)]
                                   else s.replies)
    case MainSends =>
      s.(main := Transmitted(s.main),
         toBridge := if s.main.idxTX > 0 then s.toBridge + [s.main.buf[s.main.txPos]] else s.toBridge)
    case BridgeReceives => s.(toBridge := s.toBridge[1..], unread := s.unread + [s.toBridge[0]])
    case BridgeReads =>
      Settled(s.(unread := s.unread[1..], read := s.read + [s.unread[0]]), Read(s.bridge, s.unread[0]))
    case BridgeHasBytes => s.(bridge := CopyPayload(s.bridge.count))
    case BridgeFinishes => Settled(s, Idle)
  }

  // ---------- The invariant ----------

  /** What the transmit register still holds of a reply. */
  function Unsent(m: Main): seq<octet> {
    if m.sending && m.txPos + m.idxTX <= BUF_SIZE then m.buf[m.txPos..m.txPos + m.idxTX] else []
  }

  /** Nothing is being sent, though the interrupt may still have to turn itself off. */
  predicate Silent(m: Main) {
    m.sending ==> m.idxTX == 0
  }

  /** The reply is on its way to the bridge, or there is none yet. */
  predicate NoReplyYet(s: State) {
    && Silent(s.main) && s.toBridge == [] && s.unread == [] && s.read == []
    && s.bridge == NoPacket(ReaderOf(Latest(s)))
  }

  function Latest(s: State): Request {
    if s.started == [] then DataRequest else Current(s)
  }

  /** The request is between the two processors. */
  predicate Travelling(s: State) {
    && s.started != [] && WellFormed(Current(s))
    && |s.started| == |s.decoded| + 1 == |s.replies| + 1
    && !s.main.ready && !s.main.handling && NoReplyYet(s)
    && s.main.idx < |Packet(Current(s))| && s.main.idx < BUF_SIZE
    && Packet(Current(s)) == s.main.buf[..s.main.idx] + s.toMain + s.out
  }

  /** The second processor has the whole request in its buffer. */
  predicate Arrived(s: State) {
    && s.started != [] && WellFormed(Current(s))
    && |s.started| == |s.decoded| == |s.replies| + 1
    && (s.main.ready <==> !s.main.handling) && NoReplyYet(s)
    && s.main.idx == 0 && s.out == [] && s.toMain == []
    && s.main.buf[..|Packet(Current(s))|] == Packet(Current(s))
  }

  /** What the reader is about to do after it has read the first n bytes of a reply. */
  predicate Position(b: Bridge, reader: Reader, id: octet, size: nat, n: nat) {
    if n == 0 then b == NoPacket(reader)
    else if n == 1 then b == ReadType(reader)
    else if n == 2 then b == ReadLength(reader, id)
    else if reader.Control? && (id == VALIDATION || id == DEVICE_ID) then n == HEADER && b == ReadAndReturn
    else (n <= HEADER + size && b == CopyPayload(size - (n - HEADER))) || (n == HEADER && b == WaitForBytes(size))
  }

  /** The reply is between the second processor's buffer and the bridge's reader. */
  predicate Returning(s: State) {
    && s.started != [] && WellFormed(Current(s))
    && |s.started| == |s.decoded| == |s.replies|
    && !s.main.ready && !s.main.handling && s.main.idx == 0 && s.out == [] && s.toMain == []
    && (s.main.sending ==> s.main.txPos + s.main.idxTX <= BUF_SIZE)
    && var reply := s.replies[|s.replies| - 1];
       && ReplyTo(Current(s), reply)
       && reply == s.read + s.unread + s.toBridge + Unsent(s.main)
       && Position(s.bridge, ReaderOf(Current(s)), reply[1], reply[2], |s.read|)
       && (s.bridge.CopyPayload? ==> |s.unread| >= s.bridge.left)
  }

  /** What a reply looks like to a reader who knows the request. */
  predicate ReplyTo(r: Request, reply: seq<octet>) {
    && HEADER <= |reply| <= BUF_SIZE && reply[0] == VALID_PACKET && |reply| == HEADER + reply[2]
    && (reply[1] == RESTART_USB ==> reply[2] == 0)
    && (reply[1] != RESTART_USB ==>
          && reply[1] == Id(r)
          && (r.Validation? || r.DeviceId? ==> reply[2] == 1)
          && (r.DataTransmit? || r.ControlOut? ==> reply[2] == 0))
  }

  /** Between exchanges: both rings and both directions of the line are empty, and the second
      processor waits for the first byte of a packet.
    */
  predicate Quiet(s: State) {
    && s.out == [] && s.toMain == [] && s.toBridge == [] && s.unread == []
    && s.main.idx == 0 && !s.main.ready && !s.main.handling && Silent(s.main)
    && |s.started| == |s.decoded| == |s.replies| == |s.consumed|
  }

  /** The packets seen are the requests made, and what was read are the replies sent. */
  predicate Faithful(s: State) {
    && |s.consumed| <= |s.replies| <= |s.decoded| <= |s.started| <= |s.consumed| + 1
    && (forall i | 0 <= i < |s.started| :: WellFormed(s.started[i]))
    && (forall i | 0 <= i < |s.decoded| :: s.decoded[i] == Packet(s.started[i]))
    && (forall i | 0 <= i < |s.consumed| :: s.consumed[i] == s.replies[i])
    && (forall i | 0 <= i < |s.replies| :: ReplyTo(s.started[i], s.replies[i]))
  }

  predicate Inv(s: State) {
    && Faithful(s)
    && if s.bridge == Idle || s.bridge == Rebooting then Quiet(s)
       else |s.consumed| + 1 == |s.started| && (Travelling(s) || Arrived(s) || Returning(s))
  }

  lemma InitialInv(s: State)
    requires Initial(s)
    ensures Inv(s)
  {
  }

  lemma StartKeeps(s: State, request: Request)
    requires Inv(s) && Enabled(s, Start(request))
    ensures Inv(After(s, Start(request)))
  {
    var t := After(s, Start(request));
    assert Current(t) == request;
    assert Travelling(t);
  }

  lemma BridgeSendKeeps(s: State)
    requires Inv(s) && Enabled(s, BridgeSends)
    ensures Inv(After(s, BridgeSends))
  {
    var t := After(s, BridgeSends);
    assert Travelling(s);
    assert s.toMain + s.out == t.toMain + t.out;
    assert Travelling(t);
  }

  /** The receive interrupt accepts the first byte, and ends the packet exactly at its last. */
  lemma ReceiveStep(s: State)
    requires Travelling(s) && s.toMain != []
    ensures var p, m := Packet(Current(s)), Received(s.main, s.toMain[0]);
            && m.buf[..s.main.idx + 1] == p[..s.main.idx + 1]
            && m == s.main.(buf := m.buf, ready := s.main.idx + 1 == |p|,
                            idx := if s.main.idx + 1 == |p| then 0 else s.main.idx + 1)
  {
    var p, k := Packet(Current(s)), s.main.idx;
    assert p[k] == s.toMain[0];
    var b := s.main.buf[k := s.toMain[0]];
    assert b[..k + 1] == p[..k + 1];
    if k >= 2 {
      assert b[2] == b[..k + 1][2] == p[2];
    }
  }

  lemma MainReceiveKeeps(s: State)
    requires Inv(s) && Enabled(s, MainReceives)
    ensures Inv(After(s, MainReceives))
  {
    hide Received, Packet, ReplyTo, Id, Body, ReaderOf;
    assert Travelling(s);
    var t := After(s, MainReceives);
    ReceiveStep(s);
    var p, k := Packet(Current(s)), s.main.idx;
    Consumed(p, s.main.buf[..k], s.toMain, s.out);
    if k + 1 == |p| {
      assert t.main.buf[..|p|] == p;
      assert Arrived(t);
    } else {
      assert Travelling(t);
    }
  }

  lemma Consumed(p: seq<octet>, a: seq<octet>, b: seq<octet>, c: seq<octet>)
    requires p == a + b + c && b != []
    ensures p == p[..|a| + 1] + b[1..] + c && (|a| + 1 == |p| <==> b[1..] == c == [])
  {
  }

  lemma MainTakeKeeps(s: State)
    requires Inv(s) && Enabled(s, MainTakes)
    ensures Inv(After(s, MainTakes))
  {
    assert Arrived(s);
    assert Arrived(After(s, MainTakes));
  }

  lemma ReplyFits(r: Request, a: Answer)
    requires WellFormed(r) && Fits(a) && (r.ControlOut? ==> a.payload == [])
    ensures Answered(Id(r)) && ReplyTo(r, Reply(Id(r), a))
  {
  }

  /** The reply lies at the start of the buffer. */
  lemma HandleStep(s: State, a: Answer, after: Main)
    requires Arrived(s) && MayAnswer(s, a) && Handled(s.main, a, after)
    ensures var reply := Reply(Id(Current(s)), a);
            && s.main.buf[1] == Id(Current(s)) && Answered(s.main.buf[1]) && ReplyTo(Current(s), reply)
            && after == s.main.(handling := false, txPos := 0, idxTX := |reply|, sending := true, buf := after.buf)
            && Unsent(after) == reply
  {
    hide ReplyTo, Body, ReaderOf, Payload;
    var r := Current(s);
    assert Packet(r)[1] == Id(r) && s.main.buf[1] == s.main.buf[..|Packet(r)|][1];
    assert Packet(r)[0] == VALID_PACKET && s.main.buf[0] == s.main.buf[..|Packet(r)|][0];
    ReplyFits(r, a);
    var reply := Reply(Id(r), a);
    assert after.buf[..|reply|] == [after.buf[0]] + after.buf[1..|reply|] == reply;
  }

  lemma MainHandleKeeps(s: State, a: Answer, after: Main)
    requires Inv(s) && Enabled(s, MainHandles(a, after))
    ensures Inv(After(s, MainHandles(a, after)))
  {
    hide Packet, Body, ReaderOf, Payload, Handled, Reply, Id, Answered, Unsent;
    assert Arrived(s);
    HandleStep(s, a, after);
    var t := After(s, MainHandles(a, after));
    assert Returning(t);
  }

  lemma SendStep(m: Main)
    requires m.sending && (m.idxTX > 0 ==> m.txPos < BUF_SIZE)
    ensures m.txPos + m.idxTX <= BUF_SIZE ==>
              Unsent(m) == (if m.idxTX > 0 then [m.buf[m.txPos]] else []) + Unsent(Transmitted(m))
    ensures var n := Transmitted(m);
            && n == m.(txPos := n.txPos, idxTX := n.idxTX, sending := n.sending)
            && (m.txPos + m.idxTX <= BUF_SIZE && n.sending ==> n.txPos + n.idxTX <= BUF_SIZE)
            && (m.idxTX == 0 ==> !n.sending)
  {
  }

  lemma MainSendKeeps(s: State)
    requires Inv(s) && Enabled(s, MainSends)
    ensures Inv(After(s, MainSends))
  {
    hide Packet, ReplyTo, Unsent, Position, ReaderOf, Transmitted;
    var t := After(s, MainSends);
    SendStep(s.main);
    if s.bridge == Idle || s.bridge == Rebooting {
    } else if Travelling(s) {
      assert Travelling(t);
    } else if Arrived(s) {
      assert Arrived(t);
    } else {
      assert s.toBridge + Unsent(s.main) == t.toBridge + Unsent(t.main);
      assert Returning(t);
    }
  }

  lemma BridgeReceiveKeeps(s: State)
    requires Inv(s) && Enabled(s, BridgeReceives)
    ensures Inv(After(s, BridgeReceives))
  {
    hide ReplyTo, Packet, ReaderOf, Position, Unsent;
    var t := After(s, BridgeReceives);
    assert Returning(s);
    assert s.unread + s.toBridge == t.unread + t.toBridge;
    assert Returning(t);
  }

  /** The reader's next state is the one that belongs to one byte more; it stops exactly
      behind the last byte.
    */
  lemma ReadStep(s: State)
    requires Returning(s) && ReadsNext(s.bridge) && s.unread != []
    ensures var reply, b, n := s.replies[|s.replies| - 1], Read(s.bridge, s.unread[0]), |s.read|;
            && s.unread[0] == reply[n]
            && (b.CopyPayload? ==> |s.unread| - 1 >= b.left)
            && (if b == Idle || b == Rebooting then n + 1 == |reply|
                else Position(b, ReaderOf(Current(s)), reply[1], reply[2], n + 1))
  {
    var reply, n := s.replies[|s.replies| - 1], |s.read|;
    assert reply[n] == (s.read + s.unread)[n] == s.unread[0];
  }

  lemma BridgeReadOn(s: State)
    requires Returning(s) && ReadsNext(s.bridge) && s.unread != []
    requires var b := Read(s.bridge, s.unread[0]); b != Idle && b != Rebooting
    ensures Returning(After(s, BridgeReads))
  {
    hide ReplyTo, Packet, ReaderOf, Read, Position, Unsent;
    ReadStep(s);
    var t := After(s, BridgeReads);
    assert s.read + s.unread == t.read + t.unread;
  }

  lemma BridgeReadKeeps(s: State)
    requires Inv(s) && Enabled(s, BridgeReads)
    ensures Inv(After(s, BridgeReads))
  {
    hide ReplyTo, Packet, ReaderOf, Read, Position, Unsent;
    var t, b := After(s, BridgeReads), Read(s.bridge, s.unread[0]);
    assert Returning(s);
    if b == Idle || b == Rebooting {
      ReadStep(s);
      assert s.read + s.unread == t.read + t.unread;
      Drained(s, t);
    } else {
      BridgeReadOn(s);
    }
  }

  /** When as many bytes have been read as the reply has, nothing of it is left anywhere. */
  lemma Drained(s: State, t: State)
    requires Returning(s) && t.main == s.main && t.toBridge == s.toBridge && t.replies == s.replies
    requires s.read + s.unread == t.read + t.unread && |t.read| == |s.replies[|s.replies| - 1]|
    ensures t.unread == [] && t.toBridge == [] && Silent(t.main) && t.read == s.replies[|s.replies| - 1]
  {
    assert s.replies[|s.replies| - 1] == t.read + t.unread + t.toBridge + Unsent(t.main);
  }

  lemma BridgeHasBytesKeeps(s: State)
    requires Inv(s) && Enabled(s, BridgeHasBytes)
    ensures Inv(After(s, BridgeHasBytes))
  {
    hide ReplyTo, Packet, Unsent;
    assert Returning(s);
    assert Returning(After(s, BridgeHasBytes));
  }

  lemma BridgeFinishKeeps(s: State)
    requires Inv(s) && Enabled(s, BridgeFinishes)
    ensures Inv(After(s, BridgeFinishes))
  {
    assert Returning(s);
    Drained(s, s);
  }

  /** Whichever step comes next, lock-step is kept. */
  lemma StepKeepsInv(s: State, step: Step)
    requires Inv(s) && Enabled(s, step)
    ensures Inv(After(s, step))
  {
    hide Inv, Enabled, After;
    match step
    case Start(request) => StartKeeps(s, request);
    case BridgeSends => BridgeSendKeeps(s);
    case MainReceives => MainReceiveKeeps(s);
    case MainTakes => MainTakeKeeps(s);
    case MainHandles(a, after) => MainHandleKeeps(s, a, after);
    case MainSends => MainSendKeeps(s);
    case BridgeReceives => BridgeReceiveKeeps(s);
    case BridgeReads => BridgeReadKeeps(s);
    case BridgeHasBytes => BridgeHasBytesKeeps(s);
    case BridgeFinishes => BridgeFinishKeeps(s);
  }

  // ---------- Whole runs ----------

  /** The steps lead from s to t. */
  predicate Run(s: State, steps: seq<Step>, t: State)
    decreases |steps|
  {
    if steps == [] then t == s else Enabled(s, steps[0]) && Run(After(s, steps[0]), steps[1..], t)
  }

  lemma {:induction false} RunKeepsInv(s: State, steps: seq<Step>, t: State)
    requires Inv(s) && Run(s, steps, t)
    ensures Inv(t)
    decreases |steps|
  {
    hide Inv, Enabled, After;
    if steps != [] {
      StepKeepsInv(s, steps[0]);
      RunKeepsInv(After(s, steps[0]), steps[1..], t);
    }
  }

  /** In every run, the second processor has seen exactly the requests made, in order and each
      as one packet, each reply answers the request of the same number, the bridge has read
      exactly the replies sent, and between exchanges
      nothing is left in either ring, on the line, or in the second processor's receiver.
    */
  lemma LockStep(s: State, steps: seq<Step>, t: State)
    requires Initial(s) && Run(s, steps, t)
    ensures forall i | 0 <= i < |t.decoded| ::
              i < |t.started| && WellFormed(t.started[i]) && t.decoded[i] == Packet(t.started[i])
    ensures forall i | 0 <= i < |t.consumed| :: i < |t.replies| && t.consumed[i] == t.replies[i]
    ensures forall i | 0 <= i < |t.replies| :: i < |t.started| && ReplyTo(t.started[i], t.replies[i])
    ensures t.bridge == Idle ==> Quiet(t)
  {
    hide Run, Packet, ReplyTo;
    InitialInv(s);
    RunKeepsInv(s, steps, t);
  }

  /** No buffer overruns: the bytes that the ring from the second processor must hold are those
      read but not yet released and those not yet read.
    */
  lemma NothingOverruns(s: State)
    requires Inv(s)
    ensures |s.out| < OUT_SIZE
    ensures s.bridge != Idle && s.bridge != Rebooting ==> |s.read| + |s.unread| + |s.toBridge| < IN_SIZE
    ensures s.toMain != [] ==> s.main.idx < BUF_SIZE
    ensures s.main.sending && s.main.idxTX > 0 ==> s.main.txPos < BUF_SIZE
  {
    hide Packet, Position, Unsent, ReaderOf;
    if s.bridge != Idle && s.bridge != Rebooting && Returning(s) {
      assert |s.replies[|s.replies| - 1]| == |s.read| + |s.unread| + |s.toBridge| + |Unsent(s.main)|;
    }
  }

  // ---------- Every exchange ends ----------

  /** A step other than the start of a new exchange. */
  predicate Proceeds(step: Step) {
    !step.Start?
  }

  /** The next step of an exchange in progress. */
  ghost function Next(s: State): Step
    requires s.bridge != Idle && s.bridge != Rebooting
  {
    if s.out != [] then BridgeSends
    else if s.toMain != [] then MainReceives
    else if s.main.ready then MainTakes
    else if s.main.handling then
      var a := Answer([], 0, false);
      MainHandles(a, WithReply(s.main, Reply(s.main.buf[1], a)))
    else if s.toBridge != [] then BridgeReceives
    else if s.main.sending then MainSends
    else if s.bridge.WaitForBytes? then BridgeHasBytes
    else if s.bridge == CopyPayload(0) then BridgeFinishes
    else BridgeReads
  }

  function WithReply(m: Main, reply: seq<octet>): Main
    requires HEADER <= |reply| <= BUF_SIZE
  {
    m.(handling := false, txPos := 0, idxTX := |reply|, sending := true, buf := Stored(m.buf, 1, reply[1..]))
  }

  /** An exchange in progress is never stuck. */
  lemma NeverStuck(s: State)
    requires Inv(s) && s.bridge != Idle && s.bridge != Rebooting
    ensures Enabled(s, Next(s)) && Proceeds(Next(s))
  {
    hide ReplyTo, ReaderOf, Body, Stored;
    NothingOverruns(s);
    if Arrived(s) && s.main.handling {
      var r, a := Current(s), Answer([], 0, false);
      assert Packet(r)[1] == Id(r) && s.main.buf[1] == s.main.buf[..|Packet(r)|][1];
      var reply := Reply(s.main.buf[1], a);
      assert Stored(s.main.buf, 1, reply[1..])[..1] == s.main.buf[..1];
      assert Stored(s.main.buf, 1, reply[1..])[0] == Stored(s.main.buf, 1, reply[1..])[..1][0];
    } else if Returning(s) {
      StillToRead(s);
    }
  }

  lemma StillToRead(s: State)
    requires Returning(s) && s.bridge != Idle && s.bridge != Rebooting
    ensures s.toBridge == [] && !s.main.sending ==>
              || (s.bridge.WaitForBytes? && |s.unread| >= s.bridge.count)
              || s.bridge == CopyPayload(0) || (ReadsNext(s.bridge) && s.unread != [])
  {
    if s.toBridge == [] && !s.main.sending {
      assert |s.replies[|s.replies| - 1]| == |s.read| + |s.unread|;
    }
  }

  /** How much of an exchange is left: bytes weigh less the further they have come. */
  function Left(s: State): nat {
    (if s.main.sending then 1 else 0) +
    if s.bridge == Idle || s.bridge == Rebooting then 0
    else if s.out != [] || s.toMain != [] then 6000 + 2 * |s.out| + |s.toMain|
    else if s.main.ready then 5000
    else if s.main.handling then 4000
    else 1 + 4 * |Unsent(s.main)| + 3 * |s.toBridge| + 2 * |s.unread| + ReaderLeft(s.bridge)
  }

  function ReaderLeft(b: Bridge): nat {
    if b.WaitForBytes? then 1 else if b.CopyPayload? || b.ReadAndReturn? then 0 else 2
  }

  lemma SendUsesUp(s: State)
    requires Inv(s) && Enabled(s, MainSends)
    ensures Left(After(s, MainSends)) < Left(s)
  {
    hide Packet, ReplyTo, Position, ReaderOf, Unsent, Faithful, Transmitted, ReaderLeft;
    SendStep(s.main);
    if s.bridge != Idle && s.bridge != Rebooting && Returning(s) {
      var t := After(s, MainSends);
      assert |Unsent(s.main)| == (if s.main.idxTX > 0 then 1 else 0) + |Unsent(t.main)|;
    }
  }

  lemma HandleUsesUp(s: State, a: Answer, after: Main)
    requires Inv(s) && Enabled(s, MainHandles(a, after))
    ensures Left(After(s, MainHandles(a, after))) < Left(s)
  {
    hide Packet, ReplyTo, Position, ReaderOf, Unsent, Faithful, Handled, Reply, Id;
    HandleStep(s, a, after);
    assert |Unsent(after)| <= BUF_SIZE;
  }

  lemma ReceiveUsesUp(s: State)
    requires Inv(s) && Enabled(s, MainReceives)
    ensures Left(After(s, MainReceives)) < Left(s)
  {
    hide Packet, ReplyTo, Position, ReaderOf, Unsent, Faithful, Received, ReaderLeft;
    ReceiveStep(s);
    Consumed(Packet(Current(s)), s.main.buf[..s.main.idx], s.toMain, s.out);
  }

  lemma ReadUsesUp(s: State)
    requires Inv(s) && Enabled(s, BridgeReads)
    ensures Left(After(s, BridgeReads)) < Left(s)
  {
    hide Packet, ReplyTo, Position, ReaderOf, Unsent, Faithful;
  }

  /** Every step other than a new request uses something up. */
  lemma StepUsesUp(s: State, step: Step)
    requires Inv(s) && Enabled(s, step) && Proceeds(step)
    ensures Left(After(s, step)) < Left(s)
  {
    match step
    case MainReceives => ReceiveUsesUp(s);
    case MainHandles(a, after) => HandleUsesUp(s, a, after);
    case MainSends => SendUsesUp(s);
    case BridgeReads => ReadUsesUp(s);
    case _ => hide Packet, ReplyTo, Position, ReaderOf, Unsent, Faithful;
  }

  /** So an exchange ends after a bounded number of steps, in whatever order they come. */
  lemma {:induction false} ExchangeEnds(s: State, steps: seq<Step>, t: State)
    requires Inv(s) && Run(s, steps, t) && forall step | step in steps :: Proceeds(step)
    ensures |steps| + Left(t) <= Left(s)
    decreases |steps|
  {
    hide Inv, Enabled, After, Left;
    if steps != [] {
      StepUsesUp(s, steps[0]);
      StepKeepsInv(s, steps[0]);
      ExchangeEnds(After(s, steps[0]), steps[1..], t);
    }
  }

  // ---------- Replies that are not taken for what they are ----------

  /** How many bytes of a reply a reader in state b takes before it stops, when the whole reply
      has arrived.
    */
  function Taken(b: Bridge, reply: seq<octet>): (n: nat)
    ensures n <= |reply|
    decreases |reply|
  {
    if b.WaitForBytes? then (if b.count <= |reply| then b.count else 0)
    else if ReadsNext(b) && reply != [] then 1 + Taken(Read(b, reply[0]), reply[1..])
    else 0
  }

  /** The state in which the reader stops; a payload is not looked into. */
  function Fed(b: Bridge, reply: seq<octet>): Bridge
    decreases |reply|
  {
    if ReadsNext(b) && reply != [] then Fed(Read(b, reply[0]), reply[1..]) else b
  }

  /** Behind the header, everything depends on the reader and on the two bytes it has seen. */
  lemma HeaderRead(reader: Reader, reply: seq<octet>)
    requires |reply| >= HEADER && reply[0] == VALID_PACKET
    ensures var b := Read(ReadLength(reader, reply[1]), reply[2]);
            && Taken(NoPacket(reader), reply) == HEADER + Taken(b, reply[HEADER..])
            && Fed(NoPacket(reader), reply) == Fed(b, reply[HEADER..])
  {
    var b2, b3 := ReadType(reader), ReadLength(reader, reply[1]);
    assert reply[1..][1..] == reply[2..] && reply[2..][1..] == reply[HEADER..];
    assert Taken(NoPacket(reader), reply) == 1 + Taken(b2, reply[1..]);
    assert Fed(NoPacket(reader), reply) == Fed(b2, reply[1..]);
    assert Taken(b2, reply[1..]) == 1 + Taken(b3, reply[2..]) && Fed(b2, reply[1..]) == Fed(b3, reply[2..]);
  }

  /** A host-to-device control request is answered in full exactly when the answer has no
      payload: the reader does not look past the header.
    */
  lemma OutReplyTaken(a: Answer)
    requires Fits(a)
    ensures var reply := Reply(CONTROL_REQUEST, a);
            Taken(NoPacket(Control(false)), reply) == |reply| <==> a.restart || a.payload == []
  {
    HeaderRead(Control(false), Reply(CONTROL_REQUEST, a));
  }

  /** A restart restarts the bridge exactly if it answers a control request; in answer to a data
      request it is taken for an empty payload.
    */
  lemma RestartDelivered(r: Request, a: Answer)
    requires WellFormed(r) && Fits(a)
    ensures var b, reply := NoPacket(ReaderOf(r)), Reply(Id(r), a);
            && (Fed(b, reply) == Rebooting <==> a.restart && ReaderOf(r).Control?)
            && (a.restart ==> Taken(b, reply) == |reply|)
  {
    HeaderRead(ReaderOf(r), Reply(Id(r), a));
  }
}
