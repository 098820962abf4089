/** The second processor's side of the bridge: one buffer that a packet is received into and
    its answer sent from, with the interrupts that move it.
  */
module UnoMain {
  import opened UnoRings

  const VALID_PACKET: octet := 0x14
  const USB_READY: octet := 0x64
  const VALIDATION: octet := 0x71
  const RESTART_USB: octet := 0x73
  const TRANSMIT: octet := 0x75
  const REQUEST: octet := 0x76
  const DESCRIPTOR: octet := 0x77
  const CONTROL_REQUEST: octet := 0x78
  const DEVICE_ID: octet := 0x79

  const HEADER := 3
  const BUF_SIZE := 255

  type buffer = s: seq<octet> | |s| == BUF_SIZE witness seq(BUF_SIZE, _ => 0)

  /** The registers and flags; txPos is where the transmit pointer stands in the buffer. */
  datatype Main = Main(
    buf: buffer, idx: nat, ready: bool, handling: bool, txPos: nat, idxTX: octet, sending: bool)

  /** What is answered: a payload or a single value, or that USB is to be restarted. */
  datatype Answer = Answer(payload: seq<octet>, value: octet, restart: bool)

  predicate Fits(a: Answer) {
    HEADER + |a.payload| <= BUF_SIZE
  }

  function Stored(buf: buffer, at: nat, b: seq<octet>): (r: buffer)
    requires at + |b| <= BUF_SIZE
    ensures r[at..at + |b|] == b && r[..at] == buf[..at]
  {
    buf[..at] + b + buf[at + |b|..]
  }

  /** After the receive interrupt has read the byte b. */
  function Received(m: Main, b: octet): Main
    requires m.idx < BUF_SIZE
  {
    var m' := m.(buf := m.buf[m.idx := b]);
    if m.idx == 0 && b != VALID_PACKET then m'
    else if m.idx + 1 >= HEADER && m'.buf[2] == m.idx + 1 then m'.(idx := 0, ready := true)
    else m'.(idx := m.idx + 1)
  }

  /** After the transmit interrupt: the index wraps when there was nothing left to send. */
  function Transmitted(m: Main): Main {
    if m.idxTX > 0 then m.(txPos := m.txPos + 1, idxTX := m.idxTX - 1)
    else m.(idxTX := 255, sending := false)
  }

  /** Whether a packet with this id is answered. */
  predicate Answered(id: octet) {
    id in {VALIDATION, TRANSMIT, REQUEST, DESCRIPTOR, CONTROL_REQUEST, DEVICE_ID}
  }

  /** The payload that goes back for a packet with this id. */
  function Payload(id: octet, a: Answer): seq<octet> {
    if a.restart || id == TRANSMIT then []
    else if id == VALIDATION || id == DEVICE_ID then [a.value]
    else a.payload
  }

  /** The whole answer. */
  function Reply(id: octet, a: Answer): (r: seq<octet>)
    requires Fits(a)
    ensures HEADER <= |r| <= BUF_SIZE
  {
    [VALID_PACKET, if a.restart then RESTART_USB else id, |Payload(id, a)|] + Payload(id, a)
  }

  /** After the main loop has handled a packet: the answer lies at the start of the buffer and
      is being sent; a packet that is not answered changes nothing.
    */
  predicate Handled(m: Main, a: Answer, m': Main)
    requires Fits(a)
  {
    if !Answered(m.buf[1]) then m' == m.(handling := false)
    else
      var r := Reply(m.buf[1], a);
      && m' == m.(handling := false, txPos := 0, idxTX := |r|, sending := true, buf := m'.buf)
      && m'.buf[1..|r|] == r[1..] && m'.buf[0] == m.buf[0]
  }

  // ---------- How an answer is cut to the length that was asked for ----------

  /** What a handler does: the bytes it writes behind the header, the length it returns, a single
      value, and whether USB is to be restarted.
    */
  datatype Handler = Handler(written: seq<octet>, length: nat, value: octet, restart: bool)

  /** The two bytes of wLength, in a descriptor request and behind a control request's setup. */
  const DESCRIPTOR_LENGTH := 7
  const CONTROL_LENGTH := 9

  function Wide(low: nat, high: nat): nat {
    low + 256 * high
  }

  function Word(buf: buffer, at: nat): nat
    requires at + 2 <= BUF_SIZE
  {
    Wide(buf[at], buf[at + 1])
  }

  function LowByte(n: nat): octet {
    n % 256
  }

  function Min(a: nat, b: nat): nat {
    if a <= b then a else b
  }

  /** The length that is sent, of which eight bits count.  That of a descriptor is limited by what
      the request says; that of a control request by what is there when the handler has
      written its bytes to the same buffer.
    */
  function SentLength(buf: buffer, h: Handler): octet
    requires HEADER + |h.written| <= BUF_SIZE
  {
    if buf[1] == DESCRIPTOR then LowByte(Min(h.length, Word(buf, DESCRIPTOR_LENGTH)))
    else if buf[1] == CONTROL_REQUEST then
      LowByte(Min(h.length, Word(Stored(buf, HEADER, h.written), CONTROL_LENGTH)))
    else if buf[1] == REQUEST then |h.written|
    else 0
  }

  /** The bytes written, and the answer's, fit into the buffer. */
  predicate Room(buf: buffer, h: Handler) {
    HEADER + |h.written| <= BUF_SIZE && HEADER + SentLength(buf, h) <= BUF_SIZE
  }

  function AnswerTo(buf: buffer, h: Handler): (a: Answer)
    requires Room(buf, h)
    ensures Fits(a) && a.value == h.value && a.restart == h.restart
  {
    Answer(Stored(buf, HEADER, h.written)[HEADER..HEADER + SentLength(buf, h)], h.value, h.restart)
  }

  /** A descriptor is never longer than asked for, nor than it is, and otherwise as long as it can
      be; and no answer to a control request is longer than the handler said.
    */
  lemma NeverLonger(buf: buffer, h: Handler)
    requires HEADER + |h.written| <= BUF_SIZE
    ensures buf[1] == CONTROL_REQUEST || buf[1] == DESCRIPTOR ==> SentLength(buf, h) <= h.length
    ensures buf[1] == DESCRIPTOR ==>
              var asked: nat := buf[7] + 256 * (buf[8] as nat);
              && SentLength(buf, h) <= asked
              && (h.length < 256 && h.length <= asked ==> SentLength(buf, h) == h.length)
              && (asked < 256 && asked <= h.length ==> SentLength(buf, h) == asked)
  {
    LowByteOfMin(h.length, Word(buf, DESCRIPTOR_LENGTH));
    LowByteOfMin(h.length, Word(Stored(buf, HEADER, h.written), CONTROL_LENGTH));
    hide Stored, LowByte, Min;
  }

  lemma LowByteOfMin(a: nat, b: nat)
    ensures LowByte(Min(a, b)) <= a && LowByte(Min(a, b)) <= b
    ensures (a < 256 && a <= b ==> LowByte(Min(a, b)) == a) && (b < 256 && b <= a ==> LowByte(Min(a, b)) == b)
  {
  }

  /** What the handler's bytes leave of the length that was asked for. */
  lemma LengthOverwritten(buf: buffer, written: seq<octet>)
    requires HEADER + |written| <= BUF_SIZE
    ensures Word(Stored(buf, HEADER, written), CONTROL_LENGTH) ==
            Wide(if |written| > 6 then written[6] else buf[9], if |written| > 7 then written[7] else buf[10])
  {
  }

  function CutTo(buf: buffer, written: seq<octet>): nat {
    Min(|written|, Wide(if |written| > 6 then written[6] else buf[9], if |written| > 7 then written[7] else buf[10]))
  }

  /** Whatever bytes a handler writes to answer a control request, if it returns their number. */
  function Wrote(written: seq<octet>): Handler {
    Handler(written, |written|, 0, false)
  }

  ghost predicate AlwaysCut(buf: buffer, k: nat)
    requires HEADER + k <= BUF_SIZE
  {
    forall written: seq<octet> | |written| == k :: SentLength(buf, Wrote(written)) == Min(k, Word(buf, CONTROL_LENGTH))
  }

  /** The lesser of the number of bytes written and the length asked for is sent, whatever the
      bytes are, if and only if there are at most six of them, or seven and the length has a
      high byte: the seventh and eighth byte lie on the length.
    */
  lemma ControlCut(buf: buffer, k: nat)
    requires buf[1] == CONTROL_REQUEST && HEADER + k <= BUF_SIZE
    ensures AlwaysCut(buf, k) <==> k <= 6 || (k == 7 && Word(buf, CONTROL_LENGTH) >= 256)
  {
    hide SentLength, CutTo, Word, Min;
    if k <= 6 || (k == 7 && Word(buf, CONTROL_LENGTH) >= 256) {
      forall written: seq<octet> | |written| == k
        ensures SentLength(buf, Wrote(written)) == Min(k, Word(buf, CONTROL_LENGTH))
      {
        CutIs(buf, written);
        LengthSpared(buf, written);
      }
    } else if AlwaysCut(buf, k) {
      var none, one := seq<octet>(k, _ => 0), seq<octet>(k, _ => 1);
      CutIs(buf, none);
      CutIs(buf, one);
      LengthSpoiled(buf, none, one);
    }
  }

  lemma CutIs(buf: buffer, written: seq<octet>)
    requires buf[1] == CONTROL_REQUEST && HEADER + |written| <= BUF_SIZE
    ensures SentLength(buf, Wrote(written)) == CutTo(buf, written)
  {
    hide Stored;
    LengthOverwritten(buf, written);
  }

  lemma LengthSpared(buf: buffer, written: seq<octet>)
    requires |written| <= 6 || (|written| == 7 && Word(buf, CONTROL_LENGTH) >= 256)
    ensures CutTo(buf, written) == Min(|written|, Word(buf, CONTROL_LENGTH))
  {
  }

  /** Of a payload of zeros and one of ones, not both come out right. */
  lemma LengthSpoiled(buf: buffer, none: seq<octet>, one: seq<octet>)
    requires |none| == |one| >= 7 && none[6] == 0 && one[6] == 1 && (|one| > 7 ==> none[7] == 0 && one[7] == 1)
    requires CutTo(buf, none) == CutTo(buf, one) == Min(|one|, Word(buf, CONTROL_LENGTH))
    ensures |one| == 7 && Word(buf, CONTROL_LENGTH) >= 256
  {
  }

  /** The report that a PlayStation 3 asks for first, with the two bytes that vary: none of its
      eight bytes is sent, whatever length is asked for.
    */
  lemma InitReportLost(buf: buffer, id: octet)
    requires buf[1] == CONTROL_REQUEST
    ensures SentLength(buf, Wrote([0x21, 0x26, 0x01, id, 0, 0, 0, 0])) == 0
  {
    LengthOverwritten(buf, [0x21, 0x26, 0x01, id, 0, 0, 0, 0]);
  }

  class Main328 {
    const buf: array<octet>
    var idx: nat
    var ready: bool
    var handling: bool
    var txPos: nat
    var idxTX: octet
    var sending: bool
    var usbReady: bool

    ghost predicate Valid() {
      buf.Length == BUF_SIZE
    }

    ghost function View(): Main
      requires Valid()
      reads this, buf
    {
      Main(buf[..], idx, ready, handling, txPos, idxTX, sending)
    }

    constructor ()
      ensures Valid() && fresh(buf) && View() == Main(seq(BUF_SIZE, _ => 0), 0, false, false, 0, 0, false)
    {
      buf := new octet[BUF_SIZE](_ => 0);
      idx, ready, handling, txPos, idxTX, sending, usbReady := 0, false, false, 0, 0, false, false;
    }

    /** USART_RX: look for the start of a packet, then count up to the length in its header. */
    method ReceiveInterrupt(data: octet)
      requires Valid() && idx < BUF_SIZE
      modifies this, buf
      ensures View() == Received(old(View()), data)
    {
      buf[idx] := data;
      if idx == 0 && buf[0] != VALID_PACKET {
        return;
      }
      idx := idx + 1;
      if idx >= HEADER && buf[2] == idx {
        idx := 0;
        ready := true;
        return;
      }
    }

    /** USART_UDRE: the next byte, or nothing more to send. */
    method TransmitInterrupt() returns (data: seq<octet>)
      requires Valid() && (idxTX > 0 ==> txPos < BUF_SIZE)
      modifies this
      ensures View() == Transmitted(old(View()))
      ensures data == if old(idxTX) > 0 then [buf[old(txPos)]] else []
    {
      var left := idxTX;
      idxTX := (idxTX + 255) % 256;
      if left != 0 {
        data := [buf[txPos]];
        txPos := txPos + 1;
      } else {
        data := [];
        sending := false;
      }
    }

    /** The main loop sees the flag that the receive interrupt has set. */
    method TakePacket()
      requires Valid() && ready
      modifies this
      ensures View() == old(View()).(ready := false, handling := true)
    {
      ready, handling := false, true;
    }

    method Write(at: nat, b: seq<octet>)
      requires Valid() && at + |b| <= BUF_SIZE
      modifies buf
      ensures buf[..] == Stored(old(buf[..]), at, b)
    {
      forall i | 0 <= i < |b| {
        buf[at + i] := b[i];
      }
    }

    /** A descriptor is cut to the length read before it is written. */
    method Descriptor(h: Handler)
      requires Valid() && buf[1] == DESCRIPTOR && Room(buf[..], h)
      modifies buf
      ensures Written(old(buf[..]), h, buf[..])
    {
      hide Stored, Wide, LowByte;
      var wLength := Wide(buf[DESCRIPTOR_LENGTH], buf[DESCRIPTOR_LENGTH + 1]);
      ghost var before := buf[..];
      Write(HEADER, h.written);
      var len := h.length;
      if len > wLength {
        len := wLength;
      }
      buf[2] := LowByte(len);
      LengthSet(before, h);
    }

    /** The answer to a control request is cut to the length found behind it. */
    method Control(h: Handler)
      requires Valid() && buf[1] == CONTROL_REQUEST && Room(buf[..], h)
      modifies buf
      ensures Written(old(buf[..]), h, buf[..])
    {
      hide Stored, Wide, LowByte;
      ghost var before := buf[..];
      Write(HEADER, h.written);
      var len := h.length;
      if len > Wide(buf[CONTROL_LENGTH], buf[CONTROL_LENGTH + 1]) {
        len := Wide(buf[CONTROL_LENGTH], buf[CONTROL_LENGTH + 1]);
      }
      buf[2] := LowByte(len);
      LengthSet(before, h);
    }

    /** The inputs' report: nothing cuts it. */
    method Inputs(h: Handler)
      requires Valid() && buf[1] == REQUEST && Room(buf[..], h)
      modifies buf
      ensures Written(old(buf[..]), h, buf[..])
    {
      hide Stored;
      ghost var before := buf[..];
      buf[2] := 0;
      Write(HEADER, h.written);
      buf[2] := buf[2] + |h.written|;
      assert buf[..] == Stored(before, HEADER, h.written)[2 := |h.written|] by {
        SetFirst(before, h.written, 0, |h.written|);
      }
      LengthSet(before, h);
    }

    /** The dispatch on the packet's id, with what the handlers do. */
    method Dispatch(h: Handler) returns (answered: bool)
      requires Valid() && Room(buf[..], h)
      modifies this`usbReady, buf
      ensures answered <==> Answered(old(buf[1]))
      ensures !answered ==> buf[..] == old(buf[..])
      ensures answered ==> Written(old(buf[..]), h, buf[..])
    {
      hide Stored;
      answered := true;
      if buf[1] == USB_READY {
        usbReady := buf[HEADER] != 0;
        answered := false;
      } else if buf[1] == TRANSMIT {
        buf[2] := 0;
      } else if buf[1] == REQUEST {
        Inputs(h);
      } else if buf[1] == DESCRIPTOR {
        Descriptor(h);
      } else if buf[1] == CONTROL_REQUEST {
        Control(h);
      } else if buf[1] == VALIDATION || buf[1] == DEVICE_ID {
        buf[HEADER] := h.value;
        buf[2] := 1;
      } else {
        answered := false;
      }
    }

    /** The handling of a packet and, if it is answered, the start of the transmission. */
    method HandlePacket(h: Handler)
      requires Valid() && handling && Room(buf[..], h)
      modifies this, buf
      ensures Handled(old(View()), AnswerTo(old(buf[..]), h), View())
    {
      hide Stored, AnswerTo, SentLength;
      ghost var id, a := buf[1], AnswerTo(buf[..], h);
      handling := false;
      var answered := Dispatch(h);
      if !answered {
        return;
      }
      ghost var p := Payload(id, a.(restart := false));
      AnswerBehind(buf[..], p);
      assert buf[2..HEADER + |p|] == buf[..][2..HEADER + |p|] && buf[1..HEADER + |p|] == buf[..][1..HEADER + |p|];
      if h.restart {
        buf[1] := RESTART_USB;
        buf[2] := 0;
        assert buf[1..HEADER] == [RESTART_USB, 0] + [];
      }
      txPos := 0;
      idxTX := buf[2] + HEADER;
      sending := true;
      ReplyTail(id, a);
    }
  }

  lemma AnswerBehind(b: seq<octet>, p: seq<octet>)
    requires HEADER + |p| <= |b| && |p| < 256 && b[2..HEADER + |p|] == [|p|] + p
    ensures b[2] == |p| && b[1..HEADER + |p|] == [b[1], |p|] + p
  {
    assert b[2] == b[2..HEADER + |p|][0];
    assert b[1..HEADER + |p|] == [b[1]] + b[2..HEADER + |p|];
  }

  lemma ReplyTail(id: octet, a: Answer)
    requires Fits(a)
    ensures var p := Payload(id, a);
            && |Reply(id, a)| == HEADER + |p|
            && Reply(id, a)[1..] == [if a.restart then RESTART_USB else id, |p|] + p
  {
  }

  /** Behind the id, the buffer holds the answer's length and the answer. */
  ghost predicate Written(before: buffer, h: Handler, after: buffer)
    requires Room(before, h)
  {
    var p := Payload(before[1], AnswerTo(before, h).(restart := false));
    after[..2] == before[..2] && HEADER + |p| <= BUF_SIZE && after[2..HEADER + |p|] == [|p|] + p
  }

  lemma LengthSet(before: buffer, h: Handler)
    requires Room(before, h) && before[1] in {REQUEST, DESCRIPTOR, CONTROL_REQUEST}
    ensures Written(before, h, Stored(before, HEADER, h.written)[2 := SentLength(before, h)])
  {
    hide Stored, SentLength;
    var stored, n := Stored(before, HEADER, h.written), SentLength(before, h);
    FrontKept(before, stored);
    LengthInFront(stored, n);
  }

  lemma FrontKept(a: seq<octet>, b: seq<octet>)
    requires |a| >= HEADER && |b| >= HEADER && a[..HEADER] == b[..HEADER]
    ensures a[..2] == b[..2]
  {
    assert a[..2] == a[..HEADER][..2];
    assert b[..2] == b[..HEADER][..2];
  }

  lemma LengthInFront(b: seq<octet>, n: octet)
    requires HEADER + n <= |b|
    ensures b[2 := n][..2] == b[..2] && b[2 := n][2..HEADER + n] == [n] + b[HEADER..HEADER + n]
  {
  }

  lemma SetFirst(buf: buffer, b: seq<octet>, x: octet, y: octet)
    requires HEADER + |b| <= BUF_SIZE
    ensures Stored(buf[2 := x], HEADER, b)[2 := y] == Stored(buf, HEADER, b)[2 := y]
  {
  }
}
