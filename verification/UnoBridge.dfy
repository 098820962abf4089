/** The bridge's two readers of replies, over the ring that the receive interrupt fills. */
module UnoBridge {
  import opened UnoRings
  import opened UnoMain
  import UnoLink

  datatype ReadState = NoPacket | ReadPacketType | ReadLength | ReadAndReturn

  /** What the control endpoint does when the bridge looks at it: the host ends the transfer,
      is not ready for data, or takes a packet that already holds some bytes.
    */
  datatype Poll = Ended | NotReady | Ready(filled: nat)

  /** The result of a control exchange: the byte returned to the caller, the packets given to
      the host and whether it ended the transfer before their end, or a reboot.
    */
  datatype Outcome = Returned(value: octet) | Written(packets: seq<seq<octet>>, ended: bool) | Rebooted

  // ---------- How a payload reaches the host ----------

  /** The packets that a payload makes, how many looks at the endpoint that takes, and whether
      the host, or the list of looks, ended first.
    */
  datatype Feeding = Feeding(packets: seq<seq<octet>>, used: nat, ended: bool)

  /** What fits into an endpoint that holds some bytes. */
  function Room(filled: nat, endpointSize: nat): nat {
    if filled < endpointSize then endpointSize - filled else 0
  }

  function Taken(payload: seq<octet>, filled: nat, endpointSize: nat): (n: nat)
    ensures n <= |payload|
  {
    if |payload| <= Room(filled, endpointSize) then |payload| else Room(filled, endpointSize)
  }

  /** A full packet does not end a transfer: it is followed by another, if need be an empty one. */
  function Fed(payload: seq<octet>, lastPacketFull: bool, polls: seq<Poll>, endpointSize: nat): (f: Feeding)
    ensures f.used <= |polls|
    decreases |polls|
  {
    if payload == [] && !lastPacketFull then Feeding([], 0, false)
    else if polls == [] || polls[0].Ended? then Feeding([], 0, true)
    else if polls[0].NotReady? then
      var f := Fed(payload, lastPacketFull, polls[1..], endpointSize);
      f.(used := f.used + 1)
    else
      var filled := polls[0].filled;
      var n := Taken(payload, filled, endpointSize);
      var f := Fed(payload[n..], filled + n == endpointSize, polls[1..], endpointSize);
      Feeding([payload[..n]] + f.packets, f.used + 1, f.ended)
  }

  function Bytes(packets: seq<seq<octet>>): seq<octet> {
    if packets == [] then [] else packets[0] + Bytes(packets[1..])
  }

  /** A payload of no bytes is one empty packet. */
  function Delivered(payload: seq<octet>, polls: seq<Poll>, endpointSize: nat): Outcome {
    var f := Fed(payload, false, polls, endpointSize);
    Written(if payload == [] then [[]] else f.packets, f.ended)
  }

  /** What the host has been given is a prefix of the payload, and all of it unless the transfer
      was ended.
    */
  lemma {:induction false} FedInOrder(payload: seq<octet>, full: bool, polls: seq<Poll>, size: nat)
    ensures var f := Fed(payload, full, polls, size);
            Bytes(f.packets) <= payload && (!f.ended ==> Bytes(f.packets) == payload)
    decreases |polls|
  {
    hide Taken;
    if (payload != [] || full) && polls != [] && !polls[0].Ended? {
      if polls[0].NotReady? {
        FedInOrder(payload, full, polls[1..], size);
      } else {
        var n := Taken(payload, polls[0].filled, size);
        var rest := Fed(payload[n..], polls[0].filled + n == size, polls[1..], size);
        FedInOrder(payload[n..], polls[0].filled + n == size, polls[1..], size);
        FirstPacket(payload, n, rest.packets);
      }
    }
  }

  lemma FirstPacket(payload: seq<octet>, n: nat, packets: seq<seq<octet>>)
    requires n <= |payload|
    ensures Bytes([payload[..n]] + packets) == payload[..n] + Bytes(packets)
    ensures Bytes(packets) <= payload[n..] ==> payload[..n] + Bytes(packets) <= payload
    ensures Bytes(packets) == payload[n..] ==> payload[..n] + Bytes(packets) == payload
  {
    assert ([payload[..n]] + packets)[1..] == packets;
    assert payload[..n] + payload[n..] == payload;
  }

  /** Only the host ends a transfer early: no look before that has found it ended, and the one
      at which it ends has, if there is one.
    */
  lemma {:induction false} OnlyHostEnds(payload: seq<octet>, full: bool, polls: seq<Poll>, size: nat)
    ensures var f := Fed(payload, full, polls, size);
            && (f.ended ==> f.used == |polls| || polls[f.used].Ended?)
            && forall i | 0 <= i < f.used :: !polls[i].Ended?
    decreases |polls|
  {
    hide Taken;
    if (payload != [] || full) && polls != [] && !polls[0].Ended? {
      if polls[0].NotReady? {
        OnlyHostEnds(payload, full, polls[1..], size);
      } else {
        var n := Taken(payload, polls[0].filled, size);
        OnlyHostEnds(payload[n..], polls[0].filled + n == size, polls[1..], size);
      }
      assert forall i | 1 <= i < |polls| :: polls[1..][i - 1] == polls[i];
    }
  }

  /** How much the host has room for, over all looks. */
  function Capacity(polls: seq<Poll>, size: nat): nat {
    if polls == [] then 0
    else (if polls[0].Ready? then Room(polls[0].filled, size) else 0) + Capacity(polls[1..], size)
  }

  ghost predicate Patient(polls: seq<Poll>) {
    forall i | 0 <= i < |polls| :: !polls[i].Ended?
  }

  /** A host that does not end the transfer and has room for the payload gets all of it, and if
      it has room for more, sees its end.
    */
  lemma {:induction false} PatientHostServed(payload: seq<octet>, full: bool, polls: seq<Poll>, size: nat)
    requires Patient(polls) && |payload| <= Capacity(polls, size)
    ensures Bytes(Fed(payload, full, polls, size).packets) == payload
    ensures |payload| < Capacity(polls, size) ==> !Fed(payload, full, polls, size).ended
    decreases |polls|
  {
    if payload == [] && !full {
    } else if polls != [] {
      assert Patient(polls[1..]) && !polls[0].Ended?;
      if polls[0].NotReady? {
        PatientHostServed(payload, full, polls[1..], size);
      } else {
        var filled := polls[0].filled;
        var n := Taken(payload, filled, size);
        var rest := Fed(payload[n..], filled + n == size, polls[1..], size);
        if n < Room(filled, size) {
          assert payload[n..] == [] && rest == Feeding([], 0, false);
        } else {
          PatientHostServed(payload[n..], filled + n == size, polls[1..], size);
        }
        FirstPacket(payload, n, rest.packets);
      }
    }
  }

  /** The same of a whole delivery. */
  lemma PatientHostGetsAll(payload: seq<octet>, polls: seq<Poll>, size: nat)
    requires Patient(polls) && |payload| <= Capacity(polls, size)
    ensures Bytes(Delivered(payload, polls, size).packets) == payload
  {
    PatientHostServed(payload, false, polls, size);
  }

  /** Whether the endpoint was empty whenever it was ready. */
  ghost predicate Fresh(polls: seq<Poll>) {
    forall i | 0 <= i < |polls| && polls[i].Ready? :: polls[i].filled == 0
  }

  /** Into an empty endpoint go full packets, up to one that is shorter and ends the transfer. */
  lemma {:induction false} ShortPacketEnds(payload: seq<octet>, full: bool, polls: seq<Poll>, size: nat)
    requires Fresh(polls) && size > 0
    ensures var f := Fed(payload, full, polls, size);
            && (forall i | 0 <= i < |f.packets| - 1 :: |f.packets[i]| == size)
            && (f.packets != [] && f.ended ==> |f.packets[|f.packets| - 1]| == size)
            && (f.packets != [] && !f.ended ==> |f.packets[|f.packets| - 1]| < size)
            && (f.packets == [] && !f.ended ==> payload == [] && !full)
    decreases |polls|
  {
    if (payload != [] || full) && polls != [] && !polls[0].Ended? {
      assert Fresh(polls[1..]) by {
        assert forall i | 0 <= i < |polls| - 1 :: polls[1..][i] == polls[i + 1];
      }
      if polls[0].NotReady? {
        ShortPacketEnds(payload, full, polls[1..], size);
      } else {
        var n := Taken(payload, 0, size);
        var rest := Fed(payload[n..], n == size, polls[1..], size);
        ShortPacketEnds(payload[n..], n == size, polls[1..], size);
        var packets := [payload[..n]] + rest.packets;
        assert forall i | 1 <= i < |packets| :: packets[i] == rest.packets[i - 1];
      }
    }
  }

  /** A whole reply, as the second processor sends it. */
  predicate WholeReply(reply: seq<octet>) {
    && HEADER <= |reply| && reply[0] == VALID_PACKET && |reply| == HEADER + reply[2]
    && (reply[1] == VALIDATION || reply[1] == DEVICE_ID ==> reply[2] == 1)
  }

  /** How many bytes of the reply the readers of the link model take. */
  function TakenBy(reader: UnoLink.Reader, reply: seq<octet>): (n: nat)
    ensures n <= |reply|
  {
    UnoLink.Taken(UnoLink.NoPacket(reader), reply)
  }

  lemma TakenByData(reply: seq<octet>)
    requires WholeReply(reply)
    ensures TakenBy(UnoLink.Data, reply) == if reply[1] == TRANSMIT then HEADER else |reply|
  {
    UnoLink.HeaderRead(UnoLink.Data, reply);
  }

  lemma TakenByControl(deviceToHost: bool, reply: seq<octet>)
    requires WholeReply(reply)
    ensures TakenBy(UnoLink.Control(deviceToHost), reply)
            == if reply[1] == VALIDATION || reply[1] == DEVICE_ID then |reply|
               else if reply[1] == RESTART_USB || !deviceToHost then HEADER
               else |reply|
  {
    UnoLink.HeaderRead(UnoLink.Control(deviceToHost), reply);
  }

  /** WAIT_FOR_BYTES: the interrupt delivers at least as many bytes as are waited for. */
  method WaitForBytes(ring: InRing, line: seq<octet>, n: nat) returns (rest: seq<octet>)
    requires ring.Valid() && ring.Ordered() && |ring.held| + |line| < IN_SIZE && n <= |ring.unread| + |line|
    modifies ring, ring.buffer
    ensures ring.Valid() && ring.Ordered()
    ensures ring.Seen() == old(ring.Seen()) && ring.held + rest == old(ring.held) + line
    ensures |ring.unread| >= n
  {
    rest := line;
    var available := ring.Available();
    while available < n
      invariant ring.Valid() && ring.Ordered()
      invariant ring.Seen() == old(ring.Seen()) && ring.held + rest == old(ring.held) + line
      invariant available == |ring.unread|
      decreases |rest|
    {
      ring.ReceiveInterrupt(rest[0]);
      rest := rest[1..];
      available := ring.Available();
    }
  }

  /** One byte, waited for. */
  method NextByte(ring: InRing, line: seq<octet>) returns (data: octet, rest: seq<octet>)
    requires ring.Valid() && ring.Ordered() && |ring.held| + |line| < IN_SIZE && ring.Seen() < |ring.held| + |line|
    modifies ring, ring.buffer
    ensures ring.Valid() && ring.Ordered()
    ensures ring.Seen() == old(ring.Seen()) + 1 && ring.held + rest == old(ring.held) + line
    ensures data == (ring.held + rest)[old(ring.Seen())]
  {
    rest := WaitForBytes(ring, line, 1);
    data := ring.ReadByte();
  }

  /** The end of a read: everything up to the reader's pointer is released. */
  lemma Released(held: seq<octet>, rest: seq<octet>, n: nat)
    requires n <= |held|
    ensures held[n..] + rest == (held + rest)[n..]
  {
  }

  /** The data reader takes off the ring what the reader of the link model takes of the reply. */
  method HandleControllerData(ring: InRing, line: seq<octet>, ghost reply: seq<octet>, ghost tail: seq<octet>)
    returns (written: seq<octet>, rest: seq<octet>)
    requires ring.Valid() && ring.Ordered() && ring.held + line == reply + tail && |reply + tail| < IN_SIZE
    requires WholeReply(reply)
    modifies ring, ring.buffer
    ensures ring.Valid() && ring.Ordered() && ring.Seen() == 0
    ensures ring.held + rest == (reply + tail)[TakenBy(UnoLink.Data, reply)..]
    ensures written == if reply[1] == TRANSMIT then [] else reply[HEADER..]
  {
    hide Between, InRing.Ordered, TakenBy;
    TakenByData(reply);
    ring.BeginRead();
    rest := line;
    written := [];
    var state, kind: octet, txcount: octet := NoPacket, 0, 0;
    while true
      invariant ring.Valid() && ring.Ordered() && ring.held + rest == reply + tail
      invariant state == NoPacket ==> ring.Seen() == 0
      invariant state == ReadPacketType ==> ring.Seen() == 1
      invariant state == ReadLength ==> ring.Seen() == 2 && kind == reply[1]
      invariant state != ReadAndReturn
      decreases HEADER - ring.Seen()
    {
      var data: octet;
      data, rest := NextByte(ring, rest);
      if state == NoPacket && data == VALID_PACKET {
        state := ReadPacketType;
      } else if state == ReadPacketType {
        kind := data;
        state := ReadLength;
      } else if state == ReadLength {
        txcount := data;
        if kind == TRANSMIT {
          Released(ring.held, rest, HEADER);
          ring.FinishRead();
          return;
        }
        break;
      }
    }
    written, rest := TakeData(ring, rest, txcount);
    assert (reply + tail)[HEADER..|reply|] == reply[HEADER..];
  }

  /** The payload of a data reply, all of which goes to the endpoint. */
  method TakeData(ring: InRing, line: seq<octet>, txcount: octet) returns (written: seq<octet>, rest: seq<octet>)
    requires ring.Valid() && ring.Ordered()
    requires |ring.held| + |line| < IN_SIZE && ring.Seen() + txcount <= |ring.held| + |line|
    modifies ring, ring.buffer
    ensures ring.Valid() && ring.Ordered() && ring.Seen() == 0
    ensures ring.held + rest == (old(ring.held) + line)[old(ring.Seen()) + txcount..]
    ensures written == (old(ring.held) + line)[old(ring.Seen())..old(ring.Seen()) + txcount]
  {
    hide Between, InRing.Ordered;
    rest := WaitForBytes(ring, line, txcount);
    var left;
    written, left := CopyBytes(ring, txcount, [], ring.held + rest);
    Released(ring.held, rest, ring.Seen());
    ring.FinishRead();
  }

  /** Copies count bytes that have arrived. */
  method CopyBytes(ring: InRing, count: octet, before: seq<octet>, ghost all: seq<octet>)
    returns (written: seq<octet>, left: octet)
    requires ring.Valid() && ring.Ordered() && count <= |ring.unread| && ring.held <= all
    modifies ring
    ensures ring.Valid() && ring.Ordered()
    ensures ring.held == old(ring.held) && ring.Seen() == old(ring.Seen()) + count && left == 0
    ensures written == before + all[old(ring.Seen())..old(ring.Seen()) + count]
  {
    hide Between;
    written, left := before, count;
    while left > 0
      invariant ring.Valid() && ring.Ordered() && ring.held == old(ring.held) && left <= count
      invariant ring.Seen() == old(ring.Seen()) + count - left
      invariant written == before + all[old(ring.Seen())..ring.Seen()]
    {
      var data := ring.ReadByte();
      written := written + [data];
      left := left - 1;
    }
  }

  /** The control reader.  However the host behaves, what is taken off the ring is what the
      reader of the link model takes of the reply, and the payload is delivered to the host.
    */
  method HandleControlRequest(ring: InRing, line: seq<octet>, deviceToHost: bool, polls: seq<Poll>, endpointSize: nat,
                              ghost reply: seq<octet>, ghost tail: seq<octet>)
    returns (outcome: Outcome, rest: seq<octet>)
    requires ring.Valid() && ring.Ordered() && ring.held + line == reply + tail && |reply + tail| < IN_SIZE
    requires WholeReply(reply)
    modifies ring, ring.buffer
    ensures ring.Valid() && ring.Ordered()
    ensures outcome.Rebooted? <==> reply[1] == RESTART_USB
    ensures outcome.Returned? <==> reply[1] == VALIDATION || reply[1] == DEVICE_ID
    ensures outcome.Returned? ==> outcome.value == reply[HEADER]
    ensures outcome.Written? && !deviceToHost ==> outcome == Written([], false)
    ensures outcome.Written? && deviceToHost ==> outcome == Delivered(reply[HEADER..], polls, endpointSize)
    ensures !outcome.Rebooted? ==>
              ring.Seen() == 0 && ring.held + rest == (reply + tail)[TakenBy(UnoLink.Control(deviceToHost), reply)..]
  {
    hide Between, InRing.Ordered, TakenBy, Delivered;
    TakenByControl(deviceToHost, reply);
    ring.BeginRead();
    rest := line;
    var state, kind: octet, packetCount: octet := NoPacket, 0, 0;
    while true
      invariant ring.Valid() && ring.Ordered() && ring.held + rest == reply + tail
      invariant state == NoPacket ==> ring.Seen() == 0
      invariant state == ReadPacketType ==> ring.Seen() == 1
      invariant state == ReadLength ==> ring.Seen() == 2 && kind == reply[1]
      invariant state == ReadAndReturn ==>
                  ring.Seen() == 3 && kind == reply[1] && (kind == VALIDATION || kind == DEVICE_ID)
      decreases HEADER + 1 - ring.Seen()
    {
      var data: octet;
      data, rest := NextByte(ring, rest);
      if state == NoPacket && data == VALID_PACKET {
        state := ReadPacketType;
      } else if state == ReadPacketType {
        kind := data;
        state := ReadLength;
      } else if state == ReadLength {
        if kind == VALIDATION || kind == DEVICE_ID {
          state := ReadAndReturn;
          continue;
        }
        if kind == RESTART_USB {
          outcome := Rebooted;
          return;
        }
        if !deviceToHost {
          outcome := Written([], false);
          Released(ring.held, rest, HEADER);
          ring.FinishRead();
          return;
        }
        packetCount := data;
        break;
      } else if state == ReadAndReturn {
        outcome := Returned(data);
        Released(ring.held, rest, |reply|);
        ring.FinishRead();
        return;
      }
    }
    outcome, rest := TakePayload(ring, rest, packetCount, polls, endpointSize);
    assert (reply + tail)[HEADER..|reply|] == reply[HEADER..];
  }

  /** The payload of a reply, which is delivered to the host and released whole. */
  method TakePayload(ring: InRing, line: seq<octet>, count: octet, polls: seq<Poll>, endpointSize: nat)
    returns (outcome: Outcome, rest: seq<octet>)
    requires ring.Valid() && ring.Ordered()
    requires |ring.held| + |line| < IN_SIZE && ring.Seen() + count <= |ring.held| + |line|
    modifies ring, ring.buffer
    ensures ring.Valid() && ring.Ordered() && ring.Seen() == 0 && outcome.Written?
    ensures ring.held + rest == (old(ring.held) + line)[old(ring.Seen()) + count..]
    ensures var payload := (old(ring.held) + line)[old(ring.Seen())..old(ring.Seen()) + count];
            outcome == Delivered(payload, polls, endpointSize)
  {
    hide Between, InRing.Ordered, Fed, Delivered;
    ghost var all, seen := ring.held + line, ring.Seen();
    var packets := if count == 0 then [[]] else [];
    rest := WaitForBytes(ring, line, count);
    Waiting(ring, rest, count);
    var fed, left, ended := FeedEndpoint(ring, count, polls, endpointSize);
    DeliveredIs(all[seen..seen + count], polls, endpointSize);
    outcome := Written(packets + fed, ended);
    var _, _ := CopyBytes(ring, left, [], all);
    Released(ring.held, rest, ring.Seen());
    ring.FinishRead();
  }

  lemma DeliveredIs(payload: seq<octet>, polls: seq<Poll>, endpointSize: nat)
    ensures var f := Fed(payload, false, polls, endpointSize);
            var first := if |payload| == 0 then [[]] else [];
            Delivered(payload, polls, endpointSize) == Written(first + f.packets, f.ended)
  {
    hide Fed;
    NoPayload(polls, endpointSize);
    var f := Fed(payload, false, polls, endpointSize);
    assert [] + f.packets == f.packets;
  }

  lemma NoPayload(polls: seq<Poll>, endpointSize: nat)
    ensures Fed([], false, polls, endpointSize) == Feeding([], 0, false)
  {
  }

  /** The next bytes to be read, when they have arrived. */
  lemma Waiting(ring: InRing, rest: seq<octet>, count: nat)
    requires ring.Ordered() && count <= |ring.unread|
    ensures 0 <= ring.Seen()
    ensures ring.unread[..count] == (ring.held + rest)[ring.Seen()..ring.Seen() + count]
  {
  }

  /** The loop that moves the payload into the control endpoint, packet by packet, with a short
      or empty packet at the end, until the host has had enough.
    */
  method FeedEndpoint(ring: InRing, count: octet, polls: seq<Poll>, endpointSize: nat)
    returns (packets: seq<seq<octet>>, left: octet, ended: bool)
    requires ring.Valid() && ring.Ordered() && count <= |ring.unread|
    modifies ring
    ensures ring.Valid() && ring.Ordered() && ring.held == old(ring.held) && left <= count
    ensures |ring.unread| == |old(ring.unread)| - (count - left)
    ensures var f := Fed(old(ring.unread)[..count], false, polls, endpointSize);
            packets == f.packets && ended == f.ended
  {
    hide Between, InRing.Ordered, Taken, Fed, FeedsOn;
    ghost var payload, before := ring.unread[..count], ring.unread;
    ghost var whole := Fed(payload, false, polls, endpointSize);
    FeedsFrom(payload, polls, endpointSize);
    packets, left, ended := [], count, false;
    var lastPacketFull, i := false, 0;
    assert polls[0..] == polls;
    while left > 0 || lastPacketFull
      invariant ring.Valid() && ring.Ordered() && ring.held == old(ring.held) && left <= count && i <= |polls|
      invariant |ring.unread| == |before| - (count - left) && left <= |ring.unread| && payload == ring.unread[..left]
      invariant !ended && FeedsOn(payload, lastPacketFull, polls[i..], endpointSize, packets, whole)
      decreases |polls| - i
    {
      if i == |polls| || polls[i] == Ended {
        FeedsNoMore(payload, lastPacketFull, polls[i..], endpointSize, packets, whole);
        ended := true;
        break;
      }
      assert polls[i..][0] == polls[i] && polls[i..][1..] == polls[i + 1..];
      FeedsPast(payload, lastPacketFull, polls[i..], endpointSize, packets, whole);
      if polls[i].Ready? {
        var packet;
        packet, left, lastPacketFull := FillPacket(ring, left, polls[i].filled, endpointSize);
        packets := packets + [packet];
        payload := ring.unread[..left];
      }
      i := i + 1;
    }
    if !ended {
      assert payload == [];
      FeedsDone(polls[i..], endpointSize, packets, whole);
    }
  }

  /** The bytes of one packet. */
  method FillPacket(ring: InRing, count: octet, filled: nat, endpointSize: nat)
    returns (packet: seq<octet>, left: octet, full: bool)
    requires ring.Valid() && ring.Ordered() && count <= |ring.unread|
    modifies ring
    ensures ring.Valid() && ring.Ordered() && ring.held == old(ring.held) && left <= count
    ensures var payload, n := old(ring.unread)[..count], Taken(old(ring.unread)[..count], filled, endpointSize);
            && left == count - n && |ring.unread| == |old(ring.unread)| - n
            && packet == payload[..n] && ring.unread[..left] == payload[n..] && (full <==> filled + n == endpointSize)
  {
    hide Between, InRing.Ordered, Taken;
    ghost var all := ring.unread;
    var bytesInEndpoint;
    packet, left, bytesInEndpoint := FillRoom(ring, count, filled, endpointSize);
    full := bytesInEndpoint == endpointSize;
    PacketTaken(all, count, count - left, filled, endpointSize);
  }

  /** As long as there are any and the endpoint has room. */
  method FillRoom(ring: InRing, count: octet, filled: nat, endpointSize: nat)
    returns (packet: seq<octet>, left: octet, bytesInEndpoint: nat)
    requires ring.Valid() && ring.Ordered() && count <= |ring.unread|
    modifies ring
    ensures ring.Valid() && ring.Ordered() && ring.held == old(ring.held) && left <= count
    ensures packet == old(ring.unread)[..count - left] && ring.unread == old(ring.unread)[count - left..]
    ensures bytesInEndpoint == filled + count - left && (left == 0 || bytesInEndpoint >= endpointSize)
    ensures left < count ==> bytesInEndpoint <= endpointSize
  {
    hide Between, InRing.Ordered;
    ghost var all := ring.unread;
    packet, left, bytesInEndpoint := [], count, filled;
    while left > 0 && bytesInEndpoint < endpointSize
      invariant ring.Valid() && ring.Ordered() && ring.held == old(ring.held) && left <= count
      invariant |ring.unread| == |all| - (count - left) && |packet| == count - left
      invariant forall k | 0 <= k < |ring.unread| :: ring.unread[k] == all[count - left + k]
      invariant forall k | 0 <= k < |packet| :: packet[k] == all[k]
      invariant bytesInEndpoint == filled + count - left && (left < count ==> bytesInEndpoint <= endpointSize)
    {
      var data := ring.ReadByte();
      packet := packet + [data];
      left, bytesInEndpoint := left - 1, bytesInEndpoint + 1;
    }
  }

  lemma PacketTaken(all: seq<octet>, count: nat, n: nat, filled: nat, size: nat)
    requires n <= count <= |all| && (n == count || filled + n >= size) && (n > 0 ==> filled + n <= size)
    ensures Taken(all[..count], filled, size) == n
    ensures all[..n] == all[..count][..n] && all[n..][..count - n] == all[..count][n..]
  {
  }

  /** The packets so far and those to come make up the whole. */
  predicate FeedsOn(payload: seq<octet>, full: bool, polls: seq<Poll>, size: nat,
                    packets: seq<seq<octet>>, whole: Feeding)
  {
    var f := Fed(payload, full, polls, size);
    packets + f.packets == whole.packets && f.ended == whole.ended
  }

  lemma FeedsFrom(payload: seq<octet>, polls: seq<Poll>, size: nat)
    ensures FeedsOn(payload, false, polls, size, [], Fed(payload, false, polls, size))
  {
  }

  lemma FeedsNoMore(payload: seq<octet>, full: bool, polls: seq<Poll>, size: nat,
                    packets: seq<seq<octet>>, whole: Feeding)
    requires FeedsOn(payload, full, polls, size, packets, whole)
    requires (payload != [] || full) && (polls == [] || polls[0].Ended?)
    ensures packets == whole.packets && whole.ended
  {
  }

  lemma FeedsDone(polls: seq<Poll>, size: nat, packets: seq<seq<octet>>, whole: Feeding)
    requires FeedsOn([], false, polls, size, packets, whole)
    ensures packets == whole.packets && !whole.ended
  {
  }

  lemma FeedsPast(payload: seq<octet>, full: bool, polls: seq<Poll>, size: nat,
                  packets: seq<seq<octet>>, whole: Feeding)
    requires FeedsOn(payload, full, polls, size, packets, whole)
    requires (payload != [] || full) && polls != [] && !polls[0].Ended?
    ensures polls[0].NotReady? ==> FeedsOn(payload, full, polls[1..], size, packets, whole)
    ensures polls[0].Ready? ==>
              var filled := polls[0].filled;
              var n := Taken(payload, filled, size);
              FeedsOn(payload[n..], filled + n == size, polls[1..], size, packets + [payload[..n]], whole)
  {
    hide Taken;
    if polls[0].Ready? {
      var n := Taken(payload, polls[0].filled, size);
      var g := Fed(payload[n..], polls[0].filled + n == size, polls[1..], size);
      assert packets + ([payload[..n]] + g.packets) == packets + [payload[..n]] + g.packets;
    }
  }
}
