/** USB-serial mode of the bridge: the main loop copies packets from the host into the ring
    while the transmit interrupt may fire between any two of its steps.
  */
module UnoSerial {
  import opened UnoRings

  /** One step of the main loop, of the interrupt, or of the host. */
  datatype Step = HostSends(packet: seq<octet>) | Poll | Copy | Publish | Interrupt

  /** The link between two steps: the endpoint, the copying, what the ring holds published and
      not yet published, and all bytes the host has delivered, read from the endpoint, and sent.
    */
  datatype View = View(
    outReceived: bool, endpoint: seq<octet>, copying: bool, queued: seq<octet>, staged: seq<octet>,
    delivered: seq<octet>, taken: seq<octet>, sent: seq<octet>)

  predicate Inv(v: View) {
    && v.delivered == v.taken + v.endpoint && v.taken == v.sent + v.queued + v.staged
    && (!v.outReceived ==> v.endpoint == [])
    && (v.copying ==> v.outReceived && 0 < |v.staged| + |v.endpoint| < OUT_SIZE - |v.queued|)
    && (!v.copying ==> v.staged == [])
  }

  /** What each step does; a step that cannot happen changes nothing. */
  function After(v: View, step: Step): View {
    match step
    case HostSends(packet) =>
      if v.outReceived then v else v.(outReceived := true, endpoint := packet, delivered := v.delivered + packet)
    case Poll =>
      if v.copying then v
      else if v.endpoint == [] then v.(outReceived := false)
      else if |v.endpoint| < 256 && |v.endpoint| < OUT_SIZE - |v.queued| then v.(copying := true)
      else v
    case Copy =>
      if !v.copying || v.endpoint == [] then v
      else v.(endpoint := v.endpoint[1..], staged := v.staged + [v.endpoint[0]], taken := v.taken + [v.endpoint[0]])
    case Publish =>
      if !v.copying || v.endpoint != [] then v
      else v.(outReceived := false, copying := false, queued := v.queued + v.staged, staged := [])
    case Interrupt =>
      if v.queued == [] then v else v.(queued := v.queued[1..], sent := v.sent + [v.queued[0]])
  }

  function AfterAll(v: View, schedule: seq<Step>): View
    decreases |schedule|
  {
    if schedule == [] then v else AfterAll(After(v, schedule[0]), schedule[1..])
  }

  lemma {:induction false} OneMore(v: View, schedule: seq<Step>, step: Step)
    ensures AfterAll(v, schedule + [step]) == After(AfterAll(v, schedule), step)
    decreases |schedule|
  {
    if schedule == [] {
      assert [step][1..] == [];
    } else {
      assert (schedule + [step])[1..] == schedule[1..] + [step];
      OneMore(After(v, schedule[0]), schedule[1..], step);
    }
  }

  // ---------- Everything delivered is sent ----------

  /** What is left to do: a byte weighs less the further it has come. */
  function Work(v: View): nat {
    3 * |v.endpoint| + 2 * |v.staged| + |v.queued|
    + (if v.outReceived then 1 else 0) + (if !v.copying && v.endpoint != [] then 1 else 0)
  }

  /** Every step that changes anything, other than a new packet, does some of it. */
  lemma WorkShrinks(v: View, step: Step)
    requires Inv(v) && !step.HostSends? && After(v, step) != v
    ensures Work(After(v, step)) < Work(v)
  {
  }

  /** Nothing is left to do for main loop and interrupt. */
  predicate Settled(v: View) {
    After(v, Poll) == v && After(v, Copy) == v && After(v, Publish) == v && After(v, Interrupt) == v
  }

  /** When they have come to rest, every byte of packets that fit into the ring has been sent. */
  lemma SettledIsSent(v: View)
    requires Inv(v) && Settled(v) && |v.endpoint| < OUT_SIZE
    ensures v.sent == v.delivered && !v.outReceived
  {
    assert v.queued != [] ==> |After(v, Interrupt).queued| == |v.queued| - 1;
    assert v.copying && v.endpoint != [] ==> |After(v, Copy).endpoint| == |v.endpoint| - 1;
    assert v.copying && v.endpoint == [] ==> !After(v, Publish).copying;
    assert v.sent + [] + [] + [] == v.sent;
  }

  /** Nothing is taken back. */
  lemma {:induction false} OnlyMore(v: View, schedule: seq<Step>)
    ensures v.delivered <= AfterAll(v, schedule).delivered && v.sent <= AfterAll(v, schedule).sent
    decreases |schedule|
  {
    if schedule != [] {
      OnlyMore(After(v, schedule[0]), schedule[1..]);
    }
  }

  class SerialLink {
    const ring: OutRing
    /** The OUT endpoint holds a packet, of which these bytes have not been read. */
    var outReceived: bool
    var endpoint: seq<octet>
    /** The main loop is copying, and this many bytes are left. */
    var copying: bool
    var countRX: nat
    /** All bytes the host has delivered, the bytes read from the endpoint, and the bytes sent. */
    ghost var delivered: seq<octet>
    ghost var taken: seq<octet>
    ghost var sent: seq<octet>

    ghost function Link(): View
      reads this, ring
    {
      View(outReceived, endpoint, copying, ring.queued, ring.staged, delivered, taken, sent)
    }

    ghost predicate Valid()
      reads this, ring, ring.buffer
    {
      ring.Valid() && Inv(Link()) && (copying ==> countRX == |endpoint|)
    }

    constructor ()
      ensures Valid() && fresh(ring) && fresh(ring.buffer) && delivered == [] && sent == []
    {
      ring := new OutRing();
      outReceived, endpoint, copying, countRX := false, [], false, 0;
      delivered, taken, sent := [], [], [];
    }

    /** The host fills the endpoint once the previous packet has been acknowledged. */
    method HostSends(packet: seq<octet>)
      requires Valid() && !outReceived
      modifies this
      ensures Valid() && Link() == After(old(Link()), Step.HostSends(packet))
    {
      outReceived, endpoint := true, packet;
      delivered := delivered + packet;
    }

    /** One pass of the main loop up to the copying: an empty packet is acknowledged, and one
        that fits into the free space is accepted.
      */
    method Poll()
      requires Valid() && !copying && |endpoint| < 256
      modifies this, ring
      ensures Valid() && Link() == After(old(Link()), Step.Poll)
    {
      countRX := 0;
      if outReceived {
        countRX := |endpoint|;
        if countRX == 0 {
          outReceived := false;
        }
      }
      var free := ring.Free();
      if countRX != 0 && countRX <= free {
        ring.BeginWrite();
        copying := true;
      }
    }

    method Copy()
      requires Valid() && copying && countRX > 0
      modifies this, ring, ring.buffer
      ensures Valid() && Link() == After(old(Link()), Step.Copy)
    {
      var data := endpoint[0];
      endpoint, countRX := endpoint[1..], countRX - 1;
      ring.WriteByte(data);
      taken := taken + [data];
    }

    /** The packet is acknowledged, and its bytes are published. */
    method Publish()
      requires Valid() && copying && countRX == 0
      modifies this, ring
      ensures Valid() && Link() == After(old(Link()), Step.Publish)
    {
      outReceived, copying := false, false;
      ring.FinishWrite();
    }

    method Interrupt()
      requires Valid() && ring.enabled
      modifies this, ring
      ensures Valid() && Link() == After(old(Link()), Step.Interrupt)
    {
      var data := ring.TransmitInterrupt();
      sent := sent + [data];
    }

    /** One step; one that cannot happen is skipped. */
    method Take(step: Step)
      requires Valid()
      modifies this, ring, ring.buffer
      ensures Valid() && Link() == After(old(Link()), step)
    {
      match step {
        case HostSends(packet) =>
          if !outReceived {
            HostSends(packet);
          }
        case Poll =>
          if !copying && |endpoint| < 256 {
            Poll();
          }
        case Copy =>
          if copying && countRX > 0 {
            Copy();
          }
        case Publish =>
          if copying && countRX == 0 {
            Publish();
          }
        case Interrupt =>
          if ring.enabled {
            Interrupt();
          }
      }
    }

    /** Any interleaving of main loop, interrupt and host. */
    method Run(schedule: seq<Step>)
      requires Valid()
      modifies this, ring, ring.buffer
      ensures Valid() && Link() == AfterAll(old(Link()), schedule)
      ensures sent <= taken <= delivered && old(delivered) <= delivered && old(sent) <= sent
      ensures taken == sent + ring.queued + ring.staged
      ensures ring.enabled <==> ring.queued != []
    {
      ghost var start := Link();
      for i := 0 to |schedule|
        invariant Valid() && Link() == AfterAll(start, schedule[..i])
      {
        hide After, AfterAll, Inv;
        assert schedule[..i + 1] == schedule[..i] + [schedule[i]];
        OneMore(start, schedule[..i], schedule[i]);
        Take(schedule[i]);
      }
      assert schedule[..|schedule|] == schedule;
      OnlyMore(start, schedule);
    }
  }
}
