/** The two ring buffers of the bridge between USB and the second processor, as the macros
    and interrupts of the bridge move their eight-bit pointers: each is a queue.
  */
module UnoRings {
  type octet = x: nat | x < 256

  const OUT_SIZE := 128
  const IN_SIZE := 256

  /** The byte at distance i from a ring's pointer. */
  function Slot(start: nat, i: nat, size: nat): (r: nat)
    requires start < size && i <= size
    ensures r < size
  {
    if start + i < size then start + i else start + i - size
  }

  /** A pointer cut down to the bits that address the ring. */
  function Masked(p: nat): (r: nat)
    ensures r < OUT_SIZE
  {
    p % OUT_SIZE
  }

  /** The ring b holds the bytes q, the oldest at position `start`. */
  ghost predicate Holds(b: seq<octet>, start: nat, q: seq<octet>) {
    && start < |b| && |q| <= |b|
    && forall i | 0 <= i < |q| :: b[Slot(start, i, |b|)] == q[i]
  }

  lemma Pushed(b: seq<octet>, start: nat, q: seq<octet>, x: octet)
    requires Holds(b, start, q) && |q| < |b|
    ensures Holds(b[Slot(start, |q|, |b|) := x], start, q + [x])
  {
  }

  lemma Popped(b: seq<octet>, start: nat, q: seq<octet>, n: nat)
    requires Holds(b, start, q) && n <= |q|
    ensures Holds(b, Slot(start, n, |b|), q[n..])
  {
    forall i | 0 <= i < |q| - n
      ensures b[Slot(Slot(start, n, |b|), i, |b|)] == q[n..][i]
    {
      assert Slot(start, n + i, |b|) == Slot(Slot(start, n, |b|), i, |b|);
    }
  }

  lemma TailJoin(q: seq<octet>, s: seq<octet>)
    requires q != []
    ensures q[1..] + s == (q + s)[1..] && (q + s)[0] == q[0]
  {
  }

  lemma Oldest(b: seq<octet>, start: nat, q: seq<octet>)
    requires Holds(b, start, q) && q != []
    ensures b[start] == q[0]
  {
    assert b[Slot(start, 0, |b|)] == q[0];
  }

  /** What taking the oldest byte leaves. */
  lemma Drained(b: seq<octet>, start: nat, q: seq<octet>, s: seq<octet>)
    requires |b| == OUT_SIZE && |q| + |s| < OUT_SIZE && q != [] && Holds(b, start, q + s)
    ensures b[start] == q[0] && Holds(b, Masked(start + 1), q[1..] + s)
    ensures var next := Masked(start + 1);
            && Slot(start, |q|, OUT_SIZE) == Slot(next, |q| - 1, OUT_SIZE)
            && Slot(start, |q| + |s|, OUT_SIZE) == Slot(next, |q| - 1 + |s|, OUT_SIZE)
            && (Slot(start, |q|, OUT_SIZE) == next <==> |q| == 1)
  {
    TailJoin(q, s);
    Oldest(b, start, q + s);
    Popped(b, start, q + s, 1);
    Advanced(start, |q| - 1);
    Advanced(start, |q| - 1 + |s|);
  }

  /** All of the ring but the byte at `start`, in order. */
  function Stale(b: seq<octet>, start: nat): (q: seq<octet>)
    requires |b| == OUT_SIZE && start < OUT_SIZE
    ensures |q| == OUT_SIZE - 1
  {
    b[start + 1..] + b[..start]
  }

  /** What is between the pointers when a byte has been sent; on an empty ring the reader has
      then passed the writer.
    */
  function Rest(b: seq<octet>, start: nat, q: seq<octet>): seq<octet>
    requires |b| == OUT_SIZE && start < OUT_SIZE
  {
    if q == [] then Stale(b, start) else q[1..]
  }

  lemma StaleHeld(b: seq<octet>, start: nat)
    requires |b| == OUT_SIZE && start < OUT_SIZE
    ensures var next := Masked(start + 1);
            Holds(b, next, Stale(b, start)) && Slot(next, OUT_SIZE - 1, OUT_SIZE) == start && next != start
  {
  }

  lemma TakenFrom(b: seq<octet>, start: nat, q: seq<octet>, s: seq<octet>)
    requires |b| == OUT_SIZE && |q| + |s| < OUT_SIZE && (q == [] ==> s == []) && Holds(b, start, q + s)
    ensures q != [] ==> b[start] == q[0]
    ensures var next, rest := Masked(start + 1), Rest(b, start, q);
            && |rest| + |s| < OUT_SIZE && Holds(b, next, rest + s)
            && Slot(start, |q|, OUT_SIZE) == Slot(next, |rest|, OUT_SIZE)
            && Slot(start, |q| + |s|, OUT_SIZE) == Slot(next, |rest| + |s|, OUT_SIZE)
            && (Slot(start, |q|, OUT_SIZE) == next <==> rest == [])
  {
    hide Masked;
    if q == [] {
      StaleHeld(b, start);
      assert Stale(b, start) + s == Stale(b, start);
    } else {
      Drained(b, start, q, s);
    }
  }

  lemma Advanced(start: nat, n: nat)
    requires start < OUT_SIZE && n < OUT_SIZE - 1
    ensures Slot(start, 1, OUT_SIZE) == Masked(start + 1)
    ensures Slot(Slot(start, 1, OUT_SIZE), n, OUT_SIZE) == Slot(start, n + 1, OUT_SIZE)
    ensures Slot(start, n + 1, OUT_SIZE) == Slot(start, 1, OUT_SIZE) <==> n == 0
  {
  }

  /** The ring towards the second processor, with the interrupt that empties it. */
  class OutRing {
    const buffer: array<octet>
    var writePtr: nat
    var readPtr: nat
    /** The pointer of a write in progress. */
    var tmp: nat
    /** The data-register-empty interrupt is enabled. */
    var enabled: bool
    /** Published and not yet sent. */
    ghost var queued: seq<octet>
    /** Written behind the published bytes, and not yet published. */
    ghost var staged: seq<octet>

    /** The pointers and the bytes fit together. */
    ghost predicate Shaped()
      reads this, buffer
    {
      && buffer.Length == OUT_SIZE && readPtr < OUT_SIZE && |queued| + |staged| < OUT_SIZE
      && writePtr == Slot(readPtr, |queued|, OUT_SIZE)
      && tmp == Slot(readPtr, |queued| + |staged|, OUT_SIZE)
      && Holds(buffer[..], readPtr, queued + staged)
    }

    ghost predicate Valid()
      reads this, buffer
    {
      Shaped() && (enabled <==> queued != [])
    }

    constructor ()
      ensures Valid() && fresh(buffer) && queued == [] && staged == []
    {
      buffer := new octet[OUT_SIZE];
      writePtr, readPtr, tmp, enabled := 0, 0, 0, false;
      queued, staged := [], [];
    }

    /** INIT_TMP_USB_TO_SERIAL: what was staged and never published is forgotten. */
    method BeginWrite()
      requires Valid()
      modifies this
      ensures Valid() && queued == old(queued) && staged == []
    {
      tmp := writePtr;
      staged := [];
      assert queued + staged == (queued + old(staged))[..|queued|];
    }

    /** WRITE_BYTE_TO_BUF: a free slot takes the byte; nothing queued is overwritten. */
    method WriteByte(data: octet)
      requires Valid() && |queued| + |staged| < OUT_SIZE - 1
      modifies this, buffer
      ensures Valid() && queued == old(queued) && staged == old(staged) + [data]
    {
      hide Holds;
      Pushed(buffer[..], readPtr, queued + staged, data);
      buffer[tmp] := data;
      tmp := Masked(tmp + 1);
      staged := staged + [data];
      assert queued + staged == (queued + old(staged)) + [data];
      assert buffer[..] == old(buffer[..])[old(tmp) := data];
    }

    /** The first statement of FINISH_WRITE: the staged bytes are published. */
    method Publish()
      requires Shaped()
      modifies this`writePtr, this`queued, this`staged
      ensures Shaped() && queued == old(queued) + old(staged) && staged == []
    {
      writePtr := tmp;
      queued, staged := queued + staged, [];
      assert queued + staged == old(queued) + old(staged);
    }

    /** The second: the interrupt is enabled, which is right exactly if bytes are still queued. */
    method Enable()
      requires Shaped()
      modifies this`enabled
      ensures Shaped() && enabled && (Valid() <==> queued != [])
    {
      enabled := true;
    }

    /** FINISH_WRITE, with no interrupt between its two statements. */
    method FinishWrite()
      requires Valid() && staged != []
      modifies this
      ensures Valid() && queued == old(queued) + old(staged) && staged == []
    {
      Publish();
      Enable();
    }

    /** The interrupt sends the oldest byte, and turns itself off behind the last one.  On a ring
        that is already empty it sends what has been sent before, and leaves 127 bytes of the
        same kind between the pointers.
      */
    method TransmitInterrupt() returns (data: octet)
      requires Shaped() && enabled && (queued == [] ==> staged == [])
      modifies this
      ensures data == old(buffer[readPtr]) && staged == old(staged)
      ensures Valid() && queued == old(Rest(buffer[..], readPtr, queued))
      ensures old(queued) != [] ==> data == old(queued)[0]
    {
      TakenFrom(buffer[..], readPtr, queued, staged);
      hide Holds, Slot, Masked, Rest;
      ghost var rest := Rest(buffer[..], readPtr, queued);
      data := buffer[readPtr];
      readPtr := Masked(readPtr + 1);
      queued := rest;
      if readPtr == writePtr {
        enabled := false;
      }
    }

    /** The free space that the main loop computes from the two pointers. */
    method Free() returns (free: nat)
      requires Valid() && staged == []
      ensures free == OUT_SIZE - 1 - |queued|
    {
      free := (OUT_SIZE - 1) - (writePtr - readPtr) % OUT_SIZE;
    }
  }

  /** The ring from the second processor: an eight-bit pointer into 256 bytes, and no flow control. */
  class InRing {
    const buffer: array<octet>
    var writePtr: nat
    var readPtr: nat
    /** The pointer of a read in progress. */
    var tmp: nat
    /** Received and not yet released by the reader: what a read that begins now would find. */
    ghost var held: seq<octet>
    /** What the read in progress has still to find. */
    ghost var unread: seq<octet>

    ghost predicate Valid()
      reads this, buffer
    {
      && buffer.Length == IN_SIZE
      && Between(buffer[..], readPtr, writePtr, held) && Between(buffer[..], tmp, writePtr, unread)
    }

    /** The reader has read a part of what is held. */
    ghost predicate Ordered()
      reads this
    {
      |unread| <= |held| && unread == held[|held| - |unread|..]
    }

    ghost function Seen(): int
      reads this
    {
      |held| - |unread|
    }

    constructor ()
      ensures Valid() && Ordered() && fresh(buffer) && held == unread == []
    {
      buffer := new octet[IN_SIZE];
      writePtr, readPtr, tmp := 0, 0, 0;
      held, unread := [], [];
    }

    /** The receive interrupt looks at no reader's pointer: a byte joins the queue as long as
        fewer than 255 are there, and the 256th makes the ring look empty, so that all are lost.
      */
    method ReceiveInterrupt(data: octet)
      requires Valid()
      modifies this`writePtr, this`held, this`unread, buffer
      ensures Valid() && held == Joined(old(held), data) && unread == Joined(old(unread), data)
      ensures old(Ordered()) && |old(held)| < IN_SIZE - 1 ==> Ordered() && Seen() == old(Seen())
    {
      ByteStored(buffer[..], readPtr, writePtr, held, data);
      ByteStored(buffer[..], tmp, writePtr, unread, data);
      hide Between, Joined;
      if |held| < IN_SIZE - 1 && |unread| <= |held| {
        BothJoined(held, unread, data);
      }
      buffer[writePtr] := data;
      writePtr := (writePtr + 1) % IN_SIZE;
      held, unread := Joined(held, data), Joined(unread, data);
    }

    /** INIT_TMP_SERIAL_TO_USB: reading starts again from what was last released. */
    method BeginRead()
      requires Valid()
      modifies this`tmp, this`unread
      ensures Valid() && Ordered() && unread == held
    {
      hide Between;
      tmp := readPtr;
      unread := held;
    }

    /** What WAIT_FOR_BYTES compares with the number of bytes it waits for. */
    method Available() returns (n: nat)
      requires Valid()
      ensures n == |unread|
    {
      n := (writePtr - tmp) % IN_SIZE;
    }

    method ReadByte() returns (data: octet)
      requires Valid() && unread != []
      modifies this`tmp, this`unread
      ensures Valid() && data == old(unread[0]) && unread == old(unread[1..])
      ensures old(Ordered()) ==> Ordered() && Seen() == old(Seen()) + 1 && data == held[old(Seen())]
    {
      FirstRead(buffer[..], tmp, writePtr, unread);
      hide Between;
      data := buffer[tmp];
      tmp := (tmp + 1) % IN_SIZE;
      unread := unread[1..];
    }

    /** FINISH_READ releases what was read. */
    method FinishRead()
      requires Valid()
      modifies this`readPtr, this`held
      ensures Valid() && Ordered() && held == unread
      ensures old(Ordered()) ==> held == old(held)[old(Seen())..]
    {
      hide Between;
      readPtr := tmp;
      held := unread;
    }
  }

  /** The bytes q lie in the ring from one pointer up to the other. */
  ghost predicate Between(b: seq<octet>, start: nat, end: nat, q: seq<octet>) {
    && |b| == IN_SIZE && start < IN_SIZE && |q| < IN_SIZE
    && end == Slot(start, |q|, IN_SIZE) && Holds(b, start, q)
  }

  /** A queue after the next byte has been stored. */
  function Joined(q: seq<octet>, x: octet): seq<octet> {
    if |q| < IN_SIZE - 1 then q + [x] else []
  }

  lemma NothingHeld(b: seq<octet>, start: nat)
    requires start < |b|
    ensures Holds(b, start, [])
  {
  }

  lemma NextSlot(start: nat, n: nat)
    requires start < IN_SIZE && n < IN_SIZE
    ensures (Slot(start, n, IN_SIZE) + 1) % IN_SIZE == Slot(start, if n < IN_SIZE - 1 then n + 1 else 0, IN_SIZE)
  {
  }

  lemma ByteStored(b: seq<octet>, start: nat, end: nat, q: seq<octet>, x: octet)
    requires Between(b, start, end, q)
    ensures Between(b[end := x], start, (end + 1) % IN_SIZE, Joined(q, x))
  {
    NothingHeld(b[end := x], start);
    NextSlot(start, |q|);
    hide Holds, Slot;
    if |q| < IN_SIZE - 1 {
      Pushed(b, start, q, x);
    }
  }

  lemma BothJoined(held: seq<octet>, unread: seq<octet>, x: octet)
    requires |unread| <= |held| < IN_SIZE - 1
    ensures |Joined(held, x)| == |held| + 1 && |Joined(unread, x)| == |unread| + 1
    ensures unread == held[|held| - |unread|..] ==> Joined(unread, x) == Joined(held, x)[|held| - |unread|..]
  {
  }

  lemma FirstRead(b: seq<octet>, start: nat, end: nat, q: seq<octet>)
    requires Between(b, start, end, q) && q != []
    ensures b[start] == q[0] && Between(b, (start + 1) % IN_SIZE, end, q[1..])
  {
    Oldest(b, start, q);
    Popped(b, start, q, 1);
  }
}
