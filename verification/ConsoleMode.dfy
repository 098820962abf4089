/** Which console the device believes it is plugged into, and the handshake with an Xbox One:
    one state, changed by control requests, host reports and the device's own ticks.
  */
module ConsoleMode {
  type octet = x: nat | x < 256

  datatype Mode =
    | Universal | KeyboardMouse | Midi | Xbox360 | Ps3 | WiiRb | Switch | Ps4 | XboxOne | RealPs3
    | WindowsXboxOne | Windows

  datatype Handshake =
    | Announce | Waiting1 | Ident1 | Waiting2 | Ident2 | Ident3 | Ident4 | Waiting5 | Ident5 | Auth | Ready

  datatype Authentication = Auth1 | Auth2 | Authenticated

  datatype Frame = Announced | Identify1 | Identify2 | Identify3 | Identify4 | Identify5

  datatype Kind = GuitarOrDrums | LiveGuitar | Turntable | OtherDevice

  /** What is fixed when the firmware is built; `reboots` tells whether a USB reset restarts
      the processor at once or is only noted for later.
    */
  datatype Build = Build(kind: Kind, windowsUsesXinput: bool, reboots: bool)

  datatype Target = ClassToInterface | ClassFromInterface | VendorFromInterface | VendorFromDevice | OtherTarget

  datatype Setup = Setup(target: Target, request: octet, wValue: nat, wIndex: nat, wLength: nat)

  const GET_REPORT: octet := 0x01
  const CLEAR_FEATURE: octet := 0x01
  const SET_REPORT: octet := 0x09
  const COMMAND_REBOOT: octet := 0x30
  const COMMAND_MAX: octet := 0x4B
  const OS_FEATURE: octet := 0x20
  const COMPATIBLE_ID := 0x0004
  const GET_IDLE: octet := 0x02
  const GET_PROTOCOL: octet := 0x03
  const SET_IDLE: octet := 0x0A
  const SET_PROTOCOL: octet := 0x0B
  const GET_STATUS: octet := 0x00
  const SET_INTERFACE: octet := 0x0B
  const PROPERTIES := 0x0005
  const SET_CHALLENGE := 0x03F0
  const EPADDR_IN := 0x83
  const EPADDR_OUT := 0x04

  const XBOX_LED_ID: octet := 0x01
  const GIP_DEVICE_DESCRIPTOR: octet := 0x04
  const INTERRUPT_ID: octet := 0x16

  // ---------- Modes ----------

  /** Every change of mode goes down. */
  function Rank(m: Mode): nat {
    match m
    case Universal => 3
    case WindowsXboxOne => 2
    case Ps3 => 2
    case Xbox360 => 0
    case _ => 1
  }

  predicate Descending(modes: seq<Mode>) {
    forall i | 0 < i < |modes| :: Rank(modes[i]) < Rank(modes[i - 1])
  }

  lemma DescendingMore(modes: seq<Mode>, m: Mode)
    requires Descending(modes) && modes != [] && Rank(m) < Rank(modes[|modes| - 1])
    ensures Descending(modes + [m])
  {
  }

  lemma {:induction false} DescendingFrom(modes: seq<Mode>, i: nat)
    requires Descending(modes) && i < |modes|
    ensures Rank(modes[i]) + i <= Rank(modes[0])
  {
    if i > 0 {
      DescendingFrom(modes, i - 1);
    }
  }

  /** From the universal mode there are at most three changes, none of which leads back to it. */
  lemma DetectionEnds(modes: seq<Mode>)
    requires Descending(modes) && modes != []
    ensures |modes| <= 4
    ensures forall i | 0 < i < |modes| :: modes[i] != Universal
  {
    DescendingFrom(modes, |modes| - 1);
    forall i | 0 < i < |modes|
      ensures modes[i] != Universal
    {
      DescendingFrom(modes, i);
    }
  }

  predicate GetsReport(r: Setup, wValue: nat) {
    r.target == ClassFromInterface && r.request == GET_REPORT && r.wIndex == 0 && r.wValue == wValue
  }

  /** The mode a control request reveals, by the console that would send it. */
  function Detected(b: Build, m: Mode, r: Setup, halted: bool): Mode {
    if r.target == VendorFromInterface && r.request == 0x81 then Xbox360
    else if m == Universal && GetsReport(r, 0x0300) && r.wLength == 0x20 then RealPs3
    else if m == Universal && GetsReport(r, 0x03F2) && r.wLength == 0x11 then Ps3
    else if m == Ps3 && GetsReport(r, 0x0301) && r.wLength == 0x40 then RealPs3
    else if m == Universal && GetsReport(r, 0x0303)
      then (if b.kind == GuitarOrDrums || b.kind == Turntable then Ps3 else Ps4)
    else if m == Universal && r.target == ClassToInterface && r.request == SET_REPORT && r.wValue == 0x03F4
            && r.wLength == 4
      then Ps3
    else if m == Universal && r.target == VendorFromDevice && r.request == OS_FEATURE && r.wIndex == COMPATIBLE_ID
            && b.windowsUsesXinput
      then WindowsXboxOne
    else if m == Universal && halted then Switch
    else m
  }

  /** The request clears a halt on an endpoint, and none of the earlier cases takes it. */
  predicate ClearsHalt(r: Setup) {
    && r.request == CLEAR_FEATURE && (r.wIndex == EPADDR_IN || r.wIndex == EPADDR_OUT)
    && (r.target == ClassToInterface || r.target == VendorFromDevice || r.target == OtherTarget)
  }

  /** The mode guessed for a console that has been silent for long. */
  function Guess(b: Build, m: Mode, s: Surroundings): Mode {
    if m != Universal || !s.late then m
    else if b.kind == GuitarOrDrums && !s.seenNonWii && s.connected then WiiRb
    else if b.kind == LiveGuitar && !s.seenNonWii && s.connected then Ps3
    else if (b.kind == Turntable || b.kind == OtherDevice) && !s.descriptorRequested then Ps3
    else if (b.kind == GuitarOrDrums || b.kind == LiveGuitar)
            && !s.seenNonWii && !s.connected && s.descriptorRequested then Ps3
    else Universal
  }

  /** The driver that a first report on the Windows fallback gives away. */
  function Driver(m: Mode, data: seq<octet>, reportId: octet): Mode
    requires data != []
  {
    if m == WindowsXboxOne && reportId == INTERRUPT_ID && data[0] == XBOX_LED_ID then Windows
    else if m == WindowsXboxOne && reportId == INTERRUPT_ID && data[0] == GIP_DEVICE_DESCRIPTOR then XboxOne
    else m
  }

  /** A set-report request that is handed on as a report. */
  predicate CarriesReport(r: Setup) {
    r.target == ClassToInterface && r.request == SET_REPORT && r.wValue !in {SET_CHALLENGE, 0x03F2, 0x03F4}
  }

  /** The requests that are handled at all; a processor behind the bridge is sent no others. */
  predicate Accepts(m: Mode, r: Setup) {
    || (m != Xbox360 && r.target == VendorFromInterface && r.request == 0x81)
    || r.request in {0x81, 0x82, 0x87, 0x83, 0x84, 0x86}
    || (r.target == ClassToInterface
        && (r.request in {SET_PROTOCOL, SET_IDLE, SET_REPORT, GET_STATUS} || COMMAND_REBOOT <= r.request < COMMAND_MAX))
    || (r.target == ClassFromInterface
        && (r.request in {SET_INTERFACE, GET_PROTOCOL, GET_IDLE, GET_REPORT}
            || COMMAND_REBOOT <= r.request < COMMAND_MAX))
    || (r.target == VendorFromInterface
        && ((r.request == GET_REPORT && r.wIndex == 0 && r.wValue in {0x0000, 0x0100})
            || (r.request == OS_FEATURE && r.wIndex == PROPERTIES && r.wValue == 2)))
    || (r.target == VendorFromDevice
        && (((m == Windows || m == Xbox360) && r.request == GET_REPORT && r.wIndex == 0 && r.wValue == 0x0000)
            || (r.request == OS_FEATURE && r.wIndex == COMPATIBLE_ID)))
    || (r.target != ClassFromInterface && r.target != VendorFromInterface
        && m == Universal && r.request == CLEAR_FEATURE && (r.wIndex == EPADDR_IN || r.wIndex == EPADDR_OUT))
  }

  /** No detection is lost to that filter: a request that would change the mode, or that counts
      toward clearing both halts, is one that is handled.
    */
  lemma DetectionIsHandled(b: Build, m: Mode, r: Setup, halted: bool)
    requires halted ==> ClearsHalt(r)
    ensures Detected(b, m, r, halted) != m ==> Accepts(m, r)
    ensures m == Universal && ClearsHalt(r) ==> Accepts(m, r)
    ensures CarriesReport(r) ==> Accepts(m, r)
  {
  }

  // ---------- The handshake ----------

  const SCRIPT := [Announced, Identify1, Identify2, Identify3, Identify4, Identify5]

  /** The frames that have been sent when the handshake is in state h. */
  function Sent(h: Handshake): nat {
    match h
    case Announce => 0
    case Waiting1 => 1
    case Ident1 => 1
    case Waiting2 => 2
    case Ident2 => 2
    case Ident3 => 3
    case Ident4 => 4
    case Waiting5 => 5
    case Ident5 => 5
    case Auth => 6
    case Ready => 6
  }

  /** The host reports that have moved it there. */
  function Heard(h: Handshake): nat {
    match h
    case Announce => 0
    case Waiting1 => 0
    case Ident1 => 1
    case Waiting2 => 1
    case Ident2 => 2
    case Ident3 => 2
    case Ident4 => 2
    case Waiting5 => 2
    case Ident5 => 3
    case Auth => 3
    case Ready => 4
  }

  /** The order in which the states are declared. */
  function Next(h: Handshake): Handshake {
    match h
    case Announce => Waiting1
    case Waiting1 => Ident1
    case Ident1 => Waiting2
    case Waiting2 => Ident2
    case Ident2 => Ident3
    case Ident3 => Ident4
    case Ident4 => Waiting5
    case Waiting5 => Ident5
    case Ident5 => Auth
    case Auth => Ready
    case Ready => Ready
  }

  predicate ScriptKept(frames: seq<Frame>, h: Handshake) {
    frames == SCRIPT[..Sent(h)]
  }

  lemma NothingSent()
    ensures ScriptKept([], Announce)
  {
  }

  /** The console's word that the authentication has succeeded. */
  predicate Success(data: seq<octet>) {
    |data| == 6 && data[0] == 6 && data[3] == 2 && data[4] == 1 && data[5] == 0
  }

  // ---------- The handshake advances ----------

  /** The device has a frame to send. */
  predicate Emits(h: Handshake) {
    h in {Announce, Ident1, Ident2, Ident3, Ident4, Ident5}
  }

  /** The device waits for a report. */
  predicate Waits(h: Handshake) {
    h in {Waiting1, Waiting2, Waiting5}
  }

  /** After a tick in which the endpoint takes a packet. */
  function Ticked(h: Handshake): Handshake {
    if Emits(h) then Next(h) else h
  }

  /** After a report of the console. */
  function Told(h: Handshake, data: seq<octet>): Handshake {
    if Waits(h) || (h == Auth && Success(data)) then Next(h) else h
  }

  /** After an event in the Xbox One mode that is a tick or a report. */
  function Moved(h: Handshake, e: Event): Handshake {
    match e
    case Tick(around) => if around.ready then Ticked(h) else h
    case Report(data, _) => if data != [] then Told(h, data) else h
    case _ => h
  }

  function MovedBy(h: Handshake, events: seq<Event>): Handshake
    decreases |events|
  {
    if events == [] then h else MovedBy(Moved(h, events[0]), events[1..])
  }

  lemma {:induction false} MovedByOneMore(h: Handshake, events: seq<Event>, e: Event)
    ensures MovedBy(h, events + [e]) == Moved(MovedBy(h, events), e)
    decreases |events|
  {
    if events == [] {
      assert [e][1..] == [];
    } else {
      assert (events + [e])[1..] == events[1..] + [e];
      MovedByOneMore(Moved(h, events[0]), events[1..], e);
    }
  }

  /** How far the handshake has come, in states. */
  function Place(h: Handshake): nat {
    match h
    case Announce => 0
    case Waiting1 => 1
    case Ident1 => 2
    case Waiting2 => 3
    case Ident2 => 4
    case Ident3 => 5
    case Ident4 => 6
    case Waiting5 => 7
    case Ident5 => 8
    case Auth => 9
    case Ready => 10
  }

  /** Some tick at which the endpoint is ready, and some report. */
  ghost predicate Answering(events: seq<Event>) {
    && (exists i | 0 <= i < |events| :: events[i].Tick? && events[i].around.ready)
    && (exists i | 0 <= i < |events| :: events[i].Report? && events[i].data != [])
  }

  lemma {:induction false} NeverBack(h: Handshake, events: seq<Event>)
    ensures Place(MovedBy(h, events)) >= Place(h)
    decreases |events|
  {
    if events != [] {
      NeverBack(Moved(h, events[0]), events[1..]);
    }
  }

  /** A state that waits for nothing in particular is left at the first event that moves it. */
  lemma {:induction false} MovesOn(h: Handshake, events: seq<Event>, i: nat)
    requires i < |events| && Moved(h, events[i]) != h
    ensures Place(MovedBy(h, events)) > Place(h)
    decreases |events|
  {
    if Moved(h, events[0]) != h {
      NeverBack(Moved(h, events[0]), events[1..]);
    } else {
      MovesOn(h, events[1..], i - 1);
    }
  }

  /** Before the authentication, a tick and a report in any order, and whatever comes between,
      bring the handshake at least one state further.
    */
  lemma RoundAdvances(h: Handshake, events: seq<Event>)
    requires Answering(events) && Place(h) < Place(Auth)
    ensures Place(MovedBy(h, events)) > Place(h)
  {
    var t :| 0 <= t < |events| && events[t].Tick? && events[t].around.ready;
    var r :| 0 <= r < |events| && events[r].Report? && events[r].data != [];
    MovesOn(h, events, if Emits(h) then t else r);
  }

  function AllOf(rounds: seq<seq<Event>>): seq<Event> {
    if rounds == [] then [] else rounds[0] + AllOf(rounds[1..])
  }

  lemma {:induction false} MovedByBoth(h: Handshake, a: seq<Event>, b: seq<Event>)
    ensures MovedBy(h, a + b) == MovedBy(MovedBy(h, a), b)
    decreases |a|
  {
    if a == [] {
      assert a + b == b;
    } else {
      assert (a + b)[0] == a[0] && (a + b)[1..] == a[1..] + b;
      MovedByBoth(Moved(h, a[0]), a[1..], b);
    }
  }

  /** So a console that keeps answering is led from any state to the authentication, in at most
      as many rounds as there are states before it.
    */
  lemma {:induction false} AnsweredToAuth(h: Handshake, rounds: seq<seq<Event>>)
    requires forall i | 0 <= i < |rounds| :: Answering(rounds[i])
    requires Place(h) + |rounds| >= Place(Auth)
    ensures Place(MovedBy(h, AllOf(rounds))) >= Place(Auth)
    decreases |rounds|
  {
    if rounds == [] {
    } else {
      var g := MovedBy(h, rounds[0]);
      MovedByBoth(h, rounds[0], AllOf(rounds[1..]));
      NeverBack(h, rounds[0]);
      if Place(h) < Place(Auth) {
        RoundAdvances(h, rounds[0]);
      }
      if Place(g) < Place(Auth) {
        AnsweredToAuth(g, rounds[1..]);
      } else {
        NeverBack(g, AllOf(rounds[1..]));
      }
    }
  }

  /** And from there to the end, if the success packet is among the reports. */
  lemma SuccessMakesReady(h: Handshake, events: seq<Event>, i: nat)
    requires h == Auth || h == Ready
    requires i < |events| && events[i].Report? && Success(events[i].data)
    ensures MovedBy(h, events) == Ready
  {
    if h == Auth {
      MovesOn(h, events, i);
    } else {
      NeverBack(h, events);
    }
  }

  /** The reports a are among the reports b, in the same order and each at most once. */
  predicate Among<T(==)>(a: seq<T>, b: seq<T>)
    decreases |b|
  {
    if a == [] then true
    else if b == [] then false
    else
      var a', b' := a[..|a| - 1], b[..|b| - 1];
      (a[|a| - 1] == b[|b| - 1] && Among(a', b')) || Among(a, b')
  }

  lemma {:induction false} AmongWithout<T>(a: seq<T>, b: seq<T>)
    requires Among(a, b) && a != []
    ensures Among(a[..|a| - 1], b)
    decreases |b|
  {
    var a', b' := a[..|a| - 1], b[..|b| - 1];
    if a' == [] {
    } else if a[|a| - 1] == b[|b| - 1] && Among(a', b') {
    } else {
      AmongWithout(a, b');
    }
  }

  /** One more on both sides. */
  lemma AmongBoth<T>(a: seq<T>, b: seq<T>, x: T)
    requires Among(a, b)
    ensures Among(a + [x], b + [x])
  {
    assert (a + [x])[..|a|] == a && (b + [x])[..|b|] == b;
  }

  lemma AmongMore<T>(a: seq<T>, b: seq<T>, x: T)
    requires Among(a, b)
    ensures Among(a, b + [x])
  {
    assert (b + [x])[..|b|] == b;
  }

  /** The reports that moved the handshake to state h, of those heard. */
  predicate HeardKept(moving: seq<seq<octet>>, heard: nat, h: Handshake) {
    && |moving| == Heard(h) && |moving| <= heard
    && (h == Ready ==> Success(moving[3]))
  }

  lemma NothingHeard()
    ensures HeardKept([], 0, Announce)
  {
  }

  function Waiting(data: seq<octet>): seq<seq<octet>> {
    if data == [] then [] else [data]
  }

  /** The reports passed on, and the one that waits, are among those offered. */
  predicate RelayKept(relayed: seq<seq<octet>>, data: seq<octet>, offered: seq<seq<octet>>) {
    Among(relayed + Waiting(data), offered)
  }

  lemma NothingRelayed()
    ensures RelayKept([], [], [])
  {
  }

  lemma RelayedAmong(relayed: seq<seq<octet>>, data: seq<octet>, offered: seq<seq<octet>>)
    requires RelayKept(relayed, data, offered)
    ensures Among(relayed, offered)
  {
    hide Among;
    if data == [] {
      assert relayed + [] == relayed;
    } else {
      AmongWithout(relayed + [data], offered);
      assert (relayed + [data])[..|relayed|] == relayed;
    }
  }

  /** A new report replaces one that waits. */
  lemma Offered(relayed: seq<seq<octet>>, data: seq<octet>, offered: seq<seq<octet>>, report: seq<octet>)
    requires RelayKept(relayed, data, offered)
    ensures RelayKept(relayed, report, offered + [report])
  {
    hide Among;
    RelayedAmong(relayed, data, offered);
    AmongBoth(relayed, offered, report);
    AmongMore(relayed, offered, report);
    assert relayed + [] == relayed;
  }

  lemma NothingAmongNone<T>(a: seq<T>)
    requires Among(a, [])
    ensures a == []
  {
  }

  lemma PassedOn(relayed: seq<seq<octet>>, data: seq<octet>, offered: seq<seq<octet>>)
    requires RelayKept(relayed, data, offered) && data != []
    ensures RelayKept(relayed + [data], [], offered)
  {
    hide Among;
    assert relayed + [data] + [] == relayed + [data];
  }

  /** A packet on its way to the host. */
  datatype Output = Nothing | Scripted(frame: Frame) | Relayed(bytes: seq<octet>) | Inputs

  /** What the outside world looks like at a tick. */
  datatype Surroundings = Surroundings(
    late: bool, seenNonWii: bool, connected: bool, descriptorRequested: bool, ready: bool)

  /** Face buttons of a controller plugged into the host port. */
  datatype Buttons = Buttons(a: bool, b: bool, x: bool, y: bool, start: bool, back: bool)

  datatype Event =
    | Request(setup: Setup, payload: seq<octet>)
    | Report(data: seq<octet>, reportId: octet)
    | Tick(around: Surroundings)
    | Pressed(buttons: Buttons)
    | FromController(report: seq<octet>)
    | Mounted

  predicate TicksAndReports(events: seq<Event>) {
    forall i | 0 <= i < |events| :: events[i].Tick? || events[i].Report?
  }

  class Device {
    const build: Build
    var consoleType: Mode
    var xboxOneState: Handshake
    var xbox360State: Authentication
    var clearedInput: bool
    var clearedOutput: bool
    var dataFromConsole: seq<octet>
    var dataFromController: seq<octet>
    /** All modes so far; the frames sent, the host reports heard and those of them that moved
        the handshake since it last began.
      */
    ghost var modes: seq<Mode>
    ghost var frames: seq<Frame>
    ghost var heard: nat
    ghost var moving: seq<seq<octet>>
    /** The reports that the real controller has offered to the console, and those passed on. */
    ghost var offered: seq<seq<octet>>
    ghost var relayed: seq<seq<octet>>

    ghost predicate Valid()
      reads this
    {
      && modes != [] && modes[|modes| - 1] == consoleType && Descending(modes)
      && ScriptKept(frames, xboxOneState) && HeardKept(moving, heard, xboxOneState)
      && RelayKept(relayed, dataFromController, offered)
      && (offered != [] ==> xboxOneState == Auth || xboxOneState == Ready)
    }

    constructor (b: Build, m: Mode)
      ensures Valid() && build == b && consoleType == m && modes == [m]
    {
      build, consoleType, xboxOneState, clearedInput, clearedOutput := b, m, Announce, false, false;
      dataFromConsole, dataFromController, xbox360State := [], [], Auth1;
      modes, frames, heard, moving, offered, relayed := [m], [], 0, [], [], [];
    }

    /** The handshake stays where it is or moves one state on, and no mode changes. */
    twostate predicate HandshakeStep()
      reads this
    {
      xboxOneState == old(xboxOneState) || xboxOneState == Next(old(xboxOneState))
    }

    /** The mode stays, or one change is recorded; a change may restart the handshake. */
    twostate predicate ModeStep()
      reads this
    {
      || (modes == old(modes) && consoleType == old(consoleType) && HandshakeStep())
      || (modes == old(modes) + [consoleType] && Rank(consoleType) < Rank(old(consoleType))
          && (HandshakeStep() || (build.reboots && xboxOneState == Announce)))
    }

    method DeviceReset()
      requires Valid()
      modifies this`xboxOneState, this`dataFromConsole, this`dataFromController
      modifies this`frames, this`heard, this`moving, this`offered, this`relayed
      ensures Valid() && xboxOneState == Announce && dataFromConsole == dataFromController == []
      ensures modes == old(modes) && consoleType == old(consoleType) && frames == [] && moving == []
      ensures clearedInput == old(clearedInput) && clearedOutput == old(clearedOutput)
    {
      hide RelayKept, Descending, ScriptKept, HeardKept;
      NothingSent();
      NothingHeard();
      NothingRelayed();
      xboxOneState := Announce;
      dataFromController, dataFromConsole := [], [];
      frames, heard, moving, offered, relayed := [], 0, [], [], [];
    }

    method Settle(m: Mode)
      requires Valid() && Rank(m) < Rank(consoleType)
      modifies this`consoleType, this`modes
      ensures Valid() && consoleType == m && modes == old(modes) + [m]
    {
      DescendingMore(modes, m);
      hide RelayKept, Descending, Rank, ScriptKept, HeardKept;
      consoleType := m;
      modes := modes + [m];
    }

    /** A new mode, and the USB reset that follows: restarting the processor keeps only the mode. */
    method Become(m: Mode)
      requires Valid() && Rank(m) < Rank(consoleType)
      modifies this
      ensures Valid() && consoleType == m && modes == old(modes) + [m]
      ensures if build.reboots then xboxOneState == Announce else xboxOneState == old(xboxOneState)
      ensures !build.reboots ==>
                heard == old(heard) && moving == old(moving) && dataFromConsole == old(dataFromConsole)
                && dataFromController == old(dataFromController) && frames == old(frames)
                && clearedInput == old(clearedInput) && clearedOutput == old(clearedOutput)
                && xbox360State == old(xbox360State)
      ensures build.reboots ==>
                xbox360State == Auth1 && !clearedInput && !clearedOutput && dataFromConsole == dataFromController == []
    {
      hide RelayKept, Descending, ScriptKept, HeardKept;
      Settle(m);
      if build.reboots {
        DeviceReset();
        xbox360State, clearedInput, clearedOutput := Auth1, false, false;
      }
    }

    /** Whether a control request is one to handle.  The console's second request for a response
        in the Xbox 360 mode marks the device as authenticated.
      */
    method ControlRequestValid(r: Setup) returns (valid: bool)
      requires Valid()
      modifies this`xbox360State
      ensures Valid() && valid == Accepts(consoleType, r)
      ensures xbox360State == if consoleType == Xbox360 && r.target == VendorFromInterface && r.request == 0x83
                              then (if old(xbox360State) == Auth1 then Auth2 else Authenticated)
                              else old(xbox360State)
    {
      hide RelayKept, Descending;
      if consoleType != Xbox360 && r.target == VendorFromInterface && r.request == 0x81 {
        return true;
      }
      if consoleType == Xbox360 && r.target == VendorFromInterface && r.request == 0x83 {
        if xbox360State == Auth1 {
          xbox360State := Auth2;
        } else if xbox360State == Auth2 {
          xbox360State := Authenticated;
        }
      }
      if r.request == 0x81 || r.request == 0x82 || r.request == 0x87 || r.request == 0x83 || r.request == 0x84
         || r.request == 0x86 {
        return true;
      }
      if r.target == ClassToInterface {
        if r.request == SET_PROTOCOL || r.request == SET_IDLE || r.request == SET_REPORT {
          return true;
        }
        if COMMAND_REBOOT <= r.request < COMMAND_MAX {
          return true;
        }
        if r.request == GET_STATUS {
          return true;
        }
      }
      if r.target == ClassFromInterface && r.request == SET_INTERFACE {
        return true;
      }
      if r.target == ClassFromInterface {
        if r.request == GET_PROTOCOL || r.request == GET_IDLE || r.request == GET_REPORT {
          return true;
        }
        if COMMAND_REBOOT <= r.request < COMMAND_MAX {
          return true;
        }
      } else if r.target == VendorFromInterface {
        if r.request == GET_REPORT && r.wIndex == 0 && r.wValue == 0x0000 {
          return true;
        } else if r.request == OS_FEATURE && r.wIndex == PROPERTIES && r.wValue == 2 {
          return true;
        } else if r.request == GET_REPORT && r.wIndex == 0 && r.wValue == 0x0100 {
          return true;
        }
      } else if r.target == VendorFromDevice && (consoleType == Windows || consoleType == Xbox360)
                && r.request == GET_REPORT && r.wIndex == 0 && r.wValue == 0x0000 {
        return true;
      } else if r.target == VendorFromDevice && r.request == OS_FEATURE && r.wIndex == COMPATIBLE_ID {
        return true;
      } else if consoleType == Universal && r.request == CLEAR_FEATURE
                && (r.wIndex == EPADDR_IN || r.wIndex == EPADDR_OUT) {
        return true;
      }
      return false;
    }

    /** Clear-feature requests collect until both endpoints have been seen. */
    method ClearHalt(wIndex: nat) returns (both: bool)
      requires Valid()
      modifies this`clearedInput, this`clearedOutput
      ensures Valid()
      ensures clearedInput == (old(clearedInput) || wIndex == EPADDR_IN)
      ensures clearedOutput == (old(clearedOutput) || wIndex == EPADDR_OUT)
      ensures both == (clearedInput && clearedOutput)
    {
      hide RelayKept, Descending;
      clearedInput := clearedInput || wIndex == EPADDR_IN;
      clearedOutput := clearedOutput || wIndex == EPADDR_OUT;
      both := clearedInput && clearedOutput;
    }

    method ControlRequest(r: Setup, payload: seq<octet>)
      requires Valid() && (CarriesReport(r) ==> payload != [])
      modifies this
      ensures Valid() && ModeStep()
      ensures consoleType == if CarriesReport(r) then Driver(old(consoleType), payload, r.wValue % 256)
                             else Detected(build, old(consoleType), r, ClearsHalt(r)
                               && (old(clearedInput) || r.wIndex == EPADDR_IN)
                               && (old(clearedOutput) || r.wIndex == EPADDR_OUT))
      ensures xboxOneState == if build.reboots && consoleType != old(consoleType) then Announce
                              else if CarriesReport(r) && consoleType == XboxOne then Told(old(xboxOneState), payload)
                              else old(xboxOneState)
      ensures var noted := old(consoleType) == Universal && ClearsHalt(r);
              consoleType == old(consoleType) ==>
                && clearedInput == (old(clearedInput) || (noted && r.wIndex == EPADDR_IN))
                && clearedOutput == (old(clearedOutput) || (noted && r.wIndex == EPADDR_OUT))
                && xbox360State == old(xbox360State)
    {
      hide RelayKept, Descending;
      if r.target == ClassToInterface && COMMAND_REBOOT <= r.request < COMMAND_MAX {
        return;
      }
      if consoleType != Xbox360 && r.target == VendorFromInterface && r.request == 0x81 {
        Become(Xbox360);
        return;
      }
      if r.target == ClassFromInterface {
        ReportRequest(r);
      } else if r.request == SET_REPORT && r.wValue == SET_CHALLENGE && r.target == ClassToInterface {
        return;
      } else if r.request == SET_REPORT && r.wValue == 0x03F2 && r.target == ClassToInterface {
        return;
      } else if r.request == SET_REPORT && r.wValue == 0x03F4 && r.target == ClassToInterface {
        if consoleType == Universal && r.wLength == 4 {
          Become(Ps3);
        }
      } else if r.target == VendorFromInterface {
        return;
      } else if r.target == VendorFromDevice && r.request == OS_FEATURE && r.wIndex == COMPATIBLE_ID {
        if consoleType == Universal && build.windowsUsesXinput {
          Become(WindowsXboxOne);
        }
      } else if consoleType == Universal && r.request == CLEAR_FEATURE
                && (r.wIndex == EPADDR_IN || r.wIndex == EPADDR_OUT) {
        var both := ClearHalt(r.wIndex);
        if both {
          Become(Switch);
        }
      } else if r.request == SET_REPORT && r.target == ClassToInterface {
        HidSetReport(payload, r.wValue % 256);
      }
    }

    /** The class requests that only some consoles make. */
    method ReportRequest(r: Setup)
      requires Valid() && r.target == ClassFromInterface
      modifies this
      ensures xboxOneState == if build.reboots && consoleType != old(consoleType) then Announce else old(xboxOneState)
      ensures consoleType == old(consoleType) ==>
                && clearedInput == old(clearedInput) && clearedOutput == old(clearedOutput)
                && xbox360State == old(xbox360State)
      ensures Valid() && ModeStep() && consoleType == Detected(build, old(consoleType), r, false)
    {
      hide RelayKept, Descending;
      if (consoleType == Universal || consoleType == RealPs3) && r.wValue == 0x0300 && r.wIndex == 0
         && r.request == GET_REPORT && r.wLength == 0x20 {
        if consoleType == Universal {
          Become(RealPs3);
        }
        return;
      }
      if consoleType == Universal && r.wValue == 0x03F2 && r.wIndex == 0 && r.request == GET_REPORT
         && r.wLength == 0x11 {
        Become(Ps3);
      }
      if consoleType == Ps3 && r.wValue == 0x0301 && r.wIndex == 0 && r.request == GET_REPORT && r.wLength == 0x40 {
        Become(RealPs3);
      }
      if consoleType == Universal && r.wIndex == 0 && r.request == GET_REPORT && r.wValue == 0x0303 {
        if build.kind == GuitarOrDrums || build.kind == Turntable {
          Become(Ps3);
        } else {
          Become(Ps4);
        }
      }
    }

    /** A report from the host: on a Windows fallback it tells which driver has taken over, and
        in the Xbox One mode it moves the handshake.
      */
    method HidSetReport(data: seq<octet>, reportId: octet)
      requires Valid() && data != []
      modifies this
      ensures Valid() && ModeStep()
      ensures consoleType == Driver(old(consoleType), data, reportId)
      ensures consoleType == old(consoleType) ==>
                && clearedInput == old(clearedInput) && clearedOutput == old(clearedOutput)
                && xbox360State == old(xbox360State)
      ensures if build.reboots && consoleType != old(consoleType) then xboxOneState == Announce
              else if consoleType == XboxOne then
                xboxOneState == Told(old(xboxOneState), data) && heard == old(heard) + 1
                && (old(xboxOneState) == Auth ==> dataFromConsole == data)
              else xboxOneState == old(xboxOneState) && heard == old(heard)
    {
      hide RelayKept, Descending;
      if consoleType == WindowsXboxOne && reportId == INTERRUPT_ID {
        if data[0] == XBOX_LED_ID {
          Become(Windows);
          return;
        } else if data[0] == GIP_DEVICE_DESCRIPTOR {
          Become(XboxOne);
          if build.reboots {
            return;
          }
        }
      }
      if consoleType == XboxOne {
        Hear(data);
      }
    }

    method Hear(data: seq<octet>)
      requires Valid() && data != []
      modifies this`xboxOneState, this`dataFromConsole, this`heard, this`moving
      ensures Valid() && HandshakeStep() && heard == old(heard) + 1
      ensures xboxOneState == Told(old(xboxOneState), data)
      ensures moving == if xboxOneState == old(xboxOneState) then old(moving) else old(moving) + [data]
      ensures dataFromConsole == if old(xboxOneState) == Auth then data else old(dataFromConsole)
    {
      hide RelayKept, Descending;
      heard := heard + 1;
      if xboxOneState == Waiting1 {
        xboxOneState := Ident1;
        moving := moving + [data];
      } else if xboxOneState == Waiting2 {
        xboxOneState := Ident2;
        moving := moving + [data];
      } else if xboxOneState == Waiting5 {
        xboxOneState := Ident5;
        moving := moving + [data];
      } else if xboxOneState == Auth {
        if data[0] == 6 && |data| == 6 && data[3] == 2 && data[4] == 1 && data[5] == 0 {
          xboxOneState := Ready;
          moving := moving + [data];
        }
        dataFromConsole := data;
      }
    }

    /** The next frame of the handshake, or a report of the real controller while it authenticates. */
    method TickXboxOne() returns (out: Output)
      requires Valid()
      modifies this`xboxOneState, this`dataFromController, this`frames, this`relayed
      ensures Valid() && HandshakeStep() && xboxOneState == Ticked(old(xboxOneState))
      ensures out == if Emits(old(xboxOneState)) then Scripted(SCRIPT[Sent(old(xboxOneState))])
                     else if old(xboxOneState) == Auth && old(dataFromController) != [] then
                       Relayed(old(dataFromController))
                     else Nothing
      ensures frames == old(frames) + if out.Scripted? then [out.frame] else []
      ensures dataFromController == if old(xboxOneState) == Auth then [] else old(dataFromController)
      ensures relayed == old(relayed) + (if out.Relayed? then [out.bytes] else []) && offered == old(offered)
    {
      hide RelayKept, Descending;
      out := Nothing;
      match xboxOneState {
        case Announce =>
          xboxOneState, out := Waiting1, Scripted(Announced);
        case Ident1 =>
          xboxOneState, out := Waiting2, Scripted(Identify1);
        case Ident2 =>
          xboxOneState, out := Ident3, Scripted(Identify2);
        case Ident3 =>
          xboxOneState, out := Ident4, Scripted(Identify3);
        case Ident4 =>
          xboxOneState, out := Waiting5, Scripted(Identify4);
        case Ident5 =>
          xboxOneState, out := Auth, Scripted(Identify5);
        case Auth =>
          if dataFromController != [] {
            out := Relayed(dataFromController);
            PassedOn(relayed, dataFromController, offered);
            dataFromController := [];
            relayed := relayed + [out.bytes];
          }
        case _ =>
      }
      if out.Scripted? {
        frames := frames + [out.frame];
      }
    }

    /** The guess that is made when a console has stopped talking, or never began. */
    method GuessSilentConsole(s: Surroundings)
      requires Valid()
      modifies this
      ensures Valid() && ModeStep()
      ensures consoleType == Guess(build, old(consoleType), s)
      ensures consoleType == old(consoleType) || !build.reboots ==>
                xboxOneState == old(xboxOneState) && dataFromConsole == old(dataFromConsole)
                && dataFromController == old(dataFromController) && frames == old(frames)
      ensures xboxOneState == if consoleType == old(consoleType) || !build.reboots then old(xboxOneState) else Announce
    {
      hide RelayKept, Descending;
      if build.kind == GuitarOrDrums {
        if s.late && consoleType == Universal && !s.seenNonWii && s.connected {
          Become(WiiRb);
        }
      } else if build.kind == LiveGuitar {
        if s.late && consoleType == Universal && !s.seenNonWii && s.connected {
          Become(Ps3);
        }
      } else {
        if s.late && consoleType == Universal && !s.descriptorRequested {
          Become(Ps3);
        }
      }
      if build.kind == GuitarOrDrums || build.kind == LiveGuitar {
        if s.late && consoleType == Universal && !s.seenNonWii && !s.connected && s.descriptorRequested {
          Become(Ps3);
        }
      }
    }

    /** One pass of the main loop: what goes to the console, and to the real controller. */
    method TickUsb(s: Surroundings) returns (out: Output, toController: seq<octet>)
      requires Valid()
      modifies this
      ensures Valid() && ModeStep() && consoleType == Guess(build, old(consoleType), s)
      ensures out.Scripted? ==> frames == old(frames) + [out.frame]
      ensures !out.Scripted? ==> frames == old(frames) || (build.reboots && frames == [])
      ensures if build.reboots && consoleType != old(consoleType) then
                out == Nothing && toController == [] && xboxOneState == Announce
              else if !s.ready then
                out == Nothing && toController == [] && xboxOneState == old(xboxOneState)
              else
                && toController == old(dataFromConsole) && dataFromConsole == []
                && xboxOneState == (if consoleType == XboxOne then Ticked(old(xboxOneState))
                                    else if consoleType == WindowsXboxOne && old(xboxOneState) == Announce then Waiting1
                                    else old(xboxOneState))
                && out == (if consoleType == XboxOne && Emits(old(xboxOneState)) then
                             Scripted(SCRIPT[Sent(old(xboxOneState))])
                           else if consoleType == XboxOne && old(xboxOneState) == Auth
                                   && old(dataFromController) != [] then
                             Relayed(old(dataFromController))
                           else if consoleType == WindowsXboxOne && old(xboxOneState) == Announce then
                             Scripted(Announced)
                           else Inputs)
    {
      hide RelayKept, Descending;
      var before := consoleType;
      GuessSilentConsole(s);
      out, toController := Nothing, [];
      if build.reboots && consoleType != before {
        assert SCRIPT[..0] == [];
        return;
      }
      if !s.ready {
        return;
      }
      toController, dataFromConsole := dataFromConsole, [];
      if consoleType == XboxOne && xboxOneState != Ready {
        out := TickXboxOne();
      }
      if consoleType == WindowsXboxOne && xboxOneState == Announce {
        out := TickXboxOne();
        xboxOneState := Waiting1;
      }
      if out == Nothing {
        out := Inputs;
      }
    }

    /** The buttons held on a controller in the host port choose a mode; the first that changes
        it restarts the processor.
      */
    method DetectFromButtons(p: Buttons)
      requires Valid() && build.reboots
      modifies this
      ensures xboxOneState == if consoleType != old(consoleType) then Announce else old(xboxOneState)
      ensures Valid() && ModeStep()
      ensures consoleType == (if old(consoleType) != Universal then old(consoleType)
                              else if p.a && build.kind == GuitarOrDrums then WiiRb
                              else if p.b then Switch
                              else if p.x then Ps3
                              else if p.y then Ps4
                              else if p.start then Xbox360
                              else if p.back then XboxOne
                              else Universal)
    {
      hide RelayKept, Descending;
      if consoleType != Universal {
        return;
      }
      if build.kind == GuitarOrDrums && p.a {
        Become(WiiRb);
      } else if p.b {
        Become(Switch);
      } else if p.x {
        Become(Ps3);
      } else if p.y {
        Become(Ps4);
      } else if p.start {
        Become(Xbox360);
      } else if p.back {
        Become(XboxOne);
      }
    }

    /** A report of the real controller is offered to the console only while that authenticates
        it; one that still waits is replaced.
      */
    method ReceiveFromController(report: seq<octet>)
      requires Valid()
      modifies this`dataFromController, this`offered
      ensures Valid() && offered == old(offered) + (if xboxOneState == Auth then [report] else [])
      ensures dataFromController == if xboxOneState == Auth then report else old(dataFromController)
    {
      hide RelayKept, Descending;
      if xboxOneState != Auth {
        return;
      }
      Offered(relayed, dataFromController, offered, report);
      dataFromController := report;
      offered := offered + [report];
    }

    /** Any sequence of events: the modes descend, so there are at most three changes and no way
        back to the universal mode; the frames sent are a prefix of the script; a handshake
        that is ready has heard at least four reports, the last to move it being the success; and
        what is passed on of the real controller's reports follows the whole script and is
        among those offered, in order and none twice.  In the Xbox One mode, ticks and reports
        move the handshake as MovedBy says.
      */
    method Run(events: seq<Event>)
      requires Valid()
      modifies this
      ensures Valid() && old(modes) <= modes && |modes| <= 4
      ensures |modes| > 1 ==> consoleType != Universal
      ensures frames <= SCRIPT
      ensures xboxOneState == Ready ==> heard >= 4 && |moving| == 4 && Success(moving[3])
      ensures Among(relayed, offered) && (relayed != [] ==> frames == SCRIPT)
      ensures old(consoleType) == XboxOne && TicksAndReports(events) ==>
                consoleType == XboxOne && xboxOneState == MovedBy(old(xboxOneState), events)
    {
      hide RelayKept, Among, Descending;
      for i := 0 to |events|
        invariant Valid() && old(modes) <= modes
        invariant old(consoleType) == XboxOne && TicksAndReports(events) ==>
                    consoleType == XboxOne && xboxOneState == MovedBy(old(xboxOneState), events[..i])
      {
        assert events[..i + 1] == events[..i] + [events[i]];
        MovedByOneMore(old(xboxOneState), events[..i], events[i]);
        match events[i] {
          case Request(setup, payload) =>
            var valid := ControlRequestValid(setup);
            if valid && (CarriesReport(setup) ==> payload != []) {
              ControlRequest(setup, payload);
            }
          case Report(data, reportId) =>
            if data != [] {
              HidSetReport(data, reportId);
            }
          case Tick(around) =>
            var _, _ := TickUsb(around);
          case Pressed(buttons) =>
            if build.reboots {
              DetectFromButtons(buttons);
            }
          case FromController(report) =>
            ReceiveFromController(report);
          case Mounted =>
            DeviceReset();
        }
      }
      assert events[..|events|] == events;
      DetectionEnds(modes);
      RelayedAmong(relayed, dataFromController, offered);
      if offered == [] {
        NothingAmongNone(relayed);
      }
    }
  }
}
