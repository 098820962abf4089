/** The handshake of an authenticated controller: buffers that persist between the packets
    of one console session, and what each packet does to them.
  */
module Xsm3 {
  import opened Bits
  import opened Memory
  import opened Usbdsec
  import opened ExcryptParve
  import Sha1Standard
  import ExcryptSha

  const KEY_1D: key16 := [
    0xE3, 0x5B, 0xFB, 0x1C, 0xCD, 0xAD, 0x32, 0x5B, 0xF7, 0x0E, 0x07, 0xFD, 0x62, 0x3D, 0xA7, 0xC4
  ]
  const KEY_1E: key16 := [
    0x8F, 0x29, 0x08, 0x38, 0x0B, 0x5B, 0xFE, 0x68, 0x7C, 0x26, 0x46, 0x2A, 0x51, 0xF2, 0xBC, 0x19
  ]
  // ---------- Checksums ----------

  function XorAll(s: seq<byte>): byte {
    if s == [] then 0 else XorAll(s[..|s| - 1]) ^ s[|s| - 1]
  }

  /** Where a packet's checksum is: after the header and the number of bytes the header
      gives, in eight-bit arithmetic.
    */
  function ChecksumAt(packet: seq<byte>): nat
    requires |packet| >= 5
  {
    (packet[4] as nat + 5) % 256
  }

  /** The checksum and all bytes it covers are within the buffer. */
  predicate Holds(packet: seq<byte>) {
    |packet| >= 5 && ChecksumAt(packet) < |packet|
  }

  function Checksum(packet: seq<byte>): byte
    requires Holds(packet)
  {
    var end := ChecksumAt(packet);
    if end <= 5 then 0 else XorAll(packet[5..end])
  }

  predicate ChecksumMatches(packet: seq<byte>)
    requires Holds(packet)
  {
    Checksum(packet) == packet[ChecksumAt(packet)]
  }

  /** The checksum is right of a packet and the memory behind it. */
  predicate ChecksumFound(packet: seq<byte>, behind: seq<byte>)
    requires |packet| + |behind| >= 0x100
  {
    hide ChecksumMatches;
    ChecksumMatches(packet + behind)
  }

  /** For a packet as long as its header says, what lies behind it does not matter. */
  lemma OwnChecksum(packet: seq<byte>, behind: seq<byte>)
    requires Holds(packet) && |packet| + |behind| >= 0x100
    ensures ChecksumFound(packet, behind) <==> ChecksumMatches(packet)
  {
    hide XorAll;
    var end := ChecksumAt(packet);
    if end > 5 {
      assert (packet + behind)[5..end] == packet[5..end];
    }
  }

  lemma XorNext(packet: seq<byte>, i: nat)
    requires 5 <= i < |packet|
    ensures XorAll(packet[5..i + 1]) == XorAll(packet[5..i]) ^ packet[i]
  {
    assert packet[5..i + 1][..i - 5] == packet[5..i];
  }

  method CalculateChecksum(packet: seq<byte>) returns (checksum: byte)
    requires Holds(packet)
    ensures checksum == Checksum(packet)
  {
    hide XorAll;
    NoBytes();
    assert packet[5..5] == [];
    var packetLength := ChecksumAt(packet);
    checksum := 0;
    var i := 5;
    while i < packetLength
      invariant 5 <= i <= |packet| && (i <= packetLength || i == 5)
      invariant checksum == XorAll(packet[5..i])
    {
      XorNext(packet, i);
      checksum := checksum ^ packet[i];
      i := i + 1;
    }
  }

  method VerifyChecksum(packet: seq<byte>) returns (matches: bool)
    requires Holds(packet)
    ensures matches <==> ChecksumMatches(packet)
  {
    var checksum := CalculateChecksum(packet);
    matches := checksum == packet[ChecksumAt(packet)];
  }

  // ---------- The state and what packets do to it ----------

  /** The buffer that lies directly behind the response in memory, if one of these does. */
  datatype Neighbour =
    | NoBuffer | ConsoleId | KvKey1 | KvKey2 | DecryptionBuffer | IdentificationData | RandomConsole | RandomConsoleEnc
    | RandomConsoleSwap | RandomConsoleSwapEnc | RandomController | InitHash

  /** The contents of the buffers that persist between packets, and where the response lies. */
  datatype State = State(
    response: seq<byte>,
    consoleId: seq<byte>,
    kvKey1: seq<byte>,
    kvKey2: seq<byte>,
    decryptionBuffer: seq<byte>,
    identificationData: seq<byte>,
    randomConsole: seq<byte>,
    randomConsoleEnc: seq<byte>,
    randomConsoleSwap: seq<byte>,
    randomConsoleSwapEnc: seq<byte>,
    randomController: seq<byte>,
    initHash: seq<byte>,
    neighbour: Neighbour)
  {
    predicate Shaped() {
      && |response| == 0x30 && |consoleId| == 8 && |kvKey1| == |kvKey2| == 0x10
      && |decryptionBuffer| == 0x30 && |identificationData| == 0x20
      && |randomConsole| == |randomConsoleEnc| == |randomConsoleSwap| == |randomConsoleSwapEnc| == 0x10
      && |randomController| == 0x10 && |initHash| == 0x14
    }
  }

  /** The byte behind the response, which is the first byte of its neighbour, becomes b. */
  function WithBehind(s: State, b: byte): (t: State)
    requires s.Shaped()
    ensures t.Shaped()
  {
    match s.neighbour
    case NoBuffer => s
    case ConsoleId => s.(consoleId := s.consoleId[0 := b])
    case KvKey1 => s.(kvKey1 := s.kvKey1[0 := b])
    case KvKey2 => s.(kvKey2 := s.kvKey2[0 := b])
    case DecryptionBuffer => s.(decryptionBuffer := s.decryptionBuffer[0 := b])
    case IdentificationData => s.(identificationData := s.identificationData[0 := b])
    case RandomConsole => s.(randomConsole := s.randomConsole[0 := b])
    case RandomConsoleEnc => s.(randomConsoleEnc := s.randomConsoleEnc[0 := b])
    case RandomConsoleSwap => s.(randomConsoleSwap := s.randomConsoleSwap[0 := b])
    case RandomConsoleSwapEnc => s.(randomConsoleSwapEnc := s.randomConsoleSwapEnc[0 := b])
    case RandomController => s.(randomController := s.randomController[0 := b])
    case InitHash => s.(initHash := s.initHash[0 := b])
  }

  /** The ACR of a challenge init response is written so close to its end that the last of the
      zeros behind it is not in it any more; that of a verify response is made elsewhere.
    */
  lemma AcrOverruns()
    ensures Writes(0x25, 0x30) && forall i: nat :: Writes(0x25, i) ==> i < 0x31
    ensures forall i: nat :: Writes(0, i) ==> i < 0x30
  {
    CopiesFit(0x31, 0x25);
    CopiesFit(0x30, 0);
  }

  function Length(n: nat): byte
    requires n < 256
  {
    n as byte
  }

  /** A response before its checksum is written: header, contents, and zeros to the end of the buffer. */
  function Unsealed(contents: seq<byte>): (r: seq<byte>)
    requires |contents| <= 0x2A
    ensures |r| == 0x30
  {
    [0x49, 0x4C, 0, 0, Length(|contents|)] + contents + ZeroBytes(0x2B - |contents|)
  }

  /** A response: the checksum follows the contents. */
  function Packet(contents: seq<byte>): (r: seq<byte>)
    requires |contents| <= 0x2A
    ensures |r| == 0x30
  {
    Unsealed(contents)[5 + |contents| := XorAll(contents)]
  }

  /** The decrypted challenge is kept: sixteen random bytes, then the console's id. */
  ghost function AfterRead(s: State, packet: seq<byte>): (s': State)
    requires s.Shaped() && |packet| >= 0x22
    ensures s'.Shaped()
  {
    hide Crypt, KEY_1D;
    var d := Crypt(KEY_1D, packet[5..0x1D], false);
    s.(decryptionBuffer := d + s.decryptionBuffer[0x18..], randomConsole := d[..0x10], consoleId := d[0x10..])
  }

  /** The last four bytes of the MAC follow the encrypted part. */
  ghost predicate InitMacMatches(packet: seq<byte>)
    requires |packet| >= 0x22
  {
    hide Mac, KEY_1E;
    Mac(KEY_1E, packet[5..0x1D])[4..] == packet[0x1D..0x21]
  }

  /** Session keys: the random value, and its halves exchanged, under the two stored keys. */
  ghost function AfterDerive(s: State): (s': State)
    requires s.Shaped()
    ensures s'.Shaped()
  {
    hide Crypt;
    s.(randomConsoleSwap := Swapped(s.randomConsole),
       randomConsoleEnc := Crypt(s.kvKey1, s.randomConsole, true),
       randomConsoleSwapEnc := Crypt(s.kvKey2, Swapped(s.randomConsole), true))
  }

  /** The ACR value that answers a challenge. */
  ghost function AcrOfMac(s: State, sealed: seq<byte>): block8
    requires s.Shaped()
  {
    hide Mac, Acr;
    Acr(s.consoleId, s.identificationData, Mac(s.randomConsoleSwapEnc, sealed))
  }

  /** The contents of a challenge init response. */
  ghost function InitContents(s: State, plain: seq<byte>): (r: seq<byte>)
    requires s.Shaped() && |plain| == 0x20
    ensures |r| == 0x28
  {
    hide Crypt, AcrOfMac;
    var sealed := Crypt(s.randomConsoleEnc, plain, true);
    sealed + AcrOfMac(s, sealed)
  }

  /** The zeros behind the ACR reach the neighbour before the response is complete. */
  ghost function AfterAnswer(s: State, random: key16): (s': State)
    requires s.Shaped()
    ensures s'.Shaped()
  {
    hide Answered;
    WithBehind(Answered(s, random), 0)
  }

  /** The response and what is kept of it. */
  ghost function Answered(s: State, random: key16): (s': State)
    requires s.Shaped()
    ensures s'.Shaped()
  {
    hide InitContents, Packet, Sha1Standard.Sha1;
    var plain := random + s.randomConsole;
    s.(randomController := random,
       decryptionBuffer := plain + ZeroBytes(0x10),
       initHash := Sha1Standard.Sha1(plain),
       response := Packet(InitContents(s, plain)))
  }

  /** The random value is overwritten by what both sides will count from. */
  function AfterMixing(s: State): (s': State)
    requires s.Shaped()
    ensures s'.Shaped()
  {
    s.(randomConsole := s.randomController[0xC..] + s.randomConsole[0xC..] + s.randomConsole[8..])
  }

  /** Challenge init, with the controller's 16 random bytes. */
  ghost function AfterInit(s: State, packet: seq<byte>, random: key16): (s': State)
    requires s.Shaped() && |packet| >= 0x22
    ensures s'.Shaped()
  {
    hide AfterRead, AfterDerive, AfterAnswer, AfterMixing;
    AfterMixing(AfterAnswer(AfterDerive(AfterRead(s, packet)), random))
  }

  /** The halves of a 16-byte value exchanged. */
  function Swapped(r: key16): key16 {
    r[8..] + r[..8]
  }

  /** The nonce is decrypted over the second half of the console's random value. */
  ghost function AfterNonce(s: State, packet: seq<byte>): (s': State)
    requires s.Shaped() && |packet| >= 0x16
    ensures s'.Shaped()
  {
    hide Crypt;
    var nonce := Crypt(s.randomController, packet[5..0xD], false);
    s.(randomConsole := s.randomConsole[..8] + nonce, decryptionBuffer := nonce + s.decryptionBuffer[8..])
  }

  /** A salted MAC steps the salt, the first half of that value. */
  function AfterStep(s: State): (s': State)
    requires s.Shaped()
    ensures s'.Shaped()
  {
    hide NextSalt;
    s.(randomConsole := NextSalt(s.randomConsole[..8]) + s.randomConsole[8..])
  }

  ghost predicate VerifyMacMatches(s: State, packet: seq<byte>)
    requires s.Shaped() && |packet| >= 0x16
  {
    hide Mac, NextSalt;
    Mac(s.initHash[..0x10], NextSalt(s.randomConsole[..8]) + packet[5..0xD]) == packet[0xD..0x15]
  }

  /** The answer to a nonce. */
  function AcrOf(s: State): block8
    requires s.Shaped()
  {
    hide Acr;
    Acr(s.consoleId, s.identificationData, s.randomConsole[8..])
  }

  ghost function SealedAcr(s: State): block8
    requires s.Shaped()
  {
    hide Crypt, AcrOf;
    Crypt(s.randomConsoleEnc, AcrOf(s), true)
  }

  ghost function SaltedMac(s: State, m: seq<byte>): block8
    requires s.Shaped()
  {
    hide Mac, NextSalt;
    Mac(s.randomConsoleSwapEnc, NextSalt(s.randomConsole[..8]) + m)
  }

  /** The encrypted answer to the nonce, and its MAC with the salt stepped again. */
  ghost function VerifyContents(s: State): (r: seq<byte>)
    requires s.Shaped()
    ensures |r| == 0x10
  {
    hide SealedAcr, SaltedMac;
    SealedAcr(s) + SaltedMac(s, SealedAcr(s))
  }

  ghost function AfterReply(s: State): (s': State)
    requires s.Shaped()
    ensures s'.Shaped()
  {
    hide VerifyContents, AcrOf, AfterStep, Packet;
    AfterStep(s).(decryptionBuffer := AcrOf(s) + ZeroBytes(0x28), response := Packet(VerifyContents(s)))
  }

  /** Challenge verify: one step of the salt to check the packet, one to answer it. */
  ghost function AfterVerify(s: State, packet: seq<byte>): (s': State)
    requires s.Shaped() && |packet| >= 0x16
    ensures s'.Shaped()
  {
    hide AfterNonce, AfterStep, AfterReply;
    AfterReply(AfterStep(AfterNonce(s, packet)))
  }

  /** Contents that are written in two pieces, one behind the other. */
  lemma Filled(a: seq<byte>, b: seq<byte>)
    requires |a| + |b| <= 0x2A
    ensures Spliced([0x49, 0x4C, 0, 0, Length(|a| + |b|)] + a + ZeroBytes(0x2B - |a|), 5 + |a|, b) == Unsealed(a + b)
  {
    hide Length, ZeroBytes;
    ZerosEnd(0x2B - |a|, |b|);
    var h := [0x49, 0x4C, 0, 0, Length(|a| + |b|)];
    Behind(h + a, ZeroBytes(0x2B - |a|), b);
    assert h + a + b == h + (a + b);
  }

  lemma Dropped(s: seq<byte>, i: nat, j: nat)
    requires i + j <= |s|
    ensures s[i..][j..] == s[i + j..]
  {
  }

  lemma SplicedFront(s: seq<byte>, b: seq<byte>)
    requires |b| <= |s|
    ensures Spliced(s, 0, b) == b + s[|b|..]
  {
  }

  lemma Behind(a: seq<byte>, z: seq<byte>, b: seq<byte>)
    requires |b| <= |z|
    ensures Spliced(a + z, |a|, b) == a + b + z[|b|..]
  {
  }

  lemma UnsealedAt(contents: seq<byte>)
    requires |contents| <= 0x2A
    ensures ChecksumAt(Unsealed(contents)) == 5 + |contents|
  {
    hide Length, ZeroBytes;
    ByteLength(|contents|);
    assert Unsealed(contents)[4] == Length(|contents|);
  }

  lemma UnsealedChecksum(contents: seq<byte>)
    requires |contents| <= 0x2A
    ensures ChecksumAt(Unsealed(contents)) == 5 + |contents|
    ensures Checksum(Unsealed(contents)) == XorAll(contents)
  {
    hide XorAll, Length, ZeroBytes, ChecksumAt;
    UnsealedAt(contents);
    Middle([0x49, 0x4C, 0, 0, Length(|contents|)], contents, ZeroBytes(0x2B - |contents|));
    NoBytes();
  }

  lemma NoBytes()
    ensures XorAll([]) == 0
  {
  }

  lemma Middle(a: seq<byte>, b: seq<byte>, c: seq<byte>)
    ensures (a + b + c)[|a|..|a| + |b|] == b
  {
  }

  lemma ByteLength(n: nat)
    requires n < 256
    ensures Length(n) as nat == n
  {
    Position(n);
  }

  /** Every response passes the checksum test that the other side makes. */
  lemma PacketMatches(contents: seq<byte>)
    requires |contents| <= 0x2A
    ensures Holds(Packet(contents)) && ChecksumMatches(Packet(contents))
    ensures Packet(contents)[5..5 + |contents|] == contents
  {
    hide XorAll, Length, ZeroBytes, ChecksumAt;
    UnsealedAt(contents);
    var u, p := Unsealed(contents), Packet(contents);
    assert p[..5] == u[..5];
    SameHeader(u, p);
    assert p == u[..5] + contents + p[5 + |contents|..];
    Middle(u[..5], contents, p[5 + |contents|..]);
    NoBytes();
  }

  lemma SameHeader(a: seq<byte>, b: seq<byte>)
    requires |a| >= 5 && |b| >= 5 && a[..5] == b[..5]
    ensures ChecksumAt(a) == ChecksumAt(b)
  {
    assert a[4] == a[..5][4];
  }

  lemma ZerosEnd(n: nat, k: nat)
    requires k <= n
    ensures ZeroBytes(n)[k..] == ZeroBytes(n - k)
  {
  }

  lemma SameContents(s: State, t: State, plain: seq<byte>)
    requires s.Shaped() && t.Shaped() && |plain| == 0x20
    requires t.randomConsoleEnc == s.randomConsoleEnc && t.randomConsoleSwapEnc == s.randomConsoleSwapEnc
    requires t.consoleId == s.consoleId && t.identificationData == s.identificationData
    ensures forall sealed :: AcrOfMac(t, sealed) == AcrOfMac(s, sealed)
    ensures InitContents(t, plain) == InitContents(s, plain)
  {
    hide Crypt, Mac, Acr;
  }

  /** The ACR and the zeros behind it fill the response and the one byte behind that. */
  lemma AcrFills(sealed: seq<byte>, acr: block8, x: byte)
    requires |sealed| == 0x20
    ensures var r := [0x49, 0x4C, 0, 0, 0x28] + sealed + ZeroBytes(0xB) + [x];
            Spliced(r, 0x25, acr + ZeroBytes(4)) == Unsealed(sealed + acr) + [0]
  {
    hide Length, ZeroBytes;
    assert Length(0x28) == 0x28 by {
      TwentyEight();
    }
    ZerosEnd(4, 1);
    FourZeros();
    var h, z := [0x49, 0x4C, 0, 0, 0x28] + sealed, ZeroBytes(0xB) + [x];
    assert h + ZeroBytes(0xB) + [x] == h + z;
    Behind(h, z, acr + ZeroBytes(4));
    assert h + (acr + (ZeroBytes(3) + [0])) + [] == [0x49, 0x4C, 0, 0, 0x28] + (sealed + acr) + ZeroBytes(3) + [0];
  }

  lemma AcrInZeros(acr: block8)
    ensures Spliced(ZeroBytes(0x30), 0, acr + ZeroBytes(4)) == acr + ZeroBytes(0x28)
  {
  }

  lemma TwentyEight()
    ensures Length(0x28) == 0x28
  {
  }

  lemma FourZeros()
    ensures ZeroBytes(4) == ZeroBytes(3) + [0]
  {
  }

  lemma BehindOther(s: State, x: seq<byte>, b: byte)
    requires s.Shaped() && |x| == 0x30
    ensures WithBehind(s, b).(response := x) == WithBehind(s.(response := x), b)
  {
    hide State.Shaped;
  }

  lemma SameAnswer(s: State, t: State)
    requires s.Shaped() && t == s.(response := t.response, decryptionBuffer := t.decryptionBuffer) && t.Shaped()
    ensures AcrOf(t) == AcrOf(s) && SealedAcr(t) == SealedAcr(s)
    ensures forall m :: SaltedMac(t, m) == SaltedMac(s, m)
  {
    hide Crypt, Mac, Acr, NextSalt;
  }

  // ---------- The identification data ----------

  /** The identification data of a controller with the given serial number. */
  function WithSerial(idData: seq<byte>, serial: seq<byte>): (r: seq<byte>)
    requires |idData| == 0x1D && |serial| == 0xB && Holds(idData)
    ensures |r| == 0x1D
  {
    var d := Spliced(idData, 6, serial);
    d[0x1C := XorAll(d[5..0x1C])]
  }

  lemma WithSerialMatches(idData: seq<byte>, serial: seq<byte>)
    requires |idData| == 0x1D && |serial| == 0xB && idData[4] == 0x17
    ensures Holds(idData) && ChecksumMatches(WithSerial(idData, serial))
    ensures WithSerial(idData, serial)[6..0x11] == serial
  {
    hide XorAll;
    var d, r := Spliced(idData, 6, serial), WithSerial(idData, serial);
    assert r[5..0x1C] == d[5..0x1C];
  }

  method SetSerial(idData: array<byte>, serial: seq<byte>)
    requires idData.Length == 0x1D && |serial| == 0xB && idData[4] == 0x17
    modifies idData
    ensures Holds(old(idData[..])) && idData[..] == WithSerial(old(idData[..]), serial)
  {
    hide XorAll;
    Put(idData, 6, serial);
    var checksum := CalculateChecksum(idData[..]);
    idData[0x1C] := checksum;
  }

  /** The fields of the identification data that the answers are made from. */
  function Identification(before: seq<byte>, idData: seq<byte>): (r: seq<byte>)
    requires |before| == 0x20 && |idData| >= 0x1D
    ensures |r| == 0x20
  {
    idData[5..0x14] + before[0xF..0x10] + idData[0x14..0x16] + idData[0x16..0x18] + idData[0x18..0x19] +
    idData[0x1B..0x1C] + idData[0x19..0x1B] + before[0x18..]
  }

  /** Where each field comes from: serial number, category, vendor, product, revision and the
      two values behind it, of which the last comes first.
    */
  lemma IdentificationFields(before: seq<byte>, idData: seq<byte>)
    requires |before| == 0x20 && |idData| >= 0x1D
    ensures var r := Identification(before, idData);
            && r[..0xF] == idData[5..0x14] && r[0xF] == before[0xF] && r[0x18..] == before[0x18..]
            && r[0x10] == idData[0x14] && r[0x11] == idData[0x15] && r[0x12] == idData[0x16] && r[0x13] == idData[0x17]
            && r[0x14] == idData[0x18] && r[0x15] == idData[0x1B] && r[0x16] == idData[0x19] && r[0x17] == idData[0x1A]
  {
  }

  class Xsm3State {
    const response: array<byte>
    const decryptionBuffer: array<byte>
    const randomConsole: array<byte>
    const randomConsoleEnc: array<byte>
    const randomConsoleSwap: array<byte>
    const randomConsoleSwapEnc: array<byte>
    const neighbour: Neighbour
    var consoleId: seq<byte>
    var kvKey1: seq<byte>
    var kvKey2: seq<byte>
    var identificationData: seq<byte>
    var randomController: seq<byte>
    var initHash: seq<byte>

    ghost predicate Separate() {
      && response != decryptionBuffer && response != randomConsole && response != randomConsoleEnc
      && response != randomConsoleSwap && response != randomConsoleSwapEnc
      && decryptionBuffer != randomConsole && decryptionBuffer != randomConsoleEnc
      && decryptionBuffer != randomConsoleSwap && decryptionBuffer != randomConsoleSwapEnc
      && randomConsole != randomConsoleEnc && randomConsole != randomConsoleSwap
      && randomConsole != randomConsoleSwapEnc && randomConsoleEnc != randomConsoleSwap
      && randomConsoleEnc != randomConsoleSwapEnc && randomConsoleSwap != randomConsoleSwapEnc
    }

    ghost function Buffers(): set<object> {
      {response, decryptionBuffer, randomConsole, randomConsoleEnc, randomConsoleSwap, randomConsoleSwapEnc}
    }

    ghost function Contents(): State
      reads this, Buffers()
    {
      State(response[..], consoleId, kvKey1, kvKey2, decryptionBuffer[..], identificationData, randomConsole[..],
            randomConsoleEnc[..], randomConsoleSwap[..], randomConsoleSwapEnc[..], randomController, initHash,
            neighbour)
    }

    ghost predicate Valid()
      reads this, Buffers()
    {
      Separate() && Contents().Shaped()
    }

    /** All buffers zero, wherever the linker has put them. */
    constructor (layout: Neighbour)
      ensures Valid() && fresh(Buffers())
      ensures Contents() == State(ZeroBytes(0x30), ZeroBytes(8), ZeroBytes(0x10), ZeroBytes(0x10), ZeroBytes(0x30),
                                  ZeroBytes(0x20), ZeroBytes(0x10), ZeroBytes(0x10), ZeroBytes(0x10), ZeroBytes(0x10),
                                  ZeroBytes(0x10), ZeroBytes(0x14), layout)
    {
      response := new byte[0x30](_ => 0);
      decryptionBuffer := new byte[0x30](_ => 0);
      randomConsole := new byte[0x10](_ => 0);
      randomConsoleEnc := new byte[0x10](_ => 0);
      randomConsoleSwap := new byte[0x10](_ => 0);
      randomConsoleSwapEnc := new byte[0x10](_ => 0);
      neighbour := layout;
      consoleId, kvKey1, kvKey2 := ZeroBytes(8), ZeroBytes(0x10), ZeroBytes(0x10);
      identificationData, randomController, initHash := ZeroBytes(0x20), ZeroBytes(0x10), ZeroBytes(0x14);
    }

    /** Writes the byte behind the response. */
    method WriteBehind(b: byte)
      requires Valid()
      modifies this, Buffers()
      ensures Valid() && Contents() == WithBehind(old(Contents()), b)
    {
      match neighbour {
        case NoBuffer =>
        case ConsoleId => consoleId := consoleId[0 := b];
        case KvKey1 => kvKey1 := kvKey1[0 := b];
        case KvKey2 => kvKey2 := kvKey2[0 := b];
        case DecryptionBuffer => decryptionBuffer[0] := b;
        case IdentificationData => identificationData := identificationData[0 := b];
        case RandomConsole => randomConsole[0] := b;
        case RandomConsoleEnc => randomConsoleEnc[0] := b;
        case RandomConsoleSwap => randomConsoleSwap[0] := b;
        case RandomConsoleSwapEnc => randomConsoleSwapEnc[0] := b;
        case RandomController => randomController := randomController[0 := b];
        case InitHash => initHash := initHash[0 := b];
      }
    }

    /** A wrong checksum is reported, and the data still used. */
    method SetIdentificationData(idData: seq<byte>) returns (checksumMatches: bool)
      requires Valid() && |idData| >= 0x1D && Holds(idData)
      modifies this`identificationData
      ensures Valid()
      ensures Contents() == old(Contents()).(identificationData := Identification(old(identificationData), idData))
      ensures checksumMatches <==> ChecksumMatches(idData)
    {
      hide ChecksumMatches;
      checksumMatches := VerifyChecksum(idData);
      ghost var before, front := identificationData, idData[5..0x14] + identificationData[0xF..0x10];
      var id := identificationData;
      id := Spliced(id, 0, idData[5..0x14]);
      assert id == front + before[0x10..];
      hide Spliced;
      Behind(front, before[0x10..], idData[0x14..0x16]);
      id := Spliced(id, 0x10, idData[0x14..0x16]);
      Dropped(before, 0x10, 2);
      Behind(front + idData[0x14..0x16], before[0x12..], idData[0x16..0x18]);
      id := Spliced(id, 0x12, idData[0x16..0x18]);
      Dropped(before, 0x12, 2);
      Behind(front + idData[0x14..0x16] + idData[0x16..0x18], before[0x14..], idData[0x18..0x19]);
      id := Spliced(id, 0x14, idData[0x18..0x19]);
      Dropped(before, 0x14, 1);
      Behind(front + idData[0x14..0x16] + idData[0x16..0x18] + idData[0x18..0x19], before[0x15..], idData[0x1B..0x1C]);
      id := Spliced(id, 0x15, idData[0x1B..0x1C]);
      Dropped(before, 0x15, 1);
      Behind(front + idData[0x14..0x16] + idData[0x16..0x18] + idData[0x18..0x19] + idData[0x1B..0x1C], before[0x16..],
             idData[0x19..0x1B]);
      id := Spliced(id, 0x16, idData[0x19..0x1B]);
      Dropped(before, 0x16, 2);
      identificationData := id;
    }

    method ImportKvKeys(key1: key16, key2: key16)
      requires Valid()
      modifies this`kvKey1, this`kvKey2
      ensures Valid()
      ensures Contents() == old(Contents()).(kvKey1 := key1, kvKey2 := key2)
    {
      kvKey1, kvKey2 := key1, key2;
    }

    method Clear()
      requires Valid()
      modifies response, decryptionBuffer
      ensures Valid()
      ensures Contents() == old(Contents()).(response := ZeroBytes(0x30), decryptionBuffer := ZeroBytes(0x30))
    {
      Put(response, 0, ZeroBytes(0x30));
      Put(decryptionBuffer, 0, ZeroBytes(0x30));
    }

    method DeriveKeys()
      requires Valid()
      modifies randomConsoleSwap, randomConsoleEnc, randomConsoleSwapEnc
      ensures Valid()
      ensures Contents() == AfterDerive(old(Contents()))
    {
      hide Crypt;
      ghost var r := randomConsole[..];
      assert Contents().randomConsole == r;
      Put(randomConsoleSwap, 0, randomConsole[8..]);
      Put(randomConsoleSwap, 8, randomConsole[..8]);
      assert randomConsole[0..0x10] == r && randomConsoleSwap[0..0x10] == Swapped(r);
      AuthenticationCrypt(kvKey1, randomConsole, 0, 0x10, randomConsoleEnc, 0, true);
      assert randomConsoleSwap[0..0x10] == Swapped(r);
      AuthenticationCrypt(kvKey2, randomConsoleSwap, 0, 0x10, randomConsoleSwapEnc, 0, true);
      assert randomConsoleEnc[..] == Crypt(kvKey1, r, true);
      assert randomConsoleSwapEnc[..] == Crypt(kvKey2, Swapped(r), true);
    }

    /** Decrypts a challenge, and keeps its random value and console id. */
    method ReadChallenge(packet: array<byte>)
      requires Valid() && packet.Length >= 0x22 && packet !in Buffers()
      modifies decryptionBuffer, randomConsole, this`consoleId
      ensures Valid()
      ensures Contents() == AfterRead(old(Contents()), packet[..])
    {
      hide Crypt, KEY_1D;
      ghost var d := Crypt(KEY_1D, packet[5..0x1D], false);
      assert packet[..][5..0x1D] == packet[5..5 + 0x18] == packet[5..0x1D];
      AuthenticationCrypt(KEY_1D, packet, 5, 0x18, decryptionBuffer, 0, false);
      assert decryptionBuffer[..0x10] == d[..0x10] && decryptionBuffer[0x10..0x18] == d[0x10..];
      Put(randomConsole, 0, decryptionBuffer[..0x10]);
      consoleId := decryptionBuffer[0x10..0x18];
    }

    /** Compares the last four bytes of the MAC. */
    method CheckChallenge(packet: array<byte>) returns (macMatches: bool)
      requires packet.Length >= 0x22
      ensures macMatches <==> InitMacMatches(packet[..])
    {
      hide Mac, KEY_1E;
      var incoming := new byte[8];
      WholeBlock(0x18);
      ghost var p := packet[..];
      assert packet[5..5 + 0x18] == p[5..0x1D] && packet[0x1D..0x21] == p[0x1D..0x21];
      AuthenticationMac(KEY_1E, null, packet, 5, 0x18, incoming, 0);
      macMatches := incoming[4..] == packet[0x1D..0x21];
      assert packet[..] == p && packet[0x1D..0x21] == p[0x1D..0x21];
    }

    /** Clears the response, and starts one of n bytes. */
    method Begin(n: byte)
      requires Valid()
      modifies response, decryptionBuffer
      ensures Valid()
      ensures Contents() == old(Contents()).(
                response := [0x49, 0x4C, 0, 0, n] + ZeroBytes(0x2B), decryptionBuffer := ZeroBytes(0x30))
    {
      Clear();
      response[0] := 0x49;
      response[1] := 0x4C;
      response[4] := n;
    }

    /** Writes the checksum of a response. */
    method Seal(ghost contents: seq<byte>)
      requires Valid() && |contents| <= 0x2A && response[..] == Unsealed(contents)
      modifies response
      ensures Valid()
      ensures Contents() == old(Contents()).(response := Packet(contents))
    {
      hide XorAll, Unsealed;
      UnsealedChecksum(contents);
      var checksum := CalculateChecksum(response[..]);
      response[ChecksumAt(response[..])] := checksum;
    }

    /** The controller's and the console's random values, side by side, and their hash. */
    method Join16(random: key16)
      requires Valid()
      modifies decryptionBuffer, this`randomController, this`initHash
      ensures Valid()
      ensures var plain := random + old(randomConsole[..]);
              Contents() == old(Contents()).(randomController := random, initHash := Sha1Standard.Sha1(plain),
                decryptionBuffer := plain + old(decryptionBuffer[0x20..]))
    {
      hide Sha1Standard.Sha1, Sha1Standard.Absorb, Sha1Standard.Digest, ExcryptSha.AppendedPadding;
      randomController := random;
      ghost var plain := random + randomConsole[..];
      Put(decryptionBuffer, 0, random);
      Put(decryptionBuffer, 0x10, randomConsole[..]);
      initHash := ExcryptSha.Sha(decryptionBuffer[..0x20], [], []);
      assert decryptionBuffer[..0x20] + [] + [] == plain;
    }

    /** The encrypted part of the challenge init response. */
    method EncryptPlain()
      requires Valid() && response[..] == [0x49, 0x4C, 0, 0, 0x28] + ZeroBytes(0x2B)
      modifies response
      ensures Valid()
      ensures var s := old(Contents());
              Contents() == s.(response :=
                [0x49, 0x4C, 0, 0, 0x28] + Crypt(s.randomConsoleEnc, s.decryptionBuffer[..0x20], true) + ZeroBytes(0xB))
    {
      hide Crypt, ZeroBytes;
      ghost var plain := decryptionBuffer[..0x20];
      assert decryptionBuffer[0..0x20] == plain == Contents().decryptionBuffer[..0x20];
      ZerosEnd(0x2B, 0x20);
      AuthenticationCrypt(randomConsoleEnc[..], decryptionBuffer, 0, 0x20, response, 5, true);
    }

    /** The MAC of that, and the ACR made from the MAC.  Where it is written, memory is the
        response and the byte behind it, which is overwritten unread.
      */
    method AppendAcr(ghost sealed: seq<byte>)
      requires Valid() && |sealed| == 0x20 && response[..] == [0x49, 0x4C, 0, 0, 0x28] + sealed + ZeroBytes(0xB)
      modifies this, Buffers()
      ensures Valid()
      ensures var s := old(Contents());
              Contents() == WithBehind(s.(response := Unsealed(sealed + AcrOfMac(s, sealed))), 0)
    {
      hide Mac, Acr, ZeroBytes, Unsealed, Spliced, WithBehind;
      ghost var s := Contents();
      var memory := new byte[0x31];
      MacAndAcr(memory, sealed);
      ghost var acr := AcrOfMac(s, sealed);
      assert memory[..] == Unsealed(sealed + acr) + [0];
      SplicedAll(response[..], memory[..0x30]);
      Put(response, 0, memory[..0x30]);
      assert Contents() == s.(response := Unsealed(sealed + acr));
      WriteBehind(memory[0x30]);
    }

    method MacAndAcr(memory: array<byte>, ghost sealed: seq<byte>)
      requires Valid() && |sealed| == 0x20 && response[..] == [0x49, 0x4C, 0, 0, 0x28] + sealed + ZeroBytes(0xB)
      requires memory.Length == 0x31 && memory !in Buffers()
      modifies memory
      ensures memory[..] == Unsealed(sealed + AcrOfMac(Contents(), sealed)) + [0]
    {
      hide Mac, Acr, ZeroBytes, Unsealed, Spliced;
      ghost var s := Contents();
      var mac := new byte[8];
      SplicedAll(mac[..], Mac(s.randomConsoleSwapEnc, sealed));
      WholeBlock(0x20);
      assert response[5..5 + 0x20] == sealed;
      AuthenticationMac(randomConsoleSwapEnc[..], null, response, 5, 0x20, mac, 0);
      SplicedFront(memory[..], response[..]);
      Put(memory, 0, response[..]);
      AcrFills(sealed, AcrOfMac(s, sealed), memory[0x30]);
      assert memory[..] == response[..] + [memory[0x30]];
      AuthenticationAcr(consoleId, identificationData, mac[..], memory, 0x25);
    }

    /** The challenge init response, once the keys are there. */
    method AnswerInit(random: key16)
      requires Valid()
      modifies this, Buffers()
      ensures Valid()
      ensures Contents() == AfterAnswer(old(Contents()), random)
    {
      hide XorAll, Sha1Standard.Sha1, Packet, ZeroBytes, Crypt, AcrOfMac, WithBehind;
      ghost var before := Contents();
      Begin(0x28);
      ghost var plain := random + before.randomConsole;
      ZerosEnd(0x30, 0x20);
      Join16(random);
      assert decryptionBuffer[..0x20] == plain;
      ghost var s := Contents();
      EncryptPlain();
      SameContents(before, s, plain);
      SameContents(before, Contents(), plain);
      AppendAcr(Crypt(s.randomConsoleEnc, plain, true));
      ghost var contents := InitContents(before, plain);
      BehindOther(s.(response := Unsealed(contents)), Unsealed(contents), 0);
      BehindOther(s.(response := Unsealed(contents)), Packet(contents), 0);
      Seal(contents);
      assert s.(response := Packet(contents)) == Answered(before, random);
    }

    /** Eight bytes of the console's random value become the first salt. */
    method MixRandom()
      requires Valid()
      modifies randomConsole
      ensures Valid() && Contents() == AfterMixing(old(Contents()))
    {
      ghost var r, c := randomConsole[..], randomController;
      Put(randomConsole, 0, randomController[0xC..]);
      assert randomConsole[..] == c[0xC..] + r[4..];
      assert randomConsole[0xC..] == r[0xC..];
      Put(randomConsole, 4, randomConsole[0xC..]);
      assert randomConsole[..] == c[0xC..] + r[0xC..] + r[8..];
    }

    /** Challenge init.  A wrong checksum or MAC is reported, and the packet still processed.  The
        length in the header is not looked at before the checksum reads that far, into the
        memory behind the packet if need be.
      */
    method DoChallengeInit(packet: array<byte>, behind: seq<byte>, random: key16)
      returns (checksumMatches: bool, macMatches: bool)
      requires Valid() && packet.Length >= 0x22 && packet.Length + |behind| >= 0x100 && packet !in Buffers()
      modifies this, Buffers()
      ensures Valid()
      ensures Contents() == AfterInit(old(Contents()), packet[..], random)
      ensures checksumMatches <==> ChecksumFound(packet[..], behind)
      ensures macMatches <==> InitMacMatches(packet[..])
    {
      hide AfterRead, AfterDerive, AfterAnswer, AfterMixing, InitMacMatches, ChecksumMatches, Spliced;
      ghost var p, s := packet[..], Contents();
      checksumMatches := VerifyChecksum(packet[..] + behind);
      ReadChallenge(packet);
      assert packet[..] == p;
      macMatches := CheckChallenge(packet);
      assert Contents() == AfterRead(s, p);
      DeriveKeys();
      AnswerInit(random);
      assert Contents() == AfterAnswer(AfterDerive(AfterRead(s, p)), random);
      MixRandom();
      assert packet[..] == p;
    }

    /** Decrypts the nonce over the second half of the console's random value. */
    method ReadNonce(packet: array<byte>)
      requires Valid() && packet.Length >= 0x16 && packet !in Buffers()
      modifies decryptionBuffer, randomConsole
      ensures Valid()
      ensures Contents() == AfterNonce(old(Contents()), packet[..])
    {
      hide Crypt;
      ghost var p := packet[..];
      ghost var nonce := Crypt(randomController, p[5..0xD], false);
      assert packet[5..5 + 8] == p[5..0xD];
      AuthenticationCrypt(randomController, packet, 5, 8, decryptionBuffer, 0, false);
      assert decryptionBuffer[..8] == nonce;
      Put(randomConsole, 8, decryptionBuffer[..8]);
    }

    /** Steps the salt, and compares the packet's MAC. */
    method CheckVerify(packet: array<byte>) returns (macMatches: bool)
      requires Valid() && packet.Length >= 0x16 && packet !in Buffers()
      modifies randomConsole
      ensures Valid()
      ensures Contents() == AfterStep(old(Contents()))
      ensures macMatches <==> VerifyMacMatches(old(Contents()), packet[..])
    {
      hide Crypt, Mac, NextSalt, Load, Store, Swap64, Spliced;
      ghost var p, s := packet[..], Contents();
      SplicedFront(s.randomConsole, NextSalt(s.randomConsole[..8]));
      assert packet[5..5 + 8] == p[5..0xD];
      assert randomConsole[..8] == s.randomConsole[..8];
      var incoming := new byte[8];
      WholeBlock(8);
      ghost var expected := Mac(s.initHash[..0x10], NextSalt(s.randomConsole[..8]) + p[5..0xD]);
      SplicedAll(incoming[..], expected);
      AuthenticationMac(initHash[..0x10], randomConsole, packet, 5, 8, incoming, 0);
      assert incoming[..] == expected;
      macMatches := incoming[..] == packet[0xD..0x15];
      assert packet[..] == p && packet[0xD..0x15] == p[0xD..0x15];
    }

    /** The encrypted ACR of the nonce. */
    method EncryptAcr()
      requires Valid() && response[..] == [0x49, 0x4C, 0, 0, 0x10] + ZeroBytes(0x2B)
      requires decryptionBuffer[..] == ZeroBytes(0x30)
      modifies response, decryptionBuffer
      ensures Valid()
      ensures Contents() == old(Contents()).(
                decryptionBuffer := AcrOf(old(Contents())) + ZeroBytes(0x28),
                response := [0x49, 0x4C, 0, 0, 0x10] + SealedAcr(old(Contents())) + ZeroBytes(0x23))
    {
      hide Crypt, Acr, ZeroBytes;
      ghost var s := Contents();
      ghost var acr := AcrOf(s);
      AcrInZeros(acr);
      ZerosEnd(0x2B, 8);
      AuthenticationAcr(consoleId, identificationData, randomConsole[8..], decryptionBuffer, 0);
      assert decryptionBuffer[0..8] == acr;
      AuthenticationCrypt(randomConsoleEnc[..], decryptionBuffer, 0, 8, response, 5, true);
    }

    /** The MAC of the encrypted ACR under the next salt, written right after it. */
    method AppendMac(ghost sealed: block8)
      requires Valid() && response[..] == [0x49, 0x4C, 0, 0, 0x10] + sealed + ZeroBytes(0x23)
      modifies response, randomConsole
      ensures Valid()
      ensures Contents() == AfterStep(old(Contents())).(
                response := Unsealed(sealed + SaltedMac(old(Contents()), sealed)))
    {
      hide Mac, NextSalt, ZeroBytes, Load, Store, Swap64, Spliced, Unsealed;
      ghost var s := Contents();
      Filled(sealed, SaltedMac(s, sealed));
      SplicedFront(s.randomConsole, NextSalt(s.randomConsole[..8]));
      assert Length(0x10) == 0x10;
      WholeBlock(8);
      assert response[5..5 + 8] == sealed;
      assert randomConsole[..8] == s.randomConsole[..8];
      AuthenticationMac(randomConsoleSwapEnc[..], randomConsole, response, 5, 8, response, 0xD);
    }

    method AnswerVerify()
      requires Valid()
      modifies response, decryptionBuffer, randomConsole
      ensures Valid()
      ensures Contents() == AfterReply(old(Contents()))
    {
      hide SealedAcr, AcrOf, SaltedMac, XorAll, Packet, ZeroBytes, NextSalt;
      ghost var before := Contents();
      Begin(0x10);
      SameAnswer(before, Contents());
      EncryptAcr();
      SameAnswer(before, Contents());
      AppendMac(SealedAcr(before));
      Seal(VerifyContents(before));
    }

    /** Challenge verify, with the same checks. */
    method DoChallengeVerify(packet: array<byte>, behind: seq<byte>) returns (checksumMatches: bool, macMatches: bool)
      requires Valid() && packet.Length >= 0x16 && packet.Length + |behind| >= 0x100 && packet !in Buffers()
      modifies response, decryptionBuffer, randomConsole
      ensures Valid()
      ensures Contents() == AfterVerify(old(Contents()), packet[..])
      ensures checksumMatches <==> ChecksumFound(packet[..], behind)
      ensures macMatches <==> VerifyMacMatches(AfterNonce(old(Contents()), packet[..]), packet[..])
    {
      hide AfterNonce, AfterStep, AfterReply, VerifyMacMatches, ChecksumMatches;
      ghost var p, s := packet[..], Contents();
      checksumMatches := VerifyChecksum(packet[..] + behind);
      ReadNonce(packet);
      assert packet[..] == p;
      macMatches := CheckVerify(packet);
      assert Contents() == AfterStep(AfterNonce(s, p));
      AnswerVerify();
      assert packet[..] == p;
    }
  }
}
