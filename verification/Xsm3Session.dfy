/** Whole sessions: what the controller and a console that follows the protocol agree on,
    and the salts that are used whatever packets arrive.
  */
module Xsm3Session {
  import opened Bits
  import opened Memory
  import opened Usbdsec
  import opened Xsm3
  import opened SaltCounter
  import Sha1Standard

  // ---------- An honest console ----------

  function ConsolePacket(lead: seq<byte>, contents: seq<byte>): (r: seq<byte>)
    requires |lead| == 4 && |contents| <= 0xFA
    ensures |r| == |contents| + 6
  {
    lead + [Length(|contents|)] + contents + [XorAll(contents)]
  }

  lemma ConsolePacketMatches(lead: seq<byte>, contents: seq<byte>)
    requires |lead| == 4 && |contents| <= 0xFA
    ensures var p := ConsolePacket(lead, contents);
            Holds(p) && ChecksumMatches(p) && p[5..5 + |contents|] == contents
  {
    hide XorAll, Length, ChecksumAt;
    var p := ConsolePacket(lead, contents);
    ConsolePacketAt(lead, contents);
    Middle(lead + [Length(|contents|)], contents, [XorAll(contents)]);
    NoBytes();
  }

  lemma ConsolePacketAt(lead: seq<byte>, contents: seq<byte>)
    requires |lead| == 4 && |contents| <= 0xFA
    ensures ChecksumAt(ConsolePacket(lead, contents)) == 5 + |contents|
  {
    hide XorAll, Length;
    ByteLength(|contents|);
    assert ConsolePacket(lead, contents)[4] == Length(|contents|);
  }

  /** The challenge of a console with id `id` that has drawn the random value r. */
  ghost function InitPacket(lead: seq<byte>, r: key16, id: block8): (p: seq<byte>)
    requires |lead| == 4
    ensures |p| == 0x22
  {
    hide Crypt, Mac, KEY_1D, KEY_1E, ConsolePacket;
    var c := Crypt(KEY_1D, r + id, true);
    ConsolePacket(lead, c + Mac(KEY_1E, c)[4..])
  }

  /** What the console knows once the first response has come. */
  datatype Session = Session(
    random: key16, hash: seq<byte>, salt: block8, enc: key16, swapEnc: key16,
    consoleId: block8, identification: seq<byte>)

  /** The console decrypts the response with the key it derives from its own random value. */
  ghost function Learned(key1: key16, key2: key16, r: key16, id: block8, identification: seq<byte>, response: seq<byte>)
    : Session
    requires |response| == 0x30
  {
    hide Crypt, Sha1Standard.Sha1;
    var enc := Crypt(key1, r, true);
    var plain := Crypt(enc, response[5..0x25], false);
    Session(plain[..0x10], Sha1Standard.Sha1(plain), plain[0xC..0x10] + r[0xC..],
            enc, Crypt(key2, r[8..] + r[..8], true), id, identification)
  }

  /** The controller holds the console's session values. */
  predicate Agree(s: State, k: Session) {
    && s.Shaped()
    && s.randomController == k.random && s.initHash == k.hash && s.randomConsole[..8] == k.salt
    && s.randomConsoleEnc == k.enc && s.randomConsoleSwapEnc == k.swapEnc
    && s.consoleId == k.consoleId && s.identificationData == k.identification
  }

  /** A challenge whose payload is the encrypted pair of a random value and the console's id,
      between any header and any tail.
    */
  ghost function Carrying(head: seq<byte>, r: key16, id: block8, tail: seq<byte>): (p: seq<byte>)
    requires |head| == 5
    ensures |p| == 0x1D + |tail|
  {
    hide Crypt, KEY_1D;
    head + Crypt(KEY_1D, r + id, true) + tail
  }

  /** What challenge init leaves behind, in terms of what the packet carried, if it writes
      nothing behind its response.
    */
  ghost function Clean(s: State, r: key16, id: block8, random: key16): (v: State)
    requires s.Shaped()
    ensures v.Shaped()
  {
    hide Crypt, Mac, Acr, Sha1Standard.Sha1, Packet;
    var enc, swapEnc := Crypt(s.kvKey1, r, true), Crypt(s.kvKey2, Swapped(r), true);
    var sealed := Crypt(enc, random + r, true);
    s.(consoleId := id,
       randomConsole := random[0xC..] + r[0xC..] + r[8..],
       randomConsoleEnc := enc, randomConsoleSwap := Swapped(r), randomConsoleSwapEnc := swapEnc,
       randomController := random, initHash := Sha1Standard.Sha1(random + r),
       decryptionBuffer := random + r + ZeroBytes(0x10),
       response := Packet(sealed + Acr(id, s.identificationData, Mac(swapEnc, sealed))))
  }

  /** What it does leave: the first byte of the neighbour is zero, except that the console's
      random value is overwritten once more after that.
    */
  function Overrun(v: State): (t: State)
    requires v.Shaped()
    ensures t.Shaped()
  {
    if v.neighbour == RandomConsole then v else WithBehind(v, 0)
  }

  lemma MixedAfterOverrun(v: State)
    requires v.Shaped()
    ensures AfterMixing(WithBehind(v, 0)) == Overrun(AfterMixing(v))
  {
  }

  lemma InitStores(s: State, head: seq<byte>, r: key16, id: block8, tail: seq<byte>, random: key16)
    requires s.Shaped() && |head| == 5 && |tail| >= 5
    ensures AfterInit(s, Carrying(head, r, id, tail), random) == Overrun(Clean(s, r, id, random))
  {
    hide Crypt, Mac, Acr, KEY_1D, Sha1Standard.Sha1, Packet, Swapped, XorAll, WithBehind, Overrun, ZeroBytes;
    Middle(head, Crypt(KEY_1D, r + id, true), tail);
    CryptUndone(KEY_1D, r + id, true);
    assert (r + id)[..0x10] == r && (r + id)[0x10..] == id;
    var u := Answered(AfterDerive(AfterRead(s, Carrying(head, r, id, tail))), random);
    MixedAfterOverrun(u);
    assert AfterMixing(u) == Clean(s, r, id, random);
  }

  /** The response is well formed, passes the checksum test, and decrypts to both random values. */
  ghost predicate ResponseOpens(enc: key16, plain: seq<byte>, response: seq<byte>) {
    hide Crypt, ChecksumMatches;
    && |response| == 0x30 && response[..5] == [0x49, 0x4C, 0, 0, 0x28]
    && Holds(response) && ChecksumMatches(response)
    && Crypt(enc, response[5..0x25], false) == plain
  }

  lemma SealedOpens(enc: key16, plain: seq<byte>, acr: block8)
    requires |plain| == 0x20
    ensures ResponseOpens(enc, plain, Packet(Crypt(enc, plain, true) + acr))
  {
    hide Crypt, XorAll, ChecksumMatches, ChecksumAt, ZeroBytes;
    var sealed := Crypt(enc, plain, true);
    var p := Packet(sealed + acr);
    PacketMatches(sealed + acr);
    assert Length(0x28) == 0x28;
    assert p[5..0x25] == p[5..0x2D][..0x20] == sealed;
    CryptUndone(enc, plain, true);
  }

  /** The neighbour's first byte was zero already, or the neighbour is not this buffer. */
  predicate Untouched(neighbour: Neighbour, which: Neighbour, contents: seq<byte>)
    requires contents != []
  {
    neighbour == which ==> contents[0] == 0
  }

  /** What an honest console can rely on after challenge init, and on what condition: the
      response holds both random values, and the salt starts from them, wherever the buffers
      are; id, hash and keys are there exactly if the zero behind the response spares them.
    */
  ghost predicate Honoured(s: State, r: key16, id: block8, random: key16, t: State)
    requires s.Shaped()
  {
    hide Crypt, Sha1Standard.Sha1, ResponseOpens;
    var enc, hash := Crypt(s.kvKey1, r, true), Sha1Standard.Sha1(random + r);
    && t.Shaped() && ResponseOpens(enc, random + r, t.response)
    && t.randomConsole[..8] == random[0xC..] + r[0xC..]
    && (t.consoleId == id <==> Untouched(s.neighbour, ConsoleId, id))
    && (t.initHash == hash <==> Untouched(s.neighbour, InitHash, hash))
    && (t.randomConsoleEnc == enc <==> Untouched(s.neighbour, RandomConsoleEnc, enc))
    && (t.kvKey1 == s.kvKey1 <==> Untouched(s.neighbour, KvKey1, s.kvKey1))
    && (t.kvKey2 == s.kvKey2 <==> Untouched(s.neighbour, KvKey2, s.kvKey2))
  }

  lemma Changed(b: seq<byte>)
    requires b != []
    ensures b[0 := 0] == b <==> b[0] == 0
  {
    assert b[0 := 0][0] == 0;
  }

  /** Challenge init with any payload an honest console makes, for all stored keys. */
  lemma HonestInit(s: State, head: seq<byte>, r: key16, id: block8, tail: seq<byte>, random: key16)
    requires s.Shaped() && |head| == 5 && |tail| >= 5
    ensures Honoured(s, r, id, random, AfterInit(s, Carrying(head, r, id, tail), random))
  {
    hide Crypt, Mac, Acr, Sha1Standard.Sha1, Packet, Swapped, AfterInit, Carrying, ResponseOpens;
    InitStores(s, head, r, id, tail, random);
    var v, enc, swapEnc := Clean(s, r, id, random), Crypt(s.kvKey1, r, true), Crypt(s.kvKey2, Swapped(r), true);
    SealedOpens(enc, random + r, Acr(id, s.identificationData, Mac(swapEnc, Crypt(enc, random + r, true))));
    Changed(id);
    Changed(v.initHash);
    Changed(enc);
    Changed(s.kvKey1);
    Changed(s.kvKey2);
  }

  /** The controller's state t agrees with what the console learns from its response. */
  ghost predicate InStep(s: State, r: key16, id: block8, t: State)
    requires s.Shaped()
  {
    hide Learned;
    t.Shaped() && Agree(t, Learned(s.kvKey1, s.kvKey2, r, id, s.identificationData, t.response))
  }

  /** The zero behind the response changes none of the values that a session uses.  It cannot
      if no such buffer lies there; otherwise the byte that it replaces must be zero.
    */
  predicate Spared(v: State)
    requires v.Shaped()
  {
    && Untouched(v.neighbour, ConsoleId, v.consoleId)
    && Untouched(v.neighbour, IdentificationData, v.identificationData)
    && Untouched(v.neighbour, RandomConsoleEnc, v.randomConsoleEnc)
    && Untouched(v.neighbour, RandomConsoleSwapEnc, v.randomConsoleSwapEnc)
    && Untouched(v.neighbour, RandomController, v.randomController)
    && Untouched(v.neighbour, InitHash, v.initHash)
  }

  lemma OverrunAgrees(v: State, k: Session)
    requires Agree(v, k)
    ensures Agree(Overrun(v), k) <==> Spared(v)
  {
    Changed(v.consoleId);
    Changed(v.identificationData);
    Changed(v.randomConsoleEnc);
    Changed(v.randomConsoleSwapEnc);
    Changed(v.randomController);
    Changed(v.initHash);
  }

  ghost predicate PacketAccepted(packet: seq<byte>) {
    hide InitMacMatches, ChecksumMatches;
    |packet| >= 0x22 && Holds(packet) && ChecksumMatches(packet) && InitMacMatches(packet)
  }

  /** An honest challenge passes both tests, and is one of those packets. */
  lemma InitPacketCarries(lead: seq<byte>, r: key16, id: block8)
    requires |lead| == 4
    ensures var p := InitPacket(lead, r, id); PacketAccepted(p) && p == Carrying(p[..5], r, id, p[0x1D..])
  {
    hide Crypt, Mac, KEY_1D, KEY_1E, ConsolePacket, ChecksumMatches, ChecksumAt;
    var c := Crypt(KEY_1D, r + id, true);
    var packet := InitPacket(lead, r, id);
    ConsolePacketMatches(lead, c + Mac(KEY_1E, c)[4..]);
    assert packet[5..0x1D] == packet[5..0x21][..0x18] && packet[0x1D..0x21] == packet[5..0x21][0x18..];
    assert packet == packet[..5] + packet[5..0x1D] + packet[0x1D..];
  }

  /** After a session starts, both sides hold the same values, exactly if these are spared. */
  lemma InitAgrees(s: State, lead: seq<byte>, r: key16, id: block8, random: key16)
    requires s.Shaped() && |lead| == 4
    ensures PacketAccepted(InitPacket(lead, r, id))
    ensures InStep(s, r, id, AfterInit(s, InitPacket(lead, r, id), random)) <==> Spared(Clean(s, r, id, random))
  {
    hide AfterInit, Carrying, InitPacket, PacketAccepted, Clean, Overrun, Learned, Spared, Agree;
    InitPacketCarries(lead, r, id);
    var p, v := InitPacket(lead, r, id), Clean(s, r, id, random);
    InitStores(s, p[..5], r, id, p[0x1D..], random);
    CleanAgrees(s, r, id, random);
    OverrunAgrees(v, Learned(s.kvKey1, s.kvKey2, r, id, s.identificationData, v.response));
    SameResponse(v);
  }

  lemma SameResponse(v: State)
    requires v.Shaped()
    ensures Overrun(v).response == v.response
  {
  }

  lemma CleanAgrees(s: State, r: key16, id: block8, random: key16)
    requires s.Shaped()
    ensures var v := Clean(s, r, id, random);
            Agree(v, Learned(s.kvKey1, s.kvKey2, r, id, s.identificationData, v.response))
  {
    hide Crypt, Mac, Acr, Sha1Standard.Sha1, Packet, ChecksumMatches;
    var enc, swapEnc := Crypt(s.kvKey1, r, true), Crypt(s.kvKey2, Swapped(r), true);
    SealedOpens(enc, random + r, Acr(id, s.identificationData, Mac(swapEnc, Crypt(enc, random + r, true))));
    assert (random + r)[..0x10] == random && (random + r)[0xC..0x10] == random[0xC..];
  }

  // ---------- Challenge verify ----------

  /** The console's challenge: an encrypted nonce and its MAC under the next salt. */
  ghost function VerifyPacket(k: Session, lead: seq<byte>, nonce: block8): (p: seq<byte>)
    requires |lead| == 4 && |k.hash| == 0x14
    ensures |p| == 0x16
  {
    hide Crypt, Mac, NextSalt, ConsolePacket;
    var c := Crypt(k.random, nonce, true);
    ConsolePacket(lead, c + Mac(k.hash[..0x10], NextSalt(k.salt) + c))
  }

  /** The console accepts a response whose MAC uses the salt after that, and which decrypts
      to the ACR of the nonce.
    */
  ghost predicate Accepts(k: Session, nonce: block8, response: seq<byte>)
    requires |k.identification| == 0x20
  {
    hide Crypt, Mac, Acr, NextSalt, ChecksumMatches;
    && |response| == 0x30 && Holds(response) && ChecksumMatches(response)
    && Crypt(k.enc, response[5..0xD], false) == Acr(k.consoleId, k.identification, nonce)
    && response[0xD..0x15] == Mac(k.swapEnc, NextSalt(NextSalt(k.salt)) + response[5..0xD])
  }

  /** What the controller and the console compute in one exchange, each from its own values,
      comes out the same: the MAC of the challenge, the encrypted ACR, and the MAC of that.
    */
  ghost predicate SameValues(s: State, k: Session, salt: block8, nonce: block8)
    requires s.Shaped() && |k.hash| == 0x14 && |k.identification| == 0x20
  {
    hide Crypt, Mac, Acr, NextSalt;
    var c := Crypt(k.random, nonce, true);
    var found := Crypt(s.randomController, c, false);
    var sealed := Crypt(s.randomConsoleEnc, Acr(s.consoleId, s.identificationData, found), true);
    && Mac(s.initHash[..0x10], NextSalt(salt) + c) == Mac(k.hash[..0x10], NextSalt(salt) + c)
    && sealed == Crypt(k.enc, Acr(k.consoleId, k.identification, nonce), true)
    && var m := NextSalt(NextSalt(salt)) + sealed;
       Mac(s.randomConsoleSwapEnc, m) == Mac(k.swapEnc, m)
  }

  function Stepped(k: Session): Session {
    hide NextSalt;
    k.(salt := NextSalt(NextSalt(k.salt)))
  }

  /** All that can be seen of one exchange: the controller finds the checksum and the MAC right,
      and the console accepts the answer.
    */
  ghost predicate Passes(s: State, k: Session, packet: seq<byte>, nonce: block8) {
    hide VerifyMacMatches, ChecksumMatches, AfterNonce, AfterVerify, Accepts;
    && s.Shaped() && |packet| >= 0x16 && |k.identification| == 0x20
    && Holds(packet) && ChecksumMatches(packet) && VerifyMacMatches(AfterNonce(s, packet), packet)
    && Accepts(k, nonce, AfterVerify(s, packet).response)
  }

  /** Besides, both are again in agreement, two salts further on. */
  ghost predicate Exchanged(s: State, k: Session, packet: seq<byte>, nonce: block8) {
    hide Passes, AfterVerify, Stepped;
    Passes(s, k, packet, nonce) && s.Shaped() && |packet| >= 0x16 && Agree(AfterVerify(s, packet), Stepped(k))
  }

  /** The state after a verify packet with the given nonce, except for the work buffer. */
  ghost function Verified(s: State, nonce: block8, buffer: seq<byte>): (t: State)
    requires s.Shaped() && |buffer| == 0x30
    ensures t.Shaped()
  {
    hide Crypt, Mac, Acr, NextSalt, Packet;
    var salt := NextSalt(NextSalt(s.randomConsole[..8]));
    var sealed := Crypt(s.randomConsoleEnc, Acr(s.consoleId, s.identificationData, nonce), true);
    s.(randomConsole := salt + nonce, decryptionBuffer := buffer,
       response := Packet(sealed + Mac(s.randomConsoleSwapEnc, salt + sealed)))
  }

  lemma VerifyStores(s: State, packet: seq<byte>)
    requires s.Shaped() && |packet| >= 0x16
    ensures AfterVerify(s, packet) ==
            Verified(s, Crypt(s.randomController, packet[5..0xD], false), AfterVerify(s, packet).decryptionBuffer)
  {
    hide Crypt, Mac, Acr, NextSalt, Packet, XorAll;
    var nonce := Crypt(s.randomController, packet[5..0xD], false);
    var a := AfterNonce(s, packet);
    assert a.randomConsole[..8] == s.randomConsole[..8] && a.randomConsole[8..] == nonce;
    var b := AfterStep(a);
    assert b.randomConsole[..8] == NextSalt(s.randomConsole[..8]) && b.randomConsole[8..] == nonce;
  }

  ghost predicate WellMade(k: Session, nonce: block8, p: seq<byte>)
    requires |k.hash| == 0x14
  {
    hide Crypt, Mac, NextSalt, ChecksumMatches;
    && |p| == 0x16 && Holds(p) && ChecksumMatches(p) && p[5..0xD] == Crypt(k.random, nonce, true)
    && p[0xD..0x15] == Mac(k.hash[..0x10], NextSalt(k.salt) + p[5..0xD])
  }

  lemma VerifyPacketParts(k: Session, lead: seq<byte>, nonce: block8)
    requires |lead| == 4 && |k.hash| == 0x14
    ensures WellMade(k, nonce, VerifyPacket(k, lead, nonce))
  {
    hide Crypt, Mac, NextSalt, ConsolePacket, ChecksumMatches, ChecksumAt;
    var c := Crypt(k.random, nonce, true);
    var p := VerifyPacket(k, lead, nonce);
    ConsolePacketMatches(lead, c + Mac(k.hash[..0x10], NextSalt(k.salt) + c));
    assert p[5..0xD] == p[5..0x15][..8] && p[0xD..0x15] == p[5..0x15][8..];
  }

  /** The console accepts an answer exactly if it holds the console's own values. */
  lemma VerifiedAccepted(s: State, k: Session, nonce: block8, found: block8, buffer: seq<byte>)
    requires s.Shaped() && |k.identification| == 0x20 && s.randomConsole[..8] == k.salt && |buffer| == 0x30
    ensures var sealed := Crypt(s.randomConsoleEnc, Acr(s.consoleId, s.identificationData, found), true);
            var salt := NextSalt(NextSalt(k.salt));
            Accepts(k, nonce, Verified(s, found, buffer).response)
            <==> sealed == Crypt(k.enc, Acr(k.consoleId, k.identification, nonce), true)
                 && Mac(s.randomConsoleSwapEnc, salt + sealed) == Mac(k.swapEnc, salt + sealed)
  {
    hide Crypt, Mac, Acr, NextSalt, Packet, ChecksumMatches, ChecksumAt, XorAll;
    var p := Verified(s, found, buffer).response;
    var sealed := Crypt(s.randomConsoleEnc, Acr(s.consoleId, s.identificationData, found), true);
    var mac := Mac(s.randomConsoleSwapEnc, NextSalt(NextSalt(k.salt)) + sealed);
    PacketMatches(sealed + mac);
    assert p[5..0xD] == p[5..0x15][..8] == sealed && p[0xD..0x15] == p[5..0x15][8..] == mac;
    CryptUndone(k.enc, sealed, false);
    CryptUndone(k.enc, Acr(k.consoleId, k.identification, nonce), true);
  }

  /** Whatever the controller holds besides the salt, an exchange with an honest console passes
      exactly if both sides compute the same values in it.
    */
  lemma ExchangePasses(s: State, k: Session, lead: seq<byte>, nonce: block8)
    requires s.Shaped() && |k.hash| == 0x14 && |k.identification| == 0x20 && |lead| == 4
    requires s.randomConsole[..8] == k.salt
    ensures Passes(s, k, VerifyPacket(k, lead, nonce), nonce) <==> SameValues(s, k, k.salt, nonce)
  {
    hide Crypt, Mac, NextSalt, Acr, ChecksumMatches, VerifyPacket, AfterVerify, Accepts, Verified;
    var p := VerifyPacket(k, lead, nonce);
    VerifyPacketParts(k, lead, nonce);
    VerifyStores(s, p);
    VerifiedAccepted(s, k, nonce, Crypt(s.randomController, p[5..0xD], false), AfterVerify(s, p).decryptionBuffer);
    assert AfterNonce(s, p).randomConsole[..8] == s.randomConsole[..8];
  }

  lemma VerifyAgrees(s: State, k: Session, lead: seq<byte>, nonce: block8)
    requires Agree(s, k) && |lead| == 4
    ensures Exchanged(s, k, VerifyPacket(k, lead, nonce), nonce)
  {
    hide Crypt, Mac, NextSalt, Acr, VerifyPacket, AfterVerify, Passes, KeyBundle;
    var p := VerifyPacket(k, lead, nonce);
    ExchangePasses(s, k, lead, nonce);
    MatchingValues(s, k, k.salt, nonce);
    OnlySaltMoves(s, p);
  }

  // ---------- Runs ----------

  /** The controller holds the console's session values, but for parity bits of keys. */
  ghost predicate Matches(s: State, k: Session) {
    hide KeyBundle;
    && s.Shaped() && |k.hash| == 0x14 && s.randomConsole[..8] == k.salt
    && KeyBundle(s.randomController) == KeyBundle(k.random)
    && KeyBundle(s.initHash[..0x10]) == KeyBundle(k.hash[..0x10])
    && KeyBundle(s.randomConsoleEnc) == KeyBundle(k.enc) && KeyBundle(s.randomConsoleSwapEnc) == KeyBundle(k.swapEnc)
    && s.consoleId == k.consoleId && s.identificationData == k.identification
  }

  /** Then no nonce can tell them apart. */
  lemma MatchingValues(s: State, k: Session, salt: block8, nonce: block8)
    requires Matches(s, k)
    ensures SameValues(s, k, salt, nonce)
  {
    hide Crypt, Mac, NextSalt, Acr, KeyBundle;
    var c, acr := Crypt(k.random, nonce, true), Acr(k.consoleId, k.identification, nonce);
    CryptUndone(k.random, nonce, true);
    SameBundle(s.randomController, k.random, c, false);
    SameBundle(s.initHash[..0x10], k.hash[..0x10], NextSalt(salt) + c, true);
    SameBundle(s.randomConsoleEnc, k.enc, acr, true);
    SameBundle(s.randomConsoleSwapEnc, k.swapEnc, NextSalt(NextSalt(salt)) + Crypt(k.enc, acr, true), true);
  }

  /** Nothing else of what the next exchange depends on. */
  ghost predicate SaltMoved(s: State, t: State)
    requires s.Shaped()
  {
    hide NextSalt;
    && t.Shaped() && t.randomConsole[..8] == NextSalt(NextSalt(s.randomConsole[..8]))
    && t.randomController == s.randomController && t.initHash == s.initHash && t.randomConsoleEnc == s.randomConsoleEnc
    && t.randomConsoleSwapEnc == s.randomConsoleSwapEnc && t.consoleId == s.consoleId
    && t.identificationData == s.identificationData
  }

  lemma OnlySaltMoves(s: State, packet: seq<byte>)
    requires s.Shaped() && |packet| >= 0x16
    ensures SaltMoved(s, AfterVerify(s, packet))
  {
    hide Crypt, Mac, Acr, NextSalt, Packet, AfterVerify;
    VerifyStores(s, packet);
    assert AfterVerify(s, packet).randomConsole[..8] == NextSalt(NextSalt(s.randomConsole[..8]));
  }

  /** Every exchange of a run passes. */
  ghost predicate RunPasses(s: State, k: Session, lead: seq<byte>, nonces: seq<block8>)
    requires s.Shaped() && |lead| == 4 && |k.hash| == 0x14
    decreases |nonces|
  {
    hide Passes, AfterVerify, NextSalt, VerifyPacket;
    nonces == [] ||
    (var packet := VerifyPacket(k, lead, nonces[0]);
     Passes(s, k, packet, nonces[0]) && RunPasses(AfterVerify(s, packet), Stepped(k), lead, nonces[1..]))
  }

  /** Both sides compute the same values all along, two salts for each nonce. */
  ghost predicate AllSame(s: State, k: Session, salt: block8, nonces: seq<block8>)
    requires s.Shaped() && |k.hash| == 0x14 && |k.identification| == 0x20
    decreases |nonces|
  {
    hide SameValues, NextSalt;
    nonces == [] || (SameValues(s, k, salt, nonces[0]) && AllSame(s, k, NextSalt(NextSalt(salt)), nonces[1..]))
  }

  lemma {:induction false} SameAfter(s: State, t: State, k: Session, salt: block8, nonces: seq<block8>)
    requires s.Shaped() && SaltMoved(s, t) && |k.hash| == 0x14 && |k.identification| == 0x20
    ensures |Stepped(k).hash| == 0x14 && |Stepped(k).identification| == 0x20
    ensures AllSame(t, Stepped(k), salt, nonces) <==> AllSame(s, k, salt, nonces)
    decreases |nonces|
  {
    hide Crypt, Mac, Acr, NextSalt;
    if nonces != [] {
      SameAfter(s, t, k, NextSalt(NextSalt(salt)), nonces[1..]);
    }
  }

  /** A run passes exactly if both sides compute the same values in each of its exchanges. */
  lemma {:induction false} RunPassesExactly(s: State, k: Session, lead: seq<byte>, nonces: seq<block8>)
    requires s.Shaped() && |k.hash| == 0x14 && |k.identification| == 0x20 && |lead| == 4
    requires s.randomConsole[..8] == k.salt
    ensures RunPasses(s, k, lead, nonces) <==> AllSame(s, k, k.salt, nonces)
    decreases |nonces|
  {
    hide Passes, AfterVerify, VerifyPacket, SameValues, NextSalt;
    if nonces != [] {
      var packet := VerifyPacket(k, lead, nonces[0]);
      ExchangePasses(s, k, lead, nonces[0]);
      OnlySaltMoves(s, packet);
      RunPassesExactly(AfterVerify(s, packet), Stepped(k), lead, nonces[1..]);
      SameAfter(s, AfterVerify(s, packet), k, NextSalt(NextSalt(k.salt)), nonces[1..]);
    }
  }

  lemma {:induction false} MatchingRun(s: State, k: Session, salt: block8, nonces: seq<block8>)
    requires Matches(s, k)
    ensures AllSame(s, k, salt, nonces)
    decreases |nonces|
  {
    hide SameValues, NextSalt, Matches;
    if nonces != [] {
      MatchingValues(s, k, salt, nonces[0]);
      MatchingRun(s, k, NextSalt(NextSalt(salt)), nonces[1..]);
    }
  }

  /** In a run of any length with an honest console, no check on either side ever fails. */
  lemma HonestRun(s: State, k: Session, lead: seq<byte>, nonces: seq<block8>)
    requires |lead| == 4 && Matches(s, k)
    ensures RunPasses(s, k, lead, nonces)
  {
    hide RunPasses, AllSame, KeyBundle;
    RunPassesExactly(s, k, lead, nonces);
    MatchingRun(s, k, k.salt, nonces);
  }

  // ---------- Sessions ----------

  /** The console finds its own random value in the first response, and the ACR of the whole. */
  ghost predicate FirstAccepted(s: State, r: key16, id: block8, response: seq<byte>)
    requires s.Shaped()
  {
    hide Crypt, Mac, Acr, ChecksumMatches;
    var enc, swapEnc := Crypt(s.kvKey1, r, true), Crypt(s.kvKey2, r[8..] + r[..8], true);
    && |response| == 0x30 && Holds(response) && ChecksumMatches(response)
    && Crypt(enc, response[5..0x25], false)[0x10..] == r
    && response[0x25..0x2D] == Acr(id, s.identificationData, Mac(swapEnc, response[5..0x25]))
  }

  lemma CleanAccepted(s: State, r: key16, id: block8, random: key16)
    requires s.Shaped()
    ensures FirstAccepted(s, r, id, Clean(s, r, id, random).response)
  {
    hide Crypt, Mac, Acr, Sha1Standard.Sha1, Packet, ChecksumMatches, XorAll;
    var enc, swapEnc := Crypt(s.kvKey1, r, true), Crypt(s.kvKey2, Swapped(r), true);
    var sealed := Crypt(enc, random + r, true);
    var acr := Acr(id, s.identificationData, Mac(swapEnc, sealed));
    PacketMatches(sealed + acr);
    CryptUndone(enc, random + r, true);
    var p := Packet(sealed + acr);
    assert p[5..0x25] == p[5..0x2D][..0x20] == sealed && p[0x25..0x2D] == p[5..0x2D][0x20..] == acr;
    assert (random + r)[0x10..] == r;
  }

  /** The neighbour's first byte was zero or one already: that changes no subkey. */
  predicate SparedKey(neighbour: Neighbour, which: Neighbour, contents: seq<byte>)
    requires contents != []
  {
    neighbour == which ==> contents[0] <= 1
  }

  /** The zero behind the response changes no subkey, and neither id nor identification data. */
  predicate Harmless(v: State)
    requires v.Shaped()
  {
    && Untouched(v.neighbour, ConsoleId, v.consoleId)
    && Untouched(v.neighbour, IdentificationData, v.identificationData)
    && SparedKey(v.neighbour, RandomConsoleEnc, v.randomConsoleEnc)
    && SparedKey(v.neighbour, RandomConsoleSwapEnc, v.randomConsoleSwapEnc)
    && SparedKey(v.neighbour, RandomController, v.randomController)
    && SparedKey(v.neighbour, InitHash, v.initHash)
  }

  lemma OverrunMatches(v: State, k: Session)
    requires Agree(v, k)
    ensures Matches(Overrun(v), k) <==> Harmless(v)
  {
    hide KeyBundle;
    match v.neighbour
    case ConsoleId => Changed(v.consoleId);
    case IdentificationData => Changed(v.identificationData);
    case RandomConsoleEnc => ZeroedKey(v.randomConsoleEnc);
    case RandomConsoleSwapEnc => ZeroedKey(v.randomConsoleSwapEnc);
    case RandomController => ZeroedKey(v.randomController);
    case InitHash =>
      ZeroedKey(v.initHash[..0x10]);
      assert v.initHash[0 := 0][..0x10] == v.initHash[..0x10][0 := 0];
    case _ =>
  }

  /** What the console has learned when challenge init is over. */
  ghost function Console(s: State, lead: seq<byte>, r: key16, id: block8, random: key16): (k: Session)
    requires s.Shaped() && |lead| == 4
    ensures |k.hash| == 0x14 && k.identification == s.identificationData
  {
    hide AfterInit, InitPacket, Crypt, Sha1Standard.Sha1;
    Learned(s.kvKey1, s.kvKey2, r, id, s.identificationData, AfterInit(s, InitPacket(lead, r, id), random).response)
  }

  lemma InitOutcome(s: State, lead: seq<byte>, r: key16, id: block8, random: key16)
    requires s.Shaped() && |lead| == 4
    ensures var p, v := InitPacket(lead, r, id), Clean(s, r, id, random);
            && PacketAccepted(p) && AfterInit(s, p, random) == Overrun(v)
            && FirstAccepted(s, r, id, AfterInit(s, p, random).response)
            && Agree(v, Console(s, lead, r, id, random))
  {
    hide AfterInit, Carrying, InitPacket, PacketAccepted, Clean, Overrun, Learned, Agree, FirstAccepted;
    InitPacketCarries(lead, r, id);
    var p, v := InitPacket(lead, r, id), Clean(s, r, id, random);
    InitStores(s, p[..5], r, id, p[0x1D..], random);
    CleanAgrees(s, r, id, random);
    CleanAccepted(s, r, id, random);
    SameResponse(v);
  }

  /** After challenge init the controller's keys have the console's subkeys, and its id and
      identification data are the console's, exactly if the zero behind the response is harmless.
    */
  lemma InitMatches(s: State, lead: seq<byte>, r: key16, id: block8, random: key16)
    requires s.Shaped() && |lead| == 4
    ensures Matches(AfterInit(s, InitPacket(lead, r, id), random), Console(s, lead, r, id, random))
            <==> Harmless(Clean(s, r, id, random))
  {
    hide AfterInit, InitPacket, PacketAccepted, Clean, Overrun, Console, Agree, FirstAccepted, Matches, Harmless;
    InitOutcome(s, lead, r, id, random);
    OverrunMatches(Clean(s, r, id, random), Console(s, lead, r, id, random));
  }

  /** All that can be seen of a whole session: no check fails on either side, from challenge
      init through the verifies that follow.
    */
  ghost predicate SessionPasses(s: State, lead: seq<byte>, r: key16, id: block8, random: key16, nonces: seq<block8>)
    requires s.Shaped() && |lead| == 4
  {
    hide PacketAccepted, FirstAccepted, AfterInit, Console, RunPasses, InitPacket;
    var p := InitPacket(lead, r, id);
    var t := AfterInit(s, p, random);
    && PacketAccepted(p) && FirstAccepted(s, r, id, t.response)
    && RunPasses(t, Console(s, lead, r, id, random), lead, nonces)
  }

  /** A session passes exactly if both sides compute the same values in all its exchanges,
      and it does, whatever its nonces, if the zero behind the response is harmless.
    */
  lemma HonestSession(s: State, lead: seq<byte>, r: key16, id: block8, random: key16, nonces: seq<block8>)
    requires s.Shaped() && |lead| == 4
    ensures var t, k := AfterInit(s, InitPacket(lead, r, id), random), Console(s, lead, r, id, random);
            SessionPasses(s, lead, r, id, random, nonces) <==> AllSame(t, k, k.salt, nonces)
    ensures Harmless(Clean(s, r, id, random)) ==> SessionPasses(s, lead, r, id, random, nonces)
  {
    hide AfterInit, InitPacket, PacketAccepted, RunPasses, Clean, Console, FirstAccepted, AllSame, Matches, Harmless;
    InitOutcome(s, lead, r, id, random);
    InitMatches(s, lead, r, id, random);
    var t, k := AfterInit(s, InitPacket(lead, r, id), random), Console(s, lead, r, id, random);
    RunPassesExactly(t, k, lead, nonces);
    if Harmless(Clean(s, r, id, random)) {
      MatchingRun(t, k, k.salt, nonces);
    }
  }

  /** In particular if the response's neighbour is none of the buffers a session reads. */
  lemma HarmlessNeighbour(s: State, lead: seq<byte>, r: key16, id: block8, random: key16, nonces: seq<block8>)
    requires s.Shaped() && |lead| == 4
    requires s.neighbour in {NoBuffer, KvKey1, KvKey2, DecryptionBuffer, RandomConsole, RandomConsoleSwap}
    ensures SessionPasses(s, lead, r, id, random, nonces)
  {
    hide AfterInit, InitPacket, SessionPasses, AllSame, Console, Crypt, Mac, Acr, Sha1Standard.Sha1, Packet;
    HonestSession(s, lead, r, id, random, nonces);
  }

  // ---------- Salts ----------

  function SaltOf(s: State): block8
    requires s.Shaped()
  {
    s.randomConsole[..8]
  }

  ghost predicate LongEnough(packets: seq<seq<byte>>) {
    forall p | p in packets :: |p| >= 0x16
  }

  /** The state after any sequence of challenge verify packets. */
  ghost function AfterAll(s: State, packets: seq<seq<byte>>): (t: State)
    requires s.Shaped() && LongEnough(packets)
    ensures t.Shaped()
    decreases |packets|
  {
    hide AfterVerify;
    if packets == [] then s else AfterAll(AfterVerify(s, packets[0]), packets[1..])
  }

  /** The salts under which the MACs of the run are computed, in order: each packet has one
      to check what came in and one for the answer.
    */
  ghost function Salts(s: State, packets: seq<seq<byte>>): (r: seq<block8>)
    requires s.Shaped() && LongEnough(packets)
    ensures |r| == 2 * |packets|
    decreases |packets|
  {
    hide AfterVerify, AfterNonce, AfterStep, NextSalt, SaltOf;
    if packets == [] then []
    else
      var checked := AfterStep(AfterNonce(s, packets[0]));
      [SaltOf(checked), SaltOf(AfterVerify(s, packets[0]))] + Salts(AfterVerify(s, packets[0]), packets[1..])
  }

  lemma VerifySalts(s: State, packet: seq<byte>)
    requires s.Shaped() && |packet| >= 0x16
    ensures SaltOf(AfterStep(AfterNonce(s, packet))) == NextSalt(SaltOf(s))
    ensures SaltOf(AfterVerify(s, packet)) == NextSalt(NextSalt(SaltOf(s)))
  {
    hide Crypt, AcrOf, NextSalt, Packet, VerifyContents;
    var a := AfterNonce(s, packet);
    assert a.randomConsole[..8] == s.randomConsole[..8];
    var b := AfterStep(a);
    assert b.randomConsole[..8] == NextSalt(a.randomConsole[..8]);
    assert AfterVerify(s, packet).randomConsole[..8] == NextSalt(b.randomConsole[..8]);
  }

  /** The value a 64-bit counter shows. */
  function Wrap(x: nat): nat {
    x % TWO64
  }

  lemma WrapAgain(y: nat, k: nat)
    ensures Wrap(Wrap(y) + k) == Wrap(y + k)
  {
    var q := y / TWO64;
    assert y % TWO64 + k + q * TWO64 == y + k;
    SameRemainder(y % TWO64 + k, q);
  }

  lemma {:induction false} SameRemainder(z: nat, q: nat)
    ensures (z + q * TWO64) % TWO64 == z % TWO64
    decreases q
  {
    if q > 0 {
      SameRemainder(z + TWO64, q - 1);
      assert z + TWO64 + (q - 1) * TWO64 == z + q * TWO64;
    }
  }

  lemma SaltAdvances(salt: block8)
    ensures Value(NextSalt(salt)) == Wrap(Value(salt) + 1)
    ensures Value(NextSalt(NextSalt(salt))) == Wrap(Value(salt) + 2)
    ensures Value(salt) == Wrap(Value(salt))
  {
    hide NextSalt, Value;
    NextSaltValue(salt);
    NextSaltValue(NextSalt(salt));
    WrapAgain(Value(salt) + 1, 1);
  }

  /** The first packet of a run, and the rest of it. */
  ghost predicate Unrolls(s: State, packets: seq<seq<byte>>)
    requires s.Shaped() && LongEnough(packets) && packets != []
  {
    hide AfterVerify, NextSalt, SaltOf, AfterAll, Salts;
    var t, salt := AfterVerify(s, packets[0]), SaltOf(s);
    && SaltOf(t) == NextSalt(NextSalt(salt)) && AfterAll(s, packets) == AfterAll(t, packets[1..])
    && Salts(s, packets) == [NextSalt(salt), NextSalt(NextSalt(salt))] + Salts(t, packets[1..])
  }

  lemma FirstPacket(s: State, packets: seq<seq<byte>>)
    requires s.Shaped() && LongEnough(packets) && packets != []
    ensures Unrolls(s, packets)
  {
    hide AfterVerify, AfterNonce, AfterStep, NextSalt, SaltOf;
    VerifySalts(s, packets[0]);
  }

  lemma {:induction false} CounterAfter(s: State, packets: seq<seq<byte>>)
    requires s.Shaped() && LongEnough(packets)
    ensures Value(SaltOf(AfterAll(s, packets))) == Wrap(Value(SaltOf(s)) + 2 * |packets|)
    decreases |packets|
  {
    hide AfterVerify, NextSalt, SaltOf, Value, Wrap, Salts;
    SaltAdvances(SaltOf(s));
    if packets != [] {
      FirstPacket(s, packets);
      CounterAfter(AfterVerify(s, packets[0]), packets[1..]);
      WrapAgain(Value(SaltOf(s)) + 2, 2 * |packets| - 2);
    }
  }

  lemma {:induction false} SaltAt(s: State, packets: seq<seq<byte>>, i: nat)
    requires s.Shaped() && LongEnough(packets) && i < 2 * |packets|
    ensures Value(Salts(s, packets)[i]) == Wrap(Value(SaltOf(s)) + i + 1)
    decreases |packets|
  {
    hide AfterVerify, AfterAll, NextSalt, SaltOf, Value, Wrap, Salts;
    SaltAdvances(SaltOf(s));
    FirstPacket(s, packets);
    if i >= 2 {
      SaltAt(AfterVerify(s, packets[0]), packets[1..], i - 2);
      WrapAgain(Value(SaltOf(s)) + 2, i - 1);
    }
  }

  /** Whatever the packets are, the counter advances by two for each, modulo 2^64, and the
      i-th salt in use is the counter's initial value plus i + 1.
    */
  lemma SaltsCount(s: State, packets: seq<seq<byte>>)
    requires s.Shaped() && LongEnough(packets)
    ensures Value(SaltOf(AfterAll(s, packets))) == Wrap(Value(SaltOf(s)) + 2 * |packets|)
    ensures forall i | 0 <= i < 2 * |packets| :: Value(Salts(s, packets)[i]) == Wrap(Value(SaltOf(s)) + i + 1)
  {
    hide AfterAll, SaltOf, Value, Wrap, Salts;
    CounterAfter(s, packets);
    forall i | 0 <= i < 2 * |packets|
      ensures Value(Salts(s, packets)[i]) == Wrap(Value(SaltOf(s)) + i + 1)
    {
      SaltAt(s, packets, i);
    }
  }

  /** So no two of the salted MACs of a session use the same salt until the counter wraps. */
  lemma SaltsDiffer(s: State, packets: seq<seq<byte>>, i: nat, j: nat)
    requires s.Shaped() && LongEnough(packets) && i < j < 2 * |packets| && j - i < TWO64
    ensures Salts(s, packets)[i] != Salts(s, packets)[j]
  {
    hide AfterVerify, SaltOf, Value, Salts, Wrap;
    SaltAt(s, packets, i);
    SaltAt(s, packets, j);
    DifferentCounts(Value(SaltOf(s)) + i + 1, j - i);
  }

  lemma DifferentCounts(x: nat, d: nat)
    requires 0 < d < TWO64
    ensures Wrap(x) != Wrap(x + d)
  {
  }

  /** The counter starts from the last four bytes of each side's random value. */
  lemma FirstSalt(s: State, packet: seq<byte>, random: key16)
    requires s.Shaped() && |packet| >= 0x22
    ensures SaltOf(AfterInit(s, packet, random)) == random[0xC..] + Crypt(KEY_1D, packet[5..0x1D], false)[0xC..0x10]
  {
    hide Crypt, KEY_1D, InitContents, Packet, Sha1Standard.Sha1;
  }
}
