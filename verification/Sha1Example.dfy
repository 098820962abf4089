/** The example that is published with FIPS 180-4: the hash value of the message "abc", worked
    out from the definitions eight words and eight rounds at a time.
  */
module Sha1Example {
  import opened Bits
  import opened Sha1Standard

  const ABC: seq<byte> := [0x61, 0x62, 0x63]

  /** The message with its padding is one block. */
  const BLOCK: words := ABC + [0x80] + ZeroBytes(52) + ZeroBytes(7) + [24]

  /** Word t of the message schedule. */
  ghost function W(t: nat): bv32
    requires t < 80
  {
    Schedule(BLOCK, t)
  }

  lemma NextWord(t: nat)
    requires 16 <= t < 80
    ensures W(t) == Extend(W(t - 3), W(t - 8), W(t - 14), W(t - 16))
  {
    LaterWords(BLOCK, t);
    hide Extend, Schedule;
  }

  /** The working variables after t rounds. */
  ghost function After(t: nat): Hash
    requires t <= 80
  {
    Rounds(INITIAL, BLOCK, t)
  }

  lemma NextRound(t: nat)
    requires t < 80
    ensures var g := After(t); After(t + 1) == Round(g, RoundFunction(t, g.b, g.c, g.d), Constant(t), W(t))
  {
    hide Round, RoundFunction, Constant, Schedule;
  }

  lemma Padded()
    ensures ABC + Padding(3) == BLOCK
  {
    hide BigEndian, ZeroBytes;
    Unfolded(24, 8);
    NoBytes(7);
    Joined(ABC, [0x80], ZeroBytes(52), ZeroBytes(7), [24]);
  }

  lemma Joined(a: seq<byte>, b: seq<byte>, c: seq<byte>, d: seq<byte>, e: seq<byte>)
    ensures a + (b + c + (d + e)) == a + b + c + d + e
  {
  }

  lemma Unfolded(v: nat, n: nat)
    requires n > 0
    ensures BigEndian(v, n) == BigEndian(v / 256, n - 1) + [(v % 256) as byte]
  {
  }

  lemma {:induction false} NoBytes(n: nat)
    ensures BigEndian(0, n) == ZeroBytes(n)
  {
    if n > 0 {
      NoBytes(n - 1);
    }
  }

  lemma OneBlock()
    ensures Absorb(INITIAL, BLOCK) == Compress(INITIAL, BLOCK)
  {
    hide Compress;
    assert BLOCK[..64] == BLOCK && BLOCK[64..] == [];
  }

  // ---------- The schedule ----------

  lemma Words0()
    ensures W(0) == 0x61626380 && W(15) == 24
    ensures forall t | 1 <= t < 15 :: W(t) == 0
  {
  }

  lemma Words16()
    ensures W(16) == 0xC2C4C700 && W(17) == 0x00000000 && W(18) == 0x00000030 && W(19) == 0x85898E01
    ensures W(20) == 0x00000000 && W(21) == 0x00000060 && W(22) == 0x0B131C03 && W(23) == 0x00000030
  {
    hide W;
    Words0();
    NextWord(16);
    NextWord(17);
    NextWord(18);
    NextWord(19);
    NextWord(20);
    NextWord(21);
    NextWord(22);
    NextWord(23);
  }

  lemma Words24()
    ensures W(24) == 0x85898EC1 && W(25) == 0x16263806 && W(26) == 0x00000000 && W(27) == 0x00000180
    ensures W(28) == 0x2C4C700C && W(29) == 0x000000F0 && W(30) == 0x93AFB507 && W(31) == 0x5898E048
  {
    hide W;
    Words0();
    Words16();
    NextWord(24);
    NextWord(25);
    NextWord(26);
    NextWord(27);
    NextWord(28);
    NextWord(29);
    NextWord(30);
    NextWord(31);
  }

  lemma Words32()
    ensures W(32) == 0x8E9A9202 && W(33) == 0x00000600 && W(34) == 0xB131C0F0 && W(35) == 0x16263BC6
    ensures W(36) == 0x4EBED41E && W(37) == 0x626380A1 && W(38) == 0x16263806 && W(39) == 0x000018C0
  {
    hide W;
    Words16();
    Words24();
    NextWord(32);
    NextWord(33);
    NextWord(34);
    NextWord(35);
    NextWord(36);
    NextWord(37);
    NextWord(38);
    NextWord(39);
  }

  lemma Words40()
    ensures W(40) == 0xD2E138C4 && W(41) == 0x00000F00 && W(42) == 0x3AFB5079 && W(43) == 0x898E04E5
    ensures W(44) == 0xE2BA3C2B && W(45) == 0x000060C0 && W(46) == 0x053A37CD && W(47) == 0x74458547
  {
    hide W;
    Words24();
    Words32();
    NextWord(40);
    NextWord(41);
    NextWord(42);
    NextWord(43);
    NextWord(44);
    NextWord(45);
    NextWord(46);
    NextWord(47);
  }

  lemma Words48()
    ensures W(48) == 0xDA9415ED && W(49) == 0x26380A16 && W(50) == 0x626383A1 && W(51) == 0x4EBF54DE
    ensures W(52) == 0x3835B44B && W(53) == 0x0000F600 && W(54) == 0x1E84C7A3 && W(55) == 0x98E04D98
  {
    hide W;
    Words32();
    Words40();
    NextWord(48);
    NextWord(49);
    NextWord(50);
    NextWord(51);
    NextWord(52);
    NextWord(53);
    NextWord(54);
    NextWord(55);
  }

  lemma Words56()
    ensures W(56) == 0x651D16A0 && W(57) == 0x62658CA1 && W(58) == 0x458544D6 && W(59) == 0x44584CB7
    ensures W(60) == 0x7BA06619 && W(61) == 0x6380AEA2 && W(62) == 0x0AE55269 && W(63) == 0x627B49A1
  {
    hide W;
    Words40();
    Words48();
    NextWord(56);
    NextWord(57);
    NextWord(58);
    NextWord(59);
    NextWord(60);
    NextWord(61);
    NextWord(62);
    NextWord(63);
  }

  lemma Words64()
    ensures W(64) == 0x7CD45C9D && W(65) == 0x000F0000 && W(66) == 0xFB50753A && W(67) == 0xEC6765E8
    ensures W(68) == 0xBA3C2BE2 && W(69) == 0x0060C000 && W(70) == 0x3A37CD05 && W(71) == 0x458546F4
  {
    hide W;
    Words48();
    Words56();
    NextWord(64);
    NextWord(65);
    NextWord(66);
    NextWord(67);
    NextWord(68);
    NextWord(69);
    NextWord(70);
    NextWord(71);
  }

  lemma Words72()
    ensures W(72) == 0xB8599DD6 && W(73) == 0x380A1A26 && W(74) == 0x01E02203 && W(75) == 0xE7CC3456
    ensures W(76) == 0xE6E60B69 && W(77) == 0x00F60A00 && W(78) == 0x5795EF4F && W(79) == 0x822E0879
  {
    hide W;
    Words56();
    Words64();
    NextWord(72);
    NextWord(73);
    NextWord(74);
    NextWord(75);
    NextWord(76);
    NextWord(77);
    NextWord(78);
    NextWord(79);
  }

  // ---------- The rounds ----------

  lemma Begins()
    ensures After(0) == INITIAL
  {
  }

  lemma Rounds8()
    ensures After(8) == Hash(0x9E8C07D4, 0x993E30C1, 0x0FF1F290, 0xB3F52677, 0xF3763846)
  {
    hide W, After;
    Begins();
    Words0();
    NextRound(0);
    NextRound(1);
    NextRound(2);
    NextRound(3);
    NextRound(4);
    NextRound(5);
    NextRound(6);
    NextRound(7);
  }

  lemma Rounds16()
    ensures After(16) == Hash(0x20BDD62F, 0x196BEE77, 0x644A3DA5, 0x1181ED99, 0x18C623F9)
  {
    hide W, After;
    Rounds8();
    Words0();
    NextRound(8);
    NextRound(9);
    NextRound(10);
    NextRound(11);
    NextRound(12);
    NextRound(13);
    NextRound(14);
    NextRound(15);
  }

  lemma Rounds24()
    ensures After(24) == Hash(0xD541F12D, 0x21283486, 0x0CE88EFF, 0x868DEC32, 0x7F67875F)
  {
    hide W, After;
    Rounds16();
    Words16();
    NextRound(16);
    NextRound(17);
    NextRound(18);
    NextRound(19);
    NextRound(20);
    NextRound(21);
    NextRound(22);
    NextRound(23);
  }

  lemma Rounds32()
    ensures After(32) == Hash(0x3B845D33, 0x1267B407, 0x717EEBD7, 0xA0DC2D4B, 0xD2AA1365)
  {
    hide W, After;
    Rounds24();
    Words24();
    NextRound(24);
    NextRound(25);
    NextRound(26);
    NextRound(27);
    NextRound(28);
    NextRound(29);
    NextRound(30);
    NextRound(31);
  }

  lemma Rounds40()
    ensures After(40) == Hash(0x32DE1CBA, 0x4C986405, 0xF718E5CF, 0x03D447F6, 0xF72EEC32)
  {
    hide W, After;
    Rounds32();
    Words32();
    NextRound(32);
    NextRound(33);
    NextRound(34);
    NextRound(35);
    NextRound(36);
    NextRound(37);
    NextRound(38);
    NextRound(39);
  }

  lemma Rounds48()
    ensures After(48) == Hash(0xBEAD02CA, 0xA01B846C, 0x8714787C, 0x503CA382, 0xFB86C6AB)
  {
    hide W, After;
    Rounds40();
    Words40();
    NextRound(40);
    NextRound(41);
    NextRound(42);
    NextRound(43);
    NextRound(44);
    NextRound(45);
    NextRound(46);
    NextRound(47);
  }

  lemma Rounds56()
    ensures After(56) == Hash(0x5E6456AF, 0x7B71F76D, 0x09FA7C76, 0x792410DB, 0x8E11EB59)
  {
    hide W, After;
    Rounds48();
    Words48();
    NextRound(48);
    NextRound(49);
    NextRound(50);
    NextRound(51);
    NextRound(52);
    NextRound(53);
    NextRound(54);
    NextRound(55);
  }

  lemma Rounds64()
    ensures After(64) == Hash(0x6B61C9E1, 0xB66C020B, 0x9523272C, 0xF5D5B051, 0x8FD4B796)
  {
    hide W, After;
    Rounds56();
    Words56();
    NextRound(56);
    NextRound(57);
    NextRound(58);
    NextRound(59);
    NextRound(60);
    NextRound(61);
    NextRound(62);
    NextRound(63);
  }

  lemma Rounds72()
    ensures After(72) == Hash(0x39859DE7, 0xC199F8C7, 0x8FC96230, 0x125C24F0, 0xDE37534A)
  {
    hide W, After;
    Rounds64();
    Words64();
    NextRound(64);
    NextRound(65);
    NextRound(66);
    NextRound(67);
    NextRound(68);
    NextRound(69);
    NextRound(70);
    NextRound(71);
  }

  lemma Rounds80()
    ensures After(80) == Hash(0x42541B35, 0x5738D5E1, 0x21834873, 0x681E6DF6, 0xD8FDF6AD)
  {
    hide W, After;
    Rounds72();
    Words72();
    NextRound(72);
    NextRound(73);
    NextRound(74);
    NextRound(75);
    NextRound(76);
    NextRound(77);
    NextRound(78);
    NextRound(79);
  }

  lemma Compressed()
    ensures Compress(INITIAL, BLOCK) == Add(INITIAL, After(80))
  {
    hide Rounds, Add;
  }

  /** The published value. */
  lemma Abc()
    ensures Sha1(ABC) == [0xA9, 0x99, 0x3E, 0x36, 0x47, 0x06, 0x81, 0x6A,
                          0xBA, 0x3E, 0x25, 0x71, 0x78, 0x50, 0xC2, 0x6C, 0x9C, 0xD0, 0xD8, 0x9D]
  {
    hide W, After, Rounds, Schedule, Padding, Compress;
    Padded();
    OneBlock();
    Rounds80();
    Compressed();
  }
}
