/** What single statements of the cipher do to the bits of the words they work on. */
module DesWords {
  import opened Bits
  import opened DesStandard

  function Wide(x: bv32): bv64 {
    x as bv64
  }

  /** A uint32_t assigned from a wider value. */
  function Narrow(x: bv64): bv32 {
    (x & 0xFFFF_FFFF) as bv32
  }

  lemma NarrowBits(x: bv64, n: nat)
    requires n <= 32
    ensures WordBits(Wide(Narrow(x)), n) == WordBits(x, n)
  {
    forall m: nat | m < n
      ensures Bit(Wide(Narrow(x)), m) == Bit(x, m)
    {
      NarrowBit(x, m);
    }
  }

  lemma NarrowAt(x: bv64, s: bv8)
    requires s < 32
    ensures ShiftedBit(Wide(Narrow(x)), s) == ShiftedBit(x, s)
  {
  }

  lemma NarrowBit(x: bv64, m: nat)
    requires m < 32
    ensures Bit(Wide(Narrow(x)), m) == Bit(x, m)
  {
    hide Bit, ShiftedBit, Narrow, Wide;
    Position(m);
    var s := m as bv8;
    ShiftReads(x, s);
    ShiftReads(Wide(Narrow(x)), s);
    Below(s, 32);
    NarrowAt(x, s);
  }

  lemma Below(s: bv8, n: bv8)
    requires s as int < n as int
    ensures s < n
  {
  }

  function Picked(x: bv64, s: bv8): bv64
    requires s < 64
  {
    (x >> s) & 1
  }

  function Appended(acc: bv64, b: bv64): bv64 {
    (acc << 1) | b
  }

  lemma PickedBit(x: bv64, m: nat)
    requires m < 64
    ensures m as bv8 < 64 && Picked(x, m as bv8) <= 1
    ensures (Picked(x, m as bv8) == 1) == Bit(x, m)
  {
    hide Bit;
    BitIsShift(x, m);
  }

  lemma AppendedBit(acc: bv64, b: bv64, n: nat)
    requires n < 64 && b <= 1
    ensures WordBits(Appended(acc, b), n + 1) == WordBits(acc, n) + [b == 1]
  {
    hide Bit;
    ShiftIn(acc, b, n);
  }

  /** One step of a permutation loop. */
  lemma GatherStep(acc: bv64, x: bv64, width: nat, t: seq<nat>, i: nat)
    requires width <= 64 && Picks(t, width) && i < |t| <= 64
    requires WordBits(acc, i) == Permute(WordBits(x, width), t)[..i]
    ensures (width - t[i]) as bv8 < 64
    ensures WordBits(Appended(acc, Picked(x, (width - t[i]) as bv8)), i + 1) == Permute(WordBits(x, width), t)[..i + 1]
  {
    hide Bit, Picked, Appended;
    PickedBit(x, width - t[i]);
    AppendedBit(acc, Picked(x, (width - t[i]) as bv8), i);
    var p := Permute(WordBits(x, width), t);
    assert p[..i + 1] == p[..i] + [p[i]];
  }

  // ---------- Halves, registers and groups ----------

  lemma UpperAt(x: bv64, s: bv8)
    requires s < 32
    ensures ShiftedBit((x >> 32) & 0xFFFF_FFFF, s) == ShiftedBit(x, s + 32)
  {
  }

  function Value(b: bv8): int {
    b as int
  }

  lemma NextValue(b: bv8)
    ensures b < 255 ==> Value(b + 1) == Value(b) + 1
    ensures Value(0) == 0
  {
  }

  lemma {:induction false} AddValues(s: bv8, k: bv8)
    requires s < 64 && k < 64
    ensures Value(s + k) == Value(s) + Value(k)
    decreases k
  {
    hide Value;
    NextValue(k - 1);
    if k > 0 {
      OneLess(s, k);
      AddValues(s, k - 1);
      NextValue(s + (k - 1));
    }
  }

  lemma AddPosition(s: bv8, k: bv8)
    requires s < 64 && k < 64
    ensures (s + k) as int == s as int + k as int
  {
    AddValues(s, k);
    assert Value(s + k) == (s + k) as int && Value(s) == s as int && Value(k) == k as int;
  }

  lemma OneLess(s: bv8, k: bv8)
    requires s < 64 && 0 < k < 64
    ensures s + (k - 1) < 255 && s + (k - 1) + 1 == s + k && k - 1 < 64 && k - 1 + 1 == k
  {
  }

  lemma UpperBit(x: bv64, m: nat)
    requires m < 32
    ensures Bit((x >> 32) & 0xFFFF_FFFF, m) == Bit(x, m + 32)
  {
    hide Bit, ShiftedBit;
    Position(m);
    var s := m as bv8;
    Below(s, 32);
    AddPosition(s, 32);
    ShiftReads((x >> 32) & 0xFFFF_FFFF, s);
    ShiftReads(x, s + 32);
    UpperAt(x, s);
  }

  lemma NarrowUpper(x: bv64)
    ensures Wide(Narrow(x >> 32)) == (x >> 32) & 0xFFFF_FFFF
  {
  }

  /** HIDWORD and LODWORD split the bits of a word in the middle. */
  lemma SplitWord(x: bv64)
    ensures WordBits(Wide(Narrow(x >> 32)), 32) == WordBits(x, 64)[..32]
    ensures WordBits(Wide(Narrow(x)), 32) == WordBits(x, 64)[32..]
  {
    hide Bit, Narrow;
    NarrowBits(x, 32);
    NarrowUpper(x);
    var h := Wide(Narrow(x >> 32));
    forall k | 0 <= k < 32
      ensures WordBits(h, 32)[k] == WordBits(x, 64)[k]
    {
      UpperBit(x, 31 - k);
    }
  }

  function Joined(h: bv32, l: bv32): bv64 {
    (Wide(h) << 32) | Wide(l)
  }

  lemma JoinedParts(h: bv32, l: bv32)
    ensures Narrow(Joined(h, l) >> 32) == h && Narrow(Joined(h, l)) == l
  {
  }

  lemma JoinWord(h: bv32, l: bv32)
    ensures WordBits(Joined(h, l), 64) == WordBits(Wide(h), 32) + WordBits(Wide(l), 32)
  {
    hide Bit, Narrow, Wide, Joined;
    JoinedParts(h, l);
    SplitWord(Joined(h, l));
    var b := WordBits(Joined(h, l), 64);
    assert b == b[..32] + b[32..];
  }

  function Low28(x: bv64): bv64 {
    x & 0xFFF_FFFF
  }

  function High28(x: bv64): bv64 {
    (x >> 28) & 0xFFF_FFFF
  }

  lemma Low28At(x: bv64, s: bv8)
    requires s < 28
    ensures ShiftedBit(Low28(x), s) == ShiftedBit(x, s)
  {
  }

  lemma High28At(x: bv64, s: bv8)
    requires s < 28
    ensures ShiftedBit(High28(x), s) == ShiftedBit(x, s + 28)
  {
  }

  lemma RegisterBit(x: bv64, m: nat)
    requires m < 28
    ensures Bit(Low28(x), m) == Bit(x, m) && Bit(High28(x), m) == Bit(x, m + 28)
  {
    hide Bit, ShiftedBit, Low28, High28;
    Position(m);
    var s := m as bv8;
    Below(s, 28);
    AddPosition(s, 28);
    ShiftReads(x, s);
    ShiftReads(Low28(x), s);
    ShiftReads(High28(x), s);
    ShiftReads(x, s + 28);
    Low28At(x, s);
    High28At(x, s);
  }

  /** A 56-bit value is the C register followed by the D register. */
  lemma SplitRegisters(x: bv64)
    ensures WordBits(High28(x), 28) == WordBits(x, 56)[..28]
    ensures WordBits(Low28(x), 28) == WordBits(x, 56)[28..]
  {
    hide Bit, High28, Low28;
    forall k | 0 <= k < 28
      ensures WordBits(High28(x), 28)[k] == WordBits(x, 56)[k]
      ensures WordBits(Low28(x), 28)[k] == WordBits(x, 56)[28 + k]
    {
      RegisterBit(x, 27 - k);
    }
  }

  function JoinedRegisters(c: bv32, d: bv32): bv64 {
    (Wide(c) << 28) | Wide(d)
  }

  lemma JoinedRegisterParts(c: bv32, d: bv32)
    requires c <= 0xFFF_FFFF && d <= 0xFFF_FFFF
    ensures High28(JoinedRegisters(c, d)) == Wide(c) && Low28(JoinedRegisters(c, d)) == Wide(d)
  {
  }

  lemma JoinRegisters(c: bv32, d: bv32)
    requires c <= 0xFFF_FFFF && d <= 0xFFF_FFFF
    ensures WordBits(JoinedRegisters(c, d), 56) == WordBits(Wide(c), 28) + WordBits(Wide(d), 28)
  {
    hide Bit, High28, Low28, Wide, JoinedRegisters;
    JoinedRegisterParts(c, d);
    var x := JoinedRegisters(c, d);
    SplitRegisters(x);
    assert WordBits(x, 56) == WordBits(x, 56)[..28] + WordBits(x, 56)[28..];
  }

  /** One shift of the key schedule loop. */
  function Rotated(c: bv32): bv32 {
    (0x0FFF_FFFF & (c << 1)) | (0x0000_0001 & (c >> 27))
  }

  lemma RotatedWord(c: bv32)
    requires c <= 0xFFF_FFFF
    ensures Rotated(c) <= 0xFFF_FFFF
    ensures Wide(Rotated(c)) == Low28(Appended(Wide(c), Picked(Wide(c), 27)))
  {
  }

  lemma RotatedBits(c: bv32)
    requires c <= 0xFFF_FFFF
    ensures Rotated(c) <= 0xFFF_FFFF
    ensures WordBits(Wide(Rotated(c)), 28) == RotateLeft(WordBits(Wide(c), 28), 1)
  {
    hide Bit, Low28, Appended, Picked, Wide, Rotated;
    RotatedWord(c);
    var x := Wide(c);
    var y := Appended(x, Picked(x, 27));
    PickedBit(x, 27);
    Recast(27);
    AppendedBit(x, Picked(x, 27), 28);
    forall k | 0 <= k < 28
      ensures WordBits(Low28(y), 28)[k] == WordBits(y, 29)[k + 1]
    {
      RegisterBit(y, 27 - k);
    }
    assert WordBits(x, 28)[0] == Bit(x, 27);
  }

  // ---------- The S-boxes ----------

  /** How far the masks are shifted for group i, and how far what they cut out. */
  function Lead(i: nat): bv8
    requires i < 8
  {
    (6 * i) as bv8
  }

  function Offset(i: nat): bv8
    requires i < 8
  {
    (42 - 6 * i) as bv8
  }

  function InnerOffset(i: nat): bv8
    requires i < 8
  {
    (43 - 6 * i) as bv8
  }

  function OuterBits(s: bv64, i: nat): bv64
    requires i < 8
  {
    OffsetOf(i);
    hide Lead, Offset, InnerOffset;
    CutOuter(s, Lead(i), Offset(i))
  }

  function InnerBits(s: bv64, i: nat): bv64
    requires i < 8
  {
    OffsetOf(i);
    hide Lead, Offset, InnerOffset;
    CutInner(s, Lead(i), InnerOffset(i))
  }

  function CutOuter(s: bv64, lead: bv8, shift: bv8): bv64
    requires lead <= 42 && shift <= 42
  {
    (s & (0x0000_8400_0000_0000 >> lead)) >> shift
  }

  function CutInner(s: bv64, lead: bv8, shift: bv8): bv64
    requires lead <= 42 && shift <= 43
  {
    (s & (0x0000_7800_0000_0000 >> lead)) >> shift
  }

  function Char(x: bv64): bv8 {
    (x & 0xFF) as bv8
  }

  function RowOf(outer: bv64): bv8 {
    (Char(outer) >> 4) | (Char(outer) & 0x01)
  }

  /** The right shifts that bring one of the eight groups to the low end. */
  predicate GroupOffset(g: bv8) {
    g == 42 || g == 36 || g == 30 || g == 24 || g == 18 || g == 12 || g == 6 || g == 0
  }

  lemma OffsetOf(i: nat)
    requires i < 8
    ensures GroupOffset(Offset(i)) && Offset(i) as int == 42 - 6 * i
    ensures Lead(i) == 42 - Offset(i) && InnerOffset(i) == Offset(i) + 1
  {
    hide Offset, Lead, InnerOffset;
    OffsetValue(i);
    LeadOf(i);
    InnerOf(i);
  }

  lemma OffsetValue(i: nat)
    requires i < 8
    ensures GroupOffset(Offset(i)) && Offset(i) as int == 42 - 6 * i
  {
    if i == 0 {} else if i == 1 {} else if i == 2 {} else if i == 3 {}
    else if i == 4 {} else if i == 5 {} else if i == 6 {} else {}
  }

  lemma LeadOf(i: nat)
    requires i < 8
    ensures Lead(i) == 42 - Offset(i)
  {
    hide Lead, Offset;
    if i < 4 {
      LowLead(i);
    } else {
      HighLead(i);
    }
  }

  lemma LowLead(i: nat)
    requires i < 4
    ensures Lead(i) == 42 - Offset(i)
  {
    if i == 0 {} else if i == 1 {} else if i == 2 {} else {}
  }

  lemma HighLead(i: nat)
    requires 4 <= i < 8
    ensures Lead(i) == 42 - Offset(i)
  {
    if i == 4 {} else if i == 5 {} else if i == 6 {} else {}
  }

  lemma InnerOf(i: nat)
    requires i < 8
    ensures InnerOffset(i) == Offset(i) + 1
  {
    hide InnerOffset, Offset;
    if i < 4 {
      LowInner(i);
    } else {
      HighInner(i);
    }
  }

  lemma LowInner(i: nat)
    requires i < 4
    ensures InnerOffset(i) == Offset(i) + 1
  {
    if i == 0 {} else if i == 1 {} else if i == 2 {} else {}
  }

  lemma HighInner(i: nat)
    requires 4 <= i < 8
    ensures InnerOffset(i) == Offset(i) + 1
  {
    if i == 4 {} else if i == 5 {} else if i == 6 {} else {}
  }

  lemma MaskedGroup(s: bv64, g: bv8)
    requires GroupOffset(g)
    ensures CutOuter(s, 42 - g, g) == (s >> g) & 0x21
    ensures CutInner(s, 42 - g, g + 1) == ((s >> g) >> 1) & 0xF
  {
  }

  lemma MaskedBits(s: bv64, i: nat)
    requires i < 8
    ensures Offset(i) <= 42
    ensures OuterBits(s, i) == (s >> Offset(i)) & 0x21
    ensures InnerBits(s, i) == ((s >> Offset(i)) >> 1) & 0xF
  {
    hide CutOuter, CutInner, Lead, Offset, InnerOffset;
    OffsetOf(i);
    MaskedGroup(s, Offset(i));
  }

  predicate TestBit(t: bv64, j: bv8)
    requires j < 6
  {
    (t >> j) & 1 == 1
  }

  lemma RowValue(t: bv64)
    ensures RowOf(t & 0x21) as int == 2 * Num(TestBit(t, 5)) + Num(TestBit(t, 0))
  {
  }

  lemma ColumnValue(t: bv64)
    ensures Char((t >> 1) & 0xF) as int ==
            8 * Num(TestBit(t, 4)) + 4 * Num(TestBit(t, 3)) + 2 * Num(TestBit(t, 2)) + Num(TestBit(t, 1))
  {
  }

  lemma GroupAt(x: bv64, g: bv8, j: bv8)
    requires g <= 42 && j < 6
    ensures TestBit(x >> g, j) == ShiftedBit(x, g + j)
  {
  }

  lemma GroupBit(x: bv64, g: bv8, j: bv8)
    requires g <= 42 && j < 6
    ensures TestBit(x >> g, j) == Bit(x, g as int + j as int)
  {
    hide Bit, ShiftedBit, TestBit;
    GroupAt(x, g, j);
    AddPosition(g, j);
    ShiftReads(x, g + j);
  }

  lemma GroupBitAt(s: bv64, i: nat, g: bv8, j: bv8, n: nat)
    requires i < 8 && g <= 42 && g as int == 42 - 6 * i && j < 6 && j as int == n < 6
    ensures WordBits(s, 48)[6 * i..6 * i + 6][5 - n] == TestBit(s >> g, j)
  {
    hide Bit, TestBit;
    GroupBit(s, g, j);
  }

  lemma SmallNumbers()
    ensures (1 as bv8) as int == 1 && (2 as bv8) as int == 2 && (3 as bv8) as int == 3
    ensures (0 as bv8) as int == 0 && (4 as bv8) as int == 4 && (5 as bv8) as int == 5
  {
  }

  /** The six bits of a group, as the standard numbers them. */
  lemma GroupBits(s: bv64, i: nat, g: bv8)
    requires i < 8 && g <= 42 && g as int == 42 - 6 * i
    ensures var b, t := WordBits(s, 48)[6 * i..6 * i + 6], s >> g;
            && b[0] == TestBit(t, 5) && b[1] == TestBit(t, 4) && b[2] == TestBit(t, 3)
            && b[3] == TestBit(t, 2) && b[4] == TestBit(t, 1) && b[5] == TestBit(t, 0)
  {
    hide WordBits, TestBit;
    SmallNumbers();
    GroupBitAt(s, i, g, 0, 0);
    GroupBitAt(s, i, g, 1, 1);
    GroupBitAt(s, i, g, 2, 2);
    GroupBitAt(s, i, g, 3, 3);
    GroupBitAt(s, i, g, 4, 4);
    GroupBitAt(s, i, g, 5, 5);
  }

  /** Row and column address the entry the standard assigns to the group's six bits. */
  lemma GroupEntry(s: bv64, i: nat)
    requires i < 8
    ensures var b := WordBits(s, 48)[6 * i..6 * i + 6];
            16 * (RowOf(OuterBits(s, i)) as int) + (Char(InnerBits(s, i)) as int)
            == 16 * (2 * Num(b[0]) + Num(b[5])) + (8 * Num(b[1]) + 4 * Num(b[2]) + 2 * Num(b[3]) + Num(b[4]))
  {
    hide WordBits, TestBit, RowOf, Char, OuterBits, InnerBits, Offset;
    MaskedBits(s, i);
    var g := Offset(i);
    OffsetOf(i);
    GroupBits(s, i, g);
    RowValue(s >> g);
    ColumnValue(s >> g);
  }

  /** Appending the four low bits of an S-box entry to the output word. */
  function WithNibble(x: bv32, v: bv8): bv32 {
    (x << 4) | ((v as bv32) & 0x0F)
  }

  function Extended(v: bv8): bv64 {
    v as bv64
  }

  lemma NibbleAt(x: bv32, v: bv8, s: bv8)
    ensures s < 28 ==> ShiftedBit(Wide(WithNibble(x, v)), s + 4) == ShiftedBit(Wide(x), s)
    ensures s < 4 ==> ShiftedBit(Wide(WithNibble(x, v)), s) == ShiftedBit(Extended(v), s)
  {
  }

  lemma NibbleBit(x: bv32, v: bv8, m: nat)
    requires m < 32
    ensures m < 4 ==> Bit(Wide(WithNibble(x, v)), m) == Bit(Extended(v), m)
    ensures m >= 4 ==> Bit(Wide(WithNibble(x, v)), m) == Bit(Wide(x), m - 4)
  {
    hide Bit, ShiftedBit, Wide, WithNibble, Extended;
    var z := Wide(WithNibble(x, v));
    if m < 4 {
      Position(m);
      var s := m as bv8;
      Below(s, 4);
      NibbleAt(x, v, s);
      ShiftReads(z, s);
      ShiftReads(Extended(v), s);
    } else {
      Position(m - 4);
      var s := (m - 4) as bv8;
      Below(s, 28);
      AddPosition(s, 4);
      NibbleAt(x, v, s);
      ShiftReads(z, s + 4);
      ShiftReads(Wide(x), s);
    }
  }

  lemma NibbleIn(x: bv32, v: bv8, n: nat)
    requires n <= 28
    ensures WordBits(Wide(WithNibble(x, v)), n + 4) == WordBits(Wide(x), n) + Nibble(v)
  {
    hide Bit, Wide, WithNibble;
    var z := Wide(WithNibble(x, v));
    forall k | 0 <= k < n + 4
      ensures WordBits(z, n + 4)[k] == (WordBits(Wide(x), n) + Nibble(v))[k]
    {
      NibbleBit(x, v, n + 3 - k);
    }
  }
}
