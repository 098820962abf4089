/** The Data Encryption Algorithm as section 2 of NIST SP 800-67 Rev. 2 defines it: a
    function on bit strings.  Its three laws are proved here, once, for all keys and blocks:
    decryption inverts encryption, complementing key and block complements the result, and
    the eight parity bits of the key play no part.
  */
module DesStandard {
  import opened Bits
  import opened DesData

  type half = s: bits | |s| == 32 witness seq(32, _ => false)
  type subkey = s: bits | |s| == 48 witness seq(48, _ => false)
  type block = s: bits | |s| == 64 witness seq(64, _ => false)

  ghost predicate Picks(t: seq<nat>, n: nat) {
    forall i | 0 <= i < |t| :: 1 <= t[i] <= n
  }

  /** Bit i of the result is the bit of `s` that entry i of the table names. */
  ghost function Permute(s: bits, t: seq<nat>): (r: bits)
    requires Picks(t, |s|)
    ensures |r| == |t|
  {
    seq(|t|, i requires 0 <= i < |t| => s[t[i] - 1])
  }

  lemma PermuteNot(s: bits, t: seq<nat>)
    requires Picks(t, |s|)
    ensures Permute(Not(s), t) == Not(Permute(s, t))
  {
  }

  // ---------- The cipher function f ----------

  lemma ExpansionTable()
    ensures |EXPANSION| == 48 && Picks(EXPANSION, 32)
  {
    assert Picks(EXPANSION_LEFT, 32) && Picks(EXPANSION_RIGHT, 32);
  }

  lemma ExpansionLeft(g: nat, j: nat)
    requires g < 4 && j < 6
    ensures |EXPANSION_LEFT| == 24 && EXPANSION_LEFT[6 * g + j] == (4 * g + j + 31) % 32 + 1
  {
  }

  lemma ExpansionRight(g: nat, j: nat)
    requires g < 4 && j < 6
    ensures |EXPANSION_RIGHT| == 24 && EXPANSION_RIGHT[6 * g + j] == (4 * (g + 4) + j + 31) % 32 + 1
  {
  }

  /** Each group of six bits is a group of four with its neighbours on both sides, around the ends. */
  lemma ExpansionGroups(g: nat, j: nat)
    requires g < 8 && j < 6
    ensures |EXPANSION| == 48 && EXPANSION[6 * g + j] == (4 * g + j + 31) % 32 + 1
  {
    hide EXPANSION_LEFT, EXPANSION_RIGHT;
    ExpansionLeft(g % 4, j);
    ExpansionRight(g % 4, j);
  }

  lemma PBoxTable()
    ensures |PBOX| == 32 && Picks(PBOX, 32)
  {
  }

  lemma SBoxTable()
    ensures |SBOX| == 8 && forall i | 0 <= i < 8 :: |SBOX[i]| == 64
  {
  }

  function Num(b: bool): nat {
    if b then 1 else 0
  }

  /** A group of six bits selects the row by its outer and the column by its inner bits. */
  function SBoxEntry(i: nat, b: bits): bv8
    requires i < 8 && |b| == 6
  {
    SBoxTable();
    var row := 2 * Num(b[0]) + Num(b[5]);
    var column := 8 * Num(b[1]) + 4 * Num(b[2]) + 2 * Num(b[3]) + Num(b[4]);
    SBOX[i][16 * row + column]
  }

  /** The four low bits of an S-box entry. */
  function Nibble(v: bv8): (r: bits)
    ensures |r| == 4
  {
    WordBits(v as bv64, 4)
  }

  /** The first n S-boxes applied to their groups of six bits. */
  function Substitute(s: bits, n: nat): (r: bits)
    requires |s| == 48 && n <= 8
    ensures |r| == 4 * n
  {
    if n == 0 then [] else Substitute(s, n - 1) + Nibble(SBoxEntry(n - 1, s[6 * n - 6..6 * n]))
  }

  ghost function F(r: half, k: subkey): half {
    ExpansionTable();
    PBoxTable();
    Permute(Substitute(Xor(Permute(r, EXPANSION), k), 8), PBOX)
  }

  // ---------- Enciphering and deciphering ----------

  lemma InitialLeft(r: nat, c: nat)
    requires r < 4 && c < 8
    ensures |IP_LEFT| == 32
    ensures IP_LEFT[8 * r + c] == 58 + 2 * r - 8 * c
  {
  }

  lemma InitialRight(r: nat, c: nat)
    requires r < 4 && c < 8
    ensures |IP_RIGHT| == 32
    ensures IP_RIGHT[8 * r + c] == 57 + 2 * r - 8 * c
  {
  }

  lemma FinalLeft(r: nat, c: nat)
    requires r < 4 && c < 4
    ensures |FP_LEFT| == 32
    ensures FP_LEFT[8 * r + 2 * c] == 40 + 8 * c - r
    ensures FP_LEFT[8 * r + 2 * c + 1] == 8 + 8 * c - r
  {
  }

  lemma FinalRight(r: nat, c: nat)
    requires r < 4 && c < 4
    ensures |FP_RIGHT| == 32
    ensures FP_RIGHT[8 * r + 2 * c] == 36 + 8 * c - r
    ensures FP_RIGHT[8 * r + 2 * c + 1] == 4 + 8 * c - r
  {
  }

  /** Entry i of IP, by the half, row and column it stands in. */
  lemma InitialAt(h: nat, r: nat, c: nat)
    requires h < 2 && r < 4 && c < 8
    ensures |IP| == 64 && IP[32 * h + 8 * r + c] == 58 - h + 2 * r - 8 * c
  {
    hide IP_LEFT, IP_RIGHT;
    InitialLeft(r, c);
    InitialRight(r, c);
  }

  /** Entry i of FP, by the row, the pair of columns and the place in that pair. */
  lemma FinalAt(r: nat, c: nat, b: nat)
    requires r < 8 && c < 4 && b < 2
    ensures |FP| == 64 && FP[8 * r + 2 * c + b] == 40 - 32 * b + 8 * c - r
  {
    hide FP_LEFT, FP_RIGHT;
    FinalLeft(r % 4, c);
    FinalRight(r % 4, c);
  }

  lemma FinalOfInitial(i: nat)
    requires i < 64
    ensures |IP| == |FP| == 64 && 1 <= IP[i] <= 64 && FP[IP[i] - 1] == i + 1
  {
    hide *;
    var h, r, c := i / 32, i / 8 % 4, i % 8;
    InitialAt(h, r, c);
    FinalAt(7 - c, r, 1 - h);
  }

  lemma InitialOfFinal(i: nat)
    requires i < 64
    ensures |IP| == |FP| == 64 && 1 <= FP[i] <= 64 && IP[FP[i] - 1] == i + 1
  {
    hide *;
    var r, c, b := i / 8, i / 2 % 4, i % 2;
    FinalAt(r, c, b);
    InitialAt(1 - b, c, 7 - r);
  }

  lemma BlockTables()
    ensures |IP| == |FP| == 64 && Picks(IP, 64) && Picks(FP, 64)
    ensures forall i | 0 <= i < 64 :: FP[IP[i] - 1] == i + 1 && IP[FP[i] - 1] == i + 1
  {
    hide IP, FP;
    FinalOfInitial(0);
    forall i | 0 <= i < 64
      ensures 1 <= IP[i] <= 64 && FP[IP[i] - 1] == i + 1 && 1 <= FP[i] <= 64 && IP[FP[i] - 1] == i + 1
    {
      FinalOfInitial(i);
      InitialOfFinal(i);
    }
  }

  /** FP undoes IP, and IP undoes FP. */
  lemma PermutationsCancel(b: block)
    ensures Picks(IP, 64) && Picks(FP, 64) && |IP| == |FP| == 64
    ensures Permute(Permute(b, IP), FP) == b && Permute(Permute(b, FP), IP) == b
  {
    hide IP, FP;
    BlockTables();
  }

  ghost function Rounds(l: half, r: half, ks: seq<subkey>): (half, half)
    decreases |ks|
  {
    if ks == [] then (l, r) else Rounds(r, Xor(l, F(r, ks[0])), ks[1..])
  }

  /** The block enciphered with the given subkeys, one round each. */
  ghost function Encipher(ks: seq<subkey>, b: block): block {
    BlockTables();
    var p := Permute(b, IP);
    var (l, r) := Rounds(p[..32], p[32..], ks);
    Permute(r + l, FP)
  }

  ghost function Reverse(ks: seq<subkey>): (r: seq<subkey>)
    ensures |r| == |ks|
    ensures forall i | 0 <= i < |ks| :: r[i] == ks[|ks| - 1 - i]
  {
    if ks == [] then [] else Reverse(ks[1..]) + [ks[0]]
  }

  /** Deciphering is the same computation with the subkeys in reverse order. */
  ghost function Des(ks: seq<subkey>, b: block, encrypt: bool): block {
    Encipher(if encrypt then ks else Reverse(ks), b)
  }

  // ---------- Deciphering undoes enciphering ----------

  lemma XorCancels(a: bits, b: bits)
    requires |a| == |b|
    ensures Xor(Xor(a, b), b) == a
  {
  }

  lemma {:induction false} LastRound(l: half, r: half, ks: seq<subkey>, k: subkey)
    ensures var (l', r') := Rounds(l, r, ks);
            Rounds(l, r, ks + [k]) == (r', Xor(l', F(r', k)))
    decreases |ks|
  {
    if ks == [] {
      assert [k][1..] == [];
    } else {
      LastRound(r, Xor(l, F(r, ks[0])), ks[1..], k);
      assert (ks + [k])[1..] == ks[1..] + [k];
    }
  }

  /** Running the rounds backwards on the exchanged halves gives the halves back, exchanged. */
  lemma {:induction false} RoundsUndone(l: half, r: half, ks: seq<subkey>)
    ensures var (l', r') := Rounds(l, r, ks);
            Rounds(r', l', Reverse(ks)) == (r, l)
    decreases |ks|
  {
    if ks == [] {
    } else {
      var k, t := ks[0], ks[1..];
      var l1, r1 := r, Xor(l, F(r, k));
      RoundsUndone(l1, r1, t);
      var (l', r') := Rounds(l1, r1, t);
      LastRound(r', l', Reverse(t), k);
      XorCancels(l, F(r, k));
    }
  }

  lemma EncipherUndone(ks: seq<subkey>, b: block)
    ensures Encipher(Reverse(ks), Encipher(ks, b)) == b
  {
    hide IP, FP;
    BlockTables();
    var p: block := Permute(b, IP);
    var (l, r) := Rounds(p[..32], p[32..], ks);
    PermutationsCancel(r + l);
    RoundsUndone(p[..32], p[32..], ks);
    assert (r + l)[..32] == r && (r + l)[32..] == l;
    assert p[..32] + p[32..] == p;
    PermutationsCancel(b);
  }

  lemma ReverseTwice(ks: seq<subkey>)
    ensures Reverse(Reverse(ks)) == ks
  {
  }

  lemma DesUndone(ks: seq<subkey>, b: block, encrypt: bool)
    ensures Des(ks, Des(ks, b, encrypt), !encrypt) == b
  {
    EncipherUndone(if encrypt then ks else Reverse(ks), b);
    ReverseTwice(ks);
  }

  // ---------- Complementation ----------

  ghost function NotAll(ks: seq<subkey>): (r: seq<subkey>)
    ensures |r| == |ks|
  {
    seq(|ks|, i requires 0 <= i < |ks| => Not(ks[i]))
  }

  /** The round function absorbs the complement: the expansion meets the subkey in an xor. */
  lemma FAbsorbsNot(r: half, k: subkey)
    ensures F(Not(r), Not(k)) == F(r, k)
  {
    ExpansionTable();
    PermuteNot(r, EXPANSION);
    assert Xor(Not(Permute(r, EXPANSION)), Not(k)) == Xor(Permute(r, EXPANSION), k);
  }

  lemma {:induction false} RoundsComplement(l: half, r: half, ks: seq<subkey>)
    ensures var (l', r') := Rounds(l, r, ks);
            Rounds(Not(l), Not(r), NotAll(ks)) == (Not(l'), Not(r'))
    decreases |ks|
  {
    if ks == [] {
    } else {
      FAbsorbsNot(r, ks[0]);
      var f := F(r, ks[0]);
      assert Xor(Not(l), f) == Not(Xor(l, f));
      assert NotAll(ks)[1..] == NotAll(ks[1..]);
      RoundsComplement(r, Xor(l, f), ks[1..]);
    }
  }

  lemma EncipherComplement(ks: seq<subkey>, b: block)
    ensures Encipher(NotAll(ks), Not(b)) == Not(Encipher(ks, b))
  {
    hide IP, FP, Rounds;
    BlockTables();
    PermuteNot(b, IP);
    var p: block := Permute(b, IP);
    var (l, r) := Rounds(p[..32], p[32..], ks);
    RoundsComplement(p[..32], p[32..], ks);
    assert Not(p)[..32] == Not(p[..32]) && Not(p)[32..] == Not(p[32..]);
    assert Not(r) + Not(l) == Not(r + l);
    PermuteNot(r + l, FP);
  }

  lemma DesComplement(ks: seq<subkey>, b: block, encrypt: bool)
    ensures Des(NotAll(ks), Not(b), encrypt) == Not(Des(ks, b, encrypt))
  {
    hide Encipher, NotAll, Reverse, Not;
    EncipherComplement(if encrypt then ks else Reverse(ks), b);
    NotReverse(ks);
  }

  lemma NotReverse(ks: seq<subkey>)
    ensures NotAll(Reverse(ks)) == Reverse(NotAll(ks))
  {
    hide Not, Reverse;
    var a, b := NotAll(Reverse(ks)), Reverse(NotAll(ks));
    forall i | 0 <= i < |ks|
      ensures a[i] == b[i]
    {
      assert Reverse(ks)[i] == ks[|ks| - 1 - i];
    }
  }

  // ---------- The key schedule ----------

  lemma ChoiceTables()
    ensures |PC1_LEFT| == 28 && |PC1_RIGHT| == 28
    ensures forall i | 0 <= i < 28 :: 1 <= PC1_LEFT[i] <= 64 && PC1_LEFT[i] % 8 != 0
    ensures forall i | 0 <= i < 28 :: 1 <= PC1_RIGHT[i] <= 64 && PC1_RIGHT[i] % 8 != 0
  {
  }

  lemma Choice2Tables()
    ensures |PC2_LEFT| == 24 && |PC2_RIGHT| == 24
    ensures Picks(PC2_LEFT, 56) && Picks(PC2_RIGHT, 56)
  {
  }

  lemma KeyTables()
    ensures |PC1| == 56 && Picks(PC1, 64) && |PC2| == 48 && Picks(PC2, 56)
    ensures forall i | 0 <= i < 56 :: PC1[i] % 8 != 0
  {
    hide PC1_LEFT, PC1_RIGHT, PC2_LEFT, PC2_RIGHT;
    ChoiceTables();
    Choice2Tables();
  }

  lemma ShiftTable()
    ensures |ITERATION_SHIFT| == 16 && forall i | 0 <= i < 16 :: 1 <= ITERATION_SHIFT[i] <= 2
  {
  }

  type register = s: bits | |s| == 28 witness seq(28, _ => false)

  function RotateLeft(c: register, n: nat): register
    requires n <= 28
  {
    c[n..] + c[..n]
  }

  /** C or D after the first n iterations. */
  ghost function Shifted(c: register, n: nat): register
    requires n <= 16
  {
    ShiftTable();
    if n == 0 then c else RotateLeft(Shifted(c, n - 1), ITERATION_SHIFT[n - 1])
  }

  ghost function Subkey(key: block, n: nat): subkey
    requires n < 16
  {
    KeyTables();
    var p := Permute(key, PC1);
    Permute(Shifted(p[..28], n + 1) + Shifted(p[28..], n + 1), PC2)
  }

  ghost function Schedule(key: block): (r: seq<subkey>)
    ensures |r| == 16
  {
    seq(16, n requires 0 <= n < 16 => Subkey(key, n))
  }

  /** How far the registers have been shifted after n iterations. */
  function TotalShift(n: nat): nat
    requires n <= 16
  {
    ShiftTable();
    if n == 0 then 0 else TotalShift(n - 1) + ITERATION_SHIFT[n - 1]
  }

  lemma RotatedTwice(c: register, a: nat, b: nat)
    requires a + b <= 28
    ensures RotateLeft(RotateLeft(c, a), b) == RotateLeft(c, a + b)
  {
  }

  lemma {:induction false} ShiftedTotal(c: register, n: nat)
    requires n <= 16 && TotalShift(n) <= 28
    ensures Shifted(c, n) == RotateLeft(c, TotalShift(n))
  {
    ShiftTable();
    hide ITERATION_SHIFT;
    if n == 0 {
      assert c[0..] + c[..0] == c;
    } else {
      ShiftedTotal(c, n - 1);
      RotatedTwice(c, TotalShift(n - 1), ITERATION_SHIFT[n - 1]);
    }
  }

  lemma AllShifts()
    ensures TotalShift(16) == 28
  {
    assert TotalShift(4) == 6;
    assert TotalShift(8) == 14;
    assert TotalShift(12) == 21;
  }

  /** After sixteen iterations both registers are back where they began. */
  lemma RegistersComeRound(c: register)
    ensures Shifted(c, 16) == c
  {
    AllShifts();
    hide TotalShift;
    ShiftedTotal(c, 16);
    assert c[28..] + c[..28] == c;
  }

  lemma RotatedNot(c: register, n: nat)
    requires n <= 28
    ensures RotateLeft(Not(c), n) == Not(RotateLeft(c, n))
  {
  }

  lemma {:induction false} ShiftedNot(c: register, n: nat)
    requires n <= 16
    ensures Shifted(Not(c), n) == Not(Shifted(c, n))
  {
    hide ITERATION_SHIFT, RotateLeft, Not;
    if n == 0 {
    } else {
      ShiftTable();
      ShiftedNot(c, n - 1);
      RotatedNot(Shifted(c, n - 1), ITERATION_SHIFT[n - 1]);
    }
  }

  lemma SubkeyNot(key: block, n: nat)
    requires n < 16
    ensures Subkey(Not(key), n) == Not(Subkey(key, n))
  {
    hide PC1, PC2, Shifted;
    KeyTables();
    var p := Permute(key, PC1);
    PermuteNot(key, PC1);
    assert Not(p)[..28] == Not(p[..28]) && Not(p)[28..] == Not(p[28..]);
    ShiftedNot(p[..28], n + 1);
    ShiftedNot(p[28..], n + 1);
    var cd := Shifted(p[..28], n + 1) + Shifted(p[28..], n + 1);
    assert Not(Shifted(p[..28], n + 1)) + Not(Shifted(p[28..], n + 1)) == Not(cd);
    PermuteNot(cd, PC2);
  }

  lemma ScheduleComplement(key: block)
    ensures Schedule(Not(key)) == NotAll(Schedule(key))
  {
    forall n | 0 <= n < 16
      ensures Subkey(Not(key), n) == Not(Subkey(key, n))
    {
      SubkeyNot(key, n);
    }
  }

  /** The keys differ at most in the last bit of each byte. */
  ghost predicate SameButParity(a: block, b: block) {
    forall i | 0 <= i < 64 && i % 8 != 7 :: a[i] == b[i]
  }

  lemma ParityIgnored(a: block, b: block)
    requires SameButParity(a, b)
    ensures Schedule(a) == Schedule(b)
  {
    hide PC1;
    KeyTables();
    assert Permute(a, PC1) == Permute(b, PC1);
  }

  // ---------- Different keys have different schedules ----------

  /** Where permuted choice 2 puts each bit of C and of D; 24 stands for those it leaves out. */
  const C_TAKEN: seq<nat> := [
    4, 23, 6, 15, 5, 9, 19, 17, 24, 11, 2, 14, 22, 0,
    8, 18, 1, 24, 13, 21, 10, 24, 12, 3, 24, 16, 20, 7
  ]

  const D_TAKEN: seq<nat> := [
    22, 6, 2, 23, 10, 16, 24, 21, 3, 24, 14, 7, 0, 19,
    24, 12, 9, 18, 4, 11, 13, 20, 8, 1, 17, 24, 5, 15
  ]

  predicate InC(j: nat) {
    j < 28 && j != 8 && j != 17 && j != 21 && j != 24
  }

  predicate InD(j: nat) {
    j < 28 && j != 6 && j != 9 && j != 14 && j != 25
  }

  lemma TakenFromC(j: nat)
    requires InC(j)
    ensures |C_TAKEN| == 28 && |PC2_LEFT| == 24 && C_TAKEN[j] < 24 && PC2_LEFT[C_TAKEN[j]] == j + 1
  {
  }

  lemma TakenFromD(j: nat)
    requires InD(j)
    ensures |D_TAKEN| == 28 && |PC2_RIGHT| == 24 && D_TAKEN[j] < 24 && PC2_RIGHT[D_TAKEN[j]] == j + 29
  {
  }

  ghost function Choice2(c: register, d: register): subkey {
    KeyTables();
    Permute(c + d, PC2)
  }

  /** A subkey shows all but four bits of C and four of D. */
  lemma Choice2Shows(c: register, d: register, c': register, d': register, j: nat)
    requires Choice2(c, d) == Choice2(c', d')
    ensures InC(j) ==> c[j] == c'[j]
    ensures InD(j) ==> d[j] == d'[j]
  {
    hide PC2_LEFT, PC2_RIGHT, C_TAKEN, D_TAKEN, PC1;
    KeyTables();
    Choice2Tables();
    if InC(j) {
      TakenFromC(j);
      var i := C_TAKEN[j];
      assert PC2[i] == j + 1;
      assert Choice2(c, d)[i] == (c + d)[j] && Choice2(c', d')[i] == (c' + d')[j];
    }
    if InD(j) {
      TakenFromD(j);
      var i := 24 + D_TAKEN[j];
      assert PC2[i] == j + 29;
      assert Choice2(c, d)[i] == (c + d)[28 + j] && Choice2(c', d')[i] == (c' + d')[28 + j];
    }
  }

  /** Those that one subkey leaves out are in the next, one place further left. */
  lemma TwoSubkeysShow(c: register, d: register, c': register, d': register)
    requires Choice2(c, d) == Choice2(c', d')
    requires Choice2(RotateLeft(c, 1), RotateLeft(d, 1)) == Choice2(RotateLeft(c', 1), RotateLeft(d', 1))
    ensures c == c' && d == d'
  {
    hide Choice2;
    forall j | 0 <= j < 28
      ensures c[j] == c'[j] && d[j] == d'[j]
    {
      Choice2Shows(c, d, c', d', j);
      if j > 0 {
        Choice2Shows(RotateLeft(c, 1), RotateLeft(d, 1), RotateLeft(c', 1), RotateLeft(d', 1), j - 1);
        assert RotateLeft(c, 1)[j - 1] == c[j] && RotateLeft(c', 1)[j - 1] == c'[j];
        assert RotateLeft(d, 1)[j - 1] == d[j] && RotateLeft(d', 1)[j - 1] == d'[j];
      }
    }
  }

  lemma RotatedBack(c: register, c': register)
    requires RotateLeft(c, 1) == RotateLeft(c', 1)
    ensures c == c'
  {
    assert c == RotateLeft(c, 1)[27..] + RotateLeft(c, 1)[..27];
    assert c' == RotateLeft(c', 1)[27..] + RotateLeft(c', 1)[..27];
  }

  lemma FirstShifts(c: register)
    ensures Shifted(c, 1) == RotateLeft(c, 1) && Shifted(c, 2) == RotateLeft(RotateLeft(c, 1), 1)
  {
    assert Shifted(c, 0) == c;
  }

  ghost function Chosen(key: block): (p: bits)
    ensures |p| == 56
  {
    KeyTables();
    Permute(key, PC1)
  }

  lemma FirstSubkeys(key: block)
    ensures var c, d := RotateLeft(Chosen(key)[..28], 1), RotateLeft(Chosen(key)[28..], 1);
            Subkey(key, 0) == Choice2(c, d) && Subkey(key, 1) == Choice2(RotateLeft(c, 1), RotateLeft(d, 1))
  {
    hide PC1, PC2, Shifted, RotateLeft, ITERATION_SHIFT;
    FirstShifts(Chosen(key)[..28]);
    FirstShifts(Chosen(key)[28..]);
  }

  lemma ChosenFromSchedule(a: block, b: block)
    requires Schedule(a) == Schedule(b)
    ensures Chosen(a) == Chosen(b)
  {
    hide Choice2, Subkey, Chosen, RotateLeft;
    assert Schedule(a)[0] == Schedule(b)[0] && Schedule(a)[1] == Schedule(b)[1];
    FirstSubkeys(a);
    FirstSubkeys(b);
    var c, d, c', d' := Chosen(a)[..28], Chosen(a)[28..], Chosen(b)[..28], Chosen(b)[28..];
    TwoSubkeysShow(RotateLeft(c, 1), RotateLeft(d, 1), RotateLeft(c', 1), RotateLeft(d', 1));
    RotatedBack(c, c');
    RotatedBack(d, d');
    assert Chosen(a) == c + d && Chosen(b) == c' + d';
  }

  /** Where permuted choice 1 puts bit i of the key. */
  function ChosenAt(i: nat): (j: nat)
    requires i < 64 && i % 8 != 7
    ensures j < 56
  {
    var r, c := i / 8, i % 8;
    if c < 3 then 8 * c + 7 - r else if c == 3 && r >= 4 then 31 - r
    else if c == 3 then 55 - r else 83 - 8 * c - r
  }

  lemma ChosenLeft(r: nat, c: nat)
    requires r < 8 && (c < 3 || (c == 3 && r >= 4))
    ensures |PC1_LEFT| == 28 && PC1_LEFT[if c < 3 then 8 * c + 7 - r else 31 - r] == 8 * r + c + 1
  {
  }

  lemma ChosenRight(r: nat, c: nat)
    requires r < 8 && (4 <= c < 7 || (c == 3 && r < 4))
    ensures |PC1_RIGHT| == 28 && PC1_RIGHT[if c == 3 then 27 - r else 55 - 8 * c - r] == 8 * r + c + 1
  {
  }

  lemma ChosenTable(i: nat)
    requires i < 64 && i % 8 != 7
    ensures |PC1| == 56 && PC1[ChosenAt(i)] == i + 1
  {
    hide PC1_LEFT, PC1_RIGHT;
    KeyTables();
    ChoiceTables();
    var r, c := i / 8, i % 8;
    if c < 3 || (c == 3 && r >= 4) {
      ChosenLeft(r, c);
    } else {
      ChosenRight(r, c);
    }
  }

  /** Two keys have the same subkeys if and only if they differ in parity bits only. */
  lemma ScheduleDetermines(a: block, b: block)
    ensures Schedule(a) == Schedule(b) <==> SameButParity(a, b)
  {
    hide Schedule, PC1, ChosenAt;
    if SameButParity(a, b) {
      ParityIgnored(a, b);
    }
    if Schedule(a) == Schedule(b) {
      ChosenFromSchedule(a, b);
      forall i | 0 <= i < 64 && i % 8 != 7
        ensures a[i] == b[i]
      {
        ChosenTable(i);
        assert Chosen(a)[ChosenAt(i)] == a[i] && Chosen(b)[ChosenAt(i)] == b[i];
      }
    }
  }
}
