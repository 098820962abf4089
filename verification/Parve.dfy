/** The "Parve" block cipher and its chained MAC as functions on byte strings.

    A block is carried as nine bytes, the ninth wrapping round to the first.  No standard
    defines this cipher; what makes it a cipher is that it can be undone, and the module
    gives the inverse explicitly, for every key and every substitution table.
  */
module Parve {
  import opened Bits
  import opened Memory

  type table = s: seq<byte> | |s| == 256 witness seq(256, _ => 0)
  type wrapped = s: seq<byte> | |s| == 9 witness [0, 0, 0, 0, 0, 0, 0, 0, 0]

  function Plus(x: byte, y: byte): byte {
    x + y
  }

  function Value(x: byte): nat
    ensures Value(x) < 256
  {
    x as int
  }

  function RotateLeft1(y: byte): byte {
    (y << 1) | (y >> 7)
  }

  function RotateRight1(y: byte): byte {
    (y >> 1) | (y << 7)
  }

  function Mix(mask: byte, y: byte): byte {
    RotateLeft1(Plus(mask, y))
  }

  function Unmix(mask: byte, z: byte): byte {
    RotateRight1(z) - mask
  }

  /** The byte that step j of round i adds to the next byte of the block. */
  function Mask(key: block8, sbox: table, b: wrapped, i: byte, j: nat): byte
    requires j < 8
  {
    sbox[Index(key[j], b[j], i)]
  }

  /** uint8_t arithmetic: the sum wraps round. */
  function Index(k: byte, b: byte, i: byte): nat
    ensures Index(k, b, i) < 256
  {
    Value(Plus(Plus(k, b), i))
  }

  function Step(key: block8, sbox: table, b: wrapped, i: byte, j: nat): wrapped
    requires j < 8
  {
    b[j + 1 := Mix(Mask(key, sbox, b, i, j), b[j + 1])]
  }

  /** The first j steps of round i: each byte is changed by the one before it, already changed. */
  function Steps(key: block8, sbox: table, b: wrapped, i: byte, j: nat): wrapped
    requires j <= 8
  {
    if j == 0 then b else Step(key, sbox, Steps(key, sbox, b, i, j - 1), i, j - 1)
  }

  function Round(key: block8, sbox: table, b: wrapped, i: byte): wrapped {
    var c := Steps(key, sbox, b, i, 8);
    c[0 := c[8]]
  }

  /** Rounds n, n - 1, ..., 1. */
  function Rounds(key: block8, sbox: table, b: wrapped, n: nat): wrapped
    requires n <= 8
    decreases n
  {
    if n == 0 then b else Rounds(key, sbox, Round(key, sbox, b, n as byte), n - 1)
  }

  function Ecb(key: block8, sbox: table, input: block8): block8 {
    Rounds(key, sbox, input + [input[0]], 8)[..8]
  }

  // ---------- In closed form ----------

  lemma PlusOne(x: byte)
    ensures Value(Plus(x, 1)) == (Value(x) + 1) % 256
  {
    if x < 255 {
      NextPosition(x);
    } else {
      assert x + 1 == 0;
    }
  }

  lemma PlusNone(x: byte)
    ensures Plus(x, 0) == x && Value(0) == 0
  {
  }

  lemma Before(y: byte) returns (p: byte)
    requires y != 0
    ensures y == Plus(p, 1) && Value(y) == Value(p) + 1
  {
    p := y - 1;
    NextPosition(p);
  }

  lemma Regrouped(x: byte, y: byte)
    ensures Plus(x, Plus(y, 1)) == Plus(Plus(x, y), 1)
  {
  }

  lemma OneMore(a: nat)
    ensures (a % 256 + 1) % 256 == (a + 1) % 256
  {
  }

  /** uint8_t addition. */
  lemma {:induction false} SumIs(x: byte, y: byte)
    ensures Value(Plus(x, y)) == (Value(x) + Value(y)) % 256
    decreases Value(y)
  {
    hide Plus, Value;
    PlusNone(x);
    if y == 0 {
    } else {
      var p := Before(y);
      SumIs(x, p);
      PlusOne(Plus(x, p));
      Regrouped(x, p);
      OneMore(Value(x) + Value(p));
    }
  }

  lemma RotationIs(y: byte)
    ensures Value(RotateLeft1(y)) == Value(y) * 2 % 256 + Value(y) / 128
  {
    Doubled(y);
    HighBit(y);
    hide RotateLeft1, Plus, Value;
    SumIs(y, y);
    PlusOne(Plus(y, y));
  }

  /** A rotation doubles, and the bit that drops out comes back as a one. */
  lemma Doubled(y: byte)
    ensures RotateLeft1(y) == if y < 128 then Plus(y, y) else Plus(Plus(y, y), 1)
  {
  }

  lemma HighBit(y: byte)
    ensures y < 128 <==> Value(y) < 128
  {
  }

  lemma SumOfThree(k: byte, b: byte, i: byte)
    ensures Index(k, b, i) == (Value(k) + Value(b) + Value(i)) % 256
  {
    hide Plus, Value;
    SumIs(k, b);
    SumIs(Plus(k, b), i);
    RemainderOfSum(Value(k) + Value(b), Value(i));
  }

  lemma RemainderOfSum(a: nat, b: nat)
    ensures (a % 256 + b) % 256 == (a + b) % 256
  {
  }

  /** A byte z of the new block is the sum of the old byte b and the table's entry at the sum of
      key byte, preceding byte and round number, its highest bit moved to the lowest place.
    */
  predicate NewByte(sbox: table, k: byte, last: byte, b: byte, i: byte, z: byte) {
    var s := (Value(sbox[(Value(k) + Value(last) + Value(i)) % 256]) + Value(b)) % 256;
    Value(z) == s * 2 % 256 + s / 128
  }

  lemma NewByteIs(sbox: table, k: byte, last: byte, b: byte, i: byte)
    ensures NewByte(sbox, k, last, b, i, Mix(sbox[Index(k, last, i)], b))
  {
    hide RotateLeft1, Plus, Value, Index;
    SumOfThree(k, last, i);
    var mask := sbox[Index(k, last, i)];
    SumIs(mask, b);
    RotationIs(Plus(mask, b));
  }

  /** In a round, each byte of the new block follows from the one before it, which is new as
      well except for the first; the ninth is the new first.
    */
  ghost predicate RoundBytes(key: block8, sbox: table, b: wrapped, i: byte, c: wrapped) {
    hide NewByte;
    && c[0] == c[8]
    && forall j | 0 <= j < 8 :: NewByte(sbox, key[j], if j == 0 then b[0] else c[j], b[j + 1], i, c[j + 1])
  }

  lemma {:induction false} StepsAt(key: block8, sbox: table, b: wrapped, i: byte, n: nat, j: nat)
    requires n <= 8 && j <= 8
    ensures var c := Steps(key, sbox, b, i, n);
            && c[0] == b[0] && (j > n ==> c[j] == b[j])
            && (0 < j <= n ==> c[j] == Mix(sbox[Index(key[j - 1], c[j - 1], i)], b[j]))
    decreases n
  {
    hide Mix, Index;
    if n > 0 {
      StepsAt(key, sbox, b, i, n - 1, j);
      StepsAt(key, sbox, b, i, n - 1, n);
    }
  }

  lemma RoundIs(key: block8, sbox: table, b: wrapped, i: byte)
    ensures RoundBytes(key, sbox, b, i, Round(key, sbox, b, i))
  {
    hide Mix, Index, NewByte, Steps;
    var d, c := Steps(key, sbox, b, i, 8), Round(key, sbox, b, i);
    forall j | 0 <= j < 8
      ensures NewByte(sbox, key[j], if j == 0 then b[0] else c[j], b[j + 1], i, c[j + 1])
    {
      StepsAt(key, sbox, b, i, 8, j + 1);
      assert d[j] == if j == 0 then b[0] else c[j];
      NewByteIs(sbox, key[j], d[j], b[j + 1], i);
    }
  }

  /** Eight rounds, numbered down to one. */
  lemma EcbIs(key: block8, sbox: table, input: block8)
    ensures var b8 := Round(key, sbox, input + [input[0]], 8);
            var b7 := Round(key, sbox, b8, 7);
            var b6 := Round(key, sbox, b7, 6);
            var b5 := Round(key, sbox, b6, 5);
            var b4 := Round(key, sbox, b5, 4);
            var b3 := Round(key, sbox, b4, 3);
            var b2 := Round(key, sbox, b3, 2);
            Ecb(key, sbox, input) == Round(key, sbox, b2, 1)[..8]
  {
    hide Round;
    var b8 := Round(key, sbox, input + [input[0]], 8);
    var b7 := Round(key, sbox, b8, 7);
    var b6 := Round(key, sbox, b7, 6);
    assert Rounds(key, sbox, b6, 5) == Rounds(key, sbox, input + [input[0]], 8);
    var b5 := Round(key, sbox, b6, 5);
    var b4 := Round(key, sbox, b5, 4);
    var b3 := Round(key, sbox, b4, 3);
    assert Rounds(key, sbox, b3, 2) == Rounds(key, sbox, b6, 5);
  }

  // ---------- The inverse ----------

  function UnStep(key: block8, sbox: table, c: wrapped, i: byte, j: nat): wrapped
    requires j < 8
  {
    c[j + 1 := Unmix(Mask(key, sbox, c, i, j), c[j + 1])]
  }

  /** Undoes steps j - 1, ..., 0. */
  function UnSteps(key: block8, sbox: table, c: wrapped, i: byte, j: nat): wrapped
    requires j <= 8
    decreases j
  {
    if j == 0 then c else UnSteps(key, sbox, UnStep(key, sbox, c, i, j - 1), i, j - 1)
  }

  /** The first byte of the round's input was its ninth, which the last step changed. */
  function UnRound(key: block8, sbox: table, c: wrapped, i: byte): wrapped {
    var first := Unmix(Mask(key, sbox, c, i, 7), c[8]);
    UnSteps(key, sbox, c[0 := first], i, 8)
  }

  function UnRounds(key: block8, sbox: table, c: wrapped, n: nat): wrapped
    requires n <= 8
  {
    if n == 0 then c else UnRound(key, sbox, UnRounds(key, sbox, c, n - 1), n as byte)
  }

  function UnEcb(key: block8, sbox: table, output: block8): block8 {
    UnRounds(key, sbox, output + [output[0]], 8)[..8]
  }

  lemma RotationUndone(y: byte)
    ensures RotateRight1(RotateLeft1(y)) == y && RotateLeft1(RotateRight1(y)) == y
  {
  }

  lemma SumUndone(m: byte, y: byte)
    ensures m + y - m == y && m + (y - m) == y
  {
  }

  lemma MixUndone(m: byte, y: byte)
    ensures Unmix(m, Mix(m, y)) == y && Mix(m, Unmix(m, y)) == y
  {
    hide RotateLeft1, RotateRight1;
    RotationUndone(m + y);
    RotationUndone(y);
    SumUndone(m, y);
    SumUndone(m, RotateRight1(y));
  }

  lemma MaskKept(key: block8, sbox: table, b: wrapped, c: wrapped, i: byte, j: nat)
    requires j < 8 && b[j] == c[j]
    ensures Mask(key, sbox, b, i, j) == Mask(key, sbox, c, i, j)
  {
    hide Index;
  }

  lemma StepUndone(key: block8, sbox: table, b: wrapped, i: byte, j: nat)
    requires j < 8
    ensures UnStep(key, sbox, Step(key, sbox, b, i, j), i, j) == b
    ensures Step(key, sbox, UnStep(key, sbox, b, i, j), i, j) == b
  {
    hide Mix, Unmix, Mask;
    MaskKept(key, sbox, b, Step(key, sbox, b, i, j), i, j);
    MaskKept(key, sbox, b, UnStep(key, sbox, b, i, j), i, j);
    MixUndone(Mask(key, sbox, b, i, j), b[j + 1]);
  }

  lemma {:induction false} StepsUndone(key: block8, sbox: table, b: wrapped, i: byte, j: nat)
    requires j <= 8
    ensures UnSteps(key, sbox, Steps(key, sbox, b, i, j), i, j) == b
    decreases j
  {
    hide Step, UnStep;
    if j == 0 {
    } else {
      StepUndone(key, sbox, Steps(key, sbox, b, i, j - 1), i, j - 1);
      StepsUndone(key, sbox, b, i, j - 1);
    }
  }

  lemma {:induction false} UnStepsUndone(key: block8, sbox: table, c: wrapped, i: byte, j: nat)
    requires j <= 8
    ensures Steps(key, sbox, UnSteps(key, sbox, c, i, j), i, j) == c
    decreases j
  {
    hide Step, UnStep;
    if j == 0 {
    } else {
      UnStepsUndone(key, sbox, UnStep(key, sbox, c, i, j - 1), i, j - 1);
      StepUndone(key, sbox, c, i, j - 1);
    }
  }

  /** The steps leave the first byte, and all bytes after the current one, alone. */
  lemma {:induction false} StepsKeep(key: block8, sbox: table, b: wrapped, i: byte, j: nat, k: nat)
    requires j <= 8 && k < 9 && (k == 0 || k > j)
    ensures Steps(key, sbox, b, i, j)[k] == b[k]
  {
    if j == 0 {
    } else {
      StepsKeep(key, sbox, b, i, j - 1, k);
    }
  }

  lemma {:induction false} UnStepsKeep(key: block8, sbox: table, c: wrapped, i: byte, j: nat, k: nat)
    requires j <= 8 && k < 9 && (k == 0 || k > j)
    ensures UnSteps(key, sbox, c, i, j)[k] == c[k]
    decreases j
  {
    if j == 0 {
    } else {
      UnStepsKeep(key, sbox, UnStep(key, sbox, c, i, j - 1), i, j - 1, k);
    }
  }

  lemma RoundUndone(key: block8, sbox: table, b: wrapped, i: byte)
    requires b[0] == b[8]
    ensures var c := Round(key, sbox, b, i); c[0] == c[8] && UnRound(key, sbox, c, i) == b
  {
    hide Mix, Unmix, Mask;
    var e, d, c := Steps(key, sbox, b, i, 7), Steps(key, sbox, b, i, 8), Round(key, sbox, b, i);
    StepsKeep(key, sbox, b, i, 8, 0);
    StepsKeep(key, sbox, b, i, 7, 8);
    MaskKept(key, sbox, e, c, i, 7);
    MixUndone(Mask(key, sbox, e, i, 7), e[8]);
    assert c[0 := b[0]] == d;
    StepsUndone(key, sbox, b, i, 8);
  }

  lemma UnRoundUndone(key: block8, sbox: table, c: wrapped, i: byte)
    requires c[0] == c[8]
    ensures var b := UnRound(key, sbox, c, i); b[0] == b[8] && Round(key, sbox, b, i) == c
  {
    hide Mix, Unmix, Mask;
    var d := c[0 := Unmix(Mask(key, sbox, c, i, 7), c[8])];
    MaskKept(key, sbox, c, d, i, 7);
    UnStepsKeep(key, sbox, d, i, 8, 0);
    UnStepsKeep(key, sbox, UnStep(key, sbox, d, i, 7), i, 7, 8);
    UnStepsUndone(key, sbox, d, i, 8);
    assert d[0 := d[8]] == c;
  }

  lemma {:induction false} RoundsUndone(key: block8, sbox: table, b: wrapped, n: nat)
    requires n <= 8 && b[0] == b[8]
    ensures var c := Rounds(key, sbox, b, n); c[0] == c[8] && UnRounds(key, sbox, c, n) == b
    decreases n
  {
    hide Round, UnRound;
    if n == 0 {
    } else {
      RoundUndone(key, sbox, b, n as byte);
      RoundsUndone(key, sbox, Round(key, sbox, b, n as byte), n - 1);
    }
  }

  lemma {:induction false} UnRoundsUndone(key: block8, sbox: table, c: wrapped, n: nat)
    requires n <= 8 && c[0] == c[8]
    ensures var b := UnRounds(key, sbox, c, n); b[0] == b[8] && Rounds(key, sbox, b, n) == c
    decreases n
  {
    hide Round, UnRound;
    if n == 0 {
    } else {
      UnRoundsUndone(key, sbox, c, n - 1);
      UnRoundUndone(key, sbox, UnRounds(key, sbox, c, n - 1), n as byte);
    }
  }

  /** The cipher permutes the blocks, whatever the key and the table. */
  lemma EcbUndone(key: block8, sbox: table, b: block8)
    ensures UnEcb(key, sbox, Ecb(key, sbox, b)) == b
    ensures Ecb(key, sbox, UnEcb(key, sbox, b)) == b
  {
    hide Rounds, UnRounds;
    var w: wrapped := b + [b[0]];
    RoundsUndone(key, sbox, w, 8);
    Rewrap(Rounds(key, sbox, w, 8));
    UnRoundsUndone(key, sbox, w, 8);
    Rewrap(UnRounds(key, sbox, w, 8));
  }

  lemma Rewrap(c: wrapped)
    requires c[0] == c[8]
    ensures c[..8] + [c[..8][0]] == c
  {
  }

  // ---------- The chained MAC ----------

  /** Each whole block of m is xored in and enciphered. */
  function CbcMac(key: block8, sbox: table, iv: block8, m: seq<byte>): block8
    decreases |m|
  {
    if |m| < 8 then iv else CbcMac(key, sbox, Ecb(key, sbox, XorBytes(iv, m[..8])), m[8..])
  }

  /** The iv that a message takes to a given result. */
  function UnCbcMac(key: block8, sbox: table, mac: block8, m: seq<byte>): block8
    decreases |m|
  {
    if |m| < 8 then mac else XorBytes(UnEcb(key, sbox, UnCbcMac(key, sbox, mac, m[8..])), m[..8])
  }

  /** For a fixed message, the MAC is a bijection of the iv. */
  lemma {:induction false} CbcMacUndone(key: block8, sbox: table, iv: block8, m: seq<byte>)
    ensures UnCbcMac(key, sbox, CbcMac(key, sbox, iv, m), m) == iv
    ensures CbcMac(key, sbox, UnCbcMac(key, sbox, iv, m), m) == iv
    decreases |m|
  {
    hide Ecb, UnEcb;
    if |m| < 8 {
    } else {
      var x := XorBytes(iv, m[..8]);
      CbcMacUndone(key, sbox, Ecb(key, sbox, x), m[8..]);
      EcbUndone(key, sbox, x);
      XorAgain(iv, m[..8]);
      var y := UnCbcMac(key, sbox, iv, m[8..]);
      CbcMacUndone(key, sbox, iv, m[8..]);
      EcbUndone(key, sbox, y);
      XorAgain(UnEcb(key, sbox, y), m[..8]);
    }
  }

  lemma {:induction false} CbcMacAppend(key: block8, sbox: table, iv: block8, a: seq<byte>, b: seq<byte>)
    requires |a| % 8 == 0
    ensures CbcMac(key, sbox, iv, a + b) == CbcMac(key, sbox, CbcMac(key, sbox, iv, a), b)
    decreases |a|
  {
    hide Ecb;
    if |a| < 8 {
      assert a + b == b;
    } else {
      assert (a + b)[..8] == a[..8] && (a + b)[8..] == a[8..] + b;
      CbcMacAppend(key, sbox, Ecb(key, sbox, XorBytes(iv, a[..8])), a[8..], b);
    }
  }

  /** Two messages that differ in exactly one block never have the same MAC. */
  lemma CbcMacSeparates(key: block8, sbox: table, iv: block8, a: seq<byte>, x: block8, y: block8, b: seq<byte>)
    requires |a| % 8 == 0 && x != y
    ensures CbcMac(key, sbox, iv, a + x + b) != CbcMac(key, sbox, iv, a + y + b)
  {
    hide Ecb, UnEcb, CbcMac, XorBytes;
    var h := CbcMac(key, sbox, iv, a);
    AfterOneBlock(key, sbox, iv, a, x, b);
    AfterOneBlock(key, sbox, iv, a, y, b);
    var u, v := Ecb(key, sbox, XorBytes(h, x)), Ecb(key, sbox, XorBytes(h, y));
    CbcMacUndone(key, sbox, u, b);
    CbcMacUndone(key, sbox, v, b);
    EcbUndone(key, sbox, XorBytes(h, x));
    EcbUndone(key, sbox, XorBytes(h, y));
    XorFromLeft(h, x);
    XorFromLeft(h, y);
  }

  lemma AfterOneBlock(key: block8, sbox: table, iv: block8, a: seq<byte>, x: block8, b: seq<byte>)
    requires |a| % 8 == 0
    ensures CbcMac(key, sbox, iv, a + x + b)
         == CbcMac(key, sbox, Ecb(key, sbox, XorBytes(CbcMac(key, sbox, iv, a), x)), b)
  {
    hide Ecb;
    assert a + x + b == a + (x + b);
    CbcMacAppend(key, sbox, iv, a, x + b);
    assert (x + b)[..8] == x && (x + b)[8..] == b;
  }
}
