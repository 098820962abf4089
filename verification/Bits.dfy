/** Machine words and the bit strings they stand for.

    The ciphers are defined by their standards on strings of bits numbered from the left;
    the code computes them on bytes and on 32-bit and 64-bit words.  This module relates
    the two views.
  */
module Bits {
  type byte = bv8
  type bits = seq<bool>

  function Not(a: bits): (r: bits)
    ensures |r| == |a|
  {
    seq(|a|, i requires 0 <= i < |a| => !a[i])
  }

  function Xor(a: bits, b: bits): (r: bits)
    requires |a| == |b|
    ensures |r| == |a|
  {
    seq(|a|, i requires 0 <= i < |a| => a[i] != b[i])
  }

  // ---------- Words ----------

  function Half(x: bv64): bv64 {
    x >> 1
  }

  predicate Low(x: bv64) {
    x & 1 == 1
  }

  /** Bit m of x, bit 0 being the least significant one. */
  predicate Bit(x: bv64, m: nat)
    decreases m
  {
    if m == 0 then Low(x) else Bit(Half(x), m - 1)
  }

  /** The low n bits of x, most significant first. */
  function WordBits(x: bv64, n: nat): (r: bits)
    ensures |r| == n
  {
    seq(n, k requires 0 <= k < n => Bit(x, n - 1 - k))
  }

  /** What the code's shift-and-mask idiom reads. */
  predicate ShiftedBit(x: bv64, m: bv8)
    requires m < 64
  {
    (x >> m) & 1 == 1
  }

  lemma HalfShift(x: bv64, m: bv8)
    requires m < 63
    ensures ShiftedBit(Half(x), m) == ShiftedBit(x, m + 1)
  {
  }

  lemma NoShift(x: bv64)
    ensures ShiftedBit(x, 0) == Low(x)
  {
  }

  lemma NextPosition(s: bv8)
    requires s < 255
    ensures (s + 1) as int == s as int + 1
  {
  }

  lemma Recast(s: bv8)
    ensures (s as int) as bv8 == s
    ensures s as int < 64 ==> s < 64
    ensures s as int < 255 ==> s < 255
  {
  }

  /** Small numbers survive the conversion to a byte. */
  lemma {:induction false} Position(m: nat)
    requires m < 256
    ensures (m as bv8) as int == m && (m < 64 ==> m as bv8 < 64)
  {
    if m == 0 {
    } else {
      Position(m - 1);
      var s := (m - 1) as bv8;
      Recast(s);
      NextPosition(s);
      Recast(s + 1);
    }
  }

  lemma {:induction false} ShiftReads(x: bv64, s: bv8)
    requires s < 64
    ensures ShiftedBit(x, s) == Bit(x, s as int)
    decreases s as int
  {
    hide ShiftedBit, Half, Low;
    if s == 0 {
      NoShift(x);
    } else {
      NextPosition(s - 1);
      ShiftReads(Half(x), s - 1);
      HalfShift(x, s - 1);
    }
  }

  /** The same with the shift amount computed as an int, as the code's tables give it. */
  lemma BitIsShift(x: bv64, m: nat)
    requires m < 64
    ensures m as bv8 < 64 && ShiftedBit(x, m as bv8) == Bit(x, m)
  {
    Position(m);
    ShiftReads(x, m as bv8);
  }

  lemma ShiftInAt(x: bv64, b: bv64, m: bv8)
    requires m < 63 && b <= 1
    ensures ShiftedBit((x << 1) | b, m + 1) == ShiftedBit(x, m)
  {
  }

  lemma ShiftInBit(x: bv64, b: bv64, m: nat)
    requires m < 63 && b <= 1
    ensures Bit((x << 1) | b, m + 1) == Bit(x, m)
  {
    var s := m as bv8;
    Position(m);
    NextPosition(s);
    ShiftReads((x << 1) | b, s + 1);
    ShiftReads(x, s);
    ShiftInAt(x, b, s);
  }

  lemma ShiftInLow(x: bv64, b: bv64)
    requires b <= 1
    ensures Low((x << 1) | b) == (b == 1)
  {
  }

  /** Shifting a bit into the right end of a word appends it to the bit string. */
  lemma ShiftIn(x: bv64, b: bv64, n: nat)
    requires n < 64 && b <= 1
    ensures WordBits((x << 1) | b, n + 1) == WordBits(x, n) + [b == 1]
  {
    var z := (x << 1) | b;
    ShiftInLow(x, b);
    forall k | 0 <= k < n
      ensures WordBits(z, n + 1)[k] == WordBits(x, n)[k]
    {
      ShiftInBit(x, b, n - 1 - k);
    }
    assert Bit(z, 0) == (b == 1);
    assert WordBits(z, n + 1)[n] == Bit(z, 0);
  }

  predicate IsXor(x: bv64, y: bv64, z: bv64) {
    z == x ^ y
  }

  lemma HalfXor(x: bv64, y: bv64, z: bv64)
    requires IsXor(x, y, z)
    ensures IsXor(Half(x), Half(y), Half(z))
    ensures Low(z) == (Low(x) != Low(y))
  {
  }

  lemma {:induction false} BitXor(x: bv64, y: bv64, z: bv64, m: nat)
    requires IsXor(x, y, z)
    ensures Bit(z, m) == (Bit(x, m) != Bit(y, m))
    decreases m
  {
    hide IsXor, Half, Low;
    HalfXor(x, y, z);
    if m == 0 {
    } else {
      BitXor(Half(x), Half(y), Half(z), m - 1);
    }
  }

  lemma WordBitsXor(x: bv64, y: bv64, n: nat)
    requires n <= 64
    ensures WordBits(x ^ y, n) == Xor(WordBits(x, n), WordBits(y, n))
  {
    forall m: nat | m < n
      ensures Bit(x ^ y, m) == (Bit(x, m) != Bit(y, m))
    {
      BitXor(x, y, x ^ y, m);
    }
  }

  function ZeroBytes(n: nat): (r: seq<byte>)
    ensures |r| == n
  {
    seq(n, _ => 0)
  }
}
