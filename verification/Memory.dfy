/** Bytes in memory and the 64-bit words the code copies them into.

    `Load` and `Store` are the memcpy of eight bytes on the little-endian targets, and
    `Swap64` is the byte-swapping macro; together they read and write big-endian words.
  */
module Memory {
  import opened Bits

  type block8 = s: seq<byte> | |s| == 8 witness [0, 0, 0, 0, 0, 0, 0, 0]

  function Join(b0: byte, b1: byte, b2: byte, b3: byte, b4: byte, b5: byte, b6: byte, b7: byte): bv64 {
    (b0 as bv64) | ((b1 as bv64) << 8) | ((b2 as bv64) << 16) | ((b3 as bv64) << 24) |
    ((b4 as bv64) << 32) | ((b5 as bv64) << 40) | ((b6 as bv64) << 48) | ((b7 as bv64) << 56)
  }

  function Load(b: block8): bv64 {
    Join(b[0], b[1], b[2], b[3], b[4], b[5], b[6], b[7])
  }

  function Store(w: bv64): block8 {
    [ (w & 0xFF) as byte, ((w >> 8) & 0xFF) as byte, ((w >> 16) & 0xFF) as byte, ((w >> 24) & 0xFF) as byte,
      ((w >> 32) & 0xFF) as byte, ((w >> 40) & 0xFF) as byte, ((w >> 48) & 0xFF) as byte, ((w >> 56) & 0xFF) as byte ]
  }

  function Swap32(i: bv64): bv64 {
    ((i & 0xFF) << 24) | ((i & 0xFF00) << 8) | ((i & 0xFF0000) >> 8) | ((i >> 24) & 0xFF)
  }

  function Swap64(i: bv64): bv64 {
    (Swap32(i & 0xFFFF_FFFF) << 32) | Swap32((i >> 32) & 0xFFFF_FFFF)
  }

  lemma LoadStore(w: bv64)
    ensures Load(Store(w)) == w
  {
  }

  lemma StoreLoad(b: block8)
    ensures Store(Load(b)) == b
  {
  }

  lemma SwapTwice(w: bv64)
    ensures Swap64(Swap64(w)) == w
  {
  }

  function XorBytes(a: seq<byte>, b: seq<byte>): (r: seq<byte>)
    requires |a| == |b|
    ensures |r| == |a|
  {
    seq(|a|, i requires 0 <= i < |a| => a[i] ^ b[i])
  }

  lemma XorAgain(a: block8, b: block8)
    ensures XorBytes(XorBytes(a, b), b) == a
  {
  }

  lemma XorFromLeft(a: block8, b: block8)
    ensures XorBytes(a, XorBytes(a, b)) == b
  {
  }

  function NotBytes(a: seq<byte>): (r: seq<byte>)
    ensures |r| == |a|
  {
    seq(|a|, i requires 0 <= i < |a| => !a[i])
  }

  lemma LoadXor(a: block8, b: block8, c: block8)
    requires c[0] == a[0] ^ b[0] && c[1] == a[1] ^ b[1] && c[2] == a[2] ^ b[2] && c[3] == a[3] ^ b[3]
    requires c[4] == a[4] ^ b[4] && c[5] == a[5] ^ b[5] && c[6] == a[6] ^ b[6] && c[7] == a[7] ^ b[7]
    ensures Load(a) ^ Load(b) == Load(c)
  {
  }

  /** The xor of two words in memory is the xor of their bytes. */
  lemma XorWords(a: block8, b: block8)
    ensures Store(Load(a) ^ Load(b)) == XorBytes(a, b)
  {
    hide Store, Load;
    LoadXor(a, b, XorBytes(a, b));
    StoreLoad(XorBytes(a, b));
  }

  // ---------- Bits of bytes ----------

  predicate ByteBit(b: byte, m: nat) {
    Bit(b as bv64, m)
  }

  /** The bits of a byte string, the most significant bit of each byte first. */
  function BytesBits(s: seq<byte>): (r: bits)
    ensures |r| == 8 * |s|
  {
    seq(8 * |s|, i requires 0 <= i < 8 * |s| => ByteBit(s[i / 8], 7 - i % 8))
  }

  function ByteOf(b: bits): byte
    requires |b| == 8
  {
    (if b[0] then 0x80 else 0) | (if b[1] then 0x40 else 0) | (if b[2] then 0x20 else 0) | (if b[3] then 0x10 else 0) |
    (if b[4] then 8 else 0) | (if b[5] then 4 else 0) | (if b[6] then 2 else 0) | (if b[7] then 1 else 0)
  }

  /** The byte string with the given bits. */
  function BytesOf(b: bits): (r: seq<byte>)
    requires |b| % 8 == 0
    ensures |r| == |b| / 8
  {
    seq(|b| / 8, i requires 0 <= i < |b| / 8 => ByteOf(b[8 * i..8 * i + 8]))
  }

  lemma Reads8(x: bv64)
    ensures Bit(x, 0) == (x & 1 == 1) && Bit(x, 1) == ((x >> 1) & 1 == 1) && Bit(x, 2) == ((x >> 2) & 1 == 1)
    ensures Bit(x, 3) == ((x >> 3) & 1 == 1) && Bit(x, 4) == ((x >> 4) & 1 == 1) && Bit(x, 5) == ((x >> 5) & 1 == 1)
    ensures Bit(x, 6) == ((x >> 6) & 1 == 1) && Bit(x, 7) == ((x >> 7) & 1 == 1)
  {
    hide Bit;
    ShiftReads(x, 0);
    ShiftReads(x, 1);
    ShiftReads(x, 2);
    ShiftReads(x, 3);
    ShiftReads(x, 4);
    ShiftReads(x, 5);
    ShiftReads(x, 6);
    ShiftReads(x, 7);
  }

  lemma ByteOfBits(b: bits)
    requires |b| == 8
    ensures forall k | 0 <= k < 8 :: ByteBit(ByteOf(b), 7 - k) == b[k]
  {
    hide Bit;
    Reads8(ByteOf(b) as bv64);
  }

  lemma ByteOfByte(x: byte)
    ensures ByteOf(WordBits(x as bv64, 8)) == x
  {
    hide Bit;
    Reads8(x as bv64);
  }

  lemma HalveEight(z: bv64)
    ensures Half(Half(Half(Half(Half(Half(Half(Half(z)))))))) == z >> 8
  {
  }

  lemma Down8(z: bv64, m: nat)
    ensures Bit(z, m + 8) == Bit(z >> 8, m)
  {
    hide Half, Low;
    HalveEight(z);
    var z1 := Half(z);
    var z2 := Half(z1);
    var z3 := Half(z2);
    var z4 := Half(z3);
    var z5 := Half(z4);
    var z6 := Half(z5);
    var z7 := Half(z6);
    assert Bit(z, m + 8) == Bit(z1, m + 7) == Bit(z2, m + 6) == Bit(z3, m + 5) == Bit(z4, m + 4);
    assert Bit(z4, m + 4) == Bit(z5, m + 3) == Bit(z6, m + 2) == Bit(z7, m + 1) == Bit(z >> 8, m);
  }

  lemma LowByte(z: bv64, r: nat)
    requires r < 8
    ensures Bit(z, r) == ByteBit((z & 0xFF) as byte, r)
  {
    hide Bit;
    Reads8(z);
    Reads8(z & 0xFF);
  }

  lemma StoreDown(w: bv64)
    ensures Store(w >> 8)[..7] == Store(w)[1..]
  {
  }

  lemma StoreStep(w: bv64, q: nat)
    requires 0 < q < 8
    ensures Store(w)[q] == Store(w >> 8)[q - 1]
  {
    hide Store;
    StoreDown(w);
    assert Store(w)[1..][q - 1] == Store(w)[q];
  }

  lemma {:induction false} WordByte(w: bv64, q: nat, r: nat)
    requires q < 8 && r < 8
    ensures Bit(w, 8 * q + r) == ByteBit(Store(w)[q], r)
  {
    hide Bit, ByteBit;
    if q == 0 {
      LowByte(w, r);
      assert Store(w)[0] == (w & 0xFF) as byte;
    } else {
      Down8(w, 8 * (q - 1) + r);
      WordByte(w >> 8, q - 1, r);
      StoreStep(w, q);
    }
  }

  lemma StoreSwapped(w: bv64)
    ensures var s, t := Store(Swap64(w)), Store(w);
            s == [t[7], t[6], t[5], t[4], t[3], t[2], t[1], t[0]]
  {
  }

  /** The bits of a word are those of its bytes stored big-endian. */
  lemma WordIsBytes(w: bv64)
    ensures WordBits(w, 64) == BytesBits(Store(Swap64(w)))
  {
    hide Bit, ByteBit, Store, Swap64;
    var s := Store(Swap64(w));
    StoreSwapped(w);
    forall k | 0 <= k < 64
      ensures WordBits(w, 64)[k] == BytesBits(s)[k]
    {
      WordByte(w, 7 - k / 8, 7 - k % 8);
      assert 8 * (7 - k / 8) + (7 - k % 8) == 63 - k;
    }
  }

  lemma BitsOfBytesOf(b: bits)
    requires |b| % 8 == 0
    ensures BytesBits(BytesOf(b)) == b
  {
    hide ByteBit, ByteOf;
    forall i | 0 <= i < |b|
      ensures BytesBits(BytesOf(b))[i] == b[i]
    {
      var j := i / 8;
      ByteOfBits(b[8 * j..8 * j + 8]);
      assert b[8 * j..8 * j + 8][i % 8] == b[i];
    }
  }

  lemma BytesOfBytesBits(s: seq<byte>)
    ensures BytesOf(BytesBits(s)) == s
  {
    hide ByteBit, ByteOf, Bit;
    var b := BytesBits(s);
    forall j | 0 <= j < |s|
      ensures BytesOf(b)[j] == s[j]
    {
      ByteOfByte(s[j]);
      OneByte(s, j);
    }
  }

  lemma OneByte(s: seq<byte>, j: nat)
    requires j < |s|
    ensures BytesBits(s)[8 * j..8 * j + 8] == WordBits(s[j] as bv64, 8)
  {
    hide Bit;
  }

  lemma NotByteBit(x: byte, m: nat)
    requires m < 8
    ensures ByteBit(!x, m) == !ByteBit(x, m)
  {
    hide Bit;
    Reads8(x as bv64);
    Reads8((!x) as bv64);
  }

  lemma NotBytesBits(s: seq<byte>)
    ensures BytesBits(NotBytes(s)) == Not(BytesBits(s))
  {
    hide ByteBit;
    forall i | 0 <= i < 8 * |s|
      ensures BytesBits(NotBytes(s))[i] == !BytesBits(s)[i]
    {
      NotByteBit(s[i / 8], 7 - i % 8);
    }
  }

  // ---------- Buffers ----------

  /** s with the bytes b written at position `at`. */
  function Spliced(s: seq<byte>, at: nat, b: seq<byte>): (r: seq<byte>)
    requires at + |b| <= |s|
    ensures |r| == |s|
  {
    s[..at] + b + s[at + |b|..]
  }

  lemma SplicedParts(s: seq<byte>, at: nat, b: seq<byte>)
    requires at + |b| <= |s|
    ensures Spliced(s, at, b)[..at] == s[..at]
    ensures Spliced(s, at, b)[at..at + |b|] == b
    ensures Spliced(s, at, b)[at + |b|..] == s[at + |b|..]
  {
  }

  lemma SplicedTwice(s: seq<byte>, at: nat, b: seq<byte>, c: seq<byte>)
    requires at + |b| <= |s| && |c| == |b|
    ensures Spliced(Spliced(s, at, b), at, c) == Spliced(s, at, c)
  {
  }

  lemma SplicedNothing(s: seq<byte>, at: nat)
    requires at <= |s|
    ensures Spliced(s, at, []) == s
  {
  }

  lemma SplicedAll(s: seq<byte>, b: seq<byte>)
    requires |b| == |s|
    ensures Spliced(s, 0, b) == b
  {
  }

  /** Writing c right after b, and reading it back. */
  lemma SplicedOver(s: seq<byte>, at: nat, b: seq<byte>, c: seq<byte>)
    requires at + |b| + |c| <= |s|
    ensures Spliced(Spliced(s, at, b), at + |b|, c) == Spliced(s, at, b + c)
    ensures Spliced(s, at, b + c)[at + |b|..at + |b| + |c|] == c
    ensures Spliced(s, at, b + c)[at + |b| + |c|..] == s[at + |b| + |c|..]
  {
  }

  /** memcpy of b into a buffer. */
  method Put(a: array<byte>, at: nat, b: seq<byte>)
    requires at + |b| <= a.Length
    modifies a
    ensures a[..] == Spliced(old(a[..]), at, b)
  {
    forall i | 0 <= i < |b| {
      a[at + i] := b[i];
    }
  }
}
