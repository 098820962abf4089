/** SHA-1 as sections 5 and 6.1 of FIPS 180-4 define it. */
module Sha1Standard {
  import opened Bits

  type words = s: seq<byte> | |s| == 64 witness seq(64, _ => 0)

  datatype Hash = Hash(a: bv32, b: bv32, c: bv32, d: bv32, e: bv32)

  const INITIAL := Hash(0x67452301, 0xEFCDAB89, 0x98BADCFE, 0x10325476, 0xC3D2E1F0)

  function Rotl(x: bv32, n: bv8): bv32
    requires 0 < n < 32
  {
    (x << n) | (x >> (32 - n))
  }

  /** A big-endian word of four bytes. */
  function Word(b0: byte, b1: byte, b2: byte, b3: byte): bv32 {
    ((b0 as bv32) << 24) | ((b1 as bv32) << 16) | ((b2 as bv32) << 8) | (b3 as bv32)
  }

  function Choose(x: bv32, y: bv32, z: bv32): bv32 {
    (x & y) ^ (!x & z)
  }

  function Parity(x: bv32, y: bv32, z: bv32): bv32 {
    x ^ y ^ z
  }

  function Majority(x: bv32, y: bv32, z: bv32): bv32 {
    (x & y) ^ (x & z) ^ (y & z)
  }

  /** Bit i of a word, bit 0 being the least significant one. */
  predicate BitOf(x: bv32, i: bv8)
    requires i < 32
  {
    (x >> i) & 1 == 1
  }

  /** Rotating to the left by n moves every bit n places up, around the end of the word. */
  lemma Rotated(x: bv32, n: bv8, i: bv8)
    requires n == 1 || n == 5 || n == 30
    requires i < 32
    ensures BitOf(Rotl(x, n), (i + n) % 32) == BitOf(x, i)
  {
  }

  /** The function and the constant of round t, sections 4.1.1 and 4.2.1. */
  function RoundFunction(t: nat, x: bv32, y: bv32, z: bv32): bv32 {
    if t < 20 then Choose(x, y, z) else if t < 40 then Parity(x, y, z)
    else if t < 60 then Majority(x, y, z) else Parity(x, y, z)
  }

  function Constant(t: nat): bv32 {
    if t < 20 then 0x5A827999 else if t < 40 then 0x6ED9EBA1 else if t < 60 then 0x8F1BBCDC else 0xCA62C1D6
  }

  /** The message schedule. */
  function Schedule(m: words, t: nat): bv32
    requires t < 80
  {
    if t < 16 then Word(m[4 * t], m[4 * t + 1], m[4 * t + 2], m[4 * t + 3])
    else Extend(Schedule(m, t - 3), Schedule(m, t - 8), Schedule(m, t - 14), Schedule(m, t - 16))
  }

  function Extend(w3: bv32, w8: bv32, w14: bv32, w16: bv32): bv32 {
    Rotl(w3 ^ w8 ^ w14 ^ w16, 1)
  }

  lemma XorBit(a: bv32, b: bv32, c: bv32, d: bv32, i: bv8)
    requires i < 32
    ensures BitOf(a ^ b ^ c ^ d, i) == ((BitOf(a, i) != BitOf(b, i)) != (BitOf(c, i) != BitOf(d, i)))
  {
  }

  lemma ExtendBit(w3: bv32, w8: bv32, w14: bv32, w16: bv32, i: bv8)
    requires i < 32
    ensures BitOf(Extend(w3, w8, w14, w16), (i + 1) % 32) ==
            ((BitOf(w3, i) != BitOf(w8, i)) != (BitOf(w14, i) != BitOf(w16, i)))
  {
    hide BitOf, Rotl;
    Rotated(w3 ^ w8 ^ w14 ^ w16, 1, i);
    XorBit(w3, w8, w14, w16, i);
  }

  /** Behind the message, a bit of a word is the exclusive or of the next lower bit of four
      words before it.
    */
  lemma ScheduleBit(m: words, t: nat, i: bv8)
    requires 16 <= t < 80 && i < 32
    ensures BitOf(Schedule(m, t), (i + 1) % 32) ==
            ((BitOf(Schedule(m, t - 3), i) != BitOf(Schedule(m, t - 8), i))
             != (BitOf(Schedule(m, t - 14), i) != BitOf(Schedule(m, t - 16), i)))
  {
    hide BitOf, Extend, Word;
    ExtendBit(Schedule(m, t - 3), Schedule(m, t - 8), Schedule(m, t - 14), Schedule(m, t - 16), i);
  }

  lemma FirstWords(m: words, t: nat)
    requires t < 16
    ensures Schedule(m, t) == Word(m[4 * t], m[4 * t + 1], m[4 * t + 2], m[4 * t + 3])
  {
    hide Word;
  }

  lemma LaterWords(m: words, t: nat)
    requires 16 <= t < 80
    ensures Schedule(m, t) == Extend(Schedule(m, t - 3), Schedule(m, t - 8), Schedule(m, t - 14), Schedule(m, t - 16))
  {
    hide Word, Extend;
  }

  function MixedSum(r: bv32, f: bv32, e: bv32, k: bv32, w: bv32): bv32 {
    Plus(Plus(Plus(Plus(r, f), e), k), w)
  }

  function Round(h: Hash, f: bv32, k: bv32, w: bv32): Hash {
    Hash(MixedSum(Rotl(h.a, 5), f, h.e, k, w), h.a, Rotl(h.b, 30), h.c, h.d)
  }

  /** The working variables after the first t rounds. */
  function Rounds(h: Hash, m: words, t: nat): Hash
    requires t <= 80
  {
    if t == 0 then h
    else
      var g := Rounds(h, m, t - 1);
      Round(g, RoundFunction(t - 1, g.b, g.c, g.d), Constant(t - 1), Schedule(m, t - 1))
  }

  function Plus(x: bv32, y: bv32): bv32 {
    x + y
  }

  function Add(h: Hash, g: Hash): Hash {
    Hash(Plus(h.a, g.a), Plus(h.b, g.b), Plus(h.c, g.c), Plus(h.d, g.d), Plus(h.e, g.e))
  }

  function Compress(h: Hash, m: words): Hash {
    Add(h, Rounds(h, m, 80))
  }

  /** The hash value after the whole 64-byte blocks of m. */
  function Absorb(h: Hash, m: seq<byte>): Hash
    decreases |m|
  {
    if |m| < 64 then h else Absorb(Compress(h, m[..64]), m[64..])
  }

  function WordBytes(w: bv32): (r: seq<byte>)
    ensures |r| == 4
  {
    [((w >> 24) & 0xFF) as byte, ((w >> 16) & 0xFF) as byte, ((w >> 8) & 0xFF) as byte, (w & 0xFF) as byte]
  }

  function Digest(h: Hash): (r: seq<byte>)
    ensures |r| == 20
  {
    WordBytes(h.a) + WordBytes(h.b) + WordBytes(h.c) + WordBytes(h.d) + WordBytes(h.e)
  }

  // ---------- Padding, section 5.1.1 ----------

  /** The zero bytes between the 1 bit and the length: the fewest that make whole blocks. */
  function Zeros(n: nat): nat {
    (119 - n % 64) % 64
  }

  predicate FillsBlocks(n: nat, k: nat) {
    (n + 1 + k + 8) % 64 == 0
  }

  lemma ZerosIsLeast(n: nat)
    ensures FillsBlocks(n, Zeros(n))
    ensures forall k: nat | FillsBlocks(n, k) :: Zeros(n) <= k
  {
    var q, r := n / 64, n % 64;
    assert n == 64 * q + r;
    assert Zeros(n) == if r <= 55 then 55 - r else 119 - r;
    WholeBlocks(q, r + 9 + Zeros(n));
    forall k: nat | FillsBlocks(n, k)
      ensures Zeros(n) <= k
    {
      assert n + 1 + k + 8 == 64 * q + (r + 9 + k);
      WholeBlocks(q, r + 9 + k);
    }
  }

  lemma WholeBlocks(q: nat, x: nat)
    ensures (64 * q + x) % 64 == x % 64
  {
  }

  /** The last `count` bytes of the big-endian representation of v. */
  function BigEndian(v: nat, count: nat): (r: seq<byte>)
    ensures |r| == count
  {
    if count == 0 then [] else BigEndian(v / 256, count - 1) + [(v % 256) as byte]
  }

  /** What is appended to a message of n bytes. */
  function Padding(n: nat): seq<byte> {
    [0x80] + ZeroBytes(Zeros(n)) + BigEndian(8 * n, 8)
  }

  /** SHA-1 of a message, which FIPS 180-4 limits to fewer than 2^64 bits. */
  function Sha1(m: seq<byte>): (r: seq<byte>)
    ensures |r| == 20
  {
    Digest(Absorb(INITIAL, m + Padding(|m|)))
  }

  // ---------- What the incremental computation needs ----------

  lemma AbsorbNothing(h: Hash)
    ensures Absorb(h, []) == h
  {
  }

  lemma {:induction false} AbsorbAppend(h: Hash, a: seq<byte>, b: seq<byte>)
    requires |a| % 64 == 0
    ensures Absorb(h, a + b) == Absorb(Absorb(h, a), b)
    decreases |a|
  {
    hide Compress;
    if |a| < 64 {
      assert a + b == b;
    } else {
      assert (a + b)[..64] == a[..64] && (a + b)[64..] == a[64..] + b;
      AbsorbAppend(Compress(h, a[..64]), a[64..], b);
    }
  }
}
