/** SHA-1 as the code runs it: one byte at a time into a 64-byte buffer. */
module ExcryptSha {
  import opened Bits
  import opened Sha1Standard

  /** The code's formulas for the first and the third function. */
  function ChooseOr(x: bv32, y: bv32, z: bv32): bv32 {
    (x & y) | (!x & z)
  }

  function MajorityOr(x: bv32, y: bv32, z: bv32): bv32 {
    (x & y) | (x & z) | (y & z)
  }

  lemma SameChoose(x: bv32, y: bv32, z: bv32)
    ensures ChooseOr(x, y, z) == Choose(x, y, z)
  {
    assert (x & y) | (!x & z) == (x & y) ^ (!x & z);
  }

  lemma SameMajority(x: bv32, y: bv32, z: bv32)
    ensures MajorityOr(x, y, z) == Majority(x, y, z)
  {
    assert (x & y) | (x & z) | (y & z) == (x & y) ^ (x & z) ^ (y & z);
  }

  // ---------- ROTL32 and the sums, as the code writes them out ----------

  method RotateOne(x: bv32) returns (r: bv32)
    ensures r == Rotl(x, 1)
  {
    r := (x << 1) | (x >> 31);
  }

  method RotateFive(x: bv32) returns (r: bv32)
    ensures r == Rotl(x, 5)
  {
    r := (x << 5) | (x >> 27);
  }

  method RotateThirty(x: bv32) returns (r: bv32)
    ensures r == Rotl(x, 30)
  {
    r := (x << 30) | (x >> 2);
  }

  method Sum(x: bv32, y: bv32) returns (r: bv32)
    ensures r == Plus(x, y)
  {
    r := x + y;
  }

  /** A word of the schedule from four bytes of the buffer. */
  method FromBytes(b0: byte, b1: byte, b2: byte, b3: byte) returns (w: bv32)
    ensures w == Word(b0, b1, b2, b3)
  {
    w := (b0 as bv32) << 24;
    w := w | ((b1 as bv32) << 16);
    w := w | ((b2 as bv32) << 8);
    w := w | (b3 as bv32);
  }

  /** And from four earlier words. */
  method FromWords(w3: bv32, w8: bv32, w14: bv32, w16: bv32) returns (w: bv32)
    ensures w == Extend(w3, w8, w14, w16)
  {
    hide Rotl;
    w := RotateOne(w3 ^ w8 ^ w14 ^ w16);
  }

  /** The new value of a in one pass of the round loop. */
  method Temp(a: bv32, e: bv32, f: bv32, k: bv32, w: bv32) returns (temp: bv32)
    ensures temp == MixedSum(Rotl(a, 5), f, e, k, w)
  {
    hide Rotl, Plus;
    temp := RotateFive(a);
    temp := Sum(temp, f);
    temp := Sum(temp, e);
    temp := Sum(temp, k);
    temp := Sum(temp, w);
  }

  class ShaState {
    var count: nat             // a uint32_t: the number of bytes so far, modulo 2^32
    const state: array<bv32>
    const buffer: array<byte>
    ghost var fed: seq<byte>   // every byte processed so far

    ghost predicate Valid()
      reads this, state, buffer
    {
      && state.Length == 5 && buffer.Length == 64
      && count == |fed| % 0x1_0000_0000
      && buffer[..|fed| % 64] == fed[|fed| - |fed| % 64..]
      && Value() == Absorb(INITIAL, fed)
    }

    /** The hash value held by the state words. */
    function Value(): Hash
      requires state.Length == 5
      reads state
    {
      Hash(state[0], state[1], state[2], state[3], state[4])
    }

    constructor ()
      ensures Valid() && fed == [] && fresh(state) && fresh(buffer)
    {
      hide Absorb, Compress;
      AbsorbNothing(INITIAL);
      count := 0;
      state := new bv32[] [0x67452301, 0xEFCDAB89, 0x98BADCFE, 0x10325476, 0xC3D2E1F0];
      buffer := new byte[64];
      fed := [];
    }

    /** Expands the buffered block into the eighty words of the message schedule. */
    method Expand() returns (w: array<bv32>)
      requires buffer.Length == 64
      ensures fresh(w) && w.Length == 80 && forall t | 0 <= t < 80 :: w[t] == Schedule(buffer[..], t)
    {
      hide Word, Extend, Schedule;
      w := new bv32[80];
      for i := 0 to 16
        invariant forall t | 0 <= t < i :: w[t] == Schedule(buffer[..], t)
      {
        FirstWords(buffer[..], i);
        w[i] := FromBytes(buffer[4 * i], buffer[4 * i + 1], buffer[4 * i + 2], buffer[4 * i + 3]);
      }
      for i := 16 to 80
        invariant forall t | 0 <= t < i :: w[t] == Schedule(buffer[..], t)
      {
        LaterWords(buffer[..], i);
        w[i] := FromWords(w[i - 3], w[i - 8], w[i - 14], w[i - 16]);
      }
    }

    /** The function and constant of round i, in the code's own formulas. */
    static method Select(i: nat, b: bv32, c: bv32, d: bv32) returns (f: bv32, k: bv32)
      ensures f == RoundFunction(i, b, c, d) && k == Constant(i)
    {
      hide Choose, Majority, ChooseOr, MajorityOr, Sha1Standard.Parity;
      if i < 20 {
        SameChoose(b, c, d);
        f, k := ChooseOr(b, c, d), 0x5A827999;
      } else if i < 40 {
        f, k := Sha1Standard.Parity(b, c, d), 0x6ED9EBA1;
      } else if i < 60 {
        SameMajority(b, c, d);
        f, k := MajorityOr(b, c, d), 0x8F1BBCDC;
      } else {
        f, k := Sha1Standard.Parity(b, c, d), 0xCA62C1D6;
      }
    }

    method ProcessBlock()
      requires state.Length == 5 && buffer.Length == 64
      modifies state
      ensures Value() == Compress(old(Value()), old(buffer[..]))
    {
      hide Schedule, MixedSum, Rotl, RoundFunction, Constant, Plus;
      var w := Expand();
      ghost var m: words, h := buffer[..], Value();
      var a, b, c, d, e := state[0], state[1], state[2], state[3], state[4];
      for i := 0 to 80
        modifies {}
        invariant Hash(a, b, c, d, e) == Rounds(h, m, i)
      {
        var f, k := Select(i, b, c, d);
        var temp := Temp(a, e, f, k, w[i]);
        e := d;
        d := c;
        c := RotateThirty(b);
        b := a;
        a := temp;
      }
      state[0] := Sum(state[0], a);
      state[1] := Sum(state[1], b);
      state[2] := Sum(state[2], c);
      state[3] := Sum(state[3], d);
      state[4] := Sum(state[4], e);
    }

    /** The byte goes into the buffer, at the position that the count gives. */
    method PutByte(octet: byte)
      requires Valid()
      modifies this`count, this`fed, buffer
      ensures fed == old(fed) + [octet] && count == |fed| % 0x1_0000_0000
      ensures var r := |old(fed)| % 64; buffer[..r + 1] == old(fed)[|old(fed)| - r..] + [octet]
    {
      hide Absorb;
      LowBits(|fed|);
      ghost var before := buffer[..];
      var offset := count % 64;
      count := (count + 1) % 0x1_0000_0000;
      buffer[offset] := octet;
      fed := fed + [octet];
      assert buffer[..offset + 1] == before[..offset] + [octet];
    }

    method ProcessByte(octet: byte)
      requires Valid()
      modifies this, state, buffer
      ensures Valid() && fed == old(fed) + [octet]
    {
      hide Absorb, Compress, Digest;
      OneMore(fed, octet);
      NextLength(|fed|);
      LowBits(|fed| + 1);
      PutByte(octet);
      if count % 64 == 0 {
        assert buffer[..] == buffer[..64];
        ProcessBlock();
      }
    }

    method Update(input: seq<byte>)
      requires Valid()
      modifies this, state, buffer
      ensures Valid() && fed == old(fed) + input
    {
      hide *;
      for i := 0 to |input|
        invariant Valid() && fed == old(fed) + input[..i]
      {
        ProcessByte(input[i]);
      }
    }

    /** Processes zero bytes until the position in the block is `stop`. */
    method Fill(stop: nat)
      requires Valid() && stop < 64
      modifies this, state, buffer
      ensures Valid() && fed == old(fed) + ZeroBytes((64 + stop - |old(fed)| % 64) % 64)
    {
      hide Absorb;
      ghost var n := |fed|;
      ghost var z := 0;
      LowBits(n);
      while count % 64 != stop
        invariant Valid() && z <= (64 + stop - n % 64) % 64
        invariant fed == old(fed) + ZeroBytes(z)
        decreases (64 + stop - n % 64) % 64 - z
      {
        LowBits(n + z);
        BlockPosition(n, z, stop);
        ProcessByte(0);
        z := z + 1;
      }
      LowBits(n + z);
      BlockPosition(n, z, stop);
    }

    /** Zeros to the end of the block, and in the next up to the length. */
    method FillTwo()
      requires Valid()
      modifies this, state, buffer
      ensures Valid() && fed == old(fed) + ZeroBytes((64 - |old(fed)| % 64) % 64 + 56)
    {
      hide *;
      ghost var n := |fed|;
      Fill(0);
      AfterFill(n, 0);
      Fill(56);
      ZerosJoin((64 - n % 64) % 64, 56);
    }

    lemma CountPosition()
      requires Valid()
      ensures count % 64 == |fed| % 64
    {
      LowBits(|fed|);
    }

    /** The 1 bit and the zeros that leave room for the length in the last block. */
    method AppendZeros()
      requires Valid()
      modifies this, state, buffer
      ensures Valid() && fed == old(fed) + [0x80] + ZeroBytes(Zeros(|old(fed)|))
    {
      hide *;
      ghost var n := |fed|;
      ProcessByte(0x80);
      CountPosition();
      PaddingZeros(n);
      if count % 64 > 56 {
        FillTwo();
      } else {
        Fill(56);
      }
    }

    /** Four zero bytes and the low four bytes of the length. */
    method AppendLength(bitCount: nat)
      requires Valid()
      modifies this, state, buffer
      ensures Valid() && fed == old(fed) + LengthField(bitCount)
    {
      hide *;
      ProcessByte(0);
      ProcessByte(0);
      ProcessByte(0);
      ProcessByte(0);
      ProcessByte((bitCount / 0x100_0000 % 0x100) as byte);
      ProcessByte((bitCount / 0x1_0000 % 0x100) as byte);
      ProcessByte((bitCount / 0x100 % 0x100) as byte);
      ProcessByte((bitCount % 0x100) as byte);
      FieldBytes(bitCount);
    }

    /** Appends the padding and gives the digest. */
    method Final() returns (output: seq<byte>)
      requires Valid()
      modifies this, state, buffer
      ensures output == Digest(Absorb(INITIAL, old(fed) + AppendedPadding(|old(fed)|)))
    {
      hide Absorb, Digest, LengthField;
      ghost var n, m := |fed|, fed;
      var bitCount := count * 8;
      AppendZeros();
      AppendLength(bitCount);
      assert fed == m + AppendedPadding(n);
      output := Digest(Value());
    }
  }

  /** The low four bytes of a number. */
  function LowBytes(v: nat): (r: seq<byte>)
    ensures |r| == 4
  {
    [(v / 0x100_0000 % 0x100) as byte, (v / 0x1_0000 % 0x100) as byte, (v / 0x100 % 0x100) as byte, (v % 0x100) as byte]
  }

  function LengthField(bitCount: nat): seq<byte> {
    ZeroBytes(4) + LowBytes(bitCount)
  }

  lemma FieldBytes(bitCount: nat)
    ensures forall s: seq<byte> ::
              s + [0] + [0] + [0] + [0]
              + [(bitCount / 0x100_0000 % 0x100) as byte] + [(bitCount / 0x1_0000 % 0x100) as byte]
              + [(bitCount / 0x100 % 0x100) as byte] + [(bitCount % 0x100) as byte] == s + LengthField(bitCount)
  {
  }

  lemma ZerosJoin(a: nat, b: nat)
    ensures ZeroBytes(a) + ZeroBytes(b) == ZeroBytes(a + b)
    ensures forall s: seq<byte> :: s + ZeroBytes(a) + ZeroBytes(b) == s + ZeroBytes(a + b)
  {
  }

  lemma AfterFill(n: nat, stop: nat)
    requires stop < 64
    ensures (n + (64 + stop - n % 64) % 64) % 64 == stop
  {
    BlockPosition(n, (64 + stop - n % 64) % 64, stop);
  }

  /** Zero bytes 0, ..., z - 1 from position n on: where the block pointer then stands. */
  lemma BlockPosition(n: nat, z: nat, stop: nat)
    requires stop < 64 && z <= (64 + stop - n % 64) % 64
    ensures (n + z) % 64 == stop <==> z == (64 + stop - n % 64) % 64
  {
    var q, r := n / 64, n % 64;
    assert n + z == 64 * q + (r + z);
  }

  /** The padding the code appends: the length is that of a 32-bit byte count, and its
      field has only 32 meaningful bits.
    */
  function AppendedPadding(n: nat): seq<byte> {
    [0x80] + ZeroBytes(Zeros(n)) + LengthField(n % 0x1_0000_0000 * 8)
  }

  lemma PaddingZeros(n: nat)
    ensures var p := (n + 1) % 64;
            Zeros(n) == if p > 56 then (64 - p) % 64 + 56 else 56 - p
  {
    NextLength(n);
  }

  // ---------- When the code's padding is the standard's ----------

  lemma {:induction false} BigEndianZero(count: nat)
    ensures BigEndian(0, count) == ZeroBytes(count)
  {
    if count == 0 {
    } else {
      BigEndianZero(count - 1);
    }
  }

  /** A long field is its upper and its lower half. */
  lemma BigEndianHalves(v: nat)
    ensures BigEndian(v, 8) == BigEndian(v / 0x1_0000_0000, 4) + LowBytes(v)
  {
    var v1 := v / 0x100;
    var v2 := v1 / 0x100;
    var v3 := v2 / 0x100;
    var v4 := v3 / 0x100;
    Quotients(v);
    BigEndianStep(v, 7);
    BigEndianStep(v1, 6);
    BigEndianStep(v2, 5);
    BigEndianStep(v3, 4);
    hide BigEndian;
    assert BigEndian(v, 8)
        == BigEndian(v4, 4) + [(v3 % 0x100) as byte] + [(v2 % 0x100) as byte]
           + [(v1 % 0x100) as byte] + [(v % 0x100) as byte];
  }

  lemma Quotients(v: nat)
    ensures v / 0x100 / 0x100 == v / 0x1_0000
    ensures v / 0x1_0000 / 0x100 == v / 0x100_0000
    ensures v / 0x100_0000 / 0x100 == v / 0x1_0000_0000
  {
  }

  lemma BigEndianStep(v: nat, count: nat)
    ensures BigEndian(v, count + 1) == BigEndian(v / 0x100, count) + [(v % 0x100) as byte]
  {
  }

  function Bound(count: nat): nat {
    if count == 0 then 1 else 256 * Bound(count - 1)
  }

  lemma {:induction false} OnlyZeroIsZero(v: nat, count: nat)
    requires v < Bound(count) && BigEndian(v, count) == ZeroBytes(count)
    ensures v == 0
    decreases count
  {
    if count == 0 {
    } else {
      var s, z := BigEndian(v, count), ZeroBytes(count);
      assert s[..count - 1] == BigEndian(v / 256, count - 1) && z[..count - 1] == ZeroBytes(count - 1);
      OnlyZeroIsZero(v / 256, count - 1);
      assert s[count - 1] == z[count - 1];
      Bits.Position(v % 256);
    }
  }

  lemma LengthAgrees(n: nat)
    requires n < 0x2000_0000_0000_0000
    ensures LengthField(n % 0x1_0000_0000 * 8) == BigEndian(8 * n, 8) <==> n < 0x2000_0000
  {
    hide BigEndian, LowBytes, ZeroBytes;
    BigEndianZero(4);
    BigEndianHalves(8 * n);
    if n < 0x2000_0000 {
      SmallCount(n);
    } else {
      LargeCount(n);
      if BigEndian(8 * n / 0x1_0000_0000, 4) == ZeroBytes(4) {
        OnlyZeroIsZero(8 * n / 0x1_0000_0000, 4);
      }
      FirstHalf(ZeroBytes(4), LowBytes(n % 0x1_0000_0000 * 8), BigEndian(8 * n / 0x1_0000_0000, 4), LowBytes(8 * n));
    }
  }

  lemma SmallCount(n: nat)
    requires n < 0x2000_0000
    ensures n % 0x1_0000_0000 * 8 == 8 * n && 8 * n / 0x1_0000_0000 == 0
  {
  }

  lemma LargeCount(n: nat)
    requires 0x2000_0000 <= n < 0x2000_0000_0000_0000
    ensures 0 < 8 * n / 0x1_0000_0000 < Bound(4)
  {
    hide Bound;
    BoundOfFour();
  }

  lemma FirstHalf(a: seq<byte>, b: seq<byte>, c: seq<byte>, d: seq<byte>)
    requires |a| == |c| && a != c
    ensures a + b != c + d
  {
    assert (a + b)[..|a|] == a && (c + d)[..|c|] == c;
  }

  /** The code appends the standard's padding exactly for messages below 2^29 bytes. */
  lemma PaddingAgrees(n: nat)
    requires n < 0x2000_0000_0000_0000
    ensures AppendedPadding(n) == Padding(n) <==> n < 0x2000_0000
  {
    hide BigEndian, LengthField;
    LengthAgrees(n);
    var at := 1 + Zeros(n);
    assert AppendedPadding(n)[at..] == LengthField(n % 0x1_0000_0000 * 8);
    assert Padding(n)[at..] == BigEndian(8 * n, 8);
  }

  lemma BoundOfFour()
    ensures Bound(4) == 0x1_0000_0000
  {
    assert Bound(2) == 0x1_0000;
  }

  lemma DigestIsSha1(m: seq<byte>)
    requires |m| < 0x2000_0000
    ensures Digest(Absorb(INITIAL, m + AppendedPadding(|m|))) == Sha1(m)
  {
    hide Absorb, Digest, AppendedPadding, Padding;
    PaddingAgrees(|m|);
  }

  /** SHA-1 of three pieces, any of which may be empty. */
  method Sha(input1: seq<byte>, input2: seq<byte>, input3: seq<byte>) returns (output: seq<byte>)
    ensures var m := input1 + input2 + input3;
            && output == Digest(Absorb(INITIAL, m + AppendedPadding(|m|)))
            && (|m| < 0x2000_0000 ==> output == Sha1(m))
  {
    hide *;
    var state := new ShaState();
    if |input1| > 0 {
      state.Update(input1);
    }
    if |input2| > 0 {
      state.Update(input2);
    }
    if |input3| > 0 {
      state.Update(input3);
    }
    ghost var m := input1 + input2 + input3;
    assert state.fed == m;
    if |m| < 0x2000_0000 {
      DigestIsSha1(m);
    }
    output := state.Final();
  }

  lemma AbsorbOne(h: Hash, m: words)
    ensures Absorb(h, m) == Compress(h, m)
  {
    hide Compress;
    assert m[64..] == [] && m[..64] == m;
  }

  lemma AbsorbPart(h: Hash, whole: seq<byte>, part: seq<byte>)
    requires |whole| % 64 == 0
    ensures |part| < 64 ==> Absorb(h, whole + part) == Absorb(h, whole)
    ensures |part| == 64 ==> Absorb(h, whole + part) == Compress(Absorb(h, whole), part)
  {
    hide Compress;
    AbsorbAppend(h, whole, part);
    if |part| == 64 {
      AbsorbOne(Absorb(h, whole), part);
    }
  }

  lemma NextLength(n: nat)
    ensures (n - n % 64) % 64 == 0
    ensures (n + 1) % 64 == (if n % 64 == 63 then 0 else n % 64 + 1)
  {
    var q, r := n / 64, n % 64;
    assert n == 64 * q + r;
    assert n + 1 == if r == 63 then 64 * (q + 1) else 64 * q + (r + 1);
  }

  /** One more byte: either it completes a block, or the hash value stays. */
  lemma OneMore(fed: seq<byte>, octet: byte)
    ensures var r, all := |fed| % 64, fed + [octet];
            var tail := fed[|fed| - r..] + [octet];
            if r == 63 then Absorb(INITIAL, all) == Compress(Absorb(INITIAL, fed), tail)
            else all[|all| - (r + 1)..] == tail && Absorb(INITIAL, all) == Absorb(INITIAL, fed)
  {
    hide Compress, Absorb;
    var r, all := |fed| % 64, fed + [octet];
    var whole, part := fed[..|fed| - r], fed[|fed| - r..];
    NextLength(|fed|);
    assert fed == whole + part && all == whole + (part + [octet]);
    AbsorbPart(INITIAL, whole, part);
    AbsorbPart(INITIAL, whole, part + [octet]);
  }

  /** A 32-bit count keeps the position in the block. */
  lemma LowBits(n: nat)
    ensures (n % 0x1_0000_0000) % 64 == n % 64
    ensures (n + 1) % 0x1_0000_0000 == (n % 0x1_0000_0000 + 1) % 0x1_0000_0000
  {
    var q, r := n / 0x1_0000_0000, n % 0x1_0000_0000;
    assert n == 64 * (0x400_0000 * q + r / 64) + r % 64;
  }
}
