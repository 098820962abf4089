/** The salt of the MAC as a number: the byte swapping around the increment makes it a
    64-bit big-endian counter.
  */
module SaltCounter {
  import opened Bits
  import opened Memory
  import opened Usbdsec

  /** The value of a byte string whose least significant byte comes first. */
  function LittleValue(s: seq<byte>): nat {
    if s == [] then 0 else Num(s[0]) + 256 * LittleValue(s[1..])
  }

  function Bound(n: nat): nat {
    if n == 0 then 1 else 256 * Bound(n - 1)
  }

  /** The salt read as a big-endian number. */
  function Value(salt: block8): nat {
    LittleValue(Reversed(salt))
  }

  function Reversed(s: block8): block8 {
    [s[7], s[6], s[5], s[4], s[3], s[2], s[1], s[0]]
  }

  const TWO64 := 0x1_0000_0000_0000_0000

  /** Adding one byte by byte. */
  function Incremented(s: seq<byte>): (r: seq<byte>)
    ensures |r| == |s|
  {
    if s == [] then []
    else if s[0] == 0xFF then [0] + Incremented(s[1..])
    else [s[0] + 1] + s[1..]
  }

  function Num(b: byte): (n: nat)
    ensures n < 256
  {
    b as nat
  }

  lemma NextByte(b: byte)
    ensures b != 0xFF ==> Num(b + 1) == Num(b) + 1
    ensures b == 0xFF ==> Num(b) == 255
    ensures Num(0) == 0
  {
  }

  lemma {:induction false} IncrementedValue(s: seq<byte>)
    ensures LittleValue(s) < Bound(|s|)
    ensures LittleValue(Incremented(s)) == if LittleValue(s) + 1 == Bound(|s|) then 0 else LittleValue(s) + 1
  {
    hide Num;
    if s == [] {
    } else {
      IncrementedValue(s[1..]);
      NextByte(s[0]);
      if s[0] == 0xFF {
        var t := [0] + Incremented(s[1..]);
        assert t[1..] == Incremented(s[1..]);
        assert LittleValue(t) == 256 * LittleValue(Incremented(s[1..]));
      } else {
        var t := [s[0] + 1] + s[1..];
        assert t[1..] == s[1..];
        assert LittleValue(t) == Num(s[0]) + 1 + 256 * LittleValue(s[1..]);
      }
    }
  }

  function Next(w: bv64): bv64 {
    w + 1
  }

  function Low8(w: bv64): byte {
    (w & 0xFF) as byte
  }

  function Up8(w: bv64): bv64 {
    w >> 8
  }

  lemma PlusOne(w: bv64)
    ensures Low8(Next(w)) == Low8(w) + 1
    ensures Low8(w) != 0xFF ==> Up8(Next(w)) == Up8(w)
    ensures Low8(w) == 0xFF ==> SameLowSeven(Up8(Next(w)), Next(Up8(w)))
  {
  }

  predicate SameLowSeven(v: bv64, w: bv64) {
    v & 0xFF_FFFF_FFFF_FFFF == w & 0xFF_FFFF_FFFF_FFFF
  }

  lemma LowSeven(v: bv64, w: bv64)
    requires SameLowSeven(v, w)
    ensures Store(v)[..7] == Store(w)[..7]
  {
  }

  lemma FirstStored(w: bv64)
    ensures Store(w)[0] == Low8(w)
    ensures Store(Up8(w))[..7] == Store(w)[1..]
  {
    StoreDown(w);
  }

  lemma {:induction false} StoreIncremented(w: bv64, n: nat)
    requires n <= 8
    ensures Store(Next(w))[..n] == Incremented(Store(w)[..n])
    decreases n
  {
    hide Store, Next, Low8, Up8, SameLowSeven;
    if n == 0 {
    } else {
      var low, up := Low8(w), Up8(w);
      PlusOne(w);
      FirstStored(w);
      FirstStored(Next(w));
      StoreIncremented(up, n - 1);
      Split(Store(w), Store(up), n);
      Split(Store(Next(w)), Store(Up8(Next(w))), n);
      if low == 0xFF {
        LowSeven(Up8(Next(w)), Next(up));
        ShorterPrefix(Store(Up8(Next(w))), n - 1);
        ShorterPrefix(Store(Next(up)), n - 1);
      }
      Carry(low, Store(up)[..n - 1]);
    }
  }

  lemma Carry(b: byte, s: seq<byte>)
    ensures Incremented([b] + s) == if b == 0xFF then [0] + Incremented(s) else [b + 1] + s
  {
    assert ([b] + s)[1..] == s;
  }

  lemma ShorterPrefix(s: block8, k: nat)
    requires k <= 7
    ensures s[..7][..k] == s[..k]
  {
  }

  lemma Split(s: block8, t: block8, n: nat)
    requires 0 < n <= 8 && t[..7] == s[1..]
    ensures s[..n] == [s[0]] + t[..n - 1]
  {
    assert t[..n - 1] == t[..7][..n - 1];
  }

  lemma ReversedTwice(s: block8)
    ensures Reversed(Reversed(s)) == s
  {
  }

  lemma StoredReversed(w: bv64)
    ensures Store(Swap64(w)) == Reversed(Store(w))
  {
    hide Store, Swap64;
    StoreSwapped(w);
  }

  lemma NextSaltStored(salt: block8)
    ensures Reversed(NextSalt(salt)) == Incremented(Reversed(salt))
  {
    hide Store, Swap64, Load, Incremented;
    var w := Swap64(Load(salt));
    SwapTwice(Load(salt));
    StoreLoad(salt);
    StoredReversed(w);
    ReversedTwice(Store(w));
    StoredReversed(Next(w));
    ReversedTwice(Store(Next(w)));
    StoreIncremented(w, 8);
    assert Store(w)[..8] == Store(w) && Store(Next(w))[..8] == Store(Next(w));
  }

  /** Stepping the salt adds one to its value, modulo 2^64. */
  lemma NextSaltValue(salt: block8)
    ensures Value(salt) < TWO64 && Value(NextSalt(salt)) == (Value(salt) + 1) % TWO64
  {
    hide NextSalt, Incremented, LittleValue, Reversed;
    NextSaltStored(salt);
    IncrementedValue(Reversed(salt));
    BoundOfEight();
  }

  lemma BoundOfEight()
    ensures Bound(8) == TWO64
  {
    assert Bound(4) == 0x1_0000_0000;
  }
}
