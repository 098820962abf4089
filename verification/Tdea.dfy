/** Triple DES on byte strings: the EDE bundle of section 3.1 of NIST SP 800-67 Rev. 2 and
    the CBC mode of section 6.2 of NIST SP 800-38A, with the laws the authentication
    protocol depends on.
  */
module Tdea {
  import opened Bits
  import opened Memory
  import opened DesStandard

  /** The subkeys of an eight-byte key. */
  ghost function Key(key: block8): (r: seq<subkey>)
    ensures |r| == 16
  {
    Schedule(BytesBits(key))
  }

  ghost function Ecb(ks: seq<subkey>, b: block8, encrypt: bool): block8 {
    BytesOf(Des(ks, BytesBits(b), encrypt))
  }

  datatype Bundle = Bundle(k1: seq<subkey>, k2: seq<subkey>, k3: seq<subkey>)

  ghost function Ede(k: Bundle, b: block8, encrypt: bool): block8 {
    if encrypt then Ecb(k.k3, Ecb(k.k2, Ecb(k.k1, b, true), false), true)
    else Ecb(k.k1, Ecb(k.k2, Ecb(k.k3, b, false), true), false)
  }

  /** One block in CBC mode, after the ciphertext block `feed`. */
  ghost function CbcBlock(k: Bundle, feed: block8, b: block8, encrypt: bool): block8 {
    if encrypt then Ede(k, XorBytes(b, feed), true) else XorBytes(Ede(k, b, false), feed)
  }

  /** The ciphertext block to be fed into the next one. */
  ghost function Carried(k: Bundle, feed: block8, b: block8, encrypt: bool): block8 {
    if encrypt then CbcBlock(k, feed, b, true) else b
  }

  /** The whole blocks of m in CBC mode after the block `feed`; a partial last block is ignored. */
  ghost function Cbc(k: Bundle, feed: block8, m: seq<byte>, encrypt: bool): seq<byte>
    decreases |m|
  {
    if |m| < 8 then []
    else CbcBlock(k, feed, m[..8], encrypt) + Cbc(k, Carried(k, feed, m[..8], encrypt), m[8..], encrypt)
  }

  /** The last ciphertext block, to be fed into the next call. */
  ghost function Feed(k: Bundle, feed: block8, m: seq<byte>, encrypt: bool): block8
    decreases |m|
  {
    if |m| < 8 then feed else Feed(k, Carried(k, feed, m[..8], encrypt), m[8..], encrypt)
  }

  lemma {:induction false} CbcLength(k: Bundle, feed: block8, m: seq<byte>, encrypt: bool)
    ensures |Cbc(k, feed, m, encrypt)| == |m| - |m| % 8
    decreases |m|
  {
    hide CbcBlock, Carried;
    if |m| < 8 {
    } else {
      assert |m| % 8 == (|m| - 8) % 8;
      CbcLength(k, Carried(k, feed, m[..8], encrypt), m[8..], encrypt);
    }
  }

  // ---------- Decryption undoes encryption ----------

  lemma EcbUndone(ks: seq<subkey>, b: block8, encrypt: bool)
    ensures Ecb(ks, Ecb(ks, b, encrypt), !encrypt) == b
  {
    hide Des, BytesBits, BytesOf;
    BitsOfBytesOf(Des(ks, BytesBits(b), encrypt));
    DesUndone(ks, BytesBits(b), encrypt);
    BytesOfBytesBits(b);
  }

  lemma EdeUndone(k: Bundle, b: block8, encrypt: bool)
    ensures Ede(k, Ede(k, b, encrypt), !encrypt) == b
  {
    hide Ecb;
    if encrypt {
      var c1 := Ecb(k.k1, b, true);
      var c2 := Ecb(k.k2, c1, false);
      EcbUndone(k.k3, c2, true);
      EcbUndone(k.k2, c1, false);
      EcbUndone(k.k1, b, true);
    } else {
      var c1 := Ecb(k.k3, b, false);
      var c2 := Ecb(k.k2, c1, true);
      EcbUndone(k.k1, c2, false);
      EcbUndone(k.k2, c1, true);
      EcbUndone(k.k3, b, false);
    }
  }

  lemma BlockUndone(k: Bundle, feed: block8, b: block8, encrypt: bool)
    ensures var c := CbcBlock(k, feed, b, encrypt);
            CbcBlock(k, feed, c, !encrypt) == b && Carried(k, feed, c, !encrypt) == Carried(k, feed, b, encrypt)
  {
    hide Ede;
    if encrypt {
      EdeUndone(k, XorBytes(b, feed), true);
      XorAgain(b, feed);
    } else {
      EdeUndone(k, b, false);
      XorAgain(Ede(k, b, false), feed);
    }
  }

  /** Decrypting what was encrypted gives the message back, and so does the other order;
      both directions leave the same block to feed into the next call.
    */
  lemma {:induction false} CbcUndone(k: Bundle, feed: block8, m: seq<byte>, encrypt: bool)
    requires |m| % 8 == 0
    ensures Cbc(k, feed, Cbc(k, feed, m, encrypt), !encrypt) == m
    ensures Feed(k, feed, Cbc(k, feed, m, encrypt), !encrypt) == Feed(k, feed, m, encrypt)
    decreases |m|
  {
    hide CbcBlock, Carried;
    if |m| < 8 {
      assert m == [];
    } else {
      var c, c0 := Cbc(k, feed, m, encrypt), CbcBlock(k, feed, m[..8], encrypt);
      var next := Carried(k, feed, m[..8], encrypt);
      assert c[..8] == c0 && c[8..] == Cbc(k, next, m[8..], encrypt);
      BlockUndone(k, feed, m[..8], encrypt);
      CbcUndone(k, next, m[8..], encrypt);
    }
  }

  /** Processing a and then b with the carried feed is processing their concatenation. */
  lemma {:induction false} CbcAppend(k: Bundle, feed: block8, a: seq<byte>, b: seq<byte>, encrypt: bool)
    requires |a| % 8 == 0
    ensures Cbc(k, feed, a + b, encrypt)
         == Cbc(k, feed, a, encrypt) + Cbc(k, Feed(k, feed, a, encrypt), b, encrypt)
    ensures Feed(k, feed, a + b, encrypt) == Feed(k, Feed(k, feed, a, encrypt), b, encrypt)
    decreases |a|
  {
    hide CbcBlock, Carried;
    if |a| < 8 {
      assert a + b == b;
    } else {
      assert (a + b)[..8] == a[..8] && (a + b)[8..] == a[8..] + b;
      CbcAppend(k, Carried(k, feed, a[..8], encrypt), a[8..], b, encrypt);
    }
  }

  // ---------- Complementation ----------

  ghost function NotBundle(k: Bundle): Bundle {
    Bundle(NotAll(k.k1), NotAll(k.k2), NotAll(k.k3))
  }

  lemma EcbComplement(ks: seq<subkey>, b: block8, encrypt: bool)
    ensures Ecb(NotAll(ks), NotBytes(b), encrypt) == NotBytes(Ecb(ks, b, encrypt))
  {
    hide Des, BytesBits, BytesOf, NotBytes, Not;
    var d := Des(ks, BytesBits(b), encrypt);
    NotBytesBits(b);
    DesComplement(ks, BytesBits(b), encrypt);
    NotBytesBits(BytesOf(d));
    BitsOfBytesOf(d);
    BytesOfBytesBits(NotBytes(BytesOf(d)));
  }

  lemma EdeComplement(k: Bundle, b: block8)
    ensures Ede(NotBundle(k), NotBytes(b), true) == NotBytes(Ede(k, b, true))
  {
    hide Ecb;
    var c1 := Ecb(k.k1, b, true);
    EcbComplement(k.k1, b, true);
    EcbComplement(k.k2, c1, false);
    EcbComplement(k.k3, Ecb(k.k2, c1, false), true);
  }

  lemma XorNot(a: block8, b: block8)
    ensures XorBytes(a, NotBytes(b)) == NotBytes(XorBytes(a, b))
    ensures XorBytes(NotBytes(a), b) == NotBytes(XorBytes(a, b))
  {
  }

  lemma NotAppend(a: seq<byte>, b: seq<byte>)
    ensures NotBytes(a + b) == NotBytes(a) + NotBytes(b)
  {
  }

  /** The complement travels down the chain: only the feed carries it into later blocks. */
  lemma {:induction false} ChainComplement(k: Bundle, feed: block8, m: seq<byte>)
    ensures Cbc(NotBundle(k), NotBytes(feed), m, true) == NotBytes(Cbc(k, feed, m, true))
    decreases |m|
  {
    hide Ede, NotBundle, NotBytes;
    if |m| < 8 {
    } else {
      var x := XorBytes(m[..8], feed);
      XorNot(m[..8], feed);
      EdeComplement(k, x);
      var c := Ede(k, x, true);
      ChainComplement(k, c, m[8..]);
      NotAppend(c, Cbc(k, c, m[8..], true));
    }
  }

  /** Complementing the keys and the first block complements every block of the result. */
  lemma CbcComplement(k: Bundle, feed: block8, m: seq<byte>)
    requires |m| >= 8
    ensures Cbc(NotBundle(k), feed, NotBytes(m[..8]) + m[8..], true) == NotBytes(Cbc(k, feed, m, true))
  {
    hide Ede, NotBundle, NotBytes;
    var m' := NotBytes(m[..8]) + m[8..];
    assert m'[..8] == NotBytes(m[..8]) && m'[8..] == m[8..];
    var x := XorBytes(m[..8], feed);
    XorNot(m[..8], feed);
    EdeComplement(k, x);
    var c := Ede(k, x, true);
    ChainComplement(k, c, m[8..]);
    NotAppend(c, Cbc(k, c, m[8..], true));
  }

  lemma KeyComplement(key: block8)
    ensures Key(NotBytes(key)) == NotAll(Key(key))
  {
    hide Schedule, BytesBits, NotBytes;
    NotBytesBits(key);
    ScheduleComplement(BytesBits(key));
  }

  // ---------- In place ----------

  /** The block that the code takes for the last ciphertext: in place it has been overwritten
      when it is wanted, whichever the direction.
    */
  ghost function Taken(k: Bundle, feed: block8, b: block8, encrypt: bool, inPlace: bool): block8 {
    if encrypt || inPlace then CbcBlock(k, feed, b, encrypt) else b
  }

  /** The whole blocks of m as the code processes them. */
  ghost function Processed(k: Bundle, feed: block8, m: seq<byte>, encrypt: bool, inPlace: bool): seq<byte>
    decreases |m|
  {
    if |m| < 8 then []
    else CbcBlock(k, feed, m[..8], encrypt)
         + Processed(k, Taken(k, feed, m[..8], encrypt, inPlace), m[8..], encrypt, inPlace)
  }

  ghost function LastTaken(k: Bundle, feed: block8, m: seq<byte>, encrypt: bool, inPlace: bool): block8
    decreases |m|
  {
    if |m| < 8 then feed
    else LastTaken(k, Taken(k, feed, m[..8], encrypt, inPlace), m[8..], encrypt, inPlace)
  }

  lemma {:induction false} ProcessedLength(k: Bundle, feed: block8, m: seq<byte>, encrypt: bool, inPlace: bool)
    ensures |Processed(k, feed, m, encrypt, inPlace)| == |m| - |m| % 8
    decreases |m|
  {
    hide CbcBlock, Taken;
    if |m| < 8 {
    } else {
      assert |m| % 8 == (|m| - 8) % 8;
      ProcessedLength(k, Taken(k, feed, m[..8], encrypt, inPlace), m[8..], encrypt, inPlace);
    }
  }

  /** One pass of the loop: what was done, one more block, and what is left. */
  lemma OnePass(k: Bundle, feed: block8, m: seq<byte>, encrypt: bool, inPlace: bool, done: seq<byte>, all: seq<byte>)
    requires |m| >= 8 && done + Processed(k, feed, m, encrypt, inPlace) == all
    ensures var c, next := CbcBlock(k, feed, m[..8], encrypt), Taken(k, feed, m[..8], encrypt, inPlace);
            && (done + c) + Processed(k, next, m[8..], encrypt, inPlace) == all
            && LastTaken(k, next, m[8..], encrypt, inPlace) == LastTaken(k, feed, m, encrypt, inPlace)
  {
  }

  lemma NothingLeft(k: Bundle, feed: block8, m: seq<byte>, encrypt: bool, inPlace: bool)
    requires |m| < 8
    ensures Processed(k, feed, m, encrypt, inPlace) == [] && LastTaken(k, feed, m, encrypt, inPlace) == feed
  {
  }

  /** Encryption in either way, and decryption into other memory, are the CBC mode. */
  lemma {:induction false} ProcessedIsCbc(k: Bundle, feed: block8, m: seq<byte>, encrypt: bool, inPlace: bool)
    requires encrypt || !inPlace
    ensures Processed(k, feed, m, encrypt, inPlace) == Cbc(k, feed, m, encrypt)
    ensures LastTaken(k, feed, m, encrypt, inPlace) == Feed(k, feed, m, encrypt)
    decreases |m|
  {
    hide CbcBlock;
    if |m| >= 8 {
      ProcessedIsCbc(k, Taken(k, feed, m[..8], encrypt, inPlace), m[8..], encrypt, inPlace);
    }
  }

  /** No block but the last is changed by its decryption. */
  ghost predicate Unchanged(k: Bundle, feed: block8, m: seq<byte>)
    decreases |m|
  {
    |m| < 16 || (CbcBlock(k, feed, m[..8], false) == m[..8] && Unchanged(k, m[..8], m[8..]))
  }

  /** Decryption in place is right if and only if every block but the last is its own
      decryption; for fewer than two blocks it always is.
    */
  lemma {:induction false} InPlaceDecrypts(k: Bundle, feed: block8, m: seq<byte>)
    ensures Processed(k, feed, m, false, true) == Cbc(k, feed, m, false) <==> Unchanged(k, feed, m)
    decreases |m|
  {
    hide CbcBlock;
    if |m| >= 8 {
      var p := CbcBlock(k, feed, m[..8], false);
      Behind(p, Processed(k, p, m[8..], false, true), Cbc(k, m[..8], m[8..], false));
      if p == m[..8] {
        InPlaceDecrypts(k, p, m[8..]);
      } else if |m| >= 16 {
        FeedMatters(k, p, m[..8], m[8..][..8]);
        SecondBlocks(k, p, m[..8], m[8..]);
      }
    }
  }

  lemma Behind(p: block8, x: seq<byte>, y: seq<byte>)
    ensures p + x == p + y <==> x == y
  {
    if p + x == p + y {
      assert x == (p + x)[8..] == (p + y)[8..] == y;
    }
  }

  lemma FeedMatters(k: Bundle, f: block8, g: block8, b: block8)
    requires f != g
    ensures CbcBlock(k, f, b, false) != CbcBlock(k, g, b, false)
  {
    hide Ede, XorBytes;
    var x := Ede(k, b, false);
    if XorBytes(x, f) == XorBytes(x, g) {
      XorCancels(x, f);
      XorCancels(x, g);
    }
  }

  lemma XorCancels(x: block8, f: block8)
    ensures XorBytes(XorBytes(x, f), x) == f
  {
    XorAgain(f, x);
    assert XorBytes(x, f) == XorBytes(f, x);
  }

  lemma SecondBlocks(k: Bundle, f: block8, g: block8, m: seq<byte>)
    requires |m| >= 8 && CbcBlock(k, f, m[..8], false) != CbcBlock(k, g, m[..8], false)
    ensures Processed(k, f, m, false, true) != Cbc(k, g, m, false)
  {
    hide CbcBlock;
    assert Processed(k, f, m, false, true)[..8] == CbcBlock(k, f, m[..8], false);
    assert Cbc(k, g, m, false)[..8] == CbcBlock(k, g, m[..8], false);
  }

  /** Of any two feeds, at least one spoils a message of two blocks or more. */
  lemma OneFeedSpoils(k: Bundle, f: block8, g: block8, m: seq<byte>)
    requires f != g && |m| >= 16
    ensures || Processed(k, f, m, false, true) != Cbc(k, f, m, false)
            || Processed(k, g, m, false, true) != Cbc(k, g, m, false)
  {
    hide CbcBlock, Processed, Cbc;
    InPlaceDecrypts(k, f, m);
    InPlaceDecrypts(k, g, m);
    FeedMatters(k, f, g, m[..8]);
  }

  /** The guard: whatever the keys, decryption in place is right for every feed if and only if
      the message has fewer than two blocks.
    */
  lemma InPlaceGuard(k: Bundle, m: seq<byte>)
    ensures (forall feed: block8 :: Processed(k, feed, m, false, true) == Cbc(k, feed, m, false)) <==> |m| < 16
  {
    hide CbcBlock, Processed, Cbc;
    if |m| < 16 {
      forall feed: block8
        ensures Processed(k, feed, m, false, true) == Cbc(k, feed, m, false)
      {
        InPlaceDecrypts(k, feed, m);
      }
    } else {
      OneFeedSpoils(k, [0, 0, 0, 0, 0, 0, 0, 0], [1, 0, 0, 0, 0, 0, 0, 0], m);
    }
  }
}
