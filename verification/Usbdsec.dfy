/** The three functions of the authentication protocol: encryption, MAC and the "ACR" value. */
module Usbdsec {
  import opened Bits
  import opened Memory
  import opened DesStandard
  import opened Tdea
  import opened ExcryptDes
  import opened UsbdsecData
  import Parve
  import ExcryptParve

  type key16 = s: seq<byte> | |s| == 16 witness [0, 0, 0, 0, 0, 0, 0, 0, 0, 0, 0, 0, 0, 0, 0, 0]

  const ZERO: block8 := [0, 0, 0, 0, 0, 0, 0, 0]

  // ---------- Key parity ----------

  /** The low bit is replaced by the complement of the parity of all eight bits. */
  function ParityByte(b: byte): byte {
    var x := b ^ (b >> 4);
    var y := x ^ (x >> 2);
    var z := y ^ (y >> 1);
    (b & 0xFE) | (!z & 1)
  }

  function ParityBytes(s: seq<byte>): (r: seq<byte>)
    ensures |r| == |s|
  {
    seq(|s|, i requires 0 <= i < |s| => ParityByte(s[i]))
  }

  lemma UpperBitsKept(b: byte)
    ensures ParityByte(b) & 0xFE == b & 0xFE
  {
  }

  lemma UpperBitKept(x: byte, y: byte, m: nat)
    requires x & 0xFE == y & 0xFE && 0 < m < 8
    ensures ByteBit(x, m) == ByteBit(y, m)
  {
    hide Bit;
    Reads8(x as bv64);
    Reads8(y as bv64);
  }

  function UpperBits(x: byte): (r: bits)
    ensures |r| == 8
  {
    [ByteBit(x, 7), ByteBit(x, 6), ByteBit(x, 5), ByteBit(x, 4), ByteBit(x, 3), ByteBit(x, 2), ByteBit(x, 1), false]
  }

  lemma UpperBitsOf(x: byte)
    ensures x & 0xFE == ByteOf(UpperBits(x))
  {
    hide Bit;
    Reads8(x as bv64);
  }

  lemma UpperBitsEqual(x: byte, y: byte)
    requires UpperBits(x) == UpperBits(y)
    ensures x & 0xFE == y & 0xFE
  {
    hide UpperBits, ByteOf;
    UpperBitsOf(x);
    UpperBitsOf(y);
  }

  /** The keys agree in the upper seven bits of every byte. */
  predicate SameKeyBits(a: block8, b: block8) {
    forall i | 0 <= i < 8 :: a[i] & 0xFE == b[i] & 0xFE
  }

  lemma UpperBitsShow(a: block8, b: block8, i: nat)
    requires i < 8 && SameButParity(BytesBits(a), BytesBits(b))
    ensures UpperBits(a[i]) == UpperBits(b[i])
  {
    hide ByteBit;
    forall m | 0 < m < 8
      ensures ByteBit(a[i], m) == ByteBit(b[i], m)
    {
      var j := 8 * i + 7 - m;
      assert j / 8 == i && j % 8 == 7 - m;
      assert BytesBits(a)[j] == BytesBits(b)[j];
    }
  }

  /** Two keys give the same cipher's subkeys if and only if only the low bits of bytes differ. */
  lemma KeyDetermines(a: block8, b: block8)
    ensures Key(a) == Key(b) <==> SameKeyBits(a, b)
  {
    hide Schedule, ByteBit;
    var x, y := BytesBits(a), BytesBits(b);
    ScheduleDetermines(x, y);
    if SameKeyBits(a, b) {
      forall i | 0 <= i < 64 && i % 8 != 7
        ensures x[i] == y[i]
      {
        UpperBitKept(a[i / 8], b[i / 8], 7 - i % 8);
      }
    }
    if SameButParity(x, y) {
      forall i | 0 <= i < 8
        ensures a[i] & 0xFE == b[i] & 0xFE
      {
        UpperBitsShow(a, b, i);
        UpperBitsEqual(a[i], b[i]);
      }
    }
  }

  /** The parity step never changes a subkey. */
  lemma ParityKeepsKey(key: block8)
    ensures Key(ParityBytes(key)) == Key(key)
  {
    hide Key, ParityByte;
    forall i | 0 <= i < 8
      ensures ParityBytes(key)[i] & 0xFE == key[i] & 0xFE
    {
      UpperBitsKept(key[i]);
    }
    KeyDetermines(ParityBytes(key), key);
  }

  predicate IsSet(b: byte, k: bv8)
    requires k < 8
  {
    (b >> k) & 1 == 1
  }

  function One(x: bool): nat {
    if x then 1 else 0
  }

  /** The number of one bits. */
  function Ones(b: byte): nat {
    One(IsSet(b, 0)) + One(IsSet(b, 1)) + One(IsSet(b, 2)) + One(IsSet(b, 3)) +
    One(IsSet(b, 4)) + One(IsSet(b, 5)) + One(IsSet(b, 6)) + One(IsSet(b, 7))
  }

  predicate OddParity(b: byte) {
    Ones(b) % 2 == 1
  }

  /** Whether an odd number of eight truths hold. */
  predicate Odd(b0: bool, b1: bool, b2: bool, b3: bool, b4: bool, b5: bool, b6: bool, b7: bool) {
    (((b0 != b4) != (b2 != b6)) != ((b1 != b5) != (b3 != b7)))
  }

  lemma OddCounts(b0: bool, b1: bool, b2: bool, b3: bool, b4: bool, b5: bool, b6: bool, b7: bool)
    ensures Odd(b0, b1, b2, b3, b4, b5, b6, b7)
       <==> (One(b0) + One(b1) + One(b2) + One(b3) + One(b4) + One(b5) + One(b6) + One(b7)) % 2 == 1
  {
  }

  /** Clearing or setting the low bit of the folded byte, in terms of bits. */
  lemma ParityBits(b: byte)
    ensures var p := ParityByte(b);
            && IsSet(p, 1) == IsSet(b, 1) && IsSet(p, 2) == IsSet(b, 2) && IsSet(p, 3) == IsSet(b, 3)
            && IsSet(p, 4) == IsSet(b, 4) && IsSet(p, 5) == IsSet(b, 5) && IsSet(p, 6) == IsSet(b, 6)
            && IsSet(p, 7) == IsSet(b, 7)
            && IsSet(p, 0) == !Odd(IsSet(b, 0), IsSet(b, 1), IsSet(b, 2), IsSet(b, 3),
                                   IsSet(b, 4), IsSet(b, 5), IsSet(b, 6), IsSet(b, 7))
  {
  }

  /** The step folds the old low bit into the parity, so that its result has odd parity,
      which DES keys should have, exactly when that bit was clear.
    */
  lemma ParityIsOdd(b: byte)
    ensures OddParity(ParityByte(b)) <==> !IsSet(b, 0)
  {
    hide IsSet, ParityByte;
    var p := ParityByte(b);
    ParityBits(b);
    OddCounts(IsSet(p, 0), IsSet(p, 1), IsSet(p, 2), IsSet(p, 3), IsSet(p, 4), IsSet(p, 5), IsSet(p, 6), IsSet(p, 7));
  }

  /** The byte 1 is one that comes out wrong. */
  lemma OneStaysEven()
    ensures !OddParity(ParityByte(1))
  {
    ParityIsOdd(1);
    assert IsSet(1, 0);
  }

  /** ExCryptDesParity. */
  method DesParity(input: seq<byte>, output: array<byte>)
    requires |input| <= output.Length
    modifies output
    ensures output[..] == Spliced(old(output[..]), 0, ParityBytes(input))
  {
    hide ParityByte;
    for i := 0 to |input|
      invariant output[..i] == ParityBytes(input)[..i]
      invariant output[i..] == old(output[i..])
    {
      output[i] := ParityByte(input[i]);
    }
  }

  // ---------- Encryption ----------

  /** Two-key triple DES: the first key is used again as the third. */
  ghost function KeyBundle(key: key16): Bundle {
    Bundle(Key(key[..8]), Key(key[8..]), Key(key[..8]))
  }

  /** What the encryption function computes. */
  ghost function Crypt(key: key16, m: seq<byte>, encrypt: bool): (r: seq<byte>)
    ensures |m| % 8 == 0 ==> |r| == |m|
  {
    CbcLength(KeyBundle(key), ZERO, m, encrypt);
    Cbc(KeyBundle(key), ZERO, m, encrypt)
  }

  /** What it leaves of a message that is decrypted where it lies. */
  ghost function DecryptedInPlace(key: key16, m: seq<byte>): (r: seq<byte>)
    ensures |r| <= |m|
  {
    ProcessedLength(KeyBundle(key), ZERO, m, false, true);
    Processed(KeyBundle(key), ZERO, m, false, true)
  }

  /** The three keys of a bundle in one buffer, parity adjusted. */
  method ParityKeys(key: key16) returns (sk: array<byte>)
    ensures fresh(sk) && sk.Length == 24
    ensures Bundle(Key(sk[..8]), Key(sk[8..16]), Key(sk[16..])) == KeyBundle(key)
  {
    hide Key, ParityByte;
    sk := new byte[24];
    DesParity(key, sk);
    ghost var p := ParityBytes(key);
    Put(sk, 16, sk[..8]);
    assert sk[..8] == p[..8] && sk[8..16] == p[8..] && sk[16..] == p[..8];
    assert p[..8] == ParityBytes(key[..8]) && p[8..] == ParityBytes(key[8..]);
    ParityKeepsKey(key[..8]);
    ParityKeepsKey(key[8..]);
  }

  method AuthenticationCrypt(key: key16, input: array<byte>, from: nat, length: nat, output: array<byte>, to: nat,
                             encrypt: bool)
    requires from + length <= input.Length && to + length <= output.Length
    requires input == output ==> from == to
    modifies output
    ensures |Crypt(key, old(input[from..from + length]), encrypt)| <= length
    ensures var m := old(input[from..from + length]);
            if encrypt || input != output then output[..] == Spliced(old(output[..]), to, Crypt(key, m, encrypt))
            else output[..] == Spliced(old(output[..]), to, DecryptedInPlace(key, m))
  {
    hide Cbc, Processed, LastTaken, Key, Spliced, KeyTable;
    CbcLength(KeyBundle(key), ZERO, input[from..from + length], encrypt);
    if encrypt || input != output {
      ProcessedIsCbc(KeyBundle(key), ZERO, input[from..from + length], encrypt, input == output);
    }
    var iv := new byte[8](_ => 0);
    assert iv[..] == ZERO;
    var sk := ParityKeys(key);
    var des := new Des3State();
    des.ExpandKeys(sk);
    des.Des3Cbc(input, from, length, output, to, iv, encrypt);
  }

  /** Decryption undoes encryption, and encryption undoes decryption. */
  lemma CryptUndone(key: key16, m: seq<byte>, encrypt: bool)
    requires |m| % 8 == 0
    ensures Crypt(key, Crypt(key, m, encrypt), !encrypt) == m
  {
    CbcUndone(KeyBundle(key), ZERO, m, encrypt);
  }

  lemma BundleComplement(key: key16)
    ensures KeyBundle(NotBytes(key)) == NotBundle(KeyBundle(key))
  {
    hide Key, NotAll;
    assert NotBytes(key)[..8] == NotBytes(key[..8]) && NotBytes(key)[8..] == NotBytes(key[8..]);
    KeyComplement(key[..8]);
    KeyComplement(key[8..]);
  }

  /** Complementing the key and the first block complements every byte of the ciphertext. */
  lemma CryptComplement(key: key16, m: seq<byte>)
    requires |m| >= 8
    ensures Crypt(NotBytes(key), NotBytes(m[..8]) + m[8..], true) == NotBytes(Crypt(key, m, true))
  {
    hide Cbc, KeyBundle, NotBundle, NotBytes;
    BundleComplement(key);
    CbcComplement(KeyBundle(key), ZERO, m);
  }

  // ---------- The MAC ----------

  /** Padding method 2 of section 6.3.3 of ISO/IEC 9797-1: a one bit, then zeros to fill the block. */
  function PaddingMethod2(m: seq<byte>): (r: seq<byte>)
    ensures |r| % 8 == 0
  {
    m + [0x80] + seq(7 - |m| % 8, _ => 0)
  }

  /** Enciphering block after block, each with the previous result xored in. */
  ghost function Chain(ks: seq<subkey>, h: block8, d: seq<byte>): block8
    decreases |d|
  {
    if |d| < 8 then h else Chain(ks, Ecb(ks, XorBytes(d[..8], h), true), d[8..])
  }

  /** MAC Algorithm 3 of section 7.4 of ISO/IEC 9797-1 on padded data. */
  ghost function MacAlgorithm3(k: seq<subkey>, k': seq<subkey>, d: seq<byte>): block8 {
    Ecb(k, Ecb(k', Chain(k, ZERO, d), false), true)
  }

  /** The MAC of a message of whole blocks. */
  ghost function Mac(key: key16, m: seq<byte>): block8 {
    MacAlgorithm3(Key(key[..8]), Key(key[8..]), PaddingMethod2(m))
  }

  const PAD: block8 := [0x80, 0, 0, 0, 0, 0, 0, 0]

  lemma {:induction false} ChainAppend(ks: seq<subkey>, h: block8, a: seq<byte>, b: seq<byte>)
    requires |a| % 8 == 0
    ensures Chain(ks, h, a + b) == Chain(ks, Chain(ks, h, a), b)
    decreases |a|
  {
    hide Ecb;
    if |a| < 8 {
      assert a + b == b;
    } else {
      assert (a + b)[..8] == a[..8] && (a + b)[8..] == a[8..] + b;
      ChainAppend(ks, Ecb(ks, XorBytes(a[..8], h), true), a[8..], b);
    }
  }

  lemma ChainOne(ks: seq<subkey>, h: block8, b: block8)
    ensures Chain(ks, h, b) == Ecb(ks, XorBytes(b, h), true)
  {
    hide Ecb;
    assert b[..8] == b && b[8..] == [];
  }

  lemma PaddedBlocks(m: seq<byte>)
    requires |m| % 8 == 0
    ensures PaddingMethod2(m) == m + PAD
  {
  }

  /** The last step of Algorithm 3 and its output transformation are one triple encryption. */
  lemma MacIsTriple(key: key16, m: seq<byte>)
    requires |m| % 8 == 0
    ensures Mac(key, m) == Ede(KeyBundle(key), XorBytes(PAD, Chain(Key(key[..8]), ZERO, m)), true)
  {
    hide Ecb, Chain, Key, PaddingMethod2, XorBytes;
    PaddedBlocks(m);
    ChainAppend(Key(key[..8]), ZERO, m, PAD);
    ChainOne(Key(key[..8]), Chain(Key(key[..8]), ZERO, m), PAD);
  }

  lemma {:induction false} ChainNot(ks: seq<subkey>, h: block8, m: seq<byte>)
    ensures Chain(NotAll(ks), NotBytes(h), m) == NotBytes(Chain(ks, h, m))
    decreases |m|
  {
    hide Ecb, NotAll, NotBytes;
    if |m| < 8 {
    } else {
      var x := XorBytes(m[..8], h);
      XorNot(m[..8], h);
      EcbComplement(ks, x, true);
      ChainNot(ks, Ecb(ks, x, true), m[8..]);
    }
  }

  /** Complementing the key and the first block complements the MAC. */
  lemma MacComplement(key: key16, m: seq<byte>)
    requires |m| % 8 == 0 && |m| >= 8
    ensures Mac(NotBytes(key), NotBytes(m[..8]) + m[8..]) == NotBytes(Mac(key, m))
  {
    hide Ecb, Ede, Key, NotAll, NotBundle, NotBytes, KeyBundle, Mac;
    var m' := NotBytes(m[..8]) + m[8..];
    assert m'[..8] == NotBytes(m[..8]) && m'[8..] == m[8..];
    var k := Key(key[..8]);
    FirstHalfNot(key);
    KeyComplement(key[..8]);
    BundleComplement(key);
    var x := XorBytes(m[..8], ZERO);
    XorNot(m[..8], ZERO);
    EcbComplement(k, x, true);
    ChainNot(k, Ecb(k, x, true), m[8..]);
    var h := Chain(k, ZERO, m);
    XorNot(PAD, h);
    EdeComplement(KeyBundle(key), XorBytes(PAD, h));
    MacIsTriple(key, m);
    MacIsTriple(NotBytes(key), m');
  }

  /** Keys that differ in parity bits only give the same ciphertexts and the same MACs. */
  lemma SameBundle(a: key16, b: key16, m: seq<byte>, encrypt: bool)
    requires KeyBundle(a) == KeyBundle(b)
    ensures Crypt(a, m, encrypt) == Crypt(b, m, encrypt) && Mac(a, m) == Mac(b, m)
  {
    hide Key, Cbc, MacAlgorithm3, PaddingMethod2;
    assert KeyBundle(a).k1 == KeyBundle(b).k1 && KeyBundle(a).k2 == KeyBundle(b).k2;
  }

  lemma SmallByte(x: byte)
    ensures x & 0xFE == 0 <==> x <= 1
  {
  }

  /** Clearing the first byte of a key changes none of its subkeys if and only if that byte
      is zero or one.
    */
  lemma ZeroedKey(key: key16)
    ensures KeyBundle(key[0 := 0]) == KeyBundle(key) <==> key[0] <= 1
  {
    hide Key;
    var a, b := key[0 := 0][..8], key[..8];
    assert key[0 := 0][8..] == key[8..];
    KeyDetermines(a, b);
    SmallByte(key[0]);
    assert forall i | 1 <= i < 8 :: a[i] == b[i];
    assert a[0] & 0xFE == 0;
    if SameKeyBits(a, b) {
      assert a[0] & 0xFE == b[0] & 0xFE;
    }
  }

  lemma FirstHalfNot(key: key16)
    ensures NotBytes(key)[..8] == NotBytes(key[..8])
  {
  }

  /** The salt is a 64-bit big-endian counter, incremented before use. */
  function Counter(salt: block8): bv64 {
    Swap64(Load(salt))
  }

  function NextSalt(salt: block8): block8 {
    Store(Swap64(Counter(salt) + 1))
  }

  /** The blocks the MAC covers: the incremented salt, if there is one, then the message. */
  function Covered(salt: seq<byte>, m: seq<byte>): seq<byte>
    requires |salt| == 0 || |salt| >= 8
  {
    if salt == [] then m else NextSalt(salt[..8]) + m
  }

  lemma XorZero(b: block8)
    ensures XorBytes(b, ZERO) == b
  {
  }

  /** The salt's part of the MAC: incremented in place, then encrypted into the work block. */
  method SaltBlock(keytab: array<bv64>, salt: array<byte>, temp: array<byte>)
    requires keytab.Length == 16 && salt.Length >= 8 && temp.Length == 8 && salt != temp
    modifies salt, temp
    ensures salt[..] == Spliced(old(salt[..]), 0, NextSalt(old(salt[..8])))
    ensures temp[..] == Ecb(KeyTable(keytab[..]), NextSalt(old(salt[..8])), true)
  {
    hide KeyTable, Ecb, Spliced, Store, Load, Swap64;
    ghost var s := salt[..];
    assert s[..8] == salt[..8];
    var inputTemp := Load(salt[..8]);
    inputTemp := Swap64(Swap64(inputTemp) + 1);
    Put(salt, 0, Store(inputTemp));
    SplicedParts(s, 0, Store(inputTemp));
    assert salt[0..8] == Spliced(s, 0, Store(inputTemp))[0..8];
    ghost var t := temp[..];
    label written:
    DesEcb(keytab, salt, 0, temp, 0, true);
    assert salt[..] == old@written(salt[..]);
    SplicedAll(t, Ecb(KeyTable(keytab[..]), NextSalt(s[..8]), true));
  }

  /** One block of the chain: xored into the work block, which is encrypted over itself. */
  method MixBlock(keytab: array<bv64>, block: block8, temp: array<byte>)
    requires keytab.Length == 16 && temp.Length == 8
    modifies temp
    ensures temp[..] == Ecb(KeyTable(keytab[..]), XorBytes(block, old(temp[..])), true)
  {
    hide KeyTable, Ecb, Spliced, Store, Load, XorBytes;
    ghost var t := temp[..];
    var inputTemp := Load(block);
    var mixed := Store(Load(temp[..]) ^ inputTemp);
    XorWords(t, block);
    XorSwaps(t, block);
    Put(temp, 0, mixed);
    SplicedAll(t, mixed);
    assert temp[0..8] == temp[..] == mixed;
    DesEcb(keytab, temp, 0, temp, 0, true);
    SplicedAll(mixed, Ecb(KeyTable(keytab[..]), mixed, true));
  }

  lemma XorSwaps(a: block8, b: block8)
    ensures XorBytes(a, b) == XorBytes(b, a)
  {
  }

  method ChainBlocks(keytab: array<bv64>, input: array<byte>, from: nat, blocks: nat, temp: array<byte>)
    requires keytab.Length == 16 && from + 8 * blocks <= input.Length && temp.Length == 8 && temp != input
    modifies temp
    ensures temp[..] == Chain(KeyTable(keytab[..]), old(temp[..]), old(input[from..from + 8 * blocks]))
  {
    hide KeyTable, Ecb;
    ghost var ks, h, m := KeyTable(keytab[..]), temp[..], input[from..from + 8 * blocks];
    ghost var rest := m;
    for i := 0 to blocks
      invariant rest == input[from + 8 * i..from + 8 * blocks]
      invariant Chain(ks, temp[..], rest) == Chain(ks, h, m)
    {
      var at := from + 8 * i;
      Window(input[..], at, from + 8 * blocks);
      assert rest == input[..][at..from + 8 * blocks];
      assert input[at..at + 8] == rest[..8];
      MixBlock(keytab, input[at..at + 8], temp);
      rest := rest[8..];
    }
  }

  /** The number of bytes the loop reads: a partial last block is read whole. */
  function Whole(length: nat): (r: nat)
    ensures r % 8 == 0 && length <= r < length + 8
  {
    (length + 7) / 8 * 8
  }

  /** The chain of the MAC: the salt, if there is one, and then the input's blocks. */
  method SaltAndChain(keytab: array<bv64>, salt: array?<byte>, input: array<byte>, from: nat, blocks: nat,
                      temp: array<byte>)
    requires keytab.Length == 16 && from + 8 * blocks <= input.Length && temp.Length == 8 && temp[..] == ZERO
    requires temp != input && temp != salt && (salt != null ==> salt.Length >= 8 && salt != input)
    modifies temp, salt
    ensures salt != null ==> salt[..] == Spliced(old(salt[..]), 0, NextSalt(old(salt[..8])))
    ensures temp[..] == Chain(KeyTable(keytab[..]), ZERO,
                              Covered(if salt == null then [] else old(salt[..]), old(input[from..from + 8 * blocks])))
  {
    hide KeyTable, Ecb, Chain, Spliced, NextSalt;
    ghost var m, s := input[from..from + 8 * blocks], if salt == null then [] else salt[..];
    ghost var k, before := KeyTable(keytab[..]), if salt == null then [] else NextSalt(s[..8]);
    if salt == null {
      EmptyChain(k);
    } else {
      SaltBlock(keytab, salt, temp);
      XorZero(NextSalt(s[..8]));
      ChainOne(k, ZERO, NextSalt(s[..8]));
      assert old(salt[..8]) == s[..8];
    }
    label salted:
    assert temp[..] == Chain(k, ZERO, before);
    assert input[from..from + 8 * blocks] == m;
    ChainBlocks(keytab, input, from, blocks, temp);
    ChainAppend(k, ZERO, before, m);
    assert before + m == Covered(s, m);
    assert salt != null ==> salt[..] == old@salted(salt[..]);
  }

  lemma WholeBlock(length: nat)
    requires length % 8 == 0
    ensures Whole(length) == length
  {
  }

  /** The MAC.  The salt, when there is one, is stepped in place before anything is read. */
  method AuthenticationMac(key: key16, salt: array?<byte>, input: array<byte>, from: nat, length: nat,
                           output: array<byte>, to: nat)
    requires from + Whole(length) <= input.Length && to + 8 <= output.Length
    requires salt != null ==> salt.Length >= 8 && salt != input && salt != output
    modifies output, salt
    ensures var s, m := if salt == null then [] else old(salt[..]), old(input[from..from + Whole(length)]);
            output[..] == Spliced(old(output[..]), to, Mac(key, Covered(s, m)))
    ensures salt != null ==> salt[..] == Spliced(old(salt[..]), 0, NextSalt(old(salt[..8])))
  {
    hide KeyTable, Schedule, BytesBits, Ecb, Chain, Spliced, Key, Cbc, Mac, NextSalt, XorBytes, Covered;
    ghost var m := Covered(if salt == null then [] else salt[..], input[from..from + Whole(length)]);
    WholeBlocks(if salt == null then [] else salt[..], input[from..from + Whole(length)]);
    var iv, temp := new byte[8](_ => 0), new byte[8](_ => 0);
    assert iv[..] == ZERO && temp[..] == ZERO;
    var sk := ParityKeys(key);
    var keytab := new bv64[16];
    ExpandFirst(keytab, sk, key);
    SaltAndChain(keytab, salt, input, from, Whole(length) / 8, temp);
    label chained:
    PadBlock(temp);
    LastBlock(sk, key, temp, output, to, iv);
    MacIsTriple(key, m);
    assert salt != null ==> salt[..] == old@chained(salt[..]);
  }

  lemma WholeBlocks(salt: seq<byte>, m: seq<byte>)
    requires (|salt| == 0 || |salt| >= 8) && |m| % 8 == 0
    ensures |Covered(salt, m)| % 8 == 0
  {
    hide NextSalt;
  }

  lemma EmptyChain(ks: seq<subkey>)
    ensures Chain(ks, ZERO, []) == ZERO
  {
  }

  lemma XorPad(h: block8)
    ensures h[0 := h[0] ^ 0x80] == XorBytes(PAD, h)
  {
  }

  method ExpandFirst(keytab: array<bv64>, sk: array<byte>, ghost key: key16)
    requires keytab.Length == 16 && sk.Length == 24 && Key(sk[..8]) == Key(key[..8])
    modifies keytab
    ensures KeyTable(keytab[..]) == Key(key[..8])
  {
    hide KeyTable, Schedule, BytesBits;
    assert sk[0..8] == sk[..8];
    ExpandKey(keytab, sk, 0);
  }

  lemma OneBlock(k: Bundle, b: block8)
    ensures Cbc(k, ZERO, b, true) == Ede(k, b, true)
  {
    hide Ede;
    XorZero(b);
    assert b[..8] == b && b[8..] == [];
  }

  /** The last block is the padding, of which only the first bit is not zero. */
  method PadBlock(temp: array<byte>)
    requires temp.Length == 8
    modifies temp
    ensures temp[..] == XorBytes(PAD, old(temp[..]))
  {
    hide XorBytes;
    XorPad(temp[..]);
    temp[0] := temp[0] ^ 0x80;
  }

  method LastBlock(sk: array<byte>, ghost key: key16, temp: array<byte>, output: array<byte>, to: nat, iv: array<byte>)
    requires sk.Length == 24 && Bundle(Key(sk[..8]), Key(sk[8..16]), Key(sk[16..])) == KeyBundle(key)
    requires temp.Length == 8 && iv.Length == 8 && iv[..] == ZERO && to + 8 <= output.Length
    requires iv != temp && iv != output && temp != output
    modifies output, iv
    ensures output[..] == Spliced(old(output[..]), to, Ede(KeyBundle(key), old(temp[..]), true))
  {
    hide KeyTable, Key, Cbc, Processed, LastTaken, Spliced, Ede;
    assert temp[0..8] == temp[..];
    ProcessedIsCbc(KeyBundle(key), ZERO, temp[0..8], true, false);
    var des := new Des3State();
    des.ExpandKeys(sk);
    OneBlock(KeyBundle(key), temp[0..8]);
    des.Des3Cbc(temp, 0, 8, output, to, iv, true);
  }

  // ---------- The ACR value ----------

  /** Two MACs of the fixed text: one chained from the encrypted nonce of the identification
      data, the other keyed by it and by its serial and the console's id.
    */
  function Acr(consoleId: seq<byte>, id: seq<byte>, key: block8): block8
    requires |consoleId| >= 4 && |id| >= 0x18
  {
    hide SBOX, PLAIN_TEXT, Parve.Ecb, Parve.CbcMac, ExcryptParve.SumMac;
    var ab := Parve.CbcMac(key, SBOX, Parve.Ecb(key, SBOX, id[0x10..0x18]), PLAIN_TEXT);
    var cd := Parve.Ecb(key, SBOX, id[..4] + consoleId[..4]);
    XorBytes(ExcryptParve.SumMac(cd, ab, PLAIN_TEXT), ab)
  }

  /** Of the identification data, only the first four bytes and the eight from the sixteenth on
      matter, and of the console's id the first four.
    */
  lemma AcrDependsOn(consoleId: seq<byte>, id: seq<byte>, consoleId': seq<byte>, id': seq<byte>, key: block8)
    requires |consoleId| >= 4 && |id| >= 0x18 && |consoleId'| >= 4 && |id'| >= 0x18
    requires consoleId[..4] == consoleId'[..4] && id[..4] == id'[..4] && id[0x10..0x18] == id'[0x10..0x18]
    ensures Acr(consoleId, id, key) == Acr(consoleId', id', key)
  {
  }

  lemma Refolded(s: seq<byte>, at: nat, x: block8, y: block8)
    requires at + 12 <= |s|
    ensures var t := Spliced(s, at, x + ZeroBytes(4));
            t[at..at + 8] == x && Spliced(t, at, y) == Spliced(s, at, y + ZeroBytes(4))
  {
  }

  /** The ACR value in place: eight bytes, and the four zeros that the MAC leaves behind them. */
  method AuthenticationAcr(consoleId: seq<byte>, input: seq<byte>, key: block8, output: array<byte>, to: nat)
    requires |consoleId| >= 4 && |input| >= 0x18 && to + 12 <= output.Length
    modifies output
    ensures output[..] == Spliced(old(output[..]), to, Acr(consoleId, input, key) + ZeroBytes(4))
  {
    hide SBOX, PLAIN_TEXT, Parve.Ecb, Parve.CbcMac, ExcryptParve.SumMac, Load, Store, Spliced, ZeroBytes;
    TextLength();
    var block := input[..4] + consoleId[..4];
    var iv := ExcryptParve.ParveEcb(key, SBOX, input[0x10..0x18]);
    var cd := ExcryptParve.ParveEcb(key, SBOX, block);
    var ab := ExcryptParve.ParveCbcMac(key, SBOX, iv, PLAIN_TEXT);
    ghost var sum, before := ExcryptParve.SumMac(cd, ab, PLAIN_TEXT), output[..];
    ExcryptParve.ChainAndSumMac(cd, ab, PLAIN_TEXT, 0x20, output, to);
    XorWords(sum, ab);
    Refolded(before, to, sum, XorBytes(sum, ab));
    assert output[to..to + 8] == output[..][to..to + 8] == sum;
    var current := Load(output[to..to + 8]) ^ Load(ab);
    Put(output, to, Store(current));
  }

  lemma TextLength()
    ensures |PLAIN_TEXT| == 0x80
  {
  }
}
