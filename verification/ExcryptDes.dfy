/** DES and triple DES as the code runs them: loops that shift bits through words, working
    on byte buffers.  Each method is proved to compute the standard's function.
  */
module ExcryptDes {
  import opened Bits
  import opened Memory
  import opened DesData
  import opened DesStandard
  import opened DesWords
  import opened Tdea

  /** The subkeys an expanded key table holds. */
  ghost function KeyTable(keytab: seq<bv64>): (r: seq<subkey>)
    ensures |r| == |keytab|
  {
    seq(|keytab|, i requires 0 <= i < |keytab| => WordBits(keytab[i], 48))
  }

  /** The loop every permutation of the cipher runs. */
  method Gather(x: bv64, width: nat, t: seq<nat>) returns (r: bv64)
    requires width <= 64 && |t| <= 64 && Picks(t, width)
    ensures WordBits(r, |t|) == Permute(WordBits(x, width), t)
  {
    hide WordBits;
    r := 0;
    assert WordBits(r, 0) == [];
    for i := 0 to |t|
      invariant WordBits(r, i) == Permute(WordBits(x, width), t)[..i]
    {
      GatherStep(r, x, width, t, i);
      r := r << 1;
      r := r | ((x >> ((width - t[i]) as bv8)) & 1);
    }
  }

  lemma RotateOnce(c: register, j: nat)
    requires j < 28
    ensures RotateLeft(RotateLeft(c, j), 1) == RotateLeft(c, j + 1)
  {
    var a, b := RotateLeft(RotateLeft(c, j), 1), RotateLeft(c, j + 1);
    assert a[..27] == RotateLeft(c, j)[1..] == b[..27];
  }

  lemma RotateNone(c: register)
    ensures RotateLeft(c, 0) == c
  {
  }

  lemma Unshifted(c: register)
    ensures Shifted(c, 0) == c
  {
  }

  method ExpandKey(keytab: array<bv64>, key: array<byte>, at: nat)
    requires keytab.Length == 16 && at + 8 <= key.Length
    modifies keytab
    ensures KeyTable(keytab[..]) == Schedule(BytesBits(key[at..at + 8]))
  {
    hide WordBits, BytesBits, Load, Swap64, PC1, PC2, ITERATION_SHIFT;
    hide Narrow, High28, Low28, Wide, Rotated, JoinedRegisters, Permute, RotateLeft;
    KeyTables();
    ShiftTable();
    ghost var kb: block := BytesBits(key[at..at + 8]);
    var qkey := Swap64(Load(key[at..at + 8]));
    LoadedBits(key[at..at + 8]);
    var permutedChoice1 := Gather(qkey, 64, PC1);
    SplitRegisters(permutedChoice1);
    var C := Narrow(High28(permutedChoice1));
    var D := Narrow(Low28(permutedChoice1));
    RegistersNarrow(permutedChoice1);
    ghost var p := Permute(kb, PC1);
    ghost var c0: register, d0: register := p[..28], p[28..];
    Unshifted(c0);
    Unshifted(d0);
    for i := 0 to 16
      invariant C <= 0xFFF_FFFF && D <= 0xFFF_FFFF
      invariant WordBits(Wide(C), 28) == Shifted(c0, i) && WordBits(Wide(D), 28) == Shifted(d0, i)
      invariant forall k | 0 <= k < i :: WordBits(keytab[k], 48) == Subkey(kb, k)
    {
      RotateNone(Shifted(c0, i));
      RotateNone(Shifted(d0, i));
      for j := 0 to ITERATION_SHIFT[i]
        modifies {}
        invariant C <= 0xFFF_FFFF && D <= 0xFFF_FFFF
        invariant WordBits(Wide(C), 28) == RotateLeft(Shifted(c0, i), j)
        invariant WordBits(Wide(D), 28) == RotateLeft(Shifted(d0, i), j)
      {
        RotatedBits(C);
        RotatedBits(D);
        RotateOnce(Shifted(c0, i), j);
        RotateOnce(Shifted(d0, i), j);
        C := Rotated(C);
        D := Rotated(D);
      }
      JoinRegisters(C, D);
      var subKey := Gather(JoinedRegisters(C, D), 56, PC2);
      keytab[i] := subKey;
    }
  }

  /** One S-box lookup: the masks cut out row and column of group i. */
  method Lookup(s: bv64, i: nat) returns (entry: bv8)
    requires i < 8
    ensures entry == SBoxEntry(i, WordBits(s, 48)[6 * i..6 * i + 6])
  {
    hide WordBits, SBOX, OuterBits, InnerBits, RowOf, Char;
    SBoxTable();
    GroupEntry(s, i);
    var row := RowOf(OuterBits(s, i));
    var column := Char(InnerBits(s, i));
    entry := SBOX[i][16 * (row as int) + column as int];
  }

  /** The eight lookups, four bits of the result each. */
  method LookupAll(s: bv64) returns (output: bv32)
    ensures WordBits(Wide(output), 32) == Substitute(WordBits(s, 48), 8)
  {
    hide WordBits, Wide, SBOX, SBoxEntry, WithNibble, Nibble;
    output := 0;
    NoBits(Wide(output));
    for i := 0 to 8
      invariant WordBits(Wide(output), 4 * i) == Substitute(WordBits(s, 48), i)
    {
      var entry := Lookup(s, i);
      NibbleIn(output, entry, 4 * i);
      output := WithNibble(output, entry);
    }
  }

  /** The cipher function f on machine words. */
  method RoundFunction(R: bv32, k: bv64) returns (f: bv32)
    ensures WordBits(Wide(f), 32) == F(WordBits(Wide(R), 32), WordBits(k, 48))
  {
    hide WordBits, Wide, Narrow, EXPANSION, PBOX, SBOX, Permute, Xor, Substitute;
    ExpansionTable();
    PBoxTable();
    var expanded := Gather(Wide(R), 32, EXPANSION);
    var s := expanded ^ k;
    WordBitsXor(expanded, k, 48);
    var output := LookupAll(s);
    var result := Gather(Wide(output), 32, PBOX);
    f := Narrow(result);
    NarrowBits(result, 32);
  }

  lemma NoBits(x: bv64)
    ensures WordBits(x, 0) == []
  {
  }

  lemma LoadedBits(b: block8)
    ensures WordBits(Swap64(Load(b)), 64) == BytesBits(b)
  {
    hide WordBits, BytesBits, Load, Store, Swap64;
    var w := Swap64(Load(b));
    WordIsBytes(w);
    SwapTwice(Load(b));
    StoreLoad(b);
  }

  lemma RegistersNarrow(x: bv64)
    ensures Wide(Narrow(High28(x))) == High28(x) && Narrow(High28(x)) <= 0xFFF_FFFF
    ensures Wide(Narrow(Low28(x))) == Low28(x) && Narrow(Low28(x)) <= 0xFFF_FFFF
  {
  }

  /** One block as a word: initial permutation, sixteen rounds, exchange, final permutation. */
  method CryptWord(keytab: array<bv64>, w: bv64, encrypt: bool) returns (result: bv64)
    requires keytab.Length == 16
    ensures WordBits(result, 64) == Des(KeyTable(keytab[..]), WordBits(w, 64), encrypt)
  {
    hide WordBits, Wide, Narrow, Joined, IP, FP, Permute, F;
    BlockTables();
    ghost var kt := KeyTable(keytab[..]);
    ghost var ks := if encrypt then kt else Reverse(kt);
    var permuted := Gather(w, 64, IP);
    ghost var p: block := WordBits(permuted, 64);
    var L, R := Narrow(permuted >> 32), Narrow(permuted);
    SplitWord(permuted);
    for i := 0 to 16
      invariant Rounds(WordBits(Wide(L), 32), WordBits(Wide(R), 32), ks[i..]) == Rounds(p[..32], p[32..], ks)
    {
      var k := if encrypt then keytab[i] else keytab[15 - i];
      var f := RoundFunction(R, k);
      assert ks[i..][0] == WordBits(k, 48) && ks[i..][1..] == ks[i + 1..];
      WordBitsXor(Wide(L), Wide(f), 32);
      XorWide(L, f);
      L, R := R, L ^ f;
    }
    assert ks[16..] == [];
    JoinWord(R, L);
    result := Gather(Joined(R, L), 64, FP);
  }

  /** One block, with a key table already expanded; input and output may be the same bytes. */
  method DesEcb(keytab: array<bv64>, input: array<byte>, from: nat, output: array<byte>, to: nat, encrypt: bool)
    requires keytab.Length == 16 && from + 8 <= input.Length && to + 8 <= output.Length
    modifies output
    ensures output[..] == Spliced(old(output[..]), to, Ecb(KeyTable(keytab[..]), old(input[from..from + 8]), encrypt))
  {
    hide WordBits, BytesBits, Load, Store, Swap64, Spliced, Des;
    ghost var kt := KeyTable(keytab[..]);
    var block := Swap64(Load(input[from..from + 8]));
    LoadedBits(input[from..from + 8]);
    var result := CryptWord(keytab, block, encrypt);
    var bytes := Store(Swap64(result));
    WordIsBytes(result);
    BytesOfBytesBits(bytes);
    Put(output, to, bytes);
    assert KeyTable(keytab[..]) == kt;
  }

  lemma XorWide(x: bv32, y: bv32)
    ensures Wide(x ^ y) == Wide(x) ^ Wide(y)
  {
  }

  /** The state of triple DES: three expanded keys. */
  class Des3State {
    const table1: array<bv64>
    const table2: array<bv64>
    const table3: array<bv64>

    constructor ()
      ensures fresh(table1) && fresh(table2) && fresh(table3)
      ensures table1 != table2 && table1 != table3 && table2 != table3
      ensures table1.Length == table2.Length == table3.Length == 16
    {
      table1, table2, table3 := new bv64[16], new bv64[16], new bv64[16];
    }

    ghost predicate Valid()
    {
      table1 != table2 && table1 != table3 && table2 != table3 &&
      table1.Length == table2.Length == table3.Length == 16
    }

    /** The subkeys the state holds. */
    ghost function Keys(): Bundle
      reads table1, table2, table3
    {
      Bundle(KeyTable(table1[..]), KeyTable(table2[..]), KeyTable(table3[..]))
    }

    method ExpandKeys(keys: array<byte>)
      requires Valid() && keys.Length == 24
      modifies table1, table2, table3
      ensures Keys() == Bundle(Key(keys[..8]), Key(keys[8..16]), Key(keys[16..]))
    {
      hide BytesBits, Schedule;
      assert keys[0..8] == keys[..8] && keys[16..24] == keys[16..];
      ExpandKey(table1, keys, 0);
      ExpandKey(table2, keys, 8);
      ExpandKey(table3, keys, 16);
    }

    method Des3Ecb(input: array<byte>, from: nat, output: array<byte>, to: nat, encrypt: bool)
      requires Valid() && from + 8 <= input.Length && to + 8 <= output.Length
      modifies output
      ensures Keys() == old(Keys())
      ensures output[..] == Spliced(old(output[..]), to, Ede(old(Keys()), old(input[from..from + 8]), encrypt))
    {
      hide KeyTable, Ecb, Spliced;
      ghost var k, s, b := Keys(), output[..], input[from..from + 8];
      if encrypt {
        DesEcb(table1, input, from, output, to, encrypt);
        SplicedParts(s, to, Ecb(k.k1, b, true));
        ghost var c := output[to..to + 8];
        assert c == Ecb(k.k1, b, true);
        DesEcb(table2, output, to, output, to, !encrypt);
        SplicedTwice(s, to, Ecb(k.k1, b, true), Ecb(k.k2, c, false));
        SplicedParts(s, to, Ecb(k.k2, c, false));
        ghost var d := output[to..to + 8];
        assert d == Ecb(k.k2, c, false);
        DesEcb(table3, output, to, output, to, encrypt);
        SplicedTwice(s, to, Ecb(k.k2, c, false), Ecb(k.k3, d, true));
      } else {
        DesEcb(table3, input, from, output, to, encrypt);
        SplicedParts(s, to, Ecb(k.k3, b, false));
        ghost var c := output[to..to + 8];
        assert c == Ecb(k.k3, b, false);
        DesEcb(table2, output, to, output, to, !encrypt);
        SplicedTwice(s, to, Ecb(k.k3, b, false), Ecb(k.k2, c, true));
        SplicedParts(s, to, Ecb(k.k2, c, true));
        ghost var d := output[to..to + 8];
        assert d == Ecb(k.k2, c, true);
        DesEcb(table1, output, to, output, to, encrypt);
        SplicedTwice(s, to, Ecb(k.k2, c, true), Ecb(k.k1, d, false));
      }
    }

    method EncryptBlock(input: array<byte>, at: nat, output: array<byte>, out: nat, lastBlock: bv64)
      returns (next: bv64)
      requires Valid() && at + 8 <= input.Length && out + 8 <= output.Length
      modifies output
      ensures Keys() == old(Keys())
      ensures Store(next) == Taken(old(Keys()), Store(lastBlock), old(input[at..at + 8]), true, input == output)
      ensures output[..] == Spliced(old(output[..]), out,
                                    CbcBlock(old(Keys()), Store(lastBlock), old(input[at..at + 8]), true))
    {
      hide KeyTable, Ede, Load, Store, Spliced;
      ghost var s, x := output[..], XorBytes(input[at..at + 8], Store(lastBlock));
      var temp := Load(input[at..at + 8]) ^ lastBlock;
      XorStored(input[at..at + 8], lastBlock);
      Put(output, out, Store(temp));
      SplicedParts(s, out, x);
      assert output[out..out + 8] == x;
      Des3Ecb(output, out, output, out, true);
      ghost var c := Ede(old(Keys()), x, true);
      SplicedTwice(s, out, x, c);
      SplicedParts(s, out, c);
      next := Load(output[out..out + 8]);
      StoreLoad(output[out..out + 8]);
    }

    method DecryptBlock(input: array<byte>, at: nat, output: array<byte>, out: nat, lastBlock: bv64)
      returns (next: bv64)
      requires Valid() && at + 8 <= input.Length && out + 8 <= output.Length && (input == output ==> at == out)
      modifies output
      ensures Keys() == old(Keys())
      ensures Store(next) == Taken(old(Keys()), Store(lastBlock), old(input[at..at + 8]), false, input == output)
      ensures output[..] == Spliced(old(output[..]), out,
                                    CbcBlock(old(Keys()), Store(lastBlock), old(input[at..at + 8]), false))
    {
      hide KeyTable, Ede, Load, Store, Spliced;
      ghost var s, b := output[..], input[at..at + 8];
      Des3Ecb(input, at, output, out, false);
      ghost var x := Ede(old(Keys()), b, false);
      SplicedParts(s, out, x);
      assert output[out..out + 8] == x;
      var temp := Load(output[out..out + 8]) ^ lastBlock;
      XorStored(x, lastBlock);
      Put(output, out, Store(temp));
      SplicedTwice(s, out, x, XorBytes(x, Store(lastBlock)));
      SplicedParts(s, out, XorBytes(x, Store(lastBlock)));
      next := Load(input[at..at + 8]);
      StoreLoad(input[at..at + 8]);
    }

    /** The loop of the CBC routine, from the word loaded from `feed` to the word stored there. */
    method CbcBlocks(input: array<byte>, from: nat, size: nat, output: array<byte>, to: nat, feed: bv64, encrypt: bool)
      returns (lastBlock: bv64)
      requires Valid() && from + size <= input.Length && to + size <= output.Length
      requires input == output ==> from == to
      modifies output
      ensures Keys() == old(Keys())
      ensures var k, m := old(Keys()), old(input[from..from + size]);
              && |Processed(k, Store(feed), m, encrypt, input == output)| <= size
              && output[..] == Spliced(old(output[..]), to, Processed(k, Store(feed), m, encrypt, input == output))
              && Store(lastBlock) == LastTaken(k, Store(feed), m, encrypt, input == output)
    {
      hide KeyTable, Processed, LastTaken, CbcBlock, Taken, Load, Store, Spliced;
      ghost var k, s, m, source, same := Keys(), output[..], input[from..from + size], input[..], input == output;
      ghost var done, rest := [], m;
      lastBlock := feed;
      ProcessedLength(k, Store(feed), m, encrypt, same);
      SplicedNothing(s, to);
      for i := 0 to size / 8
        invariant Keys() == k && |done| == 8 * i && output[..] == Spliced(s, to, done)
        invariant done + Processed(k, Store(lastBlock), rest, encrypt, same)
               == Processed(k, Store(feed), m, encrypt, same)
        invariant LastTaken(k, Store(lastBlock), rest, encrypt, same) == LastTaken(k, Store(feed), m, encrypt, same)
        invariant rest == source[from + 8 * i..from + size] && input[..][from + 8 * i..] == source[from + 8 * i..]
      {
        var at, out := from + 8 * i, to + 8 * i;
        Window(source, at, from + size);
        Window(input[..], at, input.Length);
        assert input[at..at + 8] == rest[..8];
        ghost var c := CbcBlock(k, Store(lastBlock), rest[..8], encrypt);
        OnePass(k, Store(lastBlock), rest, encrypt, same, done, Processed(k, Store(feed), m, encrypt, same));
        if encrypt {
          lastBlock := EncryptBlock(input, at, output, out, lastBlock);
        } else {
          lastBlock := DecryptBlock(input, at, output, out, lastBlock);
        }
        SplicedOver(s, to, done, c);
        done, rest := done + c, rest[8..];
      }
      NothingLeft(k, Store(lastBlock), rest, encrypt, same);
      assert done == done + [];
    }

    /** CBC over the whole blocks of the input.  Decryption reads the input after it has
        written the output, which in place is the wrong block to go on with.
      */
    method Des3Cbc(input: array<byte>, from: nat, size: nat, output: array<byte>, to: nat, feed: array<byte>,
                   encrypt: bool)
      requires Valid() && from + size <= input.Length && to + size <= output.Length && feed.Length == 8
      requires feed != input && feed != output
      requires input == output ==> from == to
      modifies output, feed
      ensures Keys() == old(Keys())
      ensures var k, f, m := old(Keys()), old(feed[..]), old(input[from..from + size]);
              && |Processed(k, f, m, encrypt, input == output)| <= size
              && output[..] == Spliced(old(output[..]), to, Processed(k, f, m, encrypt, input == output))
              && feed[..] == LastTaken(k, f, m, encrypt, input == output)
    {
      hide KeyTable, Processed, LastTaken, Load, Store, Spliced;
      StoreLoad(feed[..]);
      var lastBlock := CbcBlocks(input, from, size, output, to, Load(feed[..]), encrypt);
      label looped:
      SplicedAll(feed[..], Store(lastBlock));
      Put(feed, 0, Store(lastBlock));
      assert output[..] == old@looped(output[..]);
    }
  }

  /** The block at the front of a window and what follows it. */
  lemma Window(s: seq<byte>, at: nat, end: nat)
    requires at + 8 <= end <= |s|
    ensures s[at..end][..8] == s[at..at + 8] && s[at..end][8..] == s[at + 8..end]
    ensures s[at..][..8] == s[at..at + 8] && s[at..][8..] == s[at + 8..]
  {
  }

  lemma XorStored(b: block8, w: bv64)
    ensures Store(Load(b) ^ w) == XorBytes(b, Store(w))
  {
    hide Load, Store;
    LoadStore(w);
    XorWords(b, Store(w));
  }
}