/** The Parve cipher and its MACs as the code runs them. */
module ExcryptParve {
  import opened Bits
  import opened Memory
  import opened Parve
  import ChainSum

  method Add(x: byte, y: byte) returns (z: byte)
    ensures z == Plus(x, y)
  {
    z := x + y;
  }

  /** ROTL8(y, 1). */
  method Rotated(y: byte) returns (z: byte)
    ensures z == RotateLeft1(y)
  {
    z := (y << 1) | (y >> 7);
  }

  /** The inner loop's new value for one byte. */
  method Chained(sbox: table, k: byte, last: byte, b: byte, i: byte) returns (z: byte)
    ensures z == Mix(sbox[Index(k, last, i)], b)
  {
    hide Plus, RotateLeft1, Value;
    var x := Add(k, last);
    x := Add(x, i);
    var y := Add(sbox[Value(x)], b);
    z := Rotated(y);
  }

  /** One round, in place: every byte is changed by the one before it, then the ninth wraps. */
  method RoundInPlace(key: block8, sbox: table, block: array<byte>, i: byte)
    requires block.Length == 9
    modifies block
    ensures block[..] == Round(key, sbox, old(block[..]), i)
  {
    hide Mix, Index;
    ghost var b: wrapped := block[..];
    for j := 0 to 8
      invariant block[..] == Steps(key, sbox, b, i, j)
    {
      block[j + 1] := Chained(sbox, key[j], block[j], block[j + 1], i);
    }
    block[0] := block[8];
  }

  /** Eight rounds over a nine-byte work block. */
  method ParveEcb(key: block8, sbox: table, input: block8) returns (output: block8)
    ensures output == Ecb(key, sbox, input)
  {
    hide Round;
    var block := new byte[9];
    Put(block, 0, input);
    block[8] := block[0];
    ghost var start: wrapped := input + [input[0]];
    assert block[..] == start;
    var i := 8;
    while i > 0
      invariant 0 <= i <= 8
      invariant Rounds(key, sbox, block[..], i) == Rounds(key, sbox, start, 8)
    {
      RoundInPlace(key, sbox, block, i as byte);
      i := i - 1;
    }
    output := block[..8];
  }

  /** The chained MAC over the whole blocks of a message. */
  method ParveCbcMac(key: block8, sbox: table, iv: block8, input: seq<byte>) returns (output: block8)
    ensures output == CbcMac(key, sbox, iv, input)
  {
    hide Ecb, Load, Store;
    var block := Load(iv);
    StoreLoad(iv);
    ghost var rest := input;
    for i := 0 to |input| / 8
      invariant rest == input[8 * i..]
      invariant CbcMac(key, sbox, Store(block), rest) == CbcMac(key, sbox, iv, input)
    {
      var temp := Load(input[8 * i..8 * i + 8]);
      XorLoaded(block, input[8 * i..8 * i + 8]);
      assert rest[..8] == input[8 * i..8 * i + 8];
      block := block ^ temp;
      var next := ParveEcb(key, sbox, Store(block));
      block := Load(next);
      StoreLoad(next);
      rest := rest[8..];
    }
    output := Store(block);
  }

  lemma XorLoaded(w: bv64, b: block8)
    ensures Store(w ^ Load(b)) == XorBytes(Store(w), b)
  {
    hide Load, Store;
    LoadStore(w);
    XorWords(Store(w), b);
  }

  // ---------- The chain-and-sum MAC on bytes ----------

  /** A big-endian 32-bit word: what SWAP32 makes of one loaded from memory. */
  function Word(b: seq<byte>): ChainSum.word
    requires |b| == 4
  {
    (b[0] as int * 0x100_0000 + b[1] as int * 0x1_0000 + b[2] as int * 0x100 + b[3] as int)
  }

  function Words(b: seq<byte>): (r: seq<ChainSum.word>)
    ensures |r| == |b| / 4
  {
    seq(|b| / 4, i requires 0 <= i < |b| / 4 => Word(b[4 * i..4 * i + 4]))
  }

  function WordBytes(w: ChainSum.word): (r: seq<byte>)
    ensures |r| == 4
  {
    [(w / 0x100_0000 % 0x100) as byte, (w / 0x1_0000 % 0x100) as byte, (w / 0x100 % 0x100) as byte, (w % 0x100) as byte]
  }

  /** The MAC as eight bytes. */
  function SumMac(cd: block8, ab: block8, input: seq<byte>): block8 {
    var (x, y) := ChainSum.Mac(Words(input), Word(ab[..4]), Word(ab[4..]), Word(cd[..4]), Word(cd[4..]));
    WordBytes(x) + WordBytes(y)
  }

  /** The two eight-byte copies of a result at `at` write position i. */
  predicate Writes(at: nat, i: nat) {
    at <= i < at + 8 || at + 4 <= i < at + 12
  }

  /** The copies stay inside a buffer of n bytes exactly if there are twelve bytes from the
      offset on, although the result has only eight.
    */
  lemma CopiesFit(n: nat, at: nat)
    ensures (forall i: nat :: Writes(at, i) ==> i < n) <==> at + 12 <= n
  {
    assert Writes(at, at + 11);
  }

  /** In memory of n bytes, those that are overwritten are exactly the ones whose value afterwards
      does not depend on what it was.
    */
  lemma WritesExactly(n: nat, at: nat, x: block8, i: nat)
    requires at + 12 <= n && i < n
    ensures Writes(at, i) <==>
            forall s: seq<byte>, t: seq<byte> | |s| == |t| == n ::
              Spliced(s, at, x + ZeroBytes(4))[i] == Spliced(t, at, x + ZeroBytes(4))[i]
  {
    if !Writes(at, i) {
      var s, t := seq<byte>(n, _ => 0), seq<byte>(n, _ => 1);
      assert Spliced(s, at, x + ZeroBytes(4))[i] == 0 && Spliced(t, at, x + ZeroBytes(4))[i] == 1;
    }
  }

  lemma Overlaid(s: seq<byte>, at: nat, x: seq<byte>, y: seq<byte>)
    requires at + 12 <= |s| && |x| == |y| == 4
    ensures Spliced(Spliced(s, at, x + ZeroBytes(4)), at + 4, y + ZeroBytes(4)) == Spliced(s, at, x + y + ZeroBytes(4))
  {
  }

  /** The result goes into the output as two 64-bit words, the second over the upper half of
      the first: behind its eight bytes, four become zero.
    */
  method ChainAndSumMac(cd: block8, ab: block8, input: seq<byte>, dwords: nat, output: array<byte>, to: nat)
    requires dwords < ChainSum.TWO32 && |input| == 4 * dwords && to + 12 <= output.Length
    modifies output
    ensures output[..] == Spliced(old(output[..]), to, SumMac(cd, ab, input) + ZeroBytes(4))
  {
    hide Word, WordBytes, ChainSum.Mac, Spliced;
    var words := Words(input);
    assert words[..dwords] == words;
    var r := ChainSum.Accumulate(words, dwords, Word(ab[..4]), Word(ab[4..]), Word(cd[..4]), Word(cd[4..]));
    var out0, out1 := WordBytes(r.0) + ZeroBytes(4), WordBytes(r.1) + ZeroBytes(4);
    Overlaid(output[..], to, WordBytes(r.0), WordBytes(r.1));
    Put(output, to, out0);
    Put(output, to + 4, out1);
  }
}
