/** The chain-and-sum MAC as the affine recurrence it stands for.

    Each pair of message words drives x -> (x + K u) a0 + a1 -> (v + x) c0 + c1, and the
    values on the way are summed.  The recurrence below lets its numbers grow without bound
    and reduces modulo 2^31 - 1 only at the very end; the code reduces after every step, in
    64-bit words.  That the two agree is proved here.
  */
module ChainSum {
  const P: nat := 0x7FFF_FFFF
  const K: nat := 0xE79A9C1
  const TWO32: nat := 0x1_0000_0000
  const TWO64: nat := 0x1_0000_0000_0000_0000

  type word = x: nat | x < 0x1_0000_0000

  datatype Sums = Sums(chain: nat, sum: nat)

  function First(x: nat, u: nat, a0: nat, a1: nat): nat {
    (x + K * u) * a0 + a1
  }

  function Second(x: nat, v: nat, c0: nat, c1: nat): nat {
    (v + x) * c0 + c1
  }

  /** The recurrence after n pairs of words. */
  function Unreduced(m: seq<word>, n: nat, a0: nat, a1: nat, c0: nat, c1: nat): Sums
    requires 2 * n <= |m|
  {
    if n == 0 then Sums(0, 0)
    else
      var s := Unreduced(m, n - 1, a0, a1, c0, c1);
      var y := First(s.chain, m[2 * n - 2], a0, a1);
      var z := Second(y, m[2 * n - 1], c0, c1);
      Sums(z, s.sum + y + z)
  }

  /** The two words of the MAC. */
  function Mac(m: seq<word>, ab0: word, ab1: word, cd0: word, cd1: word): (r: (word, word)) {
    var s := Unreduced(m, |m| / 2, ab0, ab1, cd0, cd1);
    ((s.chain + ab1) % P, (s.sum + cd1) % P)
  }

  // ---------- Arithmetic modulo P ----------

  ghost predicate Congruent(a: nat, b: nat) {
    a % P == b % P
  }

  lemma Quotient(a: nat)
    ensures a == P * (a / P) + a % P
  {
  }

  lemma {:induction false} AddMultiple(a: nat, q: nat)
    ensures (a + P * q) % P == a % P
    decreases q
  {
    if q == 0 {
    } else {
      AddMultiple(a, q - 1);
      assert a + P * q == a + P * (q - 1) + P;
    }
  }

  lemma Reduced(a: nat)
    ensures Congruent(a % P, a)
  {
  }

  lemma SumOfRemainders(a: nat, c: nat)
    ensures (a + c) % P == (a % P + c % P) % P
  {
    Quotient(a);
    Quotient(c);
    AddMultiple(a % P + c % P, a / P + c / P);
  }

  lemma CongruentSum(a: nat, b: nat, c: nat, d: nat)
    requires Congruent(a, b) && Congruent(c, d)
    ensures Congruent(a + c, b + d)
  {
    SumOfRemainders(a, c);
    SumOfRemainders(b, d);
  }

  lemma Expand(q: nat, r: nat, s: nat, t: nat)
    ensures (P * q + r) * (P * s + t) == r * t + P * (q * (P * s + t) + r * s)
  {
  }

  lemma ProductOfRemainders(a: nat, c: nat)
    ensures (a * c) % P == ((a % P) * (c % P)) % P
  {
    var q, r, s, t := a / P, a % P, c / P, c % P;
    Expand(q, r, s, t);
    AddMultiple(r * t, q * (P * s + t) + r * s);
  }

  lemma CongruentProduct(a: nat, b: nat, c: nat, d: nat)
    requires Congruent(a, b) && Congruent(c, d)
    ensures Congruent(a * c, b * d)
  {
    ProductOfRemainders(a, c);
    ProductOfRemainders(b, d);
  }

  lemma ProductBound(a: nat, b: nat, x: nat, y: nat)
    requires a <= x && b <= y
    ensures a * b <= x * y
  {
    assert a * b <= x * b;
    assert x * b <= x * y;
  }

  // ---------- The reduced, 64-bit computation ----------

  /** A uint64_t operation: the exact value modulo 2^64. */
  function U64(x: nat): nat {
    x % TWO64
  }

  /** The first half of a pass, as the statements compute it. */
  function First64(out0: nat, u: word, ab0: word, ab1: word): nat {
    var s := U64(out0 + U64(u * K));
    var t := U64((s % P) * ab0);
    U64(t + ab1) % P
  }

  /** The second half. */
  function Second64(out0: nat, v: word, cd0: word, cd1: word): nat {
    var s := U64(U64(v + out0) * cd0);
    U64((s % P) + cd1) % P
  }

  lemma FitsIn64(x: nat)
    requires x < TWO64
    ensures U64(x) == x
  {
  }

  /** No intermediate value of the first half wraps. */
  lemma FirstFits(out0: nat, u: word, ab0: word, ab1: word)
    requires out0 < P && ab0 < P && ab1 < P
    ensures First64(out0, u, ab0, ab1) == (((out0 + u * K) % P) * ab0 + ab1) % P
  {
    hide U64;
    FitsIn64(u * K);
    FitsIn64(out0 + u * K);
    var r := (out0 + u * K) % P;
    ProductBound(r, ab0, P, P);
    FitsIn64(r * ab0);
    FitsIn64(r * ab0 + ab1);
  }

  /** Nor does any of the second half. */
  lemma SecondFits(out0: nat, v: word, cd0: word, cd1: word)
    requires out0 < P && cd0 < P && cd1 < P
    ensures Second64(out0, v, cd0, cd1) == (Times(v + out0, cd0) % P + cd1) % P
  {
    hide U64;
    FitsIn64(v + out0);
    ProductBound(v + out0, cd0, TWO32 + P, P);
    FitsIn64((v + out0) * cd0);
    FitsIn64(((v + out0) * cd0) % P + cd1);
  }

  lemma FirstExact(x: nat, out0: nat, u: word, ab0: word, ab1: word, a0: nat, a1: nat)
    requires out0 < P && ab0 < P && ab1 < P
    requires Congruent(out0, x) && Congruent(ab0, a0) && Congruent(ab1, a1)
    ensures First64(out0, u, ab0, ab1) < P && Congruent(First64(out0, u, ab0, ab1), First(x, u, a0, a1))
  {
    FirstFits(out0, u, ab0, ab1);
    var s := out0 + u * K;
    FirstCongruent(x, s, u, out0, ab0, a0, ab1, a1);
  }

  lemma FirstCongruent(x: nat, s: nat, u: nat, out0: nat, ab0: nat, a0: nat, ab1: nat, a1: nat)
    requires Congruent(out0, x) && Congruent(ab0, a0) && Congruent(ab1, a1) && s == out0 + u * K
    ensures Congruent(((s % P) * ab0 + ab1) % P, First(x, u, a0, a1))
  {
    var t := K * u;
    assert s == out0 + t;
    Reduced(s);
    Reduced((s % P) * ab0 + ab1);
    Sum3(out0, x, t, s);
    Chained((s % P), x + t, ab0, a0, ab1, a1);
  }

  lemma Sum3(out0: nat, x: nat, t: nat, s: nat)
    requires Congruent(out0, x) && s == out0 + t
    ensures Congruent(s % P, x + t)
  {
    CongruentSum(out0, x, t, t);
    Reduced(s);
  }

  lemma Chained(a: nat, b: nat, c: nat, d: nat, e: nat, f: nat)
    requires Congruent(a, b) && Congruent(c, d) && Congruent(e, f)
    ensures Congruent((a * c + e) % P, b * d + f)
  {
    hide Congruent;
    CongruentProduct(a, b, c, d);
    CongruentSum(a * c, b * d, e, f);
    CongruentTransitive(a * c + e, b * d + f);
  }

  lemma CongruentTransitive(a: nat, b: nat)
    requires Congruent(a, b)
    ensures Congruent(a % P, b)
  {
  }

  lemma SecondExact(x: nat, out0: nat, v: word, cd0: word, cd1: word, c0: nat, c1: nat)
    requires out0 < P && cd0 < P && cd1 < P
    requires Congruent(out0, x) && Congruent(cd0, c0) && Congruent(cd1, c1)
    ensures Second64(out0, v, cd0, cd1) < P && Congruent(Second64(out0, v, cd0, cd1), Second(x, v, c0, c1))
  {
    hide Congruent, Second64, Second, Times;
    SecondFits(out0, v, cd0, cd1);
    SecondIs(x, v, c0, c1);
    SumAndProduct(v, out0, x, cd0, c0);
    ReducedSum(Times(v + out0, cd0), Times(v + x, c0), cd1, c1);
  }

  /** A product under a name, to keep the arithmetic on it linear. */
  function Times(a: nat, b: nat): nat {
    a * b
  }

  lemma SecondIs(x: nat, v: nat, c0: nat, c1: nat)
    ensures Second(x, v, c0, c1) == Times(v + x, c0) + c1
  {
  }

  lemma ReducedSum(p: nat, q: nat, a: nat, b: nat)
    requires Congruent(p, q) && Congruent(a, b)
    ensures (p % P + a) % P < P && Congruent((p % P + a) % P, q + b)
  {
    hide Congruent;
    CongruentTransitive(p, q);
    CongruentSum(p % P, q, a, b);
    CongruentTransitive(p % P + a, q + b);
  }

  lemma SumAndProduct(v: nat, out0: nat, x: nat, cd0: nat, c0: nat)
    requires Congruent(out0, x) && Congruent(cd0, c0)
    ensures Congruent(Times(v + out0, cd0), Times(v + x, c0))
  {
    CongruentSum(v, v, out0, x);
    CongruentProduct(v + out0, v + x, cd0, c0);
  }

  // ---------- The loop ----------

  /** The reduced chain value and the 64-bit sum stand for the unbounded ones after n passes. */
  ghost predicate Tracks(out0: nat, out1: nat, n: nat, s: Sums) {
    out0 < P && out1 <= 2 * P * n && Congruent(out0, s.chain) && Congruent(out1, s.sum)
  }

  lemma SumFits(out1: nat, y: nat, z: nat, n: nat)
    requires out1 <= 2 * P * n && y < P && z < P && 2 * n < TWO32
    ensures U64(U64(out1 + y) + z) == out1 + y + z <= 2 * P * (n + 1)
  {
  }

  /** Every value that a pass computes on the way, without any reduction to 64 bits, fits there. */
  lemma NoWrap(out0: nat, out1: nat, n: nat, u: word, v: word, ab0: word, ab1: word, cd0: word, cd1: word)
    requires out0 < P && out1 <= 2 * P * n && 2 * n < TWO32 && ab0 < P && ab1 < P && cd0 < P && cd1 < P
    ensures u * K < TWO64 && out0 + u * K < TWO64
    ensures var r := (out0 + u * K) % P;
            && Times(r, ab0) < TWO64 && Times(r, ab0) + ab1 < TWO64
            && var y := (Times(r, ab0) + ab1) % P;
               && out1 + y < TWO64 && v + y < TWO64 && Times(v + y, cd0) < TWO64
               && var t := Times(v + y, cd0) % P + cd1;
                  t < TWO64 && out1 + y + t % P < TWO64
  {
    var r := (out0 + u * K) % P;
    ProductBound(r, ab0, P, P);
    var y := (Times(r, ab0) + ab1) % P;
    ProductBound(v + y, cd0, TWO32 + P, P);
  }

  lemma Pass(out0: nat, out1: nat, n: nat, m: seq<word>, ab0: word, ab1: word, cd0: word, cd1: word)
    requires 2 * n + 2 <= |m| && 2 * n < TWO32
    requires Tracks(out0, out1, n, Unreduced(m, n, ab0, ab1, cd0, cd1))
    ensures var y := First64(out0, m[2 * n], ab0 % P, ab1 % P);
            var z := Second64(y, m[2 * n + 1], cd0 % P, cd1 % P);
            Tracks(z, U64(U64(out1 + y) + z), n + 1, Unreduced(m, n + 1, ab0, ab1, cd0, cd1))
  {
    hide Congruent, First64, Second64, First, Second, U64;
    var s := Unreduced(m, n, ab0, ab1, cd0, cd1);
    Reduced(ab0);
    Reduced(ab1);
    Reduced(cd0);
    Reduced(cd1);
    var y := First64(out0, m[2 * n], ab0 % P, ab1 % P);
    var y' := First(s.chain, m[2 * n], ab0, ab1);
    FirstExact(s.chain, out0, m[2 * n], ab0 % P, ab1 % P, ab0, ab1);
    var z := Second64(y, m[2 * n + 1], cd0 % P, cd1 % P);
    var z' := Second(y', m[2 * n + 1], cd0, cd1);
    SecondExact(y', y, m[2 * n + 1], cd0 % P, cd1 % P, cd0, cd1);
    CongruentSum(out1, s.sum, y, y');
    CongruentSum(out1 + y, s.sum + y', z, z');
    SumFits(out1, y, z, n);
  }

  /** The loop of the MAC over the first `dwords` words, in 64-bit arithmetic. */
  method Accumulate(m: seq<word>, dwords: nat, ab0: word, ab1: word, cd0: word, cd1: word) returns (r: (word, word))
    requires dwords < TWO32 && dwords <= |m|
    ensures r == Mac(m[..dwords], ab0, ab1, cd0, cd1)
  {
    hide Unreduced, Congruent, U64, Second, First;
    var out0: nat, out1: nat := 0, 0;
    var a0: nat, a1: nat, c0: nat, c1: nat := ab0 % P, ab1 % P, cd0 % P, cd1 % P;
    ghost var w := m[..dwords];
    NoPass(w, ab0, ab1, cd0, cd1);
    for i := 0 to dwords / 2
      invariant Tracks(out0, out1, i, Unreduced(w, i, ab0, ab1, cd0, cd1))
    {
      Pass(out0, out1, i, w, ab0, ab1, cd0, cd1);
      out0 := U64(out0 + U64(m[2 * i] * K));
      out0 := U64((out0 % P) * a0);
      out0 := U64(out0 + a1);
      out0 := out0 % P;
      out1 := U64(out1 + out0);
      out0 := U64(U64(m[2 * i + 1] + out0) * c0);
      out0 := U64((out0 % P) + c1);
      out0 := out0 % P;
      out1 := U64(out1 + out0);
    }
    ghost var s := Unreduced(w, dwords / 2, ab0, ab1, cd0, cd1);
    Finish(out0, s.chain, ab1);
    Finish(out1, s.sum, cd1);
    r := (U64(out0 + a1) % P, U64(out1 + c1) % P);
  }

  lemma NoPass(m: seq<word>, ab0: word, ab1: word, cd0: word, cd1: word)
    ensures Tracks(0, 0, 0, Unreduced(m, 0, ab0, ab1, cd0, cd1))
  {
  }

  lemma Finish(x: nat, y: nat, a: word)
    requires Congruent(x, y) && x < 0x8000_0000_0000_0000
    ensures U64(x + a % P) % P == (y + a) % P
  {
    FitsIn64(x + a % P);
    Reduced(a);
    CongruentSum(x, y, a % P, a);
  }
}
