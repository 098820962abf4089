/** Sixteen-bit fixed-point arctangent: exact symmetries over all inputs, and how far the
    rounded polynomial is from the exact one.
  */
module FxptMath {
  type s16 = x: int | -32768 <= x < 32768
  type u16 = x: nat | x < 65536

  /** Conversions to the 16-bit types keep the low 16 bits. */
  function ToS16(v: int): s16 {
    (v + 32768) % 65536 - 32768
  }

  function ToU16(v: int): u16 {
    v % 65536
  }

  // ---------- Q15 arithmetic ----------

  /** The negative absolute value. */
  function NegAbs(j: s16): s16 {
    if j < 0 then j else -j
  }

  /** The code's form of it: xor with the complement of the splatted sign, and subtract that. */
  function NegAbsBits(j: bv16): bv16 {
    var negSign: bv16 := if j >= 0x8000 then 0 else 0xFFFF;
    (j ^ negSign) - negSign
  }

  lemma NegAbsBitsNegates(j: bv16)
    ensures j >= 0x8000 ==> NegAbsBits(j) == j
    ensures j < 0x8000 ==> NegAbsBits(j) + j == 0
  {
  }

  /** To the nearest multiple of 32768; an exact half is rounded down. */
  function Rounded(p: int): int {
    (p + if p % 32768 == 0x4000 then 0 else 0x4000) / 32768
  }

  function Mul(j: s16, k: s16): s16 {
    ToS16(Rounded(j * k))
  }

  /** Division that truncates toward zero. */
  function Quotient(n: int, d: int): int
    requires d != 0
  {
    if (n < 0) == (d < 0) then Abs(n) / Abs(d) else -(Abs(n) / Abs(d))
  }

  function Abs(n: int): nat {
    if n < 0 then -n else n
  }

  function Div(n: s16, d: s16): s16
    requires d != 0
  {
    ToS16(Quotient(32768 * n, d))
  }

  // ---------- The arctangent ----------

  /** 0.273 / pi, and a quarter more, in Q15. */
  const K: s16 := 2847
  const QUARTER_AND_K: s16 := 11039

  function Factor(q: s16): int {
    QUARTER_AND_K + Mul(K, NegAbs(q))
  }

  function Unrotated(q: s16): s16 {
    Mul(ToS16(Factor(q)), q)
  }

  function Atan2(y: s16, x: s16): u16 {
    if x == y then (if y > 0 then 8192 else if y < 0 then 40960 else 0)
    else if NegAbs(x) < NegAbs(y) then
      var unrotated := Unrotated(Div(y, x));
      if x > 0 then ToU16(unrotated) else ToU16(32768 + unrotated)
    else
      var unrotated := Unrotated(Div(x, y));
      if y > 0 then ToU16(16384 - unrotated) else ToU16(49152 - unrotated)
  }

  // ---------- Ranges ----------

  lemma RatioBound(n: nat, d: nat)
    requires n <= d && d > 0
    ensures 32768 * n / d <= 32768
    ensures n < d ==> 32768 * n / d < 32768
  {
    var r := 32768 * n / d;
    assert r * d <= 32768 * n;
    if r >= 32768 {
      Scale(32768, r, d);
    }
  }

  lemma Scale(a: int, b: int, k: nat)
    requires a <= b
    ensures a * k <= b * k
  {
  }

  /** The size of the quotient, in units of 1 / 32768. */
  function Ratio(n: s16, d: s16): nat
    requires d != 0
  {
    32768 * Abs(n) / Abs(d)
  }

  function Signed(positive: bool, r: int): int {
    if positive then r else -r
  }

  lemma QuotientIsRatio(n: s16, d: s16)
    requires d != 0
    ensures Quotient(32768 * n, d) == Signed((n < 0) == (d < 0), Ratio(n, d))
  {
    assert Abs(32768 * n) == 32768 * Abs(n);
  }

  lemma RatioFits(n: s16, d: s16)
    requires d != 0 && Abs(n) <= Abs(d)
    ensures Ratio(n, d) <= 32768 && (Abs(n) < Abs(d) ==> Ratio(n, d) < 32768) && (n == 0 ==> Ratio(n, d) == 0)
  {
    RatioBound(Abs(n), Abs(d));
  }

  /** The quotient of the smaller by the larger coordinate fits, and has the sign of their ratio. */
  lemma DivFits(n: s16, d: s16)
    requires d != 0 && n != d && Abs(n) <= Abs(d)
    ensures Div(n, d) == Signed((n < 0) == (d < 0), Ratio(n, d))
  {
    hide Ratio, Quotient;
    QuotientIsRatio(n, d);
    RatioFits(n, d);
  }

  lemma MulRounds(j: s16, k: s16)
    requires Abs(j) <= 32767
    ensures 32768 * Mul(j, k) - 0x4000 <= j * k <= 32768 * Mul(j, k) + 0x4000
  {
    ProductFits(j, k);
    RoundedNear(j * k);
  }

  /** Such a product is rounded without wrapping. */
  lemma MulIsRounded(j: s16, k: s16)
    requires Abs(j) <= 32767
    ensures Mul(j, k) == Rounded(j * k)
  {
    ProductFits(j, k);
    RoundedNear(j * k);
  }

  lemma RoundedNear(p: int)
    ensures 32768 * Rounded(p) - 0x4000 <= p <= 32768 * Rounded(p) + 0x4000
  {
  }

  /** Multiplication rounds to the nearest, and a half down: that leaves one value. */
  lemma MulExactly(j: s16, k: s16, r: s16)
    requires Abs(j) <= 32767
    ensures Mul(j, k) == r <==> 32768 * r - 0x4000 < j * k <= 32768 * r + 0x4000
  {
    MulIsRounded(j, k);
    RoundedExactly(j * k, r);
  }

  lemma RoundedExactly(p: int, r: int)
    ensures Rounded(p) == r <==> 32768 * r - 0x4000 < p <= 32768 * r + 0x4000
  {
  }

  lemma ProductFits(j: s16, k: s16)
    requires Abs(j) <= 32767
    ensures -32767 * 32768 <= j * k <= 32767 * 32768
  {
    if k >= 0 {
      Scale(-32767, j, k);
      Scale(j, 32767, k);
    } else {
      var m := Abs(k);
      Scale(-32767, j, m);
      Scale(j, 32767, m);
      assert j * m == -(j * k);
    }
  }

  // ---------- The rounded polynomial ----------

  /** The rounded factor times 32768 is within half a unit of the exact one. */
  lemma FactorRounds(q: s16)
    ensures var f, e := Factor(q), 32768 * QUARTER_AND_K - K * Abs(q);
            8192 <= f <= QUARTER_AND_K && e - 0x4000 <= 32768 * f <= e + 0x4000
  {
    MulRounds(K, NegAbs(q));
  }

  /** The two roundings, of the correction c and of the product, leave one value. */
  lemma UnrotatedExactly(q: s16, c: s16, u: s16)
    requires 32768 * c - 0x4000 < -2847 * Abs(q) <= 32768 * c + 0x4000
    requires 32768 * u - 0x4000 < (11039 + c) * q <= 32768 * u + 0x4000
    ensures Unrotated(q) == u
  {
    hide Mul;
    MulExactly(K, NegAbs(q), c);
    FactorRounds(q);
    MulExactly(Factor(q), q, u);
  }

  lemma Growing(a: nat)
    requires a <= 32767
    ensures (361742336 - 2847 * a) * a <= 268454687 * 32767
  {
    var gap := (32767 - a) * (361742336 - 2847 * (a + 32767));
    assert gap >= 0;
    assert gap == 268454687 * 32767 - (361742336 - 2847 * a) * a;
  }

  /** The largest product is below eight thousand one hundred and ninety-two and a half units. */
  lemma ProductBound(f: nat, a: nat)
    requires a <= 32768 && 32768 * f <= 361742336 - 2847 * a && (a == 32768 ==> f <= 8192)
    ensures f * a < 8192 * 32768 + 0x4000
  {
    if a <= 32767 {
      Growing(a);
      Scale(32768 * f, 361742336 - 2847 * a, a);
      assert 32768 * f * a == 32768 * (f * a);
    } else {
      Scale(f, 8192, a);
    }
  }

  lemma MulByLeast(f: s16)
    requires f > -32768
    ensures Mul(f, -32768) == -f
  {
    assert f * -32768 == 32768 * -f;
  }

  lemma FactorAtOne()
    ensures Factor(-32768) == 8192 && Unrotated(-32768) == -8192
  {
    hide Mul;
    MulByLeast(K);
    MulByLeast(8192);
  }

  /** The product of the factor and the ratio fits, so that the rounding is what it says. */
  lemma UnrotatedRounds(q: s16)
    ensures var f, u := Factor(q), Unrotated(q);
            32768 * u - 0x4000 <= f * q <= 32768 * u + 0x4000
  {
    hide Factor, Mul;
    FactorRounds(q);
    MulRounds(Factor(q), q);
  }

  /** An eighth of a turn at most, on the side of the ratio's sign. */
  lemma UnrotatedSector(q: s16)
    ensures q >= 0 ==> 0 <= Unrotated(q) <= 8192
    ensures q <= 0 ==> -8192 <= Unrotated(q) <= 0
  {
    hide Factor, Mul, Rounded;
    FactorRounds(q);
    FactorAtOne();
    var f, a := Factor(q), Abs(q);
    ProductBound(f, a);
    MulIsRounded(f, q);
    assert f * a >= 0;
    if q < 0 {
      assert f * q == -(f * a);
    }
    HalfDown(f * q);
  }

  lemma HalfDown(p: int)
    ensures 0 <= p < 8192 * 32768 + 0x4000 ==> 0 <= Rounded(p) <= 8192
    ensures -8192 * 32768 - 0x4000 < p <= 0 ==> -8192 <= Rounded(p) <= 0
  {
  }

  /** The rounded polynomial is within one unit of the exact one at the same ratio: both sides
      are 2^30 times the angle.
    */
  lemma PolynomialError(q: s16)
    ensures var exact := (32768 * QUARTER_AND_K - K * Abs(q)) * q;
            -0x4000_0000 <= 0x4000_0000 * Unrotated(q) - exact <= 0x4000_0000
  {
    hide Factor, Unrotated;
    FactorRounds(q);
    UnrotatedRounds(q);
    var e, f, a := 32768 * QUARTER_AND_K - K * Abs(q), 32768 * Factor(q), Abs(q);
    Scale(e - 0x4000, f, a);
    Scale(f, e + 0x4000, a);
    assert (e - 0x4000) * a == e * a - 0x4000 * a && (e + 0x4000) * a == e * a + 0x4000 * a;
    assert f * a == 32768 * (Factor(q) * a);
    if q < 0 {
      assert e * q == -(e * a) && Factor(q) * q == -(Factor(q) * a);
    }
  }

  // ---------- Symmetries ----------

  /** The ratio of the smaller to the larger coordinate is the same when both are negated. */
  lemma DivOfNegated(n: s16, d: s16)
    requires d != 0 && n != -32768 && d != -32768 && n != d && Abs(n) <= Abs(d)
    ensures Div(-n, -d) == Div(n, d)
  {
    hide Div, Ratio;
    DivFits(n, d);
    DivFits(-n, -d);
    RatioFits(n, d);
    assert Ratio(-n, -d) == Ratio(n, d) by {
      RatioOfNegated(n, d);
    }
  }

  lemma RatioOfNegated(n: s16, d: s16)
    requires d != 0 && n != -32768 && d != -32768
    ensures Ratio(-n, -d) == Ratio(n, d)
  {
    assert Abs(-n) == Abs(n) && Abs(-d) == Abs(d);
  }

  /** Opposite coordinates of the same size have the ratio -1. */
  lemma DivOfOpposite(n: s16, d: s16)
    requires d != 0 && n + d == 0
    ensures Div(n, d) == -32768
  {
    hide Div, Ratio;
    DivFits(n, d);
    RatioOfEqual(n, d);
  }

  lemma RatioOfEqual(n: s16, d: s16)
    requires d != 0 && Abs(n) == Abs(d)
    ensures Ratio(n, d) == 32768
  {
    RatioFits(n, d);
    var b, r := Abs(d), Ratio(n, d);
    assert 32768 * b < (r + 1) * b;
    if r < 32768 {
      Scale(r + 1, 32768, b);
    }
  }

  /** Exchanging the coordinates reflects the angle in the diagonal, for all inputs but the origin. */
  lemma Reflection(y: s16, x: s16)
    ensures (Atan2(y, x) + Atan2(x, y)) % 65536 == 16384 <==> !(x == 0 && y == 0)
  {
    hide Div, Unrotated;
    if x != y {
      if NegAbs(x) < NegAbs(y) {
        Complement(y, x, Unrotated(Div(y, x)));
      } else if NegAbs(y) < NegAbs(x) {
        Complement(x, y, Unrotated(Div(x, y)));
      } else {
        DivOfOpposite(x, y);
        DivOfOpposite(y, x);
        FactorAtOne();
      }
    }
  }

  lemma Complement(n: s16, d: s16, u: s16)
    requires d != 0
    ensures d > 0 ==> (ToU16(u) + ToU16(16384 - u)) % 65536 == 16384
    ensures d < 0 ==> (ToU16(32768 + u) + ToU16(49152 - u)) % 65536 == 16384
  {
  }

  /** Negating both coordinates adds half a turn, for all inputs but the origin. */
  lemma HalfTurn(y: s16, x: s16)
    requires y != -32768 && x != -32768
    ensures Atan2(-y, -x) == (Atan2(y, x) + 32768) % 65536 <==> !(x == 0 && y == 0)
  {
    hide Div, Unrotated, ToU16;
    if x != y {
      if NegAbs(x) < NegAbs(y) {
        DivOfNegated(y, x);
        Turned(Unrotated(Div(y, x)));
      } else {
        DivOfNegated(x, y);
        Turned(Unrotated(Div(x, y)));
      }
    }
  }

  lemma Turned(u: s16)
    ensures ToU16(32768 + u) == (ToU16(u) + 32768) % 65536 && ToU16(u) == (ToU16(32768 + u) + 32768) % 65536
    ensures ToU16(49152 - u) == (ToU16(16384 - u) + 32768) % 65536
    ensures ToU16(16384 - u) == (ToU16(49152 - u) + 32768) % 65536
  {
  }

  /** The angle t lies in the closed octant of the point. */
  predicate InOctant(y: int, x: int, t: int) {
    && (0 <= y <= x ==> t <= 8192)
    && (0 <= x <= y ==> 8192 <= t <= 16384)
    && (0 <= -x <= y ==> 16384 <= t <= 24576)
    && (0 <= y <= -x ==> 24576 <= t <= 32768)
    && (0 <= -y <= -x ==> 32768 <= t <= 40960)
    && (0 <= -x <= -y ==> 40960 <= t <= 49152)
    && (0 <= x <= -y ==> 49152 <= t <= 57344)
    && (0 <= -y <= x ==> 57344 <= t || t == 0)
  }

  lemma Octant(y: s16, x: s16)
    requires !(x == 0 && y == 0)
    ensures InOctant(y, x, Atan2(y, x))
  {
    hide Div, Unrotated, Ratio;
    if x != y {
      if NegAbs(x) < NegAbs(y) {
        DivFits(y, x);
        RatioFits(y, x);
        UnrotatedSector(Div(y, x));
      } else {
        DivFits(x, y);
        RatioFits(x, y);
        UnrotatedSector(Div(x, y));
        if NegAbs(x) == NegAbs(y) {
          DivOfOpposite(x, y);
          FactorAtOne();
        }
      }
    }
  }

  // ---------- Accuracy ----------

  function RealAbs(r: real): real {
    if r < 0.0 then -r else r
  }

  /** The polynomial that approximates the arctangent, in units of 1 / 65536 of a turn. */
  function P(r: real): real {
    (11039.0 - 2847.0 * RealAbs(r)) * r
  }

  /** Close ratios of the same sign have close polynomials. */
  lemma PIsSteady(r: real, s: real, gap: real)
    requires -1.0 <= r <= 1.0 && -1.0 <= s <= 1.0 && ((r >= 0.0 && s >= 0.0) || (r <= 0.0 && s <= 0.0))
    requires RealAbs(r - s) <= gap
    ensures RealAbs(P(r) - P(s)) <= 11039.0 * gap
  {
    var slope := 11039.0 - 2847.0 * (RealAbs(r) + RealAbs(s));
    assert 0.0 <= slope <= 11039.0;
    if r >= 0.0 && s >= 0.0 {
      Difference(r, s, 2847.0);
    } else {
      Difference(r, s, -2847.0);
    }
    SlopeBound(slope, r - s, gap, P(r) - P(s));
  }

  lemma Difference(r: real, s: real, k: real)
    ensures (11039.0 - k * r) * r - (11039.0 - k * s) * s == (11039.0 - k * (r + s)) * (r - s)
  {
    assert (r + s) * (r - s) == r * r - s * s;
    assert (k * (r + s)) * (r - s) == k * ((r + s) * (r - s));
    assert (k * r) * r == k * (r * r) && (k * s) * s == k * (s * s);
  }

  lemma SlopeBound(slope: real, d: real, gap: real, x: real)
    requires 0.0 <= slope <= 11039.0 && RealAbs(d) <= gap && x == slope * d
    ensures RealAbs(x) <= 11039.0 * gap
  {
    var m := RealAbs(d);
    NonNegative(11039.0 - slope, m);
    NonNegative(slope, m);
    assert (11039.0 - slope) * m == 11039.0 * m - slope * m;
    if d < 0.0 {
      assert slope * d == -(slope * m);
    }
  }

  lemma NonNegative(x: real, y: real)
    requires y >= 0.0
    ensures x >= 0.0 ==> x * y >= 0.0
    ensures y > 0.0 && x * y >= 0.0 ==> x >= 0.0
  {
  }

  lemma Divided(a: real, b: real)
    requires b > 0.0
    ensures (a / b) * b == a
  {
  }

  lemma Between(a: real, b: real, q: real)
    requires b > 0.0 && q * b <= 32768.0 * a <= (q + 1.0) * b && 0.0 <= a <= b
    ensures 0.0 <= a / b <= 1.0 && q <= 32768.0 * (a / b) <= q + 1.0
  {
    var r := a / b;
    Divided(a, b);
    NonNegative(r, b);
    assert (1.0 - r) * b == b - a;
    NonNegative(1.0 - r, b);
    assert (32768.0 * r - q) * b == 32768.0 * a - q * b;
    NonNegative(32768.0 * r - q, b);
    assert (q + 1.0 - 32768.0 * r) * b == (q + 1.0) * b - 32768.0 * a;
    NonNegative(q + 1.0 - 32768.0 * r, b);
  }

  /** The Q15 quotient is within one unit of the ratio. */
  lemma DivIsClose(n: s16, d: s16)
    requires d != 0 && n != d && Abs(n) <= Abs(d)
    ensures var r, s := n as real / d as real, Div(n, d) as real / 32768.0;
            && -1.0 <= r <= 1.0 && -1.0 <= s <= 1.0 && ((r >= 0.0 && s >= 0.0) || (r <= 0.0 && s <= 0.0))
            && RealAbs(r - s) <= 1.0 / 32768.0
  {
    hide Div, Ratio;
    DivFits(n, d);
    RatioFits(n, d);
    RatioIsClose(n, d);
    var a, b := Abs(n) as real, Abs(d) as real;
    SignsOut(a, b);
    assert n as real == (if n < 0 then -a else a) && d as real == (if d < 0 then -b else b);
  }

  lemma SignsOut(x: real, y: real)
    requires y != 0.0
    ensures (-x) / y == -(x / y) && x / (-y) == -(x / y) && (-x) / (-y) == x / y
  {
    QuotientIs(-x, y, -(x / y));
    QuotientIs(x, -y, -(x / y));
    QuotientIs(-x, -y, x / y);
  }

  lemma QuotientIs(x: real, y: real, q: real)
    requires y != 0.0 && q * y == x
    ensures x / y == q
  {
  }

  lemma RatioIsClose(n: s16, d: s16)
    requires d != 0 && Abs(n) <= Abs(d)
    ensures var r, s := Abs(n) as real / Abs(d) as real, Ratio(n, d) as real / 32768.0;
            0.0 <= s <= r <= 1.0 && r - s <= 1.0 / 32768.0
  {
    var a, b, q := Abs(n), Abs(d), Ratio(n, d);
    RatioEncloses(n, d);
    hide Ratio, Abs;
    ProductAsReal(q, b);
    ProductAsReal(q + 1, b);
    Between(a as real, b as real, q as real);
  }

  lemma RatioEncloses(n: s16, d: s16)
    requires d != 0
    ensures Ratio(n, d) * Abs(d) <= 32768 * Abs(n) <= (Ratio(n, d) + 1) * Abs(d)
  {
  }

  lemma ProductAsReal(x: int, y: int)
    ensures (x * y) as real == x as real * y as real
  {
  }

  /** The angle from the nearer axis is within 1.34 units of the polynomial of the true ratio. */
  lemma Accuracy(n: s16, d: s16)
    requires d != 0 && n != d && Abs(n) <= Abs(d)
    ensures RealAbs(Unrotated(Div(n, d)) as real - P(n as real / d as real)) < 1.34
  {
    hide Div, Unrotated;
    var q := Div(n, d);
    var r, s := n as real / d as real, q as real / 32768.0;
    DivIsClose(n, d);
    PIsSteady(r, s, 1.0 / 32768.0);
    PolynomialError(q);
    AtQ15(q);
  }

  lemma AtQ15(q: s16)
    ensures P(q as real / 32768.0) * 1073741824.0 == ((32768 * QUARTER_AND_K - K * Abs(q)) * q) as real
  {
    var s, a := q as real / 32768.0, Abs(q);
    assert RealAbs(s) == a as real / 32768.0;
    var e := 32768 * QUARTER_AND_K - K * a;
    assert 32768.0 * (11039.0 - 2847.0 * RealAbs(s)) == e as real;
    assert (e * q) as real == e as real * q as real;
  }

  /** The half axis nearest to the point, as an angle. */
  function Axis(y: s16, x: s16): u16 {
    if NegAbs(x) < NegAbs(y) then (if x > 0 then 0 else 32768) else if y > 0 then 16384 else 49152
  }

  /** How far the angle is from the axis, toward the other coordinate's positive side. */
  function FromAxis(y: s16, x: s16): s16 {
    if NegAbs(x) < NegAbs(y) then ToS16(Atan2(y, x) - Axis(y, x)) else ToS16(Axis(y, x) - Atan2(y, x))
  }

  /** The ratio of the smaller to the larger coordinate. */
  function TrueRatio(y: s16, x: s16): real
    requires !(x == 0 && y == 0)
  {
    if NegAbs(x) < NegAbs(y) then y as real / x as real else x as real / y as real
  }

  /** For every point but the origin, the arctangent is within 1.34 units of the polynomial of
      the true ratio, counted from the nearest axis.
    */
  lemma Atan2Accuracy(y: s16, x: s16)
    requires !(x == 0 && y == 0)
    ensures RealAbs(FromAxis(y, x) as real - P(TrueRatio(y, x))) < 1.34
  {
    hide Div, Unrotated, P, FromAxis;
    FromAxisIs(y, x);
    if x == y {
      OnDiagonal(x);
    } else if NegAbs(x) < NegAbs(y) {
      Accuracy(y, x);
    } else {
      Accuracy(x, y);
    }
  }

  lemma FromAxisIs(y: s16, x: s16)
    requires !(x == 0 && y == 0)
    ensures x == y ==> FromAxis(y, x) == 8192
    ensures x != y && NegAbs(x) < NegAbs(y) ==> FromAxis(y, x) == Unrotated(Div(y, x))
    ensures x != y && NegAbs(x) >= NegAbs(y) ==> FromAxis(y, x) == Unrotated(Div(x, y))
  {
    hide Div, Unrotated, ToS16, ToU16;
    if x == y {
      OnTheDiagonal();
    } else if NegAbs(x) < NegAbs(y) {
      AxisAdded(Unrotated(Div(y, x)));
    } else {
      AxisAdded(Unrotated(Div(x, y)));
    }
  }

  lemma OnTheDiagonal()
    ensures ToS16(8192) == 8192
  {
  }

  lemma AxisAdded(u: s16)
    ensures ToS16(ToU16(u) - 0) == u && ToS16(ToU16(32768 + u) - 32768) == u
    ensures ToS16(16384 - ToU16(16384 - u)) == u && ToS16(49152 - ToU16(49152 - u)) == u
  {
  }

  lemma OnDiagonal(x: s16)
    requires x != 0
    ensures x as real / x as real == 1.0 && P(1.0) == 8192.0
  {
    QuotientIs(x as real, x as real, 1.0);
  }
}
