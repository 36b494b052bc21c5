/** Fixed-point ratios (vendor/int_ratio/src/lib.rs): `numerator /
    denominator` is kept as `mult / 2^shift`, so multiplying a value by the
    ratio is a multiplication and a shift. */
module IntRatio {

  import opened Common
  import Mm

  const U32_MAX: nat := 0xffff_ffff
  const U64_LIMIT: nat := 0x1_0000_0000_0000_0000

  /** `Ratio`. */
  datatype Ratio = Ratio(numerator: u32, denominator: u32, mult: u32, shift: u32)

  /** `Ratio::zero`: the ratio 0/0. */
  function Zero(): Ratio
  {
    Ratio(0, 0, 0, 0)
  }

  /** `x / d` rounded to nearest, halves up when `d` is even. */
  function Round(x: nat, d: nat): nat
    requires d > 0
  {
    (x + d / 2) / d
  }

  /** The multiplier `new` computes for a shift:
      `((numerator << shift) + denominator / 2) / denominator`. */
  function MultAt(n: nat, d: nat, s: nat): nat
    requires d > 0
  {
    Round(n * Pow2(s), d)
  }

  /** The shift the first loop of `new` stops at: counting down from
      the given one, the first whose multiplier fits in 32 bits, or 0. */
  function StopShift(n: nat, d: nat, s: nat): (r: nat)
    requires d > 0
    ensures r <= s
  {
    if MultAt(n, d, s) <= U32_MAX || s == 0 then s else StopShift(n, d, s - 1)
  }

  /** The second loop of `new`: an even multiplier is halved while the
      shift is positive. */
  function Reduce(m: nat, s: nat): (nat, nat)
  {
    if m % 2 == 0 && s > 0 then Reduce(m / 2, s - 1) else (m, s)
  }

  /** The multiplier and shift `new` gives a non-zero numerator. */
  function Canon(n: nat, d: nat): (nat, nat)
    requires d > 0
  {
    var s := StopShift(n, d, 32);
    Reduce(MultAt(n, d, s), s)
  }

  /** `Ratio::new(numerator, denominator)`; a zero denominator with a
      non-zero numerator panics. */
  function Make(n: u32, d: u32): (r: Ratio)
    requires !(d == 0 && n != 0)
  {
    if n == 0 then Ratio(n, d, 0, 0)
    else
      CanonBounds(n, d);
      var (m, s) := Canon(n, d);
      Ratio(n, d, m, s)
  }

  /** `new`: the first loop lowers the shift from 32 until the multiplier
      fits in 32 bits, the second drops factors of two from it. */
  method New(n: u32, d: u32) returns (r: Ratio)
    requires !(d == 0 && n != 0)
    ensures r == Make(n, d)
  {
    if n == 0 {
      return Ratio(n, d, 0, 0);
    }
    var shift: nat := 32;
    var mult: nat;
    while true
      invariant shift <= 32 && StopShift(n, d, shift) == StopShift(n, d, 32)
      decreases shift
    {
      ShlFits(n, d, shift);
      mult := (n * Pow2(shift) + d / 2) / d;
      if mult <= U32_MAX || shift == 0 {
        break;
      }
      shift := shift - 1;
    }
    assert mult == MultAt(n, d, shift) && shift == StopShift(n, d, 32);
    while mult % 2 == 0 && shift > 0
      invariant Reduce(mult, shift) == Canon(n, d)
      decreases shift
    {
      mult := mult / 2;
      shift := shift - 1;
    }
    CanonBounds(n, d);
    r := Ratio(n, d, mult, shift);
  }

  /** `numerator << shift` and the added half denominator stay within 64
      bits for every shift up to 32. */
  lemma ShlFits(n: u32, d: u32, s: nat)
    requires s <= 32
    ensures n * Pow2(s) + d / 2 < U64_LIMIT
  {
    if s < 32 {
      Mm.Pow2Bound(s, 32);
    }
    Pow2Is32();
    MulLess(n, U32_MAX + 1, Pow2(s));
    assert (U32_MAX + 1) * Pow2(s) <= (U32_MAX + 1) * 0x1_0000_0000;
  }

  lemma Pow2Is32()
    ensures Pow2(32) == 0x1_0000_0000
  {
    assert Pow2(4) == 16;
    Mm.Pow2Add(4, 4);
    assert Pow2(8) == 0x100;
    Mm.Pow2Add(8, 8);
    assert Pow2(16) == 0x1_0000;
    Mm.Pow2Add(16, 16);
  }

  /** `mult` is within half a `denominator` of `numerator * 2^shift`:
      `mult / 2^shift` is `numerator / denominator` to within
      `1 / 2^(shift + 1)`. */
  ghost predicate Close(n: nat, d: nat, m: nat, s: nat)
  {
    CloseTo(n * Pow2(s), d, m)
  }

  ghost predicate CloseTo(x: nat, d: nat, m: nat)
  {
    2 * (m * d) <= 2 * x + d && 2 * x <= 2 * (m * d) + d
  }

  /** The rounded quotient is close. */
  lemma RoundClose(x: nat, d: nat)
    requires d > 0
    ensures CloseTo(x, d, Round(x, d))
  {
    var q := Round(x, d);
    var r := (x + d / 2) % d;
    assert x + d / 2 == q * d + r;
    assert q * d == d * q;
  }

  /** Halving an even multiplier along with the shift keeps it close. */
  lemma HalveClose(x: nat, y: nat, d: nat, m: nat)
    requires x == 2 * y && m % 2 == 0 && CloseTo(x, d, m)
    ensures CloseTo(y, d, m / 2)
  {
    var h := m / 2;
    assert m * d == 2 * (h * d);
  }

  /** The multiplier at shift 0 is at most the numerator. */
  lemma RoundAtMost(n: nat, d: nat)
    requires n >= 1 && d >= 1
    ensures Round(n, d) <= n
  {
    MulAtLeast(d, n);
    assert n * d == d * n;
    if Round(n, d) > n {
      MulLess(n, Round(n, d), d);
    }
  }

  /** The first loop stops with a multiplier that fits in 32 bits. */
  lemma {:induction false} StopShiftFits(n: nat, d: nat, s: nat)
    requires 1 <= n <= U32_MAX && d > 0
    ensures MultAt(n, d, StopShift(n, d, s)) <= U32_MAX
  {
    if MultAt(n, d, s) > U32_MAX {
      if s == 0 {
        RoundAtMost(n, d);
        assert n * Pow2(0) == n;
      } else {
        StopShiftFits(n, d, s - 1);
      }
    }
  }

  /** The second loop keeps the multiplier close and within 32 bits, and
      ends with an odd multiplier or a zero shift. */
  lemma {:induction false} ReduceKeeps(n: nat, d: nat, m: nat, s: nat)
    requires d > 0 && m <= U32_MAX && Close(n, d, m, s)
    ensures Reduce(m, s).0 <= U32_MAX && Reduce(m, s).1 <= s
    ensures Reduce(m, s).1 == 0 || Reduce(m, s).0 % 2 == 1
    ensures Close(n, d, Reduce(m, s).0, Reduce(m, s).1)
  {
    if m % 2 == 0 && s > 0 {
      var p := Pow2(s - 1);
      assert n * Pow2(s) == 2 * (n * p);
      HalveClose(n * Pow2(s), n * p, d, m);
      ReduceKeeps(n, d, m / 2, s - 1);
    }
  }

  /** What `new` guarantees of a non-zero numerator: the multiplier fits
      in 32 bits, the shift is at most 32, the multiplier is odd unless
      the shift is 0, and `mult / 2^shift` is within `1 / 2^(shift + 1)`
      of the ratio. */
  lemma CanonBounds(n: nat, d: nat)
    requires 1 <= n <= U32_MAX && d > 0
    ensures Canon(n, d).0 <= U32_MAX && Canon(n, d).1 <= 32
    ensures Canon(n, d).1 == 0 || Canon(n, d).0 % 2 == 1
    ensures Close(n, d, Canon(n, d).0, Canon(n, d).1)
  {
    var s := StopShift(n, d, 32);
    StopShiftFits(n, d, 32);
    MulNonNeg(n, Pow2(s));
    RoundClose(n * Pow2(s), d);
    ReduceKeeps(n, d, MultAt(n, d, s), s);
  }

  /** `inverse`: the ratio with numerator and denominator swapped; it
      panics on `0/x` with `x` non-zero. */
  method Inverse(r: Ratio) returns (i: Ratio)
    requires !(r.numerator == 0 && r.denominator != 0)
    ensures i == Make(r.denominator, r.numerator)
    ensures i.numerator == r.denominator && i.denominator == r.numerator
  {
    i := New(r.denominator, r.numerator);
  }

  /** `mul_trunc`: `(value * mult) >> shift` in 128 bits, cut to 64. */
  function MulTrunc(r: Ratio, v: u64): u64
  {
    ((v * r.mult) / Pow2(r.shift)) % U64_LIMIT
  }

  /** `mul_round`: as `mul_trunc` but with half of `2^shift` added before
      the shift. */
  function MulRound(r: Ratio, v: u64): u64
  {
    ((v * r.mult + Pow2(r.shift) / 2) / Pow2(r.shift)) % U64_LIMIT
  }

  /** `eq`: only the multiplier and the shift are compared. */
  predicate Eq(a: Ratio, b: Ratio)
  {
    a.mult == b.mult && a.shift == b.shift
  }

  // ---------------------------------------------------------------------
  // Equal fractions

  /** Scaling numerator and denominator by the same factor does not
      change the rounded quotient. */
  lemma RoundScale(x: nat, d: nat, k: nat)
    requires d > 0 && k > 0
    ensures Round(k * x, k * d) == Round(x, d)
  {
    var h := d / 2;
    var q := (x + h) / d;
    var r := (x + h) % d;
    var kd := k * d;
    var e := ScaledHalfExtra(d, k);
    ScaledSum(x, h, q, r, d, k);
    MulBelow(k, r, d);
    DivModUnique(k * x + kd / 2, kd, q, k * r + e);
  }

  /** Half of `k * d` is `k` halves of `d` plus what the odd halves add. */
  lemma ScaledHalfExtra(d: nat, k: nat) returns (e: nat)
    requires k > 0
    ensures (k * d) / 2 == k * (d / 2) + e && e < k
  {
    var h := d / 2;
    if d % 2 == 0 {
      assert d == 2 * h;
      assert k * d == 2 * (k * h);
      e := 0;
    } else {
      assert d == 2 * h + 1;
      assert k * d == 2 * (k * h) + k;
      e := k / 2;
    }
  }

  /** `x + h = q * d + r` scaled by `k`. */
  lemma ScaledSum(x: nat, h: nat, q: nat, r: nat, d: nat, k: nat)
    requires x + h == q * d + r
    ensures k * x + k * h == q * (k * d) + k * r
  {
    assert k * (x + h) == k * (q * d) + k * r;
    assert k * (q * d) == q * (k * d);
  }

  /** Equal fractions have the same multiplier at every shift. */
  lemma MultAtSame(n1: nat, d1: nat, n2: nat, d2: nat, s: nat)
    requires d1 > 0 && d2 > 0 && n1 * d2 == n2 * d1
    ensures MultAt(n1, d1, s) == MultAt(n2, d2, s)
  {
    var p := Pow2(s);
    RoundScale(n1 * p, d1, d2);
    RoundScale(n2 * p, d2, d1);
    CrossScale(n1, d1, n2, d2, p);
  }

  lemma CrossScale(n1: nat, d1: nat, n2: nat, d2: nat, p: nat)
    requires n1 * d2 == n2 * d1
    ensures d2 * (n1 * p) == d1 * (n2 * p) && d2 * d1 == d1 * d2
  {
    calc {
      d2 * (n1 * p);
      (n1 * d2) * p;
      (n2 * d1) * p;
      d1 * (n2 * p);
    }
  }

  lemma {:induction false} StopShiftSame(n1: nat, d1: nat, n2: nat, d2: nat, s: nat)
    requires d1 > 0 && d2 > 0 && n1 * d2 == n2 * d1
    ensures StopShift(n1, d1, s) == StopShift(n2, d2, s)
  {
    MultAtSame(n1, d1, n2, d2, s);
    if s > 0 {
      StopShiftSame(n1, d1, n2, d2, s - 1);
    }
  }

  /** Ratios of equal fractions are equal: `new(1, 2) == new(2, 4)`. */
  lemma EqualFractions(n1: u32, d1: u32, n2: u32, d2: u32)
    requires d1 > 0 && d2 > 0 && n1 * d2 == n2 * d1
    ensures Eq(Make(n1, d1), Make(n2, d2))
  {
    if n1 != 0 {
      assert n2 != 0;
      StopShiftSame(n1, d1, n2, d2, 32);
      MultAtSame(n1, d1, n2, d2, StopShift(n1, d1, 32));
    } else {
      assert n2 * d1 == 0;
    }
  }

  /** Every zero ratio equals `zero()`, the inverse of `zero()` is
      `zero()`, and a zero ratio multiplies every value to 0. */
  lemma ZeroRatios(d: u32, v: u64)
    ensures Eq(Make(0, d), Zero()) && Make(0, 0) == Zero()
    ensures MulTrunc(Make(0, d), v) == 0 && MulRound(Make(0, d), v) == 0
  {
  }

  // ---------------------------------------------------------------------
  // Multiplication

  /** The truncated product, before the cut to 64 bits, is
      `value * numerator / denominator` to within `value / 2^(shift + 1)`
      and rounding: `t <= v n / d + v / 2^(s+1)` and
      `v n / d - v / 2^(s+1) < t + 1`. */
  lemma MulTruncApprox(n: u32, d: u32, v: u64)
    requires n >= 1 && d >= 1
    ensures var r := Make(n, d);
      var p := Pow2(r.shift);
      var t := (v * r.mult) / p;
      && 2 * (t * d) * p <= 2 * (v * n) * p + v * d
      && 2 * (v * n) * p < 2 * ((t + 1) * d) * p + v * d
  {
    var r := Make(n, d);
    MakeClose(n, d);
    TruncApprox(v, n, d, r.mult, r.shift);
  }

  /** The ratio `new` builds for a non-zero numerator keeps both its
      inputs, has a shift of at most 32, an odd multiplier unless the
      shift is 0, and is close to `numerator / denominator`. */
  lemma MakeClose(n: u32, d: u32)
    requires n >= 1 && d >= 1
    ensures Make(n, d).numerator == n && Make(n, d).denominator == d
    ensures Make(n, d).shift <= 32 && (Make(n, d).shift == 0 || Make(n, d).mult % 2 == 1)
    ensures Close(n, d, Make(n, d).mult, Make(n, d).shift)
  {
    CanonBounds(n, d);
  }

  lemma TruncApprox(v: nat, n: nat, d: nat, m: nat, s: nat)
    requires d > 0 && Close(n, d, m, s)
    ensures var p := Pow2(s);
      var t := (v * m) / p;
      && 2 * (t * d) * p <= 2 * (v * n) * p + v * d
      && 2 * (v * n) * p < 2 * ((t + 1) * d) * p + v * d
  {
    var p := Pow2(s);
    var t := (v * m) / p;
    DivBounds(v * m, p);
    TruncBelow(v, n, d, m, p, t);
    TruncAbove(v, n, d, m, p, t);
  }

  lemma TruncBelow(v: nat, n: nat, d: nat, m: nat, p: nat, t: nat)
    requires CloseTo(n * p, d, m) && t * p <= v * m
    ensures 2 * (t * d) * p <= 2 * (v * n) * p + v * d
  {
    var x := n * p;
    MulMono(t * p, v * m, 2 * d);
    SwapScaled(t, p, d);
    Regroup2(v, m, d);
    MulMono(2 * (m * d), 2 * x + d, v);
    ExpandCloseBound(n, p, d, v);
  }

  lemma TruncAbove(v: nat, n: nat, d: nat, m: nat, p: nat, t: nat)
    requires CloseTo(n * p, d, m) && v * m < t * p + p && d > 0
    ensures 2 * (v * n) * p < 2 * ((t + 1) * d) * p + v * d
  {
    var x := n * p;
    MulMono(2 * x, 2 * (m * d) + d, v);
    ExpandScaledProduct(n, p, v);
    ExpandMultBound(m, d, v);
    MulLess(v * m, t * p + p, 2 * d);
    ExpandNextScaled(t, p, d);
  }

  lemma SwapScaled(a: nat, b: nat, c: nat)
    ensures (a * b) * (2 * c) == 2 * (a * c) * b
  {
  }

  lemma Regroup2(a: nat, b: nat, c: nat)
    ensures (a * b) * (2 * c) == a * (2 * (b * c))
  {
  }

  lemma ExpandCloseBound(n: nat, p: nat, d: nat, v: nat)
    ensures (2 * (n * p) + d) * v == 2 * (v * n) * p + v * d
  {
  }

  lemma ExpandScaledProduct(n: nat, p: nat, v: nat)
    ensures 2 * (n * p) * v == 2 * (v * n) * p
  {
  }

  lemma ExpandMultBound(m: nat, d: nat, v: nat)
    ensures (2 * (m * d) + d) * v == 2 * d * (v * m) + v * d
  {
  }

  lemma ExpandNextScaled(t: nat, p: nat, d: nat)
    ensures (t * p + p) * (2 * d) == 2 * ((t + 1) * d) * p
  {
  }

  /** A ratio of at most one never enlarges a value, so the cut to 64
      bits loses nothing. */
  lemma MulTruncAtMostOne(n: u32, d: u32, v: u64)
    requires 1 <= n <= d
    ensures MulTrunc(Make(n, d), v) <= v
    ensures MulTrunc(Make(n, d), v) == (v * Make(n, d).mult) / Pow2(Make(n, d).shift)
  {
    var r := Make(n, d);
    MakeClose(n, d);
    CloseAtMostShift(v, n, d, r.mult, r.shift);
  }

  lemma CloseAtMostShift(v: nat, n: nat, d: nat, m: nat, s: nat)
    requires 1 <= n <= d && Close(n, d, m, s) && v < U64_LIMIT
    ensures (v * m) / Pow2(s) <= v
    ensures ((v * m) / Pow2(s)) % U64_LIMIT == (v * m) / Pow2(s)
  {
    var p := Pow2(s);
    MultAtMostShift(n, d, m, p);
    ShiftAtMost(v, m, p);
    var q := (v * m) / p;
    Mm.ModSmall(q, U64_LIMIT);
  }

  /** A multiplier of at most `2^shift` does not enlarge a value. */
  lemma ShiftAtMost(v: nat, m: nat, p: nat)
    requires m <= p && p > 0
    ensures 0 <= (v * m) / p <= v
  {
    MulMono(m, p, v);
    assert m * v == v * m && p * v == v * p;
    DivModUnique(v * p, p, v, 0);
    DivMono(v * m, v * p, p);
  }

  /** A multiplier close to a ratio of at most one is at most `2^shift`. */
  lemma MultAtMostShift(n: nat, d: nat, m: nat, p: nat)
    requires 1 <= n <= d && p >= 1 && CloseTo(n * p, d, m)
    ensures m <= p
  {
    MulMono(n, d, p);
    assert n * p <= d * p;
    if m > p {
      MulLess(p, m, d);
    }
  }

  /** `mul_round` is `mul_trunc` or one more, and one more exactly when
      the bits shifted out are at least half of `2^shift`. */
  lemma MulRoundTrunc(r: Ratio, v: u64)
    requires (v * r.mult + Pow2(r.shift) / 2) / Pow2(r.shift) < U64_LIMIT
    ensures var p := Pow2(r.shift);
      && MulTrunc(r, v) <= MulRound(r, v) <= MulTrunc(r, v) + 1
      && (MulRound(r, v) == MulTrunc(r, v) + 1 <==> (v * r.mult) % p >= p - p / 2)
  {
    var p := Pow2(r.shift);
    MulNonNeg(v, r.mult);
    var x: nat := v * r.mult;
    var lo, hi := RoundUpByOne(x, p);
    Mm.ModSmall(hi, U64_LIMIT);
    Mm.ModSmall(lo, U64_LIMIT);
  }

  /** Adding half the divisor raises the quotient by at most one, and by
      one exactly when the remainder is at least the other half. */
  lemma RoundUpByOne(x: nat, p: nat) returns (lo: nat, hi: nat)
    requires p > 0
    ensures lo == x / p && hi == (x + p / 2) / p
    ensures x / p <= (x + p / 2) / p <= x / p + 1
    ensures (x + p / 2) / p == x / p + 1 <==> x % p >= p - p / 2
  {
    var q, rem := x / p, x % p;
    lo, hi := q, (x + p / 2) / p;
    if rem >= p - p / 2 {
      DivModUnique(x + p / 2, p, q + 1, rem + p / 2 - p);
    } else {
      DivModUnique(x + p / 2, p, q, rem + p / 2);
    }
  }

  /** `new(625000, 1000000)` has multiplier 5 and shift 3, and multiplies
      800 to 500. */
  lemma FiveEighths()
    ensures Make(625000, 1000000).mult == 5 && Make(625000, 1000000).shift == 3
    ensures MulTrunc(Make(625000, 1000000), 800) == 500
  {
    Pow2Is32();
    assert MultAt(625000, 1000000, 32) == 5 * Pow2(29) by {
      Mm.Pow2Add(29, 3);
      assert Pow2(3) == 8;
    }
    assert StopShift(625000, 1000000, 32) == 32;
    ReducePow2(5, 29, 3);
    var r := Make(625000, 1000000);
    assert r.mult == 5 && r.shift == 3;
    assert Pow2(3) == 8;
    DivModUnique(800 * 5, 8, 500, 0);
    Mm.ModSmall(500, U64_LIMIT);
  }

  /** An odd multiplier times `2^k` reduces to the odd multiplier. */
  lemma {:induction false} ReducePow2(m: nat, k: nat, s: nat)
    requires m % 2 == 1
    ensures Reduce(m * Pow2(k), s + k) == Reduce(m, s)
  {
    if k > 0 {
      var p := Pow2(k - 1);
      MulNonNeg(m, p);
      DoubleRight(m, p);
      HalfOfDouble(m * p);
      ReducePow2(m, k - 1, s);
    } else {
      assert m * Pow2(0) == m;
    }
  }

  lemma DoubleRight(m: nat, p: nat)
    ensures m * (2 * p) == 2 * (m * p)
  {
  }

  lemma HalfOfDouble(x: nat)
    ensures (2 * x) % 2 == 0 && (2 * x) / 2 == x
  {
  }
}
