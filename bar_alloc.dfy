/** The PCI BAR allocator (ostd/src/bus/pci/bar_alloc.rs): windows of CPU
    physical address space taken from the device tree's `ranges`, and a
    first-fit allocation of power-of-two sized, naturally aligned blocks in
    them.

    The source computes with 64-bit unsigned integers and bit tricks.  Here
    a `u64` is a natural below 2^64, a sum or difference that can leave
    that range is wrapped explicitly (a build without overflow checks;
    with them the same inputs panic), and the bitwise OR the tricks rely on
    is `Or`, defined bit by bit. */
module BarAlloc {

  import opened Common
  import opened Mm

  const U64_LIMIT: nat := 0x1_0000_0000_0000_0000
  const U64_MAX: nat := 0xFFFF_FFFF_FFFF_FFFF

  /** 2^63, the largest power of two a `u64` holds. */
  const POW63: nat := 0x8000_0000_0000_0000

  // ---------------------------------------------------------------------
  // Bitwise OR and shifts on naturals

  /** `a | b`, bit by bit from the lowest. */
  function Or(a: nat, b: nat): nat
    decreases a + b
  {
    if a == 0 then b
    else if b == 0 then a
    else 2 * Or(a / 2, b / 2) + (if a % 2 == 1 || b % 2 == 1 then 1 else 0)
  }

  /** `y >> n`: `n` halvings. */
  function Shr(y: nat, n: nat): nat
  {
    if n == 0 then y else Shr(y / 2, n - 1)
  }

  /** `v - 1` on a `u64`: zero wraps to the largest value. */
  function WrapDec(v: u64): u64
  {
    if v == 0 then U64_MAX else v - 1
  }

  /** `v + 1` on a `u64`: the largest value wraps to zero. */
  function WrapInc(v: u64): u64
  {
    if v == U64_MAX then 0 else v + 1
  }

  /** `a + b` on `u64`s, wrapping at 2^64. */
  function WrapAdd(a: u64, b: u64): u64
  {
    (a + b) % U64_LIMIT
  }

  lemma Pow2Lt64(k: nat)
    requires k < 64
    ensures Pow2(k) < U64_LIMIT
  {
    Pow2Bound(k, 64);
    Pow2Word();
  }

  lemma Pow2Is63()
    ensures Pow2(63) == POW63
  {
    Pow2Word();
    assert Pow2(64) == 2 * Pow2(63);
  }

  lemma Pow2Monotone(a: nat, b: nat)
    requires a <= b
    ensures Pow2(a) <= Pow2(b)
  {
    if a < b {
      Pow2Bound(a, b);
    }
  }

  /** A shift by `d` is a halving, then a shift by `d - 1`. */
  lemma ShrStep(x: nat, d: nat)
    requires d > 0
    ensures Shr(x, d) == Shr(x / 2, d - 1)
  {
  }

  /** A shift by `n` divides by `2^n`. */
  lemma {:induction false} ShrDiv(x: nat, n: nat)
    ensures Shr(x, n) == x / Pow2(n)
  {
    if n > 0 {
      ShrDiv(x / 2, n - 1);
      NestedDiv(x, 2, Pow2(n - 1));
    }
  }

  /** Two shifts are one by the sum. */
  lemma {:induction false} ShrShr(x: nat, a: nat, b: nat)
    ensures Shr(Shr(x, a), b) == Shr(x, a + b)
  {
    if a > 0 {
      ShrShr(x / 2, a - 1, b);
    }
  }

  lemma {:induction false} ShrAtMost(x: nat, n: nat)
    ensures Shr(x, n) <= x
  {
    if n > 0 {
      ShrAtMost(x / 2, n - 1);
    }
  }

  /** Shifting out every bit leaves zero. */
  lemma {:induction false} ShrBelow(x: nat, n: nat)
    requires x < Pow2(n)
    ensures Shr(x, n) == 0
  {
    if n > 0 {
      ShrBelow(x / 2, n - 1);
    }
  }

  /** `(P - 1) * Q + Q - 1` is `P * Q - 1`. */
  lemma MaskTimes(p: nat, q: nat)
    requires p >= 1
    ensures (p - 1) * q + q - 1 == p * q - 1
  {
    assert (p - 1) * q == p * q - q;
  }

  /** Halving an OR halves both sides. */
  lemma OrHalf(a: nat, b: nat)
    ensures Or(a, b) / 2 == Or(a / 2, b / 2)
  {
  }

  /** Shifting an OR shifts both sides. */
  lemma {:induction false} OrShr(a: nat, b: nat, d: nat)
    ensures Shr(Or(a, b), d) == Or(Shr(a, d), Shr(b, d))
    decreases d
  {
    if d > 0 {
      ShrStep(Or(a, b), d);
      ShrStep(a, d);
      ShrStep(b, d);
      OrHalf(a, b);
      OrShr(a / 2, b / 2, d - 1);
    }
  }

  /** The OR of two `n`-bit numbers has `n` bits. */
  lemma {:induction false} OrBound(a: nat, b: nat, n: nat)
    requires a < Pow2(n) && b < Pow2(n)
    ensures Or(a, b) < Pow2(n)
    decreases n
  {
    if n > 0 && a != 0 && b != 0 {
      OrBound(a / 2, b / 2, n - 1);
    }
  }

  /** `a | b` on `u64`s. */
  function Or64(a: u64, b: u64): u64
  {
    Pow2Word();
    OrBound(a, b, 64);
    Or(a, b)
  }

  lemma {:induction false} OrComm(a: nat, b: nat)
    ensures Or(a, b) == Or(b, a)
    decreases a + b
  {
    if a != 0 && b != 0 {
      OrComm(a / 2, b / 2);
    }
  }

  /** `2^k - 1`, the low `k` bits. */
  function Mask(k: nat): nat
  {
    if k == 0 then 0 else 2 * Mask(k - 1) + 1
  }

  /** `q << k`. */
  function Shl(q: nat, k: nat): nat
  {
    if k == 0 then q else 2 * Shl(q, k - 1)
  }

  lemma {:induction false} MaskIsPow2(k: nat)
    ensures Mask(k) == Pow2(k) - 1
  {
    if k > 0 {
      MaskIsPow2(k - 1);
    }
  }

  lemma {:induction false} ShlIsMul(q: nat, k: nat)
    ensures Shl(q, k) == q * Pow2(k)
  {
    if k > 0 {
      ShlIsMul(q, k - 1);
      assert q * Pow2(k) == 2 * (q * Pow2(k - 1));
    }
  }

  /** OR with the low `k` bits set clears nothing above them and sets
      them all. */
  lemma {:induction false} OrMask(x: nat, k: nat)
    ensures Or(x, Mask(k)) == Shl(Shr(x, k), k) + Mask(k)
  {
    if k > 0 && x != 0 {
      OrMask(x / 2, k - 1);
      assert Or(x, Mask(k)) == 2 * Or(x / 2, Mask(k - 1)) + 1;
    } else if k > 0 {
      ShrBelow(0, k);
      ShlZero(k);
    }
  }

  lemma {:induction false} ShlZero(k: nat)
    ensures Shl(0, k) == 0
  {
    if k > 0 {
      ShlZero(k - 1);
    }
  }

  /** OR with the mask of the low `k` bits sets exactly those bits:
      `x | (2^k - 1)` is `x` with its low `k` bits all ones. */
  lemma OrLowMask(x: nat, k: nat)
    ensures Or(x, Pow2(k) - 1) == Shr(x, k) * Pow2(k) + Pow2(k) - 1
  {
    OrMask(x, k);
    MaskIsPow2(k);
    ShlIsMul(Shr(x, k), k);
  }

  // ---------------------------------------------------------------------
  // align_up

  /** `align_up(value, alignment)`: `((value - 1) | (alignment - 1)) + 1`
      on `u64`s. */
  function AlignUpU64(value: u64, alignment: u64): u64
  {
    WrapInc(Or64(WrapDec(value), WrapDec(alignment)))
  }

  /** Two multiples of `a` in the same stretch of `a` numbers are one. */
  lemma MultipleUnique(x: nat, a: nat, r1: nat, r2: nat)
    requires a > 0 && r1 % a == 0 && r2 % a == 0
    requires x <= r1 < x + a && x <= r2 < x + a
    ensures r1 == r2
  {
    var q1, q2 := r1 / a, r2 / a;
    ExactQuotient(r1, a);
    ExactQuotient(r2, a);
    if q1 < q2 {
      MulLess(q1, q2, a);
    } else if q2 < q1 {
      MulLess(q2, q1, a);
    }
  }

  /** A multiple of `a` is its quotient times `a`. */
  lemma ExactQuotient(r: nat, a: nat)
    requires a > 0 && r % a == 0
    ensures r == (r / a) * a
  {
    assert r == a * (r / a) + r % a;
  }

  /** For a power-of-two alignment below 2^64 and a value at least one,
      `align_up` is the least multiple of the alignment that is at least
      the value, as long as that multiple fits in 64 bits. */
  lemma AlignUpLeast(v: u64, s: u64, k: nat)
    requires 1 <= v && s == Pow2(k) && AlignUp(v, s) < U64_LIMIT
    ensures AlignUpU64(v, s) == AlignUp(v, s)
  {
    OrLowMask(v - 1, k);
    LowMaskRoundUp(v, s, k);
  }

  /** Setting the low `k` bits of `v - 1` and adding one rounds `v` up to
      a multiple of `2^k`. */
  lemma LowMaskRoundUp(v: nat, s: nat, k: nat)
    requires 1 <= v && s == Pow2(k)
    ensures Shr(v - 1, k) * s + s == AlignUp(v, s)
  {
    var q := Shr(v - 1, k);
    var r := q * s + s;
    ShrDiv(v - 1, k);
    assert v - 1 == s * q + (v - 1) % s;
    assert r == (q + 1) * s;
    MultipleMod(q + 1, s);
    MultipleUnique(v, s, r, AlignUp(v, s));
  }

  /** `align_up(0, s)` wraps round to zero, as does a value whose next
      multiple is 2^64. */
  lemma AlignUpWraps(v: u64, s: u64, k: nat)
    requires s == Pow2(k) && (v == 0 || Shr(v - 1, k) * s + s == U64_LIMIT)
    ensures AlignUpU64(v, s) == 0
  {
    if k >= 64 {
      Pow2Monotone(64, k);
      Pow2Word();
    }
    OrLowMask(WrapDec(v), k);
    if v == 0 {
      Pow2Add(64 - k, k);
      Pow2Word();
      MaskShift(64, k);
      MaskTimes(Pow2(64 - k), s);
    }
  }

  /** With alignment zero, `alignment - 1` wraps to all ones, and so does
      the OR: `align_up` gives zero. */
  lemma AlignUpZeroAlignment(v: u64)
    ensures AlignUpU64(v, 0) == 0
  {
    Pow2Word();
    OrLowMask(WrapDec(v), 64);
    ShrBelow(WrapDec(v), 64);
  }

  // ---------------------------------------------------------------------
  // next_power_of_two

  /** One step of the smear, `y | (y >> s)`. */
  function Smear(y: u64, s: nat): u64
  {
    ShrAtMost(y, s);
    Or64(y, Shr(y, s))
  }

  /** `next_power_of_two`: 1 for zero; otherwise `x - 1` with every bit
      below its highest set bit set too, plus one. */
  function NextPowerOfTwo(x: u64): u64
  {
    if x == 0 then 1
    else
      WrapInc(Smeared(x - 1))
  }

  /** `y` with every bit below its highest set: six smears, by 1, 2, 4,
      8, 16 and 32. */
  function Smeared(y: u64): u64
  {
    Smear(Smear(Smear(Smear(Smear(Smear(y, 1), 2), 4), 8), 16), 32)
  }

  /** The number of bits of `y`. */
  function BitLen(y: nat): nat
  {
    if y == 0 then 0 else 1 + BitLen(y / 2)
  }

  /** `y` has `t` bits: it is below `2^t`, and at least `2^(t-1)` unless
      it is zero. */
  lemma {:induction false} BitLenBounds(y: nat, t: nat)
    requires t == BitLen(y)
    ensures y < Pow2(t)
    ensures y > 0 ==> Pow2(t - 1) <= y
  {
    if y > 0 {
      BitLenBounds(y / 2, t - 1);
    }
  }

  lemma {:induction false} BitLenAtMost(y: nat, n: nat)
    requires y < Pow2(n)
    ensures BitLen(y) <= n
  {
    if y > 0 {
      BitLenAtMost(y / 2, n - 1);
    }
  }

  /** `z` is below 2^t and its top `c` bits of those `t` are all ones. */
  ghost predicate Filled(z: nat, t: nat, c: nat)
  {
    c <= t && z < Pow2(t) && Shr(z, t - c) == Pow2(c) - 1
  }

  /** `(2^c - 1) >> j` is `2^(c-j) - 1`. */
  lemma {:induction false} MaskShift(c: nat, j: nat)
    requires j <= c
    ensures Shr(Pow2(c) - 1, j) == Pow2(c - j) - 1
    decreases j
  {
    if j > 0 {
      assert (Pow2(c) - 1) / 2 == Pow2(c - 1) - 1;
      MaskShift(c - 1, j - 1);
    }
  }

  /** A smear of a number whose top bits are all ones, by the length of
      that run, doubles the run (up to all `t` bits). */
  lemma SmearStep(z: u64, t: nat, c: nat, s: nat)
    requires Filled(z, t, c) && (s == c || c == t)
    ensures Filled(Smear(z, s), t, Cap(c + s, t))
  {
    ShrAtMost(z, s);
    OrBound(z, Shr(z, s), t);
    if c == t {
      SmearFull(z, t, s);
    } else if 2 * c <= t {
      SmearDouble(z, t, c);
    } else {
      SmearFinish(z, t, c);
    }
  }

  /** All `t` bits set stay set. */
  lemma SmearFull(z: u64, t: nat, s: nat)
    requires Filled(z, t, t)
    ensures Smear(z, s) == Pow2(t) - 1
  {
    var w := Shr(z, s);
    assert z == Pow2(t) - 1;
    ShrAtMost(z, s);
    ShrBelow(w, t);
    OrComm(z, w);
    OrLowMask(w, t);
  }

  /** A run of `c` top ones, `2c <= t`, becomes a run of `2c`. */
  lemma SmearDouble(z: u64, t: nat, c: nat)
    requires Filled(z, t, c) && 2 * c <= t
    ensures Shr(Smear(z, c), t - 2 * c) == Pow2(2 * c) - 1
  {
    var d := t - 2 * c;
    var w := Shr(z, c);
    OrShr(z, w, d);
    ShrShr(z, c, d);
    ShrShr(z, d, c);
    OrLowMask(Shr(z, d), c);
    MaskTimes(Pow2(c), Pow2(c));
    Pow2Add(c, c);
  }

  /** A run of `c` top ones, `c < t < 2c`, fills all `t` bits. */
  lemma SmearFinish(z: u64, t: nat, c: nat)
    requires Filled(z, t, c) && c < t < 2 * c
    ensures Smear(z, c) == Pow2(t) - 1
  {
    var a, b := t - c, 2 * c - t;
    ShrShr(z, a, b);
    MaskShift(c, b);
    assert Shr(z, c) == Pow2(a) - 1;
    OrLowMask(z, a);
    assert Shr(z, a) == Pow2(c) - 1;
    RunAndMask(c, a);
  }

  /** A run of `c` ones above `a` low ones is `c + a` ones. */
  lemma RunAndMask(c: nat, a: nat)
    ensures (Pow2(c) - 1) * Pow2(a) + Pow2(a) - 1 == Pow2(c + a) - 1
  {
    MaskTimes(Pow2(c), Pow2(a));
    Pow2Add(c, a);
  }

  /** The smaller of a run length and the width. */
  function Cap(c: nat, t: nat): nat
  {
    if c <= t then c else t
  }

  /** A smear by `s` of a number whose top `s` bits (or all of them) are
      ones makes `2s` of them ones. */
  lemma Doubling(z: u64, t: nat, s: nat)
    requires s >= 1 && Filled(z, t, Cap(s, t))
    ensures Filled(Smear(z, s), t, Cap(2 * s, t))
  {
    SmearStep(z, t, Cap(s, t), s);
  }

  /** Six smears fill a run of one top bit out to 64 bits. */
  lemma SmearChain(y: u64, t: nat)
    requires t <= 64 && Filled(y, t, Cap(1, t))
    ensures Smeared(y) == Pow2(t) - 1
  {
    Doubling(y, t, 1);
    var y1 := Smear(y, 1);
    Doubling(y1, t, 2);
    var y2 := Smear(y1, 2);
    Doubling(y2, t, 4);
    var y3 := Smear(y2, 4);
    Doubling(y3, t, 8);
    var y4 := Smear(y3, 8);
    Doubling(y4, t, 16);
    var y5 := Smear(y4, 16);
    Doubling(y5, t, 32);
    assert Filled(Smear(y5, 32), t, t);
  }

  /** The highest set bit of `y` is a run of one top bit of its `t` bits. */
  lemma TopBit(y: nat, t: nat)
    requires t == BitLen(y)
    ensures Filled(y, t, Cap(1, t))
  {
    BitLenBounds(y, t);
    if t > 0 {
      assert Pow2(t) == 2 * Pow2(t - 1);
      DivModUnique(y, Pow2(t - 1), 1, y - Pow2(t - 1));
      ShrDiv(y, t - 1);
    }
  }

  /** The smear of a `t`-bit `y` sets every bit below its highest:
      `2^t - 1`. */
  lemma SmearValue(y: u64, t: nat)
    requires t == BitLen(y)
    ensures Smeared(y) == Pow2(t) - 1
  {
    Pow2Word();
    BitLenAtMost(y, 64);
    TopBit(y, t);
    SmearChain(y, t);
  }

  /** `next_power_of_two(x)` for `1 <= x <= 2^63` is `2^t`, `t` the bit
      length of `x - 1`: a power of two at least `x` whose half is below
      `x`. */
  lemma NextPowerOfTwoValue(x: u64, t: nat)
    requires 1 <= x <= POW63 && t == BitLen(x - 1)
    ensures NextPowerOfTwo(x) == Pow2(t) && t < 64
    ensures x <= Pow2(t) && (t > 0 ==> Pow2(t - 1) < x)
  {
    var y: u64 := x - 1;
    Pow2Is63();
    BitLenAtMost(y, 63);
    Pow2Lt64(t);
    SmearValue(y, t);
    assert NextPowerOfTwo(x) == WrapInc(Pow2(t) - 1) == Pow2(t);
    BitLenBounds(y, t);
  }

  /** `next_power_of_two` is the least power of two at least `x`: no
      power of two at least `x` is below it.  Zero gives one. */
  lemma NextPowerOfTwoLeast(x: u64, k: nat)
    requires x <= POW63 && x <= Pow2(k)
    ensures NextPowerOfTwo(x) <= Pow2(k)
    ensures x == 0 ==> NextPowerOfTwo(x) == 1
  {
    if x > 0 {
      var t := BitLen(x - 1);
      NextPowerOfTwoValue(x, t);
      PowerAbove(x, t, k);
    }
  }

  /** A power of two whose half is below `x` is at most any power of two
      at least `x`. */
  lemma PowerAbove(x: nat, t: nat, k: nat)
    requires x <= Pow2(k) && (t > 0 ==> Pow2(t - 1) < x)
    ensures Pow2(t) <= Pow2(k)
  {
    if t > k {
      Pow2Monotone(k, t - 1);
    } else {
      Pow2Monotone(t, k);
    }
  }

  /** Above 2^63 there is no 64-bit power of two: the result wraps to
      zero. */
  lemma NextPowerOfTwoWraps(x: u64)
    requires x > POW63
    ensures NextPowerOfTwo(x) == 0
  {
    BitLenTop(x - 1);
    SmearValue(x - 1, 64);
    Pow2Word();
  }

  /** A `u64` at least 2^63 has all 64 bits. */
  lemma BitLenTop(y: u64)
    requires y >= POW63
    ensures BitLen(y) == 64
  {
    var t := BitLen(y);
    Pow2Is63();
    Pow2Word();
    BitLenBounds(y, t);
    BitLenAtMost(y, 64);
    if t < 64 {
      Pow2Monotone(t, 63);
    }
  }

  // ---------------------------------------------------------------------
  // Windows

  /** `AddressWidth`. */
  datatype AddressWidth = Width32 | Width64

  /** `PciRangeType`. */
  datatype PciRangeType = ConfigurationSpace | IoSpace | Memory32 | Memory64

  /** `From<u32> for PciRangeType`: 0 to 3 in order; anything else is
      configuration space. */
  function RangeTypeFrom(v: u32): (t: PciRangeType)
    ensures t == Memory32 <==> v == 2
    ensures t == Memory64 <==> v == 3
    ensures t == IoSpace <==> v == 1
  {
    match v
    case 0 => ConfigurationSpace
    case 1 => IoSpace
    case 2 => Memory32
    case 3 => Memory64
    case _ => ConfigurationSpace
  }

  /** `BarWindow`: `[cpuBase, cpuBase + size)`, allocated up to `next`. */
  datatype BarWindow = BarWindow(cpuBase: u64, size: u64, next: u64, prefetchable: bool, width: AddressWidth)
  {
    /** The window does not wrap and `next` lies inside it. */
    predicate Valid()
    {
      cpuBase + size < U64_LIMIT && cpuBase <= next <= cpuBase + size
    }

    /** `remaining`: the bytes after `next`. */
    function Remaining(): (r: nat)
      requires Valid()
      ensures next + r == cpuBase + size
    {
      cpuBase + size - next
    }
    /** `allocate` as written: the request is rounded up to a power of two
        `s`, `next` aligned up to `s`, and the block taken when it ends
        within the window.  A request above 2^63 rounds to zero and the
        alignment wraps, so the block is taken at address 0. */
    function AllocateAsWritten(req: u64): (Option<u64>, BarWindow)
    {
      var s := NextPowerOfTwo(req);
      Take(AlignUpU64(next, s), s, WrapAdd(cpuBase, size))
    }

    /** `allocate`, with the overflows it evidently means to refuse
        refused: a request above 2^63 has no 64-bit power of two and a
        block past 2^64 does not exist. */
    function Allocate(req: u64): (Option<u64>, BarWindow)
    {
      if req > POW63 then (None, this)
      else
        var s := NextPowerOfTwo(req);
        if s == 0 then (None, this)
        else Take(AlignUp(next, s), s, cpuBase + size)
    }

    /** The block of `s` bytes at `alloc`, unless its end overflows 64 bits
        (`checked_add`) or passes `end`. */
    function Take(alloc: nat, s: nat, end: nat): (Option<u64>, BarWindow)
    {
      if alloc + s >= U64_LIMIT then (None, this)
      else if alloc + s > end then (None, this)
      else (Some(alloc), this.(next := alloc + s))
    }
  }

  /** `BarWindow::new`: nothing allocated yet. */
  function NewWindow(cpuBase: u64, size: u64, prefetchable: bool, width: AddressWidth): (w: BarWindow)
    ensures w.cpuBase == cpuBase && w.size == size && w.prefetchable == prefetchable && w.width == width
    ensures cpuBase + size < U64_LIMIT ==> w.Valid() && w.Remaining() == size
  {
    BarWindow(cpuBase, size, cpuBase, prefetchable, width)
  }

  /** A request above 2^63 bytes is granted at address 0, outside any
      window that does not start at 0, and `next` is reset to 0. */
  lemma AllocateAsWrittenHugeRequest(w: BarWindow, req: u64)
    requires w.Valid() && w.cpuBase > 0 && req > POW63
    ensures w.AllocateAsWritten(req) == (Some(0), w.(next := 0))
    ensures w.AllocateAsWritten(req).0.value < w.cpuBase
  {
    NextPowerOfTwoWraps(req);
    AlignUpZeroAlignment(w.next);
  }

  /** The corrected allocation grants the lowest block of `s` bytes
      aligned to `s` at or after `next`, where `s` is the least power of
      two at least the request; the block lies in the window and `next`
      moves to its end.  A refusal changes nothing, and is right: no such
      block fits. */
  lemma AllocateSpec(w: BarWindow, req: u64)
    requires w.Valid()
    ensures var (r, w') := w.Allocate(req);
      && (r.None? ==> w' == w)
      && (r.None? && req <= POW63 && NextPowerOfTwo(req) > 0 ==>
            forall a: nat :: a % NextPowerOfTwo(req) == 0 && a >= w.next ==> a + NextPowerOfTwo(req) > w.cpuBase + w.size)
      && (r.Some? ==>
            && req <= POW63 && req <= NextPowerOfTwo(req)
            && r.value % NextPowerOfTwo(req) == 0
            && w.next <= r.value < w.next + NextPowerOfTwo(req)
            && w.cpuBase <= r.value && r.value + NextPowerOfTwo(req) <= w.cpuBase + w.size
            && w' == w.(next := r.value + NextPowerOfTwo(req)) && w'.Valid())
  {
    if req <= POW63 {
      var s := NextPowerOfTwo(req);
      if req > 0 {
        NextPowerOfTwoValue(req, BitLen(req - 1));
      }
      var alloc := AlignUp(w.next, s);
      if w.Allocate(req).0.None? {
        forall a: nat | a % s == 0 && a >= w.next
          ensures a + s > w.cpuBase + w.size
        {
          AlignUpIsLeast(w.next, s, a);
        }
      }
    }
  }

  /** Every multiple of `s` at or after `x` is at or after `AlignUp(x, s)`. */
  lemma AlignUpIsLeast(x: nat, s: nat, a: nat)
    requires s > 0 && a % s == 0 && a >= x
    ensures a >= AlignUp(x, s)
  {
    var r := AlignUp(x, s);
    if a < r {
      DivModUnique(a, s, a / s, 0);
      DivModUnique(r, s, r / s, 0);
      assert a / s < r / s;
      MulLess(a / s, r / s, s);
    }
  }

  /** Where nothing overflows, the source's allocation and the corrected
      one agree. */
  lemma AllocateAgrees(w: BarWindow, req: u64)
    requires w.Valid() && 1 <= w.next && req <= POW63
    requires NextPowerOfTwo(req) > 0 && AlignUp(w.next, NextPowerOfTwo(req)) < U64_LIMIT
    ensures w.AllocateAsWritten(req) == w.Allocate(req)
  {
    var s := NextPowerOfTwo(req);
    var k := if req == 0 then 0 else BitLen(req - 1);
    if req > 0 {
      NextPowerOfTwoValue(req, BitLen(req - 1));
    }
    AlignUpLeast(w.next, s, k);
    WrapAddFits(w.cpuBase, w.size);
  }

  lemma WrapAddFits(a: u64, b: u64)
    requires a + b < U64_LIMIT
    ensures WrapAdd(a, b) == a + b
  {
  }

  // ---------------------------------------------------------------------
  // The allocator

  /** The three passes of `allocate`. */
  datatype Pass = Strict | WidthOnly | Any

  /** Whether a window takes part in a pass. */
  predicate Matches(p: Pass, w: BarWindow, width: AddressWidth, prefetch: Option<bool>)
  {
    match p
    case Strict => w.width == width && (prefetch.None? || prefetch.value == w.prefetchable)
    case WidthOnly => w.width == width
    case Any => true
  }

  /** The first window from `j` on that takes part in the pass and can
      take the request. */
  function FirstFit(ws: seq<BarWindow>, j: nat, req: u64, p: Pass, width: AddressWidth, prefetch: Option<bool>): (r: Option<nat>)
    decreases |ws| - j
    ensures r.Some? ==> (&& j <= r.value < |ws| && Matches(p, ws[r.value], width, prefetch)
                         && ws[r.value].Allocate(req).0.Some?)
  {
    if j >= |ws| then None
    else if Matches(p, ws[j], width, prefetch) && ws[j].Allocate(req).0.Some? then Some(j)
    else FirstFit(ws, j + 1, req, p, width, prefetch)
  }

  /** The window `allocate` chooses: the first strict match that fits,
      else the first of the right width, else the first of any. */
  function Choice(ws: seq<BarWindow>, req: u64, width: AddressWidth, prefetch: Option<bool>): Option<nat>
  {
    var strict := FirstFit(ws, 0, req, Strict, width, prefetch);
    if strict.Some? then strict
    else
      var loose := FirstFit(ws, 0, req, WidthOnly, width, prefetch);
      if loose.Some? then loose else FirstFit(ws, 0, req, Any, width, prefetch)
  }

  /** No window from `j` on fits in pass `p`, given none from `i` on
      does. */
  lemma {:induction false} FirstFitNone(ws: seq<BarWindow>, j: nat, req: u64, p: Pass, width: AddressWidth, prefetch: Option<bool>, i: nat)
    requires j <= i && FirstFit(ws, j, req, p, width, prefetch).None?
    ensures FirstFit(ws, i, req, p, width, prefetch).None?
    decreases i - j
  {
    if j < i && j < |ws| {
      FirstFitNone(ws, j + 1, req, p, width, prefetch, i);
    }
  }

  /** A window that fits in some pass makes that pass succeed, at it or
      at an earlier window. */
  lemma {:induction false} FirstFitFinds(ws: seq<BarWindow>, j: nat, req: u64, p: Pass, width: AddressWidth, prefetch: Option<bool>, i: nat)
    requires j <= i < |ws| && Matches(p, ws[i], width, prefetch) && ws[i].Allocate(req).0.Some?
    ensures FirstFit(ws, j, req, p, width, prefetch).Some?
    ensures FirstFit(ws, j, req, p, width, prefetch).value <= i
    decreases i - j
  {
    if j < i && !(Matches(p, ws[j], width, prefetch) && ws[j].Allocate(req).0.Some?) {
      FirstFitFinds(ws, j + 1, req, p, width, prefetch, i);
    }
  }

  /** `allocate` prefers: when a strictly matching window can take the
      request, the chosen one matches strictly; when one of the right
      width can, the chosen one has that width; and a refusal means no
      window at all can take it. */
  lemma ChoicePrefers(ws: seq<BarWindow>, req: u64, width: AddressWidth, prefetch: Option<bool>, i: nat)
    requires i < |ws| && ws[i].Allocate(req).0.Some?
    ensures Choice(ws, req, width, prefetch).Some?
    ensures Matches(Strict, ws[i], width, prefetch) ==>
      Matches(Strict, ws[Choice(ws, req, width, prefetch).value], width, prefetch)
    ensures ws[i].width == width ==> ws[Choice(ws, req, width, prefetch).value].width == width
  {
    FirstFitFinds(ws, 0, req, Any, width, prefetch, i);
    if Matches(Strict, ws[i], width, prefetch) {
      FirstFitFinds(ws, 0, req, Strict, width, prefetch, i);
    }
    if ws[i].width == width {
      FirstFitFinds(ws, 0, req, WidthOnly, width, prefetch, i);
    }
  }

  /** `BarAllocator`: its windows. */
  class BarAllocator {
    var windows: seq<BarWindow>

    /** `new_empty`: no window, so nothing can be allocated. */
    constructor NewEmpty()
      ensures windows == []
    {
      windows := [];
    }

    /** `from_fixed_window`: the one window given. */
    constructor FromFixedWindow(start: u64, size: u64, prefetchable: bool, width: AddressWidth)
      ensures windows == [NewWindow(start, size, prefetchable, width)]
    {
      windows := [NewWindow(start, size, prefetchable, width)];
    }

    /** One pass of `allocate`: the windows in order, each taking part in
        the pass tried in turn, until one takes the request. */
    method TryPass(req: u64, p: Pass, width: AddressWidth, prefetch: Option<bool>) returns (r: Option<u64>)
      modifies this
      ensures var i := FirstFit(old(windows), 0, req, p, width, prefetch);
        && (i.None? ==> r.None? && windows == old(windows))
        && (i.Some? ==>
              && r == old(windows)[i.value].Allocate(req).0
              && windows == old(windows)[i.value := old(windows)[i.value].Allocate(req).1])
    {
      var j := 0;
      while j < |windows|
        invariant j <= |windows| && windows == old(windows)
        invariant FirstFit(windows, 0, req, p, width, prefetch) == FirstFit(windows, j, req, p, width, prefetch)
        decreases |windows| - j
      {
        var w := windows[j];
        if Matches(p, w, width, prefetch) {
          var (a, w') := w.Allocate(req);
          if a.Some? {
            windows := windows[j := w'];
            return a;
          }
        }
        j := j + 1;
      }
      return None;
    }

    /** `allocate`: a strict pass, then a pass on width only, then a pass
        over every window; the first window that takes the request gives
        the address.  Nothing changes when none does. */
    method Allocate(req: u64, width: AddressWidth, prefetch: Option<bool>) returns (r: Option<u64>)
      modifies this
      ensures var i := Choice(old(windows), req, width, prefetch);
        && (i.None? ==> r.None? && windows == old(windows))
        && (i.Some? ==>
              && r == old(windows)[i.value].Allocate(req).0
              && windows == old(windows)[i.value := old(windows)[i.value].Allocate(req).1])
    {
      r := TryPass(req, Strict, width, prefetch);
      if r.Some? {
        return;
      }
      r := TryPass(req, WidthOnly, width, prefetch);
      if r.Some? {
        return;
      }
      r := TryPass(req, Any, width, prefetch);
    }
  }

  // ---------------------------------------------------------------------
  // The device tree's `ranges`

  /** The bytes of one entry of `ranges`: seven 32-bit cells. */
  const RANGE_ENTRY_SIZE: nat := 28

  /** The big-endian 32-bit cell at byte `i`. */
  function Cell(b: seq<u8>, i: nat): u32
    requires i + 4 <= |b|
  {
    (b[i] as nat) * 0x100_0000 + (b[i + 1] as nat) * 0x1_0000 + (b[i + 2] as nat) * 0x100 + b[i + 3] as nat
  }

  /** `(hi as u64) << 32 | lo as u64`. */
  function Join64(hi: u32, lo: u32): u64
  {
    hi * 0x1_0000_0000 + lo
  }

  /** The window an entry describes, or none: only memory ranges (32 or
      64 bit, bits 24-25 of the first cell) of non-zero size count;
      bit 30 of the first cell says prefetchable.  The window sits at the
      CPU physical address; a bus address that differs is only logged. */
  function EntryWindow(e: seq<u8>): (w: Option<BarWindow>)
    requires |e| == RANGE_ENTRY_SIZE
    ensures w.Some? ==> w.value.size > 0 && w.value.next == w.value.cpuBase
  {
    var childHi := Cell(e, 0);
    var parentHi, parentLo := Cell(e, 12), Cell(e, 16);
    var sizeHi, sizeLo := Cell(e, 20), Cell(e, 24);
    var prefetchable := (childHi / 0x4000_0000) % 2 == 1;
    var rangeType := RangeTypeFrom((childHi / 0x100_0000) % 4);
    var cpuPhysical := Join64(parentHi, parentLo);
    var size := Join64(sizeHi, sizeLo);
    if rangeType != Memory32 && rangeType != Memory64 then None
    else if size == 0 then None
    else Some(NewWindow(cpuPhysical, size, prefetchable, if rangeType == Memory32 then Width32 else Width64))
  }

  /** The bytes of entry `k`. */
  function Entry(b: seq<u8>, k: nat): (e: seq<u8>)
    requires (k + 1) * RANGE_ENTRY_SIZE <= |b|
    ensures |e| == RANGE_ENTRY_SIZE
  {
    b[k * RANGE_ENTRY_SIZE .. (k + 1) * RANGE_ENTRY_SIZE]
  }

  /** The windows of the first `n` entries, in order. */
  function ParseWindows(b: seq<u8>, n: nat): (ws: seq<BarWindow>)
    requires n * RANGE_ENTRY_SIZE <= |b|
    ensures |ws| <= n
  {
    if n == 0 then []
    else
      var e := EntryWindow(Entry(b, n - 1));
      ParseWindows(b, n - 1) + (if e.Some? then [e.value] else [])
  }

  /** Every parsed window comes from some entry, is non-empty and has
      nothing allocated. */
  lemma {:induction false} ParseWindowsFresh(b: seq<u8>, n: nat)
    requires n * RANGE_ENTRY_SIZE <= |b|
    ensures forall w :: w in ParseWindows(b, n) ==> w.size > 0 && w.next == w.cpuBase
    ensures forall w :: w in ParseWindows(b, n) ==>
      exists k :: 0 <= k < n && EntryWindow(Entry(b, k)) == Some(w)
  {
    if n > 0 {
      ParseWindowsFresh(b, n - 1);
      forall w | w in ParseWindows(b, n)
        ensures exists k :: 0 <= k < n && EntryWindow(Entry(b, k)) == Some(w)
      {
        if w !in ParseWindows(b, n - 1) {
          assert EntryWindow(Entry(b, n - 1)) == Some(w);
        }
      }
    }
  }

  /** The loop of `from_fdt_ranges` over the first `n` entries: the
      window of each entry that gives one, in order. */
  method ParseEntries(bytes: seq<u8>, n: nat) returns (windows: seq<BarWindow>)
    requires n * RANGE_ENTRY_SIZE <= |bytes|
    ensures windows == ParseWindows(bytes, n)
  {
    windows := [];
    var c := 0;
    while c < n
      invariant c <= n && windows == ParseWindows(bytes, c)
      decreases n - c
    {
      assert (c + 1) * RANGE_ENTRY_SIZE <= n * RANGE_ENTRY_SIZE;
      var w := EntryWindow(Entry(bytes, c));
      if w.Some? {
        windows := windows + [w.value];
      }
      c := c + 1;
    }
  }

  /** `from_fdt_ranges`: no allocator without a `ranges` property, when
      its length is not a whole number of entries, or when no entry gives
      a window; otherwise an allocator over the windows of the entries in
      order. */
  method FromFdtRanges(ranges: Option<seq<u8>>) returns (r: Option<BarAllocator>)
    ensures ranges.None? ==> r.None?
    ensures ranges.Some? && |ranges.value| % RANGE_ENTRY_SIZE != 0 ==> r.None?
    ensures ranges.Some? && |ranges.value| % RANGE_ENTRY_SIZE == 0 ==>
      var ws := ParseWindows(ranges.value, |ranges.value| / RANGE_ENTRY_SIZE);
      && (r.None? <==> ws == [])
      && (r.Some? ==> fresh(r.value) && r.value.windows == ws)
  {
    if ranges.None? {
      return None;
    }
    var bytes := ranges.value;
    if |bytes| % RANGE_ENTRY_SIZE != 0 {
      return None;
    }
    var n := |bytes| / RANGE_ENTRY_SIZE;
    assert |bytes| == n * RANGE_ENTRY_SIZE;
    var windows := ParseEntries(bytes, n);
    if windows == [] {
      return None;
    }
    var allocator := new BarAllocator.NewEmpty();
    allocator.windows := windows;
    r := Some(allocator);
  }
}
