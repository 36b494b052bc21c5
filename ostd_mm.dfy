/** The paging constants and page-size arithmetic of the memory manager
    (ostd/src/mm/mod.rs).  The paging constants are those of the LoongArch
    target (ostd/src/arch/loongarch/mm/mod.rs): 4 KiB base pages, 8-byte
    page-table entries and four levels.  `usize` is 64 bits wide. */
module Mm {

  import opened Common

  const BASE_PAGE_SIZE: nat := 4096
  const PTE_SIZE: nat := 8
  const NR_LEVELS: nat := 4
  const ADDRESS_WIDTH: nat := 48

  /** `PAGE_SIZE`, defined in the source as `page_size(1)`; see
      `PageSizeValues`. */
  const PAGE_SIZE: nat := 4096

  /** The first address past user space: the top page of the lower half
      is left out. */
  const MAX_USERSPACE_VADDR: nat := 0x0000_8000_0000_0000 - PAGE_SIZE

  /** The kernel address space, `[KERNEL_VADDR_START, KERNEL_VADDR_END)`. */
  const KERNEL_VADDR_START: nat := 0xffff_8000_0000_0000
  const KERNEL_VADDR_END: nat := 0xffff_ffff_ffff_0000

  const USIZE_LIMIT: nat := 0x1_0000_0000_0000_0000

  /** `ilog2`: the position of the highest set bit. */
  function Ilog2(n: nat): (r: nat)
    requires n >= 1
    ensures Pow2(r) <= n < Pow2(r + 1)
  {
    if n < 2 then 0 else 1 + Ilog2(n / 2)
  }

  /** `nr_subpage_per_huge`: how many entries one page-table page holds,
      512 entries of 8 bytes filling the 4 KiB page exactly. */
  function NrSubpagePerHuge(): (r: nat)
    ensures r == 512 && r * 8 == 4096
  {
    BASE_PAGE_SIZE / PTE_SIZE
  }

  /** `page_size(level)`: the base page shifted left by `ilog2` of the
      fan-out once per level above the first, in 64-bit arithmetic.  Level
      0 underflows and a shift of 64 or more overflows; both panic, so
      callers must avoid them.  With nine bits per level (`SubpageBits`)
      the shift stays below 64 up to level 8. */
  function PageSize(level: nat): nat
    requires 1 <= level <= 8
  {
    (BASE_PAGE_SIZE * Pow2(LevelShift(level))) % USIZE_LIMIT
  }

  /** The shift `page_size` applies: `ilog2` of the fan-out per level
      above the first. */
  function LevelShift(level: nat): nat
    requires 1 <= level
  {
    Ilog2(NrSubpagePerHuge()) * (level - 1)
  }

  /** `nr_base_per_page(level)`: base pages in one page of that level. */
  function NrBasePerPage(level: nat): nat
    requires 1 <= level <= 8
  {
    PageSize(level) / BASE_PAGE_SIZE
  }

  /** `is_page_aligned`: the bits below the page size are clear. */
  function IsPageAligned(p: bv64): (r: bool)
    ensures r <==> p % 4096 == 0
  {
    (p & (4096 - 1)) == 0
  }

  lemma {:induction false} Pow2Add(a: nat, b: nat)
    ensures Pow2(a + b) == Pow2(a) * Pow2(b)
  {
    if b > 0 {
      Pow2Add(a, b - 1);
      assert Pow2(a + b) == 2 * Pow2(a + b - 1);
    }
  }

  /** Reducing before a multiplication does not change the product modulo
      the same number. */
  lemma MulMod(a: nat, k: nat, m: nat)
    requires m > 0
    ensures ((a % m) * k) % m == (a * k) % m
  {
    var q, r := a / m, a % m;
    assert a * k == (q * k) * m + r * k;
    DivModUnique(a * k, m, q * k + (r * k) / m, (r * k) % m);
  }

  /** The fan-out is 512, a power of two, nine bits of the address per
      level. */
  lemma SubpageBits()
    ensures NrSubpagePerHuge() == 512 && Ilog2(NrSubpagePerHuge()) == 9
  {
    assert Ilog2(2) == 1;
    assert Ilog2(4) == 2;
    assert Ilog2(8) == 3;
    assert Ilog2(16) == 4;
    assert Ilog2(32) == 5;
    assert Ilog2(64) == 6;
    assert Ilog2(128) == 7;
    assert Ilog2(256) == 8;
  }

  /** The powers of two the page sizes are built from. */
  lemma SmallPowers()
    ensures Pow2(9) == 512 && Pow2(12) == 4096
  {
    assert Pow2(3) == 8;
    assert Pow2(6) == 64;
    assert Pow2(9) == 512;
  }

  /** Each level's page is the fan-out times the one below, in 64-bit
      arithmetic. */
  lemma PageSizeStep(level: nat)
    requires 1 <= level && 9 * level < 64
    ensures PageSize(level + 1) == (PageSize(level) * NrSubpagePerHuge()) % USIZE_LIMIT
  {
    ShiftStep(level);
    var s := LevelShift(level);
    Pow2Nine(s);
    PageMulStep(Pow2(s), Pow2(s + 9));
  }

  lemma Pow2Nine(n: nat)
    ensures Pow2(n + 9) == Pow2(n) * 512
  {
    Pow2Add(n, 9);
    SmallPowers();
  }

  /** Scaling the page by the fan-out commutes with the 64-bit wrap. */
  lemma PageMulStep(p: nat, q: nat)
    requires q == p * 512
    ensures (BASE_PAGE_SIZE * q) % USIZE_LIMIT == (((BASE_PAGE_SIZE * p) % USIZE_LIMIT) * 512) % USIZE_LIMIT
  {
    Regroup512(BASE_PAGE_SIZE, p);
    MulMod(BASE_PAGE_SIZE * p, 512, USIZE_LIMIT);
  }

  /** Each level shifts nine more bits than the one below. */
  lemma ShiftStep(level: nat)
    requires 1 <= level
    ensures LevelShift(level + 1) == LevelShift(level) + 9
  {
    SubpageBits();
  }

  lemma Regroup512(a: nat, p: nat)
    ensures a * (p * 512) == (a * p) * 512
  {
  }

  /** The page sizes of the four levels: 4 KiB, 2 MiB, 1 GiB and 512 GiB;
      the first is `PAGE_SIZE`. */
  lemma PageSizeValues()
    ensures PageSize(1) == BASE_PAGE_SIZE == PAGE_SIZE
    ensures PageSize(2) == 0x20_0000 && PageSize(3) == 0x4000_0000
    ensures PageSize(4) == 0x80_0000_0000
  {
    SubpageBits();
    SmallPowers();
    Pow2Add(9, 9);
    Pow2Add(18, 9);
  }

  /** A page of level `level` is `nr_base_per_page(level)` base pages, as
      long as its size fits in 64 bits. */
  lemma BasePerPage(level: nat)
    requires 1 <= level && 12 + 9 * (level - 1) < 64
    ensures NrBasePerPage(level) * BASE_PAGE_SIZE == PageSize(level)
    ensures NrBasePerPage(level) == Pow2(9 * (level - 1))
  {
    var n := 9 * (level - 1);
    var p := Pow2(n);
    PageSizeNoWrap(level, n);
    assert PageSize(level) == p * BASE_PAGE_SIZE;
    MultipleMod(p, BASE_PAGE_SIZE);
    assert NrBasePerPage(level) == p;
  }

  /** Below level 7 the shift does not wrap: the page size is the base
      page times two to the shift. */
  lemma PageSizeNoWrap(level: nat, n: nat)
    requires 1 <= level && n == 9 * (level - 1) && 12 + n < 64
    ensures PageSize(level) == BASE_PAGE_SIZE * Pow2(n)
  {
    SubpageBits();
    assert LevelShift(level) == n;
    Pow2Add(12, n);
    SmallPowers();
    Pow2Bound(12 + n, 64);
    Pow2Word();
    ModSmall(BASE_PAGE_SIZE * Pow2(n), USIZE_LIMIT);
  }

  lemma ModSmall(x: nat, m: nat)
    requires x < m
    ensures x % m == x
  {
  }

  lemma Pow2Word()
    ensures Pow2(64) == USIZE_LIMIT
  {
    assert Pow2(4) == 16;
    Pow2Add(4, 4);
    Pow2Add(8, 8);
    assert Pow2(16) == 0x1_0000;
    Pow2Add(16, 16);
    assert Pow2(32) == 0x1_0000_0000;
    Pow2Add(32, 32);
  }

  lemma {:induction false} Pow2Bound(a: nat, b: nat)
    requires a < b
    ensures Pow2(a) < Pow2(b)
  {
    if a + 1 < b {
      Pow2Bound(a, b - 1);
    }
  }
}
