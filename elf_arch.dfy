/** The instruction-set dependent pieces of the ELF loader
    (vendor/elf_loader/src/arch/mod.rs) for a 64-bit target: the
    relocation-info split of `ElfRela`/`ElfRel`, and the bind and type
    fields of `ElfSymbol` with the predicates the symbol lookup uses. */
module ElfArch {
  import opened Common

  const WORD_BITS: nat := 64
  const WORD_BYTES: nat := 8
  const U64_SPLIT: nat := 0x1_0000_0000_0000_0000
  const U64_MAX: nat := 0xFFFF_FFFF_FFFF_FFFF

  /** `usize` arithmetic of a build without overflow checks: the result
      modulo 2^64. */
  function Wrap(x: int): (r: u64)
    ensures 0 <= x < U64_SPLIT ==> r == x
  {
    x % U64_SPLIT
  }

  /** `REL_MASK` and `REL_BIT` of a 64-bit target. */
  const REL_MASK: nat := 0xFFFF_FFFF
  const REL_BIT: nat := 32
  const REL_SPLIT: nat := 0x1_0000_0000

  /** Symbol bindings (System V gABI, "Symbol Table"). */
  const STB_LOCAL: nat := 0
  const STB_GLOBAL: nat := 1
  const STB_WEAK: nat := 2
  const STB_GNU_UNIQUE: nat := 10

  /** Symbol types. */
  const STT_NOTYPE: nat := 0
  const STT_OBJECT: nat := 1
  const STT_FUNC: nat := 2
  const STT_COMMON: nat := 5
  const STT_TLS: nat := 6
  const STT_GNU_IFUNC: nat := 10

  const SHN_UNDEF: nat := 0

  /** `OK_BINDS` and `OK_TYPES`: one bit per accepted binding or type. */
  const OK_BINDS: bv32 := 0x406
  const OK_TYPES: bv32 := 0x467

  lemma {:induction false} Pow2Mono(a: nat, b: nat)
    requires a <= b
    ensures Pow2(a) <= Pow2(b)
    decreases b - a
  {
    if a < b {
      Pow2Mono(a, b - 1);
    }
  }

  lemma {:induction false} Pow2Add(a: nat, b: nat)
    ensures Pow2(a + b) == Pow2(a) * Pow2(b)
    decreases a
  {
    if a > 0 {
      Pow2Add(a - 1, b);
    }
  }

  /** The top bit of a machine word. */
  lemma Pow2TopBit()
    ensures Pow2(WORD_BITS - 1) == 0x8000_0000_0000_0000
  {
    assert Pow2(8) == 256 && Pow2(7) == 128;
    Pow2Add(8, 8);
    Pow2Add(16, 16);
    Pow2Add(8, 7);
    Pow2Add(16, 15);
    Pow2Add(32, 31);
  }

  lemma Pow2Below(n: nat)
    requires n < WORD_BITS
    ensures Pow2(n) < U64_SPLIT
  {
    Pow2Mono(n, WORD_BITS - 1);
    Pow2TopBit();
  }

  lemma Pow2Word()
    ensures Pow2(WORD_BITS) == U64_SPLIT
  {
    Pow2TopBit();
    Pow2Add(WORD_BITS - 1, 1);
    assert Pow2(1) == 2;
  }

  /** An `Elf64_Sym`. */
  datatype Symbol = Symbol(
    stName: u32, stInfo: u8, stOther: u8, stShndx: u16, stValue: u64, stSize: u64)

  /** `r_info` as the gABI's `ELF64_R_INFO(sym, type)` builds it. */
  function RInfo(sym: u32, ty: u32): (r: u64)
    ensures r >= sym * REL_SPLIT
  {
    sym * REL_SPLIT + ty
  }

  /** `r_type`: the low word of `r_info`. */
  function RType(info: u64): (r: u32)
    ensures exists hi: nat :: info == hi * REL_SPLIT + r
  {
    var q := info / REL_SPLIT;
    assert info == q * REL_SPLIT + info % REL_SPLIT;
    info % REL_SPLIT
  }

  /** `r_symbol`: the high word of `r_info`. */
  function RSymbol(info: u64): (r: u32)
    ensures r * REL_SPLIT <= info < r * REL_SPLIT + REL_SPLIT
  {
    info / REL_SPLIT
  }

  /** Splitting an `r_info` built from a symbol index and a type gives
      them back. */
  lemma RInfoSplit(sym: u32, ty: u32)
    ensures RSymbol(RInfo(sym, ty)) == sym && RType(RInfo(sym, ty)) == ty
  {
    DivModUnique(RInfo(sym, ty), REL_SPLIT, sym, ty);
  }

  /** Every `r_info` is the one built from its own symbol and type. */
  lemma RInfoJoin(info: u64)
    ensures RInfo(RSymbol(info), RType(info)) == info
  {
  }

  /** `st_info` as the gABI's `ELF64_ST_INFO(bind, type)` builds it. */
  function StInfo(bind: nat, ty: nat): (r: u8)
    requires bind < 16 && ty < 16
    ensures r >= bind * 16
  {
    bind * 16 + ty
  }

  /** `st_bind`: the high nibble of `st_info` (`>> 4` of an unsigned
      byte). */
  function StBind(info: u8): (r: nat)
    ensures r < 16 && r * 16 <= info < r * 16 + 16
  {
    info / 16
  }

  /** `st_type`: the low nibble of `st_info` (`& 0xf` of an unsigned
      byte). */
  function StType(info: u8): (r: nat)
    ensures r < 16 && info == StBind(info) * 16 + r
  {
    info % 16
  }

  lemma StInfoSplit(bind: nat, ty: nat)
    requires bind < 16 && ty < 16
    ensures StBind(StInfo(bind, ty)) == bind && StType(StInfo(bind, ty)) == ty
  {
    DivModUnique(StInfo(bind, ty), 16, bind, ty);
  }

  /** `is_undef`: the symbol is not defined in this object. */
  predicate IsUndef(s: Symbol)
  {
    s.stShndx == SHN_UNDEF
  }

  /** `is_ok_bind`: the symbol's binding is one lookup accepts. */
  function IsOkBind(s: Symbol): (r: bool)
    ensures r <==> StBind(s.stInfo) in {STB_GLOBAL, STB_WEAK, STB_GNU_UNIQUE}
  {
    var b := StBind(s.stInfo);
    ((1 as bv32) << b) & OK_BINDS != 0
  }

  /** `is_ok_type`: the symbol's type is one lookup accepts. */
  function IsOkType(s: Symbol): (r: bool)
    ensures r <==> StType(s.stInfo) in {STT_NOTYPE, STT_OBJECT, STT_FUNC, STT_COMMON, STT_TLS, STT_GNU_IFUNC}
  {
    var t := StType(s.stInfo);
    ((1 as bv32) << t) & OK_TYPES != 0
  }

  predicate IsLocal(s: Symbol)
  {
    StBind(s.stInfo) == STB_LOCAL
  }

  predicate IsWeak(s: Symbol)
  {
    StBind(s.stInfo) == STB_WEAK
  }

  /** A local symbol is never one the lookup accepts; a weak one always is. */
  lemma LocalNotOkWeakOk(s: Symbol)
    ensures IsLocal(s) ==> !IsOkBind(s)
    ensures IsWeak(s) ==> IsOkBind(s)
  {
  }
}
