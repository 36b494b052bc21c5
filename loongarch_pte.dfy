/** The LoongArch page-table entry (ostd/src/arch/loongarch/mm/mod.rs): a
    64-bit word holding a physical address and the flag bits of the
    LoongArch page-table format, plus software bits the MMU ignores.

    A page property is its `PageFlags` byte and its `PrivilegedPageFlags`
    byte (ostd/src/mm/page_prop.rs).  The cache policy the source's `prop`
    decodes from the MAT bits is not part of this model: `set_prop` never
    writes those bits. */
module LoongArchPte {

  const PHYS_ADDR_MASK: bv64 := 0x0000_ffff_ffff_f000
  const FLAGS_MASK: bv64 := 0xe400_0000_0000_01ff

  // PageTableFlags
  const VALID: bv64 := 1
  const DIRTY: bv64 := 2
  const PLV_LOW: bv64 := 4
  const PLV_HIGH: bv64 := 8
  const MAT_LOW: bv64 := 0x10
  const MAT_HIGH: bv64 := 0x20
  const GLOBAL_COMMON: bv64 := 0x40
  const PHYSICAL: bv64 := 0x80
  const WRITABLE: bv64 := 0x100
  const GLOBAL_HUGE: bv64 := 0x1000
  const HUGE_MARKER: bv64 := 0x0400_0000_0000_0000
  const HUGE: bv64 := 0x0400_0000_0000_0040
  const RSV1: bv64 := 0x0800_0000_0000_0000
  const RSV2: bv64 := 0x1000_0000_0000_0000
  const NO_READ: bv64 := 0x2000_0000_0000_0000
  const NO_EXECUTE: bv64 := 0x4000_0000_0000_0000

  // PageFlags
  const R: bv8 := 1
  const W: bv8 := 2
  const X: bv8 := 4
  const ACCESSED: bv8 := 8
  const PF_DIRTY: bv8 := 0x10
  const AVAIL1: bv8 := 0x40
  const AVAIL2: bv8 := 0x80

  // PrivilegedPageFlags
  const USER: bv8 := 1
  const GLOBAL: bv8 := 2

  // Each `parse_flags!` term of the source moves one bit of its operand to
  // another position; below that is written as a test of the bit.

  /** `paddr` as written: the bits under `PHYS_ADDR_MASK`.  On a huge
      entry bit 12 is the GLOBAL_HUGE flag, which this mask keeps. */
  function PaddrAsWritten(pte: bv64): (r: bv64)
    ensures r & !PHYS_ADDR_MASK == 0
  {
    pte & PHYS_ADDR_MASK
  }

  /** `paddr`: the address bits, without the GLOBAL_HUGE flag on a huge
      entry.  (The huge marker, bit 58, shifted down by 46 is bit 12.) */
  function Paddr(pte: bv64): (r: bv64)
    ensures r & !PHYS_ADDR_MASK == 0
  {
    pte & PHYS_ADDR_MASK & !((pte & HUGE_MARKER) >> 46)
  }

  /** The address differs from the source's masked bits only in the
      GLOBAL_HUGE bit of a huge entry. */
  lemma PaddrCases(pte: bv64)
    ensures pte & HUGE_MARKER == 0 ==> Paddr(pte) == PaddrAsWritten(pte)
    ensures pte & HUGE_MARKER != 0 ==> Paddr(pte) == PaddrAsWritten(pte) & !GLOBAL_HUGE
  {
  }

  /** `is_present`: a non-zero address, and either no flag bit at all (an
      entry that points to a child table) or the VALID bit. */
  predicate IsPresent(pte: bv64)
  {
    Paddr(pte) != 0 && (pte & FLAGS_MASK == 0 || pte & VALID != 0)
  }

  /** `is_last`: a level-1 entry, or one carrying the huge marker. */
  predicate IsLast(pte: bv64, level: nat)
  {
    level == 1 || pte & HUGE_MARKER != 0
  }

  /** `new_absent`: the all-zero entry. */
  const ABSENT: bv64 := 0

  /** `new_pt`: just the table's address. */
  function NewPt(paddr: bv64): (r: bv64)
  {
    paddr & PHYS_ADDR_MASK
  }

  /** The flag bits `set_prop` computes for a present entry. */
  function PropBits(pte: bv64, flags: bv8, priv: bv8): (f: bv64)
    ensures f & HUGE_MARKER == 0
    ensures f & PHYS_ADDR_MASK & !GLOBAL_HUGE == 0
    ensures pte & HUGE_MARKER == 0 ==> f & PHYS_ADDR_MASK == 0
    ensures pte & FLAGS_MASK == 0 ==> f & FLAGS_MASK == 0
  {
    var f := VALID | PHYSICAL | DIRTY
      | (if flags & R == 0 then NO_READ else 0)
      | (if flags & W != 0 then WRITABLE else 0)
      | (if flags & X == 0 then NO_EXECUTE else 0)
      | (if flags & AVAIL1 != 0 then RSV1 else 0)
      | (if flags & AVAIL2 != 0 then RSV2 else 0)
      | (if priv & USER != 0 then PLV_LOW | PLV_HIGH else 0)
      | (if pte & HUGE_MARKER != 0
         then (if priv & GLOBAL != 0 then GLOBAL_HUGE else 0) | GLOBAL_COMMON
         else (if priv & GLOBAL != 0 then GLOBAL_COMMON else 0));
    if pte & FLAGS_MASK == 0 then f & 0x1FFF_0000_0000_0000 else f
  }

  /** `set_prop` as written: nothing on an absent entry; otherwise the
      bits under the address mask and the huge marker are kept and every
      other bit comes from the property.  On a huge entry the mask keeps
      bit 12, the GLOBAL_HUGE flag, so a global huge page stays global. */
  function SetPropAsWritten(pte: bv64, flags: bv8, priv: bv8): bv64
  {
    if !IsPresent(pte) then pte
    else (pte & (PHYS_ADDR_MASK | HUGE_MARKER)) | PropBits(pte, flags, priv)
  }

  /** `set_prop`: nothing on an absent entry; otherwise the address and
      the huge marker are kept and every other bit, GLOBAL_HUGE included,
      comes from the property. */
  function SetProp(pte: bv64, flags: bv8, priv: bv8): bv64
  {
    if !IsPresent(pte) then pte
    else (pte & (PHYS_ADDR_MASK | HUGE_MARKER) & !((pte & HUGE_MARKER) >> 46)) | PropBits(pte, flags, priv)
  }

  /** `set_prop` leaves an absent entry alone, and keeps the address and
      the huge marker of a present one. */
  lemma SetPropKeeps(pte: bv64, flags: bv8, priv: bv8)
    ensures !IsPresent(pte) ==> SetProp(pte, flags, priv) == pte
    ensures IsPresent(pte) ==> Paddr(SetProp(pte, flags, priv)) == Paddr(pte)
    ensures SetProp(pte, flags, priv) & HUGE_MARKER == pte & HUGE_MARKER
  {
    if IsPresent(pte) {
      SetPropPresent(pte, flags, priv);
      PaddrKept(pte, PropBits(pte, flags, priv), SetProp(pte, flags, priv));
    }
  }

  lemma SetPropPresent(pte: bv64, flags: bv8, priv: bv8)
    requires IsPresent(pte)
    ensures SetProp(pte, flags, priv) == (pte & (PHYS_ADDR_MASK | HUGE_MARKER) & !((pte & HUGE_MARKER) >> 46)) | PropBits(pte, flags, priv)
  {
  }

  lemma PaddrKept(pte: bv64, f: bv64, n: bv64)
    requires f & HUGE_MARKER == 0
    requires f & PHYS_ADDR_MASK & !GLOBAL_HUGE == 0
    requires pte & HUGE_MARKER == 0 ==> f & PHYS_ADDR_MASK == 0
    requires n == (pte & (PHYS_ADDR_MASK | HUGE_MARKER) & !((pte & HUGE_MARKER) >> 46)) | f
    ensures Paddr(n) == Paddr(pte)
  {
  }

  /** The entry `new_page` builds before setting the property: the
      address, the huge bits above level 1, and VALID. */
  function NewPageBase(paddr: bv64, level: nat): bv64
  {
    NewPt(paddr) | (if level > 1 then HUGE else 0) | VALID
  }

  /** `new_page`: the base entry with the property set. */
  function NewPage(paddr: bv64, level: nat, flags: bv8, priv: bv8): bv64
  {
    SetProp(NewPageBase(paddr, level), flags, priv)
  }

  /** `prop`'s page flags: R unless NO_READ, W from WRITABLE, X unless
      NO_EXECUTE, DIRTY, AVAIL1/2 from RSV1/2, and ACCESSED always. */
  function PropFlags(pte: bv64): bv8
  {
    (if pte & NO_READ == 0 then R else 0)
    | (if pte & WRITABLE != 0 then W else 0)
    | (if pte & NO_EXECUTE == 0 then X else 0)
    | (if pte & DIRTY != 0 then PF_DIRTY else 0)
    | (if pte & RSV1 != 0 then AVAIL1 else 0)
    | (if pte & RSV2 != 0 then AVAIL2 else 0)
    | ACCESSED
  }

  /** `prop`'s privilege flags: USER when both PLV bits are set; GLOBAL,
      for an entry with flag bits, from GLOBAL_HUGE on a huge entry and
      from GLOBAL_COMMON otherwise. */
  function PropPriv(pte: bv64): bv8
  {
    var user: bv8 := if pte & PLV_LOW != 0 && pte & PLV_HIGH != 0 then USER else 0;
    var global: bv8 :=
      if pte & FLAGS_MASK == 0 then 0
      else if pte & HUGE_MARKER != 0 then (if pte & GLOBAL_HUGE != 0 then GLOBAL else 0)
      else (if pte & GLOBAL_COMMON != 0 then GLOBAL else 0);
    user | global
  }

  /** The absent entry is not present. */
  lemma AbsentIsNone()
    ensures !IsPresent(ABSENT) && Paddr(ABSENT) == 0
  {
  }

  /** An entry for a child table holds the table's address, is present
      when that address is not zero, and is never last above level 1. */
  lemma NewPtShape(paddr: bv64, level: nat)
    requires level > 1
    ensures Paddr(NewPt(paddr)) == paddr & PHYS_ADDR_MASK
    ensures IsPresent(NewPt(paddr)) <==> paddr & PHYS_ADDR_MASK != 0
    ensures !IsLast(NewPt(paddr), level)
  {
    var pte := paddr & PHYS_ADDR_MASK;
    assert pte & HUGE_MARKER == 0;
    assert pte & FLAGS_MASK == 0;
    assert Paddr(pte) == pte;
  }

  /* The facts about the base entry are proved one lemma each: the solver
     decides each of them quickly on its own and not their conjunction. */

  /** The base entry of a page holds the page's address. */
  lemma NewPageBaseAddress(paddr: bv64, level: nat)
    requires level > 1 ==> paddr & GLOBAL_HUGE == 0
    ensures Paddr(NewPageBase(paddr, level)) == paddr & PHYS_ADDR_MASK
  {
    if level > 1 {
      HugeAddress(paddr, NewPageBase(paddr, level));
    } else {
      SmallAddress(paddr, NewPageBase(paddr, level));
    }
  }

  lemma HugeAddress(paddr: bv64, pte: bv64)
    requires paddr & GLOBAL_HUGE == 0
    requires pte == (paddr & PHYS_ADDR_MASK) | HUGE | VALID
    ensures Paddr(pte) == paddr & PHYS_ADDR_MASK
  {
  }

  lemma SmallAddress(paddr: bv64, pte: bv64)
    requires pte == (paddr & PHYS_ADDR_MASK) | 0 | VALID
    ensures Paddr(pte) == paddr & PHYS_ADDR_MASK
  {
  }

  /** The base entry of a page has flag bits: VALID. */
  lemma NewPageBaseValid(paddr: bv64, level: nat)
    ensures NewPageBase(paddr, level) & VALID != 0
    ensures NewPageBase(paddr, level) & FLAGS_MASK != 0
  {
  }

  /** The base entry of a page carries the huge marker exactly above
      level 1. */
  lemma NewPageBaseHuge(paddr: bv64, level: nat)
    ensures NewPageBase(paddr, level) & HUGE_MARKER != 0 <==> level > 1
  {
  }

  /** A huge base entry leaves GLOBAL_HUGE clear when the address does. */
  lemma NewPageBaseGlobalClear(paddr: bv64, level: nat)
    requires level > 1 ==> paddr & GLOBAL_HUGE == 0
    ensures NewPageBase(paddr, level) & HUGE_MARKER != 0 ==> NewPageBase(paddr, level) & GLOBAL_HUGE == 0
  {
  }

  /** A page entry holds the page's address.  (A huge page's address is
      aligned, so its bit 12 is clear.) */
  lemma NewPageAddress(paddr: bv64, level: nat, flags: bv8, priv: bv8)
    requires level > 1 ==> paddr & GLOBAL_HUGE == 0
    ensures Paddr(NewPage(paddr, level, flags, priv)) == paddr & PHYS_ADDR_MASK
  {
    NewPageBaseAddress(paddr, level);
    SetPropKeeps(NewPageBase(paddr, level), flags, priv);
  }

  /** A page entry is last at its own level; above level 1 it carries the
      huge marker. */
  lemma NewPageLast(paddr: bv64, level: nat, flags: bv8, priv: bv8)
    requires level >= 1
    ensures IsLast(NewPage(paddr, level, flags, priv), level)
    ensures NewPage(paddr, level, flags, priv) & HUGE_MARKER != 0 <==> level > 1
  {
    NewPageBaseHuge(paddr, level);
    SetPropKeeps(NewPageBase(paddr, level), flags, priv);
  }

  /** A page entry is present exactly when the address is not zero: a
      page at physical address 0 makes an absent entry. */
  lemma NewPagePresent(paddr: bv64, level: nat, flags: bv8, priv: bv8)
    requires level > 1 ==> paddr & GLOBAL_HUGE == 0
    ensures IsPresent(NewPage(paddr, level, flags, priv)) <==> paddr & PHYS_ADDR_MASK != 0
  {
    var pte0 := NewPageBase(paddr, level);
    NewPageBaseAddress(paddr, level);
    NewPageBaseValid(paddr, level);
    SetPropKeeps(pte0, flags, priv);
    if IsPresent(pte0) {
      PropBitsFlags(pte0, flags, priv);
      SetPropPresent(pte0, flags, priv);
      ValidKept(pte0, PropBits(pte0, flags, priv), SetProp(pte0, flags, priv));
    }
  }

  lemma ValidKept(pte: bv64, f: bv64, n: bv64)
    requires f & VALID != 0
    requires n == (pte & (PHYS_ADDR_MASK | HUGE_MARKER) & !((pte & HUGE_MARKER) >> 46)) | f
    ensures n & VALID != 0
  {
  }

  /** On an entry with flag bits, `set_prop` writes VALID and DIRTY and
      one bit for each page flag. */
  lemma PropBitsFlags(pte: bv64, flags: bv8, priv: bv8)
    requires pte & FLAGS_MASK != 0
    ensures var f := PropBits(pte, flags, priv);
      && f & VALID != 0 && f & DIRTY != 0
      && (f & NO_READ != 0 <==> flags & R == 0)
      && (f & WRITABLE != 0 <==> flags & W != 0)
      && (f & NO_EXECUTE != 0 <==> flags & X == 0)
      && (f & RSV1 != 0 <==> flags & AVAIL1 != 0)
      && (f & RSV2 != 0 <==> flags & AVAIL2 != 0)
  {
  }

  /** On an entry with flag bits, `set_prop` writes both PLV bits for USER
      and the GLOBAL bit that suits the entry's kind. */
  lemma PropBitsPriv(pte: bv64, flags: bv8, priv: bv8)
    requires pte & FLAGS_MASK != 0
    ensures var f := PropBits(pte, flags, priv);
      && (f & PLV_LOW != 0 <==> priv & USER != 0)
      && (f & PLV_HIGH != 0 <==> priv & USER != 0)
      && (pte & HUGE_MARKER != 0 ==> (f & GLOBAL_HUGE != 0 <==> priv & GLOBAL != 0))
      && (pte & HUGE_MARKER == 0 ==> (f & GLOBAL_COMMON != 0 <==> priv & GLOBAL != 0))
  {
  }

  /** `prop` reads each page flag from its own bit. */
  lemma PropFlagsBits(n: bv64, flags: bv8)
    requires n & DIRTY != 0
    requires n & NO_READ != 0 <==> flags & R == 0
    requires n & WRITABLE != 0 <==> flags & W != 0
    requires n & NO_EXECUTE != 0 <==> flags & X == 0
    requires n & RSV1 != 0 <==> flags & AVAIL1 != 0
    requires n & RSV2 != 0 <==> flags & AVAIL2 != 0
    ensures PropFlags(n) == (flags & 0xC7) | ACCESSED | PF_DIRTY
  {
  }

  /** The page flags set on a present entry with flag bits read back:
      R, W, X, AVAIL1 and AVAIL2 as given, plus ACCESSED and DIRTY. */
  lemma SetPropFlagsReadBack(pte: bv64, flags: bv8, priv: bv8)
    requires IsPresent(pte) && pte & FLAGS_MASK != 0
    ensures PropFlags(SetProp(pte, flags, priv)) == (flags & 0xC7) | ACCESSED | PF_DIRTY
  {
    var f := PropBits(pte, flags, priv);
    var n := (pte & (PHYS_ADDR_MASK | HUGE_MARKER) & !((pte & HUGE_MARKER) >> 46)) | f;
    PropBitsFlags(pte, flags, priv);
    PropFlagsBits(n, flags);
  }

  /** The privileges set on a present entry with flag bits read back,
      whatever GLOBAL the entry had before. */
  lemma SetPropPrivReadBack(pte: bv64, flags: bv8, priv: bv8)
    requires IsPresent(pte) && pte & FLAGS_MASK != 0
    ensures PropPriv(SetProp(pte, flags, priv)) == priv & (USER | GLOBAL)
  {
    var f := PropBits(pte, flags, priv);
    var n := (pte & (PHYS_ADDR_MASK | HUGE_MARKER) & !((pte & HUGE_MARKER) >> 46)) | f;
    PropBitsPriv(pte, flags, priv);
    PropBitsFlags(pte, flags, priv);
    assert n & FLAGS_MASK != 0;
  }

  /** Reading back the property of a page entry gives the property it was
      made with. */
  lemma PropRoundTrip(paddr: bv64, level: nat, flags: bv8, priv: bv8)
    requires paddr & PHYS_ADDR_MASK != 0
    requires level > 1 ==> paddr & GLOBAL_HUGE == 0
    ensures PropFlags(NewPage(paddr, level, flags, priv)) == (flags & 0xC7) | ACCESSED | PF_DIRTY
    ensures PropPriv(NewPage(paddr, level, flags, priv)) == priv & (USER | GLOBAL)
  {
    var pte0 := NewPageBase(paddr, level);
    NewPageBaseAddress(paddr, level);
    NewPageBaseValid(paddr, level);
    NewPageBaseGlobalClear(paddr, level);
    SetPropFlagsReadBack(pte0, flags, priv);
    SetPropPrivReadBack(pte0, flags, priv);
  }

  /** `set_prop` with the property an entry already has leaves a page
      entry as it is. */
  lemma SetPropTwice(paddr: bv64, level: nat, flags: bv8, priv: bv8)
    ensures var pte := NewPage(paddr, level, flags, priv);
      SetProp(pte, flags, priv) == pte
  {
    var pte0 := NewPageBase(paddr, level);
    NewPageBaseValid(paddr, level);
    if IsPresent(pte0) {
      SetPropIdempotent(pte0, flags, priv);
    }
  }

  /** Setting the same property twice on a present entry with the VALID
      bit is the same as setting it once. */
  lemma SetPropIdempotent(pte: bv64, flags: bv8, priv: bv8)
    requires IsPresent(pte) && pte & VALID != 0
    ensures SetProp(SetProp(pte, flags, priv), flags, priv) == SetProp(pte, flags, priv)
  {
  }

  /** A present entry with flag bits stays present, with the VALID bit,
      after `set_prop`. */
  lemma SetPropStaysValid(pte: bv64, flags: bv8, priv: bv8)
    requires IsPresent(pte) && pte & FLAGS_MASK != 0
    ensures IsPresent(SetProp(pte, flags, priv))
    ensures SetProp(pte, flags, priv) & VALID != 0
  {
    PropBitsFlags(pte, flags, priv);
    SetPropPresent(pte, flags, priv);
    SetPropKeeps(pte, flags, priv);
    ValidKept(pte, PropBits(pte, flags, priv), SetProp(pte, flags, priv));
  }

  /** `set_prop` on a present entry without flag bits (one that points to
      a child table) leaves it without flag bits. */
  lemma SetPropNoFlags(pte: bv64, flags: bv8, priv: bv8)
    requires pte & FLAGS_MASK == 0
    ensures SetProp(pte, flags, priv) & FLAGS_MASK == 0
  {
    if IsPresent(pte) {
      SetPropPresent(pte, flags, priv);
      NoFlagsKept(pte, PropBits(pte, flags, priv), SetProp(pte, flags, priv));
    }
  }

  lemma NoFlagsKept(pte: bv64, f: bv64, n: bv64)
    requires pte & FLAGS_MASK == 0 && f & FLAGS_MASK == 0
    requires n == (pte & (PHYS_ADDR_MASK | HUGE_MARKER) & !((pte & HUGE_MARKER) >> 46)) | f
    ensures n & FLAGS_MASK == 0
  {
  }

  /** Building a global huge page at 2 MiB and reading its address back
      with the source's mask gives the next 4 KiB page: the GLOBAL_HUGE
      flag lands in the lowest address bit the mask keeps. */
  lemma HugeGlobalPaddrAsWritten()
    ensures PaddrAsWritten(NewPage(0x20_0000, 2, R | W, GLOBAL)) == 0x20_1000
    ensures Paddr(NewPage(0x20_0000, 2, R | W, GLOBAL)) == 0x20_0000
  {
    NewPageAddress(0x20_0000, 2, R | W, GLOBAL);
    var pte0 := NewPageBase(0x20_0000, 2);
    assert pte0 == 0x0400_0000_0020_0041;
    SetPropPresent(pte0, R | W, GLOBAL);
  }

  /** With the source's `set_prop`, a global huge page cannot be made
      non-global: the kept mask holds on to the GLOBAL_HUGE bit, so the
      entry reads back GLOBAL after a property without it is set.  The
      corrected `SetProp` clears it (see `SetPropPrivReadBack`). */
  lemma SetPropAsWrittenKeepsGlobal()
    ensures var pte := NewPage(0x20_0000, 2, R | W, GLOBAL);
      && PropPriv(SetPropAsWritten(pte, R | W, 0)) == GLOBAL
      && PropPriv(SetProp(pte, R | W, 0)) == 0
  {
    var pte0 := NewPageBase(0x20_0000, 2);
    assert pte0 == 0x0400_0000_0020_0041;
    SetPropPresent(pte0, R | W, GLOBAL);
    var pte := NewPage(0x20_0000, 2, R | W, GLOBAL);
    assert pte == 0x4400_0000_0020_11C3;
  }

  /** A page-table entry in memory: `set_prop` rewrites its word in
      place. */
  class Entry {
    var bits: bv64

    constructor(bits: bv64)
      ensures this.bits == bits
    {
      this.bits := bits;
    }

    /** `set_prop`: the new word is the property written into the old
        one; an absent entry is left alone and a present one keeps its
        address and its huge marker. */
    method SetPropInPlace(flags: bv8, priv: bv8)
      modifies this
      ensures bits == SetProp(old(bits), flags, priv)
      ensures !IsPresent(old(bits)) ==> bits == old(bits)
      ensures IsPresent(old(bits)) ==> Paddr(bits) == Paddr(old(bits))
      ensures bits & HUGE_MARKER == old(bits) & HUGE_MARKER
    {
      SetPropKeeps(bits, flags, priv);
      bits := SetProp(bits, flags, priv);
    }
  }
}
