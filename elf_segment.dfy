/** How the ELF loader turns program headers into mappings
    (vendor/elf_loader/src/segment.rs): page rounding, the protection
    flags of a segment, the one reservation that spans every loadable
    segment, and the fixed mapping of each further segment.

    Address arithmetic is `usize` arithmetic without overflow checks
    (`ElfArch.Wrap`). */
module ElfSegments {
  import opened Common
  import opened ElfArch

  const PAGE_SIZE: nat := 0x1000

  const PT_LOAD: nat := 1

  /** Segment permissions (`p_flags`). */
  const PF_X: bv32 := 1
  const PF_W: bv32 := 2
  const PF_R: bv32 := 4

  /** Memory protections (`ProtFlags`). */
  const PROT_READ: bv32 := 1
  const PROT_WRITE: bv32 := 2
  const PROT_EXEC: bv32 := 4

  /** An `Elf64_Phdr`, without the fields the mapping does not read. */
  datatype Phdr = Phdr(pType: u32, pFlags: bv32, pOffset: u64, pVaddr: u64, pFilesz: u64, pMemsz: u64)

  /** The arguments of one `mmap` call: the address (none lets the
      mapper choose), length, protection, whether `MAP_FIXED` joins
      `MAP_PRIVATE`, and the file range to read. */
  datatype MmapParam = MmapParam(
    addr: Option<u64>, len: u64, prot: bv32, fixed: bool, fileSz: u64, fileOffset: u64)

  /** `map_prot`: execute, write and read permission become the
      protections of the same names. */
  function MapProt(flags: bv32): (r: bv32)
    ensures r & PROT_EXEC != 0 <==> flags & PF_X != 0
    ensures r & PROT_WRITE != 0 <==> flags & PF_W != 0
    ensures r & PROT_READ != 0 <==> flags & PF_R != 0
    ensures r < 8
  {
    ((flags & PF_X) << 2) | (flags & PF_W) | ((flags & PF_R) >> 2)
  }

  /** Read and execute trade places, so mapping twice gives back the three
      permission bits. */
  lemma MapProtTwice(flags: bv32)
    ensures MapProt(MapProt(flags)) == flags & 7
  {
  }

  /** `rounddown`: the page holding `x`. */
  function Rounddown(x: u64): (r: u64)
    ensures r % PAGE_SIZE == 0 && r <= x < r + PAGE_SIZE
  {
    AlignDown(x, PAGE_SIZE)
  }

  /** `roundup`: the first page boundary at or above `x`, or 0 when adding
      `PAGE_SIZE - 1` wraps past the top of the address space. */
  function Roundup(x: u64): (r: u64)
    ensures x <= U64_MAX - (PAGE_SIZE - 1) ==> r % PAGE_SIZE == 0 && x <= r < x + PAGE_SIZE
    ensures x > U64_MAX - (PAGE_SIZE - 1) ==> r == 0
  {
    Rounddown(Wrap(x + PAGE_SIZE - 1))
  }

  /** A page boundary is its own rounding either way. */
  lemma RoundAligned(x: u64)
    requires x % PAGE_SIZE == 0
    ensures Rounddown(x) == x
    ensures x <= U64_MAX - (PAGE_SIZE - 1) ==> Roundup(x) == x
  {
    DivModUnique(x, PAGE_SIZE, x / PAGE_SIZE, 0);
    if x <= U64_MAX - (PAGE_SIZE - 1) {
      DivModUnique(x + PAGE_SIZE - 1, PAGE_SIZE, x / PAGE_SIZE, PAGE_SIZE - 1);
    }
  }

  /** Rounding down then up, or up then down, changes nothing more. */
  lemma RoundIdempotent(x: u64)
    ensures Roundup(Rounddown(x)) == Rounddown(x)
    ensures Rounddown(Roundup(x)) == Roundup(x)
  {
    RoundAligned(Rounddown(x));
    if x <= U64_MAX - (PAGE_SIZE - 1) {
      RoundAligned(Roundup(x));
    } else {
      RoundAligned(0);
    }
  }

  /** The end of a segment's memory image. */
  function End(p: Phdr): u64
  {
    Wrap(p.pVaddr + p.pMemsz)
  }

  predicate IsLoad(p: Phdr)
  {
    p.pType == PT_LOAD
  }

  /** The loadable header `parse_segments` keeps as the lowest, scanning
      from the front with a strict comparison against `usize::MAX`. */
  function LowestLoad(phdrs: seq<Phdr>): (r: Option<nat>)
    ensures r.Some? ==> r.value < |phdrs|
    decreases |phdrs|
  {
    if |phdrs| == 0 then None
    else
      var n := |phdrs| - 1;
      var m := LowestLoad(phdrs[..n]);
      var best := if m.None? then U64_MAX else phdrs[m.value].pVaddr;
      if IsLoad(phdrs[n]) && phdrs[n].pVaddr < best then Some(n) else m
  }

  /** The kept header is loadable, starts at or below every loadable
      header and strictly below every earlier one; without one, every
      loadable header starts at `usize::MAX`. */
  lemma {:induction false} LowestLoadIsLowest(phdrs: seq<Phdr>)
    ensures var r := LowestLoad(phdrs);
      && (r.Some? ==> IsLoad(phdrs[r.value]) && phdrs[r.value].pVaddr < U64_MAX)
      && (r.Some? ==> forall j :: 0 <= j < |phdrs| && IsLoad(phdrs[j]) ==> phdrs[r.value].pVaddr <= phdrs[j].pVaddr)
      && (r.Some? ==> forall j :: 0 <= j < r.value && IsLoad(phdrs[j]) ==> phdrs[r.value].pVaddr < phdrs[j].pVaddr)
      && (r.None? ==> forall j :: 0 <= j < |phdrs| && IsLoad(phdrs[j]) ==> phdrs[j].pVaddr == U64_MAX)
    decreases |phdrs|
  {
    if |phdrs| > 0 {
      var n := |phdrs| - 1;
      var init := phdrs[..n];
      LowestLoadIsLowest(init);
      assert forall j :: 0 <= j < n ==> init[j] == phdrs[j];
    }
  }

  /** The highest end of a loadable segment, 0 when there is none. */
  function HighestEnd(phdrs: seq<Phdr>): (r: u64)
    decreases |phdrs|
  {
    if |phdrs| == 0 then 0
    else
      var n := |phdrs| - 1;
      var m := HighestEnd(phdrs[..n]);
      if IsLoad(phdrs[n]) && End(phdrs[n]) > m then End(phdrs[n]) else m
  }

  /** The highest end bounds every loadable segment's end and is one of
      them, or 0. */
  lemma {:induction false} HighestEndIsHighest(phdrs: seq<Phdr>)
    ensures forall j :: 0 <= j < |phdrs| && IsLoad(phdrs[j]) ==> End(phdrs[j]) <= HighestEnd(phdrs)
    ensures HighestEnd(phdrs) == 0 || exists j :: 0 <= j < |phdrs| && IsLoad(phdrs[j]) && End(phdrs[j]) == HighestEnd(phdrs)
    decreases |phdrs|
  {
    if |phdrs| > 0 {
      var n := |phdrs| - 1;
      var init := phdrs[..n];
      HighestEndIsHighest(init);
      assert forall j :: 0 <= j < n ==> init[j] == phdrs[j];
      if HighestEnd(phdrs) != 0 && HighestEnd(phdrs) == HighestEnd(init) {
        var j :| 0 <= j < n && IsLoad(init[j]) && End(init[j]) == HighestEnd(init);
        assert IsLoad(phdrs[j]) && End(phdrs[j]) == HighestEnd(phdrs);
      }
    }
  }

  /** The fields `parse_segments` keeps of the lowest loadable header:
      start, file offset, file size, permissions and memory size. */
  datatype LowFields = LowFields(vaddr: u64, offset: u64, filesz: u64, flags: bv32, memsz: u64)

  function Lowest(phdrs: seq<Phdr>): (r: LowFields)
    ensures LowestLoad(phdrs).None? ==> r == LowFields(U64_MAX, 0, 0, 0, 0)
  {
    match LowestLoad(phdrs)
    case None => LowFields(U64_MAX, 0, 0, 0, 0)
    case Some(k) =>
      var p := phdrs[k];
      LowFields(p.pVaddr, p.pOffset, p.pFilesz, p.pFlags, p.pMemsz)
  }

  /** One more header replaces the kept fields exactly when it is loadable
      and starts strictly lower. */
  lemma LowestStep(phdrs: seq<Phdr>, i: nat)
    requires i < |phdrs|
    ensures var prev := Lowest(phdrs[..i]);
      var p := phdrs[i];
      Lowest(phdrs[..i + 1])
        == if IsLoad(p) && p.pVaddr < prev.vaddr
           then LowFields(p.pVaddr, p.pOffset, p.pFilesz, p.pFlags, p.pMemsz)
           else prev
    ensures HighestEnd(phdrs[..i + 1])
        == if IsLoad(phdrs[i]) && End(phdrs[i]) > HighestEnd(phdrs[..i]) then End(phdrs[i]) else HighestEnd(phdrs[..i])
  {
    assert phdrs[..i + 1][..i] == phdrs[..i];
    var m := LowestLoad(phdrs[..i]);
    if m.Some? {
      assert phdrs[..i][m.value] == phdrs[..i + 1][m.value] == phdrs[m.value];
    }
  }

  /** `parse_segments`: one pass over the headers for the lowest start
      and the highest end, then the reservation from the page below the
      lowest start to the page above the highest end, with the lowest
      segment's protection and file range.  Also returns the start of the
      reservation and the page end of the lowest segment. */
  method ParseSegments(phdrs: seq<Phdr>, isDylib: bool) returns (param: MmapParam, minVaddr: u64, minEnd: u64)
    ensures var low := Lowest(phdrs);
      && minVaddr == Rounddown(low.vaddr)
      && param.addr == (if isDylib then None else Some(minVaddr))
      && param.len == Wrap(Roundup(HighestEnd(phdrs)) - minVaddr)
      && param.prot == MapProt(low.flags)
      && !param.fixed
      && param.fileSz == low.filesz
      && param.fileOffset == low.offset
      && minEnd == Roundup(Wrap(minVaddr + low.memsz))
  {
    var low := LowFields(U64_MAX, 0, 0, 0, 0);
    var highVaddr: u64 := 0;
    var i := 0;
    while i < |phdrs|
      invariant i <= |phdrs|
      invariant highVaddr == HighestEnd(phdrs[..i])
      invariant low == Lowest(phdrs[..i])
    {
      LowestStep(phdrs, i);
      var p := phdrs[i];
      if IsLoad(p) {
        var vaddrEnd := End(p);
        if p.pVaddr < low.vaddr {
          low := LowFields(p.pVaddr, p.pOffset, p.pFilesz, p.pFlags, p.pMemsz);
        }
        if vaddrEnd > highVaddr {
          highVaddr := vaddrEnd;
        }
      }
      assert highVaddr == HighestEnd(phdrs[..i + 1]);
      i := i + 1;
    }
    assert phdrs[..|phdrs|] == phdrs;
    assert highVaddr == HighestEnd(phdrs) && low == Lowest(phdrs);
    var maxVaddr := Roundup(highVaddr);
    minVaddr := Rounddown(low.vaddr);
    var totalSize := Wrap(maxVaddr - minVaddr);
    param := MmapParam(if isDylib then None else Some(minVaddr), totalSize, MapProt(low.flags), false, low.filesz, low.offset);
    minEnd := Roundup(Wrap(minVaddr + low.memsz));
  }

  /** The reservation covers every loadable segment that ends below the
      last page of the address space. */
  lemma ReservationCovers(phdrs: seq<Phdr>, j: nat)
    requires j < |phdrs| && IsLoad(phdrs[j])
    requires phdrs[j].pVaddr + phdrs[j].pMemsz <= U64_MAX - (PAGE_SIZE - 1)
    requires HighestEnd(phdrs) <= U64_MAX - (PAGE_SIZE - 1)
    ensures var low := LowestLoad(phdrs);
      low.Some?
      && Rounddown(phdrs[low.value].pVaddr) <= phdrs[j].pVaddr
      && phdrs[j].pVaddr + phdrs[j].pMemsz <= Roundup(HighestEnd(phdrs))
  {
    LowestLoadIsLowest(phdrs);
    HighestEndIsHighest(phdrs);
  }

  /** `parse_segment`: the fixed mapping of one loadable segment at the
      load base, or none for the segment at the reservation's start, which
      `parse_segments` has mapped already. */
  function ParseSegment(addrMin: u64, base: u64, p: Phdr): (r: Option<MmapParam>)
    ensures r.None? <==> addrMin == Rounddown(p.pVaddr)
    ensures r.Some? ==>
      r.value.fixed && r.value.prot == MapProt(p.pFlags)
      && r.value.addr == Some(Wrap(Rounddown(p.pVaddr) + base))
    ensures r.Some? ==>
      r.value.fileOffset % PAGE_SIZE == 0
      && r.value.fileOffset <= p.pOffset < r.value.fileOffset + PAGE_SIZE
    ensures r.Some? && p.pOffset + p.pFilesz < U64_SPLIT ==>
      r.value.fileOffset + r.value.fileSz == p.pOffset + p.pFilesz
    ensures r.Some? && p.pVaddr + p.pMemsz <= U64_MAX - (PAGE_SIZE - 1) ==>
      Rounddown(p.pVaddr) + r.value.len >= p.pVaddr + p.pMemsz
  {
    var minVaddr := Rounddown(p.pVaddr);
    var maxVaddr := Roundup(End(p));
    var memsz := Wrap(maxVaddr - minVaddr);
    var offset := Rounddown(p.pOffset);
    var alignLen := p.pOffset - offset;
    var filesz := Wrap(p.pFilesz + alignLen);
    if addrMin != minVaddr then
      Some(MmapParam(Some(Wrap(minVaddr + base)), memsz, MapProt(p.pFlags), true, filesz, offset))
    else
      None
  }
}
