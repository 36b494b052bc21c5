/** The `.dynamic` section of the ELF loader
    (vendor/elf_loader/src/dynamic.rs): the scan over its entries up to
    `DT_NULL`, and the `ElfDynamic` built from what the scan found.

    The section is the sequence of its entries; the scan reads entries
    through a raw pointer until it meets `DT_NULL`, so a section without
    one makes it read past the end, the fault outcome here.  A failed
    `assert!`, an `unwrap` of `None` and an `unwrap_unchecked` of `None`
    are the same fault outcome.  Address arithmetic wraps at 2^64. */
module ElfDynamics {
  import opened Common
  import opened ElfArch
  import ElfRelocations

  /** Dynamic tags (System V gABI, "Dynamic Section", and the GNU
      extensions). */
  const DT_NULL: int := 0
  const DT_NEEDED: int := 1
  const DT_PLTRELSZ: int := 2
  const DT_PLTGOT: int := 3
  const DT_HASH: int := 4
  const DT_STRTAB: int := 5
  const DT_SYMTAB: int := 6
  const DT_RELA: int := 7
  const DT_RELASZ: int := 8
  const DT_INIT: int := 12
  const DT_FINI: int := 13
  const DT_RPATH: int := 15
  const DT_REL: int := 17
  const DT_RELSZ: int := 18
  const DT_PLTREL: int := 20
  const DT_JMPREL: int := 23
  const DT_INIT_ARRAY: int := 25
  const DT_FINI_ARRAY: int := 26
  const DT_INIT_ARRAYSZ: int := 27
  const DT_FINI_ARRAYSZ: int := 28
  const DT_RUNPATH: int := 29
  const DT_FLAGS: int := 30
  const DT_RELRSZ: int := 35
  const DT_RELR: int := 36
  const DT_GNU_HASH: int := 0x6fff_fef5
  const DT_VERSYM: int := 0x6fff_fff0
  const DT_RELACOUNT: int := 0x6fff_fff9
  const DT_RELCOUNT: int := 0x6fff_fffa
  const DT_FLAGS_1: int := 0x6fff_fffb
  const DT_VERDEF: int := 0x6fff_fffc
  const DT_VERDEFNUM: int := 0x6fff_fffd
  const DT_VERNEED: int := 0x6fff_fffe
  const DT_VERNEEDNUM: int := 0x6fff_ffff

  /** `DF_BIND_NOW` (0x8) in `DT_FLAGS` and `DF_1_NOW` (0x1) in
      `DT_FLAGS_1`, as bit positions. */
  const DF_BIND_NOW_BIT: nat := 3
  const DF_1_NOW_BIT: nat := 0

  /** Entry sizes of `ElfRela`, `ElfRelr` and `fn()`. */
  const RELA_ENTRY: nat := 24
  const WORD_ENTRY: nat := 8

  /** An `Elf64_Dyn`. */
  datatype Dyn = Dyn(tag: i64, val: u64)

  /** What the tag scan collects, before the load base is added. */
  datatype DynScan = DynScan(
    flags: u64, flags1: u64, gotOff: Option<u64>, needed: seq<u64>,
    elfHashOff: Option<u64>, gnuHashOff: Option<u64>, symtabOff: u64, strtabOff: u64,
    pltrelSize: Option<u64>, isRela: Option<bool>, pltrelOff: Option<u64>,
    relrOff: Option<u64>, relOff: Option<u64>, relSize: Option<u64>, relrSize: Option<u64>,
    relCount: Option<u64>, initOff: Option<u64>, finiOff: Option<u64>,
    initArrayOff: Option<u64>, initArraySize: Option<u64>,
    finiArrayOff: Option<u64>, finiArraySize: Option<u64>,
    versymOff: Option<u64>, verneedOff: Option<u64>, verneedNum: Option<u64>,
    verdefOff: Option<u64>, verdefNum: Option<u64>,
    rpathOff: Option<u64>, runpathOff: Option<u64>)

  /** The index of the first `DT_NULL` entry at or after `i`. */
  function FirstNull(es: seq<Dyn>, i: nat): (r: Option<nat>)
    ensures r.Some? ==> i <= r.value < |es| && es[r.value].tag == DT_NULL
    ensures r.Some? ==> forall k :: i <= k < r.value ==> es[k].tag != DT_NULL
    ensures r.None? ==> forall k :: i <= k < |es| ==> es[k].tag != DT_NULL
    decreases |es| - i
  {
    if i >= |es| then None
    else if es[i].tag == DT_NULL then Some(i)
    else FirstNull(es, i + 1)
  }

  /** The last entry whose tag is one of `tags`. */
  function LastOf(es: seq<Dyn>, tags: set<int>): Option<Dyn>
    decreases |es|
  {
    if |es| == 0 then None
    else if es[|es| - 1].tag in tags then Some(es[|es| - 1])
    else LastOf(es[..|es| - 1], tags)
  }

  /** `LastOf` finds an entry with one of the tags, after which none has
      one; it finds nothing exactly when no entry has one. */
  lemma {:induction false} LastOfIsLast(es: seq<Dyn>, tags: set<int>)
    ensures LastOf(es, tags).None? <==> forall k :: 0 <= k < |es| ==> es[k].tag !in tags
    ensures LastOf(es, tags).Some? ==>
      exists i :: 0 <= i < |es| && es[i] == LastOf(es, tags).value && es[i].tag in tags
        && forall k :: i < k < |es| ==> es[k].tag !in tags
    decreases |es|
  {
    if |es| > 0 && es[|es| - 1].tag !in tags {
      var init := es[..|es| - 1];
      LastOfIsLast(init, tags);
      if LastOf(init, tags).Some? {
        var i :| 0 <= i < |init| && init[i] == LastOf(init, tags).value && init[i].tag in tags
          && forall k :: i < k < |init| ==> init[k].tag !in tags;
        assert es[i] == init[i];
      }
    }
  }

  function ValOf(d: Option<Dyn>): Option<u64>
  {
    if d.Some? then Some(d.value.val) else None
  }

  /** The last value of a tag, 0 when it is absent. */
  function LastVal(es: seq<Dyn>, tag: int): u64
  {
    var d := LastOf(es, {tag});
    if d.Some? then d.value.val else 0
  }

  /** The values of the `DT_NEEDED` entries, in order. */
  function Needed(es: seq<Dyn>): seq<u64>
    decreases |es|
  {
    if |es| == 0 then []
    else Needed(es[..|es| - 1]) + (if es[|es| - 1].tag == DT_NEEDED then [es[|es| - 1].val] else [])
  }

  /** Every needed library comes from a `DT_NEEDED` entry and every such
      entry's value is a needed library. */
  lemma {:induction false} NeededMembers(es: seq<Dyn>, v: u64)
    ensures v in Needed(es) <==> exists k :: 0 <= k < |es| && es[k].tag == DT_NEEDED && es[k].val == v
    decreases |es|
  {
    if |es| > 0 {
      var init := es[..|es| - 1];
      NeededMembers(init, v);
      if exists k :: 0 <= k < |init| && init[k].tag == DT_NEEDED && init[k].val == v {
        var k :| 0 <= k < |init| && init[k].tag == DT_NEEDED && init[k].val == v;
        assert es[k] == init[k];
      }
    }
  }

  /** The kind of relocation a `DT_PLTREL`, `DT_RELA` or `DT_REL` entry
      announces. */
  function IsRelaOf(d: Option<Dyn>): Option<bool>
  {
    if d.None? then None
    else if d.value.tag == DT_PLTREL then Some(d.value.val == DT_RELA)
    else Some(d.value.tag == DT_RELA)
  }

  /** What the scan collects from the entries before `DT_NULL`: for each
      field, the value of the last entry with its tag (a later entry
      overrides an earlier one), and every `DT_NEEDED` value in order. */
  function ScanSpec(es: seq<Dyn>): DynScan
  {
    DynScan(
      LastVal(es, DT_FLAGS), LastVal(es, DT_FLAGS_1), ValOf(LastOf(es, {DT_PLTGOT})), Needed(es),
      ValOf(LastOf(es, {DT_HASH})), ValOf(LastOf(es, {DT_GNU_HASH})),
      LastVal(es, DT_SYMTAB), LastVal(es, DT_STRTAB),
      ValOf(LastOf(es, {DT_PLTRELSZ})), IsRelaOf(LastOf(es, {DT_PLTREL, DT_RELA, DT_REL})),
      ValOf(LastOf(es, {DT_JMPREL})),
      ValOf(LastOf(es, {DT_RELR})), ValOf(LastOf(es, {DT_RELA, DT_REL})),
      ValOf(LastOf(es, {DT_RELASZ, DT_RELSZ})), ValOf(LastOf(es, {DT_RELRSZ})),
      ValOf(LastOf(es, {DT_RELACOUNT, DT_RELCOUNT})),
      ValOf(LastOf(es, {DT_INIT})), ValOf(LastOf(es, {DT_FINI})),
      ValOf(LastOf(es, {DT_INIT_ARRAY})), ValOf(LastOf(es, {DT_INIT_ARRAYSZ})),
      ValOf(LastOf(es, {DT_FINI_ARRAY})), ValOf(LastOf(es, {DT_FINI_ARRAYSZ})),
      ValOf(LastOf(es, {DT_VERSYM})), ValOf(LastOf(es, {DT_VERNEED})), ValOf(LastOf(es, {DT_VERNEEDNUM})),
      ValOf(LastOf(es, {DT_VERDEF})), ValOf(LastOf(es, {DT_VERDEFNUM})),
      ValOf(LastOf(es, {DT_RPATH})), ValOf(LastOf(es, {DT_RUNPATH})))
  }

  /** What one entry other than `DT_NULL` does to each field: the field of
      its tag takes its value, and every other field stays. */
  function Step(s: DynScan, d: Dyn): DynScan
  {
    DynScan(
      if d.tag == DT_FLAGS then d.val else s.flags,
      if d.tag == DT_FLAGS_1 then d.val else s.flags1,
      if d.tag == DT_PLTGOT then Some(d.val) else s.gotOff,
      if d.tag == DT_NEEDED then s.needed + [d.val] else s.needed,
      if d.tag == DT_HASH then Some(d.val) else s.elfHashOff,
      if d.tag == DT_GNU_HASH then Some(d.val) else s.gnuHashOff,
      if d.tag == DT_SYMTAB then d.val else s.symtabOff,
      if d.tag == DT_STRTAB then d.val else s.strtabOff,
      if d.tag == DT_PLTRELSZ then Some(d.val) else s.pltrelSize,
      if d.tag == DT_PLTREL || d.tag == DT_RELA || d.tag == DT_REL then IsRelaOf(Some(d)) else s.isRela,
      if d.tag == DT_JMPREL then Some(d.val) else s.pltrelOff,
      if d.tag == DT_RELR then Some(d.val) else s.relrOff,
      if d.tag == DT_RELA || d.tag == DT_REL then Some(d.val) else s.relOff,
      if d.tag == DT_RELASZ || d.tag == DT_RELSZ then Some(d.val) else s.relSize,
      if d.tag == DT_RELRSZ then Some(d.val) else s.relrSize,
      if d.tag == DT_RELACOUNT || d.tag == DT_RELCOUNT then Some(d.val) else s.relCount,
      if d.tag == DT_INIT then Some(d.val) else s.initOff,
      if d.tag == DT_FINI then Some(d.val) else s.finiOff,
      if d.tag == DT_INIT_ARRAY then Some(d.val) else s.initArrayOff,
      if d.tag == DT_INIT_ARRAYSZ then Some(d.val) else s.initArraySize,
      if d.tag == DT_FINI_ARRAY then Some(d.val) else s.finiArrayOff,
      if d.tag == DT_FINI_ARRAYSZ then Some(d.val) else s.finiArraySize,
      if d.tag == DT_VERSYM then Some(d.val) else s.versymOff,
      if d.tag == DT_VERNEED then Some(d.val) else s.verneedOff,
      if d.tag == DT_VERNEEDNUM then Some(d.val) else s.verneedNum,
      if d.tag == DT_VERDEF then Some(d.val) else s.verdefOff,
      if d.tag == DT_VERDEFNUM then Some(d.val) else s.verdefNum,
      if d.tag == DT_RPATH then Some(d.val) else s.rpathOff,
      if d.tag == DT_RUNPATH then Some(d.val) else s.runpathOff)
  }

  lemma LastOfSnoc(es: seq<Dyn>, d: Dyn, tags: set<int>)
    ensures LastOf(es + [d], tags) == if d.tag in tags then Some(d) else LastOf(es, tags)
  {
    assert (es + [d])[..|es|] == es;
  }

  /** Scanning one more entry is one more `Step`. */
  lemma ScanSpecSnoc(es: seq<Dyn>, d: Dyn)
    ensures ScanSpec(es + [d]) == Step(ScanSpec(es), d)
  {
    SnocFieldsDyn(es, d);
    SnocFieldsReloc(es, d);
    SnocFieldsArrays(es, d);
  }

  /** `ScanSpecSnoc` for the flags, the needed libraries, the hash and
      symbol tables and the PLT relocation fields. */
  lemma SnocFieldsDyn(es: seq<Dyn>, d: Dyn)
    ensures var a, b := ScanSpec(es + [d]), Step(ScanSpec(es), d);
      a.flags == b.flags && a.flags1 == b.flags1 && a.gotOff == b.gotOff && a.needed == b.needed
      && a.elfHashOff == b.elfHashOff && a.gnuHashOff == b.gnuHashOff && a.symtabOff == b.symtabOff
      && a.strtabOff == b.strtabOff && a.pltrelSize == b.pltrelSize && a.isRela == b.isRela
  {
    assert (es + [d])[..|es|] == es;
    LastOfSnoc(es, d, {DT_FLAGS});
    LastOfSnoc(es, d, {DT_FLAGS_1});
    LastOfSnoc(es, d, {DT_PLTGOT});
    LastOfSnoc(es, d, {DT_HASH});
    LastOfSnoc(es, d, {DT_GNU_HASH});
    LastOfSnoc(es, d, {DT_SYMTAB});
    LastOfSnoc(es, d, {DT_STRTAB});
    LastOfSnoc(es, d, {DT_PLTRELSZ});
    LastOfSnoc(es, d, {DT_PLTREL, DT_RELA, DT_REL});
  }

  /** `ScanSpecSnoc` for the relocation tables, `DT_INIT`, `DT_FINI` and
      the init array. */
  lemma SnocFieldsReloc(es: seq<Dyn>, d: Dyn)
    ensures var a, b := ScanSpec(es + [d]), Step(ScanSpec(es), d);
      a.pltrelOff == b.pltrelOff && a.relrOff == b.relrOff && a.relOff == b.relOff
      && a.relSize == b.relSize && a.relrSize == b.relrSize && a.relCount == b.relCount
      && a.initOff == b.initOff && a.finiOff == b.finiOff && a.initArrayOff == b.initArrayOff
  {
    assert (es + [d])[..|es|] == es;
    LastOfSnoc(es, d, {DT_JMPREL});
    LastOfSnoc(es, d, {DT_RELR});
    LastOfSnoc(es, d, {DT_RELA, DT_REL});
    LastOfSnoc(es, d, {DT_RELASZ, DT_RELSZ});
    LastOfSnoc(es, d, {DT_RELRSZ});
    LastOfSnoc(es, d, {DT_RELACOUNT, DT_RELCOUNT});
    LastOfSnoc(es, d, {DT_INIT});
    LastOfSnoc(es, d, {DT_FINI});
    LastOfSnoc(es, d, {DT_INIT_ARRAY});
  }

  /** `ScanSpecSnoc` for the rest of the arrays, the version tables and
      the search paths. */
  lemma SnocFieldsArrays(es: seq<Dyn>, d: Dyn)
    ensures var a, b := ScanSpec(es + [d]), Step(ScanSpec(es), d);
      a.initArraySize == b.initArraySize && a.finiArrayOff == b.finiArrayOff
      && a.finiArraySize == b.finiArraySize && a.versymOff == b.versymOff
      && a.verneedOff == b.verneedOff && a.verneedNum == b.verneedNum && a.verdefOff == b.verdefOff
      && a.verdefNum == b.verdefNum && a.rpathOff == b.rpathOff && a.runpathOff == b.runpathOff
  {
    assert (es + [d])[..|es|] == es;
    LastOfSnoc(es, d, {DT_INIT_ARRAYSZ});
    LastOfSnoc(es, d, {DT_FINI_ARRAY});
    LastOfSnoc(es, d, {DT_FINI_ARRAYSZ});
    LastOfSnoc(es, d, {DT_VERSYM});
    LastOfSnoc(es, d, {DT_VERNEED});
    LastOfSnoc(es, d, {DT_VERNEEDNUM});
    LastOfSnoc(es, d, {DT_VERDEF});
    LastOfSnoc(es, d, {DT_VERDEFNUM});
    LastOfSnoc(es, d, {DT_RPATH});
    LastOfSnoc(es, d, {DT_RUNPATH});
  }

  /** The scan over a section: `None` when no `DT_NULL` ends it. */
  function ScanOf(es: seq<Dyn>): Option<DynScan>
  {
    var n := FirstNull(es, 0);
    if n.Some? then Some(ScanSpec(es[..n.value])) else None
  }

  /** The loop of `ElfDynamic::new` (lines 49-130): each entry sets the
      field of its tag, until `DT_NULL`. */
  method ScanDynamic(es: seq<Dyn>) returns (r: Option<DynScan>)
    ensures r == ScanOf(es)
  {
    var s := ScanSpec([]);
    var i := 0;
    while true
      invariant i <= |es|
      invariant FirstNull(es, i) == FirstNull(es, 0)
      invariant s == ScanSpec(es[..i])
      decreases |es| - i
    {
      if i >= |es| {
        return None;
      }
      var d := es[i];
      if d.tag == DT_NULL {
        break;
      }
      assert es[..i + 1] == es[..i] + [d];
      ScanSpecSnoc(es[..i], d);
      s := ApplyEntry(s, d);
      i := i + 1;
    }
    r := Some(s);
  }

  /** One entry of the scan: the field of its tag takes its value.  The
      tests run in the order of the `match` in `ElfDynamic::new`; this
      part holds its first ten arms. */
  method ApplyEntry(s: DynScan, d: Dyn) returns (t: DynScan)
    requires d.tag != DT_NULL
    ensures t == Step(s, d)
  {
    if d.tag == DT_FLAGS {
      t := s.(flags := d.val);
    } else if d.tag == DT_FLAGS_1 {
      t := s.(flags1 := d.val);
    } else if d.tag == DT_PLTGOT {
      t := s.(gotOff := Some(d.val));
    } else if d.tag == DT_NEEDED {
      t := s.(needed := s.needed + [d.val]);
    } else if d.tag == DT_HASH {
      t := s.(elfHashOff := Some(d.val));
    } else if d.tag == DT_GNU_HASH {
      t := s.(gnuHashOff := Some(d.val));
    } else if d.tag == DT_SYMTAB {
      t := s.(symtabOff := d.val);
    } else if d.tag == DT_STRTAB {
      t := s.(strtabOff := d.val);
    } else if d.tag == DT_PLTRELSZ {
      t := s.(pltrelSize := Some(d.val));
    } else if d.tag == DT_PLTREL {
      t := s.(isRela := Some(d.val == DT_RELA));
    } else {
      t := ApplyEntryReloc(s, d);
    }
  }

  /** The next ten arms of the `match`. */
  method ApplyEntryReloc(s: DynScan, d: Dyn) returns (t: DynScan)
    requires d.tag != DT_NULL && d.tag !in {DT_FLAGS, DT_FLAGS_1, DT_PLTGOT, DT_NEEDED, DT_HASH,
      DT_GNU_HASH, DT_SYMTAB, DT_STRTAB, DT_PLTRELSZ, DT_PLTREL}
    ensures t == Step(s, d)
  {
    if d.tag == DT_JMPREL {
      t := s.(pltrelOff := Some(d.val));
    } else if d.tag == DT_RELR {
      t := s.(relrOff := Some(d.val));
    } else if d.tag == DT_RELA || d.tag == DT_REL {
      t := s.(isRela := Some(d.tag == DT_RELA), relOff := Some(d.val));
    } else if d.tag == DT_RELASZ || d.tag == DT_RELSZ {
      t := s.(relSize := Some(d.val));
    } else if d.tag == DT_RELRSZ {
      t := s.(relrSize := Some(d.val));
    } else if d.tag == DT_RELACOUNT || d.tag == DT_RELCOUNT {
      t := s.(relCount := Some(d.val));
    } else if d.tag == DT_INIT {
      t := s.(initOff := Some(d.val));
    } else if d.tag == DT_FINI {
      t := s.(finiOff := Some(d.val));
    } else if d.tag == DT_INIT_ARRAY {
      t := s.(initArrayOff := Some(d.val));
    } else if d.tag == DT_INIT_ARRAYSZ {
      t := s.(initArraySize := Some(d.val));
    } else {
      t := ApplyEntryInit(s, d);
    }
  }

  /** The remaining arms of the `match`; any other tag changes nothing. */
  method ApplyEntryInit(s: DynScan, d: Dyn) returns (t: DynScan)
    requires d.tag != DT_NULL && d.tag !in {DT_FLAGS, DT_FLAGS_1, DT_PLTGOT, DT_NEEDED, DT_HASH,
      DT_GNU_HASH, DT_SYMTAB, DT_STRTAB, DT_PLTRELSZ, DT_PLTREL, DT_JMPREL, DT_RELR, DT_RELA, DT_REL,
      DT_RELASZ, DT_RELSZ, DT_RELRSZ, DT_RELACOUNT, DT_RELCOUNT, DT_INIT, DT_FINI, DT_INIT_ARRAY,
      DT_INIT_ARRAYSZ}
    ensures t == Step(s, d)
  {
    if d.tag == DT_FINI_ARRAY {
      t := s.(finiArrayOff := Some(d.val));
    } else if d.tag == DT_FINI_ARRAYSZ {
      t := s.(finiArraySize := Some(d.val));
    } else if d.tag == DT_VERSYM {
      t := s.(versymOff := Some(d.val));
    } else if d.tag == DT_VERNEED {
      t := s.(verneedOff := Some(d.val));
    } else if d.tag == DT_VERNEEDNUM {
      t := s.(verneedNum := Some(d.val));
    } else if d.tag == DT_VERDEF {
      t := s.(verdefOff := Some(d.val));
    } else if d.tag == DT_VERDEFNUM {
      t := s.(verdefNum := Some(d.val));
    } else if d.tag == DT_RPATH {
      t := s.(rpathOff := Some(d.val));
    } else if d.tag == DT_RUNPATH {
      t := s.(runpathOff := Some(d.val));
    } else {
      t := s;
    }
  }

  /** Entries after the first `DT_NULL` are never read. */
  lemma {:induction false} FirstNullIgnoresTail(es: seq<Dyn>, tail: seq<Dyn>, i: nat)
    requires FirstNull(es, i).Some?
    ensures FirstNull(es + tail, i) == FirstNull(es, i)
    decreases |es| - i
  {
    assert (es + tail)[i] == es[i];
    if es[i].tag != DT_NULL {
      FirstNullIgnoresTail(es, tail, i + 1);
    }
  }

  /** The scan stops at the first `DT_NULL`: whatever follows it does not
      change what the scan finds. */
  lemma ScanIgnoresTail(es: seq<Dyn>, tail: seq<Dyn>)
    requires FirstNull(es, 0).Some?
    ensures ScanOf(es + tail) == ScanOf(es)
  {
    FirstNullIgnoresTail(es, tail, 0);
    var n := FirstNull(es, 0).value;
    assert (es + tail)[..n] == es[..n];
  }

  /** `ElfDynamicHashTab`: the hash table's offset or address, tagged with
      its format. */
  datatype HashTab = GnuTab(off: u64) | ElfTab(off: u64)
  {
    /** `into`: the offset of either format. */
    function Off(): (r: u64)
      ensures r == off
    {
      match this
      case GnuTab(o) => o
      case ElfTab(o) => o
    }

    /** `add` (and `add_assign`): moves the table, keeping its format. */
    function Plus(rhs: u64): (r: HashTab)
      ensures r.GnuTab? == GnuTab?
      ensures off + rhs < U64_SPLIT ==> r.off == off + rhs
    {
      match this
      case GnuTab(o) => GnuTab(Wrap(o + rhs))
      case ElfTab(o) => ElfTab(Wrap(o + rhs))
    }

    /** `sub` (and `sub_assign`): moves the table back, keeping its
        format. */
    function Minus(rhs: u64): (r: HashTab)
      ensures r.GnuTab? == GnuTab?
      ensures rhs <= off ==> r.off == off - rhs
    {
      match this
      case GnuTab(o) => GnuTab(Wrap(o - rhs))
      case ElfTab(o) => ElfTab(Wrap(o - rhs))
    }
  }

  lemma WrapAddSub(a: u64, b: u64)
    ensures Wrap(Wrap(a + b) - b) == a
  {
    if a + b >= U64_SPLIT {
      DivModUnique(a + b, U64_SPLIT, 1, a + b - U64_SPLIT);
      DivModUnique(a - U64_SPLIT, U64_SPLIT, -1, a);
    }
  }

  /** Moving a table by the load base and back gives it back, even when
      the move wraps. */
  lemma PlusMinus(h: HashTab, rhs: u64)
    ensures h.Plus(rhs).Minus(rhs) == h
  {
    WrapAddSub(h.off, rhs);
  }

  /** Bit `b` of `x`. */
  predicate HasBit(x: u64, b: nat)
  {
    (x / Pow2(b)) % 2 == 1
  }

  /** `ElfDynamic`, with addresses for the pointers and slices. */
  datatype ElfDynamic = ElfDynamic(
    hashtab: HashTab, symtab: u64, strtab: u64, bindNow: bool, got: Option<u64>,
    needed: seq<u64>,
    pltrel: Option<ElfRelocations.Slice>, dynrel: Option<ElfRelocations.Slice>,
    relr: Option<ElfRelocations.Slice>,
    initFn: Option<u64>, initArray: Option<ElfRelocations.Slice>,
    finiFn: Option<u64>, finiArray: Option<ElfRelocations.Slice>,
    relCount: Option<u64>, rpathOff: Option<u64>, runpathOff: Option<u64>,
    versionIdx: Option<u64>, verneed: Option<(u64, u64)>, verdef: Option<(u64, u64)>)

  datatype DynOutcome = Built(dynamic: ElfDynamic) | ParseDynamicError(msg: string) | Fault

  const NO_HASH_MSG: string := "dynamic section does not have DT_GNU_HASH nor DT_HASH"

  /** `get_slice`: `size` bytes at `off` past the base, as entries of
      `entry` bytes. */
  function GetSlice(base: u64, off: u64, size: u64, entry: nat): (r: ElfRelocations.Slice)
    requires entry > 0
    ensures r.len * entry <= size < r.len * entry + entry
  {
    ElfRelocations.Slice(Wrap(base + off), size / entry)
  }

  /** An offset that comes with a size: the table it names, `None` without
      the offset. */
  function SliceOf(base: u64, off: Option<u64>, size: Option<u64>, entry: nat): Option<ElfRelocations.Slice>
    requires entry > 0
    requires off.Some? ==> size.Some?
  {
    if off.Some? then Some(GetSlice(base, off.value, size.value, entry)) else None
  }

  /** An offset whose `checked_add` of the base is unwrapped unchecked. */
  predicate AddsWithout(off: Option<u64>, base: u64)
  {
    off.Some? ==> off.value + base < U64_SPLIT
  }

  function AddBase(off: Option<u64>, base: u64): Option<u64>
  {
    if off.Some? then Some(Wrap(off.value + base)) else None
  }

  /** The scan's findings the rest of `ElfDynamic::new` faults on: a
      non-RELA relocation kind (the entry type is `ElfRela`), an offset
      without its size or count, or a version address that overflows. */
  predicate Faults(s: DynScan, base: u64)
  {
    || s.isRela == Some(false)
    || (s.pltrelOff.Some? && s.pltrelSize.None?)
    || (s.relOff.Some? && s.relSize.None?)
    || (s.relrOff.Some? && s.relrSize.None?)
    || (s.initArrayOff.Some? && s.initArraySize.None?)
    || (s.finiArrayOff.Some? && s.finiArraySize.None?)
    || (s.verneedOff.Some? && s.verneedNum.None?)
    || (s.verdefOff.Some? && s.verdefNum.None?)
    || !AddsWithout(s.verneedOff, base) || !AddsWithout(s.verdefOff, base)
    || !AddsWithout(s.versymOff, base)
  }

  /** Lines 131-202 of `ElfDynamic::new`: the checks on what the scan found
      and the `ElfDynamic` built from it, with every offset moved by the
      load base. */
  function Finish(s: DynScan, base: u64): (r: DynOutcome)
    ensures r == ParseDynamicError(NO_HASH_MSG) <==>
      s.isRela != Some(false) && s.gnuHashOff.None? && s.elfHashOff.None?
    ensures r.Fault? <==> Faults(s, base) && (s.isRela == Some(false) || s.gnuHashOff.Some? || s.elfHashOff.Some?)
    ensures r.Built? ==> r.dynamic.hashtab ==
                         if s.gnuHashOff.Some? then GnuTab(s.gnuHashOff.value).Plus(base)
                         else ElfTab(s.elfHashOff.value).Plus(base)
    ensures r.Built? ==> r.dynamic.symtab == Wrap(s.symtabOff + base) && r.dynamic.strtab == Wrap(s.strtabOff + base)
    ensures r.Built? ==> (r.dynamic.bindNow <==> HasBit(s.flags, DF_BIND_NOW_BIT) || HasBit(s.flags1, DF_1_NOW_BIT))
    ensures r.Built? ==> (r.dynamic.got.None? <==> s.gotOff.None? || base + s.gotOff.value in {0, U64_SPLIT})
    ensures r.Built? ==> r.dynamic.needed == s.needed
  {
    if s.isRela == Some(false) then Fault
    else if s.gnuHashOff.None? && s.elfHashOff.None? then ParseDynamicError(NO_HASH_MSG)
    else if Faults(s, base) then Fault
    else
      var hashOff := if s.gnuHashOff.Some? then GnuTab(s.gnuHashOff.value) else ElfTab(s.elfHashOff.value);
      var gotAddr := if s.gotOff.Some? then Wrap(base + s.gotOff.value) else 0;
      Built(ElfDynamic(
        hashOff.Plus(base), Wrap(s.symtabOff + base), Wrap(s.strtabOff + base),
        HasBit(s.flags, DF_BIND_NOW_BIT) || HasBit(s.flags1, DF_1_NOW_BIT),
        if gotAddr != 0 then Some(gotAddr) else None,
        s.needed,
        SliceOf(base, s.pltrelOff, s.pltrelSize, RELA_ENTRY),
        SliceOf(base, s.relOff, s.relSize, RELA_ENTRY),
        SliceOf(base, s.relrOff, s.relrSize, WORD_ENTRY),
        AddBase(s.initOff, base),
        SliceOf(base, s.initArrayOff, s.initArraySize, WORD_ENTRY),
        AddBase(s.finiOff, base),
        SliceOf(base, s.finiArrayOff, s.finiArraySize, WORD_ENTRY),
        s.relCount, s.rpathOff, s.runpathOff,
        AddBase(s.versymOff, base),
        if s.verneedOff.Some? then Some((s.verneedOff.value + base, s.verneedNum.value)) else None,
        if s.verdefOff.Some? then Some((s.verdefOff.value + base, s.verdefNum.value)) else None))
  }

  /** What `ElfDynamic::new` makes of a section. */
  function NewOf(es: seq<Dyn>, base: u64): DynOutcome
  {
    var s := ScanOf(es);
    if s.Some? then Finish(s.value, base) else Fault
  }

  /** `ElfDynamic::new`: the scan, then the checks and the offsets. */
  method New(es: seq<Dyn>, base: u64) returns (r: DynOutcome)
    ensures r == NewOf(es, base)
  {
    var s := ScanDynamic(es);
    if s.None? {
      return Fault;
    }
    r := Finish(s.value, base);
  }

  /** In terms of the section's entries before `DT_NULL`: the GNU hash
      table is chosen exactly when there is a `DT_GNU_HASH` entry, the
      symbol and string tables are the last such entries moved by the base,
      and binding is immediate exactly when the last `DT_FLAGS` has
      `DF_BIND_NOW` or the last `DT_FLAGS_1` has `DF_1_NOW`. */
  lemma NewFromEntries(es: seq<Dyn>, base: u64, n: nat)
    requires FirstNull(es, 0) == Some(n)
    requires NewOf(es, base).Built?
    ensures NewOf(es, base).dynamic.hashtab.GnuTab? <==> exists k :: 0 <= k < n && es[k].tag == DT_GNU_HASH
    ensures NewOf(es, base).dynamic.symtab == Wrap(LastVal(es[..n], DT_SYMTAB) + base)
    ensures NewOf(es, base).dynamic.strtab == Wrap(LastVal(es[..n], DT_STRTAB) + base)
    ensures NewOf(es, base).dynamic.bindNow <==>
      HasBit(LastVal(es[..n], DT_FLAGS), DF_BIND_NOW_BIT) || HasBit(LastVal(es[..n], DT_FLAGS_1), DF_1_NOW_BIT)
  {
    NewOfIsFinish(es, base, n);
    GnuHashPresent(es, n);
  }

  lemma NewOfIsFinish(es: seq<Dyn>, base: u64, n: nat)
    requires FirstNull(es, 0) == Some(n)
    ensures NewOf(es, base) == Finish(ScanSpec(es[..n]), base)
  {
  }

  /** The scan finds a GNU hash table exactly when an entry before
      `DT_NULL` has its tag. */
  lemma GnuHashPresent(es: seq<Dyn>, n: nat)
    requires n <= |es|
    ensures ScanSpec(es[..n]).gnuHashOff.Some? <==> exists k :: 0 <= k < n && es[k].tag == DT_GNU_HASH
  {
    LastOfIsLast(es[..n], {DT_GNU_HASH});
    if exists k :: 0 <= k < n && es[k].tag == DT_GNU_HASH {
      var k :| 0 <= k < n && es[k].tag == DT_GNU_HASH;
      assert es[..n][k] == es[k];
    }
  }

  /** A section with neither hash table is refused with its message, and
      one without `DT_NULL` faults. */
  lemma NewErrors(es: seq<Dyn>, base: u64)
    ensures FirstNull(es, 0).None? ==> NewOf(es, base).Fault?
    ensures FirstNull(es, 0).Some? ==>
      var pre := es[..FirstNull(es, 0).value];
      (NewOf(es, base) == ParseDynamicError(NO_HASH_MSG) <==>
        IsRelaOf(LastOf(pre, {DT_PLTREL, DT_RELA, DT_REL})) != Some(false)
        && (forall k :: 0 <= k < |pre| ==> pre[k].tag != DT_GNU_HASH && pre[k].tag != DT_HASH))
  {
    if FirstNull(es, 0).Some? {
      var pre := es[..FirstNull(es, 0).value];
      LastOfIsLast(pre, {DT_GNU_HASH});
      LastOfIsLast(pre, {DT_HASH});
    }
  }
}
