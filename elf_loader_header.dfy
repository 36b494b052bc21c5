/** The ELF header checks and the program-header buffer of the ELF loader
    (vendor/elf_loader/src/loader.rs).

    An object file is its bytes; reading `n` bytes at an offset succeeds
    when they lie inside the file and fails with an I/O error otherwise.
    The target machine the loader was built for is a parameter. */
module ElfLoaders {
  import opened Common
  import opened ElfArch

  /** Sizes of `Elf64_Ehdr` and `Elf64_Phdr`. */
  const EHDR_SIZE: nat := 64
  const PHDR_SIZE: nat := 56

  const ELFMAGIC: seq<u8> := [0x7f, 0x45, 0x4c, 0x46]
  const EI_CLASS: nat := 4
  const EI_VERSION: nat := 6
  const ELFCLASS64: nat := 2
  const EV_CURRENT: nat := 1
  const ET_DYN: nat := 3

  type Ident = s: seq<u8> | |s| == 16 witness [0, 0, 0, 0, 0, 0, 0, 0, 0, 0, 0, 0, 0, 0, 0, 0]

  /** The fields of an `Elf64_Ehdr` the loader reads. */
  datatype Ehdr = Ehdr(ident: Ident, eType: u16, eMachine: u16, ePhoff: u64, ePhentsize: u16, ePhnum: u16)

  datatype ElfError = ParseEhdr(msg: string) | Io

  /** `vaildate`: the magic number, the file class, the format version and
      the machine, checked in this order; the first mismatch names itself. */
  function Validate(h: Ehdr, machine: u16): (r: Result<(), ElfError>)
    ensures r.Ok? <==> (h.ident[..4] == ELFMAGIC && h.ident[EI_CLASS] == ELFCLASS64
                        && h.ident[EI_VERSION] == EV_CURRENT && h.eMachine == machine)
    ensures r == Err(ParseEhdr("invalid ELF magic")) <==> h.ident[..4] != ELFMAGIC
    ensures r == Err(ParseEhdr("file class mismatch")) <==>
      h.ident[..4] == ELFMAGIC && h.ident[EI_CLASS] != ELFCLASS64
    ensures r == Err(ParseEhdr("invalid ELF version")) <==>
      h.ident[..4] == ELFMAGIC && h.ident[EI_CLASS] == ELFCLASS64 && h.ident[EI_VERSION] != EV_CURRENT
    ensures r == Err(ParseEhdr("file arch mismatch")) <==>
      h.ident[..4] == ELFMAGIC && h.ident[EI_CLASS] == ELFCLASS64 && h.ident[EI_VERSION] == EV_CURRENT
      && h.eMachine != machine
  {
    if h.ident[..4] != ELFMAGIC then Err(ParseEhdr("invalid ELF magic"))
    else if h.ident[EI_CLASS] != ELFCLASS64 then Err(ParseEhdr("file class mismatch"))
    else if h.ident[EI_VERSION] != EV_CURRENT then Err(ParseEhdr("invalid ELF version"))
    else if h.eMachine != machine then Err(ParseEhdr("file arch mismatch"))
    else Ok(())
  }

  /** `is_dylib`: a shared object (`ET_DYN`). */
  predicate IsDylib(h: Ehdr)
  {
    h.eType == ET_DYN
  }

  /** `phdr_range`: the file range of the program-header table. */
  function PhdrRange(h: Ehdr): (r: (u64, u64))
    ensures r.0 == h.ePhoff
    ensures h.ePhoff + h.ePhentsize * h.ePhnum < U64_SPLIT ==> r.1 == h.ePhoff + h.ePhentsize * h.ePhnum
  {
    var phdrsSize := h.ePhentsize * h.ePhnum;
    var phdrStart := h.ePhoff;
    (phdrStart, Wrap(phdrStart + phdrsSize))
  }

  /** `phdr_end - phdr_start` in `prepare_phdr`. */
  function PhdrSize(h: Ehdr): u64
  {
    var (start, end) := PhdrRange(h);
    Wrap(end - start)
  }

  /** The size of the range is the table's size, even when its end wraps. */
  lemma PhdrSizeIsTable(h: Ehdr)
    ensures PhdrSize(h) == h.ePhentsize * h.ePhnum
  {
    var size := h.ePhentsize * h.ePhnum;
    TableFits(h.ePhentsize, h.ePhnum);
    WrapDifference(h.ePhoff, size);
  }

  lemma TableFits(a: u16, b: u16)
    ensures a * b < U64_SPLIT
  {
    MulMono(a, 0xffff, b);
    MulMono(b, 0xffff, 0xffff);
    assert 0xffff * b == b * 0xffff;
  }

  /** Subtracting the start from a wrapped end gives back the size. */
  lemma WrapDifference(start: u64, size: nat)
    requires size < U64_SPLIT
    ensures Wrap(Wrap(start + size) - start) == size
  {
    if start + size >= U64_SPLIT {
      DivModUnique(start + size, U64_SPLIT, 1, start + size - U64_SPLIT);
      DivModUnique(size - U64_SPLIT, U64_SPLIT, -1, size);
    }
  }

  function Zeros(n: nat): (r: seq<u8>)
    ensures |r| == n && forall i :: 0 <= i < n ==> r[i] == 0
  {
    seq(n, _ => 0)
  }

  /** The buffer after `prepare_phdr` grew it: extended with zeros up to
      the table's size, never shrunk. */
  function Grown(buf: seq<u8>, size: nat): (r: seq<u8>)
    ensures |r| == Max(|buf|, size) && r[..|buf|] == buf
  {
    if size > |buf| then buf + Zeros(size - |buf|) else buf
  }

  /** The buffer after reading the table of `h` from `file`: the table's
      bytes at its front, the rest as before; `ok` tells whether the read
      succeeded. */
  ghost predicate Filled(oldBuf: seq<u8>, buf: seq<u8>, h: Ehdr, file: seq<u8>, ok: bool)
  {
    var size := PhdrSize(h);
    var grown := Grown(oldBuf, size);
    && (ok <==> h.ePhoff + size <= |file|)
    && (ok ==> buf == Overwrite(grown, 0, file[h.ePhoff..h.ePhoff + size]))
    && (!ok ==> buf == grown)
  }

  /** `ElfBuf`: the loader's reusable buffer for the headers. */
  class ElfBuf {
    var buf: seq<u8>

    constructor()
      ensures buf == Zeros(EHDR_SIZE)
    {
      buf := Zeros(EHDR_SIZE);
    }

    /** Lines 203-208 of `prepare_phdr`: grow the buffer to the table's
        size and read the table into its front; the table's size on
        success. */
    method Fill(h: Ehdr, file: seq<u8>) returns (r: Result<nat, ElfError>)
      modifies this
      ensures Filled(old(buf), buf, h, file, r.Ok?)
      ensures r.Ok? ==> r.value == PhdrSize(h)
      ensures r.Err? ==> r.error == Io
    {
      var (phdrStart, phdrEnd) := PhdrRange(h);
      var size := Wrap(phdrEnd - phdrStart);
      if size > |buf| {
        buf := buf + Zeros(size - |buf|);
      }
      if phdrStart + size > |file| {
        return Err(Io);
      }
      buf := Overwrite(buf, 0, file[phdrStart..phdrStart + size]);
      r := Ok(size);
    }

    /** `prepare_phdr` as written: the table is viewed as the whole buffer,
        `buf.len() / size_of::<ElfPhdr>()` headers long. */
    method PreparePhdrAsWritten(h: Ehdr, file: seq<u8>) returns (r: Result<nat, ElfError>)
      modifies this
      ensures Filled(old(buf), buf, h, file, r.Ok?)
      ensures |buf| >= PhdrSize(h)
      ensures r.Ok? ==> r.value == PhdrCountAsWritten(old(|buf|), h)
    {
      r := Fill(h, file);
      if r.Ok? {
        r := Ok(|buf| / PHDR_SIZE);
      }
    }

    /** `prepare_phdr` viewing only the bytes it read: `e_phnum` headers
        when each is `Elf64_Phdr`-sized. */
    method PreparePhdr(h: Ehdr, file: seq<u8>) returns (r: Result<nat, ElfError>)
      modifies this
      ensures Filled(old(buf), buf, h, file, r.Ok?)
      ensures |buf| >= PhdrSize(h)
      ensures r.Ok? ==> r.value == PhdrSize(h) / PHDR_SIZE
      ensures r.Ok? && h.ePhentsize == PHDR_SIZE ==> r.value == h.ePhnum
      ensures r.Ok? ==> buf[..PhdrSize(h)] == file[h.ePhoff..h.ePhoff + PhdrSize(h)]
    {
      r := Fill(h, file);
      PhdrSizeIsTable(h);
      if r.Ok? {
        OverwriteReadBack(Grown(old(buf), PhdrSize(h)), 0, file[h.ePhoff..h.ePhoff + PhdrSize(h)]);
        r := Ok(r.value / PHDR_SIZE);
      }
    }
  }

  /** How many headers `prepare_phdr` as written returns from a buffer of
      `bufLen` bytes. */
  function PhdrCountAsWritten(bufLen: nat, h: Ehdr): (r: nat)
    ensures r * PHDR_SIZE <= Max(bufLen, PhdrSize(h))
  {
    Max(bufLen, PhdrSize(h)) / PHDR_SIZE
  }

  /** As written, the count follows the buffer, not the header: a fresh
      buffer returns one header for a file with none (the ELF header's own
      bytes), and a buffer that an earlier file with ten headers grew
      returns ten headers for a file with two, eight of them the earlier
      file's. */
  lemma PhdrCountAsWrittenStale(h0: Ehdr, h2: Ehdr)
    requires h0.ePhentsize == PHDR_SIZE && h0.ePhnum == 0
    requires h2.ePhentsize == PHDR_SIZE && h2.ePhnum == 2
    ensures PhdrCountAsWritten(EHDR_SIZE, h0) == 1 != h0.ePhnum
    ensures PhdrCountAsWritten(10 * PHDR_SIZE, h2) == 10 != h2.ePhnum
  {
    PhdrSizeIsTable(h0);
    PhdrSizeIsTable(h2);
  }
}
