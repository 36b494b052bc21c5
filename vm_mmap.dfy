/** The argument checks of the `mmap` system call (kernel/src/vm/mmap.rs):
    decoding the flags word, rounding the length, and the checks of the
    anonymous and file-backed paths, up to the mapping request handed to
    the root VMAR.

    Building the mapping, reading the file into a new VMO and allocating
    VMOs belong to the VMAR and VMO code, which is not part of this model;
    what they would do is described by `MapRequest`, and their failures are
    parameters.  `is_userspace_vaddr` is also defined there; its answer for
    the requested address is the parameter `userspaceAddr`.  The permission
    bits are those of Linux: read 1, write 2, execute 4. */
module MMap {

  import opened Common
  import opened Errors
  import opened Mm

  const USIZE_LIMIT_BYTES: nat := 0x1_0000_0000_0000_0000

  /** The low four bits of the flags word give the mapping type. */
  const MAP_TYPE_MASK: bv32 := 0xf

  const MAP_FIXED: bv32 := 0x10
  const MAP_ANONYMOUS: bv32 := 0x20
  const MAP_32BIT: bv32 := 0x40
  const MAP_FIXED_NOREPLACE: bv32 := 0x10_0000
  /** Every flag `MMapFlags` knows. */
  const KNOWN_FLAGS: bv32 := 0x10_0070

  const PERM_READ: bv32 := 1
  const PERM_WRITE: bv32 := 2
  const PERM_EXEC: bv32 := 4

  datatype MMapType = File | Shared | Private | SharedValidate

  /** The four type values the source accepts. */
  function TypeBits(t: MMapType): (b: bv32)
    ensures b <= 3
  {
    match t
    case File => 0
    case Shared => 1
    case Private => 2
    case SharedValidate => 3
  }

  datatype MMapOpts = MMapOpts(typ: MMapType, flags: bv32)

  function Encode(o: MMapOpts): bv32
  {
    TypeBits(o.typ) | o.flags
  }

  /** The type a four-bit value names, if any. */
  function TypeOf(low: bv32): (t: Option<MMapType>)
    ensures t.Some? <==> low <= 3
    ensures t.Some? ==> TypeBits(t.value) == low
  {
    if low == 0 then Some(File)
    else if low == 1 then Some(Shared)
    else if low == 2 then Some(Private)
    else if low == 3 then Some(SharedValidate)
    else None
  }

  /** `MMapOpts::try_from`: the type from the low four bits, EINVAL for a
      type above 3; the remaining bits as flags, EINVAL for a bit that is
      no known flag. */
  function DecodeOpts(raw: bv32): Result<MMapOpts, Errno>
  {
    var typ := TypeOf(raw & MAP_TYPE_MASK);
    var flags := raw & !MAP_TYPE_MASK;
    if typ.None? then Err(EINVAL)
    else if (flags & !KNOWN_FLAGS) != 0 then Err(EINVAL)
    else Ok(MMapOpts(typ.value, flags))
  }

  /** Decoding fails, with EINVAL, exactly on an unknown type or flag; what
      it accepts holds only known flags and encodes back to the raw word. */
  lemma DecodeOptsSpec(raw: bv32)
    ensures DecodeOpts(raw).Err? <==> (raw & MAP_TYPE_MASK) > 3 || (raw & !MAP_TYPE_MASK & !KNOWN_FLAGS) != 0
    ensures DecodeOpts(raw).Err? ==> DecodeOpts(raw).error == EINVAL
    ensures DecodeOpts(raw).Ok? ==>
      && (DecodeOpts(raw).value.flags & !KNOWN_FLAGS) == 0
      && Encode(DecodeOpts(raw).value) == raw
  {
    assert (raw & MAP_TYPE_MASK) | (raw & !MAP_TYPE_MASK) == raw;
  }

  /** Every type with known flags is decoded back from its encoding. */
  lemma DecodeEncode(o: MMapOpts)
    requires (o.flags & !KNOWN_FLAGS) == 0
    ensures DecodeOpts(Encode(o)) == Ok(o)
  {
    var b := TypeBits(o.typ);
    assert (o.flags & MAP_TYPE_MASK) == 0;
    assert (Encode(o) & MAP_TYPE_MASK) == b;
    assert (Encode(o) & !MAP_TYPE_MASK) == o.flags;
  }

  /** `as u32` on a `usize`: the low 32 bits. */
  function Low32(x: bv64): bv32
  {
    (x & 0xffff_ffff) as bv32
  }

  function HasFlag(flags: bv32, f: bv32): bool
  {
    (flags & f) == f
  }

  /** `next_multiple_of(PAGE_SIZE)` on a `usize`: rounds up to a page,
      wrapping past the top of the address space as a release build does. */
  function RoundLen(len: nat): (r: nat)
    requires len < USIZE_LIMIT_BYTES
    ensures r < USIZE_LIMIT_BYTES && r % PAGE_SIZE == 0
    ensures AlignUp(len, PAGE_SIZE) < USIZE_LIMIT_BYTES ==> r == AlignUp(len, PAGE_SIZE)
  {
    AlignUp(len, PAGE_SIZE) % USIZE_LIMIT_BYTES
  }

  /** What a mapping is backed by: fresh zeroed memory, or the contents of
      an open file from a page-aligned offset. */
  datatype Backing = Anonymous | FileBacked(offset: nat)

  /** The request handed to the root VMAR: length, permissions, placement
      (an address that may or may not overwrite, or the VMAR's choice),
      sharing and backing. */
  datatype MapRequest = MapRequest(
    len: nat,
    perms: bv32,
    fixedAt: Option<nat>,
    canOverwrite: bool,
    shared: bool,
    backing: Backing)

  /** The access mode of the file behind `fd`. */
  datatype FileAccess = FileAccess(readable: bool, writable: bool)

  /** `do_mmap` with its two helpers, `anonymous_mapping` and
      `file_mapping`: the request, or the first error the checks find.
      `file` is what looking up `fd` gives (EBADF for a descriptor that is
      not a file), `ioFailed` whether reading the file or writing it into
      its VMO failed.

      A length that rounds past the top of the address space is refused
      with ENOMEM, as Linux does; see `RoundLenWraps`. */
  method DoMmap(addr: nat, len: nat, prot: bv64, flags: bv64, offset: nat,
                userspaceAddr: bool, file: Result<FileAccess, Errno>, ioFailed: bool)
    returns (r: Result<MapRequest, Errno>)
    requires addr < USIZE_LIMIT_BYTES && len < USIZE_LIMIT_BYTES && offset < USIZE_LIMIT_BYTES
    ensures len == 0 ==> r == Err(EINVAL)
    ensures len > 0 && AlignUp(len, PAGE_SIZE) >= USIZE_LIMIT_BYTES ==> r == Err(ENOMEM)
    ensures DecodeOpts(Low32(flags)).Err? ==> r.Err?
    ensures r.Ok? ==>
      var opts := DecodeOpts(Low32(flags)).value;
      var fixed := HasFlag(opts.flags, MAP_FIXED) || HasFlag(opts.flags, MAP_FIXED_NOREPLACE);
      && r.value.len == AlignUp(len, PAGE_SIZE) && len <= r.value.len < len + PAGE_SIZE
      && r.value.perms == Low32(prot) & (PERM_READ | PERM_WRITE | PERM_EXEC)
      && offset % PAGE_SIZE == 0
      && (fixed ==> userspaceAddr && r.value.fixedAt == Some(addr)
                    && r.value.canOverwrite == !HasFlag(opts.flags, MAP_FIXED_NOREPLACE))
      && (!fixed ==> r.value.fixedAt == None)
      && r.value.shared == (opts.typ == Shared)
      && (HasFlag(opts.flags, MAP_ANONYMOUS) ==> offset == 0 && r.value.backing == Anonymous)
      && (!HasFlag(opts.flags, MAP_ANONYMOUS) ==>
            && file.Ok? && !ioFailed && r.value.backing == FileBacked(offset)
            && ((r.value.perms & PERM_READ) != 0 ==> file.value.readable)
            && (opts.typ == Shared && (r.value.perms & PERM_WRITE) != 0 ==> file.value.writable))
    ensures r.Err? && len > 0 && AlignUp(len, PAGE_SIZE) < USIZE_LIMIT_BYTES && DecodeOpts(Low32(flags)).Ok? ==>
      var opts := DecodeOpts(Low32(flags)).value;
      var fixed := HasFlag(opts.flags, MAP_FIXED) || HasFlag(opts.flags, MAP_FIXED_NOREPLACE);
      var perms := Low32(prot) & (PERM_READ | PERM_WRITE | PERM_EXEC);
      || (fixed && !userspaceAddr)
      || offset % PAGE_SIZE != 0
      || (HasFlag(opts.flags, MAP_ANONYMOUS) && offset != 0)
      || (!HasFlag(opts.flags, MAP_ANONYMOUS) &&
            (|| file.Err? || ioFailed
             || ((perms & PERM_READ) != 0 && !file.value.readable)
             || (opts.typ == Shared && (perms & PERM_WRITE) != 0 && !file.value.writable)))
  {
    if len == 0 {
      return Err(EINVAL);
    }
    if AlignUp(len, PAGE_SIZE) >= USIZE_LIMIT_BYTES {
      return Err(ENOMEM);
    }
    var rounded := RoundLen(len);
    var perms := Low32(prot) & (PERM_READ | PERM_WRITE | PERM_EXEC);
    var decoded := DecodeOpts(Low32(flags));
    if decoded.Err? {
      return Err(decoded.error);
    }
    r := MapDecoded(addr, rounded, perms, decoded.value, offset, userspaceAddr, file, ioFailed);
  }

  /** The rest of `do_mmap` once the flags are decoded: MAP_FIXED_NOREPLACE
      implies MAP_FIXED, a fixed address must be a user address, the offset
      must be page aligned, and the mapping goes to the anonymous or the
      file path. */
  method MapDecoded(addr: nat, rounded: nat, perms: bv32, opts: MMapOpts, offset: nat,
                    userspaceAddr: bool, file: Result<FileAccess, Errno>, ioFailed: bool)
    returns (r: Result<MapRequest, Errno>)
    ensures r.Ok? ==>
      var fixed := HasFlag(opts.flags, MAP_FIXED) || HasFlag(opts.flags, MAP_FIXED_NOREPLACE);
      && r.value.len == rounded && r.value.perms == perms
      && offset % PAGE_SIZE == 0
      && (fixed ==> userspaceAddr && r.value.fixedAt == Some(addr)
                    && r.value.canOverwrite == !HasFlag(opts.flags, MAP_FIXED_NOREPLACE))
      && (!fixed ==> r.value.fixedAt == None)
      && r.value.shared == (opts.typ == Shared)
      && (HasFlag(opts.flags, MAP_ANONYMOUS) ==> offset == 0 && r.value.backing == Anonymous)
      && (!HasFlag(opts.flags, MAP_ANONYMOUS) ==>
            && file.Ok? && !ioFailed && r.value.backing == FileBacked(offset)
            && ((perms & PERM_READ) != 0 ==> file.value.readable)
            && (opts.typ == Shared && (perms & PERM_WRITE) != 0 ==> file.value.writable))
    ensures r.Err? ==>
      var fixed := HasFlag(opts.flags, MAP_FIXED) || HasFlag(opts.flags, MAP_FIXED_NOREPLACE);
      || (fixed && !userspaceAddr)
      || offset % PAGE_SIZE != 0
      || (HasFlag(opts.flags, MAP_ANONYMOUS) && offset != 0)
      || (!HasFlag(opts.flags, MAP_ANONYMOUS) &&
            (|| file.Err? || ioFailed
             || ((perms & PERM_READ) != 0 && !file.value.readable)
             || (opts.typ == Shared && (perms & PERM_WRITE) != 0 && !file.value.writable)))
  {
    // MAP_FIXED_NOREPLACE adds MAP_FIXED to the flags and leaves the other
    // flags alone, so a fixed placement is asked for by either flag.
    var noReplace := HasFlag(opts.flags, MAP_FIXED_NOREPLACE);
    var fixed := HasFlag(opts.flags, MAP_FIXED) || noReplace;
    if fixed && !userspaceAddr {
      return Err(EINVAL);
    }
    if offset % PAGE_SIZE != 0 {
      return Err(EINVAL);
    }
    var request := MapRequest(rounded, perms, None, false, false, Anonymous);
    if fixed {
      request := request.(fixedAt := Some(addr), canOverwrite := !noReplace);
    }
    if HasFlag(opts.flags, MAP_ANONYMOUS) {
      r := AnonymousMapping(opts.typ, request, offset);
    } else {
      r := FileMapping(opts.typ, request, offset, file, ioFailed);
    }
  }

  /** `anonymous_mapping`: the offset must be 0; a shared mapping is marked
      shared (the VMO it shares is the VMO code's business). */
  method AnonymousMapping(typ: MMapType, request: MapRequest, offset: nat) returns (r: Result<MapRequest, Errno>)
    ensures offset != 0 ==> r == Err(EINVAL)
    ensures offset == 0 ==> r.Ok? && r.value == request.(shared := request.shared || typ == Shared)
  {
    if offset != 0 {
      return Err(EINVAL);
    }
    r := Ok(request);
    if typ == Shared {
      r := Ok(request.(shared := true));
    }
  }

  /** `file_mapping`: a failed descriptor lookup is returned as it is;
      mapping for reading needs a readable file and mapping shared for
      writing a writable one (EACCES otherwise); a failure reading the
      file or writing it into the VMO is EIO; the accepted request is backed by the file from
      `offset` and shared for the shared type. */
  method FileMapping(typ: MMapType, request: MapRequest, offset: nat,
                     file: Result<FileAccess, Errno>, ioFailed: bool)
    returns (r: Result<MapRequest, Errno>)
    ensures file.Err? ==> r == Err(file.error)
    ensures r.Ok? <==>
      && file.Ok? && !ioFailed
      && ((request.perms & PERM_READ) != 0 ==> file.value.readable)
      && (typ == Shared && (request.perms & PERM_WRITE) != 0 ==> file.value.writable)
    ensures r.Ok? ==> r.value == request.(backing := FileBacked(offset), shared := request.shared || typ == Shared)
    ensures file.Ok? && r.Err? && !ioFailed ==> r.error == EACCES
    ensures file.Ok? && r.Err? && r.error != EACCES ==> ioFailed && r.error == EIO
  {
    if file.Err? {
      return Err(file.error);
    }
    if (request.perms & PERM_READ) != 0 && !file.value.readable {
      return Err(EACCES);
    }
    if typ == Shared && (request.perms & PERM_WRITE) != 0 && !file.value.writable {
      return Err(EACCES);
    }
    if ioFailed {
      return Err(EIO);
    }
    var backed := request.(backing := FileBacked(offset));
    r := Ok(backed);
    if typ == Shared {
      r := Ok(backed.(shared := true));
    }
  }

  /** The rounding as written has no bound on `len`: the largest length
      rounds to an empty mapping instead of being refused. */
  lemma RoundLenWraps()
    ensures RoundLen(USIZE_LIMIT_BYTES - 1) == 0
  {
    var len := USIZE_LIMIT_BYTES - 1;
    assert AlignUp(len, PAGE_SIZE) == USIZE_LIMIT_BYTES by {
      DivModUnique(len + PAGE_SIZE - 1, PAGE_SIZE, USIZE_LIMIT_BYTES / PAGE_SIZE, PAGE_SIZE - 2);
    }
  }
}
