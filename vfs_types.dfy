/** Open flags and mount options of the VFS
    (kernel/comps/vfs/src/types.rs).

    `open(2)` flags follow the POSIX.1-2017 layout used by Linux: the low
    two bits select the access mode and the other bits are status flags. */
module VfsTypes {

  import opened Common

  /** The kinds of vnode. */
  datatype VnodeType = File | Directory | SymbolicLink | BlockDevice | CharDevice | Fifo | Socket

  /** One entry of a directory listing. */
  datatype DirectoryEntry = DirectoryEntry(name: string, vnodeId: nat, kind: VnodeType)

  /** Where a seek counts from. */
  datatype SeekFrom = Start(pos: nat) | End(delta: int) | Current(delta: int)

  /** An `open(2)` flags word. */
  type word = bv32

  // Status flags (`OpenStatus`), with their Linux octal values.
  const CREATE: word := 0x40          // 0o100
  const EXCL: word := 0x80            // 0o200
  const TRUNC: word := 0x200          // 0o1000
  const APPEND: word := 0x400         // 0o2000
  const NONBLOCK: word := 0x800       // 0o4000
  const DSYNC: word := 0x1000         // 0o10000
  const ASYNC: word := 0x2000         // 0o20000
  const DIRECT: word := 0x4000        // 0o40000
  const LARGEFILE: word := 0x8000     // 0o100000
  const DIRECTORY: word := 0x10000    // 0o200000
  const NOFOLLOW: word := 0x20000     // 0o400000
  const NOATIME: word := 0x40000      // 0o1000000
  const CLOEXEC: word := 0x80000      // 0o2000000
  const SYNC: word := 0x101000        // 0o4010000, includes DSYNC
  const PATH: word := 0x200000        // 0o10000000
  const TMPFILE: word := 0x400000     // 0o20000000

  /** The union of every defined status flag: what `from_bits_truncate`
      keeps. */
  const KNOWN_STATUS: word :=
    CREATE | EXCL | TRUNC | TMPFILE | APPEND | NONBLOCK | DSYNC | ASYNC
    | DIRECT | SYNC | DIRECTORY | NOFOLLOW | LARGEFILE | NOATIME | CLOEXEC | PATH

  const ACCESS_MASK: word := 3

  /** The three access modes, valued as `O_RDONLY`, `O_WRONLY`, `O_RDWR`. */
  datatype AccessMode = ReadOnly | WriteOnly | ReadWrite

  function AccessBits(a: AccessMode): (r: word)
    ensures r < 3
  {
    match a
    case ReadOnly => 0
    case WriteOnly => 1
    case ReadWrite => 2
  }

  predicate IsReadable(a: AccessMode)
  {
    a == ReadOnly || a == ReadWrite
  }

  predicate IsWritable(a: AccessMode)
  {
    a == WriteOnly || a == ReadWrite
  }

  /** Only read-write access is both readable and writable, and every mode
      is at least one of them. */
  lemma AccessModes(a: AccessMode)
    ensures IsReadable(a) && IsWritable(a) <==> a == ReadWrite
    ensures IsReadable(a) || IsWritable(a)
    ensures !IsReadable(a) <==> AccessBits(a) == 1
    ensures !IsWritable(a) <==> AccessBits(a) == 0
  {
  }

  /** Parsed open flags: the raw word as given, the access mode and the
      known status flags. */
  datatype FileOpen = FileOpen(raw: word, access: AccessMode, status: word)

  datatype InvalidFlags = InvalidFlags

  /** `FileOpen::new`: the low bits `3` are reserved and rejected; the
      status is the rest of the word with unknown bits dropped, and the raw
      word is kept as given. */
  /** The status part of a raw word: the access bits and unknown bits
      cleared, every known status bit kept. */
  function StatusOf(raw: word): (s: word)
    ensures s & ACCESS_MASK == 0 && s & !KNOWN_STATUS == 0
    ensures s | (raw & (ACCESS_MASK | !KNOWN_STATUS)) == raw
  {
    (raw & !ACCESS_MASK) & KNOWN_STATUS
  }

  /** The access bits of a raw word. */
  function AccessOf(raw: word): (a: word)
    ensures a < 4 && a | (raw & !ACCESS_MASK) == raw
  {
    raw & ACCESS_MASK
  }

  function NewFileOpen(raw: word): (r: Result<FileOpen, InvalidFlags>)
    ensures r.Err? <==> AccessOf(raw) == 3
    ensures r.Ok? ==> r.value.raw == raw && AccessBits(r.value.access) == AccessOf(raw)
    ensures r.Ok? ==> r.value.status == StatusOf(raw)
  {
    var accessVal := AccessOf(raw);
    if accessVal == 3 then Err(InvalidFlags)
    else
      var access := if accessVal == 0 then ReadOnly else if accessVal == 1 then WriteOnly else ReadWrite;
      Ok(FileOpen(raw, access, StatusOf(raw)))
  }

  /** The word `x` with the bits of `flag` set; nothing else changes. */
  function SetBits(x: word, flag: word): (r: word)
    ensures r & flag == flag
    ensures r & !flag == x & !flag
  {
    x | flag
  }

  predicate HasBits(x: word, flag: word)
  {
    x & flag == flag
  }

  predicate Has(f: FileOpen, flag: word)
  {
    HasBits(f.status, flag)
  }

  lemma SetBitsKeeps(x: word, flag: word, other: word)
    requires HasBits(x, other)
    ensures HasBits(SetBits(x, flag), other)
  {
  }

  /** `FileOpen::cloexec`: adds CLOEXEC to the status; the raw word that
      `bits()` returns is not updated. */
  function SetCloexec(f: FileOpen): (r: FileOpen)
    ensures Has(r, CLOEXEC) && r.raw == f.raw && r.access == f.access
    ensures r.status == SetBits(f.status, CLOEXEC)
  {
    f.(status := SetBits(f.status, CLOEXEC))
  }

  /** Decoding the word built from an access mode and known status flags
      gives them back. */
  lemma DecodeEncode(a: AccessMode, status: word)
    requires status & ACCESS_MASK == 0 && status & !KNOWN_STATUS == 0
    ensures NewFileOpen(AccessBits(a) | status) == Ok(FileOpen(AccessBits(a) | status, a, status))
  {
    SplitWord(AccessBits(a), status, KNOWN_STATUS);
  }

  lemma SplitWord(low: word, status: word, known: word)
    requires low < 4 && status & 3 == 0 && status & !known == 0
    ensures (low | status) & 3 == low
    ensures ((low | status) & !3) & known == status
  {
  }

  /** `O_RDWR | O_CREAT | O_TRUNC | O_CLOEXEC` decodes to read-write with
      those three status flags. */
  lemma ParseRdwrCreateTruncCloexec()
    ensures var r := NewFileOpen(2 | CREATE | TRUNC | CLOEXEC);
      && r.Ok? && r.value.access == ReadWrite
      && Has(r.value, CREATE) && Has(r.value, TRUNC) && Has(r.value, CLOEXEC)
      && IsReadable(r.value.access) && IsWritable(r.value.access)
  {
  }

  // ----- the builder -----------------------------------------------------

  /** `FileOpenBuilder`: an optional access mode and accumulated status. */
  datatype Builder = Builder(access: Option<AccessMode>, status: word)

  datatype BuildError = MissingAccess | BuildInvalidFlags

  function NewBuilder(): (r: Builder)
    ensures r.access.None? && r.status == 0
  {
    Builder(None, 0)
  }

  function WithAccess(b: Builder, a: AccessMode): (r: Builder)
    ensures r.access == Some(a) && r.status == b.status
  {
    b.(access := Some(a))
  }

  /** The status setters (`create`, `excl`, `truncate`, `append`,
      `cloexec`, `nofollow`) each add one flag. */
  function WithFlag(b: Builder, flag: word): (r: Builder)
    requires IsSetterFlag(flag)
    ensures r.access == b.access && r.status == SetBits(b.status, flag)
  {
    b.(status := SetBits(b.status, flag))
  }

  predicate IsSetterFlag(flag: word)
  {
    flag == CREATE || flag == EXCL || flag == TRUNC || flag == APPEND || flag == CLOEXEC || flag == NOFOLLOW
  }

  /** Builders made by the public setters only ever hold known status bits. */
  predicate KnownStatus(x: word)
  {
    x & ACCESS_MASK == 0 && x & !KNOWN_STATUS == 0
  }

  predicate WellFormed(b: Builder)
  {
    KnownStatus(b.status)
  }

  lemma SetKnownFlag(x: word, flag: word)
    requires KnownStatus(x) && IsSetterFlag(flag)
    ensures KnownStatus(SetBits(x, flag))
  {
  }

  lemma SettersKeepWellFormed(b: Builder, flag: word, a: AccessMode)
    requires WellFormed(b) && IsSetterFlag(flag)
    ensures WellFormed(WithFlag(b, flag)) && WellFormed(WithAccess(b, a))
    ensures WellFormed(NewBuilder())
  {
    SetKnownFlag(b.status, flag);
  }

  /** `FileOpenBuilder::build`: the access mode is required; the word is the
      access bits or'ed with the status bits and parsed again. */
  function Build(b: Builder): (r: Result<FileOpen, BuildError>)
    ensures b.access.None? <==> r == Err(MissingAccess)
  {
    match b.access
    case None => Err(MissingAccess)
    case Some(a) =>
      match NewFileOpen(AccessBits(a) | b.status)
      case Err(_) => Err(BuildInvalidFlags)
      case Ok(f) => Ok(f)
  }

  /** A well-formed builder with an access mode always builds, and the
      result holds exactly the chosen mode and flags. */
  lemma BuildRoundTrip(b: Builder)
    requires WellFormed(b) && b.access.Some?
    ensures Build(b).Ok?
    ensures Build(b).value.access == b.access.value && Build(b).value.status == b.status
  {
    DecodeEncode(b.access.value, b.status);
  }

  /** `options().read_write().create().truncate().cloexec().build()`
      succeeds with read-write access and those flags. */
  lemma BuilderRdwrCreateTruncCloexec()
    ensures var b := WithFlag(WithFlag(WithFlag(WithAccess(NewBuilder(), ReadWrite), CREATE), TRUNC), CLOEXEC);
      var r := Build(b);
      && r.Ok? && r.value.access == ReadWrite
      && Has(r.value, CREATE) && Has(r.value, TRUNC) && Has(r.value, CLOEXEC)
  {
    var b := WithFlag(WithFlag(WithFlag(WithAccess(NewBuilder(), ReadWrite), CREATE), TRUNC), CLOEXEC);
    assert b.status == CREATE | TRUNC | CLOEXEC;
    BuildRoundTrip(b);
  }

  // ----- mount options -----------------------------------------------------

  /** `FsOptions`: string options and the read-only flag. */
  datatype FsOptions = FsOptions(inner: map<string, string>, readOnly: bool)

  /** `FsOptions::get_bool`: the option parsed as `true` or `false`, or the
      default when the key is missing or the value does not parse. */
  function GetBool(opts: FsOptions, key: string, default: bool): (r: bool)
    ensures key !in opts.inner ==> r == default
    ensures key in opts.inner && opts.inner[key] !in {"true", "false"} ==> r == default
    ensures key in opts.inner && opts.inner[key] == "true" ==> r
    ensures key in opts.inner && opts.inner[key] == "false" ==> !r
  {
    if key in opts.inner && opts.inner[key] == "true" then true
    else if key in opts.inner && opts.inner[key] == "false" then false
    else default
  }
}
