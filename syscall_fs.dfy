/** The file-system system calls whose logic is more than glue
    (kernel/src/syscall/fs.rs): the `linux_dirent64` records `getdents64`
    writes, the buffer check of `getcwd`, and the argument handling of
    `dup` and `dup3`.

    User memory is the sequence of bytes written from the user buffer's
    start; only its first `writable` bytes can be written, and a write
    reaching past them faults with EFAULT.  Directory entries come from the
    directory handle, which is not part of this model: the chunk it yields
    is a parameter. */
module SyscallFs {

  import opened Common
  import opened Errors
  import opened Mm
  import opened FdTables
  import opened VfsTypes

  // ----- little-endian integers ----------------------------------------------

  function Pow256(n: nat): (r: nat)
    ensures r >= 1
  {
    if n == 0 then 1 else 256 * Pow256(n - 1)
  }

  /** `to_le_bytes`: `n` bytes, least significant first. */
  function LeBytes(x: nat, n: nat): (b: seq<u8>)
    ensures |b| == n
  {
    if n == 0 then [] else [x % 256] + LeBytes(x / 256, n - 1)
  }

  /** The number `n` little-endian bytes stand for. */
  function FromLe(b: seq<u8>): nat
  {
    if b == [] then 0 else b[0] + 256 * FromLe(b[1..])
  }

  /** Reading back a number written in enough bytes gives the number. */
  lemma {:induction false} LeRoundTrip(x: nat, n: nat)
    requires x < Pow256(n)
    ensures FromLe(LeBytes(x, n)) == x
  {
    if n > 0 {
      DivModUnique(x, 256, x / 256, x % 256);
      assert x / 256 < Pow256(n - 1);
      LeRoundTrip(x / 256, n - 1);
      assert LeBytes(x, n)[1..] == LeBytes(x / 256, n - 1);
    }
  }

  // ----- linux_dirent64 -----------------------------------------------------

  /** A directory entry as the directory handle yields it. */
  datatype DirEntry = DirEntry(vnodeId: nat, kind: u8, name: seq<u8>)

  /** `d_reclen`: inode (8), offset (8), record length (2), type (1), the
      name and its NUL. */
  function RecLen(d: DirEntry): (n: nat)
    ensures n == 20 + |d.name|
  {
    8 + 8 + 2 + 1 + |d.name| + 1
  }

  /** An entry whose fields fit their record fields. */
  predicate Encodable(d: DirEntry)
  {
    d.vnodeId < Pow256(8) && RecLen(d) < Pow256(2)
  }

  /** One record, its fields in the order written: inode, offset 0, record
      length (as `u16`), type, name, NUL. */
  function Record(d: DirEntry): (b: seq<u8>)
    ensures |b| == RecLen(d)
  {
    LeBytes(d.vnodeId, 8) + LeBytes(0, 8) + LeBytes(RecLen(d) % 65536, 2) + [d.kind] + d.name + [0]
  }

  /** The records of several entries, one after the other. */
  function Encoded(ds: seq<DirEntry>): seq<u8>
  {
    if ds == [] then [] else Encoded(ds[..|ds| - 1]) + Record(ds[|ds| - 1])
  }

  /** The record at the front of `b` and what follows it, if `b` starts
      with a well-formed record. */
  function DecodeRecord(b: seq<u8>): (r: Option<(DirEntry, seq<u8>)>)
    ensures r.Some? ==> |r.value.1| + 20 <= |b|
  {
    if |b| < 20 then None
    else
      var reclen := FromLe(b[16..18]);
      if reclen < 20 || reclen > |b| || b[reclen - 1] != 0 then None
      else Some((DirEntry(FromLe(b[..8]), b[18], b[19..reclen - 1]), b[reclen..]))
  }

  /** All the records of `b`, if `b` is a sequence of well-formed records. */
  function DecodeAll(b: seq<u8>): Option<seq<DirEntry>>
    decreases |b|
  {
    if b == [] then Some([])
    else match DecodeRecord(b)
      case None => None
      case Some((d, rest)) =>
        match DecodeAll(rest)
        case None => None
        case Some(ds) => Some([d] + ds)
  }

  lemma RecordFields(d: DirEntry)
    ensures var b := Record(d);
      && b[..8] == LeBytes(d.vnodeId, 8)
      && b[16..18] == LeBytes(RecLen(d) % 65536, 2)
      && b[18] == d.kind && b[19..RecLen(d) - 1] == d.name && b[RecLen(d) - 1] == 0
  {
  }

  /** A record is read back as the entry it encodes, whatever follows. */
  lemma RecordRoundTrip(d: DirEntry, rest: seq<u8>)
    requires Encodable(d)
    ensures DecodeRecord(Record(d) + rest) == Some((d, rest))
  {
    var b := Record(d) + rest;
    RecordFields(d);
    assert b[..8] == Record(d)[..8];
    assert b[16..18] == Record(d)[16..18];
    assert b[19..RecLen(d) - 1] == Record(d)[19..RecLen(d) - 1];
    assert b[RecLen(d)..] == rest;
    LeRoundTrip(d.vnodeId, 8);
    LeRoundTrip(RecLen(d) % 65536, 2);
  }

  lemma EncodedCons(d: DirEntry, ds: seq<DirEntry>)
    ensures Encoded([d] + ds) == Record(d) + Encoded(ds)
    decreases |ds|
  {
    if ds != [] {
      assert ([d] + ds)[..|ds|] == [d] + ds[..|ds| - 1];
      EncodedCons(d, ds[..|ds| - 1]);
    }
  }

  /** The records `getdents64` writes are read back as the entries they
      came from, in order. */
  lemma {:induction false} DecodeEncoded(ds: seq<DirEntry>)
    requires forall i :: 0 <= i < |ds| ==> Encodable(ds[i])
    ensures DecodeAll(Encoded(ds)) == Some(ds)
    decreases |ds|
  {
    if ds != [] {
      EncodedCons(ds[0], ds[1..]);
      assert [ds[0]] + ds[1..] == ds;
      RecordRoundTrip(ds[0], Encoded(ds[1..]));
      DecodeEncoded(ds[1..]);
    }
  }

  lemma {:induction false} EncodedLength(ds: seq<DirEntry>)
    ensures |Encoded(ds)| == Sum(RecLens(ds))
    decreases |ds|
  {
    if ds != [] {
      EncodedLength(ds[..|ds| - 1]);
      assert RecLens(ds)[..|ds| - 1] == RecLens(ds[..|ds| - 1]);
    }
  }

  function RecLens(ds: seq<DirEntry>): (r: seq<nat>)
    ensures |r| == |ds| && forall i :: 0 <= i < |ds| ==> r[i] == RecLen(ds[i])
  {
    if ds == [] then [] else RecLens(ds[..|ds| - 1]) + [RecLen(ds[|ds| - 1])]
  }

  /** How many leading entries fit in `budget` bytes, stopping at the first
      that does not. */
  function FitCount(ds: seq<DirEntry>, budget: nat): (k: nat)
    ensures k <= |ds|
  {
    if ds == [] || RecLen(ds[0]) > budget then 0
    else 1 + FitCount(ds[1..], budget - RecLen(ds[0]))
  }

  /** The records of the entries that fit take at most the budget. */
  lemma {:induction false} FitWithin(ds: seq<DirEntry>, budget: nat)
    ensures |Encoded(ds[..FitCount(ds, budget)])| <= budget
    decreases |ds|
  {
    var k := FitCount(ds, budget);
    if k > 0 {
      FitWithin(ds[1..], budget - RecLen(ds[0]));
      assert ds[..k] == [ds[0]] + ds[1..][..k - 1];
      EncodedCons(ds[0], ds[1..][..k - 1]);
    }
  }

  lemma EncodedSnoc(ds: seq<DirEntry>, i: nat)
    requires i < |ds|
    ensures Encoded(ds[..i + 1]) == Encoded(ds[..i]) + Record(ds[i])
  {
    assert ds[..i + 1][..i] == ds[..i];
  }

  lemma {:induction false} EncodedPrefix(ds: seq<DirEntry>, i: nat, k: nat)
    requires i <= k <= |ds|
    ensures |Encoded(ds[..i])| <= |Encoded(ds[..k])|
    ensures Encoded(ds[..k])[..|Encoded(ds[..i])|] == Encoded(ds[..i])
    decreases k - i
  {
    if i < k {
      EncodedPrefix(ds, i, k - 1);
      EncodedSnoc(ds, k - 1);
    }
  }

  lemma FitStep(ds: seq<DirEntry>, i: nat, budget: nat)
    requires i < |ds| && RecLen(ds[i]) <= budget
    ensures FitCount(ds[i..], budget) == 1 + FitCount(ds[i + 1..], budget - RecLen(ds[i]))
  {
    assert ds[i..][1..] == ds[i + 1..];
  }

  /** One field written at the end of what has been written: EFAULT when
      it would pass the writable bytes. */
  method WriteField(written: seq<u8>, data: seq<u8>, writable: nat)
    returns (ok: bool, next: seq<u8>)
    ensures ok <==> |written| + |data| <= writable
    ensures next == if ok then written + data else written
  {
    if |written| + |data| > writable {
      return false, written;
    }
    return true, written + data;
  }

  /** The fields of a record in the order they are written. */
  function Fields(d: DirEntry): seq<seq<u8>>
  {
    [LeBytes(d.vnodeId, 8), LeBytes(0, 8), LeBytes(RecLen(d) % 65536, 2), [d.kind], d.name, [0]]
  }

  function Flatten(fs: seq<seq<u8>>): seq<u8>
  {
    if fs == [] then [] else Flatten(fs[..|fs| - 1]) + fs[|fs| - 1]
  }

  lemma FieldsMakeRecord(d: DirEntry)
    ensures Flatten(Fields(d)) == Record(d)
  {
    var fs := Fields(d);
    assert fs[..1][..0] == fs[..0];
    assert Flatten(fs[..1]) == fs[0];
    assert fs[..2][..1] == fs[..1];
    assert Flatten(fs[..2]) == fs[0] + fs[1];
    assert fs[..3][..2] == fs[..2];
    assert Flatten(fs[..3]) == fs[0] + fs[1] + fs[2];
    assert fs[..4][..3] == fs[..3];
    assert Flatten(fs[..4]) == fs[0] + fs[1] + fs[2] + fs[3];
    assert fs[..5][..4] == fs[..4];
    assert Flatten(fs[..5]) == fs[0] + fs[1] + fs[2] + fs[3] + fs[4];
    assert fs[..6][..5] == fs[..5];
    assert fs[..6] == fs;
  }

  lemma {:induction false} FlattenPrefix(fs: seq<seq<u8>>, j: nat)
    requires j <= |fs|
    ensures |Flatten(fs[..j])| <= |Flatten(fs)|
    ensures Flatten(fs)[..|Flatten(fs[..j])|] == Flatten(fs[..j])
    decreases |fs| - j
  {
    if j < |fs| {
      FlattenPrefix(fs, j + 1);
      assert fs[..j + 1][..j] == fs[..j];
    } else {
      assert fs[..j] == fs;
    }
  }

  /** The six fields of one record written one after the other; a field
      that faults stops the record, the fields before it staying
      written. */
  method WriteRecord(written: seq<u8>, d: DirEntry, writable: nat)
    returns (ok: bool, next: seq<u8>)
    requires |written| <= writable
    ensures ok <==> |written| + RecLen(d) <= writable
    ensures ok ==> next == written + Record(d)
    ensures !ok ==> |written| <= |next| <= writable && next == written + Record(d)[..|next| - |written|]
  {
    var fs := Fields(d);
    next := written;
    var j := 0;
    while j < |fs|
      invariant j <= |fs| && next == written + Flatten(fs[..j]) && |next| <= writable
    {
      var n2;
      ok, n2 := WriteField(next, fs[j], writable);
      FieldStep(written, d, j, next);
      if !ok {
        return;
      }
      next := n2;
      j := j + 1;
    }
    FieldsPrefix(d, j);
    return true, next;
  }

  /** What has been written after `j` fields is a prefix of the record,
      and the next field extends it within the record. */
  lemma FieldStep(written: seq<u8>, d: DirEntry, j: nat, next: seq<u8>)
    requires j < 6 && next == written + Flatten(Fields(d)[..j])
    ensures next + Fields(d)[j] == written + Flatten(Fields(d)[..j + 1])
    ensures |next| + |Fields(d)[j]| <= |written| + RecLen(d)
    ensures next == written + Record(d)[..|next| - |written|]
  {
    FieldsPrefix(d, j);
    FieldsPrefix(d, j + 1);
  }

  /** The first `j` fields are the first bytes of the record, and one more
      field extends them. */
  lemma FieldsPrefix(d: DirEntry, j: nat)
    requires j <= 6
    ensures var fs := Fields(d);
      && |Flatten(fs[..j])| <= RecLen(d)
      && Flatten(fs[..j]) == Record(d)[..|Flatten(fs[..j])|]
      && (j < 6 ==> Flatten(fs[..j + 1]) == Flatten(fs[..j]) + fs[j])
      && (j == 6 ==> Flatten(fs[..j]) == Record(d))
  {
    var fs := Fields(d);
    FieldsMakeRecord(d);
    FlattenPrefix(fs, j);
    if j < 6 {
      assert fs[..j + 1][..j] == fs[..j];
    } else {
      assert fs[..j] == fs;
    }
  }

  /** `do_getdents64`: the records of the leading entries that fit in `len`
      bytes, stopping at the first that does not; the result is the number
      of bytes written.  A write that faults returns EFAULT, what was
      written before it staying in user memory. */
  method Getdents64(chunk: seq<DirEntry>, len: nat, writable: nat)
    returns (r: Result<nat, Errno>, written: seq<u8>)
    ensures var all := Encoded(chunk[..FitCount(chunk, len)]);
      && |all| <= len
      && (|all| <= writable ==> r == Ok(|all|) && written == all)
      && (|all| > writable ==> r == Err(EFAULT) && |written| <= writable && written == all[..|written|])
  {
    var k := FitCount(chunk, len);
    FitWithin(chunk, len);
    written := [];
    var i := 0;
    while i < |chunk|
      invariant i <= k
      invariant written == Encoded(chunk[..i]) && |written| <= len && |written| <= writable
      invariant k == i + FitCount(chunk[i..], len - |written|)
    {
      if |written| + RecLen(chunk[i]) > len {
        break;
      }
      var ok, next := WriteEntry(chunk, len, writable, k, i, written);
      if !ok {
        return Err(EFAULT), next;
      }
      written := next;
      i := i + 1;
    }
    StopsAtFit(chunk, len, k, i, |written|);
    return Ok(|written|), written;
  }

  /** One iteration of `do_getdents64` for an entry that fits: its record
      is written after those before it, or a fault leaves a prefix of all
      the records that fit, which then do not fit the writable bytes. */
  method WriteEntry(chunk: seq<DirEntry>, len: nat, writable: nat, k: nat, i: nat, written: seq<u8>)
    returns (ok: bool, next: seq<u8>)
    requires i < |chunk| && written == Encoded(chunk[..i]) && |written| <= writable
    requires |written| + RecLen(chunk[i]) <= len
    requires k == i + FitCount(chunk[i..], len - |written|)
    ensures i < k
    ensures ok ==>
      && next == Encoded(chunk[..i + 1]) && |next| <= writable && |next| <= len
      && k == i + 1 + FitCount(chunk[i + 1..], len - |next|)
    ensures !ok ==>
      && |Encoded(chunk[..k])| > writable && |next| <= writable
      && next == Encoded(chunk[..k])[..|next|]
  {
    ChunkStep(chunk, len, k, i, written);
    ok, next := WriteRecord(written, chunk[i], writable);
    if !ok {
      FaultPrefix(chunk, k, i, written, next);
    }
  }

  /** One more entry fits: it is counted, and its record follows the
      records before it. */
  lemma ChunkStep(chunk: seq<DirEntry>, len: nat, k: nat, i: nat, written: seq<u8>)
    requires i < |chunk| && written == Encoded(chunk[..i])
    requires |written| + RecLen(chunk[i]) <= len
    requires k == i + FitCount(chunk[i..], len - |written|)
    ensures i < k && k == i + 1 + FitCount(chunk[i + 1..], len - (|written| + RecLen(chunk[i])))
    ensures Encoded(chunk[..i + 1]) == written + Record(chunk[i])
  {
    var budget: nat := len - |written|;
    FitStep(chunk, i, budget);
    var rest: nat := budget - RecLen(chunk[i]);
    assert rest == len - (|written| + RecLen(chunk[i]));
    EncodedSnoc(chunk, i);
  }

  /** A record cut short by a fault leaves a prefix of the records of all
      entries that fit, and those do not fit the writable bytes. */
  lemma FaultPrefix(chunk: seq<DirEntry>, k: nat, i: nat, before: seq<u8>, written: seq<u8>)
    requires i < k <= |chunk| && before == Encoded(chunk[..i])
    requires |before| <= |written| < |before| + RecLen(chunk[i])
    requires written == before + Record(chunk[i])[..|written| - |before|]
    ensures |before| + RecLen(chunk[i]) <= |Encoded(chunk[..k])|
    ensures written == Encoded(chunk[..k])[..|written|]
  {
    EncodedSnoc(chunk, i);
    EncodedPrefix(chunk, i + 1, k);
    var rec := Encoded(chunk[..i + 1]);
    assert written == rec[..|written|];
  }

  /** The loop stops exactly at the count of entries that fit. */
  lemma StopsAtFit(chunk: seq<DirEntry>, len: nat, k: nat, i: nat, used: nat)
    requires i <= |chunk| && used <= len
    requires k == i + FitCount(chunk[i..], len - used)
    requires i < |chunk| ==> used + RecLen(chunk[i]) > len
    ensures i == k
  {
    if i < |chunk| {
      assert FitCount(chunk[i..], len - used) == 0;
    }
  }

  // ----- getcwd ---------------------------------------------------------------

  /** What `getcwd` writes: the bytes, where, and the length of the mapping
      it creates when the caller gave no buffer. */
  datatype CwdWrite = CwdWrite(addr: nat, bytes: seq<u8>, mappedLen: Option<nat>)

  /** `do_getcwd`: with a buffer, ERANGE when it cannot hold the path and
      its NUL, otherwise the path and a NUL written at the buffer, whose
      address is returned.  Without a buffer, an anonymous mapping of the
      needed size rounded up to whole pages is made (`mapped`, the address
      the root VMAR gives or its error) and the path written there.  A
      write that faults returns `writeError`. */
  function Getcwd(cwd: seq<u8>, bufPtr: nat, len: nat, mapped: Result<nat, Errno>, writeError: Option<Errno>)
    : (r: Result<CwdWrite, Errno>)
    ensures bufPtr != 0 && len < |cwd| + 1 ==> r == Err(ERANGE)
    ensures r.Ok? ==> r.value.bytes == cwd + [0] && writeError.None?
    ensures r.Ok? && bufPtr != 0 ==> r.value.addr == bufPtr && |r.value.bytes| <= len && r.value.mappedLen.None?
    ensures r.Ok? && bufPtr == 0 ==>
      && mapped.Ok? && r.value.addr == mapped.value
      && r.value.mappedLen == Some(AlignUp(|cwd| + 1, PAGE_SIZE))
      && |r.value.bytes| <= r.value.mappedLen.value < |r.value.bytes| + PAGE_SIZE
    ensures r.Err? && !(bufPtr != 0 && len < |cwd| + 1) ==> writeError.Some? || (bufPtr == 0 && mapped.Err?)
  {
    var needed := |cwd| + 1;
    if bufPtr != 0 then
      if len < needed then Err(ERANGE)
      else if writeError.Some? then Err(writeError.value)
      else Ok(CwdWrite(bufPtr, cwd + [0], None))
    else if mapped.Err? then Err(mapped.error)
    else if writeError.Some? then Err(writeError.value)
    else Ok(CwdWrite(mapped.value, cwd + [0], Some(AlignUp(needed, PAGE_SIZE))))
  }

  // ----- dup and dup3 -------------------------------------------------------

  const O_CLOEXEC: bv64 := 0x8_0000

  /** `fd as u32`: the low 32 bits of the argument. */
  function Fd32(fd: nat): u32
  {
    fd % 0x1_0000_0000
  }

  /** The argument handling of `do_dup3` as written: the two descriptors
      are compared as 64-bit arguments, before either is cut to 32 bits. */
  function Dup3ArgsAsWritten(oldfd: nat, newfd: nat, flags: bv64): (r: Result<(u32, u32, bool), Errno>)
    ensures r.Err? <==> oldfd == newfd
  {
    if oldfd == newfd then Err(EINVAL) else Ok((Fd32(oldfd), Fd32(newfd), (flags & O_CLOEXEC) != 0))
  }

  /** Two arguments that differ above bit 31 pass the check and name the
      same descriptor. */
  lemma Dup3SameFdAsWritten()
    ensures var r := Dup3ArgsAsWritten(1, 0x1_0000_0001, 0);
      r.Ok? && r.value.0 == r.value.1
  {
  }

  /** The argument handling of `dup3`, comparing the descriptors the table
      sees: EINVAL when they are the same; close-on-exec exactly when
      `O_CLOEXEC` is in the flags. */
  function Dup3Args(oldfd: nat, newfd: nat, flags: bv64): (r: Result<(u32, u32, bool), Errno>)
    ensures r.Err? <==> Fd32(oldfd) == Fd32(newfd)
    ensures r.Err? ==> r.error == EINVAL
    ensures r.Ok? ==> r.value == (Fd32(oldfd), Fd32(newfd), (flags & O_CLOEXEC) != 0)
    ensures r.Ok? ==> Dup3ArgsAsWritten(oldfd, newfd, flags) == r
  {
    if Fd32(oldfd) == Fd32(newfd) then Err(EINVAL)
    else Ok((Fd32(oldfd), Fd32(newfd), (flags & O_CLOEXEC) != 0))
  }

  /** `do_dup3`: the checked arguments handed to the table's `dup3`; a
      refused call leaves the table as it was. */
  method Dup3Syscall(table: FdTable, oldfd: nat, newfd: nat, flags: bv64) returns (r: Result<nat, Errno>)
    modifies table
    ensures Fd32(oldfd) == Fd32(newfd) ==> r == Err(EINVAL) && table.entries == old(table.entries)
    ensures Fd32(oldfd) != Fd32(newfd) ==>
      var (o, n, cloexec) := (Fd32(oldfd), Fd32(newfd), (flags & O_CLOEXEC) != 0);
      && (o !in old(table.entries) || n >= table.capacity ==> r == Err(EBADF) && table.entries == old(table.entries))
      && (o in old(table.entries) && n < table.capacity ==>
            var e := old(table.entries)[o];
            && r == Ok(n as nat)
            && table.entries == old(table.entries)[n := if cloexec then e.(flags := SetCloexec(e.flags)) else e])
    ensures table.next == old(table.next)
  {
    var args := Dup3Args(oldfd, newfd, flags);
    if args.Err? {
      return Err(args.error);
    }
    var (o, n, cloexec) := args.value;
    r := table.Dup3(o, n, cloexec);
  }

  /** `do_dup`: the table's `dup` on the descriptor cut to 32 bits. */
  method DupSyscall(table: FdTable, oldfd: nat) returns (r: Result<nat, Errno>)
    modifies table
    ensures Fd32(oldfd) !in old(table.entries) ==> r == Err(EBADF) && table.entries == old(table.entries)
    ensures r.Ok? ==>
      (&& r.value < U32_MAX && r.value != Fd32(oldfd)
       && table.entries == old(table.entries)[r.value as u32 := old(table.entries)[Fd32(oldfd)]])
  {
    r := table.Dup(Fd32(oldfd));
  }
}
