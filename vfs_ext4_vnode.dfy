/** The ext4 vnode and its handles as the VFS sees them
    (kernel/comps/vfs/src/impls/ext4_fs/vnode.rs).

    The ext4 library underneath is a collaborator: what its `read`,
    `write`, `getattr` and `listdir` return is a parameter.  An unreadable
    or unwritable handle and an open of the wrong kind of vnode are
    EINVAL, as the VFS's invalid-argument helper reports them. */
module VfsExt4Vnode {

  import opened Common
  import opened Errors
  import opened VfsTypes
  import VfsDevFs

  /** The file types of the ext4 library. */
  datatype FileType = RegularFile | Directory | SymLink | BlockDev | CharacterDev | Fifo | Socket | Unknown

  /** `convert_ftype`: each ext4 file type to the VFS kind of the same
      name, and an unknown type to a regular file. */
  function ConvertFtype(ft: FileType): (k: VnodeType)
    ensures ft == Unknown ==> k == File
  {
    match ft
    case RegularFile => File
    case Directory => VnodeType.Directory
    case SymLink => SymbolicLink
    case BlockDev => BlockDevice
    case CharacterDev => CharDevice
    case Fifo => VnodeType.Fifo
    case Socket => VnodeType.Socket
    case Unknown => File
  }

  /** The mapping is one-to-one apart from `Unknown`, which shares the
      regular file's kind, and every VFS kind is reached. */
  lemma ConvertFtypeSpec(a: FileType, b: FileType, k: VnodeType)
    ensures a != b && ConvertFtype(a) == ConvertFtype(b) ==> {a, b} == {RegularFile, Unknown}
    ensures exists f :: f != Unknown && ConvertFtype(f) == k
  {
    match k
    case File => assert ConvertFtype(RegularFile) == k;
    case Directory => assert ConvertFtype(FileType.Directory) == k;
    case SymbolicLink => assert ConvertFtype(SymLink) == k;
    case BlockDevice => assert ConvertFtype(BlockDev) == k;
    case CharDevice => assert ConvertFtype(CharacterDev) == k;
    case Fifo => assert ConvertFtype(FileType.Fifo) == k;
    case Socket => assert ConvertFtype(FileType.Socket) == k;
  }

  /** The inode number of the root directory. */
  const ROOT_INODE: nat := 2

  /** An ext4 vnode: its inode number and kind. */
  datatype Vnode = Vnode(inode: nat, kind: VnodeType)

  /** `Ext4Vnode::new_root`. */
  function NewRoot(): (v: Vnode)
    ensures v.inode == ROOT_INODE && v.kind == VnodeType.Directory
  {
    Vnode(2, VnodeType.Directory)
  }

  const U64_MOD: int := 0x1_0000_0000_0000_0000

  /** An `isize` sum cast to `u64`: the two's-complement wrap. */
  function WrapU64(x: int): (r: u64)
    ensures 0 <= x < U64_MOD ==> r == x
    ensures -U64_MOD <= x < 0 ==> r == x + U64_MOD
  {
    x % U64_MOD
  }

  /** The reads of a vectored read as the loop performs them: the first
      error ends it, and so does a read of nothing or a read shorter than
      its buffer. */
  function ReadVectored(results: seq<Result<nat, Errno>>, lens: seq<nat>): Result<nat, Errno>
    requires |results| == |lens|
  {
    if results == [] then Ok(0)
    else if results[0].Err? then Err(results[0].error)
    else
      var n := results[0].value;
      if n == 0 || n < lens[0] then Ok(n)
      else
        match ReadVectored(results[1..], lens[1..])
        case Err(e) => Err(e)
        case Ok(t) => Ok(n + t)
  }

  function Total(lens: seq<nat>): nat
  {
    if lens == [] then 0 else lens[0] + Total(lens[1..])
  }

  /** When no read overfills its buffer, a vectored read moves at most the
      buffers' total, and exactly that when every read fills its buffer. */
  lemma {:induction false} ReadVectoredBound(results: seq<Result<nat, Errno>>, lens: seq<nat>)
    requires |results| == |lens|
    requires forall i :: 0 <= i < |results| && results[i].Ok? ==> results[i].value <= lens[i]
    ensures ReadVectored(results, lens).Ok? ==> ReadVectored(results, lens).value <= Total(lens)
    ensures (forall i :: 0 <= i < |results| ==> results[i] == Ok(lens[i]) && lens[i] > 0)
      ==> ReadVectored(results, lens) == Ok(Total(lens))
  {
    if results != [] {
      assert forall i :: 1 <= i < |results| ==> results[1..][i - 1] == results[i] && lens[1..][i - 1] == lens[i];
      ReadVectoredBound(results[1..], lens[1..]);
    }
  }

  /** The reads after `i` full ones, seen from the start. */
  lemma ReadVectoredPrefix(results: seq<Result<nat, Errno>>, lens: seq<nat>, i: nat, done: nat)
    requires |results| == |lens| && i <= |results|
    requires forall j :: 0 <= j < i ==> results[j].Ok? && results[j].value != 0 && results[j].value >= lens[j]
    requires done == VfsDevFs.Done(results[..i])
    ensures ReadVectored(results, lens) == (match ReadVectored(results[i..], lens[i..])
                                           case Err(e) => Err(e)
                                           case Ok(t) => Ok(done + t))
    decreases i
  {
    if i > 0 {
      assert results[..i][1..] == results[1..][..i - 1];
      ReadVectoredPrefix(results[1..], lens[1..], i - 1, done - results[0].value);
      assert results[1..][i - 1..] == results[i..];
      assert lens[1..][i - 1..] == lens[i..];
    }
  }

  /** `Ext4FileHandle`: the open flags, the vnode and the seek offset. */
  class FileHandle {
    const flags: FileOpen
    const vnode: Vnode
    var offset: u64

    constructor(vnode: Vnode, flags: FileOpen)
      ensures this.vnode == vnode && this.flags == flags && offset == 0
    {
      this.vnode := vnode;
      this.flags := flags;
      offset := 0;
    }

    /** `read_at`: only a readable handle reads; `fs` is what the ext4
        read answers. */
    function ReadAt(fs: Result<nat, Errno>): (r: Result<nat, Errno>)
      ensures !IsReadable(flags.access) ==> r == Err(EINVAL)
      ensures IsReadable(flags.access) ==> r == fs
    {
      if !IsReadable(flags.access) then Err(EINVAL) else fs
    }

    /** `write_at`: only a writable handle writes. */
    function WriteAt(fs: Result<nat, Errno>): (r: Result<nat, Errno>)
      ensures !IsWritable(flags.access) ==> r == Err(EINVAL)
      ensures IsWritable(flags.access) ==> r == fs
    {
      if !IsWritable(flags.access) then Err(EINVAL) else fs
    }

    /** What each `read_at` of a vectored read answers. */
    function ReadResults(results: seq<Result<nat, Errno>>): (r: seq<Result<nat, Errno>>)
      ensures |r| == |results|
      ensures forall i :: 0 <= i < |r| ==> r[i] == ReadAt(results[i])
    {
      seq(|results|, i requires 0 <= i < |results| => ReadAt(results[i]))
    }

    /** `read_vectored_at`: buffers are read in turn at the advancing
        offset until an error, an empty read or a short read.  `lens` are
        the buffer lengths and `results` what ext4 answers for each;
        `offsets` are the offsets of the reads made. */
    method ReadVectoredAt(off: nat, lens: seq<nat>, results: seq<Result<nat, Errno>>)
      returns (r: Result<nat, Errno>, offsets: seq<nat>)
      requires |results| == |lens|
      ensures r == ReadVectored(ReadResults(results), lens)
      ensures !IsReadable(flags.access) && lens != [] ==> r == Err(EINVAL)
      ensures |offsets| <= |lens|
      ensures forall i :: 0 <= i < |offsets| ==> offsets[i] == off + VfsDevFs.Done(ReadResults(results)[..i])
    {
      var rs := ReadResults(results);
      var total := 0;
      offsets := [];
      var i := 0;
      while i < |rs|
        invariant 0 <= i <= |rs| && |offsets| == i
        invariant forall j :: 0 <= j < i ==> rs[j].Ok? && rs[j].value != 0 && rs[j].value >= lens[j]
        invariant total == VfsDevFs.Done(rs[..i])
        invariant forall j :: 0 <= j < i ==> offsets[j] == off + VfsDevFs.Done(rs[..j])
      {
        offsets := offsets + [off + total];
        var n := ReadAt(results[i]);
        if n.Err? {
          ReadVectoredPrefix(rs, lens, i, total);
          return Err(n.error), offsets;
        }
        if n.value == 0 || n.value < lens[i] {
          ReadVectoredPrefix(rs, lens, i, total);
          return Ok(total + n.value), offsets;
        }
        VfsDevFs.DoneSnoc(rs, i);
        total := total + n.value;
        i := i + 1;
      }
      ReadVectoredPrefix(rs, lens, i, total);
      return Ok(total), offsets;
    }

    /** `write_vectored_at`: every buffer is written in turn at the
        advancing offset, as the character device does; the first error
        ends it. */
    method WriteVectoredAt(off: nat, results: seq<Result<nat, Errno>>)
      returns (r: Result<nat, Errno>, offsets: seq<nat>)
      ensures !IsWritable(flags.access) && results != [] ==> r == Err(EINVAL)
      ensures IsWritable(flags.access) ==> r == VfsDevFs.Vectored(results)
    {
      var ws := seq(|results|, i requires 0 <= i < |results| => WriteAt(results[i]));
      assert ws != [] ==> ws[0] == WriteAt(results[0]);
      r, offsets := VfsDevFs.VectoredAt(off, ws);
      assert IsWritable(flags.access) ==> ws == results;
    }

    /** `seek`: from the start, from the end given by the metadata (whose
        fetch may fail) or from the current offset; sums wrap as the
        `isize`-to-`u64` cast does. */
    method Seek(pos: SeekFrom, size: Result<nat, Errno>) returns (r: Result<u64, Errno>)
      modifies this
      ensures pos.Start? ==> r == Ok(WrapU64(pos.pos)) && offset == r.value
      ensures pos.End? && size.Err? ==> r == Err(size.error) && offset == old(offset)
      ensures pos.End? && size.Ok? ==> r == Ok(WrapU64(size.value + pos.delta)) && offset == r.value
      ensures pos.Current? ==> r == Ok(WrapU64(old(offset) + pos.delta)) && offset == r.value
    {
      if pos.Start? {
        offset := WrapU64(pos.pos);
      } else if pos.End? {
        if size.Err? {
          return Err(size.error);
        }
        offset := WrapU64(size.value + pos.delta);
      } else {
        offset := WrapU64(offset + pos.delta);
      }
      return Ok(offset);
    }
  }

  /** Seeking forward by `n` and back by `n` from the current offset
      returns to it, wrap-around included. */
  lemma SeekBackAndForth(offset: u64, n: int)
    ensures WrapU64(WrapU64(offset + n) + -n) == offset
  {
    var a := offset + n;
    var q := a / U64_MOD;
    assert a == q * U64_MOD + WrapU64(a);
    assert WrapU64(a) + -n == offset - q * U64_MOD;
    DivModUnique(offset - q * U64_MOD, U64_MOD, -q, offset);
  }

  // ----- directory handles -------------------------------------------------

  /** The slice `read_dir_chunk` copies as written: from the index, as many
      entries as fit and remain (the remainder saturating at zero). */
  function DirChunkAsWritten(count: nat, idx: nat, bufLen: nat): (nat, nat)
  {
    var remain := if count >= idx then count - idx else 0;
    (idx, idx + Min(bufLen, remain))
  }

  /** After `seek_dir` past the end, the saturating remainder makes the
      chunk empty but the copy still slices the entries from an index past
      their end, which panics. */
  lemma DirChunkPastEndAsWritten()
    ensures var (start, end) := DirChunkAsWritten(1, 2, 4);
      start == end && start > 1
  {
  }

  /** `Ext4DirHandle`: an index into the entries read at open time. */
  class DirHandle {
    var idx: nat
    const entries: seq<DirectoryEntry>

    constructor(entries: seq<DirectoryEntry>)
      ensures idx == 0 && this.entries == entries
    {
      idx := 0;
      this.entries := entries;
    }

    /** `read_dir_chunk` with nothing copied when the index is past the
        end: as many entries as fit go into `buf` in order, and the index
        moves past them. */
    method ReadDirChunk(buf: array<DirectoryEntry>) returns (n: nat)
      modifies this, buf
      ensures n == Min(buf.Length, if |entries| >= old(idx) then |entries| - old(idx) else 0)
      ensures idx == old(idx) + n
      ensures n > 0 ==> old(idx) + n <= |entries| && buf[..n] == entries[old(idx)..idx]
      ensures buf[n..] == old(buf[n..])
      ensures old(idx) <= |entries| ==> idx <= |entries|
    {
      var remain := if |entries| >= idx then |entries| - idx else 0;
      n := Min(buf.Length, remain);
      var i := 0;
      while i < n
        invariant 0 <= i <= n && idx == old(idx)
        invariant n > 0 ==> idx + n <= |entries| && buf[..i] == entries[idx..idx + i]
        invariant buf[n..] == old(buf[n..])
      {
        buf[i] := entries[idx + i];
        i := i + 1;
      }
      idx := idx + n;
    }

    /** `seek_dir`. */
    method SeekDir(offset: nat)
      modifies this
      ensures idx == offset
    {
      idx := offset;
    }
  }

  /** `FileCap::open`: only a regular file opens, at offset zero. */
  function Open(v: Vnode, flags: FileOpen): (r: Result<FileOpen, Errno>)
    ensures r.Err? <==> v.kind != File
    ensures r.Err? ==> r.error == EINVAL
    ensures r.Ok? ==> r.value == flags
  {
    if v.kind != File then Err(EINVAL) else Ok(flags)
  }

  /** `DirCap::open_dir`: only a directory opens; a failed listing is
      EIO; entries whose attributes cannot be read are skipped.  `list`
      is the listing with each entry's attribute lookup. */
  function OpenDir(v: Vnode, list: Result<seq<(string, nat, Option<FileType>)>, Errno>): (r: Result<seq<DirectoryEntry>, Errno>)
    ensures v.kind != VnodeType.Directory ==> r == Err(EINVAL)
    ensures v.kind == VnodeType.Directory && list.Err? ==> r == Err(EIO)
    ensures r.Ok? ==> list.Ok? && r.value == Listed(list.value)
  {
    if v.kind != VnodeType.Directory then Err(EINVAL)
    else if list.Err? then Err(EIO)
    else Ok(Listed(list.value))
  }

  /** Entry `i` of the listing had its attributes read and became `e`. */
  predicate IsListed(list: seq<(string, nat, Option<FileType>)>, i: int, e: DirectoryEntry)
  {
    0 <= i < |list| && list[i].2.Some?
    && e == DirectoryEntry(list[i].0, list[i].1, ConvertFtype(list[i].2.value))
  }

  /** The entries whose attributes were read, in listing order: an entry
      is there exactly when some listed entry had its attributes read and
      converts to it. */
  function Listed(list: seq<(string, nat, Option<FileType>)>): (r: seq<DirectoryEntry>)
    ensures |r| <= |list|
    ensures forall e :: e in r <==> exists i :: IsListed(list, i, e)
  {
    if list == [] then []
    else
      var rest := Listed(list[1..]);
      var head := match list[0].2
        case None => []
        case Some(ft) => [DirectoryEntry(list[0].0, list[0].1, ConvertFtype(ft))];
      assert forall e :: e in head + rest <==> exists i :: IsListed(list, i, e) by {
        forall e
          ensures e in head + rest <==> exists i :: IsListed(list, i, e)
        {
          if e in rest {
            var j :| IsListed(list[1..], j, e);
            assert IsListed(list, j + 1, e);
          }
          if e in head {
            assert IsListed(list, 0, e);
          }
          if i :| IsListed(list, i, e) {
            if i > 0 {
              assert IsListed(list[1..], i - 1, e);
            }
          }
        }
      }
      head + rest
  }

  /** Listing two runs of entries one after the other keeps each run's
      entries, in order: together with the one-entry cases this fixes
      the order and the number of the entries kept. */
  lemma {:induction false} ListedAppend(a: seq<(string, nat, Option<FileType>)>, b: seq<(string, nat, Option<FileType>)>)
    ensures Listed(a + b) == Listed(a) + Listed(b)
    decreases |a|
  {
    if a == [] {
      assert a + b == b;
    } else {
      assert (a + b)[1..] == a[1..] + b;
      assert (a + b)[0] == a[0];
      ListedCons(a + b);
      ListedCons(a);
      ListedAppend(a[1..], b);
      ConcatAssoc(ListedHead(a[0]), Listed(a[1..]), Listed(b));
    }
  }

  /** What one listed entry contributes. */
  function ListedHead(x: (string, nat, Option<FileType>)): seq<DirectoryEntry>
  {
    match x.2
    case None => []
    case Some(ft) => [DirectoryEntry(x.0, x.1, ConvertFtype(ft))]
  }

  lemma ListedCons(list: seq<(string, nat, Option<FileType>)>)
    requires list != []
    ensures Listed(list) == ListedHead(list[0]) + Listed(list[1..])
  {
  }

  lemma ConcatAssoc(x: seq<DirectoryEntry>, y: seq<DirectoryEntry>, z: seq<DirectoryEntry>)
    ensures x + (y + z) == (x + y) + z
  {
  }

  /** A single listed entry is kept, converted, exactly when its
      attributes were read. */
  lemma ListedOne(name: string, ino: nat, attr: Option<FileType>)
    ensures attr.None? ==> Listed([(name, ino, attr)]) == []
    ensures attr.Some? ==> Listed([(name, ino, attr)]) == [DirectoryEntry(name, ino, ConvertFtype(attr.value))]
  {
    assert [(name, ino, attr)][1..] == [];
  }
}
