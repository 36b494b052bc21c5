/** The per-process file-descriptor table (kernel/src/thread/fd_table.rs):
    a map from descriptor numbers to open files or directories with their
    descriptor flags, the number the next search starts from, and a
    capacity (`OPEN_MAX` when none is given).

    Open file and directory handles are represented by an id.  Opening
    the path of a standard stream goes through the path resolver, a
    collaborator: the handle it produces, or its error, is a parameter. */
module FdTables {

  import opened Common
  import opened Errors
  import opened VfsTypes

  const STDIN: u32 := 0
  const STDOUT: u32 := 1
  const STDERR: u32 := 2

  /** The default capacity, 1 << 20. */
  const OPEN_MAX: nat := 0x10_0000

  const U32_MAX: nat := 0xFFFF_FFFF

  datatype FdObject = FileObj(handle: nat) | DirObj(handle: nat)

  /** `FdEntry`: the object and the descriptor's open flags. */
  datatype FdEntry = FdEntry(obj: FdObject, flags: FileOpen)

  predicate IsCloexec(e: FdEntry)
  {
    Has(e.flags, CLOEXEC)
  }

  /** `FdObject::is_file`, `as_file` and `as_dir`: which kind of handle
      the descriptor holds, and that handle. */
  function AsFile(o: FdObject): (r: Option<nat>)
    ensures r.Some? <==> o.FileObj?
    ensures r.Some? ==> o == FileObj(r.value)
  {
    if o.FileObj? then Some(o.handle) else None
  }

  function AsDir(o: FdObject): (r: Option<nat>)
    ensures r.Some? <==> o.DirObj?
    ensures r.Some? ==> o == DirObj(r.value)
  {
    if o.DirObj? then Some(o.handle) else None
  }

  // ----- the descriptor search -------------------------------------------

  /** The search in `alloc` as written: from `fd`, step over descriptors
      in use; a step that overflows `u32` or reaches the capacity fails,
      but the starting descriptor itself is never compared with the
      capacity. */
  function ScanAsWritten(taken: set<u32>, fd: nat, capacity: nat): Result<nat, Errno>
    decreases U32_MAX + 1 - fd
  {
    if fd > U32_MAX || fd !in taken then Ok(fd)
    else if fd + 1 > U32_MAX then Err(EMFILE)
    else if fd + 1 >= capacity then Err(EMFILE)
    else ScanAsWritten(taken, fd + 1, capacity)
  }

  /** With capacity 2, descriptors 0 and 1 handed out (so the search
      starts at 2) and 0 closed again, the table is not full, and the
      search returns 2, a descriptor equal to the capacity. */
  lemma AllocPastCapacityAsWritten()
    ensures var t := map[1 := FdEntry(FileObj(7), FileOpen(0, ReadOnly, 0))];
      var (r, t') := AllocAsWritten(t, 2, 2, FdEntry(FileObj(8), FileOpen(0, ReadOnly, 0)), 0);
      r == Ok(2) && 2 in t'.0
  {
    var t := map[1 := FdEntry(FileObj(7), FileOpen(0, ReadOnly, 0))];
    assert |t| == 1 by { assert t.Keys == {1}; }
  }

  /** The search with the capacity checked first: the least descriptor
      from `fd` on that is not in use, below the capacity and below
      `u32::MAX` so that the next start still fits in a `u32`. */
  function FreeFd(taken: set<u32>, fd: nat, capacity: nat): Result<nat, Errno>
    decreases capacity - fd
  {
    if fd >= capacity || fd >= U32_MAX then Err(EMFILE)
    else if fd !in taken then Ok(fd)
    else FreeFd(taken, fd + 1, capacity)
  }

  /** What `FreeFd` finds is the least free descriptor at or after the
      start and within range; when it fails, every descriptor in range
      from the start on is in use. */
  lemma {:induction false} FreeFdSpec(taken: set<u32>, fd: nat, capacity: nat)
    ensures var r := FreeFd(taken, fd, capacity);
      && (r.Ok? ==> fd <= r.value < capacity && r.value < U32_MAX && r.value !in taken)
      && (r.Ok? ==> forall k: nat :: fd <= k < r.value ==> k in taken)
      && (r.Err? ==> r.error == EMFILE)
      && (r.Err? ==> forall k: nat :: fd <= k < capacity && k < U32_MAX ==> k in taken)
    decreases capacity - fd
  {
    if fd < capacity && fd < U32_MAX && fd in taken {
      FreeFdSpec(taken, fd + 1, capacity);
    }
  }

  // ----- dup as written ---------------------------------------------------

  /** A table's contents: entries, next start and capacity. */
  type Table = (map<u32, FdEntry>, u32, nat)

  /** `alloc` as written, on a table's contents: the table must not be
      full; the descriptor found is inserted and the next search starts
      after it (wrapping as `u32` arithmetic does in a release build). */
  function AllocAsWritten(entries: map<u32, FdEntry>, next: u32, capacity: nat, entry: FdEntry, minFd: u32): (Result<nat, Errno>, Table)
  {
    if |entries| >= capacity then (Err(EMFILE), (entries, next, capacity))
    else
      match ScanAsWritten(entries.Keys, Max(next, minFd), capacity)
      case Err(e) => (Err(e), (entries, next, capacity))
      case Ok(fd) =>
        if fd <= U32_MAX then (Ok(fd), (entries[fd as u32 := entry], ((fd + 1) % (U32_MAX + 1)) as u32, capacity))
        else (Err(EMFILE), (entries, next, capacity))
  }

  /** `dup` as written: the entry is copied (with close-on-exec added when
      asked); when `oldfd` equals `minFd` the descriptor itself is
      returned; otherwise an entry at `minFd` is closed and the copy is
      allocated from `minFd` on. */
  function DupAsWritten(entries: map<u32, FdEntry>, next: u32, capacity: nat, oldfd: u32, minFd: u32, setCloexec: bool): (Result<nat, Errno>, Table)
  {
    if oldfd !in entries then (Err(EBADF), (entries, next, capacity))
    else
      var e := entries[oldfd];
      var cloned := if setCloexec then e.(flags := SetCloexec(e.flags)) else e;
      if oldfd == minFd then
        (Ok(oldfd), (if setCloexec then entries[oldfd := cloned] else entries, next, capacity))
      else
        var rest := if minFd in entries then entries - {minFd} else entries;
        AllocAsWritten(rest, next, capacity, cloned, minFd)
  }

  /** `dup(0)` reaches `dup` with `minFd` 0, so it hands back descriptor 0
      itself and allocates nothing. */
  lemma DupZeroAsWritten()
    ensures var t := map[0 := FdEntry(FileObj(7), FileOpen(0, ReadOnly, 0))];
      DupAsWritten(t, 3, 16, 0, 0, false) == (Ok(0), (t, 3, 16))
  {
  }

  /** `dup(3)` reaches `dup` with `minFd` 0, so an open descriptor 0 is
      closed before the copy is allocated. */
  lemma DupClosesStdinAsWritten()
    ensures var e := FdEntry(FileObj(7), FileOpen(0, ReadOnly, 0));
      var t := map[0 := e, 3 := e];
      var (r, t2) := DupAsWritten(t, 3, 16, 3, 0, false);
      r == Ok(4) && 0 !in t2.0
  {
    var e := FdEntry(FileObj(7), FileOpen(0, ReadOnly, 0));
    var t := map[0 := e, 3 := e];
    assert (t - {0}).Keys == {3};
    assert |t - {0}| == 1;
  }

  /** `dup3(3, 5, 0)` with the search already past 5 closes descriptor 5
      and then returns 10, not 5. */
  lemma Dup3ElsewhereAsWritten()
    ensures var e := FdEntry(FileObj(7), FileOpen(0, ReadOnly, 0));
      var t := map[3 := e, 5 := e];
      DupAsWritten(t, 10, 16, 3, 5, false).0 == Ok(10)
  {
    var e := FdEntry(FileObj(7), FileOpen(0, ReadOnly, 0));
    var t := map[3 := e, 5 := e];
    assert (t - {5}).Keys == {3};
    assert |t - {5}| == 1;
  }

  // ----- standard streams -------------------------------------------------

  /** Where a standard stream comes from. */
  datatype StdIoSource =
    | Null
    | Console
    | Serial
    | Path(path: string, fo: FileOpen)
    | Preopened(handle: nat, fo: FileOpen)

  /** What `fill_std` does with a source: open a path with some flags, or
      use a handle as it is. */
  datatype StdOpen = OpenPath(path: string, flags: FileOpen) | UseHandle(handle: nat, flags: FileOpen)

  /** The flags `open_path` builds: read-only or read-write, nothing else. */
  function StdFlags(readOnly: bool): (f: FileOpen)
    ensures f.access == (if readOnly then ReadOnly else ReadWrite)
    ensures f.status == 0
  {
    var b := WithAccess(NewBuilder(), if readOnly then ReadOnly else ReadWrite);
    BuildRoundTrip(b);
    Build(b).value
  }

  /** `fill_std`'s choice as written: the device paths open read-only for
      standard input and read-write otherwise; a `Path` source opens
      read-only exactly when its flags are READABLE, and its own flags are
      dropped for the built ones. */
  function StdRequestAsWritten(fd: u32, src: StdIoSource): StdOpen
  {
    match src
    case Null => OpenPath("/dev/null", StdFlags(fd == STDIN))
    case Console => OpenPath("/dev/console", StdFlags(fd == STDIN))
    case Serial => OpenPath("/dev/serial", StdFlags(fd == STDIN))
    case Path(p, fo) => OpenPath(p, StdFlags(IsReadable(fo.access)))
    case Preopened(h, fo) => UseHandle(h, fo)
  }

  /** Standard output from a path given read-write flags is opened
      read-only as written. */
  lemma StdoutPathReadOnlyAsWritten()
    ensures var req := StdRequestAsWritten(STDOUT, Path("/dev/tty", FileOpen(2, ReadWrite, 0)));
      req.OpenPath? && req.flags.access == ReadOnly
  {
  }

  /** `fill_std` with a `Path` source opened with the flags it comes
      with. */
  function StdRequest(fd: u32, src: StdIoSource): (r: StdOpen)
    ensures src.Path? ==> r == OpenPath(src.path, src.fo)
    ensures src.Preopened? ==> r == UseHandle(src.handle, src.fo)
    ensures !src.Path? && !src.Preopened? ==> r.OpenPath? && (r.flags.access == ReadOnly <==> fd == STDIN)
    ensures !src.Path? ==> r == StdRequestAsWritten(fd, src)
  {
    if src.Path? then OpenPath(src.path, src.fo) else StdRequestAsWritten(fd, src)
  }

  // ----- the table ----------------------------------------------------------

  class FdTable {
    var entries: map<u32, FdEntry>
    var next: u32
    const capacity: nat

    /** `FdTable::new`: empty, searching from 0, with `OPEN_MAX` for a
        capacity of 0. */
    constructor(capacity: nat)
      ensures entries == map[] && next == 0
      ensures this.capacity == (if capacity == 0 then OPEN_MAX else capacity)
      ensures this.capacity > 0
    {
      entries := map[];
      next := 0;
      this.capacity := if capacity == 0 then OPEN_MAX else capacity;
    }

    /** A table built from its parts, as `dup_table` builds its copy. */
    constructor FromParts(entries: map<u32, FdEntry>, next: u32, capacity: nat)
      ensures this.entries == entries && this.next == next && this.capacity == capacity
    {
      this.entries := entries;
      this.next := next;
      this.capacity := capacity;
    }

    /** `alloc` with the capacity also checked at the start of the search
        (see `AllocPastCapacityAsWritten`): a full table is EMFILE;
        otherwise the least free descriptor from `max(next, minFd)` on
        takes the entry and the next search starts after it. */
    method Alloc(entry: FdEntry, minFd: u32) returns (r: Result<nat, Errno>)
      modifies this
      ensures |old(entries)| >= capacity ==> r == Err(EMFILE)
      ensures |old(entries)| < capacity ==> r == FreeFd(old(entries).Keys, Max(old(next), minFd), capacity)
      ensures r.Ok? ==> r.value < U32_MAX && entries == old(entries)[r.value as u32 := entry] && next == r.value + 1
      ensures r.Err? ==> entries == old(entries) && next == old(next)
    {
      if |entries| >= capacity {
        return Err(EMFILE);
      }
      var start: nat := Max(next, minFd);
      var fd := start;
      if fd >= capacity || fd >= U32_MAX {
        return Err(EMFILE);
      }
      while fd in entries
        invariant start <= fd < capacity && fd < U32_MAX
        invariant FreeFd(entries.Keys, fd, capacity) == FreeFd(entries.Keys, start, capacity)
        decreases capacity - fd
      {
        fd := fd + 1;
        if fd >= capacity || fd >= U32_MAX {
          return Err(EMFILE);
        }
      }
      entries := entries[fd as u32 := entry];
      next := fd + 1;
      return Ok(fd);
    }

    /** `get`: the entry, or EBADF for a descriptor not in use. */
    function Get(fd: u32): (r: Result<FdEntry, Errno>)
      reads this
      ensures r.Ok? <==> fd in entries
      ensures r.Ok? ==> r.value == entries[fd]
      ensures r.Err? ==> r.error == EBADF
    {
      if fd in entries then Ok(entries[fd]) else Err(EBADF)
    }

    /** `set_flags` (through `get_entry_mut`): EBADF for a descriptor not
        in use; otherwise only its flags change. */
    method SetFlags(fd: u32, flags: FileOpen) returns (r: Result<(), Errno>)
      modifies this
      ensures fd !in old(entries) ==> r == Err(EBADF) && entries == old(entries)
      ensures fd in old(entries) ==> r == Ok(()) && entries == old(entries)[fd := old(entries)[fd].(flags := flags)]
      ensures next == old(next)
    {
      if fd !in entries {
        return Err(EBADF);
      }
      entries := entries[fd := entries[fd].(flags := flags)];
      return Ok(());
    }

    /** `close`: EBADF for a descriptor not in use; otherwise exactly that
        entry goes. */
    method Close(fd: u32) returns (r: Result<(), Errno>)
      modifies this
      ensures fd !in old(entries) ==> r == Err(EBADF) && entries == old(entries)
      ensures fd in old(entries) ==> r == Ok(()) && entries == old(entries) - {fd}
      ensures next == old(next)
    {
      if fd !in entries {
        return Err(EBADF);
      }
      entries := entries - {fd};
      return Ok(());
    }

    /** `dup` as `dup(2)` uses it, corrected (see `DupZeroAsWritten`): the
        copy always goes to a new descriptor, the least free one from the
        search start on. */
    method Dup(oldfd: u32) returns (r: Result<nat, Errno>)
      modifies this
      ensures oldfd !in old(entries) ==> r == Err(EBADF) && entries == old(entries)
      ensures oldfd in old(entries) && |old(entries)| < capacity ==>
        r == FreeFd(old(entries).Keys, old(next), capacity)
      ensures r.Ok? ==> r.value < U32_MAX && r.value != oldfd && entries == old(entries)[r.value as u32 := old(entries)[oldfd]]
    {
      if oldfd !in entries {
        return Err(EBADF);
      }
      var e := entries[oldfd];
      FreeFdSpec(entries.Keys, next, capacity);
      r := Alloc(e, 0);
    }

    /** `dup` as `dup3(2)` uses it, corrected (see
        `Dup3ElsewhereAsWritten`): the copy lands on `newfd` exactly,
        replacing whatever was there, with close-on-exec added when asked;
        a `newfd` beyond the capacity is EBADF. */
    method Dup3(oldfd: u32, newfd: u32, setCloexec: bool) returns (r: Result<nat, Errno>)
      modifies this
      ensures oldfd !in old(entries) || newfd >= capacity ==> r == Err(EBADF) && entries == old(entries)
      ensures oldfd in old(entries) && newfd < capacity ==>
        var e := old(entries)[oldfd];
        && r == Ok(newfd as nat)
        && entries == old(entries)[newfd := if setCloexec then e.(flags := SetCloexec(e.flags)) else e]
      ensures next == old(next)
    {
      if oldfd !in entries || newfd as nat >= capacity {
        return Err(EBADF);
      }
      var e := entries[oldfd];
      var cloned := if setCloexec then e.(flags := SetCloexec(e.flags)) else e;
      entries := entries[newfd := cloned];
      return Ok(newfd as nat);
    }

    /** `dup_table`: a new table with the same entries, start and
        capacity. */
    method DupTable() returns (t: FdTable)
      ensures fresh(t)
      ensures t.entries == entries && t.next == next && t.capacity == capacity
    {
      t := new FdTable.FromParts(entries, next, capacity);
    }

    /** `clear_cloexec_on_exec`: exactly the entries without close-on-exec
        stay, and the search restarts from the least of them, or from 0
        when none is left. */
    method ClearCloexecOnExec()
      modifies this
      ensures entries == map k | k in old(entries) && !IsCloexec(old(entries)[k]) :: old(entries)[k]
      ensures entries == map[] ==> next == 0
      ensures entries != map[] ==> next in entries && forall k :: k in entries ==> next <= k
    {
      entries := map k | k in entries && !IsCloexec(entries[k]) :: entries[k];
      next := LeastKey(entries.Keys);
    }

    /** `fill_std`, with a `Path` source opened with its own flags (see
        `StdoutPathReadOnlyAsWritten`): `openResult` is what opening the path
        gives.  The entry is written at `fd` directly, and the search
        start rises to at least 3. */
    method FillStd(fd: u32, src: StdIoSource, openResult: Result<nat, Errno>) returns (r: Result<(), Errno>)
      modifies this
      ensures var req := StdRequest(fd, src);
        && (req.OpenPath? && openResult.Err? ==> r == Err(openResult.error) && entries == old(entries) && next == old(next))
        && (req.OpenPath? && openResult.Ok? ==> r == Ok(()) && entries == old(entries)[fd := FdEntry(FileObj(openResult.value), req.flags)])
        && (req.UseHandle? ==> r == Ok(()) && entries == old(entries)[fd := FdEntry(FileObj(req.handle), req.flags)])
      ensures r.Ok? ==> next == Max(old(next), 3)
    {
      var req := StdRequest(fd, src);
      var handle: nat;
      if req.OpenPath? {
        if openResult.Err? {
          return Err(openResult.error);
        }
        handle := openResult.value;
      } else {
        handle := req.handle;
      }
      entries := entries[fd := FdEntry(FileObj(handle), req.flags)];
      next := Max(next, 3);
      return Ok(());
    }
  }

  /** The error, if any, of filling one optional standard stream. */
  /** The least of `keys`, or 0 when there is none. */
  method LeastKey(keys: set<u32>) returns (least: u32)
    ensures keys == {} ==> least == 0
    ensures keys != {} ==> least in keys && forall k :: k in keys ==> least <= k
  {
    var rest := keys;
    least := 0;
    var found := false;
    while rest != {}
      invariant rest <= keys
      invariant !found ==> rest == keys && least == 0
      invariant found ==> least in keys && forall k :: k in keys && k !in rest ==> least <= k
      decreases |rest|
    {
      var k :| k in rest;
      if !found || k < least {
        least := k;
        found := true;
      }
      rest := rest - {k};
    }
  }

  function FillError(src: Option<StdIoSource>, fd: u32, openResult: Result<nat, Errno>): Option<Errno>
  {
    if src.Some? && StdRequest(fd, src.value).OpenPath? && openResult.Err? then Some(openResult.error) else None
  }

  /** One stream of `with_stdio`: `fill_std` when a source is given,
      nothing otherwise. */
  method FillGiven(t: FdTable, fd: u32, src: Option<StdIoSource>, openResult: Result<nat, Errno>) returns (r: Result<(), Errno>)
    modifies t
    ensures r.Err? <==> FillError(src, fd, openResult).Some?
    ensures r.Err? ==> r.error == FillError(src, fd, openResult).value
    ensures r.Ok? ==> t.entries.Keys == old(t.entries.Keys) + (if src.Some? then {fd} else {})
    ensures r.Ok? ==> t.next == (if src.Some? then Max(old(t.next), 3) else old(t.next))
  {
    if src.Some? {
      r := t.FillStd(fd, src.value, openResult);
    } else {
      r := Ok(());
    }
  }

  /** `FdTable::with_stdio`: a new table with standard input, output and
      error filled in that order, each one that is given; the first that
      fails to open ends it with its error.  The table holds exactly the
      given streams, and allocation then starts at 3 unless none was
      given. */
  method WithStdio(maxFd: nat, stdin: Option<StdIoSource>, stdout: Option<StdIoSource>, stderr: Option<StdIoSource>,
                   openIn: Result<nat, Errno>, openOut: Result<nat, Errno>, openErr: Result<nat, Errno>)
    returns (r: Result<FdTable, Errno>)
    ensures FillError(stdin, STDIN, openIn).Some? ==> r == Err(FillError(stdin, STDIN, openIn).value)
    ensures FillError(stdin, STDIN, openIn).None? && FillError(stdout, STDOUT, openOut).Some? ==>
      r == Err(FillError(stdout, STDOUT, openOut).value)
    ensures FillError(stdin, STDIN, openIn).None? && FillError(stdout, STDOUT, openOut).None? && FillError(stderr, STDERR, openErr).Some? ==>
      r == Err(FillError(stderr, STDERR, openErr).value)
    ensures r.Ok? ==> fresh(r.value) && r.value.capacity == (if maxFd == 0 then OPEN_MAX else maxFd)
    ensures r.Ok? ==> forall fd: u32 :: fd in r.value.entries <==>
      (fd == STDIN && stdin.Some?) || (fd == STDOUT && stdout.Some?) || (fd == STDERR && stderr.Some?)
    ensures r.Ok? ==> r.value.next == (if stdin.Some? || stdout.Some? || stderr.Some? then 3 else 0)
  {
    var t := new FdTable(maxFd);
    var f := FillGiven(t, STDIN, stdin, openIn);
    if f.Err? {
      return Err(f.error);
    }
    f := FillGiven(t, STDOUT, stdout, openOut);
    if f.Err? {
      return Err(f.error);
    }
    f := FillGiven(t, STDERR, stderr, openErr);
    if f.Err? {
      return Err(f.error);
    }
    return Ok(t);
  }
}
