/** The `clone` system call (kernel/src/thread/clone.rs): flag decoding
    and validation, the choice between a new thread in the caller's group
    and a new process, and the set-up of the child thread.

    A thread's state (`ThreadState`) is a value holding its shared
    information, its group, its address space, its descriptor table, its
    user context and its heap break.  Address spaces are named by an id;
    forking one is a collaborator whose result is a parameter, as are the
    ids the tid allocator hands out.  Scheduling the child's task is not
    modelled. */
module ThreadClone {

  import opened Common
  import opened Errors
  import opened ThreadLifecycle
  import opened ThreadGroups
  import opened FdTables

  type flagword = bv64

  const CSIGNAL: flagword := 0xff
  const CLONE_VM: flagword := 0x100
  const CLONE_FS: flagword := 0x200
  const CLONE_FILES: flagword := 0x400
  const CLONE_SIGHAND: flagword := 0x800
  const CLONE_PARENT: flagword := 0x8000
  const CLONE_THREAD: flagword := 0x1_0000
  const CLONE_SETTLS: flagword := 0x8_0000
  const CLONE_PARENT_SETTID: flagword := 0x10_0000
  const CLONE_CHILD_CLEARTID: flagword := 0x20_0000
  const CLONE_CHILD_SETTID: flagword := 0x100_0000

  /** Every defined flag: what `from_bits_truncate` keeps. */
  const KNOWN: flagword :=
    CSIGNAL | CLONE_VM | CLONE_FS | CLONE_FILES | CLONE_SIGHAND | CLONE_PARENT | CLONE_THREAD
    | CLONE_SETTLS | CLONE_PARENT_SETTID | CLONE_CHILD_CLEARTID | CLONE_CHILD_SETTID

  /** `contains`: every bit of `bits` is set in `f`. */
  predicate Has(f: flagword, bits: flagword)
  {
    f & bits == bits
  }

  /** `CloneFlags::from_bits_truncate`. */
  function Truncate(raw: flagword): flagword
  {
    raw & KNOWN
  }

  /** The single-bit flags, by name. */
  datatype CloneFlag = Vm | Fs | Files | Sighand | Parent | Thread | Settls | ParentSettid | ChildCleartid | ChildSettid

  function Bit(f: CloneFlag): flagword
  {
    match f
    case Vm => CLONE_VM
    case Fs => CLONE_FS
    case Files => CLONE_FILES
    case Sighand => CLONE_SIGHAND
    case Parent => CLONE_PARENT
    case Thread => CLONE_THREAD
    case Settls => CLONE_SETTLS
    case ParentSettid => CLONE_PARENT_SETTID
    case ChildCleartid => CLONE_CHILD_CLEARTID
    case ChildSettid => CLONE_CHILD_SETTID
  }

  /** Truncation keeps every defined flag as it was in the raw word, keeps
      the signal byte, and clears every undefined bit. */
  lemma TruncateSpec(raw: flagword, f: CloneFlag)
    ensures Has(Truncate(raw), Bit(f)) <==> Has(raw, Bit(f))
    ensures Truncate(raw) & CSIGNAL == raw & CSIGNAL
    ensures Truncate(raw) & !KNOWN == 0
    ensures Truncate(Truncate(raw)) == Truncate(raw)
  {
    match f
    case Vm =>
    case Fs =>
    case Files =>
    case Sighand =>
    case Parent =>
    case Thread =>
    case Settls =>
    case ParentSettid =>
    case ChildCleartid =>
    case ChildSettid =>
  }

  /** What kind of child `clone` makes. */
  datatype CloneKind = NewThread | NewProcess

  /** The validation and the branch of `do_clone`: CLONE_SIGHAND needs
      CLONE_VM, and CLONE_THREAD needs both; CLONE_THREAD makes a thread,
      anything else a process. */
  function CheckFlags(flags: flagword): (r: Result<CloneKind, Errno>)
  {
    if Has(flags, CLONE_SIGHAND) && !Has(flags, CLONE_VM) then Err(EINVAL)
    else if Has(flags, CLONE_THREAD) && !Has(flags, CLONE_SIGHAND | CLONE_VM) then Err(EINVAL)
    else if Has(flags, CLONE_THREAD) then Ok(NewThread)
    else Ok(NewProcess)
  }

  lemma HasBoth(f: flagword)
    ensures Has(f, CLONE_SIGHAND | CLONE_VM) <==> Has(f, CLONE_SIGHAND) && Has(f, CLONE_VM)
  {
  }

  /** The flags are refused exactly when signal handlers would be shared
      without the address space, or a thread would not share both; a
      thread always shares both, and a process that shares handlers
      shares the address space. */
  lemma CheckFlagsSpec(flags: flagword)
    ensures CheckFlags(flags).Err? <==>
      ((Has(flags, CLONE_SIGHAND) || Has(flags, CLONE_THREAD)) && !Has(flags, CLONE_VM))
      || (Has(flags, CLONE_THREAD) && !Has(flags, CLONE_SIGHAND))
    ensures CheckFlags(flags).Err? ==> CheckFlags(flags).error == EINVAL
    ensures CheckFlags(flags) == Ok(NewThread) <==>
      Has(flags, CLONE_THREAD) && Has(flags, CLONE_SIGHAND) && Has(flags, CLONE_VM)
    ensures CheckFlags(flags) == Ok(NewProcess) ==>
      !Has(flags, CLONE_THREAD) && (Has(flags, CLONE_SIGHAND) ==> Has(flags, CLONE_VM))
  {
    HasBoth(flags);
  }

  // ----- the child -----------------------------------------------------------

  /** The part of the user context `clone` sets: the system call's return
      value, the stack pointer and the TLS pointer. */
  datatype Context = Context(ret: u64, sp: u64, tls: u64)

  datatype ThreadState = ThreadState(shared: SharedInfo, group: ThreadGroup, vm: nat, files: FdTable, ctx: Context, brk: u64)

  /** The counter behind `id::alloc`: each draw hands out the current
      value and advances it, wrapping as `u64` arithmetic does.  The
      allocator's own code is not part of this model; all that is used of
      it is that it is one counter shared by every draw. */
  class TidAllocator {
    var next: u64

    constructor(first: u64)
      ensures next == first
    {
      next := first;
    }

    method Alloc() returns (id: u64)
      modifies this
      ensures id == old(next) && next == (old(next) + 1) % 0x1_0000_0000_0000_0000
    {
      id := next;
      next := (next + 1) % 0x1_0000_0000_0000_0000;
    }
  }

  /** The two draws of a process clone as written: the new group's leader
      record takes the first id, and `spawn_child` draws a second for the
      child, whose tid the parent gets back.  The group's id, which the
      child's `getpid` reports, is the first, so it never equals the tid
      the parent received. */
  method ProcessIdsAsWritten(ids: TidAllocator) returns (groupId: u64, childTid: u64)
    modifies ids
    ensures groupId == old(ids.next) && childTid == (groupId + 1) % 0x1_0000_0000_0000_0000
    ensures ids.next == (childTid + 1) % 0x1_0000_0000_0000_0000
    ensures groupId != childTid
  {
    groupId := ids.Alloc();
    childTid := ids.Alloc();
  }

  /** `spawn_child`: a new thread record with tid `newTid` and the given
      parent process, a copy of the caller's lifecycle, and the caller's
      user context returning 0, with the stack pointer replaced when a
      stack is given and the TLS pointer when CLONE_SETTLS is set.  It
      joins `group`, or, for a process (`group` is `None`), leads a group
      of its own, so that the group id is its tid.  A process child is
      added to its parent process's children. */
  method SpawnChild(parentProcess: Option<SharedInfo>, parentThread: ThreadState, vm: nat,
                    group: Option<ThreadGroup>, files: FdTable, flags: flagword,
                    childStack: u64, tls: u64, isChildProcess: bool, newTid: u64)
    returns (child: ThreadState)
    requires group.Some? ==> group.value.Valid()
    modifies if group.Some? then {group.value} else {}
    modifies if parentProcess.Some? && isChildProcess then {parentProcess.value} else {}
    ensures fresh(child.shared) && fresh(child.shared.lifecycle)
    ensures child.shared.tid == newTid && child.shared.parent == parentProcess && child.shared.children == []
    ensures child.shared.lifecycle.state == parentThread.shared.lifecycle.state
    ensures child.shared.lifecycle.exitCode == parentThread.shared.lifecycle.exitCode
    ensures child.group.Valid()
    ensures group.Some? ==> child.group == group.value && child.group.members == old(group.value.members) + [child.shared]
    ensures group.None? ==> fresh(child.group) && child.group.members == [child.shared] && child.group.id == newTid
    ensures child.vm == vm && child.files == files && child.brk == parentThread.brk
    ensures child.ctx.ret == 0
    ensures child.ctx.sp == (if childStack != 0 then childStack else parentThread.ctx.sp)
    ensures child.ctx.tls == (if Has(flags, CLONE_SETTLS) then tls else parentThread.ctx.tls)
    ensures parentProcess.Some? && isChildProcess ==>
      parentProcess.value.children == old(parentProcess.value.children) + [child.shared]
  {
    var lifecycle := parentThread.shared.lifecycle.Clone();
    var shared := new SharedInfo(newTid, parentProcess, lifecycle);
    var g: ThreadGroup;
    if group.Some? {
      g := group.value;
      g.Attach(shared);
    } else {
      g := new ThreadGroup.NewLeader(shared);
    }
    var ctx := parentThread.ctx.(ret := 0);
    if childStack != 0 {
      ctx := ctx.(sp := childStack);
    }
    if Has(flags, CLONE_SETTLS) {
      ctx := ctx.(tls := tls);
    }
    child := ThreadState(shared, g, vm, files, ctx, parentThread.brk);
    if isChildProcess && parentProcess.Some? {
      parentProcess.value.children := parentProcess.value.children + [shared];
    }
  }

  /** The descriptor table of the child: the caller's own under
      CLONE_FILES, otherwise a copy. */
  method ChildFiles(parent: FdTable, flags: flagword) returns (t: FdTable)
    ensures Has(flags, CLONE_FILES) ==> t == parent
    ensures !Has(flags, CLONE_FILES) ==> fresh(t) && t.entries == parent.entries && t.next == parent.next && t.capacity == parent.capacity
  {
    if Has(flags, CLONE_FILES) {
      t := parent;
    } else {
      t := parent.DupTable();
    }
  }

  /** `do_clone`: invalid flags are EINVAL and nothing happens.  A thread
      joins the caller's group and address space, and its parent process
      is the caller's.  A process gets the caller's address space under
      CLONE_VM and a fork of it otherwise (whose failure ends the call),
      leads a new group named after its tid (see
      `ProcessIdsAsWritten`), and is the child of the caller's
      parent under CLONE_PARENT or of the caller's group leader
      otherwise.  Either way the caller gets the child's tid back. */
  method DoClone(parent: ThreadState, raw: flagword, childStack: u64, tls: u64, newTid: u64, forkResult: Result<nat, Errno>)
    returns (r: Result<u64, Errno>, child: Option<ThreadState>)
    requires parent.group.Valid()
    modifies parent.group, parent.group.members[0]
    modifies if parent.shared.parent.Some? then {parent.shared.parent.value} else {}
    ensures var flags := Truncate(raw);
      var kind := CheckFlags(flags);
      && (kind.Err? ==> r == Err(EINVAL) && child.None?)
      && (kind == Ok(NewProcess) && !Has(flags, CLONE_VM) && forkResult.Err? ==> r == Err(forkResult.error) && child.None?)
      && (r.Ok? <==> child.Some?)
      && (r.Ok? ==> r.value == newTid && child.value.shared.tid == newTid)
      && (r.Ok? ==> child.value.ctx.ret == 0 && child.value.group.Valid())
      && (r.Ok? && kind == Ok(NewThread) ==>
           && child.value.group == parent.group && child.value.vm == parent.vm
           && child.value.shared.parent == parent.shared.parent
           && parent.group.members == old(parent.group.members) + [child.value.shared])
      && (r.Ok? && kind == Ok(NewProcess) ==>
           && fresh(child.value.group) && child.value.group.id == r.value
           && child.value.vm == (if Has(flags, CLONE_VM) then parent.vm else forkResult.value)
           && child.value.shared.parent == (if Has(flags, CLONE_PARENT) then parent.shared.parent else Some(old(parent.group.members[0]))))
      && (r.Ok? ==> (Has(flags, CLONE_FILES) <==> child.value.files == parent.files))
      && (r.Ok? && !Has(flags, CLONE_FILES) ==> child.value.files.entries == parent.files.entries)
    ensures r.Err? ==> parent.group.members == old(parent.group.members)
  {
    var flags := Truncate(raw);
    var kind := CheckFlags(flags);
    if kind.Err? {
      return Err(EINVAL), None;
    }
    var c: ThreadState;
    if kind.value == NewThread {
      var files := ChildFiles(parent.files, flags);
      c := SpawnChild(parent.shared.parent, parent, parent.vm, Some(parent.group), files, flags, childStack, tls, false, newTid);
    } else {
      var vm: nat;
      if Has(flags, CLONE_VM) {
        vm := parent.vm;
      } else {
        if forkResult.Err? {
          return Err(forkResult.error), None;
        }
        vm := forkResult.value;
      }
      var files := ChildFiles(parent.files, flags);
      var parentProcess := if Has(flags, CLONE_PARENT) then parent.shared.parent else Some(parent.group.Leader());
      c := SpawnChild(parentProcess, parent, vm, None, files, flags, childStack, tls, true, newTid);
    }
    return Ok(newTid), Some(c);
  }
}
