/** The `wait4` system call (kernel/src/thread/wait.rs): which children a
    pid argument names, collecting an exited child, and the status word
    reported for it.

    One attempt is modelled: where the caller would go to sleep and try
    again the result is `Sleep`.  The status word is not written to user
    memory here; the write that would happen is part of the result. */
module ThreadWait {

  import opened Common
  import opened Errors
  import opened ThreadLifecycle
  import opened ThreadGroups

  const U64_MAX: nat := 0xFFFF_FFFF_FFFF_FFFF

  /** WNOHANG, the low bit of the options. */
  const WNOHANG: nat := 1

  /** A `usize` read as an `i64`, as the cast in `pid_match` does. */
  function AsI64(x: u64): i64
  {
    if x < 0x8000_0000_0000_0000 then x else x - 0x1_0000_0000_0000_0000
  }

  /** `pid_match`: a request of -1 (as `i64`) names any child, any other
      request the child with that tid. */
  predicate PidMatch(request: u64, tid: u64)
  {
    AsI64(request) == -1 || request == tid
  }

  /** The -1 of the cast is the all-ones word, so exactly that word and the
      tid itself match. */
  lemma PidMatchSpec(request: u64, tid: u64)
    ensures PidMatch(request, tid) <==> request == U64_MAX || request == tid
    ensures PidMatch(U64_MAX, tid)
  {
  }

  /** What `wait4` sees of a child: its tid, whether it has exited, and
      its exit code. */
  datatype ChildView = ChildView(tid: u64, zombie: bool, code: i32)

  function View(c: SharedInfo): ChildView
    reads c.lifecycle
  {
    ChildView(c.tid, c.lifecycle.state == Zombie, c.lifecycle.exitCode)
  }

  function Views(cs: seq<SharedInfo>): (vs: seq<ChildView>)
    reads set c | c in cs :: c.lifecycle
    ensures |vs| == |cs|
    ensures forall i :: 0 <= i < |cs| ==> vs[i] == View(cs[i])
  {
    if cs == [] then [] else [View(cs[0])] + Views(cs[1..])
  }

  /** Some child matches the request. */
  predicate AnyMatch(vs: seq<ChildView>, pid: u64)
  {
    exists i :: 0 <= i < |vs| && PidMatch(pid, vs[i].tid)
  }

  /** The index of the last child matching the request, if any. */
  function LastMatch(vs: seq<ChildView>, pid: u64): (r: Option<nat>)
    ensures r.Some? ==> r.value < |vs| && PidMatch(pid, vs[r.value].tid)
    ensures r.Some? ==> forall j :: r.value < j < |vs| ==> !PidMatch(pid, vs[j].tid)
    ensures r.None? <==> !AnyMatch(vs, pid)
  {
    if vs == [] then None
    else if PidMatch(pid, vs[|vs| - 1].tid) then Some(|vs| - 1)
    else
      var r := LastMatch(vs[..|vs| - 1], pid);
      assert forall j :: 0 <= j < |vs| - 1 ==> vs[..|vs| - 1][j] == vs[j];
      r
  }

  /** The index of the last matching child that has exited, if any. */
  function LastZombie(vs: seq<ChildView>, pid: u64): (r: Option<nat>)
    ensures r.Some? ==> r.value < |vs| && PidMatch(pid, vs[r.value].tid) && vs[r.value].zombie
    ensures r.Some? ==> forall j :: r.value < j < |vs| ==> !(PidMatch(pid, vs[j].tid) && vs[j].zombie)
    ensures r.None? ==> forall j :: 0 <= j < |vs| ==> !(PidMatch(pid, vs[j].tid) && vs[j].zombie)
  {
    if vs == [] then None
    else if PidMatch(pid, vs[|vs| - 1].tid) && vs[|vs| - 1].zombie then Some(|vs| - 1)
    else
      var r := LastZombie(vs[..|vs| - 1], pid);
      assert forall j :: 0 <= j < |vs| - 1 ==> vs[..|vs| - 1][j] == vs[j];
      r
  }

  /** The children list without the entries of one tid, in order. */
  function Without(cs: seq<SharedInfo>, tid: u64): (r: seq<SharedInfo>)
    ensures forall i :: 0 <= i < |r| ==> r[i] in cs && r[i].tid != tid
    ensures forall i :: 0 <= i < |cs| && cs[i].tid != tid ==> cs[i] in r
    ensures |r| <= |cs|
  {
    if cs == [] then []
    else if cs[0].tid == tid then Without(cs[1..], tid)
    else [cs[0]] + Without(cs[1..], tid)
  }

  /** A child found by the request is really removed: the list shrinks. */
  lemma {:induction false} WithoutShrinks(cs: seq<SharedInfo>, i: nat)
    requires i < |cs|
    ensures |Without(cs, cs[i].tid)| < |cs|
  {
    if i > 0 && cs[0].tid != cs[i].tid {
      WithoutShrinks(cs[1..], i - 1);
    }
  }

  /** The status word: the low byte of the exit code shifted up by eight.
      `code & 0xff` on a two's-complement `i32` is the code's remainder
      modulo 256, which `%` gives for negative codes too. */
  function StatusWord(code: i32): (s: int)
    ensures 0 <= s <= 0xff00
  {
    (code % 256) * 256
  }

  /** The word decodes as an exit status: its low byte is 0 (WIFEXITED)
      and its second byte (WEXITSTATUS) is the low byte of the code. */
  lemma StatusWordDecodes(code: i32)
    ensures StatusWord(code) % 256 == 0
    ensures (StatusWord(code) / 256) % 256 == code % 256
  {
    DivModUnique(StatusWord(code), 256, code % 256, 0);
  }

  /** `copy_status`: the word is written at the pointer unless it is
      null. */
  function CopyStatus(ptr: u64, status: int): (w: Option<(u64, int)>)
    ensures w.Some? <==> ptr != 0
    ensures w.Some? ==> w.value == (ptr, status)
  {
    if ptr != 0 then Some((ptr, status)) else None
  }

  /** What one attempt of `wait4` comes to. */
  datatype Outcome =
    | Return(value: u64, write: Option<(u64, int)>)
    | Sleep
    | Fail(error: Errno)

  // ----- as written ---------------------------------------------------------

  /** `do_wait4` as written, on what it sees of the children: `try_collect`
      picks the LAST matching child and waits for it to exit, whatever the
      options; so with a running last match the caller sleeps even under
      WNOHANG, and its `Ok(None)` branch is never taken. */
  function Wait4AsWritten(vs: seq<ChildView>, pid: u64, statusPtr: u64, options: nat): Outcome
  {
    match LastMatch(vs, pid)
    case None => Fail(ECHILD)
    case Some(i) =>
      if vs[i].zombie then Return(vs[i].tid, CopyStatus(statusPtr, StatusWord(vs[i].code)))
      else Sleep
  }

  /** With WNOHANG and one running child, as written the caller sleeps
      instead of getting 0 back. */
  lemma WnohangSleepsAsWritten()
    ensures Wait4AsWritten([ChildView(5, false, 0)], U64_MAX, 0, WNOHANG) == Sleep
  {
  }

  /** As written, a blocking wait for any child sleeps on the last one
      while an earlier one has already exited. */
  lemma SkipsExitedChildAsWritten()
    ensures Wait4AsWritten([ChildView(5, true, 3), ChildView(6, false, 0)], U64_MAX, 0, 0) == Sleep
  {
  }

  // ----- corrected ----------------------------------------------------------

  /** `try_collect` choosing among the matching children that have exited
      (the last of them), so that `Ok(None)` means "matching children, none
      exited yet". */
  method TryCollect(parent: SharedInfo, pid: u64) returns (r: Result<Option<(u64, i32)>, Errno>)
    modifies parent
    ensures var vs := old(Views(parent.children));
      && (!AnyMatch(vs, pid) ==> r == Err(ECHILD))
      && (AnyMatch(vs, pid) && LastZombie(vs, pid).None? ==> r == Ok(None))
      && (LastZombie(vs, pid).Some? ==>
           var c := vs[LastZombie(vs, pid).value];
           r == Ok(Some((c.tid, c.code))))
    ensures r.Ok? && r.value.Some? ==> parent.children == Without(old(parent.children), r.value.value.0)
    ensures !(r.Ok? && r.value.Some?) ==> parent.children == old(parent.children)
  {
    var cs := parent.children;
    ghost var vs := Views(cs);
    var pick: Option<nat> := None;
    var any := false;
    var i := 0;
    while i < |cs|
      invariant 0 <= i <= |cs|
      invariant parent.children == cs
      invariant pick == LastZombie(vs[..i], pid)
      invariant any <==> AnyMatch(vs[..i], pid)
    {
      ScanStep(vs, pid, i);
      if PidMatch(pid, cs[i].tid) {
        any := true;
        if cs[i].lifecycle.state == Zombie {
          pick := Some(i);
        }
      }
      i := i + 1;
    }
    assert vs[..i] == vs;
    if pick.Some? {
      var c := cs[pick.value];
      parent.children := Without(cs, c.tid);
      return Ok(Some((c.tid, c.lifecycle.exitCode)));
    }
    if any {
      return Ok(None);
    }
    return Err(ECHILD);
  }

  /** One more child seen: it becomes the pick when it matches and has
      exited, and it makes a match when it matches. */
  lemma ScanStep(vs: seq<ChildView>, pid: u64, i: nat)
    requires i < |vs|
    ensures LastZombie(vs[..i + 1], pid)
      == if PidMatch(pid, vs[i].tid) && vs[i].zombie then Some(i) else LastZombie(vs[..i], pid)
    ensures AnyMatch(vs[..i + 1], pid) <==> AnyMatch(vs[..i], pid) || PidMatch(pid, vs[i].tid)
  {
    var w := vs[..i + 1];
    assert w[..i] == vs[..i];
    assert w[i] == vs[i];
    if AnyMatch(vs[..i], pid) {
      var j :| 0 <= j < i && PidMatch(pid, vs[..i][j].tid);
      assert w[j] == vs[..i][j];
    }
    if AnyMatch(w, pid) && !PidMatch(pid, vs[i].tid) {
      var j :| 0 <= j < i + 1 && PidMatch(pid, w[j].tid);
      assert vs[..i][j] == w[j];
    }
  }

  /** `do_wait4` on the corrected `try_collect`: a collected child's tid
      is returned and its status word written when the pointer is not
      null; with matching children still running, WNOHANG returns 0 at
      once and otherwise the caller sleeps on its own lifecycle and tries
      again. */
  method DoWait4(parent: SharedInfo, pid: u64, statusPtr: u64, options: nat) returns (o: Outcome)
    modifies parent
    ensures var vs := old(Views(parent.children));
      && (!AnyMatch(vs, pid) ==> o == Fail(ECHILD))
      && (LastZombie(vs, pid).Some? ==>
           var c := vs[LastZombie(vs, pid).value];
           o == Return(c.tid, CopyStatus(statusPtr, StatusWord(c.code))))
      && (AnyMatch(vs, pid) && LastZombie(vs, pid).None? ==>
           o == if options % 2 == WNOHANG then Return(0, None) else Sleep)
    ensures o.Return? && o.value != 0 ==> parent.children == Without(old(parent.children), o.value)
  {
    var c := TryCollect(parent, pid);
    if c.Err? {
      return Fail(c.error);
    }
    if c.value.Some? {
      var (tid, code) := c.value.value;
      return Return(tid, CopyStatus(statusPtr, StatusWord(code)));
    }
    if options % 2 == WNOHANG {
      return Return(0, None);
    }
    return Sleep;
  }

  /** When the last matching child has exited, the corrected choice is
      the one the code as written makes. */
  lemma {:induction false} Wait4Agrees(vs: seq<ChildView>, pid: u64)
    requires LastMatch(vs, pid).Some? && vs[LastMatch(vs, pid).value].zombie
    ensures LastZombie(vs, pid) == LastMatch(vs, pid)
  {
    var i := LastMatch(vs, pid).value;
    var z := LastZombie(vs, pid);
    assert z.Some? by {
      assert PidMatch(pid, vs[i].tid) && vs[i].zombie;
    }
    assert z.value >= i;
  }
}
