/** Thread groups (kernel/src/thread/thread_group.rs), the kernel's
    processes, and the per-thread shared information they hold
    (`ThreadSharedInfo`, declared in kernel/src/thread.rs: a tid, a weak
    link to the parent process, the list of child processes and the
    lifecycle). A weak link whose target is gone is `None`. */
module ThreadGroups {

  import opened Common
  import opened ThreadLifecycle

  class SharedInfo {
    const tid: u64
    const parent: Option<SharedInfo>
    var children: seq<SharedInfo>
    const lifecycle: Lifecycle

    constructor(tid: u64, parent: Option<SharedInfo>, lifecycle: Lifecycle)
      ensures this.tid == tid && this.parent == parent && this.lifecycle == lifecycle
      ensures children == []
    {
      this.tid := tid;
      this.parent := parent;
      this.lifecycle := lifecycle;
      children := [];
    }
  }

  /** `ThreadGroup`: an id, which has no setter, and the member threads
      with the leader first. */
  class ThreadGroup {
    const id: u64
    var members: seq<SharedInfo>

    /** The group is never empty and its id is its leader's tid. */
    predicate Valid()
      reads this, if |members| > 0 then {members[0]} else {}
    {
      |members| >= 1 && members[0].tid == id
    }

    /** `new_leader`: the group of one thread, named after its tid. */
    constructor NewLeader(leader: SharedInfo)
      ensures Valid()
      ensures id == leader.tid && members == [leader]
    {
      id := leader.tid;
      members := [leader];
    }

    /** `attach`: the thread joins at the end; the leader and id stay. */
    method Attach(thr: SharedInfo)
      requires Valid()
      modifies this
      ensures Valid()
      ensures members == old(members) + [thr]
      ensures Leader() == old(Leader())
    {
      members := members + [thr];
    }

    /** `leader`: the first member, whose tid is the group id. */
    function Leader(): (l: SharedInfo)
      requires Valid()
      reads this, members[0]
      ensures l in members && l.tid == id
    {
      members[0]
    }
  }
}
