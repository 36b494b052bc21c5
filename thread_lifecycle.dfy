/** A thread's lifecycle (kernel/src/thread/state.rs): it runs until it
    exits, then stays a zombie holding its exit code until its parent
    collects it with wait4.

    The wait queue is the set of tasks asleep on it; waking all of them
    empties it.  The atomics' memory orderings are not modelled: each
    operation is one step. */
module ThreadLifecycle {

  import opened Common

  /** `LifeState`, stored as a byte: `Running` is 0, `Zombie` 1. */
  datatype LifeState = Running | Zombie

  function StateByte(s: LifeState): (b: u8)
    ensures b == 0 <==> s == Running
    ensures b == 1 <==> s == Zombie
  {
    match s
    case Running => 0
    case Zombie => 1
  }

  class Lifecycle {
    var state: LifeState
    var exitCode: i32
    /** The tasks asleep on `exit_wait_queue`. */
    var waiters: set<nat>

    /** `Lifecycle::new`: running, exit code 0, nobody waiting. */
    constructor()
      ensures state == Running && exitCode == 0 && waiters == {}
    {
      state := Running;
      exitCode := 0;
      waiters := {};
    }

    /** `exit`: the code is stored, the thread becomes a zombie and every
        waiter is woken. */
    method Exit(code: i32) returns (woken: set<nat>)
      modifies this
      ensures state == Zombie && exitCode == code
      ensures woken == old(waiters) && waiters == {}
    {
      exitCode := code;
      state := Zombie;
      woken := waiters;
      waiters := {};
    }

    /** `wait`: a zombie's exit code comes back at once and nothing
        changes; a running thread's waiter goes to sleep on the queue
        (`None`), to read the code once `exit` wakes it. */
    method Wait(waiter: nat) returns (r: Option<i32>)
      modifies this
      ensures old(state) == Zombie ==> r == Some(exitCode) && waiters == old(waiters)
      ensures old(state) == Running ==> r == None && waiters == old(waiters) + {waiter}
      ensures state == old(state) && exitCode == old(exitCode)
    {
      if state == Zombie {
        return Some(exitCode);
      }
      waiters := waiters + {waiter};
      return None;
    }

    /** `is_zombie`: the stored state byte is the zombie's. */
    predicate IsZombie()
      reads this
    {
      StateByte(state) == 1
    }

    /** `clone`: a new lifecycle with the same state and code and a wait
        queue of its own. */
    method Clone() returns (c: Lifecycle)
      ensures fresh(c)
      ensures c.state == state && c.exitCode == exitCode && c.waiters == {}
      ensures c.IsZombie() == IsZombie()
    {
      c := new Lifecycle();
      c.state := state;
      c.exitCode := exitCode;
    }
  }

  /** `is_zombie` holds exactly in the zombie state. */
  lemma IsZombieSpec(l: Lifecycle)
    ensures l.IsZombie() <==> l.state == Zombie
  {
    assert StateByte(Running) == 0;
  }
}
