/** IRQ lines and the guard that disables local interrupts
    (ostd/src/trap/irq.rs).  A guard remembers whether interrupts were
    enabled when it was made and enables them again when dropped only in
    that case, so nested guards leave interrupts disabled until the
    outermost one goes. */
module TrapIrq {

  import opened Common
  import opened Errors
  import opened RiscvIrq

  // ---------------------------------------------------------------------
  // IRQ lines

  /** `SourceKind`. */
  datatype SourceKind = External | Software

  /** `IrqLine`: a number, its kind, the arch line registered under the
      number and the handles of the callbacks registered through it. */
  class IrqLine {
    const irqNum: u16
    const kind: SourceKind
    const inner: RiscvIrq.IrqLine
    var callbacks: seq<IrqCallbackHandle>

    /** `IrqLine::new`: acquires the arch line of the number (a new one
        when none is registered), registers it, and has no callbacks. */
    constructor New(table: IrqTable, n: u16, k: SourceKind)
      requires n < table.slots.Length && table.Consistent()
      modifies table.slots
      ensures table.Consistent()
      ensures irqNum == n && kind == k && callbacks == []
      ensures table.slots[n] == inner && inner.irqNum == n
      ensures old(table.slots[n]) != null ==> inner == old(table.slots[n])
      ensures old(table.slots[n]) == null ==> fresh(inner) && inner.callbacks == []
      ensures forall j :: 0 <= j < table.slots.Length && j != n ==> table.slots[j] == old(table.slots[j])
    {
      var line := table.Acquire(n);
      table.RegisterLine(n, line);
      irqNum := n;
      kind := k;
      inner := line;
      callbacks := [];
    }

    /** `num`. */
    function Num(): (r: u16)
      ensures r == irqNum
    {
      irqNum
    }

    /** `is_empty`: no callback registered through this line. */
    predicate IsEmpty()
      reads this
    {
      callbacks == []
    }

    /** `on_active`: the callback is registered on the arch line and its
        handle kept; when the arch line's id allocator is exhausted the
        call panics there (`None`) and nothing is registered. */
    method OnActive(callback: nat, ids: IdAlloc) returns (h: Option<IrqCallbackHandle>)
      modifies this, inner, ids
      ensures h.None? <==> old(ids.Full())
      ensures h.None? ==> callbacks == old(callbacks) && inner.callbacks == old(inner.callbacks) && ids.used == old(ids.used)
      ensures h.Some? ==>
        && h.value.irqNum == inner.irqNum && h.value.id !in old(ids.used)
        && ids.used == old(ids.used) + {h.value.id}
        && inner.callbacks == old(inner.callbacks) + [CallbackElement(callback, h.value.id)]
        && callbacks == old(callbacks) + [h.value]
    {
      h := inner.OnActive(callback, ids);
      if h.Some? {
        callbacks := callbacks + [h.value];
      }
    }
  }

  /** `alloc_specific`: an external line for the number when no line is
      registered under it; `NotEnoughResources`, with the table
      unchanged, when one is. */
  method AllocSpecific(table: IrqTable, n: u16) returns (r: Result<IrqLine, OstdError>)
    requires n < table.slots.Length && table.Consistent()
    modifies table.slots
    ensures table.Consistent()
    ensures old(table.slots[n]) != null <==> r.Err?
    ensures r.Err? ==> r.error == NotEnoughResources && table.slots[..] == old(table.slots[..])
    ensures r.Ok? ==>
      && fresh(r.value) && fresh(r.value.inner)
      && r.value.irqNum == n && r.value.kind == External && r.value.callbacks == []
      && r.value.inner.callbacks == [] && table.slots[n] == r.value.inner
      && (forall j :: 0 <= j < table.slots.Length && j != n ==> table.slots[j] == old(table.slots[j]))
  {
    if table.IsSlotEmpty(n) {
      var line := new IrqLine.New(table, n, External);
      return Ok(line);
    }
    return Err(NotEnoughResources);
  }

  /** `alloc_software`: a software line for the next free software
      number; `NotEnoughResources` when all are taken. */
  method AllocSoftware(table: IrqTable, soft: IdAlloc) returns (r: Result<IrqLine, OstdError>)
    requires table.slots.Length == MAX_IRQS && table.Consistent() && soft.capacity == SOFTWARE_IRQ_CAP
    modifies table.slots, soft
    ensures table.Consistent()
    ensures r.Err? <==> old(soft.Full())
    ensures r.Err? ==> r.error == NotEnoughResources && table.slots[..] == old(table.slots[..])
    ensures r.Ok? ==>
      && fresh(r.value) && r.value.kind == Software && r.value.callbacks == []
      && SOFTWARE_IRQ_BASE <= r.value.irqNum < MAX_IRQS && !IsPlicSource(r.value.irqNum)
      && r.value.irqNum - SOFTWARE_IRQ_BASE !in old(soft.used)
      && table.slots[r.value.irqNum] == r.value.inner
  {
    var n := AllocSoftIrq(soft);
    if n.None? {
      return Err(NotEnoughResources);
    }
    var line := new IrqLine.New(table, n.value, Software);
    return Ok(line);
  }

  // ---------------------------------------------------------------------
  // Disabling local interrupts

  /** `DisabledLocalIrqGuard`: whether interrupts were enabled when the
      guard was made, which is whether dropping it enables them. */
  class DisabledLocalIrqGuard {
    var wasEnabled: bool

    /** `new`: records the hart's state and disables interrupts if they
        were enabled. */
    constructor New(hart: Hart)
      modifies hart
      ensures (wasEnabled, hart.enabled) == Disable(old(hart.enabled))
    {
      var was := hart.IsLocalEnabled();
      if was {
        hart.DisableLocal();
      }
      wasEnabled := was;
    }

    /** `transfer_to`: a new guard takes over the duty to enable
        interrupts and this one no longer has it. */
    method TransferTo() returns (g: DisabledLocalIrqGuard)
      modifies this
      ensures fresh(g) && g.wasEnabled == old(wasEnabled) && !wasEnabled
    {
      var was := wasEnabled;
      wasEnabled := false;
      g := new DisabledLocalIrqGuard.Holding(was);
    }

    constructor Holding(was: bool)
      ensures wasEnabled == was
    {
      wasEnabled := was;
    }

    /** `drop`: interrupts are enabled again exactly when the guard saw
        them enabled. */
    method Drop(hart: Hart)
      modifies hart
      ensures hart.enabled == Enable(old(hart.enabled), wasEnabled)
    {
      if wasEnabled {
        hart.EnableLocal();
      }
    }
  }

  /** `disable_local`: a new guard. */
  method DisableLocal(hart: Hart) returns (g: DisabledLocalIrqGuard)
    modifies hart
    ensures fresh(g) && (g.wasEnabled, hart.enabled) == Disable(old(hart.enabled))
  {
    g := new DisabledLocalIrqGuard.New(hart);
  }

  /** What making a guard does: it records the state and interrupts are
      then disabled. */
  function Disable(enabled: bool): (r: (bool, bool))
    ensures !r.1 && r.0 == enabled
  {
    (enabled, false)
  }

  /** What dropping a guard does to the enable state. */
  function Enable(enabled: bool, wasEnabled: bool): (r: bool)
    ensures r <==> enabled || wasEnabled
  {
    if wasEnabled then true else enabled
  }

  // ---------------------------------------------------------------------
  // Guards on one hart

  /** A hart's enable state and its live guards, oldest first, each by
      its `wasEnabled`. */
  datatype Guards = Guards(enabled: bool, live: seq<bool>)

  /** A guard operation: make one, drop the one at an index, or transfer
      the duty of the one at an index to a new guard. */
  datatype GuardOp = Make | DropAt(i: nat) | TransferAt(i: nat)

  /** One operation; an index with no live guard names no guard and
      changes nothing. */
  function Step(g: Guards, op: GuardOp): Guards
  {
    match op
    case Make =>
      var (was, e) := Disable(g.enabled);
      Guards(e, g.live + [was])
    case DropAt(i) =>
      if i < |g.live| then Guards(Enable(g.enabled, g.live[i]), g.live[..i] + g.live[i + 1..]) else g
    case TransferAt(i) =>
      if i < |g.live| then Guards(g.enabled, g.live[i := false] + [g.live[i]]) else g
  }

  function Run(g: Guards, ops: seq<GuardOp>): Guards
    decreases |ops|
  {
    if ops == [] then g else Run(Step(g, ops[0]), ops[1..])
  }

  /** How many of the guards hold the duty to enable interrupts. */
  function Duties(live: seq<bool>): nat
  {
    if live == [] then 0 else Duties(live[..|live| - 1]) + (if live[|live| - 1] then 1 else 0)
  }

  lemma {:induction false} DutiesAppend(a: seq<bool>, b: seq<bool>)
    ensures Duties(a + b) == Duties(a) + Duties(b)
    decreases |b|
  {
    if b != [] {
      assert (a + b)[..|a + b| - 1] == a + b[..|b| - 1];
      DutiesAppend(a, b[..|b| - 1]);
    } else {
      assert a + b == a;
    }
  }

  lemma {:induction false} DutiesSome(live: seq<bool>)
    ensures Duties(live) > 0 <==> true in live
  {
    if live != [] {
      DutiesSome(live[..|live| - 1]);
      assert live == live[..|live| - 1] + [live[|live| - 1]];
    }
  }

  /** The guards of a hart whose state was `e0` before any of them: at
      most one guard holds the duty to enable; while one does, `e0` was
      enabled and interrupts are disabled; while none does, the state is
      `e0`. */
  ghost predicate Restores(g: Guards, e0: bool)
  {
    && Duties(g.live) <= 1
    && (Duties(g.live) == 1 ==> e0 && !g.enabled)
    && (Duties(g.live) == 0 ==> g.enabled == e0)
  }

  /** Every guard operation, in any order, keeps `Restores`. */
  lemma StepRestores(g: Guards, e0: bool, op: GuardOp)
    requires Restores(g, e0)
    ensures Restores(Step(g, op), e0)
  {
    match op
    case Make => MakeRestores(g, e0);
    case DropAt(i) => if i < |g.live| { DropRestores(g, e0, i); }
    case TransferAt(i) => if i < |g.live| { TransferRestores(g, e0, i); }
  }

  lemma MakeRestores(g: Guards, e0: bool)
    requires Restores(g, e0)
    ensures Restores(Step(g, Make), e0)
  {
    DutiesAppend(g.live, [g.enabled]);
    assert [g.enabled][..0] == [];
  }

  lemma DropRestores(g: Guards, e0: bool, i: nat)
    requires Restores(g, e0) && i < |g.live|
    ensures Restores(Step(g, DropAt(i)), e0)
  {
    Split3(g.live, i);
  }

  lemma TransferRestores(g: Guards, e0: bool, i: nat)
    requires Restores(g, e0) && i < |g.live|
    ensures Restores(Step(g, TransferAt(i)), e0)
  {
    var cleared := g.live[i := false];
    Split3(g.live, i);
    Split3(cleared, i);
    assert cleared[..i] == g.live[..i] && cleared[i + 1..] == g.live[i + 1..];
    DutiesAppend(cleared, [g.live[i]]);
    assert [g.live[i]][..0] == [];
  }

  /** The duties of a sequence are those of the part before `i`, of the
      guard at `i` and of the part after. */
  lemma Split3(live: seq<bool>, i: nat)
    requires i < |live|
    ensures Duties(live) == Duties(live[..i]) + (if live[i] then 1 else 0) + Duties(live[i + 1..])
    ensures Duties(live[..i] + live[i + 1..]) == Duties(live[..i]) + Duties(live[i + 1..])
  {
    assert live == (live[..i] + [live[i]]) + live[i + 1..];
    DutiesAppend(live[..i] + [live[i]], live[i + 1..]);
    DutiesAppend(live[..i], live[i + 1..]);
    assert (live[..i] + [live[i]])[..i] == live[..i];
  }

  /** Whatever guards are made, transferred and dropped in whatever order,
      once none is left interrupts are as they were before the first,
      and while one still holds the duty they are disabled. */
  lemma {:induction false} RunRestores(e0: bool, ops: seq<GuardOp>)
    ensures Restores(Run(Guards(e0, []), ops), e0)
    ensures Run(Guards(e0, []), ops).live == [] ==> Run(Guards(e0, []), ops).enabled == e0
  {
    RunFrom(Guards(e0, []), e0, ops);
  }

  lemma {:induction false} RunFrom(g: Guards, e0: bool, ops: seq<GuardOp>)
    requires Restores(g, e0)
    ensures Restores(Run(g, ops), e0)
    decreases |ops|
  {
    if ops != [] {
      StepRestores(g, e0, ops[0]);
      RunFrom(Step(g, ops[0]), e0, ops[1..]);
    }
  }

  /** Nesting: guards dropped in the reverse order of their making.  Only
      the outermost holds the duty, so interrupts stay disabled while any
      guard lives. */
  ghost predicate Nested(g: Guards, e0: bool)
  {
    && Restores(g, e0)
    && (g.live != [] ==> g.live[0] == e0 && !g.enabled)
    && (forall i :: 0 < i < |g.live| ==> !g.live[i])
  }

  /** Making a guard, or dropping the newest, keeps the guards nested. */
  lemma NestedStep(g: Guards, e0: bool, op: GuardOp)
    requires Nested(g, e0)
    requires op == Make || (g.live != [] && op == DropAt(|g.live| - 1))
    ensures Nested(Step(g, op), e0)
  {
    StepRestores(g, e0, op);
    if op == Make && g.live != [] {
      assert Step(g, op).live[0] == g.live[0];
    }
  }

  /** A run of makes and drops of the newest guard: interrupts are
      disabled while a guard lives and back to their first state once
      none does. */
  lemma {:induction false} NestedRun(g: Guards, e0: bool, ops: seq<GuardOp>)
    requires Nested(g, e0)
    requires forall k :: 0 <= k < |ops| ==> ops[k] == Make || ops[k].DropAt?
    requires LastFirst(g, ops)
    ensures Nested(Run(g, ops), e0)
    ensures Run(g, ops).live != [] ==> !Run(g, ops).enabled
    ensures Run(g, ops).live == [] ==> Run(g, ops).enabled == e0
    decreases |ops|
  {
    if ops != [] {
      NestedStep(g, e0, ops[0]);
      NestedRun(Step(g, ops[0]), e0, ops[1..]);
    }
  }

  /** Each drop in the run names the newest live guard. */
  ghost predicate LastFirst(g: Guards, ops: seq<GuardOp>)
    decreases |ops|
  {
    ops == [] || ((ops[0].DropAt? ==> ops[0].i == |g.live| - 1) && LastFirst(Step(g, ops[0]), ops[1..]))
  }
}
