/** The RISC-V interrupt bookkeeping (ostd/src/arch/riscv/irq.rs): the
    table of registered IRQ lines, the allocators of software IRQ numbers
    and callback ids, the callback lists of the lines, the local
    interrupt-enable bit and the hart masks of inter-processor
    interrupts. */
module RiscvIrq {

  import opened Common
  import Mm

  const SOFTWARE_IRQ_BASE: nat := 1024
  const SOFTWARE_IRQ_CAP: nat := 256

  /** `MAX_IRQS`: the external numbers below the base and the software
      numbers above it. */
  const MAX_IRQS: nat := SOFTWARE_IRQ_BASE + SOFTWARE_IRQ_CAP

  /** `is_plic_source`: a non-zero number below the software range. */
  predicate IsPlicSource(id: u16)
  {
    id != 0 && id < SOFTWARE_IRQ_BASE
  }

  // ---------------------------------------------------------------------
  // Id allocators

  /** An `IdAlloc` of the id_alloc crate: the ids below `capacity` that
      are in use.  An allocation hands out the lowest free id. */
  class IdAlloc {
    const capacity: nat
    var used: set<nat>

    /** `IdAlloc::with_capacity`: nothing in use. */
    constructor WithCapacity(n: nat)
      ensures capacity == n && used == {}
    {
      capacity := n;
      used := {};
    }

    predicate Full()
      reads this
    {
      forall i :: 0 <= i < capacity ==> i in used
    }

    /** `alloc`: the lowest free id, now in use; none when all are in
        use. */
    method Alloc() returns (r: Option<nat>)
      modifies this
      ensures r.None? <==> old(Full())
      ensures r.None? ==> used == old(used)
      ensures r.Some? ==>
        && r.value < capacity && r.value !in old(used)
        && (forall i :: 0 <= i < r.value ==> i in old(used))
        && used == old(used) + {r.value}
    {
      var i := 0;
      while i < capacity && i in used
        invariant i <= capacity
        invariant forall j :: 0 <= j < i ==> j in used
        decreases capacity - i
      {
        i := i + 1;
      }
      if i == capacity {
        return None;
      }
      used := used + {i};
      r := Some(i);
    }

    /** `free`: the id is no longer in use. */
    method Free(id: nat)
      modifies this
      ensures used == old(used) - {id}
    {
      used := used - {id};
    }
  }

  /** `alloc_soft_irq`: a software IRQ number is the base plus an index
      taken from the allocator of `SOFTWARE_IRQ_CAP` indices; none when
      every index is taken. */
  method AllocSoftIrq(soft: IdAlloc) returns (r: Option<u16>)
    requires soft.capacity == SOFTWARE_IRQ_CAP
    modifies soft
    ensures r.None? <==> old(soft.Full())
    ensures r.None? ==> soft.used == old(soft.used)
    ensures r.Some? ==>
      && SOFTWARE_IRQ_BASE <= r.value < MAX_IRQS
      && r.value - SOFTWARE_IRQ_BASE !in old(soft.used)
      && soft.used == old(soft.used) + {r.value - SOFTWARE_IRQ_BASE}
  {
    var i := soft.Alloc();
    if i.None? {
      return None;
    }
    r := Some(SOFTWARE_IRQ_BASE + i.value);
  }

  /** A software IRQ number lies in the table and is never a PLIC
      source; distinct indices give distinct numbers. */
  lemma SoftIrqNotPlic(i: nat, j: nat)
    requires i < SOFTWARE_IRQ_CAP && j < SOFTWARE_IRQ_CAP
    ensures SOFTWARE_IRQ_BASE + i < MAX_IRQS && !IsPlicSource(SOFTWARE_IRQ_BASE + i)
    ensures i != j ==> SOFTWARE_IRQ_BASE + i != SOFTWARE_IRQ_BASE + j
  {
  }

  // ---------------------------------------------------------------------
  // Lines and callbacks

  /** `CallbackElement`: the callback (an opaque closure) and its id. */
  datatype CallbackElement = CallbackElement(callback: nat, id: nat)

  /** `IrqCallbackHandle`: the line and the id of a registered callback. */
  datatype IrqCallbackHandle = IrqCallbackHandle(irqNum: u16, id: nat)

  /** `IrqLine`: its number and its callbacks in registration order. */
  class IrqLine {
    const irqNum: u16
    var callbacks: seq<CallbackElement>

    constructor (n: u16)
      ensures irqNum == n && callbacks == []
    {
      irqNum := n;
      callbacks := [];
    }

    /** `on_active`: the callback is appended under a fresh id, the
        lowest free one.  When the id allocator has none left, its
        `unwrap` panics (`None` here) and nothing is registered. */
    method OnActive(callback: nat, ids: IdAlloc) returns (h: Option<IrqCallbackHandle>)
      modifies this, ids
      ensures h.None? <==> old(ids.Full())
      ensures h.None? ==> callbacks == old(callbacks) && ids.used == old(ids.used)
      ensures h.Some? ==>
        && h.value.irqNum == irqNum && h.value.id < ids.capacity && h.value.id !in old(ids.used)
        && ids.used == old(ids.used) + {h.value.id}
        && callbacks == old(callbacks) + [CallbackElement(callback, h.value.id)]
    {
      var id := ids.Alloc();
      if id.None? {
        return None;
      }
      callbacks := callbacks + [CallbackElement(callback, id.value)];
      h := Some(IrqCallbackHandle(irqNum, id.value));
    }
  }

  /** `retain(|item| item.id != id)`: the callbacks without that id, in
      order. */
  function RemoveId(cs: seq<CallbackElement>, id: nat): (r: seq<CallbackElement>)
    ensures |r| <= |cs|
  {
    if cs == [] then []
    else if cs[0].id == id then RemoveId(cs[1..], id)
    else [cs[0]] + RemoveId(cs[1..], id)
  }

  /** The callbacks with a given id, in order. */
  function WithId(cs: seq<CallbackElement>, id: nat): seq<CallbackElement>
  {
    if cs == [] then []
    else if cs[0].id == id then [cs[0]] + WithId(cs[1..], id)
    else WithId(cs[1..], id)
  }

  /** Removing an id leaves no callback with it and every other callback,
      in its order: the callbacks of each other id are exactly those
      before. */
  lemma {:induction false} RemoveIdOnly(cs: seq<CallbackElement>, id: nat, other: nat)
    ensures WithId(RemoveId(cs, id), id) == []
    ensures other != id ==> WithId(RemoveId(cs, id), other) == WithId(cs, other)
  {
    if cs != [] {
      RemoveIdOnly(cs[1..], id, other);
      var rest := RemoveId(cs[1..], id);
      if cs[0].id != id {
        assert ([cs[0]] + rest)[1..] == rest;
      }
    }
  }

  /** A callback survives the removal exactly when it is in the list and
      has another id. */
  lemma {:induction false} RemoveIdMembers(cs: seq<CallbackElement>, id: nat, c: CallbackElement)
    ensures c in RemoveId(cs, id) <==> c in cs && c.id != id
  {
    if cs != [] {
      RemoveIdMembers(cs[1..], id, c);
      assert cs == [cs[0]] + cs[1..];
    }
  }

  /** `IRQ_TABLE`: the line registered under each number, if any. */
  class IrqTable {
    const slots: array<IrqLine?>

    constructor ()
      ensures slots.Length == MAX_IRQS && fresh(slots)
      ensures forall n :: 0 <= n < MAX_IRQS ==> slots[n] == null
      ensures Consistent()
    {
      slots := new IrqLine?[MAX_IRQS](_ => null);
    }

    /** Every registered line sits under its own number, as the safety
        contract of `register_line` demands. */
    predicate Consistent()
      reads slots
    {
      forall k :: 0 <= k < slots.Length && slots[k] != null ==> slots[k].irqNum == k
    }

    /** `is_slot_empty`. */
    predicate IsSlotEmpty(n: u16)
      requires n < slots.Length
      reads slots
    {
      slots[n] == null
    }

    /** `register_line`: the slot holds the line; no other slot
        changes. */
    method RegisterLine(n: u16, p: IrqLine?)
      requires n < slots.Length && Consistent() && (p == null || p.irqNum == n)
      modifies slots
      ensures slots[n] == p && Consistent()
      ensures forall k :: 0 <= k < slots.Length && k != n ==> slots[k] == old(slots[k])
    {
      slots[n] := p;
    }

    /** `unregister_line`: the slot is emptied; no other slot changes. */
    method UnregisterLine(n: u16)
      requires n < slots.Length && Consistent()
      modifies slots
      ensures slots[n] == null && Consistent()
      ensures forall k :: 0 <= k < slots.Length && k != n ==> slots[k] == old(slots[k])
    {
      slots[n] := null;
    }

    /** `IrqLine::acquire`: the line registered under the number, or a
        new line without callbacks, now registered. */
    method Acquire(n: u16) returns (line: IrqLine)
      requires n < slots.Length && Consistent()
      modifies slots
      ensures line.irqNum == n && Consistent()
      ensures old(slots[n]) != null ==> line == old(slots[n]) && slots[..] == old(slots[..])
      ensures old(slots[n]) == null ==> fresh(line) && line.irqNum == n && line.callbacks == []
      ensures slots[n] == line
      ensures forall k :: 0 <= k < slots.Length && k != n ==> slots[k] == old(slots[k])
    {
      var p := slots[n];
      if p == null {
        line := new IrqLine(n);
        slots[n] := line;
      } else {
        line := p;
      }
    }

    /** Dropping an `IrqCallbackHandle`: the line registered under the
        handle's number, if any, loses the callbacks with the handle's
        id, and the id is freed. */
    method DropHandle(h: IrqCallbackHandle, ids: IdAlloc)
      requires h.irqNum < slots.Length
      modifies if slots[h.irqNum] == null then {} else {slots[h.irqNum]}, ids
      ensures slots[h.irqNum] != null ==>
        slots[h.irqNum].callbacks == RemoveId(old(slots[h.irqNum].callbacks), h.id)
      ensures ids.used == old(ids.used) - {h.id}
    {
      var p := slots[h.irqNum];
      if p != null {
        p.callbacks := RemoveId(p.callbacks, h.id);
      }
      ids.Free(h.id);
    }
  }

  // ---------------------------------------------------------------------
  // The local interrupt-enable bit

  /** The current hart's supervisor interrupt-enable bit (`sstatus.SIE`). */
  class Hart {
    var enabled: bool

    constructor (e: bool)
      ensures enabled == e
    {
      enabled := e;
    }

    /** `is_local_enabled`. */
    predicate IsLocalEnabled()
      reads this
    {
      enabled
    }

    /** `enable_local`. */
    method EnableLocal()
      modifies this
      ensures enabled
    {
      enabled := true;
    }

    /** `disable_local`. */
    method DisableLocal()
      modifies this
      ensures !enabled
    {
      enabled := false;
    }
  }

  // ---------------------------------------------------------------------
  // Hart masks

  /** `build_hart_mask`: the base is the hart rounded down to 32 and the
      mask has the bit of the hart's offset from it. */
  function BuildHartMask(hart: nat): (r: (nat, nat))
    ensures r.0 % 32 == 0 && r.0 <= hart < r.0 + 32
    ensures r.1 == Pow2(hart - r.0)
  {
    ((hart / 32) * 32, Pow2(hart % 32))
  }

  /** Whether the mask (relative to its base) selects hart `j`. */
  predicate Selects(base: nat, mask: nat, j: nat)
  {
    base <= j && (mask / Pow2(j - base)) % 2 == 1
  }

  /** The mask `build_hart_mask` makes selects its hart and no other. */
  lemma HartMaskSelectsOnly(hart: nat, j: nat)
    ensures Selects(BuildHartMask(hart).0, BuildHartMask(hart).1, j) <==> j == hart
  {
    var (base, mask) := BuildHartMask(hart);
    if base <= j {
      PowerBit(hart - base, j - base);
    }
  }

  /** Bit `i` of `2^k` is set exactly when `i == k`. */
  lemma PowerBit(k: nat, i: nat)
    ensures (Pow2(k) / Pow2(i)) % 2 == 1 <==> i == k
  {
    var x, d := Pow2(k), Pow2(i);
    if i < k {
      var j := k - i;
      var q := Pow2(j);
      Pow2Split(i, j, k);
      DivModUnique(x, d, q, 0);
      var h := Pow2(j - 1);
      assert q == 2 * h;
      DivModUnique(q, 2, h, 0);
    } else if i > k {
      Mm.Pow2Bound(k, i);
      DivModUnique(x, d, 0, x);
    }
  }

  lemma Pow2Split(i: nat, j: nat, k: nat)
    requires k == i + j
    ensures Pow2(k) == Pow2(j) * Pow2(i)
  {
    Mm.Pow2Add(i, j);
  }
}
