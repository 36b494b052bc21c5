/** Frame handles (ostd/src/mm/frame.rs): a `Frame` is a pointer to the
    metadata slot of one base page, and the handles of a page are counted
    in that slot.  Taking an unused page, cloning a handle and dropping one
    move the count; the last drop gives the page back to the allocator. */
module Frames {

  import opened Common
  import opened Mm
  import opened FrameAllocator
  import opened FrameMeta

  /** `Frame`: the address of the frame's metadata slot. */
  datatype Frame = Frame(ptr: nat)

  /** Why a frame operation panics. */
  datatype FramePanic = Misaligned | BeyondMaxPaddr | InUse | RefCountOverflow

  /** `Frame::level`: a frame is always a base page. */
  const FRAME_LEVEL: nat := 1

  /** `Frame::size`. */
  const FRAME_SIZE: nat := PAGE_SIZE

  /** A frame is one page of its level: the base page. */
  lemma FrameGeometry()
    ensures PageSize(FRAME_LEVEL) == FRAME_SIZE == BASE_PAGE_SIZE
  {
    PageSizeValues();
  }

  /** A handle points at a slot of the table. */
  predicate PointsIn(slots: MetaSlots, f: Frame)
    reads slots
  {
    f.ptr >= slots.base && (f.ptr - slots.base) % META_SLOT_SIZE == 0
    && slots.SlotIndex(f.ptr) < slots.refCounts.Length
  }

  /** `start_paddr`: the frame whose slot the handle points at. */
  function StartPaddr(slots: MetaSlots, f: Frame): (paddr: nat)
    requires f.ptr >= slots.base
    reads slots
  {
    MetaToFrame(slots.base, f.ptr)
  }

  /** `from_raw`: the handle of the frame at `paddr`. */
  function FromRaw(slots: MetaSlots, paddr: nat): (f: Frame)
    reads slots
    ensures f.ptr >= slots.base
  {
    Frame(FrameToMeta(slots.base, paddr))
  }

  /** `into_raw` then `from_raw` gives back the same handle. */
  lemma FromRawIntoRaw(slots: MetaSlots, f: Frame)
    requires f.ptr >= slots.base && (f.ptr - slots.base) % META_SLOT_SIZE == 0
    ensures FromRaw(slots, StartPaddr(slots, f)) == f
  {
    FrameToMetaToFrame(slots.base, f.ptr);
  }

  /** `from_raw` then `into_raw` gives back a page-aligned address. */
  lemma IntoRawFromRaw(slots: MetaSlots, paddr: nat)
    requires paddr % PAGE_SIZE == 0
    ensures StartPaddr(slots, FromRaw(slots, paddr)) == paddr
  {
    MetaToFrameToMeta(slots.base, paddr);
  }

  /** The slot of a page below `MAX_PADDR` is in the table, at the page's
      frame number. */
  lemma SlotOfPage(slots: MetaSlots, paddr: nat)
    requires slots.Valid() && paddr % PAGE_SIZE == 0 && paddr < slots.maxPaddr
    ensures PointsIn(slots, FromRaw(slots, paddr))
    ensures slots.SlotIndex(FromRaw(slots, paddr).ptr) == paddr / PAGE_SIZE
  {
    var k := paddr / PAGE_SIZE;
    MultipleMod(k, META_SLOT_SIZE);
    assert k * PAGE_SIZE == paddr;
  }

  /** `Frame::from_unused`: take the unused page at `paddr`.  It panics
      when the address is not page aligned, when it is not below
      `MAX_PADDR`, and when the page is in use (its count is not
      `REF_COUNT_UNUSED`), in that order; otherwise the count goes to one
      and the handle points at the page's slot. */
  method FromUnused(slots: MetaSlots, paddr: nat) returns (r: Result<Frame, FramePanic>)
    requires slots.Valid()
    modifies slots.refCounts
    ensures paddr % PAGE_SIZE != 0 ==> r == Err(Misaligned) && unchanged(slots.refCounts)
    ensures paddr % PAGE_SIZE == 0 && paddr >= slots.maxPaddr ==> r == Err(BeyondMaxPaddr) && unchanged(slots.refCounts)
    ensures paddr % PAGE_SIZE == 0 && paddr < slots.maxPaddr ==>
      && paddr / PAGE_SIZE < slots.refCounts.Length
      && (old(slots.refCounts[paddr / PAGE_SIZE]) != REF_COUNT_UNUSED ==> r == Err(InUse) && unchanged(slots.refCounts))
      && (old(slots.refCounts[paddr / PAGE_SIZE]) == REF_COUNT_UNUSED ==>
            && r == Ok(FromRaw(slots, paddr))
            && slots.refCounts[..] == old(slots.refCounts[..])[paddr / PAGE_SIZE := 1])
  {
    if paddr % PAGE_SIZE != 0 {
      return Err(Misaligned);
    }
    if paddr >= slots.maxPaddr {
      return Err(BeyondMaxPaddr);
    }
    var ptr := FrameToMeta(slots.base, paddr);
    SlotOfPage(slots, paddr);
    var i := slots.SlotIndex(ptr);
    if slots.refCounts[i] != REF_COUNT_UNUSED {
      return Err(InUse);
    }
    slots.refCounts[i] := 1;
    r := Ok(Frame(ptr));
  }

  /** `Frame::clone`: one more handle on a frame the caller holds; the
      count goes up by one, and the clone panics when the count had reached
      `REF_COUNT_MAX`. */
  method Clone(slots: MetaSlots, f: Frame) returns (r: Result<Frame, FramePanic>)
    requires PointsIn(slots, f) && Held(slots.refCounts[slots.SlotIndex(f.ptr)])
    modifies slots.refCounts
    ensures var i := slots.SlotIndex(f.ptr);
      && slots.refCounts[..] == old(slots.refCounts[..])[i := old(slots.refCounts[i]) + 1]
      && (old(slots.refCounts[i]) >= REF_COUNT_MAX ==> r == Err(RefCountOverflow))
      && (old(slots.refCounts[i]) < REF_COUNT_MAX ==> r == Ok(f))
  {
    var overflow := slots.IncRefCount(slots.SlotIndex(f.ptr));
    if overflow {
      return Err(RefCountOverflow);
    }
    r := Ok(Frame(f.ptr));
  }

  /** `Frame::drop`: one handle fewer; when it was the last, the page is
      marked unused and handed back to the allocator. */
  method Drop(slots: MetaSlots, allocator: CountingFrameAllocator, f: Frame)
    requires PointsIn(slots, f) && Held(slots.refCounts[slots.SlotIndex(f.ptr)])
    requires slots.refCounts[slots.SlotIndex(f.ptr)] == 1 ==> PAGE_SIZE <= allocator.allocatedBytes
    modifies slots.refCounts, allocator
    ensures var i := slots.SlotIndex(f.ptr);
      && (old(slots.refCounts[i]) == 1 ==>
            && slots.refCounts[..] == old(slots.refCounts[..])[i := REF_COUNT_UNUSED]
            && allocator.allocatedBytes == old(allocator.allocatedBytes) - PAGE_SIZE)
      && (old(slots.refCounts[i]) != 1 ==>
            && slots.refCounts[..] == old(slots.refCounts[..])[i := old(slots.refCounts[i]) - 1]
            && allocator.allocatedBytes == old(allocator.allocatedBytes))
  {
    var i := slots.SlotIndex(f.ptr);
    var last := slots.refCounts[i];
    slots.refCounts[i] := last - 1;
    if last == 1 {
      slots.DropLastInPlace(i, allocator);
    }
  }

  /** `inc_frame_ref_count`: one more reference to the frame at `paddr`,
      which the caller holds; the address must be a page below
      `MAX_PADDR`. */
  method IncFrameRefCount(slots: MetaSlots, paddr: nat) returns (overflow: bool)
    requires slots.Valid() && paddr % PAGE_SIZE == 0 && paddr < slots.maxPaddr
    requires paddr / PAGE_SIZE < slots.refCounts.Length && Held(slots.refCounts[paddr / PAGE_SIZE])
    modifies slots.refCounts
    ensures var i := paddr / PAGE_SIZE;
      && slots.refCounts[..] == old(slots.refCounts[..])[i := old(slots.refCounts[i]) + 1]
      && (overflow <==> old(slots.refCounts[i]) >= REF_COUNT_MAX)
  {
    var ptr := FrameToMeta(slots.base, paddr);
    SlotOfPage(slots, paddr);
    overflow := slots.IncRefCount(slots.SlotIndex(ptr));
  }

  /** `reference_count`. */
  function ReferenceCount(slots: MetaSlots, f: Frame): (c: u32)
    requires PointsIn(slots, f)
    reads slots, slots.refCounts
  {
    slots.refCounts[slots.SlotIndex(f.ptr)]
  }
}
