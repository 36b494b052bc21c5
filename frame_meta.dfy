/** Frame metadata (ostd/src/mm/frame/meta.rs): one 4-byte slot per
    physical frame, laid out linearly from the start of the metadata
    range, holding the frame's reference count.  The start of that range
    is a kernel-space constant outside this model, so it is a parameter
    `base` here. */
module FrameMeta {

  import opened Common
  import opened Mm
  import opened FrameAllocator

  /** `META_SLOT_SIZE`: a slot is one 32-bit reference count. */
  const META_SLOT_SIZE: nat := 4

  /** The reference count of a frame nobody uses (`u32::MAX`). */
  const REF_COUNT_UNUSED: u32 := 0xFFFF_FFFF

  /** `REF_COUNT_MAX` (`i32::MAX`): counts from here up to
      `REF_COUNT_UNUSED` are illegal and stop an overflow. */
  const REF_COUNT_MAX: u32 := 0x7FFF_FFFF

  /** `frame_to_meta`: the address of the slot of the frame holding
      `paddr`. */
  function FrameToMeta(base: nat, paddr: nat): (vaddr: nat)
    ensures vaddr >= base && (vaddr - base) % META_SLOT_SIZE == 0
  {
    MultipleMod(paddr / PAGE_SIZE, META_SLOT_SIZE);
    base + paddr / PAGE_SIZE * META_SLOT_SIZE
  }

  /** `meta_to_frame`: the address of the frame whose slot is at
      `vaddr`; an address below the base would underflow. */
  function MetaToFrame(base: nat, vaddr: nat): (paddr: nat)
    requires vaddr >= base
    ensures paddr % PAGE_SIZE == 0
  {
    MultipleMod((vaddr - base) / META_SLOT_SIZE, PAGE_SIZE);
    (vaddr - base) / META_SLOT_SIZE * PAGE_SIZE
  }

  /** From a frame's address to its slot and back gives the start of the
      frame, which is the address itself when it is page aligned. */
  lemma MetaToFrameToMeta(base: nat, paddr: nat)
    ensures MetaToFrame(base, FrameToMeta(base, paddr)) == AlignDown(paddr, PAGE_SIZE)
    ensures paddr % PAGE_SIZE == 0 ==> MetaToFrame(base, FrameToMeta(base, paddr)) == paddr
  {
    MultipleMod(paddr / PAGE_SIZE, META_SLOT_SIZE);
    assert (FrameToMeta(base, paddr) - base) / META_SLOT_SIZE == paddr / PAGE_SIZE;
    if paddr % PAGE_SIZE == 0 {
      DivModUnique(paddr, PAGE_SIZE, paddr / PAGE_SIZE, 0);
    }
  }

  /** From a slot's address to its frame and back gives the slot. */
  lemma FrameToMetaToFrame(base: nat, vaddr: nat)
    requires vaddr >= base && (vaddr - base) % META_SLOT_SIZE == 0
    ensures FrameToMeta(base, MetaToFrame(base, vaddr)) == vaddr
  {
    var k := (vaddr - base) / META_SLOT_SIZE;
    MultipleMod(k, PAGE_SIZE);
    assert MetaToFrame(base, vaddr) / PAGE_SIZE == k;
  }

  /** Distinct pages have distinct slots. */
  lemma FrameToMetaInjective(base: nat, p: nat, q: nat)
    requires p % PAGE_SIZE == 0 && q % PAGE_SIZE == 0 && p != q
    ensures FrameToMeta(base, p) != FrameToMeta(base, q)
  {
    MetaToFrameToMeta(base, p);
    MetaToFrameToMeta(base, q);
  }

  /** `alloc_meta_frames`: the pages the slots of `totNrFrames` frames
      take, rounded up to a whole page; `None` where the byte count
      overflows 64 bits, on which the source panics. */
  function NrMetaPages(totNrFrames: nat): (r: Option<nat>)
  {
    var bytes := totNrFrames * META_SLOT_SIZE;
    if bytes >= USIZE_LIMIT then None
    else Some((bytes + PAGE_SIZE - 1) / PAGE_SIZE)
  }

  /** The metadata pages hold every slot, and one page fewer would not. */
  lemma NrMetaPagesFits(totNrFrames: nat)
    requires NrMetaPages(totNrFrames).Some?
    ensures var n := NrMetaPages(totNrFrames).value;
      && totNrFrames * META_SLOT_SIZE <= n * PAGE_SIZE
      && (n > 0 ==> (n - 1) * PAGE_SIZE < totNrFrames * META_SLOT_SIZE)
  {
    var bytes := totNrFrames * META_SLOT_SIZE;
    var n := (bytes + PAGE_SIZE - 1) / PAGE_SIZE;
    var r := (bytes + PAGE_SIZE - 1) % PAGE_SIZE;
    assert bytes + PAGE_SIZE - 1 == n * PAGE_SIZE + r;
    if n > 0 {
      assert (n - 1) * PAGE_SIZE == n * PAGE_SIZE - PAGE_SIZE;
    }
  }

  /** A count a holder of a reference can see: not zero (a frame being
      built or torn down) and not `REF_COUNT_UNUSED`. */
  predicate Held(count: u32)
  {
    count != 0 && count != REF_COUNT_UNUSED
  }

  /** The metadata slots: the reference count of every frame, by frame
      number, starting at `base`; `maxPaddr` is `MAX_PADDR`, a page
      boundary within the frames that have a slot. */
  class MetaSlots {
    const base: nat
    const maxPaddr: nat
    const refCounts: array<u32>

    ghost predicate Valid()
      reads this
    {
      maxPaddr % PAGE_SIZE == 0 && maxPaddr <= refCounts.Length * PAGE_SIZE
    }

    /** The slots `alloc_meta_frames` fills with the byte 0xff: the
        slots of `totNrFrames` frames, all unused, with `MAX_PADDR` the end
        of the last frame. */
    constructor Init(base: nat, totNrFrames: nat)
      ensures Valid() && this.base == base && fresh(refCounts)
      ensures refCounts.Length == totNrFrames && maxPaddr == totNrFrames * PAGE_SIZE
      ensures forall i :: 0 <= i < refCounts.Length ==> refCounts[i] == REF_COUNT_UNUSED
    {
      this.base := base;
      this.maxPaddr := totNrFrames * PAGE_SIZE;
      MultipleMod(totNrFrames, PAGE_SIZE);
      refCounts := new u32[totNrFrames](_ => REF_COUNT_UNUSED);
    }

    /** The slot the pointer `ptr` stands for. */
    function SlotIndex(ptr: nat): (i: nat)
      requires ptr >= base
      reads this
    {
      (ptr - base) / META_SLOT_SIZE
    }

    /** `MetaSlot::inc_ref_count`: add one to the count of a frame the
        caller holds a reference to.  The count is added first; it panics
        (`overflow`) when the old count had reached `REF_COUNT_MAX`. */
    method IncRefCount(i: nat) returns (overflow: bool)
      requires i < refCounts.Length && Held(refCounts[i])
      modifies refCounts
      ensures refCounts[..] == old(refCounts[..])[i := old(refCounts[i]) + 1]
      ensures overflow <==> old(refCounts[i]) >= REF_COUNT_MAX
    {
      var last := refCounts[i];
      refCounts[i] := last + 1;
      overflow := last >= REF_COUNT_MAX;
    }

    /** `drop_last_in_place`: the frame at slot `i`, whose count has
        dropped to zero, is marked unused and its page handed back to the
        allocator. */
    method DropLastInPlace(i: nat, allocator: CountingFrameAllocator)
      requires i < refCounts.Length && refCounts[i] == 0
      requires PAGE_SIZE <= allocator.allocatedBytes
      modifies refCounts, allocator
      ensures refCounts[..] == old(refCounts[..])[i := REF_COUNT_UNUSED]
      ensures allocator.allocatedBytes == old(allocator.allocatedBytes) - PAGE_SIZE
    {
      var paddr := MetaToFrame(base, base + i * META_SLOT_SIZE);
      refCounts[i] := REF_COUNT_UNUSED;
      allocator.Dealloc(paddr / PAGE_SIZE, 1);
    }
  }
}
