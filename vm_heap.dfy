/** The user heap of a process and the `brk` system call
    (kernel/src/vm/heap.rs).

    The heap occupies `[base, base + limit)`.  In the root VMAR it is a
    read-write mapping at `base` followed by a reservation mapped without
    permissions up to `base + limit`; `brk` grows the former into the
    latter.  The two mappings are the fields of `HeapMapping`, the part of
    the root VMAR the heap touches; the VMAR operations that can fail take
    their failure as a parameter.  The atomic heap end is a plain field:
    memory orderings are not modelled. */
module UserHeap {

  import opened Common
  import opened Errors
  import opened Mm

  const USER_HEAP_BASE: nat := 0x0000_0000_1000_0000
  /** 16 × 1024 pages, 64 MiB. */
  const USER_HEAP_SIZE_LIMIT: nat := 16 * 1024 * PAGE_SIZE

  /** The heap's mappings in the root VMAR: the read-write mapping
      `[USER_HEAP_BASE, USER_HEAP_BASE + size)` and the reservation from
      `reserveStart` to the end of the heap area. */
  class HeapMapping {
    var size: nat
    var reserveStart: nat

    /** A root VMAR in which the heap has not been mapped yet. */
    constructor ()
      ensures size == 0 && reserveStart == USER_HEAP_BASE
    {
      size := 0;
      reserveStart := USER_HEAP_BASE;
    }
  }

  /** The read-write mapping ends at the page boundary at or above the heap
      end, and the reservation starts where it ends. */
  function MappedEnd(heapEnd: nat): (r: nat)
    ensures r % PAGE_SIZE == 0 && heapEnd <= r < heapEnd + PAGE_SIZE
  {
    AlignUp(heapEnd, PAGE_SIZE)
  }

  class Heap {
    const base: nat
    const limit: nat
    var currentHeapEnd: nat

    /** The heap end lies within the heap area, and the read-write mapping
        covers exactly the pages up to it. */
    ghost predicate Valid(vm: HeapMapping)
      reads this, vm
    {
      && base == USER_HEAP_BASE && limit == USER_HEAP_SIZE_LIMIT
      && base <= currentHeapEnd <= base + limit
      && base + vm.size == MappedEnd(currentHeapEnd)
      && vm.reserveStart == base + vm.size
    }

    /** `Heap::new`: the heap is empty at its base. */
    constructor ()
      ensures base == USER_HEAP_BASE && limit == USER_HEAP_SIZE_LIMIT
      ensures currentHeapEnd == USER_HEAP_BASE
    {
      base := USER_HEAP_BASE;
      limit := USER_HEAP_SIZE_LIMIT;
      currentHeapEnd := USER_HEAP_BASE;
    }

    /** A new heap and an unmapped root VMAR are consistent. */
    static lemma NewIsValid(h: Heap, vm: HeapMapping)
      requires h.base == USER_HEAP_BASE && h.limit == USER_HEAP_SIZE_LIMIT
      requires h.currentHeapEnd == USER_HEAP_BASE
      requires vm.size == 0 && vm.reserveStart == USER_HEAP_BASE
      ensures h.Valid(vm)
    {
      MultipleMod(USER_HEAP_BASE / PAGE_SIZE, PAGE_SIZE);
      assert USER_HEAP_BASE == (USER_HEAP_BASE / PAGE_SIZE) * PAGE_SIZE;
      AlignUpExact(USER_HEAP_BASE);
    }

    /** `set_uninitialized`: the heap end is put one page above the base,
        at the end of the first mapped page. */
    method SetUninitialized()
      modifies this
      ensures currentHeapEnd == base + PAGE_SIZE
    {
      currentHeapEnd := base + PAGE_SIZE;
    }

    /** `alloc_and_map_vm`: one read-write page at the base, the rest of the
        heap area reserved, then the heap end set one page up.  A failing
        mapping returns its error; the first failure leaves everything as it
        was. */
    method AllocAndMapVm(vm: HeapMapping, mapError: Option<Errno>, reserveError: Option<Errno>)
      returns (r: Result<(), Errno>)
      requires base == USER_HEAP_BASE && limit == USER_HEAP_SIZE_LIMIT
      modifies this, vm
      ensures mapError.Some? ==>
        (r == Err(mapError.value) && currentHeapEnd == old(currentHeapEnd) && unchanged(vm))
      ensures mapError.None? && reserveError.Some? ==>
        (r == Err(reserveError.value) && currentHeapEnd == old(currentHeapEnd) && vm.size == PAGE_SIZE)
      ensures mapError.None? && reserveError.None? ==>
        (&& r == Ok(())
         && currentHeapEnd == base + PAGE_SIZE
         && vm.size == PAGE_SIZE && vm.reserveStart == base + PAGE_SIZE)
      ensures r.Ok? ==> Valid(vm)
    {
      if mapError.Some? {
        return Err(mapError.value);
      }
      vm.size := PAGE_SIZE;
      if reserveError.Some? {
        return Err(reserveError.value);
      }
      vm.reserveStart := base + PAGE_SIZE;
      SetUninitialized();
      AlignUpExact(base + PAGE_SIZE);
      return Ok(());
    }

    /** `brk`: with no argument, the current heap end.  A request past the
        heap area is ENOMEM; one at or below the current end returns the
        current end, for the heap never shrinks.  Otherwise, when the
        request reaches a new page, the reservation up to the new page
        boundary is removed and the read-write mapping resized over it, and
        the heap end becomes exactly the request.  A failing VMAR operation
        returns its error with the heap end unchanged. */
    method Brk(newHeapEnd: Option<nat>, vm: HeapMapping,
               removeError: Option<Errno>, resizeError: Option<Errno>)
      returns (r: Result<nat, Errno>)
      requires base <= currentHeapEnd
      modifies this, vm
      ensures newHeapEnd.None? ==> r == Ok(old(currentHeapEnd))
      ensures newHeapEnd.Some? && newHeapEnd.value > base + limit ==> r == Err(ENOMEM)
      ensures newHeapEnd.Some? && newHeapEnd.value <= base + limit && newHeapEnd.value <= old(currentHeapEnd)
        ==> r == Ok(old(currentHeapEnd))
      ensures (newHeapEnd.None? || newHeapEnd.value > base + limit || newHeapEnd.value <= old(currentHeapEnd))
        ==> currentHeapEnd == old(currentHeapEnd) && unchanged(vm)
      ensures newHeapEnd.Some? && old(currentHeapEnd) < newHeapEnd.value <= base + limit ==>
        var grows := MappedEnd(newHeapEnd.value) > MappedEnd(old(currentHeapEnd));
        if !grows then
          r == Ok(newHeapEnd.value) && currentHeapEnd == newHeapEnd.value && unchanged(vm)
        else if removeError.Some? then
          r == Err(removeError.value) && currentHeapEnd == old(currentHeapEnd) && unchanged(vm)
        else if resizeError.Some? then
          r == Err(resizeError.value) && currentHeapEnd == old(currentHeapEnd)
          && vm.reserveStart == MappedEnd(newHeapEnd.value) && vm.size == old(vm.size)
        else
          r == Ok(newHeapEnd.value) && currentHeapEnd == newHeapEnd.value
          && vm.reserveStart == MappedEnd(newHeapEnd.value)
          && base + vm.size == MappedEnd(newHeapEnd.value)
      ensures r.Ok? && old(Valid(vm)) ==> Valid(vm)
      ensures currentHeapEnd >= old(currentHeapEnd)
    {
      if newHeapEnd.None? {
        return Ok(currentHeapEnd);
      }
      var request := newHeapEnd.value;
      if request > base + limit {
        return Err(ENOMEM);
      }
      var currentRaw := currentHeapEnd;
      if request <= currentRaw {
        return Ok(currentRaw);
      }
      var currentPage := AlignUp(currentRaw, PAGE_SIZE);
      var requestPage := AlignUp(request, PAGE_SIZE);
      if requestPage > currentPage {
        if removeError.Some? {
          return Err(removeError.value);
        }
        vm.reserveStart := requestPage;
        if resizeError.Some? {
          return Err(resizeError.value);
        }
        vm.size := requestPage - base;
      }
      currentHeapEnd := request;
      return Ok(request);
    }

    /** `Clone`: a heap with the same area and the same end. */
    method Clone() returns (h: Heap)
      ensures fresh(h)
      ensures h.base == base && h.limit == limit && h.currentHeapEnd == currentHeapEnd
    {
      h := new Heap.Copy(base, limit, currentHeapEnd);
    }

    constructor Copy(base: nat, limit: nat, currentHeapEnd: nat)
      ensures this.base == base && this.limit == limit && this.currentHeapEnd == currentHeapEnd
    {
      this.base := base;
      this.limit := limit;
      this.currentHeapEnd := currentHeapEnd;
    }
  }

  /** A page-aligned address is its own page boundary. */
  lemma AlignUpExact(x: nat)
    requires x % PAGE_SIZE == 0
    ensures MappedEnd(x) == x
  {
    var r := MappedEnd(x);
    DivModUnique(r - x, PAGE_SIZE, (r - x) / PAGE_SIZE, 0);
  }

  /** Two distinct page boundaries are at least a page apart. */
  lemma BoundariesApart(x: nat, y: nat)
    requires x % PAGE_SIZE == 0 && y % PAGE_SIZE == 0 && x < y
    ensures x + PAGE_SIZE <= y
  {
    DivModUnique(y - x, PAGE_SIZE, y / PAGE_SIZE - x / PAGE_SIZE, 0);
  }

  /** Growing the heap moves its page boundary up by whole pages, and
      into a new page exactly when the request passes the old boundary. */
  lemma GrowthPages(current: nat, request: nat)
    requires current < request
    ensures MappedEnd(current) <= MappedEnd(request)
    ensures MappedEnd(request) > MappedEnd(current) <==> request > MappedEnd(current)
    ensures (MappedEnd(request) - MappedEnd(current)) % PAGE_SIZE == 0
  {
    var a, b := MappedEnd(current), MappedEnd(request);
    var ka, kb := (current + PAGE_SIZE - 1) / PAGE_SIZE, (request + PAGE_SIZE - 1) / PAGE_SIZE;
    assert a == ka * PAGE_SIZE && b == kb * PAGE_SIZE;
    assert ka <= kb;
    MultipleMod(kb - ka, PAGE_SIZE);
    assert b - a == (kb - ka) * PAGE_SIZE;
    if b > a {
      BoundariesApart(a, b);
    }
  }
}
