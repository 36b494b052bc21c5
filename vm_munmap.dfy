/** The `munmap` system call (kernel/src/vm/munmap.rs): argument checks,
    rounding, and the range handed to the root VMAR, whose removal can fail
    (its failure is the parameter `removeError`). */
module MUnmap {

  import opened Common
  import opened Errors
  import opened Mm

  const USIZE_LIMIT: nat := 0x1_0000_0000_0000_0000
  const ISIZE_MAX: nat := 0x7fff_ffff_ffff_ffff

  /** A half-open range of addresses. */
  datatype Range = Range(start: nat, end: nat)

  /** The range `do_munmap` removes, as written: the end `addr + len` is
      computed in `usize` and wraps when the range passes the top of the
      address space. */
  function UnmapRangeAsWritten(addr: nat, len: nat): (r: Result<Range, Errno>)
    requires addr < USIZE_LIMIT && len < USIZE_LIMIT
    ensures r.Err? <==> addr % PAGE_SIZE != 0 || len == 0 || len > ISIZE_MAX
  {
    if addr % PAGE_SIZE != 0 || len == 0 || len > ISIZE_MAX then Err(EINVAL)
    else Ok(Range(addr, (addr + AlignUp(len, PAGE_SIZE)) % USIZE_LIMIT))
  }

  /** A range starting in the top pages ends below its start. */
  lemma UnmapRangeWraps()
    ensures var r := UnmapRangeAsWritten(USIZE_LIMIT - PAGE_SIZE, 2 * PAGE_SIZE);
      r.Ok? && r.value == Range(USIZE_LIMIT - PAGE_SIZE, PAGE_SIZE) && r.value.end < r.value.start
  {
    assert AlignUp(2 * PAGE_SIZE, PAGE_SIZE) == 2 * PAGE_SIZE by {
      DivModUnique(2 * PAGE_SIZE + PAGE_SIZE - 1, PAGE_SIZE, 2, PAGE_SIZE - 1);
    }
  }

  /** The range removed: EINVAL for an unaligned address, an empty length
      or one above `isize::MAX`, and, unlike the code as written, for a
      range whose end does not fit in a `usize`; otherwise exactly
      `[addr, addr + len)` with `len` rounded up to whole pages. */
  function UnmapRange(addr: nat, len: nat): (r: Result<Range, Errno>)
    requires addr < USIZE_LIMIT && len < USIZE_LIMIT
    ensures r.Err? <==>
      (addr % PAGE_SIZE != 0 || len == 0 || len > ISIZE_MAX || addr + AlignUp(len, PAGE_SIZE) >= USIZE_LIMIT)
    ensures r.Err? ==> r.error == EINVAL
  {
    if addr % PAGE_SIZE != 0 || len == 0 || len > ISIZE_MAX then Err(EINVAL)
    else if addr + AlignUp(len, PAGE_SIZE) >= USIZE_LIMIT then Err(EINVAL)
    else Ok(Range(addr, addr + AlignUp(len, PAGE_SIZE)))
  }

  /** Every accepted range is page aligned at both ends, covers the
      requested bytes and less than one page more, and agrees with the code
      as written. */
  lemma UnmapRangeCovers(addr: nat, len: nat)
    requires addr < USIZE_LIMIT && len < USIZE_LIMIT
    requires UnmapRange(addr, len).Ok?
    ensures var r := UnmapRange(addr, len).value;
      && r.start == addr && r.start % PAGE_SIZE == 0 && r.end % PAGE_SIZE == 0
      && addr + len <= r.end < addr + len + PAGE_SIZE
      && r.start < r.end < USIZE_LIMIT
      && UnmapRangeAsWritten(addr, len) == Ok(r)
  {
    var a := AlignUp(len, PAGE_SIZE);
    AddMultiples(addr, a, PAGE_SIZE);
    ModSmall(addr + a, USIZE_LIMIT);
  }

  /** `do_munmap`: the range is removed and the call returns 0, or the
      first error. */
  function DoMunmap(addr: nat, len: nat, removeError: Option<Errno>): (r: Result<int, Errno>)
    requires addr < USIZE_LIMIT && len < USIZE_LIMIT
    ensures r.Ok? <==> UnmapRange(addr, len).Ok? && removeError.None?
    ensures r.Ok? ==> r.value == 0
    ensures UnmapRange(addr, len).Err? ==> r == Err(EINVAL)
  {
    var range := UnmapRange(addr, len);
    if range.Err? then Err(range.error)
    else if removeError.Some? then Err(removeError.value)
    else Ok(0)
  }
}
