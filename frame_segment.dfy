/** Segments (ostd/src/mm/frame/segment.rs): a handle on the contiguous
    pages `[start, end)`.  A segment owns one reference to each of its
    pages, which it takes when it is made and gives back when it is
    dropped; splitting moves those references, slicing and cloning take
    more. */
module Segments {

  import opened Common
  import opened Mm
  import opened FrameAllocator
  import opened FrameMeta
  import opened Frames

  /** The counts with one added to the slots `[lo, hi)`. */
  function IncRange(s: seq<int>, lo: nat, hi: nat): (r: seq<int>)
    ensures |r| == |s|
  {
    seq(|s|, i requires 0 <= i < |s| => if lo <= i < hi then s[i] + 1 else s[i])
  }

  /** The counts with the slots `[lo, hi)` set to `v`. */
  function SetRange(s: seq<int>, lo: nat, hi: nat, v: int): (r: seq<int>)
    ensures |r| == |s|
  {
    seq(|s|, i requires 0 <= i < |s| => if lo <= i < hi then v else s[i])
  }

  /** The counts after one reference to each of the slots `[lo, hi)` is
      dropped: a last reference leaves the slot unused. */
  function DropRange(s: seq<int>, lo: nat, hi: nat): (r: seq<int>)
    ensures |r| == |s|
  {
    seq(|s|, i requires 0 <= i < |s| =>
      if lo <= i < hi then (if s[i] == 1 then REF_COUNT_UNUSED as int else s[i] - 1) else s[i])
  }

  /** How many of the slots `[lo, hi)` hold a last reference. */
  function LastRefs(s: seq<int>, lo: nat, hi: nat): (n: nat)
    requires lo <= hi <= |s|
    ensures n <= hi - lo
    decreases hi - lo
  {
    if lo == hi then 0 else LastRefs(s, lo, hi - 1) + (if s[hi - 1] == 1 then 1 else 0)
  }

  /** `Segment`: the page-aligned range `[start, end)`. */
  class Segment {
    var start: nat
    var end: nat

    ghost predicate Valid()
      reads this
    {
      start % PAGE_SIZE == 0 && end % PAGE_SIZE == 0 && start <= end
    }

    /** The segment holds a reference to each of its pages, all of them
        below `MAX_PADDR`. */
    ghost predicate Holds(slots: MetaSlots)
      reads this, slots, slots.refCounts
    {
      && Valid() && slots.Valid() && end <= slots.maxPaddr
      && end / PAGE_SIZE <= slots.refCounts.Length
      && forall k :: start / PAGE_SIZE <= k < end / PAGE_SIZE ==> Held(slots.refCounts[k])
    }

    constructor Make(start: nat, end: nat)
      ensures this.start == start && this.end == end
    {
      this.start := start;
      this.end := end;
    }

    /** `size`: the bytes the segment spans. */
    function Size(): (r: nat)
      requires start <= end
      reads this
      ensures start + r == end
    {
      end - start
    }

    /** `split`: at a page-aligned offset strictly inside the segment,
        two segments that meet there and together span this one; any other
        offset panics. */
    method Split(offset: nat) returns (r: Option<(Segment, Segment)>)
      requires Valid()
      ensures r.None? <==> offset % PAGE_SIZE != 0 || offset == 0 || offset >= end - start
      ensures r.Some? ==>
        var (a, b) := r.value;
        && fresh(a) && fresh(b)
        && a.start == start && a.end == start + offset && b.start == start + offset && b.end == end
        && a.Valid() && b.Valid() && a.end - a.start > 0 && b.end - b.start > 0
    {
      if offset % PAGE_SIZE != 0 {
        return None;
      }
      if !(0 < offset && offset < Size()) {
        return None;
      }
      var at := start + offset;
      AddMultiples(start, offset, PAGE_SIZE);
      var a := new Segment.Make(start, at);
      var b := new Segment.Make(at, end);
      r := Some((a, b));
    }

    /** `From<Frame>`: the segment of the one page a handle refers to; the
        handle's reference becomes the segment's. */
    static method FromFrame(slots: MetaSlots, f: Frame) returns (s: Segment)
      requires f.ptr >= slots.base
      ensures fresh(s) && s.Valid()
      ensures s.start == StartPaddr(slots, f) && s.end == s.start + PAGE_SIZE
    {
      var pa := StartPaddr(slots, f);
      AddMultiples(pa, PAGE_SIZE, PAGE_SIZE);
      s := new Segment.Make(pa, pa + PAGE_SIZE);
    }

    /** `Iterator::next`: the handle of the first page, with the segment
        moving past it, or nothing once the segment is empty. */
    method Next(slots: MetaSlots) returns (f: Option<Frame>)
      requires Valid()
      modifies this
      ensures Valid() && end == old(end)
      ensures old(start) < old(end) ==> f == Some(FromRaw(slots, old(start))) && start == old(start) + PAGE_SIZE
      ensures old(start) >= old(end) ==> f == None && start == old(start)
    {
      if start < end {
        var frame := FromRaw(slots, start);
        AddMultiples(start, PAGE_SIZE, PAGE_SIZE);
        assert start + PAGE_SIZE <= end by {
          AlignedGap(start, end);
        }
        start := start + PAGE_SIZE;
        return Some(frame);
      }
      return None;
    }

    /** `slice`: a segment of the page-aligned byte range `range` of this
        one, holding one more reference to each of its pages.  A range that
        is not page aligned, is reversed or runs past the end panics; so
        does a reference count that overflows. */
    method Slice(slots: MetaSlots, rangeStart: nat, rangeEnd: nat) returns (r: Result<Segment, FramePanic>)
      requires Holds(slots)
      modifies slots.refCounts
      ensures var s, e := start + rangeStart, start + rangeEnd;
        && (rangeStart % PAGE_SIZE != 0 || rangeEnd % PAGE_SIZE != 0 || s > e || e > end ==>
              r == Err(Misaligned) && unchanged(slots.refCounts))
        && (rangeStart % PAGE_SIZE == 0 && rangeEnd % PAGE_SIZE == 0 && s <= e <= end ==>
              && (r.Ok? <==> forall k :: s / PAGE_SIZE <= k < e / PAGE_SIZE ==> old(slots.refCounts[k]) < REF_COUNT_MAX)
              && (r.Ok? ==>
                    && fresh(r.value) && r.value.start == s && r.value.end == e
                    && slots.refCounts[..] == IncRange(old(slots.refCounts[..]), s / PAGE_SIZE, e / PAGE_SIZE)))
    {
      if !(rangeStart % PAGE_SIZE == 0 && rangeEnd % PAGE_SIZE == 0) {
        return Err(Misaligned);
      }
      var s := start + rangeStart;
      var e := start + rangeEnd;
      if !(s <= e && e <= end) {
        return Err(Misaligned);
      }
      AddMultiples(start, rangeStart, PAGE_SIZE);
      AddMultiples(start, rangeEnd, PAGE_SIZE);
      PageDivMono(start, s);
      PageDivMono(e, end);
      var inc := IncPages(slots, s, e);
      if inc.Err? {
        return Err(inc.error);
      }
      var seg := new Segment.Make(s, e);
      r := Ok(seg);
    }

    /** `Clone`: a segment of the same pages, holding one more reference
        to each of them; a reference count that overflows panics. */
    method Clone(slots: MetaSlots) returns (r: Result<Segment, FramePanic>)
      requires Holds(slots)
      modifies slots.refCounts
      ensures r.Ok? <==> forall k :: start / PAGE_SIZE <= k < end / PAGE_SIZE ==> old(slots.refCounts[k]) < REF_COUNT_MAX
      ensures r.Ok? ==>
        && fresh(r.value) && r.value.start == start && r.value.end == end
        && slots.refCounts[..] == IncRange(old(slots.refCounts[..]), start / PAGE_SIZE, end / PAGE_SIZE)
    {
      var inc := IncPages(slots, start, end);
      if inc.Err? {
        return Err(inc.error);
      }
      var seg := new Segment.Make(start, end);
      r := Ok(seg);
    }

    /** `Drop`: one reference to each page is dropped; the pages whose
        last reference this was are marked unused and handed back to the
        allocator. */
    method Drop(slots: MetaSlots, allocator: CountingFrameAllocator)
      requires Holds(slots)
      requires PAGE_SIZE * LastRefs(slots.refCounts[..], start / PAGE_SIZE, end / PAGE_SIZE) <= allocator.allocatedBytes
      modifies slots.refCounts, allocator
      ensures slots.refCounts[..] == DropRange(old(slots.refCounts[..]), start / PAGE_SIZE, end / PAGE_SIZE)
      ensures allocator.allocatedBytes
        == old(allocator.allocatedBytes) - PAGE_SIZE * LastRefs(old(slots.refCounts[..]), start / PAGE_SIZE, end / PAGE_SIZE)
    {
      PageDivMono(start, end);
      DropPages(slots, allocator, start, end);
    }
  }

  /** The loop of `Segment::drop` over the pages `[start, end)`, each of
      them referenced. */
  method DropPages(slots: MetaSlots, allocator: CountingFrameAllocator, start: nat, end: nat)
    requires slots.Valid() && start % PAGE_SIZE == 0 && end % PAGE_SIZE == 0 && start <= end <= slots.maxPaddr
    requires start / PAGE_SIZE <= end / PAGE_SIZE <= slots.refCounts.Length
    requires forall k :: start / PAGE_SIZE <= k < end / PAGE_SIZE ==> 0 < slots.refCounts[k] < REF_COUNT_UNUSED as int
    requires PAGE_SIZE * LastRefs(slots.refCounts[..], start / PAGE_SIZE, end / PAGE_SIZE) <= allocator.allocatedBytes
    modifies slots.refCounts, allocator
    ensures slots.refCounts[..] == DropRange(old(slots.refCounts[..]), start / PAGE_SIZE, end / PAGE_SIZE)
    ensures allocator.allocatedBytes
      == old(allocator.allocatedBytes) - PAGE_SIZE * LastRefs(old(slots.refCounts[..]), start / PAGE_SIZE, end / PAGE_SIZE)
  {
    var paddr := start;
    ghost var s0 := slots.refCounts[..];
    ghost var a0 := allocator.allocatedBytes;
    ghost var lo := start / PAGE_SIZE;
    ghost var hi := end / PAGE_SIZE;
    while paddr < end
      invariant start <= paddr <= end && paddr % PAGE_SIZE == 0
      invariant lo <= paddr / PAGE_SIZE <= hi
      invariant slots.refCounts[..] == DropRange(s0, lo, paddr / PAGE_SIZE)
      invariant allocator.allocatedBytes == a0 - PAGE_SIZE * LastRefs(s0, lo, paddr / PAGE_SIZE)
      decreases end - paddr
    {
      AlignedGap(paddr, end);
      DropPage(slots, allocator, paddr, s0, lo, hi, a0);
      AddMultiples(paddr, PAGE_SIZE, PAGE_SIZE);
      paddr := paddr + PAGE_SIZE;
    }
  }

  /** One step of `Segment::drop`: the reference to page `paddr`, the
      next after those of `[lo, paddr / PAGE_SIZE)` already dropped, is
      dropped. */
  method DropPage(slots: MetaSlots, allocator: CountingFrameAllocator, paddr: nat,
                  ghost s0: seq<int>, ghost lo: nat, ghost hi: nat, ghost a0: nat)
    requires slots.Valid() && paddr % PAGE_SIZE == 0 && paddr < slots.maxPaddr
    requires lo <= paddr / PAGE_SIZE < hi <= |s0| == slots.refCounts.Length
    requires forall k :: lo <= k < hi ==> 0 < s0[k] < REF_COUNT_UNUSED as int
    requires slots.refCounts[..] == DropRange(s0, lo, paddr / PAGE_SIZE)
    requires PAGE_SIZE * LastRefs(s0, lo, hi) <= a0
    requires allocator.allocatedBytes == a0 - PAGE_SIZE * LastRefs(s0, lo, paddr / PAGE_SIZE)
    modifies slots.refCounts, allocator
    ensures (paddr + PAGE_SIZE) / PAGE_SIZE == paddr / PAGE_SIZE + 1
    ensures slots.refCounts[..] == DropRange(s0, lo, (paddr + PAGE_SIZE) / PAGE_SIZE)
    ensures allocator.allocatedBytes == a0 - PAGE_SIZE * LastRefs(s0, lo, (paddr + PAGE_SIZE) / PAGE_SIZE)
  {
    NextPage(paddr);
    var k := paddr / PAGE_SIZE;
    LastRefsBudget(s0, lo, k, hi, a0, allocator.allocatedBytes);
    SlotOfPage(slots, paddr);
    var f := FromRaw(slots, paddr);
    assert slots.refCounts[k] == s0[k];
    Frames.Drop(slots, allocator, f);
    DropStep(s0, lo, k);
  }

  /** `end` rounded up to a page boundary. */
  function PageCeil(end: nat): (r: nat)
    ensures r % PAGE_SIZE == 0 && end <= r < end + PAGE_SIZE
  {
    if end % PAGE_SIZE == 0 then end
    else
      MultipleMod(end / PAGE_SIZE + 1, PAGE_SIZE);
      (end / PAGE_SIZE + 1) * PAGE_SIZE
  }

  /** No page boundary lies between `end` and its rounding up. */
  lemma PageCeilLeast(p: nat, end: nat)
    requires p % PAGE_SIZE == 0 && end <= p <= PageCeil(end)
    ensures p == PageCeil(end)
  {
    if p < PageCeil(end) {
      AlignedGap(p, PageCeil(end));
    }
  }

  /** `Segment::from_unused`: take each unused page from `start` on, one
      page at a time while the page starts below `end`, so that an
      unaligned `end` takes the page it falls in; the segment keeps the
      range as given.  The first page panics when the start is not page
      aligned; a page at or past `MAX_PADDR` or in use panics too.  An
      empty or reversed range takes nothing.  Without a panic every page taken had
      been unused and now has one reference, the segment's. */
  method FromUnused(slots: MetaSlots, start: nat, end: nat) returns (r: Result<Segment, FramePanic>)
    requires slots.Valid()
    modifies slots.refCounts
    ensures r.Ok? <==> (
      || start >= end
      || (&& start % PAGE_SIZE == 0 && PageCeil(end) <= slots.maxPaddr
          && forall k :: start / PAGE_SIZE <= k < PageCeil(end) / PAGE_SIZE ==> old(slots.refCounts[k]) == REF_COUNT_UNUSED))
    ensures r.Ok? ==>
      && fresh(r.value) && r.value.start == start && r.value.end == end
      && slots.refCounts[..] == (if start >= end then old(slots.refCounts[..])
                                 else SetRange(old(slots.refCounts[..]), start / PAGE_SIZE, PageCeil(end) / PAGE_SIZE, 1))
    ensures r.Ok? && start < end && end % PAGE_SIZE == 0 ==> r.value.Holds(slots)
  {
    if start >= end {
      var seg := new Segment.Make(start, end);
      return Ok(seg);
    }
    if start % PAGE_SIZE != 0 {
      return Err(Misaligned);
    }
    ghost var top := PageCeil(end);
    PageDivMono(start, top);
    var paddr := start;
    ghost var s0 := slots.refCounts[..];
    ghost var lo := start / PAGE_SIZE;
    while paddr < end
      invariant start <= paddr <= top && paddr % PAGE_SIZE == 0 && lo <= paddr / PAGE_SIZE
      invariant paddr > start ==> paddr <= slots.maxPaddr
      invariant |s0| == slots.refCounts.Length
      invariant slots.refCounts[..] == SetRange(s0, lo, paddr / PAGE_SIZE, 1)
      invariant forall k :: lo <= k < paddr / PAGE_SIZE ==> s0[k] == REF_COUNT_UNUSED
      decreases end - paddr
    {
      var k := paddr / PAGE_SIZE;
      AlignedGap(paddr, top);
      PageDivMono(paddr, top);
      var f := Frames.FromUnused(slots, paddr);
      if f.Err? {
        assert paddr >= slots.maxPaddr || s0[k] != REF_COUNT_UNUSED;
        return Err(f.error);
      }
      SetStep(s0, lo, k, 1);
      AlignedGap(paddr, slots.maxPaddr);
      AddMultiples(paddr, PAGE_SIZE, PAGE_SIZE);
      NextPage(paddr);
      paddr := paddr + PAGE_SIZE;
    }
    PageCeilLeast(paddr, end);
    PageDivMono(top, slots.refCounts.Length * PAGE_SIZE);
    MultipleMod(slots.refCounts.Length, PAGE_SIZE);
    var seg := new Segment.Make(start, end);
    r := Ok(seg);
  }

  /** One more reference to each page of `[start, end)`, one page after
      another; it stops with a panic at the first count that overflows. */
  method IncPages(slots: MetaSlots, start: nat, end: nat) returns (r: Result<(), FramePanic>)
    requires slots.Valid() && start % PAGE_SIZE == 0 && end % PAGE_SIZE == 0
    requires start <= end <= slots.maxPaddr && end / PAGE_SIZE <= slots.refCounts.Length
    requires forall k :: start / PAGE_SIZE <= k < end / PAGE_SIZE ==> Held(slots.refCounts[k])
    modifies slots.refCounts
    ensures r.Ok? <==> forall k :: start / PAGE_SIZE <= k < end / PAGE_SIZE ==> old(slots.refCounts[k]) < REF_COUNT_MAX
    ensures r.Err? ==> r.error == RefCountOverflow
    ensures r.Ok? ==> slots.refCounts[..] == IncRange(old(slots.refCounts[..]), start / PAGE_SIZE, end / PAGE_SIZE)
  {
    PageDivMono(start, end);
    var paddr := start;
    ghost var s0 := slots.refCounts[..];
    ghost var lo := start / PAGE_SIZE;
    while paddr < end
      invariant start <= paddr <= end && paddr % PAGE_SIZE == 0 && lo <= paddr / PAGE_SIZE
      invariant slots.refCounts[..] == IncRange(s0, lo, paddr / PAGE_SIZE)
      invariant forall k :: lo <= k < paddr / PAGE_SIZE ==> s0[k] < REF_COUNT_MAX
      decreases end - paddr
    {
      var k := paddr / PAGE_SIZE;
      AlignedGap(paddr, end);
      PageDivMono(paddr, end);
      assert slots.refCounts[k] == s0[k];
      var overflow := IncFrameRefCount(slots, paddr);
      if overflow {
        return Err(RefCountOverflow);
      }
      IncStep(s0, lo, k);
      AddMultiples(paddr, PAGE_SIZE, PAGE_SIZE);
      NextPage(paddr);
      paddr := paddr + PAGE_SIZE;
    }
    r := Ok(());
  }

  lemma PageDivMono(a: nat, b: nat)
    requires a <= b
    ensures a / PAGE_SIZE <= b / PAGE_SIZE
  {
  }

  /** The next page boundary after an aligned `p` below an aligned `e` is
      at most `e`. */
  lemma AlignedGap(p: nat, e: nat)
    requires p % PAGE_SIZE == 0 && e % PAGE_SIZE == 0 && p < e
    ensures p + PAGE_SIZE <= e && p / PAGE_SIZE < e / PAGE_SIZE
  {
    DivModUnique(p, PAGE_SIZE, p / PAGE_SIZE, 0);
    DivModUnique(e, PAGE_SIZE, e / PAGE_SIZE, 0);
  }

  lemma NextPage(p: nat)
    requires p % PAGE_SIZE == 0
    ensures (p + PAGE_SIZE) / PAGE_SIZE == p / PAGE_SIZE + 1
  {
    DivModUnique(p + PAGE_SIZE, PAGE_SIZE, p / PAGE_SIZE + 1, 0);
  }

  lemma IncStep(s: seq<int>, lo: nat, k: nat)
    requires lo <= k < |s|
    ensures IncRange(s, lo, k)[k := s[k] + 1] == IncRange(s, lo, k + 1)
  {
  }

  lemma SetStep(s: seq<int>, lo: nat, k: nat, v: int)
    requires lo <= k < |s|
    ensures SetRange(s, lo, k, v)[k := v] == SetRange(s, lo, k + 1, v)
  {
  }

  lemma DropStep(s: seq<int>, lo: nat, k: nat)
    requires lo <= k < |s|
    ensures DropRange(s, lo, k)[k := if s[k] == 1 then REF_COUNT_UNUSED as int else s[k] - 1] == DropRange(s, lo, k + 1)
  {
  }

  /** The pages `Drop` hands back stay within the allocated bytes: while
      dropping page `k`, the bytes left cover it when it is a last reference,
      and the count moves on by exactly what was handed back. */
  lemma LastRefsBudget(s: seq<int>, lo: nat, k: nat, hi: nat, a0: nat, a: int)
    requires lo <= k < hi <= |s|
    requires PAGE_SIZE * LastRefs(s, lo, hi) <= a0 && a == a0 - PAGE_SIZE * LastRefs(s, lo, k)
    ensures s[k] == 1 ==> PAGE_SIZE <= a && a - PAGE_SIZE == a0 - PAGE_SIZE * LastRefs(s, lo, k + 1)
    ensures s[k] != 1 ==> a == a0 - PAGE_SIZE * LastRefs(s, lo, k + 1)
  {
    LastRefsMono(s, lo, k + 1, hi);
  }

  /** Counting over a longer range counts at least as many. */
  lemma {:induction false} LastRefsMono(s: seq<int>, lo: nat, m: nat, hi: nat)
    requires lo <= m <= hi <= |s|
    ensures LastRefs(s, lo, m) <= LastRefs(s, lo, hi)
    decreases hi - m
  {
    if m < hi {
      LastRefsMono(s, lo, m, hi - 1);
    }
  }
}
