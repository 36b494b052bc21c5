/** The counting frame allocator (ostd/src/mm/frame/allocator.rs): a
    buddy allocator of frame numbers wrapped with a count of the bytes it
    has handed out, and the setup that gives it the whole pages of every
    usable memory region.  The buddy allocator itself is not part of this
    model: the answer it gives to a request is a parameter of `Alloc`. */
module FrameAllocator {

  import opened Common
  import opened Mm

  /** `CountingFrameAllocator`: the total bytes of memory it manages and
      the bytes allocated so far. */
  class CountingFrameAllocator {
    const total: nat
    var allocatedBytes: nat

    /** `new`: nothing allocated yet. */
    constructor New(total: nat)
      ensures this.total == total && allocatedBytes == 0
    {
      this.total := total;
      allocatedBytes := 0;
    }

    /** `alloc`: the buddy allocator's answer `inner` (the first frame
        number of `count` frames, or a refusal) is passed on; a success
        counts `count` pages more as allocated, a refusal changes
        nothing. */
    method Alloc(count: nat, inner: Option<nat>) returns (r: Option<nat>)
      modifies this
      ensures r == inner
      ensures inner.Some? ==> allocatedBytes == old(allocatedBytes) + count * PAGE_SIZE
      ensures inner.None? ==> allocatedBytes == old(allocatedBytes)
    {
      match inner
      case Some(value) =>
        allocatedBytes := allocatedBytes + count * PAGE_SIZE;
        r := Some(value);
      case None =>
        r := None;
    }

    /** `dealloc`: `count` pages fewer are allocated.  More than were
        allocated would underflow the counter. */
    method Dealloc(startFrame: nat, count: nat)
      requires count * PAGE_SIZE <= allocatedBytes
      modifies this
      ensures allocatedBytes == old(allocatedBytes) - count * PAGE_SIZE
    {
      allocatedBytes := allocatedBytes - count * PAGE_SIZE;
    }

    /** `mem_available`: what is left of the total; more allocated than
        the total would underflow. */
    function MemAvailable(): (r: nat)
      requires allocatedBytes <= total
      reads this
      ensures r + allocatedBytes == total
    {
      total - allocatedBytes
    }
  }

  /** A memory region of the boot information: its base, its length and
      whether its type is `Usable`. */
  datatype MemoryRegion = MemoryRegion(base: nat, len: nat, usable: bool)

  /** A range `[start, end)` of frame numbers. */
  datatype FrameRange = FrameRange(start: nat, end: nat)

  /** The whole pages of a region, as `init` rounds it: from its base
      rounded up to a page to its end rounded down to a page, or nothing
      when no whole page is left. */
  function RegionFrames(r: MemoryRegion): (f: Option<FrameRange>)
  {
    var start := AlignUp(r.base, PAGE_SIZE) / PAGE_SIZE;
    var end := AlignDown(r.base + r.len, PAGE_SIZE) / PAGE_SIZE;
    if end <= start then None else Some(FrameRange(start, end))
  }

  /** A page lies wholly inside the region exactly when its frame number
      is in the range `init` takes: the rounding keeps every whole page
      and no partial one. */
  lemma RegionFramesExact(r: MemoryRegion, k: nat)
    ensures (r.base <= k * PAGE_SIZE && (k + 1) * PAGE_SIZE <= r.base + r.len)
        <==> (RegionFrames(r).Some? && RegionFrames(r).value.start <= k < RegionFrames(r).value.end)
  {
    var up := AlignUp(r.base, PAGE_SIZE);
    var down := AlignDown(r.base + r.len, PAGE_SIZE);
    MultipleMod(up / PAGE_SIZE, PAGE_SIZE);
    MultipleMod(down / PAGE_SIZE, PAGE_SIZE);
    assert up == up / PAGE_SIZE * PAGE_SIZE;
    assert down == down / PAGE_SIZE * PAGE_SIZE;
    if r.base <= k * PAGE_SIZE && (k + 1) * PAGE_SIZE <= r.base + r.len {
      PageAtLeast(k, r.base, up);
      PageAtMost(k + 1, r.base + r.len, down);
    }
    if up / PAGE_SIZE <= k < down / PAGE_SIZE {
      MulMono(up / PAGE_SIZE, k);
      MulMono(k + 1, down / PAGE_SIZE);
    }
  }

  /** A page boundary at or after `x` is at or after `x` rounded up. */
  lemma PageAtLeast(k: nat, x: nat, up: nat)
    requires up == AlignUp(x, PAGE_SIZE) && x <= k * PAGE_SIZE
    ensures up / PAGE_SIZE <= k
  {
    MultipleMod(up / PAGE_SIZE, PAGE_SIZE);
  }

  /** A page boundary at or before `x` is at or before `x` rounded down. */
  lemma PageAtMost(k: nat, x: nat, down: nat)
    requires down == AlignDown(x, PAGE_SIZE) && k * PAGE_SIZE <= x
    ensures k <= down / PAGE_SIZE
  {
    MultipleMod(down / PAGE_SIZE, PAGE_SIZE);
  }

  lemma MulMono(a: nat, b: nat)
    requires a <= b
    ensures a * PAGE_SIZE <= b * PAGE_SIZE
  {
  }

  /** The frame ranges `init` gives the buddy allocator, region by region:
      the whole pages of every usable region that has one. */
  function UsableRanges(regions: seq<MemoryRegion>): (rs: seq<FrameRange>)
    ensures |rs| <= |regions|
  {
    if |regions| == 0 then []
    else
      var last := regions[|regions| - 1];
      var f := RegionFrames(last);
      UsableRanges(regions[..|regions| - 1]) + (if last.usable && f.Some? then [f.value] else [])
  }

  /** The frames in a range; none when it is reversed. */
  function Frames(r: FrameRange): nat
  {
    if r.start <= r.end then r.end - r.start else 0
  }

  /** The bytes in a list of frame ranges. */
  function TotalBytes(rs: seq<FrameRange>): nat
  {
    if |rs| == 0 then 0 else TotalBytes(rs[..|rs| - 1]) + Frames(rs[|rs| - 1]) * PAGE_SIZE
  }

  /** Every range `init` adds holds at least one page, and it comes from
      a usable region. */
  lemma {:induction false} UsableRangesFromUsable(regions: seq<MemoryRegion>)
    ensures forall i :: 0 <= i < |UsableRanges(regions)| ==>
      && UsableRanges(regions)[i].start < UsableRanges(regions)[i].end
      && exists j :: 0 <= j < |regions| && regions[j].usable && RegionFrames(regions[j]) == Some(UsableRanges(regions)[i])
    decreases |regions|
  {
    if |regions| > 0 {
      var n := |regions| - 1;
      var init := regions[..n];
      UsableRangesFromUsable(init);
      var rs := UsableRanges(regions);
      forall i | 0 <= i < |rs|
        ensures rs[i].start < rs[i].end
        ensures exists j :: 0 <= j < |regions| && regions[j].usable && RegionFrames(regions[j]) == Some(rs[i])
      {
        if i < |UsableRanges(init)| {
          assert rs[i] == UsableRanges(init)[i];
          var j :| 0 <= j < |init| && init[j].usable && RegionFrames(init[j]) == Some(rs[i]);
          assert regions[j] == init[j];
        } else {
          assert RegionFrames(regions[n]) == Some(rs[i]);
        }
      }
    }
  }

  lemma UsableRangesStep(regions: seq<MemoryRegion>, i: nat)
    requires i < |regions|
    ensures UsableRanges(regions[..i + 1]) == UsableRanges(regions[..i])
      + (if regions[i].usable && RegionFrames(regions[i]).Some? then [RegionFrames(regions[i]).value] else [])
  {
    assert regions[..i + 1][..i] == regions[..i];
  }

  lemma TotalBytesStep(rs: seq<FrameRange>, r: FrameRange)
    requires r.start <= r.end
    ensures TotalBytes(rs + [r]) == TotalBytes(rs) + (r.end - r.start) * PAGE_SIZE
  {
    assert (rs + [r])[..|rs|] == rs;
  }

  /** A usable region whose end does not fit in a 64-bit address: `init`
      unwraps `checked_add` on it and panics. */
  predicate EndOverflows(r: MemoryRegion)
  {
    r.usable && r.base + r.len >= 0x1_0000_0000_0000_0000
  }

  /** One region of `init`: a usable region adds its whole pages, if it
      has any, to the list and their bytes to the total; a usable region
      whose end overflows stops it. */
  method AddRegion(region: MemoryRegion, added: seq<FrameRange>, total: nat)
    returns (overflow: bool, added': seq<FrameRange>, total': nat)
    requires total == TotalBytes(added)
    ensures overflow <==> EndOverflows(region)
    ensures !overflow ==> added' == added + (if region.usable && RegionFrames(region).Some? then [RegionFrames(region).value] else [])
    ensures !overflow ==> total' == TotalBytes(added')
  {
    overflow, added', total' := false, added, total;
    if region.usable {
      if region.base + region.len >= 0x1_0000_0000_0000_0000 {
        return true, added, total;
      }
      var start := AlignUp(region.base, PAGE_SIZE) / PAGE_SIZE;
      var end := AlignDown(region.base + region.len, PAGE_SIZE) / PAGE_SIZE;
      if end > start {
        TotalBytesStep(added, FrameRange(start, end));
        added' := added + [FrameRange(start, end)];
        total' := total + (end - start) * PAGE_SIZE;
      }
    }
  }

  /** `init`: the whole pages of every usable region go to the buddy
      allocator, and the total is the bytes in them.  A usable region
      whose end passes 2^64 panics (`None`), wherever it is in the
      list. */
  method Init(regions: seq<MemoryRegion>) returns (allocator: Option<CountingFrameAllocator>, added: seq<FrameRange>)
    ensures allocator.None? <==> exists i :: 0 <= i < |regions| && EndOverflows(regions[i])
    ensures allocator.Some? ==>
      && fresh(allocator.value) && allocator.value.allocatedBytes == 0
      && added == UsableRanges(regions)
      && allocator.value.total == TotalBytes(added)
  {
    var total := 0;
    added := [];
    for i := 0 to |regions|
      invariant added == UsableRanges(regions[..i])
      invariant total == TotalBytes(added)
      invariant forall j :: 0 <= j < i ==> !EndOverflows(regions[j])
    {
      UsableRangesStep(regions, i);
      var overflow;
      overflow, added, total := AddRegion(regions[i], added, total);
      if overflow {
        return None, added;
      }
    }
    assert regions[..|regions|] == regions;
    var a := new CountingFrameAllocator.New(total);
    allocator := Some(a);
  }
}
