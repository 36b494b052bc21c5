/** Streaming DMA mappings (ostd/src/mm/dma/dma_stream.rs): a segment of
    pages mapped for a device in one direction, the checks on every access
    and every cache sync, and slices of a mapping.

    The set of physical pages that belong to some DMA mapping is kept by
    ostd/src/mm/dma/mod.rs, which is not part of this model; here it is the
    object `DmaMappings`, whose two operations do what the stream needs of
    them.  The cache sync follows the RISC-V branch of the source: one
    flush per 64-byte line of the range. */
module DmaStreams {

  import opened Common
  import opened Mm
  import opened Errors
  import opened VmIoModel

  /** `DmaDirection`: which way the data may flow. */
  datatype DmaDirection = ToDevice | FromDevice | Bidirectional

  /** `DmaError`. */
  datatype DmaError = AlreadyMapped

  /** `dma_type()`: addresses as they are, or through the IOMMU. */
  datatype DmaType = Direct | Iommu

  /** The cache line the sync loop steps by. */
  const CACHE_LINE_SIZE: nat := 64

  /** The physical pages of the `count` frames from `start`. */
  function PagesOf(start: nat, count: nat): set<nat>
  {
    set i | 0 <= i < count :: start + i * PAGE_SIZE
  }

  /** The pages that belong to some DMA mapping. */
  class DmaMappings {
    var mapped: set<nat>

    constructor ()
      ensures mapped == {}
    {
      mapped := {};
    }

    /** `check_and_insert_dma_mapping`: the pages are taken when none of
        them is mapped yet; otherwise nothing changes. */
    method CheckAndInsert(start: nat, count: nat) returns (ok: bool)
      modifies this
      ensures ok <==> PagesOf(start, count) !! old(mapped)
      ensures mapped == if ok then old(mapped) + PagesOf(start, count) else old(mapped)
    {
      if PagesOf(start, count) !! mapped {
        mapped := mapped + PagesOf(start, count);
        ok := true;
      } else {
        ok := false;
      }
    }

    /** `remove_dma_mapping`: the pages are no longer mapped. */
    method Remove(start: nat, count: nat)
      modifies this
      ensures mapped == old(mapped) - PagesOf(start, count)
    {
      mapped := mapped - PagesOf(start, count);
    }
  }

  /** A `DmaStream`: the segment `[segStart, segEnd)` whose bytes are
      `mem`, the device address of its start, whether the platform keeps
      caches coherent, and the direction. */
  datatype DmaStream = DmaStream(
    segStart: nat, segEnd: nat, mem: Memory, startDaddr: nat, coherent: bool, direction: DmaDirection)
  {
    /** The segment is a page-aligned range and `mem` holds its bytes. */
    ghost predicate Valid()
      reads mem
    {
      segStart % PAGE_SIZE == 0 && segEnd % PAGE_SIZE == 0 && segStart <= segEnd
      && |mem.bytes| == segEnd - segStart
    }

    /** `nbytes`: the bytes of the segment. */
    function Nbytes(): nat
    {
      if segStart <= segEnd then segEnd - segStart else 0
    }

    /** `nframes`: the pages of the segment, which span exactly its bytes. */
    function Nframes(): (n: nat)
      requires segStart % PAGE_SIZE == 0 && segEnd % PAGE_SIZE == 0 && segStart <= segEnd
      ensures n * PAGE_SIZE == Nbytes()
    {
      AlignedDiff(segStart, segEnd);
      Nbytes() / PAGE_SIZE
    }
  }

  /** The difference of two page boundaries is a whole number of pages. */
  lemma AlignedDiff(a: nat, b: nat)
    requires a % PAGE_SIZE == 0 && b % PAGE_SIZE == 0 && a <= b
    ensures (b - a) % PAGE_SIZE == 0 && (b - a) / PAGE_SIZE * PAGE_SIZE == b - a
  {
    DivModUnique(b - a, PAGE_SIZE, b / PAGE_SIZE - a / PAGE_SIZE, 0);
  }

  /** `DmaStream::map`: the segment's pages are claimed for DMA, which
      fails with `AlreadyMapped` when any of them is already claimed.  Both
      kinds of DMA address the segment at its physical address (the IOMMU
      is given the identity mapping of each page). */
  method Map(mappings: DmaMappings, segStart: nat, segEnd: nat, mem: Memory,
             direction: DmaDirection, coherent: bool, dmaType: DmaType)
    returns (r: Result<DmaStream, DmaError>)
    requires segStart % PAGE_SIZE == 0 && segEnd % PAGE_SIZE == 0 && segStart <= segEnd < USIZE_LIMIT
    modifies mappings
    ensures var pages := PagesOf(segStart, (segEnd - segStart) / PAGE_SIZE);
      && (r.Err? <==> !(pages !! old(mappings.mapped)))
      && (r.Err? ==> r.error == AlreadyMapped && mappings.mapped == old(mappings.mapped))
      && (r.Ok? ==>
            && r.value == DmaStream(segStart, segEnd, mem, segStart, coherent, direction)
            && mappings.mapped == old(mappings.mapped) + pages)
  {
    var frameCount := (segEnd - segStart) / PAGE_SIZE;
    var ok := mappings.CheckAndInsert(segStart, frameCount);
    if !ok {
      return Err(AlreadyMapped);
    }
    AlignedDiff(segStart, segEnd);
    var startDaddr := segStart;
    r := Ok(DmaStream(segStart, segEnd, mem, startDaddr, coherent, direction));
  }

  /** A segment with at least one page cannot be mapped twice: its first
      page is already claimed by the first mapping. */
  lemma MapTwiceFails(mapped: set<nat>, start: nat, count: nat)
    requires count > 0
    ensures !(PagesOf(start, count) !! (mapped + PagesOf(start, count)))
  {
    assert start + 0 * PAGE_SIZE in PagesOf(start, count);
  }

  /** `Drop for DmaStreamInner`: the segment's pages are no longer
      claimed. */
  method Unmap(mappings: DmaMappings, s: DmaStream)
    requires s.segStart % PAGE_SIZE == 0 && s.segEnd % PAGE_SIZE == 0 && s.segStart <= s.segEnd
    modifies mappings
    ensures mappings.mapped == old(mappings.mapped) - PagesOf(s.segStart, s.Nframes())
  {
    var frameCount := s.Nframes();
    mappings.Remove(s.segStart, frameCount);
  }

  /** Mapping a segment whose pages were free and dropping the mapping
      leaves the claimed pages as they were. */
  lemma MapUnmapRestores(mapped: set<nat>, pages: set<nat>)
    requires pages !! mapped
    ensures (mapped + pages) - pages == mapped
  {
    forall p | p in mapped
      ensures p in (mapped + pages) - pages
    {
      assert p !in pages;
    }
  }

  /** The offsets of the cache lines the sync loop flushes: `start`, then
      every 64 bytes below `end`. */
  function LineStarts(start: nat, end: nat): (r: seq<nat>)
    decreases end - start
  {
    if start >= end then [] else [start] + LineStarts(start + CACHE_LINE_SIZE, end)
  }

  /** The byte at offset `b` lies in one of the lines. */
  predicate Covered(lines: seq<nat>, b: nat)
  {
    exists o :: o in lines && o <= b < o + CACHE_LINE_SIZE
  }

  /** Every line flushed starts inside the range, and every byte of the
      range lies in a flushed line. */
  lemma {:induction false} LineStartsCover(start: nat, end: nat)
    ensures forall o :: o in LineStarts(start, end) ==> start <= o < end
    ensures forall b :: start <= b < end ==> Covered(LineStarts(start, end), b)
    decreases end - start
  {
    if start < end {
      LineStartsCover(start + CACHE_LINE_SIZE, end);
      var rest := LineStarts(start + CACHE_LINE_SIZE, end);
      assert LineStarts(start, end) == [start] + rest;
      forall b | start <= b < end
        ensures Covered(LineStarts(start, end), b)
      {
        if b < start + CACHE_LINE_SIZE {
          assert start in LineStarts(start, end);
        } else {
          assert Covered(rest, b);
          var o :| o in rest && o <= b < o + CACHE_LINE_SIZE;
          assert o in LineStarts(start, end);
        }
      }
    }
  }

  /** `DmaStream::sync`: a range that ends past the stream is `InvalidArgs`;
      on a coherent platform nothing needs doing; otherwise each cache line
      of the range is flushed, in order (`flushed`), then a fence. */
  method Sync(s: DmaStream, rangeStart: nat, rangeEnd: nat) returns (r: Result<(), OstdError>, flushed: seq<nat>)
    ensures rangeEnd > s.Nbytes() ==> r == Err(InvalidArgs) && flushed == []
    ensures rangeEnd <= s.Nbytes() ==> r == Ok(())
    ensures rangeEnd <= s.Nbytes() && s.coherent ==> flushed == []
    ensures rangeEnd <= s.Nbytes() && !s.coherent ==> flushed == LineStarts(rangeStart, rangeEnd)
  {
    flushed := [];
    if rangeEnd > s.Nbytes() {
      return Err(InvalidArgs), [];
    }
    if s.coherent {
      return Ok(()), [];
    }
    var offset := rangeStart;
    while offset < rangeEnd
      invariant flushed + LineStarts(offset, rangeEnd) == LineStarts(rangeStart, rangeEnd)
      decreases rangeEnd - offset
    {
      assert LineStarts(offset, rangeEnd) == [offset] + LineStarts(offset + CACHE_LINE_SIZE, rangeEnd);
      flushed := flushed + [offset];
      offset := offset + CACHE_LINE_SIZE;
    }
    r := Ok(());
  }

  /** `VmIo::read` on a stream: denied on a stream to the device; otherwise
      the segment's own read, whose outcome `segmentRead` is. */
  function Read(s: DmaStream, offset: nat, segmentRead: Result<(), OstdError>): (r: Result<(), OstdError>)
  {
    if s.direction == ToDevice then Err(AccessDenied) else segmentRead
  }

  /** `VmIo::write` on a stream: denied on a stream from the device;
      otherwise the segment's own write, whose outcome `segmentWrite` is. */
  function Write(s: DmaStream, offset: nat, segmentWrite: Result<(), OstdError>): (r: Result<(), OstdError>)
  {
    if s.direction == FromDevice then Err(AccessDenied) else segmentWrite
  }

  /** The direction decides access: a stream to the device cannot be read
      and one from the device cannot be written, whatever the segment
      would do; a bidirectional stream denies neither, and no stream
      denies both. */
  lemma DirectionAccess(s: DmaStream, offset: nat, inner: Result<(), OstdError>)
    requires inner.Ok?
    ensures Read(s, offset, inner).Err? <==> s.direction == ToDevice
    ensures Write(s, offset, inner).Err? <==> s.direction == FromDevice
    ensures Read(s, offset, inner).Err? ==> Read(s, offset, inner).error == AccessDenied
    ensures Write(s, offset, inner).Err? ==> Write(s, offset, inner).error == AccessDenied
    ensures Read(s, offset, inner).Ok? || Write(s, offset, inner).Ok?
  {
    match s.direction
    case ToDevice =>
      assert Write(s, offset, inner) == inner;
    case FromDevice =>
      assert Read(s, offset, inner) == inner;
    case Bidirectional =>
      assert Read(s, offset, inner) == inner && Write(s, offset, inner) == inner;
  }

  /** `DmaStream::reader`: denied on a stream to the device; otherwise a
      reader over the whole segment. */
  method Reader(s: DmaStream) returns (r: Result<VmReader, OstdError>)
    requires s.Valid()
    ensures s.direction == ToDevice <==> r.Err?
    ensures r.Err? ==> r.error == AccessDenied
    ensures r.Ok? ==> (
      && fresh(r.value) && r.value.Valid() && r.value.mem == s.mem
      && r.value.cursor == 0 && r.value.Remain() == s.Nbytes())
  {
    if s.direction == ToDevice {
      return Err(AccessDenied);
    }
    var reader := new VmReader(s.mem, 0, |s.mem.bytes|);
    r := Ok(reader);
  }

  /** `DmaStream::writer`: denied on a stream from the device; otherwise a
      writer over the whole segment. */
  method Writer(s: DmaStream) returns (r: Result<VmWriter, OstdError>)
    requires s.Valid()
    ensures s.direction == FromDevice <==> r.Err?
    ensures r.Err? ==> r.error == AccessDenied
    ensures r.Ok? ==> (
      && fresh(r.value) && r.value.Valid() && r.value.mem == s.mem
      && r.value.cursor == 0 && r.value.Avail() == s.Nbytes())
  {
    if s.direction == FromDevice {
      return Err(AccessDenied);
    }
    var writer := new VmWriter(s.mem, 0, |s.mem.bytes|);
    r := Ok(writer);
  }

  /** `DmaStreamSlice`: the bytes `[offset, offset + len)` of a stream. */
  datatype DmaStreamSlice = DmaStreamSlice(stream: DmaStream, offset: nat, len: nat)
  {
    /** What `new` checks: the slice starts inside the stream and ends
        within it. */
    predicate Inside()
    {
      offset < stream.Nbytes() && offset + len <= stream.Nbytes()
    }
  }

  /** Why `DmaStreamSlice::new` panics. */
  datatype SlicePanic = OffsetOutOfRange | EndOutOfRange

  /** `DmaStreamSlice::new`: the offset must lie inside the stream, then
      the end must not pass it. */
  function NewSlice(stream: DmaStream, offset: nat, len: nat): (r: Result<DmaStreamSlice, SlicePanic>)
    ensures r.Ok? <==> DmaStreamSlice(stream, offset, len).Inside()
    ensures r.Ok? ==> r.value == DmaStreamSlice(stream, offset, len)
    ensures offset >= stream.Nbytes() ==> r == Err(OffsetOutOfRange)
  {
    if offset >= stream.Nbytes() then Err(OffsetOutOfRange)
    else if offset + len > stream.Nbytes() then Err(EndOutOfRange)
    else Ok(DmaStreamSlice(stream, offset, len))
  }

  /** `DmaStreamSlice::sync`: the stream's sync of the slice's bytes; it
      never fails, and flushes exactly the lines of the slice. */
  method SliceSync(sl: DmaStreamSlice) returns (r: Result<(), OstdError>, flushed: seq<nat>)
    requires sl.Inside()
    ensures r == Ok(())
    ensures flushed == if sl.stream.coherent then [] else LineStarts(sl.offset, sl.offset + sl.len)
  {
    r, flushed := Sync(sl.stream, sl.offset, sl.offset + sl.len);
  }

  /** `DmaStreamSlice::reader`: the stream's reader, skipped to the slice
      and limited to it, so it reads exactly the slice's bytes. */
  method SliceReader(sl: DmaStreamSlice) returns (r: Result<VmReader, OstdError>)
    requires sl.stream.Valid() && sl.Inside()
    ensures sl.stream.direction == ToDevice <==> r.Err?
    ensures r.Err? ==> r.error == AccessDenied
    ensures r.Ok? ==> (
      && fresh(r.value) && r.value.Valid() && r.value.mem == sl.stream.mem
      && r.value.cursor == sl.offset && r.value.end == sl.offset + sl.len)
  {
    var sr := Reader(sl.stream);
    if sr.Err? {
      return Err(sr.error);
    }
    var reader := sr.value;
    reader.Skip(sl.offset);
    reader.Limit(sl.len);
    r := Ok(reader);
  }

  /** `DmaStreamSlice::writer`: the stream's writer, skipped to the slice
      and limited to it, so it writes exactly the slice's bytes. */
  method SliceWriter(sl: DmaStreamSlice) returns (r: Result<VmWriter, OstdError>)
    requires sl.stream.Valid() && sl.Inside()
    ensures sl.stream.direction == FromDevice <==> r.Err?
    ensures r.Err? ==> r.error == AccessDenied
    ensures r.Ok? ==> (
      && fresh(r.value) && r.value.Valid() && r.value.mem == sl.stream.mem
      && r.value.cursor == sl.offset && r.value.end == sl.offset + sl.len)
  {
    var sw := Writer(sl.stream);
    if sw.Err? {
      return Err(sw.error);
    }
    var writer := sw.value;
    writer.Skip(sl.offset);
    writer.Limit(sl.len);
    r := Ok(writer);
  }

  /** `VmIo::read` on a slice: `InvalidArgs` when the writer's room plus
      the offset passes the slice; otherwise the stream's read at the same
      place in the stream, which then lies wholly inside the stream. */
  function SliceRead(sl: DmaStreamSlice, offset: nat, avail: nat, segmentRead: Result<(), OstdError>)
    : (r: Result<(), OstdError>)
    requires sl.Inside()
    ensures avail + offset > sl.len ==> r == Err(InvalidArgs)
    ensures avail + offset <= sl.len ==>
      && r == Read(sl.stream, sl.offset + offset, segmentRead)
      && sl.offset + offset + avail <= sl.stream.Nbytes()
  {
    if avail + offset > sl.len then Err(InvalidArgs)
    else Read(sl.stream, sl.offset + offset, segmentRead)
  }

  /** `VmIo::write` on a slice: `InvalidArgs` when the reader's bytes plus
      the offset pass the slice; otherwise the stream's write at the same
      place in the stream, which then lies wholly inside the stream. */
  function SliceWrite(sl: DmaStreamSlice, offset: nat, remain: nat, segmentWrite: Result<(), OstdError>)
    : (r: Result<(), OstdError>)
    requires sl.Inside()
    ensures remain + offset > sl.len ==> r == Err(InvalidArgs)
    ensures remain + offset <= sl.len ==>
      && r == Write(sl.stream, sl.offset + offset, segmentWrite)
      && sl.offset + offset + remain <= sl.stream.Nbytes()
  {
    if remain + offset > sl.len then Err(InvalidArgs)
    else Write(sl.stream, sl.offset + offset, segmentWrite)
  }

  /** `HasDaddr::daddr` of a slice: inside the stream's device range. */
  function SliceDaddr(sl: DmaStreamSlice): (d: nat)
    requires sl.Inside()
    ensures sl.stream.startDaddr <= d < sl.stream.startDaddr + sl.stream.Nbytes()
    ensures d + sl.len <= sl.stream.startDaddr + sl.stream.Nbytes()
  {
    sl.stream.startDaddr + sl.offset
  }

  /** `HasPaddr::paddr` of a slice: inside the stream's segment. */
  function SlicePaddr(sl: DmaStreamSlice): (p: nat)
    requires sl.Inside()
    ensures sl.stream.segStart <= p < sl.stream.segEnd
    ensures p + sl.len <= sl.stream.segEnd
  {
    sl.stream.segStart + sl.offset
  }
}
