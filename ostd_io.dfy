/** Readers and writers over a range of memory (ostd/src/mm/io.rs).

    A `VmReader` or `VmWriter` is a cursor and an end inside some memory;
    the memory is a `Memory` object holding its bytes, so that a reader and
    a writer over different memory can copy between them.  Kernel memory is
    infallible; user memory can fault part-way through a copy, and how many
    bytes the hardware copy gets through before a fault is the parameter
    `reachable` (the `memcpy_fallible`/`memset_fallible` result).

    The source's `limit` and `skip` take the reader by value and return
    it; here they update it in place. */
module VmIoModel {

  import opened Common
  import opened Errors

  class Memory {
    var bytes: seq<u8>

    constructor (bytes: seq<u8>)
      ensures this.bytes == bytes
    {
      this.bytes := bytes;
    }
  }

  /** The outcome of a fallible copy: the bytes copied, or the error and
      the bytes copied before it. */
  type CopyResult = Result<nat, (OstdError, nat)>

  class VmReader {
    var cursor: nat
    var end: nat
    const mem: Memory

    ghost predicate Valid()
      reads this, mem
    {
      cursor <= end <= |mem.bytes|
    }

    /** `from_kernel_space`/`from_user_space`: `len` bytes from `start`. */
    constructor (mem: Memory, start: nat, len: nat)
      requires start + len <= |mem.bytes|
      ensures this.mem == mem && cursor == start && end == start + len
      ensures Valid()
    {
      this.mem := mem;
      cursor := start;
      end := start + len;
    }

    /** `remain`: the bytes left to read. */
    function Remain(): nat
      reads this
      requires cursor <= end
    {
      end - cursor
    }

    /** `limit`: the end is pulled in so that at most `maxRemain` bytes
        remain; it never grows. */
    method Limit(maxRemain: nat)
      requires Valid()
      modifies this
      ensures Valid() && cursor == old(cursor) && end <= old(end)
      ensures Remain() == Min(old(Remain()), maxRemain)
    {
      if maxRemain < Remain() {
        end := cursor + maxRemain;
      }
    }

    /** `skip`: `nbytes` bytes are passed over; skipping more than remain
        panics. */
    method Skip(nbytes: nat)
      requires Valid() && nbytes <= Remain()
      modifies this
      ensures Valid() && cursor == old(cursor) + nbytes && end == old(end)
      ensures Remain() == old(Remain()) - nbytes
    {
      cursor := cursor + nbytes;
    }

    /** Infallible `read`: as many bytes as both sides allow are copied into
        the writer's memory at its cursor, and both cursors advance by that
        many. */
    method Read(w: VmWriter) returns (n: nat)
      requires Valid() && w.Valid() && w.mem != mem
      modifies this, w, w.mem
      ensures n == Min(old(Remain()), old(w.Avail()))
      ensures cursor == old(cursor) + n && end == old(end)
      ensures w.cursor == old(w.cursor) + n && w.end == old(w.end)
      ensures w.mem.bytes == Overwrite(old(w.mem.bytes), old(w.cursor), mem.bytes[old(cursor)..old(cursor) + n])
      ensures Valid() && w.Valid()
    {
      n := Min(Remain(), w.Avail());
      if n == 0 {
        return 0;
      }
      w.mem.bytes := Overwrite(w.mem.bytes, w.cursor, mem.bytes[cursor..cursor + n]);
      cursor := cursor + n;
      w.cursor := w.cursor + n;
    }

    /** `read_fallible`: like `read`, but the copy stops after `reachable`
        bytes if that is fewer, and then reports a page fault with the
        bytes copied. */
    method ReadFallible(w: VmWriter, reachable: nat) returns (r: CopyResult)
      requires Valid() && w.Valid() && w.mem != mem
      modifies this, w, w.mem
      ensures var want := Min(old(Remain()), old(w.Avail()));
        var n := if want == 0 then 0 else Min(reachable, want);
        && cursor == old(cursor) + n && end == old(end)
        && w.cursor == old(w.cursor) + n && w.end == old(w.end)
        && w.mem.bytes == Overwrite(old(w.mem.bytes), old(w.cursor), mem.bytes[old(cursor)..old(cursor) + n])
        && (n < want ==> r == Err((PageFault, n)))
        && (n == want ==> r == Ok(n))
      ensures Valid() && w.Valid()
    {
      var want := Min(Remain(), w.Avail());
      if want == 0 {
        assert mem.bytes[cursor..cursor] == [];
        return Ok(0);
      }
      var copied := Min(reachable, want);
      w.mem.bytes := Overwrite(w.mem.bytes, w.cursor, mem.bytes[cursor..cursor + copied]);
      cursor := cursor + copied;
      w.cursor := w.cursor + copied;
      if copied < want {
        return Err((PageFault, copied));
      }
      return Ok(copied);
    }

    /** Infallible `read_val`: InvalidArgs when fewer than `size` bytes
        remain; otherwise the next `size` bytes, read through a writer over
        a fresh value. */
    method ReadVal(size: nat) returns (r: Result<seq<u8>, OstdError>)
      requires Valid()
      modifies this
      ensures Valid() && end == old(end)
      ensures old(Remain()) < size ==> r == Err(InvalidArgs) && cursor == old(cursor)
      ensures old(Remain()) >= size ==>
        r == Ok(mem.bytes[old(cursor)..old(cursor) + size]) && cursor == old(cursor) + size
    {
      if Remain() < size {
        return Err(InvalidArgs);
      }
      var val := new Memory(seq(size, _ => 0));
      var w := new VmWriter(val, 0, size);
      var n := Read(w);
      assert val.bytes == mem.bytes[old(cursor)..old(cursor) + size];
      return Ok(val.bytes);
    }

    /** Fallible `read_val`: InvalidArgs when fewer than `size` bytes
        remain; a fault part-way returns its error with the cursor moved
        back to where it was. */
    method ReadValFallible(size: nat, reachable: nat) returns (r: Result<seq<u8>, OstdError>)
      requires Valid()
      modifies this
      ensures Valid() && end == old(end)
      ensures old(Remain()) < size ==> r == Err(InvalidArgs)
      ensures r.Err? ==> cursor == old(cursor)
      ensures old(Remain()) >= size && size > 0 && reachable < size ==> r == Err(PageFault)
      ensures old(Remain()) >= size && (size == 0 || reachable >= size) ==> r.Ok?
      ensures r.Ok? ==> r == Ok(mem.bytes[old(cursor)..old(cursor) + size]) && cursor == old(cursor) + size
    {
      if Remain() < size {
        return Err(InvalidArgs);
      }
      ghost var from := cursor;
      var val := new Memory(seq(size, _ => 0));
      var w := new VmWriter(val, 0, size);
      var c := ReadFallible(w, reachable);
      if c.Err? {
        cursor := cursor - c.error.1;
        return Err(c.error.0);
      }
      OverwriteWhole(seq(size, _ => 0), mem.bytes[from..from + size]);
      return Ok(val.bytes);
    }

    /** `collect`: every remaining byte, or a fault's error with the cursor
        moved back. */
    method Collect(reachable: nat) returns (r: Result<seq<u8>, OstdError>)
      requires Valid()
      modifies this
      ensures Valid() && end == old(end)
      ensures r.Err? ==> r.error == PageFault && cursor == old(cursor) && reachable < old(Remain())
      ensures r.Ok? ==> r.value == mem.bytes[old(cursor)..old(end)] && cursor == old(end)
      ensures reachable >= old(Remain()) ==> r.Ok?
    {
      var size := Remain();
      var buf := new Memory(seq(size, _ => 0));
      var w := new VmWriter(buf, 0, size);
      var c := ReadFallible(w, reachable);
      if c.Err? {
        cursor := cursor - c.error.1;
        return Err(c.error.0);
      }
      assert buf.bytes == mem.bytes[old(cursor)..old(end)];
      return Ok(buf.bytes);
    }
  }

  class VmWriter {
    var cursor: nat
    var end: nat
    const mem: Memory

    ghost predicate Valid()
      reads this, mem
    {
      cursor <= end <= |mem.bytes|
    }

    /** `from_kernel_space`/`from_user_space`: `len` bytes from `start`. */
    constructor (mem: Memory, start: nat, len: nat)
      requires start + len <= |mem.bytes|
      ensures this.mem == mem && cursor == start && end == start + len
      ensures Valid()
    {
      this.mem := mem;
      cursor := start;
      end := start + len;
    }

    /** `avail`: the bytes left to write. */
    function Avail(): nat
      reads this
      requires cursor <= end
    {
      end - cursor
    }

    /** `limit`: at most `maxAvail` bytes stay available; never more than
        before. */
    method Limit(maxAvail: nat)
      requires Valid()
      modifies this
      ensures Valid() && cursor == old(cursor) && end <= old(end)
      ensures Avail() == Min(old(Avail()), maxAvail)
    {
      if maxAvail < Avail() {
        end := cursor + maxAvail;
      }
    }

    /** `skip`: `nbytes` bytes are passed over; more than available
        panics. */
    method Skip(nbytes: nat)
      requires Valid() && nbytes <= Avail()
      modifies this
      ensures Valid() && cursor == old(cursor) + nbytes && end == old(end)
      ensures Avail() == old(Avail()) - nbytes
    {
      cursor := cursor + nbytes;
    }

    /** Infallible `write_val`: InvalidArgs when the value's bytes do not
        fit; otherwise they are written at the cursor, which passes them. */
    method WriteVal(image: seq<u8>) returns (r: Result<(), OstdError>)
      requires Valid()
      modifies this, mem
      ensures Valid() && end == old(end)
      ensures old(Avail()) < |image| ==> r == Err(InvalidArgs) && cursor == old(cursor) && mem.bytes == old(mem.bytes)
      ensures old(Avail()) >= |image| ==>
        && r == Ok(()) && cursor == old(cursor) + |image|
        && mem.bytes == Overwrite(old(mem.bytes), old(cursor), image)
    {
      if Avail() < |image| {
        return Err(InvalidArgs);
      }
      var src := new Memory(image);
      var reader := new VmReader(src, 0, |image|);
      var n := reader.Read(this);
      assert src.bytes[0..n] == image;
      return Ok(());
    }

    /** Fallible `write_val`: InvalidArgs when the value does not fit; a
        fault part-way returns its error with the cursor moved back. */
    method WriteValFallible(image: seq<u8>, reachable: nat) returns (r: Result<(), OstdError>)
      requires Valid()
      modifies this, mem
      ensures Valid() && end == old(end)
      ensures old(Avail()) < |image| ==> r == Err(InvalidArgs) && mem.bytes == old(mem.bytes)
      ensures r.Err? ==> cursor == old(cursor)
      ensures old(Avail()) >= |image| && reachable < |image| ==> r == Err(PageFault)
      ensures old(Avail()) >= |image| && reachable >= |image| ==> r.Ok?
      ensures r.Ok? ==> cursor == old(cursor) + |image| && mem.bytes == Overwrite(old(mem.bytes), old(cursor), image)
    {
      if Avail() < |image| {
        return Err(InvalidArgs);
      }
      var src := new Memory(image);
      var reader := new VmReader(src, 0, |image|);
      var c := reader.ReadFallible(this, reachable);
      if c.Err? {
        cursor := cursor - c.error.1;
        return Err(c.error.0);
      }
      assert src.bytes[0..|image|] == image;
      return Ok(());
    }

    /** `fill`: the available space, a whole number of values long (else
        a panic), filled with copies of the value; the cursor moves to the
        end and the number of values is returned.  The alignment the
        source asserts on the cursor is not modelled. */
    method Fill(image: seq<u8>) returns (n: nat)
      requires Valid() && |image| > 0 && Avail() % |image| == 0
      modifies this, mem
      ensures n * |image| == old(Avail())
      ensures cursor == end == old(end)
      ensures mem.bytes == old(mem.bytes)[..old(cursor)] + Repeat(image, n) + old(mem.bytes)[old(end)..]
      ensures Valid()
    {
      n := Avail() / |image|;
      ExactQuotient(Avail(), |image|);
      RepeatLength(image, n);
      var start := cursor;
      var pos := cursor;
      ghost var before := mem.bytes;
      for i := 0 to n
        invariant end == old(end) && cursor == start && start + |Repeat(image, n)| == end
        invariant |mem.bytes| == |before|
        invariant pos == start + |Repeat(image, i)| && pos <= end
        invariant mem.bytes == before[..start] + Repeat(image, i) + before[pos..]
      {
        FillStep(before, start, end, image, n, i, pos, mem.bytes);
        mem.bytes := Overwrite(mem.bytes, pos, image);
        pos := pos + |image|;
      }
      cursor := end;
    }

    /** `fill_zeros`: up to `len` bytes (as many as are available) set to
        zero, stopping at a fault after `reachable` bytes. */
    method FillZeros(len: nat, reachable: nat) returns (r: CopyResult)
      requires Valid()
      modifies this, mem
      ensures var want := Min(old(Avail()), len);
        var n := if want == 0 then 0 else Min(reachable, want);
        && cursor == old(cursor) + n && end == old(end)
        && mem.bytes == Overwrite(old(mem.bytes), old(cursor), seq(n, _ => 0))
        && (n < want ==> r == Err((PageFault, n)))
        && (n == want ==> r == Ok(want))
      ensures Valid()
    {
      var want := Min(Avail(), len);
      if want == 0 {
        assert Overwrite(mem.bytes, cursor, seq(0, _ => 0)) == mem.bytes;
        return Ok(0);
      }
      var setLen := Min(reachable, want);
      mem.bytes := Overwrite(mem.bytes, cursor, seq(setLen, _ => 0));
      cursor := cursor + setLen;
      if setLen < want {
        return Err((PageFault, setLen));
      }
      return Ok(want);
    }
  }

  /** `n` copies of `image`, one after the other. */
  function Repeat(image: seq<u8>, n: nat): seq<u8>
  {
    if n == 0 then [] else Repeat(image, n - 1) + image
  }

  lemma {:induction false} RepeatLength(image: seq<u8>, n: nat)
    ensures |Repeat(image, n)| == n * |image|
  {
    if n > 0 {
      RepeatLength(image, n - 1);
    }
  }

  /** Fewer copies are shorter. */
  lemma {:induction false} RepeatGrows(image: seq<u8>, i: nat, n: nat)
    requires i <= n
    ensures |Repeat(image, i)| <= |Repeat(image, n)|
    decreases n - i
  {
    if i < n {
      RepeatGrows(image, i, n - 1);
    }
  }

  /** Writing one more copy after `i` copies gives `i + 1` copies. */
  lemma FillStep(before: seq<u8>, start: nat, end: nat, image: seq<u8>, n: nat, i: nat, pos: nat, cur: seq<u8>)
    requires i < n && start + |Repeat(image, n)| == end <= |before|
    requires pos == start + |Repeat(image, i)| && pos <= |before|
    requires cur == before[..start] + Repeat(image, i) + before[pos..]
    ensures pos + |image| <= end && pos + |image| == start + |Repeat(image, i + 1)|
    ensures |cur| == |before|
    ensures Overwrite(cur, pos, image) == before[..start] + Repeat(image, i + 1) + before[pos + |image|..]
  {
    RepeatGrows(image, i + 1, n);
    assert Repeat(image, i + 1) == Repeat(image, i) + image;
    assert cur[..pos] == before[..start] + Repeat(image, i);
    assert cur[pos + |image|..] == before[pos + |image|..];
  }

  /** A quotient without remainder times the divisor gives the dividend
      back. */
  lemma ExactQuotient(a: nat, b: nat)
    requires b > 0 && a % b == 0
    ensures (a / b) * b == a
  {
  }

  /** Every value in a filled range reads back as the value. */
  lemma {:induction false} RepeatReadBack(image: seq<u8>, n: nat, k: nat)
    requires k < n
    ensures (k + 1) * |image| <= |Repeat(image, n)|
    ensures Repeat(image, n)[k * |image|..(k + 1) * |image|] == image
  {
    var prev := Repeat(image, n - 1);
    assert Repeat(image, n) == prev + image;
    RepeatLength(image, n - 1);
    assert (k + 1) * |image| == k * |image| + |image|;
    if k < n - 1 {
      RepeatReadBack(image, n - 1, k);
      MulLess(k, n - 1, |image|);
    } else {
      assert k * |image| == |prev|;
    }
  }

  // ----- VmIo::write_vals ----------------------------------------------------

  ghost predicate IsPowerOfTwo(n: nat)
  {
    exists k: nat :: Pow2(k) == n
  }

  /** The offset of value `k`. */
  function Slot(start: nat, stride: nat, k: nat): nat
  {
    if k == 0 then start else Slot(start, stride, k - 1) + stride
  }

  /** Slots are `stride` bytes apart: the `k`-th is `k * stride` past the
      first, and a later one is at least a stride past an earlier one. */
  lemma {:induction false} SlotSpacing(start: nat, stride: nat, i: nat, k: nat)
    requires i < k
    ensures Slot(start, stride, k) == start + k * stride
    ensures Slot(start, stride, i) + stride <= Slot(start, stride, k)
  {
    if i < k - 1 {
      SlotSpacing(start, stride, i, k - 1);
    } else if k > 1 {
      SlotSpacing(start, stride, 0, k - 1);
    }
  }

  /** The values written from `start`, `stride` bytes apart. */
  function PutAll(bytes: seq<u8>, start: nat, stride: nat, items: seq<seq<u8>>, size: nat): (r: seq<u8>)
    requires forall i :: 0 <= i < |items| ==> |items[i]| == size
    requires |items| == 0 || Slot(start, stride, |items| - 1) + size <= |bytes|
    ensures |r| == |bytes|
  {
    if items == [] then bytes
    else
      assert |items| - 1 == 0 || Slot(start, stride, |items| - 2) + size <= Slot(start, stride, |items| - 1) + size;
      Overwrite(PutAll(bytes, start, stride, items[..|items| - 1], size),
                Slot(start, stride, |items| - 1), items[|items| - 1])
  }

  /** When values do not overlap (`size <= stride`), each one written
      reads back from its slot. */
  lemma {:induction false} PutAllReadBack(bytes: seq<u8>, start: nat, stride: nat, items: seq<seq<u8>>, size: nat, i: nat)
    requires forall j :: 0 <= j < |items| ==> |items[j]| == size
    requires i < |items| && Slot(start, stride, |items| - 1) + size <= |bytes|
    requires size <= stride
    ensures Slot(start, stride, i) + size <= |bytes|
      && PutAll(bytes, start, stride, items, size)[Slot(start, stride, i)..Slot(start, stride, i) + size] == items[i]
  {
    var n := |items|;
    var init := items[..n - 1];
    if n > 1 {
      SlotSpacing(start, stride, n - 2, n - 1);
    }
    var prev := PutAll(bytes, start, stride, init, size);
    var last := Slot(start, stride, n - 1);
    if i == n - 1 {
      OverwriteReadBack(prev, last, items[n - 1]);
    } else {
      PutAllReadBack(bytes, start, stride, init, size, i);
      SlotSpacing(start, stride, i, n - 1);
      OverwriteKeepsBefore(prev, last, items[n - 1], Slot(start, stride, i), size);
      assert init[i] == items[i];
    }
  }

  /** Writing at `last` leaves a range that ends before it alone. */
  lemma OverwriteKeepsBefore(prev: seq<u8>, last: nat, item: seq<u8>, at: nat, size: nat)
    requires at + size <= last && last + |item| <= |prev|
    ensures Overwrite(prev, last, item)[at..at + size] == prev[at..at + size]
  {
    var after := Overwrite(prev, last, item);
    forall j | at <= j < at + size
      ensures after[j] == prev[j]
    {
      OverwriteFrame(prev, last, item, j);
    }
  }

  /** Where `write_vals` puts its values: with `align` 0 or 1, from
      `offset` and packed; otherwise from `offset` rounded up to `align`, one
      value every `size` rounded up to `align`. */
  function Placement(offset: nat, size: nat, align: nat): (r: (nat, nat))
    ensures align <= 1 ==> r == (offset, size)
    ensures align > 1 ==> r.0 % align == 0 && r.1 % align == 0 && offset <= r.0 && size <= r.1
  {
    if align / 2 == 0 then (offset, size) else (AlignUp(offset, align), AlignUp(size, align))
  }

  lemma PutAllSnoc(bytes: seq<u8>, start: nat, stride: nat, items: seq<seq<u8>>, size: nat, n: nat)
    requires forall i :: 0 <= i < |items| ==> |items[i]| == size
    requires n < |items| && Slot(start, stride, n) + size <= |bytes|
    ensures PutAll(bytes, start, stride, items[..n + 1], size)
      == Overwrite(PutAll(bytes, start, stride, items[..n], size), Slot(start, stride, n), items[n])
  {
    assert items[..n + 1][..n] == items[..n];
  }

  /** `VmIo::write_vals` over an object whose `write_val` writes a value
      that fits and refuses (InvalidArgs) one that passes its end.  The
      values go where `Placement` says (`align` must be 0, 1 or a power of
      two) until one does not fit: the result is the number written, and
      an error only if not even the first was. */
  method WriteVals(obj: Memory, offset: nat, items: seq<seq<u8>>, size: nat, align: nat)
    returns (r: Result<nat, OstdError>)
    requires forall i :: 0 <= i < |items| ==> |items[i]| == size
    requires align <= 1 || IsPowerOfTwo(align)
    modifies obj
    ensures var (start, stride) := Placement(offset, size, align);
      && (r.Err? <==> |items| > 0 && Slot(start, stride, 0) + size > |old(obj.bytes)|)
      && (r.Err? ==> r.error == InvalidArgs && obj.bytes == old(obj.bytes))
      && (r.Ok? ==>
            && r.value <= |items|
            && (r.value == 0 || Slot(start, stride, r.value - 1) + size <= |old(obj.bytes)|)
            && (r.value < |items| ==> Slot(start, stride, r.value) + size > |old(obj.bytes)|)
            && obj.bytes == PutAll(old(obj.bytes), start, stride, items[..r.value], size))
  {
    var (start, stride) := Placement(offset, size, align);
    ghost var before := obj.bytes;
    var off := start;
    var nr := 0;
    while nr < |items|
      invariant nr <= |items| && off == Slot(start, stride, nr)
      invariant |obj.bytes| == |before|
      invariant nr == 0 || Slot(start, stride, nr - 1) + size <= |before|
      invariant nr == 0 || start + size <= |before|
      invariant obj.bytes == PutAll(before, start, stride, items[..nr], size)
    {
      if off + size > |obj.bytes| {
        if nr > 0 {
          return Ok(nr);
        }
        return Err(InvalidArgs);
      }
      PutAllSnoc(before, start, stride, items, size, nr);
      assert Slot(start, stride, nr + 1) == off + stride;
      obj.bytes := Overwrite(obj.bytes, off, items[nr]);
      off := off + stride;
      nr := nr + 1;
    }
    assert items[..nr] == items;
    return Ok(nr);
  }
}
