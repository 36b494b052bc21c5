/** The anonymous pipe (kernel/comps/vfs/src/impls/pipe.rs): one byte
    queue shared by the reading and the writing end.

    A reader that finds the queue empty while a writer exists sleeps on
    the pipe's wait cell and tries again; one attempt of that loop is
    modelled, and `Wait` stands for going to sleep.  The number of strong
    references to the shared pipe is a field. */
module VfsPipe {

  import opened Common

  /** What one attempt of `read_at` does. */
  datatype ReadOutcome = Read(n: nat) | EndOfFile | Wait

  class RingPipe {
    /** The buffered bytes, oldest first. */
    var buf: seq<u8>
    /** `Arc::strong_count` of the shared pipe. */
    var strongCount: nat

    constructor(strongCount: nat)
      ensures buf == [] && this.strongCount == strongCount
    {
      buf := [];
      this.strongCount := strongCount;
    }

    /** `has_writer`: some reference besides the reader's own exists. */
    predicate HasWriter()
      reads this
    {
      strongCount > 1
    }

    /** `PipeReader::read_at`: with bytes buffered, the oldest
        `min(|dst|, |buf|)` of them move into `dst` in order; with none,
        end of file when no writer is left, otherwise wait. */
    method ReadAt(dst: array<u8>) returns (r: ReadOutcome)
      modifies this, dst
      ensures strongCount == old(strongCount)
      ensures old(buf) != [] ==> r == Read(Min(dst.Length, |old(buf)|))
      ensures old(buf) == [] && !old(HasWriter()) ==> r == EndOfFile
      ensures old(buf) == [] && old(HasWriter()) ==> r == Wait
      ensures r.Read? ==>
        && dst[..r.n] == old(buf)[..r.n]
        && dst[r.n..] == old(dst[r.n..])
        && buf == old(buf)[r.n..]
      ensures !r.Read? ==> buf == old(buf) && dst[..] == old(dst[..])
    {
      if buf != [] {
        var n := Min(dst.Length, |buf|);
        var i := 0;
        while i < n
          invariant 0 <= i <= n
          invariant buf == old(buf)[i..] && strongCount == old(strongCount)
          invariant dst[..i] == old(buf)[..i]
          invariant dst[n..] == old(dst[n..])
        {
          dst[i] := buf[0];
          buf := buf[1..];
          i := i + 1;
        }
        return Read(n);
      }
      if !HasWriter() {
        return EndOfFile;
      }
      return Wait;
    }

    /** `PipeWriter::write_at`: every byte is queued in order and the
        whole length is reported. */
    method WriteAt(src: seq<u8>) returns (n: nat)
      modifies this
      ensures n == |src|
      ensures buf == old(buf) + src && strongCount == old(strongCount)
    {
      var i := 0;
      while i < |src|
        invariant 0 <= i <= |src|
        invariant buf == old(buf) + src[..i] && strongCount == old(strongCount)
      {
        buf := buf + [src[i]];
        i := i + 1;
      }
      assert src[..|src|] == src;
      return |src|;
    }
  }

  /** The bytes handed out by successive reads of the given sizes. */
  function Taken(q: seq<u8>, sizes: seq<nat>): seq<u8>
    decreases |sizes|
  {
    if sizes == [] || sizes[0] > |q| then []
    else q[..sizes[0]] + Taken(q[sizes[0]..], sizes[1..])
  }

  function Total(sizes: seq<nat>): nat
  {
    if sizes == [] then 0 else sizes[0] + Total(sizes[1..])
  }

  /** A read of `n` bytes takes the first `n` of the queue, so however
      the reads are cut, together they hand out a prefix of the queue in
      order. */
  lemma {:induction false} FifoOrder(q: seq<u8>, sizes: seq<nat>)
    requires Total(sizes) <= |q|
    ensures Taken(q, sizes) == q[..Total(sizes)]
    decreases |sizes|
  {
    if sizes != [] {
      FifoOrder(q[sizes[0]..], sizes[1..]);
      assert q[..Total(sizes)] == q[..sizes[0]] + q[sizes[0]..][..Total(sizes[1..])];
    }
  }
}
