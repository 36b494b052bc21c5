/** Access to the current process's user memory (kernel/src/vm.rs): the
    guard against null-page pointers, the word-at-a-time zero test and the
    C-string reader.

    Bytes here are `bv8` and words `bv64`, so that the zero test is
    bit arithmetic as in the source.  The user memory behind a reader is
    `mem`, the `max_len` bytes from the reader's cursor; only the first
    `readable` of them can be read, and a read reaching past them page
    faults.  The lowest user address, `ROOT_VMAR_LOWEST_ADDR`, is defined
    with the address-space code, which is not part of this model; it is
    the parameter `lowest`. */
module UserMem {

  import opened Common
  import opened Errors

  /** `check_vaddr`: an address below the lowest user address is taken for
      a null pointer and refused with EFAULT. */
  function CheckVaddr(va: nat, lowest: nat): (r: Result<(), Errno>)
    ensures r.Err? <==> va < lowest
    ensures r.Err? ==> r.error == EFAULT
  {
    if va < lowest then Err(EFAULT) else Ok(())
  }

  /** The guard `read_val`, `write_val` and `read_cstring` put before the
      access: an access of no bytes is not checked at all. */
  function CheckAccess(va: nat, size: nat, lowest: nat): (r: Result<(), Errno>)
    ensures r.Err? <==> size > 0 && va < lowest
    ensures r.Err? ==> r.error == EFAULT
  {
    if size > 0 then CheckVaddr(va, lowest) else Ok(())
  }

  // ----- the word-at-a-time zero test ----------------------------------------

  const ONE_BITS: bv64 := 0x0101_0101_0101_0101
  const HIGH_BITS: bv64 := 0x8080_8080_8080_8080

  /** Byte `k` of a word, counting from the least significant. */
  function ByteOf(v: bv64, k: bv64): bv64
    requires k < 8
  {
    (v >> (8 * k)) & 0xff
  }

  /** `has_zero`: the Linux trick; it holds exactly when one of the eight
      bytes of the word is zero. */
  function HasZero(v: bv64): (r: bool)
    ensures r <==> (ByteOf(v, 0) == 0 || ByteOf(v, 1) == 0 || ByteOf(v, 2) == 0 || ByteOf(v, 3) == 0
      || ByteOf(v, 4) == 0 || ByteOf(v, 5) == 0 || ByteOf(v, 6) == 0 || ByteOf(v, 7) == 0)
  {
    ((v - ONE_BITS) & !v & HIGH_BITS) != 0
  }

  /** The word eight bytes of memory make, least significant first (the
      native order of the supported targets). */
  function FromBytes(b: seq<bv8>): bv64
    requires |b| == 8
  {
    (b[0] as bv64) | ((b[1] as bv64) << 8) | ((b[2] as bv64) << 16) | ((b[3] as bv64) << 24)
    | ((b[4] as bv64) << 32) | ((b[5] as bv64) << 40) | ((b[6] as bv64) << 48) | ((b[7] as bv64) << 56)
  }

  /** `to_ne_bytes` undoes the read: byte `k` of the word is memory byte
      `k`. */
  lemma BytesOfWord(b: seq<bv8>)
    requires |b| == 8
    ensures var v := FromBytes(b);
      && ByteOf(v, 0) == b[0] as bv64 && ByteOf(v, 1) == b[1] as bv64
      && ByteOf(v, 2) == b[2] as bv64 && ByteOf(v, 3) == b[3] as bv64
      && ByteOf(v, 4) == b[4] as bv64 && ByteOf(v, 5) == b[5] as bv64
      && ByteOf(v, 6) == b[6] as bv64 && ByteOf(v, 7) == b[7] as bv64
  {
  }

  lemma ZeroAmongBytes(h: bool, v: bv64, b: seq<bv8>)
    requires |b| == 8
    requires h <==> (ByteOf(v, 0) == 0 || ByteOf(v, 1) == 0 || ByteOf(v, 2) == 0 || ByteOf(v, 3) == 0
      || ByteOf(v, 4) == 0 || ByteOf(v, 5) == 0 || ByteOf(v, 6) == 0 || ByteOf(v, 7) == 0)
    requires ByteOf(v, 0) == b[0] as bv64 && ByteOf(v, 1) == b[1] as bv64
    requires ByteOf(v, 2) == b[2] as bv64 && ByteOf(v, 3) == b[3] as bv64
    requires ByteOf(v, 4) == b[4] as bv64 && ByteOf(v, 5) == b[5] as bv64
    requires ByteOf(v, 6) == b[6] as bv64 && ByteOf(v, 7) == b[7] as bv64
    ensures h <==> 0 in b
  {
    assert 0 in b <==> (b[0] == 0 || b[1] == 0 || b[2] == 0 || b[3] == 0
      || b[4] == 0 || b[5] == 0 || b[6] == 0 || b[7] == 0);
  }

  /** A word read from memory has a zero byte exactly when one of the
      eight bytes read is zero. */
  lemma WordHasZero(b: seq<bv8>)
    requires |b| == 8
    ensures HasZero(FromBytes(b)) <==> 0 in b
  {
    BytesOfWord(b);
    ZeroAmongBytes(HasZero(FromBytes(b)), FromBytes(b), b);
  }

  const WORD_BYTES: nat := 8

  /** `is_addr_aligned`: the low three bits are clear, that is, the
      address is a multiple of the word size. */
  function IsAddrAligned(addr: bv64): (r: bool)
    ensures r <==> addr % 8 == 0
  {
    (addr & (8 - 1)) == 0
  }

  // ----- the C-string reader ---------------------------------------------------

  /** The index of the first zero byte, or the length when there is none. */
  function FirstZero(s: seq<bv8>): (i: nat)
    ensures i <= |s| && (i < |s| ==> s[i] == 0)
    ensures forall k :: 0 <= k < i ==> s[k] != 0
  {
    if s == [] then 0 else if s[0] == 0 then 0 else 1 + FirstZero(s[1..])
  }

  /** A byte at or before the first zero is that zero exactly when it is
      zero. */
  lemma ByteBeforeFirstZero(mem: seq<bv8>, i: nat)
    requires i < |mem| && i <= FirstZero(mem)
    ensures mem[i] == 0 <==> i == FirstZero(mem)
    ensures mem[i] != 0 ==> i + 1 <= FirstZero(mem)
  {
  }

  /** A prefix with no zero lies before the first zero. */
  lemma {:induction false} FirstZeroAfter(s: seq<bv8>, j: nat)
    requires j <= |s| && forall k :: 0 <= k < j ==> s[k] != 0
    ensures j <= FirstZero(s)
  {
    if j > 0 {
      FirstZeroAfter(s[1..], j - 1);
    }
  }

  /** A run of non-zero bytes starting before the first zero ends before
      it too. */
  lemma NoZeroBeforeFirst(mem: seq<bv8>, i: nat, j: nat)
    requires i <= FirstZero(mem) && i <= j <= |mem| && 0 !in mem[i..j]
    ensures j <= FirstZero(mem)
  {
    forall k | 0 <= k < j
      ensures mem[k] != 0
    {
      if k >= i {
        assert mem[i..j][k - i] == mem[k];
      }
    }
    FirstZeroAfter(mem, j);
  }

  /** What reading a C string of at most `|mem|` bytes yields: the bytes up
      to and including the first NUL, when that NUL lies within the limit
      and every byte up to it can be read; otherwise EFAULT, both for an
      over-long string and for a fault. */
  function CStringOf(mem: seq<bv8>, readable: nat): Result<seq<bv8>, Errno>
  {
    var z := FirstZero(mem);
    if z < |mem| && z < readable then Ok(mem[..z + 1]) else Err(EFAULT)
  }

  /** A string read is NUL-terminated, holds no other NUL, is within the
      limit, and is what memory holds. */
  lemma CStringShape(mem: seq<bv8>, readable: nat)
    ensures var r := CStringOf(mem, readable);
      r.Ok? ==> (&& 1 <= |r.value| <= |mem| && |r.value| <= readable
                 && r.value[|r.value| - 1] == 0
                 && (forall k :: 0 <= k < |r.value| - 1 ==> r.value[k] != 0)
                 && r.value == mem[..|r.value|])
    ensures CStringOf(mem, readable).Err? <==>
      (forall k :: 0 <= k < |mem| && k < readable ==> mem[k] != 0)
  {
    var z := FirstZero(mem);
    if z < |mem| && z < readable {
    } else {
      forall k | 0 <= k < |mem| && k < readable
        ensures mem[k] != 0
      {
        assert k < z;
      }
    }
  }

  /** A word read at the end of `buffer` that holds a NUL, taken apart
      byte by byte: the string ends inside it. */
  method WordWithZero(mem: seq<bv8>, readable: nat, buffer: seq<bv8>, word: seq<bv8>)
    returns (r: Result<seq<bv8>, Errno>)
    requires |buffer| + WORD_BYTES <= readable && |buffer| + WORD_BYTES <= |mem|
    requires buffer == mem[..|buffer|] && |buffer| <= FirstZero(mem)
    requires word == mem[|buffer|..|buffer| + WORD_BYTES] && 0 in word
    ensures r == CStringOf(mem, readable)
  {
    var z := FirstZero(mem);
    var base := |buffer|;
    var read := buffer;
    var j := 0;
    while j < WORD_BYTES
      invariant 0 <= j <= WORD_BYTES
      invariant read == mem[..base + j]
      invariant 0 !in word[..j]
      invariant base + j <= z
    {
      assert word[j] == mem[base + j];
      ByteBeforeFirstZero(mem, base + j);
      assert mem[..base + j + 1] == read + [word[j]];
      read := read + [word[j]];
      if word[j] == 0 {
        return Ok(read);
      }
      assert word[..j + 1] == word[..j] + [word[j]];
      j := j + 1;
    }
    assert false;
  }

  /** What has been read so far: a prefix of memory, readable, and not
      past the first zero. */
  ghost predicate ReadSoFar(mem: seq<bv8>, readable: nat, buffer: seq<bv8>)
  {
    |buffer| <= |mem| && buffer == mem[..|buffer|] && |buffer| <= FirstZero(mem) && |buffer| <= readable
  }

  /** One byte read at the cursor: a fault returns EFAULT, a NUL ends the
      string, any other byte extends `buffer`. */
  method ReadByte(mem: seq<bv8>, readable: nat, buffer: seq<bv8>)
    returns (next: seq<bv8>, done: Option<Result<seq<bv8>, Errno>>)
    requires ReadSoFar(mem, readable, buffer) && |buffer| < |mem|
    ensures done.Some? ==> done.value == CStringOf(mem, readable)
    ensures done.None? ==> ReadSoFar(mem, readable, next) && |next| == |buffer| + 1
  {
    if |buffer| >= readable {
      return buffer, Some(Err(FromOstd(PageFault).errno));
    }
    var byte := mem[|buffer|];
    ByteBeforeFirstZero(mem, |buffer|);
    assert mem[..|buffer| + 1] == buffer + [byte];
    next := buffer + [byte];
    if byte == 0 {
      return next, Some(Ok(next));
    }
    done := None;
  }

  /** The loop over whole words, while one fits in the limit; a word read
      that faults leaves the rest to the byte loop. */
  method ReadWords(mem: seq<bv8>, readable: nat, buffer: seq<bv8>)
    returns (next: seq<bv8>, done: Option<Result<seq<bv8>, Errno>>)
    requires ReadSoFar(mem, readable, buffer)
    ensures done.Some? ==> done.value == CStringOf(mem, readable)
    ensures done.None? ==> ReadSoFar(mem, readable, next)
  {
    next := buffer;
    while |next| + WORD_BYTES <= |mem|
      invariant ReadSoFar(mem, readable, next)
      decreases |mem| - |next|
    {
      if |next| + WORD_BYTES > readable {
        break;
      }
      var word := mem[|next|..|next| + WORD_BYTES];
      WordHasZero(word);
      if HasZero(FromBytes(word)) {
        var r := WordWithZero(mem, readable, next, word);
        return next, Some(r);
      }
      NoZeroBeforeFirst(mem, |next|, |next| + WORD_BYTES);
      assert mem[..|next| + WORD_BYTES] == next + word;
      next := next + word;
    }
    done := None;
  }

  /** `read_cstring` over a fallible reader whose cursor is at `start`:
      single bytes up to the first aligned address, then whole words as
      long as a word fits, a word containing a NUL being taken apart byte
      by byte, then single bytes to the limit. A byte read that faults
      returns the error; a word read that faults falls back to the byte
      loop, the reader's cursor being restored. */
  method ReadCString(start: bv64, mem: seq<bv8>, readable: nat) returns (r: Result<seq<bv8>, Errno>)
    requires |mem| < 0x1_0000_0000_0000_0000
    ensures r == CStringOf(mem, readable)
  {
    var buffer: seq<bv8> := [];
    var done: Option<Result<seq<bv8>, Errno>> := None;
    // Bytes one at a time until the cursor is word aligned.
    while !IsAddrAligned(start + |buffer| as bv64) && |buffer| < |mem|
      invariant ReadSoFar(mem, readable, buffer)
      decreases |mem| - |buffer|
    {
      buffer, done := ReadByte(mem, readable, buffer);
      if done.Some? {
        return done.value;
      }
    }
    // Whole words while one fits in the limit.
    buffer, done := ReadWords(mem, readable, buffer);
    if done.Some? {
      return done.value;
    }
    // The last bytes, one at a time.
    while |buffer| < |mem|
      invariant ReadSoFar(mem, readable, buffer)
      decreases |mem| - |buffer|
    {
      buffer, done := ReadByte(mem, readable, buffer);
      if done.Some? {
        return done.value;
      }
    }
    assert FirstZero(mem) == |mem|;
    return Err(EFAULT);
  }

  /** `ProcessVm::read_cstring`: the null-pointer guard for a non-empty
      limit, then the reader over the `|mem|` bytes at `vaddr`. */
  method ReadCStringAt(vaddr: bv64, lowest: nat, mem: seq<bv8>, readable: nat)
    returns (r: Result<seq<bv8>, Errno>)
    requires |mem| < 0x1_0000_0000_0000_0000
    ensures |mem| > 0 && (vaddr as int) < lowest ==> r == Err(EFAULT)
    ensures !(|mem| > 0 && (vaddr as int) < lowest) ==> r == CStringOf(mem, readable)
  {
    var checked := CheckAccess(vaddr as int, |mem|, lowest);
    if checked.Err? {
      return Err(checked.error);
    }
    r := ReadCString(vaddr, mem, readable);
  }
}
