/** The device file system (kernel/comps/vfs/src/impls/dev_fs/): its root
    directory of character devices (filesystem.rs) and the handles opened
    on it (handle.rs).

    A character device's own `read`/`write` is a collaborator: what it
    returns for each buffer is a parameter.  Error numbers are those the
    VFS error helpers attach: an existing entry is EEXIST, an unsupported
    operation ENOSYS. */
module VfsDevFs {

  import opened Common
  import opened Errors
  import opened VfsTypes

  // ----- directory handles -------------------------------------------------

  /** The slice bounds `read_dir_chunk` computes as written: from the
      cursor to `cursor + len` (the whole listing when no length is given),
      cut at the end of the snapshot. */
  function ChunkBoundsAsWritten(count: nat, cursor: nat, len: Option<nat>): (nat, nat)
  {
    var l := if len.Some? then len.value else count;
    (cursor, Min(cursor + l, count))
  }

  /** After `seek_dir` past the end of a one-entry listing, the bounds
      computed as written run backwards, so slicing the snapshot with them
      panics. */
  lemma SeekPastEndAsWritten()
    ensures var (start, end) := ChunkBoundsAsWritten(1, 2, None);
      start > end
  {
  }

  /** The bounds with the start cut at the end of the snapshot as well:
      past the end the chunk is empty. */
  function ChunkBounds(count: nat, cursor: nat, len: Option<nat>): (r: (nat, nat))
    ensures r.0 <= r.1 <= count
    ensures cursor <= count ==> r == ChunkBoundsAsWritten(count, cursor, len)
    ensures cursor >= count ==> r == (count, count)
  {
    var l := if len.Some? then len.value else count;
    (Min(cursor, count), Min(cursor + l, count))
  }

  /** The entries handed out by successive chunk reads of the given
      lengths, starting at `cursor`. */
  function Listing(snapshot: seq<DirectoryEntry>, cursor: nat, lens: seq<nat>): seq<DirectoryEntry>
    decreases |lens|
  {
    if lens == [] then []
    else
      var (start, end) := ChunkBounds(|snapshot|, cursor, Some(lens[0]));
      snapshot[start..end] + Listing(snapshot, end, lens[1..])
  }

  function Total(lens: seq<nat>): nat
  {
    if lens == [] then 0 else lens[0] + Total(lens[1..])
  }

  /** Successive chunks continue each other: together they are the
      snapshot from the cursor on, as far as their lengths reach. */
  lemma {:induction false} ChunksCoverSnapshot(snapshot: seq<DirectoryEntry>, cursor: nat, lens: seq<nat>)
    requires cursor <= |snapshot|
    ensures Listing(snapshot, cursor, lens) == snapshot[cursor..Min(cursor + Total(lens), |snapshot|)]
    decreases |lens|
  {
    if lens != [] {
      var end := Min(cursor + lens[0], |snapshot|);
      assert ChunkBounds(|snapshot|, cursor, Some(lens[0])) == (cursor, end);
      assert Listing(snapshot, cursor, lens) == snapshot[cursor..end] + Listing(snapshot, end, lens[1..]);
      ChunksCoverSnapshot(snapshot, end, lens[1..]);
      var last := Min(cursor + Total(lens), |snapshot|);
      assert Total(lens) == lens[0] + Total(lens[1..]);
      assert Min(end + Total(lens[1..]), |snapshot|) == last;
      assert snapshot[cursor..last] == snapshot[cursor..end] + snapshot[end..last];
    }
  }

  /** `DevDirHandle`: a cursor into a snapshot of the directory taken at
      open time. */
  class DirHandle {
    var cursor: nat
    const snapshot: seq<DirectoryEntry>

    constructor(snapshot: seq<DirectoryEntry>)
      ensures cursor == 0 && this.snapshot == snapshot
    {
      cursor := 0;
      this.snapshot := snapshot;
    }

    /** `read_dir_chunk`: the entries from the cursor, at most `len` of
        them, and the cursor moves past them. */
    method ReadDirChunk(len: Option<nat>) returns (r: seq<DirectoryEntry>)
      modifies this
      ensures var (start, end) := ChunkBounds(|snapshot|, old(cursor), len);
        r == snapshot[start..end] && cursor == end
      ensures len.None? && old(cursor) <= |snapshot| ==> r == snapshot[old(cursor)..]
      ensures cursor <= |snapshot|
    {
      var (start, end) := ChunkBounds(|snapshot|, cursor, len);
      cursor := end;
      return snapshot[start..end];
    }

    /** `seek_dir`: the cursor becomes the offset. */
    method SeekDir(offset: nat)
      modifies this
      ensures cursor == offset
    {
      cursor := offset;
    }
  }

  // ----- character-device handles ----------------------------------------

  /** What a vectored transfer returns: the first error, or the sum of the
      per-buffer counts. */
  function Vectored(results: seq<Result<nat, Errno>>): Result<nat, Errno>
  {
    if results == [] then Ok(0)
    else if results[0].Err? then Err(results[0].error)
    else
      match Vectored(results[1..])
      case Err(e) => Err(e)
      case Ok(t) => Ok(results[0].value + t)
  }

  /** The counts of the leading successful transfers, added up. */
  function Done(results: seq<Result<nat, Errno>>): nat
  {
    if results == [] || results[0].Err? then 0 else results[0].value + Done(results[1..])
  }

  /** With every transfer successful the total is the sum of the counts;
      otherwise it is the first error. */
  lemma {:induction false} VectoredSpec(results: seq<Result<nat, Errno>>)
    ensures (forall i :: 0 <= i < |results| ==> results[i].Ok?) ==> Vectored(results) == Ok(Done(results))
    ensures forall i :: (0 <= i < |results| && results[i].Err? && (forall j :: 0 <= j < i ==> results[j].Ok?)
      ==> Vectored(results) == Err(results[i].error))
  {
    if results != [] {
      VectoredSpec(results[1..]);
      forall i | 0 <= i < |results| && results[i].Err? && (forall j :: 0 <= j < i ==> results[j].Ok?)
        ensures Vectored(results) == Err(results[i].error)
      {
        if i > 0 {
          assert results[1..][i - 1] == results[i];
          assert forall j :: 0 <= j < i - 1 ==> results[1..][j] == results[j + 1];
        }
      }
    }
  }

  lemma DoneSnoc(results: seq<Result<nat, Errno>>, i: nat)
    requires i < |results| && forall j :: 0 <= j <= i ==> results[j].Ok?
    ensures Done(results[..i + 1]) == Done(results[..i]) + results[i].value
    decreases i
  {
    if i > 0 {
      assert results[..i + 1][1..] == results[1..][..i];
      assert results[..i][1..] == results[1..][..i - 1];
      DoneSnoc(results[1..], i - 1);
    }
  }

  lemma VectoredPrefix(results: seq<Result<nat, Errno>>, i: nat)
    requires i < |results|
    requires forall j :: 0 <= j < i ==> results[j].Ok?
    ensures Vectored(results).Ok? ==> Vectored(results[i..]).Ok?
    ensures Vectored(results) == (match Vectored(results[i..])
                                 case Err(e) => Err(e)
                                 case Ok(t) => Ok(Done(results[..i]) + t))
    decreases i
  {
    if i > 0 {
      VectoredPrefix(results[1..], i - 1);
      assert results[1..][i - 1..] == results[i..];
      assert results[..i][1..] == results[1..][..i - 1];
    }
  }

  /** `DevCharHandle::read_vectored_at` and `write_vectored_at`: each
      buffer is handed to the device at the offset advanced by what the
      earlier buffers moved; the first error ends the transfer.
      `results[i]` is what the device answers for buffer `i`; `offsets`
      are the offsets of the calls made. */
  method VectoredAt(off: nat, results: seq<Result<nat, Errno>>) returns (r: Result<nat, Errno>, offsets: seq<nat>)
    ensures r == Vectored(results)
    ensures |offsets| <= |results|
    ensures forall i :: 0 <= i < |offsets| ==> offsets[i] == off + Done(results[..i])
    ensures r.Ok? ==> |offsets| == |results|
  {
    var total := 0;
    offsets := [];
    var i := 0;
    while i < |results|
      invariant 0 <= i <= |results| && |offsets| == i
      invariant forall j :: 0 <= j < i ==> results[j].Ok?
      invariant total == Done(results[..i])
      invariant forall j :: 0 <= j < i ==> offsets[j] == off + Done(results[..j])
    {
      offsets := offsets + [off + total];
      if results[i].Err? {
        VectoredPrefix(results, i);
        return Err(results[i].error), offsets;
      }
      DoneSnoc(results, i);
      total := total + results[i].value;
      i := i + 1;
    }
    VectoredSpec(results);
    assert results[..i] == results;
    return Ok(total), offsets;
  }

  // ----- the file system -------------------------------------------------

  /** The root directory's vnode id. */
  const ROOT_ID: nat := 1

  /** A device node under the root: its vnode id and permission bits. */
  datatype CharNode = CharNode(id: nat, perm: nat)

  /** `DevFs`: the root directory and its character-device children. */
  class DevFs {
    const fsId: nat
    const mountId: nat
    var children: map<string, CharNode>

    /** Children's ids are distinct and run from 2 up to the number of
        children plus one, so none is the root's. */
    predicate Valid()
      reads this
    {
      && (forall n :: n in children ==> 2 <= children[n].id < |children| + 2)
      && (forall a, b :: a in children && b in children && a != b ==> children[a].id != children[b].id)
    }

    /** `DevFs::new`: an empty root directory. */
    constructor(mountId: nat, fsId: nat)
      ensures Valid() && children == map[]
      ensures this.mountId == mountId && this.fsId == fsId
    {
      this.mountId := mountId;
      this.fsId := fsId;
      children := map[];
    }

    /** `DevVnode::vnode_type` of the vnode with id `id`: a registered
        device is a character device, the root a directory; any other id
        names no vnode.  Because device ids start at 2, the root is the
        only directory and a device is never taken for it. */
    function KindOf(id: nat): (k: Option<VnodeType>)
      requires Valid()
      reads this
      ensures k == Some(Directory) <==> id == ROOT_ID
      ensures k == Some(CharDevice) <==> exists n :: n in children && children[n].id == id
      ensures k.Some? ==> k.value == Directory || k.value == CharDevice
    {
      if exists n :: n in children && children[n].id == id then Some(CharDevice)
      else if id == ROOT_ID then Some(Directory)
      else None
    }

    /** `register_char_device`: an existing name is EEXIST; otherwise the
        device gets the next id, the number of children plus two, and
        becomes the only new child. */
    method RegisterCharDevice(name: string, perm: nat) returns (r: Result<(), Errno>)
      requires Valid()
      modifies this
      ensures Valid()
      ensures name in old(children) ==> r == Err(EEXIST) && children == old(children)
      ensures name !in old(children) ==>
        && r == Ok(())
        && children == old(children)[name := CharNode(|old(children)| + 2, perm)]
        && |children| == |old(children)| + 1
    {
      if name in children {
        return Err(EEXIST);
      }
      var id := |children| + 2;
      assert children[name := CharNode(id, perm)].Keys == children.Keys + {name};
      children := children[name := CharNode(id, perm)];
      return Ok(());
    }
  }
}
