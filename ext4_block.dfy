/** The raw block of the ext4 layer (kernel/comps/another_ext4/src/
    ext4_defs/block.rs): a block id and `BLOCK_SIZE` bytes, read and
    written at byte offsets.

    The crate's constants file is not part of this model; `BLOCK_SIZE` is
    the crate's 4096.  Serialising a value (`to_bytes`, `from_bytes`) is a
    reinterpretation of its memory: here a value is given by its byte image,
    a sequence of bytes. */
module Ext4Block {

  import opened Common

  const BLOCK_SIZE: nat := 4096

  class Block {
    var id: nat
    const data: array<u8>

    ghost predicate Valid()
      reads this
    {
      data.Length == BLOCK_SIZE
    }

    /** `Block::default`: block 0, every byte zero. */
    constructor Default()
      ensures Valid() && fresh(data)
      ensures id == 0 && forall i :: 0 <= i < BLOCK_SIZE ==> data[i] == 0
    {
      id := 0;
      data := new u8[BLOCK_SIZE](_ => 0);
    }

    /** `Block::new`: the given id and bytes. */
    constructor New(blockId: nat, contents: seq<u8>)
      requires |contents| == BLOCK_SIZE
      ensures Valid() && fresh(data)
      ensures id == blockId && data[..] == contents
    {
      id := blockId;
      data := new u8[BLOCK_SIZE](i requires 0 <= i < BLOCK_SIZE => contents[i]);
    }

    /** `read_offset`: the `size` bytes from `offset` (a range past the end
        of the block panics, so callers stay inside it). */
    function ReadOffset(offset: nat, size: nat): (r: seq<u8>)
      reads this, data
      requires Valid() && offset + size <= BLOCK_SIZE
      ensures |r| == size
      ensures forall i :: 0 <= i < size ==> r[i] == data[offset + i]
    {
      data[offset..offset + size]
    }

    /** `write_offset`: the bytes copied into the block from `offset`,
        everything else unchanged. */
    method WriteOffset(offset: nat, bytes: seq<u8>)
      requires Valid() && offset + |bytes| <= BLOCK_SIZE
      modifies data
      ensures data[..] == Overwrite(old(data[..]), offset, bytes)
      ensures ReadOffset(offset, |bytes|) == bytes
    {
      ghost var before := data[..];
      for k := 0 to |bytes|
        invariant data[..] == Overwrite(before, offset, bytes[..k])
      {
        data[offset + k] := bytes[k];
        assert bytes[..k + 1] == bytes[..k] + [bytes[k]];
      }
      assert bytes[..|bytes|] == bytes;
      OverwriteReadBack(before, offset, bytes);
    }

    /** `write_offset_as`: the value's byte image written at `offset`. */
    method WriteOffsetAs(offset: nat, image: seq<u8>)
      requires Valid() && offset + |image| <= BLOCK_SIZE
      modifies data
      ensures data[..] == Overwrite(old(data[..]), offset, image)
    {
      WriteOffset(offset, image);
    }
  }
}
