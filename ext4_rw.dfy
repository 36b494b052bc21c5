/** Where ext4 keeps inodes and block-group descriptors on disk, and the
    read-modify-write of a block that updates one of them
    (kernel/comps/another_ext4/src/ext4/rw.rs).

    The disk is a sequence of blocks.  The super-block fields the
    positions need (inodes per group, inode size, descriptor size, first
    data block) are fixed fields of the file system here, and so is the
    first inode-table block of each group, which the source reads from the
    group's descriptor.  Checksums (`set_checksum`) are not modelled: the
    `_with_csum` writes are the `_without_csum` writes of an image whose
    checksum field is already set. */
module Ext4Rw {

  import opened Common
  import opened Ext4Block

  /** The super block's byte offset in block 0, the crate's 1024. */
  const BASE_OFFSET: nat := 1024

  /** A position on disk: a block id and a byte offset inside it. */
  datatype DiskPos = DiskPos(block: nat, offset: nat)

  /** `inode_disk_pos`: inode `id` is entry `(id - 1) % inodesPerGroup` of
      the inode table of group `(id - 1) / inodesPerGroup`; its byte address
      in that table, `index * inodeSize`, is split into a block and an
      offset.  Inode 0 does not exist (its subtraction underflows) and the
      super block never holds zero inodes per group. */
  function InodeDiskPos(id: nat, inodesPerGroup: nat, inodeSize: nat, inodeTableOf: nat -> nat): (p: DiskPos)
    requires id >= 1 && inodesPerGroup > 0
    ensures p.offset < BLOCK_SIZE
    ensures var table := inodeTableOf((id - 1) / inodesPerGroup);
      && p.block >= table
      && (p.block - table) * BLOCK_SIZE + p.offset == ((id - 1) % inodesPerGroup) * inodeSize
  {
    var bg := (id - 1) / inodesPerGroup;
    var index := (id - 1) % inodesPerGroup;
    var byte := index * inodeSize;
    assert byte == (byte / BLOCK_SIZE) * BLOCK_SIZE + byte % BLOCK_SIZE;
    DiskPos(inodeTableOf(bg) + byte / BLOCK_SIZE, byte % BLOCK_SIZE)
  }

  /** `block_group_disk_pos`: the descriptors follow the block after the
      first data block, `BLOCK_SIZE / descSize` to a block.  A descriptor
      size of zero or above the block size divides by zero. */
  function BlockGroupDiskPos(bg: nat, descSize: nat, firstDataBlock: nat): (p: DiskPos)
    requires 0 < descSize <= BLOCK_SIZE
    ensures p.block > firstDataBlock
    ensures p.offset + descSize <= BLOCK_SIZE && p.offset % descSize == 0
    ensures (p.block - firstDataBlock - 1) * (BLOCK_SIZE / descSize) + p.offset / descSize == bg
  {
    var perBlock := BLOCK_SIZE / descSize;
    DescFacts(bg, descSize, firstDataBlock, perBlock);
    DiskPos(firstDataBlock + bg / perBlock + 1, (bg % perBlock) * descSize)
  }

  lemma DescFacts(bg: nat, descSize: nat, firstDataBlock: nat, perBlock: nat)
    requires 0 < descSize <= BLOCK_SIZE && perBlock == BLOCK_SIZE / descSize
    ensures perBlock >= 1
    ensures (bg % perBlock) * descSize + descSize <= BLOCK_SIZE
    ensures ((bg % perBlock) * descSize) % descSize == 0
    ensures (firstDataBlock + bg / perBlock + 1 - firstDataBlock - 1) * (BLOCK_SIZE / descSize)
      + ((bg % perBlock) * descSize) / descSize == bg
  {
    var slot := bg % perBlock;
    assert perBlock * descSize <= BLOCK_SIZE;
    MulLess(slot, perBlock, descSize);
    MultipleMod(slot, descSize);
    assert (bg / perBlock) * perBlock + slot == bg;
  }

  /** A multiple of `s` modulo a multiple of `s` keeps the factor. */
  lemma ModOfMultiple(k: nat, s: nat, m: nat)
    requires s > 0 && m > 0
    ensures (k * s) % (m * s) == (k % m) * s
  {
    var q, r := k / m, k % m;
    assert k * s == q * (m * s) + r * s;
    MulLess(r, m, s);
    DivModUnique(k * s, m * s, q, r * s);
  }

  /** An inode size that divides the block size keeps every inode inside
      one block. */
  lemma InodeInOneBlock(id: nat, inodesPerGroup: nat, inodeSize: nat, inodeTableOf: nat -> nat)
    requires id >= 1 && inodesPerGroup > 0 && inodeSize > 0 && BLOCK_SIZE % inodeSize == 0
    ensures InodeDiskPos(id, inodesPerGroup, inodeSize, inodeTableOf).offset + inodeSize <= BLOCK_SIZE
  {
    var index := (id - 1) % inodesPerGroup;
    var m := BLOCK_SIZE / inodeSize;
    assert BLOCK_SIZE == m * inodeSize;
    ModOfMultiple(index, inodeSize, m);
    MulLess(index % m, m, inodeSize);
  }

  /** The byte address of a position, counting from the start of the disk. */
  function Address(p: DiskPos): nat
  {
    p.block * BLOCK_SIZE + p.offset
  }

  /** Two inodes of the same group lie whole inode sizes apart: their byte
      ranges never overlap. */
  lemma SameGroupInodesApart(a: nat, b: nat, inodesPerGroup: nat, inodeSize: nat, inodeTableOf: nat -> nat)
    requires a >= 1 && b >= 1 && a != b && inodesPerGroup > 0
    requires (a - 1) / inodesPerGroup == (b - 1) / inodesPerGroup
    ensures var pa := InodeDiskPos(a, inodesPerGroup, inodeSize, inodeTableOf);
      var pb := InodeDiskPos(b, inodesPerGroup, inodeSize, inodeTableOf);
      Address(pa) + inodeSize <= Address(pb) || Address(pb) + inodeSize <= Address(pa)
  {
    var g := (a - 1) / inodesPerGroup;
    var ia, ib := (a - 1) % inodesPerGroup, (b - 1) % inodesPerGroup;
    assert a - 1 == g * inodesPerGroup + ia;
    assert b - 1 == g * inodesPerGroup + ib;
    var pa := InodeDiskPos(a, inodesPerGroup, inodeSize, inodeTableOf);
    var pb := InodeDiskPos(b, inodesPerGroup, inodeSize, inodeTableOf);
    assert Address(pa) == inodeTableOf(g) * BLOCK_SIZE + ia * inodeSize;
    assert Address(pb) == inodeTableOf(g) * BLOCK_SIZE + ib * inodeSize;
    if ia < ib {
      MulLess(ia, ib, inodeSize);
    } else {
      MulLess(ib, ia, inodeSize);
    }
  }

  /** Two different groups' descriptors never overlap. */
  lemma DescriptorsApart(a: nat, b: nat, descSize: nat, firstDataBlock: nat)
    requires 0 < descSize <= BLOCK_SIZE && a != b
    ensures var pa := BlockGroupDiskPos(a, descSize, firstDataBlock);
      var pb := BlockGroupDiskPos(b, descSize, firstDataBlock);
      pa.block != pb.block || pa.offset + descSize <= pb.offset || pb.offset + descSize <= pa.offset
  {
    var pa := BlockGroupDiskPos(a, descSize, firstDataBlock);
    var pb := BlockGroupDiskPos(b, descSize, firstDataBlock);
    if pa.block == pb.block {
      var sa, sb := pa.offset / descSize, pb.offset / descSize;
      var k := pa.block - firstDataBlock - 1;
      assert k * (BLOCK_SIZE / descSize) + sa == a;
      assert k * (BLOCK_SIZE / descSize) + sb == b;
      assert pa.offset == sa * descSize + pa.offset % descSize;
      assert pb.offset == sb * descSize + pb.offset % descSize;
      if sa < sb {
        MulLess(sa, sb, descSize);
      } else {
        MulLess(sb, sa, descSize);
      }
    }
  }

  /** The bytes at a position. */
  function BytesAt(disk: seq<seq<u8>>, p: DiskPos, size: nat): seq<u8>
    requires p.block < |disk| && p.offset + size <= |disk[p.block]|
  {
    disk[p.block][p.offset..p.offset + size]
  }

  /** The disk after writing `image` at a position. */
  function WriteAt(disk: seq<seq<u8>>, p: DiskPos, image: seq<u8>): (d: seq<seq<u8>>)
    requires p.block < |disk| && p.offset + |image| <= |disk[p.block]|
    ensures |d| == |disk| && forall i :: 0 <= i < |d| ==> |d[i]| == |disk[i]|
  {
    disk[p.block := Overwrite(disk[p.block], p.offset, image)]
  }

  /** What is written is read back, and bytes at any range disjoint from
      it are unchanged. */
  lemma WriteAtReadBack(disk: seq<seq<u8>>, p: DiskPos, image: seq<u8>, q: DiskPos, size: nat)
    requires p.block < |disk| && p.offset + |image| <= |disk[p.block]|
    requires q.block < |disk| && q.offset + size <= |disk[q.block]|
    ensures BytesAt(WriteAt(disk, p, image), p, |image|) == image
    ensures (q.block != p.block || q.offset + size <= p.offset || p.offset + |image| <= q.offset) ==>
      BytesAt(WriteAt(disk, p, image), q, size) == BytesAt(disk, q, size)
  {
    OverwriteReadBack(disk[p.block], p.offset, image);
    if q.block == p.block && (q.offset + size <= p.offset || p.offset + |image| <= q.offset) {
      var after := WriteAt(disk, p, image)[q.block];
      forall i | q.offset <= i < q.offset + size
        ensures after[i] == disk[q.block][i]
      {
        OverwriteFrame(disk[p.block], p.offset, image, i);
      }
    }
  }

  class Ext4 {
    var disk: seq<seq<u8>>
    const inodesPerGroup: nat
    const inodeSize: nat
    const descSize: nat
    const firstDataBlock: nat
    const inodeTableOf: nat -> nat

    ghost predicate Valid()
      reads this
    {
      && inodesPerGroup > 0 && 0 < descSize <= BLOCK_SIZE
      && |disk| > 0 && forall i :: 0 <= i < |disk| ==> |disk[i]| == BLOCK_SIZE
    }

    /** Where an inode's bytes lie, and that they lie inside the disk. */
    ghost predicate InodeOnDisk(id: nat)
      reads this
    {
      && Valid() && id >= 1
      && var p := InodeDiskPos(id, inodesPerGroup, inodeSize, inodeTableOf);
      p.block < |disk| && p.offset + inodeSize <= BLOCK_SIZE
    }

    constructor (disk: seq<seq<u8>>, inodesPerGroup: nat, inodeSize: nat, descSize: nat,
                 firstDataBlock: nat, inodeTableOf: nat -> nat)
      ensures this.disk == disk && this.inodesPerGroup == inodesPerGroup && this.inodeSize == inodeSize
      ensures this.descSize == descSize && this.firstDataBlock == firstDataBlock
      ensures this.inodeTableOf == inodeTableOf
    {
      this.disk := disk;
      this.inodesPerGroup := inodesPerGroup;
      this.inodeSize := inodeSize;
      this.descSize := descSize;
      this.firstDataBlock := firstDataBlock;
      this.inodeTableOf := inodeTableOf;
    }

    /** `read_inode`: the inode's bytes from its block. */
    method ReadInode(id: nat) returns (image: seq<u8>)
      requires InodeOnDisk(id)
      ensures image == BytesAt(disk, InodeDiskPos(id, inodesPerGroup, inodeSize, inodeTableOf), inodeSize)
    {
      var p := InodeDiskPos(id, inodesPerGroup, inodeSize, inodeTableOf);
      var block := new Block.New(p.block, disk[p.block]);
      image := block.ReadOffset(p.offset, inodeSize);
    }

    /** `write_inode_without_csum`: the inode's block is read, the inode's
        image written into it, and the block written back. */
    method WriteInodeWithoutCsum(id: nat, image: seq<u8>)
      requires InodeOnDisk(id) && |image| == inodeSize
      modifies this
      ensures disk == WriteAt(old(disk), InodeDiskPos(id, inodesPerGroup, inodeSize, inodeTableOf), image)
      ensures Valid()
    {
      var p := InodeDiskPos(id, inodesPerGroup, inodeSize, inodeTableOf);
      var block := new Block.New(p.block, disk[p.block]);
      block.WriteOffsetAs(p.offset, image);
      disk := disk[block.id := block.data[..]];
    }

    /** `read_block_group`: the descriptor's bytes from its block. */
    method ReadBlockGroup(bg: nat) returns (image: seq<u8>)
      requires Valid() && BlockGroupDiskPos(bg, descSize, firstDataBlock).block < |disk|
      ensures image == BytesAt(disk, BlockGroupDiskPos(bg, descSize, firstDataBlock), descSize)
    {
      var p := BlockGroupDiskPos(bg, descSize, firstDataBlock);
      var block := new Block.New(p.block, disk[p.block]);
      image := block.ReadOffset(p.offset, descSize);
    }

    /** `write_block_group_without_csum`: the descriptor's block is read,
        the descriptor's image written into it, and the block written
        back. */
    method WriteBlockGroupWithoutCsum(bg: nat, image: seq<u8>)
      requires Valid() && BlockGroupDiskPos(bg, descSize, firstDataBlock).block < |disk|
      requires |image| == descSize
      modifies this
      ensures disk == WriteAt(old(disk), BlockGroupDiskPos(bg, descSize, firstDataBlock), image)
      ensures Valid()
    {
      var p := BlockGroupDiskPos(bg, descSize, firstDataBlock);
      var block := new Block.New(p.block, disk[p.block]);
      block.WriteOffsetAs(p.offset, image);
      disk := disk[block.id := block.data[..]];
    }

    /** `write_super_block`: a fresh zeroed block 0 with the super block's
        image at `BASE_OFFSET`, written over block 0; the other bytes of
        block 0 become zero. */
    method WriteSuperBlock(image: seq<u8>)
      requires Valid() && BASE_OFFSET + |image| <= BLOCK_SIZE
      modifies this
      ensures disk == old(disk)[0 := Overwrite(seq(BLOCK_SIZE, _ => 0), BASE_OFFSET, image)]
      ensures Valid()
    {
      var block := new Block.New(0, seq(BLOCK_SIZE, _ => 0));
      block.WriteOffsetAs(BASE_OFFSET, image);
      disk := disk[block.id := block.data[..]];
    }
  }

  /** Writing an inode, then reading it, gives its image; any other inode
      of the same group reads as before. */
  lemma InodeWriteRead(disk: seq<seq<u8>>, id: nat, other: nat, inodesPerGroup: nat, inodeSize: nat,
                       inodeTableOf: nat -> nat, image: seq<u8>)
    requires id >= 1 && other >= 1 && other != id && inodesPerGroup > 0 && |image| == inodeSize
    requires (id - 1) / inodesPerGroup == (other - 1) / inodesPerGroup
    requires forall i :: 0 <= i < |disk| ==> |disk[i]| == BLOCK_SIZE
    requires var p := InodeDiskPos(id, inodesPerGroup, inodeSize, inodeTableOf);
      p.block < |disk| && p.offset + inodeSize <= BLOCK_SIZE
    requires var q := InodeDiskPos(other, inodesPerGroup, inodeSize, inodeTableOf);
      q.block < |disk| && q.offset + inodeSize <= BLOCK_SIZE
    ensures var p := InodeDiskPos(id, inodesPerGroup, inodeSize, inodeTableOf);
      var q := InodeDiskPos(other, inodesPerGroup, inodeSize, inodeTableOf);
      && BytesAt(WriteAt(disk, p, image), p, inodeSize) == image
      && BytesAt(WriteAt(disk, p, image), q, inodeSize) == BytesAt(disk, q, inodeSize)
  {
    var p := InodeDiskPos(id, inodesPerGroup, inodeSize, inodeTableOf);
    var q := InodeDiskPos(other, inodesPerGroup, inodeSize, inodeTableOf);
    SameGroupInodesApart(id, other, inodesPerGroup, inodeSize, inodeTableOf);
    if q.block == p.block {
      assert q.offset + inodeSize <= p.offset || p.offset + inodeSize <= q.offset;
    }
    WriteAtReadBack(disk, p, image, q, inodeSize);
  }
}
