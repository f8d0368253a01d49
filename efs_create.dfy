/** `EasyFileSystem::create` (easy-fs/src/efs.rs): the split of a disk
    into super block, inode bitmap, inode area, data bitmap and data area,
    the clearing of every block and the writing of the super block. */
module EfsCreate {
  import opened Wrappers
  import opened EfsLayout
  import opened EfsBlockCache

  /** `size_of::<DiskInode>()`: size, kind (padded to 4 bytes), 28 direct
      pointers and the two indirect pointers, 4 bytes each. */
  const DISK_INODE_SIZE: nat := 4 + 4 + INODE_DIRECT_COUNT * 4 + 4 + 4

  /** The region sizes and where each region starts. */
  datatype Regions = Regions(
    inodeBitmapBlocks: nat, inodeAreaBlocks: nat, dataBitmapBlocks: nat, dataAreaBlocks: nat,
    inodeBitmapStart: nat, inodeAreaStart: nat, dataBitmapStart: nat, dataAreaStart: nat)

  /** The inode area holds one disk inode per inode bitmap bit, rounded up
      to whole blocks. */
  function InodeAreaBlocks(inodeBitmapBlocks: nat): (r: nat)
  {
    (inodeBitmapBlocks * BLOCK_BITS * DISK_INODE_SIZE + BLOCK_SIZE - 1) / BLOCK_SIZE
  }

  /** A disk inode is 128 bytes, four to a block, so the inode area is
      exactly 1024 blocks per inode bitmap block. */
  lemma InodeAreaExact(inodeBitmapBlocks: nat)
    ensures DISK_INODE_SIZE == 128
    ensures InodeAreaBlocks(inodeBitmapBlocks) == inodeBitmapBlocks * 1024
    ensures InodeAreaBlocks(inodeBitmapBlocks) * BLOCK_SIZE == inodeBitmapBlocks * BLOCK_BITS * DISK_INODE_SIZE
  {
    var n := inodeBitmapBlocks * 1024;
    assert inodeBitmapBlocks * BLOCK_BITS * DISK_INODE_SIZE == n * 512;
    assert (n * 512 + 511) / 512 == n;
  }

  /** The `u32` arithmetic of `create`, in the release build the rest of
      this model assumes: the `as u32` cast truncates the inode area size,
      and the sums and the subtraction `total_blocks - 1 -
      inode_total_blocks` wrap modulo 2^32. The data bitmap takes one
      block per 4097 remaining blocks, rounded up, and the data area the
      rest; that last subtraction never wraps. */
  function ComputeRegions(totalBlocks: nat, inodeBitmapBlocks: nat): (r: Regions)
    requires totalBlocks < U32_LIMIT && inodeBitmapBlocks < U32_LIMIT
    ensures r.dataBitmapBlocks <= r.dataBitmapBlocks + r.dataAreaBlocks < U32_LIMIT
    ensures r.inodeAreaBlocks < U32_LIMIT && r.dataAreaStart < U32_LIMIT
  {
    var inodeAreaBlocks := InodeAreaBlocks(inodeBitmapBlocks) % U32_LIMIT;
    var inodeTotalBlocks := (inodeBitmapBlocks + inodeAreaBlocks) % U32_LIMIT;
    var dataTotalBlocks := (totalBlocks - 1 - inodeTotalBlocks) % U32_LIMIT;
    var dataBitmapBlocks := ((dataTotalBlocks + 4096) % U32_LIMIT) / 4097;
    var dataAreaBlocks := dataTotalBlocks - dataBitmapBlocks;
    var dataBitmapStart := (1 + inodeTotalBlocks) % U32_LIMIT;
    Regions(inodeBitmapBlocks, inodeAreaBlocks, dataBitmapBlocks, dataAreaBlocks,
      1, (1 + inodeBitmapBlocks) % U32_LIMIT, dataBitmapStart, (dataBitmapStart + dataBitmapBlocks) % U32_LIMIT)
  }

  /** The disk holds the super block, the inode bitmap and the inode
      area, and the blocks left for data are 4096 short of 2^32, so none of
      the sizes wraps. */
  predicate FitsDisk(totalBlocks: nat, inodeBitmapBlocks: nat)
  {
    totalBlocks < U32_LIMIT && 1 + inodeBitmapBlocks + InodeAreaBlocks(inodeBitmapBlocks) <= totalBlocks &&
    totalBlocks + 4095 < U32_LIMIT + inodeBitmapBlocks + InodeAreaBlocks(inodeBitmapBlocks)
  }

  lemma WrapOnce(x: int)
    requires 0 <= x + U32_LIMIT && x < 0
    ensures x % U32_LIMIT == x + U32_LIMIT
  {
  }

  lemma NoWrap(x: int)
    requires 0 <= x < U32_LIMIT
    ensures x % U32_LIMIT == x
  {
  }

  /** The regions follow each other without gap or overlap — super block
      at 0, inode bitmap at 1, then the inode area, the data bitmap and the
      data area — and fill the disk exactly. The data bitmap has a bit for
      every data block, and one block fewer of it could not cover the data
      area it would leave. */
  lemma RegionsTileTheDisk(totalBlocks: nat, inodeBitmapBlocks: nat)
    requires FitsDisk(totalBlocks, inodeBitmapBlocks)
    ensures var g := ComputeRegions(totalBlocks, inodeBitmapBlocks);
      g.inodeBitmapStart == 1 &&
      g.inodeAreaStart == g.inodeBitmapStart + g.inodeBitmapBlocks &&
      g.dataBitmapStart == g.inodeAreaStart + g.inodeAreaBlocks &&
      g.dataAreaStart == g.dataBitmapStart + g.dataBitmapBlocks &&
      g.dataAreaStart + g.dataAreaBlocks == totalBlocks &&
      1 + g.inodeBitmapBlocks + g.inodeAreaBlocks + g.dataBitmapBlocks + g.dataAreaBlocks == totalBlocks &&
      g.dataBitmapBlocks * BLOCK_BITS >= g.dataAreaBlocks &&
      (g.dataBitmapBlocks > 0 ==> (g.dataBitmapBlocks - 1) * BLOCK_BITS < g.dataAreaBlocks + 1)
  {
    var g := ComputeRegions(totalBlocks, inodeBitmapBlocks);
    InodeAreaExact(inodeBitmapBlocks);
    var ia := InodeAreaBlocks(inodeBitmapBlocks);
    var dt := totalBlocks - 1 - inodeBitmapBlocks - ia;
    NoWrap(ia);
    NoWrap(inodeBitmapBlocks + ia);
    NoWrap(dt);
    NoWrap(dt + 4096);
    NoWrap(1 + inodeBitmapBlocks);
    NoWrap(1 + inodeBitmapBlocks + ia);
    NoWrap(1 + inodeBitmapBlocks + ia + (dt + 4096) / 4097);
    assert g.inodeAreaBlocks == ia;
    assert g.dataBitmapBlocks == (dt + 4096) / 4097;
    assert g.dataBitmapBlocks + g.dataAreaBlocks == dt;
    assert g.dataBitmapBlocks * 4097 >= dt;
  }

  /** The other direction: on a disk too small for the super block, the
      inode bitmap and the inode area (and with an inode area that does
      not itself wrap), the subtraction wraps and the region sizes add up
      to 2^32 blocks more than the disk has. */
  lemma SmallDiskOverruns(totalBlocks: nat, inodeBitmapBlocks: nat)
    requires totalBlocks < U32_LIMIT && inodeBitmapBlocks + InodeAreaBlocks(inodeBitmapBlocks) < U32_LIMIT
    requires totalBlocks < 1 + inodeBitmapBlocks + InodeAreaBlocks(inodeBitmapBlocks)
    ensures var g := ComputeRegions(totalBlocks, inodeBitmapBlocks);
      1 + g.inodeBitmapBlocks + g.inodeAreaBlocks + g.dataBitmapBlocks + g.dataAreaBlocks == totalBlocks + U32_LIMIT
  {
    var g := ComputeRegions(totalBlocks, inodeBitmapBlocks);
    InodeAreaExact(inodeBitmapBlocks);
    var ia := InodeAreaBlocks(inodeBitmapBlocks);
    var it := inodeBitmapBlocks + ia;
    NoWrap(ia);
    NoWrap(it);
    WrapOnce(totalBlocks - 1 - it);
    assert g.dataBitmapBlocks + g.dataAreaBlocks == totalBlocks - 1 - it + U32_LIMIT;
  }

  /** The inode area needs at least one inode per bitmap bit. */
  lemma InodeAreaHoldsEveryInode(totalBlocks: nat, inodeBitmapBlocks: nat)
    requires FitsDisk(totalBlocks, inodeBitmapBlocks)
    ensures var g := ComputeRegions(totalBlocks, inodeBitmapBlocks);
      g.inodeAreaBlocks * (BLOCK_SIZE / DISK_INODE_SIZE) == g.inodeBitmapBlocks * BLOCK_BITS
  {
    InodeAreaExact(inodeBitmapBlocks);
    NoWrap(InodeAreaBlocks(inodeBitmapBlocks));
  }

  /** `create`: compute the regions, zero every block of the disk, and
      initialise the super block with the region sizes (wrapped ones on a
      disk too small, see SmallDiskOverruns). The next step, allocating
      inode 0 for the root directory, calls `alloc_inode`, which is
      unimplemented (`todo!()`) and panics, so every call ends in a panic;
      what it has done to the disk by then is stated. */
  method Create(device: Device, superBlock: SuperBlock, totalBlocks: nat, inodeBitmapBlocks: nat) returns (r: Outcome<Regions>)
    requires device.Valid() && totalBlocks <= device.count
    requires totalBlocks < U32_LIMIT && inodeBitmapBlocks < U32_LIMIT
    modifies device, superBlock
    ensures device.Valid() && r == Panics
    ensures forall b :: 0 <= b < totalBlocks ==> device.blocks[b] == seq(BLOCK_SIZE, _ => 0 as bv8)
    ensures forall b :: totalBlocks <= b < device.count ==> device.blocks[b] == old(device.blocks[b])
    ensures var g := ComputeRegions(totalBlocks, inodeBitmapBlocks);
      superBlock.IsValid() && superBlock.totalBlocks == totalBlocks &&
      superBlock.inodeBitmapBlocks == g.inodeBitmapBlocks && superBlock.inodeAreaBlocks == g.inodeAreaBlocks &&
      superBlock.dataBitmapBlocks == g.dataBitmapBlocks && superBlock.dataAreaBlocks == g.dataAreaBlocks
  {
    var inodeAreaBlocks := ((inodeBitmapBlocks * BLOCK_BITS * DISK_INODE_SIZE + BLOCK_SIZE - 1) / BLOCK_SIZE) % U32_LIMIT;
    var inodeTotalBlocks := (inodeBitmapBlocks + inodeAreaBlocks) % U32_LIMIT;
    var dataTotalBlocks := (totalBlocks - 1 - inodeTotalBlocks) % U32_LIMIT;
    var dataBitmapBlocks := ((dataTotalBlocks + 4096) % U32_LIMIT) / 4097;
    var dataAreaBlocks := dataTotalBlocks - dataBitmapBlocks;
    var zero := seq(BLOCK_SIZE, _ => 0 as bv8);
    var blockId := 0;
    while blockId < totalBlocks
      invariant 0 <= blockId <= totalBlocks && device.Valid()
      invariant forall b :: 0 <= b < blockId ==> device.blocks[b] == zero
      invariant forall b :: blockId <= b < device.count ==> device.blocks[b] == old(device.blocks[b])
    {
      device.WriteBlock(blockId, zero);
      blockId := blockId + 1;
    }
    superBlock.Initialize(totalBlocks, inodeBitmapBlocks, inodeAreaBlocks, dataBitmapBlocks, dataAreaBlocks);
    r := Panics;
  }
}
