/** The on-disk structures of easy-fs (easy-fs/src/layout.rs and
    easy-fs/src/config.rs): the super block, and the disk inode's block
    counting and block indexing. A disk inode addresses its data blocks
    through 28 direct pointers, one indirect block of 128 pointers, and one
    doubly indirect block whose 128 pointers each name an indirect block. */
module EfsLayout {
  import opened Wrappers

  const BLOCK_SIZE: nat := 512
  const BLOCK_BITS: nat := BLOCK_SIZE * 8
  const EFS_MAGIC: bv32 := 0x3b80_0001
  const INODE_DIRECT_COUNT: nat := 28
  const DIRECT_BOUND: nat := INODE_DIRECT_COUNT
  const INODE_INDIRECT1_COUNT: nat := BLOCK_SIZE / 4
  const INDIRECT1_BOUND: nat := DIRECT_BOUND + INODE_INDIRECT1_COUNT

  /** One more than the largest `u32`. */
  const U32_LIMIT: nat := 0x1_0000_0000

  class SuperBlock {
    var magic: bv32
    var totalBlocks: nat
    var inodeBitmapBlocks: nat
    var inodeAreaBlocks: nat
    var dataBitmapBlocks: nat
    var dataAreaBlocks: nat

    /** A block read from an arbitrary disk: any magic and any counts. */
    constructor (magic: bv32)
      ensures this.magic == magic && totalBlocks == 0 && inodeBitmapBlocks == 0
      ensures inodeAreaBlocks == 0 && dataBitmapBlocks == 0 && dataAreaBlocks == 0
    {
      this.magic := magic;
      totalBlocks := 0;
      inodeBitmapBlocks := 0;
      inodeAreaBlocks := 0;
      dataBitmapBlocks := 0;
      dataAreaBlocks := 0;
    }

    /** `initialize`: overwrite every field; the magic becomes EFS_MAGIC, so
        the block is valid afterwards. */
    method Initialize(totalBlocks: nat, inodeBitmapBlocks: nat, inodeAreaBlocks: nat, dataBitmapBlocks: nat, dataAreaBlocks: nat)
      modifies this
      ensures magic == EFS_MAGIC && IsValid()
      ensures this.totalBlocks == totalBlocks && this.inodeBitmapBlocks == inodeBitmapBlocks
      ensures this.inodeAreaBlocks == inodeAreaBlocks && this.dataBitmapBlocks == dataBitmapBlocks
      ensures this.dataAreaBlocks == dataAreaBlocks
    {
      magic := EFS_MAGIC;
      this.totalBlocks := totalBlocks;
      this.inodeBitmapBlocks := inodeBitmapBlocks;
      this.inodeAreaBlocks := inodeAreaBlocks;
      this.dataBitmapBlocks := dataBitmapBlocks;
      this.dataAreaBlocks := dataAreaBlocks;
    }

    /** `is_valid`: the magic number matches. */
    predicate IsValid()
      reads this
    {
      magic == EFS_MAGIC
    }
  }

  datatype DiskInodeType = File | Directory

  /** Where the pointer to a data block lives: a direct slot, a slot of the
      indirect block, or slot `inner` of the indirect block named by slot
      `outer` of the doubly indirect block. */
  datatype Location = Direct(i: nat) | InIndirect1(i: nat) | InIndirect2(outer: nat, inner: nat)

  /** The pointer slot `get_block_id` reads for data block `inner_id`. */
  function Slot(innerId: nat): (l: Location)
    ensures l.Direct? <==> innerId < INODE_DIRECT_COUNT
    ensures l.InIndirect1? <==> INODE_DIRECT_COUNT <= innerId < INDIRECT1_BOUND
  {
    if innerId < INODE_DIRECT_COUNT then Direct(innerId)
    else if innerId < INDIRECT1_BOUND then InIndirect1(innerId - INODE_DIRECT_COUNT)
    else
      var last := innerId - INDIRECT1_BOUND;
      InIndirect2(last / INODE_INDIRECT1_COUNT, last % INODE_INDIRECT1_COUNT)
  }

  /** Every slot index is inside its block, and distinct data blocks use
      distinct slots, so no two data blocks share a pointer. */
  lemma SlotsDistinct(a: nat, b: nat)
    ensures Slot(a).Direct? ==> Slot(a).i < INODE_DIRECT_COUNT
    ensures Slot(a).InIndirect1? ==> Slot(a).i < INODE_INDIRECT1_COUNT
    ensures Slot(a).InIndirect2? ==> Slot(a).inner < INODE_INDIRECT1_COUNT
    ensures Slot(a) == Slot(b) ==> a == b
  {
    if Slot(a) == Slot(b) && a >= INDIRECT1_BOUND {
      var la := a - INDIRECT1_BOUND;
      var lb := b - INDIRECT1_BOUND;
      assert la == (la / 128) * 128 + la % 128;
      assert lb == (lb / 128) * 128 + lb % 128;
    }
  }

  /** Data blocks past the direct ones are numbered in slot order: the
      doubly indirect part uses sub-block `outer` for data blocks
      156 + 128 * outer up to 156 + 128 * outer + 127. */
  lemma SlotOrder(innerId: nat)
    requires innerId >= INDIRECT1_BOUND
    ensures innerId == INDIRECT1_BOUND + Slot(innerId).outer * INODE_INDIRECT1_COUNT + Slot(innerId).inner
  {
  }

  /** `_data_blocks`: the size rounded up to whole blocks, computed in
      `u32`; the sum wraps around for sizes within 511 of 2^32. */
  function DataBlocks(size: nat): (r: nat)
    requires size < U32_LIMIT
  {
    ((size + BLOCK_SIZE - 1) % U32_LIMIT) / BLOCK_SIZE
  }

  /** Below the wrap-around, `_data_blocks` is the ceiling of size / 512:
      the fewest blocks that hold `size` bytes. */
  lemma DataBlocksCeil(size: nat)
    requires size + BLOCK_SIZE - 1 < U32_LIMIT
    ensures DataBlocks(size) * BLOCK_SIZE >= size
    ensures size > 0 ==> (DataBlocks(size) - 1) * BLOCK_SIZE < size
    ensures size == 0 <==> DataBlocks(size) == 0
  {
  }

  /** The index blocks the first `d` data blocks need: the indirect block
      once there are more than 28, the doubly indirect block once there are
      more than 156, and one indirect block under it per 128 data blocks
      past 156. */
  function IndexBlocks(d: nat): (r: nat)
  {
    (if d > DIRECT_BOUND then 1 else 0) +
    (if d > INDIRECT1_BOUND then 1 + (d - INDIRECT1_BOUND + INODE_INDIRECT1_COUNT - 1) / INODE_INDIRECT1_COUNT else 0)
  }

  /** `total_blocks` as written: the indirect-block conditions and the
      per-128 count are taken from the running total, which already
      includes the index blocks counted so far. */
  function TotalBlocksAsWritten(size: nat): (r: nat)
    requires size < U32_LIMIT
  {
    CountAsWritten(DataBlocks(size))
  }

  /** The arithmetic of `total_blocks` as written, from the number of data
      blocks. */
  function CountAsWritten(data: nat): nat
  {
    var total := data;
    var total := if total > DIRECT_BOUND then total + 1 else total;
    if total > INDIRECT1_BOUND then
      var total := total + 1;
      total + (total - INDIRECT1_BOUND + INODE_INDIRECT1_COUNT - 1) / INODE_INDIRECT1_COUNT
    else total
  }

  /** A file of exactly 156 data blocks (79872 bytes) uses the direct
      pointers and the indirect block only, 157 blocks in all; the code
      counts 159: it asks for a doubly indirect block and a sub-block that
      `get_block_id` never touches. At 284 data blocks it counts two
      sub-blocks where one holds them all. */
  lemma TotalBlocksOvercounts()
    ensures DataBlocks(79872) == 156 && Slot(155).InIndirect1?
    ensures TotalBlocksAsWritten(79872) == 159 && TotalBlocks(79872) == 157
    ensures DataBlocks(284 * 512) == 284 && Slot(283) == InIndirect2(0, 127)
    ensures TotalBlocksAsWritten(284 * 512) == 288 && TotalBlocks(284 * 512) == 287
  {
  }

  /** `total_blocks` with the conditions on the number of data blocks, as
      the index layout requires: the data blocks plus their index blocks. */
  function TotalBlocks(size: nat): (r: nat)
    requires size < U32_LIMIT
    ensures r == DataBlocks(size) + IndexBlocks(DataBlocks(size))
    ensures r >= DataBlocks(size)
  {
    var data := DataBlocks(size);
    var total := if data > DIRECT_BOUND then data + 1 else data;
    if data > INDIRECT1_BOUND then
      total + 1 + (data - INDIRECT1_BOUND + INODE_INDIRECT1_COUNT - 1) / INODE_INDIRECT1_COUNT
    else total
  }

  /** IndexBlocks counts exactly the index blocks the last data block's
      pointer path goes through: none while it is direct, the indirect
      block while it is in there, and beyond that the indirect block, the
      doubly indirect block and sub-blocks 0 to its own `outer`. */
  lemma IndexBlocksMatchSlots(d: nat)
    requires d > 0
    ensures Slot(d - 1).Direct? ==> IndexBlocks(d) == 0
    ensures Slot(d - 1).InIndirect1? ==> IndexBlocks(d) == 1
    ensures Slot(d - 1).InIndirect2? ==> IndexBlocks(d) == 2 + Slot(d - 1).outer + 1
  {
    if d - 1 >= INDIRECT1_BOUND {
      var last := d - 1 - INDIRECT1_BOUND;
      assert d - INDIRECT1_BOUND + INODE_INDIRECT1_COUNT - 1 == last + 128;
      assert (last + 128) / 128 == last / 128 + 1;
    }
  }

  /** Growing never needs fewer blocks, for both versions of the count,
      so the subtraction in `blocks_num_needed` cannot underflow below the
      wrap-around of `_data_blocks`. */
  lemma TotalBlocksMonotone(a: nat, b: nat)
    requires a <= b && b + BLOCK_SIZE - 1 < U32_LIMIT
    ensures TotalBlocks(a) <= TotalBlocks(b)
    ensures TotalBlocksAsWritten(a) <= TotalBlocksAsWritten(b)
  {
    DataBlocksMonotone(a, b);
    IndexBlocksMonotone(DataBlocks(a), DataBlocks(b));
    CountAsWrittenMonotone(DataBlocks(a), DataBlocks(b));
  }

  lemma DataBlocksMonotone(a: nat, b: nat)
    requires a <= b && b + BLOCK_SIZE - 1 < U32_LIMIT
    ensures DataBlocks(a) <= DataBlocks(b)
  {
    assert (a + 511) % U32_LIMIT == a + 511 && (b + 511) % U32_LIMIT == b + 511;
    CeilMonotone(a + 511, b + 511, 512);
  }

  lemma CountAsWrittenMonotone(x: nat, y: nat)
    requires x <= y
    ensures CountAsWritten(x) <= CountAsWritten(y)
  {
    if x > DIRECT_BOUND && x + 1 > INDIRECT1_BOUND {
      CeilMonotone(x + 2 - INDIRECT1_BOUND + 127, y + 2 - INDIRECT1_BOUND + 127, 128);
    }
  }

  lemma IndexBlocksMonotone(x: nat, y: nat)
    requires x <= y
    ensures IndexBlocks(x) <= IndexBlocks(y)
  {
    if x > INDIRECT1_BOUND {
      CeilMonotone(x - INDIRECT1_BOUND + 127, y - INDIRECT1_BOUND + 127, 128);
    }
  }

  /** Division by a positive constant is monotone. */
  lemma CeilMonotone(x: nat, y: nat, k: nat)
    requires x <= y && (k == 128 || k == 512)
    ensures x / k <= y / k
  {
    if k == 128 {
      assert x / 128 <= y / 128;
    } else {
      assert x / 512 <= y / 512;
    }
  }

  /** `blocks_num_needed`: assert the size does not shrink, then the blocks
      the larger size needs beyond those the current size has. */
  function BlocksNumNeeded(size: nat, newSize: nat): (r: Outcome<nat>)
    requires size < U32_LIMIT && newSize + BLOCK_SIZE - 1 < U32_LIMIT
    ensures r == Panics <==> newSize < size
    ensures r.Returns? ==> TotalBlocks(size) + r.value == TotalBlocks(newSize)
  {
    if newSize < size then Panics
    else
      TotalBlocksMonotone(size, newSize);
      Returns(TotalBlocks(newSize) - TotalBlocks(size))
  }

  /** What the surrounding `increase_size` keeps as the new size: nothing
      changes when the new size is smaller. */
  function IncreasedSize(size: nat, newSize: nat): (r: nat)
    ensures r >= size && r >= newSize && (r == size || r == newSize)
  {
    if newSize < size then size else newSize
  }

  /** What `decrease_size` keeps: nothing changes when the new size is not
      smaller. */
  function DecreasedSize(size: nat, newSize: nat): (r: nat)
    ensures r <= size
    ensures newSize >= size ==> r == size
    ensures newSize < size ==> r == newSize
  {
    if newSize >= size then size else newSize
  }

  /** An indirect block on the disk: the `u32` pointer in slot `slot` of
      block `block`. */
  type Disk = (nat, nat) -> nat

  class DiskInode {
    var size: nat
    var kind: DiskInodeType
    const direct: array<nat>
    var indirect1: nat
    var indirect2: nat

    ghost predicate Valid()
      reads this
    {
      direct.Length == INODE_DIRECT_COUNT
    }

    /** A disk inode with arbitrary contents. */
    constructor (kind: DiskInodeType, size: nat)
      ensures Valid() && fresh(direct) && this.kind == kind && this.size == size
    {
      this.size := size;
      this.kind := kind;
      direct := new nat[INODE_DIRECT_COUNT];
      indirect1 := 0;
      indirect2 := 0;
    }

    /** `initialize`: size 0, the given kind, and every block pointer 0. */
    method Initialize(kind: DiskInodeType)
      requires Valid()
      modifies this, direct
      ensures Valid() && size == 0 && this.kind == kind
      ensures direct[..] == seq(INODE_DIRECT_COUNT, _ => 0) && indirect1 == 0 && indirect2 == 0
    {
      var i := 0;
      while i < direct.Length
        invariant 0 <= i <= direct.Length
        invariant forall j :: 0 <= j < i ==> direct[j] == 0
      {
        direct[i] := 0;
        i := i + 1;
      }
      size := 0;
      this.kind := kind;
      indirect1 := 0;
      indirect2 := 0;
    }

    /** `is_dir` and `is_file`: exactly one of them holds. */
    predicate IsDir()
      reads this
      ensures IsDir() <==> !IsFile()
    {
      kind == Directory
    }

    predicate IsFile()
      reads this
    {
      kind == File
    }

    /** `get_block_id`: the pointer in the slot of data block `innerId` —
        a direct pointer, a slot of the indirect block, or a slot of the
        indirect block that the doubly indirect block names. An index past
        the 128 slots of the doubly indirect block panics. */
    function GetBlockId(innerId: nat, disk: Disk): (r: Outcome<nat>)
      requires Valid()
      reads this, direct
      ensures r == Panics <==> innerId >= INDIRECT1_BOUND + INODE_INDIRECT1_COUNT * INODE_INDIRECT1_COUNT
      ensures Slot(innerId).Direct? ==> r == Returns(direct[Slot(innerId).i])
      ensures Slot(innerId).InIndirect1? ==> r == Returns(disk(indirect1, Slot(innerId).i))
      ensures Slot(innerId).InIndirect2? && r.Returns? ==>
        r == Returns(disk(disk(indirect2, Slot(innerId).outer), Slot(innerId).inner))
    {
      if innerId < INODE_DIRECT_COUNT then Returns(direct[innerId])
      else if innerId < INDIRECT1_BOUND then Returns(disk(indirect1, innerId - INODE_DIRECT_COUNT))
      else
        var last := innerId - INDIRECT1_BOUND;
        if last / INODE_INDIRECT1_COUNT >= INODE_INDIRECT1_COUNT then Panics
        else
          var indirect1 := disk(indirect2, last / INODE_INDIRECT1_COUNT);
          Returns(disk(indirect1, last % INODE_INDIRECT1_COUNT))
    }
  }
}
