/** The block cache of easy-fs (easy-fs/src/block_cache.rs): a 512-byte
    copy of one disk block with a dirty flag. Reads leave the flag alone,
    any mutable access sets it, and `sync` writes the copy back only when
    it is set. */
module EfsBlockCache {
  import opened Wrappers
  import opened EfsLayout

  /** A block device (`BlockDevice`): `count` blocks of 512 bytes. */
  class Device {
    const count: nat
    var blocks: seq<seq<bv8>>

    ghost predicate Valid()
      reads this
    {
      |blocks| == count && forall b :: 0 <= b < |blocks| ==> |blocks[b]| == BLOCK_SIZE
    }

    constructor (contents: seq<seq<bv8>>)
      requires forall b :: 0 <= b < |contents| ==> |contents[b]| == BLOCK_SIZE
      ensures Valid() && count == |contents| && blocks == contents
    {
      count := |contents|;
      blocks := contents;
    }

    /** `write_block`. */
    method WriteBlock(id: nat, data: seq<bv8>)
      requires Valid() && id < count && |data| == BLOCK_SIZE
      modifies this
      ensures Valid() && blocks == old(blocks)[id := data]
    {
      blocks := blocks[id := data];
    }
  }

  class BlockCache {
    const cache: array<bv8>
    const blockId: nat
    const device: Device
    var modified: bool

    ghost predicate Valid()
      reads this, device
    {
      cache.Length == BLOCK_SIZE && device.Valid() && blockId < device.count
    }

    /** `BlockCache::new`: load the block from the device; the copy starts
        clean. */
    constructor (blockId: nat, device: Device)
      requires device.Valid() && blockId < device.count
      ensures Valid() && fresh(cache) && this.blockId == blockId && this.device == device
      ensures cache[..] == device.blocks[blockId] && !modified
    {
      this.blockId := blockId;
      this.device := device;
      modified := false;
      var data := device.blocks[blockId];
      var c := new bv8[BLOCK_SIZE];
      var i := 0;
      while i < BLOCK_SIZE
        invariant 0 <= i <= BLOCK_SIZE
        invariant forall j :: 0 <= j < i ==> c[j] == data[j]
      {
        c[i] := data[i];
        i := i + 1;
      }
      cache := c;
    }

    /** `as_ref` / `read`: the `size` bytes of the value at `offset`; a panic
        unless they lie inside the block. The dirty flag is not touched. */
    function Read(offset: nat, size: nat): (r: Outcome<seq<bv8>>)
      requires Valid()
      reads this, device, cache
      ensures r == Panics <==> offset + size > BLOCK_SIZE
      ensures r.Returns? ==> |r.value| == size && forall i :: 0 <= i < size ==> r.value[i] == cache[offset + i]
    {
      if offset + size > BLOCK_SIZE then Panics else Returns(cache[offset..offset + size])
    }

    /** `as_mut_ref` / `modify` with a closure that stores `bytes` into the
        value at `offset`: a panic unless the value lies inside the block;
        otherwise the flag is set and only those bytes change. False stands
        for the panic. */
    method Modify(offset: nat, bytes: seq<bv8>) returns (ok: bool)
      requires Valid()
      modifies this, cache
      ensures Valid()
      ensures ok <==> offset + |bytes| <= BLOCK_SIZE
      ensures !ok ==> modified == old(modified) && cache[..] == old(cache[..])
      ensures ok ==> modified && cache[..] == old(cache[..])[..offset] + bytes + old(cache[..])[offset + |bytes|..]
    {
      if offset + |bytes| > BLOCK_SIZE {
        return false;
      }
      modified := true;
      forall i | 0 <= i < |bytes| {
        cache[offset + i] := bytes[i];
      }
      ok := true;
      assert cache[..] == old(cache[..])[..offset] + bytes + old(cache[..])[offset + |bytes|..];
    }

    /** `sync`: when dirty, clear the flag and write the copy back; when
        clean, nothing happens. Afterwards the copy is clean, so a second
        sync does nothing. */
    method Sync()
      requires Valid()
      modifies this, device
      ensures Valid() && !modified
      ensures old(modified) ==> device.blocks == old(device.blocks)[blockId := cache[..]]
      ensures !old(modified) ==> device.blocks == old(device.blocks)
    {
      if modified {
        modified := false;
        device.WriteBlock(blockId, cache[..]);
      }
    }

    /** `Drop`: a cache going away syncs first, so a dirty copy reaches the
        device. */
    method Drop()
      requires Valid()
      modifies this, device
      ensures Valid() && !modified
      ensures device.blocks == (if old(modified) then old(device.blocks)[blockId := cache[..]] else old(device.blocks))
    {
      Sync();
    }
  }
}
