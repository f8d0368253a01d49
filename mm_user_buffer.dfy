/** Access to user memory from the kernel through another address space's
    page table (kernel/src/mm/mod.rs, os/src/mm/page_table.rs):
    `translated_byte_buffer` and `translated_str`, each
    proved against its specification in module UserView. The table and the
    bytes behind it reach the loops as views (`TableView`, `UserBytes`):
    one `translate` or one byte load per call, as in the source. */
module UserBuffer {
  import opened Wrappers
  import opened Address
  import opened Pte
  import opened PageTable
  import opened UserView

  /** `translated_byte_buffer(token, ptr, len)` for a user buffer, which
      lies below the sign bit of the address space. None stands for the
      panic of its `unwrap` when a page has no leaf table. */
  method TranslatedByteBuffer(mem: Memory, token: nat, ptr: nat, len: nat) returns (buffers: Option<seq<Slice>>)
    requires ptr + len <= VA_SIGN
    ensures buffers == Buffers(TableView(mem, FromToken(token)), ptr, ptr + len)
  {
    buffers := CollectSlices(TableView(mem, FromToken(token)), ptr, ptr + len);
  }

  /** The loop of `translated_byte_buffer`: one page per round, from
      `start` to the next page boundary or to `end`. */
  method CollectSlices(leaf: LeafView, ptr: nat, end: nat) returns (buffers: Option<seq<Slice>>)
    requires ptr <= end <= VA_SIGN
    ensures buffers == Buffers(leaf, ptr, end)
  {
    var start := ptr;
    var v: seq<Slice> := [];
    PrependNothing(Buffers(leaf, start, end));
    while start < end
      invariant ptr <= start
      invariant Buffers(leaf, ptr, end) == Prepend(v, Buffers(leaf, start, end))
      decreases end - start
    {
      var startVa := VirtAddrFrom(start);
      var vpn := Floor(startVa);
      var pte := leaf(vpn);
      if pte.None? {
        BuffersStep(leaf, start, end);
        return None;
      }
      var ppn := EntryPpn(pte.value);
      var endVa := Min(PageToAddr(vpn + 1), VirtAddrFrom(end));
      var slice := if PageOffset(endVa) == 0 then Slice(ppn, PageOffset(startVa), PAGE_SIZE)
        else Slice(ppn, PageOffset(startVa), PageOffset(endVa));
      assert endVa == ChunkEnd(start, end) && slice == Chunk(ppn, start, end);
      RoundStep(leaf, ptr, start, end, v);
      v := v + [slice];
      start := VirtAddrToUsize(endVa);
    }
    assert v + [] == v;
    buffers := Some(v);
  }

  /** `translated_str(token, ptr)`: read bytes through the table until a
      zero byte, reading at most `limit` of them. */
  method TranslatedStr(mem: Memory, token: nat, ram: Ram, ptr: nat, limit: nat) returns (r: StrResult)
    ensures r == ReadStr(UserBytes(mem, FromToken(token), ram), ptr, limit)
  {
    r := ReadBytes(UserBytes(mem, FromToken(token), ram), ptr, limit);
  }

  /** The loop of `translated_str`: one byte per round. */
  method ReadBytes(bytes: ByteView, ptr: nat, limit: nat) returns (r: StrResult)
    ensures r == ReadStr(bytes, ptr, limit)
  {
    var s: seq<char> := [];
    var va := ptr;
    var steps := 0;
    PrefixNothing(ReadStr(bytes, va, limit));
    while steps < limit
      invariant 0 <= steps <= limit && va == ptr + steps
      invariant ReadStr(bytes, ptr, limit) == Prefix(s, ReadStr(bytes, va, limit - steps))
    {
      ReadStrStep(bytes, va, limit - steps);
      var ch := bytes(va);
      if ch.None? {
        return Fault;
      }
      if ch.value == 0 {
        assert s + [] == s;
        return Str(s);
      }
      PrefixTwice(s, [ToChar(ch.value)], ReadStr(bytes, va + 1, limit - steps - 1));
      s := s + [ToChar(ch.value)];
      va := va + 1;
      steps := steps + 1;
    }
    r := NoTerminator;
  }
}
