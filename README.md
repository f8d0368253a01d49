# lemon-core in Dafny

A model of the core of lemon-core, a teaching kernel for 64-bit RISC-V in
two generations (`os/`, the older kernel, and `kernel/`, the current one),
of its on-disk file system easy-fs, and of the user programs that sit on
top. Where the two kernels differ, each is modelled as its own code is
written. The model covers:

- Sv39 addresses, page-table entries and the three-level page table, with
  the kernel's views of user memory (`translated_byte_buffer`,
  `translated_str`), following section 4.4 of the RISC-V Privileged
  Architecture (v1.12);
- the frame, pid and tid allocators, frame trackers, and address spaces
  (`MapArea`/`MemorySet`: push, copy of segment data, removal, recycling,
  clone, trampoline, and the layout `from_elf` builds from decoded LOAD
  segments);
- threads, processes and the older task control block: the ready queue,
  the processor slot, the pid table, suspend, block, exit with
  reparenting, fork (with a cloned address space), exec with its argument
  block, file-descriptor allocation, and signal checking and delivery;
- mutexes, semaphores, condition variables, nested interrupt masking and
  the sleep timers;
- trap classification and the system-call table, and the process, thread,
  synchronisation and file-system calls over the process record;
- easy-fs: allocation bitmaps, the super block and disk inode arithmetic,
  the block cache's dirty flag, directories and files of the inode layer
  (a directory reads as its 32-byte entries: a zero-padded name field and
  a little-endian inode number), and the region layout of `create`; the kernel's path normalisation,
  `open_file` and offset-keeping `OSInode`;
- the SPI SD-card driver's framing, responses, register decoding,
  initialisation and sector transfers, following the SD Physical Layer
  Simplified Specification; the input-event packing of the kernel and its
  decoding in the user library;
- the shells' command-line parsing and line editing, and `sleep`.

Every operation that changes state in place is a method on a class or on
the objects it is given; pure computations are functions with lemmas. A
panic of the source (`assert!`, `unwrap`, `panic!`, an index out of range)
is an explicit outcome (`Panics`, `None`, `false`) rather than a
precondition, unless a line below says otherwise. Strings are sequences of
characters. Where the source counts or stores a string's bytes
(`as_bytes`), the model either takes the bytes themselves (the `exec`
arguments) or encodes the characters with `Utf8.Encode` (the working
directory, directory entry names).

Integer arithmetic follows a release build: `u32`, `usize` and `isize`
arithmetic wraps instead of panicking on overflow. The wrap is written out
in the region sizes of `EasyFileSystem::create`, the `size - DIRENT_SIZE`
of a directory delete, the summation of the `sleep` program, the deadline
of `sys_sleep` and the inode number stored in a directory entry; the
places where the model stops short of a wrap are listed under
"## Left out", each on a line that starts with the member's name.

The source has a few defects, listed under "## Findings". Each is modelled
twice: a member that follows the code as written, with a lemma that shows
the defect on a concrete input, and a corrected member with the intended
property proved. The system-call and loader models deliberately use the
corrected members: `ThreadCalls.ThreadCreate` stores with
`ThreadCalls.Place`, `EfsLayout.BlocksNumNeeded` counts with
`EfsLayout.TotalBlocks`, `MemorySet.MemorySet.Push` copies with
`MemorySet.CopyData`, `ThreadCalls.JoinTwice` waits with
`ThreadCalls.Waittid`, and the lemmas about the shell's `cd` and program
runs are stated on `ShellArgs.Step`.

## Model

| member | source | states |
|---|---|---|
| Address.PhysAddrFrom | os/src/mm/address.rs:66-70 | keeps the low 56 bits: the result is below 2^56, differs from the input by a multiple of 2^56, and is the input itself when that fits |
| Address.PhysPageNumFrom | os/src/mm/address.rs:72-76 | keeps the low 44 bits, in the same three terms |
| Address.VirtAddrFrom | os/src/mm/address.rs:78-82 | keeps the low 39 bits, in the same three terms |
| Address.VirtPageNumFrom | os/src/mm/address.rs:84-88 | keeps the low 27 bits, in the same three terms |
| Address.VirtAddrToUsize | os/src/mm/address.rs:105-116 | an address below 2^38 is returned as is; one at or above has its low 39 bits kept and every bit from 39 to 63 set |
| Address.VirtAddrRoundTrip | os/src/mm/address.rs:78-82 | truncating the sign-extended form of a 39-bit address gives the address back, and the extension adds exactly bits 39..63 |
| Address.PageOffset | os/src/mm/address.rs:129-131 | the offset is below PAGE_SIZE |
| Address.OffsetDecomposition | os/src/mm/address.rs:129-140 | an address is its floor page number times PAGE_SIZE plus its offset; it is aligned exactly when it is a multiple of PAGE_SIZE |
| Address.Rounding | os/src/mm/address.rs:138-147 | floor <= ceil <= floor + 1, with equality exactly on aligned addresses; ceil is the least page whose start is at or above the address |
| Address.PageToAddr | os/src/mm/address.rs:166-170 | the result fits in 64 bits and is pn * PAGE_SIZE when that product fits |
| Address.AddrToPage | os/src/mm/address.rs:159-164 | defined (no panic) exactly on aligned addresses, where page * PAGE_SIZE is the address |
| Address.PageAddrRoundTrip | os/src/mm/address.rs:159-170 | page -> address -> page and aligned address -> page -> address are identities |
| Address.Indexes | os/src/mm/address.rs:239-245 | each of the three indexes is below 512 |
| Address.IndexesRecombine | os/src/mm/address.rs:239-245 | the indexes recombine into the page number modulo 2^27 |
| Address.IndexesInjective | os/src/mm/address.rs:239-245 | two page numbers below 2^27 with the same indexes are equal |
| Address.NewRange | os/src/mm/address.rs:273-276 | defined exactly when start <= end, and then holds start and end unchanged |
| Address.SimpleRangeIterator.constructor | os/src/mm/address.rs:311-316 | the iterator starts at start and still has to yield every page of the range |
| Address.SimpleRangeIterator.Next | os/src/mm/address.rs:324-332 | None at the end, else the current page and a step by one; what remains loses exactly the item returned |
| Address.Drain | os/src/mm/address.rs:287-295 | iterating a range yields start, start + 1, ..., end - 1, that is end - start items |
| Pte.EntryPpn | os/src/mm/page_table.rs:40-42 | the page number read back is below 2^44 |
| Pte.EntryRoundTrip | os/src/mm/page_table.rs:30-46 | `new(ppn, f).ppn()` is the ppn (its low 44 bits) and `new(ppn, f).flags()` is f; the word fits in 64 bits |
| Pte.FlagTestsAreBits | os/src/mm/page_table.rs:48-62 | is_valid, is_readable, is_writable and is_executable test bits 0, 1, 2 and 3 of the entry |
| Pte.NewEntryValid | os/src/mm/page_table.rs:30-50 | a new entry is valid exactly when its flags contain V, and the empty entry is invalid |
| PageTable.FromToken | os/src/mm/page_table.rs:140-146 | the root page number taken from satp is below 2^44 |
| PageTable.TokenRoundTrip | os/src/mm/page_table.rs:140-166 | a token fits in 64 bits, has mode 8 in bits 63..60, and `from_token` gives its root back |
| PageTable.TranslateVaSplits | os/src/mm/page_table.rs:154-162 | `translate_va` is defined exactly when `translate` of the floor page is, and then lands in the leaf's frame at the address's page offset |
| PageTable.WalkLevels | os/src/mm/page_table.rs:110-124 | in a tree-shaped table the frame the walk reaches at level k is a table frame of depth k |
| PageTable.ValidLeafHasFullPath | os/src/mm/page_table.rs:94-108 | a valid leaf entry means no intermediate table is missing on its path |
| PageTable.InstallFresh | os/src/mm/page_table.rs:99-103 | hanging a fresh zeroed table below an invalid entry keeps the tree shape and every page's leaf entry, and the walk through that entry now reaches the new table |
| PageTable.SetLeaf | os/src/mm/page_table.rs:126-138 | writing a page's leaf entry keeps the tree shape, makes `translate` return the new entry, and leaves the leaf of every page with other indexes unchanged |
| PageTable.PageTable.constructor | os/src/mm/page_table.rs:76-83 | one frame is taken from the allocator as a zeroed root; metadata_frames holds just it, data_frames is empty and no page is mapped |
| PageTable.PageTable.Insert | os/src/mm/page_table.rs:85-87 | data_frames gains vpn's frame and the previous one, if any, is returned; nothing else changes |
| PageTable.PageTable.Remove | os/src/mm/page_table.rs:90-92 | vpn leaves data_frames and its frame, if any, is returned; nothing else changes |
| PageTable.PageTable.FindPte | os/src/mm/page_table.rs:110-124 | the location of the leaf entry of the two-level walk, None at an invalid intermediate entry |
| PageTable.PageTable.StepDown | os/src/mm/page_table.rs:98-105 | one level: a valid entry is followed with nothing changed; an invalid one gets a fresh table from the allocator, recorded in metadata_frames, or fails exactly when no frame is free; no leaf entry changes |
| PageTable.PageTable.FindPteThenAlloc | os/src/mm/page_table.rs:94-108 | succeeds exactly when the free frames cover the missing tables, then returns vpn's leaf location and has added one metadata frame per missing table; no leaf entry changes, and nothing changes when no table is missing |
| PageTable.PageTable.Map | os/src/mm/page_table.rs:126-130 | succeeds exactly when vpn is unmapped and the tables it needs can be allocated; then `translate(vpn)` is `new(ppn, flags \| V)` and every other page's leaf is unchanged |
| PageTable.PageTable.Unmap | os/src/mm/page_table.rs:133-137 | succeeds exactly when vpn's leaf is valid; then it is the empty entry and every other page's leaf is unchanged; otherwise memory is untouched |
| PageTable.PageTable.TranslatePage | os/src/mm/page_table.rs:149-151 | the copy of vpn's leaf entry when the walk reaches a leaf table |
| PageTable.PageTable.Token | os/src/mm/page_table.rs:164-166 | `from_token` of the token is the root page number, and the mode field is 8 |
| FrameAllocator.InitSetsBounds | os/src/mm/frame_allocator.rs:49-52 | `init(l, r)` sets current to l and end to r and keeps the recycled stack; from an empty stack exactly the frames below l count as in use |
| FrameAllocator.AllocChoice | os/src/mm/frame_allocator.rs:64-73 | alloc fails exactly when nothing is recycled and current == end; a recycled frame is preferred, the most recent first; otherwise current is handed out and incremented; end never changes |
| FrameAllocator.AllocFresh | os/src/mm/frame_allocator.rs:64-73 | alloc never hands out a frame in use, the frame it hands out becomes in use and nothing else changes status; the allocator stays well formed |
| FrameAllocator.DeallocChecks | os/src/mm/frame_allocator.rs:75-84 | dealloc panics exactly on a frame at or past current or already recycled, that is one not in use; otherwise the frame is pushed and stops being in use, with the bounds untouched |
| FrameAllocator.AllocUsesOneFree | os/src/mm/frame_allocator.rs:64-73 | with current <= end, alloc fails exactly when no frame is free and otherwise uses up exactly one free frame |
| FrameAllocator.DeallocThenAlloc | os/src/mm/frame_allocator.rs:64-84 | freeing a frame and allocating again returns that frame and restores the previous state (LIFO) |
| FrameAllocator.KernelAllocatorTest | kernel/src/mm/frame_allocator.rs:125-158 | two allocations give start and start + 1; dropping the second leaves current == start + 2 and one recycled frame; the next allocation returns start + 1 and empties the stack |
| FrameAllocator.OsAllocatorTest | os/src/mm/frame_allocator.rs:122-140 | five allocations give start .. start + 4; clearing the vector recycles them in order; five more give the same frames in reverse order and empty the stack |
| FrameAllocator.BumpMany | os/src/mm/frame_allocator.rs:64-73 | n allocations with nothing recycled give current, current + 1, ..., current + n - 1 |
| FrameAllocator.PopMany | os/src/mm/frame_allocator.rs:64-73 | allocating as many frames as are recycled pops the whole stack, last pushed first |
| FrameAllocator.StackFrameAllocator.constructor | os/src/mm/frame_allocator.rs:56-62 | current = end = 0 and nothing recycled |
| FrameAllocator.StackFrameAllocator.Init | os/src/mm/frame_allocator.rs:49-52 | the new state is InitStep of the old one |
| FrameAllocator.StackFrameAllocator.Alloc | os/src/mm/frame_allocator.rs:64-73 | steps as AllocStep; a frame handed out was not in use and is in use afterwards |
| FrameAllocator.StackFrameAllocator.Dealloc | os/src/mm/frame_allocator.rs:75-84 | succeeds exactly when the frame is in use, stepping as DeallocStep; on the panic path the state is unchanged |
| FrameTracker.PhysMemory.WritePrefix | kernel/src/mm/memory_set.rs:134-147 | the frame's first bytes become the data, the rest of the page and every other frame keep their contents |
| FrameTracker.PhysMemory.CopyPage | kernel/src/mm/memory_set.rs:167-171 | the destination frame becomes a copy of the source frame; every other frame is unchanged |
| FrameTracker.FrameAlloc | os/src/mm/frame_allocator.rs:108-113 | steps the allocator as alloc; a frame handed out was not in use, is in use afterwards and is zero-filled by `FrameTracker::new`; nothing changes when none is free |
| FrameTracker.FrameDrop | os/src/mm/frame_allocator.rs:28-32 | dropping a tracker returns its frame: it succeeds exactly when the frame is in use, which it then stops being, with the bounds unchanged |
| MemorySet.NewArea | os/src/mm/memory_set.rs:61-74 | defined exactly when the floor of the start lies at or below the ceiling of the end (`VPNRange::new` panics otherwise); keeps the type and permission |
| MemorySet.NewAreaCovers | os/src/mm/memory_set.rs:61-74 | a page lies in the new area exactly when some address of [start_va, end_va) lies in that page |
| MemorySet.MapOne | os/src/mm/memory_set.rs:86-98 | an Identical page maps to the same-numbered frame and a Framed page to a fresh zero-filled frame recorded as its data frame, with the area's permission and V; it fails only where the source panics: the page was mapped before, or fewer frames are free than the missing tables plus the data frame need; other pages keep their leaves and frames |
| MemorySet.MapPages | os/src/mm/memory_set.rs:113-117 | on success every page of the area is mapped, none was mapped before, and no other page below 2^27 changed its leaf or data frame |
| MemorySet.MapAdvance | os/src/mm/memory_set.rs:113-117 | mapping one more page of the range advances "pages [start, vpn) mapped, the rest unchanged" by one page |
| MemorySet.UnmapOne | os/src/mm/memory_set.rs:102-110 | a Framed page first drops its data frame (back to the allocator), then the leaf is cleared; fails exactly when the leaf was not valid; other pages are unchanged |
| MemorySet.UnmapPages | os/src/mm/memory_set.rs:121-125 | succeeds exactly when every page of the area was mapped; then all are cleared, a Framed area's data frames are back in the allocator, an Identical area touches no frame, and no other page below 2^27 changed |
| MemorySet.UnmapAdvance | os/src/mm/memory_set.rs:121-125 | one successful unmap_one advances the unmapping progress by one page |
| MemorySet.ChunkLen | os/src/mm/memory_set.rs:133-138 | a chunk is at most a page and at most the data left, and is non-empty while data is left |
| MemorySet.EmptyDataPanics | os/src/mm/memory_set.rs:129-145 | empty data makes copy_data as written panic, though copying nothing would leave every frame as it was |
| MemorySet.CopyData | kernel/src/mm/memory_set.rs:134-147 | succeeds exactly for a Framed area whose pages reached all have leaves, and then writes the data chunk by chunk into consecutive pages from the area's start; empty data changes nothing |
| MemorySet.WriteChunks | kernel/src/mm/memory_set.rs:137-146 | the chunk loop computes CopyChunks: translate the current page, copy up to a page into its frame, step |
| MemorySet.CopyChunksDefined | kernel/src/mm/memory_set.rs:137-146 | copying succeeds when every page it reaches has a leaf |
| MemorySet.CopyChunksKeeps | kernel/src/mm/memory_set.rs:137-146 | copying leaves alone every frame that no page it reaches names |
| MemorySet.CopyChunksPlaces | kernel/src/mm/memory_set.rs:137-146 | byte j of page v ends at offset j of the frame page v names, when no later page names that frame |
| MemorySet.CopyPlacesData | kernel/src/mm/memory_set.rs:134-147 | copying into pages that name their own, distinct frames puts byte i at offset i % PAGE_SIZE of the data frame of page start + i / PAGE_SIZE |
| MemorySet.FindStart | os/src/mm/memory_set.rs:222-227 | the index of the first area starting at start_vpn; None exactly when no area starts there |
| MemorySet.PushKeepsMapped | os/src/mm/memory_set.rs:199-205 | a freshly mapped area whose pages were unmapped shares no page with the areas before, and those stay mapped |
| MemorySet.RemoveKeepsMapped | os/src/mm/memory_set.rs:221-231 | unmapping one area leaves the other areas, which share no page with it, mapped |
| MemorySet.MemorySet.NewBare | os/src/mm/memory_set.rs:152-157 | a fresh table with no page mapped, no data frames and no areas |
| MemorySet.MemorySet.Push | os/src/mm/memory_set.rs:199-205 | on success the area is appended, its pages were all unmapped before and are mapped now, every other page and every page mapped before is unchanged, and given data sits page by page from the area's first page |
| MemorySet.MemorySet.InsertFramedArea | os/src/mm/memory_set.rs:208-219 | pushes the Framed area `MapArea::new(start_va, end_va)` with no data |
| MemorySet.MemorySet.RemoveAreaWithStartVpn | os/src/mm/memory_set.rs:221-231 | with no area starting at start_vpn nothing changes; otherwise the first such area is removed from the list, its pages are cleared, its data frames return to the allocator, and no other page changes |
| MemorySet.MemorySet.RecycleDataPages | os/src/mm/memory_set.rs:234-236 | the area list becomes empty and the page table is left as it was |
| MemorySet.MemorySet.MapTrampoline | os/src/mm/memory_set.rs:239-245 | TRAMPOLINE's page, unmapped before, now translates to strampoline's frame with R, X and V; no other page changes and no area contains that page |
| MemorySet.TakeFrame | kernel/src/mm/memory_set.rs:97-102 | the Framed half of `map_one`: a frame not live before is allocated, cleared and recorded as the page's data frame; every other page keeps its frame and the table stays valid |
| MemorySet.CopyAreaPages | kernel/src/mm/memory_set.rs:165-172 | each Framed page's data frame in the copy receives the bytes of the original's frame for that page; Identical pages name one frame on both sides, so nothing changes; frames that are none of the copy's data frames, and the copy's frames for other pages, keep their bytes |
| MemorySet.CloneLeaves | kernel/src/mm/memory_set.rs:166-168 | an area mapped in both spaces gives every page a leaf on each side (the two `translate(..).unwrap()` succeed), naming the page itself for an Identical area and each side's data frame for a Framed one; no frame of the original is a data frame of the copy |
| MemorySet.CloneStep | kernel/src/mm/memory_set.rs:162-173 | one iteration over an area keeps the pages of the earlier areas copied, adds the area's own, and keeps every frame live before the clone out of the copy's data frames and with its bytes |
| MemorySet.CloneDone | kernel/src/mm/memory_set.rs:156-176 | after all areas, frames live before the clone are still live with their bytes, the original's data frames are still owned, and every Framed page of the copy sits in a frame not live before holding the original page's bytes |
| MemorySet.CloneArea | kernel/src/mm/memory_set.rs:163-172 | pushes a clone of area k into the copy and copies its pages; on success the copy is valid with areas[..k+1] and the trampoline leaf kept, and the pages of areas 0..k are copied |
| MemorySet.CloneAreas | kernel/src/mm/memory_set.rs:162-173 | the loop over the original's areas: on success the copy holds exactly the original's areas, with every Framed page copied; frames live before keep their bytes either way |
| MemorySet.MemorySet.Clone | kernel/src/mm/memory_set.rs:156-176 | the copy is a fresh valid space with the trampoline mapped R X at the top page, the same areas in the same order, and every Framed page in a fresh frame holding the original page's bytes; the original is left valid; whether the copy succeeds or fails, every frame live before stays live and keeps its bytes |
| ElfLoader.SegmentPerm | os/src/mm/memory_set.rs:340-350 | the area of a LOAD segment always has U, and has R, W and X exactly when the segment's flags do; no other bit |
| ElfLoader.LoadAreasFromHeaders | os/src/mm/memory_set.rs:335-358 | every area built is the area of one LOAD header, hence U plus exactly that header's R/W/X |
| ElfLoader.MaxEndIsLastEnd | os/src/mm/memory_set.rs:352-353 | `max_end_vpn` is the end of the LAST LOAD area pushed, not the largest end |
| ElfLoader.StackBaseGuard | os/src/mm/memory_set.rs:362-366 | below the sign bit, the user stack starts one page above the last LOAD area: at (max_end_vpn + 1) * PAGE_SIZE |
| ElfLoader.StackArea | os/src/mm/memory_set.rs:367-376 | the user stack is a Framed area with R, W and U and without X |
| ElfLoader.TrapContextArea | os/src/mm/memory_set.rs:379-387 | the trap-context area [TRAP_CONTEXT, TRAMPOLINE) is Framed with R and W, without U or X |
| ElfLoader.GuardPage | os/src/mm/memory_set.rs:362-376 | page max_end_vpn is the unmapped guard: it lies in neither the last LOAD area nor the user stack, which starts at max_end_vpn + 1 |
| ElfLoader.LoadSegments | os/src/mm/memory_set.rs:335-359 | on success the areas gained are exactly the LOAD areas in header order, each pushed with its file bytes, no valid leaf changes, and max_end_vpn is the end of the last; a reversed segment range fails |
| ElfLoader.LoadSegment | os/src/mm/memory_set.rs:337-357 | one LOAD header: its area is built and pushed with its bytes, keeping every valid leaf |
| ElfLoader.BareWithTrampoline | os/src/mm/memory_set.rs:322-324 | a fresh space with no areas and the trampoline page mapped |
| ElfLoader.PushStackAndTrap | os/src/mm/memory_set.rs:361-387 | user_stack_top = base + USER_STACK_SIZE (wrapping on 64 bits); on success the stack and the trap-context areas are appended in that order and no valid leaf changes |
| ElfLoader.OsElfAreasShape | os/src/mm/memory_set.rs:321-394 | the older kernel's areas are the LOAD areas, then the user stack, then the trap context |
| ElfLoader.OsFromElf | os/src/mm/memory_set.rs:321-394 | the space returned has exactly those areas, the trampoline mapped, and user_stack_top one guard page plus USER_STACK_SIZE above the last LOAD area |
| ElfLoader.OsUserAreas | os/src/mm/memory_set.rs:335-387 | the pushes after the trampoline append the LOAD, stack and trap-context areas and keep every valid leaf |
| ElfLoader.KernelFromElf | kernel/src/mm/memory_set.rs:340-391 | the current kernel's space has only the LOAD areas and the trampoline, and user_stack_base is one guard page above the last LOAD area |
| UserView.ChunkFacts | kernel/src/mm/mod.rs:40-55 | one round of the loop moves `start` forward, to at most the next page boundary and at most `end`; its slice starts at the page offset of `start` and stays in the page |
| UserView.BuffersDefined | kernel/src/mm/mod.rs:39-45 | the walk succeeds exactly when every page of `[ptr, ptr + len)` has a leaf entry; otherwise the `unwrap` panics |
| UserView.BuffersCover | kernel/src/mm/mod.rs:34-58 | the slices cover the buffer in order: their lengths add up to `len` (the value of `UserBuffer::len`), and slice k lies in one page, starts at the page offset of the address where the earlier slices end, and is taken from the frame that address's leaf entry names |
| UserView.LastChunk | kernel/src/mm/mod.rs:46-55 | the round that reaches `end` is the last |
| UserView.BuffersStep | kernel/src/mm/mod.rs:39-55 | one round: a page without a leaf entry fails the walk, otherwise that page's slice goes in front of the rest |
| UserView.RoundStep | kernel/src/mm/mod.rs:39-55 | the loop invariant (slices so far in front of the walk of the rest) survives a round |
| UserView.ReadStrContents | kernel/src/mm/mod.rs:61-76 | a string read returns, byte for byte, the non-zero bytes from `ptr` on and stops at the first zero byte, which it does not include |
| UserView.ReadStrFinds | kernel/src/mm/mod.rs:61-76 | the string at an address is unique, and a read with enough budget returns exactly it |
| UserView.ReadStrStep | kernel/src/mm/mod.rs:65-74 | one byte of the loop: an unmapped byte panics, a zero byte ends the string, any other byte is pushed as a character |
| UserBuffer.TranslatedByteBuffer | kernel/src/mm/mod.rs:34-58 | the slices returned are those of the walk of `[ptr, ptr + len)` through the table `token` names (os/src/mm/page_table.rs:170-195 is the same code) |
| UserBuffer.CollectSlices | kernel/src/mm/mod.rs:40-55 | the `while start < end` loop collects exactly the slices of the walk |
| UserBuffer.TranslatedStr | kernel/src/mm/mod.rs:61-76 | the string returned is the read through the table `token` names (os/src/mm/page_table.rs:197-214 is the same code) |
| UserBuffer.ReadBytes | kernel/src/mm/mod.rs:64-74 | the byte loop returns exactly the read of the string at `ptr` |
| EfsLayout.SuperBlock.Initialize | easy-fs/src/layout.rs:28-44 | every field is overwritten with the argument and the magic becomes EFS_MAGIC, so the block is valid afterwards |
| EfsLayout.Slot | easy-fs/src/layout.rs:90-113 | data block `inner_id` is reached through a direct pointer below 28, through the indirect block below 156, and through the doubly indirect block beyond |
| EfsLayout.SlotsDistinct | easy-fs/src/layout.rs:90-113 | every slot index lies inside its block, and two data blocks never share a pointer slot |
| EfsLayout.SlotOrder | easy-fs/src/layout.rs:100-111 | past the indirect block, data block 156 + 128 * outer + inner is slot `inner` of sub-block `outer` |
| EfsLayout.DataBlocksCeil | easy-fs/src/layout.rs:115-117 | below the `u32` wrap-around, `_data_blocks` is the fewest 512-byte blocks that hold `size` bytes |
| EfsLayout.TotalBlocksOvercounts | easy-fs/src/layout.rs:125-139 | at 156 data blocks the code counts 159 blocks where the layout uses 157, and at 284 data blocks 288 where it uses 287 |
| EfsLayout.TotalBlocks | easy-fs/src/layout.rs:125-139 | the corrected count: the data blocks plus the index blocks that many data blocks need, never fewer than the data blocks |
| EfsLayout.IndexBlocksMatchSlots | easy-fs/src/layout.rs:90-139 | the corrected count of index blocks is exactly the blocks the last data block's pointer path goes through |
| EfsLayout.TotalBlocksMonotone | easy-fs/src/layout.rs:125-145 | a larger size never needs fewer blocks, for the corrected count and for the count as written, so `blocks_num_needed` cannot underflow |
| EfsLayout.BlocksNumNeeded | easy-fs/src/layout.rs:142-145 | panics exactly when the new size is smaller; otherwise the blocks it returns, added to those the current size has, are those the new size needs |
| EfsLayout.IncreasedSize | easy-fs/src/vfs.rs:51-66 | `Inode::increase_size` keeps the larger of the two sizes: a smaller new size changes nothing |
| EfsLayout.DecreasedSize | easy-fs/src/vfs.rs:69-82 | `Inode::decrease_size` changes the size only when the new size is smaller |
| EfsLayout.DiskInode.Initialize | easy-fs/src/layout.rs:71-77 | size 0, the given type, every direct pointer and both indirect pointers 0 |
| EfsLayout.DiskInode.IsDir | easy-fs/src/layout.rs:80-87 | `is_dir` holds exactly when `is_file` does not |
| EfsLayout.DiskInode.GetBlockId | easy-fs/src/layout.rs:90-113 | returns the pointer in the slot of data block `inner_id` (direct, in the indirect block, or in the sub-block the doubly indirect block names), and panics exactly when the index is past the doubly indirect block's reach |
| EfsBitmap.DecompositionRoundTrip | easy-fs/src/bitmap.rs:66-72 | `decomposition` splits a bit index into (block, word, bit) with the word below 64 and the bit below 64, the global index `alloc` computes puts them back together, and every in-range triple decomposes to itself |
| EfsBitmap.SetBitOnly | easy-fs/src/bitmap.rs:35-55 | setting or clearing one bit changes that bit and no other |
| EfsBitmap.SetThenClear | easy-fs/src/bitmap.rs:35-55 | allocating a clear bit and deallocating it restores the bitmap |
| EfsBitmap.SetBeforeGlobal | easy-fs/src/bitmap.rs:24-40 | the block-by-block, word-by-word scan visits bits in global-index order |
| EfsBitmap.Bitmap.constructor | easy-fs/src/bitmap.rs:15-20 | a bitmap over `blocks` blocks from `start_block_id` |
| EfsBitmap.Bitmap.Maximum | easy-fs/src/bitmap.rs:60-62 | the bitmap holds 4096 bits per block |
| EfsBitmap.Bitmap.Alloc | easy-fs/src/bitmap.rs:23-46 | returns the smallest clear bit and sets exactly it; returns None, changing nothing, exactly when every bit is set |
| EfsBitmap.Bitmap.Dealloc | easy-fs/src/bitmap.rs:49-57 | the assertion fails exactly when the bit is clear; otherwise exactly that bit is cleared |
| EfsBitmap.TrailingOnes | easy-fs/src/bitmap.rs:32 | `trailing_ones` of a word that is not all ones is its lowest clear bit |
| EfsBlockCache.BlockCache.constructor | easy-fs/src/block_cache.rs:19-28 | the copy holds the device's block and starts clean |
| EfsBlockCache.BlockCache.Read | easy-fs/src/block_cache.rs:35-65 | panics exactly when the value runs past the 512-byte block; otherwise returns the bytes of the copy at `offset` and leaves the dirty flag alone |
| EfsBlockCache.BlockCache.Modify | easy-fs/src/block_cache.rs:45-69 | panics, changing nothing, exactly when the value runs past the block; otherwise sets the dirty flag and changes only the value's bytes |
| EfsBlockCache.BlockCache.Sync | easy-fs/src/block_cache.rs:56-61 | a dirty copy is written back to its block and the flag cleared; a clean one writes nothing; afterwards the copy is clean |
| EfsBlockCache.BlockCache.Drop | easy-fs/src/block_cache.rs:72-76 | dropping a dirty cache writes its copy back to the device |
| EfsCreate.InodeAreaExact | easy-fs/src/efs.rs:31-34 | a disk inode is 128 bytes, so the inode area is exactly 1024 blocks per inode bitmap block |
| EfsCreate.RegionsTileTheDisk | easy-fs/src/efs.rs:31-49 | on a disk large enough for the super block, the inode regions and one data bitmap block, super block, inode bitmap, inode area, data bitmap and data area follow each other without gap or overlap from block 0 and fill the disk exactly; the data bitmap has a bit for every data block and is no larger than needed |
| EfsCreate.InodeAreaHoldsEveryInode | easy-fs/src/efs.rs:32-34 | on such a disk the inode area has room for one disk inode per inode bitmap bit |
| EfsCreate.Create | easy-fs/src/efs.rs:25-91 | every block of the disk is zeroed, the blocks past it are kept, and the super block holds the region sizes as the wrapping `u32` arithmetic computes them, with the valid magic; then `alloc_inode` (`todo!()`) panics, so every call panics |
| EfsCreate.SmallDiskOverruns | easy-fs/src/efs.rs:35-37 | on a disk too small for the inode regions the `u32` subtraction wraps and the region sizes add up to 2^32 more blocks than the disk has |
| EfsCreate.ComputeRegions | easy-fs/src/efs.rs:31-40 | the region sizes and starts `create` computes are `u32` values, and the data bitmap and data area together stay below 2^32 blocks |
| Vfs.EmptyNode | easy-fs/src/vfs.rs:140 | a freshly initialised disk inode has size 0 and the requested kind |
| Vfs.NameField | user/src/fs.rs:15-19 | an entry's name field is 28 bytes |
| Vfs.NameBytes | apps/src/bin/ls.rs:48-49 | the name read back from a field is its prefix before the first zero byte, and holds no zero |
| Vfs.NameFieldRoundTrip | apps/src/bin/ls.rs:48-49 | a name of at most 27 UTF-8 bytes without NUL characters is read back from its field exactly |
| Vfs.Le32 | user/src/fs.rs:18 | the inode number's four bytes decode, little-endian, to the number cut to 32 bits |
| Vfs.EncodeEntry | user/src/fs.rs:15-21 | an entry is DIRENT_SIZE bytes: the name field, then the inode number in little-endian order |
| Vfs.EncodeEntriesChunks | apps/src/bin/ls.rs:41-46 | a directory's bytes are 32 per entry, and the i-th 32-byte chunk is the i-th entry's encoding |
| Vfs.Bytes | easy-fs/src/vfs.rs:201-204 | the bytes `read_at` reads are as many as the size field says: 32 per entry for a directory |
| Vfs.FirstEntry | easy-fs/src/vfs.rs:85-100 | the index found holds the name and no earlier entry does; none is found exactly when no entry has the name |
| Vfs.ReadAt | easy-fs/src/vfs.rs:201-204 | the bytes read are the file's bytes from the offset, cut at the end of the file; nothing at or past the end |
| Vfs.WriteBytes | easy-fs/src/vfs.rs:207-216 | the file grows to cover offset + length of the buffer and never shrinks |
| Vfs.WriteBytesContents | easy-fs/src/vfs.rs:207-216 | after a write the buffer is at the offset, the old bytes are kept elsewhere, and the gap past the old end reads as zeros |
| Vfs.WriteThenRead | easy-fs/src/vfs.rs:201-216 | reading back what was just written returns it; an empty file reads as nothing |
| Vfs.WriteBytesConcat | easy-fs/src/vfs.rs:207-216 | two writes back to back equal one write of both buffers |
| Vfs.ShrinkTo | easy-fs/src/vfs.rs:69-82 | `decrease_size` to n entries keeps the first n and does nothing when there are no more than n |
| Vfs.DeleteScanNoMatch | easy-fs/src/vfs.rs:232-243 | when no entry has the name, `delete` leaves the directory as it was |
| Vfs.DeleteScanFrom | easy-fs/src/vfs.rs:232-243 | when the first match is entry k, the scan overwrites it with the last entry and drops the last slot |
| Vfs.DeleteSwapRemove | easy-fs/src/vfs.rs:219-245 | with unique names `delete` is a swap-remove: the named entry is replaced by the last one, the directory loses one entry and the name is gone; a missing name changes nothing |
| Vfs.DeleteScanEntries | easy-fs/src/vfs.rs:225-243 | every entry left after `delete` was in the directory before, so no dangling entry appears |
| Vfs.Volume.constructor | easy-fs/src/efs.rs:75-82 | a new file system holds only the root: an empty directory at inode 0 |
| Vfs.Volume.Find | easy-fs/src/vfs.rs:85-116 | panics exactly when the inode is not a directory; otherwise returns the inode number of the first entry with the name, or None |
| Vfs.Volume.CreateInode | easy-fs/src/vfs.rs:119-169 | panics on a non-directory and returns None on a taken name, changing nothing either way; otherwise adds the new inode, empty, and appends its entry, so the directory grows by one entry (DIRENT_SIZE bytes) |
| Vfs.Volume.SetDefaultDirent | easy-fs/src/vfs.rs:248-264 | the directory has at least two entries, "." naming itself at 0 and ".." naming the parent at 1; nothing else changes |
| Vfs.Volume.CreateDir | easy-fs/src/vfs.rs:177-181 | as `create_inode` for a directory, and the new directory's entries are exactly "." and ".." |
| Vfs.Volume.Clear | easy-fs/src/vfs.rs:184-198 | the inode's contents are dropped and its size becomes 0; no other inode changes |
| Vfs.Volume.WriteAt | easy-fs/src/vfs.rs:207-216 | panics, changing nothing, exactly on a non-file; otherwise writes the buffer at the offset, growing the file, and returns the buffer's length |
| Vfs.Volume.Delete | easy-fs/src/vfs.rs:219-245 | the assertion fails exactly on a non-directory; otherwise the directory becomes the result of the delete scan, and no other inode changes |
| Vfs.DefaultDirents | easy-fs/src/vfs.rs:248-264 | "." and ".." at entries 0 and 1 in front of whatever followed the first two, at least two entries in all |
| FsPath.Split | kernel/src/fs/inode.rs:199 | `split('/')` always yields at least one piece |
| FsPath.SplitNoSlash | kernel/src/fs/inode.rs:199 | no piece of a split contains the separator |
| FsPath.JoinSplit | kernel/src/fs/inode.rs:199-211 | joining the pieces of a split with "/" gives the string back |
| FsPath.SplitJoin | kernel/src/fs/inode.rs:199-211 | splitting a join of separator-free pieces gives the pieces back |
| FsPath.SplitConcat | kernel/src/fs/inode.rs:194-199 | splitting `a + "/" + b` splits a and b independently, which is how a relative path is split after the working directory |
| FsPath.NormFromClean | kernel/src/fs/inode.rs:197-209 | the loop keeps only components that are non-empty, not "." or "..", and free of separators |
| FsPath.NormFromConcat | kernel/src/fs/inode.rs:199-209 | running the loop over two runs of pieces is running it over the first and then the second |
| FsPath.NormFromKeepsClean | kernel/src/fs/inode.rs:199-209 | clean components pass through the loop unchanged |
| FsPath.GetFullPath | kernel/src/fs/inode.rs:190-212 | the result is "/" followed by the kept components joined by "/", and those components are clean |
| FsPath.PartsOfNormalised | kernel/src/fs/inode.rs:190-212 | the components of "/" followed by clean components are those components |
| FsPath.FullPathNormalised | kernel/src/fs/inode.rs:190-212 | the result starts with "/" and normalising it again, from any working directory, leaves it unchanged |
| FsPath.FullPathRelative | kernel/src/fs/inode.rs:191-209 | a relative path is applied after the working directory's own components |
| FsPath.DescendAndClimb | kernel/src/fs/inode.rs:190-212 | from a normalised working directory a clean name descends into it and ".." climbs back out; ".." at the root stays at the root |
| FsInode.AccessModes | kernel/src/fs/inode.rs:130-149 | RDONLY is the empty flag set, so every open is readable; an open is writable exactly when WRONLY or RDWR is set |
| FsInode.Mode | kernel/src/fs/inode.rs:102-111 | REG exactly for a regular file, DIR exactly for a directory, and LNK never |
| FsInode.Walk | kernel/src/fs/inode.rs:179-187 | an inode a path walk reaches exists |
| FsInode.WalkSkipsEmpty | kernel/src/fs/inode.rs:179-187 | empty pieces (leading, trailing or doubled separators) never change where a walk ends |
| FsInode.FindInode | kernel/src/fs/inode.rs:179-187 | `find_inode` is the walk of the path's pieces from the root (os/src/fs/inode.rs:151-159 is the same code) |
| FsInode.LastSlash | kernel/src/fs/inode.rs:159 | the position found holds the last separator; none is found exactly when there is no separator |
| FsInode.ParentAndName | kernel/src/fs/inode.rs:159-162 | the name holds no separator, and parent, "/" and name put back together give the path (the name alone when there is no separator) |
| FsInode.OSInode.constructor | kernel/src/fs/inode.rs:26-32 | a new file object starts at offset 0 with the given access |
| FsInode.OSInode.SetOffset | kernel/src/fs/inode.rs:90-92 | only the offset changes |
| FsInode.OSInode.Read | kernel/src/fs/inode.rs:60-72 | the bytes delivered are the inode's bytes (a directory's encoded entries, a file's data) from the old offset on, each slice filled at most to its length, and the offset advances by their number; with no empty slice they are as many as fit or as remain |
| FsInode.OSInode.Write | kernel/src/fs/inode.rs:74-84 | panics, changing nothing, exactly when there is a slice and the inode is not a regular file; otherwise all slices land as one write at the old offset and the offset advances by their total length |
| FsInode.OSInode.ReadAll | kernel/src/fs/inode.rs:35-48 | returns the rest of the inode's bytes from the offset and leaves the offset at their end; a directory read whole yields its entries' encodings in order |
| FsInode.WriteStep | kernel/src/fs/inode.rs:77-82 | after k slices the file holds them all written at the starting offset, and the next slice lands right after them |
| FsInode.ReadStep | kernel/src/fs/inode.rs:63-70 | each slice read continues the bytes read so far, and the total follows the lengths asked for, cut at the end of the file |
| FsInode.ReadStopsAtEnd | kernel/src/fs/inode.rs:64-67 | a read that returns nothing with every slice non-empty means the file is exhausted, so the total is what remained |
| FsInode.SumPrefix | kernel/src/fs/inode.rs:63-70 | the lengths of the first k slices add up to no more than all of them |
| FsInode.OpenFile | kernel/src/fs/inode.rs:147-176 | with CREATE an existing path is opened, cleared only if it is a regular file, and a missing one is created as an empty regular file in its parent (None if the parent is missing or the name is taken); without CREATE a missing path gives None and TRUNC clears an existing one; the file object starts at offset 0, readable, and writable as the flags say |
| FsInode.OpenFileOs | os/src/fs/inode.rs:122-149 | the same as the current kernel, except that CREATE on an existing path clears it whatever it is, directories included |
| FsInode.CreateOverDirectory | os/src/fs/inode.rs:126-131 | the two generations differ on CREATE over a non-empty directory: clearing it changes the volume |
| FsCalls.Opened | kernel/src/syscall/fs.rs:262-274 | a descriptor names a file exactly when its slot exists and is filled |
| FsCalls.Getcwd | kernel/src/syscall/fs.rs:24-42 | -1, copying nothing, exactly when the working directory's UTF-8 bytes outnumber the buffer; otherwise those bytes are copied and their number returned |
| Utf8.EncodeChar | kernel/src/syscall/fs.rs:30 | a character's UTF-8 encoding has one to four bytes, and one exactly when the character is ASCII, that byte being its code |
| Utf8.EncodeLength | kernel/src/syscall/fs.rs:30-32 | a string has between one and four UTF-8 bytes per character, as many bytes as characters exactly when every character is ASCII, and then the bytes are the characters' codes |
| Utf8.EncodeNoZero | easy-fs/src/vfs.rs:150 | a name without NUL characters has no zero byte, so the zero padding of its entry marks where it ends |
| FsCalls.Dup | kernel/src/syscall/fs.rs:56-69 | -1, changing nothing, exactly when the descriptor is not open; otherwise the file goes into the lowest empty slot (or a new one at the end), no other slot changes, and that slot's number is returned |
| FsCalls.Dup2 | kernel/src/syscall/fs.rs:84-98 | -1, changing nothing, exactly when the old descriptor is past the table; otherwise the table grows with empty slots to hold the new descriptor, which gets the old slot's contents, empty included, and no other slot changes |
| FsCalls.Close | kernel/src/syscall/fs.rs:262-274 | 0 exactly when the descriptor is open, which is then emptied with no other slot changed; -1 otherwise; afterwards the descriptor is not open, so a second close fails |
| FsCalls.Read | kernel/src/syscall/fs.rs:288-308 | the read goes to the descriptor's file exactly when it is open and readable; otherwise -1 |
| FsCalls.Write | kernel/src/syscall/fs.rs:322-342 | the write goes to the descriptor's file exactly when it is open and writable; otherwise -1 |
| FsCalls.Fstat | kernel/src/syscall/fs.rs:355-383 | the status copied out is that of the descriptor's file, and -1 exactly when the descriptor is not open |
| FsCalls.Pipe | kernel/src/syscall/fs.rs:394-411 | the read end goes into the lowest empty slot and the write end into the lowest one left, so the read descriptor is the smaller; both slots were empty, every other slot below the write descriptor was open, and no open descriptor changes |
| FsCalls.Chdir | kernel/src/syscall/fs.rs:111-132 | the normalised path is walked: -1 when it is missing, -2 when it is not a directory, else it becomes the working directory and 0 is returned; a working directory set this way is absolute and normalised |
| FsCalls.Mkdir | kernel/src/syscall/fs.rs:145-165 | -1 when the parent is missing and -2 when the name is taken, changing nothing; otherwise the new directory holds "." and ".." and its entry is appended to the parent, and it is then found at the path it was made at |
| FsCalls.MadeDirectoryIsFound | kernel/src/syscall/fs.rs:145-165 | after the entry is appended under the node the parent path leads to, walking parent + "/" + name reaches the new directory |
| FsCalls.WalkToAppended | kernel/src/syscall/fs.rs:145-165 | one step from a directory whose last entry is the first with the name reaches that entry's node |
| FsCalls.AppendExtends | easy-fs/src/vfs.rs:119-169 | creating an inode only adds a node and appends an entry: every node keeps its kind and its entries as a prefix |
| FsCalls.WalkExtends | kernel/src/fs/inode.rs:179-187 | a walk that reaches a node keeps reaching it after nodes are added and entries appended |
| FsCalls.WalkConcat | kernel/src/fs/inode.rs:179-187 | walking two runs of pieces walks the first and then the second from where the first ended |
| FsCalls.Unlinked | kernel/src/syscall/fs.rs:205-213 | clearing the target and deleting its name from the parent adds and removes no inode |
| FsCalls.Unlink | kernel/src/syscall/fs.rs:182-219 | -1 when the parent or the name is missing, -2 when the kind does not match AT_REMOVEDIR, -3 for a directory whose size is not exactly two entries, changing nothing in each case; otherwise 0, with the target cleared and its entry deleted from the parent |
| FsCalls.UnlinkAt | kernel/src/syscall/fs.rs:190-219 | once the parent is found, the outcome is the one stated for `sys_unlink` |
| FsCalls.UnlinkRemovesName | kernel/src/syscall/fs.rs:205-213 | with unique names, the name is gone from the parent, which loses exactly one entry; the target is empty and keeps its kind; no other inode changes |
| FsCalls.Open | kernel/src/syscall/fs.rs:232-250 | unknown flag bits panic; a path `open_file` cannot open gives -1 with the table unchanged; otherwise the new file object goes into the lowest empty slot, whose number is returned, readable and writable as the flags say |
| TaskId.AllocIdChoice | os/src/task/id.rs:33-40 | `alloc` reuses the most recently recycled id; with none it hands out `current` and increments it |
| TaskId.AllocIdFresh | os/src/task/id.rs:33-40 | the id handed out is not in use and becomes the only new id in use, so no id has two owners at once |
| TaskId.DeallocIdChecks | os/src/task/id.rs:43-51 | the assertions fail exactly for an id not in use (never handed out, or already recycled); otherwise only that id stops being in use |
| TaskId.DeallocThenAllocId | os/src/task/id.rs:33-51 | freeing an id and allocating again gives the same id back and restores the allocator |
| TaskId.RecycleAllocator.constructor | os/src/task/id.rs:25-30 | a new allocator has handed out nothing |
| TaskId.RecycleAllocator.Alloc | os/src/task/id.rs:33-40 | the id returned is the one `alloc` picks, was not in use, and is the only new id in use (os/src/task/pid.rs:29-37 is the same allocator) |
| TaskId.RecycleAllocator.Dealloc | os/src/task/id.rs:43-51 | panics, changing nothing, exactly when the id is not in use; otherwise only that id stops being in use (os/src/task/pid.rs:39-55 is the same code) |
| TaskId.DropPidHandle | os/src/task/id.rs:18-22 | dropping a pid handle hands its pid back: it stops being in use |
| TaskId.TrapCxBottom | os/src/task/id.rs:112-114 | thread `tid`'s trap context sits `tid` pages below TRAP_CONTEXT_BASE; a thread id that reaches below address 0 underflows |
| TaskId.TrapCxDisjoint | os/src/task/id.rs:112-114 | two different threads' trap-context pages do not overlap |
| TaskId.UstackBottom | os/src/task/id.rs:116-118 | a thread's user stack never starts below the process's stack base |
| TaskId.UstacksDisjoint | os/src/task/id.rs:116-118 | the user stacks of two threads do not overlap, and a guard page separates each from the next one up |
| Manager.Manager.constructor | kernel/src/task/manager.rs:19-23 | a new ready queue is empty |
| Manager.Manager.Add | kernel/src/task/manager.rs:26-28 | the thread is appended at the tail; the rest of the queue is unchanged |
| Manager.Manager.Fetch | kernel/src/task/manager.rs:31-33 | returns the head and removes it; None, with the queue unchanged, on an empty queue |
| Manager.Manager.Remove | os/src/task/manager.rs:35-43 | drops the first entry that is the given task and keeps the others in order; a task not queued changes nothing |
| Manager.IndexOf | os/src/task/manager.rs:36-39 | the position found holds the task and no earlier entry does |
| Manager.RemoveKeepsOrder | os/src/task/manager.rs:40 | removing by position keeps the other entries in their order |
| Manager.FifoOrder | kernel/src/task/manager.rs:26-33 | tasks added to an empty queue are fetched in the order they were added, and then the queue is empty |
| Manager.Wakeup | kernel/src/task/manager.rs:48-54 | the thread is marked Ready and queued at the tail; nothing else of the thread changes |
| Manager.Pid2Process.constructor | kernel/src/task/manager.rs:37-42 | the pid table starts empty |
| Manager.Pid2Process.Get | kernel/src/task/manager.rs:61-64 | a process is found exactly for a pid in the table, and it is the one stored |
| Manager.Pid2Process.Insert | kernel/src/task/manager.rs:76-78 | the pid maps to the process afterwards and every other pid keeps its entry |
| Manager.Pid2Process.Remove | kernel/src/task/manager.rs:67-73 | panics exactly when the pid is missing; the pid is gone afterwards and every other pid keeps its entry |
| Processor.Processor.constructor | kernel/src/task/processor.rs:20-25 | a new processor has no current thread |
| Processor.Processor.TakeCurrent | kernel/src/task/processor.rs:28-30 | returns the current thread and leaves the slot empty |
| Processor.Processor.Current | kernel/src/task/processor.rs:33-35 | returns the current thread without changing the slot |
| Processor.RunTasksStep | kernel/src/task/processor.rs:88-107 | with a thread queued, the head is taken off the queue, marked Running and made current; with none nothing changes |
| Process.ZeroContext | kernel/src/task/tcb.rs:19-41 | a new thread's trap context has its 32 registers zero |
| Process.FirstFree | kernel/src/task/pcb.rs:273 | the slot found is empty and every slot before it is filled; none is found exactly when every slot is filled |
| Process.AllocFdLowest | kernel/src/task/pcb.rs:272-279 | `alloc_fd` returns the lowest empty descriptor; the table grows by one empty slot only when every slot is filled, and no open descriptor changes |
| Process.InitialFdTable | kernel/src/task/pcb.rs:51-58 | a new process has stdin at 0, stdout at 1 and stdout again as stderr at 2 |
| Process.Task.constructor | kernel/src/task/tcb.rs:19-41 | a new thread of the process is Ready, holds its tid and has no exit code |
| Process.Proc.constructor | kernel/src/task/pcb.rs:193-211 | a process record starts not a zombie, with no children, exit code 0, no pending signal, no thread and a fresh tid allocator |
| Process.Proc.AllocFd | kernel/src/task/pcb.rs:272-279 | the descriptor returned is the one `alloc_fd` picks, and it is empty |
| Process.Proc.ThreadCount | kernel/src/task/pcb.rs:281-283 | the number of thread slots |
| Process.Proc.AllocTid | kernel/src/task/pcb.rs:264-266 | the tid returned was not in use in this process and is the only new one in use |
| Process.Proc.DeallocTid | kernel/src/task/pcb.rs:268-270 | panics, changing nothing, exactly for a tid not in use; otherwise only that tid stops being in use |
| Process.FirstFreeIs | kernel/src/task/pcb.rs:273 | a scan that stops at the first empty slot finds the slot `position` names |
| TaskOps.SuspendCurrent | kernel/src/task/mod.rs:50-66 | panics exactly when no thread runs; otherwise the running thread becomes Ready and goes to the tail of the ready queue, and the processor is left without a thread |
| TaskOps.BlockCurrent | kernel/src/task/mod.rs:68-78 | the running thread becomes Blocked and leaves the processor without being queued; no thread running panics |
| TaskOps.ReparentChildren | kernel/src/task/mod.rs:121-128 | each child's parent becomes the daemon and the children are appended, in order, to the daemon's |
| TaskOps.ReleaseUserRes | kernel/src/task/mod.rs:133-146 | every thread of the process loses its user resources |
| TaskOps.KeepFirst | kernel/src/task/mod.rs:163 | `truncate(1)` keeps the first thread only |
| TaskOps.ExitCurrent | kernel/src/task/mod.rs:81-169 | the thread records its exit code and loses its tid; another thread than the main one ends there; the main thread of the idle process shuts the machine down, reporting failure for a non-zero code; the main thread of any other process removes it from the pid table (panicking if missing), makes it a zombie with the code, hands its children to the daemon, strips every thread of its user resources, and drops its children, its descriptors and every thread but the main one |
| TaskOps.TearDown | kernel/src/task/mod.rs:115-163 | the teardown of a process whose main thread exits, as stated for `exit_current_and_run_next` |
| TaskOps.NewProcess | kernel/src/task/pcb.rs:35-98 | the process gets a pid not in use, working directory "/", the three standard descriptors, no parent, and one Ready main thread with tid 0, which is registered in the pid table and queued |
| TaskOps.Fork | kernel/src/task/pcb.rs:165-245 | a parent with more than one thread slot is the failing assertion, and the other failure is a failed clone of the address space; either way pids, the task table, the manager and the children are unchanged, and every frame already in use keeps its bytes; otherwise the child gets a fresh address space with the same areas whose every framed page holds a copy of the parent's page in a frame no one used before, plus the child record of `NewChild` |
| TaskOps.Exec | kernel/src/task/pcb.rs:104-163 | fails exactly when the process is not single-threaded or its main thread has no user resources; otherwise the arguments are pushed below the main thread's stack top (see Argv) and the thread restarts at the entry point with sp at the final stack pointer, a0 = argc and a1 = argv_base |
| TaskOps.NewChild | kernel/src/task/pcb.rs:186-244 | the child gets a pid not in use, the parent as its parent, copies of the working directory and descriptor table, no pending signal, and one Ready main thread with tid 0 that is registered and queued; it is appended to the parent's children |
| OsTask.Tcb.constructor | os/src/task/control_block.rs:24-75 | a new task is Ready with no parent, no children and exit code 0; stdin, stdout, stdout as descriptors 0-2; its trap context starts at the entry point with sp at the user stack top, and the size of its image is that stack top |
| OsTask.Tcb.AllocFd | os/src/task/control_block.rs:233-240 | the descriptor returned is the lowest empty slot, and the table grows by one empty slot only when every slot is filled; the returned slot is empty |
| OsTask.Tcb.AddSignal | os/src/task/mod.rs:121-125 | the signals given become pending in addition to those already pending |
| OsTask.Tcb.KernelSignalHandler | os/src/task/mod.rs:172-190 | SIGSTOP freezes the task and clears it, a pending SIGCONT unfreezes it and is cleared, any other kernel signal marks the task killed; the signal state stays well formed |
| OsTask.Tcb.UserSignalHandler | os/src/task/mod.rs:192-219 | with a handler installed the signal becomes the one being handled, is cleared, the trap context is saved and resumes at the handler with the signal number in a0; with none, nothing changes |
| OsTask.Tcb.CheckPendingSignals | os/src/task/mod.rs:139-170 | the loop over signals 0..=MAX_SIG acts on each deliverable signal in turn and stops after the first user signal, as the scan `CheckFrom` does; status, children and descriptors do not change |
| OsTask.Tcb.HandleSignals | os/src/task/mod.rs:127-137 | the loop ends exactly when the task is not frozen or is killed, in the state `HandleFrom` gives for the signals arriving while it waits |
| OsTask.Tcb.Fork | os/src/task/control_block.rs:81-128 | a failure leaves the pid allocator as it was; otherwise the child's space is fresh and valid with the parent's areas, each framed page copied into a frame not used before, and the child record is the one `NewChild` states |
| OsTask.Tcb.Exec | os/src/task/control_block.rs:130-183 | argv sits just below the new stack top and the strings just below argv; argv[i] points at a NUL-terminated copy of argument i and argv[argc] is 0; the image size becomes the final stack pointer and the trap context holds a0 = argc and a1 = argv_base |
| OsTask.StatusExactlyOne | os/src/task/control_block.rs:215-231 | every task is exactly one of zombie, ready and running |
| OsTask.Suspend | os/src/task/mod.rs:53-69 | the running task becomes Ready, leaves the processor and joins the tail of the ready queue; with no running task the call is the panic |
| OsTask.RunTasksStep | os/src/task/processor.rs:63-83 | the head of a non-empty ready queue leaves it, becomes Running and current; with an empty queue nothing changes |
| OsTask.ReparentToInit | os/src/task/mod.rs:100-106 | every child gets the init process as parent and is appended, in order, to its children |
| OsTask.Exit | os/src/task/mod.rs:72-119 | the idle task shuts down, reporting failure for a non-zero code; any other task leaves the pid table (a panic when absent), becomes a zombie with the exit code, has no children left, and its children join the init process |
| Argv.UserStack.constructor | kernel/src/task/pcb.rs:127-150 | the stack starts with no words and no bytes written |
| Argv.StringsSizeMono | kernel/src/task/pcb.rs:141-142 | the bytes taken by the strings grow with the number of arguments pushed |
| Argv.ArgvWordsHold | kernel/src/task/pcb.rs:130-143 | the argv words written are exactly argv[argc] and argv[0..n], each at argv_base + 8k, holding the string's address or 0 for argv[argc] |
| Argv.WriteCString | kernel/src/task/pcb.rs:144-149 | the argument's bytes followed by a NUL lie at the address given; no byte outside that window changes |
| Argv.CStringKept | kernel/src/task/pcb.rs:141-150 | a string stored wholly above a write window survives the write |
| Argv.StringsKept | kernel/src/task/pcb.rs:141-150 | a round of the loop that writes only below the stack pointer leaves the earlier arguments' strings in place |
| Argv.FrameCompose | kernel/src/task/pcb.rs:141-150 | two writes that each keep the bytes outside their own window keep those outside the joined window |
| Argv.PushArg | kernel/src/task/pcb.rs:142-149 | one round lowers the stack pointer by the argument's length plus one, stores that address in argv[i] and copies the argument with its NUL there, touching no byte outside |
| Argv.PushArgs | kernel/src/task/pcb.rs:128-150 | argv of argc + 1 words ends at the stack top; below it lie the strings, first argument highest; each argv[i] points at its NUL-terminated argument and argv[argc] is 0; bytes outside the block keep their values |
| Argv.AppInitContext | kernel/src/task/pcb.rs:153-159 | the initial trap context has every register 0 except sp, which is the user stack pointer, and starts at the entry point |
| Argv.ExecContext | kernel/src/task/pcb.rs:153-162 | exec's trap context has sp at the final stack pointer, a0 = argc, a1 = argv_base, all other registers 0, and starts at the entry point |
| Argv.ExecContextExtendsInit | kernel/src/task/pcb.rs:153-161 | exec's context is the initial context with only a0 and a1 changed |
| Argv.ArgvWordsFirst | kernel/src/task/pcb.rs:140 | storing argv[argc] = 0 starts the slot map |
| Argv.ArgvWordsStep | kernel/src/task/pcb.rs:143 | storing argv[n] extends the slot map by exactly that slot |
| Argv.ArgvReadBack | kernel/src/task/pcb.rs:127-150 | reading the block back, argv[argc] is 0 and each argv[i] points between the final stack pointer and argv_base at a NUL-terminated copy of argument i |
| OsTask.Tcb.NewChild | os/src/task/control_block.rs:86-127 | the child has a pid no live task holds, is Ready, has the caller as parent, no children, exit code 0, the parent's image size, descriptor table and trap context; it is appended to the parent's children |
| Signals.Toggle | os/src/task/signal.rs:161 | `^=` with one signal removes it when pending and adds it otherwise |
| Signals.KernelAddSignal | kernel/src/task/signal.rs:39-43 | adding flags keeps every flag already pending, makes the added ones pending, and adding them again changes nothing |
| Signals.CheckErrorLowestPending | os/src/task/signal.rs:47-63 | `check_error` reports the lowest-numbered pending error signal n (SIGINT, SIGILL, SIGABRT, SIGFPE, SIGKILL, SIGSEGV) as exit code -n, and nothing exactly when none of them is pending |
| Signals.KernelSignalSet | kernel/src/task/signal.rs:4-13 | the current kernel's flags name only error signals, and never SIGKILL |
| Signals.CheckErrorsAgree | kernel/src/task/signal.rs:16-30 | the current kernel's `check_error` gives what the older one gives on the same signals, and never reports SIGKILL |
| Signals.SingleErrorCodes | tests/src/bin/run_tests.rs:24-30 | a lone SIGILL, SIGABRT or SIGSEGV gives the exit codes -4, -6 and -11 the test table expects, in both kernels |
| Signals.DefaultAction | os/src/task/signal.rs:75-82 | the default action has no handler and blocks SIGQUIT and SIGTRAP (bits 40) |
| Signals.DefaultActions | os/src/task/signal.rs:90-96 | the default table holds MAX_SIG + 1 default actions |
| Signals.KernelHandler | os/src/task/signal.rs:155-173 | SIGSTOP freezes the task and clears SIGSTOP; a pending SIGCONT is cleared and unfreezes it, an absent one changes nothing; any other kernel signal kills the task |
| Signals.UserHandler | os/src/task/signal.rs:175-202 | with a handler installed the signal becomes the one handled and is cleared, the trap context is backed up and resumes at the handler with the signal number in a0, nothing else changes; with handler 0 nothing changes |
| Signals.KernelHandlerKeepsValid | os/src/task/signal.rs:155-173 | the kernel handlers keep the action table, the handled signal and the mask |
| Signals.CheckFrom | os/src/task/signal.rs:122-153 | the scan of pending signals keeps the signal state well formed |
| Signals.NothingDeliverable | os/src/task/signal.rs:122-153 | when no pending signal is deliverable the scan changes nothing |
| Signals.StopsAtFirstUserSignal | os/src/task/signal.rs:145-149 | when the first deliverable signal is a user signal, the scan runs its handler and nothing else |
| Signals.SkipUndeliverable | os/src/task/signal.rs:127-133 | signals not pending, masked by the task, or masked by the action being handled are passed over |
| Signals.MaskedStaysPending | os/src/task/signal.rs:127 | a signal in the task's mask is not acted on: with nothing else deliverable, it is still pending after the scan |
| Signals.StopThenCont | os/src/task/signal.rs:155-168 | a lone SIGSTOP freezes the task and is consumed; a SIGCONT arriving afterwards unfreezes it and is consumed |
| Signals.HandleFrom | os/src/task/signal.rs:104-114 | the loop ends only when the task is not frozen or is killed; while it has not ended the task is frozen and alive |
| IntrMasking.IntrMaskingInfo.constructor | kernel/src/sync/up.rs:39-44 | masking starts at nesting level 0 with nothing remembered, the interrupt bit as found |
| IntrMasking.IntrMaskingInfo.Enter | kernel/src/sync/up.rs:46-55 | interrupts are off and the level is one deeper; the outermost enter remembers the interrupt bit it found, inner ones keep what was remembered |
| IntrMasking.IntrMaskingInfo.Exit | kernel/src/sync/up.rs:57-64 | one level up; leaving the outermost level turns interrupts back on exactly when they were on before it, inner levels keep them off; an exit at level 0 is the usize underflow |
| IntrMasking.Session | kernel/src/sync/up.rs:46-64 | k enters followed by k exits from the unmasked state leave the interrupt bit as it was, with interrupts off in between |
| IntrMasking.IntrFreeCell.constructor | kernel/src/sync/up.rs:76-80 | the cell holds the value and is not borrowed |
| IntrMasking.IntrFreeCell.ExclusiveAccess | kernel/src/sync/up.rs:83-86 | interrupts are masked one level deeper, and the borrow succeeds exactly when the cell was not already borrowed (else the `RefCell` panic) |
| IntrMasking.IntrFreeCell.DropGuard | kernel/src/sync/up.rs:98-103 | the value is given back and one masking level is left |
| Mutex.SpinMutex.constructor | kernel/src/sync/mutex.rs:23-27 | a new spin mutex is free |
| Mutex.SpinMutex.LockRound | kernel/src/sync/mutex.rs:32-43 | a free mutex is taken and nothing else changes; a taken one sends the caller Ready to the tail of the ready queue, or panics when no thread runs; afterwards the mutex is taken |
| Mutex.SpinMutex.Unlock | kernel/src/sync/mutex.rs:46-49 | the mutex is free, whoever calls |
| Mutex.BlockingMutex.constructor | kernel/src/sync/mutex.rs:64-73 | a new blocking mutex is free with nobody waiting |
| Mutex.BlockingMutex.Lock | kernel/src/sync/mutex.rs:78-87 | a free mutex is taken with nobody waiting; a taken one appends the running thread to the wait queue and blocks it, or panics with no running thread; nobody waits for a free mutex |
| Mutex.BlockingMutex.Unlock | kernel/src/sync/mutex.rs:90-98 | unlocking a free mutex is the failing assert; with waiters the first one is woken to the tail of the ready queue and the mutex stays locked for it; with none it becomes free |
| Mutex.HandOffOrder | kernel/src/sync/mutex.rs:78-98 | the mutex passes to waiters first come, first served: t2 then t3 are woken in the order they blocked, and it is free after the last unlock |
| Semaphore.Semaphore.constructor | kernel/src/sync/semaphore.rs:17-26 | a new semaphore holds `res_count` resources and nobody waits |
| Semaphore.Semaphore.Up | kernel/src/sync/semaphore.rs:28-36 | the count goes up by one; when it was negative the first waiter leaves the queue and is woken to the tail of the ready queue, otherwise nobody waits and nobody is woken; a negative count stays minus the number of waiters |
| Semaphore.Semaphore.Down | kernel/src/sync/semaphore.rs:38-46 | the count goes down by one; with no resource left the running thread joins the tail of the queue and blocks, or panics when no thread runs; with one left nothing else changes |
| Semaphore.BinarySemaphore | kernel/src/sync/semaphore.rs:28-46 | with one resource, a second taker blocks until the first gives it back, is then woken, and the count is back to 0 |
| Semaphore.Condvar.constructor | kernel/src/sync/condvar.rs:16-24 | a new condition variable has nobody waiting |
| Semaphore.Condvar.Signal | kernel/src/sync/condvar.rs:26-31 | the first waiter, if any, leaves the queue and is woken to the tail of the ready queue; with none nothing changes |
| Semaphore.Condvar.Wait | kernel/src/sync/condvar.rs:33-38 | the blocking mutex is released (passing to its first waiter, if any) and the running thread joins the tail of the condvar's queue and blocks; a mutex not held or no running thread is a panic |
| Semaphore.Condvar.WaitSpin | kernel/src/sync/condvar.rs:33-38 | with a spin mutex the flag is cleared and the running thread joins the tail of the queue and blocks, or panics when no thread runs |
| SyncCalls.InstallLowest | kernel/src/syscall/sync.rs:56-66 | creation hands out the lowest empty slot, or the next index when none is empty; that slot holds the new object, every other slot is kept, and the table grows only when it was full |
| SyncCalls.Install | kernel/src/syscall/sync.rs:56-66 | the position search and the slot assignment or push compute the slot-table step `InstallStep` |
| SyncCalls.Lookup | kernel/src/syscall/sync.rs:88-97 | an id names an object exactly when it is within the table and its slot is filled, and then it names that slot's object |
| SyncCalls.SyncTables.constructor | kernel/src/syscall/sync.rs:46-66 | a process starts with empty mutex, semaphore and condition-variable tables |
| SyncCalls.SyncTables.MutexCreate | kernel/src/syscall/sync.rs:46-67 | a fresh unlocked mutex, blocking exactly when asked, with nobody waiting, goes into the lowest empty slot, whose index is returned |
| SyncCalls.SyncTables.MutexLock | kernel/src/syscall/sync.rs:84-98 | with no current thread the call is the `unwrap` panic and nothing changes; otherwise -1 exactly when the id names no mutex, and then nothing changes; otherwise 0, with the mutex locked after its `lock` |
| SyncCalls.SyncTables.MutexUnlock | kernel/src/syscall/sync.rs:114-128 | -1 exactly when the id names no mutex; otherwise 0, a spin mutex is free afterwards, and a blocking one's `unlock` fails exactly when it was not locked |
| SyncCalls.SyncTables.SemaphoreCreate | kernel/src/syscall/sync.rs:143-160 | a fresh semaphore with `res_count` resources and no waiter goes into the lowest empty slot |
| SyncCalls.SyncTables.SemaphoreUp | kernel/src/syscall/sync.rs:176-190 | -1 exactly when the id names no semaphore; otherwise 0 and its count goes up by one |
| SyncCalls.SyncTables.SemaphoreDown | kernel/src/syscall/sync.rs:206-220 | -1 exactly when the id names no semaphore; otherwise 0 and its count goes down by one |
| SyncCalls.SyncTables.CondvarCreate | kernel/src/syscall/sync.rs:230-247 | a fresh condition variable with no waiter goes into the lowest empty slot |
| SyncCalls.SyncTables.CondvarSignal | kernel/src/syscall/sync.rs:262-276 | -1 exactly when the id names no condition variable; otherwise 0 and its first waiter, if any, leaves the queue |
| SyncCalls.SyncTables.CondvarWait | kernel/src/syscall/sync.rs:297-315 | -1 exactly when either id names nothing, and then nothing changes; otherwise 0, the mutex is released (a spin mutex is free; a blocking mutex passes to its first waiter, or is free when none waits), and the running thread joins the condition variable's queue and blocks; a blocking mutex that was not held, or no running thread, is the failure |
| SyncCalls.Expiry | kernel/src/syscall/sync.rs:26 | the deadline is now + ms reduced modulo 2^64: below 2^64, never later than now + ms, and equal to it when the sum fits in a usize |
| SyncCalls.Sleep | kernel/src/syscall/sync.rs:25-31 | a timer for the running thread at the wrapped deadline now + ms joins the heap and the thread blocks, returning 0; with no running thread the `unwrap` panics and the heap is unchanged |
| SyncCalls.SleepThenWake | kernel/src/timer.rs:70-81 | a thread sleeping ms milliseconds from t0 is Ready at the tail of the ready queue after any timer check whose millisecond count has reached t0's plus ms |
| Timer.GetTimeMs | kernel/src/timer.rs:23-25 | the milliseconds are the whole number of ticks-per-millisecond the tick count holds |
| Timer.NextTrigger | kernel/src/timer.rs:28-30 | the next timer interrupt is set after the present time |
| Timer.TimeMsMonotone | kernel/src/timer.rs:23-30 | the millisecond clock never goes back, and the next interrupt comes exactly 10 ms of it later |
| Timer.Insert | kernel/src/timer.rs:64-67 | pushing adds exactly the new entry to the heap's entries |
| Timer.InsertSorted | kernel/src/timer.rs:46-56 | pushing keeps the entries in the order the heap hands them out, earliest deadline first |
| Timer.Tasks | kernel/src/timer.rs:33-36 | the threads of a run of entries, one per entry, in order |
| Timer.Timers.constructor | kernel/src/timer.rs:58-61 | no thread sleeps at first |
| Timer.Timers.AddTimer | kernel/src/timer.rs:64-67 | the heap gains exactly the thread with its deadline and stays ordered |
| Timer.Timers.CheckTimer | kernel/src/timer.rs:70-81 | the entries removed are exactly the leading ones due by now, in deadline order, and their threads join the ready queue Ready in that order; every entry left is due later |
| Timer.WakeDue | kernel/src/timer.rs:73-80 | the loop wakes the threads of the leading entries due by now, in order, and stops at the first entry due later |
| Timer.DueLater | kernel/src/timer.rs:73-79 | in the heap's order, everything after the first entry due later than now is due later too |
| Timer.TasksPrefix | kernel/src/timer.rs:75 | waking one more entry adds its thread at the end of those woken |
| ThreadCalls.ResizeWith | kernel/src/syscall/thread.rs:49 | `resize_with` leaves exactly n entries: the first ones kept, the new ones the filler |
| ThreadCalls.PlaceAsWrittenDropsThreads | kernel/src/syscall/thread.rs:49-50 | storing a recycled tid below the highest in use shrinks the thread table to tid + 1 entries, so it differs from storing at tid whenever the last slot held a thread |
| ThreadCalls.PlaceAsWrittenLosesThreadTwo | kernel/src/syscall/thread.rs:49-50 | with threads 0 and 2 live and tid 1 recycled, creating a thread leaves the table as [0, 1]: thread 2 is lost from it |
| ThreadCalls.PlaceKeepsThreads | kernel/src/syscall/thread.rs:49-50 | storing at tid as intended puts the thread there, keeps every other slot and adds only empty ones |
| ThreadCalls.PlaceAgreesAtTheTop | kernel/src/syscall/thread.rs:49-50 | the code as written and the intended store agree for a tid at or past the highest in use |
| ThreadCalls.ThreadCreate | kernel/src/syscall/thread.rs:25-62 | a fresh Ready thread with a tid no live thread holds joins the ready queue and the thread table at its tid, starts at the entry on its own user stack top with a0 = arg, and its tid is returned; a caller without resources is the panic and changes nothing |
| ThreadCalls.WaittidAsWritten | kernel/src/syscall/thread.rs:94-124 | a tid at or past the end of the thread table (other than the caller's) panics on the unchecked index; every other tid behaves as documented |
| ThreadCalls.Waittid | kernel/src/syscall/thread.rs:94-124 | -1 for the caller itself or a thread that does not exist; an exited thread's exit code, its slot emptied; -2 for a thread still running, nothing changed |
| ThreadCalls.JoinTwice | kernel/src/syscall/thread.rs:116-119 | once an exited thread has been joined, waiting for it again gives -1 |
| ProcessCalls.FirstZombie | kernel/src/syscall/process.rs:153-157 | the index found is a matching zombie child with none before it, and nothing is found exactly when no child is a matching zombie |
| ProcessCalls.FirstZombieIs | kernel/src/syscall/process.rs:153-157 | a scan that stops at the first matching zombie finds the index `FirstZombie` names |
| ProcessCalls.Waitpid | kernel/src/syscall/process.rs:139-172 | -1 exactly when no child matches; -2 exactly when some match but none is a zombie; otherwise the first matching zombie leaves the children, its exit code is written back and its pid returned |
| ProcessCalls.FindMatch | kernel/src/syscall/process.rs:145-152 | the index of the first matching child, or the number of children when none matches |
| ProcessCalls.FindZombie | kernel/src/syscall/process.rs:153-158 | the index of the first matching zombie, or the number of children when there is none |
| ProcessCalls.ReapTwice | kernel/src/syscall/process.rs:158-167 | once a child with a unique pid is reaped, waiting for that pid again gives -1 |
| ProcessCalls.Kill | kernel/src/syscall/process.rs:185-196 | 0 exactly when the pid is in the table and every bit of the mask names a signal, and then the mask is ORed into its pending signals; otherwise -1 and nothing changes |
| ProcessCalls.KillEffect | kernel/src/syscall/process.rs:188 | sending the same mask twice leaves what one send leaves, and a non-empty accepted mask makes `check_error` report an error |
| ProcessCalls.Fork | kernel/src/syscall/process.rs:66-78 | a multi-threaded caller (the failing assertion) or a failed clone gives no pid and leaves the pid and task tables unchanged; otherwise the parent gets the child's pid, which is new and now in the pid table; the child has the caller as parent, one thread resuming from the caller's trap context with a0 = 0, and joins the caller's children |
| ProcessCalls.ArgsUntilNull | kernel/src/syscall/process.rs:103-114 | the argument collection ends exactly when a null pointer is found |
| ProcessCalls.ArgsUntilNullIs | kernel/src/syscall/process.rs:103-114 | the collected arguments are exactly the strings behind the pointers before the first null one |
| ProcessCalls.Exec | kernel/src/syscall/process.rs:94-125 | the arguments are the strings before the first null pointer; the call returns argc when the program is found and -1 otherwise |
| SyscallTable.AsU32 | kernel/src/syscall/mod.rs:70-72 | `as u32` keeps a word that fits in 32 bits unchanged |
| SyscallTable.AsI32 | kernel/src/syscall/mod.rs:78 | `as i32` gives the value congruent to the word modulo 2^32 |
| SyscallTable.AsIsize | kernel/src/syscall/mod.rs:86 | `as isize` reads the word as itself or as itself minus 2^64 |
| SyscallTable.ToWord | kernel/src/syscall/mod.rs:86 | a signed value goes into a register as itself or plus 2^64 |
| SyscallTable.Args | kernel/src/syscall/mod.rs:64-102 | every call is placed in exactly three argument registers |
| SyscallTable.DispatchRoundTrip | kernel/src/syscall/mod.rs:64-102 | every call placed in the registers under its own number reaches its handler with the same arguments: the numbers are pairwise distinct and the casts undo the encoding |
| SyscallTable.RoundTripBelow | kernel/src/syscall/mod.rs:64-102 | the round trip holds for the calls numbered below each split point of the table |
| SyscallTable.DispatchKnown | kernel/src/syscall/mod.rs:64-103 | `syscall` panics exactly on numbers the table lacks, and otherwise calls the handler with that number |
| SyscallTable.KnownFileCalls | kernel/src/syscall/mod.rs:66-78 | the same for the numbers below 100 |
| SyscallTable.KnownProcessCalls | kernel/src/syscall/mod.rs:79-86 | the same for the numbers from 100 to 999 |
| SyscallTable.KnownThreadCalls | kernel/src/syscall/mod.rs:87-92 | the same for the numbers from 1000 to 1019 |
| SyscallTable.KnownSyncCalls | kernel/src/syscall/mod.rs:93-98 | the same for the numbers from 1020 to 1999 |
| SyscallTable.KnownDeviceCalls | kernel/src/syscall/mod.rs:99-102 | the same for the numbers from 2000 on |
| SyscallTable.EncodingInjective | kernel/src/syscall/mod.rs:64-102 | two calls with the same number and the same registers are the same call |
| Trap.DecodeScause | kernel/src/trap/mod.rs:34-41 | the top bit of scause tells an interrupt from an exception, and the code is below it |
| Trap.EncodeScause | kernel/src/trap/mod.rs:34-41 | a cause is written as a 64-bit scause value |
| Trap.ScauseRoundTrip | kernel/src/trap/mod.rs:34-41 | decoding inverts encoding and encoding inverts decoding |
| Trap.KernelUserTrap | kernel/src/trap/mod.rs:39-89 | an environment call is a system call; access and page faults raise SIGSEGV; an illegal instruction raises SIGILL; the timer preempts after waking sleepers; an external interrupt goes to the devices; nothing exits directly |
| Trap.OsUserTrap | os/src/trap/mod.rs:45-92 | an environment call is a system call; faults exit with -2; an illegal instruction exits with -3; the timer only preempts; nothing raises a signal and device interrupts are unsupported |
| Trap.KernelsAgreeOnSyscallsAndTimer | kernel/src/trap/mod.rs:39-89 | both kernels route system calls and the timer alike, and every cause the older one supports the current one supports too |
| Trap.KernelTrapFromKernel | kernel/src/trap/mod.rs:128-147 | in the kernel, a timer interrupt re-arms the timer and wakes sleepers without rescheduling, an external interrupt goes to the devices, and any other cause panics |
| Trap.AsUsize | kernel/src/trap/mod.rs:51 | a negative result wraps to 2^64 plus the result; a non-negative one is kept |
| Trap.AfterSyscall | kernel/src/trap/mod.rs:41-52 | after a system call the ecall is stepped over and a0 holds the result, every other register kept; a call that replaced the context resumes from the new one with a0 set likewise |
| Trap.PostTrapExit | kernel/src/trap/mod.rs:91-94 | after a user trap the thread exits exactly when an error signal is pending, with that signal's code |
| Trap.FaultExitCodes | kernel/src/trap/mod.rs:53-72 | a memory fault ends the thread with -11 in the current kernel and -2 in the older one; an illegal instruction with -4 and -3 |
| Trap.KernelOrSegv | kernel/src/trap/mod.rs:60-67 | with no error signal pending, raising SIGSEGV makes `check_error` report SIGSEGV's -11 |
| Trap.KernelOrIll | kernel/src/trap/mod.rs:69-72 | with no error signal pending, raising SIGILL makes `check_error` report SIGILL's -4 |
| SdCard.Code | kernel/src/drivers/block/sdcard.rs:36-67 | every command index fits in the six index bits of a command byte |
| SdCard.Take | kernel/src/drivers/block/sdcard.rs:176-189 | `read_data` into k bytes yields exactly k bytes, 0xFF once the card has nothing more to send |
| SdCard.CmdFrame | kernel/src/drivers/block/sdcard.rs:198-216 | a command frame is six bytes |
| SdCard.CmdFrameFields | kernel/src/drivers/block/sdcard.rs:202-215 | the frame's first byte has start bit 0 and transmission bit 1 over the command index, bytes 1-4 are the argument big-endian and byte 5 the CRC |
| SdCard.CommandByte | kernel/src/drivers/block/sdcard.rs:204 | `cmd \| 0x40` keeps the index in the low six bits and sets the top two to 01 |
| SdCard.ArgumentBytes | kernel/src/drivers/block/sdcard.rs:206-212 | the four argument bytes read back big-endian give the argument |
| SdCard.ResponseIsFirstNonIdle | kernel/src/drivers/block/sdcard.rs:232-246 | the response is the first byte other than 0xFF among the first 0x0FFF read, 0xFF exactly when there is none, and the reads consume the bytes up to it and nothing after |
| SdCard.ResponseConsumes | kernel/src/drivers/block/sdcard.rs:236-243 | the reads consume a prefix of the input, ending at the response when there is one, after only 0xFF bytes |
| SdCard.ResponseFound | kernel/src/drivers/block/sdcard.rs:236-245 | a response other than 0xFF comes back exactly when a non-idle byte lies within the timeout |
| SdCard.DataAcceptedToken | kernel/src/drivers/block/sdcard.rs:261-264 | the mask test `& 0x1F == 0x05` accepts exactly the data response tokens with status 010, "data accepted" |
| SdCard.CsdStructure | kernel/src/drivers/block/sdcard.rs:304 | CSD_STRUCTURE is register bits 127-126 |
| SdCard.CsdTaac | kernel/src/drivers/block/sdcard.rs:308 | TAAC is register bits 119-112 |
| SdCard.CsdNsac | kernel/src/drivers/block/sdcard.rs:310 | NSAC is register bits 111-104 |
| SdCard.CsdMaxBusClkFrec | kernel/src/drivers/block/sdcard.rs:312 | TRAN_SPEED is register bits 103-96 |
| SdCard.CsdCardComdClasses | kernel/src/drivers/block/sdcard.rs:314 | CCC is register bits 95-84 |
| SdCard.CsdRdBlockLen | kernel/src/drivers/block/sdcard.rs:316 | READ_BL_LEN is register bits 83-80 |
| SdCard.CsdPartBlockRead | kernel/src/drivers/block/sdcard.rs:318 | READ_BL_PARTIAL is register bit 79 |
| SdCard.CsdWrBlockMisalign | kernel/src/drivers/block/sdcard.rs:319 | WRITE_BLK_MISALIGN is register bit 78 |
| SdCard.CsdRdBlockMisalign | kernel/src/drivers/block/sdcard.rs:320 | READ_BLK_MISALIGN is register bit 77 |
| SdCard.CsdDsrImpl | kernel/src/drivers/block/sdcard.rs:321 | DSR_IMP is register bit 76 |
| SdCard.CsdDeviceSize | kernel/src/drivers/block/sdcard.rs:325-327 | `device_size` is the 22-bit C_SIZE, register bits 69-48 |
| SdCard.CsdEraseGrSize | kernel/src/drivers/block/sdcard.rs:329 | ERASE_BLK_EN is register bit 46 |
| SdCard.CsdEraseGrMul | kernel/src/drivers/block/sdcard.rs:331 | SECTOR_SIZE is register bits 45-39 |
| SdCard.CsdWrProtectGrSize | kernel/src/drivers/block/sdcard.rs:333 | WP_GRP_SIZE is register bits 38-32 |
| SdCard.CsdWrProtectGrEnable | kernel/src/drivers/block/sdcard.rs:335 | WP_GRP_ENABLE is register bit 31 |
| SdCard.CsdWrSpeedFact | kernel/src/drivers/block/sdcard.rs:337 | R2W_FACTOR is register bits 28-26 |
| SdCard.CsdMaxWrBlockLen | kernel/src/drivers/block/sdcard.rs:339 | WRITE_BL_LEN is register bits 25-22 |
| SdCard.CsdWriteBlockPaPartial | kernel/src/drivers/block/sdcard.rs:341 | WRITE_BL_PARTIAL is register bit 21 |
| SdCard.CsdFileFormatGroup | kernel/src/drivers/block/sdcard.rs:345 | FILE_FORMAT_GRP is register bit 15 |
| SdCard.CsdCopyFlag | kernel/src/drivers/block/sdcard.rs:346 | COPY is register bit 14 |
| SdCard.CsdPermWrProtect | kernel/src/drivers/block/sdcard.rs:347 | PERM_WRITE_PROTECT is register bit 13 |
| SdCard.CsdTempWrProtect | kernel/src/drivers/block/sdcard.rs:348 | TMP_WRITE_PROTECT is register bit 12 |
| SdCard.CsdFileFormat | kernel/src/drivers/block/sdcard.rs:349 | FILE_FORMAT is register bits 11-10 |
| SdCard.CsdCrc | kernel/src/drivers/block/sdcard.rs:352 | the CSD's CRC7 is register bits 7-1 |
| SdCard.CsdMatchesLayout | kernel/src/drivers/block/sdcard.rs:301-355 | every decoded CSD field, reserved ones included, is the bit range of the register that the version 2.0 CSD layout gives it, and the fields not read from the register are the constants written |
| SdCard.CidManufacturerId | kernel/src/drivers/block/sdcard.rs:387 | MID is register bits 127-120 |
| SdCard.CidOemAppliId | kernel/src/drivers/block/sdcard.rs:389 | OID is register bits 119-104, big-endian |
| SdCard.CidProdName1 | kernel/src/drivers/block/sdcard.rs:391-394 | the first four bytes of the product name are register bits 103-72, big-endian |
| SdCard.CidProdName2 | kernel/src/drivers/block/sdcard.rs:396 | the last byte of the product name is register bits 71-64 |
| SdCard.CidProdRev | kernel/src/drivers/block/sdcard.rs:398 | PRV is register bits 63-56 |
| SdCard.CidProdSn | kernel/src/drivers/block/sdcard.rs:400-403 | PSN is register bits 55-24, big-endian |
| SdCard.CidReserved1 | kernel/src/drivers/block/sdcard.rs:405 | the reserved nibble is register bits 23-20 |
| SdCard.CidManufactDate | kernel/src/drivers/block/sdcard.rs:406 | MDT is the 12 register bits 19-8 |
| SdCard.CidCrc | kernel/src/drivers/block/sdcard.rs:408 | the CID's CRC7 is register bits 7-1 |
| SdCard.CidMatchesLayout | kernel/src/drivers/block/sdcard.rs:384-410 | every decoded CID field is the bit range of the register that the CID layout gives it, and the reserved bit is 1 |
| SdCard.Pow2Monotone | kernel/src/drivers/block/sdcard.rs:430 | a larger shift gives a larger block size |
| SdCard.DecodedCsdWidths | kernel/src/drivers/block/sdcard.rs:316-327 | a decoded READ_BL_LEN is at most 15 and a decoded C_SIZE below 2^22 |
| SdCard.CardInfoBounds | kernel/src/drivers/block/sdcard.rs:430-431 | the block size is at most 32 KiB, the capacity stays below 2^57 so the u64 arithmetic does not wrap, and the card has at least two 512-byte sectors |
| SdCard.CardInfoVersion2 | kernel/src/drivers/block/sdcard.rs:431 | with a 512-byte READ_BL_LEN the capacity is (C_SIZE + 1) * 512 KiB |
| SdCard.CapacityBounds | kernel/src/drivers/block/sdcard.rs:430-431 | the capacity arithmetic of `get_cardinfo` on plain numbers: bounded block size, no u64 overflow, at least two sectors |
| SdCard.BlockSizeBound | kernel/src/drivers/block/sdcard.rs:430 | `1 << len` for a four-bit len is at most 32768, and 512 for len 9 |
| SdCard.CapacityArithmetic | kernel/src/drivers/block/sdcard.rs:431 | (C_SIZE + 1) * 1024 * block size is below 2^57 and spans at least two sectors |
| SdCard.ReadBlocksOfBlockStream | kernel/src/drivers/block/sdcard.rs:547-560 | reading the blocks a card streams (start token, 512 bytes, CRC) returns exactly their data and leaves what follows |
| SdCard.ResponseOfToken | kernel/src/drivers/block/sdcard.rs:232-246 | a card whose next byte is the start token or 0x00 answers with it at once |
| SdCard.WriteBlocksDone | kernel/src/drivers/block/sdcard.rs:611 | with no block left the write loop sends nothing and succeeds |
| SdCard.ReadBlocksShape | kernel/src/drivers/block/sdcard.rs:547-560 | the block loop returns whole blocks, at most the count asked for, and all of them when every start token came |
| SdCard.SectorRead | kernel/src/drivers/block/sdcard.rs:530-574 | `read_sector` returns whole sectors, no more than the buffer holds, and fills the buffer when it succeeds |
| SdCard.SectorReadOfReadyCard | kernel/src/drivers/block/sdcard.rs:530-574 | a card that acknowledges and streams the blocks gives back exactly their data; one sector uses CMD17 and the closing 0xFF, several CMD18 followed by CMD12 |
| SdCard.SectorReadRejected | kernel/src/drivers/block/sdcard.rs:541-544 | a card that does not answer the read command with 0x00 fails the read, nothing is read, and the command is closed with one 0xFF |
| SdCard.UnframeFramed | kernel/src/drivers/block/sdcard.rs:611-620 | each block is sent as 0xFF, the start token, 512 bytes and two CRC bytes, and the card recovers exactly the data from them |
| SdCard.WriteBlocksToAcceptingCard | kernel/src/drivers/block/sdcard.rs:611-626 | when every block is accepted the loop succeeds, sends exactly the framed data and consumes exactly the card's replies |
| SdCard.SectorWrite | kernel/src/drivers/block/sdcard.rs:588-630 | `write_sector` panics exactly when the sector count does not fit in u32 |
| SdCard.SectorWriteOne | kernel/src/drivers/block/sdcard.rs:591-593 | one sector is written with CMD24 and start token 0xFE |
| SdCard.SectorWriteMany | kernel/src/drivers/block/sdcard.rs:594-604 | several sectors send ACMD23 with the count, wait for its response, then CMD25 with start token 0xFC |
| SdCard.WriteAfterCommandToAcceptingCard | kernel/src/drivers/block/sdcard.rs:605-630 | a card that acknowledges and accepts every block takes the framed data, and the write is closed with two 0xFF |
| SdCard.SectorWriteOneToAcceptingCard | kernel/src/drivers/block/sdcard.rs:588-630 | a one-sector write to an accepting card succeeds, consumes exactly its replies and sends CMD24 then the block framed with 0xFE |
| SdCard.SectorWriteManyToAcceptingCard | kernel/src/drivers/block/sdcard.rs:588-630 | a multi-sector write to an accepting card succeeds, consumes exactly its replies and sends ACMD23 with the count, CMD25, then the blocks framed with 0xFC |
| SdCard.OcrLoop | kernel/src/drivers/block/sdcard.rs:496-507 | the OCR frame left by the CMD58 loop is four bytes |
| SdCard.Acmd41LoopShape | kernel/src/drivers/block/sdcard.rs:474-491 | CMD55 fails only on a response other than 0x01, each try sends at most two closed frames, and the loop gives up only after all its tries |
| SdCard.OcrLoopShape | kernel/src/drivers/block/sdcard.rs:495-507 | each CMD58 try sends one closed frame, the loop gives up only after all its tries, and stops early only with tries left |
| SdCard.CardInfoReadDecoded | kernel/src/drivers/block/sdcard.rs:423-434 | the information `get_cardinfo` returns is computed from its own CSD and CID, with a four-bit READ_BL_LEN |
| SdCard.InitResetFirst | kernel/src/drivers/block/sdcard.rs:449-462 | `init` always starts with ten 0xFF bytes and CMD0, and stops there, reporting CMD0's response, exactly when the card does not answer 0x01 |
| SdCard.InitErrors | kernel/src/drivers/block/sdcard.rs:441-517 | CMD0, CMD8 and CMD55 fail with a response other than 0x01; the exhausted ACMD41 and CMD58 loops report 0x01, the CMD8 response; a missing capacity status bit reports the four OCR bytes with bit 0x40 clear |
| SdCard.InitOkCardInfo | kernel/src/drivers/block/sdcard.rs:441-517 | a successful `init` returns a card with at least two sectors, so the assertion after it holds, and a capacity whose u64 arithmetic does not wrap |
| SdCard.ResponseNow | kernel/src/drivers/block/sdcard.rs:232-246 | a card whose next byte is not 0xFF answers with it at once |
| SdCard.RegisterOfReadyCard | kernel/src/drivers/block/sdcard.rs:284-300 | a register read answered with 0x00, the start token and 18 bytes returns those bytes and reads nothing more |
| SdCard.Acmd41ReadyAtOnce | kernel/src/drivers/block/sdcard.rs:474-491 | a card answering CMD55 with 0x01 and ACMD41 with 0x00 ends the loop at the first try |
| SdCard.OcrAtOnce | kernel/src/drivers/block/sdcard.rs:495-507 | a card answering CMD58 with 0x00 ends the loop at the first try with the four OCR bytes it sends next |
| SdCard.CardInfoOfReadyCard | kernel/src/drivers/block/sdcard.rs:423-434 | a card answering both register reads yields the information computed from its CSD and CID |
| SdCard.InitAfterVoltageReady | kernel/src/drivers/block/sdcard.rs:474-517 | once both loops end at the first try with the capacity status bit set, `init` returns what `get_cardinfo` returns, mapped to CannotGetCardInfo on failure |
| SdCard.InitAfterVoltageOfReadyCard | kernel/src/drivers/block/sdcard.rs:474-517 | on a ready card the rest of `init` after CMD8 succeeds with the information of its CSD and CID |
| SdCard.InitOfReadyCard | kernel/src/drivers/block/sdcard.rs:441-517 | `init` on a card that answers every step at the first try, with the capacity status bit set, succeeds with the information of its CSD and CID and reads nothing past its replies |
| SdCard.Card.constructor | kernel/src/drivers/block/sdcard.rs:136-142 | a new card has sent nothing and is deselected |
| SdCard.Card.WriteData | kernel/src/drivers/block/sdcard.rs:161-174 | the bytes are appended to what was sent; nothing else changes |
| SdCard.Card.ReadData | kernel/src/drivers/block/sdcard.rs:176-189 | the buffer receives the next k bytes the card shifts out, which are consumed |
| SdCard.Card.SendCmd | kernel/src/drivers/block/sdcard.rs:198-216 | selects the card and sends the command frame |
| SdCard.Card.EndCmd | kernel/src/drivers/block/sdcard.rs:219-224 | deselects the card and sends one 0xFF |
| SdCard.Card.GetResponse | kernel/src/drivers/block/sdcard.rs:232-246 | the loop reads as `Response` says, sending nothing |
| SdCard.Card.GetDataResponse | kernel/src/drivers/block/sdcard.rs:256-272 | the token test and busy wait read as `DataResponse` says, sending nothing |
| SdCard.Card.ReadRegister | kernel/src/drivers/block/sdcard.rs:284-300 | sends the register command and the closing 0xFF, and returns the 18 bytes when the card answered 0x00 and the start token |
| SdCard.Card.GetCardInfo | kernel/src/drivers/block/sdcard.rs:423-434 | the CSD read, the CID read and the arithmetic, failing when either read fails |
| SdCard.Card.ReadOneBlock | kernel/src/drivers/block/sdcard.rs:548-559 | one pass of the block loop is the first step of `ReadBlocks` |
| SdCard.Card.CopyBlock | kernel/src/drivers/block/sdcard.rs:554-556 | the block lands in its slot of the buffer, the rest of the buffer is unchanged |
| SdCard.Card.ReadBlockAt | kernel/src/drivers/block/sdcard.rs:548-559 | one block read into its slot of the buffer, the rest unchanged; a missing token changes nothing |
| SdCard.Card.ReadBlocksInto | kernel/src/drivers/block/sdcard.rs:545-560 | the block loop fills the buffer from the front with the blocks read and leaves the rest as it was |
| SdCard.Card.ReadAfterCmd | kernel/src/drivers/block/sdcard.rs:540-573 | `read_sector` after its command frame behaves as `ReadAfterCommand` |
| SdCard.Card.StopTransmission | kernel/src/drivers/block/sdcard.rs:562-567 | CMD12, its response, and the command closed twice |
| SdCard.Card.ReadSector | kernel/src/drivers/block/sdcard.rs:530-574 | panics exactly when the buffer is not a whole number of sectors, changing nothing; otherwise every block read lands in its slot, the rest of the buffer keeps its contents, and the bus traffic is `SectorRead`'s |
| SdCard.Card.WriteOneBlock | kernel/src/drivers/block/sdcard.rs:611-626 | one pass of the write loop is the first step of `WriteBlocks`; a rejected block deselects the card |
| SdCard.Card.WriteBlocksFrom | kernel/src/drivers/block/sdcard.rs:611-626 | the write loop behaves as `WriteBlocks` |
| SdCard.Card.WriteAfterCmd | kernel/src/drivers/block/sdcard.rs:605-630 | `write_sector` after its command frames behaves as `WriteAfterCommand` |
| SdCard.Card.WriteOneSector | kernel/src/drivers/block/sdcard.rs:591-593 | CMD24, then the block with token 0xFE |
| SdCard.Card.WriteManySectors | kernel/src/drivers/block/sdcard.rs:594-604 | ACMD23 with the count and its response, then CMD25 and the blocks with token 0xFC |
| SdCard.Card.SetBlockCount | kernel/src/drivers/block/sdcard.rs:596-602 | ACMD23 with the count, its response, and the command closed |
| SdCard.Card.WriteSector | kernel/src/drivers/block/sdcard.rs:588-630 | panics, sending nothing, exactly when the data is not a whole number of sectors or its sector count does not fit in u32; otherwise behaves as `SectorWrite` |
| SdCard.Card.WriteSectors | kernel/src/drivers/block/sdcard.rs:590-630 | `write_sector` past its assertion behaves as `SectorWrite` |
| SdCard.Card.WaitReady | kernel/src/drivers/block/sdcard.rs:474-491 | the ACMD41 loop of `init` behaves as `Acmd41Loop` with 255 tries |
| SdCard.Card.Acmd41Try | kernel/src/drivers/block/sdcard.rs:477-486 | CMD55 and, only when it answered 0x01, ACMD41 |
| SdCard.Card.ReadOcr | kernel/src/drivers/block/sdcard.rs:495-507 | the CMD58 loop of `init` behaves as `OcrLoop` with 255 tries |
| SdCard.Card.Init | kernel/src/drivers/block/sdcard.rs:441-517 | `init` behaves as `Initialize` and ends with the card deselected |
| SdCard.Card.Reset | kernel/src/drivers/block/sdcard.rs:445-459 | ten 0xFF bytes deselected, then CMD0 with CRC 0x95 and its response |
| SdCard.Card.CheckVoltage | kernel/src/drivers/block/sdcard.rs:465-470 | CMD8 with argument 0x1AA and CRC 0x87, its response, then the four R7 bytes read and dropped |
| SdCard.Card.FinishInit | kernel/src/drivers/block/sdcard.rs:474-516 | the rest of `init` after CMD8 behaves as `InitAfterVoltage` |
| SdCard.NewWrapper | kernel/src/drivers/block/sdcard.rs:652-677 | the driver set-up panics exactly when `init` fails, and otherwise wraps the initialised card |
| SdCard.SdCardWrapper.constructor | kernel/src/drivers/block/sdcard.rs:675-677 | the wrapper holds the card |
| SdCard.SdCardWrapper.ReadBlock | kernel/src/drivers/block/sdcard.rs:681-686 | `read_sector` of the block id truncated to u32; a buffer of whole sectors is filled with the data on success, any failure panics |
| SdCard.SdCardWrapper.WriteBlock | kernel/src/drivers/block/sdcard.rs:688-693 | `write_sector` of the block id truncated to u32; returns exactly when the write succeeded, and a malformed buffer sends nothing |
| SdCard.CsdSysSpecVersion | kernel/src/drivers/block/sdcard.rs:305 | the system specification version is register bits 125-122 |
| SdCard.CsdReserved1 | kernel/src/drivers/block/sdcard.rs:306 | the first reserved field is register bits 121-120 |
| SdCard.CsdManDeflEcc | kernel/src/drivers/block/sdcard.rs:336 | the default ECC field is register bits 30-29 |
| SdCard.CsdContentProtectAppli | kernel/src/drivers/block/sdcard.rs:343 | the content protection application bit is register bit 16 |
| SdCard.CsdEcc | kernel/src/drivers/block/sdcard.rs:350 | the ECC field is register bits 9-8 |
| ShellArgs.WordLen | apps/src/bin/shell.rs:35 | the word at the front of a string is non-empty, holds no whitespace, and is followed by whitespace or the end |
| ShellArgs.SplitWhitespace | apps/src/bin/shell.rs:35 | `split_whitespace` yields only non-empty tokens without whitespace |
| ShellArgs.WordLenOf | apps/src/bin/shell.rs:35 | a word followed by whitespace or by nothing is read whole |
| ShellArgs.SplitJoin | apps/src/bin/shell.rs:35 | splitting words joined by spaces gives the words back |
| ShellArgs.ParseKeepsNoOperator | apps/src/bin/shell.rs:36-49 | neither `>` nor `<` is ever kept as an argument, and every argument kept is a token of the line |
| ShellArgs.ParsePlain | apps/src/bin/shell.rs:44-47 | tokens without operators are all kept, in order, and redirect nothing |
| ShellArgs.LaterRedirectionWins | apps/src/bin/shell.rs:38-40 | after `> a`, plain tokens and `> b`, the output file is b |
| ShellArgs.TrailingRedirectionClears | apps/src/bin/shell.rs:38-40 | a trailing `>` with no operand leaves no output file, whatever an earlier `>` named |
| ShellArgs.PlainThen | apps/src/bin/shell.rs:36-49 | plain tokens before more tokens are kept first, in order |
| ShellArgs.NewCommand | apps/src/bin/shell.rs:29-57 | `CommandArguments::new` computes the parse of the line, with argc the number of arguments kept |
| ShellArgs.ParseArguments | apps/src/bin/shell.rs:29-57 | the arguments of a parsed line hold no operator and each is a word of the line |
| ShellArgs.AllWithNul | user/src/bin/shell.rs:32 | every word gets its NUL terminator, one for one |
| ShellArgs.ArgPointers | user/src/bin/shell.rs:45-46 | one pointer per argument, followed by a null pointer in user/src/bin/shell.rs and none in user/src/bin/user_shell.rs:46 |
| ShellArgs.NewArguments | user/src/bin/shell.rs:27-54 | the NUL-terminated arguments and redirection files of the token loop with `>\0` and `<\0`, and a pointer per argument |
| ShellArgs.WithNulSame | user/src/bin/shell.rs:34-39 | a word matches `>\0` or `<\0` exactly when it is the operator itself |
| ShellArgs.NulParseAgrees | user/src/bin/shell.rs:32-43 | the NUL-terminated token loop gives the NUL-terminated form of the plain parse |
| ShellArgs.NewArgumentsAgree | user/src/bin/user_shell.rs:28-54 | the user-library shells parse a line as the apps shell does, with every argument and file NUL-terminated |
| ShellArgs.ProgramPath | apps/src/bin/shell.rs:100-104 | a name holding '/' is used as is, any other is looked up under /bin |
| ShellArgs.ProgramPathIdempotent | apps/src/bin/shell.rs:100-104 | resolving a resolved path changes nothing |
| ShellArgs.CdTarget | user/src/bin/shell.rs:131-139 | `cd` alone goes to "/", `cd d` to d, and more arguments are refused |
| ShellArgs.Step | apps/src/bin/shell.rs:66-115 | the loop body as intended agrees with the written one wherever that does not panic, and skips a line with no words |
| ShellArgs.BlankLinePanics | apps/src/bin/shell.rs:67-72 | a line of one blank passes the emptiness test and then indexes argv[0] of an empty argv |
| ShellArgs.ParseWords | apps/src/bin/shell.rs:29-57 | a line without operators parses to its words with no redirection |
| ShellArgs.CdArguments | apps/src/bin/shell.rs:73-85 | `cd` alone changes to "/", `cd d` to d, and with more arguments the shell only complains |
| ShellArgs.RunsProgram | apps/src/bin/shell.rs:87-105 | a program name that is not cd, exit or a directory named alone runs the resolved program with the words as its arguments |
| ShellLine.Pop | apps/src/bin/shell.rs:135-139 | `pop` removes the last character of a non-empty line and leaves an empty one empty |
| ShellLine.EditAll | apps/src/bin/shell.rs:131-151 | editing never makes the line longer than the line plus the keys |
| ShellLine.EraseTyped | apps/src/bin/shell.rs:135-148 | DEL right after a typed character takes it back |
| ShellLine.TypedAsIs | apps/src/bin/shell.rs:145-148 | without DEL the line is exactly what was typed |
| ShellLine.GetLine | apps/src/bin/shell.rs:131-151 | `getline` stops at the first LF or CR and returns the keys before it edited, without the line end |
| ShellLine.EditStep | user/src/bin/shell.rs:109-129 | editing one more key extends the edit of the keys before it |
| ShellLine.EditSnoc | user/src/bin/shell.rs:109-129 | editing keys then one key is editing all of them |
| ShellLine.KeyKeeps | user/src/bin/user_shell.rs:61-101 | one key keeps every line run non-empty and free of line ends |
| ShellLine.KeysKeep | user/src/bin/user_shell.rs:61-101 | any run of keys keeps that property |
| ShellLine.Text | user/src/bin/user_shell.rs:97-100 | the typed text holds no line end |
| ShellLine.FlattenSnoc | user/src/bin/user_shell.rs:66-85 | running one more line appends it to the text run |
| ShellLine.NothingLost | user/src/bin/user_shell.rs:61-101 | without erasing keys, the lines run followed by the line being typed are exactly the typed text without line ends |
| ShellLine.UserShellLoop | user/src/bin/user_shell.rs:58-103 | the loop runs the lines that `Keys` says, in order, and leaves the unfinished line |
| ShellLine.UserShellRunsWellFormed | user/src/bin/user_shell.rs:64-96 | every line user_shell forks a child for is non-empty and has no line end |
| Input.UnpackPack | user/src/input.rs:26-39 | decoding the kernel's packed word gives back the event |
| Input.LowBits | kernel/src/drivers/input/mod.rs:77-79 | the low 32 bits of the packed word are the value |
| Input.MiddleBits | kernel/src/drivers/input/mod.rs:77-79 | bits 32-47 of the packed word are the code |
| Input.HighBits | kernel/src/drivers/input/mod.rs:77-79 | bits 48-63 of the packed word are the type |
| Input.PackUnpack | user/src/input.rs:26-39 | every word is the packing of the event it decodes to, so no two events share a word |
| Input.UnpackFields | user/src/input.rs:26-39 | the decoder takes the value from bits 0-31, the code from 32-47 and the type from 48-63 |
| Input.EventGet | user/src/input.rs:13-20 | an event returned is the one the raw word packs |
| Input.EventGetPacked | user/src/input.rs:13-20 | an event read back through `event_get` is the event queued, except the all-zero event, which reads as no event |
| Input.Packed | kernel/src/drivers/input/mod.rs:75-81 | one word per event, in order, each the packing of its event |
| Input.Unpacked | user/src/input.rs:26-39 | one event per word |
| Input.UnpackedPacked | user/src/input.rs:26-39 | a queue of packed events decodes to the events themselves |
| Input.InputDevice.constructor | kernel/src/drivers/input/mod.rs:40-51 | a new device has an empty queue and has signalled nobody |
| Input.InputDevice.HandleIrq | kernel/src/drivers/input/mod.rs:71-87 | every pending event is packed and appended in arrival order, and the waiters are signalled once, only when an event arrived |
| Input.InputDevice.ReadEvent | kernel/src/drivers/input/mod.rs:55-65 | the oldest queued word is removed and returned; with an empty queue nothing changes |
| Input.InputDevice.IsEmpty | kernel/src/drivers/input/mod.rs:67-69 | true exactly when no word is queued |
| Sleep.ParseUsize | apps/src/bin/sleep.rs:38 | a parsed number fits in a usize |
| Sleep.Decimal | apps/src/bin/sleep.rs:38 | the decimal form of a number is non-empty and all digits |
| Sleep.DecimalValue | apps/src/bin/sleep.rs:38 | reading a number's decimal form gives the number |
| Sleep.ParseDecimal | apps/src/bin/sleep.rs:38 | every number a usize holds parses back from its decimal form |
| Sleep.ParseTimeArgument | apps/src/bin/sleep.rs:37-52 | a parsed duration fits in a usize |
| Sleep.InUnit | apps/src/bin/sleep.rs:43-49 | a unit's duration fits in a usize |
| Sleep.PlainSeconds | apps/src/bin/sleep.rs:38-39 | a number typed alone is that many seconds, in milliseconds wrapped to usize |
| Sleep.WithUnit | apps/src/bin/sleep.rs:40-51 | a number with suffix s, m, h or d is that many units in milliseconds, and any other suffix is refused as "Unsupported time unit" |
| Sleep.BadNumber | apps/src/bin/sleep.rs:41-42 | a prefix that is no number is refused as "Invalid number", whatever the unit |
| Sleep.Total | apps/src/bin/sleep.rs:20-31 | the summed duration fits in a usize |
| Sleep.TotalStep | apps/src/bin/sleep.rs:20-31 | an empty argument is skipped, a bad one stops the sum with its error, a good one adds its milliseconds |
| Sleep.SleepMain | apps/src/bin/sleep.rs:16-35 | `main` returns 1 without sleeping exactly when some argument after argv[0] fails to parse, and otherwise sleeps for the wrapped sum with code 0 |
| Sleep.TotalSums | apps/src/bin/sleep.rs:20-31 | main sleeps exactly when every non-empty argument parses |
| ThreadCalls.Gettid | kernel/src/syscall/thread.rs:69-77 | the caller's tid from its user resources, and a panic exactly when those resources are gone |

## Left out

- Assembly and control registers: `__switch`, `trap.S`/`__restore`, `trap_return`, `satp` writes with `sfence.vma`, and the `stvec`/`sstatus`/`sie` writes are not modelled; each operation ends where the source would switch or return to user mode, and the clock (`time::read`) is a parameter.
- Raw physical memory is an abstract map from physical page number to the page's entries or bytes (`PageTable.Memory`, `FrameTracker.PhysMemory`), because the source reaches it through raw pointers.
- ELF parsing is done by the `xmas_elf` library; the loader model receives the decoded program headers and the segment bytes.
- Device plumbing is not modelled: the UART, virtio block, bus, GPU and input devices, the GUI and input system calls, and the SPI, GPIO and clock set-up of the SD-card driver. The SD card is seen only through the bytes on its bus.
- Preemption and interleaving are not modelled. Blocking, waking and scheduling are status changes plus queue operations on one hart. `RefCell` borrow panics, `lazy_static` singletons, the kernel heap allocator, logging, the console, SBI calls and the panic handlers are out for the same reason.
- `key_pressed` (user/src/input.rs:22-24) is not modelled: its answer is whether the UART's read buffer holds a byte (kernel/src/syscall/input.rs:16-18), a device query outside this model.
- Console and keyboard I/O of the user programs (`getchar`, `print!`), and the events a device delivers, are parameters: the keys typed, the raw event words, the arguments of `sleep`.
- The `/proc` entries that `fork`, `exec` and process drop write in kernel/src/task/pcb.rs are not modelled; they are file-system side effects outside the process record. The byte copying of `sys_fstat` into user memory is out too.
- Stubs: `alloc_inode` and `disk_inode_pos` in easy-fs/src/efs.rs are `todo!()`, so `EfsCreate.Create` ends in that panic. The `exec` and `fork` of os/src/task/pcb.rs are `todo!()` as well, and os/src/task/process.rs is a fragment; none is modelled.
- easy-fs/src/vfs.rs uses `block_cache::get`, `DiskInodeKind` and `alloc_data`, which are not part of this model; `Vfs` works on an abstract map of disk inodes instead of blocks.
- Vfs.Volume: the disk never fills up, because `alloc_data` is not part of this model and `alloc_inode` is a `todo!()`; the failures of a full disk are not modelled.
- The condition variable's `wait_with_mutex`/`wait_no_sched` and `MapType::Linear` are named by callers but not defined in the modelled files.
- os/src/fs/pipe.rs has only constructors, and os/src/loader.rs only raw memory loading; neither is modelled.
- Kernel address-space construction (`new_kernel`) and `remap_test` are not modelled: they depend on section addresses the linker provides.
- Build and tooling code (os/build.rs, easy-fs-fuse) and the user utilities that only wrap one system call (`ls`, `cat`, `rm`, `mkdir`, `touch`) are out. The user tests serve only as evidence for properties.
- os/src/syscall/fs.rs is modelled only through `FsCalls`, which works on the current kernel's per-process descriptor table and working directory. The older calls have the same logic, but os/src/task has no `cwd` field for them to read, so they are not modelled separately.
- UserBuffer.TranslatedByteBuffer: requires the buffer to end at or below 2^38, the top of the lower half of the Sv39 address space. The source accepts any pointer; a range running past 2^38 reaches addresses that `VirtAddr` truncates to 39 bits, and that path is not modelled.
- UserBuffer.TranslatedStr: reads at most `limit` bytes and returns `NoTerminator` beyond that, because a termination measure is needed. The source loops until it finds a zero byte. Up to the limit the two agree (`UserView.ReadStrFinds`).
- MemorySet.CloneArea, MemorySet.MemorySet.Clone: a failure is not tied to the number of free frames. Each page of the copy can take a data frame and up to two page-table frames, but the contract states only what success gives and what holds either way; the frame count that makes the copy succeed is not stated.
- TaskOps.Fork, OsTask.Tcb.Fork: the failure of the address-space copy is the only failure besides the thread-count assertion, but the contracts do not say when that copy fails, for the reason given for `MemorySet.MemorySet.Clone`.
- TaskOps.Exec: requires the argument block to fit below the top of the main thread's user stack. The source pushes the arguments without a check, and a block larger than the stack writes below it.
- OsTask.Tcb.Exec: requires the argument block to fit below the user stack pointer, for the same reason as `TaskOps.Exec`.
- OsTask.Tcb.Fork: does not model `translate(TRAP_CONTEXT).unwrap()`, which finds the child's trap-context frame. The child's trap context is a value copied from the parent.
- TaskId.TrapCxBottom: returns None where `TRAP_CONTEXT_BASE - tid * PAGE_SIZE` would go below zero; the source's release build wraps to an address near the top of the 64-bit range. A tid that large needs more than 2^26 threads in one process, far beyond what its address space can hold.
- IntrMasking.IntrMaskingInfo.Exit: an exit without a matching enter returns false and changes nothing. The source's `nested_level -= 1` wraps to `usize::MAX`, after which interrupts stay masked for good. Every exit in the source comes from dropping a guard whose creation entered, so the path is not reached there.
- Vfs.Volume.WriteAt: grows the file to offset + |buf| without the `as u32` cut of that sum (easy-fs/src/vfs.rs:211). What a cut size does depends on the `DiskInode` methods `increase_size` and `write_at`, which are not part of the source files of this model.
- Vfs.NameField: `DirEntry` and its `new` are not part of the source files of this model. The entry layout follows the user library's `Dirent` (user/src/fs.rs:15-21): a 28-byte name field and a little-endian `u32` inode number. A name longer than 28 bytes keeps its first 28 bytes in the model.
- ProcessCalls.Waitpid: does not model `assert_eq!(Arc::strong_count(&child), 1)` at kernel/src/syscall/process.rs:161, because reference counts are not part of this model. A reaped child that is still referenced elsewhere gets its pid returned, where the source panics.
- Sleep.ParseTimeArgument: arguments are sequences of characters, so the unit is always the last character. The source splits at the last byte, so an argument ending in a multi-byte character (`5é`) panics in `split_at`; the model returns `Err("Unsupported time unit")`.
- SdCard.Card.GetDataResponse: the wait `while response[0] == 0` always ends, because the bus is a finite sequence of bytes followed by an idle line that reads 0xFF. A card that holds the line at 0 forever hangs the source; that is not modelled.
- Timer.Timers.AddTimer: puts a timer after those with the same deadline. The source's `BinaryHeap` leaves the order among equal deadlines unspecified, so `Timer.Timers.CheckTimer` wakes threads with equal deadlines in one order the source may use.
- EfsCreate.RegionsTileTheDisk: proved for disks whose data region is more than 4096 blocks short of 2^32. Beyond that, `data_total_blocks + 4096` wraps in `u32` and the data bitmap comes out too small.
- Mutex.SpinMutex.LockRound: models one round of the spin `lock` loop. The retry happens when the yielding thread runs again, which belongs to the scheduler.
- Processor.RunTasksStep: models one round of the endless `run_tasks` loop.
- OsTask.Tcb.HandleSignals: the signals that arrive while the task is frozen are a finite parameter. If they run out while the task is still frozen, the method returns `false`, where the source keeps yielding.

## Findings

| source | as written | input that shows it | evidently intended | confidence | as-written member | corrected member |
|---|---|---|---|---|---|---|
| kernel/src/mm/memory_set.rs:134-147 | `copy_data` cuts the data into `chunks(min(PAGE_SIZE, len))`, and `chunks(0)` panics | a Framed area with empty data, such as a LOAD segment with no file bytes | empty data copies nothing | not executed | MemorySet.EmptyDataPanics | MemorySet.CopyData |
| kernel/src/syscall/thread.rs:106 | `tasks[tid]` is indexed with no bounds check | `waittid(tid)` with `tid >= tasks.len()` | a thread that does not exist gives -1, as the comment at line 112 says | not executed | ThreadCalls.WaittidAsWritten | ThreadCalls.Waittid |
| kernel/src/syscall/thread.rs:49-50 | `resize_with(tid + 1, ..)` also shrinks the table when a recycled tid is below the highest in use | threads 0, 1 and 2, thread 1 joined, then a new thread gets tid 1: thread 2 drops out of the table | grow the table only when it is too short | not executed | ThreadCalls.PlaceAsWrittenLosesThreadTwo | ThreadCalls.PlaceKeepsThreads |
| easy-fs/src/layout.rs:125-139 | `total_blocks` tests the bounds and counts the indirect blocks on the running total, which already includes the index blocks | a file of 156 data blocks (79872 bytes): 159 counted where 157 are used | count the index blocks from the number of data blocks | not executed | EfsLayout.TotalBlocksOvercounts | EfsLayout.TotalBlocks |
| apps/src/bin/shell.rs:66-72 | only an empty line is skipped before `argv[0]` is indexed | a line of one blank, or a line holding only a redirection | a line with no words is skipped | not executed | ShellArgs.BlankLinePanics | ShellArgs.Step |
