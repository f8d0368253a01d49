/** `MemorySet::from_elf` (os/src/mm/memory_set.rs and
    kernel/src/mm/memory_set.rs). The ELF file itself is parsed by a foreign
    library; here the program headers arrive already decoded, and the model
    keeps what the kernel does with them: one Framed area per LOAD segment
    with U plus the segment's R/W/X bits, the end of the last LOAD area as
    the base of the user stack (one guard page above it), and, in the older
    kernel, the user stack and the trap-context page as two more areas. */
module ElfLoader {
  import opened Wrappers
  import opened Address
  import opened Pte
  import opened FrameAllocator
  import opened PageTable
  import opened FrameTracker
  import opened MemorySet

  /** A decoded program header: its type, virtual address, size in memory,
      flags and the file bytes that back it. */
  datatype ProgramHeader = ProgramHeader(isLoad: bool, vaddr: nat, memSize: nat,
                                         readable: bool, writable: bool, executable: bool,
                                         data: seq<Byte>)

  /** The build-time constants the layout depends on (config.rs). */
  datatype Layout = Layout(trampoline: nat, strampoline: nat, trapContext: nat, userStackSize: nat)

  /** `map_perm`: U, plus R, W and X exactly as the segment's flags say. */
  function SegmentPerm(ph: ProgramHeader): (p: Permission)
    ensures p & PERM_U == PERM_U
    ensures (p & PERM_R == PERM_R) <==> ph.readable
    ensures (p & PERM_W == PERM_W) <==> ph.writable
    ensures (p & PERM_X == PERM_X) <==> ph.executable
    ensures p & !(PERM_R | PERM_W | PERM_X | PERM_U) == 0
  {
    PERM_U | (if ph.readable then PERM_R else 0) | (if ph.writable then PERM_W else 0)
           | (if ph.executable then PERM_X else 0)
  }

  /** The area of one LOAD segment: [vaddr, vaddr + mem_size), both taken
      through `VirtAddr::from`. None stands for the panic of `MapArea::new`
      on a reversed range. */
  function SegmentArea(ph: ProgramHeader): Option<MapArea>
  {
    NewArea(VirtAddrFrom(ph.vaddr), VirtAddrFrom(ph.vaddr + ph.memSize), Framed, SegmentPerm(ph))
  }

  /** The areas pushed for the LOAD headers, in header order; None if one
      of them cannot be built. */
  function LoadAreas(phs: seq<ProgramHeader>): Option<seq<MapArea>>
  {
    if phs == [] then Some([])
    else
      match LoadAreas(phs[..|phs| - 1])
      case None => None
      case Some(areas) =>
        var ph := phs[|phs| - 1];
        if !ph.isLoad then Some(areas)
        else match SegmentArea(ph)
          case None => None
          case Some(a) => Some(areas + [a])
  }

  /** `max_end_vpn`: the end of the area of the LAST LOAD header (not the
      largest end), 0 when there is none. */
  function MaxEndVpn(phs: seq<ProgramHeader>): nat
  {
    if phs == [] then 0
    else
      var ph := phs[|phs| - 1];
      if ph.isLoad && SegmentArea(ph).Some? then SegmentArea(ph).value.range.end
      else MaxEndVpn(phs[..|phs| - 1])
  }

  /** Every area built from the headers is the area of one LOAD header,
      so (by SegmentPerm) it carries U plus exactly that header's R/W/X. */
  lemma {:induction false} LoadAreasFromHeaders(phs: seq<ProgramHeader>)
    requires LoadAreas(phs).Some?
    ensures forall a :: a in LoadAreas(phs).value ==>
      exists ph :: ph in phs && ph.isLoad && SegmentArea(ph) == Some(a)
  {
    if phs != [] {
      var init := phs[..|phs| - 1];
      var last := phs[|phs| - 1];
      LoadAreasFromHeaders(init);
      var before := LoadAreas(init).value;
      var areas := LoadAreas(phs).value;
      assert areas == before || (last.isLoad && SegmentArea(last).Some? && areas == before + [SegmentArea(last).value]);
      forall a | a in areas
        ensures exists ph :: ph in phs && ph.isLoad && SegmentArea(ph) == Some(a)
      {
        if a in before {
          var ph :| ph in init && ph.isLoad && SegmentArea(ph) == Some(a);
          assert ph in phs;
        } else {
          assert last in phs;
        }
      }
    }
  }

  /** The end kept in `max_end_vpn` is the end of the last area pushed. */
  lemma {:induction false} MaxEndIsLastEnd(phs: seq<ProgramHeader>)
    requires LoadAreas(phs).Some? && |LoadAreas(phs).value| > 0
    ensures MaxEndVpn(phs) == LoadAreas(phs).value[|LoadAreas(phs).value| - 1].range.end
  {
    var init := phs[..|phs| - 1];
    var ph := phs[|phs| - 1];
    if !ph.isLoad {
      MaxEndIsLastEnd(init);
    }
  }

  /** `user_stack_base` / `user_stack_bottom`: the address of `max_end_vpn`,
      sign-extended to a usize, plus one guard page. */
  function StackBase(maxEnd: nat): nat
  {
    (VirtAddrToUsize(PageToAddr(maxEnd)) + PAGE_SIZE) % USIZE
  }

  /** Below the sign bit the base is simply one page above the last area. */
  lemma StackBaseGuard(maxEnd: nat)
    requires (maxEnd + 1) * PAGE_SIZE <= VA_SIGN
    ensures StackBase(maxEnd) == (maxEnd + 1) * PAGE_SIZE
    ensures Floor(StackBase(maxEnd)) == maxEnd + 1
  {
    assert PageToAddr(maxEnd) == maxEnd * PAGE_SIZE;
  }

  /** The older kernel's two extra areas: the user stack
      [bottom, bottom + USER_STACK_SIZE) with R|W|U and the trap context
      [TRAP_CONTEXT, TRAMPOLINE) with R|W. */
  function StackArea(maxEnd: nat, layout: Layout): (r: Option<MapArea>)
    ensures r.Some? ==> r.value.mapType == Framed
    ensures r.Some? ==> r.value.perm & PERM_U == PERM_U && r.value.perm & PERM_R == PERM_R &&
                        r.value.perm & PERM_W == PERM_W && r.value.perm & PERM_X == 0
  {
    var bottom := StackBase(maxEnd);
    var top := (bottom + layout.userStackSize) % USIZE;
    NewArea(VirtAddrFrom(bottom), VirtAddrFrom(top), Framed, PERM_R | PERM_W | PERM_U)
  }

  /** The trap context is readable and writable by the kernel only: no U,
      and not executable. */
  function TrapContextArea(layout: Layout): (r: Option<MapArea>)
    ensures r.Some? ==> r.value.mapType == Framed
    ensures r.Some? ==> r.value.perm & PERM_U == 0 && r.value.perm & PERM_R == PERM_R &&
                        r.value.perm & PERM_W == PERM_W && r.value.perm & PERM_X == 0
  {
    NewArea(VirtAddrFrom(layout.trapContext), VirtAddrFrom(layout.trampoline), Framed, PERM_R | PERM_W)
  }

  /** With the last LOAD area below the sign bit, the stack starts two
      pages past its last page: page maxEnd is the unmapped guard, outside
      both the last LOAD area and the stack. */
  lemma {:induction false} GuardPage(phs: seq<ProgramHeader>, layout: Layout)
    requires LoadAreas(phs).Some? && |LoadAreas(phs).value| > 0
    requires (MaxEndVpn(phs) + 1) * PAGE_SIZE <= VA_SIGN
    requires StackArea(MaxEndVpn(phs), layout).Some?
    ensures var last := LoadAreas(phs).value[|LoadAreas(phs).value| - 1];
      !InRange(last, MaxEndVpn(phs)) && !InRange(StackArea(MaxEndVpn(phs), layout).value, MaxEndVpn(phs))
    ensures StackArea(MaxEndVpn(phs), layout).value.range.start == MaxEndVpn(phs) + 1
  {
    MaxEndIsLastEnd(phs);
    StackBaseGuard(MaxEndVpn(phs));
  }

  /** The loop over the program headers: push the area of every LOAD
      header with its file bytes, remembering the end of the last one.
      False stands for a panic (a reversed segment or a page mapped twice). */
  method LoadSegments(ms: MemorySet, phs: seq<ProgramHeader>, alloc: StackFrameAllocator, phys: PhysMemory)
    returns (ok: bool, maxEnd: nat)
    requires ms.Valid(alloc, phys)
    modifies ms, ms.pageTable, alloc, phys
    ensures ms.pageTable == old(ms.pageTable) && ms.pageTable.root_ppn == old(ms.pageTable.root_ppn)
    ensures ok ==> forall v: nat :: v < VPN_LIMIT && IsValid(LeafEntry(old(ms.pageTable.mem), ms.pageTable.root_ppn, v)) ==>
      LeafEntry(ms.pageTable.mem, ms.pageTable.root_ppn, v) == LeafEntry(old(ms.pageTable.mem), ms.pageTable.root_ppn, v)
    ensures ok ==> ms.Valid(alloc, phys) && LoadAreas(phs).Some? && ms.areas == old(ms.areas) + LoadAreas(phs).value
    ensures ok ==> maxEnd == MaxEndVpn(phs)
    ensures LoadAreas(phs).None? ==> !ok
  {
    ghost var areas0, mem0 := ms.areas, ms.pageTable.mem;
    maxEnd := 0;
    var i := 0;
    while i < |phs|
      invariant 0 <= i <= |phs| && ms.pageTable == old(ms.pageTable) && ms.pageTable.root_ppn == old(ms.pageTable.root_ppn)
      invariant forall v: nat :: v < VPN_LIMIT && IsValid(LeafEntry(mem0, ms.pageTable.root_ppn, v)) ==>
        LeafEntry(ms.pageTable.mem, ms.pageTable.root_ppn, v) == LeafEntry(mem0, ms.pageTable.root_ppn, v)
      invariant ms.Valid(alloc, phys)
      invariant LoadAreas(phs[..i]).Some? && ms.areas == areas0 + LoadAreas(phs[..i]).value
      invariant maxEnd == MaxEndVpn(phs[..i])
    {
      var ph := phs[i];
      assert phs[..i + 1][..i] == phs[..i];
      assert phs[..i + 1][i] == ph;
      if ph.isLoad {
        ok := LoadSegment(ms, ph, alloc, phys, mem0);
        if !ok {
          return;
        }
        maxEnd := SegmentArea(ph).value.range.end;
      }
      i := i + 1;
    }
    assert phs[..i] == phs;
    ok := true;
  }

  /** One LOAD header: build its area (the source panics, here false,
      when the range is inverted) and push it with the segment's bytes. */
  method LoadSegment(ms: MemorySet, ph: ProgramHeader, alloc: StackFrameAllocator, phys: PhysMemory, ghost mem0: Memory)
    returns (ok: bool)
    requires ms.Valid(alloc, phys)
    requires forall v: nat :: v < VPN_LIMIT && IsValid(LeafEntry(mem0, ms.pageTable.root_ppn, v)) ==>
      LeafEntry(ms.pageTable.mem, ms.pageTable.root_ppn, v) == LeafEntry(mem0, ms.pageTable.root_ppn, v)
    modifies ms, ms.pageTable, alloc, phys
    ensures ms.pageTable == old(ms.pageTable) && ms.pageTable.root_ppn == old(ms.pageTable.root_ppn)
    ensures ok ==> SegmentArea(ph).Some? && ms.Valid(alloc, phys) && ms.areas == old(ms.areas) + [SegmentArea(ph).value]
    ensures ok ==> forall v: nat :: v < VPN_LIMIT && IsValid(LeafEntry(mem0, ms.pageTable.root_ppn, v)) ==>
      LeafEntry(ms.pageTable.mem, ms.pageTable.root_ppn, v) == LeafEntry(mem0, ms.pageTable.root_ppn, v)
  {
    var area := NewArea(VirtAddrFrom(ph.vaddr), VirtAddrFrom(ph.vaddr + ph.memSize), Framed, SegmentPerm(ph));
    if area.None? {
      return false;
    }
    ok := ms.Push(area.value, Some(ph.data), alloc, phys);
  }

  /** Once a prefix of the headers cannot be built, neither can the whole. */
  lemma {:induction false} LoadAreasNone(phs: seq<ProgramHeader>, n: nat)
    requires n <= |phs| && LoadAreas(phs[..n]).None?
    ensures LoadAreas(phs).None?
    decreases |phs| - n
  {
    if n < |phs| {
      assert phs[..n + 1][..n] == phs[..n];
      LoadAreasNone(phs, n + 1);
    } else {
      assert phs[..n] == phs;
    }
  }

  /** The areas of the older kernel's address space in push order. */
  function OsElfAreas(phs: seq<ProgramHeader>, layout: Layout): Option<seq<MapArea>>
  {
    match LoadAreas(phs)
    case None => None
    case Some(loads) =>
      match StackArea(MaxEndVpn(phs), layout)
      case None => None
      case Some(stack) =>
        match TrapContextArea(layout)
        case None => None
        case Some(trap) => Some(loads + [stack, trap])
  }

  /** The bare space with the trampoline mapped, as both kernels' `from_elf`
      begin. False stands for a panic: no frame for the root table or an
      unaligned trampoline. */
  method BareWithTrampoline(layout: Layout, alloc: StackFrameAllocator, phys: PhysMemory) returns (ms: MemorySet?)
    requires alloc.Valid() && alloc.current <= alloc.end <= PPN_LIMIT && phys.Valid()
    modifies alloc
    ensures ms != null ==> fresh(ms) && fresh(ms.pageTable) && ms.Valid(alloc, phys) && ms.areas == []
    ensures ms != null ==> AddrToPage(VirtAddrFrom(layout.trampoline)).Some?
    ensures ms != null ==> AddrToPage(VirtAddrFrom(layout.trampoline)).value < VPN_LIMIT
    ensures ms != null ==>
      IsValid(LeafEntry(ms.pageTable.mem, ms.pageTable.root_ppn, AddrToPage(VirtAddrFrom(layout.trampoline)).value))
  {
    ms := null;
    if Free(alloc.State()) == 0 {
      return;
    }
    var space := new MemorySet.NewBare(alloc, phys);
    var ok := space.MapTrampoline(layout.trampoline, layout.strampoline, alloc, phys);
    if !ok {
      return;
    }
    ghost var tramp := AddrToPage(VirtAddrFrom(layout.trampoline)).value;
    ghost var frame := AddrToPage(PhysAddrFrom(layout.strampoline)).value;
    NewEntryValid(frame, R | X);
    assert LeafEntry(space.pageTable.mem, space.pageTable.root_ppn, tramp) == NewEntry(frame, R | X | V);
    assert tramp < VPN_LIMIT by {
      assert tramp * PAGE_SIZE < VPN_LIMIT * PAGE_SIZE;
    }
    ms := space;
  }

  /** The older kernel's last two pushes: the user stack above the guard
      page, then the trap context. Returns user_stack_top. */
  method PushStackAndTrap(ms: MemorySet, maxEnd: nat, layout: Layout, alloc: StackFrameAllocator, phys: PhysMemory)
    returns (ok: bool, userStackTop: nat)
    requires ms.Valid(alloc, phys)
    modifies ms, ms.pageTable, alloc, phys
    ensures ms.pageTable == old(ms.pageTable) && ms.pageTable.root_ppn == old(ms.pageTable.root_ppn)
    ensures userStackTop == (StackBase(maxEnd) + layout.userStackSize) % USIZE
    ensures ok ==> StackArea(maxEnd, layout).Some? && TrapContextArea(layout).Some?
    ensures ok ==> ms.Valid(alloc, phys)
    ensures ok ==> ms.areas == old(ms.areas) + [StackArea(maxEnd, layout).value, TrapContextArea(layout).value]
    ensures ok ==> forall v: nat :: v < VPN_LIMIT && IsValid(LeafEntry(old(ms.pageTable.mem), ms.pageTable.root_ppn, v)) ==>
      LeafEntry(ms.pageTable.mem, ms.pageTable.root_ppn, v) == LeafEntry(old(ms.pageTable.mem), ms.pageTable.root_ppn, v)
  {
    var bottom := StackBase(maxEnd);
    userStackTop := (bottom + layout.userStackSize) % USIZE;
    var stack := NewArea(VirtAddrFrom(bottom), VirtAddrFrom(userStackTop), Framed, PERM_R | PERM_W | PERM_U);
    if stack.None? {
      return false, userStackTop;
    }
    ok := ms.Push(stack.value, None, alloc, phys);
    if !ok {
      return;
    }
    var trap := NewArea(VirtAddrFrom(layout.trapContext), VirtAddrFrom(layout.trampoline), Framed, PERM_R | PERM_W);
    if trap.None? {
      return false, userStackTop;
    }
    ok := ms.Push(trap.value, None, alloc, phys);
  }

  /** The older kernel's areas are the LOAD areas, then the stack, then the
      trap context. */
  lemma OsElfAreasShape(phs: seq<ProgramHeader>, layout: Layout)
    requires LoadAreas(phs).Some? && StackArea(MaxEndVpn(phs), layout).Some? && TrapContextArea(layout).Some?
    ensures OsElfAreas(phs, layout) ==
      Some(LoadAreas(phs).value + [StackArea(MaxEndVpn(phs), layout).value, TrapContextArea(layout).value])
  {
  }

  /** The os `from_elf`: a bare space, the trampoline, the LOAD areas, the
      user stack and the trap context. Returns the space (null on a panic)
      and user_stack_top. */
  method OsFromElf(phs: seq<ProgramHeader>, layout: Layout, alloc: StackFrameAllocator, phys: PhysMemory)
    returns (ms: MemorySet?, userStackTop: nat)
    requires alloc.Valid() && alloc.current <= alloc.end <= PPN_LIMIT && phys.Valid()
    modifies alloc, phys
    ensures ms != null ==> fresh(ms) && ms.Valid(alloc, phys)
    ensures ms != null ==> OsElfAreas(phs, layout).Some? && ms.areas == OsElfAreas(phs, layout).value
    ensures ms != null ==> userStackTop == (StackBase(MaxEndVpn(phs)) + layout.userStackSize) % USIZE
    ensures ms != null ==> AddrToPage(VirtAddrFrom(layout.trampoline)).Some?
    ensures ms != null ==>
      IsValid(LeafEntry(ms.pageTable.mem, ms.pageTable.root_ppn, AddrToPage(VirtAddrFrom(layout.trampoline)).value))
  {
    userStackTop := 0;
    ms := BareWithTrampoline(layout, alloc, phys);
    if ms == null {
      return;
    }
    ghost var tramp := AddrToPage(VirtAddrFrom(layout.trampoline)).value;
    ghost var mem0 := ms.pageTable.mem;
    var ok;
    ok, userStackTop := OsUserAreas(ms, phs, layout, alloc, phys);
    if !ok {
      return null, userStackTop;
    }
    assert LeafEntry(ms.pageTable.mem, ms.pageTable.root_ppn, tramp) == LeafEntry(mem0, ms.pageTable.root_ppn, tramp);
    assert [] + OsElfAreas(phs, layout).value == OsElfAreas(phs, layout).value;
  }

  /** The pushes of the os `from_elf` after the trampoline: the LOAD areas,
      the user stack and the trap context, keeping every valid leaf. */
  method OsUserAreas(ms: MemorySet, phs: seq<ProgramHeader>, layout: Layout, alloc: StackFrameAllocator, phys: PhysMemory)
    returns (ok: bool, userStackTop: nat)
    requires ms.Valid(alloc, phys)
    modifies ms, ms.pageTable, alloc, phys
    ensures ms.pageTable == old(ms.pageTable) && ms.pageTable.root_ppn == old(ms.pageTable.root_ppn)
    ensures ok ==> ms.Valid(alloc, phys) && OsElfAreas(phs, layout).Some? && ms.areas == old(ms.areas) + OsElfAreas(phs, layout).value
    ensures ok ==> userStackTop == (StackBase(MaxEndVpn(phs)) + layout.userStackSize) % USIZE
    ensures ok ==> forall v: nat :: v < VPN_LIMIT && IsValid(LeafEntry(old(ms.pageTable.mem), ms.pageTable.root_ppn, v)) ==>
      LeafEntry(ms.pageTable.mem, ms.pageTable.root_ppn, v) == LeafEntry(old(ms.pageTable.mem), ms.pageTable.root_ppn, v)
  {
    userStackTop := 0;
    ghost var areas0 := ms.areas;
    var maxEnd;
    ok, maxEnd := LoadSegments(ms, phs, alloc, phys);
    if !ok {
      return;
    }
    ghost var loads := LoadAreas(phs).value;
    ok, userStackTop := PushStackAndTrap(ms, maxEnd, layout, alloc, phys);
    if !ok {
      return;
    }
    OsElfAreasShape(phs, layout);
    assert areas0 + loads + [StackArea(maxEnd, layout).value, TrapContextArea(layout).value] ==
      areas0 + (loads + [StackArea(maxEnd, layout).value, TrapContextArea(layout).value]);
  }

  /** The current kernel's `from_elf`: a bare space, the trampoline and the
      LOAD areas only. Returns the space (null on a panic) and
      user_stack_base, one guard page above the last LOAD area. */
  method KernelFromElf(phs: seq<ProgramHeader>, layout: Layout, alloc: StackFrameAllocator, phys: PhysMemory)
    returns (ms: MemorySet?, userStackBase: nat)
    requires alloc.Valid() && alloc.current <= alloc.end <= PPN_LIMIT && phys.Valid()
    modifies alloc, phys
    ensures ms != null ==> fresh(ms) && ms.Valid(alloc, phys)
    ensures ms != null ==> LoadAreas(phs).Some? && ms.areas == LoadAreas(phs).value
    ensures ms != null ==> userStackBase == StackBase(MaxEndVpn(phs))
    ensures ms != null ==> AddrToPage(VirtAddrFrom(layout.trampoline)).Some?
    ensures ms != null ==>
      IsValid(LeafEntry(ms.pageTable.mem, ms.pageTable.root_ppn, AddrToPage(VirtAddrFrom(layout.trampoline)).value))
  {
    userStackBase := 0;
    ms := BareWithTrampoline(layout, alloc, phys);
    if ms == null {
      return;
    }
    var ok, maxEnd := LoadSegments(ms, phs, alloc, phys);
    if !ok {
      return null, userStackBase;
    }
    userStackBase := StackBase(maxEnd);
  }
}
