/** Address spaces (os/src/mm/memory_set.rs and kernel/src/mm/memory_set.rs).
    A `MapArea` is a run of virtual pages [start, end) with one mapping
    type and one permission; a `MemorySet` is a page table together with
    the list of areas pushed into it. In both kernels the data frames of
    framed pages are kept by the page table, keyed by virtual page number.
    A panic of the source (no free frame, a page mapped twice, a frame freed
    twice, a missing translation) is a `false` outcome here. */
module MemorySet {
  import opened Wrappers
  import Arith
  import opened Address
  import opened Pte
  import opened FrameAllocator
  import opened PageTable
  import opened FrameTracker

  datatype MapType = Identical | Framed

  /** `MapPermission`: the R, W, X and U bits, at the positions they have in
      a page-table entry. */
  type Permission = Flags
  const PERM_R: Permission := 2
  const PERM_W: Permission := 4
  const PERM_X: Permission := 8
  const PERM_U: Permission := 16

  datatype MapArea = MapArea(range: SimpleRange, mapType: MapType, perm: Permission)

  predicate InRange(area: MapArea, vpn: nat)
  {
    area.range.start <= vpn < area.range.end
  }

  /** `MapArea::new`: the pages from the floor of the start address to the
      ceiling of the end address. `VPNRange::new` panics (None) when the
      floor lies beyond the ceiling. */
  function NewArea(startVa: nat, endVa: nat, t: MapType, p: Permission): (r: Option<MapArea>)
    requires startVa < VA_LIMIT && endVa < VA_LIMIT
    ensures r.Some? <==> Floor(startVa) <= Ceil(endVa)
    ensures r.Some? ==> r.value.range.end <= VPN_LIMIT && r.value.mapType == t && r.value.perm == p
  {
    Rounding(endVa);
    match NewRange(Floor(startVa), Ceil(endVa))
    case None => None
    case Some(range) => Some(MapArea(range, t, p))
  }

  /** An area from `MapArea::new` holds exactly the pages that meet
      [startVa, endVa): a page is in it iff some address of the interval
      lies in that page. */
  lemma {:induction false} NewAreaCovers(startVa: nat, endVa: nat, t: MapType, p: Permission, vpn: nat)
    requires startVa < endVa < VA_LIMIT
    ensures NewArea(startVa, endVa, t, p).Some?
    ensures InRange(NewArea(startVa, endVa, t, p).value, vpn) <==>
      (vpn + 1) * PAGE_SIZE > startVa && vpn * PAGE_SIZE < endVa
  {
    Rounding(startVa);
    Rounding(endVa);
    var area := NewArea(startVa, endVa, t, p).value;
    assert area.range.start == Floor(startVa) && area.range.end == Ceil(endVa);
    if vpn < Floor(startVa) {
      assert (vpn + 1) * PAGE_SIZE <= Floor(startVa) * PAGE_SIZE;
    } else if vpn >= Ceil(endVa) {
      assert vpn * PAGE_SIZE >= Ceil(endVa) * PAGE_SIZE;
    } else {
      assert (vpn + 1) * PAGE_SIZE >= (Floor(startVa) + 1) * PAGE_SIZE;
      assert vpn <= Ceil(endVa) - 1;
      assert vpn * PAGE_SIZE <= (Ceil(endVa) - 1) * PAGE_SIZE;
    }
  }

  // ---------------------------------------------------------------
  // What it means for pages and areas to be mapped
  // ---------------------------------------------------------------

  /** vpn's leaf holds its frame (the same-numbered frame for an Identical
      area, its data frame for a Framed one) with the area's permission
      and V. */
  ghost predicate PageMapped(mem: Memory, root: nat, df: map<nat, nat>, area: MapArea, vpn: nat)
  {
    match area.mapType
    case Identical => LeafEntry(mem, root, vpn) == NewEntry(vpn, area.perm | V)
    case Framed => vpn in df && LeafEntry(mem, root, vpn) == NewEntry(df[vpn], area.perm | V)
  }

  ghost predicate AreaMapped(mem: Memory, root: nat, df: map<nat, nat>, area: MapArea)
  {
    forall vpn: nat :: InRange(area, vpn) ==> PageMapped(mem, root, df, area, vpn)
  }

  /** vpn keeps its data frame, or keeps having none, from df to df'. */
  ghost predicate KeepsFrame(df: map<nat, nat>, df': map<nat, nat>, vpn: nat)
  {
    (vpn in df' <==> vpn in df) && (vpn in df ==> df'[vpn] == df[vpn])
  }

  /** The data frames are in use in the allocator, are not table frames,
      and belong to one page each: the `FrameTracker`s own them. */
  ghost predicate DataOwned(df: map<nat, nat>, meta: seq<nat>, s: AllocatorState)
  {
    (forall v: nat :: v in df ==> df[v] in Live(s) && df[v] !in meta) &&
    (forall v, w :: v in df && w in df && v != w ==> df[v] != df[w])
  }

  /** From one state to a later one: every frame in use that was no page's
      data frame is still in use, is still no page's data frame, and keeps
      its bytes. */
  ghost predicate OthersKept(df0: map<nat, nat>, s0: AllocatorState, f0: map<nat, seq<Byte>>,
                             df1: map<nat, nat>, s1: AllocatorState, f1: map<nat, seq<Byte>>)
  {
    forall q :: q in Live(s0) && q !in df0.Values ==>
      q in Live(s1) && q !in df1.Values && Content(f1, q) == Content(f0, q)
  }

  /** Every frame in use keeps its bytes. */
  ghost predicate LiveBytesKept(s0: AllocatorState, f0: map<nat, seq<Byte>>, f1: map<nat, seq<Byte>>)
  {
    forall q :: q in Live(s0) ==> Content(f1, q) == Content(f0, q)
  }

  lemma ValuesUpdate(df: map<nat, nat>, k: nat, x: nat)
    ensures df[k := x].Values <= df.Values + {x}
  {
    forall q | q in df[k := x].Values
      ensures q in df.Values + {x}
    {
      var v :| v in df[k := x] && df[k := x][v] == q;
      if v != k {
        assert df[v] == q;
      }
    }
  }

  lemma MappedIsValid(mem: Memory, root: nat, df: map<nat, nat>, area: MapArea, vpn: nat)
    requires PageMapped(mem, root, df, area, vpn)
    ensures IsValid(LeafEntry(mem, root, vpn))
  {
    if area.mapType == Identical {
      NewEntryValid(vpn, area.perm | V);
    } else {
      NewEntryValid(df[vpn], area.perm | V);
    }
  }

  // ---------------------------------------------------------------
  // MapArea::map_one / map / unmap_one / unmap
  // ---------------------------------------------------------------

  /** Growing the table and the allocator keeps the data frames owned. */
  lemma DataOwnedGrows(df: map<nat, nat>, meta0: seq<nat>, s0: AllocatorState, meta1: seq<nat>, s1: AllocatorState)
    requires DataOwned(df, meta0, s0) && Grows(s0, meta0, s1, meta1)
    ensures DataOwned(df, meta1, s1)
  {
  }

  /** The Framed half of `map_one` before the leaf is installed: allocate
      and clear a frame, record it as vpn's data frame, and drop the frame
      it replaces. */
  method TakeFrame(pt: PageTable, vpn: nat, alloc: StackFrameAllocator, phys: PhysMemory) returns (frame: Option<nat>)
    requires pt.Valid() && pt.Owns(alloc) && phys.Valid()
    requires DataOwned(pt.data_frames, pt.metadata_frames, alloc.State())
    modifies pt, alloc, phys
    ensures pt.Valid() && pt.Owns(alloc) && phys.Valid()
    ensures DataOwned(pt.data_frames, pt.metadata_frames, alloc.State())
    ensures pt.root_ppn == old(pt.root_ppn) && pt.mem == old(pt.mem) && pt.metadata_frames == old(pt.metadata_frames)
    ensures forall v: nat :: v != vpn ==> KeepsFrame(old(pt.data_frames), pt.data_frames, v)
    ensures frame.Some? ==> vpn in pt.data_frames && pt.data_frames[vpn] == frame.value
    ensures frame.Some? ==> frame.value !in Live(old(alloc.State())) && Content(phys.frames, frame.value) == ZeroPage()
    ensures frame.None? ==> Free(old(alloc.State())) == 0
    ensures frame.Some? ==> Free(old(alloc.State())) <= Free(alloc.State()) + 1
    ensures OthersKept(old(pt.data_frames), old(alloc.State()), old(phys.frames), pt.data_frames, alloc.State(), phys.frames)
    ensures LiveBytesKept(old(alloc.State()), old(phys.frames), phys.frames)
  {
    ghost var df0 := pt.data_frames;
    AllocUsesOneFree(alloc.State());
    frame := FrameAlloc(alloc, phys);
    if frame.None? {
      return;
    }
    var prev := pt.Insert(vpn, frame.value);
    ValuesUpdate(df0, vpn, frame.value);
    if prev.Some? {
      assert prev.value in df0.Values;
      var freed := FrameDrop(alloc, prev.value);
      if !freed {
        assert false;
      }
    }
  }

  /** `map_one`: an Identical page maps to the same-numbered frame; a Framed
      page gets a fresh zeroed frame, recorded as its data frame (a frame it
      had before is dropped), then the leaf is installed. */
  method MapOne(area: MapArea, pt: PageTable, vpn: nat, alloc: StackFrameAllocator, phys: PhysMemory) returns (ok: bool)
    requires pt.Valid() && pt.Owns(alloc) && phys.Valid()
    requires DataOwned(pt.data_frames, pt.metadata_frames, alloc.State())
    modifies pt, alloc, phys
    ensures pt.Valid() && pt.Owns(alloc) && phys.Valid() && pt.root_ppn == old(pt.root_ppn)
    ensures DataOwned(pt.data_frames, pt.metadata_frames, alloc.State())
    ensures forall v: nat :: v != vpn ==> KeepsFrame(old(pt.data_frames), pt.data_frames, v)
    ensures ok ==> PageMapped(pt.mem, pt.root_ppn, pt.data_frames, area, vpn)
    ensures ok ==> !IsValid(LeafEntry(old(pt.mem), pt.root_ppn, vpn))
    ensures ok ==> forall v: nat :: Indexes(v) != Indexes(vpn) ==>
      LeafEntry(pt.mem, pt.root_ppn, v) == LeafEntry(old(pt.mem), pt.root_ppn, v)
    ensures area.mapType == Identical ==>
      pt.data_frames == old(pt.data_frames) && phys.frames == old(phys.frames) &&
      (ok <==> (!IsValid(LeafEntry(old(pt.mem), pt.root_ppn, vpn)) &&
        MissingTables(old(pt.mem), pt.root_ppn, vpn, 2) <= Free(old(alloc.State()))))
    ensures ok && area.mapType == Framed ==>
      pt.data_frames[vpn] !in Live(old(alloc.State())) && Content(phys.frames, pt.data_frames[vpn]) == ZeroPage()
    ensures !ok ==> (IsValid(LeafEntry(old(pt.mem), pt.root_ppn, vpn)) ||
      Free(old(alloc.State())) < MissingTables(old(pt.mem), pt.root_ppn, vpn, 2) + (if area.mapType == Framed then 1 else 0))
    ensures OthersKept(old(pt.data_frames), old(alloc.State()), old(phys.frames), pt.data_frames, alloc.State(), phys.frames)
    ensures LiveBytesKept(old(alloc.State()), old(phys.frames), phys.frames)
  {
    var ppn: nat;
    if area.mapType == Identical {
      ppn := vpn;
    } else {
      var frame := TakeFrame(pt, vpn, alloc, phys);
      if frame.None? {
        return false;
      }
      ppn := frame.value;
    }
    ghost var df, meta, s := pt.data_frames, pt.metadata_frames, alloc.State();
    ok := pt.Map(vpn, ppn, area.perm, alloc);
    DataOwnedGrows(df, meta, s, pt.metadata_frames, alloc.State());
  }

  /** `MapArea::map`: `map_one` on every page of the range, in order. On
      success every page of the area is mapped, none of them was mapped
      before, and no other page below 2^27 changed its translation. */
  method MapPages(area: MapArea, pt: PageTable, alloc: StackFrameAllocator, phys: PhysMemory) returns (ok: bool)
    requires pt.Valid() && pt.Owns(alloc) && phys.Valid()
    requires DataOwned(pt.data_frames, pt.metadata_frames, alloc.State())
    requires area.range.end <= VPN_LIMIT
    modifies pt, alloc, phys
    ensures pt.Valid() && pt.Owns(alloc) && phys.Valid() && pt.root_ppn == old(pt.root_ppn)
    ensures DataOwned(pt.data_frames, pt.metadata_frames, alloc.State())
    ensures forall v: nat :: !InRange(area, v) ==> KeepsFrame(old(pt.data_frames), pt.data_frames, v)
    ensures ok ==> AreaMapped(pt.mem, pt.root_ppn, pt.data_frames, area)
    ensures ok ==> forall v: nat :: InRange(area, v) ==> !IsValid(LeafEntry(old(pt.mem), pt.root_ppn, v))
    ensures ok ==> forall v: nat :: v < VPN_LIMIT && !InRange(area, v) ==>
      LeafEntry(pt.mem, pt.root_ppn, v) == LeafEntry(old(pt.mem), pt.root_ppn, v)
    ensures OthersKept(old(pt.data_frames), old(alloc.State()), old(phys.frames), pt.data_frames, alloc.State(), phys.frames)
    ensures forall v: nat :: !InRange(area, v) && v in old(pt.data_frames) ==>
      Content(phys.frames, old(pt.data_frames)[v]) == Content(old(phys.frames), old(pt.data_frames)[v])
  {
    ghost var mem0, df0, s0, f0 := pt.mem, pt.data_frames, alloc.State(), phys.frames;
    var root := pt.root_ppn;
    var vpn := area.range.start;
    while vpn < area.range.end
      invariant area.range.start <= vpn && (vpn <= area.range.end || vpn == area.range.start)
      invariant pt.Valid() && pt.Owns(alloc) && phys.Valid() && pt.root_ppn == root
      invariant DataOwned(pt.data_frames, pt.metadata_frames, alloc.State())
      invariant MapProgress(area, root, mem0, df0, pt.mem, pt.data_frames, vpn)
      invariant OthersKept(df0, s0, f0, pt.data_frames, alloc.State(), phys.frames)
      invariant forall v: nat :: !(area.range.start <= v < vpn) && v in df0 ==> Content(phys.frames, df0[v]) == Content(f0, df0[v])
      decreases area.range.end - vpn
    {
      ghost var df1, s1, meta1, f1 := pt.data_frames, alloc.State(), pt.metadata_frames, phys.frames;
      ok := MapAt(area, pt, alloc, phys, vpn, root, mem0, df0);
      OthersKeptTrans(df0, s0, f0, df1, s1, f1, pt.data_frames, alloc.State(), phys.frames);
      BytesStep(df0, f0, df1, s1, meta1, f1, phys.frames, area.range.start, vpn);
      if !ok {
        return;
      }
      vpn := vpn + 1;
    }
    MapFinished(area, root, mem0, df0, pt.mem, pt.data_frames, vpn);
    ok := true;
  }

  /** The pages of [start, vpn) are mapped and were not mapped before, and
      every other page keeps its frame and its translation. */
  ghost predicate MapProgress(area: MapArea, root: nat, mem0: Memory, df0: map<nat, nat>,
                              mem: Memory, df: map<nat, nat>, vpn: nat)
  {
    var lo := area.range.start;
    (forall v: nat :: !(lo <= v < vpn) ==> KeepsFrame(df0, df, v)) &&
    (forall v: nat :: lo <= v < vpn ==> PageMapped(mem, root, df, area, v)) &&
    (forall v: nat :: lo <= v < vpn ==> !IsValid(LeafEntry(mem0, root, v))) &&
    (forall v: nat :: v < VPN_LIMIT && !(lo <= v < vpn) ==> LeafEntry(mem, root, v) == LeafEntry(mem0, root, v))
  }

  /** One iteration of `MapArea::map`: `map_one` at vpn, and what it does
      to the progress made so far. */
  method MapAt(area: MapArea, pt: PageTable, alloc: StackFrameAllocator, phys: PhysMemory, vpn: nat,
               ghost root: nat, ghost mem0: Memory, ghost df0: map<nat, nat>) returns (ok: bool)
    requires pt.Valid() && pt.Owns(alloc) && phys.Valid() && pt.root_ppn == root
    requires DataOwned(pt.data_frames, pt.metadata_frames, alloc.State())
    requires area.range.start <= vpn < area.range.end <= VPN_LIMIT
    requires MapProgress(area, root, mem0, df0, pt.mem, pt.data_frames, vpn)
    modifies pt, alloc, phys
    ensures pt.Valid() && pt.Owns(alloc) && phys.Valid() && pt.root_ppn == root
    ensures DataOwned(pt.data_frames, pt.metadata_frames, alloc.State())
    ensures ok ==> MapProgress(area, root, mem0, df0, pt.mem, pt.data_frames, vpn + 1)
    ensures !ok ==> forall v: nat :: !InRange(area, v) ==> KeepsFrame(df0, pt.data_frames, v)
    ensures OthersKept(old(pt.data_frames), old(alloc.State()), old(phys.frames), pt.data_frames, alloc.State(), phys.frames)
    ensures LiveBytesKept(old(alloc.State()), old(phys.frames), phys.frames)
  {
    ghost var mem1, df1 := pt.mem, pt.data_frames;
    ok := MapOne(area, pt, vpn, alloc, phys);
    KeepsFrameStep(df0, df1, pt.data_frames, area.range.start, vpn);
    if !ok {
      return;
    }
    MapStep(area, mem1, df1, pt.mem, pt.data_frames, root, vpn);
    MapAdvance(area, root, mem0, df0, mem1, df1, pt.mem, pt.data_frames, vpn);
  }

  /** A page newly mapped at vpn, with nothing else changed, advances the
      progress by one page. */
  lemma MapAdvance(area: MapArea, root: nat, mem0: Memory, df0: map<nat, nat>,
                   mem1: Memory, df1: map<nat, nat>, mem2: Memory, df2: map<nat, nat>, vpn: nat)
    requires area.range.start <= vpn < area.range.end <= VPN_LIMIT
    requires MapProgress(area, root, mem0, df0, mem1, df1, vpn)
    requires forall v: nat :: !(area.range.start <= v < vpn + 1) ==> KeepsFrame(df0, df2, v)
    requires PageMapped(mem2, root, df2, area, vpn) && !IsValid(LeafEntry(mem1, root, vpn))
    requires forall v: nat :: v < VPN_LIMIT && v != vpn ==> LeafEntry(mem2, root, v) == LeafEntry(mem1, root, v)
    requires forall v: nat :: v < VPN_LIMIT && v != vpn && PageMapped(mem1, root, df1, area, v) ==> PageMapped(mem2, root, df2, area, v)
    ensures MapProgress(area, root, mem0, df0, mem2, df2, vpn + 1)
  {
    assert LeafEntry(mem1, root, vpn) == LeafEntry(mem0, root, vpn);
  }

  /** Progress over the whole range is the outcome `MapArea::map`
      promises. */
  lemma MapFinished(area: MapArea, root: nat, mem0: Memory, df0: map<nat, nat>,
                    mem: Memory, df: map<nat, nat>, vpn: nat)
    requires vpn == area.range.start || vpn == area.range.end
    requires area.range.end <= vpn
    requires MapProgress(area, root, mem0, df0, mem, df, vpn)
    ensures forall v: nat :: !InRange(area, v) ==> KeepsFrame(df0, df, v)
    ensures AreaMapped(mem, root, df, area)
    ensures forall v: nat :: InRange(area, v) ==> !IsValid(LeafEntry(mem0, root, v))
    ensures forall v: nat :: v < VPN_LIMIT && !InRange(area, v) ==> LeafEntry(mem, root, v) == LeafEntry(mem0, root, v)
  {
  }

  lemma OthersKeptTrans(df0: map<nat, nat>, s0: AllocatorState, f0: map<nat, seq<Byte>>,
                        df1: map<nat, nat>, s1: AllocatorState, f1: map<nat, seq<Byte>>,
                        df2: map<nat, nat>, s2: AllocatorState, f2: map<nat, seq<Byte>>)
    requires OthersKept(df0, s0, f0, df1, s1, f1) && OthersKept(df1, s1, f1, df2, s2, f2)
    ensures OthersKept(df0, s0, f0, df2, s2, f2)
  {
  }

  /** The data frames of the pages outside [lo, vpn), which keep their
      frames and are in use, keep their bytes through a step that keeps
      the bytes of every frame in use. */
  lemma BytesStep(df0: map<nat, nat>, f0: map<nat, seq<Byte>>, df1: map<nat, nat>, s1: AllocatorState, meta1: seq<nat>,
                  f1: map<nat, seq<Byte>>, f2: map<nat, seq<Byte>>, lo: nat, vpn: nat)
    requires forall v: nat :: !(lo <= v < vpn) ==> KeepsFrame(df0, df1, v)
    requires DataOwned(df1, meta1, s1)
    requires forall v: nat :: !(lo <= v < vpn) && v in df0 ==> Content(f1, df0[v]) == Content(f0, df0[v])
    requires LiveBytesKept(s1, f1, f2)
    ensures forall v: nat :: !(lo <= v < vpn) && v in df0 ==> Content(f2, df0[v]) == Content(f0, df0[v])
  {
    forall v: nat | !(lo <= v < vpn) && v in df0
      ensures Content(f2, df0[v]) == Content(f0, df0[v])
    {
      assert KeepsFrame(df0, df1, v);
      assert df1[v] in Live(s1);
    }
  }

  /** Frames kept outside [lo, vpn) and then outside {vpn} are kept outside
      [lo, vpn + 1). */
  lemma KeepsFrameStep(df0: map<nat, nat>, df1: map<nat, nat>, df2: map<nat, nat>, lo: nat, vpn: nat)
    requires forall v: nat :: !(lo <= v < vpn) ==> KeepsFrame(df0, df1, v)
    requires forall v: nat :: v != vpn ==> KeepsFrame(df1, df2, v)
    requires lo <= vpn
    ensures forall v: nat :: !(lo <= v < vpn + 1) ==> KeepsFrame(df0, df2, v)
  {
    forall v: nat | !(lo <= v < vpn + 1)
      ensures KeepsFrame(df0, df2, v)
    {
      assert KeepsFrame(df0, df1, v) && KeepsFrame(df1, df2, v);
    }
  }

  /** One page of `MapArea::map`: the pages mapped before keep their leaves
      and frames when vpn, a page of the area beyond them, is mapped. */
  lemma MapStep(area: MapArea, mem1: Memory, df1: map<nat, nat>, mem2: Memory, df2: map<nat, nat>, root: nat, vpn: nat)
    requires vpn < area.range.end <= VPN_LIMIT
    requires forall v: nat :: v != vpn ==> KeepsFrame(df1, df2, v)
    requires forall v: nat :: Indexes(v) != Indexes(vpn) ==> LeafEntry(mem2, root, v) == LeafEntry(mem1, root, v)
    ensures forall v: nat :: v < VPN_LIMIT && v != vpn ==> LeafEntry(mem2, root, v) == LeafEntry(mem1, root, v)
    ensures forall v: nat :: v < VPN_LIMIT && v != vpn && PageMapped(mem1, root, df1, area, v) ==> PageMapped(mem2, root, df2, area, v)
  {
    forall v: nat | v < VPN_LIMIT && v != vpn
      ensures LeafEntry(mem2, root, v) == LeafEntry(mem1, root, v)
    {
      if Indexes(v) == Indexes(vpn) {
        IndexesInjective(v, vpn);
      }
    }
    forall v: nat | v < VPN_LIMIT && v != vpn && PageMapped(mem1, root, df1, area, v)
      ensures PageMapped(mem2, root, df2, area, v)
    {
      assert KeepsFrame(df1, df2, v);
    }
  }

  /** `unmap_one`: a Framed page first drops its data frame, then the leaf
      is cleared. It fails (the source panics) exactly when the leaf was
      not valid; the frame's drop cannot fail while the frames are owned. */
  method UnmapOne(area: MapArea, pt: PageTable, vpn: nat, alloc: StackFrameAllocator) returns (ok: bool)
    requires pt.Valid() && pt.Owns(alloc)
    requires DataOwned(pt.data_frames, pt.metadata_frames, alloc.State())
    modifies pt, alloc
    ensures pt.Valid() && pt.Owns(alloc) && pt.root_ppn == old(pt.root_ppn)
    ensures DataOwned(pt.data_frames, pt.metadata_frames, alloc.State())
    ensures ok <==> IsValid(LeafEntry(old(pt.mem), pt.root_ppn, vpn))
    ensures ok ==> LeafEntry(pt.mem, pt.root_ppn, vpn) == EMPTY
    ensures ok ==> forall v: nat :: Indexes(v) != Indexes(vpn) ==>
      LeafEntry(pt.mem, pt.root_ppn, v) == LeafEntry(old(pt.mem), pt.root_ppn, v)
    ensures forall v: nat :: v != vpn ==> KeepsFrame(old(pt.data_frames), pt.data_frames, v)
    ensures area.mapType == Identical ==> pt.data_frames == old(pt.data_frames) && alloc.State() == old(alloc.State())
    ensures area.mapType == Framed ==> pt.data_frames == old(pt.data_frames) - {vpn}
    ensures area.mapType == Framed ==>
      Live(alloc.State()) == Live(old(alloc.State())) - FramesIn(old(pt.data_frames), vpn, vpn + 1)
  {
    if area.mapType == Framed {
      var prev := pt.Remove(vpn);
      if prev.Some? {
        var freed := FrameDrop(alloc, prev.value);
        if !freed {
          assert false;
        }
        assert FramesIn(old(pt.data_frames), vpn, vpn + 1) == {prev.value};
      } else {
        assert FramesIn(old(pt.data_frames), vpn, vpn + 1) == {};
      }
    }
    ok := pt.Unmap(vpn);
  }

  /** The data frames of the pages in [lo, hi). */
  ghost function FramesIn(df: map<nat, nat>, lo: nat, hi: nat): set<nat>
  {
    set v | v in df && lo <= v < hi :: df[v]
  }

  lemma FramesInStep(df: map<nat, nat>, lo: nat, vpn: nat)
    requires lo <= vpn
    ensures FramesIn(df, lo, vpn + 1) == FramesIn(df, lo, vpn) + FramesIn(df, vpn, vpn + 1)
  {
    var all, before, at := FramesIn(df, lo, vpn + 1), FramesIn(df, lo, vpn), FramesIn(df, vpn, vpn + 1);
    forall f | f in all
      ensures f in before + at
    {
      var v :| v in df && lo <= v < vpn + 1 && df[v] == f;
      if v < vpn {
        assert f in before;
      } else {
        assert f in at;
      }
    }
  }

  /** How far `MapArea::unmap` has got: the pages of [lo, vpn) were all
      mapped at the start (in mem0) and are now cleared, and no page outside
      them changed its frame or, below 2^27, its leaf. A Framed area's pages
      have lost their data frames, which are back in the allocator; an
      Identical area touches neither. */
  ghost predicate UnmapProgress(area: MapArea, root: nat, mem0: Memory, df0: map<nat, nat>, s0: AllocatorState,
                                mem: Memory, df: map<nat, nat>, s: AllocatorState, vpn: nat)
  {
    var lo := area.range.start;
    (forall v: nat :: !(lo <= v < vpn) ==> KeepsFrame(df0, df, v)) &&
    (forall v: nat :: lo <= v < vpn ==> IsValid(LeafEntry(mem0, root, v)) && LeafEntry(mem, root, v) == EMPTY) &&
    (forall v: nat :: v < VPN_LIMIT && !(lo <= v < vpn) ==> LeafEntry(mem, root, v) == LeafEntry(mem0, root, v)) &&
    (area.mapType == Framed ==>
      (forall v: nat :: lo <= v < vpn ==> v !in df) && Live(s) == Live(s0) - FramesIn(df0, lo, vpn)) &&
    (area.mapType == Identical ==> df == df0 && s == s0)
  }

  /** One successful `unmap_one` at vpn advances the progress by one page. */
  lemma UnmapAdvance(area: MapArea, root: nat, mem0: Memory, df0: map<nat, nat>, s0: AllocatorState,
                     mem1: Memory, df1: map<nat, nat>, s1: AllocatorState,
                     mem2: Memory, df2: map<nat, nat>, s2: AllocatorState, vpn: nat)
    requires area.range.start <= vpn < area.range.end <= VPN_LIMIT
    requires UnmapProgress(area, root, mem0, df0, s0, mem1, df1, s1, vpn)
    requires IsValid(LeafEntry(mem1, root, vpn)) && LeafEntry(mem2, root, vpn) == EMPTY
    requires forall v: nat :: Indexes(v) != Indexes(vpn) ==> LeafEntry(mem2, root, v) == LeafEntry(mem1, root, v)
    requires forall v: nat :: v != vpn ==> KeepsFrame(df1, df2, v)
    requires area.mapType == Identical ==> df2 == df1 && s2 == s1
    requires area.mapType == Framed ==> df2 == df1 - {vpn} && Live(s2) == Live(s1) - FramesIn(df1, vpn, vpn + 1)
    ensures UnmapProgress(area, root, mem0, df0, s0, mem2, df2, s2, vpn + 1)
  {
    var lo := area.range.start;
    KeepsFrameStep(df0, df1, df2, lo, vpn);
    UnmapStep(mem1, mem2, root, lo, vpn);
    if area.mapType == Framed {
      FramesInStep(df0, lo, vpn);
      assert FramesIn(df1, vpn, vpn + 1) == FramesIn(df0, vpn, vpn + 1) by {
        assert KeepsFrame(df0, df1, vpn);
      }
    }
  }

  /** `MapArea::unmap`: `unmap_one` on every page of the range, in order.
      It succeeds exactly when every page of the area was mapped; then all
      of them are cleared, their data frames are back in the allocator,
      and no other page below 2^27 changed its translation. */
  method UnmapPages(area: MapArea, pt: PageTable, alloc: StackFrameAllocator) returns (ok: bool)
    requires pt.Valid() && pt.Owns(alloc)
    requires DataOwned(pt.data_frames, pt.metadata_frames, alloc.State())
    requires area.range.end <= VPN_LIMIT
    modifies pt, alloc
    ensures pt.Valid() && pt.Owns(alloc) && pt.root_ppn == old(pt.root_ppn)
    ensures DataOwned(pt.data_frames, pt.metadata_frames, alloc.State())
    ensures ok <==> forall v: nat :: InRange(area, v) ==> IsValid(LeafEntry(old(pt.mem), pt.root_ppn, v))
    ensures forall v: nat :: !InRange(area, v) ==> KeepsFrame(old(pt.data_frames), pt.data_frames, v)
    ensures ok ==> forall v: nat :: InRange(area, v) ==> LeafEntry(pt.mem, pt.root_ppn, v) == EMPTY
    ensures ok ==> forall v: nat :: v < VPN_LIMIT && !InRange(area, v) ==>
      LeafEntry(pt.mem, pt.root_ppn, v) == LeafEntry(old(pt.mem), pt.root_ppn, v)
    ensures ok && area.mapType == Framed ==>
      (forall v: nat :: InRange(area, v) ==> v !in pt.data_frames) &&
      Live(alloc.State()) == Live(old(alloc.State())) - FramesIn(old(pt.data_frames), area.range.start, area.range.end)
    ensures ok && area.mapType == Identical ==> pt.data_frames == old(pt.data_frames) && alloc.State() == old(alloc.State())
  {
    ghost var mem0, df0, s0 := pt.mem, pt.data_frames, alloc.State();
    var vpn;
    ok, vpn := UnmapLoop(area, pt, alloc);
    if ok {
      UnmapFinished(area, pt.root_ppn, mem0, df0, s0, pt.mem, pt.data_frames, alloc.State(), vpn);
    }
  }

  /** The loop of `MapArea::unmap`: it stops at the first page that is not
      mapped, or runs through the whole range. */
  method UnmapLoop(area: MapArea, pt: PageTable, alloc: StackFrameAllocator) returns (ok: bool, vpn: nat)
    requires pt.Valid() && pt.Owns(alloc)
    requires DataOwned(pt.data_frames, pt.metadata_frames, alloc.State())
    requires area.range.end <= VPN_LIMIT
    modifies pt, alloc
    ensures pt.Valid() && pt.Owns(alloc) && pt.root_ppn == old(pt.root_ppn)
    ensures DataOwned(pt.data_frames, pt.metadata_frames, alloc.State())
    ensures ok ==> ((vpn == area.range.start || vpn == area.range.end) && area.range.end <= vpn &&
      UnmapProgress(area, pt.root_ppn, old(pt.mem), old(pt.data_frames), old(alloc.State()),
                    pt.mem, pt.data_frames, alloc.State(), vpn))
    ensures !ok ==> InRange(area, vpn) && !IsValid(LeafEntry(old(pt.mem), pt.root_ppn, vpn))
    ensures !ok ==> forall v: nat :: !InRange(area, v) ==> KeepsFrame(old(pt.data_frames), pt.data_frames, v)
  {
    ghost var mem0, df0, s0 := pt.mem, pt.data_frames, alloc.State();
    var root := pt.root_ppn;
    vpn := area.range.start;
    while vpn < area.range.end
      invariant area.range.start <= vpn && (vpn <= area.range.end || vpn == area.range.start)
      invariant pt.Valid() && pt.Owns(alloc) && pt.root_ppn == root
      invariant DataOwned(pt.data_frames, pt.metadata_frames, alloc.State())
      invariant UnmapProgress(area, root, mem0, df0, s0, pt.mem, pt.data_frames, alloc.State(), vpn)
      decreases area.range.end - vpn
    {
      ok := UnmapAt(area, pt, alloc, vpn, root, mem0, df0, s0);
      if !ok {
        return;
      }
      vpn := vpn + 1;
    }
    ok := true;
  }

  /** Progress over the whole range is the outcome `MapArea::unmap`
      promises when every page was mapped. */
  lemma UnmapFinished(area: MapArea, root: nat, mem0: Memory, df0: map<nat, nat>, s0: AllocatorState,
                      mem: Memory, df: map<nat, nat>, s: AllocatorState, vpn: nat)
    requires vpn == area.range.start || vpn == area.range.end
    requires area.range.end <= vpn
    requires UnmapProgress(area, root, mem0, df0, s0, mem, df, s, vpn)
    ensures forall v: nat :: InRange(area, v) ==> IsValid(LeafEntry(mem0, root, v))
    ensures forall v: nat :: !InRange(area, v) ==> KeepsFrame(df0, df, v)
    ensures forall v: nat :: InRange(area, v) ==> LeafEntry(mem, root, v) == EMPTY
    ensures forall v: nat :: v < VPN_LIMIT && !InRange(area, v) ==> LeafEntry(mem, root, v) == LeafEntry(mem0, root, v)
    ensures area.mapType == Framed ==>
      (forall v: nat :: InRange(area, v) ==> v !in df) &&
      Live(s) == Live(s0) - FramesIn(df0, area.range.start, area.range.end)
    ensures area.mapType == Identical ==> df == df0 && s == s0
  {
    if vpn != area.range.end {
      assert FramesIn(df0, area.range.start, area.range.end) == {} == FramesIn(df0, area.range.start, vpn);
    }
  }

  /** One iteration of `MapArea::unmap`: `unmap_one` at vpn, and what it
      does to the progress made so far. */
  method UnmapAt(area: MapArea, pt: PageTable, alloc: StackFrameAllocator, vpn: nat, ghost root: nat,
                 ghost mem0: Memory, ghost df0: map<nat, nat>, ghost s0: AllocatorState) returns (ok: bool)
    requires pt.Valid() && pt.Owns(alloc) && pt.root_ppn == root
    requires DataOwned(pt.data_frames, pt.metadata_frames, alloc.State())
    requires area.range.start <= vpn < area.range.end <= VPN_LIMIT
    requires UnmapProgress(area, root, mem0, df0, s0, pt.mem, pt.data_frames, alloc.State(), vpn)
    modifies pt, alloc
    ensures pt.Valid() && pt.Owns(alloc) && pt.root_ppn == root
    ensures DataOwned(pt.data_frames, pt.metadata_frames, alloc.State())
    ensures ok ==> UnmapProgress(area, root, mem0, df0, s0, pt.mem, pt.data_frames, alloc.State(), vpn + 1)
    ensures !ok ==> !IsValid(LeafEntry(mem0, root, vpn))
    ensures !ok ==> forall v: nat :: !InRange(area, v) ==> KeepsFrame(df0, pt.data_frames, v)
  {
    ghost var mem1, df1, s1 := pt.mem, pt.data_frames, alloc.State();
    ok := UnmapOne(area, pt, vpn, alloc);
    if !ok {
      KeepsFrameStep(df0, df1, pt.data_frames, area.range.start, vpn);
      return;
    }
    UnmapAdvance(area, root, mem0, df0, s0, mem1, df1, s1, pt.mem, pt.data_frames, alloc.State(), vpn);
  }

  /** One page of `MapArea::unmap`: clearing vpn leaves every other page
      below 2^27 as it was. */
  lemma UnmapStep(mem1: Memory, mem2: Memory, root: nat, lo: nat, vpn: nat)
    requires vpn < VPN_LIMIT
    requires forall v: nat :: Indexes(v) != Indexes(vpn) ==> LeafEntry(mem2, root, v) == LeafEntry(mem1, root, v)
    ensures forall v: nat :: v < VPN_LIMIT && v != vpn ==> LeafEntry(mem2, root, v) == LeafEntry(mem1, root, v)
  {
    forall v: nat | v < VPN_LIMIT && v != vpn
      ensures LeafEntry(mem2, root, v) == LeafEntry(mem1, root, v)
    {
      if Indexes(v) == Indexes(vpn) {
        IndexesInjective(v, vpn);
      }
    }
  }

  // ---------------------------------------------------------------
  // MapArea::copy_data
  // ---------------------------------------------------------------

  function ChunkLen(n: nat): (c: nat)
    ensures c <= PAGE_SIZE && c <= n && (n > 0 ==> c > 0)
  {
    if n < PAGE_SIZE then n else PAGE_SIZE
  }

  /** `data` written a page at a time into the frames named by the leaves of
      vpn, vpn + 1, ...: each chunk of up to PAGE_SIZE bytes goes to the
      start of its frame and the rest of the frame is kept. None when a page
      has no leaf table (`translate(..).unwrap()` panics). */
  function CopyChunks(frames: map<nat, seq<Byte>>, leaf: LeafView, vpn: nat, data: seq<Byte>): (r: Option<map<nat, seq<Byte>>>)
    requires PagesWellSized(frames)
    ensures r.Some? ==> PagesWellSized(r.value)
    decreases |data|
  {
    if |data| == 0 then Some(frames)
    else if leaf(vpn).None? then None
    else
      var n := ChunkLen(|data|);
      var ppn := LeafPpn(leaf, vpn);
      CopyChunks(frames[ppn := data[..n] + Content(frames, ppn)[n..]], leaf, vpn + 1, data[n..])
  }

  /** `copy_data` as written: it asserts the area is Framed and cuts the
      data into `chunks(min(PAGE_SIZE, len))`, which panics for a chunk
      size of zero, so empty data is a panic. */
  function CopyDataAsWritten(area: MapArea, frames: map<nat, seq<Byte>>, leaf: LeafView, data: seq<Byte>): Option<map<nat, seq<Byte>>>
    requires PagesWellSized(frames)
  {
    if area.mapType != Framed || ChunkLen(|data|) == 0 then None
    else CopyChunks(frames, leaf, area.range.start, data)
  }

  /** A loadable segment with no file bytes gives `copy_data` empty data;
      as written that panics, although there is nothing to copy. */
  lemma EmptyDataPanics(area: MapArea, frames: map<nat, seq<Byte>>, leaf: LeafView)
    requires PagesWellSized(frames) && area.mapType == Framed
    ensures CopyDataAsWritten(area, frames, leaf, []) == None
    ensures CopyChunks(frames, leaf, area.range.start, []) == Some(frames)
  {
  }

  /** `copy_data` with the empty case guarded: Framed areas only, chunks
      of up to a page into consecutive pages from the area's start. */
  method CopyData(area: MapArea, pt: PageTable, phys: PhysMemory, data: seq<Byte>) returns (ok: bool)
    requires pt.Valid() && phys.Valid()
    modifies phys
    ensures phys.Valid()
    ensures ok <==> (area.mapType == Framed &&
      CopyChunks(old(phys.frames), TableView(pt.mem, pt.root_ppn), area.range.start, data).Some?)
    ensures ok ==> phys.frames == CopyChunks(old(phys.frames), TableView(pt.mem, pt.root_ppn), area.range.start, data).value
    ensures data == [] ==> phys.frames == old(phys.frames)
  {
    if area.mapType != Framed {
      return false;
    }
    ok := WriteChunks(TableView(pt.mem, pt.root_ppn), phys, area.range.start, data);
  }

  /** The loop of `copy_data`: translate the current page, copy one chunk
      into its frame, step to the next page. */
  method WriteChunks(leaf: LeafView, phys: PhysMemory, start: nat, data: seq<Byte>) returns (ok: bool)
    requires phys.Valid()
    modifies phys
    ensures phys.Valid()
    ensures ok <==> CopyChunks(old(phys.frames), leaf, start, data).Some?
    ensures ok ==> phys.frames == CopyChunks(old(phys.frames), leaf, start, data).value
    ensures data == [] ==> phys.frames == old(phys.frames)
  {
    var vpn := start;
    var rest := data;
    while |rest| > 0
      invariant phys.Valid()
      invariant CopyChunks(old(phys.frames), leaf, start, data) == CopyChunks(phys.frames, leaf, vpn, rest)
      invariant data == [] ==> phys.frames == old(phys.frames)
      decreases |rest|
    {
      var pte := leaf(vpn);
      if pte.None? {
        return false;
      }
      var n := ChunkLen(|rest|);
      phys.WritePrefix(EntryPpn(pte.value), rest[..n]);
      rest := rest[n..];
      vpn := vpn + 1;
    }
    ok := true;
  }

  /** Taking one chunk off the data leaves one page fewer to write. */
  lemma CeilStep(len: nat)
    requires len > 0
    ensures Ceil(len - ChunkLen(len)) + 1 == Ceil(len)
  {
    if len > PAGE_SIZE {
      assert Ceil(len) == (len - 1) / PAGE_SIZE + 1;
      assert Ceil(len - PAGE_SIZE) == (len - 1) / PAGE_SIZE;
    }
  }

  /** The `count` pages from vpn on all have leaves, naming pairwise
      distinct frames. */
  ghost predicate DistinctLeaves(leaf: LeafView, vpn: nat, count: nat)
  {
    (forall v: nat :: vpn <= v < vpn + count ==> leaf(v).Some?) &&
    (forall v: nat, w: nat :: vpn <= v < w < vpn + count ==> LeafPpn(leaf, v) != LeafPpn(leaf, w))
  }

  /** Copying succeeds when every page it reaches has a leaf. */
  lemma {:induction false} CopyChunksDefined(frames: map<nat, seq<Byte>>, leaf: LeafView, vpn: nat, data: seq<Byte>)
    requires PagesWellSized(frames)
    requires forall v: nat :: vpn <= v < vpn + Ceil(|data|) ==> leaf(v).Some?
    ensures CopyChunks(frames, leaf, vpn, data).Some?
    decreases |data|
  {
    if |data| > 0 {
      var n := ChunkLen(|data|);
      var ppn := LeafPpn(leaf, vpn);
      CeilStep(|data|);
      CopyChunksDefined(frames[ppn := data[..n] + Content(frames, ppn)[n..]], leaf, vpn + 1, data[n..]);
    }
  }

  /** Copying leaves alone every frame that no page it reaches names. */
  lemma {:induction false} CopyChunksKeeps(frames: map<nat, seq<Byte>>, leaf: LeafView, vpn: nat, data: seq<Byte>, q: nat)
    requires PagesWellSized(frames)
    requires CopyChunks(frames, leaf, vpn, data).Some?
    requires forall v: nat :: vpn <= v < vpn + Ceil(|data|) ==> LeafPpn(leaf, v) != q
    ensures Content(CopyChunks(frames, leaf, vpn, data).value, q) == Content(frames, q)
    decreases |data|
  {
    if |data| > 0 {
      var n := ChunkLen(|data|);
      var ppn := LeafPpn(leaf, vpn);
      CeilStep(|data|);
      CopyChunksKeeps(frames[ppn := data[..n] + Content(frames, ppn)[n..]], leaf, vpn + 1, data[n..], q);
    }
  }

  /** Where page k of a buffer begins, counted page by page so that the
      copying proofs below stay within linear arithmetic. */
  ghost function PageStart(k: nat): nat
  {
    if k == 0 then 0 else PageStart(k - 1) + PAGE_SIZE
  }

  lemma {:induction false} PageStartIs(k: nat)
    ensures PageStart(k) == k * PAGE_SIZE
  {
    if k > 0 {
      PageStartIs(k - 1);
    }
  }

  /** A buffer that fits in c pages reaches at most c pages. */
  lemma CeilWithin(len: nat, c: nat)
    requires len <= PageStart(c)
    ensures Ceil(len) <= c
  {
    PageStartIs(c);
    Rounding(len);
  }

  /** The first page's bytes land in the first page's frame, which no later
      page of the c pages names. */
  lemma CopyChunksPlacesFirst(frames: map<nat, seq<Byte>>, leaf: LeafView, vpn: nat, data: seq<Byte>, c: nat, j: nat)
    requires PagesWellSized(frames) && CopyChunks(frames, leaf, vpn, data).Some?
    requires |data| <= PageStart(c)
    requires forall w: nat :: vpn < w < vpn + c ==> LeafPpn(leaf, w) != LeafPpn(leaf, vpn)
    requires j < PAGE_SIZE && j < |data|
    ensures |Content(CopyChunks(frames, leaf, vpn, data).value, LeafPpn(leaf, vpn))| == PAGE_SIZE
    ensures Content(CopyChunks(frames, leaf, vpn, data).value, LeafPpn(leaf, vpn))[j] == data[j]
  {
    var n := ChunkLen(|data|);
    var ppn := LeafPpn(leaf, vpn);
    var frames' := frames[ppn := data[..n] + Content(frames, ppn)[n..]];
    assert c > 0;
    CeilWithin(|data[n..]|, c - 1);
    CopyChunksKeeps(frames', leaf, vpn + 1, data[n..], ppn);
    assert Content(frames', ppn)[j] == data[j];
  }

  /** The frames after the first full page of a copy longer than a page,
      from which the copy goes on with the next page. */
  lemma CopyFirstPage(frames: map<nat, seq<Byte>>, leaf: LeafView, vpn: nat, data: seq<Byte>)
      returns (frames': map<nat, seq<Byte>>)
    requires PagesWellSized(frames) && CopyChunks(frames, leaf, vpn, data).Some?
    requires |data| > PAGE_SIZE
    ensures PagesWellSized(frames')
    ensures CopyChunks(frames, leaf, vpn, data) == CopyChunks(frames', leaf, vpn + 1, data[PAGE_SIZE..])
  {
    var ppn := LeafPpn(leaf, vpn);
    frames' := frames[ppn := data[..PAGE_SIZE] + Content(frames, ppn)[PAGE_SIZE..]];
  }

  /** Byte j of the page v, which begins at offset o of the data, ends up at
      offset j of the frame that page v names, when no later page of the c
      pages from vpn names that frame. */
  lemma {:induction false} CopyChunksPlaces(frames: map<nat, seq<Byte>>, leaf: LeafView, vpn: nat, data: seq<Byte>, c: nat,
                                            v: nat, o: nat, j: nat)
    requires PagesWellSized(frames) && CopyChunks(frames, leaf, vpn, data).Some?
    requires |data| <= PageStart(c)
    requires vpn <= v && forall w: nat :: v < w < vpn + c ==> LeafPpn(leaf, w) != LeafPpn(leaf, v)
    requires o == PageStart(v - vpn) && j < PAGE_SIZE && o + j < |data|
    ensures |Content(CopyChunks(frames, leaf, vpn, data).value, LeafPpn(leaf, v))| == PAGE_SIZE
    ensures Content(CopyChunks(frames, leaf, vpn, data).value, LeafPpn(leaf, v))[j] == data[o + j]
    decreases v - vpn
  {
    if v == vpn {
      CopyChunksPlacesFirst(frames, leaf, vpn, data, c, j);
    } else {
      assert c > 0 && v - (vpn + 1) == v - vpn - 1;
      assert PageStart(v - (vpn + 1)) == o - PAGE_SIZE;
      var frames' := CopyFirstPage(frames, leaf, vpn, data);
      var tail := data[PAGE_SIZE..];
      CopyChunksPlaces(frames', leaf, vpn + 1, tail, c - 1, v, o - PAGE_SIZE, j);
      assert tail[o - PAGE_SIZE + j] == data[o + j];
    }
  }

  // ---------------------------------------------------------------
  // MemorySet
  // ---------------------------------------------------------------

  ghost predicate Disjoint(a: MapArea, b: MapArea)
  {
    forall v: nat :: !(InRange(a, v) && InRange(b, v))
  }

  /** Every area lies below 2^27 pages, is fully mapped, and no two areas
      share a page. */
  ghost predicate AreasMapped(mem: Memory, root: nat, df: map<nat, nat>, areas: seq<MapArea>)
  {
    (forall i :: 0 <= i < |areas| ==> areas[i].range.end <= VPN_LIMIT && AreaMapped(mem, root, df, areas[i])) &&
    (forall i, j :: 0 <= i < j < |areas| ==> Disjoint(areas[i], areas[j]))
  }

  /** A freshly mapped area whose pages were all unmapped shares no page
      with the areas mapped before, and those stay mapped. */
  lemma PushKeepsMapped(mem0: Memory, df0: map<nat, nat>, mem1: Memory, df1: map<nat, nat>, root: nat,
                        areas: seq<MapArea>, area: MapArea)
    requires AreasMapped(mem0, root, df0, areas)
    requires area.range.end <= VPN_LIMIT && AreaMapped(mem1, root, df1, area)
    requires forall v: nat :: InRange(area, v) ==> !IsValid(LeafEntry(mem0, root, v))
    requires forall v: nat :: v < VPN_LIMIT && !InRange(area, v) ==> LeafEntry(mem1, root, v) == LeafEntry(mem0, root, v)
    requires forall v: nat :: !InRange(area, v) ==> KeepsFrame(df0, df1, v)
    ensures AreasMapped(mem1, root, df1, areas + [area])
  {
    var all := areas + [area];
    forall i | 0 <= i < |areas|
      ensures Disjoint(areas[i], area) && AreaMapped(mem1, root, df1, areas[i])
    {
      forall v: nat | InRange(areas[i], v)
        ensures !InRange(area, v) && PageMapped(mem1, root, df1, areas[i], v)
      {
        assert PageMapped(mem0, root, df0, areas[i], v);
        MappedIsValid(mem0, root, df0, areas[i], v);
        assert KeepsFrame(df0, df1, v);
      }
    }
    forall i, j | 0 <= i < j < |all|
      ensures Disjoint(all[i], all[j])
    {
      if j < |areas| {
        assert Disjoint(areas[i], areas[j]);
      }
    }
  }

  /** A page of a mapped Framed area has a leaf naming its data frame,
      which lies below 2^44 as every frame of the allocator does. */
  lemma FramedLeaf(mem: Memory, root: nat, df: map<nat, nat>, meta: seq<nat>, s: AllocatorState, area: MapArea, v: nat)
    requires area.mapType == Framed && AreaMapped(mem, root, df, area) && InRange(area, v)
    requires DataOwned(df, meta, s) && s.current <= PPN_LIMIT
    ensures v in df && TableView(mem, root)(v).Some? && LeafPpn(TableView(mem, root), v) == df[v]
  {
    assert PageMapped(mem, root, df, area, v);
    assert df[v] in Live(s);
    EntryRoundTrip(df[v], area.perm | V);
    NewEntryValid(df[v], area.perm | V);
  }

  /** A page of a mapped Identical area has a leaf naming the frame of the
      same number. */
  lemma IdenticalLeaf(mem: Memory, root: nat, df: map<nat, nat>, area: MapArea, v: nat)
    requires area.mapType == Identical && AreaMapped(mem, root, df, area) && InRange(area, v)
    requires area.range.end <= VPN_LIMIT
    ensures TableView(mem, root)(v).Some? && LeafPpn(TableView(mem, root), v) == v
  {
    assert PageMapped(mem, root, df, area, v);
    EntryRoundTrip(v, area.perm | V);
    NewEntryValid(v, area.perm | V);
  }

  /** The copy loop of `clone` for one area: every page's frame in the copy
      gets the bytes of the page's frame in the original. An Identical page
      names the same frame on both sides, so its copy changes nothing; a
      Framed page names a data frame of each side, and the original's are
      none of the copy's. Only the copy's data frames of the area's pages
      change. */
  method CopyAreaPages(area: MapArea, srcLeaf: LeafView, dstLeaf: LeafView, phys: PhysMemory,
                       ghost srcDf: map<nat, nat>, ghost dstDf: map<nat, nat>)
    requires phys.Valid()
    requires forall v: nat :: InRange(area, v) ==> srcLeaf(v).Some? && dstLeaf(v).Some?
    requires area.mapType == Identical ==>
      forall v: nat :: InRange(area, v) ==> LeafPpn(srcLeaf, v) == v && LeafPpn(dstLeaf, v) == v
    requires area.mapType == Framed ==> forall v: nat :: InRange(area, v) ==>
      v in srcDf && v in dstDf && LeafPpn(srcLeaf, v) == srcDf[v] && LeafPpn(dstLeaf, v) == dstDf[v]
    requires forall v :: v in srcDf ==> srcDf[v] !in dstDf.Values
    requires forall v, w :: v in dstDf && w in dstDf && v != w ==> dstDf[v] != dstDf[w]
    modifies phys
    ensures phys.Valid()
    ensures area.mapType == Framed ==> forall v: nat :: InRange(area, v) ==>
      Content(phys.frames, dstDf[v]) == Content(old(phys.frames), srcDf[v])
    ensures forall q :: q !in dstDf.Values ==> Content(phys.frames, q) == Content(old(phys.frames), q)
    ensures forall v :: v in dstDf && !InRange(area, v) ==>
      Content(phys.frames, dstDf[v]) == Content(old(phys.frames), dstDf[v])
  {
    var vpn := area.range.start;
    while vpn < area.range.end
      invariant area.range.start <= vpn && (vpn <= area.range.end || vpn == area.range.start)
      invariant phys.Valid()
      invariant area.mapType == Identical ==> forall q :: Content(phys.frames, q) == Content(old(phys.frames), q)
      invariant area.mapType == Framed ==> forall v: nat :: area.range.start <= v < vpn ==>
        Content(phys.frames, dstDf[v]) == Content(old(phys.frames), srcDf[v])
      invariant forall q :: q !in dstDf.Values ==> Content(phys.frames, q) == Content(old(phys.frames), q)
      invariant forall v :: v in dstDf && !(area.range.start <= v < vpn) ==>
        Content(phys.frames, dstDf[v]) == Content(old(phys.frames), dstDf[v])
      decreases area.range.end - vpn
    {
      var src := LeafPpn(srcLeaf, vpn);
      var dst := LeafPpn(dstLeaf, vpn);
      assert InRange(area, vpn);
      if area.mapType == Framed {
        assert src !in dstDf.Values && dst in dstDf.Values;
      }
      phys.CopyPage(src, dst);
      vpn := vpn + 1;
    }
  }

  /** The pages [start, start + count) have leaves naming their data
      frames. */
  ghost predicate LeafNames(leaf: LeafView, df: map<nat, nat>, start: nat, count: nat)
  {
    forall v: nat :: start <= v < start + count ==> v in df && leaf(v).Some? && LeafPpn(leaf, v) == df[v]
  }

  /** So the first `count` pages of such an area name their own frames,
      all distinct. */
  lemma FramedLeaves(mem: Memory, root: nat, df: map<nat, nat>, meta: seq<nat>, s: AllocatorState, area: MapArea, count: nat)
    requires area.mapType == Framed && AreaMapped(mem, root, df, area)
    requires DataOwned(df, meta, s) && s.current <= PPN_LIMIT
    requires area.range.start + count <= area.range.end
    ensures LeafNames(TableView(mem, root), df, area.range.start, count)
    ensures DistinctLeaves(TableView(mem, root), area.range.start, count)
  {
    var leaf := TableView(mem, root);
    var start := area.range.start;
    forall v: nat | start <= v < start + count
      ensures v in df && leaf(v).Some? && LeafPpn(leaf, v) == df[v]
    {
      FramedLeaf(mem, root, df, meta, s, area, v);
    }
  }

  /** Byte i of `data` copied into the pages from `start` on sits at byte
      i % PAGE_SIZE of the data frame of page start + i / PAGE_SIZE. */
  ghost predicate DataAt(frames: map<nat, seq<Byte>>, df: map<nat, nat>, start: nat, data: seq<Byte>)
  {
    forall i :: 0 <= i < |data| ==> ByteAt(frames, df, start, data, i)
  }

  ghost predicate ByteAt(frames: map<nat, seq<Byte>>, df: map<nat, nat>, start: nat, data: seq<Byte>, i: nat)
    requires i < |data|
  {
    start + i / PAGE_SIZE in df &&
    |Content(frames, df[start + i / PAGE_SIZE])| == PAGE_SIZE &&
    Content(frames, df[start + i / PAGE_SIZE])[i % PAGE_SIZE] == data[i]
  }

  lemma PageOfByte(i: nat, len: nat)
    requires i < len
    ensures (i / PAGE_SIZE) * PAGE_SIZE + i % PAGE_SIZE == i
    ensures i / PAGE_SIZE < Ceil(len)
  {
    Rounding(len);
  }

  /** Copying data into pages that name their own, distinct, frames puts
      every byte in place. */
  lemma CopyPlacesData(frames: map<nat, seq<Byte>>, leaf: LeafView, df: map<nat, nat>, start: nat, data: seq<Byte>)
    requires PagesWellSized(frames)
    requires LeafNames(leaf, df, start, Ceil(|data|)) && DistinctLeaves(leaf, start, Ceil(|data|))
    ensures CopyChunks(frames, leaf, start, data).Some?
    ensures DataAt(CopyChunks(frames, leaf, start, data).value, df, start, data)
  {
    CopyChunksDefined(frames, leaf, start, data);
    var out := CopyChunks(frames, leaf, start, data).value;
    forall i | 0 <= i < |data|
      ensures ByteAt(out, df, start, data, i)
    {
      CopyPlacesByte(frames, leaf, df, start, data, i);
    }
  }

  lemma CopyPlacesByte(frames: map<nat, seq<Byte>>, leaf: LeafView, df: map<nat, nat>, start: nat, data: seq<Byte>, i: nat)
    requires PagesWellSized(frames) && CopyChunks(frames, leaf, start, data).Some?
    requires LeafNames(leaf, df, start, Ceil(|data|)) && DistinctLeaves(leaf, start, Ceil(|data|))
    requires i < |data|
    ensures ByteAt(CopyChunks(frames, leaf, start, data).value, df, start, data, i)
  {
    var c := Ceil(|data|);
    var p, j := ByteSplit(i, |data|);
    var v := start + p;
    assert v in df && LeafPpn(leaf, v) == df[v];
    forall w: nat | v < w < start + c
      ensures LeafPpn(leaf, w) != LeafPpn(leaf, v)
    {
      assert start <= v < w < start + c;
    }
    var o := PageStart(p);
    CopyChunksPlaces(frames, leaf, start, data, c, v, o, j);
    ByteAtPage(CopyChunks(frames, leaf, start, data).value, leaf, df, start, data, i, p, j, v, o);
  }

  /** Byte j of page p of the data, the page v that begins at offset o, is
      byte i of the data. */
  lemma ByteAtPage(frames: map<nat, seq<Byte>>, leaf: LeafView, df: map<nat, nat>, start: nat, data: seq<Byte>,
                   i: nat, p: nat, j: nat, v: nat, o: nat)
    requires i < |data| && p == i / PAGE_SIZE && j == i % PAGE_SIZE && o + j == i && v == start + p
    requires v in df && LeafPpn(leaf, v) == df[v]
    requires |Content(frames, LeafPpn(leaf, v))| == PAGE_SIZE && o + j < |data|
    requires Content(frames, LeafPpn(leaf, v))[j] == data[o + j]
    ensures ByteAt(frames, df, start, data, i)
  {
  }

  /** Byte i of a buffer of len bytes is byte j of its page p, one of the
      pages the buffer reaches. */
  lemma ByteSplit(i: nat, len: nat) returns (p: nat, j: nat)
    requires i < len
    ensures p == i / PAGE_SIZE && j == i % PAGE_SIZE
    ensures PageStart(p) + j == i && j < PAGE_SIZE
    ensures p < Ceil(len) && len <= PageStart(Ceil(len))
  {
    p, j := i / PAGE_SIZE, i % PAGE_SIZE;
    PageOfByte(i, len);
    PageStartIs(p);
    PageStartIs(Ceil(len));
    Rounding(len);
  }

  /** The first area whose range starts at startVpn, as
      `iter().enumerate().find(..)` gives it. */
  function FindStart(areas: seq<MapArea>, startVpn: nat): (r: Option<nat>)
    ensures r.Some? ==> r.value < |areas| && areas[r.value].range.start == startVpn
    ensures r.Some? ==> forall i :: 0 <= i < r.value ==> areas[i].range.start != startVpn
    ensures r.None? <==> forall i :: 0 <= i < |areas| ==> areas[i].range.start != startVpn
  {
    if |areas| == 0 then None
    else if areas[0].range.start == startVpn then Some(0)
    else match FindStart(areas[1..], startVpn)
      case None => None
      case Some(i) => Some(i + 1)
  }

  /** All pages of a mapped area are valid, so unmapping it succeeds. */
  lemma AreaPagesValid(mem: Memory, root: nat, df: map<nat, nat>, area: MapArea)
    requires AreaMapped(mem, root, df, area)
    ensures forall v: nat :: InRange(area, v) ==> IsValid(LeafEntry(mem, root, v))
  {
    forall v: nat | InRange(area, v)
      ensures IsValid(LeafEntry(mem, root, v))
    {
      MappedIsValid(mem, root, df, area, v);
    }
  }

  /** Unmapping areas[k] leaves the other areas, which share no page with
      it, mapped. */
  lemma RemoveKeepsMapped(mem0: Memory, df0: map<nat, nat>, mem1: Memory, df1: map<nat, nat>, root: nat,
                          areas: seq<MapArea>, k: nat)
    requires k < |areas| && AreasMapped(mem0, root, df0, areas)
    requires forall v: nat :: v < VPN_LIMIT && !InRange(areas[k], v) ==> LeafEntry(mem1, root, v) == LeafEntry(mem0, root, v)
    requires forall v: nat :: !InRange(areas[k], v) ==> KeepsFrame(df0, df1, v)
    ensures AreasMapped(mem1, root, df1, areas[..k] + areas[k + 1..])
  {
    var rest := areas[..k] + areas[k + 1..];
    assert forall i :: 0 <= i < |rest| ==> rest[i] == areas[if i < k then i else i + 1];
    forall i | 0 <= i < |rest|
      ensures rest[i].range.end <= VPN_LIMIT && AreaMapped(mem1, root, df1, rest[i])
    {
      var o := if i < k then i else i + 1;
      if o < k {
        assert Disjoint(areas[o], areas[k]);
      } else {
        assert Disjoint(areas[k], areas[o]);
      }
      OtherAreaMapped(mem0, df0, mem1, df1, root, areas[k], areas[o]);
    }
    forall i, j | 0 <= i < j < |rest|
      ensures Disjoint(rest[i], rest[j])
    {
      var oi, oj := if i < k then i else i + 1, if j < k then j else j + 1;
      assert Disjoint(areas[oi], areas[oj]);
    }
  }

  /** An area sharing no page with the one unmapped stays mapped. */
  lemma OtherAreaMapped(mem0: Memory, df0: map<nat, nat>, mem1: Memory, df1: map<nat, nat>, root: nat,
                        gone: MapArea, other: MapArea)
    requires other.range.end <= VPN_LIMIT && AreaMapped(mem0, root, df0, other)
    requires Disjoint(gone, other) || Disjoint(other, gone)
    requires forall v: nat :: v < VPN_LIMIT && !InRange(gone, v) ==> LeafEntry(mem1, root, v) == LeafEntry(mem0, root, v)
    requires forall v: nat :: !InRange(gone, v) ==> KeepsFrame(df0, df1, v)
    ensures AreaMapped(mem1, root, df1, other)
  {
    forall v: nat | InRange(other, v)
      ensures PageMapped(mem1, root, df1, other, v)
    {
      assert PageMapped(mem0, root, df0, other, v);
      assert !InRange(gone, v);
      assert KeepsFrame(df0, df1, v);
    }
  }

  /** Mapping one page that was unmapped keeps the areas mapped, and the
      page lies in none of them. */
  lemma TrampolineKeepsMapped(mem0: Memory, df: map<nat, nat>, mem1: Memory, root: nat, areas: seq<MapArea>, vpn: nat)
    requires AreasMapped(mem0, root, df, areas) && vpn < VPN_LIMIT
    requires !IsValid(LeafEntry(mem0, root, vpn))
    requires forall v: nat :: Indexes(v) != Indexes(vpn) ==> LeafEntry(mem1, root, v) == LeafEntry(mem0, root, v)
    ensures forall v: nat :: v < VPN_LIMIT && v != vpn ==> LeafEntry(mem1, root, v) == LeafEntry(mem0, root, v)
    ensures forall i :: 0 <= i < |areas| ==> !InRange(areas[i], vpn)
    ensures AreasMapped(mem1, root, df, areas)
  {
    UnmapStep(mem0, mem1, root, 0, vpn);
    forall i | 0 <= i < |areas|
      ensures !InRange(areas[i], vpn) && AreaMapped(mem1, root, df, areas[i])
    {
      AreaPagesValid(mem0, root, df, areas[i]);
      forall v: nat | InRange(areas[i], v)
        ensures PageMapped(mem1, root, df, areas[i], v)
      {
        assert PageMapped(mem0, root, df, areas[i], v);
      }
    }
  }

  /** An area mapped in both the original and the copy meets what the copy
      loop of `clone` needs: every page has a leaf on both sides, naming
      the same frame for an Identical area and each side's data frame for
      a Framed one, and no frame of the original is a data frame of the
      copy. */
  lemma CloneLeaves(srcMem: Memory, srcRoot: nat, srcDf: map<nat, nat>, srcMeta: seq<nat>, s0: AllocatorState,
                    dstMem: Memory, dstRoot: nat, dstDf: map<nat, nat>, dstMeta: seq<nat>, s: AllocatorState, area: MapArea)
    requires area.range.end <= VPN_LIMIT
    requires AreaMapped(srcMem, srcRoot, srcDf, area) && DataOwned(srcDf, srcMeta, s0) && s0.current <= PPN_LIMIT
    requires AreaMapped(dstMem, dstRoot, dstDf, area) && DataOwned(dstDf, dstMeta, s) && s.current <= PPN_LIMIT
    requires forall q :: q in Live(s0) ==> q !in dstDf.Values
    ensures forall v: nat :: InRange(area, v) ==> TableView(srcMem, srcRoot)(v).Some? && TableView(dstMem, dstRoot)(v).Some?
    ensures area.mapType == Identical ==> forall v: nat :: InRange(area, v) ==>
      LeafPpn(TableView(srcMem, srcRoot), v) == v && LeafPpn(TableView(dstMem, dstRoot), v) == v
    ensures area.mapType == Framed ==> forall v: nat :: InRange(area, v) ==>
      v in srcDf && v in dstDf && LeafPpn(TableView(srcMem, srcRoot), v) == srcDf[v] &&
      LeafPpn(TableView(dstMem, dstRoot), v) == dstDf[v]
    ensures forall v :: v in srcDf ==> srcDf[v] !in dstDf.Values
  {
    forall v: nat | InRange(area, v)
      ensures TableView(srcMem, srcRoot)(v).Some? && TableView(dstMem, dstRoot)(v).Some?
      ensures area.mapType == Identical ==>
        LeafPpn(TableView(srcMem, srcRoot), v) == v && LeafPpn(TableView(dstMem, dstRoot), v) == v
      ensures area.mapType == Framed ==>
        v in srcDf && v in dstDf && LeafPpn(TableView(srcMem, srcRoot), v) == srcDf[v] &&
        LeafPpn(TableView(dstMem, dstRoot), v) == dstDf[v]
    {
      if area.mapType == Identical {
        IdenticalLeaf(srcMem, srcRoot, srcDf, area, v);
        IdenticalLeaf(dstMem, dstRoot, dstDf, area, v);
      } else {
        FramedLeaf(srcMem, srcRoot, srcDf, srcMeta, s0, area, v);
        FramedLeaf(dstMem, dstRoot, dstDf, dstMeta, s, area, v);
      }
    }
  }

  /** The Framed pages of the first k areas have data frames in the copy
      holding what the original's frames for them held. */
  ghost predicate Copied(areas: seq<MapArea>, k: nat, srcDf: map<nat, nat>, f0: map<nat, seq<Byte>>,
                         df: map<nat, nat>, f: map<nat, seq<Byte>>)
  {
    forall i, v: nat :: 0 <= i < k && i < |areas| && areas[i].mapType == Framed && InRange(areas[i], v) ==>
      v in srcDf && v in df && Content(f, df[v]) == Content(f0, srcDf[v])
  }

  /** One area of `clone`: with the areas before it copied, pushing the
      area into the copy and copying its pages leaves those copied too, adds
      the area's own pages, and keeps every frame in use before the clone
      began out of the copy's data frames and with its bytes. */
  lemma CloneStep(areas: seq<MapArea>, k: nat, srcDf: map<nat, nat>, s0: AllocatorState, f0: map<nat, seq<Byte>>,
                  df1: map<nat, nat>, s1: AllocatorState, f1: map<nat, seq<Byte>>,
                  df2: map<nat, nat>, s2: AllocatorState, f2: map<nat, seq<Byte>>, f3: map<nat, seq<Byte>>)
    requires k < |areas| && forall i :: 0 <= i < k ==> Disjoint(areas[i], areas[k])
    requires forall v :: v in srcDf ==> srcDf[v] in Live(s0)
    requires areas[k].mapType == Framed ==> forall v: nat :: InRange(areas[k], v) ==> v in srcDf && v in df2
    requires OthersKept(map[], s0, f0, df1, s1, f1) && Copied(areas, k, srcDf, f0, df1, f1)
    requires forall v: nat :: !InRange(areas[k], v) ==> KeepsFrame(df1, df2, v)
    requires OthersKept(df1, s1, f1, df2, s2, f2)
    requires forall v: nat :: !InRange(areas[k], v) && v in df1 ==> Content(f2, df1[v]) == Content(f1, df1[v])
    requires areas[k].mapType == Framed ==> forall v: nat :: InRange(areas[k], v) ==>
      Content(f3, df2[v]) == Content(f2, srcDf[v])
    requires forall q :: q !in df2.Values ==> Content(f3, q) == Content(f2, q)
    requires forall v :: v in df2 && !InRange(areas[k], v) ==> Content(f3, df2[v]) == Content(f2, df2[v])
    ensures OthersKept(map[], s0, f0, df2, s2, f3) && Copied(areas, k + 1, srcDf, f0, df2, f3)
  {
    OthersKeptTrans(map[], s0, f0, df1, s1, f1, df2, s2, f2);
    forall i, v: nat | 0 <= i < k + 1 && areas[i].mapType == Framed && InRange(areas[i], v)
      ensures v in srcDf && v in df2 && Content(f3, df2[v]) == Content(f0, srcDf[v])
    {
      if i < k {
        assert Disjoint(areas[i], areas[k]);
        assert !InRange(areas[k], v);
        assert KeepsFrame(df1, df2, v);
      } else {
        assert srcDf[v] in Live(s0);
      }
    }
  }

  /** Frames in use when the clone began are still in use with their bytes,
      and none of them is a data frame of the copy. */
  lemma OthersOut(s0: AllocatorState, f0: map<nat, seq<Byte>>, df: map<nat, nat>, s: AllocatorState, f: map<nat, seq<Byte>>)
    requires OthersKept(map[], s0, f0, df, s, f)
    ensures forall q :: q in Live(s0) ==> q in Live(s) && q !in df.Values && Content(f, q) == Content(f0, q)
  {
    var none: map<nat, nat> := map[];
    assert none.Values == {};
  }

  /** Every Framed page of the areas has a data frame in the copy that is
      not among the frames `live0` and holds the bytes the original's data
      frame for the page held in f0. */
  ghost predicate PagesCopied(areas: seq<MapArea>, srcDf: map<nat, nat>, f0: map<nat, seq<Byte>>, live0: set<nat>,
                              df: map<nat, nat>, f: map<nat, seq<Byte>>)
  {
    forall i, v: nat :: 0 <= i < |areas| && areas[i].mapType == Framed && InRange(areas[i], v) ==>
      v in srcDf && v in df && df[v] !in live0 && Content(f, df[v]) == Content(f0, srcDf[v])
  }

  /** What the copy loop of `clone` leaves: the original still owns its data
      frames, and every Framed page of the copy owns a frame that was free
      before and holds the bytes of the original's page. */
  lemma CloneDone(areas: seq<MapArea>, srcDf: map<nat, nat>, srcMeta: seq<nat>, s0: AllocatorState, f0: map<nat, seq<Byte>>,
                  df: map<nat, nat>, s: AllocatorState, f: map<nat, seq<Byte>>)
    requires Copied(areas, |areas|, srcDf, f0, df, f) && OthersKept(map[], s0, f0, df, s, f)
    requires DataOwned(srcDf, srcMeta, s0)
    ensures forall q :: q in Live(s0) ==> q in Live(s) && Content(f, q) == Content(f0, q)
    ensures DataOwned(srcDf, srcMeta, s)
    ensures PagesCopied(areas, srcDf, f0, Live(s0), df, f)
  {
    OthersOut(s0, f0, df, s, f);
    forall i, v: nat | 0 <= i < |areas| && areas[i].mapType == Framed && InRange(areas[i], v)
      ensures v in df && df[v] !in Live(s0)
    {
      assert v in df;
      assert df[v] in df.Values;
    }
  }

  /** Area k of a well-mapped sequence lies below 2^27 pages, is mapped,
      and shares no page with the areas before it. */
  lemma AreaOfMapped(mem: Memory, root: nat, df: map<nat, nat>, areas: seq<MapArea>, k: nat)
    requires AreasMapped(mem, root, df, areas) && k < |areas|
    ensures areas[k].range.end <= VPN_LIMIT && AreaMapped(mem, root, df, areas[k])
    ensures forall i :: 0 <= i < k ==> Disjoint(areas[i], areas[k])
  {
  }

  /** One turn of the copy loop of `clone`: push area k into the copy
      without data, then copy each of its pages from the frame the
      original's table (seen through srcLeaf) translates it to into the
      frame the copy translates it to. */
  method CloneArea(copy: MemorySet, areas: seq<MapArea>, k: nat, srcLeaf: LeafView,
                   alloc: StackFrameAllocator, phys: PhysMemory,
                   ghost srcMem: Memory, ghost srcRoot: nat, ghost srcDf: map<nat, nat>, ghost srcMeta: seq<nat>,
                   ghost s0: AllocatorState, ghost f0: map<nat, seq<Byte>>, ghost tv: nat) returns (ok: bool)
    requires k < |areas| && srcLeaf == TableView(srcMem, srcRoot)
    requires DataOwned(srcDf, srcMeta, s0) && s0.current <= PPN_LIMIT && AreasMapped(srcMem, srcRoot, srcDf, areas)
    requires copy.Valid(alloc, phys) && copy.areas == areas[..k]
    requires tv < VPN_LIMIT && IsValid(LeafEntry(copy.pageTable.mem, copy.pageTable.root_ppn, tv))
    requires OthersKept(map[], s0, f0, copy.pageTable.data_frames, alloc.State(), phys.frames)
    requires Copied(areas, k, srcDf, f0, copy.pageTable.data_frames, phys.frames)
    modifies copy, copy.pageTable, alloc, phys
    ensures copy.pageTable == old(copy.pageTable) && copy.pageTable.root_ppn == old(copy.pageTable.root_ppn)
    ensures ok ==> copy.Valid(alloc, phys) && copy.areas == areas[..k + 1]
    ensures ok ==> LeafEntry(copy.pageTable.mem, copy.pageTable.root_ppn, tv) == LeafEntry(old(copy.pageTable.mem), copy.pageTable.root_ppn, tv)
    ensures OthersKept(map[], s0, f0, copy.pageTable.data_frames, alloc.State(), phys.frames)
    ensures ok ==> Copied(areas, k + 1, srcDf, f0, copy.pageTable.data_frames, phys.frames)
  {
    var area := areas[k];
    assert areas[..k + 1] == areas[..k] + [area];
    AreaOfMapped(srcMem, srcRoot, srcDf, areas, k);
    ghost var df1, s1, f1 := copy.pageTable.data_frames, alloc.State(), phys.frames;
    ok := copy.Push(area, None, alloc, phys);
    ghost var df2, s2, f2 := copy.pageTable.data_frames, alloc.State(), phys.frames;
    OthersKeptTrans(map[], s0, f0, df1, s1, f1, df2, s2, f2);
    if !ok {
      return;
    }
    ghost var dstMem, dstRoot := copy.pageTable.mem, copy.pageTable.root_ppn;
    assert copy.areas[k] == area;
    AreaOfMapped(dstMem, dstRoot, df2, copy.areas, k);
    OthersOut(s0, f0, df2, s2, f2);
    var dstLeaf := TableView(copy.pageTable.mem, copy.pageTable.root_ppn);
    CloneLeaves(srcMem, srcRoot, srcDf, srcMeta, s0, dstMem, dstRoot, df2, copy.pageTable.metadata_frames, s2, area);
    CopyAreaPages(area, srcLeaf, dstLeaf, phys, srcDf, df2);
    CloneStep(areas, k, srcDf, s0, f0, df1, s1, f1, df2, s2, f2, phys.frames);
  }

  /** The copy loop of `clone`: every area in order, each pushed and its
      pages copied by CloneArea. */
  method CloneAreas(copy: MemorySet, areas: seq<MapArea>, srcLeaf: LeafView,
                    alloc: StackFrameAllocator, phys: PhysMemory,
                    ghost srcMem: Memory, ghost srcRoot: nat, ghost srcDf: map<nat, nat>, ghost srcMeta: seq<nat>,
                    ghost s0: AllocatorState, ghost f0: map<nat, seq<Byte>>, ghost tv: nat) returns (ok: bool)
    requires srcLeaf == TableView(srcMem, srcRoot)
    requires DataOwned(srcDf, srcMeta, s0) && s0.current <= PPN_LIMIT && AreasMapped(srcMem, srcRoot, srcDf, areas)
    requires copy.Valid(alloc, phys) && copy.areas == []
    requires tv < VPN_LIMIT && IsValid(LeafEntry(copy.pageTable.mem, copy.pageTable.root_ppn, tv))
    requires OthersKept(map[], s0, f0, copy.pageTable.data_frames, alloc.State(), phys.frames)
    modifies copy, copy.pageTable, alloc, phys
    ensures copy.pageTable == old(copy.pageTable) && copy.pageTable.root_ppn == old(copy.pageTable.root_ppn)
    ensures ok ==> copy.Valid(alloc, phys) && copy.areas == areas
    ensures ok ==> LeafEntry(copy.pageTable.mem, copy.pageTable.root_ppn, tv) == LeafEntry(old(copy.pageTable.mem), copy.pageTable.root_ppn, tv)
    ensures OthersKept(map[], s0, f0, copy.pageTable.data_frames, alloc.State(), phys.frames)
    ensures ok ==> Copied(areas, |areas|, srcDf, f0, copy.pageTable.data_frames, phys.frames)
  {
    ghost var root, entry := copy.pageTable.root_ppn, LeafEntry(copy.pageTable.mem, copy.pageTable.root_ppn, tv);
    var k := 0;
    while k < |areas|
      invariant k <= |areas|
      invariant copy.pageTable == old(copy.pageTable) && copy.pageTable.root_ppn == root
      invariant copy.Valid(alloc, phys) && copy.areas == areas[..k]
      invariant LeafEntry(copy.pageTable.mem, root, tv) == entry
      invariant OthersKept(map[], s0, f0, copy.pageTable.data_frames, alloc.State(), phys.frames)
      invariant Copied(areas, k, srcDf, f0, copy.pageTable.data_frames, phys.frames)
      decreases |areas| - k
    {
      ok := CloneArea(copy, areas, k, srcLeaf, alloc, phys, srcMem, srcRoot, srcDf, srcMeta, s0, f0, tv);
      if !ok {
        return;
      }
      k := k + 1;
    }
    assert areas[..k] == areas;
    ok := true;
  }

  class MemorySet {
    var pageTable: PageTable
    var areas: seq<MapArea>

    /** The table is sound and owns its frames, and every area is mapped. */
    ghost predicate Valid(alloc: StackFrameAllocator, phys: PhysMemory)
      reads this, pageTable, alloc, phys
    {
      pageTable.Valid() && pageTable.Owns(alloc) && phys.Valid() &&
      DataOwned(pageTable.data_frames, pageTable.metadata_frames, alloc.State()) &&
      AreasMapped(pageTable.mem, pageTable.root_ppn, pageTable.data_frames, areas)
    }

    /** `new_bare`: an empty table and no areas. The source panics when no
        frame is free for the root table. */
    constructor NewBare(alloc: StackFrameAllocator, phys: PhysMemory)
      requires alloc.Valid() && alloc.current <= alloc.end <= PPN_LIMIT
      requires Free(alloc.State()) > 0 && phys.Valid()
      modifies alloc
      ensures Valid(alloc, phys) && areas == [] && fresh(pageTable)
      ensures pageTable.data_frames == map[]
      ensures forall v: nat :: LeafEntry(pageTable.mem, pageTable.root_ppn, v) == EMPTY
      ensures Live(old(alloc.State())) <= Live(alloc.State())
    {
      AllocFresh(alloc.State());
      pageTable := new PageTable(alloc);
      areas := [];
    }

    /** `push`: map every page of the area, copy the data into it when
        given, then append it to the areas. On success the area's pages
        were all unmapped before, nothing else below 2^27 changed, and
        the data sits page by page from the area's first page. */
    method Push(area: MapArea, data: Option<seq<Byte>>, alloc: StackFrameAllocator, phys: PhysMemory) returns (ok: bool)
      requires Valid(alloc, phys) && area.range.end <= VPN_LIMIT
      modifies this, pageTable, alloc, phys
      ensures pageTable == old(pageTable) && pageTable.root_ppn == old(pageTable.root_ppn)
      ensures ok ==> Valid(alloc, phys) && areas == old(areas) + [area]
      ensures ok ==> forall v: nat :: InRange(area, v) ==> !IsValid(LeafEntry(old(pageTable.mem), pageTable.root_ppn, v))
      ensures ok ==> forall v: nat :: v < VPN_LIMIT && !InRange(area, v) ==>
        LeafEntry(pageTable.mem, pageTable.root_ppn, v) == LeafEntry(old(pageTable.mem), pageTable.root_ppn, v)
      ensures ok && data.Some? && Ceil(|data.value|) <= area.range.end - area.range.start ==>
        DataAt(phys.frames, pageTable.data_frames, area.range.start, data.value)
      ensures ok ==> forall v: nat :: v < VPN_LIMIT && IsValid(LeafEntry(old(pageTable.mem), pageTable.root_ppn, v)) ==>
        LeafEntry(pageTable.mem, pageTable.root_ppn, v) == LeafEntry(old(pageTable.mem), pageTable.root_ppn, v)
      ensures data.None? ==> forall v: nat :: !InRange(area, v) ==> KeepsFrame(old(pageTable.data_frames), pageTable.data_frames, v)
      ensures data.None? ==> OthersKept(old(pageTable.data_frames), old(alloc.State()), old(phys.frames),
        pageTable.data_frames, alloc.State(), phys.frames)
      ensures data.None? ==> forall v: nat :: !InRange(area, v) && v in old(pageTable.data_frames) ==>
        Content(phys.frames, old(pageTable.data_frames)[v]) == Content(old(phys.frames), old(pageTable.data_frames)[v])
    {
      ghost var mem0, df0 := pageTable.mem, pageTable.data_frames;
      ok := MapPages(area, pageTable, alloc, phys);
      if !ok {
        return;
      }
      if data.Some? {
        if Ceil(|data.value|) <= area.range.end - area.range.start && area.mapType == Framed {
          FramedLeaves(pageTable.mem, pageTable.root_ppn, pageTable.data_frames, pageTable.metadata_frames,
            alloc.State(), area, Ceil(|data.value|));
          CopyPlacesData(phys.frames, TableView(pageTable.mem, pageTable.root_ppn), pageTable.data_frames,
            area.range.start, data.value);
        }
        ok := CopyData(area, pageTable, phys, data.value);
        if !ok {
          return;
        }
      }
      PushKeepsMapped(mem0, df0, pageTable.mem, pageTable.data_frames, pageTable.root_ppn, areas, area);
      areas := areas + [area];
    }
  
    /** `insert_framed_area`: push a Framed area over [startVa, endVa)
        with no data. */
    method InsertFramedArea(startVa: nat, endVa: nat, perm: Permission, alloc: StackFrameAllocator, phys: PhysMemory) returns (ok: bool)
      requires Valid(alloc, phys) && startVa < VA_LIMIT && endVa < VA_LIMIT
      modifies this, pageTable, alloc, phys
      ensures pageTable == old(pageTable)
      ensures ok ==> NewArea(startVa, endVa, Framed, perm).Some?
      ensures ok ==> Valid(alloc, phys) && areas == old(areas) + [NewArea(startVa, endVa, Framed, perm).value]
      ensures ok ==> forall v: nat :: InRange(NewArea(startVa, endVa, Framed, perm).value, v) ==>
        !IsValid(LeafEntry(old(pageTable.mem), pageTable.root_ppn, v))
    {
      var area := NewArea(startVa, endVa, Framed, perm);
      if area.None? {
        return false;
      }
      ok := Push(area.value, None, alloc, phys);
    }

    /** `remove_area_with_start_vpn`: unmap and drop the first area that
        starts at startVpn, if any. Unmapping cannot fail, since an area's
        pages are all mapped. */
    method RemoveAreaWithStartVpn(startVpn: nat, alloc: StackFrameAllocator, phys: PhysMemory)
      requires Valid(alloc, phys)
      modifies this, pageTable, alloc
      ensures Valid(alloc, phys) && pageTable == old(pageTable) && pageTable.root_ppn == old(pageTable.root_ppn)
      ensures FindStart(old(areas), startVpn).None? ==>
        areas == old(areas) && pageTable.mem == old(pageTable.mem) &&
        pageTable.data_frames == old(pageTable.data_frames) && alloc.State() == old(alloc.State())
      ensures FindStart(old(areas), startVpn).Some? ==>
        var k := FindStart(old(areas), startVpn).value;
        var area := old(areas)[k];
        areas == old(areas)[..k] + old(areas)[k + 1..] &&
        (forall v: nat :: InRange(area, v) ==> LeafEntry(pageTable.mem, pageTable.root_ppn, v) == EMPTY) &&
        (forall v: nat :: v < VPN_LIMIT && !InRange(area, v) ==>
          LeafEntry(pageTable.mem, pageTable.root_ppn, v) == LeafEntry(old(pageTable.mem), pageTable.root_ppn, v)) &&
        (area.mapType == Framed ==>
          Live(alloc.State()) == Live(old(alloc.State())) - FramesIn(old(pageTable.data_frames), area.range.start, area.range.end))
    {
      var found := FindStart(areas, startVpn);
      if found.None? {
        return;
      }
      var k := found.value;
      ghost var mem0, df0 := pageTable.mem, pageTable.data_frames;
      AreaPagesValid(pageTable.mem, pageTable.root_ppn, pageTable.data_frames, areas[k]);
      var ok := UnmapPages(areas[k], pageTable, alloc);
      assert ok;
      RemoveKeepsMapped(mem0, df0, pageTable.mem, pageTable.data_frames, pageTable.root_ppn, areas, k);
      areas := areas[..k] + areas[k + 1..];
    }

    /** `recycle_data_pages`: forget every area; the table and its frames
        are left as they are. */
    method RecycleDataPages(alloc: StackFrameAllocator, phys: PhysMemory)
      requires Valid(alloc, phys)
      modifies this
      ensures Valid(alloc, phys) && areas == [] && pageTable == old(pageTable)
    {
      areas := [];
    }

    /** `MemorySet::clone` (kernel) and `from_existed_user` (os): a bare set
        with the trampoline mapped, then for each area in order a copy of
        it pushed without data and each of its pages copied from the frame
        the original translates it to into the frame the copy translates it
        to. None stands for the panics on the way: no frame left for a table
        or a page, or a page that cannot be mapped. On success the copy has
        the original's areas and the trampoline; every Framed page of the
        copy owns a frame that was free before and holds the bytes the
        original's page held; and every frame in use before, the
        original's among them, is still in use with its bytes. */
    method Clone(trampoline: nat, strampoline: nat, alloc: StackFrameAllocator, phys: PhysMemory)
      returns (r: Option<MemorySet>)
      requires Valid(alloc, phys)
      modifies alloc, phys
      ensures forall q :: q in Live(old(alloc.State())) ==>
        q in Live(alloc.State()) && Content(phys.frames, q) == Content(old(phys.frames), q)
      ensures r.Some? ==> fresh(r.value) && fresh(r.value.pageTable)
      ensures r.Some? ==> r.value.Valid(alloc, phys) && Valid(alloc, phys) && r.value.areas == areas
      ensures r.Some? ==> AddrToPage(VirtAddrFrom(trampoline)).Some? && AddrToPage(PhysAddrFrom(strampoline)).Some?
      ensures r.Some? ==> (var tv, tp := AddrToPage(VirtAddrFrom(trampoline)).value, AddrToPage(PhysAddrFrom(strampoline)).value;
        LeafEntry(r.value.pageTable.mem, r.value.pageTable.root_ppn, tv) == NewEntry(tp, R | X | V))
      ensures r.Some? ==> PagesCopied(areas, pageTable.data_frames, old(phys.frames), Live(old(alloc.State())),
        r.value.pageTable.data_frames, phys.frames)
    {
      ghost var s0, f0, srcDf, srcMeta := alloc.State(), phys.frames, pageTable.data_frames, pageTable.metadata_frames;
      ghost var srcMem, srcRoot := pageTable.mem, pageTable.root_ppn;
      var srcLeaf := TableView(pageTable.mem, pageTable.root_ppn);
      if Free(alloc.State()) == 0 {
        return None;
      }
      var copy := new MemorySet.NewBare(alloc, phys);
      var mapped := copy.MapTrampoline(trampoline, strampoline, alloc, phys);
      if !mapped {
        return None;
      }
      ghost var tv, tp := AddrToPage(VirtAddrFrom(trampoline)).value, AddrToPage(PhysAddrFrom(strampoline)).value;
      ghost var root := copy.pageTable.root_ppn;
      assert tv < VPN_LIMIT by {
        assert tv * PAGE_SIZE < VPN_LIMIT * PAGE_SIZE;
      }
      NewEntryValid(tp, R | X);
      var ok := CloneAreas(copy, areas, srcLeaf, alloc, phys, srcMem, srcRoot, srcDf, srcMeta, s0, f0, tv);
      if !ok {
        OthersOut(s0, f0, copy.pageTable.data_frames, alloc.State(), phys.frames);
        return None;
      }
      ghost var df, s, f := copy.pageTable.data_frames, alloc.State(), phys.frames;
      CloneDone(areas, srcDf, srcMeta, s0, f0, df, s, f);
      r := Some(copy);
    }

    /** `map_trampoline`: map the page at `trampoline` (TRAMPOLINE) to the
        frame at `strampoline` with R and X, without adding an area. The
        two addresses must be page aligned (`into()` asserts it). */
    method MapTrampoline(trampoline: nat, strampoline: nat, alloc: StackFrameAllocator, phys: PhysMemory) returns (ok: bool)
      requires Valid(alloc, phys)
      modifies pageTable, alloc
      ensures pageTable.root_ppn == old(pageTable.root_ppn) && pageTable.data_frames == old(pageTable.data_frames)
      ensures Live(old(alloc.State())) <= Live(alloc.State())
      ensures ok ==> Valid(alloc, phys)
      ensures ok ==> AddrToPage(VirtAddrFrom(trampoline)).Some? && AddrToPage(PhysAddrFrom(strampoline)).Some?
      ensures ok ==>
        var vpn := AddrToPage(VirtAddrFrom(trampoline)).value;
        var ppn := AddrToPage(PhysAddrFrom(strampoline)).value;
        !IsValid(LeafEntry(old(pageTable.mem), pageTable.root_ppn, vpn)) &&
        Translate(pageTable.mem, pageTable.root_ppn, vpn) == Some(NewEntry(ppn, R | X | V)) &&
        (forall v: nat :: v < VPN_LIMIT && v != vpn ==>
          LeafEntry(pageTable.mem, pageTable.root_ppn, v) == LeafEntry(old(pageTable.mem), pageTable.root_ppn, v)) &&
        (forall i :: 0 <= i < |areas| ==> !InRange(areas[i], vpn))
    {
      var vpn := AddrToPage(VirtAddrFrom(trampoline));
      var ppn := AddrToPage(PhysAddrFrom(strampoline));
      if vpn.None? || ppn.None? {
        return false;
      }
      ghost var mem0, df0, meta0, s0 := pageTable.mem, pageTable.data_frames, pageTable.metadata_frames, alloc.State();
      ok := pageTable.Map(vpn.value, ppn.value, R | X, alloc);
      DataOwnedGrows(df0, meta0, s0, pageTable.metadata_frames, alloc.State());
      if ok {
        TrampolineKeepsMapped(mem0, df0, pageTable.mem, pageTable.root_ppn, areas, vpn.value);
      }
    }
  }
}
