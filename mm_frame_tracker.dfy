/** Frame trackers (os/src/mm/frame_allocator.rs and
    kernel/src/mm/frame_allocator.rs). A `FrameTracker` owns one frame of
    the global allocator: `FrameTracker::new` clears the frame, and dropping
    the tracker hands the frame back with `dealloc`. The bytes of the frames
    that hold user data are kept in a `PhysMemory` object, one 4096-byte
    page per physical page number. */
module FrameTracker {
  import opened Wrappers
  import opened Address
  import opened FrameAllocator

  type Byte = bv8

  function ZeroPage(): (p: seq<Byte>)
    ensures |p| == PAGE_SIZE && forall i :: 0 <= i < |p| ==> p[i] == 0
  {
    seq(PAGE_SIZE, _ => 0)
  }

  /** The bytes of frame ppn. A frame the model has never written is read
      as zeros. */
  function Content(frames: map<nat, seq<Byte>>, ppn: nat): seq<Byte>
  {
    if ppn in frames then frames[ppn] else ZeroPage()
  }

  /** Every stored page is exactly one page long. */
  ghost predicate PagesWellSized(frames: map<nat, seq<Byte>>)
  {
    forall p :: p in frames ==> |frames[p]| == PAGE_SIZE
  }

  /** Physical memory, as far as data frames go. */
  class PhysMemory {
    var frames: map<nat, seq<Byte>>

    ghost predicate Valid()
      reads this
    {
      PagesWellSized(frames)
    }

    constructor ()
      ensures frames == map[] && Valid()
    {
      frames := map[];
    }

    /** `ppn.as_mut_bytes_array()[..|data|].copy_from_slice(data)`. */
    method WritePrefix(ppn: nat, data: seq<Byte>)
      requires Valid() && |data| <= PAGE_SIZE
      modifies this
      ensures Valid()
      ensures frames == old(frames)[ppn := data + Content(old(frames), ppn)[|data|..]]
      ensures Content(frames, ppn)[..|data|] == data
      ensures forall q :: q != ppn ==> Content(frames, q) == Content(old(frames), q)
    {
      var page := data + Content(frames, ppn)[|data|..];
      assert page[..|data|] == data;
      frames := frames[ppn := page];
    }

    /** `dst.as_mut_bytes_array().copy_from_slice(src.as_bytes_array())`. */
    method CopyPage(src: nat, dst: nat)
      requires Valid()
      modifies this
      ensures Valid()
      ensures frames == old(frames)[dst := Content(old(frames), src)]
      ensures Content(frames, dst) == Content(old(frames), src)
      ensures forall q :: q != dst ==> Content(frames, q) == Content(old(frames), q)
    {
      frames := frames[dst := Content(frames, src)];
    }
  }

  /** `frame_alloc`: a frame from the allocator, cleared by
      `FrameTracker::new`. None when no frame is left. */
  method FrameAlloc(alloc: StackFrameAllocator, phys: PhysMemory) returns (frame: Option<nat>)
    requires alloc.Valid() && phys.Valid()
    modifies alloc, phys
    ensures alloc.Valid() && phys.Valid()
    ensures AllocStep(old(alloc.State())) == AllocResult(frame, alloc.State())
    ensures frame.Some? ==> frame.value !in Live(old(alloc.State()))
    ensures frame.Some? ==> Live(alloc.State()) == Live(old(alloc.State())) + {frame.value}
    ensures frame.Some? ==> phys.frames == old(phys.frames)[frame.value := ZeroPage()]
    ensures frame.Some? ==> Content(phys.frames, frame.value) == ZeroPage()
    ensures frame.None? ==> phys.frames == old(phys.frames) && alloc.State() == old(alloc.State())
  {
    AllocFresh(alloc.State());
    frame := alloc.Alloc();
    if frame.Some? {
      phys.frames := phys.frames[frame.value := ZeroPage()];
    }
  }

  /** Dropping a `FrameTracker`: `dealloc(ppn)`. False stands for the panic
      on a frame that is not in use. */
  method FrameDrop(alloc: StackFrameAllocator, ppn: nat) returns (ok: bool)
    requires alloc.Valid()
    modifies alloc
    ensures alloc.Valid()
    ensures ok <==> ppn in Live(old(alloc.State()))
    ensures ok ==> Live(alloc.State()) == Live(old(alloc.State())) - {ppn}
    ensures ok ==> alloc.current == old(alloc.current) && alloc.end == old(alloc.end)
    ensures ok ==> Free(alloc.State()) == Free(old(alloc.State())) + 1
    ensures !ok ==> alloc.State() == old(alloc.State())
  {
    DeallocChecks(alloc.State(), ppn);
    ok := alloc.Dealloc(ppn);
  }
}
