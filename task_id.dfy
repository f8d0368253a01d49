/** Identifier allocation (os/src/task/id.rs and os/src/task/pid.rs): the
    `RecycleAllocator` of id.rs and the `PidAllocator` of pid.rs are the same
    bump-pointer-plus-LIFO-stack allocator without an upper bound, and the
    per-thread trap-context and user-stack addresses are computed from the
    thread id. */
module TaskId {
  import opened Wrappers

  /** The allocator's fields as a value. */
  datatype IdState = IdState(current: nat, recycled: seq<nat>)

  datatype IdAllocResult = IdAllocResult(id: nat, next: IdState)

  /** The result of `dealloc`: the source's `assert!`s become `Rejected`. */
  datatype IdDeallocResult = Recycled(next: IdState) | Rejected

  /** Every recycled id was once handed out, and none is recycled twice. */
  predicate IdWellFormed(s: IdState)
  {
    (forall i :: 0 <= i < |s.recycled| ==> s.recycled[i] < s.current) &&
    (forall i, j :: 0 <= i < j < |s.recycled| ==> s.recycled[i] != s.recycled[j])
  }

  /** The ids in use: handed out and not recycled since. */
  function LiveIds(s: IdState): set<nat>
  {
    set id | 0 <= id < s.current && id !in s.recycled
  }

  /** `alloc`: pop the last recycled id, else hand out `current` and bump it.
      It never fails. */
  function AllocIdStep(s: IdState): IdAllocResult
  {
    if |s.recycled| > 0 then IdAllocResult(s.recycled[|s.recycled| - 1], s.(recycled := s.recycled[..|s.recycled| - 1]))
    else IdAllocResult(s.current, s.(current := s.current + 1))
  }

  /** `dealloc`: reject an id at or past `current` or already recycled (the
      `any` scan), otherwise push it. */
  function DeallocIdStep(s: IdState, id: nat): IdDeallocResult
  {
    if id >= s.current || id in s.recycled then Rejected
    else Recycled(s.(recycled := s.recycled + [id]))
  }

  /** alloc reuses the most recently recycled id; with none it hands out
      `current` and increments it. */
  lemma AllocIdChoice(s: IdState)
    ensures s.recycled != [] ==> AllocIdStep(s).id == s.recycled[|s.recycled| - 1] && AllocIdStep(s).next.current == s.current
    ensures s.recycled == [] ==> AllocIdStep(s).id == s.current && AllocIdStep(s).next.current == s.current + 1
  {
  }

  /** The id alloc hands out is not in use, and becomes the only new id in
      use: no id is given to two owners at once. */
  lemma {:induction false} AllocIdFresh(s: IdState)
    requires IdWellFormed(s)
    ensures IdWellFormed(AllocIdStep(s).next)
    ensures AllocIdStep(s).id !in LiveIds(s)
    ensures LiveIds(AllocIdStep(s).next) == LiveIds(s) + {AllocIdStep(s).id}
  {
    var r := AllocIdStep(s);
    if |s.recycled| > 0 {
      var n := |s.recycled|;
      var p := s.recycled[n - 1];
      var rest := s.recycled[..n - 1];
      assert s.recycled == rest + [p];
      assert p !in rest by {
        forall i | 0 <= i < |rest| ensures rest[i] != p {
          assert s.recycled[i] != s.recycled[n - 1];
        }
      }
      forall q ensures q in LiveIds(r.next) <==> q in LiveIds(s) + {p} {
        assert q in s.recycled <==> q in rest || q == p;
      }
    } else {
      forall q ensures q in LiveIds(r.next) <==> q in LiveIds(s) + {s.current} {
      }
    }
  }

  /** dealloc is rejected exactly for an id not in use (never handed out,
      or freed twice); otherwise only that id stops being in use. */
  lemma {:induction false} DeallocIdChecks(s: IdState, id: nat)
    requires IdWellFormed(s)
    ensures DeallocIdStep(s, id).Rejected? <==> id !in LiveIds(s)
    ensures DeallocIdStep(s, id).Recycled? ==>
      IdWellFormed(DeallocIdStep(s, id).next) && LiveIds(DeallocIdStep(s, id).next) == LiveIds(s) - {id} &&
      DeallocIdStep(s, id).next.current == s.current
  {
    if DeallocIdStep(s, id).Recycled? {
      var t := DeallocIdStep(s, id).next;
      forall i, j | 0 <= i < j < |t.recycled| ensures t.recycled[i] != t.recycled[j] {
        if j == |s.recycled| {
          assert t.recycled[i] == s.recycled[i];
          assert t.recycled[i] in s.recycled;
        } else {
          assert t.recycled[i] == s.recycled[i] && t.recycled[j] == s.recycled[j];
        }
      }
      forall q ensures q in LiveIds(t) <==> q in LiveIds(s) - {id} {
        assert q in t.recycled <==> q in s.recycled || q == id;
      }
    }
  }

  /** Freeing an id and allocating again gives it back and restores the
      allocator. */
  lemma DeallocThenAllocId(s: IdState, id: nat)
    requires DeallocIdStep(s, id).Recycled?
    ensures AllocIdStep(DeallocIdStep(s, id).next) == IdAllocResult(id, s)
  {
    assert (s.recycled + [id])[..|s.recycled|] == s.recycled;
  }

  /** The allocator object of id.rs (`RecycleAllocator`) and pid.rs
      (`PidAllocator`). */
  class RecycleAllocator {
    var current: nat
    var recycled: seq<nat>

    function State(): IdState
      reads this
    {
      IdState(current, recycled)
    }

    ghost predicate Valid()
      reads this
    {
      IdWellFormed(State())
    }

    constructor ()
      ensures State() == IdState(0, []) && Valid()
    {
      current, recycled := 0, [];
    }

    method Alloc() returns (id: nat)
      requires Valid()
      modifies this
      ensures Valid()
      ensures AllocIdStep(old(State())) == IdAllocResult(id, State())
      ensures id !in LiveIds(old(State())) && LiveIds(State()) == LiveIds(old(State())) + {id}
    {
      AllocIdFresh(State());
      if |recycled| > 0 {
        id := recycled[|recycled| - 1];
        recycled := recycled[..|recycled| - 1];
      } else {
        current := current + 1;
        id := current - 1;
      }
    }

    /** Returns false where the source panics; the state is then unchanged. */
    method Dealloc(id: nat) returns (ok: bool)
      requires Valid()
      modifies this
      ensures Valid()
      ensures ok <==> id in LiveIds(old(State()))
      ensures ok ==> State() == DeallocIdStep(old(State()), id).next && LiveIds(State()) == LiveIds(old(State())) - {id}
      ensures !ok ==> State() == old(State())
    {
      DeallocIdChecks(State(), id);
      var i := 0;
      var seen := false;
      while i < |recycled|
        invariant 0 <= i <= |recycled|
        invariant seen <==> id in recycled[..i]
      {
        if recycled[i] == id {
          seen := true;
        }
        assert recycled[..i + 1] == recycled[..i] + [recycled[i]];
        i := i + 1;
      }
      assert recycled[..i] == recycled;
      if id >= current || seen {
        return false;
      }
      recycled := recycled + [id];
      ok := true;
    }
  }

  /** Dropping a `PidHandle` hands its id back to the allocator. */
  method DropPidHandle(alloc: RecycleAllocator, pid: nat) returns (ok: bool)
    requires alloc.Valid()
    modifies alloc
    ensures alloc.Valid()
    ensures ok <==> pid in LiveIds(old(alloc.State()))
    ensures ok ==> LiveIds(alloc.State()) == LiveIds(old(alloc.State())) - {pid}
    ensures !ok ==> alloc.State() == old(alloc.State())
  {
    ok := alloc.Dealloc(pid);
  }

  const PAGE_SIZE: nat := 4096

  /** `trap_cx_bottom_from_tid`: one page per thread, downwards from
      TRAP_CONTEXT_BASE. None stands for the usize subtraction that would
      go below zero. */
  function TrapCxBottom(trapContextBase: nat, tid: nat): (r: Option<nat>)
    ensures r.Some? <==> tid * PAGE_SIZE <= trapContextBase
    ensures r.Some? ==> r.value + tid * PAGE_SIZE == trapContextBase
  {
    if tid * PAGE_SIZE <= trapContextBase then Some(trapContextBase - tid * PAGE_SIZE) else None
  }

  /** Different threads get trap-context pages that do not overlap. */
  lemma TrapCxDisjoint(trapContextBase: nat, tid1: nat, tid2: nat)
    requires tid1 < tid2 && TrapCxBottom(trapContextBase, tid2).Some?
    ensures TrapCxBottom(trapContextBase, tid1).Some?
    ensures TrapCxBottom(trapContextBase, tid2).value + PAGE_SIZE <= TrapCxBottom(trapContextBase, tid1).value
  {
    assert tid1 * PAGE_SIZE + PAGE_SIZE <= tid2 * PAGE_SIZE;
  }

  /** `ustack_bottom_from_tid`: one stack plus one guard page per thread,
      upwards from the user stack base. */
  function UstackBottom(ustackBase: nat, userStackSize: nat, tid: nat): (b: nat)
    ensures b >= ustackBase
  {
    ustackBase + tid * (PAGE_SIZE + userStackSize)
  }

  /** Thread stacks do not overlap, and a page of gap separates each stack
      from the next one up. */
  lemma {:induction false} UstacksDisjoint(ustackBase: nat, userStackSize: nat, tid1: nat, tid2: nat)
    requires tid1 < tid2
    ensures UstackBottom(ustackBase, userStackSize, tid1) + userStackSize + PAGE_SIZE
      <= UstackBottom(ustackBase, userStackSize, tid2)
  {
    var step := PAGE_SIZE + userStackSize;
    assert tid2 * step >= (tid1 + 1) * step by {
      assert tid2 >= tid1 + 1;
    }
  }
}
