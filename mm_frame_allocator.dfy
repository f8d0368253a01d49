/** The physical frame allocator (kernel/src/mm/frame_allocator.rs and
    os/src/mm/frame_allocator.rs, identical in both kernels): a bump pointer
    `current` towards `end` and a LIFO stack `recycled` of returned frames. */
module FrameAllocator {
  import opened Wrappers

  /** The allocator's fields as a value, so that its steps can be stated as
      functions and reasoned about in lemmas. */
  datatype AllocatorState = AllocatorState(current: nat, end: nat, recycled: seq<nat>)

  /** The result of a step that may hand out a frame. */
  datatype AllocResult = AllocResult(frame: Option<nat>, next: AllocatorState)

  /** The result of `dealloc`: the source's `assert!` becomes `Panic`. */
  datatype DeallocResult = Freed(next: AllocatorState) | Panic

  predicate NoDuplicates(s: seq<nat>)
  {
    forall i, j :: 0 <= i < j < |s| ==> s[i] != s[j]
  }

  /** Every recycled frame was handed out by the bump pointer, and no frame
      is recycled twice. */
  predicate WellFormed(s: AllocatorState)
  {
    (forall i :: 0 <= i < |s.recycled| ==> s.recycled[i] < s.current) && NoDuplicates(s.recycled)
  }

  /** The frames that are in use: below the bump pointer and not recycled. */
  function Live(s: AllocatorState): set<nat>
  {
    set p | 0 <= p < s.current && p !in s.recycled
  }

  /** `StackFrameAllocator::init(l, r)`. */
  function InitStep(s: AllocatorState, l: nat, r: nat): (t: AllocatorState)
  {
    AllocatorState(l, r, s.recycled)
  }

  /** `StackFrameAllocator::alloc`: pop the last recycled frame, else bump
      `current` unless it has reached `end`. */
  function AllocStep(s: AllocatorState): (res: AllocResult)
  {
    if |s.recycled| > 0 then
      AllocResult(Some(s.recycled[|s.recycled| - 1]), s.(recycled := s.recycled[..|s.recycled| - 1]))
    else if s.current == s.end then
      AllocResult(None, s)
    else
      AllocResult(Some(s.current), s.(current := s.current + 1))
  }

  /** `StackFrameAllocator::dealloc`: reject a frame at or past `current` or
      already recycled, otherwise push it. */
  function DeallocStep(s: AllocatorState, ppn: nat): (res: DeallocResult)
  {
    if ppn >= s.current || ppn in s.recycled then Panic
    else Freed(s.(recycled := s.recycled + [ppn]))
  }

  /** `init(l, r)` sets both bounds and keeps the recycled stack. */
  lemma InitSetsBounds(s: AllocatorState, l: nat, r: nat)
    ensures InitStep(s, l, r).current == l && InitStep(s, l, r).end == r
    ensures InitStep(s, l, r).recycled == s.recycled
    ensures s.recycled == [] ==> WellFormed(InitStep(s, l, r)) && (forall p: nat :: p in Live(InitStep(s, l, r)) <==> p < l)
  {
    if s.recycled == [] {
      forall p: nat ensures p in Live(InitStep(s, l, r)) <==> p < l {
        assert p !in InitStep(s, l, r).recycled;
      }
    }
  }

  /** alloc fails exactly when nothing is recycled and the bump pointer has
      reached `end`; a recycled frame is preferred, most recent first. */
  lemma AllocChoice(s: AllocatorState)
    ensures AllocStep(s).frame.None? <==> s.recycled == [] && s.current == s.end
    ensures s.recycled != [] ==> AllocStep(s).frame == Some(s.recycled[|s.recycled| - 1])
    ensures s.recycled == [] && s.current != s.end ==>
      AllocStep(s).frame == Some(s.current) && AllocStep(s).next.current == s.current + 1
    ensures AllocStep(s).next.end == s.end
  {
  }

  /** alloc never hands out a frame that is in use, and the frame it hands
      out becomes in use; nothing else changes status. */
  lemma {:induction false} AllocFresh(s: AllocatorState)
    requires WellFormed(s)
    ensures WellFormed(AllocStep(s).next)
    ensures AllocStep(s).frame.Some? ==>
      AllocStep(s).frame.value !in Live(s) && Live(AllocStep(s).next) == Live(s) + {AllocStep(s).frame.value}
    ensures AllocStep(s).frame.None? ==> AllocStep(s).next == s
  {
    var res := AllocStep(s);
    if |s.recycled| > 0 {
      var n := |s.recycled|;
      var p := s.recycled[n - 1];
      var rest := s.recycled[..n - 1];
      assert s.recycled == rest + [p];
      assert p !in rest by {
        forall i | 0 <= i < |rest| ensures rest[i] != p {
          assert s.recycled[i] != s.recycled[n - 1];
        }
      }
      forall q ensures q in Live(res.next) <==> q in Live(s) + {p} {
        assert q in s.recycled <==> q in rest || q == p;
      }
    } else if s.current != s.end {
      var p := s.current;
      forall q ensures q in Live(res.next) <==> q in Live(s) + {p} {
      }
    }
  }

  /** dealloc panics exactly on a frame that is not in use (a double free or
      a frame never handed out); otherwise the frame stops being in use and
      the bounds are untouched. */
  lemma {:induction false} DeallocChecks(s: AllocatorState, ppn: nat)
    requires WellFormed(s)
    ensures DeallocStep(s, ppn).Panic? <==> ppn !in Live(s)
    ensures DeallocStep(s, ppn).Freed? ==>
      var t := DeallocStep(s, ppn).next;
      WellFormed(t) && Live(t) == Live(s) - {ppn} &&
      t.current == s.current && t.end == s.end && t.recycled == s.recycled + [ppn]
  {
    if DeallocStep(s, ppn).Freed? {
      var t := DeallocStep(s, ppn).next;
      forall i, j | 0 <= i < j < |t.recycled| ensures t.recycled[i] != t.recycled[j] {
        if j == |s.recycled| {
          assert t.recycled[i] == s.recycled[i];
          assert t.recycled[i] in s.recycled;
        } else {
          assert t.recycled[i] == s.recycled[i] && t.recycled[j] == s.recycled[j];
        }
      }
      forall q ensures q in Live(t) <==> q in Live(s) - {ppn} {
        assert q in t.recycled <==> q in s.recycled || q == ppn;
      }
    }
  }

  /** Frames that can still be handed out: the recycled ones and those
      between the bump pointer and `end`. */
  function Free(s: AllocatorState): nat
  {
    |s.recycled| + (if s.current <= s.end then s.end - s.current else 0)
  }

  /** With the bump pointer not past `end`, alloc fails exactly when no frame
      is free, uses up one free frame when it succeeds, and keeps the bump
      pointer not past `end`. */
  lemma AllocUsesOneFree(s: AllocatorState)
    requires s.current <= s.end
    ensures AllocStep(s).frame.None? <==> Free(s) == 0
    ensures AllocStep(s).frame.Some? ==> Free(AllocStep(s).next) + 1 == Free(s)
    ensures AllocStep(s).next.current <= AllocStep(s).next.end
  {
  }

  /** Freeing a frame and allocating again gives that frame back (LIFO). */
  lemma DeallocThenAlloc(s: AllocatorState, ppn: nat)
    requires DeallocStep(s, ppn).Freed?
    ensures AllocStep(DeallocStep(s, ppn).next).frame == Some(ppn)
    ensures AllocStep(DeallocStep(s, ppn).next).next == s
  {
    assert (s.recycled + [ppn])[..|s.recycled|] == s.recycled;
  }

  /** The kernel's allocator test: with nothing recycled and room for two
      frames, two allocations give `start` and `start + 1`; dropping the
      second leaves `current == start + 2` and one recycled frame; the next
      allocation returns `start + 1` again and empties the stack. */
  lemma KernelAllocatorTest(s: AllocatorState)
    requires s.recycled == [] && s.current + 2 <= s.end
    ensures var a1 := AllocStep(s);
      var a2 := AllocStep(a1.next);
      var d := DeallocStep(a2.next, s.current + 1);
      a1.frame == Some(s.current) && a2.frame == Some(s.current + 1) &&
      a2.next.current == s.current + 2 && a2.next.recycled == [] &&
      d.Freed? && d.next.current == s.current + 2 && |d.next.recycled| == 1 &&
      AllocStep(d.next).frame == Some(s.current + 1) &&
      AllocStep(d.next).next.current == s.current + 2 && AllocStep(d.next).next.recycled == []
  {
  }

  /** Allocate `n` frames in a row, as the os test's loop does. */
  function AllocMany(s: AllocatorState, n: nat): (res: (seq<Option<nat>>, AllocatorState))
    ensures |res.0| == n
    decreases n
  {
    if n == 0 then ([], s)
    else
      var a := AllocStep(s);
      var rest := AllocMany(a.next, n - 1);
      ([a.frame] + rest.0, rest.1)
  }

  /** Free the frames in order, as dropping a `Vec<FrameTracker>` does;
      `None` when some free panics. */
  function DeallocAll(s: AllocatorState, ppns: seq<nat>): (res: Option<AllocatorState>)
    decreases |ppns|
  {
    if ppns == [] then Some(s)
    else match DeallocStep(s, ppns[0])
      case Panic => None
      case Freed(t) => DeallocAll(t, ppns[1..])
  }

  function Range(lo: nat, n: nat): (r: seq<nat>)
    ensures |r| == n && forall i :: 0 <= i < n ==> r[i] == lo + i
  {
    if n == 0 then [] else Range(lo, n - 1) + [lo + n - 1]
  }

  function Reverse(s: seq<nat>): (r: seq<nat>)
    ensures |r| == |s| && forall i :: 0 <= i < |s| ==> r[i] == s[|s| - 1 - i]
  {
    if s == [] then [] else Reverse(s[1..]) + [s[0]]
  }

  function Somes(s: seq<nat>): (r: seq<Option<nat>>)
    ensures |r| == |s| && forall i :: 0 <= i < |s| ==> r[i] == Some(s[i])
  {
    if s == [] then [] else [Some(s[0])] + Somes(s[1..])
  }

  lemma {:induction false} BumpMany(s: AllocatorState, n: nat)
    requires s.recycled == [] && s.current + n <= s.end
    ensures AllocMany(s, n).0 == Somes(Range(s.current, n))
    ensures AllocMany(s, n).1 == s.(current := s.current + n)
    decreases n
  {
    if n > 0 {
      var t := s.(current := s.current + 1);
      BumpMany(t, n - 1);
      var r := Range(s.current, n);
      RangeTail(s.current, n);
      assert Somes(r) == [Some(r[0])] + Somes(r[1..]);
    }
  }

  /** A range without its first element is the range one further on. */
  lemma RangeTail(lo: nat, n: nat)
    requires n > 0
    ensures Range(lo, n)[1..] == Range(lo + 1, n - 1)
  {
  }

  lemma {:induction false} FreeAscending(s: AllocatorState, lo: nat, k: nat, n: nat)
    requires k <= n && lo + n <= s.current
    requires s.recycled == Range(lo, k)
    ensures DeallocAll(s, Range(lo + k, n - k)) == Some(s.(recycled := Range(lo, n)))
    decreases n - k
  {
    if k < n {
      var ppns := Range(lo + k, n - k);
      assert ppns[0] == lo + k;
      assert lo + k !in s.recycled;
      var t := s.(recycled := Range(lo, k + 1));
      assert s.recycled + [lo + k] == Range(lo, k + 1);
      assert ppns[1..] == Range(lo + k + 1, n - k - 1);
      FreeAscending(t, lo, k + 1, n);
    } else {
      assert Range(lo + k, 0) == [];
    }
  }

  lemma {:induction false} PopMany(s: AllocatorState, stack: seq<nat>)
    requires s.recycled == stack
    ensures AllocMany(s, |stack|).0 == Somes(Reverse(stack))
    ensures AllocMany(s, |stack|).1 == s.(recycled := [])
    decreases |stack|
  {
    if |stack| > 0 {
      var n := |stack|;
      var t := s.(recycled := stack[..n - 1]);
      PopMany(t, stack[..n - 1]);
      assert Somes(Reverse(stack)) == [Some(stack[n - 1])] + Somes(Reverse(stack[..n - 1]));
    }
  }

  /** The os kernel's allocator test: five allocations from a fresh range
      give `start .. start + 4`; dropping them all recycles them in order;
      five more allocations give the same frames in reverse order. */
  lemma OsAllocatorTest(s: AllocatorState)
    requires s.recycled == [] && s.current + 5 <= s.end
    ensures var first := AllocMany(s, 5);
      first.0 == Somes(Range(s.current, 5)) &&
      var dropped := DeallocAll(first.1, Range(s.current, 5));
      dropped.Some? &&
      AllocMany(dropped.value, 5).0 == Somes(Reverse(Range(s.current, 5))) &&
      AllocMany(dropped.value, 5).1.recycled == []
  {
    BumpMany(s, 5);
    var t := s.(current := s.current + 5);
    var r := Range(s.current, 5);
    assert AllocMany(s, 5).1 == t;
    FreeAscending(t, s.current, 0, 5);
    assert s.current + 0 == s.current && 5 - 0 == 5;
    var u := t.(recycled := r);
    assert DeallocAll(t, r) == Some(u);
    PopMany(u, r);
    assert |r| == 5;
  }

  /** The allocator object, stepping as the functions above say. */
  class StackFrameAllocator {
    var current: nat
    var end: nat
    var recycled: seq<nat>

    function State(): AllocatorState
      reads this
    {
      AllocatorState(current, end, recycled)
    }

    ghost predicate Valid()
      reads this
    {
      WellFormed(State())
    }

    /** `FrameAllocator::new`. */
    constructor ()
      ensures State() == AllocatorState(0, 0, []) && Valid()
    {
      current, end, recycled := 0, 0, [];
    }

    method Init(l: nat, r: nat)
      modifies this
      ensures State() == InitStep(old(State()), l, r)
      ensures old(recycled) == [] ==> Valid()
    {
      current, end := l, r;
    }

    method Alloc() returns (frame: Option<nat>)
      requires Valid()
      modifies this
      ensures AllocStep(old(State())) == AllocResult(frame, State())
      ensures Valid()
      ensures frame.Some? ==> frame.value !in Live(old(State())) && Live(State()) == Live(old(State())) + {frame.value}
    {
      AllocFresh(State());
      if |recycled| > 0 {
        frame := Some(recycled[|recycled| - 1]);
        recycled := recycled[..|recycled| - 1];
      } else if current == end {
        frame := None;
      } else {
        current := current + 1;
        frame := Some(current - 1);
      }
    }

    /** Returns false where the source panics; the state is then unchanged. */
    method Dealloc(ppn: nat) returns (ok: bool)
      requires Valid()
      modifies this
      ensures ok <==> DeallocStep(old(State()), ppn).Freed?
      ensures ok ==> State() == DeallocStep(old(State()), ppn).next
      ensures !ok ==> State() == old(State())
      ensures Valid()
      ensures ok <==> ppn in Live(old(State()))
    {
      DeallocChecks(State(), ppn);
      if ppn >= current || ppn in recycled {
        ok := false;
      } else {
        recycled := recycled + [ppn];
        ok := true;
      }
    }
  }
}
