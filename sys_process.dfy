/** Process system calls of the current kernel
    (kernel/src/syscall/process.rs): `waitpid` over the caller's children,
    `kill` over the pid table, the values `fork` returns to parent and
    child, and the argument collection of `exec`. */
module ProcessCalls {
  import opened Wrappers
  import opened TaskId
  import opened Process
  import opened Manager
  import opened Signals
  import TaskOps
  import MemorySet
  import FrameAllocator
  import FrameTracker

  /** `pid == -1 || pid as usize == p.pid()`: -1 stands for any child. */
  predicate Matches(target: int, c: Proc)
  {
    target == -1 || target == c.pid
  }

  /** The index of the first child that matches and is a zombie. */
  function FirstZombie(cs: seq<Proc>, target: int): (r: Option<nat>)
    reads set c | c in cs
    ensures r.Some? ==> r.value < |cs| && cs[r.value].isZombie && Matches(target, cs[r.value])
    ensures r.Some? ==> forall j :: 0 <= j < r.value ==> !(cs[j].isZombie && Matches(target, cs[j]))
    ensures r.None? <==> forall j :: 0 <= j < |cs| ==> !(cs[j].isZombie && Matches(target, cs[j]))
  {
    if |cs| == 0 then None
    else if cs[0].isZombie && Matches(target, cs[0]) then Some(0)
    else match FirstZombie(cs[1..], target)
      case None => None
      case Some(i) => Some(i + 1)
  }

  /** A scan that stops at the first zombie match finds what FirstZombie
      names. */
  lemma {:induction false} FirstZombieIs(cs: seq<Proc>, target: int, i: nat)
    requires i < |cs| && cs[i].isZombie && Matches(target, cs[i])
    requires forall j :: 0 <= j < i ==> !(cs[j].isZombie && Matches(target, cs[j]))
    ensures FirstZombie(cs, target) == Some(i)
  {
    if i > 0 {
      FirstZombieIs(cs[1..], target, i - 1);
    }
  }

  /** `sys_waitpid`: -1 when no child matches; otherwise the first matching
      zombie is removed from the children, its exit code is handed back
      (the write through `exit_code_ptr`) and its pid returned; -2 when
      the matching children are all still running. */
  method Waitpid(process: Proc, target: int) returns (r: int, exitCode: Option<int>)
    modifies process`children
    ensures r == -1 <==> forall c :: c in old(process.children) ==> !Matches(target, c)
    ensures r == -1 || r == -2 ==> process.children == old(process.children) && exitCode == None
    ensures r == -2 <==> ((exists c :: c in old(process.children) && Matches(target, c)) &&
      old(FirstZombie(process.children, target)).None?)
    ensures r >= 0 ==> (old(FirstZombie(process.children, target)).Some? &&
      var i := old(FirstZombie(process.children, target)).value;
      var child := old(process.children)[i];
      r == child.pid && exitCode == Some(child.exitCode) &&
      process.children == old(process.children)[..i] + old(process.children)[i + 1..])
    ensures r == -1 || r == -2 || r >= 0
  {
    var cs := process.children;
    var k := FindMatch(cs, target);
    if k == |cs| {
      return -1, None;
    }
    assert cs[k] in cs;
    var i := FindZombie(cs, target);
    if i == |cs| {
      return -2, None;
    }
    var child := cs[i];
    process.children := cs[..i] + cs[i + 1..];
    r := child.pid;
    exitCode := Some(child.exitCode);
  }

  /** The first loop of `sys_waitpid`: the index of the first child that
      matches the target, or the number of children if none does. */
  method FindMatch(cs: seq<Proc>, target: int) returns (k: nat)
    ensures k <= |cs| && forall j :: 0 <= j < k ==> !Matches(target, cs[j])
    ensures k < |cs| ==> Matches(target, cs[k])
  {
    k := 0;
    while k < |cs| && !Matches(target, cs[k])
      invariant 0 <= k <= |cs|
      invariant forall j :: 0 <= j < k ==> !Matches(target, cs[j])
    {
      k := k + 1;
    }
  }

  /** The second loop of `sys_waitpid`: the index of the first matching
      zombie, as FirstZombie names it, or the number of children. */
  method FindZombie(cs: seq<Proc>, target: int) returns (i: nat)
    ensures i <= |cs|
    ensures i == |cs| <==> FirstZombie(cs, target).None?
    ensures i < |cs| ==> FirstZombie(cs, target) == Some(i)
  {
    i := 0;
    while i < |cs| && !(cs[i].isZombie && Matches(target, cs[i]))
      invariant 0 <= i <= |cs|
      invariant forall j :: 0 <= j < i ==> !(cs[j].isZombie && Matches(target, cs[j]))
    {
      i := i + 1;
    }
    if i < |cs| {
      FirstZombieIs(cs, target, i);
    }
  }

  /** Reaping is final: once a child with a unique pid has been collected,
      waiting for that pid again finds no such child. */
  method ReapTwice(process: Proc, pid: nat) returns (first: int, second: int)
    requires forall i, j :: 0 <= i < j < |process.children| ==> process.children[i].pid != process.children[j].pid
    modifies process`children
    ensures first >= 0 ==> first == pid && second == -1
  {
    ghost var before := process.children;
    var code;
    first, code := Waitpid(process, pid);
    if first >= 0 {
      var i := FirstZombie(before, pid).value;
      forall c | c in process.children
        ensures !Matches(pid, c)
      {
        var k :| 0 <= k < |process.children| && process.children[k] == c;
        if k < i {
          assert c == before[k];
        } else {
          assert c == before[k + 1];
        }
      }
    }
    second, code := Waitpid(process, pid);
  }

  /** `SignalFlags::from_bits`: a mask is accepted only if every bit in it
      names one of the five kernel signals. */
  predicate ValidSignalBits(signal: bv32)
  {
    signal & !KERNEL_SIGNAL_BITS == 0
  }

  /** `sys_kill`: an unknown pid or a mask with a bit outside the five
      signals is refused with -1; otherwise the mask is ORed into the target
      process's pending signals and the call returns 0. */
  method Kill(table: Pid2Process<Proc>, pid: nat, signal: bv32) returns (r: int)
    modifies if pid in table.table then {table.table[pid]} else {}
    ensures r == 0 <==> pid in table.table && ValidSignalBits(signal)
    ensures r != 0 ==> r == -1
    ensures r == 0 ==> table.table[pid].signals == old(table.table[pid].signals) | signal
    ensures pid in table.table && r != 0 ==> table.table[pid].signals == old(table.table[pid].signals)
  {
    var p := table.Get(pid);
    if p.None? {
      return -1;
    }
    if !ValidSignalBits(signal) {
      return -1;
    }
    p.value.signals := p.value.signals | signal;
    r := 0;
  }

  /** Sending the same accepted mask twice leaves what one send leaves, and
      any non-empty accepted mask makes the next trap exit report an error
      code. */
  lemma KillEffect(s: bv32, signal: bv32)
    requires ValidSignalBits(signal)
    ensures (s | signal) | signal == s | signal
    ensures signal != 0 ==> KernelCheckError(s | signal).Some?
  {
    KernelAddSignal(s, signal);
  }

  /** `sys_fork`: the child's main thread resumes from a copy of the
      caller's trap context with a0 = 0 (the trap context page is among the
      pages MemorySet.Clone copies), and the parent gets the child's pid.
      None stands for the panics of the fork: the failing assertion of a
      multi-threaded fork, or no frame left for the cloned space. */
  method Fork(current: Task, space: MemorySet.MemorySet, trampoline: nat, strampoline: nat,
              alloc: FrameAllocator.StackFrameAllocator, phys: FrameTracker.PhysMemory,
              pids: RecycleAllocator, table: Pid2Process<Proc>, m: Manager<Task>)
    returns (r: Option<nat>)
    requires pids.Valid() && |current.trapCx.x| == 32 && space.Valid(alloc, phys)
    modifies current.process`children, pids, table, m, alloc, phys
    ensures pids.Valid()
    ensures |current.process.tasks| != 1 ==> r.None?
    ensures r.None? ==> table.table == old(table.table) && pids.State() == old(pids.State())
    ensures r.Some? ==> (r.value in table.table &&
      var child := table.table[r.value];
      table.table == old(table.table)[r.value := child] && r.value !in LiveIds(old(pids.State())) &&
      child.pid == r.value && child.parent == current.process &&
      old(current.process.children) + [child] == current.process.children &&
      |child.tasks| == 1 && child.tasks[0] != null &&
      child.tasks[0].trapCx == current.trapCx.(x := current.trapCx.x[10 := 0]))
  {
    var forked := TaskOps.Fork(current.process, space, trampoline, strampoline, alloc, phys, pids, table, m);
    if !forked.Forked? {
      return None;
    }
    forked.task.trapCx := current.trapCx.(x := current.trapCx.x[10 := 0]);
    r := Some(forked.child.pid);
  }

  /** The argument strings `exec` collects: the strings behind each pointer
      up to the first null one. None stands for a pointer array that runs
      out of readable memory before a null pointer (the translation
      panics). */
  function ArgsUntilNull(ptrs: seq<nat>, strs: nat -> seq<bv8>): (r: Option<seq<seq<bv8>>>)
    ensures r.None? <==> 0 !in ptrs
  {
    if |ptrs| == 0 then None
    else if ptrs[0] == 0 then Some([])
    else match ArgsUntilNull(ptrs[1..], strs)
      case None => None
      case Some(rest) => Some([strs(ptrs[0])] + rest)
  }

  /** The collected strings are exactly those behind the pointers before
      the first null one. */
  lemma {:induction false} ArgsUntilNullIs(ptrs: seq<nat>, strs: nat -> seq<bv8>, n: nat)
    requires n < |ptrs| && ptrs[n] == 0 && forall j :: 0 <= j < n ==> ptrs[j] != 0
    ensures ArgsUntilNull(ptrs, strs).Some? && |ArgsUntilNull(ptrs, strs).value| == n
    ensures forall i :: 0 <= i < n ==> ArgsUntilNull(ptrs, strs).value[i] == strs(ptrs[i])
  {
    if n > 0 {
      ArgsUntilNullIs(ptrs[1..], strs, n - 1);
    }
  }

  /** `sys_exec` up to the image replacement: the argument strings are
      collected first, then the program is looked up; a missing program
      gives -1 and a found one gives argc (the image itself is replaced by
      TaskOps.Exec). `found` is the outcome of `open_file`. */
  method Exec(ptrs: seq<nat>, strs: nat -> seq<bv8>, found: bool) returns (r: Option<int>, args: seq<seq<bv8>>)
    ensures r.None? <==> 0 !in ptrs
    ensures r.Some? ==> ArgsUntilNull(ptrs, strs) == Some(args)
    ensures r.Some? ==> |args| < |ptrs| && ptrs[|args|] == 0
    ensures r.Some? ==> forall k :: 0 <= k < |args| ==> ptrs[k] != 0 && args[k] == strs(ptrs[k])
    ensures r.Some? ==> r.value == if found then |args| else -1
  {
    args := [];
    var i := 0;
    while i < |ptrs| && ptrs[i] != 0
      invariant 0 <= i <= |ptrs|
      invariant forall j :: 0 <= j < i ==> ptrs[j] != 0
      invariant |args| == i && forall k :: 0 <= k < i ==> args[k] == strs(ptrs[k])
    {
      args := args + [strs(ptrs[i])];
      i := i + 1;
    }
    if i == |ptrs| {
      return None, args;
    }
    ArgsUntilNullIs(ptrs, strs, i);
    assert ArgsUntilNull(ptrs, strs).value == args;
    r := Some(if found then |args| else -1);
  }
}
