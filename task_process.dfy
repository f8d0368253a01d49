/** Threads and processes of the current kernel (kernel/src/task/tcb.rs and
    kernel/src/task/pcb.rs; os/src/task/pcb.rs has the same process record
    without `cwd`). A thread (`TaskControlBlock`) has a status, the user
    resources that carry its tid, an exit code and a trap context; a process
    (`ProcessControlBlock`) owns its threads, its children, its file
    descriptor table, pending signals and a per-process tid allocator. */
module Process {
  import opened Wrappers
  import opened TaskId

  /** `TaskStatus` of the current kernel. */
  datatype Status = Ready | Running | Blocked

  /** An open file object (`Arc<dyn File>`), compared by identity; what it
      allows is fixed when it is opened. */
  datatype File = File(id: nat, readable: bool, writable: bool)

  const STDIN: File := File(0, true, false)
  const STDOUT: File := File(1, false, true)

  /** The saved user registers x0..x31 and sepc. */
  datatype TrapContext = TrapContext(x: seq<int>, sepc: nat)

  function ZeroContext(): (cx: TrapContext)
    ensures |cx.x| == 32
  {
    TrapContext(seq(32, _ => 0), 0)
  }

  type FdTable = seq<Option<File>>

  /** `iter().position(Option::is_none)` over a table of slots (file
      descriptors here; mutexes, semaphores and condition variables in
      SyncCalls). */
  function FirstFree<T>(t: seq<Option<T>>): (r: Option<nat>)
    ensures r.Some? ==> r.value < |t| && t[r.value].None?
    ensures r.Some? ==> forall i :: 0 <= i < r.value ==> t[i].Some?
    ensures r.None? <==> forall i :: 0 <= i < |t| ==> t[i].Some?
  {
    if |t| == 0 then None
    else if t[0].None? then Some(0)
    else match FirstFree(t[1..])
      case None => None
      case Some(i) => Some(i + 1)
  }

  /** `alloc_fd` on a table value: the lowest empty slot, or a new empty slot
      at the end. */
  function AllocFdStep(t: FdTable): (FdTable, nat)
  {
    match FirstFree(t)
    case Some(i) => (t, i)
    case None => (t + [None], |t|)
  }

  /** The descriptor alloc_fd returns is empty in the resulting table and is
      the lowest empty one; the table only ever grows by one empty slot and
      no open descriptor changes. */
  lemma AllocFdLowest(t: FdTable)
    ensures var (t2, fd) := AllocFdStep(t);
      fd < |t2| && t2[fd].None? && (forall i :: 0 <= i < fd ==> t2[i].Some?) &&
      t2[..|t|] == t && |t2| <= |t| + 1 && (|t2| == |t| + 1 <==> fd == |t|)
  {
  }

  /** The initial table: stdin, stdout, and stdout again as stderr. */
  function InitialFdTable(): (t: FdTable)
    ensures |t| == 3 && t[0] == Some(STDIN) && t[1] == Some(STDOUT) && t[2] == Some(STDOUT)
  {
    [Some(STDIN), Some(STDOUT), Some(STDOUT)]
  }

  class Task {
    const process: Proc
    var status: Status
    /** The user resources (`TaskUserRes`), kept here as their tid. */
    var res: Option<nat>
    var exitCode: Option<int>
    var trapCx: TrapContext

    /** `TaskControlBlock::new`: a Ready thread with no exit code. */
    constructor (process: Proc, tid: nat)
      ensures this.process == process && status == Ready && res == Some(tid) && exitCode == None
      ensures trapCx == ZeroContext()
    {
      this.process := process;
      status := Ready;
      res := Some(tid);
      exitCode := None;
      trapCx := ZeroContext();
    }
  }

  class Proc {
    const pid: nat
    const tidAllocator: RecycleAllocator
    var isZombie: bool
    var parent: Proc?
    var children: seq<Proc>
    var exitCode: int
    var cwd: string
    var fdTable: FdTable
    var signals: bv32
    var tasks: seq<Task?>

    ghost predicate Valid()
      reads this, tidAllocator
    {
      tidAllocator.Valid()
    }

    /** The record `ProcessControlBlock::new` and `fork` start from: not a
        zombie, no children, exit code 0, no pending signal, no thread yet
        and a fresh tid allocator. */
    constructor (pid: nat, parent: Proc?, cwd: string, fdTable: FdTable)
      ensures Valid() && fresh(tidAllocator)
      ensures this.pid == pid && this.parent == parent && this.cwd == cwd && this.fdTable == fdTable
      ensures !isZombie && children == [] && exitCode == 0 && signals == 0 && tasks == []
      ensures tidAllocator.State() == IdState(0, [])
    {
      this.pid := pid;
      tidAllocator := new RecycleAllocator();
      isZombie := false;
      this.parent := parent;
      children := [];
      exitCode := 0;
      this.cwd := cwd;
      this.fdTable := fdTable;
      signals := 0;
      tasks := [];
    }

    /** `alloc_fd`: scan for the first empty slot; if there is none, push an
        empty slot and return its index. */
    method AllocFd() returns (fd: nat)
      modifies this`fdTable
      ensures (fdTable, fd) == AllocFdStep(old(fdTable))
      ensures fd < |fdTable| && fdTable[fd].None?
    {
      AllocFdLowest(fdTable);
      var i := 0;
      while i < |fdTable| && fdTable[i].Some?
        invariant 0 <= i <= |fdTable|
        invariant forall j :: 0 <= j < i ==> fdTable[j].Some?
      {
        i := i + 1;
      }
      if i < |fdTable| {
        FirstFreeIs(fdTable, i);
        return i;
      }
      fdTable := fdTable + [None];
      fd := |fdTable| - 1;
    }

    /** `thread_count`. */
    function ThreadCount(): (n: nat)
      reads this
      ensures n == |tasks|
    {
      |tasks|
    }

    /** `alloc_tid` / `dealloc_tid`: the per-process allocator. */
    method AllocTid() returns (tid: nat)
      requires Valid()
      modifies tidAllocator
      ensures Valid()
      ensures AllocIdStep(old(tidAllocator.State())) == IdAllocResult(tid, tidAllocator.State())
      ensures tid !in LiveIds(old(tidAllocator.State()))
      ensures LiveIds(tidAllocator.State()) == LiveIds(old(tidAllocator.State())) + {tid}
    {
      tid := tidAllocator.Alloc();
    }

    method DeallocTid(tid: nat) returns (ok: bool)
      requires Valid()
      modifies tidAllocator
      ensures Valid()
      ensures ok <==> tid in LiveIds(old(tidAllocator.State()))
      ensures ok ==> LiveIds(tidAllocator.State()) == LiveIds(old(tidAllocator.State())) - {tid}
      ensures !ok ==> tidAllocator.State() == old(tidAllocator.State())
    {
      ok := tidAllocator.Dealloc(tid);
    }
  }

  /** A scan that stops at the first empty slot finds what FirstFree names. */
  lemma {:induction false} FirstFreeIs<T>(t: seq<Option<T>>, i: nat)
    requires i < |t| && t[i].None? && forall j :: 0 <= j < i ==> t[j].Some?
    ensures FirstFree(t) == Some(i)
  {
    if i > 0 {
      FirstFreeIs(t[1..], i - 1);
    }
  }
}
