/** Thread and process life cycle of the current kernel
    (kernel/src/task/mod.rs and kernel/src/task/pcb.rs): suspending,
    blocking and exiting the running thread, creating the first process of a
    program and forking a process. Fork clones the parent's address space
    with MemorySet.Clone; the spaces the other operations build or tear
    down are modelled in MemorySet and ElfLoader, apart from the process
    record here. The calls to `schedule` (the context switch) are where each
    operation here ends. */
module TaskOps {
  import opened Wrappers
  import opened TaskId
  import opened Process
  import opened Manager
  import opened Processor
  import opened Argv
  import MemorySet
  import FrameAllocator
  import FrameTracker

  /** `IDLE_PID`: the pid of the first process, which is also the daemon
      that adopts orphans. */
  const IDLE_PID: nat := 0

  /** How `exit_current_and_run_next` ends: it schedules another thread,
      shuts the machine down (reporting a failure for a non-zero exit code),
      or panics on an `unwrap`/`assert!` that fails. */
  datatype ExitOutcome = Rescheduled | Shutdown(failure: bool) | Panicked

  /** `suspend_current_and_run_next`: the running thread becomes Ready and
      goes to the tail of the ready queue; false stands for the panic when no
      thread is running. */
  method SuspendCurrent(p: Processor<Task>, m: Manager<Task>) returns (ok: bool)
    modifies p, m, if p.current.Some? then {p.current.value} else {}
    ensures ok <==> old(p.current).Some?
    ensures p.current == None
    ensures !ok ==> m.readyQueue == old(m.readyQueue)
    ensures ok ==> old(p.current).value.status == Ready
    ensures ok ==> m.readyQueue == old(m.readyQueue) + [old(p.current).value]
  {
    var task := p.TakeCurrent();
    if task.None? {
      return false;
    }
    task.value.status := Ready;
    m.Add(task.value);
    ok := true;
  }

  /** `block_current`: the running thread becomes Blocked and leaves the
      processor without being queued; whoever wakes it up queues it again.
      None stands for the panic when no thread is running. */
  method BlockCurrent(p: Processor<Task>) returns (blocked: Option<Task>)
    modifies p, if p.current.Some? then {p.current.value} else {}
    ensures blocked == old(p.current)
    ensures p.current == None
    ensures blocked.Some? ==> blocked.value.status == Blocked
  {
    blocked := p.TakeCurrent();
    if blocked.Some? {
      blocked.value.status := Blocked;
    }
  }

  /** The children move under the daemon, in order: each one's parent
      becomes the daemon and it is appended to the daemon's children. */
  method ReparentChildren(children: seq<Proc>, daemon: Proc)
    modifies children`parent, daemon`children
    ensures forall c :: c in children ==> c.parent == daemon
    ensures daemon.children == old(daemon.children) + children
  {
    var i := 0;
    while i < |children|
      invariant 0 <= i <= |children|
      invariant forall j :: 0 <= j < i ==> children[j].parent == daemon
      invariant daemon.children == old(daemon.children) + children[..i]
    {
      children[i].parent := daemon;
      daemon.children := daemon.children + [children[i]];
      assert children[..i + 1] == children[..i] + [children[i]];
      i := i + 1;
    }
    assert children[..i] == children;
  }

  /** The user resources of every thread of the process are taken away. */
  method ReleaseUserRes(tasks: seq<Task?>)
    modifies tasks`res
    ensures forall t :: t in tasks && t != null ==> t.res == None
  {
    var i := 0;
    while i < |tasks|
      invariant 0 <= i <= |tasks|
      invariant forall j :: 0 <= j < i && tasks[j] != null ==> tasks[j].res == None
    {
      if tasks[i] != null {
        tasks[i].res := None;
      }
      i := i + 1;
    }
  }

  /** `Vec::truncate(1)`. */
  function KeepFirst<T>(s: seq<T>): (r: seq<T>)
    ensures |r| == if |s| == 0 then 0 else 1
    ensures |s| > 0 ==> r[0] == s[0]
  {
    if |s| > 1 then s[..1] else s
  }

  /** `exit_current_and_run_next`. The thread records its exit code and loses
      its tid. If it was the main thread (tid 0), the whole process ends: the
      idle process shuts the machine down; any other process leaves the pid
      table, becomes a zombie with the exit code, hands its children to the
      daemon, strips every thread of its user resources, and drops its
      children, its file descriptors and every thread but the main one. The
      daemon is the first process created, so its pid is IDLE_PID. */
  method ExitCurrent(p: Processor<Task>, table: Pid2Process<Proc>, daemon: Proc, code: int) returns (outcome: ExitOutcome)
    requires daemon.pid == IDLE_PID
    modifies p, table, daemon`children
    modifies if p.current.Some? then {p.current.value, p.current.value.process} else {}
    modifies if p.current.Some? then p.current.value.process.children else []
    modifies if p.current.Some? then p.current.value.process.tasks else []
    ensures old(p.current).None? ==> outcome == Panicked
    ensures old(p.current).Some? && old(p.current.value.res).None? ==> outcome == Panicked
    ensures old(p.current).Some? && old(p.current.value.res).Some? ==>
      old(p.current).value.exitCode == Some(code)
    ensures old(p.current).Some? && old(p.current.value.res).Some? ==> p.current == None
    // another thread than the main one: nothing else happens
    ensures old(p.current).Some? && old(p.current.value.res).Some? && old(p.current.value.res).value != 0 ==>
      outcome == Rescheduled && table.table == old(table.table) && daemon.children == old(daemon.children)
    ensures old(p.current).Some? && old(p.current.value.res).Some? && old(p.current.value.res).value != 0 ==>
      old(p.current).value.res == None && old(p.current).value.process.isZombie == old(p.current.value.process.isZombie)
    // the main thread of the idle process
    ensures old(p.current).Some? && old(p.current.value.res) == Some(0) && old(p.current).value.process.pid == IDLE_PID ==>
      outcome == Shutdown(code != 0)
    // the main thread of a process missing from the pid table
    ensures (old(p.current).Some? && old(p.current.value.res) == Some(0) && old(p.current).value.process.pid != IDLE_PID &&
      old(p.current).value.process.pid !in old(table.table)) ==> outcome == Panicked
    // the main thread of any other process
    ensures (old(p.current).Some? && old(p.current.value.res) == Some(0) && old(p.current).value.process.pid != IDLE_PID &&
      old(p.current).value.process.pid in old(table.table)) ==>
      var proc := old(p.current).value.process;
      outcome == Rescheduled && table.table == old(table.table) - {proc.pid} &&
      proc.isZombie && proc.exitCode == code && proc.children == [] && proc.fdTable == [] &&
      proc.tasks == KeepFirst(old(proc.tasks))
    ensures (old(p.current).Some? && old(p.current.value.res) == Some(0) && old(p.current).value.process.pid != IDLE_PID &&
      old(p.current).value.process.pid in old(table.table)) ==>
      var proc := old(p.current).value.process;
      daemon.children == old(daemon.children) + old(proc.children) &&
      (forall c :: c in old(proc.children) ==> c.parent == daemon) &&
      (forall t :: t in old(proc.tasks) && t != null ==> t.res == None)
  {
    var current := p.TakeCurrent();
    if current.None? || current.value.res.None? {
      return Panicked;
    }
    var task := current.value;
    var process := task.process;
    var tid := task.res.value;
    task.exitCode := Some(code);
    task.res := None;
    if tid != 0 {
      return Rescheduled;
    }
    if process.pid == IDLE_PID {
      return Shutdown(code != 0);
    }
    var removed := table.Remove(process.pid);
    if !removed {
      return Panicked;
    }
    TearDown(process, daemon, code);
    outcome := Rescheduled;
  }

  /** What the exit of a main thread does to its process once it has left
      the pid table. */
  method TearDown(process: Proc, daemon: Proc, code: int)
    requires process != daemon
    modifies process, daemon`children, process.children`parent, process.tasks`res
    ensures process.isZombie && process.exitCode == code && process.children == [] && process.fdTable == []
    ensures process.tasks == KeepFirst(old(process.tasks))
    ensures daemon.children == old(daemon.children) + old(process.children)
    ensures forall c :: c in old(process.children) ==> c.parent == daemon
    ensures forall t :: t in old(process.tasks) && t != null ==> t.res == None
  {
    process.isZombie := true;
    process.exitCode := code;
    ReparentChildren(process.children, daemon);
    ReleaseUserRes(process.tasks);
    process.children := [];
    process.fdTable := [];
    process.tasks := KeepFirst(process.tasks);
  }

  /** `ProcessControlBlock::new`: a fresh pid, working directory "/", the
      three standard descriptors, and one main thread (tid 0 from the new
      process's own allocator) that is registered in the pid table and
      queued. */
  method NewProcess(pids: RecycleAllocator, table: Pid2Process<Proc>, m: Manager<Task>) returns (process: Proc, task: Task)
    requires pids.Valid()
    modifies pids, table, m
    ensures pids.Valid() && fresh(process) && fresh(task)
    ensures process.pid !in LiveIds(old(pids.State())) && LiveIds(pids.State()) == LiveIds(old(pids.State())) + {process.pid}
    ensures process.parent == null && process.children == [] && !process.isZombie && process.exitCode == 0
    ensures process.cwd == "/" && process.fdTable == InitialFdTable()
    ensures process.tasks == [task] && task.process == process && task.status == Ready && task.res == Some(0)
    ensures LiveIds(process.tidAllocator.State()) == {0}
    ensures table.table == old(table.table)[process.pid := process]
    ensures m.readyQueue == old(m.readyQueue) + [task]
  {
    var pid := pids.Alloc();
    process := new Proc(pid, null, "/", InitialFdTable());
    var tid := process.AllocTid();
    AllocIdChoice(IdState(0, []));
    task := new Task(process, tid);
    process.tasks := process.tasks + [task];
    table.Insert(pid, process);
    m.Add(task);
  }

  /** How `ProcessControlBlock::fork` ends: the failing `assert_eq!` on a
      multi-threaded parent, a panic while cloning the address space (no
      frame left), or the child process, its main thread and its address
      space. */
  datatype ForkResult = MultiThreaded | CloneFailed | Forked(child: Proc, task: Task, space: MemorySet.MemorySet)

  /** `ProcessControlBlock::fork`: only a single-threaded process may fork.
      The parent's address space is cloned first (MemorySet.Clone), before
      any pid is taken. The child gets a fresh pid, the parent as its
      parent, copies of the working directory and of the descriptor table,
      the cloned space, and one main thread of its own that is registered
      and queued; it is appended to the parent's children. */
  method Fork(parent: Proc, space: MemorySet.MemorySet, trampoline: nat, strampoline: nat,
              alloc: FrameAllocator.StackFrameAllocator, phys: FrameTracker.PhysMemory,
              pids: RecycleAllocator, table: Pid2Process<Proc>, m: Manager<Task>) returns (r: ForkResult)
    requires pids.Valid() && space.Valid(alloc, phys)
    modifies parent`children, pids, table, m, alloc, phys
    ensures pids.Valid()
    ensures r.MultiThreaded? <==> |old(parent.tasks)| != 1
    ensures !r.Forked? ==> pids.State() == old(pids.State()) && table.table == old(table.table) && m.readyQueue == old(m.readyQueue)
    ensures !r.Forked? ==> parent.children == old(parent.children)
    ensures forall q :: q in FrameAllocator.Live(old(alloc.State())) ==>
      q in FrameAllocator.Live(alloc.State()) && FrameTracker.Content(phys.frames, q) == FrameTracker.Content(old(phys.frames), q)
    ensures r.Forked? ==>
      fresh(r.child) && fresh(r.task) &&
      r.child.pid !in LiveIds(old(pids.State())) && LiveIds(pids.State()) == LiveIds(old(pids.State())) + {r.child.pid} &&
      r.child.parent == parent && r.child.children == [] && !r.child.isZombie && r.child.exitCode == 0 &&
      r.child.cwd == parent.cwd && r.child.fdTable == parent.fdTable && r.child.signals == 0 &&
      r.child.tasks == [r.task] && r.task.process == r.child && r.task.status == Ready && r.task.res == Some(0)
    ensures r.Forked? ==>
      parent.children == old(parent.children) + [r.child] &&
      table.table == old(table.table)[r.child.pid := r.child] &&
      m.readyQueue == old(m.readyQueue) + [r.task]
    ensures r.Forked? ==>
      fresh(r.space) && r.space.Valid(alloc, phys) && space.Valid(alloc, phys) && r.space.areas == space.areas &&
      MemorySet.PagesCopied(space.areas, space.pageTable.data_frames, old(phys.frames),
        FrameAllocator.Live(old(alloc.State())), r.space.pageTable.data_frames, phys.frames)
  {
    if parent.ThreadCount() != 1 {
      return MultiThreaded;
    }
    var cloned := space.Clone(trampoline, strampoline, alloc, phys);
    if cloned.None? {
      return CloneFailed;
    }
    var child, task := NewChild(parent, pids, table, m);
    r := Forked(child, task, cloned.value);
  }

  /** The process record of a fork: a fresh pid, the parent as parent,
      copies of the working directory and the descriptor table, one main
      thread registered and queued, and the child appended to the parent's
      children. */
  method NewChild(parent: Proc, pids: RecycleAllocator, table: Pid2Process<Proc>, m: Manager<Task>)
    returns (child: Proc, task: Task)
    requires pids.Valid()
    modifies parent`children, pids, table, m
    ensures pids.Valid()
    ensures fresh(child) && fresh(task)
    ensures child.pid !in LiveIds(old(pids.State())) && LiveIds(pids.State()) == LiveIds(old(pids.State())) + {child.pid}
    ensures child.parent == parent && child.children == [] && !child.isZombie && child.exitCode == 0
    ensures child.cwd == parent.cwd && child.fdTable == parent.fdTable && child.signals == 0
    ensures child.tasks == [task] && task.process == child && task.status == Ready && task.res == Some(0)
    ensures parent.children == old(parent.children) + [child]
    ensures table.table == old(table.table)[child.pid := child] && m.readyQueue == old(m.readyQueue) + [task]
  {
    var pid := pids.Alloc();
    child := new Proc(pid, parent, parent.cwd, parent.fdTable);
    parent.children := parent.children + [child];
    var tid := child.AllocTid();
    AllocIdChoice(IdState(0, []));
    task := new Task(child, tid);
    child.tasks := child.tasks + [task];
    table.Insert(pid, child);
    m.Add(task);
  }

  /** `ProcessControlBlock::exec` on the user stack of the new image: only a
      single-threaded process whose main thread still holds its user
      resources may exec (None stands for the failing `assert_eq!` or
      `unwrap`). The main thread's stack top is its stack bottom for tid
      plus the stack size; the arguments are pushed below it (see
      PushArgs), and the thread restarts at the entry point with sp at the
      final stack pointer, a0 = argc and a1 = argv_base, which is returned. */
  method Exec(process: Proc, mem: UserStack, entry: nat, ustackBase: nat, userStackSize: nat, args: seq<seq<bv8>>)
    returns (r: Option<nat>)
    requires |process.tasks| == 1 && process.tasks[0] != null && process.tasks[0].res.Some? ==>
      (|args| + 1) * WORD + StringsSize(args, |args|) <=
        UstackBottom(ustackBase, userStackSize, process.tasks[0].res.value) + userStackSize
    modifies mem, if |process.tasks| == 1 && process.tasks[0] != null then {process.tasks[0]} else {}
    ensures r.None? <==> |process.tasks| != 1 || process.tasks[0] == null || process.tasks[0].res.None?
    ensures r.None? ==> mem.words == old(mem.words) && mem.bytes == old(mem.bytes)
    ensures r.Some? ==>
      var task := process.tasks[0];
      var top := UstackBottom(ustackBase, userStackSize, task.res.value) + userStackSize;
      var argvBase := r.value;
      argvBase + (|args| + 1) * WORD == top && StringsSize(args, |args|) <= argvBase &&
      task.trapCx == ExecContext(entry, argvBase - StringsSize(args, |args|), |args|, argvBase) &&
      task.res == old(task.res) && task.status == old(task.status) &&
      mem.words == old(mem.words) + ArgvWords(argvBase, args, |args|) &&
      (forall i :: 0 <= i < |args| ==> CStringAt(mem.bytes, StrAddr(argvBase, args, i), args[i]))
  {
    if process.ThreadCount() != 1 || process.tasks[0] == null || process.tasks[0].res.None? {
      return None;
    }
    var task := process.tasks[0];
    var top := UstackBottom(ustackBase, userStackSize, task.res.value) + userStackSize;
    var userSp, argvBase := PushArgs(mem, top, args);
    task.trapCx := ExecContext(entry, userSp, |args|, argvBase);
    r := Some(argvBase);
  }
}
