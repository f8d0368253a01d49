/** The older kernel's task control block (os/src/task/control_block.rs)
    and the operations of os/src/task/mod.rs on it. There a task is a whole
    process: it has a pid, a status that ends in Zombie, a parent and
    children, an exit code, a file descriptor table, a trap context, the
    size of its user image, and the signal state that
    os/src/task/mod.rs and os/src/task/signal.rs read and write. */
module OsTask {
  import opened Wrappers
  import opened TaskId
  import Process
  import opened Manager
  import opened Processor
  import opened Signals
  import opened Argv
  import TaskOps
  import MemorySet
  import FrameAllocator
  import FrameTracker

  /** `TaskStatus` of the older kernel. */
  datatype TaskStatus = Ready | Running | Zombie

  class Tcb {
    const pid: nat
    var status: TaskStatus
    var baseSize: nat
    var parent: Tcb?
    var children: seq<Tcb>
    var exitCode: int
    var fdTable: Process.FdTable
    var trapCx: Process.TrapContext
    var signals: SignalSet
    var signalMask: SignalSet
    var handlingSig: Option<nat>
    var actions: seq<SignalAction>
    var killed: bool
    var frozen: bool
    var trapCxBackup: Option<Process.TrapContext>

    /** The signal fields as one value. */
    function SigView(): SigState
      reads this
    {
      SigState(signals, signalMask, handlingSig, actions, killed, frozen, trapCx, trapCxBackup)
    }

    ghost predicate Valid()
      reads this
    {
      SigValid(SigView())
    }

    /** `TaskControlBlock::new`: a Ready task with no parent, no children,
        exit code 0, the three standard descriptors, its user image ending at
        the initial stack pointer, and a trap context that starts at the
        entry point with that stack pointer; no signal is pending, masked or
        being handled, and every action is the default one. */
    constructor (pid: nat, entry: nat, userSp: nat)
      ensures Valid()
      ensures this.pid == pid && status == Ready && parent == null && children == [] && exitCode == 0
      ensures fdTable == Process.InitialFdTable() && baseSize == userSp && trapCx == AppInitContext(entry, userSp)
      ensures signals == {} && signalMask == {} && handlingSig == None && actions == DefaultActions()
      ensures !killed && !frozen && trapCxBackup == None
    {
      this.pid := pid;
      status := Ready;
      baseSize := userSp;
      parent := null;
      children := [];
      exitCode := 0;
      fdTable := Process.InitialFdTable();
      trapCx := AppInitContext(entry, userSp);
      signals := {};
      signalMask := {};
      handlingSig := None;
      actions := DefaultActions();
      killed := false;
      frozen := false;
      trapCxBackup := None;
    }

    /** `is_zombie`, `is_ready`, `is_running`. */
    predicate IsZombie()
      reads this
    {
      status == Zombie
    }

    predicate IsReady()
      reads this
    {
      status == Ready
    }

    predicate IsRunning()
      reads this
    {
      status == Running
    }

    /** `alloc_fd`: the lowest empty slot, or one empty slot pushed at the
        end. */
    method AllocFd() returns (fd: nat)
      modifies this`fdTable
      ensures (fdTable, fd) == Process.AllocFdStep(old(fdTable))
      ensures fd < |fdTable| && fdTable[fd].None?
    {
      Process.AllocFdLowest(fdTable);
      var i := 0;
      while i < |fdTable| && fdTable[i].Some?
        invariant 0 <= i <= |fdTable|
        invariant forall j :: 0 <= j < i ==> fdTable[j].Some?
      {
        i := i + 1;
      }
      if i < |fdTable| {
        Process.FirstFreeIs(fdTable, i);
        return i;
      }
      fdTable := fdTable + [None];
      fd := |fdTable| - 1;
    }

    /** `add_signal_to_current`: the given signals become pending as well. */
    method AddSignal(flags: SignalSet)
      modifies this`signals
      ensures signals == old(signals) + flags
    {
      signals := signals + flags;
    }

    /** `call_kernel_signal_handler` on this task. */
    method KernelSignalHandler(n: nat)
      requires Valid() && n <= MAX_SIG
      modifies this`frozen, this`signals, this`killed
      ensures Valid()
      ensures SigView() == KernelHandler(old(SigView()), n)
    {
      if n == SIGSTOP {
        frozen := true;
        signals := Toggle(signals, SIGSTOP);
      } else if n == SIGCONT {
        if SIGCONT in signals {
          signals := Toggle(signals, SIGCONT);
          frozen := false;
        }
      } else {
        killed := true;
      }
    }

    /** `call_user_signal_handler` on this task. */
    method UserSignalHandler(n: nat)
      requires Valid() && n <= MAX_SIG
      modifies this`handlingSig, this`signals, this`trapCxBackup, this`trapCx
      ensures Valid()
      ensures SigView() == UserHandler(old(SigView()), n)
    {
      var handler := actions[n].handler;
      if handler != 0 {
        handlingSig := Some(n);
        signals := Toggle(signals, n);
        trapCxBackup := Some(trapCx);
        trapCx := trapCx.(sepc := handler);
        trapCx := trapCx.(x := trapCx.x[10 := n]);
      }
    }

    /** `check_pending_signals`: scan the signals 0..=MAX_SIG; a deliverable
        kernel signal is handled in place and the scan goes on, a
        deliverable user signal is handed to its handler and the scan
        stops. */
    method CheckPendingSignals()
      requires Valid()
      modifies this
      ensures Valid()
      ensures SigView() == CheckFrom(old(SigView()), 0)
      ensures status == old(status) && children == old(children) && fdTable == old(fdTable)
    {
      var sig: nat := 0;
      while sig <= MAX_SIG
        invariant sig <= MAX_SIG + 1
        invariant Valid()
        invariant CheckFrom(SigView(), sig) == CheckFrom(old(SigView()), 0)
        invariant status == old(status) && children == old(children) && fdTable == old(fdTable)
        decreases MAX_SIG + 1 - sig
      {
        var masked := handlingSig.Some? && sig in actions[handlingSig.value].mask;
        if sig in signals && sig !in signalMask && !masked {
          if sig == SIGILL || sig == SIGSTOP || sig == SIGCONT || sig == SIGDEF {
            KernelSignalHandler(sig);
          } else {
            UserSignalHandler(sig);
            return;
          }
        }
        sig := sig + 1;
      }
    }

    /** `handle_signals`: check the pending signals, and while the task is
        frozen and not killed, yield and check again. What other tasks send
        while it is suspended is `arrivals`, one signal set per yield; the
        result says whether the loop ended, which it does exactly when the
        task ends up not frozen or killed. */
    method HandleSignals(arrivals: seq<SignalSet>) returns (done: bool)
      requires Valid()
      modifies this
      ensures Valid()
      ensures (SigView(), done) == HandleFrom(old(SigView()), arrivals)
      ensures done <==> !frozen || killed
    {
      var k := 0;
      while true
        invariant 0 <= k <= |arrivals| && Valid()
        invariant HandleFrom(SigView(), arrivals[k..]) == HandleFrom(old(SigView()), arrivals)
        decreases |arrivals| - k
      {
        CheckPendingSignals();
        if !frozen || killed {
          return true;
        }
        if k == |arrivals| {
          return false;
        }
        assert arrivals[k..][1..] == arrivals[k + 1..];
        signals := signals + arrivals[k];
        k := k + 1;
      }
    }

    /** `fork`: the caller's address space is cloned first
        (`from_existed_user`, MemorySet.Clone), then the child is made: a
        Ready task with a fresh pid, the caller as parent, no children, exit
        code 0, the cloned space, and copies of the caller's image size,
        descriptor table and trap context; it is appended to the caller's
        children. None stands for a panic in the clone (no frame left). */
    method Fork(space: MemorySet.MemorySet, trampoline: nat, strampoline: nat,
                alloc: FrameAllocator.StackFrameAllocator, phys: FrameTracker.PhysMemory, pids: RecycleAllocator)
      returns (r: Option<(Tcb, MemorySet.MemorySet)>)
      requires Valid() && pids.Valid() && space.Valid(alloc, phys)
      modifies this`children, pids, alloc, phys
      ensures pids.Valid()
      ensures forall q :: q in FrameAllocator.Live(old(alloc.State())) ==>
        q in FrameAllocator.Live(alloc.State()) && FrameTracker.Content(phys.frames, q) == FrameTracker.Content(old(phys.frames), q)
      ensures r.None? ==> pids.State() == old(pids.State()) && children == old(children)
      ensures r.Some? ==> var (child, childSpace) := r.value;
        fresh(child) && child.Valid() &&
        child.pid !in LiveIds(old(pids.State())) && LiveIds(pids.State()) == LiveIds(old(pids.State())) + {child.pid} &&
        child.status == Ready && child.parent == this && child.children == [] && child.exitCode == 0 &&
        child.baseSize == baseSize && child.fdTable == fdTable && child.trapCx == trapCx &&
        children == old(children) + [child]
      ensures r.Some? ==> var childSpace := r.value.1;
        fresh(childSpace) && childSpace.Valid(alloc, phys) && space.Valid(alloc, phys) && childSpace.areas == space.areas &&
        MemorySet.PagesCopied(space.areas, space.pageTable.data_frames, old(phys.frames),
          FrameAllocator.Live(old(alloc.State())), childSpace.pageTable.data_frames, phys.frames)
    {
      var cloned := space.Clone(trampoline, strampoline, alloc, phys);
      if cloned.None? {
        return None;
      }
      var child := NewChild(pids);
      r := Some((child, cloned.value));
    }

    /** The task record of a fork: a fresh pid and the caller's image size,
        descriptor table and trap context. */
    method NewChild(pids: RecycleAllocator) returns (child: Tcb)
      requires Valid() && pids.Valid()
      modifies this`children, pids
      ensures pids.Valid() && fresh(child) && child.Valid()
      ensures child.pid !in LiveIds(old(pids.State())) && LiveIds(pids.State()) == LiveIds(old(pids.State())) + {child.pid}
      ensures child.status == Ready && child.parent == this && child.children == [] && child.exitCode == 0
      ensures child.baseSize == baseSize && child.fdTable == fdTable && child.trapCx == trapCx
      ensures children == old(children) + [child]
    {
      var pid := pids.Alloc();
      child := new Tcb(pid, trapCx.sepc, baseSize);
      child.trapCx := trapCx;
      child.fdTable := fdTable;
      child.parent := this;
      children := children + [child];
    }

    /** `exec`: push the arguments below the new image's stack pointer
        (see PushArgs), make the final stack pointer the image size, and
        start at the entry point with a0 = argc and a1 = argv_base. */
    method Exec(mem: UserStack, entry: nat, userSp: nat, args: seq<seq<bv8>>) returns (argvBase: nat)
      requires (|args| + 1) * WORD + StringsSize(args, |args|) <= userSp
      requires Valid()
      modifies this`baseSize, this`trapCx, mem
      ensures Valid()
      ensures argvBase + (|args| + 1) * WORD == userSp
      ensures baseSize + StringsSize(args, |args|) == argvBase
      ensures trapCx == ExecContext(entry, baseSize, |args|, argvBase)
      ensures mem.words == old(mem.words) + ArgvWords(argvBase, args, |args|)
      ensures forall i :: 0 <= i < |args| ==> CStringAt(mem.bytes, StrAddr(argvBase, args, i), args[i])
    {
      var sp;
      sp, argvBase := PushArgs(mem, userSp, args);
      baseSize := sp;
      trapCx := ExecContext(entry, sp, |args|, argvBase);
    }
  }

  /** A task is in exactly one of the three states. */
  lemma StatusExactlyOne(t: Tcb)
    ensures t.IsZombie() || t.IsReady() || t.IsRunning()
    ensures !(t.IsZombie() && t.IsReady()) && !(t.IsZombie() && t.IsRunning()) && !(t.IsReady() && t.IsRunning())
  {
  }

  /** `suspend_current_and_run_next`: the running task becomes Ready and
      goes to the tail of the ready queue; false stands for the panic when
      nothing is running. */
  method Suspend(p: Processor<Tcb>, m: Manager<Tcb>) returns (ok: bool)
    modifies p, m, if p.current.Some? then {p.current.value} else {}
    ensures ok <==> old(p.current).Some?
    ensures p.current == None
    ensures !ok ==> m.readyQueue == old(m.readyQueue)
    ensures ok ==> old(p.current).value.status == Ready
    ensures ok ==> m.readyQueue == old(m.readyQueue) + [old(p.current).value]
  {
    var task := p.TakeCurrent();
    if task.None? {
      return false;
    }
    task.value.status := Ready;
    m.Add(task.value);
    ok := true;
  }

  /** One round of the older `run_tasks`: the head of the ready queue, if
      any, becomes Running and current. */
  method RunTasksStep(p: Processor<Tcb>, m: Manager<Tcb>) returns (switched: bool)
    modifies p, m, if m.readyQueue != [] then {m.readyQueue[0]} else {}
    ensures switched <==> old(m.readyQueue) != []
    ensures !switched ==> m.readyQueue == old(m.readyQueue) && p.current == old(p.current)
    ensures switched ==>
      var task := old(m.readyQueue)[0];
      m.readyQueue == old(m.readyQueue)[1..] && p.current == Some(task) && task.status == Running
  {
    var task := m.Fetch();
    if task.None? {
      return false;
    }
    task.value.status := Running;
    p.current := task;
    switched := true;
  }

  /** The children move under the init process, in order. */
  method ReparentToInit(children: seq<Tcb>, initproc: Tcb)
    modifies children`parent, initproc`children
    ensures forall c :: c in children ==> c.parent == initproc
    ensures initproc.children == old(initproc.children) + children
  {
    var i := 0;
    while i < |children|
      invariant 0 <= i <= |children|
      invariant forall j :: 0 <= j < i ==> children[j].parent == initproc
      invariant initproc.children == old(initproc.children) + children[..i]
    {
      children[i].parent := initproc;
      initproc.children := initproc.children + [children[i]];
      assert children[..i + 1] == children[..i] + [children[i]];
      i := i + 1;
    }
    assert children[..i] == children;
  }

  /** `exit_current_and_run_next` of the older kernel. The idle task
      (IDLE_PID, which is INITPROC) shuts the machine down, reporting a
      failure for a non-zero exit code. Any other task leaves the pid table
      (a panic when it is missing), becomes a zombie with the exit code,
      and hands its children to INITPROC. */
  method Exit(p: Processor<Tcb>, table: Pid2Process<Tcb>, initproc: Tcb, code: int) returns (outcome: TaskOps.ExitOutcome)
    requires initproc.pid == TaskOps.IDLE_PID
    modifies p, table, initproc`children
    modifies if p.current.Some? then {p.current.value} else {}
    modifies if p.current.Some? then p.current.value.children else []
    ensures p.current == None
    ensures old(p.current).None? ==> outcome == TaskOps.Panicked
    ensures old(p.current).Some? && old(p.current).value.pid == TaskOps.IDLE_PID ==>
      outcome == TaskOps.Shutdown(code != 0) && table.table == old(table.table)
    ensures old(p.current).Some? && old(p.current).value.pid != TaskOps.IDLE_PID && old(p.current).value.pid !in old(table.table) ==>
      outcome == TaskOps.Panicked
    ensures (old(p.current).Some? && old(p.current).value.pid != TaskOps.IDLE_PID && old(p.current).value.pid in old(table.table)) ==>
      var task := old(p.current).value;
      outcome == TaskOps.Rescheduled && table.table == old(table.table) - {task.pid} &&
      task.status == Zombie && task.exitCode == code && task.children == [] &&
      initproc.children == old(initproc.children) + old(task.children) &&
      (forall c :: c in old(task.children) ==> c.parent == initproc)
  {
    var current := p.TakeCurrent();
    if current.None? {
      return TaskOps.Panicked;
    }
    var task := current.value;
    if task.pid == TaskOps.IDLE_PID {
      return TaskOps.Shutdown(code != 0);
    }
    var removed := table.Remove(task.pid);
    if !removed {
      return TaskOps.Panicked;
    }
    task.status := Zombie;
    task.exitCode := code;
    ReparentToInit(task.children, initproc);
    task.children := [];
    outcome := TaskOps.Rescheduled;
  }
}
