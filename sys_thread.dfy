/** Thread system calls of the current kernel
    (kernel/src/syscall/thread.rs; os/src/syscall/thread.rs has the same
    code): creating a thread in the caller's process and waiting for one.
    A process's thread table is `tasks`, indexed by tid, with null for an
    empty slot. */
module ThreadCalls {
  import opened Wrappers
  import opened TaskId
  import opened Process
  import opened Manager
  import opened Argv

  /** `Vec::resize_with(n, f)`: cut the vector down to n entries, or pad it
      with `fill` up to n entries. */
  function ResizeWith<T>(s: seq<T>, n: nat, fill: T): (r: seq<T>)
    ensures |r| == n
    ensures forall i :: 0 <= i < n && i < |s| ==> r[i] == s[i]
    ensures forall i :: |s| <= i < n ==> r[i] == fill
  {
    if n <= |s| then s[..n] else s + seq(n - |s|, _ => fill)
  }

  /** How `sys_thread_create` stores a new thread at index tid:
      `resize_with(tid + 1, || None)` and then the slot assignment. */
  function PlaceAsWritten<T>(tasks: seq<T>, tid: nat, t: T, fill: T): (r: seq<T>)
  {
    ResizeWith(tasks, tid + 1, fill)[tid := t]
  }

  /** A recycled tid below the highest one in use shrinks the table: every
      thread stored above the new one drops out of it. */
  lemma PlaceAsWrittenDropsThreads<T>(tasks: seq<T>, tid: nat, t: T, fill: T)
    requires tid + 1 < |tasks|
    ensures |PlaceAsWritten(tasks, tid, t, fill)| == tid + 1 < |tasks|
    ensures tasks[|tasks| - 1] != fill ==> PlaceAsWritten(tasks, tid, t, fill) != tasks[tid := t]
  {
  }

  /** The concrete case: threads 0, 1 and 2 exist, thread 1 has been joined
      (its slot emptied and its tid recycled), and creating a thread reuses
      tid 1; thread 2 is then gone from the table although it still runs. */
  lemma PlaceAsWrittenLosesThreadTwo()
    ensures PlaceAsWritten([Some(0), None, Some(2)], 1, Some(1), None) == [Some(0), Some(1)]
  {
  }

  /** Storing at index tid as evidently intended: grow the table only when
      it is too short. */
  function Place<T>(tasks: seq<T>, tid: nat, t: T, fill: T): (r: seq<T>)
  {
    (if tid < |tasks| then tasks else ResizeWith(tasks, tid + 1, fill))[tid := t]
  }

  /** Place puts the thread at tid, keeps every other slot, and adds only
      empty slots. */
  lemma PlaceKeepsThreads<T>(tasks: seq<T>, tid: nat, t: T, fill: T)
    ensures var r := Place(tasks, tid, t, fill);
      |r| == if tid < |tasks| then |tasks| else tid + 1
    ensures var r := Place(tasks, tid, t, fill);
      r[tid] == t &&
      (forall i :: 0 <= i < |tasks| && i != tid ==> r[i] == tasks[i]) &&
      (forall i :: |tasks| <= i < |r| && i != tid ==> r[i] == fill)
  {
  }

  /** Both agree whenever the tid is the highest in use or a new one, which
      is all a bump allocator ever hands out. */
  lemma PlaceAgreesAtTheTop<T>(tasks: seq<T>, tid: nat, t: T, fill: T)
    requires tid + 1 >= |tasks|
    ensures PlaceAsWritten(tasks, tid, t, fill) == Place(tasks, tid, t, fill)
  {
  }

  /** `sys_thread_create`: a new Ready thread with a fresh tid from the
      process's allocator is queued, stored in the thread table at its tid,
      and set to start at `entry` on its own user stack (the bottom of the
      stack for its tid plus the stack size) with a0 = arg; the tid is
      returned. `ustackBase` is the process's user stack base, which the
      calling thread's resources carry. None stands for the `unwrap` on a
      calling thread without resources. */
  method ThreadCreate(current: Task, m: Manager<Task>, entry: nat, arg: nat, ustackBase: nat, userStackSize: nat)
    returns (r: Option<nat>, ghost task: Task?)
    requires current.process.Valid()
    modifies current.process.tidAllocator, current.process`tasks, m
    ensures current.process.Valid()
    ensures r.None? <==> old(current.res).None?
    ensures r.None? ==> current.process.tasks == old(current.process.tasks) && m.readyQueue == old(m.readyQueue)
    ensures r.Some? ==> (task != null && fresh(task) &&
      var tid := r.value;
      var process := current.process;
      tid !in LiveIds(old(process.tidAllocator.State())) &&
      LiveIds(process.tidAllocator.State()) == LiveIds(old(process.tidAllocator.State())) + {tid} &&
      task.process == process && task.status == Ready && task.res == Some(tid) && task.exitCode == None &&
      m.readyQueue == old(m.readyQueue) + [task] &&
      process.tasks == Place(old(process.tasks), tid, task, null) &&
      task.trapCx == AppInitContext(entry, UstackBottom(ustackBase, userStackSize, tid) + userStackSize).(
        x := AppInitContext(entry, UstackBottom(ustackBase, userStackSize, tid) + userStackSize).x[10 := arg]))
  {
    if current.res.None? {
      return None, null;
    }
    var process := current.process;
    var tid := process.AllocTid();
    var t := new Task(process, tid);
    m.Add(t);
    process.tasks := Place(process.tasks, tid, t, null);
    var cx := AppInitContext(entry, UstackBottom(ustackBase, userStackSize, tid) + userStackSize);
    t.trapCx := cx.(x := cx.x[10 := arg]);
    r, task := Some(tid), t;
  }

  /** `sys_waittid` as written: `tasks[tid]` is indexed without a bounds
      check, so a tid at or past the end of the table panics (None) where
      the call is documented to return -1. */
  method WaittidAsWritten(process: Proc, callerTid: nat, tid: nat) returns (r: Option<int>)
    modifies process`tasks
    ensures callerTid != tid && tid >= |old(process.tasks)| <==> r.None?
    ensures r.None? ==> process.tasks == old(process.tasks)
    ensures r.Some? ==> (r.value, process.tasks) == WaittidEffect(old(process.tasks), callerTid, tid)
  {
    if callerTid == tid {
      return Some(-1);
    }
    if tid >= |process.tasks| {
      return None;
    }
    var waited := process.tasks[tid];
    if waited == null {
      return Some(-1);
    }
    if waited.exitCode.Some? {
      process.tasks := process.tasks[tid := null];
      return Some(waited.exitCode.value);
    }
    r := Some(-2);
  }

  /** What waiting for tid returns and leaves of the thread table, as
      documented: -1 for the caller itself or a thread that does not
      exist; the exit code of an exited thread, whose slot is emptied; -2
      for a thread still running. */
  function WaittidEffect(tasks: seq<Task?>, callerTid: nat, tid: nat): (int, seq<Task?>)
    reads set t | t in tasks && t != null
  {
    if callerTid == tid || tid >= |tasks| || tasks[tid] == null then (-1, tasks)
    else match tasks[tid].exitCode
      case Some(code) => (code, tasks[tid := null])
      case None => (-2, tasks)
  }

  /** `sys_waittid` with the bounds check: a tid past the end of the table
      is a thread that does not exist. */
  method Waittid(process: Proc, callerTid: nat, tid: nat) returns (r: int)
    modifies process`tasks
    ensures (r, process.tasks) == WaittidEffect(old(process.tasks), callerTid, tid)
    ensures callerTid == tid || tid >= |old(process.tasks)| || old(process.tasks)[tid] == null ==>
      r == -1 && process.tasks == old(process.tasks)
    ensures callerTid != tid && tid < |old(process.tasks)| && old(process.tasks)[tid] != null ==>
      (match old(process.tasks)[tid].exitCode
       case Some(code) => r == code && process.tasks == old(process.tasks)[tid := null]
       case None => r == -2 && process.tasks == old(process.tasks))
  {
    if callerTid == tid || tid >= |process.tasks| {
      return -1;
    }
    var waited := process.tasks[tid];
    if waited == null {
      return -1;
    }
    if waited.exitCode.Some? {
      process.tasks := process.tasks[tid := null];
      return waited.exitCode.value;
    }
    r := -2;
  }

  /** `sys_gettid`: the caller's tid, held in its user resources; a thread
      whose resources were already released panics on the `unwrap`. */
  method Gettid(current: Task) returns (r: Outcome<nat>)
    ensures r.Panics? <==> current.res.None?
    ensures current.res.Some? ==> r == Returns(current.res.value)
  {
    if current.res == None {
      return Panics;
    }
    r := Returns(current.res.value);
  }

  /** Joining is final: once an exited thread has been joined, waiting for
      it again returns -1. */
  method JoinTwice(process: Proc, callerTid: nat, tid: nat) returns (first: int, second: int)
    requires callerTid != tid && tid < |process.tasks| && process.tasks[tid] != null
    requires process.tasks[tid].exitCode.Some?
    modifies process`tasks
    ensures first == old(process.tasks[tid]).exitCode.value && second == -1
  {
    first := Waittid(process, callerTid, tid);
    second := Waittid(process, callerTid, tid);
  }
}
