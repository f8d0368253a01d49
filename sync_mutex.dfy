/** Mutexes of the current kernel (kernel/src/sync/mutex.rs) and of the older
    one (os/src/sync/mutex.rs, the same code under the names MutexSpin and
    MutexBlocking). Blocking a thread is a status change plus leaving the
    processor; waking it is a status change plus joining the ready queue, so
    both mutexes are state machines over the running thread, the ready queue
    and their own fields. */
module Mutex {
  import opened Wrappers
  import opened Process
  import opened Manager
  import opened Processor
  import opened TaskOps

  /** How a call to `lock` leaves the calling thread: holding the mutex,
      waiting for it (suspended or blocked), or panicking because no thread
      is running (`current_tcb().unwrap()`). */
  datatype LockResult = Acquired | Waiting | NoCurrent

  /** `Spin`: a flag; a thread that finds it set yields and tries again. */
  class SpinMutex {
    var locked: bool

    constructor ()
      ensures !locked
    {
      locked := false;
    }

    /** One round of the `lock` loop: a free mutex is taken and the loop
        ends; a taken one makes the caller yield (it goes to the tail of the
        ready queue) and the loop starts again when it runs next. */
    method LockRound(p: Processor<Task>, m: Manager<Task>) returns (r: LockResult)
      modifies this, p, m, if p.current.Some? then {p.current.value} else {}
      ensures locked
      ensures r == Acquired <==> !old(locked)
      ensures r == Acquired ==> p.current == old(p.current) && m.readyQueue == old(m.readyQueue)
      ensures r == NoCurrent <==> old(locked) && old(p.current).None?
      ensures r == Waiting ==>
        p.current == None && old(p.current).value.status == Ready &&
        m.readyQueue == old(m.readyQueue) + [old(p.current).value]
    {
      if locked {
        var ok := SuspendCurrent(p, m);
        return if ok then Waiting else NoCurrent;
      }
      locked := true;
      r := Acquired;
    }

    /** `unlock`: clear the flag, whoever calls it. */
    method Unlock()
      modifies this
      ensures !locked
    {
      locked := false;
    }
  }

  /** `Blocking`: a flag and a FIFO queue of the threads waiting for it. */
  class BlockingMutex {
    var locked: bool
    var waitQueue: seq<Task>

    /** Nobody waits for a free mutex. */
    ghost predicate Valid()
      reads this
    {
      !locked ==> waitQueue == []
    }

    constructor ()
      ensures Valid() && !locked && waitQueue == []
    {
      locked := false;
      waitQueue := [];
    }

    /** `lock`: take a free mutex; otherwise join the tail of the wait queue
        and block. */
    method Lock(p: Processor<Task>) returns (r: LockResult)
      requires Valid()
      modifies this, p, if p.current.Some? then {p.current.value} else {}
      ensures Valid() && locked
      ensures !old(locked) ==> r == Acquired && waitQueue == [] && p.current == old(p.current)
      ensures old(locked) && old(p.current).None? ==> r == NoCurrent && waitQueue == old(waitQueue)
      ensures old(locked) && old(p.current).Some? ==>
        r == Waiting && waitQueue == old(waitQueue) + [old(p.current).value] &&
        p.current == None && old(p.current).value.status == Blocked
    {
      if locked {
        var current := p.Current();
        if current.None? {
          return NoCurrent;
        }
        waitQueue := waitQueue + [current.value];
        var blocked := BlockCurrent(p);
        r := Waiting;
      } else {
        locked := true;
        r := Acquired;
      }
    }

    /** `unlock`: false stands for the failing `assert!` on a free mutex.
        With waiters, the mutex passes straight to the first one, which is
        woken (Ready, at the tail of the ready queue) and stays locked; with
        none it becomes free. */
    method Unlock(m: Manager<Task>) returns (ok: bool)
      requires Valid()
      modifies this, m, if waitQueue != [] then {waitQueue[0]} else {}
      ensures Valid()
      ensures ok <==> old(locked)
      ensures !ok ==> locked == old(locked) && waitQueue == old(waitQueue) && m.readyQueue == old(m.readyQueue)
      ensures ok && old(waitQueue) != [] ==>
        locked && waitQueue == old(waitQueue)[1..] && old(waitQueue)[0].status == Ready &&
        m.readyQueue == old(m.readyQueue) + [old(waitQueue)[0]]
      ensures ok && old(waitQueue) == [] ==> !locked && waitQueue == [] && m.readyQueue == old(m.readyQueue)
    {
      if !locked {
        return false;
      }
      ok := true;
      if waitQueue != [] {
        var waking := waitQueue[0];
        waitQueue := waitQueue[1..];
        Wakeup(m, waking);
      } else {
        locked := false;
      }
    }
  }

  /** Hand-off is first come, first served: t1 takes the mutex, t2 and then
      t3 block on it; the first unlock wakes t2 and the second wakes t3,
      the mutex staying locked all along, and the third frees it. */
  method HandOffOrder(t1: Task, t2: Task, t3: Task)
    returns (r1: LockResult, r2: LockResult, r3: LockResult, queue: seq<Task>, lockedAfter: bool)
    modifies t1, t2, t3
    ensures r1 == Acquired && r2 == Waiting && r3 == Waiting
    ensures queue == [t2, t3] && !lockedAfter
    ensures t2.status == Ready && t3.status == Ready
  {
    var mutex := new BlockingMutex();
    var p := new Processor<Task>();
    var m := new Manager<Task>();
    p.current := Some(t1);
    r1 := mutex.Lock(p);
    p.current := Some(t2);
    r2 := mutex.Lock(p);
    p.current := Some(t3);
    r3 := mutex.Lock(p);
    var ok1 := mutex.Unlock(m);
    var ok2 := mutex.Unlock(m);
    var ok3 := mutex.Unlock(m);
    queue := m.readyQueue;
    lockedAfter := mutex.locked;
  }
}
