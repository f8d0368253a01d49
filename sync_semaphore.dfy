/** Semaphores and condition variables of the current kernel
    (kernel/src/sync/semaphore.rs and kernel/src/sync/condvar.rs). */
module Semaphore {
  import opened Wrappers
  import opened Process
  import opened Manager
  import opened Processor
  import opened TaskOps
  import opened Mutex

  /** `Semaphore`: a signed count and a FIFO queue of blocked threads. */
  class Semaphore {
    var count: int
    var waitQueue: seq<Task>

    /** A negative count is minus the number of waiters; with a
        non-negative count nobody waits. */
    ghost predicate Valid()
      reads this
    {
      (count < 0 ==> |waitQueue| == -count) && (count >= 0 ==> waitQueue == [])
    }

    /** `Semaphore::new(res_count)`. */
    constructor (resCount: nat)
      ensures Valid() && count == resCount && waitQueue == []
    {
      count := resCount;
      waitQueue := [];
    }

    /** `up`: one more resource; if the count is still not positive, the
        first waiter is woken. */
    method Up(m: Manager<Task>)
      requires Valid()
      modifies this, m, if waitQueue != [] then {waitQueue[0]} else {}
      ensures Valid()
      ensures count == old(count) + 1
      ensures old(count) < 0 ==>
        waitQueue == old(waitQueue)[1..] && old(waitQueue)[0].status == Ready &&
        m.readyQueue == old(m.readyQueue) + [old(waitQueue)[0]]
      ensures old(count) >= 0 ==> waitQueue == [] && m.readyQueue == old(m.readyQueue)
    {
      count := count + 1;
      if count <= 0 {
        if waitQueue != [] {
          var task := waitQueue[0];
          waitQueue := waitQueue[1..];
          Wakeup(m, task);
        }
      }
    }

    /** `down`: one resource less; if none was left, the running thread
        joins the tail of the queue and blocks. False stands for the panic
        when no thread is running, which happens after the count went down. */
    method Down(p: Processor<Task>) returns (ok: bool)
      requires Valid()
      modifies this, p, if p.current.Some? then {p.current.value} else {}
      ensures count == old(count) - 1
      ensures ok ==> Valid()
      ensures !ok <==> old(count) <= 0 && old(p.current).None?
      ensures old(count) > 0 ==> waitQueue == [] && p.current == old(p.current)
      ensures old(count) <= 0 && ok ==>
        waitQueue == old(waitQueue) + [old(p.current).value] &&
        p.current == None && old(p.current).value.status == Blocked
    {
      count := count - 1;
      ok := true;
      if count < 0 {
        var current := p.Current();
        if current.None? {
          return false;
        }
        waitQueue := waitQueue + [current.value];
        var blocked := BlockCurrent(p);
      }
    }
  }

  /** A semaphore created with one resource and taken twice blocks the
      second taker; giving it back wakes that one, and the count returns to
      where it was after the first take. */
  method BinarySemaphore(t1: Task, t2: Task) returns (ok1: bool, ok2: bool, woken: seq<Task>, count: int)
    requires t1 != t2
    modifies t1, t2
    ensures ok1 && ok2 && t2.status == Ready && woken == [t2] && count == 0
  {
    var s := new Semaphore(1);
    var p := new Processor<Task>();
    var m := new Manager<Task>();
    p.current := Some(t1);
    ok1 := s.Down(p);
    p.current := Some(t2);
    ok2 := s.Down(p);
    s.Up(m);
    woken := m.readyQueue;
    count := s.count;
  }

  /** `Condvar`: a FIFO queue of waiting threads. */
  class Condvar {
    var waitQueue: seq<Task>

    constructor ()
      ensures waitQueue == []
    {
      waitQueue := [];
    }

    /** `signal`: wake the first waiter, if any. */
    method Signal(m: Manager<Task>)
      modifies this, m, if waitQueue != [] then {waitQueue[0]} else {}
      ensures old(waitQueue) == [] ==> waitQueue == [] && m.readyQueue == old(m.readyQueue)
      ensures old(waitQueue) != [] ==>
        waitQueue == old(waitQueue)[1..] && old(waitQueue)[0].status == Ready &&
        m.readyQueue == old(m.readyQueue) + [old(waitQueue)[0]]
    {
      if waitQueue != [] {
        var task := waitQueue[0];
        waitQueue := waitQueue[1..];
        Wakeup(m, task);
      }
    }

    /** `wait` up to the point where the thread blocks: release the mutex
        (which may hand it to its first waiter), join the tail of the
        condvar's queue and block. When the thread is woken it calls the
        mutex's `lock` again (BlockingMutex.Lock). False stands for the
        panics: the mutex was not held, or no thread is running. */
    method Wait(mutex: BlockingMutex, p: Processor<Task>, m: Manager<Task>) returns (ok: bool)
      requires mutex.Valid()
      modifies this, mutex, m, p, if mutex.waitQueue != [] then {mutex.waitQueue[0]} else {}
      modifies if p.current.Some? then {p.current.value} else {}
      ensures mutex.Valid()
      ensures ok <==> old(mutex.locked) && old(p.current).Some?
      ensures !old(mutex.locked) ==> waitQueue == old(waitQueue) && mutex.waitQueue == old(mutex.waitQueue)
      ensures ok ==>
        waitQueue == old(waitQueue) + [old(p.current).value] && p.current == None &&
        old(p.current).value.status == Blocked &&
        mutex.waitQueue == (if old(mutex.waitQueue) == [] then [] else old(mutex.waitQueue)[1..]) &&
        (mutex.locked <==> old(mutex.waitQueue) != [])
    {
      var unlocked := mutex.Unlock(m);
      if !unlocked {
        return false;
      }
      var current := p.Current();
      if current.None? {
        return false;
      }
      waitQueue := waitQueue + [current.value];
      var blocked := BlockCurrent(p);
      ok := true;
    }

    /** `wait` with a spin mutex: the flag is cleared, then the thread joins
        the tail of the queue and blocks; it takes the flag again with
        SpinMutex.LockRound when it runs next. False stands for the panic
        when no thread is running. */
    method WaitSpin(mutex: SpinMutex, p: Processor<Task>) returns (ok: bool)
      modifies this, mutex, p, if p.current.Some? then {p.current.value} else {}
      ensures !mutex.locked
      ensures ok <==> old(p.current).Some?
      ensures !ok ==> waitQueue == old(waitQueue)
      ensures ok ==>
        waitQueue == old(waitQueue) + [old(p.current).value] && p.current == None &&
        old(p.current).value.status == Blocked
    {
      mutex.Unlock();
      var current := p.Current();
      if current.None? {
        return false;
      }
      waitQueue := waitQueue + [current.value];
      var blocked := BlockCurrent(p);
      ok := true;
    }
  }
}
