/** Synchronisation system calls of the current kernel
    (kernel/src/syscall/sync.rs; os/src/syscall/sync.rs has `sleep` and the
    mutex calls with the same logic). A process keeps its mutexes,
    semaphores and condition variables in three slot tables; an object's id
    is its slot index, a freed slot is empty, and creation reuses the
    lowest empty slot before growing the table. */
module SyncCalls {
  import opened Wrappers
  import opened Process
  import opened Manager
  import opened Processor
  import opened TaskOps
  import opened Mutex
  import opened Semaphore
  import opened Timer

  /** `Arc<dyn Mutex>`: one of the two mutex kinds. */
  datatype MutexObj = Spin(spin: SpinMutex) | Blocking(blocking: BlockingMutex)

  function MutexObject(mx: MutexObj): object
  {
    match mx
    case Spin(s) => s
    case Blocking(b) => b
  }

  /** Creation on a slot-table value: the lowest empty slot is filled, or
      the object is pushed at the end; the result is the slot index. */
  function InstallStep<T>(slots: seq<Option<T>>, x: T): (seq<Option<T>>, nat)
  {
    match FirstFree(slots)
    case Some(i) => (slots[i := Some(x)], i)
    case None => (slots + [Some(x)], |slots|)
  }

  /** The id handed out is the lowest empty slot (or the next index when
      none is empty), it now holds the new object, every other slot is
      kept, and the table grows only when it was full. */
  lemma InstallLowest<T>(slots: seq<Option<T>>, x: T)
    ensures var (s2, i) := InstallStep(slots, x);
      i < |s2| && s2[i] == Some(x) && (forall j :: 0 <= j < i && j < |slots| ==> slots[j].Some?) &&
      (i < |slots| ==> slots[i].None?) &&
      (forall j :: 0 <= j < |slots| && j != i ==> s2[j] == slots[j]) &&
      (i == |slots| <==> forall j :: 0 <= j < |slots| ==> slots[j].Some?) &&
      |s2| == if i == |slots| then |slots| + 1 else |slots|
  {
  }

  /** `iter().position(Option::is_none)` followed by the slot assignment or
      the push. */
  method Install<T>(slots: seq<Option<T>>, x: T) returns (s2: seq<Option<T>>, id: nat)
    ensures (s2, id) == InstallStep(slots, x)
  {
    var i := 0;
    while i < |slots| && slots[i].Some?
      invariant 0 <= i <= |slots|
      invariant forall j :: 0 <= j < i ==> slots[j].Some?
    {
      i := i + 1;
    }
    if i < |slots| {
      FirstFreeIs(slots, i);
      return slots[i := Some(x)], i;
    }
    s2 := slots + [Some(x)];
    id := |slots|;
  }

  /** `get(id)` matched against `Some(Some(x))`: ids past the end and empty
      slots name no object. */
  function Lookup<T>(slots: seq<Option<T>>, id: nat): (r: Option<T>)
    ensures r.Some? <==> id < |slots| && slots[id].Some?
    ensures r.Some? ==> slots[id] == Some(r.value)
  {
    if id < |slots| then slots[id] else None
  }

  /** The three tables of `ProcessControlBlockInner`. */
  class SyncTables {
    var mutexList: seq<Option<MutexObj>>
    var semaphoreList: seq<Option<Semaphore>>
    var condvarList: seq<Option<Condvar>>

    ghost function Blockings(): set<BlockingMutex>
      reads this
    {
      set x | x in mutexList && x.Some? && x.value.Blocking? :: x.value.blocking
    }

    ghost function Semaphores(): set<Semaphore>
      reads this
    {
      set x | x in semaphoreList && x.Some? :: x.value
    }

    /** Every blocking mutex and every semaphore in the tables keeps its own
        invariant. */
    ghost predicate Valid()
      reads this, Blockings(), Semaphores()
    {
      (forall b :: b in Blockings() ==> b.Valid()) && (forall s :: s in Semaphores() ==> s.Valid())
    }

    constructor ()
      ensures Valid() && mutexList == [] && semaphoreList == [] && condvarList == []
    {
      mutexList := [];
      semaphoreList := [];
      condvarList := [];
    }

    /** `sys_mutex_create`: a new unlocked mutex, blocking exactly when the
        flag says so, in the lowest empty slot. */
    method MutexCreate(blocking: bool) returns (id: nat, mx: MutexObj)
      requires Valid()
      modifies this`mutexList
      ensures Valid()
      ensures (mutexList, id) == InstallStep(old(mutexList), mx)
      ensures mx.Blocking? == blocking && fresh(MutexObject(mx))
      ensures mx.Spin? ==> !mx.spin.locked
      ensures mx.Blocking? ==> !mx.blocking.locked && mx.blocking.waitQueue == []
    {
      if blocking {
        var b := new BlockingMutex();
        mx := Blocking(b);
      } else {
        var s := new SpinMutex();
        mx := Spin(s);
      }
      InstallLowest(mutexList, mx);
      mutexList, id := Install(mutexList, mx);
    }

    /** `sys_mutex_lock`: `current_process()` unwraps the running thread,
        so with none the call panics (false) before anything else; -1 for
        an id that names no mutex; otherwise the mutex's `lock` runs (one
        round of the spin loop, or the blocking lock) and the call returns
        0 with the mutex locked. */
    method MutexLock(id: nat, p: Processor<Task>, m: Manager<Task>) returns (r: int, ok: bool)
      requires Valid()
      modifies p, m, if p.current.Some? then {p.current.value} else {}
      modifies if Lookup(mutexList, id).Some? then {MutexObject(Lookup(mutexList, id).value)} else {}
      ensures Valid()
      ensures ok <==> old(p.current).Some?
      ensures !ok || r == -1 ==> p.current == old(p.current) && m.readyQueue == old(m.readyQueue)
      ensures ok ==> (r == -1 <==> Lookup(mutexList, id).None?)
      ensures ok && r != -1 ==> r == 0 && (match Lookup(mutexList, id).value
        case Spin(s) => s.locked
        case Blocking(b) => b.locked)
    {
      var current := p.Current();
      if current.None? {
        return 0, false;
      }
      ok := true;
      var mx := Lookup(mutexList, id);
      if mx.None? {
        return -1, true;
      }
      match mx.value {
        case Spin(s) =>
          var res := s.LockRound(p, m);
        case Blocking(b) =>
          assert b in Blockings();
          var res := b.Lock(p);
      }
      r := 0;
    }

    /** `sys_mutex_unlock`: -1 for an id that names no mutex; otherwise the
        mutex's `unlock` runs and the call returns 0. False from the
        blocking mutex's `unlock` stands for its failing assertion. */
    method MutexUnlock(id: nat, m: Manager<Task>) returns (r: int, ok: bool)
      requires Valid()
      modifies m
      modifies if Lookup(mutexList, id).Some? then {MutexObject(Lookup(mutexList, id).value)} else {}
      modifies if Lookup(mutexList, id).Some? && Lookup(mutexList, id).value.Blocking? &&
        Lookup(mutexList, id).value.blocking.waitQueue != []
        then {Lookup(mutexList, id).value.blocking.waitQueue[0]} else {}
      ensures Valid()
      ensures r == -1 <==> Lookup(mutexList, id).None?
      ensures r == -1 ==> ok && m.readyQueue == old(m.readyQueue)
      ensures r != -1 ==> r == 0 && (match Lookup(mutexList, id).value
        case Spin(s) => !s.locked && ok
        case Blocking(b) => (ok <==> old(b.locked)))
    {
      var mx := Lookup(mutexList, id);
      if mx.None? {
        return -1, true;
      }
      match mx.value {
        case Spin(s) =>
          s.Unlock();
          ok := true;
        case Blocking(b) =>
          assert b in Blockings();
          ok := b.Unlock(m);
      }
      r := 0;
    }

    /** `sys_semaphore_create`: a new semaphore with `resCount` resources in
        the lowest empty slot. */
    method SemaphoreCreate(resCount: nat) returns (id: nat, sem: Semaphore)
      requires Valid()
      modifies this`semaphoreList
      ensures Valid()
      ensures (semaphoreList, id) == InstallStep(old(semaphoreList), sem)
      ensures fresh(sem) && sem.count == resCount && sem.waitQueue == []
    {
      var s := new Semaphore(resCount);
      sem := s;
      InstallLowest(semaphoreList, s);
      semaphoreList, id := Install(semaphoreList, s);
    }

    /** `sys_semaphore_up`: -1 for an id that names no semaphore, else `up`
        and 0. */
    method SemaphoreUp(id: nat, m: Manager<Task>) returns (r: int)
      requires Valid()
      modifies m
      modifies if Lookup(semaphoreList, id).Some? then {Lookup(semaphoreList, id).value} else {}
      modifies if Lookup(semaphoreList, id).Some? && Lookup(semaphoreList, id).value.waitQueue != []
        then {Lookup(semaphoreList, id).value.waitQueue[0]} else {}
      ensures Valid()
      ensures r == -1 <==> Lookup(semaphoreList, id).None?
      ensures r == -1 ==> m.readyQueue == old(m.readyQueue)
      ensures r != -1 ==> r == 0 && Lookup(semaphoreList, id).value.count == old(Lookup(semaphoreList, id).value.count) + 1
    {
      var s := Lookup(semaphoreList, id);
      if s.None? {
        return -1;
      }
      assert s.value in Semaphores();
      s.value.Up(m);
      r := 0;
    }

    /** `sys_semaphore_down`: -1 for an id that names no semaphore, else
        `down` and 0. False from `down` stands for its panic when it must
        block and no thread is running. */
    method SemaphoreDown(id: nat, p: Processor<Task>) returns (r: int, ok: bool)
      requires Valid()
      modifies p, if p.current.Some? then {p.current.value} else {}
      modifies if Lookup(semaphoreList, id).Some? then {Lookup(semaphoreList, id).value} else {}
      ensures ok ==> Valid()
      ensures r == -1 <==> Lookup(semaphoreList, id).None?
      ensures r == -1 ==> ok && p.current == old(p.current)
      ensures r != -1 ==> r == 0 && Lookup(semaphoreList, id).value.count == old(Lookup(semaphoreList, id).value.count) - 1
    {
      var s := Lookup(semaphoreList, id);
      if s.None? {
        return -1, true;
      }
      assert s.value in Semaphores();
      ok := s.value.Down(p);
      r := 0;
    }

    /** `sys_condvar_create`: a new condition variable with no waiter in the
        lowest empty slot. */
    method CondvarCreate() returns (id: nat, cv: Condvar)
      requires Valid()
      modifies this`condvarList
      ensures Valid()
      ensures (condvarList, id) == InstallStep(old(condvarList), cv)
      ensures fresh(cv) && cv.waitQueue == []
    {
      var c := new Condvar();
      cv := c;
      InstallLowest(condvarList, c);
      condvarList, id := Install(condvarList, c);
    }

    /** `sys_condvar_signal`: -1 for an id that names no condition
        variable, else `signal` and 0. */
    method CondvarSignal(id: nat, m: Manager<Task>) returns (r: int)
      requires Valid()
      modifies m
      modifies if Lookup(condvarList, id).Some? then {Lookup(condvarList, id).value} else {}
      modifies if Lookup(condvarList, id).Some? && Lookup(condvarList, id).value.waitQueue != []
        then {Lookup(condvarList, id).value.waitQueue[0]} else {}
      ensures Valid()
      ensures r == -1 <==> Lookup(condvarList, id).None?
      ensures r == -1 ==> m.readyQueue == old(m.readyQueue)
      ensures r != -1 ==> (r == 0 &&
        var cv := Lookup(condvarList, id).value;
        cv.waitQueue == if old(cv.waitQueue) == [] then [] else old(cv.waitQueue)[1..])
    {
      var c := Lookup(condvarList, id);
      if c.None? {
        return -1;
      }
      c.value.Signal(m);
      r := 0;
    }

    /** `sys_condvar_wait`: -1 unless both ids name objects; otherwise the
        thread releases the mutex, joins the condition variable's queue and
        blocks, and the call returns 0. False stands for the panics of
        `wait` (a blocking mutex that was not held, or no running
        thread). */
    method CondvarWait(condvarId: nat, mutexId: nat, p: Processor<Task>, m: Manager<Task>) returns (r: int, ok: bool)
      requires Valid()
      modifies m, p, if p.current.Some? then {p.current.value} else {}
      modifies if Lookup(condvarList, condvarId).Some? then {Lookup(condvarList, condvarId).value} else {}
      modifies if Lookup(mutexList, mutexId).Some? then {MutexObject(Lookup(mutexList, mutexId).value)} else {}
      modifies if Lookup(mutexList, mutexId).Some? && Lookup(mutexList, mutexId).value.Blocking? &&
        Lookup(mutexList, mutexId).value.blocking.waitQueue != []
        then {Lookup(mutexList, mutexId).value.blocking.waitQueue[0]} else {}
      ensures Valid()
      ensures r == -1 <==> (Lookup(condvarList, condvarId).None? || Lookup(mutexList, mutexId).None?)
      ensures r == -1 ==> ok && p.current == old(p.current) && m.readyQueue == old(m.readyQueue)
      ensures r != -1 ==> r == 0 && (ok ==>
        var cv := Lookup(condvarList, condvarId).value;
        old(p.current).Some? && cv.waitQueue == old(cv.waitQueue) + [old(p.current).value] && p.current == None &&
        old(p.current).value.status == Blocked)
      ensures r != -1 && Lookup(mutexList, mutexId).value.Spin? ==>
        var s := Lookup(mutexList, mutexId).value.spin;
        !s.locked && (ok <==> old(p.current).Some?)
      ensures r != -1 && Lookup(mutexList, mutexId).value.Blocking? ==>
        var b := Lookup(mutexList, mutexId).value.blocking;
        (ok <==> old(b.locked) && old(p.current).Some?) &&
        (ok ==> (b.waitQueue == (if old(b.waitQueue) == [] then [] else old(b.waitQueue)[1..]) &&
                 (b.locked <==> old(b.waitQueue) != [])))
    {
      var c := Lookup(condvarList, condvarId);
      if c.None? {
        return -1, true;
      }
      var mx := Lookup(mutexList, mutexId);
      if mx.None? {
        return -1, true;
      }
      match mx.value {
        case Spin(s) =>
          ok := c.value.WaitSpin(s, p);
        case Blocking(b) =>
          assert b in Blockings();
          ok := c.value.Wait(b, p, m);
      }
      r := 0;
    }
  }

  /** `get_time_ms() + ms` in usize: the deadline wraps past 2^64, which
      makes it earlier than now; otherwise it is now plus ms. */
  function Expiry(ticks: nat, ms: nat): (e: nat)
    ensures e < 0x1_0000_0000_0000_0000
    ensures e <= GetTimeMs(ticks) + ms
    ensures GetTimeMs(ticks) + ms < 0x1_0000_0000_0000_0000 ==> e == GetTimeMs(ticks) + ms
  {
    (GetTimeMs(ticks) + ms) % 0x1_0000_0000_0000_0000
  }

  /** `sys_sleep`: a timer at now + ms (Expiry) is registered for the running thread,
      which then blocks; the call returns 0. None stands for the `unwrap`
      when no thread is running. `ticks` is the value of the time
      counter. */
  method Sleep(timers: Timers, p: Processor<Task>, ticks: nat, ms: nat) returns (r: Option<int>)
    requires timers.Valid()
    modifies timers, p, if p.current.Some? then {p.current.value} else {}
    ensures timers.Valid()
    ensures r.None? <==> old(p.current).None?
    ensures r.None? ==> timers.heap == old(timers.heap)
    ensures r.Some? ==> r.value == 0 && p.current == None && old(p.current).value.status == Blocked
    ensures r.Some? ==> timers.heap == Insert(old(timers.heap), TimeCondVar(Expiry(ticks, ms), old(p.current).value))
  {
    var current := p.Current();
    if current.None? {
      return None;
    }
    timers.AddTimer(Expiry(ticks, ms), current.value);
    var blocked := BlockCurrent(p);
    r := Some(0);
  }

  /** A sleeper is woken by the first timer check at or after its
      deadline: with no other timer pending, a thread that sleeps ms
      milliseconds at time t0 is Ready and at the tail of the ready queue
      after a check at any time t1 whose millisecond count has reached
      t0's plus ms. */
  method SleepThenWake(t: Task, ticks0: nat, ticks1: nat, ms: nat) returns (woken: seq<Task>)
    requires GetTimeMs(ticks1) >= GetTimeMs(ticks0) + ms
    modifies t
    ensures t.status == Ready && woken == [t]
  {
    var timers := new Timers();
    var p := new Processor<Task>();
    var m := new Manager<Task>();
    p.current := Some(t);
    var r := Sleep(timers, p, ticks0, ms);
    var tc := TimeCondVar(Expiry(ticks0, ms), t);
    assert multiset(timers.heap) == multiset{tc};
    assert timers.heap == [tc] by {
      assert |timers.heap| == 1;
      assert timers.heap[0] in multiset(timers.heap);
    }
    var expired := timers.CheckTimer(GetTimeMs(ticks1), m);
    assert [tc] == expired + timers.heap;
    woken := m.readyQueue;
  }
}
