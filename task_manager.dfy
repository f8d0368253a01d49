/** The ready queue and the pid table (kernel/src/task/manager.rs and
    os/src/task/manager.rs): a FIFO of runnable threads, and the map from pid
    to process. */
module Manager {
  import opened Wrappers
  import opened Process

  /** `Manager` / `TaskManager`: the ready queue, head first. The kernel
      queues threads (`Task`), the older kernel whole tasks (`OsTask.Tcb`). */
  class Manager<T(==)> {
    var readyQueue: seq<T>

    constructor ()
      ensures readyQueue == []
    {
      readyQueue := [];
    }

    /** `add`: append at the tail. */
    method Add(task: T)
      modifies this
      ensures readyQueue == old(readyQueue) + [task]
    {
      readyQueue := readyQueue + [task];
    }

    /** `fetch`: pop the head; None on an empty queue. */
    method Fetch() returns (task: Option<T>)
      modifies this
      ensures old(readyQueue) == [] ==> task == None && readyQueue == []
      ensures old(readyQueue) != [] ==> task == Some(old(readyQueue)[0]) && readyQueue == old(readyQueue)[1..]
    {
      if readyQueue == [] {
        return None;
      }
      task := Some(readyQueue[0]);
      readyQueue := readyQueue[1..];
    }

    /** `remove` (older kernel): drop the first entry that is the same
        object as `task`; a no-op if there is none. */
    method Remove(task: T)
      modifies this
      ensures task !in old(readyQueue) ==> readyQueue == old(readyQueue)
      ensures task in old(readyQueue) ==>
        var i := IndexOf(old(readyQueue), task);
        readyQueue == old(readyQueue)[..i] + old(readyQueue)[i + 1..]
    {
      var i := 0;
      while i < |readyQueue| && readyQueue[i] != task
        invariant 0 <= i <= |readyQueue|
        invariant task !in readyQueue[..i]
      {
        assert readyQueue[..i + 1] == readyQueue[..i] + [readyQueue[i]];
        i := i + 1;
      }
      if i < |readyQueue| {
        IndexOfIs(readyQueue, task, i);
        readyQueue := readyQueue[..i] + readyQueue[i + 1..];
      } else {
        assert readyQueue[..i] == readyQueue;
      }
    }
  }

  /** The position of the first occurrence of x. */
  function IndexOf<T(==)>(s: seq<T>, x: T): (i: nat)
    requires x in s
    ensures i < |s| && s[i] == x && x !in s[..i]
  {
    if s[0] == x then 0 else
      var i := IndexOf(s[1..], x);
      assert s[1..][..i] == s[1..i + 1];
      i + 1
  }

  lemma {:induction false} IndexOfIs<T>(s: seq<T>, x: T, i: nat)
    requires i < |s| && s[i] == x && x !in s[..i]
    ensures IndexOf(s, x) == i
  {
    if i > 0 {
      assert s[0] in s[..i];
      assert s[1..][..i - 1] == s[1..i];
      IndexOfIs(s[1..], x, i - 1);
    }
  }

  /** Removing by position keeps the other entries in their order. */
  lemma RemoveKeepsOrder<T>(s: seq<T>, i: nat)
    requires i < |s|
    ensures var r := s[..i] + s[i + 1..];
      |r| == |s| - 1 && (forall j :: 0 <= j < i ==> r[j] == s[j]) && (forall j :: i <= j < |r| ==> r[j] == s[j + 1])
  {
  }

  /** Adding and then fetching from an empty queue gives the tasks back in
      the order they were added. */
  method FifoOrder<T(==)>(t1: T, t2: T) returns (first: Option<T>, second: Option<T>, third: Option<T>)
    ensures first == Some(t1) && second == Some(t2) && third == None
  {
    var m := new Manager<T>();
    m.Add(t1);
    m.Add(t2);
    first := m.Fetch();
    second := m.Fetch();
    third := m.Fetch();
  }

  /** `wakeup`: mark the thread Ready, then queue it at the tail. */
  method Wakeup(m: Manager<Task>, task: Task)
    modifies m, task`status
    ensures task.status == Ready
    ensures m.readyQueue == old(m.readyQueue) + [task]
  {
    task.status := Ready;
    m.Add(task);
  }

  /** `PID2PCB` / `PID2TCB`: the processes by pid. */
  class Pid2Process<P> {
    var table: map<nat, P>

    constructor ()
      ensures table == map[]
    {
      table := map[];
    }

    /** `pid2process`: the process with that pid, if any. */
    function Get(pid: nat): (r: Option<P>)
      reads this
      ensures r.Some? <==> pid in table
      ensures r.Some? ==> r.value == table[pid]
    {
      if pid in table then Some(table[pid]) else None
    }

    /** `insert_into_pid2process`: add or replace the entry for pid. */
    method Insert(pid: nat, p: P)
      modifies this
      ensures table == old(table)[pid := p]
      ensures Get(pid) == Some(p)
      ensures forall q :: q != pid ==> Get(q) == old(Get(q))
    {
      table := table[pid := p];
    }

    /** `remove_from_pid2process`: false stands for the panic on a missing
        pid; otherwise only that key goes. */
    method Remove(pid: nat) returns (ok: bool)
      modifies this
      ensures ok <==> pid in old(table)
      ensures table == old(table) - {pid}
      ensures Get(pid) == None
      ensures forall q :: q != pid ==> Get(q) == old(Get(q))
    {
      ok := pid in table;
      table := table - {pid};
    }
  }
}
