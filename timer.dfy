/** Time and sleeping threads (kernel/src/timer.rs). The clock counts
    CLOCK_FREQ ticks per second; the next timer interrupt is set one
    hundredth of a second ahead; sleeping threads wait in a heap ordered so
    that the earliest deadline comes out first, and `check_timer` wakes
    every thread whose deadline has passed. */
module Timer {
  import opened Wrappers
  import opened Process
  import opened Manager

  /** CLOCK_FREQ of the QEMU board (kernel/src/boards/qemu.rs). */
  const CLOCK_FREQ: nat := 10_000_000
  const TICKS_PER_SEC: nat := 100
  const MSEC_PER_SEC: nat := 1000

  /** `get_time_ms`: the tick count divided by the ticks per millisecond. */
  function GetTimeMs(ticks: nat): (ms: nat)
    ensures ms * (CLOCK_FREQ / MSEC_PER_SEC) <= ticks < (ms + 1) * (CLOCK_FREQ / MSEC_PER_SEC)
  {
    ticks / (CLOCK_FREQ / MSEC_PER_SEC)
  }

  /** `set_next_trigger`: the deadline handed to the SBI `set_timer` call. */
  function NextTrigger(ticks: nat): (deadline: nat)
    ensures deadline > ticks
  {
    ticks + CLOCK_FREQ / TICKS_PER_SEC
  }

  /** The millisecond clock never goes back, and the next timer interrupt
      comes exactly 10 ms of that clock later. */
  lemma TimeMsMonotone(t1: nat, t2: nat)
    requires t1 <= t2
    ensures GetTimeMs(t1) <= GetTimeMs(t2)
    ensures GetTimeMs(NextTrigger(t1)) == GetTimeMs(t1) + 10
  {
    var q := CLOCK_FREQ / MSEC_PER_SEC;
    var ms := GetTimeMs(t1);
    assert NextTrigger(t1) == t1 + 10 * q;
    assert (ms + 10) * q <= NextTrigger(t1) < (ms + 11) * q;
  }

  /** `TimeCondVar`: a thread and the millisecond at which it wakes up. */
  datatype TimeCondVar = TimeCondVar(expireMs: nat, task: Task)

  /** The heap's order: `TimeCondVar`'s `cmp` is reversed, so the max-heap
      `BinaryHeap` hands out the earliest deadline first. The heap is kept
      here as the sequence in which it hands its entries out. */
  ghost predicate Sorted(s: seq<TimeCondVar>)
  {
    forall i, j :: 0 <= i < j < |s| ==> s[i].expireMs <= s[j].expireMs
  }

  /** Where `push` puts an entry among those it will hand out: after every
      entry with an earlier or equal deadline. (The heap does not promise an
      order among equal deadlines; this is one order it may choose.) */
  function Insert(s: seq<TimeCondVar>, t: TimeCondVar): (r: seq<TimeCondVar>)
    ensures multiset(r) == multiset(s) + multiset{t}
  {
    if s == [] || t.expireMs < s[0].expireMs then [t] + s
    else
      assert s == [s[0]] + s[1..];
      [s[0]] + Insert(s[1..], t)
  }

  /** Pushing keeps the order in which entries come out. */
  lemma {:induction false} InsertSorted(s: seq<TimeCondVar>, t: TimeCondVar)
    requires Sorted(s)
    ensures Sorted(Insert(s, t))
  {
    if s != [] && t.expireMs >= s[0].expireMs {
      var rest := Insert(s[1..], t);
      InsertSorted(s[1..], t);
      forall x | x in rest
        ensures x.expireMs >= s[0].expireMs
      {
        assert x in multiset(rest);
        assert x in multiset(s[1..]) || x == t;
      }
      assert Insert(s, t) == [s[0]] + rest;
    }
  }

  /** The threads of a run of entries, in order. */
  function Tasks(s: seq<TimeCondVar>): (ts: seq<Task>)
    ensures |ts| == |s| && forall i :: 0 <= i < |s| ==> ts[i] == s[i].task
  {
    if s == [] then [] else [s[0].task] + Tasks(s[1..])
  }

  /** The sleeping threads, `TIMERS`. */
  class Timers {
    var heap: seq<TimeCondVar>

    ghost predicate Valid()
      reads this
    {
      Sorted(heap)
    }

    constructor ()
      ensures Valid() && heap == []
    {
      heap := [];
    }

    /** `add_timer`: push the thread with its deadline. */
    method AddTimer(expireMs: nat, task: Task)
      requires Valid()
      modifies this
      ensures Valid()
      ensures heap == Insert(old(heap), TimeCondVar(expireMs, task))
      ensures multiset(heap) == multiset(old(heap)) + multiset{TimeCondVar(expireMs, task)}
    {
      InsertSorted(heap, TimeCondVar(expireMs, task));
      heap := Insert(heap, TimeCondVar(expireMs, task));
    }

    /** `check_timer`: while the earliest deadline has passed, wake its
        thread (Ready, at the tail of the ready queue) and pop it. The
        entries popped are exactly those due by now, in deadline order;
        every entry left is due later. */
    method CheckTimer(nowMs: nat, m: Manager<Task>) returns (expired: seq<TimeCondVar>)
      requires Valid()
      modifies this, m, set i | 0 <= i < |heap| :: heap[i].task
      ensures Valid()
      ensures old(heap) == expired + heap
      ensures forall i :: 0 <= i < |expired| ==> expired[i].expireMs <= nowMs && expired[i].task.status == Ready
      ensures forall i :: 0 <= i < |heap| ==> heap[i].expireMs > nowMs
      ensures m.readyQueue == old(m.readyQueue) + Tasks(expired)
    {
      var k := WakeDue(heap, nowMs, m);
      expired := heap[..k];
      DueLater(heap, k, nowMs);
      heap := heap[k..];
    }
  }

  /** The loop of `check_timer`: wake the threads of the leading entries
      due by now, in order, and return how many there were. */
  method WakeDue(s: seq<TimeCondVar>, nowMs: nat, m: Manager<Task>) returns (k: nat)
    modifies m, set i | 0 <= i < |s| :: s[i].task
    ensures k <= |s| && (k < |s| ==> s[k].expireMs > nowMs)
    ensures forall i :: 0 <= i < k ==> s[i].expireMs <= nowMs && s[i].task.status == Ready
    ensures m.readyQueue == old(m.readyQueue) + Tasks(s[..k])
  {
    k := 0;
    while k < |s| && s[k].expireMs <= nowMs
      invariant 0 <= k <= |s|
      invariant forall i :: 0 <= i < k ==> s[i].expireMs <= nowMs && s[i].task.status == Ready
      invariant m.readyQueue == old(m.readyQueue) + Tasks(s[..k])
    {
      Wakeup(m, s[k].task);
      TasksPrefix(s, k);
      k := k + 1;
    }
  }

  /** In a sorted heap, everything after the first entry due later than
      now is due later too, and stays sorted. */
  lemma DueLater(s: seq<TimeCondVar>, k: nat, nowMs: nat)
    requires Sorted(s) && k <= |s| && (k < |s| ==> s[k].expireMs > nowMs)
    ensures s == s[..k] + s[k..] && Sorted(s[k..])
    ensures forall i :: 0 <= i < |s[k..]| ==> s[k..][i].expireMs > nowMs
  {
  }

  /** One more entry of a prefix adds its thread to the prefix's threads. */
  lemma TasksPrefix(s: seq<TimeCondVar>, k: nat)
    requires k < |s|
    ensures Tasks(s[..k + 1]) == Tasks(s[..k]) + [s[k].task]
  {
    assert s[..k + 1] == s[..k] + [s[k]];
    assert Tasks(s[..k] + [s[k]]) == Tasks(s[..k]) + [s[k].task];
  }
}
