/** The processor's current-thread slot (kernel/src/task/processor.rs and
    os/src/task/processor.rs). The context switch itself (`__switch`) is
    not modelled: one round of `run_tasks` ends where it would switch. */
module Processor {
  import opened Wrappers
  import opened Process
  import opened Manager

  class Processor<T> {
    var current: Option<T>

    constructor ()
      ensures current == None
    {
      current := None;
    }

    /** `take_current`: hand out the slot's content and leave it empty. */
    method TakeCurrent() returns (task: Option<T>)
      modifies this
      ensures task == old(current) && current == None
    {
      task := current;
      current := None;
    }

    /** `current`: a copy of the slot; nothing changes. */
    function Current(): (task: Option<T>)
      reads this
      ensures task == current
    {
      current
    }
  }

  /** One round of the `run_tasks` loop: fetch the head of the ready queue;
      if there is one, mark it Running and make it current. With an empty
      queue nothing changes. */
  method RunTasksStep(p: Processor<Task>, m: Manager<Task>) returns (switched: bool)
    modifies p, m, if m.readyQueue != [] then {m.readyQueue[0]} else {}
    ensures switched <==> old(m.readyQueue) != []
    ensures !switched ==> m.readyQueue == old(m.readyQueue) && p.current == old(p.current)
    ensures switched ==>
      var task := old(m.readyQueue)[0];
      m.readyQueue == old(m.readyQueue)[1..] && p.current == Some(task) && task.status == Running
  {
    var task := m.Fetch();
    if task.None? {
      return false;
    }
    task.value.status := Running;
    p.current := task;
    switched := true;
  }
}
