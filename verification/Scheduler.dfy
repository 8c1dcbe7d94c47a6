/** The scheduler as it runs, proved to take the steps of the machine in Scheduling. */
module Scheduler {
  import opened Common
  import opened Tasks
  import opened Scheduling

  class RoundRobin {
    const table: TaskTable
    const ticksPerTimeSlice: Ticks
    var currentTask: nat
    var loaded: nat          // the page directory the processor uses
    var saved: Option<nat>   // the one to return to after a modification
    var before: bool         // whether interrupts were enabled before it

    ghost predicate Valid()
      reads this, table, table.tasks, table.tasks[..]
    {
      table.Valid() && RunInv(State())
    }

    ghost function State(): Sched
      reads this, table
    {
      Sched(table.slots, currentTask, loaded, saved, before, table.interrupts, ticksPerTimeSlice)
    }

    constructor (table: TaskTable, directory: nat)
      requires table.Valid() && table.slots == seq(|table.slots|, _ => None)
      ensures Valid() && this.table == table && currentTask == 0 && ticksPerTimeSlice == 1 && loaded == directory
    {
      this.table := table;
      ticksPerTimeSlice := 1;
      currentTask := 0;
      loaded := directory;
      saved := None;
      before := false;
    }

    method GetNextTask() returns (next: nat)
      requires Valid()
      ensures next == NextTask(State())
    {
      next := table.GetNextTaskWithState(currentTask, RUNNING);
    }

    /** schedule_switch_task. */
    method SwitchTask(next: nat) returns (cpu: nat)
      requires table.Valid() && Has(table.slots, next, None)
      modifies this`currentTask, this`loaded, table`slots, table.TaskAt(next)`ticks
      ensures table.Valid() && (State(), cpu) == Switch(old(State()), next)
    {
      var oldTicks := table.SetTicks(next, ticksPerTimeSlice);
      loaded := table.tasks[next].dir;
      currentTask := next;
      cpu := table.tasks[next].cpu;
    }

    /** schedule, called for every timer interrupt. */
    method Schedule(cpu: nat) returns (resumed: nat)
      requires Valid() && table.interrupts
      modifies this`currentTask, this`loaded, table`slots, table.tasks[..]
      ensures Valid() && (State(), resumed) == Scheduling.Schedule(old(State()), cpu)
    {
      hide Next;
      ghost var m := State();
      NextRuns(m);
      StepInv(m, Tick(cpu));
      var next := GetNextTask();
      if next == 0 {
        return cpu;
      }
      if currentTask != 0 {
        var oldTicks := table.SetTicks(currentTask, Decrement(table.tasks[currentTask].ticks));
        if oldTicks > 1 {
          return cpu;
        }
        table.SetCpu(currentTask, cpu);
        assert table.slots == m.slots[currentTask := table.slots[currentTask]];
      }
      if currentTask == next {
        return cpu;
      }
      resumed := SwitchTask(next);
    }

    /** syscall_exit; with no other task running it stops the current task and stays with it. */
    method Exit() returns (cpu: nat)
      requires Valid() && table.interrupts && currentTask != 0
      modifies this`currentTask, this`loaded, table`slots, table.tasks[..]
      ensures table.Valid() && (State(), cpu) == ExitTask(old(State()))
      ensures AnotherRuns(old(State())) ==> Valid()
    {
      hide Next;
      ghost var m := State();
      NextRuns(m);
      if AnotherRuns(m) {
        StepInv(m, Event.Exit);
      }
      var next := GetNextTask();
      table.Stop(currentTask);
      cpu := SwitchTask(next);
    }

    /** The end of task creation: task_add of a running task, or None for a panic. */
    method AddTask(cpu: nat, dir: nat, ticks: Ticks) returns (pid: Option<nat>)
      requires Valid()
      modifies table`slots, table.tasks
      ensures Valid()
      ensures pid.None? <==> !Legal(old(State()), Add(cpu, dir, ticks))
      ensures pid.None? ==> State() == old(State())
      ensures pid.Some? ==> State() == Step(old(State()), Add(cpu, dir, ticks)).0
      ensures pid.Some? ==> pid.value < |old(table.slots)|
                            && table.slots == old(table.slots)[pid.value := Some(Slot(RUNNING, ticks, cpu, dir))]
    {
      ghost var m := State();
      var task := new Task(cpu, dir, ticks);
      pid := table.Add(task);
      if pid.Some? {
        StepInv(m, Add(cpu, dir, ticks));
      }
    }

    /** schedule_finalize_tasks: only stopped tasks go, and the current one is never among them. */
    method FinalizeTasks()
      requires Valid()
      modifies table`slots, table`interrupts, table.tasks
      ensures Valid() && State() == old(State()).(slots := Finalized(old(State()).slots))
      ensures currentTask != 0 ==> table.slots[currentTask] == old(table.slots[currentTask])
    {
      table.FinalizeTasks();
    }
  }
}
