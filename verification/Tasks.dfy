/** The task table: slots for tasks, and the round-robin search through them. */
module Tasks {
  import opened Common

  datatype State = STOPPED | RUNNING

  type Ticks = t: nat | t < 0x1_0000_0000

  /** What a slot says about its task; cpu is the address of its saved CPU state. */
  datatype Slot = Slot(state: State, ticks: Ticks, cpu: nat, dir: nat)

  // ----- slots in cyclic order

  /** Slots 1 to n-1 form a ring; slot 0 stands for no task and lies before slot 1. */
  function Dist(n: nat, pid: nat, q: nat): int {
    if q > pid then q - pid else q + n - 1 - pid
  }

  function At(n: nat, pid: nat, d: nat): nat
    requires pid < n && 0 < d < n
  {
    if pid + d < n then pid + d else pid + d + 1 - n
  }

  /** The slot holds a task, in the wanted state if one is wanted. */
  predicate Has(t: seq<Option<Slot>>, q: nat, want: Option<State>) {
    0 < q < |t| && t[q].Some? && (want.Some? ==> t[q].value.state == want.value)
  }

  /** r is the wanted slot that comes first after pid, pid itself being last; 0 if there is none. */
  ghost predicate IsNext(t: seq<Option<Slot>>, pid: nat, want: Option<State>, r: nat) {
    if r == 0 then forall q: nat :: !Has(t, q, want)
    else Has(t, r, want) && forall q: nat :: Has(t, q, want) ==> Dist(|t|, pid, r) <= Dist(|t|, pid, q)
  }

  function Search(t: seq<Option<Slot>>, pid: nat, want: Option<State>, d: nat): (r: nat)
    requires pid < |t| && 0 < d
    ensures r == 0 ==> forall q: nat :: Has(t, q, want) ==> Dist(|t|, pid, q) < d
    ensures r != 0 ==> Has(t, r, want)
    ensures r != 0 ==> forall q: nat :: Has(t, q, want) ==>
              Dist(|t|, pid, q) < d || Dist(|t|, pid, r) <= Dist(|t|, pid, q)
    decreases |t| - d
  {
    if d >= |t| then 0
    else
      assert forall q: nat :: 0 < q < |t| && Dist(|t|, pid, q) == d ==> q == At(|t|, pid, d);
      if Has(t, At(|t|, pid, d), want) then At(|t|, pid, d) else Search(t, pid, want, d + 1)
  }

  function Next(t: seq<Option<Slot>>, pid: nat, want: Option<State>): (r: nat)
    requires pid < |t|
    ensures IsNext(t, pid, want, r) && r < |t|
  {
    Search(t, pid, want, 1)
  }

  lemma NextUnique(t: seq<Option<Slot>>, pid: nat, want: Option<State>, r: nat)
    requires pid < |t| && IsNext(t, pid, want, r)
    ensures r == Next(t, pid, want)
  {
    var r' := Next(t, pid, want);
    assert Has(t, r, want) || Has(t, r', want) ==> Has(t, r, want) && Has(t, r', want);
  }

  /** Moving on to a slot p on the way to q shortens the way by the distance to p. */
  lemma DistSplit(n: nat, pid: nat, p: nat, q: nat)
    requires pid < n && 0 < p < n && 0 < q < n && Dist(n, pid, p) < Dist(n, pid, q)
    ensures Dist(n, p, q) == Dist(n, pid, q) - Dist(n, pid, p)
  {
  }

  // ----- the search as it runs

  class Task {
    var state: State
    var ticks: Ticks
    var cpu: nat
    const dir: nat

    constructor (cpu: nat, dir: nat, ticks: Ticks)
      ensures this.state == RUNNING && this.cpu == cpu && this.dir == dir && this.ticks == ticks
    {
      this.state := RUNNING;
      this.cpu := cpu;
      this.dir := dir;
      this.ticks := ticks;
    }

    function View(): Slot
      reads this
    {
      Slot(state, ticks, cpu, dir)
    }
  }

  class TaskTable {
    const tasks: array<Task?>
    var interrupts: bool                  // whether interrupts are enabled
    ghost var slots: seq<Option<Slot>>    // what the table holds

    ghost predicate Valid()
      reads this, tasks, tasks[..]
    {
      && 1 < tasks.Length == |slots| && tasks[0] == null
      && (forall i :: 0 <= i < |slots| ==> slots[i] == if tasks[i] == null then None else Some(tasks[i].View()))
      && (forall i, j :: 0 <= i < j < tasks.Length && tasks[i] != null ==> tasks[i] != tasks[j])
    }

    function TaskAt(pid: nat): Task
      requires Valid() && Has(slots, pid, None)
      reads this, tasks, tasks[..]
    {
      tasks[pid]
    }

    constructor (n: nat)
      requires n > 1
      ensures Valid() && fresh(tasks) && interrupts && slots == seq(n, _ => None)
    {
      tasks := new Task?[n](_ => null);
      interrupts := true;
      slots := seq(n, _ => None);
    }

    /** task_add: the first free slot, or None, where the kernel panics, if all are taken. */
    method Add(task: Task) returns (pid: Option<nat>)
      requires Valid() && task !in tasks[..]
      modifies this`slots, tasks
      ensures Valid() && forall i :: 0 <= i < tasks.Length ==>
                tasks[i] == if pid == Some(i) then task else old(tasks[i])
      ensures pid.None? ==> slots == old(slots) && forall i :: 0 < i < |slots| ==> slots[i].Some?
      ensures pid.Some? ==> 0 < pid.value < |slots| && old(slots)[pid.value].None?
                            && (forall i :: 0 < i < pid.value ==> slots[i].Some?)
                            && slots == old(slots)[pid.value := Some(task.View())]
    {
      var p := 1;
      while p < tasks.Length && tasks[p] != null
        invariant 1 <= p <= tasks.Length && forall i :: 0 < i < p ==> tasks[i] != null
      {
        p := p + 1;
      }
      if p == tasks.Length {
        return None;
      }
      tasks[p] := task;
      slots := slots[p := Some(task.View())];
      return Some(p);
    }

    method GetNextTask(pid: nat) returns (r: nat)
      requires Valid() && pid < tasks.Length
      ensures r == Next(slots, pid, None)
    {
      r := pid + 1;
      while r < tasks.Length && tasks[r] == null
        invariant pid < r <= tasks.Length && forall i :: pid < i < r ==> tasks[i] == null
      {
        r := r + 1;
      }
      if r == tasks.Length {
        r := 1;
        while r < tasks.Length && tasks[r] == null
          invariant 1 <= r <= tasks.Length && forall i :: 1 <= i < r ==> tasks[i] == null
        {
          r := r + 1;
        }
        if r == tasks.Length {
          r := 0;
        }
      }
      NextUnique(slots, pid, None, r);
    }

    /** None of the slots up to the given distance is wanted. */
    ghost predicate Passed(t: seq<Option<Slot>>, pid: nat, want: State, d: nat) {
      forall q: nat :: Has(t, q, Some(want)) ==> Dist(|t|, pid, q) > d
    }

    /** One hop of the search: from the slot at distance d to the next task. */
    lemma Hop(t: seq<Option<Slot>>, pid: nat, want: State, d: nat, p: nat)
      requires pid < |t| && p < |t| && Passed(t, pid, want, d) && Next(t, p, None) != 0
      requires if d == 0 then p == pid else if d < |t| then p == At(|t|, pid, d) else true
      ensures var r := Next(t, p, None);
              var d1 := d + Dist(|t|, p, r);
              && d1 > d
              && Passed(t, pid, want, d1 - 1)
              && (d < |t| && d1 < |t| ==> r == At(|t|, pid, d1))
    {
      var n, r := |t|, Next(t, p, None);
      var d1 := d + Dist(n, p, r);
      forall q: nat | Has(t, q, Some(want))
        ensures Dist(n, pid, q) >= d1
      {
        assert Has(t, q, None);
        assert Dist(n, pid, q) < n;
      }
    }

    method GetNextTaskWithState(pid: nat, state: State) returns (r: nat)
      requires Valid() && pid < tasks.Length
      ensures r == Next(slots, pid, Some(state))
    {
      hide Next, Has, Dist, At;
      var pids := 1;
      r := GetNextTask(pid);
      if r == 0 {
        NoTasks(slots, pid, pid, state);
        return;
      }
      ghost var d := Dist(|slots|, pid, r);
      NothingPassed(slots, pid, state);
      Hop(slots, pid, state, 0, pid);
      NextPresent(slots, pid);
      while pids <= tasks.Length && tasks[r].state != state
        invariant 0 < r < tasks.Length && tasks[r] != null
        invariant 0 < pids <= d && pids <= tasks.Length + 1
        invariant Passed(slots, pid, state, d - 1)
        invariant d < |slots| ==> r == At(|slots|, pid, d)
        decreases tasks.Length + 1 - pids
      {
        NotHere(slots, pid, state, d, r);
        ghost var p := r;
        r := GetNextTask(r);
        if r == 0 {
          NoTasks(slots, p, pid, state);
          return;
        }
        Hop(slots, pid, state, d, p);
        NextPresent(slots, p);
        d := d + Dist(|slots|, p, r);
        pids := pids + 1;
      }
      SearchEnds(slots, pid, state, d, r);
      if pids > tasks.Length {
        return 0;
      }
    }

    lemma NothingPassed(t: seq<Option<Slot>>, pid: nat, want: State)
      requires pid < |t|
      ensures Passed(t, pid, want, 0)
    {
    }

    lemma NextPresent(t: seq<Option<Slot>>, pid: nat)
      requires pid < |t|
      ensures Next(t, pid, None) != 0 ==> 0 < Next(t, pid, None) < |t| && t[Next(t, pid, None)].Some?
    {
    }

    lemma NoTasks(t: seq<Option<Slot>>, p: nat, pid: nat, want: State)
      requires p < |t| && pid < |t| && Next(t, p, None) == 0
      ensures Next(t, pid, Some(want)) == 0
    {
      var r := Next(t, pid, Some(want));
      assert !Has(t, r, None);
    }

    lemma NotHere(t: seq<Option<Slot>>, pid: nat, want: State, d: nat, r: nat)
      requires pid < |t| && 0 < d && Passed(t, pid, want, d - 1)
      requires d < |t| ==> r == At(|t|, pid, d)
      requires 0 < r < |t| && t[r].Some? && t[r].value.state != want
      ensures Passed(t, pid, want, d)
    {
    }

    /** After a full round nothing is left; before, the task at hand is the first wanted one. */
    lemma SearchEnds(t: seq<Option<Slot>>, pid: nat, want: State, d: nat, r: nat)
      requires pid < |t| && 0 < d && Passed(t, pid, want, d - 1) && 0 < r < |t| && t[r].Some?
      requires d < |t| ==> r == At(|t|, pid, d)
      ensures d > |t| ==> Next(t, pid, Some(want)) == 0
      ensures t[r].value.state == want ==> Next(t, pid, Some(want)) == r
    {
      if t[r].value.state == want {
        assert Has(t, r, Some(want));
        NextUnique(t, pid, Some(want), r);
      }
      if d > |t| {
        NextUnique(t, pid, Some(want), 0);
      }
    }

    // ----- changing tasks

    /** task_set_ticks: returns the old number of ticks. */
    method SetTicks(pid: nat, ticks: Ticks) returns (oldTicks: Ticks)
      requires Valid() && Has(slots, pid, None)
      modifies this`slots, TaskAt(pid)`ticks
      ensures Valid() && oldTicks == old(slots)[pid].value.ticks
      ensures slots == old(slots)[pid := Some(old(slots)[pid].value.(ticks := ticks))]
    {
      var task := tasks[pid];
      oldTicks := task.ticks;
      task.ticks := ticks;
      slots := slots[pid := Some(task.View())];
    }

    method SetCpu(pid: nat, cpu: nat)
      requires Valid() && Has(slots, pid, None)
      modifies this`slots, TaskAt(pid)`cpu
      ensures Valid()
      ensures slots == old(slots)[pid := Some(old(slots)[pid].value.(cpu := cpu))]
    {
      var task := tasks[pid];
      task.cpu := cpu;
      slots := slots[pid := Some(task.View())];
    }

    method Stop(pid: nat)
      requires Valid() && Has(slots, pid, None)
      modifies this`slots, TaskAt(pid)`state
      ensures Valid()
      ensures slots == old(slots)[pid := Some(old(slots)[pid].value.(state := STOPPED))]
    {
      var task := tasks[pid];
      task.state := STOPPED;
      slots := slots[pid := Some(task.View())];
    }

    /** task_destroy, as far as the table goes: for a running task it returns early, with interrupts still disabled. */
    method Destroy(pid: nat)
      requires Valid() && Has(slots, pid, None)
      modifies this`slots, this`interrupts, tasks
      ensures Valid()
      ensures slots == Destroyed(old(slots), pid)
      ensures interrupts == (old(interrupts) && old(slots)[pid].value.state == STOPPED)
    {
      var oldInterrupts := interrupts;
      interrupts := false;
      if tasks[pid].state == RUNNING {
        return;
      }
      tasks[pid] := null;
      slots := slots[pid := None];
      interrupts := oldInterrupts;
    }

    /** schedule_finalize_tasks: leaves exactly the tasks that are not stopped. */
    method FinalizeTasks()
      requires Valid()
      modifies this`slots, this`interrupts, tasks
      ensures Valid() && interrupts == old(interrupts)
      ensures slots == Finalized(old(slots))
    {
      hide Next, Has, StoppedSlots, Destroyed;
      ghost var t := slots;
      var pid: nat := 0;
      pid := GetNextTaskWithState(pid, STOPPED);
      FoundStopped(slots, 0);
      while pid != 0
        invariant Valid() && interrupts == old(interrupts) && Pruned(t, slots)
        invariant if pid == 0 then StoppedSlots(slots) == {} else Has(slots, pid, Some(STOPPED))
        decreases StoppedSlots(slots)
      {
        PruneStep(t, slots, pid);
        ghost var p := pid;
        Destroy(pid);
        pid := GetNextTaskWithState(pid, STOPPED);
        FoundStopped(slots, p);
      }
      PrunedAll(t, slots);
    }
  }

  /** Some stopped tasks of t are gone. */
  ghost predicate Pruned(t: seq<Option<Slot>>, t1: seq<Option<Slot>>) {
    |t1| == |t| && forall i :: 0 <= i < |t| ==> t1[i] == t[i] || (Has(t, i, Some(STOPPED)) && t1[i].None?)
  }

  lemma FoundStopped(t: seq<Option<Slot>>, pid: nat)
    requires pid < |t|
    ensures var r := Next(t, pid, Some(STOPPED));
            r < |t| && if r == 0 then StoppedSlots(t) == {} else Has(t, r, Some(STOPPED))
  {
  }

  lemma PruneStep(t: seq<Option<Slot>>, t1: seq<Option<Slot>>, pid: nat)
    requires Pruned(t, t1) && Has(t1, pid, Some(STOPPED))
    ensures Has(t1, pid, None) && Pruned(t, Destroyed(t1, pid)) && StoppedSlots(Destroyed(t1, pid)) < StoppedSlots(t1)
    ensures t1[pid].value.state == STOPPED && pid < |t1| == |Destroyed(t1, pid)|
  {
    assert pid in StoppedSlots(t1) && pid !in StoppedSlots(Destroyed(t1, pid));
  }

  lemma PrunedAll(t: seq<Option<Slot>>, t1: seq<Option<Slot>>)
    requires Pruned(t, t1) && StoppedSlots(t1) == {}
    ensures t1 == Finalized(t)
  {
    forall i | 0 <= i < |t|
      ensures t1[i] == Finalized(t)[i]
    {
      assert i !in StoppedSlots(t1);
    }
  }

  ghost function StoppedSlots(t: seq<Option<Slot>>): set<nat> {
    set q: nat | q < |t| && Has(t, q, Some(STOPPED))
  }

  function Destroyed(t: seq<Option<Slot>>, pid: nat): seq<Option<Slot>>
    requires Has(t, pid, None)
  {
    if t[pid].value.state == RUNNING then t else t[pid := None]
  }

  /** The table without its stopped tasks. */
  function Finalized(t: seq<Option<Slot>>): seq<Option<Slot>> {
    seq(|t|, i requires 0 <= i < |t| => if Has(t, i, Some(STOPPED)) then None else t[i])
  }
}
