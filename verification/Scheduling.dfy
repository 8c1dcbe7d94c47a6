/**
 The scheduler as a machine that timer ticks, exits, new tasks and destroyed tasks drive:
 what every run keeps, and how long a task that is ready can be kept waiting.
 */
module Scheduling {
  import opened Common
  import opened Tasks

  /**
   loaded is the page directory the processor uses; while another one is being modified,
   saved is the one to return to, and before whether interrupts were enabled. slice is
   the number of ticks a task may run.
   */
  datatype Sched = Sched(slots: seq<Option<Slot>>, current: nat, loaded: nat, saved: Option<nat>, before: bool,
                         interrupts: bool, slice: Ticks)

  datatype Event =
    | Tick(cpu: nat)                             // a timer interrupt, with the CPU state it pushed
    | Exit                                       // the exit system call of the current task
    | Add(cpu: nat, dir: nat, ticks: Ticks)      // task_add of a new task
    | Destroy(pid: nat)                          // task_destroy
    | Disable | Enable                           // interrupts
    | Modify(dir: nat) | Modified                // the bracket around changes to another directory

  function Update(m: Sched, pid: nat, slot: Slot): Sched
    requires pid < |m.slots|
  {
    m.(slots := m.slots[pid := Some(slot)])
  }

  function NextTask(m: Sched): (r: nat)
    requires m.current < |m.slots|
  {
    Next(m.slots, m.current, Some(RUNNING))
  }

  /** schedule_switch_task, returning the CPU state to resume. */
  function Switch(m: Sched, next: nat): (Sched, nat)
    requires Has(m.slots, next, None)
  {
    var slot := m.slots[next].value;
    (Update(m, next, slot.(ticks := m.slice)).(loaded := slot.dir, current := next), slot.cpu)
  }

  function Decrement(t: Ticks): Ticks {
    (t + WORD - 1) % WORD
  }

  /** The timer interrupt ends the slice of the current task: fewer than two ticks were left. */
  predicate Expires(m: Sched) {
    m.current < |m.slots| && (m.current == 0 || (m.slots[m.current].Some? && m.slots[m.current].value.ticks <= 1))
  }

  /** schedule: the state after a timer interrupt, and the CPU state to resume. */
  function Schedule(m: Sched, cpu: nat): (Sched, nat)
    requires m.current < |m.slots| && (m.current != 0 ==> m.slots[m.current].Some?)
  {
    var next := NextTask(m);
    if next == 0 then (m, cpu)
    else if m.current == 0 then Switch(m, next)
    else
      var slot := m.slots[m.current].value;
      var ticked := slot.(ticks := Decrement(slot.ticks));
      if slot.ticks > 1 then (Update(m, m.current, ticked), cpu)
      else
        var m1 := Update(m, m.current, ticked.(cpu := cpu));
        if m.current == next then (m1, cpu) else Switch(m1, next)
  }

  /** syscall_exit; the running task does not save its CPU state. */
  function ExitTask(m: Sched): (Sched, nat)
    requires 0 < m.current < |m.slots| && Has(m.slots, m.current, Some(RUNNING))
  {
    var next := NextTask(m);
    Switch(Update(m, m.current, m.slots[m.current].value.(state := STOPPED)), next)
  }

  /** The slot task_add picks: the first free one, 0 if there is none. */
  function FreeFrom(t: seq<Option<Slot>>, i: nat): (r: nat)
    requires 0 < i
    ensures r != 0 ==> i <= r < |t| && t[r].None? && forall k :: i <= k < r ==> t[k].Some?
    ensures r == 0 ==> forall k :: i <= k < |t| ==> t[k].Some?
    decreases |t| - i
  {
    if i >= |t| then 0 else if t[i].None? then i else FreeFrom(t, i + 1)
  }

  predicate AnotherRuns(m: Sched) {
    exists q: nat :: q < |m.slots| && q != m.current && Has(m.slots, q, Some(RUNNING))
  }

  /**
   When an event can happen: timer interrupts and system calls need interrupts enabled,
   and nobody enables them inside a bracket; a task exits only while another one is
   running; a new task needs a free slot; only tasks that exist are destroyed.
   */
  predicate Legal(m: Sched, e: Event) {
    match e
    case Tick(cpu) => m.interrupts
    case Exit => m.interrupts && m.current != 0 && AnotherRuns(m)
    case Add(cpu, dir, ticks) => FreeFrom(m.slots, 1) != 0
    case Destroy(pid) => Has(m.slots, pid, None)
    case Disable => true
    case Enable => m.saved.None?
    case Modify(dir) => true
    case Modified => true
  }

  /** One event: the new state and the CPU state resumed, if a context switch is due. */
  function Step(m: Sched, e: Event): (Sched, Option<nat>)
    requires RunInv(m) && Legal(m, e)
  {
    match e
    case Tick(cpu) => var (m1, c) := Schedule(m, cpu); (m1, Some(c))
    case Exit => var (m1, c) := ExitTask(m); (m1, Some(c))
    case Add(cpu, dir, ticks) => (Update(m, FreeFrom(m.slots, 1), Slot(RUNNING, ticks, cpu, dir)), None)
    case Destroy(pid) =>
      (m.(slots := Destroyed(m.slots, pid), interrupts := m.interrupts && m.slots[pid].value.state == STOPPED), None)
    case Disable => (m.(interrupts := false), None)
    case Enable => (m.(interrupts := true), None)
    case Modify(dir) =>
      if m.saved.Some? then (m, None)
      else (m.(saved := Some(m.loaded), loaded := dir, before := m.interrupts, interrupts := false), None)
    case Modified =>
      if m.saved.None? then (m, None)
      else (m.(loaded := m.saved.value, saved := None, interrupts := m.before), None)
  }

  // ----- what every run keeps

  /**
   Once a first task has been switched to, the current task exists and is running, and
   its directory is loaded, or will be again after the bracket. Brackets run with
   interrupts disabled.
   */
  predicate RunInv(m: Sched) {
    && 1 < |m.slots| && m.slots[0].None? && m.slice > 0
    && (m.interrupts ==> m.saved.None?)
    && (m.current != 0 ==>
          && Has(m.slots, m.current, Some(RUNNING))
          && m.slots[m.current].value.dir == if m.saved.Some? then m.saved.value else m.loaded)
    && m.current < |m.slots|
  }

  lemma NextRuns(m: Sched)
    requires RunInv(m)
    ensures var next := NextTask(m);
            && (next != 0 ==> Has(m.slots, next, Some(RUNNING)))
            && (AnotherRuns(m) ==> next != 0 && next != m.current)
            && (m.current != 0 ==> next != 0)
  {
  }

  lemma StepInv(m: Sched, e: Event)
    requires RunInv(m) && Legal(m, e)
    ensures RunInv(Step(m, e).0) && |Step(m, e).0.slots| == |m.slots| && Step(m, e).0.slice == m.slice
  {
    hide Next;
    if e.Tick? || e.Exit? {
      NextRuns(m);
    }
  }

  // ----- histories

  /** What is known of a task from outside: where it is to be resumed, and in which directory it runs. */
  datatype Past = Past(cpu: nat, dir: nat)

  /**
   For every task, the CPU state it was created with or last switched away from with, and
   the directory it was created with; only events and changes of the current task are
   looked at.
   */
  function Record(hist: map<nat, Past>, m: Sched, e: Event): map<nat, Past>
    requires RunInv(m) && Legal(m, e)
  {
    match e
    case Add(cpu, dir, ticks) => hist[FreeFrom(m.slots, 1) := Past(cpu, dir)]
    case Tick(cpu) =>
      if m.current in hist && Step(m, e).0.current != m.current
      then hist[m.current := hist[m.current].(cpu := cpu)] else hist
    case _ => hist
  }

  /** Every task that can be resumed would be resumed where its history says, and in its own directory. */
  ghost predicate Faithful(m: Sched, hist: map<nat, Past>) {
    forall q: nat :: Has(m.slots, q, Some(RUNNING)) ==>
      && q in hist && m.slots[q].value.dir == hist[q].dir
      && (q != m.current ==> m.slots[q].value.cpu == hist[q].cpu)
  }

  /**
   What an event resumes: the interrupted state itself, or the last state of the task
   switched to, with the directory of that task loaded.
   */
  predicate ResumesRightly(m: Sched, hist: map<nat, Past>, e: Event)
    requires RunInv(m) && Legal(m, e)
  {
    var (m1, cpu) := Step(m, e);
    && (e.Tick? && m1.current == m.current ==> cpu == Some(e.cpu))
    && (m1.current != m.current ==>
          m1.current in hist && cpu == Some(hist[m1.current].cpu) && m1.loaded == hist[m1.current].dir)
    && (e.Exit? ==> m1.current != m.current)
  }

  /** Outside a bracket the directory of the current task is loaded. */
  predicate RunsInOwn(m: Sched, hist: map<nat, Past>) {
    m.current != 0 && m.saved.None? ==> m.current in hist && m.loaded == hist[m.current].dir
  }

  lemma StepFaithful(m: Sched, hist: map<nat, Past>, e: Event)
    requires RunInv(m) && Legal(m, e) && Faithful(m, hist)
    ensures Faithful(Step(m, e).0, Record(hist, m, e)) && ResumesRightly(m, hist, e)
    ensures RunsInOwn(Step(m, e).0, Record(hist, m, e))
  {
    hide Next;
    StepInv(m, e);
    if e.Tick? || e.Exit? {
      NextRuns(m);
    }
  }

  /** Every event of the run can happen where it does. */
  ghost predicate LegalRun(m: Sched, es: seq<Event>)
    requires RunInv(m)
    decreases |es|
  {
    es == [] || (Legal(m, es[0]) && (StepInv(m, es[0]); LegalRun(Step(m, es[0]).0, es[1..])))
  }

  function Run(m: Sched, es: seq<Event>): (m1: Sched)
    requires RunInv(m) && LegalRun(m, es)
    ensures RunInv(m1) && |m1.slots| == |m.slots| && m1.slice == m.slice
    decreases |es|
  {
    if es == [] then m
    else
      StepInv(m, es[0]);
      Run(Step(m, es[0]).0, es[1..])
  }

  /**
   Every event of the run resumes the right CPU state and leaves the current task in its own
   directory, and none destroys the current task.
   */
  ghost predicate RightRun(m: Sched, hist: map<nat, Past>, es: seq<Event>)
    requires RunInv(m) && LegalRun(m, es)
    decreases |es|
  {
    es == [] ||
    (StepInv(m, es[0]);
     && ResumesRightly(m, hist, es[0])
     && RunsInOwn(Step(m, es[0]).0, Record(hist, m, es[0]))
     && (m.current != 0 ==> Step(m, es[0]).0.slots[m.current].Some?)
     && RightRun(Step(m, es[0]).0, Record(hist, m, es[0]), es[1..]))
  }

  lemma {:induction false} RunsAreRight(m: Sched, hist: map<nat, Past>, es: seq<Event>)
    requires RunInv(m) && LegalRun(m, es) && Faithful(m, hist)
    ensures RightRun(m, hist, es) && RunInv(Run(m, es))
    decreases |es|
  {
    hide Step, Record, Faithful, ResumesRightly, RunsInOwn, RunInv;
    if es != [] {
      StepInv(m, es[0]);
      StepFaithful(m, hist, es[0]);
      if m.current != 0 { CurrentSurvives(m, es[0]); }
      RunsAreRight(Step(m, es[0]).0, Record(hist, m, es[0]), es[1..]);
    }
  }

  lemma CurrentSurvives(m: Sched, e: Event)
    requires RunInv(m) && Legal(m, e) && m.current != 0
    ensures |Step(m, e).0.slots| == |m.slots| && m.current < |m.slots| && Step(m, e).0.slots[m.current].Some?
  {
    hide Next;
    NextRuns(m);
  }

  // ----- brackets

  /** Whether an event leaves interrupts enabled. */
  lemma InterruptsExact(m: Sched, e: Event)
    requires RunInv(m) && Legal(m, e)
    ensures var m1 := Step(m, e).0;
            match e
            case Tick(_) => m1.interrupts
            case Exit => m1.interrupts
            case Add(_, _, _) => m1.interrupts == m.interrupts
            case Destroy(pid) => m1.interrupts == (m.interrupts && m.slots[pid].value.state == STOPPED)
            case Disable => !m1.interrupts
            case Enable => m1.interrupts
            case Modify(_) => !m1.interrupts
            case Modified => m1.interrupts == if m.saved.Some? then m.before else m.interrupts
  {
    hide Next;
    if e.Tick? || e.Exit? {
      NextRuns(m);
    }
  }

  /**
   Inside a bracket the directory asked for stays loaded and interrupts stay disabled, so
   that no task is switched to, whatever else happens.
   */
  lemma {:induction false} InBracket(m: Sched, es: seq<Event>)
    requires RunInv(m) && m.saved.Some? && LegalRun(m, es) && Modified !in es
    ensures var m1 := Run(m, es);
            && m1.loaded == m.loaded && m1.saved == m.saved && m1.before == m.before && m1.current == m.current
            && !m1.interrupts && (forall e <- es :: !e.Tick? && !e.Exit?)
    decreases |es|
  {
    if es != [] {
      StepInv(m, es[0]);
      InBracket(Step(m, es[0]).0, es[1..]);
    }
  }

  /** The bracket loads a directory, and at its end directory, task and interrupts are as they were. */
  lemma Bracket(m: Sched, dir: nat, es: seq<Event>)
    requires RunInv(m) && m.saved.None? && LegalRun(Entered(m, dir), es) && Modified !in es
    ensures var m1, m2 := Entered(m, dir), Run(Entered(m, dir), es);
            && m1.loaded == dir == m2.loaded && !m1.interrupts && !m2.interrupts
            && (var m3 := Step(m2, Modified).0;
                m3.loaded == m.loaded && m3.saved.None? && m3.current == m.current && m3.interrupts == m.interrupts)
  {
    InBracket(Entered(m, dir), es);
  }

  function Entered(m: Sched, dir: nat): (m1: Sched)
    requires RunInv(m)
    ensures RunInv(m1)
  {
    StepInv(m, Modify(dir));
    Step(m, Modify(dir)).0
  }

  /**
   The legality of an exit is exact: the task that is current afterwards is running if and
   only if another one was.
   */
  lemma ExitNeedsAnother(m: Sched)
    requires RunInv(m) && m.current != 0
    ensures var m1 := ExitTask(m).0;
            && (Has(m1.slots, m1.current, Some(RUNNING)) <==> AnotherRuns(m))
            && (!AnotherRuns(m) ==> m1.current == m.current && Finalized(m1.slots)[m.current].None?)
  {
    hide Next;
    NextRuns(m);
    if !AnotherRuns(m) { OnlyOne(m); }
  }

  lemma OnlyOne(m: Sched)
    requires RunInv(m) && m.current != 0 && !AnotherRuns(m)
    ensures NextTask(m) == m.current
  {
    var next := NextTask(m);
    assert Has(m.slots, next, Some(RUNNING)) || next == 0;
    assert Has(m.slots, m.current, Some(RUNNING));
  }

  // ----- fairness

  /** Ticks left until the slice of the current task ends, if nothing else ends it. */
  function Wait(m: Sched): (w: nat)
    requires RunInv(m)
    ensures w > 0
  {
    if m.current == 0 then 1 else Max(1, m.slots[m.current].value.ticks)
  }

  function Away(m: Sched, q: nat): int {
    Dist(|m.slots|, m.current, q)
  }

  /** Ticks until task q has its turn, if every task before it is there and uses its slice up. */
  function Patience(m: Sched, q: nat): int
    requires RunInv(m)
  {
    Wait(m) + (Away(m, q) - 1) * m.slice
  }

  /** Task q is ready but not the current one. */
  predicate Waits(m: Sched, q: nat) {
    q != m.current && Has(m.slots, q, Some(RUNNING))
  }

  /** Whenever the current task changes while q waits, the way to q gets shorter. */
  lemma SwitchShortens(m: Sched, e: Event, q: nat)
    requires RunInv(m) && Legal(m, e) && Waits(m, q) && q != Step(m, e).0.current
    ensures var m1 := Step(m, e).0;
            && RunInv(m1) && Waits(m1, q) && |m1.slots| == |m.slots| && m1.slice == m.slice
            && (m1.current != m.current ==> Away(m1, q) < Away(m, q) && Wait(m1) == m.slice)
            && (m1.current == m.current ==> Wait(m1) == Wait(m) - if e.Tick? then 1 else 0)
            && (e.Exit? || (e.Tick? && Expires(m)) ==> m1.current != m.current)
  {
    hide Next, Dist;
    StepInv(m, e);
    if e.Tick? || e.Exit? {
      NextRuns(m);
      var next := NextTask(m);
      NextCloser(m, q);
    }
  }

  lemma NextCloser(m: Sched, q: nat)
    requires RunInv(m) && Waits(m, q)
    ensures var next := NextTask(m);
            && AnotherRuns(m) && 0 < next != m.current
            && (next != q ==> 0 < Dist(|m.slots|, next, q) < Away(m, q))
  {
    var n, next := |m.slots|, NextTask(m);
    NextRuns(m);
    assert Has(m.slots, q, Some(RUNNING));
    if next != q {
      DistSplit(n, m.current, next, q);
    }
  }

  lemma PatienceShrinks(m: Sched, e: Event, q: nat)
    requires RunInv(m) && Legal(m, e) && Waits(m, q) && q != Step(m, e).0.current
    ensures var m1 := Step(m, e).0;
            RunInv(m1) && Patience(m1, q) + (if e.Tick? then 1 else 0) <= Patience(m, q)
  {
    hide Step, Next, Dist, RunInv, Legal;
    SwitchShortens(m, e, q);
    var m1 := Step(m, e).0;
    if m1.current != m.current {
      assert Away(m1, q) * m.slice <= (Away(m, q) - 1) * m.slice;
      assert Patience(m1, q) == Away(m1, q) * m.slice;
    }
  }

  function TickCount(es: seq<Event>): nat {
    if es == [] then 0 else (if es[0].Tick? then 1 else 0) + TickCount(es[1..])
  }

  /** How often the current task changes. */
  function Switches(m: Sched, es: seq<Event>): nat
    requires RunInv(m) && LegalRun(m, es)
    decreases |es|
  {
    if es == [] then 0
    else
      StepInv(m, es[0]);
      var m1 := Step(m, es[0]).0;
      (if m1.current != m.current then 1 else 0) + Switches(m1, es[1..])
  }

  ghost predicate NeverCurrent(m: Sched, es: seq<Event>, q: nat)
    requires RunInv(m) && LegalRun(m, es)
    decreases |es|
  {
    q != m.current && (es == [] || (StepInv(m, es[0]); NeverCurrent(Step(m, es[0]).0, es[1..], q)))
  }

  /**
   As long as a ready task is kept waiting, switches use up its distance and ticks use up
   its patience, whatever tasks are created, exit and are destroyed meanwhile.
   */
  lemma {:induction false} Fair(m: Sched, es: seq<Event>, q: nat)
    requires RunInv(m) && LegalRun(m, es) && Has(m.slots, q, Some(RUNNING)) && NeverCurrent(m, es, q)
    ensures RunInv(Run(m, es)) && Waits(Run(m, es), q) && |Run(m, es).slots| == |m.slots|
    ensures Switches(m, es) + Away(Run(m, es), q) <= Away(m, q)
    ensures TickCount(es) + Patience(Run(m, es), q) <= Patience(m, q)
    decreases |es|
  {
    hide Step, RunInv, Legal, Dist, Patience, Has;
    if es != [] {
      SwitchShortens(m, es[0], q);
      PatienceShrinks(m, es[0], q);
      Fair(Step(m, es[0]).0, es[1..], q);
    }
  }

  /** So a ready task runs after at most |slots| - 1 slices, and before its patience is used up. */
  lemma TurnComes(m: Sched, es: seq<Event>, q: nat)
    requires RunInv(m) && LegalRun(m, es) && Waits(m, q)
    requires Switches(m, es) >= |m.slots| - 1 || TickCount(es) >= Patience(m, q)
    ensures !NeverCurrent(m, es, q)
  {
    hide Step, RunInv, Legal, Away, Patience, Has;
    if NeverCurrent(m, es, q) {
      Fair(m, es, q);
      PatienceBounds(m, q);
      PatienceBounds(Run(m, es), q);
    }
  }

  /**
   In the kernel's table, with its slices of one tick: within 1023 changes of task, or 1022
   ticks after the current slice.
   */
  lemma TurnComesInTable(m: Sched, es: seq<Event>, q: nat)
    requires RunInv(m) && LegalRun(m, es) && Waits(m, q) && |m.slots| == 1024 && m.slice == 1
    requires Switches(m, es) >= 1023 || TickCount(es) >= Wait(m) + 1022
    ensures !NeverCurrent(m, es, q)
  {
    hide Step, RunInv, Legal, Wait, Has;
    PatienceBounds(m, q);
    TurnComes(m, es, q);
  }

  lemma PatienceBounds(m: Sched, q: nat)
    requires RunInv(m) && Waits(m, q)
    ensures 0 < Away(m, q) < |m.slots| && Patience(m, q) > 0
  {
    hide Wait;
    assert (Away(m, q) - 1) * m.slice >= 0;
  }

  // ----- a task that was alone

  ghost predicate AllTicks(es: seq<Event>) {
    forall e <- es :: e.Tick?
  }

  lemma SameNext(t: seq<Option<Slot>>, t1: seq<Option<Slot>>, pid: nat, want: Option<State>)
    requires pid < |t| == |t1| && forall q: nat :: Has(t1, q, want) <==> Has(t, q, want)
    ensures Next(t1, pid, want) == Next(t, pid, want)
  {
    hide Next, Has, Dist;
    NextHas(t, pid, want);
    NextUnique(t1, pid, want, Next(t, pid, want));
  }

  lemma NextHas(t: seq<Option<Slot>>, pid: nat, want: Option<State>)
    requires pid < |t|
    ensures IsNext(t, pid, want, Next(t, pid, want))
  {
  }

  /** One tick while another task is ready: the last one of the slice switches, every other one only counts. */
  lemma TickStep(m: Sched, e: Event, q: nat)
    requires RunInv(m) && Legal(m, e) && e.Tick? && m.current != 0 && Waits(m, q)
    ensures var m1 := Step(m, e).0;
            && RunInv(m1) && NextTask(m) != m.current
            && if Wait(m) == 1 then m1.current == NextTask(m)
               else m1.current == m.current && Wait(m1) == Wait(m) - 1 && Waits(m1, q) && NextTask(m1) == NextTask(m)
  {
    hide Next;
    NextRuns(m);
    StepInv(m, e);
    var m1 := Step(m, e).0;
    if m1.current == m.current {
      SameNext(m.slots, m1.slots, m.current, Some(RUNNING));
    }
  }

  /** While another task is ready, the current one keeps the processor for exactly Wait ticks. */
  lemma {:induction false} WaitExact(m: Sched, es: seq<Event>, q: nat)
    requires RunInv(m) && LegalRun(m, es) && m.current != 0 && Waits(m, q) && AllTicks(es)
    ensures |es| < Wait(m) ==> Run(m, es).current == m.current
    ensures |es| == Wait(m) ==> Run(m, es).current == NextTask(m) != m.current
    decreases |es|
  {
    hide NextTask, Step, RunInv, Legal, Waits, Wait;
    if es != [] && |es| <= Wait(m) {
      TickStep(m, es[0], q);
      if Wait(m) > 1 {
        WaitExact(Step(m, es[0]).0, es[1..], q);
      }
    }
  }

  /** Alone, a task counts its ticks down past zero: its slice is never refilled. */
  lemma {:induction false} AloneTicks(m: Sched, es: seq<Event>)
    requires RunInv(m) && LegalRun(m, es) && m.current != 0 && !AnotherRuns(m) && AllTicks(es)
    ensures var m1 := Run(m, es);
            && RunInv(m1) && m1.current == m.current && !AnotherRuns(m1) && |m1.slots| == |m.slots|
            && m1.slots[m1.current].value.ticks == (m.slots[m.current].value.ticks - |es|) % WORD
            && (forall q: nat :: q < |m.slots| && q != m.current ==> m1.slots[q] == m.slots[q])
    decreases |es|
  {
    hide Next;
    if es != [] {
      OnlyOne(m);
      var m1 := Step(m, es[0]).0;
      StepInv(m, es[0]);
      assert forall q: nat :: Has(m1.slots, q, Some(RUNNING)) <==> Has(m.slots, q, Some(RUNNING));
      AloneTicks(m1, es[1..]);
      Minus(m.slots[m.current].value.ticks, |es|);
    }
  }

  lemma Minus(t: Ticks, n: nat)
    requires n > 0
    ensures (Decrement(t) - (n - 1)) % WORD == (t - n) % WORD
  {
    if t == 0 {
      assert Decrement(t) - (n - 1) == (t - n) + WORD;
    } else {
      assert Decrement(t) == t - 1;
    }
  }

  function Joined(m: Sched, cpu: nat, dir: nat, ticks: Ticks): (m1: Sched)
    requires RunInv(m) && Legal(m, Add(cpu, dir, ticks))
    ensures RunInv(m1)
  {
    StepInv(m, Add(cpu, dir, ticks));
    Step(m, Add(cpu, dir, ticks)).0
  }

  /** Ticks left to a task n ticks after it began, alone, the last tick of its slice. */
  function Left(n: nat): nat {
    Max(1, (1 - n) % WORD)
  }

  /**
   A task created after the only task has been alone for some ticks of its slice of 1
   waits for all the ticks that one has left: after two ticks alone, 2^32 - 1 of them.
   */
  lemma NewcomerWaits(m: Sched, alone: seq<Event>, cpu: nat, dir: nat, ticks: Ticks, es: seq<Event>)
    requires RunInv(m) && m.current != 0 && !AnotherRuns(m) && m.slots[m.current].value.ticks == 1
    requires LegalRun(m, alone) && AllTicks(alone) && Legal(Run(m, alone), Add(cpu, dir, ticks))
    requires LegalRun(Joined(Run(m, alone), cpu, dir, ticks), es) && AllTicks(es)
    ensures var m2 := Joined(Run(m, alone), cpu, dir, ticks);
            var left := Left(|alone|);
            && (|es| < left ==> Run(m2, es).current == m.current)
            && (|es| == left ==> Run(m2, es).current == FreeFrom(Run(m, alone).slots, 1) != m.current)
            && (|alone| == 2 ==> left == WORD - 1)
  {
    hide NextTask, Dist, Joined, FreeFrom, Run, LegalRun, RunInv, AnotherRuns, AllTicks, Legal, Waits, Wait, Left;
    AloneTicks(m, alone);
    AloneWait(m, alone);
    var m1 := Run(m, alone);
    OnlyTwo(m1, cpu, dir, ticks);
    WaitExact(Joined(m1, cpu, dir, ticks), es, FreeFrom(m1.slots, 1));
  }

  lemma AloneWait(m: Sched, alone: seq<Event>)
    requires RunInv(m) && LegalRun(m, alone) && m.current != 0 && !AnotherRuns(m) && AllTicks(alone)
    requires m.slots[m.current].value.ticks == 1
    ensures Wait(Run(m, alone)) == Left(|alone|) && (|alone| == 2 ==> Left(|alone|) == WORD - 1)
  {
    hide Run, LegalRun, AnotherRuns, AllTicks;
    AloneTicks(m, alone);
  }

  lemma OnlyTwo(m: Sched, cpu: nat, dir: nat, ticks: Ticks)
    requires RunInv(m) && m.current != 0 && !AnotherRuns(m) && Legal(m, Add(cpu, dir, ticks))
    ensures var m1, q := Joined(m, cpu, dir, ticks), FreeFrom(m.slots, 1);
            RunInv(m1) && Waits(m1, q) && NextTask(m1) == q && m1.current == m.current && Wait(m1) == Wait(m)
  {
    hide Next;
    var m1, q := Step(m, Add(cpu, dir, ticks)).0, FreeFrom(m.slots, 1);
    assert Has(m1.slots, q, Some(RUNNING));
    NextRuns(m1);
    assert Has(m1.slots, NextTask(m1), Some(RUNNING));
    assert forall p: nat :: Has(m1.slots, p, Some(RUNNING)) && p != q ==> Has(m.slots, p, Some(RUNNING));
  }
}
