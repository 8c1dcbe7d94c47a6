/**
 Conservation: whole runs of creating, stopping, switching between and destroying kernel
 tasks, user tasks and ELF programs.
 */
module TaskRuns {
  import opened Common
  import opened Pmm
  import opened Paging
  import opened Space
  import opened Ranges
  import opened Allocation
  import opened Directories
  import opened TaskMemory
  import opened Elf
  import opened ElfTasks
  import opened Boot
  import opened Shortages

  /** The tasks, which of them have been stopped, and the files of those made from an ELF file. */
  datatype Sys = Sys(s: St, tasks: set<Task>, stopped: set<Task>, programs: map<Task, Program>)

  datatype Op =
    | Spawn(kernelLen: nat, userLen: nat)                         // a task that gets a new directory
    | SpawnIn(p: Option<Program>, kernelLen: nat, userLen: nat)   // one that is given a directory, with its program
    | Stop(t: Task)
    | SwitchTo(t: Task)
    | Reap(t: Task)

  function ProgramOf(y: Sys, t: Task): Option<Program> {
    if t in y.programs then Some(y.programs[t]) else None
  }

  /** A new task and, if it has one, its program. */
  function Joined(y: Sys, s1: St, t: Task, p: Option<Program>): Sys {
    Sys(s1, y.tasks + {t}, y.stopped, if p.Some? then y.programs[t := p.value] else y.programs)
  }

  function Left(y: Sys, s1: St, t: Task): Sys {
    Sys(s1, y.tasks - {t}, y.stopped - {t}, y.programs - {t})
  }

  ghost function Step(y: Sys, op: Op): Sys
    requires Legal(y, op)
  {
    match op
    case Spawn(kernelLen, userLen) =>
      var (s1, t) := CreateTask(y.s, kernelLen, userLen);
      Joined(y, s1, t, None)
    case SpawnIn(p, kernelLen, userLen) =>
      var (s1, t) := CreateIn(y.s, p, kernelLen, userLen);
      Joined(y, s1, t, p)
    case Stop(t) => y.(stopped := y.stopped + {t})
    case SwitchTo(t) => y.(s := Load(y.s, t.dir))
    case Reap(t) => Left(y, DestroyAny(y.s, ProgramOf(y, t), t), t)
  }

  /** Existing tasks are switched to while they are not stopped, and destroyed once they are and another one runs. */
  ghost predicate Legal(y: Sys, op: Op) {
    match op
    case Spawn(kernelLen, userLen) => kernelLen < WORD && userLen < WORD
    case SpawnIn(p, kernelLen, userLen) => kernelLen < WORD && userLen < WORD && (p.Some? ==> Sound(p.value))
    case Stop(t) => t in y.tasks
    case SwitchTo(t) => t in y.tasks && t !in y.stopped
    case Reap(t) => t in y.stopped && t.dir != y.s.cr3 && (t in y.programs ==> Sound(y.programs[t]))
  }

  ghost function Run(y: Sys, ops: seq<Op>): Sys
    requires CleanRun(y, ops)
    decreases |ops|
  {
    if ops == [] then y else Run(Step(y, ops[0]), ops[1..])
  }

  ghost predicate CleanRun(y: Sys, ops: seq<Op>)
    decreases |ops|
  {
    ops == [] || (Legal(y, ops[0]) && Step(y, ops[0]).s.clean && CleanRun(Step(y, ops[0]), ops[1..]))
  }

  /**
   A task holds its memory, its program's segments among it, each with the protection
   meant for it, and has nothing mapped through entry 0.
   */
  ghost predicate TaskInv(y: Sys, t: Task) {
    && TaskHeld(y.s, t) && WellTagged(t) && t.rec.len > 0 && Runs(t, ProgramOf(y, t)) && StacksMarked(t)
    && !y.s.mem[t.dir][0].pr
  }

  /** All tasks are in order, and no two of them share a directory or an allocation. */
  ghost predicate SysInv(y: Sys) {
    && Inv(y.s) && y.s.saved == 0
    && y.stopped <= y.tasks && y.programs.Keys <= y.tasks
    && (forall t <- y.programs :: Sound(y.programs[t]))
    && (forall t <- y.tasks :: TaskInv(y, t))
    && (forall t <- y.tasks, u <- y.tasks :: t != u ==> Apart(t, u))
  }

  ghost predicate SameAt(s: St, s1: St, f: Frame) {
    f in s.own && f in s1.own && s1.own[f] == s.own[f]
  }

  ghost predicate OwnedBy(tasks: set<Task>, f: Frame, role: Role) {
    exists t <- tasks :: Owns(t, f, role)
  }

  /**
   The books between two moments of a run: a frame owned later was owned for the same
   purpose before, or is a kernel page table, or belongs to a task created since; a
   frame owned before still is, or belonged to a task destroyed since.
   */
  ghost predicate Ledger(y0: Sys, y: Sys) {
    && Steady(y0.s, y.s)
    && (forall f <- y.s.own ::
          SameAt(y0.s, y.s, f) || y.s.own[f].KernelTable? || OwnedBy(y.tasks - y0.tasks, f, y.s.own[f]))
    && (forall f <- y0.s.own ::
          || (SameAt(y0.s, y.s, f) && !OwnedBy(y.tasks - y0.tasks, f, y.s.own[f]))
          || OwnedBy(y0.tasks - y.tasks, f, y0.s.own[f]))
    && (forall t <- y.tasks - y0.tasks :: t.rec.tag >= y0.s.next && t.rec.len > 0)
  }

  lemma LedgerRefl(y: Sys)
    ensures Ledger(y, y)
  {
  }

  lemma SysInvParts(y: Sys, t: Task)
    requires SysInv(y) && t in y.tasks
    ensures Inv(y.s) && y.s.saved == 0 && TaskHeld(y.s, t) && WellTagged(t) && t.rec.len > 0 && Runs(t, ProgramOf(y, t))
    ensures IsDir(y.s, t.dir) && !y.s.mem[t.dir][0].pr && StacksMarked(t)
    ensures forall q <- Parts(t) :: q.len > 0 ==> q.tag < y.s.next
    ensures t in y.programs ==> Sound(y.programs[t])
  {
    hide Inv, Held, WellTagged;
    InParts(t);
    forall q | q in Parts(t) && q.len > 0
      ensures q.tag < y.s.next
    {
      if q == t.rec || q == t.kstack {
        HeldTags(y.s, t.dir, q, false);
      } else {
        HeldTags(y.s, t.dir, q, true);
      }
    }
  }

  /** Runs can start when vmm_init has finished, whichever reading of destroying directories they follow. */
  lemma StartsAfterBoot(mem: Mem, marks: Marks, highest: nat, careful: bool)
    requires HighestBounds(marks, highest) && highest < PAGE_NUMBER && InitVmm(mem, marks, highest).clean
    requires FirstDirectory(mem, marks, highest).highest < 1023 * ENTRIES
    ensures SysInv(Sys(InitVmm(mem, marks, highest).(careful := careful), {}, {}, map[]))
  {
    hide Inv, Trans, FirstDirectory, MapPage, HighestBounds;
    InitMapsKernel(mem, marks, highest, 0);
    var s := FirstDirectory(mem, marks, highest);
    IdentityMapCleans(s, s.highest + 1);
    FirstInv(mem, marks, highest);
    IdentityMapExact(s, s.highest + 1);
    NothingSaved(mem, marks, highest);
    EitherReading(InitVmm(mem, marks, highest), careful);
  }

  /**
   And it does finish with frames for the first directory and the tables of all pages up to
   the highest kernel page.
   */
  lemma StartsWithFrames(mem: Mem, marks: Marks, highest: nat, careful: bool)
    requires HighestBounds(marks, highest) && highest < PAGE_NUMBER
    requires FirstDirectory(mem, marks, highest).highest < 1023 * ENTRIES
    requires EnoughFrames(marks, 2 + FirstDirectory(mem, marks, highest).highest / ENTRIES)
    ensures SysInv(Sys(InitVmm(mem, marks, highest).(careful := careful), {}, {}, map[]))
  {
    hide SysInv, InitVmm, FirstDirectory, HighestBounds, Unused;
    InitTakes(mem, marks, highest);
    StartsAfterBoot(mem, marks, highest, careful);
  }

  lemma EitherReading(s: St, careful: bool)
    requires Inv(s)
    ensures Inv(s.(careful := careful))
  {
  }

  lemma NothingSaved(mem: Mem, marks: Marks, highest: nat)
    ensures FirstDirectory(mem, marks, highest).saved == 0
  {
  }

  // ----- creating

  /** What a new task brings, however it was created. */
  ghost predicate Newcomer(y: Sys, s1: St, t: Task, p: Option<Program>) {
    && Adds(y.s, s1, t) && s1.saved == 0 && TaskHeld(s1, t) && WellTagged(t) && NewTags(t, y.s.next) && t.rec.len > 0
    && Runs(t, p) && (p.Some? ==> Sound(p.value)) && t.dir !in y.s.own && !s1.mem[t.dir][0].pr && StacksMarked(t)
  }

  lemma SpawnNewcomer(y: Sys, kernelLen: nat, userLen: nat)
    requires SysInv(y) && Legal(y, Spawn(kernelLen, userLen)) && Step(y, Spawn(kernelLen, userLen)).s.clean
    ensures var (s1, t) := CreateTask(y.s, kernelLen, userLen); Newcomer(y, s1, t, None)
  {
    hide Inv, CreateTask, Adds, TaskHeld, WellTagged, TaskInv;
    var (s1, t) := CreateTask(y.s, kernelLen, userLen);
    CreateTaskExact(y.s, kernelLen, userLen);
    assert t.(image := []) == t;
  }

  lemma SpawnInNewcomer(y: Sys, p: Option<Program>, kernelLen: nat, userLen: nat)
    requires SysInv(y) && Legal(y, SpawnIn(p, kernelLen, userLen)) && Step(y, SpawnIn(p, kernelLen, userLen)).s.clean
    ensures var (s1, t) := CreateIn(y.s, p, kernelLen, userLen); Newcomer(y, s1, t, p)
  {
    hide Inv, CreateIn, Adds, TaskHeld, WellTagged, TaskInv, Runs;
    CreateInExact(y.s, p, kernelLen, userLen);
  }

  lemma JoinInv(y: Sys, s1: St, t: Task, p: Option<Program>)
    requires SysInv(y) && Newcomer(y, s1, t, p)
    ensures SysInv(Joined(y, s1, t, p))
  {
    hide Inv, Held, Owns, Adds, WellTagged, TaskHeld, Runs;
    var y1 := Joined(y, s1, t, p);
    AddsInv(y.s, s1, t);
    NoDirZero(y.s);
    AddsFirst(y.s, s1, t);
    assert t !in y.tasks by { if t in y.tasks { SysInvParts(y, t); } }
    forall u | u in y.tasks
      ensures TaskInv(y1, u) && Apart(t, u) && Apart(u, t)
    {
      SysInvParts(y, u);
      TaskKept(y.s, s1, u, t);
      assert ProgramOf(y1, u) == ProgramOf(y, u);
    }
  }

  lemma JoinLedger(y0: Sys, y: Sys, s1: St, t: Task, p: Option<Program>)
    requires SysInv(y0) && SysInv(y) && Ledger(y0, y) && Newcomer(y, s1, t, p)
    ensures Ledger(y0, Joined(y, s1, t, p))
  {
    hide Inv, Held, Owns, WellTagged, TaskHeld, Preserves, TaskInv, Runs, NewTags, FirstKept;
    SteadyTrans(y0.s, y.s, s1);
    var y1 := Joined(y, s1, t, p);
    InParts(t);
    if t in y0.tasks {
      SysInvParts(y0, t);
      NewRecord(t, y.s.next);
    }
    NewRecord(t, y.s.next);
    assert y1.tasks - y0.tasks == (y.tasks - y0.tasks) + {t};
    forall f | f in y.s.own
      ensures !Owns(t, f, y.s.own[f])
    {
      FreshTask(y.s, t, f);
    }
    SteadyNext(y0.s, y.s);
    hide Steady;
    forall f | f in y0.s.own
      ensures || (SameAt(y0.s, s1, f) && !OwnedBy(y1.tasks - y0.tasks, f, s1.own[f]))
              || OwnedBy(y0.tasks - y1.tasks, f, y0.s.own[f])
    {
      if OwnedBy(y0.tasks - y.tasks, f, y0.s.own[f]) {
        var u :| u in y0.tasks - y.tasks && Owns(u, f, y0.s.own[f]);
        assert u in y0.tasks - y1.tasks;
      }
    }
    forall f | f in s1.own
      ensures SameAt(y0.s, s1, f) || s1.own[f].KernelTable? || OwnedBy(y1.tasks - y0.tasks, f, s1.own[f])
    {
      if f in y.s.own && OwnedBy(y.tasks - y0.tasks, f, y.s.own[f]) {
        var u :| u in y.tasks - y0.tasks && Owns(u, f, y.s.own[f]);
        assert u in y1.tasks - y0.tasks;
      }
    }
  }

  lemma NewRecord(t: Task, n: nat)
    requires NewTags(t, n) && t.rec.len > 0
    ensures t.rec.tag >= n
  {
    InParts(t);
  }

  lemma SteadyNext(s: St, s1: St)
    requires Steady(s, s1)
    ensures s.next <= s1.next
  {
  }

  // ----- stopping and switching

  lemma StopStep(y0: Sys, y: Sys, t: Task)
    requires SysInv(y) && Ledger(y0, y) && t in y.tasks
    ensures SysInv(Step(y, Stop(t))) && Ledger(y0, Step(y, Stop(t)))
  {
    hide Inv, TaskHeld, WellTagged, Runs, Apart;
    var y1 := Step(y, Stop(t));
    assert forall u <- y.tasks :: TaskInv(y, u) ==> TaskInv(y1, u);
  }

  lemma SwitchStep(y0: Sys, y: Sys, t: Task)
    requires SysInv(y) && Ledger(y0, y) && Legal(y, SwitchTo(t)) && Step(y, SwitchTo(t)).s.clean
    ensures SysInv(Step(y, SwitchTo(t))) && Ledger(y0, Step(y, SwitchTo(t)))
  {
    hide Inv, Held, Load, Owns, WellTagged, TaskHeld, Steady, Apart, Runs, Preserves, FirstKept;
    SysInvParts(y, t);
    var y1 := Step(y, SwitchTo(t));
    ShedLoad(y.s, t.dir, t);
    AddLoad(y.s, t.dir, t);
    SteadyTrans(y0.s, y.s, y1.s);
    forall u | u in y.tasks
      ensures TaskInv(y1, u)
    {
      SysInvParts(y, u);
      FirstAt(y.s, y1.s, u.dir);
      assert ProgramOf(y1, u) == ProgramOf(y, u);
    }
  }

  lemma FirstAt(s: St, s1: St, d: Frame)
    requires FirstKept(s, s1)
    ensures IsDir(s, d) && IsDir(s1, d) ==> s1.mem[d][0] == s.mem[d][0]
  {
  }

  // ----- destroying

  lemma ReapInv(y: Sys, t: Task)
    requires SysInv(y) && Legal(y, Reap(t)) && Step(y, Reap(t)).s.clean
    ensures SysInv(Step(y, Reap(t)))
  {
    hide Inv, Held, DestroyAny, Owns, WellTagged, TaskHeld, Steady, Apart, Runs, FirstKept;
    SysInvParts(y, t);
    DestroyAnyExact(y.s, ProgramOf(y, t), t);
    var y1 := Step(y, Reap(t));
    forall u | u in y1.tasks
      ensures TaskInv(y1, u)
    {
      SysInvParts(y, u);
      HeldDir(y1.s, u);
      FirstAt(y.s, y1.s, u.dir);
      assert ProgramOf(y1, u) == ProgramOf(y, u);
    }
  }

  lemma HeldDir(s: St, t: Task)
    ensures TaskHeld(s, t) ==> IsDir(s, t.dir)
  {
  }

  lemma ReapLedger(y0: Sys, y: Sys, t: Task)
    requires SysInv(y) && Ledger(y0, y) && Legal(y, Reap(t)) && Step(y, Reap(t)).s.clean
    ensures Ledger(y0, Step(y, Reap(t)))
  {
    hide Inv, Held, DestroyAny, Owns, WellTagged, TaskHeld, Steady, Apart, Runs, TaskInv, FirstKept;
    SysInvParts(y, t);
    DestroyAnyExact(y.s, ProgramOf(y, t), t);
    var y1 := Step(y, Reap(t));
    SteadyTrans(y0.s, y.s, y1.s);
    forall f | f in y1.s.own
      ensures SameAt(y0.s, y1.s, f) || y1.s.own[f].KernelTable? || OwnedBy(y1.tasks - y0.tasks, f, y1.s.own[f])
    {
      if f in y.s.own && OwnedBy(y.tasks - y0.tasks, f, y.s.own[f]) {
        var u :| u in y.tasks - y0.tasks && Owns(u, f, y.s.own[f]);
        assert y1.s.own[f] == y.s.own[f] ==> u in y1.tasks - y0.tasks;
      }
    }
    forall f | f in y0.s.own
      ensures || (SameAt(y0.s, y1.s, f) && !OwnedBy(y1.tasks - y0.tasks, f, y1.s.own[f]))
              || OwnedBy(y0.tasks - y1.tasks, f, y0.s.own[f])
    {
      if OwnedBy(y0.tasks - y.tasks, f, y0.s.own[f]) {
        var u :| u in y0.tasks - y.tasks && Owns(u, f, y0.s.own[f]);
        assert u in y0.tasks - y1.tasks;
      } else if !(f in y1.s.own && y1.s.own[f] == y.s.own[f]) {
        assert Owns(t, f, y.s.own[f]);
        assert t in y0.tasks - y1.tasks;
      }
    }
  }

  // ----- whole runs

  lemma {:induction false} RunLedger(y0: Sys, y: Sys, ops: seq<Op>)
    requires SysInv(y0) && SysInv(y) && Ledger(y0, y) && CleanRun(y, ops)
    ensures SysInv(Run(y, ops)) && Ledger(y0, Run(y, ops))
    decreases |ops|
  {
    hide SysInv, Ledger, CreateTask, CreateIn, DestroyAny, Load, Newcomer;
    if ops == [] {
      return;
    }
    match ops[0] {
      case Spawn(kernelLen, userLen) =>
        var (s1, t) := CreateTask(y.s, kernelLen, userLen);
        SpawnNewcomer(y, kernelLen, userLen);
        JoinInv(y, s1, t, None);
        JoinLedger(y0, y, s1, t, None);
      case SpawnIn(p, kernelLen, userLen) =>
        var (s1, t) := CreateIn(y.s, p, kernelLen, userLen);
        SpawnInNewcomer(y, p, kernelLen, userLen);
        JoinInv(y, s1, t, p);
        JoinLedger(y0, y, s1, t, p);
      case Stop(t) =>
        StopStep(y0, y, t);
      case SwitchTo(t) =>
        SwitchStep(y0, y, t);
      case Reap(t) =>
        ReapInv(y, t);
        ReapLedger(y0, y, t);
    }
    RunLedger(y0, Step(y, ops[0]), ops[1..]);
  }

  /** Switching to a task loads its directory. */
  lemma SwitchLoads(y: Sys, t: Task)
    requires SysInv(y) && Legal(y, SwitchTo(t)) && Step(y, SwitchTo(t)).s.clean
    ensures Step(y, SwitchTo(t)).s.cr3 == t.dir
  {
    hide Load;
    SysInvParts(y, t);
    LoadExact(y.s, t.dir);
  }

  /** The entry is found at its address, in the frames of the piece, writable only if it says so. */
  ghost predicate SegmentShown(s: St, d: Frame, g: Segment, q: Piece) {
    g.load && g.memsz > 0 ==>
      q.page * PAGE_SIZE == g.vaddr && q.len == g.memsz && Shows(s, d, q, g.writable, true)
  }

  /** In every state of a run each task has its memory with the protection meant for it, its program included. */
  lemma StaysProtected(y: Sys, ops: seq<Op>, t: Task)
    requires SysInv(y) && CleanRun(y, ops) && t in Run(y, ops).tasks
    ensures var y1 := Run(y, ops);
            && Protected(y1.s, t)
            && (t in y1.programs && Suitable(y1.programs[t].h) ==>
                  var segs := y1.programs[t].segs;
                  |t.image| == |segs|
                  && forall i :: 0 <= i < |segs| ==> SegmentShown(y1.s, t.dir, segs[i], t.image[i]))
  {
    hide SysInv, Run, CleanRun, Held, WellTagged, Protected, Shows;
    LedgerRefl(y);
    RunLedger(y, y, ops);
    var y1 := Run(y, ops);
    SysInvParts(y1, t);
    ProtectedParts(y1.s, t);
    if t in y1.programs && Suitable(y1.programs[t].h) {
      var segs := y1.programs[t].segs;
      forall i | 0 <= i < |segs|
        ensures SegmentShown(y1.s, t.dir, segs[i], t.image[i])
      {
        assert t.image[i] in t.image && Matches(segs[i], t.image[i]);
        if t.image[i].len > 0 { HeldShows(y1.s, t.dir, t.image[i]); }
      }
    }
  }

  lemma HeldShows(s: St, d: Frame, q: Piece)
    requires Held(s, d, q, true) && q.len > 0
    ensures Shows(s, d, q, q.writable, true)
  {
    hide Trans;
  }

  /**
   When a run ends with the tasks it began with, every frame has its earlier mark, save
   the frames of kernel page tables, which stay shared, and, in the code's reading of
   destroying directories, frame 0.
   */
  lemma Conservation(y: Sys, ops: seq<Op>, f: Frame)
    requires SysInv(y) && CleanRun(y, ops) && Run(y, ops).tasks == y.tasks && (f != 0 || y.s.careful)
    ensures var s1 := Run(y, ops).s;
            || s1.marks[f] == y.s.marks[f]
            || (f in s1.own && s1.own[f].KernelTable?)
  {
    hide SysInv, Owns, CleanRun, Run;
    LedgerRefl(y);
    RunLedger(y, y, ops);
    var y1 := Run(y, ops);
    FrameZero(y);
    FrameZero(y1);
    assert y1.tasks - y.tasks == {} && y.tasks - y1.tasks == {};
    assert f in y.s.own ==> SameAt(y.s, y1.s, f);
    assert f in y1.s.own ==> SameAt(y.s, y1.s, f) || y1.s.own[f].KernelTable?;
    if f in y.s.own { OwnedMark(y, f); OwnedMark(y1, f); }
  }

  lemma FrameZero(y: Sys)
    requires SysInv(y)
    ensures 0 !in y.s.own
  {
  }

  lemma OwnedMark(y: Sys, f: Frame)
    requires SysInv(y) && f in y.s.own
    ensures y.s.marks[f] == MarkOf(y.s.own[f])
  {
  }

  // ----- frame 0 in the code's reading

  /** Destroying any task leaves frame 0 unused: nothing was ever mapped through entry 0 of its directory. */
  lemma ReapFreesFrameZero(y: Sys, t: Task)
    requires SysInv(y) && !y.s.careful && Legal(y, Reap(t)) && Step(y, Reap(t)).s.clean
    ensures Step(y, Reap(t)).s.marks[0] == UNUSED
  {
    hide Inv, Held, DestroyTask, ElfUnload, Owns, WellTagged, TaskHeld, Steady, Apart, Runs, FirstKept;
    SysInvParts(y, t);
    var p, u := ProgramOf(y, t), t.(image := []);
    if p.None? {
      DestroyFreesFrameZero(y.s, t);
    } else {
      var s1 := ElfUnload(y.s, p.value.h, p.value.segs, t.dir);
      SameDestruction(s1, t);
      DestroyTaskClean(s1, u);
      UnloadCleans(y.s, p.value, t);
      UnloadProgram(y.s, p.value, t);
      FewerParts(t);
      HeldDir(s1, u);
      FirstAt(y.s, s1, t.dir);
      ShedsSteady(y.s, s1, t);
      DestroyFreesFrameZero(s1, u);
    }
  }

  lemma ShedsSteady(s: St, s1: St, t: Task)
    requires Sheds(s, s1, t)
    ensures s1.careful == s.careful && Inv(s1) && FirstKept(s, s1)
  {
  }

  lemma DestroyFreesFrameZero(s: St, t: Task)
    requires Inv(s) && s.saved == 0 && !s.careful && TaskHeld(s, t) && WellTagged(t) && t.dir != s.cr3
    requires !s.mem[t.dir][0].pr && DestroyTask(s, t).clean
    ensures DestroyTask(s, t).marks[0] == UNUSED
  {
    hide Inv, Load, Held, Destroy, FreePiece, Owns, WellTagged, Steady, TaskHeld, Apart, FirstKept;
    var s1 := Modify(s, t.dir);
    var s2 := FreePiece(s1, t.kstack);
    var s3 := FreePiece(s2, t.ustack);
    var s4 := Modified(s3);
    var s5 := Destroy(s4, t.dir);
    DestroyMiddle(s, t);
    ShedsTrans(s, s1, s2, t);
    ShedsTrans(s, s2, s3, t);
    ShedsTrans(s, s3, s4, t);
    ShedsSteady(s, s4, t);
    HeldDir(s, t);
    FirstAt(s, s4, t.dir);
    DestroyExact(s4, t.dir);
    FreeKeepsZero(s5, t.rec, t.dir);
  }

  lemma FreeKeepsZero(s: St, q: Piece, d: Frame)
    requires Inv(s) && Held(s, d, q, false) && FreePiece(s, q).clean
    ensures FreePiece(s, q).marks[0] == s.marks[0]
  {
    hide Inv, Trans, FreeRange;
    if q.len > 0 {
      SharedDomains();
      FreeExact(s, q.page, q.base, q.len);
    } else {
      assert FreeRange(s, q.page * PAGE_SIZE, 0) == s by { FreeNothing(s, q.page * PAGE_SIZE); }
    }
  }

  /** Once frame 0 is unused no task can be created, with or without a directory or program of its own. */
  lemma SpawnNeedsFrameZero(y: Sys, op: Op)
    requires SysInv(y) && y.s.marks[0] == UNUSED && Legal(y, op) && (op.Spawn? || op.SpawnIn?)
    ensures !Step(y, op).s.clean
  {
    hide Inv, Alloc, Create, Stacks, CreateTaskIn, LoadProgram;
    match op {
      case Spawn(kernelLen, userLen) =>
        if Step(y, op).s.clean {
          CreateTaskClean(y.s, kernelLen, userLen);
          AllocWithout(y.s, TASK_SIZE, KERNEL_FLAGS);
        }
      case SpawnIn(p, kernelLen, userLen) =>
        if Step(y, op).s.clean {
          CreateInClean(y.s, p, kernelLen, userLen);
          CreateWithout(y.s);
        }
    }
  }

  lemma AllocWithout(s: St, len: nat, flags: Flags)
    requires 0 < len <= PAGE_SIZE && s.marks[0] == UNUSED
    ensures !Alloc(s, len, flags).0.clean
  {
    FrameZeroStarvesSingleFrames(s.marks, len);
  }

  lemma CreateWithout(s: St)
    requires Inv(s) && s.marks[0] == UNUSED
    ensures !Create(s).0.clean
  {
    FrameZeroStarvesSingleFrames(s.marks, PAGE_SIZE);
    if Create(s).0.clean {
      CreateExact(s);
    }
  }

  /** So in the code's reading no task can be created after one has been destroyed. */
  lemma NoSpawnAfterReap(y: Sys, t: Task, op: Op)
    requires SysInv(y) && !y.s.careful && Legal(y, Reap(t)) && Step(y, Reap(t)).s.clean
    requires Legal(Step(y, Reap(t)), op) && (op.Spawn? || op.SpawnIn?)
    ensures !Step(Step(y, Reap(t)), op).s.clean
  {
    hide SysInv, DestroyAny, CreateTask, CreateIn;
    ReapFreesFrameZero(y, t);
    ReapInv(y, t);
    SpawnNeedsFrameZero(Step(y, Reap(t)), op);
  }
}
