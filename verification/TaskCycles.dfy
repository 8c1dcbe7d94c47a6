/**
 Tasks created, stopped and destroyed one after the other, kernel tasks, user tasks and
 ELF programs: with a little room no shortage is met, and in the careful reading of
 destroying directories each cycle leaves the bitmap as it was.
 */
module TaskCycles {
  import opened Common
  import opened FirstFit
  import opened Pmm
  import opened Paging
  import opened Bytes
  import opened Space
  import opened Ranges
  import opened Allocation
  import opened Directories
  import opened UnmapLimits
  import opened Shortages
  import opened TaskMemory
  import opened UserMemory
  import opened Elf
  import opened ProgramRoom
  import opened KernelRoom
  import opened ElfTasks
  import opened TaskRuns

  // ----- creating a task

  lemma RecordPages()
    ensures PagesOf(TASK_SIZE) == 1
  {
  }

  ghost predicate NoLastPages(ps: set<Page>) {
    forall p <- ps :: p % ENTRIES != 1023
  }

  lemma StacksKern(s: St, top: Page, n: nat, dir: Frame, kernelLen: nat, userLen: nat, ps: set<Page>)
    requires Kern(s, top) && s.saved == 0 && IsDir(s, dir) && Tail(s.marks, n) && kernelLen < WORD && userLen < WORD
    requires s.cr3 * PAGE_SIZE != PAGEDIR && dir * PAGE_SIZE != PAGEDIR
    requires UserIs(s, dir, ps) && NoLastPages(ps) && StackFits(ps, userLen)
    requires top % ENTRIES + PagesOf(kernelLen) <= 1022 && n + PagesOf(kernelLen) + 2 * PagesOf(userLen) <= PAGE_NUMBER
    ensures top + PagesOf(kernelLen) < PAGE_NUMBER
    ensures var (s1, kstack, ustack) := Stacks(s, dir, kernelLen, userLen);
            && Kern(s1, top + PagesOf(kernelLen)) && s1.cr3 == s.cr3 && s1.saved == 0 && NoLast(s1, dir)
            && (kernelLen > 0 ==> kstack.page == top) && kstack.len == kernelLen && ustack.len == userLen
  {
    hide Inv, Alloc, Load, Kern, Tail, PagesOf, Choose, UserIs, UsersKept, NoLast, StackRun;
    KernDirs(s, top);
    LoadKern(s, top, dir);
    KernSaved(Load(s, dir), top, s.cr3);
    var s1 := Modify(s, dir);
    UsersTrans(s, Load(s, dir), s1);
    UserStays(s, s1, dir, ps);
    AllocKern(s1, top, n, kernelLen);
    var s2 := Alloc(s1, kernelLen, KERNEL_FLAGS).0;
    UserStays(s1, s2, dir, ps);
    AllocUser(s2, top + PagesOf(kernelLen), n + PagesOf(kernelLen), userLen, ps);
    var s3 := Alloc(s2, userLen, STACK_FLAGS).0;
    StackNoLast(s3, dir, ps, userLen);
    StaysDir(s1, s2, s.cr3);
    LoadKern(s3, top + PagesOf(kernelLen), s.cr3);
    KernSaved(Load(s3, s.cr3), top + PagesOf(kernelLen), 0);
    StaysDir(s, s1, s.cr3);
    StaysDir(s1, s2, dir);
    UsersTrans(s3, Load(s3, s.cr3), Modified(s3));
    NoLastStays(s3, Modified(s3), dir);
  }

  lemma StaysDir(s: St, s1: St, d: Frame)
    requires UsersKept(s, s1) && IsDir(s, d)
    ensures IsDir(s1, d)
  {
  }

  lemma StackNoLast(s: St, d: Frame, ps: set<Page>, len: nat)
    requires NoLastPages(ps) && StackFits(ps, len)
    requires UserIs(s, d, WithStack(ps, len))
    ensures NoLast(s, d)
  {
    hide Trans, StackRun, PagesOf;
  }

  /** Where the kernel memory of a task lies: its record on page top, its stack of m pages behind it. */
  ghost predicate LiesAt(t: Task, top: Page, m: nat) {
    && t.rec.page == top && t.rec.len > 0 && PagesOf(t.rec.len) == 1 && t.dir * PAGE_SIZE != PAGEDIR
    && PagesOf(t.kstack.len) == m && (t.kstack.len > 0 ==> t.kstack.page == top + 1)
  }

  lemma CreateTaskKern(s: St, top: Page, n: nat, kernelLen: nat, userLen: nat)
    requires Kern(s, top) && s.saved == 0 && s.cr3 * PAGE_SIZE != PAGEDIR && Tail(s.marks, n)
    requires kernelLen < WORD && userLen < WORD && StackFits({}, userLen)
    requires top % ENTRIES + 1 + PagesOf(kernelLen) <= 1022
    requires n + 2 + PagesOf(kernelLen) + 2 * PagesOf(userLen) <= PAGE_NUMBER && n + 2 < PAGE_NUMBER
    ensures top + 1 + PagesOf(kernelLen) < PAGE_NUMBER
    ensures var (s1, t) := CreateTask(s, kernelLen, userLen);
            && Kern(s1, top + 1 + PagesOf(kernelLen)) && s1.cr3 == s.cr3 && s1.saved == 0
            && LiesAt(t, top, PagesOf(kernelLen)) && NoLast(s1, t.dir)
  {
    hide Inv, Alloc, Create, Stacks, Kern, Tail, PagesOf, Choose, UserIs, UsersKept, NoLast, StackFits;
    RecordPages();
    AllocKern(s, top, n, TASK_SIZE);
    var s1 := Alloc(s, TASK_SIZE, KERNEL_FLAGS).0;
    NextTop(s, top);
    CreateKern(s1, top + 1, n + 1);
    var (s2, dir) := Create(s1);
    StacksKern(s2, top + 1, n + 2, dir, kernelLen, userLen, {});
  }

  lemma NextTop(s: St, top: Page)
    requires Kern(s, top)
    ensures top % ENTRIES < 1022 ==> (top + 1) % ENTRIES == top % ENTRIES + 1
    ensures top != 0
  {
    hide Inv;
  }

  // ----- creating a task with a program

  ghost function UserPages(p: Option<Program>): set<Page> {
    if p.None? || !Suitable(p.value.h) then {} else EntryPages(p.value.segs)
  }

  /** The number of pages its entries ask for. */
  function PagesFor(p: Option<Program>): nat {
    if p.None? || !Suitable(p.value.h) then 0 else AllPages(p.value.segs)
  }

  ghost predicate ProgramApart(p: Option<Program>) {
    p.None? || !Suitable(p.value.h) || EntriesApart(p.value.segs)
  }

  lemma LoadProgramIff(s: St, top: Page, n: nat, p: Option<Program>, dir: Frame)
    requires Kern(s, top) && s.saved == 0 && IsDir(s, dir) && UserIs(s, dir, {}) && (p.Some? ==> Sound(p.value))
    requires s.cr3 * PAGE_SIZE != PAGEDIR && dir * PAGE_SIZE != PAGEDIR
    requires Tail(s.marks, n) && n + 2 * PagesFor(p) <= PAGE_NUMBER
    ensures LoadProgram(s, p, dir).clean <==> ProgramApart(p)
    ensures ProgramApart(p) ==>
              var s1 := LoadProgram(s, p, dir);
              && Kern(s1, top) && Tail(s1.marks, n + 2 * PagesFor(p)) && s1.cr3 == s.cr3 && s1.saved == 0
              && IsDir(s1, dir) && UserIs(s1, dir, UserPages(p))
  {
    hide Kern, Tail, ElfLoad, Loadable, Placed, UserIs, EntryPages, EntriesApart;
    KernDirs(s, top);
    if p.None? || !Suitable(p.value.h) {
      Unsuitable(s, p, dir);
    } else {
      PlacedFresh(s, dir, p.value.segs, p.value.file);
      ElfLoadIff(s, top, n, p.value.h, p.value.segs, p.value.file, dir);
    }
  }

  /**
   Creating a task with a program meets no trouble if and only if no two entries share a
   page, given room for its pages, its record and its stacks.
   */
  lemma CreateInIff(s: St, top: Page, n: nat, p: Option<Program>, kernelLen: nat, userLen: nat)
    requires Kern(s, top) && s.saved == 0 && s.cr3 * PAGE_SIZE != PAGEDIR && Tail(s.marks, n)
    requires kernelLen < WORD && userLen < WORD && (p.Some? ==> Sound(p.value))
    requires NoLastPages(UserPages(p)) && StackFits(UserPages(p), userLen)
    requires top % ENTRIES + 1 + PagesOf(kernelLen) <= 1022
    requires n + 2 + 2 * PagesFor(p) + PagesOf(kernelLen) + 2 * PagesOf(userLen) <= PAGE_NUMBER && n + 2 < PAGE_NUMBER
    ensures top + 1 + PagesOf(kernelLen) < PAGE_NUMBER
    ensures CreateIn(s, p, kernelLen, userLen).0.clean <==> ProgramApart(p)
    ensures ProgramApart(p) ==>
              var (s1, t) := CreateIn(s, p, kernelLen, userLen);
              && Kern(s1, top + 1 + PagesOf(kernelLen)) && s1.cr3 == s.cr3 && s1.saved == 0
              && LiesAt(t, top, PagesOf(kernelLen)) && NoLast(s1, t.dir)
  {
    hide Inv, Alloc, Create, LoadProgram, ImageOf, Stacks, Kern, Tail, PagesOf, Choose, UserIs, UsersKept, NoLast,
      StackFits, NoLastPages, UserPages, PagesFor, ProgramApart, Sound;
    RecordPages();
    TopsFit(top, PagesOf(kernelLen));
    CreateKern(s, top, n);
    var (s1, dir) := Create(s);
    LoadProgramIff(s1, top, n + 1, p, dir);
    if CreateIn(s, p, kernelLen, userLen).0.clean {
      CreateInClean(s, p, kernelLen, userLen);
    }
    if ProgramApart(p) {
      var s2, n2 := LoadProgram(s1, p, dir), n + 1 + 2 * PagesFor(p);
      AllocKern(s2, top, n2, TASK_SIZE);
      var s3 := Alloc(s2, TASK_SIZE, KERNEL_FLAGS).0;
      NextTop(s2, top);
      UserStays(s2, s3, dir, UserPages(p));
      StaysDir(s2, s3, dir);
      StacksKern(s3, top + 1, n2 + 1, dir, kernelLen, userLen, UserPages(p));
      KernDirs(Stacks(s3, dir, kernelLen, userLen).0, top + 1 + PagesOf(kernelLen));
    }
  }

  lemma TopsFit(top: Page, m: nat)
    requires top % ENTRIES + 1 + m <= 1022
    ensures top + 1 + m < PAGE_NUMBER
  {
  }

  // ----- destroying it

  lemma DestroyTaskKern(s: St, top: Page, m: nat, t: Task)
    requires top + 1 + m < PAGE_NUMBER && top % ENTRIES + 1 + m <= 1022
    requires Kern(s, top + 1 + m) && s.saved == 0 && s.cr3 * PAGE_SIZE != PAGEDIR && t.dir != s.cr3
    requires TaskHeld(s, t) && WellTagged(t) && LiesAt(t, top, m) && NoLast(s, t.dir)
    ensures DestroyTask(s, t).clean && Kern(DestroyTask(s, t), top)
  {
    hide Inv, Load, Held, Destroy, FreePiece, Sheds, Owns, WellTagged, Kern, NoLast, UsersKept;
    SameTable(top, 1 + m);
    KernDirs(s, top + 1 + m);
    LoadKern(s, top + 1 + m, t.dir);
    KernDirs(Load(s, t.dir), top + 1 + m);
    ShedLoad(s, t.dir, t);
    ShedSaved(s, Load(s, t.dir), t, s.cr3);
    KernSaved(Load(s, t.dir), top + 1 + m, s.cr3);
    var s1 := Modify(s, t.dir);
    UsersTrans(s, Load(s, t.dir), s1);
    NoLastStays(s, s1, t.dir);
    WellTaggedParts(t);
    FreeStacks(s1, top, m, t);
    var s2 := FreePiece(s1, t.kstack);
    var s3 := FreePiece(s2, t.ustack);
    LoadKern(s3, top + 1, s.cr3);
    KernDirs(s3, top + 1);
    KernDirs(Load(s3, s.cr3), top + 1);
    LoadHeld(s3, s.cr3, t.dir, t.rec, t);
    HeldSaved(Load(s3, s.cr3), t.dir, t.rec, false, 0);
    KernSaved(Load(s3, s.cr3), top + 1, 0);
    var s4 := Modified(s3);
    DestroyKern(s4, top + 1, t.dir);
    KernDirs(s4, top + 1);
    ShedDestroy(s4, t);
    FreeKern(Destroy(s4, t.dir), top + 1, t.dir, t.rec);
  }

  /** Both stacks, in the directory of the task. */
  lemma FreeStacks(s: St, top: Page, m: nat, t: Task)
    requires top + 1 + m < PAGE_NUMBER && top % ENTRIES + 1 + m <= 1022
    requires Kern(s, top + 1 + m) && s.cr3 == t.dir && NoLast(s, t.dir) && LiesAt(t, top, m)
    requires Held(s, t.dir, t.kstack, false) && Held(s, t.dir, t.ustack, true) && Held(s, t.dir, t.rec, false)
    requires DistinctTags(t.rec, t.kstack) && DistinctTags(t.rec, t.ustack) && DistinctTags(t.kstack, t.ustack)
    ensures var s2 := FreePiece(FreePiece(s, t.kstack), t.ustack);
            && Kern(s2, top + 1) && SameSwitches(s, s2) && Held(s2, t.dir, t.rec, false)
            && forall d: Frame :: IsDir(s2, d) <==> IsDir(s, d)
  {
    hide Inv, Held, FreePiece, Sheds, Kern, NoLast, UsersKept, PagesOf;
    SameTable(top, 1 + m);
    KernDirs(s, top + 1 + m);
    var s1 := FreePiece(s, t.kstack);
    if t.kstack.len == 0 {
      FreeEmpty(s, t.kstack);
      assert m == 0 by { NoBytes(); }
    } else {
      FreeKern(s, top + 1 + m, t.dir, t.kstack);
      ShedFree(s, t.kstack, false, t);
      NoLastStays(s, s1, t.dir);
    }
    KernDirs(s1, top + 1);
    if t.ustack.len == 0 {
      FreeEmpty(s1, t.ustack);
    } else {
      FreeUser1(s1, top + 1, t.ustack);
      PieceRange(s1, t.dir, t.ustack);
      KernDirs(FreePiece(s1, t.ustack), top + 1);
      ShedFree(s1, t.ustack, true, t);
    }
  }

  lemma NoBytes()
    ensures PagesOf(0) == 0
  {
  }

  lemma PieceRange(s: St, d: Frame, q: Piece)
    requires Held(s, d, q, true) && q.len > 0
    ensures Fits(q.page * PAGE_SIZE, q.len) && FreePiece(s, q) == FreeRange(s, q.page * PAGE_SIZE, q.len)
  {
    hide Trans;
  }

  lemma FreeEmpty(s: St, q: Piece)
    requires q.len == 0
    ensures FreePiece(s, q) == s
  {
  }

  /** A task with a program: that is unloaded first. */
  lemma DestroyAnyKern(s: St, top: Page, m: nat, p: Option<Program>, t: Task)
    requires top + 1 + m < PAGE_NUMBER && top % ENTRIES + 1 + m <= 1022
    requires Kern(s, top + 1 + m) && s.saved == 0 && s.cr3 * PAGE_SIZE != PAGEDIR && t.dir != s.cr3
    requires TaskHeld(s, t) && WellTagged(t) && LiesAt(t, top, m) && NoLast(s, t.dir)
    requires (p.Some? ==> Sound(p.value)) && Runs(t, p)
    ensures DestroyAny(s, p, t).clean && Kern(DestroyAny(s, p, t), top)
  {
    hide Inv, ElfUnload, DestroyTask, Held, Sheds, WellTagged, Kern, NoLast, Matches, Loadable, TaskHeld;
    if p.None? {
      DestroyTaskKern(s, top, m, t);
      return;
    }
    SegmentsFit(p.value);
    var s1, u := ElfUnload(s, p.value.h, p.value.segs, t.dir), t.(image := []);
    KernDirs(s, top + 1 + m);
    HeldDir(s, t);
    if Suitable(p.value.h) {
      ImageHeldAll(s, p.value, t);
      ElfUnloadKern(s, top + 1 + m, p.value.h, p.value.segs, t.dir, t.image);
    } else {
      NotUnloaded(s, p.value, t.dir);
    }
    KernDirs(s1, top + 1 + m);
    UnloadProgram(s, p.value, t);
    FewerParts(t);
    SameDestruction(s1, t);
    DestroyTaskKern(s1, top, m, u);
  }

  lemma SegmentsFit(p: Program)
    requires Sound(p)
    ensures forall g <- p.segs :: g.load ==> Fits(g.vaddr, g.memsz)
  {
  }

  // ----- one cycle

  function ProgramFor(op: Op): Option<Program> {
    if op.SpawnIn? then op.p else None
  }

  predicate Creates(op: Op) {
    (op.Spawn? || op.SpawnIn?) && op.kernelLen < WORD && op.userLen < WORD
  }

  /**
   The task can be had behind the kernel pages below top and n frames: it fits into the
   rest of the kernel's last table and into memory; no two entries of its program share a
   page; and no user page of it is the last of a table.
   */
  ghost predicate TaskFits(op: Op, top: Page, n: nat) {
    && Creates(op) && (ProgramFor(op).Some? ==> Sound(ProgramFor(op).value)) && ProgramApart(ProgramFor(op))
    && NoLastPages(UserPages(ProgramFor(op))) && StackFits(UserPages(ProgramFor(op)), op.userLen)
    && top % ENTRIES + 1 + PagesOf(op.kernelLen) <= 1022
    && n + 2 + 2 * PagesFor(ProgramFor(op)) + PagesOf(op.kernelLen) + 2 * PagesOf(op.userLen) <= PAGE_NUMBER
    && n + 2 < PAGE_NUMBER
  }

  ghost function Newborn(y: Sys, op: Op): Task
    requires Creates(op) && Legal(y, op)
  {
    if op.Spawn? then CreateTask(y.s, op.kernelLen, op.userLen).1 else CreateIn(y.s, op.p, op.kernelLen, op.userLen).1
  }

  /** The task is created, stopped and destroyed. */
  ghost function Cycle(y: Sys, op: Op): seq<Op>
    requires Creates(op) && Legal(y, op)
  {
    [op, Stop(Newborn(y, op)), Reap(Newborn(y, op))]
  }

  /** The kernel has mapped its pages below top and uses frames below n, frame 0 among them. */
  ghost predicate HasRoom(y: Sys, top: Page, n: nat) {
    SysInv(y) && Kern(y.s, top) && Tail(y.s.marks, n) && y.s.cr3 * PAGE_SIZE != PAGEDIR
  }

  lemma ThreeSteps(y: Sys, a: Op, b: Op, c: Op)
    requires Legal(y, a) && Step(y, a).s.clean
    requires var y1 := Step(y, a); Legal(y1, b) && Step(y1, b).s.clean
    requires var y2 := Step(Step(y, a), b); Legal(y2, c) && Step(y2, c).s.clean
    ensures CleanRun(y, [a, b, c]) && Run(y, [a, b, c]) == Step(Step(Step(y, a), b), c)
  {
    hide Legal, Step;
    assert [a, b, c][1..] == [b, c] && [b, c][1..] == [c] && [c][1..] == [];
    var y1 := Step(y, a);
    var y2 := Step(y1, b);
    assert CleanRun(y2, [c]) && Run(y2, [c]) == Step(y2, c);
    assert CleanRun(y1, [b, c]) && Run(y1, [b, c]) == Run(y2, [c]);
  }

  lemma SysParts(y: Sys)
    requires SysInv(y)
    ensures Inv(y.s) && y.s.saved == 0 && y.stopped <= y.tasks && y.programs.Keys <= y.tasks
    ensures forall t <- y.tasks :: IsDir(y.s, t.dir)
  {
    hide Inv, Held, WellTagged, Runs;
  }

  lemma SameReading(s: St, s1: St, t: Task)
    ensures Adds(s, s1, t) || Sheds(s, s1, t) ==> s1.careful == s.careful
  {
    hide Inv;
  }

  lemma FitsLegal(y: Sys, op: Op, top: Page, n: nat)
    requires TaskFits(op, top, n)
    ensures Creates(op) && Legal(y, op) && top + 1 + PagesOf(op.kernelLen) < PAGE_NUMBER
    ensures top % ENTRIES + 1 + PagesOf(op.kernelLen) <= 1022
  {
    TopsFit(top, PagesOf(op.kernelLen));
    hide StackFits, NoLastPages, ProgramApart;
  }

  /** The first step of a cycle meets no trouble. */
  lemma Spawned(y: Sys, op: Op, top: Page, n: nat)
    requires HasRoom(y, top, n) && TaskFits(op, top, n)
    ensures Creates(op) && Legal(y, op) && top + 1 + PagesOf(op.kernelLen) < PAGE_NUMBER
    ensures var y1, t := Step(y, op), Newborn(y, op);
            && y1 == Joined(y, y1.s, t, ProgramFor(op)) && Newcomer(y, y1.s, t, ProgramFor(op))
            && Kern(y1.s, top + 1 + PagesOf(op.kernelLen)) && y1.s.cr3 == y.s.cr3 && y1.s.saved == 0
            && LiesAt(t, top, PagesOf(op.kernelLen)) && NoLast(y1.s, t.dir) && t.dir != y.s.cr3
  {
    hide Inv, Kern, Tail, CreateTask, CreateIn, PagesOf, Adds, TaskHeld, WellTagged, SysInv, LiesAt, NoLast, StackFits,
      NoLastPages, PagesFor, Sound;
    FitsLegal(y, op, top, n);
    SysParts(y);
    KernDirs(y.s, top);
    if op.Spawn? {
      CreateTaskKern(y.s, top, n, op.kernelLen, op.userLen);
      KernDirs(CreateTask(y.s, op.kernelLen, op.userLen).0, top + 1 + PagesOf(op.kernelLen));
      CreateTaskExact(y.s, op.kernelLen, op.userLen);
      SpawnNewcomer(y, op.kernelLen, op.userLen);
    } else {
      CreateInIff(y.s, top, n, op.p, op.kernelLen, op.userLen);
      CreateInExact(y.s, op.p, op.kernelLen, op.userLen);
      SpawnInNewcomer(y, op.p, op.kernelLen, op.userLen);
    }
  }

  /** A cycle meets no shortage, and only in the code's reading does it leave frame 0 unused. */
  lemma CycleRuns(y: Sys, top: Page, n: nat, op: Op)
    requires HasRoom(y, top, n) && TaskFits(op, top, n)
    ensures Creates(op) && Legal(y, op) && CleanRun(y, Cycle(y, op))
    ensures var y1 := Run(y, Cycle(y, op));
            && y1.tasks == y.tasks && SysInv(y1) && Kern(y1.s, top) && y1.s.cr3 == y.s.cr3
            && y1.s.careful == y.s.careful
            && (!y.s.careful ==> y1.s.marks[0] == UNUSED)
  {
    hide Inv, Kern, DestroyAny, PagesOf, Adds, Sheds, TaskHeld, WellTagged, SysInv, LiesAt, Apart, Owns, NoLast,
      TaskFits, Runs, Tail, CreateTask, CreateIn;
    Spawned(y, op, top, n);
    FitsLegal(y, op, top, n);
    var ops, t, p, m := Cycle(y, op), Newborn(y, op), ProgramFor(op), PagesOf(op.kernelLen);
    var y1 := Step(y, op);
    KernDirs(y1.s, top + 1 + m);
    SysParts(y);
    JoinInv(y, y1.s, t, p);
    SameReading(y.s, y1.s, t);
    LedgerRefl(y1);
    StopStep(y1, y1, t);
    var y2 := Step(y1, ops[1]);
    NotThere(y, y1.s, t, p);
    DestroyAnyKern(y2.s, top, m, p, t);
    var y3 := Step(y2, ops[2]);
    KernDirs(y3.s, top);
    ReapInv(y2, t);
    DestroyAnyExact(y2.s, p, t);
    SameReading(y2.s, y3.s, t);
    ThreeSteps(y, ops[0], ops[1], ops[2]);
    assert y3.tasks == y.tasks;
    if !y.s.careful {
      ReapFreesFrameZero(y2, t);
    }
  }

  /** A newcomer was not there before, nor had it a program. */
  lemma NotThere(y: Sys, s1: St, t: Task, p: Option<Program>)
    requires SysInv(y) && Newcomer(y, s1, t, p)
    ensures t !in y.tasks && t !in y.programs
    ensures ProgramOf(Joined(y, s1, t, p), t) == p && (p.Some? ==> Sound(p.value))
  {
    hide Inv, Adds, TaskHeld, WellTagged, Runs, SysInv, Sound;
    SysParts(y);
  }

  // ----- cycles over and over

  /** The kernel page tables are the same frames before and after. */
  lemma SameTables(y: Sys, ops: seq<Op>, top: Page, f: Frame)
    requires SysInv(y) && CleanRun(y, ops) && Run(y, ops).tasks == y.tasks && Kern(y.s, top) && Kern(Run(y, ops).s, top)
    requires var s1 := Run(y, ops).s; f in s1.own && s1.own[f].KernelTable?
    ensures f in y.s.own && y.s.own[f].KernelTable?
  {
    hide SysInv, CleanRun, Run, Inv, Trans, Kern;
    var y1 := Run(y, ops);
    LedgerRefl(y);
    RunLedger(y, y, ops);
    assert y1.tasks - y.tasks == {} && y.tasks - y1.tasks == {};
    var i := y1.s.own[f].i;
    ListedTable(y1.s, top, f);
    var f0 := y.s.mem[y.s.cr3][i].frame;
    OwnTable(y.s, top, i);
    ListedTable(y1.s, top, f0);
    hide Steady;
  }

  lemma ListedTable(s: St, top: Page, f: Frame)
    requires Kern(s, top)
    ensures f in s.own && s.own[f].KernelTable? ==>
              var i := s.own[f].i; IsShared(i) && i <= top / ENTRIES && f == s.mem[s.cr3][i].frame
  {
    hide Trans;
  }

  lemma OwnTable(s: St, top: Page, i: Index)
    requires Kern(s, top) && IsShared(i) && i <= top / ENTRIES
    ensures var f := s.mem[s.cr3][i].frame; f in s.own && s.own[f] == KernelTable(i)
  {
    assert s.mem[s.cr3][i].pr;
    hide Trans;
  }

  /** In the careful reading the whole bitmap is as before. */
  lemma CycleRestores(y: Sys, top: Page, n: nat, op: Op)
    requires HasRoom(y, top, n) && TaskFits(op, top, n) && y.s.careful
    ensures Creates(op) && Legal(y, op) && CleanRun(y, Cycle(y, op))
    ensures var y1 := Run(y, Cycle(y, op));
            y1.s.marks == y.s.marks && y1.tasks == y.tasks && y1.s.careful && HasRoom(y1, top, n)
  {
    hide SysInv, Kern, Tail, CleanRun, Run, Cycle, TaskFits, Legal;
    CycleRuns(y, top, n, op);
    var ops := Cycle(y, op);
    var y1 := Run(y, ops);
    forall f: Frame
      ensures y1.s.marks[f] == y.s.marks[f]
    {
      Conservation(y, ops, f);
      if f in y1.s.own && y1.s.own[f].KernelTable? {
        SameTables(y, ops, top, f);
        OwnedMark(y, f);
        OwnedMark(y1, f);
      }
    }
    assert y1.s.marks == y.s.marks;
  }

  /** A cycle for each of the tasks runs without a shortage and leaves the bitmap and the set of tasks as they were. */
  ghost predicate GoesOn(y: Sys, ops: seq<Op>)
    decreases |ops|
  {
    ops == [] || (Creates(ops[0]) && Legal(y, ops[0]) && CleanRun(y, Cycle(y, ops[0]))
                  && var y1 := Run(y, Cycle(y, ops[0]));
                     y1.s.marks == y.s.marks && y1.tasks == y.tasks && GoesOn(y1, ops[1..]))
  }

  /** In the careful reading tasks of any kind that fit can be created and destroyed one after the other without end. */
  lemma {:induction false} TasksForEver(y: Sys, top: Page, n: nat, ops: seq<Op>)
    requires HasRoom(y, top, n) && y.s.careful && forall op <- ops :: TaskFits(op, top, n)
    ensures GoesOn(y, ops)
    decreases |ops|
  {
    hide HasRoom, CleanRun, Run, Cycle, TaskFits, Legal;
    if ops != [] {
      CycleRestores(y, top, n, ops[0]);
      TasksForEver(Run(y, Cycle(y, ops[0])), top, n, ops[1..]);
    }
  }

  /** In the code's reading the first cycle runs as well, but no task of any kind can be created after it. */
  lemma OneTaskOnly(y: Sys, top: Page, n: nat, op: Op, again: Op)
    requires HasRoom(y, top, n) && TaskFits(op, top, n) && !y.s.careful && (again.Spawn? || again.SpawnIn?)
    ensures Creates(op) && Legal(y, op) && CleanRun(y, Cycle(y, op))
    ensures var y1 := Run(y, Cycle(y, op)); Legal(y1, again) ==> !Step(y1, again).s.clean
  {
    hide SysInv, Kern, Tail, CleanRun, Run, Cycle, TaskFits, Step, Legal;
    CycleRuns(y, top, n, op);
    if Legal(Run(y, Cycle(y, op)), again) {
      SpawnNeedsFrameZero(Run(y, Cycle(y, op)), again);
    }
  }

  // ----- a state to start from

  /** The loaded directory in frame 1, an empty kernel table in frame 2, no task. */
  ghost function Fresh(careful: bool): Sys {
    var dir: Table := seq(1024, i requires 0 <= i < 1024 =>
                        if i == 1 then Entry(true, true, true, 0, 2)
                        else if i == 1023 then Entry(true, false, false, 0, 1) else ZERO);
    Sys(St(seq(0x10_0000, f requires 0 <= f < 0x10_0000 => if f == 1 then dir else seq(1024, _ => ZERO)),
           seq(0x10_0000, f requires 0 <= f < 0x10_0000 => if f < 3 then KERNEL else UNUSED),
           2, 1, true, 0, careful, map[1 := Directory, 2 := KernelTable(1)], 0, true),
        {}, {}, map[])
  }

  lemma FreshWords(careful: bool)
    ensures var s := Fresh(careful).s;
            && s.mem[1][1023].frame == 1 && s.mem[1][1].frame == 2
            && (forall i: Index :: s.mem[1][i].pr <==> i == 1 || i == 1023)
            && (forall i: Index :: s.mem[1][i].pr || s.mem[1][i] == ZERO)
            && (forall j: Index :: !s.mem[2][j].pr)
            && (forall f: Frame :: s.marks[f] == if f < 3 then KERNEL else UNUSED)
            && s.own == map[1 := Directory, 2 := KernelTable(1)] && s.cr3 == 1 && s.saved == 0 && s.clean
  {
  }

  lemma FreshInv(careful: bool)
    ensures Inv(Fresh(careful).s)
  {
    FreshWords(careful);
    assert RoleOf(1, 1) == KernelTable(1);
    hide Fresh;
  }

  /** From there cycles can start. */
  lemma FreshRoom(careful: bool)
    ensures HasRoom(Fresh(careful), KERNEL_START, 3)
  {
    FreshInv(careful);
    FreshWords(careful);
    hide Inv;
    assert Fresh(careful).tasks == {} && Fresh(careful).stopped == {} && Fresh(careful).programs == map[];
    hide Fresh;
  }

  // ----- tasks that fit

  /** Entries in the first u pages of the user domain leave a place for a stack in the same table. */
  lemma StackBehind(ps: set<Page>, u: nat, len: nat)
    requires (forall p <- ps :: USER_START <= p < USER_START + u) && u + PagesOf(len) <= 1023
    ensures NoLastPages(ps) && StackFits(ps, len)
  {
    forall p <- ps
      ensures p % ENTRIES != 1023
    {
      assert p % ENTRIES == p - USER_START;
    }
    if len > 0 {
      hide PagesOf;
      assert IsRun(FreeUser(ps), u, PagesOf(len));
      forall p: Page | InRange(p, USER_START + StackRun(ps, len).value, PagesOf(len))
        ensures p % ENTRIES != 1023
      {
        assert p % ENTRIES == p - USER_START;
      }
    }
  }

  const CODE := Segment(true, 0, 0x4000_0000, 4, 0x1800, false)
  const BSS := Segment(true, 4, 0x4000_2000, 0, 0x3000, true)
  const OVER := Segment(true, 0, 0x4000_1000, 4, 0x1000, true)

  /** A program with a file of four bytes and the given entries. */
  function Small(segs: seq<Segment>): Program {
    Program(Header(MAGIC, 1, 1, 1, 1, 2, 3, 0x4000_0000), segs, [0xEB, 0xFE, 0x90, 0x90])
  }

  lemma SmallPages(p: Page)
    ensures HasPage(CODE, p) <==> USER_START <= p < USER_START + 2
    ensures HasPage(BSS, p) <==> USER_START + 2 <= p < USER_START + 5
    ensures HasPage(OVER, p) <==> p == USER_START + 1
  {
    assert PagesOf(0x1800) == 2 && PagesOf(0x3000) == 3 && PagesOf(0x1000) == 1;
  }

  /** A program with code and data, a user and a kernel stack, fits into the state above. */
  lemma SmallFits()
    ensures TaskFits(SpawnIn(Some(Small([CODE, BSS])), 0x1000, 0x2000), KERNEL_START, 3)
  {
    var segs, op := [CODE, BSS], SpawnIn(Some(Small([CODE, BSS])), 0x1000, 0x2000);
    assert PagesOf(0x1000) == 1 && PagesOf(0x2000) == 2;
    assert AllPages(segs) == 5 by { SmallSize(); }
    forall p: Page | p in EntryPages(segs)
      ensures USER_START <= p < USER_START + 5
    {
      var g :| g in segs && HasPage(g, p);
      SmallPages(p);
    }
    StackBehind(EntryPages(segs), 5, 0x2000);
    forall p: Page
      ensures !(HasPage(CODE, p) && HasPage(BSS, p))
    {
      SmallPages(p);
    }
    hide NoLastPages, StackFits, PagesOf;
  }

  lemma SmallSize()
    ensures AllPages([CODE, BSS]) == 5 && AllPages([CODE, OVER]) == 3
  {
    TwoEntries(CODE, BSS);
    TwoEntries(CODE, OVER);
  }

  lemma TwoEntries(g: Segment, h: Segment)
    ensures AllPages([g, h]) == PagesIn(g) + PagesIn(h)
  {
    assert [g, h][..1] == [g] && [g][..0] == [];
    assert AllPages([]) == 0 && AllPages([g]) == PagesIn(g);
  }

  /** If its entries share a page instead, the same task is created with trouble. */
  lemma SmallShares(careful: bool)
    ensures !CreateIn(Fresh(careful).s, Some(Small([CODE, OVER])), 0x1000, 0x2000).0.clean
  {
    var segs, p := [CODE, OVER], Some(Small([CODE, OVER]));
    assert PagesOf(0x1000) == 1 && PagesOf(0x2000) == 2;
    assert AllPages(segs) == 3 by { SmallSize(); }
    forall q: Page | q in EntryPages(segs)
      ensures USER_START <= q < USER_START + 2
    {
      var g :| g in segs && HasPage(g, q);
      SmallPages(q);
    }
    StackBehind(EntryPages(segs), 2, 0x2000);
    SmallPages(USER_START + 1);
    assert !NoCommonPage(segs[0], segs[1]);
    FreshRoom(careful);
    hide NoLastPages, StackFits, PagesOf, Kern, Tail, CreateIn, Fresh, NoCommonPage, SysInv;
    SysParts(Fresh(careful));
    CreateInIff(Fresh(careful).s, KERNEL_START, 3, p, 0x1000, 0x2000);
  }
}
