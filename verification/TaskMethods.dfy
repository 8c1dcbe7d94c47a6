/** The memory part of task creation and destruction as it runs, on top of the virtual memory manager. */
module TaskMethods {
  import opened Common
  import opened Pmm
  import opened Paging
  import opened Space
  import opened Ranges
  import opened Allocation
  import opened TaskMemory
  import opened Elf
  import opened ElfTasks
  import opened Vmm
  import Directories
  import ElfLoader

  /** The addresses kept in a task's record, its own first. */
  datatype Addresses = Addresses(rec: nat, dir: Frame, kstack: nat, ustack: nat)

  /** The addresses describe the task; the address of an empty stack is 0. */
  ghost predicate Describes(a: Addresses, t: Task) {
    && a.dir == t.dir
    && At(a.rec, t.rec) && At(a.kstack, t.kstack) && At(a.ustack, t.ustack)
  }

  predicate At(addr: nat, q: Piece) {
    if q.len == 0 then addr == 0 else addr == q.page * PAGE_SIZE
  }

  // ----- creating

  lemma PieceAt(s: St, len: nat, flags: Flags)
    requires Inv(s) && len < WORD && Ranges.Alloc(s, len, flags).0.clean
    ensures At(Ranges.Alloc(s, len, flags).1, PieceOf(s, len, flags)) && Inv(Ranges.Alloc(s, len, flags).0)
    ensures SameSwitches(s, Ranges.Alloc(s, len, flags).0)
  {
    hide Inv, Ranges.Alloc, Choose, Steady, Trans, AddsTables, OnlyMapped, OtherDirsKept;
    if len == 0 {
      AllocNothing(s, flags);
    } else {
      AllocPages(s, len, flags);
    }
  }

  lemma DirSurvives(s: St, len: nat, flags: Flags, d: Frame)
    requires Inv(s) && len < WORD && Ranges.Alloc(s, len, flags).0.clean && IsDir(s, d)
    ensures IsDir(Ranges.Alloc(s, len, flags).0, d)
  {
    hide Inv, Ranges.Alloc, Adds;
    var q := PieceOf(s, len, flags);
    var t := Task(q, s.cr3, q, q, []);
    AddAlloc(s, len, flags, t);
    AddsInv(s, Ranges.Alloc(s, len, flags).0, t);
  }

  lemma CreatedDir(s: St)
    requires Inv(s) && Directories.Create(s).0.clean
    ensures var (s1, dir) := Directories.Create(s); Inv(s1) && SameSwitches(s, s1) && IsDir(s1, dir) && dir != 0
    ensures Directories.CanCreate(s)
  {
    hide Inv, Directories.Create, Directories.CanCreate, Steady, Trans, AddsTables;
    Directories.CreateShows(s);
    Directories.CreateExact(s);
  }

  /** The states the bracket for the stacks passes through are well-formed. */
  lemma StacksMiddle(s: St, dir: Frame, kernelLen: nat, userLen: nat)
    requires Inv(s) && s.saved == 0 && IsDir(s, dir) && kernelLen < WORD && userLen < WORD
    requires Stacks(s, dir, kernelLen, userLen).0.clean
    ensures var s1 := Modify(s, dir);
            var s2 := Ranges.Alloc(s1, kernelLen, Directories.KERNEL_FLAGS).0;
            var s3 := Ranges.Alloc(s2, userLen, STACK_FLAGS).0;
            && Directories.CanLoad(s, dir) && s.cr3 != 0 && Inv(s1) && s1.saved == s.cr3 && s1.cr3 == dir
            && At(Ranges.Alloc(s1, kernelLen, Directories.KERNEL_FLAGS).1,
                  PieceOf(s1, kernelLen, Directories.KERNEL_FLAGS))
            && Inv(s2) && At(Ranges.Alloc(s2, userLen, STACK_FLAGS).1, PieceOf(s2, userLen, STACK_FLAGS))
            && Inv(s3) && s3.saved == s.cr3 && IsDir(s3, s.cr3) && Directories.CanLoad(s3, s.cr3)
  {
    hide Inv, Ranges.Alloc, Directories.Load, Directories.CanLoad, Adds, At;
    var t := Task(Piece(0, 0, 0, 0, false), dir, Piece(0, 0, 0, 0, false), Piece(0, 0, 0, 0, false), []);
    var s1 := Modify(s, dir);
    var s2 := Ranges.Alloc(s1, kernelLen, Directories.KERNEL_FLAGS).0;
    StacksClean(s, dir, kernelLen, userLen);
    NoDirZero(s);
    AddLoad(s, dir, t);
    SavedKept(s, Directories.Load(s, dir), t, s.cr3);
    AddsInv(s, s1, t);
    PieceAt(s1, kernelLen, Directories.KERNEL_FLAGS);
    DirSurvives(s1, kernelLen, Directories.KERNEL_FLAGS, s.cr3);
    PieceAt(s2, userLen, STACK_FLAGS);
    DirSurvives(s2, userLen, STACK_FLAGS, s.cr3);
    Directories.LoadShows(s, dir);
    Directories.LoadShows(Ranges.Alloc(s2, userLen, STACK_FLAGS).0, s.cr3);
  }

  /** The memory part of task_create_detailed; directory 0 asks for a new one. */
  method CreateTask(mm: MemoryManager, directory: Frame, kernelLen: nat, userLen: nat, ghost image: seq<Piece>)
    returns (a: Addresses)
    requires mm.Ready() && mm.paging && mm.oldDirectory == 0 && Inv(mm.State()) && kernelLen < WORD && userLen < WORD
    requires directory == 0 ==> TaskMemory.CreateTask(mm.State(), kernelLen, userLen).0.clean
    requires directory != 0 ==>
               IsDir(mm.State(), directory) && CreateTaskIn(mm.State(), directory, image, kernelLen, userLen).0.clean
    modifies mm`mem, mm`own, mm`next, mm`clean, mm`cr3, mm`paging, mm`pageDirectory, mm`oldDirectory, mm.pmm,
      mm.pmm.bitmap
    ensures mm.Ready() && mm.paging && mm.oldDirectory == 0
    ensures var (s1, t) := if directory == 0 then TaskMemory.CreateTask(old(mm.State()), kernelLen, userLen)
                           else CreateTaskIn(old(mm.State()), directory, image, kernelLen, userLen);
            mm.State() == s1 && Describes(a, t)
  {
    hide Inv, Ranges.Alloc, Directories.Create, Directories.CanCreate, Directories.Load, Directories.CanLoad, MarksOf,
      Editable, MemoryManager.Reachable, At;
    ghost var s := mm.State();
    if directory == 0 {
      CreateTaskClean(s, kernelLen, userLen);
    } else {
      CreateTaskInClean(s, directory, image, kernelLen, userLen);
      DirSurvives(s, TASK_SIZE, Directories.KERNEL_FLAGS, directory);
    }
    PieceAt(s, TASK_SIZE, Directories.KERNEL_FLAGS);
    var rec := mm.Alloc(TASK_SIZE, Directories.KERNEL_FLAGS);
    var dir := directory;
    if directory == 0 {
      CreatedDir(mm.State());
      var address := mm.CreateDirectory();
      dir := address / PAGE_SIZE;
    }
    StacksMiddle(mm.State(), dir, kernelLen, userLen);
    mm.ModifyDirectory(dir);
    var kstack := mm.Alloc(kernelLen, Directories.KERNEL_FLAGS);
    var ustack := mm.Alloc(userLen, STACK_FLAGS);
    mm.ModifiedDirectory();
    a := Addresses(rec, dir, kstack, ustack);
  }

  /** The memory part of elf_create_task. */
  method CreateElfTask(mm: MemoryManager, p: Program, kernelLen: nat, userLen: nat) returns (a: Addresses, entry: nat)
    requires mm.Ready() && mm.paging && mm.oldDirectory == 0 && Inv(mm.State())
    requires Sound(p) && kernelLen < WORD && userLen < WORD && CreateIn(mm.State(), Some(p), kernelLen, userLen).0.clean
    modifies mm`mem, mm`own, mm`next, mm`clean, mm`cr3, mm`paging, mm`pageDirectory, mm`oldDirectory, mm.pmm,
      mm.pmm.bitmap
    ensures mm.Ready() && mm.paging && mm.oldDirectory == 0
    ensures mm.State() == CreateIn(old(mm.State()), Some(p), kernelLen, userLen).0
    ensures Describes(a, CreateIn(old(mm.State()), Some(p), kernelLen, userLen).1)
    ensures entry == if Suitable(p.h) then p.h.entry else 0
  {
    hide Inv, Directories.Create, Directories.CanCreate, ElfLoad, CreateTaskIn, MarksOf, Editable,
      MemoryManager.Reachable, ImageOf, Describes;
    ghost var s := mm.State();
    CreateInClean(s, Some(p), kernelLen, userLen);
    CreatedDir(s);
    var address := mm.CreateDirectory();
    var dir := address / PAGE_SIZE;
    ghost var s1 := mm.State();
    LoadedDir(s1, p, dir);
    entry := ElfLoader.Load(mm, p.h, p.segs, p.file, dir);
    a := CreateTask(mm, dir, kernelLen, userLen, ImageOf(s1, Some(p), dir));
  }

  lemma LoadedDir(s: St, p: Program, dir: Frame)
    requires Inv(s) && s.saved == 0 && IsDir(s, dir) && Sound(p) && LoadProgram(s, Some(p), dir).clean && s.clean
    ensures var s1 := LoadProgram(s, Some(p), dir); Inv(s1) && s1.saved == 0 && IsDir(s1, dir)
    ensures ElfLoad(s, p.h, p.segs, p.file, dir).1 == if Suitable(p.h) then p.h.entry else 0
  {
    hide Inv, LoadProgram, Adds, Held, ImageOf, LoadSegments, Modify, Modified;
    var q := Piece(0, 0, 0, 0, false);
    var t := Task(q, dir, q, q, ImageOf(s, Some(p), dir));
    LoadProgramExact(s, Some(p), t);
    AddsInv(s, LoadProgram(s, Some(p), dir), t);
  }

  // ----- destroying

  /** A held piece can be freed: its address and length lead to its frames. */
  lemma Freeable(s: St, d: Frame, q: Piece, user: bool)
    requires Inv(s) && Held(s, d, q, user) && (user ==> s.cr3 == d)
    ensures q.len < WORD && Fits(if q.len == 0 then 0 else q.page * PAGE_SIZE, q.len)
    ensures q.len > 0 ==> q.base != 0 && q.page * PAGE_SIZE / PAGE_SIZE == q.page
                          && Block(s, s.cr3, q.page, q.base, PagesOf(q.len))
    ensures FreePiece(s, q) == FreeRange(s, if q.len == 0 then 0 else q.page * PAGE_SIZE, q.len)
  {
    hide Inv, Trans;
  }

  method FreeOne(mm: MemoryManager, addr: nat, len: nat, ghost q: Piece, ghost d: Frame, ghost user: bool)
    requires mm.Ready() && mm.paging && Inv(mm.State()) && Held(mm.State(), d, q, user) && (user ==> mm.cr3 == d)
    requires len == q.len && At(addr, q)
    modifies mm`mem, mm`own, mm`clean, mm.pmm, mm.pmm.bitmap
    ensures mm.Ready() && mm.State() == FreePiece(old(mm.State()), q)
  {
    hide Inv, FreeRange, FreePiece, MarksOf, Editable, Held, Block, MemoryManager.Reachable;
    Freeable(mm.State(), d, q, user);
    mm.BlockFreeable(addr, len, q.base);
    mm.Free(addr, len);
  }

  lemma MiddleInv(s: St, t: Task)
    requires Inv(s) && s.saved == 0 && TaskHeld(s, t) && WellTagged(t) && t.dir != s.cr3
             && TaskMemory.DestroyTask(s, t).clean
    ensures var s1 := Modify(s, t.dir);
            var s2 := FreePiece(s1, t.kstack);
            var s3 := FreePiece(s2, t.ustack);
            var s4 := Modified(s3);
            && Inv(s1) && Inv(s2) && Inv(s3) && Inv(s4) && Inv(Directories.Destroy(s4, t.dir))
            && Directories.CanLoad(s, t.dir) && Directories.CanLoad(s3, s.cr3)
            && Directories.ShowFrame(s4, t.dir).0.clean
  {
    hide Inv, Directories.Load, Directories.CanLoad, Held, Directories.Destroy, FreePiece, Sheds, Owns, WellTagged,
      TaskHeld;
    var s1 := Modify(s, t.dir);
    var s2 := FreePiece(s1, t.kstack);
    var s3 := FreePiece(s2, t.ustack);
    var s4 := Modified(s3);
    DestroyMiddle(s, t);
    ShedsInv(s, s1, t);
    ShedsInv(s1, s2, t);
    ShedsInv(s2, s3, t);
    ShedsInv(s3, s4, t);
    ShedsInv(s4, Directories.Destroy(s4, t.dir), t);
    Directories.LoadShows(s, t.dir);
    Directories.LoadShows(s3, s.cr3);
    Directories.DestroyShows(s4, t.dir);
  }

  /** The memory part of task_destroy, for a task at the given addresses. */
  method DestroyTask(mm: MemoryManager, a: Addresses, kernelLen: nat, userLen: nat, ghost t: Task)
    requires mm.Ready() && mm.paging && mm.oldDirectory == 0 && Inv(mm.State())
    requires TaskHeld(mm.State(), t) && WellTagged(t) && t.dir != mm.cr3 && Describes(a, t)
    requires t.rec.len == TASK_SIZE && t.kstack.len == kernelLen && t.ustack.len == userLen
    requires TaskMemory.DestroyTask(mm.State(), t).clean
    modifies mm`mem, mm`own, mm`next, mm`clean, mm`cr3, mm`paging, mm`pageDirectory, mm`oldDirectory, mm.pmm,
      mm.pmm.bitmap
    ensures mm.Ready() && mm.paging && mm.oldDirectory == 0
    ensures mm.State() == TaskMemory.DestroyTask(old(mm.State()), t)
  {
    hide Inv, FreePiece, Directories.Destroy, Directories.Load, Directories.CanLoad, MarksOf, Editable,
      MemoryManager.Reachable, At, Held,
      WellTagged, Sheds;
    ghost var s := mm.State();
    DestroyMiddle(s, t);
    MiddleInv(s, t);
    mm.ModifyDirectory(a.dir);
    FreeOne(mm, a.kstack, kernelLen, t.kstack, t.dir, false);
    FreeOne(mm, a.ustack, userLen, t.ustack, t.dir, true);
    mm.ModifiedDirectory();
    mm.DestroyDirectory(a.dir);
    FreeOne(mm, a.rec, TASK_SIZE, t.rec, t.dir, false);
  }

  /** The memory part of elf_destroy_task. */
  method DestroyElfTask(mm: MemoryManager, p: Program, a: Addresses, kernelLen: nat, userLen: nat, ghost t: Task)
    requires mm.Ready() && mm.paging && mm.oldDirectory == 0 && Inv(mm.State()) && Sound(p) && Runs(t, Some(p))
    requires TaskHeld(mm.State(), t) && WellTagged(t) && t.dir != mm.cr3 && Describes(a, t)
    requires t.rec.len == TASK_SIZE && t.kstack.len == kernelLen && t.ustack.len == userLen
    requires DestroyAny(mm.State(), Some(p), t).clean
    modifies mm`mem, mm`own, mm`next, mm`clean, mm`cr3, mm`paging, mm`pageDirectory, mm`oldDirectory, mm.pmm,
      mm.pmm.bitmap
    ensures mm.Ready() && mm.paging && mm.oldDirectory == 0
    ensures mm.State() == DestroyAny(old(mm.State()), Some(p), t)
  {
    hide Inv, ElfUnload, TaskMemory.DestroyTask, MarksOf, Editable, MemoryManager.Reachable, WellTagged, TaskHeld,
      Describes, HeldAll, Runs, Sound;
    ghost var s := mm.State();
    DescribesLess(a, s, t);
    UnloadMiddle(s, p, t);
    ElfLoader.Unload(mm, p.h, p.segs, a.dir, t.image);
    DestroyTask(mm, a, kernelLen, userLen, t.(image := []));
  }

  /** The state between unloading a program and destroying its task. */
  lemma UnloadMiddle(s: St, p: Program, t: Task)
    requires Inv(s) && s.saved == 0 && TaskHeld(s, t) && WellTagged(t) && t.dir != s.cr3 && Sound(p) && Runs(t, Some(p))
    requires DestroyAny(s, Some(p), t).clean
    ensures forall g <- p.segs :: g.load ==> Fits(g.vaddr, g.memsz)
    ensures var s1 := ElfUnload(s, p.h, p.segs, t.dir);
            var u := t.(image := []);
            && s.clean && s1.clean && (Suitable(p.h) ==> HeldAll(s, t.dir, p.segs, t.image))
            && Inv(s1) && s1.saved == 0 && s1.cr3 == s.cr3 && TaskHeld(s1, u) && WellTagged(u)
            && TaskMemory.DestroyTask(s1, u).clean && TaskMemory.DestroyTask(s1, u) == DestroyAny(s, Some(p), t)
  {
    hide Inv, ElfUnload, TaskMemory.DestroyTask, Held, Sheds, Matches, WellTagged, TaskHeld, HeldAll;
    var s1 := ElfUnload(s, p.h, p.segs, t.dir);
    SameDestruction(s1, t);
    DestroyTaskClean(s1, t.(image := []));
    UnloadCleans(s, p, t);
    UnloadProgram(s, p, t);
    ShedsInv(s, s1, t);
    FewerParts(t);
    if Suitable(p.h) {
      ImageHeldAll(s, p, t);
    }
  }

  lemma DescribesLess(a: Addresses, s: St, t: Task)
    requires Describes(a, t) && TaskHeld(s, t)
    ensures Describes(a, t.(image := [])) && a.dir == t.dir && IsDir(s, t.dir)
  {
  }
}
