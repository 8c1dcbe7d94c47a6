/**
 The memory of tasks: what creating a task takes, destroying it gives back. Whole runs
 of creating, switching between and destroying tasks lose no frame.
 */
module TaskMemory {
  import opened Common
  import opened Pmm
  import opened Paging
  import opened Space
  import opened Ranges
  import opened Allocation
  import opened Directories

  const TASK_SIZE: nat := 40  // sizeof(task_t)
  const STACK_FLAGS := Flags(true, true)

  /** One allocation of a task: first page and frame, length in bytes, number, and whether it can be written. */
  datatype Piece = Piece(page: Page, base: Frame, len: nat, tag: nat, writable: bool)

  /** The memory a task owns: its record, directory, kernel stack, user stack and the segments of its program. */
  datatype Task = Task(rec: Piece, dir: Frame, kstack: Piece, ustack: Piece, image: seq<Piece>)

  /** The allocations of a task. */
  function Parts(t: Task): seq<Piece> {
    [t.rec, t.kstack, t.ustack] + t.image
  }

  lemma InParts(t: Task)
    ensures t.rec in Parts(t) && t.kstack in Parts(t) && t.ustack in Parts(t)
    ensures forall q <- t.image :: q in Parts(t)
    ensures forall q <- Parts(t) :: q == t.rec || q == t.kstack || q == t.ustack || q in t.image
  {
    var qs := Parts(t);
    assert qs[0] == t.rec && qs[1] == t.kstack && qs[2] == t.ustack;
    assert forall i :: 0 <= i < |t.image| ==> qs[i + 3] == t.image[i];
  }

  // ----- the operations

  /** vmm_modify_page_directory and vmm_modified_page_directory. */
  ghost function Modify(s: St, d: Frame): St {
    if s.saved != 0 then s else Load(s, d).(saved := s.cr3)
  }

  ghost function Modified(s: St): St {
    if s.saved == 0 then s else Load(s, s.saved).(saved := 0)
  }

  /** Brackets do not nest: a second one is ignored, and so is an end without a beginning. */
  lemma BracketsDoNotNest(s: St, d: Frame)
    requires Inv(s)
    ensures s.saved != 0 ==> Modify(s, d) == s
    ensures s.saved == 0 ==> Modified(s) == s
    ensures s.saved == 0 && IsDir(s, d) && Load(s, d).clean ==>
              Modify(s, d).cr3 == d && Modify(s, d).saved == s.cr3 != 0 && Modified(Modify(s, d)).saved == 0
  {
    hide Load;
    if s.saved == 0 && IsDir(s, d) && Load(s, d).clean {
      LoadExact(s, d);
      NoDirZero(s);
    }
  }

  ghost function PieceOf(s: St, len: nat, flags: Flags): Piece
    requires len < WORD
  {
    Piece(Alloc(s, len, flags).1 / PAGE_SIZE % PAGE_NUMBER, Choose(s.marks, len), len, s.next, flags.writable)
  }

  /** The part of task_create_detailed inside the bracket: both stacks, in the directory of the task. */
  ghost function Stacks(s: St, dir: Frame, kernelLen: nat, userLen: nat): (St, Piece, Piece)
    requires kernelLen < WORD && userLen < WORD
  {
    var s1 := Modify(s, dir);
    var s2 := Alloc(s1, kernelLen, KERNEL_FLAGS).0;
    var s3 := Alloc(s2, userLen, STACK_FLAGS).0;
    (Modified(s3), PieceOf(s1, kernelLen, KERNEL_FLAGS), PieceOf(s2, userLen, STACK_FLAGS))
  }

  /** The memory part of task_create_detailed for a task that gets a new directory. */
  ghost function CreateTask(s: St, kernelLen: nat, userLen: nat): (St, Task)
    requires kernelLen < WORD && userLen < WORD
  {
    var s1 := Alloc(s, TASK_SIZE, KERNEL_FLAGS).0;
    var (s2, dir) := Create(s1);
    var (s3, kstack, ustack) := Stacks(s2, dir, kernelLen, userLen);
    (s3, Task(PieceOf(s, TASK_SIZE, KERNEL_FLAGS), dir, kstack, ustack, []))
  }

  /** The same for a task that is given a directory, and with it what has been loaded there. */
  ghost function CreateTaskIn(s: St, dir: Frame, image: seq<Piece>, kernelLen: nat, userLen: nat): (St, Task)
    requires kernelLen < WORD && userLen < WORD
  {
    var s1 := Alloc(s, TASK_SIZE, KERNEL_FLAGS).0;
    var (s2, kstack, ustack) := Stacks(s1, dir, kernelLen, userLen);
    (s2, Task(PieceOf(s, TASK_SIZE, KERNEL_FLAGS), dir, kstack, ustack, image))
  }

  ghost function FreePiece(s: St, q: Piece): St {
    if Fits(q.page * PAGE_SIZE, q.len) then FreeRange(s, q.page * PAGE_SIZE, q.len) else s
  }

  /** The memory part of task_destroy. */
  ghost function DestroyTask(s: St, t: Task): St {
    var s1 := Modify(s, t.dir);
    var s2 := FreePiece(s1, t.kstack);
    var s3 := FreePiece(s2, t.ustack);
    var s4 := Modified(s3);
    FreePiece(Destroy(s4, t.dir), t.rec)
  }

  // ----- who owns what

  ghost predicate Owns(t: Task, f: Frame, role: Role) {
    || (role == Directory && f == t.dir)
    || (role.PrivateTable? && role.dir == t.dir)
    || (role.Data? && (OwnsTag(t.rec, role.tag) || OwnsTag(t.kstack, role.tag) || OwnsTag(t.ustack, role.tag)))
    || AnyTag(t.image, role)
  }

  ghost predicate AnyTag(qs: seq<Piece>, role: Role) {
    exists q <- qs :: q.len > 0 && HasTag(role, q.tag)
  }

  ghost predicate OwnsTag(q: Piece, tag: nat) {
    q.len > 0 && q.tag == tag
  }

  /** Page by page the directory maps the piece to its frames, with the given protection. */
  ghost predicate Shows(s: St, d: Frame, q: Piece, writable: bool, user: bool) {
    && q.base + PagesOf(q.len) <= PAGE_NUMBER
    && forall p: Page :: q.page <= p < q.page + PagesOf(q.len) ==>
         Trans(s, d, p) == Some(Mapping(q.base + p - q.page, writable, user))
  }

  /** The piece is mapped, in its directory or in the shared kernel part, to exactly the frames of its number. */
  ghost predicate Held(s: St, d: Frame, q: Piece, user: bool) {
    q.len == 0 ||
    (&& 0 < q.len < WORD && q.page != 0 && q.base != 0
     && InDomain(q.page, user) && InDomain(q.page + PagesOf(q.len) - 1, user)
     && Fits(q.page * PAGE_SIZE, q.len)
     && (user ==> IsDir(s, d))
     && Block(s, if user then d else s.cr3, q.page, q.base, PagesOf(q.len))
     && Shows(s, if user then d else s.cr3, q, q.writable, user)
     && (forall f <- s.own :: HasTag(s.own[f], q.tag) <==> q.base <= f < q.base + PagesOf(q.len)))
  }

  ghost predicate TaskHeld(s: St, t: Task) {
    && IsDir(s, t.dir)
    && Held(s, t.dir, t.rec, false) && Held(s, t.dir, t.kstack, false) && Held(s, t.dir, t.ustack, true)
    && (forall q <- t.image :: Held(s, t.dir, q, true))
  }

  /** Pages of record and kernel stack are the kernel's, pages of the user stack can be read and written by users. */
  ghost predicate Protected(s: St, t: Task) {
    && (t.rec.len > 0 ==> Shows(s, s.cr3, t.rec, false, false))
    && (t.kstack.len > 0 ==> Shows(s, s.cr3, t.kstack, false, false))
    && (t.ustack.len > 0 ==> Shows(s, t.dir, t.ustack, true, true))
  }

  /** Only the user stack is meant to be written. */
  predicate StacksMarked(t: Task) {
    !t.rec.writable && !t.kstack.writable && t.ustack.writable
  }

  lemma ProtectedParts(s: St, t: Task)
    requires TaskHeld(s, t) && StacksMarked(t)
    ensures Protected(s, t)
  {
    hide Shows, Block;
  }

  ghost predicate DistinctTags(p: Piece, q: Piece) {
    p.len > 0 && q.len > 0 ==> p.tag != q.tag
  }

  /** The piece is none of the task's. */
  ghost predicate Foreign(t: Task, q: Piece) {
    forall p <- Parts(t) :: DistinctTags(p, q)
  }

  ghost predicate Apart(t: Task, u: Task) {
    t.dir != u.dir && forall q <- Parts(u) :: Foreign(t, q)
  }

  ghost predicate AllDistinct(qs: seq<Piece>) {
    forall i, j :: 0 <= i < j < |qs| ==> DistinctTags(qs[i], qs[j])
  }

  ghost predicate WellTagged(t: Task) {
    AllDistinct(Parts(t))
  }

  /** All allocations of the task are numbered from n on. */
  ghost predicate NewTags(t: Task, n: nat) {
    forall q <- Parts(t) :: q.len > 0 ==> q.tag >= n
  }

  lemma WellTaggedParts(t: Task)
    requires WellTagged(t)
    ensures DistinctTags(t.rec, t.kstack) && DistinctTags(t.rec, t.ustack) && DistinctTags(t.kstack, t.ustack)
    ensures forall q <- t.image :: DistinctTags(t.rec, q) && DistinctTags(t.kstack, q) && DistinctTags(t.ustack, q)
  {
    var qs := Parts(t);
    assert DistinctTags(qs[0], qs[1]) && DistinctTags(qs[0], qs[2]) && DistinctTags(qs[1], qs[2]);
    forall q | q in t.image
      ensures DistinctTags(t.rec, q) && DistinctTags(t.kstack, q) && DistinctTags(t.ustack, q)
    {
      var i :| 0 <= i < |t.image| && t.image[i] == q;
      assert qs[i + 3] == q;
      assert DistinctTags(qs[0], qs[i + 3]) && DistinctTags(qs[1], qs[i + 3]) && DistinctTags(qs[2], qs[i + 3]);
    }
  }

  lemma MakeWellTagged(t: Task)
    requires DistinctTags(t.rec, t.kstack) && DistinctTags(t.rec, t.ustack) && DistinctTags(t.kstack, t.ustack)
    requires forall q <- t.image :: DistinctTags(t.rec, q) && DistinctTags(t.kstack, q) && DistinctTags(t.ustack, q)
    requires AllDistinct(t.image)
    ensures WellTagged(t)
  {
    var qs := Parts(t);
    forall i, j | 0 <= i < j < |qs|
      ensures DistinctTags(qs[i], qs[j])
    {
      if j >= 3 {
        assert qs[j] == t.image[j - 3];
        assert i >= 3 ==> qs[i] == t.image[i - 3];
      }
    }
  }

  // ----- how the parts of an operation relate states

  /** No kernel translation and no private translation of a directory other than gone is lost. */
  ghost predicate Preserves(s: St, s1: St, gone: Frame) {
    && (forall p: Page :: Mappable(p) && IsShared(p / ENTRIES) && Trans(s, s.cr3, p).Some? ==>
          Trans(s1, s1.cr3, p) == Trans(s, s.cr3, p))
    && (forall d: Frame, p: Page ::
          IsDir(s, d) && d != gone && Mappable(p) && !IsShared(p / ENTRIES) && Trans(s, d, p).Some? ==>
            Trans(s1, d, p) == Trans(s, d, p))
    && (forall d: Frame :: IsDir(s, d) && d != gone ==> IsDir(s1, d))
  }

  /** A part that only adds: kernel tables, and frames of task t under new numbers. */
  ghost predicate Adds(s: St, s1: St, t: Task) {
    && s.clean && Inv(s1) && Steady(s, s1) && Preserves(s, s1, 0) && FirstKept(s, s1)
    && (forall f <- s.own :: f in s1.own && s1.own[f] == s.own[f])
    && (forall f <- s1.own :: f !in s.own ==> s1.own[f].KernelTable? || Owns(t, f, s1.own[f]))
    && (forall f <- s1.own :: f !in s.own && s1.own[f].Data? ==> s1.own[f].tag >= s.next)
  }

  lemma AddsTrans(s: St, s1: St, s2: St, t: Task)
    requires Adds(s, s1, t) && Adds(s1, s2, t)
    ensures Adds(s, s2, t)
  {
    hide Inv, Trans, Owns, Preserves;
    SteadyTrans(s, s1, s2);
    PreservesTrans(s, s1, s2, 0);
  }

  lemma PreservesTrans(s: St, s1: St, s2: St, gone: Frame)
    requires Preserves(s, s1, gone) && Preserves(s1, s2, gone)
    ensures Preserves(s, s2, gone)
  {
    hide Trans;
  }

  lemma NoDirZero(s: St)
    requires Inv(s)
    ensures !IsDir(s, 0) && IsDir(s, s.cr3)
  {
  }

  lemma SharedDomains()
    ensures forall p: Page :: InDomain(p, false) ==> Mappable(p) && IsShared(p / ENTRIES)
    ensures forall p: Page :: InDomain(p, true) ==> Mappable(p) && !IsShared(p / ENTRIES)
  {
  }

  /** A piece stays held while only other numbers are added. */
  lemma HeldKept(s: St, s1: St, d: Frame, q: Piece, user: bool, gone: Frame)
    requires Inv(s) && Held(s, d, q, user) && Preserves(s, s1, gone) && (user ==> d != gone)
    requires forall f <- s.own :: HasTag(s.own[f], q.tag) ==> f in s1.own && s1.own[f] == s.own[f]
    requires forall f <- s1.own :: HasTag(s1.own[f], q.tag) ==> f in s.own && HasTag(s.own[f], q.tag)
    ensures Held(s1, d, q, user)
  {
    hide Inv, Trans;
    SharedDomains();
    if q.len > 0 {
      assert forall p: Page :: q.page <= p < q.page + PagesOf(q.len) ==> InDomain(p, user);
    }
  }

  // ----- creating a task

  lemma AllocNothing(s: St, flags: Flags)
    ensures Alloc(s, 0, flags) == (s, 0)
  {
  }

  lemma AddAlloc(s: St, len: nat, flags: Flags, t: Task)
    requires Inv(s) && len < WORD && Alloc(s, len, flags).0.clean
    requires var q := PieceOf(s, len, flags); q == t.rec || q == t.kstack || q == t.ustack
    requires flags.user ==> s.cr3 == t.dir
    ensures var s1 := Alloc(s, len, flags).0;
            Adds(s, s1, t) && SameSwitches(s, s1) && Held(s1, s.cr3, PieceOf(s, len, flags), flags.user)
            && (len > 0 ==> s.next < s1.next)
  {
    if len == 0 {
      AllocNothing(s, flags);
      AddsRefl(s, t);
    } else {
      AddSome(s, len, flags, t);
    }
  }

  lemma AddSome(s: St, len: nat, flags: Flags, t: Task)
    requires Inv(s) && 0 < len < WORD && Alloc(s, len, flags).0.clean
    requires var q := PieceOf(s, len, flags); q == t.rec || q == t.kstack || q == t.ustack
    requires flags.user ==> s.cr3 == t.dir
    ensures var s1 := Alloc(s, len, flags).0;
            Adds(s, s1, t) && SameSwitches(s, s1) && Held(s1, s.cr3, PieceOf(s, len, flags), flags.user)
            && s.next < s1.next
  {
    hide Inv, Trans, Steady, Alloc, Choose, PagesOf, OnlyMapped, OtherDirsKept, Preserves, Held, AddsTables, Record;
    var (s1, vaddr) := Alloc(s, len, flags);
    AllocPages(s, len, flags);
    AllocHeld(s, len, flags);
    AllocPreserves(s, s1, vaddr / PAGE_SIZE, Choose(s.marks, len), PagesOf(len), flags);
    AllocOwns(s, s1, Choose(s.marks, len), PagesOf(len), flags, t);
  }

  lemma AddsRefl(s: St, t: Task)
    requires Inv(s) && s.clean
    ensures Adds(s, s, t)
  {
  }

  lemma AllocOwns(s: St, s1: St, f: Frame, n: nat, flags: Flags, t: Task)
    requires forall g: Frame :: f <= g < f + n ==> g !in s.own
    requires AddsTables(Record(s.own, f, f + n - 1, Data(s.next, flags.user)), s1.own, s.cr3, !flags.user)
    requires Owns(t, f, Data(s.next, flags.user)) && (flags.user ==> s.cr3 == t.dir)
    ensures forall g <- s.own :: g in s1.own && s1.own[g] == s.own[g]
    ensures forall g <- s1.own :: g !in s.own ==> s1.own[g].KernelTable? || Owns(t, g, s1.own[g])
    ensures forall g <- s1.own :: g !in s.own && s1.own[g].Data? ==> s1.own[g].tag >= s.next
  {
  }

  lemma AllocPreserves(s: St, s1: St, page: Page, f: Frame, n: nat, flags: Flags)
    requires Inv(s) && SameSwitches(s, s1) && OtherDirsKept(s, s1) && f + n <= PAGE_NUMBER
    requires OnlyMapped(s, s1, page, f, n, flags)
    requires forall p: Page :: page <= p < page + n ==> Trans(s, s.cr3, p).None?
    ensures Preserves(s, s1, 0)
  {
    hide Trans;
    SharedAgree(s);
    NoDirZero(s);
    hide Inv;
  }

  lemma AllocHeld(s: St, len: nat, flags: Flags)
    requires Inv(s) && 0 < len < WORD && Alloc(s, len, flags).0.clean
    ensures var s1 := Alloc(s, len, flags).0;
            Held(s1, s.cr3, PieceOf(s, len, flags), flags.user) && s.next < s1.next
  {
    hide Inv, Trans, Steady, Alloc, Choose, PagesOf, OnlyMapped, OtherDirsKept, AddsTables, Held, Record;
    var (s1, vaddr) := Alloc(s, len, flags);
    AllocPages(s, len, flags);
    AllocNumber(s, len, flags);
    NoDirZero(s);
    OldTags(s);
    HeldFromMap(s, s1, vaddr / PAGE_SIZE, Choose(s.marks, len), len, flags);
  }

  lemma HeldFromMap(s: St, s1: St, page: Page, f: Frame, len: nat, flags: Flags)
    requires IsDir(s, s.cr3) && SameSwitches(s, s1) && 0 < len < WORD && f != 0 && page != 0
    requires InDomain(page, flags.user) && InDomain(page + PagesOf(len) - 1, flags.user)
             && f + PagesOf(len) <= PAGE_NUMBER
    requires OnlyMapped(s, s1, page, f, PagesOf(len), flags) && OtherDirsKept(s, s1)
    requires forall g <- s.own :: !HasTag(s.own[g], s.next)
    requires AddsTables(Record(s.own, f, f + PagesOf(len) - 1, Data(s.next, flags.user)), s1.own, s.cr3, !flags.user)
    ensures Held(s1, s.cr3, Piece(page, f, len, s.next, flags.writable), flags.user)
  {
    hide Trans;
    var n := PagesOf(len);
    SpannedPages(page, len);
    SharedDomains();
    assert forall p: Page :: page <= p < page + n ==> InDomain(p, flags.user) && Sees(s, s.cr3, p);
    assert Block(s1, s1.cr3, page, f, n);
  }

  lemma OldTags(s: St)
    requires Inv(s)
    ensures forall f <- s.own :: !HasTag(s.own[f], s.next)
  {
  }

  lemma AllocNumber(s: St, len: nat, flags: Flags)
    requires Inv(s) && 0 < len < WORD && Alloc(s, len, flags).0.clean
    ensures s.next < Alloc(s, len, flags).0.next
  {
    hide Inv, Trans, AddsTables, MapRange, Choose, PagesOf, OnlyMapped, OtherDirsKept, UseMarks;
    AllocPages(s, len, flags);
    var f := Choose(s.marks, len);
    TakeData(s, len, flags.user);
    var s0 := Take(s, len, PmmFlag(flags), Data(s.next, flags.user)).0;
    var page := FindPages(s0.mem, s0.cr3, len, flags.user);
    SpannedPages(page, len);
    MapRangeGrows(s0, page, f, PagesOf(len), flags, false);
  }

  lemma AddCreate(s: St, t: Task)
    requires Inv(s) && Create(s).0.clean && Create(s).1 == t.dir
    ensures var s1 := Create(s).0;
            Adds(s, s1, t) && SameSwitches(s, s1) && IsDir(s1, t.dir) && t.dir !in s.own && !s1.mem[t.dir][0].pr
  {
    hide Inv, Trans, Steady, Create, Choose;
    CreateExact(s);
    NoDirZero(s);
  }

  lemma AddLoad(s: St, d: Frame, t: Task)
    requires Inv(s) && IsDir(s, d) && Load(s, d).clean
    ensures var s1 := Load(s, d);
            Adds(s, s1, t) && s1.cr3 == d && s1.check == s.check && s1.saved == s.saved
            && (forall e: Frame :: IsDir(s1, e) <==> IsDir(s, e))
            && (forall f <- s1.own :: f !in s.own ==> s1.own[f].KernelTable?)
  {
    hide Inv, Trans, Steady, Load, Owns;
    LoadExact(s, d);
    NoDirZero(s);
  }

  /** Everything a new task owns it alone owns. */
  lemma FreshTask(s: St, t: Task, f: Frame)
    requires Inv(s) && f in s.own && t.dir !in s.own
    requires NewTags(t, s.next)
    ensures !Owns(t, f, s.own[f])
  {
    InParts(t);
  }

  // ----- trouble is never forgotten

  lemma {:induction false} MapRangeCleans(s: St, vp: nat, fp: nat, n: nat, flags: Flags)
    requires vp + n <= PAGE_NUMBER && fp + n <= PAGE_NUMBER && MapRange(s, s.cr3, vp, fp, n, flags).clean
    ensures s.clean
  {
    hide MapPage;
    if n > 0 {
      MapRangeClean(s, s.cr3, vp, fp, n, flags);
      MapRangeCleans(s, vp, fp, n - 1, flags);
    }
  }

  lemma {:induction false} UnmapRangeCleans(s: St, vp: nat, n: nat)
    requires vp + n <= PAGE_NUMBER && UnmapRange(s, s.cr3, vp, n).clean
    ensures s.clean
  {
    hide UnmapPage;
    if n > 0 {
      UnmapRangeClean(s, vp, n);
      UnmapRangeCleans(s, vp, n - 1);
    }
  }

  lemma AllocCleans(s: St, len: nat, flags: Flags)
    requires len < WORD && Alloc(s, len, flags).0.clean
    ensures s.clean
  {
    hide MapRange, FindPages, UseMarks, UseHighest, Record;
    var f := Choose(s.marks, len);
    var s0 := Take(s, len, PmmFlag(flags), Data(s.next, flags.user)).0;
    var page := FindPages(s0.mem, s0.cr3, len, flags.user);
    if f != 0 && page != 0 {
      SpannedPages(page, len);
      MapRangeCleans(s0, page, f, PagesOf(len), flags);
    }
  }

  lemma CreateCleans(s: St)
    requires Create(s).0.clean
    ensures s.clean
  {
    hide ShowFrame, Create, Choose, UseMarks, UseHighest, Record;
    var (s1, f) := Take(s, PAGE_SIZE, KERNEL, Data(s.next, false));
    CreateShows(s);
    ShowClean(s1, f);
  }

  lemma LoadCleans(s: St, d: Frame)
    requires Load(s, d).clean
    ensures s.clean
  {
    hide ShowFrame, Load;
    LoadShows(s, d);
    ShowClean(s, d);
  }

  lemma DestroyCleans(s: St, d: Frame)
    requires Destroy(s, d).clean
    ensures s.clean
  {
    hide ShowFrame, Destroy;
    DestroyShows(s, d);
    ShowClean(s, d);
  }

  lemma FreeCleans(s: St, q: Piece)
    requires FreePiece(s, q).clean
    ensures s.clean
  {
    if Fits(q.page * PAGE_SIZE, q.len) && q.len > 0 {
      UnmapRangeCleans(s, q.page * PAGE_SIZE / PAGE_SIZE, Spanned(q.page * PAGE_SIZE, q.len));
    }
  }

  // ----- what creating a task does

  lemma SavedKept(s: St, s1: St, t: Task, saved: Frame)
    requires Adds(s, s1, t)
    ensures Adds(s, s1.(saved := saved), t)
  {
    TransKept(s1, s1.(saved := saved));
    hide Trans;
  }

  lemma HeldSaved(s: St, d: Frame, q: Piece, user: bool, saved: Frame)
    requires Held(s, d, q, user)
    ensures Held(s.(saved := saved), d, q, user)
  {
    TransKept(s, s.(saved := saved));
    hide Trans;
  }

  lemma HeldAdds(s: St, s1: St, d: Frame, q: Piece, user: bool, t: Task)
    requires Inv(s) && Held(s, d, q, user) && Adds(s, s1, t) && d != 0
    requires q.len > 0 ==> q.tag < s.next
    ensures Held(s1, d, q, user)
  {
    hide Inv, Trans, Owns, Held, Preserves;
    if q.len > 0 {
      HeldKept(s, s1, d, q, user, 0);
    } else {
      HeldNothing(s1, d, q, user);
    }
  }

  lemma HeldNothing(s: St, d: Frame, q: Piece, user: bool)
    requires q.len == 0
    ensures Held(s, d, q, user)
  {
  }

  /** Both stacks of a task, in its directory. */
  lemma StacksExact(s: St, kernelLen: nat, userLen: nat, t: Task)
    requires Inv(s) && s.saved == 0 && IsDir(s, t.dir) && kernelLen < WORD && userLen < WORD
    requires var (s1, kstack, ustack) := Stacks(s, t.dir, kernelLen, userLen);
             s1.clean && t.kstack == kstack && t.ustack == ustack
    ensures var s1 := Stacks(s, t.dir, kernelLen, userLen).0;
            && Adds(s, s1, t) && s1.cr3 == s.cr3 && s1.saved == 0 && IsDir(s1, t.dir)
            && Held(s1, t.dir, t.kstack, false) && Held(s1, t.dir, t.ustack, true)
            && t.kstack.len == kernelLen && t.ustack.len == userLen && DistinctTags(t.kstack, t.ustack)
            && t.kstack.tag >= s.next && t.ustack.tag >= s.next && !t.kstack.writable && t.ustack.writable
  {
    hide Inv, Alloc, Load, Adds, Held, Choose;
    var s1 := Modify(s, t.dir);
    var s2 := Alloc(s1, kernelLen, KERNEL_FLAGS).0;
    var s3 := Alloc(s2, userLen, STACK_FLAGS).0;
    var s4 := Stacks(s, t.dir, kernelLen, userLen).0;
    StacksClean(s, t.dir, kernelLen, userLen);
    NoDirZero(s);
    AddLoad(s, t.dir, t);
    SavedKept(s, Load(s, t.dir), t, s.cr3);
    AddsInv(s, s1, t);
    AddAlloc(s1, kernelLen, KERNEL_FLAGS, t);
    AddsInv(s1, s2, t);
    AddAlloc(s2, userLen, STACK_FLAGS, t);
    AddsInv(s2, s3, t);
    AddsTrans(s, s1, s2, t);
    AddsTrans(s, s2, s3, t);
    AddsInv(s, s3, t);
    AddLoad(s3, s.cr3, t);
    SavedKept(s3, Load(s3, s.cr3), t, 0);
    AddsInv(s3, s4, t);
    AddsTrans(s, s3, s4, t);
    AddsTrans(s2, s3, s4, t);
    HeldAdds(s2, s4, t.dir, t.kstack, false, t);
    HeldAdds(s3, s4, t.dir, t.ustack, true, t);
  }

  lemma StacksClean(s: St, dir: Frame, kernelLen: nat, userLen: nat)
    requires kernelLen < WORD && userLen < WORD && Stacks(s, dir, kernelLen, userLen).0.clean
    ensures var s1 := Modify(s, dir);
            var s2 := Alloc(s1, kernelLen, KERNEL_FLAGS).0;
            var s3 := Alloc(s2, userLen, STACK_FLAGS).0;
            s.clean && s1.clean && s2.clean && s3.clean
  {
    hide Alloc, Load;
    var s1 := Modify(s, dir);
    var s2 := Alloc(s1, kernelLen, KERNEL_FLAGS).0;
    var s3 := Alloc(s2, userLen, STACK_FLAGS).0;
    if s3.saved != 0 { LoadCleans(s3, s3.saved); }
    AllocCleans(s2, userLen, STACK_FLAGS);
    AllocCleans(s1, kernelLen, KERNEL_FLAGS);
    if s.saved == 0 { LoadCleans(s, dir); }
  }

  /** What a new task holds: all of it under new numbers, the program it was given apart. */
  ghost predicate NewTask(s: St, s1: St, t: Task, image: seq<Piece>, kernelLen: nat, userLen: nat) {
    && Adds(s, s1, t) && s1.cr3 == s.cr3 && s1.saved == 0
    && TaskHeld(s1, t) && WellTagged(t) && NewTags(t.(image := []), s.next) && t.image == image
    && t.rec.len == TASK_SIZE && t.kstack.len == kernelLen && t.ustack.len == userLen
    && StacksMarked(t) && Protected(s1, t)
  }

  /**
   A new task takes frames that all were unused: its own under new numbers, and kernel
   page tables. All its memory is mapped as recorded, and no translation is lost.
   */
  lemma CreateTaskExact(s: St, kernelLen: nat, userLen: nat)
    requires Inv(s) && s.saved == 0 && kernelLen < WORD && userLen < WORD
    requires CreateTask(s, kernelLen, userLen).0.clean
    ensures var (s1, t) := CreateTask(s, kernelLen, userLen);
            NewTask(s, s1, t, [], kernelLen, userLen) && t.dir != s.cr3 && t.dir !in s.own && !s1.mem[t.dir][0].pr
  {
    hide Inv, Alloc, Create, Stacks, Adds, Held, Choose;
    var s1 := Alloc(s, TASK_SIZE, KERNEL_FLAGS).0;
    var s2 := Create(s1).0;
    var (s3, t) := CreateTask(s, kernelLen, userLen);
    CreateTaskClean(s, kernelLen, userLen);
    NoDirZero(s);
    AddAlloc(s, TASK_SIZE, KERNEL_FLAGS, t);
    AddsInv(s, s1, t);
    AddCreate(s1, t);
    AddsInv(s1, s2, t);
    StacksExact(s2, kernelLen, userLen, t);
    AddsInv(s2, s3, t);
    AddsTrans(s1, s2, s3, t);
    AddsTrans(s, s1, s3, t);
    AddsFirst(s2, s3, t);
    NoDirZero(s3);
    RecordHeld(s, s1, s3, t);
    MakeWellTagged(t);
    ProtectedParts(s3, t);
    InParts(t);
  }

  lemma RecordHeld(s: St, s1: St, s2: St, t: Task)
    requires Inv(s1) && Adds(s1, s2, t) && Held(s1, s.cr3, t.rec, false) && t.rec.tag < s1.next && t.dir != 0
    ensures Held(s2, t.dir, t.rec, false)
  {
    hide Inv, Held, Adds;
    HeldAnywhere(s1, s.cr3, t.dir, t.rec);
    HeldAdds(s1, s2, t.dir, t.rec, false, t);
  }

  lemma CreateTaskClean(s: St, kernelLen: nat, userLen: nat)
    requires kernelLen < WORD && userLen < WORD && CreateTask(s, kernelLen, userLen).0.clean
    ensures var s1 := Alloc(s, TASK_SIZE, KERNEL_FLAGS).0;
            var (s2, dir) := Create(s1);
            s.clean && s1.clean && s2.clean && Stacks(s2, dir, kernelLen, userLen).0.clean
  {
    hide Alloc, Create, Modify, Modified;
    var s1 := Alloc(s, TASK_SIZE, KERNEL_FLAGS).0;
    var (s2, dir) := Create(s1);
    StacksClean(s2, dir, kernelLen, userLen);
    CreateCleans(s1);
    AllocCleans(s, TASK_SIZE, KERNEL_FLAGS);
  }

  /** A task that is given a directory, and the program loaded there, takes no other frames either. */
  lemma CreateTaskInExact(s: St, dir: Frame, image: seq<Piece>, kernelLen: nat, userLen: nat)
    requires Inv(s) && s.saved == 0 && IsDir(s, dir) && kernelLen < WORD && userLen < WORD
    requires AllDistinct(image) && forall q <- image :: Held(s, dir, q, true)
    requires CreateTaskIn(s, dir, image, kernelLen, userLen).0.clean
    ensures var (s1, t) := CreateTaskIn(s, dir, image, kernelLen, userLen);
            NewTask(s, s1, t, image, kernelLen, userLen) && t.dir == dir
  {
    hide Inv, Alloc, Stacks, Adds, Held, Choose;
    var s1 := Alloc(s, TASK_SIZE, KERNEL_FLAGS).0;
    var (s2, t) := CreateTaskIn(s, dir, image, kernelLen, userLen);
    CreateTaskInClean(s, dir, image, kernelLen, userLen);
    NoDirZero(s);
    AddAlloc(s, TASK_SIZE, KERNEL_FLAGS, t.(image := []));
    AddsOwner(s, s1, t.(image := []), t);
    AddsInv(s, s1, t);
    StacksExact(s1, kernelLen, userLen, t);
    AddsInv(s1, s2, t);
    AddsTrans(s, s1, s2, t);
    RecordHeld(s, s1, s2, t);
    ImageKept(s, s2, t);
    ImageApart(s, t);
    MakeWellTagged(t);
    ProtectedParts(s2, t);
    InParts(t.(image := []));
  }

  lemma CreateTaskInClean(s: St, dir: Frame, image: seq<Piece>, kernelLen: nat, userLen: nat)
    requires kernelLen < WORD && userLen < WORD && CreateTaskIn(s, dir, image, kernelLen, userLen).0.clean
    ensures var s1 := Alloc(s, TASK_SIZE, KERNEL_FLAGS).0;
            s.clean && s1.clean && Stacks(s1, dir, kernelLen, userLen).0.clean
  {
    hide Alloc, Modify, Modified;
    StacksClean(Alloc(s, TASK_SIZE, KERNEL_FLAGS).0, dir, kernelLen, userLen);
    AllocCleans(s, TASK_SIZE, KERNEL_FLAGS);
  }

  /** Owning more is no obstacle to having added only what one owns. */
  lemma AddsOwner(s: St, s1: St, t: Task, u: Task)
    requires Adds(s, s1, t) && u == t.(image := u.image) && t.image == []
    ensures Adds(s, s1, u)
  {
    hide Inv, Preserves, Steady;
  }

  lemma ImageKept(s: St, s1: St, t: Task)
    requires Inv(s) && Adds(s, s1, t) && t.dir != 0 && forall q <- t.image :: Held(s, t.dir, q, true)
    ensures forall q <- t.image :: Held(s1, t.dir, q, true)
  {
    hide Inv, Adds, Held;
    forall q | q in t.image
      ensures Held(s1, t.dir, q, true)
    {
      PieceKept(s, s1, t.dir, q, true, t);
    }
  }

  lemma AddsFirst(s: St, s1: St, t: Task)
    requires Adds(s, s1, t)
    ensures forall d: Frame :: IsDir(s, d) ==> s1.mem[d][0] == s.mem[d][0]
  {
    hide Inv;
  }

  /** What is held has older numbers than what comes later. */
  lemma ImageApart(s: St, t: Task)
    requires Inv(s) && t.rec.tag >= s.next && t.kstack.tag >= s.next && t.ustack.tag >= s.next
    requires forall q <- t.image :: Held(s, t.dir, q, true)
    ensures forall q <- t.image :: DistinctTags(t.rec, q) && DistinctTags(t.kstack, q) && DistinctTags(t.ustack, q)
  {
    hide Inv, Held;
    forall q | q in t.image && q.len > 0
      ensures q.tag < s.next
    {
      HeldTags(s, t.dir, q, true);
    }
  }

  lemma AddsInv(s: St, s1: St, t: Task)
    requires Adds(s, s1, t)
    ensures Inv(s1) && s.next <= s1.next
    ensures forall d: Frame :: IsDir(s, d) ==> IsDir(s1, d) && d in s1.own
    ensures forall f: Frame :: f !in s1.own ==> f !in s.own
  {
    hide Inv;
  }

  lemma HeldAnywhere(s: St, d: Frame, e: Frame, q: Piece)
    requires Held(s, d, q, false)
    ensures Held(s, e, q, false)
  {
    hide Trans;
  }

  // ----- what destroying a task does

  /**
   A part of destroying task t: only frames of t leave the books, only kernel tables enter,
   other tasks keep all they hold.
   */
  ghost predicate Sheds(s: St, s1: St, t: Task) {
    && s.clean && Inv(s1) && Steady(s, s1) && FirstKept(s, s1)
    && (forall f <- s1.own :: (f in s.own && s1.own[f] == s.own[f]) || s1.own[f].KernelTable?)
    && (forall f <- s.own :: (f in s1.own && s1.own[f] == s.own[f]) || Owns(t, f, s.own[f]))
    && (forall u: Task :: TaskHeld(s, u) && Apart(t, u) ==> TaskHeld(s1, u))
  }

  lemma ShedsTrans(s: St, s1: St, s2: St, t: Task)
    requires Sheds(s, s1, t) && Sheds(s1, s2, t)
    ensures Sheds(s, s2, t)
  {
    hide Inv, Owns, TaskHeld, Apart;
    SteadyTrans(s, s1, s2);
  }

  lemma HeldTags(s: St, d: Frame, q: Piece, user: bool)
    requires Inv(s) && Held(s, d, q, user) && q.len > 0
    ensures q.tag < s.next
  {
    var f := q.base;
    assert HasTag(s.own[f], q.tag);
  }

  /** Loading a directory sheds nothing, and every piece stays held. */
  lemma ShedLoad(s: St, d: Frame, t: Task)
    requires Inv(s) && IsDir(s, d) && Load(s, d).clean
    ensures var s1 := Load(s, d);
            && Sheds(s, s1, t) && s1.cr3 == d && s1.saved == s.saved
            && (forall u: Task :: TaskHeld(s, u) ==> TaskHeld(s1, u))
  {
    hide Inv, Load, Held, Owns, Preserves, Apart;
    var s1 := Load(s, d);
    AddLoad(s, d, t);
    NoDirZero(s);
    forall u: Task | TaskHeld(s, u)
      ensures TaskHeld(s1, u)
    {
      TaskKept(s, s1, u, t);
    }
  }

  lemma TaskKept(s: St, s1: St, u: Task, t: Task)
    requires Inv(s) && TaskHeld(s, u) && Adds(s, s1, t)
    ensures TaskHeld(s1, u)
  {
    hide Inv, Adds, Held;
    NoDirZero(s);
    AddsInv(s, s1, t);
    PieceKept(s, s1, u.dir, u.rec, false, t);
    PieceKept(s, s1, u.dir, u.kstack, false, t);
    PieceKept(s, s1, u.dir, u.ustack, true, t);
    forall q | q in u.image
      ensures Held(s1, u.dir, q, true)
    {
      PieceKept(s, s1, u.dir, q, true, t);
    }
  }

  lemma PieceKept(s: St, s1: St, d: Frame, q: Piece, user: bool, t: Task)
    requires Inv(s) && Held(s, d, q, user) && Adds(s, s1, t) && d != 0
    ensures Held(s1, d, q, user)
  {
    hide Inv, Adds, Held;
    if q.len > 0 {
      HeldTags(s, d, q, user);
    }
    HeldAdds(s, s1, d, q, user, t);
  }

  lemma ShedSaved(s: St, s1: St, t: Task, saved: Frame)
    requires Sheds(s, s1, t)
    ensures Sheds(s, s1.(saved := saved), t)
    ensures forall u: Task :: TaskHeld(s1, u) ==> TaskHeld(s1.(saved := saved), u)
  {
    var s2 := s1.(saved := saved);
    forall u: Task | TaskHeld(s1, u)
      ensures TaskHeld(s2, u)
    {
      HeldSaved(s1, u.dir, u.rec, false, saved);
      HeldSaved(s1, u.dir, u.kstack, false, saved);
      HeldSaved(s1, u.dir, u.ustack, true, saved);
      forall q | q in u.image
        ensures Held(s2, u.dir, q, true)
      {
        HeldSaved(s1, u.dir, q, true, saved);
      }
    }
    SavedInv(s1, saved);
    hide Inv, TaskHeld, Owns;
  }

  lemma SavedInv(s: St, saved: Frame)
    requires Inv(s)
    ensures Inv(s.(saved := saved))
  {
    TransKept(s, s.(saved := saved));
  }

  /** No page of a piece shows up among the pages of a piece with another number. */
  lemma PagesApart(s: St, q: Piece, dir: Frame, p: Piece, page: Page)
    requires Inv(s) && p.tag != q.tag && IsDir(s, dir) && Mappable(page)
    requires Block(s, s.cr3, q.page, q.base, PagesOf(q.len)) && Block(s, dir, p.page, p.base, PagesOf(p.len))
    requires forall f <- s.own :: HasTag(s.own[f], q.tag) <==> q.base <= f < q.base + PagesOf(q.len)
    requires forall f <- s.own :: HasTag(s.own[f], p.tag) <==> p.base <= f < p.base + PagesOf(p.len)
    requires p.page <= page < p.page + PagesOf(p.len) && q.page <= page < q.page + PagesOf(q.len)
    ensures !Sees(s, dir, page)
  {
    hide Inv, Trans, PagesOf, IsDir;
    SharedAgree(s);
    var (f, g) := (Trans(s, dir, page).value.frame, Trans(s, s.cr3, page).value.frame);
    assert HasTag(s.own[f], p.tag) && HasTag(s.own[g], q.tag);
  }

  /** Freeing one piece leaves every piece with another number held. */
  lemma HeldFree(s: St, s1: St, q: Piece, d: Frame, p: Piece, user: bool)
    requires Inv(s) && Held(s, d, p, user) && DistinctTags(q, p) && q.len > 0
    requires Mappable(q.page) && Block(s, s.cr3, q.page, q.base, PagesOf(q.len))
    requires forall f <- s.own :: HasTag(s.own[f], q.tag) <==> q.base <= f < q.base + PagesOf(q.len)
    requires OnlyCleared(s, s1, q.page, PagesOf(q.len)) && SameSwitches(s, s1)
    requires s1.own == Drop(s.own, q.base, q.base + PagesOf(q.len) - 1)
    requires forall e: Frame :: IsDir(s1, e) <==> IsDir(s, e)
    ensures Held(s1, d, p, user)
  {
    hide Trans, Inv, PagesOf;
    if p.len == 0 {
      return;
    }
    SharedDomains();
    NoDirZero(s);
    var dir := if user then d else s.cr3;
    forall page: Page | p.page <= page < p.page + PagesOf(p.len)
      ensures Trans(s1, dir, page) == Trans(s, dir, page)
    {
      assert InDomain(page, user);
      if q.page <= page < q.page + PagesOf(q.len) {
        PagesApart(s, q, dir, p, page);
      }
    }
    forall f: Frame | p.base <= f < p.base + PagesOf(p.len)
      ensures f in s1.own && s1.own[f] == s.own[f]
    {
      assert f in s.own && HasTag(s.own[f], p.tag);
    }
    assert Block(s1, dir, p.page, p.base, PagesOf(p.len));
  }

  /** Freeing a piece of t sheds exactly the frames with its number. */
  lemma ShedFree(s: St, q: Piece, user: bool, t: Task)
    requires Inv(s) && s.clean && Held(s, t.dir, q, user) && (user ==> s.cr3 == t.dir) && FreePiece(s, q).clean
    requires q == t.rec || q == t.kstack || q == t.ustack
    ensures var s1 := FreePiece(s, q);
            && Sheds(s, s1, t) && SameSwitches(s, s1)
            && (forall f <- s1.own :: f in s.own && (q.len > 0 ==> !HasTag(s1.own[f], q.tag)))
            && (forall d: Frame, p: Piece, usr: bool :: Held(s, d, p, usr) && DistinctTags(q, p) ==>
                  Held(s1, d, p, usr))
            && (forall d: Frame :: IsDir(s1, d) <==> IsDir(s, d))
  {
    var s1 := FreePiece(s, q);
    if q.len == 0 {
      ShedsRefl(s, t);
    } else {
      ShedFreeSome(s, q, user, t);
    }
  }

  lemma ShedsRefl(s: St, t: Task)
    requires Inv(s) && s.clean
    ensures Sheds(s, s, t)
  {
  }

  lemma ShedFreeSome(s: St, q: Piece, user: bool, t: Task)
    requires Inv(s) && q.len > 0 && Held(s, t.dir, q, user) && (user ==> s.cr3 == t.dir) && FreePiece(s, q).clean
    requires q == t.rec || q == t.kstack || q == t.ustack
    ensures var s1 := FreePiece(s, q);
            && Sheds(s, s1, t) && SameSwitches(s, s1)
            && (forall f <- s1.own :: f in s.own && (q.len > 0 ==> !HasTag(s1.own[f], q.tag)))
            && (forall d: Frame, p: Piece, usr: bool :: Held(s, d, p, usr) && DistinctTags(q, p) ==>
                  Held(s1, d, p, usr))
            && (forall d: Frame :: IsDir(s1, d) <==> IsDir(s, d))
  {
    hide Inv, Trans, Steady, OnlyCleared, FreeRange;
    var s1 := FreePiece(s, q);
    SharedDomains();
    FreeExact(s, q.page, q.base, q.len);
    forall d: Frame, p: Piece, usr: bool | Held(s, d, p, usr) && DistinctTags(q, p)
      ensures Held(s1, d, p, usr)
    {
      HeldFree(s, s1, q, d, p, usr);
    }
    hide Held, Block;
    InParts(t);
    forall u: Task | TaskHeld(s, u) && Apart(t, u)
      ensures TaskHeld(s1, u)
    {
      InParts(u);
    }
  }

  /** Destroying the directory of t sheds it and its private tables. */
  lemma ShedDestroy(s: St, t: Task)
    requires Inv(s) && IsDir(s, t.dir) && t.dir != s.cr3 && Destroy(s, t.dir).clean
    requires Held(s, t.dir, t.rec, false)
    ensures var s1 := Destroy(s, t.dir);
            && Sheds(s, s1, t) && SameSwitches(s, s1) && Held(s1, t.dir, t.rec, false)
            && (forall f <- s1.own :: s1.own[f] != Directory || f != t.dir)
            && (forall f <- s1.own :: s1.own[f].PrivateTable? ==> s1.own[f].dir != t.dir)
  {
    hide Inv, Trans, Destroy, Held, Steady;
    var s1 := Destroy(s, t.dir);
    DestroyExact(s, t.dir);
    NoDirZero(s);
    assert Preserves(s, s1, t.dir);
    HeldKept(s, s1, t.dir, t.rec, false, t.dir);
    forall u: Task | TaskHeld(s, u) && Apart(t, u)
      ensures TaskHeld(s1, u)
    {
      HeldKept(s, s1, u.dir, u.rec, false, t.dir);
      HeldKept(s, s1, u.dir, u.kstack, false, t.dir);
      HeldKept(s, s1, u.dir, u.ustack, true, t.dir);
      forall q | q in u.image
        ensures Held(s1, u.dir, q, true)
      {
        HeldKept(s, s1, u.dir, q, true, t.dir);
      }
    }
  }

  /**
   The states task_destroy passes through are well-formed, hold what it is about to free,
   and shed only frames of the task.
   */
  lemma DestroyMiddle(s: St, t: Task)
    requires Inv(s) && s.saved == 0 && TaskHeld(s, t) && WellTagged(t) && t.dir != s.cr3 && DestroyTask(s, t).clean
    ensures var s1 := Modify(s, t.dir);
            var s2 := FreePiece(s1, t.kstack);
            var s3 := FreePiece(s2, t.ustack);
            var s4 := Modified(s3);
            var s5 := Destroy(s4, t.dir);
            && Load(s, t.dir).clean && Sheds(s, s1, t) && s1.cr3 == t.dir && s1.saved == s.cr3 && s.cr3 != 0
            && Held(s1, t.dir, t.kstack, false) && Sheds(s1, s2, t) && s2.cr3 == t.dir
            && Held(s2, t.dir, t.ustack, true)
            && Sheds(s2, s3, t) && s3.saved == s.cr3 && IsDir(s3, s.cr3) && Load(s3, s.cr3).clean
            && Sheds(s3, s4, t) && IsDir(s4, t.dir) && s4.cr3 == s.cr3 && s4.saved == 0 && Destroy(s4, t.dir).clean
            && Sheds(s4, s5, t) && Held(s5, t.dir, t.rec, false) && s5.cr3 == s.cr3 && s5.saved == 0
            && (forall f <- s2.own :: t.kstack.len > 0 ==> !HasTag(s2.own[f], t.kstack.tag))
            && (forall f <- s3.own :: t.ustack.len > 0 ==> !HasTag(s3.own[f], t.ustack.tag))
            && (forall f <- s5.own ::
                  (s5.own[f] != Directory || f != t.dir) && (s5.own[f].PrivateTable? ==> s5.own[f].dir != t.dir))
  {
    hide Inv, Load, Held, Destroy, FreePiece, Sheds, Owns, WellTagged;
    var s1 := Modify(s, t.dir);
    var s2 := FreePiece(s1, t.kstack);
    var s3 := FreePiece(s2, t.ustack);
    var s4 := Modified(s3);
    WellTaggedParts(t);
    DestroyTaskClean(s, t);
    NoDirZero(s);
    ShedLoad(s, t.dir, t);
    ShedSaved(s, Load(s, t.dir), t, s.cr3);
    ShedsInv(s, s1, t);
    ShedFree(s1, t.kstack, false, t);
    ShedsInv(s1, s2, t);
    ShedFree(s2, t.ustack, true, t);
    ShedsInv(s2, s3, t);
    LoadDirs(s, t.dir, t);
    ShedLoad(s3, s.cr3, t);
    LoadDirs(s3, s.cr3, t);
    ShedSaved(s3, Load(s3, s.cr3), t, 0);
    ShedsInv(s3, s4, t);
    LoadHeld(s3, s.cr3, t.dir, t.rec, t);
    HeldSaved(Load(s3, s.cr3), t.dir, t.rec, false, 0);
    ShedDestroy(s4, t);
  }

  /** Destroying a task gives back every frame it owns and no other; a program must have been unloaded before. */
  lemma DestroyTaskExact(s: St, t: Task)
    requires Inv(s) && s.saved == 0 && TaskHeld(s, t) && WellTagged(t) && t.dir != s.cr3 && t.image == []
    requires DestroyTask(s, t).clean
    ensures var s1 := DestroyTask(s, t);
            && Sheds(s, s1, t) && s1.cr3 == s.cr3 && s1.saved == 0
            && (forall f <- s1.own :: !Owns(t, f, s1.own[f]))
  {
    hide Inv, Load, Held, Destroy, FreePiece, Sheds, Owns, WellTagged;
    var s1 := Modify(s, t.dir);
    var s2 := FreePiece(s1, t.kstack);
    var s3 := FreePiece(s2, t.ustack);
    var s4 := Modified(s3);
    var s5 := Destroy(s4, t.dir);
    var s6 := FreePiece(s5, t.rec);
    DestroyMiddle(s, t);
    ShedsInv(s4, s5, t);
    FreeCleans(s5, t.rec);
    ShedFree(s5, t.rec, false, t);
    ShedsTrans(s, s1, s2, t);
    ShedsTrans(s, s2, s3, t);
    ShedsTrans(s, s3, s4, t);
    ShedsTrans(s, s4, s5, t);
    ShedsTrans(s, s5, s6, t);
    ShedsTrans(s3, s4, s5, t);
    ShedsTrans(s3, s5, s6, t);
    ShedsTrans(s2, s3, s6, t);
    NoneLeft(s2, s3, s5, s6, t);
  }

  lemma LoadDirs(s: St, d: Frame, t: Task)
    requires Inv(s) && IsDir(s, d) && Load(s, d).clean
    ensures forall e: Frame :: IsDir(Load(s, d), e) <==> IsDir(s, e)
  {
    hide Inv, Load, Adds;
    AddLoad(s, d, t);
  }

  lemma LoadHeld(s: St, d: Frame, e: Frame, q: Piece, t: Task)
    requires Inv(s) && IsDir(s, d) && Load(s, d).clean && Held(s, e, q, false) && e != 0
    ensures Held(Load(s, d), e, q, false)
  {
    hide Inv, Load, Held, Adds;
    AddLoad(s, d, t);
    PieceKept(s, Load(s, d), e, q, false, t);
  }

  lemma ShedsInv(s: St, s1: St, t: Task)
    requires Sheds(s, s1, t)
    ensures Inv(s1) && s.clean
  {
    hide Inv;
  }

  lemma NoneLeft(s2: St, s3: St, s5: St, s6: St, t: Task)
    requires Sheds(s2, s6, t) && Sheds(s3, s6, t) && Sheds(s5, s6, t)
    requires forall f <- s2.own :: t.kstack.len > 0 ==> !HasTag(s2.own[f], t.kstack.tag)
    requires forall f <- s3.own :: t.ustack.len > 0 ==> !HasTag(s3.own[f], t.ustack.tag)
    requires forall f <- s5.own ::
               (s5.own[f] != Directory || f != t.dir) && (s5.own[f].PrivateTable? ==> s5.own[f].dir != t.dir)
    requires forall f <- s6.own :: t.rec.len > 0 ==> !HasTag(s6.own[f], t.rec.tag)
    requires t.image == []
    ensures forall f <- s6.own :: !Owns(t, f, s6.own[f])
  {
    hide Inv, TaskHeld, Apart;
  }

  lemma DestroyTaskClean(s: St, t: Task)
    requires DestroyTask(s, t).clean
    ensures var s1 := Modify(s, t.dir);
            var s2 := FreePiece(s1, t.kstack);
            var s3 := FreePiece(s2, t.ustack);
            var s4 := Modified(s3);
            s.clean && s1.clean && s2.clean && s3.clean && s4.clean && Destroy(s4, t.dir).clean
  {
    hide Load, Destroy, FreePiece;
    var s1 := Modify(s, t.dir);
    var s2 := FreePiece(s1, t.kstack);
    var s3 := FreePiece(s2, t.ustack);
    var s4 := Modified(s3);
    FreeCleans(Destroy(s4, t.dir), t.rec);
    DestroyCleans(s4, t.dir);
    if s3.saved != 0 { LoadCleans(s3, s3.saved); }
    FreeCleans(s2, t.ustack);
    FreeCleans(s1, t.kstack);
    if s.saved == 0 { LoadCleans(s, t.dir); }
  }
}
