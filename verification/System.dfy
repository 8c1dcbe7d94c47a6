/**
 Whole runs of the memory manager: any sequence of its operations, with any number of
 directories. The page tables, shared and refreshed lazily, behave like one global
 kernel map and one private map per directory, and no frame serves two purposes.
 */
module System {
  import opened Common
  import opened Pmm
  import opened Paging
  import opened Space
  import opened Ranges
  import opened Allocation
  import opened Directories

  datatype Op =
    | Map(page: Page, frame: Frame, flags: Flags)
    | Unmap(page: Page)
    | AllocMem(len: nat, flags: Flags)
    | FreeMem(page: Page, base: Frame, len: nat)
    | CreateDir
    | DestroyDir(dir: Frame)
    | LoadDir(dir: Frame)
    | DomainCheckSwitch(on: bool)

  ghost function Step(s: St, op: Op): St {
    match op
    case Map(page, frame, flags) => MapPage(s, s.cr3, page, frame, flags).0
    case Unmap(page) => UnmapPage(s, s.cr3, page)
    case AllocMem(len, flags) => if len < WORD then Alloc(s, len, flags).0 else s
    case FreeMem(page, base, len) => if Fits(page * PAGE_SIZE, len) then FreeRange(s, page * PAGE_SIZE, len) else s
    case CreateDir => Create(s).0
    case DestroyDir(d) => Destroy(s, d)
    case LoadDir(d) => Load(s, d)
    case DomainCheckSwitch(on) => s.(check := on)
  }

  /**
   What the callers owe: they do not map or unmap inside the window, they free what
   they allocated, and they destroy and load directories, never destroying the loaded one.
   */
  ghost predicate Legal(s: St, op: Op) {
    match op
    case Map(page, _, _) => Mappable(page)
    case Unmap(page) => Mappable(page)
    case AllocMem(len, _) => 0 < len < WORD
    case FreeMem(page, base, len) =>
      && 0 < len < WORD && page != 0 && base != 0
      && Fits(page * PAGE_SIZE, len) && Block(s, s.cr3, page, base, PagesOf(len))
    case CreateDir => true
    case DestroyDir(d) => IsDir(s, d) && d != s.cr3
    case LoadDir(d) => IsDir(s, d)
    case DomainCheckSwitch(_) => true
  }

  ghost function Run(s: St, ops: seq<Op>): St
    decreases |ops|
  {
    if ops == [] then s else Run(Step(s, ops[0]), ops[1..])
  }

  /** Each step is legal where it is taken and runs into no shortage and no lost table. */
  ghost predicate CleanRun(s: St, ops: seq<Op>)
    decreases |ops|
  {
    ops == [] || (Legal(s, ops[0]) && Step(s, ops[0]).clean && CleanRun(Step(s, ops[0]), ops[1..]))
  }

  // ----- the map a caller sees

  /** check as in the state; kernel is common to all directories, private belongs to one. */
  datatype View = View(kernel: map<Page, Mapping>, private: map<Frame, map<Page, Mapping>>, current: Frame, check: bool)

  ghost function Part(s: St, d: Frame, shared: bool): map<Page, Mapping> {
    map p: Page | Mappable(p) && IsShared(p / ENTRIES) == shared && Trans(s, d, p).Some? :: Trans(s, d, p).value
  }

  ghost function ViewOf(s: St): View {
    View(Part(s, s.cr3, true), map d: Frame | IsDir(s, d) :: Part(s, d, false), s.cr3, s.check)
  }

  ghost function Insert(m: map<Page, Mapping>, page: nat, base: Frame, n: nat, flags: Flags): map<Page, Mapping>
    requires base + n <= PAGE_NUMBER
  {
    map p: Page | p in m || page <= p < page + n ::
      if page <= p < page + n then Mapping(base + p - page, flags.writable, flags.user) else m[p]
  }

  ghost function Remove(m: map<Page, Mapping>, page: nat, n: nat): map<Page, Mapping> {
    map p: Page | p in m && !(page <= p < page + n) :: m[p]
  }

  /** The maps after mapping or unmapping pages of which the shared ones go to the kernel map. */
  ghost predicate Mapped(v: View, v': View, page: nat, base: Frame, n: nat, flags: Flags)
    requires v.current in v.private && base + n <= PAGE_NUMBER
  {
    if IsSharedPage(page) then v' == v.(kernel := Insert(v.kernel, page, base, n, flags))
    else v' == v.(private := v.private[v.current := Insert(v.private[v.current], page, base, n, flags)])
  }

  ghost predicate Unmapped'(v: View, v': View, page: nat, n: nat)
    requires v.current in v.private
  {
    v' == v.(kernel := Remove(v.kernel, page, n),
             private := v.private[v.current := Remove(v.private[v.current], page, n)])
  }

  predicate IsSharedPage(page: nat) {
    KERNEL_START <= page <= KERNEL_END
  }

  /** What each operation does to the maps a caller sees. */
  ghost predicate Next(v: View, op: Op, v': View) {
    v.current in v.private &&
    match op
    case Map(page, frame, flags) =>
      if (v.check && !InDomain(page, flags.user)) || page in v.kernel || page in v.private[v.current] then v' == v
      else Mapped(v, v', page, frame, 1, flags)
    case Unmap(page) => Unmapped'(v, v', page, 1)
    case AllocMem(len, flags) =>
      exists page: Page, base: Frame | base + PagesOf(len) <= PAGE_NUMBER ::
        && InDomain(page, flags.user) && InDomain(page + PagesOf(len) - 1, flags.user)
        && (forall p: Page :: page <= p < page + PagesOf(len) ==> p !in v.kernel && p !in v.private[v.current])
        && Mapped(v, v', page, base, PagesOf(len), flags)
    case FreeMem(page, base, len) => Unmapped'(v, v', page, PagesOf(len))
    case CreateDir => exists d: Frame :: d !in v.private && v' == v.(private := v.private[d := map[]])
    case DestroyDir(d) => v' == v.(private := v.private - {d})
    case LoadDir(d) => d in v.private && v' == v.(current := d)
    case DomainCheckSwitch(on) => v' == v.(check := on)
  }

  // ----- one step

  lemma PartIs(s: St, d: Frame, shared: bool, m: map<Page, Mapping>)
    requires forall p: Page :: p in m ==> Mappable(p) && IsShared(p / ENTRIES) == shared
    requires forall p: Page :: Mappable(p) && IsShared(p / ENTRIES) == shared ==>
               Trans(s, d, p) == if p in m then Some(m[p]) else None
    ensures Part(s, d, shared) == m
  {
    hide Trans;
  }

  /** All n pages from page on are shared, or none of them is. */
  ghost predicate OneSided(page: nat, n: nat) {
    page + n <= 1023 * ENTRIES && forall p :: page <= p < page + n ==> IsSharedPage(p) == IsSharedPage(page)
  }

  lemma SharedPages()
    ensures forall p: Page :: IsShared(p / ENTRIES) <==> IsSharedPage(p)
  {
  }

  lemma PartMapped(s: St, s1: St, d: Frame, shared: bool, page: nat, base: Frame, n: nat, flags: Flags)
    requires base + n <= PAGE_NUMBER && OneSided(page, n)
    requires OnlyMapped(s, s1, page, base, n, flags) && IsDir(s, d) && (shared ==> d == s.cr3)
    ensures Part(s1, d, shared) ==
            if d == s.cr3 && shared == IsSharedPage(page) then Insert(Part(s, d, shared), page, base, n, flags)
            else Part(s, d, shared)
  {
    hide Trans;
    SharedPages();
    var m := if d == s.cr3 && shared == IsSharedPage(page) then Insert(Part(s, d, shared), page, base, n, flags)
             else Part(s, d, shared);
    PartIs(s1, d, shared, m);
  }

  lemma PartCleared(s: St, s1: St, d: Frame, shared: bool, page: nat, n: nat)
    requires OnlyCleared(s, s1, page, n) && IsDir(s, d) && (shared ==> d == s.cr3)
    ensures Part(s1, d, shared) ==
            if d == s.cr3 then Remove(Part(s, d, shared), page, n) else Part(s, d, shared)
  {
    hide Trans;
    PartIs(s1, d, shared, if d == s.cr3 then Remove(Part(s, d, shared), page, n) else Part(s, d, shared));
  }

  ghost predicate SameDirs(s: St, s1: St) {
    forall d: Frame :: IsDir(s1, d) <==> IsDir(s, d)
  }

  lemma ViewMapped(s: St, s1: St, page: nat, base: Frame, n: nat, flags: Flags)
    requires IsDir(s, s.cr3) && SameSwitches(s, s1) && SameDirs(s, s1)
    requires base + n <= PAGE_NUMBER && OneSided(page, n) && OnlyMapped(s, s1, page, base, n, flags)
    ensures Mapped(ViewOf(s), ViewOf(s1), page, base, n, flags)
  {
    hide OnlyMapped, Insert, Part;
    forall d: Frame | IsDir(s, d)
      ensures Part(s1, d, false) ==
              if d == s.cr3 && !IsSharedPage(page) then Insert(Part(s, d, false), page, base, n, flags)
              else Part(s, d, false)
    {
      PartMapped(s, s1, d, false, page, base, n, flags);
    }
    PartMapped(s, s1, s.cr3, true, page, base, n, flags);
    var (v, v') := (ViewOf(s), ViewOf(s1));
    assert v'.private == if IsSharedPage(page) then v.private
                         else v.private[v.current := Insert(v.private[v.current], page, base, n, flags)];
  }

  lemma ViewCleared(s: St, s1: St, page: nat, n: nat)
    requires IsDir(s, s.cr3) && SameSwitches(s, s1) && SameDirs(s, s1) && OnlyCleared(s, s1, page, n)
    ensures Unmapped'(ViewOf(s), ViewOf(s1), page, n)
  {
    hide OnlyCleared, Remove, Part;
    forall d: Frame | IsDir(s, d)
      ensures Part(s1, d, false) == if d == s.cr3 then Remove(Part(s, d, false), page, n) else Part(s, d, false)
    {
      PartCleared(s, s1, d, false, page, n);
    }
    PartCleared(s, s1, s.cr3, true, page, n);
    var (v, v') := (ViewOf(s), ViewOf(s1));
    assert v'.private == v.private[v.current := Remove(v.private[v.current], page, n)];
  }

  /** A page is in the kernel map or in the loaded private map exactly when it has a translation. */
  lemma InView(s: St, page: Page)
    requires IsDir(s, s.cr3) && Mappable(page)
    ensures var v := ViewOf(s);
            (page in v.kernel || page in v.private[v.current]) <==> Trans(s, s.cr3, page).Some?
  {
    hide Trans;
  }

  /** The invariant and the books after one operation that runs into no shortage. */
  ghost predicate Sound(s: St, s1: St) {
    s.clean && Inv(s1) && Steady(s, s1)
  }

  lemma StepMap(s: St, page: Page, frame: Frame, flags: Flags)
    requires Inv(s) && Mappable(page) && MapPage(s, s.cr3, page, frame, flags).0.clean
    ensures var s1 := MapPage(s, s.cr3, page, frame, flags).0;
            Sound(s, s1) && Next(ViewOf(s), Map(page, frame, flags), ViewOf(s1))
  {
    hide Inv, Steady, Trans, MapPage, AddsTables, ViewOf, OnlyMapped, OnlyPage, Mapped;
    var (s1, ok) := MapPage(s, s.cr3, page, frame, flags);
    GrowsRefl(s, true);
    MapGrows(s, page, frame, flags);
    MapExact(s, page, frame, flags);
    InView(s, page);
    if ok {
      OnePage(s, s1, page, frame, flags);
      ViewMapped(s, s1, page, frame, 1, flags);
    }
    ViewFields(s);
  }

  lemma ViewFields(s: St)
    requires IsDir(s, s.cr3)
    ensures ViewOf(s).check == s.check && ViewOf(s).current == s.cr3 && s.cr3 in ViewOf(s).private
  {
  }

  lemma OnePage(s: St, s1: St, page: Page, frame: Frame, flags: Flags)
    requires OnlyPage(s, s1, page, Some(Mapping(frame, flags.writable, flags.user)))
    ensures OnlyMapped(s, s1, page, frame, 1, flags)
  {
    hide Trans;
  }

  lemma OnePageCleared(s: St, s1: St, page: Page)
    requires OnlyPage(s, s1, page, None)
    ensures OnlyCleared(s, s1, page, 1)
  {
    hide Trans;
  }

  lemma StepUnmap(s: St, page: Page)
    requires Inv(s) && Mappable(page) && UnmapPage(s, s.cr3, page).clean
    ensures var s1 := UnmapPage(s, s.cr3, page);
            Sound(s, s1) && Next(ViewOf(s), Unmap(page), ViewOf(s1))
  {
    hide OnlyPage, OnlyCleared, Inv, Trans, UnmapPage, ViewOf, FreesLiveTable, Unmapped';
    GrowsRefl(s, true);
    UnmapExact(s, page);
    ViewFields(s);
    var s1 := UnmapPage(s, s.cr3, page);
    OnePageCleared(s, s1, page);
    ViewCleared(s, s1, page, 1);
  }

  lemma StepAlloc(s: St, len: nat, flags: Flags)
    requires Inv(s) && 0 < len < WORD && Alloc(s, len, flags).0.clean
    ensures var s1 := Alloc(s, len, flags).0;
            Sound(s, s1) && Next(ViewOf(s), AllocMem(len, flags), ViewOf(s1))
  {
    hide Inv, Trans, Alloc, Steady, AddsTables, ViewOf, Mapped, OnlyMapped, Choose, PagesOf;
    var (s1, vaddr) := Alloc(s, len, flags);
    AllocPages(s, len, flags);
    GrowsRefl(s, true);
    ViewFields(s);
    var page: Page, base, n := vaddr / PAGE_SIZE, Choose(s.marks, len), PagesOf(len);
    forall p: Page | page <= p < page + n
      ensures p !in ViewOf(s).kernel && p !in ViewOf(s).private[s.cr3]
    {
      InView(s, p);
    }
    ViewMapped(s, s1, page, base, n, flags);
    assert base + PagesOf(len) <= PAGE_NUMBER;
  }

  lemma StepFree(s: St, page: Page, base: Frame, len: nat)
    requires Inv(s) && Legal(s, FreeMem(page, base, len)) && FreeRange(s, page * PAGE_SIZE, len).clean
    ensures var s1 := FreeRange(s, page * PAGE_SIZE, len);
            Sound(s, s1) && Next(ViewOf(s), FreeMem(page, base, len), ViewOf(s1))
  {
    hide Inv, Trans, FreeRange, ViewOf, Steady, Unmapped', OnlyCleared, Block, UnmapRange;
    FreeExact(s, page, base, len);
    GrowsRefl(s, true);
    ViewFields(s);
    ViewCleared(s, FreeRange(s, page * PAGE_SIZE, len), page, PagesOf(len));
  }

  lemma StepCreate(s: St)
    requires Inv(s) && Create(s).0.clean
    ensures var s1 := Create(s).0; Sound(s, s1) && Next(ViewOf(s), CreateDir, ViewOf(s1))
  {
    hide Inv, Trans, Create, Steady, AddsTables, Part;
    var (s1, f) := Create(s);
    CreateExact(s);
    GrowsRefl(s, true);
    forall d: Frame | IsDir(s, d)
      ensures Part(s1, d, false) == Part(s, d, false)
    {
      PartSame(s, s1, d, d, false);
    }
    PartSame(s, s1, s.cr3, s.cr3, true);
    PartIs(s1, f, false, map[]);
    assert ViewOf(s1).private == ViewOf(s).private[f := map[]];
    assert f !in ViewOf(s).private && ViewOf(s1) == ViewOf(s).(private := ViewOf(s).private[f := map[]]);
  }

  lemma PartSame(s: St, s1: St, d: Frame, d1: Frame, shared: bool)
    requires forall p: Page :: Mappable(p) && IsShared(p / ENTRIES) == shared ==> Trans(s1, d1, p) == Trans(s, d, p)
    ensures Part(s1, d1, shared) == Part(s, d, shared)
  {
    hide Trans;
  }

  lemma StepDestroy(s: St, d: Frame)
    requires Inv(s) && IsDir(s, d) && d != s.cr3 && Destroy(s, d).clean
    ensures var s1 := Destroy(s, d); Sound(s, s1) && Next(ViewOf(s), DestroyDir(d), ViewOf(s1))
  {
    hide Inv, Trans, Destroy, Steady, Part;
    var s1 := Destroy(s, d);
    DestroyExact(s, d);
    GrowsRefl(s, true);
    forall e: Frame | IsDir(s, e) && e != d
      ensures Part(s1, e, false) == Part(s, e, false)
    {
      PartSame(s, s1, e, e, false);
    }
    PartSame(s, s1, s.cr3, s.cr3, true);
    assert forall e: Frame :: IsDir(s1, e) <==> IsDir(s, e) && e != d;
    assert ViewOf(s1).private == ViewOf(s).private - {d};
  }

  lemma StepLoad(s: St, d: Frame)
    requires Inv(s) && IsDir(s, d) && Load(s, d).clean
    ensures var s1 := Load(s, d); Sound(s, s1) && Next(ViewOf(s), LoadDir(d), ViewOf(s1))
  {
    hide Inv, Trans, Load, Steady, AddsTables, Part;
    var s1 := Load(s, d);
    LoadExact(s, d);
    GrowsRefl(s, true);
    forall e: Frame | IsDir(s, e)
      ensures Part(s1, e, false) == Part(s, e, false)
    {
      PartSame(s, s1, e, e, false);
    }
    PartSame(s, s1, s.cr3, d, true);
    assert ViewOf(s1).private == ViewOf(s).private;
  }

  /**
   Every operation that runs into no shortage keeps the invariant and the books, and
   acts on the maps a caller sees as specified, whatever directories share and
   however stale their kernel entries are.
   */
  lemma StepRefines(s: St, op: Op)
    requires Inv(s) && Legal(s, op) && Step(s, op).clean
    ensures Sound(s, Step(s, op)) && Next(ViewOf(s), op, ViewOf(Step(s, op)))
  {
    hide Inv, Next, Steady, ViewOf, Block;
    match op
    case Map(page, frame, flags) => StepMap(s, page, frame, flags);
    case Unmap(page) => StepUnmap(s, page);
    case AllocMem(len, flags) => StepAlloc(s, len, flags);
    case FreeMem(page, base, len) => StepFree(s, page, base, len);
    case CreateDir => StepCreate(s);
    case DestroyDir(d) => StepDestroy(s, d);
    case LoadDir(d) => StepLoad(s, d);
    case DomainCheckSwitch(on) => StepSwitch(s, on);
  }

  lemma StepSwitch(s: St, on: bool)
    requires Inv(s) && s.clean
    ensures Sound(s, s.(check := on)) && Next(ViewOf(s), DomainCheckSwitch(on), ViewOf(s.(check := on)))
  {
    var s1 := s.(check := on);
    TransKept(s, s1);
    assert forall d: Frame, shared: bool :: Part(s1, d, shared) == Part(s, d, shared);
    assert ViewOf(s1).private == ViewOf(s).private;
  }

  // ----- whole runs

  /** Each step of the run acts on the maps a caller sees as specified. */
  ghost predicate Behaves(s: St, ops: seq<Op>)
    decreases |ops|
  {
    ops == [] || (Next(ViewOf(s), ops[0], ViewOf(Step(s, ops[0]))) && Behaves(Step(s, ops[0]), ops[1..]))
  }

  lemma {:induction false} RunRefines(s: St, ops: seq<Op>)
    requires Inv(s) && CleanRun(s, ops)
    ensures Inv(Run(s, ops)) && Steady(s, Run(s, ops)) && Behaves(s, ops)
    decreases |ops|
  {
    hide Inv, Next, Steady, ViewOf, Legal, Step;
    if ops == [] {
      SteadyRefl(s);
      return;
    }
    var s1 := Step(s, ops[0]);
    StepRefines(s, ops[0]);
    RunRefines(s1, ops[1..]);
    SteadyTrans(s, s1, Run(s, ops));
  }

  lemma SteadyRefl(s: St)
    ensures Steady(s, s)
  {
  }

  ghost predicate ListsTable(s: St, d: Frame, i: Index, f: Frame) {
    IsDir(s, d) && i < 1023 && s.mem[d][i].pr && s.mem[d][i].frame == f
  }

  /**
   In every state of such a run, directories, the tables they list and allocated data
   are disjoint frames, all marked as used; two entries list the same table only if
   they are the same entry, or the same kernel entry of two directories, and two
   present kernel entries at the same index always do.
   */
  lemma FramesDisjoint(s: St, ops: seq<Op>)
    requires Inv(s) && CleanRun(s, ops)
    ensures var t := Run(s, ops);
            && (forall f <- t.own :: (t.own[f].Data? || t.own[f].Directory?) ==> f != 0 && t.marks[f] != UNUSED)
            && (forall d: Frame, i: Index, f: Frame :: ListsTable(t, d, i, f) ==>
                  f != 0 && t.marks[f] != UNUSED && f in t.own && !t.own[f].Data? && !t.own[f].Directory?)
            && (forall d: Frame, i: Index, e: Frame, k: Index, f: Frame, g: Frame ::
                  ListsTable(t, d, i, f) && ListsTable(t, e, k, g) ==>
                    (f == g <==> i == k && (d == e || IsShared(i))))
  {
    RunRefines(s, ops);
    var t := Run(s, ops);
    forall d: Frame, i: Index, e: Frame, k: Index, f: Frame, g: Frame
      | ListsTable(t, d, i, f) && ListsTable(t, e, k, g)
      ensures f == g <==> i == k && (d == e || IsShared(i))
    {
      assert t.own[f] == RoleOf(d, i) && t.own[g] == RoleOf(e, k);
      if i == k && IsShared(i) {
        assert t.own[f] == KernelTable(i) && t.own[g] == KernelTable(i);
      }
    }
  }

  // ----- the guard at work

  /** Directory in frame 1, kernel table 1 in frame 2 with its first and last page mapped. */
  ghost function TwoPages(): St {
    var table: Table := seq(1024, j requires 0 <= j < 1024 =>
                          if j == 0 then Entry(true, false, false, 0, 3)
                          else if j == 1023 then Entry(true, false, false, 0, 4) else ZERO);
    var dir: Table := seq(1024, i requires 0 <= i < 1024 =>
                        if i == 1 then Entry(true, true, true, 0, 2)
                        else if i == 1023 then Entry(true, false, false, 0, 1) else ZERO);
    St(seq(0x10_0000, f requires 0 <= f < 0x10_0000 =>
             if f == 1 then dir else if f == 2 then table else seq(1024, _ => ZERO)),
       seq(0x10_0000, f requires 0 <= f < 0x10_0000 => if f < 5 then KERNEL else UNUSED),
       4, 1, true, 0, false, map[1 := Directory, 2 := KernelTable(1)], 0, true)
  }

  lemma TwoPagesInv()
    ensures Inv(TwoPages())
  {
    var s := TwoPages();
    assert s.mem[1][1023].frame == 1 && s.mem[1][1].frame == 2;
    assert forall i: Index :: s.mem[1][i].pr <==> i == 1 || i == 1023;
    assert s.own[2] == RoleOf(1, 1);
  }

  /** A state that keeps the invariant and in which unmapping one page also unmaps another. */
  lemma UnmapLosesLastPage()
    ensures var s := TwoPages();
            var s1 := UnmapPage(s, 1, 1024);
            && Inv(s) && Trans(s, 1, 2047) == Some(Mapping(4, false, false)) && Trans(s1, 1, 2047).None?
            && s1.marks[2] == UNUSED
  {
    hide Inv;
    TwoPagesInv();
    var s := TwoPages();
    assert s.mem[1][1].frame == 2;
    var t := s.mem[2][0 := ZERO];
    assert OnlyLast(t);
    assert Put(s.mem, 2, 0, ZERO)[2] == t;
    GiveOne(s.(mem := Put(s.mem, 2, 0, ZERO)), 2);
  }
}
