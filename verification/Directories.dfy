/** Page directories: creating, destroying, refreshing and loading them. */
module Directories {
  import opened Common
  import opened Pmm
  import opened Paging
  import opened Space
  import opened Ranges
  import opened Allocation

  const KERNEL_FLAGS := Flags(false, false)

  // ----- a directory made visible for a moment

  /** vmm_map_physical_memory for one frame of the kernel domain: the state and the page, 0 for failure. */
  ghost function ShowFrame(s: St, f: Frame): (St, Page) {
    var page := FindPages(s.mem, s.cr3, PAGE_SIZE, false);
    if page == 0 then (s.(clean := false), 0)
    else
      SpannedPages(page, PAGE_SIZE);
      (MapBytes(s, s.cr3, page * PAGE_SIZE, f * PAGE_SIZE, PAGE_SIZE, KERNEL_FLAGS), page)
  }

  /** vmm_unmap_physical_memory for it. */
  ghost function HideFrame(s: St, page: Page): St {
    UnmapBytes(s, s.cr3, page * PAGE_SIZE, PAGE_SIZE)
  }

  lemma ShowExact(s: St, f: Frame)
    requires Inv(s) && ShowFrame(s, f).0.clean
    ensures var (s1, page) := ShowFrame(s, f);
            && s.clean && Grows(s, s1, true) && FirstKept(s, s1)
            && InDomain(page, false) && Trans(s, s.cr3, page).None?
            && OnlyMapped(s, s1, page, f, 1, KERNEL_FLAGS)
  {
    hide Inv, Steady, Trans, MapRange, AddsTables, OtherDirsKept, OnlyMapped, FirstKept;
    var page := FindPages(s.mem, s.cr3, PAGE_SIZE, false);
    SpannedPages(page, PAGE_SIZE);
    assert PagesOf(PAGE_SIZE) == 1;
    MapRangeGrows(s, page, f, 1, KERNEL_FLAGS, true);
    MapRangeExact(s, page, f, 1, KERNEL_FLAGS);
    MapRangeFirst(s, page, f, 1, KERNEL_FLAGS);
    assert Trans(s, s.cr3, page).None?;
  }

  lemma HideExact(s: St, page: Page)
    requires Inv(s) && InDomain(page, false) && HideFrame(s, page).clean
    ensures var s1 := HideFrame(s, page); s.clean && Shrinks(s, s1) && OnlyCleared(s, s1, page, 1)
  {
    hide Inv, Trans, UnmapPage, FreesLiveTable, OnlyCleared;
    SpannedPages(page, PAGE_SIZE);
    assert PagesOf(PAGE_SIZE) == 1;
    UnmapRangeExact(s, page, 1);
  }

  lemma HideOne(s: St, page: Page)
    ensures HideFrame(s, page) == UnmapPage(s, s.cr3, page)
  {
    hide UnmapPage;
    SpannedPages(page, PAGE_SIZE);
    assert PagesOf(PAGE_SIZE) == 1;
    assert UnmapRange(s, s.cr3, page, 0) == s;
  }

  // ----- refreshing and loading

  /** The kernel domain entries of the loaded directory copied over those of directory d. */
  function CopyShared(m: Mem, from: Frame, to: Frame): Mem {
    m[to := seq(1024, k requires 0 <= k < 1024 => if IsShared(k) then m[from][k] else m[to][k])]
  }

  ghost function Refresh(s: St, d: Frame): St {
    var (s1, page) := ShowFrame(s, d);
    HideFrame(s1.(mem := CopyShared(s1.mem, s1.cr3, d)), page)
  }

  /**
   vmm_load_page_directory. A directory in the very last frame would be taken for the
   window address and not be loaded.
   */
  ghost function Load(s: St, d: Frame): St {
    if d * PAGE_SIZE == PAGEDIR then s.(clean := false) else Refresh(s, d).(cr3 := d)
  }

  /** The directory can be made visible, and is not taken for the window. */
  ghost predicate CanLoad(s: St, d: Frame) {
    d * PAGE_SIZE != PAGEDIR && ShowFrame(s, d).0.clean
  }

  lemma LoadShows(s: St, d: Frame)
    requires Load(s, d).clean
    ensures CanLoad(s, d)
  {
    hide ShowFrame, HideFrame, CopyShared;
    var (s1, page) := ShowFrame(s, d);
    RefreshClean(s1, s1.(mem := CopyShared(s1.mem, s1.cr3, d)), page);
  }

  lemma CopyExact(s: St, d: Frame)
    requires Inv(s) && IsDir(s, d)
    ensures var s1 := s.(mem := CopyShared(s.mem, s.cr3, d));
            && Inv(s1) && FirstKept(s, s1)
            && (forall e: Frame :: IsDir(s, e) && e != d ==> s1.mem[e] == s.mem[e])
            && (forall k: Index :: IsShared(k) ==> s1.mem[d][k] == s.mem[s.cr3][k])
            && (forall e: Frame, p: Page :: IsDir(s, e) && Mappable(p) ==>
                  Trans(s1, e, p) == if e == d && IsShared(p / ENTRIES) then Trans(s, s.cr3, p) else Trans(s, e, p))
  {
    var s1 := s.(mem := CopyShared(s.mem, s.cr3, d));
    forall e: Frame, p: Page | IsDir(s, e) && Mappable(p)
      ensures Trans(s1, e, p) == if e == d && IsShared(p / ENTRIES) then Trans(s, s.cr3, p) else Trans(s, e, p)
    {
      var from := if e == d && IsShared(p / ENTRIES) then s.cr3 else e;
      var k := p / ENTRIES;
      if s.mem[from][k].pr {
        assert s.own[s.mem[from][k].frame] == RoleOf(from, k);
        assert s.mem[from][k].frame != d;
      }
    }
    CopyInv(s, d);
  }

  lemma CopyInv(s: St, d: Frame)
    requires Inv(s) && IsDir(s, d)
    ensures Inv(s.(mem := CopyShared(s.mem, s.cr3, d)))
  {
    var s1 := s.(mem := CopyShared(s.mem, s.cr3, d));
    forall e: Frame, k: Index
      ensures s1.mem[e][k] == if e == d && IsShared(k) then s.mem[s.cr3][k] else s.mem[e][k]
    {
    }
    assert forall e: Frame :: IsDir(s1, e) <==> IsDir(s, e);
  }

  /** What a directory says once it has been refreshed: the loaded kernel part, its own private part. */
  ghost predicate OnlyRefreshed(s: St, s1: St, d: Frame) {
    forall e: Frame, p: Page :: IsDir(s, e) && Mappable(p) ==>
      Trans(s1, e, p) == if e == d && IsShared(p / ENTRIES) then Trans(s, s.cr3, p) else Trans(s, e, p)
  }

  lemma RefreshExact(s: St, d: Frame)
    requires Inv(s) && IsDir(s, d) && Refresh(s, d).clean
    ensures var s1 := Refresh(s, d);
            && s.clean && Inv(s1) && SameSwitches(s, s1) && Steady(s, s1) && AddsTables(s.own, s1.own, s.cr3, true)
            && (forall e: Frame :: IsDir(s1, e) <==> IsDir(s, e))
            && (forall e: Frame :: IsDir(s, e) && e != d && e != s.cr3 ==> s1.mem[e] == s.mem[e])
            && (forall k: Index :: IsShared(k) ==> s1.mem[d][k] == s1.mem[s.cr3][k])
            && OnlyRefreshed(s, s1, d) && FirstKept(s, s1)
  {
    hide Inv, Steady, Trans, AddsTables, CopyShared, MapBytes, UnmapBytes, ShowFrame, HideFrame;
    var (s1, page) := ShowFrame(s, d);
    var s2 := s1.(mem := CopyShared(s1.mem, s1.cr3, d));
    RefreshClean(s1, s2, page);
    ShowExact(s, d);
    GrowsRefl(s, true);
    SharedAgree(s);
    CopyExact(s1, d);
    HideExact(s2, page);
    var s3 := Refresh(s, d);
    assert s3 == HideFrame(s2, page);
    SteadyKept(s, s1, s, s3);
    TransPresent(s1, s1.cr3, page);
  }

  lemma TransPresent(s: St, d: Frame, p: Page)
    requires Trans(s, d, p).Some?
    ensures s.mem[d][p / ENTRIES].pr
  {
  }

  lemma RefreshClean(s1: St, s2: St, page: Page)
    requires s1.clean == s2.clean && HideFrame(s2, page).clean
    ensures s1.clean
  {
    SpannedPages(page, PAGE_SIZE);
    UnmapRangeClean(s2, page, PagesOf(PAGE_SIZE));
  }

  /**
   Loading a directory: it is the loaded one; it now has exactly the kernel translations
   that were loaded before and its own private ones; all others say what they said.
   */
  lemma LoadExact(s: St, d: Frame)
    requires Inv(s) && IsDir(s, d) && Load(s, d).clean
    ensures var s1 := Load(s, d);
            && s.clean && Inv(s1) && s1.cr3 == d && s1.check == s.check && s1.saved == s.saved
            && Steady(s, s1) && AddsTables(s.own, s1.own, s.cr3, true)
            && (forall e: Frame :: IsDir(s1, e) <==> IsDir(s, e))
            && OnlyRefreshed(s, s1, d) && FirstKept(s, s1)
  {
    hide Steady, AddsTables, Refresh, Trans;
    RefreshExact(s, d);
    SwitchInv(Refresh(s, d), d);
    TransKept(Refresh(s, d), Load(s, d));
    SteadyKept(s, Refresh(s, d), s, Load(s, d));
  }

  lemma SwitchInv(s: St, d: Frame)
    requires Inv(s) && IsDir(s, d) && forall k: Index :: IsShared(k) ==> s.mem[d][k] == s.mem[s.cr3][k]
    ensures Inv(s.(cr3 := d))
  {
    assert forall e: Frame :: IsDir(s.(cr3 := d), e) <==> IsDir(s, e);
  }

  // ----- creating

  function EmptyDirectory(f: Frame): Table {
    seq(1024, k requires 0 <= k < 1024 => if k == 1023 then Entry(true, false, false, 0, f) else ZERO)
  }

  /** vmm_create_page_directory: the state and the frame of the new directory. */
  ghost function Create(s: St): (St, Frame) {
    var (s1, f) := Take(s, PAGE_SIZE, KERNEL, Data(s.next, false));
    var (s2, page) := ShowFrame(s1, f);
    var s3 := s2.(mem := s2.mem[f := EmptyDirectory(f)], own := if f == 0 then s2.own else s2.own[f := Directory]);
    (HideFrame(s3, page), f)
  }

  /** There is a frame for a new directory, and it can be made visible. */
  ghost predicate CanCreate(s: St) {
    var (s1, f) := Take(s, PAGE_SIZE, KERNEL, Data(s.next, false));
    ShowFrame(s1, f).0.clean
  }

  lemma CreateShows(s: St)
    requires Create(s).0.clean
    ensures CanCreate(s)
  {
    hide ShowFrame, HideFrame, Take;
    var (s1, f) := Take(s, PAGE_SIZE, KERNEL, Data(s.next, false));
    var (s2, page) := ShowFrame(s1, f);
    var own := if f == 0 then s2.own else s2.own[f := Directory];
    RefreshClean(s2, s2.(mem := s2.mem[f := EmptyDirectory(f)], own := own), page);
  }

  /** An allocated frame turned into a directory that lists nothing but itself. */
  lemma Promote(s: St, f: Frame)
    requires Inv(s) && f in s.own && s.own[f].Data? && !s.own[f].user
    ensures var s1 := s.(mem := s.mem[f := EmptyDirectory(f)], own := s.own[f := Directory]);
            && Inv(s1)
            && (forall d: Frame :: IsDir(s1, d) <==> IsDir(s, d) || d == f)
            && (forall d: Frame, p: Page :: IsDir(s, d) && Mappable(p) ==> Trans(s1, d, p) == Trans(s, d, p))
            && (forall p: Page :: Mappable(p) ==> Trans(s1, f, p).None?)
  {
    var s1 := s.(mem := s.mem[f := EmptyDirectory(f)], own := s.own[f := Directory]);
    assert forall d: Frame :: IsDir(s1, d) <==> IsDir(s, d) || d == f;
    OtherFrame(s, s1, f);
  }

  /**
   A created directory takes one unused frame, maps nothing but itself, and leaves all
   translations of the other directories alone.
   */
  lemma CreateExact(s: St)
    requires Inv(s) && Create(s).0.clean
    ensures var (s1, f) := Create(s);
            && s.clean && f != 0 && f !in s.own && s.marks[f] == UNUSED
            && Inv(s1) && SameSwitches(s, s1) && Steady(s, s1)
            && AddsTables(s.own[f := Directory], s1.own, s.cr3, true)
            && (forall d: Frame :: IsDir(s1, d) <==> IsDir(s, d) || d == f)
            && SameTrans(s, s1)
            && (forall p: Page :: Mappable(p) ==> Trans(s1, f, p).None?)
            && FirstKept(s, s1) && !s1.mem[f][0].pr
  {
    hide Inv, Steady, Trans, AddsTables, ShowFrame, HideFrame, Choose, OnlyMapped, OnlyCleared, OtherDirsKept,
      SameTrans;
    var (s1, f) := Take(s, PAGE_SIZE, KERNEL, Data(s.next, false));
    var (s2, page) := ShowFrame(s1, f);
    var s3 := s2.(mem := s2.mem[f := EmptyDirectory(f)], own := if f == 0 then s2.own else s2.own[f := Directory]);
    var s4 := HideFrame(s3, page);
    assert (s4, f) == Create(s);
    RefreshClean(s2, s3, page);
    ShowClean(s1, f);
    assert f != 0;
    TakeOneData(s, f);
    ShowExact(s1, f);
    DataKept(s1, s2, f);
    Promote(s2, f);
    HideExact(s3, page);
    CreateBooks(s, s1, s2, s4, f);
    CreateTrans(s, s1, s2, s3, s4, page, f);
  }

  lemma CreateTrans(s: St, s1: St, s2: St, s3: St, s4: St, page: Page, f: Frame)
    requires Inv(s) && s1.mem == s.mem && s1.cr3 == s2.cr3 == s3.cr3 == s.cr3 && InDomain(page, false)
    requires forall d: Frame :: IsDir(s1, d) <==> IsDir(s, d)
    requires OtherDirsKept(s1, s2) && OnlyMapped(s1, s2, page, f, 1, KERNEL_FLAGS) && Trans(s1, s.cr3, page).None?
    requires forall d: Frame :: IsDir(s3, d) <==> IsDir(s2, d) || d == f
    requires f !in s.own && s3.mem == s2.mem[f := EmptyDirectory(f)]
    requires forall d: Frame, p: Page :: IsDir(s2, d) && Mappable(p) ==> Trans(s3, d, p) == Trans(s2, d, p)
    requires forall p: Page :: Mappable(p) ==> Trans(s3, f, p).None?
    requires OnlyCleared(s3, s4, page, 1) && s4.own == s3.own
    ensures forall d: Frame :: IsDir(s4, d) <==> IsDir(s, d) || d == f
    ensures SameTrans(s, s4)
    ensures forall p: Page :: Mappable(p) ==> Trans(s4, f, p).None?
  {
    hide Inv, Trans;
    TransKept(s, s1);
    GrowsRefl(s, true);
    SharedAgree(s);
    assert forall d: Frame :: IsDir(s4, d) <==> IsDir(s3, d);
    assert forall d: Frame :: IsDir(s, d) ==> (Sees(s, d, page) ==> Sees(s3, d, page));
  }

  lemma ShowClean(s: St, f: Frame)
    requires ShowFrame(s, f).0.clean
    ensures s.clean
  {
    hide MapPage, FindPages;
    var page := FindPages(s.mem, s.cr3, PAGE_SIZE, false);
    SpannedPages(page, PAGE_SIZE);
    MapRangeClean(s, s.cr3, page, f, 1, KERNEL_FLAGS);
    assert MapRange(s, s.cr3, page, f, 0, KERNEL_FLAGS) == s;
  }

  lemma TakeOneData(s: St, f: Frame)
    requires Inv(s) && f == Choose(s.marks, PAGE_SIZE) && f != 0
    ensures var s1 := Take(s, PAGE_SIZE, KERNEL, Data(s.next, false)).0;
            && f !in s.own && s.marks[f] == UNUSED && s1.own == s.own[f := Data(s.next, false)]
            && Inv(s1) && SameSwitches(s, s1) && s1.mem == s.mem && Steady(s, s1)
            && (forall d: Frame :: IsDir(s1, d) <==> IsDir(s, d))
  {
    TakeData(s, PAGE_SIZE, false);
    TakeOne(s, Data(s.next, false));
  }

  lemma DataKept(s1: St, s2: St, f: Frame)
    requires AddsTables(s1.own, s2.own, s1.cr3, true) && f in s1.own && s1.own[f].Data?
    ensures f in s2.own && s2.own[f] == s1.own[f]
  {
  }

  lemma CreateBooks(s: St, s1: St, s2: St, s4: St, f: Frame)
    requires f !in s.own && s1.own == s.own[f := Data(s.next, false)] && AddsTables(s1.own, s2.own, s.cr3, true)
    requires s4.own == s2.own[f := Directory] && s4.marks == s2.marks && s4.next == s2.next && s4.careful == s2.careful
    requires Steady(s, s1) && Steady(s1, s2)
    ensures Steady(s, s4) && AddsTables(s.own[f := Directory], s4.own, s.cr3, true)
  {
    SteadyTrans(s, s1, s2);
  }

  // ----- destroying

  /** Drops the present tables among the first n entries of the user domain. */
  function DropUser(s: St, d: Frame, n: nat): St
    requires n <= (USER_END - USER_START) / ENTRIES + 1
  {
    if n == 0 then s
    else
      var s1 := DropUser(s, d, n - 1);
      var i := USER_START / ENTRIES + n - 1;
      if s1.mem[d][i].pr then DropTable(s1, d, i) else s1
  }

  /** Entry 0, used for VM86 tasks: the code gives it back even if it is absent. */
  function DropFirst(s: St, d: Frame): St {
    if s.careful && !s.mem[d][0].pr then s else DropTable(s, d, 0)
  }

  /** vmm_destroy_page_directory: entry 0 first, then the user domain, then the directory. */
  ghost function Destroy(s: St, d: Frame): St {
    var (s1, page) := ShowFrame(s, d);
    var s2 := DropUser(DropFirst(s1, d), d, (USER_END - USER_START) / ENTRIES + 1);
    HideFrame(DropTable(s2, d, 1023), page)
  }

  /** Frames have gone from the books, all of them private tables of d or d itself. */
  ghost predicate Drops(own: map<Frame, Role>, own1: map<Frame, Role>, d: Frame) {
    && (forall f <- own1 :: f in own && own1[f] == own[f])
    && (forall f <- own :: f !in own1 ==> f == d || (own[f].PrivateTable? && own[f].dir == d))
  }

  /** Every directory but d is as it was. */
  ghost predicate OthersKept(s: St, s1: St, d: Frame) {
    && (forall e: Frame :: e != d ==> (IsDir(s1, e) <==> IsDir(s, e)))
    && (forall e: Frame :: IsDir(s, e) && e != d ==> s1.mem[e] == s.mem[e])
    && (forall e: Frame, p: Page :: IsDir(s, e) && e != d && Mappable(p) ==> Trans(s1, e, p) == Trans(s, e, p))
  }

  ghost predicate Dismantles(s: St, s1: St, d: Frame) {
    && Inv(s1) && SameSwitches(s, s1) && Steady(s, s1) && s1.clean == s.clean
    && Drops(s.own, s1.own, d) && OthersKept(s, s1, d)
  }

  lemma DismantlesTrans(s: St, s1: St, s2: St, d: Frame)
    requires Dismantles(s, s1, d) && Dismantles(s1, s2, d)
    ensures Dismantles(s, s2, d)
  {
    hide Inv, Trans, Steady;
    SteadyTrans(s, s1, s2);
  }

  lemma GiveOne(s: St, f: Frame)
    ensures var s1 := Give(s, f * PAGE_SIZE, PAGE_SIZE);
            && s1.marks == s.marks[f := UNUSED]
            && (forall g: Frame :: g in s1.own <==> g in s.own && g != f)
            && (forall g <- s1.own :: s1.own[g] == s.own[g])
            && s1 == s.(marks := s1.marks, own := s1.own)
  {
    assert PageOf(f * PAGE_SIZE, 0) == f && PageOf(f * PAGE_SIZE, PAGE_SIZE - 1) == f;
  }

  /** Dropping a private entry, present or not, of a directory that is not loaded. */
  lemma DropPrivate(s: St, d: Frame, i: Index)
    requires Inv(s) && IsDir(s, d) && d != s.cr3 && i < 1023 && !IsShared(i) && (s.careful ==> s.mem[d][i].pr)
    ensures var s1 := DropTable(s, d, i);
            && Dismantles(s, s1, d) && IsDir(s1, d)
            && s1.mem[d] == s.mem[d][i := ZERO]
            && s1.marks[0] == if s.mem[d][i].pr then s.marks[0] else UNUSED
  {
    var f := s.mem[d][i].frame;
    var s1 := DropTable(s, d, i);
    GiveOne(s, f);
    assert s.mem[d][i].pr ==> s.own[f] == PrivateTable(d, i);
    OtherFrame(s, s1, d);
    DropPrivateInv(s, d, i);
    hide Inv, Give, Trans, DropTable;
  }

  lemma DropFirstExact(s: St, d: Frame)
    requires Inv(s) && IsDir(s, d) && d != s.cr3
    ensures var s1 := DropFirst(s, d);
            && Dismantles(s, s1, d) && IsDir(s1, d) && !s1.mem[d][0].pr
            && s1.marks[0] == if s.mem[d][0].pr || s.careful then s.marks[0] else UNUSED
  {
    hide Inv, Steady, Trans, Drops, OthersKept, DropTable;
    if s.careful && !s.mem[d][0].pr {
      DismantlesRefl(s, d);
    } else {
      DropPrivate(s, d, 0);
    }
  }

  lemma DropPrivateInv(s: St, d: Frame, i: Index)
    requires Inv(s) && IsDir(s, d) && d != s.cr3 && i < 1023 && !IsShared(i)
    ensures Inv(DropTable(s, d, i))
  {
    var f := s.mem[d][i].frame;
    var s1 := DropTable(s, d, i);
    GiveOne(s, f);
    hide Give;
    assert s.mem[d][i].pr ==> s.own[f] == PrivateTable(d, i);
    assert forall e: Frame :: IsDir(s1, e) <==> IsDir(s, e);
    assert forall e: Frame, k: Index :: e != d || k != i ==> s1.mem[e][k] == s.mem[e][k];
  }

  lemma {:induction false} DropUserExact(s: St, d: Frame, n: nat)
    requires Inv(s) && IsDir(s, d) && d != s.cr3 && n <= (USER_END - USER_START) / ENTRIES + 1
    ensures var s1 := DropUser(s, d, n);
            && Dismantles(s, s1, d) && IsDir(s1, d) && s1.marks[0] == s.marks[0]
            && (forall k: Index :: !s.mem[d][k].pr ==> !s1.mem[d][k].pr)
            && (forall k: Index :: USER_START / ENTRIES <= k < USER_START / ENTRIES + n ==> !s1.mem[d][k].pr)
  {
    hide Inv, Steady, Trans, Drops, OthersKept, DropTable;
    if n == 0 {
      DismantlesRefl(s, d);
      return;
    }
    DropUserExact(s, d, n - 1);
    var s1 := DropUser(s, d, n - 1);
    var i := USER_START / ENTRIES + n - 1;
    if s1.mem[d][i].pr {
      DropPrivate(s1, d, i);
      DismantlesTrans(s, s1, DropTable(s1, d, i), d);
    }
  }

  lemma DismantlesRefl(s: St, d: Frame)
    requires Inv(s)
    ensures Dismantles(s, s, d)
  {
  }

  /** Dropping the entry that names the directory itself, the last of its private entries. */
  lemma DropSelf(s: St, d: Frame)
    requires Inv(s) && IsDir(s, d) && d != s.cr3
    requires forall k: Index :: k < 1023 && !IsShared(k) ==> !s.mem[d][k].pr
    ensures var s1 := DropTable(s, d, 1023);
            Dismantles(s, s1, d) && s1.marks[0] == s.marks[0] && d !in s1.own
            && forall f <- s1.own :: s1.own[f].PrivateTable? ==> s1.own[f].dir != d
  {
    var s1 := DropTable(s, d, 1023);
    hide Inv, DropTable, Trans;
    DropSelfInv(s, d);
    OtherFrame(s, s1, d);
    NotZero(s, d);
  }

  lemma NotZero(s: St, d: Frame)
    requires Inv(s) && IsDir(s, d)
    ensures d != 0
  {
  }

  lemma DropSelfInv(s: St, d: Frame)
    requires Inv(s) && IsDir(s, d) && d != s.cr3
    requires forall k: Index :: k < 1023 && !IsShared(k) ==> !s.mem[d][k].pr
    ensures var s1 := DropTable(s, d, 1023);
            && Inv(s1) && SameSwitches(s, s1) && s1.clean == s.clean
            && s1.own.Keys == s.own.Keys - {d} && (forall f <- s1.own :: s1.own[f] == s.own[f])
            && s1.marks == s.marks[d := UNUSED] && s1.mem == Put(s.mem, d, 1023, ZERO)
            && (forall f <- s1.own :: s1.own[f].PrivateTable? ==> s1.own[f].dir != d)
  {
    var s1 := DropTable(s, d, 1023);
    assert SelfMapped(s.mem, d);
    GiveOne(s, d);
    hide Give;
    assert forall f <- s1.own :: s1.own[f].PrivateTable? ==> s1.own[f].dir != d;
    assert forall e: Frame :: IsDir(s1, e) <==> IsDir(s, e) && e != d;
  }

  /** Trouble in making the directory visible is not forgotten. */
  lemma DestroyShows(s: St, d: Frame)
    requires Destroy(s, d).clean
    ensures ShowFrame(s, d).0.clean
  {
    hide ShowFrame, HideFrame, DropTable, DropUser, DropFirst;
    var (s1, page) := ShowFrame(s, d);
    var s2 := DropFirst(s1, d);
    var s3 := DropUser(s2, d, (USER_END - USER_START) / ENTRIES + 1);
    var s4 := DropTable(s3, d, 1023);
    DropCleans(s1, d, 1023);
    DropUserCleans(s2, d, (USER_END - USER_START) / ENTRIES + 1);
    DropCleans(s3, d, 1023);
    RefreshClean(s4, s4, page);
  }

  /** Once visible, the directory is dismantled before the temporary page is taken away. */
  lemma DestroyMid(s: St, d: Frame)
    requires Inv(s) && IsDir(s, d) && d != s.cr3 && ShowFrame(s, d).0.clean
    ensures var (s1, page) := ShowFrame(s, d);
            var s4 := DropTable(DropUser(DropFirst(s1, d), d, (USER_END - USER_START) / ENTRIES + 1), d, 1023);
            && s4.clean && Inv(s4) && SameSwitches(s, s4) && Dismantles(s1, s4, d)
            && d !in s4.own && (forall f <- s4.own :: s4.own[f].PrivateTable? ==> s4.own[f].dir != d)
            && s4.marks[0] == if s.mem[d][0].pr || s.careful then s.marks[0] else UNUSED
  {
    hide Inv, Steady, Trans, AddsTables, Drops, OthersKept, ShowFrame, HideFrame, DropTable, DropUser, DropFirst;
    var (s1, page) := ShowFrame(s, d);
    var s2 := DropFirst(s1, d);
    var s3 := DropUser(s2, d, (USER_END - USER_START) / ENTRIES + 1);
    var s4 := DropTable(s3, d, 1023);
    ShowExact(s, d);
    assert IsDir(s1, d);
    DropFirstExact(s1, d);
    DropUserExact(s2, d, (USER_END - USER_START) / ENTRIES + 1);
    DropSelf(s3, d);
    DismantlesTrans(s1, s2, s3, d);
    DismantlesTrans(s1, s3, s4, d);
  }

  /**
   Destroying a directory that is not loaded gives back exactly its own frame and its
   private tables; every other directory translates as before. Frame 0 is marked as
   unused in the bargain when entry 0 was absent, unless one is careful.
   */
  lemma DestroyExact(s: St, d: Frame)
    requires Inv(s) && IsDir(s, d) && d != s.cr3 && Destroy(s, d).clean
    ensures var s1 := Destroy(s, d);
            && s.clean && Inv(s1) && SameSwitches(s, s1) && Steady(s, s1)
            && (forall f <- s.own :: f in s1.own <==> f != d && !(s.own[f].PrivateTable? && s.own[f].dir == d))
            && (forall f <- s1.own :: if f in s.own then s1.own[f] == s.own[f] else s1.own[f].KernelTable?)
            && (forall e: Frame, p: Page :: IsDir(s, e) && e != d && Mappable(p) ==> Trans(s1, e, p) == Trans(s, e, p))
            && s1.marks[0] == (if s.mem[d][0].pr || s.careful then s.marks[0] else UNUSED)
            && FirstKept(s, s1)
  {
    hide Inv, Steady, Trans, AddsTables, Drops, ShowFrame, HideFrame, DropTable, DropUser, DropFirst;
    var (s1, page) := ShowFrame(s, d);
    var s4 := DropTable(DropUser(DropFirst(s1, d), d, (USER_END - USER_START) / ENTRIES + 1), d, 1023);
    var s5 := HideFrame(s4, page);
    assert s5 == Destroy(s, d);
    DestroyShows(s, d);
    DestroyMid(s, d);
    ShowExact(s, d);
    HideExact(s4, page);
    DestroyBooks(s, s1, s4, s5, d);
    DestroyTrans(s, s1, s4, s5, d, page);
  }

  lemma DropCleans(s: St, d: Frame, i: Index)
    ensures DropTable(s, d, i).clean == s.clean && DropFirst(s, d).clean == s.clean
  {
  }

  lemma DropUserCleans(s: St, d: Frame, n: nat)
    requires n <= (USER_END - USER_START) / ENTRIES + 1
    ensures DropUser(s, d, n).clean == s.clean
  {
  }

  lemma DestroyBooks(s: St, s1: St, s4: St, s5: St, d: Frame)
    requires IsDir(s, d) && Steady(s, s1) && AddsTables(s.own, s1.own, s.cr3, true)
    requires Steady(s1, s4) && Drops(s1.own, s4.own, d) && d !in s4.own
    requires forall f <- s4.own :: s4.own[f].PrivateTable? ==> s4.own[f].dir != d
    requires SameBooks(s4, s5)
    ensures Steady(s, s5)
    ensures forall f <- s.own :: f in s5.own <==> f != d && !(s.own[f].PrivateTable? && s.own[f].dir == d)
    ensures forall f <- s5.own :: if f in s.own then s5.own[f] == s.own[f] else s5.own[f].KernelTable?
  {
    SteadyTrans(s, s1, s4);
  }

  lemma DestroyTrans(s: St, s1: St, s4: St, s5: St, d: Frame, page: Page)
    requires Inv(s) && IsDir(s, d) && d != s.cr3 && Mappable(page) && s1.cr3 == s.cr3 && s4.cr3 == s.cr3
    requires Trans(s, s.cr3, page).None? && OtherDirsKept(s, s1) && OnlyMapped(s, s1, page, d, 1, KERNEL_FLAGS)
    requires OthersKept(s1, s4, d) && OnlyCleared(s4, s5, page, 1)
    ensures forall e: Frame, p: Page :: IsDir(s, e) && e != d && Mappable(p) ==> Trans(s5, e, p) == Trans(s, e, p)
  {
    hide Inv, Trans;
    SharedAgree(s);
    assert forall e: Frame :: IsDir(s, e) && e != d ==>
             IsDir(s1, e) && IsDir(s4, e) && (Sees(s, e, page) ==> Sees(s4, e, page));
  }

  /**
   After a directory without entry 0 has been destroyed, every allocation of a single
   frame fails, so no directory and no page table can be created any more, although
   frames are free.
   */
  lemma DestroyStarves(s: St, d: Frame, len: nat, i: Index)
    requires Inv(s) && IsDir(s, d) && d != s.cr3 && Destroy(s, d).clean && !s.mem[d][0].pr && !s.careful
    requires 0 < len <= PAGE_SIZE
    ensures var s1 := Destroy(s, d);
            && s1.marks[d] == UNUSED && Choose(s1.marks, len) == 0
            && !NewTable(s1, s1.cr3, i).clean && !Create(s1).0.clean
  {
    DestroyExact(s, d);
    var s1 := Destroy(s, d);
    assert d !in s1.own;
    FrameZeroStarvesSingleFrames(s1.marks, len);
    FrameZeroStarvesSingleFrames(s1.marks, PAGE_SIZE);
    if Create(s1).0.clean {
      CreateExact(s1);
    }
  }
}
