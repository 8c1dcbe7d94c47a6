/**
 The room a kernel needs for its tasks: a simple shape of the kernel domain and of user
 memory that every operation on tasks keeps, and in which none meets a shortage.
 */
module KernelRoom {
  import opened Common
  import opened FirstFit
  import opened Pmm
  import opened Paging
  import opened Space
  import opened Ranges
  import opened Allocation
  import opened Directories
  import opened UnmapLimits
  import opened Shortages
  import opened TaskMemory
  import opened UserMemory
  import opened Elf
  import opened ProgramRoom

  // ----- steps that need no new table

  /** Nothing differs but words of memory outside the loaded directory. */
  ghost predicate OnlyWords(s: St, s1: St) {
    s1 == s.(mem := s1.mem, clean := s1.clean) && s1.mem[s.cr3] == s.mem[s.cr3]
  }

  lemma QuietMap(s: St, page: Page, frame: Frame, flags: Flags)
    requires Inv(s) && Mappable(page) && s.mem[s.cr3][page / ENTRIES].pr
    ensures OnlyWords(s, MapPage(s, s.cr3, page, frame, flags).0)
  {
    assert s.own[s.mem[s.cr3][page / ENTRIES].frame] == RoleOf(s.cr3, page / ENTRIES);
  }

  lemma {:induction false} QuietMapRange(s: St, vp: nat, fp: nat, n: nat, flags: Flags)
    requires Inv(s) && vp + n <= 1023 * ENTRIES && fp + n <= PAGE_NUMBER && MapRange(s, s.cr3, vp, fp, n, flags).clean
    requires forall p: Page :: InRange(p, vp, n) ==> s.mem[s.cr3][p / ENTRIES].pr
    ensures OnlyWords(s, MapRange(s, s.cr3, vp, fp, n, flags))
  {
    hide Inv, MapPage, Steady, AddsTables, OtherDirsKept;
    if n > 0 {
      MapRangeClean(s, s.cr3, vp, fp, n, flags);
      assert forall p: Page :: InRange(p, vp, n - 1) ==> InRange(p, vp, n);
      assert InRange(vp + n - 1, vp, n);
      QuietMapRange(s, vp, fp, n - 1, flags);
      MapRangeGrows(s, vp, fp, n - 1, flags, false);
      QuietMap(MapRange(s, s.cr3, vp, fp, n - 1, flags), vp + n - 1, fp + n - 1, flags);
    }
  }

  lemma QuietShow(s: St, f: Frame)
    requires Inv(s) && ShowFrame(s, f).0.clean && s.mem[s.cr3][FindPages(s.mem, s.cr3, PAGE_SIZE, false) / ENTRIES].pr
    ensures OnlyWords(s, ShowFrame(s, f).0)
  {
    hide Inv, MapPage, ShowFrame, FindPages;
    ShowPage(s, f);
    QuietMap(s, FindPages(s.mem, s.cr3, PAGE_SIZE, false), f, KERNEL_FLAGS);
  }

  lemma QuietHide(s: St, page: Page)
    requires s.clean && HideFrame(s, page).clean
    requires s.mem[s.cr3][page / ENTRIES].pr ==> s.mem[s.cr3][page / ENTRIES].frame != s.cr3
    ensures OnlyWords(s, HideFrame(s, page))
  {
    hide HideFrame, OnlyLast;
    HideOne(s, page);
  }

  // ----- the kernel domain

  /** Exactly the kernel pages below top are mapped, none of them to frame 0; the tables up to that of top are there. */
  ghost predicate Upto(s: St, top: Page) {
    && KERNEL_START <= top <= KERNEL_END
    && (forall i: Index :: IsShared(i) ==> (s.mem[s.cr3][i].pr <==> i <= top / ENTRIES))
    && (forall p: Page :: IsShared(p / ENTRIES) && p / ENTRIES <= top / ENTRIES ==>
          if p < top then Trans(s, s.cr3, p).Some? && Trans(s, s.cr3, p).value.frame != 0
          else Trans(s, s.cr3, p).None?)
  }

  ghost predicate Kern(s: St, top: Page) {
    Inv(s) && s.clean && top % ENTRIES <= 1022 && Upto(s, top)
  }

  lemma KernDirs(s: St, top: Page)
    requires Kern(s, top)
    ensures Inv(s) && s.clean && IsDir(s, s.cr3) && s.cr3 != 0
  {
    hide Upto;
  }

  /** The table of page top, and of the pages behind it that it maps. */
  lemma TopTable(s: St, top: Page)
    requires Upto(s, top)
    ensures KERNEL_START <= top <= KERNEL_END && IsShared(top / ENTRIES) && s.mem[s.cr3][top / ENTRIES].pr
    ensures forall p: Page :: top <= p && p / ENTRIES == top / ENTRIES ==> Trans(s, s.cr3, p).None?
    ensures forall p: Page :: KERNEL_START <= p < top ==>
              Trans(s, s.cr3, p).Some? && Trans(s, s.cr3, p).value.frame != 0
  {
    hide Trans;
  }

  lemma SameTable(top: Page, m: nat)
    requires top % ENTRIES + m <= 1023
    ensures forall p: nat :: top <= p <= top + m ==>
              p / ENTRIES == top / ENTRIES && p % ENTRIES == top % ENTRIES + (p - top)
  {
    forall p: nat | top <= p <= top + m
      ensures p / ENTRIES == top / ENTRIES && p % ENTRIES == top % ENTRIES + (p - top)
    {
      assert p == top / ENTRIES * ENTRIES + (top % ENTRIES + (p - top));
    }
  }

  /** The search finds the first page behind those mapped. */
  lemma NextPage(s: St, top: Page, len: nat)
    requires Kern(s, top) && 0 < len && top % ENTRIES + PagesOf(len) <= 1023
    ensures FindPages(s.mem, s.cr3, len, false) == top
  {
    hide Inv, FindPages, PagesOf, Upto, Trans;
    var page := FindPages(s.mem, s.cr3, len, false);
    SomePages(len);
    TopTable(s, top);
    SameTable(top, PagesOf(len));
    forall q: Page | top <= q < top + PagesOf(len)
      ensures Phys(s.mem, s.cr3, q) == 0
    {
      assert q / ENTRIES == top / ENTRIES;
      UnmappedFree(s, q);
    }
    assert InDomain(top + PagesOf(len) - 1, false) by { DomainTables(top, top + PagesOf(len) - 1); }
    if page == 0 || page > top {
      FindPagesFirst(s.mem, s.cr3, len, false, top);
    } else {
      FindPagesFree(s.mem, s.cr3, len, false, page);
      if page < top {
        MappedNotFree(s, page);
      }
    }
  }

  lemma DomainTables(p: Page, q: Page)
    requires KERNEL_START <= p <= KERNEL_END && q / ENTRIES == p / ENTRIES
    ensures KERNEL_START <= q <= KERNEL_END
  {
  }

  lemma UnmappedFree(s: St, p: Page)
    requires Trans(s, s.cr3, p).None?
    ensures Phys(s.mem, s.cr3, p) == 0
  {
    PhysZeroIff(s.mem, s.cr3, p);
  }

  lemma MappedNotFree(s: St, p: Page)
    requires Trans(s, s.cr3, p).Some? && Trans(s, s.cr3, p).value.frame != 0
    ensures Phys(s.mem, s.cr3, p) != 0
  {
    PhysZeroIff(s.mem, s.cr3, p);
  }

  /** The last page of the table is not mapped. */
  lemma NotAlone(s: St, top: Page)
    requires Upto(s, top) && top % ENTRIES <= 1022
    ensures !Pte(s.mem, s.cr3, top / ENTRIES, 1023).pr && !LastAlone(s.mem, s.cr3, top / ENTRIES)
  {
    var p: Page := PageAt(top / ENTRIES, 1023);
    assert p / ENTRIES == top / ENTRIES && p % ENTRIES == 1023;
    TransPte(s, s.cr3, p);
  }

  /** A frame can be shown, even after m single frames have been taken. */
  lemma KernRoom(s: St, top: Page, m: nat)
    requires Kern(s, top) && EnoughFrames(s.marks, m)
    ensures Room(s, m) && FindPages(s.mem, s.cr3, PAGE_SIZE, false) == top
  {
    hide Inv, FindPages, EnoughFrames, Upto, Trans, LastAlone;
    assert PagesOf(PAGE_SIZE) == 1;
    NextPage(s, top, PAGE_SIZE);
    TopTable(s, top);
    NotAlone(s, top);
  }

  lemma NoFrames(marks: Marks)
    ensures EnoughFrames(marks, 0)
  {
  }

  /** Directories that are there stay, and say the same about user memory. */
  ghost predicate UsersKept(s: St, s1: St) {
    && (forall d: Frame :: IsDir(s, d) ==> IsDir(s1, d))
    && (forall d: Frame, p: Page :: IsDir(s, d) && InDomain(p, true) ==> Trans(s1, d, p) == Trans(s, d, p))
  }

  lemma UsersTrans(s: St, s1: St, s2: St)
    requires UsersKept(s, s1) && UsersKept(s1, s2)
    ensures UsersKept(s, s2)
  {
    hide Trans;
  }

  lemma KernSaved(s: St, top: Page, saved: Frame)
    requires Kern(s, top)
    ensures Kern(s.(saved := saved), top) && UsersKept(s, s.(saved := saved))
  {
    SavedInv(s, saved);
    TransKept(s, s.(saved := saved));
    hide Inv, Trans;
  }

  // ----- allocating for the kernel

  /** vmm_alloc for the kernel takes the next pages, and frames that lie next to the used ones. */
  lemma AllocKern(s: St, top: Page, n: nat, len: nat)
    requires Kern(s, top) && Tail(s.marks, n) && len < WORD
    requires top % ENTRIES + PagesOf(len) <= 1022 && n + PagesOf(len) <= PAGE_NUMBER
    ensures top + PagesOf(len) < PAGE_NUMBER
    ensures var (s1, vaddr) := Alloc(s, len, KERNEL_FLAGS);
            && Kern(s1, top + PagesOf(len)) && Tail(s1.marks, n + PagesOf(len)) && SameSwitches(s, s1)
            && UsersKept(s, s1)
            && (len > 0 ==> vaddr == top * PAGE_SIZE)
  {
    hide Inv, Trans, Choose, FindPages, Alloc, Tail, Steady, AddsTables, OtherDirsKept, FirstKept, Record, Kern, Upto;
    SameTable(top, PagesOf(len));
    if len == 0 {
      AllocNothing(s, KERNEL_FLAGS);
    } else {
      AllocKernSome(s, top, n, len);
    }
  }

  lemma AllocKernSome(s: St, top: Page, n: nat, len: nat)
    requires Kern(s, top) && Tail(s.marks, n) && 0 < len < WORD
    requires top % ENTRIES + PagesOf(len) <= 1022 && n + PagesOf(len) <= PAGE_NUMBER && top + PagesOf(len) < PAGE_NUMBER
    ensures var (s1, vaddr) := Alloc(s, len, KERNEL_FLAGS);
            && Kern(s1, top + PagesOf(len)) && Tail(s1.marks, n + PagesOf(len)) && SameSwitches(s, s1)
            && UsersKept(s, s1)
            && vaddr == top * PAGE_SIZE
  {
    hide Inv, Trans, Choose, PagesOf, FindPages, Alloc, Tail, Steady, AddsTables, OtherDirsKept, FirstKept, Record,
      Upto, OnlyMapped;
    NextPage(s, top, len);
    TopTable(s, top);
    FramesLeft(s.marks, n, len);
    TableThere(s, top, PagesOf(len));
    AllocSucceeds(s, len, KERNEL_FLAGS);
    AllocPages(s, len, KERNEL_FLAGS);
    AllocWords(s, top, n, len);
    var s1 := Alloc(s, len, KERNEL_FLAGS).0;
    DirsStay(s, s1);
    AllocUpto(s, s1, top, Choose(s.marks, len), PagesOf(len));
  }

  lemma DirsStay(s: St, s1: St)
    requires OtherDirsKept(s, s1)
    ensures forall d: Frame :: IsDir(s1, d) <==> IsDir(s, d)
  {
  }

  lemma TableThere(s: St, top: Page, m: nat)
    requires Kern(s, top) && top % ENTRIES + m <= 1023
    ensures forall p: Page :: InRange(p, top, m) ==> s.mem[s.cr3][p / ENTRIES].pr && Trans(s, s.cr3, p).None?
  {
    hide Inv, Trans, Upto;
    TopTable(s, top);
    SameTable(top, m);
  }

  lemma AllocUpto(s: St, s1: St, top: Page, f: Frame, m: nat)
    requires Inv(s) && Upto(s, top) && f != 0 && f + m <= PAGE_NUMBER && s1.cr3 == s.cr3
    requires top % ENTRIES + m <= 1022 && top + m < PAGE_NUMBER && forall d: Frame :: IsDir(s1, d) <==> IsDir(s, d)
    requires s1.mem[s.cr3] == s.mem[s.cr3] && OnlyMapped(s, s1, top, f, m, KERNEL_FLAGS)
    ensures Upto(s1, top + m) && (top + m) % ENTRIES <= 1022 && UsersKept(s, s1)
  {
    GrowsRefl(s, true);
    SameTable(top, m);
    DomainTables(top, top + m);
    SharedDomains();
    hide Inv, Trans;
    forall p: Page | InRange(p, top, m)
      ensures InDomain(p, false)
    {
      assert top <= p <= top + m;
    }
  }

  /** The frames it marks, and the entries of the loaded directory, which it leaves alone. */
  lemma AllocWords(s: St, top: Page, n: nat, len: nat)
    requires Kern(s, top) && Tail(s.marks, n) && 0 < len < WORD
    requires top % ENTRIES + PagesOf(len) <= 1022 && n + PagesOf(len) <= PAGE_NUMBER
             && Alloc(s, len, KERNEL_FLAGS).0.clean
    ensures var s1 := Alloc(s, len, KERNEL_FLAGS).0;
            Tail(s1.marks, n + PagesOf(len)) && s1.mem[s.cr3] == s.mem[s.cr3]
  {
    hide Inv, Trans, Choose, PagesOf, FindPages, MapRange, Steady, Record, UseMarks, UseHighest, Tail, Upto;
    NextPage(s, top, len);
    FramesLeft(s.marks, n, len);
    TakeData(s, len, false);
    var s0 := Take(s, len, KERNEL, Data(s.next, false)).0;
    TableThere(s, top, PagesOf(len));
    SpannedPages(top, len);
    QuietMapRange(s0, top, Choose(s.marks, len), PagesOf(len), KERNEL_FLAGS);
    TakeTail(s, n, len, KERNEL, Data(s.next, false));
  }

  // ----- directories

  /** Loading another directory takes nothing. */
  lemma LoadKern(s: St, top: Page, d: Frame)
    requires Kern(s, top) && IsDir(s, d) && d * PAGE_SIZE != PAGEDIR
    ensures var s1 := Load(s, d);
            && Kern(s1, top) && s1.cr3 == d && s1.marks == s.marks && s1.saved == s.saved
            && (forall e: Frame :: IsDir(s1, e) <==> IsDir(s, e)) && UsersKept(s, s1)
  {
    hide Inv, Trans, Load, FindPages, Room, Steady, AddsTables, OnlyRefreshed, UsersKept;
    NoFrames(s.marks);
    KernRoom(s, top, 0);
    LoadCleanIff(s, d);
    LoadExact(s, d);
    LoadWords(s, top, d);
    NoDirZero(s);
    LoadUpto(s, Load(s, d), top, d);
  }

  lemma LoadWords(s: St, top: Page, d: Frame)
    requires Kern(s, top) && IsDir(s, d) && Load(s, d).clean && FindPages(s.mem, s.cr3, PAGE_SIZE, false) == top
    ensures var s1 := Load(s, d);
            s1.marks == s.marks && forall i: Index :: IsShared(i) ==> s1.mem[d][i] == s.mem[s.cr3][i]
  {
    hide Inv, Upto, Trans, ShowFrame, HideFrame, Steady, AddsTables, OnlyRefreshed, FindPages, Grows;
    LoadShows(s, d);
    var (s1, page) := ShowFrame(s, d);
    var s2 := s1.(mem := CopyShared(s1.mem, s1.cr3, d));
    TopTable(s, top);
    QuietShow(s, d);
    ShowExact(s, d);
    ShowedState(s, s1, d);
    ShowPage(s, d);
    NotATable(s1, d, top / ENTRIES);
    assert s2.mem[s.cr3] == s1.mem[s.cr3];
    QuietHide(s2, page);
    RefreshExact(s, d);
  }

  lemma LoadUpto(s: St, s1: St, top: Page, d: Frame)
    requires Upto(s, top) && IsDir(s, d) && s1.cr3 == d && OnlyRefreshed(s, s1, d) && IsDir(s, s.cr3)
    requires forall i: Index :: IsShared(i) ==> s1.mem[d][i] == s.mem[s.cr3][i]
    requires forall e: Frame :: IsDir(s1, e) <==> IsDir(s, e)
    ensures Upto(s1, top) && UsersKept(s, s1)
  {
    SharedDomains();
    hide Trans;
  }

  /** User memory as directory d has it: exactly the pages ps are mapped, none of them to frame 0. */
  ghost predicate UserIs(s: St, d: Frame, ps: set<Page>) {
    forall p: Page :: InDomain(p, true) ==>
      if p in ps then Trans(s, d, p).Some? && Trans(s, d, p).value.frame != 0 else Trans(s, d, p).None?
  }

  lemma UserStays(s: St, s1: St, d: Frame, ps: set<Page>)
    requires UserIs(s, d, ps) && UsersKept(s, s1) && IsDir(s, d)
    ensures UserIs(s1, d, ps)
  {
    hide Trans;
  }

  /** A new directory takes one frame and maps no user memory. */
  lemma CreateKern(s: St, top: Page, n: nat)
    requires Kern(s, top) && Tail(s.marks, n) && n + 1 < PAGE_NUMBER
    ensures var (s1, d) := Create(s);
            && Kern(s1, top) && Tail(s1.marks, n + 1) && SameSwitches(s, s1) && d * PAGE_SIZE != PAGEDIR
            && (forall e: Frame :: IsDir(s1, e) <==> IsDir(s, e) || e == d) && UsersKept(s, s1) && UserIs(s1, d, {})
  {
    hide Inv, Trans, Create, FindPages, Room, Tail, Steady, AddsTables, EnoughFrames, Choose, UsersKept, UserIs;
    TailSize(s.marks, n, 1);
    KernRoom(s, top, 1);
    CreateCleanIff(s);
    CreateExact(s);
    CreateWords(s, top, n);
    NoDirZero(s);
    CreateUpto(s, Create(s).0, top, Create(s).1);
  }

  lemma CreateWords(s: St, top: Page, n: nat)
    requires Kern(s, top) && Tail(s.marks, n) && n + 1 < PAGE_NUMBER && Create(s).0.clean
    requires FindPages(s.mem, s.cr3, PAGE_SIZE, false) == top
    ensures var (s1, f) := Create(s);
            s1.mem[s.cr3] == s.mem[s.cr3] && Tail(s1.marks, n + 1) && f <= n
  {
    hide Inv, Upto, Trans, ShowFrame, HideFrame, Steady, AddsTables, FindPages, Grows, Tail, Choose, UseMarks,
      UseHighest, Record, EmptyDirectory;
    CreateShows(s);
    assert PagesOf(PAGE_SIZE) == 1;
    FramesLeft(s.marks, n, PAGE_SIZE);
    var (s1, f) := Take(s, PAGE_SIZE, KERNEL, Data(s.next, false));
    var (s2, page) := ShowFrame(s1, f);
    var s3 := s2.(mem := s2.mem[f := EmptyDirectory(f)], own := s2.own[f := Directory]);
    TakeOneData(s, f);
    TakeTail(s, n, PAGE_SIZE, KERNEL, Data(s.next, false));
    TopTable(s, top);
    QuietShow(s1, f);
    ShowExact(s1, f);
    ShowedState(s1, s2, f);
    ShowPage(s1, f);
    NotATable(s2, f, top / ENTRIES);
    NoDirZero(s);
    QuietHide(s3, page);
  }

  lemma CreateUpto(s: St, s1: St, top: Page, d: Frame)
    requires Upto(s, top) && IsDir(s, s.cr3) && s1.cr3 == s.cr3 && s1.mem[s.cr3] == s.mem[s.cr3] && SameTrans(s, s1)
    requires forall e: Frame :: IsDir(s1, e) <==> IsDir(s, e) || e == d
    requires forall p: Page :: Mappable(p) ==> Trans(s1, d, p).None?
    ensures Upto(s1, top) && UsersKept(s, s1) && UserIs(s1, d, {})
  {
    SharedDomains();
    hide Trans;
  }

  /** Destroying another directory leaves all that alone. */
  lemma DestroyKern(s: St, top: Page, d: Frame)
    requires Kern(s, top) && IsDir(s, d) && d != s.cr3
    ensures Destroy(s, d).clean && Kern(Destroy(s, d), top)
  {
    hide Inv, Trans, Destroy, FindPages, Room, Steady;
    NoFrames(s.marks);
    KernRoom(s, top, 0);
    DestroyCleanIff(s, d);
    DestroyExact(s, d);
    DestroyWords(s, top, d);
    NoDirZero(s);
    DestroyUpto(s, Destroy(s, d), top, d);
  }

  lemma DestroyWords(s: St, top: Page, d: Frame)
    requires Kern(s, top) && IsDir(s, d) && d != s.cr3 && Destroy(s, d).clean
    requires FindPages(s.mem, s.cr3, PAGE_SIZE, false) == top
    ensures Destroy(s, d).mem[s.cr3] == s.mem[s.cr3]
  {
    hide Inv, Upto, Trans, ShowFrame, HideFrame, FindPages, Grows, DropTable, DropUser, DropFirst, EnoughFrames;
    DestroyShows(s, d);
    var (s1, page) := ShowFrame(s, d);
    var s2 := DropUser(DropFirst(s1, d), d, (USER_END - USER_START) / ENTRIES + 1);
    var s3 := DropTable(s2, d, 1023);
    DropKeeps(s1, d, 0);
    DropUserKeeps(DropFirst(s1, d), d, (USER_END - USER_START) / ENTRIES + 1);
    DropKeeps(s2, d, 1023);
    TopTable(s, top);
    QuietShow(s, d);
    ShowExact(s, d);
    ShowedState(s, s1, d);
    ShowPage(s, d);
    NotATable(s1, d, top / ENTRIES);
    QuietHide(s3, page);
  }

  lemma DestroyUpto(s: St, s1: St, top: Page, d: Frame)
    requires Upto(s, top) && IsDir(s, s.cr3) && d != s.cr3 && s1.cr3 == s.cr3 && s1.mem[s.cr3] == s.mem[s.cr3]
    requires forall e: Frame, p: Page :: IsDir(s, e) && e != d && Mappable(p) ==> Trans(s1, e, p) == Trans(s, e, p)
    ensures Upto(s1, top)
  {
    hide Trans;
  }

  // ----- freeing for the kernel

  /** Freeing the last pages mapped, and what is mapped there. */
  lemma FreeKern(s: St, top: Page, d: Frame, q: Piece)
    requires Kern(s, top) && Held(s, d, q, false) && q.len > 0 && q.page + PagesOf(q.len) == top
    requires q.page / ENTRIES == top / ENTRIES
    ensures FreePiece(s, q).clean && Kern(FreePiece(s, q), q.page) && UsersKept(s, FreePiece(s, q))
  {
    hide Inv, Trans, FreeRange, Steady, Met, Block, PagesOf, UsersKept, OnlyCleared;
    NoneMetHere(s, top, q.page, PagesOf(q.len));
    FreeCleanIff(s, q.page, q.len);
    FreeExact(s, q.page, q.base, q.len);
    NoDirZero(s);
    FreeUpto(s, FreePiece(s, q), top, q.page, PagesOf(q.len));
  }

  lemma NoneMetHere(s: St, top: Page, page: Page, m: nat)
    requires Kern(s, top) && page + m == top && page / ENTRIES == top / ENTRIES
    ensures forall i: Index :: i < 1023 ==> !Met(s.mem, s.cr3, i, page, m)
    ensures page + m <= 1023 * ENTRIES
  {
    NotAlone(s, top);
    hide Inv, Trans, Pte;
    forall i: Index, j: Index | i < 1023 && InRange(PageAt(i, j), page, m)
      ensures i == top / ENTRIES
    {
      PageAtIndex(i, j);
      Between(page, top, PageAt(i, j));
    }
  }

  lemma Between(p: nat, q: nat, r: nat)
    requires p / ENTRIES == q / ENTRIES && p <= r <= q
    ensures r / ENTRIES == p / ENTRIES
  {
  }

  lemma FreeUpto(s: St, s1: St, top: Page, page: Page, m: nat)
    requires Upto(s, top) && IsDir(s, s.cr3) && s1.cr3 == s.cr3 && s1.mem[s.cr3] == s.mem[s.cr3]
             && top % ENTRIES <= 1022
    requires page + m == top && page / ENTRIES == top / ENTRIES && OnlyCleared(s, s1, page, m) && KERNEL_START <= page
    requires forall e: Frame :: IsDir(s1, e) <==> IsDir(s, e)
    ensures Upto(s1, page) && page % ENTRIES <= 1022 && UsersKept(s, s1)
  {
    SharedDomains();
    hide Trans;
    forall p: Page | InRange(p, page, m)
      ensures InDomain(p, false)
    {
    }
  }

  // ----- user memory

  ghost function EntryPages(segs: seq<Segment>): set<Page> {
    set p: Page | InEntries(segs, p)
  }

  lemma EntriesInDomain(segs: seq<Segment>, file: seq<Byte>)
    requires forall g <- segs :: Loadable(g, file)
    ensures forall p: Page :: InEntries(segs, p) ==> InDomain(p, true)
  {
    hide Loadable, HasPage;
    forall p: Page | InEntries(segs, p)
      ensures InDomain(p, true)
    {
      var g :| g in segs && HasPage(g, p);
      OwnPages(g, file);
    }
  }

  /** Loading entries leaves the kernel domain alone, and other directories. */
  lemma MappedKern(s: St, s1: St, top: Page, segs: seq<Segment>, file: seq<Byte>, n: nat)
    requires Kern(s, top) && Mapped(s, s1, segs, n) && forall g <- segs :: Loadable(g, file)
    ensures Kern(s1, top) && SameSwitches(s, s1) && Tail(s1.marks, n)
            && forall d: Frame :: IsDir(s1, d) <==> IsDir(s, d)
    ensures UserIs(s, s.cr3, {}) ==> UserIs(s1, s.cr3, EntryPages(segs))
  {
    EntriesInDomain(segs, file);
    SharedDomains();
    NoDirZero(s);
    hide Inv, Trans, InEntries, Loadable, Tail;
  }

  ghost function FreeUser(ps: set<Page>): seq<bool> {
    seq(USER_END - USER_START + 1, k requires 0 <= k < USER_END - USER_START + 1 => USER_START + k !in ps)
  }

  /** Where vmm_alloc puts the user stack of a task whose user pages are ps: the lowest run that misses them. */
  ghost function StackRun(ps: set<Page>, len: nat): Option<nat> {
    FirstRun(FreeUser(ps), PagesOf(len))
  }

  /** There is a place for the stack, and it holds the last page of no table. */
  ghost predicate StackFits(ps: set<Page>, len: nat) {
    len == 0 || (StackRun(ps, len).Some?
                 && forall p: Page :: InRange(p, USER_START + StackRun(ps, len).value, PagesOf(len)) ==>
                      p % ENTRIES != 1023)
  }

  function StackPages(ps: set<Page>, start: nat, m: nat): set<Page> {
    ps + set p: Page | InRange(p, start, m)
  }

  /** The user pages of a task once it has its stack. */
  ghost function WithStack(ps: set<Page>, len: nat): set<Page>
    requires StackFits(ps, len)
  {
    if len == 0 then ps else StackPages(ps, USER_START + StackRun(ps, len).value, PagesOf(len))
  }

  lemma NextStack(s: St, ps: set<Page>, len: nat)
    requires UserIs(s, s.cr3, ps) && 0 < len && StackRun(ps, len).Some?
    ensures var page := FindPages(s.mem, s.cr3, len, true);
            && page == USER_START + StackRun(ps, len).value
            && (forall p: Page :: InRange(p, page, PagesOf(len)) ==>
                  InDomain(p, true) && p !in ps && Trans(s, s.cr3, p).None?)
  {
    hide PagesOf, Trans, Phys;
    var free := FreeUser(ps);
    forall k | 0 <= k < |free|
      ensures Unmapped(s.mem, s.cr3, true)[k] == free[k]
    {
      var p: Page := USER_START + k;
      assert InDomain(p, true);
      if p in ps { MappedNotFree(s, p); } else { UnmappedFree(s, p); }
    }
    assert Unmapped(s.mem, s.cr3, true) == free;
    var r := StackRun(ps, len).value;
    assert IsRun(free, r, PagesOf(len));
    forall p: Page | InRange(p, USER_START + r, PagesOf(len))
      ensures InDomain(p, true) && p !in ps
    {
      assert free[p - USER_START];
    }
  }

  /** vmm_alloc of a user stack in the loaded directory. */
  lemma AllocUser(s: St, top: Page, n: nat, len: nat, ps: set<Page>)
    requires Kern(s, top) && Tail(s.marks, n) && len < WORD && UserIs(s, s.cr3, ps) && StackFits(ps, len)
    requires n + 2 * PagesOf(len) <= PAGE_NUMBER
    ensures var s1 := Alloc(s, len, STACK_FLAGS).0;
            && Kern(s1, top) && Tail(s1.marks, n + 2 * PagesOf(len)) && SameSwitches(s, s1)
            && (forall d: Frame :: IsDir(s1, d) <==> IsDir(s, d))
            && UserIs(s1, s.cr3, WithStack(ps, len))
  {
    hide Inv, Trans, Alloc, Tail, Kern, UserIs;
    if len == 0 {
      AllocNothing(s, STACK_FLAGS);
    } else {
      AllocUserSome(s, top, n, len, ps);
    }
  }

  lemma AllocUserSome(s: St, top: Page, n: nat, len: nat, ps: set<Page>)
    requires Kern(s, top) && Tail(s.marks, n) && 0 < len < WORD && UserIs(s, s.cr3, ps) && StackFits(ps, len)
    requires n + 2 * PagesOf(len) <= PAGE_NUMBER
    ensures var s1 := Alloc(s, len, STACK_FLAGS).0;
            && Kern(s1, top) && Tail(s1.marks, n + 2 * PagesOf(len)) && SameSwitches(s, s1)
            && (forall d: Frame :: IsDir(s1, d) <==> IsDir(s, d))
            && UserIs(s1, s.cr3, StackPages(ps, USER_START + StackRun(ps, len).value, PagesOf(len)))
  {
    hide Inv, Trans, Alloc, Choose, PagesOf, FindPages, Tail, Steady, AddsTables, OtherDirsKept, FirstKept, Record,
      Upto, OnlyMapped, UserIs, Unused, Missing;
    var page, m := FindPages(s.mem, s.cr3, len, true), PagesOf(len);
    NextStack(s, ps, len);
    FramesLeft(s.marks, n, len);
    SomePages(len);
    StackEnd(s.mem, s.cr3, len);
    MissingFew(s.mem, s.cr3, page, m);
    TailSize(s.marks, n, 2 * m);
    AllocCleanIff(s, len, STACK_FLAGS);
    AllocPages(s, len, STACK_FLAGS);
    var s1 := Alloc(s, len, STACK_FLAGS).0;
    DirsStay(s, s1);
    UserWords(s, n, len);
    StackUpto(s, s1, top, page, Choose(s.marks, len), m, ps);
  }

  lemma StackEnd(m: Mem, d: Frame, len: nat)
    requires len > 0 && FindPages(m, d, len, true) != 0
    ensures FindPages(m, d, len, true) + PagesOf(len) <= 1023 * ENTRIES
  {
    hide PagesOf;
  }

  /** The frames it marks; no shared table is added. */
  lemma UserWords(s: St, n: nat, len: nat)
    requires Inv(s) && Tail(s.marks, n) && 0 < len < WORD && n + 2 * PagesOf(len) <= PAGE_NUMBER
    requires Alloc(s, len, STACK_FLAGS).0.clean && FindPages(s.mem, s.cr3, len, true) != 0 && Choose(s.marks, len) != 0
    ensures var s1 := Alloc(s, len, STACK_FLAGS).0;
            && Tail(s1.marks, n + 2 * PagesOf(len))
            && (forall i: Index :: IsShared(i) ==> (s1.mem[s.cr3][i].pr <==> s.mem[s.cr3][i].pr))
            && Alloc(s, len, STACK_FLAGS).1 == FindPages(s.mem, s.cr3, len, true) * PAGE_SIZE
  {
    hide Inv, Trans, Choose, PagesOf, FindPages, MapRange, Steady, Record, UseMarks, UseHighest, Tail, Unused, Missing;
    var page, m, f := FindPages(s.mem, s.cr3, len, true), PagesOf(len), Choose(s.marks, len);
    FramesLeft(s.marks, n, len);
    TakeData(s, len, true);
    var s0 := Take(s, len, USER, Data(s.next, true)).0;
    SpannedPages(page, len);
    StackEnd(s.mem, s.cr3, len);
    TakeTail(s, n, len, USER, Data(s.next, true));
    MissingFew(s0.mem, s0.cr3, page, m);
    MapRangeTail(s0, page, f, m, STACK_FLAGS, n + m);
    TailMore(MapRange(s0, s0.cr3, page, f, m, STACK_FLAGS).marks, n + m + |Missing(s0.mem, s0.cr3, page, m)|,
             n + 2 * m);
    MapRangeTakes(s0, page, f, m, STACK_FLAGS);
    StackTables(s0.mem, s0.cr3, len);
  }

  lemma StackTables(m: Mem, d: Frame, len: nat)
    requires len > 0 && FindPages(m, d, len, true) != 0
    ensures var page := FindPages(m, d, len, true);
            page + PagesOf(len) <= PAGE_NUMBER
            && forall i: Index :: IsShared(i) ==> i !in Missing(m, d, page, PagesOf(len))
  {
    hide Missing, PagesOf;
    StackEnd(m, d, len);
    var page := FindPages(m, d, len, true);
    forall i: Index | IsShared(i)
      ensures i !in Missing(m, d, page, PagesOf(len))
    {
      MissingExact(m, d, page, PagesOf(len), i);
      forall p: Page | InRange(p, page, PagesOf(len))
        ensures p / ENTRIES != i
      {
        assert InDomain(p, true);
      }
    }
  }

  lemma StackUpto(s: St, s1: St, top: Page, page: Page, f: Frame, m: nat, ps: set<Page>)
    requires Kern(s, top) && Inv(s1) && s1.clean && UserIs(s, s.cr3, ps) && SameSwitches(s, s1) && f != 0
             && f + m <= PAGE_NUMBER
    requires OnlyMapped(s, s1, page, f, m, STACK_FLAGS) && forall p: Page :: InRange(p, page, m) ==> InDomain(p, true)
    requires forall i: Index :: IsShared(i) ==> (s1.mem[s.cr3][i].pr <==> s.mem[s.cr3][i].pr)
    ensures Kern(s1, top) && UserIs(s1, s.cr3, StackPages(ps, page, m))
  {
    KernDirs(s, top);
    SharedDomains();
    hide Inv, Trans;
  }

  // ----- freeing user memory

  /** The last page of no user table is mapped, so that the guard of vmm_unmap is not met. */
  ghost predicate NoLast(s: St, d: Frame) {
    forall p: Page :: InDomain(p, true) && p % ENTRIES == 1023 ==> Trans(s, d, p).None?
  }

  lemma NoLastStays(s: St, s1: St, d: Frame)
    requires NoLast(s, d) && UsersKept(s, s1) && IsDir(s, d)
    ensures NoLast(s1, d)
  {
    hide Trans;
  }

  lemma UserNoLast(s: St, d: Frame, ps: set<Page>)
    requires UserIs(s, d, ps) && forall p <- ps :: p % ENTRIES != 1023
    ensures NoLast(s, d)
  {
    hide Trans;
  }

  lemma NoneMetThere(s: St, page: Page, m: nat)
    requires NoLast(s, s.cr3) && InDomain(page, true) && m > 0 && InDomain(page + m - 1, true)
    ensures forall i: Index :: i < 1023 ==> !Met(s.mem, s.cr3, i, page, m)
    ensures page + m <= 1023 * ENTRIES
  {
    forall i: Index, j: Index | i < 1023 && InRange(PageAt(i, j), page, m)
      ensures !Pte(s.mem, s.cr3, i, 1023).pr
    {
      PageAtIndex(i, j);
      PageAtIndex(i, 1023);
      UserTable(PageAt(i, j), PageAt(i, 1023));
      TransPte(s, s.cr3, PageAt(i, 1023));
    }
    hide Trans, Pte;
  }

  lemma UserTable(p: Page, q: Page)
    requires InDomain(p, true) && q / ENTRIES == p / ENTRIES && q / ENTRIES < 1023
    ensures InDomain(q, true)
  {
  }

  lemma FreeUser1(s: St, top: Page, q: Piece)
    requires Kern(s, top) && NoLast(s, s.cr3) && Held(s, s.cr3, q, true) && q.len > 0
    ensures var s1 := FreeRange(s, q.page * PAGE_SIZE, q.len);
            && Kern(s1, top) && NoLast(s1, s.cr3) && SameSwitches(s, s1)
            && forall d: Frame :: IsDir(s1, d) <==> IsDir(s, d)
  {
    hide Inv, Trans, FreeRange, Steady, Met, PagesOf, NoLast, OnlyCleared, Upto;
    SomePages(q.len);
    NoneMetThere(s, q.page, PagesOf(q.len));
    FreeCleanIff(s, q.page, q.len);
    FreeExact(s, q.page, q.base, q.len);
    NoDirZero(s);
    UserCleared(s, FreeRange(s, q.page * PAGE_SIZE, q.len), top, q.page, PagesOf(q.len));
  }

  lemma UserCleared(s: St, s1: St, top: Page, page: Page, m: nat)
    requires Upto(s, top) && IsDir(s, s.cr3) && s1.cr3 == s.cr3 && s1.mem[s.cr3] == s.mem[s.cr3] && NoLast(s, s.cr3)
    requires OnlyCleared(s, s1, page, m) && InDomain(page, true) && m > 0 && InDomain(page + m - 1, true)
    ensures Upto(s1, top) && NoLast(s1, s.cr3)
  {
    SharedDomains();
    hide Trans;
    forall p: Page | InRange(p, page, m)
      ensures InDomain(p, true)
    {
    }
  }

  /** Freeing the first n entries of a program meets no trouble. */
  lemma {:induction false} FreeSegmentsKern(s: St, top: Page, segs: seq<Segment>, qs: seq<Piece>, n: nat)
    requires Kern(s, top) && NoLast(s, s.cr3) && HeldAll(s, s.cr3, segs, qs) && n <= |segs|
    requires forall g <- segs :: g.load ==> Fits(g.vaddr, g.memsz)
    ensures var s1 := FreeSegments(s, segs[..n]);
            && Kern(s1, top) && NoLast(s1, s.cr3) && SameSwitches(s, s1)
            && forall d: Frame :: IsDir(s1, d) <==> IsDir(s, d)
  {
    hide Kern, Held, NoLast, FreeSegment, GaveOnly, Matches;
    if n == 0 {
      return;
    }
    FreeSegmentsKern(s, top, segs, qs, n - 1);
    assert segs[..n][..n - 1] == segs[..n - 1];
    var s1, g, q := FreeSegments(s, segs[..n - 1]), segs[n - 1], qs[n - 1];
    KernDirs(s, top);
    KernDirs(s1, top);
    FreeSome(s, segs, qs, n - 1);
    assert AllForeign(qs[..n - 1], q);
    assert Held(s1, s.cr3, q, true);
    FreeEntry(s1, top, g, q);
  }

  lemma FreeEntry(s: St, top: Page, g: Segment, q: Piece)
    requires Kern(s, top) && NoLast(s, s.cr3) && Matches(g, q) && Held(s, s.cr3, q, true)
             && (g.load ==> Fits(g.vaddr, g.memsz))
    ensures var s1 := FreeSegment(s, g);
            && Kern(s1, top) && NoLast(s1, s.cr3) && SameSwitches(s, s1)
            && forall d: Frame :: IsDir(s1, d) <==> IsDir(s, d)
  {
    hide Kern, Held, NoLast, FreeRange;
    if g.load {
      if q.len > 0 { FreeUser1(s, top, q); } else { FreeNothing(s, g.vaddr); }
    }
  }

  // ----- whole programs

  /** No two entries of the program share a page. */
  ghost predicate EntriesApart(segs: seq<Segment>) {
    forall i, j :: 0 <= i < j < |segs| ==> NoCommonPage(segs[i], segs[j])
  }

  lemma PlacedKept(s: St, s1: St, d: Frame, segs: seq<Segment>, file: seq<Byte>)
    requires UsersKept(s, s1) && IsDir(s, d) && forall g <- segs :: Loadable(g, file)
    ensures Placed(s1, d, segs) <==> Placed(s, d, segs)
  {
    hide Trans, Loadable, NoCommonPage, HasPage;
    forall g | g in segs
      ensures FreeIn(s1, d, g) <==> FreeIn(s, d, g)
    {
      OwnPages(g, file);
    }
    hide FreeIn;
  }

  lemma PlacedFresh(s: St, d: Frame, segs: seq<Segment>, file: seq<Byte>)
    requires UserIs(s, d, {}) && forall g <- segs :: Loadable(g, file)
    ensures Placed(s, d, segs) <==> EntriesApart(segs)
  {
    hide Trans, Loadable, NoCommonPage, HasPage;
    forall g | g in segs
      ensures FreeIn(s, d, g)
    {
      OwnPages(g, file);
    }
    hide FreeIn;
  }

  /**
   elf_load meets no trouble if and only if no two entries share a page and none of their
   pages is mapped, given room in the kernel's last table and frames at the end of memory.
   */
  lemma ElfLoadIff(s: St, top: Page, n: nat, h: Header, segs: seq<Segment>, file: seq<Byte>, dir: Frame)
    requires Kern(s, top) && s.saved == 0 && IsDir(s, dir) && Suitable(h) && forall g <- segs :: Loadable(g, file)
    requires s.cr3 * PAGE_SIZE != PAGEDIR && dir * PAGE_SIZE != PAGEDIR
    requires Tail(s.marks, n) && n + 2 * AllPages(segs) <= PAGE_NUMBER
    ensures ElfLoad(s, h, segs, file, dir).0.clean <==> Placed(s, dir, segs)
    ensures Placed(s, dir, segs) && UserIs(s, dir, {}) ==>
              var s1 := ElfLoad(s, h, segs, file, dir).0;
              && Kern(s1, top) && Tail(s1.marks, n + 2 * AllPages(segs)) && s1.cr3 == s.cr3 && s1.saved == 0
              && IsDir(s1, dir) && UserIs(s1, dir, EntryPages(segs))
  {
    hide Kern, Tail, Load, LoadSegments, Loadable, Placed, UserIs, UsersKept, EntryPages, Inv, Mapped;
    KernDirs(s, top);
    LoadKern(s, top, dir);
    KernSaved(Load(s, dir), top, s.cr3);
    var s1 := Modify(s, dir);
    UsersTrans(s, Load(s, dir), s1);
    PlacedKept(s, s1, dir, segs, file);
    KernDirs(s1, top);
    LoadSegmentsIff(s1, segs, file, n);
    if ElfLoad(s, h, segs, file, dir).0.clean {
      ElfLoadClean(s, h, segs, file, dir);
    }
    if Placed(s, dir, segs) {
      LeaveProgram(s, s1, top, n, segs, file, dir);
    }
  }

  /** Returning from the directory of the program. */
  lemma LeaveProgram(s: St, s1: St, top: Page, n: nat, segs: seq<Segment>, file: seq<Byte>, dir: Frame)
    requires Kern(s1, top) && s1.cr3 == dir && s1.saved == s.cr3 && s.cr3 != 0 && s.cr3 * PAGE_SIZE != PAGEDIR
             && IsDir(s1, s.cr3)
    requires (forall g <- segs :: Loadable(g, file)) && UsersKept(s, s1) && IsDir(s, dir)
    requires Mapped(s1, LoadSegments(s1, segs, file), segs, n + 2 * AllPages(segs))
    ensures var s3 := Modified(LoadSegments(s1, segs, file));
            && s3.clean
            && (UserIs(s, dir, {}) ==>
                  && Kern(s3, top) && Tail(s3.marks, n + 2 * AllPages(segs)) && s3.cr3 == s.cr3 && s3.saved == 0
                  && IsDir(s3, dir) && UserIs(s3, dir, EntryPages(segs)))
  {
    hide Kern, Tail, Load, LoadSegments, Loadable, UserIs, EntryPages, Inv, Mapped;
    var s2 := LoadSegments(s1, segs, file);
    MappedKern(s1, s2, top, segs, file, n + 2 * AllPages(segs));
    LoadKern(s2, top, s.cr3);
    KernSaved(Load(s2, s.cr3), top, 0);
    var s3 := Modified(s2);
    UsersTrans(s2, Load(s2, s.cr3), s3);
    KernDirs(s3, top);
    hide UsersKept;
    if UserIs(s, dir, {}) {
      UserStays(s, s1, dir, {});
      UserStays(s2, s3, dir, EntryPages(segs));
    }
  }

  /** elf_unload meets no trouble if the program holds its allocations and maps the last page of no table. */
  lemma ElfUnloadKern(s: St, top: Page, h: Header, segs: seq<Segment>, dir: Frame, qs: seq<Piece>)
    requires Kern(s, top) && s.saved == 0 && IsDir(s, dir) && Suitable(h) && HeldAll(s, dir, segs, qs) && NoLast(s, dir)
    requires s.cr3 * PAGE_SIZE != PAGEDIR && dir * PAGE_SIZE != PAGEDIR
    requires forall g <- segs :: g.load ==> Fits(g.vaddr, g.memsz)
    ensures var s1 := ElfUnload(s, h, segs, dir);
            && Kern(s1, top) && s1.cr3 == s.cr3 && s1.saved == 0 && IsDir(s1, dir) && NoLast(s1, dir)
  {
    hide Kern, Load, FreeSegments, NoLast, UsersKept, Inv, Held, Matches, Steady, Unloaded, FirstKept;
    KernDirs(s, top);
    LoadKern(s, top, dir);
    KernDirs(Load(s, dir), top);
    KernSaved(Load(s, dir), top, s.cr3);
    var s1 := Modify(s, dir);
    UsersTrans(s, Load(s, dir), s1);
    NoLastStays(s, s1, dir);
    AddedKernelTables(s, dir, s.cr3);
    NoDirZero(s);
    assert segs[..|segs|] == segs;
    FreeSegmentsKern(s1, top, segs, qs, |segs|);
    var s2 := FreeSegments(s1, segs);
    LoadKern(s2, top, s.cr3);
    KernSaved(Load(s2, s.cr3), top, 0);
    var s3 := Modified(s2);
    UsersTrans(s2, Load(s2, s.cr3), s3);
    NoLastStays(s2, s3, dir);
  }

  /** So a program whose entries share no page, loaded where none of them is mapped, can be read as its file says. */
  lemma ElfLoads(s: St, top: Page, n: nat, h: Header, segs: seq<Segment>, file: seq<Byte>, dir: Frame)
    requires Kern(s, top) && s.saved == 0 && IsDir(s, dir) && Suitable(h) && forall g <- segs :: Loadable(g, file)
    requires s.cr3 * PAGE_SIZE != PAGEDIR && dir * PAGE_SIZE != PAGEDIR
    requires Tail(s.marks, n) && n + 2 * AllPages(segs) <= PAGE_NUMBER && Placed(s, dir, segs)
    ensures var s1, qs := ElfLoad(s, h, segs, file, dir).0, ElfPieces(s, segs, file, dir);
            && s1.clean && TookOnly(s, s1, dir, qs) && Loaded(s1, dir, s.next, segs, file, qs)
            && (forall i, k :: 0 <= i < |segs| && segs[i].load && 0 <= k < segs[i].memsz ==>
                  ReadsAs(s1.mem, dir, segs[i], file, k))
  {
    hide Kern, Tail, ElfLoad, TookOnly, Loaded, Loadable, Placed, ReadsAs, ElfPieces, Inv, UserIs;
    KernDirs(s, top);
    ElfLoadIff(s, top, n, h, segs, file, dir);
    ElfLoadExact(s, h, segs, file, dir);
    forall i, k | 0 <= i < |segs| && segs[i].load && 0 <= k < segs[i].memsz
      ensures ReadsAs(ElfLoad(s, h, segs, file, dir).0.mem, dir, segs[i], file, k)
    {
      ElfLoadReads(s, h, segs, file, dir, i, k);
    }
  }

  /** And loading it into an empty directory and unloading it again leaves every owner as before, up to page tables. */
  lemma ElfComesAndGoes(s: St, top: Page, n: nat, h: Header, segs: seq<Segment>, file: seq<Byte>, dir: Frame)
    requires Kern(s, top) && s.saved == 0 && IsDir(s, dir) && Suitable(h) && forall g <- segs :: Loadable(g, file)
    requires s.cr3 * PAGE_SIZE != PAGEDIR && dir * PAGE_SIZE != PAGEDIR
    requires Tail(s.marks, n) && n + 2 * AllPages(segs) <= PAGE_NUMBER && UserIs(s, dir, {}) && EntriesApart(segs)
    requires forall p <- EntryPages(segs) :: p % ENTRIES != 1023
    ensures forall g <- segs :: g.load ==> Fits(g.vaddr, g.memsz)
    ensures var s2 := ElfUnload(ElfLoad(s, h, segs, file, dir).0, h, segs, dir);
            && Kern(s2, top) && s2.cr3 == s.cr3 && Steady(s, s2)
            && (forall f <- s.own :: f in s2.own && s2.own[f] == s.own[f])
            && (forall f <- s2.own :: f !in s.own ==>
                  s2.own[f].KernelTable? || (s2.own[f].PrivateTable? && s2.own[f].dir == dir))
  {
    assert forall g <- segs :: g.load ==> Fits(g.vaddr, g.memsz);
    hide Kern, Tail, ElfLoad, ElfUnload, TookOnly, Loaded, Loadable, Placed, ElfPieces, Inv, UserIs, Steady,
      EntriesApart, HeldAll, EntryPages;
    KernDirs(s, top);
    PlacedFresh(s, dir, segs, file);
    ElfLoadIff(s, top, n, h, segs, file, dir);
    ElfLoadExact(s, h, segs, file, dir);
    var s1, qs := ElfLoad(s, h, segs, file, dir).0, ElfPieces(s, segs, file, dir);
    LoadedHeld(s1, dir, s.next, segs, file, qs);
    UserNoLast(s1, dir, EntryPages(segs));
    ElfUnloadKern(s1, top, h, segs, dir, qs);
    KernDirs(ElfUnload(s1, h, segs, dir), top);
    UnloadUndoesLoad(s, h, segs, file, dir);
  }
}
