/** Exactly when memory can be had at chosen addresses, and when a program can be loaded. */
module ProgramRoom {
  import opened Common
  import opened FirstFit
  import opened Pmm
  import opened Paging
  import opened Bytes
  import opened Space
  import opened Ranges
  import opened Allocation
  import opened Directories
  import opened UnmapLimits
  import opened Shortages
  import opened TaskMemory
  import opened UserMemory
  import opened Elf

  // ----- memory at a chosen address

  /**
   vmm_use_virtual_memory gives memory without trouble if and only if a run of frames is
   found, with room for the extra page of an unaligned range, the pages are unmapped and
   allowed, and single frames are left for the missing tables. It returns the address of the
   frames, or 0 and no change if there are none or the domain forbids it.
   */
  lemma UseVirtualCleanIff(s: St, vaddr: nat, len: nat, flags: Flags)
    requires Inv(s) && 0 < len < WORD && Fits(vaddr, len) && vaddr / PAGE_SIZE + Spanned(vaddr, len) <= 1023 * ENTRIES
    ensures var (s1, p) := UseVirtual(s, vaddr, len, flags);
            var f, page, n := Choose(s.marks, len), vaddr / PAGE_SIZE, Spanned(vaddr, len);
            s1.clean && p != 0 <==>
            && s.clean && f != 0 && f + n <= PAGE_NUMBER
            && (forall q: Page :: InRange(q, page, n) ==> DomainCheck(s, q, flags) && Trans(s, s.cr3, q).None?)
            && var missing := |Missing(s.mem, s.cr3, page, n)|;
               missing == 0 || (s.marks[0] != UNUSED && |Unused(s.marks)| >= PagesOf(len) + missing)
    ensures var (s1, p) := UseVirtual(s, vaddr, len, flags);
            && (Choose(s.marks, len) == 0 || !DomainCheck(s, vaddr / PAGE_SIZE, flags) ==>
                  p == 0 && s1.marks == s.marks && s1.mem == s.mem)
            && (Choose(s.marks, len) != 0 && DomainCheck(s, vaddr / PAGE_SIZE, flags) ==>
                  p == Choose(s.marks, len) * PAGE_SIZE)
  {
    hide Inv, Trans, Steady, MapRange, Choose, PagesOf, Spanned, Record, UseMarks, UseHighest, Unused, Missing;
    var f, page, n := Choose(s.marks, len), vaddr / PAGE_SIZE, Spanned(vaddr, len);
    assert n > 0 by { SpannedSome(vaddr, len); }
    assert InRange(page, page, n);
    if f != 0 && f + n <= PAGE_NUMBER && DomainCheck(s, page, flags) {
      TakeData(s, len, flags.user);
      TakeLeaves(s, len, flags.user);
      var s0 := Take(s, len, PmmFlag(flags), Data(s.next, flags.user)).0;
      TransKept(s, s0);
      MapRangeCleanIff(s0, page, f, n, flags);
    }
  }

  lemma SpannedSome(vaddr: nat, len: nat)
    requires len > 0
    ensures Spanned(vaddr, len) > 0
  {
  }

  lemma TwoMissing(m: Mem, d: Frame)
    requires !m[d][256].pr
    ensures Missing(m, d, 0x4_0000, 2) == {256}
  {
    MissingLast(m, d, 0x4_0000, 2);
    MissingLast(m, d, 0x4_0000, 1);
    MissingNone(m, d, 0x4_0000);
  }

  /**
   One page of memory asked for from the middle of a page on: a second page is mapped, to a
   frame not taken for it.
   */
  lemma UnalignedPage()
    ensures var s, flags := TwoDirectories(), Flags(true, true);
            var (s1, p) := UseVirtual(s, 0x4000_0800, 0x1000, flags);
            && Inv(s) && s1.clean && p == 6 * PAGE_SIZE
            && var m := Trans(s1, s.cr3, 0x4_0001);
               m.Some? && m.value.frame == 7 && !(7 in s1.own && HasTag(s1.own[7], s.next))
  {
    hide Inv, Choose;
    TwoDirectoriesInv();
    OneDirectoryWords();
    var s, flags := TwoDirectories(), Flags(true, true);
    hide OneDirectory;
    SixthFrame(s.marks, 0x1000);
    assert PagesOf(0x1000) == 1 && Spanned(0x4000_0800, 0x1000) == 2 && s.cr3 == 1;
    TwoMissing(s.mem, 1);
    SomeFrames(s.marks);
    forall q: Page | InRange(q, 0x4_0000, 2)
      ensures DomainCheck(s, q, flags) && Trans(s, s.cr3, q).None?
    {
      assert q / ENTRIES == 256;
      NoTableNoPage(s, s.cr3, q);
    }
    hide TwoDirectories, Trans, Missing, Unused, Spanned;
    UseVirtualCleanIff(s, 0x4000_0800, 0x1000, flags);
    UnalignedMapsForeignFrame(s, 0x4000_0800, 0x1000, flags);
  }

  lemma SomeFrames(marks: Marks)
    requires forall f: Frame :: marks[f] == if f < 6 then KERNEL else UNUSED
    ensures |Unused(marks)| >= 2
  {
    TailSize(marks, 6, 2);
  }

  // ----- the pages of a program

  /** The entry asks for memory on this page. */
  predicate HasPage(g: Segment, p: Page) {
    g.load && InRange(p, g.vaddr / PAGE_SIZE, PagesOf(g.memsz))
  }

  function PagesIn(g: Segment): nat {
    if g.load then PagesOf(g.memsz) else 0
  }

  function AllPages(segs: seq<Segment>): nat {
    if segs == [] then 0 else AllPages(segs[..|segs| - 1]) + PagesIn(segs[|segs| - 1])
  }

  ghost predicate InEntries(segs: seq<Segment>, p: Page) {
    exists g <- segs :: HasPage(g, p)
  }

  ghost predicate NoCommonPage(g: Segment, h: Segment) {
    forall p: Page :: !(HasPage(g, p) && HasPage(h, p))
  }

  ghost predicate FreeIn(s: St, d: Frame, g: Segment) {
    forall p: Page :: HasPage(g, p) ==> Trans(s, d, p).None?
  }

  /** No two entries share a page, and no page of an entry is mapped. */
  ghost predicate Placed(s: St, d: Frame, segs: seq<Segment>) {
    && (forall g <- segs :: FreeIn(s, d, g))
    && (forall i, j :: 0 <= i < j < |segs| ==> NoCommonPage(segs[i], segs[j]))
  }

  /** What loading entries does to translations and marks: their pages are mapped, and nothing else is changed. */
  ghost predicate Mapped(s: St, s1: St, segs: seq<Segment>, n: nat) {
    && Inv(s1) && s1.clean && SameSwitches(s, s1) && Tail(s1.marks, n)
    && (forall d: Frame :: IsDir(s1, d) <==> IsDir(s, d))
    && (forall i: Index :: IsShared(i) ==> (s1.mem[s.cr3][i].pr <==> s.mem[s.cr3][i].pr))
    && (forall d: Frame, p: Page :: IsDir(s, d) && Mappable(p) ==>
          if d == s.cr3 && InEntries(segs, p) then Trans(s1, d, p).Some? && Trans(s1, d, p).value.frame != 0
          else Trans(s1, d, p) == Trans(s, d, p))
  }

  /**
   Loading one entry runs into no trouble if and only if frames are found, its pages are
   unmapped, and frames are left for the tables.
   */
  lemma LoadSegmentCleanIff(s: St, g: Segment, file: seq<Byte>)
    requires Inv(s) && Loadable(g, file) && g.load && g.memsz > 0
    ensures LoadSegment(s, g, file).clean <==>
            && s.clean && Choose(s.marks, g.memsz) != 0 && FreeIn(s, s.cr3, g)
            && var missing := |Missing(s.mem, s.cr3, g.vaddr / PAGE_SIZE, PagesOf(g.memsz))|;
               missing == 0 || (s.marks[0] != UNUSED && |Unused(s.marks)| >= PagesOf(g.memsz) + missing)
  {
    hide Inv, Trans, UseVirtual, FillSegment, Choose, PagesOf, Spanned, Unused, Missing;
    var page, n, flags := g.vaddr / PAGE_SIZE, PagesOf(g.memsz), Flags(true, g.writable);
    AlignedSpan(g.vaddr, g.memsz);
    UseVirtualCleanIff(s, g.vaddr, g.memsz, flags);
    if Choose(s.marks, g.memsz) != 0 {
      TakeData(s, g.memsz, true);
    }
    assert forall p: Page :: InRange(p, page, n) ==> InDomain(p, true);
    hide Loadable;
  }

  /** With frames at the end of memory only the pages matter. */
  lemma LoadSegmentRoom(s: St, g: Segment, file: seq<Byte>, n: nat)
    requires Inv(s) && Loadable(g, file) && g.load && g.memsz > 0 && s.clean
    requires Tail(s.marks, n) && n + 2 * PagesIn(g) <= PAGE_NUMBER
    ensures LoadSegment(s, g, file).clean <==> FreeIn(s, s.cr3, g)
  {
    hide Inv, LoadSegment, Loadable, PagesOf, FreeIn, Choose, Unused, Missing;
    LoadSegmentCleanIff(s, g, file);
    FramesLeft(s.marks, n, g.memsz);
    PagesFit(g, file);
    MissingFew(s.mem, s.cr3, g.vaddr / PAGE_SIZE, PagesOf(g.memsz));
    TailSize(s.marks, n, 2 * PagesOf(g.memsz));
    SomePages(g.memsz);
  }

  lemma PagesFit(g: Segment, file: seq<Byte>)
    requires Loadable(g, file) && g.load && g.memsz > 0
    ensures g.vaddr / PAGE_SIZE + PagesOf(g.memsz) <= 1023 * ENTRIES
    ensures forall p: Page :: HasPage(g, p) ==> InDomain(p, true)
  {
  }

  // ----- what loading an entry changes

  lemma UseSegment(s: St, g: Segment, file: seq<Byte>, n: nat)
    requires Inv(s) && Loadable(g, file) && g.load && g.memsz > 0 && LoadSegment(s, g, file).clean
    requires Tail(s.marks, n) && n + 2 * PagesIn(g) <= PAGE_NUMBER
    ensures var flags := Flags(true, g.writable);
            var (u, p) := UseVirtual(s, g.vaddr, g.memsz, flags);
            var f := Choose(s.marks, g.memsz);
            && f != 0 && f + PagesOf(g.memsz) <= PAGE_NUMBER && p == f * PAGE_SIZE
            && Inv(u) && u.clean && SameSwitches(s, u) && Tail(u.marks, n + 2 * PagesIn(g))
            && (forall d: Frame :: IsDir(u, d) <==> IsDir(s, d))
            && (forall i: Index :: IsShared(i) ==> (u.mem[s.cr3][i].pr <==> s.mem[s.cr3][i].pr))
            && OnlyMapped(s, u, g.vaddr / PAGE_SIZE, f, PagesOf(g.memsz), flags)
  {
    hide Inv, Trans, Steady, AddsTables, MapRange, OnlyMapped, Record, UseMarks, UseHighest, Choose, PagesOf, Spanned,
      Tail, Missing, Unused, FillSegment, FirstKept;
    var page, m, flags := g.vaddr / PAGE_SIZE, PagesOf(g.memsz), Flags(true, g.writable);
    var (s0, f) := Take(s, g.memsz, USER, Data(s.next, true));
    PagesFit(g, file);
    AlignedSpan(g.vaddr, g.memsz);
    LoadSegmentCleanIff(s, g, file);
    TakeData(s, g.memsz, true);
    FramesLeft(s.marks, n, g.memsz);
    TakeTail(s, n, g.memsz, USER, Data(s.next, true));
    AllocCombine(s, s0, g.memsz, flags, page, f);
    MissingFew(s0.mem, s0.cr3, page, m);
    MapRangeTail(s0, page, f, m, flags, n + m);
    TailMore(MapRange(s0, s0.cr3, page, f, m, flags).marks, n + m + |Missing(s0.mem, s0.cr3, page, m)|, n + 2 * m);
    MapRangeTakes(s0, page, f, m, flags);
    UserTables(s0.mem, s0.cr3, g, file);
    DirsOf(s, MapRange(s0, s0.cr3, page, f, m, flags));
  }

  lemma DirsOf(s: St, s1: St)
    requires OtherDirsKept(s, s1)
    ensures forall d: Frame :: IsDir(s1, d) <==> IsDir(s, d)
  {
  }

  /** None of the tables a program may lack is a shared one. */
  lemma UserTables(m: Mem, d: Frame, g: Segment, file: seq<Byte>)
    requires Loadable(g, file) && g.load && g.memsz > 0 && g.vaddr / PAGE_SIZE + PagesOf(g.memsz) <= PAGE_NUMBER
    ensures forall i: Index :: IsShared(i) ==> i !in Missing(m, d, g.vaddr / PAGE_SIZE, PagesOf(g.memsz))
  {
    hide Missing, PagesOf;
    forall i: Index | IsShared(i)
      ensures i !in Missing(m, d, g.vaddr / PAGE_SIZE, PagesOf(g.memsz))
    {
      MissingExact(m, d, g.vaddr / PAGE_SIZE, PagesOf(g.memsz), i);
      forall p: Page | InRange(p, g.vaddr / PAGE_SIZE, PagesOf(g.memsz))
        ensures p / ENTRIES != i
      {
        assert InDomain(p, true);
      }
    }
  }

  /** Filling it changes no translation. */
  lemma FilledSpace(s: St, g: Segment, file: seq<Byte>)
    requires Inv(s) && Loadable(g, file) && g.load && g.memsz > 0 && LoadSegment(s, g, file).clean
    requires Inv(UseVirtual(s, g.vaddr, g.memsz, Flags(true, g.writable)).0)
    ensures var u := UseVirtual(s, g.vaddr, g.memsz, Flags(true, g.writable)).0;
            var s1 := LoadSegment(s, g, file);
            && Inv(s1) && s1 == u.(mem := s1.mem)
            && (forall d: Frame :: IsDir(s1, d) <==> IsDir(u, d))
            && (forall d: Frame :: IsDir(u, d) ==> s1.mem[d] == u.mem[d])
            && (forall d: Frame, p: Page :: IsDir(u, d) && Mappable(p) ==> Trans(s1, d, p) == Trans(u, d, p))
  {
    hide Inv, Trans, Adds, Held, UseVirtual, WriteRun, PagesOf, Choose, FillSegment, RunAt, Guarded;
    var q := SegmentPiece(s, g);
    UseVirtualAdds(s, g.vaddr, g.memsz, Flags(true, g.writable));
    var (u, p) := UseVirtual(s, g.vaddr, g.memsz, Flags(true, g.writable));
    HeldRun(u, q);
    Filled(u.mem, u.cr3, p, g, file);
    WrittenFrames(u.mem, p, g, file, q);
    PieceFrames(u, q);
    var m := FillSegment(u.mem, u.cr3, g, file);
    WriteKeepsSpace(u, m, q.base, PagesOf(q.len));
    DirsElsewhere(u, m, q);
  }

  lemma PieceFrames(s: St, q: Piece)
    requires Held(s, s.cr3, q, true) && q.len > 0
    ensures forall f: Frame :: q.base <= f < q.base + PagesOf(q.len) ==> f in s.own && s.own[f].Data?
  {
    hide Trans, PagesOf;
  }

  lemma DirsElsewhere(s: St, m: Mem, q: Piece)
    requires forall f: Frame :: q.base <= f < q.base + PagesOf(q.len) ==> f in s.own && s.own[f].Data?
    requires forall f: Frame :: !(q.base <= f < q.base + PagesOf(q.len)) ==> m[f] == s.mem[f]
    ensures forall d: Frame :: IsDir(s, d) ==> m[d] == s.mem[d]
  {
  }

  lemma LoadSegmentMaps(s: St, g: Segment, file: seq<Byte>, n: nat)
    requires Inv(s) && Loadable(g, file) && g.load && g.memsz > 0 && LoadSegment(s, g, file).clean
    requires Tail(s.marks, n) && n + 2 * PagesIn(g) <= PAGE_NUMBER
    ensures Mapped(s, LoadSegment(s, g, file), [g], n + 2 * PagesIn(g))
  {
    hide Inv, UseVirtual, LoadSegment, PagesOf, Choose, Tail, OnlyMapped, Trans;
    var u := UseVirtual(s, g.vaddr, g.memsz, Flags(true, g.writable)).0;
    UseSegment(s, g, file, n);
    FilledSpace(s, g, file);
    PagesFit(g, file);
    NoDirZero(s);
    OnlyOwnPages(s, u, g, Choose(s.marks, g.memsz), Flags(true, g.writable));
  }

  lemma OnlyOwnPages(s: St, u: St, g: Segment, f: Frame, flags: Flags)
    requires f != 0 && f + PagesOf(g.memsz) <= PAGE_NUMBER
    requires OnlyMapped(s, u, g.vaddr / PAGE_SIZE, f, PagesOf(g.memsz), flags)
    requires g.load && forall p: Page :: HasPage(g, p) ==> InDomain(p, true)
    ensures forall d: Frame, p: Page :: IsDir(s, d) && Mappable(p) ==>
              if d == s.cr3 && InEntries([g], p) then Trans(u, d, p).Some? && Trans(u, d, p).value.frame != 0
              else Trans(u, d, p) == Trans(s, d, p)
  {
    hide Trans, PagesOf;
    SharedDomains();
    assert forall p: Page :: InEntries([g], p) <==> HasPage(g, p) by { OneEntry(g); }
  }

  lemma OneEntry(g: Segment)
    ensures forall p: Page :: InEntries([g], p) <==> HasPage(g, p)
  {
    assert g in [g];
  }

  // ----- any number of entries

  lemma MappedRefl(s: St, n: nat)
    requires Inv(s) && s.clean && Tail(s.marks, n)
    ensures Mapped(s, s, [], n)
  {
  }

  lemma EntriesMore(init: seq<Segment>, g: Segment)
    ensures forall p: Page :: InEntries(init + [g], p) <==> InEntries(init, p) || InEntries([g], p)
  {
    forall p: Page
      ensures InEntries(init + [g], p) <==> InEntries(init, p) || InEntries([g], p)
    {
      if InEntries(init, p) {
        var h :| h in init && HasPage(h, p);
        assert h in init + [g];
      }
      if InEntries([g], p) {
        assert g in init + [g];
      }
    }
  }

  lemma MappedMore(s: St, s1: St, s2: St, init: seq<Segment>, g: Segment, n: nat, m: nat)
    requires Mapped(s, s1, init, n) && Mapped(s1, s2, [g], m)
    ensures Mapped(s, s2, init + [g], m)
  {
    hide Inv, Trans, Tail, InEntries;
    EntriesMore(init, g);
  }

  lemma MappedNothing(s: St, s1: St, init: seq<Segment>, g: Segment, n: nat)
    requires Mapped(s, s1, init, n) && PagesIn(g) == 0
    ensures Mapped(s, s1, init + [g], n)
  {
    EntriesMore(init, g);
    hide Inv, Trans, Tail, PagesOf;
    forall p: Page
      ensures !InEntries([g], p)
    {
      OneEntry(g);
    }
    hide InEntries;
  }

  /** The pages of one more entry are unmapped exactly when it shares none with the others and they were. */
  lemma PlacedMore(s: St, s1: St, init: seq<Segment>, file: seq<Byte>, g: Segment, n: nat)
    requires Mapped(s, s1, init, n) && Placed(s, s.cr3, init) && IsDir(s, s.cr3) && Loadable(g, file)
    ensures FreeIn(s1, s.cr3, g) <==> Placed(s, s.cr3, init + [g])
  {
    hide Inv, Trans, Tail, HasPage;
    OwnPages(g, file);
    var segs := init + [g];
    if Placed(s, s.cr3, segs) {
      assert g in segs;
      forall i | 0 <= i < |init|
        ensures NoCommonPage(init[i], g)
      {
        assert segs[i] == init[i] && segs[|init|] == g;
      }
      NotTheirs(init, g);
    }
    if FreeIn(s1, s.cr3, g) {
      forall i | 0 <= i < |init|
        ensures NoCommonPage(init[i], g)
      {
        assert init[i] in init;
        assert forall p: Page :: HasPage(init[i], p) ==> InEntries(init, p);
      }
      assert FreeIn(s, s.cr3, g) by { NoneOfThem(s, s1, init, g, n); }
    }
  }

  lemma NotTheirs(init: seq<Segment>, g: Segment)
    requires forall i :: 0 <= i < |init| ==> NoCommonPage(init[i], g)
    ensures forall p: Page :: HasPage(g, p) ==> !InEntries(init, p)
  {
    hide HasPage;
  }

  lemma OwnPages(g: Segment, file: seq<Byte>)
    requires Loadable(g, file)
    ensures forall p: Page :: HasPage(g, p) ==> Mappable(p) && InDomain(p, true)
  {
    if g.load && g.memsz > 0 {
      PagesFit(g, file);
    }
  }

  lemma NoneOfThem(s: St, s1: St, init: seq<Segment>, g: Segment, n: nat)
    requires Mapped(s, s1, init, n) && FreeIn(s1, s.cr3, g) && IsDir(s, s.cr3)
             && forall p: Page :: HasPage(g, p) ==> Mappable(p)
    ensures FreeIn(s, s.cr3, g)
  {
    hide Inv, Trans, Tail, HasPage, InEntries;
  }

  lemma PlacedLess(s: St, d: Frame, init: seq<Segment>, g: Segment)
    requires Placed(s, d, init + [g])
    ensures Placed(s, d, init)
  {
    hide FreeIn, NoCommonPage;
    var segs := init + [g];
    assert forall h <- init :: h in segs;
    assert forall i :: 0 <= i < |init| ==> segs[i] == init[i];
  }

  /**
   With room for all pages and as many tables at the end of memory, any number of entries
   is loaded without trouble if and only if no two of them share a page and none of their
   pages is mapped; then exactly their pages are mapped.
   */
  lemma {:induction false} LoadSegmentsIff(s: St, segs: seq<Segment>, file: seq<Byte>, n: nat)
    requires Inv(s) && s.clean && forall g <- segs :: Loadable(g, file)
    requires Tail(s.marks, n) && n + 2 * AllPages(segs) <= PAGE_NUMBER
    ensures LoadSegments(s, segs, file).clean <==> Placed(s, s.cr3, segs)
    ensures Placed(s, s.cr3, segs) ==> Mapped(s, LoadSegments(s, segs, file), segs, n + 2 * AllPages(segs))
  {
    hide LoadSegment, Loadable, Placed, Mapped, FreeIn, Tail, Inv, PagesIn;
    if segs == [] {
      MappedRefl(s, n);
      NonePlaced(s, s.cr3);
      return;
    }
    var init, g := segs[..|segs| - 1], segs[|segs| - 1];
    var s1, n1 := LoadSegments(s, init, file), n + 2 * AllPages(init);
    assert segs == init + [g];
    LoadSegmentsIff(s, init, file, n);
    if LoadSegment(s1, g, file).clean {
      SegmentCleans(s1, g, file);
    }
    if Placed(s, s.cr3, segs) {
      PlacedLess(s, s.cr3, init, g);
    }
    if Placed(s, s.cr3, init) {
      NoDirZero(s);
      PlacedMore(s, s1, init, file, g, n1);
      OneMore(s, s1, init, file, g, n1);
    }
  }

  lemma NonePlaced(s: St, d: Frame)
    ensures Placed(s, d, [])
  {
  }

  lemma OneMore(s: St, s1: St, init: seq<Segment>, file: seq<Byte>, g: Segment, n: nat)
    requires Mapped(s, s1, init, n) && Loadable(g, file) && n + 2 * PagesIn(g) <= PAGE_NUMBER
    ensures LoadSegment(s1, g, file).clean <==> FreeIn(s1, s1.cr3, g)
    ensures s1.cr3 == s.cr3
    ensures FreeIn(s1, s1.cr3, g) ==> Mapped(s, LoadSegment(s1, g, file), init + [g], n + 2 * PagesIn(g))
  {
    MappedParts(s, s1, init, n);
    hide LoadSegment, Mapped, FreeIn, Tail, Inv;
    if !g.load || g.memsz == 0 {
      NotLoaded(s1, g, file);
      NoPages(s1, g);
      MappedNothing(s, s1, init, g, n);
    } else {
      LoadSegmentRoom(s1, g, file, n);
      if FreeIn(s1, s1.cr3, g) {
        LoadSegmentMaps(s1, g, file, n);
        MappedMore(s, s1, LoadSegment(s1, g, file), init, g, n, n + 2 * PagesIn(g));
      }
    }
  }

  lemma MappedParts(s: St, s1: St, segs: seq<Segment>, n: nat)
    requires Mapped(s, s1, segs, n)
    ensures Inv(s1) && s1.clean && Tail(s1.marks, n) && s1.cr3 == s.cr3
  {
    hide Inv, Trans, Tail;
  }

  lemma NoPages(s: St, g: Segment)
    requires !g.load || g.memsz == 0
    ensures FreeIn(s, s.cr3, g) && PagesIn(g) == 0
  {
  }

  // ----- entries that share pages

  /** Every page of the entry is one of the piece's or unmapped. */
  ghost predicate Overlays(s: St, g: Segment, q: Piece) {
    forall p: Page :: HasPage(g, p) ==> InRange(p, q.page, PagesOf(q.len)) || Trans(s, s.cr3, p).None?
  }

  /** The page is one of the entry's and already belongs to the piece. */
  predicate Shared(g: Segment, q: Piece, p: Page) {
    HasPage(g, p) && InRange(p, q.page, PagesOf(q.len))
  }

  /** Where a page of the second entry ends up: in the frame of the first one, or in its own. */
  function Landing(g: Segment, q: Piece, f: Frame, p: Page): int {
    if InRange(p, q.page, PagesOf(q.len)) then q.base + p - q.page else f + p - g.vaddr / PAGE_SIZE
  }

  /** Frames are taken and the mapping of the range goes on over pages that are mapped. */
  lemma OverlayTakes(s: St, g: Segment, file: seq<Byte>, n: nat)
    requires Inv(s) && Loadable(g, file) && g.load && g.memsz > 0
    requires Tail(s.marks, n) && n + 2 * PagesIn(g) <= PAGE_NUMBER
    ensures var page, m, flags := g.vaddr / PAGE_SIZE, PagesOf(g.memsz), Flags(true, g.writable);
            var (s0, f) := Take(s, g.memsz, USER, Data(s.next, true));
            && f == Choose(s.marks, g.memsz) != 0 && f + m <= PAGE_NUMBER && page + m <= PAGE_NUMBER
            && UseVirtual(s, g.vaddr, g.memsz, flags) == (MapRange(s0, s.cr3, page, f, m, flags), f * PAGE_SIZE)
            && MapsOn(s0, MapRange(s0, s.cr3, page, f, m, flags).(clean := true), page, f, m, flags)
            && s0.own == Record(s.own, f, f + m - 1, Data(s.next, true)) && s0.mem == s.mem && s0.cr3 == s.cr3
            && (forall r: Frame :: f <= r < f + m ==> r !in s.own && s.marks[r] == UNUSED)
  {
    hide Inv, Trans, Steady, MapsOn, MapRange, Missing, Unused, Choose, PagesOf, Spanned, Record, UseMarks, UseHighest,
      Tail, EnoughFrames;
    var page, m, flags := g.vaddr / PAGE_SIZE, PagesOf(g.memsz), Flags(true, g.writable);
    var (s0, f) := Take(s, g.memsz, USER, Data(s.next, true));
    PagesFit(g, file);
    AlignedSpan(g.vaddr, g.memsz);
    FramesLeft(s.marks, n, g.memsz);
    TakeData(s, g.memsz, true);
    TakeTail(s, n, g.memsz, USER, Data(s.next, true));
    MissingFew(s0.mem, s0.cr3, page, m);
    TailSize(s0.marks, n + m, |Missing(s0.mem, s0.cr3, page, m)|);
    assert forall p: Page :: InRange(p, page, m) ==> HasPage(g, p);
    MapRangeGoesOn(s0, page, f, m, flags);
  }

  lemma OverlayMaps(s: St, g: Segment, file: seq<Byte>, q: Piece, n: nat)
    requires Inv(s) && Loadable(g, file) && g.load && g.memsz > 0
    requires Held(s, s.cr3, q, true) && q.len > 0 && Overlays(s, g, q)
    requires Tail(s.marks, n) && n + 2 * PagesIn(g) <= PAGE_NUMBER
    ensures var f := Choose(s.marks, g.memsz);
            var (u, a) := UseVirtual(s, g.vaddr, g.memsz, Flags(true, g.writable));
            && f != 0 && f + PagesOf(g.memsz) <= PAGE_NUMBER && a == f * PAGE_SIZE && u.cr3 == s.cr3
            && (forall r: Frame :: InRange(r, f, PagesOf(g.memsz)) ==>
                  s.marks[r] == UNUSED && r !in s.own && r in u.own && u.own[r] == Data(s.next, true))
            && (forall r <- s.own :: r in u.own && u.own[r] == s.own[r])
            && Inv(u.(clean := true))
            && (forall p: Page :: HasPage(g, p) ==>
                  Trans(u, s.cr3, p).Some? && Trans(u, s.cr3, p).value.frame == Landing(g, q, f, p))
            && (forall p: Page :: Shared(g, q, p) ==>
                  Trans(s, s.cr3, p).Some? && Trans(u, s.cr3, p) == Trans(s, s.cr3, p))
  {
    hide Inv, Trans, MapsOn, MapRange, Choose, PagesOf, Record, UseVirtual, Tail, Held, Landing, Overlays, Shared,
      RestMapped, HasPage;
    var page, m, flags := g.vaddr / PAGE_SIZE, PagesOf(g.memsz), Flags(true, g.writable);
    var (s0, f) := Take(s, g.memsz, USER, Data(s.next, true));
    OverlayTakes(s, g, file, n);
    hide Take;
    var u := MapRange(s0, s0.cr3, page, f, m, flags);
    PagesFit(g, file);
    NoDirZero(s);
    TransKept(s, s0);
    OverlayBooks(s, s0, u.(clean := true), page, f, m, flags);
    TransKept(u, u.(clean := true));
    OverlayLands(s, s0, u, g, q, f);
  }

  lemma OverlayBooks(s: St, s0: St, u: St, page: nat, f: Frame, m: nat, flags: Flags)
    requires page + m <= PAGE_NUMBER && f + m <= PAGE_NUMBER && MapsOn(s0, u, page, f, m, flags) && flags.user
    requires s0.own == Record(s.own, f, f + m - 1, Data(s.next, true)) && s0.cr3 == s.cr3
    requires forall r: Frame :: f <= r < f + m ==> r !in s.own && s.marks[r] == UNUSED
    ensures Inv(u) && u.cr3 == s.cr3 && RestMapped(s0, u, page, f, m, flags)
    ensures forall r: Frame :: InRange(r, f, m) ==>
              s.marks[r] == UNUSED && r !in s.own && r in u.own && u.own[r] == Data(s.next, true)
    ensures forall r <- s.own :: r in u.own && u.own[r] == s.own[r]
    ensures forall d: Frame :: IsDir(s, d) ==> IsDir(s0, d)
  {
    hide Inv, RestMapped, Missing, Unused, OtherDirsKept;
  }

  lemma OverlayLands(s: St, s0: St, u: St, g: Segment, q: Piece, f: Frame)
    requires IsDir(s0, s.cr3) && s0.cr3 == s.cr3 && forall d: Frame, p: Page :: Trans(s0, d, p) == Trans(s, d, p)
    requires f + PagesOf(g.memsz) <= PAGE_NUMBER && g.load && Held(s, s.cr3, q, true) && q.len > 0 && Overlays(s, g, q)
    requires RestMapped(s0, u.(clean := true), g.vaddr / PAGE_SIZE, f, PagesOf(g.memsz), Flags(true, g.writable))
    requires forall d: Frame, p: Page :: Trans(u.(clean := true), d, p) == Trans(u, d, p)
    requires forall p: Page :: HasPage(g, p) ==> InDomain(p, true)
    ensures forall p: Page :: HasPage(g, p) ==>
              Trans(u, s.cr3, p).Some? && Trans(u, s.cr3, p).value.frame == Landing(g, q, f, p)
    ensures forall p: Page :: Shared(g, q, p) ==> Trans(s, s.cr3, p).Some? && Trans(u, s.cr3, p) == Trans(s, s.cr3, p)
  {
    hide Trans, PagesOf;
    SharedDomains();
  }

  /** Pages of the entry land in different frames of allocated data. */
  lemma LandsApart(s: St, u: St, g: Segment, q: Piece, f: Frame)
    requires f + PagesOf(g.memsz) <= PAGE_NUMBER && g.load && Held(s, s.cr3, q, true) && q.len > 0
    requires forall r: Frame :: InRange(r, f, PagesOf(g.memsz)) ==>
               r !in s.own && r in u.own && u.own[r] == Data(s.next, true)
    requires forall r <- s.own :: r in u.own && u.own[r] == s.own[r]
    ensures forall p: Page :: HasPage(g, p) ==>
              0 <= Landing(g, q, f, p) < PAGE_NUMBER && Landing(g, q, f, p) in u.own && u.own[Landing(g, q, f, p)].Data?
    ensures forall p: Page, p': Page :: HasPage(g, p) && HasPage(g, p') && p != p' ==>
              Landing(g, q, f, p) != Landing(g, q, f, p')
    ensures forall p: Page, p': Page :: HasPage(g, p) && InRange(p, q.page, PagesOf(q.len)) && HasPage(g, p') ==>
              Landing(g, q, f, p') != f + p - g.vaddr / PAGE_SIZE
  {
    hide Trans, PagesOf;
    forall p: Page | InRange(p, q.page, PagesOf(q.len))
      ensures Landing(g, q, f, p) in s.own && s.own[Landing(g, q, f, p)].Data?
    {
    }
    forall p: Page | HasPage(g, p)
      ensures InRange(f + p - g.vaddr / PAGE_SIZE, f, PagesOf(g.memsz))
    {
    }
  }

  /** The page an address of the entry lies on. */
  lemma AddressPage(g: Segment, file: seq<Byte>, k: nat)
    requires Loadable(g, file) && g.load && g.vaddr <= k < g.vaddr + g.memsz
    ensures k < WORD && HasPage(g, k / PAGE_SIZE)
  {
    ByteOfRun(g.vaddr / PAGE_SIZE, g.memsz, k - g.vaddr);
  }

  /** All pages of the entry land in frames of allocated data, different pages in different ones. */
  ghost predicate Lands(s: St, u: St, g: Segment, q: Piece, f: Frame) {
    && (forall p: Page :: HasPage(g, p) ==>
          && 0 <= Landing(g, q, f, p) < PAGE_NUMBER && Landing(g, q, f, p) in u.own && u.own[Landing(g, q, f, p)].Data?
          && Trans(u, s.cr3, p).Some? && Trans(u, s.cr3, p).value.frame == Landing(g, q, f, p))
    && (forall p: Page, p': Page :: HasPage(g, p) && HasPage(g, p') && p != p' ==>
          Landing(g, q, f, p) != Landing(g, q, f, p'))
  }

  lemma OverlayReaches(s: St, u: St, g: Segment, file: seq<Byte>, q: Piece, f: Frame)
    requires Inv(u.(clean := true)) && u.cr3 == s.cr3 && Loadable(g, file) && g.load && Lands(s, u, g, q, f)
    ensures Reaches(u.mem, s.cr3, g.vaddr, g.memsz)
  {
    TablesNoData(u);
    hide Inv, Trans, UsedBy, PagesOf, Landing, Walk, HasPage;
    forall k | g.vaddr <= k < g.vaddr + g.memsz
      ensures var a := Walk(u.mem, s.cr3, k); a.Some? && a.value < WORD && !UsedBy(u.mem, s.cr3, a.value / PAGE_SIZE)
    {
      AddressPage(g, file, k);
      WalkFromTrans(u, s.cr3, k);
    }
    forall k, l | g.vaddr <= k < g.vaddr + g.memsz && g.vaddr <= l < g.vaddr + g.memsz && k != l
      ensures Walk(u.mem, s.cr3, k) != Walk(u.mem, s.cr3, l)
    {
      DifferentBytes(s, u, g, file, q, f, k, l);
    }
  }

  lemma DifferentBytes(s: St, u: St, g: Segment, file: seq<Byte>, q: Piece, f: Frame, k: nat, l: nat)
    requires Loadable(g, file) && g.load && Lands(s, u, g, q, f) && k != l
    requires g.vaddr <= k < g.vaddr + g.memsz && g.vaddr <= l < g.vaddr + g.memsz
    ensures k < WORD && l < WORD && Walk(u.mem, s.cr3, k) != Walk(u.mem, s.cr3, l)
  {
    hide Trans, PagesOf, Landing, Walk, HasPage, Loadable;
    AddressPage(g, file, k);
    AddressPage(g, file, l);
    WalkFromTrans(u, s.cr3, k);
    WalkFromTrans(u, s.cr3, l);
    if k / PAGE_SIZE == l / PAGE_SIZE {
      SameOffset(k, l);
    }
    OtherBytes(Trans(u, s.cr3, k / PAGE_SIZE).value.frame, k % PAGE_SIZE, Trans(u, s.cr3, l / PAGE_SIZE).value.frame,
               l % PAGE_SIZE);
  }

  lemma OtherBytes(f: nat, a: nat, g: nat, b: nat)
    requires a < PAGE_SIZE && b < PAGE_SIZE && (f != g || a != b)
    ensures f * PAGE_SIZE + a != g * PAGE_SIZE + b
  {
  }

  lemma SameOffset(k: nat, l: nat)
    requires k / PAGE_SIZE == l / PAGE_SIZE && k != l
    ensures k % PAGE_SIZE != l % PAGE_SIZE
  {
  }

  lemma TablesNoData(u: St)
    requires Inv(u.(clean := true))
    ensures forall f: Frame :: UsedBy(u.mem, u.cr3, f) ==> !(f in u.own && u.own[f].Data?)
  {
    forall f: Frame | UsedBy(u.mem, u.cr3, f)
      ensures f in u.own && !u.own[f].Data?
    {
      if f != u.cr3 {
        var i: Index :| u.mem[u.cr3][i].pr && u.mem[u.cr3][i].frame == f;
        assert i < 1023 ==> u.own[f] == RoleOf(u.cr3, i);
      }
    }
  }

  lemma StoredAgain(m: Mem, m1: Mem, dir: Frame, v: nat, n: nat, data: seq<Byte>)
    requires Reaches(m, dir, v, n) && Stored(m, m1, dir, v, n, data)
    ensures Reaches(m1, dir, v, n)
  {
    assert UsedBy(m, dir, dir);
    SameUse(m, m1, dir);
    hide UsedBy, Walk;
  }

  /** What is written through the directory can be read there, and changes no translation. */
  lemma OverlayFills(m: Mem, d: Frame, g: Segment, file: seq<Byte>)
    requires Loadable(g, file) && g.load && Reaches(m, d, g.vaddr, g.memsz)
    ensures var m1 := FillSegment(m, d, g, file);
            && (forall f: Frame :: UsedBy(m, d, f) ==> m1[f] == m[f])
            && (forall k :: 0 <= k < g.memsz ==> ReadsAs(m1, d, g, file, k))
  {
    hide Walk, UsedBy, WriteVirtual, ReadByte;
    var m0 := WriteVirtual(m, d, g.vaddr, Zeros(g.memsz));
    var m1 := FillSegment(m, d, g, file);
    VirtualBytes(m, d, g.vaddr, g.memsz, Zeros(g.memsz));
    StoredAgain(m, m0, d, g.vaddr, g.memsz, Zeros(g.memsz));
    VirtualBytes(m0, d, g.vaddr, g.memsz, FileBytes(g, file));
    UsedStill(m, m0, d);
    forall k | 0 <= k < g.memsz
      ensures ReadsAs(m1, d, g, file, k)
    {
      assert Walk(m1, d, g.vaddr + k) == Walk(m0, d, g.vaddr + k) == Walk(m, d, g.vaddr + k);
      assert ByteThrough(m1, d, g.vaddr + k) == if k < g.filesz then FileBytes(g, file)[k]
             else ByteThrough(m0, d, g.vaddr + k);
      assert ByteThrough(m0, d, g.vaddr + k) == 0;
    }
  }

  lemma UsedStill(m: Mem, m1: Mem, d: Frame)
    requires forall f: Frame :: UsedBy(m, d, f) ==> m1[f] == m[f]
    ensures forall f: Frame :: UsedBy(m, d, f) ==> UsedBy(m1, d, f)
  {
    assert UsedBy(m, d, d);
  }

  lemma SameTables(s: St, s1: St, d: Frame, p: Page)
    requires forall f: Frame :: UsedBy(s.mem, d, f) ==> s1.mem[f] == s.mem[f]
    ensures Trans(s1, d, p) == Trans(s, d, p)
  {
    assert UsedBy(s.mem, d, d);
    assert s.mem[d][p / ENTRIES].pr ==> UsedBy(s.mem, d, s.mem[d][p / ENTRIES].frame);
  }

  /**
   Loading an entry over one that is loaded: it reads as the file says, so that on a
   shared page nothing is left of the first entry; the page stays in the first entry's
   frame, and the frame taken for it is lost to no page of the entry. This counts as trouble.
   */
  lemma SharedPages(s: St, g: Segment, file: seq<Byte>, q: Piece, n: nat)
    requires Inv(s) && Loadable(g, file) && g.load && g.memsz > 0
    requires Held(s, s.cr3, q, true) && q.len > 0 && Overlays(s, g, q)
    requires Tail(s.marks, n) && n + 2 * PagesIn(g) <= PAGE_NUMBER
    ensures var s1, f, page := LoadSegment(s, g, file), Choose(s.marks, g.memsz), g.vaddr / PAGE_SIZE;
            && (forall k :: 0 <= k < g.memsz ==> ReadsAs(s1.mem, s.cr3, g, file, k))
            && (forall p: Page :: Shared(g, q, p) ==> !s1.clean && Trans(s1, s.cr3, p) == Trans(s, s.cr3, p))
            && (forall p: Page :: Shared(g, q, p) ==>
                  && 0 <= f + p - page < PAGE_NUMBER && s.marks[f + p - page] == UNUSED
                  && s1.marks[f + p - page] == USER
                  && forall p': Page :: HasPage(g, p') ==>
                       Trans(s1, s.cr3, p').Some? && Trans(s1, s.cr3, p').value.frame != f + p - page)
  {
    hide Inv, Trans, UseVirtual, Held, Choose, Landing, FillSegment, Tail, PagesOf, Overlays, ReadsAs;
    var f := Choose(s.marks, g.memsz);
    var u := UseVirtual(s, g.vaddr, g.memsz, Flags(true, g.writable)).0;
    OverlayMaps(s, g, file, q, n);
    LandsApart(s, u, g, q, f);
    OverlayReaches(s, u, g, file, q, f);
    OverlayFills(u.mem, u.cr3, g, file);
    var s1 := LoadSegment(s, g, file);
    forall p: Page
      ensures Trans(s1, s.cr3, p) == Trans(u, s.cr3, p)
    {
      SameTables(u, s1, s.cr3, p);
    }
    LoadSegmentCleanIff(s, g, file);
    TakenMarks(u, f, PagesOf(g.memsz), s.next);
    forall p: Page | Shared(g, q, p)
      ensures InRange(f + p - g.vaddr / PAGE_SIZE, f, PagesOf(g.memsz))
    {
    }
  }

  lemma TakenMarks(u: St, f: Frame, m: nat, tag: nat)
    requires Inv(u.(clean := true)) && forall r: Frame :: InRange(r, f, m) ==> r in u.own && u.own[r] == Data(tag, true)
    ensures forall r: Frame :: InRange(r, f, m) ==> u.marks[r] == USER
  {
  }
}
