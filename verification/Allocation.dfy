/** vmm_alloc and vmm_free: what they give, and that the one undoes the other. */
module Allocation {
  import opened Common
  import opened FirstFit
  import opened Pmm
  import opened Paging
  import opened Space
  import opened Ranges

  /** In directory d, the n pages from page on translate to the n frames from f on, all of them allocated data. */
  ghost predicate Block(s: St, d: Frame, page: nat, f: Frame, n: nat)
  {
    && page + n <= 1023 * ENTRIES && f + n <= PAGE_NUMBER
    && (forall p: Page :: page <= p < page + n ==>
          var m := Trans(s, d, p); m.Some? && m.value.frame == f + p - page)
    && (forall g: Frame :: f <= g < f + n ==> g in s.own && s.own[g].Data?)
  }

  lemma TakeData(s: St, len: nat, user: bool)
    requires Inv(s) && 0 < len < WORD && Choose(s.marks, len) != 0
    ensures var f := Choose(s.marks, len);
            var (s1, g) := Take(s, len, MarkOf(Data(s.next, user)), Data(s.next, user));
            && g == f && f + PagesOf(len) <= PAGE_NUMBER
            && Inv(s1) && SameSwitches(s, s1) && s1.mem == s.mem && s1.clean == s.clean && Steady(s, s1)
            && (forall g: Frame :: f <= g < f + PagesOf(len) ==> g !in s.own && s.marks[g] == UNUSED)
            && s1.own == Record(s.own, f, f + PagesOf(len) - 1, Data(s.next, user)) && s1.next == s.next + 1
  {
    var f, flag := Choose(s.marks, len), MarkOf(Data(s.next, user));
    var s1 := Take(s, len, flag, Data(s.next, user)).0;
    AllocExact(s.marks, len, flag, f);
    forall g: Frame
      ensures f <= g < f + PagesOf(len) ==> s.marks[g] == UNUSED && g !in s.own
      ensures s1.marks[g] == if f <= g < f + PagesOf(len) then flag else s.marks[g]
    {
      AllocExact(s.marks, len, flag, g);
    }
  }

  /** The translation of a page, as an address. */
  lemma WalkFromTrans(s: St, d: Frame, va: nat)
    requires va < WORD
    ensures Walk(s.mem, d, va) ==
            var m := Trans(s, d, va / PAGE_SIZE);
            if m.None? then None else Some(m.value.frame * PAGE_SIZE + va % PAGE_SIZE)
  {
  }

  /**
   A successful vmm_alloc yields page-aligned pages of the requested domain that were
   all unmapped; it maps them to one run of frames that were all unused, records these
   for the allocation, and changes no other translation.
   */
  lemma AllocPages(s: St, len: nat, flags: Flags)
    requires Inv(s) && 0 < len < WORD && Alloc(s, len, flags).0.clean
    ensures var (s1, vaddr) := Alloc(s, len, flags);
            var f, n, page := Choose(s.marks, len), PagesOf(len), vaddr / PAGE_SIZE;
            && s.clean && f != 0 && vaddr != 0 && vaddr % PAGE_SIZE == 0
            && InDomain(page, flags.user) && InDomain(page + n - 1, flags.user)
            && f + n <= PAGE_NUMBER
            && (forall p: Page :: page <= p < page + n ==> Trans(s, s.cr3, p).None?)
            && (forall g: Frame :: f <= g < f + n ==> g !in s.own && s.marks[g] == UNUSED)
            && Inv(s1) && SameSwitches(s, s1) && OtherDirsKept(s, s1) && Steady(s, s1) && FirstKept(s, s1)
            && OnlyMapped(s, s1, page, f, n, flags)
            && AddsTables(Record(s.own, f, f + n - 1, Data(s.next, flags.user)), s1.own, s.cr3, !flags.user)
  {
    hide Inv, Steady, AddsTables, Trans, MapRange, FindPages, Choose, PagesOf, Record, OnlyMapped, OtherDirsKept,
      FirstKept;
    var f, n := Choose(s.marks, len), PagesOf(len);
    TakeData(s, len, flags.user);
    var s0 := Take(s, len, PmmFlag(flags), Data(s.next, flags.user)).0;
    var page := FindPages(s0.mem, s0.cr3, len, flags.user);
    SpannedPages(page, len);
    AllocCombine(s, s0, len, flags, page, f);
  }

  lemma AllocCombine(s: St, s0: St, len: nat, flags: Flags, page: Page, f: Frame)
    requires Inv(s) && 0 < len < WORD && f + PagesOf(len) <= PAGE_NUMBER && page + PagesOf(len) <= 1023 * ENTRIES
    requires InDomain(page, flags.user) && InDomain(page + PagesOf(len) - 1, flags.user)
    requires Inv(s0) && SameSwitches(s, s0) && s0.mem == s.mem && Steady(s, s0)
    requires forall g: Frame :: f <= g < f + PagesOf(len) ==> g !in s.own
    requires s0.own == Record(s.own, f, f + PagesOf(len) - 1, Data(s.next, flags.user))
    requires MapRange(s0, s0.cr3, page, f, PagesOf(len), flags).clean
    ensures var s1 := MapRange(s0, s0.cr3, page, f, PagesOf(len), flags);
            && s0.clean && Inv(s1) && SameSwitches(s, s1) && OtherDirsKept(s, s1) && Steady(s, s1) && FirstKept(s, s1)
            && OnlyMapped(s, s1, page, f, PagesOf(len), flags)
            && AddsTables(Record(s.own, f, f + PagesOf(len) - 1, Data(s.next, flags.user)), s1.own, s.cr3, !flags.user)
            && (forall p: Page :: page <= p < page + PagesOf(len) ==> Trans(s, s.cr3, p).None?)
  {
    hide Inv, Steady, AddsTables, MapRange, Trans;
    GrowsRefl(s, true);
    TransKept(s, s0);
    var s1 := MapRange(s0, s0.cr3, page, f, PagesOf(len), flags);
    MapRangeGrows(s0, page, f, PagesOf(len), flags, !flags.user);
    MapRangeExact(s0, page, f, PagesOf(len), flags);
    MapRangeFirst(s0, page, f, PagesOf(len), flags);
    SteadyTrans(s, s0, s1);
    assert forall d: Frame :: IsDir(s0, d) <==> IsDir(s, d) by {
      DirsKept(s, s0, f, PagesOf(len), flags);
    }
  }

  lemma DirsKept(s: St, s0: St, f: Frame, n: nat, flags: Flags)
    requires forall g: Frame :: f <= g < f + n ==> g !in s.own
    requires s0.own == Record(s.own, f, f + n - 1, Data(s.next, flags.user))
    ensures forall d: Frame :: IsDir(s0, d) <==> IsDir(s, d)
  {
  }

  /** Every byte of a fresh allocation translates to the byte at the same distance in one contiguous frame run. */
  lemma AllocBytes(s: St, len: nat, flags: Flags, k: nat)
    requires Inv(s) && 0 < len < WORD && Alloc(s, len, flags).0.clean && k < len
    ensures var (s1, vaddr) := Alloc(s, len, flags);
            && vaddr + k < WORD
            && Walk(s.mem, s.cr3, vaddr + k).None?
            && Walk(s1.mem, s1.cr3, vaddr + k) == Some(Choose(s.marks, len) * PAGE_SIZE + k)
            && (if flags.user then 0x4000_0000 <= vaddr + k <= 0xFFBF_FFFF else 0x40_0000 <= vaddr + k <= 0x3FFF_FFFF)
  {
    hide Inv, Trans, Alloc, OtherDirsKept, Steady, AddsTables, Walk, PagesOf, Take, FindPages;
    AllocPages(s, len, flags);
    var (s1, vaddr) := Alloc(s, len, flags);
    var page := vaddr / PAGE_SIZE;
    ByteOfRun(page, len, k);
    DomainsExact(vaddr + k);
    GrowsRefl(s, true);
    WalkFromTrans(s, s.cr3, vaddr + k);
    WalkFromTrans(s1, s1.cr3, vaddr + k);
  }

  lemma ByteOfRun(page: nat, len: nat, k: nat)
    requires k < len && page + PagesOf(len) <= PAGE_NUMBER
    ensures page * PAGE_SIZE + k < WORD
    ensures page <= (page * PAGE_SIZE + k) / PAGE_SIZE < page + PagesOf(len)
    ensures (page * PAGE_SIZE + k) % PAGE_SIZE == k % PAGE_SIZE
    ensures (page * PAGE_SIZE + k) / PAGE_SIZE - page == k / PAGE_SIZE
  {
  }

  /**
   vmm_alloc reports failure exactly when the frames or the pages are missing. In the
   second case the frames it has already marked stay marked: they are lost.
   */
  lemma AllocFailure(s: St, len: nat, flags: Flags)
    requires Inv(s) && 0 < len < WORD
    ensures var (s1, vaddr) := Alloc(s, len, flags);
            var f, page := Choose(s.marks, len), FindPages(s.mem, s.cr3, len, flags.user);
            && (vaddr == 0 <==> f == 0 || page == 0)
            && (vaddr == 0 && f == 0 ==> s1.marks == s.marks && s1.mem == s.mem)
            && (vaddr == 0 && f != 0 ==>
                  forall g: Frame :: f <= g < f + PagesOf(len) ==>
                    s.marks[g] == UNUSED && s1.marks[g] == if flags.user then USER else KERNEL)
  {
    var f := Choose(s.marks, len);
    if f != 0 {
      forall g: Frame
        ensures f <= g < f + PagesOf(len) ==>
                  s.marks[g] == UNUSED
                  && Take(s, len, PmmFlag(flags), Data(s.next, flags.user)).0.marks[g] == PmmFlag(flags)
      {
        AllocExact(s.marks, len, PmmFlag(flags), g);
      }
      SpannedPages(FindPages(s.mem, s.cr3, len, flags.user), len);
    }
  }

  /** Giving an allocation's frames back keeps the invariant. */
  lemma GiveData(s: St, f: Frame, len: nat)
    requires Inv(s) && 0 < len < WORD && f != 0 && f + PagesOf(len) <= PAGE_NUMBER
    requires forall g: Frame :: f <= g < f + PagesOf(len) ==> g in s.own && s.own[g].Data?
    ensures var s1 := Give(s, f * PAGE_SIZE, len);
            && Inv(s1) && SameSwitches(s, s1) && s1.mem == s.mem && Steady(s, s1) && s1.clean == s.clean
            && s1.own == Drop(s.own, f, f + PagesOf(len) - 1)
            && (forall d: Frame :: IsDir(s1, d) <==> IsDir(s, d))
            && (forall g: Frame :: s1.marks[g] == if f <= g < f + PagesOf(len) then UNUSED else s.marks[g])
  {
    LastPage(f, len);
  }

  /**
   vmm_free of an allocation clears its pages and no other translation, marks exactly
   its frames as unused, and takes exactly them from the books.
   */
  lemma FreeExact(s: St, page: Page, f: Frame, len: nat)
    requires Inv(s) && 0 < len < WORD && f != 0 && page != 0 && Block(s, s.cr3, page, f, PagesOf(len))
    requires Fits(page * PAGE_SIZE, len) && FreeRange(s, page * PAGE_SIZE, len).clean
    ensures var s1 := FreeRange(s, page * PAGE_SIZE, len);
            && s.clean && Inv(s1) && SameSwitches(s, s1) && Steady(s, s1) && OnlyCleared(s, s1, page, PagesOf(len))
            && s1.own == Drop(s.own, f, f + PagesOf(len) - 1)
            && (forall d: Frame :: IsDir(s, d) ==> s1.mem[d] == s.mem[d])
            && (forall d: Frame :: IsDir(s1, d) <==> IsDir(s, d))
            && (forall g: Frame :: s1.marks[g] == if f <= g < f + PagesOf(len) then UNUSED else s.marks[g])
  {
    hide Inv, Trans, Steady, Walk, UnmapRange;
    var n := PagesOf(len);
    WalkFromTrans(s, s.cr3, page * PAGE_SIZE);
    SpannedPages(page, len);
    UnmapRangeExact(s, page, n);
    var s0 := UnmapRange(s, s.cr3, page, n);
    GiveData(s0, f, len);
    SteadyKept(s0, Give(s0, f * PAGE_SIZE, len), s, Give(s0, f * PAGE_SIZE, len));
    TransKept(s0, Give(s0, f * PAGE_SIZE, len));
  }

  lemma TransKept(s: St, s1: St)
    requires s1.mem == s.mem
    ensures forall d: Frame, p: Page :: Trans(s1, d, p) == Trans(s, d, p)
  {
  }

  lemma DroppedAgain(s: St, s1: St, s2: St, f: Frame, n: nat, flags: Flags)
    requires forall g: Frame :: f <= g < f + n ==> g !in s.own
    requires AddsTables(Record(s.own, f, f + n - 1, Data(s.next, flags.user)), s1.own, s.cr3, !flags.user)
    requires s2.own == Drop(s1.own, f, f + n - 1)
    ensures AddsTables(s.own, s2.own, s.cr3, !flags.user)
  {
  }

  /** vmm_free after vmm_alloc: every translation is as before, and all the frames taken are unused again. */
  lemma FreeUndoesAlloc(s: St, len: nat, flags: Flags)
    requires Inv(s) && 0 < len < WORD && Alloc(s, len, flags).0.clean
    requires var (s1, vaddr) := Alloc(s, len, flags); Fits(vaddr, len) && FreeRange(s1, vaddr, len).clean
    ensures var (s1, vaddr) := Alloc(s, len, flags);
            var s2 := FreeRange(s1, vaddr, len);
            var f, n := Choose(s.marks, len), PagesOf(len);
            && Inv(s2) && SameSwitches(s, s2) && SameTrans(s, s2) && AddsTables(s.own, s2.own, s.cr3, !flags.user)
            && (forall g: Frame :: s2.marks[g] == if f <= g < f + n then UNUSED else s1.marks[g])
            && (forall g: Frame :: f <= g < f + n ==> s.marks[g] == UNUSED)
  {
    hide Inv, Trans, Steady, Alloc, FreeRange, Choose, PagesOf;
    var (s1, vaddr) := Alloc(s, len, flags);
    var f, n, page := Choose(s.marks, len), PagesOf(len), vaddr / PAGE_SIZE;
    AllocPages(s, len, flags);
    GrowsRefl(s, true);
    assert Block(s1, s1.cr3, page, f, n);
    FreeExact(s1, page, f, len);
    DroppedAgain(s, s1, FreeRange(s1, vaddr, len), f, n, flags);
    SharedAgree(s);
  }
}
