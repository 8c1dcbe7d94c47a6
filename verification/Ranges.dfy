/** Ranges of pages: finding, mapping, unmapping, allocating and freeing them. */
module Ranges {
  import opened Common
  import opened FirstFit
  import opened Pmm
  import opened Paging
  import opened Space

  function PmmFlag(flags: Flags): Flag {
    if flags.user then USER else KERNEL
  }

  // ----- finding unmapped pages

  /** The physical address of the start of a page; 0 stands for an unmapped page, and is that of frame 0 as well. */
  function Phys(m: Mem, dir: Frame, page: Page): nat {
    var a := Walk(m, dir, page * PAGE_SIZE);
    if a.None? then 0 else a.value
  }

  function DomainStart(user: bool): Page { if user then USER_START else KERNEL_START }

  function DomainEnd(user: bool): Page { if user then USER_END else KERNEL_END }

  ghost function Unmapped(m: Mem, dir: Frame, user: bool): seq<bool> {
    seq(DomainEnd(user) - DomainStart(user) + 1,
        k requires 0 <= k < DomainEnd(user) - DomainStart(user) + 1 => Phys(m, dir, DomainStart(user) + k) == 0)
  }

  /** First page of the lowest sufficient run of unmapped pages in a domain; 0 stands for failure. */
  ghost function FindPages(m: Mem, dir: Frame, len: nat, user: bool): (page: Page)
    ensures page != 0 ==> len > 0 && InDomain(page, user) && InDomain(page + PagesOf(len) - 1, user)
  {
    if len == 0 then 0
    else
      var run := FirstRun(Unmapped(m, dir, user), PagesOf(len));
      if run.None? then 0
      else
        assert forall k :: run.value <= k < run.value + PagesOf(len) ==> Unmapped(m, dir, user)[k];
        DomainStart(user) + run.value
  }

  /** A page counts as free exactly when it is unmapped or mapped to frame 0. */
  lemma PhysZeroIff(m: Mem, dir: Frame, page: Page)
    ensures Phys(m, dir, page) == 0 <==> var pte := Lookup(m, dir, page); pte.Some? ==> pte.value.frame == 0
  {
    assert page * PAGE_SIZE / PAGE_SIZE == page && page * PAGE_SIZE % PAGE_SIZE == 0;
  }

  /** The pages found are all unmapped, or mapped to frame 0. */
  lemma FindPagesFree(m: Mem, dir: Frame, len: nat, user: bool, k: Page)
    requires var page := FindPages(m, dir, len, user); page != 0 && page <= k < page + PagesOf(len)
    ensures Phys(m, dir, k) == 0 && var pte := Lookup(m, dir, k); pte.Some? ==> pte.value.frame == 0
  {
    assert Unmapped(m, dir, user)[k - DomainStart(user)];
    PhysZeroIff(m, dir, k);
  }

  /** Some of the n pages from p on, all inside the domain, is mapped. */
  ghost predicate Blocked(m: Mem, dir: Frame, p: nat, n: nat, user: bool) {
    exists k: Page :: p <= k < p + n && Phys(m, dir, k) != 0
  }

  /**
   The search fails exactly when every sufficient run of the domain is blocked; else it
   returns the lowest that is not.
   */
  lemma FindPagesFirst(m: Mem, dir: Frame, len: nat, user: bool, p: nat)
    requires len > 0 && InDomain(p, user) && InDomain(p + PagesOf(len) - 1, user)
    requires FindPages(m, dir, len, user) == 0 || p < FindPages(m, dir, len, user)
    ensures Blocked(m, dir, p, PagesOf(len), user)
  {
    var free := Unmapped(m, dir, user);
    var start := DomainStart(user);
    assert !IsRun(free, p - start, PagesOf(len));
    var k :| p - start <= k < p - start + PagesOf(len) && !free[k];
    assert Phys(m, dir, start + k) != 0;
  }

  // ----- mapping and unmapping

  ghost function MapRange(s: St, dir: Frame, vp: nat, fp: nat, n: nat, flags: Flags): St
    requires vp + n <= PAGE_NUMBER && fp + n <= PAGE_NUMBER
  {
    if n == 0 then s
    else
      var s1 := MapRange(s, dir, vp, fp, n - 1, flags);
      var (s2, ok) := MapPage(s1, dir, vp + n - 1, fp + n - 1, flags);
      s2.(clean := s2.clean && ok)
  }

  ghost function UnmapRange(s: St, dir: Frame, vp: nat, n: nat): St
    requires vp + n <= PAGE_NUMBER
  {
    if n == 0 then s else UnmapPage(UnmapRange(s, dir, vp, n - 1), dir, vp + n - 1)
  }

  /** Number of pages that share a byte with the range. */
  function Spanned(addr: nat, len: nat): nat
    requires len > 0
  {
    (addr + len - 1) / PAGE_SIZE - addr / PAGE_SIZE + 1
  }

  predicate Fits(addr: nat, len: nat) {
    addr + len <= WORD
  }

  lemma SpannedPages(page: nat, len: nat)
    requires len > 0
    ensures Spanned(page * PAGE_SIZE, len) == PagesOf(len)
    ensures page + PagesOf(len) <= PAGE_NUMBER ==> Fits(page * PAGE_SIZE, len)
  {
  }

  ghost function MapBytes(s: St, dir: Frame, vaddr: nat, paddr: nat, len: nat, flags: Flags): St
    requires Fits(vaddr, len) && (len > 0 ==> paddr / PAGE_SIZE + Spanned(vaddr, len) <= PAGE_NUMBER)
  {
    if len == 0 then s
    else if !DomainCheck(s, vaddr / PAGE_SIZE, flags) then s.(clean := false)
    else MapRange(s, dir, vaddr / PAGE_SIZE, paddr / PAGE_SIZE, Spanned(vaddr, len), flags)
  }

  /** A range whose first page lies outside the domain is refused as a whole, whatever follows. */
  lemma MapRefusedWhole(s: St, vaddr: nat, paddr: nat, len: nat, flags: Flags)
    requires len > 0 && Fits(vaddr, len) && paddr / PAGE_SIZE + Spanned(vaddr, len) <= PAGE_NUMBER
    requires s.check
             && if flags.user then !(0x4000_0000 <= vaddr <= 0xFFBF_FFFF) else !(0x40_0000 <= vaddr <= 0x3FFF_FFFF)
    ensures MapBytes(s, s.cr3, vaddr, paddr, len, flags) == s.(clean := false)
  {
    DomainsExact(vaddr);
  }

  ghost function UnmapBytes(s: St, dir: Frame, vaddr: nat, len: nat): St
    requires Fits(vaddr, len)
  {
    if len == 0 then s else UnmapRange(s, dir, vaddr / PAGE_SIZE, Spanned(vaddr, len))
  }

  /**
   All translations outside the window are as before, save those of n pages from vp on:
   the directories that list their tables now map them to the frames from fp on.
   */
  ghost predicate OnlyMapped(s: St, s1: St, vp: nat, fp: nat, n: nat, flags: Flags)
    requires fp + n <= PAGE_NUMBER
  {
    forall d: Frame, p: Page :: IsDir(s, d) && Mappable(p) ==>
      Trans(s1, d, p) ==
      if vp <= p < vp + n && Sees(s, d, p) then Some(Mapping(fp + p - vp, flags.writable, flags.user))
      else Trans(s, d, p)
  }

  ghost predicate OnlyCleared(s: St, s1: St, vp: nat, n: nat) {
    forall d: Frame, p: Page :: IsDir(s, d) && Mappable(p) ==>
      Trans(s1, d, p) == if vp <= p < vp + n && Sees(s, d, p) then None else Trans(s, d, p)
  }

  lemma {:induction false} MapRangeGrows(s: St, vp: nat, fp: nat, n: nat, flags: Flags, shared: bool)
    requires Inv(s) && vp + n <= 1023 * ENTRIES && fp + n <= PAGE_NUMBER
    requires shared ==> n == 0 || (InDomain(vp, false) && InDomain(vp + n - 1, false))
    requires MapRange(s, s.cr3, vp, fp, n, flags).clean
    ensures s.clean && Grows(s, MapRange(s, s.cr3, vp, fp, n, flags), shared)
  {
    hide Inv, Steady, AddsTables, OtherDirsKept, MapPage, IsDir;
    GrowsRefl(s, shared);
    if n == 0 {
      return;
    }
    MapRangeClean(s, s.cr3, vp, fp, n, flags);
    MapRangeGrows(s, vp, fp, n - 1, flags, shared);
    var s1 := MapRange(s, s.cr3, vp, fp, n - 1, flags);
    var (s2, ok) := MapPage(s1, s.cr3, vp + n - 1, fp + n - 1, flags);
    MapGrows(s1, vp + n - 1, fp + n - 1, flags);
    GrowsWeaken(s1, s2, IsShared((vp + n - 1) / ENTRIES), shared);
    GrowsTrans(s, s1, s2, shared);
    assert s2.(clean := s2.clean && ok) == s2;
  }

  /** Mapping a range maps each of its pages, all unmapped before, to its frame, and changes no other page. */
  lemma {:induction false} MapRangeExact(s: St, vp: nat, fp: nat, n: nat, flags: Flags)
    requires Inv(s) && vp + n <= 1023 * ENTRIES && fp + n <= PAGE_NUMBER
    requires MapRange(s, s.cr3, vp, fp, n, flags).clean
    ensures var s1 := MapRange(s, s.cr3, vp, fp, n, flags);
            && OnlyMapped(s, s1, vp, fp, n, flags)
            && (forall p: Page :: vp <= p < vp + n ==> DomainCheck(s, p, flags) && Trans(s, s.cr3, p).None?)
  {
    hide Inv, Steady, Trans, MapPage, SelfMapped, AddsTables;
    GrowsRefl(s, false);
    if n == 0 {
      return;
    }
    MapRangeClean(s, s.cr3, vp, fp, n, flags);
    MapRangeGrows(s, vp, fp, n - 1, flags, false);
    MapRangeExact(s, vp, fp, n - 1, flags);
    var s1 := MapRange(s, s.cr3, vp, fp, n - 1, flags);
    MapExact(s1, vp + n - 1, fp + n - 1, flags);
  }

  /** Mapping pages behind the first table leaves entry 0 of every directory alone. */
  lemma {:induction false} MapRangeFirst(s: St, vp: nat, fp: nat, n: nat, flags: Flags)
    requires Inv(s) && ENTRIES <= vp && vp + n <= 1023 * ENTRIES && fp + n <= PAGE_NUMBER
    requires MapRange(s, s.cr3, vp, fp, n, flags).clean
    ensures FirstKept(s, MapRange(s, s.cr3, vp, fp, n, flags))
  {
    hide Inv, MapPage, Steady, AddsTables, Trans;
    if n == 0 {
      return;
    }
    MapRangeClean(s, s.cr3, vp, fp, n, flags);
    MapRangeFirst(s, vp, fp, n - 1, flags);
    MapRangeGrows(s, vp, fp, n - 1, flags, false);
    var s1 := MapRange(s, s.cr3, vp, fp, n - 1, flags);
    MapGrows(s1, vp + n - 1, fp + n - 1, flags);
    MapExact(s1, vp + n - 1, fp + n - 1, flags);
  }

  /** A step that keeps the invariant, the books and every directory. */
  ghost predicate Shrinks(s: St, s1: St) {
    && Inv(s1) && SameSwitches(s, s1) && s1.own == s.own && s1.marks == s.marks && s1.next == s.next
    && (forall d: Frame :: IsDir(s, d) ==> s1.mem[d] == s.mem[d])
  }

  lemma MapRangeClean(s: St, dir: Frame, vp: nat, fp: nat, n: nat, flags: Flags)
    requires 0 < n && vp + n <= PAGE_NUMBER && fp + n <= PAGE_NUMBER
    ensures MapRange(s, dir, vp, fp, n, flags).clean ==> MapRange(s, dir, vp, fp, n - 1, flags).clean
  {
  }

  /** Unmapping a range, never meeting the guard that frees a live table, clears exactly its pages. */
  lemma {:induction false} UnmapRangeExact(s: St, vp: nat, n: nat)
    requires Inv(s) && vp + n <= 1023 * ENTRIES
    requires UnmapRange(s, s.cr3, vp, n).clean
    ensures var s1 := UnmapRange(s, s.cr3, vp, n);
            && s.clean && Shrinks(s, s1)
            && OnlyCleared(s, s1, vp, n)
  {
    hide Inv, Trans, UnmapPage, FreesLiveTable;
    if n == 0 {
      return;
    }
    UnmapRangeClean(s, vp, n);
    UnmapRangeExact(s, vp, n - 1);
    UnmapExact(UnmapRange(s, s.cr3, vp, n - 1), vp + n - 1);
  }

  lemma UnmapRangeClean(s: St, vp: nat, n: nat)
    requires 0 < n && vp + n <= PAGE_NUMBER
    ensures UnmapRange(s, s.cr3, vp, n).clean ==> UnmapRange(s, s.cr3, vp, n - 1).clean
  {
  }

  // ----- allocating and freeing

  /** vmm_alloc: frames, then virtual pages for them; without pages the frames stay taken. */
  ghost function Alloc(s: St, len: nat, flags: Flags): (St, nat)
    requires len < WORD
  {
    var (s1, f) := Take(s, len, PmmFlag(flags), Data(s.next, flags.user));
    var page := FindPages(s1.mem, s1.cr3, len, flags.user);
    if f == 0 || page == 0 then (s1.(clean := s1.clean && (len == 0 || page != 0)), 0)
    else
      SpannedPages(page, len);
      (MapBytes(s1, s1.cr3, page * PAGE_SIZE, f * PAGE_SIZE, len, flags), page * PAGE_SIZE)
  }

  /** vmm_free: the pages of the range and the frames from the translation of its start on. */
  ghost function FreeRange(s: St, vaddr: nat, len: nat): St
    requires Fits(vaddr, len)
  {
    if len == 0 then s
    else
      var paddr := Walk(s.mem, s.cr3, vaddr);
      Give(UnmapBytes(s, s.cr3, vaddr, len), if paddr.None? then 0 else paddr.value, len)
  }
}
