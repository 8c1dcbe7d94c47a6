/**
 The state of the memory manager as a value, and what each primitive step of the
 virtual memory manager does to it.
 */
module Space {
  import opened Common
  import opened FirstFit
  import opened Pmm
  import opened Paging

  /** VMM_KERNEL or VMM_USER, combined or not with VMM_WRITABLE. */
  datatype Flags = Flags(user: bool, writable: bool)

  /** The one purpose an owned frame serves. */
  datatype Role =
    | Directory
    | KernelTable(i: Index)               // shared by the directories that list it
    | PrivateTable(dir: Frame, i: Index)  // belongs to one directory
    | Data(tag: nat, user: bool)          // belongs to the allocation with this number

  /**
   cr3 is the loaded directory, check the domain check switch, and saved the directory
   to return to while another one is being modified, or 0. careful tells which reading
   of vmm_destroy_page_directory is followed: the code's, which gives entry 0 back in
   any case, or the intended one, which does so only if it is present. The last three fields
   are bookkeeping that no step reads: own records every frame handed out by the
   allocator and not yet given back, next counts allocations, and clean turns false when an allocation fails,
   no virtual range is found, a page of a range is already mapped, or a page table is
   freed that still maps its last page.
   */
  datatype St = St(mem: Mem, marks: Marks, highest: nat, cr3: Frame, check: bool, saved: Frame, careful: bool,
                   own: map<Frame, Role>, next: nat, clean: bool)

  const KERNEL_START: Page := 0x400     // first page of the kernel domain, 4 MiB
  const KERNEL_END: Page := 0x3_FFFF    // its last page, below 1 GiB
  const USER_START: Page := 0x4_0000    // first page of the user domain
  const USER_END: Page := 0xF_FBFF      // its last page, below the window

  predicate InDomain(page: nat, user: bool) {
    if user then USER_START <= page <= USER_END else KERNEL_START <= page <= KERNEL_END
  }

  predicate IsShared(i: Index) {
    KERNEL_START / ENTRIES <= i <= KERNEL_END / ENTRIES
  }

  /**
   The kernel domain is the memory from 4 MiB to 1 GiB, the user domain that from 1 GiB to
   4 MiB below the end; the tables shared are those of the kernel domain.
   */
  lemma DomainsExact(addr: nat)
    requires addr < WORD
    ensures InDomain(addr / 4096, false) <==> 0x40_0000 <= addr <= 0x3FFF_FFFF
    ensures InDomain(addr / 4096, true) <==> 0x4000_0000 <= addr <= 0xFFBF_FFFF
    ensures IsShared(addr / 0x40_0000) <==> 0x40_0000 <= addr <= 0x3FFF_FFFF
  {
  }

  function RoleOf(dir: Frame, i: Index): Role {
    if IsShared(i) then KernelTable(i) else PrivateTable(dir, i)
  }

  /** How the bitmap marks a frame that serves a purpose. */
  function MarkOf(role: Role): Flag {
    if role.Data? && role.user then USER else KERNEL
  }

  predicate HasTag(role: Role, tag: nat) {
    role.Data? && role.tag == tag
  }

  predicate DomainCheck(s: St, page: Page, flags: Flags) {
    s.check ==> InDomain(page, flags.user)
  }

  // ----- frames

  /** The books after frames first to last have been taken for a purpose, or given back. */
  function Record(own: map<Frame, Role>, first: nat, last: int, role: Role): map<Frame, Role> {
    map g: Frame | first <= g <= last || g in own :: if first <= g <= last then role else own[g]
  }

  function Drop(own: map<Frame, Role>, first: nat, last: int): map<Frame, Role> {
    map g: Frame | g in own && !(first <= g <= last) :: own[g]
  }

  /** pmm_alloc, with the purpose the frames are taken for; frame 0 stands for failure. */
  ghost function Take(s: St, len: nat, flag: Flag, role: Role): (St, Frame) {
    var f := Choose(s.marks, len);
    if f == 0 then (s.(clean := s.clean && len == 0), 0)
    else (s.(marks := UseMarks(s.marks, f * PAGE_SIZE, len, flag),
             highest := UseHighest(s.highest, f * PAGE_SIZE, len, flag),
             own := Record(s.own, PageOf(f * PAGE_SIZE, 0), PageOf(f * PAGE_SIZE, len - 1), role),
             next := s.next + 1), f)
  }

  /** pmm_free of a range of physical addresses. */
  function Give(s: St, addr: nat, len: nat): St {
    if len == 0 then s
    else s.(marks := UseMarks(s.marks, addr, len, UNUSED),
            own := Drop(s.own, PageOf(addr, 0), PageOf(addr, len - 1)))
  }

  // ----- one page

  /** A table for entry i of a directory; without a free frame it ends up in frame 0. */
  ghost function NewTable(s: St, dir: Frame, i: Index): St {
    var (s1, f) := Take(s, PAGE_SIZE, KERNEL, RoleOf(dir, i));
    var pde := s.mem[dir][i].(pr := true, rw := true, user := true, frame := f);
    s1.(mem := ZeroFrame(Put(s.mem, dir, i, pde), f))
  }

  ghost function MapPage(s: St, dir: Frame, page: Page, frame: Frame, flags: Flags): (St, bool) {
    if !DomainCheck(s, page, flags) then (s, false)
    else
      var i, j := page / ENTRIES, page % ENTRIES;
      var s1 := if s.mem[dir][i].pr then s else NewTable(s, dir, i);
      var t := s1.mem[dir][i].frame;
      var pte := s1.mem[t][j];
      if pte.pr then (s1, false)
      else
        var pte' := pte.(pr := true, rw := flags.writable, user := flags.user, frame := frame);
        (s1.(mem := Put(s1.mem, t, j, pte')), true)
  }

  /** The guard of the branch that gives a page table back: its last page is the only one left. */
  ghost predicate OnlyLast(t: Table) {
    t[1023].pr && forall k :: 0 <= k < 1023 ==> !t[k].pr
  }

  ghost function UnmapPage(s: St, dir: Frame, page: Page): St {
    var i, j := page / ENTRIES, page % ENTRIES;
    if !s.mem[dir][i].pr then s
    else
      var t := s.mem[dir][i].frame;
      if !s.mem[t][j].pr then s
      else
        var s1 := s.(mem := Put(s.mem, t, j, ZERO));
        if OnlyLast(s1.mem[t]) then DropTable(s1, dir, i).(clean := false) else s1
  }

  /** Gives the frame of directory entry i back and clears the entry, present or not. */
  function DropTable(s: St, dir: Frame, i: Index): St {
    var f := s.mem[dir][i].frame;
    Give(s, f * PAGE_SIZE, PAGE_SIZE).(mem := Put(s.mem, dir, i, ZERO))
  }

  // ----- the invariant

  predicate IsDir(s: St, d: Frame) {
    d in s.own && s.own[d] == Directory
  }

  /**
   Every owned frame is marked as its purpose asks and is not frame 0; directories name
   themselves last; the tables a directory lists are recorded under exactly the slot
   that lists them; recorded tables are listed; absent entries are zero; allocation
   numbers have been handed out.
   */
  ghost predicate Inv(s: St) {
    && IsDir(s, s.cr3)
    && (forall f <- s.own :: f != 0 && s.marks[f] == MarkOf(s.own[f]))
    && (forall d: Frame :: IsDir(s, d) ==> s.mem[d][1023] == Entry(true, false, false, 0, d))
    && (forall d: Frame, i: Index :: IsDir(s, d) && i < 1023 && s.mem[d][i].pr ==>
          s.mem[d][i].frame in s.own && s.own[s.mem[d][i].frame] == RoleOf(d, i)
          && s.mem[d][i] == Entry(true, true, true, 0, s.mem[d][i].frame))
    && (forall d: Frame, i: Index :: IsDir(s, d) && !s.mem[d][i].pr ==> s.mem[d][i] == ZERO)
    && (forall f <- s.own :: s.own[f].KernelTable? ==>
          var i := s.own[f].i; IsShared(i) && s.mem[s.cr3][i].pr && s.mem[s.cr3][i].frame == f)
    && (forall f <- s.own :: s.own[f].PrivateTable? ==>
          var (d, i) := (s.own[f].dir, s.own[f].i);
          IsDir(s, d) && i < 1023 && !IsShared(i) && s.mem[d][i].pr && s.mem[d][i].frame == f)
    && (forall f <- s.own :: s.own[f].Data? ==> s.own[f].tag < s.next)
  }

  /** The page belongs to a table of some directory, not to the window. */
  predicate Mappable(page: Page) {
    page / ENTRIES < 1023
  }

  // ----- how the books may change

  /**
   Between two states no frame but frame 0 is lost or conjured up: a frame owned in
   neither keeps its mark, a newly owned one was unused, a returned one is unused. In
   the careful reading frame 0 keeps its mark as well.
   */
  ghost predicate Steady(s: St, s1: St) {
    && s.next <= s1.next && s1.careful == s.careful && (s.careful ==> s1.marks[0] == s.marks[0])
    && forall f: Frame :: f != 0 ==>
         && (f !in s.own && f !in s1.own ==> s1.marks[f] == s.marks[f])
         && (f !in s.own && f in s1.own ==> s.marks[f] == UNUSED)
         && (f in s.own && f !in s1.own ==> s1.marks[f] == UNUSED)
  }

  lemma SteadyTrans(s: St, s1: St, s2: St)
    requires Steady(s, s1) && Steady(s1, s2)
    ensures Steady(s, s2)
  {
  }

  /** Nothing that Steady looks at differs. */
  predicate SameBooks(s: St, s1: St) {
    s1.own == s.own && s1.marks == s.marks && s1.next == s.next && s1.careful == s.careful
  }

  lemma SteadyKept(s: St, t: St, s1: St, t1: St)
    requires Steady(s, t) && SameBooks(s, s1) && SameBooks(t, t1)
    ensures Steady(s1, t1)
  {
  }

  /** Only page tables have been added: shared ones, and unless shared is set, private ones of the given directory. */
  ghost predicate AddsTables(own: map<Frame, Role>, own1: map<Frame, Role>, dir: Frame, shared: bool) {
    && (forall f <- own :: f in own1 && own1[f] == own[f])
    && (forall f <- own1 :: f !in own ==>
          own1[f].KernelTable? || (!shared && own1[f].PrivateTable? && own1[f].dir == dir))
  }

  /** Nothing but frames and translations may have changed. */
  predicate SameSwitches(s: St, s1: St) {
    s1.cr3 == s.cr3 && s1.check == s.check && s1.saved == s.saved && s1.careful == s.careful
  }

  /** The words of all other directories are as before, and the same frames are directories. */
  ghost predicate OtherDirsKept(s: St, s1: St) {
    && (forall d: Frame :: IsDir(s1, d) <==> IsDir(s, d))
    && (forall d: Frame :: IsDir(s, d) && d != s.cr3 ==> s1.mem[d] == s.mem[d])
  }

  /** Entry 0 of every directory, which only VM86 tasks use, is as before. */
  ghost predicate FirstKept(s: St, s1: St) {
    forall d: Frame :: IsDir(s, d) && IsDir(s1, d) ==> s1.mem[d][0] == s.mem[d][0]
  }

  /** A step that keeps the invariant and takes at most page tables for the loaded directory. */
  ghost predicate Grows(s: St, s1: St, shared: bool) {
    && Inv(s1) && SameSwitches(s, s1) && OtherDirsKept(s, s1) && AddsTables(s.own, s1.own, s.cr3, shared)
    && Steady(s, s1) && s1.marks[0] == s.marks[0]
  }

  lemma GrowsRefl(s: St, shared: bool)
    requires Inv(s)
    ensures Grows(s, s, shared) && IsDir(s, s.cr3)
  {
  }

  lemma GrowsTrans(s: St, s1: St, s2: St, shared: bool)
    requires Grows(s, s1, shared) && Grows(s1, s2, shared)
    ensures Grows(s, s2, shared)
  {
    hide Inv;
  }

  lemma GrowsWeaken(s: St, s1: St, shared: bool, shared': bool)
    requires Grows(s, s1, shared) && (shared' ==> shared)
    ensures Grows(s, s1, shared')
  {
    hide Inv;
  }

  lemma TakeOne(s: St, role: Role)
    requires Inv(s)
    ensures var (s1, f) := Take(s, PAGE_SIZE, KERNEL, role);
            && (f == 0 ==> s1 == s.(clean := false))
            && (f != 0 ==> f !in s.own && s.marks[f] == UNUSED && s1.marks == s.marks[f := KERNEL]
                           && s1.own == s.own[f := role] && s1.mem == s.mem && s1.cr3 == s.cr3
                           && s1.next == s.next + 1)
  {
    var f := Choose(s.marks, PAGE_SIZE);
    if f != 0 {
      var (s1, _) := Take(s, PAGE_SIZE, KERNEL, role);
      AllocExact(s.marks, PAGE_SIZE, KERNEL, f);
      forall g: Frame ensures s1.marks[g] == s.marks[f := KERNEL][g] {
        AllocExact(s.marks, PAGE_SIZE, KERNEL, g);
      }
      assert PagesOf(PAGE_SIZE) == 1;
      assert s1.own == s.own[f := role];
    }
  }

  // ----- translations

  datatype Mapping = Mapping(frame: Frame, writable: bool, user: bool)

  /** What a directory says about a page. */
  function Trans(s: St, d: Frame, page: Page): Option<Mapping> {
    var pte := Lookup(s.mem, d, page);
    if pte.None? then None else Some(Mapping(pte.value.frame, pte.value.rw, pte.value.user))
  }

  /** The directories in which an entry of the loaded directory's table shows up. */
  predicate Sees(s: St, d: Frame, page: Page) {
    d == s.cr3 || (IsShared(page / ENTRIES) && s.mem[d][page / ENTRIES].pr)
  }

  /** Every directory translates every page outside the window as before, save one page. */
  ghost predicate OnlyPage(s: St, s1: St, page: Page, now: Option<Mapping>) {
    forall d: Frame, p: Page :: IsDir(s, d) && Mappable(p) ==>
      Trans(s1, d, p) == if p == page && Sees(s, d, page) then now else Trans(s, d, p)
  }

  ghost predicate SameTrans(s: St, s1: St) {
    forall d: Frame, p: Page :: IsDir(s, d) && Mappable(p) ==> Trans(s1, d, p) == Trans(s, d, p)
  }

  /** A directory that lists a table of the loaded directory translates its pages the same way. */
  lemma SharedAgree(s: St)
    requires Inv(s)
    ensures forall d: Frame, p: Page :: IsDir(s, d) && Mappable(p) && Sees(s, d, p) ==>
              Trans(s, d, p) == Trans(s, s.cr3, p)
  {
    forall d: Frame, p: Page | IsDir(s, d) && Mappable(p) && Sees(s, d, p)
      ensures Trans(s, d, p) == Trans(s, s.cr3, p)
    {
      var k := p / ENTRIES;
      if d != s.cr3 {
        assert s.own[s.mem[d][k].frame] == RoleOf(d, k);
      }
    }
  }

  /**
   What the processor lets a user do with a page: both entries on the way to it have a
   say (section 4.6 of the Intel SDM, volume 3A).
   */
  function UserAccess(m: Mem, d: Frame, page: Page): (bool, bool) {
    var pde := m[d][page / ENTRIES];
    var pte := m[pde.frame][page % ENTRIES];
    var canRead := pde.pr && pte.pr && pde.user && pte.user;
    (canRead, canRead && pde.rw && pte.rw)
  }

  /**
   A user reaches exactly the pages mapped for users and writes exactly those of them that
   are mapped to be written; the window through which tables are edited is out of reach.
   */
  lemma UserAccessExact(s: St, d: Frame, page: Page)
    requires Inv(s) && IsDir(s, d)
    ensures var (canRead, canWrite) := UserAccess(s.mem, d, page);
            if page < 1023 * 1024 then
              && (canRead <==> Trans(s, d, page).Some? && Trans(s, d, page).value.user)
              && (canWrite <==> canRead && Trans(s, d, page).value.writable)
            else !canRead && !canWrite
  {
  }

  /** Changing one frame that is no page table leaves the translations of all other directories alone. */
  lemma OtherFrame(s: St, s1: St, x: Frame)
    requires Inv(s) && x in s.own && (s.own[x].Data? || s.own[x].Directory?)
    requires forall g: Frame :: g != x ==> s1.mem[g] == s.mem[g]
    ensures forall d: Frame, p: Page :: IsDir(s, d) && d != x && Mappable(p) ==> Trans(s1, d, p) == Trans(s, d, p)
  {
    forall d: Frame, p: Page | IsDir(s, d) && d != x && Mappable(p)
      ensures Trans(s1, d, p) == Trans(s, d, p)
    {
      if s.mem[d][p / ENTRIES].pr {
        assert s.own[s.mem[d][p / ENTRIES].frame] == RoleOf(d, p / ENTRIES);
      }
    }
  }

  /** A new table is a fresh zeroed frame; of all directory words only the one naming it changes. */
  lemma NewTableShape(s: St, i: Index)
    requires Inv(s) && i < 1023 && !s.mem[s.cr3][i].pr
    requires NewTable(s, s.cr3, i).clean
    ensures var s1 := NewTable(s, s.cr3, i);
            var f := s1.mem[s.cr3][i].frame;
            && SameSwitches(s, s1) && OtherDirsKept(s, s1) && Steady(s, s1)
            && AddsTables(s.own, s1.own, s.cr3, IsShared(i))
            && f != 0 && f !in s.own && s1.own == s.own[f := RoleOf(s.cr3, i)]
            && s1.marks == s.marks[f := KERNEL] && s1.next == s.next + 1
            && s1.mem[s.cr3][i] == Entry(true, true, true, 0, f) && s1.mem[f] == seq(1024, _ => ZERO)
            && (forall k: Index :: k != i ==> s1.mem[s.cr3][k] == s.mem[s.cr3][k])
            && (forall g: Frame :: g != f && g != s.cr3 ==> s1.mem[g] == s.mem[g])
  {
    TakeOne(s, RoleOf(s.cr3, i));
  }

  lemma NewTableInv(s: St, i: Index)
    requires Inv(s) && i < 1023 && !s.mem[s.cr3][i].pr
    requires NewTable(s, s.cr3, i).clean
    ensures Inv(NewTable(s, s.cr3, i))
  {
    hide NewTable, Steady, AddsTables;
    NewTableShape(s, i);
    var s1 := NewTable(s, s.cr3, i);
    assert forall d: Frame, k: Index :: IsDir(s, d) && (d != s.cr3 || k != i) ==> s1.mem[d][k] == s.mem[d][k];
    assert forall d: Frame :: IsDir(s1, d) <==> IsDir(s, d);
  }

  lemma NewTableTrans(s: St, i: Index)
    requires Inv(s) && i < 1023 && !s.mem[s.cr3][i].pr
    requires NewTable(s, s.cr3, i).clean
    ensures SameTrans(s, NewTable(s, s.cr3, i))
  {
    hide NewTable, Steady, AddsTables;
    NewTableShape(s, i);
    var s1 := NewTable(s, s.cr3, i);
    forall d: Frame, p: Page | IsDir(s, d) && Mappable(p)
      ensures Trans(s1, d, p) == Trans(s, d, p)
    {
      var k := p / ENTRIES;
      if s.mem[d][k].pr {
        assert s.own[s.mem[d][k].frame] == RoleOf(d, k);
      }
    }
  }

  /**
   Writing a present or absent entry into a table listed by the loaded directory
   changes one page, in exactly the directories that list this table.
   */
  lemma WriteEntry(s: St, page: Page, e: Entry)
    requires Inv(s) && Mappable(page) && s.mem[s.cr3][page / ENTRIES].pr
    ensures var t := s.mem[s.cr3][page / ENTRIES].frame;
            var s1 := s.(mem := Put(s.mem, t, page % ENTRIES, e));
            && Inv(s1)
            && (forall d: Frame :: IsDir(s, d) ==> s1.mem[d] == s.mem[d])
            && OnlyPage(s, s1, page, if e.pr then Some(Mapping(e.frame, e.rw, e.user)) else None)
  {
    var i := page / ENTRIES;
    var t := s.mem[s.cr3][i].frame;
    var s1 := s.(mem := Put(s.mem, t, page % ENTRIES, e));
    assert s.own[t] == RoleOf(s.cr3, i);
    assert !IsDir(s, t);
    assert forall d: Frame :: IsDir(s1, d) ==> IsDir(s, d) && s1.mem[d] == s.mem[d] && SelfMapped(s.mem, d);
    forall d: Frame, p: Page | IsDir(s, d) && Mappable(p)
      ensures Trans(s1, d, p) ==
              if p == page && Sees(s, d, page)
              then (if e.pr then Some(Mapping(e.frame, e.rw, e.user)) else None)
              else Trans(s, d, p)
    {
      var k := p / ENTRIES;
      if s.mem[d][k].pr {
        assert s.own[s.mem[d][k].frame] == RoleOf(d, k);
        assert s.mem[d][k].frame == t <==> k == i && Sees(s, d, page);
      }
    }
  }

  /** Writing the entry of a page whose table exists, as vmm_map does it. */
  lemma WriteMapping(s: St, page: Page, frame: Frame, flags: Flags)
    requires Inv(s) && Mappable(page) && DomainCheck(s, page, flags) && s.mem[s.cr3][page / ENTRIES].pr
    ensures var (s1, ok) := MapPage(s, s.cr3, page, frame, flags);
            && Inv(s1) && SameSwitches(s, s1) && s1.own == s.own && s1.marks == s.marks && s1.next == s.next
            && (ok <==> Trans(s, s.cr3, page).None?)
            && (ok ==> OnlyPage(s, s1, page, Some(Mapping(frame, flags.writable, flags.user))))
            && (!ok ==> s1 == s)
            && (forall d: Frame :: IsDir(s, d) ==> s1.mem[d] == s.mem[d])
  {
    var e := s.mem[s.mem[s.cr3][page / ENTRIES].frame][page % ENTRIES];
    WriteEntry(s, page, e.(pr := true, rw := flags.writable, user := flags.user, frame := frame));
  }

  lemma NewTableGrows(s: St, i: Index)
    requires Inv(s) && i < 1023 && !s.mem[s.cr3][i].pr && NewTable(s, s.cr3, i).clean
    ensures s.clean && Grows(s, NewTable(s, s.cr3, i), IsShared(i))
  {
    assert s.clean;
    hide Inv, NewTable, Steady, AddsTables;
    NewTableShape(s, i);
    NewTableInv(s, i);
  }

  lemma WriteGrows(s: St, page: Page, frame: Frame, flags: Flags)
    requires Inv(s) && Mappable(page) && DomainCheck(s, page, flags) && s.mem[s.cr3][page / ENTRIES].pr
    ensures Grows(s, MapPage(s, s.cr3, page, frame, flags).0, true)
  {
    WriteMapping(s, page, frame, flags);
    hide Inv;
  }

  lemma MapGrows(s: St, page: Page, frame: Frame, flags: Flags)
    requires Inv(s) && Mappable(page)
    requires MapPage(s, s.cr3, page, frame, flags).0.clean
    ensures s.clean && Grows(s, MapPage(s, s.cr3, page, frame, flags).0, IsShared(page / ENTRIES))
  {
    hide Inv, NewTable, Steady, AddsTables, OtherDirsKept;
    var i := page / ENTRIES;
    GrowsRefl(s, true);
    if DomainCheck(s, page, flags) && !s.mem[s.cr3][i].pr {
      var s0 := NewTable(s, s.cr3, i);
      NewTableGrows(s, i);
      NewTableShape(s, i);
      WriteGrows(s0, page, frame, flags);
      var s1 := MapPage(s, s.cr3, page, frame, flags).0;
      GrowsWeaken(s0, s1, true, IsShared(i));
      GrowsTrans(s, s0, s1, IsShared(i));
    } else if DomainCheck(s, page, flags) {
      WriteGrows(s, page, frame, flags);
      GrowsWeaken(s, MapPage(s, s.cr3, page, frame, flags).0, true, IsShared(i));
    } else {
      GrowsWeaken(s, s, true, IsShared(i));
    }
  }

  /**
   vmm_map gives one page a translation, in the loaded directory and the directories
   that share its table, and succeeds exactly when the domain allows it and the page
   was free. The only directory entry it may touch is the one of a missing table.
   */
  lemma MapExact(s: St, page: Page, frame: Frame, flags: Flags)
    requires Inv(s) && Mappable(page)
    requires MapPage(s, s.cr3, page, frame, flags).0.clean
    ensures var (s1, ok) := MapPage(s, s.cr3, page, frame, flags);
            && (ok <==> DomainCheck(s, page, flags) && Trans(s, s.cr3, page).None?)
            && (ok ==> OnlyPage(s, s1, page, Some(Mapping(frame, flags.writable, flags.user))))
            && (!ok ==> s1 == s)
            && (forall k: Index :: k != page / ENTRIES || s.mem[s.cr3][k].pr ==> s1.mem[s.cr3][k] == s.mem[s.cr3][k])
  {
    hide NewTable, Inv, Steady, AddsTables, Trans;
    GrowsRefl(s, true);
    var i := page / ENTRIES;
    if DomainCheck(s, page, flags) && !s.mem[s.cr3][i].pr {
      var s0 := NewTable(s, s.cr3, i);
      NewTableShape(s, i);
      NewTableInv(s, i);
      NewTableTrans(s, i);
      WriteMapping(s0, page, frame, flags);
      assert forall d: Frame :: IsDir(s, d) ==> IsDir(s0, d) && (Sees(s0, d, page) <==> Sees(s, d, page));
    } else if DomainCheck(s, page, flags) {
      WriteMapping(s, page, frame, flags);
    }
  }

  /** Mapping a page runs into a shortage exactly when it needs a new table and no frame is left for one. */
  lemma MapCleanIff(s: St, page: Page, frame: Frame, flags: Flags)
    ensures MapPage(s, s.cr3, page, frame, flags).0.clean <==>
            s.clean && (!DomainCheck(s, page, flags) || s.mem[s.cr3][page / ENTRIES].pr
                        || Choose(s.marks, PAGE_SIZE) != 0)
  {
    hide Choose, UseMarks, UseHighest, Record;
  }

  /**
   In that case vmm_map notices nothing: it reports success and maps the page through a
   table in frame 0, whose words are lost and which nobody has marked as used.
   */
  lemma MapWithoutFrame(s: St, page: Page, frame: Frame, flags: Flags)
    requires Inv(s) && Mappable(page) && DomainCheck(s, page, flags)
    requires !s.mem[s.cr3][page / ENTRIES].pr && Choose(s.marks, PAGE_SIZE) == 0
    ensures var (s1, ok) := MapPage(s, s.cr3, page, frame, flags);
            var i, j := page / ENTRIES, page % ENTRIES;
            && ok && !s1.clean && s1.marks == s.marks && s1.own == s.own
            && s1.mem[s.cr3][i].pr && s1.mem[s.cr3][i].frame == 0
            && Trans(s1, s.cr3, page) == Some(Mapping(frame, flags.writable, flags.user))
            && (forall k: Index :: k != j ==> s1.mem[0][k] == ZERO)
            && (forall f: Frame, k: Index :: f != 0 && (f != s.cr3 || k != i) ==> s1.mem[f][k] == s.mem[f][k])
  {
    assert s.cr3 != 0;
    hide Choose, Inv;
  }

  /** Removing the page leaves its table with the last page alone. */
  ghost predicate FreesLiveTable(s: St, page: Page) {
    var pde := s.mem[s.cr3][page / ENTRIES];
    pde.pr && s.mem[pde.frame][page % ENTRIES].pr
    && OnlyLast(s.mem[pde.frame][page % ENTRIES := ZERO])
  }

  /**
   vmm_unmap removes the translation of one page and no other, in the directories that
   list its table, if and only if it does not leave the last page of the table alone.
   */
  lemma UnmapExact(s: St, page: Page)
    requires Inv(s) && Mappable(page)
    ensures var s1 := UnmapPage(s, s.cr3, page);
            && (OnlyPage(s, s1, page, None) <==> !FreesLiveTable(s, page))
            && (s.clean ==> (s1.clean <==> !FreesLiveTable(s, page)))
            && (s1.clean ==>
                  && s.clean && Inv(s1) && SameSwitches(s, s1)
                  && s1.own == s.own && s1.marks == s.marks && s1.next == s.next
                  && forall d: Frame :: IsDir(s, d) ==> s1.mem[d] == s.mem[d])
  {
    var i, j := page / ENTRIES, page % ENTRIES;
    var s1 := UnmapPage(s, s.cr3, page);
    if s.mem[s.cr3][i].pr {
      WriteEntry(s, page, ZERO);
      var t := s.mem[s.cr3][i].frame;
      var m := Put(s.mem, t, j, ZERO);
      assert m[t] == s.mem[t][j := ZERO];
      if FreesLiveTable(s, page) {
        var last: Page := i * ENTRIES + 1023;
        assert last / ENTRIES == i && last % ENTRIES == 1023;
        assert m[t][1023].pr;
        assert last != page;
        assert s1.mem[s.cr3][i] == ZERO;
        assert Trans(s1, s.cr3, last).None? && Trans(s, s.cr3, last).Some?;
      }
    }
  }
}
