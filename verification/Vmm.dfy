/**
 The virtual memory manager as it runs: page directories and tables are edited word by
 word, once paging is on only through the address walk and the window. Every method is
 proved to do to the whole state what the functions of the other modules specify.
 */
module Vmm {
  import opened Common
  import opened FirstFit
  import opened Pmm
  import opened Paging
  import opened Space
  import opened Ranges
  import opened Allocation
  import opened Directories
  import opened Boot
  import TaskMemory

  /** A directory the manager can edit safely: in use, naming itself, and none of its tables is the directory itself. */
  ghost predicate Editable(m: Mem, marks: Marks, d: Frame) {
    && d != 0 && marks[d] != UNUSED && SelfMapped(m, d)
    && forall i: Index :: i < 1023 && m[d][i].pr ==> m[d][i].frame != d
  }

  lemma InvEditable(s: St, d: Frame)
    requires Inv(s) && IsDir(s, d)
    ensures Editable(s.mem, s.marks, d) && IsDir(s, s.cr3)
  {
    forall i: Index | i < 1023 && s.mem[d][i].pr
      ensures s.mem[d][i].frame != d
    {
      assert s.own[s.mem[d][i].frame] == RoleOf(d, i);
    }
  }

  /** Unmapping a page in the loaded directory leaves every directory editable, whether or not it meets the guard. */
  lemma UnmapKeepsDirs(s: St, d: Frame, page: Page)
    requires Inv(s) && IsDir(s, d) && Mappable(page)
    ensures var s1 := UnmapPage(s, s.cr3, page); Editable(s1.mem, s1.marks, d) && s1.cr3 == s.cr3 && s1.saved == s.saved
  {
    InvEditable(s, d);
    InvEditable(s, s.cr3);
    TableNoDir(s, d, page / ENTRIES);
    hide Inv, UnmapPage;
    UnmapEditable(s, s.cr3, page);
    UnmapSwitches(s, page);
    if d != s.cr3 {
      UnmapElsewhere(s, d, page);
    }
  }

  lemma UnmapSwitches(s: St, page: Page)
    ensures UnmapPage(s, s.cr3, page).cr3 == s.cr3 && UnmapPage(s, s.cr3, page).saved == s.saved
  {
  }

  lemma UnmapElsewhere(s: St, d: Frame, page: Page)
    requires d != s.cr3
    requires var pde := s.mem[s.cr3][page / ENTRIES]; pde.pr ==> pde.frame != d && pde.frame != s.cr3
    ensures var s1 := UnmapPage(s, s.cr3, page); s1.mem[d] == s.mem[d] && s1.marks[d] == s.marks[d]
  {
    var t := s.mem[s.cr3][page / ENTRIES].frame;
    GiveOne(s.(mem := Put(s.mem, t, page % ENTRIES, ZERO)), t);
    hide Give, OnlyLast;
  }

  lemma TableNoDir(s: St, d: Frame, i: Index)
    requires Inv(s) && IsDir(s, d) && i < 1023
    ensures s.mem[s.cr3][i].pr ==> s.mem[s.cr3][i].frame != d && s.mem[s.cr3][i].frame != s.cr3
  {
    assert s.mem[s.cr3][i].pr ==> s.own[s.mem[s.cr3][i].frame] == RoleOf(s.cr3, i);
  }

  lemma MapEditable(s: St, d: Frame, page: Page, frame: Frame, flags: Flags)
    requires Editable(s.mem, s.marks, d) && (Mappable(page) || s.check)
    ensures var s1 := MapPage(s, d, page, frame, flags).0;
            Editable(s1.mem, s1.marks, d) && s1.check == s.check && s1.cr3 == s.cr3
  {
    var i := page / ENTRIES;
    if DomainCheck(s, page, flags) && !s.mem[d][i].pr {
      NewTableEditable(s, d, i);
    }
  }

  /** A new table is never the directory, even when no frame was left for it. */
  lemma NewTableEditable(s: St, d: Frame, i: Index)
    requires Editable(s.mem, s.marks, d) && i < 1023
    ensures var s1 := NewTable(s, d, i);
            && Editable(s1.mem, s1.marks, d) && SelfMapped(s1.mem, d) && s1.check == s.check && s1.cr3 == s.cr3
            && s1.mem[d][i].frame != d && s1.mem[d][i].pr
            && s1.mem[d][i].frame == Choose(s.marks, PAGE_SIZE)
  {
    var f := Choose(s.marks, PAGE_SIZE);
    if f != 0 {
      AllocExact(s.marks, PAGE_SIZE, KERNEL, f);
      AllocExact(s.marks, PAGE_SIZE, KERNEL, d);
    }
  }

  lemma UnmapEditable(s: St, d: Frame, page: Page)
    requires Editable(s.mem, s.marks, d) && Mappable(page)
    ensures var s1 := UnmapPage(s, d, page);
            Editable(s1.mem, s1.marks, d) && SelfMapped(s1.mem, d) && s1.check == s.check && s1.cr3 == s.cr3
  {
    var i := page / ENTRIES;
    if s.mem[d][i].pr {
      var t := s.mem[d][i].frame;
      GiveOne(s.(mem := Put(s.mem, t, page % ENTRIES, ZERO)), t);
    }
  }

  class MemoryManager {
    const pmm: PhysicalMemory
    var mem: Mem                 // physical memory
    var cr3: Frame               // control register 3
    var paging: bool             // bit 31 of control register 0
    var pageDirectory: nat       // address of the directory being edited
    var oldDirectory: nat        // directory to return to after a modification, or 0
    var domainCheckEnabled: bool
    ghost var own: map<Frame, Role>
    ghost var next: nat
    ghost var clean: bool

    /** The state; before paging is on, the directory being edited counts as the loaded one. */
    ghost function State(): St
      requires pmm.Valid()
      reads this, pmm, pmm.bitmap
    {
      St(mem, pmm.Marks(), pmm.highestKernelPage, DirFrame(), domainCheckEnabled,
         oldDirectory / PAGE_SIZE % PAGE_NUMBER, false, own, next, clean)
    }

    /** The frame of the directory being edited. */
    function DirFrame(): Frame
      reads `paging, `cr3, `pageDirectory
    {
      if paging then cr3 else pageDirectory / PAGE_SIZE % PAGE_NUMBER
    }

    /** The directory being edited and its tables can be addressed. */
    ghost predicate Reachable()
      reads `mem, `paging, `cr3, `pageDirectory
    {
      && (if paging then pageDirectory == PAGEDIR else pageDirectory < PAGEDIR && pageDirectory % PAGE_SIZE == 0)
      && SelfMapped(mem, DirFrame())
    }

    ghost predicate Ready()
      reads `mem, `paging, `cr3, `pageDirectory, pmm, pmm.bitmap
    {
      pmm.Valid() && Reachable() && Editable(mem, pmm.Marks(), DirFrame())
    }

    // ----- memory accesses

    /** Where an access to an address ends up, or None for a page fault. */
    function Target(addr: nat): Option<nat>
      reads `mem, `paging, `cr3
    {
      if addr >= WORD then None else if paging then Walk(mem, cr3, addr) else Some(addr)
    }

    /** The frame and the word in it that an access reaches. */
    function Cell(addr: nat): Option<(Frame, Index)>
      reads `mem, `paging, `cr3
    {
      var a := Target(addr);
      if a.None? || a.value >= WORD then None else Some((a.value / PAGE_SIZE, a.value % PAGE_SIZE / 4))
    }

    method LoadWord(addr: nat) returns (e: Entry)
      requires Cell(addr).Some?
      ensures e == mem[Cell(addr).value.0][Cell(addr).value.1]
    {
      var c := Cell(addr).value;
      e := mem[c.0][c.1];
    }

    method StoreWord(addr: nat, e: Entry)
      requires Cell(addr).Some?
      modifies this`mem
      ensures var c := old(Cell(addr)).value; mem == Put(old(mem), c.0, c.1, e)
    {
      var c := Cell(addr).value;
      mem := Put(mem, c.0, c.1, e);
    }

    /** Word i of the directory being edited is at its address plus 4i. */
    lemma DirWord(i: Index)
      requires Reachable()
      ensures Cell(pageDirectory + 4 * i) == Some((DirFrame(), i))
    {
      if paging {
        WindowReachesTables(mem, cr3, i, i);
      } else {
        assert pageDirectory == DirFrame() * PAGE_SIZE;
      }
    }

    /** vmm_get_page_table: in the window while the loaded directory is edited, else at its physical address. */
    function GetPageTable(pde: Entry, i: Index): (addr: nat)
      ensures addr < WORD
      reads `pageDirectory
    {
      if pageDirectory == PAGEDIR then WINDOW + i * PAGE_SIZE else pde.frame * PAGE_SIZE
    }

    lemma TableWord(i: Index, j: Index)
      requires Reachable() && mem[DirFrame()][i].pr
      ensures Cell(GetPageTable(mem[DirFrame()][i], i) + 4 * j) == Some((mem[DirFrame()][i].frame, j))
    {
      if paging {
        WindowReachesTables(mem, cr3, i, j);
      }
    }
  
    /** Before vmm_init: paging is off and there is no directory yet. */
    constructor (memory: PhysicalMemory, m: Mem)
      requires memory.Valid()
      ensures pmm == memory && mem == m && !paging && pageDirectory == 0 && oldDirectory == 0
      ensures !domainCheckEnabled && own == map[] && next == 0 && clean
    {
      pmm := memory;
      mem := m;
      cr3 := 0;
      paging := false;
      pageDirectory := 0;
      oldDirectory := 0;
      domainCheckEnabled := false;
      own := map[];
      next := 0;
      clean := true;
    }

    // ----- one page

    /** pmm_alloc, keeping the books. */
    method TakeFrames(len: nat, flag: Flag, ghost role: Role) returns (addr: nat)
      requires pmm.Valid() && len < WORD
      modifies this`own, this`next, this`clean, pmm, pmm.bitmap
      ensures pmm.Valid() && State() == Take(old(State()), len, flag, role).0
      ensures addr == Take(old(State()), len, flag, role).1 * PAGE_SIZE
    {
      hide MarksOf, Choose, UseMarks, UseHighest, Record, PageOf;
      ghost var marks := pmm.Marks();
      addr := pmm.Alloc(len, flag);
      if addr == 0 {
        clean := clean && len == 0;
      } else {
        ChooseFits(marks, len);
        own := Record(own, PageOf(addr, 0), PageOf(addr, len - 1), role);
        next := next + 1;
      }
    }

    /** pmm_free, keeping the books. */
    method GiveFrames(addr: nat, len: nat)
      requires pmm.Valid() && addr < WORD && len < WORD
      modifies this`own, pmm, pmm.bitmap
      ensures pmm.Valid() && State() == Give(old(State()), addr, len)
    {
      hide MarksOf, Mark, Drop, PageOf;
      pmm.FreeFrames(addr, len);
      if len != 0 {
        own := Drop(own, PageOf(addr, 0), PageOf(addr, len - 1));
      }
    }

    /** memset of a page table to zero, word by word through its address. */
    method ClearTable(i: Index)
      requires Reachable() && mem[DirFrame()][i].pr && mem[DirFrame()][i].frame != DirFrame()
      modifies this`mem
      ensures mem == ZeroFrame(old(mem), old(mem)[DirFrame()][i].frame)
    {
      var tab := GetPageTable(mem[DirFrame()][i], i);
      ghost var f := mem[DirFrame()][i].frame;
      var k := 0;
      while k < ENTRIES
        invariant 0 <= k <= ENTRIES
        invariant mem == old(mem)[f := mem[f]]
        invariant forall j: Index :: j < k ==> mem[f][j] == ZERO
        invariant mem[DirFrame()] == old(mem)[DirFrame()]
      {
        TableWord(i, k);
        StoreWord(tab + 4 * k, ZERO);
        k := k + 1;
      }
      assert mem[f] == seq(1024, _ => ZERO);
    }
  
    /** The branch of vmm_map that creates a missing table; without a free frame it uses frame 0. */
    method CreateTable(i: Index)
      requires Ready() && i < 1023 && !mem[DirFrame()][i].pr
      modifies this`mem, this`own, this`next, this`clean, pmm, pmm.bitmap
      ensures Ready() && State() == NewTable(old(State()), DirFrame(), i)
      ensures mem[DirFrame()][i].pr && mem[DirFrame()][i].frame != DirFrame()
    {
      hide Choose, NewTable, Cell, PageOf, MarksOf, Take, GetPageTable, Target, Editable, RoleOf;
      ghost var s, d := State(), DirFrame();
      NewTableEditable(s, d, i);
      DirWord(i);
      var pde := LoadWord(pageDirectory + 4 * i);
      pde := pde.(pr := true, rw := true, user := true);
      StoreWord(pageDirectory + 4 * i, pde);
      assert mem[d][1023] == s.mem[d][1023];
      TakeElsewhere(s, mem, PAGE_SIZE, KERNEL, RoleOf(d, i));
      assert State() == s.(mem := mem);
      var a := TakeFrames(PAGE_SIZE, KERNEL, RoleOf(d, i));
      PageOfFrame(a, Take(s, PAGE_SIZE, KERNEL, RoleOf(d, i)).1);
      pde := pde.(frame := PageOf(a, 0));
      DirWord(i);
      StoreWord(pageDirectory + 4 * i, pde);
      PutTwice(s.mem, d, i, pde.(frame := s.mem[d][i].frame), pde);
      NewTableIs(s, d, i, pde);
      ClearTable(i);
    }

    lemma TakeElsewhere(s: St, m: Mem, len: nat, flag: Flag, role: Role)
      ensures Take(s.(mem := m), len, flag, role) == (Take(s, len, flag, role).0.(mem := m), Take(s, len, flag, role).1)
    {
    }

    lemma PutTwice(m: Mem, f: Frame, j: Index, e: Entry, e': Entry)
      ensures Put(Put(m, f, j, e), f, j, e') == Put(m, f, j, e')
    {
      assert m[f][j := e][j := e'] == m[f][j := e'];
    }

    lemma PageOfFrame(a: nat, f: Frame)
      requires a == f * PAGE_SIZE
      ensures PageOf(a, 0) == f
    {
    }

    lemma NewTableIs(s: St, d: Frame, i: Index, pde: Entry)
      requires i < 1023 && pde == s.mem[d][i].(pr := true, rw := true, user := true,
                                               frame := Take(s, PAGE_SIZE, KERNEL, RoleOf(d, i)).1)
      ensures NewTable(s, d, i) ==
              Take(s, PAGE_SIZE, KERNEL, RoleOf(d, i)).0.(mem := ZeroFrame(Put(s.mem, d, i, pde), pde.frame))
      ensures NewTable(s, d, i).mem[d][i].frame == pde.frame || pde.frame == d
    {
    }

    method Map(vaddr: nat, paddr: nat, flags: Flags) returns (ok: bool)
      requires Ready() && vaddr < WORD && paddr < WORD
      requires domainCheckEnabled || Mappable(vaddr / PAGE_SIZE)
      modifies this`mem, this`own, this`next, this`clean, pmm, pmm.bitmap
      ensures pmm.Valid() && Ready()
      ensures (State(), ok) == MapPage(old(State()), DirFrame(), vaddr / PAGE_SIZE, paddr / PAGE_SIZE, flags)
    {
      hide MapPage, NewTable, Cell, GetPageTable, Editable, MarksOf, Target;
      ghost var s, d := State(), DirFrame();
      MapEditable(s, d, vaddr / PAGE_SIZE, paddr / PAGE_SIZE, flags);
      if domainCheckEnabled && !InDomain(vaddr / PAGE_SIZE, flags.user) {
        MapRefused(s, d, vaddr / PAGE_SIZE, paddr / PAGE_SIZE, flags);
        return false;
      }
      var i, j := vaddr / PAGE_SIZE / ENTRIES, vaddr / PAGE_SIZE % ENTRIES;
      DirWord(i);
      var pde := LoadWord(pageDirectory + 4 * i);
      if !pde.pr {
        CreateTable(i);
      } else {
        EditableTables(mem, pmm.Marks(), d, i);
      }
      MapAllowed(s, State(), d, vaddr / PAGE_SIZE, PageOf(paddr, 0), flags);
      ok := WriteEntry(i, j, PageOf(paddr, 0), flags);
    }

    lemma MapRefused(s: St, d: Frame, page: Page, frame: Frame, flags: Flags)
      requires !DomainCheck(s, page, flags)
      ensures MapPage(s, d, page, frame, flags) == (s, false)
    {
    }

    lemma MapAllowed(s: St, s0: St, d: Frame, page: Page, frame: Frame, flags: Flags)
      requires DomainCheck(s, page, flags)
      requires s0 == if s.mem[d][page / ENTRIES].pr then s else NewTable(s, d, page / ENTRIES)
      ensures var t := s0.mem[d][page / ENTRIES].frame;
              var pte := s0.mem[t][page % ENTRIES];
              MapPage(s, d, page, frame, flags) ==
              if pte.pr then (s0, false)
              else (s0.(mem := Put(s0.mem, t, page % ENTRIES,
                                   pte.(pr := true, rw := flags.writable, user := flags.user, frame := frame))), true)
    {
    }

    lemma EditableTables(m: Mem, marks: Marks, d: Frame, i: Index)
      requires Editable(m, marks, d) && i < 1023 && m[d][i].pr
      ensures m[d][i].frame != d
    {
    }

    /** The rest of vmm_map, once the table is there. */
    method WriteEntry(i: Index, j: Index, frame: Frame, flags: Flags) returns (ok: bool)
      requires pmm.Valid() && Reachable() && mem[DirFrame()][i].pr && mem[DirFrame()][i].frame != DirFrame()
      modifies this`mem
      ensures var t := old(mem)[DirFrame()][i].frame;
              var pte := old(mem)[t][j];
              && ok == !pte.pr
              && mem == if pte.pr then old(mem)
                        else Put(old(mem), t, j, pte.(pr := true, rw := flags.writable, user := flags.user,
                                                      frame := frame))
      ensures Reachable()
    {
      hide Cell, GetPageTable;
      DirWord(i);
      var pde := LoadWord(pageDirectory + 4 * i);
      TableWord(i, j);
      var tab := GetPageTable(pde, i) + 4 * j;
      var pte := LoadWord(tab);
      if pte.pr {
        return false;
      }
      StoreWord(tab, pte.(pr := true, rw := flags.writable, user := flags.user, frame := frame));
      return true;
    }

    /** vmm_destroy_page_table, on whichever directory x the variable page_directory addresses. */
    method DestroyPageTable(i: Index, ghost x: Frame)
      requires pmm.Valid() && Cell(pageDirectory + 4 * i) == Some((x, i))
      modifies this`mem, this`own, pmm, pmm.bitmap
      ensures pmm.Valid() && State() == DropTable(old(State()), x, i)
      ensures mem == Put(old(mem), x, i, ZERO)
    {
      hide Cell, MarksOf;
      var pde := LoadWord(pageDirectory + 4 * i);
      GiveFrames(pde.frame * PAGE_SIZE, PAGE_SIZE);
      StoreWord(pageDirectory + 4 * i, ZERO);
    }

    method Unmap(vaddr: nat)
      requires Ready() && vaddr < WORD && Mappable(vaddr / PAGE_SIZE)
      modifies this`mem, this`own, this`clean, pmm, pmm.bitmap
      ensures pmm.Valid() && Ready()
      ensures State() == UnmapPage(old(State()), DirFrame(), vaddr / PAGE_SIZE)
    {
      hide Cell, MarksOf, GetPageTable, Target, DropTable, OnlyLast, Editable, UnmapPage;
      UnmapEditable(State(), DirFrame(), vaddr / PAGE_SIZE);
      UnmapCases(State(), DirFrame(), vaddr / PAGE_SIZE);
      var i, j := vaddr / PAGE_SIZE / ENTRIES, vaddr / PAGE_SIZE % ENTRIES;
      DirWord(i);
      var pde := LoadWord(pageDirectory + 4 * i);
      if !pde.pr {
        return;
      }
      EditableTables(mem, pmm.Marks(), DirFrame(), i);
      var tab := GetPageTable(pde, i);
      TableWord(i, j);
      var pte := LoadWord(tab + 4 * j);
      if !pte.pr {
        return;
      }
      StoreWord(tab + 4 * j, ZERO);
      FreeTable(i);
    }

    /** The end of vmm_unmap: the table is freed if the search for a present entry stops at the last one. */
    method FreeTable(i: Index)
      requires pmm.Valid() && Reachable() && mem[DirFrame()][i].pr
      modifies this`mem, this`own, this`clean, pmm, pmm.bitmap
      ensures pmm.Valid()
      ensures State() == if OnlyLast(old(mem[mem[DirFrame()][i].frame]))
                         then DropTable(old(State()), DirFrame(), i).(clean := false) else old(State())
    {
      hide Cell, MarksOf, DropTable, OnlyLast;
      var k := FirstPresent(i);
      if k == ENTRIES - 1 {
        DirWord(i);
        DestroyPageTable(i, DirFrame());
        clean := false;
      }
    }

    lemma UnmapCases(s: St, d: Frame, page: Page)
      ensures var (i, j) := (page / ENTRIES, page % ENTRIES);
              var t := s.mem[d][i].frame;
              var s1 := s.(mem := Put(s.mem, t, j, ZERO));
              UnmapPage(s, d, page) ==
              if !s.mem[d][i].pr || !s.mem[t][j].pr then s
              else if OnlyLast(s1.mem[t]) then DropTable(s1, d, i).(clean := false) else s1
    {
    }

    /** The search of vmm_unmap for an entry still present; 1024 if there is none. */
    method FirstPresent(i: Index) returns (k: nat)
      requires Reachable() && mem[DirFrame()][i].pr
      ensures k <= ENTRIES
      ensures forall j: Index :: j < k ==> !mem[mem[DirFrame()][i].frame][j].pr
      ensures k < ENTRIES ==> mem[mem[DirFrame()][i].frame][k].pr
      ensures k == ENTRIES - 1 <==> OnlyLast(mem[mem[DirFrame()][i].frame])
    {
      var tab := GetPageTable(mem[DirFrame()][i], i);
      k := 0;
      while k < ENTRIES
        invariant 0 <= k <= ENTRIES
        invariant forall j: Index :: j < k ==> !mem[mem[DirFrame()][i].frame][j].pr
      {
        TableWord(i, k);
        var pte := LoadWord(tab + 4 * k);
        if pte.pr {
          return;
        }
        k := k + 1;
      }
    }

    // ----- translations and ranges

    method GetPhysicalAddress(vaddr: nat) returns (paddr: nat)
      requires Reachable() && vaddr < WORD
      ensures paddr == if !paging then vaddr else
                       var a := Walk(mem, cr3, vaddr); if a.None? then 0 else a.value
    {
      if !paging {
        return vaddr;
      }
      var i, j := vaddr / PAGE_SIZE / ENTRIES, vaddr / PAGE_SIZE % ENTRIES;
      DirWord(i);
      var pde := LoadWord(pageDirectory + 4 * i);
      if !pde.pr {
        return 0;
      }
      TableWord(i, j);
      var pte := LoadWord(GetPageTable(pde, i) + 4 * j);
      if !pte.pr {
        return 0;
      }
      return pte.frame * PAGE_SIZE + vaddr % PAGE_SIZE;
    }

    /** First-fit search for unmapped pages in a domain; returns an address, 0 if there are none. */
    method FindFree(len: nat, user: bool) returns (vaddr: nat)
      requires Ready() && paging && len < WORD
      ensures vaddr == FindPages(mem, cr3, len, user) * PAGE_SIZE
    {
      if len == 0 {
        return 0;
      }
      var pages, freePages := PagesOf(len), 0;
      hide Searched, Phys, Ready, MarksOf, FindPages, PagesOf, Walk, DomainStart, DomainEnd, InDomain;
      SearchStart(mem, cr3, len, user);
      var i := DomainStart(user);
      while i <= DomainEnd(user)
        invariant DomainStart(user) <= i <= DomainEnd(user) + 1
        invariant Searched(mem, cr3, len, user, i, freePages)
      {
        var paddr := PhysicalPage(i);
        BetweenEnds(i, user);
        SearchStep(mem, cr3, len, user, i, freePages);
        if paddr == 0 {
          freePages := freePages + 1;
        } else {
          freePages := 0;
        }
        if freePages >= pages {
          return (i - freePages + 1) * PAGE_SIZE;
        }
        i := i + 1;
      }
      SearchEnd(mem, cr3, len, user, freePages);
      return 0;
    }

    lemma BetweenEnds(i: nat, user: bool)
      ensures DomainStart(user) <= i <= DomainEnd(user) ==> InDomain(i, user)
    {
    }

    /** The search has passed all pages of the domain before i. */
    ghost predicate Searched(m: Mem, d: Frame, len: nat, user: bool, i: nat, count: nat) {
      DomainStart(user) <= i && Scanned(Unmapped(m, d, user), i - DomainStart(user), PagesOf(len), count)
    }

    lemma SearchStart(m: Mem, d: Frame, len: nat, user: bool)
      requires len > 0
      ensures Searched(m, d, len, user, DomainStart(user), 0) && PagesOf(len) > 0
    {
      ScanStart(Unmapped(m, d, user), PagesOf(len));
    }

    lemma SearchStep(m: Mem, d: Frame, len: nat, user: bool, i: nat, count: nat)
      requires len > 0 && InDomain(i, user) && Searched(m, d, len, user, i, count)
      ensures Phys(m, d, i) != 0 ==> Searched(m, d, len, user, i + 1, 0)
      ensures Phys(m, d, i) == 0 && count + 1 < PagesOf(len) ==> Searched(m, d, len, user, i + 1, count + 1)
      ensures Phys(m, d, i) == 0 && count + 1 >= PagesOf(len) ==> count <= i && FindPages(m, d, len, user) == i - count
    {
      assert DomainStart(user) + (i - DomainStart(user)) == i;
      hide Phys, IsRun;
      ScanStep(Unmapped(m, d, user), i - DomainStart(user), PagesOf(len), count);
    }

    lemma SearchEnd(m: Mem, d: Frame, len: nat, user: bool, count: nat)
      requires len > 0 && Searched(m, d, len, user, DomainEnd(user) + 1, count)
      ensures FindPages(m, d, len, user) == 0
    {
      ScanEnd(Unmapped(m, d, user), PagesOf(len), count);
    }

    method PhysicalPage(page: Page) returns (paddr: nat)
      requires Ready() && paging
      ensures paddr == Phys(mem, cr3, page)
    {
      hide Walk;
      paddr := GetPhysicalAddress(page * PAGE_SIZE);
    }

    method MapRange(vaddr: nat, paddr: nat, len: nat, flags: Flags)
      requires Ready() && Fits(vaddr, len) && paddr < WORD
      requires len > 0 ==> paddr / PAGE_SIZE + Spanned(vaddr, len) <= PAGE_NUMBER
      requires domainCheckEnabled || Fits(vaddr, len + PAGE_SIZE * ENTRIES)
      modifies this`mem, this`own, this`next, this`clean, pmm, pmm.bitmap
      ensures Ready()
      ensures State() == MapBytes(old(State()), DirFrame(), vaddr, paddr, len, flags)
    {
      hide Reachable, Editable, MarksOf, Ranges.MapRange;
      if len == 0 {
        return;
      }
      if domainCheckEnabled && !InDomain(vaddr / PAGE_SIZE, flags.user) {
        clean := false;
        return;
      }
      MapPages(vaddr / PAGE_SIZE, paddr / PAGE_SIZE, (vaddr + len - 1) / PAGE_SIZE - vaddr / PAGE_SIZE + 1, flags);
    }

    method MapPages(virtualPage: nat, physicalPage: nat, pages: nat, flags: Flags)
      requires pmm.Valid() && Ready() && virtualPage + pages <= PAGE_NUMBER && physicalPage + pages <= PAGE_NUMBER
      requires domainCheckEnabled || virtualPage + pages <= 1023 * ENTRIES
      modifies this`mem, this`own, this`next, this`clean, pmm, pmm.bitmap
      ensures Ready()
      ensures State() == Ranges.MapRange(old(State()), DirFrame(), virtualPage, physicalPage, pages, flags)
    {
      hide MapPage, MarksOf, Editable, Ready;
      var i := 0;
      while i < pages
        invariant 0 <= i <= pages && Ready() && pmm.Valid()
        invariant State() == Ranges.MapRange(old(State()), DirFrame(), virtualPage, physicalPage, i, flags)
      {
        var ok := Map((virtualPage + i) * PAGE_SIZE, (physicalPage + i) * PAGE_SIZE, flags);
        clean := clean && ok;
        i := i + 1;
      }
    }

    method UnmapRange(vaddr: nat, len: nat)
      requires Ready() && Fits(vaddr, len + PAGE_SIZE * ENTRIES)
      modifies this`mem, this`own, this`clean, pmm, pmm.bitmap
      ensures Ready()
      ensures State() == UnmapBytes(old(State()), DirFrame(), vaddr, len)
    {
      if len == 0 {
        return;
      }
      UnmapPages(vaddr / PAGE_SIZE, (vaddr + len - 1) / PAGE_SIZE - vaddr / PAGE_SIZE + 1);
    }

    method UnmapPages(virtualPage: nat, pages: nat)
      requires pmm.Valid() && Ready() && virtualPage + pages <= 1023 * ENTRIES
      modifies this`mem, this`own, this`clean, pmm, pmm.bitmap
      ensures Ready()
      ensures State() == Ranges.UnmapRange(old(State()), DirFrame(), virtualPage, pages)
    {
      hide UnmapPage, MarksOf, Editable, Ready;
      var i := 0;
      while i < pages
        invariant 0 <= i <= pages && Ready() && pmm.Valid()
        invariant State() == Ranges.UnmapRange(old(State()), DirFrame(), virtualPage, i)
      {
        Unmap((virtualPage + i) * PAGE_SIZE);
        i := i + 1;
      }
    }
  
    // ----- allocating and freeing

    lemma ChooseFits(marks: Marks, len: nat)
      requires Choose(marks, len) != 0
      ensures len > 0 && Choose(marks, len) + PagesOf(len) <= PAGE_NUMBER
    {
    }

    method Alloc(len: nat, flags: Flags) returns (vaddr: nat)
      requires Ready() && paging && len < WORD
      modifies this`mem, this`own, this`next, this`clean, pmm, pmm.bitmap
      ensures Ready()
      ensures (State(), vaddr) == Ranges.Alloc(old(State()), len, flags)
    {
      hide Editable, MarksOf, MapBytes, Choose, FindPages, UseMarks, UseHighest, Record, PagesOf;
      ghost var s, f := State(), Choose(pmm.Marks(), len);
      TakeEditable(s, len, PmmFlag(flags), Data(next, flags.user));
      var paddr := TakeFrames(len, PmmFlag(flags), Data(next, flags.user));
      vaddr := FindFree(len, flags.user);
      if paddr == 0 || vaddr == 0 {
        clean := clean && (len == 0 || vaddr != 0);
        return 0;
      }
      ChooseFits(s.marks, len);
      SpannedPages(vaddr / PAGE_SIZE, len);
      assert vaddr / PAGE_SIZE * PAGE_SIZE == vaddr && paddr == f * PAGE_SIZE;
      MapRange(vaddr, paddr, len, flags);
    }

    lemma TakeEditable(s: St, len: nat, flag: Flag, role: Role)
      requires Editable(s.mem, s.marks, s.cr3) && flag != UNUSED
      ensures var s1 := Take(s, len, flag, role).0; Editable(s1.mem, s1.marks, s1.cr3)
    {
    }

    /** vmm_free would give back the frame of the loaded directory itself. */
    ghost predicate GivesDirectory(vaddr: nat, len: nat)
      requires vaddr < WORD
      reads `mem, `cr3
    {
      var paddr := Walk(mem, cr3, vaddr);
      var first := if paddr.None? then 0 else paddr.value;
      len > 0 && PageOf(first, 0) <= cr3 <= PageOf(first, len - 1)
    }

    method Free(vaddr: nat, len: nat)
      requires Ready() && paging && vaddr < WORD && len < WORD
      requires len > 0 ==> Fits(vaddr, len + PAGE_SIZE * ENTRIES)
      requires !GivesDirectory(vaddr, len)
      modifies this`mem, this`own, this`clean, pmm, pmm.bitmap
      ensures Ready()
      ensures State() == FreeRange(old(State()), vaddr, len)
    {
      if len == 0 {
        return;
      }
      hide Editable, MarksOf, UnmapBytes, UseMarks, Walk, PageOf;
      var paddr := GetPhysicalAddress(vaddr);
      WalkFits(mem, cr3, vaddr);
      UnmapRange(vaddr, len);
      GiveEditable(State(), paddr, len);
      GiveFrames(paddr, len);
    }

    lemma WalkFits(m: Mem, d: Frame, va: nat)
      requires va < WORD
      ensures Walk(m, d, va).Some? ==> Walk(m, d, va).value < WORD
    {
    }

    /** The directory stays editable when other frames are given back. */
    lemma GiveEditable(s: St, addr: nat, len: nat)
      requires Editable(s.mem, s.marks, s.cr3) && len > 0 && !(PageOf(addr, 0) <= s.cr3 <= PageOf(addr, len - 1))
      ensures var s1 := Give(s, addr, len); Editable(s1.mem, s1.marks, s1.cr3)
    {
    }

    /** Memory mapped to a run of allocated frames can be freed without giving the directory away. */
    lemma BlockFreeable(vaddr: nat, len: nat, base: Frame)
      requires pmm.Valid() && paging && Inv(State()) && len < WORD && vaddr < WORD
      requires len > 0 ==> vaddr % PAGE_SIZE == 0 && base != 0
                           && Block(State(), cr3, vaddr / PAGE_SIZE, base, PagesOf(len))
      ensures len > 0 ==> Fits(vaddr, len + PAGE_SIZE * ENTRIES)
      ensures !GivesDirectory(vaddr, len)
    {
      GrowsRefl(State(), true);
      hide Inv, MarksOf, PageOf, Walk, Trans, PagesOf, Grows;
      if len > 0 {
        LastPage(base, len);
        SpannedPages(vaddr / PAGE_SIZE, len);
        WalkFromTrans(State(), cr3, vaddr);
      }
    }

    // ----- directories

    /** vmm_map_physical_memory of one frame, for the kernel. */
    method MapPhysicalFrame(f: Frame) returns (vaddr: nat)
      requires pmm.Valid() && (paging ==> Ready())
      modifies this`mem, this`own, this`next, this`clean, pmm, pmm.bitmap
      ensures pmm.Valid() && (paging ==> Ready())
      ensures !paging ==> vaddr == f * PAGE_SIZE && State() == old(State())
      ensures paging ==> (State(), vaddr / PAGE_SIZE) == ShowFrame(old(State()), f) && vaddr % PAGE_SIZE == 0
    {
      if !paging {
        return f * PAGE_SIZE;
      }
      hide Ready, Reachable, MarksOf, MapBytes, FindPages, PagesOf;
      ghost var page := FindPages(mem, cr3, PAGE_SIZE, false);
      vaddr := FindFree(PAGE_SIZE, false);
      if vaddr == 0 {
        clean := false;
        return 0;
      }
      OnePageArithmetic(page, f);
      MapRange(vaddr, f * PAGE_SIZE, PAGE_SIZE, KERNEL_FLAGS);
    }

    lemma OnePageArithmetic(page: Page, f: Frame)
      ensures Spanned(page * PAGE_SIZE, PAGE_SIZE) == 1 == PagesOf(PAGE_SIZE)
      ensures f * PAGE_SIZE < WORD && f * PAGE_SIZE / PAGE_SIZE == f && page * PAGE_SIZE / PAGE_SIZE == page
      ensures Fits(page * PAGE_SIZE, PAGE_SIZE)
      ensures page <= USER_END ==> Fits(page * PAGE_SIZE, PAGE_SIZE + PAGE_SIZE * ENTRIES)
    {
    }

    /** vmm_unmap_physical_memory of one frame. */
    method UnmapPhysicalFrame(vaddr: nat)
      requires pmm.Valid() && vaddr % PAGE_SIZE == 0
      requires paging ==> Ready() && Fits(vaddr, PAGE_SIZE + PAGE_SIZE * ENTRIES)
      modifies this`mem, this`own, this`clean, pmm, pmm.bitmap
      ensures pmm.Valid() && (paging ==> Ready())
      ensures !paging ==> State() == old(State())
      ensures paging ==> State() == HideFrame(old(State()), vaddr / PAGE_SIZE)
    {
      if paging {
        UnmapRange(vaddr, PAGE_SIZE);
      }
    }

    /** Every word of frame f can be addressed from address a on, and this survives changes of frame f. */
    ghost predicate Shown(a: nat, f: Frame)
      reads `mem, `paging, `cr3
    {
      if paging then
        && a % PAGE_SIZE == 0 && a < WORD
        && var pte := Lookup(mem, cr3, a / PAGE_SIZE);
           pte.Some? && pte.value.frame == f && mem[cr3][a / PAGE_SIZE / ENTRIES].frame != f
      else a == f * PAGE_SIZE
    }

    lemma ShownCell(a: nat, f: Frame, j: Index)
      requires Shown(a, f)
      ensures Cell(a + 4 * j) == Some((f, j))
    {
      WordInPage(a, j);
    }

    lemma WordInPage(a: nat, j: Index)
      requires a % PAGE_SIZE == 0
      ensures (a + 4 * j) / PAGE_SIZE == a / PAGE_SIZE && (a + 4 * j) % PAGE_SIZE == 4 * j
    {
    }

    /** After ShowFrame the frame is shown at the page found. */
    lemma ShownAfter(s: St, f: Frame)
      requires Inv(s) && ShowFrame(s, f).0.clean && f in s.own && (s.own[f].Directory? || s.own[f].Data?)
      ensures var (s1, page) := ShowFrame(s, f);
              && Inv(s1) && s1.cr3 == s.cr3 && page != 0 && Mappable(page)
              && var pte := Lookup(s1.mem, s.cr3, page);
                 pte.Some? && pte.value.frame == f && s1.mem[s.cr3][page / ENTRIES].frame != f
    {
      var (s1, page) := ShowFrame(s, f);
      ShowExact(s, f);
      GrowsRefl(s, true);
      assert Trans(s1, s.cr3, page).Some?;
      assert s1.own[s1.mem[s.cr3][page / ENTRIES].frame] == RoleOf(s.cr3, page / ENTRIES);
    }
  
    /** The loop of vmm_refresh_page_directory's memcpy: the kernel entries, one after the other. */
    method CopyEntries(v: nat, d: Frame)
      requires paging && Reachable() && Shown(v, d)
      modifies this`mem
      ensures mem == CopyShared(old(mem), cr3, d)
      ensures d != cr3 ==> mem[cr3] == old(mem)[cr3]
    {
      hide Cell;
      var k := KERNEL_START / ENTRIES;
      while k <= KERNEL_END / ENTRIES
        invariant 1 <= k <= 256 && Reachable() && Shown(v, d)
        invariant mem == old(mem)[d := mem[d]]
        invariant forall j: Index :: mem[d][j] == if 1 <= j < k then old(mem)[cr3][j] else old(mem)[d][j]
      {
        DirWord(k);
        ShownCell(v, d, k);
        var e := LoadWord(pageDirectory + 4 * k);
        ghost var before := mem;
        StoreWord(v + 4 * k, e);
        assert e == old(mem)[cr3][k];
        ShownKept(before, mem, v, d);
        k := k + 1;
      }
      assert mem[d] == CopyShared(old(mem), cr3, d)[d];
    }

    lemma ShownKept(before: Mem, after: Mem, v: nat, d: Frame)
      requires paging && v < WORD && after == before[d := after[d]] && after[cr3] == before[cr3] && after == mem
      requires var pte := Lookup(before, cr3, v / PAGE_SIZE);
               v % PAGE_SIZE == 0 && pte.Some? && pte.value.frame == d
               && before[cr3][v / PAGE_SIZE / ENTRIES].frame != d
      ensures Shown(v, d)
    {
    }
  
    method RefreshDirectory(d: Frame)
      requires Ready() && paging && Inv(State()) && IsDir(State(), d) && ShowFrame(State(), d).0.clean
      modifies this`mem, this`own, this`next, this`clean, pmm, pmm.bitmap
      ensures Ready() && State() == Refresh(old(State()), d)
    {
      hide Inv, MarksOf, ShowFrame, HideFrame, CopyShared, Editable;
      ghost var s := State();
      ghost var (s1, page) := ShowFrame(s, d);
      ShownAfter(s, d);
      RefreshEditable(s, d);
      var v := MapPhysicalFrame(d);
      CopyEntries(v, d);
      assert State() == s1.(mem := CopyShared(s1.mem, s1.cr3, d));
      UnmapPhysicalFrame(v);
    }

    lemma RefreshEditable(s: St, d: Frame)
      requires Inv(s) && IsDir(s, d) && ShowFrame(s, d).0.clean
      ensures var (s1, page) := ShowFrame(s, d);
              var s2 := s1.(mem := CopyShared(s1.mem, s1.cr3, d));
              && Editable(s2.mem, s2.marks, s2.cr3) && SelfMapped(s2.mem, s2.cr3) && s1.cr3 == s.cr3
              && InDomain(page, false)
    {
      hide Inv, CopyShared, ShowFrame, SelfMapped;
      var (s1, page) := ShowFrame(s, d);
      ShowExact(s, d);
      CopyInv(s1, d);
      InvEditable(s1.(mem := CopyShared(s1.mem, s1.cr3, d)), s1.cr3);
    }

    /**
     Loads a directory; returns the physical address of the one loaded before, and 0
     without loading anything if the directory's address is that of the window.
     */
    method LoadDirectory(d: Frame) returns (previous: nat)
      requires Ready()
      requires paging && d * PAGE_SIZE != PAGEDIR ==> Inv(State()) && IsDir(State(), d) && CanLoad(State(), d)
      requires !paging ==> d == DirFrame()
      modifies this`mem, this`own, this`next, this`clean, this`cr3, this`paging, this`pageDirectory, pmm, pmm.bitmap
      ensures Ready() && paging
      ensures old(paging) ==> State() == Load(old(State()), d)
      ensures old(paging) ==> previous == if d * PAGE_SIZE == PAGEDIR then 0 else old(cr3) * PAGE_SIZE
      ensures !old(paging) ==> State() == old(State()) && previous == old(pageDirectory)
    {
      hide Inv, MarksOf, Refresh, Editable, CanLoad, ShowFrame, Walk, SelfMapped;
      if d * PAGE_SIZE != PAGEDIR {
        if paging {
          CanShow(State(), d);
          LoadEditable(State(), d);
          WindowAddress(mem, cr3);
        }
        previous := GetPhysicalAddress(pageDirectory);
        if paging {
          RefreshDirectory(d);
          cr3 := d;
        } else {
          cr3 := d;
          paging := true;
        }
        pageDirectory := PAGEDIR;
        return;
      }
      clean := false;
      return 0;
    }

    lemma CanShow(s: St, d: Frame)
      ensures CanLoad(s, d) ==> ShowFrame(s, d).0.clean
    {
    }

    lemma WindowAddress(m: Mem, d: Frame)
      requires SelfMapped(m, d)
      ensures Walk(m, d, PAGEDIR) == Some(d * PAGE_SIZE)
    {
      WindowReachesTables(m, d, 0, 0);
    }

    lemma LoadEditable(s: St, d: Frame)
      requires Inv(s) && IsDir(s, d) && CanLoad(s, d)
      ensures var s1 := Load(s, d);
              Editable(s1.mem, s1.marks, d) && SelfMapped(s1.mem, d) && s1.cr3 == d && s1.saved == s.saved
    {
      hide Inv, CopyShared, ShowFrame, HideFrame, UnmapPage;
      var (s1, page) := ShowFrame(s, d);
      var s2 := s1.(mem := CopyShared(s1.mem, s1.cr3, d));
      ShowExact(s, d);
      CopyInv(s1, d);
      HideOne(s2, page);
      UnmapKeepsDirs(s2, d, page);
    }
  
    lemma NotWindow(s: St, d: Frame)
      requires CanLoad(s, d)
      ensures d * PAGE_SIZE != PAGEDIR
    {
    }

    /** Loads a directory for a modification, unless one is being modified already. */
    method ModifyDirectory(d: Frame)
      requires Ready() && paging && Inv(State()) && IsDir(State(), d)
      requires State().saved == 0 ==> CanLoad(State(), d)
      requires oldDirectory % PAGE_SIZE == 0 && oldDirectory < WORD
      modifies this`mem, this`own, this`next, this`clean, this`cr3, this`paging, this`pageDirectory, this`oldDirectory,
        pmm, pmm.bitmap
      ensures Ready() && paging && oldDirectory % PAGE_SIZE == 0 && oldDirectory < WORD
      ensures State() == TaskMemory.Modify(old(State()), d)
    {
      hide Inv, MarksOf, Load, Editable, CanLoad, Reachable;
      if oldDirectory != 0 {
        return;
      }
      NotWindow(State(), d);
      oldDirectory := LoadDirectory(d);
    }

    /** Returns to the directory loaded before the modification. */
    method ModifiedDirectory()
      requires Ready() && paging && Inv(State())
      requires State().saved != 0 ==> IsDir(State(), State().saved) && CanLoad(State(), State().saved)
      requires oldDirectory % PAGE_SIZE == 0 && oldDirectory < WORD
      modifies this`mem, this`own, this`next, this`clean, this`cr3, this`paging, this`pageDirectory, this`oldDirectory,
        pmm, pmm.bitmap
      ensures Ready() && paging && oldDirectory == 0
      ensures State() == TaskMemory.Modified(old(State()))
    {
      hide Inv, MarksOf, Load, Editable, CanLoad, Reachable;
      if oldDirectory == 0 {
        return;
      }
      NotWindow(State(), oldDirectory / PAGE_SIZE);
      var previous := LoadDirectory(oldDirectory / PAGE_SIZE);
      oldDirectory := 0;
    }

    /** memset of a new directory to zero, then the entry that names the directory itself. */
    method FillDirectory(a: nat, f: Frame)
      requires Shown(a, f) && (paging ==> f != cr3)
      modifies this`mem
      ensures mem == old(mem)[f := EmptyDirectory(f)]
    {
      hide Cell;
      var k := 0;
      while k < ENTRIES
        invariant 0 <= k <= ENTRIES && Shown(a, f)
        invariant mem == old(mem)[f := mem[f]]
        invariant forall j: Index :: j < k ==> mem[f][j] == ZERO
      {
        ShownCell(a, f, k);
        StoreWord(a + 4 * k, ZERO);
        k := k + 1;
      }
      ShownCell(a, f, 1023);
      StoreWord(a + 4 * (ENTRIES - 1), Entry(true, false, false, 0, f));
      assert mem[f] == EmptyDirectory(f);
    }

    /** Creates a directory; returns its physical address. Before paging is on, no shortage is assumed. */
    method CreateDirectory() returns (dir: nat)
      requires pmm.Valid()
      requires paging ==> Ready() && Inv(State()) && CanCreate(State())
      requires !paging ==> own == map[] && next == 0 && clean && oldDirectory == 0 && !domainCheckEnabled
                           && FirstDirectory(mem, pmm.Marks(), pmm.highestKernelPage).clean
      modifies this`mem, this`own, this`next, this`clean, pmm, pmm.bitmap
      ensures pmm.Valid() && dir % PAGE_SIZE == 0 && dir < WORD
      ensures paging ==> Ready() && (State(), dir / PAGE_SIZE) == Create(old(State()))
      ensures !paging ==> var s := FirstDirectory(old(mem), old(pmm.Marks()), old(pmm.highestKernelPage));
                          dir == s.cr3 * PAGE_SIZE && State() == s.(cr3 := DirFrame())
    {
      hide Inv, MarksOf, Choose, UseMarks, UseHighest, Create, ShowFrame, HideFrame, Editable, EmptyDirectory, Record,
        PageOf;
      ghost var s := State();
      ghost var f0 := Choose(s.marks, PAGE_SIZE);
      if paging {
        CreateMid(s);
        TakeEditable(s, PAGE_SIZE, KERNEL, Data(next, false));
      }
      dir := TakeFrames(PAGE_SIZE, KERNEL, Data(next, false));
      var f := dir / PAGE_SIZE;
      var v := MapPhysicalFrame(f);
      FillDirectory(v, f);
      own := own[f := Directory];
      UnmapPhysicalFrame(v);
      if !paging {
        RecordOne(f, Data(0, false));
      }
    }

    lemma RecordOne(f: Frame, role: Role)
      ensures Record(map[], PageOf(f * PAGE_SIZE, 0), PageOf(f * PAGE_SIZE, PAGE_SIZE - 1), role)[f := Directory]
              == map[f := Directory]
    {
      assert PageOf(f * PAGE_SIZE, 0) == f == PageOf(f * PAGE_SIZE, PAGE_SIZE - 1);
    }

    lemma CreateMid(s: St)
      requires Inv(s) && CanCreate(s)
      ensures var (s1, f) := Take(s, PAGE_SIZE, KERNEL, Data(s.next, false));
              var (s2, page) := ShowFrame(s1, f);
              var s3 := s2.(mem := s2.mem[f := EmptyDirectory(f)], own := s2.own[f := Directory]);
              && f != 0 && f != s.cr3 && s1.cr3 == s.cr3 && s2.cr3 == s.cr3 && InDomain(page, false)
              && Create(s) == (HideFrame(s3, page), f)
              && Editable(s3.mem, s3.marks, s3.cr3) && SelfMapped(s3.mem, s3.cr3)
              && var pte := Lookup(s2.mem, s.cr3, page);
                 pte.Some? && pte.value.frame == f && s2.mem[s.cr3][page / ENTRIES].frame != f
    {
      hide Inv, ShowFrame, HideFrame, Choose, Steady, Trans, AddsTables, OnlyMapped, Lookup, UseMarks, UseHighest,
        Record;
      var (s1, f) := Take(s, PAGE_SIZE, KERNEL, Data(s.next, false));
      var (s2, page) := ShowFrame(s1, f);
      var s3 := s2.(mem := s2.mem[f := EmptyDirectory(f)], own := if f == 0 then s2.own else s2.own[f := Directory]);
      ShowClean(s1, f);
      assert f != 0;
      TakeOneData(s, f);
      GrowsRefl(s, true);
      ShowExact(s1, f);
      ShownAfter(s1, f);
      DataKept(s1, s2, f);
      Promote(s2, f);
      InvEditable(s3, s3.cr3);
    }

    /** The states vmm_destroy_page_directory passes through. */
    lemma DestroyStages(s: St, d: Frame)
      requires Inv(s) && IsDir(s, d) && d != s.cr3 && ShowFrame(s, d).0.clean && !s.careful
      ensures var (s1, page) := ShowFrame(s, d);
              var s4 := DropTable(DropUser(DropTable(s1, d, 0), d, (USER_END - USER_START) / ENTRIES + 1), d, 1023);
              && s1.cr3 == s.cr3 && InDomain(page, false)
              && (var pte := Lookup(s1.mem, s.cr3, page);
                  pte.Some? && pte.value.frame == d && s1.mem[s.cr3][page / ENTRIES].frame != d)
              && s4.cr3 == s.cr3 && Editable(s4.mem, s4.marks, s4.cr3) && SelfMapped(s4.mem, s4.cr3)
              && HideFrame(s4, page) == Destroy(s, d)
    {
      hide Inv, ShowFrame, HideFrame, DropTable, DropUser, Steady, Trans, AddsTables, OnlyMapped, OtherDirsKept,
        Dismantles;
      var (s1, page) := ShowFrame(s, d);
      var s4 := DropTable(DropUser(DropFirst(s1, d), d, (USER_END - USER_START) / ENTRIES + 1), d, 1023);
      DestroyMid(s, d);
      ShownAfter(s, d);
      ShowExact(s, d);
      GrowsRefl(s4, true);
      InvEditable(s4, s4.cr3);
    }

    method DestroyDirectory(d: Frame)
      requires Ready() && paging && Inv(State()) && IsDir(State(), d) && d != cr3 && ShowFrame(State(), d).0.clean
      modifies this`mem, this`own, this`next, this`clean, this`pageDirectory, pmm, pmm.bitmap
      ensures Ready() && State() == Destroy(old(State()), d)
    {
      hide Inv, MarksOf, ShowFrame, HideFrame, DropTable, DropUser, Destroy, Editable, Cell;
      DestroyStages(State(), d);
      var v := MapPhysicalFrame(d);
      pageDirectory := v;
      ShownCell(v, d, 0);
      DestroyPageTable(0, d);
      DestroyUserTables(v, d);
      ShownCell(v, d, 1023);
      DestroyPageTable(ENTRIES - 1, d);
      pageDirectory := PAGEDIR;
      UnmapPhysicalFrame(v);
    }

    /** The loop over the user domain's tables of the directory shown at page_directory. */
    method DestroyUserTables(v: nat, d: Frame)
      requires pmm.Valid() && pageDirectory == v && Shown(v, d) && paging && d != cr3
      modifies this`mem, this`own, pmm, pmm.bitmap
      ensures pmm.Valid() && Shown(v, d)
      ensures State() == DropUser(old(State()), d, (USER_END - USER_START) / ENTRIES + 1)
    {
      hide MarksOf, Cell, Give;
      var i := USER_START / ENTRIES;
      while i <= USER_END / ENTRIES
        invariant 256 <= i <= 1023 && pmm.Valid() && Shown(v, d)
        invariant State() == DropUser(old(State()), d, i - USER_START / ENTRIES)
      {
        ShownCell(v, d, i);
        var pde := LoadWord(pageDirectory + 4 * i);
        if pde.pr {
          DestroyPageTable(i, d);
        }
        i := i + 1;
      }
    }

    /** vmm_init: creates the first directory, identity-maps the kernel and turns paging on. */
    method Init()
      requires pmm.Valid() && !paging && own == map[] && next == 0 && clean && oldDirectory == 0 && !domainCheckEnabled
      requires HighestBounds(pmm.Marks(), pmm.highestKernelPage) && pmm.highestKernelPage < PAGE_NUMBER
      requires InitVmm(mem, pmm.Marks(), pmm.highestKernelPage).clean
      requires FirstDirectory(mem, pmm.Marks(), pmm.highestKernelPage).highest < 1023 * ENTRIES
      requires FirstDirectory(mem, pmm.Marks(), pmm.highestKernelPage).cr3 * PAGE_SIZE != PAGEDIR
      modifies this, pmm, pmm.bitmap
      ensures Ready() && paging
      ensures State() == InitVmm(old(mem), old(pmm.Marks()), old(pmm.highestKernelPage))
    {
      hide Inv, MarksOf, MapPage, Editable, FirstDirectory, Trans, HighestBounds;
      ghost var s := FirstDirectory(mem, pmm.Marks(), pmm.highestKernelPage);
      IdentityMapCleans(s, s.highest + 1);
      FirstInv(mem, pmm.Marks(), pmm.highestKernelPage);
      InvEditable(s, s.cr3);
      pageDirectory := CreateDirectory();
      IdentityMapKernel(s);
      domainCheckEnabled := true;
      var previous := LoadDirectory(pageDirectory / PAGE_SIZE);
    }

    /** The loop of vmm_init over all pages up to the highest kernel page. */
    method IdentityMapKernel(ghost s: St)
      requires pmm.Valid() && Ready() && !paging && State() == s && s.highest < 1023 * ENTRIES
      modifies this`mem, this`own, this`next, this`clean, pmm, pmm.bitmap
      ensures pmm.Valid() && Ready() && State() == IdentityMap(s, s.highest + 1)
    {
      hide MarksOf, MapPage, Ready, Reachable;
      var highest := pmm.highestKernelPage;
      var i := 0;
      while i <= highest
        invariant 0 <= i <= highest + 1 && pmm.Valid() && Ready()
        invariant State() == IdentityMap(s, i)
      {
        var flag := pmm.Check(i * PAGE_SIZE);
        if flag != UNUSED && flag != RESERVED {
          var ok := Map(i * PAGE_SIZE, i * PAGE_SIZE, KERNEL_FLAGS);
        }
        i := i + 1;
      }
    }
  }
}
