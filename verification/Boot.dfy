/** vmm_init: identity mapping of the kernel, by a loop over a bitmap that the loop itself changes. */
module Boot {
  import opened Common
  import opened Pmm
  import opened Paging
  import opened Space
  import opened Ranges
  import opened Allocation
  import opened Directories
  import opened UnmapLimits
  import opened Shortages

  /** vmm_create_page_directory while paging is off: the frame is written at its physical address. */
  ghost function FirstDirectory(mem: Mem, marks: Marks, highest: nat): St {
    var f := Choose(marks, PAGE_SIZE);
    St(mem[f := EmptyDirectory(f)],
       if f == 0 then marks else UseMarks(marks, f * PAGE_SIZE, PAGE_SIZE, KERNEL),
       if f == 0 then highest else UseHighest(highest, f * PAGE_SIZE, PAGE_SIZE, KERNEL),
       f, false, 0, false, map[f := Directory], 1, f != 0)
  }

  /** The loop of vmm_init, up to page n: pages in use for the kernel or user domain are mapped to themselves. */
  ghost function IdentityMap(s: St, n: nat): St
    requires n <= PAGE_NUMBER
  {
    if n == 0 then s
    else
      var s1 := IdentityMap(s, n - 1);
      if s1.marks[n - 1] != UNUSED && s1.marks[n - 1] != RESERVED
      then MapPage(s1, s1.cr3, n - 1, n - 1, KERNEL_FLAGS).0
      else s1
  }

  /** vmm_init up to the switch to paging. */
  ghost function InitVmm(mem: Mem, marks: Marks, highest: nat): St
    requires highest < PAGE_NUMBER
  {
    var s := FirstDirectory(mem, marks, highest);
    IdentityMap(s, s.highest + 1).(check := true)
  }

  lemma FirstInv(mem: Mem, marks: Marks, highest: nat)
    requires FirstDirectory(mem, marks, highest).clean && highest < PAGE_NUMBER
    ensures var s := FirstDirectory(mem, marks, highest);
            && Inv(s) && !s.check && s.highest < PAGE_NUMBER
            && (HighestBounds(marks, highest) ==> HighestBounds(s.marks, s.highest))
            && (forall f: Frame :: marks[f] == KERNEL ==> s.marks[f] == KERNEL)
            && (forall p: Page :: Mappable(p) ==> Trans(s, s.cr3, p).None?)
  {
    var s := FirstDirectory(mem, marks, highest);
    var f := s.cr3;
    AllocExact(marks, PAGE_SIZE, KERNEL, f);
    forall g: Frame
      ensures s.marks[g] == if g == f then KERNEL else marks[g]
    {
      AllocExact(marks, PAGE_SIZE, KERNEL, g);
    }
    UseExact(marks, highest, f * PAGE_SIZE, PAGE_SIZE, KERNEL, f);
    assert SelfMapped(s.mem, f);
  }

  /** Taking frames never unmarks a kernel frame, and keeps the bound on them. */
  lemma MapMarks(s: St, page: Page, frame: Frame, flags: Flags)
    requires Inv(s) && Mappable(page) && MapPage(s, s.cr3, page, frame, flags).0.clean
    ensures var s1 := MapPage(s, s.cr3, page, frame, flags).0;
            && (forall f: Frame :: s.marks[f] != UNUSED ==> s1.marks[f] == s.marks[f])
            && (HighestBounds(s.marks, s.highest) ==> HighestBounds(s1.marks, s1.highest))
  {
    var i := page / ENTRIES;
    if DomainCheck(s, page, flags) && !s.mem[s.cr3][i].pr {
      NewTableShape(s, i);
      TakeOne(s, RoleOf(s.cr3, i));
      var f := Choose(s.marks, PAGE_SIZE);
      UseExact(s.marks, s.highest, f * PAGE_SIZE, PAGE_SIZE, KERNEL, f);
    }
  }

  /**
   After n steps every page below n that was marked as kernel or user memory at the
   start is mapped to itself for the kernel only, and nothing but such identities of
   pages below n is mapped, whatever frames the loop itself took for page tables.
   */
  lemma {:induction false} IdentityMapExact(s: St, n: nat)
    requires Inv(s) && !s.check && n <= 1023 * ENTRIES && IdentityMap(s, n).clean
    requires forall p: Page :: Mappable(p) ==> Trans(s, s.cr3, p).None?
    ensures var s1 := IdentityMap(s, n);
            && s.clean && Grows(s, s1, false) && !s1.check
            && (HighestBounds(s.marks, s.highest) ==> HighestBounds(s1.marks, s1.highest))
            && (forall f: Frame :: s.marks[f] != UNUSED ==> s1.marks[f] == s.marks[f])
            && (forall p: Page :: Mappable(p) ==>
                  Trans(s1, s1.cr3, p).None? || (p < n && Trans(s1, s1.cr3, p) == Some(Mapping(p, false, false))))
            && (forall p: Page :: p < n && (s.marks[p] == KERNEL || s.marks[p] == USER) ==>
                  Trans(s1, s1.cr3, p) == Some(Mapping(p, false, false)))
  {
    hide Inv, MapPage, Trans, Steady, AddsTables, OtherDirsKept, HighestBounds;
    GrowsRefl(s, false);
    if n == 0 {
      return;
    }
    var s1 := IdentityMap(s, n - 1);
    var page: Page := n - 1;
    IdentityMapClean(s, n);
    IdentityMapExact(s, n - 1);
    if s1.marks[page] != UNUSED && s1.marks[page] != RESERVED {
      GrowsRefl(s1, true);
      MapGrows(s1, page, page, KERNEL_FLAGS);
      MapExact(s1, page, page, KERNEL_FLAGS);
      MapMarks(s1, page, page, KERNEL_FLAGS);
      GrowsWeaken(s1, IdentityMap(s, n), IsShared(page / ENTRIES), false);
      GrowsTrans(s, s1, IdentityMap(s, n), false);
    }
  }

  lemma IdentityMapClean(s: St, n: nat)
    requires 0 < n <= PAGE_NUMBER
    ensures IdentityMap(s, n).clean ==> IdentityMap(s, n - 1).clean
  {
  }

  /**
   When every kernel frame lies at or below the remembered highest one, vmm_init maps
   every frame that was marked as kernel memory to itself, for the kernel only.
   */
  lemma InitMapsKernel(mem: Mem, marks: Marks, highest: nat, p: Page)
    requires HighestBounds(marks, highest) && highest < PAGE_NUMBER
    requires InitVmm(mem, marks, highest).clean
    requires FirstDirectory(mem, marks, highest).highest < 1023 * ENTRIES
    ensures var s := InitVmm(mem, marks, highest);
            && Inv(s) && s.check && HighestBounds(s.marks, s.highest)
            && (marks[p] == KERNEL ==> Trans(s, s.cr3, p) == Some(Mapping(p, false, false)))
            && (Mappable(p) && Trans(s, s.cr3, p).Some? ==> Trans(s, s.cr3, p) == Some(Mapping(p, false, false)))
  {
    hide Trans, MapPage;
    var s0 := FirstDirectory(mem, marks, highest);
    var n := s0.highest + 1;
    IdentityMapCleans(s0, n);
    FirstInv(mem, marks, highest);
    IdentityMapExact(s0, n);
    var s1 := IdentityMap(s0, n);
    TransKept(s1, s1.(check := true));
    assert marks[p] == KERNEL ==> p < n;
    SwitchedOn(s1);
  }

  lemma SwitchedOn(s: St)
    requires Inv(s)
    ensures Inv(s.(check := true))
  {
  }

  lemma {:induction false} IdentityMapCleans(s: St, n: nat)
    requires n <= PAGE_NUMBER && IdentityMap(s, n).clean
    ensures s.clean
  {
    if n > 0 {
      IdentityMapClean(s, n);
      IdentityMapCleans(s, n - 1);
    }
  }

  // ----- how many frames this needs

  /** The entries of the directory that list a table. */
  ghost function Tables(s: St): set<Index> {
    set i: Index | i < 1023 && s.mem[s.cr3][i].pr
  }

  ghost function Below(k: nat): set<Index> {
    set i: Index | InRange(i, 0, k)
  }

  lemma {:induction false} BelowSize(k: nat)
    requires k <= 1024
    ensures |Below(k)| == k
  {
    if k == 0 {
      assert Below(0) == {};
    } else {
      BelowSize(k - 1);
      assert Below(k) == Below(k - 1) + {k - 1};
    }
  }

  lemma TablesMore(s: St, s1: St, i: Index)
    requires i < 1023 && forall k: Index :: s1.mem[s.cr3][k].pr <==> s.mem[s.cr3][k].pr || k == i
    requires s1.cr3 == s.cr3
    ensures Tables(s1) == Tables(s) + {i}
    ensures |Tables(s1)| == |Tables(s)| + (if s.mem[s.cr3][i].pr then 0 else 1)
  {
    assert Tables(s1) == Tables(s) + {i};
    if s.mem[s.cr3][i].pr {
      assert Tables(s1) == Tables(s);
    }
  }

  /** Every table takes one frame, and the first n pages need no more than their tables. */
  lemma {:induction false} IdentityMapTakes(s: St, n: nat)
    requires Inv(s) && !s.check && n <= 1023 * ENTRIES && IdentityMap(s, n).clean
    requires forall p: Page :: Mappable(p) ==> Trans(s, s.cr3, p).None?
    ensures var s1 := IdentityMap(s, n);
            && Inv(s1) && s1.cr3 == s.cr3 && !s1.check && s1.marks[0] == s.marks[0]
            && |Unused(s1.marks)| + |Tables(s1)| == |Unused(s.marks)| + |Tables(s)|
            && Tables(s1) <= Tables(s) + Below((n + ENTRIES - 1) / ENTRIES)
  {
    hide Inv, MapPage, Trans, Steady, AddsTables, OtherDirsKept, HighestBounds, Unused, Tables;
    IdentityMapExact(s, n);
    if n == 0 {
      return;
    }
    var s1 := IdentityMap(s, n - 1);
    var page: Page := n - 1;
    IdentityMapClean(s, n);
    IdentityMapTakes(s, n - 1);
    if s1.marks[page] != UNUSED && s1.marks[page] != RESERVED {
      MapTakes(s1, page, page, KERNEL_FLAGS);
      TablesMore(s1, IdentityMap(s, n), page / ENTRIES);
    }
    assert Below((n - 1 + ENTRIES - 1) / ENTRIES) + {page / ENTRIES} <= Below((n + ENTRIES - 1) / ENTRIES);
    assert Below((n - 1 + ENTRIES - 1) / ENTRIES) <= Below((n + ENTRIES - 1) / ENTRIES);
  }

  lemma {:induction false} IdentityMapRoom(s: St, n: nat)
    requires Inv(s) && s.clean && !s.check && n <= 1023 * ENTRIES && Tables(s) == {}
    requires forall p: Page :: Mappable(p) ==> Trans(s, s.cr3, p).None?
    requires EnoughFrames(s.marks, (n + ENTRIES - 1) / ENTRIES)
    ensures IdentityMap(s, n).clean
  {
    hide Inv, MapPage, Trans, Unused, Tables, Choose;
    if n == 0 {
      return;
    }
    IdentityMapRoom(s, n - 1);
    IdentityMapTakes(s, n - 1);
    var s1 := IdentityMap(s, n - 1);
    var page: Page := n - 1;
    MapCleanIff(s1, page, page, KERNEL_FLAGS);
    if !s1.mem[s1.cr3][page / ENTRIES].pr {
      FewTables(s1, (n - 1 + ENTRIES - 1) / ENTRIES, page / ENTRIES);
      SingleFrameIff(s1.marks);
    }
  }

  lemma FewTables(s: St, k: nat, i: Index)
    requires Tables(s) <= Below(k) && !s.mem[s.cr3][i].pr && k <= i + 1
    ensures |Tables(s)| <= i
  {
    BelowSize(i);
    assert Tables(s) <= Below(i);
    SubsetSize(Tables(s), Below(i));
  }

  lemma FirstTakes(mem: Mem, marks: Marks, highest: nat)
    requires highest < PAGE_NUMBER
    ensures FirstDirectory(mem, marks, highest).clean <==> EnoughFrames(marks, 1)
    ensures FirstDirectory(mem, marks, highest).clean ==>
              var s := FirstDirectory(mem, marks, highest);
              s.marks[0] == marks[0] && |Unused(s.marks)| == |Unused(marks)| - 1 && Tables(s) == {}
  {
    SingleFrameIff(marks);
    var s, f := FirstDirectory(mem, marks, highest), Choose(marks, PAGE_SIZE);
    if f != 0 {
      forall g: Frame
        ensures s.marks[g] == if g == f then KERNEL else marks[g]
      {
        AllocExact(marks, PAGE_SIZE, KERNEL, g);
      }
      AllocExact(marks, PAGE_SIZE, KERNEL, f);
      assert s.marks == marks[f := KERNEL];
      OneTaken(marks, f, KERNEL);
    }
  }

  /**
   vmm_init takes one frame for the directory and one for each table, and meets no
   shortage if frame 0 is in use and as many frames are unused as it takes to map
   everything up to the highest kernel page.
   */
  lemma InitTakes(mem: Mem, marks: Marks, highest: nat)
    requires highest < PAGE_NUMBER && FirstDirectory(mem, marks, highest).highest < 1023 * ENTRIES
    ensures InitVmm(mem, marks, highest).clean ==>
              var s := InitVmm(mem, marks, highest); |Unused(marks)| == |Unused(s.marks)| + 1 + |Tables(s)|
    ensures EnoughFrames(marks, 2 + FirstDirectory(mem, marks, highest).highest / ENTRIES) ==>
              InitVmm(mem, marks, highest).clean
  {
    hide FirstDirectory, IdentityMap, Inv, Trans, Unused, Tables, HighestBounds;
    var s0 := FirstDirectory(mem, marks, highest);
    var n := s0.highest + 1;
    FirstTakes(mem, marks, highest);
    if InitVmm(mem, marks, highest).clean {
      IdentityMapCleans(s0, n);
    }
    if s0.clean {
      FirstInv(mem, marks, highest);
      if InitVmm(mem, marks, highest).clean {
        IdentityMapTakes(s0, n);
        SameEntries(IdentityMap(s0, n), InitVmm(mem, marks, highest));
        assert |Tables(s0)| == 0;
      }
      if EnoughFrames(marks, 2 + s0.highest / ENTRIES) {
        IdentityMapRoom(s0, n);
      }
    }
  }

  lemma SameEntries(s: St, s1: St)
    requires s1.mem == s.mem && s1.cr3 == s.cr3
    ensures Tables(s1) == Tables(s)
  {
  }
}
