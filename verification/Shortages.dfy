/** Exactly when an operation of the memory manager runs into a shortage. */
module Shortages {
  import opened Common
  import opened FirstFit
  import opened Pmm
  import opened Paging
  import opened Space
  import opened Ranges
  import opened Allocation
  import opened Directories
  import opened UnmapLimits

  // ----- counting frames

  ghost function Unused(marks: Marks): set<Frame> {
    set f: Frame | marks[f] == UNUSED
  }

  /** Single frames can be had n times over: frame 0 must not be unused, for its address reads as failure. */
  ghost predicate EnoughFrames(marks: Marks, n: nat) {
    n == 0 || (marks[0] != UNUSED && |Unused(marks)| >= n)
  }

  lemma SingleFrameIff(marks: Marks)
    ensures Choose(marks, PAGE_SIZE) != 0 <==> EnoughFrames(marks, 1)
  {
    ChooseSucceedsIff(marks, PAGE_SIZE);
    assert PagesOf(PAGE_SIZE) == 1;
    if EnoughFrames(marks, 1) {
      var f :| f in Unused(marks);
      assert f > 0 && IsRun(Free(marks), f, 1);
      assert !Free(marks)[0];
    }
    if marks[0] == UNUSED {
      FrameZeroStarvesSingleFrames(marks, PAGE_SIZE);
    } else if Choose(marks, PAGE_SIZE) != 0 {
      var f := Choose(marks, PAGE_SIZE);
      assert IsRun(Free(marks), f, 1) && Free(marks)[f];
      assert f in Unused(marks) && Unused(marks) != {};
    }
  }

  lemma OneTaken(marks: Marks, f: Frame, flag: Flag)
    requires marks[f] == UNUSED && flag != UNUSED
    ensures |Unused(marks[f := flag])| == |Unused(marks)| - 1
  {
    assert Unused(marks) == Unused(marks[f := flag]) + {f};
  }

  function RunFrames(f: nat, n: nat): set<Frame>
    requires f + n <= PAGE_NUMBER
  {
    set g: Frame | InRange(g, f, n)
  }

  lemma {:induction false} RunSize(f: nat, n: nat)
    requires f + n <= PAGE_NUMBER
    ensures |RunFrames(f, n)| == n
  {
    if n == 0 {
      assert RunFrames(f, n) == {};
    } else {
      RunSize(f, n - 1);
      assert RunFrames(f, n) == RunFrames(f, n - 1) + {f + n - 1};
    }
  }

  lemma RunTaken(marks: Marks, marks1: Marks, f: nat, n: nat)
    requires f + n <= PAGE_NUMBER
    requires forall g: Frame :: if f <= g < f + n then marks[g] == UNUSED && marks1[g] != UNUSED
             else marks1[g] == marks[g]
    ensures |Unused(marks1)| == |Unused(marks)| - n
  {
    RunSize(f, n);
    assert Unused(marks) == Unused(marks1) + RunFrames(f, n);
    assert Unused(marks1) !! RunFrames(f, n);
  }

  // ----- mapping

  /** The directory entries for n pages from vp on that have no table. */
  ghost function Missing(m: Mem, d: Frame, vp: nat, n: nat): (r: set<Index>)
    requires vp + n <= PAGE_NUMBER
  {
    if n == 0 then {}
    else Missing(m, d, vp, n - 1) + if m[d][(vp + n - 1) / ENTRIES].pr then {} else {(vp + n - 1) / ENTRIES}
  }

  /** Membership in plain words. */
  lemma {:induction false} MissingExact(m: Mem, d: Frame, vp: nat, n: nat, i: Index)
    requires vp + n <= PAGE_NUMBER
    ensures i in Missing(m, d, vp, n) <==> !m[d][i].pr && exists p: Page :: InRange(p, vp, n) && p / ENTRIES == i
  {
    if n > 0 {
      MissingExact(m, d, vp, n - 1, i);
      var q: Page := vp + n - 1;
      assert InRange(q, vp, n);
      if p: Page :| InRange(p, vp, n - 1) && p / ENTRIES == i {
        assert InRange(p, vp, n);
      }
      if p: Page :| InRange(p, vp, n) && p / ENTRIES == i && p != q {
        assert InRange(p, vp, n - 1);
      }
    }
  }

  /** A mapped page took no frame, or the one for its table. */
  lemma MapTakes(s: St, page: Page, frame: Frame, flags: Flags)
    requires Inv(s) && Mappable(page) && DomainCheck(s, page, flags) && MapPage(s, s.cr3, page, frame, flags).0.clean
    ensures var s1 := MapPage(s, s.cr3, page, frame, flags).0;
            && s1.cr3 == s.cr3
            && |Unused(s1.marks)| == |Unused(s.marks)| - (if s.mem[s.cr3][page / ENTRIES].pr then 0 else 1)
            && (forall k: Index :: s1.mem[s.cr3][k].pr <==> s.mem[s.cr3][k].pr || k == page / ENTRIES)
  {
    hide Unused;
    var i, j := page / ENTRIES, page % ENTRIES;
    if s.mem[s.cr3][i].pr {
      assert s.mem[s.cr3][i].frame != s.cr3;
    } else {
      NewTableShape(s, i);
      var s0 := NewTable(s, s.cr3, i);
      OneTaken(s.marks, s0.mem[s.cr3][i].frame, KERNEL);
      TakeOne(s, RoleOf(s.cr3, i));
    }
  }

  /** What is known after all but the last page of a range have been mapped. */
  lemma AllButLast(s: St, vp: nat, fp: nat, n: nat, flags: Flags)
    requires Inv(s) && 0 < n && vp + n <= 1023 * ENTRIES && fp + n <= PAGE_NUMBER
    requires MapRange(s, s.cr3, vp, fp, n - 1, flags).clean
    ensures var s1, q := MapRange(s, s.cr3, vp, fp, n - 1, flags), vp + n - 1;
            && Inv(s1) && s1.cr3 == s.cr3 && s1.marks[0] == s.marks[0] && Trans(s1, s.cr3, q) == Trans(s, s.cr3, q)
            && (DomainCheck(s1, q, flags) <==> DomainCheck(s, q, flags))
  {
    hide Inv, Trans, Steady, AddsTables, OtherDirsKept, MapRange;
    GrowsRefl(s, true);
    MapRangeGrows(s, vp, fp, n - 1, flags, false);
    MapRangeExact(s, vp, fp, n - 1, flags);
  }

  lemma MapRangeLast(s: St, vp: nat, fp: nat, n: nat, flags: Flags)
    requires 0 < n && vp + n <= PAGE_NUMBER && fp + n <= PAGE_NUMBER
    ensures var (s2, ok) := MapPage(MapRange(s, s.cr3, vp, fp, n - 1, flags), s.cr3, vp + n - 1, fp + n - 1, flags);
            MapRange(s, s.cr3, vp, fp, n, flags) == s2.(clean := s2.clean && ok)
  {
  }

  lemma {:induction false} MapRangeTakes(s: St, vp: nat, fp: nat, n: nat, flags: Flags)
    requires Inv(s) && vp + n <= 1023 * ENTRIES && fp + n <= PAGE_NUMBER
    requires MapRange(s, s.cr3, vp, fp, n, flags).clean
    ensures var s1 := MapRange(s, s.cr3, vp, fp, n, flags);
            && |Unused(s1.marks)| + |Missing(s.mem, s.cr3, vp, n)| == |Unused(s.marks)|
            && (forall k: Index :: s1.mem[s.cr3][k].pr <==> s.mem[s.cr3][k].pr || k in Missing(s.mem, s.cr3, vp, n))
  {
    hide Inv, Unused, MapPage, Trans, MapRange, Missing, DomainCheck;
    if n == 0 {
      MissingNone(s.mem, s.cr3, vp);
      assert MapRange(s, s.cr3, vp, fp, 0, flags) == s by { MapNone(s, vp, fp, flags); }
      return;
    }
    MapRangeClean(s, s.cr3, vp, fp, n, flags);
    MapRangeTakes(s, vp, fp, n - 1, flags);
    AllButLast(s, vp, fp, n, flags);
    MapRangeLast(s, vp, fp, n, flags);
    MissingLast(s.mem, s.cr3, vp, n);
    var s1 := MapRange(s, s.cr3, vp, fp, n - 1, flags);
    MapExact(s1, vp + n - 1, fp + n - 1, flags);
    MapTakes(s1, vp + n - 1, fp + n - 1, flags);
  }

  lemma MapNone(s: St, vp: nat, fp: nat, flags: Flags)
    requires vp <= PAGE_NUMBER && fp <= PAGE_NUMBER
    ensures MapRange(s, s.cr3, vp, fp, 0, flags) == s
  {
  }

  lemma MissingNone(m: Mem, d: Frame, vp: nat)
    requires vp <= PAGE_NUMBER
    ensures Missing(m, d, vp, 0) == {}
  {
  }

  lemma MissingLast(m: Mem, d: Frame, vp: nat, n: nat)
    requires 0 < n && vp + n <= PAGE_NUMBER
    ensures var i, r := (vp + n - 1) / ENTRIES, Missing(m, d, vp, n - 1);
            && Missing(m, d, vp, n) == (if m[d][i].pr then r else r + {i})
            && |Missing(m, d, vp, n)| == |r| + (if m[d][i].pr || i in r then 0 else 1)
            && |Missing(m, d, vp, n)| >= |r|
  {
    var i, r := (vp + n - 1) / ENTRIES, Missing(m, d, vp, n - 1);
    if !m[d][i].pr && i in r {
      assert r + {i} == r;
    }
  }

  /**
   Mapping a range runs into no trouble if and only if its pages are free and allowed,
   and there are as many single frames to be had as tables are missing.
   */
  lemma {:induction false} MapRangeCleanIff(s: St, vp: nat, fp: nat, n: nat, flags: Flags)
    requires Inv(s) && vp + n <= 1023 * ENTRIES && fp + n <= PAGE_NUMBER
    ensures MapRange(s, s.cr3, vp, fp, n, flags).clean <==>
            && s.clean
            && (forall p: Page :: InRange(p, vp, n) ==> DomainCheck(s, p, flags) && Trans(s, s.cr3, p).None?)
            && EnoughFrames(s.marks, |Missing(s.mem, s.cr3, vp, n)|)
  {
    hide Inv, Unused, MapPage, Trans, MapRange, Missing, DomainCheck;
    if n == 0 {
      MapNone(s, vp, fp, flags);
      MissingNone(s.mem, s.cr3, vp);
      return;
    }
    MapRangeCleanIff(s, vp, fp, n - 1, flags);
    MapRangeClean(s, s.cr3, vp, fp, n, flags);
    var q: Page := vp + n - 1;
    assert forall p: Page :: InRange(p, vp, n) <==> InRange(p, vp, n - 1) || p == q;
    MissingLast(s.mem, s.cr3, vp, n);
    if MapRange(s, s.cr3, vp, fp, n - 1, flags).clean {
      LastPageIff(s, vp, fp, n, flags);
    }
  }

  lemma LastPageIff(s: St, vp: nat, fp: nat, n: nat, flags: Flags)
    requires Inv(s) && 0 < n && vp + n <= 1023 * ENTRIES && fp + n <= PAGE_NUMBER
    requires MapRange(s, s.cr3, vp, fp, n - 1, flags).clean
    requires EnoughFrames(s.marks, |Missing(s.mem, s.cr3, vp, n - 1)|)
    ensures var q := vp + n - 1;
            MapRange(s, s.cr3, vp, fp, n, flags).clean <==>
            DomainCheck(s, q, flags) && Trans(s, s.cr3, q).None?
            && EnoughFrames(s.marks, |Missing(s.mem, s.cr3, vp, n)|)
  {
    hide Inv, Unused, MapPage, Trans, Choose, MapRange, Missing, DomainCheck;
    var q, i := vp + n - 1, (vp + n - 1) / ENTRIES;
    var s1 := MapRange(s, s.cr3, vp, fp, n - 1, flags);
    AllButLast(s, vp, fp, n, flags);
    MapRangeTakes(s, vp, fp, n - 1, flags);
    MapRangeLast(s, vp, fp, n, flags);
    MissingLast(s.mem, s.cr3, vp, n);
    MapCleanIff(s1, q, fp + n - 1, flags);
    SingleFrameIff(s1.marks);
    if MapPage(s1, s.cr3, q, fp + n - 1, flags).0.clean {
      MapExact(s1, q, fp + n - 1, flags);
    }
    if !s1.mem[s.cr3][i].pr {
      NoTableNoPage(s1, s.cr3, q);
    }
  }

  lemma NoTableNoPage(s: St, d: Frame, p: Page)
    requires !s.mem[d][p / ENTRIES].pr
    ensures Trans(s, d, p).None?
  {
  }

  // ----- unused frames at the end of memory

  /** All frames from n on are unused, and frame 0 is not. */
  ghost predicate Tail(marks: Marks, n: nat) {
    0 < n && marks[0] != UNUSED && forall f: Frame :: f >= n ==> marks[f] == UNUSED
  }

  lemma FramesLeft(marks: Marks, n: nat, len: nat)
    requires Tail(marks, n) && 0 < len && n + PagesOf(len) <= PAGE_NUMBER
    ensures 0 < Choose(marks, len) <= n
  {
    ChooseSucceedsIff(marks, len);
    assert IsRun(Free(marks), n, PagesOf(len));
    assert PagesOf(len) > 0 && !Free(marks)[0];
  }

  lemma TailSize(marks: Marks, n: nat, m: nat)
    requires Tail(marks, n) && n + m <= PAGE_NUMBER
    ensures EnoughFrames(marks, m)
  {
    RunSize(n, m);
    assert RunFrames(n, m) <= Unused(marks);
    SubsetSize(RunFrames(n, m), Unused(marks));
  }

  lemma {:induction false} SubsetSize(a: set<Frame>, b: set<Frame>)
    requires a <= b
    ensures |a| <= |b|
  {
    assert |b| == |a| + |b - a| by { assert b == a + (b - a); }
  }

  lemma TakeTail(s: St, n: nat, len: nat, flag: Flag, role: Role)
    requires Tail(s.marks, n) && 0 < len < WORD && n + PagesOf(len) <= PAGE_NUMBER && Choose(s.marks, len) <= n
    ensures Tail(Take(s, len, flag, role).0.marks, n + PagesOf(len))
  {
    var f := Choose(s.marks, len);
    if f != 0 {
      forall g: Frame
        ensures UseMarks(s.marks, f * PAGE_SIZE, len, flag)[g] == if f <= g < f + PagesOf(len) then flag else s.marks[g]
      {
        AllocExact(s.marks, len, flag, g);
      }
    }
  }

  lemma TailMore(marks: Marks, n: nat, m: nat)
    requires Tail(marks, n) && n <= m
    ensures Tail(marks, m)
  {
  }

  lemma MapTail(s: St, page: Page, frame: Frame, flags: Flags, n: nat)
    requires Inv(s) && Mappable(page) && DomainCheck(s, page, flags) && Tail(s.marks, n) && n + 1 <= PAGE_NUMBER
    ensures var s1 := MapPage(s, s.cr3, page, frame, flags).0;
            Tail(s1.marks, n + if s.mem[s.cr3][page / ENTRIES].pr then 0 else 1)
  {
    var i := page / ENTRIES;
    if !s.mem[s.cr3][i].pr {
      assert PagesOf(PAGE_SIZE) == 1;
      FramesLeft(s.marks, n, PAGE_SIZE);
      TakeTail(s, n, PAGE_SIZE, KERNEL, RoleOf(s.cr3, i));
      hide Inv, Tail, Choose, UseMarks, UseHighest, Record;
    }
  }

  /** Mapping a range takes the frames for its tables from there. */
  lemma {:induction false} MapRangeTail(s: St, vp: nat, fp: nat, n: nat, flags: Flags, tail: nat)
    requires Inv(s) && vp + n <= 1023 * ENTRIES && fp + n <= PAGE_NUMBER && MapRange(s, s.cr3, vp, fp, n, flags).clean
    requires Tail(s.marks, tail) && tail + |Missing(s.mem, s.cr3, vp, n)| <= PAGE_NUMBER
    ensures Tail(MapRange(s, s.cr3, vp, fp, n, flags).marks, tail + |Missing(s.mem, s.cr3, vp, n)|)
  {
    hide Inv, Unused, MapPage, Trans, MapRange, Missing, DomainCheck, Tail;
    if n == 0 {
      MissingNone(s.mem, s.cr3, vp);
      MapNone(s, vp, fp, flags);
      return;
    }
    MapRangeClean(s, s.cr3, vp, fp, n, flags);
    MissingLast(s.mem, s.cr3, vp, n);
    MapRangeTail(s, vp, fp, n - 1, flags, tail);
    AllButLast(s, vp, fp, n, flags);
    MapRangeTakes(s, vp, fp, n - 1, flags);
    MapRangeLast(s, vp, fp, n, flags);
    var s1, q := MapRange(s, s.cr3, vp, fp, n - 1, flags), vp + n - 1;
    MapExact(s1, q, fp + n - 1, flags);
    LastTail(s1, q, fp + n - 1, flags, tail + |Missing(s.mem, s.cr3, vp, n - 1)|);
  }

  lemma LastTail(s: St, page: Page, frame: Frame, flags: Flags, n: nat)
    requires Inv(s) && Mappable(page) && DomainCheck(s, page, flags) && Tail(s.marks, n)
    requires n + (if s.mem[s.cr3][page / ENTRIES].pr then 0 else 1) <= PAGE_NUMBER
    ensures var s1 := MapPage(s, s.cr3, page, frame, flags).0;
            Tail(s1.marks, n + if s.mem[s.cr3][page / ENTRIES].pr then 0 else 1)
  {
    hide Inv, Tail, NewTable;
    if !s.mem[s.cr3][page / ENTRIES].pr {
      MapTail(s, page, frame, flags, n);
    }
  }

  /** At most as many tables are missing as there are pages. */
  lemma {:induction false} MissingFew(m: Mem, d: Frame, vp: nat, n: nat)
    requires vp + n <= PAGE_NUMBER
    ensures |Missing(m, d, vp, n)| <= n
  {
    if n > 0 {
      MissingFew(m, d, vp, n - 1);
      MissingLast(m, d, vp, n);
    }
  }

  // ----- ranges some of whose pages are mapped already

  /** Pages of the range that were unmapped are mapped to their frames; all others are as they were. */
  ghost predicate RestMapped(s: St, s1: St, vp: nat, fp: nat, n: nat, flags: Flags)
    requires fp + n <= PAGE_NUMBER
  {
    forall d: Frame, p: Page :: IsDir(s, d) && Mappable(p) ==>
      Trans(s1, d, p) ==
      if InRange(p, vp, n) && Trans(s, s.cr3, p).None? && Sees(s, d, p) then
           Some(Mapping(fp + p - vp, flags.writable, flags.user))
      else Trans(s, d, p)
  }

  /** What is known of a state reached by mapping pages, whatever clean says. */
  ghost predicate MapsOn(s: St, s1: St, vp: nat, fp: nat, n: nat, flags: Flags)
    requires vp + n <= PAGE_NUMBER && fp + n <= PAGE_NUMBER
  {
    && Inv(s1) && s1.clean && SameSwitches(s, s1) && OtherDirsKept(s, s1) && s1.marks[0] == s.marks[0]
    && AddsTables(s.own, s1.own, s.cr3, false)
    && |Unused(s1.marks)| + |Missing(s.mem, s.cr3, vp, n)| == |Unused(s.marks)|
    && (forall k: Index :: s1.mem[s.cr3][k].pr <==> s.mem[s.cr3][k].pr || k in Missing(s.mem, s.cr3, vp, n))
    && RestMapped(s, s1, vp, fp, n, flags)
  }

  /** No step looks at what clean says. */
  lemma MapBlind(s: St, d: Frame, page: Page, frame: Frame, flags: Flags)
    ensures var (s1, ok) := MapPage(s, d, page, frame, flags);
            var (t1, ok1) := MapPage(s.(clean := true), d, page, frame, flags);
            ok1 == ok && s1.(clean := true) == t1.(clean := true)
  {
    NewTableBlind(s, d, page / ENTRIES);
    hide NewTable;
  }

  lemma NewTableBlind(s: St, d: Frame, i: Index)
    ensures NewTable(s.(clean := true), d, i).(clean := true) == NewTable(s, d, i).(clean := true)
  {
    hide Choose, UseMarks, UseHighest, Record;
  }

  /** Mapping one more page, mapped already or not. */
  lemma MapsOnStep(s: St, t: St, vp: nat, fp: nat, n: nat, flags: Flags)
    requires Inv(s) && 0 < n && vp + n <= 1023 * ENTRIES && fp + n <= PAGE_NUMBER && MapsOn(s, t, vp, fp, n - 1, flags)
    requires DomainCheck(s, vp + n - 1, flags) && EnoughFrames(s.marks, |Missing(s.mem, s.cr3, vp, n)|)
    ensures MapsOn(s, MapPage(t, s.cr3, vp + n - 1, fp + n - 1, flags).0, vp, fp, n, flags)
  {
    hide Inv, Unused, MapPage, Missing, Grows, RestMapped, OtherDirsKept, EnoughFrames, AddsTables;
    var q: Page := vp + n - 1;
    TableOrFrame(s, t, vp, n, q, fp + n - 1, flags);
    MapGrows(t, q, fp + n - 1, flags);
    MapTakes(t, q, fp + n - 1, flags);
    GrowsOn(s, t, MapPage(t, s.cr3, q, fp + n - 1, flags).0, IsShared(q / ENTRIES));
    MissingLast(s.mem, s.cr3, vp, n);
    RestOn(s, t, vp, fp, n, flags);
  }

  lemma RestOn(s: St, t: St, vp: nat, fp: nat, n: nat, flags: Flags)
    requires Inv(s) && Inv(t) && SameSwitches(s, t) && OtherDirsKept(s, t)
    requires 0 < n && vp + n <= 1023 * ENTRIES && fp + n <= PAGE_NUMBER && RestMapped(s, t, vp, fp, n - 1, flags)
    requires DomainCheck(s, vp + n - 1, flags) && MapPage(t, s.cr3, vp + n - 1, fp + n - 1, flags).0.clean
    ensures RestMapped(s, MapPage(t, s.cr3, vp + n - 1, fp + n - 1, flags).0, vp, fp, n, flags)
  {
    hide Inv, MapPage, Trans, RestMapped, OnlyPage, OtherDirsKept, SameSight;
    var q: Page := vp + n - 1;
    var (t1, ok) := MapPage(t, s.cr3, q, fp + n - 1, flags);
    MapExact(t, q, fp + n - 1, flags);
    SameSees(s, t);
    RestStep(s, t, t1, vp, fp, n, flags, ok);
  }

  /** There is a table for the page, or a frame for it. */
  lemma TableOrFrame(s: St, t: St, vp: nat, n: nat, q: Page, frame: Frame, flags: Flags)
    requires 0 < n && vp + n <= PAGE_NUMBER && q == vp + n - 1 && t.clean && t.cr3 == s.cr3 && t.marks[0] == s.marks[0]
    requires |Unused(t.marks)| + |Missing(s.mem, s.cr3, vp, n - 1)| == |Unused(s.marks)|
    requires forall k: Index :: t.mem[s.cr3][k].pr <==> s.mem[s.cr3][k].pr || k in Missing(s.mem, s.cr3, vp, n - 1)
    requires EnoughFrames(s.marks, |Missing(s.mem, s.cr3, vp, n)|)
    ensures MapPage(t, s.cr3, q, frame, flags).0.clean
  {
    hide MapPage, Missing, Unused, Choose, DomainCheck;
    MissingLast(s.mem, s.cr3, vp, n);
    SingleFrameIff(t.marks);
    MapCleanIff(t, q, frame, flags);
  }

  lemma GrowsOn(s: St, t: St, t1: St, shared: bool)
    requires SameSwitches(s, t) && OtherDirsKept(s, t) && t.marks[0] == s.marks[0] && Grows(t, t1, shared)
    requires AddsTables(s.own, t.own, s.cr3, false)
    ensures Inv(t1) && SameSwitches(s, t1) && OtherDirsKept(s, t1) && t1.marks[0] == s.marks[0]
    ensures AddsTables(s.own, t1.own, s.cr3, false)
  {
    hide Inv, Steady;
  }

  /** The same directories list the tables of the loaded one. */
  ghost predicate SameSight(s: St, t: St) {
    forall d: Frame, p: Page :: IsDir(s, d) ==> IsDir(t, d) && (Sees(t, d, p) <==> Sees(s, d, p))
  }

  lemma SameSees(s: St, t: St)
    requires Inv(s) && OtherDirsKept(s, t) && t.cr3 == s.cr3
    ensures IsDir(s, s.cr3) && SameSight(s, t)
  {
  }

  lemma RestStep(s: St, t: St, t1: St, vp: nat, fp: nat, n: nat, flags: Flags, ok: bool)
    requires 0 < n && vp + n <= 1023 * ENTRIES && fp + n <= PAGE_NUMBER
    requires IsDir(s, s.cr3) && t.cr3 == s.cr3 && RestMapped(s, t, vp, fp, n - 1, flags) && SameSight(s, t)
    requires var q := vp + n - 1;
             && (ok <==> Trans(t, s.cr3, q).None?) && (!ok ==> t1 == t)
             && (ok ==> OnlyPage(t, t1, q, Some(Mapping(fp + n - 1, flags.writable, flags.user))))
    ensures RestMapped(s, t1, vp, fp, n, flags)
  {
    hide Trans, Sees;
    assert forall p: Page :: InRange(p, vp, n) <==> InRange(p, vp, n - 1) || p == vp + n - 1;
  }

  lemma {:induction false} MapRangeGoesOn(s: St, vp: nat, fp: nat, n: nat, flags: Flags)
    requires Inv(s) && vp + n <= 1023 * ENTRIES && fp + n <= PAGE_NUMBER
    requires forall p: Page :: InRange(p, vp, n) ==> DomainCheck(s, p, flags)
    requires EnoughFrames(s.marks, |Missing(s.mem, s.cr3, vp, n)|)
    ensures MapsOn(s, MapRange(s, s.cr3, vp, fp, n, flags).(clean := true), vp, fp, n, flags)
  {
    hide MapsOn, MapPage, Inv, Missing, DomainCheck;
    if n == 0 {
      MapsOnStart(s, vp, fp, flags);
    } else {
      MissingLast(s.mem, s.cr3, vp, n);
      assert forall p: Page :: InRange(p, vp, n - 1) ==> InRange(p, vp, n);
      assert InRange(vp + n - 1, vp, n);
      MapRangeGoesOn(s, vp, fp, n - 1, flags);
      var t := MapRange(s, s.cr3, vp, fp, n - 1, flags);
      MapBlind(t, s.cr3, vp + n - 1, fp + n - 1, flags);
      MapsOnStep(s, t.(clean := true), vp, fp, n, flags);
      MapsOnClean(s, MapPage(t.(clean := true), s.cr3, vp + n - 1, fp + n - 1, flags).0, vp, fp, n, flags);
    }
  }

  lemma MapsOnStart(s: St, vp: nat, fp: nat, flags: Flags)
    requires Inv(s) && vp <= PAGE_NUMBER && fp <= PAGE_NUMBER
    ensures MapsOn(s, s.(clean := true), vp, fp, 0, flags)
  {
    TransKept(s, s.(clean := true));
    hide Trans, Unused;
  }

  lemma MapsOnClean(s: St, t: St, vp: nat, fp: nat, n: nat, flags: Flags)
    requires vp + n <= PAGE_NUMBER && fp + n <= PAGE_NUMBER && MapsOn(s, t, vp, fp, n, flags)
    ensures t.(clean := true) == t
  {
    hide Inv, RestMapped, OtherDirsKept, Missing, Unused;
  }

  /** How many of the n pages from page vp on the domain allows, if it allows the first: those up to its end. */
  function Allowed(s: St, vp: nat, n: nat, flags: Flags): (m: nat)
    ensures m <= n
  {
    var end := DomainEnd(flags.user) + 1;
    if !s.check || vp + n <= end then n else if vp >= end then 0 else end - vp
  }

  lemma AllowedExact(s: St, vp: nat, n: nat, flags: Flags, p: Page)
    requires vp + n <= PAGE_NUMBER && vp < PAGE_NUMBER && DomainCheck(s, vp, flags) && InRange(p, vp, n)
    ensures DomainCheck(s, p, flags) <==> InRange(p, vp, Allowed(s, vp, n, flags))
  {
  }

  /** Pages behind the end of the domain are refused one by one. */
  lemma {:induction false} MapRangeRefused(s: St, vp: nat, fp: nat, m: nat, n: nat, flags: Flags)
    requires m <= n && vp + n <= PAGE_NUMBER && fp + n <= PAGE_NUMBER
    requires forall p: Page :: InRange(p, vp, n) && !InRange(p, vp, m) ==> !DomainCheck(s, p, flags)
    ensures MapRange(s, s.cr3, vp, fp, n, flags).mem == MapRange(s, s.cr3, vp, fp, m, flags).mem
    ensures MapRange(s, s.cr3, vp, fp, n, flags).check == s.check
  {
    hide DomainCheck, MapPage;
    if n == m {
      MapRangeChecks(s, vp, fp, n, flags);
    } else {
      assert forall p: Page :: InRange(p, vp, n - 1) ==> InRange(p, vp, n);
      MapRangeRefused(s, vp, fp, m, n - 1, flags);
      var t := MapRange(s, s.cr3, vp, fp, n - 1, flags);
      assert InRange(vp + n - 1, vp, n) && !InRange(vp + n - 1, vp, m);
      PageRefused(s, t, vp + n - 1, fp + n - 1, flags);
    }
  }

  lemma PageRefused(s: St, t: St, page: Page, frame: Frame, flags: Flags)
    requires t.check == s.check && !DomainCheck(s, page, flags)
    ensures MapPage(t, s.cr3, page, frame, flags) == (t, false)
  {
  }

  lemma {:induction false} MapRangeChecks(s: St, vp: nat, fp: nat, n: nat, flags: Flags)
    requires vp + n <= PAGE_NUMBER && fp + n <= PAGE_NUMBER
    ensures MapRange(s, s.cr3, vp, fp, n, flags).check == s.check
  {
    hide MapPage;
    if n > 0 {
      MapRangeChecks(s, vp, fp, n - 1, flags);
      PageChecks(MapRange(s, s.cr3, vp, fp, n - 1, flags), s.cr3, vp + n - 1, fp + n - 1, flags);
    }
  }

  lemma PageChecks(s: St, d: Frame, page: Page, frame: Frame, flags: Flags)
    ensures MapPage(s, d, page, frame, flags).0.check == s.check
  {
    hide Choose, UseMarks, UseHighest, Record, Put, ZeroFrame;
  }

  /**
   With frames for the missing tables, mapping a range that starts inside the domain gives
   the pages of the domain that were unmapped their frames, leaves those that were mapped
   as they were, and refuses those behind the end of the domain.
   */
  lemma MapRangeRest(s: St, vp: nat, fp: nat, n: nat, flags: Flags)
    requires Inv(s) && vp + n <= 1023 * ENTRIES && fp + n <= PAGE_NUMBER && DomainCheck(s, vp, flags)
    requires EnoughFrames(s.marks, |Missing(s.mem, s.cr3, vp, Allowed(s, vp, n, flags))|)
    ensures RestMapped(s, MapRange(s, s.cr3, vp, fp, n, flags), vp, fp, Allowed(s, vp, n, flags), flags)
  {
    hide Inv, Trans, MapRange, DomainCheck, Missing, Unused, OtherDirsKept, RestMapped, Allowed;
    var m := Allowed(s, vp, n, flags);
    forall p: Page | InRange(p, vp, n)
      ensures DomainCheck(s, p, flags) <==> InRange(p, vp, m)
    {
      AllowedExact(s, vp, n, flags, p);
    }
    MapRangeGoesOn(s, vp, fp, m, flags);
    MapRangeRefused(s, vp, fp, m, n, flags);
    RestSame(s, MapRange(s, s.cr3, vp, fp, m, flags).(clean := true), MapRange(s, s.cr3, vp, fp, n, flags), vp, fp, m,
             flags);
  }

  lemma RestSame(s: St, t: St, t1: St, vp: nat, fp: nat, n: nat, flags: Flags)
    requires fp + n <= PAGE_NUMBER && RestMapped(s, t, vp, fp, n, flags) && t1.mem == t.mem
    ensures RestMapped(s, t1, vp, fp, n, flags)
  {
    TransKept(t, t1);
    hide Trans;
  }

  // ----- allocating and freeing

  lemma TakeLeaves(s: St, len: nat, user: bool)
    requires Inv(s) && 0 < len < WORD && Choose(s.marks, len) != 0
    ensures var s1 := Take(s, len, MarkOf(Data(s.next, user)), Data(s.next, user)).0;
            s1.marks[0] == s.marks[0] && |Unused(s1.marks)| == |Unused(s.marks)| - PagesOf(len)
  {
    var f, flag := Choose(s.marks, len), MarkOf(Data(s.next, user));
    var s1 := Take(s, len, flag, Data(s.next, user)).0;
    AllocExact(s.marks, len, flag, 0);
    forall g: Frame
      ensures if f <= g < f + PagesOf(len) then s.marks[g] == UNUSED && s1.marks[g] != UNUSED
              else s1.marks[g] == s.marks[g]
    {
      AllocExact(s.marks, len, flag, g);
    }
    RunTaken(s.marks, s1.marks, f, PagesOf(len));
  }

  /**
   vmm_alloc runs into no trouble if and only if frames and pages are found, none of the
   pages is mapped to frame 0, and single frames are left for the missing tables.
   */
  lemma AllocCleanIff(s: St, len: nat, flags: Flags)
    requires Inv(s) && 0 < len < WORD
    ensures var page, n := FindPages(s.mem, s.cr3, len, flags.user), PagesOf(len);
            Alloc(s, len, flags).0.clean <==>
            && s.clean && Choose(s.marks, len) != 0 && page != 0
            && (forall p: Page :: InRange(p, page, n) ==> Trans(s, s.cr3, p).None?)
            && var missing := |Missing(s.mem, s.cr3, page, n)|;
               missing == 0 || (s.marks[0] != UNUSED && |Unused(s.marks)| >= n + missing)
  {
    hide Inv, Trans, Steady, MapRange, FindPages, Choose, PagesOf, Record, UseMarks, UseHighest, Unused, Missing;
    var page, n := FindPages(s.mem, s.cr3, len, flags.user), PagesOf(len);
    if Choose(s.marks, len) == 0 || page == 0 {
      AllocFails(s, len, flags);
      return;
    }
    TakeData(s, len, flags.user);
    TakeLeaves(s, len, flags.user);
    SpannedPages(page, len);
    var s0 := Take(s, len, PmmFlag(flags), Data(s.next, flags.user)).0;
    TransKept(s, s0);
    MapRangeCleanIff(s0, page, Choose(s.marks, len), n, flags);
    assert forall p: Page :: InRange(p, page, n) ==> InDomain(p, flags.user);
  }

  lemma AllocFails(s: St, len: nat, flags: Flags)
    requires 0 < len < WORD && (Choose(s.marks, len) == 0 || FindPages(s.mem, s.cr3, len, flags.user) == 0)
    ensures !Alloc(s, len, flags).0.clean
  {
    hide FindPages, Choose;
  }

  /** In particular with the tables of the pages at hand. */
  lemma AllocSucceeds(s: St, len: nat, flags: Flags)
    requires Inv(s) && s.clean && 0 < len < WORD && Choose(s.marks, len) != 0
    requires var page := FindPages(s.mem, s.cr3, len, flags.user);
             page != 0 && forall p: Page :: page <= p < page + PagesOf(len) ==>
               s.mem[s.cr3][p / ENTRIES].pr && Trans(s, s.cr3, p).None?
    ensures var (s1, vaddr) := Alloc(s, len, flags);
            s1.clean && vaddr == FindPages(s.mem, s.cr3, len, flags.user) * PAGE_SIZE
  {
    hide Inv, Trans, MapBytes, FindPages, Choose, PagesOf, UseMarks, UseHighest, Record, Unused, Missing;
    var page, n := FindPages(s.mem, s.cr3, len, flags.user), PagesOf(len);
    AllocCleanIff(s, len, flags);
    forall i: Index
      ensures i !in Missing(s.mem, s.cr3, page, n)
    {
      MissingExact(s.mem, s.cr3, page, n, i);
    }
  }

  /** vmm_free runs into no trouble if and only if the guard is never met. */
  lemma FreeCleanIff(s: St, page: Page, len: nat)
    requires Inv(s) && 0 < len < WORD && page + PagesOf(len) <= 1023 * ENTRIES
    ensures Fits(page * PAGE_SIZE, len)
    ensures FreeRange(s, page * PAGE_SIZE, len).clean <==>
            s.clean && forall i: Index :: i < 1023 ==> !Met(s.mem, s.cr3, i, page, PagesOf(len))
  {
    hide Inv, UnmapRange, Met, Walk;
    SpannedPages(page, len);
    UnmapRangeCleanIff(s, page, PagesOf(len));
  }

  /** And it clears exactly its pages if and only if the guard is met for no table but ones whose last page it frees. */
  lemma FreeClearsIff(s: St, page: Page, len: nat)
    requires Inv(s) && 0 < len < WORD && page + PagesOf(len) <= 1023 * ENTRIES
    ensures Fits(page * PAGE_SIZE, len)
    ensures var s1, n := FreeRange(s, page * PAGE_SIZE, len), PagesOf(len);
            (forall p: Page :: Mappable(p) ==>
               Trans(s1, s.cr3, p) == if InRange(p, page, n) then None else Trans(s, s.cr3, p))
            <==> (forall i: Index :: i < 1023 ==> !Loses(s.mem, s.cr3, i, page, n))
  {
    hide Inv, UnmapRange, Loses, Walk, Trans;
    SpannedPages(page, len);
    UnmapRangeClearsIff(s, page, PagesOf(len));
    TransKept(UnmapRange(s, s.cr3, page, PagesOf(len)), FreeRange(s, page * PAGE_SIZE, len));
  }

  /** The frame vmm_free takes for the first of the range: 0 for a page that is unmapped or mapped to frame 0. */
  function FirstFrame(s: St, page: Page): (f: Frame)
    ensures f == 0 <==> var m := Trans(s, s.cr3, page); m.Some? ==> m.value.frame == 0
  {
    var m := Trans(s, s.cr3, page);
    if m.None? then 0 else m.value.frame
  }

  /**
   Whatever is or is not mapped there, vmm_free marks as unused exactly the frames from
   that of the first page on, as many as the length asks for, and the tables it gives up.
   */
  lemma FreeMarks(s: St, page: Page, len: nat)
    requires Inv(s) && 0 < len < WORD && page + PagesOf(len) <= 1023 * ENTRIES
    requires FirstFrame(s, page) + PagesOf(len) <= PAGE_NUMBER
    ensures Fits(page * PAGE_SIZE, len)
    ensures var s1, n := FreeRange(s, page * PAGE_SIZE, len), PagesOf(len);
            && (forall f: Frame :: s1.marks[f] ==
                  if InRange(f, FirstFrame(s, page), n) || GivenUp(s.mem, s.cr3, page, n, f) then UNUSED
                     else s.marks[f])
            && (s.marks[0] != UNUSED ==>
                  (s1.marks[0] == UNUSED <==> var m := Trans(s, s.cr3, page); m.Some? ==> m.value.frame == 0))
  {
    hide UnmapRange, Met, PagesOf, Walk, Trans;
    var n := PagesOf(len);
    SpannedPages(page, len);
    WalkFromTrans(s, s.cr3, page * PAGE_SIZE);
    InvOwnTables(s);
    UnmapRangeMarks(s, page, n);
    LastPage(FirstFrame(s, page), len);
    TablesNotZero(s, page, n);
    assert n > 0 by { SomePages(len); }
    hide Inv;
  }

  lemma SomePages(len: nat)
    requires len > 0
    ensures PagesOf(len) > 0
  {
  }

  lemma TablesNotZero(s: St, vp: nat, n: nat)
    requires Inv(s)
    ensures !GivenUp(s.mem, s.cr3, vp, n, 0)
  {
    forall i: Index | i < 1023 && s.mem[s.cr3][i].pr
      ensures s.mem[s.cr3][i].frame != 0
    {
      assert s.mem[s.cr3][i].frame in s.own;
    }
  }

  /** Freeing a page that is not mapped leaves frame 0 unused, and no single frame can be had any more. */
  lemma FreeUnmapped(s: St, page: Page, len: nat)
    requires Inv(s) && 0 < len <= PAGE_SIZE && Mappable(page) && Trans(s, s.cr3, page).None?
    ensures Fits(page * PAGE_SIZE, len)
    ensures var s1 := FreeRange(s, page * PAGE_SIZE, len);
            s1.marks == s.marks[0 := UNUSED] && s1.mem == s.mem && Choose(s1.marks, PAGE_SIZE) == 0
  {
    hide Inv, Trans, Choose, Walk;
    SpannedPages(page, len);
    assert PagesOf(len) == 1;
    assert UnmapRange(s, s.cr3, page, 0) == s;
    NothingThere(s, page);
    WalkFromTrans(s, s.cr3, page * PAGE_SIZE);
    hide UnmapPage;
    var s1 := FreeRange(s, page * PAGE_SIZE, len);
    assert s1 == Give(s, 0, len);
    assert s1.marks == s.marks[0 := UNUSED];
    FrameZeroStarvesSingleFrames(s1.marks, PAGE_SIZE);
  }

  lemma NothingThere(s: St, page: Page)
    requires Trans(s, s.cr3, page).None?
    ensures UnmapPage(s, s.cr3, page) == s
  {
  }

  // ----- directories

  /** The last page of a listed table is the only one it maps. */
  ghost predicate LastAlone(m: Mem, d: Frame, i: Index) {
    m[d][i].pr && OnlyLast(m[m[d][i].frame])
  }

  /**
   A frame can be made visible for a moment after n single frames have been taken: the
   kernel page found for it is not mapped to frame 0, a frame is left for its table if
   that is missing, and its table does not hold its last page alone, for then making
   the frame invisible again frees the table.
   */
  ghost predicate Room(s: St, n: nat) {
    var page := FindPages(s.mem, s.cr3, PAGE_SIZE, false);
    && page != 0 && Trans(s, s.cr3, page).None? && !LastAlone(s.mem, s.cr3, page / ENTRIES)
    && EnoughFrames(s.marks, n + if s.mem[s.cr3][page / ENTRIES].pr then 0 else 1)
  }

  /** What making a frame visible takes, and what it leaves in the table of its page. */
  lemma ShowCleanIff(s: St, f: Frame)
    requires Inv(s)
    ensures var page := FindPages(s.mem, s.cr3, PAGE_SIZE, false);
            ShowFrame(s, f).0.clean <==>
            && s.clean && page != 0 && Trans(s, s.cr3, page).None?
            && EnoughFrames(s.marks, if s.mem[s.cr3][page / ENTRIES].pr then 0 else 1)
  {
    hide Inv, Trans, FindPages, Unused, MapRange;
    var page := FindPages(s.mem, s.cr3, PAGE_SIZE, false);
    if page != 0 {
      SpannedPages(page, PAGE_SIZE);
      assert PagesOf(PAGE_SIZE) == 1;
      MapRangeCleanIff(s, page, f, 1, KERNEL_FLAGS);
      MissingLast(s.mem, s.cr3, page, 1);
      MissingNone(s.mem, s.cr3, page);
      assert forall p: Page :: InRange(p, page, 1) <==> p == page;
    }
  }

  lemma ShowPage(s: St, f: Frame)
    requires Inv(s) && ShowFrame(s, f).0.clean
    ensures var (s1, page) := ShowFrame(s, f);
            && page == FindPages(s.mem, s.cr3, PAGE_SIZE, false) && Mappable(page)
            && (s1, true) == MapPage(s, s.cr3, page, f, KERNEL_FLAGS)
  {
    hide Inv, Trans, FindPages, MapPage;
    var page := FindPages(s.mem, s.cr3, PAGE_SIZE, false);
    SpannedPages(page, PAGE_SIZE);
    assert PagesOf(PAGE_SIZE) == 1;
    MapNone(s, page, f, KERNEL_FLAGS);
    MapRangeLast(s, page, f, 1, KERNEL_FLAGS);
  }

  /** A page has been mapped: its table without it is what the table was, or empty if there was none. */
  lemma MappedTable(s: St, page: Page, f: Frame, flags: Flags)
    requires Inv(s) && Mappable(page)
    requires var (s1, ok) := MapPage(s, s.cr3, page, f, flags); s1.clean && ok
    ensures var s1 := MapPage(s, s.cr3, page, f, flags).0;
            var i, j := page / ENTRIES, page % ENTRIES;
            var t := s1.mem[s.cr3][i].frame;
            && s1.mem[s.cr3][i].pr && s1.mem[t][j].pr
            && (OnlyLast(s1.mem[t][j := ZERO]) <==> LastAlone(s.mem, s.cr3, i))
  {
    var i, j := page / ENTRIES, page % ENTRIES;
    var s1 := MapPage(s, s.cr3, page, f, flags).0;
    var t := s1.mem[s.cr3][i].frame;
    if s.mem[s.cr3][i].pr {
      assert t == s.mem[s.cr3][i].frame != s.cr3;
      assert forall k: Index :: s1.mem[t][j := ZERO][k].pr == s.mem[t][k].pr;
    } else {
      NewTableShape(s, i);
      assert !s1.mem[t][j := ZERO][1023].pr;
    }
  }

  /** Making the frame invisible again frees its page's table exactly when that holds its last page alone. */
  lemma HideCleanIff(s: St, f: Frame, t: St)
    requires Inv(s) && ShowFrame(s, f).0.clean
    requires var (s1, page) := ShowFrame(s, f);
             && t.cr3 == s.cr3 && t.clean
             && t.mem[s.cr3][page / ENTRIES] == s1.mem[s.cr3][page / ENTRIES]
             && t.mem[s1.mem[s.cr3][page / ENTRIES].frame] == s1.mem[s1.mem[s.cr3][page / ENTRIES].frame]
    ensures var page := ShowFrame(s, f).1;
            HideFrame(t, page).clean <==> !LastAlone(s.mem, s.cr3, page / ENTRIES)
  {
    var (s1, page) := ShowFrame(s, f);
    ShowPage(s, f);
    MappedTable(s, page, f, KERNEL_FLAGS);
    hide Inv, ShowFrame, MapPage, LastAlone, OnlyLast;
    HidePage(t, page);
  }

  lemma HidePage(t: St, page: Page)
    requires t.clean
    ensures HideFrame(t, page).clean <==> !FreesLiveTable(t, page)
  {
    hide OnlyLast, Give, HideFrame;
    HideOne(t, page);
    var pde := t.mem[t.cr3][page / ENTRIES];
    assert Put(t.mem, pde.frame, page % ENTRIES, ZERO)[pde.frame] == t.mem[pde.frame][page % ENTRIES := ZERO];
  }

  /** A directory or data frame is neither the loaded directory nor one of its tables. */
  lemma NotATable(s: St, d: Frame, i: Index)
    requires Inv(s) && d in s.own && (s.own[d].Directory? || s.own[d].Data?) && i < 1023 && s.mem[s.cr3][i].pr
    ensures s.mem[s.cr3][i].frame != d && s.mem[s.cr3][i].frame != s.cr3
  {
    assert s.own[s.mem[s.cr3][i].frame] == RoleOf(s.cr3, i);
  }

  /** vmm_refresh_page_directory runs into no trouble if and only if there is room for a temporary page. */
  lemma RefreshCleanIff(s: St, d: Frame)
    requires Inv(s) && IsDir(s, d)
    ensures Refresh(s, d).clean <==> s.clean && Room(s, 0)
  {
    hide Inv, Trans, FindPages, EnoughFrames, LastAlone, ShowFrame, HideFrame, Grows;
    var (s1, page) := ShowFrame(s, d);
    var s2 := s1.(mem := CopyShared(s1.mem, s1.cr3, d));
    ShowCleanIff(s, d);
    if s1.clean {
      ShowExact(s, d);
      ShowedState(s, s1, d);
      ShowPage(s, d);
      MappedTable(s, page, d, KERNEL_FLAGS);
      NotATable(s1, d, page / ENTRIES);
      HideCleanIff(s, d, s2);
    } else if Refresh(s, d).clean {
      RefreshClean(s1, s2, page);
    }
  }

  lemma ShowedState(s: St, s1: St, d: Frame)
    requires Grows(s, s1, true) && d in s.own
    ensures Inv(s1) && s1.cr3 == s.cr3 && d in s1.own && s1.own[d] == s.own[d]
  {
    hide Inv;
  }

  /** vmm_load_page_directory: and the directory must not lie in the very last frame. */
  lemma LoadCleanIff(s: St, d: Frame)
    requires Inv(s) && IsDir(s, d)
    ensures Load(s, d).clean <==> s.clean && d * PAGE_SIZE != PAGEDIR && Room(s, 0)
  {
    hide Inv, Room, Refresh;
    RefreshCleanIff(s, d);
  }

  /** vmm_create_page_directory: a frame for the directory, and room with one frame less. */
  lemma CreateCleanIff(s: St)
    requires Inv(s)
    ensures Create(s).0.clean <==> s.clean && EnoughFrames(s.marks, 1) && Room(s, 1)
  {
    hide Inv, Trans, FindPages, Unused, LastAlone, ShowFrame, HideFrame, Grows, Choose;
    var (s1, f) := Take(s, PAGE_SIZE, KERNEL, Data(s.next, false));
    var (s2, page) := ShowFrame(s1, f);
    var s3 := s2.(mem := s2.mem[f := EmptyDirectory(f)], own := if f == 0 then s2.own else s2.own[f := Directory]);
    SingleFrameIff(s.marks);
    if s2.clean {
      ShowClean(s1, f);
      assert f != 0;
    } else if Create(s).0.clean {
      RefreshClean(s2, s3, page);
    }
    if f != 0 {
      TakeOneData(s, f);
      TakeLeaves(s, PAGE_SIZE, false);
      TransKept(s, s1);
      ShowCleanIff(s1, f);
      if s2.clean {
        ShowExact(s1, f);
        ShowedState(s1, s2, f);
        ShowPage(s1, f);
        MappedTable(s1, page, f, KERNEL_FLAGS);
        NotATable(s2, f, page / ENTRIES);
        HideCleanIff(s1, f, s3);
      }
    }
  }

  /** vmm_destroy_page_directory. */
  lemma DestroyCleanIff(s: St, d: Frame)
    requires Inv(s) && IsDir(s, d) && d != s.cr3
    ensures Destroy(s, d).clean <==> s.clean && Room(s, 0)
  {
    hide Inv, Trans, FindPages, EnoughFrames, LastAlone, ShowFrame, HideFrame, Grows, DropTable, DropUser, DropFirst;
    var (s1, page) := ShowFrame(s, d);
    var s2 := DropUser(DropFirst(s1, d), d, (USER_END - USER_START) / ENTRIES + 1);
    var s3 := DropTable(s2, d, 1023);
    DropKeeps(s1, d, 0);
    DropUserKeeps(DropFirst(s1, d), d, (USER_END - USER_START) / ENTRIES + 1);
    DropKeeps(s2, d, 1023);
    ShowCleanIff(s, d);
    if s1.clean {
      ShowExact(s, d);
      ShowedState(s, s1, d);
      ShowPage(s, d);
      MappedTable(s, page, d, KERNEL_FLAGS);
      NotATable(s1, d, page / ENTRIES);
      HideCleanIff(s, d, s3);
    } else if Destroy(s, d).clean {
      RefreshClean(s3, s3, page);
    }
  }

  /** Taking a directory apart changes no word of another frame. */
  predicate OnlyFrame(s: St, s1: St, d: Frame) {
    s1.cr3 == s.cr3 && s1.clean == s.clean && forall g: Frame :: g != d ==> s1.mem[g] == s.mem[g]
  }

  lemma DropKeeps(s: St, d: Frame, i: Index)
    ensures OnlyFrame(s, DropTable(s, d, i), d) && OnlyFrame(s, DropFirst(s, d), d)
  {
  }

  lemma DropUserKeeps(s: St, d: Frame, n: nat)
    requires n <= (USER_END - USER_START) / ENTRIES + 1
    ensures OnlyFrame(s, DropUser(s, d, n), d)
  {
    hide DropTable;
    if n > 0 {
      DropUserKeeps(s, d, n - 1);
      DropKeeps(DropUser(s, d, n - 1), d, USER_START / ENTRIES + n - 1);
    }
  }

  // ----- frame 0 given back

  /** The loaded directory in frame 1; kernel table 1 in frame 2 maps its first page only; data in frame 5. */
  ghost function OneDirectory(): St {
    var table: Table := seq(1024, j requires 0 <= j < 1024 => if j == 0 then Entry(true, false, false, 0, 3) else ZERO);
    var dir: Table := seq(1024, i requires 0 <= i < 1024 =>
                        if i == 1 then Entry(true, true, true, 0, 2)
                        else if i == 1023 then Entry(true, false, false, 0, 1) else ZERO);
    St(seq(0x10_0000, f requires 0 <= f < 0x10_0000 =>
             if f == 1 then dir else if f == 2 then table else seq(1024, _ => ZERO)),
       seq(0x10_0000, f requires 0 <= f < 0x10_0000 => if f < 6 then KERNEL else UNUSED),
       5, 1, true, 0, false, map[1 := Directory, 2 := KernelTable(1), 5 := Data(0, false)], 1, true)
  }

  /** The same with a second directory in frame 5. */
  ghost function TwoDirectories(): St {
    var s := OneDirectory();
    s.(mem := s.mem[5 := EmptyDirectory(5)], own := s.own[5 := Directory])
  }

  lemma OneDirectoryWords()
    ensures var s := OneDirectory();
            && s.mem[1][1023] == Entry(true, false, false, 0, 1) && s.mem[1][1] == Entry(true, true, true, 0, 2)
            && (forall i: Index :: s.mem[1][i].pr <==> i == 1 || i == 1023)
            && (forall i: Index :: s.mem[1][i].pr || s.mem[1][i] == ZERO)
            && s.mem[2][0] == Entry(true, false, false, 0, 3) && (forall j: Index :: s.mem[2][j].pr <==> j == 0)
            && (forall f: Frame :: s.marks[f] == if f < 6 then KERNEL else UNUSED)
            && s.own == map[1 := Directory, 2 := KernelTable(1), 5 := Data(0, false)] && s.cr3 == 1 && s.next == 1
  {
  }

  lemma OneDirectoryInv()
    ensures Inv(OneDirectory())
  {
    OneDirectoryWords();
    assert RoleOf(1, 1) == KernelTable(1);
    hide OneDirectory;
    var s := OneDirectory();
    assert forall d: Frame :: IsDir(s, d) <==> d == 1;
    assert forall i: Index :: i < 1023 && s.mem[1][i].pr ==> i == 1;
    assert s.mem[1][1] == Entry(true, true, true, 0, 2) && s.mem[1][1023] == Entry(true, false, false, 0, 1);
  }

  lemma TwoDirectoriesInv()
    ensures Inv(TwoDirectories())
  {
    OneDirectoryInv();
    OneDirectoryWords();
    hide OneDirectory, Inv;
    Promote(OneDirectory(), 5);
  }

  /** The kernel page found is one of table 1, which is there. */
  lemma TwoDirectoriesRoom()
    ensures Room(TwoDirectories(), 0)
  {
    OneDirectoryWords();
    var s := TwoDirectories();
    hide OneDirectory;
    var page := FindPages(s.mem, 1, PAGE_SIZE, false);
    assert PagesOf(PAGE_SIZE) == 1;
    if page == 0 || page > 1025 {
      FindPagesFirst(s.mem, 1, PAGE_SIZE, false, 1025);
    }
    FindPagesFree(s.mem, 1, PAGE_SIZE, false, page);
    hide FindPages;
    assert page == 1025 || page == 1024;
  }

  /** A state that keeps the invariant and in which destroying a directory frees frame 0, with no shortage met. */
  lemma DestroyLosesFrameZero()
    ensures var s := TwoDirectories();
            var s1 := Destroy(s, 5);
            && Inv(s) && IsDir(s, 5) && s.cr3 != 5 && !s.mem[5][0].pr && s1.clean
            && s.marks[0] == KERNEL && s1.marks[0] == UNUSED
  {
    hide Inv, Room, Destroy;
    TwoDirectoriesInv();
    TwoDirectoriesRoom();
    DestroyCleanIff(TwoDirectories(), 5);
    DestroyExact(TwoDirectories(), 5);
  }

  /**
   In the same state: asking for more pages than the kernel domain has loses frames, and
   freeing an unmapped page starves it.
   */
  lemma LostFrames()
    ensures var s := TwoDirectories();
            && Inv(s) && s.marks[6] == UNUSED
            && (var (s1, vaddr) := Alloc(s, 0x4000_0000, KERNEL_FLAGS); vaddr == 0 && s1.marks[6] == KERNEL)
            && Trans(s, 1, 1025).None? && Choose(s.marks, PAGE_SIZE) != 0
            && Choose(FreeRange(s, 1025 * PAGE_SIZE, 1).marks, PAGE_SIZE) == 0
  {
    hide Inv;
    TwoDirectoriesInv();
    OneDirectoryWords();
    var s := TwoDirectories();
    hide OneDirectory;
    SixthFrame(s.marks, 0x4000_0000);
    SixthFrame(s.marks, PAGE_SIZE);
    assert PagesOf(0x4000_0000) == 0x4_0000;
    assert FindPages(s.mem, s.cr3, 0x4000_0000, false) == 0;
    AllocFailure(s, 0x4000_0000, KERNEL_FLAGS);
    SecondPage(s);
    FreeUnmapped(s, 1025, 1);
    hide TwoDirectories, Alloc, FreeRange, Choose, FindPages;
  }

  lemma SecondPage(s: St)
    requires s.mem[s.cr3][1].pr && !s.mem[s.mem[s.cr3][1].frame][1].pr
    ensures Trans(s, s.cr3, 1025).None?
  {
  }

  lemma SixthFrame(marks: Marks, len: nat)
    requires forall f: Frame :: marks[f] == if f < 6 then KERNEL else UNUSED
    requires 0 < len <= 0x4000_0000
    ensures Choose(marks, len) == 6
  {
    ChooseSucceedsIff(marks, len);
    var n := PagesOf(len);
    assert 0 < n <= 0x4_0000;
    assert IsRun(Free(marks), 6, n);
    forall i: nat | i < 6
      ensures !IsRun(Free(marks), i, n)
    {
      assert !Free(marks)[i];
    }
  }
}
