/**
 Memory at addresses the caller chooses: taking and mapping it, and what writing to it
 through a directory does to physical memory.
 */
module UserMemory {
  import opened Common
  import opened Pmm
  import opened Paging
  import opened Bytes
  import opened Space
  import opened Ranges
  import opened Allocation
  import opened Directories
  import opened TaskMemory

  // ----- memory at a given virtual address

  /** vmm_use_virtual_memory; a frame run that would pass the end of memory counts as trouble. */
  ghost function UseVirtual(s: St, vaddr: nat, len: nat, flags: Flags): (St, nat)
    requires len < WORD && Fits(vaddr, len) && vaddr < WORD
  {
    if !DomainCheck(s, vaddr / PAGE_SIZE, flags) then (s, 0)
    else
      var (s1, f) := Take(s, len, PmmFlag(flags), Data(s.next, flags.user));
      if f == 0 then (s1, 0)
      else if len == 0 || f + Spanned(vaddr, len) > PAGE_NUMBER then (s1.(clean := false), f * PAGE_SIZE)
      else (MapBytes(s1, s1.cr3, vaddr, f * PAGE_SIZE, len, flags), f * PAGE_SIZE)
  }

  /**
   The pages mapped are as many as the frames taken exactly when the offset in the
   first page and the length modulo the page size leave room; else there is one more.
   */
  lemma SpannedIsTaken(vaddr: nat, len: nat)
    requires len > 0
    ensures Spanned(vaddr, len) == PagesOf(len) <==> vaddr % PAGE_SIZE + (len - 1) % PAGE_SIZE < PAGE_SIZE
    ensures Spanned(vaddr, len) != PagesOf(len) ==> Spanned(vaddr, len) == PagesOf(len) + 1
  {
    var (p, o, n, r) := (vaddr / PAGE_SIZE, vaddr % PAGE_SIZE, (len - 1) / PAGE_SIZE, (len - 1) % PAGE_SIZE);
    assert vaddr + len - 1 == PAGE_SIZE * (p + n) + (o + r);
    assert PagesOf(len) == n + 1;
  }

  /** When there is one more, the last page is mapped to a frame that was not taken for it. */
  lemma UnalignedMapsForeignFrame(s: St, vaddr: nat, len: nat, flags: Flags)
    requires Inv(s) && 0 < len < WORD && Fits(vaddr, len) && UseVirtual(s, vaddr, len, flags).0.clean
    requires vaddr % PAGE_SIZE + (len - 1) % PAGE_SIZE >= PAGE_SIZE
    requires UseVirtual(s, vaddr, len, flags).1 != 0 && (vaddr + len - 1) / PAGE_SIZE < 1023 * ENTRIES
    ensures var s1 := UseVirtual(s, vaddr, len, flags).0;
            var m := Trans(s1, s.cr3, (vaddr + len - 1) / PAGE_SIZE);
            && m.Some? && m.value.frame == Choose(s.marks, len) + PagesOf(len)
            && !(m.value.frame in s1.own && HasTag(s1.own[m.value.frame], s.next))
  {
    hide Inv, Trans, Steady, Choose, PagesOf, Spanned, MapRange, UseMarks, UseHighest, Record, AddsTables,
      OtherDirsKept;
    SpannedIsTaken(vaddr, len);
    var (s0, f) := Take(s, len, PmmFlag(flags), Data(s.next, flags.user));
    TakeData(s, len, flags.user);
    GrowsRefl(s0, true);
    SpannedRange(vaddr, len);
    MapRangeExact(s0, vaddr / PAGE_SIZE, f, Spanned(vaddr, len), flags);
    MapRangeGrows(s0, vaddr / PAGE_SIZE, f, Spanned(vaddr, len), flags, false);
    OldTags(s);
    ForeignFrame(s, s0, UseVirtual(s, vaddr, len, flags).0, f, PagesOf(len), flags);
  }

  lemma ForeignFrame(s: St, s0: St, s1: St, f: Frame, n: nat, flags: Flags)
    requires forall g <- s.own :: !HasTag(s.own[g], s.next)
    requires s0.own == Record(s.own, f, f + n - 1, Data(s.next, flags.user))
             && AddsTables(s0.own, s1.own, s0.cr3, false)
    ensures forall g <- s1.own :: HasTag(s1.own[g], s.next) ==> f <= g < f + n
  {
  }

  lemma SpannedRange(vaddr: nat, len: nat)
    requires len > 0 && Fits(vaddr, len)
    ensures vaddr / PAGE_SIZE + Spanned(vaddr, len) == (vaddr + len - 1) / PAGE_SIZE + 1
    ensures vaddr / PAGE_SIZE + Spanned(vaddr, len) <= PAGE_NUMBER
  {
  }

  // ----- data survives mapping

  /** Mapping pages never touches the contents of allocated data. */
  lemma MapKeepsData(s: St, page: Page, frame: Frame, flags: Flags, g: Frame)
    requires Inv(s) && Mappable(page) && MapPage(s, s.cr3, page, frame, flags).0.clean
    requires g in s.own && s.own[g].Data?
    ensures MapPage(s, s.cr3, page, frame, flags).0.mem[g] == s.mem[g]
  {
    var i := page / ENTRIES;
    if DomainCheck(s, page, flags) {
      if s.mem[s.cr3][i].pr {
        assert s.own[s.mem[s.cr3][i].frame] == RoleOf(s.cr3, i);
      } else {
        NewTableShape(s, i);
      }
    }
  }

  lemma {:induction false} MapRangeKeepsData(s: St, vp: nat, fp: nat, n: nat, flags: Flags, g: Frame)
    requires Inv(s) && vp + n <= 1023 * ENTRIES && fp + n <= PAGE_NUMBER && MapRange(s, s.cr3, vp, fp, n, flags).clean
    requires g in s.own && s.own[g].Data?
    ensures MapRange(s, s.cr3, vp, fp, n, flags).mem[g] == s.mem[g]
  {
    hide Inv, MapPage, Steady, OtherDirsKept;
    if n > 0 {
      MapRangeClean(s, s.cr3, vp, fp, n, flags);
      MapRangeKeepsData(s, vp, fp, n - 1, flags, g);
      MapRangeGrows(s, vp, fp, n - 1, flags, false);
      MapKeepsData(MapRange(s, s.cr3, vp, fp, n - 1, flags), vp + n - 1, fp + n - 1, flags, g);
    }
  }

  /** Writing into allocated data changes no directory and no translation. */
  lemma WriteKeepsSpace(s: St, m: Mem, f: Frame, n: nat)
    requires Inv(s)
    requires forall g: Frame :: f <= g < f + n ==> g in s.own && s.own[g].Data?
    requires forall g: Frame :: !(f <= g < f + n) ==> m[g] == s.mem[g]
    ensures Inv(s.(mem := m))
    ensures forall d: Frame, p: Page :: IsDir(s, d) && Mappable(p) ==> Trans(s.(mem := m), d, p) == Trans(s, d, p)
  {
    var s1 := s.(mem := m);
    assert forall d: Frame :: IsDir(s, d) ==> m[d] == s.mem[d];
    forall d: Frame, p: Page | IsDir(s, d) && Mappable(p)
      ensures Trans(s1, d, p) == Trans(s, d, p)
    {
      if s.mem[d][p / ENTRIES].pr {
        assert s.own[s.mem[d][p / ENTRIES].frame] == RoleOf(d, p / ENTRIES);
      }
    }
    SameDirWords(s, m);
  }

  lemma SameDirWords(s: St, m: Mem)
    requires Inv(s) && forall d: Frame :: IsDir(s, d) ==> m[d] == s.mem[d]
    ensures Inv(s.(mem := m))
  {
    assert forall d: Frame :: IsDir(s.(mem := m), d) <==> IsDir(s, d);
  }

  // ----- writing through a directory

  /** The bytes of data stored one after the other from virtual address v on; a page fault stores nothing. */
  function WriteVirtual(m: Mem, dir: Frame, v: nat, data: seq<Byte>): Mem
    requires v + |data| <= WORD
  {
    if data == [] then m
    else
      var m1 := WriteVirtual(m, dir, v, data[..|data| - 1]);
      var a := Walk(m1, dir, v + |data| - 1);
      if a.None? then m1 else WriteByte(m1, a.value, data[|data| - 1])
  }

  ghost predicate UsedBy(m: Mem, dir: Frame, f: Frame) {
    f == dir || exists i: Index :: m[dir][i].pr && m[dir][i].frame == f
  }

  /** The n bytes from v on translate to those from p on, in frames the directory does not use itself. */
  ghost predicate RunAt(m: Mem, dir: Frame, v: nat, p: nat, n: nat) {
    && v + n <= WORD && p + n <= WORD
    && (forall k {:trigger Walk(m, dir, k)} :: v <= k < v + n ==> Walk(m, dir, k) == Some(p + (k - v)))
    && (forall f: Frame :: UsedBy(m, dir, f) ==> f < p / PAGE_SIZE || (p + n - 1) / PAGE_SIZE < f)
  }

  lemma RunShorter(m: Mem, dir: Frame, v: nat, p: nat, n: nat, n': nat)
    requires RunAt(m, dir, v, p, n) && n' <= n
    ensures RunAt(m, dir, v, p, n')
  {
    hide Walk, UsedBy;
  }

  lemma SameWalk(m: Mem, m1: Mem, dir: Frame, v: nat)
    requires v < WORD && forall f: Frame :: UsedBy(m, dir, f) ==> m1[f] == m[f]
    ensures Walk(m1, dir, v) == Walk(m, dir, v)
  {
    assert UsedBy(m, dir, dir);
    assert m[dir][v / PAGE_SIZE / ENTRIES].pr ==> UsedBy(m, dir, m[dir][v / PAGE_SIZE / ENTRIES].frame);
  }

  lemma RunElsewhere(m: Mem, dir: Frame, v: nat, p: nat, data: seq<Byte>)
    requires RunAt(m, dir, v, p, |data|)
    ensures forall f: Frame :: UsedBy(m, dir, f) ==> WriteRun(m, p, data)[f] == m[f]
  {
    hide Walk, UsedBy;
    forall f: Frame | UsedBy(m, dir, f)
      ensures WriteRun(m, p, data)[f] == m[f]
    {
      WriteRunFrames(m, p, data, f);
    }
  }

  lemma SameUse(m: Mem, m1: Mem, dir: Frame)
    requires m1[dir] == m[dir]
    ensures forall f: Frame :: UsedBy(m1, dir, f) ==> UsedBy(m, dir, f)
  {
  }

  /** There, storing through the directory is storing in physical memory. */
  lemma {:induction false} VirtualRun(m: Mem, dir: Frame, v: nat, p: nat, data: seq<Byte>)
    requires RunAt(m, dir, v, p, |data|)
    ensures WriteVirtual(m, dir, v, data) == WriteRun(m, p, data)
  {
    hide Walk, WriteByte, UsedBy;
    if data != [] {
      var init := data[..|data| - 1];
      RunShorter(m, dir, v, p, |data|, |init|);
      VirtualRun(m, dir, v, p, init);
      RunElsewhere(m, dir, v, p, init);
      SameWalk(m, WriteRun(m, p, init), dir, v + |data| - 1);
    }
  }

  lemma SameRun(m: Mem, dir: Frame, v: nat, p: nat, data: seq<Byte>)
    requires RunAt(m, dir, v, p, |data|)
    ensures RunAt(WriteRun(m, p, data), dir, v, p, |data|)
  {
    hide Walk, WriteRun;
    var m1 := WriteRun(m, p, data);
    RunElsewhere(m, dir, v, p, data);
    assert UsedBy(m, dir, dir);
    SameUse(m, m1, dir);
    hide UsedBy;
    forall k | v <= k < v + |data|
      ensures Walk(m1, dir, k) == Walk(m, dir, k)
    {
      SameWalk(m, m1, dir, k);
    }
  }

  lemma WriteNothing(m: Mem, p: nat)
    requires p <= WORD
    ensures WriteRun(m, p, []) == m
  {
  }

  /** The n addresses from v on lead to different bytes, in frames the directory does not use itself. */
  ghost predicate Reaches(m: Mem, dir: Frame, v: nat, n: nat) {
    && v + n <= WORD
    && (forall k {:trigger Walk(m, dir, k)} :: v <= k < v + n ==>
          var a := Walk(m, dir, k); a.Some? && a.value < WORD && !UsedBy(m, dir, a.value / PAGE_SIZE))
    && (forall k, l {:trigger Walk(m, dir, k), Walk(m, dir, l)} :: v <= k < v + n && v <= l < v + n && k != l ==>
          Walk(m, dir, k) != Walk(m, dir, l))
  }

  /** The byte an address leads to. */
  function ByteThrough(m: Mem, dir: Frame, v: nat): Byte
    requires v < WORD
  {
    var a := Walk(m, dir, v);
    if a.Some? && a.value < WORD then ReadByte(m, a.value) else 0
  }

  /**
   Memory m1 is m with data stored from v on: the n addresses lead where they led, and read
   as the data and then as before.
   */
  ghost predicate Stored(m: Mem, m1: Mem, dir: Frame, v: nat, n: nat, data: seq<Byte>)
    requires v + n <= WORD
  {
    && (forall f: Frame :: UsedBy(m, dir, f) ==> m1[f] == m[f])
    && (forall k {:trigger Walk(m1, dir, k)} :: v <= k < v + n ==> Walk(m1, dir, k) == Walk(m, dir, k))
    && (forall k {:trigger ByteThrough(m1, dir, k)} :: v <= k < v + n ==>
          ByteThrough(m1, dir, k) == if k - v < |data| then data[k - v] else ByteThrough(m, dir, k))
  }

  /** There, what is stored through the directory is what is read through it, wherever the pages lie. */
  lemma {:induction false} VirtualBytes(m: Mem, dir: Frame, v: nat, n: nat, data: seq<Byte>)
    requires Reaches(m, dir, v, n) && |data| <= n
    ensures Stored(m, WriteVirtual(m, dir, v, data), dir, v, n, data)
  {
    hide Walk, UsedBy, WriteByte, ReadByte;
    if data != [] {
      var init, last := data[..|data| - 1], v + |data| - 1;
      VirtualBytes(m, dir, v, n, init);
      var m0 := WriteVirtual(m, dir, v, init);
      var a := Walk(m, dir, last).value;
      var m1 := WriteByte(m0, a, data[|data| - 1]);
      assert Walk(m0, dir, last) == Walk(m, dir, last);
      assert WriteVirtual(m, dir, v, data) == m1;
      forall f: Frame | UsedBy(m, dir, f)
        ensures m1[f] == m[f]
      {
        OtherFrameKept(m0, a, data[|data| - 1], f);
      }
      forall k | v <= k < v + n
        ensures Walk(m1, dir, k) == Walk(m, dir, k)
        ensures ByteThrough(m1, dir, k) == if k - v < |data| then data[k - v] else ByteThrough(m, dir, k)
      {
        SameWalk(m, m1, dir, k);
        WriteByteExact(m0, a, data[|data| - 1], Walk(m, dir, k).value);
        assert k != last ==> Walk(m, dir, k) != Walk(m, dir, last);
        assert ByteThrough(m0, dir, k) == if k - v < |init| then init[k - v] else ByteThrough(m, dir, k);
      }
    }
  }

  lemma OtherFrameKept(m: Mem, a: nat, b: Byte, f: Frame)
    requires a < WORD && a / PAGE_SIZE != f
    ensures WriteByte(m, a, b)[f] == m[f]
  {
  }

  // ----- data survives a change of directory

  lemma UnmapKeepsData(s: St, page: Page, g: Frame)
    requires Inv(s) && Mappable(page) && UnmapPage(s, s.cr3, page).clean && g in s.own && s.own[g].Data?
    ensures UnmapPage(s, s.cr3, page).mem[g] == s.mem[g]
  {
    var i := page / ENTRIES;
    if s.mem[s.cr3][i].pr {
      assert s.own[s.mem[s.cr3][i].frame] == RoleOf(s.cr3, i);
    }
  }

  lemma ShowKeepsData(s: St, f: Frame, g: Frame)
    requires Inv(s) && ShowFrame(s, f).0.clean && g in s.own && s.own[g].Data?
    ensures var s1 := ShowFrame(s, f).0; s1.mem[g] == s.mem[g] && g in s1.own && s1.own[g] == s.own[g]
  {
    hide Inv, Steady, Trans, MapRange, OtherDirsKept, OnlyMapped;
    var page := FindPages(s.mem, s.cr3, PAGE_SIZE, false);
    SpannedPages(page, PAGE_SIZE);
    assert PagesOf(PAGE_SIZE) == 1;
    MapRangeGrows(s, page, f, 1, KERNEL_FLAGS, true);
    MapRangeKeepsData(s, page, f, 1, KERNEL_FLAGS, g);
  }

  lemma HideKeepsData(s: St, page: Page, g: Frame)
    requires Inv(s) && InDomain(page, false) && HideFrame(s, page).clean && g in s.own && s.own[g].Data?
    ensures HideFrame(s, page).mem[g] == s.mem[g]
  {
    hide Inv, UnmapPage;
    SpannedPages(page, PAGE_SIZE);
    assert PagesOf(PAGE_SIZE) == 1;
    assert UnmapRange(s, s.cr3, page, 1) == UnmapPage(UnmapRange(s, s.cr3, page, 0), s.cr3, page);
    UnmapKeepsData(s, page, g);
  }

  /** Loading a directory touches no allocated data. */
  lemma LoadKeepsData(s: St, d: Frame, g: Frame)
    requires Inv(s) && IsDir(s, d) && Load(s, d).clean && g in s.own && s.own[g].Data?
    ensures Load(s, d).mem[g] == s.mem[g]
  {
    hide Inv, Steady, Trans, AddsTables, MapBytes, UnmapBytes, ShowFrame, HideFrame, OnlyMapped;
    var (s1, page) := ShowFrame(s, d);
    var s2 := s1.(mem := CopyShared(s1.mem, s1.cr3, d));
    RefreshClean(s1, s2, page);
    ShowExact(s, d);
    ShowKeepsData(s, d, g);
    CopyExact(s1, d);
    HideKeepsData(s2, page, g);
  }
}
