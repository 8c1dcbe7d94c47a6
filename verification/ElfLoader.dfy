/** The loader as it runs, on top of the virtual memory manager. */
module ElfLoader {
  import opened Common
  import opened Pmm
  import opened Paging
  import opened Bytes
  import opened Space
  import opened Ranges
  import opened Allocation
  import opened TaskMemory
  import opened UserMemory
  import opened Elf
  import opened Vmm
  import Directories

  /** vmm_use_virtual_memory. */
  method UseVirtualMemory(mm: MemoryManager, vaddr: nat, len: nat, flags: Flags) returns (paddr: nat)
    requires mm.Ready() && mm.paging && len < WORD && vaddr < WORD && Fits(vaddr, len)
    requires len > 0 ==> Fits(vaddr, len + PAGE_SIZE * ENTRIES)
    requires UseVirtual(mm.State(), vaddr, len, flags).0.clean
    modifies mm`mem, mm`own, mm`next, mm`clean, mm.pmm, mm.pmm.bitmap
    ensures mm.Ready()
    ensures (mm.State(), paddr) == UseVirtual(old(mm.State()), vaddr, len, flags)
  {
    hide Editable, MarksOf, MapBytes, Choose, UseMarks, UseHighest, Record, PagesOf, MemoryManager.Reachable;
    ghost var s := mm.State();
    if mm.domainCheckEnabled && !InDomain(vaddr / PAGE_SIZE, flags.user) {
      return 0;
    }
    mm.TakeEditable(s, len, PmmFlag(flags), Data(mm.next, flags.user));
    paddr := mm.TakeFrames(len, PmmFlag(flags), Data(mm.next, flags.user));
    if paddr == 0 {
      return;
    }
    mm.ChooseFits(s.marks, len);
    mm.MapRange(vaddr, paddr, len, flags);
  }

  /** memset and memcpy: one byte after the other, each at the address the loaded directory gives. */
  method StoreBytes(mm: MemoryManager, vaddr: nat, data: seq<Byte>)
    requires mm.paging && vaddr + |data| <= WORD
    modifies mm`mem
    ensures mm.mem == WriteVirtual(old(mm.mem), mm.cr3, vaddr, data)
  {
    hide Walk, WriteByte;
    var i := 0;
    while i < |data|
      invariant 0 <= i <= |data|
      invariant mm.mem == WriteVirtual(old(mm.mem), mm.cr3, vaddr, data[..i])
    {
      assert data[..i + 1][..i] == data[..i];
      var a := mm.Target(vaddr + i);
      if a.Some? {
        WalkInMemory(mm.mem, mm.cr3, vaddr + i);
        mm.mem := WriteByte(mm.mem, a.value, data[i]);
      }
      i := i + 1;
    }
    assert data[..i] == data;
  }

  lemma WalkInMemory(m: Mem, dir: Frame, va: nat)
    requires va < WORD && Walk(m, dir, va).Some?
    ensures Walk(m, dir, va).value < WORD
  {
  }

  lemma {:induction false} PrefixClean(s: St, segs: seq<Segment>, file: seq<Byte>, n: nat)
    requires (forall g <- segs :: Loadable(g, file)) && LoadSegments(s, segs, file).clean && n <= |segs|
    ensures LoadSegments(s, segs[..n], file).clean
    decreases |segs|
  {
    hide LoadSegment, Loadable;
    if n == |segs| {
      assert segs[..n] == segs;
    } else {
      var init := segs[..|segs| - 1];
      SegmentCleans(LoadSegments(s, init, file), segs[|segs| - 1], file);
      PrefixClean(s, init, file, n);
      assert init[..n] == segs[..n];
    }
  }

  /** One loadable entry. */
  method LoadEntry(mm: MemoryManager, g: Segment, file: seq<Byte>)
    requires mm.Ready() && mm.paging && Inv(mm.State())
    requires Loadable(g, file) && g.load && LoadSegment(mm.State(), g, file).clean
    modifies mm`mem, mm`own, mm`next, mm`clean, mm.pmm, mm.pmm.bitmap
    ensures mm.Ready() && mm.State() == LoadSegment(old(mm.State()), g, file)
    ensures Inv(mm.State()) && SameSwitches(old(mm.State()), mm.State())
  {
    hide Inv, UseVirtual, WriteVirtual, Editable, MarksOf, PagesOf, Adds, Held, HasContents;
    ghost var s := mm.State();
    if g.memsz > 0 {
      SegmentStep(s, g, file);
      AddsInv(s, LoadSegment(s, g, file), Owner(SegmentPiece(s, g), s.cr3));
    } else {
      NotLoaded(s, g, file);
    }
    NoDirZero(LoadSegment(s, g, file));
    InvEditable(LoadSegment(s, g, file), s.cr3);
    RoomBelowWindow(g, file);
    var p := UseVirtualMemory(mm, g.vaddr, g.memsz, Flags(true, g.writable));
    StoreBytes(mm, g.vaddr, Zeros(g.memsz));
    StoreBytes(mm, g.vaddr, FileBytes(g, file));
    EditableMaps(mm.mem, mm.pmm.Marks(), mm.cr3);
  }

  lemma EditableMaps(m: Mem, marks: Marks, d: Frame)
    requires Editable(m, marks, d)
    ensures SelfMapped(m, d)
  {
  }

  lemma RoomBelowWindow(g: Segment, file: seq<Byte>)
    requires Loadable(g, file) && g.load
    ensures g.memsz > 0 ==> Fits(g.vaddr, g.memsz + PAGE_SIZE * ENTRIES)
  {
  }

  method LoadEntries(mm: MemoryManager, segs: seq<Segment>, file: seq<Byte>)
    requires mm.pmm.Valid() && mm.Ready() && mm.paging && Inv(mm.State()) && mm.State().clean
    requires (forall g <- segs :: Loadable(g, file)) && LoadSegments(mm.State(), segs, file).clean
    modifies mm`mem, mm`own, mm`next, mm`clean, mm.pmm, mm.pmm.bitmap
    ensures mm.Ready() && mm.State() == LoadSegments(old(mm.State()), segs, file)
    ensures Inv(mm.State())
  {
    hide Inv, LoadSegment, MarksOf, Loadable, MemoryManager.Ready;
    ghost var s := mm.State();
    var i := 0;
    while i < |segs|
      invariant 0 <= i <= |segs| && mm.pmm.Valid() && mm.Ready() && Inv(mm.State())
      invariant mm.State() == LoadSegments(s, segs[..i], file)
    {
      PrefixClean(s, segs, file, i + 1);
      assert segs[..i + 1][..i] == segs[..i];
      if segs[i].load {
        LoadEntry(mm, segs[i], file);
      } else {
        NotLoaded(mm.State(), segs[i], file);
      }
      i := i + 1;
    }
    assert segs[..i] == segs;
  }

  lemma EnterDirectory(s: St, dir: Frame)
    requires Inv(s) && s.saved == 0 && IsDir(s, dir) && s.clean && Modify(s, dir).clean
    ensures var s1 := Modify(s, dir);
            && Inv(s1) && s1.cr3 == dir && s1.saved == s.cr3 && s.cr3 != 0 && Directories.CanLoad(s, dir)
            && TookOnly(s1, s1, dir, []) && IsDir(s1, dir) && IsDir(s1, s.cr3)
  {
    hide Inv, Directories.Load, Directories.CanLoad;
    NoDirZero(s);
    Directories.LoadShows(s, dir);
    AddedKernelTables(s, dir, s.cr3);
    TookNothing(Modify(s, dir), dir);
  }

  lemma LeaveDirectory(s: St, segs: seq<Segment>, file: seq<Byte>, dir: Frame)
    requires Inv(s) && s.saved == 0 && IsDir(s, dir) && s.clean && Modify(s, dir).clean
    requires (forall g <- segs :: Loadable(g, file)) && LoadSegments(Modify(s, dir), segs, file).clean
    ensures var s2 := LoadSegments(Modify(s, dir), segs, file);
            s2.saved == s.cr3 && IsDir(s2, s.cr3)
  {
    hide Inv, Modify, LoadSegments, Loadable, TookOnly, Loaded, Directories.Load;
    EnterDirectory(s, dir);
    var s1 := Modify(s, dir);
    LoadSegmentsExact(s1, s1, segs, file);
    TookInv(s1, LoadSegments(s1, segs, file), dir, Pieces(s1, segs, file));
  }

  /** elf_load: enters the directory, handles one entry after the other, and returns to the directory loaded before. */
  method Load(mm: MemoryManager, h: Header, segs: seq<Segment>, file: seq<Byte>, dir: Frame) returns (entry: nat)
    requires mm.Ready() && mm.paging && mm.oldDirectory == 0 && Inv(mm.State()) && IsDir(mm.State(), dir)
    requires (forall g <- segs :: Loadable(g, file)) && ElfLoad(mm.State(), h, segs, file, dir).0.clean
             && mm.State().clean
    modifies mm`mem, mm`own, mm`next, mm`clean, mm`cr3, mm`paging, mm`pageDirectory, mm`oldDirectory, mm.pmm,
      mm.pmm.bitmap
    ensures mm.Ready() && mm.paging && mm.oldDirectory == 0
    ensures (mm.State(), entry) == ElfLoad(old(mm.State()), h, segs, file, dir)
    ensures if h.magic == [0x7F, 0x45, 0x4C, 0x46] && h.bitClass == 1 && h.data == 1 && h.identVersion == 1
               && h.version == 1 && h.kind == 2 && h.machine == 3
            then entry == h.entry else entry == 0 && mm.State() == old(mm.State())
  {
    hide Inv, Directories.Load, Directories.CanLoad, LoadSegment, MarksOf, Loadable, Loaded, Editable,
      MemoryManager.Reachable;
    if !Suitable(h) {
      return 0;
    }
    ghost var s := mm.State();
    NoDirZero(s);
    ElfLoadClean(s, h, segs, file, dir);
    EnterDirectory(s, dir);
    LeaveDirectory(s, segs, file, dir);
    mm.ModifyDirectory(dir);
    LoadEntries(mm, segs, file);
    Directories.LoadShows(mm.State(), s.cr3);
    mm.ModifiedDirectory();
    return h.entry;
  }

  // ----- unloading

  lemma {:induction false} FreePrefixClean(s: St, segs: seq<Segment>, n: nat)
    requires (forall g <- segs :: g.load ==> Fits(g.vaddr, g.memsz)) && FreeSegments(s, segs).clean && n <= |segs|
    ensures FreeSegments(s, segs[..n]).clean
    decreases |segs|
  {
    hide FreeSegment;
    if n == |segs| {
      assert segs[..n] == segs;
    } else {
      var init := segs[..|segs| - 1];
      FreeSegmentCleans(FreeSegments(s, init), segs[|segs| - 1]);
      FreePrefixClean(s, init, n);
      assert init[..n] == segs[..n];
    }
  }

  lemma HeldBlock(s: St, g: Segment, q: Piece)
    requires Inv(s) && g.load && Matches(g, q) && Held(s, s.cr3, q, true)
    ensures g.memsz < WORD
    ensures g.memsz > 0 ==>
              && g.vaddr % PAGE_SIZE == 0 && q.base != 0
              && Block(s, s.cr3, g.vaddr / PAGE_SIZE, q.base, PagesOf(g.memsz))
  {
    hide Inv, Trans, PagesOf;
  }

  /** The loop of elf_unload; qs are the allocations the entries hold. */
  method FreeEntries(mm: MemoryManager, segs: seq<Segment>, ghost qs: seq<Piece>)
    requires mm.pmm.Valid() && mm.Ready() && mm.paging && Inv(mm.State()) && mm.State().clean
    requires (forall g <- segs :: g.load ==> Fits(g.vaddr, g.memsz)) && FreeSegments(mm.State(), segs).clean
    requires HeldAll(mm.State(), mm.cr3, segs, qs)
    modifies mm`mem, mm`own, mm`clean, mm.pmm, mm.pmm.bitmap
    ensures mm.Ready() && mm.State() == FreeSegments(old(mm.State()), segs)
    ensures Inv(mm.State())
  {
    hide Inv, FreeRange, MarksOf, MemoryManager.Ready, Held, GaveOnly;
    ghost var s := mm.State();
    var i := 0;
    while i < |segs|
      invariant 0 <= i <= |segs| && mm.pmm.Valid() && mm.Ready() && Inv(mm.State())
      invariant mm.State() == FreeSegments(s, segs[..i])
    {
      FreePrefixClean(s, segs, i);
      FreePrefixClean(s, segs, i + 1);
      assert segs[..i + 1][..i] == segs[..i];
      FreeSome(s, segs, qs, i);
      FreeSome(s, segs, qs, i + 1);
      GaveInv(s, FreeSegments(s, segs[..i + 1]), qs[..i + 1]);
      if segs[i].load {
        HeldBlock(mm.State(), segs[i], qs[i]);
        mm.BlockFreeable(segs[i].vaddr, segs[i].memsz, qs[i].base);
        mm.Free(segs[i].vaddr, segs[i].memsz);
      }
      i := i + 1;
    }
    assert segs[..i] == segs;
  }

  lemma UnloadDirectories(s: St, segs: seq<Segment>, dir: Frame, qs: seq<Piece>)
    requires Inv(s) && s.saved == 0 && IsDir(s, dir) && s.clean && Modify(s, dir).clean && HeldAll(s, dir, segs, qs)
    requires (forall g <- segs :: g.load ==> Fits(g.vaddr, g.memsz)) && FreeSegments(Modify(s, dir), segs).clean
    ensures var s1 := Modify(s, dir);
            var s2 := FreeSegments(s1, segs);
            HeldAll(s1, dir, segs, qs) && s2.saved == s.cr3 && IsDir(s2, s.cr3)
  {
    hide Inv, Held, FreeSegments, GaveOnly, Directories.Load;
    EnterDirectory(s, dir);
    AddedKernelTables(s, dir, s.cr3);
    NoDirZero(s);
    var s1 := Modify(s, dir);
    assert segs[..|segs|] == segs;
    FreeSome(s1, segs, qs, |segs|);
    GaveInv(s1, FreeSegments(s1, segs), qs[..|segs|]);
  }

  /** elf_unload. */
  method Unload(mm: MemoryManager, h: Header, segs: seq<Segment>, dir: Frame, ghost qs: seq<Piece>)
    requires mm.Ready() && mm.paging && mm.oldDirectory == 0 && Inv(mm.State()) && IsDir(mm.State(), dir)
             && mm.State().clean
    requires (forall g <- segs :: g.load ==> Fits(g.vaddr, g.memsz)) && ElfUnload(mm.State(), h, segs, dir).clean
    requires Suitable(h) ==> HeldAll(mm.State(), dir, segs, qs)
    modifies mm`mem, mm`own, mm`next, mm`clean, mm`cr3, mm`paging, mm`pageDirectory, mm`oldDirectory, mm.pmm,
      mm.pmm.bitmap
    ensures mm.Ready() && mm.paging && mm.oldDirectory == 0
    ensures mm.State() == ElfUnload(old(mm.State()), h, segs, dir)
  {
    hide Inv, Directories.Load, Directories.CanLoad, FreeSegments, MarksOf, Held, Editable, MemoryManager.Reachable;
    if !Suitable(h) {
      return;
    }
    ghost var s := mm.State();
    NoDirZero(s);
    ElfUnloadClean(s, h, segs, dir);
    EnterDirectory(s, dir);
    UnloadDirectories(s, segs, dir, qs);
    mm.ModifyDirectory(dir);
    FreeEntries(mm, segs, qs);
    Directories.LoadShows(mm.State(), s.cr3);
    mm.ModifiedDirectory();
  }
}
