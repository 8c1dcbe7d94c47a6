/** Loading the segments of an ELF image into a user address space, and unloading them. */
module Elf {
  import opened Common
  import opened Pmm
  import opened Paging
  import opened Bytes
  import opened Space
  import opened Ranges
  import opened Allocation
  import opened Directories
  import opened TaskMemory
  import opened UserMemory

  /** A program header entry; load tells whether its type is PT_LOAD. */
  datatype Segment = Segment(load: bool, offset: nat, vaddr: nat, filesz: nat, memsz: nat, writable: bool)

  // ----- loading

  /** What the format and the loader's callers promise about an entry to be loaded. */
  ghost predicate Loadable(g: Segment, file: seq<Byte>) {
    g.load ==>
      && g.memsz < WORD && g.filesz <= g.memsz && g.offset + g.filesz <= |file|
      && g.vaddr < WORD && g.vaddr % PAGE_SIZE == 0 && Fits(g.vaddr, g.memsz)
      && (g.memsz > 0 ==>
            InDomain(g.vaddr / PAGE_SIZE, true) && InDomain(g.vaddr / PAGE_SIZE + PagesOf(g.memsz) - 1, true))
  }

  function FileBytes(g: Segment, file: seq<Byte>): (r: seq<Byte>)
    requires g.offset + g.filesz <= |file|
  {
    file[g.offset..g.offset + g.filesz]
  }

  /** Zeros over all the memory of an entry, then the bytes of the file. */
  function FillSegment(m: Mem, dir: Frame, g: Segment, file: seq<Byte>): Mem
    requires g.offset + g.filesz <= |file| && g.filesz <= g.memsz && Fits(g.vaddr, g.memsz)
  {
    WriteVirtual(WriteVirtual(m, dir, g.vaddr, Zeros(g.memsz)), dir, g.vaddr, FileBytes(g, file))
  }

  /** One turn of elf_load's loop: memory at the entry's address, then its contents. */
  ghost function LoadSegment(s: St, g: Segment, file: seq<Byte>): St
    requires Loadable(g, file)
  {
    if !g.load then s
    else
      var (s1, p) := UseVirtual(s, g.vaddr, g.memsz, Flags(true, g.writable));
      s1.(mem := FillSegment(s1.mem, s1.cr3, g, file), clean := s1.clean && (g.memsz == 0 || p != 0))
  }

  ghost function LoadSegments(s: St, segs: seq<Segment>, file: seq<Byte>): St
    requires forall g <- segs :: Loadable(g, file)
  {
    if segs == [] then s
    else LoadSegment(LoadSegments(s, segs[..|segs| - 1], file), segs[|segs| - 1], file)
  }

  /** The allocation an entry gets; entries of other types get nothing. */
  ghost function SegmentPiece(s: St, g: Segment): Piece {
    if g.load then Piece(g.vaddr / PAGE_SIZE % PAGE_NUMBER, Choose(s.marks, g.memsz), g.memsz, s.next, g.writable)
    else Piece(0, 0, 0, s.next, g.writable)
  }

  ghost function Pieces(s: St, segs: seq<Segment>, file: seq<Byte>): (qs: seq<Piece>)
    requires forall g <- segs :: Loadable(g, file)
    ensures |qs| == |segs|
  {
    if segs == [] then []
    else
      var init := segs[..|segs| - 1];
      Pieces(s, init, file) + [SegmentPiece(LoadSegments(s, init, file), segs[|segs| - 1])]
  }

  function ByteAt(m: Mem, base: Frame, k: nat): Byte {
    if base * PAGE_SIZE + k < WORD then ReadByte(m, base * PAGE_SIZE + k) else 0
  }

  /** The bytes of the entry in memory: those of the file, then zeros. */
  ghost predicate HasContents(m: Mem, q: Piece, g: Segment, file: seq<Byte>)
    requires Loadable(g, file)
  {
    g.load ==>
      forall k :: 0 <= k < g.memsz ==> ByteAt(m, q.base, k) == if k < g.filesz then file[g.offset + k] else 0
  }

  /** A stand-in task that owns one piece and the private tables of a directory. */
  function Owner(q: Piece, dir: Frame): Task {
    Task(q, dir, q, q, [])
  }

  /** The pages of the piece are user pages of the given protection. */
  ghost predicate Guarded(s: St, d: Frame, q: Piece, writable: bool) {
    q.page + PagesOf(q.len) <= PAGE_NUMBER && q.base + PagesOf(q.len) <= PAGE_NUMBER
    && forall p: Page :: q.page <= p < q.page + PagesOf(q.len) ==>
         InDomain(p, true) && Trans(s, d, p) == Some(Mapping(q.base + p - q.page, writable, true))
  }

  lemma GuardedFromMap(s: St, s1: St, page: Page, f: Frame, len: nat, flags: Flags)
    requires IsDir(s, s.cr3) && flags.user && len > 0 && f + PagesOf(len) <= PAGE_NUMBER
    requires InDomain(page, true) && InDomain(page + PagesOf(len) - 1, true)
    requires OnlyMapped(s, s1, page, f, PagesOf(len), flags)
    ensures Guarded(s1, s.cr3, Piece(page, f, len, s.next, flags.writable), flags.writable)
  {
    hide Trans;
    var n := PagesOf(len);
    forall p: Page | page <= p < page + n
      ensures InDomain(p, true) && Trans(s1, s.cr3, p) == Some(Mapping(f + p - page, flags.writable, true))
    {
      assert Mappable(p) && Sees(s, s.cr3, p);
    }
  }

  lemma GuardedKept(s: St, s1: St, d: Frame, q: Piece, writable: bool)
    requires Guarded(s, d, q, writable) && Preserves(s, s1, 0) && IsDir(s, d) && d != 0
    ensures Guarded(s1, d, q, writable)
  {
    hide Trans;
    SharedDomains();
  }

  lemma UseVirtualAdds(s: St, vaddr: nat, len: nat, flags: Flags)
    requires Inv(s) && 0 < len < WORD && vaddr % PAGE_SIZE == 0 && Fits(vaddr, len)
    requires InDomain(vaddr / PAGE_SIZE, flags.user) && InDomain(vaddr / PAGE_SIZE + PagesOf(len) - 1, flags.user)
    requires var (s1, p) := UseVirtual(s, vaddr, len, flags); s1.clean && p != 0
    ensures var (s1, p) := UseVirtual(s, vaddr, len, flags);
            var q := Piece(vaddr / PAGE_SIZE, Choose(s.marks, len), len, s.next, flags.writable);
            && p == q.base * PAGE_SIZE && q.base + PagesOf(len) <= PAGE_NUMBER
            && Adds(s, s1, Owner(q, s.cr3)) && SameSwitches(s, s1) && Held(s1, s.cr3, q, flags.user)
            && s.next < s1.next
            && (flags.user ==> Guarded(s1, s.cr3, q, flags.writable))
            && (forall g: Frame :: g in s.own && s.own[g].Data? ==> s1.mem[g] == s.mem[g])
  {
    hide Guarded, Inv, Trans, Steady, AddsTables, MapRange, OnlyMapped, OtherDirsKept, Record, UseMarks, UseHighest,
      Choose, Preserves, Held, PagesOf;
    var page := vaddr / PAGE_SIZE;
    AlignedSpan(vaddr, len);
    var (s0, f) := Take(s, len, PmmFlag(flags), Data(s.next, flags.user));
    var (s1, p) := UseVirtual(s, vaddr, len, flags);
    TakeData(s, len, flags.user);
    AllocCombine(s, s0, len, flags, page, f);
    NoDirZero(s);
    OldTags(s);
    HeldFromMap(s, s1, page, f, len, flags);
    if flags.user { GuardedFromMap(s, s1, page, f, len, flags); }
    AllocPreserves(s, s1, page, f, PagesOf(len), flags);
    AllocOwns(s, s1, f, PagesOf(len), flags, Owner(Piece(page, f, len, s.next, flags.writable), s.cr3));
    MapRangeGrows(s0, page, f, PagesOf(len), flags, false);
    StillRecorded(s, s0, f, PagesOf(len), flags);
    forall g: Frame | g in s.own && s.own[g].Data?
      ensures s1.mem[g] == s.mem[g]
    {
      MapRangeKeepsData(s0, page, f, PagesOf(len), flags, g);
    }
    NextGrows(s0, s1);
  }

  lemma NextGrows(s: St, s1: St)
    requires Steady(s, s1)
    ensures s.next <= s1.next
  {
  }

  lemma StillRecorded(s: St, s0: St, f: Frame, n: nat, flags: Flags)
    requires forall g: Frame :: f <= g < f + n ==> g !in s.own
    requires s0.own == Record(s.own, f, f + n - 1, Data(s.next, flags.user))
    ensures forall g: Frame :: g in s.own ==> g in s0.own && s0.own[g] == s.own[g]
  {
  }

  lemma AlignedSpan(vaddr: nat, len: nat)
    requires len > 0 && vaddr % PAGE_SIZE == 0
    ensures Spanned(vaddr, len) == PagesOf(len)
    ensures InDomain(vaddr / PAGE_SIZE + PagesOf(len) - 1, true) ==> vaddr / PAGE_SIZE + PagesOf(len) <= 1023 * ENTRIES
    ensures InDomain(vaddr / PAGE_SIZE + PagesOf(len) - 1, false) ==> vaddr / PAGE_SIZE + PagesOf(len) <= 1023 * ENTRIES
  {
    SpannedIsTaken(vaddr, len);
  }

  /** Writing into the frames of a piece keeps what Adds and Held say. */
  lemma WriteAdds(s: St, s1: St, m: Mem, q: Piece, t: Task)
    requires Inv(s) && Adds(s, s1, t) && SameSwitches(s, s1) && Held(s1, s.cr3, q, true) && q.len > 0
    requires forall g: Frame :: !(q.base <= g < q.base + PagesOf(q.len)) ==> m[g] == s1.mem[g]
    ensures Adds(s, s1.(mem := m), t) && Held(s1.(mem := m), s.cr3, q, true)
    ensures forall w: bool :: Guarded(s1, s.cr3, q, w) ==> Guarded(s1.(mem := m), s.cr3, q, w)
  {
    hide Trans, Owns, Steady, Inv, PagesOf;
    AddsInv(s, s1, t);
    assert forall g: Frame :: q.base <= g < q.base + PagesOf(q.len) ==> g in s1.own && s1.own[g].Data?;
    WriteKeepsSpace(s1, m, q.base, PagesOf(q.len));
    SteadyKept(s, s1, s, s1.(mem := m));
    NoDirZero(s1);
    NoDirZero(s);
    SharedDomains();
  }

  lemma TablesApart(s: St, q: Piece)
    requires Inv(s) && Held(s, s.cr3, q, true) && q.len > 0
    ensures forall f: Frame :: UsedBy(s.mem, s.cr3, f) ==> !(q.base <= f < q.base + PagesOf(q.len))
  {
    hide Trans, PagesOf;
    forall f: Frame | UsedBy(s.mem, s.cr3, f)
      ensures f in s.own && !s.own[f].Data?
    {
      if f != s.cr3 {
        var i: Index :| s.mem[s.cr3][i].pr && s.mem[s.cr3][i].frame == f;
        assert i < 1023 ==> s.own[f] == RoleOf(s.cr3, i);
      }
    }
  }

  /** A held piece is a run of bytes in frames its directory does not use itself. */
  lemma HeldRun(s: St, q: Piece)
    requires Inv(s) && Held(s, s.cr3, q, true) && q.len > 0
    ensures RunAt(s.mem, s.cr3, q.page * PAGE_SIZE, q.base * PAGE_SIZE, q.len)
  {
    var v, p := q.page * PAGE_SIZE, q.base * PAGE_SIZE;
    LastFrame(q.base, q.len);
    LastFrame(q.page, q.len);
    TablesApart(s, q);
    hide Inv, Trans, UsedBy;
    forall k | v <= k < v + q.len
      ensures Walk(s.mem, s.cr3, k) == Some(p + (k - v))
    {
      ByteOfRun(q.page, q.len, k - v);
      WalkFromTrans(s, s.cr3, k);
    }
  }

  /** What loading one entry does. */
  lemma SegmentStep(s: St, g: Segment, file: seq<Byte>)
    requires Inv(s) && Loadable(g, file) && g.load && g.memsz > 0 && LoadSegment(s, g, file).clean
    ensures var s1 := LoadSegment(s, g, file);
            var q := SegmentPiece(s, g);
            && Adds(s, s1, Owner(q, s.cr3)) && SameSwitches(s, s1) && Held(s1, s.cr3, q, true) && s.next < s1.next
            && q.page * PAGE_SIZE == g.vaddr && q.len == g.memsz
            && HasContents(s1.mem, q, g, file) && Guarded(s1, s.cr3, q, g.writable)
            && (forall f: Frame :: f in s.own && s.own[f].Data? ==> s1.mem[f] == s.mem[f])
  {
    hide Inv, Trans, Steady, Adds, Held, UseVirtual, WriteRun, PagesOf, Choose, HasContents, FillSegment, RunAt,
      Guarded;
    var q := SegmentPiece(s, g);
    UseVirtualAdds(s, g.vaddr, g.memsz, Flags(true, g.writable));
    var (s1, p) := UseVirtual(s, g.vaddr, g.memsz, Flags(true, g.writable));
    var s2 := LoadSegment(s, g, file);
    AddsInv(s, s1, Owner(q, s.cr3));
    HeldRun(s1, q);
    Filled(s1.mem, s1.cr3, p, g, file);
    WrittenFrames(s1.mem, p, g, file, q);
    WrittenBytes(s1.mem, p, g, file, q);
    WriteAdds(s, s1, s2.mem, q, Owner(q, s.cr3));
    OldDataElsewhere(s, s1, q);
  }

  lemma Filled(m: Mem, dir: Frame, p: nat, g: Segment, file: seq<Byte>)
    requires Loadable(g, file) && g.load && RunAt(m, dir, g.vaddr, p, g.memsz)
    ensures p + g.memsz <= WORD
    ensures FillSegment(m, dir, g, file) == WriteRun(WriteRun(m, p, Zeros(g.memsz)), p, FileBytes(g, file))
  {
    hide WriteRun, WriteVirtual, Walk;
    VirtualRun(m, dir, g.vaddr, p, Zeros(g.memsz));
    SameRun(m, dir, g.vaddr, p, Zeros(g.memsz));
    RunShorter(WriteRun(m, p, Zeros(g.memsz)), dir, g.vaddr, p, g.memsz, g.filesz);
    VirtualRun(WriteRun(m, p, Zeros(g.memsz)), dir, g.vaddr, p, FileBytes(g, file));
  }

  lemma OldDataElsewhere(s: St, s1: St, q: Piece)
    requires Inv(s) && Adds(s, s1, Owner(q, s.cr3)) && Held(s1, s.cr3, q, true) && q.tag == s.next && q.len > 0
    ensures forall f: Frame :: f in s.own ==> !(q.base <= f < q.base + PagesOf(q.len))
  {
    hide Inv, Trans, PagesOf;
    OldTags(s);
  }

  lemma WrittenFrames(m: Mem, p: nat, g: Segment, file: seq<Byte>, q: Piece)
    requires Loadable(g, file) && g.load && g.memsz > 0 && p == q.base * PAGE_SIZE && p + g.memsz <= WORD
             && q.len == g.memsz
    ensures var m1 := WriteRun(WriteRun(m, p, Zeros(g.memsz)), p, FileBytes(g, file));
            forall f: Frame :: !(q.base <= f < q.base + PagesOf(q.len)) ==> m1[f] == m[f]
  {
    hide WriteRun, PagesOf;
    var m0 := WriteRun(m, p, Zeros(g.memsz));
    forall f: Frame | !(q.base <= f < q.base + PagesOf(q.len))
      ensures WriteRun(m0, p, FileBytes(g, file))[f] == m[f]
    {
      LastFrame(q.base, g.memsz);
      WriteRunFrames(m, p, Zeros(g.memsz), f);
      if g.filesz > 0 {
        LastFrame(q.base, g.filesz);
        MorePages(g.filesz, g.memsz);
        WriteRunFrames(m0, p, FileBytes(g, file), f);
      } else {
        assert FileBytes(g, file) == [];
        WriteNothing(m0, p);
      }
    }
  }

  lemma LastFrame(f: nat, n: nat)
    requires n > 0
    ensures f * PAGE_SIZE / PAGE_SIZE == f && (f * PAGE_SIZE + n - 1) / PAGE_SIZE == f + PagesOf(n) - 1
  {
  }

  lemma MorePages(k: nat, n: nat)
    requires k <= n
    ensures PagesOf(k) <= PagesOf(n)
  {
  }

  lemma WrittenBytes(m: Mem, p: nat, g: Segment, file: seq<Byte>, q: Piece)
    requires Loadable(g, file) && g.load && p == q.base * PAGE_SIZE && p + g.memsz <= WORD
    ensures HasContents(WriteRun(WriteRun(m, p, Zeros(g.memsz)), p, FileBytes(g, file)), q, g, file)
  {
    hide WriteRun, ReadByte;
    var m0 := WriteRun(m, p, Zeros(g.memsz));
    var m1 := WriteRun(m0, p, FileBytes(g, file));
    forall k | 0 <= k < g.memsz
      ensures ByteAt(m1, q.base, k) == if k < g.filesz then FileBytes(g, file)[k] else 0
    {
      TwoRuns(m, p, g.memsz, FileBytes(g, file), k);
    }
  }

  /** A run of zeros and a run of data over its start. */
  lemma TwoRuns(m: Mem, p: nat, n: nat, data: seq<Byte>, k: nat)
    requires |data| <= n && p + n <= WORD && k < n
    ensures ReadByte(WriteRun(WriteRun(m, p, Zeros(n)), p, data), p + k) == if k < |data| then data[k] else 0
  {
    hide WriteRun, ReadByte;
    WriteRunExact(m, p, Zeros(n), p + k);
    WriteRunExact(WriteRun(m, p, Zeros(n)), p, data, p + k);
  }

  // ----- any number of entries

  ghost predicate Matches(g: Segment, q: Piece) {
    if g.load then q.page * PAGE_SIZE == g.vaddr && q.len == g.memsz && q.writable == g.writable else q.len == 0
  }

  /** Each loaded entry holds its own allocation, numbered from first on, with the right contents. */
  ghost predicate LoadedOne(s: St, d: Frame, first: nat, g: Segment, file: seq<Byte>, q: Piece)
    requires Loadable(g, file)
  {
    && Matches(g, q)
    && (g.load ==> Held(s, d, q, true) && HasContents(s.mem, q, g, file))
    && (g.load && q.len > 0 ==> first <= q.tag < s.next && Guarded(s, d, q, g.writable))
  }

  ghost predicate Loaded(s: St, d: Frame, first: nat, segs: seq<Segment>, file: seq<Byte>, qs: seq<Piece>)
    requires forall g <- segs :: Loadable(g, file)
  {
    && |qs| == |segs|
    && (forall i :: 0 <= i < |segs| ==> LoadedOne(s, d, first, segs[i], file, qs[i]))
    && AllDistinct(qs)
  }

  /** The books have grown by the given allocations, kernel tables and tables of directory d, and nothing else. */
  ghost predicate TookOnly(s0: St, s: St, d: Frame, qs: seq<Piece>) {
    && s0.clean && Inv(s) && Steady(s0, s) && Preserves(s0, s, 0) && FirstKept(s0, s)
    && (forall f <- s0.own :: f in s.own && s.own[f] == s0.own[f])
    && (forall f <- s.own :: f !in s0.own ==>
          s.own[f].KernelTable? || (s.own[f].PrivateTable? && s.own[f].dir == d) || AnyTag(qs, s.own[f]))
  }

  lemma TookNothing(s: St, d: Frame)
    requires Inv(s) && s.clean
    ensures TookOnly(s, s, d, [])
  {
  }

  lemma TookMore(s0: St, s: St, s1: St, d: Frame, qs: seq<Piece>, q: Piece)
    requires TookOnly(s0, s, d, qs) && Adds(s, s1, Owner(q, d)) && IsDir(s0, d)
    ensures TookOnly(s0, s1, d, qs + [q])
  {
    hide Inv, Preserves;
    AddsInv(s, s1, Owner(q, d));
    NoDirZero(s1);
    PreservesTrans(s0, s, s1, 0);
    SteadyTrans(s0, s, s1);
    hide Steady;
    forall f | f in s1.own && f !in s0.own
      ensures s1.own[f].KernelTable? || (s1.own[f].PrivateTable? && s1.own[f].dir == d) || AnyTag(qs + [q], s1.own[f])
    {
      if f in s.own {
        if AnyTag(qs, s.own[f]) {
          var p :| p in qs && p.len > 0 && HasTag(s.own[f], p.tag);
          assert p in qs + [q];
        }
      } else if s1.own[f].Data? {
        assert q in qs + [q];
      }
    }
  }

  lemma {:induction false} LoadSegmentsExact(s0: St, s: St, segs: seq<Segment>, file: seq<Byte>)
    requires TookOnly(s0, s, s.cr3, []) && s.clean && IsDir(s0, s.cr3)
    requires (forall g <- segs :: Loadable(g, file)) && LoadSegments(s, segs, file).clean
    ensures var s1 := LoadSegments(s, segs, file);
            && SameSwitches(s, s1) && TookOnly(s0, s1, s.cr3, Pieces(s, segs, file))
            && Loaded(s1, s.cr3, s.next, segs, file, Pieces(s, segs, file)) && s.next <= s1.next
  {
    hide LoadSegment, LoadedOne, TookOnly, Loadable, Adds, HasContents, Held, Inv, SegmentPiece;
    if segs == [] {
      return;
    }
    var init, g := segs[..|segs| - 1], segs[|segs| - 1];
    var s1 := LoadSegments(s, init, file);
    SegmentCleans(s1, g, file);
    LoadSegmentsExact(s0, s, init, file);
    assert segs == init + [g];
    TookInv(s0, s1, s.cr3, Pieces(s, init, file));
    LoadedMore(s0, s, s1, init, file, Pieces(s, init, file), g);
  }

  /** What has been taken for a program under new numbers belongs to the task that gets it. */
  lemma TookAdds(s0: St, s: St, d: Frame, t: Task)
    requires TookOnly(s0, s, d, t.image) && t.dir == d && forall q <- t.image :: q.len > 0 ==> q.tag >= s0.next
    ensures Adds(s0, s, t)
  {
    hide Inv, Preserves, Steady;
  }

  lemma TookInv(s0: St, s: St, d: Frame, qs: seq<Piece>)
    requires TookOnly(s0, s, d, qs)
    ensures Inv(s) && s0.clean && s0.next <= s.next
    ensures forall e: Frame :: IsDir(s0, e) ==> IsDir(s, e)
  {
    hide Inv, Preserves;
  }

  lemma SegmentCleans(s: St, g: Segment, file: seq<Byte>)
    requires Loadable(g, file) && LoadSegment(s, g, file).clean
    ensures s.clean
  {
    hide UseVirtual, FillSegment;
    if g.load {
      UseVirtualCleans(s, g.vaddr, g.memsz, Flags(true, g.writable));
    }
  }

  lemma UseVirtualCleans(s: St, vaddr: nat, len: nat, flags: Flags)
    requires len < WORD && Fits(vaddr, len) && vaddr < WORD && UseVirtual(s, vaddr, len, flags).0.clean
    ensures s.clean
  {
    hide Choose, MapRange, UseMarks, UseHighest, Record, PagesOf, Spanned;
    var (s1, f) := Take(s, len, PmmFlag(flags), Data(s.next, flags.user));
    if len > 0 && f != 0 && f + Spanned(vaddr, len) <= PAGE_NUMBER {
      SpannedRange(vaddr, len);
      if DomainCheck(s1, vaddr / PAGE_SIZE, flags) {
        MapRangeCleans(s1, vaddr / PAGE_SIZE, f, Spanned(vaddr, len), flags);
      }
    }
  }

  /** One more entry. */
  lemma LoadedMore(s0: St, s: St, s1: St, init: seq<Segment>, file: seq<Byte>, qs: seq<Piece>, g: Segment)
    requires (forall h <- init :: Loadable(h, file)) && Loadable(g, file) && LoadSegment(s1, g, file).clean
    requires Inv(s1) && TookOnly(s0, s1, s.cr3, qs) && Loaded(s1, s.cr3, s.next, init, file, qs)
    requires SameSwitches(s, s1) && IsDir(s0, s.cr3) && s.next <= s1.next
    ensures var s2 := LoadSegment(s1, g, file);
            var q := SegmentPiece(s1, g);
            && SameSwitches(s, s2) && TookOnly(s0, s2, s.cr3, qs + [q]) && s.next <= s2.next
            && Loaded(s2, s.cr3, s.next, init + [g], file, qs + [q])
  {
    hide LoadSegment, TookOnly, Loadable, Adds, HasContents, Held, Inv, Guarded;
    var s2, q := LoadSegment(s1, g, file), SegmentPiece(s1, g);
    if !g.load || g.memsz == 0 {
      NotLoaded(s1, g, file);
      SegmentCleans(s1, g, file);
      AddsRefl(s1, Owner(q, s.cr3));
      NothingLoaded(s1, s.cr3, s.next, g, file);
    } else {
      SegmentStep(s1, g, file);
      NoDirZero(s1);
      forall i | 0 <= i < |init|
        ensures LoadedOne(s2, s.cr3, s.next, init[i], file, qs[i])
      {
        assert LoadedOne(s1, s.cr3, s.next, init[i], file, qs[i]);
        if init[i].load {
          if qs[i].len > 0 { AddsGuarded(s1, s2, s.cr3, qs[i], init[i].writable, Owner(q, s.cr3)); }
          PieceKept(s1, s2, s.cr3, qs[i], true, Owner(q, s.cr3));
          ContentsKept(s1, s2, s.cr3, init[i], file, qs[i]);
        }
      }
    }
    TookMore(s0, s1, s2, s.cr3, qs, q);
  }

  lemma AddsGuarded(s: St, s1: St, d: Frame, q: Piece, writable: bool, t: Task)
    requires Guarded(s, d, q, writable) && Adds(s, s1, t) && IsDir(s, d) && d != 0
    ensures Guarded(s1, d, q, writable)
  {
    hide Guarded, Inv, Trans, Owns, Preserves;
    GuardedKept(s, s1, d, q, writable);
  }

  lemma NotLoaded(s: St, g: Segment, file: seq<Byte>)
    requires Loadable(g, file) && (!g.load || g.memsz == 0)
    ensures LoadSegment(s, g, file) == s
  {
    assert g.load ==> Zeros(g.memsz) == [] && FileBytes(g, file) == [];
  }

  lemma NothingLoaded(s: St, d: Frame, first: nat, g: Segment, file: seq<Byte>)
    requires Loadable(g, file) && (!g.load || g.memsz == 0)
    ensures LoadedOne(s, d, first, g, file, SegmentPiece(s, g))
  {
  }

  lemma ContentsKept(s: St, s1: St, d: Frame, g: Segment, file: seq<Byte>, q: Piece)
    requires Loadable(g, file) && g.load && HasContents(s.mem, q, g, file) && Held(s, d, q, true) && q.len == g.memsz
    requires forall f: Frame :: f in s.own && s.own[f].Data? ==> s1.mem[f] == s.mem[f]
    ensures HasContents(s1.mem, q, g, file)
  {
    hide Trans, Loadable, FileBytes;
    forall k | 0 <= k < g.memsz
      ensures ByteAt(s1.mem, q.base, k) == ByteAt(s.mem, q.base, k)
    {
      ByteOfRun(q.base, q.len, k);
    }
  }

  // ----- unloading

  /** One turn of elf_unload's loop. */
  ghost function FreeSegment(s: St, g: Segment): St
    requires g.load ==> Fits(g.vaddr, g.memsz)
  {
    if g.load then FreeRange(s, g.vaddr, g.memsz) else s
  }

  ghost function FreeSegments(s: St, segs: seq<Segment>): St
    requires forall g <- segs :: g.load ==> Fits(g.vaddr, g.memsz)
  {
    if segs == [] then s else FreeSegment(FreeSegments(s, segs[..|segs| - 1]), segs[|segs| - 1])
  }

  /** The entries hold the given allocations in directory d. */
  ghost predicate HeldAll(s: St, d: Frame, segs: seq<Segment>, qs: seq<Piece>) {
    && |qs| == |segs|
    && (forall i :: 0 <= i < |segs| ==> Matches(segs[i], qs[i]) && Held(s, d, qs[i], true))
    && AllDistinct(qs)
  }

  ghost predicate GivenBack(s0: St, s: St, qs: seq<Piece>, f: Frame) {
    if f in s0.own && AnyTag(qs, s0.own[f]) then f !in s.own && s.marks[f] == UNUSED
    else s.marks[f] == s0.marks[f] && (f in s.own <==> f in s0.own) && (f in s.own ==> s.own[f] == s0.own[f])
  }

  /** Exactly the frames of the given allocations have been given back. */
  ghost predicate GaveOnly(s0: St, s: St, qs: seq<Piece>) {
    && Inv(s) && SameSwitches(s0, s) && Steady(s0, s) && FirstKept(s0, s)
    && (forall d: Frame :: IsDir(s, d) <==> IsDir(s0, d))
    && (forall f: Frame :: GivenBack(s0, s, qs, f))
  }

  lemma FreeHeld(s: St, q: Piece)
    requires Inv(s) && Held(s, s.cr3, q, true) && q.len > 0 && FreeRange(s, q.page * PAGE_SIZE, q.len).clean
    ensures var s1 := FreeRange(s, q.page * PAGE_SIZE, q.len);
            && s.clean && GaveOnly(s, s1, [q])
            && (forall d: Frame, p: Piece, user: bool :: Held(s, d, p, user) && DistinctTags(q, p) ==>
                  Held(s1, d, p, user))
  {
    hide Inv, Trans, Steady, OnlyCleared, FreeRange, PagesOf;
    var s1 := FreeRange(s, q.page * PAGE_SIZE, q.len);
    SharedDomains();
    FreeExact(s, q.page, q.base, q.len);
    OneTag(q);
    forall d: Frame, p: Piece, user: bool | Held(s, d, p, user) && DistinctTags(q, p)
      ensures Held(s1, d, p, user)
    {
      HeldFree(s, s1, q, d, p, user);
    }
  }

  lemma OneTag(q: Piece)
    requires q.len > 0
    ensures forall r: Role :: AnyTag([q], r) <==> HasTag(r, q.tag)
  {
    assert q in [q];
  }

  lemma GaveTrans(s0: St, s: St, s1: St, qs: seq<Piece>, q: Piece)
    requires GaveOnly(s0, s, qs) && GaveOnly(s, s1, [q])
    ensures GaveOnly(s0, s1, qs + [q])
  {
    hide Inv;
    SteadyTrans(s0, s, s1);
    hide Steady;
    forall f: Frame
      ensures GivenBack(s0, s1, qs + [q], f)
    {
      assert GivenBack(s0, s, qs, f) && GivenBack(s, s1, [q], f);
      if f in s0.own {
        TagsMore(qs, q, s0.own[f]);
      }
    }
  }

  lemma TagsMore(qs: seq<Piece>, q: Piece, r: Role)
    ensures AnyTag(qs + [q], r) <==> AnyTag(qs, r) || AnyTag([q], r)
  {
    if AnyTag(qs, r) {
      var p :| p in qs && p.len > 0 && HasTag(r, p.tag);
      assert p in qs + [q];
    }
    if AnyTag([q], r) {
      assert q in qs + [q];
    }
  }

  lemma GaveNothing(s: St, q: Piece)
    requires Inv(s) && q.len == 0
    ensures GaveOnly(s, s, []) && GaveOnly(s, s, [q])
  {
  }

  /** None of the pieces is the given one. */
  ghost predicate AllForeign(qs: seq<Piece>, p: Piece) {
    forall q <- qs :: DistinctTags(q, p)
  }

  /** Freeing the first n entries gives back exactly their allocations; everything else stays held. */
  lemma {:induction false} FreeSome(s: St, segs: seq<Segment>, qs: seq<Piece>, n: nat)
    requires Inv(s) && HeldAll(s, s.cr3, segs, qs) && n <= |segs|
    requires (forall g <- segs :: g.load ==> Fits(g.vaddr, g.memsz)) && s.clean && FreeSegments(s, segs[..n]).clean
    ensures var s1 := FreeSegments(s, segs[..n]);
            && GaveOnly(s, s1, qs[..n])
            && (forall d: Frame, p: Piece, user: bool :: Held(s, d, p, user) && AllForeign(qs[..n], p) ==>
                  Held(s1, d, p, user))
  {
    hide Inv, Held, GaveOnly, FreeSegment;
    if n == 0 {
      GaveNothing(s, Piece(0, 0, 0, 0, false));
      return;
    }
    assert segs[..n][..n - 1] == segs[..n - 1] && qs[..n] == qs[..n - 1] + [qs[n - 1]];
    var s1, g, q := FreeSegments(s, segs[..n - 1]), segs[n - 1], qs[n - 1];
    FreeSegmentCleans(s1, g);
    FreeSome(s, segs, qs, n - 1);
    GaveInv(s, s1, qs[..n - 1]);
    assert AllForeign(qs[..n - 1], q);
    FreeOne(s1, g, q);
    GaveTrans(s, s1, FreeSegment(s1, g), qs[..n - 1], q);
  }

  lemma GaveInv(s0: St, s: St, qs: seq<Piece>)
    requires GaveOnly(s0, s, qs)
    ensures Inv(s) && SameSwitches(s0, s) && forall d: Frame :: IsDir(s, d) <==> IsDir(s0, d)
  {
    hide Inv;
  }

  lemma FreeSegmentCleans(s: St, g: Segment)
    requires (g.load ==> Fits(g.vaddr, g.memsz)) && FreeSegment(s, g).clean
    ensures s.clean
  {
    if g.load && g.memsz > 0 {
      SpannedRange(g.vaddr, g.memsz);
      UnmapRangeCleans(s, g.vaddr / PAGE_SIZE, Spanned(g.vaddr, g.memsz));
    }
  }

  lemma FreeOne(s: St, g: Segment, q: Piece)
    requires Inv(s) && Matches(g, q) && Held(s, s.cr3, q, true)
    requires (g.load ==> Fits(g.vaddr, g.memsz)) && FreeSegment(s, g).clean
    ensures var s1 := FreeSegment(s, g);
            && GaveOnly(s, s1, [q])
            && (forall d: Frame, p: Piece, user: bool :: Held(s, d, p, user) && DistinctTags(q, p) ==>
                  Held(s1, d, p, user))
  {
    hide Inv, Held, GaveOnly, FreeRange;
    if q.len > 0 {
      FreeHeld(s, q);
    } else {
      GaveNothing(s, q);
      if g.load { FreeNothing(s, g.vaddr); }
    }
  }

  lemma FreeNothing(s: St, vaddr: nat)
    requires Fits(vaddr, 0)
    ensures FreeRange(s, vaddr, 0) == s
  {
  }

  // ----- the whole of elf_load and elf_unload

  /** The identification and the fields of the file header that elf_check looks at. */
  datatype Header = Header(magic: seq<Byte>, bitClass: Byte, data: Byte, identVersion: Byte, version: nat,
                           kind: nat, machine: nat, entry: nat)

  const MAGIC: seq<Byte> := [0x7F, 0x45, 0x4C, 0x46]

  predicate Suitable(h: Header) {
    && h.magic == MAGIC && h.bitClass == 1 && h.data == 1 && h.identVersion == 1 && h.version == 1
    && h.kind == 2 && h.machine == 3
  }

  ghost function ElfLoad(s: St, h: Header, segs: seq<Segment>, file: seq<Byte>, dir: Frame): (St, nat)
    requires forall g <- segs :: Loadable(g, file)
  {
    if Suitable(h) then (Modified(LoadSegments(Modify(s, dir), segs, file)), h.entry) else (s, 0)
  }

  ghost function ElfUnload(s: St, h: Header, segs: seq<Segment>, dir: Frame): St
    requires forall g <- segs :: g.load ==> Fits(g.vaddr, g.memsz)
  {
    if Suitable(h) then Modified(FreeSegments(Modify(s, dir), segs)) else s
  }

  /** The allocations made by elf_load. */
  ghost function ElfPieces(s: St, segs: seq<Segment>, file: seq<Byte>, dir: Frame): seq<Piece>
    requires forall g <- segs :: Loadable(g, file)
  {
    Pieces(Modify(s, dir), segs, file)
  }

  lemma {:induction false} LoadSegmentsCleans(s: St, segs: seq<Segment>, file: seq<Byte>)
    requires (forall g <- segs :: Loadable(g, file)) && LoadSegments(s, segs, file).clean
    ensures s.clean
  {
    hide LoadSegment, Loadable;
    if segs != [] {
      SegmentCleans(LoadSegments(s, segs[..|segs| - 1], file), segs[|segs| - 1], file);
      LoadSegmentsCleans(s, segs[..|segs| - 1], file);
    }
  }

  lemma {:induction false} FreeSegmentsCleans(s: St, segs: seq<Segment>)
    requires (forall g <- segs :: g.load ==> Fits(g.vaddr, g.memsz)) && FreeSegments(s, segs).clean
    ensures s.clean
  {
    hide FreeSegment;
    if segs != [] {
      FreeSegmentCleans(FreeSegments(s, segs[..|segs| - 1]), segs[|segs| - 1]);
      FreeSegmentsCleans(s, segs[..|segs| - 1]);
    }
  }

  lemma TookLoad(s0: St, s: St, d: Frame, e: Frame, qs: seq<Piece>, saved: Frame)
    requires TookOnly(s0, s, d, qs) && IsDir(s, e) && Load(s, e).clean
    ensures var s1 := Load(s, e).(saved := saved);
            TookOnly(s0, s1, d, qs) && s1.cr3 == e && s1.check == s.check
  {
    hide Inv, Load, Preserves;
    var s1, t := Load(s, e), Owner(Piece(0, 0, 0, 0, false), d);
    AddLoad(s, e, t);
    AddsInv(s, s1, t);
    SavedKept(s, s1, t, saved);
    PreservesTrans(s0, s, s1.(saved := saved), 0);
    SteadyTrans(s0, s, s1);
    SteadyKept(s0, s1, s0, s1.(saved := saved));
  }

  /** elf_load leaves every loadable entry as the bytes of the file followed by zeros, in frames of its own. */
  lemma ElfLoadExact(s: St, h: Header, segs: seq<Segment>, file: seq<Byte>, dir: Frame)
    requires Inv(s) && s.saved == 0 && IsDir(s, dir) && Suitable(h)
    requires (forall g <- segs :: Loadable(g, file)) && ElfLoad(s, h, segs, file, dir).0.clean
    ensures var s1 := ElfLoad(s, h, segs, file, dir).0;
            var qs := ElfPieces(s, segs, file, dir);
            && s1.cr3 == s.cr3 && s1.saved == 0 && TookOnly(s, s1, dir, qs)
            && Loaded(s1, dir, s.next, segs, file, qs)
  {
    hide Inv, Load, TookOnly, Loadable, LoadedOne, LoadSegments, Pieces;
    NoDirZero(s);
    var s1 := Modify(s, dir);
    var s2 := LoadSegments(s1, segs, file);
    var qs := Pieces(s1, segs, file);
    ElfLoadClean(s, h, segs, file, dir);
    TookNothing(s, dir);
    TookLoad(s, s, dir, dir, [], s.cr3);
    TookInv(s, s1, dir, []);
    LoadSegmentsExact(s, s1, segs, file);
    TookInv(s, s2, dir, qs);
    TookLoad(s, s2, dir, s.cr3, qs, 0);
    forall i | 0 <= i < |segs|
      ensures LoadedOne(Modified(s2), dir, s.next, segs[i], file, qs[i])
    {
      assert LoadedOne(s2, dir, s1.next, segs[i], file, qs[i]);
      LoadedLoad(s2, Modified(s2), dir, s.cr3, s1.next, s.next, segs[i], file, qs[i]);
    }
  }

  lemma GuardedSaved(s: St, d: Frame, q: Piece, writable: bool, saved: Frame)
    requires Guarded(s, d, q, writable)
    ensures Guarded(s.(saved := saved), d, q, writable)
  {
    TransKept(s, s.(saved := saved));
    hide Trans;
  }

  /**
   The byte at distance k from the start of the entry, read through the directory, is that
   of the file, or zero behind them.
   */
  ghost predicate ReadsAs(m: Mem, d: Frame, g: Segment, file: seq<Byte>, k: nat)
    requires Loadable(g, file) && g.load && k < g.memsz
  {
    var a := Walk(m, d, g.vaddr + k);
    && a.Some? && a.value < WORD
    && ReadByte(m, a.value) == if k < g.filesz then file[g.offset + k] else 0
  }

  /** So a loaded entry can be read at its virtual addresses. */
  lemma LoadedReads(s: St, d: Frame, first: nat, g: Segment, file: seq<Byte>, q: Piece, k: nat)
    requires Loadable(g, file) && LoadedOne(s, d, first, g, file, q) && g.load && k < g.memsz
    ensures ReadsAs(s.mem, d, g, file, k)
  {
    hide Trans, PagesOf, ReadByte;
    ByteOfRun(q.page, q.len, k);
    ByteOfRun(q.base, q.len, k);
    WalkFromTrans(s, d, g.vaddr + k);
    assert ByteAt(s.mem, q.base, k) == if k < g.filesz then FileBytes(g, file)[k] else 0;
  }

  /** What was loaded stays in place while another directory is loaded. */
  lemma LoadedLoad(s: St, s1: St, d: Frame, e: Frame, first: nat, first': nat, g: Segment, file: seq<Byte>, q: Piece)
    requires Inv(s) && IsDir(s, e) && IsDir(s, d) && d != 0 && Load(s, e).clean && s1 == Load(s, e).(saved := 0)
    requires Loadable(g, file) && LoadedOne(s, d, first, g, file, q) && first' <= first
    ensures LoadedOne(s1, d, first', g, file, q)
  {
    hide Inv, Load, Held, HasContents, Loadable, Adds, Guarded;
    if g.load {
      var t := Owner(q, d);
      AddLoad(s, e, t);
      AddsInv(s, Load(s, e), t);
      PieceKept(s, Load(s, e), d, q, true, t);
      HeldSaved(Load(s, e), d, q, true, 0);
      if q.len > 0 {
        AddsGuarded(s, Load(s, e), d, q, g.writable, t);
        GuardedSaved(Load(s, e), d, q, g.writable, 0);
      }
      forall f: Frame | f in s.own && s.own[f].Data?
        ensures s1.mem[f] == s.mem[f]
      {
        LoadKeepsData(s, e, f);
      }
      ContentsKept(s, s1, d, g, file, q);
    }
  }

  /** After elf_load, what a program reads through its directory is the image the file describes. */
  lemma ElfLoadReads(s: St, h: Header, segs: seq<Segment>, file: seq<Byte>, dir: Frame, i: nat, k: nat)
    requires Inv(s) && s.saved == 0 && IsDir(s, dir) && Suitable(h)
    requires (forall g <- segs :: Loadable(g, file)) && ElfLoad(s, h, segs, file, dir).0.clean
    requires i < |segs| && segs[i].load && k < segs[i].memsz
    ensures ReadsAs(ElfLoad(s, h, segs, file, dir).0.mem, dir, segs[i], file, k)
  {
    hide Inv, ElfLoad, TookOnly, LoadedOne, Loadable, ReadsAs, Pieces, Modify;
    ElfLoadExact(s, h, segs, file, dir);
    var s1, qs := ElfLoad(s, h, segs, file, dir).0, ElfPieces(s, segs, file, dir);
    assert LoadedOne(s1, dir, s.next, segs[i], file, qs[i]);
    LoadedReads(s1, dir, s.next, segs[i], file, qs[i], k);
  }

  lemma ElfLoadClean(s: St, h: Header, segs: seq<Segment>, file: seq<Byte>, dir: Frame)
    requires s.saved == 0 && Suitable(h) && s.cr3 != 0
    requires (forall g <- segs :: Loadable(g, file)) && ElfLoad(s, h, segs, file, dir).0.clean
    ensures s.clean && Modify(s, dir).clean && LoadSegments(Modify(s, dir), segs, file).clean
  {
    hide Load, LoadSegments, Loadable;
    var s1 := Modify(s, dir);
    var s2 := LoadSegments(s1, segs, file);
    if s2.saved != 0 { LoadCleans(s2, s2.saved); }
    LoadSegmentsCleans(s1, segs, file);
    LoadCleans(s, dir);
  }

  // ----- unloading undoes loading

  /**
   A frame of the given allocations is unused again or has become a kernel table; every
   other frame keeps its purpose.
   */
  ghost predicate Unloaded(s: St, s1: St, qs: seq<Piece>, f: Frame) {
    if f in s.own && !AnyTag(qs, s.own[f]) then f in s1.own && s1.own[f] == s.own[f]
    else (f in s1.own ==> s1.own[f].KernelTable?) && (f in s.own && f !in s1.own && f != 0 ==> s1.marks[f] == UNUSED)
  }

  lemma AddedKernelTables(s: St, e: Frame, saved: Frame)
    requires Inv(s) && IsDir(s, e) && Load(s, e).clean
    ensures var s1 := Load(s, e).(saved := saved);
            && s.clean && Inv(s1) && Steady(s, s1) && s1.cr3 == e && FirstKept(s, s1)
            && (forall d: Frame :: IsDir(s1, d) <==> IsDir(s, d))
            && (forall f: Frame :: Unloaded(s, s1, [], f))
            && (forall d: Frame, q: Piece, user: bool :: Held(s, d, q, user) && d != 0 ==> Held(s1, d, q, user))
  {
    hide Inv, Load, Held, Preserves, Owns, Trans;
    var t := Owner(Piece(0, 0, 0, 0, false), e);
    var s1 := Load(s, e);
    AddLoad(s, e, t);
    SteadyKept(s, s1, s, s1.(saved := saved));
    SavedInv(s1, saved);
    forall d: Frame, q: Piece, user: bool | Held(s, d, q, user) && d != 0
      ensures Held(s1.(saved := saved), d, q, user)
    {
      PieceKept(s, s1, d, q, user, t);
      HeldSaved(s1, d, q, user, saved);
    }
  }

  /** elf_unload gives back exactly the frames of the entries' allocations. */
  lemma ElfUnloadExact(s: St, h: Header, segs: seq<Segment>, dir: Frame, qs: seq<Piece>)
    requires Inv(s) && s.saved == 0 && IsDir(s, dir) && Suitable(h) && HeldAll(s, dir, segs, qs)
    requires (forall g <- segs :: g.load ==> Fits(g.vaddr, g.memsz)) && ElfUnload(s, h, segs, dir).clean
    ensures var s1 := ElfUnload(s, h, segs, dir);
            && Inv(s1) && s1.cr3 == s.cr3 && s1.saved == 0 && Steady(s, s1) && FirstKept(s, s1)
            && (forall f: Frame :: Unloaded(s, s1, qs, f))
            && (forall d: Frame, p: Piece, user: bool :: Held(s, d, p, user) && d != 0 && AllForeign(qs, p) ==>
                  Held(s1, d, p, user))
  {
    hide Inv, Load, Held, FreeSegments, Steady, AnyTag, AllForeign;
    NoDirZero(s);
    var s1 := Modify(s, dir);
    var s2 := FreeSegments(s1, segs);
    var s3 := Modified(s2);
    ElfUnloadClean(s, h, segs, dir);
    AddedKernelTables(s, dir, s.cr3);
    assert segs[..|segs|] == segs && qs[..|segs|] == qs;
    FreeSome(s1, segs, qs, |segs|);
    GaveInv(s1, s2, qs);
    AddedKernelTables(s2, s.cr3, 0);
    SteadyTrans(s, s1, s2);
    SteadyTrans(s, s2, s3);
    forall f: Frame
      ensures Unloaded(s, s3, qs, f)
    {
      assert Unloaded(s, s1, [], f) && GivenBack(s1, s2, qs, f) && Unloaded(s2, s3, [], f);
      NoTags(s, s1, s2, f, qs);
      SteadyAt(s, s3, f);
    }
  }

  lemma NoTags(s: St, s1: St, s2: St, f: Frame, qs: seq<Piece>)
    ensures f in s.own ==> !AnyTag([], s.own[f])
    ensures f in s1.own && s1.own[f].KernelTable? ==> !AnyTag(qs, s1.own[f])
    ensures f in s2.own ==> !AnyTag([], s2.own[f])
  {
  }

  lemma SteadyAt(s: St, s1: St, f: Frame)
    requires Steady(s, s1)
    ensures f != 0 && f in s.own && f !in s1.own ==> s1.marks[f] == UNUSED
  {
  }

  lemma ElfUnloadClean(s: St, h: Header, segs: seq<Segment>, dir: Frame)
    requires s.saved == 0 && Suitable(h) && s.cr3 != 0
    requires (forall g <- segs :: g.load ==> Fits(g.vaddr, g.memsz)) && ElfUnload(s, h, segs, dir).clean
    ensures s.clean && Modify(s, dir).clean && FreeSegments(Modify(s, dir), segs).clean
  {
    hide Load, FreeSegments;
    var s1 := Modify(s, dir);
    var s2 := FreeSegments(s1, segs);
    if s2.saved != 0 { LoadCleans(s2, s2.saved); }
    FreeSegmentsCleans(s1, segs);
    LoadCleans(s, dir);
  }

  lemma LoadedHeld(s: St, d: Frame, first: nat, segs: seq<Segment>, file: seq<Byte>, qs: seq<Piece>)
    requires (forall g <- segs :: Loadable(g, file)) && Loaded(s, d, first, segs, file, qs)
    ensures HeldAll(s, d, segs, qs) && (forall q <- qs :: q.len > 0 ==> q.tag >= first)
  {
    hide Held, HasContents, Loadable, Guarded;
    forall i | 0 <= i < |segs|
      ensures Matches(segs[i], qs[i]) && Held(s, d, qs[i], true) && (qs[i].len > 0 ==> qs[i].tag >= first)
    {
      assert LoadedOne(s, d, first, segs[i], file, qs[i]);
      if !segs[i].load {
        HeldNothing(s, d, qs[i], true);
      }
    }
  }

  /**
   elf_unload right after elf_load: what was owned before is owned as before, and all
   that was taken is unused again, save kernel tables and page tables of the directory.
   */
  lemma UnloadUndoesLoad(s: St, h: Header, segs: seq<Segment>, file: seq<Byte>, dir: Frame)
    requires Inv(s) && s.saved == 0 && IsDir(s, dir) && Suitable(h) && (forall g <- segs :: Loadable(g, file))
    requires var s1 := ElfLoad(s, h, segs, file, dir).0; s1.clean && ElfUnload(s1, h, segs, dir).clean
    ensures var s2 := ElfUnload(ElfLoad(s, h, segs, file, dir).0, h, segs, dir);
            && Inv(s2) && s2.cr3 == s.cr3 && Steady(s, s2)
            && (forall f <- s.own :: f in s2.own && s2.own[f] == s.own[f])
            && (forall f <- s2.own :: f !in s.own ==>
                  s2.own[f].KernelTable? || (s2.own[f].PrivateTable? && s2.own[f].dir == dir))
  {
    hide ElfLoad, ElfUnload, Inv, Steady, Preserves, LoadedOne, HeldAll, Loaded, AnyTag;
    var s1 := ElfLoad(s, h, segs, file, dir).0;
    var s2 := ElfUnload(s1, h, segs, dir);
    var qs := ElfPieces(s, segs, file, dir);
    ElfLoadExact(s, h, segs, file, dir);
    TookInv(s, s1, dir, qs);
    LoadedHeld(s1, dir, s.next, segs, file, qs);
    ElfUnloadExact(s1, h, segs, dir, qs);
    SteadyTrans(s, s1, s2);
    forall f | f in s.own
      ensures f in s2.own && s2.own[f] == s.own[f]
    {
      assert Unloaded(s1, s2, qs, f);
      OlderTags(s, f, qs);
    }
    forall f | f in s2.own && f !in s.own
      ensures s2.own[f].KernelTable? || (s2.own[f].PrivateTable? && s2.own[f].dir == dir)
    {
      assert Unloaded(s1, s2, qs, f);
    }
  }

  lemma OlderTags(s: St, f: Frame, qs: seq<Piece>)
    requires Inv(s) && f in s.own && forall q <- qs :: q.len > 0 ==> q.tag >= s.next
    ensures !AnyTag(qs, s.own[f])
  {
  }
}
