/**
 Physical memory manager: a packed bitmap with two bits per page frame and a
 first-fit allocator on top of it.
 */
module Pmm {
  import opened Common
  import opened FirstFit

  const PAGE_SIZE: nat := 4096
  const PAGE_NUMBER: nat := 0x10_0000

  /** Who uses a page frame. The declaration order is the two-bit encoding 0..3. */
  datatype Flag = UNUSED | RESERVED | KERNEL | USER

  type Frame = f: nat | f < 0x10_0000
  type Marks = m: seq<Flag> | |m| == 0x10_0000 witness seq(0x10_0000, _ => RESERVED)

  /** A 32-bit word as its bits, the lowest first. */
  type Dword = w: seq<bool> | |w| == 32 witness seq(32, _ => false)

  // ----- the packed bitmap and the map it stands for

  function LowBit(flag: Flag): bool { flag.RESERVED? || flag.USER? }

  function HighBit(flag: Flag): bool { flag.KERNEL? || flag.USER? }

  function FlagOf(low: bool, high: bool): Flag {
    if high then (if low then USER else KERNEL) else (if low then RESERVED else UNUSED)
  }

  /** The word and the lower of the two bits that hold the entry of frame i. */
  function WordOf(i: nat): nat { 2 * i / 32 }

  function BitOf(i: nat): (b: nat)
    ensures b == 2 * (i % 16) && b + 1 < 32
  {
    2 * i % 32
  }

  function MarkAt(words: seq<Dword>, i: nat): Flag
    requires |words| == 0x1_0000 && i < PAGE_NUMBER
  {
    var w := words[WordOf(i)];
    FlagOf(w[BitOf(i)], w[BitOf(i) + 1])
  }

  ghost function MarksOf(words: seq<Dword>): (m: Marks)
    requires |words| == 0x1_0000
  {
    seq(PAGE_NUMBER, i requires 0 <= i < PAGE_NUMBER => MarkAt(words, i))
  }

  lemma SameEntry(i: nat, j: nat)
    requires WordOf(i) == WordOf(j) && BitOf(i) == BitOf(j)
    ensures i == j
  {
  }

  /**
   Rewriting the two bits of one entry changes that entry of the map and no other. The
   entry is the number 0, 1, 2 or 3 of its mark, 16 entries to a word, the lowest first.
   */
  lemma SetEntry(words: seq<Dword>, i: nat, flag: Flag)
    requires |words| == 0x1_0000 && i < PAGE_NUMBER
    ensures var w := words[WordOf(i)][BitOf(i) := LowBit(flag)][BitOf(i) + 1 := HighBit(flag)];
            MarksOf(words[WordOf(i) := w]) == MarksOf(words)[i := flag]
    ensures var (low, high) := (words[i / 16][2 * (i % 16)], words[i / 16][2 * (i % 16) + 1]);
            && (MarksOf(words)[i] == UNUSED <==> !low && !high) && (MarksOf(words)[i] == RESERVED <==> low && !high)
            && (MarksOf(words)[i] == KERNEL <==> !low && high) && (MarksOf(words)[i] == USER <==> low && high)
  {
    assert WordOf(i) == i / 16;
    var w: Dword := words[WordOf(i)][BitOf(i) := LowBit(flag)][BitOf(i) + 1 := HighBit(flag)];
    var words' := words[WordOf(i) := w];
    forall j | 0 <= j < PAGE_NUMBER
      ensures MarkAt(words', j) == if j == i then flag else MarkAt(words, j)
    {
      if j != i && WordOf(j) == WordOf(i) {
        if BitOf(i) == BitOf(j) {
          SameEntry(i, j);
        }
      }
    }
    assert MarksOf(words') == MarksOf(words)[i := flag];
  }

  // ----- what the operations do to the map

  function PagesOf(len: nat): nat {
    len / PAGE_SIZE + if len % PAGE_SIZE != 0 then 1 else 0
  }

  function PageOf(addr: nat, offset: nat): (page: nat)
    ensures page < PAGE_NUMBER
  {
    (addr + offset) % WORD / PAGE_SIZE
  }

  function Mark(marks: Marks, first: nat, last: int, flag: Flag): (m: Marks)
  {
    seq(0x10_0000, i requires 0 <= i < 0x10_0000 => if first <= i <= last then flag else marks[i])
  }

  function UseMarks(marks: Marks, ptr: nat, len: nat, flag: Flag): Marks {
    if len == 0 then marks else Mark(marks, PageOf(ptr, 0), PageOf(ptr, len - 1), flag)
  }

  function UseHighest(highest: nat, ptr: nat, len: nat, flag: Flag): nat {
    if len > 0 && flag == KERNEL then Max(highest, PageOf(ptr, len - 1)) else highest
  }

  ghost function Free(marks: Marks): seq<bool> {
    seq(|marks|, i requires 0 <= i < |marks| => marks[i] == UNUSED)
  }

  /** The frame an allocation of len bytes gets; 0 stands for failure. */
  ghost function Choose(marks: Marks, len: nat): (f: Frame)
  {
    if len == 0 then 0
    else
      var run := FirstRun(Free(marks), PagesOf(len));
      if run.None? then 0 else (assert run.value < |Free(marks)|; run.value)
  }

  /** Every frame marked as kernel memory lies at or below the remembered highest one. */
  ghost predicate HighestBounds(marks: Marks, highest: nat) {
    forall i :: 0 <= i < |marks| && marks[i] == KERNEL ==> i <= highest
  }

  /**
   Marking a byte range that does not wrap sets exactly the frames that share a byte
   with it, keeps the bound on kernel frames, and raises it only to a frame just marked as
   kernel memory.
   */
  lemma UseExact(marks: Marks, highest: nat, ptr: nat, len: nat, flag: Flag, f: Frame)
    requires ptr + len <= WORD
    ensures UseMarks(marks, ptr, len, flag)[f] ==
            if exists b :: ptr <= b < ptr + len && b / PAGE_SIZE == f then flag else marks[f]
    ensures HighestBounds(marks, highest) ==>
              HighestBounds(UseMarks(marks, ptr, len, flag), UseHighest(highest, ptr, len, flag))
    ensures var h := UseHighest(highest, ptr, len, flag);
            h == highest || (h > highest && h < PAGE_NUMBER && UseMarks(marks, ptr, len, flag)[h] == KERNEL)
  {
    HighestExact(marks, highest, ptr, len, flag);
    MarkedExact(marks, ptr, len, flag, f);
    hide UseHighest, UseMarks, HighestBounds;
  }

  lemma MarkedExact(marks: Marks, ptr: nat, len: nat, flag: Flag, f: Frame)
    requires ptr + len <= WORD
    ensures UseMarks(marks, ptr, len, flag)[f] ==
            if exists b :: ptr <= b < ptr + len && b / PAGE_SIZE == f then flag else marks[f]
  {
    if len > 0 && ptr / PAGE_SIZE <= f <= (ptr + len - 1) / PAGE_SIZE {
      var b := if f == ptr / PAGE_SIZE then ptr else f * PAGE_SIZE;
      assert ptr <= b < ptr + len && b / PAGE_SIZE == f;
    }
  }

  lemma HighestExact(marks: Marks, highest: nat, ptr: nat, len: nat, flag: Flag)
    requires ptr + len <= WORD
    ensures HighestBounds(marks, highest) ==>
              HighestBounds(UseMarks(marks, ptr, len, flag), UseHighest(highest, ptr, len, flag))
    ensures var h := UseHighest(highest, ptr, len, flag);
            h == highest || (h > highest && h < PAGE_NUMBER && UseMarks(marks, ptr, len, flag)[h] == KERNEL)
  {
    if len > 0 {
      PagesInOrder(ptr, len);
      hide PageOf;
    }
  }

  lemma PagesInOrder(ptr: nat, len: nat)
    requires 0 < len && ptr + len <= WORD
    ensures PageOf(ptr, 0) <= PageOf(ptr, len - 1)
  {
  }

  /**
   An allocation succeeds exactly when some sufficient run of unused frames exists and
   the lowest one does not begin at frame 0, whose address reads as failure.
   */
  lemma ChooseSucceedsIff(marks: Marks, len: nat)
    requires len > 0
    ensures Choose(marks, len) != 0 <==>
            (exists i :: 0 < i && IsRun(Free(marks), i, PagesOf(len))) && !IsRun(Free(marks), 0, PagesOf(len))
    ensures Choose(marks, len) != 0 ==>
              IsRun(Free(marks), Choose(marks, len), PagesOf(len))
              && forall j :: 0 <= j < Choose(marks, len) ==> !IsRun(Free(marks), j, PagesOf(len))
  {
    var run := FirstRun(Free(marks), PagesOf(len));
    if i :| 0 < i && IsRun(Free(marks), i, PagesOf(len)) {
      assert run.Some?;
    }
  }

  /** Once frame 0 is unused, every request for a single frame fails, however many frames are free. */
  lemma FrameZeroStarvesSingleFrames(marks: Marks, len: nat)
    requires marks[0] == UNUSED && 0 < len <= PAGE_SIZE
    ensures Choose(marks, len) == 0
  {
    assert PagesOf(len) == 1;
    assert IsRun(Free(marks), 0, 1);
  }

  /** What a successful allocation marks: its own frames, all unused before, and no others. */
  lemma AllocExact(marks: Marks, len: nat, flag: Flag, f: Frame)
    requires 0 < len < WORD && Choose(marks, len) != 0
    ensures var p := Choose(marks, len);
            && p + PagesOf(len) <= PAGE_NUMBER
            && PageOf(p * PAGE_SIZE, 0) == p
            && PageOf(p * PAGE_SIZE, len - 1) == p + PagesOf(len) - 1
            && (p <= f < p + PagesOf(len) ==> marks[f] == UNUSED)
            && UseMarks(marks, p * PAGE_SIZE, len, flag)[f] ==
               if p <= f < p + PagesOf(len) then flag else marks[f]
  {
    var p, n := Choose(marks, len), PagesOf(len);
    assert IsRun(Free(marks), p, n);
    LastPage(p, len);
    if p <= f < p + n {
      assert Free(marks)[f];
    }
  }

  lemma LastPage(p: nat, len: nat)
    requires len > 0 && p + PagesOf(len) <= PAGE_NUMBER
    ensures PageOf(p * PAGE_SIZE, 0) == p
    ensures PageOf(p * PAGE_SIZE, len - 1) == p + PagesOf(len) - 1
  {
    assert p * PAGE_SIZE + len - 1 < WORD;
  }

  // ----- the allocator itself

  class PhysicalMemory {
    const bitmap: array<Dword>
    var highestKernelPage: nat

    ghost predicate Valid()
      reads this
    {
      bitmap.Length == 0x1_0000
    }

    ghost function Marks(): (m: Marks)
      requires Valid()
      reads this, bitmap
    {
      MarksOf(bitmap[..])
    }

    /** At first all memory counts as reserved. */
    constructor ()
      ensures Valid() && fresh(bitmap)
      ensures highestKernelPage == 0
      ensures forall i :: 0 <= i < PAGE_NUMBER ==> Marks()[i] == RESERVED
    {
      bitmap := new Dword[0x1_0000](_ => seq(32, j => j % 2 == 0));
      highestKernelPage := 0;
    }

    method BitmapSet(i: nat, flag: Flag)
      requires Valid() && i < PAGE_NUMBER
      modifies bitmap
      ensures Valid()
      ensures Marks() == old(Marks())[i := flag]
    {
      ghost var words := bitmap[..];
      var idx := 2 * i;
      var k := 0;
      while k < 2
        invariant 0 <= k <= 2
        invariant bitmap[..] == words[WordOf(i) := bitmap[WordOf(i)]]
        invariant bitmap[WordOf(i)] ==
                  if k == 0 then words[WordOf(i)]
                  else if k == 1 then words[WordOf(i)][BitOf(i) := LowBit(flag)]
                  else words[WordOf(i)][BitOf(i) := LowBit(flag)][BitOf(i) + 1 := HighBit(flag)]
      {
        var bit := if k == 0 then LowBit(flag) else HighBit(flag);
        assert (idx + k) / 32 == WordOf(i) && (idx + k) % 32 == BitOf(i) + k;
        bitmap[(idx + k) / 32] := bitmap[(idx + k) / 32][(idx + k) % 32 := bit];
        k := k + 1;
      }
      SetEntry(words, i, flag);
    }

    method BitmapGet(i: nat) returns (flag: Flag)
      requires Valid() && i < PAGE_NUMBER
      ensures flag == Marks()[i]
    {
      var w := bitmap[WordOf(i)];
      flag := FlagOf(w[BitOf(i)], w[BitOf(i) + 1]);
    }

    method Use(ptr: nat, len: nat, flag: Flag)
      requires Valid() && ptr < WORD && len < WORD
      modifies this`highestKernelPage, bitmap
      ensures Valid()
      ensures Marks() == UseMarks(old(Marks()), ptr, len, flag)
      ensures highestKernelPage == UseHighest(old(highestKernelPage), ptr, len, flag)
    {
      if len == 0 {
        return;
      }
      var startPage, endPage := PageOf(ptr, 0), PageOf(ptr, len - 1);
      ghost var before := Marks();
      var i := startPage;
      assert Marks() == Mark(before, startPage, startPage - 1, flag);
      while i <= endPage
        invariant startPage <= i <= Max(startPage, endPage + 1)
        invariant highestKernelPage == old(highestKernelPage)
        invariant Marks() == Mark(before, startPage, i - 1, flag)
      {
        BitmapSet(i, flag);
        assert Mark(before, startPage, i, flag) == Mark(before, startPage, i - 1, flag)[i := flag];
        i := i + 1;
      }
      assert Mark(before, startPage, i - 1, flag) == Mark(before, startPage, endPage, flag);
      if flag == KERNEL && endPage > highestKernelPage {
        highestKernelPage := endPage;
      }
    }

    /** Makeshift first-fit linear search; returns an address, 0 if there is none. */
    method FindFree(len: nat) returns (addr: nat)
      requires Valid() && len < WORD
      ensures addr == Choose(Marks(), len) * PAGE_SIZE
    {
      if len == 0 {
        return 0;
      }
      var pages := PagesOf(len);
      var freePages := 0;
      ghost var free := Free(Marks());
      var i := 0;
      while i < PAGE_NUMBER
        invariant 0 <= i <= PAGE_NUMBER
        invariant Scanned(free, i, pages, freePages)
      {
        var flag := BitmapGet(i);
        ScanStep(free, i, pages, freePages);
        if flag == UNUSED {
          freePages := freePages + 1;
        } else {
          freePages := 0;
        }
        if freePages >= pages {
          return (i - freePages + 1) * PAGE_SIZE;
        }
        i := i + 1;
      }
      ScanEnd(free, pages, freePages);
      return 0;
    }

    method Alloc(len: nat, flag: Flag) returns (addr: nat)
      requires Valid() && len < WORD
      modifies this`highestKernelPage, bitmap
      ensures Valid()
      ensures addr == Choose(old(Marks()), len) * PAGE_SIZE
      ensures Marks() == if addr == 0 then old(Marks()) else UseMarks(old(Marks()), addr, len, flag)
      ensures highestKernelPage ==
              if addr == 0 then old(highestKernelPage) else UseHighest(old(highestKernelPage), addr, len, flag)
    {
      addr := FindFree(len);
      if addr == 0 {
        return 0;
      }
      Use(addr, len, flag);
    }

    method FreeFrames(addr: nat, len: nat)
      requires Valid() && addr < WORD && len < WORD
      modifies this`highestKernelPage, bitmap
      ensures Valid()
      ensures Marks() == UseMarks(old(Marks()), addr, len, UNUSED)
      ensures highestKernelPage == old(highestKernelPage)
    {
      if len == 0 {
        return;
      }
      Use(addr, len, UNUSED);
    }

    method Check(addr: nat) returns (flag: Flag)
      requires Valid() && addr < WORD
      ensures flag == Marks()[addr / PAGE_SIZE]
    {
      flag := BitmapGet(PageOf(addr, 0));
    }
  }
}
