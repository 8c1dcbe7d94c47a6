/**
 IA-32 two-level paging: 32-bit words seen as page table entries, physical memory as
 frames of such words, the address walk, and the window through which a directory
 whose last entry names itself reaches its own tables.
 */
module Paging {
  import opened Common
  import opened Pmm

  const ENTRIES: nat := 1024
  const WINDOW: nat := 0xFFC0_0000   // VMM_PAGETAB(0)
  const PAGEDIR: nat := 0xFFFF_F000  // VMM_PAGEDIR

  type Index = i: nat | i < 1024
  type Page = p: nat | p < 0x10_0000
  type Rest = r: nat | r < 512

  /**
   A 32-bit word as the bit fields of a directory or table entry: bits 0, 1, 2, the
   nine bits 3 to 11 that no operation here looks at, and the frame in bits 12 to 31.
   */
  datatype Entry = Entry(pr: bool, rw: bool, user: bool, rest: Rest, frame: Frame)

  const ZERO := Entry(false, false, false, 0, 0)

  type Table = t: seq<Entry> | |t| == 1024 witness seq(1024, _ => ZERO)
  type Mem = m: seq<Table> | |m| == 0x10_0000 witness seq(0x10_0000, _ => seq(1024, _ => ZERO))

  function Put(m: Mem, f: Frame, j: Index, e: Entry): Mem {
    m[f := m[f][j := e]]
  }

  function ZeroFrame(m: Mem, f: Frame): Mem {
    m[f := seq(1024, _ => ZERO)]
  }

  /** The table entry that maps a page, if directory and table entry are present. */
  function Lookup(m: Mem, dir: Frame, page: Page): Option<Entry> {
    var pde := m[dir][page / ENTRIES];
    if !pde.pr then None
    else
      var pte := m[pde.frame][page % ENTRIES];
      if !pte.pr then None else Some(pte)
  }

  /** The address walk of section 4.3 of the Intel SDM, volume 3A. */
  function Walk(m: Mem, dir: Frame, va: nat): Option<nat>
    requires va < WORD
  {
    var pte := Lookup(m, dir, va / PAGE_SIZE);
    if pte.None? then None else Some(pte.value.frame * PAGE_SIZE + va % PAGE_SIZE)
  }

  ghost predicate SelfMapped(m: Mem, dir: Frame) {
    m[dir][1023].pr && m[dir][1023].frame == dir
  }

  /**
   Through the window, word j of table window i is word j of the frame in directory
   entry i; it is unmapped exactly when that entry is absent. Window 1023 is the
   directory itself.
   */
  lemma WindowReachesTables(m: Mem, dir: Frame, i: Index, j: Index)
    requires SelfMapped(m, dir)
    ensures Walk(m, dir, WINDOW + i * PAGE_SIZE + 4 * j) ==
            if m[dir][i].pr then Some(m[dir][i].frame * PAGE_SIZE + 4 * j) else None
    ensures Walk(m, dir, PAGEDIR + 4 * j) == Some(dir * PAGE_SIZE + 4 * j)
  {
    WindowParts(i, j);
    WindowParts(1023, j);
    assert PAGEDIR + 4 * j == WINDOW + 1023 * PAGE_SIZE + 4 * j;
  }

  lemma WindowParts(i: Index, j: Index)
    ensures var va := WINDOW + i * PAGE_SIZE + 4 * j;
            && va < WORD
            && va / PAGE_SIZE / ENTRIES == 1023
            && va / PAGE_SIZE % ENTRIES == i
            && va % PAGE_SIZE == 4 * j
  {
  }
}
