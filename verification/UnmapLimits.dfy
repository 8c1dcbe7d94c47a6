/** Exactly when unmapping a range goes wrong, and what it does then. */
module UnmapLimits {
  import opened Common
  import opened Pmm
  import opened Paging
  import opened Space
  import opened Ranges
  import opened Directories

  predicate InRange(p: nat, vp: nat, n: nat) {
    vp <= p < vp + n
  }

  function PageAt(i: Index, j: Index): Page {
    i * ENTRIES + j
  }

  lemma PageAtParts(p: Page)
    ensures PageAt(p / ENTRIES, p % ENTRIES) == p
    ensures forall i: Index, j: Index :: PageAt(i, j) == p ==> i == p / ENTRIES && j == p % ENTRIES
  {
    forall i: Index, j: Index | PageAt(i, j) == p
      ensures i == p / ENTRIES && j == p % ENTRIES
    {
      PageAtIndex(i, j);
    }
  }

  lemma PageAtIndex(i: Index, j: Index)
    ensures PageAt(i, j) / ENTRIES == i && PageAt(i, j) % ENTRIES == j
  {
  }

  /** The tables of a directory are different frames, none of them the directory. */
  ghost predicate OwnTables(m: Mem, d: Frame) {
    && (forall i: Index :: i < 1023 && m[d][i].pr ==> m[d][i].frame != d)
    && (forall i: Index, k: Index :: i < 1023 && k < 1023 && i != k && m[d][i].pr && m[d][k].pr ==>
          m[d][i].frame != m[d][k].frame)
  }

  lemma InvOwnTables(s: St)
    requires Inv(s)
    ensures OwnTables(s.mem, s.cr3)
  {
    forall i: Index | i < 1023 && s.mem[s.cr3][i].pr
      ensures s.own[s.mem[s.cr3][i].frame] == RoleOf(s.cr3, i)
    {
    }
  }

  /** Entry j of table i of a directory, absent if the table is. */
  function Pte(m: Mem, d: Frame, i: Index, j: Index): Entry {
    if m[d][i].pr then m[m[d][i].frame][j] else ZERO
  }

  /**
   Unmapping n pages from vp on comes to a point where the last page of table i is the
   only one left: it is there, others are, and all others are among the n pages.
   */
  ghost predicate Met(m: Mem, d: Frame, i: Index, vp: nat, n: nat) {
    && Pte(m, d, i, 1023).pr
    && (exists j: Index :: j < 1023 && Pte(m, d, i, j).pr)
    && (forall j: Index :: j < 1023 && Pte(m, d, i, j).pr ==> InRange(PageAt(i, j), vp, n))
  }

  /** What memory looks like after unmapping n pages from vp on. */
  ghost predicate After(m: Mem, m1: Mem, d: Frame, vp: nat, n: nat) {
    && OwnTables(m1, d) && m1[d][1023] == m[d][1023]
    && (forall i: Index :: i < 1023 ==> m1[d][i] == if Met(m, d, i, vp, n) then ZERO else m[d][i])
    && (forall i: Index, j: Index :: i < 1023 && !Met(m, d, i, vp, n) ==>
          if InRange(PageAt(i, j), vp, n) then !Pte(m1, d, i, j).pr else Pte(m1, d, i, j) == Pte(m, d, i, j))
  }

  lemma NoneMet(m: Mem, d: Frame, vp: nat)
    requires OwnTables(m, d)
    ensures After(m, m, d, vp, 0) && forall i: Index :: !Met(m, d, i, vp, 0)
  {
  }

  /** One page more in the range can only matter to its own table. */
  lemma MetElsewhere(m: Mem, d: Frame, i: Index, vp: nat, n: nat, q: Page)
    requires q == vp + n && i != q / ENTRIES
    ensures Met(m, d, i, vp, n + 1) <==> Met(m, d, i, vp, n)
  {
    PageAtParts(q);
    assert forall j: Index :: InRange(PageAt(i, j), vp, n + 1) <==> InRange(PageAt(i, j), vp, n);
  }

  lemma MetMore(m: Mem, d: Frame, i: Index, vp: nat, n: nat)
    requires Met(m, d, i, vp, n)
    ensures Met(m, d, i, vp, n + 1)
  {
  }

  /** A page that is not there makes no difference to the guard. */
  lemma MetAbsent(m: Mem, d: Frame, vp: nat, n: nat, q: Page)
    requires q == vp + n && !Pte(m, d, q / ENTRIES, q % ENTRIES).pr
    ensures Met(m, d, q / ENTRIES, vp, n + 1) <==> Met(m, d, q / ENTRIES, vp, n)
  {
    PageAtParts(q);
  }

  /** Nor does the last page of a table. */
  lemma MetBefore(m: Mem, d: Frame, vp: nat, n: nat, q: Page)
    requires q == vp + n && q % ENTRIES == 1023
    ensures Met(m, d, q / ENTRIES, vp, n + 1) ==> Met(m, d, q / ENTRIES, vp, n)
  {
    PageAtParts(q);
  }

  /** A page that is there meets the guard exactly when it leaves the last page alone. */
  lemma MetNow(m: Mem, m1: Mem, d: Frame, vp: nat, n: nat, q: Page)
    requires After(m, m1, d, vp, n) && q == vp + n && Mappable(q) && !Met(m, d, q / ENTRIES, vp, n)
    requires Pte(m, d, q / ENTRIES, q % ENTRIES).pr
    ensures Met(m, d, q / ENTRIES, vp, n + 1) <==> OnlyLast(m1[m[d][q / ENTRIES].frame][q % ENTRIES := ZERO])
  {
    var i, j := q / ENTRIES, q % ENTRIES;
    PageAtParts(q);
    var t := m1[m[d][i].frame];
    forall k: Index
      ensures t[k].pr <==> Pte(m, d, i, k).pr && !InRange(PageAt(i, k), vp, n)
    {
      assert Pte(m1, d, i, k) == t[k];
    }
    var t' := t[j := ZERO];
    if OnlyLast(t') {
      assert j < 1023 && Pte(m, d, i, j).pr;
      forall k: Index | k < 1023 && Pte(m, d, i, k).pr
        ensures InRange(PageAt(i, k), vp, n + 1)
      {
        assert !t'[k].pr;
      }
    }
    if j == 1023 {
      MetBefore(m, d, vp, n, q);
    }
    if Met(m, d, i, vp, n + 1) {
      assert !InRange(PageAt(i, 1023), vp, n);
      forall k | 0 <= k < 1023
        ensures !t'[k].pr
      {
        assert t[k].pr ==> InRange(PageAt(i, k), vp, n + 1);
      }
    }
  }

  lemma StepAbsent(s: St, q: Page)
    requires !Pte(s.mem, s.cr3, q / ENTRIES, q % ENTRIES).pr
    ensures UnmapPage(s, s.cr3, q) == s
  {
  }

  lemma StepPresent(s: St, q: Page)
    requires Pte(s.mem, s.cr3, q / ENTRIES, q % ENTRIES).pr
    ensures var i, j := q / ENTRIES, q % ENTRIES;
            var f := s.mem[s.cr3][i].frame;
            var m1 := Put(s.mem, f, j, ZERO);
            var s1 := UnmapPage(s, s.cr3, q);
            && s1.cr3 == s.cr3
            && if OnlyLast(s.mem[f][j := ZERO]) then s1.mem == Put(m1, s.cr3, i, ZERO) && !s1.clean
               else s1.mem == m1 && s1.clean == s.clean
  {
    hide OnlyLast;
    var i, j := q / ENTRIES, q % ENTRIES;
    var f := s.mem[s.cr3][i].frame;
    assert Put(s.mem, f, j, ZERO)[f] == s.mem[f][j := ZERO];
  }

  lemma AfterMore(m: Mem, m1: Mem, d: Frame, vp: nat, n: nat, q: Page)
    requires After(m, m1, d, vp, n) && q == vp + n && Mappable(q) && !Pte(m1, d, q / ENTRIES, q % ENTRIES).pr
    requires forall i: Index :: Met(m, d, i, vp, n + 1) <==> Met(m, d, i, vp, n)
    ensures After(m, m1, d, vp, n + 1)
  {
    hide Met, Pte;
    PageAtParts(q);
  }

  lemma AfterClear(m: Mem, m0: Mem, d: Frame, vp: nat, n: nat, q: Page)
    requires After(m, m0, d, vp, n) && q == vp + n && Mappable(q) && m0[d][q / ENTRIES].pr
    requires forall i: Index :: Met(m, d, i, vp, n + 1) <==> Met(m, d, i, vp, n)
    ensures After(m, Put(m0, m0[d][q / ENTRIES].frame, q % ENTRIES, ZERO), d, vp, n + 1)
  {
    hide Met;
    PageAtParts(q);
    var f := m0[d][q / ENTRIES].frame;
    var m1 := Put(m0, f, q % ENTRIES, ZERO);
    forall i: Index, j: Index | i < 1023
      ensures Pte(m1, d, i, j) == if PageAt(i, j) == q then ZERO else Pte(m0, d, i, j)
    {
      PageAtIndex(i, j);
    }
    hide Pte;
  }

  lemma AfterDrop(m: Mem, m0: Mem, d: Frame, vp: nat, n: nat, q: Page)
    requires After(m, m0, d, vp, n) && q == vp + n && Mappable(q) && m0[d][q / ENTRIES].pr
    requires forall i: Index :: i != q / ENTRIES ==> (Met(m, d, i, vp, n + 1) <==> Met(m, d, i, vp, n))
    requires Met(m, d, q / ENTRIES, vp, n + 1)
    ensures After(m, Put(Put(m0, m0[d][q / ENTRIES].frame, q % ENTRIES, ZERO), d, q / ENTRIES, ZERO), d, vp, n + 1)
  {
    hide Met;
    PageAtParts(q);
    var f := m0[d][q / ENTRIES].frame;
    var m1 := Put(Put(m0, f, q % ENTRIES, ZERO), d, q / ENTRIES, ZERO);
    forall i: Index, j: Index | i < 1023 && i != q / ENTRIES
      ensures Pte(m1, d, i, j) == Pte(m0, d, i, j) && PageAt(i, j) != q
    {
      PageAtIndex(i, j);
    }
    hide Pte;
  }

  /** One more page: memory is as After says, and the step is clean unless it meets the guard. */
  lemma AfterStep(s: St, m: Mem, vp: nat, n: nat, n1: nat, q: Page)
    requires After(m, s.mem, s.cr3, vp, n) && q == vp + n && n1 == n + 1 && Mappable(q)
    ensures var s1 := UnmapPage(s, s.cr3, q);
            && After(m, s1.mem, s.cr3, vp, n1) && s1.cr3 == s.cr3
            && (s1.clean <==> s.clean && forall i: Index :: i < 1023 && Met(m, s.cr3, i, vp, n1) ==>
                  Met(m, s.cr3, i, vp, n))
            && (forall i: Index :: Met(m, s.cr3, i, vp, n) ==> Met(m, s.cr3, i, vp, n1))
  {
    var d, i, j := s.cr3, q / ENTRIES, q % ENTRIES;
    PageAtParts(q);
    StillThere(m, s.mem, d, vp, n, q);
    forall k: Index
      ensures k != i ==> (Met(m, d, k, vp, n + 1) <==> Met(m, d, k, vp, n))
      ensures Met(m, d, k, vp, n) ==> Met(m, d, k, vp, n + 1)
    {
      if k != i { MetElsewhere(m, d, k, vp, n, q); }
      if Met(m, d, k, vp, n) { MetMore(m, d, k, vp, n); }
    }
    hide After, Met, Pte, UnmapPage, OnlyLast;
    if !Pte(s.mem, d, i, j).pr {
      StepAbsent(s, q);
      if !Met(m, d, i, vp, n) { MetAbsent(m, d, vp, n, q); }
      AfterMore(m, s.mem, d, vp, n, q);
    } else {
      StepPresent(s, q);
      MetNow(m, s.mem, d, vp, n, q);
      if Met(m, d, i, vp, n + 1) {
        AfterDrop(m, s.mem, d, vp, n, q);
      } else {
        AfterClear(m, s.mem, d, vp, n, q);
      }
    }
  }

  /** Until it is unmapped itself, a page whose table has not been freed is as it was. */
  lemma StillThere(m: Mem, m1: Mem, d: Frame, vp: nat, n: nat, q: Page)
    requires After(m, m1, d, vp, n) && q == vp + n && Mappable(q)
    ensures var i, j := q / ENTRIES, q % ENTRIES;
            && (!Met(m, d, i, vp, n) ==> Pte(m1, d, i, j) == Pte(m, d, i, j) && m1[d][i] == m[d][i])
            && (Pte(m1, d, i, j).pr ==> m1[d][i].pr && !Met(m, d, i, vp, n))
  {
    PageAtParts(q);
  }

  lemma TransPte(s: St, d: Frame, p: Page)
    ensures Trans(s, d, p) ==
            var e := Pte(s.mem, d, p / ENTRIES, p % ENTRIES);
            if e.pr then Some(Mapping(e.frame, e.rw, e.user)) else None
  {
  }

  // ----- what is marked as unused

  /** The frame held one of the tables for which the guard is met. */
  ghost predicate GivenUp(m: Mem, d: Frame, vp: nat, n: nat, f: Frame) {
    exists i: Index :: i < 1023 && Met(m, d, i, vp, n) && m[d][i].frame == f
  }

  lemma StepMarks(s: St, q: Page)
    requires s.mem[s.cr3][q / ENTRIES].pr ==> s.mem[s.cr3][q / ENTRIES].frame != s.cr3
    ensures var t := s.mem[s.cr3][q / ENTRIES].frame;
            UnmapPage(s, s.cr3, q).marks ==
            if Pte(s.mem, s.cr3, q / ENTRIES, q % ENTRIES).pr && OnlyLast(s.mem[t][q % ENTRIES := ZERO])
            then s.marks[t := UNUSED] else s.marks
  {
    hide OnlyLast;
    var i, j := q / ENTRIES, q % ENTRIES;
    var t := s.mem[s.cr3][i].frame;
    var s1 := s.(mem := Put(s.mem, t, j, ZERO));
    assert s1.mem[t] == s.mem[t][j := ZERO];
    GiveOne(s1, t);
  }

  /** One more page: a table is given up exactly when the guard is met for it and was not before. */
  lemma MarksStep(s: St, m: Mem, vp: nat, n: nat, n1: nat, q: Page)
    requires After(m, s.mem, s.cr3, vp, n) && q == vp + n && n1 == n + 1 && Mappable(q)
    requires forall f: Frame :: GivenUp(m, s.cr3, vp, n, f) ==> s.marks[f] == UNUSED
    ensures forall f: Frame :: UnmapPage(s, s.cr3, q).marks[f] ==
              if GivenUp(m, s.cr3, vp, n1, f) then UNUSED else s.marks[f]
  {
    var d, i, j := s.cr3, q / ENTRIES, q % ENTRIES;
    PageAtParts(q);
    StillThere(m, s.mem, d, vp, n, q);
    TablesOwn(m, s.mem, d, vp, n, i);
    StepMarks(s, q);
    forall k: Index
      ensures k != i ==> (Met(m, d, k, vp, n1) <==> Met(m, d, k, vp, n))
      ensures Met(m, d, k, vp, n) ==> Met(m, d, k, vp, n1)
    {
      if k != i { MetElsewhere(m, d, k, vp, n, q); }
      if Met(m, d, k, vp, n) { MetMore(m, d, k, vp, n); }
    }
    if !Met(m, d, i, vp, n) {
      if !Pte(s.mem, d, i, j).pr {
        MetAbsent(m, d, vp, n, q);
      } else {
        MetNow(m, s.mem, d, vp, n, q);
      }
    }
    hide After, Met, Pte, UnmapPage, OnlyLast;
  }

  lemma TablesOwn(m: Mem, m1: Mem, d: Frame, vp: nat, n: nat, i: Index)
    requires After(m, m1, d, vp, n)
    ensures i < 1023 && m1[d][i].pr ==> m1[d][i].frame != d
  {
  }

  // ----- whole ranges

  lemma {:induction false} UnmapRangeAfter(s: St, vp: nat, n: nat)
    requires OwnTables(s.mem, s.cr3) && vp + n <= 1023 * ENTRIES
    ensures var s1 := UnmapRange(s, s.cr3, vp, n);
            && After(s.mem, s1.mem, s.cr3, vp, n) && s1.cr3 == s.cr3
            && (s1.clean <==> s.clean && forall i: Index :: i < 1023 ==> !Met(s.mem, s.cr3, i, vp, n))
  {
    hide After, Met, UnmapPage, OwnTables;
    if n == 0 {
      NoneMet(s.mem, s.cr3, vp);
    } else {
      UnmapRangeAfter(s, vp, n - 1);
      AfterStep(UnmapRange(s, s.cr3, vp, n - 1), s.mem, vp, n - 1, n, vp + n - 1);
    }
  }

  /** The frames of exactly the tables for which the guard is met become unused. */
  lemma {:induction false} UnmapRangeMarks(s: St, vp: nat, n: nat)
    requires OwnTables(s.mem, s.cr3) && vp + n <= 1023 * ENTRIES
    ensures forall f: Frame :: UnmapRange(s, s.cr3, vp, n).marks[f] ==
              if GivenUp(s.mem, s.cr3, vp, n, f) then UNUSED else s.marks[f]
  {
    hide After, Met, UnmapPage, OwnTables;
    if n == 0 {
      NoneMet(s.mem, s.cr3, vp);
    } else {
      UnmapRangeMarks(s, vp, n - 1);
      UnmapRangeAfter(s, vp, n - 1);
      MarksStep(UnmapRange(s, s.cr3, vp, n - 1), s.mem, vp, n - 1, n, vp + n - 1);
      GivenUpMore(s.mem, s.cr3, vp, n - 1, n);
    }
  }

  lemma GivenUpMore(m: Mem, d: Frame, vp: nat, n: nat, n1: nat)
    requires n1 == n + 1
    ensures forall f: Frame :: GivenUp(m, d, vp, n, f) ==> GivenUp(m, d, vp, n1, f)
  {
    forall i: Index | Met(m, d, i, vp, n)
      ensures Met(m, d, i, vp, n1)
    {
      MetMore(m, d, i, vp, n);
    }
    hide Met;
  }

  /** Unmapping a range frees no table, live or not, if and only if the guard is never met. */
  lemma UnmapRangeCleanIff(s: St, vp: nat, n: nat)
    requires Inv(s) && vp + n <= 1023 * ENTRIES
    ensures UnmapRange(s, s.cr3, vp, n).clean <==>
            s.clean && forall i: Index :: i < 1023 ==> !Met(s.mem, s.cr3, i, vp, n)
  {
    hide After, Met, Inv;
    InvOwnTables(s);
    UnmapRangeAfter(s, vp, n);
  }

  /** The guard is met for a table whose last page is not to be unmapped. */
  ghost predicate Loses(m: Mem, d: Frame, i: Index, vp: nat, n: nat) {
    Met(m, d, i, vp, n) && !InRange(PageAt(i, 1023), vp, n)
  }

  /** What unmapping a range does to a page of the loaded directory, whether or not the guard is met. */
  lemma UnmapRangeTrans(s: St, vp: nat, n: nat, p: Page)
    requires Inv(s) && vp + n <= 1023 * ENTRIES && Mappable(p)
    ensures Trans(UnmapRange(s, s.cr3, vp, n), s.cr3, p) ==
            if InRange(p, vp, n) || Loses(s.mem, s.cr3, p / ENTRIES, vp, n) then None else Trans(s, s.cr3, p)
  {
    hide Inv;
    InvOwnTables(s);
    UnmapRangeAfter(s, vp, n);
    PageAtParts(p);
    TransPte(s, s.cr3, p);
    TransPte(UnmapRange(s, s.cr3, vp, n), s.cr3, p);
    hide UnmapRange;
  }

  /**
   In the loaded directory, unmapping a range clears exactly the pages of the range if
   and only if the guard is met for no table but ones whose last page is in the range.
   */
  lemma UnmapRangeClearsIff(s: St, vp: nat, n: nat)
    requires Inv(s) && vp + n <= 1023 * ENTRIES
    ensures var s1 := UnmapRange(s, s.cr3, vp, n);
            (forall p: Page :: Mappable(p) ==>
               Trans(s1, s.cr3, p) == if InRange(p, vp, n) then None else Trans(s, s.cr3, p))
            <==> (forall i: Index :: i < 1023 ==> !Loses(s.mem, s.cr3, i, vp, n))
  {
    hide Inv, UnmapRange, Trans, Loses;
    forall p: Page | Mappable(p)
      ensures Trans(UnmapRange(s, s.cr3, vp, n), s.cr3, p) ==
              if InRange(p, vp, n) || Loses(s.mem, s.cr3, p / ENTRIES, vp, n) then None else Trans(s, s.cr3, p)
    {
      UnmapRangeTrans(s, vp, n, p);
    }
    forall i: Index | i < 1023 && Loses(s.mem, s.cr3, i, vp, n)
      ensures exists p: Page :: Mappable(p) && !InRange(p, vp, n) && Trans(s, s.cr3, p).Some? && p / ENTRIES == i
    {
      LastThere(s, i, vp, n);
    }
  }

  lemma LastThere(s: St, i: Index, vp: nat, n: nat)
    requires i < 1023 && Loses(s.mem, s.cr3, i, vp, n)
    ensures var p := PageAt(i, 1023); p / ENTRIES == i && Mappable(p) && !InRange(p, vp, n) && Trans(s, s.cr3, p).Some?
  {
    PageAtIndex(i, 1023);
    TransPte(s, s.cr3, PageAt(i, 1023));
  }
}
