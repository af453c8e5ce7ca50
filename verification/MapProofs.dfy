/**
 * The two-level table refines a flat page map: what memory_create_map
 * (src/kernel/mem.c:88-132) does to every page of the directory.
 */
module MapProofs {
  import opened Options
  import opened Paging
  import opened Mem

  /** The tables of d are distinct frames in use, none of them d itself. */
  ghost predicate WfDir(s: Vm, d: nat) {
    && d < |s.ram| && !Free(s, d)
    && (forall i :: 0 <= i < ENTRIES && HasTable(s, d, i) ==> GoodTable(s, d, i))
    && (forall i, j :: 0 <= i < j < ENTRIES && HasTable(s, d, i) && HasTable(s, d, j)
                       ==> TableOf(s, d, i) != TableOf(s, d, j))
  }

  predicate GoodTable(s: Vm, d: nat, i: nat)
    requires i < ENTRIES
  {
    TableOf(s, d, i) < |s.ram| && !Free(s, TableOf(s, d, i)) && TableOf(s, d, i) != d
  }

  lemma AllocFacts(s: Vm)
    requires WfVm(s)
    ensures var g := AllocFrame(s);
            && g.vm.ram == s.ram
            && match g.frame
               case None => g.vm == s && forall f: nat :: !Free(s, f)
               case Some(a) =>
                 && Free(s, a) && Used(g.vm, a) && a < |s.ram| && a < USER_PAGE
                 && (forall f: nat :: f < a ==> !Free(s, f))
                 && (forall f: nat :: f != a ==> Used(g.vm, f) == Used(s, f) && Free(g.vm, f) == Free(s, f))
  {
  }

  /** Storing an entry in a table of d changes that page's entry only. */
  lemma SetEntry(s: Vm, d: nat, n: nat, w: Word)
    requires WfVm(s) && WfDir(s, d) && n < VPAGES && HasTable(s, d, n / ENTRIES)
    ensures var t := SetWord(s, TableOf(s, d, n / ENTRIES), n % ENTRIES, w);
            && WfDir(t, d) && Frame(t, d) == Frame(s, d) && t.bits == s.bits
            && Entry(t, d, n) == w
            && (forall m :: 0 <= m < VPAGES && m != n ==> Entry(t, d, m) == Entry(s, d, m))
  {
    var i := n / ENTRIES;
    var u := TableOf(s, d, i);
    var t := SetWord(s, u, n % ENTRIES, w);
    assert GoodTable(s, d, i);
    assert Frame(t, d) == Frame(s, d);
    assert forall k :: 0 <= k < ENTRIES ==> HasTable(t, d, k) == HasTable(s, d, k) && TableOf(t, d, k) == TableOf(s, d, k);
    forall k | 0 <= k < ENTRIES && HasTable(t, d, k)
      ensures GoodTable(t, d, k)
    {
      assert GoodTable(s, d, k);
    }
    forall m | 0 <= m < VPAGES && m != n
      ensures Entry(t, d, m) == Entry(s, d, m)
    {
      SplitPage(m, n);
      var k := m / ENTRIES;
      if HasTable(s, d, k) && k != i {
        assert TableOf(s, d, k) != u;
      }
    }
  }

  lemma SplitPage(m: nat, n: nat)
    requires m != n && m < VPAGES && n < VPAGES
    ensures m / ENTRIES != n / ENTRIES || m % ENTRIES != n % ENTRIES
    ensures m / ENTRIES < ENTRIES && n / ENTRIES < ENTRIES
  {
  }

  /** A fresh, cleared table changes no page of d. */
  lemma AddTableFacts(s: Vm, d: nat, i: nat, a: nat)
    requires WfVm(s) && WfDir(s, d) && i < ENTRIES && !HasTable(s, d, i)
    requires Free(s, a)
    ensures var s1 := s.(bits := s.bits[a - FIRST := true]);
            var t := AddTable(s1, d, i, a);
            && WfDir(t, d) && HasTable(t, d, i) && TableOf(t, d, i) == a
            && (forall k :: 0 <= k < ENTRIES && k != i ==> Frame(t, d)[k] == Frame(s, d)[k])
            && (forall f: nat :: f != d && f != a ==> Frame(t, f) == Frame(s, f))
            && Frame(t, a) == ZeroPage() && t.bits == s1.bits
  {
    var s1 := s.(bits := s.bits[a - FIRST := true]);
    var t := AddTable(s1, d, i, a);
    MakePdeFields(a);
    EntryFields(a, 7);
    assert a != d;
    forall k | 0 <= k < ENTRIES && HasTable(t, d, k)
      ensures GoodTable(t, d, k) && (k != i ==> TableOf(t, d, k) != a)
    {
      if k != i {
        assert GoodTable(s, d, k);
      }
    }
    forall k, l | 0 <= k < l < ENTRIES && HasTable(t, d, k) && HasTable(t, d, l)
      ensures TableOf(t, d, k) != TableOf(t, d, l)
    {
      if k != i && l != i {
        assert HasTable(s, d, k) && HasTable(s, d, l) && TableOf(s, d, k) != TableOf(s, d, l);
      }
    }
  }

  lemma AddTableEntries(s: Vm, d: nat, i: nat, a: nat)
    requires WfVm(s) && WfDir(s, d) && i < ENTRIES && !HasTable(s, d, i)
    requires Free(s, a)
    ensures var t := AddTable(s.(bits := s.bits[a - FIRST := true]), d, i, a);
            forall m :: 0 <= m < VPAGES ==> Entry(t, d, m) == Entry(s, d, m)
  {
    AddTableFacts(s, d, i, a);
    var t := AddTable(s.(bits := s.bits[a - FIRST := true]), d, i, a);
    forall m | 0 <= m < VPAGES
      ensures Entry(t, d, m) == Entry(s, d, m)
    {
      var k := m / ENTRIES;
      if k != i && HasTable(s, d, k) {
        assert GoodTable(s, d, k);
      }
    }
  }

  /** t is s with entry w at page n of directory d; only d and its table for n are written. */
  ghost predicate Remapped(s: Vm, t: Vm, d: nat, n: nat, w: Word)
    requires n < VPAGES
  {
    && WfDir(t, d) && HasTable(t, d, n / ENTRIES)
    && Entry(t, d, n) == w
    && (forall k :: 0 <= k < VPAGES && k != n ==> Entry(t, d, k) == Entry(s, d, k))
    && (forall k :: 0 <= k < ENTRIES && k != n / ENTRIES ==> Frame(t, d)[k] == Frame(s, d)[k])
    && (forall f: nat :: f != d && f != TableOf(t, d, n / ENTRIES) ==> Frame(t, f) == Frame(s, f))
  }

  lemma MapWithTable(s: Vm, d: nat, n: nat, w: Word)
    requires WfVm(s) && WfDir(s, d) && n < VPAGES && HasTable(s, d, n / ENTRIES)
    ensures var m := MapPage(s, d, n, w);
            m.outcome == Done && Remapped(s, m.vm, d, n, w) && Frame(m.vm, d) == Frame(s, d) && m.vm.bits == s.bits
  {
    SetEntry(s, d, n, w);
  }

  lemma MapNewTable(s: Vm, d: nat, n: nat, w: Word)
    requires WfVm(s) && WfDir(s, d) && n < VPAGES && !HasTable(s, d, n / ENTRIES)
    requires AllocFrame(s).frame.Some?
    ensures var m := MapPage(s, d, n, w);
            && m.outcome == Done && Remapped(s, m.vm, d, n, w)
            && AllocFrame(s).frame == Some(TableOf(m.vm, d, n / ENTRIES)) && m.vm.bits == AllocFrame(s).vm.bits
  {
    var i := n / ENTRIES;
    AllocFacts(s);
    var g := AllocFrame(s);
    var a := g.frame.value;
    AddTableFacts(s, d, i, a);
    AddTableEntries(s, d, i, a);
    MapWithTable(AddTable(g.vm, d, i, a), d, n, w);
  }

  /** memory_create_map for one page fails only for want of a table, and then changes nothing. */
  lemma MapPageFacts(s: Vm, d: nat, n: nat, w: Word)
    requires WfVm(s) && WfDir(s, d) && n < VPAGES
    ensures var m := MapPage(s, d, n, w);
            && (m.outcome == Done ==> Remapped(s, m.vm, d, n, w))
            && (m.outcome != Done ==> m == Result(s, NoTable))
            && (m.outcome == Done <==> HasTable(s, d, n / ENTRIES) || AllocFrame(s).frame.Some?)
  {
    if HasTable(s, d, n / ENTRIES) {
      MapWithTable(s, d, n, w);
    } else if AllocFrame(s).frame.Some? {
      MapNewTable(s, d, n, w);
    }
  }

  // ---------------------------------------------------------------- ranges of pages

  /** How many pages m lies after page v, going round the address space. */
  function After(v: nat, m: nat): (k: nat)
    requires v < VPAGES && m < VPAGES
    ensures k < VPAGES && (v + k) % VPAGES == m
  {
    if v <= m then m - v else m + VPAGES - v
  }

  lemma NextPage(vaddr: Word)
    ensures var v' := (vaddr + PAGE_SIZE) % WORD_END;
            v' / PAGE_SIZE == if vaddr / PAGE_SIZE == VPAGES - 1 then 0 else vaddr / PAGE_SIZE + 1
  {
  }

  lemma NextAddr(paddr: Word, k: nat)
    ensures ((paddr + PAGE_SIZE) % WORD_END + k * PAGE_SIZE) % WORD_END == (paddr + (k + 1) * PAGE_SIZE) % WORD_END
  {
  }

  /** The entry of the k-th page of a mapped range. */
  function RangeEntry(paddr: Word, perm: Word, k: nat): Word {
    MakePte((paddr + k * PAGE_SIZE) % WORD_END, perm)
  }

  /** t maps the c pages from page v on to consecutive physical pages; the rest of the flat map is that of s. */
  ghost predicate MapsRange(s: Vm, t: Vm, d: nat, v: nat, paddr: Word, perm: Word, c: nat)
    requires v < VPAGES
  {
    forall m :: 0 <= m < VPAGES ==>
      Entry(t, d, m) == if After(v, m) < c then RangeEntry(paddr, perm, After(v, m)) else Entry(s, d, m)
  }

  lemma MapsRangeStep(s: Vm, s1: Vm, t: Vm, d: nat, vaddr: Word, paddr: Word, perm: Word, c: nat)
    requires Remapped(s, s1, d, vaddr / PAGE_SIZE, MakePte(paddr, perm)) && c < VPAGES
    requires MapsRange(s1, t, d, (vaddr + PAGE_SIZE) % WORD_END / PAGE_SIZE, (paddr + PAGE_SIZE) % WORD_END, perm, c)
    ensures MapsRange(s, t, d, vaddr / PAGE_SIZE, paddr, perm, c + 1)
  {
    hide MakePte, RangeEntry, Entry;
    NextPage(vaddr);
    var v, v' := vaddr / PAGE_SIZE, (vaddr + PAGE_SIZE) % WORD_END / PAGE_SIZE;
    forall m | 0 <= m < VPAGES
      ensures Entry(t, d, m) == if After(v, m) < c + 1 then RangeEntry(paddr, perm, After(v, m)) else Entry(s, d, m)
    {
      var k := After(v, m);
      assert After(v', m) == if k == 0 then VPAGES - 1 else k - 1;
      if k > 0 {
        RangeEntryNext(paddr, perm, k);
      } else {
        RangeEntryFirst(paddr, perm);
      }
    }
  }

  lemma RangeEntryFirst(paddr: Word, perm: Word)
    ensures RangeEntry(paddr, perm, 0) == MakePte(paddr, perm)
  {
  }

  lemma RangeEntryNext(paddr: Word, perm: Word, k: nat)
    requires k > 0
    ensures RangeEntry((paddr + PAGE_SIZE) % WORD_END, perm, k - 1) == RangeEntry(paddr, perm, k)
  {
    hide MakePte;
    NextAddr(paddr, k - 1);
  }

  /**
   * memory_create_map as a change of the flat map: the pages it got through
   * (`c` of them, all of them exactly on success) translate to consecutive
   * physical pages with the given permissions, every other page is as before.
   */
  lemma {:induction false} CreateMapRefines(s: Vm, d: nat, vaddr: Word, paddr: Word, count: nat, perm: Word) returns (c: nat)
    requires WfVm(s) && WfDir(s, d) && count <= VPAGES
    ensures var r := CreateMap(s, d, vaddr, paddr, count, perm);
            && WfDir(r.vm, d) && c <= count && (r.outcome == Done <==> c == count)
            && (r.outcome != Done ==> r.outcome == NoTable && AllocFrame(r.vm).frame == None)
            && MapsRange(s, r.vm, d, vaddr / PAGE_SIZE, paddr, perm, c)
    decreases count
  {
    hide MapPage, MakePte;
    if count == 0 {
      return 0;
    }
    var v, w := vaddr / PAGE_SIZE, MakePte(paddr, perm);
    var m := MapPage(s, d, v, w);
    assert (m.outcome == Done ==> Remapped(s, m.vm, d, v, w)) && (m.outcome != Done ==> m == Result(s, NoTable) && AllocFrame(s).frame == None) by {
      MapPageFacts(s, d, v, w);
    }
    if m.outcome != Done {
      return 0;
    }
    var vaddr', paddr' := (vaddr + PAGE_SIZE) % WORD_END, (paddr + PAGE_SIZE) % WORD_END;
    var t := CreateMap(m.vm, d, vaddr', paddr', count - 1, perm);
    assert CreateMap(s, d, vaddr, paddr, count, perm) == t;
    c := CreateMapRefines(m.vm, d, vaddr', paddr', count - 1, perm);
    MapsRangeStep(s, m.vm, t.vm, d, vaddr, paddr, perm, c);
    c := c + 1;
  }
}
