/**
 * Growing one address space (src/kernel/mem.c:208-239): what memory_alloc_for_page_dir
 * does to ownership, to the other spaces and to the flat map of its own.
 */
module Growth {
  import opened Options
  import opened Paging
  import opened Mem
  import opened MapProofs
  import opened Ownership
  import opened Frames

  /** f is the directory or a table of space d. */
  predicate Structure(owner: map<nat, Slot>, d: nat, f: nat) {
    f in owner && owner[f].d == d && !owner[f].LeafSlot?
  }

  /**
   * t is s after pages were added to space d. New frames were free and belong to d,
   * all other spaces and every frame in use that is not part of d's own tables are
   * untouched. The
   * only references that can disappear are pages of d that were mapped over.
   */
  ghost predicate Grown(s: Vm, t: Vm, dirs: set<nat>, kern: set<nat>, owner: map<nat, Slot>, owner': map<nat, Slot>, d: nat) {
    && SameShape(s, t) && Owned(t, dirs, kern, owner')
    && (forall f :: f in owner ==> if f in owner' then owner'[f] == owner[f] else owner[f].LeafSlot? && owner[f].d == d)
    && (forall f :: f in owner' && f !in owner ==> Free(s, f) && owner'[f].d == d)
    && (forall f: nat :: Used(s, f) ==> Used(t, f))
    && (forall f: nat :: Used(s, f) && !Structure(owner, d, f) ==> Frame(t, f) == Frame(s, f))
    && Frame(t, s.kdir) == Frame(s, s.kdir)
    && (forall e :: e in dirs && e != d ==> SameSpace(s, t, e))
  }

  /** Nothing that was owned lost its owner. */
  ghost predicate Kept(owner: map<nat, Slot>, owner': map<nat, Slot>) {
    forall f :: f in owner ==> f in owner' && owner'[f] == owner[f]
  }

  /** Every frame marked since s is owned. */
  ghost predicate NoLeak(s: Vm, t: Vm, owner': map<nat, Slot>) {
    forall f: nat :: Used(t, f) ==> Used(s, f) || f in owner'
  }


  lemma GrownRefl(s: Vm, dirs: set<nat>, kern: set<nat>, owner: map<nat, Slot>, d: nat)
    requires Owned(s, dirs, kern, owner)
    ensures Grown(s, s, dirs, kern, owner, owner, d) && Kept(owner, owner) && NoLeak(s, s, owner)
  {
  }

  lemma GrownTrans(s: Vm, t: Vm, u: Vm, dirs: set<nat>, kern: set<nat>,
                   owner: map<nat, Slot>, owner1: map<nat, Slot>, owner2: map<nat, Slot>, d: nat)
    requires Owned(s, dirs, kern, owner)
    requires Grown(s, t, dirs, kern, owner, owner1, d) && Grown(t, u, dirs, kern, owner1, owner2, d)
    ensures Grown(s, u, dirs, kern, owner, owner2, d)
  {
    hide SameSpace, SpaceOwned, Holds, KernelOwned;
    forall e | e in dirs && e != d
      ensures SameSpace(s, u, e)
    {
      SameSpaceTrans(s, t, u, e);
    }
    forall f | f in owner2 && f !in owner
      ensures Free(s, f) && owner2[f].d == d
    {
      if f !in owner1 {
        assert Free(t, f);
        assert !Used(s, f);
      }
    }
  }

  // ---------------------------------------------------------------- one page

  /** AllocMap on a user page of an owned space: the three outcomes. */
  lemma AllocMapCases(s: Vm, dirs: set<nat>, kern: set<nat>, owner: map<nat, Slot>, d: nat, n: nat, perm: Word)
    requires Owned(s, dirs, kern, owner) && d in dirs && USER_PAGE <= n < VPAGES && perm < PAGE_SIZE
    ensures var m := AllocMap(s, d, n, perm);
            var g := AllocFrame(s);
            match m.outcome
            case NoFrame => m.vm == s && g.frame == None
            case NoTable => g.frame.Some? && m.vm == g.vm && !HasTable(s, d, n / ENTRIES)
            case Done =>
              && g.frame.Some?
              && Remapped(g.vm, m.vm, d, n, MakePte(g.frame.value * PAGE_SIZE, perm))
              && NewPage(g.vm, m.vm, dirs, kern, owner, d, n, g.frame.value, TableOf(m.vm, d, n / ENTRIES))
  {
    hide SpaceOwned, Holds, KernelOwned, Remapped, MapPage, WfDir, MakePte;
    AllocFacts(s);
    var g := AllocFrame(s);
    if g.frame.Some? {
      var a := g.frame.value;
      MarkOwned(s, dirs, kern, owner, a);
      OwnedDir(g.vm, dirs, kern, owner, d);
      var w := MakePte(a * PAGE_SIZE, perm);
      MakePteFields(a, perm);
      EntryFields(a, if perm % 2 == 1 then perm else perm + 1);
      MapPageFacts(g.vm, d, n, w);
      if HasTable(g.vm, d, n / ENTRIES) {
        MapWithTable(g.vm, d, n, w);
      } else if AllocFrame(g.vm).frame.Some? {
        AllocFacts(g.vm);
        MapNewTable(g.vm, d, n, w);
      }
    }
  }

  /** A marked frame that lost its owner: what mapping over a present entry leaves behind. */
  ghost predicate Orphaned(s: Vm, kern: set<nat>, owner: map<nat, Slot>, owner': map<nat, Slot>, f: nat) {
    Used(s, f) && f in owner && f !in owner' && f !in kern
  }

  /** The frames written and the references lost by one new page. */
  lemma NewPageFrames(s: Vm, t: Vm, dirs: set<nat>, kern: set<nat>, owner: map<nat, Slot>, d: nat, n: nat, a: nat, x: nat)
    requires NewPage(s, t, dirs, kern, owner, d, n, a, x)
    ensures forall f: nat :: Used(s, f) && !Structure(owner, d, f) ==> Frame(t, f) == Frame(s, f)
    ensures forall f: nat :: Used(t, f) <==> Used(s, f) || f == x
    ensures (x in owner || Free(s, x)) && x != a && SameShape(s, t) && Frame(t, s.kdir) == Frame(s, s.kdir)
    ensures var owner' := NewOwner(s, owner, d, n, a, x);
            && (forall f :: f in owner ==> if f in owner' then owner'[f] == owner[f] else owner[f].LeafSlot? && owner[f].d == d)
            && (forall f :: f in owner' && f !in owner ==> (f == a || f == x) && owner'[f].d == d)
            && a in owner' && x in owner'
            && (!Mapped(s, d, n) ==> Kept(owner, owner')) && (Mapped(s, d, n) ==> Orphaned(s, kern, owner, owner', LeafOf(s, d, n)))
  {
    NewPageTable(s, t, dirs, kern, owner, d, n, a, x);
    KernelKept(s, t, dirs, kern, owner, d, n, a, x);
  }

  /** Marking frame a first, as addr_alloc_page does, and then adding the page grows space d. */
  lemma NewPageGrown(s: Vm, s1: Vm, t: Vm, dirs: set<nat>, kern: set<nat>, owner: map<nat, Slot>, d: nat, n: nat, a: nat, x: nat)
    requires n < VPAGES && Owned(s, dirs, kern, owner) && Free(s, a) && s1 == s.(bits := s.bits[a - FIRST := true])
    requires NewPage(s1, t, dirs, kern, owner, d, n, a, x)
    ensures var owner' := NewOwner(s1, owner, d, n, a, x);
            Grown(s, t, dirs, kern, owner, owner', d) && NoLeak(s, t, owner') && (!Mapped(s1, d, n) ==> Kept(owner, owner'))
            && (Mapped(s1, d, n) ==> Orphaned(s, kern, owner, owner', LeafOf(s1, d, n)))
  {
    hide SameSpace, SpaceOwned, Holds, KernelOwned, NewPage, Mapped, LeafOf, NewOwner;
    var owner' := NewOwner(s1, owner, d, n, a, x);
    NewPageFrames(s1, t, dirs, kern, owner, d, n, a, x);
    NewPageOwned(s1, t, dirs, kern, owner, d, n, a, x);
    forall e | e in dirs && e != d
      ensures SameSpace(s, t, e)
    {
      Undisturbed(s, s1, e);
      NewPageOthers(s1, t, dirs, kern, owner, d, n, a, x, e);
      SameSpaceTrans(s, s1, t, e);
    }
  }

  /** A marked but unowned frame: what a failed memory_create_map leaves behind. */
  ghost predicate Leaked(s: Vm, t: Vm, kern: set<nat>, owner': map<nat, Slot>, f: nat) {
    Free(s, f) && Used(t, f) && f !in owner' && f !in kern
  }

  /** A data frame is marked but the page could not be entered for want of a table. */
  lemma MarkGrown(s: Vm, dirs: set<nat>, kern: set<nat>, owner: map<nat, Slot>, d: nat, a: nat)
    requires Owned(s, dirs, kern, owner) && Free(s, a)
    ensures var t := s.(bits := s.bits[a - FIRST := true]);
            Grown(s, t, dirs, kern, owner, owner, d) && Leaked(s, t, kern, owner, a)
  {
    hide SameSpace, SpaceOwned, Holds, KernelOwned;
    var t := s.(bits := s.bits[a - FIRST := true]);
    MarkOwned(s, dirs, kern, owner, a);
    forall e | e in dirs
      ensures SameSpace(s, t, e)
    {
      Undisturbed(s, t, e);
    }
  }

  /** Page n of d now has entry w and no other page of d changed. */
  ghost predicate Updated(s: Vm, t: Vm, d: nat, n: nat, w: Word)
    requires n < VPAGES
  {
    Entry(t, d, n) == w && forall k :: 0 <= k < VPAGES && k != n ==> Entry(t, d, k) == Entry(s, d, k)
  }

  /** One round of the loop of memory_alloc_for_page_dir, in all three outcomes. */
  lemma AllocMapGrows(s: Vm, dirs: set<nat>, kern: set<nat>, owner: map<nat, Slot>, d: nat, n: nat, perm: Word)
    returns (owner': map<nat, Slot>)
    requires Owned(s, dirs, kern, owner) && d in dirs && USER_PAGE <= n < VPAGES && perm < PAGE_SIZE
    ensures var m := AllocMap(s, d, n, perm);
            var g := AllocFrame(s);
            && Grown(s, m.vm, dirs, kern, owner, owner', d)
            && (!Mapped(s, d, n) ==> Kept(owner, owner'))
            && match m.outcome
               case Done => g.frame.Some? && Free(s, g.frame.value) && NoLeak(s, m.vm, owner')
                            && (Mapped(s, d, n) ==> Orphaned(s, kern, owner, owner', LeafOf(s, d, n)))
                            && Updated(s, m.vm, d, n, MakePte(g.frame.value * PAGE_SIZE, perm))
               case NoFrame => m.vm == s && owner' == owner && NoLeak(s, m.vm, owner')
               case NoTable => g.frame.Some? && owner' == owner && Leaked(s, m.vm, kern, owner', g.frame.value)
                               && forall k :: 0 <= k < VPAGES ==> Entry(m.vm, d, k) == Entry(s, d, k)
  {
    hide SameSpace, SpaceOwned, Holds, KernelOwned, NewPage, AllocMap, MakePte, Grown, NoLeak, Leaked, Kept;
    AllocMapCases(s, dirs, kern, owner, d, n, perm);
    AllocFacts(s);
    var m, g := AllocMap(s, d, n, perm), AllocFrame(s);
    GrownRefl(s, dirs, kern, owner, d);
    match m.outcome
    case NoFrame =>
      owner' := owner;
    case NoTable =>
      owner' := owner;
      MarkGrown(s, dirs, kern, owner, d, g.frame.value);
    case Done =>
      var x := TableOf(m.vm, d, n / ENTRIES);
      owner' := NewOwner(g.vm, owner, d, n, g.frame.value, x);
      NewPageGrown(s, g.vm, m.vm, dirs, kern, owner, d, n, g.frame.value, x);
  }

  // ---------------------------------------------------------------- a range of pages

  /** addr_free_page with a user virtual address names no managed frame. */
  lemma FreeHighIsNoop(s: Vm, addr: Word, count: nat)
    requires WfVm(s) && addr / PAGE_SIZE >= USER_PAGE
    ensures FreePages(s, addr, count) == s
  {
  }

  /** The low bits stored for the given permissions: `perm | PTE_P`. */
  function LowBits(perm: Word): (r: Word)
    requires perm < PAGE_SIZE
    ensures r < PAGE_SIZE && r % 2 == 1
  {
    if perm % 2 == 1 then perm else perm + 1
  }

  /** Pages v .. v+c-1 of d are mapped with `perm`, each to a frame that was free in s; the rest is unchanged. */
  ghost predicate FreshRange(s: Vm, t: Vm, d: nat, v: nat, c: nat, perm: Word)
    requires perm < PAGE_SIZE
  {
    forall m :: 0 <= m < VPAGES ==>
      if v <= m < v + c
      then Mapped(t, d, m) && Entry(t, d, m) % PAGE_SIZE == LowBits(perm) && Free(s, LeafOf(t, d, m))
      else Entry(t, d, m) == Entry(s, d, m)
  }

  lemma FreshEntry(a: nat, perm: Word)
    requires a < VPAGES && perm < PAGE_SIZE
    ensures var w := MakePte(a * PAGE_SIZE, perm);
            Present(w) && w % PAGE_SIZE == LowBits(perm) && FrameOf(w) == a
  {
    MakePteFields(a, perm);
    EntryFields(a, LowBits(perm));
  }

  lemma FreshRangeStep(s: Vm, s1: Vm, t: Vm, d: nat, v: nat, a: nat, c: nat, perm: Word)
    requires perm < PAGE_SIZE && v < VPAGES && a < VPAGES && Free(s, a) && SameShape(s, s1)
    requires Updated(s, s1, d, v, MakePte(a * PAGE_SIZE, perm))
    requires forall f: nat :: Used(s, f) ==> Used(s1, f)
    requires FreshRange(s1, t, d, v + 1, c, perm)
    ensures FreshRange(s, t, d, v, c + 1, perm)
  {
    hide MakePte;
    FreshEntry(a, perm);
    forall m | 0 <= m < VPAGES
      ensures if v <= m < v + (c + 1)
              then Mapped(t, d, m) && Entry(t, d, m) % PAGE_SIZE == LowBits(perm) && Free(s, LeafOf(t, d, m))
              else Entry(t, d, m) == Entry(s, d, m)
    {
      if v < m < v + (c + 1) {
        assert Free(s1, LeafOf(t, d, m)) && !Used(s, LeafOf(t, d, m));
      }
    }
  }

  /** No page of the range is mapped. */
  ghost predicate Unmapped(s: Vm, d: nat, v: nat, c: nat) {
    forall m :: v <= m < v + c && m < VPAGES ==> !Mapped(s, d, m)
  }

  /** What was marked since s is owned, except the one frame `lost`. */
  ghost predicate OneLeak(s: Vm, t: Vm, kern: set<nat>, owner': map<nat, Slot>, lost: nat) {
    Leaked(s, t, kern, owner', lost) && forall f: nat :: Used(t, f) ==> Used(s, f) || f in owner' || f == lost
  }

  lemma LeakTrans(s: Vm, t: Vm, u: Vm, kern: set<nat>, owner1: map<nat, Slot>, owner2: map<nat, Slot>, lost: nat)
    requires SameShape(s, t) && NoLeak(s, t, owner1) && Kept(owner1, owner2) && OneLeak(t, u, kern, owner2, lost)
    requires forall f: nat :: Used(s, f) ==> Used(t, f)
    ensures OneLeak(s, u, kern, owner2, lost)
  {
  }

  lemma NoLeakTrans(s: Vm, t: Vm, u: Vm, owner1: map<nat, Slot>, owner2: map<nat, Slot>)
    requires NoLeak(s, t, owner1) && Kept(owner1, owner2) && NoLeak(t, u, owner2)
    ensures NoLeak(s, u, owner2)
  {
  }

  lemma OneLeakNow(s: Vm, kern: set<nat>, owner: map<nat, Slot>)
    requires WfVm(s) && AllocFrame(s).frame.Some?
    requires Leaked(s, AllocFrame(s).vm, kern, owner, AllocFrame(s).frame.value)
    ensures OneLeak(s, AllocFrame(s).vm, kern, owner, AllocFrame(s).frame.value)
  {
  }

  /** The result of an AllocPages run that got through c pages of the range. */
  ghost predicate PagesAdded(s: Vm, r: Result, dirs: set<nat>, kern: set<nat>, owner: map<nat, Slot>, owner': map<nat, Slot>,
                             d: nat, v: nat, c: nat, perm: Word, unmapped: bool, lost: nat)
    requires perm < PAGE_SIZE
  {
    && Grown(s, r.vm, dirs, kern, owner, owner', d) && FreshRange(s, r.vm, d, v, c, perm)
    && (unmapped ==> Kept(owner, owner'))
    && (unmapped && r.outcome != NoTable ==> NoLeak(s, r.vm, owner'))
    && (unmapped && r.outcome == NoTable ==> OneLeak(s, r.vm, kern, owner', lost))
  }

  lemma PagesAddedStep(s: Vm, s1: Vm, r: Result, dirs: set<nat>, kern: set<nat>,
                       owner: map<nat, Slot>, owner1: map<nat, Slot>, owner2: map<nat, Slot>,
                       d: nat, v: nat, a: nat, c: nat, perm: Word, unmapped: bool, lost: nat)
    requires perm < PAGE_SIZE && v < VPAGES && a < VPAGES && Owned(s, dirs, kern, owner)
    requires Grown(s, s1, dirs, kern, owner, owner1, d) && NoLeak(s, s1, owner1) && (unmapped ==> Kept(owner, owner1))
    requires Free(s, a) && Updated(s, s1, d, v, MakePte(a * PAGE_SIZE, perm))
    requires PagesAdded(s1, r, dirs, kern, owner1, owner2, d, v + 1, c, perm, unmapped, lost)
    ensures PagesAdded(s, r, dirs, kern, owner, owner2, d, v, c + 1, perm, unmapped, lost)
  {
    hide Updated, FreshRange, Owned, NoLeak, OneLeak, MakePte, SameSpace;
    GrownTrans(s, s1, r.vm, dirs, kern, owner, owner1, owner2, d);
    FreshRangeStep(s, s1, r.vm, d, v, a, c, perm);
    if unmapped && r.outcome == NoTable {
      LeakTrans(s, s1, r.vm, kern, owner1, owner2, lost);
    } else if unmapped {
      NoLeakTrans(s, s1, r.vm, owner1, owner2);
    }
  }

  lemma PagesAddedStop(s: Vm, dirs: set<nat>, kern: set<nat>, owner: map<nat, Slot>, d: nat, v: nat, o: Outcome, perm: Word, unmapped: bool)
    requires perm < PAGE_SIZE && Owned(s, dirs, kern, owner) && o != NoTable
    ensures PagesAdded(s, Result(s, o), dirs, kern, owner, owner, d, v, 0, perm, unmapped, 0)
  {
  }

  lemma PagesAddedLeak(s: Vm, dirs: set<nat>, kern: set<nat>, owner: map<nat, Slot>, d: nat, v: nat, perm: Word, unmapped: bool)
    requires perm < PAGE_SIZE && Owned(s, dirs, kern, owner) && AllocFrame(s).frame.Some?
    ensures PagesAdded(s, Result(AllocFrame(s).vm, NoTable), dirs, kern, owner, owner, d, v, 0, perm, unmapped, AllocFrame(s).frame.value)
  {
    hide SpaceOwned, Holds, KernelOwned, Entry, Grown;
    AllocFacts(s);
    var g := AllocFrame(s);
    MarkGrown(s, dirs, kern, owner, d, g.frame.value);
    OneLeakNow(s, kern, owner);
    assert forall m :: 0 <= m < VPAGES ==> Entry(g.vm, d, m) == Entry(s, d, m) by {
      Undisturbed(s, g.vm, d);
    }
  }

  lemma UnmappedStep(s: Vm, s1: Vm, d: nat, v: nat, count: nat, w: Word)
    requires v < VPAGES && count > 0 && Unmapped(s, d, v, count) && Updated(s, s1, d, v, w)
    ensures Unmapped(s1, d, v + 1, count - 1)
  {
    forall m | v + 1 <= m < v + 1 + (count - 1) && m < VPAGES
      ensures !Mapped(s1, d, m)
    {
      assert !Mapped(s, d, m);
    }
  }

  /** memory_alloc_for_page_dir fails for want of a table exactly when the frames run out at a page that needs one. */
  lemma {:induction false} AllocPagesShort(s: Vm, dirs: set<nat>, kern: set<nat>, owner: map<nat, Slot>, d: nat,
                                           base: Word, vaddr: Word, i: nat, count: nat, perm: Word)
    requires Owned(s, dirs, kern, owner) && d in dirs && perm < PAGE_SIZE
    requires USER_PAGE <= vaddr / PAGE_SIZE && vaddr / PAGE_SIZE + count <= VPAGES
    ensures AllocPages(s, d, base, vaddr, i, count, perm).outcome == NoTable <==> ShortOfTable(s, d, vaddr / PAGE_SIZE, count, -1, FreeCount(s.bits))
    decreases count
  {
    hide SpaceOwned, Holds, KernelOwned, AllocMap, MakePte, SameSpace, FreeCount, HasTable, FreePages, Kept, NoLeak, Orphaned, Leaked, Updated, Mapped, AllocFrame;
    if count > 0 {
      var v := vaddr / PAGE_SIZE;
      AllocMapCount(s, dirs, kern, owner, d, v, perm);
      var m := AllocMap(s, d, v, perm);
      if m.outcome == Done && count > 1 {
        var owner' := AllocMapGrows(s, dirs, kern, owner, d, v, perm);
        NextPage(vaddr);
        AllocPagesShort(m.vm, dirs, kern, owner', d, base, (vaddr + PAGE_SIZE) % WORD_END, i + 1, count - 1, perm);
        ShortKept(s, m.vm, d, v + 1, count - 1, v / ENTRIES, -1, v / ENTRIES, FreeCount(m.vm.bits));
      }
    }
  }

  /**
   * memory_alloc_for_page_dir on user pages: the first c pages of the range are mapped,
   * all of them exactly on success. Ownership is kept on every path; when the range was
   * unmapped nothing leaks, except for one data frame when the frames run out at a page
   * that needs a table.
   */
  lemma {:induction false} AllocPagesGrows(s: Vm, dirs: set<nat>, kern: set<nat>, owner: map<nat, Slot>, d: nat,
                                           base: Word, vaddr: Word, i: nat, count: nat, perm: Word, unmapped: bool)
    returns (owner': map<nat, Slot>, c: nat, lost: nat)
    requires Owned(s, dirs, kern, owner) && d in dirs && perm < PAGE_SIZE
    requires base / PAGE_SIZE >= USER_PAGE && USER_PAGE <= vaddr / PAGE_SIZE && vaddr / PAGE_SIZE + count <= VPAGES
    requires unmapped ==> Unmapped(s, d, vaddr / PAGE_SIZE, count)
    ensures var v := vaddr / PAGE_SIZE;
            var r := AllocPages(s, d, base, vaddr, i, count, perm);
            && c <= count && (c == count <==> r.outcome == Done)
            && (r.outcome == NoTable <==> ShortOfTable(s, d, v, count, -1, FreeCount(s.bits)))
            && PagesAdded(s, r, dirs, kern, owner, owner', d, v, c, perm, unmapped, lost)
    decreases count
  {
    hide AllocMap, FreshRange, OneLeak, NoLeak, Leaked, MakePte, AllocFrame, FreePages, Entry, PagesAdded, Updated, SpaceOwned, Holds, KernelOwned, SameSpace, ShortOfTable, FreeCount;
    var v := vaddr / PAGE_SIZE;
    AllocPagesShort(s, dirs, kern, owner, d, base, vaddr, i, count, perm);
    owner', c, lost := owner, 0, 0;
    if count == 0 {
      PagesAddedStop(s, dirs, kern, owner, d, v, Done, perm, unmapped);
      return;
    }
    var m, g := AllocMap(s, d, v, perm), AllocFrame(s);
    assert unmapped ==> !Mapped(s, d, v);
    var owner1 := AllocMapGrows(s, dirs, kern, owner, d, v, perm);
    match m.outcome
    case NoFrame =>
      PagesAddedStop(s, dirs, kern, owner, d, v, NoFrame, perm, unmapped);
    case NoTable =>
      lost := g.frame.value;
      AllocMapCases(s, dirs, kern, owner, d, v, perm);
      PagesAddedLeak(s, dirs, kern, owner, d, v, perm, unmapped);
      FreeHighIsNoop(m.vm, base, i + 1);
    case Done =>
      NextPage(vaddr);
      var vaddr' := (vaddr + PAGE_SIZE) % WORD_END;
      assert g.frame.value < VPAGES by {
        AllocFacts(s);
      }
      if unmapped {
        UnmappedStep(s, m.vm, d, v, count, MakePte(g.frame.value * PAGE_SIZE, perm));
      }
      if count == 1 {
        PagesAddedStop(m.vm, dirs, kern, owner1, d, v + 1, Done, perm, unmapped);
        owner' := owner1;
      } else {
        owner', c, lost := AllocPagesGrows(m.vm, dirs, kern, owner1, d, base, vaddr', i + 1, count - 1, perm, unmapped);
      }
      PagesAddedStep(s, m.vm, AllocPages(m.vm, d, base, vaddr', i + 1, count - 1, perm), dirs, kern, owner, owner1, owner', d, v, g.frame.value, c, perm, unmapped, lost);
      c := c + 1;
  }
}
