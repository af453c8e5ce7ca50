/**
 * Who owns each frame. `owner` sends a frame to the one place that refers to it:
 * a directory, a user page table, or a user page. `kern` holds the frames of the
 * kernel tables and stacks. One value of the map per frame is what rules out a
 * second owner.
 */
module Ownership {
  import opened Paging
  import opened Mem
  import opened MapProofs

  datatype Slot =
    | DirSlot(d: nat)
    | TableSlot(d: nat, i: nat)
    | LeafSlot(d: nat, n: nat)

  /** The data frame behind page n. */
  function LeafOf(s: Vm, d: nat, n: nat): nat
    requires n < VPAGES
  {
    FrameOf(Entry(s, d, n))
  }

  /** Everything space d refers to is recorded as owned by exactly that reference. */
  ghost predicate SpaceOwned(s: Vm, d: nat, owner: map<nat, Slot>) {
    && d in owner && owner[d] == DirSlot(d)
    && (forall i :: 0 <= i < USER_PDE ==> Frame(s, d)[i] == Frame(s, s.kdir)[i])
    && (forall i :: USER_PDE <= i < ENTRIES && HasTable(s, d, i)
                    ==> TableOf(s, d, i) in owner && owner[TableOf(s, d, i)] == TableSlot(d, i))
    && (forall n :: USER_PAGE <= n < VPAGES && Mapped(s, d, n)
                    ==> LeafOf(s, d, n) in owner && owner[LeafOf(s, d, n)] == LeafSlot(d, n))
  }

  /** Frame f really is what `slot` refers to. */
  ghost predicate Holds(s: Vm, dirs: set<nat>, slot: Slot, f: nat) {
    && slot.d in dirs
    && match slot
       case DirSlot(d) => f == d
       case TableSlot(d, i) => USER_PDE <= i < ENTRIES && HasTable(s, d, i) && TableOf(s, d, i) == f
       case LeafSlot(d, n) => USER_PAGE <= n < VPAGES && Mapped(s, d, n) && LeafOf(s, d, n) == f
  }

  ghost predicate KernelOwned(s: Vm, kern: set<nat>) {
    && (forall f :: f in kern ==> Used(s, f))
    && (forall i :: 0 <= i < USER_PDE && HasTable(s, s.kdir, i) ==> TableOf(s, s.kdir, i) in kern)
    && (forall i, j :: 0 <= i < j < USER_PDE && HasTable(s, s.kdir, i) && HasTable(s, s.kdir, j)
                       ==> TableOf(s, s.kdir, i) != TableOf(s, s.kdir, j))
  }

  /** The ownership invariant: every owned frame is in use and has one owner. */
  ghost predicate Owned(s: Vm, dirs: set<nat>, kern: set<nat>, owner: map<nat, Slot>) {
    && WfVm(s) && KernelOwned(s, kern)
    && (forall d :: d in dirs ==> SpaceOwned(s, d, owner))
    && (forall f :: f in owner ==> Holds(s, dirs, owner[f], f) && Used(s, f) && f !in kern)
  }

  /** No frame is marked without being owned: nothing has leaked. */
  ghost predicate Exact(s: Vm, kern: set<nat>, owner: map<nat, Slot>) {
    forall f: nat :: Used(s, f) ==> f in owner || f in kern
  }

  /** Two references to one frame are the same reference. */
  lemma OneOwner(s: Vm, dirs: set<nat>, kern: set<nat>, owner: map<nat, Slot>, a: Slot, b: Slot, f: nat)
    requires Owned(s, dirs, kern, owner)
    requires Holds(s, dirs, a, f) && Holds(s, dirs, b, f)
    ensures a == b && Used(s, f) && f !in kern
  {
  }

  lemma OwnedDir(s: Vm, dirs: set<nat>, kern: set<nat>, owner: map<nat, Slot>, d: nat)
    requires Owned(s, dirs, kern, owner) && d in dirs
    ensures WfDir(s, d)
  {
    assert SpaceOwned(s, d, owner);
    forall i | 0 <= i < ENTRIES && HasTable(s, d, i)
      ensures GoodTable(s, d, i)
    {
      OwnedTable(s, dirs, kern, owner, d, i);
    }
    forall i, j | 0 <= i < j < ENTRIES && HasTable(s, d, i) && HasTable(s, d, j)
      ensures TableOf(s, d, i) != TableOf(s, d, j)
    {
      OwnedTable(s, dirs, kern, owner, d, i);
      OwnedTable(s, dirs, kern, owner, d, j);
    }
  }

  lemma LeafOwner(s: Vm, dirs: set<nat>, kern: set<nat>, owner: map<nat, Slot>, d: nat, n: nat)
    requires Owned(s, dirs, kern, owner) && d in dirs && USER_PAGE <= n < VPAGES && Mapped(s, d, n)
    ensures LeafOf(s, d, n) in owner && owner[LeafOf(s, d, n)] == LeafSlot(d, n) && Used(s, LeafOf(s, d, n))
    ensures LeafOf(s, d, n) !in kern && LeafOf(s, d, n) != s.kdir
  {
  }

  /** A table is a kernel frame in the kernel half, and an owned frame in the user half. */
  lemma OwnedTable(s: Vm, dirs: set<nat>, kern: set<nat>, owner: map<nat, Slot>, d: nat, i: nat)
    requires Owned(s, dirs, kern, owner) && d in dirs && i < ENTRIES && HasTable(s, d, i)
    ensures GoodTable(s, d, i)
    ensures i < USER_PDE ==> TableOf(s, d, i) in kern && HasTable(s, s.kdir, i) && TableOf(s, d, i) == TableOf(s, s.kdir, i)
    ensures i >= USER_PDE ==> TableOf(s, d, i) in owner && owner[TableOf(s, d, i)] == TableSlot(d, i)
  {
    assert SpaceOwned(s, d, owner);
    if i < USER_PDE {
      assert Frame(s, d)[i] == Frame(s, s.kdir)[i];
      assert HasTable(s, s.kdir, i);
    }
  }

  // ---------------------------------------------------------------- frame conditions

  /** t gives directory d the same directory entries and the same flat map as s. */
  ghost predicate SameSpace(s: Vm, t: Vm, d: nat) {
    && (forall i :: 0 <= i < ENTRIES ==> HasTable(t, d, i) == HasTable(s, d, i) && TableOf(t, d, i) == TableOf(s, d, i))
    && Frame(t, d) == Frame(s, d)
    && (forall n :: 0 <= n < VPAGES ==> Entry(t, d, n) == Entry(s, d, n))
  }

  /** A space none of whose directory and tables were written is the same space. */
  lemma Undisturbed(s: Vm, t: Vm, d: nat)
    requires Frame(t, d) == Frame(s, d)
    requires forall i :: 0 <= i < ENTRIES && HasTable(s, d, i) ==> Frame(t, TableOf(s, d, i)) == Frame(s, TableOf(s, d, i))
    ensures SameSpace(s, t, d)
  {
  }

  lemma SameSpaceRefl(s: Vm, d: nat)
    ensures SameSpace(s, s, d)
  {
  }

  lemma SameSpaceTrans(s: Vm, t: Vm, u: Vm, d: nat)
    requires SameSpace(s, t, d) && SameSpace(t, u, d)
    ensures SameSpace(s, u, d)
  {
  }

  lemma SameEntry(s: Vm, t: Vm, d: nat, n: nat)
    requires SameSpace(s, t, d) && n < VPAGES
    ensures Entry(t, d, n) == Entry(s, d, n)
  {
  }

  lemma HoldsTransfer(s: Vm, t: Vm, dirs: set<nat>, slot: Slot, f: nat)
    requires Holds(s, dirs, slot, f) && SameSpace(s, t, slot.d)
    ensures Holds(t, dirs, slot, f)
  {
  }

  lemma SpaceTransfer(s: Vm, t: Vm, d: nat, owner: map<nat, Slot>)
    requires SpaceOwned(s, d, owner) && SameSpace(s, t, d)
    requires t.kdir == s.kdir && Frame(t, t.kdir) == Frame(s, s.kdir)
    ensures SpaceOwned(t, d, owner)
  {
    forall n | USER_PAGE <= n < VPAGES && Mapped(t, d, n)
      ensures LeafOf(t, d, n) in owner && owner[LeafOf(t, d, n)] == LeafSlot(d, n)
    {
      assert Mapped(s, d, n);
    }
  }

  lemma KernelTransfer(s: Vm, t: Vm, kern: set<nat>)
    requires KernelOwned(s, kern) && t.kdir == s.kdir && Frame(t, t.kdir) == Frame(s, s.kdir)
    requires forall f :: f in kern ==> Used(t, f)
    ensures KernelOwned(t, kern)
  {
    assert forall i :: 0 <= i < USER_PDE ==> HasTable(t, t.kdir, i) == HasTable(s, s.kdir, i) && TableOf(t, t.kdir, i) == TableOf(s, s.kdir, i);
  }

  /** Ownership carries over to a state with the same spaces in which nothing owned was freed. */
  lemma OwnedTransfer(s: Vm, t: Vm, dirs: set<nat>, kern: set<nat>, owner: map<nat, Slot>)
    requires Owned(s, dirs, kern, owner) && SameShape(s, t)
    requires Frame(t, t.kdir) == Frame(s, s.kdir)
    requires forall d :: d in dirs ==> SameSpace(s, t, d)
    requires forall f :: f in kern ==> Used(t, f)
    requires forall f :: f in owner ==> Used(t, f)
    ensures Owned(t, dirs, kern, owner)
  {
    hide SameSpace;
    KernelTransfer(s, t, kern);
    forall d | d in dirs
      ensures SpaceOwned(t, d, owner)
    {
      SpaceTransfer(s, t, d, owner);
    }
    forall f | f in owner
      ensures Holds(t, dirs, owner[f], f)
    {
      HoldsTransfer(s, t, dirs, owner[f], f);
    }
  }

  /** Writing a frame that is no directory, table or kernel frame keeps ownership and every flat map. */
  lemma DataWrite(s: Vm, dirs: set<nat>, kern: set<nat>, owner: map<nat, Slot>, f: nat, p: Page)
    requires Owned(s, dirs, kern, owner) && f != s.kdir && f !in kern
    requires f in owner ==> owner[f].LeafSlot?
    ensures var t := SetFrame(s, f, p);
            Owned(t, dirs, kern, owner) && forall d :: d in dirs ==> SameSpace(s, t, d)
  {
    hide SameSpace;
    var t := SetFrame(s, f, p);
    forall d | d in dirs
      ensures SameSpace(s, t, d)
    {
      assert SpaceOwned(s, d, owner);
      forall i | 0 <= i < ENTRIES && HasTable(s, d, i)
        ensures TableOf(s, d, i) != f
      {
        OwnedTable(s, dirs, kern, owner, d, i);
      }
      Undisturbed(s, t, d);
    }
    OwnedTransfer(s, t, dirs, kern, owner);
  }

  /** Marking a free frame keeps ownership and every flat map. */
  lemma MarkOwned(s: Vm, dirs: set<nat>, kern: set<nat>, owner: map<nat, Slot>, f: nat)
    requires Owned(s, dirs, kern, owner) && Free(s, f)
    ensures Owned(s.(bits := s.bits[f - FIRST := true]), dirs, kern, owner)
    ensures f !in owner && f !in kern
  {
    hide SameSpace;
    var t := s.(bits := s.bits[f - FIRST := true]);
    forall d | d in dirs
      ensures SameSpace(s, t, d)
    {
      Undisturbed(s, t, d);
    }
    OwnedTransfer(s, t, dirs, kern, owner);
  }

  // ---------------------------------------------------------------- mapping a fresh page

  /** `owner'` records the same references of space d as `owner`. */
  ghost predicate Agree(owner: map<nat, Slot>, owner': map<nat, Slot>, d: nat) {
    forall f :: f in owner && owner[f].d == d ==> f in owner' && owner'[f] == owner[f]
  }

  lemma SpaceAgree(s: Vm, d: nat, owner: map<nat, Slot>, owner': map<nat, Slot>)
    requires SpaceOwned(s, d, owner) && Agree(owner, owner', d)
    ensures SpaceOwned(s, d, owner')
  {
  }

  /**
   * The situation after one successful AllocMap: page n of d was given the data
   * frame a, marked but unowned until then, and x is the table it was entered in,
   * either already the table of d or free.
   */
  ghost predicate NewPage(s: Vm, t: Vm, dirs: set<nat>, kern: set<nat>, owner: map<nat, Slot>, d: nat, n: nat, a: nat, x: nat) {
    && Owned(s, dirs, kern, owner) && SameShape(s, t) && d in dirs && USER_PAGE <= n < VPAGES
    && Used(s, a) && a !in owner && a !in kern
    && (exists w :: Remapped(s, t, d, n, w) && Present(w) && FrameOf(w) == a)
    && TableOf(t, d, n / ENTRIES) == x
    && if HasTable(s, d, n / ENTRIES) then Frame(t, d) == Frame(s, d) && t.bits == s.bits
       else Free(s, x) && t.bits == s.bits[x - FIRST := true]
  }

  /** The owner map after NewPage; a page that was mapped before loses its old frame. */
  function NewOwner(s: Vm, owner: map<nat, Slot>, d: nat, n: nat, a: nat, x: nat): map<nat, Slot>
    requires n < VPAGES
  {
    (if Mapped(s, d, n) then owner - {LeafOf(s, d, n)} else owner)[a := LeafSlot(d, n)][x := TableSlot(d, n / ENTRIES)]
  }

  /** Facts that follow about the table frame x. */
  lemma NewPageTable(s: Vm, t: Vm, dirs: set<nat>, kern: set<nat>, owner: map<nat, Slot>, d: nat, n: nat, a: nat, x: nat)
    requires NewPage(s, t, dirs, kern, owner, d, n, a, x)
    ensures x !in kern && x != a && Used(t, x) && x != d && x != s.kdir && d != s.kdir && d !in kern
    ensures x in owner ==> owner[x] == TableSlot(d, n / ENTRIES)
    ensures d in owner && owner[d] == DirSlot(d) && a != d
    ensures x in owner <==> HasTable(s, d, n / ENTRIES)
    ensures HasTable(t, d, n / ENTRIES)
    ensures Mapped(s, d, n) ==> LeafOf(s, d, n) in owner && owner[LeafOf(s, d, n)] == LeafSlot(d, n)
  {
  }

  lemma NewPageOthers(s: Vm, t: Vm, dirs: set<nat>, kern: set<nat>, owner: map<nat, Slot>, d: nat, n: nat, a: nat, x: nat, e: nat)
    requires NewPage(s, t, dirs, kern, owner, d, n, a, x) && e in dirs && e != d
    ensures SameSpace(s, t, e)
  {
    NewPageTable(s, t, dirs, kern, owner, d, n, a, x);
    assert SpaceOwned(s, e, owner);
    forall i | 0 <= i < ENTRIES && HasTable(s, e, i)
      ensures TableOf(s, e, i) != d && TableOf(s, e, i) != x
    {
      OwnedTable(s, dirs, kern, owner, e, i);
    }
    Undisturbed(s, t, e);
  }

  lemma NewPageTables(s: Vm, t: Vm, dirs: set<nat>, kern: set<nat>, owner: map<nat, Slot>, d: nat, n: nat, a: nat, x: nat, i: nat)
    requires NewPage(s, t, dirs, kern, owner, d, n, a, x) && USER_PDE <= i < ENTRIES && HasTable(t, d, i)
    ensures var owner' := NewOwner(s, owner, d, n, a, x);
            TableOf(t, d, i) in owner' && owner'[TableOf(t, d, i)] == TableSlot(d, i)
  {
    NewPageTable(s, t, dirs, kern, owner, d, n, a, x);
    if i != n / ENTRIES {
      assert SpaceOwned(s, d, owner);
      assert HasTable(s, d, i) && TableOf(s, d, i) == TableOf(t, d, i);
    }
  }

  lemma NewPageLeaves(s: Vm, t: Vm, dirs: set<nat>, kern: set<nat>, owner: map<nat, Slot>, d: nat, n: nat, a: nat, x: nat, m: nat)
    requires NewPage(s, t, dirs, kern, owner, d, n, a, x) && USER_PAGE <= m < VPAGES && Mapped(t, d, m)
    ensures var owner' := NewOwner(s, owner, d, n, a, x);
            LeafOf(t, d, m) in owner' && owner'[LeafOf(t, d, m)] == LeafSlot(d, m)
  {
    NewPageTable(s, t, dirs, kern, owner, d, n, a, x);
    if m != n {
      assert Entry(t, d, m) == Entry(s, d, m);
      assert SpaceOwned(s, d, owner);
      assert Mapped(s, d, m);
    }
  }

  lemma NewPageSelf(s: Vm, t: Vm, dirs: set<nat>, kern: set<nat>, owner: map<nat, Slot>, d: nat, n: nat, a: nat, x: nat)
    requires NewPage(s, t, dirs, kern, owner, d, n, a, x)
    ensures SpaceOwned(t, d, NewOwner(s, owner, d, n, a, x))
  {
    hide Entry, Owned;
    var owner' := NewOwner(s, owner, d, n, a, x);
    assert d in owner' && owner'[d] == DirSlot(d) by {
      NewPageTable(s, t, dirs, kern, owner, d, n, a, x);
    }
    forall i | 0 <= i < USER_PDE
      ensures Frame(t, d)[i] == Frame(t, t.kdir)[i]
    {
      KernelKept(s, t, dirs, kern, owner, d, n, a, x);
      KernelHalf(s, dirs, kern, owner, d, i);
    }
    forall i | USER_PDE <= i < ENTRIES && HasTable(t, d, i)
      ensures TableOf(t, d, i) in owner' && owner'[TableOf(t, d, i)] == TableSlot(d, i)
    {
      NewPageTables(s, t, dirs, kern, owner, d, n, a, x, i);
    }
    forall m | USER_PAGE <= m < VPAGES && Mapped(t, d, m)
      ensures LeafOf(t, d, m) in owner' && owner'[LeafOf(t, d, m)] == LeafSlot(d, m)
    {
      NewPageLeaves(s, t, dirs, kern, owner, d, n, a, x, m);
    }
  }

  lemma KernelHalf(s: Vm, dirs: set<nat>, kern: set<nat>, owner: map<nat, Slot>, d: nat, i: nat)
    requires Owned(s, dirs, kern, owner) && d in dirs && i < USER_PDE
    ensures Frame(s, d)[i] == Frame(s, s.kdir)[i]
  {
  }

  lemma NewPageHolds(s: Vm, t: Vm, dirs: set<nat>, kern: set<nat>, owner: map<nat, Slot>, d: nat, n: nat, a: nat, x: nat, f: nat)
    requires NewPage(s, t, dirs, kern, owner, d, n, a, x) && f in NewOwner(s, owner, d, n, a, x)
    ensures Holds(t, dirs, NewOwner(s, owner, d, n, a, x)[f], f) && Used(t, f) && f !in kern
  {
    NewPageTable(s, t, dirs, kern, owner, d, n, a, x);
    var slot := NewOwner(s, owner, d, n, a, x)[f];
    if f != a && f != x {
      assert f in owner && owner[f] == slot && Holds(s, dirs, slot, f);
      if slot.d != d {
        NewPageOthers(s, t, dirs, kern, owner, d, n, a, x, slot.d);
        HoldsTransfer(s, t, dirs, slot, f);
      } else {
        match slot
        case DirSlot(_) =>
        case TableSlot(_, i) =>
        case LeafSlot(_, m) =>
          assert m != n;
          assert Entry(t, d, m) == Entry(s, d, m);
      }
    }
  }

  lemma NewPageOwned(s: Vm, t: Vm, dirs: set<nat>, kern: set<nat>, owner: map<nat, Slot>, d: nat, n: nat, a: nat, x: nat)
    requires NewPage(s, t, dirs, kern, owner, d, n, a, x)
    ensures Owned(t, dirs, kern, NewOwner(s, owner, d, n, a, x))
  {
    hide SpaceOwned, Holds, SameSpace, Remapped;
    NewPageTable(s, t, dirs, kern, owner, d, n, a, x);
    var owner' := NewOwner(s, owner, d, n, a, x);
    assert Frame(t, t.kdir) == Frame(s, s.kdir) && KernelOwned(t, kern) by {
      KernelKept(s, t, dirs, kern, owner, d, n, a, x);
    }
    forall e | e in dirs
      ensures SpaceOwned(t, e, owner')
    {
      if e == d {
        NewPageSelf(s, t, dirs, kern, owner, d, n, a, x);
      } else {
        NewPageOthers(s, t, dirs, kern, owner, d, n, a, x, e);
        SpaceTransfer(s, t, e, owner);
        SpaceAgree(t, e, owner, owner');
      }
    }
    forall f | f in owner'
      ensures Holds(t, dirs, owner'[f], f) && Used(t, f) && f !in kern
    {
      NewPageHolds(s, t, dirs, kern, owner, d, n, a, x, f);
    }
  }

  lemma KernelKept(s: Vm, t: Vm, dirs: set<nat>, kern: set<nat>, owner: map<nat, Slot>, d: nat, n: nat, a: nat, x: nat)
    requires NewPage(s, t, dirs, kern, owner, d, n, a, x)
    ensures Frame(t, t.kdir) == Frame(s, s.kdir) && KernelOwned(t, kern)
  {
    NewPageTable(s, t, dirs, kern, owner, d, n, a, x);
    KernelTransfer(s, t, kern);
  }
}
