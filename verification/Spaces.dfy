/**
 * Creating and destroying address spaces (src/kernel/mem.c:190-205, 281-300).
 */
module Spaces {
  import opened Paging
  import opened Mem
  import opened MapProofs
  import opened Ownership

  // ---------------------------------------------------------------- memory_create_uvm

  /** t is s with the new, empty space d. */
  ghost predicate SpaceCreated(s: Vm, t: Vm, dirs: set<nat>, kern: set<nat>, owner: map<nat, Slot>, d: nat) {
    && SameShape(s, t) && Free(s, d) && d !in dirs && d !in owner && d !in kern
    && Owned(t, dirs + {d}, kern, owner[d := DirSlot(d)])
    && (forall f: nat :: Used(t, f) <==> Used(s, f) || f == d)
    && (forall f: nat :: f != d ==> Frame(t, f) == Frame(s, f))
    && (forall n :: USER_PAGE <= n < VPAGES ==> Entry(t, d, n) == 0)
    && (forall e :: e in dirs ==> SameSpace(s, t, e))
  }

  lemma NewDirOwned(s: Vm, dirs: set<nat>, kern: set<nat>, owner: map<nat, Slot>, d: nat)
    requires Owned(s, dirs, kern, owner) && Used(s, d) && d !in owner && d !in kern
    ensures var t := SetFrame(s, d, NewDir(Frame(s, s.kdir)));
            && SpaceOwned(t, d, owner[d := DirSlot(d)])
            && (forall n :: USER_PAGE <= n < VPAGES ==> Entry(t, d, n) == 0)
  {
  }

  /** memory_create_uvm fails only when no frame is free, and then changes nothing. */
  lemma CreateUvmOwned(s: Vm, dirs: set<nat>, kern: set<nat>, owner: map<nat, Slot>)
    requires Owned(s, dirs, kern, owner)
    ensures var g := CreateUvm(s);
            match g.frame
            case None => g.vm == s && forall f: nat :: !Free(s, f)
            case Some(d) => SpaceCreated(s, g.vm, dirs, kern, owner, d)
  {
    hide SpaceOwned, Holds, KernelOwned, SameSpace, NewDir, LowestClear;
    AllocFacts(s);
    var g := AllocFrame(s);
    if g.frame.Some? {
      var d, owner' := g.frame.value, owner[g.frame.value := DirSlot(g.frame.value)];
      MarkOwned(s, dirs, kern, owner, d);
      var t := SetFrame(g.vm, d, NewDir(Frame(s, s.kdir)));
      assert d !in dirs by {
        if d in dirs {
          DirUsed(s, dirs, kern, owner, d);
        }
      }
      DataWrite(g.vm, dirs, kern, owner, d, NewDir(Frame(s, s.kdir)));
      NewDirOwned(g.vm, dirs, kern, owner, d);
      forall e | e in dirs
        ensures SameSpace(s, t, e) && SpaceOwned(t, e, owner')
      {
        Undisturbed(s, g.vm, e);
        SameSpaceTrans(s, g.vm, t, e);
        SpaceAgree(t, e, owner, owner');
      }
      forall f | f in owner'
        ensures Holds(t, dirs + {d}, owner'[f], f)
      {
        if f != d {
          HoldsDir(t, dirs, owner[f], f);
          HoldsMore(t, dirs, dirs + {d}, owner[f], f);
        } else {
          DirHolds(t, dirs + {d}, d);
        }
      }
    }
  }

  lemma DirUsed(s: Vm, dirs: set<nat>, kern: set<nat>, owner: map<nat, Slot>, d: nat)
    requires Owned(s, dirs, kern, owner) && d in dirs
    ensures d in owner && owner[d] == DirSlot(d) && Used(s, d)
  {
  }

  lemma HoldsMore(s: Vm, dirs: set<nat>, dirs': set<nat>, slot: Slot, f: nat)
    requires Holds(s, dirs, slot, f) && slot.d in dirs'
    ensures Holds(s, dirs', slot, f)
  {
  }

  lemma DirHolds(s: Vm, dirs: set<nat>, d: nat)
    requires d in dirs
    ensures Holds(s, dirs, DirSlot(d), d)
  {
  }

  // ---------------------------------------------------------------- memory_destory_uvm

  /** addr_free_page of one frame clears that frame's mark and no other. */
  lemma FreeOne(s: Vm, f: nat)
    requires WfVm(s) && f < VPAGES
    ensures var t := FreePages(s, f * PAGE_SIZE, 1);
            t.ram == s.ram && forall g: nat :: Used(t, g) <==> Used(s, g) && g != f
  {
  }

  /** g is a page of table t, at entry j or later. */
  ghost predicate LeafIn(s: Vm, t: nat, j: nat, g: nat) {
    exists k :: j <= k < ENTRIES && Present(Frame(s, t)[k]) && FrameOf(Frame(s, t)[k]) == g
  }

  lemma {:induction false} FreeLeavesFacts(s: Vm, t: nat, j: nat)
    requires WfVm(s) && j <= ENTRIES
    ensures var r := FreeLeaves(s, t, j);
            r.ram == s.ram && forall g: nat :: Used(r, g) <==> Used(s, g) && !LeafIn(s, t, j, g)
    decreases ENTRIES - j
  {
    hide FreePages;
    if j < ENTRIES {
      var w := Frame(s, t)[j];
      var s1 := if Present(w) then FreePages(s, FrameOf(w) * PAGE_SIZE, 1) else s;
      if Present(w) {
        FreeOne(s, FrameOf(w));
      }
      FreeLeavesFacts(s1, t, j + 1);
      forall g: nat
        ensures LeafIn(s, t, j, g) <==> LeafIn(s1, t, j + 1, g) || (Present(w) && FrameOf(w) == g)
      {
        LeafInStep(s, s1, t, j, g);
      }
    }
  }

  lemma LeafInStep(s: Vm, s1: Vm, t: nat, j: nat, g: nat)
    requires j < ENTRIES && s1.ram == s.ram
    ensures LeafIn(s, t, j, g) <==> LeafIn(s1, t, j + 1, g) || (Present(Frame(s, t)[j]) && FrameOf(Frame(s, t)[j]) == g)
  {
    assert Frame(s1, t) == Frame(s, t);
    if LeafIn(s, t, j, g) {
      var k :| j <= k < ENTRIES && Present(Frame(s, t)[k]) && FrameOf(Frame(s, t)[k]) == g;
      if k > j {
        assert Present(Frame(s1, t)[k]) && FrameOf(Frame(s1, t)[k]) == g;
      }
    }
    if LeafIn(s1, t, j + 1, g) {
      var k :| j + 1 <= k < ENTRIES && Present(Frame(s1, t)[k]) && FrameOf(Frame(s1, t)[k]) == g;
      assert Present(Frame(s, t)[k]) && FrameOf(Frame(s, t)[k]) == g;
    }
  }

  /** g is table k of d, or a page in it. */
  ghost predicate InTable(s: Vm, d: nat, k: nat, g: nat)
    requires k < ENTRIES
  {
    HasTable(s, d, k) && (TableOf(s, d, k) == g || LeafIn(s, TableOf(s, d, k), 0, g))
  }

  /** g is a table of d, or a page of one, at directory entry i or later. */
  ghost predicate Refers(s: Vm, d: nat, i: nat, g: nat) {
    exists k :: i <= k < ENTRIES && InTable(s, d, k, g)
  }

  lemma RefersStep(s: Vm, s1: Vm, d: nat, i: nat, g: nat)
    requires i < ENTRIES && s1.ram == s.ram
    ensures Refers(s, d, i, g) <==> Refers(s1, d, i + 1, g) || InTable(s, d, i, g)
  {
    forall k | 0 <= k < ENTRIES
      ensures InTable(s1, d, k, g) == InTable(s, d, k, g)
    {
      assert forall f: nat :: Frame(s1, f) == Frame(s, f);
    }
  }

  lemma {:induction false} FreeTablesFacts(s: Vm, d: nat, i: nat)
    requires WfVm(s) && i <= ENTRIES
    ensures var r := FreeTables(s, d, i);
            r.ram == s.ram && forall g: nat :: Used(r, g) <==> Used(s, g) && !Refers(s, d, i, g)
    decreases ENTRIES - i
  {
    hide FreePages, FreeLeaves, LeafIn;
    if i < ENTRIES {
      var w := Frame(s, d)[i];
      var s1 := if Present(w) then FreePages(FreeLeaves(s, FrameOf(w), 0), FrameOf(w) * PAGE_SIZE, 1) else s;
      if Present(w) {
        FreeLeavesFacts(s, FrameOf(w), 0);
        FreeOne(FreeLeaves(s, FrameOf(w), 0), FrameOf(w));
      }
      FreeTablesFacts(s1, d, i + 1);
      forall g: nat
        ensures Refers(s, d, i, g) <==> Refers(s1, d, i + 1, g) || InTable(s, d, i, g)
      {
        RefersStep(s, s1, d, i, g);
      }
    }
  }

  /**
   * memory_destory_uvm, for any directory whatever: it writes no memory and unmarks
   * exactly the directory, its user tables and the pages in them.
   */
  lemma DestroyFrees(s: Vm, d: nat)
    requires WfVm(s) && d < VPAGES
    ensures var r := DestroyUvm(s, d);
            r.ram == s.ram && forall g: nat :: Used(r, g) <==> Used(s, g) && g != d && !Refers(s, d, USER_PDE, g)
  {
    hide FreePages, FreeTables;
    FreeTablesFacts(s, d, USER_PDE);
    FreeOne(FreeTables(s, d, USER_PDE), d);
  }

  /** For an owned space these are the frames recorded as its own. */
  lemma RefersOwned(s: Vm, dirs: set<nat>, kern: set<nat>, owner: map<nat, Slot>, d: nat, g: nat)
    requires Owned(s, dirs, kern, owner) && d in dirs
    ensures g == d || Refers(s, d, USER_PDE, g) <==> g in owner && owner[g].d == d
  {
    assert SpaceOwned(s, d, owner);
    if Refers(s, d, USER_PDE, g) {
      var i :| USER_PDE <= i < ENTRIES && InTable(s, d, i, g);
      if TableOf(s, d, i) != g {
        var j :| 0 <= j < ENTRIES && Present(Frame(s, TableOf(s, d, i))[j]) && FrameOf(Frame(s, TableOf(s, d, i))[j]) == g;
        var n := i * ENTRIES + j;
        assert n / ENTRIES == i && n % ENTRIES == j;
        assert Mapped(s, d, n);
      }
    }
    if g in owner && owner[g].d == d {
      assert Holds(s, dirs, owner[g], g);
      match owner[g]
      case DirSlot(_) =>
      case TableSlot(_, i) =>
        assert InTable(s, d, i, g);
      case LeafSlot(_, n) =>
        var i, j := n / ENTRIES, n % ENTRIES;
        assert Present(Frame(s, TableOf(s, d, i))[j]);
        assert InTable(s, d, i, g);
    }
  }

  /** The owner map without the frames of space d. */
  function Without(owner: map<nat, Slot>, d: nat): map<nat, Slot> {
    map f | f in owner && owner[f].d != d :: owner[f]
  }

  /** Destroying a space frees exactly its frames and keeps everything else, leaks included. */
  lemma DestroyOwned(s: Vm, dirs: set<nat>, kern: set<nat>, owner: map<nat, Slot>, d: nat)
    requires Owned(s, dirs, kern, owner) && d in dirs
    ensures d < VPAGES
    ensures var r := DestroyUvm(s, d);
            && r.ram == s.ram && Owned(r, dirs - {d}, kern, Without(owner, d))
            && (forall g: nat :: Used(r, g) <==> Used(s, g) && !(g in owner && owner[g].d == d))
            && (forall e :: e in dirs ==> SameSpace(s, r, e))
            && (Exact(s, kern, owner) <==> Exact(r, kern, Without(owner, d)))
  {
    hide SpaceOwned, Holds, SameSpace, DestroyUvm, Refers;
    DirUsed(s, dirs, kern, owner, d);
    DestroyFrees(s, d);
    var r, owner' := DestroyUvm(s, d), Without(owner, d);
    forall g: nat
      ensures Used(r, g) <==> Used(s, g) && !(g in owner && owner[g].d == d)
    {
      RefersOwned(s, dirs, kern, owner, d, g);
    }
    KernelTransfer(s, r, kern);
    forall e | e in dirs
      ensures SameSpace(s, r, e)
      ensures e != d ==> SpaceOwned(r, e, owner')
    {
      Undisturbed(s, r, e);
      if e != d {
        SpaceTransfer(s, r, e, owner);
        SpaceAgree(r, e, owner, owner');
      }
    }
    forall f | f in owner'
      ensures Holds(r, dirs - {d}, owner'[f], f)
    {
      HoldsDir(s, dirs, owner[f], f);
      HoldsTransfer(s, r, dirs, owner[f], f);
      HoldsMore(r, dirs, dirs - {d}, owner[f], f);
    }
  }

  lemma HoldsDir(s: Vm, dirs: set<nat>, slot: Slot, f: nat)
    requires Holds(s, dirs, slot, f)
    ensures slot.d in dirs
  {
  }
}
