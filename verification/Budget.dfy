/**
 * How many frames the allocating operations need. Both conditions below can be
 * computed before the call, and each operation succeeds exactly when its holds.
 */
module Budget {
  import opened Paging
  import opened Mem
  import opened MapProofs
  import opened Frames
  import opened Ownership
  import opened Growth
  import opened Spaces
  import opened Copying

  // ---------------------------------------------------------------- memory_alloc_for_page_dir

  /** memory_alloc_for_page_dir maps the whole range exactly when enough frames are free. */
  lemma {:induction false} AllocPagesSucceeds(s: Vm, dirs: set<nat>, kern: set<nat>, owner: map<nat, Slot>, d: nat,
                                              base: Word, vaddr: Word, i: nat, count: nat, perm: Word)
    requires Owned(s, dirs, kern, owner) && d in dirs && perm < PAGE_SIZE
    requires USER_PAGE <= vaddr / PAGE_SIZE && vaddr / PAGE_SIZE + count <= VPAGES
    ensures var r := AllocPages(s, d, base, vaddr, i, count, perm);
            var cost := PagesCost(s, d, vaddr / PAGE_SIZE, count, -1);
            && (r.outcome == Done <==> FreeCount(s.bits) >= cost)
            && (r.outcome == Done ==> FreeCount(r.vm.bits) == FreeCount(s.bits) - cost)
    decreases count
  {
    hide SpaceOwned, Holds, KernelOwned, AllocMap, MakePte, SameSpace, FreeCount, HasTable, PagesCost, PageCost, Kept, NoLeak, Orphaned, Leaked, Updated, Mapped, AllocFrame;
    var v := vaddr / PAGE_SIZE;
    if count == 0 {
      NoPages(s, d, v, -1);
    } else {
      FirstPage(s, d, v, count);
      AllocMapCount(s, dirs, kern, owner, d, v, perm);
      var m := AllocMap(s, d, v, perm);
      if count == 1 {
        NoPages(s, d, v + 1, v / ENTRIES);
      } else if m.outcome == Done {
        var owner' := AllocMapGrows(s, dirs, kern, owner, d, v, perm);
        NextPage(vaddr);
        AllocPagesSucceeds(m.vm, dirs, kern, owner', d, base, (vaddr + PAGE_SIZE) % WORD_END, i + 1, count - 1, perm);
        PagesCostKept(s, m.vm, d, v + 1, count - 1, v / ENTRIES, -1, v / ENTRIES);
      }
    }
  }

  lemma NoPages(s: Vm, d: nat, v: nat, have: int)
    requires v <= VPAGES
    ensures PagesCost(s, d, v, 0, have) == 0
  {
  }

  lemma FirstPage(s: Vm, d: nat, v: nat, count: nat)
    requires 0 < count && v + count <= VPAGES
    ensures PagesCost(s, d, v, count, -1) == PageCost(s, d, v) + PagesCost(s, d, v + 1, count - 1, v / ENTRIES)
  {
  }

  /** The tables that exist afterwards, from the last one used on. */
  ghost predicate TablesAfter(s: Vm, t: Vm, d: nat, v: nat, count: nat) {
    count > 0 && v + count <= VPAGES ==>
      forall k :: (v + count - 1) / ENTRIES <= k < ENTRIES ==>
        (HasTable(t, d, k) <==> HasTable(s, d, k) || k == (v + count - 1) / ENTRIES)
  }

  lemma {:induction false} AllocPagesTables(s: Vm, dirs: set<nat>, kern: set<nat>, owner: map<nat, Slot>, d: nat,
                                            base: Word, vaddr: Word, i: nat, count: nat, perm: Word)
    requires Owned(s, dirs, kern, owner) && d in dirs && perm < PAGE_SIZE
    requires USER_PAGE <= vaddr / PAGE_SIZE && vaddr / PAGE_SIZE + count <= VPAGES
    requires AllocPages(s, d, base, vaddr, i, count, perm).outcome == Done
    ensures TablesAfter(s, AllocPages(s, d, base, vaddr, i, count, perm).vm, d, vaddr / PAGE_SIZE, count)
    decreases count
  {
    hide SpaceOwned, Holds, KernelOwned, AllocMap, MakePte, SameSpace, FreeCount, HasTable;
    if count > 0 {
      var v := vaddr / PAGE_SIZE;
      AllocMapCount(s, dirs, kern, owner, d, v, perm);
      var m := AllocMap(s, d, v, perm);
      if count > 1 {
        var owner' := AllocMapGrows(s, dirs, kern, owner, d, v, perm);
        NextPage(vaddr);
        AllocPagesTables(m.vm, dirs, kern, owner', d, base, (vaddr + PAGE_SIZE) % WORD_END, i + 1, count - 1, perm);
        assert v + count - 1 == (v + 1) + (count - 1) - 1;
      }
    }
  }

  lemma {:induction false} PagesCostSplit(s: Vm, d: nat, v: nat, c: nat, c': nat, have: int)
    requires v + c + c' <= VPAGES
    ensures PagesCost(s, d, v, c + c', have)
         == PagesCost(s, d, v, c, have) + PagesCost(s, d, v + c, c', if c == 0 then have else (v + c - 1) / ENTRIES)
    decreases c
  {
    hide HasTable;
    if c > 0 {
      PagesCostSplit(s, d, v + 1, c - 1, c', v / ENTRIES);
      assert (v + 1) + (c - 1) == v + c && (c - 1) + c' == c + c' - 1;
    }
  }

  /** A range can be allocated in two calls for the price of one. */
  lemma PagesCostTwoCalls(s: Vm, t: Vm, d: nat, v: nat, c: nat, c': nat)
    requires v + c + c' <= VPAGES && TablesAfter(s, t, d, v, c) && (c == 0 ==> t == s)
    ensures PagesCost(s, d, v, c + c', -1) == PagesCost(s, d, v, c, -1) + PagesCost(t, d, v + c, c', -1)
  {
    PagesCostSplit(s, d, v, c, c', -1);
    if c > 0 {
      var i := (v + c - 1) / ENTRIES;
      PagesCostKept(s, t, d, v + c, c', i, -1, i);
    }
  }

  // ---------------------------------------------------------------- memory_copy_uvm

  /** Frames for the pages of directory entry i from entry j on; `have` says that the copy has the table. */
  function LeavesCost(s: Vm, from: nat, i: nat, j: nat, have: bool): nat
    requires i < ENTRIES && j <= ENTRIES
    decreases ENTRIES - j
  {
    if j == ENTRIES then 0
    else if !Mapped(s, from, i * ENTRIES + j) then LeavesCost(s, from, i, j + 1, have)
    else (if have then 1 else 2) + LeavesCost(s, from, i, j + 1, true)
  }

  /** Frames for directory entries i and up: every mapped page, and every table that has one. */
  function TablesCost(s: Vm, from: nat, i: nat): nat
    requires i <= ENTRIES
    decreases ENTRIES - i
  {
    if i == ENTRIES then 0
    else (if HasTable(s, from, i) then LeavesCost(s, from, i, 0, false) else 0) + TablesCost(s, from, i + 1)
  }

  /** With `free` frames for the pages of entry i from j on, some page finds exactly one left and needs two. */
  predicate ShortLeaves(s: Vm, from: nat, i: nat, j: nat, have: bool, free: nat)
    requires i < ENTRIES && j <= ENTRIES
    decreases ENTRIES - j
  {
    j < ENTRIES &&
      var cost := if have then 1 else 2;
      if !Mapped(s, from, i * ENTRIES + j) then ShortLeaves(s, from, i, j + 1, have, free)
      else if free >= cost then ShortLeaves(s, from, i, j + 1, true, free - cost)
      else free == 1
  }

  /** The same for the directory entries i and up. */
  predicate ShortTables(s: Vm, from: nat, i: nat, free: nat)
    requires i <= ENTRIES
    decreases ENTRIES - i
  {
    i < ENTRIES &&
      if !HasTable(s, from, i) then ShortTables(s, from, i + 1, free)
      else if free >= LeavesCost(s, from, i, 0, false) then ShortTables(s, from, i + 1, free - LeavesCost(s, from, i, 0, false))
      else ShortLeaves(s, from, i, 0, false, free)
  }

  /** In the copy so far, table i exists as `have` says and no later one does. */
  ghost predicate TablesUpTo(t: Vm, to: nat, i: nat, have: bool) {
    i < ENTRIES ==> (HasTable(t, to, i) <==> have) && forall k :: i < k < ENTRIES ==> !HasTable(t, to, k)
  }

  lemma CopyPageCount(s: Vm, t: Vm, dirs: set<nat>, kern: set<nat>, owner: map<nat, Slot>, owner1: map<nat, Slot>,
                      from: nat, to: nat, i: nat, n: nat, perm: Word, have: bool)
    requires CopyInv(s, t, dirs, kern, owner, owner1, from, to, n) && USER_PAGE <= n < VPAGES
    requires i == n / ENTRIES && TablesUpTo(t, to, i, have)
    ensures var m := CopyPage(t, from, to, n, perm);
            var cost := if have then 1 else 2;
            && (m.outcome == Done <==> FreeCount(t.bits) >= cost)
            && (m.outcome == NoTable <==> FreeCount(t.bits) == 1 && !have)
            && (m.outcome == Done ==> FreeCount(m.vm.bits) == FreeCount(t.bits) - cost && TablesUpTo(m.vm, to, i, true))
  {
    hide SpaceOwned, Holds, KernelOwned, AllocMap, MakePte, SameSpace, Entry, PageAt;
    AllocMapCount(t, dirs, kern, owner1, to, n, perm);
    AllocFacts(t);
    DirUsed(t, dirs, kern, owner1, to);
    var a, g := AllocMap(t, to, n, perm), AllocFrame(t);
    var m := CopyPage(t, from, to, n, perm);
    if a.outcome == Done {
      AllocMapGot(t, to, n, perm);
      assert g.frame.value != to && Frame(m.vm, to) == Frame(a.vm, to);
      assert forall k :: 0 <= k < ENTRIES ==> HasTable(m.vm, to, k) == HasTable(a.vm, to, k);
    }
  }

  lemma AllocMapGot(s: Vm, d: nat, n: nat, perm: Word)
    requires WfVm(s) && n < VPAGES && AllocMap(s, d, n, perm).outcome == Done
    ensures AllocFrame(s).frame.Some?
  {
  }

  lemma LeafEntry(t: Vm, d: nat, i: nat, j: nat)
    requires i < ENTRIES && j < ENTRIES && HasTable(t, d, i)
    ensures i * ENTRIES + j < VPAGES && Entry(t, d, i * ENTRIES + j) == Frame(t, TableOf(t, d, i))[j]
  {
    PageSplit(i, j);
  }

  lemma SourceEntry(s: Vm, t: Vm, dirs: set<nat>, kern: set<nat>, owner: map<nat, Slot>, owner1: map<nat, Slot>, from: nat, to: nat, n: nat)
    requires CopyInv(s, t, dirs, kern, owner, owner1, from, to, n) && USER_PAGE <= n < VPAGES
    ensures Entry(t, from, n) == Entry(s, from, n)
  {
    hide Owned, Entry, Mirrors;
    SourceKept(s, t, dirs, kern, owner, owner1, from, to, n);
  }

  lemma LastTables(t: Vm, to: nat, i: nat, have: bool)
    requires i < ENTRIES && TablesUpTo(t, to, i, have)
    ensures TablesUpTo(t, to, i + 1, false)
  {
  }

  lemma {:induction false} CopyLeavesSucceeds(s: Vm, t: Vm, dirs: set<nat>, kern: set<nat>, owner: map<nat, Slot>, owner1: map<nat, Slot>,
                                              from: nat, to: nat, i: nat, j: nat, have: bool)
    requires USER_PDE <= i < ENTRIES && j <= ENTRIES
    requires CopyInv(s, t, dirs, kern, owner, owner1, from, to, i * ENTRIES + j)
    requires Present(Frame(s, from)[i]) && TablesUpTo(t, to, i, have)
    ensures var r := CopyLeaves(t, from, to, i, FrameOf(Frame(s, from)[i]), j);
            var cost := LeavesCost(s, from, i, j, have);
            && (r.outcome == Done <==> FreeCount(t.bits) >= cost)
            && (r.outcome == NoTable <==> ShortLeaves(s, from, i, j, have, FreeCount(t.bits)))
            && (r.outcome == Done ==> FreeCount(r.vm.bits) == FreeCount(t.bits) - cost && TablesUpTo(r.vm, to, i + 1, false))
    decreases ENTRIES - j
  {
    hide CopyInv, CopyPage, PermOf, FreeCount, Entry, TablesUpTo;
    if j == ENTRIES {
      LastTables(t, to, i, have);
    } else {
      var n, x := i * ENTRIES + j, FrameOf(Frame(s, from)[i]);
      var w := Frame(t, x)[j];
      PageSplit(i, j);
      SourceTables(s, t, dirs, kern, owner, owner1, from, to, n, i);
      SourceEntry(s, t, dirs, kern, owner, owner1, from, to, n);
      LeafEntry(t, from, i, j);
      if !Present(w) {
        SkipPages(s, t, dirs, kern, owner, owner1, from, to, n, 1);
        CopyLeavesSucceeds(s, t, dirs, kern, owner, owner1, from, to, i, j + 1, have);
      } else {
        CopyPageCount(s, t, dirs, kern, owner, owner1, from, to, i, n, PermOf(w), have);
        var m := CopyPage(t, from, to, n, PermOf(w));
        var owner2 := CopyPageStep(s, t, dirs, kern, owner, owner1, from, to, n);
        if m.outcome == Done {
          CopyLeavesSucceeds(s, m.vm, dirs, kern, owner, owner2, from, to, i, j + 1, true);
        }
      }
    }
  }

  lemma {:induction false} CopyTablesSucceeds(s: Vm, t: Vm, dirs: set<nat>, kern: set<nat>, owner: map<nat, Slot>, owner1: map<nat, Slot>,
                                              from: nat, to: nat, i: nat)
    requires USER_PDE <= i <= ENTRIES && TablesUpTo(t, to, i, false)
    requires CopyInv(s, t, dirs, kern, owner, owner1, from, to, i * ENTRIES)
    ensures var r := CopyTables(t, from, from, to, i);
            && (r.outcome == Done <==> FreeCount(t.bits) >= TablesCost(s, from, i))
            && (r.outcome == NoTable <==> ShortTables(s, from, i, FreeCount(t.bits)))
    decreases ENTRIES - i
  {
    hide CopyInv, Grown, Kept, NoLeak, OneLeak, CopyLeaves, SpaceOwned, Holds, KernelOwned, FreeCount, LeavesCost, ShortLeaves;
    if i < ENTRIES {
      var w := Frame(t, from)[i];
      SourceTables(s, t, dirs, kern, owner, owner1, from, to, i * ENTRIES, i);
      if !Present(w) {
        forall m | i * ENTRIES <= m < i * ENTRIES + ENTRIES
          ensures !Mapped(t, from, m)
        {
          assert m / ENTRIES == i;
        }
        SkipPages(s, t, dirs, kern, owner, owner1, from, to, i * ENTRIES, ENTRIES);
        CopyTablesSucceeds(s, t, dirs, kern, owner, owner1, from, to, i + 1);
      } else {
        CopyLeavesSucceeds(s, t, dirs, kern, owner, owner1, from, to, i, 0, false);
        var owner', lost := CopyLeavesRun(s, t, dirs, kern, owner, owner1, from, to, i, 0);
        var m := CopyLeaves(t, from, to, i, FrameOf(w), 0);
        if m.outcome == Done {
          CopyTablesSucceeds(s, m.vm, dirs, kern, owner, owner', from, to, i + 1);
        }
      }
    }
  }

  /**
   * memory_copy_uvm succeeds exactly when the directory, the pages and the tables all find
   * a frame, and leaks one exactly when the frames run out at a page that needs a table.
   */
  lemma CopyUvmSucceeds(s: Vm, dirs: set<nat>, kern: set<nat>, owner: map<nat, Slot>, from: nat)
    requires Owned(s, dirs, kern, owner) && from in dirs
    ensures CopyUvm(s, from, from).outcome == Done <==> FreeCount(s.bits) >= 1 + TablesCost(s, from, USER_PDE)
    ensures CopyUvm(s, from, from).outcome == NoTable <==> FreeCount(s.bits) >= 1 && ShortTables(s, from, USER_PDE, FreeCount(s.bits) - 1)
  {
    hide SpaceOwned, Holds, KernelOwned, SameSpace, CopyTables, CopyInv, DestroyUvm, Entry, TablesCost, ShortTables, FreeCount;
    AllocCount(s);
    CreateUvmOwned(s, dirs, kern, owner);
    var g := CreateUvm(s);
    if g.frame.Some? {
      var to, s1, owner1 := g.frame.value, g.vm, owner[g.frame.value := DirSlot(g.frame.value)];
      CopyStart(s, s1, dirs, kern, owner, from, to);
      forall k | USER_PDE <= k < ENTRIES
        ensures !HasTable(s1, to, k)
      {
        assert Frame(s1, to) == NewDir(Frame(s, s.kdir)) && Frame(s1, to)[k] == 0;
      }
      CopyTablesSucceeds(s1, s1, dirs + {to}, kern, owner1, owner1, from, to, USER_PDE);
      TablesCostSame(s, s1, from, USER_PDE);
      ShortTablesSame(s, s1, from, USER_PDE, FreeCount(s1.bits));
    }
  }

  lemma {:induction false} LeavesCostSame(s: Vm, t: Vm, from: nat, i: nat, j: nat, have: bool)
    requires i < ENTRIES && j <= ENTRIES && SameSpace(s, t, from)
    ensures LeavesCost(t, from, i, j, have) == LeavesCost(s, from, i, j, have)
    decreases ENTRIES - j
  {
    hide SameSpace, Entry;
    if j < ENTRIES {
      PageSplit(i, j);
      SameEntry(s, t, from, i * ENTRIES + j);
      LeavesCostSame(s, t, from, i, j + 1, have);
      LeavesCostSame(s, t, from, i, j + 1, true);
    }
  }

  lemma {:induction false} ShortLeavesSame(s: Vm, t: Vm, from: nat, i: nat, j: nat, have: bool, free: nat)
    requires i < ENTRIES && j <= ENTRIES && SameSpace(s, t, from)
    ensures ShortLeaves(t, from, i, j, have, free) == ShortLeaves(s, from, i, j, have, free)
    decreases ENTRIES - j
  {
    hide SameSpace, Entry;
    if j < ENTRIES {
      PageSplit(i, j);
      SameEntry(s, t, from, i * ENTRIES + j);
      ShortLeavesSame(s, t, from, i, j + 1, have, free);
      if free >= 2 || (have && free == 1) {
        ShortLeavesSame(s, t, from, i, j + 1, true, free - if have then 1 else 2);
      }
    }
  }

  lemma {:induction false} TablesCostSame(s: Vm, t: Vm, from: nat, i: nat)
    requires i <= ENTRIES && SameSpace(s, t, from)
    ensures TablesCost(t, from, i) == TablesCost(s, from, i)
    decreases ENTRIES - i
  {
    if i < ENTRIES {
      LeavesCostSame(s, t, from, i, 0, false);
      TablesCostSame(s, t, from, i + 1);
    }
  }

  lemma {:induction false} ShortTablesSame(s: Vm, t: Vm, from: nat, i: nat, free: nat)
    requires i <= ENTRIES && SameSpace(s, t, from)
    ensures ShortTables(t, from, i, free) == ShortTables(s, from, i, free)
    decreases ENTRIES - i
  {
    hide LeavesCost, ShortLeaves, Entry;
    if i < ENTRIES {
      var cost := LeavesCost(s, from, i, 0, false);
      LeavesCostSame(s, t, from, i, 0, false);
      ShortLeavesSame(s, t, from, i, 0, false, free);
      ShortTablesSame(s, t, from, i + 1, free);
      if free >= cost {
        ShortTablesSame(s, t, from, i + 1, free - cost);
      }
    }
  }
}
