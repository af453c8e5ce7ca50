/**
 * Counting frames: how many are free, how many a page or a range of pages takes, and
 * when the frames run out just where a table is needed. All of it can be computed
 * before a call.
 */
module Frames {
  import opened Paging
  import opened Mem
  import opened MapProofs
  import opened Ownership

  /** Number of free frames. */
  function FreeCount(bits: seq<bool>): nat {
    if |bits| == 0 then 0 else FreeCount(bits[..|bits| - 1]) + if bits[|bits| - 1] then 0 else 1
  }

  lemma {:induction false} FreeCountZero(bits: seq<bool>)
    ensures FreeCount(bits) == 0 <==> forall k :: 0 <= k < |bits| ==> bits[k]
    decreases |bits|
  {
    if |bits| > 0 {
      FreeCountZero(bits[..|bits| - 1]);
      assert forall k :: 0 <= k < |bits| - 1 ==> bits[k] == bits[..|bits| - 1][k];
    }
  }

  lemma {:induction false} FreeCountMark(bits: seq<bool>, k: nat)
    requires k < |bits| && !bits[k]
    ensures FreeCount(bits[k := true]) == FreeCount(bits) - 1
    decreases |bits|
  {
    var n := |bits| - 1;
    if k == n {
      assert bits[k := true][..n] == bits[..n];
    } else {
      assert bits[k := true][..n] == bits[..n][k := true];
      FreeCountMark(bits[..n], k);
    }
  }

  lemma AllocCount(s: Vm)
    ensures var g := AllocFrame(s);
            && (g.frame.Some? <==> FreeCount(s.bits) > 0)
            && (g.frame.Some? ==> FreeCount(g.vm.bits) == FreeCount(s.bits) - 1)
  {
    FreeCountZero(s.bits);
    var k := LowestClear(s.bits, 0);
    if k < |s.bits| {
      FreeCountMark(s.bits, k);
    }
  }

  /** Frames taken by one new page: the page itself and, the first time, its table. */
  function PageCost(s: Vm, d: nat, n: nat): nat
    requires n < VPAGES
  {
    if HasTable(s, d, n / ENTRIES) then 1 else 2
  }

  lemma AllocMapCount(s: Vm, dirs: set<nat>, kern: set<nat>, owner: map<nat, Slot>, d: nat, n: nat, perm: Word)
    requires Owned(s, dirs, kern, owner) && d in dirs && USER_PAGE <= n < VPAGES
    ensures var m := AllocMap(s, d, n, perm);
            && (m.outcome == Done <==> FreeCount(s.bits) >= PageCost(s, d, n))
            && (m.outcome == NoTable <==> FreeCount(s.bits) == 1 && PageCost(s, d, n) == 2)
            && (m.outcome == Done ==>
                  && FreeCount(m.vm.bits) == FreeCount(s.bits) - PageCost(s, d, n)
                  && (forall k :: 0 <= k < ENTRIES ==> (HasTable(m.vm, d, k) <==> HasTable(s, d, k) || k == n / ENTRIES)))
  {
    hide SpaceOwned, Holds, KernelOwned, MapPage, MakePte, WfDir;
    AllocFacts(s);
    AllocCount(s);
    var g := AllocFrame(s);
    if g.frame.Some? {
      var w := MakePte(g.frame.value * PAGE_SIZE, perm);
      MarkOwned(s, dirs, kern, owner, g.frame.value);
      OwnedDir(g.vm, dirs, kern, owner, d);
      MapPageFacts(g.vm, d, n, w);
      AllocCount(g.vm);
      assert HasTable(g.vm, d, n / ENTRIES) == HasTable(s, d, n / ENTRIES);
      if MapPage(g.vm, d, n, w).outcome == Done {
        MapCount(s, g.vm, d, n, w);
      }
    }
  }

  lemma MapCount(s: Vm, s1: Vm, d: nat, n: nat, w: Word)
    requires WfVm(s1) && WfDir(s1, d) && n < VPAGES && s1.ram == s.ram && MapPage(s1, d, n, w).outcome == Done
    ensures var m := MapPage(s1, d, n, w);
            && (forall k :: 0 <= k < ENTRIES ==> (HasTable(m.vm, d, k) <==> HasTable(s, d, k) || k == n / ENTRIES))
            && m.vm.bits == if HasTable(s1, d, n / ENTRIES) then s1.bits else AllocFrame(s1).vm.bits
  {
    hide MapPage, Entry, WfDir, AllocFrame;
    var i := n / ENTRIES;
    assert forall k :: 0 <= k < ENTRIES ==> HasTable(s1, d, k) == HasTable(s, d, k);
    MapPageFacts(s1, d, n, w);
    if HasTable(s1, d, i) {
      MapWithTable(s1, d, n, w);
    } else {
      MapNewTable(s1, d, n, w);
    }
  }

  // ---------------------------------------------------------------- a range of pages

  /**
   * Frames needed for `count` pages from page v on: one each, and one for every directory
   * entry without a table. `have` is the entry of the page before, whose table exists by then.
   */
  function PagesCost(s: Vm, d: nat, v: nat, count: nat, have: int): nat
    requires v + count <= VPAGES
    decreases count
  {
    if count == 0 then 0
    else (if HasTable(s, d, v / ENTRIES) || v / ENTRIES == have then 1 else 2) + PagesCost(s, d, v + 1, count - 1, v / ENTRIES)
  }

  /** Having just created table i costs the later pages no more than its being remembered. */
  lemma {:induction false} PagesCostKept(s: Vm, t: Vm, d: nat, v: nat, count: nat, have: int, have': int, i: nat)
    requires v + count <= VPAGES && i < ENTRIES && i <= v / ENTRIES
    requires forall k :: i <= k < ENTRIES ==> (HasTable(t, d, k) <==> HasTable(s, d, k) || k == i)
    requires have == i || v / ENTRIES > i
    requires have' == have || (have' == -1 && have <= i)
    ensures PagesCost(t, d, v, count, have') == PagesCost(s, d, v, count, have)
    decreases count
  {
    if count > 0 {
      PagesCostKept(s, t, d, v + 1, count - 1, v / ENTRIES, v / ENTRIES, i);
    }
  }

  /**
   * With `free` frames for `count` pages from page v on, some page finds exactly one frame
   * left and needs two, for itself and for its table.
   */
  predicate ShortOfTable(s: Vm, d: nat, v: nat, count: nat, have: int, free: nat)
    requires v + count <= VPAGES
    decreases count
  {
    count > 0 &&
      var cost := if HasTable(s, d, v / ENTRIES) || v / ENTRIES == have then 1 else 2;
      if free >= cost then ShortOfTable(s, d, v + 1, count - 1, v / ENTRIES, free - cost) else free == 1
  }

  lemma {:induction false} ShortKept(s: Vm, t: Vm, d: nat, v: nat, count: nat, have: int, have': int, i: nat, free: nat)
    requires v + count <= VPAGES && i < ENTRIES && i <= v / ENTRIES
    requires forall k :: i <= k < ENTRIES ==> (HasTable(t, d, k) <==> HasTable(s, d, k) || k == i)
    requires have == i || v / ENTRIES > i
    requires have' == have || (have' == -1 && have <= i)
    ensures ShortOfTable(t, d, v, count, have', free) == ShortOfTable(s, d, v, count, have, free)
    decreases count
  {
    if count > 0 {
      var cost := if HasTable(s, d, v / ENTRIES) || v / ENTRIES == have then 1 else 2;
      if free >= cost {
        ShortKept(s, t, d, v + 1, count - 1, v / ENTRIES, v / ENTRIES, i, free - cost);
      }
    }
  }

  /** How many of the `count` pages from page v on find their frames among `free`. */
  function Fit(s: Vm, d: nat, v: nat, count: nat, have: int, free: nat): (n: nat)
    requires v + count <= VPAGES
    ensures n <= count
    decreases count
  {
    if count == 0 then 0
    else
      var cost := if HasTable(s, d, v / ENTRIES) || v / ENTRIES == have then 1 else 2;
      if free < cost then 0 else 1 + Fit(s, d, v + 1, count - 1, v / ENTRIES, free - cost)
  }

  lemma {:induction false} FitKept(s: Vm, t: Vm, d: nat, v: nat, count: nat, have: int, have': int, i: nat, free: nat)
    requires v + count <= VPAGES && i < ENTRIES && i <= v / ENTRIES
    requires forall k :: i <= k < ENTRIES ==> (HasTable(t, d, k) <==> HasTable(s, d, k) || k == i)
    requires have == i || v / ENTRIES > i
    requires have' == have || (have' == -1 && have <= i)
    ensures Fit(t, d, v, count, have', free) == Fit(s, d, v, count, have, free)
    decreases count
  {
    if count > 0 {
      var cost := if HasTable(s, d, v / ENTRIES) || v / ENTRIES == have then 1 else 2;
      if free >= cost {
        FitKept(s, t, d, v + 1, count - 1, v / ENTRIES, v / ENTRIES, i, free - cost);
      }
    }
  }
}
