/**
 * Heap growth by sys_sbrk (src/kernel/mem.c:369-409).
 */
module Heap {
  import opened Options
  import opened Paging
  import opened Mem
  import opened Ownership
  import opened Frames
  import opened Growth
  import opened Budget

  const HEAP_PERM: Word := 7

  /** First page boundary at or after a heap end, as a page number. */
  function HeapPage(h: int): int {
    (h + PAGE_SIZE - 1) / PAGE_SIZE
  }

  lemma Up2Page(h: Word)
    requires h <= WORD_END - PAGE_SIZE
    ensures Up2(h) == HeapPage(h) * PAGE_SIZE
  {
    hide Up2;
    var up := Up2(h);
    assert up == up / PAGE_SIZE * PAGE_SIZE;
  }

  /** Rounding up relative to an aligned start. */
  lemma HeapPageShift(start: int, end: int)
    requires start % PAGE_SIZE == 0
    ensures HeapPage(end - start) == HeapPage(end) - start / PAGE_SIZE
  {
  }

  /** The start address sys_sbrk computes: the heap end moved up to a page boundary. */
  function HeapStart(h: Word): int {
    if h % PAGE_SIZE != 0 then h + (PAGE_SIZE - h % PAGE_SIZE) else h
  }

  lemma StartAligned(h: Word)
    ensures HeapStart(h) % PAGE_SIZE == 0 && HeapStart(h) == HeapPage(h) * PAGE_SIZE
  {
  }

  lemma Down2Aligned(a: Word)
    requires a % PAGE_SIZE == 0
    ensures Down2(a) == a
  {
    hide Down2;
    var down := Down2(a);
    assert down == down / PAGE_SIZE * PAGE_SIZE && a == a / PAGE_SIZE * PAGE_SIZE;
  }

  lemma SamePage(h: Word, incr: nat)
    requires h % PAGE_SIZE != 0 && h % PAGE_SIZE + incr <= PAGE_SIZE
    ensures HeapPage(h + incr) == HeapPage(h)
  {
  }

  lemma MorePages(h: Word, incr: nat)
    requires h + incr <= WORD_END - PAGE_SIZE && incr > 0
    requires h % PAGE_SIZE == 0 || h % PAGE_SIZE + incr > PAGE_SIZE
    ensures var start := HeapStart(h);
            && start < h + incr && (h + incr - start) % WORD_END == h + incr - start
            && Up2(h + incr - start) / PAGE_SIZE == HeapPage(h + incr) - HeapPage(h) > 0
            && HeapPage(h + incr) <= VPAGES
  {
    hide Up2;
    StartAligned(h);
    var size := h + incr - HeapStart(h);
    Up2Page(size);
    HeapPageShift(HeapStart(h), h + incr);
  }

  lemma HeapPageBounds(h: Word)
    requires USER_PAGE * PAGE_SIZE <= h <= WORD_END - PAGE_SIZE
    ensures USER_PAGE <= HeapPage(h) < VPAGES
  {
  }

  /** The call that sys_sbrk makes, if any: pages from the old to the new rounded heap end. */
  lemma SbrkCall(s: Vm, d: nat, h: Word, incr: nat)
    requires WfVm(s) && h >= USER_PAGE * PAGE_SIZE && h + incr <= WORD_END - PAGE_SIZE
    ensures var r := Sbrk(s, d, h, incr);
            var v, c := HeapPage(h), HeapPage(h + incr) - HeapPage(h);
            && USER_PAGE <= v < VPAGES && 0 <= c && v + c <= VPAGES
            && (c == 0 ==> r == SbrkResult(s, h + incr, Some(h)))
            && (c > 0 ==>
                  var a := AllocPages(s, d, v * PAGE_SIZE, v * PAGE_SIZE, 0, c, HEAP_PERM);
                  r == if a.outcome == NoTable then SbrkResult(a.vm, h, None) else SbrkResult(a.vm, h + incr, Some(h)))
  {
    hide AllocPages, Up2, Down2, HeapPage;
    HeapPageBounds(h);
    StartAligned(h);
    Wrap(h + incr);
    if incr == 0 {
    } else if h % PAGE_SIZE != 0 && h % PAGE_SIZE + incr <= PAGE_SIZE {
      SamePage(h, incr);
    } else {
      MorePages(h, incr);
      Wrap(HeapStart(h));
      Down2Aligned(HeapStart(h));
    }
  }

  /** Two adjacent fresh ranges make one. */
  lemma FreshRangeJoin(s: Vm, t: Vm, u: Vm, d: nat, v: nat, c: nat, c': nat, perm: Word)
    requires perm < PAGE_SIZE && SameShape(s, t) && (forall f: nat :: Used(s, f) ==> Used(t, f))
    requires FreshRange(s, t, d, v, c, perm) && FreshRange(t, u, d, v + c, c', perm)
    ensures FreshRange(s, u, d, v, c + c', perm)
  {
    forall m | 0 <= m < VPAGES
      ensures if v <= m < v + (c + c')
              then Mapped(u, d, m) && Entry(u, d, m) % PAGE_SIZE == LowBits(perm) && Free(s, LeafOf(u, d, m))
              else Entry(u, d, m) == Entry(s, d, m)
    {
      if v + c <= m < v + (c + c') {
        assert Free(t, LeafOf(u, d, m)) && !Used(s, LeafOf(u, d, m));
      }
    }
  }

  /** The heap grew by c pages from page v on: mapped once each, owned, nothing leaked or overwritten. */
  ghost predicate HeapGrown(s: Vm, t: Vm, dirs: set<nat>, kern: set<nat>, owner: map<nat, Slot>, owner': map<nat, Slot>, d: nat, v: nat, c: nat) {
    && Grown(s, t, dirs, kern, owner, owner', d) && Kept(owner, owner') && NoLeak(s, t, owner')
    && FreshRange(s, t, d, v, c, HEAP_PERM)
  }

  /** Frames one sbrk call needs. */
  function SbrkCost(s: Vm, d: nat, h: Word, incr: nat): nat
    requires h >= USER_PAGE * PAGE_SIZE && h + incr <= WORD_END - PAGE_SIZE
  {
    HeapPageRange(h, incr);
    PagesCost(s, d, HeapPage(h), HeapPage(h + incr) - HeapPage(h), -1)
  }

  lemma HeapPageRange(h: Word, incr: nat)
    requires h >= USER_PAGE * PAGE_SIZE && h + incr <= WORD_END - PAGE_SIZE
    ensures USER_PAGE <= HeapPage(h) <= HeapPage(h + incr) < VPAGES
  {
  }

  /**
   * One sys_sbrk call with enough frames: it returns the previous end and maps exactly
   * the pages between the two rounded ends.
   */
  lemma SbrkGrows(s: Vm, dirs: set<nat>, kern: set<nat>, owner: map<nat, Slot>, d: nat, h: Word, incr: nat)
    returns (owner': map<nat, Slot>)
    requires Owned(s, dirs, kern, owner) && d in dirs
    requires h >= USER_PAGE * PAGE_SIZE && h + incr <= WORD_END - PAGE_SIZE
    requires Unmapped(s, d, HeapPage(h), HeapPage(h + incr) - HeapPage(h))
    requires FreeCount(s.bits) >= SbrkCost(s, d, h, incr)
    ensures var r := Sbrk(s, d, h, incr);
            && r.ret == Some(h) && r.heapEnd == h + incr
            && HeapGrown(s, r.vm, dirs, kern, owner, owner', d, HeapPage(h), HeapPage(h + incr) - HeapPage(h))
            && FreeCount(r.vm.bits) == FreeCount(s.bits) - SbrkCost(s, d, h, incr)
            && TablesAfter(s, r.vm, d, HeapPage(h), HeapPage(h + incr) - HeapPage(h))
            && (HeapPage(h + incr) == HeapPage(h) ==> r.vm == s)
  {
    hide TablesAfter, SpaceOwned, Holds, KernelOwned, AllocPages, Sbrk, HeapPage, PagesCost, FreeCount, Unmapped, SameSpace;
    SbrkCall(s, d, h, incr);
    var v, c := HeapPage(h), HeapPage(h + incr) - HeapPage(h);
    if c == 0 {
      owner' := owner;
      GrownRefl(s, dirs, kern, owner, d);
      NoCost(s, d, v);
      NoTables(s, d, v);
    } else {
      AllocPagesSucceeds(s, dirs, kern, owner, d, v * PAGE_SIZE, v * PAGE_SIZE, 0, c, HEAP_PERM);
      AllocPagesTables(s, dirs, kern, owner, d, v * PAGE_SIZE, v * PAGE_SIZE, 0, c, HEAP_PERM);
      var n, lost;
      owner', n, lost := AllocPagesGrows(s, dirs, kern, owner, d, v * PAGE_SIZE, v * PAGE_SIZE, 0, c, HEAP_PERM, true);
    }
  }

  lemma NoCost(s: Vm, d: nat, v: nat)
    requires v <= VPAGES
    ensures PagesCost(s, d, v, 0, -1) == 0
  {
  }

  lemma NoTables(s: Vm, d: nat, v: nat)
    ensures TablesAfter(s, s, d, v, 0)
  {
  }

  // ---------------------------------------------------------------- runs of calls

  datatype HeapRun = HeapRun(vm: Vm, heapEnd: Word, rets: seq<Option<Word>>)

  /** A sequence of sys_sbrk calls by one task, with the values they return. */
  function SbrkRun(s: Vm, d: nat, h: Word, incrs: seq<nat>): (r: HeapRun)
    requires WfVm(s) && forall k :: 0 <= k < |incrs| ==> incrs[k] < 0x8000_0000
    ensures |r.rets| == |incrs|
    decreases |incrs|
  {
    if |incrs| == 0 then HeapRun(s, h, [])
    else
      var r := Sbrk(s, d, h, incrs[0]);
      var rest := SbrkRun(r.vm, d, r.heapEnd, incrs[1..]);
      HeapRun(rest.vm, rest.heapEnd, [r.ret] + rest.rets)
  }

  function Sum(xs: seq<nat>): nat
    decreases |xs|
  {
    if |xs| == 0 then 0 else xs[0] + Sum(xs[1..])
  }

  function SumTo(xs: seq<nat>, k: nat): nat
    requires k <= |xs|
  {
    Sum(xs[..k])
  }

  lemma HeapGrownJoin(s: Vm, t: Vm, u: Vm, dirs: set<nat>, kern: set<nat>, owner: map<nat, Slot>, owner1: map<nat, Slot>, owner2: map<nat, Slot>,
                      d: nat, v: nat, c: nat, c': nat)
    requires Owned(s, dirs, kern, owner)
    requires HeapGrown(s, t, dirs, kern, owner, owner1, d, v, c) && HeapGrown(t, u, dirs, kern, owner1, owner2, d, v + c, c')
    ensures HeapGrown(s, u, dirs, kern, owner, owner2, d, v, c + c')
  {
    hide Owned, SameSpace, FreshRange;
    GrownTrans(s, t, u, dirs, kern, owner, owner1, owner2, d);
    NoLeakTrans(s, t, u, owner1, owner2);
    FreshRangeJoin(s, t, u, d, v, c, c', HEAP_PERM);
  }

  lemma StillUnmapped(s: Vm, t: Vm, d: nat, v: nat, c: nat, c': nat)
    requires FreshRange(s, t, d, v, c, HEAP_PERM) && Unmapped(s, d, v, c + c')
    ensures Unmapped(t, d, v + c, c')
  {
    forall m | v + c <= m < v + c + c' && m < VPAGES
      ensures !Mapped(t, d, m)
    {
      assert !Mapped(s, d, m);
    }
  }

  /**
   * Any run of sys_sbrk calls with nonnegative increments and enough free frames: call k
   * returns the end left by the calls before it, and in the end exactly the pages between
   * the first and the last rounded heap end have been mapped, one frame each.
   */
  lemma {:induction false} SbrkRunGrows(s: Vm, dirs: set<nat>, kern: set<nat>, owner: map<nat, Slot>, d: nat, h: Word, incrs: seq<nat>)
    returns (owner': map<nat, Slot>)
    requires Owned(s, dirs, kern, owner) && d in dirs
    requires h >= USER_PAGE * PAGE_SIZE && h + Sum(incrs) <= WORD_END - PAGE_SIZE
    requires Unmapped(s, d, HeapPage(h), HeapPage(h + Sum(incrs)) - HeapPage(h))
    requires FreeCount(s.bits) >= SbrkCost(s, d, h, Sum(incrs))
    ensures forall k :: 0 <= k < |incrs| ==> incrs[k] < 0x8000_0000
    ensures var r := SbrkRun(s, d, h, incrs);
            && r.heapEnd == h + Sum(incrs)
            && (forall k :: 0 <= k < |incrs| ==> SumTo(incrs, k) <= Sum(incrs) && r.rets[k] == Some(h + SumTo(incrs, k)))
            && HeapGrown(s, r.vm, dirs, kern, owner, owner', d, HeapPage(h), HeapPage(h + Sum(incrs)) - HeapPage(h))
            && FreeCount(r.vm.bits) == FreeCount(s.bits) - SbrkCost(s, d, h, Sum(incrs))
    decreases |incrs|
  {
    hide SpaceOwned, Holds, KernelOwned, Sbrk, HeapPage, PagesCost, FreeCount, Unmapped, SameSpace, TablesAfter, HeapGrown, SumTo;
    if |incrs| == 0 {
      owner' := SbrkGrows(s, dirs, kern, owner, d, h, 0);
      SbrkCall(s, d, h, 0);
    } else {
      var i, rest := incrs[0], incrs[1..];
      var h1 := h + i;
      HeapPageRange(h, i);
      HeapPageRange(h1, Sum(rest));
      var v, c, c' := HeapPage(h), HeapPage(h1) - HeapPage(h), HeapPage(h1 + Sum(rest)) - HeapPage(h1);
      UnmappedPrefix(s, d, v, c, c');
      PagesCostSplit(s, d, v, c, c', -1);
      var owner1 := SbrkGrows(s, dirs, kern, owner, d, h, i);
      var r := Sbrk(s, d, h, i);
      PagesCostTwoCalls(s, r.vm, d, v, c, c');
      HeapGrownFacts(s, r.vm, dirs, kern, owner, owner1, d, v, c);
      StillUnmapped(s, r.vm, d, v, c, c');
      owner' := SbrkRunGrows(r.vm, dirs, kern, owner1, d, h1, rest);
      var u := SbrkRun(r.vm, d, h1, rest);
      HeapGrownJoin(s, r.vm, u.vm, dirs, kern, owner, owner1, owner', d, v, c, c');
      RetsJoin(h, incrs, r, u);
    }
  }

  lemma UnmappedPrefix(s: Vm, d: nat, v: nat, c: nat, c': nat)
    requires Unmapped(s, d, v, c + c')
    ensures Unmapped(s, d, v, c)
  {
  }

  lemma HeapGrownFacts(s: Vm, t: Vm, dirs: set<nat>, kern: set<nat>, owner: map<nat, Slot>, owner': map<nat, Slot>, d: nat, v: nat, c: nat)
    requires HeapGrown(s, t, dirs, kern, owner, owner', d, v, c)
    ensures Owned(t, dirs, kern, owner') && FreshRange(s, t, d, v, c, HEAP_PERM)
  {
  }

  lemma SumPrefix(xs: seq<nat>, k: nat)
    requires 0 < k <= |xs|
    ensures SumTo(xs, k) == xs[0] + SumTo(xs[1..], k - 1)
  {
    assert xs[..k][1..] == xs[1..][..k - 1];
  }

  lemma RetsJoin(h: Word, incrs: seq<nat>, r: SbrkResult, u: HeapRun)
    requires |incrs| > 0 && |u.rets| == |incrs| - 1 && h + Sum(incrs) < WORD_END && r.ret == Some(h)
    requires forall k :: 0 <= k < |u.rets| ==> SumTo(incrs[1..], k) <= Sum(incrs[1..]) && u.rets[k] == Some(h + incrs[0] + SumTo(incrs[1..], k))
    ensures forall k :: 0 <= k < |incrs| ==> SumTo(incrs, k) <= Sum(incrs) && ([r.ret] + u.rets)[k] == Some(h + SumTo(incrs, k))
  {
    assert Sum(incrs) == incrs[0] + Sum(incrs[1..]) && SumTo(incrs, 0) == 0;
    hide Sum, SumTo;
    forall k | 0 <= k < |incrs|
      ensures SumTo(incrs, k) <= Sum(incrs) && ([r.ret] + u.rets)[k] == Some(h + SumTo(incrs, k))
    {
      if k > 0 {
        SumPrefix(incrs, k);
        assert ([r.ret] + u.rets)[k] == u.rets[k - 1];
      }
    }
  }

  /** The data frames behind pages v .. v+c-1. */
  function DataFrames(t: Vm, d: nat, v: nat, c: nat): set<nat>
    requires v + c <= VPAGES
  {
    set n | v <= n < v + c :: LeafOf(t, d, n)
  }

  lemma DistinctLeaves(t: Vm, dirs: set<nat>, kern: set<nat>, owner: map<nat, Slot>, d: nat, n: nat, m: nat)
    requires Owned(t, dirs, kern, owner) && d in dirs && USER_PAGE <= n < m < VPAGES && Mapped(t, d, n) && Mapped(t, d, m)
    ensures LeafOf(t, d, n) != LeafOf(t, d, m)
  {
  }

  /** Grown pages take one frame each: c pages, c distinct data frames. */
  lemma {:induction false} DataFramesCount(t: Vm, dirs: set<nat>, kern: set<nat>, owner: map<nat, Slot>, d: nat, v: nat, c: nat)
    requires Owned(t, dirs, kern, owner) && d in dirs && USER_PAGE <= v && v + c <= VPAGES
    requires forall n :: v <= n < v + c ==> Mapped(t, d, n)
    ensures |DataFrames(t, d, v, c)| == c
    decreases c
  {
    hide LeafOf, Mapped, Owned;
    if c == 0 {
      assert DataFrames(t, d, v, c) == {};
    } else {
      var f, rest := LeafOf(t, d, v + c - 1), DataFrames(t, d, v, c - 1);
      DataFramesCount(t, dirs, kern, owner, d, v, c - 1);
      forall n | v <= n < v + (c - 1)
        ensures LeafOf(t, d, n) != f
      {
        DistinctLeaves(t, dirs, kern, owner, d, n, v + c - 1);
      }
      assert DataFrames(t, d, v, c) == rest + {f};
    }
  }

  /**
   * Without the frames the promise fails silently: running out of data frames is not
   * reported, so the heap end moves over pages that are not there. A call covers its
   * range exactly when enough frames were free before it.
   */
  lemma SbrkCovers(s: Vm, dirs: set<nat>, kern: set<nat>, owner: map<nat, Slot>, d: nat, h: Word, incr: nat)
    requires Owned(s, dirs, kern, owner) && d in dirs
    requires h >= USER_PAGE * PAGE_SIZE && h + incr <= WORD_END - PAGE_SIZE
    requires Unmapped(s, d, HeapPage(h), HeapPage(h + incr) - HeapPage(h))
    ensures USER_PAGE <= HeapPage(h) <= HeapPage(h + incr) < VPAGES
    ensures var r := Sbrk(s, d, h, incr);
            (forall n :: HeapPage(h) <= n < HeapPage(h + incr) ==> Mapped(r.vm, d, n)) <==> FreeCount(s.bits) >= SbrkCost(s, d, h, incr)
  {
    hide SpaceOwned, Holds, KernelOwned, AllocPages, Sbrk, HeapPage, PagesCost, FreeCount, SameSpace, Entry;
    SbrkCall(s, d, h, incr);
    HeapPageRange(h, incr);
    var v, c := HeapPage(h), HeapPage(h + incr) - HeapPage(h);
    NoCost(s, d, v);
    if c > 0 {
      AllocPagesSucceeds(s, dirs, kern, owner, d, v * PAGE_SIZE, v * PAGE_SIZE, 0, c, HEAP_PERM);
      var owner', n, lost := AllocPagesGrows(s, dirs, kern, owner, d, v * PAGE_SIZE, v * PAGE_SIZE, 0, c, HEAP_PERM, true);
      if n < c {
        assert !Mapped(s, d, v + n);
        assert !Mapped(Sbrk(s, d, h, incr).vm, d, v + n);
      }
    }
  }

  /** A machine with one managed frame, taken by an empty address space. */
  function FullMachine(): Vm {
    Vm(seq(FIRST + 1, _ => ZeroPage()), [true], 0)
  }

  lemma FullMachineOwned()
    ensures Owned(FullMachine(), {FIRST}, {}, map[FIRST := DirSlot(FIRST)])
    ensures forall n :: 0 <= n < VPAGES ==> Entry(FullMachine(), FIRST, n) == 0
  {
  }

  /** sbrk(4096) with no frame left: reported as a success, but the page is not mapped. */
  lemma SbrkOverrun()
    ensures WfVm(FullMachine())
    ensures var h := USER_PAGE * PAGE_SIZE;
            var r := Sbrk(FullMachine(), FIRST, h, PAGE_SIZE);
            r.ret == Some(h) && r.heapEnd == h + PAGE_SIZE && !Mapped(r.vm, FIRST, USER_PAGE)
  {
    hide Sbrk;
    FullMachineOwned();
    var s, h := FullMachine(), USER_PAGE * PAGE_SIZE;
    SbrkCall(s, FIRST, h, PAGE_SIZE);
    assert LowestClear(s.bits, 0) == 1;
    assert AllocPages(s, FIRST, h, h, 0, 1, HEAP_PERM) == Result(s, NoFrame);
  }
}
