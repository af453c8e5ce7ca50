/**
 * Concrete leaks: two machines, with no frame lost, on which one call marks a frame
 * that nobody owns (src/kernel/mem.c:221-226 and 322-340).
 */
module Leaks {
  import opened Options
  import opened Paging
  import opened Mem
  import opened Ownership
  import opened Frames
  import opened Growth
  import opened Copying
  import opened Budget
  import opened Heap
  import opened MemRuns

  /** Nobody can be said to own the marked frame f: no space refers to it. */
  ghost predicate Orphan(s: Vm, dirs: set<nat>, kern: set<nat>, f: nat) {
    Used(s, f) && f !in kern && forall slot: Slot :: !Holds(s, dirs, slot, f)
  }

  /** An orphan is a leak under every account of ownership. */
  lemma OrphanIsLeak(s: Vm, dirs: set<nat>, kern: set<nat>, owner: map<nat, Slot>, f: nat)
    requires Owned(s, dirs, kern, owner) && Orphan(s, dirs, kern, f)
    ensures !Exact(s, kern, owner)
  {
    hide Holds, SpaceOwned, KernelOwned;
    assert f !in owner;
  }

  // ---------------------------------------------------------------- sys_sbrk

  /** Two managed frames: an empty address space and a free frame. */
  function OneFrameLeft(): Vm {
    Vm(seq(FIRST + 2, _ => ZeroPage()), [true, false], 0)
  }

  lemma OneFrameLeftOwned()
    ensures var s := OneFrameLeft();
            && Owned(s, {FIRST}, {}, map[FIRST := DirSlot(FIRST)]) && Exact(s, {}, map[FIRST := DirSlot(FIRST)])
            && (forall i :: 0 <= i < ENTRIES ==> !HasTable(s, FIRST, i)) && FreeCount(s.bits) == 1
  {
    assert FreeCount([true, false][..1]) == 0;
  }

  /** sbrk of one page takes the last frame for the page, finds none for the table, reports failure and keeps the frame. */
  lemma SbrkLeaks()
    ensures var w := World(OneFrameLeft(), {FIRST}, {});
            var op := MemRuns.Grow(FIRST, USER_PAGE * PAGE_SIZE, PAGE_SIZE);
            && Owned(w.vm, w.dirs, w.kern, map[FIRST := DirSlot(FIRST)]) && Exact(w.vm, w.kern, map[FIRST := DirSlot(FIRST)])
            && Legal(w, op) && !Overwrites(w, op) && Short(w, op)
            && var (w', o) := Step(w, op);
               o == NoTable && w'.vm == w.vm.(bits := [true, true]) && Orphan(w'.vm, w'.dirs, w'.kern, FIRST + 1)
  {
    hide Sbrk;
    OneFrameLeftOwned();
    var s, h := OneFrameLeft(), USER_PAGE * PAGE_SIZE;
    assert HeapPage(h) == USER_PAGE && HeapPage(h + PAGE_SIZE) == USER_PAGE + 1;
    var w, op := World(s, {FIRST}, {}), MemRuns.Grow(FIRST, h, PAGE_SIZE);
    assert Unmapped(s, FIRST, USER_PAGE, 1);
    assert ShortOfTable(s, FIRST, USER_PAGE, 1, -1, 1);
    SbrkCall(s, FIRST, h, PAGE_SIZE);
    OnlyFrame(s, h);
    NoReference(s.(bits := [true, true]));
  }

  lemma OnlyFrame(s: Vm, h: Word)
    requires s == OneFrameLeft() && h == USER_PAGE * PAGE_SIZE
    ensures AllocPages(s, FIRST, h, h, 0, 1, HEAP_PERM) == Result(s.(bits := [true, true]), NoTable)
  {
    hide MakePte, FreePages;
    OneFrameLeftOwned();
    assert LowestClear(s.bits, 0) == 1;
    var t := s.(bits := [true, true]);
    assert AllocFrame(s) == Got(t, Some(FIRST + 1));
    assert LowestClear(t.bits, 0) == 2;
    assert AllocFrame(t) == Got(t, None);
    assert !HasTable(t, FIRST, USER_PAGE / ENTRIES);
    FreeHighIsNoop(t, h, 1);
  }

  lemma NoReference(t: Vm)
    requires t == OneFrameLeft().(bits := [true, true])
    ensures Orphan(t, {FIRST}, {}, FIRST + 1)
  {
    assert forall i :: 0 <= i < ENTRIES ==> !HasTable(t, FIRST, i);
  }

  // ---------------------------------------------------------------- memory_copy_uvm

  /** A directory whose one user table is in the next frame. */
  function SourceDir(): Page {
    ZeroPage()[USER_PDE := (FIRST + 1) * PAGE_SIZE + 7]
  }

  function SourceTable(): Page {
    ZeroPage()[0 := (FIRST + 2) * PAGE_SIZE + 7]
  }

  /** Five managed frames: an address space of one page, holding a letter, with its directory and table, and two free frames. */
  function TwoFramesLeft(): Vm {
    Vm(seq(FIRST, _ => ZeroPage()) + [SourceDir(), SourceTable(), ZeroPage()[0 := 65], ZeroPage(), ZeroPage()], [true, true, true, false, false], 0)
  }

  const SOURCE_OWNER: map<nat, Slot> := map[FIRST := DirSlot(FIRST), FIRST + 1 := TableSlot(FIRST, USER_PDE), FIRST + 2 := LeafSlot(FIRST, USER_PAGE)]

  lemma SourceFrames()
    ensures var s := TwoFramesLeft();
            Frame(s, FIRST) == SourceDir() && Frame(s, FIRST + 1) == SourceTable() && Frame(s, 0) == ZeroPage()
  {
  }

  /** The one mapped page is the first user page. */
  lemma SourceMap(n: nat)
    requires n < VPAGES
    ensures Entry(TwoFramesLeft(), FIRST, n) == if n == USER_PAGE then (FIRST + 2) * PAGE_SIZE + 7 else 0
  {
    SourceFrames();
    assert n / ENTRIES == USER_PDE && n % ENTRIES == 0 ==> n == USER_PAGE;
  }

  lemma TwoFramesLeftOwned()
    ensures Owned(TwoFramesLeft(), {FIRST}, {}, SOURCE_OWNER) && Exact(TwoFramesLeft(), {}, SOURCE_OWNER)
    ensures FreeCount(TwoFramesLeft().bits) == 2
  {
    hide Entry;
    var s := TwoFramesLeft();
    SourceFrames();
    forall n | 0 <= n < VPAGES
      ensures Entry(s, FIRST, n) == if n == USER_PAGE then (FIRST + 2) * PAGE_SIZE + 7 else 0
    {
      SourceMap(n);
    }
    hide FreeCount, TwoFramesLeft;
    TwoFree();
  }

  lemma TwoFree()
    ensures TwoFramesLeft().bits == [true, true, true, false, false] && FreeCount([true, true, true, false, false]) == 2
  {
    var bits := [true, true, true, false, false];
    assert bits[..4] == [true, true, true, false] && bits[..4][..3] == [true, true, true];
    FreeCountZero([true, true, true]);
  }

  /** The directory and the page take the two frames, the table finds none, and the page's frame stays marked. */
  lemma CopyLeaks() returns (lost: nat)
    ensures var w, op := World(TwoFramesLeft(), {FIRST}, {}), MemRuns.Copy(FIRST);
            && Owned(w.vm, w.dirs, w.kern, SOURCE_OWNER) && Exact(w.vm, w.kern, SOURCE_OWNER) && Legal(w, op) && Short(w, op)
            && var (w', o) := Step(w, op);
               && o == NoTable && w'.dirs == w.dirs && Free(w.vm, lost) && w'.vm.bits == w.vm.bits[lost - FIRST := true]
               && !Exact(w'.vm, w'.kern, SOURCE_OWNER)
  {
    hide Owned, CopyUvm, Entry, LeavesCost, SameSpace;
    TwoFramesLeftOwned();
    var s := TwoFramesLeft();
    SourceFrames();
    SourceMap(USER_PAGE);
    assert Mapped(s, FIRST, USER_PDE * ENTRIES + 0) && HasTable(s, FIRST, USER_PDE);
    assert ShortLeaves(s, FIRST, USER_PDE, 0, false, 1);
    ShortCost(s);
    assert ShortTables(s, FIRST, USER_PDE, 1);
    CopyUvmSucceeds(s, {FIRST}, {}, SOURCE_OWNER, FIRST);
    var owner';
    owner', lost := CopyUvmCopies(s, {FIRST}, {}, SOURCE_OWNER, FIRST);
    var r := CopyUvm(s, FIRST, FIRST);
    assert Used(r.vm, lost) && lost !in SOURCE_OWNER;
  }

  lemma ShortCost(s: Vm)
    requires Mapped(s, FIRST, USER_PDE * ENTRIES + 0)
    ensures LeavesCost(s, FIRST, USER_PDE, 0, false) >= 2
  {
  }

  // ---------------------------------------------------------------- mapping over a page

  /** Allocating the page that is mapped already succeeds, and nobody refers to its old frame any more. */
  lemma OverwriteLeaks() returns (owner': map<nat, Slot>)
    ensures var w, op := World(TwoFramesLeft(), {FIRST}, {}), MemRuns.Alloc(FIRST, USER_PAGE * PAGE_SIZE, PAGE_SIZE, 7);
            && Owned(w.vm, w.dirs, w.kern, SOURCE_OWNER) && Exact(w.vm, w.kern, SOURCE_OWNER) && Legal(w, op) && Overwrites(w, op)
            && var (w', o) := Step(w, op);
               o == Done && Owned(w'.vm, w'.dirs, w'.kern, owner') && !Exact(w'.vm, w'.kern, owner')
  {
    hide Owned, Exact, Entry, AllocPages, Up2, Down2;
    TwoFramesLeftOwned();
    SourceFrames();
    SourceMap(USER_PAGE);
    var s, v := TwoFramesLeft(), USER_PAGE;
    Up2Page(PAGE_SIZE);
    assert HeapPage(PAGE_SIZE) == 1;
    assert Mapped(s, FIRST, v) && HasTable(s, FIRST, v / ENTRIES);
    assert Fit(s, FIRST, v, 1, -1, 2) == 1 && PagesCost(s, FIRST, v, 1, -1) == 1;
    var w, op := World(s, {FIRST}, {}), MemRuns.Alloc(FIRST, v * PAGE_SIZE, PAGE_SIZE, 7);
    assert Overwrites(w, op);
    AllocPagesSucceeds(s, {FIRST}, {}, SOURCE_OWNER, FIRST, Down2(v * PAGE_SIZE), v * PAGE_SIZE, 0, 1, 7);
    owner' := StepKeepsOwnership(w, op, SOURCE_OWNER);
  }
}
