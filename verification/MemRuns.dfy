/**
 * Every run of the memory operations (src/kernel/mem.c:190-409): address spaces are
 * created, grown, copied and destroyed in any order, and ownership survives all of it.
 */
module MemRuns {
  import opened Paging
  import opened Mem
  import opened MapProofs
  import opened Ownership
  import opened Frames
  import opened Growth
  import opened Spaces
  import opened Copying
  import opened Budget
  import opened Heap

  /** `dirs` are the live address spaces, `kern` the frames of the kernel's tables and stacks. */
  datatype World = World(vm: Vm, dirs: set<nat>, kern: set<nat>)

  /**
   * TakePage and GivePage are memory_alloc_page and memory_free_page for kernel stacks.
   * `h` is the heap end of the task that calls sys_sbrk. Copy is of the active directory.
   */
  datatype Op =
    | TakePage
    | GivePage(f: nat)
    | Create
    | Alloc(d: nat, vaddr: Word, size: Word, perm: Word)
    | Grow(d: nat, h: Word, incr: nat)
    | Copy(d: nat)
    | Destroy(d: nat)

  /** What the kernel's callers respect: live directories, flag bits below the frame field, user pages. */
  ghost predicate Legal(w: World, op: Op) {
    match op
    case TakePage => true
    case GivePage(f) => f in w.kern && f < VPAGES && forall i :: 0 <= i < USER_PDE && HasTable(w.vm, w.vm.kdir, i) ==> TableOf(w.vm, w.vm.kdir, i) != f
    case Create => true
    case Alloc(d, vaddr, size, perm) =>
      d in w.dirs && perm < PAGE_SIZE && USER_PAGE <= vaddr / PAGE_SIZE && vaddr / PAGE_SIZE + Up2(size) / PAGE_SIZE <= VPAGES
    case Grow(d, h, incr) => d in w.dirs && USER_PAGE * PAGE_SIZE <= h && h + incr <= WORD_END - PAGE_SIZE
    case Copy(d) => d in w.dirs
    case Destroy(d) => d in w.dirs && d < VPAGES
  }

  /** The state after an operation, and how it ended. */
  ghost function Step(w: World, op: Op): (r: (World, Outcome))
    requires WfVm(w.vm) && Legal(w, op)
    ensures SameShape(w.vm, r.0.vm)
  {
    match op
    case TakePage =>
      var g := AllocFrame(w.vm);
      if g.frame.Some? then (w.(vm := g.vm, kern := w.kern + {g.frame.value}), Done) else (w, NoFrame)
    case GivePage(f) =>
      (w.(vm := FreePages(w.vm, f * PAGE_SIZE, 1), kern := w.kern - {f}), Done)
    case Create =>
      var g := CreateUvm(w.vm);
      if g.frame.Some? then (w.(vm := g.vm, dirs := w.dirs + {g.frame.value}), Done) else (w.(vm := g.vm), NoFrame)
    case Alloc(d, vaddr, size, perm) =>
      var r := AllocForDir(w.vm, d, vaddr, size, perm);
      (w.(vm := r.vm), r.outcome)
    case Grow(d, h, incr) =>
      var r := Sbrk(w.vm, d, h, incr);
      (w.(vm := r.vm), if r.ret.Some? then Done else NoTable)
    case Copy(d) =>
      var r := CopyUvm(w.vm, d, d);
      if r.outcome == Done then (w.(vm := r.vm, dirs := w.dirs + {r.dir}), Done) else (w.(vm := r.vm), r.outcome)
    case Destroy(d) =>
      (w.(vm := DestroyUvm(w.vm, d), dirs := w.dirs - {d}), Done)
  }

  /** The operation maps over a mapped page: one of the pages that will find frames has one already. */
  ghost predicate Overwrites(w: World, op: Op)
    requires Legal(w, op)
  {
    var free := FreeCount(w.vm.bits);
    match op
    case Alloc(d, vaddr, size, perm) =>
      var v, c := vaddr / PAGE_SIZE, Up2(size) / PAGE_SIZE;
      !Unmapped(w.vm, d, v, Fit(w.vm, d, v, c, -1, free))
    case Grow(d, h, incr) =>
      HeapPageRange(h, incr);
      var v, c := HeapPage(h), HeapPage(h + incr) - HeapPage(h);
      !Unmapped(w.vm, d, v, Fit(w.vm, d, v, c, -1, free))
    case _ => false
  }

  /** The operation will run out of frames at a page that needs a table: told from the state before it. */
  ghost predicate Short(w: World, op: Op)
    requires Legal(w, op)
  {
    var free := FreeCount(w.vm.bits);
    match op
    case Alloc(d, vaddr, size, perm) => ShortOfTable(w.vm, d, vaddr / PAGE_SIZE, Up2(size) / PAGE_SIZE, -1, free)
    case Grow(d, h, incr) =>
      HeapPageRange(h, incr);
      ShortOfTable(w.vm, d, HeapPage(h), HeapPage(h + incr) - HeapPage(h), -1, free)
    case Copy(d) => free >= 1 && ShortTables(w.vm, d, USER_PDE, free - 1)
    case _ => false
  }

  // ---------------------------------------------------------------- one step

  /** One page mapped: exactness is kept unless the page was mapped already, and then its old frame is lost. */
  lemma MapExact(s: Vm, t: Vm, dirs: set<nat>, kern: set<nat>, owner: map<nat, Slot>, owner': map<nat, Slot>, d: nat, overwrites: bool, f: nat)
    requires Owned(s, dirs, kern, owner) && Grown(s, t, dirs, kern, owner, owner', d) && NoLeak(s, t, owner')
    requires !overwrites ==> Kept(owner, owner')
    requires overwrites ==> Orphaned(s, kern, owner, owner', f)
    ensures Exact(t, kern, owner') <==> Exact(s, kern, owner) && !overwrites
  {
    hide SpaceOwned, Holds, KernelOwned, SameSpace;
    if Exact(t, kern, owner') {
      forall g: nat | Used(s, g)
        ensures g in owner || g in kern
      {
        assert Used(t, g);
      }
    }
  }

  lemma LeakInexact(s: Vm, t: Vm, kern: set<nat>, owner': map<nat, Slot>, f: nat)
    requires Leaked(s, t, kern, owner', f)
    ensures !Exact(t, kern, owner')
  {
  }

  lemma UnmappedAfter(s: Vm, t: Vm, d: nat, v: nat, c: nat, w: Word)
    requires v < VPAGES && Updated(s, t, d, v, w)
    ensures Unmapped(s, d, v, c + 1) <==> !Mapped(s, d, v) && Unmapped(t, d, v + 1, c)
  {
    hide Entry;
    assert forall m :: v + 1 <= m < VPAGES ==> Mapped(t, d, m) == Mapped(s, d, m);
    if !Mapped(s, d, v) && Unmapped(t, d, v + 1, c) {
      forall m | v <= m < v + (c + 1) && m < VPAGES
        ensures !Mapped(s, d, m)
      {
        assert m == v || !Mapped(t, d, m);
      }
    }
    if Unmapped(s, d, v, c + 1) {
      forall m | v + 1 <= m < v + 1 + c && m < VPAGES
        ensures !Mapped(t, d, m)
      {
        assert !Mapped(s, d, m);
      }
    }
  }

  /** With `free` frames the range loses none: no table is missed, and no page that finds a frame has one. */
  ghost predicate Lossless(s: Vm, d: nat, v: nat, count: nat, free: nat)
    requires v + count <= VPAGES
  {
    !ShortOfTable(s, d, v, count, -1, free) && Unmapped(s, d, v, Fit(s, d, v, count, -1, free))
  }

  lemma LosslessStep(s: Vm, t: Vm, d: nat, v: nat, count: nat, free: nat, w: Word)
    requires 0 < count && v + count <= VPAGES && free >= PageCost(s, d, v) && Updated(s, t, d, v, w)
    requires forall k :: 0 <= k < ENTRIES ==> (HasTable(t, d, k) <==> HasTable(s, d, k) || k == v / ENTRIES)
    ensures Lossless(s, d, v, count, free) <==> !Mapped(s, d, v) && Lossless(t, d, v + 1, count - 1, free - PageCost(s, d, v))
  {
    hide HasTable, Mapped, Unmapped, Updated;
    var free' := free - PageCost(s, d, v);
    assert ShortOfTable(s, d, v, count, -1, free) == ShortOfTable(s, d, v + 1, count - 1, v / ENTRIES, free');
    assert Fit(s, d, v, count, -1, free) == 1 + Fit(s, d, v + 1, count - 1, v / ENTRIES, free');
    if count > 1 {
      ShortKept(s, t, d, v + 1, count - 1, v / ENTRIES, -1, v / ENTRIES, free');
      FitKept(s, t, d, v + 1, count - 1, v / ENTRIES, -1, v / ENTRIES, free');
    }
    UnmappedAfter(s, t, d, v, Fit(t, d, v + 1, count - 1, -1, free'), w);
  }

  lemma LosslessEnd(s: Vm, d: nat, v: nat, count: nat, free: nat)
    requires v + count <= VPAGES && (count > 0 ==> free < PageCost(s, d, v))
    ensures Lossless(s, d, v, count, free) <==> count == 0 || free != 1
  {
  }

  /**
   * memory_alloc_for_page_dir on user pages, mapped or not: exactness is kept if and only if
   * the frames are not short of a table and none of the pages that find frames was mapped.
   */
  lemma {:induction false} AllocStep(s: Vm, dirs: set<nat>, kern: set<nat>, owner: map<nat, Slot>, d: nat, base: Word, vaddr: Word, i: nat, count: nat, perm: Word)
    returns (owner': map<nat, Slot>)
    requires Owned(s, dirs, kern, owner) && d in dirs && perm < PAGE_SIZE
    requires base / PAGE_SIZE >= USER_PAGE && USER_PAGE <= vaddr / PAGE_SIZE && vaddr / PAGE_SIZE + count <= VPAGES
    ensures var r := AllocPages(s, d, base, vaddr, i, count, perm);
            && Owned(r.vm, dirs, kern, owner')
            && (Exact(r.vm, kern, owner') <==> Exact(s, kern, owner) && Lossless(s, d, vaddr / PAGE_SIZE, count, FreeCount(s.bits)))
    decreases count
  {
    hide SpaceOwned, Holds, KernelOwned, AllocMap, MakePte, SameSpace, FreeCount, HasTable, FreePages, Exact, Kept, NoLeak, Orphaned, Leaked, Updated, Mapped, AllocFrame, PageCost, Lossless;
    owner' := owner;
    var v, free := vaddr / PAGE_SIZE, FreeCount(s.bits);
    if count == 0 {
      LosslessEnd(s, d, v, 0, free);
    } else {
      AllocMapCount(s, dirs, kern, owner, d, v, perm);
      var m, g := AllocMap(s, d, v, perm), AllocFrame(s);
      var owner1 := AllocMapGrows(s, dirs, kern, owner, d, v, perm);
      if m.outcome == Done {
        MapExact(s, m.vm, dirs, kern, owner, owner1, d, Mapped(s, d, v), LeafOf(s, d, v));
        LosslessStep(s, m.vm, d, v, count, free, MakePte(g.frame.value * PAGE_SIZE, perm));
        if count == 1 {
          owner' := owner1;
          LosslessEnd(m.vm, d, v + 1, 0, FreeCount(m.vm.bits));
        } else {
          NextPage(vaddr);
          owner' := AllocStep(m.vm, dirs, kern, owner1, d, base, (vaddr + PAGE_SIZE) % WORD_END, i + 1, count - 1, perm);
        }
      } else {
        PageCostBounds(s, d, v);
        LosslessEnd(s, d, v, count, free);
        if m.outcome == NoTable {
          LeakInexact(s, m.vm, kern, owner1, g.frame.value);
          FreeHighIsNoop(m.vm, base, i + 1);
        }
      }
    }
  }

  lemma PageCostBounds(s: Vm, d: nat, n: nat)
    requires n < VPAGES
    ensures 1 <= PageCost(s, d, n) <= 2
  {
  }

  lemma Down2Page(a: Word)
    ensures Down2(a) / PAGE_SIZE == a / PAGE_SIZE
  {
  }

  lemma GrowStep(s: Vm, dirs: set<nat>, kern: set<nat>, owner: map<nat, Slot>, d: nat, h: Word, incr: nat)
    returns (owner': map<nat, Slot>)
    requires Owned(s, dirs, kern, owner) && d in dirs
    requires USER_PAGE * PAGE_SIZE <= h && h + incr <= WORD_END - PAGE_SIZE
    ensures USER_PAGE <= HeapPage(h) <= HeapPage(h + incr) < VPAGES
    ensures var r, v, c := Sbrk(s, d, h, incr), HeapPage(h), HeapPage(h + incr) - HeapPage(h);
            && Owned(r.vm, dirs, kern, owner')
            && (Exact(r.vm, kern, owner') <==> Exact(s, kern, owner) && Lossless(s, d, v, c, FreeCount(s.bits)))
  {
    hide SpaceOwned, Holds, KernelOwned, Sbrk, AllocPages, HeapPage, Exact, Lossless, FreeCount;
    HeapPageRange(h, incr);
    SbrkCall(s, d, h, incr);
    var v, c := HeapPage(h), HeapPage(h + incr) - HeapPage(h);
    LosslessEnd(s, d, v, 0, FreeCount(s.bits));
    owner' := owner;
    if c > 0 {
      owner' := AllocStep(s, dirs, kern, owner, d, v * PAGE_SIZE, v * PAGE_SIZE, 0, c, HEAP_PERM);
    }
  }

  lemma CreateStep(s: Vm, dirs: set<nat>, kern: set<nat>, owner: map<nat, Slot>)
    returns (owner': map<nat, Slot>)
    requires Owned(s, dirs, kern, owner)
    ensures var g := CreateUvm(s);
            && Owned(g.vm, if g.frame.Some? then dirs + {g.frame.value} else dirs, kern, owner')
            && (Exact(g.vm, kern, owner') <==> Exact(s, kern, owner))
  {
    hide SpaceOwned, Holds, KernelOwned, CreateUvm, SameSpace, Entry;
    CreateUvmOwned(s, dirs, kern, owner);
    var g := CreateUvm(s);
    owner' := owner;
    if g.frame.Some? {
      owner' := owner[g.frame.value := DirSlot(g.frame.value)];
      if Exact(g.vm, kern, owner') {
        forall f: nat | Used(s, f)
          ensures f in owner || f in kern
        {
          assert Used(g.vm, f);
        }
      }
    }
  }

  /** A failed copy leaves the old ownership; a successful one adds the new space. */
  lemma CopyStep(s: Vm, dirs: set<nat>, kern: set<nat>, owner: map<nat, Slot>, d: nat)
    returns (owner': map<nat, Slot>)
    requires Owned(s, dirs, kern, owner) && d in dirs
    ensures var r := CopyUvm(s, d, d);
            && Owned(r.vm, if r.outcome == Done then dirs + {r.dir} else dirs, kern, owner')
            && (Exact(r.vm, kern, owner') <==> Exact(s, kern, owner) && r.outcome != NoTable)
  {
    hide SpaceOwned, Holds, CopyUvm, SameSpace, Mirrors, Entry, KernelOwned;
    var lost;
    owner', lost := CopyUvmCopies(s, dirs, kern, owner, d);
    var r := CopyUvm(s, d, d);
    if r.outcome == Done {
      NewSpaceExact(s, r.vm, dirs, kern, owner, owner', r.dir);
    } else {
      owner' := owner;
      CopyFailed(s, r, dirs, kern, owner, d, lost);
    }
  }

  lemma NewSpaceExact(s: Vm, t: Vm, dirs: set<nat>, kern: set<nat>, owner: map<nat, Slot>, owner': map<nat, Slot>, to: nat)
    requires NewSpace(s, t, dirs, kern, owner, owner', to) && NoLeak(s, t, owner')
    ensures Exact(t, kern, owner') <==> Exact(s, kern, owner)
  {
  }

  lemma KernelDirKept(s: Vm, dirs: set<nat>, kern: set<nat>, owner: map<nat, Slot>, d: nat)
    requires Owned(s, dirs, kern, owner) && d in dirs
    ensures Frame(CopyUvm(s, d, d).vm, s.kdir) == Frame(s, s.kdir)
  {
    hide SpaceOwned, Holds, KernelOwned, SameSpace, CopyTables, CopyInv, DestroyUvm, Entry;
    CreateUvmOwned(s, dirs, kern, owner);
    var g := CreateUvm(s);
    if g.frame.Some? {
      var to, s1, owner1 := g.frame.value, g.vm, owner[g.frame.value := DirSlot(g.frame.value)];
      CopyStart(s, s1, dirs, kern, owner, d, to);
      var owner', lost := CopyTablesRun(s1, s1, dirs + {to}, kern, owner1, owner1, d, to, USER_PDE);
      var m := CopyTables(s1, d, d, to, USER_PDE);
      CopyGrown(s1, m, dirs + {to}, kern, owner1, owner', d, to, lost);
      MakeNewSpace(s, s1, m.vm, dirs, kern, owner, owner', to);
      UndoNewSpace(s, m.vm, dirs, kern, owner, owner', to);
    }
  }

  lemma CopyFailed(s: Vm, r: Copied, dirs: set<nat>, kern: set<nat>, owner: map<nat, Slot>, d: nat, lost: nat)
    requires Owned(s, dirs, kern, owner) && d in dirs && r == CopyUvm(s, d, d) && r.outcome != Done
    requires Preserved(s, r.vm, dirs)
    requires r.outcome == NoFrame ==> r.vm.bits == s.bits
    requires r.outcome == NoTable ==> Free(s, lost) && r.vm.bits == s.bits[lost - FIRST := true]
    ensures Owned(r.vm, dirs, kern, owner)
    ensures Exact(r.vm, kern, owner) <==> Exact(s, kern, owner) && r.outcome != NoTable
  {
    hide SpaceOwned, Holds, CopyUvm, SameSpace, Entry;
    KernelDirKept(s, dirs, kern, owner, d);
    OwnedTransfer(s, r.vm, dirs, kern, owner);
    if r.outcome == NoTable {
      assert Used(r.vm, lost) && lost !in owner && lost !in kern;
    } else {
      assert forall f: nat :: Used(r.vm, f) == Used(s, f);
    }
  }

  lemma MoreKern(s: Vm, dirs: set<nat>, kern: set<nat>, kern': set<nat>, owner: map<nat, Slot>)
    requires Owned(s, dirs, kern, owner) && kern <= kern'
    requires forall f :: f in kern' && f !in kern ==> Used(s, f) && f !in owner
    ensures Owned(s, dirs, kern', owner)
  {
  }

  lemma TakeStep(s: Vm, dirs: set<nat>, kern: set<nat>, owner: map<nat, Slot>)
    requires Owned(s, dirs, kern, owner)
    ensures var g := AllocFrame(s);
            var kern' := if g.frame.Some? then kern + {g.frame.value} else kern;
            Owned(g.vm, dirs, kern', owner) && (Exact(g.vm, kern', owner) <==> Exact(s, kern, owner))
  {
    hide SpaceOwned, Holds, KernelOwned;
    AllocFacts(s);
    var g := AllocFrame(s);
    if g.frame.Some? {
      var kern' := kern + {g.frame.value};
      MarkOwned(s, dirs, kern, owner, g.frame.value);
      MoreKern(g.vm, dirs, kern, kern', owner);
      if Exact(g.vm, kern', owner) {
        forall f: nat | Used(s, f)
          ensures f in owner || f in kern
        {
          assert Used(g.vm, f);
        }
      }
    }
  }

  lemma GiveStep(s: Vm, dirs: set<nat>, kern: set<nat>, owner: map<nat, Slot>, f: nat)
    requires Owned(s, dirs, kern, owner) && f in kern && f < VPAGES
    requires forall i :: 0 <= i < USER_PDE && HasTable(s, s.kdir, i) ==> TableOf(s, s.kdir, i) != f
    ensures var t := FreePages(s, f * PAGE_SIZE, 1);
            Owned(t, dirs, kern - {f}, owner) && (Exact(t, kern - {f}, owner) <==> Exact(s, kern, owner))
  {
    hide SpaceOwned, Holds, FreePages, SameSpace;
    FreeOne(s, f);
    var t := FreePages(s, f * PAGE_SIZE, 1);
    LessKern(s, dirs, kern, owner, f);
    forall e | e in dirs
      ensures SameSpace(s, t, e)
    {
      Undisturbed(s, t, e);
    }
    OwnedTransfer(s, t, dirs, kern - {f}, owner);
    if Exact(t, kern - {f}, owner) {
      forall g: nat | Used(s, g)
        ensures g in owner || g in kern
      {
        assert g == f || Used(t, g);
      }
    }
  }

  lemma LessKern(s: Vm, dirs: set<nat>, kern: set<nat>, owner: map<nat, Slot>, f: nat)
    requires Owned(s, dirs, kern, owner)
    requires forall i :: 0 <= i < USER_PDE && HasTable(s, s.kdir, i) ==> TableOf(s, s.kdir, i) != f
    ensures Owned(s, dirs, kern - {f}, owner)
  {
  }

  lemma GrowShort(s: Vm, dirs: set<nat>, kern: set<nat>, owner: map<nat, Slot>, d: nat, h: Word, incr: nat)
    requires Owned(s, dirs, kern, owner) && d in dirs && USER_PAGE * PAGE_SIZE <= h && h + incr <= WORD_END - PAGE_SIZE
    ensures USER_PAGE <= HeapPage(h) <= HeapPage(h + incr) < VPAGES
    ensures Sbrk(s, d, h, incr).ret.None? <==> ShortOfTable(s, d, HeapPage(h), HeapPage(h + incr) - HeapPage(h), -1, FreeCount(s.bits))
  {
    hide SpaceOwned, Holds, KernelOwned, Sbrk, AllocPages, HeapPage, FreeCount;
    HeapPageRange(h, incr);
    SbrkCall(s, d, h, incr);
    var v, c := HeapPage(h), HeapPage(h + incr) - HeapPage(h);
    if c > 0 {
      AllocPagesShort(s, dirs, kern, owner, d, v * PAGE_SIZE, v * PAGE_SIZE, 0, c, HEAP_PERM);
    }
  }

  /** When a memory_create_map fails for want of a table, in every operation: exactly when the frames say so before the call. */
  lemma StepShort(w: World, op: Op, owner: map<nat, Slot>)
    requires Owned(w.vm, w.dirs, w.kern, owner) && Legal(w, op)
    ensures Step(w, op).1 == NoTable <==> Short(w, op)
  {
    hide SpaceOwned, Holds, KernelOwned, Sbrk, CopyUvm, AllocPages, DestroyUvm, CreateUvm, HeapPage, Up2, Down2, FreePages, AllocFrame, ShortOfTable, ShortTables, FreeCount;
    match op
    case Alloc(d, vaddr, size, perm) =>
      AllocPagesShort(w.vm, w.dirs, w.kern, owner, d, Down2(vaddr), vaddr, 0, Up2(size) / PAGE_SIZE, perm);
    case Grow(d, h, incr) =>
      GrowShort(w.vm, w.dirs, w.kern, owner, d, h, incr);
    case Copy(d) =>
      CopyUvmSucceeds(w.vm, w.dirs, w.kern, owner, d);
    case _ =>
  }

  /**
   * Every operation keeps ownership. It loses a frame exactly when the frames will run out
   * at a page that needs a table, or when it maps over a mapped page.
   */
  lemma StepKeepsOwnership(w: World, op: Op, owner: map<nat, Slot>) returns (owner': map<nat, Slot>)
    requires Owned(w.vm, w.dirs, w.kern, owner) && Legal(w, op)
    ensures var (w', o) := Step(w, op);
            && Owned(w'.vm, w'.dirs, w'.kern, owner')
            && (Exact(w'.vm, w'.kern, owner') <==> Exact(w.vm, w.kern, owner) && !Short(w, op) && !Overwrites(w, op))
  {
    hide ShortOfTable, ShortTables, FreeCount, Fit, SpaceOwned, Holds, KernelOwned, Exact, Sbrk, CopyUvm, AllocPages, DestroyUvm, CreateUvm, Unmapped, HeapPage, Up2, Down2, SameSpace, FreePages, AllocFrame;
    var kern := w.kern;
    match op
    case TakePage =>
      owner' := owner;
      TakeStep(w.vm, w.dirs, kern, owner);
    case GivePage(f) =>
      owner' := owner;
      GiveStep(w.vm, w.dirs, kern, owner, f);
    case Create =>
      owner' := CreateStep(w.vm, w.dirs, kern, owner);
    case Alloc(d, vaddr, size, perm) =>
      Down2Page(vaddr);
      owner' := AllocStep(w.vm, w.dirs, kern, owner, d, Down2(vaddr), vaddr, 0, Up2(size) / PAGE_SIZE, perm);
    case Grow(d, h, incr) =>
      owner' := GrowStep(w.vm, w.dirs, kern, owner, d, h, incr);
    case Copy(d) =>
      owner' := CopyStep(w.vm, w.dirs, kern, owner, d);
      CopyUvmSucceeds(w.vm, w.dirs, kern, owner, d);
    case Destroy(d) =>
      owner' := Without(owner, d);
      DestroyOwned(w.vm, w.dirs, kern, owner, d);
  }

  // ---------------------------------------------------------------- runs

  ghost predicate LegalRun(w: World, ops: seq<Op>)
    requires WfVm(w.vm)
    decreases |ops|
  {
    |ops| == 0 || (Legal(w, ops[0]) && LegalRun(Step(w, ops[0]).0, ops[1..]))
  }

  ghost function Run(w: World, ops: seq<Op>): (r: World)
    requires WfVm(w.vm) && LegalRun(w, ops)
    ensures SameShape(w.vm, r.vm)
    decreases |ops|
  {
    if |ops| == 0 then w else Run(Step(w, ops[0]).0, ops[1..])
  }

  /** Some operation of the run begins short of a table, or maps over a mapped page. */
  ghost predicate LosesFrames(w: World, ops: seq<Op>)
    requires WfVm(w.vm) && LegalRun(w, ops)
    decreases |ops|
  {
    |ops| > 0 && (Short(w, ops[0]) || Overwrites(w, ops[0]) || LosesFrames(Step(w, ops[0]).0, ops[1..]))
  }

  /**
   * Over every run: each frame of each address space stays in use and has one owner, on
   * failing paths too. The marked frames are exactly the owned and the kernel's in the end
   * if and only if they were so at the start and no operation began short of a table or
   * mapped over a mapped page.
   */
  lemma {:induction false} RunKeepsOwnership(w: World, ops: seq<Op>, owner: map<nat, Slot>) returns (owner': map<nat, Slot>)
    requires Owned(w.vm, w.dirs, w.kern, owner) && LegalRun(w, ops)
    ensures var w' := Run(w, ops);
            && Owned(w'.vm, w'.dirs, w'.kern, owner')
            && (Exact(w'.vm, w'.kern, owner') <==> Exact(w.vm, w.kern, owner) && !LosesFrames(w, ops))
    decreases |ops|
  {
    hide SpaceOwned, Holds, KernelOwned, Exact, Step, Legal, Overwrites, Short;
    owner' := owner;
    if |ops| > 0 {
      var owner1 := StepKeepsOwnership(w, ops[0], owner);
      owner' := RunKeepsOwnership(Step(w, ops[0]).0, ops[1..], owner1);
    }
  }

  /** In particular no two references of any spaces ever share a frame, and none is free or the kernel's. */
  lemma RunOneOwner(w: World, ops: seq<Op>, owner: map<nat, Slot>, a: Slot, b: Slot, f: nat)
    requires Owned(w.vm, w.dirs, w.kern, owner) && LegalRun(w, ops)
    requires Holds(Run(w, ops).vm, Run(w, ops).dirs, a, f) && Holds(Run(w, ops).vm, Run(w, ops).dirs, b, f)
    ensures a == b && Used(Run(w, ops).vm, f) && f !in Run(w, ops).kern
  {
    hide Run, SpaceOwned, Holds, KernelOwned, Exact;
    var owner' := RunKeepsOwnership(w, ops, owner);
    var w' := Run(w, ops);
    OneOwner(w'.vm, w'.dirs, w'.kern, owner', a, b, f);
  }

  // ---------------------------------------------------------------- boot

  /** The kernel directory and its tables while create_kernel_table runs. */
  ghost predicate Booting(s: Vm) {
    && WfVm(s) && WfDir(s, s.kdir)
    && forall i :: 0 <= i < ENTRIES && HasTable(s, s.kdir, i) ==> Used(s, TableOf(s, s.kdir, i))
  }

  lemma BootPage(s: Vm, n: nat, w: Word)
    requires Booting(s) && n < VPAGES
    ensures Booting(MapPage(s, s.kdir, n, w).vm)
  {
    hide Entry;
    var i, m := n / ENTRIES, MapPage(s, s.kdir, n, w);
    MapPageFacts(s, s.kdir, n, w);
    AllocFacts(s);
    if HasTable(s, s.kdir, i) {
      MapWithTable(s, s.kdir, n, w);
      assert forall k :: 0 <= k < ENTRIES ==> HasTable(m.vm, s.kdir, k) == HasTable(s, s.kdir, k) && TableOf(m.vm, s.kdir, k) == TableOf(s, s.kdir, k);
    } else if m.outcome == Done {
      MapNewTable(s, s.kdir, n, w);
      forall k | 0 <= k < ENTRIES && HasTable(m.vm, s.kdir, k)
        ensures Used(m.vm, TableOf(m.vm, s.kdir, k))
      {
        if k != i {
          assert HasTable(s, s.kdir, k) && Used(s, TableOf(s, s.kdir, k));
        }
      }
    }
  }

  lemma {:induction false} BootMap(s: Vm, vaddr: Word, paddr: Word, count: nat, perm: Word)
    requires Booting(s)
    ensures Booting(CreateMap(s, s.kdir, vaddr, paddr, count, perm).vm)
    decreases count
  {
    hide Booting, MapPage, MakePte;
    BootWf(s);
    if count > 0 {
      BootPage(s, vaddr / PAGE_SIZE, MakePte(paddr, perm));
      var m := MapPage(s, s.kdir, vaddr / PAGE_SIZE, MakePte(paddr, perm));
      if m.outcome == Done {
        BootMap(m.vm, (vaddr + PAGE_SIZE) % WORD_END, (paddr + PAGE_SIZE) % WORD_END, count - 1, perm);
      }
    }
  }

  lemma BootWf(s: Vm)
    requires Booting(s)
    ensures WfVm(s)
  {
  }

  lemma {:induction false} BootTables(s: Vm, regions: seq<Region>)
    requires Booting(s)
    ensures Booting(CreateKernelTable(s, regions))
    decreases |regions|
  {
    hide Booting, CreateMap, PageCount, Down2;
    BootWf(s);
    if |regions| > 0 {
      var g := regions[0];
      BootMap(s, Down2(g.vstart), g.pstart, PageCount(g), g.perm);
      BootTables(CreateMap(s, s.kdir, Down2(g.vstart), g.pstart, PageCount(g), g.perm).vm, regions[1..]);
    }
  }

  /** The frames in use. */
  function UsedFrames(s: Vm): set<nat> {
    set k | 0 <= k < |s.bits| && s.bits[k] :: FIRST + k
  }

  /**
   * memory_init: from an empty bitmap and a cleared kernel directory, mapping any list of
   * kernel regions establishes the invariant, with every frame in use the kernel's own.
   */
  lemma BootEstablishes(s: Vm, regions: seq<Region>)
    requires WfVm(s) && (forall k :: 0 <= k < |s.bits| ==> !s.bits[k]) && Frame(s, s.kdir) == ZeroPage()
    ensures var t := CreateKernelTable(s, regions);
            Owned(t, {}, UsedFrames(t), map[]) && Exact(t, UsedFrames(t), map[])
  {
    hide CreateKernelTable;
    assert Booting(s) by {
      assert forall i :: 0 <= i < ENTRIES ==> !HasTable(s, s.kdir, i);
    }
    BootTables(s, regions);
    var t := CreateKernelTable(s, regions);
    forall f: nat | Used(t, f)
      ensures f in UsedFrames(t)
    {
      assert f == FIRST + (f - FIRST);
    }
  }
}
