/**
 * User entries that are not present are empty, in every address space, over every run
 * of the memory operations (src/kernel/mem.c:190-409).
 */
module CleanRuns {
  import opened Paging
  import opened Mem
  import opened Ownership
  import opened Growth
  import opened Spaces
  import opened Copying
  import opened Heap
  import opened MemRuns

  ghost predicate Clean(s: Vm, d: nat) {
    forall n :: USER_PAGE <= n < VPAGES && !Mapped(s, d, n) ==> Entry(s, d, n) == 0
  }

  ghost predicate AllClean(s: Vm, dirs: set<nat>) {
    forall d :: d in dirs ==> Clean(s, d)
  }

  lemma CleanSame(s: Vm, t: Vm, d: nat)
    requires Clean(s, d) && SameSpace(s, t, d)
    ensures Clean(t, d)
  {
    hide Entry, SameSpace;
    forall n | USER_PAGE <= n < VPAGES && !Mapped(t, d, n)
      ensures Entry(t, d, n) == 0
    {
      SameEntry(s, t, d, n);
    }
  }

  lemma AllCleanSame(s: Vm, t: Vm, dirs: set<nat>)
    requires AllClean(s, dirs) && forall d :: d in dirs ==> SameSpace(s, t, d)
    ensures AllClean(t, dirs)
  {
    hide Clean, SameSpace;
    forall d | d in dirs
      ensures Clean(t, d)
    {
      CleanSame(s, t, d);
    }
  }

  /** New pages are present, and the others keep their entries. */
  lemma FreshClean(s: Vm, t: Vm, d: nat, v: nat, c: nat, perm: Word)
    requires perm < PAGE_SIZE && Clean(s, d) && FreshRange(s, t, d, v, c, perm)
    ensures Clean(t, d)
  {
    hide Entry;
    forall n | USER_PAGE <= n < VPAGES && !Mapped(t, d, n)
      ensures Entry(t, d, n) == 0
    {
      assert Entry(t, d, n) == Entry(s, d, n);
    }
  }

  lemma AllocClean(s: Vm, dirs: set<nat>, kern: set<nat>, owner: map<nat, Slot>, d: nat, base: Word, vaddr: Word, count: nat, perm: Word)
    requires Owned(s, dirs, kern, owner) && d in dirs && perm < PAGE_SIZE && AllClean(s, dirs)
    requires base / PAGE_SIZE >= USER_PAGE && USER_PAGE <= vaddr / PAGE_SIZE && vaddr / PAGE_SIZE + count <= VPAGES
    ensures AllClean(AllocPages(s, d, base, vaddr, 0, count, perm).vm, dirs)
  {
    hide SpaceOwned, Holds, KernelOwned, AllocPages, FreshRange, SameSpace, Clean;
    var owner', c, lost := AllocPagesGrows(s, dirs, kern, owner, d, base, vaddr, 0, count, perm, false);
    var t := AllocPages(s, d, base, vaddr, 0, count, perm).vm;
    forall e | e in dirs
      ensures Clean(t, e)
    {
      if e == d {
        FreshClean(s, t, d, vaddr / PAGE_SIZE, c, perm);
      } else {
        CleanSame(s, t, e);
      }
    }
  }

  lemma GrowClean(s: Vm, dirs: set<nat>, kern: set<nat>, owner: map<nat, Slot>, d: nat, h: Word, incr: nat)
    requires Owned(s, dirs, kern, owner) && d in dirs && AllClean(s, dirs)
    requires USER_PAGE * PAGE_SIZE <= h && h + incr <= WORD_END - PAGE_SIZE
    ensures AllClean(Sbrk(s, d, h, incr).vm, dirs)
  {
    hide SpaceOwned, Holds, KernelOwned, Sbrk, AllocPages, HeapPage, AllClean;
    SbrkCall(s, d, h, incr);
    var v, c := HeapPage(h), HeapPage(h + incr) - HeapPage(h);
    if c > 0 {
      AllocClean(s, dirs, kern, owner, d, v * PAGE_SIZE, v * PAGE_SIZE, c, HEAP_PERM);
    }
  }

  lemma CreateClean(s: Vm, dirs: set<nat>, kern: set<nat>, owner: map<nat, Slot>)
    requires Owned(s, dirs, kern, owner) && AllClean(s, dirs)
    ensures var g := CreateUvm(s); AllClean(g.vm, if g.frame.Some? then dirs + {g.frame.value} else dirs)
  {
    hide SpaceOwned, Holds, KernelOwned, CreateUvm, SameSpace, Entry;
    CreateUvmOwned(s, dirs, kern, owner);
    var g := CreateUvm(s);
    if g.frame.Some? {
      AllCleanSame(s, g.vm, dirs);
    }
  }

  lemma CopyClean(s: Vm, dirs: set<nat>, kern: set<nat>, owner: map<nat, Slot>, d: nat)
    requires Owned(s, dirs, kern, owner) && d in dirs && AllClean(s, dirs)
    ensures var r := CopyUvm(s, d, d); AllClean(r.vm, if r.outcome == Done then dirs + {r.dir} else dirs)
  {
    hide SpaceOwned, Holds, KernelOwned, CopyUvm, SameSpace, Entry, NewSpace, NoLeak;
    var owner', lost := CopyUvmCopies(s, dirs, kern, owner, d);
    var r := CopyUvm(s, d, d);
    AllCleanSame(s, r.vm, dirs);
    if r.outcome == Done {
      forall n | USER_PAGE <= n < VPAGES && !Mapped(r.vm, r.dir, n)
        ensures Entry(r.vm, r.dir, n) == 0
      {
        assert Mirrors(s, r.vm, d, r.dir, n);
      }
    }
  }

  lemma UnwrittenClean(s: Vm, t: Vm, dirs: set<nat>)
    requires t.ram == s.ram && AllClean(s, dirs)
    ensures AllClean(t, dirs)
  {
    hide SameSpace, Clean;
    forall d | d in dirs
      ensures SameSpace(s, t, d)
    {
      Undisturbed(s, t, d);
    }
    AllCleanSame(s, t, dirs);
  }

  /** Every operation leaves no rubbish in entries that are not present. */
  lemma StepKeepsClean(w: World, op: Op, owner: map<nat, Slot>)
    requires Owned(w.vm, w.dirs, w.kern, owner) && Legal(w, op) && AllClean(w.vm, w.dirs)
    ensures var w' := Step(w, op).0; AllClean(w'.vm, w'.dirs)
  {
    hide SpaceOwned, Holds, KernelOwned, Sbrk, CopyUvm, AllocPages, DestroyUvm, CreateUvm, HeapPage, Up2, Down2, Clean;
    match op
    case TakePage =>
      UnwrittenClean(w.vm, AllocFrame(w.vm).vm, w.dirs);
    case GivePage(f) =>
      UnwrittenClean(w.vm, FreePages(w.vm, f * PAGE_SIZE, 1), w.dirs);
    case Create =>
      CreateClean(w.vm, w.dirs, w.kern, owner);
    case Alloc(d, vaddr, size, perm) =>
      Down2Page(vaddr);
      AllocClean(w.vm, w.dirs, w.kern, owner, d, Down2(vaddr), vaddr, Up2(size) / PAGE_SIZE, perm);
    case Grow(d, h, incr) =>
      GrowClean(w.vm, w.dirs, w.kern, owner, d, h, incr);
    case Copy(d) =>
      CopyClean(w.vm, w.dirs, w.kern, owner, d);
    case Destroy(d) =>
      DestroyOwned(w.vm, w.dirs, w.kern, owner, d);
      UnwrittenClean(w.vm, DestroyUvm(w.vm, d), w.dirs);
  }

  /** So over every run: from boot on, all spaces are clean. */
  lemma {:induction false} RunKeepsClean(w: World, ops: seq<Op>, owner: map<nat, Slot>)
    requires Owned(w.vm, w.dirs, w.kern, owner) && LegalRun(w, ops) && AllClean(w.vm, w.dirs)
    ensures AllClean(Run(w, ops).vm, Run(w, ops).dirs)
    decreases |ops|
  {
    hide SpaceOwned, Holds, KernelOwned, AllClean, Step, Legal, Overwrites, Short, Exact;
    if |ops| > 0 {
      StepKeepsClean(w, ops[0], owner);
      var owner' := StepKeepsOwnership(w, ops[0], owner);
      RunKeepsClean(Step(w, ops[0]).0, ops[1..], owner');
    }
  }
}
