/**
 * Copying an address space (src/kernel/mem.c:303-342) and undoing the copy.
 */
module Copying {
  import opened Options
  import opened Paging
  import opened Mem
  import opened Ownership
  import opened Growth
  import opened Spaces

  /** The contents of page n as seen through directory d. */
  function Contents(s: Vm, d: nat, n: nat): Page
    requires n < VPAGES
  {
    Frame(s, LeafOf(s, d, n))
  }

  /** Page n of `to` in t mirrors page n of `from` in s: same presence, permissions and bytes. */
  ghost predicate Mirrors(s: Vm, t: Vm, from: nat, to: nat, n: nat)
    requires n < VPAGES
  {
    && Mapped(t, to, n) == Mapped(s, from, n) && (!Mapped(s, from, n) ==> Entry(t, to, n) == 0)
    && (Mapped(s, from, n) ==>
          && Entry(t, to, n) % PAGE_SIZE == PermOf(Entry(s, from, n))
          && PermOf(Entry(t, to, n)) == PermOf(Entry(s, from, n))
          && Contents(t, to, n) == Contents(s, from, n))
  }

  /**
   * Loop invariant of memory_copy_uvm: s is the state right after memory_create_uvm,
   * t the present one, and the pages below n have been copied.
   */
  ghost predicate CopyInv(s: Vm, t: Vm, dirs: set<nat>, kern: set<nat>, owner: map<nat, Slot>, owner': map<nat, Slot>,
                          from: nat, to: nat, n: nat) {
    && Owned(s, dirs, kern, owner) && from in dirs && to in dirs && from != to
    && Grown(s, t, dirs, kern, owner, owner', to) && Kept(owner, owner') && NoLeak(s, t, owner')
    && (forall m :: USER_PAGE <= m < n && m < VPAGES ==> Mirrors(s, t, from, to, m))
    && (forall m :: n <= m < VPAGES && USER_PAGE <= m ==> Entry(t, to, m) == 0)
  }

  /** The source keeps its flat map and its contents while the copy is made. */
  lemma SourceKept(s: Vm, t: Vm, dirs: set<nat>, kern: set<nat>, owner: map<nat, Slot>, owner': map<nat, Slot>, from: nat, to: nat, n: nat)
    requires Owned(s, dirs, kern, owner) && from in dirs && from != to && USER_PAGE <= n < VPAGES
    requires Grown(s, t, dirs, kern, owner, owner', to)
    ensures Entry(t, from, n) == Entry(s, from, n)
    ensures Mapped(s, from, n) ==> Contents(t, from, n) == Contents(s, from, n)
  {
    hide Holds, KernelOwned, HasTable, TableOf;
    assert SameSpace(s, t, from);
    if Mapped(s, from, n) {
      assert SpaceOwned(s, from, owner);
      assert owner[LeafOf(s, from, n)] == LeafSlot(from, n);
    }
  }

  /** Filling a page that was free in s keeps Grown. */
  lemma GrownData(s: Vm, t: Vm, dirs: set<nat>, kern: set<nat>, owner: map<nat, Slot>, owner': map<nat, Slot>, d: nat, f: nat, p: Page)
    requires Grown(s, t, dirs, kern, owner, owner', d)
    requires Free(s, f) && f in owner' && owner'[f].LeafSlot?
    ensures var u := SetFrame(t, f, p);
            && Grown(s, u, dirs, kern, owner, owner', d) && (NoLeak(s, t, owner') ==> NoLeak(s, u, owner'))
            && forall e :: e in dirs ==> SameSpace(t, u, e)
  {
    hide SameSpace, SpaceOwned, Holds, KernelOwned;
    DataWrite(t, dirs, kern, owner', f, p);
    var u := SetFrame(t, f, p);
    forall e | e in dirs && e != d
      ensures SameSpace(s, u, e)
    {
      SameSpaceTrans(s, t, u, e);
    }
  }

  /** The entry memory_copy_uvm stores for a source entry w. */
  lemma CopiedEntry(a: nat, w: Word)
    requires a < VPAGES && Present(w)
    ensures var e := MakePte(a * PAGE_SIZE, PermOf(w));
            Present(e) && FrameOf(e) == a && e % PAGE_SIZE == PermOf(w) && PermOf(e) == PermOf(w)
  {
    hide MakePte, PermOf;
    MakePteFields(a, PermOf(w));
    LowBit(w);
    EntryFields(a, PermOf(w));
  }

  lemma LowBit(w: Word)
    requires Present(w)
    ensures (w % 512) % 2 == 1
  {
  }

  /** The new page after it was filled: mapped to frame a with the source's permissions and bytes. */
  lemma CopiedPage(s: Vm, t: Vm, u: Vm, from: nat, to: nat, n: nat, a: nat, w: Word)
    requires n < VPAGES && a < VPAGES && Present(w) && Entry(s, from, n) == w
    requires Entry(t, to, n) == MakePte(a * PAGE_SIZE, PermOf(w)) && SameSpace(t, u, to)
    requires Frame(u, a) == Contents(s, from, n)
    ensures Mirrors(s, u, from, to, n)
  {
    hide MakePte, PermOf;
    CopiedEntry(a, w);
  }

  /** A page that is copied already stays so while others are added. */
  lemma MirrorsKept(s: Vm, t: Vm, u: Vm, from: nat, to: nat, n: nat)
    requires n < VPAGES && Mirrors(s, t, from, to, n)
    requires Entry(u, to, n) == Entry(t, to, n) && (Mapped(t, to, n) ==> Contents(u, to, n) == Contents(t, to, n))
    ensures Mirrors(s, u, from, to, n)
  {
  }

  /** The pages copied before page n keep their entries and contents when page n is added. */
  lemma EarlierPages(s: Vm, t: Vm, m: Vm, u: Vm, dirs: set<nat>, kern: set<nat>, owner1: map<nat, Slot>, owner': map<nat, Slot>,
                     from: nat, to: nat, n: nat, w: Word, a: nat, k: nat)
    requires USER_PAGE <= k < n < VPAGES && to in dirs && Owned(t, dirs, kern, owner1) && Mirrors(s, t, from, to, k)
    requires Grown(t, m, dirs, kern, owner1, owner', to) && Updated(t, m, to, n, w)
    requires Free(t, a) && SameSpace(m, u, to) && forall f: nat :: f != a ==> Frame(u, f) == Frame(m, f)
    ensures Mirrors(s, u, from, to, k)
  {
    hide Mirrors;
    assert Entry(u, to, k) == Entry(t, to, k);
    if Mapped(t, to, k) {
      assert SpaceOwned(t, to, owner1);
      var f := LeafOf(t, to, k);
      assert owner1[f] == LeafSlot(to, k) && Used(t, f);
      assert !Structure(owner1, to, f);
    }
    MirrorsKept(s, t, u, from, to, k);
  }

  lemma CopyFilled(s: Vm, t: Vm, m: Vm, dirs: set<nat>, kern: set<nat>, owner: map<nat, Slot>, owner1: map<nat, Slot>, owner': map<nat, Slot>,
                   from: nat, to: nat, n: nat, a: nat)
    requires CopyInv(s, t, dirs, kern, owner, owner1, from, to, n) && USER_PAGE <= n < VPAGES && Mapped(t, from, n)
    requires Grown(t, m, dirs, kern, owner1, owner', to) && Kept(owner1, owner') && NoLeak(t, m, owner')
    requires Grown(s, m, dirs, kern, owner, owner', to) && NoLeak(s, m, owner')
    requires a < VPAGES && Free(t, a) && Updated(t, m, to, n, MakePte(a * PAGE_SIZE, PermOf(Entry(t, from, n))))
    ensures CopyInv(s, SetFrame(m, a, PageAt(m, from, n)), dirs, kern, owner, owner', from, to, n + 1)
  {
    hide SpaceOwned, Holds, KernelOwned, MakePte, Entry, PermOf, Mirrors, SameSpace;
    var w := Entry(t, from, n);
    var u := SetFrame(m, a, PageAt(m, from, n));
    SourceKept(s, t, dirs, kern, owner, owner1, from, to, n);
    SourceKept(s, m, dirs, kern, owner, owner', from, to, n);
    CopiedEntry(a, w);
    LeafOwner(m, dirs, kern, owner', to, n);
    assert Free(s, a) by {
      assert !Used(s, a);
    }
    GrownData(s, m, dirs, kern, owner, owner', to, a, PageAt(m, from, n));
    CopiedPage(s, m, u, from, to, n, a, w);
    forall k | USER_PAGE <= k < n + 1 && k < VPAGES
      ensures Mirrors(s, u, from, to, k)
    {
      if k < n {
        EarlierPages(s, t, m, u, dirs, kern, owner1, owner', from, to, n, MakePte(a * PAGE_SIZE, PermOf(w)), a, k);
      }
    }
    forall k | n + 1 <= k < VPAGES && USER_PAGE <= k
      ensures Entry(u, to, k) == 0
    {
      SameEntry(m, u, to, k);
    }
  }

  /**
   * One present page: the copy either stops, with nothing leaked or one frame leaked,
   * or moves on to the next page.
   */
  lemma CopyPageStep(s: Vm, t: Vm, dirs: set<nat>, kern: set<nat>, owner: map<nat, Slot>, owner1: map<nat, Slot>, from: nat, to: nat, n: nat)
    returns (owner': map<nat, Slot>)
    requires CopyInv(s, t, dirs, kern, owner, owner1, from, to, n) && USER_PAGE <= n < VPAGES && Mapped(t, from, n)
    ensures var r := CopyPage(t, from, to, n, PermOf(Entry(t, from, n)));
            match r.outcome
            case Done => CopyInv(s, r.vm, dirs, kern, owner, owner', from, to, n + 1)
            case NoFrame => r.vm == t && owner' == owner1
            case NoTable =>
              && owner' == owner1 && AllocFrame(t).frame.Some?
              && Grown(s, r.vm, dirs, kern, owner, owner', to) && OneLeak(s, r.vm, kern, owner', AllocFrame(t).frame.value)
  {
    hide SameSpace, SpaceOwned, Holds, KernelOwned, AllocMap, MakePte, Leaked, AllocFrame, Entry, PermOf;
    var w := Entry(t, from, n);
    var m, g := AllocMap(t, to, n, PermOf(w)), AllocFrame(t);
    assert !Mapped(t, to, n);
    owner' := AllocMapGrows(t, dirs, kern, owner1, to, n, PermOf(w));
    GrownTrans(s, t, m.vm, dirs, kern, owner, owner1, owner', to);
    if m.outcome == NoTable {
      AllocMapCases(t, dirs, kern, owner1, to, n, PermOf(w));
      OneLeakNow(t, kern, owner1);
      LeakTrans(s, t, m.vm, kern, owner1, owner1, g.frame.value);
    } else if m.outcome == Done {
      NoLeakTrans(s, t, m.vm, owner1, owner');
      assert g.frame.value < VPAGES;
      CopyFilled(s, t, m.vm, dirs, kern, owner, owner1, owner', from, to, n, g.frame.value);
    }
  }

  // ---------------------------------------------------------------- the two loops

  /** How the loops can end: all copied, stopped cleanly, or stopped with one leaked frame. */
  ghost predicate CopyStop(s: Vm, r: Result, dirs: set<nat>, kern: set<nat>, owner: map<nat, Slot>, owner': map<nat, Slot>,
                           from: nat, to: nat, n: nat, lost: nat) {
    match r.outcome
    case Done => CopyInv(s, r.vm, dirs, kern, owner, owner', from, to, n)
    case NoFrame => Grown(s, r.vm, dirs, kern, owner, owner', to) && Kept(owner, owner') && NoLeak(s, r.vm, owner')
    case NoTable => Grown(s, r.vm, dirs, kern, owner, owner', to) && Kept(owner, owner') && OneLeak(s, r.vm, kern, owner', lost)
  }

  /** Pages n .. n+c-1 of the source are unmapped: they count as copied. */
  lemma SkipPages(s: Vm, t: Vm, dirs: set<nat>, kern: set<nat>, owner: map<nat, Slot>, owner': map<nat, Slot>, from: nat, to: nat, n: nat, c: nat)
    requires CopyInv(s, t, dirs, kern, owner, owner', from, to, n) && USER_PAGE <= n && n + c <= VPAGES
    requires forall m :: n <= m < n + c ==> !Mapped(t, from, m)
    ensures CopyInv(s, t, dirs, kern, owner, owner', from, to, n + c)
  {
    hide Owned, Grown, Entry;
    forall m | USER_PAGE <= m < n + c
      ensures Mirrors(s, t, from, to, m)
    {
      if m >= n {
        SourceKept(s, t, dirs, kern, owner, owner', from, to, m);
        assert !Mapped(t, from, m) && Entry(t, to, m) == 0;
      }
    }
  }

  /** The source's directory entries stay put during the copy. */
  lemma SourceTables(s: Vm, t: Vm, dirs: set<nat>, kern: set<nat>, owner: map<nat, Slot>, owner': map<nat, Slot>, from: nat, to: nat, n: nat, i: nat)
    requires CopyInv(s, t, dirs, kern, owner, owner', from, to, n) && i < ENTRIES
    ensures Frame(t, from)[i] == Frame(s, from)[i] && WfVm(t)
  {
    assert SameSpace(s, t, from);
  }

  lemma PageSplit(i: nat, j: nat)
    requires i < ENTRIES && j < ENTRIES
    ensures var n := i * ENTRIES + j; n / ENTRIES == i && n % ENTRIES == j && n < VPAGES
  {
  }

  lemma {:induction false} CopyLeavesRun(s: Vm, t: Vm, dirs: set<nat>, kern: set<nat>, owner: map<nat, Slot>, owner1: map<nat, Slot>,
                                         from: nat, to: nat, i: nat, j: nat)
    returns (owner': map<nat, Slot>, lost: nat)
    requires USER_PDE <= i < ENTRIES && j <= ENTRIES
    requires CopyInv(s, t, dirs, kern, owner, owner1, from, to, i * ENTRIES + j)
    requires Present(Frame(s, from)[i])
    ensures CopyStop(s, CopyLeaves(t, from, to, i, FrameOf(Frame(s, from)[i]), j), dirs, kern, owner, owner', from, to, (i + 1) * ENTRIES, lost)
    decreases ENTRIES - j
  {
    hide Grown, Kept, NoLeak, OneLeak, CopyPage, AllocFrame, Mirrors, PermOf, SpaceOwned, Holds, KernelOwned;
    owner', lost := owner1, 0;
    if j < ENTRIES {
      var n, x := i * ENTRIES + j, FrameOf(Frame(s, from)[i]);
      var w := Frame(t, x)[j];
      PageSplit(i, j);
      SourceTables(s, t, dirs, kern, owner, owner1, from, to, n, i);
      assert Entry(t, from, n) == w;
      if !Present(w) {
        SkipPages(s, t, dirs, kern, owner, owner1, from, to, n, 1);
        owner', lost := CopyLeavesRun(s, t, dirs, kern, owner, owner1, from, to, i, j + 1);
      } else {
        var m := CopyPage(t, from, to, n, PermOf(w));
        owner' := CopyPageStep(s, t, dirs, kern, owner, owner1, from, to, n);
        if m.outcome == Done {
          owner', lost := CopyLeavesRun(s, m.vm, dirs, kern, owner, owner', from, to, i, j + 1);
        } else if m.outcome == NoTable {
          lost := AllocFrame(t).frame.value;
        }
      }
    }
  }

  lemma {:induction false} CopyTablesRun(s: Vm, t: Vm, dirs: set<nat>, kern: set<nat>, owner: map<nat, Slot>, owner1: map<nat, Slot>,
                                         from: nat, to: nat, i: nat)
    returns (owner': map<nat, Slot>, lost: nat)
    requires USER_PDE <= i <= ENTRIES
    requires CopyInv(s, t, dirs, kern, owner, owner1, from, to, i * ENTRIES)
    ensures CopyStop(s, CopyTables(t, from, from, to, i), dirs, kern, owner, owner', from, to, VPAGES, lost)
    decreases ENTRIES - i
  {
    hide CopyInv, Grown, Kept, NoLeak, OneLeak, CopyLeaves, SpaceOwned, Holds, KernelOwned;
    owner', lost := owner1, 0;
    if i < ENTRIES {
      var w := Frame(t, from)[i];
      SourceTables(s, t, dirs, kern, owner, owner1, from, to, i * ENTRIES, i);
      if !Present(w) {
        forall m | i * ENTRIES <= m < i * ENTRIES + ENTRIES
          ensures !Mapped(t, from, m)
        {
          assert m / ENTRIES == i;
        }
        SkipPages(s, t, dirs, kern, owner, owner1, from, to, i * ENTRIES, ENTRIES);
        owner', lost := CopyTablesRun(s, t, dirs, kern, owner, owner1, from, to, i + 1);
      } else {
        owner', lost := CopyLeavesRun(s, t, dirs, kern, owner, owner1, from, to, i, 0);
        var m := CopyLeaves(t, from, to, i, FrameOf(w), 0);
        if m.outcome == Done {
          owner', lost := CopyTablesRun(s, m.vm, dirs, kern, owner, owner', from, to, i + 1);
        }
      }
    }
  }

  // ---------------------------------------------------------------- memory_copy_uvm

  /** Facts about a space `to` created from s, and then grown, that the undo argument needs. */
  ghost predicate NewSpace(s: Vm, t: Vm, dirs: set<nat>, kern: set<nat>, owner: map<nat, Slot>, owner': map<nat, Slot>, to: nat) {
    && Owned(s, dirs, kern, owner) && SameShape(s, t) && Free(s, to) && to !in dirs
    && Owned(t, dirs + {to}, kern, owner') && Kept(owner, owner')
    && (forall f :: f in owner' && f !in owner ==> Free(s, f) && owner'[f].d == to)
    && (forall f: nat :: Used(s, f) ==> Used(t, f) && Frame(t, f) == Frame(s, f))
    && Frame(t, s.kdir) == Frame(s, s.kdir)
    && (forall e :: e in dirs ==> SameSpace(s, t, e))
  }

  lemma MakeNewSpace(s: Vm, s1: Vm, t: Vm, dirs: set<nat>, kern: set<nat>, owner: map<nat, Slot>, owner': map<nat, Slot>, to: nat)
    requires Owned(s, dirs, kern, owner) && SpaceCreated(s, s1, dirs, kern, owner, to)
    requires Grown(s1, t, dirs + {to}, kern, owner[to := DirSlot(to)], owner', to) && Kept(owner[to := DirSlot(to)], owner')
    ensures NewSpace(s, t, dirs, kern, owner, owner', to)
  {
    hide SpaceOwned, Holds, KernelOwned, SameSpace;
    var owner1 := owner[to := DirSlot(to)];
    forall e | e in dirs
      ensures SameSpace(s, t, e)
    {
      SameSpaceTrans(s, s1, t, e);
    }
    forall f: nat | Used(s, f)
      ensures Frame(t, f) == Frame(s, f)
    {
      if f in owner {
        OwnerDir(s, dirs, kern, owner, f);
      }
      assert !Structure(owner1, to, f);
    }
    forall f | f in owner
      ensures f in owner' && owner'[f] == owner[f]
    {
      assert f in owner1 && owner1[f] == owner[f];
    }
    forall f | f in owner' && f !in owner
      ensures Free(s, f) && owner'[f].d == to
    {
      if f == to {
        assert to in owner1;
      } else {
        assert Free(s1, f) && !Used(s, f);
      }
    }
    assert s.kdir != to;
  }

  lemma OwnerDir(s: Vm, dirs: set<nat>, kern: set<nat>, owner: map<nat, Slot>, f: nat)
    requires Owned(s, dirs, kern, owner) && f in owner
    ensures owner[f].d in dirs && Used(s, f)
  {
  }

  /** Destroying the new space unmarks exactly what was marked for it. */
  lemma UndoNewSpace(s: Vm, t: Vm, dirs: set<nat>, kern: set<nat>, owner: map<nat, Slot>, owner': map<nat, Slot>, to: nat)
    requires NewSpace(s, t, dirs, kern, owner, owner', to)
    ensures to < VPAGES
    ensures var u := DestroyUvm(t, to);
            && u.ram == t.ram && SameShape(s, u)
            && (forall f: nat :: Used(u, f) <==> Used(s, f) || (Used(t, f) && f !in owner'))
            && (forall e :: e in dirs ==> SameSpace(s, u, e))
  {
    hide SpaceOwned, Holds, KernelOwned, SameSpace, DestroyUvm, Exact;
    DestroyOwned(t, dirs + {to}, kern, owner', to);
    var u := DestroyUvm(t, to);
    forall f: nat
      ensures Used(u, f) <==> Used(s, f) || (Used(t, f) && f !in owner')
    {
      if f in owner' && f in owner {
        OwnerDir(s, dirs, kern, owner, f);
      }
    }
    forall e | e in dirs
      ensures SameSpace(s, u, e)
    {
      SameSpaceTrans(s, t, u, e);
    }
  }

  lemma SameMarks(s: Vm, t: Vm)
    requires SameShape(s, t) && forall f: nat :: Used(t, f) <==> Used(s, f)
    ensures t.bits == s.bits
  {
    forall k | 0 <= k < |s.bits|
      ensures t.bits[k] == s.bits[k]
    {
      assert Used(t, FIRST + k) == Used(s, FIRST + k);
    }
  }

  /** A frame in use that no operation on other spaces may touch: space, contents and marks are kept. */
  ghost predicate Preserved(s: Vm, t: Vm, dirs: set<nat>) {
    && (forall f: nat :: Used(s, f) ==> Frame(t, f) == Frame(s, f))
    && (forall e :: e in dirs ==> SameSpace(s, t, e))
  }

  lemma CopyStart(s: Vm, s1: Vm, dirs: set<nat>, kern: set<nat>, owner: map<nat, Slot>, from: nat, to: nat)
    requires Owned(s, dirs, kern, owner) && from in dirs && SpaceCreated(s, s1, dirs, kern, owner, to)
    ensures CopyInv(s1, s1, dirs + {to}, kern, owner[to := DirSlot(to)], owner[to := DirSlot(to)], from, to, USER_PDE * ENTRIES)
    ensures WfVm(s1)
  {
    hide SpaceOwned, Holds, KernelOwned, SameSpace, Entry, Grown, Kept, NoLeak;
    GrownRefl(s1, dirs + {to}, kern, owner[to := DirSlot(to)], to);
  }

  lemma CopyGrown(s: Vm, r: Result, dirs: set<nat>, kern: set<nat>, owner: map<nat, Slot>, owner': map<nat, Slot>, from: nat, to: nat, lost: nat)
    requires CopyStop(s, r, dirs, kern, owner, owner', from, to, VPAGES, lost)
    ensures Grown(s, r.vm, dirs, kern, owner, owner', to) && Kept(owner, owner')
    ensures if r.outcome == NoTable then OneLeak(s, r.vm, kern, owner', lost) else NoLeak(s, r.vm, owner')
  {
  }

  /** Being a mirror of the source right after the directory was made is being a mirror of the source before. */
  lemma MirrorsBefore(s: Vm, s1: Vm, t: Vm, dirs: set<nat>, kern: set<nat>, owner: map<nat, Slot>, from: nat, to: nat, n: nat)
    requires Owned(s, dirs, kern, owner) && from in dirs && SpaceCreated(s, s1, dirs, kern, owner, to)
    requires USER_PAGE <= n < VPAGES && Mirrors(s1, t, from, to, n)
    ensures Mirrors(s, t, from, to, n)
  {
    hide PermOf, Holds, KernelOwned;
    assert SameSpace(s, s1, from);
    if Mapped(s, from, n) {
      LeafOwner(s, dirs, kern, owner, from, n);
    }
  }

  lemma CopyDone(s: Vm, s1: Vm, t: Vm, dirs: set<nat>, kern: set<nat>, owner: map<nat, Slot>, owner': map<nat, Slot>, from: nat, to: nat)
    requires Owned(s, dirs, kern, owner) && from in dirs && SpaceCreated(s, s1, dirs, kern, owner, to)
    requires NewSpace(s, t, dirs, kern, owner, owner', to)
    requires CopyInv(s1, t, dirs + {to}, kern, owner[to := DirSlot(to)], owner', from, to, VPAGES)
    ensures Preserved(s, t, dirs) && NoLeak(s, t, owner')
    ensures forall n :: USER_PAGE <= n < VPAGES ==> Mirrors(s, t, from, to, n)
    ensures forall i :: 0 <= i < USER_PDE ==> Frame(t, to)[i] == Frame(s, from)[i]
  {
    hide SpaceOwned, Holds, KernelOwned, SameSpace, Mirrors, Entry;
    forall n | USER_PAGE <= n < VPAGES
      ensures Mirrors(s, t, from, to, n)
    {
      MirrorsBefore(s, s1, t, dirs, kern, owner, from, to, n);
    }
    forall i | 0 <= i < USER_PDE
      ensures Frame(t, to)[i] == Frame(s, from)[i]
    {
      KernelHalf(t, dirs + {to}, kern, owner', to, i);
      KernelHalf(s, dirs, kern, owner, from, i);
    }
    forall f: nat | Used(t, f)
      ensures Used(s, f) || f in owner'
    {
      assert Used(s1, f) || f in owner';
      assert to in owner[to := DirSlot(to)];
    }
  }

  lemma CopyUndone(s: Vm, s1: Vm, m: Result, dirs: set<nat>, kern: set<nat>, owner: map<nat, Slot>, owner': map<nat, Slot>, to: nat, lost: nat)
    requires SpaceCreated(s, s1, dirs, kern, owner, to) && NewSpace(s, m.vm, dirs, kern, owner, owner', to) && m.outcome != Done
    requires if m.outcome == NoTable then OneLeak(s1, m.vm, kern, owner', lost) else NoLeak(s1, m.vm, owner')
    ensures to < VPAGES
    ensures var u := DestroyUvm(m.vm, to);
            && Preserved(s, u, dirs)
            && (m.outcome == NoFrame ==> u.bits == s.bits)
            && (m.outcome == NoTable ==> Free(s, lost) && u.bits == s.bits[lost - FIRST := true])
  {
    hide SpaceOwned, Holds, KernelOwned, SameSpace, DestroyUvm, Owned, Entry;
    UndoNewSpace(s, m.vm, dirs, kern, owner, owner', to);
    var u := DestroyUvm(m.vm, to);
    DirUsed(m.vm, dirs + {to}, kern, owner', to);
    if m.outcome == NoFrame {
      SameMarks(s, u);
    } else {
      assert Free(s, lost) by {
        assert !Used(s, lost);
      }
      var v := s.(bits := s.bits[lost - FIRST := true]);
      forall f: nat
        ensures Used(u, f) <==> Used(v, f)
      {
        assert Used(v, f) <==> Used(s, f) || f == lost;
      }
      SameMarks(v, u);
    }
  }

  /**
   * memory_copy_uvm of the active directory. On success the copy mirrors every user page
   * of the source in frames that were all free before, it shares the kernel half, and the
   * source and every other space are unchanged. When it runs out of data frames the bitmap
   * is exactly as before; when it runs out of a frame for a table, exactly one frame leaks.
   */
  lemma CopyUvmCopies(s: Vm, dirs: set<nat>, kern: set<nat>, owner: map<nat, Slot>, from: nat)
    returns (owner': map<nat, Slot>, lost: nat)
    requires Owned(s, dirs, kern, owner) && from in dirs
    ensures var r := CopyUvm(s, from, from);
            && Preserved(s, r.vm, dirs)
            && match r.outcome
               case Done =>
                 && NewSpace(s, r.vm, dirs, kern, owner, owner', r.dir) && NoLeak(s, r.vm, owner')
                 && (forall n :: USER_PAGE <= n < VPAGES ==> Mirrors(s, r.vm, from, r.dir, n))
                 && (forall i :: 0 <= i < USER_PDE ==> Frame(r.vm, r.dir)[i] == Frame(s, from)[i])
               case NoFrame => r.vm.bits == s.bits
               case NoTable => Free(s, lost) && r.vm.bits == s.bits[lost - FIRST := true]
  {
    hide SpaceOwned, Holds, KernelOwned, SameSpace, DestroyUvm, CopyTables, CreateUvm, CopyInv, Mirrors, SpaceCreated, NewSpace, Grown, Kept, OneLeak, NoLeak;
    owner', lost := owner, 0;
    CreateUvmOwned(s, dirs, kern, owner);
    var g := CreateUvm(s);
    if g.frame == None {
      forall e | e in dirs ensures SameSpace(s, s, e) {
        SameSpaceRefl(s, e);
      }
    } else {
      var to, s1, owner1 := g.frame.value, g.vm, owner[g.frame.value := DirSlot(g.frame.value)];
      CopyStart(s, s1, dirs, kern, owner, from, to);
      owner', lost := CopyTablesRun(s1, s1, dirs + {to}, kern, owner1, owner1, from, to, USER_PDE);
      var m := CopyTables(s1, from, from, to, USER_PDE);
      CopyGrown(s1, m, dirs + {to}, kern, owner1, owner', from, to, lost);
      MakeNewSpace(s, s1, m.vm, dirs, kern, owner, owner', to);
      if m.outcome == Done {
        CopyDone(s, s1, m.vm, dirs, kern, owner, owner', from, to);
      } else {
        CopyUndone(s, s1, m, dirs, kern, owner, owner', to, lost);
      }
    }
  }

  /**
   * Copy, then destroy the copy: the bitmap is exactly what it was, and every space
   * that existed before has the same directory, flat map and contents.
   */
  lemma CopyThenDestroy(s: Vm, dirs: set<nat>, kern: set<nat>, owner: map<nat, Slot>, from: nat)
    requires Owned(s, dirs, kern, owner) && from in dirs
    requires CopyUvm(s, from, from).outcome == Done
    ensures var r := CopyUvm(s, from, from);
            && r.dir < VPAGES && DestroyUvm(r.vm, r.dir).bits == s.bits
            && Preserved(s, DestroyUvm(r.vm, r.dir), dirs)
  {
    hide CopyUvm, DestroyUvm, SpaceOwned, Holds, KernelOwned, SameSpace, Mirrors;
    var owner', lost := CopyUvmCopies(s, dirs, kern, owner, from);
    var r := CopyUvm(s, from, from);
    UndoNewSpace(s, r.vm, dirs, kern, owner, owner', r.dir);
    SameMarks(s, DestroyUvm(r.vm, r.dir));
  }
}
