/**
 * What create_kernel_table leaves in the kernel directory (src/kernel/mem.c:135-157):
 * which pages of which rows are mapped, for any number of free frames, since a row that
 * fails is not reported and the rows after it are still tried.
 */
module KernelTable {
  import opened Options
  import opened Paging
  import opened Mem
  import opened MapProofs
  import opened Growth
  import opened Frames
  import opened Bytes

  // ---------------------------------------------------------------- the pages of a row

  function StartPage(g: Region): (v: nat)
    ensures v < VPAGES
  {
    g.vstart / PAGE_SIZE
  }

  /** Pages from the one of vstart to the last that begins below vend, going round; none if half the address space or more. */
  function RowCount(g: Region): (n: nat)
    ensures n < VPAGES / 2
  {
    var n := ((g.vend + PAGE_SIZE - 1) / PAGE_SIZE - StartPage(g)) % VPAGES;
    if n < VPAGES / 2 then n else 0
  }

  lemma RowPages(g: Region)
    ensures Down2(g.vstart) == StartPage(g) * PAGE_SIZE && PageCount(g) == RowCount(g)
  {
    hide BitAnd, Int32;
    var v, e := StartPage(g), (g.vend + PAGE_SIZE - 1) / PAGE_SIZE;
    assert Down2(g.vstart) == v * PAGE_SIZE;
    assert Up2(g.vend) == if e == VPAGES then 0 else e * PAGE_SIZE;
    var n := (e - v) % VPAGES;
    PageDifference(e, v);
    SignedPages(n);
  }

  /** A difference of page addresses, going round. */
  lemma PageDifference(e: nat, v: nat)
    requires e <= VPAGES && v < VPAGES
    ensures ((if e == VPAGES then 0 else e * PAGE_SIZE) - v * PAGE_SIZE) % WORD_END == (e - v) % VPAGES * PAGE_SIZE
  {
  }

  lemma SignedPages(n: nat)
    requires n < VPAGES
    ensures var size := Int32(n * PAGE_SIZE); (if size > 0 then size / PAGE_SIZE else 0) == if n < VPAGES / 2 then n else 0
  {
  }

  /** The directory entry of the k-th page from page v on. */
  function DirEntry(v: nat, k: nat): (i: nat)
    ensures i < ENTRIES
  {
    (v + k) % VPAGES / ENTRIES
  }

  /** The directory entries of the c pages from page v on. */
  function Touched(v: nat, c: nat): set<nat> {
    set k | 0 <= k < c :: DirEntry(v, k)
  }

  /** The directory entries of d that have a table. */
  function TablesIn(s: Vm, d: nat): set<nat> {
    set i | 0 <= i < ENTRIES && HasTable(s, d, i)
  }

  /** How many of the count pages from page v on get mapped with tables `have` and `free` frames for more. */
  function Fitting(have: set<nat>, free: nat, v: nat, count: nat): (c: nat)
    ensures c <= count
    decreases count
  {
    if count == 0 then 0
    else if DirEntry(v, 0) in have then 1 + Fitting(have, free, (v + 1) % VPAGES, count - 1)
    else if free == 0 then 0
    else 1 + Fitting(have + {DirEntry(v, 0)}, free - 1, (v + 1) % VPAGES, count - 1)
  }

  lemma TouchedFirst(v: nat, c: nat)
    requires c > 0
    ensures Touched(v, c) == {DirEntry(v, 0)} + Touched((v + 1) % VPAGES, c - 1)
  {
    hide DirEntry;
    var w := (v + 1) % VPAGES;
    forall k: nat ensures DirEntry(w, k) == DirEntry(v, k + 1) {
      DirEntryNext(v, k);
    }
    forall x | x in Touched(v, c) ensures x in {DirEntry(v, 0)} + Touched(w, c - 1) {
      var k :| 0 <= k < c && x == DirEntry(v, k);
      if k > 0 {
        assert x == DirEntry(w, k - 1);
      }
    }
    forall x | x in {DirEntry(v, 0)} + Touched(w, c - 1) ensures x in Touched(v, c) {
      if x != DirEntry(v, 0) {
        var k :| 0 <= k < c - 1 && x == DirEntry(w, k);
        assert x == DirEntry(v, k + 1);
      }
    }
  }

  lemma DirEntryNext(v: nat, k: nat)
    ensures DirEntry((v + 1) % VPAGES, k) == DirEntry(v, k + 1)
  {
    var q := (v + 1) / VPAGES;
    assert v + 1 + k == (v + 1) % VPAGES + k + q * VPAGES;
    ModShift((v + 1) % VPAGES + k, q, VPAGES);
  }

  lemma ModShift(a: nat, q: nat, m: nat)
    requires m > 0
    ensures (a + q * m) % m == a % m
  {
    ModUnique(a + q * m, m, a / m + q, a % m);
  }

  /** How many tables are missing for the c pages from page v on. */
  function Missing(have: set<nat>, v: nat, c: nat): nat {
    |Touched(v, c) - have|
  }

  lemma NoneTouched(have: set<nat>, v: nat)
    ensures Touched(v, 0) == {} && Missing(have, v, 0) == 0
  {
  }

  lemma MissingFirst(have: set<nat>, v: nat, c: nat)
    requires c > 0
    ensures Missing(have, v, c)
         == (if DirEntry(v, 0) in have then 0 else 1) + Missing(have + {DirEntry(v, 0)}, (v + 1) % VPAGES, c - 1)
  {
    hide DirEntry, Touched;
    var i, rest := DirEntry(v, 0), Touched((v + 1) % VPAGES, c - 1);
    TouchedFirst(v, c);
    if i in have {
      assert ({i} + rest) - have == rest - (have + {i});
    } else {
      assert ({i} + rest) - have == {i} + (rest - (have + {i}));
    }
  }

  lemma MissingMore(have: set<nat>, v: nat, c: nat, count: nat)
    requires c <= count
    ensures Missing(have, v, c) <= Missing(have, v, count)
  {
    hide DirEntry;
    var a, b := Touched(v, c), Touched(v, count);
    assert a <= b;
    assert b - have == (a - have) + ((b - have) - (a - have));
  }

  /**
   * As many pages of a row are mapped as there are frames for their tables: the first `c`
   * need no more than `free` new ones, one page more would. So the row is mapped whole
   * exactly when there are frames for all the directory entries it touches.
   */
  lemma {:induction false} FittingIsMost(have: set<nat>, free: nat, v: nat, count: nat)
    ensures var c := Fitting(have, free, v, count);
            && Missing(have, v, c) <= free && (c < count ==> Missing(have, v, c + 1) > free)
            && (c == count <==> Missing(have, v, count) <= free)
    decreases count
  {
    hide DirEntry, Touched, Missing;
    var c, i, w := Fitting(have, free, v, count), DirEntry(v, 0), (v + 1) % VPAGES;
    NoneTouched(have, v);
    if count > 0 && (i in have || free > 0) {
      FittingIsMost(have + {i}, if i in have then free else free - 1, w, count - 1);
      assert i in have ==> have + {i} == have;
      MissingFirst(have, v, c);
      MissingFirst(have, v, c + 1);
    } else if count > 0 {
      MissingFirst(have, v, 1);
    }
    if c < count {
      MissingMore(have, v, c + 1, count);
    }
  }

  // ---------------------------------------------------------------- one row

  lemma MapPageTables(s: Vm, d: nat, n: nat, w: Word)
    requires WfVm(s) && WfDir(s, d) && n < VPAGES
    ensures var m, i := MapPage(s, d, n, w), n / ENTRIES;
            && (m.outcome == Done <==> i in TablesIn(s, d) || FreeCount(s.bits) > 0)
            && (m.outcome == Done ==>
                  && Remapped(s, m.vm, d, n, w) && TablesIn(m.vm, d) == TablesIn(s, d) + {i}
                  && FreeCount(m.vm.bits) == FreeCount(s.bits) - if i in TablesIn(s, d) then 0 else 1)
            && (m.outcome != Done ==> m == Result(s, NoTable))
  {
    hide MapPage, Entry, WfDir, Remapped, HasTable, FreeCount;
    MapPageFacts(s, d, n, w);
    AllocCount(s);
    if MapPage(s, d, n, w).outcome == Done {
      MapCount(s, s, d, n, w);
    }
  }

  /**
   * memory_create_map with its bookkeeping: the mapped prefix is as long as the frames for
   * its tables allow, and each directory entry touched by it has a table afterwards.
   */
  lemma {:induction false} RowMaps(s: Vm, d: nat, vaddr: Word, paddr: Word, count: nat, perm: Word)
    requires WfVm(s) && WfDir(s, d) && count <= VPAGES
    ensures var t, v := CreateMap(s, d, vaddr, paddr, count, perm).vm, vaddr / PAGE_SIZE;
            var c := Fitting(TablesIn(s, d), FreeCount(s.bits), v, count);
            && WfDir(t, d) && MapsRange(s, t, d, v, paddr, perm, c)
            && TablesIn(t, d) == TablesIn(s, d) + Touched(v, c)
            && FreeCount(t.bits) == FreeCount(s.bits) - Missing(TablesIn(s, d), v, c)
    decreases count
  {
    hide MapPage, MakePte, WfDir, TablesIn, Touched, Missing, MapsRange, FreeCount, Entry, Remapped, DirEntry;
    var v, w := vaddr / PAGE_SIZE, MakePte(paddr, perm);
    var have, free := TablesIn(s, d), FreeCount(s.bits);
    var m := MapPage(s, d, v, w);
    NoneTouched(have, v);
    MapsNothing(s, d, v, paddr, perm);
    if count > 0 {
      FirstEntry(v);
      MapPageTables(s, d, v, w);
      if m.outcome == Done {
        var vaddr', paddr' := (vaddr + PAGE_SIZE) % WORD_END, (paddr + PAGE_SIZE) % WORD_END;
        RemappedWf(s, m.vm, d, v, w);
        RowMaps(m.vm, d, vaddr', paddr', count - 1, perm);
        RowStep(s, m.vm, CreateMap(m.vm, d, vaddr', paddr', count - 1, perm).vm, d, vaddr, paddr, count, perm);
      }
    }
  }

  lemma FirstEntry(v: nat)
    requires v < VPAGES
    ensures DirEntry(v, 0) == v / ENTRIES
  {
  }

  /** The first page of a row, then the rest of it. */
  lemma RowStep(s: Vm, s1: Vm, t: Vm, d: nat, vaddr: Word, paddr: Word, count: nat, perm: Word)
    requires 0 < count <= VPAGES && Remapped(s, s1, d, vaddr / PAGE_SIZE, MakePte(paddr, perm))
    requires var i := vaddr / PAGE_SIZE / ENTRIES;
             && (i in TablesIn(s, d) || FreeCount(s.bits) > 0) && TablesIn(s1, d) == TablesIn(s, d) + {i}
             && FreeCount(s1.bits) == FreeCount(s.bits) - if i in TablesIn(s, d) then 0 else 1
    requires var v' := (vaddr + PAGE_SIZE) % WORD_END / PAGE_SIZE; var c' := Fitting(TablesIn(s1, d), FreeCount(s1.bits), v', count - 1);
             && MapsRange(s1, t, d, v', (paddr + PAGE_SIZE) % WORD_END, perm, c')
             && TablesIn(t, d) == TablesIn(s1, d) + Touched(v', c')
             && FreeCount(t.bits) == FreeCount(s1.bits) - Missing(TablesIn(s1, d), v', c')
    ensures var v := vaddr / PAGE_SIZE; var c := Fitting(TablesIn(s, d), FreeCount(s.bits), v, count);
            && MapsRange(s, t, d, v, paddr, perm, c)
            && TablesIn(t, d) == TablesIn(s, d) + Touched(v, c)
            && FreeCount(t.bits) == FreeCount(s.bits) - Missing(TablesIn(s, d), v, c)
  {
    hide TablesIn, Touched, Missing, MapsRange, FreeCount, Remapped, MakePte, DirEntry;
    var v, v' := vaddr / PAGE_SIZE, (vaddr + PAGE_SIZE) % WORD_END / PAGE_SIZE;
    NextPage(vaddr);
    FirstEntry(v);
    var have, i := TablesIn(s, d), DirEntry(v, 0);
    assert i in have ==> have + {i} == have;
    var c' := Fitting(TablesIn(s1, d), FreeCount(s1.bits), v', count - 1);
    assert Fitting(have, FreeCount(s.bits), v, count) == c' + 1;
    TouchedFirst(v, c' + 1);
    MissingFirst(have, v, c' + 1);
    MapsRangeStep(s, s1, t, d, vaddr, paddr, perm, c');
  }

  lemma MapsNothing(s: Vm, d: nat, v: nat, paddr: Word, perm: Word)
    requires v < VPAGES
    ensures MapsRange(s, s, d, v, paddr, perm, 0)
  {
    hide Entry, RangeEntry;
  }

  lemma RemappedWf(s: Vm, t: Vm, d: nat, n: nat, w: Word)
    requires n < VPAGES && Remapped(s, t, d, n, w)
    ensures WfDir(t, d)
  {
  }

  // ---------------------------------------------------------------- all rows

  /** How many pages of each row get mapped; each row starts with what the rows before it leave. */
  function Plan(have: set<nat>, free: nat, regions: seq<Region>): (cs: seq<nat>)
    ensures |cs| == |regions|
    decreases |regions|
  {
    if |regions| == 0 then []
    else
      var v, n := StartPage(regions[0]), RowCount(regions[0]);
      var c := Fitting(have, free, v, n);
      FittingIsMost(have, free, v, n);
      [c] + Plan(have + Touched(v, c), free - Missing(have, v, c), regions[1..])
  }

  /** Page m is among the first c pages of row g. */
  predicate Covers(g: Region, c: nat, m: nat)
    requires m < VPAGES
  {
    After(StartPage(g), m) < c
  }

  /** Page m was mapped by row i, and by no row after it. */
  ghost predicate LastCover(regions: seq<Region>, cs: seq<nat>, i: nat, m: nat)
    requires |cs| == |regions| && m < VPAGES
  {
    i < |regions| && Covers(regions[i], cs[i], m) && forall j :: i < j < |regions| ==> !Covers(regions[j], cs[j], m)
  }

  /** What row g stores for page m. */
  function RowEntry(g: Region, m: nat): Word
    requires m < VPAGES
  {
    RangeEntry(g.pstart, g.perm, After(StartPage(g), m))
  }

  lemma FirstRow(s: Vm, g: Region)
    requires WfVm(s) && WfDir(s, s.kdir)
    ensures var t := CreateMap(s, s.kdir, Down2(g.vstart), g.pstart, PageCount(g), g.perm).vm;
            var have, free := TablesIn(s, s.kdir), FreeCount(s.bits);
            var c := Fitting(have, free, StartPage(g), RowCount(g));
            && WfDir(t, s.kdir) && MapsRange(s, t, s.kdir, StartPage(g), g.pstart, g.perm, c)
            && TablesIn(t, s.kdir) == have + Touched(StartPage(g), c) && FreeCount(t.bits) == free - Missing(have, StartPage(g), c)
  {
    hide CreateMap, WfDir, MapsRange, TablesIn, FreeCount, Touched, Missing, Fitting, RowCount, PageCount;
    RowPages(g);
    RowMaps(s, s.kdir, Down2(g.vstart), g.pstart, PageCount(g), g.perm);
  }

  /** The entry of page m goes from `before` to `after`: that of the last row that got to m, and `before` if none did. */
  ghost predicate Stored(regions: seq<Region>, cs: seq<nat>, m: nat, before: Word, after: Word)
    requires |cs| == |regions| && m < VPAGES
  {
    && (forall i: nat :: LastCover(regions, cs, i, m) ==> after == RowEntry(regions[i], m))
    && ((forall i :: 0 <= i < |regions| ==> !Covers(regions[i], cs[i], m)) ==> after == before)
  }

  lemma StoredFirst(regions: seq<Region>, cs: seq<nat>, m: nat, before: Word, after: Word)
    requires |cs| == |regions| > 0 && m < VPAGES
    requires Stored(regions[1..], cs[1..], m, if Covers(regions[0], cs[0], m) then RowEntry(regions[0], m) else before, after)
    ensures Stored(regions, cs, m, before, after)
  {
    hide Covers, RowEntry;
    var rest, cs' := regions[1..], cs[1..];
    assert forall j :: 0 < j < |regions| ==> regions[j] == rest[j - 1] && cs[j] == cs'[j - 1];
    assert forall j :: 0 <= j < |rest| ==> rest[j] == regions[j + 1] && cs'[j] == cs[j + 1];
    forall i: nat | LastCover(regions, cs, i, m) ensures after == RowEntry(regions[i], m) {
      if i > 0 {
        assert LastCover(rest, cs', i - 1, m);
      } else {
        assert forall j :: 0 <= j < |rest| ==> !Covers(rest[j], cs'[j], m);
      }
    }
  }

  /**
   * create_kernel_table, with any number of free frames: a page of the kernel directory has
   * the entry of the last row that got to it, and its old entry if none did.
   */
  lemma {:induction false} KernelTableMaps(s: Vm, regions: seq<Region>, m: nat)
    requires WfVm(s) && WfDir(s, s.kdir) && m < VPAGES
    ensures Stored(regions, Plan(TablesIn(s, s.kdir), FreeCount(s.bits), regions), m,
                   Entry(s, s.kdir, m), Entry(CreateKernelTable(s, regions), s.kdir, m))
    decreases |regions|
  {
    hide CreateMap, WfDir, TablesIn, FreeCount, Touched, Missing, Fitting, RowCount, PageCount, Entry, Stored, RangeEntry, After;
    if |regions| > 0 {
      var g, have, free := regions[0], TablesIn(s, s.kdir), FreeCount(s.bits);
      var t := CreateMap(s, s.kdir, Down2(g.vstart), g.pstart, PageCount(g), g.perm).vm;
      FirstRow(s, g);
      FittingIsMost(have, free, StartPage(g), RowCount(g));
      KernelTableMaps(t, regions[1..], m);
      var cs := Plan(have, free, regions);
      assert cs[1..] == Plan(TablesIn(t, s.kdir), FreeCount(t.bits), regions[1..]);
      assert Entry(t, s.kdir, m) == if Covers(g, cs[0], m) then RowEntry(g, m) else Entry(s, s.kdir, m);
      StoredFirst(regions, cs, m, Entry(s, s.kdir, m), Entry(CreateKernelTable(s, regions), s.kdir, m));
    } else {
      NothingStored(m, Entry(s, s.kdir, m));
    }
  }

  lemma NothingStored(m: nat, w: Word)
    requires m < VPAGES
    ensures Stored([], [], m, w, w)
  {
  }

  // ---------------------------------------------------------------- frames enough

  /** The directory entries that the rows touch. */
  function AllTouched(regions: seq<Region>): set<nat>
    decreases |regions|
  {
    if |regions| == 0 then {} else Touched(StartPage(regions[0]), RowCount(regions[0])) + AllTouched(regions[1..])
  }

  ghost predicate AllMapped(regions: seq<Region>, cs: seq<nat>)
    requires |cs| == |regions|
  {
    forall i :: 0 <= i < |regions| ==> cs[i] == RowCount(regions[i])
  }

  lemma MissingUnion(a: set<nat>, b: set<nat>, have: set<nat>)
    ensures |(a + b) - have| == |a - have| + |b - (have + a)|
  {
    assert (a + b) - have == (a - have) + (b - (have + a));
  }

  /** Every row is mapped whole exactly when there is a free frame for each missing table. */
  lemma {:induction false} PlanIsWhole(have: set<nat>, free: nat, regions: seq<Region>)
    ensures AllMapped(regions, Plan(have, free, regions)) <==> |AllTouched(regions) - have| <= free
    decreases |regions|
  {
    hide Fitting, Touched, RowCount, StartPage;
    if |regions| > 0 {
      var v, n, rest := StartPage(regions[0]), RowCount(regions[0]), regions[1..];
      var c := Fitting(have, free, v, n);
      FittingIsMost(have, free, v, n);
      MissingUnion(Touched(v, n), AllTouched(rest), have);
      if c == n {
        var have', free' := have + Touched(v, n), free - Missing(have, v, n);
        var cs := Plan(have', free', rest);
        assert Plan(have, free, regions) == [n] + cs;
        PlanIsWhole(have', free', rest);
        FirstMapped(regions, cs);
      } else {
        assert Plan(have, free, regions)[0] == c;
      }
    }
  }

  lemma FirstMapped(regions: seq<Region>, cs: seq<nat>)
    requires |regions| == |cs| + 1
    ensures AllMapped(regions, [RowCount(regions[0])] + cs) <==> AllMapped(regions[1..], cs)
  {
    hide RowCount;
    var all, rest := [RowCount(regions[0])] + cs, regions[1..];
    assert forall i :: 0 <= i < |cs| ==> all[i + 1] == cs[i] && regions[i + 1] == rest[i];
    assert forall i :: 0 < i < |all| ==> all[i] == cs[i - 1] && regions[i] == rest[i - 1];
  }

  /** A row with no wrap-around: vstart to vend is less than half the address space, and pstart and perm are proper. */
  predicate Proper(g: Region) {
    var n := (g.vend + PAGE_SIZE - 1) / PAGE_SIZE - g.vstart / PAGE_SIZE;
    && g.vstart <= g.vend && n < VPAGES / 2
    && g.pstart % PAGE_SIZE == 0 && g.pstart + n * PAGE_SIZE <= WORD_END && g.perm < PAGE_SIZE
  }

  /** The page of address a lies between down2(vstart) and up2(vend). */
  predicate InRow(g: Region, a: Word) {
    g.vstart / PAGE_SIZE <= a / PAGE_SIZE && a / PAGE_SIZE * PAGE_SIZE < g.vend
  }

  lemma InRowCovers(g: Region, a: Word)
    requires Proper(g)
    ensures InRow(g, a) <==> Covers(g, RowCount(g), a / PAGE_SIZE)
  {
  }

  /** In directory d, address a translates to its offset from pstart, with the row's permissions. */
  ghost predicate TranslatesBy(t: Vm, d: nat, g: Region, a: Word) {
    && g.perm < PAGE_SIZE && Mapped(t, d, a / PAGE_SIZE)
    && Entry(t, d, a / PAGE_SIZE) % PAGE_SIZE == LowBits(g.perm)
    && GetPaddr(t, d, a) == g.pstart + (a - g.vstart / PAGE_SIZE * PAGE_SIZE)
  }

  lemma RowTranslates(t: Vm, d: nat, g: Region, a: Word)
    requires Proper(g) && InRow(g, a) && Entry(t, d, a / PAGE_SIZE) == RowEntry(g, a / PAGE_SIZE)
    ensures TranslatesBy(t, d, g, a)
  {
    hide Entry, MakePte, GetPaddr;
    var k := a / PAGE_SIZE - g.vstart / PAGE_SIZE;
    var f := g.pstart / PAGE_SIZE + k;
    assert After(StartPage(g), a / PAGE_SIZE) == k;
    assert g.pstart + k * PAGE_SIZE == f * PAGE_SIZE && f < VPAGES;
    FreshEntry(f, g.perm);
    GetPaddrMapped(t, d, a);
  }

  /** Row i holds address a, and no row after it does. */
  ghost predicate LastRow(regions: seq<Region>, i: nat, a: Word) {
    i < |regions| && InRow(regions[i], a) && forall j :: i < j < |regions| ==> !InRow(regions[j], a)
  }

  lemma RowsAsPlanned(regions: seq<Region>, cs: seq<nat>, a: Word)
    requires |cs| == |regions| && AllMapped(regions, cs) && forall i :: 0 <= i < |regions| ==> Proper(regions[i])
    ensures forall i: nat :: LastRow(regions, i, a) <==> LastCover(regions, cs, i, a / PAGE_SIZE)
    ensures (forall i :: 0 <= i < |regions| ==> !InRow(regions[i], a)) <==> (forall i :: 0 <= i < |regions| ==> !Covers(regions[i], cs[i], a / PAGE_SIZE))
  {
    hide Proper, Covers, InRow, RowCount;
    forall i | 0 <= i < |regions| ensures InRow(regions[i], a) <==> Covers(regions[i], cs[i], a / PAGE_SIZE) {
      InRowCovers(regions[i], a);
    }
  }

  /**
   * With a free frame for each missing table, every address of a row translates to pstart
   * plus its offset with the row's permissions (a page of two rows as the later one says),
   * and every address of no row has the entry it had.
   */
  lemma KernelTableTranslates(s: Vm, regions: seq<Region>, a: Word)
    requires WfVm(s) && WfDir(s, s.kdir) && (forall i :: 0 <= i < |regions| ==> Proper(regions[i]))
    requires |AllTouched(regions) - TablesIn(s, s.kdir)| <= FreeCount(s.bits)
    ensures var t := CreateKernelTable(s, regions);
            && (forall i: nat :: LastRow(regions, i, a) ==> TranslatesBy(t, s.kdir, regions[i], a))
            && ((forall i :: 0 <= i < |regions| ==> !InRow(regions[i], a)) ==> Entry(t, s.kdir, a / PAGE_SIZE) == Entry(s, s.kdir, a / PAGE_SIZE))
  {
    hide CreateKernelTable, WfDir, TablesIn, FreeCount, AllTouched, AllMapped, Entry, TranslatesBy, LastCover, Proper, Plan, RowEntry, Covers;
    var t, cs := CreateKernelTable(s, regions), Plan(TablesIn(s, s.kdir), FreeCount(s.bits), regions);
    KernelTableMaps(s, regions, a / PAGE_SIZE);
    PlanIsWhole(TablesIn(s, s.kdir), FreeCount(s.bits), regions);
    RowsAsPlanned(regions, cs, a);
    forall i: nat | LastRow(regions, i, a) ensures TranslatesBy(t, s.kdir, regions[i], a) {
      RowTranslates(t, s.kdir, regions[i], a);
    }
  }

  // ---------------------------------------------------------------- the rows of the source

  /** kernel_map, with the addresses the linker script fixes; e_text and s_data depend on the size of the kernel. */
  function KernelMap(e_text: Word, s_data: Word): seq<Region> {
    [ Region(0, 0x1_0000, 0, 2),
      Region(0x1_0000, e_text, 0x1_0000, 0),
      Region(s_data, 0x8_0000, s_data, 2),
      Region(0xB_8000, 0xC_0000, 0xB_8000, 2),
      Region(0x10_0000, 0x800_0000, 0x10_0000, 2) ]
  }

  /** The linker script aligns the data behind the text. */
  predicate Linked(e_text: Word, s_data: Word) {
    0x1_0000 <= e_text <= s_data <= 0x8_0000 && s_data % PAGE_SIZE == 0
  }

  function UpTo(n: nat): (r: set<nat>)
    ensures |r| == n && forall i :: i in r <==> 0 <= i < n
  {
    if n == 0 then {} else UpTo(n - 1) + {n - 1}
  }

  lemma ExtendedEntry(k: nat)
    requires k < 32512
    ensures DirEntry(256, k) == (256 + k) / ENTRIES
  {
    assert (256 + k) % VPAGES == 256 + k;
  }

  lemma ExtendedTouched(c: nat)
    requires c <= 32512
    ensures Touched(256, c) - {0} == UpTo((255 + c) / ENTRIES + 1) - {0}
  {
    hide DirEntry;
    var n := (255 + c) / ENTRIES;
    forall k | 0 <= k < c ensures DirEntry(256, k) <= n {
      ExtendedEntry(k);
    }
    forall i: nat | 0 < i <= n ensures i in Touched(256, c) {
      ExtendedEntry(i * ENTRIES - 256);
      assert DirEntry(256, i * ENTRIES - 256) in Touched(256, c);
    }
  }

  /** Tables missing for the first c pages of extended memory, once entry 0 has its table. */
  lemma MissingExtended(c: nat)
    requires c <= 32512
    ensures Missing({0}, 256, c) == (255 + c) / ENTRIES
  {
    hide Touched;
    ExtendedTouched(c);
    var all := UpTo((255 + c) / ENTRIES + 1);
    assert 0 in all;
    assert all == {0} + (all - {0});
  }

  /** Pages of extended memory mapped with that many frames left: up to the end of the last table. */
  lemma ExtendedFits(free: nat)
    ensures Fitting({0}, free, 256, 32512) == if free >= 31 then 32512 else (free + 1) * 1024 - 256
  {
    hide Fitting, Missing;
    FittingIsMost({0}, free, 256, 32512);
    var c := Fitting({0}, free, 256, 32512);
    MissingExtended(c);
    MissingExtended(32512);
    if c < 32512 {
      MissingExtended(c + 1);
    }
  }

  lemma LowTouched(v: nat, count: nat)
    requires v + count <= ENTRIES
    ensures Touched(v, count) == if count > 0 then {0} else {}
  {
    hide DirEntry;
    forall k | 0 <= k < count ensures DirEntry(v, k) == 0 {
      LowEntry(v, k);
    }
    assert count > 0 ==> DirEntry(v, 0) in Touched(v, count);
  }

  lemma LowEntry(v: nat, k: nat)
    requires v + k < ENTRIES
    ensures DirEntry(v, k) == 0
  {
  }

  /** A row below 4 MB needs no table but the first. */
  lemma LowRow(have: set<nat>, free: nat, v: nat, count: nat)
    requires v + count <= ENTRIES && (have == {0} || (have == {} && (free > 0 || count == 0)))
    ensures Fitting(have, free, v, count) == count
    ensures have + Touched(v, count) == if count > 0 then {0} else have
    ensures Missing(have, v, count) == if count > 0 && have == {} then 1 else 0
  {
    hide Fitting, Touched;
    FittingIsMost(have, free, v, count);
    LowTouched(v, count);
    assert {0} - {} == {0} && {0} - {0} == {} && {} + {0} == {0} && {0} + {} == {0} && {0} + {0} == {0};
    assert {} - have == {} && have + {} == have;
  }

  /** Without a free frame nothing is mapped where no table exists. */
  lemma NoRow(v: nat, count: nat)
    ensures Fitting({}, 0, v, count) == 0 && {} + Touched(v, 0) == {} && Missing({}, v, 0) == 0
  {
  }

  /** A row below 4 MB, when entry 0 has its table or there is a frame for it. */
  lemma PlanLow(have: set<nat>, free: nat, g: Region, rest: seq<Region>)
    requires StartPage(g) + RowCount(g) <= ENTRIES && (have == {0} || (have == {} && free > 0 && RowCount(g) > 0))
    ensures Plan(have, free, [g] + rest) == [RowCount(g)] + Plan({0}, if have == {} then free - 1 else free, rest)
  {
    hide Fitting, Touched, Missing, RowCount, StartPage;
    LowRow(have, free, StartPage(g), RowCount(g));
    assert ([g] + rest)[1..] == rest && ([g] + rest)[0] == g;
  }

  lemma PlanNone(g: Region, rest: seq<Region>)
    ensures Plan({}, 0, [g] + rest) == [0] + Plan({}, 0, rest)
  {
    hide Fitting, Touched, Missing, RowCount, StartPage;
    NoRow(StartPage(g), RowCount(g));
    assert ([g] + rest)[1..] == rest && ([g] + rest)[0] == g;
  }

  lemma PlanExtended(free: nat, g: Region)
    requires StartPage(g) == 256 && RowCount(g) == 32512
    ensures Plan({0}, free, [g]) == [if free >= 31 then 32512 else (free + 1) * 1024 - 256]
  {
    hide Fitting, Touched, Missing, RowCount, StartPage;
    ExtendedFits(free);
    assert [g][1..] == [];
    assert forall have: set<nat>, n: nat :: Plan(have, n, []) == [];
  }

  /** Pages from the one at 64 KB to the end of the text. */
  function TextPages(e_text: Word): nat
    requires e_text >= 0x1_0000
  {
    (e_text + PAGE_SIZE - 1) / PAGE_SIZE - 16
  }

  lemma PlanNothing(rs: seq<Region>)
    requires |rs| == 5
    ensures Plan({}, 0, rs) == [0, 0, 0, 0, 0]
  {
    hide Fitting, Touched, Missing, RowCount, StartPage, Plan;
    PlanNone(rs[0], rs[1..]);
    PlanNone(rs[1], rs[2..]);
    PlanNone(rs[2], rs[3..]);
    PlanNone(rs[3], rs[4..]);
    PlanNone(rs[4], []);
    assert [rs[0]] + rs[1..] == rs && [rs[1]] + rs[2..] == rs[1..] && [rs[2]] + rs[3..] == rs[2..] && [rs[3]] + rs[4..] == rs[3..] && rs[4..] == [rs[4]] + [];
    assert Plan({}, 0, []) == [];
  }

  lemma KernelCounts(e_text: Word, s_data: Word)
    requires Linked(e_text, s_data)
    ensures var rs := KernelMap(e_text, s_data);
            && StartPage(rs[0]) == 0 && RowCount(rs[0]) == 16
            && StartPage(rs[1]) == 16 && RowCount(rs[1]) == TextPages(e_text) <= 112
            && StartPage(rs[2]) == s_data / PAGE_SIZE <= 128 && RowCount(rs[2]) == 128 - s_data / PAGE_SIZE
            && StartPage(rs[3]) == 184 && RowCount(rs[3]) == 8
            && StartPage(rs[4]) == 256 && RowCount(rs[4]) == 32512
  {
  }

  lemma KernelPlan(free: nat, e_text: Word, s_data: Word)
    requires Linked(e_text, s_data)
    ensures Plan({}, free, KernelMap(e_text, s_data)) ==
              if free == 0 then [0, 0, 0, 0, 0]
              else [16, TextPages(e_text), 128 - s_data / PAGE_SIZE, 8, if free >= 32 then 32512 else free * 1024 - 256]
  {
    hide Plan, RowCount, StartPage;
    var rs := KernelMap(e_text, s_data);
    KernelCounts(e_text, s_data);
    if free == 0 {
      PlanNothing(rs);
    } else {
      PlanLow({}, free, rs[0], rs[1..]);
      PlanLow({0}, free - 1, rs[1], rs[2..]);
      PlanLow({0}, free - 1, rs[2], rs[3..]);
      PlanLow({0}, free - 1, rs[3], rs[4..]);
      PlanExtended(free - 1, rs[4]);
      assert [rs[0]] + rs[1..] == rs && [rs[1]] + rs[2..] == rs[1..] && [rs[2]] + rs[3..] == rs[2..] && [rs[3]] + rs[4..] == rs[3..] && rs[4..] == [rs[4]];
    }
  }

  /** Addresses of the kernel that the table maps: below the end of the text, data below 512 KB, the display, memory from 1 MB to 128 MB. */
  predicate KernelAddress(a: Word, e_text: Word, s_data: Word) {
    || a / PAGE_SIZE * PAGE_SIZE < e_text || s_data <= a < 0x8_0000 || 0xB_8000 <= a < 0xC_0000 || 0x10_0000 <= a < 0x800_0000
  }

  /** The page of each row that an address is in, when the directory's first table could be made. */
  lemma KernelRows(free: nat, e_text: Word, s_data: Word, m: nat)
    requires Linked(e_text, s_data) && 0 < free && m < VPAGES
    ensures var rs := KernelMap(e_text, s_data); var cs := Plan({}, free, rs);
            && (Covers(rs[0], cs[0], m) <==> m < 16) && (Covers(rs[1], cs[1], m) <==> 16 <= m && m * PAGE_SIZE < e_text)
            && (Covers(rs[2], cs[2], m) <==> s_data <= m * PAGE_SIZE && m < 128) && (Covers(rs[3], cs[3], m) <==> 184 <= m < 192)
            && (Covers(rs[4], cs[4], m) <==> 256 <= m < 32768 && m / 1024 < free)
  {
    hide Plan;
    KernelPlan(free, e_text, s_data);
  }

  /** Row g of an identity mapping stores the page's own address. */
  lemma IdentityEntry(t: Vm, d: nat, g: Region, a: Word)
    requires g.vstart == g.pstart && g.vstart % PAGE_SIZE == 0 && g.perm < PAGE_SIZE && g.vstart <= a
    requires Entry(t, d, a / PAGE_SIZE) == RowEntry(g, a / PAGE_SIZE)
    ensures Mapped(t, d, a / PAGE_SIZE) && GetPaddr(t, d, a) == a && Entry(t, d, a / PAGE_SIZE) % PAGE_SIZE == LowBits(g.perm)
  {
    hide Entry, MakePte, GetPaddr;
    FreshEntry(a / PAGE_SIZE, g.perm);
    GetPaddrMapped(t, d, a);
  }

  lemma ClearedDir(s: Vm)
    requires WfVm(s) && Frame(s, s.kdir) == ZeroPage()
    ensures WfDir(s, s.kdir) && TablesIn(s, s.kdir) == {} && forall m :: 0 <= m < VPAGES ==> Entry(s, s.kdir, m) == 0
  {
    assert forall i :: 0 <= i < ENTRIES ==> !HasTable(s, s.kdir, i);
  }

  /** The row that address a is in, if any. */
  function KernelRow(a: Word, e_text: Word, s_data: Word): Option<nat> {
    var m := a / PAGE_SIZE;
    if m < 16 then Some(0)
    else if m * PAGE_SIZE < e_text then Some(1)
    else if s_data <= m * PAGE_SIZE && m < 128 then Some(2)
    else if 184 <= m < 192 then Some(3)
    else if 256 <= m < 32768 then Some(4)
    else None
  }

  lemma NoneCovered(rs: seq<Region>, m: nat)
    requires m < VPAGES
    ensures forall i :: 0 <= i < |rs| ==> !Covers(rs[i], 0, m)
  {
  }

  lemma OnlyRow(free: nat, e_text: Word, s_data: Word, a: Word)
    requires Linked(e_text, s_data)
    ensures var rs := KernelMap(e_text, s_data); var cs := Plan({}, free, rs); var r := KernelRow(a, e_text, s_data);
            && (KernelAddress(a, e_text, s_data) <==> r.Some?)
            && (r.Some? && a / 0x40_0000 < free ==> LastCover(rs, cs, r.value, a / PAGE_SIZE))
            && (r == None || a / 0x40_0000 >= free ==> forall i :: 0 <= i < 5 ==> !Covers(rs[i], cs[i], a / PAGE_SIZE))
  {
    hide Plan, Covers;
    var rs, m := KernelMap(e_text, s_data), a / PAGE_SIZE;
    var cs := Plan({}, free, rs);
    assert m / 1024 == a / 0x40_0000;
    if free == 0 {
      KernelPlan(free, e_text, s_data);
      NoneCovered(rs, m);
    } else {
      KernelRows(free, e_text, s_data, m);
    }
  }

  /**
   * The page table the kernel boots with, for every number of free frames: an address of
   * the kernel translates to itself, writable except in the text, if there is a frame for
   * the table of its 4 MB; nothing else is mapped. Thirty-two frames map it all.
   */
  lemma KernelIdentity(s: Vm, e_text: Word, s_data: Word, a: Word)
    requires WfVm(s) && Frame(s, s.kdir) == ZeroPage() && Linked(e_text, s_data)
    ensures var t := CreateKernelTable(s, KernelMap(e_text, s_data));
            if KernelAddress(a, e_text, s_data) && a / 0x40_0000 < FreeCount(s.bits)
            then Mapped(t, s.kdir, a / PAGE_SIZE) && GetPaddr(t, s.kdir, a) == a
                 && Entry(t, s.kdir, a / PAGE_SIZE) % PAGE_SIZE == if 0x1_0000 <= a && a / PAGE_SIZE * PAGE_SIZE < e_text then 1 else 3
            else Entry(t, s.kdir, a / PAGE_SIZE) == 0
  {
    hide CreateKernelTable, Entry, GetPaddr, Plan, WfDir, TablesIn, RowEntry, KernelAddress, LastCover, Covers;
    var t, rs := CreateKernelTable(s, KernelMap(e_text, s_data)), KernelMap(e_text, s_data);
    ClearedDir(s);
    KernelTableMaps(s, rs, a / PAGE_SIZE);
    OnlyRow(FreeCount(s.bits), e_text, s_data, a);
    var r := KernelRow(a, e_text, s_data);
    if r.Some? && a / 0x40_0000 < FreeCount(s.bits) {
      IdentityEntry(t, s.kdir, rs[r.value], a);
    }
  }
}
