/**
 * memory_copy_uvm_data to memory that need not be mapped. memory_get_paddr does not look
 * at the present bit, so the test for address 0 (src/kernel/mem.c:350-353) can miss an
 * unmapped page, and then the bytes go to physical frame 0.
 */
module StrayCopies {
  import opened Paging
  import opened Mem
  import opened Ownership
  import opened Bytes
  import opened DataCopy
  import opened CleanRuns
  import opened Leaks

  /**
   * memory_get_paddr returns 0 exactly for unmapped addresses if and only if the page is
   * mapped, or its table is missing, or the entry is empty and the address page-aligned.
   */
  lemma PaddrTellsIff(s: Vm, dirs: set<nat>, kern: set<nat>, owner: map<nat, Slot>, d: nat, va: Word)
    requires Owned(s, dirs, kern, owner) && d in dirs && USER_PAGE <= va / PAGE_SIZE
    ensures (GetPaddr(s, d, va) == 0 <==> !Mapped(s, d, va / PAGE_SIZE))
       <==> Mapped(s, d, va / PAGE_SIZE) || !HasTable(s, d, PdeIndex(va)) || (LeafOf(s, d, va / PAGE_SIZE) == 0 && va % PAGE_SIZE == 0)
  {
    hide Owned;
    if Mapped(s, d, va / PAGE_SIZE) {
      LeafOwner(s, dirs, kern, owner, d, va / PAGE_SIZE);
      GetPaddrMapped(s, d, va);
    }
  }

  // ---------------------------------------------------------------- what a copy can write

  /** f is neither directory d nor a table of it. */
  ghost predicate NotTable(s: Vm, d: nat, f: nat) {
    f != d && forall i :: 0 <= i < ENTRIES && HasTable(s, d, i) ==> TableOf(s, d, i) != f
  }

  /** Neither low memory nor a user page of d holds a table of d. */
  ghost predicate Targets(s: Vm, d: nat) {
    && (forall f: nat :: f < FIRST ==> NotTable(s, d, f))
    && (forall n :: USER_PAGE <= n < VPAGES && Mapped(s, d, n) ==> FIRST <= LeafOf(s, d, n) && NotTable(s, d, LeafOf(s, d, n)))
  }

  lemma OwnedTargets(s: Vm, dirs: set<nat>, kern: set<nat>, owner: map<nat, Slot>, d: nat)
    requires Owned(s, dirs, kern, owner) && d in dirs
    ensures Targets(s, d)
  {
    hide Entry;
    assert SpaceOwned(s, d, owner);
    forall i | 0 <= i < ENTRIES && HasTable(s, d, i)
      ensures TableOf(s, d, i) >= FIRST && forall n :: USER_PAGE <= n < VPAGES && Mapped(s, d, n) ==> LeafOf(s, d, n) != TableOf(s, d, i)
    {
      OwnedTable(s, dirs, kern, owner, d, i);
    }
  }

  /** Writing such a frame leaves the space as it was. */
  lemma TargetWritten(s: Vm, t: Vm, d: nat, f: nat)
    requires Targets(s, d) && Clean(s, d) && NotTable(s, d, f) && forall g: nat :: g != f ==> Frame(t, g) == Frame(s, g)
    ensures SameSpace(s, t, d) && Targets(t, d) && Clean(t, d)
  {
    hide SameSpace;
    Undisturbed(s, t, d);
    SpaceTargets(s, t, d);
  }

  lemma SpaceTargets(s: Vm, t: Vm, d: nat)
    requires Targets(s, d) && Clean(s, d) && SameSpace(s, t, d)
    ensures Targets(t, d) && Clean(t, d)
  {
    hide Entry;
    forall f: nat | NotTable(s, d, f)
      ensures NotTable(t, d, f)
    {
    }
    forall n | USER_PAGE <= n < VPAGES
      ensures Mapped(t, d, n) == Mapped(s, d, n) && LeafOf(t, d, n) == LeafOf(s, d, n)
    {
      SameEntry(s, t, d, n);
    }
  }

  /** k_memcpy within one page writes that page's frame only. */
  lemma {:induction false} MemCpyOneFrame(s: Vm, active: nat, p: nat, from: Word, n: nat)
    requires p % PAGE_SIZE + n <= PAGE_SIZE
    ensures forall g: nat :: g != p / PAGE_SIZE ==> Frame(MemCpy(s, active, p, from, n), g) == Frame(s, g)
    decreases n
  {
    hide ReadByte;
    if n > 1 {
      assert (p + 1) / PAGE_SIZE == p / PAGE_SIZE && (p + 1) % PAGE_SIZE == p % PAGE_SIZE + 1;
      MemCpyOneFrame(PutByte(s, p, ReadByte(s, active, from)), active, p + 1, (from + 1) % WORD_END, n - 1);
    } else if n == 1 {
      EmptyMemCpy(PutByte(s, p, ReadByte(s, active, from)), active, p + 1, (from + 1) % WORD_END);
    }
  }

  /** It never goes back: a byte before p keeps its value. */
  lemma {:induction false} MemCpyAscends(s: Vm, active: nat, p: nat, from: Word, n: nat, o: nat)
    requires p % PAGE_SIZE + n <= PAGE_SIZE && (n > 0 ==> o < p % PAGE_SIZE) && o < PAGE_SIZE
    ensures PageByte(Frame(MemCpy(s, active, p, from, n), p / PAGE_SIZE), o) == PageByte(Frame(s, p / PAGE_SIZE), o)
    decreases n
  {
    hide ReadByte, PageByte, SetPageByte;
    if n > 0 {
      var b := ReadByte(s, active, from);
      var t := PutByte(s, p, b);
      PageByteSet(Frame(s, p / PAGE_SIZE), p % PAGE_SIZE, b, o);
      if n == 1 {
        EmptyMemCpy(t, active, p + 1, (from + 1) % WORD_END);
      } else {
        assert (p + 1) / PAGE_SIZE == p / PAGE_SIZE && (p + 1) % PAGE_SIZE == p % PAGE_SIZE + 1;
        MemCpyAscends(t, active, p + 1, (from + 1) % WORD_END, n - 1, o);
      }
    }
  }

  /** The first byte arrives. */
  lemma MemCpyFirst(s: Vm, active: nat, p: nat, from: Word, n: nat)
    requires 0 < n && p % PAGE_SIZE + n <= PAGE_SIZE && p / PAGE_SIZE < |s.ram|
    ensures PageByte(Frame(MemCpy(s, active, p, from, n), p / PAGE_SIZE), p % PAGE_SIZE) == ReadByte(s, active, from)
  {
    hide ReadByte, PageByte, SetPageByte;
    var b := ReadByte(s, active, from);
    var t := PutByte(s, p, b);
    PageByteSet(Frame(s, p / PAGE_SIZE), p % PAGE_SIZE, b, p % PAGE_SIZE);
    if n == 1 {
      EmptyMemCpy(t, active, p + 1, (from + 1) % WORD_END);
    } else {
      assert (p + 1) / PAGE_SIZE == p / PAGE_SIZE && (p + 1) % PAGE_SIZE == p % PAGE_SIZE + 1;
      MemCpyAscends(t, active, p + 1, (from + 1) % WORD_END, n - 1, p % PAGE_SIZE);
    }
  }

  // ---------------------------------------------------------------- one chunk

  /** How much the first round copies. */
  function Chunk(to: nat, size: nat): nat {
    var room := PAGE_SIZE - to % PAGE_SIZE;
    if room > size then size else room
  }

  /** The memory after one round that found physical address p. */
  function AfterChunk(s: Vm, p: nat, active: nat, from: Word, cur: nat): Vm {
    if from == 0 then s else MemCpy(s, active, p, from, cur)
  }

  /** The copy goes on after a round that found an address with the right offset. */
  lemma OneChunk(s: Vm, to: Word, d: nat, active: nat, from: Word, size: nat)
    requires size > 0 && GetPaddr(s, d, to) != 0
    ensures GetPaddr(s, d, to) % PAGE_SIZE == to % PAGE_SIZE
    ensures var cur := Chunk(to, size);
            CopyUvmData(s, to, d, active, from, size) ==
              CopyUvmData(AfterChunk(s, GetPaddr(s, d, to), active, from, cur), (to + cur) % WORD_END, d, active, (from + cur) % WORD_END, size - cur)
  {
    hide MemCpy, GetPaddr;
    PaddrOffset(s, d, to);
  }

  lemma PaddrOffset(s: Vm, d: nat, to: Word)
    requires GetPaddr(s, d, to) != 0
    ensures GetPaddr(s, d, to) % PAGE_SIZE == to % PAGE_SIZE
  {
    var f := FrameOf(Frame(s, TableOf(s, d, PdeIndex(to)))[PteIndex(to)]);
    ModUnique(f * PAGE_SIZE + to % PAGE_SIZE, PAGE_SIZE, f, to % PAGE_SIZE);
  }

  lemma ChunkWritten(s: Vm, d: nat, p: nat, active: nat, from: Word, cur: nat)
    requires Targets(s, d) && Clean(s, d) && NotTable(s, d, p / PAGE_SIZE) && p % PAGE_SIZE + cur <= PAGE_SIZE
    ensures var t := AfterChunk(s, p, active, from, cur);
            && SameSpace(s, t, d) && Targets(t, d) && Clean(t, d)
            && forall g: nat :: g != p / PAGE_SIZE ==> Frame(t, g) == Frame(s, g)
  {
    hide Targets, Clean, NotTable, SameSpace, MemCpy;
    MemCpyOneFrame(s, active, p, from, cur);
    TargetWritten(s, AfterChunk(s, p, active, from, cur), d, p / PAGE_SIZE);
  }

  /** A range is mapped when its first chunk and the rest are. */
  lemma RangeSplit(s: Vm, t: Vm, d: nat, to: nat, size: nat)
    requires USER_PAGE * PAGE_SIZE <= to && to + size <= WORD_END && 0 < size && SameSpace(s, t, d)
    ensures var cur := Chunk(to, size);
            0 < cur <= size && (UserRange(s, d, to, size) <==> Mapped(s, d, to / PAGE_SIZE) && UserRange(t, d, to + cur, size - cur))
  {
    hide Entry;
    var cur := Chunk(to, size);
    forall x | to <= x < to + cur
      ensures x / PAGE_SIZE == to / PAGE_SIZE
    {
      SameChunk(to, size, x);
    }
    forall n | 0 <= n < VPAGES
      ensures Mapped(t, d, n) == Mapped(s, d, n)
    {
      SameEntry(s, t, d, n);
    }
  }

  lemma SameChunk(to: nat, size: nat, x: nat)
    requires to <= x < to + Chunk(to, size)
    ensures x / PAGE_SIZE == to / PAGE_SIZE
  {
  }

  // ---------------------------------------------------------------- the whole copy

  /** A round at a mapped page boundary: the space, and low memory, are as before, and the rest is again at a boundary. */
  lemma AlignedRound(s: Vm, d: nat, to: Word, active: nat, from: Word, size: nat) returns (t: Vm, cur: nat)
    requires Targets(s, d) && Clean(s, d) && USER_PAGE * PAGE_SIZE <= to && to + size <= WORD_END && 0 < size
    requires Mapped(s, d, to / PAGE_SIZE)
    ensures 0 < cur <= size && ((to + cur) % PAGE_SIZE == 0 || size - cur == 0)
    ensures Targets(t, d) && Clean(t, d) && (UserRange(s, d, to, size) <==> UserRange(t, d, to + cur, size - cur))
    ensures forall f: nat :: f < FIRST ==> Frame(t, f) == Frame(s, f)
    ensures CopyUvmData(s, to, d, active, from, size) == CopyUvmData(t, (to + cur) % WORD_END, d, active, (from + cur) % WORD_END, size - cur)
  {
    hide Targets, Clean, Entry, SameSpace, UserRange, GetPaddr, LeafOf, AfterChunk, Mapped, Frame, NotTable, HasTable, CopyUvmData;
    var p := GetPaddr(s, d, to);
    cur := Chunk(to, size);
    t := AfterChunk(s, p, active, from, cur);
    MappedTarget(s, d, to);
    OneChunk(s, to, d, active, from, size);
    NextAligned(to, size);
    ChunkWritten(s, d, p, active, from, cur);
    RangeSplit(s, t, d, to, size);
  }

  /** At an unmapped page boundary the copy fails at once. */
  lemma AlignedEnd(s: Vm, d: nat, to: Word, active: nat, from: Word, size: nat)
    requires Clean(s, d) && USER_PAGE <= to / PAGE_SIZE && 0 < size && to % PAGE_SIZE == 0 && !Mapped(s, d, to / PAGE_SIZE)
    ensures CopyUvmData(s, to, d, active, from, size) == DataResult(s, false) && !UserRange(s, d, to, size)
  {
    hide Clean, Entry, MemCpy, GetPaddr, LeafOf, Mapped, Frame, HasTable, UserRange;
    UnmappedPaddr(s, d, to);
    assert GetPaddr(s, d, to) == 0;
    RangeStart(s, d, to, size);
  }

  lemma RangeStart(s: Vm, d: nat, to: nat, size: nat)
    requires 0 < size && to / PAGE_SIZE < VPAGES && !Mapped(s, d, to / PAGE_SIZE)
    ensures !UserRange(s, d, to, size)
  {
    hide Mapped;
    assert to <= to < to + size;
  }

  /** From a page boundary on, the copy fails exactly at an unmapped page and never writes low memory. */
  lemma {:induction false} AlignedCopy(s: Vm, d: nat, to: nat, active: nat, from: Word, size: nat)
    requires Targets(s, d) && Clean(s, d) && USER_PAGE * PAGE_SIZE <= to && to + size <= WORD_END && (to % PAGE_SIZE == 0 || size == 0)
    ensures var r := CopyUvmData(s, to % WORD_END, d, active, from, size);
            (r.ok <==> UserRange(s, d, to, size)) && forall f: nat :: f < FIRST ==> Frame(r.vm, f) == Frame(s, f)
    decreases size
  {
    hide Targets, Clean, Mapped, UserRange, Frame, CopyUvmData;
    if size == 0 {
      NothingCopied(s, to % WORD_END, d, active, from);
      EmptyRange(s, d, to);
    } else {
      UserPage(to, size);
      if Mapped(s, d, to / PAGE_SIZE) {
        var t, cur := AlignedRound(s, d, to, active, from, size);
        AlignedCopy(t, d, to + cur, active, (from + cur) % WORD_END, size - cur);
      } else {
        AlignedEnd(s, d, to, active, from, size);
      }
    }
  }

  lemma NothingCopied(s: Vm, to: Word, d: nat, active: nat, from: Word)
    ensures CopyUvmData(s, to, d, active, from, 0) == DataResult(s, true)
  {
  }

  lemma UserPage(to: nat, size: nat)
    requires USER_PAGE * PAGE_SIZE <= to && to + size <= WORD_END && 0 < size
    ensures USER_PAGE <= to / PAGE_SIZE < VPAGES && to % WORD_END == to
  {
    Wrap(to);
  }

  lemma EmptyRange(s: Vm, d: nat, to: nat)
    requires USER_PAGE * PAGE_SIZE <= to <= WORD_END
    ensures UserRange(s, d, to, 0)
  {
  }

  lemma NextAligned(to: nat, size: nat)
    requires 0 < size
    ensures var cur := Chunk(to, size); to % PAGE_SIZE + cur <= PAGE_SIZE && ((to + cur) % PAGE_SIZE == 0 || size - cur == 0)
  {
  }

  lemma UnmappedPaddr(s: Vm, d: nat, to: Word)
    requires Clean(s, d) && USER_PAGE <= to / PAGE_SIZE && !Mapped(s, d, to / PAGE_SIZE)
    ensures GetPaddr(s, d, to) == if HasTable(s, d, PdeIndex(to)) then to % PAGE_SIZE else 0
  {
  }

  lemma MappedTarget(s: Vm, d: nat, to: Word)
    requires Targets(s, d) && USER_PAGE <= to / PAGE_SIZE && Mapped(s, d, to / PAGE_SIZE)
    ensures var p := GetPaddr(s, d, to);
            FIRST <= p / PAGE_SIZE && p % PAGE_SIZE == to % PAGE_SIZE && p != 0 && NotTable(s, d, p / PAGE_SIZE)
  {
    GetPaddrMapped(s, d, to);
  }

  /** The destination that the test misses: an unmapped page with a table, not at its start. */
  predicate Stray(s: Vm, d: nat, to: Word) {
    HasTable(s, d, PdeIndex(to)) && !Mapped(s, d, to / PAGE_SIZE) && to % PAGE_SIZE != 0
  }

  /**
   * When memory_copy_uvm_data can be relied on, for any destination. It succeeds exactly
   * when the range is mapped, unless the first page is stray and the rest is mapped; and
   * the kernel's low memory is written only, and always, when the first page is stray.
   */
  lemma CopyDetects(s: Vm, dirs: set<nat>, kern: set<nat>, owner: map<nat, Slot>, d: nat, to: Word, active: nat, from: Word, size: nat)
    requires Owned(s, dirs, kern, owner) && d in dirs && Clean(s, d) && USER_PAGE * PAGE_SIZE <= to && 0 < size && to + size <= WORD_END
    ensures var r := CopyUvmData(s, to, d, active, from, size);
            var rest := UserRange(s, d, to + Chunk(to, size), size - Chunk(to, size));
            && (r.ok <==> (Mapped(s, d, to / PAGE_SIZE) || Stray(s, d, to)) && rest)
            && ((r.ok <==> UserRange(s, d, to, size)) <==> !(Stray(s, d, to) && rest))
            && (!Stray(s, d, to) ==> forall f: nat :: f < FIRST ==> Frame(r.vm, f) == Frame(s, f))
            && (Stray(s, d, to) && from != 0 ==> PageByte(Frame(r.vm, 0), to % PAGE_SIZE) == ReadByte(s, active, from))
  {
    hide Owned, Targets, Clean, Entry, MemCpy, SameSpace, UserRange, GetPaddr, LeafOf, Mapped, Frame, ReadByte, PageByte, Chunk, NotTable;
    OwnedTargets(s, dirs, kern, owner, d);
    SameSpaceRefl(s, d);
    RangeSplit(s, s, d, to, size);
    var cur, p := Chunk(to, size), GetPaddr(s, d, to);
    if Mapped(s, d, to / PAGE_SIZE) {
      MappedTarget(s, d, to);
      AfterFirst(s, d, to, active, from, size);
    } else {
      UnmappedPaddr(s, d, to);
      if Stray(s, d, to) {
        LowMemory(s, d);
        AfterFirst(s, d, to, active, from, size);
        if from != 0 {
          NextAligned(to, size);
          FirstByte(s, dirs, kern, owner, active, p, from, cur);
        }
      }
    }
  }

  /** After a first round that wrote no table the copy is an aligned one. */
  lemma AfterFirst(s: Vm, d: nat, to: Word, active: nat, from: Word, size: nat)
    requires Targets(s, d) && Clean(s, d) && USER_PAGE * PAGE_SIZE <= to && 0 < size && to + size <= WORD_END
    requires GetPaddr(s, d, to) != 0 && NotTable(s, d, GetPaddr(s, d, to) / PAGE_SIZE)
    ensures var r, cur, p := CopyUvmData(s, to, d, active, from, size), Chunk(to, size), GetPaddr(s, d, to);
            && cur <= size && (r.ok <==> UserRange(s, d, to + cur, size - cur))
            && forall f: nat :: f < FIRST ==> Frame(r.vm, f) == if f == p / PAGE_SIZE then Frame(AfterChunk(s, p, active, from, cur), f) else Frame(s, f)
  {
    hide Targets, Clean, Entry, MemCpy, SameSpace, UserRange, GetPaddr, LeafOf, Mapped, Frame, AfterChunk, NotTable, CopyUvmData;
    var cur, p := Chunk(to, size), GetPaddr(s, d, to);
    OneChunk(s, to, d, active, from, size);
    NextAligned(to, size);
    ChunkWritten(s, d, p, active, from, cur);
    var t := AfterChunk(s, p, active, from, cur);
    SameRange(s, t, d, to + cur, size - cur);
    AlignedCopy(t, d, to + cur, active, (from + cur) % WORD_END, size - cur);
  }

  lemma SameRange(s: Vm, t: Vm, d: nat, va: nat, n: nat)
    requires SameSpace(s, t, d)
    ensures UserRange(t, d, va, n) == UserRange(s, d, va, n)
  {
    hide Entry;
    forall k | 0 <= k < VPAGES
      ensures Mapped(t, d, k) == Mapped(s, d, k)
    {
      SameEntry(s, t, d, k);
    }
  }

  lemma LowMemory(s: Vm, d: nat)
    requires Targets(s, d)
    ensures NotTable(s, d, 0)
  {
  }

  lemma FirstByte(s: Vm, dirs: set<nat>, kern: set<nat>, owner: map<nat, Slot>, active: nat, p: nat, from: Word, cur: nat)
    requires Owned(s, dirs, kern, owner) && p < PAGE_SIZE && 0 < cur && p + cur <= PAGE_SIZE
    ensures PageByte(Frame(MemCpy(s, active, p, from, cur), 0), p) == ReadByte(s, active, from)
  {
    hide MemCpy, ReadByte, PageByte, SpaceOwned, Holds, KernelOwned;
    MemCpyFirst(s, active, p, from, cur);
  }

  /** A source byte that differs from what frame 0 holds there changes frame 0 if and only if the first page is stray. */
  lemma HitsFrameZeroIff(s: Vm, dirs: set<nat>, kern: set<nat>, owner: map<nat, Slot>, d: nat, to: Word, active: nat, from: Word, size: nat)
    requires Owned(s, dirs, kern, owner) && d in dirs && Clean(s, d) && USER_PAGE * PAGE_SIZE <= to && 0 < size && to + size <= WORD_END
    requires from != 0 && ReadByte(s, active, from) != PageByte(Frame(s, 0), to % PAGE_SIZE)
    ensures Frame(CopyUvmData(s, to, d, active, from, size).vm, 0) != Frame(s, 0) <==> Stray(s, d, to)
  {
    hide Owned, Clean, CopyUvmData, ReadByte, PageByte, Frame, Stray, UserRange;
    CopyDetects(s, dirs, kern, owner, d, to, active, from, size);
  }

  /** On a machine with one mapped page, the letter in it is copied to the unmapped page after it: reported as a success, stored in frame 0. */
  lemma LetterGoesAstray()
    ensures var s, from := TwoFramesLeft(), USER_PAGE * PAGE_SIZE;
            var to := from + PAGE_SIZE + 1;
            var r := CopyUvmData(s, to, FIRST, FIRST, from, 1);
            && Owned(s, {FIRST}, {}, SOURCE_OWNER) && ReadByte(s, FIRST, from) == 65 && !Mapped(s, FIRST, to / PAGE_SIZE)
            && r.ok && PageByte(Frame(s, 0), 1) == 0 && PageByte(Frame(r.vm, 0), 1) == 65
  {
    hide Owned, CopyUvmData, Entry;
    var s, from := TwoFramesLeft(), USER_PAGE * PAGE_SIZE;
    var to := from + PAGE_SIZE + 1;
    TwoFramesLeftOwned();
    SourceFrames();
    SourceMap(USER_PAGE);
    SourceMap(USER_PAGE + 1);
    SourceClean();
    assert to / PAGE_SIZE == USER_PAGE + 1 && to % PAGE_SIZE == 1 && from / PAGE_SIZE == USER_PAGE && from % PAGE_SIZE == 0;
    assert Stray(s, FIRST, to);
    CopyDetects(s, {FIRST}, {}, SOURCE_OWNER, FIRST, to, FIRST, from, 1);
  }

  lemma SourceClean()
    ensures Clean(TwoFramesLeft(), FIRST)
  {
    hide Entry;
    forall n | USER_PAGE <= n < VPAGES && !Mapped(TwoFramesLeft(), FIRST, n)
      ensures Entry(TwoFramesLeft(), FIRST, n) == 0
    {
      SourceMap(n);
    }
  }
}
