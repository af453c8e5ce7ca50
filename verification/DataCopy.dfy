/**
 * memory_copy_uvm_data (src/kernel/mem.c:345-366): copying bytes into another
 * address space, page by page, refines storing them one by one.
 */
module DataCopy {
  import opened Paging
  import opened Mem
  import opened Ownership
  import opened Bytes

  /** The ascending byte loop of k_memcpy to a physical address; a null source copies nothing. */
  function MemCpy(s: Vm, active: nat, p: nat, from: Word, size: nat): (r: Vm)
    ensures SameShape(s, r) && r.bits == s.bits
    decreases size
  {
    if size == 0 then s
    else MemCpy(PutByte(s, p, ReadByte(s, active, from)), active, p + 1, (from + 1) % WORD_END, size - 1)
  }

  datatype DataResult = DataResult(vm: Vm, ok: bool)

  /** memory_copy_uvm_data with `active` as the directory the source is read through. */
  function CopyUvmData(s: Vm, to: Word, d: nat, active: nat, from: Word, size: nat): DataResult
    decreases size
  {
    if size == 0 then DataResult(s, true)
    else
      var p := GetPaddr(s, d, to);
      if p == 0 then DataResult(s, false)
      else
        var room := PAGE_SIZE - p % PAGE_SIZE;
        var cur := if room > size then size else room;
        var t := if from == 0 then s else MemCpy(s, active, p, from, cur);
        CopyUvmData(t, (to + cur) % WORD_END, d, active, (from + cur) % WORD_END, size - cur)
  }

  /** Reference: the bytes of src stored one by one through directory d. */
  function ByteCopy(s: Vm, d: nat, va: nat, src: seq<Byte>): (r: Vm)
    requires va + |src| <= WORD_END
    ensures SameShape(s, r) && r.bits == s.bits
    decreases |src|
  {
    if |src| == 0 then s else ByteCopy(PutByte(s, GetPaddr(s, d, va), src[0]), d, va + 1, src[1..])
  }

  // ---------------------------------------------------------------- the reference copy

  /** Every space is as before. */
  ghost predicate AllSame(s: Vm, t: Vm, dirs: set<nat>) {
    forall e :: e in dirs ==> SameSpace(s, t, e)
  }

  lemma AllSameTrans(s: Vm, t: Vm, u: Vm, dirs: set<nat>)
    requires AllSame(s, t, dirs) && AllSame(t, u, dirs)
    ensures AllSame(s, u, dirs)
  {
  }

  lemma UserRangeStep(s: Vm, t: Vm, d: nat, va: nat, n: nat, k: nat)
    requires UserRange(s, d, va, n) && SameSpace(s, t, d) && k <= n
    ensures UserRange(t, d, va + k, n - k) && va + n <= WORD_END
  {
    hide Entry;
    forall x | va + k <= x < va + k + (n - k)
      ensures Mapped(t, d, x / PAGE_SIZE)
    {
      assert Mapped(s, d, x / PAGE_SIZE);
      assert Entry(t, d, x / PAGE_SIZE) == Entry(s, d, x / PAGE_SIZE);
    }
  }

  lemma UserByte(s: Vm, d: nat, va: nat, n: nat, x: nat)
    requires UserRange(s, d, va, n) && va <= x < va + n
    ensures x < WORD_END && USER_PAGE <= x / PAGE_SIZE < VPAGES && Mapped(s, d, x / PAGE_SIZE)
  {
  }

  lemma {:induction false} ByteCopyFacts(s: Vm, dirs: set<nat>, kern: set<nat>, owner: map<nat, Slot>, d: nat, va: nat, src: seq<Byte>)
    requires Owned(s, dirs, kern, owner) && d in dirs && UserRange(s, d, va, |src|)
    ensures var t := ByteCopy(s, d, va, src);
            Owned(t, dirs, kern, owner) && AllSame(s, t, dirs)
    decreases |src|
  {
    hide SpaceOwned, Holds, KernelOwned, PutByte, GetPaddr, SameSpace, UserRange, Entry;
    if |src| == 0 {
      forall e | e in dirs
        ensures SameSpace(s, s, e)
      {
        SameSpaceRefl(s, e);
      }
    } else {
      UserByte(s, d, va, |src|, va);
      PutByteFacts(s, dirs, kern, owner, d, va, src[0]);
      var t := PutByte(s, GetPaddr(s, d, va), src[0]);
      UserRangeStep(s, t, d, va, |src|, 1);
      ByteCopyFacts(t, dirs, kern, owner, d, va + 1, src[1..]);
      AllSameTrans(s, t, ByteCopy(t, d, va + 1, src[1..]), dirs);
    }
  }

  /** Seen through d, the bytes at va .. va+n-1 become src and every other mapped user byte keeps its value. */
  lemma {:induction false} ByteCopyReads(s: Vm, dirs: set<nat>, kern: set<nat>, owner: map<nat, Slot>, d: nat, va: nat, src: seq<Byte>, x: Word)
    requires Owned(s, dirs, kern, owner) && d in dirs && UserRange(s, d, va, |src|)
    requires USER_PAGE <= x / PAGE_SIZE && Mapped(s, d, x / PAGE_SIZE)
    ensures ReadByte(ByteCopy(s, d, va, src), d, x) == if va <= x < va + |src| then src[x - va] else ReadByte(s, d, x)
    decreases |src|
  {
    hide SpaceOwned, Holds, KernelOwned, PutByte, GetPaddr, SameSpace, UserRange, ReadByte;
    if |src| > 0 {
      UserByte(s, d, va, |src|, va);
      PutByteFacts(s, dirs, kern, owner, d, va, src[0]);
      PutByteReads(s, dirs, kern, owner, d, va, src[0], x);
      var t := PutByte(s, GetPaddr(s, d, va), src[0]);
      UserRangeStep(s, t, d, va, |src|, 1);
      StillMapped(s, t, d, x / PAGE_SIZE);
      ByteCopyReads(t, dirs, kern, owner, d, va + 1, src[1..], x);
    }
  }

  lemma StillMapped(s: Vm, t: Vm, d: nat, n: nat)
    requires SameSpace(s, t, d) && n < VPAGES && Mapped(s, d, n)
    ensures Mapped(t, d, n) && LeafOf(t, d, n) == LeafOf(s, d, n)
  {
  }

  /** No frame outside the pages of the range is written. */
  lemma {:induction false} ByteCopyFrames(s: Vm, dirs: set<nat>, kern: set<nat>, owner: map<nat, Slot>, d: nat, va: nat, src: seq<Byte>, f: nat, o: nat)
    requires Owned(s, dirs, kern, owner) && d in dirs && UserRange(s, d, va, |src|) && o < PAGE_SIZE
    requires forall x :: va <= x < va + |src| ==> LeafOf(s, d, x / PAGE_SIZE) != f || x % PAGE_SIZE != o
    ensures PageByte(Frame(ByteCopy(s, d, va, src), f), o) == PageByte(Frame(s, f), o)
    decreases |src|
  {
    hide SpaceOwned, Holds, KernelOwned, PutByte, GetPaddr, SameSpace, UserRange, PageByte, SetPageByte, Entry;
    if |src| > 0 {
      UserByte(s, d, va, |src|, va);
      PutByteFacts(s, dirs, kern, owner, d, va, src[0]);
      var t := PutByte(s, GetPaddr(s, d, va), src[0]);
      UserRangeStep(s, t, d, va, |src|, 1);
      forall x | va + 1 <= x < va + 1 + |src[1..]|
        ensures x / PAGE_SIZE < VPAGES && (LeafOf(t, d, x / PAGE_SIZE) != f || x % PAGE_SIZE != o)
      {
        UserByte(s, d, va, |src|, x);
        StillMapped(s, t, d, x / PAGE_SIZE);
      }
      ByteCopyFrames(t, dirs, kern, owner, d, va + 1, src[1..], f, o);
      var g := LeafOf(s, d, va / PAGE_SIZE);
      if g == f {
        PageByteSet(Frame(s, f), va % PAGE_SIZE, src[0], o);
      }
    }
  }

  /** Two copies to adjacent ranges are one. */
  lemma {:induction false} ByteCopyJoin(s: Vm, d: nat, va: nat, a: seq<Byte>, b: seq<Byte>)
    requires va + |a| + |b| <= WORD_END
    ensures ByteCopy(ByteCopy(s, d, va, a), d, va + |a|, b) == ByteCopy(s, d, va, a + b)
    decreases |a|
  {
    hide PutByte, GetPaddr;
    if |a| == 0 {
      assert a + b == b;
    } else {
      assert (a + b)[1..] == a[1..] + b;
      ByteCopyJoin(PutByte(s, GetPaddr(s, d, va), a[0]), d, va + 1, a[1..], b);
    }
  }

  // ---------------------------------------------------------------- memory_copy_uvm_data

  /** The n source bytes at `from`, read through the active directory. */
  function Source(s: Vm, active: nat, from: nat, n: nat): (r: seq<Byte>)
    requires from + n <= WORD_END
    ensures |r| == n
    decreases n
  {
    if n == 0 then [] else [ReadByte(s, active, from)] + Source(s, active, from + 1, n - 1)
  }

  lemma {:induction false} SourceAt(s: Vm, active: nat, from: nat, n: nat, k: nat)
    requires from + n <= WORD_END && k < n
    ensures Source(s, active, from, n)[k] == ReadByte(s, active, from + k)
    decreases n
  {
    hide ReadByte;
    if k > 0 {
      SourceAt(s, active, from + 1, n - 1, k - 1);
    }
  }

  lemma {:induction false} SourceJoin(s: Vm, active: nat, from: nat, m: nat, n: nat)
    requires from + m + n <= WORD_END
    ensures Source(s, active, from, m) + Source(s, active, from + m, n) == Source(s, active, from, m + n)
    decreases m
  {
    hide ReadByte;
    if m == 0 {
      assert [] + Source(s, active, from, n) == Source(s, active, from, n);
    } else {
      SourceJoin(s, active, from + 1, m - 1, n);
      assert Source(s, active, from, m) + Source(s, active, from + m, n)
          == [ReadByte(s, active, from)] + (Source(s, active, from + 1, m - 1) + Source(s, active, from + m, n));
    }
  }

  /** f is none of the destination's frames. */
  ghost predicate NotDest(s: Vm, d: nat, to: nat, n: nat, f: nat) {
    forall x :: to <= x < to + n && x < WORD_END ==> LeafOf(s, d, x / PAGE_SIZE) != f
  }

  /** The source is a range of non-null addresses none of whose frames is a destination frame. */
  ghost predicate Apart(s: Vm, d: nat, to: nat, m: nat, active: nat, from: nat, n: nat) {
    0 < from && from + n <= WORD_END
    && forall y :: from <= y < from + n ==> NotDest(s, d, to, m, LeafOf(s, active, y / PAGE_SIZE))
  }

  lemma {:induction false} SourceKept(s: Vm, t: Vm, active: nat, from: nat, n: nat)
    requires from + n <= WORD_END && SameSpace(s, t, active)
    requires forall y :: from <= y < from + n ==> Frame(t, LeafOf(s, active, y / PAGE_SIZE)) == Frame(s, LeafOf(s, active, y / PAGE_SIZE))
    ensures Source(t, active, from, n) == Source(s, active, from, n)
    decreases n
  {
    hide PageByte, Entry;
    if n > 0 {
      assert Entry(t, active, from / PAGE_SIZE) == Entry(s, active, from / PAGE_SIZE);
      assert ReadByte(t, active, from) == ReadByte(s, active, from);
      SourceKept(s, t, active, from + 1, n - 1);
    }
  }

  lemma {:induction false} ByteCopyOtherFrame(s: Vm, dirs: set<nat>, kern: set<nat>, owner: map<nat, Slot>, d: nat, va: nat, src: seq<Byte>, f: nat)
    requires Owned(s, dirs, kern, owner) && d in dirs && UserRange(s, d, va, |src|) && NotDest(s, d, va, |src|, f)
    ensures Frame(ByteCopy(s, d, va, src), f) == Frame(s, f)
    decreases |src|
  {
    hide SpaceOwned, Holds, KernelOwned, PutByte, GetPaddr, SameSpace, UserRange, SetPageByte, Entry;
    if |src| > 0 {
      UserByte(s, d, va, |src|, va);
      PutByteFacts(s, dirs, kern, owner, d, va, src[0]);
      var t := PutByte(s, GetPaddr(s, d, va), src[0]);
      UserRangeStep(s, t, d, va, |src|, 1);
      NotDestStep(s, t, d, va, |src|, f, 1);
      ByteCopyOtherFrame(t, dirs, kern, owner, d, va + 1, src[1..], f);
    }
  }

  lemma NotDestStep(s: Vm, t: Vm, d: nat, to: nat, n: nat, f: nat, k: nat)
    requires NotDest(s, d, to, n, f) && SameSpace(s, t, d) && k <= n
    ensures NotDest(t, d, to + k, n - k, f)
  {
    hide Entry;
    forall x | to + k <= x < to + k + (n - k) && x < WORD_END
      ensures LeafOf(t, d, x / PAGE_SIZE) != f
    {
      assert LeafOf(s, d, x / PAGE_SIZE) != f;
      assert Entry(t, d, x / PAGE_SIZE) == Entry(s, d, x / PAGE_SIZE);
    }
  }

  /** Shrinking destination and source keeps them apart, in any state with the same spaces. */
  lemma ApartStep(s: Vm, t: Vm, dirs: set<nat>, d: nat, to: nat, m: nat, active: nat, from: nat, n: nat, k: nat)
    requires Apart(s, d, to, m, active, from, n) && AllSame(s, t, dirs) && d in dirs && active in dirs && k <= m && k <= n
    ensures Apart(t, d, to + k, m - k, active, from + k, n - k)
  {
    hide NotDest, SameSpace, LeafOf;
    forall y | from + k <= y < from + k + (n - k)
      ensures NotDest(t, d, to + k, m - k, LeafOf(t, active, y / PAGE_SIZE))
    {
      SameLeaf(s, t, active, y / PAGE_SIZE);
      NotDestStep(s, t, d, to, m, LeafOf(s, active, y / PAGE_SIZE), k);
    }
  }

  lemma SameLeaf(s: Vm, t: Vm, d: nat, n: nat)
    requires SameSpace(s, t, d) && n < VPAGES
    ensures LeafOf(t, d, n) == LeafOf(s, d, n)
  {
  }

  /** Within one page the physical addresses are consecutive. */
  lemma NextPaddr(s: Vm, t: Vm, d: nat, to: nat)
    requires to + 1 < WORD_END && (to + 1) % PAGE_SIZE != 0 && SameSpace(s, t, d) && Mapped(s, d, to / PAGE_SIZE)
    ensures GetPaddr(t, d, to + 1) == GetPaddr(s, d, to) + 1
  {
    hide Entry, GetPaddr;
    assert (to + 1) / PAGE_SIZE == to / PAGE_SIZE && (to + 1) % PAGE_SIZE == to % PAGE_SIZE + 1;
    StillMapped(s, t, d, to / PAGE_SIZE);
    GetPaddrMapped(s, d, to);
    GetPaddrMapped(t, d, to + 1);
  }

  lemma ApartBounds(s: Vm, d: nat, to: nat, m: nat, active: nat, from: nat, n: nat)
    requires Apart(s, d, to, m, active, from, n)
    ensures 0 < from && from + n <= WORD_END
  {
  }

  lemma RangePrefix(s: Vm, d: nat, va: nat, n: nat, k: nat)
    requires UserRange(s, d, va, n) && k <= n
    ensures UserRange(s, d, va, k) && va + n <= WORD_END
  {
  }

  lemma ApartPrefix(s: Vm, d: nat, to: nat, m: nat, active: nat, from: nat, n: nat, k: nat)
    requires Apart(s, d, to, m, active, from, n) && k <= n && k <= m
    ensures Apart(s, d, to, m, active, from, k) && Apart(s, d, to, k, active, from, n)
  {
  }

  lemma EmptyCopy(s: Vm, d: nat, to: nat, active: nat, from: nat)
    requires to <= WORD_END && from <= WORD_END
    ensures ByteCopy(s, d, to, Source(s, active, from, 0)) == s
  {
  }

  lemma EmptyMemCpy(s: Vm, active: nat, p: nat, from: Word)
    ensures MemCpy(s, active, p, from, 0) == s
  {
  }

  /** One chunk of the loop of memory_copy_uvm_data. */
  lemma ChunkUnfold(s: Vm, to: nat, d: nat, active: nat, from: nat, size: nat, cur: nat)
    requires 0 < size && to < WORD_END && 0 < from < WORD_END && GetPaddr(s, d, to) != 0
    requires GetPaddr(s, d, to) % PAGE_SIZE == to % PAGE_SIZE
    requires cur == if PAGE_SIZE - to % PAGE_SIZE > size then size else PAGE_SIZE - to % PAGE_SIZE
    ensures CopyUvmData(s, to % WORD_END, d, active, from % WORD_END, size)
         == CopyUvmData(MemCpy(s, active, GetPaddr(s, d, to), from % WORD_END, cur), (to + cur) % WORD_END, d, active, (from + cur) % WORD_END, size - cur)
  {
    hide GetPaddr, MemCpy;
    Wrap(to);
    Wrap(from);
  }

  lemma MemCpyUnfold(s: Vm, t: Vm, active: nat, p: nat, from: nat, n: nat)
    requires 0 < n && from < WORD_END && t == PutByte(s, p, ReadByte(s, active, from))
    ensures MemCpy(s, active, p, from % WORD_END, n) == MemCpy(t, active, p + 1, (from + 1) % WORD_END, n - 1)
  {
    hide PutByte, ReadByte;
    Wrap(from);
  }

  lemma ByteCopyUnfold(s: Vm, t: Vm, d: nat, to: nat, active: nat, from: nat, n: nat)
    requires 0 < n && to + n <= WORD_END && from + n <= WORD_END && t == PutByte(s, GetPaddr(s, d, to), ReadByte(s, active, from))
    ensures ByteCopy(s, d, to, Source(s, active, from, n)) == ByteCopy(t, d, to + 1, Source(s, active, from + 1, n - 1))
  {
  }

  lemma StepInPage(to: nat)
    requires to % PAGE_SIZE + 2 <= PAGE_SIZE
    ensures (to + 1) % PAGE_SIZE == to % PAGE_SIZE + 1
  {
    ModUnique(to + 1, PAGE_SIZE, to / PAGE_SIZE, to % PAGE_SIZE + 1);
  }

  /** Within one page k_memcpy is the reference copy of the source bytes. */
  lemma {:induction false} MemCpyRefines(s: Vm, dirs: set<nat>, kern: set<nat>, owner: map<nat, Slot>, d: nat, to: nat, m: nat, active: nat, from: nat, n: nat)
    requires Owned(s, dirs, kern, owner) && d in dirs && active in dirs && n <= m
    requires UserRange(s, d, to, n) && to % PAGE_SIZE + n <= PAGE_SIZE && Apart(s, d, to, m, active, from, n) && to < WORD_END
    ensures MemCpy(s, active, GetPaddr(s, d, to), from % WORD_END, n) == ByteCopy(s, d, to, Source(s, active, from, n))
    decreases n
  {
    hide Owned, LeafOf, Mapped, Frame, PutByte, GetPaddr, SameSpace, UserRange, Entry, ReadByte, NotDest, Apart, MemCpy, ByteCopy, Source;
    ApartBounds(s, d, to, m, active, from, n);
    RangePrefix(s, d, to, n, 0);
    if n == 0 {
      EmptyCopy(s, d, to, active, from);
      EmptyMemCpy(s, active, GetPaddr(s, d, to), from % WORD_END);
    } else {
      UserByte(s, d, to, n, to);
      var b := ReadByte(s, active, from);
      PutByteFacts(s, dirs, kern, owner, d, to, b);
      var t := PutByte(s, GetPaddr(s, d, to), b);
      SourceAfterByte(s, t, dirs, d, to, m, active, from, n);
      MemCpyUnfold(s, t, active, GetPaddr(s, d, to), from, n);
      ByteCopyUnfold(s, t, d, to, active, from, n);
      if n == 1 {
        EmptyCopy(t, d, to + 1, active, from + 1);
        EmptyMemCpy(t, active, GetPaddr(s, d, to) + 1, (from + 1) % WORD_END);
      } else {
        StepInPage(to);
        UserRangeStep(s, t, d, to, n, 1);
        ApartStep(s, t, dirs, d, to, m, active, from, n, 1);
        NextPaddr(s, t, d, to);
        MemCpyRefines(t, dirs, kern, owner, d, to + 1, m - 1, active, from + 1, n - 1);
      }
    }
  }

  lemma SourceAfterByte(s: Vm, t: Vm, dirs: set<nat>, d: nat, to: nat, m: nat, active: nat, from: nat, n: nat)
    requires Apart(s, d, to, m, active, from, n) && 0 < n && 0 < m && to < WORD_END && active in dirs && AllSame(s, t, dirs)
    requires forall g: nat :: g != LeafOf(s, d, to / PAGE_SIZE) ==> Frame(t, g) == Frame(s, g)
    ensures Source(t, active, from + 1, n - 1) == Source(s, active, from + 1, n - 1)
  {
    hide LeafOf, SameSpace;
    forall y | from + 1 <= y < from + 1 + (n - 1)
      ensures Frame(t, LeafOf(s, active, y / PAGE_SIZE)) == Frame(s, LeafOf(s, active, y / PAGE_SIZE))
    {
      assert NotDest(s, d, to, m, LeafOf(s, active, y / PAGE_SIZE));
    }
    SourceKept(s, t, active, from + 1, n - 1);
  }

  /** After the first chunk, what remains to be copied is in the same situation. */
  lemma CopyRest(s: Vm, t: Vm, dirs: set<nat>, kern: set<nat>, owner: map<nat, Slot>, d: nat, to: nat, active: nat, from: nat, size: nat, cur: nat)
    requires Owned(s, dirs, kern, owner) && d in dirs && active in dirs && cur <= size
    requires UserRange(s, d, to, size) && Apart(s, d, to, size, active, from, size)
    requires to + size <= WORD_END && from + size <= WORD_END && t == ByteCopy(s, d, to, Source(s, active, from, cur))
    ensures Owned(t, dirs, kern, owner)
    ensures UserRange(t, d, to + cur, size - cur) && Apart(t, d, to + cur, size - cur, active, from + cur, size - cur)
    ensures Source(t, active, from + cur, size - cur) == Source(s, active, from + cur, size - cur)
  {
    hide SpaceOwned, Holds, KernelOwned, SameSpace, UserRange, Entry, ByteCopy, Source, LeafOf, NotDest;
    var src := Source(s, active, from, cur);
    RangePrefix(s, d, to, size, cur);
    ByteCopyFacts(s, dirs, kern, owner, d, to, src);
    UserRangeStep(s, t, d, to, size, cur);
    ApartStep(s, t, dirs, d, to, size, active, from, size, cur);
    ApartPrefix(s, d, to, size, active, from, size, cur);
    forall y | from + cur <= y < from + cur + (size - cur)
      ensures Frame(t, LeafOf(s, active, y / PAGE_SIZE)) == Frame(s, LeafOf(s, active, y / PAGE_SIZE))
    {
      assert NotDest(s, d, to, cur, LeafOf(s, active, y / PAGE_SIZE));
      ByteCopyOtherFrame(s, dirs, kern, owner, d, to, src, LeafOf(s, active, y / PAGE_SIZE));
    }
    SourceKept(s, t, active, from + cur, size - cur);
  }

  /**
   * memory_copy_uvm_data over a mapped user range apart from its source succeeds, and
   * equals storing the source bytes one by one: for any offset and any size.
   */
  lemma {:induction false} CopyUvmDataRefines(s: Vm, dirs: set<nat>, kern: set<nat>, owner: map<nat, Slot>, d: nat, to: nat, active: nat, from: nat, size: nat)
    requires Owned(s, dirs, kern, owner) && d in dirs && active in dirs
    requires UserRange(s, d, to, size) && Apart(s, d, to, size, active, from, size)
    ensures CopyUvmData(s, to % WORD_END, d, active, from % WORD_END, size) == DataResult(ByteCopy(s, d, to, Source(s, active, from, size)), true)
    decreases size
  {
    hide SpaceOwned, Holds, KernelOwned, GetPaddr, SameSpace, UserRange, Entry, NotDest, MemCpy, ByteCopy, Source, Apart, LeafOf;
    ApartBounds(s, d, to, size, active, from, size);
    if size == 0 {
      RangePrefix(s, d, to, size, 0);
      EmptyCopy(s, d, to, active, from);
    } else {
      UserByte(s, d, to, size, to);
      LeafOwner(s, dirs, kern, owner, d, to / PAGE_SIZE);
      GetPaddrMapped(s, d, to);
      var room := PAGE_SIZE - to % PAGE_SIZE;
      var cur := if room > size then size else room;
      RangePrefix(s, d, to, size, cur);
      ApartPrefix(s, d, to, size, active, from, size, cur);
      MemCpyRefines(s, dirs, kern, owner, d, to, size, active, from, cur);
      ChunkUnfold(s, to, d, active, from, size, cur);
      var src := Source(s, active, from, cur);
      var t := ByteCopy(s, d, to, src);
      CopyRest(s, t, dirs, kern, owner, d, to, active, from, size, cur);
      CopyUvmDataRefines(t, dirs, kern, owner, d, to + cur, active, from + cur, size - cur);
      ByteCopyJoin(s, d, to, src, Source(s, active, from + cur, size - cur));
      SourceJoin(s, active, from, cur, size - cur);
    }
  }

  /** What that means for a reader: the destination holds the source bytes, and no other byte of RAM changed. */
  lemma CopyUvmDataCopies(s: Vm, dirs: set<nat>, kern: set<nat>, owner: map<nat, Slot>, d: nat, to: nat, active: nat, from: nat, size: nat)
    requires Owned(s, dirs, kern, owner) && d in dirs && active in dirs
    requires UserRange(s, d, to, size) && Apart(s, d, to, size, active, from, size)
    ensures var r := CopyUvmData(s, to % WORD_END, d, active, from % WORD_END, size);
            && r.ok && Owned(r.vm, dirs, kern, owner) && AllSame(s, r.vm, dirs) && r.vm.bits == s.bits
            && (forall x :: to <= x < to + size ==> ReadByte(r.vm, d, x) == ReadByte(s, active, from + (x - to)))
            && (forall f: nat, o :: 0 <= o < PAGE_SIZE && ByteApart(s, d, to, size, f, o) ==> PageByte(Frame(r.vm, f), o) == PageByte(Frame(s, f), o))
  {
    hide SpaceOwned, Holds, KernelOwned, SameSpace, UserRange, Entry, ByteCopy, Source, LeafOf, Apart, CopyUvmData, ReadByte, PageByte;
    CopyUvmDataRefines(s, dirs, kern, owner, d, to, active, from, size);
    ApartBounds(s, d, to, size, active, from, size);
    RangePrefix(s, d, to, size, 0);
    var src := Source(s, active, from, size);
    var t := ByteCopy(s, d, to, src);
    ByteCopyFacts(s, dirs, kern, owner, d, to, src);
    forall x | to <= x < to + size
      ensures ReadByte(t, d, x) == ReadByte(s, active, from + (x - to))
    {
      UserByte(s, d, to, size, x);
      ByteCopyReads(s, dirs, kern, owner, d, to, src, x);
      SourceAt(s, active, from, size, x - to);
    }
    forall f: nat, o | 0 <= o < PAGE_SIZE && ByteApart(s, d, to, size, f, o)
      ensures PageByte(Frame(t, f), o) == PageByte(Frame(s, f), o)
    {
      ByteCopyFrames(s, dirs, kern, owner, d, to, src, f, o);
    }
  }

  /** Byte o of frame f is not a byte of the range. */
  ghost predicate ByteApart(s: Vm, d: nat, to: nat, n: nat, f: nat, o: nat) {
    forall x :: to <= x < to + n && x < WORD_END ==> LeafOf(s, d, x / PAGE_SIZE) != f || x % PAGE_SIZE != o
  }
}
