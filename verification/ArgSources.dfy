/**
 * copy_args with its sources (src/kernel/task.c:544-568): the strings are read through
 * the running program's directory, their lengths by k_strlen, and each is moved by
 * memory_copy_uvm_data. This refines the copy of given strings in module Args.
 */
module ArgSources {
  import opened Paging
  import opened Mem
  import opened Ownership
  import opened Bytes
  import opened DataCopy
  import opened Args

  /** k_strlen, which takes a null pointer for an empty string. */
  function StrLen(s: Vm, active: nat, va: Word): nat {
    if va == 0 then 0 else |ReadString(s, active, va)|
  }

  /** The loop of copy_args from argument i on; the copies' error codes are ignored. */
  function CopyStringsFrom(s: Vm, d: nat, active: nat, table: nat, dest: Word, argv: seq<Word>, i: nat): (r: Vm)
    ensures SameShape(s, r)
    decreases |argv|
  {
    if |argv| == 0 then s
    else
      var len := StrLen(s, active, argv[0]) + 1;
      var t := CopyUvmData(s, dest, d, active, argv[0], len).vm;
      CopyDataShape(s, dest, d, active, argv[0], len);
      CopyStringsFrom(PutWord(t, table + 4 * i, dest), d, active, table, (dest + len) % WORD_END, argv[1..], i + 1)
  }

  lemma {:induction false} CopyDataShape(s: Vm, to: Word, d: nat, active: nat, from: Word, size: nat)
    ensures SameShape(s, CopyUvmData(s, to, d, active, from, size).vm)
    decreases size
  {
    hide MemCpy, GetPaddr;
    if size > 0 {
      var p := GetPaddr(s, d, to);
      if p != 0 {
        var room := PAGE_SIZE - p % PAGE_SIZE;
        var cur := if room > size then size else room;
        var t := if from == 0 then s else MemCpy(s, active, p, from, cur);
        CopyDataShape(t, (to + cur) % WORD_END, d, active, (from + cur) % WORD_END, size - cur);
      }
    }
  }

  /** copy_args; `head` is the address of its local task_args, whose twelve bytes are in place. */
  function CopyArgsFrom(s: Vm, to: Word, d: nat, active: nat, argv: seq<Word>, head: Word): DataResult
  {
    var argc := |argv|;
    var table := GetPaddr(s, d, (to + HEADER) % WORD_END);
    var t := CopyStringsFrom(s, d, active, table, (to + HEADER + 4 * (argc + 1)) % WORD_END, argv, 0);
    var u := if argc != 0 then PutWord(t, table + 4 * argc, 0) else t;
    CopyUvmData(u, to, d, active, head, HEADER)
  }

  // ---------------------------------------------------------------- sources

  /** A frame that can be overwritten without changing any space's map: no directory, table or kernel frame. */
  ghost predicate Plain(s: Vm, kern: set<nat>, owner: map<nat, Slot>, f: nat) {
    f != s.kdir && f !in kern && (f in owner ==> owner[f].LeafSlot?)
  }

  /** A frame that copy_args stores pointers in: the first page's, and as many after it as the table has pages. */
  ghost predicate Hit(s: Vm, d: nat, to: nat, argc: nat, f: nat) {
    to / PAGE_SIZE < VPAGES && LeafOf(s, d, to / PAGE_SIZE) <= f <= LeafOf(s, d, to / PAGE_SIZE) + (HEADER + 4 * argc) / PAGE_SIZE
  }

  /** The whole block at `to` is mapped user memory, and the frames hit hold no tables. */
  ghost predicate Block(s: Vm, dirs: set<nat>, kern: set<nat>, owner: map<nat, Slot>, d: nat, to: nat, argc: nat, size: nat) {
    && Owned(s, dirs, kern, owner) && d in dirs && UserRange(s, d, to, size) && to + size < WORD_END
    && to % PAGE_SIZE == 0 && HEADER + 4 * (argc + 1) <= size
    && forall f: nat :: Hit(s, d, to, argc, f) ==> Plain(s, kern, owner, f)
  }

  /** The n bytes at `from` are apart from the block and from the frames hit, and hold `src`. */
  ghost predicate Holding(s: Vm, d: nat, to: nat, argc: nat, size: nat, active: nat, from: nat, src: seq<Byte>) {
    && Apart(s, d, to, size, active, from, |src|) && from + |src| <= WORD_END && Source(s, active, from, |src|) == src
    && forall y :: from <= y < from + |src| ==> !Hit(s, d, to, argc, LeafOf(s, active, y / PAGE_SIZE))
  }

  /** User memory of another address space is apart from d, because no frame has two owners. */
  lemma OtherSpaceApart(s: Vm, dirs: set<nat>, kern: set<nat>, owner: map<nat, Slot>, d: nat, to: nat, size: nat, active: nat, from: nat, n: nat)
    requires Owned(s, dirs, kern, owner) && d in dirs && active in dirs && active != d
    requires UserRange(s, d, to, size) && UserRange(s, active, from, n) && 0 < from && from + n <= WORD_END
    ensures Apart(s, d, to, size, active, from, n)
  {
  }

  lemma ApartSub(s: Vm, d: nat, to: nat, size: nat, active: nat, from: nat, n: nat, va: nat, m: nat)
    requires Apart(s, d, to, size, active, from, n) && to <= va && va + m <= to + size
    ensures Apart(s, d, va, m, active, from, n)
  {
  }

  lemma Bounds(s: Vm, dirs: set<nat>, kern: set<nat>, owner: map<nat, Slot>, d: nat, to: nat, argc: nat, size: nat)
    requires Block(s, dirs, kern, owner, d, to, argc, size)
    ensures to + size < WORD_END && to % PAGE_SIZE == 0 && HEADER + 4 * (argc + 1) <= size && to / PAGE_SIZE < VPAGES
    ensures Owned(s, dirs, kern, owner) && d in dirs && UserRange(s, d, to, size)
  {
  }

  /** The block, and what is hit, are the same in a state with the same spaces. */
  lemma HitSame(s: Vm, t: Vm, d: nat, to: nat, argc: nat, f: nat)
    requires SameSpace(s, t, d)
    ensures Hit(t, d, to, argc, f) == Hit(s, d, to, argc, f)
  {
    hide SameSpace, LeafOf;
    if to / PAGE_SIZE < VPAGES {
      SameLeaf(s, t, d, to / PAGE_SIZE);
    }
  }

  lemma BlockStays(s: Vm, t: Vm, dirs: set<nat>, kern: set<nat>, owner: map<nat, Slot>, d: nat, to: nat, argc: nat, size: nat)
    requires Block(s, dirs, kern, owner, d, to, argc, size) && Owned(t, dirs, kern, owner) && AllSame(s, t, dirs) && SameShape(s, t)
    ensures Block(t, dirs, kern, owner, d, to, argc, size)
  {
    hide Owned, SameSpace, UserRange, Hit;
    UserRangeStep(s, t, d, to, size, 0);
    forall f: nat | Hit(t, d, to, argc, f)
      ensures Plain(t, kern, owner, f)
    {
      HitSame(s, t, d, to, argc, f);
    }
  }

  /** Sources whose frames were not written stay. */
  lemma HoldingStays(s: Vm, t: Vm, dirs: set<nat>, d: nat, to: nat, argc: nat, size: nat, active: nat, from: nat, src: seq<Byte>)
    requires Holding(s, d, to, argc, size, active, from, src) && AllSame(s, t, dirs) && d in dirs && active in dirs
    requires forall y :: from <= y < from + |src| ==> Frame(t, LeafOf(s, active, y / PAGE_SIZE)) == Frame(s, LeafOf(s, active, y / PAGE_SIZE))
    ensures Holding(t, d, to, argc, size, active, from, src)
  {
    hide SameSpace, LeafOf, NotDest, Source, Hit, Frame;
    ApartStep(s, t, dirs, d, to, size, active, from, |src|, 0);
    SourceKept(s, t, active, from, |src|);
    forall y | from <= y < from + |src|
      ensures !Hit(t, d, to, argc, LeafOf(t, active, y / PAGE_SIZE))
    {
      SameLeaf(s, t, active, y / PAGE_SIZE);
      HitSame(s, t, d, to, argc, LeafOf(s, active, y / PAGE_SIZE));
    }
  }

  /** A copy into the block. */
  lemma CopyKeeps(s: Vm, dirs: set<nat>, kern: set<nat>, owner: map<nat, Slot>, d: nat, to: nat, argc: nat, size: nat, va: nat, bytes: seq<Byte>)
    requires Block(s, dirs, kern, owner, d, to, argc, size) && to <= va && va + |bytes| <= to + size
    ensures va + |bytes| < WORD_END
    ensures var t := ByteCopy(s, d, va, bytes);
            Block(t, dirs, kern, owner, d, to, argc, size) && AllSame(s, t, dirs)
  {
    hide Owned, Block, ByteCopy, UserRange, SameSpace;
    Bounds(s, dirs, kern, owner, d, to, argc, size);
    SubRange(s, d, to, size, va, |bytes|);
    ByteCopyFacts(s, dirs, kern, owner, d, va, bytes);
    BlockStays(s, ByteCopy(s, d, va, bytes), dirs, kern, owner, d, to, argc, size);
  }

  lemma CopyKeepsSource(s: Vm, dirs: set<nat>, kern: set<nat>, owner: map<nat, Slot>, d: nat, to: nat, argc: nat, size: nat,
                        va: nat, bytes: seq<Byte>, active: nat, from: nat, src: seq<Byte>)
    requires Block(s, dirs, kern, owner, d, to, argc, size) && to <= va && va + |bytes| <= to + size < WORD_END && active in dirs
    requires Holding(s, d, to, argc, size, active, from, src)
    ensures Holding(ByteCopy(s, d, va, bytes), d, to, argc, size, active, from, src)
  {
    hide Owned, Block, ByteCopy, UserRange, SameSpace, LeafOf, NotDest, Source, Hit;
    var t := ByteCopy(s, d, va, bytes);
    Bounds(s, dirs, kern, owner, d, to, argc, size);
    CopyKeeps(s, dirs, kern, owner, d, to, argc, size, va, bytes);
    ApartSub(s, d, to, size, active, from, |src|, va, |bytes|);
    SubRange(s, d, to, size, va, |bytes|);
    forall y | from <= y < from + |src|
      ensures Frame(t, LeafOf(s, active, y / PAGE_SIZE)) == Frame(s, LeafOf(s, active, y / PAGE_SIZE))
    {
      ByteCopyOtherFrame(s, dirs, kern, owner, d, va, bytes, LeafOf(s, active, y / PAGE_SIZE));
    }
    HoldingStays(s, t, dirs, d, to, argc, size, active, from, src);
  }

  /** A word stored in a plain frame. */
  lemma PlainStore(s: Vm, dirs: set<nat>, kern: set<nat>, owner: map<nat, Slot>, f: nat, i: nat, w: Word)
    requires Owned(s, dirs, kern, owner) && Plain(s, kern, owner, f) && i < ENTRIES
    ensures var t := SetWord(s, f, i, w);
            && Owned(t, dirs, kern, owner) && AllSame(s, t, dirs) && (forall g: nat :: g != f ==> Frame(t, g) == Frame(s, g))
            && Frame(t, f) == if f < |s.ram| then Frame(s, f)[i := w] else Frame(s, f)
  {
    hide Owned, SameSpace;
    DataWrite(s, dirs, kern, owner, f, Frame(s, f)[i := w]);
  }

  /** Where pointer i is stored: word (12 + 4i) % 4096 / 4 of the frame that many pages after the first page's. */
  lemma StorePlace(s0: Vm, s: Vm, dirs: set<nat>, kern: set<nat>, owner: map<nat, Slot>, d: nat, to: nat, argc: nat, size: nat, i: nat)
    requires Block(s0, dirs, kern, owner, d, to, argc, size) && AllSame(s0, s, dirs) && i <= argc
    ensures to + HEADER < WORD_END && to / PAGE_SIZE < VPAGES
    ensures var p, off := GetPaddr(s0, d, to + HEADER) + 4 * i, HEADER + 4 * i;
            && p / PAGE_SIZE == LeafOf(s, d, to / PAGE_SIZE) + off / PAGE_SIZE && p % PAGE_SIZE == off % PAGE_SIZE
            && Hit(s, d, to, argc, p / PAGE_SIZE)
  {
    hide Owned, UserRange, SameSpace, GetPaddr, LeafOf, Mapped, Plain;
    UserByte(s0, d, to, size, to + HEADER);
    SlotWord(to, 0);
    GetPaddrMapped(s0, d, to + HEADER);
    SameLeaf(s0, s, d, to / PAGE_SIZE);
    PhysicalSlot(LeafOf(s0, d, to / PAGE_SIZE), HEADER + 4 * i);
    SlotPages(i, argc);
  }

  /** A pointer stored: the block and the spaces stay, and only the frame hit changes. */
  lemma StoreKeeps(s0: Vm, s: Vm, dirs: set<nat>, kern: set<nat>, owner: map<nat, Slot>, d: nat, to: nat, argc: nat, size: nat, i: nat, w: Word)
    requires Block(s0, dirs, kern, owner, d, to, argc, size) && Block(s, dirs, kern, owner, d, to, argc, size) && AllSame(s0, s, dirs) && i <= argc
    ensures to + HEADER < WORD_END
    ensures var p := GetPaddr(s0, d, to + HEADER) + 4 * i;
            var t := PutWord(s, p, w);
            && Block(t, dirs, kern, owner, d, to, argc, size) && AllSame(s, t, dirs) && Hit(s, d, to, argc, p / PAGE_SIZE)
            && forall g: nat :: g != p / PAGE_SIZE ==> Frame(t, g) == Frame(s, g)
  {
    hide Owned, UserRange, SameSpace, GetPaddr, Hit, Plain, SetWord;
    StorePlace(s0, s, dirs, kern, owner, d, to, argc, size, i);
    var p := GetPaddr(s0, d, to + HEADER) + 4 * i;
    PlainStore(s, dirs, kern, owner, p / PAGE_SIZE, p % PAGE_SIZE / 4, w);
    BlockStays(s, PutWord(s, p, w), dirs, kern, owner, d, to, argc, size);
  }

  lemma StoreKeepsSource(s0: Vm, s: Vm, dirs: set<nat>, kern: set<nat>, owner: map<nat, Slot>, d: nat, to: nat, argc: nat, size: nat,
                         i: nat, w: Word, active: nat, from: nat, src: seq<Byte>)
    requires Block(s0, dirs, kern, owner, d, to, argc, size) && Block(s, dirs, kern, owner, d, to, argc, size) && AllSame(s0, s, dirs)
    requires i <= argc && active in dirs && to + HEADER < WORD_END
    requires Holding(s, d, to, argc, size, active, from, src)
    ensures Holding(PutWord(s, GetPaddr(s0, d, to + HEADER) + 4 * i, w), d, to, argc, size, active, from, src)
  {
    hide Owned, Block, SameSpace, GetPaddr, Hit, PutWord, LeafOf, Source, NotDest;
    Bounds(s, dirs, kern, owner, d, to, argc, size);
    StoreKeeps(s0, s, dirs, kern, owner, d, to, argc, size, i, w);
    HoldingStays(s, PutWord(s, GetPaddr(s0, d, to + HEADER) + 4 * i, w), dirs, d, to, argc, size, active, from, src);
  }

  /** memory_copy_uvm_data into the block is the byte copy of what the source holds. */
  lemma CopyHeld(s: Vm, dirs: set<nat>, kern: set<nat>, owner: map<nat, Slot>, d: nat, to: nat, argc: nat, size: nat, va: nat, active: nat, from: nat, src: seq<Byte>)
    requires Block(s, dirs, kern, owner, d, to, argc, size) && to <= va && va + |src| <= to + size && active in dirs
    requires Holding(s, d, to, argc, size, active, from, src) && from < WORD_END
    ensures va + |src| < WORD_END && CopyUvmData(s, va, d, active, from, |src|) == DataResult(ByteCopy(s, d, va, src), true)
  {
    hide Owned, Block, ByteCopy, UserRange, SameSpace, LeafOf, NotDest, Source, CopyUvmData, Hit;
    Bounds(s, dirs, kern, owner, d, to, argc, size);
    SubRange(s, d, to, size, va, |src|);
    ApartSub(s, d, to, size, active, from, |src|, va, |src|);
    ApartPrefix(s, d, va, |src|, active, from, |src|, |src|);
    Wrap(va);
    Wrap(from);
    CopyUvmDataRefines(s, dirs, kern, owner, d, va, active, from, |src|);
  }

  /** k_strlen finds the string that a source holds. */
  lemma HeldString(s: Vm, d: nat, to: nat, argc: nat, size: nat, active: nat, from: nat, str: Str)
    requires Holding(s, d, to, argc, size, active, from, str + [0]) && NoNul(str)
    ensures 0 < from < WORD_END && StrLen(s, active, from) == |str|
  {
    hide ReadByte, Source, NotDest, ReadString, Hit;
    var src := str + [0];
    forall k | 0 <= k < |src|
      ensures ReadByte(s, active, from + k) == src[k]
    {
      SourceAt(s, active, from, |src|, k);
    }
    assert src[|str|] == 0 && ReadByte(s, active, from + |str|) == src[|str|];
    forall x | from <= x < from + |str|
      ensures ReadByte(s, active, x) == str[x - from]
    {
      assert ReadByte(s, active, from + (x - from)) == src[x - from];
    }
    ReadsString(s, active, from, str);
  }

  // ---------------------------------------------------------------- the loop

  /** Every argument is where argv says, apart from all that is written. */
  ghost predicate Sources(s: Vm, d: nat, to: nat, argc: nat, size: nat, active: nat, argv: seq<Word>, strs: seq<Str>) {
    |argv| == |strs| && forall k :: 0 <= k < |argv| ==> Holding(s, d, to, argc, size, active, argv[k], strs[k] + [0]) && NoNul(strs[k])
  }

  /** The state after one round of the loop over given strings. */
  function Round(s0: Vm, s: Vm, d: nat, to: nat, dest: nat, str: Str, i: nat): Vm
    requires to + HEADER < WORD_END && dest + |str| + 1 < WORD_END
  {
    PutWord(ByteCopy(s, d, dest, str + [0]), GetPaddr(s0, d, to + HEADER) + 4 * i, dest)
  }

  lemma RoundKeeps(s0: Vm, s: Vm, dirs: set<nat>, kern: set<nat>, owner: map<nat, Slot>, d: nat, to: nat, argc: nat, size: nat, dest: nat, str: Str, i: nat)
    requires Block(s0, dirs, kern, owner, d, to, argc, size) && Block(s, dirs, kern, owner, d, to, argc, size) && AllSame(s0, s, dirs)
    requires i < argc && to + HEADER + 4 * (argc + 1) <= dest && dest + |str| + 1 <= to + size
    ensures to + HEADER < WORD_END && dest + |str| + 1 < WORD_END
    ensures var t := Round(s0, s, d, to, dest, str, i);
            Block(t, dirs, kern, owner, d, to, argc, size) && AllSame(s0, t, dirs)
  {
    hide Owned, Block, ByteCopy, SameSpace, AllSame, PutWord, GetPaddr, Hit;
    Bounds(s, dirs, kern, owner, d, to, argc, size);
    var u := ByteCopy(s, d, dest, str + [0]);
    CopyKeeps(s, dirs, kern, owner, d, to, argc, size, dest, str + [0]);
    AllSameTrans(s0, s, u, dirs);
    StoreKeeps(s0, u, dirs, kern, owner, d, to, argc, size, i, dest);
    AllSameTrans(s0, u, Round(s0, s, d, to, dest, str, i), dirs);
  }

  lemma RoundKeepsSource(s0: Vm, s: Vm, dirs: set<nat>, kern: set<nat>, owner: map<nat, Slot>, d: nat, to: nat, argc: nat, size: nat,
                         dest: nat, str: Str, i: nat, active: nat, from: nat, src: seq<Byte>)
    requires Block(s0, dirs, kern, owner, d, to, argc, size) && Block(s, dirs, kern, owner, d, to, argc, size) && AllSame(s0, s, dirs)
    requires i < argc && to + HEADER + 4 * (argc + 1) <= dest && dest + |str| + 1 <= to + size < WORD_END && active in dirs
    requires Holding(s, d, to, argc, size, active, from, src)
    ensures Holding(Round(s0, s, d, to, dest, str, i), d, to, argc, size, active, from, src)
  {
    hide Owned, Block, ByteCopy, SameSpace, AllSame, PutWord, GetPaddr, Holding;
    var u := ByteCopy(s, d, dest, str + [0]);
    CopyKeeps(s, dirs, kern, owner, d, to, argc, size, dest, str + [0]);
    CopyKeepsSource(s, dirs, kern, owner, d, to, argc, size, dest, str + [0], active, from, src);
    AllSameTrans(s0, s, u, dirs);
    StoreKeepsSource(s0, u, dirs, kern, owner, d, to, argc, size, i, dest, active, from, src);
  }

  /** One round as coded is one round over the string the source holds. */
  lemma OneArgument(s0: Vm, s: Vm, dirs: set<nat>, kern: set<nat>, owner: map<nat, Slot>, d: nat, to: nat, argc: nat, size: nat,
                    active: nat, dest: nat, from: Word, str: Str, i: nat)
    requires Block(s, dirs, kern, owner, d, to, argc, size)
    requires to + HEADER + 4 * (argc + 1) <= dest && dest + |str| + 1 <= to + size < WORD_END && active in dirs
    requires Holding(s, d, to, argc, size, active, from, str + [0]) && NoNul(str)
    ensures StrLen(s, active, from) == |str|
    ensures PutWord(CopyUvmData(s, dest, d, active, from, |str| + 1).vm, GetPaddr(s0, d, to + HEADER) + 4 * i, dest) == Round(s0, s, d, to, dest, str, i)
  {
    hide Owned, Block, ByteCopy, StrLen, PutWord, GetPaddr, Holding, NoNul, CopyUvmData;
    HeldString(s, d, to, argc, size, active, from, str);
    CopyHeld(s, dirs, kern, owner, d, to, argc, size, dest, active, from, str + [0]);
    assert |str + [0]| == |str| + 1;
  }

  lemma SourcesAfter(s0: Vm, s: Vm, dirs: set<nat>, kern: set<nat>, owner: map<nat, Slot>, d: nat, to: nat, argc: nat, size: nat,
                     dest: nat, i: nat, active: nat, argv: seq<Word>, strs: seq<Str>)
    requires Block(s0, dirs, kern, owner, d, to, argc, size) && Block(s, dirs, kern, owner, d, to, argc, size) && AllSame(s0, s, dirs)
    requires |argv| > 0 && Sources(s, d, to, argc, size, active, argv, strs) && active in dirs
    requires i < argc && to + HEADER + 4 * (argc + 1) <= dest && dest + |strs[0]| + 1 <= to + size < WORD_END
    ensures Sources(Round(s0, s, d, to, dest, strs[0], i), d, to, argc, size, active, argv[1..], strs[1..])
  {
    hide Block, Round, AllSame, Holding, NoNul;
    var t := Round(s0, s, d, to, dest, strs[0], i);
    forall k | 0 <= k < |argv[1..]|
      ensures Holding(t, d, to, argc, size, active, argv[1..][k], strs[1..][k] + [0])
      ensures NoNul(strs[1..][k])
    {
      assert argv[1..][k] == argv[k + 1] && strs[1..][k] == strs[k + 1];
      RoundKeepsSource(s0, s, dirs, kern, owner, d, to, argc, size, dest, strs[0], i, active, argv[k + 1], strs[k + 1] + [0]);
    }
  }

  /** The loop with its sources is the loop over the given strings; `head` is a further source that stays. */
  lemma {:induction false} StringsRefine(s0: Vm, s: Vm, dirs: set<nat>, kern: set<nat>, owner: map<nat, Slot>, d: nat, to: nat, argc: nat, size: nat,
                                         dest: nat, active: nat, argv: seq<Word>, strs: seq<Str>, i: nat, head: nat, bytes: seq<Byte>)
    requires Block(s0, dirs, kern, owner, d, to, argc, size) && Block(s, dirs, kern, owner, d, to, argc, size) && AllSame(s0, s, dirs)
    requires i + |strs| == argc && to + HEADER + 4 * (argc + 1) <= dest && dest + StringsSize(strs) <= to + size < WORD_END && active in dirs
    requires Sources(s, d, to, argc, size, active, argv, strs) && Holding(s, d, to, argc, size, active, head, bytes)
    ensures var table := GetPaddr(s0, d, to + HEADER);
            var t := CopyStrings(s, d, table, dest, strs, i);
            && CopyStringsFrom(s, d, active, table, dest, argv, i) == t
            && Block(t, dirs, kern, owner, d, to, argc, size) && AllSame(s0, t, dirs) && Holding(t, d, to, argc, size, active, head, bytes)
    decreases |strs|
  {
    hide Block, AllSame, ByteCopy, StrLen, PutWord, GetPaddr, Holding, NoNul, CopyUvmData, Sources;
    SourcesSize(s, d, to, argc, size, active, argv, strs);
    if |strs| > 0 {
      FirstSource(s, d, to, argc, size, active, argv, strs);
      OneArgument(s0, s, dirs, kern, owner, d, to, argc, size, active, dest, argv[0], strs[0], i);
      RoundKeeps(s0, s, dirs, kern, owner, d, to, argc, size, dest, strs[0], i);
      SourcesAfter(s0, s, dirs, kern, owner, d, to, argc, size, dest, i, active, argv, strs);
      RoundKeepsSource(s0, s, dirs, kern, owner, d, to, argc, size, dest, strs[0], i, active, head, bytes);
      StringsRefine(s0, Round(s0, s, d, to, dest, strs[0], i), dirs, kern, owner, d, to, argc, size,
                    dest + |strs[0]| + 1, active, argv[1..], strs[1..], i + 1, head, bytes);
    }
  }

  lemma SourcesSize(s: Vm, d: nat, to: nat, argc: nat, size: nat, active: nat, argv: seq<Word>, strs: seq<Str>)
    requires Sources(s, d, to, argc, size, active, argv, strs)
    ensures |argv| == |strs|
  {
  }

  lemma FirstSource(s: Vm, d: nat, to: nat, argc: nat, size: nat, active: nat, argv: seq<Word>, strs: seq<Str>)
    requires Sources(s, d, to, argc, size, active, argv, strs) && |argv| > 0
    ensures |strs| > 0 && Holding(s, d, to, argc, size, active, argv[0], strs[0] + [0]) && NoNul(strs[0])
  {
  }

  // ---------------------------------------------------------------- the call

  /** The twelve bytes of task_args. */
  function Header(to: nat, argc: nat, ret: Word): (r: seq<Byte>)
    requires to + HEADER < WORD_END && argc < WORD_END
    ensures |r| == HEADER
  {
    WordToBytes(ret) + WordToBytes(argc) + WordToBytes(to + HEADER)
  }

  /** A block for the strings and sources for all of them: what sys_execve has when it calls copy_args. */
  ghost predicate Ready(s: Vm, dirs: set<nat>, kern: set<nat>, owner: map<nat, Slot>, d: nat, to: nat, active: nat, argv: seq<Word>, strs: seq<Str>, head: Word, ret: Word) {
    && Block(s, dirs, kern, owner, d, to, |strs|, BlockSize(strs)) && active in dirs
    && Sources(s, d, to, |strs|, BlockSize(strs), active, argv, strs)
    && to + HEADER < WORD_END && |strs| < WORD_END && Holding(s, d, to, |strs|, BlockSize(strs), active, head, Header(to, |strs|, ret))
  }

  /** copy_args as coded is the copy of the strings that argv leads to, wherever the table's pages are. */
  lemma CopyArgsRefines(s: Vm, dirs: set<nat>, kern: set<nat>, owner: map<nat, Slot>, d: nat, to: nat, active: nat, argv: seq<Word>, strs: seq<Str>, head: Word, ret: Word)
    requires Ready(s, dirs, kern, owner, d, to, active, argv, strs, head, ret)
    ensures to + BlockSize(strs) < WORD_END && CopyArgsFrom(s, to, d, active, argv, head) == DataResult(CopyArgs(s, to, d, strs, ret), true)
    ensures Owned(CopyArgs(s, to, d, strs, ret), dirs, kern, owner) && AllSame(s, CopyArgs(s, to, d, strs, ret), dirs)
  {
    hide Owned, Block, AllSame, ByteCopy, PutWord, GetPaddr, Holding, Sources, CopyUvmData, CopyStrings, CopyStringsFrom, WordToBytes, StringsSize, Hit;
    var argc, size := |strs|, BlockSize(strs);
    var bytes := Header(to, argc, ret);
    var dest := to + HEADER + 4 * (argc + 1);
    Bounds(s, dirs, kern, owner, d, to, argc, size);
    SourcesSize(s, d, to, argc, size, active, argv, strs);
    SameStart(s, dirs);
    StringsRefine(s, s, dirs, kern, owner, d, to, argc, size, dest, active, argv, strs, 0, head, bytes);
    var table := GetPaddr(s, d, to + HEADER);
    var t := CopyStrings(s, d, table, dest, strs, 0);
    var u := if argc != 0 then PutWord(t, table + 4 * argc, 0) else t;
    if argc != 0 {
      StoreKeeps(s, t, dirs, kern, owner, d, to, argc, size, argc, 0);
      StoreKeepsSource(s, t, dirs, kern, owner, d, to, argc, size, argc, 0, active, head, bytes);
      AllSameTrans(s, t, u, dirs);
    }
    CopyHeld(u, dirs, kern, owner, d, to, argc, size, to, active, head, bytes);
    CopyKeeps(u, dirs, kern, owner, d, to, argc, size, to, bytes);
    var v := ByteCopy(u, d, to, bytes);
    AllSameTrans(s, u, v, dirs);
    Bounds(v, dirs, kern, owner, d, to, argc, size);
  }
}
