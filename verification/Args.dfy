/**
 * copy_args (src/kernel/task.c:544-568): the argument block on a new program's stack.
 *
 *   to       return address, argc, argv          (task_args_t, 12 bytes)
 *   to + 12  argc pointers and a null pointer
 *   then     the strings, each with its NUL
 */
module Args {
  import opened Paging
  import opened Mem
  import opened Ownership
  import opened Bytes
  import opened DataCopy

  /** A string without its terminating NUL. */
  type Str = seq<Byte>

  const HEADER := 12

  function WordToBytes(w: Word): (r: seq<Byte>)
    ensures |r| == 4
  {
    [ByteAt(w, 0), ByteAt(w, 1), ByteAt(w, 2), ByteAt(w, 3)]
  }

  /** A word store to a physical address, as made through dest_argv_tb. */
  function PutWord(s: Vm, p: nat, w: Word): Vm {
    SetWord(s, p / PAGE_SIZE, p % PAGE_SIZE / 4, w)
  }

  /** Total length of the strings with their NULs. */
  function StringsSize(strs: seq<Str>): nat
    decreases |strs|
  {
    if |strs| == 0 then 0 else |strs[0]| + 1 + StringsSize(strs[1..])
  }

  /**
   * The loop of copy_args from string i on: `dest` is dest_arg and `table` the physical
   * address of the pointer table. Each string is stored by memory_copy_uvm_data, that is
   * by the byte copy it refines.
   */
  function CopyStrings(s: Vm, d: nat, table: nat, dest: nat, strs: seq<Str>, i: nat): (r: Vm)
    requires dest + StringsSize(strs) < WORD_END
    ensures SameShape(s, r) && r.bits == s.bits
    decreases |strs|
  {
    if |strs| == 0 then s
    else
      var t := PutWord(ByteCopy(s, d, dest, strs[0] + [0]), table + 4 * i, dest);
      CopyStrings(t, d, table, dest + |strs[0]| + 1, strs[1..], i + 1)
  }

  function BlockSize(strs: seq<Str>): nat {
    HEADER + 4 * (|strs| + 1) + StringsSize(strs)
  }

  /** copy_args; `ret` is the never initialised return-address field. */
  function CopyArgs(s: Vm, to: nat, d: nat, strs: seq<Str>, ret: Word): Vm
    requires to + BlockSize(strs) < WORD_END
  {
    var argc := |strs|;
    var table := GetPaddr(s, d, to + HEADER);
    var t := CopyStrings(s, d, table, to + HEADER + 4 * (argc + 1), strs, 0);
    var u := if argc != 0 then PutWord(t, table + 4 * argc, 0) else t;
    ByteCopy(u, d, to, WordToBytes(ret) + WordToBytes(argc) + WordToBytes(to + HEADER))
  }

  // ---------------------------------------------------------------- reading it back

  function ReadWord(s: Vm, d: nat, va: nat): Word
    requires va + 3 < WORD_END
  {
    WordOf(ReadByte(s, d, va), ReadByte(s, d, va + 1), ReadByte(s, d, va + 2), ReadByte(s, d, va + 3))
  }

  /** The NUL-terminated string at va. */
  function ReadString(s: Vm, d: nat, va: nat): Str
    decreases WORD_END - va
  {
    if va >= WORD_END || ReadByte(s, d, va) == 0 then [] else [ReadByte(s, d, va)] + ReadString(s, d, va + 1)
  }

  /** The strings that n pointers at va point to. */
  function ReadStrings(s: Vm, d: nat, va: nat, n: nat): seq<Str>
    requires va + 4 * n < WORD_END
    decreases n
  {
    if n == 0 then [] else [ReadString(s, d, ReadWord(s, d, va))] + ReadStrings(s, d, va + 4, n - 1)
  }

  // ---------------------------------------------------------------- word stores are byte copies

  lemma SetWordIsBytes(p: Page, i: nat, w: Word)
    requires i < ENTRIES
    ensures p[i := w] == SetPageByte(SetPageByte(SetPageByte(SetPageByte(p, 4 * i, ByteAt(w, 0)), 4 * i + 1, ByteAt(w, 1)), 4 * i + 2, ByteAt(w, 2)), 4 * i + 3, ByteAt(w, 3))
  {
    var w1 := SetByteAt(p[i], 0, ByteAt(w, 0));
    var w2 := SetByteAt(w1, 1, ByteAt(w, 1));
    var w3 := SetByteAt(w2, 2, ByteAt(w, 2));
    var w4 := SetByteAt(w3, 3, ByteAt(w, 3));
    assert w4 == w by {
      FourBytes(p[i], w);
    }
    assert (4 * i) / 4 == i && (4 * i + 1) / 4 == i && (4 * i + 2) / 4 == i && (4 * i + 3) / 4 == i;
    assert p[i := w1][i := w2][i := w3][i := w4] == p[i := w4];
  }

  lemma FourBytes(v: Word, w: Word)
    ensures SetByteAt(SetByteAt(SetByteAt(SetByteAt(v, 0, ByteAt(w, 0)), 1, ByteAt(w, 1)), 2, ByteAt(w, 2)), 3, ByteAt(w, 3)) == w
  {
    hide ByteAt;
    var a := SetByteAt(v, 0, ByteAt(w, 0));
    var b := SetByteAt(a, 1, ByteAt(w, 1));
    var c := SetByteAt(b, 2, ByteAt(w, 2));
    SetByteAtBytes(v, 0, ByteAt(w, 0), 0);
    SetByteAtBytes(a, 1, ByteAt(w, 1), 0);
    SetByteAtBytes(a, 1, ByteAt(w, 1), 1);
    SetByteAtBytes(b, 2, ByteAt(w, 2), 0);
    SetByteAtBytes(b, 2, ByteAt(w, 2), 1);
    SetByteAtBytes(b, 2, ByteAt(w, 2), 2);
    BytesWord(w);
  }

  /** Four bytes of one page stored one by one. */
  lemma FourPuts(s: Vm, f: nat, o: nat, w: Word)
    requires o % 4 == 0 && o < PAGE_SIZE
    ensures var p := f * PAGE_SIZE + o;
            PutWord(s, p, w) == PutByte(PutByte(PutByte(PutByte(s, p, ByteAt(w, 0)), p + 1, ByteAt(w, 1)), p + 2, ByteAt(w, 2)), p + 3, ByteAt(w, 3))
  {
    hide SetPageByte, ByteAt;
    var p := f * PAGE_SIZE + o;
    ModUnique(p, PAGE_SIZE, f, o);
    ModUnique(p + 1, PAGE_SIZE, f, o + 1);
    ModUnique(p + 2, PAGE_SIZE, f, o + 2);
    ModUnique(p + 3, PAGE_SIZE, f, o + 3);
    SetWordIsBytes(Frame(s, f), o / 4, w);
  }

  lemma CopyFour(s: Vm, d: nat, va: nat, w: Word, p: nat)
    requires va + 4 <= WORD_END
    requires var s1 := PutByte(s, p, ByteAt(w, 0));
             var s2 := PutByte(s1, p + 1, ByteAt(w, 1));
             var s3 := PutByte(s2, p + 2, ByteAt(w, 2));
             GetPaddr(s, d, va) == p && GetPaddr(s1, d, va + 1) == p + 1 && GetPaddr(s2, d, va + 2) == p + 2 && GetPaddr(s3, d, va + 3) == p + 3
    ensures ByteCopy(s, d, va, WordToBytes(w)) == PutByte(PutByte(PutByte(PutByte(s, p, ByteAt(w, 0)), p + 1, ByteAt(w, 1)), p + 2, ByteAt(w, 2)), p + 3, ByteAt(w, 3))
  {
    hide PutByte, GetPaddr, ByteAt;
    var b := WordToBytes(w);
    assert b[1..][1..] == b[2..] && b[2..][1..] == b[3..] && b[3..][1..] == [];
    var s1 := PutByte(s, p, b[0]);
    var s2 := PutByte(s1, p + 1, b[1]);
    var s3 := PutByte(s2, p + 2, b[2]);
    assert ByteCopy(s3, d, va + 3, b[3..]) == PutByte(s3, p + 3, b[3]);
    assert ByteCopy(s2, d, va + 2, b[2..]) == ByteCopy(s3, d, va + 3, b[3..]);
    assert ByteCopy(s1, d, va + 1, b[1..]) == ByteCopy(s2, d, va + 2, b[2..]);
  }

  /** After one byte, the next byte of the page is one physical address further on. */
  lemma NextPut(s: Vm, dirs: set<nat>, kern: set<nat>, owner: map<nat, Slot>, d: nat, va: nat, n: nat, b: Byte)
    requires Owned(s, dirs, kern, owner) && d in dirs && UserRange(s, d, va, n) && n > 1 && (va + 1) % PAGE_SIZE != 0
    ensures va + 1 < WORD_END
    ensures var t := PutByte(s, GetPaddr(s, d, va), b);
            Owned(t, dirs, kern, owner) && UserRange(t, d, va + 1, n - 1) && GetPaddr(t, d, va + 1) == GetPaddr(s, d, va) + 1
  {
    hide SpaceOwned, Holds, KernelOwned, PutByte, GetPaddr, SameSpace, UserRange, Entry, SetPageByte;
    UserByte(s, d, va, n, va);
    PutByteFacts(s, dirs, kern, owner, d, va, b);
    var t := PutByte(s, GetPaddr(s, d, va), b);
    UserRangeStep(s, t, d, va, n, 1);
    NextPaddr(s, t, d, va);
  }

  /** A pointer stored in the table page is a four-byte copy to its virtual address. */
  lemma PutWordIsCopy(s: Vm, dirs: set<nat>, kern: set<nat>, owner: map<nat, Slot>, d: nat, va: nat, w: Word)
    requires Owned(s, dirs, kern, owner) && d in dirs && UserRange(s, d, va, 4) && va % 4 == 0
    ensures va + 4 <= WORD_END && PutWord(s, GetPaddr(s, d, va), w) == ByteCopy(s, d, va, WordToBytes(w))
  {
    hide Owned, PutByte, PutWord, GetPaddr, ByteAt, ByteCopy, UserRange, LeafOf;
    RangePrefix(s, d, va, 4, 4);
    UserByte(s, d, va, 4, va);
    GetPaddrMapped(s, d, va);
    var p, b := GetPaddr(s, d, va), WordToBytes(w);
    FourPuts(s, LeafOf(s, d, va / PAGE_SIZE), va % PAGE_SIZE, w);
    NextPut(s, dirs, kern, owner, d, va, 4, b[0]);
    var s1 := PutByte(s, p, b[0]);
    NextPut(s1, dirs, kern, owner, d, va + 1, 3, b[1]);
    var s2 := PutByte(s1, p + 1, b[1]);
    NextPut(s2, dirs, kern, owner, d, va + 2, 2, b[2]);
    CopyFour(s, d, va, w, p);
  }

  /** Reading back a word that was stored by bytes. */
  lemma ReadStoredWord(s: Vm, dirs: set<nat>, kern: set<nat>, owner: map<nat, Slot>, d: nat, va: nat, w: Word)
    requires Owned(s, dirs, kern, owner) && d in dirs && UserRange(s, d, va, 4)
    ensures va + 4 <= WORD_END && ReadWord(ByteCopy(s, d, va, WordToBytes(w)), d, va) == w
  {
    hide SpaceOwned, Holds, KernelOwned, ByteCopy, ReadByte, UserRange, ByteAt, Entry;
    RangePrefix(s, d, va, 4, 4);
    forall x | va <= x < va + 4
      ensures ReadByte(ByteCopy(s, d, va, WordToBytes(w)), d, x) == WordToBytes(w)[x - va]
    {
      UserByte(s, d, va, 4, x);
      ByteCopyReads(s, dirs, kern, owner, d, va, WordToBytes(w), x);
    }
    BytesWord(w);
  }

  // ---------------------------------------------------------------- what the block holds

  ghost predicate HasString(t: Vm, d: nat, va: nat, str: Str) {
    va + |str| < WORD_END && ReadByte(t, d, va + |str|) == 0
    && forall x :: va <= x < va + |str| ==> ReadByte(t, d, x) == str[x - va]
  }

  /** Pointers i, i+1, .. of the table at `base` lead to the strings laid out from `dest` on. */
  ghost predicate Stored(t: Vm, d: nat, base: nat, dest: nat, strs: seq<Str>, i: nat)
    requires base + 4 * (i + |strs|) < WORD_END
    decreases |strs|
  {
    |strs| > 0 ==>
      && ReadWord(t, d, base + 4 * i) == dest && HasString(t, d, dest, strs[0])
      && Stored(t, d, base, dest + |strs[0]| + 1, strs[1..], i + 1)
  }

  /** u reads as t on the n bytes at va. */
  ghost predicate SameBytes(t: Vm, u: Vm, d: nat, va: nat, n: nat) {
    forall x :: va <= x < va + n && x < WORD_END ==> ReadByte(u, d, x) == ReadByte(t, d, x)
  }

  lemma {:induction false} StoredKept(t: Vm, u: Vm, d: nat, base: nat, dest: nat, strs: seq<Str>, i: nat)
    requires base + 4 * (i + |strs|) < WORD_END && Stored(t, d, base, dest, strs, i)
    requires SameBytes(t, u, d, base + 4 * i, 4 * |strs|) && SameBytes(t, u, d, dest, StringsSize(strs))
    ensures Stored(u, d, base, dest, strs, i)
    decreases |strs|
  {
    hide ReadByte;
    if |strs| > 0 {
      StoredKept(t, u, d, base, dest + |strs[0]| + 1, strs[1..], i + 1);
    }
  }

  /** Where the pointer with byte offset `off` from the block's start is stored. */
  lemma PhysicalSlot(a: nat, off: nat)
    ensures (a * PAGE_SIZE + off) / PAGE_SIZE == a + off / PAGE_SIZE && (a * PAGE_SIZE + off) % PAGE_SIZE == off % PAGE_SIZE
  {
    ModUnique(a * PAGE_SIZE + off, PAGE_SIZE, a + off / PAGE_SIZE, off % PAGE_SIZE);
  }

  lemma SlotWord(to: nat, i: nat)
    requires to % PAGE_SIZE == 0 && to + HEADER + 4 * i + 4 <= WORD_END
    ensures var va := to + HEADER + 4 * i;
            va / PAGE_SIZE == to / PAGE_SIZE + (HEADER + 4 * i) / PAGE_SIZE && va % PAGE_SIZE == (HEADER + 4 * i) % PAGE_SIZE
            && va % 4 == 0 && forall x :: va <= x < va + 4 ==> x / PAGE_SIZE == va / PAGE_SIZE
  {
    var va := to + HEADER + 4 * i;
    PhysicalSlot(to / PAGE_SIZE, HEADER + 4 * i);
    PointerAligned(to, i);
    WordInPage(3 + i);
    forall x | va <= x < va + 4
      ensures x / PAGE_SIZE == va / PAGE_SIZE
    {
      ModUnique(x, PAGE_SIZE, va / PAGE_SIZE, va % PAGE_SIZE + (x - va));
    }
  }

  lemma WordInPage(k: nat)
    ensures (4 * k) % PAGE_SIZE + 4 <= PAGE_SIZE
  {
    ModUnique(4 * k, PAGE_SIZE, k / 1024, 4 * (k % 1024));
  }

  lemma SlotPages(i: nat, argc: nat)
    requires i <= argc
    ensures (HEADER + 4 * i) / PAGE_SIZE <= (HEADER + 4 * argc) / PAGE_SIZE
  {
  }

  lemma PointerAligned(to: nat, i: nat)
    requires to % PAGE_SIZE == 0
    ensures (to + HEADER + 4 * i) % 4 == 0
  {
  }

  /** The pages of the table at `to` lie in consecutive frames. */
  ghost predicate Consecutive(s: Vm, d: nat, to: nat, argc: nat) {
    forall n :: to / PAGE_SIZE <= n <= to / PAGE_SIZE + (HEADER + 4 * argc) / PAGE_SIZE && n < VPAGES ==>
      LeafOf(s, d, n) == LeafOf(s, d, to / PAGE_SIZE) + (n - to / PAGE_SIZE)
  }

  /** The whole block at `to` is mapped user memory, and its table lies in consecutive frames. */
  ghost predicate BlockOk(s: Vm, dirs: set<nat>, kern: set<nat>, owner: map<nat, Slot>, d: nat, to: nat, argc: nat, size: nat) {
    && Owned(s, dirs, kern, owner) && d in dirs && UserRange(s, d, to, size) && to + size < WORD_END
    && to % PAGE_SIZE == 0 && Consecutive(s, d, to, argc) && HEADER + 4 * (argc + 1) <= size
  }

  lemma BlockMoved(s: Vm, t: Vm, dirs: set<nat>, kern: set<nat>, owner: map<nat, Slot>, d: nat, to: nat, argc: nat, size: nat)
    requires BlockOk(s, dirs, kern, owner, d, to, argc, size) && Owned(t, dirs, kern, owner) && AllSame(s, t, dirs)
    ensures BlockOk(t, dirs, kern, owner, d, to, argc, size)
  {
    hide Owned, SameSpace, UserRange, LeafOf;
    UserRangeStep(s, t, d, to, size, 0);
    ConsecutiveKept(s, t, d, to, argc);
  }

  lemma ConsecutiveKept(s: Vm, t: Vm, d: nat, to: nat, argc: nat)
    requires SameSpace(s, t, d)
    ensures Consecutive(t, d, to, argc) == Consecutive(s, d, to, argc)
  {
    hide SameSpace, LeafOf;
    forall n | 0 <= n < VPAGES
      ensures LeafOf(t, d, n) == LeafOf(s, d, n)
    {
      SameLeaf(s, t, d, n);
    }
  }

  /** The physical address of pointer i is where the code's dest_argv_tb[i] is. */
  lemma TableAddress(s0: Vm, s: Vm, dirs: set<nat>, kern: set<nat>, owner: map<nat, Slot>, d: nat, to: nat, argc: nat, size: nat, i: nat)
    requires BlockOk(s0, dirs, kern, owner, d, to, argc, size) && AllSame(s0, s, dirs) && i <= argc
    ensures to + HEADER + 4 * i < WORD_END
    ensures GetPaddr(s0, d, to + HEADER) + 4 * i == GetPaddr(s, d, to + HEADER + 4 * i)
  {
    hide Owned, Entry, GetPaddr, UserRange, LeafOf, Mapped;
    var va, off := to + HEADER + 4 * i, HEADER + 4 * i;
    UserByte(s0, d, to, size, to + HEADER);
    UserByte(s0, d, to, size, va);
    SlotWord(to, 0);
    SlotWord(to, i);
    SlotPages(i, argc);
    StillMapped(s0, s, d, va / PAGE_SIZE);
    GetPaddrMapped(s0, d, to + HEADER);
    GetPaddrMapped(s, d, va);
    assert LeafOf(s0, d, va / PAGE_SIZE) == LeafOf(s0, d, to / PAGE_SIZE) + off / PAGE_SIZE;
  }

  /** A copy into the block leaves the rest of the block as it was. */
  lemma CopyOutside(s: Vm, dirs: set<nat>, kern: set<nat>, owner: map<nat, Slot>, d: nat, to: nat, argc: nat, size: nat, va: nat, src: seq<Byte>, a: nat, n: nat)
    requires BlockOk(s, dirs, kern, owner, d, to, argc, size) && to <= va && va + |src| <= to + size
    requires to <= a && a + n <= to + size && (a + n <= va || va + |src| <= a)
    ensures SameBytes(s, ByteCopy(s, d, va, src), d, a, n)
  {
    hide Owned, ByteCopy, ReadByte, UserRange, Entry;
    SubRange(s, d, to, size, va, |src|);
    forall x | a <= x < a + n && x < WORD_END
      ensures ReadByte(ByteCopy(s, d, va, src), d, x) == ReadByte(s, d, x)
    {
      UserByte(s, d, to, size, x);
      ByteCopyReads(s, dirs, kern, owner, d, va, src, x);
    }
  }

  lemma SubRange(s: Vm, d: nat, to: nat, size: nat, va: nat, n: nat)
    requires UserRange(s, d, to, size) && to <= va && va + n <= to + size
    ensures UserRange(s, d, va, n)
  {
  }

  lemma SameBytesTrans(s: Vm, t: Vm, u: Vm, d: nat, va: nat, n: nat)
    requires SameBytes(s, t, d, va, n) && SameBytes(t, u, d, va, n)
    ensures SameBytes(s, u, d, va, n)
  {
  }

  /** One copy into the block: the invariants carry over. */
  lemma BlockCopy(s: Vm, dirs: set<nat>, kern: set<nat>, owner: map<nat, Slot>, d: nat, to: nat, argc: nat, size: nat, va: nat, src: seq<Byte>)
    requires BlockOk(s, dirs, kern, owner, d, to, argc, size) && to <= va && va + |src| <= to + size
    ensures var t := ByteCopy(s, d, va, src);
            BlockOk(t, dirs, kern, owner, d, to, argc, size) && AllSame(s, t, dirs)
  {
    hide Owned, ByteCopy, UserRange, SameSpace;
    SubRange(s, d, to, size, va, |src|);
    ByteCopyFacts(s, dirs, kern, owner, d, va, src);
    BlockMoved(s, ByteCopy(s, d, va, src), dirs, kern, owner, d, to, argc, size);
  }

  lemma StringCopied(s: Vm, dirs: set<nat>, kern: set<nat>, owner: map<nat, Slot>, d: nat, to: nat, argc: nat, size: nat, va: nat, str: Str)
    requires BlockOk(s, dirs, kern, owner, d, to, argc, size) && to <= va && va + |str| + 1 <= to + size
    ensures HasString(ByteCopy(s, d, va, str + [0]), d, va, str)
  {
    hide Owned, ByteCopy, ReadByte, UserRange, Entry;
    SubRange(s, d, to, size, va, |str| + 1);
    var t := ByteCopy(s, d, va, str + [0]);
    forall x | va <= x < va + |str| + 1
      ensures ReadByte(t, d, x) == (str + [0])[x - va]
    {
      UserByte(s, d, to, size, x);
      ByteCopyReads(s, dirs, kern, owner, d, va, str + [0], x);
    }
  }

  /** One round of the loop: string i is in place and pointer i leads to it. */
  lemma OneString(s0: Vm, s: Vm, dirs: set<nat>, kern: set<nat>, owner: map<nat, Slot>, d: nat, to: nat, argc: nat, size: nat, dest: nat, str: Str, i: nat)
    requires BlockOk(s0, dirs, kern, owner, d, to, argc, size) && BlockOk(s, dirs, kern, owner, d, to, argc, size) && AllSame(s0, s, dirs)
    requires i < argc && to + HEADER + 4 * (argc + 1) <= dest && dest + |str| + 1 <= to + size
    ensures var t := PutWord(ByteCopy(s, d, dest, str + [0]), GetPaddr(s0, d, to + HEADER) + 4 * i, dest);
            && BlockOk(t, dirs, kern, owner, d, to, argc, size) && AllSame(s0, t, dirs)
            && ReadWord(t, d, to + HEADER + 4 * i) == dest && HasString(t, d, dest, str)
            && (forall a, n :: to <= a && 0 <= n && a + n <= to + size && (a + n <= dest || dest + |str| + 1 <= a) && (a + n <= to + HEADER + 4 * i || to + HEADER + 4 * i + 4 <= a)
                  ==> SameBytes(s, t, d, a, n))
  {
    hide Owned, ByteCopy, ReadByte, UserRange, SameSpace, PutWord, GetPaddr, BlockOk, SameBytes, HasString, ReadWord;
    BlockBounds(s, dirs, kern, owner, d, to, argc, size);
    var t1 := ByteCopy(s, d, dest, str + [0]);
    var va := to + HEADER + 4 * i;
    BlockCopy(s, dirs, kern, owner, d, to, argc, size, dest, str + [0]);
    AllSameTrans(s0, s, t1, dirs);
    TableAddress(s0, t1, dirs, kern, owner, d, to, argc, size, i);
    BlockWord(t1, dirs, kern, owner, d, to, argc, size, va, dest);
    var t := ByteCopy(t1, d, va, WordToBytes(dest));
    AllSameTrans(s0, t1, t, dirs);
    StringCopied(s, dirs, kern, owner, d, to, argc, size, dest, str);
    CopyOutside(t1, dirs, kern, owner, d, to, argc, size, va, WordToBytes(dest), dest, |str| + 1);
    HasStringKept(t1, t, d, dest, str);
    forall a, n | to <= a && 0 <= n && a + n <= to + size && (a + n <= dest || dest + |str| + 1 <= a) && (a + n <= va || va + 4 <= a)
      ensures SameBytes(s, t, d, a, n)
    {
      CopyOutside(s, dirs, kern, owner, d, to, argc, size, dest, str + [0], a, n);
      CopyOutside(t1, dirs, kern, owner, d, to, argc, size, va, WordToBytes(dest), a, n);
      SameBytesTrans(s, t1, t, d, a, n);
    }
  }

  lemma BlockBounds(s: Vm, dirs: set<nat>, kern: set<nat>, owner: map<nat, Slot>, d: nat, to: nat, argc: nat, size: nat)
    requires BlockOk(s, dirs, kern, owner, d, to, argc, size)
    ensures to + size < WORD_END && to % PAGE_SIZE == 0 && HEADER + 4 * (argc + 1) <= size
    ensures Owned(s, dirs, kern, owner) && d in dirs
  {
  }

  /** A pointer store in the block. */
  lemma BlockWord(s: Vm, dirs: set<nat>, kern: set<nat>, owner: map<nat, Slot>, d: nat, to: nat, argc: nat, size: nat, va: nat, w: Word)
    requires BlockOk(s, dirs, kern, owner, d, to, argc, size) && to <= va && va + 4 <= to + size && va % 4 == 0
    ensures va + 4 <= WORD_END && PutWord(s, GetPaddr(s, d, va), w) == ByteCopy(s, d, va, WordToBytes(w))
    ensures var t := ByteCopy(s, d, va, WordToBytes(w));
            BlockOk(t, dirs, kern, owner, d, to, argc, size) && AllSame(s, t, dirs) && ReadWord(t, d, va) == w
  {
    hide Owned, ByteCopy, ReadByte, UserRange, SameSpace, PutWord, GetPaddr, ReadWord;
    SubRange(s, d, to, size, va, 4);
    PutWordIsCopy(s, dirs, kern, owner, d, va, w);
    ReadStoredWord(s, dirs, kern, owner, d, va, w);
    BlockCopy(s, dirs, kern, owner, d, to, argc, size, va, WordToBytes(w));
  }

  lemma HasStringKept(s: Vm, t: Vm, d: nat, va: nat, str: Str)
    requires HasString(s, d, va, str) && SameBytes(s, t, d, va, |str| + 1)
    ensures HasString(t, d, va, str)
  {
  }

  /** Bytes of the block that strings i and up and their pointers do not use. */
  ghost predicate Untouched(s: Vm, t: Vm, d: nat, to: nat, argc: nat, size: nat, dest: nat, i: nat) {
    SameBytes(s, t, d, to, HEADER + 4 * i)
    && SameBytes(s, t, d, to + HEADER + 4 * argc, 4)
    && (to + HEADER + 4 * (argc + 1) <= dest <= to + size ==> SameBytes(s, t, d, to + HEADER + 4 * (argc + 1), dest - (to + HEADER + 4 * (argc + 1))))
  }

  /** The loop of copy_args puts every remaining string and pointer in place and writes nothing before them. */
  lemma {:induction false} StringsStored(s0: Vm, s: Vm, dirs: set<nat>, kern: set<nat>, owner: map<nat, Slot>, d: nat, to: nat, argc: nat, size: nat,
                                         dest: nat, strs: seq<Str>, i: nat)
    requires BlockOk(s0, dirs, kern, owner, d, to, argc, size) && BlockOk(s, dirs, kern, owner, d, to, argc, size) && AllSame(s0, s, dirs)
    requires i + |strs| == argc && to + HEADER + 4 * (argc + 1) <= dest && dest + StringsSize(strs) <= to + size
    ensures var t := CopyStrings(s, d, GetPaddr(s0, d, to + HEADER), dest, strs, i);
            && BlockOk(t, dirs, kern, owner, d, to, argc, size) && AllSame(s0, t, dirs)
            && Stored(t, d, to + HEADER, dest, strs, i) && Untouched(s, t, d, to, argc, size, dest, i)
    decreases |strs|
  {
    hide Owned, ByteCopy, ReadByte, UserRange, SameSpace, PutWord, GetPaddr, BlockOk, ReadWord, SameBytes;
    BlockBounds(s0, dirs, kern, owner, d, to, argc, size);
    if |strs| == 0 {
      assert Untouched(s, s, d, to, argc, size, dest, i) by {
        NothingTouched(s, d, to, argc, size, dest, i);
      }
    } else {
      var str, table := strs[0], GetPaddr(s0, d, to + HEADER);
      OneString(s0, s, dirs, kern, owner, d, to, argc, size, dest, str, i);
      var t1 := PutWord(ByteCopy(s, d, dest, str + [0]), table + 4 * i, dest);
      var dest1 := dest + |str| + 1;
      StringsStored(s0, t1, dirs, kern, owner, d, to, argc, size, dest1, strs[1..], i + 1);
      var t := CopyStrings(t1, d, table, dest1, strs[1..], i + 1);
      FirstKept(t1, t, d, to, argc, size, dest, str, i);
      StillUntouched(s, t1, t, d, to, argc, size, dest, str, i);
    }
  }

  lemma NothingTouched(s: Vm, d: nat, to: nat, argc: nat, size: nat, dest: nat, i: nat)
    ensures Untouched(s, s, d, to, argc, size, dest, i)
  {
  }

  lemma FirstKept(t1: Vm, t: Vm, d: nat, to: nat, argc: nat, size: nat, dest: nat, str: Str, i: nat)
    requires i < argc && to + HEADER + 4 * (argc + 1) <= dest && dest + |str| + 1 <= to + size < WORD_END
    requires Untouched(t1, t, d, to, argc, size, dest + |str| + 1, i + 1)
    requires ReadWord(t1, d, to + HEADER + 4 * i) == dest && HasString(t1, d, dest, str)
    ensures ReadWord(t, d, to + HEADER + 4 * i) == dest && HasString(t, d, dest, str)
  {
    hide ReadByte;
  }

  lemma StillUntouched(s: Vm, t1: Vm, t: Vm, d: nat, to: nat, argc: nat, size: nat, dest: nat, str: Str, i: nat)
    requires i < argc && to + HEADER + 4 * (argc + 1) <= dest && dest + |str| + 1 <= to + size < WORD_END
    requires forall a, n :: to <= a && 0 <= n && a + n <= to + size && (a + n <= dest || dest + |str| + 1 <= a) && (a + n <= to + HEADER + 4 * i || to + HEADER + 4 * i + 4 <= a)
                  ==> SameBytes(s, t1, d, a, n)
    requires Untouched(t1, t, d, to, argc, size, dest + |str| + 1, i + 1)
    ensures Untouched(s, t, d, to, argc, size, dest, i)
  {
    hide ReadByte;
    var strings := to + HEADER + 4 * (argc + 1);
    assert SameBytes(s, t1, d, to, HEADER + 4 * i);
    assert SameBytes(s, t1, d, to + HEADER + 4 * argc, 4);
    assert SameBytes(s, t1, d, strings, dest - strings);
  }

  // ---------------------------------------------------------------- the theorem

  ghost predicate NoNul(str: Str) {
    forall k :: 0 <= k < |str| ==> str[k] != 0
  }

  lemma {:induction false} ReadsString(t: Vm, d: nat, va: nat, str: Str)
    requires HasString(t, d, va, str) && NoNul(str)
    ensures ReadString(t, d, va) == str
    decreases |str|
  {
    hide ReadByte;
    if |str| > 0 {
      ReadsString(t, d, va + 1, str[1..]);
    }
  }

  lemma {:induction false} ReadsStrings(t: Vm, d: nat, base: nat, dest: nat, strs: seq<Str>, i: nat)
    requires base + 4 * (i + |strs|) < WORD_END && Stored(t, d, base, dest, strs, i)
    requires forall k :: 0 <= k < |strs| ==> NoNul(strs[k])
    ensures ReadStrings(t, d, base + 4 * i, |strs|) == strs
    decreases |strs|
  {
    hide ReadByte, ReadWord, ReadString, HasString, NoNul;
    if |strs| > 0 {
      ReadsString(t, d, dest, strs[0]);
      ReadsStrings(t, d, base, dest + |strs[0]| + 1, strs[1..], i + 1);
    }
  }

  /** Address of string k when the strings are laid out from `dest` on. */
  function StringAt(dest: nat, strs: seq<Str>, k: nat): (a: nat)
    requires k <= |strs|
    ensures dest + k <= a <= dest + StringsSize(strs)
    decreases k
  {
    if k == 0 then dest else StringAt(dest + |strs[0]| + 1, strs[1..], k - 1)
  }

  lemma {:induction false} ReadsPointers(t: Vm, d: nat, base: nat, dest: nat, strs: seq<Str>, i: nat, k: nat)
    requires base + 4 * (i + |strs|) < WORD_END && Stored(t, d, base, dest, strs, i) && k < |strs|
    ensures ReadWord(t, d, base + 4 * (i + k)) == StringAt(dest, strs, k)
    decreases k
  {
    hide ReadByte, ReadWord, HasString;
    if k > 0 {
      ReadsPointers(t, d, base, dest + |strs[0]| + 1, strs[1..], i + 1, k - 1);
    }
  }

  /** What the new program finds at `to`: every pointer leads to its string. */
  ghost predicate Delivered(t: Vm, d: nat, to: nat, strs: seq<Str>)
    requires to + BlockSize(strs) < WORD_END
  {
    && ReadWord(t, d, to + 4) == |strs| && ReadWord(t, d, to + 8) == to + HEADER
    && (forall i :: 0 <= i < |strs| ==> ReadWord(t, d, to + HEADER + 4 * i) == StringAt(to + HEADER + 4 * (|strs| + 1), strs, i))
    && ReadStrings(t, d, to + HEADER, |strs|) == strs
    && (|strs| > 0 ==> ReadWord(t, d, to + HEADER + 4 * |strs|) == 0)
  }

  /** The twelve header bytes hold their three words. */
  lemma HeaderWords(s: Vm, dirs: set<nat>, kern: set<nat>, owner: map<nat, Slot>, d: nat, to: nat, argc: nat, size: nat, a: Word, b: Word, c: Word)
    requires BlockOk(s, dirs, kern, owner, d, to, argc, size)
    ensures to + 12 <= WORD_END
    ensures var t := ByteCopy(s, d, to, WordToBytes(a) + WordToBytes(b) + WordToBytes(c));
            ReadWord(t, d, to + 4) == b && ReadWord(t, d, to + 8) == c
  {
    hide Owned, ByteCopy, ReadByte, UserRange, Entry, ByteAt, WordOf;
    var src := WordToBytes(a) + WordToBytes(b) + WordToBytes(c);
    SubRange(s, d, to, size, to, 12);
    var t := ByteCopy(s, d, to, src);
    forall x | to <= x < to + 12
      ensures ReadByte(t, d, x) == src[x - to]
    {
      UserByte(s, d, to, size, x);
      ByteCopyReads(s, dirs, kern, owner, d, to, src, x);
    }
    BytesWord(b);
    BytesWord(c);
  }

  /**
   * copy_args, when the block is mapped and its pointer table lies in consecutive frames: the
   * new program reads back argc, argv, exactly the original strings and, for argc > 0, the
   * terminating null pointer.
   */
  lemma CopyArgsDelivers(s: Vm, dirs: set<nat>, kern: set<nat>, owner: map<nat, Slot>, d: nat, to: nat, strs: seq<Str>, ret: Word)
    requires BlockOk(s, dirs, kern, owner, d, to, |strs|, BlockSize(strs))
    requires forall k :: 0 <= k < |strs| ==> NoNul(strs[k])
    ensures var t := CopyArgs(s, to, d, strs, ret);
            Delivered(t, d, to, strs) && Owned(t, dirs, kern, owner) && AllSame(s, t, dirs)
  {
    hide Owned, ByteCopy, AllSame, PutWord, GetPaddr, BlockOk, ReadWord, Stored, NoNul, CopyStrings, WordToBytes, Untouched, Delivered, StringsSize;
    var argc, size := |strs|, BlockSize(strs);
    var dest := to + HEADER + 4 * (argc + 1);
    BlockBounds(s, dirs, kern, owner, d, to, argc, size);
    SameStart(s, dirs);
    StringsStored(s, s, dirs, kern, owner, d, to, argc, size, dest, strs, 0);
    var table := GetPaddr(s, d, to + HEADER);
    var t := CopyStrings(s, d, table, dest, strs, 0);
    var u := if argc != 0 then PutWord(t, table + 4 * argc, 0) else t;
    if argc != 0 {
      NullStored(s, t, dirs, kern, owner, d, to, strs);
    }
    HeaderLast(s, u, dirs, kern, owner, d, to, strs, ret);
  }

  /** The terminating null pointer leaves the strings and their pointers alone. */
  lemma NullStored(s: Vm, t: Vm, dirs: set<nat>, kern: set<nat>, owner: map<nat, Slot>, d: nat, to: nat, strs: seq<Str>)
    requires BlockOk(s, dirs, kern, owner, d, to, |strs|, BlockSize(strs)) && BlockOk(t, dirs, kern, owner, d, to, |strs|, BlockSize(strs)) && AllSame(s, t, dirs)
    requires to + BlockSize(strs) < WORD_END && Stored(t, d, to + HEADER, to + HEADER + 4 * (|strs| + 1), strs, 0)
    ensures var u := PutWord(t, GetPaddr(s, d, to + HEADER) + 4 * |strs|, 0);
            && BlockOk(u, dirs, kern, owner, d, to, |strs|, BlockSize(strs)) && AllSame(s, u, dirs)
            && Stored(u, d, to + HEADER, to + HEADER + 4 * (|strs| + 1), strs, 0) && ReadWord(u, d, to + HEADER + 4 * |strs|) == 0
  {
    hide Owned, ByteCopy, AllSame, PutWord, GetPaddr, BlockOk, ReadWord, SameBytes, Stored, WordToBytes, StringsSize;
    var argc, size := |strs|, BlockSize(strs);
    var base, dest := to + HEADER, to + HEADER + 4 * (argc + 1);
    var nul := base + 4 * argc;
    BlockBounds(t, dirs, kern, owner, d, to, argc, size);
    PointerAligned(to, argc);
    TableAddress(s, t, dirs, kern, owner, d, to, argc, size, argc);
    BlockWord(t, dirs, kern, owner, d, to, argc, size, nul, 0);
    var u := ByteCopy(t, d, nul, WordToBytes(0));
    AllSameTrans(s, t, u, dirs);
    CopyOutside(t, dirs, kern, owner, d, to, argc, size, nul, WordToBytes(0), base, 4 * argc);
    CopyOutside(t, dirs, kern, owner, d, to, argc, size, nul, WordToBytes(0), dest, StringsSize(strs));
    StoredKept(t, u, d, base, dest, strs, 0);
  }

  lemma SameStart(s: Vm, dirs: set<nat>)
    ensures AllSame(s, s, dirs)
  {
  }

  /** The header is written last, below everything else. */
  lemma HeaderLast(s: Vm, u: Vm, dirs: set<nat>, kern: set<nat>, owner: map<nat, Slot>, d: nat, to: nat, strs: seq<Str>, ret: Word)
    requires BlockOk(u, dirs, kern, owner, d, to, |strs|, BlockSize(strs)) && AllSame(s, u, dirs) && to + BlockSize(strs) < WORD_END
    requires Stored(u, d, to + HEADER, to + HEADER + 4 * (|strs| + 1), strs, 0)
    requires |strs| > 0 ==> ReadWord(u, d, to + HEADER + 4 * |strs|) == 0
    requires forall k :: 0 <= k < |strs| ==> NoNul(strs[k])
    ensures var t := ByteCopy(u, d, to, WordToBytes(ret) + WordToBytes(|strs|) + WordToBytes(to + HEADER));
            Delivered(t, d, to, strs) && Owned(t, dirs, kern, owner) && AllSame(s, t, dirs)
  {
    hide Owned, ByteCopy, ReadByte, UserRange, SameSpace, BlockOk, SameBytes, Stored, NoNul, ReadStrings, WordToBytes, ReadWord;
    var argc, size := |strs|, BlockSize(strs);
    var base, dest := to + HEADER, to + HEADER + 4 * (argc + 1);
    var head := WordToBytes(ret) + WordToBytes(argc) + WordToBytes(base);
    var t := ByteCopy(u, d, to, head);
    BlockCopy(u, dirs, kern, owner, d, to, argc, size, to, head);
    AllSameTrans(s, u, t, dirs);
    HeaderWords(u, dirs, kern, owner, d, to, argc, size, ret, argc, base);
    CopyOutside(u, dirs, kern, owner, d, to, argc, size, to, head, base, 4 * argc);
    CopyOutside(u, dirs, kern, owner, d, to, argc, size, to, head, base + 4 * argc, 4);
    CopyOutside(u, dirs, kern, owner, d, to, argc, size, to, head, dest, StringsSize(strs));
    StoredKept(u, t, d, base, dest, strs, 0);
    SameWord(u, t, d, base + 4 * argc);
    ReadsStrings(t, d, base, dest, strs, 0);
    forall i | 0 <= i < |strs|
      ensures ReadWord(t, d, to + HEADER + 4 * i) == StringAt(dest, strs, i)
    {
      ReadsPointers(t, d, base, dest, strs, 0, i);
    }
    BlockBounds(t, dirs, kern, owner, d, to, argc, size);
  }

  lemma SameWord(s: Vm, t: Vm, d: nat, va: nat)
    requires va + 3 < WORD_END && SameBytes(s, t, d, va, 4)
    ensures ReadWord(t, d, va) == ReadWord(s, d, va)
  {
  }
}
