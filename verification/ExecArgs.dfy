/**
 * When a program gets the arguments that sys_execve was given (src/kernel/task.c:544-568).
 * copy_args translates the pointer table's first address once and then indexes physical
 * memory, so all pointers arrive if and only if the table's pages lie in consecutive
 * frames.
 */
module ExecArgs {
  import opened Paging
  import opened Mem
  import opened Ownership
  import opened Bytes
  import opened DataCopy
  import opened Args
  import opened ArgSources
  import opened Leaks

  // ---------------------------------------------------------------- consecutive frames

  /** What slot i of the table should hold: the address of string i, and a null pointer in the end. */
  function Required(to: nat, strs: seq<Str>, i: nat): nat
    requires i <= |strs|
  {
    if i < |strs| then StringAt(to + HEADER + 4 * (|strs| + 1), strs, i) else 0
  }

  /** Slot i lies in a frame as far from the first page's as the pages are apart. */
  ghost predicate InPlace(s: Vm, d: nat, to: nat, i: nat) {
    var n := to / PAGE_SIZE + (HEADER + 4 * i) / PAGE_SIZE;
    n < VPAGES && LeafOf(s, d, n) == LeafOf(s, d, to / PAGE_SIZE) + (HEADER + 4 * i) / PAGE_SIZE
  }

  /** With consecutive frames the program gets its arguments, whatever the block held before. */
  lemma ExecDelivers(s: Vm, dirs: set<nat>, kern: set<nat>, owner: map<nat, Slot>, d: nat, to: nat, active: nat, argv: seq<Word>, strs: seq<Str>, head: Word, ret: Word)
    requires Ready(s, dirs, kern, owner, d, to, active, argv, strs, head, ret) && Consecutive(s, d, to, |strs|)
    ensures to + BlockSize(strs) < WORD_END
    ensures var r := CopyArgsFrom(s, to, d, active, argv, head);
            r.ok && Delivered(r.vm, d, to, strs) && Owned(r.vm, dirs, kern, owner) && AllSame(s, r.vm, dirs)
  {
    hide Owned, UserRange, Holding, CopyArgsFrom, CopyArgs, Delivered, Hit, Consecutive, NoNul;
    CopyArgsRefines(s, dirs, kern, owner, d, to, active, argv, strs, head, ret);
    CopyArgsDelivers(s, dirs, kern, owner, d, to, strs, ret);
  }

  /** In that case the frames hit are the block's own, so other user memory is apart from them. */
  lemma ConsecutiveHits(s: Vm, dirs: set<nat>, kern: set<nat>, owner: map<nat, Slot>, d: nat, to: nat, argc: nat, size: nat, f: nat)
    requires BlockOk(s, dirs, kern, owner, d, to, argc, size) && Hit(s, d, to, argc, f)
    ensures Plain(s, kern, owner, f) && exists x :: to <= x < to + size && x < WORD_END && LeafOf(s, d, x / PAGE_SIZE) == f
  {
    hide Owned, UserRange, LeafOf;
    var q := f - LeafOf(s, d, to / PAGE_SIZE);
    var x := to + q * PAGE_SIZE;
    assert q * PAGE_SIZE <= HEADER + 4 * argc < size;
    assert x / PAGE_SIZE == to / PAGE_SIZE + q;
    UserByte(s, d, to, size, x);
    LeafOwner(s, dirs, kern, owner, d, x / PAGE_SIZE);
    assert LeafOf(s, d, x / PAGE_SIZE) == f;
  }

  /**
   * sys_execve's use of copy_args: the arguments are user memory of the old program, and the
   * block's table lies in consecutive frames of the new directory. The copy succeeds and the
   * new program reads back argc, argv, exactly the original strings and, for argc > 0, the
   * terminating null pointer; no space's flat map changes.
   */
  lemma ExecDeliversArgs(s: Vm, dirs: set<nat>, kern: set<nat>, owner: map<nat, Slot>, d: nat, to: nat, active: nat, argv: seq<Word>, strs: seq<Str>, head: Word, ret: Word)
    requires BlockOk(s, dirs, kern, owner, d, to, |strs|, BlockSize(strs)) && active in dirs && active != d
    requires UserArguments(s, active, argv, strs)
    requires to + HEADER < WORD_END && |strs| < WORD_END && head + HEADER <= WORD_END
    requires Apart(s, d, to, BlockSize(strs), active, head, HEADER) && Source(s, active, head, HEADER) == Header(to, |strs|, ret)
    ensures to + BlockSize(strs) < WORD_END
    ensures var r := CopyArgsFrom(s, to, d, active, argv, head);
            r.ok && Delivered(r.vm, d, to, strs) && Owned(r.vm, dirs, kern, owner) && AllSame(s, r.vm, dirs)
  {
    hide Owned, UserArguments, SameSpace, Apart, Source, CopyArgsFrom, Delivered, Header, Holding, BlockOk, Block, Consecutive, Sources;
    var argc, size := |strs|, BlockSize(strs);
    BlockBounds(s, dirs, kern, owner, d, to, argc, size);
    OkIsBlock(s, dirs, kern, owner, d, to, argc, size);
    UserSources(s, dirs, kern, owner, d, to, argc, size, active, argv, strs);
    ApartHolds(s, dirs, kern, owner, d, to, argc, size, active, head, Header(to, argc, ret));
    ExecDelivers(s, dirs, kern, owner, d, to, active, argv, strs, head, ret);
  }

  /** The arguments are NUL-terminated strings in user memory of the running program. */
  ghost predicate UserArguments(s: Vm, active: nat, argv: seq<Word>, strs: seq<Str>) {
    |argv| == |strs| && forall k :: 0 <= k < |argv| ==>
      && 0 < argv[k] && argv[k] + |strs[k]| + 1 <= WORD_END && UserRange(s, active, argv[k], |strs[k]| + 1)
      && Source(s, active, argv[k], |strs[k]| + 1) == strs[k] + [0] && NoNul(strs[k])
  }

  lemma UserSources(s: Vm, dirs: set<nat>, kern: set<nat>, owner: map<nat, Slot>, d: nat, to: nat, argc: nat, size: nat, active: nat, argv: seq<Word>, strs: seq<Str>)
    requires BlockOk(s, dirs, kern, owner, d, to, argc, size) && active in dirs && active != d && UserArguments(s, active, argv, strs)
    ensures Sources(s, d, to, argc, size, active, argv, strs)
  {
    hide Owned, UserRange, Apart, Source, NoNul, Holding, BlockOk;
    BlockBounds(s, dirs, kern, owner, d, to, argc, size);
    OkRange(s, dirs, kern, owner, d, to, argc, size);
    forall k | 0 <= k < |argv|
      ensures Holding(s, d, to, argc, size, active, argv[k], strs[k] + [0])
    {
      OtherSpaceApart(s, dirs, kern, owner, d, to, size, active, argv[k], |strs[k]| + 1);
      ApartHolds(s, dirs, kern, owner, d, to, argc, size, active, argv[k], strs[k] + [0]);
    }
  }

  lemma OkRange(s: Vm, dirs: set<nat>, kern: set<nat>, owner: map<nat, Slot>, d: nat, to: nat, argc: nat, size: nat)
    requires BlockOk(s, dirs, kern, owner, d, to, argc, size)
    ensures UserRange(s, d, to, size) && Consecutive(s, d, to, argc)
  {
  }

  lemma OkIsBlock(s: Vm, dirs: set<nat>, kern: set<nat>, owner: map<nat, Slot>, d: nat, to: nat, argc: nat, size: nat)
    requires BlockOk(s, dirs, kern, owner, d, to, argc, size)
    ensures Block(s, dirs, kern, owner, d, to, argc, size) && Consecutive(s, d, to, argc)
  {
    hide Owned, UserRange, Hit, Consecutive;
    forall f: nat | Hit(s, d, to, argc, f)
      ensures Plain(s, kern, owner, f)
    {
      ConsecutiveHits(s, dirs, kern, owner, d, to, argc, size, f);
    }
  }

  lemma ApartHolds(s: Vm, dirs: set<nat>, kern: set<nat>, owner: map<nat, Slot>, d: nat, to: nat, argc: nat, size: nat, active: nat, from: nat, src: seq<Byte>)
    requires BlockOk(s, dirs, kern, owner, d, to, argc, size) && Apart(s, d, to, size, active, from, |src|)
    requires from + |src| <= WORD_END && Source(s, active, from, |src|) == src
    ensures Holding(s, d, to, argc, size, active, from, src)
  {
    hide BlockOk, Source, Hit, LeafOf;
    forall y | from <= y < from + |src|
      ensures !Hit(s, d, to, argc, LeafOf(s, active, y / PAGE_SIZE))
    {
      var f := LeafOf(s, active, y / PAGE_SIZE);
      assert NotDest(s, d, to, size, f);
      if Hit(s, d, to, argc, f) {
        ConsecutiveHits(s, dirs, kern, owner, d, to, argc, size, f);
      }
    }
  }

  // ---------------------------------------------------------------- a slot out of place

  /** Byte k of an aligned word. */
  lemma ByteOfWord(s: Vm, d: nat, va: nat, k: nat)
    requires va % 4 == 0 && va + 4 < WORD_END && k < 4
    ensures ReadByte(s, d, va + k) == ByteAt(Frame(s, LeafOf(s, d, va / PAGE_SIZE))[va % PAGE_SIZE / 4], k)
  {
    hide LeafOf, ByteAt, Frame;
    WordInPage(va / 4);
    ModUnique(va + k, PAGE_SIZE, va / PAGE_SIZE, va % PAGE_SIZE + k);
    ModUnique(va % PAGE_SIZE + k, 4, va % PAGE_SIZE / 4, k);
  }

  /** An aligned word as the program reads it is a word of the page's frame. */
  lemma ReadWordIsWord(s: Vm, d: nat, va: nat)
    requires va % 4 == 0 && va + 4 < WORD_END
    ensures ReadWord(s, d, va) == Frame(s, LeafOf(s, d, va / PAGE_SIZE))[va % PAGE_SIZE / 4]
  {
    hide LeafOf, ByteAt, WordOf, Frame, ReadByte;
    ByteOfWord(s, d, va, 0);
    ByteOfWord(s, d, va, 1);
    ByteOfWord(s, d, va, 2);
    ByteOfWord(s, d, va, 3);
    BytesWord(Frame(s, LeafOf(s, d, va / PAGE_SIZE))[va % PAGE_SIZE / 4]);
  }

  lemma SlotBounds(s: Vm, dirs: set<nat>, kern: set<nat>, owner: map<nat, Slot>, d: nat, to: nat, argc: nat, size: nat, j: nat)
    requires Block(s, dirs, kern, owner, d, to, argc, size) && j <= argc
    ensures var va := to + HEADER + 4 * j;
            && va + 4 < WORD_END && va + 4 <= to + size && va % 4 == 0
            && va / PAGE_SIZE == to / PAGE_SIZE + (HEADER + 4 * j) / PAGE_SIZE && va % PAGE_SIZE == (HEADER + 4 * j) % PAGE_SIZE
  {
    hide Owned, UserRange, Hit;
    SlotWord(to, j);
  }

  /** Storing pointer i either leaves slot j as it is or puts pointer i there; and a slot out of place is not hit by its own. */
  lemma StoreEither(s0: Vm, s: Vm, dirs: set<nat>, kern: set<nat>, owner: map<nat, Slot>, d: nat, to: nat, argc: nat, size: nat, i: nat, w: Word, j: nat)
    requires Block(s0, dirs, kern, owner, d, to, argc, size) && Block(s, dirs, kern, owner, d, to, argc, size) && AllSame(s0, s, dirs)
    requires i <= argc && j <= argc && !InPlace(s, d, to, j)
    ensures to + HEADER < WORD_END && to + HEADER + 4 * j + 4 < WORD_END
    ensures var t, va := PutWord(s, GetPaddr(s0, d, to + HEADER) + 4 * i, w), to + HEADER + 4 * j;
            && Block(t, dirs, kern, owner, d, to, argc, size) && AllSame(s, t, dirs) && !InPlace(t, d, to, j)
            && (ReadWord(t, d, va) == ReadWord(s, d, va) || (i != j && ReadWord(t, d, va) == w))
  {
    hide Owned, Block, UserRange, SameSpace, GetPaddr, LeafOf, ReadWord, Hit;
    Bounds(s, dirs, kern, owner, d, to, argc, size);
    var p, va := GetPaddr(s0, d, to + HEADER) + 4 * i, to + HEADER + 4 * j;
    var t := PutWord(s, p, w);
    StoreKeeps(s0, s, dirs, kern, owner, d, to, argc, size, i, w);
    StorePlace(s0, s, dirs, kern, owner, d, to, argc, size, i);
    SlotBounds(s, dirs, kern, owner, d, to, argc, size, j);
    ReadWordIsWord(s, d, va);
    ReadWordIsWord(t, d, va);
    SameLeaf(s, t, d, va / PAGE_SIZE);
    SameLeaf(s, t, d, to / PAGE_SIZE);
  }

  /** A copy into the block that does not meet the slot leaves it. */
  lemma CopyMisses(s: Vm, dirs: set<nat>, kern: set<nat>, owner: map<nat, Slot>, d: nat, to: nat, argc: nat, size: nat, va: nat, bytes: seq<Byte>, j: nat)
    requires Block(s, dirs, kern, owner, d, to, argc, size) && to <= va && va + |bytes| <= to + size && j <= argc && !InPlace(s, d, to, j)
    requires va + |bytes| <= to + HEADER + 4 * j || to + HEADER + 4 * j + 4 <= va
    ensures va + |bytes| < WORD_END && to + HEADER + 4 * j + 4 < WORD_END
    ensures var t, slot := ByteCopy(s, d, va, bytes), to + HEADER + 4 * j;
            && Block(t, dirs, kern, owner, d, to, argc, size) && AllSame(s, t, dirs) && !InPlace(t, d, to, j)
            && ReadWord(t, d, slot) == ReadWord(s, d, slot)
  {
    hide Owned, Block, ByteCopy, UserRange, SameSpace, LeafOf, ReadByte, Entry;
    var slot := to + HEADER + 4 * j;
    Bounds(s, dirs, kern, owner, d, to, argc, size);
    SlotBounds(s, dirs, kern, owner, d, to, argc, size, j);
    CopyKeeps(s, dirs, kern, owner, d, to, argc, size, va, bytes);
    SubRange(s, d, to, size, va, |bytes|);
    var t := ByteCopy(s, d, va, bytes);
    forall x | slot <= x < slot + 4
      ensures ReadByte(t, d, x) == ReadByte(s, d, x)
    {
      UserByte(s, d, to, size, x);
      ByteCopyReads(s, dirs, kern, owner, d, va, bytes, x);
    }
    SameLeaf(s, t, d, slot / PAGE_SIZE);
    SameLeaf(s, t, d, to / PAGE_SIZE);
  }

  /** `wanted` is what slot j should hold, seen from string i on. */
  ghost predicate Wanted(dest: nat, strs: seq<Str>, i: nat, argc: nat, j: nat, wanted: nat) {
    && i + |strs| == argc && j <= argc
    && (j < i ==> wanted < dest) && (i <= j < argc ==> wanted == StringAt(dest, strs, j - i)) && (j == argc ==> wanted == 0)
  }

  lemma WantedStep(dest: nat, strs: seq<Str>, i: nat, argc: nat, j: nat, wanted: nat)
    requires Wanted(dest, strs, i, argc, j, wanted) && |strs| > 0 && dest > 0
    ensures Wanted(dest + |strs[0]| + 1, strs[1..], i + 1, argc, j, wanted) && (i != j ==> dest != wanted)
  {
  }

  /** The loop never gets the right pointer into a slot out of place. */
  lemma {:induction false} LoopMisses(s0: Vm, s: Vm, dirs: set<nat>, kern: set<nat>, owner: map<nat, Slot>, d: nat, to: nat, argc: nat, size: nat,
                                      dest: nat, strs: seq<Str>, i: nat, j: nat, wanted: nat)
    requires Block(s0, dirs, kern, owner, d, to, argc, size) && Block(s, dirs, kern, owner, d, to, argc, size) && AllSame(s0, s, dirs)
    requires Wanted(dest, strs, i, argc, j, wanted) && to + HEADER + 4 * (argc + 1) <= dest && dest + StringsSize(strs) <= to + size < WORD_END
    requires to + HEADER + 4 * j + 4 < WORD_END && !InPlace(s, d, to, j) && ReadWord(s, d, to + HEADER + 4 * j) != wanted
    ensures var t := CopyStrings(s, d, GetPaddr(s0, d, to + HEADER), dest, strs, i);
            && Block(t, dirs, kern, owner, d, to, argc, size) && AllSame(s0, t, dirs) && !InPlace(t, d, to, j)
            && ReadWord(t, d, to + HEADER + 4 * j) != wanted
    decreases |strs|
  {
    hide Block, AllSame, ByteCopy, PutWord, GetPaddr, ReadWord, InPlace, Wanted;
    if |strs| > 0 {
      var str := strs[0];
      WantedStep(dest, strs, i, argc, j, wanted);
      WantedIndex(dest, strs, i, argc, j, wanted);
      CopyMisses(s, dirs, kern, owner, d, to, argc, size, dest, str + [0], j);
      var u := ByteCopy(s, d, dest, str + [0]);
      AllSameTrans(s0, s, u, dirs);
      StoreEither(s0, u, dirs, kern, owner, d, to, argc, size, i, dest, j);
      var t := PutWord(u, GetPaddr(s0, d, to + HEADER) + 4 * i, dest);
      AllSameTrans(s0, u, t, dirs);
      LoopMisses(s0, t, dirs, kern, owner, d, to, argc, size, dest + |str| + 1, strs[1..], i + 1, j, wanted);
    }
  }

  lemma WantedIndex(dest: nat, strs: seq<Str>, i: nat, argc: nat, j: nat, wanted: nat)
    requires Wanted(dest, strs, i, argc, j, wanted)
    ensures i + |strs| == argc && j <= argc
  {
  }

  /** After the whole call a slot out of place that was wrong before is still wrong. */
  lemma SlotStaysWrong(s: Vm, dirs: set<nat>, kern: set<nat>, owner: map<nat, Slot>, d: nat, to: nat, active: nat, argv: seq<Word>, strs: seq<Str>, head: Word, ret: Word, j: nat)
    requires Ready(s, dirs, kern, owner, d, to, active, argv, strs, head, ret) && 0 < |strs| && j <= |strs| && !InPlace(s, d, to, j)
    requires to + HEADER + 4 * j + 4 < WORD_END && ReadWord(s, d, to + HEADER + 4 * j) != Required(to, strs, j)
    ensures ReadWord(CopyArgsFrom(s, to, d, active, argv, head).vm, d, to + HEADER + 4 * j) != Required(to, strs, j)
  {
    hide Block, AllSame, ByteCopy, PutWord, GetPaddr, ReadWord, InPlace, Holding, Sources, CopyStrings, CopyArgsFrom, StringAt;
    CopyArgsRefines(s, dirs, kern, owner, d, to, active, argv, strs, head, ret);
    var argc, size, wanted := |strs|, BlockSize(strs), Required(to, strs, j);
    var dest, table := to + HEADER + 4 * (argc + 1), GetPaddr(s, d, to + HEADER);
    SameStart(s, dirs);
    LoopMisses(s, s, dirs, kern, owner, d, to, argc, size, dest, strs, 0, j, wanted);
    var t := CopyStrings(s, d, table, dest, strs, 0);
    StoreEither(s, t, dirs, kern, owner, d, to, argc, size, argc, 0, j);
    var u := PutWord(t, table + 4 * argc, 0);
    CopyMisses(u, dirs, kern, owner, d, to, argc, size, to, Header(to, argc, ret), j);
  }

  /** A table whose frames are not consecutive has a slot out of place. */
  lemma OutOfPlace(s: Vm, dirs: set<nat>, kern: set<nat>, owner: map<nat, Slot>, d: nat, to: nat, argc: nat, size: nat) returns (j: nat)
    requires Block(s, dirs, kern, owner, d, to, argc, size) && !Consecutive(s, d, to, argc)
    ensures 0 < j <= argc && !InPlace(s, d, to, j)
  {
    hide Owned, UserRange, LeafOf, Hit;
    var v := to / PAGE_SIZE;
    var n :| v <= n <= v + (HEADER + 4 * argc) / PAGE_SIZE && n < VPAGES && LeafOf(s, d, n) != LeafOf(s, d, v) + (n - v);
    var q := n - v;
    assert q >= 1;
    j := q * 1024 - 3;
    assert HEADER + 4 * j == q * PAGE_SIZE;
  }

  /**
   * copy_args as coded succeeds, and the program finds all of its arguments if and only if
   * the pages of the pointer table lie in consecutive frames: for every argument list, when
   * the slots out of place do not happen to hold the right word already.
   */
  lemma ExecDeliversIff(s: Vm, dirs: set<nat>, kern: set<nat>, owner: map<nat, Slot>, d: nat, to: nat, active: nat, argv: seq<Word>, strs: seq<Str>, head: Word, ret: Word)
    requires Ready(s, dirs, kern, owner, d, to, active, argv, strs, head, ret)
    requires forall i :: 0 <= i <= |strs| && to + HEADER + 4 * i + 4 < WORD_END && !InPlace(s, d, to, i) ==> ReadWord(s, d, to + HEADER + 4 * i) != Required(to, strs, i)
    ensures to + BlockSize(strs) < WORD_END
    ensures var r := CopyArgsFrom(s, to, d, active, argv, head);
            r.ok && (Delivered(r.vm, d, to, strs) <==> Consecutive(s, d, to, |strs|))
  {
    hide Block, Holding, Sources, CopyArgsFrom, CopyArgs, ReadWord, InPlace, Consecutive, ReadStrings, StringAt;
    CopyArgsRefines(s, dirs, kern, owner, d, to, active, argv, strs, head, ret);
    if Consecutive(s, d, to, |strs|) {
      ExecDelivers(s, dirs, kern, owner, d, to, active, argv, strs, head, ret);
    } else {
      var j := OutOfPlace(s, dirs, kern, owner, d, to, |strs|, BlockSize(strs));
      SlotBounds(s, dirs, kern, owner, d, to, |strs|, BlockSize(strs), j);
      SlotStaysWrong(s, dirs, kern, owner, d, to, active, argv, strs, head, ret, j);
    }
  }

  // ---------------------------------------------------------------- a call that goes wrong

  const NEW := FIRST
  const OLD := FIRST + 5
  const BASE := USER_PAGE * PAGE_SIZE
  const COUNT := 1022

  /** The new program's table: its two pages are in frames that are not adjacent. */
  function NewTable(): Page {
    ZeroPage()[0 := (FIRST + 2) * PAGE_SIZE + 7][1 := (FIRST + 4) * PAGE_SIZE + 7]
  }

  function OldDir(): Page {
    ZeroPage()[USER_PDE := (FIRST + 6) * PAGE_SIZE + 7]
  }

  function OldTable(): Page {
    ZeroPage()[0 := (FIRST + 7) * PAGE_SIZE + 7]
  }

  /** The running program's page: empty strings, and the words of task_args from byte 16 on. */
  function OldPage(): Page {
    ZeroPage()[5 := COUNT][6 := BASE + HEADER]
  }

  /**
   * Eight managed frames. The new program's directory, table and two pages are frames 0, 1,
   * 2 and 4, the running program's directory, table and page frames 5, 6 and 7; frame 3 is
   * free.
   */
  function ExecMachine(): Vm {
    Vm(seq(FIRST, _ => ZeroPage()) + [SourceDir(), NewTable(), ZeroPage(), ZeroPage(), ZeroPage(), OldDir(), OldTable(), OldPage()],
       [true, true, true, false, true, true, true, true], 0)
  }

  const EXEC_OWNER: map<nat, Slot> :=
    map[NEW := DirSlot(NEW), FIRST + 1 := TableSlot(NEW, USER_PDE), FIRST + 2 := LeafSlot(NEW, USER_PAGE), FIRST + 4 := LeafSlot(NEW, USER_PAGE + 1),
        OLD := DirSlot(OLD), FIRST + 6 := TableSlot(OLD, USER_PDE), FIRST + 7 := LeafSlot(OLD, USER_PAGE)]

  lemma ExecFrames()
    ensures var s := ExecMachine();
            && Frame(s, NEW) == SourceDir() && Frame(s, FIRST + 1) == NewTable() && Frame(s, FIRST + 4) == ZeroPage() && Frame(s, 0) == ZeroPage()
            && Frame(s, OLD) == OldDir() && Frame(s, FIRST + 6) == OldTable() && Frame(s, FIRST + 7) == OldPage() && s.kdir == 0
  {
  }

  lemma NewMap(n: nat)
    requires n < VPAGES
    ensures Entry(ExecMachine(), NEW, n) ==
              if n == USER_PAGE then (FIRST + 2) * PAGE_SIZE + 7 else if n == USER_PAGE + 1 then (FIRST + 4) * PAGE_SIZE + 7 else 0
  {
    hide ExecMachine;
    ExecFrames();
  }

  lemma OldMap(n: nat)
    requires n < VPAGES
    ensures Entry(ExecMachine(), OLD, n) == if n == USER_PAGE then (FIRST + 7) * PAGE_SIZE + 7 else 0
  {
    hide ExecMachine;
    ExecFrames();
  }

  lemma NewSpaceOwned()
    ensures SpaceOwned(ExecMachine(), NEW, EXEC_OWNER)
    ensures Holds(ExecMachine(), {NEW, OLD}, TableSlot(NEW, USER_PDE), FIRST + 1) && Holds(ExecMachine(), {NEW, OLD}, LeafSlot(NEW, USER_PAGE), FIRST + 2)
    ensures Holds(ExecMachine(), {NEW, OLD}, LeafSlot(NEW, USER_PAGE + 1), FIRST + 4)
  {
    hide Entry, ExecMachine;
    var s := ExecMachine();
    ExecFrames();
    forall n | 0 <= n < VPAGES
      ensures Entry(s, NEW, n) == if n == USER_PAGE then (FIRST + 2) * PAGE_SIZE + 7 else if n == USER_PAGE + 1 then (FIRST + 4) * PAGE_SIZE + 7 else 0
    {
      NewMap(n);
    }
  }

  lemma OldSpaceOwned()
    ensures SpaceOwned(ExecMachine(), OLD, EXEC_OWNER)
    ensures Holds(ExecMachine(), {NEW, OLD}, TableSlot(OLD, USER_PDE), FIRST + 6) && Holds(ExecMachine(), {NEW, OLD}, LeafSlot(OLD, USER_PAGE), FIRST + 7)
  {
    hide Entry, ExecMachine;
    var s := ExecMachine();
    ExecFrames();
    forall n | 0 <= n < VPAGES
      ensures Entry(s, OLD, n) == if n == USER_PAGE then (FIRST + 7) * PAGE_SIZE + 7 else 0
    {
      OldMap(n);
    }
  }

  lemma ExecMarks()
    ensures WfVm(ExecMachine()) && KernelOwned(ExecMachine(), {}) && forall f :: f in EXEC_OWNER ==> Used(ExecMachine(), f)
  {
    ExecFrames();
  }

  lemma ExecOwned()
    ensures Owned(ExecMachine(), {NEW, OLD}, {}, EXEC_OWNER)
  {
    hide SpaceOwned, KernelOwned, ExecMachine, Used, WfVm;
    ExecMarks();
    NewSpaceOwned();
    OldSpaceOwned();
  }

  /** COUNT empty strings. */
  function Empties(n: nat): (r: seq<Str>)
    ensures |r| == n && forall k :: 0 <= k < n ==> r[k] == []
  {
    seq(n, _ => [])
  }

  lemma {:induction false} EmptiesSize(n: nat)
    ensures StringsSize(Empties(n)) == n
    decreases n
  {
    if n > 0 {
      assert Empties(n)[1..] == Empties(n - 1);
      EmptiesSize(n - 1);
    }
  }

  /** All arguments at the start of the running program's page. */
  function Pointers(n: nat): (r: seq<Word>)
    ensures |r| == n && forall k :: 0 <= k < n ==> r[k] == BASE
  {
    seq(n, _ => BASE)
  }

  /** The table has two pages, and the second is not in the frame after the first's. */
  lemma ExecBlock(size: nat)
    requires HEADER + 4 * (COUNT + 1) <= size <= 2 * PAGE_SIZE
    ensures Block(ExecMachine(), {NEW, OLD}, {}, EXEC_OWNER, NEW, BASE, COUNT, size)
    ensures !InPlace(ExecMachine(), NEW, BASE, COUNT - 1) && !Consecutive(ExecMachine(), NEW, BASE, COUNT)
    ensures forall f: nat :: Hit(ExecMachine(), NEW, BASE, COUNT, f) ==> f == FIRST + 2 || f == FIRST + 3
  {
    hide Owned, Entry, ExecMachine;
    var s := ExecMachine();
    ExecFrames();
    ExecOwned();
    NewMap(USER_PAGE);
    NewMap(USER_PAGE + 1);
    assert BASE / PAGE_SIZE == USER_PAGE && BASE % PAGE_SIZE == 0 && (HEADER + 4 * COUNT) / PAGE_SIZE == 1 && (HEADER + 4 * (COUNT - 1)) / PAGE_SIZE == 1;
    assert LeafOf(s, NEW, USER_PAGE) == FIRST + 2 && LeafOf(s, NEW, USER_PAGE + 1) == FIRST + 4;
    forall x | BASE <= x < BASE + size
      ensures Mapped(s, NEW, x / PAGE_SIZE)
    {
      assert x / PAGE_SIZE == USER_PAGE || x / PAGE_SIZE == USER_PAGE + 1;
    }
  }

  /** What the running program's page holds at offset o. */
  lemma OldByte(o: nat)
    requires o < PAGE_SIZE
    ensures ReadByte(ExecMachine(), OLD, BASE + o) == PageByte(OldPage(), o)
  {
    hide Entry, ExecMachine, PageByte;
    ExecFrames();
    OldMap(USER_PAGE);
    assert (BASE + o) / PAGE_SIZE == USER_PAGE && (BASE + o) % PAGE_SIZE == o;
  }

  /** Bytes of the running program's page are apart from all that the call writes. */
  lemma OldApart(o: nat, n: nat, size: nat)
    requires o + n <= PAGE_SIZE && HEADER + 4 * (COUNT + 1) <= size <= 2 * PAGE_SIZE
    ensures Apart(ExecMachine(), NEW, BASE, size, OLD, BASE + o, n)
    ensures forall y :: BASE + o <= y < BASE + o + n ==> !Hit(ExecMachine(), NEW, BASE, COUNT, LeafOf(ExecMachine(), OLD, y / PAGE_SIZE))
  {
    hide Owned, Entry, ExecMachine, Hit, Block, InPlace, Consecutive;
    var s := ExecMachine();
    ExecBlock(size);
    NewMap(USER_PAGE);
    NewMap(USER_PAGE + 1);
    OldMap(USER_PAGE);
    assert LeafOf(s, NEW, USER_PAGE) == FIRST + 2 && LeafOf(s, NEW, USER_PAGE + 1) == FIRST + 4 && LeafOf(s, OLD, USER_PAGE) == FIRST + 7;
    forall x | BASE <= x < BASE + size && x < WORD_END
      ensures LeafOf(s, NEW, x / PAGE_SIZE) != FIRST + 7
    {
      assert x / PAGE_SIZE == USER_PAGE || x / PAGE_SIZE == USER_PAGE + 1;
    }
    forall y | BASE + o <= y < BASE + o + n
      ensures y / PAGE_SIZE == USER_PAGE
    {
    }
  }

  lemma EmptySource(size: nat)
    requires HEADER + 4 * (COUNT + 1) <= size <= 2 * PAGE_SIZE
    ensures Holding(ExecMachine(), NEW, BASE, COUNT, size, OLD, BASE, [0])
  {
    hide ExecMachine, Apart, Hit, ReadByte;
    OldApart(0, 1, size);
    OldByte(0);
    assert PageByte(OldPage(), 0) == 0;
    assert Source(ExecMachine(), OLD, BASE + 1, 0) == [];
  }

  lemma HeaderBytes(k: nat)
    requires k < HEADER
    ensures Header(BASE, COUNT, 0)[k] == PageByte(OldPage(), 16 + k)
  {
  }

  lemma HeaderSource(size: nat)
    requires HEADER + 4 * (COUNT + 1) <= size <= 2 * PAGE_SIZE
    ensures Holding(ExecMachine(), NEW, BASE, COUNT, size, OLD, BASE + 16, Header(BASE, COUNT, 0))
  {
    hide ExecMachine, Apart, Hit, ReadByte, Source, PageByte, OldPage, Header;
    OldApart(16, HEADER, size);
    var src := Source(ExecMachine(), OLD, BASE + 16, HEADER);
    forall k | 0 <= k < HEADER
      ensures src[k] == Header(BASE, COUNT, 0)[k]
    {
      SourceAt(ExecMachine(), OLD, BASE + 16, HEADER, k);
      OldByte(16 + k);
      HeaderBytes(k);
    }
    assert src == Header(BASE, COUNT, 0);
  }

  lemma ExecReady()
    ensures Ready(ExecMachine(), {NEW, OLD}, {}, EXEC_OWNER, NEW, BASE, OLD, Pointers(COUNT), Empties(COUNT), BASE + 16, 0)
    ensures BlockSize(Empties(COUNT)) <= 2 * PAGE_SIZE
  {
    hide Block, Holding, InPlace, Consecutive, Hit, ExecMachine, Header, StringsSize;
    EmptiesSize(COUNT);
    var size := BlockSize(Empties(COUNT));
    ExecBlock(size);
    EmptySource(size);
    HeaderSource(size);
    var noStr: Str := [];
    assert noStr + [0] == [0] && NoNul(noStr);
  }

  lemma EmptySlot()
    ensures ReadWord(ExecMachine(), NEW, BASE + HEADER + 4 * (COUNT - 1)) == 0
  {
    hide Entry, ExecMachine, ReadWord;
    var va := BASE + HEADER + 4 * (COUNT - 1);
    ExecFrames();
    NewMap(USER_PAGE + 1);
    ReadWordIsWord(ExecMachine(), NEW, va);
    assert va / PAGE_SIZE == USER_PAGE + 1 && va % PAGE_SIZE == 0;
  }

  /**
   * The running program of that machine executes the new one with 1022 empty arguments:
   * copy_args reports success, and the new program does not find the last argument.
   */
  lemma LastArgumentIsLost()
    ensures Ready(ExecMachine(), {NEW, OLD}, {}, EXEC_OWNER, NEW, BASE, OLD, Pointers(COUNT), Empties(COUNT), BASE + 16, 0)
    ensures BASE + BlockSize(Empties(COUNT)) < WORD_END
    ensures var r := CopyArgsFrom(ExecMachine(), BASE, NEW, OLD, Pointers(COUNT), BASE + 16);
            && r.ok && !Delivered(r.vm, NEW, BASE, Empties(COUNT))
            && ReadWord(r.vm, NEW, BASE + HEADER + 4 * (COUNT - 1)) != Required(BASE, Empties(COUNT), COUNT - 1)
  {
    hide Ready, ExecMachine, CopyArgsFrom, InPlace, Consecutive, Hit, Block, ReadWord, ReadStrings;
    ExecReady();
    var size := BlockSize(Empties(COUNT));
    ExecBlock(size);
    EmptySlot();
    CopyArgsRefines(ExecMachine(), {NEW, OLD}, {}, EXEC_OWNER, NEW, BASE, OLD, Pointers(COUNT), Empties(COUNT), BASE + 16, 0);
    SlotStaysWrong(ExecMachine(), {NEW, OLD}, {}, EXEC_OWNER, NEW, BASE, OLD, Pointers(COUNT), Empties(COUNT), BASE + 16, 0, COUNT - 1);
  }
}
