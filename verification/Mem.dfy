/**
 * The virtual-memory operations of src/kernel/mem.c as functions on a value of
 * type `Vm`: physical RAM, frame by frame, and the allocator's bitmap.
 *
 * Directories, page tables and user data all live in frames of the same RAM, and
 * frames are identified by number (physical address / 4096). A frame number
 * beyond the installed RAM reads as a zero page and ignores writes.
 */
module Mem {
  import opened Options
  import opened Bitmaps
  import opened Paging

  /** Frame of MEM_EXT_START: bit k of the bitmap stands for frame FIRST + k. */
  const FIRST := 256

  /** A page cleared by k_memset. */
  function ZeroPage(): (p: Page)
    ensures forall i :: 0 <= i < ENTRIES ==> p[i] == 0
  {
    seq(1024, _ => 0)
  }

  datatype Vm = Vm(ram: seq<Page>, bits: seq<bool>, kdir: nat)

  /** A new state with the frame, directory or table obtained, if any. */
  datatype Got = Got(vm: Vm, frame: Option<nat>)

  /** Outcomes of the allocating loops: `NoTable` is a failed memory_create_map. */
  datatype Outcome = Done | NoFrame | NoTable

  datatype Result = Result(vm: Vm, outcome: Outcome)

  /**
   * What memory_init leaves behind: the managed frames are installed RAM below
   * MEMORY_TASK_BASE, and the kernel directory lies below the managed frames.
   */
  ghost predicate WfVm(s: Vm) {
    FIRST + |s.bits| <= |s.ram| <= VPAGES && FIRST + |s.bits| <= USER_PAGE && s.kdir < FIRST
  }

  /** No operation changes the amount of RAM, the managed range or the kernel directory's place. */
  predicate SameShape(s: Vm, t: Vm) {
    |t.ram| == |s.ram| && |t.bits| == |s.bits| && t.kdir == s.kdir
  }

  // ---------------------------------------------------------------- physical memory

  function Frame(s: Vm, f: nat): Page {
    if f < |s.ram| then s.ram[f] else ZeroPage()
  }

  function SetFrame(s: Vm, f: nat, p: Page): (r: Vm)
    ensures SameShape(s, r)
  {
    if f < |s.ram| then s.(ram := s.ram[f := p]) else s
  }

  function SetWord(s: Vm, f: nat, i: nat, w: Word): (r: Vm)
    requires i < ENTRIES
    ensures SameShape(s, r)
  {
    SetFrame(s, f, Frame(s, f)[i := w])
  }

  // ---------------------------------------------------------------- frame allocator

  /** Index of the first clear bit at or after k, or |bits|. */
  function LowestClear(bits: seq<bool>, k: nat): (r: nat)
    requires k <= |bits|
    ensures k <= r <= |bits|
    ensures forall i :: k <= i < r ==> bits[i]
    ensures r < |bits| ==> !bits[r]
    decreases |bits| - k
  {
    if k == |bits| || !bits[k] then k else LowestClear(bits, k + 1)
  }

  predicate Used(s: Vm, f: nat) {
    FIRST <= f < FIRST + |s.bits| && s.bits[f - FIRST]
  }

  predicate Free(s: Vm, f: nat) {
    FIRST <= f < FIRST + |s.bits| && !s.bits[f - FIRST]
  }

  /** addr_alloc_page for one page: the lowest free frame is marked and returned. */
  function AllocFrame(s: Vm): (r: Got)
    ensures SameShape(s, r.vm)
  {
    var k := LowestClear(s.bits, 0);
    if k < |s.bits| then Got(s.(bits := s.bits[k := true]), Some(FIRST + k)) else Got(s, None)
  }

  /** addr_free_page: the bit index is computed in 32-bit arithmetic. */
  function FreePages(s: Vm, addr: Word, count: nat): (r: Vm)
    ensures SameShape(s, r)
  {
    s.(bits := Fill(s.bits, ((addr - FIRST * PAGE_SIZE) % WORD_END) / PAGE_SIZE, count, false))
  }

  // ---------------------------------------------------------------- page tables

  /** The page-table frame behind directory entry i of directory d. */
  function TableOf(s: Vm, d: nat, i: nat): nat
    requires i < ENTRIES
  {
    FrameOf(Frame(s, d)[i])
  }

  predicate HasTable(s: Vm, d: nat, i: nat)
    requires i < ENTRIES
  {
    Present(Frame(s, d)[i])
  }

  /** Directory entry i of d is pointed at the fresh frame t, which is cleared. */
  function AddTable(s: Vm, d: nat, i: nat, t: nat): (r: Vm)
    requires i < ENTRIES && t < VPAGES
    ensures SameShape(s, r)
  {
    SetFrame(SetWord(s, d, i, MakePde(t * PAGE_SIZE)), t, ZeroPage())
  }

  /** find_pte: the frame of the page table, created and zeroed on demand. */
  function FindPte(s: Vm, d: nat, i: nat, alloc: bool): (r: Got)
    requires WfVm(s) && i < ENTRIES
    ensures SameShape(s, r.vm)
  {
    if HasTable(s, d, i) then Got(s, Some(TableOf(s, d, i)))
    else if !alloc then Got(s, None)
    else
      var g := AllocFrame(s);
      if g.frame == None then g
      else Got(AddTable(g.vm, d, i, g.frame.value), g.frame)
  }

  /** One round of memory_create_map: entry w is stored for page n. */
  function MapPage(s: Vm, d: nat, n: nat, w: Word): (r: Result)
    requires WfVm(s) && n < VPAGES
    ensures SameShape(s, r.vm)
    ensures r.outcome == Done || r.outcome == NoTable
  {
    var g := FindPte(s, d, n / ENTRIES, true);
    if g.frame == None then Result(g.vm, NoTable)
    else Result(SetWord(g.vm, g.frame.value, n % ENTRIES, w), Done)
  }

  /** memory_create_map; addresses advance in 32-bit arithmetic. */
  function CreateMap(s: Vm, d: nat, vaddr: Word, paddr: Word, count: nat, perm: Word): (r: Result)
    requires WfVm(s)
    ensures SameShape(s, r.vm)
    ensures r.outcome == Done || r.outcome == NoTable
    decreases count
  {
    if count == 0 then Result(s, Done)
    else
      var m := MapPage(s, d, vaddr / PAGE_SIZE, MakePte(paddr, perm));
      if m.outcome != Done then m
      else CreateMap(m.vm, d, (vaddr + PAGE_SIZE) % WORD_END, (paddr + PAGE_SIZE) % WORD_END, count - 1, perm)
  }

  /** The flat page map that directory d stands for: the entry of page n, 0 if it has no table. */
  function Entry(s: Vm, d: nat, n: nat): Word
    requires n < VPAGES
  {
    if HasTable(s, d, n / ENTRIES) then Frame(s, TableOf(s, d, n / ENTRIES))[n % ENTRIES] else 0
  }

  predicate Mapped(s: Vm, d: nat, n: nat)
    requires n < VPAGES
  {
    Present(Entry(s, d, n))
  }

  // ---------------------------------------------------------------- kernel tables

  /** A row of kernel_map. */
  datatype Region = Region(vstart: Word, vend: Word, pstart: Word, perm: Word)

  /** page_count of a row: a difference of ints, and a loop that does not run for a negative one. */
  function PageCount(g: Region): nat {
    var size := Int32((Up2(g.vend) - Down2(g.vstart)) % WORD_END);
    if size > 0 then size / PAGE_SIZE else 0
  }

  /** create_kernel_table, for the rows of its table. */
  function CreateKernelTable(s: Vm, regions: seq<Region>): (r: Vm)
    requires WfVm(s)
    ensures SameShape(s, r)
    decreases |regions|
  {
    if |regions| == 0 then s
    else
      var g := regions[0];
      CreateKernelTable(CreateMap(s, s.kdir, Down2(g.vstart), g.pstart, PageCount(g), g.perm).vm, regions[1..])
  }

  // ---------------------------------------------------------------- address spaces

  /** A directory page: the kernel half of the kernel directory and an empty user half. */
  function NewDir(k: Page): (p: Page)
    ensures forall i :: 0 <= i < USER_PDE ==> p[i] == k[i]
    ensures forall i :: USER_PDE <= i < ENTRIES ==> p[i] == 0
  {
    k[..USER_PDE] + ZeroPage()[USER_PDE..]
  }

  /** memory_create_uvm. */
  function CreateUvm(s: Vm): (r: Got)
    requires WfVm(s)
    ensures SameShape(s, r.vm)
  {
    var g := AllocFrame(s);
    if g.frame == None then g
    else Got(SetFrame(g.vm, g.frame.value, NewDir(Frame(s, s.kdir))), g.frame)
  }

  /** A frame is allocated and mapped at page n with the given permissions. */
  function AllocMap(s: Vm, d: nat, n: nat, perm: Word): (r: Result)
    requires WfVm(s) && n < VPAGES
    ensures SameShape(s, r.vm)
  {
    var g := AllocFrame(s);
    if g.frame == None then Result(s, NoFrame)
    else MapPage(g.vm, d, n, MakePte(g.frame.value * PAGE_SIZE, perm))
  }

  /** The loop of memory_alloc_for_page_dir; `base` and `i` feed the clean-up call. */
  function AllocPages(s: Vm, d: nat, base: Word, vaddr: Word, i: nat, count: nat, perm: Word): (r: Result)
    requires WfVm(s)
    ensures SameShape(s, r.vm)
    decreases count
  {
    if count == 0 then Result(s, Done)
    else
      var m := AllocMap(s, d, vaddr / PAGE_SIZE, perm);
      match m.outcome
      case NoFrame => m
      case NoTable => Result(FreePages(m.vm, base, i + 1), NoTable)
      case Done => AllocPages(m.vm, d, base, (vaddr + PAGE_SIZE) % WORD_END, i + 1, count - 1, perm)
  }

  /** memory_alloc_for_page_dir: the page count comes from `size` alone. */
  function AllocForDir(s: Vm, d: nat, vaddr: Word, size: Word, perm: Word): (r: Result)
    requires WfVm(s)
    ensures SameShape(s, r.vm)
  {
    AllocPages(s, d, Down2(vaddr), vaddr, 0, Up2(size) / PAGE_SIZE, perm)
  }

  /** Inner loop of memory_destory_uvm: frees the pages of table t from entry j on. */
  function FreeLeaves(s: Vm, t: nat, j: nat): (r: Vm)
    requires j <= ENTRIES
    ensures SameShape(s, r)
    decreases ENTRIES - j
  {
    if j == ENTRIES then s
    else
      var w := Frame(s, t)[j];
      FreeLeaves(if Present(w) then FreePages(s, FrameOf(w) * PAGE_SIZE, 1) else s, t, j + 1)
  }

  /** Outer loop of memory_destory_uvm, from directory entry i on. */
  function FreeTables(s: Vm, d: nat, i: nat): (r: Vm)
    requires i <= ENTRIES
    ensures SameShape(s, r)
    decreases ENTRIES - i
  {
    if i == ENTRIES then s
    else
      var w := Frame(s, d)[i];
      FreeTables(if Present(w) then FreePages(FreeLeaves(s, FrameOf(w), 0), FrameOf(w) * PAGE_SIZE, 1) else s,
                 d, i + 1)
  }

  /** memory_destory_uvm. */
  function DestroyUvm(s: Vm, d: nat): (r: Vm)
    requires d < VPAGES
    ensures SameShape(s, r)
  {
    FreePages(FreeTables(s, d, USER_PDE), d * PAGE_SIZE, 1)
  }

  /** The bytes a 4096-byte k_memcpy reads at page n: the active directory translates. */
  function PageAt(s: Vm, active: nat, n: nat): Page
    requires n < VPAGES
  {
    Frame(s, FrameOf(Entry(s, active, n)))
  }

  /** One present page of memory_copy_uvm: allocate, map with the same permissions, copy. */
  function CopyPage(s: Vm, active: nat, to: nat, n: nat, perm: Word): (r: Result)
    requires WfVm(s) && n < VPAGES
    ensures SameShape(s, r.vm)
  {
    var m := AllocMap(s, to, n, perm);
    if m.outcome != Done then m
    else Result(SetFrame(m.vm, AllocFrame(s).frame.value, PageAt(m.vm, active, n)), Done)
  }

  /** Inner loop of memory_copy_uvm: pages of source table t from entry j on. */
  function CopyLeaves(s: Vm, active: nat, to: nat, i: nat, t: nat, j: nat): (r: Result)
    requires WfVm(s) && i < ENTRIES && j <= ENTRIES
    ensures SameShape(s, r.vm)
    decreases ENTRIES - j
  {
    if j == ENTRIES then Result(s, Done)
    else
      var w := Frame(s, t)[j];
      if !Present(w) then CopyLeaves(s, active, to, i, t, j + 1)
      else
        var m := CopyPage(s, active, to, i * ENTRIES + j, PermOf(w));
        if m.outcome != Done then m else CopyLeaves(m.vm, active, to, i, t, j + 1)
  }

  /** Outer loop of memory_copy_uvm, from directory entry i of `from` on. */
  function CopyTables(s: Vm, from: nat, active: nat, to: nat, i: nat): (r: Result)
    requires WfVm(s) && i <= ENTRIES
    ensures SameShape(s, r.vm)
    decreases ENTRIES - i
  {
    if i == ENTRIES then Result(s, Done)
    else
      var w := Frame(s, from)[i];
      if !Present(w) then CopyTables(s, from, active, to, i + 1)
      else
        var m := CopyLeaves(s, active, to, i, FrameOf(w), 0);
        if m.outcome != Done then m else CopyTables(m.vm, from, active, to, i + 1)
  }

  datatype Copied = Copied(vm: Vm, outcome: Outcome, dir: nat)

  /** memory_copy_uvm: on failure the half-built space is destroyed. */
  function CopyUvm(s: Vm, from: nat, active: nat): (r: Copied)
    requires WfVm(s)
    ensures SameShape(s, r.vm)
  {
    var g := CreateUvm(s);
    if g.frame == None then Copied(g.vm, NoFrame, 0)
    else
      var to := g.frame.value;
      var m := CopyTables(g.vm, from, active, to, USER_PDE);
      if m.outcome == Done then Copied(m.vm, Done, to)
      else Copied(DestroyUvm(m.vm, to), m.outcome, 0)
  }

  // ---------------------------------------------------------------- heap growth

  /** `ret` is None for the (char *)-1 of a failed call. */
  datatype SbrkResult = SbrkResult(vm: Vm, heapEnd: Word, ret: Option<Word>)

  /** The value of a sum in a signed 32-bit int, with wrap-around. */
  function Int32(a: nat): int {
    if a < 0x8000_0000 then a else a - WORD_END
  }

  /** sys_sbrk for a task with directory d and any nonnegative int; start_offset + incr can wrap. */
  function Sbrk(s: Vm, d: nat, heapEnd: Word, incr: nat): (r: SbrkResult)
    requires WfVm(s) && incr < 0x8000_0000
    ensures SameShape(s, r.vm)
  {
    var end := (heapEnd + incr) % WORD_END;
    var offset := heapEnd % PAGE_SIZE;
    if incr == 0 then SbrkResult(s, heapEnd, Some(heapEnd))
    else if offset != 0 && Int32(offset + incr) <= PAGE_SIZE then SbrkResult(s, end, Some(heapEnd))
    else
      var start := if offset != 0 then (heapEnd + (PAGE_SIZE - offset)) % WORD_END else heapEnd;
      var r := AllocForDir(s, d, start, (end - start) % WORD_END, PTE_P + PTE_U + PTE_W);
      if r.outcome == NoTable then SbrkResult(r.vm, heapEnd, None)
      else SbrkResult(r.vm, end, Some(heapEnd))
  }
}
