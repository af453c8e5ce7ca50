/**
 * mem.c as it runs: RAM and bitmap are changed in place, with the loops of the
 * source. Each method is proved to do what the function of the same name in
 * module Mem says, from every state, so all that is proved there holds of it.
 * The allocator's mutex is modelled as atomicity of each method.
 */
module MemKernel {
  import opened Options
  import opened Paging
  import opened Bitmaps
  import opened Mem
  import opened MapProofs
  import opened Bytes
  import opened DataCopy
  import opened Args
  import opened ArgSources

  /** A page all of whose bytes agree is the same page. */
  lemma SamePages(p: Page, q: Page)
    requires forall o :: 0 <= o < PAGE_SIZE ==> PageByte(p, o) == PageByte(q, o)
    ensures p == q
  {
    forall i | 0 <= i < ENTRIES
      ensures p[i] == q[i]
    {
      SameWords(p, q, i);
    }
  }

  lemma SameWords(p: Page, q: Page, i: nat)
    requires i < ENTRIES
    requires forall o :: 0 <= o < PAGE_SIZE ==> PageByte(p, o) == PageByte(q, o)
    ensures p[i] == q[i]
  {
    hide ByteAt;
    assert PageByte(p, 4 * i) == PageByte(q, 4 * i) && PageByte(p, 4 * i + 1) == PageByte(q, 4 * i + 1);
    assert PageByte(p, 4 * i + 2) == PageByte(q, 4 * i + 2) && PageByte(p, 4 * i + 3) == PageByte(q, 4 * i + 3);
    assert (4 * i) % 4 == 0 && (4 * i + 1) % 4 == 1 && (4 * i + 2) % 4 == 2 && (4 * i + 3) % 4 == 3;
    BytesWord(p[i]);
    BytesWord(q[i]);
  }

  lemma ZeroBytes(o: nat)
    requires o < PAGE_SIZE
    ensures PageByte(ZeroPage(), o) == 0
  {
  }

  /** The one-bit search of the bitmap is the allocator's search. */
  lemma LowestIsFirstRun(bits: seq<bool>)
    ensures var k := LowestClear(bits, 0);
            && (k < |bits| ==> AllocBits(bits, 0, 1) == (k as int, bits[k := true]))
            && (k == |bits| ==> AllocBits(bits, 0, 1) == (-1, bits))
  {
    AllocOne(bits);
  }

  lemma CreateMapOne(s: Vm, d: nat, vaddr: Word, paddr: Word, perm: Word)
    requires WfVm(s)
    ensures CreateMap(s, d, vaddr, paddr, 1, perm) == MapPage(s, d, vaddr / PAGE_SIZE, MakePte(paddr, perm))
  {
  }

  lemma CreatedFrame(s: Vm)
    requires WfVm(s)
    ensures var g := CreateUvm(s); (g.frame.Some? ==> FIRST <= g.frame.value < VPAGES) && (g.frame == None ==> g.vm == s)
  {
  }

  /** (i << 22) | (j << 12) */
  function PageAddress(i: nat, j: nat): (a: Word)
    requires i < ENTRIES && j < ENTRIES
    ensures a / PAGE_SIZE == i * ENTRIES + j
  {
    PowValues();
    assert Pow2(22) == 0x40_0000 by { assert Pow2(16) == 0x1_0000 && Pow2(20) == 0x10_0000; }
    OrDisjoint(i, j * PAGE_SIZE, 22);
    BitOr(i * 0x40_0000, j * PAGE_SIZE)
  }

  /** The heap end a task keeps, and its directory. */
  class HeapTask {
    const dir: nat
    var heapEnd: Word

    constructor (dir: nat, heapEnd: Word)
      ensures this.dir == dir && this.heapEnd == heapEnd
    {
      this.dir, this.heapEnd := dir, heapEnd;
    }
  }

  class MemoryManager {
    const ram: array<Page>
    const bitmap: Bitmap
    const kdir: nat

    ghost predicate Valid()
    {
      && bitmap.Valid() && FIRST + bitmap.bitCount <= ram.Length <= VPAGES
      && FIRST + bitmap.bitCount <= USER_PAGE && kdir < FIRST
    }

    ghost function View(): (s: Vm)
      requires Valid()
      reads ram, bitmap.bytes
      ensures WfVm(s)
    {
      Vm(ram[..], bitmap.Bits(), kdir)
    }

    /** addr_alloc_init and the cleared kernel directory of memory_init. */
    constructor (frames: nat, managed: nat, kdir: nat)
      requires FIRST + managed <= frames <= VPAGES && FIRST + managed <= USER_PAGE && kdir < FIRST
      ensures Valid() && fresh(ram) && fresh(bitmap) && fresh(bitmap.bytes)
      ensures View() == Vm(seq(frames, _ => ZeroPage()), seq(managed, _ => false), kdir)
    {
      ram := new Page[frames](_ => ZeroPage());
      bitmap := new Bitmap(managed, false);
      this.kdir := kdir;
    }

    // -------------------------------------------------------------- memory access

    method ReadFrame(f: nat) returns (p: Page)
      requires Valid()
      ensures p == Frame(View(), f)
    {
      if f < ram.Length {
        p := ram[f];
      } else {
        p := ZeroPage();
      }
    }

    method WriteWord(f: nat, i: nat, w: Word)
      requires Valid() && i < ENTRIES
      modifies ram
      ensures View() == SetWord(old(View()), f, i, w)
    {
      if f < ram.Length {
        ram[f] := ram[f][i := w];
        assert ram[..] == old(ram[..])[f := old(ram[f])[i := w]];
      }
    }

    /** k_memset(page, 0, 4096), byte by byte. */
    method ClearFrame(f: nat)
      requires Valid()
      modifies ram
      ensures View() == SetFrame(old(View()), f, ZeroPage())
    {
      hide PageByte, SetPageByte, ZeroPage;
      if f < ram.Length {
        var o := 0;
        while o < PAGE_SIZE
          invariant 0 <= o <= PAGE_SIZE
          invariant forall x :: 0 <= x < o ==> PageByte(ram[f], x) == 0
          invariant forall g :: 0 <= g < ram.Length && g != f ==> ram[g] == old(ram[g])
        {
          ghost var p := ram[f];
          ram[f] := SetPageByte(ram[f], o, 0);
          forall x | 0 <= x < PAGE_SIZE
            ensures PageByte(ram[f], x) == if x == o then 0 else PageByte(p, x)
          {
            PageByteSet(p, o, 0, x);
          }
          o := o + 1;
        }
        forall x | 0 <= x < PAGE_SIZE
          ensures PageByte(ram[f], x) == PageByte(ZeroPage(), x)
        {
          ZeroBytes(x);
        }
        SamePages(ram[f], ZeroPage());
        assert ram[..] == old(ram[..])[f := ZeroPage()];
      }
    }

    /** k_memcpy of 4096 bytes to frame `to` from the page mapped to frame `from`, byte by byte. */
    method CopyFrame(to: nat, from: nat)
      requires Valid()
      modifies ram
      ensures View() == SetFrame(old(View()), to, Frame(old(View()), from))
    {
      hide PageByte, SetPageByte, ZeroPage;
      ghost var src := Frame(View(), from);
      if to < ram.Length {
        var o := 0;
        while o < PAGE_SIZE
          invariant 0 <= o <= PAGE_SIZE
          invariant forall x :: 0 <= x < o ==> PageByte(ram[to], x) == PageByte(src, x)
          invariant from == to ==> ram[to] == src
          invariant forall g :: 0 <= g < ram.Length && g != to ==> ram[g] == old(ram[g])
        {
          var q := ReadFrame(from);
          ghost var p := ram[to];
          var b := PageByte(q, o);
          assert b == PageByte(src, o);
          ram[to] := SetPageByte(ram[to], o, b);
          forall x | 0 <= x < PAGE_SIZE
            ensures PageByte(ram[to], x) == if x == o then b else PageByte(p, x)
          {
            PageByteSet(p, o, b, x);
          }
          if from == to {
            SamePages(ram[to], src);
          }
          o := o + 1;
        }
        SamePages(ram[to], src);
        assert ram[..] == old(ram[..])[to := src];
      }
    }

    // -------------------------------------------------------------- allocator

    /** addr_alloc_page for any number of pages, as bitmap_alloc_nbits finds them: 0 when it fails. */
    method AllocRange(count: int) returns (addr: nat)
      requires Valid()
      modifies bitmap.bytes
      ensures var (k, bits) := AllocBits(old(View()).bits, 0, count);
              View() == old(View()).(bits := bits) && addr == if k >= 0 then (FIRST + k) * PAGE_SIZE else 0
    {
      hide AllocBits;
      var index := bitmap.AllocNbits(0, count);
      addr := 0;
      if index >= 0 {
        addr := FIRST * PAGE_SIZE + index * PAGE_SIZE;
      }
    }

    /** addr_alloc_page(1): 0 when no frame is free. */
    method AllocPage() returns (addr: nat)
      requires Valid()
      modifies bitmap.bytes
      ensures var g := AllocFrame(old(View()));
              View() == g.vm && addr == if g.frame.Some? then g.frame.value * PAGE_SIZE else 0
    {
      hide AllocBits;
      LowestIsFirstRun(bitmap.Bits());
      addr := AllocRange(1);
    }

    /** addr_free_page. */
    method FreePage(addr: Word, count: nat)
      requires Valid()
      modifies bitmap.bytes
      ensures View() == FreePages(old(View()), addr, count)
    {
      hide Fill;
      var index := ((addr - FIRST * PAGE_SIZE) % WORD_END) / PAGE_SIZE;
      bitmap.SetBits(index, count, false);
    }

    // -------------------------------------------------------------- page tables

    /** find_pte: the page table's frame, or None. The caller adds the entry's index. */
    method FindEntry(d: nat, vaddr: Word, alloc: bool) returns (table: Option<nat>)
      requires Valid()
      modifies ram, bitmap.bytes
      ensures Got(View(), table) == FindPte(old(View()), d, PdeIndex(vaddr), alloc)
    {
      hide SetFrame, LowestClear, MakePde, ZeroPage;
      var dir := ReadFrame(d);
      var pde := dir[PdeIndex(vaddr)];
      if Present(pde) {
        return Some(FrameOf(pde));
      }
      if !alloc {
        return None;
      }
      AllocFacts(View());
      var addr := AllocPage();
      if addr == 0 {
        return None;
      }
      var t := addr / PAGE_SIZE;
      WriteWord(d, PdeIndex(vaddr), MakePde(addr));
      ClearFrame(t);
      return Some(t);
    }

    /** memory_create_map: 0, or -1 when a table cannot be allocated. */
    method CreateMapping(d: nat, vaddr: Word, paddr: Word, count: nat, perm: Word) returns (err: int)
      requires Valid()
      modifies ram, bitmap.bytes
      ensures var r := CreateMap(old(View()), d, vaddr, paddr, count, perm);
              View() == r.vm && err == if r.outcome == Done then 0 else -1
    {
      hide FindPte, SetWord, MakePte;
      var v: Word, p: Word, i := vaddr, paddr, 0;
      while i < count
        invariant 0 <= i <= count
        invariant CreateMap(View(), d, v, p, count - i, perm) == CreateMap(old(View()), d, vaddr, paddr, count, perm)
      {
        var table := FindEntry(d, v, true);
        if table == None {
          return -1;
        }
        WriteWord(table.value, PteIndex(v), MakePte(p, perm));
        v, p, i := (v + PAGE_SIZE) % WORD_END, (p + PAGE_SIZE) % WORD_END, i + 1;
      }
      return 0;
    }

    /** create_kernel_table over the rows of its table; errors are ignored. */
    method MapKernelRegions(regions: seq<Region>)
      requires Valid()
      modifies ram, bitmap.bytes
      ensures View() == CreateKernelTable(old(View()), regions)
    {
      hide CreateMap, Up2, Down2;
      var i := 0;
      while i < |regions|
        invariant 0 <= i <= |regions|
        invariant CreateKernelTable(View(), regions[i..]) == CreateKernelTable(old(View()), regions)
      {
        var g := regions[i];
        assert regions[i..][0] == g && regions[i..][1..] == regions[i + 1..];
        var vstart := Down2(g.vstart);
        var pages := Int32((Up2(g.vend) - vstart) % WORD_END) / PAGE_SIZE;
        var err := CreateMapping(kdir, vstart, g.pstart, if pages > 0 then pages else 0, g.perm);
        i := i + 1;
      }
    }

    // -------------------------------------------------------------- address spaces

    /** The loop of memory_create_uvm, on a cleared directory. */
    method CopyKernelHalf(d: nat)
      requires Valid() && d < ram.Length && d != kdir && ram[d] == ZeroPage()
      modifies ram
      ensures View() == SetFrame(old(View()), d, NewDir(Frame(old(View()), kdir)))
    {
      hide ZeroPage;
      var i := 0;
      while i < USER_PDE
        invariant 0 <= i <= USER_PDE
        invariant ram[d] == old(ram[kdir])[..i] + ZeroPage()[i..]
        invariant forall g :: 0 <= g < ram.Length && g != d ==> ram[g] == old(ram[g])
      {
        ram[d] := ram[d][i := ram[kdir][i]];
        i := i + 1;
      }
      assert ram[d] == NewDir(old(ram[kdir]));
      assert ram[..] == old(ram[..])[d := NewDir(old(ram[kdir]))];
    }

    /** memory_create_uvm: the directory's frame, 0 when there is none. */
    method CreateSpace() returns (d: nat)
      requires Valid()
      modifies ram, bitmap.bytes
      ensures var g := CreateUvm(old(View()));
              View() == g.vm && d == if g.frame.Some? then g.frame.value else 0
    {
      hide LowestClear, ZeroPage, NewDir;
      AllocFacts(View());
      var addr := AllocPage();
      if addr == 0 {
        return 0;
      }
      d := addr / PAGE_SIZE;
      ClearFrame(d);
      CopyKernelHalf(d);
    }

    /** A frame is allocated and mapped: the body of the loop of memory_alloc_for_page_dir. */
    method AllocOnePage(d: nat, vaddr: Word, perm: Word) returns (o: Outcome)
      requires Valid()
      modifies ram, bitmap.bytes
      ensures Result(View(), o) == AllocMap(old(View()), d, vaddr / PAGE_SIZE, perm)
    {
      hide LowestClear, MapPage, MakePte, CreateMap;
      AllocFacts(View());
      var paddr := AllocPage();
      if paddr == 0 {
        return NoFrame;
      }
      CreateMapOne(View(), d, vaddr, paddr, perm);
      var e := CreateMapping(d, vaddr, paddr, 1, perm);
      return if e < 0 then NoTable else Done;
    }

    /** memory_alloc_for_page_dir: 0 on success and also when out of data frames, -1 when a table is missing. */
    method AllocForPageDir(d: nat, vaddr: Word, size: Word, perm: Word) returns (err: int)
      requires Valid()
      modifies ram, bitmap.bytes
      ensures var r := AllocForDir(old(View()), d, vaddr, size, perm);
              View() == r.vm && err == if r.outcome == NoTable then -1 else 0
    {
      hide AllocMap, FreePages, Up2, Down2;
      var curr: Word, pages, base: Word, i := vaddr, Up2(size) / PAGE_SIZE, Down2(vaddr), 0;
      while i < pages
        invariant 0 <= i <= pages
        invariant AllocPages(View(), d, base, curr, i, pages - i, perm) == AllocForDir(old(View()), d, vaddr, size, perm)
      {
        var o := AllocOnePage(d, curr, perm);
        if o == NoFrame {
          return 0;
        }
        if o == NoTable {
          FreePage(base, i + 1);
          return -1;
        }
        curr, i := (curr + PAGE_SIZE) % WORD_END, i + 1;
      }
      return 0;
    }

    /** The inner loop of memory_destory_uvm. */
    method FreeTablePages(t: nat)
      requires Valid()
      modifies bitmap.bytes
      ensures View() == FreeLeaves(old(View()), t, 0)
    {
      hide FreePages, Frame;
      var j := 0;
      while j < ENTRIES
        invariant 0 <= j <= ENTRIES
        invariant FreeLeaves(View(), t, j) == FreeLeaves(old(View()), t, 0)
      {
        var table := ReadFrame(t);
        if Present(table[j]) {
          FreePage(FrameOf(table[j]) * PAGE_SIZE, 1);
        }
        j := j + 1;
      }
    }

    /** memory_destory_uvm. */
    method DestroySpace(d: nat)
      requires Valid() && d < VPAGES
      modifies bitmap.bytes
      ensures View() == DestroyUvm(old(View()), d)
    {
      hide FreePages, FreeLeaves, Frame;
      var i := USER_PDE;
      while i < ENTRIES
        invariant USER_PDE <= i <= ENTRIES
        invariant FreeTables(View(), d, i) == FreeTables(old(View()), d, USER_PDE)
      {
        var dir := ReadFrame(d);
        if Present(dir[i]) {
          FreeTablePages(FrameOf(dir[i]));
          FreePage(FrameOf(dir[i]) * PAGE_SIZE, 1);
        }
        i := i + 1;
      }
      FreePage(d * PAGE_SIZE, 1);
    }

    /** The frame that the active directory maps page n to. */
    method Translate(active: nat, n: nat) returns (f: nat)
      requires Valid() && n < VPAGES
      ensures f == FrameOf(Entry(View(), active, n))
    {
      var dir := ReadFrame(active);
      var pde := dir[n / ENTRIES];
      if Present(pde) {
        var table := ReadFrame(FrameOf(pde));
        return FrameOf(table[n % ENTRIES]);
      }
      return 0;
    }

    /** The body of memory_copy_uvm's inner loop for a present entry. */
    method CopyOnePage(active: nat, to: nat, i: nat, j: nat, perm: Word) returns (o: Outcome)
      requires Valid() && i < ENTRIES && j < ENTRIES
      modifies ram, bitmap.bytes
      ensures Result(View(), o) == CopyPage(old(View()), active, to, i * ENTRIES + j, perm)
    {
      hide LowestClear, MapPage, MakePte, Entry, CreateMap, PageAddress;
      AllocFacts(View());
      var page := AllocPage();
      if page == 0 {
        return NoFrame;
      }
      var vaddr := PageAddress(i, j);
      CreateMapOne(View(), to, vaddr, page, perm);
      var e := CreateMapping(to, vaddr, page, 1, perm);
      if e < 0 {
        return NoTable;
      }
      var src := Translate(active, vaddr / PAGE_SIZE);
      CopyFrame(page / PAGE_SIZE, src);
      return Done;
    }

    /** The inner loop of memory_copy_uvm. */
    method CopyTablePages(active: nat, to: nat, i: nat, t: nat) returns (o: Outcome)
      requires Valid() && i < ENTRIES
      modifies ram, bitmap.bytes
      ensures Result(View(), o) == CopyLeaves(old(View()), active, to, i, t, 0)
    {
      hide CopyPage, PermOf, Frame;
      var j := 0;
      while j < ENTRIES
        invariant 0 <= j <= ENTRIES
        invariant CopyLeaves(View(), active, to, i, t, j) == CopyLeaves(old(View()), active, to, i, t, 0)
      {
        var table := ReadFrame(t);
        if Present(table[j]) {
          o := CopyOnePage(active, to, i, j, PermOf(table[j]));
          if o != Done {
            return;
          }
        }
        j := j + 1;
      }
      return Done;
    }

    /** memory_copy_uvm: the copy's directory frame, or -1. */
    method CopySpace(from: nat, active: nat) returns (dir: int)
      requires Valid()
      modifies ram, bitmap.bytes
      ensures var r := CopyUvm(old(View()), from, active);
              View() == r.vm && dir == if r.outcome == Done then r.dir else -1
    {
      hide CopyLeaves, DestroyUvm, CreateUvm, Frame;
      CreatedFrame(View());
      var to := CreateSpace();
      if to == 0 {
        return -1;
      }
      ghost var s1 := View();
      var i := USER_PDE;
      while i < ENTRIES
        invariant USER_PDE <= i <= ENTRIES
        invariant CopyTables(View(), from, active, to, i) == CopyTables(s1, from, active, to, USER_PDE)
      {
        var fromDir := ReadFrame(from);
        if Present(fromDir[i]) {
          var o := CopyTablePages(active, to, i, FrameOf(fromDir[i]));
          if o != Done {
            DestroySpace(to);
            return -1;
          }
        }
        i := i + 1;
      }
      return to;
    }

    /** memory_get_paddr. */
    method PaddrOf(d: nat, va: Word) returns (p: nat)
      requires Valid()
      ensures p == GetPaddr(View(), d, va)
    {
      var dir := ReadFrame(d);
      var pde := dir[PdeIndex(va)];
      if !Present(pde) {
        return 0;
      }
      var table := ReadFrame(FrameOf(pde));
      return FrameOf(table[PteIndex(va)]) * PAGE_SIZE + va % PAGE_SIZE;
    }

    /** A load through the active directory. */
    method LoadByte(active: nat, va: Word) returns (b: Byte)
      requires Valid()
      ensures b == ReadByte(View(), active, va)
    {
      var f := Translate(active, va / PAGE_SIZE);
      var p := ReadFrame(f);
      return PageByte(p, va % PAGE_SIZE);
    }

    /** A store to a physical address. */
    method StoreByte(a: nat, b: Byte)
      requires Valid()
      modifies ram
      ensures View() == PutByte(old(View()), a, b)
    {
      hide SetPageByte;
      var f := a / PAGE_SIZE;
      if f < ram.Length {
        ram[f] := SetPageByte(ram[f], a % PAGE_SIZE, b);
        assert ram[..] == old(ram[..])[f := SetPageByte(old(ram[f]), a % PAGE_SIZE, b)];
      }
    }

    /** memory_copy_uvm_data, with k_memcpy's byte loop inside: 0, or -1 when a table is missing. */
    method CopyData(to: Word, d: nat, active: nat, from: Word, size: nat) returns (err: int)
      requires Valid()
      modifies ram
      ensures var r := CopyUvmData(old(View()), to, d, active, from, size);
              View() == r.vm && err == if r.ok then 0 else -1
    {
      hide GetPaddr, MemCpy;
      var dst: Word, src: Word, left := to, from, size;
      while left > 0
        invariant 0 <= left
        invariant CopyUvmData(View(), dst, d, active, src, left) == CopyUvmData(old(View()), to, d, active, from, size)
      {
        var p := PaddrOf(d, dst);
        if p == 0 {
          return -1;
        }
        var room := PAGE_SIZE - p % PAGE_SIZE;
        var cur := if room > left then left else room;
        if src != 0 {
          CopyBytes(p, active, src, cur);
        }
        dst, src, left := (dst + cur) % WORD_END, (src + cur) % WORD_END, left - cur;
      }
      return 0;
    }

    /** k_memcpy to physical memory. */
    method CopyBytes(p: nat, active: nat, from: Word, size: nat)
      requires Valid()
      modifies ram
      ensures View() == MemCpy(old(View()), active, p, from, size)
    {
      hide ReadByte, PutByte;
      var src: Word, k := from, 0;
      while k < size
        invariant 0 <= k <= size
        invariant MemCpy(View(), active, p + k, src, size - k) == MemCpy(old(View()), active, p, from, size)
      {
        var b := LoadByte(active, src);
        StoreByte(p + k, b);
        src, k := (src + 1) % WORD_END, k + 1;
      }
    }

    /** k_strlen on a string of the active space. */
    method StringLength(active: nat, va: Word) returns (len: nat)
      requires Valid()
      ensures len == StrLen(View(), active, va)
    {
      hide ReadByte;
      len := 0;
      if va == 0 {
        return;
      }
      while va + len < WORD_END
        invariant va + len <= WORD_END
        invariant |ReadString(View(), active, va)| == len + |ReadString(View(), active, va + len)|
      {
        var b := LoadByte(active, va + len);
        if b == 0 {
          return;
        }
        len := len + 1;
      }
    }

    /** copy_args for the argument pointers argv; `head` is the address of its filled-in task_args. */
    method CopyArguments(to: Word, d: nat, active: nat, argv: seq<Word>, head: Word) returns (err: int)
      requires Valid()
      modifies ram
      ensures var r := CopyArgsFrom(old(View()), to, d, active, argv, head);
              View() == r.vm && err == if r.ok then 0 else -1
    {
      hide CopyUvmData, StrLen, GetPaddr, SetWord;
      var argc := |argv|;
      var dest: Word := (to + HEADER + 4 * (argc + 1)) % WORD_END;
      var table := PaddrOf(d, (to + HEADER) % WORD_END);
      ghost var first := dest;
      var i := 0;
      while i < argc
        invariant 0 <= i <= argc
        invariant CopyStringsFrom(View(), d, active, table, dest, argv[i..], i) == CopyStringsFrom(old(View()), d, active, table, first, argv, 0)
      {
        assert argv[i..][0] == argv[i] && argv[i..][1..] == argv[i + 1..];
        var len := StringLength(active, argv[i]);
        var e := CopyData(dest, d, active, argv[i], len + 1);
        StorePointer(table + 4 * i, dest);
        dest, i := (dest + len + 1) % WORD_END, i + 1;
      }
      if argc != 0 {
        StorePointer(table + 4 * argc, 0);
      }
      err := CopyData(to, d, active, head, HEADER);
    }

    method StorePointer(p: nat, w: Word)
      requires Valid()
      modifies ram
      ensures View() == PutWord(old(View()), p, w)
    {
      WriteWord(p / PAGE_SIZE, p % PAGE_SIZE / 4, w);
    }

    /** sys_sbrk: the previous heap end, or -1. */
    method Grow(task: HeapTask, incr: nat) returns (ret: int)
      requires Valid() && incr < 0x8000_0000
      modifies ram, bitmap.bytes, task
      ensures var r := Sbrk(old(View()), task.dir, old(task.heapEnd), incr);
              && View() == r.vm && task.heapEnd == r.heapEnd
              && ret == if r.ret.Some? then r.ret.value else -1
    {
      hide AllocForDir;
      var pre := task.heapEnd;
      if incr == 0 {
        return pre;
      }
      var start: Word, left := pre, incr;
      var end: Word := (start + incr) % WORD_END;
      var offset := start % PAGE_SIZE;
      if offset != 0 {
        if Int32(offset + incr) <= PAGE_SIZE {
          task.heapEnd := end;
          return pre;
        }
        var cur := PAGE_SIZE - offset;
        start, left := (start + cur) % WORD_END, left - cur;
      }
      if left != 0 {
        var err := AllocForPageDir(task.dir, start, (end - start) % WORD_END, PTE_P + PTE_U + PTE_W);
        if err < 0 {
          return -1;
        }
      }
      task.heapEnd := end;
      return pre;
    }
  }
}
