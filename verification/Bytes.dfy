/**
 * Bytes of physical memory, little-endian within each word, and byte access
 * through a directory (src/kernel/mem.c:270-278, src/kernel/lib/klib.c:77-86).
 */
module Bytes {
  import opened Paging
  import opened Mem
  import opened MapProofs
  import opened Ownership
  import opened Growth

  type Byte = b: int | 0 <= b < 256

  // ---------------------------------------------------------------- words and bytes

  function WordOf(b0: Byte, b1: Byte, b2: Byte, b3: Byte): Word {
    b0 + 0x100 * b1 + 0x1_0000 * b2 + 0x100_0000 * b3
  }

  function ByteAt(w: Word, k: nat): Byte
    requires k < 4
  {
    if k == 0 then w % 0x100
    else if k == 1 then w / 0x100 % 0x100
    else if k == 2 then w / 0x1_0000 % 0x100
    else w / 0x100_0000
  }

  lemma WordBytes(b0: Byte, b1: Byte, b2: Byte, b3: Byte)
    ensures var w := WordOf(b0, b1, b2, b3);
            ByteAt(w, 0) == b0 && ByteAt(w, 1) == b1 && ByteAt(w, 2) == b2 && ByteAt(w, 3) == b3
  {
    var w := WordOf(b0, b1, b2, b3);
    assert w / 0x100 == b1 + 0x100 * b2 + 0x1_0000 * b3;
    assert w / 0x1_0000 == b2 + 0x100 * b3;
  }

  lemma BytesWord(w: Word)
    ensures WordOf(ByteAt(w, 0), ByteAt(w, 1), ByteAt(w, 2), ByteAt(w, 3)) == w
  {
    assert w / 0x100 / 0x100 == w / 0x1_0000;
    assert w / 0x1_0000 / 0x100 == w / 0x100_0000;
  }

  /** w with byte k replaced. */
  function SetByteAt(w: Word, k: nat, b: Byte): Word
    requires k < 4
  {
    WordOf(if k == 0 then b else ByteAt(w, 0), if k == 1 then b else ByteAt(w, 1),
           if k == 2 then b else ByteAt(w, 2), if k == 3 then b else ByteAt(w, 3))
  }

  lemma SetByteAtBytes(w: Word, k: nat, b: Byte, j: nat)
    requires k < 4 && j < 4
    ensures ByteAt(SetByteAt(w, k, b), j) == if j == k then b else ByteAt(w, j)
  {
    hide ByteAt;
    WordBytes(if k == 0 then b else ByteAt(w, 0), if k == 1 then b else ByteAt(w, 1),
              if k == 2 then b else ByteAt(w, 2), if k == 3 then b else ByteAt(w, 3));
  }

  // ---------------------------------------------------------------- pages and bytes

  function PageByte(p: Page, o: nat): Byte
    requires o < PAGE_SIZE
  {
    ByteAt(p[o / 4], o % 4)
  }

  function SetPageByte(p: Page, o: nat, b: Byte): Page
    requires o < PAGE_SIZE
  {
    p[o / 4 := SetByteAt(p[o / 4], o % 4, b)]
  }

  lemma PageByteSet(p: Page, o: nat, b: Byte, x: nat)
    requires o < PAGE_SIZE && x < PAGE_SIZE
    ensures PageByte(SetPageByte(p, o, b), x) == if x == o then b else PageByte(p, x)
  {
    hide ByteAt, SetByteAt;
    if x / 4 == o / 4 {
      SetByteAtBytes(p[o / 4], o % 4, b, x % 4);
    }
  }

  /** A store to physical address `a`, as k_memcpy makes it through the identity mapping. */
  function PutByte(s: Vm, a: nat, b: Byte): (r: Vm)
    ensures SameShape(s, r) && r.bits == s.bits
  {
    SetFrame(s, a / PAGE_SIZE, SetPageByte(Frame(s, a / PAGE_SIZE), a % PAGE_SIZE, b))
  }

  /** memory_get_paddr: 0 only when the directory entry is absent. */
  function GetPaddr(s: Vm, d: nat, va: Word): nat {
    if HasTable(s, d, PdeIndex(va))
    then FrameOf(Frame(s, TableOf(s, d, PdeIndex(va)))[PteIndex(va)]) * PAGE_SIZE + va % PAGE_SIZE
    else 0
  }

  /** A load from virtual address va through directory d. */
  function ReadByte(s: Vm, d: nat, va: Word): Byte {
    PageByte(Frame(s, LeafOf(s, d, va / PAGE_SIZE)), va % PAGE_SIZE)
  }

  /** On a mapped page memory_get_paddr is the translation of the flat map. */
  lemma GetPaddrMapped(s: Vm, d: nat, va: Word)
    requires Mapped(s, d, va / PAGE_SIZE)
    ensures GetPaddr(s, d, va) == LeafOf(s, d, va / PAGE_SIZE) * PAGE_SIZE + va % PAGE_SIZE
    ensures GetPaddr(s, d, va) / PAGE_SIZE == LeafOf(s, d, va / PAGE_SIZE) && GetPaddr(s, d, va) % PAGE_SIZE == va % PAGE_SIZE
  {
  }

  // ---------------------------------------------------------------- writing user bytes

  /**
   * memory_create_map in terms of addresses: on success every address of the range
   * translates to paddr plus its offset, with the given permissions, and every other
   * address translates as before, also where a new table was inserted.
   */
  lemma CreateMapTranslates(s: Vm, d: nat, vaddr: Word, paddr: Word, count: nat, perm: Word, a: Word)
    requires WfVm(s) && WfDir(s, d) && perm < PAGE_SIZE && vaddr % PAGE_SIZE == 0 && paddr % PAGE_SIZE == 0
    requires vaddr + count * PAGE_SIZE <= WORD_END && paddr + count * PAGE_SIZE <= WORD_END
    requires CreateMap(s, d, vaddr, paddr, count, perm).outcome == Done
    ensures var t, n := CreateMap(s, d, vaddr, paddr, count, perm).vm, a / PAGE_SIZE;
            if vaddr <= a < vaddr + count * PAGE_SIZE
            then Mapped(t, d, n) && GetPaddr(t, d, a) == paddr + (a - vaddr) && Entry(t, d, n) % PAGE_SIZE == LowBits(perm)
            else Entry(t, d, n) == Entry(s, d, n)
  {
    hide CreateMap, Entry, MakePte, GetPaddr, WfDir;
    var t, n, v := CreateMap(s, d, vaddr, paddr, count, perm).vm, a / PAGE_SIZE, vaddr / PAGE_SIZE;
    var c := CreateMapRefines(s, d, vaddr, paddr, count, perm);
    var k := After(v, n);
    PageInRange(vaddr, count, a);
    if k < count {
      var f := paddr / PAGE_SIZE + k;
      assert paddr == paddr / PAGE_SIZE * PAGE_SIZE;
      assert (paddr + k * PAGE_SIZE) % WORD_END == f * PAGE_SIZE;
      FreshEntry(f, perm);
      GetPaddrMapped(t, d, a);
    }
  }

  lemma PageInRange(vaddr: Word, count: nat, a: Word)
    requires vaddr % PAGE_SIZE == 0 && vaddr + count * PAGE_SIZE <= WORD_END
    ensures vaddr <= a < vaddr + count * PAGE_SIZE <==> After(vaddr / PAGE_SIZE, a / PAGE_SIZE) < count
    ensures vaddr <= a ==> After(vaddr / PAGE_SIZE, a / PAGE_SIZE) * PAGE_SIZE + a % PAGE_SIZE == a - vaddr
  {
  }

  /** The pages of the n bytes at va are mapped user pages of d. */
  ghost predicate UserRange(s: Vm, d: nat, va: nat, n: nat) {
    USER_PAGE * PAGE_SIZE <= va && va + n <= WORD_END
    && forall x :: va <= x < va + n ==> Mapped(s, d, x / PAGE_SIZE)
  }

  /** One byte stored at a mapped user address: spaces and marks stay, and one byte of one frame changes. */
  lemma PutByteFacts(s: Vm, dirs: set<nat>, kern: set<nat>, owner: map<nat, Slot>, d: nat, va: Word, b: Byte)
    requires Owned(s, dirs, kern, owner) && d in dirs && USER_PAGE <= va / PAGE_SIZE && Mapped(s, d, va / PAGE_SIZE)
    ensures var t := PutByte(s, GetPaddr(s, d, va), b);
            var f := LeafOf(s, d, va / PAGE_SIZE);
            && Owned(t, dirs, kern, owner) && (forall e :: e in dirs ==> SameSpace(s, t, e))
            && f in owner && owner[f] == LeafSlot(d, va / PAGE_SIZE)
            && Frame(t, f) == SetPageByte(Frame(s, f), va % PAGE_SIZE, b)
            && (forall g: nat :: g != f ==> Frame(t, g) == Frame(s, g))
  {
    hide SpaceOwned, Holds, KernelOwned, Entry, SetPageByte, GetPaddr;
    GetPaddrMapped(s, d, va);
    LeafOwner(s, dirs, kern, owner, d, va / PAGE_SIZE);
    var f := LeafOf(s, d, va / PAGE_SIZE);
    DataWrite(s, dirs, kern, owner, f, SetPageByte(Frame(s, f), va % PAGE_SIZE, b));
  }

  /** Seen through d, exactly the byte at va changes. */
  lemma PutByteReads(s: Vm, dirs: set<nat>, kern: set<nat>, owner: map<nat, Slot>, d: nat, va: Word, b: Byte, x: Word)
    requires Owned(s, dirs, kern, owner) && d in dirs && USER_PAGE <= va / PAGE_SIZE && Mapped(s, d, va / PAGE_SIZE)
    requires USER_PAGE <= x / PAGE_SIZE && Mapped(s, d, x / PAGE_SIZE)
    ensures var t := PutByte(s, GetPaddr(s, d, va), b);
            ReadByte(t, d, x) == if x == va then b else ReadByte(s, d, x)
  {
    hide SpaceOwned, Holds, KernelOwned, PutByte, GetPaddr, SetPageByte, PageByte, Entry;
    PutByteFacts(s, dirs, kern, owner, d, va, b);
    LeafOwner(s, dirs, kern, owner, d, x / PAGE_SIZE);
    var f := LeafOf(s, d, va / PAGE_SIZE);
    PageByteSet(Frame(s, f), va % PAGE_SIZE, b, x % PAGE_SIZE);
  }
}
