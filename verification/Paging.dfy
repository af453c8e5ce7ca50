/**
 * Words, pages and the two-level page-table layout of 32-bit paging
 * (src/kernel/include/mmu.h and src/kernel/include/mem.h).
 *
 * Machine words are naturals below 2^32. The bit operators of the source are
 * defined bit by bit, and the lemmas below say which field each one selects.
 */
module Paging {
  const PAGE_SIZE := 4096
  const ENTRIES := 1024
  /** Number of pages of a 32-bit address space. */
  const VPAGES := 0x10_0000
  /** First page, and first directory entry, of the user half (MEMORY_TASK_BASE). */
  const USER_PAGE := 0x8_0000
  const USER_PDE := 512
  const WORD_END := 0x1_0000_0000

  type Word = w: int | 0 <= w < 0x1_0000_0000
  type Page = p: seq<Word> | |p| == 1024 witness seq(1024, _ => 0)

  const PTE_P := 1
  const PTE_W := 2
  const PTE_U := 4

  // ---------------------------------------------------------------- bit operators

  function Pow2(k: nat): (r: nat)
    ensures r > 0
  {
    if k == 0 then 1 else 2 * Pow2(k - 1)
  }

  function BitOr(a: nat, b: nat): (r: nat)
    decreases a + b
  {
    if a == 0 && b == 0 then 0
    else 2 * BitOr(a / 2, b / 2) + (if a % 2 == 1 || b % 2 == 1 then 1 else 0)
  }

  function BitAnd(a: nat, b: nat): (r: nat)
    decreases a
  {
    if a == 0 then 0
    else 2 * BitAnd(a / 2, b / 2) + (if a % 2 == 1 && b % 2 == 1 then 1 else 0)
  }

  lemma {:induction false} OrWithZero(a: nat)
    ensures BitOr(a, 0) == a
    decreases a
  {
    if a != 0 {
      OrWithZero(a / 2);
    }
  }

  lemma {:induction false} OrBound(a: nat, b: nat, k: nat)
    requires a < Pow2(k) && b < Pow2(k)
    ensures BitOr(a, b) < Pow2(k)
    decreases k
  {
    if k != 0 {
      OrBound(a / 2, b / 2, k - 1);
    }
  }

  /** Operands with no bit in common: `|` is `+`. */
  lemma {:induction false} OrDisjoint(hi: nat, lo: nat, k: nat)
    requires lo < Pow2(k)
    ensures BitOr(hi * Pow2(k), lo) == hi * Pow2(k) + lo
    decreases k
  {
    if k == 0 {
      OrWithZero(hi);
    } else {
      var p := Pow2(k - 1);
      assert hi * Pow2(k) == 2 * (hi * p);
      assert (hi * Pow2(k)) / 2 == hi * p;
      OrDisjoint(hi, lo / 2, k - 1);
    }
  }

  /** Masking with 2^k - 1 keeps the low k bits. */
  lemma {:induction false} AndLowMask(a: nat, k: nat)
    ensures BitAnd(a, Pow2(k) - 1) == a % Pow2(k)
    decreases k
  {
    if k == 0 {
      AndWithZero(a);
    } else {
      var p := Pow2(k - 1);
      assert (Pow2(k) - 1) / 2 == p - 1 && (Pow2(k) - 1) % 2 == 1;
      if a != 0 {
        AndLowMask(a / 2, k - 1);
        ModStep(a, p);
      }
    }
  }

  lemma ModStep(a: nat, p: nat)
    requires p > 0
    ensures a % (2 * p) == 2 * ((a / 2) % p) + a % 2
  {
    var q, r := (a / 2) / p, (a / 2) % p;
    assert a / 2 == q * p + r;
    assert a == q * (2 * p) + (2 * r + a % 2);
    ModUnique(a, 2 * p, q, 2 * r + a % 2);
  }

  lemma ModUnique(a: int, m: int, q: int, r: int)
    requires m > 0 && 0 <= r < m && a == q * m + r
    ensures a % m == r && a / m == q
  {
    var q', r' := a / m, a % m;
    var d := q - q';
    assert d * m == r' - r;
    if d >= 1 {
      MulGrows(d, m);
    } else if d <= -1 {
      MulGrows(-d, m);
    }
  }

  lemma MulGrows(d: int, m: int)
    requires d >= 1 && m > 0
    ensures d * m >= m
  {
  }

  lemma {:induction false} AndWithZero(a: nat)
    ensures BitAnd(a, 0) == 0
    decreases a
  {
    if a != 0 {
      AndWithZero(a / 2);
    }
  }

  /** Masking with the complement of 2^k - 1 in an n-bit word clears the low k bits. */
  lemma {:induction false} AndHighMask(a: nat, k: nat, n: nat)
    requires k <= n && a < Pow2(n)
    ensures Pow2(k) <= Pow2(n)
    ensures BitAnd(a, Pow2(n) - Pow2(k)) == a - a % Pow2(k)
    decreases k
  {
    if k == 0 {
      AndLowMask(a, n);
      ModUnique(a, Pow2(n), 0, a);
    } else {
      var p, h := Pow2(k - 1), Pow2(n - 1);
      HalfBound(a, h);
      AndHighMask(a / 2, k - 1, n - 1);
      AndEven(a, h - p);
      ModStep(a, p);
      assert Pow2(n) - Pow2(k) == 2 * (h - p);
    }
  }

  lemma HalfBound(a: nat, h: nat)
    requires a < 2 * h
    ensures a / 2 < h
  {
  }

  lemma AndEven(a: nat, half: nat)
    ensures BitAnd(a, 2 * half) == 2 * BitAnd(a / 2, half)
  {
    assert (2 * half) / 2 == half && (2 * half) % 2 == 0;
  }

  lemma PowValues()
    ensures Pow2(9) == 512 && Pow2(10) == 1024 && Pow2(12) == 4096 && Pow2(32) == 0x1_0000_0000
  {
    assert Pow2(4) == 16 && Pow2(8) == 256;
    assert Pow2(9) == 512 && Pow2(10) == 1024 && Pow2(12) == 4096;
    assert Pow2(16) == 65536 && Pow2(20) == 0x10_0000 && Pow2(24) == 0x100_0000 && Pow2(28) == 0x1000_0000;
  }

  // ---------------------------------------------------------------- rounding (mem.h)

  /** `size & ~(bound - 1)` for the page size. */
  function Down2(size: Word): (r: Word)
    ensures r <= size && r % PAGE_SIZE == 0 && size - r < PAGE_SIZE
  {
    PowValues();
    AndHighMask(size, 12, 32);
    BitAnd(size, WORD_END - PAGE_SIZE)
  }

  /** 32-bit wrap-around of a sum of two words. */
  lemma Wrap(a: nat)
    requires a < 2 * WORD_END
    ensures a % WORD_END == if a < WORD_END then a else a - WORD_END
  {
  }

  /** `(size + bound - 1) & ~(bound - 1)` for the page size, in 32-bit arithmetic. */
  function Up2(size: Word): (r: Word)
    ensures r % PAGE_SIZE == 0
    ensures size <= WORD_END - PAGE_SIZE ==> size <= r < size + PAGE_SIZE
    ensures size > WORD_END - PAGE_SIZE ==> r == 0
  {
    Wrap(size + PAGE_SIZE - 1);
    var sum: Word := (size + PAGE_SIZE - 1) % WORD_END;
    Down2(sum)
  }

  // ---------------------------------------------------------------- entries (mmu.h)

  predicate Present(w: Word) {
    w % 2 == 1
  }

  /** The frame a directory or table entry points to (bits 12..31). */
  function FrameOf(w: Word): (f: nat)
    ensures f < VPAGES
  {
    w / PAGE_SIZE
  }

  /** `get_pte_perm`: the low nine bits. */
  function PermOf(w: Word): (r: Word)
    ensures r == w % 512
  {
    PowValues();
    AndLowMask(w, 9);
    BitAnd(w, 0x1FF)
  }

  function PdeIndex(vaddr: Word): (i: nat)
    ensures i == vaddr / PAGE_SIZE / ENTRIES && i < ENTRIES
  {
    vaddr / 0x40_0000
  }

  function PteIndex(vaddr: Word): (j: nat)
    ensures j == vaddr / PAGE_SIZE % ENTRIES && j < ENTRIES
  {
    PowValues();
    AndLowMask(vaddr / PAGE_SIZE, 10);
    BitAnd(vaddr / PAGE_SIZE, 0x3FF)
  }

  /** `paddr | perm | PTE_P`. */
  function MakePte(paddr: Word, perm: Word): (w: Word)
  {
    PowValues();
    OrBound(paddr, perm, 32);
    OrBound(BitOr(paddr, perm), 1, 32);
    BitOr(BitOr(paddr, perm), PTE_P)
  }

  /** `paddr | PDE_P | PDE_W | PDE_U`. */
  function MakePde(paddr: Word): (w: Word)
  {
    PowValues();
    OrBound(paddr, 1, 32);
    OrBound(BitOr(paddr, 1), 2, 32);
    OrBound(BitOr(BitOr(paddr, 1), 2), 4, 32);
    BitOr(BitOr(BitOr(paddr, PTE_P), PTE_W), PTE_U)
  }

  /** `|` one bit at a time, lowest bit last. */
  lemma OrStep(a: nat, b: nat, x: nat, y: nat)
    requires x < 2 && y < 2
    ensures BitOr(2 * a + x, 2 * b + y) == 2 * BitOr(a, b) + (if x == 1 || y == 1 then 1 else 0)
  {
  }

  lemma OrOne(a: nat)
    ensures BitOr(a, 1) == if a % 2 == 1 then a else a + 1
  {
    OrWithZero(a / 2);
    OrStep(a / 2, 0, a % 2, 1);
  }

  /** A page-aligned address keeps its frame field and the permissions keep theirs. */
  lemma MakePteFields(f: nat, perm: Word)
    requires f < VPAGES && perm < PAGE_SIZE
    ensures var w := MakePte(f * PAGE_SIZE, perm);
            w == f * PAGE_SIZE + (if perm % 2 == 1 then perm else perm + 1)
  {
    PowValues();
    OrDisjoint(f, perm, 12);
    OrOne(f * PAGE_SIZE + perm);
  }

  lemma MakePdeFields(f: nat)
    requires f < VPAGES
    ensures MakePde(f * PAGE_SIZE) == f * PAGE_SIZE + 7
  {
    PowValues();
    OrDisjoint(f, 1, 12);
    OrFew(f * 512);
  }

  lemma OrFew(h: nat)
    ensures BitOr(8 * h + 1, 2) == 8 * h + 3 && BitOr(8 * h + 3, 4) == 8 * h + 7
  {
    OrWithZero(2 * h);
    OrStep(2 * h, 0, 0, 1);
    OrStep(2 * (2 * h) , 1, 1, 0);
    OrTop(h);
  }

  lemma OrTop(h: nat)
    ensures BitOr(8 * h + 3, 4) == 8 * h + 7
  {
    OrWithZero(h);
    OrStep(h, 0, 0, 1);
    OrStep(2 * h, 1, 1, 0);
    OrStep(4 * h + 1, 2, 1, 0);
  }

  /** The fields of an entry with frame `f` and low bits `low`. */
  lemma EntryFields(f: nat, low: nat)
    requires f < VPAGES && low < PAGE_SIZE
    ensures f * PAGE_SIZE + low < WORD_END
    ensures FrameOf(f * PAGE_SIZE + low) == f && (f * PAGE_SIZE + low) % PAGE_SIZE == low
    ensures PermOf(f * PAGE_SIZE + low) == low % 512 && Present(f * PAGE_SIZE + low) == (low % 2 == 1)
  {
    ModUnique(f * PAGE_SIZE + low, PAGE_SIZE, f, low);
    LowField(f, low, 8, 512);
    LowField(f, low, 2048, 2);
  }

  lemma LowField(f: nat, low: nat, k: nat, m: nat)
    requires m > 0 && k * m == PAGE_SIZE
    ensures (f * PAGE_SIZE + low) % m == low % m
  {
    var q, r := low / m, low % m;
    assert f * PAGE_SIZE == (f * k) * m;
    assert (f * k + q) * m == (f * k) * m + q * m;
    ModUnique(f * PAGE_SIZE + low, m, f * k + q, r);
  }
}
