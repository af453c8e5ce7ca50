/**
 * The byte-packed bitmap (src/kernel/lib/bitmap.c) and what it stands for: a
 * sequence of bits.
 */
module Bitmaps {
  // ---------------------------------------------------------------- bits

  /** bitmap_set_bit on the abstract bits: `count` bits from `index` on, clipped at the end. */
  function Fill(bits: seq<bool>, index: nat, count: nat, v: bool): (r: seq<bool>)
    ensures |r| == |bits|
    ensures forall i :: 0 <= i < |bits| ==> r[i] == if index <= i < index + count then v else bits[i]
    decreases count
  {
    if count == 0 || index >= |bits| then bits
    else Fill(bits[index := v], index + 1, count - 1, v)
  }

  function BitValue(b: bool): int {
    if b then 1 else 0
  }

  /** The m bits from k on exist and all equal `bit`. */
  predicate RunAt(bits: seq<bool>, bit: int, k: nat, m: nat) {
    k + m <= |bits| && forall i :: k <= i < k + m ==> BitValue(bits[i]) == bit
  }

  /** The lowest run of m bits at k or later, or -1. */
  function FirstRun(bits: seq<bool>, bit: int, m: nat, k: nat): (r: int)
    requires m > 0
    ensures r == -1 || (k <= r && RunAt(bits, bit, r, m))
    ensures forall j :: k <= j && (r == -1 || j < r) ==> !RunAt(bits, bit, j, m)
    decreases |bits| - k
  {
    if k >= |bits| then -1 else if RunAt(bits, bit, k, m) then k else FirstRun(bits, bit, m, k + 1)
  }

  /** How many bits bitmap_alloc_nbits looks at: the first bit twice, the last of two or more never. */
  function Probed(count: int): (m: nat)
    ensures m > 0
  {
    if count <= 2 then 1 else count - 1
  }

  /** bitmap_alloc_nbits(bit, count) on the abstract bits: the index and the bits afterwards. */
  function AllocBits(bits: seq<bool>, bit: int, count: int): (r: (int, seq<bool>))
    ensures |r.1| == |bits| && -1 <= r.0 < |bits|
  {
    var k := FirstRun(bits, bit, Probed(count), 0);
    if k == -1 then (-1, bits) else (k, Fill(bits, k, if count > 0 then count else 0, -1 - bit != 0))
  }

  /** A run at or after k that is not at k itself lies after every mismatch in between. */
  lemma SkipTo(bits: seq<bool>, bit: int, m: nat, k: nat, k': nat)
    requires m > 0 && k <= k'
    requires forall j :: k <= j < k' ==> !RunAt(bits, bit, j, m)
    ensures FirstRun(bits, bit, m, k) == FirstRun(bits, bit, m, k')
  {
  }

  /** A one-bit allocation takes the lowest clear bit, fails exactly when none is clear, and freeing it restores the bits. */
  lemma AllocOne(bits: seq<bool>)
    ensures var (k, after) := AllocBits(bits, 0, 1);
            && (k == -1 <==> forall i :: 0 <= i < |bits| ==> bits[i])
            && (k != -1 ==>
                  && !bits[k] && (forall i :: 0 <= i < k ==> bits[i])
                  && after == bits[k := true] && Fill(after, k, 1, false) == bits)
  {
    var k := FirstRun(bits, 0, 1, 0);
    if k == -1 {
      forall i | 0 <= i < |bits|
        ensures bits[i]
      {
        assert !RunAt(bits, 0, i, 1);
      }
    } else {
      assert RunAt(bits, 0, k, 1) && BitValue(bits[k]) == 0;
      forall i | 0 <= i < k
        ensures bits[i]
      {
        assert !RunAt(bits, 0, i, 1);
      }
      assert Fill(bits, k, 1, true) == bits[k := true];
      assert Fill(bits[k := true], k, 1, false) == bits;
    }
  }

  /** What an n-bit allocation should do: take the lowest n clear bits in a row. */
  function AllocRun(bits: seq<bool>, n: nat): (int, seq<bool>)
    requires n > 0
  {
    var k := FirstRun(bits, 0, n, 0);
    if k == -1 then (-1, bits) else (k, Fill(bits, k, n, true))
  }

  /**
   * For n >= 2 the code never looks at the last bit. It does what it should, in its index
   * and in every bit, if and only if the lowest n - 1 clear bits in a row, if there are
   * any, are followed by one more clear bit.
   */
  lemma AllocManyIsRightIff(bits: seq<bool>, n: nat)
    requires n >= 2
    ensures var k := FirstRun(bits, 0, n - 1, 0);
            AllocBits(bits, 0, n) == AllocRun(bits, n) <==> k == -1 || (k + n <= |bits| && !bits[k + n - 1])
  {
    var k := FirstRun(bits, 0, n - 1, 0);
    forall j: nat | RunAt(bits, 0, j, n)
      ensures RunAt(bits, 0, j, n - 1)
    {
    }
    if k != -1 {
      assert RunAt(bits, 0, k, n - 1);
      if k + n <= |bits| && !bits[k + n - 1] {
        assert RunAt(bits, 0, k, n);
      } else {
        assert !RunAt(bits, 0, k, n);
      }
    }
  }

  /** Asking for two bits when only the first is clear succeeds and takes the other one too. */
  lemma AllocTwoOverlaps()
    ensures AllocBits([false, true], 0, 2) == (0, [true, true])
  {
    assert RunAt([false, true], 0, 0, 1);
    assert FirstRun([false, true], 0, 1, 0) == 0;
    assert Fill([false, true], 0, 2, true) == [true, true];
  }

  // ---------------------------------------------------------------- bytes

  /** 1 << k. */
  function Mask(k: nat): bv8
    requires k < 8
  {
    if k == 0 then 1 else if k == 1 then 2 else if k == 2 then 4 else if k == 3 then 8
    else if k == 4 then 16 else if k == 5 then 32 else if k == 6 then 64 else 128
  }

  predicate ByteBit(b: bv8, k: nat)
    requires k < 8
  {
    b & Mask(k) != 0
  }

  /** Bit k of a byte set or cleared. */
  function WithBit(b: bv8, k: nat, v: bool): bv8
    requires k < 8
  {
    if v then b | Mask(k) else b & !Mask(k)
  }

  /** bitmap_get_bit on the bytes. */
  predicate PackedBit(bytes: seq<bv8>, i: nat)
    requires i < 8 * |bytes|
  {
    ByteBit(bytes[i / 8], i % 8)
  }

  function Unpack(bytes: seq<bv8>, n: nat): (r: seq<bool>)
    requires n <= 8 * |bytes|
    ensures |r| == n && forall i :: 0 <= i < n ==> r[i] == PackedBit(bytes, i)
  {
    seq(n, i requires 0 <= i < n => PackedBit(bytes, i))
  }

  /** One store of bitmap_set_bit. */
  function StoreBit(bytes: seq<bv8>, i: nat, v: bool): (r: seq<bv8>)
    requires i < 8 * |bytes|
    ensures |r| == |bytes|
  {
    bytes[i / 8 := WithBit(bytes[i / 8], i % 8, v)]
  }

  lemma StoreBitAt(bytes: seq<bv8>, i: nat, v: bool, j: nat)
    requires i < 8 * |bytes| && j < 8 * |bytes|
    ensures PackedBit(StoreBit(bytes, i, v), j) == if j == i then v else PackedBit(bytes, j)
  {
  }

  /** A packed store is a store in the sequence of bits. */
  lemma StoreBitUnpacks(bytes: seq<bv8>, n: nat, i: nat, v: bool)
    requires i < n <= 8 * |bytes|
    ensures Unpack(StoreBit(bytes, i, v), n) == Unpack(bytes, n)[i := v]
  {
    hide PackedBit, StoreBit;
    forall j | 0 <= j < n
      ensures Unpack(StoreBit(bytes, i, v), n)[j] == Unpack(bytes, n)[i := v][j]
    {
      StoreBitAt(bytes, i, v, j);
    }
  }

  lemma FillStep(bits: seq<bool>, index: nat, count: nat, v: bool)
    requires index < |bits| && count > 0
    ensures Fill(bits, index, count, v) == Fill(bits[index := v], index + 1, count - 1, v)
  {
  }

  lemma FillDone(bits: seq<bool>, index: nat, count: nat, v: bool)
    requires index >= |bits| || count == 0
    ensures Fill(bits, index, count, v) == bits
  {
  }

  lemma ConstantByte(k: nat)
    requires k < 8
    ensures ByteBit(0xFF, k) && !ByteBit(0, k)
  {
  }

  // ---------------------------------------------------------------- the code

  class Bitmap {
    const bitCount: nat
    const bytes: array<bv8>

    ghost predicate Valid()
    {
      bytes.Length == (bitCount + 7) / 8
    }

    /** The bits the bytes stand for. */
    ghost function Bits(): (r: seq<bool>)
      requires Valid()
      reads bytes
      ensures |r| == bitCount
    {
      Unpack(bytes[..], bitCount)
    }

    /** bitmap_init: every bit is `init`. */
    constructor (count: nat, init: bool)
      ensures Valid() && fresh(bytes) && bitCount == count
      ensures Bits() == seq(count, _ => init)
    {
      bitCount := count;
      bytes := new bv8[(count + 7) / 8](_ => if init then 0xFF else 0);
      new;
      forall i | 0 <= i < count
        ensures PackedBit(bytes[..], i) == init
      {
        ConstantByte(i % 8);
      }
    }

    /** bitmap_get_bit. */
    function GetBit(index: nat): (b: bool)
      requires Valid() && index < bitCount
      reads bytes
      ensures b == Bits()[index]
    {
      ByteBit(bytes[index / 8], index % 8)
    }

    method StoreOne(index: nat, v: bool)
      requires Valid() && index < bitCount
      modifies bytes
      ensures Bits() == old(Bits())[index := v]
    {
      hide WithBit, Unpack;
      ghost var before := bytes[..];
      StoreBitUnpacks(before, bitCount, index, v);
      bytes[index / 8] := WithBit(bytes[index / 8], index % 8, v);
      assert bytes[..] == StoreBit(before, index, v);
    }

    /** bitmap_set_bit. */
    method SetBits(index: nat, count: nat, v: bool)
      requires Valid()
      modifies bytes
      ensures Bits() == Fill(old(Bits()), index, count, v)
    {
      hide Unpack, Fill;
      var i, idx := 0, index;
      while i < count && idx < bitCount
        invariant i <= count && idx == index + i
        invariant Fill(Bits(), idx, count - i, v) == Fill(old(Bits()), index, count, v)
      {
        FillStep(Bits(), idx, count - i, v);
        StoreOne(idx, v);
        i, idx := i + 1, idx + 1;
      }
      FillDone(Bits(), idx, count - i, v);
    }

    /** bitmap_alloc_nbits. */
    method AllocNbits(bit: int, count: int) returns (found: int)
      requires Valid()
      modifies bytes
      ensures (found, Bits()) == AllocBits(old(Bits()), bit, count)
    {
      hide Unpack, PackedBit, ByteBit, Fill;
      ghost var bits, m := Bits(), Probed(count);
      var search := 0;
      while search < bitCount
        invariant search <= bitCount && Bits() == bits
        invariant FirstRun(bits, bit, m, 0) == FirstRun(bits, bit, m, search)
        decreases bitCount - search
      {
        if BitValue(GetBit(search)) != bit {
          assert !RunAt(bits, bit, search, m);
          search := search + 1;
        } else {
          var ok := search;
          ghost var start := search;
          var i := 1;
          while i < count && search < bitCount
            invariant 1 <= i && (count >= 1 ==> i <= count) && start <= search <= bitCount
            invariant search == start + i - 1 && ok == start
            invariant forall j :: start <= j < search ==> BitValue(bits[j]) == bit
          {
            var b := GetBit(search);
            search := search + 1;
            if BitValue(b) != bit {
              ok := -1;
              break;
            }
            i := i + 1;
          }
          if i >= count {
            assert RunAt(bits, bit, start, m);
            SetBits(ok, if count > 0 then count else 0, -1 - bit != 0);
            return ok;
          }
          forall j | start <= j < search
            ensures !RunAt(bits, bit, j, m)
          {
            if ok == -1 {
              assert BitValue(bits[search - 1]) != bit;
            }
          }
          SkipTo(bits, bit, m, start, search);
        }
      }
      return -1;
    }
  }
}
