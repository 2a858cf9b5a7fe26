/**
 * The physical memory manager: a bitmap with one bit per 4 KiB block, a set
 * bit meaning the block is in use. Blocks are allocated as runs starting
 * at the block a first-fit scan of the bitmap accepts. The scan as written
 * (`FirstFreeAsWritten`) probes for block i*32 + j from i*32 + (1 << j), so
 * the block it accepts need not start n free blocks; `FirstRun` is the
 * first fit it was meant to compute.
 *
 * The bitmap is an array of 32-bit words; block b is bit b % 32 of word
 * b / 32. A block past the end of the bitmap is treated as in use.
 */
module Pmm {

  import opened Base

  const BLOCK_SIZE: nat := 4096
  const BITS_PER_BYTE: nat := 8

  /**
   * Bit number k of a word, as a shift amount. Counted up from 0 rather than
   * converted, so that a block number never turns into a bit-vector
   * conversion; BitOfValue gives its value.
   */
  function BitOf(k: nat): bv5
    requires k < 32
  {
    if k == 0 then 0 else BitOf(k - 1) + 1
  }

  /** BitOf(k) is the number k. */
  lemma {:induction false} BitOfValue(k: nat)
    requires k < 32
    ensures BitOf(k) as int == k
  {
    if k > 0 {
      BitOfValue(k - 1);
    }
  }

  /** Distinct bit numbers give distinct shift amounts. */
  lemma BitOfInjective(j: nat, k: nat)
    requires j < 32 && k < 32
    ensures BitOf(j) == BitOf(k) <==> j == k
  {
    BitOfValue(j);
    BitOfValue(k);
  }

  /** Whether bit k of `w` is set: `w & (1 << k)`. */
  predicate BitSet(w: bv32, k: bv5)
  {
    w & (1 << k) != 0
  }

  /** `w |= 1 << k`. */
  function SetBit(w: bv32, k: bv5): bv32
  {
    w | (1 << k)
  }

  /** `w &= ~(1 << k)`. */
  function ClearBit(w: bv32, k: bv5): bv32
  {
    w & !(1 << k)
  }

  /** Two distinct single-bit masks share no bit. */
  lemma ShiftDisjoint(k: bv5, j: bv5)
    requires j != k
    ensures (1 as bv32 << k) & (1 << j) == 0
  {
  }

  /** A single-bit mask is not zero. */
  lemma ShiftNonzero(k: bv5)
    ensures (1 as bv32 << k) != 0
  {
  }

  /** Setting the bits of `m` sets them. */
  lemma OrSelf(w: bv32, m: bv32)
    ensures (w | m) & m == m
  {
  }

  /** Setting the bits of `m` does not touch bits outside `m`. */
  lemma OrOther(w: bv32, m: bv32, n: bv32)
    requires m & n == 0
    ensures (w | m) & n == w & n
  {
  }

  /** Clearing the bits of `m` does not touch bits outside `m`. */
  lemma AndNotAnd(w: bv32, m: bv32, n: bv32)
    requires m & n == 0
    ensures (w & !m) & n == w & n
  {
  }

  /** Clearing the bits of `m` clears them. */
  lemma AndNotSelf(w: bv32, m: bv32)
    ensures (w & !m) & m == 0
  {
  }

  lemma SetSame(w: bv32, k: bv5)
    ensures BitSet(SetBit(w, k), k)
  {
    OrSelf(w, 1 << k);
    ShiftNonzero(k);
  }

  lemma SetOther(w: bv32, k: bv5, j: bv5)
    requires j != k
    ensures BitSet(SetBit(w, k), j) == BitSet(w, j)
  {
    ShiftDisjoint(k, j);
    OrOther(w, 1 << k, 1 << j);
  }

  /** Setting bit k sets it and leaves every other bit as it was. */
  lemma SetBitEffect(w: bv32, k: bv5, j: bv5)
    ensures BitSet(SetBit(w, k), j) <==> j == k || BitSet(w, j)
  {
    if j == k {
      SetSame(w, k);
    } else {
      SetOther(w, k, j);
    }
  }

  lemma ClearSame(w: bv32, k: bv5)
    ensures !BitSet(ClearBit(w, k), k)
  {
    AndNotSelf(w, 1 << k);
  }

  lemma ClearOther(w: bv32, k: bv5, j: bv5)
    requires j != k
    ensures BitSet(ClearBit(w, k), j) == BitSet(w, j)
  {
    ShiftDisjoint(k, j);
    AndNotAnd(w, 1 << k, 1 << j);
  }

  /** Clearing bit k clears it and leaves every other bit as it was. */
  lemma ClearBitEffect(w: bv32, k: bv5, j: bv5)
    ensures BitSet(ClearBit(w, k), j) <==> j != k && BitSet(w, j)
  {
    if j == k {
      ClearSame(w, k);
    } else {
      ClearOther(w, k, j);
    }
  }

  /** A full word has every bit set. */
  lemma FullWord(w: bv32, k: bv5)
    requires w == 0xFFFF_FFFF
    ensures BitSet(w, k)
  {
  }

  /** Whether block `b` lies in the bitmap and its bit is clear. */
  predicate Free(bits: seq<bv32>, b: nat)
  {
    b / 32 < |bits| && !BitSet(bits[b / 32], BitOf(b % 32))
  }

  /** Block number j of word i. */
  function Block(i: nat, j: nat): nat
  {
    i * 32 + j
  }

  /** Block i*32 + j is bit j of word i. */
  lemma BlockOfWord(i: nat, j: nat)
    requires j < 32
    ensures (i * 32 + j) / 32 == i && (i * 32 + j) % 32 == j
  {
  }

  /** The number of free blocks among the `k` blocks from `s`. */
  function CountFree(bits: seq<bv32>, s: nat, k: nat): (c: nat)
    ensures c <= k
  {
    if k == 0 then 0 else CountFree(bits, s, k - 1) + (if Free(bits, s + k - 1) then 1 else 0)
  }

  /** Probing one more block adds one exactly when that block is free. */
  lemma CountFreeStep(bits: seq<bv32>, s: nat, k: nat, used: bool)
    requires used <==> !Free(bits, s + k)
    ensures CountFree(bits, s, k + 1) == CountFree(bits, s, k) + if used then 0 else 1
  {
  }

  /** The count never shrinks as more blocks are probed. */
  lemma {:induction false} CountFreeMono(bits: seq<bv32>, s: nat, k: nat, m: nat)
    requires k <= m
    ensures CountFree(bits, s, k) <= CountFree(bits, s, m)
  {
    if k < m {
      CountFreeMono(bits, s, k, m - 1);
    }
  }

  /** All `k` blocks from `s` are free exactly when the count of free ones is `k`. */
  lemma {:induction false} CountFreeAll(bits: seq<bv32>, s: nat, k: nat)
    ensures CountFree(bits, s, k) == k <==> forall b :: s <= b < s + k ==> Free(bits, b)
  {
    if k > 0 {
      CountFreeAll(bits, s, k - 1);
      if CountFree(bits, s, k) == k {
        assert CountFree(bits, s, k - 1) == k - 1 && Free(bits, s + k - 1);
      }
    }
  }

  // ---- The first-fit scan as written -------------------------------------

  /** 2 to the power k, the value of `1 << k`; it lies above k. */
  function Pow2(k: nat): (r: nat)
    ensures r > k
  {
    if k == 0 then 1 else 2 * Pow2(k - 1)
  }

  /** The 32-bit mask `1 << k` denotes 2 to the power k. */
  lemma {:induction false} ShiftIsPow2(k: nat)
    requires k < 32
    ensures ((1 as bv32) << BitOf(k)) as nat == Pow2(k)
  {
    if k > 0 {
      ShiftIsPow2(k - 1);
      BitOfValue(k - 1);
      assert BitOf(k) == BitOf(k - 1) + 1;
      assert (1 as bv32) << BitOf(k) == ((1 as bv32) << BitOf(k - 1)) << 1;
    }
  }

  /**
   * Where the scan as written starts probing for block p = i*32 + j:
   * i*32 + (1 << j), not i*32 + j; it always lies past p.
   */
  function ProbeStart(p: nat): (s: nat)
    ensures p < s
  {
    (p / 32) * 32 + Pow2(p % 32)
  }

  /** The scan as written accepts free block p when n of the n+1 probes from `ProbeStart(p)` are free. */
  predicate HitAsWritten(bits: seq<bv32>, p: nat, n: nat)
  {
    Free(bits, p) && CountFree(bits, ProbeStart(p), n + 1) >= n
  }

  /** `find_first_free_blocks` as written: the first block below `limit` the scan accepts, or -1. */
  function FirstFreeAsWritten(bits: seq<bv32>, limit: nat, n: nat, p: nat): (r: int)
    decreases limit - p
  {
    if n == 0 || p >= limit then -1
    else if HitAsWritten(bits, p, n) then p
    else FirstFreeAsWritten(bits, limit, n, p + 1)
  }

  /**
   * The scan as written is -1 exactly when no block from `p` below `limit`
   * is accepted (always for n == 0), and otherwise the least accepted
   * block.
   */
  lemma {:induction false} FirstFreeAsWrittenIsFirst(bits: seq<bv32>, limit: nat, n: nat, p: nat)
    ensures var r := FirstFreeAsWritten(bits, limit, n, p);
      (r == -1 <==> n == 0 || forall q :: p <= q < limit ==> !HitAsWritten(bits, q, n)) &&
      (r != -1 ==> p <= r < limit && HitAsWritten(bits, r, n) &&
                   forall q :: p <= q < r ==> !HitAsWritten(bits, q, n))
    decreases limit - p
  {
    if n > 0 && p < limit && !HitAsWritten(bits, p, n) {
      FirstFreeAsWrittenIsFirst(bits, limit, n, p + 1);
      var r := FirstFreeAsWritten(bits, limit, n, p + 1);
      assert FirstFreeAsWritten(bits, limit, n, p) == r;
      forall q | p <= q < (if r == -1 then limit else r)
        ensures !HitAsWritten(bits, q, n)
      {
        if q > p {
          assert p + 1 <= q;
        }
      }
    }
  }

  /** One step of the scan as written: block p is the answer if accepted, else the scan goes on at p + 1. */
  lemma FirstFreeAsWrittenStep(bits: seq<bv32>, limit: nat, n: nat, p: nat)
    requires n > 0 && p < limit
    ensures HitAsWritten(bits, p, n) ==> FirstFreeAsWritten(bits, limit, n, p) == p
    ensures !HitAsWritten(bits, p, n) ==> FirstFreeAsWritten(bits, limit, n, p) == FirstFreeAsWritten(bits, limit, n, p + 1)
  {
  }

  /** The scan as written passes over the 32 blocks of a full word, from bit j on. */
  lemma {:induction false} FullWordSkipped(bits: seq<bv32>, limit: nat, n: nat, i: nat, j: nat)
    requires i < |bits| && bits[i] == 0xFFFF_FFFF && j <= 32
    ensures FirstFreeAsWritten(bits, limit, n, Block(i, j)) == FirstFreeAsWritten(bits, limit, n, Block(i, 32))
    decreases 32 - j
  {
    if j < 32 {
      BlockOfWord(i, j);
      FullWord(bits[i], BitOf(j));
      FullWordSkipped(bits, limit, n, i, j + 1);
      assert Block(i, j + 1) == Block(i, j) + 1;
    }
  }

  /** When at least m >= 1 of the k blocks from s are free, one of them at s + m - 1 or later is. */
  lemma {:induction false} LastFree(bits: seq<bv32>, s: nat, k: nat, m: nat) returns (b: nat)
    requires 1 <= m <= CountFree(bits, s, k)
    ensures s + m - 1 <= b < s + k && Free(bits, b)
  {
    if Free(bits, s + k - 1) {
      b := s + k - 1;
    } else {
      b := LastFree(bits, s, k - 1, m);
    }
  }

  /**
   * An accepted block p starts n blocks that all lie in the bitmap: n of
   * the probes past p are free, so the bitmap reaches beyond p + n - 1.
   */
  lemma HitInBitmap(bits: seq<bv32>, p: nat, n: nat)
    requires n > 0 && HitAsWritten(bits, p, n)
    ensures forall b: nat :: p <= b < p + n ==> b / 32 < |bits|
  {
    var last := LastFree(bits, ProbeStart(p), n + 1, n);
    forall b: nat | p <= b < p + n
      ensures b / 32 < |bits|
    {
      assert b / 32 <= last / 32;
    }
  }

  /**
   * For a single block the scan as written answers with a free block, never
   * before the first free block the first fit finds.
   */
  lemma SingleBlockAsWritten(bits: seq<bv32>, limit: nat, p: nat)
    ensures var r := FirstFreeAsWritten(bits, limit, 1, p);
      r != -1 ==> p <= r && RunFree(bits, r, 1) && p <= FirstRun(bits, limit, 1, p) <= r
  {
    var r := FirstFreeAsWritten(bits, limit, 1, p);
    FirstFreeAsWrittenIsFirst(bits, limit, 1, p);
    FirstRunIsFirst(bits, limit, 1, p);
    if r != -1 {
      CountFreeAll(bits, r, 1);
      assert RunFree(bits, r, 1);
    }
  }

  /**
   * With word 0 = 0xFFFFFFF2 (blocks 0, 2 and 3 free, block 1 used) a
   * request for two blocks is answered with block 0, so the allocator
   * hands out the used block 1; the first two free consecutive blocks are
   * 2 and 3.
   */
  lemma FirstFreeAsWrittenOverlaps()
    ensures FirstFreeAsWritten([0xFFFF_FFF2], 32, 2, 0) == 0
    ensures !Free([0xFFFF_FFF2], 1)
    ensures FirstRun([0xFFFF_FFF2], 32, 2, 0) == 2
  {
    var bits: seq<bv32> := [0xFFFF_FFF2];
    assert Free(bits, 0) && !Free(bits, 1) && Free(bits, 2) && Free(bits, 3);
    assert ProbeStart(0) == 1;
    assert CountFree(bits, 1, 3) == 2;
    assert !Free(bits, 0 + 1);
    assert CountFree(bits, 0, 2) == 1;
    assert !Free(bits, 1) && CountFree(bits, 1, 2) == 1;
    assert CountFree(bits, 2, 2) == 2;
  }

  // ---- The first-fit scan as intended ------------------------------------

  /** Whether the `n` blocks from `p` are all free. */
  predicate RunFree(bits: seq<bv32>, p: nat, n: nat)
  {
    CountFree(bits, p, n) == n
  }

  /** The first block below `limit`, from `p` on, that starts `n` free blocks; -1 if none. */
  function FirstRun(bits: seq<bv32>, limit: nat, n: nat, p: nat): (r: int)
    decreases limit - p
  {
    if n == 0 || p >= limit then -1
    else if RunFree(bits, p, n) then p
    else FirstRun(bits, limit, n, p + 1)
  }

  /**
   * `FirstRun` is first fit: it is -1 exactly when no block from `p` below
   * `limit` starts a free run of n > 0 blocks, and otherwise the least
   * block that does.
   */
  lemma {:induction false} FirstRunIsFirst(bits: seq<bv32>, limit: nat, n: nat, p: nat)
    ensures var r := FirstRun(bits, limit, n, p);
      (r == -1 <==> n == 0 || forall q :: p <= q < limit ==> !RunFree(bits, q, n)) &&
      (r != -1 ==> p <= r < limit && (forall b :: r <= b < r + n ==> Free(bits, b)) &&
                   forall q :: p <= q < r ==> !RunFree(bits, q, n))
    decreases limit - p
  {
    if n > 0 && p < limit {
      if RunFree(bits, p, n) {
        CountFreeAll(bits, p, n);
      } else {
        FirstRunIsFirst(bits, limit, n, p + 1);
        var r := FirstRun(bits, limit, n, p + 1);
        assert FirstRun(bits, limit, n, p) == r;
        forall q | p <= q < (if r == -1 then limit else r)
          ensures !RunFree(bits, q, n)
        {
          if q > p {
            assert p + 1 <= q;
          }
        }
      }
    }
  }

  /** A block among the first `bytes` bytes lies in a bitmap of at least bytes / 4 words. */
  lemma MemsetCovers(bytes: nat, b: nat, words: nat)
    requires bytes <= 4 * words && b < bytes * 8
    ensures b / 32 < words
  {
  }

  /** Setting the bit of block `bit` in its word makes that block used and no other. */
  lemma SetBlockEffect(before: seq<bv32>, bit: nat, after: seq<bv32>)
    requires bit / 32 < |before|
    requires after == before[bit / 32 := SetBit(before[bit / 32], BitOf(bit % 32))]
    ensures forall b: nat :: Free(after, b) <==> b != bit && Free(before, b)
  {
    forall b: nat
      ensures Free(after, b) <==> b != bit && Free(before, b)
    {
      if b / 32 == bit / 32 {
        SetBitEffect(before[bit / 32], BitOf(bit % 32), BitOf(b % 32));
        BitOfInjective(b % 32, bit % 32);
      }
    }
  }

  /** Clearing the bit of block `bit` in its word makes that block free and no other. */
  lemma UnsetBlockEffect(before: seq<bv32>, bit: nat, after: seq<bv32>)
    requires bit / 32 < |before|
    requires after == before[bit / 32 := ClearBit(before[bit / 32], BitOf(bit % 32))]
    ensures forall b: nat :: Free(after, b) <==> b == bit || Free(before, b)
  {
    forall b: nat
      ensures Free(after, b) <==> b == bit || Free(before, b)
    {
      if b / 32 == bit / 32 {
        ClearBitEffect(before[bit / 32], BitOf(bit % 32), BitOf(b % 32));
        BitOfInjective(b % 32, bit % 32);
      } else {
        assert b != bit && (b / 32 < |after| ==> after[b / 32] == before[b / 32]);
      }
    }
  }

  /** Block i*32 + j is free exactly when bit j of word i is clear. */
  lemma FreeOfBit(bits: seq<bv32>, i: nat, j: nat)
    requires i < |bits| && j < 32
    ensures Free(bits, i * 32 + j) <==> !BitSet(bits[i], BitOf(j))
  {
    BlockOfWord(i, j);
  }

  /** The probes for block i*32 + j start at i*32 + 2^j. */
  lemma ProbeStartOf(i: nat, j: nat)
    requires j < 32
    ensures ProbeStart(i * 32 + j) == i * 32 + Pow2(j)
  {
    BlockOfWord(i, j);
  }

  /** Every block of a word below `w` lies below the scan limit `w * 32`. */
  lemma WordBelowLimit(i: nat, w: nat)
    requires i < w
    ensures i * 32 + 32 <= w * 32
  {
  }

  /** `PhysicalMemoryManager`: the bitmap and the count of blocks in use. */
  class PhysicalMemoryManager {
    var memoryMap: array<bv32>
    var maxBlocks: nat
    var usedBlocks: nat

    /** The bitmap covers the blocks the scan visits, and the count is a `u32`. */
    ghost predicate Valid()
      reads this
    {
      maxBlocks / 32 <= memoryMap.Length && usedBlocks < U32_MOD
    }

    /** The blocks whose bits the scan visits: whole words below `maxBlocks`. */
    function Limit(): nat
      reads this
    {
      (maxBlocks / 32) * 32
    }

    /**
     * The state `initialize` sets up before freeing the usable region: the
     * bitmap at `bits`, `max` blocks, all of them counted as used, and
     * `memset(map, 0xFF, max / 8)`: every block of the first max / 8 bytes
     * is used (the loop sets them one block at a time), and the rest of the
     * bitmap is as it was.
     */
    constructor (bits: array<bv32>, max: nat)
      requires max / BITS_PER_BYTE <= 4 * bits.Length && max < U32_MOD
      modifies bits
      ensures Valid() && memoryMap == bits && maxBlocks == max && usedBlocks == max
      ensures forall b: nat :: Free(memoryMap[..], b) <==> Free(old(bits[..]), b) && b >= max / BITS_PER_BYTE * 8
    {
      memoryMap, maxBlocks, usedBlocks := bits, max, max;
      new;
      ghost var before := bits[..];
      var filled := max / BITS_PER_BYTE * 8;
      var b := 0;
      while b < filled
        invariant b <= filled && memoryMap == bits && maxBlocks == max && usedBlocks == max
        invariant forall c: nat :: Free(memoryMap[..], c) <==> Free(before, c) && c >= b
      {
        MemsetCovers(max / BITS_PER_BYTE, b, bits.Length);
        SetBlock(b);
        b := b + 1;
      }
    }

    /** `set_block`: marks block `bit` used; every other block is unchanged. */
    method SetBlock(bit: nat)
      requires bit / 32 < memoryMap.Length
      modifies memoryMap
      ensures forall b: nat :: Free(memoryMap[..], b) <==> b != bit && Free(old(memoryMap[..]), b)
    {
      ghost var before := memoryMap[..];
      memoryMap[bit / 32] := SetBit(memoryMap[bit / 32], BitOf(bit % 32));
      SetBlockEffect(before, bit, memoryMap[..]);
    }

    /** `unset_block`: marks block `bit` free; every other block is unchanged. */
    method UnsetBlock(bit: nat)
      requires bit / 32 < memoryMap.Length
      modifies memoryMap
      ensures forall b: nat :: Free(memoryMap[..], b) <==> b == bit || Free(old(memoryMap[..]), b)
    {
      ghost var before := memoryMap[..];
      memoryMap[bit / 32] := ClearBit(memoryMap[bit / 32], BitOf(bit % 32));
      UnsetBlockEffect(before, bit, memoryMap[..]);
    }

    /** `test_block`: whether block `bit` is in use. */
    function TestBlock(bit: nat): (used: bool)
      reads this, memoryMap
      requires bit / 32 < memoryMap.Length
      ensures used <==> !Free(memoryMap[..], bit)
    {
      BitSet(memoryMap[bit / 32], BitOf(bit % 32))
    }

    /**
     * `find_first_free_blocks`: the scan as written, probing from block
     * i*32 + (1 << j) for block i*32 + j; -1 when n is 0 or no block is
     * accepted. Full words are skipped without probing, and the probes for
     * one block stop as soon as n of them are free.
     */
    method FindFirstFreeBlocks(n: nat) returns (r: int)
      requires Valid()
      ensures r == FirstFreeAsWritten(memoryMap[..], Limit(), n, 0)
    {
      if n == 0 {
        return -1;
      }
      ghost var bits, limit := memoryMap[..], Limit();
      var i := 0;
      while i < maxBlocks / 32
        invariant i <= maxBlocks / 32 && memoryMap[..] == bits
        invariant FirstFreeAsWritten(bits, limit, n, 0) == FirstFreeAsWritten(bits, limit, n, Block(i, 0))
      {
        if memoryMap[i] != 0xFFFF_FFFF {
          WordBelowLimit(i, maxBlocks / 32);
          var j := 0;
          while j < 32
            invariant j <= 32 && memoryMap[..] == bits
            invariant FirstFreeAsWritten(bits, limit, n, 0) == FirstFreeAsWritten(bits, limit, n, Block(i, j))
          {
            var hit := ScanBit(i, j, n);
            FirstFreeAsWrittenStep(bits, limit, n, Block(i, j));
            if hit {
              return i * 32 + j;
            }
            assert Block(i, j) + 1 == Block(i, j + 1);
            j := j + 1;
          }
        } else {
          FullWordSkipped(bits, limit, n, i, 0);
        }
        assert Block(i, 32) == Block(i + 1, 0);
        i := i + 1;
      }
      return -1;
    }

    /** One probe of the scan: a block past the end of the bitmap counts as used. */
    function Probe(bit: nat): (used: bool)
      reads this, memoryMap
      ensures used <==> !Free(memoryMap[..], bit)
    {
      if bit / 32 < memoryMap.Length then TestBlock(bit) else true
    }

    /**
     * One bit of the scan: block i*32 + j is accepted when its bit is clear
     * and n of the n+1 probes from `start_bit` = i*32 + (1 << j) are free
     * (`Pow2(j)` is the value of `1 << j`, by `ShiftIsPow2`).
     */
    method ScanBit(i: nat, j: nat, n: nat) returns (hit: bool)
      requires i < memoryMap.Length && n > 0 && j < 32
      ensures hit <==> HitAsWritten(memoryMap[..], Block(i, j), n)
    {
      FreeOfBit(memoryMap[..], i, j);
      ProbeStartOf(i, j);
      hit := false;
      if !BitSet(memoryMap[i], BitOf(j)) {
        var startBit := i * 32 + Pow2(j);
        hit := ProbeRun(startBit, n);
      }
    }

    /**
     * The probe loop of the scan: the n+1 blocks from `start` are probed
     * in turn, and the loop succeeds as soon as n of them are free.
     */
    method ProbeRun(start: nat, n: nat) returns (hit: bool)
      requires n > 0
      ensures hit <==> CountFree(memoryMap[..], start, n + 1) >= n
    {
      ghost var bits := memoryMap[..];
      var freeBlocks := 0;
      var count := 0;
      while true
        invariant count <= n && freeBlocks < n && freeBlocks == CountFree(bits, start, count)
        decreases n - count
      {
        var used := Probe(start + count);
        CountFreeStep(bits, start, count, used);
        if !used {
          freeBlocks := freeBlocks + 1;
        }
        if freeBlocks == n {
          CountFreeMono(bits, start, count + 1, n + 1);
          return true;
        }
        if count == n {
          return false;
        }
        count := count + 1;
      }
    }

    /**
     * `blocks_alloc`: when more than `n` blocks are free by the count and
     * the scan as written accepts a block, marks the `n` blocks from it
     * used, whether or not they were free, adds `n` to the count and
     * returns the block's address; otherwise changes nothing. The block
     * itself was free.
     */
    method BlocksAlloc(n: nat) returns (addr: Option<nat>)
      requires Valid() && n < U32_MOD
      modifies this, memoryMap
      ensures Valid() && memoryMap == old(memoryMap) && maxBlocks == old(maxBlocks)
      ensures var s := FirstFreeAsWritten(old(memoryMap[..]), old(Limit()), n, 0);
        addr.Some? <==> U32(old(maxBlocks - usedBlocks)) > n && s != -1
      ensures addr.None? ==> memoryMap[..] == old(memoryMap[..]) && usedBlocks == old(usedBlocks)
      ensures addr.Some? ==> var s := FirstFreeAsWritten(old(memoryMap[..]), old(Limit()), n, 0);
        s >= 0 && addr.value == s * BLOCK_SIZE && usedBlocks == U32(old(usedBlocks) + n) &&
        Free(old(memoryMap[..]), s) &&
        forall b: nat :: Free(memoryMap[..], b) <==> Free(old(memoryMap[..]), b) && !(s <= b < s + n)
    {
      if U32(maxBlocks - usedBlocks) <= n {
        return None;
      }
      var start := FindFirstFreeBlocks(n);
      if start == -1 {
        return None;
      }
      FirstFreeAsWrittenIsFirst(memoryMap[..], Limit(), n, 0);
      HitInBitmap(memoryMap[..], start, n);
      ghost var before := memoryMap[..];
      var i := 0;
      while i < n
        invariant i <= n && memoryMap == old(memoryMap) && maxBlocks == old(maxBlocks)
        invariant usedBlocks == old(usedBlocks)
        invariant forall b: nat :: Free(memoryMap[..], b) <==> Free(before, b) && !(start <= b < start + i)
      {
        assert (start + i) / 32 < |before|;
        SetBlock(start + i);
        i := i + 1;
      }
      usedBlocks := U32(usedBlocks + n);
      addr := Some(start * BLOCK_SIZE);
    }

    /** `free_blocks`: marks the `n` blocks from `addr / BLOCK_SIZE` free and takes `n` off the count. */
    method FreeBlocks(addr: nat, n: nat)
      requires Valid() && addr / BLOCK_SIZE + n <= memoryMap.Length * 32
      modifies this, memoryMap
      ensures Valid() && memoryMap == old(memoryMap) && maxBlocks == old(maxBlocks)
      ensures usedBlocks == U32(old(usedBlocks) - n)
      ensures var s := addr / BLOCK_SIZE;
        forall b: nat :: Free(memoryMap[..], b) <==> Free(old(memoryMap[..]), b) || s <= b < s + n
    {
      var start := addr / BLOCK_SIZE;
      ghost var before := memoryMap[..];
      var i := 0;
      while i < n
        invariant i <= n && memoryMap == old(memoryMap) && maxBlocks == old(maxBlocks)
        invariant usedBlocks == old(usedBlocks)
        invariant forall b: nat :: Free(memoryMap[..], b) <==> Free(before, b) || start <= b < start + i
      {
        UnsetBlock(start + i);
        i := i + 1;
      }
      usedBlocks := U32(usedBlocks - n);
    }

    /**
     * `region_init`: marks the `size / BLOCK_SIZE` blocks from block
     * `base / BLOCK_SIZE` free, taking one off the count per block, and
     * then marks block 0 used again.
     */
    method RegionInit(base: nat, size: nat)
      requires Valid() && memoryMap.Length > 0
      requires base / BLOCK_SIZE + size / BLOCK_SIZE <= memoryMap.Length * 32
      modifies this, memoryMap
      ensures Valid() && memoryMap == old(memoryMap) && maxBlocks == old(maxBlocks)
      ensures usedBlocks == U32(old(usedBlocks) - size / BLOCK_SIZE)
      ensures var s, m := base / BLOCK_SIZE, size / BLOCK_SIZE;
        forall b: nat :: Free(memoryMap[..], b) <==> b != 0 && (Free(old(memoryMap[..]), b) || s <= b < s + m)
    {
      var align := base / BLOCK_SIZE;
      var n := size / BLOCK_SIZE;
      ghost var before := memoryMap[..];
      ghost var used0 := usedBlocks;
      while n > 0
        invariant align + n == base / BLOCK_SIZE + size / BLOCK_SIZE && 0 <= n <= size / BLOCK_SIZE
        invariant memoryMap == old(memoryMap) && maxBlocks == old(maxBlocks)
        invariant usedBlocks == U32(used0 - (size / BLOCK_SIZE - n))
        invariant forall b: nat :: Free(memoryMap[..], b) <==> Free(before, b) || base / BLOCK_SIZE <= b < align
      {
        assert align == base / BLOCK_SIZE + (size / BLOCK_SIZE - n);
        UnsetBlock(align);
        U32Add(used0 - (size / BLOCK_SIZE - n), -1);
        usedBlocks := U32(usedBlocks - 1);
        align := align + 1;
        n := n - 1;
      }
      SetBlock(0);
    }

    /**
     * `region_deinit`: marks the `size / BLOCK_SIZE` blocks from block
     * `base / BLOCK_SIZE` used, adding one to the count per block.
     */
    method RegionDeinit(base: nat, size: nat)
      requires Valid()
      requires base / BLOCK_SIZE + size / BLOCK_SIZE <= memoryMap.Length * 32
      modifies this, memoryMap
      ensures Valid() && memoryMap == old(memoryMap) && maxBlocks == old(maxBlocks)
      ensures usedBlocks == U32(old(usedBlocks) + size / BLOCK_SIZE)
      ensures var s, m := base / BLOCK_SIZE, size / BLOCK_SIZE;
        forall b: nat :: Free(memoryMap[..], b) <==> Free(old(memoryMap[..]), b) && !(s <= b < s + m)
    {
      var align := base / BLOCK_SIZE;
      var n := size / BLOCK_SIZE;
      ghost var before := memoryMap[..];
      ghost var used0 := usedBlocks;
      while n > 0
        invariant align + n == base / BLOCK_SIZE + size / BLOCK_SIZE && 0 <= n <= size / BLOCK_SIZE
        invariant memoryMap == old(memoryMap) && maxBlocks == old(maxBlocks)
        invariant usedBlocks == U32(used0 + (size / BLOCK_SIZE - n))
        invariant forall b: nat :: Free(memoryMap[..], b) <==> Free(before, b) && !(base / BLOCK_SIZE <= b < align)
      {
        assert align == base / BLOCK_SIZE + (size / BLOCK_SIZE - n);
        SetBlock(align);
        U32Add(used0 + (size / BLOCK_SIZE - n), 1);
        usedBlocks := U32(usedBlocks + 1);
        align := align + 1;
        n := n - 1;
      }
    }
  }
}
