/**
 The page allocator (nop/page.c): a bitmap with one bit a page, kept in ordinary memory.

 `PageAllocator` works on the bitmap bytes in place.  Its contracts speak of the bitmap as a
 sequence of flags, `Pages`; the laws of the allocator are lemmas about such sequences.
 */
module Page {
  import opened Bytes

  const PAGE_COUNT := 1048576
  const PAGE_SIZE := 4096
  const PAGE_BITMAP_SIZE := PAGE_COUNT / 8
  const MEMORY_SIZE := PAGE_COUNT * PAGE_SIZE

  const PAGE_FREE := false
  const PAGE_USED := true

  // ----- Bits of a byte -----

  /** Bit `k` of `b`: `b & (1 << k)` is not zero. */
  predicate Bit(b: nat, k: nat) {
    if k == 0 then b % 2 == 1 else Bit(b / 2, k - 1)
  }

  /** `b | (1 << k)`, or `b & ~(1 << k)`. */
  function WithBit(b: nat, k: nat, value: bool): nat {
    if k == 0 then b / 2 * 2 + (if value then 1 else 0)
    else WithBit(b / 2, k - 1, value) * 2 + b % 2
  }

  lemma {:induction false} BitOfWithBit(b: nat, k: nat, value: bool, j: nat)
    ensures Bit(WithBit(b, k, value), j) == if j == k then value else Bit(b, j)
  {
    if k > 0 && j > 0 {
      BitOfWithBit(b / 2, k - 1, value, j - 1);
    }
  }

  lemma {:induction false} WithBitBound(b: nat, k: nat, value: bool, width: nat)
    requires k < width && b < Pow(2, width)
    ensures WithBit(b, k, value) < Pow(2, width)
  {
    if k > 0 {
      WithBitBound(b / 2, k - 1, value, width - 1);
    }
  }

  function SetBit(b: byte, k: nat, value: bool): byte
    requires k < 8
  {
    BytePow();
    WithBitBound(b as int, k, value, 8);
    WithBit(b as int, k, value) as byte
  }

  lemma BytePow()
    ensures Pow(2, 8) == 256
  {
    assert Pow(2, 2) == 4;
    assert Pow(2, 4) == 16;
    assert Pow(2, 6) == 64;
  }

  lemma {:induction false} BitsOfAllOnes(width: nat, k: nat)
    requires k < width
    ensures Bit(Pow(2, width) - 1, k) && !Bit(0, k)
  {
    if k > 0 {
      BitsOfAllOnes(width - 1, k - 1);
      assert (Pow(2, width) - 1) / 2 == Pow(2, width - 1) - 1;
    }
  }

  lemma BitOfFill(value: bool, j: nat)
    requires j < 8
    ensures Bit(if value then 0xFF else 0x00, j) == value
  {
    BytePow();
    BitsOfAllOnes(8, j);
  }

  /** A number is determined by its bits. */
  lemma {:induction false} EqualBits(b: nat, c: nat, width: nat)
    requires b < Pow(2, width) && c < Pow(2, width)
    requires forall k: nat :: k < width ==> Bit(b, k) == Bit(c, k)
    ensures b == c
  {
    if width > 0 {
      assert Bit(b, 0) == Bit(c, 0);
      forall k: nat | k < width - 1
        ensures Bit(b / 2, k) == Bit(c / 2, k)
      {
        assert Bit(b, k + 1) == Bit(c, k + 1);
      }
      EqualBits(b / 2, c / 2, width - 1);
    }
  }

  /** The number with these bits: the first counts 1, and each next one twice as much. */
  function Weighted(bits: seq<bool>): nat {
    if bits == [] then 0 else (if bits[0] then 1 else 0) + 2 * Weighted(bits[1..])
  }

  lemma {:induction false} WeightedBits(b: nat, bits: seq<bool>)
    requires b < Pow(2, |bits|) && forall k: nat :: k < |bits| ==> bits[k] == Bit(b, k)
    ensures Weighted(bits) == b
  {
    if bits != [] {
      forall k: nat | k < |bits| - 1
        ensures bits[1..][k] == Bit(b / 2, k)
      {
        assert bits[k + 1] == Bit(b, k + 1);
      }
      WeightedBits(b / 2, bits[1..]);
      assert bits[0] == Bit(b, 0);
    }
  }

  // ----- The bitmap as a sequence of flags -----

  ghost predicate IsBitmap(m: seq<byte>, bitmap: nat) {
    bitmap + PAGE_BITMAP_SIZE <= |m|
  }

  ghost predicate IsUsed(m: seq<byte>, bitmap: nat, page: nat)
    requires IsBitmap(m, bitmap) && page < PAGE_COUNT
  {
    Bit(m[bitmap + page / 8] as int, page % 8)
  }

  /** The first `n` flags of the bitmap. */
  ghost function Flags(m: seq<byte>, bitmap: nat, n: nat): (used: seq<bool>)
    requires IsBitmap(m, bitmap) && n <= PAGE_COUNT
    ensures |used| == n
  {
    if n == 0 then [] else Flags(m, bitmap, n - 1) + [IsUsed(m, bitmap, n - 1)]
  }

  ghost function Pages(m: seq<byte>, bitmap: nat): (used: seq<bool>)
    requires IsBitmap(m, bitmap)
    ensures |used| == PAGE_COUNT
  {
    Flags(m, bitmap, PAGE_COUNT)
  }

  lemma {:induction false} FlagAt(m: seq<byte>, bitmap: nat, n: nat, page: nat)
    requires IsBitmap(m, bitmap) && page < n <= PAGE_COUNT
    ensures Flags(m, bitmap, n)[page] == IsUsed(m, bitmap, page)
  {
    if page < n - 1 {
      FlagAt(m, bitmap, n - 1, page);
    }
  }

  lemma {:induction false} FlagsOfAgree(m: seq<byte>, m': seq<byte>, bitmap: nat, n: nat)
    requires |m| == |m'| && IsBitmap(m, bitmap) && n <= PAGE_COUNT
    requires Agree(m, m', bitmap, bitmap + PAGE_BITMAP_SIZE)
    ensures Flags(m', bitmap, n) == Flags(m, bitmap, n)
  {
    if n > 0 {
      FlagsOfAgree(m, m', bitmap, n - 1);
      var k := bitmap + (n - 1) / 8;
      assert m'[k] == m[k];
    }
  }

  /** The bitmap depends on its own bytes only. */
  lemma PagesOfAgree(m: seq<byte>, m': seq<byte>, bitmap: nat)
    requires |m| == |m'| && IsBitmap(m, bitmap)
    requires Agree(m, m', bitmap, bitmap + PAGE_BITMAP_SIZE)
    ensures Pages(m', bitmap) == Pages(m, bitmap)
  {
    FlagsOfAgree(m, m', bitmap, PAGE_COUNT);
  }

  /** Byte `k` of the bitmap holds the flags of eight pages, the first in its lowest bit; set means used. */
  lemma ByteOfPages(m: seq<byte>, bitmap: nat, k: nat)
    requires IsBitmap(m, bitmap) && k < PAGE_BITMAP_SIZE
    ensures m[bitmap + k] as int == Weighted(Pages(m, bitmap)[8 * k..8 * k + 8])
  {
    var bits := Pages(m, bitmap)[8 * k..8 * k + 8];
    BytePow();
    forall j: nat | j < 8
      ensures bits[j] == Bit(m[bitmap + k] as int, j)
    {
      FlagAt(m, bitmap, PAGE_COUNT, 8 * k + j);
      assert (8 * k + j) / 8 == k && (8 * k + j) % 8 == j;
    }
    hide Flags, Bit;
    WeightedBits(m[bitmap + k] as int, bits);
  }

  lemma MarkedAt(used: seq<bool>, start: nat, end: nat, value: bool, p: nat)
    requires p < |used|
    ensures Marked(used, start, end, value)[p] == if start <= p && p < end then value else used[p]
  {
  }

  /** The flags with pages `start` up to `end` set to `value`. */
  function Marked(used: seq<bool>, start: nat, end: nat, value: bool): (r: seq<bool>)
    ensures |r| == |used|
  {
    seq(|used|, p requires 0 <= p < |used| => if start <= p < end then value else used[p])
  }

  lemma MarkNothing(used: seq<bool>, start: nat, value: bool)
    ensures Marked(used, start, start, value) == used
  {
  }

  lemma MarkBackwards(used: seq<bool>, start: nat, end: nat, value: bool)
    ensures start >= end ==> Marked(used, start, end, value) == used
  {
  }

  lemma MarkNextPage(used: seq<bool>, start: nat, s: nat, value: bool)
    requires start <= s < |used|
    ensures Marked(used, start, s, value)[s := value] == Marked(used, start, s + 1, value)
  {
  }

  lemma MarkPreviousPage(used: seq<bool>, e: nat, end: nat, value: bool)
    requires e < end <= |used|
    ensures Marked(used, e + 1, end, value)[e := value] == Marked(used, e, end, value)
  {
  }

  lemma MarkNextByte(used: seq<bool>, start: nat, s: nat, value: bool)
    requires start <= s
    ensures Marked(Marked(used, start, s, value), s, s + 8, value) == Marked(used, start, s + 8, value)
  {
  }

  lemma MarkInThreeParts(used: seq<bool>, start: nat, s: nat, e: nat, end: nat, value: bool)
    requires s == start || start <= s <= end
    requires e == end || s <= e <= end
    ensures Marked(Marked(Marked(used, start, s, value), e, end, value), s, e, value) == Marked(used, start, end, value)
  {
  }

  ghost predicate FreeRun(used: seq<bool>, start: nat, n: nat) {
    start + n <= |used| && forall p :: start <= p < start + n ==> !used[p]
  }

  /** How many of the `n` pages from `i` on are free before the first used one. */
  function FreePages(used: seq<bool>, i: nat, n: nat): (f: nat)
    requires i + n <= |used|
    ensures f <= n
    ensures FreeRun(used, i, f)
    ensures f < n ==> used[i + f]
    decreases n
  {
    if n == 0 || used[i] then 0 else 1 + FreePages(used, i + 1, n - 1)
  }

  /** The search of `page_alloc` from page `i` on, in steps of `step` pages. */
  function Search(used: seq<bool>, n: nat, step: nat, i: nat): (r: int)
    requires n <= |used| && step > 0
    ensures r == -1 || (i <= r && FreeRun(used, r, n))
    decreases |used| + 1 - i
  {
    if i > |used| - n then -1
    else
      var f := FreePages(used, i, n);
      if f >= n then i else Search(used, n, step, i + f + step)
  }

  /** A step in bytes, rounded up to pages in 32-bit arithmetic. */
  function StepPages(step: nat): nat {
    (step + (PAGE_SIZE - 1)) % TWO_32 / PAGE_SIZE
  }

  lemma StepPagesPositive(step: nat)
    requires step < TWO_32
    ensures StepPages(step) > 0 <==> 0 < step <= TWO_32 - PAGE_SIZE
    ensures 0 < step <= PAGE_SIZE ==> StepPages(step) == 1
    ensures step <= TWO_32 - PAGE_SIZE ==> (StepPages(step) - 1) * PAGE_SIZE < step <= StepPages(step) * PAGE_SIZE
  {
  }

  /** A bitmap whose only used page is `i`. */
  function OneUsed(count: nat, i: nat): (used: seq<bool>)
    ensures |used| == count
  {
    seq(count, p => p == i)
  }

  /**
   Whatever the bitmap, the loop goes on from a later page after a run that is too short, if and
   only if the step is neither 0 nor wraps around to it.
   */
  lemma StepMovesOn(count: nat, n: nat, i: nat, step: nat)
    requires 0 < n && i + n <= count && step < TWO_32
    ensures (forall used: seq<bool> | |used| == count && FreePages(used, i, n) < n ::
               i + FreePages(used, i, n) + StepPages(step) > i)
            <==> 0 < step <= TWO_32 - PAGE_SIZE
  {
    StepPagesPositive(step);
    hide StepPages;
    if StepPages(step) == 0 {
      assert OneUsed(count, i)[i];
      assert FreePages(OneUsed(count, i), i, n) == 0;
    }
  }

  // ----- Laws of the search -----

  ghost predicate IsLowestRun(used: seq<bool>, n: nat, step: nat, from: nat, r: int)
    requires step > 0
  {
    && (r != -1 ==> from <= r && r % step == 0 && FreeRun(used, r, n))
    && forall q: nat :: from <= q && q % step == 0 && FreeRun(used, q, n) ==> r != -1 && r <= q
  }

  /** With a step of one page the search finds the lowest free run, and fails only if there is none. */
  lemma {:induction false} UnitStepFindsLowest(used: seq<bool>, n: nat, i: nat)
    requires n <= |used|
    ensures IsLowestRun(used, n, 1, i, Search(used, n, 1, i))
    decreases |used| + 1 - i
  {
    if i <= |used| - n {
      var f := FreePages(used, i, n);
      if f < n {
        UnitStepFindsLowest(used, n, i + f + 1);
        forall q: nat | i <= q <= i + f
          ensures !FreeRun(used, q, n)
        {
          assert used[i + f];
        }
      }
    }
  }

  /** A search for a single page, from an aligned page on, meets aligned pages only. */
  lemma {:induction false} SinglePageFindsLowest(used: seq<bool>, n: nat, step: nat, i: nat)
    requires n <= 1 && n <= |used| && step > 0 && i % step == 0
    ensures IsLowestRun(used, n, step, i, Search(used, n, step, i))
    decreases |used| + 1 - i
  {
    if i <= |used| - n {
      var f := FreePages(used, i, n);
      if f < n {
        NextMultiple(i, step);
        SinglePageFindsLowest(used, n, step, i + step);
        forall q: nat | i <= q && q % step == 0 && FreeRun(used, q, n)
          ensures i + step <= q
        {
          assert used[i];
          NoMultipleBetween(i, q, step);
        }
      }
    }
  }

  lemma NextMultiple(i: nat, step: nat)
    requires step > 0 && i % step == 0
    ensures (i + step) % step == 0
  {
    assert i + step == step * (i / step + 1);
    MultipleMod(i / step + 1, step);
  }

  lemma MultipleMod(k: nat, step: nat)
    requires step > 0
    ensures step * k % step == 0
  {
    ModUnique(step * k, step, k, 0);
  }

  lemma NoMultipleBetween(i: nat, q: nat, step: nat)
    requires step > 0 && i % step == 0 && q % step == 0 && i < q
    ensures i + step <= q
  {
    var a, b := i / step, q / step;
    assert i == step * a && q == step * b;
    assert b >= a + 1;
    assert step * b >= step * (a + 1) == step * a + step;
  }

  /** With room for one candidate only, the first, the search is a test of that candidate. */
  lemma LongRunFindsLowest(used: seq<bool>, n: nat, step: nat)
    requires n <= |used| < n + step && step > 0
    ensures IsLowestRun(used, n, step, 0, Search(used, n, step, 0))
  {
    var f := FreePages(used, 0, n);
    if f < n {
      assert Search(used, n, step, f + step) == -1;
      assert used[f];
    }
    forall q: nat | q % step == 0 && FreeRun(used, q, n)
      ensures q == 0
    {
    }
  }

  /** Only the page at index 1 is used. */
  function SecondPageUsed(count: nat): (used: seq<bool>)
    ensures |used| == count
  {
    seq(count, p => p == 1)
  }

  /** A partial run at page 0 throws the search off the multiples of the step. */
  lemma PartialRunLosesAlignment(count: nat, n: nat, step: nat)
    requires step > 1 && n > 1 && n + step <= count
    ensures !IsLowestRun(SecondPageUsed(count), n, step, 0, Search(SecondPageUsed(count), n, step, 0))
  {
    var used := SecondPageUsed(count);
    assert FreePages(used, 0, n) == 1 by {
      assert !used[0] && used[1];
      assert FreePages(used, 1, n - 1) == 0;
    }
    assert FreeRun(used, step, n);
    MultipleMod(1, step);
    assert Search(used, n, step, 0) == Search(used, n, step, 1 + step);
  }

  /**
   `page_alloc` returns the lowest run that starts at a multiple of the step, for every bitmap,
   exactly when the step is one page, the run is at most one page, or only page 0 can start a run.
   */
  lemma SearchIsAlignedFirstFit(count: nat, n: nat, step: nat)
    requires n <= count && step > 0
    ensures (forall used: seq<bool> | |used| == count :: IsLowestRun(used, n, step, 0, Search(used, n, step, 0)))
            <==> step == 1 || n <= 1 || n + step > count
  {
    if step == 1 || n <= 1 || n + step > count {
      forall used: seq<bool> | |used| == count
        ensures IsLowestRun(used, n, step, 0, Search(used, n, step, 0))
      {
        if step == 1 {
          UnitStepFindsLowest(used, n, 0);
        } else if n <= 1 {
          SinglePageFindsLowest(used, n, step, 0);
        } else {
          LongRunFindsLowest(used, n, step);
        }
      }
    } else {
      PartialRunLosesAlignment(count, n, step);
      assert |SecondPageUsed(count)| == count;
    }
  }

  // ----- Equal flags mean equal bytes -----

  lemma BitmapByteFromFlags(m: seq<byte>, m': seq<byte>, bitmap: nat, k: nat)
    requires |m| == |m'| && IsBitmap(m, bitmap) && k < PAGE_BITMAP_SIZE
    requires Pages(m, bitmap) == Pages(m', bitmap)
    ensures m'[bitmap + k] == m[bitmap + k]
  {
    var b, c := m'[bitmap + k] as int, m[bitmap + k] as int;
    forall j: nat | j < 8
      ensures Bit(b, j) == Bit(c, j)
    {
      FlagAt(m, bitmap, PAGE_COUNT, 8 * k + j);
      FlagAt(m', bitmap, PAGE_COUNT, 8 * k + j);
    }
    BytePow();
    EqualBits(b, c, 8);
  }

  lemma MemoryFromFlags(m: seq<byte>, m': seq<byte>, bitmap: nat)
    requires |m| == |m'| && IsBitmap(m, bitmap)
    requires Pages(m, bitmap) == Pages(m', bitmap)
    requires AgreeOutside(m, m', bitmap, bitmap + PAGE_BITMAP_SIZE)
    ensures m' == m
  {
    forall k | 0 <= k < |m|
      ensures m'[k] == m[k]
    {
      if bitmap <= k < bitmap + PAGE_BITMAP_SIZE {
        BitmapByteFromFlags(m, m', bitmap, k - bitmap);
      }
    }
  }

  // ----- The plain update of the bitmap -----

  /** Memory with the flags of pages `start` up to `end` set one after the other. */
  function MarkedMemory(m: seq<byte>, bitmap: nat, start: nat, end: nat, value: bool): (r: seq<byte>)
    requires bitmap + PAGE_BITMAP_SIZE <= |m| && end <= PAGE_COUNT
    ensures |r| == |m|
    decreases end - start
  {
    if start >= end then m
    else
      var k := bitmap + start / 8;
      MarkedMemory(m[k := SetBit(m[k], start % 8, value)], bitmap, start + 1, end, value)
  }

  lemma PagesOfSetBit(m: seq<byte>, bitmap: nat, page: nat, value: bool)
    requires IsBitmap(m, bitmap) && page < PAGE_COUNT
    ensures var k := bitmap + page / 8;
            Pages(m[k := SetBit(m[k], page % 8, value)], bitmap) == Pages(m, bitmap)[page := value]
  {
    var k := bitmap + page / 8;
    var m' := m[k := SetBit(m[k], page % 8, value)];
    forall p | 0 <= p < PAGE_COUNT
      ensures Pages(m', bitmap)[p] == if p == page then value else Pages(m, bitmap)[p]
    {
      FlagAt(m, bitmap, PAGE_COUNT, p);
      FlagAt(m', bitmap, PAGE_COUNT, p);
      if p / 8 == page / 8 {
        BitOfWithBit(m[k] as int, page % 8, value, p % 8);
      }
    }
  }

  lemma MarkFirstPage(used: seq<bool>, start: nat, end: nat, value: bool)
    requires start < end <= |used|
    ensures Marked(used[start := value], start + 1, end, value) == Marked(used, start, end, value)
  {
  }

  lemma {:induction false} PagesOfMarkedMemory(m: seq<byte>, bitmap: nat, start: nat, end: nat, value: bool)
    requires IsBitmap(m, bitmap) && end <= PAGE_COUNT
    ensures Pages(MarkedMemory(m, bitmap, start, end, value), bitmap) == Marked(Pages(m, bitmap), start, end, value)
    ensures AgreeOutside(m, MarkedMemory(m, bitmap, start, end, value), bitmap, bitmap + PAGE_BITMAP_SIZE)
    decreases end - start
  {
    if start >= end {
      MarkBackwards(Pages(m, bitmap), start, end, value);
    } else {
      var k := bitmap + start / 8;
      PagesOfSetBit(m, bitmap, start, value);
      PagesOfMarkedMemory(m[k := SetBit(m[k], start % 8, value)], bitmap, start + 1, end, value);
      MarkFirstPage(Pages(m, bitmap), start, end, value);
    }
  }

  /** The flags and the bytes around the bitmap determine the marked memory. */
  lemma MarkedMemoryIsUnique(m: seq<byte>, m': seq<byte>, bitmap: nat, start: nat, end: nat, value: bool)
    requires |m| == |m'| && IsBitmap(m, bitmap) && end <= PAGE_COUNT
    requires Pages(m', bitmap) == Marked(Pages(m, bitmap), start, end, value)
    requires AgreeOutside(m, m', bitmap, bitmap + PAGE_BITMAP_SIZE)
    ensures m' == MarkedMemory(m, bitmap, start, end, value)
  {
    PagesOfMarkedMemory(m, bitmap, start, end, value);
    MemoryFromFlags(MarkedMemory(m, bitmap, start, end, value), m', bitmap);
  }

  /** Marking a free run used and then free again restores every byte. */
  lemma MarkThenUnmark(m: seq<byte>, bitmap: nat, r: nat, n: nat)
    requires IsBitmap(m, bitmap) && r + n <= PAGE_COUNT && FreeRun(Pages(m, bitmap), r, n)
    ensures MarkedMemory(MarkedMemory(m, bitmap, r, r + n, PAGE_USED), bitmap, r, r + n, PAGE_FREE) == m
  {
    var m1 := MarkedMemory(m, bitmap, r, r + n, PAGE_USED);
    var m2 := MarkedMemory(m1, bitmap, r, r + n, PAGE_FREE);
    PagesOfMarkedMemory(m, bitmap, r, r + n, PAGE_USED);
    PagesOfMarkedMemory(m1, bitmap, r, r + n, PAGE_FREE);
    var used := Pages(m, bitmap);
    assert Marked(Marked(used, r, r + n, PAGE_USED), r, r + n, PAGE_FREE) == used;
    MemoryFromFlags(m, m2, bitmap);
  }

  // ----- The allocator -----

  /** What the loop finds from page 0 on.  With a step of no pages, it gets no further than page 0. */
  ghost function Found(used: seq<bool>, n: nat, step: nat): (r: int)
    requires n <= |used| && (step > 0 || FreeRun(used, 0, n))
    ensures r == -1 || (0 <= r && FreeRun(used, r, n))
  {
    if step == 0 then 0 else Search(used, n, step, 0)
  }

  /** The search finds the run at page 0 exactly if there is one. */
  lemma RunAtZero(used: seq<bool>, n: nat, step: nat)
    requires n <= |used| && (step > 0 || FreeRun(used, 0, n))
    ensures Found(used, n, step) == 0 <==> FreeRun(used, 0, n)
  {
    if step > 0 {
      SearchStep(used, n, step, 0);
    }
    hide Search;
    assert FreePages(used, 0, n) < n ==> used[FreePages(used, 0, n)];
  }

  /** Marking a free run changes memory, unless it is empty. */
  lemma RunMarksItsFirstPage(m: seq<byte>, bitmap: nat, r: nat, n: nat)
    requires IsBitmap(m, bitmap) && r + n <= PAGE_COUNT && FreeRun(Pages(m, bitmap), r, n)
    ensures MarkedMemory(m, bitmap, r, r + n, PAGE_USED) == m <==> n == 0
  {
    PagesOfMarkedMemory(m, bitmap, r, r + n, PAGE_USED);
    if n > 0 {
      assert Marked(Pages(m, bitmap), r, r + n, PAGE_USED)[r] != Pages(m, bitmap)[r];
    }
  }

  lemma WholeRunIsFree(used: seq<bool>, n: nat)
    requires n <= |used| && FreeRun(used, 0, n)
    ensures FreePages(used, 0, n) == n
  {
  }

  lemma SearchStep(used: seq<bool>, n: nat, step: nat, i: nat)
    requires n <= |used| && step > 0
    ensures Search(used, n, step, i) ==
            if i > |used| - n then -1
            else if FreePages(used, i, n) >= n then i
            else Search(used, n, step, i + FreePages(used, i, n) + step)
  {
  }

  class PageAllocator {
    const mem: array<byte>
    var bitmap: nat

    ghost predicate Valid()
      reads this
    {
      mem.Length == MEMORY_SIZE && bitmap + PAGE_BITMAP_SIZE <= MEMORY_SIZE
    }

    ghost function View(): (used: seq<bool>)
      requires Valid()
      reads this, mem
      ensures |used| == PAGE_COUNT
    {
      Pages(mem[..], bitmap)
    }

    /** Before `page_init` runs the bitmap pointer is zero. */
    constructor (mem: array<byte>)
      requires mem.Length == MEMORY_SIZE
      ensures Valid() && this.mem == mem && bitmap == 0
    {
      this.mem := mem;
      bitmap := 0;
    }

    method Init(ptr: nat)
      requires Valid() && ptr + PAGE_BITMAP_SIZE <= MEMORY_SIZE
      modifies this, mem
      ensures Valid() && bitmap == ptr
      ensures forall p :: 0 <= p < PAGE_COUNT ==> View()[p] == PAGE_USED
      ensures AgreeOutside(old(mem[..]), mem[..], bitmap, bitmap + PAGE_BITMAP_SIZE)
    {
      bitmap := ptr;
      Mark(0, PAGE_COUNT, PAGE_USED);
    }

    method TestPage(page: nat) returns (used: bool)
      requires Valid() && page < PAGE_COUNT
      ensures used == View()[page]
    {
      FlagAt(mem[..], bitmap, PAGE_COUNT, page);
      used := Bit(mem[bitmap + page / 8] as int, page % 8);
    }

    method SetPage(page: nat, value: bool)
      requires Valid() && page < PAGE_COUNT
      modifies mem
      ensures View() == old(View())[page := value]
      ensures AgreeOutside(old(mem[..]), mem[..], bitmap, bitmap + PAGE_BITMAP_SIZE)
    {
      mem[bitmap + page / 8] := SetBit(mem[bitmap + page / 8], page % 8, value);
      forall p | 0 <= p < PAGE_COUNT
        ensures View()[p] == if p == page then value else old(View()[p])
      {
        FlagAt(old(mem[..]), bitmap, PAGE_COUNT, p);
        FlagAt(mem[..], bitmap, PAGE_COUNT, p);
        if p / 8 == page / 8 {
          BitOfWithBit(old(mem[bitmap + page / 8]) as int, page % 8, value, p % 8);
        }
      }
    }

    /** Writes the eight flags of a byte at once. */
    method FillByte(page: nat, value: bool)
      requires Valid() && page < PAGE_COUNT && page % 8 == 0
      modifies mem
      ensures View() == Marked(old(View()), page, page + 8, value)
      ensures AgreeOutside(old(mem[..]), mem[..], bitmap, bitmap + PAGE_BITMAP_SIZE)
    {
      mem[bitmap + page / 8] := if value then 0xFF else 0x00;
      forall p | 0 <= p < PAGE_COUNT
        ensures View()[p] == if page <= p < page + 8 then value else old(View()[p])
      {
        FlagAt(old(mem[..]), bitmap, PAGE_COUNT, p);
        FlagAt(mem[..], bitmap, PAGE_COUNT, p);
        BitOfFill(value, p % 8);
      }
    }

    /** The first loop of `page_mark`: single pages up to a byte boundary. */
    method MarkFirst(start: nat, end: nat, value: bool) returns (s: nat)
      requires Valid() && end <= PAGE_COUNT
      modifies mem
      ensures s == start || start <= s <= end
      ensures s % 8 == 0 || s >= end
      ensures View() == Marked(old(View()), start, s, value)
      ensures AgreeOutside(old(mem[..]), mem[..], bitmap, bitmap + PAGE_BITMAP_SIZE)
    {
      s := start;
      MarkNothing(View(), start, value);
      while s % 8 != 0 && s < end
        invariant s == start || start <= s <= end
        invariant View() == Marked(old(View()), start, s, value)
        invariant AgreeOutside(old(mem[..]), mem[..], bitmap, bitmap + PAGE_BITMAP_SIZE)
        decreases end - s
      {
        SetPage(s, value);
        MarkNextPage(old(View()), start, s, value);
        s := s + 1;
      }
    }

    /** The second loop of `page_mark`: single pages down to a byte boundary. */
    method MarkLast(s: nat, end: nat, value: bool) returns (e: nat)
      requires Valid() && end <= PAGE_COUNT
      modifies mem
      ensures e == end || s <= e <= end
      ensures e % 8 == 0 || s >= e
      ensures View() == Marked(old(View()), e, end, value)
      ensures AgreeOutside(old(mem[..]), mem[..], bitmap, bitmap + PAGE_BITMAP_SIZE)
    {
      e := end;
      MarkNothing(View(), end, value);
      while e % 8 != 0 && s < e
        invariant e == end || s <= e <= end
        invariant View() == Marked(old(View()), e, end, value)
        invariant AgreeOutside(old(mem[..]), mem[..], bitmap, bitmap + PAGE_BITMAP_SIZE)
      {
        e := e - 1;
        SetPage(e, value);
        MarkPreviousPage(old(View()), e, end, value);
      }
    }

    /** The third loop of `page_mark`: whole bytes. */
    method MarkBytes(start: nat, end: nat, value: bool)
      requires Valid() && end <= PAGE_COUNT
      requires start < end ==> start % 8 == 0 && end % 8 == 0
      modifies mem
      ensures View() == Marked(old(View()), start, end, value)
      ensures AgreeOutside(old(mem[..]), mem[..], bitmap, bitmap + PAGE_BITMAP_SIZE)
    {
      hide Marked, Flags;
      var s := start;
      MarkNothing(View(), start, value);
      MarkBackwards(View(), start, end, value);
      while s < end
        invariant s == start || start <= s <= end
        invariant s < end ==> s % 8 == 0
        invariant View() == Marked(old(View()), start, s, value)
        invariant AgreeOutside(old(mem[..]), mem[..], bitmap, bitmap + PAGE_BITMAP_SIZE)
        decreases end - s
      {
        FillByte(s, value);
        MarkNextByte(old(View()), start, s, value);
        s := s + 8;
      }
    }

    method Mark(start: nat, end: nat, value: bool)
      requires Valid() && end <= PAGE_COUNT
      modifies mem
      ensures mem[..] == MarkedMemory(old(mem[..]), bitmap, start, end, value)
      ensures View() == Marked(old(View()), start, end, value)
      ensures AgreeOutside(old(mem[..]), mem[..], bitmap, bitmap + PAGE_BITMAP_SIZE)
    {
      var s := MarkFirst(start, end, value);
      var e := MarkLast(s, end, value);
      MarkBytes(s, e, value);
      MarkInThreeParts(old(View()), start, s, e, end, value);
      MarkedMemoryIsUnique(old(mem[..]), mem[..], bitmap, start, end, value);
    }

    /** The inner loop of `page_alloc`: how many of the `n` pages from `i` on are free. */
    method CountFree(i: nat, n: nat) returns (freePages: nat)
      requires Valid() && i + n <= PAGE_COUNT
      ensures freePages == FreePages(View(), i, n)
    {
      ghost var used := View();
      freePages := 0;
      while freePages < n
        invariant freePages <= n
        invariant FreePages(used, i, n) == freePages + FreePages(used, i + freePages, n - freePages)
      {
        var pageUsed := TestPage(i + freePages);
        if pageUsed {
          return;
        }
        freePages := freePages + 1;
      }
    }

    /** The search loop of `page_alloc`; -1 if no run was found. */
    method FindRun(n: nat, step: nat) returns (r: int)
      requires Valid() && n <= PAGE_COUNT && (step > 0 || FreeRun(View(), 0, n))
      ensures r == Found(View(), n, step)
    {
      hide Search, FreePages, Flags;
      ghost var used := View();
      var i := 0;
      while i <= PAGE_COUNT - n
        invariant if step == 0 then i == 0 else Search(used, n, step, 0) == Search(used, n, step, i)
        decreases PAGE_COUNT + 1 - i
      {
        if step == 0 {
          WholeRunIsFree(used, n);
        } else {
          SearchStep(used, n, step, i);
        }
        var freeStart := i;
        var freePages := CountFree(i, n);
        i := i + freePages;
        if freePages >= n {
          return freeStart;
        }
        i := i + step;
      }
      if step != 0 {
        SearchStep(used, n, step, i);
      }
      return -1;
    }

    /** The C function returns the address of the run, or 0 (NULL) for failure. */
    method Alloc(n: nat, step: nat) returns (ptr: nat)
      requires Valid() && n <= PAGE_COUNT
      requires StepPages(step) > 0 || FreeRun(View(), 0, n)
      modifies mem
      ensures var r := Found(old(View()), n, StepPages(step));
              if r == -1 then ptr == 0 && mem[..] == old(mem[..])
              else
                && ptr == r * PAGE_SIZE
                && mem[..] == MarkedMemory(old(mem[..]), bitmap, r, r + n, PAGE_USED)
      ensures AgreeOutside(old(mem[..]), mem[..], bitmap, bitmap + PAGE_BITMAP_SIZE)
    {
      var freeStart := FindRun(n, StepPages(step));
      if freeStart == -1 {
        return 0;
      }
      Mark(freeStart, freeStart + n, PAGE_USED);
      return freeStart * PAGE_SIZE;
    }

    method Free(ptr: nat, n: nat)
      requires Valid() && ptr / PAGE_SIZE + n <= PAGE_COUNT
      modifies mem
      ensures mem[..] == MarkedMemory(old(mem[..]), bitmap, ptr / PAGE_SIZE, ptr / PAGE_SIZE + n, PAGE_FREE)
    {
      var start := ptr / PAGE_SIZE;
      Mark(start, start + n, PAGE_FREE);
    }

    /**
     Freeing what was just allocated restores every byte of memory, if and only if the run did not
     begin with page 0, whose address looks like a failure: if the pages from 0 on are not all free.
     */
    method AllocThenFree(n: nat, step: nat)
      requires Valid() && n <= PAGE_COUNT
      requires StepPages(step) > 0 || FreeRun(View(), 0, n)
      modifies mem
      ensures mem[..] == old(mem[..]) <==> n == 0 || !FreeRun(old(View()), 0, n)
    {
      hide MarkedMemory, Flags, Search;
      ghost var m, r := mem[..], Found(View(), n, StepPages(step));
      RunAtZero(View(), n, StepPages(step));
      var ptr := Alloc(n, step);
      if ptr != 0 {
        Free(ptr, n);
        MarkThenUnmark(m, bitmap, r, n);
      } else if r == 0 {
        RunMarksItsFirstPage(m, bitmap, r, n);
      }
    }
  }
}
