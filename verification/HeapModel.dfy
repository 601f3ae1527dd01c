/**
 The heap operations (lib/alloc.c:45-167) as functions on the whole machine, and the laws that
 hold over every run of them.
 */
module HeapModel {
  import opened Bytes
  import opened Page
  import opened HeapLayout
  import opened Wrappers

  // ----- First fit -----

  /** The first cell with at least `n` free bytes, from cell `j` of block `i` on. */
  function ScanFrom(arena: Arena, n: nat, i: nat, j: nat): (r: Option<(nat, nat)>)
    requires arena.listed <= |arena.blocks|
    decreases arena.listed - i, if i < arena.listed then |arena.blocks[i].cells| - j else 0
  {
    if i >= arena.listed then None
    else if j >= |arena.blocks[i].cells| then ScanFrom(arena, n, i + 1, 0)
    else if arena.blocks[i].cells[j].size >= n then Some((i, j))
    else ScanFrom(arena, n, i, j + 1)
  }

  function FirstFit(arena: Arena, n: nat): Option<(nat, nat)>
    requires arena.listed <= |arena.blocks|
  {
    ScanFrom(arena, n, 0, 0)
  }

  /** Cell (i, j) comes before cell (i', j') in block list order. */
  predicate Before(i: nat, j: nat, i': nat, j': nat) {
    i < i' || (i == i' && j < j')
  }

  ghost predicate Fits(arena: Arena, n: nat, i: nat, j: nat) {
    i < arena.listed && IsCell(arena, i, j) && CellAt(arena, i, j).size >= n
  }

  /** The scan returns the first listed cell that fits, and nothing exactly when none does. */
  lemma {:induction false} ScanFindsFirst(arena: Arena, n: nat, i: nat, j: nat)
    requires arena.listed <= |arena.blocks|
    ensures match ScanFrom(arena, n, i, j)
            case Some((i', j')) =>
              && Fits(arena, n, i', j') && !Before(i', j', i, j)
              && forall k, l :: Fits(arena, n, k, l) && !Before(k, l, i, j) ==> !Before(k, l, i', j')
            case None =>
              forall k, l :: !Before(k, l, i, j) ==> !Fits(arena, n, k, l)
    decreases arena.listed - i, if i < arena.listed then |arena.blocks[i].cells| - j else 0
  {
    if i >= arena.listed {
    } else if j >= |arena.blocks[i].cells| {
      ScanFindsFirst(arena, n, i + 1, 0);
    } else if arena.blocks[i].cells[j].size < n {
      ScanFindsFirst(arena, n, i, j + 1);
    } else {
      assert Fits(arena, n, i, j);
    }
  }

  // ----- malloc_once -----

  /** A free cell is used whole if a split would leave no payload behind it. */
  predicate TakenWhole(c: Cell, n: nat) {
    c.size <= n + CELL_HEADER
  }

  /** The free cell left behind a split. */
  function Rest(c: Cell, n: nat): Cell {
    Cell(c.addr + CELL_HEADER + n, c.size - CELL_HEADER - n)
  }

  function TakenCells(c: Cell, n: nat): seq<Cell> {
    if TakenWhole(c, n) then [Cell(c.addr, -c.size)] else [Cell(c.addr, -(n as int)), Rest(c, n)]
  }

  function TakenMemory(m: seq<byte>, c: Cell, n: nat): (m': seq<byte>)
    requires n <= c.size < TWO_31 && c.End() <= |m|
    ensures |m'| == |m|
  {
    if TakenWhole(c, n) then StoreSigned(m, c.addr, -c.size)
    else StoreSigned(StoreSigned(m, Rest(c, n).addr, Rest(c, n).size), c.addr, -(n as int))
  }

  lemma StoredCell(m: seq<byte>, c: Cell)
    requires c.addr + CELL_HEADER <= |m| && -TWO_31 < c.size < TWO_31
    ensures CellInMemory(StoreSigned(m, c.addr, c.size), c)
    ensures AgreeOutside(m, StoreSigned(m, c.addr, c.size), c.addr, c.addr + CELL_HEADER)
  {
    LoadOfStoreSigned(m, c.addr, c.size);
  }

  lemma WholeInMemory(m: seq<byte>, c: Cell, size: int)
    requires c.End() <= |m| && -TWO_31 < size < TWO_31 && Abs(size) == Abs(c.size)
    ensures var d := Cell(c.addr, size);
            && Tiles([d], c.addr, c.End())
            && CellsInMemory(StoreSigned(m, d.addr, d.size), [d])
            && AgreeOutside(m, StoreSigned(m, d.addr, d.size), c.addr, c.End())
  {
    StoredCell(m, Cell(c.addr, size));
  }

  lemma SplitInMemory(m: seq<byte>, c: Cell, n: nat)
    requires n <= c.size < TWO_31 && c.End() <= |m| && !TakenWhole(c, n)
    ensures Tiles(TakenCells(c, n), c.addr, c.End())
    ensures CellsInMemory(TakenMemory(m, c, n), TakenCells(c, n))
    ensures AgreeOutside(m, TakenMemory(m, c, n), c.addr, c.End())
  {
    var used, rest := Cell(c.addr, -(n as int)), Rest(c, n);
    var m1 := StoreSigned(m, rest.addr, rest.size);
    StoredCell(m, rest);
    StoredCell(m1, used);
    CellElsewhere(m1, StoreSigned(m1, used.addr, used.size), rest, c.addr, c.addr + CELL_HEADER);
    assert TakenCells(c, n)[1..] == [rest] && [rest][1..] == [];
  }

  lemma TakeIsRewrite(s: Machine, i: nat, j: nat, n: nat)
    requires Inv(s) && IsCell(s.arena, i, j) && n <= CellAt(s.arena, i, j).size
    ensures var c := CellAt(s.arena, i, j);
            && c.size < TWO_31 && c.End() <= |s.mem|
            && IsRewrite(s, i, j, TakenCells(c, n), TakenMemory(s.mem, c, n))
  {
    hide Inv, StoreSigned, CellsInMemory, Tiles, AgreeOutside;
    var c := CellAt(s.arena, i, j);
    CellFacts(s, i, j);
    if TakenWhole(c, n) {
      WholeInMemory(s.mem, c, -c.size);
    } else {
      SplitInMemory(s.mem, c, n);
    }
  }

  ghost function Take(s: Machine, i: nat, j: nat, n: nat): Machine
    requires Inv(s) && IsCell(s.arena, i, j) && n <= CellAt(s.arena, i, j).size
  {
    TakeIsRewrite(s, i, j, n);
    var c := CellAt(s.arena, i, j);
    Rewritten(s, i, j, TakenCells(c, n), TakenMemory(s.mem, c, n))
  }

  ghost function MallocOnce(s: Machine, n: nat): (r: (Machine, nat))
    requires Inv(s)
  {
    match FirstFit(s.arena, n)
    case None => (s, 0)
    case Some((i, j)) =>
      ScanFindsFirst(s.arena, n, 0, 0);
      (Take(s, i, j, n), CellAt(s.arena, i, j).Payload())
  }

  // ----- alloc_block -----

  /** Whole pages for `n` bytes, in 32-bit arithmetic (nop/start.c:11). */
  function PagesFor(n: nat): nat {
    (n + (PAGE_SIZE - 1)) % TWO_32 / PAGE_SIZE
  }

  function BlockPages(size: nat): nat {
    PagesFor(size + BLOCK_HEADER + CELL_HEADER)
  }

  /** The page run a new block would get, or -1. */
  ghost function NewRun(s: Machine, size: nat): int
    requires IsBitmap(s.mem, s.bitmap) && BlockPages(size) <= PAGE_COUNT
  {
    Search(Pages(s.mem, s.bitmap), BlockPages(size), 1, 0)
  }

  /** The three words that `alloc_block` writes at `addr`. */
  function BlockWritten(m: seq<byte>, addr: nat, next: nat, total: nat): (m': seq<byte>)
    requires addr + BLOCK_HEADER + CELL_HEADER <= |m| && BLOCK_HEADER + CELL_HEADER <= total <= TWO_31
    ensures |m'| == |m|
  {
    var m1 := Store(m, addr, next);
    var m2 := Store(m1, addr + 4, total - BLOCK_HEADER);
    StoreSigned(m2, addr + BLOCK_HEADER, total - BLOCK_HEADER - CELL_HEADER)
  }

  function FreshBlock(addr: nat, total: nat): Block
    requires BLOCK_HEADER + CELL_HEADER <= total
  {
    Block(addr, total - BLOCK_HEADER, [Cell(addr + BLOCK_HEADER, total - BLOCK_HEADER - CELL_HEADER)])
  }

  lemma BlockPagesBound(size: nat)
    requires size + BLOCK_HEADER + CELL_HEADER <= TWO_31
    ensures var total := BlockPages(size) * PAGE_SIZE;
            size + BLOCK_HEADER + CELL_HEADER <= total <= TWO_31
  {
  }

  lemma BlockWrittenHolds(m: seq<byte>, addr: nat, next: nat, total: nat)
    requires addr + total <= |m| && BLOCK_HEADER + CELL_HEADER <= total <= TWO_31 && next < TWO_32
    ensures var m' := BlockWritten(m, addr, next, total);
            && BlockInMemory(m', FreshBlock(addr, total))
            && Load(m', addr) == next
            && AgreeOutside(m, m', addr, addr + BLOCK_HEADER + CELL_HEADER)
  {
    var m1 := Store(m, addr, next);
    var m2 := Store(m1, addr + 4, total - BLOCK_HEADER);
    var c := Cell(addr + BLOCK_HEADER, total - BLOCK_HEADER - CELL_HEADER);
    var m' := StoreSigned(m2, c.addr, c.size);
    LoadOfStore(m, addr, next);
    LoadOfStore(m1, addr + 4, total - BLOCK_HEADER);
    StoredCell(m2, c);
    LoadOfAgree(m1, m2, addr);
    LoadOfAgree(m2, m', addr);
    LoadOfAgree(m2, m', addr + 4);
    assert [c][1..] == [];
  }

  lemma UsedPage(used: seq<bool>, lo: nat, hi: nat, p: nat)
    requires PagesUsed(used, lo, hi)
    ensures p < |used| && p * PAGE_SIZE < hi && lo < (p + 1) * PAGE_SIZE ==> used[p]
  {
  }

  /** A free run of pages lies apart from bytes whose pages are all used. */
  lemma FreeRunApart(used: seq<bool>, lo: nat, hi: nat, r: nat, n: nat)
    requires PagesUsed(used, lo, hi) && FreeRun(used, r, n) && lo < hi && n > 0
    ensures Apart(r * PAGE_SIZE, (r + n) * PAGE_SIZE, lo, hi)
  {
    var p := if lo <= r * PAGE_SIZE then r else lo / PAGE_SIZE;
    UsedPage(used, lo, hi, p);
  }

  /** The heap takes only pages that hold no heap block, no bitmap byte and no byte of page 0. */
  lemma NewPagesApart(s: Machine, n: nat, r: nat)
    requires Inv(s) && n > 0 && FreeRun(Pages(s.mem, s.bitmap), r, n)
    ensures PAGE_SIZE <= r * PAGE_SIZE
    ensures Apart(r * PAGE_SIZE, (r + n) * PAGE_SIZE, s.bitmap, s.bitmap + PAGE_BITMAP_SIZE)
    ensures forall k :: 0 <= k < |s.arena.blocks| ==>
              Apart(r * PAGE_SIZE, (r + n) * PAGE_SIZE, s.arena.blocks[k].addr, s.arena.blocks[k].End())
  {
    var used := Pages(s.mem, s.bitmap);
    FreeRunApart(used, 0, PAGE_SIZE, r, n);
    FreeRunApart(used, s.bitmap, s.bitmap + PAGE_BITMAP_SIZE, r, n);
    forall k | 0 <= k < |s.arena.blocks|
      ensures Apart(r * PAGE_SIZE, (r + n) * PAGE_SIZE, s.arena.blocks[k].addr, s.arena.blocks[k].End())
    {
      BlockFacts(s, k);
      FreeRunApart(used, s.arena.blocks[k].addr, s.arena.blocks[k].End(), r, n);
    }
  }

  /** `page_alloc` may fail; then the block list is lost and its first words land at address 0. */
  ghost function Grow(s: Machine, size: nat): Machine
    requires Inv(s) && size + BLOCK_HEADER + CELL_HEADER <= TWO_31
  {
    BlockPagesBound(size);
    var total := BlockPages(size) * PAGE_SIZE;
    var r := NewRun(s, size);
    if r == -1 then
      s.(mem := BlockWritten(s.mem, 0, s.root, total), root := 0, arena := s.arena.(listed := 0))
    else
      s.(mem := GrownMemory(s.mem, s.bitmap, r, BlockPages(size), s.root),
         root := r * PAGE_SIZE,
         arena := Arena([FreshBlock(r * PAGE_SIZE, total)] + s.arena.blocks, s.arena.listed + 1))
  }

  lemma RootBound(s: Machine)
    requires Inv(s)
    ensures s.root < TWO_32
  {
    if s.arena.listed > 0 {
      BlockFacts(s, 0);
    }
  }

  /** A failed `alloc_block` writes into page 0 and forgets the list, but harms no block. */
  lemma FailedGrowKeepsInv(s: Machine, size: nat)
    requires Inv(s) && size + BLOCK_HEADER + CELL_HEADER <= TWO_31
    requires BlockPages(size) <= PAGE_COUNT && NewRun(s, size) == -1
    ensures Inv(Grow(s, size))
    ensures AgreeOutside(s.mem, Grow(s, size).mem, 0, BLOCK_HEADER + CELL_HEADER)
  {
    var s' := Grow(s, size);
    BlockPagesBound(size);
    RootBound(s);
    BlockWrittenHolds(s.mem, 0, s.root, BlockPages(size) * PAGE_SIZE);
    PagesOfAgree(s.mem, s'.mem, s.bitmap);
    forall k | 0 <= k < |s.arena.blocks|
      ensures BlockInMemory(s'.mem, s.arena.blocks[k])
    {
      BlockFacts(s, k);
      BlockElsewhere(s.mem, s'.mem, s.arena.blocks[k], 0, BLOCK_HEADER + CELL_HEADER);
    }
    SameBlocksSafe(s.mem, s'.mem, s.bitmap, s.arena.blocks, s'.arena.blocks);
  }

  lemma MarkedKeepsUsed(used: seq<bool>, start: nat, end: nat, value: bool, lo: nat, hi: nat)
    requires PagesUsed(used, lo, hi)
    requires value == PAGE_USED || start == end || Apart(start * PAGE_SIZE, end * PAGE_SIZE, lo, hi)
    ensures PagesUsed(Marked(used, start, end, value), lo, hi)
  {
  }

  /** Memory after the pages of a new block are marked and its words are written. */
  function GrownMemory(m: seq<byte>, bitmap: nat, r: nat, n: nat, next: nat): (m': seq<byte>)
    requires |m| == MEMORY_SIZE && bitmap + PAGE_BITMAP_SIZE <= MEMORY_SIZE
    requires r + n <= PAGE_COUNT && 0 < n * PAGE_SIZE <= TWO_31
    ensures |m'| == |m|
  {
    BlockWritten(MarkedMemory(m, bitmap, r, r + n, PAGE_USED), r * PAGE_SIZE, next, n * PAGE_SIZE)
  }

  lemma AgreeOutsideBoth(m: seq<byte>, m1: seq<byte>, m2: seq<byte>, lo: nat, hi: nat, lo': nat, hi': nat)
    requires AgreeOutside(m, m1, lo, hi) && AgreeOutside(m1, m2, lo', hi')
    ensures ChangedWithin(m, m2, lo, hi, lo', hi')
  {
  }

  /** Two memories of one size that differ in two stretches at most. */
  ghost predicate ChangedWithin(m: seq<byte>, m': seq<byte>, lo: nat, hi: nat, lo': nat, hi': nat) {
    |m'| == |m| && forall k :: 0 <= k < |m| && !(lo <= k < hi) && !(lo' <= k < hi') ==> m'[k] == m[k]
  }

  lemma GrownMemoryHolds(m: seq<byte>, bitmap: nat, r: nat, n: nat, next: nat)
    requires |m| == MEMORY_SIZE && bitmap + PAGE_BITMAP_SIZE <= MEMORY_SIZE
    requires r + n <= PAGE_COUNT && 0 < n * PAGE_SIZE <= TWO_31 && next < TWO_32
    requires Apart(r * PAGE_SIZE, (r + n) * PAGE_SIZE, bitmap, bitmap + PAGE_BITMAP_SIZE)
    ensures var m' := GrownMemory(m, bitmap, r, n, next);
            && Pages(m', bitmap) == Marked(Pages(m, bitmap), r, r + n, PAGE_USED)
            && BlockInMemory(m', FreshBlock(r * PAGE_SIZE, n * PAGE_SIZE))
            && Load(m', r * PAGE_SIZE) == next
            && ChangedWithin(m, m', bitmap, bitmap + PAGE_BITMAP_SIZE, r * PAGE_SIZE, (r + n) * PAGE_SIZE)
  {
    hide MarkedMemory, BlockWritten, BlockInMemory;
    var m1 := MarkedMemory(m, bitmap, r, r + n, PAGE_USED);
    PagesOfMarkedMemory(m, bitmap, r, r + n, PAGE_USED);
    WrittenIntoRun(m1, bitmap, r, n, next);
    var m2 := BlockWritten(m1, r * PAGE_SIZE, next, n * PAGE_SIZE);
    assert AgreeOutside(m, m1, bitmap, bitmap + PAGE_BITMAP_SIZE);
    assert AgreeOutside(m1, m2, r * PAGE_SIZE, (r + n) * PAGE_SIZE);
    assert GrownMemory(m, bitmap, r, n, next) == m2;
    AgreeOutsideBoth(m, m1, m2, bitmap, bitmap + PAGE_BITMAP_SIZE, r * PAGE_SIZE, (r + n) * PAGE_SIZE);
  }

  lemma WrittenIntoRun(m: seq<byte>, bitmap: nat, r: nat, n: nat, next: nat)
    requires |m| == MEMORY_SIZE && IsBitmap(m, bitmap)
    requires r + n <= PAGE_COUNT && 0 < n * PAGE_SIZE <= TWO_31 && next < TWO_32
    requires Apart(r * PAGE_SIZE, (r + n) * PAGE_SIZE, bitmap, bitmap + PAGE_BITMAP_SIZE)
    ensures var m' := BlockWritten(m, r * PAGE_SIZE, next, n * PAGE_SIZE);
            && Pages(m', bitmap) == Pages(m, bitmap)
            && BlockInMemory(m', FreshBlock(r * PAGE_SIZE, n * PAGE_SIZE))
            && Load(m', r * PAGE_SIZE) == next
            && AgreeOutside(m, m', r * PAGE_SIZE, (r + n) * PAGE_SIZE)
  {
    BlockWrittenHolds(m, r * PAGE_SIZE, next, n * PAGE_SIZE);
    PagesOfAgree(m, BlockWritten(m, r * PAGE_SIZE, next, n * PAGE_SIZE), bitmap);
  }

  lemma BlockAgree(m: seq<byte>, m': seq<byte>, b: Block)
    requires BlockInMemory(m, b) && |m'| == |m| && Agree(m, m', b.addr, b.End())
    ensures BlockInMemory(m', b) && Load(m', b.addr) == Load(m, b.addr)
  {
    var m1 := m[..b.addr] + m'[b.addr..];
    assert AgreeOutside(m, m1, b.End(), |m|);
    BlockElsewhere(m, m1, b, b.End(), |m|);
    assert AgreeOutside(m1, m', 0, b.addr);
    BlockElsewhere(m1, m', b, 0, b.addr);
  }

  /** What a new block of `n` pages from page `r` on means for an old block. */
  lemma OldBlockKept(used: seq<bool>, m: seq<byte>, m': seq<byte>, bitmap: nat, r: nat, n: nat, b: Block)
    requires |m| == |m'| && BlockInMemory(m, b) && Placed(used, bitmap, b)
    requires Apart(r * PAGE_SIZE, (r + n) * PAGE_SIZE, b.addr, b.End())
    requires ChangedWithin(m, m', bitmap, bitmap + PAGE_BITMAP_SIZE, r * PAGE_SIZE, (r + n) * PAGE_SIZE)
    ensures BlockInMemory(m', b) && Placed(Marked(used, r, r + n, PAGE_USED), bitmap, b)
    ensures Load(m', b.addr) == Load(m, b.addr)
    ensures Agree(m, m', b.addr, b.End())
  {
    MarkedKeepsUsed(used, r, r + n, PAGE_USED, b.addr, b.End());
    BlockAgree(m, m', b);
  }

  lemma FreshBlockPlaced(used: seq<bool>, bitmap: nat, r: nat, n: nat)
    requires 0 < n && 0 < r && r + n <= |used|
    requires Apart(r * PAGE_SIZE, (r + n) * PAGE_SIZE, bitmap, bitmap + PAGE_BITMAP_SIZE)
    ensures Placed(Marked(used, r, r + n, PAGE_USED), bitmap, FreshBlock(r * PAGE_SIZE, n * PAGE_SIZE))
  {
  }

  ghost predicate BlockKept(m: seq<byte>, m': seq<byte>, b: Block) {
    && |m'| == |m|
    && BlockInMemory(m', b)
    && Load(m', b.addr) == Load(m, b.addr)
    && Agree(m, m', b.addr, b.End())
  }

  lemma OldBlocksKept(m: seq<byte>, m': seq<byte>, bitmap: nat, r: nat, n: nat, blocks: seq<Block>)
    requires |m| == |m'| && IsBitmap(m, bitmap) && BlocksSafe(m, bitmap, blocks)
    requires Pages(m', bitmap) == Marked(Pages(m, bitmap), r, r + n, PAGE_USED)
    requires ChangedWithin(m, m', bitmap, bitmap + PAGE_BITMAP_SIZE, r * PAGE_SIZE, (r + n) * PAGE_SIZE)
    requires forall k :: 0 <= k < |blocks| ==> Apart(r * PAGE_SIZE, (r + n) * PAGE_SIZE, blocks[k].addr, blocks[k].End())
    ensures forall k :: 0 <= k < |blocks| ==>
              BlockKept(m, m', blocks[k]) && Placed(Pages(m', bitmap), bitmap, blocks[k])
  {
    forall k | 0 <= k < |blocks|
      ensures BlockKept(m, m', blocks[k]) && Placed(Pages(m', bitmap), bitmap, blocks[k])
    {
      SafeBlock(m, bitmap, blocks, k);
      OldBlockKept(Pages(m, bitmap), m, m', bitmap, r, n, blocks[k]);
    }
  }

  lemma BlocksAfterGrow(m: seq<byte>, m': seq<byte>, bitmap: nat, blocks: seq<Block>, b: Block)
    requires IsBitmap(m, bitmap) && |m'| == |m| && BlocksSafe(m, bitmap, blocks)
    requires BlockInMemory(m', b) && Placed(Pages(m', bitmap), bitmap, b)
    requires forall k :: 0 <= k < |blocks| ==>
               && BlockKept(m, m', blocks[k]) && Placed(Pages(m', bitmap), bitmap, blocks[k])
               && Apart(b.addr, b.End(), blocks[k].addr, blocks[k].End())
    ensures BlocksSafe(m', bitmap, [b] + blocks)
  {
    hide BlockInMemory, Placed, Apart;
    var blocks' := [b] + blocks;
    forall i | 0 <= i < |blocks'|
      ensures BlockSafe(m', bitmap, blocks', i)
    {
      assert i > 0 ==> blocks'[i] == blocks[i - 1] && BlockKept(m, m', blocks[i - 1]);
    }
    forall i, j | 0 <= i < j < |blocks'|
      ensures BlocksApart(blocks', i, j)
    {
      assert blocks'[j] == blocks[j - 1];
      if i > 0 {
        assert blocks'[i] == blocks[i - 1] && BlocksApart(blocks, i - 1, j - 1);
      }
    }
  }

  lemma LinkedAfterGrow(m: seq<byte>, m': seq<byte>, root: nat, arena: Arena, b: Block)
    requires Linked(m, root, arena) && |m'| == |m| && b.addr + 4 <= |m| && Load(m', b.addr) == root
    requires forall k :: 0 <= k < |arena.blocks| ==> BlockKept(m, m', arena.blocks[k])
    ensures Linked(m', b.addr, Arena([b] + arena.blocks, arena.listed + 1))
  {
    var arena' := Arena([b] + arena.blocks, arena.listed + 1);
    forall i | 0 <= i < arena'.listed
      ensures LinkAt(m', arena', i)
    {
      if i > 0 {
        assert LinkAt(m, arena, i - 1);
        assert BlockKept(m, m', arena.blocks[i - 1]);
      }
    }
  }

  lemma GrownBlocks(m: seq<byte>, bitmap: nat, root: nat, arena: Arena, r: nat, n: nat)
    requires |m| == MEMORY_SIZE && IsBitmap(m, bitmap) && BlocksSafe(m, bitmap, arena.blocks)
    requires Linked(m, root, arena) && root < TWO_32
    requires 0 < r && r + n <= PAGE_COUNT && 0 < n * PAGE_SIZE <= TWO_31
    requires Apart(r * PAGE_SIZE, (r + n) * PAGE_SIZE, bitmap, bitmap + PAGE_BITMAP_SIZE)
    requires forall k :: 0 <= k < |arena.blocks| ==>
               Apart(r * PAGE_SIZE, (r + n) * PAGE_SIZE, arena.blocks[k].addr, arena.blocks[k].End())
    ensures var m', b := GrownMemory(m, bitmap, r, n, root), FreshBlock(r * PAGE_SIZE, n * PAGE_SIZE);
            && BlocksSafe(m', bitmap, [b] + arena.blocks)
            && Linked(m', b.addr, Arena([b] + arena.blocks, arena.listed + 1))
            && forall k :: 0 <= k < |arena.blocks| ==> BlockKept(m, m', arena.blocks[k])
  {
    hide BlockInMemory, BlockKept, Placed, ChangedWithin, Linked;
    var m', b := GrownMemory(m, bitmap, r, n, root), FreshBlock(r * PAGE_SIZE, n * PAGE_SIZE);
    GrownMemoryHolds(m, bitmap, r, n, root);
    FreshBlockPlaced(Pages(m, bitmap), bitmap, r, n);
    OldBlocksKept(m, m', bitmap, r, n, arena.blocks);
    assert b.addr == r * PAGE_SIZE && b.End() == (r + n) * PAGE_SIZE;
    BlocksAfterGrow(m, m', bitmap, arena.blocks, b);
    LinkedAfterGrow(m, m', root, arena, b);
  }

  lemma GrownBitmapSafe(m: seq<byte>, m': seq<byte>, bitmap: nat, r: nat, n: nat)
    requires BitmapSafe(m, bitmap) && |m'| == |m|
    requires Pages(m', bitmap) == Marked(Pages(m, bitmap), r, r + n, PAGE_USED)
    ensures BitmapSafe(m', bitmap)
  {
    MarkedKeepsUsed(Pages(m, bitmap), r, r + n, PAGE_USED, 0, PAGE_SIZE);
    MarkedKeepsUsed(Pages(m, bitmap), r, r + n, PAGE_USED, bitmap, bitmap + PAGE_BITMAP_SIZE);
  }

  /** The run of pages for a new block. */
  lemma NewRunFits(s: Machine, size: nat)
    requires Inv(s) && size + BLOCK_HEADER + CELL_HEADER <= TWO_31
    requires BlockPages(size) <= PAGE_COUNT && NewRun(s, size) != -1
    ensures var r, n := NewRun(s, size), BlockPages(size);
            && 0 < r && r + n <= PAGE_COUNT && 0 < n * PAGE_SIZE <= TWO_31
            && Apart(r * PAGE_SIZE, (r + n) * PAGE_SIZE, s.bitmap, s.bitmap + PAGE_BITMAP_SIZE)
            && forall k :: 0 <= k < |s.arena.blocks| ==>
                 Apart(r * PAGE_SIZE, (r + n) * PAGE_SIZE, s.arena.blocks[k].addr, s.arena.blocks[k].End())
  {
    hide BlocksSafe, Linked, Apart, PagesUsed;
    BlockPagesBound(size);
    NewPagesApart(s, BlockPages(size), NewRun(s, size));
  }

  lemma GrownFields(s: Machine, size: nat)
    requires Inv(s) && size + BLOCK_HEADER + CELL_HEADER <= TWO_31
    requires BlockPages(size) <= PAGE_COUNT && NewRun(s, size) != -1
    requires NewRun(s, size) + BlockPages(size) <= PAGE_COUNT && 0 < BlockPages(size) * PAGE_SIZE <= TWO_31
    ensures var r, n, s' := NewRun(s, size), BlockPages(size), Grow(s, size);
            && s'.mem == GrownMemory(s.mem, s.bitmap, r, n, s.root)
            && s'.bitmap == s.bitmap && s'.blockMin == s.blockMin && s'.root == r * PAGE_SIZE
            && BLOCK_HEADER + CELL_HEADER <= n * PAGE_SIZE
            && s'.arena == Arena([FreshBlock(r * PAGE_SIZE, n * PAGE_SIZE)] + s.arena.blocks, s.arena.listed + 1)
  {
    hide Inv, GrownMemory, BlockWritten, NewRun;
    BlockPagesBound(size);
  }

  lemma InvParts(s: Machine)
    ensures Inv(s) <==>
            && BitmapSafe(s.mem, s.bitmap) && BlocksSafe(s.mem, s.bitmap, s.arena.blocks)
            && Linked(s.mem, s.root, s.arena) && s.blockMin < TWO_32
  {
  }

  /** The new block joins the others; none of them changes. */
  lemma GrownKeepsInv(s: Machine, size: nat)
    requires Inv(s) && size + BLOCK_HEADER + CELL_HEADER <= TWO_31
    requires BlockPages(size) <= PAGE_COUNT && NewRun(s, size) != -1
    ensures Inv(Grow(s, size))
    ensures forall k :: 0 <= k < |s.arena.blocks| ==> BlockKept(s.mem, Grow(s, size).mem, s.arena.blocks[k])
  {
    hide Inv, Grow, GrownMemory, NewRun, BlockPages, FreshBlock, BitmapSafe, BlocksSafe, Linked, BlockKept, Apart;
    hide Pages, Marked, BlockInMemory, ChangedWithin;
    RootBound(s);
    NewRunFits(s, size);
    GrownFields(s, size);
    InvParts(s);
    BitmapInMemory(s.mem, s.bitmap);
    var r, n, s' := NewRun(s, size), BlockPages(size), Grow(s, size);
    GrownBlocks(s.mem, s.bitmap, s.root, s.arena, r, n);
    GrownMemoryHolds(s.mem, s.bitmap, r, n, s.root);
    GrownBitmapSafe(s.mem, s'.mem, s.bitmap, r, n);
    assert FreshBlock(r * PAGE_SIZE, n * PAGE_SIZE).addr == s'.root by { FreshBlockAt(r * PAGE_SIZE, n * PAGE_SIZE); }
    InvParts(s');
  }

  lemma FreshBlockAt(addr: nat, total: nat)
    requires BLOCK_HEADER + CELL_HEADER <= total
    ensures FreshBlock(addr, total).addr == addr
  {
  }

  lemma BitmapInMemory(m: seq<byte>, bitmap: nat)
    requires BitmapSafe(m, bitmap)
    ensures |m| == MEMORY_SIZE && IsBitmap(m, bitmap)
  {
  }

  lemma GrowKeepsInv(s: Machine, size: nat)
    requires Inv(s) && size + BLOCK_HEADER + CELL_HEADER <= TWO_31
    ensures Inv(Grow(s, size))
  {
    BlockPagesBound(size);
    if NewRun(s, size) == -1 {
      FailedGrowKeepsInv(s, size);
    } else {
      GrownKeepsInv(s, size);
    }
  }

  // ----- malloc, free, realloc -----

  /** The size asked of a new block: a quarter more than requested, and no less than the minimum. */
  function GrowSize(blockMin: nat, n: nat): nat {
    var size := n + n / 4;
    if size < blockMin then blockMin else size
  }

  /** Sizes that fit the signed headers: the request itself, and the new block if one is needed. */
  ghost predicate SizeFits(s: Machine, n: nat)
    requires s.arena.listed <= |s.arena.blocks|
  {
    && n < TWO_31
    && (FirstFit(s.arena, n).None? ==> GrowSize(s.blockMin, n) + BLOCK_HEADER + CELL_HEADER <= TWO_31)
  }

  ghost function Malloc(s: Machine, n: nat): (r: (Machine, nat))
    requires Inv(s) && SizeFits(s, n)
  {
    if FirstFit(s.arena, n).Some? then MallocOnce(s, n)
    else
      GrowKeepsInv(s, GrowSize(s.blockMin, n));
      MallocOnce(Grow(s, GrowSize(s.blockMin, n)), n)
  }

  /** There is a listed cell that fits, or a free page run for a new block. */
  ghost predicate CanServe(s: Machine, n: nat)
    requires Inv(s) && SizeFits(s, n)
  {
    FirstFit(s.arena, n).Some? ||
    (BlockPagesBound(GrowSize(s.blockMin, n)); NewRun(s, GrowSize(s.blockMin, n)) != -1)
  }

  /** The position of the header at address `a`. */
  ghost function Locate(arena: Arena, a: int): (p: (nat, nat))
    requires HasHeader(arena, a)
    ensures IsCell(arena, p.0, p.1) && CellAt(arena, p.0, p.1).addr == a
  {
    var i, j :| IsCell(arena, i, j) && CellAt(arena, i, j).addr == a;
    (i, j)
  }

  ghost function CellOf(arena: Arena, p: nat): (c: Cell)
    requires HasHeader(arena, p - CELL_HEADER)
    ensures c.Payload() == p && HasCell(arena, c)
  {
    var (i, j) := Locate(arena, p - CELL_HEADER);
    CellAt(arena, i, j)
  }

  /** A pointer that `free` and `realloc` accept: NULL, or the payload of a genuine header. */
  ghost predicate IsPointer(arena: Arena, p: nat) {
    p == 0 || HasHeader(arena, p - CELL_HEADER)
  }

  lemma FlipIsRewrite(s: Machine, i: nat, j: nat)
    requires Inv(s) && IsCell(s.arena, i, j) && CellAt(s.arena, i, j).Live()
    ensures var c := CellAt(s.arena, i, j);
            && c.addr + CELL_HEADER <= |s.mem| && 0 < -c.size < TWO_31
            && IsRewrite(s, i, j, [Cell(c.addr, -c.size)], StoreSigned(s.mem, c.addr, -c.size))
  {
    CellFacts(s, i, j);
    WholeInMemory(s.mem, CellAt(s.arena, i, j), -CellAt(s.arena, i, j).size);
  }

  /** Cell (i, j) made free. */
  ghost function Flipped(s: Machine, i: nat, j: nat): Machine
    requires Inv(s) && IsCell(s.arena, i, j) && CellAt(s.arena, i, j).Live()
  {
    FlipIsRewrite(s, i, j);
    var c := CellAt(s.arena, i, j);
    Rewritten(s, i, j, [Cell(c.addr, -c.size)], StoreSigned(s.mem, c.addr, -c.size))
  }

  ghost function Free(s: Machine, p: nat): Machine
    requires Inv(s) && IsPointer(s.arena, p)
  {
    if p == 0 || !CellOf(s.arena, p).Live() then s
    else
      var (i, j) := Locate(s.arena, p - CELL_HEADER);
      Flipped(s, i, j)
  }

  // ----- What each operation keeps -----

  /** Cell `c` is still there, and not a byte of it has changed. */
  ghost predicate Keeps(s: Machine, s': Machine, c: Cell) {
    |s'.mem| == |s.mem| && HasCell(s'.arena, c) && Agree(s.mem, s'.mem, c.addr, c.End())
  }

  lemma KeepsTransitive(s: Machine, s1: Machine, s2: Machine, c: Cell)
    requires Keeps(s, s1, c) && Keeps(s1, s2, c)
    ensures Keeps(s, s2, c)
  {
  }

  lemma TakeKeeps(s: Machine, i: nat, j: nat, n: nat)
    requires Inv(s) && IsCell(s.arena, i, j) && n <= CellAt(s.arena, i, j).size
    ensures Inv(Take(s, i, j, n))
    ensures forall c :: HasCell(s.arena, c) && c != CellAt(s.arena, i, j) ==> Keeps(s, Take(s, i, j, n), c)
    ensures forall a :: HasHeader(s.arena, a) ==> HasHeader(Take(s, i, j, n).arena, a)
    ensures HasCell(Take(s, i, j, n).arena, TakenCells(CellAt(s.arena, i, j), n)[0])
  {
    hide Inv, IsRewrite, HasHeader, HasCell;
    TakeIsRewrite(s, i, j, n);
    var c := CellAt(s.arena, i, j);
    var cs, m' := TakenCells(c, n), TakenMemory(s.mem, c, n);
    RewriteKeepsInv(s, i, j, cs, m');
    RewriteAddsCells(s, i, j, cs, 0);
    forall d | HasCell(s.arena, d) && d != c
      ensures Keeps(s, Take(s, i, j, n), d)
    {
      RewriteKeepsCells(s, i, j, cs, m', d);
    }
    forall a | HasHeader(s.arena, a)
      ensures HasHeader(Take(s, i, j, n).arena, a)
    {
      RewriteKeepsHeaders(s, i, j, cs, m', a);
    }
  }

  lemma CellInGrown(blocks: seq<Block>, listed: nat, b: Block, listed': nat, i: nat, j: nat)
    requires IsCell(Arena(blocks, listed), i, j)
    ensures IsCell(Arena([b] + blocks, listed'), i + 1, j)
    ensures CellAt(Arena([b] + blocks, listed'), i + 1, j) == CellAt(Arena(blocks, listed), i, j)
  {
  }

  lemma GrowKeeps(s: Machine, size: nat)
    requires Inv(s) && size + BLOCK_HEADER + CELL_HEADER <= TWO_31
    ensures Inv(Grow(s, size))
    ensures forall c :: HasCell(s.arena, c) ==> Keeps(s, Grow(s, size), c)
    ensures forall a :: HasHeader(s.arena, a) ==> HasHeader(Grow(s, size).arena, a)
  {
    hide Inv;
    var s' := Grow(s, size);
    GrowKeepsInv(s, size);
    forall i, j | IsCell(s.arena, i, j)
      ensures Keeps(s, s', CellAt(s.arena, i, j))
      ensures HasHeader(s'.arena, CellAt(s.arena, i, j).addr)
    {
      GrowKeepsCell(s, size, i, j);
    }
  }

  lemma GrowKeepsCell(s: Machine, size: nat, i: nat, j: nat)
    requires Inv(s) && size + BLOCK_HEADER + CELL_HEADER <= TWO_31 && IsCell(s.arena, i, j)
    ensures Keeps(s, Grow(s, size), CellAt(s.arena, i, j))
    ensures HasHeader(Grow(s, size).arena, CellAt(s.arena, i, j).addr)
  {
    hide BlocksSafe, Linked, FreshBlock, GrownMemory;
    var s', b := Grow(s, size), s.arena.blocks[i];
    BlockPagesBound(size);
    if NewRun(s, size) == -1 {
      assert IsCell(s'.arena, i, j) && CellAt(s'.arena, i, j) == CellAt(s.arena, i, j);
    } else {
      CellInGrown(s.arena.blocks, s.arena.listed, s'.arena.blocks[0], s'.arena.listed, i, j);
    }
    assert Agree(s.mem, s'.mem, CellAt(s.arena, i, j).addr, CellAt(s.arena, i, j).End()) by {
      GrowKeepsBytes(s, size, i, j);
    }
  }

  lemma GrowKeepsBytes(s: Machine, size: nat, i: nat, j: nat)
    requires Inv(s) && size + BLOCK_HEADER + CELL_HEADER <= TWO_31 && IsCell(s.arena, i, j)
    ensures |Grow(s, size).mem| == |s.mem|
    ensures Agree(s.mem, Grow(s, size).mem, CellAt(s.arena, i, j).addr, CellAt(s.arena, i, j).End())
  {
    hide BlocksSafe, Linked, BlockInMemory, GrownMemory, BlockWritten;
    CellFacts(s, i, j);
    BlockPagesBound(size);
    if NewRun(s, size) == -1 {
      FailedGrowKeepsInv(s, size);
      BlockAddress(s, i);
    } else {
      GrownKeepsInv(s, size);
      assert BlockKept(s.mem, Grow(s, size).mem, s.arena.blocks[i]);
    }
  }

  lemma BlockAddress(s: Machine, i: nat)
    requires Inv(s) && i < |s.arena.blocks|
    ensures PAGE_SIZE <= s.arena.blocks[i].addr && s.arena.blocks[i].End() <= MEMORY_SIZE
  {
    BlockFacts(s, i);
  }

  /** The new block's own cell is the first that fits. */
  lemma GrownFits(s: Machine, n: nat)
    requires Inv(s) && SizeFits(s, n) && FirstFit(s.arena, n).None?
    ensures var s' := Grow(s, GrowSize(s.blockMin, n));
            && Inv(s')
            && FirstFit(s'.arena, n) == if CanServe(s, n) then Some((0, 0)) else None
  {
    hide BlocksSafe, Linked, BitmapSafe;
    GrowKeepsInv(s, GrowSize(s.blockMin, n));
    BlockPagesBound(GrowSize(s.blockMin, n));
  }
}
