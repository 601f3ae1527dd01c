/**
 What `malloc` and `realloc` do, said about the state before and the state after only: which cell is
 taken, where a new block goes and how large it is, what is left behind, and what is returned.
 */
module HeapLaws {
  import opened Bytes
  import opened Page
  import opened HeapLayout
  import opened HeapModel
  import opened HeapRuns
  import opened Wrappers

  // ----- The first cell that fits -----

  /** Cell (i, j) has at least `n` free bytes, and no listed cell in front of it has. */
  ghost predicate FirstFitting(arena: Arena, n: nat, i: nat, j: nat) {
    Fits(arena, n, i, j) && forall k, l :: Fits(arena, n, k, l) ==> !Before(k, l, i, j)
  }

  lemma FoundIsFirst(arena: Arena, n: nat, i: nat, j: nat)
    requires arena.listed <= |arena.blocks| && FirstFitting(arena, n, i, j)
    ensures FirstFit(arena, n) == Some((i, j))
  {
    ScanFindsFirst(arena, n, 0, 0);
    hide ScanFrom;
    var (k, l) := ScanFrom(arena, n, 0, 0).value;
    assert Fits(arena, n, k, l) && !Before(k, l, i, j) && !Before(i, j, k, l);
  }

  /** What is left of a cell that is taken: all of it, or a used cell and a free one behind it. */
  lemma TakeLeaves(s: Machine, i: nat, j: nat, n: nat)
    requires Inv(s) && IsCell(s.arena, i, j) && n <= CellAt(s.arena, i, j).size
    ensures var s', c := Take(s, i, j, n), CellAt(s.arena, i, j);
            && (c.size <= n + 4 ==> HasCell(s'.arena, Cell(c.addr, -c.size)))
            && (c.size > n + 4 ==>
                  && HasCell(s'.arena, Cell(c.addr, -(n as int)))
                  && HasCell(s'.arena, Cell(c.addr + 4 + n, c.size - n - 4)))
            && s'.root == s.root && s'.bitmap == s.bitmap && s'.arena.listed == s.arena.listed
            && SameBlocks(s.arena.blocks, s'.arena.blocks)
  {
    hide Inv, HasCell, TakenMemory;
    var cs := TakenCells(CellAt(s.arena, i, j), n);
    RewriteAddsCells(s, i, j, cs, 0);
    if |cs| > 1 {
      RewriteAddsCells(s, i, j, cs, 1);
    }
  }

  /**
   `malloc` takes the first listed cell that fits.  A cell at most a header larger is used whole;
   otherwise a used cell of exactly `n` bytes and a free cell of the rest take its place.  All other
   cells, and the list, stay as they are.
   */
  lemma MallocTakesFirst(s: Machine, n: nat, i: nat, j: nat)
    requires Inv(s) && SizeFits(s, n) && FirstFitting(s.arena, n, i, j)
    ensures IsCell(s.arena, i, j)
    ensures var (s', p), c := Malloc(s, n), CellAt(s.arena, i, j);
            && p == c.addr + 4
            && (c.size <= n + 4 ==> HasCell(s'.arena, Cell(c.addr, -c.size)))
            && (c.size > n + 4 ==>
                  && HasCell(s'.arena, Cell(c.addr, -(n as int)))
                  && HasCell(s'.arena, Cell(c.addr + 4 + n, c.size - n - 4)))
            && (forall d :: HasCell(s.arena, d) && d != c ==> Keeps(s, s', d))
            && s'.root == s.root && s'.bitmap == s.bitmap && s'.arena.listed == s.arena.listed
            && SameBlocks(s.arena.blocks, s'.arena.blocks)
  {
    hide Inv, HasCell, Take, Keeps, ScanFrom;
    ListIsShort(s);
    FoundIsFirst(s.arena, n, i, j);
    TakeLeaves(s, i, j, n);
    TakeKeeps(s, i, j, n);
  }

  // ----- A new block -----

  /** A new block has the least whole number of pages for what is asked, a quarter more, and its headers. */
  lemma BlockPagesAreLeast(blockMin: nat, n: nat)
    requires Max(n + n / 4, blockMin) + 12 <= TWO_31
    ensures var pages, bytes := BlockPages(GrowSize(blockMin, n)), Max(n + n / 4, blockMin) + 12;
            0 < pages && (pages - 1) * PAGE_SIZE < bytes <= pages * PAGE_SIZE
  {
  }

  /** The state after a block of `pages` pages from page `r` on was put in front of the list. */
  lemma GrownState(s: Machine, n: nat) returns (r: nat, pages: nat)
    requires Inv(s) && SizeFits(s, n) && FirstFit(s.arena, n).None? && CanServe(s, n)
    ensures 0 < pages && (pages - 1) * PAGE_SIZE < Max(n + n / 4, s.blockMin) + 12 <= pages * PAGE_SIZE <= TWO_31
    ensures FreeRun(Pages(s.mem, s.bitmap), r, pages)
    ensures forall q: nat :: FreeRun(Pages(s.mem, s.bitmap), q, pages) ==> r <= q
    ensures var s' := Grow(s, GrowSize(s.blockMin, n));
            && s'.root == r * PAGE_SIZE && s'.bitmap == s.bitmap
            && s'.arena == Arena([FreshBlock(r * PAGE_SIZE, pages * PAGE_SIZE)] + s.arena.blocks, s.arena.listed + 1)
            && IsBitmap(s'.mem, s.bitmap)
            && Pages(s'.mem, s.bitmap) == Marked(Pages(s.mem, s.bitmap), r, r + pages, PAGE_USED)
            && Load(s'.mem, r * PAGE_SIZE) == s.root
  {
    var size := GrowSize(s.blockMin, n);
    BlockPagesAreLeast(s.blockMin, n);
    BlockPagesBound(size);
    hide BlocksSafe, Linked, Search, Flags, GrownMemory, FreshBlock, PagesUsed, ScanFrom, Apart;
    r, pages := NewRun(s, size), BlockPages(size);
    UnitStepFindsLowest(Pages(s.mem, s.bitmap), pages, 0);
    NewRunFits(s, size);
    GrownFields(s, size);
    RootBound(s);
    GrownMemoryHolds(s.mem, s.bitmap, r, pages, s.root);
  }

  lemma NothingFits(arena: Arena, n: nat)
    requires arena.listed <= |arena.blocks|
    ensures FirstFit(arena, n).None? <==> forall i, j :: !Fits(arena, n, i, j)
  {
    ScanFindsFirst(arena, n, 0, 0);
    hide ScanFrom;
  }

  lemma FirstCellOfFresh(s: Machine, r: nat, pages: nat)
    requires BLOCK_HEADER + CELL_HEADER <= pages * PAGE_SIZE
    requires s.arena.blocks != [] && s.arena.blocks[0] == FreshBlock(r * PAGE_SIZE, pages * PAGE_SIZE)
    ensures IsCell(s.arena, 0, 0) && CellAt(s.arena, 0, 0) == Cell(r * PAGE_SIZE + 8, pages * PAGE_SIZE - 12)
    ensures s.arena.blocks[0].addr == r * PAGE_SIZE && s.arena.blocks[0].size == pages * PAGE_SIZE - 8
  {
  }

  lemma TakeKeepsPages(s: Machine, i: nat, j: nat, n: nat)
    requires Inv(s) && IsCell(s.arena, i, j) && n <= CellAt(s.arena, i, j).size
    ensures IsBitmap(s.mem, s.bitmap) && IsBitmap(Take(s, i, j, n).mem, s.bitmap)
    ensures Pages(Take(s, i, j, n).mem, s.bitmap) == Pages(s.mem, s.bitmap)
  {
    TakeIsRewrite(s, i, j, n);
    RewriteKeepsPages(s, i, j, TakenCells(CellAt(s.arena, i, j), n), TakenMemory(s.mem, CellAt(s.arena, i, j), n));
    hide BlocksSafe, Linked, TakenMemory;
  }

  /**
   If no listed cell fits and there is memory, the lowest pages that are free in a row become a block
   in front of the list, and the payload of its first cell is returned; what is left of that cell is
   one free cell, or nothing.  All older cells stay as they are.
   */
  lemma MallocAddsBlock(s: Machine, n: nat) returns (r: nat, pages: nat)
    requires Inv(s) && SizeFits(s, n) && (forall i, j :: !Fits(s.arena, n, i, j)) && CanServe(s, n)
    ensures 0 < pages && (pages - 1) * PAGE_SIZE < Max(n + n / 4, s.blockMin) + 12 <= pages * PAGE_SIZE
    ensures FreeRun(Pages(s.mem, s.bitmap), r, pages)
    ensures forall q: nat :: FreeRun(Pages(s.mem, s.bitmap), q, pages) ==> r <= q
    ensures var (s', p) := Malloc(s, n);
            && s'.root == r * PAGE_SIZE && p == s'.root + 12 && s'.bitmap == s.bitmap
            && |s'.arena.blocks| == |s.arena.blocks| + 1 && s'.arena.listed == s.arena.listed + 1
            && s'.arena.blocks[0].addr == s'.root && s'.arena.blocks[0].size == pages * PAGE_SIZE - 8
            && (forall k :: 0 <= k < |s.arena.blocks| ==>
                  && s'.arena.blocks[k + 1].addr == s.arena.blocks[k].addr
                  && s'.arena.blocks[k + 1].size == s.arena.blocks[k].size)
            && (pages * PAGE_SIZE - 12 <= n + 4 ==> HasCell(s'.arena, Cell(p - 4, -(pages * PAGE_SIZE - 12))))
            && (pages * PAGE_SIZE - 12 > n + 4 ==>
                  && HasCell(s'.arena, Cell(p - 4, -(n as int)))
                  && HasCell(s'.arena, Cell(p + n, pages * PAGE_SIZE - 12 - n - 4)))
            && (forall d :: HasCell(s.arena, d) ==> Keeps(s, s', d))
            && IsBitmap(s'.mem, s.bitmap)
            && forall q :: 0 <= q < PAGE_COUNT ==>
                 Pages(s'.mem, s.bitmap)[q] == (r <= q < r + pages || Pages(s.mem, s.bitmap)[q])
  {
    ListIsShort(s);
    NothingFits(s.arena, n);
    r, pages := GrownState(s, n);
    GrownFits(s, n);
    var s1 := Grow(s, GrowSize(s.blockMin, n));
    ListIsShort(s1);
    FirstCellOfFresh(s1, r, pages);
    GrowKeeps(s, GrowSize(s.blockMin, n));
    ScanFindsFirst(s1.arena, n, 0, 0);
    TakeLeaves(s1, 0, 0, n);
    TakeKeeps(s1, 0, 0, n);
    TakeKeepsPages(s1, 0, 0, n);
    hide Inv, HasCell, Take, Grow, ScanFrom, FreshBlock, GrowSize, Flags;
    FreshIsNew(s, s1, r, pages);
    forall d | HasCell(s.arena, d)
      ensures Keeps(s, Malloc(s, n).0, d)
    {
      KeepsTransitive(s, s1, Malloc(s, n).0, d);
    }
  }

  /** The first cell of the new block is none of the old ones. */
  lemma FreshIsNew(s: Machine, s1: Machine, r: nat, pages: nat)
    requires Inv(s) && FreeRun(Pages(s.mem, s.bitmap), r, pages) && pages > 0
    ensures forall d :: HasCell(s.arena, d) ==> d != Cell(r * PAGE_SIZE + 8, pages * PAGE_SIZE - 12)
  {
    forall d | HasCell(s.arena, d)
      ensures d.addr != r * PAGE_SIZE + 8
    {
      NewPagesApart(s, pages, r);
      var i: nat, j: nat :| IsCell(s.arena, i, j) && CellAt(s.arena, i, j) == d;
      CellFacts(s, i, j);
    }
  }

  /**
   If no listed cell fits and there is no memory, NULL is returned, the list is empty, and the words
   of a block with the old root as its next one lie at address 0; nothing else in memory changes.
   */
  lemma MallocFails(s: Machine, n: nat) returns (pages: nat)
    requires Inv(s) && SizeFits(s, n) && !CanServe(s, n)
    ensures (pages - 1) * PAGE_SIZE < Max(n + n / 4, s.blockMin) + 12 <= pages * PAGE_SIZE
    ensures var (s', p) := Malloc(s, n);
            && p == 0 && s'.root == 0 && s'.arena == s.arena.(listed := 0) && s'.bitmap == s.bitmap
            && AgreeOutside(s.mem, s'.mem, 0, 12) && |s'.mem| >= 12
            && Load(s'.mem, 0) == s.root && Load(s'.mem, 4) == pages * PAGE_SIZE - 8
            && LoadSigned(s'.mem, 8) == pages * PAGE_SIZE - 12
  {
    var size := GrowSize(s.blockMin, n);
    BlockPagesAreLeast(s.blockMin, n);
    BlockPagesBound(size);
    pages := BlockPages(size);
    RootBound(s);
    BitmapInMemory(s.mem, s.bitmap);
    GrownFits(s, n);
    BlockWrittenHolds(s.mem, 0, s.root, pages * PAGE_SIZE);
    FailedMallocForgetsBlocks(s, n, n);
    FailedGrowKeepsInv(s, size);
    hide BlocksSafe, Linked, BlockWritten, ScanFrom, Search, Flags, PagesUsed, Load, LoadSigned;
  }

  // ----- What is returned -----

  /** In front of the payload lies its size, negated: the size asked for, and at most 4 bytes more. */
  lemma MallocWritesHeader(s: Machine, n: nat) returns (size: nat)
    requires Inv(s) && SizeFits(s, n) && CanServe(s, n)
    ensures n <= size <= n + 4
    ensures var (s', p) := Malloc(s, n);
            4 <= p <= |s'.mem| && LoadSigned(s'.mem, p - 4) == -(size as int)
  {
    hide Inv, HasHeader, Malloc, LoadSigned;
    MallocKeeps(s, n);
    MallocResult(s, n);
    var (s', p) := Malloc(s, n);
    var c :| Serves(s', p, n, c);
    HeaderOfCell(s', c);
    HeaderInMemory(s', p);
    size := -c.size;
  }

  /**
   `realloc` of any pointer, NULL and a cell of size 0 included: NULL exactly without memory, and
   otherwise a cell with room for `n` bytes that was not in use.  Where there is nothing to copy, it
   is `malloc`.
   */
  lemma ReallocReturns(s: Machine, p: nat, n: nat)
    requires Inv(s) && CanRealloc(s, p, n)
    ensures var (s', q) := Realloc(s, p, n);
            && (q == 0 <==> !CanServe(s, n))
            && (q != 0 ==> exists c :: HasCell(s'.arena, c) && c.Payload() == q && n <= -c.size <= n + 4)
            && (forall c :: HasCell(s.arena, c) && c.size < 0 ==> c.Payload() != q)
            && (p == 0 || CellOf(s.arena, p).size == 0 ==>
                  && (s', q) == Malloc(s, n)
                  && forall c :: HasCell(s.arena, c) && c.size < 0 ==> Keeps(s, s', c))
  {
    hide Inv, HasHeader, HasCell, Malloc, Keeps;
    MallocResult(s, n);
    MallocKeeps(s, n);
    forall c | HasCell(s.arena, c) && c.size < 0
      ensures c.Payload() != Malloc(s, n).1
    {
      MallocIsFresh(s, n, c);
    }
    if p != 0 && CellOf(s.arena, p).Live() {
      ReallocMoves(s, p, n);
    } else if p != 0 {
      OldCellStays(s, p, n);
    }
  }
}
