/**
 Where the pages of the heap come from: over every run, the free pages and the pages of heap blocks
 never go beyond those that were free or in blocks before, or that somebody gave back.
 */
module HeapPages {
  import opened Bytes
  import opened Page
  import opened HeapLayout
  import opened HeapModel
  import opened HeapRuns
  import opened Wrappers

  ghost predicate Meets(b: Block, page: nat) {
    b.addr < (page + 1) * PAGE_SIZE && page * PAGE_SIZE < b.End()
  }

  /** The page is free, or holds a byte of a heap block. */
  ghost predicate Owned(used: seq<bool>, blocks: seq<Block>, page: nat) {
    page < |used| && (!used[page] || exists i :: 0 <= i < |blocks| && Meets(blocks[i], page))
  }

  /** All these pages are among `pages`. */
  ghost predicate OwnedWithin(used: seq<bool>, blocks: seq<Block>, pages: set<nat>) {
    forall page: nat :: Owned(used, blocks, page) ==> page in pages
  }

  /** All pages of the machine that are free or the heap's are among `pages`. */
  ghost predicate Within(s: Machine, pages: set<nat>) {
    IsBitmap(s.mem, s.bitmap) && OwnedWithin(Pages(s.mem, s.bitmap), s.arena.blocks, pages)
  }

  lemma SameBlocksOwn(used: seq<bool>, blocks: seq<Block>, blocks': seq<Block>, pages: set<nat>)
    requires OwnedWithin(used, blocks, pages) && SameBlocks(blocks, blocks')
    ensures OwnedWithin(used, blocks', pages)
  {
    forall page: nat | Owned(used, blocks', page)
      ensures page in pages
    {
      if i :| 0 <= i < |blocks'| && Meets(blocks'[i], page) {
        assert Meets(blocks[i], page);
      }
      assert Owned(used, blocks, page);
    }
  }

  /** Memory changes outside the bitmap, or cells within their blocks. */
  lemma SamePagesWithin(s: Machine, s': Machine, pages: set<nat>)
    requires Within(s, pages) && s'.bitmap == s.bitmap && |s'.mem| == |s.mem|
    requires Agree(s.mem, s'.mem, s.bitmap, s.bitmap + PAGE_BITMAP_SIZE)
    requires SameBlocks(s.arena.blocks, s'.arena.blocks)
    ensures Within(s', pages)
  {
    PagesOfAgree(s.mem, s'.mem, s.bitmap);
    SameBlocksOwn(Pages(s.mem, s.bitmap), s.arena.blocks, s'.arena.blocks, pages);
  }

  // ----- malloc, free, realloc -----

  lemma RewriteWithin(s: Machine, i: nat, j: nat, cs: seq<Cell>, m': seq<byte>, pages: set<nat>)
    requires Inv(s) && IsRewrite(s, i, j, cs, m') && Within(s, pages)
    ensures Within(Rewritten(s, i, j, cs, m'), pages)
  {
    hide BlocksSafe, Linked, Pages, OwnedWithin;
    var c := CellAt(s.arena, i, j);
    assert HasCell(s.arena, c);
    CellIsSafe(s, c);
    SamePagesWithin(s, Rewritten(s, i, j, cs, m'), pages);
  }

  lemma MarkedOwn(used: seq<bool>, blocks: seq<Block>, start: nat, end: nat, value: bool, pages: set<nat>)
    requires OwnedWithin(used, blocks, pages)
    requires value == PAGE_FREE ==> forall page: nat :: start <= page < end ==> page in pages
    ensures OwnedWithin(Marked(used, start, end, value), blocks, pages)
  {
    forall page: nat | Owned(Marked(used, start, end, value), blocks, page)
      ensures page in pages
    {
      assert Owned(used, blocks, page) || (value == PAGE_FREE && start <= page < end);
    }
  }

  /** A new block on pages that were free. */
  lemma FreshBlockOwns(used: seq<bool>, blocks: seq<Block>, r: nat, n: nat, pages: set<nat>)
    requires OwnedWithin(used, blocks, pages) && FreeRun(used, r, n) && BLOCK_HEADER + CELL_HEADER <= n * PAGE_SIZE
    ensures OwnedWithin(used, [FreshBlock(r * PAGE_SIZE, n * PAGE_SIZE)] + blocks, pages)
  {
    var b := FreshBlock(r * PAGE_SIZE, n * PAGE_SIZE);
    forall page: nat | Owned(used, [b] + blocks, page)
      ensures page in pages
    {
      if Meets(b, page) {
        assert r <= page < r + n;
      } else if used[page] {
        var i :| 0 <= i < |[b] + blocks| && Meets(([b] + blocks)[i], page);
        assert ([b] + blocks)[i] == blocks[i - 1];
      }
      assert Owned(used, blocks, page);
    }
  }

  lemma GrowWithin(s: Machine, size: nat, pages: set<nat>)
    requires Inv(s) && size + BLOCK_HEADER + CELL_HEADER <= TWO_31 && Within(s, pages)
    ensures Within(Grow(s, size), pages)
  {
    hide BlocksSafe, Linked, OwnedWithin, GrownMemory, PagesUsed, FreshBlock, Flags, Search;
    BlockPagesBound(size);
    var used, s' := Pages(s.mem, s.bitmap), Grow(s, size);
    if NewRun(s, size) == -1 {
      FailedGrowKeepsInv(s, size);
      SamePagesWithin(s, s', pages);
    } else {
      var r, n := NewRun(s, size), BlockPages(size);
      NewRunFits(s, size);
      GrownFields(s, size);
      RootBound(s);
      GrownMemoryHolds(s.mem, s.bitmap, r, n, s.root);
      FreshBlockOwns(used, s.arena.blocks, r, n, pages);
      MarkedOwn(used, s'.arena.blocks, r, r + n, PAGE_USED, pages);
    }
  }

  lemma MallocWithin(s: Machine, n: nat, pages: set<nat>)
    requires Inv(s) && SizeFits(s, n) && Within(s, pages)
    ensures Within(Malloc(s, n).0, pages)
  {
    hide Inv, Within, Grow;
    ListIsShort(s);
    var s1 := if FirstFit(s.arena, n).Some? then s else Grow(s, GrowSize(s.blockMin, n));
    if FirstFit(s.arena, n).None? {
      GrowKeepsInv(s, GrowSize(s.blockMin, n));
      GrowWithin(s, GrowSize(s.blockMin, n), pages);
    }
    ListIsShort(s1);
    match FirstFit(s1.arena, n)
    case None =>
    case Some((i, j)) =>
      ScanFindsFirst(s1.arena, n, 0, 0);
      TakeIsRewrite(s1, i, j, n);
      RewriteWithin(s1, i, j, TakenCells(CellAt(s1.arena, i, j), n), TakenMemory(s1.mem, CellAt(s1.arena, i, j), n), pages);
  }

  lemma FreeWithin(s: Machine, p: nat, pages: set<nat>)
    requires Inv(s) && IsPointer(s.arena, p) && Within(s, pages)
    ensures Within(Free(s, p), pages)
  {
    hide Inv, Within;
    if p != 0 && CellOf(s.arena, p).Live() {
      var (i, j) := Locate(s.arena, p - CELL_HEADER);
      var c := CellAt(s.arena, i, j);
      FlipIsRewrite(s, i, j);
      RewriteWithin(s, i, j, [Cell(c.addr, -c.size)], StoreSigned(s.mem, c.addr, -c.size), pages);
    }
  }

  lemma CopyWithin(s: Machine, p: nat, n: nat, pages: set<nat>)
    requires Inv(s) && CanRealloc(s, p, n) && p != 0 && CellOf(s.arena, p).Live() && Within(s, pages)
    ensures Within(Copied(s, p, n), pages)
  {
    hide Inv, Malloc, OwnedWithin, Pages;
    var (s1, q) := Malloc(s, n);
    MallocWithin(s, n, pages);
    CopyKeeps(s, p, n);
    MallocResult(s, n);
    if CanServe(s, n) {
      ReallocTarget(s, p, n);
      CellIsSafe(s1, CellOf(s1.arena, q));
    } else {
      FailedMallocForgetsBlocks(s, n, n);
    }
    SamePagesWithin(s1, Copied(s, p, n), pages);
  }

  lemma ReallocWithin(s: Machine, p: nat, n: nat, pages: set<nat>)
    requires Inv(s) && CanRealloc(s, p, n) && Within(s, pages)
    ensures Within(Realloc(s, p, n).0, pages)
  {
    hide Inv, Malloc, Within, Free;
    if p != 0 && CellOf(s.arena, p).Live() {
      CopyWithin(s, p, n, pages);
    } else {
      MallocWithin(s, n, pages);
    }
    FreeWithin(Copied(s, p, n), p, pages);
  }

  // ----- Runs -----

  /** What the step gives back to the page allocator is among `pages`. */
  ghost predicate FreesWithin(op: Op, pages: set<nat>) {
    op.OpPageFree? ==> forall page: nat :: op.ptr / PAGE_SIZE <= page < op.ptr / PAGE_SIZE + op.n ==> page in pages
  }

  lemma StepWithin(s: Machine, op: Op, pages: set<nat>)
    requires Inv(s) && Legal(s, op) && Within(s, pages) && FreesWithin(op, pages)
    ensures Within(Apply(s, op), pages)
  {
    hide Inv, Malloc, Free, Realloc, Within;
    match op
    case OpMalloc(n) => MallocWithin(s, n, pages);
    case OpFree(p) => FreeWithin(s, p, pages);
    case OpRealloc(p, n) => ReallocWithin(s, p, n, pages);
    case OpStore(a, v) => StoreWithin(s, a, v, pages);
    case OpPageAlloc(n, step) => PageStepWithin(s, op, pages);
    case OpPageFree(ptr, n) => PageStepWithin(s, op, pages);
  }

  lemma StoreWithin(s: Machine, a: nat, v: byte, pages: set<nat>)
    requires Inv(s) && MayStore(s, a) && Within(s, pages)
    ensures a < |s.mem| && Within(s.(mem := s.mem[a := v]), pages)
  {
    hide Inv, OwnedWithin, Pages;
    StoreInMemory(s, a);
    if c :| HasCell(s.arena, c) && c.Live() && c.Payload() <= a < c.End() {
      CellIsSafe(s, c);
    }
    SamePagesWithin(s, s.(mem := s.mem[a := v]), pages);
  }

  lemma PageStepWithin(s: Machine, op: Op, pages: set<nat>)
    requires Inv(s) && Legal(s, op) && (op.OpPageAlloc? || op.OpPageFree?) && Within(s, pages) && FreesWithin(op, pages)
    ensures Within(Apply(s, op), pages)
  {
    hide BlocksSafe, Linked, OwnedWithin, MarkedMemory, Flags, Search, PagesUsed;
    var used := Pages(s.mem, s.bitmap);
    match op
    case OpPageAlloc(n, step) =>
      var r := Search(used, n, StepPages(step), 0);
      if r != -1 {
        PagesOfMarkedMemory(s.mem, s.bitmap, r, r + n, PAGE_USED);
        MarkedOwn(used, s.arena.blocks, r, r + n, PAGE_USED, pages);
      }
    case OpPageFree(ptr, n) =>
      PagesOfMarkedMemory(s.mem, s.bitmap, ptr / PAGE_SIZE, ptr / PAGE_SIZE + n, PAGE_FREE);
      MarkedOwn(used, s.arena.blocks, ptr / PAGE_SIZE, ptr / PAGE_SIZE + n, PAGE_FREE, pages);
  }

  /**
   Over every run, the pages that are free or the heap's stay among `pages`, if they were to begin
   with and everything given back by others is.
   */
  lemma {:induction false} RunWithin(s: Machine, ops: seq<Op>, pages: set<nat>)
    requires Inv(s) && LegalRun(s, ops) && Within(s, pages)
    requires forall i :: 0 <= i < |ops| ==> FreesWithin(ops[i], pages)
    ensures Within(Run(s, ops), pages)
    decreases |ops|
  {
    hide Inv, Within, FreesWithin;
    if ops != [] {
      StepKeeps(s, ops[0]);
      StepWithin(s, ops[0], pages);
      RunWithin(Apply(s, ops[0]), ops[1..], pages);
    }
  }

  /** Every byte of a cell is on one of these pages. */
  lemma CellWithin(s: Machine, c: Cell, a: nat, pages: set<nat>)
    requires Inv(s) && Within(s, pages) && HasCell(s.arena, c) && c.addr <= a < c.End()
    ensures a / PAGE_SIZE in pages
  {
    hide Inv;
    var i: nat, j: nat :| IsCell(s.arena, i, j) && CellAt(s.arena, i, j) == c;
    CellFacts(s, i, j);
    CellIsSafe(s, c);
    assert Meets(s.arena.blocks[i], a / PAGE_SIZE);
    assert Owned(Pages(s.mem, s.bitmap), s.arena.blocks, a / PAGE_SIZE);
  }
}
