/**
 Laws of `malloc`, `free` and `realloc` on the whole machine, and what holds over every run of
 them, interleaved with stores by their clients and with other users of the page allocator.
 */
module HeapRuns {
  import opened Bytes
  import opened Page
  import opened HeapLayout
  import opened HeapModel
  import opened Wrappers

  // ----- malloc -----

  /** `malloc` keeps the invariant, every live cell with its bytes, and every header. */
  lemma MallocKeeps(s: Machine, n: nat)
    requires Inv(s) && SizeFits(s, n)
    ensures Inv(Malloc(s, n).0)
    ensures forall c :: HasCell(s.arena, c) && c.size < n ==> Keeps(s, Malloc(s, n).0, c)
    ensures forall c :: HasCell(s.arena, c) && c.size <= 0 ==> HasCell(Malloc(s, n).0.arena, c)
    ensures forall a :: HasHeader(s.arena, a) ==> HasHeader(Malloc(s, n).0.arena, a)
  {
    var s1 := if FirstFit(s.arena, n).Some? then s else Grow(s, GrowSize(s.blockMin, n));
    if FirstFit(s.arena, n).None? {
      GrowKeeps(s, GrowSize(s.blockMin, n));
    }
    MallocOnceKeeps(s1, n);
  }

  lemma MallocOnceKeeps(s: Machine, n: nat)
    requires Inv(s)
    ensures Inv(MallocOnce(s, n).0)
    ensures forall c :: HasCell(s.arena, c) && c.size < n ==> Keeps(s, MallocOnce(s, n).0, c)
    ensures forall c :: HasCell(s.arena, c) && c.size <= 0 ==> HasCell(MallocOnce(s, n).0.arena, c)
    ensures forall a :: HasHeader(s.arena, a) ==> HasHeader(MallocOnce(s, n).0.arena, a)
  {
    hide HasCell, HasHeader, Take;
    match FirstFit(s.arena, n)
    case None =>
      assert forall c :: HasCell(s.arena, c) ==> Keeps(s, s, c);
    case Some((i, j)) =>
      ScanFindsFirst(s.arena, n, 0, 0);
      TakeKeeps(s, i, j, n);
  }

  /**
   `malloc` fails exactly when no listed cell fits and no run of free pages is left.  Otherwise it
   returns the payload of a genuine header, with the size asked for and at most 4 bytes more.
   */
  lemma MallocResult(s: Machine, n: nat)
    requires Inv(s) && SizeFits(s, n)
    ensures var (s', p) := Malloc(s, n);
            && (p == 0 <==> !CanServe(s, n))
            && (p != 0 ==> exists c :: Serves(s', p, n, c))
  {
    var s1 := if FirstFit(s.arena, n).Some? then s else Grow(s, GrowSize(s.blockMin, n));
    if FirstFit(s.arena, n).None? {
      GrownFits(s, n);
    }
    match FirstFit(s1.arena, n)
    case None =>
    case Some((i, j)) =>
      ScanFindsFirst(s1.arena, n, 0, 0);
      TakeKeeps(s1, i, j, n);
      var c := TakenCells(CellAt(s1.arena, i, j), n)[0];
      assert Serves(Malloc(s, n).0, Malloc(s, n).1, n, c);
  }

  /** Cell `c` is a used cell at pointer `p` with room for `n` bytes, and at most 4 bytes more. */
  ghost predicate Serves(s: Machine, p: nat, n: nat, c: Cell) {
    HasCell(s.arena, c) && c.Payload() == p && n <= -c.size <= n + CELL_HEADER
  }

  /** `malloc` never hands out a pointer to a cell that is in use. */
  lemma MallocIsFresh(s: Machine, n: nat, c: Cell)
    requires Inv(s) && SizeFits(s, n) && HasCell(s.arena, c) && c.size < n
    ensures c.Payload() != Malloc(s, n).1
  {
    var s1 := if FirstFit(s.arena, n).Some? then s else Grow(s, GrowSize(s.blockMin, n));
    if FirstFit(s.arena, n).None? {
      GrowKeeps(s, GrowSize(s.blockMin, n));
      assert Keeps(s, s1, c);
    }
    match FirstFit(s1.arena, n)
    case None =>
    case Some((i, j)) =>
      ScanFindsFirst(s1.arena, n, 0, 0);
      var k, l :| IsCell(s1.arena, k, l) && CellAt(s1.arena, k, l) == c;
      if c.addr == CellAt(s1.arena, i, j).addr {
        HeaderUnique(s1, i, j, k, l);
      }
  }

  /** Cells never overlap. */
  lemma CellsNeverOverlap(s: Machine, c: Cell, d: Cell)
    requires Inv(s) && HasCell(s.arena, c) && HasCell(s.arena, d) && c != d
    ensures Apart(c.addr, c.End(), d.addr, d.End())
  {
    hide Inv, Apart;
    var i: nat, j: nat :| IsCell(s.arena, i, j) && CellAt(s.arena, i, j) == c;
    var i', j' :| IsCell(s.arena, i', j') && CellAt(s.arena, i', j') == d;
    CellsApart(s, i, j, i', j');
  }

  /** A cell lies in memory, on used pages, apart from page 0 and from the bitmap. */
  lemma CellIsSafe(s: Machine, c: Cell)
    requires Inv(s) && HasCell(s.arena, c)
    ensures PAGE_SIZE <= c.addr && c.End() <= MEMORY_SIZE
    ensures Apart(c.addr, c.End(), s.bitmap, s.bitmap + PAGE_BITMAP_SIZE)
    ensures PagesUsed(Pages(s.mem, s.bitmap), c.addr, c.End())
  {
    hide Inv, PagesUsed, Flags;
    var i: nat, j: nat :| IsCell(s.arena, i, j) && CellAt(s.arena, i, j) == c;
    CellFacts(s, i, j);
    BlockFacts(s, i);
    SubrangeUsed(Pages(s.mem, s.bitmap), s.arena.blocks[i], c);
  }

  lemma SubrangeUsed(used: seq<bool>, b: Block, c: Cell)
    requires PagesUsed(used, b.addr, b.End()) && b.addr <= c.addr && c.End() <= b.End()
    ensures PagesUsed(used, c.addr, c.End())
  {
  }

  /** A header address belongs to one cell. */
  lemma OneCellPerHeader(s: Machine, c: Cell, d: Cell)
    requires Inv(s) && HasCell(s.arena, c) && HasCell(s.arena, d) && c.addr == d.addr
    ensures c == d
  {
    if c != d {
      CellsNeverOverlap(s, c, d);
    }
  }

  // ----- free -----

  /** `free` makes a live cell free, and changes nothing else. */
  lemma FreeKeeps(s: Machine, p: nat)
    requires Inv(s) && IsPointer(s.arena, p)
    ensures var s' := Free(s, p);
            && Inv(s')
            && (forall c :: HasCell(s.arena, c) && c.Payload() != p ==> Keeps(s, s', c))
            && (forall a :: HasHeader(s.arena, a) ==> HasHeader(s'.arena, a))
            && (p != 0 && CellOf(s.arena, p).Live() ==> HasCell(s'.arena, Cell(p - CELL_HEADER, -CellOf(s.arena, p).size)))
            && (p == 0 || !CellOf(s.arena, p).Live() ==> s' == s)
  {
    hide Inv, HasCell, HasHeader, IsRewrite;
    if p != 0 && CellOf(s.arena, p).Live() {
      var (i, j) := Locate(s.arena, p - CELL_HEADER);
      var c := CellAt(s.arena, i, j);
      FlipIsRewrite(s, i, j);
      var cs, m' := [Cell(c.addr, -c.size)], StoreSigned(s.mem, c.addr, -c.size);
      RewriteKeepsInv(s, i, j, cs, m');
      RewriteAddsCells(s, i, j, cs, 0);
      forall d | HasCell(s.arena, d) && d.Payload() != p
        ensures Keeps(s, Free(s, p), d)
      {
        RewriteKeepsCells(s, i, j, cs, m', d);
      }
      forall a | HasHeader(s.arena, a)
        ensures HasHeader(Free(s, p).arena, a)
      {
        RewriteKeepsHeaders(s, i, j, cs, m', a);
      }
    } else {
      assert forall c :: HasCell(s.arena, c) ==> Keeps(s, s, c);
    }
  }

  // ----- When there is no memory -----

  /**
   When `malloc` fails, the block list is gone: no cell is listed any more, so that not even a
   request that a free cell could have served is met without a new block.
   */
  lemma FailedMallocForgetsBlocks(s: Machine, n: nat, m: nat)
    requires Inv(s) && SizeFits(s, n) && !CanServe(s, n)
    ensures var s' := Malloc(s, n).0;
            && Inv(s') && s'.root == 0 && s'.arena == s.arena.(listed := 0) && s'.bitmap == s.bitmap
            && FirstFit(s'.arena, m).None?
  {
    hide BlocksSafe, Linked;
    MallocKeeps(s, n);
    GrownFits(s, n);
    BlockPagesBound(GrowSize(s.blockMin, n));
  }

  /** `malloc` can serve a request if and only if a listed cell fits, or enough pages in a row are free. */
  lemma ServedExactly(s: Machine, n: nat)
    requires Inv(s) && SizeFits(s, n)
    ensures CanServe(s, n) <==>
            || (exists i, j :: Fits(s.arena, n, i, j))
            || (exists r: nat :: FreeRun(Pages(s.mem, s.bitmap), r, BlockPages(GrowSize(s.blockMin, n))))
  {
    ListIsShort(s);
    ScanFindsFirst(s.arena, n, 0, 0);
    var size := GrowSize(s.blockMin, n);
    if FirstFit(s.arena, n).None? {
      BlockPagesBound(size);
      UnitStepFindsLowest(Pages(s.mem, s.bitmap), BlockPages(size), 0);
    }
    hide Inv, ScanFrom, Search, Flags;
  }

  /** A block at address `a` is on the list. */
  ghost predicate Listed(arena: Arena, a: nat) {
    exists i :: 0 <= i < arena.listed && i < |arena.blocks| && arena.blocks[i].addr == a
  }

  lemma TakeKeepsListed(s: Machine, i: nat, j: nat, n: nat)
    requires Inv(s) && IsCell(s.arena, i, j) && n <= CellAt(s.arena, i, j).size
    ensures forall a :: Listed(s.arena, a) ==> Listed(Take(s, i, j, n).arena, a)
  {
    hide Inv;
    var arena' := Take(s, i, j, n).arena;
    forall k | 0 <= k < |s.arena.blocks|
      ensures k < |arena'.blocks| && arena'.blocks[k].addr == s.arena.blocks[k].addr
    {
    }
  }

  /** Every block on the list stays on it if and only if `malloc` succeeds (or there was none). */
  lemma BlockListSurvives(s: Machine, n: nat)
    requires Inv(s) && SizeFits(s, n)
    ensures (forall a :: Listed(s.arena, a) ==> Listed(Malloc(s, n).0.arena, a))
            <==> CanServe(s, n) || s.arena.listed == 0
  {
    hide Inv, Take;
    ListIsShort(s);
    if CanServe(s, n) {
      var s1 := if FirstFit(s.arena, n).Some? then s else Grow(s, GrowSize(s.blockMin, n));
      if FirstFit(s.arena, n).None? {
        GrownFits(s, n);
        GrowKeepsListed(s, GrowSize(s.blockMin, n));
      }
      var (i, j) := FirstFit(s1.arena, n).value;
      ScanFindsFirst(s1.arena, n, 0, 0);
      TakeKeepsListed(s1, i, j, n);
    } else {
      FailedMallocForgetsBlocks(s, n, n);
      if s.arena.listed > 0 {
        assert Listed(s.arena, s.arena.blocks[0].addr);
      }
    }
  }

  lemma ListIsShort(s: Machine)
    requires Inv(s)
    ensures s.arena.listed <= |s.arena.blocks|
  {
  }

  lemma GrowKeepsListed(s: Machine, size: nat)
    requires Inv(s) && size + BLOCK_HEADER + CELL_HEADER <= TWO_31
    requires BlockPages(size) <= PAGE_COUNT && NewRun(s, size) != -1
    ensures forall a :: Listed(s.arena, a) ==> Listed(Grow(s, size).arena, a)
  {
    hide Inv, GrownMemory, NewRun, FreshBlock;
    var arena' := Grow(s, size).arena;
    forall a | Listed(s.arena, a)
      ensures Listed(arena', a)
    {
      var i :| 0 <= i < s.arena.listed && i < |s.arena.blocks| && s.arena.blocks[i].addr == a;
      assert arena'.blocks[i + 1] == s.arena.blocks[i];
    }
  }

  // ----- realloc -----

  /** A copy of `k` bytes to address 0 stays below the bitmap and below the sizes of all blocks. */
  ghost predicate CopyFits(s: Machine, k: nat) {
    k <= s.bitmap && forall i :: 0 <= i < |s.arena.blocks| ==> k <= s.arena.blocks[i].addr + 4
  }

  /**
   What `realloc` demands: sizes that fit and a pointer in use.  If there is no memory to move it
   to, the copy goes to address 0, and must not reach the heap or the bitmap.
   */
  ghost predicate CanRealloc(s: Machine, p: nat, n: nat)
    requires Inv(s)
  {
    && SizeFits(s, n)
    && IsPointer(s.arena, p)
    && (p != 0 ==>
          && CellOf(s.arena, p).size <= 0
          && (CanServe(s, n) || CopyFits(s, Min(n, -CellOf(s.arena, p).size))))
  }

  /** A cell whose header is untouched is a tiling of its own stretch. */
  lemma LoneCell(m: seq<byte>, m': seq<byte>, c: Cell)
    requires CellInMemory(m, c) && |m'| == |m| && Agree(m, m', c.addr, c.addr + CELL_HEADER)
    ensures CellsInMemory(m', [c]) && Tiles([c], c.addr, c.End())
  {
    LoadOfAgree(m, m', c.addr);
    assert [c][1..] == [];
  }

  /** Copying bytes into a cell's payload. */
  lemma CopyIsRewrite(s: Machine, c: Cell, bytes: seq<byte>)
    requires Inv(s) && HasCell(s.arena, c) && |bytes| <= Abs(c.size)
    ensures c.End() <= |s.mem|
    ensures var s' := s.(mem := Blit(s.mem, c.Payload(), bytes));
            && Inv(s')
            && forall d :: HasCell(s.arena, d) && d != c ==> Keeps(s, s', d)
  {
    hide Inv;
    var i: nat, j: nat :| IsCell(s.arena, i, j) && CellAt(s.arena, i, j) == c;
    CellFacts(s, i, j);
    var m' := Blit(s.mem, c.Payload(), bytes);
    LoneCell(s.mem, m', c);
    RewriteKeepsInv(s, i, j, [c], m');
    RewriteItself(s.arena, i, j);
    forall d | HasCell(s.arena, d) && d != c
      ensures Keeps(s, s.(mem := m'), d)
    {
      RewriteKeepsCells(s, i, j, [c], m', d);
    }
  }

  lemma RewriteItself(arena: Arena, i: nat, j: nat)
    requires IsCell(arena, i, j)
    ensures Rewrite(arena, i, j, [CellAt(arena, i, j)]) == arena
  {
    var b := arena.blocks[i];
    assert Replaced(b.cells, j, [b.cells[j]]) == b.cells;
  }

  /** The first bytes of the old payload, as many as fit the new one. */
  ghost function Moved(s: Machine, p: nat, n: nat): (bytes: seq<byte>)
    requires Inv(s) && HasHeader(s.arena, p - CELL_HEADER) && CellOf(s.arena, p).Live()
    ensures |bytes| == Min(n, -CellOf(s.arena, p).size)
  {
    var c := CellOf(s.arena, p);
    CellIsSafe(s, c);
    assert |s.mem| == MEMORY_SIZE;
    s.mem[p..p + Min(n, -c.size)]
  }

  /** `s1` still has cell `c`, and pointer `q` is another cell with room for `n` bytes. */
  ghost predicate IsTarget(s1: Machine, c: Cell, q: nat, n: nat) {
    && Inv(s1)
    && HasHeader(s1.arena, c.addr) && CellOf(s1.arena, c.Payload()) == c
    && HasHeader(s1.arena, q - CELL_HEADER) && Serves(s1, q, n, CellOf(s1.arena, q))
    && q != c.Payload()
  }

  lemma ReallocTarget(s: Machine, p: nat, n: nat)
    requires Inv(s) && CanRealloc(s, p, n) && p != 0 && CellOf(s.arena, p).Live() && CanServe(s, n)
    ensures IsTarget(Malloc(s, n).0, CellOf(s.arena, p), Malloc(s, n).1, n)
  {
    hide Inv;
    var (s1, q) := Malloc(s, n);
    var c := CellOf(s.arena, p);
    MallocKeeps(s, n);
    MallocResult(s, n);
    MallocIsFresh(s, n, c);
    var d :| Serves(s1, q, n, d);
    assert Keeps(s, s1, c);
    HeaderOfCell(s1, c);
    HeaderOfCell(s1, d);
  }

  lemma HeaderOfCell(s: Machine, c: Cell)
    requires Inv(s) && HasCell(s.arena, c)
    ensures HasHeader(s.arena, c.addr) && CellOf(s.arena, c.Payload()) == c
  {
    hide Inv;
    var i: nat, j: nat :| IsCell(s.arena, i, j) && CellAt(s.arena, i, j) == c;
    OneCellPerHeader(s, c, CellOf(s.arena, c.Payload()));
  }

  /** A block whose cells and size lie behind a change at the beginning of memory. */
  lemma BlockBehind(m: seq<byte>, m': seq<byte>, b: Block, hi: nat)
    requires BlockInMemory(m, b) && AgreeOutside(m, m', 0, hi) && hi <= b.addr + 4
    ensures BlockInMemory(m', b)
  {
    LoadOfAgree(m, m', b.addr + 4);
    CellsElsewhere(m, m', b.cells, b.Data(), b.End(), 0, hi);
  }

  /** Without a block list, bytes at address 0 that end below bitmap and blocks do no harm. */
  lemma NullCopyKeeps(s: Machine, bytes: seq<byte>)
    requires Inv(s) && s.arena.listed == 0 && CopyFits(s, |bytes|)
    ensures |bytes| <= |s.mem|
    ensures var s' := s.(mem := Blit(s.mem, 0, bytes));
            && Inv(s')
            && forall c :: HasCell(s.arena, c) ==> Keeps(s, s', c)
  {
    var m' := Blit(s.mem, 0, bytes);
    PagesOfAgree(s.mem, m', s.bitmap);
    forall i | 0 <= i < |s.arena.blocks|
      ensures BlockSafe(m', s.bitmap, s.arena.blocks, i)
    {
      BlockFacts(s, i);
      BlockBehind(s.mem, m', s.arena.blocks[i], |bytes|);
    }
    forall c | HasCell(s.arena, c)
      ensures Keeps(s, s.(mem := m'), c)
    {
      var i: nat, j: nat :| IsCell(s.arena, i, j) && CellAt(s.arena, i, j) == c;
      CellFacts(s, i, j);
    }
  }

  /** Where `realloc` copies to, and what the copy keeps. */
  lemma CopyKeeps(s: Machine, p: nat, n: nat)
    requires Inv(s) && CanRealloc(s, p, n) && p != 0 && CellOf(s.arena, p).Live()
    ensures var (s1, q), bytes := Malloc(s, n), Moved(s, p, n);
            && Inv(s1) && q + |bytes| <= |s1.mem|
            && var s' := s1.(mem := Blit(s1.mem, q, bytes));
               && Inv(s')
               && forall d :: HasCell(s1.arena, d) && d.Payload() != q ==> Keeps(s1, s', d)
  {
    hide Inv, Malloc, Keeps;
    MallocKeeps(s, n);
    MallocResult(s, n);
    var (s1, q) := Malloc(s, n);
    if CanServe(s, n) {
      ReallocTarget(s, p, n);
      CopyIsRewrite(s1, CellOf(s1.arena, q), Moved(s, p, n));
    } else {
      FailedMallocForgetsBlocks(s, n, n);
      NullCopyKeeps(s1, Moved(s, p, n));
    }
  }

  /** The machine after the new cell is allocated and, if the old one is in use, filled. */
  ghost function Copied(s: Machine, p: nat, n: nat): (s': Machine)
    requires Inv(s) && CanRealloc(s, p, n)
    ensures Inv(s') && IsPointer(s'.arena, p)
  {
    MallocKeeps(s, n);
    var (s1, q) := Malloc(s, n);
    if p != 0 && CellOf(s.arena, p).Live() then
      CopyKeeps(s, p, n);
      s1.(mem := Blit(s1.mem, q, Moved(s, p, n)))
    else s1
  }

  /** A cell that is in use, or of size 0, is still there after the request that `realloc` makes first. */
  lemma OldCellStays(s: Machine, p: nat, n: nat)
    requires Inv(s) && SizeFits(s, n) && p != 0 && IsPointer(s.arena, p) && CellOf(s.arena, p).size <= 0
    ensures var s1 := Malloc(s, n).0;
            Inv(s1) && HasHeader(s1.arena, p - CELL_HEADER) && CellOf(s1.arena, p) == CellOf(s.arena, p)
  {
    hide Inv;
    MallocKeeps(s, n);
    HeaderOfCell(Malloc(s, n).0, CellOf(s.arena, p));
  }

  lemma HeaderInMemory(s: Machine, p: nat)
    requires Inv(s) && HasHeader(s.arena, p - CELL_HEADER)
    ensures CELL_HEADER <= p <= |s.mem| && LoadSigned(s.mem, p - CELL_HEADER) == CellOf(s.arena, p).size
    ensures CellOf(s.arena, p).size > -TWO_31
  {
    hide Inv;
    var (i, j) := Locate(s.arena, p - CELL_HEADER);
    CellFacts(s, i, j);
  }

  /** The header of the old cell after the new one has been allocated. */
  lemma HeaderAfterMalloc(s: Machine, p: nat, n: nat)
    requires Inv(s) && CanRealloc(s, p, n) && p != 0
    ensures var s1 := Malloc(s, n).0;
            && Inv(s1) && HasHeader(s1.arena, p - CELL_HEADER)
            && CELL_HEADER <= p <= |s1.mem|
            && LoadSigned(s1.mem, p - CELL_HEADER) == CellOf(s.arena, p).size == CellOf(s1.arena, p).size
            && CellOf(s.arena, p).size > -TWO_31
  {
    hide Inv;
    OldCellStays(s, p, n);
    HeaderInMemory(Malloc(s, n).0, p);
  }

  lemma KeptCell(s: Machine, s': Machine, c: Cell)
    requires Keeps(s, s', c)
    ensures HasCell(s'.arena, c)
  {
  }

  /** The bytes of a cell that is kept. */
  lemma KeptBytes(s: Machine, s': Machine, c: Cell, k: nat)
    requires Keeps(s, s', c) && c.End() <= |s.mem| && k <= Abs(c.size)
    ensures c.Payload() + k <= |s'.mem| == |s.mem|
    ensures s'.mem[c.Payload()..c.Payload() + k] == s.mem[c.Payload()..c.Payload() + k]
  {
  }

  /** The copy of `realloc`: source and target lie apart, and the source is still as it was. */
  lemma CopyInPlace(s: Machine, p: nat, n: nat)
    requires Inv(s) && CanRealloc(s, p, n) && p != 0 && CellOf(s.arena, p).Live()
    ensures var (s1, q), k := Malloc(s, n), |Moved(s, p, n)|;
            && p + k <= |s1.mem| && q + k <= |s1.mem|
            && Apart(q, q + k, p, p + k)
            && s1.mem[p..p + k] == Moved(s, p, n)
  {
    hide Inv, Malloc, Keeps;
    var (s1, q) := Malloc(s, n);
    var c := CellOf(s.arena, p);
    CopyKeeps(s, p, n);
    CellIsSafe(s, c);
    if CanServe(s, n) {
      ReallocTarget(s, p, n);
      CellsNeverOverlap(s1, c, CellOf(s1.arena, q));
    } else {
      MallocResult(s, n);
      BehindCopy(s, c, |Moved(s, p, n)|);
    }
    MallocKeeps(s, n);
    assert Keeps(s, s1, c);
    CopyIsRewrite(s, c, Moved(s, p, n));
    KeptBytes(s, s1, c, |Moved(s, p, n)|);
  }

  /** A copy to address 0 that fits ends in front of every header. */
  lemma BehindCopy(s: Machine, c: Cell, k: nat)
    requires Inv(s) && HasCell(s.arena, c) && CopyFits(s, k)
    ensures k <= c.addr
  {
    var i: nat, j: nat :| IsCell(s.arena, i, j) && CellAt(s.arena, i, j) == c;
    CellFacts(s, i, j);
  }

  ghost function Realloc(s: Machine, p: nat, n: nat): (r: (Machine, nat))
    requires Inv(s) && CanRealloc(s, p, n)
  {
    (Free(Copied(s, p, n), p), Malloc(s, n).1)
  }

  lemma CopiedKeeps(s: Machine, p: nat, n: nat)
    requires Inv(s) && CanRealloc(s, p, n)
    ensures forall c :: HasCell(s.arena, c) && c.Live() ==> Keeps(s, Copied(s, p, n), c)
    ensures forall a :: HasHeader(s.arena, a) ==> HasHeader(Copied(s, p, n).arena, a)
  {
    hide Inv, HasHeader;
    MallocKeeps(s, n);
    var (s1, q) := Malloc(s, n);
    if p != 0 && CellOf(s.arena, p).Live() {
      CopyKeeps(s, p, n);
      forall c | HasCell(s.arena, c) && c.Live()
        ensures Keeps(s, Copied(s, p, n), c)
      {
        MallocIsFresh(s, n, c);
        KeepsTransitive(s, s1, Copied(s, p, n), c);
      }
    }
  }

  /** Every live cell but the one at `p` survives `realloc` unchanged, and so does every header. */
  lemma ReallocKeeps(s: Machine, p: nat, n: nat)
    requires Inv(s) && CanRealloc(s, p, n)
    ensures Inv(Realloc(s, p, n).0)
    ensures forall c :: HasCell(s.arena, c) && c.Live() && c.Payload() != p ==> Keeps(s, Realloc(s, p, n).0, c)
    ensures forall a :: HasHeader(s.arena, a) ==> HasHeader(Realloc(s, p, n).0.arena, a)
  {
    hide Inv, HasHeader, HasCell;
    CopiedKeeps(s, p, n);
    FreeKeeps(Copied(s, p, n), p);
  }

  lemma SameOutside(m: seq<byte>, lo: int, hi: int)
    ensures AgreeOutside(m, m, lo, hi)
  {
  }

  /** `free` writes to the header only. */
  lemma FreeChanges(s: Machine, p: nat)
    requires Inv(s) && p != 0 && IsPointer(s.arena, p)
    ensures AgreeOutside(s.mem, Free(s, p).mem, p - CELL_HEADER, p)
  {
    hide Inv, StoreSigned, HasHeader, IsRewrite, AgreeOutside;
    if CellOf(s.arena, p).Live() {
      var (i, j) := Locate(s.arena, p - CELL_HEADER);
      FlipIsRewrite(s, i, j);
      LoadOfStoreSigned(s.mem, p - CELL_HEADER, -CellAt(s.arena, i, j).size);
    } else {
      SameOutside(s.mem, p - CELL_HEADER, p);
    }
  }

  /**
   `realloc` of a pointer in use frees it.  It returns another one, whose payload is at least `n`
   bytes long, or NULL exactly if there is no memory for it; either way the old contents are there.
   */
  lemma ReallocMoves(s: Machine, p: nat, n: nat)
    requires Inv(s) && CanRealloc(s, p, n) && p != 0 && CellOf(s.arena, p).Live()
    ensures var (s', q) := Realloc(s, p, n);
            && q != p && (q == 0 <==> !CanServe(s, n))
            && HasCell(s'.arena, Cell(p - CELL_HEADER, -CellOf(s.arena, p).size))
            && (q != 0 ==> exists c :: Serves(s', q, n, c))
            && q + |Moved(s, p, n)| <= |s'.mem|
            && s'.mem[q..q + |Moved(s, p, n)|] == Moved(s, p, n)
  {
    hide Inv, HasHeader, Malloc, Keeps, Free;
    var (s1, q) := Malloc(s, n);
    var s2, s' := Copied(s, p, n), Realloc(s, p, n).0;
    var c, bytes := CellOf(s.arena, p), Moved(s, p, n);
    CopyKeeps(s, p, n);
    CopiedKeeps(s, p, n);
    KeptCell(s, s2, c);
    HeaderOfCell(s2, c);
    FreeKeeps(s2, p);
    FreeChanges(s2, p);
    MallocResult(s, n);
    assert s2.mem[q..q + |bytes|] == bytes;
    if CanServe(s, n) {
      ReallocTarget(s, p, n);
      var d := CellOf(s1.arena, q);
      CopyIsRewrite(s1, d, bytes);
      assert Keeps(s2, s', d);
      KeptBytes(s2, s', d, |bytes|);
      KeptCell(s2, s', d);
      assert Serves(s', q, n, d);
    } else {
      BehindCopy(s, c, |bytes|);
      assert s'.mem[..|bytes|] == s2.mem[..|bytes|];
    }
  }

  /** A copy of at most a page always fits: bitmap and blocks lie past page 0. */
  lemma SmallCopyFits(s: Machine, k: nat)
    requires Inv(s) && k <= PAGE_SIZE
    ensures CopyFits(s, k)
  {
    forall i | 0 <= i < |s.arena.blocks|
      ensures k <= s.arena.blocks[i].addr
    {
      BlockFacts(s, i);
    }
  }

  /** Bytes that clear the flag of page 0, if they reach the bitmap. */
  lemma CopyIntoBitmap(s: Machine, k: nat)
    requires Inv(s) && s.bitmap < k <= |s.mem|
    ensures !Inv(s.(mem := Blit(s.mem, 0, seq(k, _ => 0))))
  {
    var m' := Blit(s.mem, 0, seq(k, _ => 0));
    assert m'[s.bitmap] == 0;
    FlagAt(m', s.bitmap, PAGE_COUNT, 0);
    assert !Pages(m', s.bitmap)[0];
  }

  /** Bytes with a wrong value for the lowest byte of the size of block `b`. */
  function Spoiled(b: Block, k: nat): (bytes: seq<byte>)
    requires b.addr + 4 < k
    ensures |bytes| == k
  {
    seq(k, _ => 0)[b.addr + 4 := if LEBytes(b.size, 4)[0] == 0 then 1 else 0]
  }

  lemma SizeInMemory(m: seq<byte>, b: Block)
    requires BlockInMemory(m, b)
    ensures m[b.addr + 4..b.addr + 8] == LEBytes(b.size, 4)
  {
    LEBytesOfValue(m[b.addr + 4..b.addr + 8]);
  }

  lemma CopyIntoBlock(s: Machine, i: nat, k: nat)
    requires i < |s.arena.blocks| && s.arena.blocks[i].addr + 4 < k <= |s.mem|
    ensures !Inv(s.(mem := Blit(s.mem, 0, Spoiled(s.arena.blocks[i], k))))
  {
    var b, s' := s.arena.blocks[i], s.(mem := Blit(s.mem, 0, Spoiled(s.arena.blocks[i], k)));
    assert s'.mem[b.addr + 4] == Spoiled(b, k)[b.addr + 4];
    if Inv(s') {
      BlockFacts(s', i);
      SizeInMemory(s'.mem, b);
    }
  }

  lemma StoredPayload(s: Machine, c: Cell, payload: seq<byte>, n: nat)
    requires Inv(s) && HasCell(s.arena, c) && |payload| == Abs(c.size) && SizeFits(s, n)
    ensures c.End() <= |s.mem| == MEMORY_SIZE
    ensures var t := s.(mem := Blit(s.mem, c.Payload(), payload));
            Inv(t) && SizeFits(t, n) && (CanServe(t, n) <==> CanServe(s, n))
  {
    CopyIsRewrite(s, c, payload);
    CellIsSafe(s, c);
    PagesOfAgree(s.mem, Blit(s.mem, c.Payload(), payload), s.bitmap);
    hide BlocksSafe, Linked, PagesUsed, Search, Flags, ScanFrom;
  }

  /** The machine after the copy of `realloc`, had the payload at `p` been `payload` and `malloc` failed. */
  ghost function CopiedToNull(s: Machine, p: nat, n: nat, payload: seq<byte>): Machine
    requires Inv(s) && SizeFits(s, n) && HasHeader(s.arena, p - CELL_HEADER)
    requires |payload| == Abs(CellOf(s.arena, p).size)
  {
    StoredPayload(s, CellOf(s.arena, p), payload, n);
    var t := s.(mem := Blit(s.mem, p, payload));
    MallocKeeps(t, n);
    var s1 := Malloc(t, n).0;
    assert |s1.mem| == MEMORY_SIZE;
    s1.(mem := Blit(s1.mem, 0, payload[..Min(n, |payload|)]))
  }

  /**
   A `realloc` that finds no memory leaves the heap intact, whatever the payload is, if and only if
   the bytes it copies to address 0 end in front of the bitmap and of the sizes of all blocks.
   */
  lemma ReallocSurvivesExactly(s: Machine, p: nat, n: nat)
    requires Inv(s) && SizeFits(s, n) && !CanServe(s, n)
    requires HasHeader(s.arena, p - CELL_HEADER) && CellOf(s.arena, p).Live()
    ensures var size := Abs(CellOf(s.arena, p).size);
            (forall payload: seq<byte> | |payload| == size :: Inv(CopiedToNull(s, p, n, payload)))
            <==> CopyFits(s, Min(n, size))
  {
    hide Inv, Malloc, SizeFits, CanServe, Blit, Spoiled;
    var c := CellOf(s.arena, p);
    var size := Abs(c.size);
    var k := Min(n, size);
    if CopyFits(s, k) {
      forall payload: seq<byte> | |payload| == size
        ensures Inv(CopiedToNull(s, p, n, payload))
      {
        AfterFailure(s, c, payload, n);
        NullCopyKeeps(Malloc(s.(mem := Blit(s.mem, p, payload)), n).0, payload[..k]);
      }
    } else if s.bitmap < k {
      var payload: seq<byte> := seq(size, _ => 0);
      AfterFailure(s, c, payload, n);
      CopyIntoBitmap(Malloc(s.(mem := Blit(s.mem, p, payload)), n).0, k);
      assert payload[..k] == seq(k, _ => 0);
      assert !Inv(CopiedToNull(s, p, n, payload));
    } else {
      var i :| 0 <= i < |s.arena.blocks| && k > s.arena.blocks[i].addr + 4;
      var payload: seq<byte> := Spoiled(s.arena.blocks[i], k) + seq(size - k, _ => 0);
      AfterFailure(s, c, payload, n);
      CopyIntoBlock(Malloc(s.(mem := Blit(s.mem, p, payload)), n).0, i, k);
      assert payload[..k] == Spoiled(s.arena.blocks[i], k);
      assert !Inv(CopiedToNull(s, p, n, payload));
    }
  }

  /** With the payload as it is, that is the machine that `realloc` makes. */
  lemma CopiedIsCopiedToNull(s: Machine, p: nat, n: nat)
    requires Inv(s) && CanRealloc(s, p, n) && p != 0 && CellOf(s.arena, p).Live() && !CanServe(s, n)
    ensures var size := Abs(CellOf(s.arena, p).size);
            p + size <= |s.mem| && Copied(s, p, n) == CopiedToNull(s, p, n, s.mem[p..p + size])
  {
    hide Inv, Malloc, CanServe, SizeFits, Blit;
    var size := Abs(CellOf(s.arena, p).size);
    CopyIsRewrite(s, CellOf(s.arena, p), []);
    MallocResult(s, n);
    BlitItself(s.mem, p, size);
    assert s.(mem := Blit(s.mem, p, s.mem[p..p + size])) == s;
    SliceOfSlice(s.mem, p, p + size, 0, Min(n, size));
  }

  lemma AfterFailure(s: Machine, c: Cell, payload: seq<byte>, n: nat)
    requires Inv(s) && HasCell(s.arena, c) && |payload| == Abs(c.size) && SizeFits(s, n) && !CanServe(s, n)
    ensures c.End() <= |s.mem|
    ensures var t := s.(mem := Blit(s.mem, c.Payload(), payload));
            && Inv(t) && SizeFits(t, n)
            && var s1 := Malloc(t, n).0;
               && Inv(s1) && |payload| <= |s1.mem| && s1.bitmap == s.bitmap && s1.arena == s.arena.(listed := 0)
  {
    StoredPayload(s, c, payload, n);
    FailedMallocForgetsBlocks(s.(mem := Blit(s.mem, c.Payload(), payload)), n, n);
    hide BlocksSafe, Linked, Malloc, SizeFits, CanServe;
  }

  // ----- Runs -----

  /** Calls into the allocators, and stores by whoever owns the memory. */
  datatype Op =
    | OpMalloc(n: nat)
    | OpFree(p: nat)
    | OpRealloc(p: nat, n: nat)
    | OpStore(a: nat, v: byte)
    | OpPageAlloc(n: nat, step: nat)
    | OpPageFree(ptr: nat, n: nat)

  ghost predicate InBlock(arena: Arena, a: nat) {
    exists i :: 0 <= i < |arena.blocks| && arena.blocks[i].addr <= a < arena.blocks[i].End()
  }

  /** A byte of a live payload, or one that neither allocator has anything to do with. */
  ghost predicate MayStore(s: Machine, a: nat) {
    || (exists c :: HasCell(s.arena, c) && c.Live() && c.Payload() <= a < c.End())
    || (a < |s.mem| && !InBlock(s.arena, a) && !(s.bitmap <= a < s.bitmap + PAGE_BITMAP_SIZE))
  }

  /** None of the pages holds a byte of page 0, of the bitmap or of a heap block. */
  ghost predicate MayFreePages(s: Machine, start: nat, end: nat) {
    && start <= end <= PAGE_COUNT
    && (start < end ==>
          && start > 0
          && Apart(start * PAGE_SIZE, end * PAGE_SIZE, s.bitmap, s.bitmap + PAGE_BITMAP_SIZE)
          && forall i :: 0 <= i < |s.arena.blocks| ==>
               Apart(start * PAGE_SIZE, end * PAGE_SIZE, s.arena.blocks[i].addr, s.arena.blocks[i].End()))
  }

  ghost predicate Legal(s: Machine, op: Op)
    requires Inv(s)
  {
    match op
    case OpMalloc(n) => SizeFits(s, n)
    case OpFree(p) => IsPointer(s.arena, p)
    case OpRealloc(p, n) => CanRealloc(s, p, n)
    case OpStore(a, _) => MayStore(s, a)
    case OpPageAlloc(n, step) => n <= PAGE_COUNT && StepPages(step) > 0
    case OpPageFree(ptr, n) => MayFreePages(s, ptr / PAGE_SIZE, ptr / PAGE_SIZE + n)
  }

  ghost function Apply(s: Machine, op: Op): Machine
    requires Inv(s) && Legal(s, op)
  {
    match op
    case OpMalloc(n) => Malloc(s, n).0
    case OpFree(p) => Free(s, p)
    case OpRealloc(p, n) => Realloc(s, p, n).0
    case OpStore(a, v) =>
      StoreInMemory(s, a);
      s.(mem := s.mem[a := v])
    case OpPageAlloc(n, step) =>
      var r := Search(Pages(s.mem, s.bitmap), n, StepPages(step), 0);
      if r == -1 then s else s.(mem := MarkedMemory(s.mem, s.bitmap, r, r + n, PAGE_USED))
    case OpPageFree(ptr, n) =>
      s.(mem := MarkedMemory(s.mem, s.bitmap, ptr / PAGE_SIZE, ptr / PAGE_SIZE + n, PAGE_FREE))
  }

  lemma StoreInMemory(s: Machine, a: nat)
    requires Inv(s) && MayStore(s, a)
    ensures a < |s.mem|
  {
    if c :| HasCell(s.arena, c) && c.Live() && c.Payload() <= a < c.End() {
      CellIsSafe(s, c);
    }
  }

  // ----- One step -----

  /** The memory of the heap and of its bitmap is left alone. */
  ghost predicate BlocksAgree(m: seq<byte>, m': seq<byte>, blocks: seq<Block>) {
    |m'| == |m| && forall i :: 0 <= i < |blocks| ==> Agree(m, m', blocks[i].addr, blocks[i].End())
  }

  /** A change of memory outside all blocks, with the flags the heap relies on still set. */
  lemma OutsideChange(s: Machine, m': seq<byte>)
    requires Inv(s) && BlocksAgree(s.mem, m', s.arena.blocks) && BitmapSafe(m', s.bitmap)
    requires forall i :: 0 <= i < |s.arena.blocks| ==>
               PagesUsed(Pages(m', s.bitmap), s.arena.blocks[i].addr, s.arena.blocks[i].End())
    ensures Inv(s.(mem := m'))
    ensures forall c :: HasCell(s.arena, c) ==> Keeps(s, s.(mem := m'), c)
  {
    BlocksAfterOutsideChange(s.mem, m', s.bitmap, s.arena.blocks);
    hide BlockInMemory, Placed, PagesUsed, Apart;
    forall k | 0 <= k < s.arena.listed
      ensures LinkAt(m', s.arena, k)
    {
      assert LinkAt(s.mem, s.arena, k);
      assert BlockKept(s.mem, m', s.arena.blocks[k]);
    }
    forall c | HasCell(s.arena, c)
      ensures Keeps(s, s.(mem := m'), c)
    {
      var i: nat, j: nat :| IsCell(s.arena, i, j) && CellAt(s.arena, i, j) == c;
      CellFacts(s, i, j);
      assert Agree(s.mem, m', s.arena.blocks[i].addr, s.arena.blocks[i].End());
    }
  }

  lemma BlocksAfterOutsideChange(m: seq<byte>, m': seq<byte>, bitmap: nat, blocks: seq<Block>)
    requires IsBitmap(m, bitmap) && BlocksSafe(m, bitmap, blocks) && BlocksAgree(m, m', blocks)
    requires forall i :: 0 <= i < |blocks| ==> PagesUsed(Pages(m', bitmap), blocks[i].addr, blocks[i].End())
    ensures BlocksSafe(m', bitmap, blocks)
    ensures forall i :: 0 <= i < |blocks| ==> BlockKept(m, m', blocks[i])
  {
    hide BlockInMemory, PagesUsed, Apart;
    forall i | 0 <= i < |blocks|
      ensures BlockKept(m, m', blocks[i]) && Placed(Pages(m', bitmap), bitmap, blocks[i])
    {
      SafeBlock(m, bitmap, blocks, i);
      BlockAgree(m, m', blocks[i]);
    }
    assert forall i :: 0 <= i < |blocks| ==> BlockSafe(m', bitmap, blocks, i);
  }

  lemma StoreOutside(s: Machine, a: nat, v: byte)
    requires Inv(s) && a < |s.mem| && !InBlock(s.arena, a) && !(s.bitmap <= a < s.bitmap + PAGE_BITMAP_SIZE)
    ensures Inv(s.(mem := s.mem[a := v]))
    ensures forall c :: HasCell(s.arena, c) ==> Keeps(s, s.(mem := s.mem[a := v]), c)
  {
    hide BlockInMemory, Linked, Apart;
    var m' := s.mem[a := v];
    PagesOfAgree(s.mem, m', s.bitmap);
    forall i | 0 <= i < |s.arena.blocks|
      ensures Agree(s.mem, m', s.arena.blocks[i].addr, s.arena.blocks[i].End())
      ensures PagesUsed(Pages(m', s.bitmap), s.arena.blocks[i].addr, s.arena.blocks[i].End())
    {
      BlockFacts(s, i);
    }
    OutsideChange(s, m');
  }

  lemma StoreInPayload(s: Machine, c: Cell, a: nat, v: byte)
    requires Inv(s) && HasCell(s.arena, c) && c.Payload() <= a < c.End()
    ensures a < |s.mem|
    ensures Inv(s.(mem := s.mem[a := v]))
    ensures forall d :: HasCell(s.arena, d) && d != c ==> Keeps(s, s.(mem := s.mem[a := v]), d)
  {
    CellIsSafe(s, c);
    var bytes := s.mem[c.Payload()..c.End()][a - c.Payload() := v];
    assert s.mem[a := v] == Blit(s.mem, c.Payload(), bytes);
    hide Inv;
    CopyIsRewrite(s, c, bytes);
  }

  lemma MarkKeeps(s: Machine, start: nat, end: nat, value: bool)
    requires Inv(s) && end <= PAGE_COUNT
    requires value == PAGE_USED || MayFreePages(s, start, end)
    ensures var s' := s.(mem := MarkedMemory(s.mem, s.bitmap, start, end, value));
            && Inv(s')
            && forall c :: HasCell(s.arena, c) ==> Keeps(s, s', c)
  {
    hide BlockInMemory, Linked, PagesUsed, MarkedMemory;
    var m', used := MarkedMemory(s.mem, s.bitmap, start, end, value), Pages(s.mem, s.bitmap);
    PagesOfMarkedMemory(s.mem, s.bitmap, start, end, value);
    MarkedKeepsUsed(used, start, end, value, 0, PAGE_SIZE);
    MarkedKeepsUsed(used, start, end, value, s.bitmap, s.bitmap + PAGE_BITMAP_SIZE);
    forall i | 0 <= i < |s.arena.blocks|
      ensures Agree(s.mem, m', s.arena.blocks[i].addr, s.arena.blocks[i].End())
      ensures PagesUsed(Pages(m', s.bitmap), s.arena.blocks[i].addr, s.arena.blocks[i].End())
    {
      BlockFacts(s, i);
      MarkedKeepsUsed(used, start, end, value, s.arena.blocks[i].addr, s.arena.blocks[i].End());
    }
    OutsideChange(s, m');
  }

  /** The step ends or overwrites the payload of cell `c`. */
  predicate Touches(op: Op, c: Cell) {
    match op
    case OpFree(p) => p == c.Payload()
    case OpRealloc(p, _) => p == c.Payload()
    case OpStore(a, _) => c.Payload() <= a < c.End()
    case _ => false
  }

  /** What every legal step promises. */
  ghost predicate StepIsSafe(s: Machine, op: Op, s': Machine) {
    && Inv(s')
    && (forall c :: HasCell(s.arena, c) && c.Live() && !Touches(op, c) ==> Keeps(s, s', c))
    && (forall a :: HasHeader(s.arena, a) ==> HasHeader(s'.arena, a))
  }

  lemma StoreStep(s: Machine, a: nat, v: byte)
    requires Inv(s) && MayStore(s, a)
    ensures StepIsSafe(s, OpStore(a, v), Apply(s, OpStore(a, v)))
  {
    hide Inv, HasHeader;
    if c :| HasCell(s.arena, c) && c.Live() && c.Payload() <= a < c.End() {
      StoreInPayload(s, c, a, v);
    } else {
      StoreOutside(s, a, v);
    }
  }

  lemma PageStep(s: Machine, op: Op)
    requires Inv(s) && Legal(s, op) && (op.OpPageAlloc? || op.OpPageFree?)
    ensures StepIsSafe(s, op, Apply(s, op))
  {
    hide HasHeader, HasCell, MarkedMemory, BlocksSafe, Linked;
    match op
    case OpPageAlloc(n, step) =>
      var r := Search(Pages(s.mem, s.bitmap), n, StepPages(step), 0);
      if r == -1 {
        assert forall c :: HasCell(s.arena, c) ==> Keeps(s, s, c);
      } else {
        MarkKeeps(s, r, r + n, PAGE_USED);
      }
    case OpPageFree(ptr, n) =>
      MarkKeeps(s, ptr / PAGE_SIZE, ptr / PAGE_SIZE + n, PAGE_FREE);
  }

  /** Every legal step keeps the invariant, all live cells it does not touch, and all headers. */
  lemma StepKeeps(s: Machine, op: Op)
    requires Inv(s) && Legal(s, op)
    ensures StepIsSafe(s, op, Apply(s, op))
  {
    hide Inv, HasHeader, HasCell, Malloc, Free, Realloc, MayStore;
    match op
    case OpMalloc(n) => MallocKeeps(s, n);
    case OpFree(p) => FreeKeeps(s, p);
    case OpRealloc(p, n) => ReallocKeeps(s, p, n);
    case OpStore(a, v) => StoreStep(s, a, v);
    case OpPageAlloc(n, step) => PageStep(s, op);
    case OpPageFree(ptr, n) => PageStep(s, op);
  }

  // ----- Every run -----

  ghost predicate LegalRun(s: Machine, ops: seq<Op>)
    requires Inv(s)
    decreases |ops|
  {
    ops == [] || (Legal(s, ops[0]) && (StepKeeps(s, ops[0]); LegalRun(Apply(s, ops[0]), ops[1..])))
  }

  ghost function Run(s: Machine, ops: seq<Op>): Machine
    requires Inv(s) && LegalRun(s, ops)
    decreases |ops|
  {
    if ops == [] then s else
      StepKeeps(s, ops[0]);
      Run(Apply(s, ops[0]), ops[1..])
  }

  /**
   Safety over every run.  The layout stays sound: blocks tiled by their headers, apart from each
   other and from the bitmap, on pages marked used, linked from the root.
   */
  lemma {:induction false} RunKeepsInv(s: Machine, ops: seq<Op>)
    requires Inv(s) && LegalRun(s, ops)
    ensures Inv(Run(s, ops))
    decreases |ops|
  {
    hide Inv;
    if ops != [] {
      StepKeeps(s, ops[0]);
      RunKeepsInv(Apply(s, ops[0]), ops[1..]);
    }
  }

  /** A pointer once handed out is a pointer that `free` and `realloc` accept ever after. */
  lemma {:induction false} RunKeepsHeaders(s: Machine, ops: seq<Op>, a: int)
    requires Inv(s) && LegalRun(s, ops) && HasHeader(s.arena, a)
    ensures HasHeader(Run(s, ops).arena, a)
    decreases |ops|
  {
    hide Inv, HasHeader;
    if ops != [] {
      StepKeeps(s, ops[0]);
      RunKeepsHeaders(Apply(s, ops[0]), ops[1..], a);
    }
  }

  /** Non-interference: a live payload that nobody frees, moves or writes keeps every byte. */
  lemma {:induction false} RunKeepsPayload(s: Machine, ops: seq<Op>, c: Cell)
    requires Inv(s) && LegalRun(s, ops) && HasCell(s.arena, c) && c.Live()
    requires forall i :: 0 <= i < |ops| ==> !Touches(ops[i], c)
    ensures Keeps(s, Run(s, ops), c)
    decreases |ops|
  {
    hide Inv, HasCell;
    if ops != [] {
      var s1 := Apply(s, ops[0]);
      StepKeeps(s, ops[0]);
      RunKeepsPayload(s1, ops[1..], c);
      KeepsTransitive(s, s1, Run(s, ops), c);
    }
  }

  /** Whatever `malloc` returned may be freed at any later time. */
  lemma PointerStaysValid(s: Machine, n: nat, ops: seq<Op>)
    requires Inv(s) && SizeFits(s, n) && Inv(Malloc(s, n).0) && LegalRun(Malloc(s, n).0, ops)
    ensures IsPointer(Run(Malloc(s, n).0, ops).arena, Malloc(s, n).1)
  {
    hide Inv;
    var (s1, p) := Malloc(s, n);
    if p != 0 {
      MallocResult(s, n);
      var c :| Serves(s1, p, n, c);
      HeaderOfCell(s1, c);
      RunKeepsHeaders(s1, ops, c.addr);
    }
  }

  /** In every reachable state the headers and payloads of a block add up to its size. */
  lemma BlockAddsUp(s: Machine, i: nat)
    requires Inv(s) && i < |s.arena.blocks|
    ensures TotalSize(s.arena.blocks[i].cells) == s.arena.blocks[i].size
    ensures s.arena.blocks[i].End() <= |s.mem|
    ensures Load(s.mem, s.arena.blocks[i].addr + 4) == s.arena.blocks[i].size
  {
    var b := s.arena.blocks[i];
    BlockFacts(s, i);
    TilesTotal(b.cells, b.Data(), b.End());
  }
}
