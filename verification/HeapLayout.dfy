/**
 The layout of the kernel heap in memory (lib/alloc.c:11-25): a list of blocks, each tiled by
 headers that carry a signed size, positive for a free payload and negative for a used one.
 */
module HeapLayout {
  import opened Bytes
  import opened Page

  const BLOCK_HEADER := 8
  const CELL_HEADER := 4

  /** A header and its payload.  `size` is the signed size as stored. */
  datatype Cell = Cell(addr: nat, size: int) {
    function End(): nat {
      addr + CELL_HEADER + Abs(size)
    }

    function Payload(): nat {
      addr + CELL_HEADER
    }

    predicate Live() {
      size < 0
    }
  }

  /** `size` counts the bytes after the block's own header. */
  datatype Block = Block(addr: nat, size: nat, cells: seq<Cell>) {
    function Data(): nat {
      addr + BLOCK_HEADER
    }

    function End(): nat {
      addr + BLOCK_HEADER + size
    }
  }

  /** Every block ever obtained.  The first `listed` ones are on the list from `block_root`. */
  datatype Arena = Arena(blocks: seq<Block>, listed: nat)

  /** All memory, and the globals of the two allocators. */
  datatype Machine = Machine(mem: seq<byte>, bitmap: nat, root: nat, blockMin: nat, arena: Arena)

  // ----- Tiling -----

  /** The cells follow each other without gap from `lo` to `hi`. */
  ghost predicate Tiles(cells: seq<Cell>, lo: nat, hi: nat) {
    if cells == [] then lo == hi else cells[0].addr == lo && Tiles(cells[1..], cells[0].End(), hi)
  }

  function TotalSize(cells: seq<Cell>): nat {
    if cells == [] then 0 else CELL_HEADER + Abs(cells[0].size) + TotalSize(cells[1..])
  }

  lemma {:induction false} TilesTotal(cells: seq<Cell>, lo: nat, hi: nat)
    requires Tiles(cells, lo, hi)
    ensures lo + TotalSize(cells) == hi
  {
    if cells == [] {
    } else {
      TilesTotal(cells[1..], cells[0].End(), hi);
    }
  }

  lemma {:induction false} TilesConcat(a: seq<Cell>, b: seq<Cell>, lo: nat, mid: nat, hi: nat)
    requires Tiles(a, lo, mid) && Tiles(b, mid, hi)
    ensures Tiles(a + b, lo, hi)
  {
    if a == [] {
      assert a + b == b;
    } else {
      TilesConcat(a[1..], b, a[0].End(), mid, hi);
      assert (a + b)[1..] == a[1..] + b;
    }
  }

  lemma {:induction false} TilesSplit(cells: seq<Cell>, lo: nat, hi: nat, k: nat)
    requires Tiles(cells, lo, hi) && k < |cells|
    ensures Tiles(cells[..k], lo, cells[k].addr) && Tiles(cells[k + 1..], cells[k].End(), hi)
    ensures lo <= cells[k].addr && cells[k].End() <= hi
  {
    TilesTotal(cells[1..], cells[0].End(), hi);
    if k > 0 {
      TilesSplit(cells[1..], cells[0].End(), hi, k - 1);
      assert cells[1..][..k - 1] == cells[..k][1..];
      assert cells[1..][k..] == cells[k + 1..];
    }
  }

  lemma TilesOrdered(cells: seq<Cell>, lo: nat, hi: nat, j: nat, k: nat)
    requires Tiles(cells, lo, hi) && j < k < |cells|
    ensures cells[j].End() <= cells[k].addr
  {
    TilesSplit(cells, lo, hi, j);
    TilesSplit(cells[j + 1..], cells[j].End(), hi, k - j - 1);
  }

  function Replaced(cells: seq<Cell>, k: nat, cs: seq<Cell>): seq<Cell>
    requires k < |cells|
  {
    cells[..k] + cs + cells[k + 1..]
  }

  /** Replacing a cell by cells that tile its extent keeps the tiling. */
  lemma TilesReplaced(cells: seq<Cell>, lo: nat, hi: nat, k: nat, cs: seq<Cell>)
    requires Tiles(cells, lo, hi) && k < |cells| && Tiles(cs, cells[k].addr, cells[k].End())
    ensures Tiles(Replaced(cells, k, cs), lo, hi)
  {
    TilesSplit(cells, lo, hi, k);
    TilesConcat(cells[..k], cs, lo, cells[k].addr, cells[k].End());
    TilesConcat(cells[..k] + cs, cells[k + 1..], lo, cells[k].End(), hi);
  }

  // ----- Blocks in memory -----

  ghost predicate CellInMemory(m: seq<byte>, c: Cell) {
    c.addr + CELL_HEADER <= |m| && -TWO_31 < c.size < TWO_31 && LoadSigned(m, c.addr) == c.size
  }

  ghost predicate CellsInMemory(m: seq<byte>, cells: seq<Cell>) {
    cells == [] || (CellInMemory(m, cells[0]) && CellsInMemory(m, cells[1..]))
  }

  lemma {:induction false} CellOfCells(m: seq<byte>, cells: seq<Cell>, j: nat)
    requires CellsInMemory(m, cells) && j < |cells|
    ensures CellInMemory(m, cells[j])
  {
    if j > 0 {
      CellOfCells(m, cells[1..], j - 1);
    }
  }

  lemma {:induction false} CellsSplit(m: seq<byte>, cells: seq<Cell>, k: nat)
    requires CellsInMemory(m, cells) && k <= |cells|
    ensures CellsInMemory(m, cells[..k]) && CellsInMemory(m, cells[k..])
  {
    if k > 0 {
      CellsSplit(m, cells[1..], k - 1);
      assert cells[..k][1..] == cells[1..][..k - 1];
      assert cells[1..][k - 1..] == cells[k..];
    }
  }

  lemma {:induction false} CellsConcat(m: seq<byte>, a: seq<Cell>, b: seq<Cell>)
    requires CellsInMemory(m, a) && CellsInMemory(m, b)
    ensures CellsInMemory(m, a + b)
  {
    if a == [] {
      assert a + b == b;
    } else {
      CellsConcat(m, a[1..], b);
      assert (a + b)[1..] == a[1..] + b;
    }
  }

  ghost predicate BlockInMemory(m: seq<byte>, b: Block) {
    && b.End() <= |m|
    && Load(m, b.addr + 4) == b.size
    && b.cells != []
    && Tiles(b.cells, b.Data(), b.End())
    && CellsInMemory(m, b.cells)
  }

  lemma CellElsewhere(m: seq<byte>, m': seq<byte>, c: Cell, lo: nat, hi: nat)
    requires CellInMemory(m, c) && AgreeOutside(m, m', lo, hi)
    requires c.addr + CELL_HEADER <= lo || hi <= c.addr
    ensures CellInMemory(m', c)
  {
    LoadOfAgree(m, m', c.addr);
  }

  /** Cells below `lo` or from `hi` on are not affected by a change between the two. */
  lemma {:induction false} CellsElsewhere(m: seq<byte>, m': seq<byte>, cells: seq<Cell>, from: nat, to: nat, lo: nat, hi: nat)
    requires CellsInMemory(m, cells) && Tiles(cells, from, to) && AgreeOutside(m, m', lo, hi)
    requires to <= lo || hi <= from
    ensures CellsInMemory(m', cells)
  {
    if cells != [] {
      TilesTotal(cells[1..], cells[0].End(), to);
      CellElsewhere(m, m', cells[0], lo, hi);
      CellsElsewhere(m, m', cells[1..], cells[0].End(), to, lo, hi);
    }
  }

  lemma BlockWordsElsewhere(m: seq<byte>, m': seq<byte>, b: Block, lo: nat, hi: nat)
    requires b.End() <= |m| && AgreeOutside(m, m', lo, hi)
    requires b.Data() <= lo || hi <= b.addr
    ensures Load(m', b.addr) == Load(m, b.addr) && Load(m', b.addr + 4) == Load(m, b.addr + 4)
  {
    LoadOfAgree(m, m', b.addr);
    LoadOfAgree(m, m', b.addr + 4);
  }

  /** A block keeps its contents when memory changes outside it. */
  lemma BlockElsewhere(m: seq<byte>, m': seq<byte>, b: Block, lo: nat, hi: nat)
    requires BlockInMemory(m, b) && AgreeOutside(m, m', lo, hi)
    requires b.End() <= lo || hi <= b.addr
    ensures BlockInMemory(m', b) && Load(m', b.addr) == Load(m, b.addr)
  {
    BlockWordsElsewhere(m, m', b, lo, hi);
    CellsElsewhere(m, m', b.cells, b.Data(), b.End(), lo, hi);
  }

  function ReplacedIn(b: Block, j: nat, cs: seq<Cell>): Block
    requires j < |b.cells|
  {
    b.(cells := Replaced(b.cells, j, cs))
  }

  lemma CellsRewritten(m: seq<byte>, m': seq<byte>, cells: seq<Cell>, lo: nat, hi: nat, j: nat, cs: seq<Cell>)
    requires CellsInMemory(m, cells) && Tiles(cells, lo, hi) && j < |cells| && CellsInMemory(m', cs)
    requires AgreeOutside(m, m', cells[j].addr, cells[j].End())
    ensures CellsInMemory(m', Replaced(cells, j, cs))
  {
    var c := cells[j];
    TilesSplit(cells, lo, hi, j);
    CellsSplit(m, cells, j);
    CellsSplit(m, cells, j + 1);
    CellsElsewhere(m, m', cells[..j], lo, c.addr, c.addr, c.End());
    CellsElsewhere(m, m', cells[j + 1..], c.End(), hi, c.addr, c.End());
    CellsConcat(m', cells[..j], cs);
    CellsConcat(m', cells[..j] + cs, cells[j + 1..]);
  }

  /** Memory changes inside one cell, whose extent is tiled anew. */
  lemma BlockRewritten(m: seq<byte>, m': seq<byte>, b: Block, j: nat, cs: seq<Cell>)
    requires BlockInMemory(m, b) && j < |b.cells|
    requires cs != [] && Tiles(cs, b.cells[j].addr, b.cells[j].End()) && CellsInMemory(m', cs)
    requires AgreeOutside(m, m', b.cells[j].addr, b.cells[j].End())
    ensures BlockInMemory(m', ReplacedIn(b, j, cs)) && Load(m', b.addr) == Load(m, b.addr)
  {
    var c, cells' := b.cells[j], Replaced(b.cells, j, cs);
    TilesSplit(b.cells, b.Data(), b.End(), j);
    BlockWordsElsewhere(m, m', b, c.addr, c.End());
    assert Tiles(cells', b.Data(), b.End()) by {
      TilesReplaced(b.cells, b.Data(), b.End(), j, cs);
    }
    assert CellsInMemory(m', cells') by {
      CellsRewritten(m, m', b.cells, b.Data(), b.End(), j, cs);
    }
    assert cells'[j] == cs[0];
  }

  // ----- The invariant -----

  ghost predicate Apart(lo: nat, hi: nat, lo': nat, hi': nat) {
    hi <= lo' || hi' <= lo
  }

  /** Every page that meets the bytes from `lo` to `hi` is marked used. */
  ghost predicate PagesUsed(used: seq<bool>, lo: nat, hi: nat) {
    forall p :: 0 <= p < |used| && p * PAGE_SIZE < hi && lo < (p + 1) * PAGE_SIZE ==> used[p]
  }

  ghost predicate Placed(used: seq<bool>, bitmap: nat, b: Block) {
    && PAGE_SIZE <= b.addr && b.addr % PAGE_SIZE == 0 && b.End() % PAGE_SIZE == 0
    && Apart(b.addr, b.End(), bitmap, bitmap + PAGE_BITMAP_SIZE)
    && PagesUsed(used, b.addr, b.End())
  }

  function NextBlock(arena: Arena, i: nat): nat
    requires arena.listed <= |arena.blocks|
  {
    if i < arena.listed then arena.blocks[i].addr else 0
  }

  /** The next pointer of block `i` on the list. */
  ghost predicate LinkAt(m: seq<byte>, arena: Arena, i: nat) {
    && i < arena.listed <= |arena.blocks|
    && arena.blocks[i].addr + 4 <= |m|
    && Load(m, arena.blocks[i].addr) == NextBlock(arena, i + 1)
  }

  ghost predicate Linked(m: seq<byte>, root: nat, arena: Arena) {
    && arena.listed <= |arena.blocks|
    && root == NextBlock(arena, 0)
    && forall i :: 0 <= i < arena.listed ==> LinkAt(m, arena, i)
  }

  /** Memory holds a bitmap outside page 0, and the pages of both are used. */
  ghost predicate BitmapSafe(m: seq<byte>, bitmap: nat) {
    && |m| == MEMORY_SIZE
    && PAGE_SIZE <= bitmap && bitmap + PAGE_BITMAP_SIZE <= MEMORY_SIZE
    && PagesUsed(Pages(m, bitmap), 0, PAGE_SIZE)
    && PagesUsed(Pages(m, bitmap), bitmap, bitmap + PAGE_BITMAP_SIZE)
  }

  ghost predicate BlocksApart(blocks: seq<Block>, i: nat, j: nat) {
    i < |blocks| && j < |blocks| && Apart(blocks[i].addr, blocks[i].End(), blocks[j].addr, blocks[j].End())
  }

  ghost predicate AllBlocksApart(blocks: seq<Block>) {
    forall i, j :: 0 <= i < j < |blocks| ==> BlocksApart(blocks, i, j)
  }

  lemma BlocksAreApart(blocks: seq<Block>, i: nat, j: nat)
    requires AllBlocksApart(blocks) && i < |blocks| && j < |blocks| && i != j
    ensures Apart(blocks[i].addr, blocks[i].End(), blocks[j].addr, blocks[j].End())
  {
    assert BlocksApart(blocks, if i < j then i else j, if i < j then j else i);
  }

  ghost predicate BlockSafe(m: seq<byte>, bitmap: nat, blocks: seq<Block>, i: nat)
    requires IsBitmap(m, bitmap)
  {
    i < |blocks| && BlockInMemory(m, blocks[i]) && Placed(Pages(m, bitmap), bitmap, blocks[i])
  }

  /** Each block is in memory, on used pages, and apart from all others. */
  ghost predicate BlocksSafe(m: seq<byte>, bitmap: nat, blocks: seq<Block>)
    requires IsBitmap(m, bitmap)
  {
    && (forall i :: 0 <= i < |blocks| ==> BlockSafe(m, bitmap, blocks, i))
    && AllBlocksApart(blocks)
  }

  lemma SafeBlock(m: seq<byte>, bitmap: nat, blocks: seq<Block>, i: nat)
    requires IsBitmap(m, bitmap) && BlocksSafe(m, bitmap, blocks) && i < |blocks|
    ensures BlockInMemory(m, blocks[i]) && Placed(Pages(m, bitmap), bitmap, blocks[i])
  {
    assert BlockSafe(m, bitmap, blocks, i);
  }

  /** The heap is intact: bitmap, blocks and list are what the map says. */
  ghost predicate Inv(s: Machine) {
    && BitmapSafe(s.mem, s.bitmap)
    && BlocksSafe(s.mem, s.bitmap, s.arena.blocks)
    && Linked(s.mem, s.root, s.arena)
    && s.blockMin < TWO_32
  }

  lemma BlockFacts(s: Machine, i: nat)
    requires Inv(s) && i < |s.arena.blocks|
    ensures IsBitmap(s.mem, s.bitmap)
    ensures BlockInMemory(s.mem, s.arena.blocks[i])
    ensures Placed(Pages(s.mem, s.bitmap), s.bitmap, s.arena.blocks[i])
  {
    SafeBlock(s.mem, s.bitmap, s.arena.blocks, i);
  }

  // ----- Cells of the arena -----

  ghost predicate IsCell(arena: Arena, i: nat, j: nat) {
    i < |arena.blocks| && j < |arena.blocks[i].cells|
  }

  function CellAt(arena: Arena, i: nat, j: nat): Cell
    requires IsCell(arena, i, j)
  {
    arena.blocks[i].cells[j]
  }

  ghost predicate HasCell(arena: Arena, c: Cell) {
    exists i, j :: IsCell(arena, i, j) && CellAt(arena, i, j) == c
  }

  /** There is a genuine header at address `a`. */
  ghost predicate HasHeader(arena: Arena, a: int) {
    exists i, j :: IsCell(arena, i, j) && CellAt(arena, i, j).addr == a
  }

  lemma CellFacts(s: Machine, i: nat, j: nat)
    requires Inv(s) && IsCell(s.arena, i, j)
    ensures var b, c := s.arena.blocks[i], CellAt(s.arena, i, j);
            && b.Data() <= c.addr && c.End() <= b.End() <= |s.mem| == MEMORY_SIZE
            && CellInMemory(s.mem, c)
  {
    var b := s.arena.blocks[i];
    BlockFacts(s, i);
    TilesSplit(b.cells, b.Data(), b.End(), j);
    CellOfCells(s.mem, b.cells, j);
  }

  /** Different cells occupy disjoint bytes: headers and payloads never overlap. */
  lemma CellsApart(s: Machine, i: nat, j: nat, i': nat, j': nat)
    requires Inv(s) && IsCell(s.arena, i, j) && IsCell(s.arena, i', j') && (i, j) != (i', j')
    ensures var c, c' := CellAt(s.arena, i, j), CellAt(s.arena, i', j');
            Apart(c.addr, c.End(), c'.addr, c'.End())
  {
    CellFacts(s, i, j);
    CellFacts(s, i', j');
    var b := s.arena.blocks[i];
    if i == i' {
      BlockFacts(s, i);
      if j < j' {
        TilesOrdered(b.cells, b.Data(), b.End(), j, j');
      } else {
        TilesOrdered(b.cells, b.Data(), b.End(), j', j);
      }
    } else {
      var b' := s.arena.blocks[i'];
      BlocksAreApart(s.arena.blocks, i, i');
    }
  }

  /** A header address belongs to one cell only. */
  lemma HeaderUnique(s: Machine, i: nat, j: nat, i': nat, j': nat)
    requires Inv(s) && IsCell(s.arena, i, j) && IsCell(s.arena, i', j')
    requires CellAt(s.arena, i, j).addr == CellAt(s.arena, i', j').addr
    ensures i == i' && j == j'
  {
    if (i, j) != (i', j') {
      CellsApart(s, i, j, i', j');
    }
  }

  // ----- Rewriting one cell -----

  function Rewrite(arena: Arena, i: nat, j: nat, cs: seq<Cell>): Arena
    requires IsCell(arena, i, j)
  {
    arena.(blocks := arena.blocks[i := ReplacedIn(arena.blocks[i], j, cs)])
  }

  /** The new cells `cs` and the new memory `m'` are a legitimate change of cell (i, j). */
  ghost predicate IsRewrite(s: Machine, i: nat, j: nat, cs: seq<Cell>, m': seq<byte>) {
    && IsCell(s.arena, i, j)
    && var c := CellAt(s.arena, i, j);
       && cs != [] && Tiles(cs, c.addr, c.End())
       && CellsInMemory(m', cs)
       && AgreeOutside(s.mem, m', c.addr, c.End())
  }

  function Rewritten(s: Machine, i: nat, j: nat, cs: seq<Cell>, m': seq<byte>): Machine
    requires IsCell(s.arena, i, j)
  {
    s.(mem := m', arena := Rewrite(s.arena, i, j, cs))
  }

  lemma RewriteKeepsBlocks(s: Machine, i: nat, j: nat, cs: seq<Cell>, m': seq<byte>, k: nat)
    requires Inv(s) && IsRewrite(s, i, j, cs, m') && k < |s.arena.blocks|
    ensures BlockInMemory(m', Rewrite(s.arena, i, j, cs).blocks[k])
    ensures Load(m', s.arena.blocks[k].addr) == Load(s.mem, s.arena.blocks[k].addr)
  {
    var c := CellAt(s.arena, i, j);
    CellFacts(s, i, j);
    BlockFacts(s, i);
    BlockFacts(s, k);
    if k == i {
      BlockRewritten(s.mem, m', s.arena.blocks[i], j, cs);
    } else {
      var b, b' := s.arena.blocks[i], s.arena.blocks[k];
      BlocksAreApart(s.arena.blocks, i, k);
      BlockElsewhere(s.mem, m', b', c.addr, c.End());
    }
  }

  lemma RewriteKeepsPages(s: Machine, i: nat, j: nat, cs: seq<Cell>, m': seq<byte>)
    requires Inv(s) && IsRewrite(s, i, j, cs, m')
    ensures Pages(m', s.bitmap) == Pages(s.mem, s.bitmap)
  {
    CellFacts(s, i, j);
    BlockFacts(s, i);
    PagesOfAgree(s.mem, m', s.bitmap);
  }

  lemma RewriteKeepsInv(s: Machine, i: nat, j: nat, cs: seq<Cell>, m': seq<byte>)
    requires Inv(s) && IsRewrite(s, i, j, cs, m')
    ensures Inv(Rewritten(s, i, j, cs, m'))
  {
    var arena' := Rewrite(s.arena, i, j, cs);
    RewriteKeepsPages(s, i, j, cs, m');
    forall k | 0 <= k < |s.arena.blocks|
      ensures BlockInMemory(m', arena'.blocks[k])
      ensures s.arena.blocks[k].addr + 4 <= |m'| && Load(m', s.arena.blocks[k].addr) == Load(s.mem, s.arena.blocks[k].addr)
    {
      RewriteKeepsBlocks(s, i, j, cs, m', k);
      BlockFacts(s, k);
    }
    SameBlocksSafe(s.mem, m', s.bitmap, s.arena.blocks, arena'.blocks);
    SameBlocksLinked(s.mem, m', s.root, s.arena, arena');
  }

  /** The same blocks but for their cells. */
  ghost predicate SameBlocks(blocks: seq<Block>, blocks': seq<Block>) {
    && |blocks'| == |blocks|
    && forall k :: 0 <= k < |blocks| ==> blocks'[k].addr == blocks[k].addr && blocks'[k].size == blocks[k].size
  }

  lemma SameBlocksPlaced(used: seq<bool>, bitmap: nat, b: Block, b': Block)
    requires Placed(used, bitmap, b) && b'.addr == b.addr && b'.size == b.size
    ensures Placed(used, bitmap, b')
  {
  }

  lemma SameBlocksSafe(m: seq<byte>, m': seq<byte>, bitmap: nat, blocks: seq<Block>, blocks': seq<Block>)
    requires |m'| == |m| && IsBitmap(m, bitmap) && BlocksSafe(m, bitmap, blocks)
    requires Pages(m', bitmap) == Pages(m, bitmap) && SameBlocks(blocks, blocks')
    requires forall k :: 0 <= k < |blocks'| ==> BlockInMemory(m', blocks'[k])
    ensures BlocksSafe(m', bitmap, blocks')
  {
    forall k | 0 <= k < |blocks'|
      ensures BlockSafe(m', bitmap, blocks', k)
    {
      SafeBlock(m, bitmap, blocks, k);
      SameBlocksPlaced(Pages(m, bitmap), bitmap, blocks[k], blocks'[k]);
    }
    forall i, j | 0 <= i < j < |blocks'|
      ensures BlocksApart(blocks', i, j)
    {
      assert BlocksApart(blocks, i, j);
    }
  }

  lemma SameBlocksLinked(m: seq<byte>, m': seq<byte>, root: nat, arena: Arena, arena': Arena)
    requires |m'| == |m| && Linked(m, root, arena)
    requires arena'.listed == arena.listed && SameBlocks(arena.blocks, arena'.blocks)
    requires forall k :: 0 <= k < |arena.blocks| ==>
               arena.blocks[k].addr + 4 <= |m| && Load(m', arena.blocks[k].addr) == Load(m, arena.blocks[k].addr)
    ensures Linked(m', root, arena')
  {
    forall i | 0 <= i < arena.listed
      ensures LinkAt(m', arena', i)
    {
      assert LinkAt(m, arena, i);
    }
  }

  lemma IndexAfterRewrite(arena: Arena, i: nat, j: nat, cs: seq<Cell>, i': nat, j': nat)
    requires IsCell(arena, i, j) && IsCell(arena, i', j') && (i, j) != (i', j')
    ensures HasCell(Rewrite(arena, i, j, cs), CellAt(arena, i', j'))
  {
    var arena' := Rewrite(arena, i, j, cs);
    var j'' := if i' == i && j' > j then j' - 1 + |cs| else j';
    assert IsCell(arena', i', j'') && CellAt(arena', i', j'') == CellAt(arena, i', j');
  }

  /** The other cells stay where they are, with every byte unchanged. */
  lemma RewriteKeepsCells(s: Machine, i: nat, j: nat, cs: seq<Cell>, m': seq<byte>, c: Cell)
    requires Inv(s) && IsRewrite(s, i, j, cs, m') && HasCell(s.arena, c) && c != CellAt(s.arena, i, j)
    ensures HasCell(Rewrite(s.arena, i, j, cs), c)
    ensures Agree(s.mem, m', c.addr, c.End())
  {
    var i', j' :| IsCell(s.arena, i', j') && CellAt(s.arena, i', j') == c;
    CellsApart(s, i, j, i', j');
    IndexAfterRewrite(s.arena, i, j, cs, i', j');
  }

  /** The new cells are in the arena. */
  lemma RewriteAddsCells(s: Machine, i: nat, j: nat, cs: seq<Cell>, k: nat)
    requires IsCell(s.arena, i, j) && k < |cs|
    ensures HasCell(Rewrite(s.arena, i, j, cs), cs[k])
  {
    var arena' := Rewrite(s.arena, i, j, cs);
    assert IsCell(arena', i, j + k) && CellAt(arena', i, j + k) == cs[k];
  }

  /** No header disappears. */
  lemma RewriteKeepsHeaders(s: Machine, i: nat, j: nat, cs: seq<Cell>, m': seq<byte>, a: int)
    requires Inv(s) && IsRewrite(s, i, j, cs, m') && HasHeader(s.arena, a)
    ensures HasHeader(Rewrite(s.arena, i, j, cs), a)
  {
    var i', j' :| IsCell(s.arena, i', j') && CellAt(s.arena, i', j').addr == a;
    var c := CellAt(s.arena, i', j');
    var arena' := Rewrite(s.arena, i, j, cs);
    if c == CellAt(s.arena, i, j) {
      RewriteAddsCells(s, i, j, cs, 0);
      assert cs[0].addr == a;
      var k, l :| IsCell(arena', k, l) && CellAt(arena', k, l) == cs[0];
      assert CellAt(arena', k, l).addr == a;
    } else {
      RewriteKeepsCells(s, i, j, cs, m', c);
      var k, l :| IsCell(arena', k, l) && CellAt(arena', k, l) == c;
      assert CellAt(arena', k, l).addr == a;
    }
  }
}
