/**
 The kernel heap (lib/alloc.c), working in place on the flat memory it shares with the page
 allocator.  Each method does to the machine what the function of the same name in `HeapModel`
 or `HeapRuns` says.
 */
module Alloc {
  import opened Bytes
  import opened CString
  import opened Page
  import opened HeapLayout
  import opened Wrappers
  import M = HeapModel
  import R = HeapRuns

  // ----- The comparisons of malloc_once -----

  /** `header->size >= (ssize_t)(n)`. */
  predicate Accepts(size: int, n: nat) {
    size >= ToSigned(n)
  }

  /** `header->size <= n + sizeof(header_t)`, compared as unsigned. */
  predicate Whole(size: int, n: nat) {
    ToUnsigned(size) <= (n + CELL_HEADER) % TWO_32
  }

  lemma ComparisonsFit(c: Cell, n: nat)
    requires -TWO_31 <= c.size < TWO_31 && n < TWO_31
    ensures Accepts(c.size, n) <==> c.size >= n
    ensures Accepts(c.size, n) ==> (Whole(c.size, n) <==> M.TakenWhole(c, n))
  {
  }

  /** The first comparison picks only free cells that are large enough exactly for sizes below 2^31. */
  lemma AcceptsOnlyFits(n: nat)
    requires n < TWO_32
    ensures (forall size :: -TWO_31 <= size < TWO_31 && Accepts(size, n) ==> size >= n) <==> n < TWO_31
  {
    if n >= TWO_31 {
      assert Accepts(0, n) && 0 < n;
    }
  }

  /** The header of a new block reads back as free and large enough exactly up to this size. */
  lemma NewBlockReadsFree(size: nat)
    requires size < TWO_32
    ensures ToSigned(M.BlockPages(size) * PAGE_SIZE - BLOCK_HEADER - CELL_HEADER) >= size
            <==> size + BLOCK_HEADER + CELL_HEADER <= TWO_31
  {
  }

  /** Where the cell after cell `j` starts. */
  lemma NextCell(cells: seq<Cell>, lo: nat, hi: nat, j: nat)
    requires Tiles(cells, lo, hi) && j < |cells|
    ensures cells[j].End() == if j + 1 < |cells| then cells[j + 1].addr else hi
    ensures cells[j].addr < hi
  {
    TilesSplit(cells, lo, hi, j);
  }

  class Heap {
    const mem: array<byte>
    const pages: PageAllocator
    var blockRoot: nat
    var blockMin: nat
    ghost var arena: Arena

    ghost function State(): Machine
      reads this, pages, mem
    {
      Machine(mem[..], pages.bitmap, blockRoot, blockMin, arena)
    }

    ghost predicate Valid()
      reads this, pages, mem
    {
      pages.mem == mem && Inv(State())
    }

    /** `alloc_init`, with the page allocator of the kernel (nop/start.c:46-48). */
    constructor (pages: PageAllocator, blockMin: nat)
      requires pages.Valid() && BitmapSafe(pages.mem[..], pages.bitmap)
      requires blockMin < TWO_32
      ensures Valid() && this.pages == pages && mem == pages.mem
      ensures State() == Machine(pages.mem[..], pages.bitmap, 0, blockMin, Arena([], 0))
    {
      this.mem := pages.mem;
      this.pages := pages;
      this.blockRoot := 0;
      this.blockMin := blockMin;
      this.arena := Arena([], 0);
    }

    /** `alloc_page_alloc` (nop/start.c:10-15). */
    method PageAlloc(n: nat) returns (ptr: nat, total: nat)
      requires Valid() && M.PagesFor(n) <= PAGE_COUNT
      modifies mem
      ensures total == M.PagesFor(n) * PAGE_SIZE
      ensures var r := Search(Pages(old(mem[..]), pages.bitmap), M.PagesFor(n), 1, 0);
              if r == -1 then ptr == 0 && mem[..] == old(mem[..])
              else
                && ptr == r * PAGE_SIZE
                && mem[..] == MarkedMemory(old(mem[..]), pages.bitmap, r, r + M.PagesFor(n), PAGE_USED)
    {
      hide BlocksSafe, Linked, MarkedMemory, PagesUsed, Search, Flags;
      var count := M.PagesFor(n);
      total := count * PAGE_SIZE;
      ptr := pages.Alloc(count, 1);
    }

    /** The words `alloc_block` writes; the root changes between them. */
    method WriteBlock(block: nat, total: nat)
      requires block + BLOCK_HEADER + CELL_HEADER <= mem.Length && blockRoot < TWO_32
      requires BLOCK_HEADER + CELL_HEADER <= total <= TWO_31
      modifies this`blockRoot, mem
      ensures blockRoot == block
      ensures mem[..] == M.BlockWritten(old(mem[..]), block, old(blockRoot), total)
    {
      hide Store;
      StoreWord(mem, block, blockRoot);
      StoreWord(mem, block + 4, total - BLOCK_HEADER);
      blockRoot := block;
      StoreWord(mem, block + BLOCK_HEADER, ToUnsigned(total - BLOCK_HEADER - CELL_HEADER));
    }

    method AllocBlock(size: nat)
      requires Valid() && size + BLOCK_HEADER + CELL_HEADER <= TWO_31
      modifies this`blockRoot, this`arena, mem
      ensures Valid() && State() == M.Grow(old(State()), size)
    {
      hide BlocksSafe, Linked, MarkedMemory, PagesUsed, Search, Flags, M.BlockWritten;
      ghost var s := State();
      M.BlockPagesBound(size);
      M.RootBound(s);
      M.GrowKeepsInv(s, size);
      ghost var r := M.NewRun(s, size);
      var block, n := PageAlloc(size + BLOCK_HEADER + CELL_HEADER);
      WriteBlock(block, n);
      arena := if r == -1 then arena.(listed := 0)
               else Arena([M.FreshBlock(block, n)] + arena.blocks, arena.listed + 1);
    }

    /** The inner loop of `malloc_once`: the first fitting header of a block, or 0. */
    method ScanBlock(block: nat, n: nat, ghost i: nat) returns (data: nat, ghost j: nat)
      requires Valid() && n < TWO_31 && i < arena.listed <= |arena.blocks| && block == arena.blocks[i].addr
      ensures data == 0 ==> M.ScanFrom(arena, n, i, 0) == M.ScanFrom(arena, n, i + 1, 0)
      ensures data != 0 ==>
                && IsCell(arena, i, j) && data == CellAt(arena, i, j).addr
                && M.ScanFrom(arena, n, i, 0) == Some((i, j))
    {
      hide Inv, LoadSigned, Load;
      ghost var b := arena.blocks[i];
      AtBlock(i);
      var first := block + BLOCK_HEADER;
      var size := Load(mem[..], block + 4);
      j := 0;
      data := first;
      while data - first < size
        invariant j <= |b.cells| && data == if j < |b.cells| then b.cells[j].addr else b.End()
        invariant M.ScanFrom(arena, n, i, 0) == M.ScanFrom(arena, n, i, j)
        decreases |b.cells| - j
      {
        AtCell(i, j);
        var header := LoadSigned(mem[..], data);
        ComparisonsFit(b.cells[j], n);
        if Accepts(header, n) {
          return;
        }
        data := data + CELL_HEADER + Abs(header);
        j := j + 1;
      }
      if j < |b.cells| {
        AtCell(i, j);
      }
      data := 0;
    }

    /** The search of `malloc_once`: the first fitting header on the block list, or 0. */
    method FindFit(n: nat) returns (data: nat, ghost i: nat, ghost j: nat)
      requires Valid() && n < TWO_31
      ensures match M.FirstFit(arena, n)
              case None => data == 0
              case Some(p) => p == (i, j) && IsCell(arena, i, j) && data == CellAt(arena, i, j).addr && data != 0
    {
      hide Inv, Linked, LinkAt;
      ghost var a := arena;
      AtRoot();
      var block := blockRoot;
      data, i, j := 0, 0, 0;
      while block != 0
        invariant i <= a.listed && block == NextBlock(a, i)
        invariant M.FirstFit(a, n) == M.ScanFrom(a, n, i, 0)
        decreases a.listed - i
      {
        AtBlock(i);
        data, j := ScanBlock(block, n, i);
        if data != 0 {
          return;
        }
        AtLink(i);
        block := Load(mem[..], block);
        i := i + 1;
      }
      if i < a.listed {
        AtBlock(i);
      }
      data := 0;
    }

    /** Uses the free cell at `data`, whole or split. */
    method TakeHeader(data: nat, n: nat, ghost c: Cell)
      requires c.addr == data && n <= c.size < TWO_31 && c.End() <= mem.Length
      requires LoadSigned(mem[..], data) == c.size
      modifies mem
      ensures mem[..] == M.TakenMemory(old(mem[..]), c, n)
    {
      hide LoadSigned, Store;
      var header := LoadSigned(mem[..], data);
      ComparisonsFit(c, n);
      if Whole(header, n) {
        StoreWord(mem, data, ToUnsigned(-header));
      } else {
        StoreWord(mem, data + CELL_HEADER + n, ToUnsigned(header - CELL_HEADER - n));
        StoreWord(mem, data, ToUnsigned(-(n as int)));
      }
    }

    method MallocOnce(n: nat) returns (ptr: nat)
      requires Valid() && n < TWO_31
      modifies this`arena, mem
      ensures Valid() && (State(), ptr) == M.MallocOnce(old(State()), n)
    {
      hide Inv, M.TakenMemory, LoadSigned, M.ScanFrom;
      ListIsShort();
      ghost var s := State();
      M.ScanFindsFirst(arena, n, 0, 0);
      var data, i, j := FindFit(n);
      if data == 0 {
        return 0;
      }
      ghost var c := CellAt(arena, i, j);
      AtCell(i, j);
      M.TakeKeeps(s, i, j, n);
      TakeHeader(data, n, c);
      arena := Rewrite(arena, i, j, M.TakenCells(c, n));
      assert State() == M.Take(s, i, j, n);
      return data + CELL_HEADER;
    }

    method Malloc(n: nat) returns (ptr: nat)
      requires Valid() && M.SizeFits(State(), n)
      modifies this`blockRoot, this`arena, mem
      ensures Valid() && (State(), ptr) == M.Malloc(old(State()), n)
    {
      hide Inv, M.Grow, M.Take, M.ScanFrom;
      ListIsShort();
      ptr := MallocOnce(n);
      if ptr != 0 {
        return;
      }
      ptr := MallocOnce(n);
      if ptr != 0 {
        return;
      }
      var size := n + n / 4;
      if size < blockMin {
        size := blockMin;
      }
      AllocBlock(size);
      ptr := MallocOnce(n);
    }

    method Free(ptr: nat)
      requires Valid() && M.IsPointer(arena, ptr)
      modifies this`arena, mem
      ensures Valid() && State() == M.Free(old(State()), ptr)
    {
      if ptr == 0 {
        return;
      }
      hide Inv, HasHeader;
      ghost var s, p := State(), M.Locate(arena, ptr - CELL_HEADER);
      AtCell(p.0, p.1);
      R.FreeKeeps(s, ptr);
      var header := LoadSigned(mem[..], ptr - CELL_HEADER);
      if header < 0 {
        FlipHeader(ptr - CELL_HEADER, p.0, p.1);
      }
    }

    method FlipHeader(data: nat, ghost i: nat, ghost j: nat)
      requires Valid() && IsCell(arena, i, j) && data == CellAt(arena, i, j).addr && CellAt(arena, i, j).Live()
      modifies this`arena, mem
      ensures State() == M.Flipped(old(State()), i, j)
    {
      hide Inv, Store;
      AtCell(i, j);
      ghost var c := CellAt(arena, i, j);
      StoreWord(mem, data, ToUnsigned(-LoadSigned(mem[..], data)));
      arena := Rewrite(arena, i, j, [Cell(c.addr, -c.size)]);
    }

    method Realloc(ptr: nat, n: nat) returns (newPtr: nat)
      requires Valid() && R.CanRealloc(State(), ptr, n)
      modifies this`blockRoot, this`arena, mem
      ensures Valid() && (State(), newPtr) == R.Realloc(old(State()), ptr, n)
    {
      hide Inv, HasHeader, Blit, M.Malloc, M.CellOf, LoadSigned;
      ghost var s := State();
      newPtr := Malloc(n);
      ghost var s1 := State();
      if ptr != 0 {
        R.HeaderAfterMalloc(s, ptr, n);
        var header := LoadSigned(mem[..], ptr - CELL_HEADER);
        if header < 0 {
          R.CopyInPlace(s, ptr, n);
          var k := Min(n, -header);
          assert mem[ptr..ptr + k] == s1.mem[ptr..ptr + k] == R.Moved(s, ptr, n);
          CopyUpIsBlit(s1.mem, newPtr, ptr, k);
          Memcpy(mem, newPtr, ptr, k);
          assert State() == s1.(mem := Blit(s1.mem, newPtr, R.Moved(s, ptr, n)));
          assert State() == R.Copied(s, ptr, n);
          Free(ptr);
        }
      }
    }

    lemma ListIsShort()
      requires Valid()
      ensures arena.listed <= |arena.blocks|
    {
    }

    lemma AtRoot()
      requires Valid()
      ensures arena.listed <= |arena.blocks| && blockRoot == NextBlock(arena, 0)
    {
    }

    lemma AtLink(i: nat)
      requires Valid() && i < arena.listed
      ensures arena.listed <= |arena.blocks| && arena.blocks[i].addr + 4 <= mem.Length
      ensures Load(mem[..], arena.blocks[i].addr) == NextBlock(arena, i + 1)
    {
      assert LinkAt(mem[..], arena, i);
    }

    lemma AtBlock(i: nat)
      requires Valid() && i < |arena.blocks|
      ensures arena.listed <= |arena.blocks|
      ensures var b := arena.blocks[i];
              && PAGE_SIZE <= b.addr && b.End() <= mem.Length
              && Load(mem[..], b.addr + 4) == b.size
              && |b.cells| > 0 && b.cells[0].addr == b.Data()
    {
      M.BlockAddress(State(), i);
      BlockFacts(State(), i);
    }

    lemma AtCell(i: nat, j: nat)
      requires Valid() && IsCell(arena, i, j)
      ensures var b, c := arena.blocks[i], CellAt(arena, i, j);
              && b.Data() <= c.addr && c.End() <= b.End() <= mem.Length
              && -TWO_31 < c.size < TWO_31 && LoadSigned(mem[..], c.addr) == c.size
              && c.End() == if j + 1 < |b.cells| then b.cells[j + 1].addr else b.End()
    {
      var b := arena.blocks[i];
      CellFacts(State(), i, j);
      BlockFacts(State(), i);
      NextCell(b.cells, b.Data(), b.End(), j);
    }
  }
}
