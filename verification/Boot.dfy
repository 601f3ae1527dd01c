/**
 From the boot loader's memory map to the set of free pages: clipping of the map
 (nop/arch/i386/start.c:71-107) and stage 1 of `start` (nop/start.c:25-44).
 */
module Boot {
  import opened Bytes
  import opened Page
  import opened HeapLayout
  import opened HeapRuns
  import opened HeapPages
  import Alloc

  const MEMORY_AVAILABLE := 1
  const LOW_MEMORY_END := 0x0010_0000
  const KERNEL_START := 0x0010_0000

  /** An entry of the memory map; addresses and lengths have 64 bits. */
  datatype Entry = Entry(addr: nat, len: nat, kind: nat)

  /** A `start_block_t`. */
  datatype Region = Region(start: nat, size: nat) {
    ghost predicate Contains(a: nat) {
      start <= a < start + size
    }
  }

  // ----- Clipping the memory map -----

  /** The regions an entry contributes: one or none.  `kernelEnd` is the end of the kernel's data. */
  function Clip(e: Entry, kernelEnd: nat): seq<Region> {
    if e.kind != MEMORY_AVAILABLE then []
    else
      var start0, end0 := e.addr % TWO_32, (e.addr + e.len) % TWO_32;
      var start1 := if start0 < LOW_MEMORY_END then LOW_MEMORY_END else start0;
      var start2 := if KERNEL_START <= start1 < kernelEnd then kernelEnd else start1;
      var end1 := if start2 >= KERNEL_START && end0 < kernelEnd then KERNEL_START else end0;
      if end1 <= start2 then [] else [Region(start2, end1 - start2)]
  }

  function ClipAll(entries: seq<Entry>, kernelEnd: nat): seq<Region> {
    if entries == [] then []
    else ClipAll(entries[..|entries| - 1], kernelEnd) + Clip(entries[|entries| - 1], kernelEnd)
  }

  method ClipEntries(entries: seq<Entry>, kernelEnd: nat) returns (blocks: seq<Region>)
    ensures blocks == ClipAll(entries, kernelEnd)
  {
    blocks := [];
    for j := 0 to |entries|
      invariant blocks == ClipAll(entries[..j], kernelEnd)
    {
      assert entries[..j + 1][..j] == entries[..j];
      if entries[j].kind != MEMORY_AVAILABLE {
        continue;
      }
      var entryStart := entries[j].addr % TWO_32;
      var entryEnd := (entries[j].addr + entries[j].len) % TWO_32;
      if entryStart < LOW_MEMORY_END {
        entryStart := LOW_MEMORY_END;
      }
      if KERNEL_START <= entryStart < kernelEnd {
        entryStart := kernelEnd;
      }
      if entryStart >= KERNEL_START && entryEnd < kernelEnd {
        entryEnd := KERNEL_START;
      }
      if entryEnd <= entryStart {
        continue;
      }
      blocks := blocks + [Region(entryStart, entryEnd - entryStart)];
    }
    assert entries[..|entries|] == entries;
  }

  /**
   The region of an available entry are the addresses from its start, or the end of the kernel, to its
   end, both cut to 32 bits.
   */
  lemma ClipMeans(e: Entry, kernelEnd: nat)
    requires IsKernelEnd(kernelEnd)
    ensures |Clip(e, kernelEnd)| <= 1
    ensures forall a: nat :: InSome(Clip(e, kernelEnd), a) <==>
              && e.kind == 1
              && e.addr % 0x1_0000_0000 <= a < (e.addr + e.len) % 0x1_0000_0000 && kernelEnd <= a
  {
    var r := Clip(e, kernelEnd);
    assert forall a: nat :: InSome(r, a) <==> r != [] && r[0].Contains(a);
  }

  /** The regions come in the order of the map. */
  lemma {:induction false} ClipKeepsOrder(front: seq<Entry>, rest: seq<Entry>, kernelEnd: nat)
    ensures ClipAll(front + rest, kernelEnd) == ClipAll(front, kernelEnd) + ClipAll(rest, kernelEnd)
    ensures |rest| == 1 ==> ClipAll(rest, kernelEnd) == Clip(rest[0], kernelEnd)
    decreases |rest|
  {
    hide Clip;
    if rest == [] {
      assert front + rest == front;
    } else {
      var n := |rest| - 1;
      ClipKeepsOrder(front, rest[..n], kernelEnd);
      assert (front + rest)[..|front| + n] == front + rest[..n];
    }
  }

  /** The bytes of an available entry that the kernel may hand out: 32-bit, and past the kernel. */
  ghost predicate MayUse(e: Entry, kernelEnd: nat, a: nat) {
    e.kind == MEMORY_AVAILABLE && e.addr <= a < e.addr + e.len && kernelEnd <= a < TWO_32
  }

  ghost predicate InSome(blocks: seq<Region>, a: nat) {
    exists i :: 0 <= i < |blocks| && blocks[i].Contains(a)
  }

  /** The kernel is linked from 1 MiB on, and does not reach the last page of 32-bit memory. */
  ghost predicate IsKernelEnd(kernelEnd: nat) {
    KERNEL_START <= kernelEnd <= TWO_32 - PAGE_SIZE
  }

  /** The end of the entry, truncated to 32 bits, leaves nothing behind its start and the kernel. */
  predicate Dropped(e: Entry, kernelEnd: nat) {
    (e.addr + e.len) % TWO_32 <= Max(e.addr % TWO_32, kernelEnd)
  }

  lemma ClippedAway(e: Entry, kernelEnd: nat)
    requires IsKernelEnd(kernelEnd) && e.kind == MEMORY_AVAILABLE
    ensures Clip(e, kernelEnd) == [] <==> Dropped(e, kernelEnd)
  {
  }

  /**
   Clipping gives exactly the usable bytes of an entry that ends below 4 GiB.  It also does so for
   an entry wholly above 4 GiB that is dropped, and for no other.
   */
  lemma ClipIsExact(e: Entry, kernelEnd: nat)
    requires IsKernelEnd(kernelEnd)
    ensures (forall a: nat :: InSome(Clip(e, kernelEnd), a) <==> MayUse(e, kernelEnd, a))
            <==> || e.kind != MEMORY_AVAILABLE
                 || e.addr + e.len < TWO_32
                 || (e.addr >= TWO_32 && Dropped(e, kernelEnd))
  {
    var r := Clip(e, kernelEnd);
    if e.kind == MEMORY_AVAILABLE {
      ClippedAway(e, kernelEnd);
    }
    hide Dropped;
    assert forall a: nat :: InSome(r, a) <==> r != [] && r[0].Contains(a);
    if e.kind == MEMORY_AVAILABLE && e.addr + e.len >= TWO_32 {
      if e.addr < TWO_32 {
        assert MayUse(e, kernelEnd, TWO_32 - 1) && !InSome(r, TWO_32 - 1);
      } else if r != [] {
        assert InSome(r, r[0].start) && !MayUse(e, kernelEnd, r[0].start);
      }
    }
  }

  /**
   Clipping hands out nothing but usable bytes of an entry if and only if the entry starts below
   4 GiB or is dropped.  An entry that crosses 4 GiB loses memory, but gives no wrong bytes.
   */
  lemma ClipIsSound(e: Entry, kernelEnd: nat)
    requires IsKernelEnd(kernelEnd) && e.kind == MEMORY_AVAILABLE
    ensures (forall a: nat :: InSome(Clip(e, kernelEnd), a) ==> MayUse(e, kernelEnd, a))
            <==> e.addr < TWO_32 || Dropped(e, kernelEnd)
  {
    var r := Clip(e, kernelEnd);
    ClippedAway(e, kernelEnd);
    hide Dropped;
    assert forall a: nat :: InSome(r, a) <==> r != [] && r[0].Contains(a);
    if e.addr >= TWO_32 && r != [] {
      assert InSome(r, r[0].start) && !MayUse(e, kernelEnd, r[0].start);
    }
  }

  // ----- Stage 1 of start -----

  ghost predicate IsRegion(b: Region) {
    b.start + b.size < TWO_32
  }

  function FirstPage(b: Region): nat {
    (b.start + (PAGE_SIZE - 1)) % TWO_32 / PAGE_SIZE
  }

  function EndPage(b: Region): nat {
    (b.start + b.size) / PAGE_SIZE
  }

  ghost predicate Frees(b: Region, page: nat) {
    FirstPage(b) <= page < EndPage(b)
  }

  ghost predicate LiesIn(b: Region, page: nat) {
    b.start <= page * PAGE_SIZE && (page + 1) * PAGE_SIZE <= b.start + b.size
  }

  /** A region frees exactly the pages wholly inside it, unless it starts in the last page of memory. */
  lemma FreesWholePages(b: Region)
    requires IsRegion(b)
    ensures (forall page: nat :: Frees(b, page) <==> LiesIn(b, page)) <==> b.start <= TWO_32 - PAGE_SIZE
  {
    if b.start > TWO_32 - PAGE_SIZE {
      assert Frees(b, 0) && !LiesIn(b, 0);
    }
  }

  ghost predicate FreedBySome(blocks: seq<Region>, page: nat) {
    exists i :: 0 <= i < |blocks| && Frees(blocks[i], page)
  }

  /** The first region from `i` on that is large enough for the bitmap. */
  function CarveIndex(blocks: seq<Region>, i: nat): (k: nat)
    ensures i <= |blocks| ==> i <= k <= |blocks|
    ensures k < |blocks| ==> blocks[k].size >= PAGE_BITMAP_SIZE
    decreases |blocks| - i
  {
    if i >= |blocks| || blocks[i].size >= PAGE_BITMAP_SIZE then i else CarveIndex(blocks, i + 1)
  }

  /** No region in front of the one chosen is large enough, and none at all if none is chosen. */
  lemma {:induction false} CarvesFirst(blocks: seq<Region>, i: nat)
    requires i <= |blocks|
    ensures forall j :: i <= j < CarveIndex(blocks, i) ==> blocks[j].size < PAGE_BITMAP_SIZE
    decreases |blocks| - i
  {
    if i < |blocks| && blocks[i].size < PAGE_BITMAP_SIZE {
      CarvesFirst(blocks, i + 1);
    }
  }

  /**
   The bitmap is the end of the first region that is large enough; the rest of that region, and all
   other regions, are left.
   */
  lemma CarvedFromFirst(blocks: seq<Region>, k: nat)
    requires k < |blocks| && blocks[k].size >= PAGE_BITMAP_SIZE
    requires forall j :: 0 <= j < k ==> blocks[j].size < PAGE_BITMAP_SIZE
    ensures CarveIndex(blocks, 0) == k
    ensures BitmapAddress(blocks) + PAGE_BITMAP_SIZE == blocks[k].start + blocks[k].size
    ensures forall a: nat :: blocks[k].Contains(a) <==>
              Carved(blocks)[k].Contains(a) || BitmapAddress(blocks) <= a < BitmapAddress(blocks) + PAGE_BITMAP_SIZE
    ensures forall j :: 0 <= j < |blocks| && j != k ==> Carved(blocks)[j] == blocks[j]
  {
    CarvesFirst(blocks, 0);
    hide CarveIndex;
    assert CarveIndex(blocks, 0) <= |blocks| && (CarveIndex(blocks, 0) < |blocks| ==> blocks[CarveIndex(blocks, 0)].size >= PAGE_BITMAP_SIZE);
  }

  /** The regions after the bitmap has been carved off the end of one of them. */
  function Carved(blocks: seq<Region>): (r: seq<Region>)
    ensures |r| == |blocks|
  {
    var k := CarveIndex(blocks, 0);
    if k < |blocks| then blocks[k := Region(blocks[k].start, blocks[k].size - PAGE_BITMAP_SIZE)] else blocks
  }

  function BitmapAddress(blocks: seq<Region>): nat
    requires CarveIndex(blocks, 0) < |blocks|
  {
    var b := Carved(blocks)[CarveIndex(blocks, 0)];
    b.start + b.size
  }

  method CarveBitmap(pages: PageAllocator, blocks: array<Region>)
    requires pages.Valid() && forall i :: 0 <= i < blocks.Length ==> IsRegion(blocks[i])
    modifies pages, pages.mem, blocks
    ensures pages.Valid() && blocks[..] == Carved(old(blocks[..]))
    ensures forall i :: 0 <= i < blocks.Length ==> IsRegion(blocks[i])
    ensures if CarveIndex(old(blocks[..]), 0) < blocks.Length
            then pages.bitmap == BitmapAddress(old(blocks[..])) && forall p :: 0 <= p < PAGE_COUNT ==> pages.View()[p] == PAGE_USED
            else pages.bitmap == old(pages.bitmap) && pages.View() == old(pages.View())
  {
    ghost var b := blocks[..];
    var i := 0;
    while i < blocks.Length
      invariant i <= blocks.Length && CarveIndex(b, 0) == CarveIndex(b, i)
      invariant blocks[..] == b && pages.mem[..] == old(pages.mem[..]) && pages.bitmap == old(pages.bitmap)
    {
      if blocks[i].size >= PAGE_BITMAP_SIZE {
        blocks[i] := Region(blocks[i].start, blocks[i].size - PAGE_BITMAP_SIZE);
        assert blocks[..] == Carved(b);
        pages.Init(blocks[i].start + blocks[i].size);
        return;
      }
      i := i + 1;
    }
  }

  /** Stage 1 of `start`.  A page ends up free if some region frees it, and used otherwise. */
  method InitPages(pages: PageAllocator, blocks: array<Region>)
    requires pages.Valid() && forall i :: 0 <= i < blocks.Length ==> IsRegion(blocks[i])
    modifies pages, pages.mem, blocks
    ensures pages.Valid() && blocks[..] == Carved(old(blocks[..]))
    ensures if CarveIndex(old(blocks[..]), 0) < blocks.Length
            then
              && pages.bitmap == BitmapAddress(old(blocks[..]))
              && forall p :: 0 <= p < PAGE_COUNT ==> (pages.View()[p] == PAGE_FREE <==> FreedBySome(blocks[..], p))
            else
              && pages.bitmap == old(pages.bitmap)
              && forall p :: 0 <= p < PAGE_COUNT ==>
                   (pages.View()[p] == PAGE_FREE <==> FreedBySome(blocks[..], p) || old(pages.View()[p]) == PAGE_FREE)
  {
    CarveBitmap(pages, blocks);
    label AfterCarve:
    ghost var b, used := blocks[..], pages.View();
    for i := 0 to blocks.Length
      invariant blocks[..] == b && pages.Valid() && pages.bitmap == old@AfterCarve(pages.bitmap)
      invariant forall p :: 0 <= p < PAGE_COUNT ==> (pages.View()[p] == PAGE_FREE <==> FreedBySome(b[..i], p) || used[p] == PAGE_FREE)
    {
      var start := FirstPage(blocks[i]);
      var end := EndPage(blocks[i]);
      pages.Mark(start, end, PAGE_FREE);
      FreedByNext(b, i);
    }
    assert b[..blocks.Length] == b;
  }

  lemma FreedByNext(blocks: seq<Region>, i: nat)
    requires i < |blocks|
    ensures forall p :: 0 <= p ==> (FreedBySome(blocks[..i + 1], p) <==> FreedBySome(blocks[..i], p) || Frees(blocks[i], p))
  {
    var front, next := blocks[..i], blocks[..i + 1];
    forall p | 0 <= p
      ensures FreedBySome(next, p) <==> FreedBySome(front, p) || Frees(blocks[i], p)
    {
      if FreedBySome(front, p) {
        var k :| 0 <= k < |front| && Frees(front[k], p);
        assert next[k] == front[k];
      }
      if Frees(blocks[i], p) {
        assert next[i] == blocks[i];
      }
      if FreedBySome(next, p) && !Frees(blocks[i], p) {
        var k :| 0 <= k < |next| && Frees(next[k], p);
        assert front[k] == next[k];
      }
    }
  }

  // ----- What boot guarantees -----

  ghost predicate RegionInEntry(b: Region, e: Entry, kernelEnd: nat) {
    && e.addr <= b.start && b.start + b.size <= e.addr + e.len
    && kernelEnd <= b.start <= TWO_32 - PAGE_SIZE && 0 < b.size < TWO_32 - b.start
    && Contributes(e, kernelEnd)
  }

  /** The entry contributes a region. */
  predicate Contributes(e: Entry, kernelEnd: nat) {
    e.kind == MEMORY_AVAILABLE && !Dropped(e, kernelEnd)
  }

  ghost predicate EntriesApart(e: Entry, e': Entry, kernelEnd: nat) {
    Contributes(e, kernelEnd) && Contributes(e', kernelEnd) ==> Apart(e.addr, e.addr + e.len, e'.addr, e'.addr + e'.len)
  }

  /** The entries that contribute start below the last page of 32-bit memory. */
  ghost predicate StartsLow(entries: seq<Entry>, kernelEnd: nat) {
    forall i :: 0 <= i < |entries| && Contributes(entries[i], kernelEnd) ==> entries[i].addr <= TWO_32 - PAGE_SIZE
  }

  /** They do, and do not overlap. */
  ghost predicate IsPlainMap(entries: seq<Entry>, kernelEnd: nat) {
    && StartsLow(entries, kernelEnd)
    && forall i, j :: 0 <= i < j < |entries| ==> EntriesApart(entries[i], entries[j], kernelEnd)
  }

  ghost predicate RegionInMap(b: Region, entries: seq<Entry>, kernelEnd: nat) {
    exists i :: 0 <= i < |entries| && RegionInEntry(b, entries[i], kernelEnd)
  }

  ghost predicate RegionsApart(b: Region, b': Region) {
    Apart(b.start, b.start + b.size, b'.start, b'.start + b'.size)
  }

  /** Regions of available memory. */
  ghost predicate AreInMap(blocks: seq<Region>, entries: seq<Entry>, kernelEnd: nat) {
    forall i :: 0 <= i < |blocks| ==> RegionInMap(blocks[i], entries, kernelEnd)
  }

  /** Regions of available memory, apart from each other. */
  ghost predicate AreClipped(blocks: seq<Region>, entries: seq<Entry>, kernelEnd: nat) {
    && AreInMap(blocks, entries, kernelEnd)
    && forall i, j :: 0 <= i < j < |blocks| ==> RegionsApart(blocks[i], blocks[j])
  }

  /** Each region lies in an entry, overlaps or not. */
  lemma {:induction false} ClippedInMap(entries: seq<Entry>, kernelEnd: nat)
    requires StartsLow(entries, kernelEnd) && IsKernelEnd(kernelEnd)
    ensures AreInMap(ClipAll(entries, kernelEnd), entries, kernelEnd)
    decreases |entries|
  {
    hide Clip, RegionInEntry;
    if entries != [] {
      var n := |entries| - 1;
      var front, last := entries[..n], entries[n];
      ClippedInMap(front, kernelEnd);
      ClipInEntry(last, kernelEnd);
      var blocks, more := ClipAll(front, kernelEnd), Clip(last, kernelEnd);
      forall i | 0 <= i < |blocks + more|
        ensures RegionInMap((blocks + more)[i], entries, kernelEnd)
      {
        if i < |blocks| {
          assert RegionInMap(blocks[i], front, kernelEnd);
          var k :| 0 <= k < |front| && RegionInEntry(blocks[i], front[k], kernelEnd);
          assert entries[k] == front[k];
        } else {
          assert RegionInEntry(more[0], entries[n], kernelEnd);
        }
      }
    }
  }

  lemma {:induction false} ClippedRegions(entries: seq<Entry>, kernelEnd: nat)
    requires IsPlainMap(entries, kernelEnd) && IsKernelEnd(kernelEnd)
    ensures AreClipped(ClipAll(entries, kernelEnd), entries, kernelEnd)
    decreases |entries|
  {
    ClippedInMap(entries, kernelEnd);
    if entries != [] {
      var n := |entries| - 1;
      var front := entries[..n];
      ClippedRegions(front, kernelEnd);
      LastRegions(entries, kernelEnd, ClipAll(front, kernelEnd));
    }
  }

  lemma RegionsOfEntries(b: Region, e: Entry, b': Region, e': Entry, kernelEnd: nat)
    requires RegionInEntry(b, e, kernelEnd) && RegionInEntry(b', e', kernelEnd) && EntriesApart(e, e', kernelEnd)
    ensures RegionsApart(b, b')
  {
  }

  lemma ClipInEntry(e: Entry, kernelEnd: nat)
    requires IsKernelEnd(kernelEnd)
    requires Contributes(e, kernelEnd) ==> e.addr <= TWO_32 - PAGE_SIZE
    ensures var more := Clip(e, kernelEnd);
            |more| <= 1 && (more != [] ==> RegionInEntry(more[0], e, kernelEnd))
  {
  }

  lemma LastRegions(entries: seq<Entry>, kernelEnd: nat, blocks: seq<Region>)
    requires IsPlainMap(entries, kernelEnd) && IsKernelEnd(kernelEnd) && entries != []
    requires AreClipped(blocks, entries[..|entries| - 1], kernelEnd)
    ensures AreClipped(blocks + Clip(entries[|entries| - 1], kernelEnd), entries, kernelEnd)
  {
    hide Clip, RegionInEntry, RegionsApart, EntriesApart;
    var n := |entries| - 1;
    var front, last := entries[..n], entries[n];
    var more := Clip(last, kernelEnd);
    ClipInEntry(last, kernelEnd);
    forall i | 0 <= i < |blocks|
      ensures RegionInMap(blocks[i], entries, kernelEnd)
      ensures more != [] ==> RegionsApart(blocks[i], more[0])
    {
      assert RegionInMap(blocks[i], front, kernelEnd);
      var k :| 0 <= k < |front| && RegionInEntry(blocks[i], front[k], kernelEnd);
      assert entries[k] == front[k] && EntriesApart(entries[k], last, kernelEnd);
      if more != [] {
        RegionsOfEntries(blocks[i], front[k], more[0], last, kernelEnd);
      }
    }
  }

  /** A page is handed out only for memory that the map calls available and the kernel does not use. */
  ghost predicate PageIsSound(entries: seq<Entry>, kernelEnd: nat, bitmap: nat, page: nat) {
    && kernelEnd <= page * PAGE_SIZE
    && Apart(page * PAGE_SIZE, (page + 1) * PAGE_SIZE, bitmap, bitmap + PAGE_BITMAP_SIZE)
    && exists i :: 0 <= i < |entries| && entries[i].kind == MEMORY_AVAILABLE
                   && entries[i].addr <= page * PAGE_SIZE && (page + 1) * PAGE_SIZE <= entries[i].addr + entries[i].len
  }

  /** What is left of each region lies apart from the bitmap. */
  lemma CarvedApartFromBitmap(blocks: seq<Region>, i: nat)
    requires CarveIndex(blocks, 0) < |blocks| && i < |blocks|
    requires forall i, j :: 0 <= i < j < |blocks| ==> RegionsApart(blocks[i], blocks[j])
    ensures var b, bitmap := Carved(blocks)[i], BitmapAddress(blocks);
            && blocks[i].start <= b.start && b.start + b.size <= blocks[i].start + blocks[i].size
            && Apart(b.start, b.start + b.size, bitmap, bitmap + PAGE_BITMAP_SIZE)
  {
    var k := CarveIndex(blocks, 0);
    if i < k {
      assert RegionsApart(blocks[i], blocks[k]);
    } else if k < i {
      assert RegionsApart(blocks[k], blocks[i]);
    }
  }

  /** The pages that a region frees, none or some in a row, are apart from the bitmap. */
  ghost predicate SparesBitmap(b: Region, bitmap: nat) {
    FirstPage(b) < EndPage(b) ==> Apart(FirstPage(b) * PAGE_SIZE, EndPage(b) * PAGE_SIZE, bitmap, bitmap + PAGE_BITMAP_SIZE)
  }

  ghost predicate FreesApart(b: Region, bitmap: nat) {
    forall page: nat :: Frees(b, page) ==> Apart(page * PAGE_SIZE, (page + 1) * PAGE_SIZE, bitmap, bitmap + PAGE_BITMAP_SIZE)
  }

  lemma SparesEachPage(b: Region, bitmap: nat)
    ensures FreesApart(b, bitmap) <==> SparesBitmap(b, bitmap)
  {
    var first, end := FirstPage(b), EndPage(b);
    if FreesApart(b, bitmap) && first < end && bitmap < end * PAGE_SIZE {
      var page := Max(first, bitmap / PAGE_SIZE);
      assert Frees(b, page) ==> Apart(page * PAGE_SIZE, (page + 1) * PAGE_SIZE, bitmap, bitmap + PAGE_BITMAP_SIZE);
    }
  }

  /** The regions that the bitmap was not carved from have no whole pages that meet it. */
  ghost predicate BitmapSpared(blocks: seq<Region>)
    requires CarveIndex(blocks, 0) < |blocks|
  {
    forall i :: 0 <= i < |blocks| && i != CarveIndex(blocks, 0) ==> SparesBitmap(blocks[i], BitmapAddress(blocks))
  }

  /**
   Whatever the map was, boot frees no page of the bitmap if and only if no region other than the
   one the bitmap was carved from has whole pages that meet it.
   */
  lemma BitmapStaysUsed(blocks: seq<Region>)
    requires CarveIndex(blocks, 0) < |blocks| && forall i :: 0 <= i < |blocks| ==> IsRegion(blocks[i])
    ensures var bitmap := BitmapAddress(blocks);
            (forall page: nat :: FreedBySome(Carved(blocks), page) ==>
               Apart(page * PAGE_SIZE, (page + 1) * PAGE_SIZE, bitmap, bitmap + PAGE_BITMAP_SIZE))
            <==> BitmapSpared(blocks)
  {
    hide SparesBitmap;
    var k, c, bitmap := CarveIndex(blocks, 0), Carved(blocks), BitmapAddress(blocks);
    forall i | 0 <= i < |c|
      ensures FreesApart(c[i], bitmap) <==> i == k || SparesBitmap(blocks[i], bitmap)
    {
      SparesEachPage(c[i], bitmap);
      if i == k {
        CarvedSpares(blocks[k]);
      }
    }
    hide Frees, Apart, CarveIndex;
    if forall page: nat :: FreedBySome(c, page) ==> Apart(page * PAGE_SIZE, (page + 1) * PAGE_SIZE, bitmap, bitmap + PAGE_BITMAP_SIZE) {
      forall i | 0 <= i < |c|
        ensures FreesApart(c[i], bitmap)
      {
        assert forall page: nat :: Frees(c[i], page) ==> FreedBySome(c, page);
      }
    }
  }

  lemma CarvedSpares(b: Region)
    requires IsRegion(b) && b.size >= PAGE_BITMAP_SIZE
    ensures SparesBitmap(Region(b.start, b.size - PAGE_BITMAP_SIZE), b.start + b.size - PAGE_BITMAP_SIZE)
  {
  }

  /** Whatever the map, `start` receives regions past the kernel that end below 4 GiB. */
  lemma {:induction false} ClippedAreRegions(entries: seq<Entry>, kernelEnd: nat)
    requires IsKernelEnd(kernelEnd)
    ensures forall i :: 0 <= i < |ClipAll(entries, kernelEnd)| ==>
              IsRegion(ClipAll(entries, kernelEnd)[i]) && kernelEnd <= ClipAll(entries, kernelEnd)[i].start
    decreases |entries|
  {
    if entries != [] {
      ClippedAreRegions(entries[..|entries| - 1], kernelEnd);
    }
  }

  /** A map without overlaps spares the bitmap. */
  lemma PlainMapSparesBitmap(entries: seq<Entry>, kernelEnd: nat)
    requires IsPlainMap(entries, kernelEnd) && IsKernelEnd(kernelEnd)
    requires CarveIndex(ClipAll(entries, kernelEnd), 0) < |ClipAll(entries, kernelEnd)|
    ensures BitmapSpared(ClipAll(entries, kernelEnd))
  {
    hide ClipAll, CarveIndex, RegionInMap, SparesBitmap, Contributes;
    var blocks := ClipAll(entries, kernelEnd);
    ClippedRegions(entries, kernelEnd);
    ClippedAreRegions(entries, kernelEnd);
    forall i | 0 <= i < |blocks| && i != CarveIndex(blocks, 0)
      ensures SparesBitmap(blocks[i], BitmapAddress(blocks))
    {
      RegionStarts(blocks[i], entries, kernelEnd);
      CarvedApartFromBitmap(blocks, i);
      ApartIsSpared(blocks[i], BitmapAddress(blocks));
    }
  }

  lemma RegionStarts(b: Region, entries: seq<Entry>, kernelEnd: nat)
    requires RegionInMap(b, entries, kernelEnd)
    ensures kernelEnd <= b.start <= TWO_32 - PAGE_SIZE
  {
  }

  lemma ApartIsSpared(b: Region, bitmap: nat)
    requires b.start <= TWO_32 - PAGE_SIZE
    requires Apart(b.start, b.start + b.size, bitmap, bitmap + PAGE_BITMAP_SIZE)
    ensures SparesBitmap(b, bitmap)
  {
  }

  /**
   If the entries that contribute start below 4 GiB and the bitmap is spared, the pages that boot
   frees are whole pages of available memory past the first MiB, the kernel and the bitmap.
   */
  lemma FreedPagesAreSound(entries: seq<Entry>, kernelEnd: nat, page: nat)
    requires StartsLow(entries, kernelEnd) && IsKernelEnd(kernelEnd)
    requires var blocks := ClipAll(entries, kernelEnd);
             CarveIndex(blocks, 0) < |blocks| && BitmapSpared(blocks) && FreedBySome(Carved(blocks), page)
    ensures PageIsSound(entries, kernelEnd, BitmapAddress(ClipAll(entries, kernelEnd)), page)
  {
    var blocks := ClipAll(entries, kernelEnd);
    var c := Carved(blocks);
    ClippedInMap(entries, kernelEnd);
    ClippedAreRegions(entries, kernelEnd);
    BitmapStaysUsed(blocks);
    hide BitmapSpared, ClipAll, CarveIndex, RegionInMap, Frees, Apart;
    var i :| 0 <= i < |c| && Frees(c[i], page);
    RegionPage(blocks[i], c[i], entries, kernelEnd, page);
  }

  /** A page that is freed for what is left of a region lies in an entry. */
  lemma RegionPage(b: Region, left: Region, entries: seq<Entry>, kernelEnd: nat, page: nat)
    requires RegionInMap(b, entries, kernelEnd) && left.start == b.start && left.size <= b.size && Frees(left, page)
    ensures kernelEnd <= page * PAGE_SIZE
    ensures exists i :: 0 <= i < |entries| && entries[i].kind == MEMORY_AVAILABLE
                        && entries[i].addr <= page * PAGE_SIZE && (page + 1) * PAGE_SIZE <= entries[i].addr + entries[i].len
  {
    var e :| 0 <= e < |entries| && RegionInEntry(b, entries[e], kernelEnd);
    FreesWholePages(left);
    assert LiesIn(left, page);
  }

  /**
   The bitmap that boot leaves meets the demands of the heap if and only if no region starts in the
   last page, which would free page 0, and the bitmap is spared.
   */
  lemma BootedBitmap(m: seq<byte>, blocks: seq<Region>, bitmap: nat)
    requires forall i :: 0 <= i < |blocks| ==> IsRegion(blocks[i]) && PAGE_SIZE <= blocks[i].start
    requires CarveIndex(blocks, 0) < |blocks| && bitmap == BitmapAddress(blocks)
    requires |m| == MEMORY_SIZE && IsBitmap(m, bitmap)
    requires forall p :: 0 <= p < PAGE_COUNT ==> (Pages(m, bitmap)[p] == PAGE_FREE <==> FreedBySome(Carved(blocks), p))
    ensures BitmapSafe(m, bitmap) <==> NoneStartsLast(blocks) && BitmapSpared(blocks)
  {
    var used := Pages(m, bitmap);
    PageZeroStaysUsed(blocks);
    BitmapStaysUsed(blocks);
    hide BitmapSpared, NoneStartsLast, CarveIndex, Carved, FreedBySome;
    assert PagesUsed(used, 0, PAGE_SIZE) <==> used[0];
    assert PagesUsed(used, bitmap, bitmap + PAGE_BITMAP_SIZE) <==>
           forall page: nat :: FreedBySome(Carved(blocks), page) && page < PAGE_COUNT ==>
             Apart(page * PAGE_SIZE, (page + 1) * PAGE_SIZE, bitmap, bitmap + PAGE_BITMAP_SIZE);
    assert PAGE_SIZE <= bitmap by { BitmapIsHigh(blocks); }
  }

  lemma BitmapIsHigh(blocks: seq<Region>)
    requires CarveIndex(blocks, 0) < |blocks| && forall i :: 0 <= i < |blocks| ==> PAGE_SIZE <= blocks[i].start
    ensures PAGE_SIZE <= BitmapAddress(blocks)
  {
  }

  ghost predicate NoneStartsLast(blocks: seq<Region>) {
    forall i :: 0 <= i < |blocks| ==> blocks[i].start <= TWO_32 - PAGE_SIZE
  }

  lemma PageZeroStaysUsed(blocks: seq<Region>)
    requires forall i :: 0 <= i < |blocks| ==> IsRegion(blocks[i]) && PAGE_SIZE <= blocks[i].start
    ensures FreedBySome(Carved(blocks), 0) <==> !NoneStartsLast(blocks)
  {
    var c := Carved(blocks);
    assert forall i :: 0 <= i < |c| ==> (Frees(c[i], 0) <==> blocks[i].start > TWO_32 - PAGE_SIZE);
  }

  /**
   A map entry above 4 GiB is truncated onto low memory.  Here the second entry doubles the first
   one, and hands out a page of the bitmap carved from it.
   */
  lemma HighEntryFreesBitmap()
    ensures var kernelEnd := 0x0020_0000;
            var entries := [Entry(0x0010_0000, 0x3FF0_0000, MEMORY_AVAILABLE),
                            Entry(0x1_0010_0000, 0x3FF0_0000, MEMORY_AVAILABLE)];
            var blocks := ClipAll(entries, kernelEnd);
            && CarveIndex(blocks, 0) == 0
            && BitmapAddress(blocks) == 0x3FFE_0000
            && FreedBySome(Carved(blocks), 0x3FFE_0000 / PAGE_SIZE)
  {
    var kernelEnd := 0x0020_0000;
    var e1 := Entry(0x0010_0000, 0x3FF0_0000, MEMORY_AVAILABLE);
    var e2 := Entry(0x1_0010_0000, 0x3FF0_0000, MEMORY_AVAILABLE);
    var r := Region(0x0020_0000, 0x3FE0_0000);
    assert Clip(e1, kernelEnd) == [r] && Clip(e2, kernelEnd) == [r];
    assert [e1, e2][..1] == [e1] && [e1][..0] == [];
    assert ClipAll([e1], kernelEnd) == [r];
    assert ClipAll([e1, e2], kernelEnd) == [r, r];
    assert Carved([r, r])[1] == r && Frees(r, 0x3FFE_0000 / PAGE_SIZE);
  }

  /** The machine as boot leaves it: no blocks, and exactly the pages free that some region frees. */
  ghost predicate Booted(s: Machine, entries: seq<Entry>, kernelEnd: nat) {
    var blocks := ClipAll(entries, kernelEnd);
    && CarveIndex(blocks, 0) < |blocks| && s.bitmap == BitmapAddress(blocks)
    && IsBitmap(s.mem, s.bitmap) && s.arena == Arena([], 0)
    && forall p :: 0 <= p < PAGE_COUNT ==> (Pages(s.mem, s.bitmap)[p] == PAGE_FREE <==> FreedBySome(Carved(blocks), p))
  }

  /** The pages that boot frees. */
  ghost function FreedPages(entries: seq<Entry>, kernelEnd: nat): (pages: set<nat>) {
    set p: nat | p < PAGE_COUNT && FreedBySome(Carved(ClipAll(entries, kernelEnd)), p)
  }

  /** From the memory map to a heap that satisfies its invariant. */
  method Start(mem: array<byte>, entries: seq<Entry>, kernelEnd: nat) returns (heap: Alloc.Heap)
    requires mem.Length == MEMORY_SIZE && IsKernelEnd(kernelEnd)
    requires var blocks := ClipAll(entries, kernelEnd);
             CarveIndex(blocks, 0) < |blocks| && NoneStartsLast(blocks) && BitmapSpared(blocks)
    modifies mem
    ensures fresh(heap) && fresh(heap.pages) && heap.mem == mem && heap.Valid()
    ensures Booted(heap.State(), entries, kernelEnd) && heap.blockMin == 262144
  {
    var regions := ClipEntries(entries, kernelEnd);
    ClippedAreRegions(entries, kernelEnd);
    var blocks := new Region[|regions|](i requires 0 <= i < |regions| => regions[i]);
    assert blocks[..] == regions;
    var pages := new PageAllocator(mem);
    InitPages(pages, blocks);
    BootedBitmap(mem[..], regions, pages.bitmap);
    heap := new Alloc.Heap(pages, 262144);
  }

  /**
   From boot on, over every run in which the pages given back are pages that boot had freed, every
   byte of every heap cell is memory that the map calls available, past the first MiB and the
   kernel, and not in the bitmap.
   */
  lemma HeapStaysInMap(entries: seq<Entry>, kernelEnd: nat, s: Machine, ops: seq<Op>, c: Cell, a: nat)
    requires StartsLow(entries, kernelEnd) && IsKernelEnd(kernelEnd) && Booted(s, entries, kernelEnd)
    requires BitmapSpared(ClipAll(entries, kernelEnd))
    requires Inv(s) && LegalRun(s, ops)
    requires forall i :: 0 <= i < |ops| ==> FreesWithin(ops[i], FreedPages(entries, kernelEnd))
    requires HasCell(Run(s, ops).arena, c) && c.addr <= a < c.End()
    ensures exists i :: 0 <= i < |entries| && MayUse(entries[i], kernelEnd, a)
    ensures !(s.bitmap <= a < s.bitmap + PAGE_BITMAP_SIZE)
  {
    hide Inv, ClipAll, Carved, CarveIndex, BitmapAddress, LegalRun, Run, FreesWithin, HasCell, FreedBySome, PageIsSound, BitmapSpared;
    var pages := FreedPages(entries, kernelEnd);
    BootOwns(entries, kernelEnd, s);
    RunKeepsInv(s, ops);
    RunWithin(s, ops, pages);
    CellWithin(Run(s, ops), c, a, pages);
    CellIsSafe(Run(s, ops), c);
    FreedPagesAreSound(entries, kernelEnd, a / PAGE_SIZE);
    SoundByte(entries, kernelEnd, s.bitmap, a);
  }

  lemma SoundByte(entries: seq<Entry>, kernelEnd: nat, bitmap: nat, a: nat)
    requires PageIsSound(entries, kernelEnd, bitmap, a / PAGE_SIZE) && a < TWO_32
    ensures exists i :: 0 <= i < |entries| && MayUse(entries[i], kernelEnd, a)
    ensures !(bitmap <= a < bitmap + PAGE_BITMAP_SIZE)
  {
    var page := a / PAGE_SIZE;
    var i :| 0 <= i < |entries| && entries[i].kind == MEMORY_AVAILABLE
             && entries[i].addr <= page * PAGE_SIZE && (page + 1) * PAGE_SIZE <= entries[i].addr + entries[i].len;
    assert MayUse(entries[i], kernelEnd, a);
  }

  lemma BootOwns(entries: seq<Entry>, kernelEnd: nat, s: Machine)
    requires Booted(s, entries, kernelEnd)
    ensures Within(s, FreedPages(entries, kernelEnd))
  {
    hide ClipAll, Carved, CarveIndex, BitmapAddress, FreedBySome;
    forall page: nat | Owned(Pages(s.mem, s.bitmap), [], page)
      ensures page in FreedPages(entries, kernelEnd)
    {
    }
  }
}
