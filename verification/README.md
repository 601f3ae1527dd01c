# A verified model of the nopOS kernel

nopOS is a small kernel in C for 32-bit x86. This project models its stateful core in Dafny and
proves what that core is for. Memory is one flat sequence of 2^32 bytes (`Page.MEMORY_SIZE`), addresses are
indices, and integers are unbounded with the 32-bit wrap-around, the signed and unsigned
conversions and the little-endian words of the source written out.

| file | source | contents |
|---|---|---|
| `Bytes.dfy` | `include/nop/arch/i386/types.h`, `lib/endian.c` | words in memory, stretches of memory |
| `Wrappers.dfy` | | results that may be missing |
| `CString.dfy` | `lib/string.c` | copying and zero-terminated strings |
| `Page.dfy` | `nop/page.c` | the bitmap page allocator |
| `HeapLayout.dfy` | `lib/alloc.c` | what memory holds when the heap is intact: the invariant |
| `HeapModel.dfy` | `lib/alloc.c`, `nop/start.c` | the heap operations as functions on machine states |
| `HeapRuns.dfy` | `lib/alloc.c` | what each operation, and each run of operations, keeps |
| `HeapLaws.dfy` | `lib/alloc.c` | which cell and which pages `malloc` and `realloc` take, and what they leave |
| `HeapPages.dfy` | `lib/alloc.c`, `nop/page.c` | where the pages of the heap come from, over every run |
| `Alloc.dfy` | `lib/alloc.c` | the imperative heap, proved against `HeapModel` |
| `Boot.dfy` | `nop/arch/i386/start.c`, `nop/start.c` | from the memory map to a heap that satisfies the invariant |
| `Seek.dfy` | the three seekable devices | clamped seeking |
| `Ahci.dfy` | `nop/tasks/ahci.c` | a byte device over sectors |
| `PciConfig.dfy` | `nop/arch/i386/tasks/pci.c` | a byte device over dwords |
| `Temp.dfy` | `nop/temp.c` | temporary devices |
| `PciTree.dfy` | `nop/tree/pci.c` | listing and opening PCI functions |
| `Text.dfy` | `nop/arch/i386/tasks/text.c` | the text terminal |
| `Digits.dfy` | `lib/digits.c` | printing and parsing numbers |
| `Bson.dfy` | `lib/bson.c` | element lookup in BSON documents |
| `Mbr.dfy` | `nop/tree/mbr.c` | recognising a partitioned drive |

Code that works in place is modelled by classes and loops over arrays, and each method is proved
equal to a function on values. The properties are proved about those functions.

The heap is followed with a ghost map, `HeapLayout.Arena`: all blocks ever taken from the page
allocator, each with the cells (header and payload) that tile it. The first `listed` of them are on the block
list. Nothing in the code keeps such a map; `Inv` ties it to the bytes of memory.

## Where the code does not do what one would expect

Each of these is proved, with the exact condition under which the expected property holds.

- `memcpy` is a byte loop upwards: it is faithful exactly when the target does not start inside the
  source (`CString.MemcpyIsFaithful`).
- `strcmp` compares only as far as its first argument: zero means "is a prefix of" (`CString.Strcmp`).
- `page_alloc` with a step of more than one page tries unaligned starts after a partly free run
  (`Page.SearchIsAlignedFirstFit`). Its step is no pages for 0, and wraps around to none in the last page of sizes; then
  the search does not move on from a used page (`Page.StepMovesOn`). A run that begins with page 0 looks like a failure
  (`Page.PageAllocator.AllocThenFree`).
- `malloc` of 2^31 bytes or more accepts used and too small cells (`Alloc.AcceptsOnlyFits`), and a
  block that large would start with a negative header (`Alloc.NewBlockReadsFree`).
- `alloc_block` does not test for NULL: a failed allocation writes its three words at address 0 and loses
  the block list, so that the blocks stay listed if and only if `malloc` succeeds (`HeapRuns.BlockListSurvives`).
  The invariant still holds, since page 0 is never handed out.
- `realloc` does not test for NULL either: without memory it copies the old contents to address 0. The heap
  survives whatever they are, if and only if the copy ends in front of the bitmap and of the sizes of all blocks
  (`HeapRuns.ReallocSurvivesExactly`), as a copy of at most a page always does (`HeapRuns.SmallCopyFits`).
- Memory-map entries are cut to 32 bits (`Boot.ClipIsExact`). Entries that start at 4 GiB or above and are not
  dropped give wrong bytes, and only those (`Boot.ClipIsSound`), so that they can free pages of the bitmap
  (`Boot.HighEntryFreesBitmap`, `Boot.BitmapStaysUsed`). A block that starts in the last page below 4 GiB wraps around
  (`Boot.FreesWholePages`).
- An AHCI request with 65536 whole sectors or more is carried short, and only such a request
  (`Ahci.FlatCopyExactly`). A truncated count of 0 is taken to move nothing here; a drive that reads it as 65536 would carry
  exactly 65536 sectors in full. The tail of a request does not advance the cursor (`Ahci.CursorAfterRequest`).
- A write to PCI configuration space whose unaligned head reaches a dword boundary puts that head
  into the next dword (`PciConfig.HeadIsLost`, `PciConfig.WriteIsFlat`), which can belong to another function
  (`PciTree.WriteStaysInside`).
- `text_putchar` sign-extends characters of 8 bits over the attribute (`Text.GlyphKeepsColor`).
- The BSON lookup returns the first key that is a prefix of the name (`Bson.LookupIsExact`,
  `Bson.AbsentNameIsFound`), does not step over six of the element types (`Bson.WhatIsFoundBehind`), and finds
  array elements by the first digit of their index (`Bson.ArrayLookup`).

## Model

| member | source | states |
|---|---|---|
| CString.Memcpy | lib/string.c:15-24 | memory becomes what copying upwards one element at a time makes of it, each step seeing the earlier writes |
| CString.CopyUpIsBlit | lib/string.c:15-24 | if the target does not start inside the source, the target gets the old source and nothing else changes |
| CString.CopyUpRepeats | lib/string.c:15-24 | if the target starts inside the source, the bytes between the two starts are repeated |
| CString.MemcpyIsFaithful | lib/string.c:15-24 | for all contents `memcpy` is a faithful move if and only if the target is not strictly inside the source range |
| CString.Memmove | lib/string.c:26-39 | for any overlap the target gets the old contents of the source and nothing else changes |
| CString.Strlen | lib/string.c:5-13 | the length of the text up to the first zero |
| CString.Memcmp | lib/string.c:54-67 | zero exactly if all `n` bytes are the same, otherwise the difference of the first ones that differ, as signed characters; reads no byte beyond |
| CString.Strcmp | lib/string.c:69-71 | zero exactly if the first text is a prefix of the second, otherwise the difference of the first characters that differ |
| CString.StrcmpStops | lib/string.c:69-71 | the comparison never reads behind either terminator |
| Bytes.LEValueOfBytes | lib/endian.c:22-31 | decoding the little-endian bytes of a number that fits gives the number |
| Bytes.LEBytesOfValue | lib/endian.c:22-31 | encoding the value of little-endian bytes gives the bytes |
| Bytes.FourBytes | lib/endian.c:22-31 | the first of four bytes counts least |
| Bytes.CastsKeepBits | lib/alloc.c:14-25 | signed and unsigned readings of 32 bits differ by nothing or by 2^32, and undo each other |
| Bytes.LoadOfStoreSigned | lib/alloc.c:14-25 | a signed word stored at any address is read back, and no byte outside it changes |
| Page.PageAllocator.Init | nop/page.c:8-13 | every page is used, and no byte outside the bitmap changes |
| Page.PageAllocator.MarkFirst | nop/page.c:16-24 | the first loop marks exactly the pages up to a byte boundary or the end |
| Page.PageAllocator.MarkLast | nop/page.c:26-34 | the second loop marks exactly the pages from the last byte boundary on |
| Page.PageAllocator.MarkBytes | nop/page.c:36-39 | the byte loop marks exactly the pages of whole bytes |
| Page.PageAllocator.Mark | nop/page.c:15-40 | for any alignment exactly the pages in `[start, end)` take the value, all others keep theirs, no other byte changes |
| Page.PagesOfMarkedMemory | nop/page.c:15-40 | the page-by-page marking of memory is a plain set update of the pages |
| Page.ByteOfPages | nop/page.c:15-40 | byte `k` of the bitmap is the flags of pages 8k to 8k+7, the first in its lowest bit |
| Page.MarkedAt | nop/page.c:15-40 | after the update a page has the value exactly if it is in the range, and its old flag otherwise |
| Page.MarkedMemoryIsUnique | nop/page.c:15-40 | memory after marking is determined by the pages: any two ways to mark give the same bytes |
| Page.PageAllocator.FindRun | nop/page.c:48-61 | the search loop, with its moving index, computes `Search` (or stops at page 0 with a step of no pages) and reads only bits of the bitmap |
| Page.UnitStepFindsLowest | nop/page.c:48-61 | with a step of one page the result is the lowest start of `n` consecutive free pages, and there is none if it fails |
| Page.SearchIsAlignedFirstFit | nop/page.c:46-61 | for all bitmaps the result is the lowest aligned free run, if and only if the step is one page, or one page is asked for, or only one start is possible |
| Page.PartialRunLosesAlignment | nop/page.c:50-55 | a bitmap on which the search with a larger step gives a wrong answer, for every such step and size |
| Page.StepPagesPositive | nop/page.c:46 | the step is the least number of pages that holds it, unless it is so large that rounding wraps; it makes progress exactly if it is neither 0 nor that large |
| Page.StepMovesOn | nop/page.c:46-55 | after a run that is too short the loop goes on from a later page, whatever the bitmap, if and only if the step is neither 0 nor rounds to none |
| Page.PageAllocator.Alloc | nop/page.c:42-65 | returns the start of the run found and marks exactly its pages; NULL and no change if there is none; with a step of no pages, if the first pages are free |
| Page.PageAllocator.Free | nop/page.c:67-70 | exactly the pages from that of `ptr` on become free |
| Page.MarkThenUnmark | nop/page.c:58-70 | freeing a run that was allocated restores every byte of memory |
| Page.PageAllocator.AllocThenFree | nop/page.c:42-70 | `page_free` after a successful `page_alloc` restores memory exactly, if and only if the run is empty or the first `n` pages are not all free, since a run at page 0 reads as NULL |
| HeapLayout.TilesTotal | lib/alloc.c:61-90 | cells that tile a stretch add up to its length |
| HeapLayout.TilesOrdered | lib/alloc.c:61-90 | in a tiling every cell ends before the later ones begin |
| HeapLayout.RewriteKeepsInv | lib/alloc.c:67-78 | replacing one cell by cells that tile the same stretch, in memory and in the map, keeps the invariant |
| HeapLayout.RewriteKeepsCells | lib/alloc.c:67-78 | and keeps every other cell and its bytes |
| HeapLayout.RewriteKeepsHeaders | lib/alloc.c:67-78 | and keeps every header where it is |
| HeapModel.ScanFindsFirst | lib/alloc.c:58-96 | the scan finds the first free cell that fits in block list order, and fails exactly if no cell fits |
| HeapModel.TakeIsRewrite | lib/alloc.c:67-78 | taking a cell whole, or splitting it with a new header in its free part, tiles the same stretch and changes no byte outside |
| HeapModel.NewPagesApart | lib/alloc.c:45-47 | free pages hold no byte of page 0, of the bitmap or of any heap block |
| HeapModel.GrownKeepsInv | lib/alloc.c:45-56 | a new block joins the invariant and changes no existing block |
| HeapModel.FailedGrowKeepsInv | lib/alloc.c:45-56 | without pages the words land at address 0, and all blocks stay intact |
| HeapModel.GrownFits | lib/alloc.c:118-127 | after a block was added the third attempt succeeds in its first cell; without one it fails |
| HeapRuns.MallocKeeps | lib/alloc.c:98-135 | the invariant holds after `malloc`; every cell in use keeps its header and all its bytes; no header disappears |
| HeapRuns.MallocResult | lib/alloc.c:98-135 | NULL exactly if no free cell fits and the page allocator has no run; otherwise the pointer is a used cell with room for `n` bytes, and at most a header more |
| HeapRuns.ServedExactly | lib/alloc.c:98-135 | `malloc` can serve a request if and only if some listed cell has the size, or the pages of a new block are free in a row somewhere |
| HeapRuns.MallocIsFresh | lib/alloc.c:98-135 | the pointer is not that of any cell in use or too small before |
| HeapRuns.CellsNeverOverlap | lib/alloc.c:7-25 | in every intact state two cells are disjoint, headers included |
| HeapRuns.CellIsSafe | nop/start.c:10-15 | every cell lies in memory on pages marked used, apart from page 0 and the bitmap |
| HeapRuns.BlockAddsUp | lib/alloc.c:45-56 | headers and payload sizes of a block add up to the size in its own header |
| HeapLaws.MallocTakesFirst | lib/alloc.c:58-96 | the pointer is the payload of the first listed cell that fits; that cell is used whole if it is at most 4 bytes larger, otherwise it becomes a used cell of `n` bytes and a free one of the rest; all other cells, the list and the blocks stay |
| HeapLaws.BlockPagesAreLeast | lib/alloc.c:45-47 | a new block has the least whole number of pages for max(n + n/4, minimum) and 12 bytes of headers |
| HeapLaws.MallocAddsBlock | lib/alloc.c:98-135 | if no listed cell fits and there is memory, the lowest run of that many free pages becomes the first block of the list, in front of the old ones; the pointer is the payload of its first cell, and the rest of that cell is left free; exactly those pages become used, and all older cells stay |
| HeapLaws.MallocFails | lib/alloc.c:45-56 | without memory NULL is returned, the list is empty, and only the three words at address 0 change, to the old root and the sizes of the block |
| HeapLaws.MallocWritesHeader | lib/alloc.c:14-25 | the word in front of a pointer that `malloc` returns is the negated size of its cell, `n` to `n` + 4 |
| HeapLaws.ReallocReturns | lib/alloc.c:137-153 | for NULL and every pointer, cells of size 0 included: NULL exactly without memory, otherwise a cell with room for `n` bytes that was not in use; where there is nothing to copy the result is that of `malloc`, and every cell in use is kept |
| HeapRuns.FreeKeeps | lib/alloc.c:155-167 | `free` makes exactly that cell free, keeps all others with their bytes, and does nothing for NULL or a cell not in use |
| HeapRuns.FreeChanges | lib/alloc.c:155-167 | `free` writes to the header of that cell only |
| HeapRuns.CopyInPlace | lib/alloc.c:141-147 | the copy of `realloc` has source and target apart, both in memory, and the source is as it was |
| HeapRuns.NullCopyKeeps | lib/alloc.c:147 | without a block list, bytes copied to address 0 that end in front of the bitmap and of the sizes of all blocks keep the invariant and all cells |
| HeapRuns.SmallCopyFits | lib/alloc.c:147 | a copy of at most a page ends there in every intact state |
| HeapRuns.ReallocSurvivesExactly | lib/alloc.c:137-153 | for a live pointer and no memory, the invariant holds after the copy whatever the payload is, if and only if the copy ends there |
| HeapRuns.CopiedIsCopiedToNull | lib/alloc.c:137-153 | the state this speaks of is the one `realloc` makes |
| HeapRuns.ReallocKeeps | lib/alloc.c:137-153 | the invariant holds after `realloc`, and every other live cell keeps its bytes, with memory or (if the copy to address 0 fits) without |
| HeapRuns.ReallocMoves | lib/alloc.c:137-153 | NULL exactly if there is no memory, otherwise another cell with room for `n` bytes; the first min(n, old size) old bytes are at the result, and the old cell is free |
| HeapRuns.MarkKeeps | nop/page.c:42-70 | page allocations by others, and freeing pages that the heap does not own, keep the heap and all its bytes |
| HeapRuns.StepKeeps | lib/alloc.c:98-167 | every legal step of either allocator, and every store into a payload or into memory of neither, is safe |
| HeapRuns.RunKeepsInv | lib/alloc.c:98-167 | the invariant holds after every run of legal steps |
| HeapRuns.RunKeepsHeaders | lib/alloc.c:58-167 | no header ever disappears, over any run |
| HeapRuns.RunKeepsPayload | lib/alloc.c:98-167 | a live cell keeps every byte over any run that does not free, reallocate or store into it |
| HeapRuns.PointerStaysValid | lib/alloc.c:137-167 | a pointer from `malloc` has a genuine header in front of it in every later state |
| HeapRuns.BlockListSurvives | lib/alloc.c:45-56 | every block on the list stays on it over `malloc`, if and only if it succeeds or the list was empty |
| HeapRuns.FailedMallocForgetsBlocks | lib/alloc.c:45-56 | after a failed `malloc` the block list is empty, and no request fits until a new block is added |
| HeapPages.GrowWithin | lib/alloc.c:45-56 | a new block takes no page that was not free |
| HeapPages.StepWithin | lib/alloc.c:98-167 | no legal step makes a page free or the heap's that was neither, unless it is given back by the step |
| HeapPages.RunWithin | lib/alloc.c:98-167 | the same over every run: free pages and heap pages stay among any set that holds them at first and all pages given back |
| Alloc.ComparisonsFit | lib/alloc.c:67-68 | for sizes below 2^31 the signed and the unsigned comparison decide as the model does |
| Alloc.AcceptsOnlyFits | lib/alloc.c:67 | only cells that are large enough are accepted, if and only if `n` is below 2^31 |
| Alloc.NewBlockReadsFree | lib/alloc.c:45-56 | the first header of a new block reads as a free cell of the size asked for, if and only if that size with both headers is at most 2^31 |
| Alloc.Heap.PageAlloc | nop/start.c:10-15 | rounds the size up to pages and allocates the lowest free run of that many pages |
| Alloc.Heap.AllocBlock | lib/alloc.c:45-56 | the whole state becomes `HeapModel.Grow` of the old one |
| Alloc.Heap.FindFit | lib/alloc.c:59-93 | the two nested loops over raw memory find the cell that the model finds, which is the first listed one that fits (`HeapModel.ScanFindsFirst`) |
| Alloc.Heap.MallocOnce | lib/alloc.c:58-96 | the whole state and the pointer are those of the model, which takes the first cell that fits (`HeapLaws.MallocTakesFirst`) |
| Alloc.Heap.Malloc | lib/alloc.c:98-135 | the whole state and the pointer are those of the model, for which `HeapLaws.MallocTakesFirst`, `MallocAddsBlock` and `MallocFails` say which cell or block that is in each case |
| Alloc.Heap.Free | lib/alloc.c:155-167 | the whole state is that of the model |
| Alloc.Heap.Realloc | lib/alloc.c:137-153 | the whole state and the pointer are those of the model, for which `HeapLaws.ReallocReturns` and `HeapRuns.ReallocMoves` say what is returned and copied |
| Boot.ClipEntries | nop/arch/i386/start.c:69-107 | the loop over the memory map clips and appends entry by entry |
| Boot.ClipMeans | nop/arch/i386/start.c:72-99 | the addresses of a region are those of an available entry from its start to its end, both cut to 32 bits, that are not below the end of the kernel |
| Boot.ClipKeepsOrder | nop/arch/i386/start.c:69-107 | the regions of a map are those of its entries in order |
| Boot.ClipIsExact | nop/arch/i386/start.c:72-99 | the region is exactly the usable addresses of the entry, if and only if the entry is not available, ends below 4 GiB, or starts at 4 GiB or above and its truncated end is at most its truncated start or the end of the kernel |
| Boot.ClipIsSound | nop/arch/i386/start.c:72-99 | the region of an available entry has usable addresses only, if and only if the entry starts below 4 GiB or its truncated end is at most its truncated start or the end of the kernel |
| Boot.CarveBitmap | nop/start.c:30-37 | the end of the first block that is large enough becomes the bitmap, with all pages used |
| Boot.CarvesFirst | nop/start.c:30-37 | no region in front of the one chosen is large enough for the bitmap, and none at all if none is chosen |
| Boot.CarvedFromFirst | nop/start.c:30-37 | the bitmap is the end of the first region that is large enough; the rest of that region and all others are left |
| Boot.FreesWholePages | nop/start.c:39-44 | the pages freed for a block are exactly those that lie wholly in it, if and only if it does not start in the last page below 4 GiB |
| Boot.InitPages | nop/start.c:28-44 | a page is free if and only if it is freed for some block after the bitmap was carved off |
| Boot.ClippedRegions | nop/arch/i386/start.c:71-107 | if the entries that contribute start below the last page of 32-bit memory and do not overlap, the regions are disjoint, and each is part of an available entry past the kernel |
| Boot.ClippedInMap | nop/arch/i386/start.c:71-107 | if they start there, overlapping or not, each region is part of an available entry past the kernel |
| Boot.PlainMapSparesBitmap | nop/start.c:28-44 | if they also do not overlap, the bitmap is spared |
| Boot.FreedPagesAreSound | nop/start.c:28-44 | if the entries that contribute start below the last page of 32-bit memory and the bitmap is spared, every free page lies in an available entry, past the first MiB and the kernel, and apart from the bitmap |
| Boot.BitmapStaysUsed | nop/start.c:28-44 | for all regions, no page of the bitmap is freed if and only if no region other than the one it was carved from has whole pages that meet it |
| Boot.ClippedAreRegions | nop/arch/i386/start.c:97-106 | for every map the regions that `start` receives begin past the kernel and end below 4 GiB |
| Boot.HighEntryFreesBitmap | nop/arch/i386/start.c:76-77 | a map with an entry above 4 GiB for which boot frees a page of the bitmap |
| Boot.BootedBitmap | nop/start.c:28-48 | for all regions, the bitmap that boot leaves meets the demands of the heap if and only if no region starts in the last page of 32-bit memory and the bitmap is spared |
| Boot.Start | nop/start.c:25-48 | under exactly that condition boot ends with a heap that satisfies its invariant, the bitmap in its place, no blocks, a minimum block size of 262144 bytes, and exactly those pages free |
| Boot.HeapStaysInMap | nop/start.c:25-48 | if the entries that contribute start below the last page of 32-bit memory and the bitmap is spared: from boot on, over every run that gives back only pages that boot had freed, every byte of every heap cell is available memory of the map, past the first MiB and the kernel, and not in the bitmap |
| Seek.SeekIsClamped | nop/tasks/ahci.c:305-326 | a seek by any offset goes to the target clamped to the device, if and only if the device is empty, or the target is in the range of the signed integer, or it and what it wraps around to are clamped to the same end |
| Seek.SeekCounts | nop/tasks/ahci.c:309-325 | a seek counts from 0, the end or the cursor, and stops at either end of the device |
| Seek.SeekWraps | nop/tasks/ahci.c:309-325 | a target outside the signed integer acts as the one that differs by whole turns |
| Seek.SeeksAddUp | nop/tasks/ahci.c:309-325 | two seeks from the cursor inside the device add up, and one back leads back |
| Seek.ComputeSeek | nop/tasks/ahci.c:309-325 | the statements of the seek functions compute that position |
| Ahci.WholeRequestDone | nop/tasks/ahci.c:201-303 | if all transfers work the whole request is done |
| Ahci.CursorAfterRequest | nop/tasks/ahci.c:229-255 | the cursor is the end of the request if and only if the head was all of it or the end is a sector boundary; otherwise it is rounded down to a sector |
| Ahci.CursorAfterAny | nop/tasks/ahci.c:201-303 | whatever fails, the cursor is behind the bytes counted, unless the whole request was done and went past its head; then it is rounded down to a sector |
| Ahci.RequestStopsAtStage | nop/tasks/ahci.c:219-255 | whatever fails, the count is nothing, the head, all but the tail, or everything |
| Ahci.RequestStopsAtFailure | nop/tasks/ahci.c:201-303 | the transfers go on until the first that fails; how many were made decides which stage is counted, and without a failure all are made and everything is counted |
| Ahci.MovedIsBlit | nop/tasks/ahci.c:201-303 | the bytes counted are exactly the prefix of the data that was moved, and no other byte changes |
| Ahci.FlatCopyExactly | nop/tasks/ahci.c:121-144 | the bytes counted are exactly those moved, for all contents and all failures, if and only if the middle part of the request has fewer than 65536 sectors |
| Ahci.Disk.Patch | nop/tasks/ahci.c:219-227 | reading, patching and writing back a sector changes the patched bytes only; two transfers, the second only if the first works |
| Ahci.Disk.Write | nop/tasks/ahci.c:201-256 | for every pattern of failures the disk, the cursor, the count and the transfers made are those of the request clamped to the device |
| Ahci.Disk.Read | nop/tasks/ahci.c:258-303 | the same for the buffer of a read, which gets the bytes at the cursor |
| Ahci.Disk.SeekDevice | nop/tasks/ahci.c:305-326 | a target inside the device, counted from 0, the end or the cursor, is where the cursor goes; any other is wrapped to 64 bits and clamped |
| Ahci.Disk.WriteThenRead | nop/tasks/ahci.c:201-326 | writing, seeking back and reading gives the bytes written, and the disk changes nowhere else, for every request with a middle part below 65536 sectors |
| PciConfig.FieldsAreApart | nop/arch/i386/tasks/pci.c:13-25 | enable bit, device and register do not overlap in the address port, so that combining them adds them |
| PciConfig.PortAddressSelects | nop/arch/i386/tasks/pci.c:13-25 | an offset split into device and register selects the dword that holds it (PCI Local Bus 3.0, section 3.2.2.3.2) |
| PciConfig.WriteIsFlat | nop/arch/i386/tasks/pci.c:51-78 | a write updates exactly the addressed bytes for all contents, if and only if it is aligned or ends strictly inside its first dword |
| PciConfig.HeadIsLost | nop/arch/i386/tasks/pci.c:60 | otherwise the bytes of its head are not written at all |
| PciConfig.HeadGoesToNext | nop/arch/i386/tasks/pci.c:51-78 | instead the dword it belongs to, with these bytes in it, is put into the next one (the first one at the end of the space), under the rest of the data |
| PciConfig.Config.Write | nop/arch/i386/tasks/pci.c:43-81 | configuration space and cursor after a write of any alignment and length, clamped to the space |
| PciConfig.Config.Read | nop/arch/i386/tasks/pci.c:83-117 | a read of any alignment and length delivers the bytes at the cursor and advances it |
| PciConfig.Config.SeekDevice | nop/arch/i386/tasks/pci.c:119-138 | a target inside the device, counted from 0, the end or the cursor, is where the cursor goes; any other is wrapped to 32 bits and clamped |
| Temp.TempDevice.Write | nop/temp.c:18-29 | exactly the bytes that fit are written at the cursor, which moves behind them |
| Temp.TempDevice.Read | nop/temp.c:31-42 | the bytes at the cursor are delivered, and it moves behind them |
| Temp.TempDevice.SeekDevice | nop/temp.c:44-63 | a target inside the device, counted from 0, the end or the cursor, is where the cursor goes; any other is wrapped to 32 bits and clamped |
| Temp.TempDevice.WriteThenRead | nop/temp.c:18-63 | writing, seeking back and reading gives the bytes written, from every cursor that a 32-bit seek can reach |
| PciTree.RecordIsFilled | nop/tree/pci.c:134-138 | whatever the record held before, it ends with the address as four hexadecimal digits, terminated, can be opened and cannot be listed |
| PciTree.List | nop/tree/pci.c:122-145 | the listing has one such record for each function, in order, and is read from its start |
| PciTree.Open | nop/tree/pci.c:91-119 | no device for an empty path, otherwise a new window, at its start, of the function whose address is the parsed prefix of at most four digits |
| PciTree.RecordOpens | nop/tree/pci.c:103 | opening the name in a record gives the 16-bit address that was listed |
| PciTree.OpenAll | nop/tasks/ahci.c:476-499 | reading records until one is short and opening each gives windows of all functions in order, and stops |
| PciTree.CombinedIsOr | nop/tree/pci.c:43 | how the register offset and the address of a function combine, with the offset at the end of the window included |
| PciTree.Function.Read | nop/tree/pci.c:47-57 | delivers this function's registers from its own cursor, clamped to its 256 bytes, and does not move the cursor |
| PciTree.Function.Write | nop/tree/pci.c:35-45 | writes at this function's registers, clamped to its 256 bytes |
| PciTree.WriteStaysInside | nop/tree/pci.c:35-45 | no other function's register changes, whatever is written, if and only if the write does not run from inside the last dword to its end |
| Text.LayStep | nop/arch/i386/tasks/text.c:32-48 | laying out a page row by row from the front is the same as laying it out character by character |
| Text.FullLineTakesOneRow | nop/arch/i386/tasks/text.c:33-45 | a full row followed by a line end advances one row only |
| Text.FoldKeepsText | nop/arch/i386/tasks/text.c:33-45 | the rows of a line hold its characters in order; all but the last are full and none is longer |
| Text.LayOfLine | nop/arch/i386/tasks/text.c:33-45 | a text without line ends is laid out as one line |
| Text.LayOfLines | nop/arch/i386/tasks/text.c:33-40 | a line end separates what is laid out in front of it from what is laid out behind it |
| Text.GlyphKeepsColor | nop/arch/i386/tasks/text.c:47 | a character keeps every attribute if and only if it has 7 bits |
| Text.GlyphShows | nop/arch/i386/tasks/text.c:47 | the low byte of a cell is the character for every character and attribute, and the high byte is the attribute, or all ones from 128 on |
| Text.WindowShows | nop/arch/i386/tasks/text.c:32-57 | the screen shows the last rows of the page, each character in the low byte of its cell, and behind the text the screen as it was or blanks |
| Text.WindowAddRow | nop/arch/i386/tasks/text.c:34-40 | one more row on the page shows nothing new, or moves the window by exactly one row and shows a blank one |
| Text.WindowAddChar | nop/arch/i386/tasks/text.c:47 | one more character on the page changes the cell at the cursor only |
| Text.Terminal.constructor | nop/arch/i386/tasks/text.c:20-30 | the window on the empty page is the screen as it was |
| Text.Terminal.Scroll | nop/arch/i386/tasks/text.c:50-57 | an exact shift by one row despite the overlapping copy, with the last row blank |
| Text.Terminal.Putchar | nop/arch/i386/tasks/text.c:32-48 | screen and cursor are still the window on everything written, now with this character; the low byte of the cell in front of the cursor is the character, and a line end puts the cursor at the start of a row |
| Text.Terminal.Write | nop/arch/i386/tasks/text.c:59-63 | screen and cursor are the window on everything written, now with all of the text |
| Digits.DigitCountBound | lib/digits.c:14-22 | a number of `k` bits has at most `k` digits in any base |
| Digits.TableIsRead | lib/digits.c:6-60 | digit `d` is printed as its character in the table, and is read from that character and, for a letter, from its lower-case form, and from no other |
| Digits.CollectDigits | lib/digits.c:14-22 | at most 32 of the 40 cells are used, and they hold the last digits, the least significant first |
| Digits.DigitAt | lib/digits.c:14-26 | the character at position `k` from the right stands for the digit v / base^k mod base |
| Digits.PrintedIsShortest | lib/digits.c:8-31 | a number has no leading zeros and no more digits than it needs, unless the space is too short; zero is one digit |
| Digits.UlongToStr | lib/digits.c:8-31 | the digits that fit, the most significant of those first, then a terminator if there is room; nothing else changes |
| Digits.UlongToStrAlign | lib/digits.c:33-47 | exactly the last `n` digits, padded with zeros, and a terminator; nothing else changes |
| Digits.StrToUlong | lib/digits.c:49-64 | the value of the leading digits modulo 2^32, for any text |
| Digits.ValueSnoc | lib/digits.c:49-64 | one more digit, a letter in either case, multiplies the value by the base and adds the digit |
| Digits.ValueOfPrefix | lib/digits.c:49-64 | what is read ends at the first character that is no digit, or after `n` characters, whatever follows |
| Digits.ParseIsValue | lib/digits.c:49-64 | wrapping around at every digit is wrapping around the unbounded value once |
| Digits.PrintedRoundTrip | lib/digits.c:8-64 | parsing what was printed into `n` characters gives the number modulo base^n, in bases 2 to 36 |
| Digits.AlignedRoundTrip | lib/digits.c:33-64 | the same for the padded form |
| Digits.LongToStr | lib/digits.c:66-77 | the sign if needed and the digits that fit, for every 32-bit number |
| Digits.StrToLong | lib/digits.c:79-94 | the value after an optional sign, read as a signed number |
| Digits.SignedValue | lib/digits.c:79-94 | the result is the only signed 32-bit number that differs by a multiple of 2^32 from the value of the text, negated after a minus sign |
| Digits.LongRoundTrip | lib/digits.c:66-94 | a signed number is printed with a minus sign if it is negative, and read back if and only if its digits fit besides the sign, and modulo a power of the base otherwise |
| Bson.FindEntry | lib/bson.c:6-48 | on any memory on which the walk ends and stays inside, the loop returns what `Walk` says, or NULL; the name need not be terminated if it differs from each key before memory ends |
| Bson.Find | lib/bson.c:50-53 | the address behind the key of the entry found, and behind the text at address 0 if there is none |
| Bson.FindType | lib/bson.c:55-58 | the type of the entry found, and the byte at address 0 if there is none |
| Bson.SkipIsExact | lib/bson.c:26-44 | the step over a well-formed value ends exactly behind it, if and only if its type is none of the six unknown ones (BSON 1.1, `element`) |
| Bson.SizeOfType | lib/bson.c:28-44 | the size in bytes of the values of each type byte, and what the length in front of one counts (BSON 1.1, `element`) |
| Bson.DocumentOfText | lib/bson.c:6-25 | the bytes of a short document with one text |
| Bson.WalkElements | lib/bson.c:12-45 | over the encodings of elements the walk lands on element boundaries only and stops at the first matching one |
| Bson.EntryIsFirstPrefix | lib/bson.c:6-48 | in an encoded document the lookup returns the first element whose key is a prefix of the name, and NULL if and only if there is none, if every element before it has a known type and the name ends or differs from each key within memory |
| Bson.FoundValue | lib/bson.c:50-58 | the entry found has the type of that element, and the value found is its encoding |
| Bson.LookupIsExact | lib/bson.c:19-21 | the lookup is exact if and only if no key before the right one is a proper prefix of the name |
| Bson.AbsentNameIsFound | lib/bson.c:19-21 | every non-empty document has a name that is none of its keys and is found |
| Bson.NestedLookup | lib/bson.c:50-53 | lookups in the values of lookups find the encoding of the value in the nested documents |
| Bson.WhatIsFoundBehind | lib/bson.c:28-44 | the element behind a value is found for all values of a type, if and only if the type is none of the six |
| Bson.ArrayLookup | lib/bson.c:60-65 | in an array the lookup finds the element numbered with the leading digit of the index; it is right if and only if the index has one digit or there is no such element |
| Bson.IndexLookup | lib/bson.c:60-65 | the same for the name of any index, and a negative one finds nothing |
| Bson.TerminatedIsDistinguishable | lib/bson.c:19 | a terminated name always does |
| Bson.ArrayName | lib/bson.c:61-62 | the digits of any 32-bit index, after a sign if needed; they are terminated if and only if the index is above -1000000000 |
| Bson.ArrayFind | lib/bson.c:60-65 | for every 32-bit index returns the encoding of that element, or the address behind the text at address 0 |
| Bson.ArrayType | lib/bson.c:67-72 | for every 32-bit index returns the type of that element, or the byte at address 0 |
| Mbr.OverlapTest | nop/tree/mbr.c:166-176 | the two comparisons hold exactly if two partitions share no sector |
| Mbr.SoundTest | nop/tree/mbr.c:130-152 | the tests of one entry decide whether it is empty, or lies in the drive and is no GPT entry |
| Mbr.ApartFromUsed | nop/tree/mbr.c:164-178 | comparing with the recorded partitions is as good as comparing with all entries before |
| Mbr.IsApart | nop/tree/mbr.c:164-176 | the inner loop succeeds exactly if the newest partition shares no sector with any other |
| Mbr.Check | nop/tree/mbr.c:126-183 | a table of any length is accepted if and only if it has a partition, every entry is sound, and no sector belongs to two; the partitions are recorded in order |
| Mbr.PartitionedExactly | nop/tree/mbr.c:126-183 | accepted are exactly the tables with a partition, in which start and count are 0 together, each partition ends in the drive and is not of type 0xEE, and two partitions follow each other |
| Mbr.UsedOfBoth | nop/tree/mbr.c:142-178 | the recorded partitions are the non-empty entries in table order |
| Mbr.EntryIsRead | include/nop/tree/mbr.h:12-32 | an entry laid out at its place in a sector is read with its start, count and type, whatever surrounds it |
| Mbr.TableIsRead | include/nop/tree/mbr.h:12-32 | boot code, four entries and a signature, of any contents, are read as exactly these four entries |
| Mbr.Init | nop/tree/mbr.c:95-190 | a device is mounted if and only if it is there, writable, readable and seekable, has sectors of 512 bytes, and the four entries that `Mbr.TableIsRead` reads from its first sector (UEFI Specification 2.10, section 5.2.1) are accepted; the partitions are recorded in order, and the slots left over have no device |

## Left out

- AHCI commands below the sector transfer (command tables, PRDT, FIS, polling): hardware behaviour. A transfer is all or nothing, and an arbitrary oracle says which ones fail.
- Sector sizes other than 512: `sector_width` is the constant 9 (nop/tasks/ahci.c:171).
- Device and event tables, path resolution and mounting in the tree, PCI enumeration, logging, the serial driver, interrupt setup, assembly, Multiboot tag walking: not part of this model.
- PCI configuration registers that are not plain memory: the space is an array of bytes.
- The return values of the PCI configuration device, which its C functions do not set.
- `alloc_tidy`: it is empty in the source, so that the second attempt of `malloc` repeats the first.
- Page.PageAllocator.Alloc: at most PAGE_COUNT pages (with more, the bound of the loop wraps around and it reads behind the bitmap); with a step of no pages, only a search that succeeds at page 0, since it does not end otherwise (`Page.StepMovesOn`).
- HeapModel.GrownFits: sizes are required to fit signed headers (`SizeFits`), since beyond that the property is false (`Alloc.AcceptsOnlyFits`).
- HeapRuns.ReallocMoves: requires a cell that is in use, and, if there is no memory, that the copy to address 0 fits, since the heap does not survive otherwise (`HeapRuns.ReallocSurvivesExactly`).
- Boot.Start: the array of blocks is stored over the memory behind the kernel while the kernel starts; that storage is not part of this model.
- Boot.HeapStaysInMap: maps with an entry that starts in or above the last page of 32-bit memory and contributes are left out, since its region has wrong bytes (`Boot.ClipIsSound`, `Boot.FreesWholePages`).
- Boot.FreedPagesAreSound: one direction; the exact set of free pages is stated by `Boot.InitPages` and `Boot.FreesWholePages`, and when they are apart from the bitmap by `Boot.BitmapStaysUsed`.
- Ahci.Disk.Write: the source buffer is a value, so that a buffer that the write itself would change is not modelled.
- Temp.TempDevice.SeekDevice: allocating and freeing them through the device table is not modelled.
- PciTree.List: requires that the records together take less than 2^32 bytes, so that the product does not wrap around; the source does not test for an allocation that fails.
- Text.Terminal.constructor: requires a screen of at least one cell, in an array of exactly its size.
- Text.Terminal.Scroll: cells are copied whole, not byte by byte.
- Digits.LongToStr: negating the smallest 32-bit number, which C leaves undefined, is taken to wrap around.
- PciTree.Open: `pci_open` falls off its end without returning the device that it adds; the model returns the device, without its number in the device table.
- PciTree.OpenAll: the path that is built from a record, and its way through the tree to the function that opens it, are not modelled; the record's name is opened directly.
- Digits.UlongToStr: bases 2 to 36, for which the table has digits.
- Bson.FindEntry: memory on which the walk leaves memory or is sent backwards by a negative length is left out (`Stuck`); memory is only read, so it is a value.
- Bson.Find: if there is no entry, requires that a zero follows address 0, where the source reads then.
- Bson.ArrayFind: the name's buffer is the last thing in memory; what lies behind it on the stack is not modelled.
- Mbr.Init: the drive has at least one sector, whose bytes are given; the signature, which the source does not look at, is not modelled.
