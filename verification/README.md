# A model of the kernel's stateful cores

The repository is a small i686 kernel. This project models five of its parts in Dafny and proves
what they keep over every call and every run:

- **The heap on top of paging.** `malloc` and `free` with headers in the heap itself, growing through
  `mem_alloc`, which rests on a bitmap of page frames and on two-level page tables.
- **tmpfs.** Files as chains of 4096-byte blocks, and directories as linked lists with link counts.
- **The keyboard.** The scancode decoder drives the modifier bits, which choose the characters that
  enter a queue of 256 that drops its oldest.
- **The console.** A scrolling screen of 80x25 cells, as a window of unbounded paper.
- **`printf`.** Numerals, the directives of a format, and the count returned.

Each part comes as a module of values and functions that say what one step does, lemmas about runs
of such steps, and, because the source works in place, a class with the source's own fields whose
methods are proved against those functions.

| part | what a step does, and its laws | the objects |
|---|---|---|
| words, pages, byte loops | `Machine`, `Strings` | `Strings` |
| frames and pages | `FrameBitmap`, `Paging` | `Mem.Memory` |
| heap | `Blocks` (the block list), `HeapMemory` (headers in memory), `HeapCode` (the code as written on memory), `HeapRuns` (heap and paging together) | `Heap.Heap` |
| files | `FileBytes` (bytes), `FileChain` (blocks as they are allocated) | `TmpfsFile.RegularFile` |
| directories | `Dirs` | `TmpfsDir.Tmpfs` |
| keyboard | `Keys`, `Scancodes` | `Kb.Keyboard`, `Ps2.Decoder` |
| console | `Screens` | `Tty.Console` |
| formatted output | `Formats` | `Printf.Printer` |

Reading guide: `Valid()` ties the fields of an object to its abstract value (`now`, `Now()`,
`blocks`, `flat`, `view`, `printed`), and a method's `ensures` equates the new value with a function
of the old one. A result of `None` stands for behaviour that the model does not follow any further,
such as a page fault.

## Where the code departs from its purpose

The code is modelled as it is. Where it does not do what it is for, a lemma says exactly when it does,
or gives an input for which it does not.

- `free` adds the payload of an absorbed block but not its header, and compares the whole status byte
  with END. On a heap that is in order it works exactly when no merge happens and the block is not the
  last, or when 16 bytes of the freed payload happen to look like a suitable header
  (`HeapMemory.FreeWorksExactlyWhen`; what it leaves in every case: `HeapMemory.FreeLeavesBehindUsed`,
  `HeapMemory.FreeLeavesBehindFree`). Runs of the code as written with such quiet frees are followed by
  `HeapCode.CodeRunsKeepTheHeap`; the laws over all runs are those of `Heap.Heap.FreeRepaired`.
- Requests above 0xfffffff0 are rounded to nothing and granted without memory
  (`Blocks.RequestIsMetExactlyWhen`, `Blocks.LargestRequestGetsNothing`). Those just below pass `malloc`
  with sums that wrap (`Blocks.LargestRequestsSplitOntoThemselves`).
- `malloc` does not look at the result of `mem_alloc`. Growth gives it what it needs exactly when there are
  room and frames (`Heap.GrowthSucceedsExactlyWhen`). Without room the result is null, and `malloc` writes a
  header there (`Heap.GrowthBeyondTheRegionIsRefused`, `Heap.Heap.Malloc`).
- `free(NULL)`, which section 7.22.3.3 of ISO C (C11) makes a call without effect, takes the 16 bytes at
  0xfffffff0 for a header. Those are the last entries of the page directory.
- `mem_alloc` returns the address even if the frames run out on the way
  (`Paging.AllocMapsAllPagesExactlyWhen`, `Paging.AddressWithoutMemory`), and does not test its alignment,
  for which kernel/arch/i686/include/x86/mem.h promises a null result (`Paging.AlignmentIsNotTested`).
- `is_virt_region_used` stops at the first missing page table, so `mem_map` can take over used pages
  behind it (`Paging.ScanIsRightExactlyWhen`, `Paging.SearchIsRightExactlyWhen`,
  `Paging.MemMapTakesNothingOverExactlyWhen`, `Paging.HiddenPageIsOverlooked`).
- A new page table is cleared from the page that needed it, not from its start
  (`Paging.ClearingIsHarmlessForEveryContentExactlyWhen`, `Paging.ClearingIsHarmlessExactlyWhen`,
  `Paging.PageBeforeIsMappedToo`).
- `mem_map_range` does not count the offset of its start (`Paging.RangeIsCoveredExactlyWhen`,
  `Paging.UnalignedRangeMayBeCutShort`), and adds that offset to a null result as well
  (`Paging.RangeErrorsAreNotAlwaysNull`).
- The bitmap ends at 0x7fff8000. `mem_set_used` stores past its end for every region that does not start and
  end before it (`Mem.RegionIsInTheBitmapExactlyWhen`, `Mem.BiosRegionIsPastTheBitmap`), and after
  `mem_init_regions` with more upper memory `alloc_phys` looks past it once the frames before are used up
  (`Mem.AllocStaysInTheBitmapExactlyWhen`, `Mem.ScanOfTwoGigabytesLeavesTheBitmap`). The methods of
  `Mem.Memory` report a fault there.
- The copy loop of `tmpfs_write` does not initialise the blocks it allocates, neither their bytes nor their
  links. It leaves a chain with the right bytes, whatever memory held, exactly when it allocates none
  (`FileChain.LeftOversAreHarmlessExactlyWhen`, `FileChain.LeftOverBytesAreHarmlessExactlyWhen`). With more
  than one it follows such a link itself (`FileChain.WriteIsCarriedOutExactlyWhen`,
  `FileChain.LongWriteFollowsALeftOverLink`), with one the next call may
  (`FileChain.NextWriteFollowsALeftOverLink`). `WriteZeroed` is the variant with cleared blocks.
- The copy loops of `tmpfs_write` and `tmpfs_read` copy by the total length. Too many bytes land in the
  file (`FileBytes.CopyIsRightExactlyWhen`, `FileBytes.CopyIsRightForEveryBufferExactlyWhen`,
  `FileChain.ShortWriteAcrossBlocksSpillsOver`) or in the reader's buffer
  (`FileBytes.ReadIsRightExactlyWhen`, `FileBytes.ReadIsRightForEveryBufferExactlyWhen`,
  `FileBytes.ShortReadAcrossBlocksOverruns`). `WriteRepaired` and `ReadRepaired` are the variants that
  copy by what is left and clear every new block. Both departures together: `FileChain.WriteIsRightExactlyWhen`.
- Characters from 0x80 on are widened with their sign and lose their colour (`Screens.CellIsTheStoredWord`).
- `strcmp` gives results of the reverse sign of what section 7.24.4.2 of ISO C (C11) asks for (`Strings.Strcmp`).
- `vprintf` does not count unknown directives (`Formats.CountIsRightExactlyWhen`).

## Model

| member | source | states |
|---|---|---|
| Strings.Memset | libc/string.c:149-156 | exactly the range is filled |
| Strings.Memcpy | libc/string.c:158-165 | exactly the range is replaced by what the source range held, in another buffer or elsewhere in the same one |
| Strings.Memmove | libc/string.c:167-183 | overlapping ranges: the target gets what the source range held before the call |
| Strings.Strlen | libc/string.c:44-50 | the index of the first terminator |
| Strings.Strcmp | libc/string.c:52-60 | zero exactly for equal strings, positive exactly when the first comes earlier in the order of a dictionary, negative exactly when it comes later |
| FrameBitmap.BitsAreIndependent | kernel/arch/i686/mem.c:47-55 | setting or clearing one bit of a byte leaves the other seven alone |
| FrameBitmap.MarkRefinesTheSet | kernel/arch/i686/mem.c:41-55 | the bitmap is a set of frames, and marking adds or removes exactly one frame |
| Mem.Memory.IsPhysUsed | kernel/arch/i686/mem.c:41-45 | whether the frame is in the set of used frames |
| Mem.Memory.SetPhysUsed | kernel/arch/i686/mem.c:47-55 | the set of used frames gains or loses exactly this frame; pages stay as they are |
| Mem.Memory.AllocPhys | kernel/arch/i686/mem.c:84-95 | takes the lowest free frame in bounds, or reports that there is none; a fault exactly when that frame is past the bitmap |
| Mem.Memory.MemInitRegions | kernel/arch/i686/mem.c:97-109 | the frames between low memory and 1 MiB are used, and the bounds become zero and the end of upper memory |
| Mem.Memory.MemSetUsed | kernel/arch/i686/mem.c:111-127 | a frame is used afterwards exactly when it was before, or is in the bitmap and holds the start or another byte of the region below 4 GiB; a fault exactly when the region starts or ends behind 0x7fff8000 |
| Mem.RegionIsInTheBitmapExactlyWhen | kernel/arch/i686/mem.c:111-127 | all frames that a region touches are in the bitmap exactly when it starts before 0x7fff8000 and does not end behind it |
| Mem.BiosRegionIsPastTheBitmap | kernel/arch/i686/mem.c:111-127 | a region of 256 KiB below 4 GiB touches frames 0xfffc0 to 0xfffff, and the bitmap has 0x7fff8 |
| Mem.AllocStaysInTheBitmapExactlyWhen | kernel/arch/i686/mem.c:84-109 | after `mem_init_regions` the scan for a free frame stays in the bitmap, whatever that holds, exactly when upper memory ends in it or its end wraps |
| Mem.ScanOfTwoGigabytesLeavesTheBitmap | kernel/arch/i686/mem.c:84-109 | 2 GiB of upper memory and all frames of the bitmap used: the scan goes on past its end |
| Mem.Memory.IsVirtRegionUsed | kernel/arch/i686/mem.c:57-82 | the scan as written, and where to search next; 0 for an overflow |
| Mem.Memory.FindRegion | kernel/arch/i686/mem.c:146-154 | the search loop stops, at the window `FindWindow` names |
| Mem.Memory.InstallTable | kernel/arch/i686/mem.c:159-162 | the directory entry is set and 1024 entries are cleared from the page on |
| Mem.Memory.MapWindow | kernel/arch/i686/mem.c:156-166 | every page of the window in turn, with the physical address advancing by one frame |
| Mem.Memory.MemMap | kernel/arch/i686/mem.c:138-169 | refuses unaligned addresses, else finds a window and maps it, all as `MapRegion` says |
| Mem.Memory.MemMapRange | kernel/arch/i686/mem.c:171-185 | the page count, the alignment and the offset added to the result, null results included |
| Mem.Memory.MemAlloc | kernel/arch/i686/mem.c:187-204 | the bounds test, the one scan, and a frame for each page, as `Alloc` says |
| Paging.NextFree | kernel/arch/i686/mem.c:87-92 | the first frame from a point on that is not used, with all before it used |
| Paging.FramesAreHandedOutInOrder | kernel/arch/i686/mem.c:84-127 | over every run of `alloc_phys` and reservations the frames returned strictly increase, were free at the start, nothing else is marked, and a request fails only when no frame in bounds is free |
| Paging.ScanStaysInsideExactlyWhen | kernel/arch/i686/mem.c:84-95 | for any bounds, the scan for a free frame stays in the bitmap, whatever that holds, exactly when they end in it or are empty |
| Paging.Scan | kernel/arch/i686/mem.c:67-81 | a page reported is used and the first such; none is overlooked unless a missing table comes before it |
| Paging.ScanIsRightExactlyWhen | kernel/arch/i686/mem.c:67-81 | whatever the tables hold, the scan tells the truth about a window exactly when no page with a table comes behind one without |
| Paging.HiddenPageIsOverlooked | kernel/arch/i686/mem.c:68-72 | a used page behind a missing table, and a scan that calls the window free |
| Paging.FindWindowIsLowest | kernel/arch/i686/mem.c:57-82 | continuing behind the used page skips no window that the scan would accept |
| Paging.WithAllTablesTheLowestFreeWindow | kernel/arch/i686/mem.c:146-156 | with all tables present up to some page, the lowest window of free pages before it is found whenever there is one |
| Paging.SearchIsRightExactlyWhen | kernel/arch/i686/mem.c:146-156 | whatever the tables hold, the search finds free windows only exactly when no page with a table lies within reach behind the first without |
| Paging.MemMapTakesNothingOverExactlyWhen | kernel/arch/i686/mem.c:138-169 | under the same condition, and only then, no call of `mem_map` is carried out on a used page, whatever the tables hold |
| Paging.MemMapMaps | kernel/arch/i686/mem.c:138-169 | `mem_map` in full: null for an address inside a page or a window past 4 GiB, else the lowest window from the given page on in which no used page is met before a missing table, each page mapped to the next frame at 32 bits with the flags |
| Paging.TakenOverPageIsRemapped | kernel/arch/i686/mem.c:158-166 | when a call is carried out on a used page, its entry is overwritten with a frame of the new range |
| Paging.MapPagesMapsTheWindow | kernel/arch/i686/mem.c:156-166 | page i of the window has frame i and the flags, and tables exist just where they did or were needed |
| Paging.ClearingIsHarmlessExactlyWhen | kernel/arch/i686/mem.c:159-162 | a page mapped first in its table leaves all other translations alone exactly when it is the first of its table, or what the clearing misses and what it hits happened not to be present |
| Paging.ClearingIsHarmlessForEveryContentExactlyWhen | kernel/arch/i686/mem.c:159-162 | whatever the new table's frame held, the other translations stay exactly when the page is not mapped first in the middle of a missing table |
| Paging.PageBeforeIsMappedToo | kernel/arch/i686/mem.c:161 | page 1 mapped first, in a frame full of ones: page 0 is mapped as well |
| Paging.MapPagesKeepsTheRest | kernel/arch/i686/mem.c:158-166 | a window that starts clean changes no translation outside it |
| Paging.MapPagesIsDefined | kernel/arch/i686/mem.c:158-166 | with a frame for each new table mapping cannot fail, and takes just those frames |
| Paging.MapPagesIsDefinedExactlyWhen | kernel/arch/i686/mem.c:158-166 | from a clean start mapping is carried out exactly when there is a frame for each new table |
| Paging.RangeIsCoveredExactlyWhen | kernel/arch/i686/mem.c:179-180 | for every range, aligned or not, the pages reach its end exactly when the rounding does not wrap and the offset does not push the last byte onto another page |
| Paging.EveryPageIsNeeded | kernel/arch/i686/mem.c:179-180 | without a wrap the last page mapped holds a byte of the range, and an empty range gets no page |
| Paging.RangeErrorsAreNotAlwaysNull | kernel/arch/i686/mem.c:171-184 | a range that ends before it starts gives null; one for which there are no addresses gives the offset of its start |
| Paging.EveryByteIsInsideExactlyWhen | kernel/arch/i686/mem.c:179-184 | every byte of a range lies in the pages mapped for it exactly under that condition |
| Paging.WholeRangeTranslates | kernel/arch/i686/mem.c:171-185 | under that condition every byte k of the range is found at offset k from the pointer returned |
| Paging.AlignedRangeIsCovered | kernel/arch/i686/mem.c:179-180 | from an aligned start the pages reach the end of the range, unless the rounding wraps; if it wraps they never do |
| Paging.UnalignedRangeMayBeCutShort | kernel/arch/i686/mem.c:179-180 | two bytes across a page boundary that get one page |
| Paging.MapRangeTranslates | kernel/arch/i686/mem.c:171-185 | byte k of the range is found at offset k from the pointer returned, as far as the pages reach |
| Paging.AllocPagesAllocates | kernel/arch/i686/mem.c:199-203 | a free region with a clean start and enough frames: all pages are mapped, nothing else changes, and the frames for pages and tables were free and are distinct |
| Paging.AllocMapsAllPagesExactlyWhen | kernel/arch/i686/mem.c:199-203 | for a free region with a clean start all pages are mapped exactly when there is a frame for each page and each new table |
| Paging.AllocIsRefusedExactlyWhen | kernel/arch/i686/mem.c:187-203 | null exactly for a region that ends behind the limit or in which a used page is met before a missing table |
| Paging.AllocPagesGivesFlags | kernel/arch/i686/mem.c:159-203 | all pages allocated have the flags asked for, new tables are present with user and write access, and the entries of old tables stay |
| Paging.AllocatedPagesAreWritable | kernel/arch/i686/mem.c:159-164 | with the R/W bit in the flags, and in the entries of the tables there were, all pages allocated can be written to |
| Paging.AddressWithoutMemory | kernel/arch/i686/mem.c:199-203 | without a free frame the address is returned and nothing is mapped |
| Paging.AlignmentIsNotTested | kernel/arch/i686/mem.c:187-204 | for every address the pages allocated are those for the start of its page, and a result that is not null is the address as it was given |
| Blocks.RoundUpIsEnoughExactlyWhen | libc/arch/i686/malloc.c:38-39 | rounding to 16 gives at least the request exactly when the sum does not wrap |
| Blocks.PagesForIsEnough | libc/arch/i686/malloc.c:51 | the new pages hold the request and its header, and one page less would not hold both and a byte more |
| Blocks.LargestRequestsSplitOntoThemselves | libc/arch/i686/malloc.c:51-83 | the largest requests: one page is asked for, and the split writes its second header onto the first |
| Blocks.FirstFit | libc/arch/i686/malloc.c:41-46 | the first block that is free and large enough, with none before it |
| Blocks.MallocGivesNewPayload | libc/arch/i686/malloc.c:36-95 | the result is 16-aligned, at least as large as the rounded request and less than 32 bytes larger, and not live before; the live payloads are the old ones and this one; the list stays sound and grows by whole pages |
| Blocks.MallocGrants | libc/arch/i686/malloc.c:41-92 | in numbers: the first block with room, or just the pages needed; with 32 bytes to spare it is cut to the rounded request and a free block holds the rest, else it is taken as it is; all other blocks stay |
| Blocks.TwoRequestsShareAPage | libc/arch/i686/malloc.c:75-92 | 2048 and then 1024 bytes from an empty heap: the pointers are 0xd0000010 and 0xd0000820 |
| Blocks.RequestIsMetExactlyWhen | libc/arch/i686/malloc.c:36-95 | the payload is at least as large as requested exactly for requests up to 0xffffffd0 |
| Blocks.LargestRequestGetsNothing | libc/arch/i686/malloc.c:38-39 | a request for 0xffffffff bytes is granted with an empty payload |
| Blocks.PayloadsAreDisjoint | libc/arch/i686/malloc.c:31-34 | payloads of different blocks do not overlap, headers included |
| Blocks.MallocTakesLowestFit | libc/arch/i686/malloc.c:41-46 | of all blocks that fit, the one at the lowest address |
| Blocks.MallocKeepsNoFreeNeighbours | libc/arch/i686/malloc.c:48-92 | no two neighbours are both free, after a split as well |
| Blocks.FreeRemovesPayload | libc/arch/i686/malloc.c:97-128 | freeing with complete merges removes one live payload and keeps the others, the end of the heap and soundness |
| Blocks.FreeKeepsNoFreeNeighbours | libc/arch/i686/malloc.c:101-124 | merging both ways leaves no two free neighbours |
| Blocks.RunsKeepTheHeap | libc/arch/i686/malloc.c:31-128 | over every run of `malloc` and the repaired `free`: what callers hold is what is live, no two free neighbours, and headers and payloads add up to the pages grown |
| Blocks.HeldPayloadsAreDisjoint | libc/arch/i686/malloc.c:36-128 | over every run, two pieces of memory that callers hold never overlap |
| HeapMemory.SetUsedHolds | libc/arch/i686/malloc.c:71 | the USED bit changes one block of the list that memory holds |
| HeapMemory.SplitHolds | libc/arch/i686/malloc.c:73-92 | after the stores of the split every header names its block, its size, the block before it and whether it is the last |
| HeapMemory.SplitKeepsPayloads | libc/arch/i686/malloc.c:73-92 | the split touches no other payload in use |
| HeapMemory.GrowHolds | libc/arch/i686/malloc.c:59-68 | the new header, the link to the last block and the END bits are right after growth |
| HeapMemory.MergeHolds | libc/arch/i686/malloc.c:110-123 | a merge that counts the header leaves all headers and back links right |
| HeapMemory.FreeWorksExactlyWhen | libc/arch/i686/malloc.c:97-128 | `free` as written turns a heap in order into the heap it should be exactly in the cases listed above |
| HeapMemory.FreeLeavesBehindUsed | libc/arch/i686/malloc.c:97-128 | every cell after `free` as written behind a block in use: a fault for the last block, one bit in front of a block in use, and else a merge of the two payload sizes without the header |
| HeapMemory.FreeLeavesBehindFree | libc/arch/i686/malloc.c:101-127 | every cell after `free` as written behind a free block: the sizes added without the header, and then what the last 16 bytes of the payload, taken for a header, lead to |
| HeapMemory.FreeingTheLastBlockFaults | libc/arch/i686/malloc.c:111-113 | freeing the last block behind a used one looks past the end of the heap |
| HeapMemory.QuietFree | libc/arch/i686/malloc.c:97-128 | without neighbours to merge, `free` as written clears one bit of one header |
| HeapMemory.FreeByMerging | libc/arch/i686/malloc.c:101-127 | merging backward, then forward, then clearing the bit is the free of the block list |
| HeapCode.WalkStops | libc/arch/i686/malloc.c:43-46 | on a heap in order the walk over headers in memory ends without a fault, at the first block that fits or at the last |
| HeapCode.MallocCodeIsMalloc | libc/arch/i686/malloc.c:36-95 | on a heap in order the stores of `malloc` leave memory holding `Blocks.Malloc` of the list, the pointer is that block's payload, payloads in use are kept, and the block is granted as `Blocks.MallocGrants` says in numbers |
| HeapCode.CodeRunsKeepTheHeap | libc/arch/i686/malloc.c:36-128 | over every run of `malloc` and quiet `free` as written, with programs storing into their memory: nothing faults, the headers stay in order, and what was stored stays until it is overwritten or freed |
| Heap.GrowthSucceeds | libc/arch/i686/malloc.c:53-57 | with room and frames `mem_alloc` gives the pages right behind the heap, by frames that were free |
| Heap.GrowthSucceedsExactlyWhen | libc/arch/i686/malloc.c:53-57 | the call of `mem_alloc` gives the page behind the heap with all pages mapped exactly when they end at or below page 0xeffff and there is a frame for each page and each new table |
| Heap.GrowthBeyondTheRegionIsRefused | libc/arch/i686/malloc.c:53-59 | pages that would reach past the end of the region: the result is null and nothing changes |
| Heap.HeapBytesAreDistinct | libc/arch/i686/malloc.c:53-57 | different heap addresses translate to different physical bytes |
| Heap.Heap.FindHeader | libc/arch/i686/malloc.c:41-46 | the walk ends, at the first block that fits or at the last block |
| Heap.Heap.Malloc | libc/arch/i686/malloc.c:36-95 | the new list and the pointer are those of `Blocks.Malloc`, the block is the first with room or new pages and is cut to size (`Blocks.IsGranted`), memory is that of `HeapCode.MallocCode`; payloads in use keep their contents; growth is one call of `mem_alloc`; a fault exactly when it has to grow past the end of the region |
| Heap.Heap.Split | libc/arch/i686/malloc.c:73-92 | the stores leave memory holding the list with the block cut in two, and all other payloads in use kept |
| Heap.Heap.Free | libc/arch/i686/malloc.c:97-128 | `free` as written on whatever memory holds, page faults included |
| Heap.Heap.FreeQuietly | libc/arch/i686/malloc.c:97-128 | in the quiet case `free` as written frees the block and keeps the heap in order |
| Heap.Heap.FreeRepaired | libc/arch/i686/malloc.c:97-128 | the repaired variant frees the block, merges both ways and keeps the heap in order and all other payloads |
| HeapRuns.RunsKeepTheSystem | libc/arch/i686/malloc.c:49-69 | over every run of heap calls, with other users of memory in between: all heap pages are mapped, and their frames and those of their tables are distinct, marked, and were free at the start |
| HeapRuns.HeapBytesAreOwn | kernel/arch/i686/mem.c:159-204 | over every such run each heap byte translates, apart from all others, to memory that was free at the start, and can be written to: the R/W bit is set in the entry of its page and in that of the page's table |
| FileBytes.CopyEndIsExactlyWhen | kernel/fs/tmpfs.c:234-252 | the copy loop as written ends where it should exactly for writes inside one block and long writes up to a block boundary |
| FileBytes.LastBlockGetsTheTotalLength | kernel/fs/tmpfs.c:242-252 | the last block, if it is not the first, gets min(n, 4096) bytes instead of what is left |
| FileBytes.CopyIsRightExactlyWhen | kernel/fs/tmpfs.c:232-257 | with cleared blocks the copies as written equal the repaired ones exactly when the bytes copied too many are already in the file |
| FileBytes.CopyIsRightForEveryBufferExactlyWhen | kernel/fs/tmpfs.c:232-257 | with cleared blocks they are right whatever lies behind the data exactly for those positions and lengths |
| FileChain.LeftOversAreHarmlessExactlyWhen | kernel/fs/tmpfs.c:242-252 | whatever memory held, the write leaves a chain that ends in null with the bytes that cleared blocks give exactly when all blocks it reaches, but the first, were there |
| FileChain.LeftOverBytesAreHarmlessExactlyWhen | kernel/fs/tmpfs.c:244-250 | if new links happen to be null, exactly when the loop allocates nothing or its last copy fills the last block |
| FileChain.WriteIsCarriedOutExactlyWhen | kernel/fs/tmpfs.c:242-252 | whatever memory held, no link is followed that nobody has set exactly when the loop allocates one block at most |
| FileChain.LongWriteFollowsALeftOverLink | kernel/fs/tmpfs.c:242-248 | 8193 bytes to a new file: the link of the second block is followed as memory held it |
| FileChain.NextWriteFollowsALeftOverLink | kernel/fs/tmpfs.c:242-248 | 4097 bytes to a new file go well, and the next write that needs a block follows such a link |
| FileChain.WriteIsRightExactlyWhen | kernel/fs/tmpfs.c:232-257 | whatever lies behind the data and whatever memory held, the write as written leaves what the repaired one does exactly when its copies end where they should and its loop allocates nothing |
| FileChain.ShortWriteAcrossBlocksSpillsOver | kernel/fs/tmpfs.c:242-252 | two bytes across a block boundary overwrite a third |
| FileBytes.ReadIsRightExactlyWhen | kernel/fs/tmpfs.c:286-303 | the buffer after the read as written is that of the repaired one exactly when the bytes copied too many are in it already |
| FileBytes.ReadIsRightForEveryBufferExactlyWhen | kernel/fs/tmpfs.c:286-303 | whatever the buffer held, exactly for reads inside one block and long reads up to a block boundary |
| FileBytes.ShortReadAcrossBlocksOverruns | kernel/fs/tmpfs.c:296-301 | a read of two bytes across a block boundary writes a third byte of the buffer |
| FileBytes.ReadDelivers | kernel/fs/tmpfs.c:274-303 | the count is the one number that is at most the length asked for, ends in the file, and is less only at its end, and 0 behind it; so many bytes of the contents are in the buffer, and how far the bytes copied too many go |
| FileBytes.RepairedReadDelivers | kernel/fs/tmpfs.c:274-303 | the repaired read delivers the same count and bytes, and nothing else in the buffer changes |
| FileBytes.RepairedReadIsASlice | kernel/fs/tmpfs.c:274-303 | the repaired read delivers a slice of the contents and leaves the rest of the buffer alone |
| FileBytes.RepairedWriteIsFlat | kernel/fs/tmpfs.c:232-257 | the repaired write is a write to one flat string, with zeros where it grows and behind its end |
| FileChain.WriteThenRead | kernel/fs/tmpfs.c:232-304 | as written, and whatever new blocks held: after a write of any length that is carried out, the buffer of a read in the same place starts with the bytes written |
| FileBytes.RunsAreFlat | kernel/fs/tmpfs.c:198-304 | over every run of repaired writes to a new file its contents are the flat string, and zeros follow |
| FileBytes.RunZeroed | kernel/fs/tmpfs.c:198-258 | with cleared blocks, and as long as no write copies too much, runs of the loop as written give the same files |
| FileChain.RunAsWritten | kernel/fs/tmpfs.c:198-258 | runs of the write as written, whatever new blocks held: the same files, in chains that end in null, as long as no write copies too much or allocates in its loop |
| TmpfsFile.RegularFile.FindBlk | kernel/fs/tmpfs.c:62-73 | the block that holds the position, or null behind the last one; a fault exactly when the last link is not null and has to be followed |
| TmpfsFile.RegularFile.Write | kernel/fs/tmpfs.c:212-257 | for all contents of new memory the chain, its last link and its size are those of `FileChain.Write`, with a fault exactly where that has none; the buffer is untouched |
| TmpfsFile.RegularFile.WriteRepaired | kernel/fs/tmpfs.c:212-257 | the repaired loop: the chain holds the bytes of `FileBytes.WriteRepaired` and ends in null |
| TmpfsFile.RegularFile.Read | kernel/fs/tmpfs.c:274-303 | the result is the length cut off at the end of the file, stated in numbers; the buffer starts with so many bytes of the contents and becomes `FileBytes.Read` of what it held, surplus bytes included |
| TmpfsFile.RegularFile.ReadRepaired | kernel/fs/tmpfs.c:274-303 | the same result in numbers; the buffer starts with so many bytes of the contents and is as it was behind them |
| TmpfsFile.RegularFile.WriteThenRead | kernel/fs/tmpfs.c:198-304 | `tmpfs_write` and then `tmpfs_read`, both as written: unless the write faults, the count and the bytes written come back |
| Dirs.LookupAfterCreate | kernel/fs/tmpfs.c:103-180 | creation succeeds exactly for a new name and a known type; then the name leads to the new inode and every other lookup is unchanged |
| Dirs.CreateCreates | kernel/fs/tmpfs.c:115-180 | in numbers: -3 for a name that is taken, else -5 unless the type is 01000 to 04000 in octal; what the new inode holds, two entries and two links for 02000 and none and one for the others; the one entry and link the directory gains |
| Dirs.MountIsEmpty | kernel/fs/tmpfs.c:81-91 | the root of a fresh mount has no links, no entries, and the nine permission bits of the flags |
| Dirs.AddToDirRefs | kernel/fs/tmpfs.c:37-60 | one more entry leads to the inode, and no entry elsewhere appears or vanishes |
| Dirs.CreateKeepsLinked | kernel/fs/tmpfs.c:115-180 | link counts keep counting entries, and names in a directory stay distinct |
| Dirs.RunsKeepTheTree | kernel/fs/tmpfs.c:37-180 | over every run from a fresh mount: link counts equal the entries to 16 bits, names are distinct, each inode but the root has one entry of its own, in an older directory, which is its ".." if it is a directory |
| Dirs.DotDotReachesTheRoot | kernel/fs/tmpfs.c:156-158 | from every directory ".." leads to the root |
| TmpfsDir.Tmpfs.constructor | kernel/fs/tmpfs.c:75-95 | a fresh mount: an empty root without type bits |
| TmpfsDir.Tmpfs.AddToDir | kernel/fs/tmpfs.c:37-60 | the new entry is the last of the list and the link count is one higher, at 16 bits |
| TmpfsDir.Tmpfs.Lookup | kernel/fs/tmpfs.c:103-113 | the first entry with the name, or null when there is none |
| TmpfsDir.Tmpfs.Create | kernel/fs/tmpfs.c:115-180 | the linked objects and the result are those of `Dirs.Create`, errors included, and in the numbers of `Dirs.IsCreated` |
| TmpfsDir.Tmpfs.Readdir | kernel/fs/tmpfs.c:182-196 | the first names in order of creation, as many as fit, and nothing behind them |
| Keys.BitsAreIndependent | kernel/drivers/kb.c:140-146 | setting or clearing one modifier leaves the others alone |
| Keys.ModifiersFollowTheKeys | kernel/drivers/kb.c:60-146 | over every run each shift, ctrl and alt bit is set exactly when that key's last event was a press |
| Keys.ModifierBits | kernel/drivers/kb.c:60-146 | over every run, bits 1 to 64 by number and the key codes they follow |
| Keys.CapsIsParity | kernel/drivers/kb.c:83-85 | over every run the caps bit is the parity of its presses |
| Keys.TypedFollowsTheKeys | kernel/drivers/kb.c:86-108 | the character queued is the one that the history of modifier keys selects, with the ctrl mask |
| Keys.PressQueues | kernel/drivers/kb.c:85-107 | over every run, for the press of a key that is no modifier: which of its two characters is taken, from the shift keys held and the parity of caps; nothing for 0, else one character at the end, of five bits while a ctrl key is held, and the oldest of 256 goes |
| Keys.OtherEventsQueueNothing | kernel/drivers/kb.c:60-133 | modifier keys and releases leave the queue alone |
| Keys.QueueIsTheEndOfTheStream | kernel/drivers/kb.c:46-58 | over every run of events and reads the queue is the end of the stream of all characters typed, at most 256 long |
| Keys.ReadsAreSlices | kernel/drivers/kb.c:46-58 | each read returns the next stretch of the stream, short only at its end |
| Keys.GapsAreDrops | kernel/drivers/kb.c:98-107 | between stretches read there lie exactly the characters dropped in between |
| Keys.NothingElseIsLost | kernel/drivers/kb.c:46-109 | every character typed was read, dropped or is queued; without drops, reads and queue together are the stream |
| Kb.Keyboard.SetMod | kernel/drivers/kb.c:140-146 | the bits are set or cleared |
| Kb.Keyboard.Enqueue | kernel/drivers/kb.c:98-107 | the character goes to the end; a full queue loses its first |
| Kb.Keyboard.KeyPressed | kernel/drivers/kb.c:60-109 | sets the key's bit or flips caps; any other key queues the character of its table for the bits 3 and 64, none for 0, five bits of it with the bits 12, and drops the oldest of 256 |
| Kb.Keyboard.KeyReleased | kernel/drivers/kb.c:111-133 | clears the key's bit if it is a modifier, and nothing else; releasing caps does nothing |
| Kb.Keyboard.Read | kernel/drivers/kb.c:46-58 | the first characters move from the queue to the buffer, and the rest of the buffer is untouched |
| Scancodes.DecodingUndoesEncoding | kernel/arch/i686/drivers/ps2_kb.c:277-312 | for every list of key actions, extended keys, Print Screen and Pause included, the bytes of set 2 give exactly their events and the decoder ends idle |
| Scancodes.OneKeyOneReport | kernel/arch/i686/drivers/ps2_kb.c:277-312 | the one to three bytes of a key report its key code, pressed or released, or nothing for 0xfe and 0xff |
| Scancodes.PauseRoundTrip | kernel/arch/i686/drivers/ps2_kb.c:282-293 | the two halves of the Pause sequence give one press and one release |
| Scancodes.PrintScreenReportsOnce | kernel/arch/i686/drivers/ps2_kb.c:296-301 | with its first scancode marked as a continuation, Print Screen is reported once |
| Scancodes.DecodingUndoesEncoding3 | kernel/arch/i686/drivers/ps2_kb.c:258-275 | the same for set 3 |
| Scancodes.IgnoringEnds | kernel/arch/i686/drivers/ps2_kb.c:286-293 | without a further 0xe1 every plain byte takes one off the bytes to ignore |
| Scancodes.FindsTrackAgain | kernel/arch/i686/drivers/ps2_kb.c:278-311 | from any state the decoder is idle after the second and every later plain byte, if no 0xe1 comes |
| Scancodes.ActionsReachTheKeyboard | kernel/arch/i686/drivers/ps2_kb.c:302-307 | decoder and keyboard together: the keyboard ends as if told the events themselves |
| Ps2.Decoder.KeyPressed | kernel/arch/i686/drivers/ps2_kb.c:251-320 | one interrupt is one step of the decoder, and the keyboard is told its events |
| Screens.CellIsTheStoredWord | kernel/arch/i686/drivers/tty.c:72 | the cell is the or of the shifted colour and the sign-extended character, and has its colour exactly for characters below 0x80 |
| Screens.PutShows | kernel/arch/i686/drivers/tty.c:50-80 | each character keeps the screen a window of the paper |
| Screens.CursorMoves | kernel/arch/i686/drivers/tty.c:50-80 | tabs go to the next multiple of 8 and new lines to that of 80, other characters one cell on, and position 2000 is scrolled back to the last line |
| Screens.ScreenIsAWindow | kernel/arch/i686/drivers/tty.c:33-80 | after every text the cursor is on the screen and the 2000 cells are the window of the paper |
| Screens.WindowStartsAtTheScrolls | kernel/arch/i686/drivers/tty.c:33-40 | the window starts as many lines down as were scrolled since the last form feed |
| Tty.Console.ScrollBy | kernel/arch/i686/drivers/tty.c:33-40 | the lines move up, blanks follow, and the cursor moves with them |
| Tty.Console.PutChar | kernel/arch/i686/drivers/tty.c:50-80 | newlines, tabs, form feeds and escapes, a cell for anything else, and a scroll when the screen is full: `Screens.Put` of the old screen |
| Tty.Console.SetCursor | kernel/arch/i686/drivers/tty.c:42-48 | the two bytes sent to the hardware are the position |
| Tty.Console.Write | kernel/arch/i686/drivers/tty.c:88-94 | the screen after all characters in turn, and the cursor shown where it is |
| Formats.DigitsParseBack | libc/stdio.c:12-25 | canonical numerals: they parse back to the number and have no leading zero |
| Formats.ElevenDigits | libc/stdio.c:14 | eleven digits hold every 32-bit number in radix 8, 10 and 16 |
| Formats.ZeroPaddedParsesBack | libc/stdio.c:26-32 | a numeral filled up with zeros still parses back |
| Formats.PaddedParsesBack | libc/stdio.c:26-32 | with either filler, what follows the leading spaces parses back |
| Formats.ConversionsParseBack | libc/stdio.c:109-128 | with either filler each unsigned conversion parses back in its own radix and letter case, %p behind "0x" |
| Formats.DirectivesPrint | libc/stdio.c:82-141 | for every letter, width and flag: the string or character, or sign or "0x", then '0' with the flag and ' ' without up to the width, then the one numeral for the argument in its radix and letter case; nothing for n, the letter itself for % and unknown ones |
| Formats.RenderIsOutcome | libc/stdio.c:68-148 | for every format, from its characters: plain characters and a lone % are printed and counted, every directive prints what it should, takes its argument, counts unless unknown, and %n stores the count so far |
| Formats.PaddingExamples | libc/stdio.c:26-28 | "%5u" of 42 and "%08x" of 0x2a |
| Formats.SignedParsesBack | libc/stdio.c:99-108 | %d with either filler read as a decimal number is the argument; the sign stands in front of the padding |
| Formats.ParsingUndoesWriting | libc/stdio.c:71-87 | for every list of literals and directives with flag and width, parsing the format that shows them gives them back |
| Formats.CountIsShortByUnknowns | libc/stdio.c:137-138 | the count returned is short by one for every unknown directive |
| Formats.CountIsRightExactlyWhen | libc/stdio.c:58-148 | the result is the number of characters printed exactly when all directives are known |
| Formats.PlainTextIsCopied | libc/stdio.c:141-145 | a format without % is printed as it stands |
| Printf.Printer.Puts | libc/stdio.c:41-44 | the string is printed and its length returned |
| Printf.Printer.Putchar | libc/stdio.c:35-39 | one character is printed |
| Printf.Printer.Split | libc/stdio.c:14-25 | the digit loop stays in its buffer and leaves the digits of the numeral, lowest first |
| Printf.Printer.PutIRadix | libc/stdio.c:12-33 | padding and then the canonical numeral are printed, and the result is their length |
| Printf.Printer.Vprintf | libc/stdio.c:58-148 | for every format and enough arguments, what is printed, returned and stored is what the parsed format says, and the outcome that its characters call for (`Formats.IsOutcome`) |

## Left out

- Strings.Strcmp: characters from 0x80 on, which are negative in the source; the size of a result that is not zero.
- Heap.Heap.Malloc: calls whose sums wrap, or whose growth has room but runs out of frames, are not followed; page 0 is taken to be unmapped, so that a header at null is a fault.
- Heap.Heap.Free: pointers below 16, the null pointer among them, are not followed: the header would be in the page directory.
- HeapCode.MallocCodeIsMalloc: `mem_alloc` is taken to give the page right behind the heap, as it does exactly when there are room and frames (`Heap.GrowthSucceedsExactlyWhen`).
- HeapRuns.RunsKeepTheSystem: growth in its runs has room and frames. The free of its runs is the repaired one. Runs in which every free is quiet are runs of the code as written, because there the two agree (`Heap.Heap.FreeQuietly`).
- HeapCode.CodeRunsKeepTheHeap: growth is taken to give the pages right behind the heap, as `HeapRuns.RunsKeepTheSystem` shows it does.
- Heap.Heap.Split: the heap's memory is a map from addresses to 16-byte cells; its reads and writes do not go through the page tables. That the pages exist and have frames of their own is proved beside it (`HeapRuns.HeapBytesAreOwn`).
- Heap.Heap.FreeRepaired: a variant, not the code.
- TmpfsFile.RegularFile.WriteRepaired: a variant, not the code.
- TmpfsFile.RegularFile.ReadRepaired: a variant, not the code.
- TmpfsFile.RegularFile.Write: the position may be at most the capacity, and the end has to stay below 2^32; the buffer has to be readable as far as the last copy goes; after a fault nothing is said.
- TmpfsFile.RegularFile.WriteThenRead: the same bounds, for both buffers.
- TmpfsFile.RegularFile.Read: the buffer has to be writable as far as the last copy goes, which may be behind the bytes asked for; what a copy past the end of the memory there is does, is not modelled.
- Mem.Memory.IsPhysUsed: the frame has to be in the bitmap; its callers report a fault otherwise.
- Mem.Memory.SetPhysUsed: the same.
- Mem.Memory.AllocPhys: after a look past the bitmap nothing is followed, whatever byte lies there.
- Mem.Memory.MemSetUsed: after a store past the bitmap nothing is followed.
- Mem.Memory.IsVirtRegionUsed: windows have to end at or below 0xffc00000, behind which the page tables themselves are mapped, or overflow.
- Mem.Memory.FindRegion: the search has to end before the page tables.
- Mem.Memory.MemMap: runs that take a page fault, use up the frames for page tables or reach addresses from 0xffc00000 on, where the page tables themselves are mapped, are not followed.
- Mem.Memory.MemMapRange: the same runs of `mem_map` underneath are not followed.
- Mem.Memory.MapWindow: runs in which no frame is left for a page table, whose directory entry would be made of the error value, are not followed; the bounds for frames have to lie in the bitmap here and in all calls that map.
- Mem.Memory.MemAlloc: the same runs of the mapping underneath, and regions that reach behind 0xffc00000, are not followed.
- Paging.MemMapTakesNothingOverExactlyWhen: there has to be a frame for every new table, and the search may not start in the middle of a missing table.
- Paging.MapRangeTranslates: the flags have to mark the pages as present.
- TmpfsDir.Tmpfs.AddToDir: the buffer for the name, and its size, are not modelled; names are values.
- Printf.Printer.Vprintf: widths and counts are taken to fit in an `int`, and the negation of the smallest `int` is taken to wrap.
- Kb.Keyboard.Read: interrupts in the middle of it are not modelled; every call is one step.
- Tty.Console.Write: one array element is a 16-bit cell, so copies move whole cells where the source moves bytes.
- Ps2.Decoder.KeyPressed: the byte from the data port is a parameter, and warnings and the end-of-interrupt signal are left out.
- `mem_init`: a loop over the kernel image, whose bounds come from the linker.
- The literal key code and character tables: they are parameters.
- The padding bytes of a header, and header bits other than USED and END beyond their being kept or cleared.
- Character and block devices behind tmpfs files, and the type tests in front of reads and writes.
- `tmpfs_destroy`, owners, groups and permission bits: nothing checks them.
- Controller setup, port input and output, interrupt descriptors, serial ports, boot code and drivers.
- `strrchr`, `memchr`, `strncpy` and the searching functions.
