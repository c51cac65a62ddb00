# rinix memory management, terminal and formatted output: a verified model

rinix is a small i386 kernel. This project models the parts of it that keep state by hand in memory and
proves what they keep: the kernel heap, the page tables and the frame bitmap beneath it, the start-up code
that makes the first state, and, apart from these, the text terminal and the printf engine.

The model keeps the form of the code. The heap, the address space, the frame bitmap and the terminal are
classes whose methods make the same stores in the same order as the C functions; physical memory is an array
of 2^30 words, and the page tables and the heap live in it. `page.c` and `kmem.c` reach memory only through
virtual addresses, so every load and store of theirs is translated by the tables that the stores change
(section 4.3 of the Intel 64 and IA-32 SDM, Volume 3A). The methods are proved against specification
functions on values, and the theorems are about those functions and about the invariants.

## The layers

| files | what they hold |
|---|---|
| `Arithmetic`, `Bits`, `Seals` | division with remainder; the bits of a byte and of a number; a device for keeping facts out of sight |
| `Frames`, `Regions`, `FrameBitmap` | the bitmap as a set of used frames, the search with its hint, runs of get and free; which frames `create_bitmap` marks and clears; class `FrameBitmap` |
| `Mmu`, `Tables`, `Paging` | the walk and the recursive window; the invariant of the tables and what one store does to every translation; class `AddressSpace` |
| `Boot` | the tables made by `boot.s` |
| `HeapChain`, `HeapScan`, `HeapRuns` | the heap as a sequence of blocks: the changes made to it, the search loop as a transition system, what requests and frees do to the live blocks |
| `HeapStore`, `HeapPages`, `HeapTraces` | the headers as words of the heap region; the region as mapped pages; runs of calls and stores, with the words |
| `Kmem`, `Kernel` | class `KernelHeap`; start-up and the calls made by `kmain` |
| `Terminal` | the screen against an unbounded, line-wrapped log; class `Terminal` |
| `Digits`, `Printf` | numerals and the in-place digit loops; the format interpreter against a recursive rendering |

The invariant of the heap, `KernelHeap.Valid`, spans all the memory layers: the tables are well formed and in
used frames, each heap page is mapped to a used frame of its own that holds no table, the words of the region
(read through the tables) are the headers of a chain of blocks, that chain tiles the region, no two adjacent
blocks are free, and the block before the tail is free and not empty. The frames that were used when the heap was
made are part of it too: they stay used, and apart from the directory and the tables none of them becomes a table or
a heap page, and their words stay as they were. So no store of the paging or the heap code reaches the kernel image,
memory that the map reserves, or the bitmap, whose own frames also stay mapped to themselves.

## What the proofs found

Where the code does not do what it seems meant to do, the model follows the code and the condition is exact.

- `kmalloc` can loop forever. The fit test is strict, the growth aims for equality; the search fails to end
  exactly when no block fits and the shortage is a whole number of pages (`SearchEndsExactly`). The fresh heap
  and a request of 4048 bytes are such a case (`FreshHeapCanDiverge`).
- The loop's bound `head + total_length` is pointer arithmetic on 16-byte headers. From 48 MiB on it wraps
  around, and `kmalloc` returns NULL although memory is there; `NullExactly` says when.
- The block returned is as long as asked exactly for requests up to 2^32 - 32 bytes. For the next sixteen sizes
  the need wraps around to zero, and the first free block that is not empty is cut so that the new header falls on
  its own: it ends up linked to itself with a size no heap has, and the words are then those of no chain
  (`KmallocWrapping`, `NoChainLeft`). For the last fifteen `align_block` wraps around and the block has no bytes
  (`RequestGranted`, `AlignBlockIsLeast`).
- The `KMEM_USED` arm of `kmem_morecore` is never reached, since the block before the tail is always free
  (`ChainIsCoalesced`); nor does the subtraction in the growth request underflow (`GrowthIsLeast`).
- New page tables are not cleared: the rest of a fresh 4 MiB region translates through whatever words the
  frame held (`StoreTable`, `MapPage`).
- `dealloc_page_table` keeps the invariant exactly when no other directory entry leads to the table
  (`DeallocPageTable`). The entries that `boot.s` makes for 0 and for 3 GiB do share one (`BootTableShared`).
- The search hint is stored as a byte index and divided by eight again when read. The search only starts
  lower, so a frame just freed is still found by the next search or a lower one is (`ReleasedIsReachable`).
- The loops that mark the kernel image and the bitmap as used step by whole pages. They meet every frame of a
  range exactly when it does not end lower in its page than it begins (`SteppedFramesAreAll`), as is so from the
  page boundaries where the linker script and `mem_init.c` let the two ranges begin (`AlignedRangeMarked`).
- As `bitmap_size` in `mem_init.c` is never set, the length passed on is zero and the second loop marks one
  frame. Where the bitmap's frames are free at first and in no unusable region, they then all end up used exactly
  when it fits in one page, that is for 128 MiB at most, whatever the test before clearing (`BitmapFramesUsed`);
  `SecondBitmapFrameFree` is a bitmap of two pages whose second one stays free and is handed out once the boot
  frame is.
  What is proved of the system is for bitmaps all of whose frames are marked.
- The linker script puts the boot code at 1 MiB and `kernel_start` on a later page, so that no loop marks the frame
  at 1 MiB. It ends up used exactly when the regions leave it so, and otherwise it is the first frame that
  `get_frame` hands out (`BootFrameUnmarked`, `BootFrameHandedOut`).
- `create_bitmap` keeps the ends of a region in signed ints. Of the regions for which its loop stays in the
  bitmap, those that end at 2 GiB or above are not gone over as they should be (`RegionCovered`,
  `UnusableRegionMarked`); the reserved 256 KiB below 4 GiB are skipped altogether (`TopRegionSkipped`).
  `RegionInBounds` says for which regions the loop stays in the bitmap at all, and `HighRegionOutOfBounds` is one
  for which it does not.
- The test made before a region's frame is freed shifts by an amount outside the defined range for most frames.
  The model takes any test; a frame of a usable region ends up free exactly when it was free before or its test
  passes on the byte as the loop finds it (`FramesAppliedUsed`, `UsableRegionDecides`). With the shift count taken
  modulo 32, as the i386 does, three of four frames are never freed, and no frame's test looks at the frame's own
  bit (`MachineTestBlocks`).
- `ltoa` notes the sign and then drops it, so `%l` prints the absolute value (`UnsignedNumeralLosesSign`).
- `vprintf` returns the count of literal bytes only, unlike section 7.21.6.1 of C11 (`WrittenIsLiteral`).

## Model

| member | source | states |
|---|---|---|
| `Bits.ShiftTest` | kernel/rinix/rinix.c:24-27 | the shift test of `_check_frame` sees exactly the bit that the mask tests of the bitmap see |
| `Bits.NonZero` | kernel/mm/bitmap.c:65-72 | a byte is non-zero exactly when one of its eight bits is set, which is why the inner search loop ends |
| `Frames.UsedByBytes` | kernel/rinix/rinix.c:24-27 | frame f is used exactly when bit 7 - f % 8 of byte f / 8 is set |
| `Frames.MarkUsed` | kernel/mm/bitmap.c:18-21 | the byte store adds exactly its frame to the set of used frames |
| `Frames.MarkFree` | kernel/mm/bitmap.c:23-26 | the byte store removes exactly its frame from the set |
| `Frames.LowestInChunk` | kernel/mm/bitmap.c:83-97 | the first set bit of the first inverted byte that is not zero is the lowest free frame from the scan start on |
| `Frames.ServeBalanced` | kernel/mm/bitmap.c:32-46 | one get, or one free of any frame, keeps the account: outstanding frames are distinct, and used = initially used and not given back + outstanding; a free that fails changes none of it |
| `Frames.RunsConserveFrames` | kernel/mm/bitmap.c:32-108 | over every run of gets and frees, frees that fail and frees of frames used from the start included, the account holds and the number of used frames is gets minus successful frees more |
| `Frames.ReleasedIsReachable` | kernel/mm/bitmap.c:35-59 | after a free of any frame f, even a failing one, a search succeeds and gives the lowest free frame from 8 * (f / 64) on, which is no higher than f, whatever the hint was |
| `Regions.RegionCovered` | kernel/mm/bitmap.c:133-147 | the loop goes over all frames of a region if and only if the region ends below 2 GiB |
| `Regions.TouchedExactly` | kernel/mm/bitmap.c:133-147 | exactly which frames the loop goes over, by the start and the size of the region, for every region for which it stays in the bitmap |
| `Regions.ReachedBelow` | kernel/mm/bitmap.c:133-147 | for a region that ends below 2 GiB these are the frames from start / 4096 to (start + size - 1) / 4096 |
| `Regions.RegionInBounds` | kernel/mm/bitmap.c:133-147 | the loop stays in the bitmap if and only if the region ends there and below 2 GiB, or in the last page below 4 GiB |
| `Regions.HighRegionOutOfBounds` | kernel/mm/bitmap.c:133-147 | a region of 1.5 GiB from 1.5 GiB on, for which the loop leaves every bitmap |
| `Regions.TopRegionSkipped` | kernel/mm/bitmap.c:133-147 | for the 256 KiB below 4 GiB the loop is empty |
| `Regions.OrdinaryMapInBounds` | kernel/mm/bitmap.c:133-147 | for the map of a PC with 128 MiB, that region among them, the loops stay in a bitmap of one page |
| `Regions.UnusableRegionMarked` | kernel/mm/bitmap.c:146-160 | with no frame used before, all frames of an unusable region are used after its loop if and only if it ends below 2 GiB |
| `Regions.SettledNext` | kernel/mm/bitmap.c:146-161 | one more region keeps the account of what the region list has settled: frames whose last region is unusable are used, a frame has become used only by an unusable region, and has been freed only by a usable one and a test that can pass |
| `Regions.RegionsSettle` | kernel/mm/bitmap.c:123-163 | that account holds of the used frames after all regions |
| `Regions.FramesAppliedUsed` | kernel/mm/bitmap.c:146-160 | exactly which frames are used after the loop over a region: those of an unusable one; of a usable one those that were used and whose test, made on the byte as the loop finds it, fails; outside it those that were |
| `Regions.UsableRegionDecides` | kernel/mm/bitmap.c:123-163 | when the last region over a frame is usable, the frame ends up free if and only if it was free before that region or its test passes there |
| `Regions.RegionEffect` | kernel/mm/bitmap.c:146-160 | by start and size: a frame outside keeps its state over the loop; inside, it becomes used, or stays free if it was |
| `Regions.ReservedStaysUsed` | kernel/mm/bitmap.c:123-163 | a frame of an unusable region that no later usable one reaches is used after all regions |
| `Regions.UnreachedStaysFree` | kernel/mm/bitmap.c:123-163 | a free frame that no unusable region reaches is still free after them |
| `Regions.MachineTestBlocks` | kernel/mm/bitmap.c:151-151 | with the shift count modulo 32, the test fails on every byte for the frames f with f % 32 from 1 to 24, and never looks at the frame's own bit |
| `Regions.SteppedFramesAreAll` | kernel/mm/bitmap.c:171-180 | stepping by pages marks every frame of a range if and only if the range's end is not lower in its page than its start |
| `Regions.AlignedRangeMarked` | kernel/arch/i386/linker.ld:20-25 | stepping from a page boundary, where kernel_start lies, marks every frame of the range |
| `Regions.SteppedExactly` | kernel/mm/bitmap.c:171-180 | the frames marked are those of the addresses first, first + 4096, ... up to last, and no others |
| `Regions.MarkedExactly` | kernel/mm/bitmap.c:168-180 | the marks are frames 0 to 255 and those met in stepping over kernel and bitmap, and no others |
| `Regions.BitmapMarksItself` | kernel/mm/bitmap.c:177-180 | the loop marks all frames of the bitmap if and only if the length it is given reaches from its first page to its last |
| `Regions.BitmapFramesUsed` | kernel/mm/bitmap.c:111-183 | for a bitmap in memory that is clear at first and in no unusable region, that decides whether all its frames are used in the end, whatever the test |
| `Regions.BootFrameUnmarked` | kernel/arch/i386/linker.ld:12-25 | with kernel and bitmap above it, the frame at 1 MiB ends up used if and only if the regions leave it used, and is the lowest free frame if and only if they do not |
| `Regions.BootFrameHandedOut` | kernel/arch/i386/linker.ld:12-25 | memory that is clear at first, a kernel just above that frame and a bitmap above the kernel: it is handed out first, whatever the test |
| `Regions.SecondBitmapFrameFree` | kernel/mm/mem_init.c:63-68 | length zero and two pages of bitmap, the second one clear at first: it stays free and, once the frame at 1 MiB is taken, is the next that is handed out |
| `FrameBitmaps.FrameBitmap.Create` | kernel/mm/bitmap.c:111-183 | the used frames are exactly those that the regions in turn leave used, with the marks; frames 0 to 255 and those that an unusable region reserves are among them, and every other used one was so before, is marked or is reached by an unusable region |
| `FrameBitmaps.FrameBitmap.ApplyRegion` | kernel/mm/bitmap.c:133-160 | by start and size: each frame of the region is affected as its kind and the test on its byte demand, and every other frame keeps its state |
| `FrameBitmaps.FrameBitmap.ApplyFrame` | kernel/mm/bitmap.c:148-159 | one frame: marked, or cleared if the test passes on its byte |
| `FrameBitmaps.FrameBitmap.MarkLow` | kernel/mm/bitmap.c:168-168 | frames 0 to 255 become used and no others change |
| `FrameBitmaps.FrameBitmap.MarkStepped` | kernel/mm/bitmap.c:171-174 | the used set grows by exactly the stepped frames |
| `FrameBitmaps.FrameBitmap.MarkFrameUsed` | kernel/mm/bitmap.c:18-21 | the used set grows by the one frame |
| `FrameBitmaps.FrameBitmap.MarkFrameFree` | kernel/mm/bitmap.c:23-26 | the used set loses the one frame |
| `FrameBitmaps.FrameBitmap.CheckFrame` | kernel/rinix/rinix.c:24-27 | 1 for a used frame, 0 for a free one |
| `FrameBitmaps.FrameBitmap.FreeFrameNumber` | kernel/mm/bitmap.c:32-46 | 0 exactly when the frame was used; only that frame is freed, otherwise no byte changes; the hint is set either way; used set and hint are those of a step of the run model |
| `FrameBitmaps.FrameBitmap.FreeFrame` | kernel/mm/bitmap.c:49-52 | the same by address, the bits below the page size being ignored |
| `FrameBitmaps.FrameBitmap.ScanChunk` | kernel/mm/bitmap.c:63-72 | the loop guarded only by a non-zero byte ends at the first set bit, within eight steps |
| `FrameBitmaps.FrameBitmap.FindFreeFrame` | kernel/mm/bitmap.c:56-75 | the lowest free frame from the last multiple of 8 up to last_checked on, although last_checked is a byte index already |
| `FrameBitmaps.FrameBitmap.GetFreeFrame` | kernel/mm/bitmap.c:78-103 | the same frame, and the used set grows by just that frame |
| `FrameBitmaps.FrameBitmap.GetFrame` | kernel/mm/bitmap.c:105-108 | its page-aligned 32-bit address; it is one step of the run model and one frame fewer is available |
| `FrameBitmaps.FrameBitmap.FreeAndGet` | kernel/mm/bitmap.c:32-108 | after a free of frame f, get_frame gives the lowest free frame from 8 * (f / 64) on |
| `Mmu.EntryFor` | kernel/arch/i386/page.c:91-98 | an entry holds the frame it was made for and is present exactly when the flags say so |
| `Mmu.EntryStored` | kernel/arch/i386/page.c:119-126 | a store to one entry of one frame changes no other entry of any frame |
| `Mmu.AccessIsWalk` | kernel/arch/i386/page.c:119-126 | the word an aligned access reaches is the one at the address the walk gives |
| `Mmu.PageMask` | kernel/arch/i386/page.c:121-122 | and-ing with ~0xFFF leaves the address of the frame |
| `Mmu.TableMask` | kernel/arch/i386/page.c:124-124 | the masked shift is the index into the page table |
| `Mmu.FlagBits` | kernel/arch/i386/page.c:125-125 | or-ing flags below 0x1000 into a frame's address makes its entry |
| `Mmu.DirWindowBits` | kernel/arch/i386/page.c:95-95 | the or-ed address is that of the directory entry in the window |
| `Mmu.TableWindowBits` | kernel/arch/i386/page.c:123-123 | the masked and or-ed address is that of the page table in the window |
| `Mmu.MaskedParts` | kernel/arch/i386/page.c:93-94 | masking the offset of an address leaves its frame and both indices |
| `Mmu.DirWindowReachesEntry` | kernel/arch/i386/page.c:91-98 | the window address of a directory entry, translated, is that very entry |
| `Mmu.TableWindowReachesEntry` | kernel/arch/i386/page.c:119-126 | the window store, translated by the tables themselves, lands on the entry that the walk for the address reads |
| `Tables.StoreData` | kernel/arch/i386/page.c:119-126 | a store to a frame that holds no table changes no translation and keeps the invariant |
| `Tables.StoreEntry` | kernel/arch/i386/page.c:119-126 | a store to a page-table entry keeps the invariant and changes the translation of exactly the addresses whose walk reads it |
| `Tables.StoreTable` | kernel/arch/i386/page.c:100-108 | entering a fresh table keeps the invariant; its region then translates through the words the frame held, and nothing else changes but the window onto it |
| `Tables.ClearTable` | kernel/arch/i386/page.c:110-117 | clearing a directory entry and freeing its frame keeps the invariant of the tables exactly when no other entry leads there |
| `Tables.MapKeepsTables` | kernel/arch/i386/page.c:56-88 | mapping a page keeps the invariant, and every translation afterwards is given by one function of those before |
| `Tables.OtherRegionsKept` | kernel/arch/i386/page.c:56-88 | regions that do not share the table translate as before |
| `Tables.MapKeepsDirectory` | kernel/arch/i386/page.c:56-88 | at most the one directory entry changes |
| `Tables.MappedEntries` | kernel/arch/i386/page.c:56-88 | the entries made: frame * 4096 + flags for a new table, and that of the page in the table; a table that is there keeps its entry |
| `Tables.TableRoundTrip` | kernel/arch/i386/page.c:100-117 | allocating and deallocating a table for an absent region restores the zero entry, every translation and the used frames, though the freed value carries flag bits |
| `Tables.MapKeepsHome` | kernel/arch/i386/page.c:56-88 | mapping a page stores nothing in used frames that hold no table, such as the bitmap's, and makes none of them a table |
| `Tables.ClearedTable` | kernel/arch/i386/page.c:110-117 | the same of clearing an entry, with the exact condition for the whole invariant |
| `Paging.AddressSpace.SetPageTable` | kernel/arch/i386/page.c:91-98 | by the masks and shifts of the code, memory changes in just the directory entry of the address |
| `Paging.AddressSpace.AllocPageTable` | kernel/arch/i386/page.c:100-108 | the lowest free frame is taken and entered; no other word changes; for an absent region the invariant is kept |
| `Paging.AddressSpace.DeallocPageTable` | kernel/arch/i386/page.c:110-117 | the entry becomes zero and its frame free; the invariant survives exactly when no other entry led to that frame; the bitmap's frames are not written |
| `Paging.AddressSpace.TableAndBack` | kernel/arch/i386/page.c:100-117 | the two calls after one another, for an absent region: the entry is zero, and the used frames, every translation and the whole invariant are as before |
| `Paging.AddressSpace.SetPage` | kernel/arch/i386/page.c:119-126 | by the masks and shifts of the code, memory changes in just the word the walk for the address reads |
| `Paging.AddressSpace.AllocPage` | kernel/arch/i386/page.c:128-132 | the same with the lowest free frame, which becomes used |
| `Paging.AddressSpace.MapPage` | kernel/arch/i386/page.c:56-71 | the invariant is kept, every address translates as before except in the stated way, the entries for a new table and for the page are frame * 4096 + flags, and the bitmap's frames are not written |
| `Paging.AddressSpace.AllocMapPage` | kernel/arch/i386/page.c:73-88 | the same with the lowest free frame for a new table and the next lowest for the page; exactly the frames needed are taken |
| `Boot.InitPaging` | kernel/arch/i386/boot.s:62-143 | table entry i is i * 4096 + 3, directory entries 0 and 768 are the table's frame * 4096 + 3, entry 1023 is the directory's own, and no other frame's words change |
| `Boot.BootTables` | kernel/arch/i386/boot.s:81-95 | the first tables satisfy the invariant |
| `Boot.BootTableShared` | kernel/arch/i386/boot.s:81-86 | the entries for 0 and for 3 GiB lead to one table, so that deallocating it breaks the invariant |
| `Boot.BootWalk` | kernel/arch/i386/boot.s:81-95 | the low 4 MiB are mapped at 0 and at 3 GiB and nothing else but the window is mapped |
| `Boot.BootWalkRanges` | kernel/arch/i386/boot.s:81-136 | addresses 0 to 0x3FFFFF and 0xC0000000 to 0xC03FFFFF are mapped to the first 4 MiB, and no other below the window is mapped |
| `Boot.LowAddress` | kernel/arch/i386/boot.s:125-136 | the place such an address is mapped to is the address modulo 4 MiB |
| `HeapChain.PayloadsApart` | kernel/mm/kmem.c:14-19 | payloads are 16-aligned, inside the heap, and meet neither each other nor any header |
| `HeapChain.Ordered` | kernel/mm/kmem.c:32-42 | each block ends before every later one begins |
| `HeapChain.SplitHeap` | kernel/mm/kmem.c:149-162 | cutting a block that fits keeps tiling, coalescing and the free last block |
| `HeapChain.GrowHeap` | kernel/mm/kmem.c:96-108 | adding pages to the last block keeps the invariant for the longer heap |
| `HeapChain.ReleaseParts` | kernel/mm/kmem.c:182-204 | a freed block becomes one block from its lowest free neighbour to the next used one; all others stay |
| `HeapChain.ReleaseHeap` | kernel/mm/kmem.c:182-204 | freeing any used block keeps the invariant |
| `HeapChain.ReleaseInSteps` | kernel/mm/kmem.c:184-203 | the three ifs of kfree, taken in order, amount to that one change |
| `HeapChain.Whereabouts` | kernel/mm/kmem.c:199-203 | by the time of the last if, the freed header is part of a payload, or where it was |
| `HeapScan.AlignBlockIsLeast` | kernel/mm/kmem.c:44-46 | rounding gives the least multiple of 16 that is enough, exactly for sizes of at most 2^32 - 16 |
| `HeapScan.ScanEndWraps` | kernel/mm/kmem.c:131-131 | the loop's bound admits an address of the heap exactly while the heap is shorter than 48 MiB |
| `HeapScan.FirstFit` | kernel/mm/kmem.c:149-167 | the lowest block that is free and strictly larger than the need |
| `HeapScan.GrowthIsLeast` | kernel/mm/kmem.c:133-146 | no underflow; the growth is the least number of pages that reaches the need, and is enough for the strict test exactly when the shortage was not whole pages |
| `HeapScan.SearchingTurn` | kernel/mm/kmem.c:131-169 | every turn of the loop stays on the first or the second pass or returns the stated outcome; growth happens on the first only; the turns left shrink |
| `HeapScan.SearchEnds` | kernel/mm/kmem.c:131-170 | from any point of a search that does not diverge, the outcome is reached within the turns left |
| `HeapScan.SearchNeverEnds` | kernel/mm/kmem.c:131-170 | in the diverging case no number of turns returns, and after the growth the heap does not change again |
| `HeapScan.SearchEndsExactly` | kernel/mm/kmem.c:129-170 | the search never returns if and only if nothing fits and the shortage is whole pages; otherwise two passes are enough |
| `HeapScan.FreshHeapCanDiverge` | kernel/mm/kmem.c:136-149 | the fresh heap and a request of 4048 bytes never return |
| `HeapScan.NullExactly` | kernel/mm/kmem.c:131-170 | of the requests that return, exactly those for which the scaled bound has wrapped around get NULL |
| `HeapScan.LongHeapGivesNull` | kernel/mm/kmem.c:131-131 | 16 bytes from a heap of 48 MiB that is all free: NULL |
| `HeapScan.LowestIsCut` | kernel/mm/kmem.c:149-162 | when something fits, the lowest such block is cut, at least 16 bytes stay free behind it, and no other block is touched |
| `HeapRuns.LiveBlocksDetermineChain` | kernel/mm/kmem.c:182-204 | full coalescing: the chain is a function of the live blocks and the length |
| `HeapRuns.AllFreedIsOneBlock` | kernel/mm/kmem.c:182-204 | once all is freed the heap is one free block |
| `HeapRuns.FreeAtIsRelease` | kernel/mm/kmem.c:173-209 | the only heap with the same live blocks but one is what kfree's merging makes |
| `HeapRuns.FreeAtNothing` | kernel/mm/kmem.c:205-208 | where no block is live at the address, leaving that block out leaves the chain; kfree itself does nothing there provided the flag before the pointer does not say used |
| `HeapRuns.FreeOrderIrrelevant` | kernel/mm/kmem.c:173-209 | two frees commute |
| `HeapRuns.CutThenFree` | kernel/mm/kmem.c:149-204 | freeing what was cut gives back the chain |
| `HeapRuns.OutcomeCuts` | kernel/mm/kmem.c:124-171 | a request that returns has grown the last block or not, and then cut one fitting block, or none when it gives NULL |
| `HeapRuns.OutcomeHeap` | kernel/mm/kmem.c:124-171 | it keeps the invariant and adds exactly the block returned to the live ones |
| `HeapRuns.RequestThenFree` | kernel/mm/kmem.c:124-209 | kfree after kmalloc restores the exact chain, with the last free block enlarged if there was growth |
| `HeapRuns.RequestAndFree` | kernel/mm/kmem.c:124-209 | what kmalloc returned is a live block that may be freed, with that result |
| `HeapRuns.RequestGranted` | kernel/mm/kmem.c:124-162 | of the requests whose need does not wrap around: the block returned is aligned, new, at least as long as asked for exactly up to 2^32 - 32 bytes, and apart from every other block with its header |
| `HeapRuns.LongEnough` | kernel/mm/kmem.c:44-46 | among those requests the rounded size is enough exactly up to 2^32 - 32 |
| `HeapStore.SplitStores` | kernel/mm/kmem.c:151-161 | the eight stores of the cut turn the headers of a chain into those of the split chain, and stay inside the block and the next header |
| `HeapStore.GrowStores` | kernel/mm/kmem.c:103-109 | the six stores of the growth make the headers of the grown chain |
| `HeapStore.MergeStores` | kernel/mm/kmem.c:184-198 | the three stores of a merge, in either of its two orders, make the headers of the merged chain |
| `HeapStore.FreshStored` | kernel/mm/kmem.c:75-84 | the stores of kmem_init make the two headers of a fresh heap |
| `HeapStore.SpoilingStores` | kernel/mm/kmem.c:151-161 | the stores of a cut that falls on its own header leave it linked to itself, free, with the size asked for, and every other word as it was |
| `HeapStore.NoChainLeft` | kernel/mm/kmem.c:14-19 | once a header gives a size that leaves the heap, the words are those of no chain |
| `HeapStore.PayloadStored` | kernel/mm/kmem.c:14-19 | a store into a payload changes no header |
| `HeapStore.KeptByCut` | kernel/mm/kmem.c:151-161 | a cut leaves every live payload as it was |
| `HeapStore.KeptByGrowth` | kernel/mm/kmem.c:96-108 | growth leaves every live payload as it was |
| `HeapStore.KeptByHeaders` | kernel/mm/kmem.c:182-204 | stores to header words alone leave every live payload as it was |
| `HeapPages.HeapAccessInjective` | kernel/mm/kmem.c:95-97 | distinct words of the heap are distinct words of physical memory |
| `HeapPages.HeapStoredTables` | kernel/arch/i386/page.c:119-126 | a store to a heap address changes no table, no translation and no page of the heap |
| `HeapPages.HeapStoredWord` | kernel/mm/kmem.c:14-19 | it changes that word of the heap as read back, and no other |
| `HeapPages.HousedStored` | kernel/mm/kmem.c:14-19 | it keeps the backing of the region and writes to no frame used when the heap was made that holds no table |
| `HeapPages.HeapGrown` | kernel/mm/kmem.c:95-97 | mapping the next page keeps the tables and the earlier pages, and the words so far read as before |
| `HeapPages.HousedGrown` | kernel/mm/kmem.c:95-97 | growth writes to none of those frames and takes none of them |
| `HeapPages.HeapTranslates` | kernel/mm/kmem.c:95-97 | every heap address translates, at its offset into the frame of its page, which is used and holds no table |
| `HeapPages.HeapTranslationInjective` | kernel/mm/kmem.c:95-97 | no two heap addresses translate to the same place |
| `HeapPages.FramesForNext` | kernel/mm/kmem.c:93-97 | frames that suffice for the pages to come still do after one page and, if needed, its table |
| `HeapTraces.StepKeepsAccount` | kernel/mm/kmem.c:124-209 | a call or a store changes the live blocks as a caller would account for it |
| `HeapTraces.StepIsSound` | kernel/mm/kmem.c:124-209 | a call or a store from a state with the invariant (the chain, its headers, and words exactly for the region) leads to one with it |
| `HeapTraces.SecondFree` | kernel/mm/kmem.c:173-209 | a pointer just freed may be freed again, and that changes nothing |
| `HeapTraces.RunsAreSound` | kernel/mm/kmem.c:71-209 | the invariant holds in every state of every run of calls and stores that begins with it |
| `HeapTraces.RunsKeepAccount` | kernel/mm/kmem.c:71-209 | over every run of calls and stores: live blocks = returned - freed, and the heap never shrinks |
| `HeapTraces.AccountDeterminesChain` | kernel/mm/kmem.c:182-204 | two runs that come to the same account and length have the same chain, whatever calls they made |
| `HeapTraces.RunsKeepWords` | kernel/mm/kmem.c:124-209 | over every run a live block that is not freed stays live, and each of its words that is not stored to keeps its value |
| `Kmem.KernelHeap.constructor` | kernel/mm/kmem.c:71-87 | the invariant holds of the fresh one-page heap; the lowest free frame became its table, if there was none, the next its first page, and no others were taken |
| `Kmem.KernelHeap.Next` | kernel/mm/kmem.c:32-42 | the next header's address, or NULL at the tail |
| `Kmem.KernelHeap.MapNextPage` | kernel/mm/kmem.c:95-96 | the heap region is one page longer, its words so far unchanged; the page and a new table are entered with flags 3, on the lowest free frames |
| `Kmem.KernelHeap.StoreTail` | kernel/mm/kmem.c:97-119 | the stores of one turn; the arm for a used block before the tail is not reached |
| `Kmem.KernelHeap.AddPage` | kernel/mm/kmem.c:95-119 | one turn grows the last free block by a page and writes nothing below it |
| `Kmem.KernelHeap.MoreCore` | kernel/mm/kmem.c:89-121 | so do all turns together, by as many pages |
| `Kmem.KernelHeap.CutBlock` | kernel/mm/kmem.c:151-162 | the chain is split at the block, and only its words and the next header's link are written |
| `Kmem.KernelHeap.LookAt` | kernel/mm/kmem.c:133-168 | one turn of the loop is one turn of the transition system, and keeps every live payload |
| `Kmem.KernelHeap.Kmalloc` | kernel/mm/kmem.c:124-171 | pointer, chain and length are the stated outcome of the search; the block is aligned, apart from all others and, up to 2^32 - 32 bytes, long enough; the invariant and every live payload are kept |
| `Kmem.KernelHeap.KmallocWrapping` | kernel/mm/kmem.c:124-171 | for requests from 2^32 - 31 to 2^32 - 16 bytes: NULL from 48 MiB on; otherwise the first free block that is not empty is returned, shorter than asked, with its header linked to itself and the words those of no chain |
| `Kmem.KernelHeap.Coalesce` | kernel/mm/kmem.c:184-198 | the first two ifs of kfree: next block swallowed, then swallowed by the previous one, where free |
| `Kmem.KernelHeap.FreeBlock` | kernel/mm/kmem.c:182-204 | the chain is the release of the block; only header words are written |
| `Kmem.KernelHeap.Kfree` | kernel/mm/kmem.c:173-209 | the block at the pointer is no longer live and all others are; every payload is kept; without the used flag nothing changes, so a second kfree does nothing |
| `Kmem.KernelHeap.StorePayload` | kernel/rinix/rinix.c:64-67 | a caller's store into its block keeps the whole invariant and changes that word only |
| `Kmem.KernelHeap.HeapIsMapped` | kernel/mm/kmem.c:71-121 | between calls every heap page is mapped to a used frame that is no table's and none of the bitmap's |
| `Kmem.KernelHeap.HeapMappedApart` | kernel/mm/kmem.c:71-121 | no two heap pages are on one frame |
| `Kmem.KernelHeap.KeptFramesUntouched` | kernel/mm/kmem.c:71-209 | between calls every frame used when the heap was made is still used; those that held no table have their words as then, hold none now and are no heap page |
| `Kmem.KernelHeap.BitmapFramesUntouched` | kernel/mm/kmem.c:71-209 | no store since the heap was made has reached the frames of the bitmap, and these are still mapped to themselves |
| `Kmem.KernelHeap.WordsInMemory` | kernel/mm/kmem.c:71-209 | the words of the region are what memory holds, read through the tables |
| `Kmem.KernelHeap.HeadersInWords` | kernel/mm/kmem.c:71-209 | at each block's address, the first being 0xD0000000, the four words are prev, next, size and flag (0, 1 or 0x81); prev and next are inverse, and each block begins where the payload before it ends |
| `Kmem.KernelHeap.ChainIsCoalesced` | kernel/mm/kmem.c:98-111 | no two adjacent blocks are free, and the one before the tail is and has bytes |
| `Kmem.KernelHeap.Freeable` | kernel/mm/kmem.c:180-182 | a live block's pointer meets what kfree demands |
| `Kernel.StartUp` | kernel/mm/mem_init.c:86-91 | for any test and any region list whose loops stay in the bitmap, tables in the kernel image, and a bitmap in the low 4 MiB all of whose frames are marked: the invariant holds; the used frames are exactly what the regions leave, the marks and the two lowest free ones, which are the heap's table and first page; all others have been left alone |
| `Kernel.MakeSpace` | kernel/mm/mem_init.c:86-90 | the part before the heap: first translations, used frames as the regions leave them with the marks, reserved frames and the kernel image among them |
| `Kernel.StaysLeftAlone` | kernel/mm/kmem.c:71-209 | from start-up on, between any calls: the frames that create_bitmap left used are used, and but for the two tables made at boot none holds a table or a heap page, and their words are as the boot loader left them |
| `Kernel.MallocAndFree` | kernel/mm/kmem.c:124-209 | a request and its free leave the chain as it was, apart from growth |
| `Kernel.Serve` | kernel/mm/kmem.c:124-209 | each call on the heap in memory, and each store by a caller, is a step of the run model |
| `Kernel.ServeAll` | kernel/mm/kmem.c:124-209 | any list of calls and stores that can be served, stores into blocks that the list itself obtains included, made on the heap in memory, is a run of that model from its state to its state |
| `Kernel.BootAndServe` | kernel/rinix/rinix.c:33-71 | from the boot loader's memory on, any calls and stores that can be served on the fresh heap make a run from it, and leave alone the frames that create_bitmap left used |
| `Kernel.KmainServable` | kernel/rinix/rinix.c:60-71 | the two requests, two stores and two frees of kmain can be served on the fresh heap, in its first three pages |
| `Kernel.KmainRun` | kernel/rinix/rinix.c:60-71 | in every run that they make from a fresh heap, the value stored in each block is there when the block is freed, and the heap ends as one free block of three pages |
| `Kernel.BootAndServeKmain` | kernel/rinix/rinix.c:33-71 | from the boot loader's memory with six spare frames they make such a run, and leave those frames alone |
| `Kernel.Kmain` | kernel/rinix/rinix.c:60-71 | the two requests, each with its store, and the two frees make a run of those six calls, with the pointers 0xD0000010 and 0xD0002020, and leave the fresh heap, two pages longer |
| `Kernel.BootAndRun` | kernel/rinix/rinix.c:33-71 | from the boot loader's memory with four spare frames, start-up and that part of kmain make the same run and end in that heap, the frames that create_bitmap left used being left alone |
| `Terminals.EntryParts` | kernel/include/rinix/vga.h:26-36 | the low byte of an entry is the character and the high byte the colour, whose low half is the foreground and high half the background |
| `Terminals.NewlineWritten` | kernel/arch/i386/tty.c:90-94 | a newline goes to the left of the next row, changes no cell, and a new row is blank in the present colour |
| `Terminals.ReturnWritten` | kernel/arch/i386/tty.c:96-99 | a carriage return goes to the left of its row and changes no cell |
| `Terminals.OthersIgnored` | kernel/arch/i386/tty.c:101-111 | other bytes below the blank and those from 0x80 on change neither the cursor nor a cell |
| `Terminals.NewRowBlank` | kernel/arch/i386/tty.c:23-38 | a row that comes into being, by a newline or at the right edge, is blank in the present colour |
| `Terminals.LinesLaidOut` | kernel/arch/i386/tty.c:88-115 | printable lines joined by newlines: each begins at column 0 of the row after the one the line before it ended in, and each character is in its place, 80 to a row |
| `Terminals.TextWraps` | kernel/arch/i386/tty.c:103-111 | printable text fills rows of 80 from the top, each character in its place |
| `Terminals.Scrolled` | kernel/arch/i386/tty.c:23-38 | rows moved up over a blank one show the log one row further down |
| `Terminals.Terminal.constructor` | kernel/arch/i386/tty.c:40-65 | the screen shows the empty log: 2000 cells of blanks, white on black |
| `Terminals.Terminal.SetColor` | kernel/arch/i386/tty.c:67-70 | only what is written later has the new colour |
| `Terminals.Terminal.Scroll` | kernel/arch/i386/tty.c:23-38 | past the last row each row moves up by one, the last is blank and the cursor is at its start; otherwise nothing changes |
| `Terminals.Terminal.PutEntry` | kernel/arch/i386/tty.c:82-86 | the one cell is set, in bounds |
| `Terminals.Terminal.PutChar` | kernel/arch/i386/tty.c:88-115 | the screen is again the last 25 rows of the log, now longer by the byte, and the cursor is on it |
| `Terminals.Terminal.Write` | kernel/arch/i386/tty.c:117-121 | the same for a whole text |
| `Terminals.Terminal.LinesShown` | kernel/arch/i386/tty.c:23-121 | after such lines have been written to a fresh terminal, the last 25 of their rows stand on the screen, in the cells row * 80 + column, and the cursor after them |
| `Digits.ParseNumeral` | libc/stdio/vprintf.c:39-41 | reading a numeral back in its base gives the number |
| `Digits.NoLeadingZero` | libc/stdio/vprintf.c:39-41 | only zero begins with the digit zero |
| `Digits.NumeralIsNumeral` | libc/stdio/vprintf.c:39-41 | a numeral has digits of its base only, and no zero in front |
| `Digits.NumeralUnique` | libc/stdio/vprintf.c:39-41 | it is the only such text that reads as its number |
| `Digits.NumeralLength` | libc/stdio/vprintf.c:166-166 | a number below 2^k has at most k digits, hence the 64-byte buffer is enough |
| `Digits.StrLen` | libc/string/strlen.c:3-9 | the length of the text before the NUL |
| `Digits.Reverse` | libc/stdio/vprintf.c:13-23 | the swaps from both ends reverse the text in place |
| `Digits.PutDigits` | libc/stdio/vprintf.c:37-41 | the buffer holds the numeral backwards, in at most 32 bytes |
| `Digits.Itoa` | libc/stdio/vprintf.c:26-46 | the buffer holds the signed numeral; for a base out of range it is untouched |
| `Digits.Utoa` | libc/stdio/vprintf.c:49-65 | the buffer holds the numeral; likewise |
| `Digits.Ltoa` | libc/stdio/vprintf.c:67-85 | the buffer holds the numeral of the absolute value; likewise |
| `Digits.ParseSignedNumeral` | libc/stdio/vprintf.c:26-46 | what itoa writes reads back as the number |
| `Digits.UnsignedNumeralLosesSign` | libc/stdio/vprintf.c:67-85 | what ltoa writes reads back as the number exactly when it is not negative |
| `Printf.EscapeRendersText` | libc/stdio/vprintf.c:127-128 | a text with its percent signs doubled renders as itself |
| `Printf.AfterRejection` | libc/stdio/vprintf.c:130-136 | after a bad specifier all but doubled percent signs comes out literally and takes no argument |
| `Printf.WrittenIsLiteral` | libc/stdio/vprintf.c:121-121 | the value returned falls short of the text by exactly the length of the converted arguments |
| `Printf.RenderConcatenation` | libc/stdio/vprintf.c:105-210 | formats without a bad specifier compose |
| `Printf.RenderRun` | libc/stdio/vprintf.c:113-123 | a run without percent signs comes out as it is |
| `Printf.RunRendered` | libc/stdio/vprintf.c:115-122 | the three ways to the run-printing label all agree with the rendering |
| `Printf.PrintConverted` | libc/stdio/vprintf.c:138-201 | each conversion puts out the text its specifier means |
| `Printf.PrintConversion` | libc/stdio/vprintf.c:138-205 | one argument is taken and put out, and not counted |
| `Printf.PrintC` | libc/stdio/vprintf.c:115-136 | one run is put out and counted, and the position moves past it |
| `Printf.Vprintf` | libc/stdio/vprintf.c:105-210 | it ends, and text and returned value are those of the recursive rendering |
| `Printf.DecimalRoundTrip` | libc/stdio/vprintf.c:150-176 | what %d and %i print is the decimal numeral of the number with its sign, reads back as it, and the value returned is zero |
| `Printf.HexRoundTrip` | libc/stdio/vprintf.c:177-201 | %x puts out 0x and the hexadecimal numeral of the number modulo 2^32 |
| `Printf.OctalRoundTrip` | libc/stdio/vprintf.c:150-176 | %o puts out the octal numeral of the number modulo 2^32 |
| `Printf.LongLosesSign` | libc/stdio/vprintf.c:177-201 | %l puts out the decimal numeral of the absolute value |
| `Printf.CharAndString` | libc/stdio/vprintf.c:138-149 | %c puts out the one byte n % 256, and %s the string |
| `Printf.BadSpecifier` | libc/stdio/vprintf.c:130-136 | any other character after a percent sign: it, the percent sign and the rest come out literally and counted |
| `Printf.LonePercent` | libc/stdio/vprintf.c:127-136 | a percent sign at the end of the format comes out as it is |

## Left out

- Kmalloc: requires a request that does not diverge (what happens otherwise is `SearchNeverEnds`), a need that with its header stays below 2^32 (the other sizes are `KmallocWrapping`), growth that ends below the heap's end address, and enough free frames for it.
- Kfree: requires that a used flag before the pointer belongs to a live block; for other pointers the C function would follow words that are no header.
- FindFreeFrame: requires a free frame at or above the scan start, since the search has no length check; so do GetFreeFrame and GetFrame.
- MapPage: requires flags below 0x1000, the present bit where a table is to be made, and an address outside the recursive window; so does AllocMapPage.
- Create: requires that the loop over each region stays in the bitmap (`RegionInBounds` says when), since it would otherwise write to whatever follows; the Multiboot map and the choice of the bitmap's place in `mem_init.c` are not part of the model.
- StartUp: requires that the bitmap lies in the 4 MiB that are mapped to themselves and that every frame of it is marked, by one loop or another (`BitmapFramesUsed` says when its own does), and is given a set of frames that no later step marks, rather than a particular memory map; so are BootAndServe, BootAndServeKmain and BootAndRun, which leaves out the terminal output in between.
- BootAndServe: of the calls it asks, for every state the calls before may lead to, what Kmalloc and Kfree ask, that a pointer given to kfree lies in the heap, and that a store is to a word of a live payload.
- Itoa: excludes the least int, whose negation overflows, and base 1 for numbers other than zero, for which the digit loop does not end; so does Ltoa.
- Vprintf: requires arguments of the kinds that the format asks for, as a caller of a variadic function must supply.
- The bytes of the bitmap are an array of their own. In the kernel they lie in physical memory, in the frames `Home()`; that these stay mapped to themselves and that no other store reaches them is part of the invariant, but the words of memory there are not tied to the bytes.
- Memory is words: the flag of a header is the low byte of its word, whose other bytes are kept. Payload bytes are kept word by word.
- One method may make the stores of a few lines of the C function; the methods together make them in its order.
- The user, write and page-size bits of entries have no effect in the model; present and frame number do.
- The TLB, cr3, invlpg, port output and the hardware cursor.
- `printf.c` repeats the interpreter of `vprintf.c` statement by statement over an argument list of its own; it is modelled once.
- `create_page_dir`, `create_page_table`, `dealloc_page`, `edit_pde`, `edit_pte`: unfinished, and used by nothing that the model covers.
- `term_putat`, `term_writestr`, tab and backspace, which the terminal itself leaves undone.
- Debug output and pauses; `kheap.c`, `buddy.c`, `slab.c`, the file system, descriptor tables, interrupts, keyboard and timer.
