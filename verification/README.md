# Verified model of the AHK kernel's memory, paging, disk and console code

A Dafny model of the state-heavy parts of the kernel and of its two on-disk formats, with proofs that the
code keeps its data structures intact and computes what it promises. Everything is checked by
`dafny verify dfyconfig.toml`.

## What is modelled

- **Heap** (kheap.c, ordered_array.c). `Tiling` is the theory of memory divided into chunks. `HeapSpec` says
  what alloc and free do to the chunks and to the index of holes; `HeapInvariant` proves that the invariant is
  kept. `HeapMemory` puts the boundary tags, byte by byte, into a memory of 2^32 bytes, `HeapWrites` and
  `KernelHeap` are the code on that memory, and `HeapSteps` and `HeapRuns` carry the results over whole runs, in
  which owners write their payloads and anything may change outside the heap; `HeapCalls` performs lists of
  calls and yields such a run. `HeapTheorems` has the round trip and the conditions that are exact,
  `HeapOutcomes` says in plain arithmetic when alloc returns and what, `HeapOrder` says which calls keep the
  hole index sorted, and `HeapSamples` has sequences of calls on the fresh kernel heap after which the source
  goes wrong.
- **Paging** (paging.c and the bump branch of kmalloc_int). `Frames` is the bitmap as a set of frames, `FrameRuns`
  the frames held by pages over runs, `Bump` the placement allocator, `Paging` the directory and the translation
  that the processor makes with it, `Boot` the three loops of initialise_paging.
- **ATA driver** (ide.c). `AtaBus` is the device side: the registers, two-deep where the 48-bit Address feature set
  says so, the decoding of orders, and the data port. `AtaDriver` is the driver, refining an array of sectors.
- **Console** (monitor.c). `Console` proves the 80x25 buffer against a terminal that never scrolls; `ConsoleText` says
  what text and control characters do, cell by cell; `Numerals` is the theory of the printed numbers.
- **FAT12 reader** (tools/fat/fat.c). `FatTable` is the packed table, `FatReader` the layout and the chain walk.
- **AFS image** (tools/initrd/initrdcreator.c, vfs.c). `Afs` has writer and reader.

## Where the code and its intent differ

The model does what the code does. Two operations take a flag that selects the behaviour as written or as meant:

- `Free(p, rewrite)`: the comment at kheap.c:357 announces that the footer of a hole merged from the right is
  rewritten, but the code does not do it. With `rewrite` set, the footer's header field is redirected. Without it, the
  heap stays valid exactly when nothing is merged from the right or the merged hole reaches the end
  (`KernelHeap.KHeap.Free`, `HeapSamples.SampleStale`). The run theorems are about the repaired free.
- `FreeFrame(page, asMeant)`: free_frame passes a frame number where clear_frame expects an address (paging.c:102).
  As written, a freed frame other than 0 keeps its bit (`FrameRuns.BitsAsWritten`, `FrameRuns.NeverReused`).

These are kept as they are, with the exact condition under which they do no harm:

- `x & 0xFFFFF000 != 0` parses as `x & 1`, so expand rounds odd sizes only, the aligned fit test looks at odd
  addresses only (`HeapTheorems.AlignedTest`), and create_heap never rounds.
- contract masks with 0x1000 (`HeapTheorems.ShrinkExact`, `HeapSamples.SampleShrink`). It also makes a heap shorter than HEAP_MIN_SIZE longer:
  the chunks still tile it if it fits below the limit, but the new footer is written to pages that nobody has mapped,
  so the memory model has the length as a precondition. Heaps that started with HEAP_MIN_SIZE or more never get
  shorter (`HeapSamples.ReachableValid`).
- Growth lengthens the endmost hole wherever it is (`HeapTheorems.GrowthExact`, `HeapSamples.SampleGrowth`).
- Sizes in indexed headers change without re-sorting: a merge to the left and an aligned alloc keep a sorted index
  sorted exactly if the new size is in place (`HeapOrder.FreedSortedExact`, `HeapOrder.AllocSortedExact`,
  `HeapSamples.SampleUnsorted`). An unaligned alloc always does, because the end hole that grew is the one it takes.
- An aligned request can be carved out of a hole that has no room for it (`HeapTheorems.AlignedExact`,
  `HeapSamples.AlignedTestUnsound`).
- The size of a request (`HeapTheorems.RequestExact`, `HeapSamples.RequestUnsound`), the new length of the heap, and
  sums in ide_read_sectors and disk_read can wrap.
- create_heap writes no footer for the first hole. A heap that is one hole may therefore lack its footer.
- monitor_write_dec prints nothing from 2^31 on. main of the image writer declares argc as a char, so for 64 files it
  writes the count -64 and no data (`Afs.CreateImage`).
- ide_write_register sends control bytes to control + 2, which is 0x3F8 for the bases that ata_init passes. The
  device ignores that port; second writes do not depend on it.

Conditions that the source leaves to its callers are preconditions: the index of holes has a free cell, free
gets null or the pointer of a live block, and the words just below the heap and at its end do not hold the magic
number when free inspects them. The last is a condition on each call: after a contraction the word at the new
end is whatever was there. A step of a run asks for correct tags and unchanged payloads afterwards;
`HeapCalls.Perform` shows that the code's calls are such steps. first_frame needs a free frame, since it has no
return statement otherwise. Bit-wise or of disjoint fields is written as a sum, shifts by whole bytes as
divisions.

## Model

| member | source | states |
|---|---|---|
| OrderedArrays.Slot | ordered_array.c:38-40 | the insertion loop stops at the first element that is not below the item: everything it passed is below |
| OrderedArrays.OrderedArray.Insert | ordered_array.c:35-56 | with a free cell left, the shifting loop puts the item exactly at that slot and keeps the order of all other elements; the size grows by one |
| OrderedArrays.OrderedArray.Remove | ordered_array.c:64-72 | removes exactly the element at the position and closes the gap; needs a free cell because the loop reads one past the end |
| OrderedArrays.OrderedArray.Lookup | ordered_array.c:58-62 | returns the element at a position below the size |
| OrderedArrays.InsertedSorted | ordered_array.c:35-56 | insertion into a sorted array leaves it sorted, for every strict weak order |
| OrderedArrays.InsertedMultiset | ordered_array.c:35-56 | insertion adds one occurrence of the item to the multiset of elements and changes nothing else |
| OrderedArrays.RemoveAtMultiset | ordered_array.c:64-72 | removal takes away one occurrence of the removed element and nothing else |
| OrderedArrays.RemoveAtSorted | ordered_array.c:64-72 | removal leaves a sorted array sorted |
| Tiling.ChunkOf | kheap.h:17-28 | reading of the tiling part of the heap invariant: every heap address lies in exactly one chunk |
| HeapSpec.Search | kheap.c:121-150 | the search returns the first indexed hole that passes the (as written) test, and none before it passes |
| HeapSpec.Endmost | kheap.c:212-225 | the endmost loop returns the indexed header with the highest address, -1 exactly for an empty index |
| HeapInvariant.CarvedPlain | kheap.c:253-314 | splitting a hole for an unaligned request keeps the whole heap invariant (exact tiling, chunks of 20 bytes or more, no adjacent holes, index = hole headers once each) |
| HeapInvariant.CarvedAligned | kheap.c:265-311 | carving a page-aligned block keeps the invariant when front part, request and leftover fit |
| HeapInvariant.CarvedBlocks | kheap.c:285-314 | the carving adds one new block of at least the requested size and leaves every other block as it was |
| HeapInvariant.GrownKeepsInv | kheap.c:202-248 | growth that stays in the address space, with an endmost hole that abuts the end, keeps the invariant and every block, and leaves a hole of the added size or more at the new end |
| HeapInvariant.AllocKeepsInv | kheap.c:194-315 | the whole of alloc, growth and recursion included: the invariant is kept, exactly one block is new, all others are unchanged |
| HeapInvariant.MergedBounds | kheap.c:337-370 | the merged hole runs from boundary to boundary and meets no hole on either side |
| HeapInvariant.WithoutBlocks | kheap.c:317-403 | coalescing is complete: a heap without blocks is one hole, the only entry of the index |
| HeapInvariant.FreedKeepsInv | kheap.c:323-401 | free (with the footer rewrite announced at line 357) keeps the invariant when a contraction it triggers meets its condition |
| HeapInvariant.FreedBlocks | kheap.c:323-401 | free removes exactly the freed block; every other block keeps address and size |
| HeapMemory.EncodesSplice | kheap.c:285-311 | writing only inside a stretch of the heap, and leaving the tags of its new chunks there, leaves the tags of all chunks in memory |
| HeapWrites.HeaderOrder | kheap.c:152-155 | ordering holes by the size fields in memory is ordering them by the sizes of their chunks |
| HeapWrites.WriteHeader | kheap.c:287-289 | the three header fields are written and no byte outside the 12 bytes of the header |
| HeapWrites.WriteFooter | kheap.c:291-293 | both footer fields are written and no byte outside the 8 bytes of the footer |
| HeapWrites.WritePlain | kheap.c:258-311 | the writes of an unaligned alloc stay inside the chosen hole and leave the tags of exactly its new chunks |
| HeapWrites.WriteAligned | kheap.c:258-311 | the writes of an aligned alloc stay inside the chosen hole and leave the tags of front hole, block and rest |
| HeapWrites.CarvedMemory | kheap.c:253-314 | after these writes memory has the tags of the whole new heap, and no byte of any block or outside the heap has changed |
| HeapWrites.GrownMemory | kheap.c:228-248 | the same for the header and footer that growth writes |
| HeapWrites.LeftTest | kheap.c:337-341 | the footer test on the left is true exactly when the chunk on the left is a hole, and then finds its header |
| HeapWrites.RightTest | kheap.c:350-354 | the header test on the right is true exactly when the chunk on the right is a hole |
| HeapWrites.MergeLeft | kheap.c:323-348 | unify left leaves one hole, header and footer, over the block and the hole before it, and writes nothing outside |
| HeapWrites.MergeRight | kheap.c:350-370 | unify right enlarges the hole over its right neighbour and takes that neighbour out of the index; its footer names the merged header exactly if it is rewritten or nothing was merged |
| HeapWrites.FreedMemory | kheap.c:323-401 | after free memory has the tags of the whole new heap if the merged footer is right, and does not have them if it is stale and away from the end; no byte of another block changes |
| KernelHeap.KHeap.constructor | kheap.c:157-192 | create_heap leaves one hole behind the index array, indexed, with a header and no footer, and the heap invariant holds |
| KernelHeap.KHeap.FindSmallestHole | kheap.c:121-150 | the loop over the index, reading sizes from memory, returns the result of the search, -1 if there is none |
| KernelHeap.KHeap.Carve | kheap.c:253-314 | splitting on the byte memory and the array index does to both what the specification says, and changes no byte of a block |
| KernelHeap.KHeap.Expand | kheap.c:65-91 | both assertions and the rounding of odd sizes, in 32-bit arithmetic |
| KernelHeap.KHeap.FindEndmost | kheap.c:212-225 | the loop finds the header with the highest address |
| KernelHeap.KHeap.Grow | kheap.c:202-248 | growth on the byte memory refines the growth of the specification; it succeeds exactly if the new length is below 2^32 and the new end is not above the limit, and that is then the end |
| KernelHeap.KHeap.Alloc | kheap.c:194-315 | alloc on the byte memory refines the specification, terminates, keeps the invariant, is a step of the run theorems, and for unaligned requests stops at an assertion exactly under the plain condition of AllocPanicsExact |
| KernelHeap.KHeap.Contract | kheap.c:93-119 | the new length is HEAP_MIN_SIZE if bit 12 of the size is set or the size is below that, and else the size as it is |
| KernelHeap.KHeap.ContractAtEnd | kheap.c:372-397 | contraction shortens the merged hole in memory to the new end and writes nothing outside it |
| KernelHeap.KHeap.FreeBlock | kheap.c:323-401 | free on the byte memory does to chunks and index what the specification says; the tags in memory are right exactly if the footer is rewritten or does not go stale |
| KernelHeap.KHeap.Free | kheap.c:317-403 | the same with the null-pointer case: as written, the heap stays valid exactly when no hole is merged from the right away from the end; as meant, always |
| HeapSteps.FreeDoneStep | kheap.c:317-403 | such a free is a step of the run theorems exactly if it leaves no stale footer |
| HeapTheorems.AllocThenFree | kheap.c:194-315 | an unaligned alloc that does not grow the heap, freed at once without contraction, restores every chunk, hole flag and index member |
| HeapTheorems.RequestExact | kheap.c:197-263 | the block that alloc makes out of any hole that passes the size test, aligned or not, has room for the request if and only if adding the tag sizes did not wrap |
| HeapTheorems.GrowthSuffices | kheap.c:208-250 | after growth an unaligned request fits, even with the odd-only rounding |
| HeapTheorems.RecursesOnce | kheap.c:202-251 | for unaligned requests the recursion happens at most once; its condition is exactly that of this one growth |
| HeapTheorems.GrowthsBound | kheap.c:202-251 | for every request in a heap that stays below 2^31 bytes, the growths but one together add less than the request and the way to the next page, less what the end hole had |
| HeapTheorems.GrowsOnce | kheap.c:202-251 | so an aligned request at an even address grows the heap once at most, any other at most 2 + 4096/n times |
| HeapOutcomes.ExpandExact | kheap.c:65-90 | the heap can grow by a request exactly if the new length is below 2^32 and the end, padded to a page for odd lengths only, is not above the limit; that is then the new end |
| HeapOutcomes.AllocPanicsExact | kheap.c:194-251 | alloc for an unaligned request stops at an assertion if and only if every hole is smaller than the request with its tags and the heap can not grow by it, in plain arithmetic |
| HeapOutcomes.AlignedPanicsExact | kheap.c:194-251 | the same for an aligned request in a heap below 2^31 bytes: no hole has the bytes that the test asks for, and some growth goes over the limit before the end hole has them |
| HeapOutcomes.AllocEnd | kheap.c:202-251 | otherwise the heap grows exactly if no hole is large enough, by the request and the padding of odd lengths |
| HeapOutcomes.AllocTakes | kheap.c:200-254 | the block is at the first indexed hole that is large enough, or else at the hole that reaches the end, or at the old end if there is no hole |
| HeapOutcomes.AllocSplits | kheap.c:256-311 | what the block does not need of the bytes there stays a hole behind it if that is 20 or more, else the block takes it |
| HeapTheorems.GrowthExact | kheap.c:65-91 | growth keeps the invariant if and only if it stays in the address space and the endmost hole abuts the end or there is no hole |
| HeapTheorems.AlignedSplit | kheap.c:265-311 | an aligned block has its payload on a page; front hole, block and rest follow each other and add up to the hole |
| HeapTheorems.AlignedExact | kheap.c:265-311 | for every 32-bit request size, aligned carving keeps the invariant if and only if the position is at most 0xFE0 in its page, front part and request fit, and the leftover is 0 or 20 and more |
| HeapTheorems.AlignedPointer | kheap.c:194-315 | alloc answers an aligned request with a page-aligned pointer, also after any number of growths |
| HeapTheorems.AlignedTest | kheap.c:129-139 | what the aligned fit test decides, for all 32-bit sizes: way to the next page and request fit for odd payload addresses, only the request for even ones, and sizes from 2^31 on count as negative |
| HeapTheorems.Shrinks | kheap.c:372-397 | a contraction under its condition leaves exactly HEAP_MIN_SIZE bytes ending in one well-formed hole, all earlier chunks unchanged |
| HeapTheorems.ShrinkExact | kheap.c:93-119 | freeing at the end of the heap keeps the invariant if and only if the merged hole starts at most at HEAP_MIN_SIZE - 20 and a heap of HEAP_MIN_SIZE bytes ends below the limit; the new length is then HEAP_MIN_SIZE |
| HeapTheorems.ReadyInNumbers | kheap.c:93-311 | the conditions on free and on aligned carving in numbers: the merged hole at the end of a heap of 0x70000 bytes or more starts 20 bytes or more below 0x70000, and the front part with header and request leaves nothing or 20 bytes or more |
| HeapOrder.SearchFails | kheap.c:141-149 | for unaligned requests the search fails exactly when no hole is large enough |
| HeapOrder.SearchBestFit | kheap.c:121-150 | with a sorted index the hole found has the least sufficient size |
| HeapOrder.ResizedExact | kheap.c:241-248 | after the size in one indexed header is changed the index is sorted exactly if that size is neither before a smaller nor behind a larger one |
| HeapOrder.InsertSortedExact | ordered_array.c:35-56 | an insertion leaves the index sorted exactly if it was |
| HeapOrder.CarvedSorted | kheap.c:279-311 | an unaligned alloc from a hole leaves the index sorted, even if the carved hole was out of place |
| HeapOrder.CarvedSortedExact | kheap.c:265-311 | an aligned alloc from a hole keeps the index sorted exactly if the front hole is in place where the hole was |
| HeapOrder.GrownSortedExact | kheap.c:239-248 | growth keeps the index sorted exactly if the new size of the end hole is in place |
| HeapOrder.TakenAfterGrowth | kheap.c:202-251 | after growth only the end hole can fit |
| HeapOrder.AllocSortedExact | kheap.c:194-315 | the whole of alloc, growth and recursion included: an unaligned request always keeps the index sorted, an aligned one exactly if the front hole is in place where the hole was |
| HeapOrder.FreedSortedExact | kheap.c:337-401 | a free without a merge to the left keeps the index sorted; one with it does exactly if the merged size is in place where the left hole was |
| HeapSamples.ReachableValid | kheap.c:157-403 | every heap that allocs and repaired frees lead to from the kernel's fresh heap is valid, has the same start and limit, and is at least HEAP_MIN_SIZE long |
| HeapSamples.AlignedTestUnsound | kheap.c:129-139 | the hole of the fresh kernel heap passes the aligned test for a request that breaks the heap |
| HeapSamples.RequestUnsound | kheap.c:197-200 | on the fresh kernel heap, a request of ten bytes less than 2^32 wraps, passes the size test and breaks the heap |
| HeapSamples.SampleShrink | kheap.c:98-119 | two allocs on the fresh kernel heap, after which freeing the second block breaks the heap by contraction |
| HeapSamples.SampleReachable | kheap.c:194-403 | six allocs and two frees, on which the free as written and the repaired one agree, lead from the fresh kernel heap to the heap of the next three rows |
| HeapSamples.SampleGrowth | kheap.c:239-248 | growth breaks it, because its endmost hole is not at the end |
| HeapSamples.SampleStale | kheap.c:356-359 | freeing one of its blocks leaves a stale footer, as the source is written |
| HeapSamples.SampleUnsorted | kheap.c:342-348 | a free enlarges an indexed hole of it in place: the index is unsorted and the next search misses the best fit |
| HeapRuns.PayloadsDisjoint | kheap.c:314-314 | payloads of live pointers are pairwise disjoint and disjoint from every header and footer |
| HeapRuns.LiveInMemory | kheap.h:17-28 | around the payload of a live pointer memory holds its header and footer, byte position by byte position, with the magic number 0x123890AB |
| HeapRuns.RunGood | kheap.c:194-403 | over every run of allocs, frees, writes of owners and changes outside the heap, invariant and tags hold throughout |
| HeapCalls.Perform | kheap.c:194-403 | performing any list of calls on the heap in memory, with the footer rewritten or where it does not go stale, makes a run of the run theorems that ends in the heap's state; it stops early only at an assertion of expand or before a free that the words around the heap would mislead |
| HeapCalls.CallsKeepPayload | kheap.c:194-403 | such calls change no byte of a payload that is live from the start and that none of them frees |
| HeapRuns.AllocYields | kheap.c:194-315 | alloc returns a pointer that was not live, with at least the requested bytes, and on a page if that was asked for; all live pointers stay live |
| HeapRuns.StepKeepsPayload | kheap.c:194-403 | no step changes a byte of a payload unless it frees the block or is its owner's write |
| HeapRuns.RunKeepsPayload | kheap.c:194-403 | over every run a payload keeps its bytes and its size until its block is freed or written by its owner |
| HeapRuns.RunSortedExact | kheap.c:194-403 | along every run from a sorted index the index stays sorted exactly as long as no aligned alloc or left merge resizes a hole out of its place |
| HeapRuns.RunBestFit | kheap.c:121-150 | on every such run every unaligned search is a best fit |
| Frames.SetBit | paging.c:22-29 | or-ing the mask of a bit sets that bit and no other |
| Frames.ClearBit | paging.c:31-38 | and-ing the complement clears that bit and no other |
| Frames.MaskNumbers | paging.c:22-29 | the mask of bit 0 is 1 and each further one twice the one before, so bit k of a word is the k-th from the least significant one |
| Frames.FrameBitmap.SetFrame | paging.c:22-29 | adds exactly the frame of the address to the set of used frames |
| Frames.FrameBitmap.ClearFrame | paging.c:31-38 | removes exactly the frame of the address |
| Frames.FrameBitmap.TestFrame | paging.c:40-47 | tells whether the frame of the address is used |
| Frames.FrameBitmap.FirstFrame | paging.c:49-68 | the nested search returns the least free frame when there is one, and falls off its end otherwise |
| Frames.LeastFree | paging.c:49-68 | what least free means: unused, in range, and every smaller frame used |
| Frames.FrameBitmap.AllocFrame | paging.c:70-90 | a page without a frame gets the least free one and the flags; a page with one is left alone |
| Frames.FrameBitmap.FreeFrame | paging.c:92-105 | clears the frame field and, as written, the bit of frame/0x1000; as meant, the bit of the frame |
| FrameRuns.FramePool.AllocPage | paging.c:70-90 | alloc_frame on bitmap and pages is a step of the run theorems |
| FrameRuns.FramePool.FreePage | paging.c:92-105 | free_frame on bitmap and pages is a step of the run theorems |
| FrameRuns.NoSharing | paging.c:70-105 | over every run, as written with at most 0x1000 frames, or as meant, no frame other than 0 is held by two pages |
| FrameRuns.Sharing | paging.c:92-105 | as written with more than 0x1000 frames, some run does give one frame to two pages |
| FrameRuns.BitsAreHeldFrames | paging.c:70-105 | as meant and with frame 0 reserved, the set bits are exactly the held frames and frame 0, over every run |
| FrameRuns.BitsAsWritten | paging.c:70-105 | as written, for any number of frames, they are so exactly until the first page with a frame is freed |
| FrameRuns.NeverReused | paging.c:70-105 | as written with at most 0x1000 frames, a frame other than 0 whose bit is set is never handed out again |
| Bump.Placement.Kmalloc | kheap.c:24-36 | the bump branch, in 32-bit arithmetic; without a wrap it is the placement of the run theorems |
| Bump.RegionsAscend | kheap.c:24-36 | over every sequence of requests from the second page on, the regions are disjoint and ascend; aligned ones start on a page |
| Bump.Aligned | kheap.c:24-29 | an aligned request is page-aligned exactly from the second page on (or at 0) |
| Paging.EntriesDistinct | paging.c:172-195 | get_page gives the same entry for two pages of existing tables exactly when they are the same page |
| Paging.TranslateByPage | paging.c:172-195 | the two-level walk of the processor finds the entry that get_page returns |
| Paging.NewTable | paging.c:186-194 | a new table at or above the placement address changes no existing mapping and keeps the directory well formed |
| Paging.EntryWritten | paging.c:81-88 | writing one entry changes the mapping of that page only |
| Boot.PageSystem.constructor | paging.c:113-120 | after the first allocations no frame is used and no page is mapped |
| Boot.PageSystem.GetPage | paging.c:172-195 | returns the entry of the page, creates at most its one missing table at the placement address, and changes no mapping |
| Boot.PageSystem.AllocFrameAt | paging.c:70-90 | alloc_frame through a page entry changes that page only |
| Boot.PageSystem.MakeHeapTables | paging.c:127-129 | the first loop creates exactly the table of the initial heap and maps nothing |
| Boot.PageSystem.MapIdentity | paging.c:140-146 | the loop with the moving bound terminates (remaining distance plus 0x2000 for every missing table), maps every page below its bound to itself, and ends exactly at placement_address + 0x1000 |
| Boot.PageSystem.MapHeap | paging.c:148-150 | the third loop gives every page of the initial heap the next free frame |
| Boot.PageSystem.InitialisePaging | paging.c:107-150 | afterwards every address below placement_address + 0x1000, all page tables included, is translated to itself, the heap pages to the frames behind that, and no other address is translated; exactly these frames are used, and every table is entered with its flags |
| Boot.BootKernel | paging.c:107-150 | the same for the whole sequence from any start that leaves enough frames |
| Boot.StartTooHigh | paging.c:109-112 | for any higher start the frames do not suffice, so the bound on the start is exact |
| AtaDriver.ProgrammedFields | ide.c:440-456 | after the ordered writes the registers hold the address bytes; those written twice also hold the first writes |
| AtaDriver.DecodesLinear | ide.c:397-456 | whatever the registers held before, a device decodes LBA28 and LBA48 programming to exactly the address and count |
| AtaDriver.DecodesCHS | ide.c:419-456 | a device decodes CHS programming to the address modulo 65536 * 1008 |
| AtaDriver.MeantExactly | ide.c:397-456 | a device carries out what was meant if and only if the count is not 0 and the sectors are below the end of the disk and the limit of the mode |
| AtaDriver.OrderInNumbers | ide.c:397-456 | the order that a device gets, in numbers: LBA48 from 2^28 on, else LBA28 for drives that have it, else the address modulo 65536 * 1008 |
| AtaDriver.WritesInNumbers | ide.c:91-109 | all bytes written to ports for an order, with the ports and in order, for the three modes in numbers |
| AtaDriver.Channel.WriteRegister | ide.c:91-109 | registers 8 to 11 are second writes to the ports of 2 to 5, between two writes to the control port; register 7 starts the command; exactly these bytes go to these ports |
| AtaDriver.Channel.Programme | ide.c:440-456 | the method performs exactly these register writes |
| AtaDriver.Channel.Command | ide.c:395-471 | after the command the device is transferring the order, or has refused it if it is out of range; the device register has its LBA bit exactly from 2^28 on or for drives that have LBA; the port writes are those of WritesInNumbers |
| AtaDriver.Channel.ReceiveSector | ide.c:485-491 | 256 words put one sector into the buffer, in order, and touch nothing else |
| AtaDriver.Channel.SendSector | ide.c:494-502 | 256 words make one sector of the disk out of the buffer |
| AtaDriver.Channel.AccessRead | ide.c:385-509 | the sectors of the order that the device gets arrive in order, 512 * count bytes, and the device is ready; a refused order is reported and changes nothing; a count of 0 leaves the device waiting |
| AtaDriver.Channel.AccessWrite | ide.c:385-509 | the disk becomes the old one with exactly these sectors replaced, and a cache flush fit for the mode follows; a refused order changes nothing and is not reported |
| AtaDriver.Channel.ReadSectors | ide.c:521-543 | -1 exactly for missing drives, -2 exactly if the wrapped end lies behind the disk; otherwise the buffer gets, byte by byte, the sectors from lba on (modulo 65536 * 1008 below 2^28 without LBA) if they end at most at the end of the disk and at the limit of the mode, and if not, 2 is returned and the buffer stays; a count of 0 does nothing and returns 0 |
| AtaDriver.Channel.WriteSectors | ide.c:546-564 | the same for writing: exactly these sectors are replaced by the consecutive parts of the data, and no other sector of either disk, or none at all; 0 is returned either way |
| AtaDriver.WrittenSectors | ide.c:494-506 | a write replaces exactly the addressed sectors by the consecutive parts of the data; all other sectors are unchanged |
| AtaDriver.WriteThenRead | ide.c:479-506 | reading what was written returns the data |
| Console.Monitor.Clear | monitor.c:114-130 | after monitor_clear the screen shows the empty terminal |
| Console.Monitor.Scroll | monitor.c:21-48 | scrolling moves the window down by one terminal row and blanks the row that comes in |
| Console.Monitor.PutChar | monitor.c:51-111 | one character keeps the screen equal to the window of 25 rows on the terminal that never scrolls; where the cursor goes, which cell changes and how the screen scrolls is also stated on the 2000 cells themselves |
| Console.Monitor.Write | monitor.c:133-140 | the same for every string up to its terminating zero |
| ConsoleText.PrintRun | monitor.c:90-104 | printable characters stand next to each other from the cursor on and go on in column 0 of the next row; all other cells stay |
| ConsoleText.LinesInRows | monitor.c:84-104 | after monitor_clear, lines of at most 79 characters with newlines between them stand in the rows, one each, from column 0 on and blank behind |
| ConsoleText.LinesOnScreen | monitor.c:21-140 | the last 25 of them stand on the screen, cell by cell |
| ConsoleText.NewlineAndReturn | monitor.c:78-88 | a newline goes to column 0 of the next row, a carriage return to column 0 of the same row |
| ConsoleText.TabStops | monitor.c:71-76 | a tab goes to the least multiple of 8 to the right, or to column 0 of the next row if that is 80 |
| ConsoleText.Backspaces | monitor.c:65-69 | a backspace goes one column to the left if there is one and erases nothing; the next character overwrites |
| ConsoleText.OthersIgnored | monitor.c:65-98 | other characters below the space do nothing |
| Console.ScrolledWindow | monitor.c:29-46 | the copied and blanked rows are the next window of the terminal |
| Console.Monitor.WriteDec | monitor.c:183-212 | the screen receives the decimal text of the number |
| Console.DecimalDigits | monitor.c:192-209 | the two digit buffers end up with the text and never take more than ten digits |
| Console.DecimalRoundTrip | monitor.c:183-212 | the text parses back to the number exactly below 2^31; it is canonical and has at most ten digits; above, nothing is printed |
| Console.Monitor.WriteHex | monitor.c:142-181 | the screen receives the prefix and the hexadecimal text of the number |
| Console.HexRoundTrip | monitor.c:142-181 | for every 32-bit number the text starts with 0x; the rest is canonical, has at most eight digits and parses back to the number |
| Numerals.NumeralValue | monitor.c:142-212 | the numeral of a number has no leading zero and parses back to it |
| Numerals.NumeralUnique | monitor.c:142-212 | no other digit string without a leading zero parses to the same number |
| Numerals.DecimalDigit | monitor.c:192-200 | the i-th character from the end of a decimal numeral is the ASCII digit n / 10^i mod 10 |
| Numerals.HexDigit | monitor.c:142-181 | the i-th character from the end of a hexadecimal numeral is the digit n / 16^i mod 16 as 0 to 9 or a to f in ASCII |
| FatTable.EntryOfPack | tools/fat/fat.c:128-132 | decoding at c*3/2 with mask or shift returns entry c of any packed sequence of 12-bit values |
| FatTable.EntryOfPatched | tools/fat/fat.c:128-132 | changing one packed entry never changes the decoded value of another |
| FatTable.PatchedPack | tools/fat/fat.c:128-132 | changing an entry of a packed table gives the packed table of the changed sequence |
| FatTable.PackedBytes | tools/fat/fat.c:128-132 | the packing is that of the FAT specification, byte by byte: three bytes for every two entries |
| FatReader.ClustersDisjoint | tools/fat/fat.c:124-126 | distinct clusters occupy disjoint sectors and bytes, all at or behind the end of the root directory |
| FatReader.RootSectorsLeast | tools/fat/fat.c:95-98 | the rounding up yields the least number of sectors that holds all entries |
| FatReader.TraceFollows | tools/fat/fat.c:123-134 | the clusters that readFile comes to follow the table up to an end marker or an unreadable cluster, and none comes twice |
| FatReader.StopsExactly | tools/fat/fat.c:123-134 | the loop comes to an end within the table if and only if the walk along the table ever comes to an end marker or an unreadable cluster |
| FatReader.FailsExactly | tools/fat/fat.c:123-136 | readFile returns false if and only if the walk comes to a cluster that the image does not hold before an end marker |
| FatReader.UsableFile | tools/fat/fat.c:118-137 | on an image of up to 4 GB, a file all of whose clusters are data clusters inside the image is read, and the output is their contents in order |
| FatReader.Reader.ReadSectors | tools/fat/fat.c:76-82 | succeeds exactly if the image holds all the bytes from lba * sector size modulo 2^32 on, and then returns exactly these |
| FatReader.Reader.ReadFat | tools/fat/fat.c:85-89 | succeeds exactly if the image holds the sectors behind the reserved ones, and the table is then these bytes |
| FatReader.Reader.ReadRootDirectory | tools/fat/fat.c:92-103 | the root directory is the sectors behind the tables, as many as 32 bytes for every entry need, rounded up; its end is where the clusters start |
| FatReader.Reader.FindFile | tools/fat/fat.c:106-115 | in a directory of 32-byte entries, finds the first one whose first 11 bytes are the name, or none if there is none |
| FatReader.Reader.ReadCluster | tools/fat/fat.c:123-132 | the bytes of a cluster, from (root end + (c - 2) * sectors per cluster) * sector size on with both products modulo 2^32, and the 12 bits of the table that name the next one |
| FatReader.Reader.ReadFile | tools/fat/fat.c:118-137 | terminates (measure: unvisited clusters), returns true exactly if the last cluster it comes to is readable, and outputs the readable clusters concatenated in order; for a chain in a packed table that ends with an entry of 0xFF8 or more, the output is the bytes of its clusters, at root end plus (c - 2) times the cluster size |
| FatReader.ChainStops | tools/fat/fat.c:123-134 | the loop comes to an end for every such chain |
| FatReader.StoreThenRead | tools/fat/fat.c:118-137 | data laid out over the clusters of a chain is read back unchanged, and no other cluster is affected |
| Afs.FillHeaders | tools/initrd/initrdcreator.c:17-35 | every file up to the count gets a header with its name, its length and, as offset, the prefix sum of the lengths before it; the bytes behind the name and the other headers keep their contents |
| Afs.WriteImage | tools/initrd/initrdcreator.c:37-50 | the image is the count, as a 32-bit word, the 64 headers and the data of the files up to the count, in order |
| Afs.CreateImage | tools/initrd/initrdcreator.c:11-58 | for every list of files main writes the image with the count that argc yields, the number of files modulo 128 as a signed number; the data of the files up to that count start at byte 4868; this is an image of the files if and only if there are at most 63 |
| Afs.DataAt | tools/initrd/initrdcreator.c:42-50 | the data of a file starts at the prefix sum of the lengths before it |
| Afs.ImageHolds | tools/initrd/initrdcreator.c:17-50 | header i stands at 4 + 76 * i, byte by byte: 0xBF, the name with a zero behind it, offset and length from byte 68 on, least significant byte first; the reader finds them there, and the data of the file where they say |
| Afs.DiskRead | vfs.c:12-23 | the slice that disk_read promises, clamped as its wrapping test decides, arrives at the start of the buffer, and the rest of the buffer stays |
| Afs.CopyBytes | vfs.c:21-21 | memcpy copies exactly these bytes, in order, and touches nothing else |
| Afs.ReadCountExact | vfs.c:15-19 | the clamping is right if and only if offset + size does not wrap, or the offset is behind the file; if it wraps, the whole size is transferred |
| Afs.ReadsFile | vfs.c:12-23 | reading file i of an image yields exactly the clamped slice of its data |
| Afs.ReadAllRebuilds | vfs.c:12-23 | successive reads of any positive chunk size rebuild the file |
| Afs.HeaderCountExact | tools/initrd/initrdcreator.c:11-14 | because argc is a char, the count of headers is the number of files modulo 128 as a signed number: right exactly up to 63 files, and -64 for 64 |

## Left out

- KernelHeap.KHeap.Expand: the mapping of the new pages; the model moves the end address only.
- KernelHeap.KHeap.Alloc: it assumes that the page tables for the new range exist. When growth enters a range of 4 MB without one, which after the boot is so from 0xC0400000 on, get_page calls kmalloc_ap, this calls alloc on the same heap, and if no hole fits that request either the calls never end. After a failed assertion of expand the kernel stops, so nothing is said about the heap then.
- KernelHeap.KHeap.Contract: the release of the page frames; the model moves the end address only.
- The place of the hole index inside the memory below the heap: it is an array of its own, so aliasing between index and heap bytes is not modelled.
- KernelHeap.KHeap.Free: contraction of a heap shorter than HEAP_MIN_SIZE on the byte memory, where the source writes to pages that are not mapped; aligned alloc, growth and contraction outside the other conditions break the chunks, as the exact conditions of HeapTheorems say, and are preconditions on the byte memory.
- Boot.PageSystem.constructor: the source reserves and clears nframes/32 bytes for the bitmap and uses four times as many; the model clears all of them.
- The heap branch of kmalloc_int (kheap.c:12-21): its physical address expression does not parse as intended.
- Boot.PageSystem.InitialisePaging: the switch to the directory, the page fault handler and the creation of the heap at its end are left out.
- AtaDriver.Channel.Polling: the device is never busy, so the waiting loops of ide_polling do not appear.
- AtaDriver.Channel.ReadSectors: only ATA drives below the array bound of five; error numbers are not translated by ide_print_error.
- ide_init, identification, DMA, ATAPI drives and interrupts: device discovery and paths that the driver never takes.
- The hardware cursor of monitor.c (move_cursor): port writes without effect on the buffer.
- FatReader.Reader.ReadFile: the output buffer is assumed large enough for whole clusters; clusters without an entry in the table, where the source reads past its buffer, and chains that run in circles are excluded; of a cluster that can not be read, the sectors that still are do not appear in the output.
- Boot sector parsing and printing in tools/fat/fat.c, and host file access in both tools: files are byte sequences.
- Afs.DiskRead: the image starts at address 0, because initialise_disk, which would set the addresses, is empty.
- Directory lookup in vfs.c, dispatch in fs.c, main.c, tools/initrd/viewinitrd.c, timers, interrupts, descriptor tables and assembly: thin wrappers, tables or display code.
