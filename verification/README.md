# SlayerOS kernel: a verified model

A Dafny 4.11 model of the stateful cores of the SlayerOS kernel, with proofs. `dafny verify dfyconfig.toml`
verifies all of it. Each core that works on pointers is modelled twice: as the code runs, with fields, links and
memory written in place, and as functions on plain values; the methods are proved equal to the functions, and the
laws are proved about the functions.

- **Frames.dfy**: the frame allocator, a bitmap with a moving cursor.
- **SharedFrames.dfy**: page tables, heap and interrupt stacks on the same allocator.
- **PageTables.dfy, Translation.dfy, Ranges.dfy, Paging.dfy**: four-level page tables in physical memory, the
  hardware's walk and its translation caches (sections 4.5, 4.6 and 4.10 of the Intel SDM, volume 3A), ranges of pages,
  and the pager object itself.
- **Mapper.dfy, ImageBytes.dfy**: the tables built at boot from the memory map and the kernel image, page by page and
  byte by byte.
- **HeapModel.dfy, HeapRuns.dfy, Heap.dfy, HeapFrames.dfy, HeapGrants.dfy**: the kernel heap as lists, over runs, as
  linked headers in memory, and on top of the frame allocator, grant by grant and over runs.
- **TaskRing.dfy, Scheduler.dfy**: the task ring as a list and as a circular doubly linked list.
- **Demangler.dfy, DemangleBuffers.dfy, Substitutions.dfy**: symbol names (section 5.1, External Names, of the Itanium
  C++ ABI) as text, on the source's own buffers, and with the codes it misreads.
- **Symbols.dfy, Timer.dfy**: the symbol table, and the local APIC timer's arithmetic.
- **Bits.dfy, Options.dfy**: bitwise operators on naturals, and the missing value.

The page tables are described by a map from tree nodes to frames (`Tree`). It says that no two tables share a frame,
that every entry above the leaves is zero or exactly a table's frame address with PRESENT and WRITE, so that every
table is selected by exactly one entry (`SelectedOnce`). `map` and `unmap` keep it, and from it the walk of every page
is the entry that a flat map would hold. A machine is `Sound` when some tree describes it and its caches agree.

Where the code does less than it seems meant to do, the model follows the code and proves the exact law:

- `allocs` counts an occupied frame as the first of its run and moves the cursor by one only. What it returns was free
  exactly when the frames from the cursor on were free (`AllocsLaw`), and two calls in a row overlap exactly when the
  first asked for more than one frame (`AllocsTwiceOverlaps`), against the comment at
  src/kernel/mem/frames/frames.cc:46. So each of the seven interrupt stacks starts on the last frame of the one before
  (`EqualBlocksOverlap`), and the heap's pages are pairwise apart exactly when every page but the last has one frame
  (`PagesApartExactly`); the heap is safe on its real supplier then (`SuppliedRunIsSafe`).
- A block lands on a page table in some run exactly when the table lies at or above the cursor (`BelowCursorExactly`).
  From `init` on all tables lie below it, so other clients never touch them (`ClientsNeverTouchTables`). Freeing a frame
  moves the cursor down to it: that is safe exactly when every table lies below the frame and no other client was handed
  it too (`ReleaseExactly`). A client that frees the last frame of the last interrupt stack and takes two is handed the
  top table (`StackFreedErasesTables`).
- A freed frame below the cursor can become unreachable (`FreedFrameOutOfReach`).
- `map_range` maps the pages up to the size rounded up (`RangeTranslation`) but returns the size rounded down, in 32
  bits: the count is right exactly for whole pages below 2^44 bytes (`CountIsExact`).
- A byte mapped by `map_mmio` is reached through the returned pointer exactly when its address is below 2^52
  (`MmioBytes`), a size so large that its rounding wraps maps at most one page (`MmioSizeWraps`), and a region of no
  bytes at an unaligned address maps a page all the same (`MmioEmpty`).
- `map` does not check for exhaustion. A run of it succeeds exactly when the allocator has a frame for each table that is
  missing on the paths of its pages (`RunSucceeds`); for `full_map` these are the paths of the image's and the direct
  map's pages (`FullMapNeeds`, `FullMapSucceeds`).
- The pages mapped with the USER flag are not accessible to user mode, because no table entry above the leaf carries
  it (`SoundRights`).
- `kmalloc` returns exactly for sizes below 2^32 (`KmallocLaw`): the segment size goes through a 32-bit field.
- `kfree` finds blocks of the first heap page only (`KfreeSucceedsExactly`), and the stored free-byte count gains a
  header per split (`RunIsAccounted`).
- A request of 4033 bytes or more gets a page with not a free byte left, although its last frame is rarely full
  (`GrownPage`).
- `cleanup_terminated` stops after removing a terminated head (`CleanupLaw`, `CleanupDrains`).
- A task that ends itself hands over to the next runnable task exactly when that is not its immediate successor or no
  third task is runnable (`KilledHandsOver`, for an ended head and for rings without other terminated tasks). With
  other terminated tasks it is as if they had been cleaned up before, behind a live head (`KilledAmongTerminated`), and
  behind a terminated head it always hands over (`KilledBehindDeadHead`). When the successor is the only runnable task
  it becomes current without being activated.
- A sleeping task is woken by one thing only: `start_scheduler` when it is the head and no task is runnable
  (`StartWakes`). It sleeps through a run if and only if the run has no such call and spawns no task with its id
  (`SleepersNeverRun`).
- A nested name with fewer than two parts keeps a trailing `::` (`UnmangleNested`).
- Demangling stays inside the source's buffers exactly when the text has at most 128 characters and each type's text
  fewer than 16 (`NestedFits`, `PlainFits`), and writes no terminator: the text reads back as a C string exactly when the
  memory behind it was zero (`ReadsBack`).
- A substitution repeats a type exactly when it has no const in it and is not `long long` (`RepeatsWhole`), `S_` and
  `S0_` mean the same (`FirstTwoAlike`), and a class type loses the character behind it, so that one at the end of the
  name makes the source read on past the end (`ClassTypeSkips`, `ClassTypeOverruns`, `NestedClassTypeOverruns`). A code
  that the loop does not know prints all the codes from there on, which are then read once more (`UnknownCodePrintsRest`).

## Model

| member | source | states |
|---|---|---|
| `Frames.NextFree` | src/kernel/mem/frames/frames.cc:11-13 | the search returns the least free frame at or above the cursor, or the end exactly when there is none |
| `Frames.AllocSpec` | src/kernel/mem/frames/frames.cc:10-22 | an allocated frame was free and is the only one marked; null means every frame from the cursor on is taken; the cursor stays in range |
| `Frames.AllocCounts` | src/kernel/mem/frames/frames.cc:10-22 | allocation succeeds if and only if a frame at or above the cursor is free, and uses up exactly one |
| `Frames.AddressRoundTrip` | src/kernel/mem/frames/frames.cc:18-53 | address-to-index inverts index-to-address if and only if the index is below 2^20 |
| `Frames.AllocsLaw` | src/kernel/mem/frames/frames.cc:25-50 | `allocs` succeeds exactly when an acceptable run exists, takes the first one, marks exactly it, and what it hands out was all free if and only if `count` frames from the cursor were free |
| `Frames.AllocsOfNone` | src/kernel/mem/frames/frames.cc:25-50 | a call for no frames marks nothing, answers with the last occupied frame from the cursor on, or the cursor, and moves the cursor |
| `Frames.AllocsTwiceOverlaps` | src/kernel/mem/frames/frames.cc:25-50 | with plenty of free frames, two calls in a row overlap if and only if the first asked for more than one frame, and where the second block starts |
| `Frames.EqualBlocksOverlap` | src/kernel/cpu/tss/tss.cc:57-59 | of any number of calls for c > 1 frames each, with free frames behind the cursor L, the i-th block starts at L + i(c - 1), on the last frame of the one before |
| `Frames.RunExclusive` | src/kernel/mem/frames/frames.cc:10-56 | from any bitmap, over every run of allocations, clean block allocations and frees of outstanding frames, no frame is outstanding twice and the next allocation returns none that is out |
| `Frames.UncleanHandsOutTwice` | src/kernel/mem/frames/frames.cc:29-45 | when every occupied frame is outstanding, a successful `allocs` that is not clean hands out a frame for the second time |
| `Frames.FreedFrameOutOfReach` | src/kernel/mem/frames/frames.cc:10-56 | freeing a frame and then a higher one leaves the lower one free but unreachable once the higher ones are taken |
| `Frames.FrameAllocator.Alloc` | src/kernel/mem/frames/frames.cc:10-22 | the scanning loop on the bitmap array computes the allocation step and the frame's address, null when there is none |
| `Frames.FrameAllocator.Allocs` | src/kernel/mem/frames/frames.cc:25-50 | the two loops on the bitmap array compute the block-allocation step and the address, for every count; the cursor leaves the bitmap exactly for a count of 0 at its end |
| `Frames.FrameAllocator.Free` | src/kernel/mem/frames/frames.cc:52-56 | clears the frame's flag and moves the cursor to it |
| `PageTables.Present` | src/include/mem/paging.h:14-14 | the PRESENT mask tests the lowest bit |
| `PageTables.PteAddress` | src/kernel/mem/paging/paging.cc:5-5 | the mask keeps exactly bits 12 to 47 of an entry |
| `PageTables.Index` | src/kernel/mem/paging/paging.cc:35-38 | shifting and masking gives a digit of base 512 |
| `PageTables.IndicesOfAddress` | src/kernel/mem/paging/paging.cc:35-38 | the four table indices are the four digits of the page number, bits 12 to 47 |
| `PageTables.TableEntry` | src/kernel/mem/paging/paging.cc:44-44 | the entry for a new table is its frame address with exactly PRESENT and WRITE |
| `PageTables.EntryLeadsToTable` | src/kernel/mem/paging/paging.cc:39-60 | a table entry leads the kernel's masking and the hardware's to the same table and grants write and execute, not user |
| `PageTables.TableIsSelected` | src/kernel/mem/paging/paging.cc:39-60 | every table but the root is selected by a present entry of its parent |
| `PageTables.SelectedOnce` | src/kernel/mem/paging/paging.cc:39-60 | two present entries above the leaves with the same address are the same entry of the same table |
| `PageTables.DescendKeepsTree` | src/kernel/mem/paging/paging.cc:39-45 | one level of `map` keeps the tree, changes no leaf, and takes one fresh zeroed frame exactly when the table was missing |
| `PageTables.SetLeafKeepsTree` | src/kernel/mem/paging/paging.cc:61-62 | writing a leaf keeps the tree and changes that page's leaf only |
| `PageTables.WalkReadsLeaf` | src/kernel/mem/paging/paging.cc:32-64 | in every tree the hardware's four-level walk of a page reads that page's leaf |
| `PageTables.LeafDecidesRights` | src/kernel/mem/paging/paging.cc:44-60 | rights combined over the levels are the leaf's for write and execute, and never user |
| `Translation.MapSetsLeaf` | src/kernel/mem/paging/paging.cc:32-64 | `map` succeeds if and only if the missing tables' frames are available, takes exactly those (at most three), sets exactly that page to the address or-ed with the flags, and flushes exactly when the old leaf was present |
| `Translation.UnmapClearsLeaf` | src/kernel/mem/paging/paging.cc:73-100 | `unmap` clears exactly that page, takes no frame, and leaves everything alone when the page has no table |
| `Translation.CachedWalkReadsLeaf` | src/kernel/mem/paging/paging.cc:9-11 | a walk started from a cached table entry gives what the walk from the top gives |
| `Translation.RunRefinesFlatMap` | src/kernel/mem/paging/paging.cc:32-100 | over every run of `map`, `unmap` and hardware fills from a sound state, the walk of each page is the flat map's entry: the last operation on the page decides |
| `Translation.RunNeverStale` | src/kernel/mem/paging/paging.cc:61-99 | over every such run the processor's translation, from TLB, cached tables or memory, equals the current walk |
| `Translation.SoundRights` | src/kernel/mem/paging/paging.cc:44-62 | in every sound state the leaf alone decides effective write and execute, and user mode has no access |
| `Translation.MapAgain` | src/kernel/mem/paging/paging.cc:32-64 | mapping a page to the entry it has changes neither memory nor allocator, and flushes |
| `Translation.InitSound` | src/kernel/mem/paging/paging.cc:102-104 | the fresh cleared top table is a sound state in which no page is mapped |
| `Translation.ReachableIsSound` | src/kernel/mem/paging/paging.cc:32-104 | every state that a run from the initial state ends in is sound |
| `Translation.RunSucceeds` | src/kernel/mem/paging/paging.cc:32-64 | a run succeeds if and only if the allocator has a frame for each table that is missing on the paths of its pages, each counted once, and it then takes exactly those |
| `Translation.NeededAre` | src/kernel/mem/paging/paging.cc:35-60 | the tables a run goes through are those on the paths of the pages it maps |
| `Ranges.RangeFlat` | src/kernel/mem/paging/paging.cc:66-71 | the closed form of a range: n pages counted round the page numbers get consecutive frames, others keep their entry |
| `Ranges.RangeFits` | src/kernel/mem/paging/paging.cc:66-71 | a range that maps without running out of frames is never longer than the address space (tables need frames of their own) |
| `Ranges.RangeTranslation` | src/kernel/mem/paging/paging.cc:66-71 | `map_range` maps exactly ceil(size / 4096) consecutive pages, for every size, and frames all others |
| `Ranges.CountIsExact` | src/kernel/mem/paging/paging.cc:70-70 | the returned count is the number of pages mapped if and only if the size is a multiple of 4096 below 2^44 |
| `Ranges.MmioFlagsValue` | src/kernel/mem/paging/paging.cc:118-118 | the flag word is the union of PRESENT, WRITE and UNCACHE |
| `Ranges.MmioBytes` | src/kernel/mem/paging/paging.cc:110-122 | for every address, every size whose rounding does not wrap and every k below it, the returned pointer plus k translates to `phys_addr + k` with exactly PRESENT, WRITE and UNCACHE if and only if that address is below 2^52 |
| `Ranges.MmioPointerIs` | src/kernel/mem/paging/paging.cc:116-121 | the returned pointer is the direct-map address of the region |
| `Ranges.MmioOtherPages` | src/kernel/mem/paging/paging.cc:110-122 | a page that no byte of the region lies on keeps its entry |
| `Ranges.MmioEmpty` | src/kernel/mem/paging/paging.cc:110-122 | a region of no bytes changes nothing at an aligned address, and exactly the page of any other |
| `Ranges.MmioSizeWraps` | src/kernel/mem/paging/paging.cc:114-114 | when the 64-bit rounding of the size wraps, at most one page is mapped |
| `Paging.Pager.constructor` | src/kernel/mem/paging/paging.cc:102-104 | takes and clears a frame for the top table; the state is sound and maps nothing |
| `Paging.Pager.NextTable` | src/kernel/mem/paging/paging.cc:39-45 | one level through virtual pointers computes the step on physical memory, or finds no frame exactly when that step fails |
| `Paging.Pager.Map` | src/kernel/mem/paging/paging.cc:32-64 | the method computes the `map` step, and meets a null table exactly when that step has no frame |
| `Paging.Pager.Unmap` | src/kernel/mem/paging/paging.cc:73-100 | the method computes the `unmap` step |
| `Paging.Pager.MapRange` | src/kernel/mem/paging/paging.cc:66-71 | for every size the loop performs the range's `map` steps in order and returns the size rounded down, modulo 2^32, or stops exactly when frames run out; its 64-bit counter never wraps |
| `Paging.Pager.MapMmio` | src/kernel/mem/paging/paging.cc:110-122 | aligns, maps and returns the pointer that `MmioBytes` speaks of, for every address and size |
| `Mapper.FlagValues` | src/kernel/mem/map/mapper.cc:22-28 | the flag words are the unions of flags the source writes |
| `Mapper.KindFlat` | src/kernel/mem/map/mapper.cc:32-88 | a memory-map loop maps exactly the whole pages of entries of its kind at the direct-map offset |
| `Mapper.KernelFlat` | src/kernel/mem/map/mapper.cc:10-30 | the three section loops map exactly the image's pages to their shifted frames |
| `Mapper.FullMapExact` | src/kernel/mem/map/mapper.cc:92-98 | after `full_map` each page is its image page, else its direct-map page of usable, reclaimable or framebuffer memory, else as before |
| `ImageBytes.SectionHasBytes` | src/kernel/mem/map/mapper.cc:14-29 | a section is mapped exactly on the pages that hold a byte of it |
| `ImageBytes.ImageBytesMapped` | src/kernel/mem/map/mapper.cc:10-30 | after `full_map` each byte of the image is found at its load address, code executable only, data writable only, constants neither, and nothing for user mode, unless a later section takes the page |
| `ImageBytes.MemoryBytesMapped` | src/kernel/mem/map/mapper.cc:32-88 | each byte of usable, reclaimable and framebuffer memory, on whole pages of it, is found at its direct-map address, writable and executable, unless the image takes the page |
| `ImageBytes.OtherPagesUntouched` | src/kernel/mem/map/mapper.cc:92-98 | a page that holds none of these keeps its entry |
| `Mapper.OnlyThesePagesMapped` | src/kernel/mem/paging/paging.cc:102-105 | from the fresh top table on, a page is mapped after `full_map` if and only if it belongs to the image or to the direct map |
| `Mapper.FullMapNeeds` | src/kernel/mem/map/mapper.cc:92-98 | the tables that `full_map` goes through are those on the paths of the image's and the direct map's pages |
| `Mapper.FullMapSucceeds` | src/kernel/mem/map/mapper.cc:92-98 | from the fresh top table, `full_map` succeeds if and only if the allocator has a frame for each of these tables |
| `Mapper.ImageNeverWritableAndExecutable` | src/kernel/mem/map/mapper.cc:21-29 | no page of the kernel image is both writable and executable under the rights combined from all levels |
| `Mapper.SecondPassChangesNothing` | src/kernel/mem/map/mapper.cc:47-60 | `map_hhdm_memory` after `map_found_memory` changes neither tables nor allocator |
| `Mapper.MapKind` | src/kernel/mem/map/mapper.cc:62-74 | the nested loops perform the kind's `map` steps in order, or stop exactly when frames run out |
| `Mapper.MapKernelCode` | src/kernel/mem/map/mapper.cc:10-30 | the three loops perform the image's `map` steps in order, or stop exactly when frames run out |
| `Mapper.FullMap` | src/kernel/mem/map/mapper.cc:92-98 | the five passes perform the steps that `FullMapExact` speaks of, or stop exactly when frames run out |
| `HeapModel.FirstFit` | src/kernel/mem/heap/heap.cc:75-81 | the first free segment that is large enough, and none before it is |
| `HeapModel.FirstPage` | src/kernel/mem/heap/heap.cc:73-84 | the first page that has one, and no page before it has |
| `HeapModel.NewPageFits` | src/kernel/mem/heap/heap.cc:6-43 | a fresh page holds the request if and only if the size is below 2^32, and is then tiled inside its frames |
| `HeapModel.NewPageIs` | src/kernel/mem/heap/heap.cc:6-43 | a fresh page is one free segment of the size asked for, or of 4032 bytes if that is more, on the least number of frames that hold it and both headers |
| `HeapModel.AllocKeepsTiling` | src/kernel/mem/heap/heap.cc:45-60 | allocation, with or without a split, keeps headers and payloads tiling the page to the same end |
| `HeapModel.FreeKeepsTiling` | src/kernel/mem/heap/heap.cc:62-98 | freeing, with or without a merge, keeps the tiling to the same end |
| `HeapModel.KmallocLaw` | src/kernel/mem/heap/heap.cc:71-87 | below 2^32: at most one new page, only when nothing fits, and the first fit in page-then-segment order; from 2^32 on: never returns |
| `HeapModel.GrownPage` | src/kernel/mem/heap/heap.cc:45-87 | what a request leaves of a page made for it: block and free rest below 4000 bytes, one block without a free byte from there on, of exactly the size above 4032 |
| `HeapModel.KfreeSucceedsExactly` | src/kernel/mem/heap/heap.cc:89-105 | `kfree` succeeds if and only if the address is a payload start of the first page, and changes nothing otherwise |
| `HeapModel.FreeUndoesMalloc` | src/kernel/mem/heap/heap.cc:45-105 | freeing at once restores the first page's segment list if and only if the call split a segment or the next one was not free; the count gains a header on a split |
| `HeapModel.AllocKeepsAccount` | src/kernel/mem/heap/heap.cc:45-60 | allocation keeps the count equal to free payload plus a header per split, modulo 2^32 |
| `HeapModel.FreeKeepsAccount` | src/kernel/mem/heap/heap.cc:62-98 | freeing a block in use keeps it too |
| `HeapModel.TilesCoverPage` | src/kernel/mem/heap/heap.cc:6-69 | the headers and payloads of a chain add up to its extent |
| `HeapRuns.MallocIsFresh` | src/kernel/mem/heap/heap.cc:71-87 | `kmalloc` never returns the address of a block that is still live |
| `HeapRuns.RunIsSafe` | src/kernel/mem/heap/heap.cc:71-105 | over every run that frees live blocks only, pages are tiled and apart, live blocks are segments in use with the size they were handed out with, pairwise disjoint and inside granted frames, and no further request is answered with a live address |
| `HeapRuns.RunKeepsBlocks` | src/kernel/mem/heap/heap.cc:71-105 | a live block that no operation of a run frees is live after it, at its address and with its size |
| `HeapRuns.RunIsAccounted` | src/kernel/mem/heap/heap.cc:9-98 | over every such run each page's stored count is its free payload plus 32 bytes per split, modulo 2^32 |
| `HeapRuns.RunConservesBytes` | src/kernel/mem/heap/heap.cc:45-69 | over every such run a page's payloads and segment headers keep their total |
| `HeapRuns.MallocServes` | src/kernel/mem/heap/heap.cc:45-60 | a block has at least the requested size and at most 32 bytes more |
| `Heap.SplitLinks` | src/kernel/mem/heap/heap.cc:46-56 | writing the fragment's header links it in behind its segment and breaks no other link |
| `Heap.MergeLinks` | src/kernel/mem/heap/heap.cc:62-69 | the merge drops the successor's header from the links and breaks no other link |
| `Heap.KernelHeap.AllocSegment` | src/kernel/mem/heap/heap.cc:45-60 | the writes to memory compute the allocation on the list and keep every page's links |
| `Heap.KernelHeap.TrySegmentMerge` | src/kernel/mem/heap/heap.cc:62-69 | the writes to memory compute the merge on the list |
| `Heap.KernelHeap.CreateHeapPage` | src/kernel/mem/heap/heap.cc:6-43 | writes the two headers of a page of its own, with the stored 32-bit size |
| `Heap.KernelHeap.SearchPages` | src/kernel/mem/heap/heap.cc:73-84 | following the links finds the first fit, or the last page |
| `Heap.KernelHeap.Kmalloc` | src/kernel/mem/heap/heap.cc:71-87 | the recursive method computes the list's `kmalloc` and keeps the memory linked, and fails exactly when nothing fits and nothing is granted |
| `Heap.KernelHeap.Kfree` | src/kernel/mem/heap/heap.cc:89-105 | the nested loops compute the list's `kfree` |
| `HeapFrames.CleanGrantIsApart` | src/kernel/mem/heap/heap.cc:32-32 | a grant for which the frames from the cursor on were free is clear of every heap page, and all pages stay on taken frames |
| `HeapFrames.UncleanGrantOverlaps` | src/kernel/mem/heap/heap.cc:32-32 | when every taken frame is the heap's, any other grant lands on one of its pages |
| `HeapFrames.SecondPageOverlaps` | src/kernel/mem/heap/heap.cc:20-43 | with all frames free, the page granted after one of several frames overlaps it |
| `HeapGrants.BlocksApartExactly` | src/kernel/mem/frames/frames.cc:25-50 | blocks taken in a row, with all frames behind the cursor free, are pairwise disjoint if and only if all but the last are of one frame |
| `HeapGrants.OneFramePage` | src/kernel/mem/heap/heap.cc:23-30 | a page has one frame if and only if the request is at most 4032 bytes |
| `HeapGrants.PagesApartExactly` | src/kernel/mem/heap/heap.cc:20-87 | over every run of the heap as only client of the allocator, its pages are pairwise apart if and only if every page but the last has one frame |
| `HeapGrants.SuppliedRunIsSafe` | src/kernel/mem/heap/heap.cc:20-105 | after every run in which that holds the heap is safe as in `RunIsSafe`, with the grants computed by the allocator |
| `SharedFrames.HandedKeepsSeparate` | src/kernel/mem/frames/frames.cc:29-48 | clearing a block taken at or above the cursor touches no page table and changes no translation |
| `SharedFrames.OneTree` | src/kernel/mem/paging/paging.cc:32-64 | the tables that memory holds are described by one tree only |
| `SharedFrames.ClientsNeverTouchTables` | src/kernel/kern.cc:49-56 | over every run from `init`, with clients such as the interrupt stacks holding frames already, in which other clients take frames and blocks, write to them and safely give them back, each page translates as the paging operations alone say, cached or not, and no client holds a table |
| `SharedFrames.BelowCursorExactly` | src/kernel/mem/frames/frames.cc:25-50 | no run without a `free` ever hands out a table if and only if all tables lie below the cursor |
| `SharedFrames.ReleaseExactly` | src/kernel/mem/frames/frames.cc:52-56 | after freeing a frame that a client holds, no run without a further `free` hands out a table if and only if all tables lie below the frame; the frame is the next to be allocated, and a client still holds it if and only if it was handed out twice |
| `SharedFrames.FreeLetsBlockEraseTables` | src/kernel/mem/frames/frames.cc:25-56 | from `init`, a client that frees the frame in front of the top table and takes two is handed the top table, and every page is unmapped |
| `SharedFrames.StackFreedErasesTables` | src/kernel/kern.cc:49-56 | after n interrupt stacks of c frames the top table lies right behind the last, frame n(c - 1) + 1, and freeing the frame before it leads to that run |
| `TaskRing.CleanupLaw` | src/kernel/task/scheduler.cc:51-64 | behind a live head all terminated tasks go, in order, and the current position follows; a terminated head goes alone |
| `TaskRing.CleanupDrains` | src/kernel/task/scheduler.cc:51-64 | n clean-ups drop exactly the first n of p leading terminated tasks, and more than p leave exactly the live tasks |
| `TaskRing.Passed` | src/kernel/task/scheduler.cc:136-143 | the search stops at the first runnable task cyclically after the current one, or has passed over all |
| `TaskRing.YieldMovesOn` | src/kernel/task/scheduler.cc:129-158 | one `yield` selects the next runnable task in ring order and leaves the set of runnable tasks alone |
| `TaskRing.RoundRobin` | src/kernel/task/scheduler.cc:129-158 | for every m, the m-th `yield` in a row is at the runnable task m places on in ring order, modulo their number |
| `TaskRing.EachExactlyOnce` | src/kernel/task/scheduler.cc:129-158 | among r runnable tasks r yields select each exactly once and return to the start |
| `TaskRing.SpawnJoins` | src/kernel/task/scheduler.cc:66-95 | a new task is ready and the last in the round robin |
| `TaskRing.StartMakesCurrent` | src/kernel/task/scheduler.cc:168-187 | the least runnable task, or the head when none is, becomes current and active, and all others stay as they are |
| `TaskRing.StartBeginsRound` | src/kernel/task/scheduler.cc:129-187 | from a start with a runnable task and no terminated one, the m-th `yield` is at the m-th runnable task of the ring, modulo their number |
| `TaskRing.NothingRunsBeforeStart` | src/kernel/task/scheduler.cc:129-187 | over every run without a start no task ever becomes current |
| `TaskRing.KillTerminates` | src/kernel/task/scheduler.cc:97-102 | `kill_process` terminates the first task with the id and changes nothing else |
| `TaskRing.KilledIsRemoved` | src/kernel/task/scheduler.cc:51-102 | one clean-up more than there are terminated tasks in front leaves exactly the live tasks but the killed one |
| `TaskRing.SleepWaits` | src/kernel/task/scheduler.cc:160-166 | the task that sleeps is in the ring afterwards, waiting |
| `TaskRing.SleepHandsOver` | src/kernel/task/scheduler.cc:129-166 | with no terminated task around, the next runnable task behind it becomes current and active, and nothing else changes |
| `TaskRing.KilledHandsOver` | src/kernel/task/scheduler.cc:104-154 | when the clean-up takes only the ended task out, the next runnable task becomes current if and only if it is not the immediate successor or no third task is runnable; in the latter case, and with none runnable, no task is activated |
| `TaskRing.KilledBehindDeadHead` | src/kernel/task/scheduler.cc:51-154 | behind a terminated head the next runnable task is activated and becomes current, and with none left the ended task stays current |
| `TaskRing.KilledAmongTerminated` | src/kernel/task/scheduler.cc:51-154 | behind a live head the outcome is the same as if the other terminated tasks had been cleaned up before |
| `TaskRing.SuccessorOfKilledIsSkipped` | src/kernel/task/scheduler.cc:104-154 | after `kill_current`, with all others runnable, the task behind the successor runs |
| `TaskRing.StartWakes` | src/kernel/task/scheduler.cc:168-187 | `start_scheduler` wakes a sleeping task if and only if it is the head and no task is runnable |
| `TaskRing.SleepersNeverRun` | src/kernel/task/scheduler.cc:66-187 | over every run of spawn, kill, yield, sleep and start a waiting or terminated task stays so, and is selected by no `yield`, if and only if the run spawns no task with its id and starts the scheduler in no state where it is the head and no task is runnable |
| `Scheduler.ProcessList.LinkProcess` | src/kernel/task/scheduler.cc:13-27 | relinking appends the node and keeps the ring well formed |
| `Scheduler.ProcessList.UnlinkProcess` | src/kernel/task/scheduler.cc:29-49 | relinking takes the node out, hands the current position to its successor and keeps the ring well formed |
| `Scheduler.ProcessList.CleanupTerminated` | src/kernel/task/scheduler.cc:51-64 | the loop over the links computes the clean-up on the list |
| `Scheduler.ProcessList.SpawnProcess` | src/kernel/task/scheduler.cc:66-95 | a ready task with the next process id at the end of the ring, or null and nothing changed when an allocation fails |
| `Scheduler.ProcessList.GetByPid` | src/kernel/task/scheduler.cc:115-127 | the first task with the id in ring order, null exactly when none has it |
| `Scheduler.ProcessList.KillProcess` | src/kernel/task/scheduler.cc:97-102 | terminates the first task with the id, if any, and nothing else |
| `Scheduler.ProcessList.KillCurrent` | src/kernel/task/scheduler.cc:104-109 | computes the step that `KilledHandsOver` speaks of |
| `Scheduler.ProcessList.Yield` | src/kernel/task/scheduler.cc:129-154 | clean-up and search over the links compute the `yield` step |
| `Scheduler.ProcessList.Sleep` | src/kernel/task/scheduler.cc:160-166 | the current task waits and another is selected |
| `Scheduler.ProcessList.StartScheduler` | src/kernel/task/scheduler.cc:168-187 | the first runnable task becomes current, and the head when none is runnable |
| `Scheduler.ProcessList.GetActiveCount` | src/kernel/task/scheduler.cc:221-234 | the number of tasks the round robin goes round |
| `Demangler.Decimal` | src/kernel/err/mangle.cc:14-21 | the decimal spelling of a length, which reads back as that length |
| `Demangler.ComponentReads` | src/kernel/err/mangle.cc:31-34 | a length and an identifier are read back as that identifier |
| `Demangler.UnmangleNested` | src/kernel/err/mangle.cc:23-51 | for every list of identifiers, a nested name gives the parts joined by `::` (with one left over below two parts) and stops just past `E` |
| `Demangler.ParametersRead` | src/kernel/err/mangle.cc:100-148 | for every list of built-in types with P and K prefixes the loop prints their texts joined by `, `, remembers each, and stops at the end |
| `Demangler.UnsignedCodes` | src/kernel/err/mangle.cc:104-108 | the unsigned codes print `u` and the width of the type |
| `Demangler.CodesNameTypes` | src/kernel/err/mangle.cc:102-118 | the codes of the other types are the first letters of their names, and no two codes print alike but the two of 64 bits |
| `Demangler.TrailerIs` | src/kernel/err/mangle.cc:66-68 | a list may be followed by nothing, by `E` or by a space |
| `Demangler.PlainNamesKept` | src/kernel/err/mangle.cc:152-155 | a name that does not start with `_Z` is left as it is |
| `Demangler.DemangleNested` | src/kernel/err/mangle.cc:150-180 | end to end for nested names, built-in parameters and whatever follows the list: the text a reader expects |
| `Demangler.DemanglePlain` | src/kernel/err/mangle.cc:150-180 | end to end for plain names |
| `DemangleBuffers.NestedFits` | src/kernel/err/mangle.cc:23-180 | demangling a nested function writes inside all buffers if and only if the text has at most 128 characters and the text of each type fewer than 16 |
| `DemangleBuffers.PlainFits` | src/kernel/err/mangle.cc:53-180 | the same for plain names |
| `DemangleBuffers.KeptNameFits` | src/kernel/err/mangle.cc:10-155 | a name that is copied fits if and only if it has at most 128 characters |
| `DemangleBuffers.SpelledComponentsFit` | src/kernel/err/mangle.cc:35-50 | the component loop stays inside its buffer if and only if the joined parts and a terminator fit |
| `DemangleBuffers.TypesFit` | src/kernel/err/mangle.cc:137-148 | the parameter loop stays inside its buffers if and only if the joined texts, the rows and the length of each row fit |
| `DemangleBuffers.ReadsBack` | src/kernel/err/mangle.cc:176-179 | the unterminated text reads back as a C string if and only if the memory behind it was zero |
| `DemangleBuffers.ParseFunctionLength` | src/kernel/err/mangle.cc:14-21 | the digit loop into its buffer gives the value and stops at the first other character |
| `DemangleBuffers.UnmangleName` | src/kernel/err/mangle.cc:23-51 | the component loop writes the reading of the name and a terminator, and nothing else |
| `DemangleBuffers.DemangleParameters` | src/kernel/err/mangle.cc:137-148 | the parameter loop writes the reading of the list behind the name, and each type into a row of its own |
| `DemangleBuffers.DemangleSymbol` | src/kernel/err/mangle.cc:150-180 | the whole demangling in a block of 128 characters: the text at its start, the old contents behind it, and when that reads back as the text |
| `Substitutions.DemangleAgrees` | src/kernel/err/mangle.cc:100-180 | with all codes modelled the reading is the same wherever only built-in types occur |
| `Substitutions.SubstitutionReads` | src/kernel/err/mangle.cc:78-92 | a substitution prints the type its number names up to the first space, as a parameter of its own |
| `Substitutions.CutAtSpace` | src/kernel/err/mangle.cc:88-91 | the repeated text ends before the first space, or with the text |
| `Substitutions.RepeatsWhole` | src/kernel/err/mangle.cc:88-91 | it prints the whole type if and only if that has no const in it and is not `long long` |
| `Substitutions.FirstTwoAlike` | src/kernel/err/mangle.cc:82-87 | `S_` and `S0_` print the same type |
| `Substitutions.ClassTypeSkips` | src/kernel/err/mangle.cc:94-146 | the character behind a class type is lost, a prefix there does not even finish the parameter, and at the end of the name there is no result |
| `Substitutions.ClassTypeOverruns` | src/kernel/err/mangle.cc:94-146 | no function with a plain name is demangled whose last parameter is of class type, behind any built-in ones, when the name ends there |
| `Substitutions.NestedClassTypeOverruns` | src/kernel/err/mangle.cc:94-146 | the same for nested names |
| `Substitutions.UnknownCodePrintsRest` | src/kernel/err/mangle.cc:120-126 | an unknown code prints itself and all codes behind it, which are then read once more |
| `Symbols.SortSymbolTable` | src/kernel/err/meta_resolver.cc:13-29 | the entries are sorted and a permutation, the slots behind them untouched |
| `Symbols.ResolveAddress` | src/kernel/err/meta_resolver.cc:54-75 | on a sorted table: an entry with the greatest address not above the query, exact if and only if an address equals it, none if and only if all are above |
| `Symbols.ResolvesInAnyOrder` | src/kernel/err/meta_resolver.cc:54-75 | such an answer does not depend on the order of the entries |
| `Symbols.SortThenResolve` | src/kernel/err/meta_resolver.cc:13-75 | sorting and then resolving answers the query about the table as it was filled, in any order |
| `Timer.CalibrateFrequency` | src/kernel/cpu/lapic/lapic.cc:141-158 | the frequency is the rounded quotient, zero without ticks, and bounded for ten ticks or more |
| `Timer.LargestDividerFits` | src/kernel/cpu/lapic/lapic.cc:180-184 | for a calibrated frequency a divider of 128 always suffices |
| `Timer.ChooseDivider` | src/kernel/cpu/lapic/lapic.cc:167-184 | the least divider whose count fits 32 bits, the count's exact bounds, no wrap, and the fallback never taken |
| `Timer.SetFrequency` | src/kernel/cpu/lapic/lapic.cc:161-204 | nothing before calibration; otherwise the code written is read by the hardware as that divider |
| `Timer.DividerCodeRoundTrip` | src/include/cpu/lapic.h:20-29 | each divider's code is read back as the divider |

## Left out

- Paging.Pager.Map: what the source goes on to do with a null table; the state is then only known to keep the allocator in range. `MapSetsLeaf` says exactly when that happens.
- Paging.Pager.MapRange: likewise, once frames have run out.
- Mapper.FullMap: likewise.
- Mapper.FullMapExact: as in all of ImageBytes, assumes page-aligned bases in the memory map, physical memory below 2^48 and an image that fits the page numbers; lengths may be arbitrary.
- Hardware setting the accessed and dirty bits of entries, and global pages, which a reload of cr3 does not flush.
- Table memory is keyed by physical address; that the direct map makes it reachable is not modelled.
- SharedFrames.ClientsNeverTouchTables: other clients use frames they were handed only.
- HeapGrants.PagesApartExactly: the heap is the only client of the allocator, and sizes are below 2^32.
- Heap.KernelHeap.Kmalloc: the addresses granted by the frame allocator are a parameter and a new page's region is assumed clear of the others, because `allocs` does not guarantee it (`CleanGrantIsApart` and `UncleanGrantOverlaps` say when it is); sizes from 2^32 on, for which `KmallocLaw` says that the call never returns, are excluded.
- Heap.KernelHeap.Kfree: requires a heap that is not empty, as the source dereferences its first page.
- The clearing of granted heap frames and the contents of payloads.
- Scheduler.ProcessList.SpawnProcess: the outcomes of the two allocations are parameters, and there are fewer than 2^32 - 1 tasks; contexts, names, priorities and times are not modelled.
- Scheduler.ProcessList.Yield: the call into the selected task, and the nested call stack it builds, are left out.
- The release of a removed task's memory.
- DemangleBuffers.ParseFunctionLength: lengths of sixteen digits or more, which overrun the buffer for digits, are excluded.
- DemangleBuffers.UnmangleName: names on which the source runs past the end or never stops are excluded.
- DemangleBuffers.DemangleParameters: built-in types with prefixes only; the other codes are modelled on text (`AllParameters`), without the buffers.
- DemangleBuffers.DemangleSymbol: the same, and texts that overrun the buffers are excluded; `NestedFits` and `PlainFits` say exactly which those are.
- Substitutions.SubstitutionReads: numbers that are not plain decimals, and rows that were never written, have no result.
- The 64-bit wrap-around of symbol addresses, and how the table is filled from the ELF file.
- Port, MSR and device register access, interrupt and context-switch assembly, ACPI, logging and the boot protocol.
