# MCSOS memory and scheduling, verified

A Dafny model of four components of the MCSOS teaching kernel and proofs about every run of each:

- **Kernel heap** (`kernel/mm/kmem.c`): a first-fit allocator that keeps its headers inside the arena. Memory is a map
  from word addresses to 64-bit words, so headers and payloads share it. Modules `HeapBlocks` (the block list as a value),
  `HeapMemory` (its layout in memory), `HeapMoves` (the internal functions), `HeapBytes` (byte stores), `HeapValidation`
  (the self-check on arbitrary memory), `KernelHeap` (the class), `HeapRuns` and `KernelHeapRuns` (whole runs),
  `HeapLimits` (heaps too large for the self-check) and `HeapForgery` (pointers that only look handed out).
- **Page tables** (`src/vmm.c`): four-level tables in physical memory, grown on demand. Modules `PageEntries`,
  `VirtualAddresses`, `PageTables` (the walk and the tree), `PageTableUpdates` (what a store changes), `FrameSupply` (the
  frames the callbacks supply), `AddressSpaces` (the class) and `AddressSpaceRuns`.
- **Frame allocator** (`src/pmm.c`): a byte bitmap with counters and a search hint. Modules `FrameBitmap`, `FrameRanges`,
  `FrameAllocator` (the class) and `FrameAllocatorRuns`.
- **Scheduler** (`kernel/sched/mcsos_thread.c`): a linked run queue of thread objects. Modules `RunQueue` and
  `RunQueueRuns` (on values), `Threads`, `Scheduling` (the class) and `SchedulingRuns`.

Each component follows one plan: an abstract state with its operations as functions, the class whose methods are proved to
carry those operations out on the real representation, and theorems over arbitrary sequences of calls. `Words` holds the
64-bit arithmetic. `dafny verify dfyconfig.toml` checks everything.

## What is proved

- Heap: every run of initialisation, requests, releases and byte writes keeps the arena tiled, the list doubly linked and
  no two neighbours free, follows the run on the block list with the pointers and codes it calls for, and never changes a byte of a request it neither releases nor
  writes. The run goes on for as long as callers write only what they asked for and release no forged pointer. Releasing
  everything, in any order, restores the initial block, and a heap in order is determined by what is handed out. `kmem_validate` is characterised on arbitrary memory.
- Page tables: every run refines a finite partial map from canonical pages to leaf entries, which is what a 4-level walk by
  the address bits finds; the tables stay a tree; no cached
  translation outlives its page; the tables are those inherited and the reachable frames drawn, and every answer of the
  frame callback is counted once as no frame, one more table, a frame given back or a loss.
- Frames: initialisation is characterised for every memory map, including those on which sums wrap; allocation always
  returns the lowest free frame; in disciplined runs no frame is lost, made up or handed out twice.
- Scheduler: every legal run, with threads prepared on the way, keeps the queue invariant; a thread at position i runs at exactly
  the (i+1)-th switch, one that yields while n others wait at the n-th after that, and one that blocks not before it is
  woken, enqueued or prepared; `mcsos_sched_validate` is characterised on arbitrary, even cyclic, lists.

## Properties that fail, and exactly when

- A usable region whose start lies within a page of 2^64 makes `align_up` wrap to 0 and frees every frame; a region that
  reaches the last page below 2^64 is not reserved at all. `RangesThatMissTheirAim` gives inputs; `FreesInsideIff` and
  `ReservesTouchedIff` give the exact conditions.
- `kmem_validate` returning 0 does not mean the arena is covered: `AcceptedButNotTiled` gives a memory, and `AcceptedTiles`
  says exactly what else is needed.
- `kmem_free_checked` returns -3 on a block that it does release, exactly when the blocks left after fusing it with its free
  neighbours are more than 1048576 (`FreeChecked`). Small requests lead there: `ReleasedYetRefused`.
- `kmem_free_checked` recognises a block by the bytes in front of the pointer only. From every heap that grants 96 bytes, a
  caller's own bytes lead to a pointer that passes every check without having been handed out (`AllocAndForge`). Releasing
  one with null links is reported as success, leaves the block list as it was, releases nothing and changes a word of memory
  that the caller still owns (`ForgedRelease`).
- `mcsos_sched_enqueue` accepts a thread that is already waiting; the list is well formed afterwards if and only if the
  thread was not ready (`Enqueue`). `EnqueueTwice` is a run that breaks the list.
- `mcsos_thread_prepare` does not look at the scheduler. The queue invariant survives preparing a known thread again if and
  only if the thread neither waits nor runs (`PrepareKeepsInvIff`, and `Create` on thread objects). `PrepareWaiting` and
  `PrepareTwice` give runs.
- A frame drawn for a table is lost, neither a table nor given back, if and only if it cannot be reached and is misaligned
  or there is no `free_frame` (`LostIff`). `MisalignedIsLost` and `UnreachableIsLost` give inputs; with a `free_frame` and
  aligned answers nothing is lost (`NothingLost`).

## Conventions

- `sizeof(kmem_block_t)` is 48, as on x86_64. The alignment helpers of the heap are modelled at `KMEM_ALIGN`, the only value
  they are called with. `kmem_init` is given memory that exists and ends more than a header below 2^64.
- A forged pointer is one that points into payload bytes which happen to look like a used header without having been handed
  out (`Forged`): it passes every check of `kmem_free_checked`, whose contract excludes it. Runs on the block list
  have no memory, so there a pointer that is not outstanding is refused; runs in memory stop before a forged one.
- The answers of `alloc_frame` are an arbitrary sequence; a reachable answer must be a frame that is not a table, answered once.
  Frames reachable through `phys_to_virt` are aligned and have no bits outside the address mask. Invalidating a page is a
  ghost step on the set of translations the processor holds.
- Right shifts and masks of virtual addresses are divisions and remainders; page-table entries are 64-bit vectors.
- The scheduler is the host-test build: a switch changes `current`, and register contexts are not modelled apart from the
  first stack pointer. Thread storage that was never prepared does not carry the magic number. The report's diagram
  re-queues the old thread before picking the next one (laporan-m9.md:257-274); the code picks first, and the model follows
  the code.

## Model

| member | source | states |
|---|---|---|
| `HeapBlocks.RoundUp` | kernel/mm/kmem.c:20-32 | the least multiple of 16 not below the size; 0 exactly for size 0 or when rounding would overflow |
| `HeapBlocks.FirstFit` | kernel/mm/kmem.c:163-173 | the lowest-address block that is free and large enough, with none before it |
| `HeapBlocks.TakeKeepsInv` | kernel/mm/kmem.c:66-100 | taking a fitting block keeps the tiling and the absence of free neighbours, and wastes at most 80 bytes |
| `HeapBlocks.TakenBlock` | kernel/mm/kmem.c:154-174 | a successful request gets the first fitting block, cut to the rounded size exactly if more than 80 bytes are left over |
| `HeapBlocks.TakeLive` | kernel/mm/kmem.c:154-174 | a request adds exactly one live block and leaves the others as they were |
| `HeapBlocks.CoalesceOnce` | kernel/mm/kmem.c:102-120 | without free neighbours behind it, a block absorbs at most one other |
| `HeapBlocks.ReleaseFuses` | kernel/mm/kmem.c:205-209 | releasing fuses a block with exactly its free neighbours |
| `HeapBlocks.ReleaseKeepsInv` | kernel/mm/kmem.c:188-211 | releasing keeps the tiling and the absence of free neighbours |
| `HeapBlocks.ReleaseLive` | kernel/mm/kmem.c:188-211 | releasing removes exactly the released block from the live ones |
| `HeapBlocks.ReleaseSize` | kernel/mm/kmem.c:205-209 | how many blocks are left, from the block and its neighbours before the call |
| `HeapBlocks.ReleaseUndoesTake` | kernel/mm/kmem.c:102-120 | releasing the block just taken restores the list exactly |
| `HeapBlocks.LiveDisjoint` | kernel/mm/kmem.c:53-59 | blocks are 16-aligned, inside the arena and disjoint |
| `HeapBlocks.NothingLive` | kernel/mm/kmem.c:142-149 | a heap with nothing handed out is the single initial block |
| `HeapBlocks.LiveDetermines` | kernel/mm/kmem.c:66-120 | two heaps in order over one arena with the same live blocks are the same list |
| `HeapBlocks.Accounting` | kernel/mm/kmem.c:213-240 | total = used + free + 48 times the number of blocks |
| `HeapBlocks.AllocFailsIff` | kernel/mm/kmem.c:154-174 | a request fails if and only if it is 0, overflows, or its rounded size exceeds the largest free payload |
| `HeapBlocks.AllocOutcome` | kernel/mm/kmem.c:154-174 | refused exactly for 0, overflow or more than the largest free payload; otherwise the lowest fitting block is handed out and the others stay as they were |
| `HeapBlocks.CallocOutcome` | kernel/mm/kmem.c:176-186 | refused exactly for a zero factor, an overflowing product or one that fits nowhere; otherwise the lowest fitting block for the product is handed out |
| `HeapBlocks.BytesAreSums` | kernel/mm/kmem.c:213-240 | the byte counters are the sums of the sizes of the used and of the free blocks |
| `HeapBlocks.FreeCountCounts` | kernel/mm/kmem.c:213-240 | the free counter is the number of free blocks |
| `HeapBlocks.AllocRaisesUsed` | kernel/mm/kmem.c:154-174 | a request raises the bytes in use by the size of the block it takes |
| `HeapBlocks.ReleaseLowersUsed` | kernel/mm/kmem.c:188-211 | a release lowers them by the size of the block it gives back |
| `HeapBlocks.FreeCountBound` | kernel/mm/kmem.c:102-120 | of n blocks at most (n+1)/2 are free |
| `HeapMemory.OnlyHeadersKeepsPayload` | kernel/mm/kmem.c:84-99 | stores confined to headers change no payload word |
| `HeapMemory.OnlyHeadersKeepsOutside` | kernel/mm/kmem.c:84-99 | nor any word outside the arena |
| `HeapMoves.FindFit` | kernel/mm/kmem.c:163-173 | the pointer walk reaches the first fitting block, or null |
| `HeapMoves.SplitPoint` | kernel/mm/kmem.c:66-87 | with sums that wrap, a block is split exactly when more than 80 bytes would be left over |
| `HeapMoves.SplitIfUseful` | kernel/mm/kmem.c:66-100 | the stores turn the layout of the list into that of the split list, touching headers only |
| `HeapMoves.TakeBlock` | kernel/mm/kmem.c:167-170 | split and mark used, in memory |
| `HeapMoves.CoalesceForward` | kernel/mm/kmem.c:102-120 | the loop absorbs every free block that follows and clears the magic of each absorbed header |
| `HeapMoves.ReleaseBlock` | kernel/mm/kmem.c:205-209 | the release in memory; the old header belongs to a free block afterwards or has lost its magic |
| `HeapBytes.StoreByteAt` | kernel/mm/kmem.c:47-49 | a byte store changes the byte at its address and no other byte of memory |
| `HeapBytes.MemSet` | kernel/mm/kmem.c:45-51 | every byte of the range has the value, every other byte and every word outside keeps its own |
| `HeapValidation.Validate` | kernel/mm/kmem.c:242-280 | on any memory: 0 if and only if there is a well-linked walk of at most 1048576 headers; -3 if the complete walk is longer, and only after 1048576 well-linked headers with more to come; -1 and -2 exactly for a missing heap and a wrong head; -4 to -8 only for the first check that the next header of a well-linked walk fails; no other code |
| `HeapValidation.HeaderCodeMeans` | kernel/mm/kmem.c:257-270 | what each of the codes -4 to -8 says about the header it is returned for |
| `HeapValidation.LayoutIsChain` | kernel/mm/kmem.c:242-280 | a heap in order is such a walk over all its headers |
| `HeapValidation.AcceptedTiles` | kernel/mm/kmem.c:253-279 | an accepted memory holds a doubly linked list, which tiles the arena if and only if sizes are positive multiples of 16 and the last block reaches the end |
| `HeapValidation.AcceptedButNotTiled` | kernel/mm/kmem.c:253-279 | a memory with every word of its arena that is accepted and does not tile it |
| `KernelHeap.ChooseArena` | kernel/mm/kmem.c:122-140 | for every base and size: exactly when each refusal is returned, and otherwise the largest 16-aligned arena inside |
| `KernelHeap.Heap.Init` | kernel/mm/kmem.c:122-152 | succeeds exactly when more than 80 aligned bytes are usable, with one free block over them; a refusal changes nothing |
| `KernelHeap.Heap.Validate` | kernel/mm/kmem.c:242-280 | on a heap in order 0, or -3 above 1048576 blocks |
| `KernelHeap.Heap.Alloc` | kernel/mm/kmem.c:154-174 | refused exactly for 0, overflow or more than the largest free payload; otherwise the lowest fitting block is handed out, changing header words only |
| `KernelHeap.ProductTest` | kernel/mm/kmem.c:177-179 | the division test is exact: it refuses if and only if the product overflows |
| `KernelHeap.Heap.Calloc` | kernel/mm/kmem.c:176-186 | refused exactly for a zero factor, an overflowing product or one that fits nowhere; otherwise the lowest fitting block is handed out with every byte asked for zero, and nothing outside headers and the new payload changes |
| `KernelHeap.Heap.FreeChecked` | kernel/mm/kmem.c:188-211 | every refusal has its code and changes nothing; a live pointer is released, and the code is then 0 or -3 by the number of blocks left, known before the call |
| `KernelHeap.Heap.FreeTwice` | kernel/mm/kmem.c:188-204 | an immediate second release returns -3 or -4 and leaves memory as the first left it |
| `KernelHeap.Heap.GetStats` | kernel/mm/kmem.c:213-240 | used and free bytes are the sums of the sizes of live and free blocks, the counts those of all and of free blocks, and with the headers they account for every byte; nothing is used exactly when nothing is live |
| `KernelHeap.Heap.Store` | kernel/mm/kmem.c:53-55 | a caller's byte store inside its own payload keeps the heap in order |
| `HeapRuns.AllocStep` | kernel/mm/kmem.c:154-174 | a request fails without effect or hands out a pointer that was not outstanding |
| `HeapRuns.OwnsWhatItAsked` | kernel/mm/kmem.c:154-186 | after a request the bytes asked for are outstanding at its pointer, and nothing else changes |
| `HeapRuns.RunKeepsInv` | kernel/mm/kmem.c:122-211 | every run of requests, releases of outstanding or refused pointers, and writes keeps the heap tiled and coalesced, with outstanding pointers exactly the live payloads |
| `HeapRuns.OwnedDisjoint` | kernel/mm/kmem.c:154-211 | outstanding requests are aligned, inside the arena, and overlap neither each other nor headers |
| `HeapRuns.BalancedRunRestores` | kernel/mm/kmem.c:102-120 | any such run that leaves nothing outstanding ends in the initial state |
| `HeapRuns.FreeAllRestores` | kernel/mm/kmem.c:188-211 | releasing all outstanding pointers in any order restores the single initial block |
| `HeapRuns.FreeUndoesAlloc` | kernel/mm/kmem.c:154-211 | releasing what a request returned restores the state exactly |
| `KernelHeapRuns.Execution` | kernel/mm/kmem.c:154-211 | whole runs in memory follow the runs on the list, return the pointers and codes that those call for, and keep the contents of every untouched request; they stop only before a release of a forged pointer or a write outside what was asked for |
| `KernelHeapRuns.InitAndRun` | kernel/mm/kmem.c:122-280 | the same from initialisation on, and the outcome validates with 0 up to 1048576 blocks |
| `HeapLimits.ManyCells` | kernel/mm/kmem.c:154-174 | n requests of 16 bytes from initialisation make n+1 blocks |
| `HeapLimits.ReleasedYetRefused` | kernel/mm/kmem.c:205-210 | after 1048576 such requests, a release returns -3 although the block is free |
| `HeapForgery.LooksForged` | kernel/mm/kmem.c:192-204 | payload bytes that look like a used header forge a pointer |
| `HeapForgery.AllocAndForge` | kernel/mm/kmem.c:188-204 | from every heap in order that grants 96 bytes, byte writes inside them reach a forged pointer |
| `HeapForgery.ReleaseForged` | kernel/mm/kmem.c:205-210 | releasing one with null links keeps the block list, returns the code of validation and changes a payload word |
| `HeapForgery.ForgedRelease` | kernel/mm/kmem.c:188-211 | the whole run: success is reported, nothing is released, and memory of the outstanding request has changed |
| `PageEntries.LeafEntry` | src/vmm.c:106-108 | the stored entry is present, not huge, and gives back the masked address and the permitted flags |
| `PageEntries.TableEntry` | src/vmm.c:61 | the stored entry points to the table's frame and carries PRESENT and WRITABLE only |
| `PageEntries.EntryRoundTrip` | src/vmm.c:61-108 | frame addresses below 2^52 and the flags survive being stored in an entry |
| `PageEntries.AlignedMeans` | src/vmm.c:9-11 | the alignment test holds exactly for multiples of 4096 |
| `PageEntries.PresentBit` | src/vmm.c:33 | an entry is present exactly when its bit 0 is set |
| `PageEntries.HugeBit` | src/vmm.c:34 | it maps a large page exactly when its bit 7 is set |
| `PageEntries.AddressBits` | src/vmm.c:37 | the address in it is that of a frame below 2^52 |
| `VirtualAddresses.CanonicalRange` | src/vmm.c:13-17 | canonical addresses are the lowest and highest 2^47 |
| `VirtualAddresses.ComposeThenIndices` | src/vmm.c:13-22 | every index tuple belongs to a canonical page address |
| `VirtualAddresses.IndicesThenCompose` | src/vmm.c:13-22 | a canonical page address is recovered from its four indices, sign extension included |
| `VirtualAddresses.IndicesInjective` | src/vmm.c:19-22 | different canonical pages have different index tuples |
| `VirtualAddresses.SharedTables` | src/vmm.c:19-22 | two pages share their tables exactly when they lie in the same 512 GiB, 1 GiB and 2 MiB |
| `VirtualAddresses.IndicesInOrder` | src/vmm.c:19-22 | index tuples are in dictionary order as the addresses are, and the lower half has the lower 256 root entries |
| `PageTables.DescendInTree` | src/vmm.c:31-45 | a walk in a tree reaches only tables, each by its own path |
| `PageTables.TablesFormTree` | src/vmm.c:31-64 | distinct entries lead to distinct tables, none to the root, each one level down |
| `PageTables.ZeroRootIsTree` | src/vmm.c:66-81 | a zeroed root is a tree that maps nothing |
| `PageTableUpdates.LeafStoreLeaf` | src/vmm.c:102-109 | a leaf store changes the translation of one index tuple only |
| `PageTableUpdates.LeafStoreTree` | src/vmm.c:102-109 | and keeps the tables a tree |
| `PageTableUpdates.LinkDescend` | src/vmm.c:60-63 | once a table is linked, its path leads to it and every other path leads where it led |
| `PageTableUpdates.LinkLeaf` | src/vmm.c:60-63 | linking an empty table changes no translation |
| `PageTableUpdates.LinkTree` | src/vmm.c:60-63 | linking a frame that was not a table keeps the tables a tree |
| `AddressSpaces.LeafStoreRepresents` | src/vmm.c:102-109 | a leaf store adds or removes exactly one virtual page |
| `AddressSpaces.MissingBelow` | src/vmm.c:31-45 | an absent entry on the way down means that exactly the deeper tables are missing |
| `AddressSpaces.MissingBelowNew` | src/vmm.c:60-63 | below a table just linked everything is still missing, so each step takes at most one frame |
| `AddressSpaces.ClearPage` | src/vmm.c:3-7 | the loop leaves a page of zero entries and other frames alone |
| `FrameSupply.NextIsFresh` | src/vmm.c:46-60 | a reachable answer that is drawn is not a table yet |
| `FrameSupply.EveryAnswerCounts` | src/vmm.c:46-63 | each answer is counted once, as no frame, one more table, a frame given back or a leak |
| `FrameSupply.RefusalMeans` | src/vmm.c:46-59 | NOMEM without an allocator, when no frame is left or the first bad answer is misaligned; INVAL only when it is aligned and cannot be reached |
| `AddressSpaces.SpaceInit` | src/vmm.c:66-81 | refuses exactly a misaligned root; otherwise stores its arguments, and the space is in order if and only if the root page heads a tree and the callback keeps its promise |
| `AddressSpaces.AddressSpace.DrawFrame` | src/vmm.c:46-59 | exactly which answers succeed, which are given back, and which error each refusal is |
| `AddressSpaces.AddressSpace.NextTable` | src/vmm.c:31-64 | the table below, followed or added; no translation changes whatever the outcome |
| `AddressSpaces.AddressSpace.MapPage` | src/vmm.c:83-110 | EXISTS if and only if mapped; success adds exactly one page; every error leaves all translations unchanged; an unmapped page is mapped if and only if the callback supplies as many reachable frames as tables are missing, and exactly that many are taken; otherwise the first bad answer decides between NOMEM and INVAL and how many were taken |
| `AddressSpaces.AddressSpace.QueryPage` | src/vmm.c:112-136 | reports exactly the partial map |
| `AddressSpaces.AddressSpace.UnmapPage` | src/vmm.c:138-161 | removes exactly one page and its cached translation; NOT_FOUND if and only if unmapped |
| `AddressSpaces.WalkAgrees` | src/vmm.c:83-136 | the meaning given to the tables is that of a 4-level walk by address bits 39, 30, 21 and 12 upwards |
| `AddressSpaces.AddressSpace.ProcessorSees` | src/vmm.c:83-161 | at every point that walk finds exactly the mapped pages with their entries |
| `AddressSpaces.AddressSpace.FateOfAnswer` | src/vmm.c:46-63 | a drawn answer is a table if and only if it can be reached, and was given back if and only if it is aligned, cannot be reached and there is a free callback |
| `AddressSpaces.AddressSpace.LostIff` | src/vmm.c:49-59 | exactly which drawn frames are neither tables nor given back |
| `AddressSpaces.AddressSpace.NothingLost` | src/vmm.c:49-59 | with a free callback and aligned answers no frame is lost |
| `AddressSpaces.AddressSpace.Conservation` | src/vmm.c:31-64 | answers taken = no frame + new tables + given back + lost, and the tables are exactly those inherited and the reachable answers taken |
| `AddressSpaceRuns.Perform` | src/vmm.c:83-161 | every run refines the partial map and stays valid: tree, coherent cached translations, frames accounted for |
| `AddressSpaceRuns.PerformFromZeroRoot` | src/vmm.c:66-161 | the same from a zeroed root, starting with the empty map and the root as only table |
| `AddressSpaceRuns.MisalignedIsLost` | src/vmm.c:50-52 | an input on which a misaligned frame is lost although there is a free callback |
| `AddressSpaceRuns.UnreachableIsLost` | src/vmm.c:53-59 | inputs on which an unreachable frame is lost because there is none |
| `AddressSpaceRuns.LastChangeWins` | src/vmm.c:83-161 | a page translates to what the last successful call on it said |
| `AddressSpaceRuns.QueryAnswersLastMap` | src/vmm.c:112-136 | a query answers with the masked address and permitted flags of the last mapping not undone since |
| `AddressSpaceRuns.MapsAlternate` | src/vmm.c:103-108 | between two successful mappings of a page lies a successful unmapping |
| `FrameBitmap.SetClear` | src/pmm.c:22-32 | setting and clearing a bit removes and adds exactly one frame, and leaves padding bits set |
| `FrameBitmap.BitOrder` | src/pmm.c:22-32 | frame i has bit i % 8, counted from the lowest, of byte i / 8 |
| `FrameRanges.FreedExactly` | src/pmm.c:63-83 | for every input, exactly which frames a usable range frees, wrap-around included |
| `FrameRanges.ReservedExactly` | src/pmm.c:85-108 | for every input, exactly which frames a reserved range marks |
| `FrameRanges.BytesDecide` | src/pmm.c:63-108 | a frame is inside a range when the range has all its bytes, and touched when it has one |
| `FrameRanges.FreesInsideIff` | src/pmm.c:10-12 | a usable range frees exactly the frames wholly inside it if and only if a stated condition on base and length holds |
| `FrameRanges.ReservesTouchedIff` | src/pmm.c:85-94 | a reserved range marks exactly the frames it touches if and only if a stated condition holds |
| `FrameRanges.RangesThatMissTheirAim` | src/pmm.c:63-94 | concrete ranges on which each fails |
| `FrameAllocator.Pmm.MarkFrameFree` | src/pmm.c:34-48 | frees one frame; the counters still count the bits and the hint stays below every free frame |
| `FrameAllocator.Pmm.MarkFrameUsed` | src/pmm.c:50-61 | takes one frame; the counters still count the bits |
| `FrameAllocator.Pmm.MarkRangeFree` | src/pmm.c:63-83 | frees exactly the frames of the range's interval |
| `FrameAllocator.Pmm.MarkRangeUsed` | src/pmm.c:85-108 | takes exactly the frames of the range's interval, and counts those that were free, modulo 2^64 |
| `FrameAllocator.Pmm.InitFromMap` | src/pmm.c:126-174 | refusals change nothing; otherwise a frame is free if and only if the memory map makes it available, and the reserved count is the number of frames that usable regions offer and the map withholds |
| `FrameAllocator.Pmm.AllocFrame` | src/pmm.c:176-195 | fails if and only if nothing is free; takes the first free frame from the hint on, which is the lowest of all and found without wrapping around |
| `FrameAllocator.Pmm.FreeFrame` | src/pmm.c:197-210 | accepts exactly used, aligned, non-zero frames in range, and frees that one |
| `FrameAllocator.Pmm.ReserveRange` | src/pmm.c:212-218 | takes the frames of the interval out of the free ones and counts those that were free |
| `FrameAllocator.Pmm.IsFrameFree` | src/pmm.c:220-228 | true exactly for free frames |
| `FrameAllocatorRuns.AvailableMeans` | src/pmm.c:157-170 | with regions that do not wrap: free if and only if not frame 0, wholly inside some usable region, and touched by no region of another kind |
| `FrameAllocatorRuns.OrderIrrelevant` | src/pmm.c:157-170 | the order and repetition of regions do not matter |
| `FrameAllocatorRuns.Perform` | src/pmm.c:176-218 | every run on the bitmap follows the run on sets, always returning the lowest free frame |
| `FrameAllocatorRuns.DisciplinedRun` | src/pmm.c:176-218 | when callers give back only what they got, free, outstanding and reserved frames partition the initial ones, and no outstanding or reserved frame is handed out |
| `FrameAllocatorRuns.FrameZeroStaysUsed` | src/pmm.c:163-164 | frame 0 is never free and never handed out, in any run |
| `RunQueue.EnqueueKeepsInv` | kernel/sched/mcsos_thread.c:105-123 | queueing a new or blocked thread keeps the invariant |
| `RunQueue.YieldKeepsInv` | kernel/sched/mcsos_thread.c:144-173 | yielding keeps the invariant |
| `RunQueue.BlockKeepsInv` | kernel/sched/mcsos_thread.c:184-193 | blocking keeps the invariant |
| `RunQueue.YieldHandsOn` | kernel/sched/mcsos_thread.c:144-173 | the first in line runs, the thread that yields is ready at the end of the line, and nobody else changes |
| `RunQueue.BlockHandsOn` | kernel/sched/mcsos_thread.c:184-193 | the first in line runs, the thread that blocks is blocked and in no line, and nobody else changes |
| `RunQueue.PrepareKeepsInvIff` | kernel/sched/mcsos_thread.c:86-102 | preparing a thread keeps the invariant if and only if it is unknown, or neither waits nor runs |
| `RunQueue.PrepareWaiting` | kernel/sched/mcsos_thread.c:86-102 | a state with two threads waiting in which preparing the first again breaks it |
| `RunQueueRuns.RunKeepsInv` | kernel/sched/mcsos_thread.c:62-203 | every legal run keeps it: waiting threads are ready, distinct, neither current nor idle, and nobody else runs; legal is not to enqueue a waiting thread nor to prepare again one that waits or runs |
| `RunQueueRuns.InitRunKeepsInv` | kernel/sched/mcsos_thread.c:32-203 | so every legal run from initialisation has it |
| `RunQueueRuns.StepMovesUp` | kernel/sched/mcsos_thread.c:125-173 | a switch moves a waiting thread up one place or runs it; nothing else moves it |
| `RunQueueRuns.StillWaiting` | kernel/sched/mcsos_thread.c:125-203 | until its turn a thread waits exactly as many places up as there were switches |
| `RunQueueRuns.RunsAtItsTurn` | kernel/sched/mcsos_thread.c:125-203 | a thread at position i becomes current at exactly the (i+1)-th switch and not before |
| `RunQueueRuns.YieldsAndReturns` | kernel/sched/mcsos_thread.c:144-173 | a thread that yields while n others wait runs again at exactly the n-th later switch (the first if nobody waits), and not before |
| `RunQueueRuns.StaysBlocked` | kernel/sched/mcsos_thread.c:184-203 | a blocked thread is neither in line nor current until it is prepared, enqueued or woken |
| `RunQueueRuns.SleepsUntilWoken` | kernel/sched/mcsos_thread.c:184-203 | so is one that blocks itself, and waking it is accepted and puts it at the end of the line |
| `Threads.NextInList` | kernel/sched/mcsos_thread.c:225-238 | a walk in progress is a prefix of the complete list |
| `Threads.Thread.Prepare` | kernel/sched/mcsos_thread.c:62-103 | refused exactly for a missing entry or stack, a stack below 4096 bytes and one that wraps; the first stack pointer is the highest inside the stack that is 8 above a multiple of 16 and leaves room for a word |
| `Scheduling.Scheduler.constructor` | kernel/sched/mcsos_thread.c:32-60 | the boot thread is current and idle, and nobody waits |
| `Scheduling.Scheduler.Append` | kernel/sched/mcsos_thread.c:113-121 | the list with one more thread at its end |
| `Scheduling.Scheduler.PopFirst` | kernel/sched/mcsos_thread.c:129-141 | the list without its first thread |
| `Scheduling.Scheduler.PickNext` | kernel/sched/mcsos_thread.c:125-142 | the first waiting thread, or idle |
| `Scheduling.Scheduler.Enqueue` | kernel/sched/mcsos_thread.c:105-123 | accepts exactly valid new, blocked and ready threads; the list is well formed afterwards if and only if the thread was not ready, and then has it at its end; no other thread changes state |
| `Scheduling.Scheduler.AppendedTwiceIsBroken` | kernel/sched/mcsos_thread.c:113-121 | a list to which a waiting thread was appended again is no list with matching head, tail and count |
| `Scheduling.EnqueueTwice` | kernel/sched/mcsos_thread.c:105-123 | a run that enqueues a thread twice, which is accepted and then fails validation |
| `Scheduling.Scheduler.Create` | kernel/sched/mcsos_thread.c:62-103 | preparing any thread: the scheduler is in order afterwards if and only if the thread was unknown or neither waited nor ran, and the validator notices exactly if it waited |
| `Scheduling.Scheduler.CutShortIsRefused` | kernel/sched/mcsos_thread.c:225-245 | a list cut short at a thread that is not ready is not accepted |
| `Scheduling.PrepareTwice` | kernel/sched/mcsos_thread.c:62-103 | a run that prepares a waiting thread again, which is accepted and then fails validation |
| `Scheduling.Scheduler.Activate` | kernel/sched/mcsos_thread.c:164-168 | the next thread becomes current and running; the scheduler and both threads count one switch each |
| `Scheduling.Scheduler.Yield` | kernel/sched/mcsos_thread.c:144-173 | the first waiting thread or idle runs; the thread that yields is ready at the tail, unless it is idle; no other thread changes state; a real switch is counted by the scheduler and by both threads |
| `Scheduling.Scheduler.BlockCurrent` | kernel/sched/mcsos_thread.c:184-193 | refused to idle; otherwise the current thread is blocked and not in the list, the first waiting thread or idle runs, no other thread changes state, and the switch is counted by all three |
| `Scheduling.Scheduler.MarkReady` | kernel/sched/mcsos_thread.c:195-203 | wakes blocked threads only |
| `Scheduling.Scheduler.Tick` | kernel/sched/mcsos_thread.c:175-182 | counts for the scheduler and the current thread, without touching the queue |
| `Scheduling.Scheduler.ReadyCount` | kernel/sched/mcsos_thread.c:205-216 | the walk finds as many threads as are counted |
| `Scheduling.Scheduler.Validate` | kernel/sched/mcsos_thread.c:218-246 | terminates on any list and says OK if and only if it is finite, ends at the tail, has the counted length and holds valid ready threads other than the current |
| `Scheduling.Scheduler.ValidIsAccepted` | kernel/sched/mcsos_thread.c:218-246 | every valid state is one the validator accepts |
| `SchedulingRuns.Perform` | kernel/sched/mcsos_thread.c:62-246 | every legal run on the linked list, with threads prepared on the way, has the states and return codes of the run on values, and validates |
| `SchedulingRuns.InitAndPerform` | kernel/sched/mcsos_thread.c:32-246 | the same from initialisation, final state included |

## Left out

- Null arguments (`space`, `pmm`, `out`, `sched`, `storage` pointers): excluded by types; each check is one branch.
- KernelHeap.Heap.Init: arenas that end within 48 bytes of 2^64 are not covered, because address sums of the code wrap there.
- KernelHeap.Heap.FreeChecked: forged pointers are not covered, because the code then stores through headers that do not exist;
  `ReleaseForged` covers those with null links.
- AddressSpaces.AddressSpace.MapPage: claims concern the stored leaf entry, not the access rights the processor derives from
  all levels.
- `vmm_read_cr3`, `vmm_write_cr3`, `vmm_read_cr2` and the `invlpg` instruction: hardware access.
- `pmm_state.ignored_frames`: a diagnostic that no function of the allocator reads.
- FrameAllocator.Pmm.AllocFrame: the final failure return after both searches is shown unreachable rather than written out.
- `mcsos_context_switch`, the other register contexts, the trampoline and the zero word at the top of a new stack: assembly and
  stores outside the scheduler's state.
- `kernel/core`, `kernel/arch`, `kernel/lib`, `kernel/syscall`: port I/O, logging, byte loops and a dispatch over a few calls,
  none of which keeps state that the four components share.
