# Memory management and two concurrent protocols of EbbRT

A model in Dafny of EbbRT's memory-management stack, of the driver side of its virtqueues, and of its spin
barrier, with proofs. The layers rest on one another as in the system: the early page allocator hands its free
ranges to the page allocators of the nodes (`EarlyRuns.HandOver`), the slab allocator takes its slabs from a page
allocator and gives them back (`SlabOnBuddy.EveryRun`), and the frame table takes its records from the early page
allocator (`FrameTable.MemMapInit`). `Boot` has one theorem from boot to run time for the page allocator and one for
the slab allocator on top of it.

## How it is organised

- `Bits`, `Sequences`, `Wrappers`: powers of two, alignment, the exclusive-or of one bit, the integer widths;
  lists without repetition; optional values.
- Page allocator: `BuddyModel` (state and operations as functions), `BuddyInvariant` (the partition of the
  frames), `BuddySteps`, `BuddyFree` (Free as written and as intended), `BuddyCoalesced`, `BuddyRoundTrip` (what
  undoes what), `BuddyInit`, `BuddyRuns` (every run), `BuddyTouching` (when `Init` leaves free buddies),
  `BuddyReached` (a run on which Free goes wrong), `PageAllocator` (the class).
- Slab allocator: `SlabModel`, `SlabInvariant` (the five kinds of place an object can be in), `SlabSteps`,
  `SlabPages`, `SlabRuns`, `SlabBounds` (how long the lists get), `SlabOrder` (which objects go where), `SlabSizing`,
  `SlabSpin` (a run that reaches an endless Alloc), `SlabAllocator` (the class), `SlabOnBuddy` (both allocators
  together).
- Early page allocator: `EarlyPages`, `EarlySteps`, `EarlyAllocator` (the class), `EarlyRuns`. From boot
  to run time: `Boot`. Frame table: `FrameTable`.
- Page tables: `PageWalk` (which entries the walk visits, in 64-bit arithmetic), `PageTop` and `PageEmpty` (ranges
  that end with the last byte, and empty ones), `PageTable` (trees),
  `PageMapping`, `PageTranslate` (what the processor translates; section 4.5 of the Intel SDM, Volume 3A),
  `PageMaps` (the three callers), `Vmem` (the loops as methods).
- Virtual regions: `VirtualRegions`. Spin barrier: `SpinBarrier`.
- Virtqueue: `VringModel`, `VringProofs`, `Vring` (the class), `EventChannel` (one ring with its event index,
  sections 2.4.6 to 2.4.9 of VIRTIO 1.0), `VirtioProtocol` (driver and device over both rings), `VirtioSystem` (the
  descriptor table and both rings in one state), `VirtioFlags` (the F_WRITE flag over runs).

Each component that changes state in place has a class or methods with the source's loops, proved equal to a
function of the old state; the properties are proved about the functions and about every run of them. Locks make
the locked methods single steps; the barrier and the rings, which have no lock, are interleaved step by step.

## Where the code departs from its intent

The code is kept as it is, with the exact condition under which it does what is meant.

- `Free` raises the order of a merged block but keeps its first frame: right if and only if no buddy below is met
  (`BuddyFree.FreeAsWrittenExact`). The version that moves to the lower buddy is `FreeLower`; runs use either, the
  code as written only where it is right. A run reaches a state where it is not: `BuddyReached.FourFramesReached`.
- `early_set_nid_range` never joins ranges, so those of one node may touch, and `Init` then leaves free buddies:
  `BuddyTouching.InitBuddiesExact`, `Boot.TwoBlocksStayApart`.
- `remote_check` is never cleared: `SlabRuns.AllocAsWrittenReturns` says exactly when Alloc returns, and
  `SlabSpin.SpinIsReached` reaches a state in which it does not. The class `SlabAllocatorRoot` clears the flag on a
  claim; `Claim` takes both forms.
- `free_batch` is 0 above 64 pages: `SlabSizing.FreeBatchPositive`, `SlabRuns.HiwaterBound`.
- `early_set_nid_range` loses the tail of a range that reaches past both ends, also of an empty memory block:
  `EarlySteps.NoPageLostExact`, `EarlySteps.RelabelExact`, `EarlySteps.NothingLabelledLoses`.
- `early_free_memory_range` takes the skipped bytes off twice: `EarlySteps.FreedExact`, `EarlySteps.FreedInside`.
- `early_allocate_page` compares after a 64-bit wrap: `EarlySteps.AllocExact`.
- `mem_map_init` marks a section for an empty block that starts inside it: `FrameTable.VisitsExact`,
  `FrameTable.MarkedExact`.
- `traverse_page_table` compares with an end that wraps to zero in the last 2 MiB of the address space:
  `PageWalk.QuirkExact`, `PageTop.TopEndExact`. An empty range at address 0 wraps too: `PageEmpty.EmptyExact`.
- A 2 MiB entry drops address bit 12: `PageMaps.LeafExact`, `PageMaps.MapMemoryExact`.
- A virtual region without a handler stays free: `VirtualRegions.HandlerlessExact`. A request for no pages may give
  another region its handler: `VirtualRegions.NoPagesExact`. A fault at the first address
  above the managed range is taken for one inside: `VirtualRegions.FaultOutsideExact`.
- The used ring is read without the modulo: `EventChannel.ReadAsWrittenExact`. The class and the runs index modulo
  the size. An early return of `add_writable_buffers` leaves chains unpublished: `VringProofs.NoChainLost`. With a
  ring size that does not divide 2^16 two heads of a batch may share an entry: `Vring.EntriesApartExact`. F_WRITE is
  never cleared: `VirtioFlags.ReadableCarriesWrite`.

## Model

| member | source | states |
|---|---|---|
| Bits.BuddySides | sys/page_allocator.hpp:23-25 | `pfn ^ (1 << order)` of an aligned block is the block next to it, above or below according to bit `order`, and the pair is one aligned block of the next order |
| Bits.AlignBounds | sys/align.hpp:7-13 | aligning down and up gives the nearest multiple on each side |
| Bits.AlignDownRecovers | sys/slab_allocator.cpp:50-53 | aligning down any frame of an aligned block gives the first frame of the block |
| Bits.Laminar | sys/page_allocator.hpp:23-25 | two aligned blocks are apart, or the smaller lies inside the larger |
| BuddyInvariant.TagTestExact | sys/page_allocator.cpp:119-124 | the constant-time test on the tag of the buddy frame is true if and only if the buddy heads a free block of exactly that order, although merged-away and interior frames keep old tags |
| BuddyInvariant.SplitPartition | sys/page_allocator.cpp:86-89 | replacing a block by its two halves keeps the partition of the frames |
| BuddyInvariant.MergePartition | sys/page_allocator.cpp:118-130 | replacing two buddies by the block that starts at the lower one keeps the partition of the frames |
| BuddySteps.AllocKeeps | sys/page_allocator.cpp:68-96 | AllocLocal fails exactly if no free block is as large as asked; otherwise the block comes from the least sufficient order, is handed out for the first time, the upper halves stay free and the partition is kept |
| BuddySteps.SplitDownKeeps | sys/page_allocator.cpp:86-89 | splitting from one order down to another adds exactly the upper halves to the free set |
| BuddySteps.FreeLowerKeeps | sys/page_allocator.cpp:115-132 | with the merged block starting at the lower buddy, freeing keeps the partition; the freed frames lie in one free block, whose buddy is not free |
| BuddyFree.FreeAsWrittenExact | sys/page_allocator.cpp:115-132 | Free as written keeps the partition if and only if no merge it makes meets a buddy below the frame being freed; then it does what is intended |
| BuddyFree.FreeAsWrittenHandsOutTwice | sys/page_allocator.cpp:118-131 | on four frames, freeing frame 1 as written lets the next two allocations both hold frame 2 and loses frame 0 |
| BuddyCoalesced.AllocKeepsNoBuddies | sys/page_allocator.cpp:68-96 | allocation never leaves two free buddies of one order below the largest |
| BuddyCoalesced.FreeLowerKeepsNoBuddies | sys/page_allocator.cpp:115-132 | nor does freeing |
| BuddyCoalesced.CoalescedIsUnique | sys/page_allocator.cpp:115-132 | a set of frames has only one partition without free buddies: the free set after everything is returned does not depend on the history |
| BuddyRoundTrip.FreeDependsOnLive | sys/page_allocator.cpp:68-132 | two states with the same outstanding blocks and no free buddies have the same free blocks, whatever calls led there |
| BuddyRoundTrip.AllocThenFree | sys/page_allocator.cpp:68-132 | freeing what was just allocated merges every block that was split: the free blocks are the same again |
| BuddyRoundTrip.FreeThenAlloc | sys/page_allocator.cpp:68-132 | a freed block that merges with none is the next of its order to be handed out; all lists are then as before and its record says in use, with its order |
| BuddyInit.DecomposeTiles | sys/page_allocator.cpp:20-45 | for every non-empty range the two loops of Init emit aligned blocks of order at most 11 that lie end to end over the range, and no two of them are buddies |
| BuddyInit.RangeFacts | sys/page_allocator.cpp:22-27 | within the bounds of the 32-bit builtins the divide lies in the range and the truncated operands are the operands |
| BuddyInit.ReleaseKeeps | sys/page_allocator.cpp:48-57 | putting the blocks of a fresh range on the lists adds exactly its frames to the node, all free |
| BuddyRuns.InitKeeps | sys/page_allocator.cpp:15-46 | Init over all ranges of a node, touching or not, puts each frame into exactly one free block, and the free blocks are those the ranges are cut into |
| BuddyRuns.OverwriteKeeps | sys/slab_allocator.cpp:166-170 | a client that rewrites the tags of frames it holds does not disturb the allocator |
| BuddyRuns.StepKeeps | sys/page_allocator.cpp:68-132 | each call of Alloc and Free keeps the partition of the frames, and leaves no free buddies where there were none |
| BuddyRuns.EveryRun | sys/page_allocator.cpp:15-132 | over every run from Init over any ranges, free and outstanding blocks partition the frames of the node; if Init left no two free buddies none ever coexist, and a run that returns everything ends with the free blocks it began with |
| BuddyReached.FourFramesReached | sys/page_allocator.cpp:15-132 | a legal run from Init, two allocations and a free, reaches the four frames on which Free as written goes wrong |
| BuddyTouching.RangeIsCoalesced | sys/page_allocator.cpp:20-45 | the blocks of one range partition its frames and no two of them are buddies |
| BuddyTouching.EdgeBlock | sys/page_allocator.cpp:28-44 | a block at an edge of a range that the edge does not let grow is one of the blocks Init makes |
| BuddyTouching.InitBuddiesExact | sys/page_allocator.cpp:15-46 | Init leaves two free buddies if and only if two ranges touch at a multiple of 2^k and no higher power, k below the largest order, with 2^k frames or more on either side |
| BuddyTouching.TwoHalves | sys/page_allocator.cpp:15-46 | frames 0 to 3 and 4 to 7 as two ranges are such a case |
| PageAllocator.Allocator.AddUpToDivide | sys/page_allocator.cpp:28-35 | the first loop of Init terminates and releases the blocks below the divide |
| PageAllocator.Allocator.AddFromDivide | sys/page_allocator.cpp:37-44 | the second loop terminates and releases the blocks above it |
| PageAllocator.Allocator.InitRange | sys/page_allocator.cpp:20-45 | the callback for one range releases the decomposition of the range |
| PageAllocator.Allocator.Init | sys/page_allocator.cpp:15-46 | the state after all ranges holds exactly their frames, all free |
| PageAllocator.Allocator.FreePageNoCoalesce | sys/page_allocator.cpp:106-113 | the block is at the front of the list of its order and its frame is tagged |
| PageAllocator.Allocator.TakeFront | sys/page_allocator.cpp:71-81 | takes the front block of the least order that has one |
| PageAllocator.Allocator.SplitTo | sys/page_allocator.cpp:86-89 | the splitting loop does what the recursive split does |
| PageAllocator.Allocator.AllocLocal | sys/page_allocator.cpp:68-96 | the result and the whole new state of AllocLocal, with the invariant kept; the exact case in which it fails |
| PageAllocator.Allocator.Merge | sys/page_allocator.cpp:118-130 | the merging loop as written |
| PageAllocator.Allocator.Free | sys/page_allocator.cpp:115-132 | Free as written; the invariant survives exactly if no lower buddy is met |
| PageAllocator.Allocator.MergeAtLower | sys/page_allocator.cpp:118-130 | the merging loop with the start moved to the lower buddy |
| PageAllocator.Allocator.FreeAtLower | sys/page_allocator.cpp:115-132 | Free as intended keeps the invariant and leaves no free buddies |
| SlabInvariant.ObjectFrame | sys/slab_allocator.cpp:50-53 | aligning the frame of any object down gives the first frame of its slab |
| SlabInvariant.FullListHoldsAll | sys/slab_allocator.cpp:219-230 | a slab's used count is zero exactly if every one of its objects is on its own list |
| SlabSteps.FlushRemoteKeeps | sys/slab_allocator.cpp:348-365 | flushing a remote list moves each of its objects to the incoming list of the cache that owns it, and changes no other place |
| SlabSteps.ClaimKeeps | sys/slab_allocator.cpp:242-250 | claiming moves the incoming objects to the object list |
| SlabSteps.PopObjectKeeps | sys/slab_allocator.cpp:127-131 | an allocation from the object list moves one object to the client |
| SlabPages.TakeFromKeeps | sys/slab_allocator.cpp:145-161 | an allocation from the first partial slab moves one object to the client; the partial list stays the slabs with an object to give |
| SlabPages.RelistKeeps | sys/slab_allocator.cpp:218-233 | an object that goes back to its slab is on that slab's list alone |
| SlabPages.DropKeeps | sys/slab_allocator.cpp:222-230 | a slab leaves only when every one of its objects is on its own list; none of its objects is then anywhere |
| SlabPages.ReturnKeeps | sys/slab_allocator.cpp:218-233 | returning an object, with the slab leaving or not, keeps every object in exactly one place |
| SlabPages.AddSlabKeeps | sys/slab_allocator.cpp:166-192 | a new slab brings its objects, each on the slab's list, and disturbs no other |
| SlabRuns.FreeRemoteKeeps | sys/slab_allocator.cpp:330-346 | a remote free keeps all objects placed, and the remote list is at most free_batch long afterwards |
| SlabRuns.FlushOneKeeps | sys/slab_allocator.cpp:204-237 | one round of FlushFreeList keeps all objects placed and gives nothing to a client |
| SlabRuns.FlushKeeps | sys/slab_allocator.cpp:202-238 | so does FlushFreeList |
| SlabRuns.CacheFreeKeeps | sys/slab_allocator.cpp:194-200 | freeing to a cache keeps all objects placed and takes exactly the freed object from the clients |
| SlabRuns.HiwaterBound | sys/slab_allocator.cpp:194-200 | freeing keeps the object list within hiwater if and only if free_batch is not zero |
| SlabRuns.FlushRemoteFlag | sys/slab_allocator.cpp:348-365 | a flush sets remote_check of the cache it is for if and only if it was set or the incoming list was shorter than free_batch and now is not; no other flag or list changes |
| SlabRuns.FlushRemoteWatermark | sys/slab_allocator.cpp:360-364 | every flush keeps that remote_check is set exactly where the incoming list has reached free_batch |
| SlabRuns.FreeRemoteWatermark | sys/slab_allocator.cpp:330-346 | so does every remote free |
| SlabRuns.ClaimWatermark | sys/slab_allocator.cpp:242-250 | a claim that clears the flag keeps it if and only if free_batch is not zero; one that does not clear it, as written, keeps it only where the flag was clear |
| SlabRuns.AllocPassKeeps | sys/slab_allocator.cpp:124-164 | each pass through Alloc keeps all objects placed |
| SlabRuns.SpinsForever | sys/slab_allocator.cpp:135-142 | as written, with the flag set and nothing to claim, every pass of Alloc ends where it began |
| SlabRuns.StuckForever | sys/slab_allocator.cpp:138-139 | with free_batch zero the flush loop of Alloc never ends |
| SlabRuns.AllocAsWrittenReturns | sys/slab_allocator.cpp:124-164 | Alloc as written returns if and only if there are objects, or the flag is clear, or something can be claimed and free_batch is not zero |
| SlabRuns.AllocClearedReturns | sys/slab_allocator.cpp:124-164 | with the flag cleared on a claim it returns if and only if free_batch is not zero or no claim would need the flush loop |
| SlabRuns.AllocClearedKeeps | sys/slab_allocator.cpp:124-164 | where it returns, it hands out an object that no client had, or finds nothing after at most two passes |
| SlabRuns.NewSlabServes | sys/slab_allocator.cpp:303-309 | after AddSlab the second Alloc finds an object: the assertion holds |
| SlabRuns.StepKeeps | sys/slab_allocator.cpp:124-365 | every step of Alloc, Free, FlushFreeList, FreeRemote, FlushRemoteList and ClaimRemoteFreeList keeps every object in exactly one place |
| SlabRuns.EveryRun | sys/slab_allocator.cpp:124-365 | over every run from empty caches: each object is in one place, slabs do not overlap, and a slab whose used count is zero has no object with a client |
| SlabBounds.CacheFreeBounded | sys/slab_allocator.cpp:194-238 | a whole Free to a cache keeps all three bounds: object lists within hiwater, remote lists within free_batch, and remote_check set exactly where an incoming list has reached free_batch |
| SlabBounds.FreeRemoteBounded | sys/slab_allocator.cpp:330-366 | so does a whole FreeRemote |
| SlabBounds.AllocWholeBounded | sys/slab_allocator.cpp:300-316 | so does a whole Alloc, with the new slab it may need |
| SlabBounds.AllocWholeKeeps | sys/slab_allocator.cpp:300-316 | a whole Alloc hands out an object that no client had, and fails only if there is no page |
| SlabBounds.CallKeeps | sys/slab_allocator.cpp:124-366 | each whole call, by any CPU on any cache, keeps the bounds and every object in one place |
| SlabBounds.FullIncomingServes | sys/slab_allocator.cpp:135-142 | an incoming list that reached free_batch serves the next Alloc without a page |
| SlabBounds.EveryRunBounded | sys/slab_allocator.cpp:124-366 | over every run of whole calls from empty caches, for sizes with a free batch: the bounds hold, remote_check is set if and only if the incoming list has reached free_batch, and Alloc returns on every CPU and cache |
| SlabOrder.CarveAt | sys/slab_allocator.cpp:180-185 | the list of a new slab has its objects from the last to the first |
| SlabOrder.NewSlabLastObject | sys/slab_allocator.cpp:166-192 | with no objects and none to claim, a new slab serves Alloc with its last object, before any other slab, and stays listed in front unless that was the only one |
| SlabOrder.TakeThenReturn | sys/slab_allocator.cpp:145-233 | an object taken from a partial slab and returned at once leaves the whole heap as it was; a slab that had none in use is given up |
| SlabOrder.FreeThenAlloc | sys/slab_allocator.cpp:124-200 | an object freed to a cache below hiwater is the next one it hands out, and the heap is as it was |
| SlabOrder.CacheFreeExact | sys/slab_allocator.cpp:194-200 | a Free to an object list of hiwater objects sends exactly free_batch of them away, the freed one first; any other only adds the object |
| SlabOrder.FlushLeavesLast | sys/slab_allocator.cpp:202-208 | FlushFreeList takes from the front: the last objects stay |
| SlabOrder.FlushDownLeavesLast | sys/slab_allocator.cpp:138-139 | after a claim whole batches go until the list is within hiwater and no further; the last objects stay |
| SlabOrder.LeftUnique | sys/slab_allocator.cpp:138-139 | that fixes how many stay |
| SlabOrder.AllocFrom | sys/slab_allocator.cpp:124-164 | which object Alloc hands out: the first of the object list; else, if told to look, the first incoming one that stays; else the first of the first partial slab |
| SlabOrder.FlushRemoteOrder | sys/slab_allocator.cpp:348-359 | a flush puts the remote list, in its order, behind the first object of the incoming list |
| SlabOrder.FreeRemoteExact | sys/slab_allocator.cpp:330-346 | a remote free first sends away a list that is for another cache; the object then waits in front of the list for its own cache, which goes exactly when it is longer than free_batch |
| SlabOrder.FlushOneExact | sys/slab_allocator.cpp:204-237 | a flushed object of the cache's own slab is on that slab's list, or the slab goes with its last one; any other is on the way to the cache it belongs to |
| SlabSpin.SpinIsReached | sys/slab_allocator.cpp:135-142 | a run from empty caches ends in a state in which Alloc as written never returns |
| SlabSpin.RootOfSize | sys/slab_allocator.cpp:35-48 | the run is one of a root that the sizing functions give, for objects of 64 pages |
| SlabSizing.SlabOrder | sys/slab_allocator.cpp:13-32 | the loop finds the least order from its start on that wastes little enough, or runs past the maximum |
| SlabSizing.StartOrderFits | sys/slab_allocator.cpp:14-18 | the search starts at the least order whose slab holds one object |
| SlabSizing.QuarterWaste | sys/slab_allocator.cpp:21-26 | a slab order suits exactly if what is left after its last object is at most a quarter of the slab |
| SlabSizing.CalculateOrder | sys/slab_allocator.cpp:35-43 | for every size from 8 to the largest slab: the least order up to 1 that fits and wastes at most a quarter, or else the least order that fits one object |
| SlabSizing.FreeBatchExact | sys/slab_allocator.cpp:45-48 | the batch is the greatest number of objects that fit 4 pages, or that are at most 256 and fit 64 pages |
| SlabSizing.FreeBatchPositive | sys/slab_allocator.cpp:45-48 | the batch is not zero if and only if the size is at most 64 pages |
| SlabSizing.RootIsOk | sys/slab_allocator.cpp:408-415 | the numbers of the constructor give at least one object per slab |
| SlabAllocator.SlabAllocatorRoot.AddSlab | sys/slab_allocator.cpp:166-192 | carves the slab in the loop and files it |
| SlabAllocator.SlabAllocatorRoot.FlushRemoteList | sys/slab_allocator.cpp:348-365 | the new lists and flag |
| SlabAllocator.SlabAllocatorRoot.FreeRemote | sys/slab_allocator.cpp:330-346 | retargets, pushes and flushes as the function says |
| SlabAllocator.SlabAllocatorRoot.FlushFreeList | sys/slab_allocator.cpp:202-238 | the loop does what the recursive function does |
| SlabAllocator.SlabAllocatorRoot.ReturnToSlab | sys/slab_allocator.cpp:218-233 | the two branches on the used count |
| SlabAllocator.SlabAllocatorRoot.CacheFree | sys/slab_allocator.cpp:194-200 | push, then flush above hiwater |
| SlabAllocator.SlabAllocatorRoot.ClaimRemoteFreeList | sys/slab_allocator.cpp:242-250 | both branches append the incoming list |
| SlabAllocator.SlabAllocatorRoot.FlushToHiwater | sys/slab_allocator.cpp:138-139 | the flush loop terminates at hiwater |
| SlabAllocator.SlabAllocatorRoot.CacheAlloc | sys/slab_allocator.cpp:124-164 | Alloc with the flag cleared, for every heap on which it returns |
| SlabAllocator.SlabAllocatorRoot.Alloc | sys/slab_allocator.cpp:300-316 | the new state; hands out an object that no client had; fails only if the page allocator does; keeps the bounds on all lists |
| SlabAllocator.SlabAllocatorRoot.Free | sys/slab_allocator.cpp:318-328 | the new state; takes exactly the freed object from the clients; keeps the bounds on all lists |
| SlabOnBuddy.BlockIsNew | sys/slab_allocator.cpp:304-307 | what the page allocator returns is aligned and is no slab: AddSlab may be called |
| SlabOnBuddy.SlabsAfter | sys/slab_allocator.cpp:202-238 | a step of the slab allocator gives up at most one slab and makes none |
| SlabOnBuddy.SlabStepKeeps | sys/slab_allocator.cpp:202-238 | a slab that a step gives up is the very (pfn, order) block that was obtained and is still out; it goes back to the page allocator, and nothing else does |
| SlabOnBuddy.StepKeeps | sys/slab_allocator.cpp:202-316 | each step of both allocators and of other clients keeps both in order |
| SlabOnBuddy.ObjectsLieInBlocks | sys/slab_allocator.cpp:300-328 | an object in use lies in a block that is out, so none of its frames is free |
| SlabOnBuddy.EveryRun | sys/slab_allocator.cpp:124-365 | over every run of both allocators together, from Init over any ranges: the frames are partitioned, every slab is one outstanding block, an object in use lies in such a block and none of its frames is free |
| EarlyPages.FreeKeeps | sys/early_page_allocator.cpp:26-37 | freeing adds exactly the given pages; the set stays sorted, disjoint and, if it was, maximally coalesced; the node of every page afterwards |
| EarlyPages.FreeLabelsExact | sys/early_page_allocator.cpp:17-24 | freeing gives the pages their node and leaves the others theirs if and only if the ranges it joins have the same node |
| EarlySteps.AllocExact | sys/early_page_allocator.cpp:54-72 | the wrapped comparison finds the first fit if and only if the lowest range of the node does not end below the number of pages asked for |
| EarlySteps.AllocWraps | sys/early_page_allocator.cpp:59-68 | asked for four pages with only frame 1 free, the code returns frame 2^64 - 2 |
| EarlySteps.AllocKeeps | sys/early_page_allocator.cpp:54-72 | a first fit takes exactly npages free pages of the node, the top of the lowest range that has enough, and fails only if there is none |
| EarlySteps.RelabelLabels | sys/early_page_allocator.cpp:83-115 | what becomes of each page: labelled, kept, unlabelled or lost, by its own range alone |
| EarlySteps.RelabelSorted | sys/early_page_allocator.cpp:83-115 | the set stays in order; it stays free of empty ranges if and only if the stretch is not empty or no range reaches past it on both sides |
| EarlySteps.RelabelExact | sys/early_page_allocator.cpp:83-115 | for an empty stretch too, exactly the free pages of the stretch change their node, if and only if the range that goes on past the end begins inside and is unlabelled |
| EarlySteps.NoPageLostExact | sys/early_page_allocator.cpp:91-98 | no free page is lost if and only if no range reaches past both ends |
| EarlySteps.RelabelLoses | sys/early_page_allocator.cpp:91-98 | of eight free pages, labelling the third and fourth loses the last four |
| EarlySteps.NothingLabelledLoses | sys/early_page_allocator.cpp:91-98 | labelling an empty stretch inside eight free pages loses those above it and leaves an empty range |
| EarlySteps.FreedExact | sys/early_page_allocator.cpp:40-52 | exactly the pages wholly inside the memory are freed if and only if nothing was skipped beyond it or the rest modulo the page size is at least what was skipped |
| EarlySteps.FreedInside | sys/early_page_allocator.cpp:40-52 | every page freed lies inside the memory unless the rest after the skip is shorter than the skip; then 2^64 - 1 pages are freed |
| EarlySteps.ShortRegionWraps | sys/early_page_allocator.cpp:42-51 | 4097 bytes from address 1: the code frees a range of 2^64 - 1 pages |
| EarlyAllocator.FreePages.CoalesceNext | sys/early_page_allocator.cpp:17-24 | joins two neighbours if they touch and returns the iterator that stays valid |
| EarlyAllocator.FreePages.FreePageRange | sys/early_page_allocator.cpp:26-37 | insert and both joins; exactly the given pages are added |
| EarlyAllocator.FreePages.EarlyFreeMemoryRange | sys/early_page_allocator.cpp:40-52 | frees only pages wholly inside the memory, and all of them if and only if the rest modulo the page size is at least what was skipped |
| EarlyAllocator.FreePages.EarlyAllocatePage | sys/early_page_allocator.cpp:54-77 | the loop over the ranges, as written |
| EarlyAllocator.FreePages.CutBelow | sys/early_page_allocator.cpp:91-99 | the branch for a range that straddles the start |
| EarlyAllocator.FreePages.CutAbove | sys/early_page_allocator.cpp:101-113 | the branch for a range that goes on past the end |
| EarlyAllocator.FreePages.EarlySetNidRange | sys/early_page_allocator.cpp:83-115 | the loop that inserts while it walks ends, and leaves the ranges the recursive definition gives, for an empty stretch too |
| EarlyRuns.EveryRun | sys/early_page_allocator.cpp:17-115 | over every run from the empty set: ranges sorted and disjoint, every page given is free or handed out but not both, and without relabelling no two ranges touch |
| EarlyRuns.HandOver | sys/early_page_allocator.hpp:42-54 | after every run of the early allocator, the page allocator of each node starts with exactly the free pages of that node, each in one aligned free block; free buddies coexist if and only if two of its ranges meet, and without relabelling none do |
| Boot.PagesFromBoot | sys/early_page_allocator.hpp:42-54 | after any run of the early allocator and then any run of the page allocator of a node: every page of the node is in exactly one free or outstanding block and was not handed out before; if no two ranges met, no free buddies coexist and a run that returns everything restores the free blocks |
| Boot.SlabsFromBoot | sys/early_page_allocator.hpp:42-54 | the same with the slab allocator on top: every slab is one outstanding block, and no frame of an object in use is free or was handed out early |
| Boot.TwoBlocksRun | sys/numa.cpp:16-23 | labelling two adjacent memory blocks of one node leaves two ranges that touch |
| Boot.TwoBlocksStayApart | sys/numa.cpp:16-23 | its page allocator then starts with two free buddies of order 2, and a request for the eight pages fails |
| FrameTable.LookupExact | sys/mem_map.hpp:67-98 | pfn_to_page on the encoded word gives the frame's record in the section's own array, in 64-bit arithmetic, unless the array lies exactly at the offset subtracted; then it gives the null pointer |
| FrameTable.LookupHides | sys/mem_map.hpp:67-98 | records of section 1 placed at 0x150000 are not found |
| FrameTable.VisitsExact | sys/mem_map.cpp:17-24 | the loop over a block marks exactly the sections the block meets, unless the block is empty and starts inside a section |
| FrameTable.MarkedExact | sys/mem_map.cpp:11-25 | for every list of blocks, exactly the sections that some block meets are marked, if and only if each empty block that starts inside a section starts in one that some block meets |
| FrameTable.StrayMarks | sys/mem_map.cpp:17-24 | an empty block at frame 1 marks section 0 |
| FrameTable.MapSize | sys/mem_map.cpp:27-29 | the records of a section take the least number of pages that hold them |
| FrameTable.EarlyWordNode | sys/mem_map.hpp:59-66 | what set_early_nid stores reads as present, and early_get_nid gives the node back |
| FrameTable.NodeIsFirst | sys/mem_map.cpp:11-25 | the node of a section is that of the first block whose loop comes to it; there is none if no block does |
| FrameTable.MarkSections | sys/mem_map.cpp:11-25 | the nested loops leave in each section the word of the node of the first block that visits it |
| FrameTable.MarkBlock | sys/mem_map.cpp:17-24 | the loop over the sections of one block |
| FrameTable.PlaceNext | sys/mem_map.cpp:32-40 | an allocation for the next section is apart from all earlier ones |
| FrameTable.PlaceMaps | sys/mem_map.cpp:27-42 | every present section gets its own pages, free before and of its node, and the word that encodes them, if the comparison of the early allocator wraps for none of them |
| FrameTable.HighNeverWraps | sys/mem_map.cpp:32-37 | it never does with all free memory above the first 336 frames |
| FrameTable.SameWraps | sys/mem_map.cpp:27-34 | whether it wraps is decided by the nodes of the sections, as the words give them back |
| FrameTable.MemMapInit | sys/mem_map.cpp:9-42 | both loops: the records of a section lie in pages that were free pages of the node of the first block that visits it, apart from all others, and looking up any frame finds its record there; it stops only at a section for which no free range of that node is large enough |
| FrameTable.HighMemory | sys/mem_map.cpp:32-37 | the condition of that holds with all free memory above the first 336 frames |
| FrameTable.RecordsDisjoint | sys/mem_map.hpp:92-98 | two frames never share a byte of their records |
| PageWalk.WalkIsTiling | sys/vmem.hpp:71-96 | for every page-aligned range the walk in 64-bit arithmetic, from the root, visits exactly the reference tiles, in order; a range that begins at or below the last 2 MiB block and ends inside it is walked to the top |
| PageTop.TopEndExact | sys/vmem.hpp:71-96 | a range that ends with the last byte of the address space, whose end is 0, is walked right if and only if it is the last page or the last 2 MiB block; any other goes below the last level |
| PageTop.TopRoot | sys/vmem.hpp:71-96 | on a tree such a range sets its one tile, or fails |
| PageWalk.QuirkExact | sys/vmem.hpp:87-88 | the walk stays within the range if and only if the range does not begin at or below the last 2 MiB block and end inside it |
| PageWalk.QuirkInput | sys/vmem.hpp:87-88 | for the first page of the last 2 MiB block the walk calls found on the whole block |
| PageEmpty.EmptyExact | sys/vmem.hpp:71-96 | the walk over an empty range calls found on nothing, and ends, if and only if its address is not 0 |
| PageEmpty.EmptyRoot | sys/vmem.hpp:71-96 | on a tree it then succeeds exactly if the table in which the address starts an entry is there, or is missing and may be made, and changes no translation |
| PageWalk.RefIsTiling | sys/vmem.hpp:86-95 | the reference tiles are ordered, aligned, without gap or overlap, from start to end |
| PageWalk.LargeTiles | sys/vmem.hpp:87-89 | there is a 2 MiB tile exactly where an aligned 2 MiB block lies wholly inside, and a page exactly elsewhere |
| PageWalk.IndexOfCanonical | sys/vmem.hpp:59-66 | sign extension does not change a table index |
| PageMapping.WalkIsTiles | sys/vmem.hpp:71-96 | the walk with its callbacks on a tree of tables does what the callback at one reference tile after the other does, failures included |
| PageTranslate.SetThenGet | sys/vmem.hpp:71-96 | setting a tile succeeds exactly if the callback is defined on the entry found there, and puts its result there |
| PageTranslate.SetKeepsOther | sys/vmem.hpp:71-96 | a tile apart from the one set holds what it held |
| PageTranslate.SetKeepsAddress | sys/vmem.hpp:71-96 | an address outside the tile set translates as before |
| PageTranslate.SetAll | sys/vmem.hpp:71-96 | for a whole tiling: success exactly if the callback is defined at each tile in the tree as it was; each tile new, everything else as before |
| PageMaps.RangeOutcome | sys/vmem.hpp:71-96 | the same for the walk over any range of pages, up to the last byte of the space: it succeeds if and only if it also stays above the last level |
| PageMaps.IdentityReady | sys/vmem.cpp:24-30 | identity mapping is defined exactly where each tile is free or a leaf that shows the tile's own address |
| PageMaps.UnmapReady | sys/vmem.cpp:52-63 | unmapping is defined exactly where each tile holds a mapping or a table; a missing entry or table aborts |
| PageMaps.VisibleBits | sys/vmem.hpp:15-20 | an entry shows bits 12 to 51 of an address, and not bit 12 if it is large |
| PageMaps.LeafExact | sys/vmem.hpp:15-34 | a leaf translates its tile in order if and only if its address is aligned to the size of the tile |
| PageMaps.MapMemoryExact | sys/vmem.cpp:67-85 | map_memory succeeds exactly if no tile is mapped and the walk stays above the last level; nothing outside changes; translate(vaddr + i) = paddr + i on the whole range if and only if it holds no 2 MiB block or the frames agree modulo 512 |
| PageMaps.IdentityMapped | sys/vmem.cpp:17-43 | after early_map_memory each address of the range translates to itself, above the middle of the address space to its low 52 bits, and all others as before |
| PageMaps.RemapExact | sys/vmem.cpp:24-27 | mapping an identity-mapped range again changes no entry if the range lies below the middle, and fails otherwise |
| PageMaps.UnmapRestores | sys/vmem.cpp:45-65 | early_map_memory and then early_unmap_memory on a free range that the walk covers both succeed and restore the translation of every address |
| Vmem.Traverse | sys/vmem.hpp:71-96 | the recursive method with its loop computes the walk |
| Vmem.RoundedRange | sys/vmem.cpp:18-22 | in either half the rounding touches exactly the pages that the bytes touch, the page of an empty range inside a page included; a range that ends inside the last 2 MiB is walked to the top |
| Vmem.EarlyMapMemory | sys/vmem.cpp:17-43 | for every range in one half, empty or up to the last byte: it succeeds exactly if the walk ends and each tile is free or mapped to its own address, and what every address translates to afterwards |
| Vmem.EarlyUnmapMemory | sys/vmem.cpp:45-65 | for every range in one half, empty or up to the last byte: it succeeds exactly if the walk ends and each tile holds a mapping or a table; then the tiles hold nothing, and all other addresses translate as before |
| Vmem.MapMemory | sys/vmem.cpp:67-85 | for every range of pages in one half: when it succeeds, and when the range is translated as asked; over no pages nothing changes |
| VirtualRegions.AllocKeeps | sys/vmem_allocator.cpp:30-55 | an allocation takes pages that belong to nobody, the top of the highest free region that has enough, gives them to the handler and changes no other owner; the regions still tile the range |
| VirtualRegions.HandlerlessExact | sys/vmem_allocator.cpp:36-48 | the next allocation of as many pages returns the same pages if and only if they got no handler |
| VirtualRegions.NoPagesExact | sys/vmem_allocator.cpp:33-48 | a request for no pages leaves every page its owner if and only if no region lies above the highest free one or it has the same handler; otherwise that region gets the new handler |
| VirtualRegions.AllocIsRight | sys/vmem_allocator.cpp:33-48 | with at least one page the map never holds the key already, and the outcome is the carving |
| VirtualRegions.ManagedRange | sys/vmem_allocator.cpp:24-28 | the managed pages are those of the addresses from 0xFFFF800000000000 up to 0xFFFFFFFF00000000 |
| VirtualRegions.EveryRun | sys/vmem_allocator.cpp:24-55 | over every run the regions tile the managed range, pages handed out hold managed addresses only, and pages handed out with a handler are part of no later result |
| VirtualRegions.FaultFinds | sys/vmem_allocator.cpp:57-65 | a fault inside the range goes to the handler of the one region that holds its page |
| VirtualRegions.FaultOutsideExact | sys/vmem_allocator.cpp:60-62 | outside the range every fault is stopped but one: at the first address above it |
| VirtualRegions.VMemAllocator.AllocPages | sys/vmem_allocator.cpp:30-55 | the loop over the map for every request; the new map and the result as written |
| SpinBarrier.StepKeeps | sys/spinlock.hpp:29-39 | every atomic step of any thread keeps the invariant |
| SpinBarrier.EveryRun | sys/spinlock.hpp:29-39 | over every interleaving of n threads and any number of rounds: no thread leaves a round before all have arrived at it, and none is more than a round ahead |
| SpinBarrier.ResetLosesNothing | sys/spinlock.hpp:32-34 | when the last thread clears the waiters all n have arrived and none can be arriving |
| SpinBarrier.RoundsInStep | sys/spinlock.hpp:36-37 | a spinning thread can leave if and only if its round has been counted |
| SpinBarrier.NeverStuck | sys/spinlock.hpp:29-39 | in every reachable state some thread has a step that changes something |
| SpinBarrier.RoundEnds | sys/spinlock.hpp:29-39 | from every reachable state and under every schedule a round ends within 6n such steps |
| VringProofs.InitialInv | sys/virtio.hpp:116-119 | the constructor leaves all descriptors in one free chain, zero but for their links, which go round |
| VringProofs.AddKeeps | sys/virtio.hpp:142-163 | taking descriptors for a list of buffers keeps the partition of the descriptors into the free chain and the chains with the device |
| VringProofs.ReclaimKeeps | sys/virtio.hpp:261-264 | giving a chain back puts exactly its descriptors at the front of the free chain |
| VringProofs.PostThenReclaim | sys/virtio.hpp:189-205 | posting and reclaiming restores the free chain: head, count and links |
| VringProofs.WalkIsChain | sys/virtio.hpp:254-259 | following F_NEXT visits exactly the chain, in order, and stops |
| VringProofs.ReceivedArePosted | sys/virtio.hpp:247-260 | what the callback gets are the buffers that were posted, in order, sizes modulo 2^32 |
| VringProofs.ReadableIsClean | sys/virtio.hpp:195-205 | a readable chain carries no F_WRITE exactly if its descriptors carried none |
| VringProofs.PublishedHead | sys/virtio.hpp:190-211 | a readable list that is empty would publish a descriptor that stays free |
| VringProofs.FittingIsExact | sys/virtio.hpp:133-140 | add_writable_buffers stops at the first list that does not fit after the ones before it |
| VringProofs.NoChainLost | sys/virtio.hpp:139-140 | no chain is taken without being published if and only if the whole batch fits or its first list does not |
| Vring.Queue.constructor | sys/virtio.hpp:87-120 | the loop links the descriptors; all are free |
| Vring.Queue.TakeChain | sys/virtio.hpp:142-159 | the loop over the buffers does what the recursive definition does |
| Vring.Queue.PostChain | sys/virtio.hpp:142-163 | the chain is taken from the front of the free chain and its head put on the available ring |
| Vring.Queue.AddReadable | sys/virtio.hpp:189-225 | the new table, ring, index and references, for an empty list too; the device is notified exactly if its event index lies in the window |
| Vring.Queue.AddWritable | sys/virtio.hpp:127-187 | each list that fits is in a new chain with its own buffers, whose head is the next entry of the available ring; the device finds every head at the entry of its index if and only if the size divides 2^16 or the batch is short or does not wrap; the new index, and when the device is notified; on an early stop the index stays |
| Vring.EntriesApartExact | sys/virtio.hpp:162-163 | consecutive 16-bit indices have different ring entries if and only if the ring size divides 2^16, or there are no more of them than 2^16 modulo the size, or they do not wrap |
| Vring.PublishedExact | sys/virtio.hpp:162-163 | so the heads of a batch are all where the device looks under the same condition |
| Vring.Queue.Collect | sys/virtio.hpp:249-259 | the walk collects the buffers of the chain |
| Vring.Queue.GiveBack | sys/virtio.hpp:247-264 | the chain goes to the front of the free chain and its buffers are returned |
| Vring.Queue.ProcessUsed | sys/virtio.hpp:227-268 | each list the device has used is handed over once, with the buffers posted, in the order of the ring; it returns after a look, made after the event index was stored, that showed nothing new; references stay, and are stale exactly if a list handed over had one |
| Vring.Queue.CleanUsed | sys/virtio.hpp:270-305 | each chain used goes back to the free chain, with the references to its buffers; the same two looks end it |
| EventChannel.CrossesExact | sys/virtio.hpp:180-184 | the 16-bit comparison is true if and only if the event index is that of an entry just published, across the wrap-around |
| EventChannel.SlotWraps | sys/virtio.hpp:162-163 | the ring position of a 16-bit index is that of its counter when the size divides 2^16 |
| EventChannel.LooksExact | sys/virtio.hpp:231-245 | comparing the 16-bit indices tells whether an entry is published that the consumer has not taken |
| EventChannel.StepKeeps | sys/virtio.hpp:131-184 | every step of producer and consumer in any order keeps the ring contents and the promise of a notification |
| EventChannel.DecideNotifies | sys/virtio.hpp:180-184 | after the producer has read the event index a notification is pending exactly if one was, or the event index lies in its window, as it does if the consumer sleeps on an entry of it |
| EventChannel.PendingExact | sys/virtio.hpp:180-184 | over every run of either side a notification is pending if and only if it was raised by a step that found the event index among the entries it had published, and no wake-up came since |
| EventChannel.RecheckNeeded | sys/virtio.hpp:231-242 | a run after which sleeping without the second look would lose a wake-up; the second look keeps the consumer awake |
| EventChannel.NoLostWakeup | sys/virtio.hpp:231-245 | a sleeping consumer with entries to consume has a notification pending or about to be decided |
| EventChannel.QuietMeansDone | sys/virtio.hpp:231-245 | when neither side has a step left everything published has been consumed |
| EventChannel.ReadAsWrittenExact | sys/virtio.hpp:247-247 | reading the used ring without the modulo gives the right entry if and only if the index is below the ring size |
| VirtioProtocol.MoveKeeps | sys/virtio.hpp:127-305 | each move of driver and device over both rings keeps every posted chain in exactly one place |
| VirtioProtocol.EveryRun | sys/virtio.hpp:127-305 | over every interleaving from an idle queue: each posted chain is in one place, neither ring overflows, no wake-up is lost in either direction |
| VirtioProtocol.RunLeads | sys/virtio.hpp:127-305 | each ring sees of a run of driver and device just its own steps, in order, and a write never finds it full |
| VirtioProtocol.NotifiedExact | sys/virtio.hpp:180-222 | so over every interleaving from an idle queue each kick or interrupt that is pending was raised by a crossing of the event index, and each crossing is pending until it is answered |
| VirtioProtocol.QuietQueue | sys/virtio.hpp:227-245 | when both sides have run out of steps all published chains are fetched and all used ones reclaimed |
| VirtioSystem.PostingPossible | sys/virtio.hpp:139-140 | the check of the free count passes exactly if the free chain has as many descriptors as the list has buffers |
| VirtioSystem.EntryIsPosted | sys/virtio.hpp:247-259 | the driver does not check what the device names on the used ring: it is a posted chain, and the walk sees it with the buffers posted |
| VirtioSystem.ActKeeps | sys/virtio.hpp:127-305 | posting a list, taking a used chain back and each ring step keep the descriptors, both rings and the account of all lists together |
| VirtioSystem.EveryRun | sys/virtio.hpp:127-305 | over every run: free chain and posted chains partition the descriptors, each posted chain is in exactly one of available ring, device and used ring, every list posted is with one chain or was handed back exactly once with its own buffers, and no wake-up is lost |
| VirtioFlags.RunFlags | sys/virtio.hpp:154-154 | over every run a descriptor carries F_WRITE exactly if it did at the start or was taken for a list that the device writes |
| VirtioFlags.ReadableCarriesWrite | sys/virtio.hpp:195-205 | so after any run from an idle queue the descriptors of a readable list carry F_WRITE if and only if they were ever taken for a writable one |

## Left out

- Multi-node dispatch: `PageAllocator::Alloc` for another node is the same method on that node's object; frames
  are freed to their own node and no buddy pair crosses nodes (`ForeignQuiet` in the invariant states it).
- `Free` as written with a stale tag after a downward merge: the source would erase a node that is on no list;
  the model then removes nothing. `FreeAsWrittenExact` already counts every such run as wrong.
- `Init` of the page allocator on ranges of 2^31 frames or more, or frames above 2^32: the builtins are 32-bit.
- The memory of free pages and free objects, and the intrusive nodes in them: lists are sequences of frame numbers
  or addresses.
- Slab bootstrap, `operator new`, the per-node allocators' creation and the destructors: the caches of CPUs and of
  nodes are caches of one heap. The slab methods take the CPU as a parameter.
- The splice of `ClaimRemoteFreeList` into a list that is not empty: the order of the two parts is fixed to old
  then new. Alloc claims only when the list is empty.
- Weak memory order: atomics and fences are sequentially consistent. Polling of one cell takes one step.
- Page tables that share a page of entries, and their physical placement: tables are trees of values, so in-place
  update is modelled by the new tree. A present leaf where a table is expected has no defined result (None), as
  has a range that is not page-aligned, which the source would follow below the last level. A table found where
  early_map_memory maps a tile is never at the tile's own address. Permissions are not modelled.
- Vmem.EarlyMapMemory: for ranges of canonical addresses in one half of the address space.
- Vmem.MapMemory: for lengths that are whole pages; the source would follow any other below the last level.
- Invalidation of cached translations, CR3, and the copy of the root for other processors.
- Vring.Queue.ProcessUsed: the entries it reads are those the device puts on the ring during the call, and the
  device stops doing so at some time.
- EarlyAllocator.FreePages.EarlyFreeMemoryRange: not where the number of pages wraps (`EarlySteps.FreedInside`); what
  a range of 2^64 - 1 pages does to the set is not modelled.
- The byte layout and size of a ring, the buffers themselves, feature negotiation and interrupts.
- VirtualRegions.AllocKeeps: for at least one page; a request for none is in `VirtualRegions.NoPagesExact`.
- FrameTable.PlaceMaps: of a run in which the early allocator's comparison wraps (`EarlySteps.AllocExact`) only the
  words are stated, not where the records lie. The size of a record is taken as 42 bytes, its contents are left out.
- The spin lock (mutual exclusion of an atomic flag), the event loop, clocks, ACPI, PCI, lwIP and Ebb translation.
