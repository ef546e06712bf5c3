# Verified model of the RK3568 memory manager

This project models the allocators, ledgers, tables and encodings of the RK3568 memory manager in Dafny and
proves what they keep over whole runs. `dafny verify dfyconfig.toml` checks all of it.

| file | what it models |
|---|---|
| `DmaMerge`, `DmaWalk`, `DmaLedger`, `DmaCounters`, `DmaOwners`, `DmaMemory`, `DmaRequests`, `DmaReuse`, `DmaEffects`, `DmaAllocator` | the DMA allocator: merging and defragmentation of free blocks, the list walk of the merge to the letter, the two-level ledger, the other counters, frees and their owners, what the lists cover, the ledger in terms of the callers' requests, memory that is granted again, single calls field by field, and the classes for pool and allocator |
| `PoolLedger`, `PoolAudit`, `PoolCapacity`, `PoolShrink`, `PoolPages`, `PoolSource`, `PoolEffects`, `PoolManager` | the typed pools of the pool manager: what each operation does, the accounts of honest runs, the capacity of a pool, exactly when shrinking keeps it, the same for sources that grant whole pages, the ledger against the page source, single calls field by field and what pools were created as, and the classes |
| `BlockTracker`, `BumpPools`, `MemorySearch`, `HexCodec`, `BitArrays` | the memory utilities library: the doubly linked allocation tracker, the bump allocators and their table, substring search, hex printing and parsing, bit arrays |
| `HistoryRing` | the sample history of the DDR monitor |
| `DdrLayout`, `PartitionTable`, `DdrTimings` | the layout checks, U-Boot's partition table, and the timing words of driver and U-Boot |
| `DdrManager` | headers, aligned placement and overflow check of the DDR manager library |
| `MachineWords`, `Alignment`, `Intervals`, `Lists`, `Options`, `Runs`, `MemoryUtilsCodes` | 64-bit words and bit operations, the alignment helpers, ranges of addresses, sequences, absent values, the induction principle for runs, return codes |

An operation that updates state in place is a method of a class. Its contract ties the old state to the new one
through a function on values (`DmaLedger.Allocate`, `BlockTracker.Apply`, ...), and the properties of runs are
lemmas about these functions: `Runs.Run` applies a sequence of operations, `Runs.Admitted` says which operations
may occur. The page sources (`gen_pool_alloc`, `dma_alloc_coherent`, `malloc`) appear as the answers they give:
a `Grant`, a list of granted addresses, or a `grant` parameter, any of which may refuse. Each public operation is
one atomic step.

Byte counters and addresses are 64-bit words and wrap; where a property needs that they do not, the contract says
so or gives the exact condition. `And`, `Or` and `Xor` are defined bit by bit on naturals, the timing words are
bit-vectors.

## Where the code departs from its intent

The model follows the code. Each of these departures is a theorem:

- `dma_block_merge` frees the node its list walk has cached. `DmaWalk` models the walk with its two cursors and a
  set of freed nodes; `DmaWalk.LiteralPassExactly` shows that it reads a freed node if and only if the pass merges
  anything, and `DmaWalk.NeighboursReadFreedNode` gives a run that gets there. `DmaMerge.Pass`, on which everything
  else is built, resumes behind the absorbed block instead.
- `dma_allocator_free` subtracts the size the caller passes, the pool that of the block. `DmaLedger.UsedSizeExactly`
  and `DmaOwners.FreeUndoesAlloc` give the exact condition for a right ledger, and `DmaRequests.UsedSizeIsExact` that
  the aligned size of the request meets it. A free of too much wraps used_size past its peak:
  `DmaCounters.FreeKeepsPeakExactly` and `DmaCounters.PeakMissesWrap`, and the same in `PoolLedger`.
- `dma_pool_free` gives the memory back to the page source and then keeps its descriptor on the free list, which no
  allocation looks at. `DmaReuse.ReuseExactly` gives the exact condition under which an allocation puts an address on a
  used and a free list at once, `DmaReuse.RecycledIsInUseAndFree` the ordinary run in which it does.
- A pool that is created without a device-tree region has no flags and is never tried:
  `DmaCounters.DefaultPoolServesNothing`.
- The busy check of `pool_destroy` looks at a list that is never filled, so it refuses in no reachable state:
  `PoolLedger.NeverBusy`, with `PoolLedger.DestroyKeepsSumsExactly` for what that costs. Creation accepts overlapping
  ranges: `PoolLedger.RoutingExactly` and `PoolLedger.OverlappingPoolsMisroute`.
- `pool_shrink` looks at how much is used, not where. `PoolShrink.ShrinkExactly` and `PoolShrink.FirstShrinkExactly`
  give the exact condition under which the pool can never use more than its new total, `PoolShrink.ShrinkOverflows`
  a run in which it does. It also removes memory below the pool's original end each time, so a second shrink never
  keeps the capacity: `PoolShrink.SecondShrinkNeverFits`.
- An aligned allocation takes the pages of the aligned size from the page source, and a free gives back those of the
  size of the request. `PoolSource.LeakExactly` says exactly when these are fewer, which they never are for alignments up
  to a page, `PoolSource.SourceHoldsExactly` that the rest stays out for good, and `PoolSource.TwoPageByteLeaks` is an
  input.
- `memory_utils_pool_alloc` compares wrapped addresses: `BumpPools.AllocSoundExactly` and
  `BumpPools.WrappingRequestServed`. Destroying a pool other than the last gives up the wrong id, and a later creation
  overwrites a pool in use: `BumpPools.OverwritesExactly` and `BumpPools.MiddleDestroyRepeatsId`. The cleanup loop stops
  half way: `BumpPools.PoolTable.Cleanup` and `BumpPools.CompactCleanup`.
- The byte peak of the tracker misses a counter that wraps below zero: `BlockTracker.FreeKeepsBytePeakExactly` and
  `BlockTracker.BytePeakMissesWrap`.
- The overlap check compares wrapped ends: `DdrLayout.VerdictExactly`. Layouts whose bootloader region starts at
  0, which is where the default layouts put it, are refused: `DdrLayout.DefaultLayoutsRefused`. The search for
  free memory ignores its limit and every size that wraps: `DdrLayout.LayoutManager.FindFree`.
- `ddr_partition_init` adds its defaults before the table counts as initialized, so all are refused:
  `PartitionTable.Table.Init`. Ids repeat after a removal from the middle: `PartitionTable.MiddleRemovalRepeatsId`. A
  removal does not lower the total size: `PartitionTable.TotalSizeExactly`.
- The hex parser does not accept the printer's own text: `HexCodec.RawOutputExactly`.
- Timing fields of 256 and more leak into their neighbours: `DdrTimings.WideFieldsLeak`.
- `ddr_free` does not find the header of an aligned allocation: `DdrManager.AlignedFreeExactly` says what it does find,
  `DdrManager.AlignedLeaksExactly` which placements leak for certain, and `DdrManager.CacheLinesLeak` that allocations
  aligned to 32 or 64 bytes do on blocks at multiples of 64. An alignment of 0 passes:
  `DdrManager.AlignAcceptedExactly`.

## Model

| member | source | states |
|---|---|---|
| DmaMerge.PassHalvesRuns | kernel/drivers/memory_allocator/dma_allocator.c:299-324 | one merge pass turns each maximal run of r contiguous free blocks into ceil(r/2) blocks, and joins no runs |
| DmaMerge.PassKeepsCoalesced | kernel/drivers/memory_allocator/dma_allocator.c:299-324 | a pass does not change what the free list coalesces to in the end |
| DmaMerge.SettledFixpoint | kernel/drivers/memory_allocator/dma_allocator.c:306-319 | a list has no contiguous neighbours iff its longest run is 1; a pass then changes nothing, and shortens every other list |
| DmaMerge.PassPairsRun | kernel/drivers/memory_allocator/dma_allocator.c:306-319 | in a run of contiguous blocks a pass joins the first with the second, the third with the fourth and so on |
| DmaMerge.PassSplitsAtGap | kernel/drivers/memory_allocator/dma_allocator.c:306-319 | what lies on the two sides of a gap is merged as if it stood alone |
| DmaMerge.CoalescedRun | kernel/drivers/memory_allocator/dma_allocator.c:306-319 | a run coalesces into one block with the place, address and flags of its first and the sizes of all |
| DmaMerge.CoalescedSplitsAtGap | kernel/drivers/memory_allocator/dma_allocator.c:600-627 | the full coalescence joins nothing across a gap |
| DmaMerge.DefragConverges | kernel/drivers/memory_allocator/dma_allocator.c:600-627 | n passes leave no contiguous neighbours iff the longest run has at most 2^n blocks, and the result is then the full coalescence |
| DmaMerge.CapNeverCutsShort | kernel/drivers/memory_allocator/dma_allocator.c:604-619 | the cap of 100 passes never cuts short a list of at most 2^100 blocks |
| DmaMerge.CoalescedSettled | kernel/drivers/memory_allocator/dma_allocator.c:600-627 | the full coalescence has nothing left to merge |
| DmaMerge.PassConserves | kernel/drivers/memory_allocator/dma_allocator.c:306-319 | a pass covers each address as often as before |
| DmaMerge.DefragConserves | kernel/drivers/memory_allocator/dma_allocator.c:600-627 | so does a whole defragmentation |
| DmaWalk.LiteralPassExactly | kernel/drivers/memory_allocator/dma_allocator.c:306-319 | the list walk with its cached successor reads a freed node iff the pass has anything to merge, and otherwise leaves the list as it is |
| DmaWalk.NeighboursReadFreedNode | kernel/drivers/memory_allocator/dma_allocator.c:306-319 | two neighbouring blocks granted and freed in order make the next pass read a freed node |
| DmaLedger.FindByVirt | kernel/drivers/memory_allocator/dma_allocator.c:279-294 | the first used block at an address, or none |
| DmaLedger.FirstServing | kernel/drivers/memory_allocator/dma_allocator.c:678-691 | the first pool that shares a flag with the request and whose page source grants it |
| DmaLedger.FirstOwner | kernel/drivers/memory_allocator/dma_allocator.c:722-738 | the first pool whose used list holds the address |
| DmaLedger.PoolChargesOnce | kernel/drivers/memory_allocator/dma_allocator.c:448-539 | the pool never refuses a size the allocator accepted, and aligning twice charges once |
| DmaLedger.DefragStatusExactly | kernel/drivers/memory_allocator/dma_allocator.c:600-627 | defragmenting a pool reports success iff two consecutive free blocks were contiguous |
| DmaLedger.CapSettles | kernel/drivers/memory_allocator/dma_allocator.c:604-627 | a pool's defragmentation leaves contiguous neighbours iff some run has more than 2^100 blocks, and otherwise the full coalescence |
| DmaLedger.DefragmentSettles | kernel/drivers/memory_allocator/dma_allocator.c:777-798 | so it is in every pool when the allocator defragments; counters follow, nothing else changes, and it succeeds iff every pool had contiguous neighbours |
| DmaLedger.LedgerOnEveryRun | kernel/drivers/memory_allocator/dma_allocator.c:448-746 | on every run pool counters match the lists, allocator counters are sums over pools, total blocks = used + free + merged, and used_size is off by exactly the drift of the frees |
| DmaLedger.UsedSizeExactly | kernel/drivers/memory_allocator/dma_allocator.c:710-746 | used_size equals the bytes on all used lists iff the sizes passed to free differ from the released ones by a total of 0 modulo 2^64 |
| DmaLedger.AlignedFreesKeepTheLedger | kernel/drivers/memory_allocator/dma_allocator.c:658-746 | on every run whose frees pass the released block's size used_size is the sum over the used lists, modulo 2^64 |
| DmaRequests.UsedSizeIsExact | kernel/drivers/memory_allocator/dma_allocator.c:658-746 | on every run whose frees pass the aligned size of an outstanding request, with page sources that grant memory not in use, freed memory included, used_size is exactly the bytes on all used lists, and a free of any outstanding request succeeds |
| DmaRequests.UsedBytesFit | kernel/drivers/memory_allocator/dma_allocator.c:448-539 | blocks in use that cover no address twice are smaller together than the address space |
| DmaReuse.ReuseExactly | kernel/drivers/memory_allocator/dma_allocator.c:466-531 | an allocation puts an address on a used and a free list at once iff the granted range touches a block of a free list |
| DmaReuse.SeparateOnFreshRuns | kernel/drivers/memory_allocator/dma_allocator.c:544-595 | on every run without such a grant no address is in use and free at once |
| DmaReuse.RecycledIsInUseAndFree | kernel/drivers/memory_allocator/dma_allocator.c:573-588 | allocating, freeing and being granted the same memory again leaves one block on both lists |
| DmaLedger.AuditOnlyWatches | kernel/drivers/memory_allocator/dma_allocator.c:658-746 | the account of drift and merges does not influence the allocator |
| DmaCounters.FreeKeepsPeakExactly | kernel/drivers/memory_allocator/dma_allocator.c:685-689 | a free keeps peak_size the largest used_size iff the size passed is on the ledger or the wrapped result stays below the peak |
| DmaCounters.PeakIsLargest | kernel/drivers/memory_allocator/dma_allocator.c:685-689 | peak_size is the largest used_size of every run whose frees are covered by the ledger |
| DmaCounters.PeakMissesWrap | kernel/drivers/memory_allocator/dma_allocator.c:710-746 | a run of one allocation and a free of one byte more whose used_size ends at 2^64 - 1 above its peak |
| DmaCounters.TotalSizeOnEveryRun | kernel/drivers/memory_allocator/dma_allocator.c:380-385 | on every run total_size is the sum of the pools' sizes, modulo 2^64 |
| DmaCounters.PoolPeaksOnEveryRun | kernel/drivers/memory_allocator/dma_allocator.c:524-531 | on every run the peak of each pool is the largest number of bytes it ever had on its used list |
| DmaEffects.AllocationServed | kernel/drivers/memory_allocator/dma_allocator.c:658-704 | the first pool with a shared flag and a grant gets a block of the aligned size at the end of its list; both layers count the same size, field by field |
| DmaEffects.AllocationRefused | kernel/drivers/memory_allocator/dma_allocator.c:658-704 | without such a pool NULL and one error; a size of 0 or above 32 MB leaves no trace |
| DmaEffects.FreeServed | kernel/drivers/memory_allocator/dma_allocator.c:710-746 | the first block at the address in the first pool that has one moves to the end of the free list; the pool gives up its size, the allocator the size passed, field by field |
| DmaEffects.FreeRefused | kernel/drivers/memory_allocator/dma_allocator.c:710-746 | an unknown address counts one error, a null address or a size of 0 none |
| DmaEffects.CallsCountedOnEveryRun | kernel/drivers/memory_allocator/dma_allocator.c:658-746 | on every run the counters of allocations, frees, live allocations and errors are the numbers of calls that were served, released a block, and found no pool |
| DmaCounters.DefaultPoolServesNothing | kernel/drivers/memory_allocator/dma_allocator.c:1010-1029 | an allocator with only the default pool never serves a request |
| DmaOwners.FreeCreditsOwner | kernel/drivers/memory_allocator/dma_allocator.c:544-595 | a free changes exactly the pool that holds the block, moves it to the end of the free list and keeps the order of the rest |
| DmaOwners.AddressesStayUnique | kernel/drivers/memory_allocator/dma_allocator.c:658-746 | on every run with honest page sources no address is on two used lists, or twice on one |
| DmaOwners.FreshBlockIsFound | kernel/drivers/memory_allocator/dma_allocator.c:279-294 | a block just allocated at a fresh address is the one a free finds |
| DmaOwners.FreeUndoesAlloc | kernel/drivers/memory_allocator/dma_allocator.c:710-746 | a free right after an allocation restores used lists and counts, and used_size iff it passes the aligned size |
| DmaOwners.AlignHundred | kernel/drivers/memory_allocator/dma_allocator.c:220-230 | 100 bytes are charged as 128, the concrete input for which a free with the requested size drifts |
| DmaMemory.MemoryConservedOnEveryRun | kernel/drivers/memory_allocator/dma_allocator.c:448-627 | on every run the lists of all pools cover each address exactly as often as it was granted, so merging loses no byte; an address granted again after a free counts twice |
| DmaAllocator.DmaPool.FindBlock | kernel/drivers/memory_allocator/dma_allocator.c:279-294 | the loop finds the first block at the address |
| DmaAllocator.DmaPool.Merge | kernel/drivers/memory_allocator/dma_allocator.c:299-324 | the in-place pass computes Pass and lowers free_blocks by the number of merges |
| DmaAllocator.DmaPool.Defrag | kernel/drivers/memory_allocator/dma_allocator.c:600-627 | at most 2^100 free blocks are left fully coalesced, with no contiguous neighbours and a counter lowered by the blocks that are gone; the status says whether there were any neighbours |
| DmaAllocator.DmaPool.Alloc | kernel/drivers/memory_allocator/dma_allocator.c:448-539 | the new block, its flags with 0x8000 set, and every counter; unchanged on refusal, which is for size 0, above 32 MB, or no grant |
| DmaAllocator.DmaPool.Free | kernel/drivers/memory_allocator/dma_allocator.c:544-595 | the first block at the address moves from the used to the free list, with every counter, and the error cases |
| DmaAllocator.DmaAllocator.CreatePool | kernel/drivers/memory_allocator/dma_allocator.c:333-392 | appends a fresh empty pool of this size and these flags and adds the size to total_size, or changes nothing when the set-up fails |
| DmaAllocator.DmaAllocator.Alloc | kernel/drivers/memory_allocator/dma_allocator.c:658-704 | the walk over the pools charges the first one that serves, once in each layer |
| DmaAllocator.DmaAllocator.Walk | kernel/drivers/memory_allocator/dma_allocator.c:678-691 | the first pool that shares a flag and is granted memory serves, and only that pool changes |
| DmaAllocator.DmaAllocator.Free | kernel/drivers/memory_allocator/dma_allocator.c:710-746 | the walk over the pools releases the block from the first owner |
| DmaAllocator.DmaAllocator.Defrag | kernel/drivers/memory_allocator/dma_allocator.c:777-798 | defragments every pool and reports the first failure |
| PoolLedger.FirstServing | kernel/drivers/memory_allocator/pool_manager.c:631-660 | the first pool of the type whose page source grants |
| PoolLedger.MarkRefused | kernel/drivers/memory_allocator/pool_manager.c:409-440 | exactly the pools of the type that were tried in vain count an error |
| PoolLedger.FirstCovering | kernel/drivers/memory_allocator/pool_manager.c:665-694 | the first pool whose range holds the address |
| PoolLedger.FindId | kernel/drivers/memory_allocator/pool_manager.c:585-603 | the first pool with the id |
| PoolLedger.ConservedOnEveryRun | kernel/drivers/memory_allocator/pool_manager.c:409-576 | on every run, whatever is passed, each pool keeps used + free = total and used = allocated - freed modulo 2^64, and its list of used blocks stays empty |
| PoolLedger.RoutingExactly | kernel/drivers/memory_allocator/pool_manager.c:665-694 | every free of an address of some pool is credited to that pool iff the pools' ranges are pairwise apart |
| PoolLedger.OverlappingPoolsMisroute | kernel/drivers/memory_allocator/pool_manager.c:907-931 | a second pool on the range of the first is accepted, and its blocks are credited to the first |
| PoolLedger.DestroyKeepsSumsExactly | kernel/drivers/memory_allocator/pool_manager.c:371-404 | destroying a pool succeeds and keeps the manager's sums iff the pool is idle |
| PoolLedger.NeverBusy | kernel/drivers/memory_allocator/pool_manager.c:378-383 | in no reachable state is a pool refused as busy |
| PoolLedger.FreeKeepsPeakExactly | kernel/drivers/memory_allocator/pool_manager.c:665-694 | a free keeps the manager's peak the largest used size iff the size passed is on the ledger or the wrapped result stays below the peak |
| PoolLedger.PeakIsLargest | kernel/drivers/memory_allocator/pool_manager.c:631-694 | the manager's peak is the largest used size of every run whose frees are covered |
| PoolLedger.PeakMissesWrap | kernel/drivers/memory_allocator/pool_manager.c:665-694 | a run of one allocation and a free of one byte more whose used size ends at 2^64 - 1 above its peak |
| PoolEffects.KindsOnEveryRun | kernel/drivers/memory_allocator/pool_manager.c:280-694 | on every run each pool has the kind and the range passed at its creation and the size last set, ids are given once, every request served was served by a pool created with its kind, and the manager counts the calls that were served |
| PoolEffects.CreatedServes | kernel/drivers/memory_allocator/pool_manager.c:631-660 | a pool just created serves a request that only its own source grants iff the request is of the kind it was created with |
| PoolEffects.CreationExactly | kernel/drivers/memory_allocator/pool_manager.c:280-366 | accepted for 4 MB to 512 MB while there are fewer than 64 pools, with the next id; the new pool is idle and free over its whole range |
| PoolEffects.AllocationServed | kernel/drivers/memory_allocator/pool_manager.c:631-660 | the first pool of the kind with a grant is charged, those of the kind before it count an error, field by field |
| PoolEffects.AllocationRefused | kernel/drivers/memory_allocator/pool_manager.c:631-660 | without such a pool NULL and an error in every pool of the kind; a size of 0 leaves no trace |
| PoolEffects.FreeServed | kernel/drivers/memory_allocator/pool_manager.c:665-694 | the first pool whose range holds the address is credited with the size passed, field by field |
| PoolEffects.FreeRefused | kernel/drivers/memory_allocator/pool_manager.c:665-694 | a null address, a size of 0 and an address of no pool change nothing |
| PoolEffects.DestructionExactly | kernel/drivers/memory_allocator/pool_manager.c:371-404 | takes out exactly the first pool with the id, if its list of used blocks is empty |
| PoolEffects.ShrinkingExactly | kernel/drivers/memory_allocator/pool_manager.c:545-576 | refused if more than the target is used, otherwise size and total are the target and free is what is left of it |
| PoolEffects.CreditKeepsPeakExactly | kernel/drivers/memory_allocator/pool_manager.c:445-464 | a free keeps a pool's peak at or above its used size iff the size passed is in use or the wrapped result stays at or below the peak |
| PoolEffects.PoolPeaksOnCoveredRuns | kernel/drivers/memory_allocator/pool_manager.c:409-464 | on every run whose frees are covered by the pools they are credited to, each pool's peak is the largest used size since it was created |
| PoolAudit.ExactOnHonestRuns | kernel/drivers/memory_allocator/pool_manager.c:631-694 | on every honest run each pool's ledger is that of its outstanding blocks, the manager's counters are sums over the pools without wrapping, and blocks lie apart in the ranges of the pools that served them |
| PoolAudit.FreeFindsOwner | kernel/drivers/memory_allocator/pool_manager.c:665-694 | on such a run a free credits the pool that served the block |
| PoolAudit.BlocksSize | kernel/drivers/memory_allocator/pool_manager.c:409-440 | blocks that do not overlap take as many addresses as were charged for them |
| PoolCapacity.CapacityOnHonestRuns | kernel/drivers/memory_allocator/pool_manager.c:409-576 | on every honest run whose shrinks leave room, used <= total and used + free = total in every pool, from where the blocks lie alone |
| PoolCapacity.CapacityExactly | kernel/drivers/memory_allocator/pool_manager.c:409-464 | a pool can never come to use more than its total iff the addresses it can still grant and those of its blocks are no more than the total |
| PoolCapacity.Fill | kernel/drivers/memory_allocator/pool_manager.c:409-440 | by honest allocations a pool can be brought to use all of these addresses |
| PoolShrink.ShrinkExactly | kernel/drivers/memory_allocator/pool_manager.c:545-576 | a shrink keeps the capacity for every later use iff what can be granted afterwards, with the outstanding blocks, fits the target |
| PoolShrink.ShrinkRemovesRange | kernel/drivers/memory_allocator/pool_manager.c:556-568 | a shrink leaves the source what it had without the range of size - target bytes that ends where the pool ends; a range that wraps takes all or nothing |
| PoolShrink.FirstShrinkExactly | kernel/drivers/memory_allocator/pool_manager.c:545-576 | the first shrink of a pool keeps it iff no outstanding block reaches past start + target |
| PoolShrink.SecondShrinkNeverFits | kernel/drivers/memory_allocator/pool_manager.c:556-568 | a pool shrunk once before never keeps it: the range removed is counted from the original end |
| PoolShrink.GrowingKeeps | kernel/drivers/memory_allocator/pool_manager.c:545-576 | a target at or above the size keeps it, whether or not the source takes the wrapped range as one |
| PoolShrink.ShrinkOverflows | kernel/drivers/memory_allocator/pool_manager.c:545-576 | an honest run after which a pool of 4 MB counts 8 MB used and 2^64 - 4 MB free |
| PoolPages.FirstPagedShrinkExactly | kernel/drivers/memory_allocator/pool_manager.c:545-576 | the condition of the first shrink is exact also for page sources that grant whole pages only |
| PoolPages.PastOverflows | kernel/drivers/memory_allocator/pool_manager.c:409-464 | around a block past the top, frees and requests for single pages bring the pool beyond its total |
| PoolSource.AskedExactly | kernel/drivers/memory_allocator/pool_manager.c:249-256 | in bytes, an aligned request asks the source for what it charges iff its size is a multiple of the alignment in effect |
| PoolSource.LeakExactly | kernel/drivers/memory_allocator/pool_manager.c:249-256 | an aligned request takes no more pages than a free of its size gives back iff the pages of the size are a multiple of the alignment, and never more for alignments up to a page |
| PoolSource.SourceHoldsExactly | kernel/drivers/memory_allocator/pool_manager.c:243-498 | on every honest run the pages a pool's source has out are those of its outstanding blocks and the excesses of all requests served; with no block outstanding the excesses are missing |
| PoolSource.SourceAgreesExactly | kernel/drivers/memory_allocator/pool_manager.c:243-498 | on every honest run with alignments that are powers of two a pool's source has out just the pages that frees of the outstanding blocks give back iff no aligned request it served took more |
| PoolSource.TwoPageByteLeaks | kernel/drivers/memory_allocator/pool_manager.c:469-498 | one byte aligned to two pages leaves one page out after it is freed |
| PoolManager.MemoryPool.constructor | kernel/drivers/memory_allocator/pool_manager.c:280-366 | a new pool has the id and the kind passed, spans the range passed, is free over its whole size, and has counted nothing |
| PoolManager.MemoryPool.Alloc | kernel/drivers/memory_allocator/pool_manager.c:409-440 | charges the size, counts an error, or refuses size 0 without a trace |
| PoolManager.MemoryPool.AllocAligned | kernel/drivers/memory_allocator/pool_manager.c:469-498 | the same for an aligned request, with the aligned size asked of the source |
| PoolManager.MemoryPool.Free | kernel/drivers/memory_allocator/pool_manager.c:445-464 | credits the size and gives its pages back to the source |
| PoolManager.MemoryPool.Shrink | kernel/drivers/memory_allocator/pool_manager.c:545-576 | refused below the used size, otherwise free = target - used, and the source loses the range below the old end |
| PoolManager.PoolManager.CreatePool | kernel/drivers/memory_allocator/pool_manager.c:907-931 | all error cases; on success one fresh pool is appended with the next id and the kind, start and size passed |
| PoolManager.PoolManager.GetPool | kernel/drivers/memory_allocator/pool_manager.c:585-603 | the loop finds the first pool with the id |
| PoolManager.PoolManager.DestroyPool | kernel/drivers/memory_allocator/pool_manager.c:937-955 | removes exactly that pool, after the busy check |
| PoolManager.PoolManager.ShrinkPool | kernel/drivers/memory_allocator/pool_manager.c:545-576 | shrinks exactly the pool with the id |
| PoolManager.PoolManager.Alloc | kernel/drivers/memory_allocator/pool_manager.c:631-660 | the walk charges the first pool that serves, marks those that refused, and updates the manager, for plain and for aligned requests |
| PoolManager.PoolManager.AllocFirst | kernel/drivers/memory_allocator/pool_manager.c:979-1009 | the pools after the walk: plain and aligned requests of one size leave the same ledgers but for the pages asked of the source |
| PoolManager.PoolManager.Walk | kernel/drivers/memory_allocator/pool_manager.c:641-655 | the pools of the type before the one that serves count an error, that one is charged, and no other changes |
| PoolManager.PoolManager.Free | kernel/drivers/memory_allocator/pool_manager.c:665-694 | the walk credits the first pool whose range holds the address |
| BlockTracker.FindByPointer | user-space/libraries/libmemory_utils/memory_utils.c:148-160 | the entry tracked last for a pointer, or none |
| BlockTracker.StatisticsExact | user-space/libraries/libmemory_utils/memory_utils.c:377-637 | on every run total_allocated, total_freed and total_blocks are the bytes that entered the list, the bytes frees removed and the entries added; current counters are sum and count of the list, what entered was freed, dropped by clear_leaks or is there, and the block peak is the largest count since init |
| BlockTracker.FreeKeepsBytePeakExactly | user-space/libraries/libmemory_utils/memory_utils.c:473-481 | a free keeps the byte peak exact iff the counter holds the block's size or wraps to a value at or below the peak |
| BlockTracker.BytePeakMissesWrap | user-space/libraries/libmemory_utils/memory_utils.c:422-433 | a run whose byte counter wraps past its peak |
| BlockTracker.BytePeakExactInMemory | user-space/libraries/libmemory_utils/memory_utils.c:422-481 | on every run whose blocks fit the address space the byte peak is exact and the byte counters are true sums |
| BlockTracker.AllBlocksAreLeaks | user-space/libraries/libmemory_utils/memory_utils.c:540-566 | with threshold 0 or 1 every live block counts as a leak |
| BlockTracker.LeaksAreTheLargeBlocks | user-space/libraries/libmemory_utils/memory_utils.c:540-566 | the number reported is that of the live blocks of at least the threshold |
| BlockTracker.FreeServed | user-space/libraries/libmemory_utils/memory_utils.c:446-486 | a free takes the entry tracked last off the list and moves its size from the current to the freed bytes, nothing else |
| BlockTracker.FreeRefused | user-space/libraries/libmemory_utils/memory_utils.c:446-486 | every other free changes nothing, with the code for each reason |
| BlockTracker.FreeRemovesMostRecent | user-space/libraries/libmemory_utils/memory_utils.c:377-486 | tracking and freeing p around any operations on other pointers leaves the list those operations alone leave |
| BlockTracker.Tracker.FindByPtr | user-space/libraries/libmemory_utils/memory_utils.c:148-160 | the walk over the links returns the node of that entry |
| BlockTracker.Tracker.Unlink | user-space/libraries/libmemory_utils/memory_utils.c:130-143 | exactly the links around the block change, to skip it in both directions |
| BlockTracker.Tracker.BlockRemove | user-space/libraries/libmemory_utils/memory_utils.c:130-143 | the links stay consistent and acyclic, and the list loses one node in place |
| BlockTracker.Tracker.PushFront | user-space/libraries/libmemory_utils/memory_utils.c:413-420 | the new node becomes the head of a consistent list |
| BlockTracker.Tracker.TrackAlloc | user-space/libraries/libmemory_utils/memory_utils.c:377-441 | all codes; the new head of the list, and each of the seven counters: the size is added to total and current bytes, one to total and current blocks, the peaks follow, total_freed stays |
| BlockTracker.Tracker.TrackFree | user-space/libraries/libmemory_utils/memory_utils.c:446-486 | all codes, the new list and the new statistics |
| BlockTracker.Tracker.DetectLeaks | user-space/libraries/libmemory_utils/memory_utils.c:540-566 | counts the live blocks of at least the threshold |
| BlockTracker.Tracker.ClearLeaks | user-space/libraries/libmemory_utils/memory_utils.c:613-637 | drops all blocks and resets the current counters only |
| BlockTracker.Tracker.Init | user-space/libraries/libmemory_utils/memory_utils.c:198-257 | all codes; default configuration with tracking on or the given one, fresh statistics, no effect when initialized |
| BlockTracker.Tracker.Cleanup | user-space/libraries/libmemory_utils/memory_utils.c:262-314 | drops all blocks and the initialized flag |
| BlockTracker.Tracker.SetConfig | user-space/libraries/libmemory_utils/memory_utils.c:351-368 | replaces the configuration of an initialized library; a null configuration is refused |
| BumpPools.AllocSound | user-space/libraries/libmemory_utils/memory_utils.c:994-1033 | without wrapping, an allocation succeeds iff the aligned range fits, lies behind all earlier ones, and changes nothing on failure |
| BumpPools.AllocSoundExactly | user-space/libraries/libmemory_utils/memory_utils.c:994-1033 | an allocation is served unsoundly iff its wrapped end falls below the end of the pool |
| BumpPools.WrappingRequestServed | user-space/libraries/libmemory_utils/memory_utils.c:1019-1026 | a pool of one page serves a request of 2^64 - 4096 bytes and moves its position to address 0 |
| BumpPools.RunIsSafe | user-space/libraries/libmemory_utils/memory_utils.c:994-1033 | over every sequence of requests that are sound by the exact condition the ranges are in order, pairwise disjoint, aligned and inside the pool |
| BumpPools.RunUses | user-space/libraries/libmemory_utils/memory_utils.c:1024-1026 | used bytes exceed the bytes handed out by at most align - 1 per range |
| BumpPools.UniformRequests | user-space/libraries/libmemory_utils/memory_utils.c:994-1033 | an aligned pool serves exactly floor(size/s) requests of s bytes when align divides s |
| BumpPools.ResetEmpties | user-space/libraries/libmemory_utils/memory_utils.c:1091-1092 | a reset leaves any pool with nothing used and all of its size free, on the same memory with the same alignment |
| BumpPools.ResetForgets | user-space/libraries/libmemory_utils/memory_utils.c:1091-1092 | whatever was served before, the pool is then as it was before its first request |
| BumpPools.ResetRunIsSafe | user-space/libraries/libmemory_utils/memory_utils.c:994-1101 | from the reset of any pool the ranges follow each other from the start of its memory, aligned and inside the pool |
| BumpPools.ResetServesAgain | user-space/libraries/libmemory_utils/memory_utils.c:994-1101 | the reset of any aligned pool serves floor(size/s) requests of s bytes again, the i-th at start + i * s |
| BumpPools.DestroyKeepsCompactExactly | user-space/libraries/libmemory_utils/memory_utils.c:964-992 | destroying a pool keeps the pools in the first slots iff it is the last |
| BumpPools.OverwritesExactly | user-space/libraries/libmemory_utils/memory_utils.c:917-992 | after any run of creations and destructions no creation has overwritten or will overwrite a pool in use iff every destruction took the last pool |
| BumpPools.MiddleDestroyRepeatsId | user-space/libraries/libmemory_utils/memory_utils.c:917-992 | of two pools the first is destroyed: the next creation takes the id and the slot of the second |
| BumpPools.PoolTable.Create | user-space/libraries/libmemory_utils/memory_utils.c:917-962 | all codes, and the one slot it fills: the memory and the size passed, the alignment passed or 64 |
| BumpPools.PoolTable.Destroy | user-space/libraries/libmemory_utils/memory_utils.c:964-992 | clears the given slot and gives up the last id |
| BumpPools.PoolTable.Allocate | user-space/libraries/libmemory_utils/memory_utils.c:994-1033 | allocates from one slot, leaves the others alone, and keeps the table well formed if the allocation is sound |
| BumpPools.PoolTable.ResetPool | user-space/libraries/libmemory_utils/memory_utils.c:1073-1101 | all codes; the pool is back at its start with nothing used, its memory, size and alignment and all other pools are kept |
| BumpPools.PoolTable.PoolStats | user-space/libraries/libmemory_utils/memory_utils.c:1045-1071 | used + free = size, and both are the distances to the current position |
| BumpPools.PoolTable.Cleanup | user-space/libraries/libmemory_utils/memory_utils.c:295-300 | cleanup destroys the pools up to the slot where index and pools destroyed reach the count, and leaves later ones initialized |
| BumpPools.CompactCleanup | user-space/libraries/libmemory_utils/memory_utils.c:295-300 | of n pools without gaps that is the first ceil(n/2) |
| Alignment.IsPowerOfTwoCorrect | user-space/libraries/libmemory_utils/memory_utils.c:1258-1261 | the bit test recognises exactly the powers of two |
| Alignment.AlignUpIsLeastMultiple | user-space/libraries/libmemory_utils/memory_utils.c:1234-1240 | align_up is the least multiple at or above the address |
| Alignment.AlignUpIdempotentMonotone | user-space/libraries/libmemory_utils/memory_utils.c:1234-1240 | align_up is idempotent and monotone |
| Alignment.AlignUpMultipleExactly | user-space/libraries/libmemory_utils/memory_utils.c:1234-1240 | align_up gives multiples for all addresses iff the alignment is a power of two |
| Alignment.AlignDownIsGreatestMultiple | user-space/libraries/libmemory_utils/memory_utils.c:1242-1256 | align_down is the greatest multiple at or below, is_aligned decides divisibility |
| Alignment.ZeroAlignsNothing | user-space/libraries/libmemory_utils/memory_utils.c:1234-1256 | an alignment of 0 leaves every address as it is and counts it as aligned |
| Alignment.NextPowerOfTwo | user-space/libraries/libmemory_utils/memory_utils.c:1263-1270 | the loop returns the least power of two at or above n |
| Alignment.NextPowerOfTwoEnds | user-space/libraries/libmemory_utils/memory_utils.c:1263-1270 | the loop ends iff n is at most 2^63 |
| Alignment.DmaAlignSizeCorrect | kernel/drivers/memory_allocator/dma_allocator.c:220-230 | the least power of two at or above max(size, 64), idempotent, and within the limit for every size within it |
| MemorySearch.MemFind | user-space/libraries/libmemory_utils/memory_utils.c:786-818 | the smallest offset of the whole needle, NotFound iff there is none |
| HexCodec.CellsIsLargestFit | user-space/libraries/libmemory_utils/memory_utils.c:1180-1197 | the number of cells printed is the largest that fits with the terminator |
| HexCodec.CellsOfLargeBuffer | user-space/libraries/libmemory_utils/memory_utils.c:1180-1197 | larger buffers count modulo 2^32, and not at all from 2^31 on |
| HexCodec.PrintedText | user-space/libraries/libmemory_utils/memory_utils.c:1180-1197 | the text has two digits or lower-case letters and a blank for each byte |
| HexCodec.PairExactly | user-space/libraries/libmemory_utils/memory_utils.c:1216-1224 | which pairs of characters are read as which byte: digits of either case, and one digit behind white space or a sign |
| HexCodec.AcceptedExactly | user-space/libraries/libmemory_utils/memory_utils.c:1199-1228 | a text is accepted iff it has an even length, there is room, and every pair can be read; overflow iff there is no room |
| HexCodec.GoodPairsExactly | user-space/libraries/libmemory_utils/memory_utils.c:1216-1224 | what is stored are the bytes of the pairs before the first that cannot be read |
| HexCodec.ReadsEitherCase | user-space/libraries/libmemory_utils/memory_utils.c:1199-1228 | the text of any bytes in digits of either case gives these bytes |
| HexCodec.HexdumpToStr | user-space/libraries/libmemory_utils/memory_utils.c:1180-1197 | prints the longest prefix that fits in whole cells, terminated, and leaves the rest of the buffer alone; null pointers are refused |
| HexCodec.StrToHex | user-space/libraries/libmemory_utils/memory_utils.c:1199-1228 | every code, the stored bytes, and what is stored before an error |
| HexCodec.RoundTrip | user-space/libraries/libmemory_utils/memory_utils.c:1180-1228 | print, drop the separators, parse: every byte sequence comes back |
| HexCodec.RawOutputExactly | user-space/libraries/libmemory_utils/memory_utils.c:1180-1228 | with separators the parser accepts the printed text iff it is empty |
| BitArrays.ByteUpdates | user-space/libraries/libmemory_utils/memory_utils.h:688-711 | what the three masks do to each bit of a byte |
| BitArrays.BitSet | user-space/libraries/libmemory_utils/memory_utils.h:688-711 | adds one number to the set |
| BitArrays.BitClear | user-space/libraries/libmemory_utils/memory_utils.h:688-711 | removes one number from the set |
| BitArrays.BitToggle | user-space/libraries/libmemory_utils/memory_utils.h:688-711 | adds or removes one number |
| BitArrays.BitTest | user-space/libraries/libmemory_utils/memory_utils.h:688-711 | decides membership |
| HistoryRing.StartValuesExactly | user-space/tools/ddr_monitor.c:256-280 | minimum and maximum started at 100 and 0 are those of the samples iff some usage is at most 100, or at least 0 |
| HistoryRing.StatisticsAppend | user-space/tools/ddr_monitor.c:256-280 | the statistics do not depend on where the ring is cut |
| HistoryRing.MeanBetween | user-space/tools/ddr_monitor.c:256-280 | the mean lies between any lower and any upper bound of the samples |
| HistoryRing.History.Init | user-space/tools/ddr_monitor.c:224-231 | an empty history |
| HistoryRing.History.Add | user-space/tools/ddr_monitor.c:236-251 | the ring holds the last 1000 samples, and tail = (head + count) mod 1000 |
| HistoryRing.History.ColumnSample | user-space/tools/ddr_monitor.c:545-555 | the graph reads the window oldest first |
| HistoryRing.History.GetStats | user-space/tools/ddr_monitor.c:256-280 | the loop over the physical slots gives minimum, maximum and mean of the window, and for usages of 0 to 100 percent the mean lies between the two |
| DdrLayout.ValidateRegionExactly | src/ddr_config/ddr_layout.c:39-59 | valid iff named, not at 0, not empty, and not leaving the word; which of the two errors it is otherwise |
| DdrLayout.Validate | src/ddr_config/ddr_layout.c:64-101 | succeeds iff the nine mandatory regions are valid, else the first error |
| DdrLayout.CheckOverlap | src/ddr_config/ddr_layout.c:106-148 | the nested loop accepts iff each pair passes its comparison |
| DdrLayout.VerdictExactly | src/ddr_config/ddr_layout.c:106-148 | exactly for which pairs the comparison decides disjointness, wrapping regions included |
| DdrLayout.WrappingRegionAccepted | src/ddr_config/ddr_layout.c:106-148 | an overlapping pair that is accepted |
| DdrLayout.AcceptedIsDisjoint | src/ddr_config/ddr_layout.c:106-148 | without wrapping regions a layout is accepted iff its non-empty regions are pairwise disjoint |
| DdrLayout.SizesFitSpan | src/ddr_config/ddr_layout.c:106-148 | the sizes of an accepted layout sum to at most the span they cover |
| DdrLayout.CheckedExactly | src/ddr_config/ddr_layout.c:64-148 | a layout without wrapping regions passes both checks iff its first nine regions are named, away from 0 and not empty, and no non-empty regions overlap |
| DdrLayout.RegionIndexExactly | src/ddr_config/ddr_layout.c:311-363 | the twelve region names and their order, and that no other name is known |
| DdrLayout.LayoutManager.Init | src/ddr_config/ddr_layout.c:157-237 | installs a default layout iff it passes both checks, else keeps the current one |
| DdrLayout.LayoutManager.Set | src/ddr_config/ddr_layout.c:265-305 | installs a layout iff it is given and passes both checks, else keeps the current one |
| DdrLayout.LayoutManager.Get | src/ddr_config/ddr_layout.c:243-259 | all codes, and whatever is returned has passed both checks |
| DdrLayout.LayoutManager.RegionInfo | src/ddr_config/ddr_layout.c:311-363 | the region of that name and all error cases, the null name among them |
| DdrLayout.LayoutManager.FindFree | src/ddr_config/ddr_layout.c:369-400 | the outcome for every size, the same for every limit, and that the promised range fits iff it does not wrap |
| DdrLayout.LayoutManager.Cleanup | src/ddr_config/ddr_layout.c:462-477 | no layout is installed |
| DdrLayout.BootloaderAtZeroRefused | src/ddr_config/ddr_layout.c:49-51 | a layout with a bootloader region at 0 is never installed |
| DdrLayout.DefaultLayoutsRefused | src/ddr_config/board_memory.c:204-472 | no board's default layout passes, and only the bootloader region is to blame: there are no overlaps and all other regions are valid |
| DdrLayout.DefaultLayoutsCover | src/ddr_config/board_memory.c:204-472 | the regions of a default layout cover the addresses from 0 up to 4 GB without a gap, up to 8.5 GB on the Rock 3B |
| PartitionTable.IndexOfName | src/uboot-ddr-init/ddr_partition.c:278-301 | the first slot with the name |
| PartitionTable.IndexOfId | src/uboot-ddr-init/ddr_partition.c:252-273 | the first slot with the id |
| PartitionTable.OrderlyOnEveryRun | src/uboot-ddr-init/ddr_partition.c:174-247 | on every run names are unique and slot i has an id of at least i + 1 |
| PartitionTable.NumberedOnLastInFirstOutRuns | src/uboot-ddr-init/ddr_partition.c:174-247 | ids are exactly 1..n on every run whose removals take the last slot |
| PartitionTable.RemoveKeepsNumberingExactly | src/uboot-ddr-init/ddr_partition.c:221-247 | a removal keeps the numbering iff it takes the last slot |
| PartitionTable.MiddleRemovalRepeatsId | src/uboot-ddr-init/ddr_partition.c:207 | after any other removal the next addition repeats an id, and only the older partition is found by it |
| PartitionTable.RemovalWithinKinds | src/uboot-ddr-init/ddr_partition.c:221-332 | a removal deletes one element of the list of its type and leaves the other types alone |
| PartitionTable.TableIsAsFilled | src/uboot-ddr-init/ddr_partition.c:174-247 | on every run the table holds, slot for slot and in every field but the id, what was passed to the additions that succeeded and was not removed; each is found by its name in its own slot |
| PartitionTable.FoundAsAdded | src/uboot-ddr-init/ddr_partition.c:204-301 | right after an addition the partition found by its name has the start, size and other fields passed |
| PartitionTable.TotalSizeExactly | src/uboot-ddr-init/ddr_partition.c:209-239 | total_size is the sum of the sizes in the table, modulo 2^32, iff the sizes removed sum up to 0 modulo 2^32 |
| PartitionTable.Table.Init | src/uboot-ddr-init/ddr_partition.c:129-169 | the table starts empty: every default is refused |
| PartitionTable.Table.AddPart | src/uboot-ddr-init/ddr_partition.c:174-216 | all error cases; on success the slots before are kept and the new one holds every field passed, with the count as its id |
| PartitionTable.Table.ShiftDown | src/uboot-ddr-init/ddr_partition.c:233-237 | the shift deletes one slot and keeps the order of the rest |
| PartitionTable.Table.RemovePart | src/uboot-ddr-init/ddr_partition.c:221-247 | removes the first slot with the id |
| PartitionTable.Table.GetPart | src/uboot-ddr-init/ddr_partition.c:252-273 | the first partition with the id, and all error cases |
| PartitionTable.Table.FindPart | src/uboot-ddr-init/ddr_partition.c:278-301 | the partition with the name, and all error cases |
| PartitionTable.Table.GetByKind | src/uboot-ddr-init/ddr_partition.c:306-332 | element k of the table filtered by type, and all error cases |
| PartitionTable.Table.Cleanup | src/uboot-ddr-init/ddr_partition.c:412-427 | an uninitialized empty table |
| DdrTimings.WideFieldsLeak | kernel/drivers/ddr_driver/ddr_driver.c:510-512 | what is read back for any fields: the upper bits of a wide field are or-ed into the fields above |
| DdrTimings.RoundTripExactly | kernel/drivers/ddr_driver/ddr_driver.c:407-411 | pack then unpack returns the fields iff each is below 256 |
| DdrTimings.PackPlaces | kernel/drivers/ddr_driver/ddr_driver.c:510-512 | fields that fit have each a byte of the word to themselves, the first the top byte |
| DdrTimings.ThirdWordExactly | src/uboot-ddr-init/ddr_init.c:181-183 | the same for the word of three fields |
| DdrTimings.Controller.TimingInit | src/uboot-ddr-init/ddr_init.c:159-199 | the timing table reads back what was set iff all eleven fields are below 256; other registers are kept |
| DdrTimings.Controller.ReadTable | src/uboot-ddr-init/ddr_print.c:120-145 | reads the table from the three words |
| DdrTimings.InitMakesCoherent | kernel/drivers/ddr_driver/ddr_driver.c:372-463 | after an initialization the cached configuration is what the registers hold, whatever the outcome |
| DdrTimings.ResetMakesCoherent | kernel/drivers/ddr_driver/ddr_driver.c:549-559 | so it is after a reset, which toggles the reset bit first |
| DdrTimings.ConfigKeepsCoherenceExactly | kernel/drivers/ddr_driver/ddr_driver.c:470-544 | writing the timings keeps cache and registers in agreement, and survives a reset, iff the four fields are below 256 |
| DdrTimings.RefusalExactly | kernel/drivers/ddr_driver/ddr_driver.c:483-507 | a refused frequency or voltage leaves the controller disabled and the cache right iff the register kept its value |
| DdrTimings.CoherentOnEveryRun | kernel/drivers/ddr_driver/ddr_driver.c:470-559 | on every run of initializations, resets and fitting configurations the cache says what the registers hold |
| DdrTimings.ConfiguredExactly | kernel/drivers/ddr_driver/ddr_driver.c:470-544 | a configuration that is taken reaches every register, enables the controller, starts the calibration, and succeeds iff the hardware then says it is calibrated |
| DdrTimings.RefusedExactly | kernel/drivers/ddr_driver/ddr_driver.c:483-507 | after a refusal the controller is disabled, the timings are untouched, and at most the frequency is cached |
| DdrTimings.InitializedExactly | kernel/drivers/ddr_driver/ddr_driver.c:372-463 | every status, and the configuration, memory size and error correction that were read |
| DdrTimings.InitializedRegisters | kernel/drivers/ddr_driver/ddr_driver.c:421-447 | the enable bit is set, the calibration and error correction bits exactly when they should be, and no other register is written |
| DdrTimings.ResetExactly | kernel/drivers/ddr_driver/ddr_driver.c:549-559 | a reset is an initialization with the reset bit cleared |
| DdrTimings.Driver.HwConfig | kernel/drivers/ddr_driver/ddr_driver.c:470-544 | registers, cache and status on every path |
| DdrTimings.Driver.HwInit | kernel/drivers/ddr_driver/ddr_driver.c:372-463 | registers, cache, memory size and status on every path, a refused interrupt line included |
| DdrTimings.Driver.HwReset | kernel/drivers/ddr_driver/ddr_driver.c:549-559 | registers, cache and status after the reset bit was set and cleared |
| DdrManager.AlignSizeIsLeast | user-space/libraries/libddr_manager/ddr_manager.c:164-176 | the least multiple of 64 that holds the payload, and no overflow with the header |
| DdrManager.CallocExactly | user-space/libraries/libddr_manager/ddr_manager.c:610-625 | a size is forwarded iff the true product is positive and below 2^64, and then it is the product |
| DdrManager.AlignAcceptedExactly | user-space/libraries/libddr_manager/ddr_manager.c:397-401 | the test accepts the powers of two up to 4096, and 0 |
| DdrManager.AlignedPlacement | user-space/libraries/libddr_manager/ddr_manager.c:407-419 | header and payload are disjoint inside the block, and the payload is at the first aligned address |
| DdrManager.StoredPointerFits | user-space/libraries/libddr_manager/ddr_manager.c:429-430 | the stored header pointer fits the block for every size |
| DdrManager.HeaderFoundExactly | user-space/libraries/libddr_manager/ddr_manager.c:143-159 | free finds the header iff the address behind it was aligned already |
| DdrManager.HeaderFoundOnlyForSmallAlignments | user-space/libraries/libddr_manager/ddr_manager.c:143-159 | on 16-byte aligned blocks that is iff at most pointer alignment was asked for |
| DdrManager.AlignedFreeReturnsBlockExactly | user-space/libraries/libddr_manager/ddr_manager.c:348-375 | freeing an aligned allocation returns its block iff the address behind the header was aligned |
| DdrManager.AlignedFreeExactly | user-space/libraries/libddr_manager/ddr_manager.c:348-375 | what is freed for each displacement of the payload: the block, what flags and padding say, nothing where the header ends in zeros, or what memory says |
| DdrManager.AlignedLeaksExactly | user-space/libraries/libddr_manager/ddr_manager.c:348-375 | the block leaks whatever memory holds iff the displacement is 16 to 32, or 8 with flags that are no accepted size |
| DdrManager.CacheLinesLeak | user-space/libraries/libddr_manager/ddr_manager.c:407-419 | on blocks at multiples of 64 alignments of 32 and 64 displace by 24 |
| DdrManager.FreeSound | user-space/libraries/libddr_manager/ddr_manager.c:348-375 | freeing a held pointer returns exactly its block |
| DdrManager.SoundOnEveryRun | user-space/libraries/libddr_manager/ddr_manager.c:288-438 | on every such run each block has its pointer held and each free returns a block |
| DdrManager.Library.Allocate | user-space/libraries/libddr_manager/ddr_manager.c:288-343 | block, header and pointer, or nothing; the DMA flag is refused |
| DdrManager.Library.AllocateAligned | user-space/libraries/libddr_manager/ddr_manager.c:380-438 | block, header and pointer, or nothing |
| DdrManager.Library.Calloc | user-space/libraries/libddr_manager/ddr_manager.c:610-625 | an allocation of the true product, or nothing |
| DdrManager.Library.Release | user-space/libraries/libddr_manager/ddr_manager.c:348-375 | the address handed to free, on every path |

## Left out

- Locks, threads, timers and work queues: each public operation is one atomic step.
- ioctl, mmap, procfs, debugfs, device setup and the probing of platform devices, apart from the pools that probing creates.
- The insides of gen_pool, dma_alloc_coherent, alloc_pages and malloc: only their answers appear, and any request may be refused. Page sources are assumed to grant ranges that overlap no outstanding block: in the pool manager out of the memory that was added and not removed again, in the DMA allocator memory and addresses that are not in use. The unit of a page counts in PoolSource and PoolPages; elsewhere the sources of the pool manager may grant any range. What happens to a page source whose memory is removed while it is in use is not modelled, and a range to remove that runs past the end of the address space may be taken either way.
- Kernel lists are sequences of block values in the DMA allocator and of pool objects in both managers; the links of list_head, and freeing of nodes and pages, are not modelled. Only the tracker is a linked structure.
- Counts of blocks, allocations, frees and merges are unbounded; byte counters and addresses are 64-bit words, except a DMA pool's current_allocated and peak_allocated, which are taken as unbounded.
- DMA pools: total_allocated, total_freed, address ranges, names, references and times, and their destruction when the driver is removed. Allocation never takes a block from the free list, in the code and here.
- Pools of the pool manager: names, flags, references, and the manager's own total_size. Merging of pools has no visible body for its core.
- PoolSource.SourceAgreesExactly: assumes that alignments are powers of two and that rounding a size up to its alignment does not leave the 64-bit word; SourceHoldsExactly has no such assumption.
- PoolPages.FirstPagedShrinkExactly: assumes a target of whole pages, and blocks that start on pages and whose pages lie in their pools, as sources that grant whole pages leave them.
- PoolShrink.FirstShrinkExactly: assumes that the pool does not start at address 0, which can be granted to nobody; ShrinkExactly has no such assumption.
- BumpPools.RunIsSafe: assumes of each request the condition under which AllocSoundExactly finds it sound; alignments that are no powers of two must also keep the alignment step inside the 64-bit word.
- Tracker: file, line, function, time and log fields, and the log file itself, of which only failure to open is modelled. Null pointers to memory are address 0.
- HexCodec.RoundTrip: drops the separators in between, because the parser refuses them (RawOutputExactly).
- Monitor: usage percentages are reals, so rounding is not modelled; screen output and reports are left out.
- Layouts: names only count as present or absent, and the extra regions of a board beyond the twelve are not part of this model.
- Partition table: used and free sizes, which nothing maintains, and all printing.
- Driver: hardware answers and the outcome of requesting the interrupt line are parameters, delays and the interrupt handler are left out; the registers keep what is written to them apart from those answers.
- DDR manager library: the DMA and device paths, reallocation, and zeroing; memory is blocks and their headers, and what it holds where no header was written is a parameter.
- The allocation list of ddr_driver.c and the counters of ddr_kernel_module.c: the same shape as the ledgers here, and simpler.
