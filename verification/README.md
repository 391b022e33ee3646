# NexusRT verification model

A Dafny 4.11 model of the stateful core of NexusRT, the firmware-style GPU runtime,
with machine-checked proofs of what it keeps and computes. `dafny verify dfyconfig.toml`
checks the whole project.

Each component comes in two layers. A value layer defines the state, one predicate per
operation relating the state before, the state after and the returned status, and the
theorems, many of them about whole histories of calls. A class layer has the source's
fields and methods, in the source's loops and branches; every method is proved to take
exactly the step of the value layer. Every loop is proved to end. Hash-map iteration is a
choice of any remaining key. Platform answers (launch, synchronise, allocate, free, tag,
create stream, read) and clock readings are sequences that may be anything but are given
beforehand, so that each contract can say which answer or reading its call used; a clock
never runs backwards. Word
arithmetic (64-bit addresses and byte counters, 32-bit and 16-bit counts) wraps as in the
source wherever it can matter.

A body under a mutex is one atomic step, so an interleaving of clients is a sequence of
steps. What the source does outside a mutex is treated as follows.

- `TaskGraph::run` tests the validated flag without the lock, `validate` takes and drops
  the lock, and the sweep takes it anew without looking at the flag. Launches therefore
  ask nothing of the flag, and histories contain other clients' `add_stage` and
  `validate` at any point between them. `Run` is the case with no other client in
  between, `RunThenWait` the case with any calls of other clients (`add_stage`,
  `validate`, `run`) in the gap before the sweep.
- A run holds the graph's lock but not the pool's. That it leaves the pool as it was is
  said for runs with no other pool client in between; what all pool clients together
  keep is `RunConserves`.
- `spawn_stream_pool` holds no lock; its one caller is boot. A pool run therefore starts
  with one spawn, and every later step is a locked call.
- `MemoryManager::alloc` tags and maps before it takes its lock, and `free` unmaps before
  it erases the record, so the books do not match between those actions. The theorems of
  `MemoryLedger` are about whole calls. `MemoryInterleaving` takes the calls apart: every
  interleaving of the parts, refused frees, frees of pinned ranges and switching
  compression included, is, in a view that counts an allocation from its mapping to its
  unmapping, a run of whole calls, and whenever no call is under way the manager's own
  books are that view. The one exception is switching compression between an
  allocation's test of it and its mapping.
- `wait_all` walks the stages without the lock; it is modelled with no other client.

| files | what they model |
|---|---|
| `StageDag`, `StageGraph`, `TaskGraph` | stage graph: Kahn validation, launches, sweeps, waiting |
| `StreamPool`, `ScopedStream` | micro-kernel stream pool and scoped stream ownership |
| `PageTable`, `PinHistory`, `PageTableManager` | page table: ranges, pins, watermark eviction |
| `MemoryLedger`, `MemoryManager` | memory manager and ILC manager, and when their books agree |
| `MemoryInterleaving` | the unlocked parts of allocating, freeing and switching compression, interleaved |
| `KvPages`, `KvCache` | KV cache with attention-ordered eviction |
| `ContextScope`, `Prefetcher` | layered context budget, prefetch hints, top-k choice |
| `GdsRouter` | chunked streaming reads |
| `Pipeline` | the canonical four-stage graph and the inference loop |
| `Counterexamples` | concrete runs that break the promises listed next |
| `Bits`, `Sorting`, `EvictionCandidates`, `Common` | word masks, the library sorts' contract, candidate lists, shared facts |

## Where the code and its promises part

These are proved, each with the exact condition under which the promise holds. The runs
named "reached" are concrete ones in `Counterexamples`.

- Validation refuses an acyclic graph when a dependency list names a stage twice: the
  in-degree counts both, the visit lowers it once (`RepeatedDependencyRefused`, and the
  if-and-only-if in `KahnVisited`).
- An Ok run does not mean everything completed. A stage that failed in an earlier run, and
  all that depends on it, stay as they are (reached: `SecondRunAnswersOk`). A stage with a
  missing dependency, added between the flag test and the sweep, stays pending although
  nothing failed (reached: `GapRunAnswersOk`). Where a sweep finds nothing ready, a stage
  is completed if and only if it leads to nothing failed, missing or cyclic
  (`RestExactly`, `RestIsCompletion`).
- The graph's destructor says it releases held streams; it passes id 0, which the pool
  ignores (`TaskGraph.Destroy`).
- Range calls never reach the topmost page of the address space, and an empty range that
  is not page-aligned still maps one page (`CoverageExactIff`; reached:
  `TopPageUnmapped`, `EmptyRangeMaps`).
- An unaligned range is translated with an offset error (`TranslationAffineIff`; reached:
  `UnalignedIsOff`).
- The read-mostly hint says it pins; it maps with refcount 0, which drops existing pins
  (`RemapDropsPins`). A page stays in HBM through every eviction if and only if its pins
  exceed its unpins since it was last mapped (`EvictionSparesIff`; a hinted page spilled:
  `HintedPageSpilled`).
- `alloc` leaves the caller's old tag flag in place when it tags nothing
  (`AllocMatchesIff`; reached: `ReusedRecord`).
- `free` trusts the caller's record and ignores the status of the unmapping. An Ok free
  keeps table, live map, counter and tags in step if and only if the record has the
  recorded size, is tagged if the live one is, and its range unmaps exactly the pages that
  allocation owned alone (`FreeMatchesIff`). It fails over a pin (reached: `FreeOfPinned`),
  for the zero-size record the C wrapper builds (reached: `FreeBySizeZero`), and where two
  small allocations lie on one page, whose second owner loses it (reached:
  `SharedPageUnmapped`); nothing in `alloc` keeps allocations on pages of their own.
- A `free` the device refuses has already dropped pages and tag
  (`RefusedFreeMatchesIff`; reached: `RefusedFree`).
- Disabling compression forgets the tags while live records keep theirs
  (`DisableMatchesIff`; reached: `DisabledUnderTag`). Disabling it inside an allocation can
  leave a tag in a disabled manager, which no order of whole calls does (`LateTag`).
- Over any run of whole calls the books match throughout if and only if every call meets
  its condition (`RunMatchesIff`).
- `KvCache::touch` calls `evict` while holding the non-recursive mutex that `evict` locks
  again, as soon as a touch needs room in a full cache (reached, as written:
  `SecondLock`). About the source as written, `CapacityWhileRoom` says that before that
  point the cache is within its capacity, whatever is pinned.
- With that locking repaired, so that the body of `evict` runs under the caller's lock,
  the cache exceeds its capacity when everything resident is pinned or the band is zero
  (reached: `PinnedOverflow`). `CapacityKeptIff`, `ResidencyBound` and
  `CapacityWithoutPins` are about the repaired cache, and so is every statement whose
  runs contain a touch that evicts.
- The page-table header says eviction stops below the low watermark; the code stops at it
  (`EvictionStopsAtLow`).

## Model

| member | source | states |
|---|---|---|
| Bits.MaskDownPow2 | src/memory/page_table.cpp:35 | the word mask `x & ~(p - 1)`, computed bit by bit, rounds down to a multiple of p for every power of two p |
| StageDag.KahnVisited | src/scheduler/graph.cpp:50-69 | the queue algorithm, in any iteration order, visits every stage if and only if no dependency list repeats a name and there is no cycle |
| StageDag.CountInDegrees | src/scheduler/graph.cpp:51-55 | the loops count every position of every dependency list |
| StageDag.VisitStage | src/scheduler/graph.cpp:59-68 | visiting a stage lowers exactly the in-degrees of the stages naming it and queues, once each, those that reach zero |
| StageDag.StuckSetHasCycle | src/scheduler/graph.cpp:50-69 | a non-empty set of stages each waiting for another of the set contains a dependency cycle |
| StageDag.TopologicalHasNoCycle | src/scheduler/graph.cpp:50-69 | an order in which all stages follow their dependencies excludes cycles |
| StageGraph.DependencySafety | src/scheduler/graph.cpp:85-133 | over every history each stage starts at most once, after all its dependencies existed, completed and had finished |
| StageGraph.HistoryInv | src/scheduler/graph.cpp:31-154 | every state of every history of add, validate and launch steps satisfies the graph invariant |
| StageGraph.HistoryLater | src/scheduler/graph.cpp:31-154 | no later call changes a contract, a finished stage or the log of started stages |
| StageGraph.FailurePoisons | src/scheduler/graph.cpp:85-93 | a stage that depends directly or indirectly on a failed stage stays pending in every later state |
| StageGraph.MissingBlocks | src/scheduler/graph.cpp:44-49 | nothing that leads to a missing name has ever started, and while there is one the flag is unset and validation answers InvalidArgument |
| StageGraph.RestExactly | src/scheduler/graph.cpp:141-153 | whatever was added since validation, when a sweep finds nothing ready a stage is completed if and only if it leads to no failed stage, no missing name and no cycle |
| StageGraph.StuckSweep | src/scheduler/graph.cpp:141-153 | while the graph is still validated only failed stages block |
| StageGraph.RestIsCompletion | src/scheduler/graph.cpp:141-153 | a run at rest has completed every stage if and only if no stage is failed, no dependency is missing and there is no cycle |
| StageGraph.ClassForIff | src/scheduler/graph.cpp:98-103 | a stage gets a DMA stream if and only if its module name has "dma" or "gds" in it, and otherwise a compute stream |
| StageGraph.LaunchOutcome | src/scheduler/graph.cpp:105-130 | a launch completes its stage exactly on Ok, else fails it with that status, and touches no other stage |
| StageGraph.RepeatedDependencyRefused | src/scheduler/graph.cpp:53-69 | a concrete acyclic graph with all dependencies present that validation refuses, because of a repeated name |
| SchedulerCounterexamples.SecondRunAnswersOk | src/scheduler/graph.cpp:135-154 | a history with a failed launch after which every further run answers Ok, launching nothing and completing nothing |
| SchedulerCounterexamples.GapRunAnswersOk | src/scheduler/graph.cpp:135-140 | a history in which a stage is added after the flag test: the run answers Ok, nothing failed, and that stage is pending |
| TaskGraphs.TaskGraph.AddStage | src/scheduler/graph.cpp:31-40 | an empty or known name is refused without effect; otherwise exactly that stage is added, pending and unused, and the graph must be validated again |
| TaskGraphs.TaskGraph.CheckDependencies | src/scheduler/graph.cpp:44-49 | true exactly when every named dependency is a stage |
| TaskGraphs.TaskGraph.CheckFootprints | src/scheduler/graph.cpp:72-80 | true exactly when every footprint is within the device's kilobytes |
| TaskGraphs.TaskGraph.Validate | src/scheduler/graph.cpp:42-83 | InvalidArgument exactly for missing, repeated or cyclic dependencies, else ContractViolation exactly for an oversized footprint, else Ok; only Ok sets the flag |
| TaskGraphs.TaskGraph.ReadyToRun | src/scheduler/graph.cpp:85-93 | true exactly for a pending stage all of whose dependencies exist and are completed |
| TaskGraphs.TaskGraph.Execute | src/scheduler/graph.cpp:105-130 | a ready stage ends completed or failed with the platform's answer to the launch, or to the wait when the launch is Ok, or InvalidArgument where its kernel is not loaded; its two time stamps are the two clock readings taken |
| TaskGraphs.TaskGraph.Launch | src/scheduler/graph.cpp:95-133 | a stage whose module is named for DMA runs on the last free DMA stream, any other on the last free compute stream, and is refused untouched exactly when that list is empty; the status is decided by the platform's answers; the pool ends as it began on every path |
| TaskGraphs.TaskGraph.TakeTurn | src/scheduler/graph.cpp:147-150 | a stage that is not ready is passed over; a successful launch leaves strictly fewer stages pending |
| TaskGraphs.TaskGraph.Sweep | src/scheduler/graph.cpp:144-152 | one pass in any order: without progress nothing is ready, with progress fewer stages are pending, so the sweeps end on every graph |
| TaskGraphs.TaskGraph.RunSweeps | src/scheduler/graph.cpp:140-153 | on any graph, validated or not, a sequence of launches of ready stages, Ok only when all succeeded and nothing is ready any more; the pool is untouched |
| TaskGraphs.RunStopsAtFailure | src/scheduler/graph.cpp:141-153 | an Ok run fails no stage; any other stops at the first that fails and answers its status, or at a ready stage without a stream |
| TaskGraphs.TaskGraph.Run | src/scheduler/graph.cpp:135-154 | with no client in between: an unvalidated bad graph is refused untouched, otherwise the graph is validated and swept |
| TaskGraphs.TaskGraph.WaitAll | src/scheduler/graph.cpp:167-173 | Ok if and only if every stage is completed; Aborted and Timeout are witnessed by a failed and an unfinished stage |
| TaskGraphs.TaskGraph.Wait | src/scheduler/graph.cpp:156-165 | the status of one stage as Ok, Aborted, Timeout or InvalidArgument |
| TaskGraphs.TaskGraph.Destroy | src/scheduler/graph.cpp:22-29 | releasing the remaining stream pointers under id 0 changes nothing in the pool |
| TaskGraphs.RunThenWait | src/scheduler/graph.cpp:135-173 | with any calls of other clients between validation and sweep, the wait after an Ok run succeeds if and only if the swept graph had no failed stage, all dependencies and no cycle; without other runs in the gap, no failed stage means none before |
| StreamPool.AcquireConserves | src/firmware/microkernel.cpp:102-125 | acquiring keeps every stream in one place, fails exactly on an empty class list, and hands out a stream nobody holds and nobody destroyed |
| StreamPool.ReleaseConservesIff | src/firmware/microkernel.cpp:127-136 | releasing keeps the account exact if and only if the caller holds the stream or the handle is one the pool ignores or drops |
| StreamPool.DoubleReleaseShares | src/firmware/microkernel.cpp:127-136 | a stream released twice is handed to the next two clients |
| StreamPool.SpawnConserves | src/firmware/microkernel.cpp:32-67 | a spawn, complete or stopped by a failure, adds streams with fresh ids on the list of their class |
| StreamPool.DrainEmpties | src/firmware/microkernel.cpp:69-81 | after a drain no stream is free, those that were are destroyed in order, and held ones are left alone |
| StreamPool.AcquireThenRelease | src/firmware/microkernel.cpp:102-136 | taking a stream and giving it back restores the pool exactly |
| StreamPool.RunConserves | src/firmware/microkernel.cpp:32-136 | after booting, in every interleaving of disciplined clients, drains and module loads, each stream is in exactly one place and none is destroyed twice |
| MicroKernels.MicroKernel.SpawnStreamPool | src/firmware/microkernel.cpp:32-67 | compute, then DMA, then fence streams in id order, stopping at the first failure, whose id is used up |
| MicroKernels.MicroKernel.SpawnGroups | src/firmware/microkernel.cpp:34-66 | each stream is the platform's answer to its own request, one request an id, and a failure is the platform's last answer |
| MicroKernels.MicroKernel.AllCreated | src/firmware/microkernel.cpp:34-66 | the pointer of each stream added is the one the platform gave for its id |
| MicroKernels.MicroKernel.SpawnCompute | src/firmware/microkernel.cpp:34-41 | appends compute streams with consecutive ids up to the first failure |
| MicroKernels.MicroKernel.SpawnDma | src/firmware/microkernel.cpp:42-51 | appends DMA streams of raised priority with consecutive ids up to the first failure |
| MicroKernels.MicroKernel.SpawnFence | src/firmware/microkernel.cpp:52-65 | one fence stream of low priority exactly on the devices that have it; a failure uses up the id |
| MicroKernels.MicroKernel.AcquireStream | src/firmware/microkernel.cpp:102-125 | takes the last handle of the class list, or returns the invalid handle |
| MicroKernels.MicroKernel.ReleaseStream | src/firmware/microkernel.cpp:127-136 | appends to the class list whoever calls, keeping the pool valid exactly for a holder |
| MicroKernels.MicroKernel.DrainStreams | src/firmware/microkernel.cpp:69-81 | destroys exactly the free streams, once each, and forgets every module |
| MicroKernels.MicroKernel.LoadModule | src/firmware/microkernel.cpp:83-100 | a known module is handed out again untouched; a new one draws a fresh id, used up also on failure, and is entered with what the platform compiled exactly when it answers Ok |
| MicroKernels.MicroKernel.Launch | src/firmware/microkernel.cpp:144-162 | InvalidArgument, with the platform not asked, unless the module is loaded and has the entry point; otherwise the platform's answer |
| MicroKernels.MicroKernel.SyncStream | src/firmware/microkernel.cpp:164-166 | the platform's answer to the wait |
| ScopedOwnership.ScopedRun | src/scheduler/stream_pool.hpp:17-22 | from any filled pool, over any sequence of scoped constructions, moves, destructions, drains and module loads, raw clients that give back what they took counting as owners, each stream has one place and one owner, and none is held once no owner lives |
| ScopedStreams.ScopedStream.constructor | src/scheduler/stream_pool.hpp:17-18 | construction is one acquisition of the class |
| ScopedStreams.ScopedStream.MoveFrom | src/scheduler/stream_pool.hpp:22 | moving transfers the handle and zeroes the id left behind |
| ScopedStreams.ScopedStream.Destroy | src/scheduler/stream_pool.hpp:19 | releases exactly a handle that was not moved away |
| PageTables.CoverageExactIff | src/memory/page_table.cpp:34-37 | the range loops visit exactly the pages that meet the range if and only if the rounded end does not wrap and an empty range is aligned or wraps |
| PageTables.TopPageNotCovered | src/memory/page_table.cpp:34-37 | no call ever visits the topmost page |
| PageTableCounterexamples.TopPageUnmapped | src/memory/page_table.cpp:34-37 | mapping the topmost page maps nothing |
| PageTableCounterexamples.EmptyRangeMaps | src/memory/page_table.cpp:34-37 | mapping no bytes at address 1 maps a page |
| PageTableCounterexamples.UnalignedIsOff | src/memory/page_table.cpp:37-47 | one byte mapped at address 1 to backing address 0 is found at 1 |
| PageTables.TranslationAffineIff | src/memory/page_table.cpp:37-47 | after mapping any range, each address on a page it visits translates to its offset from the backing address if and only if the range is page-aligned |
| PageTables.TranslationElsewhere | src/memory/page_table.cpp:37-47 | addresses on other pages translate as before |
| PageTables.MappingCounts | src/memory/page_table.cpp:37-47 | mapping an unmapped range adds its pages to the HBM, host or spilled pages by the residency asked for, and to no others |
| PageTables.MapUnmapRestoresIff | src/memory/page_table.cpp:31-66 | unmapping what was just mapped answers Ok and restores the table if and only if the range was disjoint from it |
| PageTables.UnmapStopsAtPin | src/memory/page_table.cpp:56-64 | ContractViolation removes exactly the mapped pages of the range below its first pinned page |
| PageTables.EvictionCounts | src/memory/page_table.cpp:131-169 | the HBM count falls and the spilled count rises by exactly the number evicted; mapped set, host pages, pinned and other pages are unchanged |
| PageTables.EvictionStopsAtLow | src/memory/page_table.cpp:111-143 | eviction never goes below the low watermark, reaches it when enough pages are unpinned, and otherwise evicts every unpinned page |
| PageTables.EvictionWaits | src/memory/page_table.cpp:107-113 | up to the high watermark nothing is evicted and the table is as it was |
| PageTables.EvictionIdleIff | src/memory/page_table.cpp:107-143 | with low at most high, the table is left as it was if and only if residency is within the high watermark or every HBM page is pinned |
| PageTables.LruChoiceUnique | src/memory/page_table.cpp:124-130 | with distinct access times the least-recently-used choice is forced |
| PageTables.WatermarkExactIff | src/memory/page_table.cpp:106-112 | the 64-bit watermark is the exact floor if and only if its product does not wrap |
| PageTables.WatermarkExact | src/memory/page_table.cpp:106-112 | it never wraps for percentages up to 65535, whatever the pool |
| PinHistory.RefcountIsBalance | src/memory/page_table.cpp:31-90 | over every history a mapped page's refcount is its successful increfs less decrefs since it was last mapped, within sixteen bits |
| PinHistory.PinAnswers | src/memory/page_table.cpp:68-90 | over every history a pin is refused exactly on an unmapped page or at 65535 pins, an unpin exactly on an unmapped page or without pins; a refusal is InvalidArgument and changes nothing |
| PinHistory.EntryIsLastMapping | src/memory/page_table.cpp:31-143 | over every history a mapped page keeps the backing address, size and residency of its last mapping, unless an eviction has spilled it, once, with its fetch counted |
| PinHistory.PageMappedIff | src/memory/page_table.cpp:31-66 | a page is mapped if and only if some call mapped it and no later unmapping reached it past unpinned pages |
| PinHistory.UnmapAnswers | src/memory/page_table.cpp:51-66 | an unmapping answers Ok if and only if nothing in its range has pins left, else ContractViolation |
| PinHistory.PinnedPageStays | src/memory/page_table.cpp:51-143 | while that balance is positive and nothing maps over it, the page stays mapped with its residency and backing address |
| PinHistory.RemapDropsPins | src/memory/page_table.cpp:37-47 | mapping over a page drops its pins and, in HBM, makes it an eviction candidate |
| PinHistory.EvictionSparesIff | src/memory/manager.cpp:87-94 | over every history, every eviction leaves an HBM page in HBM if and only if its pins exceed its unpins since it was last mapped, hint or no hint |
| PinHistory.LevelPageIsEvicted | src/memory/page_table.cpp:116-143 | an eviction with enough excess takes every HBM page whose pins and unpins since its last mapping are level |
| PageTableCounterexamples.HintedPageSpilled | src/memory/manager.cpp:87-94 | a history in which a page mapped under the hint is spilled by the next eviction |
| PinHistory.StampIsLastUse | src/memory/page_table.cpp:31-90 | over every history a mapped page's access time lies within the last call that mapped, pinned or unpinned it |
| PinHistory.EvictedUsedFirst | src/memory/page_table.cpp:124-143 | over every history a least-recently-used eviction takes no page last used after an unpinned one that stays, unless the clock stood still between the two uses |
| PageTableManagers.MaskIsDown | src/memory/page_table.cpp:34-36 | the source's mask is rounding down to a page, for both page sizes |
| PageTableManagers.PageTableManager.constructor | src/memory/page_table.cpp:21-24 | an empty table with 128 KB pages on Hopper and 64 KB pages elsewhere |
| PageTableManagers.PageTableManager.MapRange | src/memory/page_table.cpp:31-49 | maps every covered page afresh, unpinned, at its offset from the backing address, stamped in rising order; all else unchanged |
| PageTableManagers.PageTableManager.UnmapRange | src/memory/page_table.cpp:51-66 | removes the mapped pages below the first pinned one, and answers Ok exactly when there is none |
| PageTableManagers.PageTableManager.Incref | src/memory/page_table.cpp:68-78 | Ok exactly for a mapped page with fewer than 65535 pins, which then has one more and the clock reading taken; otherwise InvalidArgument without effect |
| PageTableManagers.PageTableManager.Decref | src/memory/page_table.cpp:80-90 | Ok exactly for a mapped page with a pin, which then has one less and the clock reading taken; otherwise InvalidArgument without effect |
| PageTableManagers.PageTableManager.Lookup | src/memory/page_table.cpp:92-98 | the entry of the address's page, if mapped |
| PageTableManagers.PageTableManager.EvictUntil | src/memory/page_table.cpp:100-144 | nothing up to the high watermark; above it spills exactly min(unpinned, excess over low) pages, oldest first under both LRU policies; returns the number in 32 bits |
| PageTableManagers.PageTableManager.Candidates | src/memory/page_table.cpp:116-123 | collects every unpinned HBM page once, in any order |
| PageTableManagers.PageTableManager.SpillUntil | src/memory/page_table.cpp:131-143 | spills candidates in order until the residency is down to low or none is left |
| Sorting.PartialSort | src/memory/page_table.cpp:124-129 | the contract of the library sorts: a permutation with an ordered prefix that precedes the rest |
| PageTableManagers.PageTableManager.ResidentHbmPages | src/memory/page_table.cpp:150-155 | counts the HBM pages |
| PageTableManagers.PageTableManager.ResidentHostPages | src/memory/page_table.cpp:156-163 | counts the host pages of both kinds |
| PageTableManagers.PageTableManager.SpilledPageCount | src/memory/page_table.cpp:164-169 | counts the spilled pages |
| MemoryLedger.AllocMapsExactlyIff | src/memory/manager.cpp:52-61 | the mapped pages stay those of live allocations if and only if an overwritten record owned no page alone outside the new range; at a new pointer always |
| MemoryLedger.AllocMatchesIff | src/memory/manager.cpp:33-64 | whatever pages are shared, table, live map, byte counter and tags still match after an allocation if and only if the pointer is new and no stale tag flag survives |
| MemoryLedger.AllocAgreesIff | src/memory/manager.cpp:33-64 | they match with every page owned once if and only if, besides, its pages are its own |
| MemoryLedger.FreeMapsExactlyIff | src/memory/manager.cpp:66-79 | after an Ok free by any record of a live pointer the mapped pages are those of live allocations if and only if exactly the pages that allocation owned alone were unmapped |
| MemoryLedger.FreeMatchesIff | src/memory/manager.cpp:66-80 | all four books match after it if and only if, besides, the record has the recorded size and is tagged if the live one is |
| MemoryLedger.AnyFreeAgreesIff | src/memory/manager.cpp:66-80 | the same where no page is shared: the record must unmap all pages of the live one |
| MemoryLedger.FreeAgreesIff | src/memory/manager.cpp:66-80 | by the live record itself: if and only if none of its pages is pinned |
| MemoryLedger.RefusedFreeMatchesIff | src/memory/manager.cpp:71-76 | after a free by any record that the device refused they match if and only if no tag and no page was taken |
| MemoryLedger.RefusedFreeAgreesIff | src/memory/manager.cpp:71-76 | the same where no page is shared |
| MemoryLedger.WrongSizeDisagrees | src/memory/manager.cpp:77-78 | an Ok free by a record of another size never leaves them in agreement |
| MemoryLedger.AllocOverLive | src/memory/manager.cpp:60-62 | a pointer handed out twice spoils the byte counter |
| MemoryLedger.AllocBacksItself | src/memory/manager.cpp:41-61 | the record is entered under its pointer as asked for, its pages are in HBM and unpinned, and from a page boundary each address backs itself |
| MemoryLedger.AllocTagsAsked | src/memory/manager.cpp:46-50 | a tag is entered only for an allocation that asked an enabled manager for it, and then whenever its record says so |
| MemoryLedger.RunTagsAsked | src/memory/manager.cpp:46-50 | over every run from no tags each tag is of a pointer whose allocation asked for it |
| MemoryLedger.UnknownFreeRefused | src/memory/manager.cpp:66-69 | a free of an unknown pointer is InvalidArgument and does nothing |
| MemoryLedger.StepMatchesIff | src/memory/manager.cpp:33-80 | any whole call on matching books leaves them matching if and only if it meets its condition |
| MemoryLedger.RunMatchesIff | src/memory/manager.cpp:33-80 | over every run of whole calls the books match throughout if and only if every call met its condition |
| MemoryLedger.RunAgreesIff | src/memory/manager.cpp:33-80 | and every page is owned once throughout if and only if, besides, no allocation landed on pages of another |
| MemoryInterleaving.FineStepIsWhole | src/memory/manager.cpp:33-80 | reserving, testing and entering the tag, mapping, entering, untagging, unmapping, erasing, page-table calls and switching compression, interleaved: each is one whole call or nothing in the view that counts allocations from mapping to unmapping |
| MemoryInterleaving.InterleavingIsWholeRun | src/memory/manager.cpp:33-80 | every interleaving is a run of whole calls in that view, which is the manager's own books whenever no call is under way |
| MemoryInterleaving.InterleavedRunMatchesIff | src/memory/manager.cpp:33-80 | in every interleaving the view's books match throughout if and only if every whole call met its condition where it took effect |
| MemoryInterleaving.InterleavedRunAgrees | src/memory/manager.cpp:33-80 | in every interleaving of clients that free their own unpinned records over memory on pages of its own, the books agree throughout, and the manager's own whenever no call is under way |
| TagCounterexamples.LateTag | src/firmware/ilc_manager.cpp:19-41 | an interleaving with compression disabled inside an allocation whose end no run of whole calls reaches |
| MemoryLedger.AllocFreeRestoresIff | src/memory/manager.cpp:33-80 | allocating at a new pointer and freeing the record restores table, live map, counter and tags exactly if and only if the allocation had its pages to itself |
| MemoryLedger.DisableMatchesIff | src/firmware/ilc_manager.cpp:19-28 | after disabling compression they match if and only if no live allocation is recorded as tagged |
| MemoryCounterexamples.FreeOfPinned | src/memory/manager.cpp:71-79 | allocate, pin, free: Ok, and a page stays mapped with no live allocation |
| MemoryCounterexamples.SharedPageUnmapped | src/memory/manager.cpp:66-80 | two small allocations on one page: freeing the first answers Ok and unmaps the page under the second |
| MemoryCounterexamples.RefusedFree | src/memory/manager.cpp:71-76 | a refused free leaves the allocation live with its page gone |
| MemoryCounterexamples.FreeBySizeZero | src/memory/manager.cpp:66-80 | a free by pointer and size zero answers Ok and leaves bytes counted and page mapped |
| MemoryCounterexamples.DisabledUnderTag | src/firmware/ilc_manager.cpp:19-28 | disabling compression under a compressed allocation leaves its record tagged and nothing in the set |
| MemoryCounterexamples.ReusedRecord | src/memory/manager.cpp:41-61 | the record of a freed compressed allocation, reused: the new one says it is tagged and nothing is |
| MemoryManagers.IlcManager.Enable | src/firmware/ilc_manager.cpp:13-17 | enables exactly where supported |
| MemoryManagers.IlcManager.Disable | src/firmware/ilc_manager.cpp:19-28 | clears the tags if it was enabled |
| MemoryManagers.IlcManager.Tag | src/firmware/ilc_manager.cpp:30-41 | the platform's answer where enabled; adds the tag and raises the totals exactly on Ok |
| MemoryManagers.IlcManager.Untag | src/firmware/ilc_manager.cpp:43-50 | removes the tag exactly when enabled; the platform is asked only for a known one |
| MemoryManagers.MemoryManager.Alloc | src/memory/manager.cpp:33-64 | InvalidArgument for no bytes, else the platform's answer; a failure changes nothing, and Ok enters the record with the caller's size and hints at the platform's pointer |
| MemoryManagers.MemoryManager.TagIfAsked | src/memory/manager.cpp:46-50 | tags exactly where compression is asked for and enabled, and otherwise leaves the caller's flag |
| MemoryManagers.MemoryManager.MapHinted | src/memory/manager.cpp:52-58 | with or without the hint the range is mapped in HBM, unpinned |
| MemoryManagers.MemoryManager.Free | src/memory/manager.cpp:66-80 | InvalidArgument without effect for an unknown pointer, else the platform's answer; follows the caller's record and ignores the unmap status |
| MemoryManagers.MemoryManager.DisableIlc | src/firmware/ilc_manager.cpp:19-28 | disabling compression under the manager takes the disabling step |
| MemoryManagers.MemoryManager.EnableIlc | src/firmware/ilc_manager.cpp:13-17 | enabling compression under the manager, effective exactly where supported |
| MemoryManagers.MemoryManager.AdviseReadMostly | src/memory/manager.cpp:87-94 | maps the range in HBM once more |
| KvPages.PageOfPow2 | src/token_opt/kv_cache.cpp:12 | for a power-of-two page size the page key is the first token of the page |
| KvPages.VictimsUnique | src/token_opt/kv_cache.cpp:30-44 | the pages an eviction removes are determined: the least by attention and index |
| KvPages.VictimsAreLightest | src/token_opt/kv_cache.cpp:30-44 | every page that goes is unpinned and has less attention than every unpinned page that stays, or as much and a lower index; as many go as asked for, or all |
| KvPages.EvictOnPage | src/token_opt/kv_cache.cpp:38-44 | pages that go keep their index and lose their attention, all others are untouched |
| KvPages.ResidencyBound | src/token_opt/kv_cache.cpp:10-60 | over every run the counter is the number of resident pages and at most max(capacity, peak pinned + 1) |
| KvPages.CapacityWithoutPins | src/token_opt/kv_cache.cpp:16-23 | without pins a cache of capacity at least one never exceeds it |
| KvPages.CapacityKeptIff | src/token_opt/kv_cache.cpp:16-23 | one touch keeps the capacity if and only if the page is resident, there is room, or the band is positive and something is unpinned |
| KvPages.TouchTakesOut | src/token_opt/kv_cache.cpp:16-23 | a touch of a resident page or with room evicts nothing, any other exactly min(band, unpinned) pages, and the page is resident afterwards |
| KvPages.TouchAttention | src/token_opt/kv_cache.cpp:13-15 | the page is indexed by its first token, and its attention is the larger of before and the weight |
| KvPages.TouchOnOthers | src/token_opt/kv_cache.cpp:10-24 | every other page stays as it is or is evicted |
| KvPages.CapacityWhileRoom | src/token_opt/kv_cache.cpp:16-20 | runs that never reach the nested eviction never exceed the capacity |
| KvCounterexamples.PinnedOverflow | src/token_opt/kv_cache.cpp:10-24 | touch, pin, touch another page: two pages in a cache for one, for any band, once the inner locking is repaired |
| KvCounterexamples.SecondLock | src/token_opt/kv_cache.cpp:16-20 | two touches of different pages bring a cache for one page to the nested eviction |
| KvPages.PinnedPageStays | src/token_opt/kv_cache.cpp:26-46 | no operation removes a pinned resident page or lowers its attention |
| KvPages.AttentionMemory | src/token_opt/kv_cache.cpp:13-44 | over every run a resident page's attention is the largest of zero and the weights since it became resident; any other page's is zero |
| KvPages.AttentionIsLargest | src/token_opt/kv_cache.cpp:13-44 | over every run a resident page's attention is at least zero and every weight since it became resident, and is zero or one of them |
| KvPages.WeightsAreTouches | src/token_opt/kv_cache.cpp:13-23 | those weights are the ones of the page's touches, in order, from the call that made it resident |
| KvPages.RefcountIsBalance | src/token_opt/kv_cache.cpp:48-60 | over every run a page's refcount is its pins less the unpins that found one, modulo 2^32, whatever was touched or evicted |
| KvPages.BalanceIsDifference | src/token_opt/kv_cache.cpp:48-60 | which is pins less unpins where no unpin ran ahead of fewer than 2^32 pins |
| KvCaches.KvCache.Touch | src/token_opt/kv_cache.cpp:10-24 | the page ends resident, with the larger of its attention and the weight, after evicting one band when it was absent and the cache full |
| KvCaches.KvCache.MakeRoom | src/token_opt/kv_cache.cpp:16-20 | a full cache loses its least unpinned band, any other nothing |
| KvCaches.KvCache.Evict | src/token_opt/kv_cache.cpp:26-46 | removes exactly the min(n, unpinned resident) least pages, zeroes their attention and returns their number |
| KvCaches.KvCache.EvictLocked | src/token_opt/kv_cache.cpp:28-45 | the body of the eviction, run under the caller's lock |
| KvCaches.KvCache.Pin | src/token_opt/kv_cache.cpp:48-52 | one pin more, modulo 2^32, creating an absent page |
| KvCaches.KvCache.Unpin | src/token_opt/kv_cache.cpp:54-60 | one pin less where there is one |
| ContextScopes.LedgerClosedForm | src/token_opt/scope.cpp:24-41 | after n steps the working layer holds min(u4 + 4n, 4 max4) and the reference layer the rest, in total 4n bytes more |
| ContextScopes.StepsGrowTotal | src/token_opt/scope.cpp:83-88 | the bytes used by all layers together grow by exactly four a step |
| ContextScopes.BudgetOfFive | src/token_opt/scope.cpp:77-82 | the token budget is the sum of the five layers' budgets |
| ContextScopes.DefaultTotals | src/token_opt/scope.cpp:15-17 | a new context has a budget of 14080 tokens, none used |
| ContextScopes.HintsExactly | src/token_opt/scope.cpp:55-60 | a hint is issued for exactly the slots that start within the cache |
| ContextScopes.HintsInOrder | src/token_opt/scope.cpp:55-60 | hints come in the order of their slots, one for each mention of a slot within the cache |
| ContextScopes.ContextScope.Step | src/token_opt/scope.cpp:24-41 | four bytes more in the two layers together, the working layer filled to its budget before the reference layer grows; no other field changes |
| ContextScopes.ContextScope.PrefetchAttention | src/token_opt/scope.cpp:51-62 | refuses without a bound cache, else issues the hints in slot order |
| ContextScopes.ContextScope.TotalBytesUsed | src/token_opt/scope.cpp:83-88 | the sum over the layers |
| ContextScopes.ContextScope.TotalTokenBudget | src/token_opt/scope.cpp:77-82 | the sum of the layer budgets |
| ContextScopes.ContextScope.BindKvCache | src/token_opt/scope.cpp:43-49 | rebinds the cache region and resets the residency |
| ContextScopes.ContextScope.SetLayer | src/token_opt/scope.cpp:19-22 | replaces one layer and no other |
| Prefetchers.WindowIsSuffix | src/token_opt/prefetcher.cpp:11-15 | over any mix of observations and changes of the window length the history is exactly the last rows of all there were, as many as min(kept + 1, window) at each observation leaves |
| Prefetchers.KeptAtMost | src/token_opt/prefetcher.cpp:11-15 | no more rows are kept than any observation's window and the rows after it allow |
| Prefetchers.KeptReached | src/token_opt/prefetcher.cpp:11-15 | and exactly that many for some observation, unless all are kept |
| Prefetchers.TopScoresUnique | src/token_opt/prefetcher.cpp:26-32 | two choices of the top slots have the same score at every place |
| Prefetchers.ScoreAdds | src/token_opt/prefetcher.cpp:21-25 | the score of one row is its entry, and scores of parts of a history add up |
| Prefetchers.TopByRows | src/token_opt/prefetcher.cpp:26-32 | no slot is chosen before one left out that has no less weight in every row and more in one; of a single row the largest entries are chosen |
| Prefetchers.AttentionPrefetcher.Observe | src/token_opt/prefetcher.cpp:11-15 | appends the row and keeps the last rows of the window |
| Prefetchers.AttentionPrefetcher.SetHistoryWindow | src/token_opt/prefetcher.hpp:37 | changes the window length and drops nothing until the next observation |
| Prefetchers.AttentionPrefetcher.SumScores | src/token_opt/prefetcher.cpp:21-25 | every slot holds the sum of the rows that reach it |
| Prefetchers.AttentionPrefetcher.PrefetchNext | src/token_opt/prefetcher.cpp:17-34 | hints min(k, slots) distinct slots in falling order of summed score, none below a slot left out, which holds of the rows themselves as well |
| GdsRouters.GdsStream | src/memory/gds_router.cpp:29-41 | the first answer of the engine that is not Ok ends the run and is returned; Ok means the buffer holds the file range, read by whole chunks of the given size, 16 MB by default, but for the last; on failure whole chunks are in place and nothing past the failed piece changed |
| GdsRouters.ReadPiece | src/memory/gds_router.cpp:35-37 | one request at the wrapping offset extends the copied prefix, or leaves it |
| GdsRouters.TilesDisjoint | src/memory/gds_router.cpp:35-39 | the requests of a run lie in order within the range without overlap |
| GdsRouters.TilesCover | src/memory/gds_router.cpp:35-39 | every offset of the range lies in one of the requests |
| Pipelines.CanonicalVerdict | src/pipeline/orchestrator.cpp:22-77 | the canonical graph is accepted exactly with at least 128 kilobytes of shared memory per multiprocessor |
| Pipelines.CanonicalAreCompute | src/pipeline/orchestrator.cpp:26-68 | all four canonical stages run on compute streams |
| Pipelines.CanonicalTotals | src/pipeline/orchestrator.cpp:26-68 | what the four stages ask for in tokens and memory |
| Pipelines.Pipeline.AddCanonicalStages | src/pipeline/orchestrator.cpp:26-71 | an empty graph gains the four stages; one that has the first is refused untouched |
| Pipelines.Pipeline.Build | src/pipeline/orchestrator.cpp:22-77 | an empty graph becomes the canonical one, built or refused by that limit; a second build is refused untouched |
| Pipelines.Pipeline.Run | src/pipeline/orchestrator.cpp:79-86 | after an Ok run, first or later, all four stages are completed if and only if none had failed before, preprocessing before training and inference, inference before postprocessing; after a refused build the run is refused untouched |
| Pipelines.Pipeline.RunInfer | src/pipeline/orchestrator.cpp:108-122 | the prompt followed by the running lengths as 32-bit integers, and exactly one ledger step per new token |
| Pipelines.AsInt32Signed | src/pipeline/orchestrator.cpp:108-122 | the 32-bit length is the length itself below 2^31 and congruent to it modulo 2^32 |

## Left out

- TaskGraph.Launch: grid, block and argument passing are left out, because only the launch status reaches the graph; stage inputs, outputs and warp overrides are not modelled.
- TaskGraph.Wait: the timeout argument is unused in the source and has no counterpart here; `set_overlap`, `find` and `stage_names` are not modelled.
- MicroKernel.LoadModule: the source text handed to the platform compiler is left out, and so is synchronising the whole pool.
- MemoryInterleaving.FineStepIsWhole: switching compression between an allocation's test of it and its mapping is not among the steps, because there the statement fails (`LateTag`).
- KvCache.Touch: the resident counter is unbounded; its 32-bit wrap needs all 2^32 page keys resident at once.
- ContextScope.Step: the byte counts of the layers are unbounded; their 64-bit wrap needs 2^62 tokens.
- AttentionPrefetcher.PrefetchNext: scores are real numbers, without float rounding or NaN, and slot numbers are unbounded; KV attention weights are real numbers too.
- GdsStream: the buffer and the file are taken to be smaller than 2^63 bytes, as every C++ object and file offset is; the DMA engine is an arbitrary partial copy that may fail at any byte.
- MemoryManager.Alloc: host staging pointers, preferred location, coalescing, prefetching, fragmentation and the destructor are left out.
- PageTableManager.EvictUntil: the actual write-back of spilled pages belongs to the DMA layer and is not part of this model; the virtual address window of the constructor is unused in the source.
- `ContextScope::prune`: the residency it trims is never raised, so it never changes anything.
- Platform shims, GPU kernels, TMA, fault polling, GRDMA, boot, handle registry, warp policies, metrics, configuration, C and Python bindings.
- Memory-order effects between threads: locked bodies are atomic steps.
