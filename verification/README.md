# LogOS kernel policy: a verified model

A Dafny model of the hardware-independent policy layer of LogOS, with proofs of what it
promises over every input, every run and every interleaving. `dafny verify dfyconfig.toml`
checks the whole project.

**Physical memory.** `MemoryMap` normalises the firmware map with the in-place sort, merge
and subtract of the kernel. `FrameRuns` has the binary searches between slots, identities
and addresses, `Bits` and `FreeBitmap` the two-level bitmap, `FrameManager` the stamped
frame records on top of it. `FrameShards`, `FrameLedger` and `SmpFrames` are the
multiprocessor layer with shards, per-CPU caches and remote-free queues, `SmpRuns` whole
runs of it. `HeapLedger` and `KernelHeap` are the kernel heap with its quotas. Each layer
is proved to be a fast form of a set or a map.

**Address spaces.** `PageWalk`, `PageEntry` and `PageTable` relate the four-level tables of
Intel SDM volume 3A, sections 4.5 and 4.6, to a finite map from pages to frames and rights.
`Elf`, `Loader`, `Populate` and `ImageMapping` parse an image, take frames for it, fill
them and map them, against a byte-by-byte specification of the loadable segments of
System V gABI chapter 5. `Processes` pairs processes with address spaces. `FramePool` is
the contract of the frame facade these parts share.

**Scheduler.** `SchedulerWords` and `SchedulerSteps` are a machine of single loads and
compare-and-swaps on the packed state words, for any number of workers and CPUs in any
interleaving. `Scheduler` is the scheduler with each method as one atomic step, where event
objects and deadlines live beside the words.

**IPC, events and services.** `HandleSlots` has the generation-stamped tables. `Events`,
`MessageRing`, `Ipc` and `IpcRuns` are the event registry, the queues, the endpoints with
their capabilities, and whole runs of them. `ServiceGraph`, `RestartClosure` and `Services`
are the dependency graph with its start order and restart closure.

**Programs.** `ProgramWorld`, `ProgramStage`, `ProgramSteps` and `ProgramRuntime` are the
start of a program as a transaction over all of the above: a ledger of what has been taken
so far, which every step extends and every failure and every end gives back.

Whether a reservation of the event and IPC registries, a read or a write will be served is
given in advance, by lists of verdicts; the results hold for all such lists.

Where the code does not meet a property in general, the exact condition is proved beside
an example: replacing a service's generation (`Services.ReplaceGeneration`,
`RenamingDangles`), queues in frames that are not their own (`MessageRing.AppendsExactly`,
`IpcRuns.SharedFrame`), taking an endpoint down without room for the list of its frames
(`Ipc.DestroyEndpoint`, `IpcRuns.RemovedWithoutRoom`), freeing a batch with one frame twice
(`SmpFrames.FreeDirectBatch`), loading a segment that reaches the stack
(`Populate.LoadedApart`, `StackReached`), finishing the stop of a program whose process is
gone already (`ProgramRuntime.FinishStop`, `StopAfterReclaim`, `HeldThroughReclaim`),
rolling back a start whose client owned IPC already (`ProgramRuntime.Start`,
`OwnEventLost`). The comment on `finish_stop` says only that process errors propagate; the
model follows the code, which then keeps the slot's task but not its process.

## Model

| member | source | states |
|---|---|---|
| `MemoryMaps.InsertionSortSorts` | src/memory.rs:231-243 | the order the sort produces is ascending by start and has the same runs with the same multiplicities |
| `MemoryMaps.InsertInPlace` | src/memory.rs:232-242 | one pass of the inner loop leaves the prefix plus one run equal to the insertion of that run, and everything behind it untouched |
| `MemoryMaps.SortRanges` | src/memory.rs:231-243 | the in-place sort of the first `count` entries equals `InsertionSorted` of them; the rest of the array is untouched |
| `MemoryMaps.MergedNormal` | src/memory.rs:245-282 | merging sorted valid runs gives valid runs with a gap between any two and no more of them than before |
| `MemoryMaps.MergedCovers` | src/memory.rs:245-282 | merging sorted runs covers exactly the same addresses |
| `MemoryMaps.AbsorbInPlace` | src/memory.rs:252-278 | one step of the merge loop: the output prefix becomes `Absorbed` of it and the next run |
| `MemoryMaps.MergeRanges` | src/memory.rs:245-282 | the in-place merge leaves `Merged` of the old entries in the first `output` entries |
| `MemoryMaps.CutCovers` | src/memory.rs:284-312 | what one exclusion leaves of one run is valid and covers exactly the bytes of the run outside the exclusion |
| `MemoryMaps.CarvedCovers` | src/memory.rs:184-200 | what all exclusions leave of all runs covers exactly the bytes of the runs outside every exclusion |
| `MemoryMaps.Subtract` | src/memory.rs:284-312 | appends the remaining pieces, and fails with Capacity exactly when they do not fit |
| `MemoryMaps.SubtractFromAll` | src/memory.rs:187-190 | one exclusion cut out of every current run into the scratch array, in order; fails exactly when the result does not fit |
| `MemoryMaps.CarveRanges` | src/memory.rs:180-200 | all exclusions cut out in place, with the early end on an empty result; succeeds exactly when every intermediate result fits |
| `MemoryMaps.CarvedEmptyStays` | src/memory.rs:197-199 | ending early when nothing is left gives what going through the remaining exclusions would give |
| `MemoryMaps.Tidy` | src/memory.rs:202-203 | sort and merge in place equal the function `Tidied` |
| `MemoryMaps.TidiedNormal` | src/memory.rs:231-282 | sorting and merging keep what is covered and leave valid runs with gaps |
| `MemoryMaps.Gather` | src/memory.rs:153-173 | descriptors are split into the two arrays in map order, exclusions appended; InvalidDescriptor exactly for an invalid descriptor, success exactly when the exclusions fit |
| `MemoryMaps.PageTotalCounts` | src/memory.rs:206-214 | for runs with gaps the page counter is the cardinality of the set of pages |
| `MemoryMaps.NormalizeMemoryMap` | src/memory.rs:146-216 | on success the pages are exactly the available ones outside all exclusions, the runs are valid, ascending and separated, and `total_pages` is the size of that set; the exact conditions for both errors and for success |
| `FrameRuns.IdForSlot` | src/memory.rs:1174-1189 | the binary search by slot finds the identity of exactly the slots below the frame count |
| `FrameRuns.IdForAddress` | src/memory.rs:1053-1072 | the binary search by address finds the identity whose address it is, and nothing exactly when no slot has that address |
| `FrameRuns.SearchesInverse` | src/memory.rs:1045-1194 | slot, identity and address determine each other: the searches are mutually inverse |
| `FrameRuns.AddressesAscend` | src/memory.rs:1045-1051 | higher slots have higher addresses, at least a page apart, so frames never overlap |
| `FreeBitmap.ScanWord` | src/memory.rs:1213-1223 | one bitmap word under the range masks: the lowest free slot in it, or none exactly when there is none |
| `FreeBitmap.ScanSummary` | src/memory.rs:1204-1225 | one summary word: the lowest free slot of its 64 words within the range |
| `FreeBitmap.FindFreeSlot` | src/memory.rs:1196-1228 | the two-level search returns the lowest free slot of the range, and None exactly when the range has none |
| `FreeBitmap.SetFreeSummarised` | src/memory.rs:1234-1238 | setting a free bit keeps: a summary bit is set iff its word is non-zero |
| `FreeBitmap.ClearFreeSummarised` | src/memory.rs:1240-1246 | clearing a free bit keeps the summary exact, including the word that becomes zero |
| `FreeBitmap.AvailableCounts` | src/memory.rs:845-850 | the population counts of the words add up to the number of free slots |
| `FrameManagers.FrameManager.constructor` | src/memory.rs:779-815 | from a normalised map: frames numbered without the null page, every record FREE, bitmap and summary exact |
| `FrameManagers.FrameManager.AvailableFrames` | src/memory.rs:845-850 | `available` plus the frames not FREE is the frame count |
| `FrameManagers.AvailablePlusUsed` | src/memory.rs:845-850 | the population count of the bitmap plus the records not FREE is the frame count, for any matching bitmap and records |
| `FrameManagers.FrameManager.FindFree` | src/memory.rs:860-874 | the lowest slot of the range whose record is FREE, or none exactly when there is none or the range is ill-formed |
| `FrameManagers.FrameManager.TryAllocInRange` | src/memory.rs:860-874 | claims the lowest free frame of the range under the next stamp; the exact conditions for InvalidFrame and Exhausted; on error nothing changes |
| `FrameManagers.FrameManager.Claim` | src/memory.rs:1109-1139 | the record, the bitmap and the summary after a claim; the lease names the slot, its address and the new stamp |
| `FrameManagers.FrameManager.ReleaseSlot` | src/memory.rs:1141-1146 | the record is cleared, its stamp kept, and the frame is free again |
| `FrameManagers.FrameManager.Free` | src/memory.rs:935-939 | frees exactly when the lease validates, and otherwise returns why and changes nothing |
| `FrameManagers.FrameManager.Refresh` | src/memory.rs:945-955 | a validated lease gets a fresh stamp for the same frame; otherwise nothing changes |
| `FrameManagers.FrameManager.FindWindow` | src/memory.rs:902-933 | the lowest window of free frames inside one run, or none exactly when no run has such a window |
| `FrameManagers.StampsAgree` | src/memory.rs:1260-1263 | two stamps of one frame agree exactly when a whole number of periods of 65535 lies between them |
| `FrameShards.ShardsPartition` | src/memory.rs:1669-1681 | every slot below the frame count lies in exactly one shard |
| `FrameShards.WordInOneShard` | src/memory.rs:1669-1681 | all slots of one 64-bit bitmap word lie in the same shard |
| `FrameShards.ShardFrom` | src/memory.rs:2160-2163 | the search finds a shard holding the slot, and none exactly when there is none |
| `FrameLedger.OnePlaceEach` | src/memory.rs:1882-1948 | in an exact state every slot is in exactly one of: the free bitmap, one position of one cache or queue, one holder |
| `FrameLedger.AccountedTake` | src/memory.rs:1329-1345 | taking a lease out of a pool with swap-remove keeps every other slot accounted for |
| `FrameLedger.AccountedStore` | src/memory.rs:1359-1397 | storing a lease keeps the account |
| `FrameLedger.AccountedHold` | src/memory.rs:2061-2127 | handing a frame to a holder keeps the account |
| `SmpFrames.SmpFrameAllocator.TryAlloc` | src/memory.rs:2061-2127 | a success is held by the caller alone, under a (slot, stamp) pair never issued before while stamps have not wrapped; Exhausted only when no frame is free; exactness is kept |
| `SmpFrames.SmpFrameAllocator.TryAllocIrq` | src/memory.rs:1790-1820 | the same from the cache alone |
| `SmpFrames.SmpFrameAllocator.TakeCached` | src/memory.rs:2074-2094 | a cached lease of the same owner and state is reused under a fresh stamp; a stale one is dropped |
| `SmpFrames.SmpFrameAllocator.PopMatching` | src/memory.rs:1329-1345 | takes the newest matching lease out of the cache and nothing else, and none exactly when no lease matches |
| `SmpFrames.SmpFrameAllocator.ClaimFromShards` | src/memory.rs:2098-2126 | claims the lowest free frame of the first shard with any, in turn from the CPU's own on; none exactly when no frame is free in any shard |
| `SmpFrames.SmpFrameAllocator.DrainOne` | src/memory.rs:2129-2158 | the newest remotely freed lease moves, re-stamped, to the cache or back to the queue when the cache is full, and a stale one is dropped; no frame becomes free or taken |
| `SmpFrames.SmpFrameAllocator.DrainRemote` | src/memory.rs:2129-2158 | draining keeps soundness and exactness and frees no frame; with every lease current it moves the newest leases in order, as many as the refill count, the room of the cache and the queue allow |
| `SmpFrames.SmpFrameAllocator.Free` | src/memory.rs:1882-1948 | succeeds exactly for a validating lease that is not parked already; parks it in the cache or the home CPU's queue, or frees the frame when that is full; a second free of the same lease is refused or harmless; a holder can always free |
| `SmpFrames.SmpFrameAllocator.FlushCpuCache` | src/memory.rs:1714-1736 | what leaves the cache is free afterwards, nothing else changes place; in an exact state the cache ends empty |
| `SmpFrames.SmpFrameAllocator.AllocContiguous` | src/memory.rs:1846-1880 | consecutive frames of one run, all issued freshly; the exact conditions for each error |
| `SmpFrames.SmpFrameAllocator.CheckBatch` | src/memory.rs:1963-2002 | accepts exactly a non-empty batch of distinct valid leases |
| `SmpFrames.SmpFrameAllocator.FreeDirectBatch` | src/memory.rs:1963-2019 | succeeds exactly for a checked batch of distinct slots, and then frees exactly those; an unchecked batch changes nothing; a batch with a slot twice fails at the first repetition with what came before it freed |
| `SmpRuns.Serve` | src/memory.rs:1780-2019 | any one call: leases handed out are fresh and exactly they are held in addition; honest calls keep exactness |
| `SmpRuns.Run` | src/memory.rs:1780-2199 | over every run of calls from any CPUs, with repeated and bogus frees: every lease handed out differs in (slot, stamp) from every other and from every earlier one while stamps have not wrapped; a run that frees each lease at most once keeps every slot in exactly one place |
| `HeapLedger.FrameBehind` | src/memory.rs:3087-3182 | behind every byte of a live object is one frame, and the frame belongs to that object |
| `HeapLedger.OneObjectPerByte` | src/memory.rs:3087-3301 | no byte belongs to two live objects, slab or multi-page |
| `HeapLedger.BackedSlabIn` | src/memory.rs:3148-3172 | a slab allocation keeps frames and objects paired |
| `HeapLedger.BackedPagesIn` | src/memory.rs:3109-3147 | so does a multi-page allocation with its lease records |
| `HeapLedger.BackedSlabOut` | src/memory.rs:3272-3300 | freeing a slab object takes away exactly its frame |
| `HeapLedger.BackedPagesOut` | src/memory.rs:3238-3271 | freeing a multi-page object takes away exactly its batch |
| `HeapLedger.ChargedCovers` | src/memory.rs:3378-3393 | a live object's bytes are part of what its owner is charged |
| `KernelHeaps.KernelHeap.constructor` | src/memory.rs:3065-3079 | an empty heap over an exact allocator, every quota unlimited and unused |
| `KernelHeaps.KernelHeap.SetQuota` | src/memory.rs:3081-3085 | sets one limit, and fails exactly for an owner without a quota |
| `KernelHeaps.KernelHeap.FindLeaseRange` | src/memory.rs:3352-3359 | the first place with enough unused lease records in a row, or none exactly when there is none |
| `KernelHeaps.KernelHeap.AllocSlab` | src/memory.rs:3148-3181 | a small object on a frame of its own, charged to its owner; on error nothing changes, and slots or frames are exhausted |
| `KernelHeaps.KernelHeap.AllocPages` | src/memory.rs:3109-3147 | a large object on consecutive frames; on error nothing changes |
| `KernelHeaps.KernelHeap.Alloc` | src/memory.rs:3087-3182 | a new live object of the requested size at the requested alignment and nothing else changed; the exact conditions for InterruptContext, InvalidRequest and Quota; an error changes nothing |
| `KernelHeaps.KernelHeap.TryAllocIrq` | src/memory.rs:3189-3235 | the same for small objects from what is at hand, with the exact condition of each error |
| `KernelHeaps.KernelHeap.Free` | src/memory.rs:3237-3301 | frees exactly an allocation that names a live object, removing only it and its charge; anything else changes nothing |
| `KernelHeaps.KernelHeap.FreeAddress` | src/memory.rs:3307-3350 | frees exactly the object that starts at the address and discharges its owner |
| `KernelHeaps.KernelHeap.PageBatch` | src/memory.rs:3361-3376 | the frames of a record, exactly when all its lease records hold one |
| `KernelHeaps.KernelHeap.LiveBytes` | src/memory.rs:3378-3393 | the sum of an owner's live bytes, which is what its quota counts as used |
| `KernelHeaps.KernelHeap.ObjectsDisjoint` | src/memory.rs:3087-3350 | in every valid heap no byte belongs to two live objects |
| `PageWalk.RouteRoundTrip` | src/page_table.rs:260-267 | the four indices determine the page they were taken from |
| `PageWalk.NoSharedTables` | src/page_table.rs:117-157 | no two interior entries a user can follow lead to the same table |
| `PageWalk.WalkAfterLeafWrite` | src/page_table.rs:143-155 | rewriting one leaf entry changes one walk only |
| `PageWalk.WalkAfterLink` | src/page_table.rs:138-141 | hanging an empty table opens and closes no translation |
| `PageEntry.LinkWord` | src/page_table.rs:138-140 | the stored word of an interior entry decodes to a present, writable, user, non-huge entry for the child |
| `PageEntry.LeafWord` | src/page_table.rs:147-154 | the stored word of a leaf decodes to the frame with exactly the requested rights |
| `PageEntry.SanitizedWord` | src/page_table.rs:356-361 | sanitising clears USER and nothing else |
| `PageTables.RealisesAfterLeafWrite` | src/page_table.rs:117-206 | a leaf write at a page's own slot updates the finite map at that page and nowhere else |
| `PageTables.RealisesAfterLink` | src/page_table.rs:126-142 | a new interior table leaves the finite map as it was |
| `PageTables.PageTableBuilder.AllocateTable` | src/page_table.rs:217-233 | a cleared frame of the pool joins the builder; on failure the frame goes back |
| `PageTables.PageTableBuilder.StepDown` | src/page_table.rs:126-142 | one level: follow an entry of this builder or hang a new table; when each succeeds |
| `PageTables.PageTableBuilder.Descend` | src/page_table.rs:124-142 | reaches the leaf table, building what is missing; with a reliable adapter it succeeds exactly when the missing tables fit |
| `PageTables.PageTableBuilder.MapPage` | src/page_table.rs:117-157 | success adds exactly this page to the map, failure changes no translation even if tables were added; the exact condition for success |
| `PageTables.PageTableBuilder.MapImage` | src/page_table.rs:102-115 | on success exactly the pages of the image have come, each translated as asked; earlier translations stay in any case |
| `PageTables.PageTableBuilder.Follow` | src/page_table.rs:185-196 | the walk down present entries of this builder, without building |
| `PageTables.PageTableBuilder.UnmapPage` | src/page_table.rs:174-206 | success removes exactly this page and yields its frame, failure changes nothing; succeeds exactly for a mapped page |
| `PageTables.PageTableBuilder.Reclaim` | src/page_table.rs:208-215 | exactly the builder's frames go back to the pool |
| `PageTables.SanitizeInheritedRoot` | src/page_table.rs:356-361 | every entry loses its user bit, and the slot for user images is emptied |
| `PageTables.SeedKernelRoot` | src/page_table.rs:325-343 | the new root holds the sanitised copy of the kernel's, or stays empty without one |
| `PageTables.NewForOwner` | src/page_table.rs:70-88 | a new space translates no user page, over an empty or a sanitised inherited root, and is sound exactly when no inherited table lies in the pool; a failure returns the frame |
| `PageTables.RootRealises` | src/page_table.rs:70-88 | a lone root stands for the empty map exactly when its entries lead to tables outside the pool |
| `PageTables.Run` | src/page_table.rs:117-206 | after any run of map and unmap, walking the four levels gives exactly the finite map the successful commands built, the page counter counts its leaves, and all tables form a tree |
| `ServiceGraph.CollectStartOrder` | src/runtime_services.rs:805-825 | the depth-first search terminates with a topological order of what it has to start, or with a path that comes back on itself |
| `ServiceGraph.NoCycle` | src/runtime_services.rs:805-825 | from an entry of such an order no cycle of services not running can be reached |
| `ServiceGraph.ReachedEntries` | src/runtime_services.rs:805-825 | everything not running that an entry reaches is in the order |
| `Services.ServiceRegistry.Start` | src/runtime_services.rs:244-249 | succeeds exactly when the service is live and reaches no cycle of services not running; then the service and everything not running it reaches are Running, and nothing else changed; on failure nothing changes |
| `Services.ServiceRegistry.Restart` | src/runtime_services.rs:303-319 | succeeds exactly when the service, taken as stopped, reaches no such cycle; what it reaches runs and its restart is counted |
| `RestartClosure.Grow` | src/runtime_services.rs:840-856 | the members are exactly the services reached through running dependents |
| `RestartClosure.Peel` | src/runtime_services.rs:857-870 | an order exists exactly when the members have no cycle among them |
| `RestartClosure.PeeledAcyclic` | src/runtime_services.rs:857-870 | what can be peeled has no cycle |
| `RestartClosure.StuckIsCyclic` | src/runtime_services.rs:861-868 | what cannot be peeled further has one |
| `RestartClosure.ReversedPeeled` | src/runtime_services.rs:871-872 | reversed, each member comes before every member it depends on |
| `RestartClosure.Closure` | src/runtime_services.rs:835-873 | exactly the least set with the service closed under running dependents, dependents first; DependencyCycle exactly when that graph has a cycle, Stale exactly for a dead handle |
| `Services.ServiceRegistry.BeginLifecycleAction` | src/runtime_services.rs:658-689 | accepted exactly by `lifecycle_status` and, for a restart, without a cycle; marks exactly the members |
| `Services.ServiceRegistry.AbortLifecycleMembers` | src/runtime_services.rs:713-728 | puts all members back to Running, or none when one is not Stopping |
| `Services.AbortUndoesRestart` | src/runtime_services.rs:658-728 | beginning a restart and aborting it leaves the registry as it was |
| `Services.AbortAccepted` | src/runtime_services.rs:713-728 | an abort right after an accepted restart is accepted |
| `Services.ServiceRegistry.Register` | src/runtime_services.rs:189-234 | adds a stopped service with the given quota and source and no rights, under a fresh handle, exactly when name, image, quota and dependencies are proper; no other service changes |
| `Services.ServiceRegistry.SetDependencies` | src/runtime_services.rs:251-269 | rewires one service to live dependencies only |
| `Services.ServiceRegistry.Remove` | src/runtime_services.rs:329-342 | removes exactly a service nobody depends on |
| `Services.ServiceRegistry.ReplaceGeneration` | src/runtime_services.rs:546-563 | a stopped service gets the next handle and epoch; all dependencies stay live exactly when nobody depended on the old handle |
| `Services.WiredRenamed` | src/runtime_services.rs:546-563 | after renaming one service, dependencies are live exactly when it had no dependents |
| `Services.RenamingDangles` | src/runtime_services.rs:546-563 | a registry of two services in which replacing a generation leaves a dead dependency |
| `Services.ServiceRegistry.List` | src/runtime_services.rs:760-803 | one page of records with handle, name and state flag: together with what follows from its cursor it is the whole rest, and a cursor is given exactly when more follows; refused exactly for request 0 |
| `Services.ServiceRegistry.ListAll` | src/runtime_services.rs:760-803 | following the cursors lists everything |
| `Services.EntriesExactly` | src/runtime_services.rs:760-803 | the listing holds exactly the records of the live services, each once |
| `SchedulerWords.PackInjective` | src/scheduler.rs:780-790 | generation, wake bit and state can be read back from the packed word, and two words are equal exactly when all three are |
| `SchedulerWords.ClaimsSeparated` | src/scheduler.rs:494-580 | in every legal history two claims of a slot have a finish between them |
| `SchedulerWords.WakeNotLost` | src/scheduler.rs:434-580 | a wake that lands on a running task makes its next attempt to block leave it runnable, unless a stop intervenes |
| `SchedulerWords.StopTakesEffect` | src/scheduler.rs:471-580 | a stop that lands on a running task makes its next finish complete it, whatever the outcome |
| `SchedulerWords.GenerationCounts` | src/scheduler.rs:582-611 | a slot's generation counts how often it was vacated, up to wrapping |
| `SchedulerWords.HandlesDiffer` | src/scheduler.rs:255-301 | two tasks spawned in one slot have different handles while generations have not come round |
| `SchedulerSteps.EveryRunIsLegal` | src/scheduler.rs:255-611 | however the loads and compare-and-swaps of all workers and CPUs interleave, the successful ones form a legal history that ends in the current words |
| `SchedulerSteps.StaleHandleHarmless` | src/scheduler.rs:434-611 | a handle of another generation never changes the word, however old the word its worker loaded |
| `SchedulerSteps.RunsAreSafe` | src/scheduler.rs:434-580 | in every interleaving: claims are separated by a finish, spawned handles differ, no wake of a running task is lost, every stop of one takes effect |
| `SchedulerSteps.StuckWhileRunnable` | src/scheduler.rs:494-517 | while a task stays runnable, a CPU does not get past the scan that starts at its slot |
| `SchedulerSteps.ChangedInTurn` | src/scheduler.rs:494-517 | a CPU that completes 24 calls of `claim_next` cannot leave a runnable word unchanged throughout |
| `SchedulerSteps.RunnableEndsByClaimOrStop` | src/scheduler.rs:434-580 | only a claim or a stop takes a runnable word away |
| `SchedulerSteps.ClaimedInTurn` | src/scheduler.rs:494-517 | bounded fairness: a runnable task is claimed or stopped no later than the 24th call any one CPU completes, for every interleaving |
| `Schedulers.Scheduler.Spawn` | src/scheduler.rs:255-301 | the first vacant slot becomes a fresh runnable task; the exact conditions for the errors; no other task changes |
| `Schedulers.Scheduler.ClaimNext` | src/scheduler.rs:494-517 | claims the first runnable task from the cursor on, wrapping around, and none only when none is runnable; the cursor moves by one |
| `Schedulers.Scheduler.WakeTask` | src/scheduler.rs:434-466 | the new task record for each state, and when there is an effect |
| `Schedulers.Scheduler.RequestStop` | src/scheduler.rs:471-492 | the new task record for each state, and when there is an effect |
| `Schedulers.Scheduler.FinishTask` | src/scheduler.rs:540-580 | accepted exactly for a running or stopping task whose context was saved; the record it leaves for each outcome |
| `Schedulers.Scheduler.SaveContext` | src/scheduler.rs:520-531 | marks a running or stopping task of this generation, and no other |
| `Schedulers.Scheduler.WaitForEventObject` | src/scheduler.rs:319-337 | registers a running task, and only such a task |
| `Schedulers.Scheduler.SignalEventObject` | src/scheduler.rs:341-361 | wakes every task registered for the object, and no other, and counts them |
| `Schedulers.SignalNotLost` | src/scheduler.rs:319-361 | a task registered for an object is, after any events, still registered or roused, and roused if the object was signalled |
| `Schedulers.Scheduler.WakeDue` | src/scheduler.rs:383-416 | wakes every blocked task whose deadline has passed, and no other |
| `Schedulers.Scheduler.ReclaimCompleted` | src/scheduler.rs:582-611 | vacates exactly a completed task of this generation under the next one, so that its handle is dead |
| `Events.EventRegistry.CreateEvent` | src/runtime_events.rs:221-235 | a fresh unsignalled event exactly for a valid owner when there is a vacant slot or room for one; Capacity and Unauthorized exactly otherwise |
| `Events.EventRegistry.CreateSet` | src/runtime_events.rs:293-303 | a fresh empty set, with the same exact errors |
| `Events.EventRegistry.Add` | src/runtime_events.rs:305-332 | adds an own event to an own usable set exactly when it is not there yet and there is room |
| `Events.EventRegistry.Remove` | src/runtime_events.rs:334-356 | removes exactly one member, in order |
| `Events.WithoutRest` | src/runtime_events.rs:350-353 | removing a member keeps exactly the others, without repetition |
| `Events.EventRegistry.SignalIrq` | src/runtime_events.rs:359-366 | latches the signal of a live event and wakes exactly the sets that wait for it |
| `Events.EventRegistry.Signal` | src/runtime_events.rs:368-378 | the same for the owner only |
| `Events.WaitersExactly` | src/runtime_events.rs:608-612 | those woken are exactly the live waiting sets that contain the event |
| `Events.EventRegistry.WaitAny` | src/runtime_events.rs:380-419 | Ready exactly when a member is signalled, consuming that one signal; otherwise Timeout or Pending by the deadline, and only Pending leaves the set waiting |
| `Events.EventRegistry.CancelWait` | src/runtime_events.rs:464-482 | ends a wait of the owner and wakes it |
| `Events.EventRegistry.DestroyEvent` | src/runtime_events.rs:500-536 | the event is gone from the registry and from every set; sets that had it are invalid, and exactly their waiters are woken |
| `Events.EventRegistry.DestroySet` | src/runtime_events.rs:538-558 | the set is gone; a waiter is woken |
| `Events.EventRegistry.DestroyService` | src/runtime_events.rs:576-606 | exactly the events and sets of the service are gone |
| `MessageRing.PushAppends` | src/runtime_ipc.rs:516-530 | storing at the tail appends the message byte for byte, through any wrap-around, in heap pages or in frames that differ |
| `MessageRing.AppendsExactly` | src/runtime_ipc.rs:516-530 | a queue in frames appends whatever is sent in whatever state exactly when no frame is in it twice |
| `MessageRing.Overwritten` | src/runtime_ipc.rs:516-530 | in a queue with one frame at two places a second message overwrites the first |
| `MessageRing.PopTakesFirst` | src/runtime_ipc.rs:562-576 | reading at the head takes the oldest message and leaves the rest |
| `Ipc.IpcRegistry.CreateEndpoint` | src/runtime_ipc.rs:103-236 | a fresh endpoint with an empty ring in heap pages or in the given frames, and two fresh events; Malformed and Full exactly when they should be; when a reservation or an event fails nothing live has changed, the first event being destroyed again; the committed total stays the sum of live capacities within the budget |
| `Ipc.IpcRegistry.Grant` | src/runtime_ipc.rs:238-261 | grants exactly to the owner of the side the right belongs to, with the endpoint's epoch, when there is room; each error exactly where it should be |
| `Ipc.IpcRegistry.FindEndpoint` | src/runtime_ipc.rs:369-388 | the live endpoint in the lowest slot between the two services for the contract; Malformed exactly for improper arguments, else Disconnected exactly when there is none |
| `Ipc.IpcRegistry.CapabilityFor` | src/runtime_ipc.rs:263-277 | the live capability in the lowest slot of that owner, endpoint and right, and an error exactly when there is none |
| `Ipc.IpcRegistry.Send` | src/runtime_ipc.rs:489-533 | Done exactly for an addressed endpoint with room: the bytes are in the page or frame at the tail, the message is the newest, and the read event rings; otherwise no queue and no event changes. Where queue frames are apart, every queue stays in order |
| `Ipc.IpcRegistry.Receive` | src/runtime_ipc.rs:535-579 | Done exactly for an addressed endpoint with a message: what the page or frame at the head holds is handed out, which is the next message in order where queue frames are apart, and the write event rings; otherwise nothing changes |
| `Ipc.IpcRegistry.DestroyEndpoint` | src/runtime_ipc.rs:317-343 | exactly the endpoint, its own events and every capability for it are gone, and its queue frames are returned; the registry is left broken exactly when the list of those frames cannot be reserved |
| `IpcRuns.RemovedWithoutRoom` | src/runtime_ipc.rs:317-343 | an endpoint whose frames cannot be listed is still live after its removal failed, without its events and outside the committed total |
| `Ipc.IpcRegistry.DestroyEndpointWithPool` | src/runtime_ipc.rs:304-315 | and the queue frames go back to the pool |
| `Ipc.IpcRegistry.DestroyService` | src/runtime_ipc.rs:460-487 | no endpoint, capability, event or set of the service is left, and nothing else is gone; exactly the queue frames of its endpoints go back |
| `IpcRuns.StaysLatched` | src/runtime_events.rs:359-419 | over any run a signal stays latched until a wait consumes it or its event is destroyed |
| `IpcRuns.Serve` | src/runtime_ipc.rs:103-579 | any one request: which endpoints, logs and signals it may change, and that order is kept |
| `IpcRuns.Run` | src/runtime_ipc.rs:103-579 | over every run from an ordered registry in which queues are created in frames of their own, on an endpoint no request takes down: the messages received are a prefix of those sent, byte for byte, and the rest is the ring's contents within its capacity |
| `IpcRuns.SharedFrame` | src/runtime_ipc.rs:148-579 | an endpoint in one frame twice is accepted, and of two messages sent on it the second is received first |
| `IpcRuns.ReaderIsWoken` | src/runtime_ipc.rs:489-533 | after a successful send and any further requests, a wait on a set with the read event is Ready, unless the event was consumed or destroyed in between |
| `IpcRuns.WriterIsWoken` | src/runtime_ipc.rs:535-579 | the same for a producer after a successful receive |
| `Processes.NewMapping` | src/process.rs:209-236 | a mapping exactly when it is aligned, not empty, in the user half, below the page limit, not both writable and executable, and its frames do not run past the address space |
| `Processes.OneMappingPerByte` | src/process.rs:323-340 | no byte of a space is mapped twice |
| `Processes.SpaceRemains` | src/process.rs:431-447 | as long as a process slot is vacant, an address space is free, so the reservation cannot fail |
| `Processes.ProcessTable.Reserve` | src/process.rs:295-308 | reserves the first vacant space, and fails exactly when there is none |
| `Processes.ProcessTable.StartPlan` | src/process.rs:431-447 | starts a process with a space of its own exactly when a process slot is vacant; no other process or space changes |
| `Processes.ProcessTable.BindRoot` | src/process.rs:459-472 | binds a root exactly once, to a running process |
| `Processes.ProcessTable.Map` | src/process.rs:497-510 | adds a mapping exactly when the space has a root, room, and no overlap |
| `Processes.ProcessTable.Unmap` | src/process.rs:517-528 | removes exactly one mapping: the inverse of Map; no other space changes |
| `Processes.ProcessTable.Launch` | src/process.rs:480-495 | how to enter a running process with a root; an error exactly otherwise |
| `Processes.ProcessTable.Exit` | src/process.rs:530-537 | ends exactly a running process |
| `Processes.ProcessTable.Reclaim` | src/process.rs:548-569 | vacates an ended process and its space under the next generations, and nothing else |
| `Elf.ParseReader` | src/process.rs:666-769 | accepts exactly the admissible images and returns the plan their bytes describe |
| `Elf.ReadExact` | src/process.rs:788-799 | the requested bytes of the image, or an error |
| `Elf.Refused` | src/process.rs:712-758 | one segment that is not allowed, or too much memory, spoils the whole image |
| `Loader.Load` | src/loader.rs:127-174 | loads exactly when no page is wanted twice and pages and frames suffice; the image has the pages of all segments and the stack, each with a frame of its own; a failed load returns every frame |
| `Loader.LoadedImage.LoadSegment` | src/loader.rs:138-163 | adds exactly the pages of one segment, or returns every frame |
| `Loader.LoadedImage.PushPage` | src/loader.rs:399-420 | adds one page, or returns every frame |
| `Loader.LoadedImage.Reclaim` | src/loader.rs:391-397 | exactly the image's frames go back |
| `Populate.ChunkCompletes` | src/loader.rs:238-258 | copying one page's part of a segment brings the page to the byte-by-byte specification |
| `Populate.PopulateImage` | src/loader.rs:200-389 | on success the first page for every address holds exactly the specified bytes and any further page for it zeros, written through frames or through the mapped addresses |
| `Populate.PopulateReader` | src/loader.rs:264-324 | the same, reading page by page through a scratch buffer |
| `Populate.SameMemory` | src/loader.rs:200-389 | the ways of populating give every page the same bytes |
| `Populate.SegmentByte` | src/loader.rs:200-261 | a segment byte is its file byte below the file size and zero above |
| `Populate.NoSegmentByte` | src/loader.rs:200-261 | a byte of no segment, such as any stack byte, is zero |
| `Populate.LoadedApart` | src/loader.rs:138-173 | the pages of a loaded image have different addresses exactly when no segment reaches the stack's range |
| `Populate.StackReached` | src/loader.rs:138-261 | an admissible plan with its code at the stack base loads with two pages for one address, and the stack's page holds zeros where the plan has a file byte |
| `Populate.LoadedHasPages` | src/loader.rs:138-163 | a loaded image has a page for every part of every segment |
| `Populate.LoadedKeyed` | src/loader.rs:127-174 | every page of a loaded image has a frame of its own, whatever its address |
| `Populate.SegmentsInMemory` | src/loader.rs:200-324 | every byte of a segment is on a page of the image, and there it is the file's byte below the file size and zero above |
| `Populate.RestInMemory` | src/loader.rs:200-324 | what no segment covers on those pages is zero, and so is every page of the stack |
| `Populate.LoadPackage` | src/service_runtime.rs:2366-2401 | from the bytes of a file to memory: an image exactly when the file is admissible and loads, with every segment byte, the rest and the stack as its plan says; a failure returns every frame |
| `ImageMapping.RunLength` | src/loader.rs:455-470 | the longest run of pages that continue each other in address, frame and flags |
| `ImageMapping.MapLoadedPages` | src/loader.rs:445-482 | the coalesced mappings expand to exactly the pages, with their addresses, frames and flags; a failure is at the first run that makes no sound mapping or that the space cannot take |
| `ImageMapping.PageStands` | src/loader.rs:445-482 | every page is a page of one of the mappings, and lies in it |
| `ImageMapping.FlattenHas` | src/loader.rs:445-482 | every page of a mapping is one of the pages |
| `ProgramWorld.ClientGone` | src/program_runtime.rs:470-479 | removing a client's service restores the endpoints, capabilities, events and sets from before the client |
| `ProgramWorld.ClientEndpointGone` | src/program_runtime.rs:592-597 | taking one of the client's endpoints down again leaves everything from before the client as it was |
| `ProgramWorld.OwnEventLost` | src/program_runtime.rs:470-479 | a registry with one event of the client, which is lost when the client's service is removed |
| `ProgramSteps.ProvisionSurface` | src/program_runtime.rs:506-629 | five empty queues of the asked sizes between client and atrium with capabilities for both sides, and the client's handles for them, or nothing of the client is left; all queues stay in order |
| `ProgramSteps.ProvisionOne` | src/program_runtime.rs:550-597 | one empty queue in frames of its own with a capability for each side, all else kept; when frames, endpoint, events or either grant fail, nothing of it is left |
| `ProgramSteps.ProgramCapability` | src/program_runtime.rs:631-644 | the client's capability for the first endpoint of the contract with the peer, and an error exactly when there is none |
| `ProgramSteps.OpenTables` | src/program_runtime.rs:198-209 | tables that translate the pages of the image and no other |
| `ProgramSteps.Admit` | src/program_runtime.rs:210-239 | a running process whose space has the root bound and mappings that expand to exactly the image; what it took is known at every error |
| `ProgramSteps.PrivatePages` | src/program_runtime.rs:254-322 | the staging page writable and zero, the bootstrap page read-only with the header and zeros after it, both in the tables and in the space; what was taken is known at every error |
| `ProgramSteps.HousedAgree` | src/program_runtime.rs:198-322 | page tables and the recorded space of the process hold the same pages with the same frames and rights |
| `ProgramSteps.Raise` | src/program_runtime.rs:198-329 | every stage before the task: on success the surface, the tables and the space of the process are complete; whatever fails, what has been taken is exactly accounted for |
| `ProgramSteps.AbortStart` | src/program_runtime.rs:481-504 | everything taken goes back: frames, endpoints, capabilities, events, process and space are those from before the image was loaded, and the client owns nothing |
| `ProgramRuntimes.EndProcess` | src/program_runtime.rs:373-388 | ends and vacates the process if it can be, and tells how the program ended |
| `ProgramRuntimes.FreeProgram` | src/program_runtime.rs:442-467 | exactly the program's IPC and frames are gone |
| `ProgramRuntimes.EndRestores` | src/program_runtime.rs:357-467 | the end of a program that was all that had come restores everything from before |
| `ProgramRuntimes.ProgramRuntime.constructor` | src/program_runtime.rs:136-138 | eight empty slots |
| `ProgramRuntimes.ProgramRuntime.Start` | src/program_runtime.rs:179-353 | a failure at any stage leaves frames, endpoints, capabilities, events, processes, spaces and tasks as before the image was loaded, from provisioning on exactly when the client owned no IPC before; a success fills a whole slot, its process runs with its five queues, its space and its tables hold the image and the private pages and no more, the bootstrap page announces the client's capabilities, and nothing else has come |
| `ProgramRuntimes.ProgramRuntime.RequestStop` | src/program_runtime.rs:154-161 | stops the slot's task, and fails exactly when there is none to stop |
| `ProgramRuntimes.ProgramRuntime.Reap` | src/program_runtime.rs:357-390 | does nothing exactly while the task has not completed; otherwise everything the program held is gone, nothing else, and the exit kind is what its process says; slots stay whole and processes the programs' own |
| `ProgramRuntimes.ProgramRuntime.FinishStop` | src/program_runtime.rs:394-412 | the same with errors: exactly the slot of a process that was still there to reclaim is given back; where programs hold their processes alone that is every finished slot, and slots stay whole |
| `ProgramRuntimes.StopAfterReclaim` | src/program_runtime.rs:394-412 | a started program whose process another holder reclaims: its stop fails, and its slot then holds a task that is gone, neither free nor finished |
| `ProgramRuntimes.HeldThroughEnd` | src/process.rs:530-546 | an exit or a fault leaves the programs their processes to reclaim |
| `ProgramRuntimes.HeldThroughReclaim` | src/process.rs:548-569 | reclaiming a process leaves the programs theirs exactly when no program holds it |
| `ProgramRuntimes.ProgramRuntime.DiscardAll` | src/program_runtime.rs:415-426 | of every program no frame is live, its client owns nothing, its process is vacated, and its slot is empty |
| `ProgramRuntimes.StartStopReap` | src/program_runtime.rs:154-390 | start, stop and reap: whether or not the start succeeds, all is as before the image was loaded, and a started program counts as Stopped |

## Left out

- FramePools.FramePool: stands for `src/frame_pool.rs` by contract; it picks any free frame, and is not connected to the allocator of `SmpFrames`.
- SmpFrames.SmpFrameAllocator.TryAlloc: each allocator call is one uncontended step, so `WouldBlock`, lock failures and contention counters do not occur.
- FrameManagers.FrameManager.constructor: metadata placement, the layout arithmetic of `for_frames` and its errors are not modelled; at most 2^32 frames and physical addresses below 2^52 are supposed.
- MemoryMaps.NormalizeMemoryMap: the errors the code checks for but valid runs rule out (overflow of ends and totals, a merge that grows) do not occur.
- KernelHeaps.KernelHeap.constructor: the slot, record and lease arrays are given; the heap supposes that other users of its frame allocator free each lease once.
- KernelHeaps.KernelHeap.Alloc: indices are unbounded, so their truncation to 32 and 16 bits is not modelled; slab frames come from an allocation of one frame, as `alloc_batch` of one does.
- Allocator reservations, `release_address`, statistics, latency histograms, fragmentation snapshots and `free_batch`.
- `AllocationFuture`, wait nodes and wait queues, the reclaimer, `TlbCoordinator`, `TlbBatch` and the virtual memory manager of `src/memory.rs`.
- PageTables.PageTableBuilder.MapPage: table memory is a map from frames to 512 entries with named fields; `PageEntry` connects the fields with the stored words. Adapter failures are arbitrary and given in advance. The processor's caches are not modelled beyond the list of invalidated pages.
- Populate.PopulateImage: memory that was never written reads as zero; the write-through adapter is a map from frame or address to bytes.
- Loader.Load: addresses and sizes are unbounded, so checked additions do not fail; which of Overlap, Capacity and Pool a failure is, is not stated.
- Populate.LoadPackage: the package header and its checksum, and the lookup of the owner, are left out; the two passes over the file use one reader.
- Processes.ProcessTable.StartPlan: takes the entry of a plan; device, workspace and heap mappings differ only in their page limits.
- SchedulerSteps.ClaimedInTurn: cursors are unbounded, so the wrap of a 64-bit cursor is excluded; the finish step does not look at saved contexts.
- Schedulers.Scheduler.FinishTask: contexts, stacks, entry points and address spaces of tasks are reduced to whether a context was saved; once set it stays set until the slot is spawned or reclaimed again, as in the code.
- Schedulers.Scheduler.SignalEventObject: one atomic step, since registration is stored beside the word.
- Services.ServiceRegistry.Register: runtime ownership, heartbeats and counters of a service are left out; reservation of its vectors does not fail.
- `next_manager_record` and the manager's paging: it counts live records but returns slot indices, so no completeness is claimed for it; `list` is modelled.
- Simple setters of the service registry, `disable`, `stop`, `fail`, names and directories of services, endpoints and events.
- Events.EventRegistry.WaitAny: hardware events and their global atomics are left out; only the per-event latch is modelled.
- Ipc.IpcRegistry.Send: the contents of queue frames are kept by the registry; that nothing else writes a frame of a queue is supposed.
- Ipc.IpcRegistry.DestroyEndpointWithPool: supposes room for the list of queue frames; `DestroyEndpoint` states what happens without it, and then neither its frames go back nor is the registry sound any more.
- Ipc.IpcRegistry.DestroyService: the frames of a destroyed queue go back one by one; the log of messages is kept for the proof.
- ProgramSteps.ProvisionOne: both registries are present.
- ProgramSteps.PrivatePages: the bootstrap page is given as bytes that depend on the capabilities; page tables and page contents are two views of memory, both cleared when a frame is.
- ProgramSteps.ProvisionSurface: the message sizes are parameters.
- ProgramRuntimes.ProgramRuntime.Start: supposes that the kernel's own tables are not in the frame pool, without which no new tables are sound (`PageTables.NewForOwner`). A client that owned IPC before the start loses it in a rollback, as in the code; for a failure to enter the process, which has the same error as earlier process failures, only the restoring direction is stated. A slot keeps the image's pages and the table frames by value.
- ProgramRuntimes.ProgramRuntime.FinishStop: the exit of a process found running cannot fail, so that error is left out.
- ProgramRuntimes.ProgramRuntime.Reap: what other parts of the kernel do between a start and its reap is covered by the statement of what goes, not by a run.
- Lookup of clients and staging frames by process, `destroy_all_surface_ipc`, and everything outside the files cited above.
