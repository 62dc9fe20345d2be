# Verified models of Genode's core

A Dafny model of the self-contained algorithms and protocols in Genode's base framework,
in core's ports to several kernels, and in one of its tools, with proofs of what they
promise. `dafny verify dfyconfig.toml` checks everything.

| file | what it models |
|---|---|
| `PagerHandshake.dfy` | the pause handshake of the NOVA pager object, as a step system over all interleavings |
| `Semaphore.dfy` | the counting semaphore of the base library, as a step system over all interleavings |
| `Fifo.dfy`, `SignalSource.dfy`, `Sel4SignalClient.dfy` | the intrusive queue, signal delivery on Fiasco.OC and seL4 on top of it, and the receiver on seL4 |
| `FlexpageFlush.dfy`, `Alignment.dfy` | OKL4's decomposition of address ranges into flexpages |
| `CpuEnumeration.dfy`, `AffinitySpace.dfy`, `Affinity.dfy` | NOVA's renumbering of CPUs, the affinity space built on it, and the scaling of affinities |
| `NovaUtcb.dfy`, `ReceiveWindow.dfy` | messages in NOVA's thread-control block, and the bookkeeping of received capabilities |
| `IpcMessage.dfy`, `ReceivedBytes.dfy`, `RpcSize.dfy` | marshalling of RPC messages, reading arbitrary received bytes, and the computation of buffer sizes |
| `BlockTree.dfy`, `AddressRanges.dfy`, `RangeAllocators.dfy` | the range allocator: its AVL tree of blocks, adding and removing ranges in 64-bit arithmetic, and its meaning in terms of pages |
| `BootMemory.dfy`, `Ranges.dfy` | the division of physical memory into RAM and I/O memory at NOVA's boot time |
| `FiascoPd.dfy` | versioned task ids and thread slots on Fiasco |
| `QuotaAccounting.dfy` | quota guards and the RAM allocator that charges them |
| `ComposeSequences.dfy` | the search for compose sequences by the character-map generator |
| `Arithmetic.dfy`, `MachineWords.dfy`, `Sequences.dfy`, `Wrappers.dfy` | shared definitions |

Objects that the original changes in place are classes, and each of their methods is proved
against a function of the old state; runs are sequences of operations over that function.
Word sizes are those of a 64-bit platform, and wrap-around is written out where the original
depends on it. Kernel operations are abstract steps that succeed. The decisions of parts that
are not modelled (region manager, RAM backend, compose automaton) are parameters.

Where the code does less than one would expect, the exact condition is proved:

- A pause requested by `client_recall(true)` is lost if the client raises a page fault, or has
  one on its way, that gets resolved before the client takes the recall, or if a migration was
  requested before (`PagerHandshake.PauseIsLost`, `PagerHandshake.PauseIsGuaranteedIff`).
- The semaphore grants too much if it is constructed with a negative count, although the
  constructor takes any (`Semaphore.AlwaysSafeIff`).
- The call buffer of an RPC can be too small for `Attempt` arguments, of which there can be up
  to seven (`RpcSize.CallBufferSufficesIff`, `RpcSize.SmallAttemptsFitIff`).
- The range check for received buffers adds machine words. A length word close to 2^64 passes
  it, and the buffer may reach behind the message (`IpcMessage.BufferIsStrayIff`). Which lists of
  types are read within the message for all received bytes is decided by the types and the
  capacity (`ReceivedBytes.ReadsWithinIff`).
- An available memory descriptor that overlaps earlier ones in part is refused as a whole after
  it was removed from I/O memory, which loses pages (`BootMemory.FirstPassIsExactIff`,
  `BootMemory.PartialOverlapLoses`).
- A range that ends with the address space while page 0 is present, or that completes the whole
  address space, merges to a block that later removals miss, so that page 0 and reserved pages
  stay in RAM (`RangeAllocators.SeriesIsRemovableIff`, `BootMemory.EndMeetsBeginning`).
- For an available memory descriptor that does not reach a page boundary, the computed size is
  one page less than the address space (`BootMemory.AvailableRangeIff`). If the range exceeds the
  address space, and the descriptor is the first available one, its removal from I/O memory never
  ends (`BootMemory.RemovalNeverEnds`).
- A non-available memory descriptor that touches both the first and the last page of the
  address space is skipped (`BootMemory.ReservedIsKeptOutIff`).
- Scaling an affinity to a smaller space does not keep locations disjoint
  (`Affinity.DisjointnessIsKeptIff`).
- The unmaps for an address that is not page aligned are naturally aligned only under a
  condition (`FlexpageFlush.NaturallyAlignedIff`).
- A destructor of a protection domain does not terminate if a thread of it was unbound from a
  second domain (`FiascoPd.DestructorEndsIff`).
- An allocation whose size reaches into the last page of the range of sizes is granted for free,
  with a dataspace of size zero (`QuotaAccounting.AllocationCoversIff`).


## Model

| member | source | states |
|---|---|---|
| PagerHandshake.RunKeepsInvariant | repos/base-nova/src/core/pager.cc:127-531 | in every interleaving of the client, the pager thread and any number of callers of `wake_up`, `client_recall` and `migrate`: the pause semaphore holds a token exactly if the client owes one and is not marked to wait for it; "blocked on pause semaphore" implies "blocked" outside of `wake_up` |
| PagerHandshake.EachPauseIsMatched | repos/base-nova/src/core/pager.cc:143-200 | for every run that leaves the lock free: marked-for-pause implies blocked, at most one token is pending, and the ups equal the replies that name the semaphore (given or decided) except for the one that the client is still marked to wait for |
| PagerHandshake.RunKeepsMatched | repos/base-nova/src/core/pager.cc:309-360 | along every run, ups equal downs plus pending tokens, and replies naming the semaphore equal downs plus the client that blocks on it |
| PagerHandshake.WakeUpIsNotLost | repos/base-nova/src/core/pager.cc:484-504 | whenever a `wake_up` is about to drop the lock, in any interleaving, the client is not marked any more, and there is a token if and only if the client owes one |
| PagerHandshake.WakeUpSupplies | repos/base-nova/src/core/pager.cc:484-504 | after any run, one more `wake_up` leaves exactly one token for a client that blocks on the semaphore or is about to, whether an earlier wake-up came first or not |
| PagerHandshake.PauseIsGuaranteedIff | repos/base-nova/src/core/pager.cc:309-360 | after a pause request and without further calls: every recall that the client may still take is answered by naming the semaphore, whatever client and pager do, if and only if the client has entered its recall already and no migration is requested, or waits for the semaphore, or has lost its portals |
| PagerHandshake.LoseByFault | repos/base-nova/src/core/pager.cc:179-185 | a running client with a pending recall can raise a page fault first, whose resolution makes the recall be answered plainly |
| PagerHandshake.LoseByMigration | repos/base-nova/src/core/pager.cc:317-325 | a requested migration makes the recall be answered plainly, whatever the flags say |
| PagerHandshake.PauseIsLost | repos/base-nova/src/core/pager.cc:179-185 | from any state with a page fault on its way to the handler, a `client_recall(true)` followed by the resolution of the fault leaves the client running and unblocked although nobody called `wake_up` |
| PagerHandshake.FaultHandlerEffect | repos/base-nova/src/core/pager.cc:127-201 | the steps of the page-fault handler, uninterrupted, let the client run after a resolved fault, and hand it over to the handling of lacking memory for the respective outcome, in both cases with clear flags; an unresolved fault sets both flags, and the client is about to block on the semaphore |
| PagerHandshake.RecallHandlerEffect | repos/base-nova/src/core/pager.cc:309-360 | likewise for the recall handler: a client that migrates or is unblocked resumes, a blocked one is marked and blocks on the semaphore |
| PagerHandshake.MigrateEffect | repos/base-nova/src/core/pager.cc:725-744 | likewise for a call of `migrate` with a new location: no effect on a blocked client, a recall for any other |
| PagerHandshake.ExceptionHandlerEffect | repos/base-nova/src/core/pager.cc:204-261 | likewise for the exception handler: a handled exception makes the client blocked with a recall pending, an unhandled one marks it dead |
| PagerHandshake.WakeUpEffect | repos/base-nova/src/core/pager.cc:484-504 | likewise for `wake_up`: a blocked client is unblocked and unmarked, with one semaphore operation exactly if it was marked; an unblocked one is left alone |
| PagerHandshake.ClientRecallEffect | repos/base-nova/src/core/pager.cc:507-531 | likewise for `client_recall`: one recall is pending afterwards, and with a pause requested the client is blocked |
| PagerHandshake.StartupEffect | repos/base-nova/src/core/pager.cc:363-382 | likewise for the startup handler: the client runs unblocked |
| PagerHandshake.PagerObject.PageFaultHandler | repos/base-nova/src/core/pager.cc:143-200 | plain reply with both flags clear exactly if the fault is handled and the mapping is possible, or becomes possible by a transfer of kernel memory; the reply for lacking memory, with both flags clear, exactly if the transfer lacks memory, too; otherwise the reply naming the semaphore, with both flags set; the other status bits stay |
| PagerHandshake.PagerObject.Exception | repos/base-nova/src/core/pager.cc:219-255 | a handled exception requests a signal and recalls the client for pausing, an unhandled one marks it dead; nothing else changes |
| PagerHandshake.PagerObject.RecallHandler | repos/base-nova/src/core/pager.cc:314-359 | a client that migrates is answered plainly, with its flags untouched; for any other one, a requested signal is submitted once, and the reply names the semaphore exactly if the client is blocked, which is recorded |
| PagerHandshake.PagerObject.MigrateThread | repos/base-nova/src/core/pager.cc:264-306 | a requested migration of an existing client is attempted once |
| PagerHandshake.PagerObject.Migrate | repos/base-nova/src/core/pager.cc:725-744 | a client that is not blocked is recalled and marked for migration if the location differs |
| PagerHandshake.PagerObject.WakeUp | repos/base-nova/src/core/pager.cc:484-504 | a blocked client is unblocked, with one up exactly if it is marked for the semaphore; an unblocked one is left alone |
| PagerHandshake.PagerObject.UnsynchronizedClientRecall | repos/base-nova/src/core/pager.cc:514-531 | one recall; the client becomes blocked if its state is requested |
| PagerHandshake.PagerObject.Set | repos/base-nova/src/core/include/pager.h:105-110 | setting one flag of the status byte changes no other bit |
| PagerHandshake.PagerObject.Reset | repos/base-nova/src/core/include/pager.h:105-110 | resetting one flag of the status byte changes no other bit |
| Semaphore.RunKeepsInvariant | repos/base/include/base/semaphore.h:57-106 | every step of any number of threads keeps the locking discipline, the counts, the FIFO order and the pairing of wake-ups with blocked threads |
| Semaphore.RunsAreSafe | repos/base/include/base/semaphore.h:57-106 | for every run from a non-negative count: with the lock free, the queue length is max(0, -cnt), and completed `down` calls never exceed the initial count plus the increments; threads leave the queue as they came and are woken up once each |
| Semaphore.NoWakeUpIsLost | repos/base/include/base/semaphore.h:75-101 | in every run, a blocked thread outside of the queue has exactly one wake-up, pending or assigned to a thread about to deliver it; an element to be woken up always belongs to a thread that is still blocked |
| Semaphore.StuckMeansConsumed | repos/base/include/base/semaphore.h:57-106 | if no thread can take a step, only threads in the queue are within an operation, and if there are any, completed `down` calls equal the initial count plus the increments: no wake-up was lost |
| Semaphore.AlwaysSafeIff | repos/base/include/base/semaphore.h:43 | the bound on completed `down` calls holds over all runs if and only if the initial count is not negative |
| Semaphore.NegativeCountIsUnsafe | repos/base/include/base/semaphore.h:43 | for every negative initial count, a run of one `down` and one `up` violates the bound |
| Semaphore.BalancedAfter | repos/base/include/base/semaphore.h:71-76 | leaving the queue, being woken up and resuming keep the multiset balance between served, woken and resumed threads |
| Semaphore.LockExcludes | repos/base/include/base/semaphore.h:62-105 | while a thread holds the lock, no step of another one changes counter, queue or lock |
| Semaphore.UpSectionIsAtomic | repos/base/include/base/semaphore.h:61-73 | the steps of the critical section of `up` amount to its specified effect |
| Semaphore.DownSectionIsAtomic | repos/base/include/base/semaphore.h:84-105 | the steps of the critical section of `down` amount to its specified effect |
| Semaphore.Semaphore.Up | repos/base/include/base/semaphore.h:57-77 | the counter grows by one; exactly if it was negative before and a thread waits, the one at the head leaves the queue and only its blockade is woken up |
| Semaphore.Semaphore.Down | repos/base/include/base/semaphore.h:82-106 | the counter shrinks by one; exactly if it is negative then, the caller blocks and its element joins at the end |
| Fifo.Queue.Enqueue | repos/base/include/util/fifo.h:118-130 | the element joins at the end; order and payload of all others stay |
| Fifo.Queue.Dequeue | repos/base/include/util/fifo.h:151-170 | the oldest element leaves and is unlinked; an empty queue stays empty |
| Fifo.Queue.Remove | repos/base/include/util/fifo.h:86-113 | the element leaves wherever it is, the order of the others stays; an element that is no member changes nothing |
| Fifo.Queue.Predecessor | repos/base/include/util/fifo.h:98-104 | the search ends in front of the element if and only if it is in the queue |
| Fifo.Queue.Unlink | repos/base/include/util/fifo.h:106-108 | skipping the successor drops exactly this element and keeps the tail pointer right |
| Fifo.Queue.Empty | repos/base/include/util/fifo.h:70 | true exactly if there are no elements |
| Sequences.WithoutMeaning | repos/base/include/util/fifo.h:86-113 | removal keeps the elements distinct and drops exactly the given one |
| SignalSource.RunConserves | repos/base-foc/src/core/signal_source_component.cc:28-64 | over every run: submitted equals delivered plus pending for each context; a context with pending signals that is not released is in the queue exactly once; triggers equal dequeues plus queue length plus releases of enqueued contexts |
| SignalSource.StepKeepsQueued | repos/base-foc/src/core/signal_source_component.cc:28-64 | each operation keeps the queue part of this |
| SignalSource.StepKeepsBalance | repos/base-foc/src/core/signal_source_component.cc:35-64 | each operation keeps the balance of signals |
| SignalSource.WakeUpFindsSignal | repos/base-foc/src/core/signal_source_component.cc:50-64 | a receiver that fetches at most once per trigger finds the queue empty only after an enqueued context was released |
| SignalSource.ReleaseMeaning | repos/base-foc/src/core/signal_source_component.cc:28-32 | a release takes the context out of the queue, wherever it is, and neither delivers nor resets anything |
| SignalSource.FetchesDeliverQueue | repos/base-foc/src/core/signal_source_component.cc:50-64 | as many fetches as there are waiting contexts deliver exactly what is pending for them, in queue order, and empty the queue |
| SignalSource.FetchesDeliverAll | repos/base-foc/src/core/signal_source_component.cc:50-64 | without contexts released with pending signals, everything ever submitted is delivered then |
| Sel4SignalClient.RunKeepsAttentive | repos/base-sel4/src/include/signal_source/client.h:54-75 | with merged notifications, in every interleaving of the receiver with submissions and releases: a context that waits after a fruitless request has left a notification |
| Sel4SignalClient.BlockedMeansDelivered | repos/base-sel4/src/include/signal_source/client.h:59-72 | hence a blocked receiver has neither a waiting context nor a pending notification, and everything submitted to contexts that were not released has been delivered |
| Sel4SignalClient.WaitingSignalIsTaken | repos/base-sel4/src/include/signal_source/client.h:59-72 | in every state of a run, a receiver within the call takes the first waiting signal by at most two steps of its own |
| SignalSource.SignalSourceComponent.IncrementSignalCnt | repos/base/src/core/include/signal_source_component.h:65 | the pending count of one context grows by the number submitted |
| SignalSource.SignalSourceComponent.EnqueueAndTrigger | repos/base-foc/src/core/signal_source_component.cc:41-46 | the context joins the queue and the receiver is triggered once |
| SignalSource.SignalSourceComponent.Submit | repos/base-foc/src/core/signal_source_component.cc:35-47 | the count grows, and the context joins the queue with one trigger exactly if it is not in there; refines the specified submission |
| SignalSource.SignalSourceComponent.SubmitSel4 | repos/base-sel4/src/core/signal_source_component.cc:31-47 | the same contract for the variant with an early return |
| SignalSource.SignalSourceComponent.WaitForSignal | repos/base-foc/src/core/signal_source_component.cc:50-64 | returns imprint and pending count of the oldest context, resets this count, and the record of deliveries grows by this context and the count returned; a dummy for an empty queue |
| SignalSource.SignalSourceComponent.WaitForSignalSel4 | repos/base-sel4/src/core/signal_source_component.cc:50-60 | the same contract for the variant without the test for an empty queue |
| SignalSource.SignalSourceComponent.DequeueSignal | repos/base-foc/src/core/signal_source_component.cc:57-62 | the oldest context leaves the queue; the count returned is the one that is reset and recorded as delivered |
| SignalSource.SignalSourceComponent.Release | repos/base-foc/src/core/signal_source_component.cc:28-32 | refines the specified release |
| SignalSource.SignalSourceComponent.NewContext | repos/base/src/core/include/signal_source_component.h:54-55 | a context starts with count zero, outside of the queue |
| FlexpageFlush.PlatformPd.Flush | repos/base-okl4/src/core/platform_pd.cc:246-287 | for any address and size, in unbounded arithmetic: terminates, issues exactly the specified unmaps, and afterwards nothing is mapped in the range and everything outside of it as before |
| FlexpageFlush.UnmapsAreExpressible | repos/base-okl4/src/core/platform_pd.cc:256-286 | for sizes below 2^31 and ranges within the address space, each unmap needs no shift by more than 30 and ends within the address space |
| FlexpageFlush.PlatformPd.UnmapNext | repos/base-okl4/src/core/platform_pd.cc:277-282 | one unmap of the current size advances the address and shortens the rest by it |
| FlexpageFlush.PlatformPd.UnmapLog2Range | repos/base-okl4/src/core/platform_pd.cc:233-243 | the system call removes the mappings of one block |
| FlexpageFlush.FlushCoversExactly | repos/base-okl4/src/core/platform_pd.cc:246-287 | the unmapped blocks tile the range without gap or overlap |
| FlexpageFlush.TilesAreConsecutive | repos/base-okl4/src/core/platform_pd.cc:246-287 | tiling means that each block starts where the previous one ends, within the range |
| FlexpageFlush.FlushIsGreedy | repos/base-okl4/src/core/platform_pd.cc:246-287 | growing and shrinking issues exactly the sequence of the reference algorithm that always cuts off the largest naturally aligned block that fits |
| FlexpageFlush.ShrinkIsGreedy | repos/base-okl4/src/core/platform_pd.cc:275-286 | the shrinking phase alone is greedy once the address is aligned to the largest power of two left |
| FlexpageFlush.GreedyBlocksAreLargest | repos/base-okl4/src/core/platform_pd.cc:246-287 | each block is the largest naturally aligned power of two that starts there and fits |
| FlexpageFlush.GreedyTiles | repos/base-okl4/src/core/platform_pd.cc:246-287 | the blocks tile the range and are naturally aligned |
| FlexpageFlush.AtMostTwoBlocksPerSize | repos/base-okl4/src/core/platform_pd.cc:246-287 | no size occurs more than twice among the unmaps |
| FlexpageFlush.GreedyIsShortest | repos/base-okl4/src/core/platform_pd.cc:246-287 | no other decomposition into naturally aligned blocks is shorter |
| FlexpageFlush.NaturallyAlignedIff | repos/base-okl4/src/core/platform_pd.cc:246-287 | for any address, the blocks are naturally aligned if and only if the range is empty or the address is aligned to the page size or, for shorter ranges, to the largest power of two that fits |
| FlexpageFlush.WholePagesStayWhole | repos/base-okl4/src/core/platform_pd.cc:246-287 | a size of whole pages never causes an unmap below page size |
| Alignment.BitDecidesAlignment | repos/base-okl4/src/core/platform_pd.cc:261 | given alignment to one power of two, the tested address bit decides alignment to the next |
| Alignment.AlignedMeaning | repos/base-okl4/src/core/platform_pd.cc:260-261 | alignment is divisibility by the power of two |
| Alignment.BitSetMeaning | repos/base-okl4/src/core/platform_pd.cc:261 | the tested bit is the parity of the quotient |
| CpuEnumeration.Cpus | repos/base-nova/include/nova/syscall-generic.h:155-163 | the number of enabled CPUs |
| CpuEnumeration.RemapCpuIds | repos/base-nova/include/nova/syscall-generic.h:182-225 | succeeds if and only if the boot CPU is enabled and no E-core; then fills exactly the first slots, as many as enabled CPUs, with the boot CPU followed by all others in order, and leaves the slots behind alone |
| CpuEnumeration.AssignCpus | repos/base-nova/include/nova/syscall-generic.h:230-256 | one pass of the nested enumeration appends the selected CPUs in the order of package, core, thread and index, and stops early exactly when all are assigned |
| CpuEnumeration.AssignThread | repos/base-nova/include/nova/syscall-generic.h:236-251 | the innermost loop appends the selected CPUs of one package, core and thread in index order |
| CpuEnumeration.RemapIsUnique | repos/base-nova/include/nova/syscall-generic.h:182-225 | the result is determined: any two renumberings with these properties are equal |
| CpuEnumeration.PrecedesMeaning | repos/base-nova/include/nova/syscall-generic.h:197-222 | the order: E-cores last, otherwise by package, core, thread and table index in turn |
| CpuEnumeration.FlagsMeaning | repos/base-nova/include/nova/syscall-generic.h:148-176 | bit 0 of the flags tells enabled CPUs, bit 2 E-cores, whatever the others are |
| CpuEnumeration.SortedIsUnique | repos/base-nova/include/nova/syscall-generic.h:230-256 | a set of CPUs has only one enumeration in this order |
| CpuEnumeration.AllAssigned | repos/base-nova/include/nova/syscall-generic.h:206-207 | the early exit on the number of CPUs happens exactly when no selected CPU is left |
| CpuEnumeration.ECoresComplete | repos/base-nova/include/nova/syscall-generic.h:209-222 | after the pass over the E-cores, every enabled CPU is assigned |
| CpuEnumeration.EnabledCountBounds | repos/base-nova/include/nova/syscall-generic.h:155-163 | the count of enabled CPUs lies between one, if there is an enabled one, and the table size |
| AffinitySpace.CountCpus | repos/base-nova/src/core/platform.cc:281-291 | the numbers of enabled CPUs and of distinct thread ids among them |
| AffinitySpace.SetupAffinitySpace | repos/base-nova/src/core/platform.cc:279-298 | width times height equals the number of enabled CPUs, in both cases |
| AffinitySpace.PagerIndexInGrid | repos/base-nova/src/core/platform.cc:999-1003 | within the grid, the index numbers the locations column by column without wrap-around |
| AffinitySpace.KernelCpuIdInGrid | repos/base-nova/src/core/platform.cc:986-1003 | a location leads to the table entry of its own number, or to all ones behind the end of the table |
| AffinitySpace.CellOfPagerIndex | repos/base-nova/src/core/platform.cc:999-1003 | each number below the CPU count is the index of a location |
| AffinitySpace.PagerIndexIsInjective | repos/base-nova/src/core/platform.cc:999-1003 | distinct locations have distinct indices |
| AffinitySpace.LocationsAreTheEnabledCpus | repos/base-nova/src/core/platform.cc:986-1003 | after the renumbering, locations and enabled kernel CPUs correspond one to one, and the first location is the boot CPU |
| AffinitySpace.InitCpus | repos/base-nova/src/core/platform.cc:316-376 | the boot sequence establishes this whenever the renumbering succeeds |
| Affinity.WithinMeaning | repos/base/include/base/affinity.h:147-154 | for all 32-bit values: the test holds if and only if the rectangle is not empty, inside of the space, and within the range of signed coordinates |
| Affinity.ScaleToIsExact | repos/base/include/base/affinity.h:210-236 | for valid affinities with products in range, the mixed signed and unsigned arithmetic computes the exact scaled corners |
| Affinity.ScaledLocationIsInvalidIff | repos/base/include/base/affinity.h:210-236 | for all values: the result is the invalid default location if and only if the own space has no nodes, in 32-bit arithmetic; otherwise width and height are at least one |
| Affinity.ScaledLocationIsWithinTarget | repos/base/include/base/affinity.h:210-236 | the scaled location lies within the target space |
| Affinity.ScalingToOwnSpaceIsIdentity | repos/base/include/base/affinity.h:210-236 | scaling to the own space changes nothing |
| Affinity.WholeSpaceScalesToWholeTarget | repos/base/include/base/affinity.h:210-236 | the whole space becomes the whole target |
| Affinity.GrowingKeepsDisjoint | repos/base/include/base/affinity.h:210-236 | disjoint locations stay disjoint if the target is at least as large in both dimensions |
| Affinity.DisjointnessIsKeptIff | repos/base/include/base/affinity.h:226-235 | all disjoint locations of a space stay disjoint if and only if the target is at least as large in both dimensions |
| Affinity.GrowingPartitionsTarget | repos/base/include/base/affinity.h:210-236 | each node of a larger target belongs to the scaled location of exactly one source node |
| Affinity.IndexEnumeratesGrid | repos/base/include/base/affinity.h:240-243 | `location_of_index` yields, for each index below the total, the node of the space with this number, row by row |
| Affinity.LocationOfCellNumber | repos/base/include/base/affinity.h:240-243 | each node of the space is hit, by its own number |
| Affinity.IndexWraps | repos/base/include/base/affinity.h:80-89 | an index behind the last node wraps around by the number of nodes |
| NovaUtcb.ObjCrdFields | repos/base-nova/include/nova/syscall-generic.h:553-559 | base, order, rights and type are read back as packed, truncated to their fields |
| NovaUtcb.IoCrdFields | repos/base-nova/include/nova/syscall-generic.h:526-531 | likewise, with all rights |
| NovaUtcb.MemCrdFields | repos/base-nova/include/nova/syscall-generic.h:503-515 | likewise, with the three access rights |
| NovaUtcb.DescriptorLayout | repos/base-nova/include/nova/syscall-generic.h:412-457 | for any descriptor: two bits of type, five of rights, five of order, base above; memory descriptors keep the page of a hotspot, all others take it as a selector |
| NovaUtcb.FlagsAreSeparate | repos/base-nova/include/nova/syscall-generic.h:793-806 | each option has its own bit, and delegation and translation exclude each other |
| NovaUtcb.MemItemFields | repos/base-nova/include/nova/syscall-generic.h:793-809 | for memory, hotspot page, option bits and kind of delegation are separate; `is_del` holds exactly if translation was not requested |
| NovaUtcb.SelectorItemFields | repos/base-nova/include/nova/syscall-generic.h:793-809 | likewise for other descriptors, whose hotspot is shifted |
| NovaUtcb.RunOfAppends | repos/base-nova/include/nova/syscall-generic.h:774-812 | a run of appends keeps exactly the items up to the capacity, in order |
| NovaUtcb.CapacityMeaning | repos/base-nova/include/nova/syscall-generic.h:787-791 | the capacity is the number of items up to which the check lets them fit behind the words |
| NovaUtcb.CountOneMore | repos/base-nova/include/nova/syscall-generic.h:759-767 | adding one item to the packed counters changes no word count |
| NovaUtcb.Utcb.SetMsgWord | repos/base-nova/include/nova/syscall-generic.h:757 | the word count is set and all items are dropped |
| NovaUtcb.Utcb.WriteMsgWord | repos/base-nova/include/nova/syscall-generic.h:673 | writing a message word changes no item |
| NovaUtcb.Utcb.AppendItem | repos/base-nova/include/nova/syscall-generic.h:774-812 | the item is stored behind the earlier ones, exactly if it does not reach the words: descriptor and hotspot with flags in the last two words still free; otherwise nothing changes |
| NovaUtcb.Utcb.StoreItem | repos/base-nova/include/nova/syscall-generic.h:782-811 | the part of this that does not depend on the packing |
| NovaUtcb.Utcb.CountersMeaning | repos/base-nova/include/nova/syscall-generic.h:759-767 | the packed counters are the numbers of words and items |
| NovaUtcb.Utcb.GetItemIsAppended | repos/base-nova/include/nova/syscall-generic.h:819-824 | the item at position j is the j-th appended one |
| NovaUtcb.Utcb.GetItemRange | repos/base-nova/include/nova/syscall-generic.h:819-824 | there is no item exactly at positions that would reach into the header |
| ReceiveWindow.ReceiveWindow.PostIpc | repos/base-nova/include/nova/receive_window.h:188-242 | dies exactly if the window is too large or a delegated capability lies outside of it; otherwise each slot is marked unused exactly if a processed delegated item has its selector, slots behind the window are invalid, and the first items, up to the window size, are recorded in order |
| ReceiveWindow.ReceiveWindow.TrackMapped | repos/base-nova/include/nova/receive_window.h:211-218 | one delegated item marks its slot, and nothing else |
| ReceiveWindow.ReceiveWindow.RecordOrder | repos/base-nova/include/nova/receive_window.h:220-229 | one item is recorded behind the others while there is room |
| ReceiveWindow.ReceiveWindow.ResetSlots | repos/base-nova/include/nova/receive_window.h:201-202 | slots within the window are free, the others invalid |
| ReceiveWindow.ReceiveWindow.ProcessItems | repos/base-nova/include/nova/receive_window.h:204-230 | the loop processes the items up to the first missing one |
| ReceiveWindow.ClassifyDelegated | repos/base-nova/include/nova/receive_window.h:211-218 | one more delegated item changes the meaning of its own slot only |
| ReceiveWindow.ClassifyTranslated | repos/base-nova/include/nova/receive_window.h:211-218 | any other item changes the meaning of no slot |
| ReceiveWindow.UnusedCapsAreRecorded | repos/base-nova/include/nova/receive_window.h:220-230 | for a message with no more items than the window has slots, the unused slots are those of the recorded delegated selectors |
| ReceiveWindow.WindowSizeMeaning | repos/base-nova/include/nova/receive_window.h:197-199 | orders 0, 1 and 2 stand for windows of 1, 2 and 4; all others below 16 exceed the maximum, and the truncation to 16 bits leaves none |
| ReceiveWindow.SelMeaning | repos/base-nova/include/nova/receive_window.h:209-229 | a null item records no selector; any other one the selector in its descriptor, with the flag exactly for delegated ones |
| ReceiveWindow.ClassifyMeaning | repos/base-nova/include/nova/receive_window.h:201-218 | a slot is invalid exactly behind the window, and unused exactly within it if an item delegates a capability to its selector |
| ReceiveWindow.ReceivedItemsMeaning | repos/base-nova/include/nova/receive_window.h:192-207 | the items are as many as the upper half of the counter tells, up to 254, each in its two words counted from the end of the UTCB |
| IpcMessage.RoundTrip | repos/base/include/base/ipc.h:94-169 | any sequence of scalars, buffers, `Attempt` values and capabilities that fits is extracted unchanged and in order by the same sequence of types, from the same buffer extended afterwards or from any other one that holds the data |
| IpcMessage.ValueRoundTrip | repos/base/include/base/ipc.h:94-169 | likewise for one value, with the read position and the capability index in step with the writer |
| IpcMessage.BufferRoundTrip | repos/base/include/base/ipc.h:121-133 | likewise for an `Rpc_in_buffer`, whose length word precedes its padded bytes |
| IpcMessage.SizeWordRoundTrip | repos/base/include/base/ipc_msgbuf.h:188-189 | the length word carries any 64-bit length |
| IpcMessage.Msgbuf.InsertBytes | repos/base/include/base/ipc_msgbuf.h:196-207 | the buffer becomes the one specified, whether the bytes fit or not |
| IpcMessage.InsertedBytes | repos/base/include/base/ipc_msgbuf.h:172-207 | bytes that fit are copied behind the content, which stays, and the write position moves to the next word; others are dropped without any effect |
| IpcMessage.Msgbuf.InsertCap | repos/base/include/base/ipc_msgbuf.h:212-218 | rejected exactly if four capabilities are there, and then nothing changes; otherwise it is added behind the others |
| IpcMessage.Msgbuf.Insert | repos/base/include/base/ipc_msgbuf.h:169-239 | each overload inserts its pieces in turn |
| IpcMessage.Msgbuf.Reset | repos/base/include/base/ipc_msgbuf.h:127-136 | the message is empty afterwards, and the used capabilities are invalid |
| IpcMessage.Msgbuf.Clear | repos/base/include/base/ipc_msgbuf.h:71-76 | whole words of the given size are zeroed, and no other bytes |
| IpcMessage.BufferIsStrayIff | repos/base/include/base/ipc.h:121-133 | for arbitrary received bytes: an extracted buffer lies partly behind the message if and only if its position and the length word add up to 2^64 or more, and the maximum does not fit at this position |
| IpcMessage.ReceivedBuffer | repos/base/include/base/ipc.h:121-133 | for arbitrary received bytes: a length within the message yields the bytes behind the length word, cut to the maximum, and reading goes on behind all of them; a longer one below 2^64 is an error |
| IpcMessage.ReceivedAttempt | repos/base/include/base/ipc.h:162-169 | a first byte other than zero means a result, zero an error, which is read from the next word on |
| IpcMessage.LengthOnTheWire | repos/base/include/base/ipc.h:124-126 | the length is read with the least significant byte first |
| ReceivedBytes.ReadsWithinIff | repos/base/include/base/ipc.h:121-158 | for arbitrary received bytes of some capacity: whatever is read by a list of scalars, buffers and capabilities lies within the message if and only if a condition on the types and the capacity holds; once a first buffer can be reached, whoever sent the bytes decides where reading goes on, so that a second one whose length word fits anywhere breaks it |
| ReceivedBytes.ReadsWithin | repos/base/include/base/ipc.h:121-169 | the condition suffices for lists with `Attempt` types as well |
| ReceivedBytes.StrayMeansCanStray | repos/base/include/base/ipc.h:121-169 | from any position at a word boundary: bytes for which the reader leaves the message exist only if the condition is violated |
| ReceivedBytes.ReadBuffer | repos/base/include/base/ipc.h:124-131 | a length word that passes the range check, wrapped around or not, leaves the reader at a word boundary, at most right behind the message |
| ReceivedBytes.JumpReads | repos/base/include/base/ipc.h:124-131 | a length word takes the reader to any whole word of the message, forward or backward |
| IpcMessage.WrappedLength | repos/base/include/base/ipc.h:124-131 | for a message of 1024 bytes with the length word 2^64 - 8, nothing is refused and reading starts over at offset 0 |
| IpcMessage.IpcUnmarshaller.Extract | repos/base/include/base/ipc.h:94-169 | each overload takes its pieces from the current position as specified; a capability behind the last one reads as invalid |
| IpcMessage.IpcUnmarshaller.ExtractBuffer | repos/base/include/base/ipc.h:121-133 | a buffer refers to the bytes behind its length word, at most its maximum, and reading goes on behind the length sent |
| IpcMessage.IpcUnmarshaller.ExtractBytes | repos/base/include/base/ipc.h:144-157 | within the message, exactly the bytes at the current position with a move to the next word; beyond, an error without a move; sums that wrap around as specified |
| RpcSize.CallBufferSufficesIff | repos/base/include/base/rpc_client.h:131-145 | for every argument list: no insertion into the call buffer is ever dropped or rejected, for any argument values, if and only if the arguments exceed their own sizes by no more than the protocol overhead and have at most four capabilities |
| RpcSize.CallBufferSuffices | repos/base/include/base/rpc.h:203-209 | so it is for all lists without `Attempt` arguments, including buffers that send a length word plus padded bytes |
| RpcSize.SmallAttemptsFitIff | repos/base/include/base/rpc_client.h:131-137 | with arguments of type `Attempt<bool, E>` by value, for an enumeration `E` of one byte, it is so if and only if there are at most four |
| RpcSize.TransferSizeCovers | repos/base/include/base/rpc.h:143-149 | the transfer size of a type without `Attempt` covers all that its values insert |
| RpcSize.AlwaysFitsIff | repos/base/include/base/ipc_msgbuf.h:169-218 | a capacity, of whole words or not, suffices for all values exactly if it holds the widest ones up to the end of the last datum, and the types have at most four capabilities |
| RpcSize.FitsByEnd | repos/base/include/base/ipc_msgbuf.h:172-179 | pieces fit exactly if the last datum ends within the capacity; its padding may not |
| RpcSize.NeedIsPaddedEnd | repos/base/include/base/ipc_msgbuf.h:178-206 | what a type inserts at most is its end, padded to a whole word |
| RpcSize.AlwaysArrivesIff | repos/base-nova/src/include/base/internal/ipc.h:50-61 | inserted into the server's buffer of 1024 bytes and received in whole words, all values of some types arrive if and only if both buffers hold them with all padding, and the capabilities are at most four |
| RpcSize.ReplyBufferSufficesIff | repos/base/include/base/rpc_server.h:309-311 | for all results and return values: they arrive if and only if the server's buffer holds them, the excess of the results together with the return value stays within its own size, the exception code and the overhead, and the capabilities are at most four |
| RpcSize.ReplyBufferSuffices | repos/base/include/base/rpc.h:273-278 | so it is for plain results that fit into the server's buffer and any return value, an `Attempt` of plain types included |
| RpcSize.ReplyDeliversResults | repos/base/include/base/rpc_client.h:164-173 | hence the client extracts results and return value exactly as the server inserted them |
| RpcSize.ReceivedHoldsAll | repos/base-nova/src/include/base/internal/ipc.h:50-61 | a message that fits into the receiver's buffer with its padding is received completely |
| RpcSize.ReturnValueExcess | repos/base/include/base/rpc.h:222-226 | a returned `Attempt` inserts less than two words more than its size |
| RpcSize.AttemptHoldsBoth | repos/base/include/base/rpc.h:222-223 | the size of an `Attempt` exceeds the sizes of both of its parts together |
| RpcSize.AttemptLayout | repos/base/include/util/attempt.h:43-45 | flag, result and error lie one behind the other, each at the first multiple of its own alignment, and the size is the first multiple of the larger alignment that holds them |
| RpcSize.SizeIsMultipleOfAlignment | repos/base/include/base/rpc.h:143-149 | the size of every type is a multiple of its alignment |
| RpcSize.Directions | repos/base/include/base/rpc.h:104-108 | every argument travels to the server, and exactly those passed by non-const pointer or reference travel back |
| RpcSize.CallDeliversArguments | repos/base/include/base/rpc_client.h:144-145 | hence the server extracts opcode and arguments exactly as they were passed, from a receive buffer of any capacity that holds the data sent |
| BootMemory.Platform.InitMemory | repos/base-nova/src/core/platform.cc:471-593 | for every list whose computed ranges stay in the address space, the passes terminate; unless a range wraps around, they leave exactly the specified pages in both allocators, where a range that overlaps present pages is refused as a whole |
| BootMemory.Platform.FirstPass | repos/base-nova/src/core/platform.cc:484-522 | the available regions are removed from I/O memory and added to RAM in turn |
| BootMemory.Platform.AddAvailable | repos/base-nova/src/core/platform.cc:494-521 | an available region leaves I/O memory in any case, and is added to RAM as the range allocator does it |
| BootMemory.Platform.RemoveReserved | repos/base-nova/src/core/platform.cc:534-573 | a non-available region leaves RAM; ACPI memory is added to I/O memory as the range allocator does it |
| BootMemory.Platform.SecondPass | repos/base-nova/src/core/platform.cc:532-574 | the same for all of them in turn |
| BootMemory.Platform.RemoveCommandLine | repos/base-nova/src/core/platform.cc:584-592 | the two pages of a command line leave RAM, although repeated ones are skipped |
| BootMemory.Platform.RemoveCommandLines | repos/base-nova/src/core/platform.cc:580-593 | the pages of all module command lines leave RAM |
| BootMemory.RamIsSafe | repos/base-nova/src/core/platform.cc:471-593 | for every list of descriptors whose ranges stay in the address space and do not wrap around when added: no page of RAM is I/O memory, touched by a non-available region, page 0 or part of a command line |
| BootMemory.RamBytes | repos/base-nova/src/core/platform.cc:471-593 | if moreover available regions reach page boundaries, each byte of RAM lies in an available region with its whole page, outside of page 0 and of every non-available region that does not touch both ends of the address space |
| BootMemory.CommandLineBytes | repos/base-nova/src/core/platform.cc:580-593 | no byte of the first 4096 ones of a module's command line is RAM |
| BootMemory.FramebufferLength | repos/base-nova/src/core/platform.cc:544-550 | bits 16 to 39 of the size of a framebuffer descriptor are the height, which times the pitch, in 32-bit arithmetic, is the length of its memory; other descriptors have their size |
| BootMemory.FirstPassIsExactIff | repos/base-nova/src/core/platform.cc:484-522 | the tree of RAM has exactly the pages provided, at whatever descriptor one stops, and each of them can be removed, if and only if no available region overlaps the earlier ones in part, and none wraps around |
| BootMemory.SecondPassIsExactIff | repos/base-nova/src/core/platform.cc:568-571 | likewise for I/O memory, which gains exactly the ACPI pages |
| BootMemory.OutcomeIsExact | repos/base-nova/src/core/platform.cc:471-593 | without partial overlaps and wrapped ranges, RAM has exactly the pages provided, not reserved, not page 0 and without command lines, and I/O memory exactly its counterpart |
| BootMemory.EndMeetsBeginning | repos/base/src/lib/base/allocator_avl.cc:248-253 | for the regions from 0 to 0x9f000 and from 2^64 - 0x4000 to 2^64, RAM becomes a single block, in which the removals of a reserved page and of page 0 find nothing |
| BootMemory.RemovalNeverEnds | repos/base/src/lib/base/allocator_avl.cc:272-307 | if the range computed for the first available region exceeds the address space, its removal from I/O memory goes on after any number of rounds |
| BootMemory.PartialOverlapLoses | repos/base-nova/src/core/platform.cc:520-521 | of two available regions that share a page, what only the second one provides is in neither allocator |
| BootMemory.OverlapLosesPages | repos/base-nova/src/core/platform.cc:520-521 | so it is for the regions 0x100000 to 0x102000 and 0x101000 to 0x104000, which lose page 0x103 |
| BootMemory.PagesInNeither | repos/base-nova/src/core/platform.cc:471-593 | for the same lists as above, a page in neither allocator is reserved, holds a command line, or was refused with every region that provides it |
| BootMemory.AvailableRangeIff | repos/base-nova/src/core/platform.cc:508-514 | base and size computed with wrap-around stay in the address space and cover exactly the whole pages of the region if and only if the region reaches a page boundary |
| BootMemory.SmallRegion | repos/base-nova/src/core/platform.cc:514 | otherwise, the computed size is one page less than the address space |
| BootMemory.SmallRegionExamples | repos/base-nova/src/core/platform.cc:508-514 | two such regions, at 0x1100 and at 2^64 - 0x800, with the ranges computed for them |
| BootMemory.AvailableRange | repos/base-nova/src/core/platform.cc:508-514 | the exact half of this |
| BootMemory.ReservedIsExact | repos/base-nova/src/core/platform.cc:541-563 | base and size computed with wrap-around cover exactly the touched pages, or nothing if the region touches both the first and the last page |
| BootMemory.ReservedIsKeptOutIff | repos/base-nova/src/core/platform.cc:559-566 | a non-available region is kept out of RAM, for all descriptor lists whose ranges stay in the address space and do not wrap around, if and only if it does not touch both ends of the address space |
| RangeAllocators.RangeAllocator.AddRange | repos/base/src/lib/base/allocator_avl.cc:226-262 | the tree becomes the one specified; a range of whole pages is added exactly if it is not empty and overlaps nothing that is present, and adds its pages unless it wraps around |
| RangeAllocators.RangeAllocator.RemoveRange | repos/base/src/lib/base/allocator_avl.cc:265-309 | the loop terminates for every tree and every range in the address space; from a tree without wrapped blocks, whatever is present of the range is removed |
| RangeAllocators.SeriesIsRemovableIff | repos/base/src/lib/base/allocator_avl.cc:226-309 | however many ranges of a series have been added, each page can be removed again, alone, if and only if no accepted range ends with the address space while page 0 is present, or completes the whole address space |
| RangeAllocators.SeriesIsExactIff | repos/base/src/lib/base/allocator_avl.cc:226-309 | and the tree has exactly all their pages if and only if, moreover, no range overlaps the earlier ones in part |
| RangeAllocators.WrapsIff | repos/base/src/lib/base/allocator_avl.cc:240-253 | an accepted range of whole pages wraps around in terms of bytes exactly if it does in terms of pages |
| RangeAllocators.AddedWrapsPages | repos/base/src/lib/base/allocator_avl.cc:248-253 | after a range that wraps around, page 0 is present, and its removal changes nothing |
| AddressRanges.AcceptsIff | repos/base/src/lib/base/allocator_avl.cc:231-233 | a range is accepted if and only if it is not empty and none of its bytes is present |
| AddressRanges.AddedMeaning | repos/base/src/lib/base/allocator_avl.cc:239-258 | unless it wraps around, an accepted range merges with its neighbours such that the tree stays ordered, with gaps between all blocks, and has exactly its bytes in addition |
| AddressRanges.AddedWraps | repos/base/src/lib/base/allocator_avl.cc:248-253 | otherwise, the bytes at address 0 are present but out of reach for any removal from there |
| AddressRanges.AddedWhole | repos/base/src/lib/base/allocator_avl.cc:239-258 | a range that completes the address space leaves one block of size zero |
| AddressRanges.RemovedMeaning | repos/base/src/lib/base/allocator_avl.cc:265-309 | a removal takes exactly the bytes of the range from a tree of blocks that do not wrap around |
| AddressRanges.CutMeaning | repos/base/src/lib/base/allocator_avl.cc:146-171 | cutting a range from a block leaves exactly the rest of the block at both sides |
| AddressRanges.RoundShrinks | repos/base/src/lib/base/allocator_avl.cc:272-302 | each round of a removal leaves less memory, for every tree and every range in the address space |
| BlockTree.FindIsComplete | repos/base/src/lib/base/allocator_avl.cc:48-71 | in an ordered tree of whatever shape, the descent misses no block that overlaps |
| BlockTree.InsertMeaning | repos/base/src/lib/base/avl_tree.cc:96-119 | insertion with rebalancing adds exactly one block |
| BlockTree.InsertWithin | repos/base/src/lib/base/avl_tree.cc:96-119 | it keeps the order of the tree if the block lies apart from all others |
| BlockTree.RemoveIsExact | repos/base/src/lib/base/avl_tree.cc:122-174 | removal with rebalancing takes out exactly one block and keeps the order |
| BlockTree.RebalancedKeeps | repos/base/src/lib/base/avl_tree.cc:45-93 | simple and double rotations change neither blocks nor order |
| Ranges.NothingLostIff | repos/base/src/lib/base/allocator_avl.cc:226-262 | adding ranges one by one loses no page, wherever one stops, if and only if each range lies apart from the earlier ones or adds nothing to them |
| Ranges.KeptIsWithinUnion | repos/base/src/lib/base/allocator_avl.cc:226-262 | what is present comes from the ranges added |
| FiascoPd.TaskIdsAreUnique | repos/base-fiasco/src/core/platform_pd.cc:38-135 | over every run of creation and destruction: no masked task id is handed out twice, living domains hold distinct ones, and free, live and retired entries partition the table |
| FiascoPd.RunKeepsConsistent | repos/base-fiasco/src/core/platform_pd.cc:97-135 | each step keeps the invariant behind this, and task ids once handed out stay recorded |
| FiascoPd.StepKeepsConsistent | repos/base-fiasco/src/core/platform_pd.cc:97-135 | the same for one creation or destruction |
| FiascoPd.CreationFailsIff | repos/base-fiasco/src/core/platform_pd.cc:99-106 | a creation fails if and only if all entries behind the reserved ones are live or retired |
| FiascoPd.RetiredStaysRetired | repos/base-fiasco/src/core/platform_pd.cc:130-131 | an entry whose last version was returned is never used again |
| FiascoPd.LiveWasCreated | repos/base-fiasco/src/core/platform_pd.cc:97-120 | an entry becomes live only through a creation that names it or, behind the reserved ones, through an ordinary one |
| FiascoPd.ReservedIsNamed | repos/base-fiasco/src/core/platform_pd.cc:97-120 | hence a reserved entry is live only after a creation that names it, over every run |
| FiascoPd.PdTable.constructor | repos/base-fiasco/src/core/platform_pd.cc:38-52 | the first entries are reserved, all are free with version 0 |
| FiascoPd.PdTable.AllocPd | repos/base-fiasco/src/core/platform_pd.cc:97-120 | an ordinary creation gets the least free entry behind the reserved ones, and fails exactly if there is none; one that names an entry gets it exactly if this is reserved and free; the version is that of the entry, which is not free afterwards, and no other entry changes |
| FiascoPd.PdTable.FreePd | repos/base-fiasco/src/core/platform_pd.cc:123-135 | an entry in use becomes free with the next version, unless its version is the last one; nothing else changes |
| FiascoPd.SlotFor | repos/base-fiasco/src/core/platform_pd.cc:162-180 | -1 exactly if no slot is free, -2 exactly if the requested one is occupied, else the requested or the first free slot |
| FiascoPd.PlatformPd.Create | repos/base-fiasco/src/core/platform_pd.cc:248-281 | a new domain carries the id and version handed out and has no threads |
| FiascoPd.PlatformPd.NextThread | repos/base-fiasco/src/core/platform_pd.cc:147-159 | returns the thread in the first occupied slot, or none exactly if no thread is bound |
| FiascoPd.PlatformPd.AllocThread | repos/base-fiasco/src/core/platform_pd.cc:162-180 | occupies the chosen slot and no other, or changes nothing |
| FiascoPd.PlatformPd.BindThread | repos/base-fiasco/src/core/platform_pd.cc:196-218 | on success the thread carries the index of the one slot that holds it, in both of its ids; on failure nothing changes |
| FiascoPd.PlatformPd.UnbindThread | repos/base-fiasco/src/core/platform_pd.cc:221-229 | the slot of the thread becomes free, the thread forgets its ids, all others stay bound |
| FiascoPd.PlatformPd.Destroy | repos/base-fiasco/src/core/platform_pd.cc:284-291 | the loop terminates with an empty table and all threads unbound, then the id is returned |
| FiascoPd.BindThenUnbind | repos/base-fiasco/src/core/platform_pd.cc:196-229 | binding an unbound thread and unbinding it restores the table |
| FiascoPd.NewDomainHasOwnEntry | repos/base-fiasco/src/core/platform_pd.cc:97-120 | a new domain gets an entry that no living one has |
| FiascoPd.RunKeepsSeparate | repos/base-fiasco/src/core/platform_pd.cc:97-135 | over every run of constructing and destructing domain objects, distinct living objects have distinct entries |
| FiascoPd.ThreadIdsAreUnique | repos/base-fiasco/src/core/platform_pd.cc:196-218 | after any run of constructing and destructing domain objects, distinct threads bound to living ones have distinct kernel ids |
| FiascoPd.BoundToOneDomain | repos/base-fiasco/src/core/platform_pd.cc:196-218 | binding a thread that is still bound to another domain leaves that one with a thread that does not name it |
| FiascoPd.BindTwice | repos/base-fiasco/src/core/platform_pd.cc:196-229 | a thread bound to two domains and unbound from the second one stays in the table of the first, without a slot number |
| FiascoPd.DestructorEndsIff | repos/base-fiasco/src/core/platform_pd.cc:284-291 | the loop of the destructor ends if and only if each thread in the table still carries its slot number |
| FiascoPd.PlatformThread.Unbind | repos/base-fiasco/src/core/platform_thread.cc:76-102 | the thread forgets ids and domain |
| QuotaAccounting.RunKeepsAccounts | repos/base/include/base/ram_allocator.h:117-165 | over every run of allocations, releases, upgrades and downgrades: used RAM is the sum of the sizes of living dataspaces, used capabilities are their number, and neither exceeds its limit |
| QuotaAccounting.StepKeepsAccounts | repos/base/include/base/ram_allocator.h:117-165 | the same for each operation |
| QuotaAccounting.QuotaIsReturned | repos/base/include/base/ram_allocator.h:157-165 | once everything is freed, both guards are as in the beginning |
| QuotaAccounting.FailedAllocChangesNothing | repos/base/include/base/ram_allocator.h:126-154 | a failed allocation leaves both guards unchanged, and one fails if and only if RAM or capabilities lack or the backend refuses |
| QuotaAccounting.AllocationCoversIff | repos/base/include/base/ram_allocator.h:121-134 | a granted allocation covers the size asked for if and only if that does not exceed 2^64 minus one page; beyond, a dataspace of size zero is requested and nothing is charged |
| QuotaAccounting.AllocThenFreeRestoresIff | repos/base/include/base/ram_allocator.h:157-165 | with a backend that reports another size, allocating and freeing restores the RAM quota if and only if the sizes agree, or nothing else was used and the reported one is larger |
| QuotaAccounting.GuardMeaning | repos/base/include/base/quota_guard.h:61-118 | on sound guards, the 64-bit operations agree with unbounded arithmetic: all-or-nothing withdrawal and downgrade, upgrade clamped at the maximum |
| QuotaAccounting.WithdrawThenReplenish | repos/base/include/base/quota_guard.h:106-129 | canceling a granted reservation restores the guard |
| QuotaAccounting.QuotaGuard.Upgrade | repos/base/include/base/quota_guard.h:71-83 | the limit grows by the amount, up to the largest 64-bit value |
| QuotaAccounting.QuotaGuard.TryDowngrade | repos/base/include/base/quota_guard.h:91-98 | succeeds if and only if the amount is available |
| QuotaAccounting.QuotaGuard.TryWithdraw | repos/base/include/base/quota_guard.h:106-118 | succeeds if and only if the amount is available |
| QuotaAccounting.QuotaGuard.Replenish | repos/base/include/base/quota_guard.h:123-129 | the used amount shrinks, to zero at least; the limit stays |
| QuotaAccounting.ReservationGuard.Destruct | repos/base/include/base/quota_guard.h:151-155 | the amount is handed back exactly if the reservation was canceled |
| QuotaAccounting.ConstrainedRamAllocator.TryAlloc | repos/base/include/base/ram_allocator.h:117-155 | an allocated dataspace is the new one of the backend, charged with the rounded size and one capability; lacking RAM is reported exactly if the rounded size exceeds what is available, lacking capabilities exactly if there is RAM and none is left, and otherwise the failure is that of the backend; every failure leaves guards and dataspaces alone |
| QuotaAccounting.ConstrainedRamAllocator.Free | repos/base/include/base/ram_allocator.h:157-165 | the dataspace leaves the backend, and its size and one capability return to the guards |
| ComposeSequences.SearchIsExact | tool/xkb2ifcfg/main.cc:446-533 | for every automaton and keysym set, the search finds exactly the words of length at most 4 that start with a composing keysym, whose proper prefixes are composing, and that are composed with a non-zero code point; each once, in lexicographic order |
| ComposeSequences.SequenceMeaning | tool/xkb2ifcfg/main.cc:470-494 | given the states that a word leads through: it is a compose sequence exactly if the inner ones are composing and the last one is composed with a non-zero code point; its node has the code points of the keys by position and that of the last state |
| ComposeSequences.StateAfterConcat | tool/xkb2ifcfg/main.cc:470-471 | feeding a word and then another one from its front leads to the same state as feeding both together |
| ComposeSequences.TraceMeaning | tool/xkb2ifcfg/main.cc:470-471 | the states that a word leads through are those after its prefixes |
| ComposeSequences.GenMeaning | tool/xkb2ifcfg/main.cc:461-512 | exactly the completions of a word are generated from it |
| ComposeSequences.GenAllMeaning | tool/xkb2ifcfg/main.cc:502-506 | the loop over all keysyms generates exactly the completions by one more keysym |
| ComposeSequences.GenFirstMeaning | tool/xkb2ifcfg/main.cc:519-526 | the loop over the first keysyms generates exactly the sequences of the layout |
| ComposeSequences.GenInOrder | tool/xkb2ifcfg/main.cc:461-512 | the words are generated in lexicographic order |
| ComposeSequences.Sequence.constructor | tool/xkb2ifcfg/main.cc:514-530 | the generated nodes are those of the words found, in order |
| ComposeSequences.Sequence.Generate | tool/xkb2ifcfg/main.cc:461-512 | terminates, restores the shared word, and appends exactly the nodes of the completions |
| ComposeSequences.Sequence.GenerateAll | tool/xkb2ifcfg/main.cc:502-506 | likewise for the loop over all keysyms |
| ComposeSequences.Sequence.Emit | tool/xkb2ifcfg/main.cc:474-500 | one node with the code point of each key at its position and the result of the automaton, or none if this is zero |
| ComposeSequences.Sequence.FeedWord | tool/xkb2ifcfg/main.cc:470-471 | the automaton passes through one state for each key, from the start on, each the result of feeding this key to the one before; the last is where it stands afterwards |

## Left out

- System calls, IPC transport and their error codes: kernel operations succeed, except where a result is a parameter.
- What a thread migration does to kernel objects, the transfer of kernel quota, and portal creation in the NOVA pager: a migration succeeds or not, and the step system assumes that the client still exists.
- `PagerHandshake.PauseIsGuaranteedIff`: assumes that a client inside the kernel, which returns from an exception, the pause semaphore or its startup with a recall pending, can raise a page fault before it takes the recall. Whether it can is decided by the kernel.
- Requests for capabilities that reach the pager through the page-fault portal, and cleaning up a dissolved pager object.
- The non-atomic update of the status byte by the startup handler, which does not take the lock: the step system treats it as one step.
- `Thread_state` contents, single-stepping and logging in the pager handlers.
- The destructor of the semaphore, and the implementation of mutexes and blockades: a lock is an atomic step, a blockade keeps a wake-up until it is consumed.
- `FlexpageFlush.PlatformPd.Flush`: computes with unbounded integers; the page size is a parameter. `FlexpageFlush.UnmapsAreExpressible` gives the range in which the original's words and `int` shifts suffice.
- The thread-slot tables of OKL4 and Pistachio, and seL4's selector allocation: they resemble the Fiasco code without its versioning.
- `CpuEnumeration.RemapCpuIds`: demands a destination with one entry per CPU of the table and a table of at most 256 CPUs, since ids are converted to 8 bits on the way; core checks its own table of 64 entries before the call.
- `BootMemory.Platform.InitMemory`: demands that the ranges computed for available regions stay in the address space, which they do for regions that reach a page boundary; `BootMemory.RemovalNeverEnds` says what happens otherwise. If a range wraps around when it is added, the contract says only that the passes end. At boot time, the range allocators have free blocks only, and their metadata never runs out.
- The sanity checks for overlapping descriptors that follow the passes over the memory descriptors, and the registration of boot modules.
- Address computations in the UTCB are indices of words; the 32-bit layout and the transfer of typed items by the kernel are not modelled.
- `ReceiveWindow.ReceiveWindow.PostIpc`: a process that dies leaves no state to speak about. Preparing and cleaning up the window are not part of this model.
- `IpcMessage.RoundTrip`: demands a buffer whose capacity leaves room for padding below 2^64. Inserting from a null pointer, setting sizes from outside, and the overload of `extract` that turns an error into an empty buffer are not modelled.
- `FiascoPd.PlatformPd.BindThread`: promises nothing about another domain that the thread is still bound to; `FiascoPd.BoundToOneDomain` says that it does not stay valid, and `FiascoPd.DestructorEndsIff` what follows. There, the table is a value, and clearing the slot with number -1 changes none of its entries.
- `ReceivedBytes.ReadsWithinIff`: demands lists without `Attempt` types, for which the other direction depends on flags that are read twice, buffers that hold more than the bytes behind the last whole word of the message, and types whose size leaves room for the capacity below 2^64.
- `RpcSize.ReplyBufferSufficesIff`: the transfer in whole words is the one of NOVA; limits of the kernels' message registers are left out.
- `FiascoPd.PlatformPd.Create`: a creation that finds no entry yields no object, where the original panics.
- `QuotaAccounting.ConstrainedRamAllocator.TryAlloc`: the higher-order `with_reservation` is written out for its two nested uses; the deprecated `Reservation` with exceptions is left out.
- `QuotaAccounting.RunKeepsAccounts`: demands a backend that reports the size it was asked for, and that nothing else uses the guards; what happens otherwise is stated by `QuotaAccounting.AllocThenFreeRestoresIff`.
- `SignalSource.SignalSourceComponent.Submit`: demands that the pending count stays within `int`. Triggers are counted; notifications are merged in `Sel4SignalClient` only, where the imprint of a delivered signal is taken to be nonzero.
- XML output, comments and the keymap queries of the character-map generator; the compose state is an arbitrary automaton over keysyms.
- Wrapper classes, session components and the remaining core services.
