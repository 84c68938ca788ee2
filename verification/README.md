# Models of the simulators in the lab repository, with proofs

The repository holds four architecture labs: a pipelined MIPS simulator with caches (lab 1), the same pipeline over
a memory hierarchy with MSHRs and a DRAM scheduler (lab 2), a DRAM controller simulator (lab 3), and a cache
simulator with a stride prefetcher (lab 4). This project models the state machines at their centre and proves what
they keep over every run. `dafny verify dfyconfig.toml` checks it.

**The pipeline (lab 1).** `Pipeline.Pipe` is the simulator's pipe: slots, registers and stall counters updated in
place by five stages that run from the last to the first. A cycle is proved to be one step `Tick` of the whole
state. `Sequential` runs one instruction at a time with the same decoding, ALU and memory functions. The pipeline is
proved to implement it for every pattern of cache hits and misses (`PipelineRefinement`, `PipelineRuns`), and,
together with the model of the caches (`Cache`), to stop if and only if the sequential run makes an exit call,
within 182 cycles for every instruction (`PipelineProgress`). `PipelineTimes` has the exact length of every stall.
`MipsRuns` instantiates these results at the MIPS instruction set, whose meaning `MipsInstructions` gives without
the code's functions: how each instruction is encoded, and what it does in terms of integers, bits and bytes.
`MipsSteps` proves that a step of the sequential machine does this for every instruction word, and `MipsLaws` has
products, quotients, and loads that find what stores have left. There are no branch delay slots.

**Least recently used (labs 1 and 4).** `Recency` says what a set must hold after any history. `CacheRuns` runs a
whole cache over any addresses: each set keeps timestamps that hold exactly this for the accesses that went to it,
so a cache with as many sets and more ways holds, set by set, what the smaller one holds, and hits whenever it does.
`CacheBlocks` says what this means for addresses: a hit iff the block was accessed and fewer other blocks of its set
than ways came since. That a cache of any policy finds only what has been fetched needs a power of two of sets, and
`FindsAccessedIff` shows that it fails for every other number. `CachePolicies` has the other policies as lists.
Ranks (`RankLru`) hold the same tags over the same addresses.

**The memory hierarchy (lab 2).** `LinkedList` has the doubly linked list, its iterator and the latency queue over
real nodes, and `RetireList` the traversal from the tail that retires requests; `Interconnect` has what the queue
promises about delivery times. `MissProtocol` has L1 misses, MSHRs, cancellations and fills: each block in flight is
in one place and belongs to one MSHR. `DramScheduler` keeps the buses and banks exclusive over whole runs,
`SchedulerTimes` says in which cycles a request uses them, `BoundedWait` bounds the wait of every request,
`MemorySystem` puts the two together, and `RoundTrip` bounds the whole way of a block to memory and back.

**The DRAM controller (lab 3).** `DramTiming`, `DramHistory` and `DramTree` prove that the `next` and `prev` fields
of the tree of nodes are an exact summary of the whole command trace; `Ddr4` has the DDR4 tables, and `Ddr4Waits`
what they come to: a trace is legal iff every two commands keep the waits that it lists, and activates their window.
`RowTable` must agree with the banks. `Controller` and `ControllerTick` have the queues, the choice of a request,
and the steps of a tick; `ChannelCalls` says when a request is refused, answered and called back. What every step
keeps is the conservation of requests, the counters of the tree, the order of arrival, reads after writes, and that
every activate is used at once. `Policies` has the scheduling policies as minimisation of a key, and `PolicyPicks`
says what they pick. `DramControl` joins controller, tree and policy: the assertion that an issued command is ready
holds, so in every reachable state the commands issued so far are legal; `DramWaits` lists what that means, and says
when exactly a command is ready. `DramTurns` has whose turn it is, and that every accepted request is served in the
end. Reads never pass older writes to their address, but a write can be served before an older read of its address:
in the runs of this controller, under each policy, exactly if such a read waits in the read queue when the write is
accepted (`Overtaking`, `OvertakingRuns`). `RefreshLedger` and `RefreshRequests` have the refresh scheduler of DARP
and DSARP, `AddressMap` and `PageAllocator` the addresses.

**The prefetcher and the sets (lab 4).** `Ghb` and `GhbPrefetcher` have the global history buffer: chains of links
laid over a circular buffer. `GhbLinks` says exactly which links there are after any history. They never lead to a
recycled entry and always list the latest accesses of one instruction, but the source does not clear the `next` link
of an entry when it is recycled, and following such a left-over link cuts chains that should be whole:
`LeftOverCuts` is such a history, and `PresentIff` the exact condition. `FastSet` has the set that turns from a
sorted array into bits at 13 elements.

A class keeps the fields that the source updates in place; its methods tie the new state to a function or a relation
over the old one, and the lemmas are about these. Where a method is split off one function of the source (a scan,
one loop round, the part that changes the tables), the row cites the lines of that part.

## Model

| member | source | states |
|---|---|---|
| `Pipeline.Pipe.constructor` | labs/lab1/src/pipe.c:136-141 | a pipe starts empty and running, with all registers zero and fetching at 0x00400000 |
| `Pipeline.Pipe.StageWb` | labs/lab1/src/pipe.c:222-251 | the register file gets the result (never register 0), the operation retires, and an exit call stops the machine and sets the pc |
| `Pipeline.Pipe.StageMem` | labs/lab1/src/pipe.c:253-367 | the operation moves on unless it misses or a miss is being waited for; a miss sets the stall counter, which otherwise counts down |
| `Pipeline.Pipe.ReadOperand` | labs/lab1/src/pipe.c:382-412 | an operand comes from the value just leaving the memory stage, else from the register file; register 0 reads as 0 |
| `Pipeline.Pipe.StageExecute` | labs/lab1/src/pipe.c:369-662 | exactly when the stage fires, what it leaves in the slots, HI, LO and the multiplier counter, and which recovery it schedules; what it computes is that of `MipsSteps.StepMeans` |
| `Pipeline.Pipe.StageDecode` | labs/lab1/src/pipe.c:664-801 | the fetched operation is decoded when the execute slot is free, and only then |
| `Pipeline.Pipe.StageFetch` | labs/lab1/src/pipe.c:803-849 | a fetch happens when no stall is left and the slot is free; the pc advances only while running; a miss starts the stall |
| `Pipeline.Pipe.Recover` | labs/lab1/src/pipe.c:208-220 | the first recovery of a cycle wins |
| `Pipeline.Pipe.CarryOutRecovery` | labs/lab1/src/pipe.c:160-200 | the pc is redirected and exactly the slots within the flush depth are emptied |
| `Pipeline.Pipe.Cycle` | labs/lab1/src/pipe.c:143-206 | five stages run last to first on shared slots, and then the recovery, make one simultaneous step `Tick` of the whole state |
| `PipelineRefinement.WbIsSequential` | labs/lab1/src/pipe.c:222-251 | completing write-back gives the registers of the sequential machine at the memory stage's point |
| `PipelineRefinement.MemIsSequential` | labs/lab1/src/pipe.c:253-367 | memory and, with the bypass, the registers seen by execute are those of the sequential machine at the execute stage's point |
| `PipelineRefinement.ExecuteIsSequential` | labs/lab1/src/pipe.c:369-418 | so the execute stage computes what the sequential machine computes for that instruction, also after being stalled with old operands |
| `PipelineRefinement.TickLinks` | labs/lab1/src/pipe.c:143-201 | for any hit or miss of either cache one running cycle keeps every stage linked to a state of the sequential machine, and the execute stage makes one sequential step or none |
| `PipelineRuns.TickTracks` | labs/lab1/src/pipe.c:143-201 | over runs: the instructions in flight stay consecutive instructions of the sequential run, and the machine stops in the cycle that retires the first exit call, and only then |
| `PipelineRuns.GoTracks` | labs/lab1/src/pipe.c:143-206 | the same after any number of cycles with any cache answers |
| `PipelineRuns.FinishedRun` | labs/lab1/src/pipe.c:222-251 | a finished simulation has retired exactly the instructions up to the first exit call and has the sequential registers; memory and HI/LO may be ahead, by exactly the instructions still in the later slots |
| `PipelineRuns.RegistersAreCacheIndependent` | labs/lab1/src/pipe.c:143-201 | two simulations of a program that both end have the same final registers and the same number of retired instructions, whatever their caches answered |
| `PipelineRuns.RunsAgree` | labs/lab1/src/pipe.c:143-206 | the sequential machine has one run from every state |
| `PipelineProgress.RankFalls` | labs/lab1/src/pipe.c:253-274 | with real caches, a cycle that retires nothing brings the oldest instruction strictly nearer to retirement |
| `PipelineProgress.RetiresWithin` | labs/lab1/src/pipe.c:511-536 | from every running state one more instruction retires within 182 cycles, under all policies and cache sizes |
| `PipelineProgress.StallsStayOk` | labs/lab1/src/pipe.c:253-274 | the access that ends a data stall always hits |
| `PipelineProgress.SimulationTracks` | labs/lab1/src/pipe.c:143-206 | the simulation with its caches follows the sequential run until it stops |
| `PipelineProgress.StopsAtExit` | labs/lab1/src/pipe.c:803-825 | the simulation stops within 182 cycles for every instruction up to the first exit call |
| `PipelineProgress.SimulationEndsIffRunExits` | labs/lab1/src/pipe.c:143-206 | the main loop ends if and only if the sequential run makes an exit call, and then with the registers after the first one |
| `PipelineTimes.FetchMissStalls` | labs/lab1/src/pipe.c:803-825 | after a miss of the instruction cache nothing is fetched in the next 48 cycles, whatever else happens, and then the stage is free to |
| `PipelineTimes.DataMissStalls` | labs/lab1/src/pipe.c:253-274 | after a miss of the data cache its operation stays in the memory stage for the next 48 cycles, and asks the cache again in the one after them |
| `PipelineTimes.MultiplierWaits` | labs/lab1/src/pipe.c:511-536 | an operation on HI or LO that reaches the execute stage is executed iff the cycles of the last multiplication or division have passed |
| `PipelineTimes.MultiplierTimes` | labs/lab1/src/pipe.c:450-536 | these are 4 for MULT and MULTU and 32 for DIV and DIVU; MFHI, MTHI, MFLO and MTLO are the instructions that wait |
| `MipsSteps.Decodes` | labs/lab1/src/pipe.c:664-801 | an instruction word put together from its fields is decoded into them: registers, immediate extended by its sign, shift amount, and the target of every branch and jump |
| `MipsSteps.ComputesResult` | labs/lab1/src/pipe.c:419-560 | the result of every instruction on registers: sums and differences modulo 2^32, the logic operations bit by bit, shifts as multiplication and division rounded down, and the order of signed and of unsigned words |
| `MipsSteps.MultipliesResult` | labs/lab1/src/pipe.c:450-536 | what each of them leaves in HI and LO |
| `MipsSteps.LoadsBytes` | labs/lab1/src/pipe.c:280-320 | a load reads the bytes of memory from its lane on, the lowest first, extended by their sign or by zeros |
| `MipsSteps.StoresBytes` | labs/lab1/src/pipe.c:322-362 | a store writes the bytes of its register, lowest first, into its lane, and leaves every other byte of the memory |
| `MipsSteps.StepMeans` | labs/lab1/src/pipe.c:369-801 | one step of the sequential machine on any of its 53 instructions does to registers, HI, LO, memory and pc what `MipsInstructions.Means` says in integers, bits and bytes; branches are taken exactly on their comparison |
| `MipsSteps.ExitMeans` | labs/lab1/src/pipe.c:222-251 | an instruction ends the run iff it is a system call with 10 in register 2 |
| `MipsSteps.OtherOpcode` | labs/lab1/src/pipe.c:369-801 | a word with another opcode does nothing but go on |
| `MipsSteps.OtherZeroCode` | labs/lab1/src/pipe.c:369-801 | nor does a branch on zero of another code |
| `MipsSteps.OtherFunct` | labs/lab1/src/pipe.c:369-801 | and one with another code for an operation on registers only clears its destination |
| `MipsLaws.MultIsProduct` | labs/lab1/src/pipe.c:450-466 | HI and LO hold the signed product |
| `MipsLaws.MultuIsProduct` | labs/lab1/src/pipe.c:467-475 | HI and LO hold the unsigned product |
| `MipsLaws.DivIsQuotient` | labs/lab1/src/pipe.c:477-496 | LO holds the quotient rounded toward zero and HI the remainder with the sign of the dividend, iff it is not the least integer divided by -1 |
| `MipsLaws.DivuIsQuotient` | labs/lab1/src/pipe.c:498-509 | the same for unsigned words |
| `MipsRuns.ProgramHasRun` | labs/lab1/src/pipe.c:136-141 | a MIPS program text and an initial memory have exactly one sequential run |
| `MipsRuns.ProgramMeans` | labs/lab1/src/pipe.c:143-206 | every instruction of a program that the run reaches does to the state before it what its meaning says, and the run gives the registers that a stopped simulator shows |
| `MipsRuns.ProgramRegisters` | labs/lab1/src/pipe.c:143-206 | however the caches answer, a MIPS program that has stopped has the registers that its instructions up to the first exit call leave, each doing what `ProgramMeans` says |
| `MipsRuns.ProgramIsCacheIndependent` | labs/lab1/src/pipe.c:143-206 | two simulations of a MIPS program that stop have the same registers and the same number of retired instructions |
| `MipsRuns.ProgramEndsIffItExits` | labs/lab1/src/pipe.c:143-206 | with its caches the simulator stops on a MIPS program exactly when the program makes an exit call |
| `MipsLaws.StoreThenLoad` | labs/lab1/src/shell.c:69-107 | what a store writes at an address, in the bytes of memory, a load of the same width finds there, extended by its sign or by zeros as the load demands |
| `MipsLaws.OtherLanesStay` | labs/lab1/src/shell.c:69-107 | a store of a word, half or byte changes nothing that a load from other bytes finds |
| `Cache.SetInRange` | labs/lab1/src/cache.c:47-54 | the set selected by the index bits lies within the block array |
| `Cache.CacheState.constructor` | labs/lab1/src/cache.c:19-43 | all blocks start invalid |
| `Cache.CacheState.PickVictim` | labs/lab1/src/cache.c:62-179 | the scan ends at the first block with the smallest eviction key of the policy |
| `Cache.CacheState.LeastRecentTime` | labs/lab1/src/cache.c:116-139 | the scan finds the oldest access time of the set |
| `Cache.CacheState.Replace` | labs/lab1/src/cache.c:228-248 | what each of the six policies evicts, and with which times the new block is inserted |
| `Cache.CacheState.AccessWays` | labs/lab1/src/cache.c:206-250 | hit, free way, or replacement: the whole new contents of the set |
| `Cache.CacheState.Access` | labs/lab1/src/cache.c:181-251 | the whole new state of the cache and the answer, the disabled cache included; `CacheBlocks` and `CachePolicies` say when that is a hit |
| `Cache.MissThenHit` | labs/lab1/src/cache.c:181-251 | under all six policies, and with the cache disabled, an address that missed hits when it is asked for next |
| `CacheBlocks.DisabledHits` | labs/lab1/src/cache.c:181-202 | a disabled cache hits an address iff the access just before was a miss on it |
| `CacheBlocks.FieldsAreBlock` | labs/lab1/src/cache.c:47-54 | with a power of two of sets, two addresses have the same set index and tag iff they are in the same block |
| `CacheBlocks.HitWasAccessed` | labs/lab1/src/cache.c:181-251 | then under every policy, after any accesses, a hit means that an address of its block has been accessed |
| `CacheBlocks.FindsAccessedIff` | labs/lab1/src/cache.c:31-54 | that a cache finds only what has been accessed holds for all runs iff the number of sets is a power of two; with any other number, which `cache_init` accepts, an access makes a block hit that has never been fetched |
| `CacheBlocks.HitIffRecent` | labs/lab1/src/cache.c:181-251 | with LRU/MRU a hit iff the block of the address has been accessed, and since then fewer other blocks of its set than there are ways |
| `CachePolicies.AccessKeepsList` | labs/lab1/src/cache.c:62-248 | one access under the five policies with a list: FIFO is a queue, LIFO a stack, and LRU and MRU replace the first or last of the list of recent tags, in place or at its end; a hit iff the tag is in the list |
| `CachePolicies.SetsKeepLists` | labs/lab1/src/cache.c:181-251 | so after any addresses every set holds the list that its policy makes of the accesses to that set |
| `CachePolicies.HitIffListed` | labs/lab1/src/cache.c:181-251 | and the cache hits iff the tag of the address is in the list of its set |
| `CachePolicies.MruLruReplaces` | labs/lab1/src/cache.c:116-139 | MRU/LRU takes the first of the blocks with the latest time out of a full set, and its successor gets the oldest time of the set |
| `Recency.LruInclusion` | labs/lab1/src/cache.c:80-96 | by the definition of least recently used, more ways hold everything that fewer ways hold |
| `Recency.LruUnique` | labs/lab1/src/cache.c:80-96 | the content of a set is determined by the history of accesses |
| `Recency.OldestIsVictim` | labs/lab1/src/cache.c:80-96 | of a full set the smallest access time belongs to the least recently used tag |
| `Recency.TimesRefineLru` | labs/lab1/src/cache.c:181-251 | evicting the oldest time and inserting with the present one keeps exactly the least-recently-used content with unique tags, and hits exactly when the tag is in it |
| `CacheRuns.AccessedWays` | labs/lab1/src/cache.c:181-251 | an access changes the set that the index bits select and no other |
| `CacheRuns.SetsKeepTimes` | labs/lab1/src/cache.c:181-251 | after any sequence of addresses every set of the cache keeps what is least recently used among the accesses that went to it |
| `CacheRuns.HitIffHeld` | labs/lab1/src/cache.c:181-251 | the cache hits exactly when the set of the address holds its tag, which stands for its block (`CacheBlocks.FieldsAreBlock`) |
| `CacheRuns.CachesInclude` | labs/lab1/src/cache.c:181-251 | inclusion for whole caches: with the same sets and at least as many ways, after any addresses, every set holds all that the smaller cache holds there |
| `CacheRuns.MoreWaysHit` | labs/lab1/src/cache.c:181-251 | so the larger cache hits whenever the smaller one does |
| `RankLru.PromotedIsRanked` | labs/lab4/replacement/base_replacement.cc:59-68 | promoting a way keeps the ranks a permutation of 0..ways-1 |
| `RankLru.LastRankIsVictim` | labs/lab4/replacement/base_replacement.cc:36-56 | in a full set the way of the last rank holds the least recently used tag |
| `RankLru.AccessKeepsRanks` | labs/lab4/replacement/base_replacement.cc:9-34 | an access keeps the least recently used content and hits exactly when the tag is in it; the hit of a writeback does not count as a use |
| `RankLru.RunKeepsRanks` | labs/lab4/replacement/base_replacement.cc:9-34 | so does every sequence of accesses from the initial set |
| `RankLru.RanksAgreeWithTimes` | labs/lab4/replacement/base_replacement.cc:9-68 | the rank implementation and the timestamp implementation, each run over the same addresses from its initial state, hold the same tags in every set |
| `RankLru.RanksHitWithTimes` | labs/lab4/replacement/base_replacement.cc:9-68 | and hit at the same accesses |
| `RankLru.RankedCache.LruVictim` | labs/lab4/replacement/base_replacement.cc:19-57 | a free way if there is one, else the way of the last rank; a victim always exists |
| `RankLru.RankedCache.LruUpdate` | labs/lab4/replacement/base_replacement.cc:59-68 | the in-place loop promotes the way, moves the more recent ones of its set back by one, and leaves the other sets |
| `RankLru.RankedCache.Access` | labs/lab4/replacement/base_replacement.cc:9-68 | a hit exactly when the tag is among the least recently used ones of its set; every set stays as its own uses have left it; the hit of a writeback is no use |
| `RankLru.RankedCache.constructor` | labs/lab4/inc/cache.h:126-133 | every set starts with no valid way and the ranks in order |
| `DramScheduler.Memory.AddRequest` | labs/lab2/src/memory.c:32-47 | a request joins the pending ones as the newest, for the bank and row of its tag |
| `DramScheduler.Memory.CalculateUsages` | labs/lab2/src/memory.c:58-110 | the command, bank and data intervals for a hit, a miss and a conflict |
| `DramScheduler.Memory.CanSchedule` | labs/lab2/src/memory.c:148-165 | a request is a candidate iff it conflicts with no ongoing request |
| `DramScheduler.Memory.Retire` | labs/lab2/src/memory.c:167-183 | exactly the requests whose data have passed leave, and are answered in order |
| `DramScheduler.Memory.Assess` | labs/lab2/src/memory.c:188-193 | a pending request gets its status and usages in place |
| `DramScheduler.Memory.FindBest` | labs/lab2/src/memory.c:185-206 | the first row hit among the candidates is picked, else the oldest candidate |
| `DramScheduler.Memory.Schedule` | labs/lab2/src/memory.c:167-217 | one cycle retires, picks and starts, and changes nothing else |
| `DramScheduler.Memory.Cycle` | labs/lab2/src/memory.c:167-217 | the same, keeping the use of all resources exclusive |
| `DramScheduler.UnservedContents` | labs/lab2/src/memory.c:167-183 | what is left after retiring |
| `DramScheduler.PastIsOver` | labs/lab2/src/memory.c:112-140 | a request whose data have passed conflicts with nothing that starts now |
| `DramScheduler.CandidateIsExclusive` | labs/lab2/src/memory.c:148-165 | a candidate conflicts with no request ever scheduled, though only ongoing ones are examined |
| `DramScheduler.CycleKeepsExclusive` | labs/lab2/src/memory.c:167-217 | over whole runs no two requests ever scheduled overlap on the command bus, the data bus or a bank, for any row-buffer contents |
| `SchedulerTimes.RequestFields` | labs/lab2/src/memory.c:36-43 | a tag put together from its fields: the bank is bits 5 to 7, the row the upper half |
| `SchedulerTimes.Timetable` | labs/lab2/src/memory.c:49-110 | in exactly which cycles a request scheduled now uses the command bus, its bank and the data bus, for an open row, a closed bank and another open row |
| `SchedulerTimes.ConflictsIff` | labs/lab2/src/memory.c:112-140 | two requests conflict iff there is a cycle in which both use a bus or the bank |
| `SchedulerTimes.ExclusiveIff` | labs/lab2/src/memory.c:112-140 | so exclusive use means that in no cycle two requests ever scheduled do |
| `SchedulerTimes.PickIs` | labs/lab2/src/memory.c:184-212 | what is scheduled clashes with nothing ongoing in any cycle; it is the oldest such request whose row is open, or else the oldest such request; nothing is scheduled only when nothing could be |
| `BoundedWait.PickIsOldestFree` | labs/lab2/src/memory.c:184-212 | with closed row buffers the pick is the oldest request whose bank and bus times are free |
| `BoundedWait.SameBankInOrder` | labs/lab2/src/memory.c:184-212 | no younger request takes the bank of an older one |
| `BoundedWait.OldestIsScheduled` | labs/lab2/src/memory.c:167-217 | the oldest pending request is scheduled within 302 cycles, whatever arrives meanwhile |
| `BoundedWait.EveryRequestIsScheduled` | labs/lab2/src/memory.c:167-217 | a request with k older ones is scheduled within 303(k+1) cycles |
| `RetireList.RetiredRemove` | labs/lab2/src/memory.c:172-181 | a removed node keeps the rest of the traversal from the tail |
| `RetireList.OngoingList.Start` | labs/lab2/src/memory.c:211 | a scheduled request joins the linked list as the newest one |
| `RetireList.OngoingList.Settle` | labs/lab2/src/memory.c:173-181 | one round: the request is answered and its node removed, or nothing changes |
| `RetireList.OngoingList.Visit` | labs/lab2/src/memory.c:173-181 | ... and the successor of the next node is untouched |
| `RetireList.OngoingList.Traverse` | labs/lab2/src/memory.c:172-182 | the loop from the tail visits each original node exactly once although it removes nodes on its way |
| `RetireList.OngoingList.Retire` | labs/lab2/src/memory.c:172-182 | the linked list does what the sequence of ongoing requests does: those whose data have passed leave and are answered, the oldest first |
| `RoundTrip.PickedIsOngoing` | labs/lab2/src/memory.c:184-212 | a scheduled request is ongoing for 249 cycles |
| `RoundTrip.IsAnswered` | labs/lab2/src/memory.c:172-182 | and is answered in the cycle after that |
| `RoundTrip.IsBackAt` | labs/lab2/src/memory.c:167-217 | and its block is back at the L2 cache 254 cycles after it was scheduled |
| `Interconnect.DeliversOnTime` | labs/lab2/src/interconnect.c:40-74 | cycle n delivers exactly the messages that were sent with latency L just before cycle n-L+1, for every L; those sent earlier come first, and those sent together keep their order |
| `Interconnect.WaitingAfterCycle` | labs/lab2/src/interconnect.c:50-74 | the messages that wait for n more cycles are those that waited for n+1 |
| `RoundTrip.IsDueInTime` | labs/lab2/src/interconnect.c:50-74 | a message is due when its cycles have passed |
| `RoundTrip.ComesBack` | labs/lab2/src/interconnect.c:76-111 | a block that is sent to memory is back at the L2 cache, and in that cycle its MSHR is released, within the cycles that its message still waits and 5102 more (303 for each of the 16 MSHRs, and 254), whatever else is sent |
| `LinkedList.LatencyQueue.Send` | labs/lab2/src/interconnect.c:40-48 | a message joins the end of the linked queue; the other nodes stay |
| `LinkedList.LatencyQueue.Visit` | labs/lab2/src/interconnect.c:53-72 | one round of the traversal: the node is removed with its message or counts down, and the next node's successor is untouched |
| `LinkedList.LatencyQueue.Traverse` | labs/lab2/src/interconnect.c:53-73 | the loop visits each original node exactly once, in order, although it removes nodes on its way |
| `LinkedList.LatencyQueue.Cycle` | labs/lab2/src/interconnect.c:50-74 | the linked queue does what the sequence of messages does: due ones leave in order, others come one cycle nearer |
| `LinkedList.TraversedKeep` | labs/lab2/src/interconnect.c:55-56 | a node that stays keeps the rest of the traversal as it was |
| `LinkedList.TraversedRemove` | labs/lab2/src/interconnect.c:57-71 | so does a node that is removed |
| `MissProtocol.Hierarchy.Deliver` | labs/lab2/src/interconnect.c:58-68 | where a due message's block goes, by direction, and which block is freed |
| `MissProtocol.Hierarchy.Step` | labs/lab2/src/interconnect.c:53-72 | one message of the queue is delivered or kept, and all blocks stay accounted for |
| `MissProtocol.Hierarchy.InterconnectCycle` | labs/lab2/src/interconnect.c:50-74 | a cycle delivers the due messages in order, frees exactly their finished blocks, and hands the new requests over in order |
| `MissProtocol.Hierarchy.Reply` | labs/lab2/src/interconnect.c:106-111 | a served block is sent back to the L2 cache |
| `LinkedList.NeighboursWithout` | labs/lab2/src/list.c:189-202 | the neighbours in a chain from which a node has been taken |
| `LinkedList.List.RPush` | labs/lab2/src/list.c:53-68 | appends to the sequence of nodes |
| `LinkedList.List.RPop` | labs/lab2/src/list.c:75-88 | detaches the last node, or gives null |
| `LinkedList.List.LPop` | labs/lab2/src/list.c:95-108 | detaches the first node, or gives null |
| `LinkedList.List.LPush` | labs/lab2/src/list.c:116-131 | prepends |
| `LinkedList.List.Unlink` | labs/lab2/src/list.c:189-195 | only the links of the neighbours and the two ends change |
| `LinkedList.List.Remove` | labs/lab2/src/list.c:189-202 | removes that node from the sequence, wherever it is, and nothing leads to it any more |
| `LinkedList.Iterator.Next` | labs/lab2/src/list_iterator.c:45-53 | gives the current node and has fetched its successor before the caller may remove it |
| `MissProtocol.SomeIsFree` | labs/lab2/src/l2_cache.c:92-113 | a count below the number of MSHRs means that one is free, so the `assert(0)` is never reached |
| `MissProtocol.FindsItsMshr` | labs/lab2/src/l2_cache.c:157-160 | searching by tag and L1 cache finds the one MSHR that holds the arriving block |
| `MissProtocol.OnePlaceEach` | labs/lab2/src/l2_cache.c:50-114 | each busy MSHR's block is in exactly one place: one message, or the memory controller's requests |
| `MissProtocol.AllocateKeeps` | labs/lab2/src/l2_cache.c:98-109 | allocating an MSHR keeps blocks and MSHRs one to one |
| `MissProtocol.ReleaseKeeps` | labs/lab2/src/l2_cache.c:157-173 | so does releasing one, and nothing that is left refers to the freed block |
| `MissProtocol.CancelKeeps` | labs/lab2/src/l2_cache.c:176-184 | so does cancelling one |
| `MissProtocol.PushLocated` | labs/lab2/src/l2_cache.c:98-109 | sending a block that is nowhere yet keeps every block in one place |
| `MissProtocol.KeptLocated` | labs/lab2/src/l2_cache.c:50-114 | so does a message that counts down |
| `MissProtocol.DeliveredLocated` | labs/lab2/src/l2_cache.c:157-173 | a delivered message takes its block out of the queue, and no other message has it |
| `MissProtocol.Hierarchy.constructor` | labs/lab2/src/l2_cache.c:8-26 | all MSHRs are free at first |
| `MissProtocol.Hierarchy.FindMshr` | labs/lab2/src/l2_cache.c:88-96 | finds the busy MSHR of that tag and L1 cache, or there is none |
| `MissProtocol.Hierarchy.FindFree` | labs/lab2/src/l2_cache.c:98-110 | finds the first free MSHR |
| `MissProtocol.Hierarchy.Probe` | labs/lab2/src/l2_cache.c:50-114 | hit, full, merged or missed: which answer, which MSHR is taken and which message is sent |
| `MissProtocol.Hierarchy.Cancel` | labs/lab2/src/l2_cache.c:176-184 | exactly the busy MSHR of that tag and L1 cache is marked cancelled, and stays busy |
| `MissProtocol.Hierarchy.InsertBlock` | labs/lab2/src/l2_cache.c:116-174 | the fill always finds its MSHR, releases it, and frees the block once; it goes to the L1 cache iff it was not cancelled |
| `MissProtocol.Hierarchy.L1Miss` | labs/lab2/src/l1_cache.c:79-87 | a miss allocates a fresh block and probes for it |
| `MissProtocol.DeliverKeeps` | labs/lab2/src/l1_cache.c:90-137 | delivering a block to an L1 cache frees it, and no MSHR refers to it |
| `MemorySystem.CycleHolds` | labs/lab2/src/pipe.c:81-82 | a memory cycle keeps every block in one list of the controller or sends it back |
| `MemorySystem.MemorySystem.constructor` | labs/lab2/src/pipe.c:81-82 | the hierarchy and the scheduler start linked and empty |
| `MemorySystem.MemorySystem.HandOver` | labs/lab2/src/pipe.c:81-82 | the delivered blocks become the scheduler's newest requests, in order |
| `MemorySystem.MemorySystem.RunMemory` | labs/lab2/src/pipe.c:81-82 | the scheduler makes one cycle, and the blocks of the served requests, in order, are what is sent back |
| `MemorySystem.MemorySystem.PendingFits` | labs/lab2/src/pipe.c:81-82 | no more requests are pending than there are MSHRs |
| `MemorySystem.MemorySystem.Cycle` | labs/lab2/src/pipe.c:81-82 | interconnect then memory: exactly the due blocks arrive at the scheduler, it makes one cycle, what it has served is sent back, and its lists stay one to one with the requests of the miss protocol |
| `DramHistory.UpdateKeepsSummary` | labs/lab3/src/DRAM.h:351-406 | one update of `next` and `prev` at any node (target, sibling, other) keeps them an exact summary of the full command trace |
| `DramTree.CheckIsTraceCheck` | labs/lab3/src/DRAM.h:266-278 | the test on `next` along the way is the test of all timing entries, sibling ones included, against the full trace |
| `DramTree.CheckKeepsLegal` | labs/lab3/src/DRAM.h:266-278 | if every issued command passed the test, the whole trace is legal |
| `DramTree.NodesAfterSummarise` | labs/lab3/src/DRAM.h:350-406 | after any command the whole tree is an exact summary of the longer trace |
| `DramTree.DramTree.constructor` | labs/lab3/src/DRAM.h:190-228 | a fresh tree summarises the empty trace |
| `DramTree.DramTree.Update` | labs/lab3/src/DRAM.h:324-331 | issuing a command that passed the test keeps the tree exact and the trace legal |
| `DramTree.LatestOnWay` | labs/lab3/src/DRAM.h:312-322 | walking down the scope finds the maximum of `next` that decides the test |
| `DramTree.DramTree.GetNext` | labs/lab3/src/DRAM.h:312-322 | from now on a command passes the test exactly from the returned cycle on |
| `DramTree.DramTree.UpdateSibling` | labs/lab3/src/DRAM.h:354-367 | only sibling entries raise `next`, counting from now |
| `DramTree.DramTree.UpdateTarget` | labs/lab3/src/DRAM.h:369-395 | the history shifts and the other entries raise `next`, each from the issue its distance back |
| `DramTree.DramTree.UpdateNode` | labs/lab3/src/DRAM.h:354-395 | which of the two happens |
| `DramTree.DramTree.UpdateTiming` | labs/lab3/src/DRAM.h:350-406 | the recursion updates exactly the nodes that the command concerns |
| `DramTree.DramTree.UpdateChildren` | labs/lab3/src/DRAM.h:402-404 | all children of a target are visited |
| `ControllerTick.ChannelController.UpdateServingRequests` | labs/lab3/src/DRAM.h:408-447 | the counters of the nodes on the path, and no others, change; none gets negative |
| `Ddr4.Ddr4SpecOk` | labs/lab3/src/DDR4.cpp:246-404 | the DDR4 tables have positive distances, and sibling entries of distance 1 only, as the update asserts; their times are in `Ddr4Waits` |
| `Ddr4.LegalGap` | labs/lab3/src/DDR4.cpp:246-404 | in a legal trace an entry of distance d keeps its time between a command and the d-th one before it, however many lie between |
| `Ddr4.LegalSiblingGap` | labs/lab3/src/DDR4.cpp:285-302 | the same between siblings |
| `Ddr4.FiveActivates` | labs/lab3/src/DDR4.cpp:321 | any five activates to a rank span at least nFAW |
| `Ddr4.AccessAfterActivate` | labs/lab3/src/DDR4.cpp:389-392 | a column access follows any earlier activate of its bank by nRCD |
| `Ddr4.ReadsOfTwoRanks` | labs/lab3/src/DDR4.cpp:287 | reads of two ranks are nBL + nRTRS apart |
| `Ddr4Waits.AdmitsIff` | labs/lab3/src/DDR4.cpp:246-404 | a trace admits a command iff it has waited for every command before it, by the waits of channel, rank, other rank, bank group and bank given here command by command, and an activate is outside of the nFAW window of every four |
| `Ddr4Waits.LegalIff` | labs/lab3/src/DDR4.cpp:246-404 | a trace is legal iff every two of its commands keep these waits and no five activates of a rank are too close |
| `DramWaits.BankWaits` | labs/lab3/src/DDR4.cpp:389-404 | on a bank, for all that the controller has issued in a reachable state: precharge to activate nRP, activate to activate nRC, to precharge nRAS, to access nRCD; read to precharge nRTP, write to precharge nCWL + nBL + nWR |
| `DramWaits.GroupWaits` | labs/lab3/src/DDR4.cpp:332-388 | on a bank group: accesses nCCDL, write to read nCWL + nBL + nWTRL, activates nRRDL |
| `DramWaits.RankWaits` | labs/lab3/src/DDR4.cpp:262-331 | on a rank: accesses, turns of the bus, activates, precharge of all banks, and nothing after a refresh before nRFC |
| `DramWaits.ChannelWaits` | labs/lab3/src/DDR4.cpp:246-302 | on the channel: bursts, and the turn from one rank to another |
| `RowTable.FirstFits` | labs/lab3/src/DDR4.cpp:117-150 | the first command chosen for a request fits the state of its bank |
| `RowTable.AgreesAfter` | labs/lab3/src/DDR4.cpp:205-219 | after any fitting command the table again has exactly the opened banks with their one open row |
| `Controller.UseAdvance` | labs/lab3/src/DDR4.cpp:205-219 | banks and table show what the issued commands have left of each bank: the row that was opened last and how often it has been accessed, or nothing |
| `Controller.FirstForUse` | labs/lab3/src/DDR4.cpp:117-150 | the first command of an access: activate in an unused bank, the access itself if its row is open, else precharge |
| `Controller.RefreshForUse` | labs/lab3/src/DDR4.cpp:117-150 | a refresh comes first iff all banks of its rank are unused |
| `RowTable.FitsTable` | labs/lab3/src/Scheduler.h:430-461 | a fitting command meets all three assertions of the table update |
| `RowTable.RowTable.Update` | labs/lab3/src/Scheduler.h:421-462 | the new table; the assertions hold |
| `RowTable.RowTable.Remove` | labs/lab3/src/Scheduler.h:442-461 | exactly the entries within the scope are removed, and their number is positive iff there were any |
| `Controller.HitsForUse` | labs/lab3/src/Scheduler.h:464-480 | the hits of a row are the accesses to it since it was opened |
| `Policies.ComparesKeys` | labs/lab3/src/Scheduler.h:87-135 | every comparison keeps the first request unless the second one's key is smaller |
| `Policies.PickIsUnique` | labs/lab3/src/Scheduler.h:62-74 | a queue has exactly one pick |
| `Policies.PickOf` | labs/lab3/src/Scheduler.h:62-74 | folding any queue with the comparison finds its pick |
| `Policies.GetHead` | labs/lab3/src/Scheduler.h:62-74 | the fold returns the first request with the least lexicographic key; ATLAS returns the first overdue one if any is |
| `Policies.AtlasPicksOldestOverdue` | labs/lab3/src/Scheduler.h:228-233 | in every reachable channel, whenever a request of the queue whose turn it is is overdue, ATLAS picks an overdue one than which none in the queue is older |
| `PolicyPicks.PickMeans` | labs/lab3/src/Scheduler.h:62-330 | what each of the six policies picks: the oldest of its best group that is not empty (ready; ready and at most 16 hits; ready hits; late by 100000 cycles; least attained service; not blacklisted) |
| `PolicyPicks.ItemMeans` | labs/lab3/src/Scheduler.h:87-330 | what they go by: whether the next command of the request may go now, whether its row is open, and how often that has been accessed since |
| `OvertakingRuns.PickIsNotBehind` | labs/lab3/src/Scheduler.h:62-135 | under every policy a write is preferred to later writes of its row and core |
| `Controller.ConservedAccept` | labs/lab3/src/Controller.h:332-349 | accepting puts the request into exactly one place |
| `Controller.ConservedAdvance` | labs/lab3/src/Controller.h:472-503 | serving moves it on, without loss or copy |
| `Controller.ConservedComplete` | labs/lab3/src/Controller.h:361-374 | so does the callback of a read |
| `Controller.ExactlyOnce` | labs/lab3/src/Controller.h:332-503 | every accepted request is in exactly one queue or has been called back exactly once |
| `Controller.ServedAdvance` | labs/lab3/src/Controller.h:424-429 | how the number of started, unfinished requests below a node changes when a command is issued |
| `Controller.ServingAdvance` | labs/lab3/src/Controller.h:424-498 | the counters of the tree stay equal to those numbers |
| `Controller.ServingComplete` | labs/lab3/src/Controller.h:361-374 | also at a callback, before which they are positive on the whole path |
| `Controller.OrderedAccept` | labs/lab3/src/Controller.h:332-349 | a waiting read is older than every waiting write to its address, because younger ones are forwarded |
| `Controller.OrderedAdvance` | labs/lab3/src/Controller.h:472-503 | serving keeps this |
| `Controller.ReadsAfterWrites` | labs/lab3/src/Controller.h:332-349 | when a read accesses its column no older write to its address waits |
| `Controller.SortedAccept` | labs/lab3/src/Controller.h:332-349 | the queues for reads, writes and refreshes stay in the order of arrival |
| `Controller.SortedAdvance` | labs/lab3/src/Controller.h:472-503 | also when a request is served |
| `OvertakingRuns.OvertakesIffReadWaits` | labs/lab3/src/Controller.h:332-504 | from every state of a controller with its DRAM tree and any of the six policies: a write that is accepted can come to be served before an older read of its address iff such a read waits in the read queue |
| `Overtaking.NeverOvertakes` | labs/lab3/src/Controller.h:332-504 | without such a read no run overtakes, whatever policy and timing answer |
| `OvertakingRuns.OvertakingRun` | labs/lab3/src/Controller.h:332-504 | with such a read a run of the controller does |
| `OvertakingRuns.ServeTarget` | labs/lab3/src/Controller.h:332-504 | from wherever a write is, a run of the controller leads to its being served while all waiting reads still wait |
| `OvertakingRuns.TickServes` | labs/lab3/src/Controller.h:396-504 | in such a run every tick brings the write nearer, by less work before it or fewer open banks, or only passes the time until a command is ready |
| `OvertakingRuns.AllAreReady` | labs/lab3/src/Controller.h:506-510 | when nothing is issued, every command is ready some time |
| `OvertakingRuns.WriteIsAdmitted` | labs/lab3/src/Controller.h:506-510 | after the activate of its row and nothing else a write is ready nRCD cycles later, and not before |
| `OvertakingRuns.FirstOvertaking` | labs/lab3/src/Controller.h:332-504 | the input: in a new controller a read and 26 writes to its address arrive; under any policy and speed the first write is served in tick 1 + nRCD (2 if nRCD is 0), while the read still waits |
| `ChannelCalls.RefusedIff` | labs/lab3/src/Controller.h:332-349 | a request is refused iff 32 of its kind wait |
| `ChannelCalls.ArrivesAsNewest` | labs/lab3/src/Controller.h:332-349 | otherwise it waits as the newest of its kind, but a read of an address that a waiting write is going to write has its data in the next cycle |
| `ChannelCalls.TickCalls` | labs/lab3/src/Controller.h:351-503 | a tick calls back the first read that waits for its data iff they are there, and the request of a write command; the request of a read command waits for data that are there after the latency; all others stay as they are |
| `ChannelCalls.ForwardedIsCalled` | labs/lab3/src/Controller.h:340-374 | a forwarded read is called back in the next tick when no other one waits for its data |
| `Controller.FirstIsPossible` | labs/lab3/src/Controller.h:396-422 | which first commands can come from which queue, and that they fit the banks |
| `DramTurns.WhoseTurn` | labs/lab3/src/Controller.h:384-422 | with no request started and no refresh: if only reads or only writes wait, it is their turn; with both, the writes from 26 on, the reads at 5 writes or fewer, and in between whoever had it |
| `DramTurns.AllAreServed` | labs/lab3/src/Controller.h:351-504 | when nothing more arrives, every accepted request is called back in the end, from every state and under every policy |
| `DramTurns.OneQuietRun` | labs/lab3/src/Controller.h:351-504 | and there is only one way for the system to go on |
| `OvertakingRuns.LoneWrite` | labs/lab3/src/Controller.h:332-504 | a lone write in a new controller is served in tick 1 + nRCD (2 if nRCD is 0) |
| `Controller.RowsAdvance` | labs/lab3/src/Controller.h:641-653 | the row table keeps agreeing with the banks, every open row is used before it is closed, and `useless_activates` stays 0 |
| `Controller.AlternatesAdvance` | labs/lab3/src/Controller.h:472-489 | every activate is followed, as the next command of the channel, by the column access of the same request |
| `Controller.QueuesServe` | labs/lab3/src/Controller.h:424-503 | serving keeps all invariants of the queues |
| `Controller.DramServe` | labs/lab3/src/Controller.h:641-653 | and of the channel |
| `Controller.ServeKeeps` | labs/lab3/src/Controller.h:424-503 | and of both together with the counters |
| `Controller.Choose` | labs/lab3/src/Controller.h:396-422 | the queue whose turn it is: the promoted request, then refreshes, then reads or writes by the mode; a request is chosen iff it is the pick there and its next command is ready |
| `Controller.TickBegin` | labs/lab3/src/Controller.h:351-382 | the begin of a tick keeps all invariants |
| `Controller.TickEnd` | labs/lab3/src/Controller.h:384-503 | so does its end, for any answers of the policy and of the timing |
| `Controller.Ticked` | labs/lab3/src/Controller.h:351-503 | so does a whole tick |
| `ControllerTick.ChannelController.constructor` | labs/lab3/src/Controller.h:116-145 | a controller starts with empty queues and closed banks, all invariants holding |
| `ControllerTick.ChannelController.AddToQueue` | labs/lab3/src/Controller.h:332-349 | refused when full, forwarded from a write to the same address, else queued |
| `ControllerTick.ChannelController.Enqueue` | labs/lab3/src/Controller.h:332-349 | the same, keeping all invariants |
| `ControllerTick.ChannelController.AddRefresh` | labs/lab3/src/Controller.h:332-349 | a refresh joins the other requests |
| `ControllerTick.ChannelController.ServeCompleted` | labs/lab3/src/Controller.h:360-374 | at most the oldest read is called back, when its data are there, and is counted out if it accessed a row |
| `ControllerTick.ChannelController.IssueCommand` | labs/lab3/src/Controller.h:641-653 | a command that is ready is issued: banks, table, statistics and the list of what has been issued |
| `ControllerTick.ChannelController.Settle` | labs/lab3/src/Controller.h:472-503 | what becomes of the request: stays, promoted, pending, or finished |
| `ControllerTick.ChannelController.Count` | labs/lab3/src/Controller.h:424-429 | a request is counted in with its first command, a write out with its column access |
| `ControllerTick.ChannelController.Serve` | labs/lab3/src/Controller.h:469-503 | one request served: queues, channel and counters |
| `ControllerTick.ChannelController.UpdateWriteMode` | labs/lab3/src/Controller.h:384-394 | the mode that decides whose turn it is, as `DramTurns.WhoseTurn` has it |
| `ControllerTick.ChannelController.ServeChosen` | labs/lab3/src/Controller.h:424-503 | the request that has been chosen is served, with all invariants kept |
| `ControllerTick.ChannelController.BeginTick` | labs/lab3/src/Controller.h:353-382 | the begin of a tick: clock, callback and refreshes, with all invariants kept |
| `DramControl.ReadyIsCheck` | labs/lab3/src/Controller.h:506-510 | the readiness of a command is the test of the DRAM tree for the request's address |
| `DramControl.RequestIsAddressed` | labs/lab3/src/Controller.h:332-349 | every request in a queue is for a node of the tree |
| `DramControl.StepOk` | labs/lab3/src/Controller.h:332-504 | a request that arrives and a tick with the answers of tree and policy keep the system well formed, so its runs go on from everywhere |
| `DramControl.LinkedServe` | labs/lab3/src/Controller.h:472-503 | serving a request keeps the tree's trace equal to what the controller has issued |
| `DramControl.RankWindow` | labs/lab3/src/Controller.h:641-645 | any five activates that the controller issues to a rank span at least nFAW |
| `DramControl.AccessAfterActivate` | labs/lab3/src/Controller.h:472-489 | the next command after an activate is the access of the same request, at least nRCD later |
| `DramControl.DramController.constructor` | labs/lab3/src/Controller.h:116-145 | controller and tree start linked, with nothing issued, in the start state of the runs |
| `DramControl.DramController.IsSystem` | labs/lab3/src/Controller.h:100-145 | a controller that keeps its invariants is a state of the runs |
| `DramControl.DramController.ReachableWindow` | labs/lab3/src/Controller.h:641-645 | so it is in every state that the controller can reach, with the real tree and any policy |
| `DramControl.DramController.ReachableAccess` | labs/lab3/src/Controller.h:472-489 | so is the distance of an activate and its access |
| `DramWaits.IssuedHasWaited` | labs/lab3/src/Controller.h:641-645 | in every reachable state each issued command had waited for every one before it |
| `DramWaits.ReadyIff` | labs/lab3/src/Controller.h:506-510 | in every reachable state a command is ready iff it has waited for all that has been issued |
| `DramControl.DramController.Enqueue` | labs/lab3/src/Controller.h:332-349 | accepting a request keeps all invariants, and is an arrival of the runs |
| `DramControl.DramController.Pick` | labs/lab3/src/Controller.h:402-409 | the policy picks in the queue whose turn it is, with the tree's answers |
| `DramControl.DramController.UpdateTree` | labs/lab3/src/Controller.h:641-645 | the assertion of `issue_cmd` holds, and the tree has one more command in its trace |
| `DramControl.DramController.IssueNext` | labs/lab3/src/Controller.h:472-503 | tree and controller follow one command |
| `DramControl.DramController.Perform` | labs/lab3/src/Controller.h:424-503 | the whole invariant is kept by a command: the tree has seen exactly what has been issued, and all of it was legal |
| `DramControl.DramController.EndTick` | labs/lab3/src/Controller.h:396-503 | what is chosen is issued |
| `DramControl.DramController.Tick` | labs/lab3/src/Controller.h:351-504 | a tick is callback, refreshes, write mode, the policy's pick by the tree's answers, and issue, in this order, and so exactly a tick of the runs, for queues, channel and tree; it keeps all invariants and the trace legal |
| `RefreshLedger.Refresh.constructor` | labs/lab3/src/Refresh.cpp:24-42 | the ledger starts balanced |
| `RefreshLedger.Refresh.RefreshBank` | labs/lab3/src/Refresh.cpp:91-94 | a request for the next subarray of the bank, one credit, and the subarray counter goes round |
| `RefreshLedger.Refresh.FindDue` | labs/lab3/src/Refresh.cpp:65-88 | the first idle bank from the random start that is running out of credit |
| `RefreshLedger.Refresh.EarlyInject` | labs/lab3/src/Refresh.cpp:45-98 | in read mode, and only then, every rank's first due bank is refreshed |
| `RefreshLedger.EarlyKeeps` | labs/lab3/src/Refresh.cpp:85-94 | that keeps all banks within the limits |
| `RefreshLedger.Refresh.WriteRefreshParallelization` | labs/lab3/src/Refresh.cpp:164-224 | every rank's chosen bank is refreshed unless it is at the upper limit |
| `RefreshLedger.WritesKeep` | labs/lab3/src/Refresh.cpp:215-222 | that keeps the limits |
| `RefreshLedger.Refresh.InjectRank` | labs/lab3/src/Refresh.cpp:108-149 | the bank whose turn it is falls behind by one, and gets its refresh unless it may be skipped |
| `RefreshLedger.SlotKeeps` | labs/lab3/src/Refresh.cpp:112-148 | a skipped slot leaves the bank above the lower limit, a refreshed one restores its credit |
| `RefreshLedger.Refresh.Inject` | labs/lab3/src/Refresh.cpp:106-152 | a slot of every rank |
| `RefreshLedger.SlotsKeep` | labs/lab3/src/Refresh.cpp:106-152 | keeps the limits in all ranks, with one more slot counted |
| `RefreshLedger.Refresh.InjectAhead` | labs/lab3/src/Refresh.cpp:238-247 | refreshes behind writes only when write mode begins, early ones only in read mode |
| `RefreshLedger.Refresh.Tick` | labs/lab3/src/Refresh.cpp:228-252 | the whole tick: what is refreshed ahead, and whether a slot has come |
| `RefreshLedger.NeverFarBehind` | labs/lab3/src/Refresh.cpp:107-150 | refreshes requested for a bank never fall 8 behind its elapsed slots, nor get more than 8 ahead; slots come every interval |
| `RefreshLedger.SlotsInRounds` | labs/lab3/src/Refresh.cpp:115-116 | the slots go round the banks |
| `RefreshLedger.SlotsAreFair` | labs/lab3/src/Refresh.cpp:115-116 | so every bank has had one slot in each round |
| `RefreshLedger.EnteredTarget` | labs/lab3/src/Refresh.cpp:91-94 | a refresh is for the subarray of the bank whose turn it is |
| `RefreshRequests.EarlyRequests` | labs/lab3/src/Refresh.cpp:65-98 | in read mode a bank gets one early refresh iff it is the first idle one of its rank, looking round from the random start, that is seven behind |
| `RefreshRequests.WritesRequest` | labs/lab3/src/Refresh.cpp:164-224 | when write mode begins, the chosen bank of a rank gets one unless it is eight ahead |
| `RefreshRequests.AheadRequests` | labs/lab3/src/Refresh.cpp:238-247 | nothing is requested ahead of the slots while write mode goes on |
| `RefreshRequests.SlotRequests` | labs/lab3/src/Refresh.cpp:108-149 | the slot of a bank requests its refresh, unless refreshes may be skipped, there is something else to do, and the bank is less than eight behind with this slot |
| `AddressMap.CalcLog2` | labs/lab3/src/Memory.h:610-615 | halving gives the exponent of a power of two |
| `AddressMap.OrderIsPermutation` | labs/lab3/src/Memory.h:351-361 | each of the two mapping orders slices every level exactly once |
| `AddressMap.ChannelIsHighest` | labs/lab3/src/Memory.h:352-355 | ChRaBaRoCo: the number of a transaction has the channel in its highest and the column in its lowest digits |
| `AddressMap.RowIsHighest` | labs/lab3/src/Memory.h:356-361 | RoBaRaCoCh: the channel is lowest, then come the column and the ranks and so on up to the row |
| `AddressMap.VectorsNameMembers` | labs/lab3/src/Memory.h:145-152 | vectors name every member of every level but the columns, of which they name the first of each burst |
| `AddressMap.ValueOfDigits` | labs/lab3/src/Memory.h:616-621 | putting sliced fields together gives the number |
| `AddressMap.DigitsOfValue` | labs/lab3/src/Memory.h:616-621 | slicing a number put together from fields gives the fields |
| `AddressMap.VectorRoundTrip` | labs/lab3/src/Memory.h:344-361 | every transaction below the product of the slice sizes is recovered from its vector |
| `AddressMap.TransactionRoundTrip` | labs/lab3/src/Memory.h:344-361 | every vector in range comes from exactly one transaction below the product of the slice sizes |
| `AddressMap.OrderKeepsProduct` | labs/lab3/src/Memory.h:351-361 | both mapping orders have as many vectors |
| `AddressMap.VectorsCoverMemory` | labs/lab3/src/Memory.h:145-152 | the transactions that have a vector cover no more than `max_address`, and all of it iff every level has a power of two of members |
| `AddressMap.AddressRoundTrip` | labs/lab3/src/Memory.h:145-152 | then every address below `max_address` belongs to a transaction that is recovered from its vector |
| `AddressMap.Slice` | labs/lab3/src/Memory.h:351-361 | the loops fill the array with that vector |
| `PageAllocator.AssignKeeps` | labs/lab3/src/Memory.h:591-595 | assigning a free page keeps the translation injective and the two counts right |
| `PageAllocator.ReplacementShares` | labs/lab3/src/Memory.h:570-574 | a replacement always gives a page to two virtual pages |
| `PageAllocator.Allocator.constructor` | labs/lab3/src/Memory.h:155-166 | all pages are free |
| `PageAllocator.Allocator.Probe` | labs/lab3/src/Memory.h:580-588 | the search round the end of memory stops at the first free page |
| `PageAllocator.Allocator.FindPage` | labs/lab3/src/Memory.h:576-591 | the random page if it is free, else the first free one after it, round the end of memory; the assertion that it is free holds |
| `PageAllocator.Allocator.Assign` | labs/lab3/src/Memory.h:593-595 | the page is marked with its core, and one count changes |
| `PageAllocator.Allocator.Replace` | labs/lab3/src/Memory.h:570-574 | the translation changes and a replacement is counted; nothing else |
| `PageAllocator.Allocator.PageOf` | labs/lab3/src/Memory.h:562-597 | a known page keeps its translation; an unknown one gets the first free page from the random one on, or shares the random one when none is left |
| `PageAllocator.Allocator.Translate` | labs/lab3/src/Memory.h:555-600 | the offset is kept, the translation is a function, how the counts of free pages and replacements change, and that injectivity is kept iff the page is known or one is free |
| `Ghb.PrefetchesAre` | labs/lab4/inc/ghb.h:176-190 | prefetches are consecutive strides ahead, all in the page, and stop only at its end or at the degree; in numbers this is `PrefetchesAreAhead` |
| `Ghb.PrefetchesAreAhead` | labs/lab4/inc/ghb.h:164-189 | in plain numbers: the prefetched addresses are those of the lines `distance`, `distance + 1`, ... strides ahead, modulo 2^64, in the 4 KB page of the access, and they end at the first that is not or after `degree` |
| `Ghb.PrefetchesFollow` | labs/lab4/inc/ghb.h:150-191 | a prefetch needs three accesses of the instruction with one stride other than zero |
| `Ghb.StrideIsCovered` | labs/lab4/inc/ghb.h:164-189 | if the instruction keeps its stride, the line that it accesses `distance` accesses later in the page is prefetched |
| `GhbLinks.DescribesNext` | labs/lab4/inc/ghb.h:98-136 | one access: every field of both tables, left-over links included, is again exactly what the history of accesses says |
| `GhbLinks.TablesAre` | labs/lab4/inc/ghb.h:98-136 | so after every history |
| `GhbLinks.LinkIff` | labs/lab4/inc/ghb.h:113-133 | the `prev` link of an access is there exactly if the history says so, and leads to the access before in its slot |
| `GhbLinks.PredecessorIsThere` | labs/lab4/inc/ghb.h:113-121 | no link leads to an entry that has been recycled |
| `GhbLinks.PresentIff` | labs/lab4/inc/ghb.h:113-133 | the exact condition: the instruction kept its slot since its access before, whose entry has not been recycled; no older entry that kept the slot was recycled between the two; and no entry recycled since had a left-over `next` to this one |
| `GhbLinks.LinesAreRecent` | labs/lab4/inc/ghb.h:138-148 | every chain is a prefix of the accesses of its instruction, newest first |
| `GhbLinks.SlotChainIsRecent` | labs/lab4/inc/ghb.h:98-148 | from a slot of the index table it starts at the latest access of the slot's instruction |
| `GhbLinks.CompleteIff` | labs/lab4/inc/ghb.h:138-148 | a chain lists as many accesses as asked for, or all there have been, iff all its links are there |
| `GhbLinks.FillingIsComplete` | labs/lab4/inc/ghb.h:138-148 | so it is while the buffer fills, for an instruction that has its slot for itself |
| `GhbLinks.NewestLines` | labs/lab4/inc/ghb.h:138-148 | what the traversal of the current access sees, and when that is complete |
| `GhbLinks.LeftOverCuts` | labs/lab4/inc/ghb.h:113-148 | a history of 514 accesses with a stride whose three accesses are all in the buffer: a left-over `next` link has cut the chain, and the prefetch is lost |
| `GhbPrefetcher.Prefetcher.constructor` | labs/lab4/inc/ghb.h:54-75 | empty tables, distance and degree 4 |
| `GhbPrefetcher.Prefetcher.Reset` | labs/lab4/inc/ghb.h:105-109 | the slot is given to the instruction if another one has it |
| `GhbPrefetcher.Prefetcher.Detach` | labs/lab4/inc/ghb.h:113-121 | exactly the links to the recycled entry are cut |
| `GhbPrefetcher.Prefetcher.Link` | labs/lab4/inc/ghb.h:123-133 | the entry is filled and linked, and its predecessor gives up the slot |
| `GhbPrefetcher.Prefetcher.Record` | labs/lab4/inc/ghb.h:105-133 | the whole new state of both tables after an access |
| `GhbPrefetcher.Prefetcher.Insert` | labs/lab4/inc/ghb.h:98-136 | the oldest entry is the one recorded into, and the head goes round the buffer |
| `GhbPrefetcher.Prefetcher.Traverse` | labs/lab4/inc/ghb.h:138-148 | the first three entries of the chain |
| `GhbPrefetcher.Prefetcher.Operate` | labs/lab4/inc/ghb.h:98-192 | tables and prefetches of one access, exactly: the chain is what the history says; a prefetch extends an equal non-zero stride of the instruction's last three accesses, and comes iff these have one and both links are there; the addresses are those of `Ghb.FollowsStride`, in plain numbers |
| `GhbPrefetcher.Prefetcher.PrefetchAlong` | labs/lab4/inc/ghb.h:150-191 | stride detection and the list of prefetches, which are ahead as `Ghb.FollowsStride` says in plain numbers |
| `FastSet.FastSet.constructor` | labs/lab4/inc/set.h:134 | the empty set |
| `FastSet.FastSet.SetBit` | labs/lab4/inc/set.h:41-45 | one member is added to the bits |
| `FastSet.FastSet.GetBit` | labs/lab4/inc/set.h:49-53 | membership of one number |
| `FastSet.FastSet.MakeRoom` | labs/lab4/inc/set.h:64-66 | the tail moves up by one |
| `FastSet.FastSet.InsertSmall` | labs/lab4/inc/set.h:57-71 | the sorted array stays sorted and gains the number |
| `FastSet.FastSet.SearchSmallLinear` | labs/lab4/inc/set.h:76-83 | finds exactly the members |
| `FastSet.FastSet.SearchSmall` | labs/lab4/inc/set.h:88-115 | so does the binary search |
| `FastSet.FastSet.SmallToBit` | labs/lab4/inc/set.h:119-128 | the bits represent the same set |
| `FastSet.FastSet.Insert` | labs/lab4/inc/set.h:142-165 | adds the number, across the switch of representation |
| `FastSet.FastSet.Search` | labs/lab4/inc/set.h:169-184 | membership in either representation |
| `FastSet.FastSet.Join` | labs/lab4/inc/set.h:189-216 | union, for all four combinations of representations, also with itself |
| `FastSet.FastSet.JoinSmall` | labs/lab4/inc/set.h:193-200 | union with a small set |
| `FastSet.FastSet.JoinBits` | labs/lab4/inc/set.h:210-215 | union of bit vectors |
| `FastSet.FastSet.Expand` | labs/lab4/inc/set.h:220-248 | the members in ascending order, each once; of the bits only those below n |
| `FastSet.FastSet.ExpandSmall` | labs/lab4/inc/set.h:223-228 | the sorted array is copied |
| `FastSet.FastSet.ExpandBits` | labs/lab4/inc/set.h:230-247 | the bits are listed word by word |
| `FastSet.FastSet.ExpandWord` | labs/lab4/inc/set.h:238-245 | one word is listed, up to the bound |
| `FastSet.WordsInRange` | labs/lab4/inc/set.h:212-215 | the word count of a join is enough, and within the array iff n is below 512 |

## Left out

- Pipeline: instruction text does not change while it is executed (the fetch stage reads it early). The bypass from the memory slot at lines 391-395, 404-408 and 417 of pipe.c is dead code, because line 376 returns whenever that slot is taken, and it is left out together with `reg_dst_value_ready`.
- Pipeline: shift amounts are taken modulo 32 and the quotient of the least integer by -1 wraps around, where C leaves both undefined (`MipsLaws.DivIsQuotient` tells this case apart).
- PipelineRuns.FinishedRun: says nothing of the final pc, which an exit call and a recovery in the same cycle both overwrite; memory, HI and LO may be ahead of the exit call, and the lemma says by how much.
- Pipeline.Pipe.Cycle: the answers of the caches are inputs of a cycle, so that any cache is covered; `PipelineProgress` supplies them from the caches.
- The pipeline of lab 2 is not modelled separately; of its cycle only the order of interconnect and memory is, at lines 81-82 of its pipe.c.
- MissProtocol.Hierarchy.Probe: whether the L2 cache holds the block is an input; the contents of the L1 and L2 arrays and their timestamps are not part of the protocol. A probe that finds no MSHR, or merges with one, leaves its block unreferenced, as in the source, where it leaks.
- MissProtocol: the switch `DEBUG_L2_ALWAYS_HIT` is off.
- DramScheduler.Memory.Cycle: the row buffers are read and never written, as in the source. Exclusive use is proved for all contents of them, the bounded wait only for closed ones.
- DramScheduler: the two lists are sequences from the oldest request on; the source pushes at the head and walks from the tail, which `RetireList` shows for the list that changes on the way.
- MissProtocol.Hierarchy.InsertBlock: the insertion into the L2 array is left out; the protocol does not depend on it.
- MissProtocol.DeliverKeeps: the insertion into the L1 array is left out in the same way.
- RoundTrip.ComesBack: is about any run of cycles that `MemorySystem.MemorySystem.Cycle` makes (`MemorySystem.IsStep`), with any messages sent in between, and closed row buffers.
- DramTree.DramTree.Update: the state of the nodes, which `update_state` changes, is the map of banks that `RowTable.BanksAfter` changes; the begin and end of refreshing are statistics.
- DramTree: the tree is a map from paths to nodes instead of nodes with pointers; auto-precharge, power-down and self-refresh commands have their timing entries but are never issued by the controller.
- Controller: one DDR4 channel with the default row policy, which precharges nothing on its own; no power-down, self-refresh or auto-precharge requests; refreshes are per rank. In `Controller` and `ControllerTick` the answers of timing and policy are inputs of a tick, so that any answer is covered; `DramControl` supplies them from the tree and the policy. The float watermarks are the integers 25 and 6 that they come to for queues of 32. A read latency of at least 2 is required.
- ControllerTick.ChannelController.UpdateServingRequests: only the counter of each node; the intervals of activity are statistics.
- DramControl.AddressOf: the address vector without the column, which no test and no table looks at.
- OvertakingRuns.OvertakesIffReadWaits: arrivals are free, as many writes as there is room for between two ticks, and no refresh arrives in the runs that are constructed. For ATLAS and BLISS the later writes of the address are taken to come from the core of the first one; what their bookkeeping says of other requests is any input.
- RowTable.RowTable.Update: the timestamps of entries, which only the Timeout policy reads, and auto-precharge are left out.
- Policies.GetHead: the attained service of ATLAS is an integer, since only its order matters; the bookkeeping of ATLAS and BLISS is left out. `FRFCFS_PriorHit::get_head` hides a non-virtual method and is never called through the scheduler, so that policy is its comparison.
- RefreshLedger.Refresh.EarlyInject: which banks are idle, without a pending refresh and with room in the queue is an input.
- RefreshLedger.Refresh.WriteRefreshParallelization: the bank that each rank chooses by demand is an input.
- RefreshLedger.Refresh.Tick: the refresh of single banks only, the rank-level mode is left out; the random choices, the bank that `wrp` chooses by demand and sorting, the idle banks and the waiting requests are inputs. A refresh is taken to find room in the controller's queue, as the source asserts.
- RefreshLedger.Refresh.constructor: not fewer subarrays than banks, because the source indexes a vector of the subarray count by banks.
- AddressMap: mappings read from a file are left out. `VectorsCoverMemory` says what happens for sizes that are not powers of two.
- PageAllocator: only the random translation; without one the address is returned as it is.
- GhbPrefetcher.Prefetcher.constructor: the tables start zeroed, which the constructor of the source does not do. Addresses wrap around at 2^64.
- GhbPrefetcher: `set_aggressiveness`, which only assigns distance and degree from two tables; any distance and degree are covered.
- FastSet.FastSet.Join: n is below 512 if the other set is a bit vector: with n == 512 the loop would touch one word too many (`WordsInRange`).
- FastSet: the union of array and words is two arrays, and a word is 64 booleans.
- RankLru.RankedCache.Access: invalidations and prefetch fills are left out.
- CachePolicies.MruLruReplaces: MRU/LRU leaves blocks with equal times, between which the number of the way decides, so that its sets have no list of tags; what it does to a full set is stated as it is.
- Cache.CacheState.constructor: sizes are natural numbers with at least one set and one way; the source divides by zero or wraps around without them. `CacheBlocks.FindsAccessedIff` says what the number of sets must be.
- Timestamps, cycle counts and counters are unbounded integers.
- Shell commands, program loading, configuration, traces, printing, statistics and command traces.
- `labs/lab3/src/Cache.cpp`, which reads iterators after erasing them, and `labs/lab3/src/SpeedyController.h`, which reads a heap element after popping it.
- The other DRAM standards, TL-DRAM, AL-DRAM, the Closed and Timeout row policies, and the rest of ChampSim.
