# A verified model of the simulator's core modules

This project models, in Dafny 4.11, the state-keeping modules of a SimpleScalar-style RISC-V
simulator and proves what they are for. Each module appears twice: as functions on values, about
which the theorems are proved, and, where the C code updates state in place, as a class or a method
with the same fields, loops and branches, proved to compute exactly those functions. `dafny verify
dfyconfig.toml` checks the whole project.

- **Cache** (`cache.c`): address split and creation (`CacheAddress`), accesses and flushes on values
  (`CacheSpec`), transparency over flat memory (`CacheTransparency`), replacement and LRU inclusion
  (`CacheReplacement`, on the recency lists of `LruStack`), dirty lines and what crosses the bus
  (`CacheDirty`), counters and a second level (`CacheCounters`), the copy step (`CacheCopy`), doubly linked way lists and hash chains
  (`CacheSets`), and the cache itself (`CacheImpl`).
- **Instruction decoder** (`target-riscv64/riscv.c`, `riscv.h`): the decode trie a list of
  DEFINST/DEFLINK/CONNECT directives denotes, the flat table it is packed into and the walk that
  decodes a word (`Decoder`, `DecoderImpl`). The machine description is any list of directives; the
  shipped one is `target-riscv64/riscv.def`, which the Makefile links to `machine.def`.
- **Branch predictor** (`bpred.c`, `sim-bpred.c`): return-address stack (`ReturnStack`), history
  registers and counters (`Direction`), branch target buffer (`Btb`, `BtbTable`), and the whole
  predictor over runs of lookup-then-update steps (`Predictor`, `PredictorRuns`, `PredictorMisses`,
  `PredictorImpl`); what it answers and counts after a run, by the branches executed alone
  (`PredictorLookups`).
  Whether an instruction is a return and whether it is an indirect jump are separate flags, as the
  predictor takes them, although `riscv.h` defines both macros alike.
- **Memory** (`memory.c`, `memory.h`): the inverted page table with move-to-front buckets and pages
  allocated on first write, the order of the buckets, and the checked accesses, string and block
  copies over it (`Memory`, `MemoryOrder`, `MemoryAccess`, `MemoryImpl`).
- **Trace capture** (`ring_buffer.c`, `capture_buf.c`, `ptrace.c`): ring, capture buffer and the
  capture state machine (`Trace`, `TraceImpl`).
- **Event queue** (`eventq.c`): `EventQueue`, `EventQueueImpl`.
- **Numbers and CRC** (`misc.c`): integer conversions both ways (`Numbers`, `NumbersImpl`) and the
  cyclic redundancy check (`Crc`).
- **Expression evaluator** (`eval.c`): `Eval`, `EvalExact`, `EvalImpl`.
- **EIO recording and replay of memory** (`eio.c`): `Eio`, `EioImpl`.

Addresses are 64-bit values as naturals, with every wrap-around, mask, shift and 32-bit cut that the
code relies on written out (`Bits`). Random replacement is an arbitrary choice. A cache's calls of
its block access function are recorded in order, and the next level is a store of whole blocks.

## Findings

Properties that the code does not have, each with a lemma at an input that shows it and one that
says exactly when it holds; and, last, a slip in a comment.

- **Block-span check** (cache.c:527): the check `addr + nbytes > CACHE_BADDR + bsize` wraps at the top
  of the address space. It refuses accesses inside the last block (`LastBlockRefused`) and accepts
  the last two blocks as one access (`TwoBlocksAccepted`); `SpanCheckExact` says it is right on all
  other aligned accesses, and only on those.
- **Whole flush** (cache.c:787): `cache_flush` shifts an `int` set index, so the address of a written
  back block is right exactly when index times block size is below 2^31 (`FlushAddressExact`,
  `FlushAddressMisses`). A whole flush brings memory up to date whatever the cache holds if and only
  if it has at most 2^31 bytes of sets (`FlushExactly`); in any larger one a byte written at address
  2^31 is lost (`FlushLoses`).
- **Sizes** (cache.c:347, bpred.c:134-142): the number of blocks, and of branch-target entries, is a
  product of two ints. 65536 sets of 65536 ways pass every check and get no storage
  (`OversizedCache`, `OversizedBuffer`); creation works exactly below 2^31 (`CreateExact` of both).
- **Decoding past the table** (riscv.h:287): `ENV_LINK` (riscv.def:777) selects with a mask of 0xfff, more
  than the table holds, and word 0xfff00073 indexes past its end (`EnvironmentLeaves`). Every word
  that matches a link and selects an index past the end there does (`MatchLeaves`), and where no word
  strays no other does (`CleanLeavesExactly`; `LeavesExactly` for the rest).
- **Illegal words** (riscv.def:435-468): key 2 of a link with a 2-bit field and two children falls on the next
  link's first child, so a word that matches nothing decodes to an instruction
  (`IllegalWordDecodes`); `CleanExactly` gives the condition under which no word strays.
- **Unconnected links** (riscv.c:449-454): a link without its CONNECT keeps for ever every word that selects
  the link's own slot there (`UnconnectedLoops`, `UnconnectedLinkLoops`). Where no opcode is connected
  twice, all links lead upwards, so that decoding ends, if and only if every link is connected after
  its definition (`ProgressExactly`).
- **Branch address 0** (bpred.c:859): an unused entry has address 0, so the assertion that at most one entry
  matches fails for a branch at 0 exactly when two entries of the set are unused
  (`MatchesAreUnique`).
- **Lost events** (eventq.c:265): what a callback queues at or before the time being serviced is cut off with
  the event serviced (`LostExactly`, `SameTimeLost`); no event is lost if and only if every
  callback queues strictly later (`NoneLost`).
- **Least value** (misc.c:877-881): `-9223372036854775808` is read as that value but with ERANGE
  (`SignedRoundTrip`).
- **Long tokens** (eval.c:154-204): tokens are copied to a 512-byte buffer unchecked (`LongNameOverruns`);
  `OverrunExact` says which strings overrun it.
- **Unrecognised characters** (eval.c:212-223): a look ahead that meets one drops it, so the text `1#+1` is read
  as a sum that it does not spell (`UntidyRead`). `EvalExactly` says which texts are read as which
  expression; without such a character they are exactly those that spell it (`TidyReads`).
- **Grammar comment** (dlite.h:82-90): the comment swaps the names factor and term; the language is
  the one the code accepts, which associates to the right, `a-b-c` being `a-(b-c)`.

## Model

Paths are relative to the repository root.

| member | source | states |
|---|---|---|
| CacheAddress.CreateExact | cache.c:280-347 | creation refuses exactly sizes that are not powers of two (blocks below 8 bytes included) and, of the others, works exactly when there are fewer than 2^31 blocks in all |
| CacheAddress.OversizedCache | cache.c:347-349 | 65536 sets of 65536 ways pass every check and are given no block |
| CacheAddress.CreateOk | cache.c:306-323 | an accepted geometry keeps the requested sizes, with shift counts that match them |
| CacheAddress.SplitAsComputed | cache.c:62-65 | shifting and masking computes the quotient and remainders that name tag, set and offset |
| CacheAddress.BlockAsComputed | cache.c:68-68 | clearing the offset bits gives the address of the first byte of the block |
| CacheAddress.MakeAsComputed | cache.c:69-71 | the address rebuilt from tag and set is that of the named block |
| CacheAddress.IdOfAddress | cache.c:62-71 | splitting any address inside a named block gives back its name and the offset: the rebuild inverts the split |
| CacheAddress.FlushAddressExact | cache.c:786-788 | the 32-bit shift in a whole flush is right for every tag of a set if and only if index times block size is below 2^31 |
| CacheAddress.FlushAddressMisses | cache.c:786-788 | set 0x80000 of a cache of 4096-byte blocks is written back to 0xffffffff80000000 instead of 0x80000000 |
| CacheAddress.SpanCheckExact | cache.c:516-531 | the span check agrees with fitting in one block if and only if the access neither stops short in the last block of the address space nor ends the address space with more than one block |
| CacheAddress.LastBlockRefused | cache.c:527-528 | every cache refuses a one-byte access at the start of the last block |
| CacheAddress.TwoBlocksAccepted | cache.c:527-528 | every cache accepts the last two blocks of the address space as one access |
| CacheAddress.AcceptedFits | cache.c:516-531 | an accepted access no larger than a block lies inside one block |
| CacheSpec.AccessSound | cache.c:500-716 | an access keeps the shape of every set and at most one valid line per tag, and touches no other set |
| CacheSpec.DropSound | cache.c:801-858 | a block flush keeps the same, and touches no other set |
| CacheSpec.FlushClears | cache.c:762-796 | a whole flush keeps the same and leaves no line valid |
| LruStack.HoldsMostRecent | cache.c:668-673 | a bounded move-to-front list holds exactly the most recently used distinct keys, latest first |
| CacheTransparency.AccessTransparent | cache.c:562-716 | a read, fill or eviction leaves the program-visible memory alone, a write changes exactly its bytes, a read returns them, and valid clean blocks stay equal to the next level |
| CacheTransparency.FlushBlockTransparent | cache.c:801-858 | flushing a block changes nothing visible |
| CacheTransparency.FlushBlockWritesBack | cache.c:837-855 | a flushed block is gone and the next level holds what was visible |
| CacheTransparency.FlushTransparent | cache.c:762-796 | with at most 2^31 bytes of sets a whole flush leaves nothing valid and the next level equal to visible memory |
| CacheTransparency.FlushExactly | cache.c:762-796 | a whole flush brings the next level up to date whatever the cache holds if and only if it has at most 2^31 bytes of sets |
| CacheTransparency.FlushLoses | cache.c:786-788 | in every larger cache a byte written at address 2^31 is missing from the next level after a whole flush |
| CacheTransparency.CacheIsInvisible | cache.c:500-858 | over any run of reads, writes and flushes under any policy the results are those of flat memory, to which a final flush brings the next level (whole flushes where sets have at most 2^31 bytes) |
| CacheTransparency.CreatedIsInvisible | cache.c:260-858 | a cache created empty over any next level answers every run as that memory alone would |
| CacheReplacement.ServeTags | cache.c:569-574 | under LRU and FIFO every request acts on the valid tags of a set as on a bounded recency list, valid lines first |
| CacheReplacement.LruInclusion | cache.c:540-574 | driven by one stream of accesses and flushes, every set of a less associative LRU cache stays a prefix of the larger cache's, which never misses more |
| CacheReplacement.CreatedInclusion | cache.c:353-400 | for two caches created empty: inclusion after any run, fewer or equal misses, and every hit of the smaller is a hit of the larger |
| CacheReplacement.WayOrderIsRecency | cache.c:668-673 | after any run the valid lines stand first, in strictly decreasing order of last use (LRU) or fill (FIFO) |
| CacheReplacement.VictimIsOldest | cache.c:569-574 | whenever the way list is in order of last use (fill) of a history, a miss evicts a valid block exactly when the set is full, and then the one used (filled) longest ago |
| CacheReplacement.ReachableVictim | cache.c:569-574 | the same in every state a created cache reaches, for the history of its own run |
| CacheReplacement.RandomInPlace | cache.c:575-580 | under random replacement an access changes only the line it hits, or on a miss the one the random choice names, whose block is evicted if valid; the way list stays in order |
| CacheReplacement.LruHoldsMostRecent | cache.c:540-574 | without flushes an access hits if and only if its tag is among the most recently used distinct tags of its set |
| CacheDirty.DirtyExactly | cache.c:619-636 | in every state a created cache reaches, a valid line is dirty if and only if its block was written since the miss that brought it in |
| CacheDirty.TrafficExactly | cache.c:593-626 | over any run the block access function is called, in order, to fetch for every miss and to write back exactly the replaced or dropped blocks written since they were fetched, which are the write-backs counted |
| CacheDirty.ReadsWriteNothing | cache.c:593-626 | a run without writes writes nothing back |
| CacheDirty.HitsAndMisses | cache.c:562-664 | hits, misses and replacements counted are the accesses that found their block, that did not, and that replaced a valid one |
| CacheCounters.RunBalanced | cache.c:564-617 | after any run valid blocks = misses - replacements - invalidations, write-backs are at most replacements plus invalidations, and block transfers are the misses plus the write-backs |
| CacheCounters.CreatedRunBalanced | cache.c:564-617 | the same in every state a created cache reaches |
| CacheCounters.ForwardedAccepted | sim-cache.c:126-140 | the second level accepts every first-level block access, save in the last block of the address space |
| CacheCounters.ForwardedMeans | sim-cache.c:126-140 | the second level sees a block access as a write or a read as it was, at the set, tag and offset of the block's address and of its size |
| CacheCounters.TwoLevelConservation | sim-cache.c:126-140 | a private second level sees exactly one access per first-level miss and one per write-back, over any run |
| CacheCounters.CreatedTwoLevel | sim-cache.c:126-140 | the same for two caches created empty, over any next levels |
| CacheCounters.CreatedTwoLevelTraffic | sim-cache.c:126-140 | from creation the second level serves exactly, in order, the fetches of the first level's misses and its write-backs of blocks written since fetched |
| CacheCopy.PowersCopyable | cache.c:97-137 | every size let through is one the copy step moves completely |
| CacheCopy.CopyOut | cache.c:97-137 | the copy out of a block returns exactly the bytes asked for |
| CacheCopy.CopyIn | cache.c:97-137 | the copy into a block changes exactly the bytes given |
| CacheSets.CacheSet.constructor | cache.c:353-400 | the new way list holds all blocks, invalid, and the hash chains partition them |
| CacheSets.CacheSet.UpdateWayList | cache.c:193-257 | moves a block to the head or tail of the doubly linked list; none of the original assertions fails |
| CacheSets.CacheSet.UnlinkHtab | cache.c:144-174 | takes exactly that block off its hash chain |
| CacheSets.CacheSet.LinkHtab | cache.c:177-188 | puts it on the chain of its tag: the chains partition the blocks again |
| CacheSets.CacheSet.SearchWay | cache.c:552-560 | the way-list search finds the first valid line with the tag, or none |
| CacheSets.CacheSet.SearchChain | cache.c:540-550 | the hash search finds the very block the way-list search would find |
| CacheSets.CacheSet.Hit | cache.c:662-673 | a hit copies the data, sets the dirty bit on a write and under LRU moves the line to the front |
| CacheSets.CacheSet.BeginReplace | cache.c:566-587 | the replaced block is the tail of the way list (or the random choice), brought to the front and off its chain |
| CacheSets.CacheSet.EndReplace | cache.c:645-647 | the replaced block is back on a chain, and the chains partition the set |
| CacheImpl.Cache.constructor | cache.c:353-400 | creation yields the empty cache, with all sets disjoint and well linked |
| CacheImpl.Cache.EvictOld | cache.c:593-617 | a valid victim is counted, its address reported, and it is written back under its own address if dirty |
| CacheImpl.Cache.Refill | cache.c:593-650 | write-back, fetch and copy leave the store, counters and line that the access on values prescribes, dirty only by a write (see `DirtyExactly`) |
| CacheImpl.Cache.Access | cache.c:500-716 | an access is refused exactly when its checks fail; otherwise contents, counters, returned bytes and replaced address are those of the access on values, about which the rows of `CacheTransparency`, `CacheReplacement` and `CacheDirty` speak |
| CacheImpl.Cache.Probe | cache.c:722-758 | true exactly when the block is resident |
| CacheImpl.Cache.FlushAddr | cache.c:801-858 | the flush of a block is that on values |
| CacheImpl.Cache.FlushAll | cache.c:762-796 | the whole flush is that on values |
| Decoder.EntryStays | target-riscv64/riscv.c:444-451 | a definition stays in its slot while the rest of the table is built |
| Decoder.BuildsExactly | target-riscv64/riscv.c:439-460 | initialisation succeeds if and only if every directive finds its slot free, and in the table, where the directives before it say, and definitions then stand there |
| Decoder.KeyBitsMean | target-riscv64/riscv.h:287-287 | for every word a field of k bits from bit s on is (word / 2^s) % 2^k while s + k <= 32, and filled with the sign bit above |
| Decoder.WalkTerminates | target-riscv64/riscv.h:257-289 | in the tables of every connected description with distinct slots each link leads strictly upwards, so decoding ends on every word, legal or not |
| Decoder.ProgressExactly | target-riscv64/riscv.c:449-454 | where no opcode is connected twice, every link leads upwards if and only if every link is connected after its definition |
| Decoder.UnconnectedLoops | target-riscv64/riscv.h:286-288 | a link never connected keeps for ever every word that selects its own slot there |
| Decoder.DecodesToMatch | target-riscv64/riscv.h:257-289 | a word whose own bits follow the path of fields to an instruction decodes to exactly that instruction, within the table |
| Decoder.LeavesExactly | target-riscv64/riscv.h:287-287 | decoding leaves the table if and only if it reaches a link whose field plus offset exceeds the last index |
| Decoder.MatchLeaves | target-riscv64/riscv.h:287-287 | a word that matches a link and selects there an index past the table leaves it |
| Decoder.CleanLeavesExactly | target-riscv64/riscv.h:287-287 | where no word strays those are the only words that leave it |
| Decoder.CleanExactly | target-riscv64/riscv.h:257-289 | no word strays from the path of its fields if and only if every slot some word can select at a link, or at the top, holds a child of that link, or a top-level entry |
| Decoder.DecodeExact | target-riscv64/riscv.h:257-289 | under that condition a word decodes to an instruction if and only if it follows its path |
| Decoder.ForeignSlotDecodes | target-riscv64/riscv.def:435-468 | conversely a word that selects at a link an instruction of another group decodes to it without matching it |
| Decoder.TopLevelsDisjoint | target-riscv64/riscv.h:247-249 | compressed and full words never share a top-level slot (section 1.5 of the RISC-V Instruction Set Manual Volume I, 20191213) |
| Decoder.KindsDisjoint | target-riscv64/riscv.h:257-289 | no definition is matched by both a compressed and a full word |
| DecoderImpl.InstDecoder.constructor | target-riscv64/riscv.c:20-37 | the static tables hold the masks and shifts of the links |
| DecoderImpl.InstDecoder.Init | target-riscv64/riscv.c:439-460 | the directives build the table on values, or fail exactly when it cannot be built |
| DecoderImpl.InstDecoder.SetOpcode | target-riscv64/riscv.h:257-289 | the decode loop computes the walk, reporting an index past the table |
| DecoderImpl.UnconnectedLinkLoops | target-riscv64/riscv.c:449-454 | a description of one unconnected link on which word 3 is at index 3 after any number of steps |
| DecoderImpl.EnvironmentLeaves | target-riscv64/riscv.def:776-778 | on links like the environment calls' word 0xfff00073 leaves the table |
| DecoderImpl.IllegalWordDecodes | target-riscv64/riscv.def:435-468 | on links like the shift immediates' a word that matches nothing decodes to an instruction |
| ReturnStack.SlotContents | bpred.c:648-667 | after any calls and returns the top has moved by the net level and each slot holds what its last writer pushed |
| ReturnStack.ReturnPrediction | bpred.c:648-667 | a return is predicted as (call + 4) % 2^64 when nesting stays below the size, and otherwise from the last call that wrapped onto its slot |
| ReturnStack.RunPrediction | bpred.c:648-667 | the same between any call and its return inside any run |
| ReturnStack.RecoveredReturn | bpred.c:724-734 | after recovery the k-th return finds its old target unless the wrong path wrote that slot |
| ReturnStack.RecoveryExact | bpred.c:724-734 | recovery restores the top m entries after any wrong path whose calls stay within the other levels |
| Direction.L1IndexMeaning | bpred.c:503-504 | the first-level index is the branch address modulo the table size, in range |
| Direction.BimodIndexMeaning | bpred.c:486-488 | the one-level index is the folded branch address modulo the table size, in range |
| Direction.L2IndexMeaning | bpred.c:505-527 | for every 64-bit address and accepted configuration the second-level index is in range and made of history and address as documented |
| Direction.ShiftedMeaning | bpred.c:835-840 | the history update keeps the low bits of twice the register plus the outcome |
| Direction.HistoryIsRecentOutcomes | bpred.c:835-840 | each history register is the binary number of the last W outcomes mapped to it |
| Direction.CounterMispredictions | bpred.c:914-964 | a counter mispredicts at most once plus twice for each branch that went the rarer way |
| Direction.ConsistentRun | bpred.c:914-964 | when branches sharing a counter agree, a run of any length has at most one misprediction per counter |
| Btb.SetHoldsMostRecent | bpred.c:843-906 | a set lists exactly the most recently taken distinct branches that fit, in order, each with the target it last took |
| Btb.MatchesAreUnique | bpred.c:854-862 | two entries match an address if and only if it is 0 and at least two entries are unused |
| BtbTable.ChainEnds | bpred.c:864-878 | exactly one entry is the head and one the tail, and the dassert on equal neighbours holds |
| BtbTable.Scan | bpred.c:854-878 | one pass finds the matching entry, the head and the tail |
| BtbTable.MoveToHead | bpred.c:888-900 | the splice keeps the set one chain, with the entry first and all contents unchanged |
| BtbTable.Table.constructor | bpred.c:134-151 | initialisation chains the zeroed entries of each set in index order |
| BtbTable.Table.Lookup | bpred.c:670-699 | a lookup hits exactly when the set lists the branch, and returns a listed target |
| BtbTable.Table.Update | bpred.c:843-984 | a taken branch updates its set as the recency list prescribes and no other set |
| Predictor.CreateExact | bpred.c:129-162 | creation refuses exactly the sizes that are not powers of two and works exactly for those below 2^31, branch-target entries counted together |
| Predictor.OversizedBuffer | bpred.c:134-142 | 65536 sets of 65536 entries pass every check and get no entry |
| Predictor.LookupKeepsShape | bpred.c:554-718 | a lookup changes only the stack and the counts |
| Predictor.StepParts | sim-bpred.c:532-566 | one lookup-then-update step changes each set, register and the stack as the part models say |
| PredictorRuns.StepOk | bpred.c:744-985 | every step keeps all tables in shape, every index in range and every counter in 0..3 |
| PredictorRuns.CorrectIsStored | bpred.c:966-984 | a taken branch predicted correctly had its target stored, so skipping the write loses nothing |
| PredictorRuns.BtbOfRun | sim-bpred.c:541-566 | in every run of branches at nonzero addresses each set holds the most recently taken distinct branches, each with its last actual target |
| PredictorRuns.ReturnOfRun | bpred.c:639-667 | in every run a well-nested return within the depth of the stack is looked up to its call's address plus 4 |
| PredictorRuns.HistoryOfRun | bpred.c:827-841 | in every run from creation each history register is the binary number of its last W outcomes |
| PredictorLookups.LookupOfRun | bpred.c:554-718 | after every run from creation a lookup answers what the branches executed say: a conditional branch goes by the counter at (address bits * 2^W + last W outcomes, exclusive-or if so configured) % size, or at the folded address, of the component that the meta counter believes; the target is the one last taken if listed and 1 if not; a return gets the address after the call that last entered its level |
| PredictorLookups.RecoverOfRun | bpred.c:639-645 | a lookup leaves for recovery the index of the stack's top before it, which is the net nesting level of the run |
| PredictorLookups.CounterOfRun | bpred.c:914-964 | a direction counter is the saturating count of the outcomes of the branches that found it |
| PredictorLookups.MetaOfRun | bpred.c:945-965 | a meta counter is the saturating count of which component was right where they differed |
| PredictorLookups.WrongOfRun | bpred.c:583-603 | in every run, if branches that find the same counter of a component agree, the component gets at most as many wrong as it has counters, and the combination at most twice the better component and one for every second meta counter; places and votes by the history of the run |
| PredictorLookups.StatsOfRun | bpred.c:766-823 | after every run each statistic is the number of branches that it should count |
| PredictorMisses.CombinedMisses | bpred.c:583-603 | over every run the combining predictor gets at most twice as many directions wrong as the better component, plus one for every second meta counter |
| PredictorMisses.MissesCounted | bpred.c:766-771 | over every run the predictor's count of mispredictions is that of the counters' wrong directions plus that of jumps and returns |
| PredictorMisses.CountedMisses | bpred.c:766-771 | so where jumps go elsewhere and nothing is predicted from the stack the count obeys the same bounds |
| PredictorRuns.RunBalanced | bpred.c:771-823 | over every run the hit, miss, return and stack counts are in balance |
| PredictorImpl.BranchPredictor.constructor | bpred.c:67-175 | creation yields the tables of the model |
| PredictorImpl.BranchPredictor.Lookup | bpred.c:554-718 | prediction, update record and recovery index are those of the model |
| PredictorImpl.BranchPredictor.Update | bpred.c:744-985 | the update is that of the model |
| PredictorImpl.BranchPredictor.Execute | sim-bpred.c:541-566 | the simulated step is lookup then update |
| PredictorImpl.BranchPredictor.Recover | bpred.c:724-734 | recovery puts the top of stack back and nothing else |
| PredictorImpl.ReachableRowsUnique | bpred.c:854-862 | in every run of branches at nonzero addresses the assertion of the update loop holds |
| Memory.SplitInjective | memory.h:106-111 | two addresses with equal set, tag and offset are equal |
| Memory.PteAddrInverts | memory.h:114-116 | the address computed back from an entry is that of its page |
| Memory.LookupKeeps | memory.c:79-108 | move-to-front changes no byte and no page, and brings the page found to the front |
| Memory.MemoryIsFlat | memory.h:152-165 | whatever reads and writes are made every byte is that of flat memory, 0 by default |
| Memory.ReadsAreFlat | memory.h:152-154 | every read yields the last value written to its address, or 0 |
| Memory.PagesAreWritten | memory.c:111-139 | a page is present exactly when written, and the page count is the number of distinct pages written |
| Memory.RunCounters | memory.h:119-127 | over any run misses are at most operations, which are at most lookups, at most two each |
| MemoryOrder.BucketOrder | memory.c:79-108 | in every run each bucket lists its pages by their last use |
| MemoryOrder.CountersExactly | memory.h:119-127 | over every run lookups are two an access, one for a read of a page never written, and misses are the accesses whose page was not the last one used of its bucket |
| MemoryAccess.CheckedMeans | memory.c:149-158 | an access passes exactly when its size is a power of two up to a page that divides the address, or it has size 0 at address 0, or the least int for size at a multiple of 2^31 |
| MemoryAccess.InOnePage | memory.c:148-166 | an access let through stays within one page |
| MemoryAccess.BlockWritten | memory.c:346-367 | a block write changes exactly its bytes |
| MemoryAccess.BlockRoundTrip | memory.c:346-367 | a block written is read back |
| MemoryAccess.StringRoundTrip | memory.c:301-341 | a string written, and no other, is the string read back |
| MemoryImpl.MemorySpace.Translate | memory.c:79-108 | the bucket search finds the page and relinks its entry at the front |
| MemoryImpl.MemorySpace.AllocatePage | memory.c:111-139 | a zeroed page is put at the front of its bucket |
| MemoryImpl.MemorySpace.ReadByte | memory.h:152-154 | a read returns the byte and allocates nothing |
| MemoryImpl.MemorySpace.WriteByte | memory.h:163-165 | a write tickles the page and changes that byte only |
| MemoryImpl.MemorySpace.AccessWrite | memory.c:141-223 | a write access faults exactly when its checks fail, then changing nothing, and otherwise writes its bytes |
| MemoryImpl.MemorySpace.AccessRead | memory.c:141-223 | a read access faults exactly when its checks fail, and otherwise returns the bytes |
| MemoryImpl.MemorySpace.StrcpyWrite | memory.c:301-341 | copies a string with its terminator into memory |
| MemoryImpl.MemorySpace.StrcpyRead | memory.c:301-341 | copies the string at an address out of memory, and nothing behind it |
| MemoryImpl.MemorySpace.BcopyWrite | memory.c:346-367 | copies a block in |
| MemoryImpl.MemorySpace.BcopyRead | memory.c:346-367 | copies a block out |
| MemoryImpl.MemorySpace.Bzero | memory.c:399-417 | zeroes exactly the bytes asked for |
| Trace.MirrorsWhileCapturing | ptrace.c:90-112 | mirroring is on exactly while the state is not idle |
| Trace.LinesOfStage | ptrace.c:340-381 | a stage logs its own line, and exactly if one of the five low bits of its event mask is set a second one that names the lowest of them |
| Trace.SegmentsExact | ptrace.c:297-382 | every dumped segment runs from a first miss (mask bit 0) to the 50th new cycle after the last miss and holds exactly the lines logged meanwhile; only the first is preceded by the latest 128 lines of the ring |
| Trace.NoLateDump | ptrace.c:313-323 | a segment is dumped as soon as it is complete |
| TraceImpl.Pushed | ring_buffer.c:44-51 | a push adds one entry to the window at the cost of the oldest when full |
| TraceImpl.RingBuffer.PushRaw | ring_buffer.c:53-65 | the ring always holds the last pushes since it was cleared |
| TraceImpl.RingBuffer.Visit | ring_buffer.c:84-95 | entries are visited from the oldest to the newest, each once |
| TraceImpl.RingBuffer.CopyLast | ring_buffer.c:145-161 | copies the latest entries in order, as many as asked for, present and fitting |
| TraceImpl.CaptureBuf.Append | capture_buf.c:28-39 | appends one line, growing the buffer as needed |
| TraceImpl.Tracer.RbLogf | ptrace.c:101-108 | a line goes to the ring, and to the capture buffer while mirroring |
| TraceImpl.Tracer.DumpAndReset | ptrace.c:122-132 | dumps the captured lines and returns to idle |
| TraceImpl.Tracer.ReportCycle | ptrace.c:297-323 | the new-cycle step is that of the model |
| TraceImpl.Tracer.ReportStage | ptrace.c:329-382 | the stage step is that of the model, which logs the lines of `LinesOfStage` |
| EventQueue.EnqueueOk | eventq.c:76-105 | queueing keeps the pending events sorted by time, the latest queued first among ties, and apart in number |
| EventQueue.EnqueueAllMultiset | eventq.c:76-105 | queueing adds exactly the new events |
| EventQueue.LostExactly | eventq.c:255-269 | an event queued by a callback is lost exactly when its time is not after that of the event serviced |
| EventQueue.SameTimeLost | eventq.c:255-269 | a callback that queues for the time being serviced loses the event |
| EventQueue.ServiceOk | eventq.c:255-269 | after servicing only later events are pending, and only due events have fired |
| EventQueue.FiredInOrder | eventq.c:255-269 | events fire in nondecreasing time, last in first out among ties |
| EventQueue.ServiceConserves | eventq.c:255-269 | what was pending or queued meanwhile has fired, is pending, or is lost |
| EventQueue.NoneLost | eventq.c:255-269 | no event is lost if and only if every callback queues strictly later than the event it serves |
| EventQueue.FiredExactly | eventq.c:255-269 | then exactly the events due fire |
| EventQueue.MadeExactly | eventq.c:161-180 | the events queued meanwhile are what the fired callbacks ask for when told the time of service, numbered on in firing order |
| EventQueue.ToldNow | eventq.c:255-262 | servicing depends on what callbacks do at the time of service alone: handlers that agree there serve alike |
| EventQueue.RemoveExact | eventq.c:223-252 | removal takes out one event with the id, if there is one, and nothing else |
| EventQueue.RemoveNamed | eventq.c:223-252 | it is the event named, while pending events span fewer than 2^32 ids |
| EventQueue.ExecuteExact | eventq.c:186-218 | execution removes the event and adds what its callback queues when told time 0 |
| EventQueue.ToldZero | eventq.c:186-206 | execution by id depends on what callbacks do at time 0 alone |
| EventQueueImpl.EventList.QueueEvent | eventq.c:76-105 | links a descriptor in where it belongs, taking a free one if there is one; none held is given up |
| EventQueueImpl.EventList.ServiceEvents | eventq.c:255-269 | the loop services the queue as on values, firing the same events; with timely callbacks no descriptor is given up |
| EventQueueImpl.EventList.RemoveEvent | eventq.c:223-252 | removal as on values; the same descriptors are held |
| EventQueueImpl.EventList.ExecuteEvent | eventq.c:186-218 | execution as on values; no descriptor is given up |
| Numbers.MagnitudeOfDigits | misc.c:550-650 | the digits of a number have that number as their value in the same base |
| Numbers.SignedRoundTrip | misc.c:550-650 | any 64-bit value printed with %ld, padded or not, is read back; only the least one with a range error |
| Numbers.UnsignedRoundTrip | misc.c:550-650 | any 64-bit value printed with %lu, %lo or %lx is read back in that base |
| Numbers.PrintedForm | misc.c:697-744 | a printed number fills its width exactly or is as long as its sign and digits: blanks before the sign or zeros after it, no leading zero, and letters only in hexadecimal, capital for %lX and small for %lx |
| Numbers.SignedReads | misc.c:792-885 | behind any white space the signed parser reads a sign, a mark of base 16 and digits up to the first character that is none, with their value limited to the range |
| Numbers.UnsignedReads | misc.c:899-988 | the unsigned parser reads the same without a sign |
| NumbersImpl.DigitStep | misc.c:404-416 | the digit step is right for every quotient although it is computed in 32 bits |
| NumbersImpl.LowDigit | misc.c:404-416 | splits the low decimal digit off a value with its top bit set |
| NumbersImpl.PutDecimal | misc.c:575-592 | writes exactly the decimal digits before a position |
| NumbersImpl.FormatInt | misc.c:697-744 | one conversion with width and zero flag produces the specified text |
| NumbersImpl.CutTest | misc.c:837-867 | the test before each digit fires if and only if the next value would exceed the limit |
| NumbersImpl.ConvertDigits | misc.c:840-867 | for a numeral of any length, overflow is flagged if and only if its value exceeds the limit; otherwise the value is exact |
| NumbersImpl.MyAtosq | misc.c:792-885 | signed parsing is the specified one, range error and end position included |
| NumbersImpl.MyAtoq | misc.c:899-988 | unsigned parsing is the specified one |
| Crc.ByteStepDivides | misc.c:1176-1192 | one table step is eight steps of division |
| Crc.UpdateAllDivides | misc.c:1176-1192 | the table-driven check of any word sequence is bit-at-a-time division by the polynomial |
| Crc.ByteOneLeaves | misc.c:1147-1150 | from a clear register the byte 1 leaves the number 0x04c11db7 |
| Crc.BurstDetected | misc.c:1147-1150 | any change within 32 consecutive bits changes the check |
| Crc.Checker.Remainder | misc.c:1154-1172 | a table entry is the remainder of its byte |
| Crc.Checker.Check | misc.c:1176-1192 | the update builds the table once and then steps through the four bytes |
| Eval.PeekKeeps | eval.c:212-223 | a peek loses no token, except that an unrecognised character is dropped |
| Eval.PeekUses | eval.c:212-223 | unread input never grows, and shrinks with every token taken |
| Eval.OverrunExact | eval.c:154-204 | evaluation overruns the token buffer exactly when a token up to where it stops is too long |
| Eval.ExprReads | eval.c:1037-1067 | from any position an expression is evaluated to its right-associative value, leaving the input just behind it |
| Eval.EvalReads | eval.c:1096-1124 | any spelling of an expression evaluates to its value or leftmost error, with the end pointer behind it; a successful one overruns the buffer exactly if one of its tokens or the next is too long |
| EvalExact.EvalExactly | eval.c:938-1067 | on every text evaluation succeeds if and only if the text is read as an expression whose every part is defined, and gives its value |
| EvalExact.TidyReads | eval.c:121-223 | a text without unrecognised characters is read as an expression if and only if it begins with its tokens and nothing follows that would go on with it |
| EvalExact.UntidyRead | eval.c:212-223 | the text `1#+1` is read as a sum that it does not spell |
| EvalExact.DivisionByZero | eval.c:1013-1023 | a division of defined sides whose right one is zero gives that error |
| EvalExact.NoFactor | eval.c:985-988 | where no factor starts the error is a missing term |
| EvalExact.NotClosed | eval.c:947-960 | an expression behind an opening parenthesis without its closing one gives that error |
| Eval.CharKinds | eval.c:84-116 | letters, underscore and dollar start names, digits and points numerals, and of the rest exactly the six operators are tokens, each its own |
| Eval.NumeralsAreTokens | eval.c:140-190 | decimal numerals are one token each, with an exponent or without |
| Eval.HexNumerals | eval.c:140-190 | hexadecimal numerals are one token each |
| Eval.PrintedEvaluates | dlite.h:82-90 | the printed form of every syntax tree whose names and numerals are tokens evaluates to its value and is used up, if its tokens fit |
| Eval.LongNameOverruns | eval.h:91-91 | a name of 512 letters overruns the buffer |
| EvalImpl.Evaluator.GetNextToken | eval.c:121-206 | the tokenizer reads the specified token and writes only inside its buffer |
| EvalImpl.Evaluator.PeekNextToken | eval.c:212-223 | the peek is the specified one |
| EvalImpl.Evaluator.EvalFactor | eval.c:938-991 | the method computes the specified value, error and state |
| EvalImpl.Evaluator.EvalTerm | eval.c:996-1032 | the same for terms |
| EvalImpl.Evaluator.EvalExpression | eval.c:1037-1067 | the same for expressions |
| EvalImpl.Evaluator.Evaluate | eval.c:1096-1124 | the same for a whole string |
| Eio.RecordExact | eio.c:492-565 | expanding the coalesced blobs gives exactly the bytes accessed, within their allocations |
| Eio.BlobsExactly | eio.c:528-557 | an access goes to the blob of the one before if and only if it follows on where that ended and the blob stays shorter than its first access and 256 bytes more |
| Eio.FatalExactly | eio.c:504-508 | recording fails exactly when some read follows some write |
| Eio.SessionFaithful | eio.c:492-565 | inputs hold exactly what was read and outputs what was written |
| Eio.CheckExactly | eio.c:707-732 | the input check passes exactly when memory holds every recorded byte |
| Eio.ReplayReproduces | eio.c:707-807 | a recorded session replays from the same bytes with every check passing and ends in the same memory |
| EioImpl.MemRec.RecordAccess | eio.c:492-565 | an access extends the last blob or starts a new one as specified |
| EioImpl.CheckInputs | eio.c:707-732 | the loop passes exactly when the check on values does |
| EioImpl.WriteOutputs | eio.c:781-807 | the loop writes exactly the recorded bytes |
| EioImpl.ReplayTrace | eio.c:707-807 | replay succeeds exactly when the replay on values does, with the same memory |

## Left out

- CacheImpl.Cache.constructor: requires fewer than 2^31 blocks, as every result from creation does; with more, storage is missing (`CreateExact`, `OversizedCache`).
- PredictorImpl.BranchPredictor.constructor: requires sizes that fit their ints, for the same reason (`OversizedBuffer`).
- DecoderImpl.InstDecoder.SetOpcode: requires tables in which links lead upwards; in others the original may never return (`ProgressExactly`).
- CacheImpl.Cache.Access: requires an access that ends the address space to be no larger than a block, since the wrapped check would let it run past its block (`TwoBlocksAccepted`).
- PredictorRuns.BtbOfRun: requires every return to be an indirect jump, as `riscv.h` defines them; otherwise a return predicted by the stack could leave a stale target behind.
- PredictorLookups.LookupOfRun: requires branches at nonzero addresses, since an unused entry matches address 0 (`MatchesAreUnique`), and returns that are indirect jumps.
- PredictorLookups.StatsOfRun: requires the same.
- PredictorMisses.MissesCounted: leaves out branches at address 0, at 2^64 - 3, or to 0, whose targets read as marks for not taken or taken.
- PredictorRuns.ReturnOfRun: no instruction of the shipped machine description carries the call flag, so with it the stack is never pushed.
- EvalImpl.Evaluator.GetNextToken: requires that no token read is too long for its buffer, which the original does not check (`OverrunExact`).
- EvalImpl.Evaluator.PeekNextToken: requires that no token read is too long for its buffer, which the original does not check (`OverrunExact`).
- EvalImpl.Evaluator.EvalFactor: requires that no token read is too long for its buffer, which the original does not check (`OverrunExact`).
- EvalImpl.Evaluator.EvalTerm: requires that no token read is too long for its buffer, which the original does not check (`OverrunExact`).
- EvalImpl.Evaluator.EvalExpression: requires that no token read is too long for its buffer, which the original does not check (`OverrunExact`).
- EvalImpl.Evaluator.Evaluate: requires that no token read is too long for its buffer, which the original does not check (`OverrunExact`).
- MemoryImpl.MemorySpace.StrcpyRead: requires a terminating zero within the host buffer, as the original does of its caller.
- Cache timing: latencies, `bus_free`, ready times, subblock positions, user data, and statistics printing.
- The `cache_fast_hit` path, which is unreachable: its test is commented out (cache.c:532-538).
- Block data is a sequence held by the block, not bytes behind its header; the next level's own call is a recorded transfer, not a nested call.
- Static predictors, and the counts `used_2lev` and `used_bimod`, which read an uninitialised flag for predictors without a meta table.
- Instruction semantics, register files and the execution loops, apart from the lookup-then-update step.
- A directive whose slot check lies past the table counts as a failure of initialisation, while the original reads past the array there.
- Formatting of trace lines, their truncation to the entry size, and the output stream.
- Effects of events on bits, flags and counters; a callback is known by what it queues, which may differ from event to event. The limit on queued events, whose counter is never incremented. Times are unbounded integers.
- Floating-point conversions, string and character conversions, and int-sized arguments of the formatter; left justification.
- In the digit step, signed overflow of a C int is taken to wrap around.
- Value types, symbol lookup and the conversion of a constant's text are parameters of the evaluator; an identifier's evaluation does not move the input. Characters are those of 7-bit text without NUL.
- EIO registers, checkpoints, term input and output, faults during recording, and console output.
- Allocation failure, wall-clock time, and the pseudo-random generator.
