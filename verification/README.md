# FalconKV, modelled and proved in Dafny

FalconKV is a key-value cache for large values. A *store* keeps the bytes in fixed slots of one data
file, an index of keys in memory, and tells a *Meta* server which keys it holds; *clients* ask Meta
where a key is and read its bytes straight from the file or over the network. This project models
the parts whose correctness is least obvious and proves their laws over every input and every run.

`dafny verify dfyconfig.toml` checks all of it.

## How the model is built

- Each class of the source is a Dafny class with the same fields and loops. A ghost `View` gives its
  abstract value, and every method is proved equal to a specification function on that value.
- The laws are proved about the specification functions, over whole runs of operations.
- What the code cannot decide is a parameter: the clock, whether an RPC was delivered, lost its
  reply or was never applied (`Rpc`), whether a write or a read succeeded, which ticks of the
  background threads come between. All theorems hold for every value of these.

| Files | Source |
|---|---|
| `SlotAllocator`, `SlotCapacity`, `StoreMetaIndex`, `PendingEvictQueue`, `EvictManager` | the four owners of slots |
| `StoreSpace`, `StoreOps`, `StoreProgress`, `FalconKVStore` | the store that ties them together, its reclaim ladder, `Put`, `BatchPut`, `Get`, `Remove` |
| `StoreSteps`, `StoreRuns`, `StoreTraces`, `StoreBatches`, `StoreHistory` | every operation as a run of small steps, what each step keeps |
| `StoreTheorems`, `StorePresence`, `StoreAnnouncements`, `StoreBatchLaws`, `StoreBatchRefinement` | the laws over runs of operations; `BatchPut` against `Put` |
| `StoreReclaim`, `StoreCatchUp` | which slots come back and which keys go when room is made; what Meta has once queued commits arrive |
| `StaleCandidates` | eviction from a list made earlier, two evictors at once |
| `MetaManager`, `MetaSyncClient` | Meta's sharded table; the store's lossy link to it |
| `KeyDescCache`, `FalconKVClient`, `BatchReadFraming` | the client's descriptor cache, its grouped reads, the framing of a remote batch read |
| `EndToEnd` | from a put at the store, by Meta and the grace period, to a client's buffer |
| `NodeStats`, `FalconKVBridge` | the ring of statistics windows; the fire-and-forget worker queue |

Slots pass through five owners: never used, in an operation's hands, indexed, waiting out a grace
period, free. `Conserved` is the ledger between them; a `World` adds the file, what was leaked to
overwritten records and the bytes last stored under each key. `Sound` is what every run keeps: the
ledger balances, each indexed key's slot holds the bytes put, and Meta names only indexed slots.

## Model

| member | source | states |
|---|---|---|
| StoreTheorems.StoreIsLossyMap | src/store/falconkv_store.cpp:437-688 | after any run of regular operations, `Get` finds nothing for an unindexed key, and for an indexed one returns exactly the bytes the clients were last told were stored (which keys are indexed is `StorePresence`) |
| EndToEnd.ClientReadsLastStored | src/client/falconkv_client_impl.cpp:561-638 | a store that tells Meta of every removal runs; a client asks Meta; the store runs on for less than the grace period; the client reads the file where Meta has the store registered, on its own node or at its address; a positive result then means its buffer is what was last stored under the key if and only if it is of that size, and its front if smaller |
| EndToEnd.ClientReadSucceeds | src/client/falconkv_client_impl.cpp:561-638 | and the result is positive, the buffer's size, if no more is asked than the record holds and the file can be read, or over the network the whole group served |
| EndToEnd.LearntIsReadWhereRegistered | src/client/falconkv_client_impl.cpp:583-606 | a key learnt from Meta is read from its store's file on the client's node, whatever the files hold, if and only if the store's registered node is not zero and is the client's; else at the store's registered address |
| EndToEnd.ReadWhereRegistered | src/client/falconkv_client_impl.cpp:326-559 | so is one in the cache that is still up to date, or at the last address heard of a store that registered none |
| EndToEnd.MetaRecordLasts | src/store/pending_evict_queue.cpp:44-92 | what Meta says of a key leads to the bytes last stored under it for less than the grace period, whatever is evicted meanwhile |
| EndToEnd.GoesByMeta | src/client/falconkv_client_impl.cpp:561-638 | a client whose cache has nothing of a key, or nothing out of date, goes by the slot in Meta's record and by where its store is registered, for any mix of hits, misses and repeated keys |
| StorePresence.PutIsPresent | src/store/falconkv_store.cpp:437-514 | `Put` answers Ok only with the key in the index |
| StorePresence.BatchIsPresent | src/store/falconkv_store.cpp:522-653 | an item of a batch answered as stored has its key in the index when the batch ends |
| StorePresence.PutThenGet | src/store/falconkv_store.cpp:437-688 | after a `Put` answered as stored, `Get` returns exactly its bytes |
| StorePresence.BatchThenGet | src/store/falconkv_store.cpp:522-688 | and after a regular batch, the bytes of the last item stored under the key |
| StorePresence.LastFailureTells | src/store/falconkv_store.cpp:325-376 | a batch's writes are all made, and its status is that of the last one that failed, Ok if none did |
| StorePresence.WrittenItemsAreTold | src/store/falconkv_store.cpp:604-653 | every item that was written is answered with that status: one failed write fails them all |
| StorePresence.MismatchRefused | src/store/falconkv_store.cpp:522-536 | a batch with more keys than values, or fewer, is refused for every key and changes nothing |
| StorePresence.RemoveAnswersIff | src/store/falconkv_store.cpp:709-731 | `Remove` answers RpcError if and only if Meta failed, and then removes nothing; NotFound if the key was not indexed, else Ok |
| StorePresence.OpKeepsKey | src/store/falconkv_store.cpp:437-731 | an indexed key stays indexed over every operation but its own removal and those that find no free slot, no waiting one old enough, or too high a usage |
| StorePresence.PresentStaysReadable | src/store/falconkv_store.cpp:437-731 | so over any run without those it stays readable, with the bytes last stored |
| StorePresence.ReadGoesToFront | src/store/falconkv_store.cpp:658-688 | a read of an indexed key, whatever comes of it, moves it to the front of the list eviction takes from the end of, and the others keep their order |
| StorePresence.PutGoesToFront | src/store/falconkv_store.cpp:437-514 | so does a put answered Ok, of a key there before or new |
| StorePresence.KnownBatchGoesToFront | src/store/falconkv_store.cpp:522-547 | a batch of keys already there is answered Ok for each, and moves them to the front in turn |
| StorePresence.EmptyIsNeverPut | src/store/falconkv_store.cpp:248-256 | `Put` stores no record without bytes |
| StorePresence.EmptyItemIsUnreadable | src/store/falconkv_store.cpp:325-376 | a batch stores one if and only if its write path accepts an empty item, and then no `Get` returns it |
| StoreTheorems.EverySlotHasOneHolder | src/common/slot_allocator.cpp:82-176 | in every reachable state each slot has exactly one holder among virgin region, free stack, index, eviction queue and leaks, and the used count is their sum |
| StoreTheorems.DescriptorsOutliveEviction | src/store/pending_evict_queue.cpp:44-92 | the bytes behind a descriptor stay those of its key over any run without a forced flush, unless the slot waited out its grace period in that run |
| StoreTheorems.DescriptorsLastForGrace | src/store/pending_evict_queue.cpp:44-92 | over any run shorter than the grace period and without a forced flush the bytes behind a descriptor are unchanged |
| StoreTheorems.MetaNamesOnlyIndexedSlots | src/store/evict_manager.cpp:86-107 | after any run a Meta record of this store names its key's indexed slot, in use and not waiting, but for keys whose removal Meta was not told |
| StoreAnnouncements.MetaNamesLiveBytes | src/store/evict_manager.cpp:81-160 | if Meta is connected with no commit queued at every removal and at the start of every ladder or pass that evicts, whatever replies are lost, the slot a Meta record names is that key's own and holds the bytes last stored |
| StoreAnnouncements.OpTells | src/store/falconkv_store.cpp:709-731 | an operation that finds Meta so leaves no removal untold; a reply lost in one item's ladder matters only if another ladder follows in the batch |
| StoreCatchUp.MetaCatchesUp | src/store/meta_sync_client.cpp:90-212 | Meta misses nothing: over any run that stays connected, one answered turn of the commit thread later Meta has every indexed key at its own slot |
| StoreCatchUp.OpPublishes | src/store/falconkv_store.cpp:437-731 | every operation that ends connected keeps every indexed key at Meta or on its way there, but for a put of a key whose older commit is still queued |
| StoreCatchUp.ReconnectPublishes | src/store/meta_sync_client.cpp:347-392 | a reconnection that ends connected with no commit queued makes up for everything missed |
| StoreCatchUp.QueuedCommitWinsIff | src/store/meta_sync_client.cpp:140-212 | after such a put and a turn Meta has what the queued commit says, the new slot if and only if it says so too |
| StoreCatchUp.LateCommitMisleads | src/store/meta_sync_client.cpp:140-212 | a key put in a batch, removed and put again before the turn: Meta names the old slot, which waits to be rewritten |
| StoreTheorems.PutRunsOutIff | src/store/falconkv_store.cpp:449-482 | `Put` answers NoSpace if and only if the key is new and the size inadmissible, or every slot is taken, none waits and nothing can be evicted |
| StoreTheorems.PutNeverRunsOut | src/store/falconkv_store.cpp:449-482 | after any run a `Put` of an admissible size never runs out of space when Meta answers or is not connected |
| StoreTheorems.BatchRunsOutMeansFull | src/store/falconkv_store.cpp:568-598 | a NoSpace answer in a batch means earlier keys of that batch, and earlier leaks, hold every slot |
| StoreTheorems.BatchNeverRunsOut | src/store/falconkv_store.cpp:568-598 | so a batch of no more new keys than the store has slots never runs out |
| StoreTheorems.OpKeepsSound | src/store/falconkv_store.cpp:437-731 | every regular operation keeps the ledger, the contents and Meta's agreement |
| StoreTheorems.OpsKeepSound | src/store/falconkv_store.cpp:437-731 | so does every run, and what is stored is what the answers said |
| StoreTheorems.StartIsSound | src/store/falconkv_store.cpp:96-189 | a new store is sound |
| StoreHistory.BatchNotes | src/store/falconkv_store.cpp:522-653 | the answers of a batch tell exactly which bytes it stored under each key, and the batch keeps no slot in hand |
| StoreProgress.LadderFailsIff | src/store/falconkv_store.cpp:452-482 | the three-level reclaim ladder finds no slot if and only if the size is inadmissible, or the store is full, nothing waits and nothing can be evicted |
| StoreProgress.PlaceFailsIff | src/store/falconkv_store.cpp:449-482 | the same with the direct attempt before the ladder |
| StoreProgress.PutNeverNoSpace | src/store/falconkv_store.cpp:449-482 | a slot is found unless the operation under way and earlier leaks hold them all |
| StoreProgress.NoSpaceMeansAllHeld | src/store/falconkv_store.cpp:580-598 | a failed ladder with a willing Meta means exactly that |
| StoreReclaim.PutReusesOldSlots | src/store/falconkv_store.cpp:449-482 | while some waiting slot is as old as the grace period at the first flush, a `Put` of an admissible size finds a slot, evicts nothing, tells Meta of no removal and cuts no grace period short |
| StoreReclaim.BatchReusesOldSlots | src/store/falconkv_store.cpp:538-598 | so does a batch whose new items all have slots that are free or old enough at the first ladder |
| StoreReclaim.PutEvictsExactly | src/store/falconkv_store.cpp:449-482 | otherwise exactly the shortest run of coldest keys covering the larger of the size and a twentieth of the capacity leaves, but for 64 keys a round, an empty index or a failing Meta; and the queue is flushed by force if and only if no entry, old or new, is old enough at the second flush |
| StoreReclaim.LadderEvictsTarget | src/store/falconkv_store.cpp:580-598 | the same of each ladder of a batch |
| StoreReclaim.FailedPutFlushesAll | src/store/falconkv_store.cpp:471-482 | a put that ends without a slot has flushed the whole queue by force |
| StoreReclaim.TickFreesTheOld | src/store/pending_evict_queue.cpp:44-69 | after a turn of the queue's thread an entry waits if and only if it did and `now < enqueued + grace`, and exactly the waiting slots are in use |
| StoreReclaim.FlushFreesTheOld | src/store/pending_evict_queue.cpp:71-92 | the same of `FlushExpired` |
| StoreReclaim.RemovedSlotComesBack | src/store/pending_evict_queue.cpp:17-69 | a removed key's slot is in use after a later turn if and only if that is less than the grace period later |
| StoreReclaim.FlushReportsBytes | src/store/pending_evict_queue.cpp:86-92 | a flush reports the bytes by which the used space shrinks |
| StoreOps.ForceEvictQueues | src/store/evict_manager.cpp:112-160 | forced eviction queues at least one slot unless there is nothing to evict, nothing asked for, or Meta fails at once |
| StoreRuns.RunKeepsOwned | src/store/falconkv_store.cpp:437-731 | every run of small steps keeps the ledger |
| StoreRuns.RunKeepsContents | src/store/falconkv_store.cpp:437-731 | every strict run keeps each indexed key's bytes and Meta's agreement |
| StoreRuns.RunLeaksNothing | src/store/falconkv_store.cpp:484-514 | a strict run loses no slot |
| StoreRuns.GraceWindow | src/store/pending_evict_queue.cpp:17-92 | a held slot stays held and unwritten until it has waited out its grace period |
| StoreRuns.GraceNotOver | src/store/pending_evict_queue.cpp:44-92 | in a run shorter than the grace period no slot queued meanwhile has waited long enough |
| StoreRuns.MetaNeverDanglesInRuns | src/store/evict_manager.cpp:86-149 | over runs that tell Meta of every removal, a slot named by Meta is its key's own, is not free, waiting or in hand, and holds the bytes put |
| StoreSteps.StepKeepsAgreement | src/store/meta_sync_client.cpp:90-250 | every step keeps Meta's records on indexed slots, whatever happened to each RPC |
| StoreSteps.OnlySkippedIsUnannounced | src/store/meta_sync_client.cpp:214-250 | only a removal skipped for disconnection, or met by a queued commit, can leave Meta untold |
| StoreSpace.IndexConserves | src/store/falconkv_store.cpp:484-514 | indexing moves a slot from the operation to the index, and the slot of an overwritten record to nobody |
| StoreSpace.RemoveConserves | src/store/falconkv_store.cpp:709-731 | removing moves a slot from the index to the queue |
| StoreSpace.FlushExpiredConserves | src/store/pending_evict_queue.cpp:71-92 | a flush moves exactly the expired entries' slots from the queue to the free stack |
| StoreSpace.IndexedSlot | src/store/falconkv_store.cpp:484-514 | an indexed slot is in use, is held by nothing else and by no other key |
| StoreBatchLaws.BatchLeaksIff | src/store/falconkv_store.cpp:604-653 | a batch leaks one slot for each repeated key, so none if and only if its placed keys are distinct |
| StoreBatchLaws.RoomyBatchLeaksIff | src/store/falconkv_store.cpp:538-653 | with room for all, if and only if the new keys are distinct |
| StoreBatchLaws.RepeatedKeyLeaks | src/store/falconkv_store.cpp:604-653 | one new key twice in a batch loses a slot |
| StoreBatchLaws.WritesStayInsideIff | src/store/falconkv_store.cpp:549-598 | every write of a batch stays inside its slot if and only if no item placed by the batch allocation, which checks only the first, is larger than the slot |
| StoreBatchLaws.RoomyWritesStayInsideIff | src/store/falconkv_store.cpp:549-566 | with room for all, if and only if no new item is larger than the slot |
| StoreBatchLaws.BatchNoSpaceMeansFull | src/store/falconkv_store.cpp:568-598 | an item without a slot means earlier items and leaks hold them all |
| StoreBatchLaws.RepeatTakesRoom | src/common/slot_allocator.cpp:102-151 | a batch allocation takes what it asks for or all the room there is |
| StoreBatchRefinement.BatchIsOneByOne | src/store/falconkv_store.cpp:522-653 | with room, distinct new keys and successful writes, a batch leaves the allocator, file, index, LRU order and answers of one put after another |
| StoreBatchRefinement.BatchReachesMetaLater | src/store/falconkv_store.cpp:631-652 | and once its queued commit is delivered, Meta's table too |
| StoreBatchRefinement.OversizedItemIsCorrupted | src/store/falconkv_store.cpp:549-566 | an item larger than the first runs over into the next slot and reads back wrong |
| StoreTraces.PutRun | src/store/falconkv_store.cpp:437-514 | `Put` is a run of the small steps |
| StoreBatches.BatchPutRun | src/store/falconkv_store.cpp:522-653 | so is `BatchPut`, strict when the batch is regular |
| StoreTraces.PassRun | src/store/evict_manager.cpp:45-70 | and so is a pass of the watermark thread |
| KVStore.FalconKVStore.constructor | src/store/falconkv_store.cpp:96-189 | the store starts empty around its file and link |
| KVStore.FalconKVStore.Put | src/store/falconkv_store.cpp:437-514 | the code with its ladder, write, give-back, index and commit does what the specification says |
| KVStore.FalconKVStore.BatchPut | src/store/falconkv_store.cpp:522-653 | likewise, with its phases and result loops |
| KVStore.FalconKVStore.ReclaimAndAlloc | src/store/falconkv_store.cpp:452-482 | the ladder is the specified one and keeps the ledger |
| KVStore.FalconKVStore.Get | src/store/falconkv_store.cpp:658-688 | a hit returns the slot's bytes and moves to the front; a missing key, a short buffer, an empty record and a failed read are told apart |
| KVStore.FalconKVStore.Contains | src/store/falconkv_store.cpp:693-698 | presence, and a touch |
| KVStore.FalconKVStore.Remove | src/store/falconkv_store.cpp:709-731 | Meta first, then the index, then the queue; nothing happens if Meta fails |
| KVStore.FalconKVStore.QueueTick | src/store/pending_evict_queue.cpp:44-69 | a tick of the queue's thread is a flush of what expired |
| KVStore.FalconKVStore.WatermarkTurn | src/store/evict_manager.cpp:45-70 | a pass of the watermark thread |
| KVStore.FalconKVStore.CommitTurn | src/store/meta_sync_client.cpp:170-212 | a turn of the commit thread sends the whole queue as one request |
| KVStore.FalconKVStore.Reconnected | src/store/meta_sync_client.cpp:315-392 | a reconnection resynchronises the index |
| SlotAllocation.SlotAllocator.constructor | src/common/slot_allocator.cpp:9-26 | a fixed slot size lays the file out at once, with at least one slot; zero defers it (how many slots: `SlotCapacity`) |
| SlotAllocation.SlotAllocator.Alloc | src/common/slot_allocator.cpp:46-100 | free stack first, then the virgin region; a fresh slot in use, or -1 |
| SlotAllocation.SlotAllocator.BatchAlloc | src/common/slot_allocator.cpp:102-151 | the two loops give the offsets and state of repeated `Alloc` |
| SlotAllocation.SlotAllocator.Free | src/common/slot_allocator.cpp:153-176 | does what the specification says for every offset, held or not; ignores negative, misaligned and out-of-range ones; stays well formed when the offset is in use |
| SlotAllocation.AllocCorrect | src/common/slot_allocator.cpp:46-100 | an allocated offset was not in use and now is; failure only on a bad size or a full file |
| SlotAllocation.FreeCorrect | src/common/slot_allocator.cpp:153-176 | freeing an offset in use takes exactly it out of use |
| SlotAllocation.FreeKeepsWfIff | src/common/slot_allocator.cpp:153-176 | `Free` keeps the allocator well formed if and only if it is ignored or the slot it computes is in use |
| SlotAllocation.DoubleFreeAliases | src/common/slot_allocator.cpp:174-175 | freeing any held offset twice makes the next two allocations return it |
| SlotAllocation.RepeatAllocCorrect | src/common/slot_allocator.cpp:133-150 | batch offsets are distinct, new and in use; fewer than asked only when full |
| SlotAllocation.InUseDisjoint | src/common/slot_allocator.cpp:99-99 | different slots in use do not overlap |
| SlotAllocation.LayoutWf | src/common/slot_allocator.cpp:17-24 | the layout has at least one slot and a 32-bit count for every capacity |
| SlotAllocation.OffsetsFitInt64 | src/common/slot_allocator.cpp:55-58 | capacities below 2^63 give offsets that fit the signed type |
| SlotCapacity.CapacityInSlots | src/common/slot_allocator.cpp:17-61 | a store, laid out at once or by its first allocation, has as many slots as fit whole into the capacity, one if none does, and the low 32 bits of that number beyond |
| SlotCapacity.NewStoreGrants | src/common/slot_allocator.cpp:46-151 | a new store grants exactly that many allocations, at 0, z, 2z and so on |
| SlotCapacity.FreedIsNext | src/common/slot_allocator.cpp:82-176 | the slot freed last is handed out next, and the allocator is then as before the free |
| SlotCapacity.SizesTaken | src/common/slot_allocator.cpp:46-80 | a fixed slot takes every size up to its own; an open one any size but zero first and then only that size |
| SlotCapacity.StrayFreesIgnored | src/common/slot_allocator.cpp:153-173 | a free of a negative, misaligned or too large offset, or before the layout, changes nothing |
| MetaIndex.ListIsRecency | src/store/store_meta_index.cpp:20-173 | over every run the list holds exactly the committed keys, once each, most recently used first |
| MetaIndex.CommitOnce | src/store/store_meta_index.cpp:124-139 | a commit stamps an uncommitted record and puts it at the front, and changes nothing of a committed one or the second time |
| MetaIndex.StoreMetaIndex.LruRemove | src/store/store_meta_index.cpp:20-25 | unlinking a node leaves the ring well formed without it |
| MetaIndex.StoreMetaIndex.LruPushFront | src/store/store_meta_index.cpp:27-33 | linking a node puts it right behind the sentinel |
| MetaIndex.StoreMetaIndex.Put | src/store/store_meta_index.cpp:38-75 | the pointer structure follows the specification for new and known keys |
| MetaIndex.StoreMetaIndex.Get | src/store/store_meta_index.cpp:80-92 | a committed record with its fresh access time, moved to the front |
| MetaIndex.StoreMetaIndex.BatchContains | src/store/store_meta_index.cpp:97-119 | hits and misses in order, every hit touched |
| MetaIndex.StoreMetaIndex.Commit | src/store/store_meta_index.cpp:124-139 | commits once, to the front; a committed key keeps its place |
| MetaIndex.StoreMetaIndex.Remove | src/store/store_meta_index.cpp:144-158 | the record leaves map and ring |
| MetaIndex.StoreMetaIndex.Touch | src/store/store_meta_index.cpp:163-173 | a committed key moves to the front |
| MetaIndex.StoreMetaIndex.GetAllCommittedEntries | src/store/store_meta_index.cpp:185-195 | every committed record once |
| MetaIndex.StoreMetaIndex.GetLRUCandidates | src/store/store_meta_index.cpp:200-213 | the coldest records, coldest first |
| MetaIndex.StoreMetaIndex.GetLRUCandidatesBySize | src/store/store_meta_index.cpp:217-231 | the scan with its 32-bit total, from the cold end |
| PendingQueue.CompactionSplits | src/store/pending_evict_queue.cpp:50-66 | compaction splits the entries: none lost, none duplicated |
| PendingQueue.CompactionMembers | src/store/pending_evict_queue.cpp:50-66 | exactly the expired entries leave |
| PendingQueue.WaitedOut | src/store/pending_evict_queue.cpp:50-66 | at a clock not before the entries, an entry stays if and only if `now < enqueued + grace` |
| PendingQueue.SetBackClock | src/store/pending_evict_queue.cpp:55-55 | at a clock set back before an entry, the entry is due at once if and only if the grace period plus the step back is at most 2^64 |
| PendingQueue.PendingEvictQueue.Enqueue | src/store/pending_evict_queue.cpp:17-20 | the entry goes last |
| PendingQueue.PendingEvictQueue.Tick | src/store/pending_evict_queue.cpp:44-69 | a tick keeps the entries with `now < enqueued + grace` and frees the others |
| PendingQueue.PendingEvictQueue.FlushExpired | src/store/pending_evict_queue.cpp:71-92 | likewise, with the bytes freed |
| PendingQueue.PendingEvictQueue.FlushAllForced | src/store/pending_evict_queue.cpp:94-107 | frees everything at once |
| Eviction.ForceEvictExactIff | src/store/evict_manager.cpp:112-160 | forced eviction evicts exactly the shortest coldest prefix that covers the request, cut short only by 64 keys a round, an empty index or a failing Meta, and returns its size, if and only if that size fits 32 bits |
| Eviction.ForceEvictBound | src/store/evict_manager.cpp:112-160 | with equal slots and room for one more in 32 bits the result is below the request plus one slot |
| Eviction.TakeExactIff | src/store/store_meta_index.cpp:217-231 | one scan's total is the true size of the shortest covering prefix if and only if that fits 32 bits |
| Eviction.ShortestIsShortest | src/store/store_meta_index.cpp:217-231 | the prefix covers the request or is all that is allowed, and no shorter one does |
| Eviction.WrappedTotalOvershoots | src/store/evict_manager.cpp:112-160 | three slots of 2^31 bytes wrap the total, and all are evicted where two would do |
| Eviction.PassStopsIff | src/store/evict_manager.cpp:45-70 | a watermark pass leaves keys in the index if and only if, after some number of turns short of all keys, usage is at the low watermark or Meta fails the next request |
| Eviction.PassEmptiesIndex | src/store/evict_manager.cpp:45-70 | so a watermark pass whose ticks free nothing and whose requests Meta answers evicts every key and lowers usage by nothing |
| Eviction.PassTurnShrinks | src/store/evict_manager.cpp:64-68 | every turn that asks for another shortens the list: the pass ends |
| StoreReclaim.UsageAtMost | src/store/evict_manager.cpp:45-70 | usage is at most a mark if and only if the slots in use are at most that share of all |
| Eviction.EvictNShape | src/store/evict_manager.cpp:97-109 | evicting one by one takes exactly the cold end of the list, in order, into the queue |
| Eviction.EvictManager.EvictEntries | src/store/evict_manager.cpp:81-110 | for any list of candidates: Meta first, nothing else if Meta fails, else each key leaves the index if it is there and each listed slot is queued |
| Eviction.ColdestIsBatch | src/store/evict_manager.cpp:72-110 | for the coldest records of the moment that is the specified batch |
| Eviction.EvictBatchSparesOthersIff | src/store/evict_manager.cpp:81-110 | an eviction batch leaves the records of other stores at Meta alone if and only if it does not reach Meta or evicts no key another store committed |
| StaleCandidates.BalancedIff | src/store/evict_manager.cpp:103-107 | evicting a list made earlier keeps every slot with one holder all the way if and only if its keys are distinct and each is still indexed where it was |
| StaleCandidates.TwoEvictorsIff | src/store/evict_manager.cpp:72-110 | two evictors that list the coldest of one index and then evict one after the other keep it so if and only if one list is empty |
| StaleCandidates.ListedTwiceAliases | src/store/evict_manager.cpp:103-107 | a victim of both is freed twice, and the next two allocations are given its slot |
| Eviction.EvictManager.ForceEvict | src/store/evict_manager.cpp:112-160 | the round loop does what the specification says |
| Eviction.EvictManager.TryEvictBatchLRU | src/store/evict_manager.cpp:72-79 | a batch of up to 16 coldest |
| Eviction.EvictManager.EvictPass | src/store/evict_manager.cpp:45-70 | the inner loop of the watermark thread terminates and is the specified pass |
| MetaLink.ResyncComplete | src/store/meta_sync_client.cpp:347-392 | a resync that ends connected leaves the store registered and every committed key where the index has it, and moves no other key |
| MetaLink.ResyncConnectedIff | src/store/meta_sync_client.cpp:252-392 | it ends connected if and only if it began connected with a non-zero store id, its first registration was answered, and each batch got through on its call or retry |
| MetaLink.RetryIsNeverMade | src/store/meta_sync_client.cpp:252-392 | after one undelivered registration the store stays unregistered, though every retry would have got through |
| MetaLink.ResyncRegistersItself | src/store/meta_sync_client.cpp:252-392 | a resync registers its own store and no other, and never one with id zero |
| MetaLink.DrainIsInOrder | src/store/meta_sync_client.cpp:192-212 | merging the queued commits of a store is delivering them in order |
| MetaLink.TurnDelivers | src/store/meta_sync_client.cpp:170-212 | a turn answered on the call or the retry empties the queue, leaves every key where the last record naming it over the whole queue says, and every other key where it was |
| MetaLink.AppliedCommit | src/store/meta_sync_client.cpp:90-138 | a commit reported Ok is in place, whether applied once or twice |
| MetaLink.CommitReportsOkIff | src/store/meta_sync_client.cpp:90-138 | a commit is reported Ok if and only if the call or its retry was answered or the store is disconnected; only an unanswered one costs the connection |
| MetaLink.MetaSyncClient.SyncCommit | src/store/meta_sync_client.cpp:90-138 | one retry, then disconnected |
| MetaLink.MetaSyncClient.SyncRemove | src/store/meta_sync_client.cpp:214-250 | skipped while disconnected; a lost reply disconnects |
| MetaLink.MetaSyncClient.AsyncCommit | src/store/meta_sync_client.cpp:140-153 | the request waits at the back of the queue |
| MetaLink.MetaSyncClient.AsyncCommitTurn | src/store/meta_sync_client.cpp:170-212 | the whole queue goes as one request under the first one's store id; if it began connected and was answered, every key is where the last queued record naming it says |
| MetaLink.MetaSyncClient.RegisterStore | src/store/meta_sync_client.cpp:252-294 | reports success without calling while disconnected |
| MetaLink.MetaSyncClient.FullResync | src/store/meta_sync_client.cpp:347-392 | registration, then batches of 256 that tile the list |
| MetaTable.GroupedIsOrdered | src/meta/meta_manager.cpp:60-187 | for every hash and shard count, a shard's own group of a batch does to the shard what the whole batch in order does |
| MetaTable.MergedCommit | src/store/meta_sync_client.cpp:192-212 | committing a concatenation is committing its parts in order |
| MetaTable.CommitPlaces | src/meta/meta_manager.cpp:136-167 | after a commit each key is where the last record naming it says; others have not moved |
| MetaTable.CommitIdempotent | src/meta/meta_manager.cpp:136-167 | delivering a commit twice is delivering it once |
| MetaTable.CreateTimeKept | src/meta/meta_manager.cpp:152-160 | the first commit's creation time stays |
| MetaTable.FirstCommitDates | src/meta/meta_manager.cpp:152-160 | and is the time of that commit |
| MetaTable.CommitIsAccess | src/meta/meta_manager.cpp:136-167 | a commit sets the access time of every key it names and changes no other key |
| MetaTable.CommittedIsAnswered | src/meta/meta_manager.cpp:60-167 | a committed key is answered by either query with its last record's place and its store's registered node, file and address |
| MetaTable.ShownIff | src/meta/meta_manager.cpp:60-134 | `BatchExist` shows exactly the committed records, `BatchLookup` all but the evicted ones |
| MetaTable.RemovedIsBlank | src/meta/meta_manager.cpp:60-187 | a removed key is answered blank, any other as before |
| MetaTable.QueryOnlyTouches | src/meta/meta_manager.cpp:60-134 | a query changes nothing but the access times of the records it shows |
| MetaTable.MetaManager.RegisterStore | src/meta/meta_manager.cpp:49-58 | store id zero is refused |
| MetaTable.MetaManager.BatchQuery | src/meta/meta_manager.cpp:60-134 | the sharded code answers position by position what one flat table answers |
| MetaTable.MetaManager.SyncCommit | src/meta/meta_manager.cpp:136-167 | the sharded table is the flat one after the commit |
| MetaTable.MetaManager.SyncRemove | src/meta/meta_manager.cpp:169-187 | the keys leave the flat table, whichever store committed them |
| MetaTable.RemovalSparesOthersIff | src/meta/meta_manager.cpp:169-187 | a removal on behalf of a store leaves all records of the others if and only if none of its keys is committed by another |
| MetaTable.RemovalErasesOthers | src/meta/meta_manager.cpp:169-187 | two stores commit a key: the removal of the first erases the record of the second |
| MetaLink.SyncRemoveSparesOthersIff | src/store/meta_sync_client.cpp:214-250 | a removal request leaves them if and only if it does not reach Meta or names no key another store committed |
| StoreOps.RemoveSparesOthersIff | src/store/falconkv_store.cpp:709-731 | the same of the store's `Remove`, even of a key it does not hold |
| StoreOps.GapReadsZero | src/store/falconkv_store.cpp:252-290 | a write past the end of the file leaves zeros in between |
| DescCache.SmallerIsIncluded | src/client/key_desc_cache.cpp:11-149 | over every trace a smaller cache's list is part of a larger one's, in the same order |
| DescCache.SmallerHitsLess | src/client/key_desc_cache.cpp:11-25 | so it never hits where the larger misses, and hits with the same descriptor |
| DescCache.ListIsRecency | src/client/key_desc_cache.cpp:11-80 | over every run the list is ordered by last use: the victim is the least recently used |
| DescCache.RunBounded | src/client/key_desc_cache.cpp:54-149 | keys stay distinct and the size within the capacity (one, for a capacity of zero) |
| DescCache.LookupAllFinds | src/client/key_desc_cache.cpp:27-52 | lookups find the same keys afterwards |
| DescCache.InsertIsFound | src/client/key_desc_cache.cpp:54-80 | an inserted key is found with its new descriptor; another key is lost only if the key is new and the cache full, and then only the least recently used |
| DescCache.LastInsertedFound | src/client/key_desc_cache.cpp:54-110 | the last keys inserted, as many as the capacity, are all found |
| DescCache.KeyDescCache.Lookup | src/client/key_desc_cache.cpp:11-25 | map and list agree; a hit moves to the back |
| DescCache.KeyDescCache.BatchLookup | src/client/key_desc_cache.cpp:27-52 | splits the keys into hits and misses, in order |
| DescCache.KeyDescCache.Insert | src/client/key_desc_cache.cpp:54-80 | replaces or evicts the oldest and appends |
| DescCache.KeyDescCache.BatchInsert | src/client/key_desc_cache.cpp:82-110 | is folded `Insert` |
| DescCache.KeyDescCache.Invalidate | src/client/key_desc_cache.cpp:112-119 | the entry leaves map and list |
| ReadClient.PositiveMeansKnownBytes | src/client/falconkv_client_impl.cpp:561-638 | a positive result of `BatchGetSync` means the key is known and the buffer holds the bytes from its descriptor's offset in the file it was read from, the whole record if and only if the buffer is of the descriptor's size; for a remote key at its own address, the file there |
| ReadClient.PositiveIsOwnIff | src/client/falconkv_client_impl.cpp:466-556 | whatever the network does, positive results of a remote key are its own bytes if and only if the first remote key of that store resolves to the same address, or the key can never be read |
| ReadClient.OwnFileIff | src/client/falconkv_client_impl.cpp:475-476 | a remote key is read from the file at its own address, whatever the files hold, if and only if the first remote key of that store resolves to it |
| ReadClient.MixedAddressesMisread | src/client/falconkv_client_impl.cpp:475-476 | two keys of one store at different addresses: the second gets the first address's byte |
| ReadClient.PositiveMeansOwnBytes | src/client/falconkv_client_impl.cpp:326-559 | a positive result counts the buffer's bytes, which are those from the key's own offset on |
| ReadClient.ServedIsPositive | src/client/falconkv_client_impl.cpp:326-638 | a known key whose file can be read, with all that is read along with it, is answered with its buffer's size |
| ReadClient.FailureShows | src/client/falconkv_client_impl.cpp:326-559 | a remote key is answered -1 or its buffer's size, a same-node key without file or read -1, a local key without a local store 0; 2^31 bytes or more of a local one show as a negative count |
| ReadClient.LastAddressStays | src/client/falconkv_client_impl.cpp:602-606 | the client keeps the last address it was told of each store |
| ReadClient.RecordSizedIff | src/client/falconkv_client_impl.cpp:326-559 | they are the record at the descriptor if and only if the buffer is of the descriptor's size; a smaller buffer holds the record's front, a larger one begins with the record |
| ReadClient.LargerBufferReadsOn | src/client/falconkv_client_impl.cpp:406-406 | a record of one byte read into a buffer of two comes with the next slot's byte, and the result counts two |
| ReadClient.FalconKVClientImpl.BatchGet | src/client/falconkv_client_impl.cpp:326-559 | every position is read by its own group and by no other, for any mix of groups and duplicates |
| ReadClient.FalconKVClientImpl.BatchGetSync | src/client/falconkv_client_impl.cpp:561-638 | known keys are read in order, the others answer -1 with their buffers untouched; hits are touched in the cache, and what Meta answered enters the cache and the address map |
| ReadFraming.RoundTrip | src/store/store_rpc_client.cpp:142-156 | cutting up the laid-out attachment gives each buffer the front of its own segment, as much as was asked for |
| ReadFraming.ReadRemotely | src/store/store_service_impl.cpp:166-233 | from the server's file to the client's buffers each segment arrives in its own place |
| ReadFraming.ServeBatchRead | src/store/store_service_impl.cpp:166-233 | the reply lays out all segments, or reports failure for all |
| ReadFraming.SplitAttachment | src/store/store_rpc_client.cpp:142-156 | the running offset cuts each segment from where it starts, clamped to the requested size |
| ReadFraming.BatchRead | src/store/store_rpc_client.cpp:83-159 | no connection and no reply are told apart from a reply |
| Statistics.LoopEndsIff | src/scheduler/node_stats.cpp:63-78 | the advance loop ends if and only if the record was completed before the last end the 64-bit clock can show |
| Statistics.LastInstantNeverEnds | src/scheduler/node_stats.cpp:63-78 | a record completed in the last nanosecond of the clock keeps the loop turning for ever, whatever the ring holds |
| Statistics.RecordAddsItsSize | src/scheduler/node_stats.cpp:81-84 | every record adds its size to the log's total modulo 2^64 |
| Statistics.RecordCountsInItsChannel | src/scheduler/node_stats.cpp:43-85 | it adds its size and one operation to the channel it names, reads if it names none, in the newest window, and nothing to the other channels |
| Statistics.ChannelTotals | src/scheduler/node_stats.cpp:57-85 | so over every run a channel's total is the sum of its own records, modulo 2^64 |
| Statistics.TrafficIsSum | src/scheduler/node_stats.cpp:93-110 | over every run a node is listed if and only if a record names it, with the sums and counts of what was sent to and received from it |
| Statistics.SamplesAreLatencies | src/scheduler/node_stats.cpp:112-121 | the first ten thousand latencies of a run are kept in order, and after that their number stays |
| Statistics.ExtendContiguous | src/scheduler/node_stats.cpp:63-78 | windows stay contiguous and one second wide, and old ones unchanged |
| Statistics.NewestAdvance | src/scheduler/node_stats.cpp:64-77 | overwriting the oldest window keeps the ring the last sixty of the log |
| Statistics.NodeStats.constructor | src/scheduler/node_stats.cpp:30-41 | the ring starts as sixty contiguous windows ending at the base time |
| Statistics.NodeStats.UpdateWindow | src/scheduler/node_stats.cpp:57-85 | the ring is the log's last sixty windows, the newest ends after the record, and no earlier one would have done |
| Statistics.NodeStats.RecordIO | src/scheduler/node_stats.cpp:87-122 | and the node's traffic and the latency sample are updated |
| Bridge.EveryTaskIsSomewhere | python/_pyfalconkv_internal/falconkv_bridge.cpp:177-199 | over every interleaving a submitted task is queued, running or done, one of the three, and done at most once |
| Bridge.StoppedTasksAllRan | python/_pyfalconkv_internal/falconkv_bridge.cpp:138-191 | once all workers have left, every task submitted before the stop ran exactly once |
| Bridge.NothingRunsAfterJoin | python/_pyfalconkv_internal/falconkv_bridge.cpp:150-174 | past the join no task runs or ever will |
| Bridge.TaskRunsIff | python/_pyfalconkv_internal/falconkv_bridge.cpp:177-199 | once all workers have left, a task submitted at any time has run if and only if some worker had not left when it was submitted |
| Bridge.LateTaskIsStranded | python/_pyfalconkv_internal/falconkv_bridge.cpp:193-199 | a run in which a task submitted after the last worker left stays queued for good |
| Bridge.FalconKVBridge.NextTurn | python/_pyfalconkv_internal/falconkv_bridge.cpp:177-191 | a worker's critical section takes the oldest task, leaves, or sleeps |
| Bridge.FalconKVBridge.SubmitTask | python/_pyfalconkv_internal/falconkv_bridge.cpp:193-199 | what is submitted goes last |

## Findings

Where the code does less than its comments or its callers may expect, the model keeps the code, an
input shows it, and the condition is proved exactly.

- **Mixed addresses.** Remote keys are grouped by store id and read at the first key's address. A key
  whose descriptor carries another address is given the other file's bytes
  (`ReadClient.PositiveIsOwnIff`, `MixedAddressesMisread`).
- **Buffers larger than the record.** A read asks for as many bytes as the buffer holds and never looks
  at the descriptor's size. A larger buffer is filled with the next slot's bytes too, and the
  positive result counts them (`ReadClient.RecordSizedIff`, `LargerBufferReadsOn`).
- **Oversized items.** A batch checks only its first item's size; a larger one overruns into the next
  slot (`WritesStayInsideIff`, `OversizedItemIsCorrupted`).
- **Repeated keys.** Each repetition of a new key in a batch leaks one slot for good
  (`BatchLeaksIff`, `RoomyBatchLeaksIff`, `RepeatedKeyLeaks`).
- **32-bit totals.** `ForceEvict` and the scan add slot sizes in 32 bits; a wrapped total evicts on
  (`ForceEvictExactIff`, `WrappedTotalOvershoots`).
- **Queued commits overtake.** Batches commit to Meta later, single puts at once. A key put in a batch, removed
  and put again meanwhile ends up at Meta with its old slot (`QueuedCommitWinsIff`,
  `LateCommitMisleads`; every other connected run is safe, `MetaCatchesUp`).
- **Hopeless puts flush everything.** A put whose size can never fit runs down the whole ladder, evicts, and
  at last frees every waiting slot before its time (`FailedPutFlushesAll`; which puts these are,
  `PutRunsOutIff`).
- **Clock set back.** Waiting times are unsigned differences of the wall clock. Set back by one
  millisecond, it ends every wait begun since (`SetBackClock`).
- **Useless registration retry.** A failed registration clears the connection flag, and the retries
  then report success without calling (`ResyncConnectedIff`, `RetryIsNeverMade`).
- **The watermark pass empties the index.** Evicted slots stay in use while they wait, so evicting
  never lowers usage, and the pass goes on until nothing is left, unless Meta fails or queue ticks
  free enough slots in time (`PassStopsIff`, `PassEmptiesIndex`).
- **Stale candidates.** Listing victims and evicting them are locked separately, and a victim is queued
  whether or not it is still indexed. Two evictors that list the same index free its coldest slot
  twice (`BalancedIff`, `TwoEvictorsIff`, `ListedTwiceAliases`).
- **Double frees alias.** `Free` has no check. Apart from stale candidates, every caller in the store is
  proved to free only what it holds (`FreeKeepsWfIff`, `DoubleFreeAliases`).
- **Late tasks are stranded.** Submitting is never refused. A task runs if and only if some worker has not
  left yet when it is submitted, be it before or after the stop (`TaskRunsIff`,
  `LateTaskIsStranded`).
- **A loop that may not end.** Window ends move in steps of 10^9 modulo 2^64 and keep their remainder
  modulo 512; a completion time past the last reachable end keeps `UpdateWindow` turning for ever
  (`LoopEndsIff`, `LastInstantNeverEnds`).
- **Removal ignores the store.** `SyncRemove` erases a key whichever store committed it, so a store's
  eviction or `Remove` can make another store's copy unknown (`RemovalErasesOthers`). The others'
  records are safe exactly if no removed key is another's (`RemovalSparesOthersIff`,
  `EvictBatchSparesOthersIff`, `RemoveSparesOthersIff`). The theorems about one store's records
  allow other stores to change only their own.
- **Empty records.** `Put` and the thread pool refuse a record without bytes, io_uring does not; a batch
  answers such an item as stored, and no read returns it (`EmptyIsNeverPut`,
  `EmptyItemIsUnreadable`).
- **Small ones.** A descriptor cache of capacity zero holds one entry (`DescCache.RunBounded`); Meta records
  no empty key; a local key without a local store is answered 0, not -1, and a
  buffer of 2^31 bytes or more shows as a negative count (`ReadClient.FailureShows`).

## Left out

- StoreIsLossyMap: for batches whose new keys are distinct and fit the slot; `BatchLeaksIff` and `OversizedItemIsCorrupted` show what happens to the others.
- UpdateWindow: required to meet a completion time for which the loop ends, the exact condition of `LoopEndsIff`.
- RecordIO: likewise, since it calls `UpdateWindow`.
- MetaNamesLiveBytes: nothing is claimed after a removal was skipped for disconnection; skipped removals are never replayed, and a resync only adds records.
- Interleavings inside one store operation: an operation and a background tick are each one step. The source locks component by component, so an asynchronous commit overtaking a removal is not modelled, and two evictors at once only in `StaleCandidates`.
- One clock reading serves each call of a component, so a whole eviction batch or a batch of lookups bears one time, where the source reads the clock for every entry (src/store/pending_evict_queue.cpp:19). Times are assumed not to go back.
- Parallel writes of a batch are carried out in order; it matters only where oversized items overlap.
- A failed write may leave any bytes inside its own range; a successful one writes all. O_DIRECT, descriptor caches and the thread pools are not part of this model, and of io_uring only that it accepts items without bytes.
- Buffers are values: aliased buffers and what a failed read leaves in one beyond its length are not captured.
- The key carried in a waiting entry of the eviction queue, which nothing reads back.
- An absent Meta client is a link that is not connected.
- brpc channels, protobuf conversion, sockets, server start and shutdown: an RPC is only applied or not, answered or not.
- HIXL transfers and leases, compiled only with an external library.
- The scheduler's proxy, policy and bandwidth accumulators, and the percentiles and rates of `GetCurrentStats`: thread timing and floating point.
- The usage ratio compared with the watermarks is an exact quotient, not a rounded double.
- `GetColdEntries` and `DoRead`, which the live paths do not use.
- Configuration, logging, the Python extension, connectors and scripts.
