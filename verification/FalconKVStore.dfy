/** The store itself (src/store/falconkv_store.cpp): its methods do exactly what StoreOps says. */
module KVStore {
  import opened Base
  import opened SlotAllocation
  import opened MetaIndex
  import opened PendingQueue
  import opened MetaTable
  import opened MetaLink
  import opened StoreSpace
  import opened Eviction
  import opened StoreOps
  import opened StoreProgress
  import opened StoreSteps
  import opened StoreTraces
  import opened StoreBatches
  import opened StoreHistory

  class FalconKVStore {
    const cfg: Config
    const allocator: SlotAllocator
    const metaIndex: StoreMetaIndex
    const metaSyncClient: MetaSyncClient
    const pendingQueue: PendingEvictQueue
    const evictManager: EvictManager
    var disk: Disk
    ghost var leaked: multiset<nat>
    ghost var written: map<Key, seq<byte>>

    ghost function SpaceView(): Space
      reads metaIndex, metaSyncClient, metaSyncClient.server, pendingQueue, allocator
    {
      Space(allocator.View(), metaIndex.View(), pendingQueue.View(), metaSyncClient.View())
    }

    ghost function View(): World
      reads this, metaIndex, metaSyncClient, metaSyncClient.server, pendingQueue, allocator
    {
      World(SpaceView(), disk, multiset{}, leaked, written)
    }

    /** The index has no nodes but its old ones and new ones. */
    twostate predicate NodesGrow()
      reads metaIndex
    {
      forall n :: n in metaIndex.nodes ==> n in old(metaIndex.nodes) || fresh(n)
    }

    /** The parts belong together. */
    ghost predicate Wired() {
      && pendingQueue.allocator == allocator && pendingQueue.gracePeriodMs == cfg.grace
      && evictManager.metaIndex == metaIndex && evictManager.metaSyncClient == metaSyncClient
      && evictManager.pendingQueue == pendingQueue && evictManager.allocator == allocator
      && evictManager.storeId == cfg.storeId
      && metaSyncClient.metaIndex == metaIndex && metaSyncClient.storeId == cfg.storeId
    }

    /** The parts are consistent while the operation under way and the leaks hold `rest`. */
    ghost predicate Working(rest: multiset<nat>)
      reads metaIndex, metaIndex.nodes, metaSyncClient, metaSyncClient.server, pendingQueue, allocator
    {
      Wired() && metaIndex.Valid() && metaSyncClient.Valid() && Conserved(SpaceView(), rest)
    }

    ghost predicate Valid()
      reads this, metaIndex, metaIndex.nodes, metaSyncClient, metaSyncClient.server, pendingQueue, allocator
    {
      Working(leaked)
    }

    /** `Init`: the parts are made empty around a data file and a link to Meta. */
    constructor (cfg: Config, capacityBytes: nat, slotSizeBytes: nat, high: real, low: real, disk: Disk,
                 info: StoreInfo, server: MetaManager)
      requires slotSizeBytes < U32 && server.Valid() && info.storeId == cfg.storeId
      ensures Valid() && this.cfg == cfg && fresh(metaIndex) && fresh(allocator) && metaSyncClient.server == server
      ensures
        var link := LinkState(false, [], server.table, server.stores, {});
        View() == World(Space(Fresh(capacityBytes, slotSizeBytes), EMPTY_INDEX, EMPTY_QUEUE, link), disk,
                        multiset{}, multiset{}, map[])
    {
      var a := new SlotAllocator(capacityBytes, slotSizeBytes);
      var m := new StoreMetaIndex();
      var c := new MetaSyncClient(info, m, server);
      var q := new PendingEvictQueue(cfg.grace, a);
      var e := new EvictManager(cfg.storeId, high, low, m, c, q, a);
      this.cfg, allocator, metaIndex, metaSyncClient, pendingQueue, evictManager := cfg, a, m, c, q, e;
      this.disk, leaked, written := disk, multiset{}, map[];
      new;
      EmptyConserved(capacityBytes, slotSizeBytes, metaSyncClient.View());
    }

    // ---------- finding a slot ----------

    method FlushExpired(now: nat, ghost rest: multiset<nat>)
      requires Working(rest)
      modifies pendingQueue, allocator
      ensures Working(rest) && SpaceView() == FlushExpiredSpec(old(SpaceView()), cfg.grace, now)
    {
      QueueInUse(SpaceView(), rest);
      FlushExpiredConserves(SpaceView(), rest, cfg.grace, now);
      var _ := pendingQueue.FlushExpired(now);
    }

    method FlushAllForced(ghost rest: multiset<nat>)
      requires Working(rest)
      modifies pendingQueue, allocator
      ensures Working(rest) && SpaceView() == FlushAllSpec(old(SpaceView()))
    {
      QueueInUse(SpaceView(), rest);
      FlushAllConserves(SpaceView(), rest);
      var _ := pendingQueue.FlushAllForced();
    }

    method TryAlloc(size: nat, ghost rest: multiset<nat>) returns (offset: int)
      requires Working(rest) && size < U32
      modifies allocator
      ensures var (t, off) := Allocate(old(SpaceView()), size);
              SpaceView() == t && Working(WithSlot(rest, off)) && offset == if off.Some? then off.value else -1
    {
      AllocateConserves(SpaceView(), rest, size);
      var allocSize;
      offset, allocSize := allocator.Alloc(size);
    }

    method ForceEvict(needed: nat, rounds: seq<Round>, ghost rest: multiset<nat>)
      requires Working(rest) && |rounds| == MAX_ROUNDS
      modifies metaIndex, metaIndex.nodes, pendingQueue, metaSyncClient, metaSyncClient.server
      ensures Working(rest) && metaIndex.nodes == old(metaIndex.nodes)
      ensures SpaceView() == ForceEvictSpec(old(SpaceView()), needed, rounds).0
    {
      ForceRoundsConserves(SpaceView(), rest, needed, 0, rounds);
      var _ := evictManager.ForceEvict(needed, rounds);
    }

    /** The ladder's levels, each a retry of the allocation after making room. */
    method ReclaimLevel1(size: nat, env: Ladder, ghost rest: multiset<nat>) returns (offset: int)
      requires Working(rest) && size < U32
      modifies pendingQueue, allocator
      ensures var (t, off) := Level1(old(SpaceView()), size, cfg.grace, env);
              SpaceView() == t && Working(WithSlot(rest, off)) && offset == if off.Some? then off.value else -1
    {
      FlushExpired(env.flush1, rest);
      offset := TryAlloc(size, rest);
    }

    method ReclaimLevel2(size: nat, env: Ladder, ghost rest: multiset<nat>) returns (offset: int)
      requires Working(rest) && size < U32
      modifies metaIndex, metaIndex.nodes, pendingQueue, metaSyncClient, metaSyncClient.server, allocator
      ensures metaIndex.nodes == old(metaIndex.nodes)
      ensures var (t, off) := Level2(old(SpaceView()), size, cfg.grace, env);
              SpaceView() == t && Working(WithSlot(rest, off)) && offset == if off.Some? then off.value else -1
    {
      var evictTarget := Max(size, (allocator.GetTotalBytes() / 20) % U32);
      ForceEvict(evictTarget, env.rounds, rest);
      FlushExpired(env.flush2, rest);
      offset := TryAlloc(size, rest);
    }

    method ReclaimLevel3(size: nat, ghost rest: multiset<nat>) returns (offset: int)
      requires Working(rest) && size < U32
      modifies pendingQueue, allocator
      ensures var (t, off) := Level3(old(SpaceView()), size);
              SpaceView() == t && Working(WithSlot(rest, off)) && offset == if off.Some? then off.value else -1
    {
      FlushAllForced(rest);
      offset := TryAlloc(size, rest);
    }

    method ReclaimAndAlloc(size: nat, env: Ladder, ghost rest: multiset<nat>) returns (offset: int)
      requires Working(rest) && size < U32
      modifies metaIndex, metaIndex.nodes, pendingQueue, metaSyncClient, metaSyncClient.server, allocator
      ensures metaIndex.nodes == old(metaIndex.nodes)
      ensures var (t, off) := LadderSpec(old(SpaceView()), size, cfg.grace, env);
              SpaceView() == t && Working(WithSlot(rest, off)) && offset == if off.Some? then off.value else -1
    {
      offset := ReclaimLevel1(size, env, rest);
      if offset < 0 {
        offset := ReclaimLevel2(size, env, rest);
        if offset < 0 {
          offset := ReclaimLevel3(size, rest);
        }
      }
    }

    method AllocForPut(size: nat, env: Ladder, ghost rest: multiset<nat>) returns (offset: int)
      requires Working(rest) && size < U32
      modifies metaIndex, metaIndex.nodes, pendingQueue, metaSyncClient, metaSyncClient.server, allocator
      ensures metaIndex.nodes == old(metaIndex.nodes)
      ensures var (t, off) := PlaceSpec(old(SpaceView()), size, cfg.grace, env);
              SpaceView() == t && Working(WithSlot(rest, off)) && offset == if off.Some? then off.value else -1
    {
      offset := TryAlloc(size, rest);
      if offset < 0 {
        offset := ReclaimAndAlloc(size, env, rest);
      }
    }

    // ---------- the data file ----------

    method Write(offset: nat, data: seq<byte>, outcome: WriteOutcome) returns (s: Status)
      modifies `disk
      ensures (disk, s) == WriteSpec(old(disk), offset, data, OfWrite(data, outcome))
    {
      if data == [] {
        return InvalidArg;
      }
      s := WriteItem(offset, data, outcome);
    }

    method WriteItem(offset: nat, data: seq<byte>, outcome: WriteOutcome) returns (s: Status)
      modifies `disk
      ensures (disk, s) == WriteSpec(old(disk), offset, data, outcome)
    {
      match outcome
      case Written =>
        disk := PWrite(disk, offset, data);
        return Ok;
      case Failed(damage) =>
        disk := PWrite(disk, offset, damage[..Min(|damage|, |data|)]);
        return IOError;
      case Refused => return InvalidArg;
    }

    method Read(offset: nat, size: nat, readOk: bool) returns (s: Status, bytes: seq<byte>)
      ensures s == Ok <==> size > 0 && readOk && PRead(disk, offset, size).Some?
      ensures s == Ok ==> PRead(disk, offset, size) == Some(bytes)
      ensures s != Ok ==> bytes == [] && s == if size == 0 then InvalidArg else IOError
    {
      if size == 0 {
        return InvalidArg, [];
      }
      if !readOk || offset + size > |disk| {
        return IOError, [];
      }
      return Ok, disk[offset..offset + size];
    }

    // ---------- Put ----------

    method GiveBack(offset: nat, ghost rest: multiset<nat>)
      requires Working(rest) && offset in rest
      modifies allocator
      ensures Working(rest - multiset{offset})
      ensures SpaceView() == old(SpaceView()).(alloc := FreeSpec(old(SpaceView()).alloc, offset))
    {
      FreeConserves(SpaceView(), rest, offset);
      allocator.Free(offset, allocator.slotSize);
    }

    /** The record enters the index with the slot the operation held. */
    method IndexOne(r: Record, data: seq<byte>, ghost rest: multiset<nat>)
      requires Working(rest) && r.offset in rest && r.stat == 1 && r.allocSize == allocator.slotSize
      modifies metaIndex, metaIndex.nodes, `leaked, `written
      ensures Working(rest - multiset{r.offset} + Lost(old(SpaceView()), r.key)) && NodesGrow()
      ensures SpaceView() == old(SpaceView()).(index := PutSpec(old(SpaceView()).index, r.key, r))
      ensures leaked == old(leaked) + Lost(old(SpaceView()), r.key) && written == old(written)[r.key := data]
    {
      ghost var lost := Lost(SpaceView(), r.key);
      PutRecord(r, rest);
      leaked, written := leaked + lost, written[r.key := data];
    }

    method PutRecord(r: Record, ghost rest: multiset<nat>)
      requires Working(rest) && r.offset in rest && r.stat == 1 && r.allocSize == allocator.slotSize
      modifies metaIndex, metaIndex.nodes
      ensures Working(rest - multiset{r.offset} + Lost(old(SpaceView()), r.key)) && NodesGrow()
      ensures SpaceView() == old(SpaceView()).(index := PutSpec(old(SpaceView()).index, r.key, r))
    {
      IndexConserves(SpaceView(), rest, r.key, r);
      metaIndex.Put(r.key, r);
    }

    /** The store with `off` in the operation's hands. */
    ghost function Held(off: nat): World
      reads this, metaIndex, metaSyncClient, metaSyncClient.server, pendingQueue, allocator
    {
      View().(inflight := multiset{off})
    }

    /** Calls to Meta change the link and nothing else. */
    method CommitToMeta(recs: seq<Record>, r1: Rpc, r2: Rpc, ghost rest: multiset<nat>)
      requires Working(rest)
      modifies metaSyncClient, metaSyncClient.server
      ensures Working(rest)
      ensures SpaceView()
        == old(SpaceView()).(link := SyncCommitSpec(old(SpaceView()).link, cfg.storeId, recs, r1, r2).0)
    {
      var _ := metaSyncClient.SyncCommit(cfg.storeId, recs, r1, r2);
    }

    method QueueCommit(recs: seq<Record>, ghost rest: multiset<nat>)
      requires Working(rest)
      modifies metaSyncClient
      ensures Working(rest)
      ensures SpaceView() == old(SpaceView()).(link := AsyncCommitSpec(old(SpaceView()).link, cfg.storeId, recs))
    {
      metaSyncClient.AsyncCommit(cfg.storeId, recs);
    }

    method RemoveAtMeta(key: Key, rpc: Rpc, ghost rest: multiset<nat>) returns (s: Status)
      requires Working(rest)
      modifies metaSyncClient, metaSyncClient.server
      ensures Working(rest)
      ensures SpaceView() == old(SpaceView()).(link := SyncRemoveSpec(old(SpaceView()).link, [key], rpc).0)
      ensures s == SyncRemoveSpec(old(SpaceView()).link, [key], rpc).1
    {
      s := metaSyncClient.SyncRemove(cfg.storeId, [key], rpc);
    }

    /** One of the slots in the operation's hands becomes the record's. */
    method IndexNext(r: Record, data: seq<byte>, ghost inflight: multiset<nat>)
      requires Working(leaked + inflight) && r.offset in inflight && r.stat == 1 && r.allocSize == allocator.slotSize
      modifies metaIndex, metaIndex.nodes, `leaked, `written
      ensures Working(leaked + (inflight - multiset{r.offset})) && NodesGrow()
      ensures View().(inflight := inflight - multiset{r.offset})
        == IndexRecord(old(View()).(inflight := inflight), r, data)
    {
      ghost var lost := Lost(SpaceView(), r.key);
      assert leaked + inflight - multiset{r.offset} + lost == leaked + lost + (inflight - multiset{r.offset});
      IndexOne(r, data, leaked + inflight);
    }

    method IndexAndCommit(r: Record, data: seq<byte>, r1: Rpc, r2: Rpc)
      requires Working(leaked + multiset{r.offset}) && r.stat == 1 && r.allocSize == allocator.slotSize
      modifies metaIndex, metaIndex.nodes, `leaked, `written, metaSyncClient, metaSyncClient.server
      ensures Valid() && NodesGrow()
      ensures
        var v := IndexRecord(old(Held(r.offset)), r, data);
        View() == Relinked(v, SyncCommitSpec(v.space.link, cfg.storeId, [r], r1, r2).0)
    {
      IndexNext(r, data, multiset{r.offset});
      assert multiset{r.offset} - multiset{r.offset} == multiset{} && leaked + multiset{} == leaked;
      CommitToMeta([r], r1, r2, leaked);
    }

    /** The slot in the operation's hands goes back. */
    method GiveBackHeld(offset: nat)
      requires Working(leaked + multiset{offset})
      modifies allocator
      ensures Valid()
      ensures SpaceView() == old(SpaceView()).(alloc := FreeSpec(old(SpaceView()).alloc, offset))
    {
      assert leaked + multiset{offset} - multiset{offset} == leaked;
      GiveBack(offset, leaked + multiset{offset});
    }

    /** The second half of `Put`. */
    method WriteAndIndex(offset: nat, key: Key, data: seq<byte>, env: PutEnv) returns (r: PutResult)
      requires Working(leaked + multiset{offset})
      modifies this, metaIndex, metaIndex.nodes, metaSyncClient, metaSyncClient.server, allocator
      ensures Valid() && NodesGrow()
      ensures View() == PutHeld(old(Held(offset)), cfg, offset, key, data, env)
      ensures
        r == PutResult(WriteSpec(old(disk), offset, data, OfWrite(data, env.write)).1, offset, old(allocator.slotSize))
    {
      var slot := allocator.slotSize;
      var s := Write(offset, data, env.write);
      if s != Ok {
        GiveBackHeld(offset);
        assert metaIndex.nodes == old(metaIndex.nodes);
      } else {
        assert metaIndex.nodes == old(metaIndex.nodes);
        IndexAndCommit(Record(key, offset, |data|, slot, 1, env.commit), data, env.rpc1, env.rpc2);
      }
      r := PutResult(s, offset, slot);
    }

    /** `Put` of a key that is not there yet. */
    method PutAbsent(key: Key, data: seq<byte>, env: PutEnv) returns (r: PutResult)
      requires Valid() && |data| < U32 && !Committed(metaIndex.View(), key)
      modifies this, metaIndex, metaIndex.nodes, pendingQueue, metaSyncClient, metaSyncClient.server, allocator
      ensures Valid() && NodesGrow()
      ensures (View(), r) == PutOp(old(View()), cfg, key, data, env)
    {
      PutInHalves(View(), cfg, key, data, env);
      var offset := PlaceForPut(|data|, env.ladder);
      if offset < 0 {
        r := PutResult(NoSpace, 0, 0);
      } else {
        r := WriteAndIndex(offset, key, data, env);
      }
    }

    /** The store with the slot that was found in the operation's hands. */
    method PlaceForPut(size: nat, env: Ladder) returns (offset: int)
      requires Valid() && size < U32
      modifies metaIndex, metaIndex.nodes, pendingQueue, metaSyncClient, metaSyncClient.server, allocator
      ensures metaIndex.nodes == old(metaIndex.nodes)
      ensures
        var place := PlaceSpec(old(SpaceView()), size, cfg.grace, env);
        if place.1.None? then offset == -1 && Valid() && View() == Holding(old(View()), place)
        else
          && offset == place.1.value && Working(leaked + multiset{place.1.value})
          && Held(place.1.value) == Holding(old(View()), place)
    {
      offset := AllocForPut(size, env, leaked);
    }

    method Put(key: Key, data: seq<byte>, env: PutEnv) returns (r: PutResult)
      requires Valid() && |data| < U32
      modifies this, metaIndex, metaIndex.nodes, pendingQueue, metaSyncClient, metaSyncClient.server, allocator
      ensures Valid() && NodesGrow()
      ensures (View(), r) == PutOp(old(View()), cfg, key, data, env)
    {
      var present := Contains(key, env.lookup);
      assert metaIndex.nodes == old(metaIndex.nodes);
      if present {
        r := PutResult(Ok, 0, 0);
      } else {
        r := PutAbsent(key, data, env);
      }
    }

    // ---------- Get, Contains, Remove ----------

    method Get(key: Key, bufferSize: nat, readOk: bool, now: nat) returns (r: GetResult)
      requires Valid()
      modifies metaIndex, metaIndex.nodes
      ensures Valid() && metaIndex.nodes == old(metaIndex.nodes)
      ensures (View(), r) == GetOp(old(View()), key, bufferSize, readOk, now)
    {
      TouchConserves(SpaceView(), leaked, key, now);
      var record := metaIndex.Get(key, now);
      if record.None? {
        return GetResult(NotFound, []);
      }
      if bufferSize < record.value.size {
        return GetResult(InvalidArg, []);
      }
      var s, bytes := Read(record.value.offset, record.value.size, readOk);
      return GetResult(s, bytes);
    }

    /** `Contains` is a lookup and, like every lookup, a use of the key. */
    method Contains(key: Key, now: nat) returns (b: bool)
      requires Valid()
      modifies metaIndex, metaIndex.nodes
      ensures Valid() && metaIndex.nodes == old(metaIndex.nodes)
      ensures View() == old(View()).(space := old(SpaceView()).(index := TouchSpec(old(metaIndex.View()), key, now)))
      ensures b == (key in old(metaIndex.recs))
    {
      TouchConserves(SpaceView(), leaked, key, now);
      var r := metaIndex.Get(key, now);
      return r.Some?;
    }

    method BatchContains(keys: seq<Key>, now: nat) returns (hits: seq<Record>, misses: seq<Key>)
      requires Valid()
      modifies metaIndex, metaIndex.nodes
      ensures Valid() && metaIndex.nodes == old(metaIndex.nodes)
      ensures View() == old(View()).(space := old(SpaceView()).(index := TouchAll(old(metaIndex.View()), keys, now)))
      ensures hits == HitsOf(old(metaIndex.View()), keys, now) && misses == MissesOf(old(metaIndex.View()), keys)
    {
      TouchAllConserves(SpaceView(), leaked, keys, now);
      hits, misses := metaIndex.BatchContains(keys, now);
    }

    method Remove(key: Key, rpc: Rpc, now: nat) returns (s: Status)
      requires Valid()
      modifies metaIndex, metaIndex.nodes, pendingQueue, metaSyncClient, metaSyncClient.server
      ensures Valid() && metaIndex.nodes == old(metaIndex.nodes)
      ensures (View(), s) == RemoveOp(old(View()), key, rpc, now)
    {
      s := RemoveAtMeta(key, rpc, leaked);
      if s == Ok {
        s := Drop(key, now);
      }
    }

    method Drop(key: Key, now: nat) returns (s: Status)
      requires Valid()
      modifies metaIndex, metaIndex.nodes, pendingQueue
      ensures Valid() && metaIndex.nodes == old(metaIndex.nodes)
      ensures SpaceView() == Dropped(old(SpaceView()), key, now)
      ensures s == if key in old(metaIndex.recs) then Ok else NotFound
    {
      DroppedConserves(SpaceView(), leaked, key, now);
      var record := metaIndex.Remove(key);
      if record.Some? {
        pendingQueue.Enqueue(record.value.offset, record.value.allocSize, now);
      }
      s := if record.Some? then Ok else NotFound;
    }

    // ---------- BatchPut ----------

    /** The positions whose keys are not there; the others are touched. */
    method LookUpAll(keys: seq<Key>, now: nat) returns (needed: seq<nat>)
      requires Valid()
      modifies metaIndex, metaIndex.nodes
      ensures Valid() && metaIndex.nodes == old(metaIndex.nodes)
      ensures SpaceView() == old(SpaceView()).(index := TouchAll(old(metaIndex.View()), keys, now))
      ensures needed == Needed(old(metaIndex.View()), keys, |keys|)
    {
      needed := [];
      ghost var s := metaIndex.View();
      for i := 0 to |keys|
        invariant Valid() && metaIndex.nodes == old(metaIndex.nodes)
        invariant SpaceView() == old(SpaceView()).(index := metaIndex.View())
        invariant LookedUp(s, keys, i, now, metaIndex.View(), needed)
      {
        LookUpOne(s, keys, i, now, metaIndex.View(), needed);
        var present := Contains(keys[i], now);
        if !present {
          needed := needed + [i];
        }
      }
      assert keys[..|keys|] == keys;
    }

    method AllocBatch(size: nat, count: nat, ghost rest: multiset<nat>) returns (offsets: seq<nat>)
      requires Working(rest) && size < U32
      modifies allocator
      ensures var (a, offs) := RepeatAlloc(old(allocator.View()), size, count);
              SpaceView() == old(SpaceView()).(alloc := a) && offsets == offs && Working(rest + multiset(offs))
              && |offs| <= count && (offs != [] ==> allocator.initialized)
    {
      RepeatConserves(SpaceView(), rest, size, count);
      var allocSize;
      offsets, allocSize := allocator.BatchAlloc(size, count);
    }

    /** One position goes down the ladder, and its answer is noted. */
    method ReclaimNext(all: seq<nat>, j: nat, datas: seq<seq<byte>>, env: Ladder, rs: seq<PutResult>,
                       ghost places: seq<Option<nat>>, ghost held: multiset<nat>)
      returns (rs': seq<PutResult>, ghost off: Option<nat>)
      requires Working(held) && SizesOk(datas) && j < |all| && all[j] < |datas| && |places| == j && Increasing(all)
      requires AreAnswers(rs, |datas|, all[..j], places, allocator.slotSize)
      requires FoundIn(allocator.View(), places)
      modifies metaIndex, metaIndex.nodes, pendingQueue, metaSyncClient, metaSyncClient.server, allocator
      ensures metaIndex.nodes == old(metaIndex.nodes)
      ensures (SpaceView(), off) == LadderSpec(old(SpaceView()), |datas[all[j]]|, cfg.grace, env)
        && Working(WithSlot(held, off))
      ensures AreAnswers(rs', |datas|, all[..j + 1], places + [off], allocator.slotSize)
      ensures FoundIn(allocator.View(), places + [off])
    {
      var p := all[j];
      LadderConserves(SpaceView(), held, |datas[p]|, cfg.grace, env);
      off := LadderSpec(SpaceView(), |datas[p]|, cfg.grace, env).1;
      ghost var before := allocator.View();
      var offset := ReclaimAndAlloc(|datas[p]|, env, held);
      rs' := rs[p := if offset < 0 then PutResult(NoSpace, 0, 0) else PutResult(Ok, offset, allocator.slotSize)];
      AnswersNext(|datas|, all, j, places, before.slotSize, allocator.slotSize, off);
      FoundSnoc(held, places, off);
    }

    /** Midway through the positions that go down the ladder. */
    ghost predicate Reclaiming(job: ReclaimJob, rs: seq<PutResult>, done: seq<Option<nat>>)
      reads metaIndex, metaIndex.nodes, metaSyncClient, metaSyncClient.server, pendingQueue, allocator
    {
      && Working(job.held + multiset(Found(done)))
      && JobRunning(job, cfg.grace, SpaceView(), done) && JobAnswered(job, allocator.View(), rs, done)
      && FoundIn(allocator.View(), job.places + done)
    }

    method ReclaimTurn(ghost job: ReclaimJob, all: seq<nat>, j: nat, datas: seq<seq<byte>>, env: Ladder,
                       rs: seq<PutResult>,
                       ghost done: seq<Option<nat>>)
      returns (rs': seq<PutResult>, ghost done': seq<Option<nat>>)
      requires JobOk(job) && job.all == all && job.datas == datas && j == |job.places| + |done| < |all|
        && env == job.ladders(all[j])
      requires Reclaiming(job, rs, done)
      modifies metaIndex, metaIndex.nodes, pendingQueue, metaSyncClient, metaSyncClient.server, allocator
      ensures metaIndex.nodes == old(metaIndex.nodes)
      ensures |done'| == |done| + 1 && Reclaiming(job, rs', done')
    {
      ghost var cur, seen, off := SpaceView(), job.places + done, None;
      JobAnswersSoFar(job, allocator.View(), rs, done, all, j, seen, |datas|);
      rs', off := ReclaimNext(all, j, datas, env, rs, seen, job.held + multiset(Found(done)));
      JobRuns(job, cfg.grace, cur, done, |datas[all[j]]|, env, SpaceView(), off);
      JobAnswers(job, done, seen, j, allocator.View(), off, allocator.slotSize, rs');
      done' := done + [off];
    }

    /** The positions the batch allocation left without a slot, one after another. */
    method ReclaimEach(ghost job: ReclaimJob, all: seq<nat>, k: nat, datas: seq<seq<byte>>, ladders: nat -> Ladder,
                       rs0: seq<PutResult>)
      returns (rs: seq<PutResult>, ghost done: seq<Option<nat>>)
      requires JobOk(job) && job.all == all && job.datas == datas && job.ladders == ladders && k == |job.places|
      requires Working(job.held) && job.start == SpaceView()
      requires AreAnswers(rs0, |datas|, all[..k], job.places, allocator.slotSize)
      requires FoundIn(allocator.View(), job.places)
      modifies metaIndex, metaIndex.nodes, pendingQueue, metaSyncClient, metaSyncClient.server, allocator
      ensures metaIndex.nodes == old(metaIndex.nodes)
      ensures |done| == |all| - k && Reclaiming(job, rs, done)
    {
      rs, done := rs0, [];
      EachStart(job.start, datas, all[k..], cfg.grace, ladders);
      assert job.held + multiset(Found(done)) == job.held && job.places + done == job.places;
      for j := k to |all|
        invariant metaIndex.nodes == old(metaIndex.nodes) && |done| == j - k
        invariant Reclaiming(job, rs, done)
      {
        rs, done := ReclaimTurn(job, all, j, datas, ladders(all[j]), rs, done);
      }
    }

    /** The slots of the batch allocation go to the first positions. */
    method AssignBatch(n: nat, all: seq<nat>, offsets: seq<nat>, slot: nat) returns (rs: seq<PutResult>)
      requires |offsets| <= |all| && InRange(all, n) && Increasing(all)
      ensures AreAnswers(rs, n, all[..|offsets|], Somes(offsets), slot)
    {
      rs := seq(n, _ => PutResult(Ok, 0, 0));
      assert AreAnswers(rs, n, all[..0], Somes(offsets[..0]), slot);
      for j := 0 to |offsets|
        invariant AreAnswers(rs, n, all[..j], Somes(offsets[..j]), slot)
      {
        rs := rs[all[j] := PutResult(Ok, offsets[j], slot)];
        assert all[..j + 1] == all[..j] + [all[j]] && all[j] !in all[..j];
        assert Somes(offsets[..j + 1]) == Somes(offsets[..j]) + [Some(offsets[j])];
        AnswersSnoc(n, all[..j], Somes(offsets[..j]), slot, all[j], Some(offsets[j]));
      }
      assert offsets[..|offsets|] == offsets;
    }

    /** Phase 1: slots for the positions `all`. */
    method AllocateAll(all: seq<nat>, datas: seq<seq<byte>>, ladders: nat -> Ladder)
      returns (rs: seq<PutResult>, ghost places: seq<Option<nat>>)
      requires Valid() && all != [] && SizesOk(datas) && InRange(all, |datas|) && Increasing(all)
      modifies metaIndex, metaIndex.nodes, pendingQueue, metaSyncClient, metaSyncClient.server, allocator
      ensures metaIndex.nodes == old(metaIndex.nodes)
      ensures (SpaceView(), places) == BatchPlace(old(SpaceView()), cfg, datas, all, ladders)
      ensures AreAnswers(rs, |datas|, all, places, allocator.slotSize)
      ensures Working(leaked + multiset(Found(places))) && (Found(places) != [] ==> allocator.initialized)
    {
      var offsets := AllocBatch(|datas[all[0]]|, Low32(|all|), leaked);
      rs := AssignBatch(|datas|, all, offsets, allocator.slotSize);
      FoundSomes(offsets);
      ghost var job := ReclaimJob(all, datas, ladders, Somes(offsets), SpaceView(), leaked + multiset(offsets));
      ghost var done;
      rs, done := ReclaimEach(job, all, |offsets|, datas, ladders, rs);
      places := Somes(offsets) + done;
      JobDone(job, cfg.grace, SpaceView(), rs, done, leaked, offsets);
    }

    /** Phase 2's list: what has a slot now. */
    method CollectItems(rs: seq<PutResult>, ghost all: seq<nat>, ghost places: seq<Option<nat>>, ghost slot: nat)
      returns (items: seq<Item>)
      requires |all| == |places| && Increasing(all) && InRange(all, |rs|) && AreAnswers(rs, |rs|, all, places, slot)
      requires Found(places) != [] ==> slot > 0
      ensures items == Items(all, places)
    {
      items := [];
      ghost var whole, c := Items(all, places), 0;
      for i := 0 to |rs|
        invariant c <= |whole| && items == whole[..c]
        invariant forall a :: 0 <= a < c ==> whole[a].pos < i
        invariant forall a :: c <= a < |whole| ==> whole[a].pos >= i
      {
        CollectNext(rs, all, places, slot, i, c);
        if rs[i].status == Ok && !(rs[i].offset == 0 && rs[i].allocSize == 0) {
          items := items + [Item(i, rs[i].offset)];
          c := c + 1;
        }
      }
      ItemsInRange(all, places, |rs|);
    }

    /** All writes are carried out; the last failure is reported. */
    method WriteAll(items: seq<Item>, datas: seq<seq<byte>>, writes: nat -> WriteOutcome) returns (s: Status)
      requires ItemsIn(items, |datas|)
      modifies `disk
      ensures (disk, s) == WriteEach(old(disk), items, datas, writes)
    {
      s := Ok;
      for i := 0 to |items|
        invariant (disk, s) == WriteEach(old(disk), items[..i], datas, writes)
      {
        assert items[..i + 1][..i] == items[..i];
        var one := WriteItem(items[i].off, datas[items[i].pos], writes(items[i].pos));
        if one != Ok {
          s := one;
        }
      }
      assert items[..|items|] == items;
    }

    /** After a failed write every item gives its slot back and answers with the failure. */
    method FreeItems(items: seq<Item>, rs0: seq<PutResult>, s: Status, ghost rest: multiset<nat>)
      returns (rs: seq<PutResult>)
      requires Working(rest) && ItemsIn(items, |rs0|) && multiset(ItemOffsets(items)) <= rest
      modifies allocator
      ensures Working(rest - multiset(ItemOffsets(items)))
      ensures SpaceView() == old(SpaceView()).(alloc := FreeAll(old(allocator.View()), ItemOffsets(items)))
      ensures Marked(items, rs0, s, rs)
    {
      rs := rs0;
      ghost var offs, start := ItemOffsets(items), SpaceView();
      assert offs[0..] == offs && rest - multiset(offs[..0]) == rest;
      for j := 0 to |items|
        invariant Freeing(offs, rest, start, j)
        invariant Marked(items[..j], rs0, s, rs)
      {
        FreeOne(items[j].off, offs, rest, start, j);
        MarkNext(items, rs0, s, j, rs);
        rs := rs[items[j].pos := PutResult(s, 0, 0)];
      }
      assert offs[..|offs|] == offs && items[..|items|] == items;
    }

    ghost predicate Freeing(offs: seq<nat>, rest: multiset<nat>, start: Space, j: nat)
      reads metaIndex, metaIndex.nodes, metaSyncClient, metaSyncClient.server, pendingQueue, allocator
    {
      && j <= |offs| && Working(rest - multiset(offs[..j]))
      && FreeAll(start.alloc, offs) == FreeAll(allocator.View(), offs[j..])
      && SpaceView() == start.(alloc := allocator.View())
    }

    method FreeOne(offset: nat, ghost offs: seq<nat>, ghost rest: multiset<nat>, ghost start: Space, ghost j: nat)
      requires Freeing(offs, rest, start, j) && j < |offs| && offset == offs[j] && multiset(offs) <= rest
      modifies allocator
      ensures Freeing(offs, rest, start, j + 1)
    {
      FreeNext(rest, offs, j);
      GiveBack(offset, rest - multiset(offs[..j]));
    }

    /** Phase 3: the items enter the index one after another. */
    method IndexItems(ghost start: World, items: seq<Item>, keys: seq<Key>, datas: seq<seq<byte>>, slot: nat,
                      commit: nat) returns (recs: seq<Record>)
      requires |keys| == |datas| && ItemsIn(items, |keys|) && slot == allocator.slotSize
      requires IndexingItems(start, keys, datas, slot, commit, items, 0)
        && multiset(ItemOffsets(items)) <= start.inflight
      modifies metaIndex, metaIndex.nodes, `leaked, `written
      ensures NodesGrow()
      ensures IndexingItems(start, keys, datas, slot, commit, items, |items|)
      ensures recs == RecordsOf(keys, datas, slot, commit, items)
    {
      recs := [];
      for j := 0 to |items|
        invariant NodesGrow()
        invariant IndexingItems(start, keys, datas, slot, commit, items, j)
        invariant recs == RecordsOf(keys, datas, slot, commit, items[..j])
      {
        var r := RecordOf(keys, datas, slot, commit, items[j]);
        IndexItem(start, items, j, keys, datas, slot, commit, r);
        RecordsSnoc(keys, datas, slot, commit, items, j);
        recs := recs + [r];
      }
      assert items[..|items|] == items;
    }

    ghost predicate IndexingItems(start: World, keys: seq<Key>, datas: seq<seq<byte>>, slot: nat, commit: nat,
                                  items: seq<Item>, j: nat)
      requires |keys| == |datas| && ItemsIn(items, |keys|) && j <= |items|
      reads this, metaIndex, metaIndex.nodes, metaSyncClient, metaSyncClient.server, pendingQueue, allocator
    {
      var left := start.inflight - multiset(ItemOffsets(items[..j]));
      Working(leaked + left) && View().(inflight := left) == IndexEach(start, keys, datas, slot, commit, items[..j])
    }

    method IndexItem(ghost start: World, items: seq<Item>, j: nat, keys: seq<Key>, datas: seq<seq<byte>>, slot: nat,
                     commit: nat, r: Record)
      requires |keys| == |datas| && ItemsIn(items, |keys|) && j < |items| && slot == allocator.slotSize
      requires IndexingItems(start, keys, datas, slot, commit, items, j)
      requires multiset(ItemOffsets(items)) <= start.inflight && r == RecordOf(keys, datas, slot, commit, items[j])
      modifies metaIndex, metaIndex.nodes, `leaked, `written
      ensures NodesGrow()
      ensures IndexingItems(start, keys, datas, slot, commit, items, j + 1)
    {
      ghost var left := start.inflight - multiset(ItemOffsets(items[..j]));
      NextItem(start.inflight, items, j);
      IndexOneMore(start, keys, datas, slot, commit, items, j);
      IndexNext(r, datas[items[j].pos], left);
    }

    /** The store with several slots in the operation's hands. */
    ghost function HeldMany(offs: seq<nat>): World
      reads this, metaIndex, metaSyncClient, metaSyncClient.server, pendingQueue, allocator
    {
      View().(inflight := multiset(offs))
    }

    /** Phase 3: index the written items and queue their commit. */
    method CommitItems(items: seq<Item>, keys: seq<Key>, datas: seq<seq<byte>>, commit: nat)
      requires |keys| == |datas| && ItemsIn(items, |keys|) && Working(leaked + multiset(ItemOffsets(items)))
      modifies metaIndex, metaIndex.nodes, `leaked, `written, metaSyncClient
      ensures Valid() && NodesGrow()
      ensures
        var slot := old(allocator.slotSize);
        var v := IndexEach(old(HeldMany(ItemOffsets(items))), keys, datas, slot, commit, items);
        View() == Relinked(v, AsyncCommitSpec(v.space.link, cfg.storeId, RecordsOf(keys, datas, slot, commit, items)))
    {
      ghost var start := HeldMany(ItemOffsets(items));
      var slot := allocator.slotSize;
      IndexingStarts(start, keys, datas, slot, commit, items);
      var recs := IndexItems(start, items, keys, datas, slot, commit);
      assert start.inflight - multiset(ItemOffsets(items)) == multiset{} && leaked + multiset{} == leaked;
      QueueCommit(recs, leaked);
    }

    /** Phases 2 and 3. */
    method StoreItems(items: seq<Item>, keys: seq<Key>, datas: seq<seq<byte>>, env: BatchEnv, rs0: seq<PutResult>)
      returns (rs: seq<PutResult>, ghost s: Status)
      requires |keys| == |datas| == |rs0| && ItemsIn(items, |keys|) && Working(leaked + multiset(ItemOffsets(items)))
      modifies this, metaIndex, metaIndex.nodes, metaSyncClient, allocator
      ensures Valid() && NodesGrow()
      ensures (View(), s) == BatchStore(old(HeldMany(ItemOffsets(items))), cfg, keys, datas, items, env)
      ensures if s == Ok then rs == rs0 else Marked(items, rs0, s, rs)
    {
      var status := WriteAll(items, datas, env.writes);
      s := status;
      if status != Ok {
        rs := FreeItems(items, rs0, status, leaked + multiset(ItemOffsets(items)));
        assert leaked + multiset(ItemOffsets(items)) - multiset(ItemOffsets(items)) == leaked;
        assert metaIndex.nodes == old(metaIndex.nodes);
      } else {
        rs := rs0;
        assert metaIndex.nodes == old(metaIndex.nodes);
        CommitItems(items, keys, datas, env.commit);
      }
    }

    /** Phases 2 and 3 for the positions that have a slot. */
    method StoreFound(ghost all: seq<nat>, ghost places: seq<Option<nat>>, keys: seq<Key>, datas: seq<seq<byte>>,
                      env: BatchEnv, rs0: seq<PutResult>)
      returns (rs: seq<PutResult>, ghost s: Status)
      requires |keys| == |datas| && |all| == |places| && Increasing(all) && InRange(all, |datas|)
      requires AreAnswers(rs0, |datas|, all, places, allocator.slotSize)
      requires Working(leaked + multiset(Found(places))) && (Found(places) != [] ==> allocator.initialized)
      modifies this, metaIndex, metaIndex.nodes, metaSyncClient, allocator
      ensures Valid() && NodesGrow() && ItemsIn(Items(all, places), |keys|)
      ensures
        var items := Items(all, places);
        (View(), s) == BatchStore(old(HeldMany(ItemOffsets(Items(all, places)))), cfg, keys, datas, items, env)
      ensures AreResults(all, places, old(allocator.slotSize), s, |datas|, rs)
    {
      ghost var slot := allocator.slotSize;
      ItemsInRange(all, places, |datas|);
      ItemOffsetsFound(all, places);
      var items := CollectItems(rs0, all, places, slot);
      rs, s := StoreItems(items, keys, datas, env, rs0);
      MarkedIsResult(all, places, slot, s, rs0, rs);
    }

    /** The batch after its lookups. */
    method PutNeeded(all: seq<nat>, keys: seq<Key>, datas: seq<seq<byte>>, env: BatchEnv) returns (rs: seq<PutResult>)
      requires Valid() && |keys| == |datas| && all != [] && SizesOk(datas) && InRange(all, |datas|) && Increasing(all)
      modifies this, metaIndex, metaIndex.nodes, pendingQueue, metaSyncClient, metaSyncClient.server, allocator
      ensures Valid() && NodesGrow()
      ensures (View(), rs) == PutNew(old(View()), cfg, keys, datas, all, env)
    {
      var rs0, places := AllocateAll(all, datas, env.ladders);
      ghost var sp, s := SpaceView(), Ok;
      rs, s := StoreFound(all, places, keys, datas, env, rs0);
      PutNewIs(old(View()), cfg, keys, datas, all, env, sp, places, View(), s, rs);
    }

    method BatchPut(keys: seq<Key>, datas: seq<seq<byte>>, env: BatchEnv) returns (rs: seq<PutResult>)
      requires Valid() && SizesOk(datas)
      modifies this, metaIndex, metaIndex.nodes, pendingQueue, metaSyncClient, metaSyncClient.server, allocator
      ensures Valid() && NodesGrow()
      ensures (View(), rs) == BatchPutOp(old(View()), cfg, keys, datas, env)
    {
      if |keys| != |datas| {
        rs := seq(|keys|, _ => PutResult(InvalidArg, 0, 0));
      } else {
        NeededInRange(metaIndex.View(), keys, |keys|);
        NeededIncreasing(metaIndex.View(), keys, |keys|);
        TouchAllRecords(metaIndex.View(), keys, env.lookup);
        var needed := LookUpAll(keys, env.lookup);
        assert metaIndex.nodes == old(metaIndex.nodes);
        if needed == [] {
          rs := seq(|keys|, _ => PutResult(Ok, 0, 0));
        } else {
          rs := PutNeeded(needed, keys, datas, env);
        }
      }
    }

    // ---------- background work ----------

    /** One turn of the eviction queue's thread. */
    method QueueTick(now: nat)
      requires Valid()
      modifies pendingQueue, allocator
      ensures Valid() && SpaceView() == FlushExpiredSpec(old(SpaceView()), cfg.grace, now)
    {
      QueueInUse(SpaceView(), leaked);
      FlushExpiredConserves(SpaceView(), leaked, cfg.grace, now);
      pendingQueue.Tick(now);
    }

    /** One turn of the eviction thread: nothing below the high watermark, else the pass. */
    method WatermarkTurn(turns: nat -> Turn)
      requires Valid()
      modifies metaIndex, metaIndex.nodes, pendingQueue, metaSyncClient, metaSyncClient.server, allocator
      ensures Valid() && metaIndex.nodes == old(metaIndex.nodes)
      ensures SpaceView() == if Usage(old(allocator.View())) <= evictManager.highWatermark then old(SpaceView())
                             else PassSpec(old(SpaceView()), evictManager.lowWatermark, cfg.grace, turns, 0)
    {
      if allocator.GetUsageRatio() > evictManager.highWatermark {
        PassConserves(SpaceView(), leaked, evictManager.lowWatermark, cfg.grace, turns, 0);
        evictManager.EvictPass(turns, leaked);
      }
    }

    /** One turn of the commit thread. */
    method CommitTurn(r1: Rpc, r2: Rpc)
      requires Valid()
      modifies metaSyncClient, metaSyncClient.server
      ensures Valid() && SpaceView() == old(SpaceView()).(link := DrainSpec(old(SpaceView()).link, r1, r2))
    {
      metaSyncClient.AsyncCommitTurn(r1, r2);
    }

    /** The connection to Meta is back. */
    method Reconnected(reg: seq<Rpc>, calls: nat -> (Rpc, Rpc)) returns (ghost entries: seq<Record>)
      requires Valid() && |reg| == 3
      modifies metaSyncClient, metaSyncClient.server
      ensures Valid() && Enumerates(metaIndex.View(), entries)
      ensures SpaceView()
        == old(SpaceView()).(link := ResyncSpec(old(SpaceView()).link.(connected := true), metaSyncClient.info, entries,
                                                reg, calls))
    {
      entries := metaSyncClient.Reconnected(reg, calls);
    }
  }

  /** The slot of a record about to be overwritten. */
  ghost function Lost(sp: Space, k: Key): multiset<nat> {
    if k in sp.index.recs then multiset{sp.index.recs[k].offset} else multiset{}
  }

  /** A key's record, if it has one, leaves the index and its slot waits. */
  ghost function Dropped(sp: Space, k: Key, now: nat): Space {
    if k in sp.index.recs then Evicted(sp, k, now) else sp
  }

  lemma DroppedConserves(sp: Space, rest: multiset<nat>, k: Key, now: nat)
    requires Conserved(sp, rest)
    ensures Conserved(Dropped(sp, k, now), rest) && Dropped(sp, k, now).index == RemoveSpec(sp.index, k)
  {
    if k in sp.index.recs {
      RemoveConserves(sp, rest, k, now);
    } else {
      RemoveAbsent(sp.index, k);
    }
  }

  lemma RemoveAbsent(s: IndexState, k: Key)
    requires MetaIndex.Wf(s) && k !in s.recs
    ensures RemoveSpec(s, k) == s
  {
    WithoutAbsent(s.lru, k);
  }

  /** The first `i` keys have been looked up. */
  ghost predicate LookedUp(s0: IndexState, keys: seq<Key>, i: nat, now: nat, s: IndexState, needed: seq<nat>) {
    i <= |keys| && s == TouchAll(s0, keys[..i], now) && needed == Needed(s0, keys, i)
  }

  lemma LookUpOne(s0: IndexState, keys: seq<Key>, i: nat, now: nat, s: IndexState, needed: seq<nat>)
    requires LookedUp(s0, keys, i, now, s, needed) && i < |keys| && AllCommitted(s)
    ensures
      LookedUp(s0, keys, i + 1, now, TouchSpec(s, keys[i], now), if keys[i] in s.recs then needed else needed + [i])
  {
    TouchAllRecords(s0, keys[..i], now);
    assert keys[..i + 1][..i] == keys[..i];
  }

  // ---------- resuming the loop over the ladder ----------

  /** The positions of a batch, the slots the batch allocation found for the first of them, and
      what the operation held when the others began to go down the ladder. */
  datatype ReclaimJob = ReclaimJob(
    all: seq<nat>, datas: seq<seq<byte>>, ladders: nat -> Ladder, places: seq<Option<nat>>, start: Space,
        held: multiset<nat>)

  ghost predicate JobOk(job: ReclaimJob) {
    SizesOk(job.datas) && |job.places| <= |job.all| && InRange(job.all, |job.datas|) && Increasing(job.all)
  }

  /** The job with the answers `done` given and the store at `cur`. */
  ghost predicate JobRunning(job: ReclaimJob, grace: nat, cur: Space, done: seq<Option<nat>>) {
    && |job.places| + |done| <= |job.all|
    && EachRunning(job.start, job.datas, job.all[|job.places|..], grace, job.ladders, cur, done)
  }

  /** The results after the answers `done`, and the allocator that gave them. */
  ghost predicate JobAnswered(job: ReclaimJob, a: AllocState, rs: seq<PutResult>, done: seq<Option<nat>>) {
    && |job.places| + |done| <= |job.all|
    && AreAnswers(rs, |job.datas|, job.all[..|job.places| + |done|], job.places + done, a.slotSize)
  }

  /** A slot was found only in an allocator that knows its slot size. */
  ghost predicate FoundIn(a: AllocState, places: seq<Option<nat>>) { Found(places) != [] ==> a.initialized }

  /** The job goes on from where the ladder left the store. */
  lemma JobRuns(job: ReclaimJob, grace: nat, cur: Space, done: seq<Option<nat>>, size: nat, env: Ladder,
                next: Space, off: Option<nat>)
    requires JobOk(job) && |job.places| + |done| < |job.all| && JobRunning(job, grace, cur, done)
    requires
      var p := job.all[|job.places| + |done|];
      size == |job.datas[p]| && env == job.ladders(p) && (next, off) == LadderSpec(cur, size, grace, env)
    ensures JobRunning(job, grace, next, done + [off])
  {
    var tail := job.all[|job.places|..];
    assert tail[|done|] == job.all[|job.places| + |done|];
    EachNext(job.start, job.datas, tail, grace, job.ladders, cur, done);
  }

  lemma JobAnswersSoFar(job: ReclaimJob, a: AllocState, rs: seq<PutResult>, done: seq<Option<nat>>,
                        all: seq<nat>, j: nat, seen: seq<Option<nat>>, n: nat)
    requires JobAnswered(job, a, rs, done) && job.all == all && n == |job.datas|
    requires seen == job.places + done && j == |seen| <= |all|
    ensures AreAnswers(rs, n, all[..j], seen, a.slotSize)
  {
    SameAnswers(rs, n, job.all[..|job.places| + |done|], job.places + done, a.slotSize, all[..j], seen);
  }

  /** One more position has its answer. */
  lemma JobAnswers(job: ReclaimJob, done: seq<Option<nat>>, seen: seq<Option<nat>>, j: nat, a: AllocState,
                   off: Option<nat>, slot: nat, rs: seq<PutResult>)
    requires seen == job.places + done && j == |seen| < |job.all|
    requires AreAnswers(rs, |job.datas|, job.all[..j + 1], seen + [off], slot) && slot == a.slotSize
    requires FoundIn(a, seen + [off])
    ensures JobAnswered(job, a, rs, done + [off]) && FoundIn(a, job.places + (done + [off]))
    ensures WithSlot(job.held + multiset(Found(done)), off) == job.held + multiset(Found(done + [off]))
  {
    OneMoreDone(job.all, job.places, done, off);
    FoundSnoc(job.held, done, off);
    SameAnswers(rs, |job.datas|, job.all[..j + 1], seen + [off], slot,
                job.all[..|job.places| + |done + [off]|], job.places + (done + [off]));
  }

  lemma SameAnswers(rs: seq<PutResult>, n: nat, pos: seq<nat>, places: seq<Option<nat>>, slot: nat,
                    pos': seq<nat>, places': seq<Option<nat>>)
    requires |pos| == |places| && AreAnswers(rs, n, pos, places, slot) && pos == pos' && places == places'
    ensures AreAnswers(rs, n, pos', places', slot)
  {
  }

  lemma OneMoreDone(all: seq<nat>, places: seq<Option<nat>>, done: seq<Option<nat>>, off: Option<nat>)
    requires |places| + |done| < |all|
    ensures |done + [off]| == |done| + 1 && places + (done + [off]) == places + done + [off]
    ensures all[..|places| + |done + [off]|] == all[..|places| + |done| + 1]
  {
  }

  /** With the answers `done` given and the store at `cur`, the rest of the positions finish what
      began at `start`. */
  ghost predicate EachRunning(start: Space, datas: seq<seq<byte>>, pos: seq<nat>, grace: nat, ladders: nat -> Ladder,
                              cur: Space, done: seq<Option<nat>>) {
    MetaIndex.Wf(start.index) && MetaIndex.Wf(cur.index) && |done| <= |pos|
    && var (t, rest) := LadderEach(cur, datas, pos[|done|..], grace, ladders);
       LadderEach(start, datas, pos, grace, ladders) == (t, done + rest)
  }

  lemma EachStart(start: Space, datas: seq<seq<byte>>, pos: seq<nat>, grace: nat, ladders: nat -> Ladder)
    requires MetaIndex.Wf(start.index)
    ensures EachRunning(start, datas, pos, grace, ladders, start, [])
  {
    assert pos[0..] == pos;
    var rest := LadderEach(start, datas, pos, grace, ladders).1;
    assert [] + rest == rest;
  }

  lemma EachNext(start: Space, datas: seq<seq<byte>>, pos: seq<nat>, grace: nat, ladders: nat -> Ladder, cur: Space,
                 done: seq<Option<nat>>)
    requires EachRunning(start, datas, pos, grace, ladders, cur, done) && |done| < |pos| && pos[|done|] < |datas|
    ensures
      var (t, off) := LadderSpec(cur, |datas[pos[|done|]]|, grace, ladders(pos[|done|]));
      EachRunning(start, datas, pos, grace, ladders, t, done + [off])
  {
    var n := |done|;
    var (t, off) := LadderSpec(cur, |datas[pos[n]]|, grace, ladders(pos[n]));
    LadderKeepsWf(cur, |datas[pos[n]]|, grace, ladders(pos[n]));
    assert pos[n..][1..] == pos[n + 1..];
    var rest := LadderEach(t, datas, pos[n + 1..], grace, ladders).1;
    assert done + ([off] + rest) == done + [off] + rest;
  }

  lemma EachEnd(start: Space, datas: seq<seq<byte>>, pos: seq<nat>, grace: nat, ladders: nat -> Ladder, cur: Space,
                done: seq<Option<nat>>)
    requires EachRunning(start, datas, pos, grace, ladders, cur, done) && |done| == |pos|
    ensures LadderEach(start, datas, pos, grace, ladders) == (cur, done)
  {
    assert done + [] == done;
  }

  /** The whole of phase 1. */
  lemma JobDone(job: ReclaimJob, grace: nat, cur: Space, rs: seq<PutResult>, done: seq<Option<nat>>,
                rest: multiset<nat>, offs: seq<nat>)
    requires JobRunning(job, grace, cur, done) && JobAnswered(job, cur.alloc, rs, done)
    requires |done| == |job.all| - |job.places| && job.places == Somes(offs)
    requires job.held == rest + multiset(offs)
    ensures LadderEach(job.start, job.datas, job.all[|offs|..], grace, job.ladders) == (cur, done)
    ensures AreAnswers(rs, |job.datas|, job.all, Somes(offs) + done, cur.alloc.slotSize)
    ensures job.held + multiset(Found(done)) == rest + multiset(Found(Somes(offs) + done))
  {
    var tail := job.all[|offs|..];
    EachEnd(job.start, job.datas, tail, grace, job.ladders, cur, done);
    assert job.all[..|job.places| + |done|] == job.all;
    HeldInAll(rest, offs, done);
  }

  lemma HeldInAll(rest: multiset<nat>, offs: seq<nat>, done: seq<Option<nat>>)
    ensures rest + multiset(offs) + multiset(Found(done)) == rest + multiset(Found(Somes(offs) + done))
  {
    FoundConcat(Somes(offs), done);
    FoundSomes(offs);
    assert multiset(offs + Found(done)) == multiset(offs) + multiset(Found(done));
  }

  /** The next item of a batch is at position `i` exactly when the answer there has a slot. */
  lemma CollectNext(rs: seq<PutResult>, all: seq<nat>, places: seq<Option<nat>>, slot: nat, i: nat, c: nat)
    requires |all| == |places| && Increasing(all) && AreAnswers(rs, |rs|, all, places, slot) && i < |rs|
    requires Found(places) != [] ==> slot > 0
    requires
      var whole := Items(all, places);
      && c <= |whole| && (forall a :: 0 <= a < c ==> whole[a].pos < i)
      && (forall a :: c <= a < |whole| ==> whole[a].pos >= i)
    ensures
      var whole := Items(all, places);
      if rs[i].status == Ok && !(rs[i].offset == 0 && rs[i].allocSize == 0)
      then c < |whole| && whole[c] == Item(i, rs[i].offset) && (forall a :: c < a < |whole| ==> whole[a].pos > i)
      else forall a :: c <= a < |whole| ==> whole[a].pos > i
  {
    var whole := Items(all, places);
    ItemsAnswer(all, places, slot, i);
    ItemsIncreasing(all, places);
    ItemOffsetsFound(all, places);
    assert |ItemOffsets(whole)| == |whole|;
    OkShape(all, places, slot, i);
    if slot == 0 {
      NoneFound(all, places, slot, 1, i);
      OkShape(all, places, 1, i);
    }
    if ItemAt(whole, i) {
      var a :| 0 <= a < |whole| && whole[a].pos == i;
      ItemAnswer(all, places, slot, a);
      assert whole[c].pos >= i;
    }
  }

  /** An answer of Ok without a slot has no offset either. */
  lemma {:induction false} OkShape(pos: seq<nat>, places: seq<Option<nat>>, slot: nat, i: nat)
    requires |pos| == |places|
    ensures
      var r := ResultAt(pos, places, slot, i);
      r.status == Ok ==> r.allocSize == slot || (r.offset == 0 && r.allocSize == 0)
    decreases |pos|
  {
    if pos != [] { OkShape(pos[1..], places[1..], slot, i); }
  }

  /** The results after a batch: its answers, with every stored one turned into the failure if a
      write failed. */
  ghost predicate AreResults(all: seq<nat>, places: seq<Option<nat>>, slot: nat, s: Status, n: nat, rs: seq<PutResult>)
    requires |all| == |places|
  {
    rs == seq(n, i requires 0 <= i < n => BatchResult(all, places, slot, s, i))
  }

  lemma MarkedIsResult(all: seq<nat>, places: seq<Option<nat>>, slot: nat, s: Status, rs0: seq<PutResult>,
                       rs: seq<PutResult>)
    requires |all| == |places| && Increasing(all) && AreAnswers(rs0, |rs0|, all, places, slot)
      && (Found(places) != [] ==> slot > 0)
    requires if s == Ok then rs == rs0 else Marked(Items(all, places), rs0, s, rs)
    ensures AreResults(all, places, slot, s, |rs0|, rs)
  {
    ItemOffsetsFound(all, places);
    assert |ItemOffsets(Items(all, places))| == |Items(all, places)|;
    forall i | 0 <= i < |rs0| ensures rs[i] == BatchResult(all, places, slot, s, i) {
      ItemsAnswer(all, places, slot, i);
    }
  }

  /** `PutNew` put together from its parts. */
  lemma PutNewIs(w: World, cfg: Config, keys: seq<Key>, datas: seq<seq<byte>>, all: seq<nat>, env: BatchEnv,
                 sp: Space, places: seq<Option<nat>>, v: World, s: Status, rs: seq<PutResult>)
    requires MetaIndex.Wf(w.space.index) && |keys| == |datas| && all != [] && InRange(all, |keys|)
    requires (sp, places) == BatchPlace(w.space, cfg, datas, all, env.ladders) && ItemsIn(Items(all, places), |keys|)
    requires w.inflight == multiset{}
    requires (v, s) == BatchStore(w.(space := sp, inflight := multiset(ItemOffsets(Items(all, places)))), cfg, keys,
                                  datas, Items(all, places), env)
    requires AreResults(all, places, sp.alloc.slotSize, s, |keys|, rs)
    ensures (v, rs) == PutNew(w, cfg, keys, datas, all, env)
  {
    assert w.inflight + multiset(ItemOffsets(Items(all, places))) == multiset(ItemOffsets(Items(all, places)));
  }

  lemma IndexingStarts(w: World, keys: seq<Key>, datas: seq<seq<byte>>, slot: nat, commit: nat, items: seq<Item>)
    requires |keys| == |datas| && ItemsIn(items, |keys|)
    ensures w.inflight - multiset(ItemOffsets(items[..0])) == w.inflight
    ensures IndexEach(w, keys, datas, slot, commit, items[..0]) == w
      && RecordsOf(keys, datas, slot, commit, items[..0]) == []
    ensures items[..|items|] == items
  {
  }

  lemma RecordsSnoc(keys: seq<Key>, datas: seq<seq<byte>>, slot: nat, commit: nat, items: seq<Item>, j: nat)
    requires |keys| == |datas| && ItemsIn(items, |keys|) && j < |items|
    ensures RecordsOf(keys, datas, slot, commit, items[..j + 1])
      == RecordsOf(keys, datas, slot, commit, items[..j]) + [RecordOf(keys, datas, slot, commit, items[j])]
  {
  }

  lemma NextItem(inflight: multiset<nat>, items: seq<Item>, j: nat)
    requires j < |items| && multiset(ItemOffsets(items)) <= inflight
    ensures items[j].off in inflight - multiset(ItemOffsets(items[..j]))
    ensures inflight - multiset(ItemOffsets(items[..j])) - multiset{items[j].off}
      == inflight - multiset(ItemOffsets(items[..j + 1]))
  {
    var offs := ItemOffsets(items);
    assert ItemOffsets(items[..j]) == offs[..j] && ItemOffsets(items[..j + 1]) == offs[..j + 1];
    FreeNext(inflight, offs, j);
  }

  /** The results with those of the items replaced by the failure. */
  ghost predicate Marked(items: seq<Item>, rs0: seq<PutResult>, s: Status, rs: seq<PutResult>) {
    |rs| == |rs0| && forall i: nat :: i < |rs| ==> rs[i] == if ItemAt(items, i) then PutResult(s, 0, 0) else rs0[i]
  }

  lemma MarkNext(items: seq<Item>, rs0: seq<PutResult>, s: Status, j: nat, rs: seq<PutResult>)
    requires j < |items| && items[j].pos < |rs0| && Marked(items[..j], rs0, s, rs)
    ensures Marked(items[..j + 1], rs0, s, rs[items[j].pos := PutResult(s, 0, 0)])
  {
    ItemAtSnoc(items, j);
  }

  lemma FreeNext(rest: multiset<nat>, offs: seq<nat>, j: nat)
    requires j < |offs| && multiset(offs) <= rest
    ensures offs[j] in rest - multiset(offs[..j])
    ensures rest - multiset(offs[..j]) - multiset{offs[j]} == rest - multiset(offs[..j + 1])
    ensures offs[j..][1..] == offs[j + 1..] && offs[j..][0] == offs[j]
  {
    assert offs[..j + 1] == offs[..j] + [offs[j]];
    assert offs == offs[..j] + [offs[j]] + offs[j + 1..];
    assert multiset(offs) == multiset(offs[..j]) + multiset{offs[j]} + multiset(offs[j + 1..]);
  }

  lemma ItemAtSnoc(items: seq<Item>, j: nat)
    requires j < |items|
    ensures forall i: nat :: ItemAt(items[..j + 1], i) <==> ItemAt(items[..j], i) || items[j].pos == i
  {
    assert items[..j + 1] == items[..j] + [items[j]];
    forall i: nat | ItemAt(items[..j], i) ensures ItemAt(items[..j + 1], i) {
      var a :| 0 <= a < j && items[..j][a].pos == i;
      assert items[..j + 1][a].pos == i;
    }
    assert items[..j + 1][j].pos == items[j].pos;
  }

  lemma FoundSnoc(m: multiset<nat>, places: seq<Option<nat>>, off: Option<nat>)
    ensures Found(places + [off]) == Found(places) + if off.Some? then [off.value] else []
    ensures WithSlot(m + multiset(Found(places)), off) == m + multiset(Found(places + [off]))
  {
    FoundConcat(places, [off]);
    assert [off][1..] == [];
  }

  /** The answers after one more position, when the slot size may have just been fixed. */
  lemma AnswersNext(n: nat, all: seq<nat>, j: nat, places: seq<Option<nat>>, s1: nat, s2: nat, off: Option<nat>)
    requires Increasing(all) && j < |all| && all[j] < n && |places| == j && (Found(places) != [] ==> s1 == s2)
    ensures Answers(n, all[..j + 1], places + [off], s2)
      == Answers(n, all[..j], places, s1)[all[j] := if off.Some? then PutResult(Ok, off.value, s2)
                                          else PutResult(NoSpace, 0, 0)]
  {
    assert all[..j + 1] == all[..j] + [all[j]];
    assert all[j] !in all[..j];
    if Found(places) == [] {
      forall i | 0 <= i < n ensures ResultAt(all[..j], places, s1, i) == ResultAt(all[..j], places, s2, i) {
        NoneFound(all[..j], places, s1, s2, i);
      }
      assert Answers(n, all[..j], places, s1) == Answers(n, all[..j], places, s2);
    }
    AnswersSnoc(n, all[..j], places, s2, all[j], off);
  }
}
