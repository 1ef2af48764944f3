/** What an answer promises about presence (src/store/falconkv_store.cpp, `Put`, `BatchPut`, `Get`): a key
    whose bytes were stored is there, and stays until it is removed or an operation has to make room. */
module StorePresence {
  import opened Base
  import opened SlotAllocation
  import opened MetaIndex
  import opened MetaLink
  import opened StoreSpace
  import opened Eviction
  import opened StoreOps
  import opened StoreSteps
  import opened StoreRuns
  import opened StoreTraces
  import opened StoreBatches
  import opened StoreHistory
  import opened StoreBatchLaws
  import opened StoreTheorems
  import opened StoreReclaim

  // ---------- right after the answer ----------

  /** `Put` answers Ok only with the key in the index. */
  lemma PutIsPresent(w: World, cfg: Config, key: Key, data: seq<byte>, env: PutEnv)
    requires MetaIndex.Wf(w.space.index)
    ensures
      var (v, r) := PutOp(w, cfg, key, data, env);
      r.status == Ok ==> key in v.space.index.recs
  {
    if !Committed(w.space.index, key) { PutInHalves(w, cfg, key, data, env); }
  }

  /** An item is answered as stored exactly when it got a slot and all writes succeeded; then its key is
      in the index. */
  lemma PutNewIsPresent(u: World, cfg: Config, keys: seq<Key>, datas: seq<seq<byte>>, pos: seq<nat>, env: BatchEnv,
                        i: nat)
    requires Owned(u) && SizesOk(datas) && |keys| == |datas| && pos != [] && InRange(pos, |keys|) && Increasing(pos)
    requires i < |keys|
    ensures
      var items := Items(pos, BatchPlace(u.space, cfg, datas, pos, env.ladders).1);
      var (v, rs) := PutNew(u, cfg, keys, datas, pos, env);
      && |rs| == |keys| && ItemsIn(items, |keys|)
      && (Stored(rs[i]) <==> WriteEach(u.disk, items, datas, env.writes).1 == Ok && ItemAt(items, i))
      && (Stored(rs[i]) ==> keys[i] in v.space.index.recs)
  {
    var (sp, places) := BatchPlace(u.space, cfg, datas, pos, env.ladders);
    BatchPlacedWell(u.space, u.inflight + u.leaked, cfg, datas, pos, env.ladders);
    var items := Items(pos, places);
    ItemsInRange(pos, places, |keys|);
    var h := u.(space := sp, inflight := u.inflight + multiset(ItemOffsets(items)));
    var rs := PutNew(u, cfg, keys, datas, pos, env).1;
    AnswersMatch(sp, pos, places, items, BatchStore(h, cfg, keys, datas, items, env).1, rs);
    if Stored(rs[i]) { ItemIsIndexed(h, cfg, keys, datas, items, env, i); }
  }

  lemma ItemIsIndexed(h: World, cfg: Config, keys: seq<Key>, datas: seq<seq<byte>>, items: seq<Item>, env: BatchEnv,
                      i: nat)
    requires |keys| == |datas| && ItemsIn(items, |keys|) && MetaIndex.Wf(h.space.index)
    requires ItemAt(items, i) && i < |keys|
    requires BatchStore(h, cfg, keys, datas, items, env).1 == Ok
    ensures keys[i] in BatchStore(h, cfg, keys, datas, items, env).0.space.index.recs
  {
    var d := h.(disk := WriteEach(h.disk, items, datas, env.writes).0);
    IndexEachShape(d, keys, datas, h.space.alloc.slotSize, env.commit, items);
    assert KeyAmong(keys, items, keys[i]);
  }

  /** A batch answers an item as stored only with its key in the index. (An item answered Ok without a
      slot was there before the batch, and may have made room for the items after it.) */
  lemma BatchIsPresent(w: World, cfg: Config, keys: seq<Key>, datas: seq<seq<byte>>, env: BatchEnv, i: nat)
    requires Owned(w) && SizesOk(datas) && i < |keys|
    ensures
      var (v, rs) := BatchPutOp(w, cfg, keys, datas, env);
      |rs| == |keys| && (Stored(rs[i]) ==> keys[i] in v.space.index.recs)
  {
    var pos := Needed(w.space.index, keys, |keys|);
    if |keys| == |datas| && pos != [] {
      NeededInRange(w.space.index, keys, |keys|);
      NeededIncreasing(w.space.index, keys, |keys|);
      TouchAllConserves(w.space, w.inflight + w.leaked, keys, env.lookup);
      PutNewIsPresent(w.(space := w.space.(index := TouchAll(w.space.index, keys, env.lookup))), cfg, keys, datas, pos,
                      env, i);
    }
  }

  /** All writes of a batch are made, and its items are told of the last one that failed, if any did. */
  lemma {:induction false} LastFailureTells(d: Disk, items: seq<Item>, datas: seq<seq<byte>>,
                                            writes: nat -> WriteOutcome, i: nat)
    requires ItemsIn(items, |datas|)
    ensures
      var s := WriteEach(d, items, datas, writes).1;
      && ((forall j :: 0 <= j < |items| ==> writes(items[j].pos).Written?) ==> s == Ok)
      && (i < |items| && (forall j :: i < j < |items| ==> writes(items[j].pos).Written?) ==>
            match writes(items[i].pos)
            case Written => true
            case Failed(_) => s == IOError
            case Refused => s == InvalidArg)
    decreases |items|
  {
    if items != [] { LastFailureTells(d, items[..|items| - 1], datas, writes, i); }
  }

  /** Every item that was written bears that status, so one failed write fails them all. */
  lemma WrittenItemsAreTold(u: World, cfg: Config, keys: seq<Key>, datas: seq<seq<byte>>, pos: seq<nat>, env: BatchEnv,
                            a: nat)
    requires Owned(u) && SizesOk(datas) && |keys| == |datas| && pos != [] && InRange(pos, |keys|) && Increasing(pos)
    requires a < |Items(pos, BatchPlace(u.space, cfg, datas, pos, env.ladders).1)|
    ensures
      var items := Items(pos, BatchPlace(u.space, cfg, datas, pos, env.ladders).1);
      var rs := PutNew(u, cfg, keys, datas, pos, env).1;
      && ItemsIn(items, |keys|) && |rs| == |keys|
      && rs[items[a].pos].status == WriteEach(u.disk, items, datas, env.writes).1
  {
    var (sp, places) := BatchPlace(u.space, cfg, datas, pos, env.ladders);
    var items := Items(pos, places);
    ItemsInRange(pos, places, |keys|);
    ItemAnswer(pos, places, sp.alloc.slotSize, a);
    PutNewIsPresent(u, cfg, keys, datas, pos, env, items[a].pos);
    BatchPlacedWell(u.space, u.inflight + u.leaked, cfg, datas, pos, env.ladders);
    ItemOffsetsFound(pos, places);
    assert |ItemOffsets(items)| == |items|;
  }

  /** A batch with more keys than values, or fewer, is refused for every key and changes nothing. */
  lemma MismatchRefused(w: World, cfg: Config, keys: seq<Key>, datas: seq<seq<byte>>, env: BatchEnv, i: nat)
    requires MetaIndex.Wf(w.space.index) && |keys| != |datas| && i < |keys|
    ensures
      var (v, rs) := BatchPutOp(w, cfg, keys, datas, env);
      v == w && |rs| == |keys| && rs[i].status == InvalidArg && rs[i].allocSize == 0
  {
  }

  /** `Remove` tells the three cases apart: Meta failed, and nothing is removed; Meta was told, or is not there to
      be told, and the key was not indexed; or it was, and is no longer. */
  lemma RemoveAnswersIff(w: World, key: Key, rpc: Rpc, now: nat)
    ensures
      var (v, s) := RemoveOp(w, key, rpc, now);
      var told := !w.space.link.connected || rpc.Delivered?;
      && (s == RpcError <==> !told) && (s == NotFound <==> told && key !in w.space.index.recs)
      && (s == Ok <==> told && key in w.space.index.recs)
      && (s == Ok ==> key !in v.space.index.recs && |v.space.queue.entries| == |w.space.queue.entries| + 1)
      && (s != Ok ==> v.space.index == w.space.index && v.space.queue == w.space.queue)
  {
  }

  /** What a read says of a record with the bytes `data`. */
  function ReadBack(data: seq<byte>, bufferSize: nat, readOk: bool): GetResult {
    if bufferSize < |data| || data == [] then GetResult(InvalidArg, [])
    else if readOk then GetResult(Ok, data) else GetResult(IOError, [])
  }

  lemma GetIsReadBack(w: World, cfg: Config, k: Key, bufferSize: nat, readOk: bool, now: nat)
    requires Sound(w, cfg) && k in w.space.index.recs
    ensures k in w.written && GetOp(w, k, bufferSize, readOk, now).1 == ReadBack(w.written[k], bufferSize, readOk)
  {
    assert Holds(w, k);
  }

  /** Read your writes: after a `Put` answered as stored, a read finds exactly its bytes. */
  lemma PutThenGet(w: World, cfg: Config, key: Key, data: seq<byte>, env: PutEnv, bufferSize: nat, readOk: bool,
                   now: nat)
    requires Sound(w, cfg) && |data| < U32 && Stored(PutOp(w, cfg, key, data, env).1)
    ensures
      GetOp(PutOp(w, cfg, key, data, env).0, key, bufferSize, readOk, now).1 == ReadBack(data, bufferSize, readOk)
  {
    OpKeepsSound(w, cfg, PutOne(key, data, env));
    PutIsPresent(w, cfg, key, data, env);
    PutNotes(w, cfg, key, data, env);
    GetIsReadBack(PutOp(w, cfg, key, data, env).0, cfg, key, bufferSize, readOk, now);
  }

  /** And after a regular batch, each item stored last under its key. */
  lemma BatchThenGet(w: World, cfg: Config, keys: seq<Key>, datas: seq<seq<byte>>, env: BatchEnv, i: nat,
                     bufferSize: nat, readOk: bool, now: nat)
    requires Sound(w, cfg) && SizesOk(datas) && Regular(w.space, keys, datas) && |keys| == |datas|
    requires
      var rs := BatchPutOp(w, cfg, keys, datas, env).1;
      |rs| == |keys| && LastStoredAt(keys, rs, |keys|, i)
    ensures
      GetOp(BatchPutOp(w, cfg, keys, datas, env).0, keys[i], bufferSize, readOk, now).1
        == ReadBack(datas[i], bufferSize, readOk)
  {
    var (v, rs) := BatchPutOp(w, cfg, keys, datas, env);
    OpKeepsSound(w, cfg, PutMany(keys, datas, env));
    BatchIsPresent(w, cfg, keys, datas, env, i);
    BatchNotes(w, cfg, keys, datas, env);
    NotedLast(w.written, keys, datas, rs, |keys|, i);
    GetIsReadBack(v, cfg, keys[i], bufferSize, readOk, now);
  }

  // ---------- what is used last is evicted last ----------

  /** A read moves its key to the front of the list that eviction takes from the end of, read or not, and
      leaves the others in order. */
  lemma ReadGoesToFront(w: World, k: Key, bufferSize: nat, readOk: bool, now: nat)
    requires MetaIndex.Wf(w.space.index) && Committed(w.space.index, k)
    ensures
      var (v, lru) := (GetOp(w, k, bufferSize, readOk, now).0, w.space.index.lru);
      && v.space.index.lru != [] && v.space.index.lru[0] == k && v.space.index.recs[k].accessTime == now
      && exists i :: 0 <= i < |lru| && lru[i] == k && v.space.index.lru[1..] == lru[..i] + lru[i + 1..]
  {
    var lru := w.space.index.lru;
    var i :| 0 <= i < |lru| && lru[i] == k;
    WithoutAt(lru, i);
    assert ([k] + Without(lru, k))[1..] == Without(lru, k);
  }

  /** So does a put, of a key already there or new. */
  lemma PutGoesToFront(w: World, cfg: Config, key: Key, data: seq<byte>, env: PutEnv)
    requires MetaIndex.Wf(w.space.index) && PutOp(w, cfg, key, data, env).1.status == Ok
    ensures
      var lru := PutOp(w, cfg, key, data, env).0.space.index.lru;
      lru != [] && lru[0] == key
  {
    if !Committed(w.space.index, key) { PutInHalves(w, cfg, key, data, env); }
  }

  /** And a batch of keys already there: each is answered Ok, and moved to the front in turn. */
  lemma KnownBatchGoesToFront(w: World, cfg: Config, keys: seq<Key>, datas: seq<seq<byte>>, env: BatchEnv)
    requires MetaIndex.Wf(w.space.index) && |keys| == |datas| > 0
    requires forall k :: k in keys ==> Committed(w.space.index, k)
    ensures
      var (v, rs) := BatchPutOp(w, cfg, keys, datas, env);
      && (forall i :: 0 <= i < |rs| ==> rs[i] == PutResult(Ok, 0, 0))
      && v.space.index.lru != [] && v.space.index.lru[0] == keys[|keys| - 1]
      && keys[|keys| - 1] in v.space.index.recs && v.space.index.recs[keys[|keys| - 1]].accessTime == env.lookup
  {
    AllThere(w.space.index, keys, |keys|);
    var n := |keys| - 1;
    TouchAllRecords(w.space.index, keys[..n], env.lookup);
    assert Committed(w.space.index, keys[n]);
  }

  lemma {:induction false} AllThere(s: IndexState, keys: seq<Key>, n: nat)
    requires n <= |keys| && forall k :: k in keys ==> Committed(s, k)
    ensures Needed(s, keys, n) == []
  {
    if n > 0 { AllThere(s, keys, n - 1); }
  }

  // ---------- until an operation makes room ----------

  /** A size that fits, and a waiting slot old enough to take it. */
  ghost predicate HasOldSlot(w: World, cfg: Config, size: nat, now: nat) {
    && Admissible(w.space.alloc, size) && now < U64 && EnqueuedBy(w, now)
    && exists e :: e in w.space.queue.entries && now - e.enqueuedAt >= cfg.grace
  }

  /** Free slots, and waiting ones old enough at the first ladder, for all the new items of a batch. */
  ghost predicate HasOldSlots(w: World, cfg: Config, datas: seq<seq<byte>>, pos: seq<nat>, env: BatchEnv) {
    && w.space.alloc.initialized && w.space.alloc.nextSlot <= w.space.alloc.totalSlots && |pos| < U32
    && InRange(pos, |datas|) && (forall i :: 0 <= i < |pos| ==> Admissible(w.space.alloc, |datas[pos[i]]|))
    && var n := FreeSlots(w.space.alloc);
       n < |pos| ==>
         var now := env.ladders(pos[n]).flush1;
         now < U64 && EnqueuedBy(w, now) && |pos| <= n + OldCount(w.space.queue.entries, cfg.grace, now)
  }

  /** The operations that can take `k` out of the index: its removal, and those that find no free slot,
      none that has waited long enough, or too high a usage, and evict. */
  ghost predicate MayForget(w: World, cfg: Config, op: Op, k: Key) {
    match op
    case PutOne(j, data, env) =>
      && !Committed(w.space.index, j) && Allocate(w.space, |data|).1.None?
      && !HasOldSlot(w, cfg, |data|, env.ladder.flush1)
    case PutMany(keys, datas, env) =>
      var pos := Needed(w.space.index, keys, |keys|);
      && |keys| == |datas| && pos != [] && !HasOldSlots(w, cfg, datas, pos, env)
      && (pos[0] < |datas| ==> |RepeatAlloc(w.space.alloc, |datas[pos[0]]|, Low32(|pos|)).1| < |pos|)
    case Delete(j, _, _) => j == k
    case WatermarkPass(low, _) => Usage(w.space.alloc) > low
    case _ => false
  }

  lemma RoomyPutKeeps(w: World, cfg: Config, key: Key, data: seq<byte>, env: PutEnv)
    requires Owned(w) && |data| < U32 && !MayForget(w, cfg, PutOne(key, data, env), key)
    ensures Shrinks(PutOp(w, cfg, key, data, env).0.space.index, w.space.index)
  {
    if !Committed(w.space.index, key) {
      if Allocate(w.space, |data|).1.Some? {
        PutInHalves(w, cfg, key, data, env);
      } else {
        var e :| e in w.space.queue.entries && env.ladder.flush1 - e.enqueuedAt >= cfg.grace;
        PutReusesOldSlots(w, cfg, key, data, env, e);
      }
    }
  }

  lemma RoomyBatchKeeps(w: World, cfg: Config, keys: seq<Key>, datas: seq<seq<byte>>, env: BatchEnv, k: Key)
    requires Owned(w) && SizesOk(datas) && k in w.space.index.recs
    requires !MayForget(w, cfg, PutMany(keys, datas, env), k)
    ensures k in BatchPutOp(w, cfg, keys, datas, env).0.space.index.recs
  {
    var pos := Needed(w.space.index, keys, |keys|);
    TouchAllRecords(w.space.index, keys, env.lookup);
    if |keys| == |datas| && pos != [] && HasOldSlots(w, cfg, datas, pos, env) {
      BatchReusesOldSlots(w, cfg, keys, datas, env);
    } else if |keys| == |datas| && pos != [] {
      NeededInRange(w.space.index, keys, |keys|);
      var u := w.(space := w.space.(index := TouchAll(w.space.index, keys, env.lookup)));
      var (sp, places) := BatchPlace(u.space, cfg, datas, pos, env.ladders);
      RepeatAllocLength(u.space.alloc, |datas[pos[0]]|, Low32(|pos|));
      assert sp.index == u.space.index;
      ItemsInRange(pos, places, |keys|);
      StoreKeeps(u.(space := sp, inflight := u.inflight + multiset(ItemOffsets(Items(pos, places)))), cfg, keys, datas,
                 Items(pos, places), env, k);
    }
  }

  lemma StoreKeeps(h: World, cfg: Config, keys: seq<Key>, datas: seq<seq<byte>>, items: seq<Item>, env: BatchEnv,
                   k: Key)
    requires |keys| == |datas| && ItemsIn(items, |keys|) && MetaIndex.Wf(h.space.index) && k in h.space.index.recs
    ensures k in BatchStore(h, cfg, keys, datas, items, env).0.space.index.recs
  {
    var d := h.(disk := WriteEach(h.disk, items, datas, env.writes).0);
    IndexEachShape(d, keys, datas, h.space.alloc.slotSize, env.commit, items);
  }

  lemma IndexUntouched(w: World, cfg: Config, op: Op)
    requires MetaIndex.Wf(w.space.index) && Allowed(w, cfg, op)
    requires op.QueueTick? || op.QueueStop? || op.CommitTurn? || op.Reconnect? || op.Elsewhere?
    ensures Perform(w, cfg, op).0.space.index == w.space.index
  {
  }

  /** No other operation takes the key out. */
  lemma OpKeepsKey(w: World, cfg: Config, op: Op, k: Key)
    requires Owned(w) && Allowed(w, cfg, op) && k in w.space.index.recs && !MayForget(w, cfg, op, k)
    ensures k in Perform(w, cfg, op).0.space.index.recs
  {
    match op
    case PutOne(j, data, env) => RoomyPutKeeps(w, cfg, j, data, env);
    case PutMany(keys, datas, env) => RoomyBatchKeeps(w, cfg, keys, datas, env, k);
    case LookUp(keys, now) => TouchAllRecords(w.space.index, keys, now);
    case ReadOne(_, _, _, _) =>
    case Delete(_, _, _) =>
    case WatermarkPass(_, _) =>
    case _ => IndexUntouched(w, cfg, op);
  }

  ghost predicate NeverForgets(w: World, cfg: Config, ops: seq<Op>, k: Key)
    requires OpsAllowed(w, cfg, ops, false)
    decreases |ops|
  {
    ops == [] || (!MayForget(w, cfg, ops[0], k) && NeverForgets(Perform(w, cfg, ops[0]).0, cfg, ops[1..], k))
  }

  lemma {:induction false} OpsKeepKey(w: World, cfg: Config, ops: seq<Op>, k: Key)
    requires Clean(w) && OpsAllowed(w, cfg, ops, false) && NeverForgets(w, cfg, ops, k) && k in w.space.index.recs
    ensures k in After(w, cfg, ops).space.index.recs
    decreases |ops|
  {
    if ops != [] {
      OpKeepsKey(w, cfg, ops[0], k);
      OpKeepsClean(w, cfg, ops[0]);
      OpsKeepKey(Perform(w, cfg, ops[0]).0, cfg, ops[1..], k);
    }
  }

  /** Once a key is there, as after an answer that says so, every read finds it until an operation
      removes it or makes room, and finds the bytes last stored. */
  lemma PresentStaysReadable(w: World, cfg: Config, ops: seq<Op>, k: Key, bufferSize: nat, readOk: bool, now: nat)
    requires Sound(w, cfg) && OpsAllowed(w, cfg, ops, true) && OpsAllowed(w, cfg, ops, false)
    requires k in w.space.index.recs && NeverForgets(w, cfg, ops, k)
    ensures
      var v, known := After(w, cfg, ops), LastStored(w.written, ops, Replies(w, cfg, ops));
      k in known && GetOp(v, k, bufferSize, readOk, now).1 == ReadBack(known[k], bufferSize, readOk)
  {
    OpsKeepKey(w, cfg, ops, k);
    OpsKeepSound(w, cfg, ops);
    GetIsReadBack(After(w, cfg, ops), cfg, k, bufferSize, readOk, now);
  }

  // ---------- records without bytes ----------

  /** `Put` stores no empty record. */
  lemma EmptyIsNeverPut(w: World, cfg: Config, key: Key, env: PutEnv)
    requires MetaIndex.Wf(w.space.index)
    ensures !Stored(PutOp(w, cfg, key, [], env).1)
  {
  }

  /** A batch does, exactly when the write goes through io_uring, which takes an empty item; and what it
      answers as stored no read gives back. */
  lemma EmptyItemIsUnreadable(w: World, cfg: Config, key: Key, env: BatchEnv, bufferSize: nat, readOk: bool, now: nat)
    requires Clean(w) && w.space.alloc.initialized && !w.space.alloc.autoDetected && !Full(w.space.alloc)
    requires key !in w.space.index.recs
    ensures
      var (v, rs) := BatchPutOp(w, cfg, [key], [[]], env);
      && |rs| == 1 && (Stored(rs[0]) <==> env.writes(0) == Written)
      && (Stored(rs[0]) ==> key in v.space.index.recs)
      && GetOp(v, key, bufferSize, readOk, now).1.status != Ok
  {
    EmptyBatchIsNew(w, cfg, key, env);
    EmptyItemStored(w, cfg, [key], [[]], env);
  }

  lemma EmptyBatchIsNew(w: World, cfg: Config, key: Key, env: BatchEnv)
    requires MetaIndex.Wf(w.space.index) && key !in w.space.index.recs
    ensures BatchPutOp(w, cfg, [key], [[]], env) == PutNew(w, cfg, [key], [[]], [0], env)
  {
    assert [key][..0] == [];
    assert TouchAll(w.space.index, [key], env.lookup) == w.space.index;
    assert Needed(w.space.index, [key], 0) == [] && Needed(w.space.index, [key], 1) == [0];
  }

  lemma EmptyItemStored(w: World, cfg: Config, keys: seq<Key>, datas: seq<seq<byte>>, env: BatchEnv)
    requires Clean(w) && w.space.alloc.initialized && !w.space.alloc.autoDetected && !Full(w.space.alloc)
    requires |keys| == 1 && datas == [[]] && keys[0] !in w.space.index.recs
    ensures
      var (v, rs) := PutNew(w, cfg, keys, datas, [0], env);
      && |rs| == 1 && (Stored(rs[0]) <==> env.writes(0) == Written)
      && (Stored(rs[0]) ==> keys[0] in v.space.index.recs)
      && (keys[0] in v.space.index.recs ==> v.space.index.recs[keys[0]].size == 0)
  {
    EmptyItemPlaced(w.space, cfg, env.ladders);
    PutNewIsPresent(w, cfg, keys, datas, [0], env, 0);
    var (sp, places) := BatchPlace(w.space, cfg, datas, [0], env.ladders);
    EmptyItemWritten(w.disk, places[0].value, datas, env.writes);
    assert Items([0], places) == [Item(0, places[0].value)] by { assert places[1..] == [] && [0][1..] == []; }
    EmptyItemIndexed(w.(space := sp, inflight := w.inflight + multiset(ItemOffsets([Item(0, places[0].value)]))), cfg,
                     keys, datas, places[0].value, env);
  }

  lemma EmptyItemPlaced(sp: Space, cfg: Config, ladders: nat -> Ladder)
    requires MetaIndex.Wf(sp.index) && SlotAllocation.Wf(sp.alloc) && sp.alloc.initialized && !sp.alloc.autoDetected
    requires !Full(sp.alloc)
    ensures
      var (t, places) := BatchPlace(sp, cfg, [[]], [0], ladders);
      |places| == 1 && places[0].Some? && t.index == sp.index
  {
    RepeatTakesFree(sp.alloc, 0, 1);
    assert Low32(1) == 1;
  }

  lemma EmptyItemWritten(d: Disk, off: nat, datas: seq<seq<byte>>, writes: nat -> WriteOutcome)
    requires datas == [[]]
    ensures WriteEach(d, [Item(0, off)], datas, writes).1 == Ok <==> writes(0) == Written
  {
    assert [Item(0, off)][..0] == [];
  }

  lemma EmptyItemIndexed(h: World, cfg: Config, keys: seq<Key>, datas: seq<seq<byte>>, off: nat, env: BatchEnv)
    requires |keys| == 1 && datas == [[]] && keys[0] !in h.space.index.recs
    ensures
      var v := BatchStore(h, cfg, keys, datas, [Item(0, off)], env).0;
      keys[0] in v.space.index.recs ==> v.space.index.recs[keys[0]].size == 0
  {
    assert [Item(0, off)][..0] == [];
  }
}
