/** The store's guarantees over every run of its operations: slots are conserved, the store is a
    lossy map, readers of an evicted slot are protected for the grace period, and Meta never
    names a slot the store may rewrite. */
module StoreTheorems {
  import opened Base
  import opened SlotAllocation
  import opened MetaIndex
  import opened PendingQueue
  import opened MetaTable
  import opened MetaLink
  import opened StoreSpace
  import opened Eviction
  import opened StoreOps
  import opened StoreProgress
  import opened StoreSteps
  import opened StoreRuns
  import opened StoreTraces
  import opened StoreBatches
  import opened StoreHistory
  import opened StoreBatchLaws

  /** The operations and background ticks of one store, each with what it meets. */
  datatype Op =
    | PutOne(key: Key, data: seq<byte>, put: PutEnv)
    | PutMany(keys: seq<Key>, datas: seq<seq<byte>>, batch: BatchEnv)
    | ReadOne(key: Key, bufferSize: nat, readOk: bool, now: nat)
    | LookUp(keys: seq<Key>, now: nat)
    | Delete(key: Key, rpc: Rpc, now: nat)
    | QueueTick(now: nat)
    | QueueStop
    | WatermarkPass(low: real, turns: nat -> Turn)
    | CommitTurn(r1: Rpc, r2: Rpc)
    | Reconnect(info: StoreInfo, entries: seq<Record>, reg: seq<Rpc>, calls: nat -> (Rpc, Rpc))
    | Elsewhere(table: Table, stores: map<nat, StoreInfo>)

  datatype Reply =
    | PutSaid(one: PutResult)
    | BatchSaid(many: seq<PutResult>)
    | ReadSaid(read: GetResult)
    | Said(status: Status)
    | Silent

  /** What the operation demands: 32-bit sizes, a listing of the index for a resync, and other
      stores that leave this store's records alone. */
  ghost predicate Allowed(w: World, cfg: Config, op: Op) {
    match op
    case PutOne(_, data, _) => |data| < U32
    case PutMany(_, datas, _) => SizesOk(datas)
    case Reconnect(info, entries, reg, calls) => Enabled(w, cfg, Resync(info, entries, reg, calls))
    case Elsewhere(table, stores) => Enabled(w, cfg, OtherStores(table, stores))
    case _ => true
  }

  ghost function Perform(w: World, cfg: Config, op: Op): (World, Reply)
    requires MetaIndex.Wf(w.space.index) && Allowed(w, cfg, op)
  {
    match op
    case PutOne(k, data, env) => var (v, r) := PutOp(w, cfg, k, data, env); (v, PutSaid(r))
    case PutMany(keys, datas, env) => var (v, rs) := BatchPutOp(w, cfg, keys, datas, env); (v, BatchSaid(rs))
    case ReadOne(k, size, ok, now) => var (v, r) := GetOp(w, k, size, ok, now); (v, ReadSaid(r))
    case LookUp(keys, now) => (w.(space := w.space.(index := TouchAll(w.space.index, keys, now))), Silent)
    case Delete(k, rpc, now) => var (v, s) := RemoveOp(w, k, rpc, now); (v, Said(s))
    case QueueTick(now) => (Do(w, cfg, FlushDue(now)), Silent)
    case QueueStop => (Do(w, cfg, FlushForced), Silent)
    case WatermarkPass(low, turns) => (w.(space := PassSpec(w.space, low, cfg.grace, turns, 0)), Silent)
    case CommitTurn(r1, r2) => (Do(w, cfg, DrainCommits(r1, r2)), Silent)
    case Reconnect(info, entries, reg, calls) => (Do(w, cfg, Resync(info, entries, reg, calls)), Silent)
    case Elsewhere(table, stores) => (Do(w, cfg, OtherStores(table, stores)), Silent)
  }

  /** Every batch has distinct new keys and no new item larger than the slot. */
  ghost predicate RegularOp(w: World, op: Op) {
    op.PutMany? ==> Regular(w.space, op.keys, op.datas)
  }

  /** The clock readings of the operation lie between `lo` and `hi` and do not go back. */
  ghost predicate OpTimed(w: World, op: Op, lo: nat, hi: nat) {
    lo <= hi &&
    match op
    case PutOne(_, _, env) => LadderTimed(env.ladder, lo, hi)
    case PutMany(keys, _, env) => LaddersTimed(Needed(w.space.index, keys, |keys|), env.ladders, lo, hi)
    case Delete(_, _, now) => lo <= now <= hi
    case QueueTick(now) => lo <= now <= hi
    case WatermarkPass(_, turns) => PassTimed(turns, 0, lo, hi)
    case _ => true
  }

  /** Between operations no slot is in anybody's hands. */
  ghost predicate Clean(w: World) {
    Owned(w) && w.inflight == multiset{}
  }

  ghost predicate Sound(w: World, cfg: Config) {
    Clean(w) && Contents(w) && MetaAgrees(w, cfg) && w.leaked == multiset{}
  }

  // ---------- every operation is a run of steps ----------

  lemma OneStepOp(w: World, cfg: Config, op: Op, s: Step, mode: Mode, lo: nat, hi: nat) returns (tr: seq<Step>)
    requires Owned(w) && Allowed(w, cfg, op) && (mode.timed ==> OpTimed(w, op, lo, hi))
    requires Enabled(w, cfg, s) && Strict(w, s) && Perform(w, cfg, op).0 == Do(w, cfg, s)
    requires mode.timed && TimeOf(s).Some? ==> lo <= TimeOf(s).value <= hi
    ensures Reaches(w, cfg, tr, Perform(w, cfg, op).0, mode, lo, hi)
  {
    tr := [s];
    ReachesOne(w, cfg, s, mode, lo, hi);
  }

  lemma OpRun(w: World, cfg: Config, op: Op, mode: Mode, lo: nat, hi: nat) returns (tr: seq<Step>)
    requires Owned(w) && Allowed(w, cfg, op)
    requires (mode.strict ==> RegularOp(w, op)) && (mode.timed ==> OpTimed(w, op, lo, hi))
    ensures Reaches(w, cfg, tr, Perform(w, cfg, op).0, mode, lo, hi)
  {
    match op
    case PutOne(k, data, env) => tr := PutRun(w, cfg, k, data, env, mode, lo, hi);
    case PutMany(keys, datas, env) => tr := BatchPutRun(w, cfg, keys, datas, env, mode, lo, hi);
    case ReadOne(k, size, ok, now) => tr := OneStepOp(w, cfg, op, TouchKey(k, now), mode, lo, hi);
    case LookUp(keys, now) => tr := TouchRun(w, cfg, keys, now, mode, lo, hi);
    case Delete(k, rpc, now) => tr := OneStepOp(w, cfg, op, RemoveKey(k, rpc, now), mode, lo, hi);
    case QueueTick(now) => tr := OneStepOp(w, cfg, op, FlushDue(now), mode, lo, hi);
    case QueueStop => tr := OneStepOp(w, cfg, op, FlushForced, mode, lo, hi);
    case WatermarkPass(low, turns) => tr := PassRun(w, cfg, low, turns, 0, mode, lo, hi);
    case CommitTurn(r1, r2) => tr := OneStepOp(w, cfg, op, DrainCommits(r1, r2), mode, lo, hi);
    case Reconnect(info, entries, reg, calls) =>
      tr := OneStepOp(w, cfg, op, Resync(info, entries, reg, calls), mode, lo, hi);
    case Elsewhere(table, stores) => tr := OneStepOp(w, cfg, op, OtherStores(table, stores), mode, lo, hi);
  }

  /** What a client remembers after an answer. */
  function Remember(m: map<Key, seq<byte>>, op: Op, reply: Reply): map<Key, seq<byte>> {
    match (op, reply)
    case (PutOne(k, data, _), PutSaid(r)) => if Stored(r) then m[k := data] else m
    case (PutMany(keys, datas, _), BatchSaid(rs)) =>
      if |keys| == |datas| == |rs| then Noted(m, keys, datas, rs, |keys|) else m
    case _ => m
  }

  /** An operation lets go of every slot it took, and the store's history is the client's. */
  lemma OpNotes(w: World, cfg: Config, op: Op)
    requires Owned(w) && Allowed(w, cfg, op)
    ensures
      var (v, reply) := Perform(w, cfg, op);
      v.inflight == w.inflight && v.written == Remember(w.written, op, reply)
  {
    match op
    case PutOne(k, data, env) => PutNotes(w, cfg, k, data, env);
    case PutMany(keys, datas, env) => BatchNotes(w, cfg, keys, datas, env);
    case _ =>
  }

  lemma OpKeepsClean(w: World, cfg: Config, op: Op)
    requires Clean(w) && Allowed(w, cfg, op)
    ensures Clean(Perform(w, cfg, op).0)
  {
    var tr := OpRun(w, cfg, op, Mode(false, false), 0, 0);
    RunKeepsOwned(w, cfg, tr);
    OpNotes(w, cfg, op);
  }

  lemma OpKeepsSound(w: World, cfg: Config, op: Op)
    requires Sound(w, cfg) && Allowed(w, cfg, op) && RegularOp(w, op)
    ensures Sound(Perform(w, cfg, op).0, cfg)
  {
    OpKeepsClean(w, cfg, op);
    var tr := OpRun(w, cfg, op, Mode(true, false), 0, 0);
    RunKeepsContents(w, cfg, tr);
    RunLeaksNothing(w, cfg, tr);
  }

  // ---------- runs of operations ----------

  ghost predicate OpsAllowed(w: World, cfg: Config, ops: seq<Op>, regular: bool)
    decreases |ops|
  {
    ops == [] || (&& MetaIndex.Wf(w.space.index) && Allowed(w, cfg, ops[0]) && (regular ==> RegularOp(w, ops[0]))
                  && OpsAllowed(Perform(w, cfg, ops[0]).0, cfg, ops[1..], regular))
  }

  ghost function After(w: World, cfg: Config, ops: seq<Op>): World
    requires OpsAllowed(w, cfg, ops, false)
    decreases |ops|
  {
    if ops == [] then w else After(Perform(w, cfg, ops[0]).0, cfg, ops[1..])
  }

  ghost function Replies(w: World, cfg: Config, ops: seq<Op>): (r: seq<Reply>)
    requires OpsAllowed(w, cfg, ops, false)
    ensures |r| == |ops|
    decreases |ops|
  {
    if ops == [] then [] else [Perform(w, cfg, ops[0]).1] + Replies(Perform(w, cfg, ops[0]).0, cfg, ops[1..])
  }

  /** The bytes last stored under each key, as the clients know them from the answers. */
  function LastStored(m: map<Key, seq<byte>>, ops: seq<Op>, replies: seq<Reply>): map<Key, seq<byte>>
    requires |ops| == |replies|
    decreases |ops|
  {
    if ops == [] then m else LastStored(Remember(m, ops[0], replies[0]), ops[1..], replies[1..])
  }

  lemma {:induction false} OpsKeepClean(w: World, cfg: Config, ops: seq<Op>)
    requires Clean(w) && OpsAllowed(w, cfg, ops, false)
    ensures Clean(After(w, cfg, ops))
    decreases |ops|
  {
    if ops != [] {
      OpKeepsClean(w, cfg, ops[0]);
      OpsKeepClean(Perform(w, cfg, ops[0]).0, cfg, ops[1..]);
    }
  }

  lemma {:induction false} OpsKeepSound(w: World, cfg: Config, ops: seq<Op>)
    requires Sound(w, cfg) && OpsAllowed(w, cfg, ops, true) && OpsAllowed(w, cfg, ops, false)
    ensures Sound(After(w, cfg, ops), cfg)
    ensures After(w, cfg, ops).written == LastStored(w.written, ops, Replies(w, cfg, ops))
    decreases |ops|
  {
    if ops != [] {
      OpKeepsSound(w, cfg, ops[0]);
      OpNotes(w, cfg, ops[0]);
      OpsKeepSound(Perform(w, cfg, ops[0]).0, cfg, ops[1..]);
      var rs := Replies(w, cfg, ops);
      assert rs[1..] == Replies(Perform(w, cfg, ops[0]).0, cfg, ops[1..]);
    }
  }

  // ---------- slots are conserved ----------

  function One(b: bool): nat { if b then 1 else 0 }

  /** In every reachable state each slot of the store is exactly one of: never used, on the free
      stack, an indexed key's, waiting in the eviction queue, or lost to an overwritten record;
      and it is so once. */
  lemma EverySlotHasOneHolder(w: World, cfg: Config, ops: seq<Op>, slot: nat)
    requires Clean(w) && OpsAllowed(w, cfg, ops, false)
    requires After(w, cfg, ops).space.alloc.initialized && slot < After(w, cfg, ops).space.alloc.totalSlots
    ensures
      var v := After(w, cfg, ops);
      var (a, off) := (v.space.alloc, OffsetOf(slot, v.space.alloc.slotSize));
      && One(slot >= a.nextSlot) + One(slot in a.freeStack) + KeyOffsets(v.space.index.recs, v.space.index.lru)[off]
           + multiset(OffsetsOf(v.space.queue.entries))[off] + v.leaked[off] == 1
      && a.usedSlots == |v.space.index.lru| + |v.space.queue.entries| + |v.leaked|
  {
    OpsKeepClean(w, cfg, ops);
    var v := After(w, cfg, ops);
    var a := v.space.alloc;
    assert v.inflight + v.leaked == v.leaked;
    UsedIsHeld(v.space, v.leaked);
    var off := OffsetOf(slot, a.slotSize);
    InUseMember(a, off);
    if off in InUse(a) {
      var i := SlotOf(a, off);
      SlotUnique(i, slot, a.slotSize);
    }
    assert multiset(InUse(a))[off] == One(off in InUse(a)) == One(Taken(a, slot));
    HeldOnce(v, off);
  }

  lemma HeldOnce(v: World, off: nat)
    requires Clean(v)
    ensures multiset(InUse(v.space.alloc))[off]
      == KeyOffsets(v.space.index.recs, v.space.index.lru)[off]
         + multiset(OffsetsOf(v.space.queue.entries))[off] + v.leaked[off]
  {
    assert v.inflight + v.leaked == v.leaked;
  }

  // ---------- the store is a lossy map ----------

  /** A new store over any file, with any link to Meta. */
  ghost function Start(totalBytes: nat, slotSize: nat, disk: Disk, link: LinkState): World {
    World(Space(Fresh(totalBytes, slotSize), EMPTY_INDEX, EMPTY_QUEUE, link), disk, multiset{}, multiset{}, map[])
  }

  /** Meta knows no record of this store, or only such as it was not told to forget. */
  ghost predicate NothingAtMeta(link: LinkState, cfg: Config) {
    link.queue == [] && forall k :: k in link.table && link.table[k].storeId == cfg.storeId ==> k in link.unannounced
  }

  lemma StartIsSound(totalBytes: nat, slotSize: nat, disk: Disk, link: LinkState, cfg: Config)
    requires slotSize < U32 && NothingAtMeta(link, cfg)
    ensures Sound(Start(totalBytes, slotSize, disk, link), cfg)
  {
    EmptyConserved(totalBytes, slotSize, link);
  }

  /** After any run of operations, whatever was allocated, evicted, flushed, half written or put
      again: a read finds the key or not; if it does, it returns exactly the bytes the clients
      last stored under that key (a record of no bytes, which only a batch can store, cannot be
      read back). */
  lemma StoreIsLossyMap(w: World, cfg: Config, ops: seq<Op>, k: Key, bufferSize: nat, readOk: bool, now: nat)
    requires Sound(w, cfg) && OpsAllowed(w, cfg, ops, true) && OpsAllowed(w, cfg, ops, false)
    ensures
      var v, known := After(w, cfg, ops), LastStored(w.written, ops, Replies(w, cfg, ops));
      var r := GetOp(v, k, bufferSize, readOk, now).1;
      if k !in v.space.index.recs then r == GetResult(NotFound, [])
      else
        && k in known
        && r == if bufferSize < |known[k]| || known[k] == [] then GetResult(InvalidArg, [])
                else if readOk then GetResult(Ok, known[k]) else GetResult(IOError, [])
  {
    OpsKeepSound(w, cfg, ops);
    var v := After(w, cfg, ops);
    if k in v.space.index.recs { assert Holds(v, k); }
  }

  // ---------- readers are protected for the grace period ----------

  ghost predicate OpsTimed(w: World, cfg: Config, ops: seq<Op>, times: seq<nat>)
    requires OpsAllowed(w, cfg, ops, false) && |times| == |ops| + 1
    decreases |ops|
  {
    ops == [] || (OpTimed(w, ops[0], times[0], times[1])
                  && OpsTimed(Perform(w, cfg, ops[0]).0, cfg, ops[1..], times[1..]))
  }

  lemma {:induction false} OpsRun(w: World, cfg: Config, ops: seq<Op>, times: seq<nat>) returns (tr: seq<Step>)
    requires Clean(w) && OpsAllowed(w, cfg, ops, true) && OpsAllowed(w, cfg, ops, false)
    requires |times| == |ops| + 1 && OpsTimed(w, cfg, ops, times)
    ensures Reaches(w, cfg, tr, After(w, cfg, ops), Mode(true, true), times[0], times[|ops|])
    decreases |ops|
  {
    var mode := Mode(true, true);
    if ops == [] {
      tr := [];
      ReachesNone(w, cfg, mode, times[0], times[0]);
    } else {
      var u := Perform(w, cfg, ops[0]).0;
      tr := OpRun(w, cfg, ops[0], mode, times[0], times[1]);
      OpKeepsClean(w, cfg, ops[0]);
      var b := OpsRun(u, cfg, ops[1..], times[1..]);
      ReachesThen(w, cfg, tr, u, b, After(w, cfg, ops), mode, times[0], times[1], times[|ops|]);
      tr := tr + b;
    }
  }

  /** Take a key's descriptor, offset and size, while the key is indexed, and any run of
      operations that never flushes by force. At its end the bytes at that offset are still the
      key's own, unless at some point of the run the slot waited in the queue with its grace
      period over before the end. */
  lemma DescriptorsOutliveEviction(w: World, cfg: Config, ops: seq<Op>, times: seq<nat>, k: Key) returns (tr: seq<Step>)
    requires Sound(w, cfg) && OpsAllowed(w, cfg, ops, true) && OpsAllowed(w, cfg, ops, false)
    requires |times| == |ops| + 1 && OpsTimed(w, cfg, ops, times) && times[|ops|] < U64
    requires EnqueuedBy(w, times[0]) && k in w.space.index.recs
    requires After(w, cfg, ops).space.queue.forced == w.space.queue.forced
    ensures Reaches(w, cfg, tr, After(w, cfg, ops), Mode(true, true), times[0], times[|ops|])
    ensures
      var r := w.space.index.recs[k];
      || GraceOver(w, cfg, tr, r.offset, times[|ops|])
      || PRead(After(w, cfg, ops).disk, r.offset, r.size) == Some(w.written[k])
  {
    tr := OpsRun(w, cfg, ops, times);
    assert Holds(w, k);
    IndexedSlot(w.space, w.inflight + w.leaked, k);
    var r := w.space.index.recs[k];
    GraceWindow(w, cfg, tr, r.offset, r.size, times[0], times[|ops|]);
  }

  /** So for less than the grace period a descriptor stays good, whatever is evicted meanwhile. */
  lemma DescriptorsLastForGrace(w: World, cfg: Config, ops: seq<Op>, times: seq<nat>, k: Key)
    requires Sound(w, cfg) && OpsAllowed(w, cfg, ops, true) && OpsAllowed(w, cfg, ops, false)
    requires |times| == |ops| + 1 && OpsTimed(w, cfg, ops, times) && times[|ops|] < U64
    requires EnqueuedBy(w, times[0]) && k in w.space.index.recs
    requires After(w, cfg, ops).space.queue.forced == w.space.queue.forced
    requires times[|ops|] < times[0] + cfg.grace
    ensures
      var r := w.space.index.recs[k];
      PRead(After(w, cfg, ops).disk, r.offset, r.size) == Some(w.written[k])
  {
    var tr := DescriptorsOutliveEviction(w, cfg, ops, times, k);
    var off := w.space.index.recs[k].offset;
    IndexedIsNotWaiting(w, k);
    GraceNotOver(w, cfg, tr, off, times[0], times[0], times[|ops|]);
  }

  lemma IndexedIsNotWaiting(w: World, k: Key)
    requires Owned(w) && k in w.space.index.recs
    ensures forall e :: e in w.space.queue.entries ==> e.offset != w.space.index.recs[k].offset
  {
    IndexedSlot(w.space, w.inflight + w.leaked, k);
    var off, waiting := w.space.index.recs[k].offset, OffsetsOf(w.space.queue.entries);
    assert off in waiting <==> off in multiset(waiting);
    forall e | e in w.space.queue.entries ensures e.offset != off {
      var i :| 0 <= i < |waiting| && w.space.queue.entries[i] == e;
      assert waiting[i] == e.offset;
    }
  }

  // ---------- Meta never names a slot that may be rewritten ----------

  /** After any run, every Meta record of this store names a key indexed at that very offset,
      whatever replies were lost; but for the keys whose removal was skipped while disconnected
      or met a queued commit. */
  lemma MetaNamesOnlyIndexedSlots(w: World, cfg: Config, ops: seq<Op>, k: Key)
    requires Sound(w, cfg) && OpsAllowed(w, cfg, ops, true) && OpsAllowed(w, cfg, ops, false)
    requires
      var l := After(w, cfg, ops).space.link;
      k in l.table && l.table[k].storeId == cfg.storeId && k !in l.unannounced
    ensures
      var v := After(w, cfg, ops);
      var off := v.space.link.table[k].offset;
      && Indexed(v, k, off, v.space.link.table[k].size)
      && off !in OffsetsOf(v.space.queue.entries) && off in InUse(v.space.alloc)
  {
    OpsKeepSound(w, cfg, ops);
    var v := After(w, cfg, ops);
    assert Agrees(v, k, v.space.link.table[k].offset, v.space.link.table[k].size);
    IndexedSlot(v.space, v.inflight + v.leaked, k);
    var off, waiting := v.space.link.table[k].offset, OffsetsOf(v.space.queue.entries);
    assert off in waiting <==> off in multiset(waiting);
  }

  // ---------- the store makes room ----------

  /** `Put` answers NoSpace exactly when the key is new and the size is inadmissible, or every
      slot is taken, none of them waits in the queue, and nothing can be evicted. */
  lemma PutRunsOutIff(w: World, cfg: Config, key: Key, data: seq<byte>, env: PutEnv)
    requires Clean(w) && |data| < U32
    ensures PutOp(w, cfg, key, data, env).1.status == NoSpace
      <==> !Committed(w.space.index, key) && NoSlot(w.space, |data|, env.ladder)
  {
    PlaceFailsIff(w.space, w.inflight + w.leaked, |data|, cfg.grace, env.ladder);
  }

  /** So after any run of regular operations a put of an admissible, non-zero size never runs out
      of space, as long as Meta answers its first eviction request or is not connected. */
  lemma PutNeverRunsOut(w: World, cfg: Config, ops: seq<Op>, key: Key, data: seq<byte>, env: PutEnv)
    requires Sound(w, cfg) && OpsAllowed(w, cfg, ops, true) && OpsAllowed(w, cfg, ops, false)
    requires 0 < |data| < U32 && Admissible(After(w, cfg, ops).space.alloc, |data|)
    requires RemoveSucceeds(After(w, cfg, ops).space.link.connected, env.ladder.rounds[0].rpc)
    ensures Clean(After(w, cfg, ops)) && PutOp(After(w, cfg, ops), cfg, key, data, env).1.status != NoSpace
  {
    OpsKeepSound(w, cfg, ops);
    var v := After(w, cfg, ops);
    PutNeverNoSpace(v.space, v.inflight + v.leaked, |data|, cfg.grace, env.ladder);
  }

  lemma {:induction false} NoSpaceAnswer(pos: seq<nat>, places: seq<Option<nat>>, slot: nat, i: nat) returns (j: nat)
    requires |pos| == |places| && ResultAt(pos, places, slot, i).status == NoSpace
    ensures j < |pos| && pos[j] == i && places[j].None?
    decreases |pos|
  {
    if pos[0] == i {
      j := 0;
    } else {
      j := NoSpaceAnswer(pos[1..], places[1..], slot, i);
      j := j + 1;
    }
  }

  /** The batches whose new items all have admissible, non-zero sizes, and a Meta that answers or
      is not connected. */
  ghost predicate Welcome(w: World, keys: seq<Key>, datas: seq<seq<byte>>, env: BatchEnv) {
    var pos := Needed(w.space.index, keys, |keys|);
    && |keys| == |datas| && SizesOk(datas) && 0 < |pos| < U32 && InRange(pos, |keys|) && datas[pos[0]] != []
    && Admissible(w.space.alloc, |datas[pos[0]]|)
    && SizesAdmissible(LazyInit(w.space.alloc, |datas[pos[0]]|), datas, pos)
    && MetaAnswers(w.space.link.connected, env.ladders, pos)
  }

  /** The slots such a batch finds for its new positions. */
  ghost function PlacesOf(w: World, cfg: Config, keys: seq<Key>, datas: seq<seq<byte>>,
                          env: BatchEnv): (places: seq<Option<nat>>)
    requires MetaIndex.Wf(w.space.index) && Welcome(w, keys, datas, env)
    ensures |places| == |Needed(w.space.index, keys, |keys|)|
  {
    TouchAllRecords(w.space.index, keys, env.lookup);
    BatchPlace(w.space.(index := TouchAll(w.space.index, keys, env.lookup)), cfg, datas,
               Needed(w.space.index, keys, |keys|), env.ladders).1
  }

  lemma {:induction false} WritesNeverFull(d: Disk, items: seq<Item>, datas: seq<seq<byte>>,
                                           writes: nat -> WriteOutcome)
    requires ItemsIn(items, |datas|)
    ensures WriteEach(d, items, datas, writes).1 != NoSpace
    decreases |items|
  {
    if items != [] { WritesNeverFull(d, items[..|items| - 1], datas, writes); }
  }

  lemma BatchAnswer(w: World, cfg: Config, keys: seq<Key>, datas: seq<seq<byte>>, env: BatchEnv, i: nat)
    returns (slot: nat)
    requires MetaIndex.Wf(w.space.index) && Welcome(w, keys, datas, env) && i < |keys|
    ensures BatchPutOp(w, cfg, keys, datas, env).1[i].status == NoSpace
      ==> ResultAt(Needed(w.space.index, keys, |keys|), PlacesOf(w, cfg, keys, datas, env), slot, i).status == NoSpace
  {
    var pos := Needed(w.space.index, keys, |keys|);
    TouchAllRecords(w.space.index, keys, env.lookup);
    var u := w.space.(index := TouchAll(w.space.index, keys, env.lookup));
    var (sp, places) := BatchPlace(u, cfg, datas, pos, env.ladders);
    var items := Items(pos, places);
    ItemsInRange(pos, places, |keys|);
    WritesNeverFull(w.disk, items, datas, env.writes);
    slot := sp.alloc.slotSize;
  }

  /** When a batch answers NoSpace for a key, earlier keys of the same batch hold every slot of
      the store, but for slots leaked before. */
  lemma BatchRunsOutMeansFull(w: World, cfg: Config, keys: seq<Key>, datas: seq<seq<byte>>, env: BatchEnv, i: nat)
    returns (j: nat)
    requires Clean(w) && Welcome(w, keys, datas, env) && i < |keys|
    requires BatchPutOp(w, cfg, keys, datas, env).1[i].status == NoSpace
    ensures
      var pos := Needed(w.space.index, keys, |keys|);
      && j < |pos| && pos[j] == i
      && |w.leaked| + |Found(PlacesOf(w, cfg, keys, datas, env)[..j])| == Capacity(w.space.alloc, |datas[pos[0]]|)
  {
    var pos := Needed(w.space.index, keys, |keys|);
    var slot := BatchAnswer(w, cfg, keys, datas, env, i);
    j := NoSpaceAnswer(pos, PlacesOf(w, cfg, keys, datas, env), slot, i);
    assert w.inflight + w.leaked == w.leaked;
    TouchAllConserves(w.space, w.leaked, keys, env.lookup);
    BatchNoSpaceMeansFull(w.space.(index := TouchAll(w.space.index, keys, env.lookup)), w.leaked, cfg, datas, pos,
                          env.ladders, j);
  }

  /** So a batch of no more new keys than the store has slots never runs out of space. */
  lemma BatchNeverRunsOut(w: World, cfg: Config, keys: seq<Key>, datas: seq<seq<byte>>, env: BatchEnv, i: nat)
    requires Sound(w, cfg) && Welcome(w, keys, datas, env) && i < |keys|
    requires
      var pos := Needed(w.space.index, keys, |keys|);
      |pos| <= Capacity(w.space.alloc, |datas[pos[0]]|)
    ensures BatchPutOp(w, cfg, keys, datas, env).1[i].status != NoSpace
  {
    if BatchPutOp(w, cfg, keys, datas, env).1[i].status == NoSpace {
      var j := BatchRunsOutMeansFull(w, cfg, keys, datas, env, i);
      FoundAtMost(PlacesOf(w, cfg, keys, datas, env)[..j]);
    }
  }
}
