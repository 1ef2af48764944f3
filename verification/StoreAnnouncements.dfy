/** Remove before free, over whole runs of operations (src/store/evict_manager.cpp and the order of
    calls in src/store/falconkv_store.cpp): if every operation that may evict or remove finds Meta
    connected and no commit queued, Meta never names a slot that may be rewritten. */
module StoreAnnouncements {
  import opened Base
  import opened SlotAllocation
  import opened MetaIndex
  import opened PendingQueue
  import opened MetaLink
  import opened StoreSpace
  import opened Eviction
  import opened StoreOps
  import opened StoreSteps
  import opened StoreTheorems

  /** Meta can be told of a removal, and no queued commit will undo it. */
  predicate MetaReady(l: LinkState) { l.connected && l.queue == [] }

  /** Meta is ready whenever an item of a batch goes down the ladder. */
  ghost predicate LaddersReady(sp: Space, datas: seq<seq<byte>>, pos: seq<nat>, grace: nat, ladders: nat -> Ladder)
    decreases |pos|
  {
    pos == []
    || (&& MetaReady(sp.link) && MetaIndex.Wf(sp.index) && pos[0] < |datas|
        && LaddersReady(LadderSpec(sp, |datas[pos[0]]|, grace, ladders(pos[0])).0, datas, pos[1..], grace, ladders))
  }

  /** Meta is ready for each item that the batch allocation leaves without a slot. A lost reply in the
      ladder of one item is no harm unless another ladder follows it. */
  ghost predicate BatchReady(sp: Space, datas: seq<seq<byte>>, pos: seq<nat>, grace: nat, ladders: nat -> Ladder)
    requires pos != [] && InRange(pos, |datas|)
  {
    RepeatAllocLength(sp.alloc, |datas[pos[0]]|, Low32(|pos|));
    var (a, offs) := RepeatAlloc(sp.alloc, |datas[pos[0]]|, Low32(|pos|));
    LaddersReady(sp.(alloc := a), datas, pos[|offs|..], grace, ladders)
  }

  /** The operation removes and evicts nothing, or finds Meta ready for it. */
  ghost predicate Tells(w: World, cfg: Config, op: Op)
    requires MetaIndex.Wf(w.space.index)
  {
    match op
    case PutOne(k, data, _) =>
      MetaReady(w.space.link) || Committed(w.space.index, k) || Allocate(w.space, |data|).1.Some?
    case PutMany(keys, datas, env) =>
      var pos := Needed(w.space.index, keys, |keys|);
      NeededInRange(w.space.index, keys, |keys|);
      |keys| != |datas| || pos == []
      || BatchReady(w.space.(index := TouchAll(w.space.index, keys, env.lookup)), datas, pos, cfg.grace, env.ladders)
    case Delete(_, _, _) => MetaReady(w.space.link)
    case WatermarkPass(low, _) => MetaReady(w.space.link) || Usage(w.space.alloc) <= low
    case _ => true
  }

  ghost predicate OpsTell(w: World, cfg: Config, ops: seq<Op>)
    requires OpsAllowed(w, cfg, ops, false)
    decreases |ops|
  {
    ops == [] || (Tells(w, cfg, ops[0]) && OpsTell(Perform(w, cfg, ops[0]).0, cfg, ops[1..]))
  }

  // ---------- what each part tells ----------

  lemma NothingQueued(keys: seq<Key>)
    ensures (set k | k in keys && Queued([], k)) == {}
  {
  }

  /** A batch of evictions that finds Meta ready. */
  lemma BatchTells(sp: Space, n: nat, r: Round)
    requires MetaIndex.Wf(sp.index) && n <= |sp.index.lru| && MetaReady(sp.link)
    ensures
      var (t, ok) := EvictBatch(sp, n, r);
      && t.link.unannounced == sp.link.unannounced && MetaIndex.Wf(t.index)
      && (ok ==> MetaReady(t.link))
  {
    var keys := KeysOf(Coldest(sp.index, n));
    NothingQueued(keys);
    EvictNShape(sp.(link := SyncRemoveSpec(sp.link, keys, r.rpc).0), n, r.now);
  }

  lemma ForceRoundTells(sp: Space, needed: nat, total: nat, r: Round)
    requires MetaIndex.Wf(sp.index) && MetaReady(sp.link)
    ensures
      var (t, sum, more) := ForceRound(sp, needed, total, r);
      && t.link.unannounced == sp.link.unannounced && (more ==> MetaReady(t.link))
  {
    if total < needed { BatchTells(sp, Victims(sp.index, needed - total).0, r); }
  }

  lemma {:induction false} ForceRoundsTell(sp: Space, needed: nat, total: nat, rounds: seq<Round>)
    requires MetaIndex.Wf(sp.index) && MetaReady(sp.link)
    ensures ForceRounds(sp, needed, total, rounds).0.link.unannounced == sp.link.unannounced
    decreases |rounds|
  {
    if rounds != [] {
      ForceRoundTells(sp, needed, total, rounds[0]);
      var (t, sum, more) := ForceRound(sp, needed, total, rounds[0]);
      if more { ForceRoundsTell(t, needed, sum, rounds[1..]); }
    }
  }

  lemma LadderTells(sp: Space, size: nat, grace: nat, env: Ladder)
    requires MetaIndex.Wf(sp.index) && MetaReady(sp.link)
    ensures LadderSpec(sp, size, grace, env).0.link.unannounced == sp.link.unannounced
  {
    var t := Level1(sp, size, grace, env).0;
    ForceRoundsTell(t, EvictTarget(t.alloc, size), 0, env.rounds);
  }

  lemma {:induction false} LaddersTell(sp: Space, datas: seq<seq<byte>>, pos: seq<nat>, grace: nat,
                                       ladders: nat -> Ladder)
    requires MetaIndex.Wf(sp.index) && InRange(pos, |datas|) && LaddersReady(sp, datas, pos, grace, ladders)
    ensures LadderEach(sp, datas, pos, grace, ladders).0.link.unannounced == sp.link.unannounced
    decreases |pos|
  {
    if pos != [] {
      var size, l := |datas[pos[0]]|, ladders(pos[0]);
      LadderTells(sp, size, grace, l);
      LadderKeepsWf(sp, size, grace, l);
      LaddersTell(LadderSpec(sp, size, grace, l).0, datas, pos[1..], grace, ladders);
    }
  }

  lemma BatchPlaceTells(sp: Space, cfg: Config, datas: seq<seq<byte>>, pos: seq<nat>, ladders: nat -> Ladder)
    requires MetaIndex.Wf(sp.index) && pos != [] && InRange(pos, |datas|)
    requires BatchReady(sp, datas, pos, cfg.grace, ladders)
    ensures BatchPlace(sp, cfg, datas, pos, ladders).0.link.unannounced == sp.link.unannounced
  {
    var (a, offs) := RepeatAlloc(sp.alloc, |datas[pos[0]]|, Low32(|pos|));
    RepeatAllocLength(sp.alloc, |datas[pos[0]]|, Low32(|pos|));
    LaddersTell(sp.(alloc := a), datas, pos[|offs|..], cfg.grace, ladders);
  }

  lemma {:induction false} IndexingTells(w: World, keys: seq<Key>, datas: seq<seq<byte>>, slot: nat, commit: nat,
                                         items: seq<Item>)
    requires |keys| == |datas| && ItemsIn(items, |keys|)
    ensures IndexEach(w, keys, datas, slot, commit, items).space.link == w.space.link
    decreases |items|
  {
    if items != [] { IndexingTells(w, keys, datas, slot, commit, items[..|items| - 1]); }
  }

  lemma BatchPutTells(w: World, cfg: Config, keys: seq<Key>, datas: seq<seq<byte>>, env: BatchEnv)
    requires MetaIndex.Wf(w.space.index) && Tells(w, cfg, PutMany(keys, datas, env))
    ensures BatchPutOp(w, cfg, keys, datas, env).0.space.link.unannounced == w.space.link.unannounced
  {
    var pos := Needed(w.space.index, keys, |keys|);
    if |keys| == |datas| && pos != [] {
      TouchAllRecords(w.space.index, keys, env.lookup);
      NeededInRange(w.space.index, keys, |keys|);
      var u := w.(space := w.space.(index := TouchAll(w.space.index, keys, env.lookup)));
      BatchPlaceTells(u.space, cfg, datas, pos, env.ladders);
      PutNewTells(u, cfg, keys, datas, pos, env);
    }
  }

  lemma PutNewTells(u: World, cfg: Config, keys: seq<Key>, datas: seq<seq<byte>>, pos: seq<nat>, env: BatchEnv)
    requires MetaIndex.Wf(u.space.index) && |keys| == |datas| && pos != [] && InRange(pos, |keys|)
    ensures PutNew(u, cfg, keys, datas, pos, env).0.space.link.unannounced
      == BatchPlace(u.space, cfg, datas, pos, env.ladders).0.link.unannounced
  {
    var (sp, places) := BatchPlace(u.space, cfg, datas, pos, env.ladders);
    var items := Items(pos, places);
    ItemsInRange(pos, places, |keys|);
    StoringTells(u.(space := sp, inflight := u.inflight + multiset(ItemOffsets(items))), cfg, keys, datas, items, env);
  }

  lemma StoringTells(h: World, cfg: Config, keys: seq<Key>, datas: seq<seq<byte>>, items: seq<Item>, env: BatchEnv)
    requires |keys| == |datas| && ItemsIn(items, |keys|)
    ensures BatchStore(h, cfg, keys, datas, items, env).0.space.link.unannounced == h.space.link.unannounced
  {
    var d := WriteEach(h.disk, items, datas, env.writes).0;
    IndexingTells(h.(disk := d), keys, datas, h.space.alloc.slotSize, env.commit, items);
  }

  lemma {:induction false} PassTells(sp: Space, low: real, grace: nat, env: nat -> Turn, i: nat)
    requires MetaIndex.Wf(sp.index) && (MetaReady(sp.link) || Usage(sp.alloc) <= low)
    ensures PassSpec(sp, low, grace, env, i).link.unannounced == sp.link.unannounced
    decreases |sp.index.lru|
  {
    if Usage(sp.alloc) > low {
      BatchTells(sp, Min(MAX_PER_PASS, |sp.index.lru|), env(i).round);
      PassTurnShrinks(sp, grace, env(i));
      var (t, more) := PassTurn(sp, grace, env(i));
      if more { PassTells(t, low, grace, env, i + 1); }
    }
  }

  lemma PlaceTells(sp: Space, size: nat, grace: nat, env: Ladder)
    requires MetaIndex.Wf(sp.index) && (MetaReady(sp.link) || Allocate(sp, size).1.Some?)
    ensures PlaceSpec(sp, size, grace, env).0.link.unannounced == sp.link.unannounced
  {
    if Allocate(sp, size).1.None? { LadderTells(Allocate(sp, size).0, size, grace, env); }
  }

  lemma PutTells(w: World, cfg: Config, key: Key, data: seq<byte>, env: PutEnv)
    requires MetaIndex.Wf(w.space.index) && Tells(w, cfg, PutOne(key, data, env))
    ensures PutOp(w, cfg, key, data, env).0.space.link.unannounced == w.space.link.unannounced
  {
    if !Committed(w.space.index, key) {
      PlaceTells(w.space, |data|, cfg.grace, env.ladder);
      PutOpLink(w, cfg, key, data, env);
    }
  }

  lemma PutOpLink(w: World, cfg: Config, key: Key, data: seq<byte>, env: PutEnv)
    requires MetaIndex.Wf(w.space.index) && !Committed(w.space.index, key)
    ensures
      var l, m := PlaceSpec(w.space, |data|, cfg.grace, env.ladder).0.link, PutOp(w, cfg, key, data, env).0.space.link;
      m.unannounced == l.unannounced
  {
  }

  /** The operations that are a single step. */
  lemma StepTells(w: World, cfg: Config, op: Op, s: Step)
    requires MetaIndex.Wf(w.space.index) && Allowed(w, cfg, op) && Enabled(w, cfg, s) && Tells(w, cfg, op)
    requires Perform(w, cfg, op).0 == Do(w, cfg, s) && !s.EvictCold? && (s.RemoveKey? ==> op.Delete?)
    ensures Perform(w, cfg, op).0.space.link.unannounced == w.space.link.unannounced
  {
    OnlySkippedIsUnannounced(w, cfg, s);
  }

  lemma OpTells(w: World, cfg: Config, op: Op)
    requires MetaIndex.Wf(w.space.index) && Allowed(w, cfg, op) && Tells(w, cfg, op)
    ensures Perform(w, cfg, op).0.space.link.unannounced == w.space.link.unannounced
  {
    match op
    case PutOne(k, data, env) => PutTells(w, cfg, k, data, env);
    case PutMany(keys, datas, env) => BatchPutTells(w, cfg, keys, datas, env);
    case Delete(k, rpc, now) => StepTells(w, cfg, op, RemoveKey(k, rpc, now));
    case QueueTick(now) => StepTells(w, cfg, op, FlushDue(now));
    case QueueStop => StepTells(w, cfg, op, FlushForced);
    case WatermarkPass(low, turns) => PassTells(w.space, low, cfg.grace, turns, 0);
    case CommitTurn(r1, r2) => StepTells(w, cfg, op, DrainCommits(r1, r2));
    case Reconnect(info, entries, reg, calls) => StepTells(w, cfg, op, Resync(info, entries, reg, calls));
    case Elsewhere(table, stores) => StepTells(w, cfg, op, OtherStores(table, stores));
    case _ =>
  }

  lemma {:induction false} OpsTellAll(w: World, cfg: Config, ops: seq<Op>)
    requires OpsAllowed(w, cfg, ops, false) && OpsTell(w, cfg, ops)
    ensures After(w, cfg, ops).space.link.unannounced == w.space.link.unannounced
    decreases |ops|
  {
    if ops != [] {
      OpTells(w, cfg, ops[0]);
      OpsTellAll(Perform(w, cfg, ops[0]).0, cfg, ops[1..]);
    }
  }

  // ---------- the law ----------

  /** Over any run of operations that finds Meta ready whenever it evicts or removes, whatever
      replies are lost: every Meta record of this store names a slot that is that key's own, in
      use and not waiting, and the slot holds the bytes the clients last stored under the key. */
  lemma MetaNamesLiveBytes(w: World, cfg: Config, ops: seq<Op>, k: Key)
    requires Sound(w, cfg) && OpsAllowed(w, cfg, ops, true) && OpsAllowed(w, cfg, ops, false)
    requires OpsTell(w, cfg, ops) && w.space.link.unannounced == {}
    requires
      var l := After(w, cfg, ops).space.link;
      k in l.table && l.table[k].storeId == cfg.storeId
    ensures
      var v, known := After(w, cfg, ops), LastStored(w.written, ops, Replies(w, cfg, ops));
      var (off, size) := (v.space.link.table[k].offset, v.space.link.table[k].size);
      && Indexed(v, k, off, size) && off in InUse(v.space.alloc) && off !in OffsetsOf(v.space.queue.entries)
      && k in known && PRead(v.disk, off, size) == Some(known[k])
  {
    OpsTellAll(w, cfg, ops);
    MetaNamesOnlyIndexedSlots(w, cfg, ops, k);
    OpsKeepSound(w, cfg, ops);
    assert Holds(After(w, cfg, ops), k);
  }
}
