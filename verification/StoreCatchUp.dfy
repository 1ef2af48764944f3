/** Meta catches up (src/store/meta_sync_client.cpp with `Put`, `BatchPut` and the eviction paths): over runs
    that stay connected, everything the index holds is at Meta or on its way there, and one
    answered turn of the commit thread later it is there. */
module StoreCatchUp {
  import opened Base
  import opened SlotAllocation
  import opened MetaIndex
  import opened PendingQueue
  import opened MetaTable
  import opened MetaLink
  import opened StoreSpace
  import opened Eviction
  import opened StoreOps
  import opened StoreProgress
  import opened StoreSteps
  import opened StoreTheorems

  /** Where Meta will have `k` once the queued commits have arrived. */
  function Coming(l: LinkState, storeId: nat, k: Key): Option<Place> {
    var p := Awaited(l.queue, storeId, k);
    if p.Some? then p else PlaceIn(l.table, k)
  }

  /** Every indexed key is at Meta, or on its way, with its own slot. (Meta keeps no record of the empty key.) */
  ghost predicate Published(sp: Space, storeId: nat) {
    && (forall c :: c in sp.link.queue ==> c.storeId == storeId)
    && (forall k :: k in sp.index.recs && k != "" ==>
          Coming(sp.link, storeId, k) == Some(PlaceOfRecord(storeId, sp.index.recs[k])))
  }

  // ---------- making room ----------

  predicate SamePlaceOf(a: Record, b: Record) { a.offset == b.offset && a.size == b.size }

  /** From `sp` to `t` only keys have left the index; and if the connection held, Meta still has the others
      where it had them. */
  ghost predicate Spared(sp: Space, t: Space) {
    && (forall k :: k in t.index.recs ==> k in sp.index.recs && SamePlaceOf(t.index.recs[k], sp.index.recs[k]))
    && t.link.queue == sp.link.queue
    && (t.link.connected ==>
          && sp.link.connected
          && forall k :: k in t.index.recs ==> PlaceIn(t.link.table, k) == PlaceIn(sp.link.table, k))
  }

  lemma SparedThen(sp: Space, t: Space, u: Space)
    requires Spared(sp, t) && Spared(t, u)
    ensures Spared(sp, u)
  {
  }

  lemma SparedStaysPublished(sp: Space, t: Space, storeId: nat)
    requires Published(sp, storeId) && Spared(sp, t) && t.link.connected
    ensures Published(t, storeId)
  {
  }

  lemma BatchSpares(sp: Space, n: nat, r: Round)
    requires MetaIndex.Wf(sp.index) && n <= |sp.index.lru|
    ensures Spared(sp, EvictBatch(sp, n, r).0)
  {
    var keys := KeysOf(Coldest(sp.index, n));
    var (l, s) := SyncRemoveSpec(sp.link, keys, r.rpc);
    var t := EvictBatch(sp, n, r).0;
    EvictNShape(sp.(link := l), n, r.now);
    if s == Ok {
      forall k | k in keys ensures k !in t.index.recs { ColdKeyGone(sp.index, n, k); }
    }
  }

  lemma ColdKeyGone(s: IndexState, n: nat, k: Key)
    requires MetaIndex.Wf(s) && n <= |s.lru| && k in KeysOf(Coldest(s, n))
    ensures k in s.lru[|s.lru| - n..]
  {
    var keys, lru := KeysOf(Coldest(s, n)), s.lru;
    var i :| 0 <= i < n && keys[i] == k;
    assert lru[|lru| - 1 - i] in lru;
    assert lru[|lru| - n..][n - 1 - i] == lru[|lru| - 1 - i];
  }

  lemma RoundSpares(sp: Space, needed: nat, total: nat, r: Round)
    requires MetaIndex.Wf(sp.index)
    ensures Spared(sp, ForceRound(sp, needed, total, r).0)
  {
    if total < needed { BatchSpares(sp, Victims(sp.index, needed - total).0, r); }
  }

  lemma {:induction false} ForceRoundsSpare(sp: Space, needed: nat, total: nat, rounds: seq<Round>)
    requires MetaIndex.Wf(sp.index)
    ensures Spared(sp, ForceRounds(sp, needed, total, rounds).0)
    decreases |rounds|
  {
    if rounds != [] {
      RoundSpares(sp, needed, total, rounds[0]);
      var (t, sum, more) := ForceRound(sp, needed, total, rounds[0]);
      if more {
        ForceRoundsSpare(t, needed, sum, rounds[1..]);
        SparedThen(sp, t, ForceRounds(t, needed, sum, rounds[1..]).0);
      }
    }
  }

  lemma LadderSpares(sp: Space, size: nat, grace: nat, env: Ladder)
    requires MetaIndex.Wf(sp.index)
    ensures Spared(sp, LadderSpec(sp, size, grace, env).0)
  {
    var t := Level1(sp, size, grace, env).0;
    ForceRoundsSpare(t, EvictTarget(t.alloc, size), 0, env.rounds);
  }

  lemma PlaceSpares(sp: Space, size: nat, grace: nat, env: Ladder)
    requires MetaIndex.Wf(sp.index)
    ensures Spared(sp, PlaceSpec(sp, size, grace, env).0)
  {
    LadderSpares(Allocate(sp, size).0, size, grace, env);
  }

  lemma {:induction false} LaddersSpare(sp: Space, datas: seq<seq<byte>>, pos: seq<nat>, grace: nat,
                                        ladders: nat -> Ladder)
    requires MetaIndex.Wf(sp.index)
    ensures Spared(sp, LadderEach(sp, datas, pos, grace, ladders).0)
    decreases |pos|
  {
    if pos != [] {
      var size, l := if pos[0] < |datas| then |datas[pos[0]]| else 0, ladders(pos[0]);
      LadderSpares(sp, size, grace, l);
      LadderKeepsWf(sp, size, grace, l);
      var t := LadderSpec(sp, size, grace, l).0;
      LaddersSpare(t, datas, pos[1..], grace, ladders);
      SparedThen(sp, t, LadderEach(t, datas, pos[1..], grace, ladders).0);
    }
  }

  lemma BatchPlaceSpares(sp: Space, cfg: Config, datas: seq<seq<byte>>, pos: seq<nat>, ladders: nat -> Ladder)
    requires MetaIndex.Wf(sp.index) && pos != [] && InRange(pos, |datas|)
    ensures Spared(sp, BatchPlace(sp, cfg, datas, pos, ladders).0)
  {
    var (a, offs) := RepeatAlloc(sp.alloc, |datas[pos[0]]|, Low32(|pos|));
    RepeatAllocLength(sp.alloc, |datas[pos[0]]|, Low32(|pos|));
    LaddersSpare(sp.(alloc := a), datas, pos[|offs|..], cfg.grace, ladders);
  }

  lemma {:induction false} PassSpares(sp: Space, low: real, grace: nat, env: nat -> Turn, i: nat)
    requires MetaIndex.Wf(sp.index)
    ensures Spared(sp, PassSpec(sp, low, grace, env, i))
    decreases |sp.index.lru|
  {
    if Usage(sp.alloc) > low {
      BatchSpares(sp, Min(MAX_PER_PASS, |sp.index.lru|), env(i).round);
      PassTurnShrinks(sp, grace, env(i));
      var (t, more) := PassTurn(sp, grace, env(i));
      assert Spared(sp, t);
      if more {
        PassSpares(t, low, grace, env, i + 1);
        SparedThen(sp, t, PassSpec(t, low, grace, env, i + 1));
      }
    }
  }

  lemma TouchesSpare(sp: Space, keys: seq<Key>, now: nat)
    requires MetaIndex.Wf(sp.index)
    ensures Spared(sp, sp.(index := TouchAll(sp.index, keys, now)))
  {
    TouchAllRecords(sp.index, keys, now);
  }

  // ---------- putting ----------

  /** A commit that got through, added to what is on its way; a queued commit of the same key would arrive
      after it. */
  lemma CommitIsComing(l: LinkState, storeId: nat, r: Record, r1: Rpc, r2: Rpc, k: Key)
    requires l.connected && SyncCommitSpec(l, storeId, [r], r1, r2).0.connected && k != ""
    ensures
      var m := SyncCommitSpec(l, storeId, [r], r1, r2).0;
      && m.queue == l.queue
      && (k != r.key || Awaited(l.queue, storeId, k).Some? ==> Coming(m, storeId, k) == Coming(l, storeId, k))
      && (k == r.key && Awaited(l.queue, storeId, k).None? ==>
            Coming(m, storeId, k) == Some(PlaceOfRecord(storeId, r)))
  {
    AppliedCommit(l, storeId, [r], r1, r2, k);
    assert [r][0].key == r.key;
  }

  lemma PutPublishes(w: World, cfg: Config, key: Key, data: seq<byte>, env: PutEnv)
    requires MetaIndex.Wf(w.space.index) && Published(w.space, cfg.storeId)
    requires PutOp(w, cfg, key, data, env).0.space.link.connected
    requires !Committed(w.space.index, key) ==> Awaited(w.space.link.queue, cfg.storeId, key).None?
    ensures Published(PutOp(w, cfg, key, data, env).0.space, cfg.storeId)
  {
    var v := PutOp(w, cfg, key, data, env).0;
    if Committed(w.space.index, key) {
      SparedStaysPublished(w.space, v.space, cfg.storeId);
    } else {
      var (sp, place) := PlaceSpec(w.space, |data|, cfg.grace, env.ladder);
      PlaceSpares(w.space, |data|, cfg.grace, env.ladder);
      PutLinks(w, cfg, key, data, env);
      SparedStaysPublished(w.space, sp, cfg.storeId);
      if v.space.index != sp.index || v.space.link != sp.link {
        var r := v.space.index.recs[key];
        forall k | k in v.space.index.recs && k != ""
          ensures Coming(v.space.link, cfg.storeId, k) == Some(PlaceOfRecord(cfg.storeId, v.space.index.recs[k]))
        {
          CommitIsComing(sp.link, cfg.storeId, r, env.rpc1, env.rpc2, k);
        }
      }
    }
  }

  /** After finding a slot `Put` leaves index and link as they are, or adds its record to both. */
  lemma PutLinks(w: World, cfg: Config, key: Key, data: seq<byte>, env: PutEnv)
    requires MetaIndex.Wf(w.space.index) && !Committed(w.space.index, key)
    ensures
      var (sp, v) := (PlaceSpec(w.space, |data|, cfg.grace, env.ladder).0.(alloc := w.space.alloc),
                      PutOp(w, cfg, key, data, env).0.space);
      || (v.index == sp.index && v.link == sp.link)
      || (&& key in v.index.recs && v.index.recs[key].key == key
          && v.index.recs == sp.index.recs[key := v.index.recs[key]]
          && v.link == SyncCommitSpec(sp.link, cfg.storeId, [v.index.recs[key]], env.rpc1, env.rpc2).0)
  {
  }

  /** A batch's records: the last item naming a key gives both its record and what the batch queues for it. */
  lemma {:induction false} IndexedIsQueued(w: World, keys: seq<Key>, datas: seq<seq<byte>>, slot: nat, commit: nat,
                                           items: seq<Item>, storeId: nat, k: Key)
    requires |keys| == |datas| && ItemsIn(items, |keys|) && k != ""
    ensures
      var recs := RecordsOf(keys, datas, slot, commit, items);
      var v, p := IndexEach(w, keys, datas, slot, commit, items), LastPlace(storeId, Wire(recs), |recs|, k);
      && v.space.link == w.space.link
      && (p.Some? ==> k in v.space.index.recs && p == Some(PlaceOfRecord(storeId, v.space.index.recs[k])))
      && (p.None? ==> (k in v.space.index.recs <==> k in w.space.index.recs)
                      && (k in w.space.index.recs ==> v.space.index.recs[k] == w.space.index.recs[k]))
    decreases |items|
  {
    if items != [] {
      var n := |items| - 1;
      IndexedIsQueued(w, keys, datas, slot, commit, items[..n], storeId, k);
      RecordsSnoc(keys, datas, slot, commit, items);
      LastPlaceSnoc(storeId, RecordsOf(keys, datas, slot, commit, items[..n]),
                    RecordOf(keys, datas, slot, commit, items[n]), k);
    }
  }

  lemma RecordsSnoc(keys: seq<Key>, datas: seq<seq<byte>>, slot: nat, commit: nat, items: seq<Item>)
    requires |keys| == |datas| && ItemsIn(items, |keys|) && items != []
    ensures
      var n := |items| - 1;
      RecordsOf(keys, datas, slot, commit, items)
        == RecordsOf(keys, datas, slot, commit, items[..n]) + [RecordOf(keys, datas, slot, commit, items[n])]
  {
  }

  lemma LastPlaceSnoc(storeId: nat, recs: seq<Record>, r: Record, k: Key)
    ensures LastPlace(storeId, Wire(recs + [r]), |recs| + 1, k)
      == if r.key == k && k != "" then Some(PlaceOfRecord(storeId, r)) else LastPlace(storeId, Wire(recs), |recs|, k)
  {
    WireBoth(recs, [r]);
    LastPlaceFront(storeId, Wire(recs), Wire([r]), |recs|, k);
  }

  lemma StorePublishes(h: World, cfg: Config, keys: seq<Key>, datas: seq<seq<byte>>, items: seq<Item>, env: BatchEnv)
    requires |keys| == |datas| && ItemsIn(items, |keys|) && Published(h.space, cfg.storeId)
    ensures Published(BatchStore(h, cfg, keys, datas, items, env).0.space, cfg.storeId)
  {
    var (d, s) := WriteEach(h.disk, items, datas, env.writes);
    var v := BatchStore(h, cfg, keys, datas, items, env).0;
    if s == Ok {
      var slot := h.space.alloc.slotSize;
      var recs := RecordsOf(keys, datas, slot, env.commit, items);
      IndexedIsQueued(h.(disk := d), keys, datas, slot, env.commit, items, cfg.storeId, "k");
      forall k | k in v.space.index.recs && k != ""
        ensures Coming(v.space.link, cfg.storeId, k) == Some(PlaceOfRecord(cfg.storeId, v.space.index.recs[k]))
      {
        IndexedIsQueued(h.(disk := d), keys, datas, slot, env.commit, items, cfg.storeId, k);
        LaterIsComing(h.space.link, cfg.storeId, recs, k);
      }
    }
  }

  lemma LaterIsComing(l: LinkState, storeId: nat, recs: seq<Record>, k: Key)
    ensures
      var p := LastPlace(storeId, Wire(recs), |recs|, k);
      Coming(AsyncCommitSpec(l, storeId, recs), storeId, k) == if p.Some? then p else Coming(l, storeId, k)
  {
    var queue := l.queue + [PendingCommit(storeId, recs)];
    assert queue[..|queue| - 1] == l.queue;
  }

  lemma BatchPutPublishes(w: World, cfg: Config, keys: seq<Key>, datas: seq<seq<byte>>, env: BatchEnv)
    requires MetaIndex.Wf(w.space.index) && Published(w.space, cfg.storeId)
    requires BatchPutOp(w, cfg, keys, datas, env).0.space.link.connected
    ensures Published(BatchPutOp(w, cfg, keys, datas, env).0.space, cfg.storeId)
  {
    var pos := Needed(w.space.index, keys, |keys|);
    if |keys| == |datas| {
      TouchAllRecords(w.space.index, keys, env.lookup);
      TouchesSpare(w.space, keys, env.lookup);
      NeededInRange(w.space.index, keys, |keys|);
      var u := w.(space := w.space.(index := TouchAll(w.space.index, keys, env.lookup)));
      if pos != [] {
        var (sp, places) := BatchPlace(u.space, cfg, datas, pos, env.ladders);
        BatchPlaceSpares(u.space, cfg, datas, pos, env.ladders);
        SparedThen(w.space, u.space, sp);
        ItemsInRange(pos, places, |keys|);
        var h := u.(space := sp, inflight := u.inflight + multiset(ItemOffsets(Items(pos, places))));
        StoreConnects(h, cfg, keys, datas, Items(pos, places), env);
        SparedStaysPublished(w.space, sp, cfg.storeId);
        StorePublishes(h, cfg, keys, datas, Items(pos, places), env);
      } else {
        SparedStaysPublished(w.space, u.space, cfg.storeId);
      }
    }
  }

  lemma StoreConnects(h: World, cfg: Config, keys: seq<Key>, datas: seq<seq<byte>>, items: seq<Item>, env: BatchEnv)
    requires |keys| == |datas| && ItemsIn(items, |keys|)
    ensures BatchStore(h, cfg, keys, datas, items, env).0.space.link.connected == h.space.link.connected
  {
    var d := WriteEach(h.disk, items, datas, env.writes).0;
    IndexedIsQueued(h.(disk := d), keys, datas, h.space.alloc.slotSize, env.commit, items, cfg.storeId, "k");
  }

  // ---------- the other operations ----------

  lemma DeleteSpares(w: World, k: Key, rpc: Rpc, now: nat)
    ensures Spared(w.space, RemoveOp(w, k, rpc, now).0.space)
  {
    assert k in [k];
  }

  lemma TurnPublishes(sp: Space, storeId: nat, r1: Rpc, r2: Rpc)
    requires Published(sp, storeId) && DrainSpec(sp.link, r1, r2).connected
    ensures Published(sp.(link := DrainSpec(sp.link, r1, r2)), storeId)
  {
    if sp.link.queue != [] {
      forall k | k in sp.index.recs && k != ""
        ensures Coming(DrainSpec(sp.link, r1, r2), storeId, k) == Some(PlaceOfRecord(storeId, sp.index.recs[k]))
      {
        DrainedPlace(sp.link, storeId, r1, r2, k);
      }
    }
  }

  /** A reconnection that ends connected publishes the whole index, whatever was missed before, if no commit
      is left in the queue. */
  lemma ReconnectPublishes(w: World, cfg: Config, info: StoreInfo, entries: seq<Record>, reg: seq<Rpc>,
                           env: nat -> (Rpc, Rpc))
    requires Owned(w) && Enabled(w, cfg, Resync(info, entries, reg, env))
    requires Published(w.space, cfg.storeId) || w.space.link.queue == []
    requires Do(w, cfg, Resync(info, entries, reg, env)).space.link.connected
    ensures Published(Do(w, cfg, Resync(info, entries, reg, env)).space, cfg.storeId)
  {
    var l, v := w.space.link.(connected := true), Do(w, cfg, Resync(info, entries, reg, env));
    PushMoves(RegisterRetrying(l, info, reg).0, info.storeId, entries, 0, 0, env, "");
    forall k | k in v.space.index.recs && k != ""
      ensures Coming(v.space.link, cfg.storeId, k) == Some(PlaceOfRecord(cfg.storeId, v.space.index.recs[k]))
    {
      ResyncComplete(l, info, w.space.index, entries, reg, env, k);
      if w.space.link.queue != [] { assert Coming(w.space.link, cfg.storeId, k).Some?; }
    }
  }

  // ---------- whole runs ----------

  /** The operation ends connected, puts no key whose older commit is still queued, and other stores leave
      alone what this store holds. */
  ghost predicate Steady(w: World, cfg: Config, op: Op)
    requires MetaIndex.Wf(w.space.index) && Allowed(w, cfg, op)
  {
    && Perform(w, cfg, op).0.space.link.connected
    && match op
       case PutOne(k, _, _) => Committed(w.space.index, k) || !Queued(w.space.link.queue, k)
       case Elsewhere(t, _) => forall k :: k in w.space.index.recs ==> PlaceIn(t, k) == PlaceIn(w.space.link.table, k)
       case _ => true
  }

  ghost predicate OpsSteady(w: World, cfg: Config, ops: seq<Op>)
    requires OpsAllowed(w, cfg, ops, false)
    decreases |ops|
  {
    ops == [] || (Steady(w, cfg, ops[0]) && OpsSteady(Perform(w, cfg, ops[0]).0, cfg, ops[1..]))
  }

  lemma OpPublishes(w: World, cfg: Config, op: Op)
    requires Owned(w) && Allowed(w, cfg, op) && Published(w.space, cfg.storeId) && Steady(w, cfg, op)
    ensures Published(Perform(w, cfg, op).0.space, cfg.storeId)
  {
    match op
    case PutOne(k, data, env) => PutOnePublishes(w, cfg, k, data, env);
    case PutMany(keys, datas, env) => BatchPutPublishes(w, cfg, keys, datas, env);
    case LookUp(_, _) => SparingOpPublishes(w, cfg, op);
    case Delete(_, _, _) => SparingOpPublishes(w, cfg, op);
    case WatermarkPass(_, _) => SparingOpPublishes(w, cfg, op);
    case CommitTurn(r1, r2) => TurnPublishes(w.space, cfg.storeId, r1, r2);
    case Reconnect(info, entries, reg, calls) => ReconnectPublishes(w, cfg, info, entries, reg, calls);
    case Elsewhere(t, stores) => ElsewherePublishes(w.space, cfg.storeId, t, stores);
    case _ => QuietOpPublishes(w, cfg, op);
  }

  /** Operations that add no key. */
  lemma SparingOpPublishes(w: World, cfg: Config, op: Op)
    requires MetaIndex.Wf(w.space.index) && Allowed(w, cfg, op) && Published(w.space, cfg.storeId)
    requires (op.LookUp? || op.Delete? || op.WatermarkPass?) && Perform(w, cfg, op).0.space.link.connected
    ensures Published(Perform(w, cfg, op).0.space, cfg.storeId)
  {
    match op {
      case LookUp(keys, now) => TouchesSpare(w.space, keys, now);
      case Delete(k, rpc, now) => DeleteSpares(w, k, rpc, now);
      case WatermarkPass(low, turns) => PassSpares(w.space, low, cfg.grace, turns, 0);
    }
    SparedStaysPublished(w.space, Perform(w, cfg, op).0.space, cfg.storeId);
  }

  /** Operations that send nothing to Meta. */
  lemma QuietOpPublishes(w: World, cfg: Config, op: Op)
    requires MetaIndex.Wf(w.space.index) && Allowed(w, cfg, op) && Published(w.space, cfg.storeId)
    requires op.ReadOne? || op.QueueTick? || op.QueueStop?
    ensures Published(Perform(w, cfg, op).0.space, cfg.storeId)
  {
    SameLinkPublished(w.space, Perform(w, cfg, op).0.space, cfg.storeId);
  }

  lemma SameLinkPublished(sp: Space, t: Space, storeId: nat)
    requires Published(sp, storeId) && t.link == sp.link
    requires forall k :: k in t.index.recs ==> k in sp.index.recs && SamePlaceOf(t.index.recs[k], sp.index.recs[k])
    ensures Published(t, storeId)
  {
  }

  lemma ElsewherePublishes(sp: Space, storeId: nat, t: Table, stores: map<nat, StoreInfo>)
    requires Published(sp, storeId)
    requires forall k :: k in sp.index.recs ==> PlaceIn(t, k) == PlaceIn(sp.link.table, k)
    ensures Published(sp.(link := sp.link.(table := t, stores := stores)), storeId)
  {
  }

  lemma PutOnePublishes(w: World, cfg: Config, key: Key, data: seq<byte>, env: PutEnv)
    requires MetaIndex.Wf(w.space.index) && |data| < U32 && Published(w.space, cfg.storeId)
    requires Steady(w, cfg, PutOne(key, data, env))
    ensures Published(PutOp(w, cfg, key, data, env).0.space, cfg.storeId)
  {
    if !Queued(w.space.link.queue, key) {
      if key == "" {
        NamelessAwaitsNothing(w.space.link.queue, cfg.storeId);
      } else {
        AwaitedIs(w.space.link.queue, cfg.storeId, 0, 0, key);
      }
    }
    PutPublishes(w, cfg, key, data, env);
  }

  lemma {:induction false} OpsPublish(w: World, cfg: Config, ops: seq<Op>)
    requires Clean(w) && OpsAllowed(w, cfg, ops, false) && Published(w.space, cfg.storeId) && OpsSteady(w, cfg, ops)
    ensures Published(After(w, cfg, ops).space, cfg.storeId)
    decreases |ops|
  {
    if ops != [] {
      OpPublishes(w, cfg, ops[0]);
      OpKeepsClean(w, cfg, ops[0]);
      OpsPublish(Perform(w, cfg, ops[0]).0, cfg, ops[1..]);
    }
  }

  lemma StartIsPublished(totalBytes: nat, slotSize: nat, disk: Disk, link: LinkState, storeId: nat)
    requires link.queue == []
    ensures Published(Start(totalBytes, slotSize, disk, link).space, storeId)
  {
  }

  /** Meta catches up. Over any run of operations that stays connected, puts, batches, removals, evictions and
      turns in any order, Meta misses nothing: after one more answered turn of the commit thread it
      has every indexed key, at its own slot. */
  lemma MetaCatchesUp(w: World, cfg: Config, ops: seq<Op>, r1: Rpc, r2: Rpc, k: Key)
    requires Clean(w) && OpsAllowed(w, cfg, ops, false) && Published(w.space, cfg.storeId) && OpsSteady(w, cfg, ops)
    requires After(w, cfg, ops).space.link.connected && (r1.Delivered? || r2.Delivered?)
    requires k in After(w, cfg, ops).space.index.recs && k != ""
    ensures
      var v := After(w, cfg, ops).space;
      var l, r := DrainSpec(v.link, r1, r2), v.index.recs[k];
      && l.connected && l.queue == [] && k in l.table && l.table[k].storeId == cfg.storeId
      && l.table[k].offset == r.offset && l.table[k].size == r.size
  {
    OpsPublish(w, cfg, ops);
    DrainedPublished(After(w, cfg, ops).space, cfg.storeId, r1, r2, k);
  }

  lemma DrainedPublished(sp: Space, storeId: nat, r1: Rpc, r2: Rpc, k: Key)
    requires Published(sp, storeId) && sp.link.connected && (r1.Delivered? || r2.Delivered?)
    requires k in sp.index.recs && k != ""
    ensures
      var l, r := DrainSpec(sp.link, r1, r2), sp.index.recs[k];
      && l.connected && l.queue == [] && k in l.table && l.table[k].storeId == storeId
      && l.table[k].offset == r.offset && l.table[k].size == r.size
  {
    DrainedPlace(sp.link, storeId, r1, r2, k);
  }

  // ---------- a commit that arrives too late ----------

  /** A put of a key whose older commit is still queued is undone at Meta by the next turn: the queued record
      arrives last. So Meta ends up with the new slot exactly if the queued record names it too. */
  lemma QueuedCommitWinsIff(w: World, cfg: Config, key: Key, data: seq<byte>, env: PutEnv, r1: Rpc, r2: Rpc,
                            old0: Place)
    requires MetaIndex.Wf(w.space.index) && !Committed(w.space.index, key) && key != ""
    requires (forall c :: c in w.space.link.queue ==> c.storeId == cfg.storeId)
    requires Awaited(w.space.link.queue, cfg.storeId, key) == Some(old0) && (r1.Delivered? || r2.Delivered?)
    requires PutOp(w, cfg, key, data, env).1.status == Ok && PutOp(w, cfg, key, data, env).0.space.link.connected
    ensures
      var v := PutOp(w, cfg, key, data, env).0.space;
      var t := DrainSpec(v.link, r1, r2).table;
      && key in v.index.recs && PlaceIn(t, key) == Some(old0)
      && (PlaceIn(t, key) == Some(PlaceOfRecord(cfg.storeId, v.index.recs[key]))
          <==> old0 == PlaceOfRecord(cfg.storeId, v.index.recs[key]))
  {
    PlaceSpares(w.space, |data|, cfg.grace, env.ladder);
    PutLinks(w, cfg, key, data, env);
    var v := PutOp(w, cfg, key, data, env).0.space;
    DrainedPlace(v.link, cfg.storeId, r1, r2, key);
  }

  /** As when a batch's key is removed and put again before the turn: Meta then names the old slot, which
      waits to be rewritten, and not the new one. */
  lemma LateCommitMisleads(w: World, cfg: Config, key: Key, data: seq<byte>, env: PutEnv, at: nat, old0: Record)
    requires Owned(w) && |data| < U32 && key !in w.space.index.recs && key != "" && old0.key == key
    requires w.space.link.connected && w.space.link.queue == [PendingCommit(cfg.storeId, [old0])]
    requires old0.offset in OffsetsOf(w.space.queue.entries) && Allocate(w.space, |data|).1.Some?
    requires PutOp(w, cfg, key, data, env).1.status == Ok && PutOp(w, cfg, key, data, env).0.space.link.connected
    ensures
      var v := PutOp(w, cfg, key, data, env).0.space;
      var t := DrainSpec(v.link, Delivered(at), NotDelivered).table;
      && key in v.index.recs && key in t && t[key].storeId == cfg.storeId
      && t[key].offset == old0.offset != v.index.recs[key].offset
      && old0.offset in OffsetsOf(v.queue.entries)
  {
    AwaitedIs(w.space.link.queue, cfg.storeId, 0, 0, key);
    QueuedCommitWinsIff(w, cfg, key, data, env, Delivered(at), NotDelivered, PlaceOfRecord(cfg.storeId, old0));
    AllocateConserves(w.space, w.inflight + w.leaked, |data|);
    QueueInUse(w.space, w.inflight + w.leaked);
    PutAtFresh(w, cfg, key, data, env);
  }

  lemma PutAtFresh(w: World, cfg: Config, key: Key, data: seq<byte>, env: PutEnv)
    requires MetaIndex.Wf(w.space.index) && !Committed(w.space.index, key) && Allocate(w.space, |data|).1.Some?
    requires PutOp(w, cfg, key, data, env).1.status == Ok
    ensures
      var v := PutOp(w, cfg, key, data, env).0.space;
      && v.queue == w.space.queue && key in v.index.recs
      && v.index.recs[key].offset == Allocate(w.space, |data|).1.value
  {
  }
}
