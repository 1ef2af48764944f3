/** The store as a state machine of small steps, and what every run of them keeps. Each public
    operation and background tick is a run of these steps (StoreRuns). */
module StoreSteps {
  import opened Base
  import opened SlotAllocation
  import opened MetaIndex
  import opened PendingQueue
  import opened MetaTable
  import opened MetaLink
  import opened StoreSpace
  import opened Eviction
  import opened StoreOps
  import opened StoreProgress

  datatype Step =
    | TouchKey(key: Key, now: nat)
    | TakeSlot(size: nat)
    | FlushDue(now: nat)
    | FlushForced
    | EvictCold(n: nat, round: Round)
    | WriteSlot(off: nat, data: seq<byte>, outcome: WriteOutcome)
    | ReleaseSlot(off: nat)
    | IndexKey(rec: Record, data: seq<byte>)
    | CommitNow(recs: seq<Record>, r1: Rpc, r2: Rpc)
    | CommitLater(recs: seq<Record>)
    | RemoveKey(key: Key, rpc: Rpc, now: nat)
    | DrainCommits(r1: Rpc, r2: Rpc)
    | Resync(info: StoreInfo, entries: seq<Record>, reg: seq<Rpc>, env: nat -> (Rpc, Rpc))
    | OtherStores(table: Table, stores: map<nat, StoreInfo>)

  /** What the code itself establishes before it takes the step. */
  ghost predicate Enabled(w: World, cfg: Config, s: Step) {
    match s
    case TakeSlot(size) => size < U32
    case EvictCold(n, _) => n <= |w.space.index.lru|
    case WriteSlot(off, _, _) => off in w.inflight
    case ReleaseSlot(off) => off in w.inflight
    case IndexKey(r, _) => r.offset in w.inflight && r.stat == 1 && r.allocSize == w.space.alloc.slotSize
    case Resync(info, entries, reg, _) =>
      |reg| == 3 && info.storeId == cfg.storeId && Enumerates(w.space.index, entries)
    case OtherStores(t, _) =>
      forall k :: k in t && t[k].storeId == cfg.storeId ==> PlaceIn(t, k) == PlaceIn(w.space.link.table, k)
    case _ => true
  }

  /** What holds of a step besides when batches have distinct keys and equal sizes: a write stays
      inside its slot, and a key is indexed once, with the bytes just written. */
  ghost predicate Strict(w: World, s: Step) {
    match s
    case WriteSlot(_, data, _) => |data| <= w.space.alloc.slotSize
    case IndexKey(r, data) =>
      && r.key !in w.space.index.recs && r.size == |data| <= w.space.alloc.slotSize
      && PRead(w.disk, r.offset, r.size) == Some(data)
    case CommitNow(recs, _, _) => forall i :: 0 <= i < |recs| ==> Indexed(w, recs[i].key, recs[i].offset, recs[i].size)
    case CommitLater(recs) => forall i :: 0 <= i < |recs| ==> Indexed(w, recs[i].key, recs[i].offset, recs[i].size)
    case _ => true
  }

  ghost predicate Indexed(w: World, k: Key, off: nat, size: nat) {
    k in w.space.index.recs && w.space.index.recs[k].offset == off && w.space.index.recs[k].size == size
  }

  ghost function Do(w: World, cfg: Config, s: Step): World
    requires MetaIndex.Wf(w.space.index) && Enabled(w, cfg, s)
  {
    var sp := w.space;
    match s
    case TouchKey(k, now) => w.(space := sp.(index := TouchSpec(sp.index, k, now)))
    case TakeSlot(size) =>
      var (t, off) := Allocate(sp, size);
      w.(space := t, inflight := WithSlot(w.inflight, off))
    case FlushDue(now) => w.(space := FlushExpiredSpec(sp, cfg.grace, now))
    case FlushForced => w.(space := FlushAllSpec(sp))
    case EvictCold(n, round) => w.(space := EvictBatch(sp, n, round).0)
    case WriteSlot(off, data, outcome) => w.(disk := WriteSpec(w.disk, off, data, outcome).0)
    case ReleaseSlot(off) => w.(space := sp.(alloc := FreeSpec(sp.alloc, off)), inflight := w.inflight - multiset{off})
    case IndexKey(r, data) => IndexRecord(w, r, data)
    case CommitNow(recs, r1, r2) => w.(space := sp.(link := SyncCommitSpec(sp.link, cfg.storeId, recs, r1, r2).0))
    case CommitLater(recs) => w.(space := sp.(link := AsyncCommitSpec(sp.link, cfg.storeId, recs)))
    case RemoveKey(k, rpc, now) => RemoveOp(w, k, rpc, now).0
    case DrainCommits(r1, r2) => w.(space := sp.(link := DrainSpec(sp.link, r1, r2)))
    case Resync(info, entries, reg, env) =>
      w.(space := sp.(link := ResyncSpec(sp.link.(connected := true), info, entries, reg, env)))
    case OtherStores(t, stores) => w.(space := sp.(link := sp.link.(table := t, stores := stores)))
  }

  ghost predicate Owned(w: World) {
    Conserved(w.space, w.inflight + w.leaked)
  }

  // ---------- every step keeps every slot owned once ----------

  lemma StepKeepsOwned(w: World, cfg: Config, s: Step)
    requires Owned(w) && Enabled(w, cfg, s)
    ensures Owned(Do(w, cfg, s))
  {
    var sp, rest := w.space, w.inflight + w.leaked;
    match s
    case TouchKey(k, now) => TouchConserves(sp, rest, k, now);
    case TakeSlot(size) => TakeKeepsOwned(w, cfg, size);
    case FlushDue(now) => FlushExpiredConserves(sp, rest, cfg.grace, now);
    case FlushForced => FlushAllConserves(sp, rest);
    case EvictCold(n, round) => EvictBatchConserves(sp, rest, n, round);
    case ReleaseSlot(off) => ReleaseKeepsOwned(w, cfg, off);
    case IndexKey(r, data) => IndexKeepsOwned(w, cfg, r, data);
    case RemoveKey(k, rpc, now) => RemoveKeepsOwned(w, cfg, k, rpc, now);
    case _ =>
  }

  lemma TakeKeepsOwned(w: World, cfg: Config, size: nat)
    requires Owned(w) && size < U32
    ensures Owned(Do(w, cfg, TakeSlot(size)))
  {
    AllocateConserves(w.space, w.inflight + w.leaked, size);
    var off := Allocate(w.space, size).1;
    assert WithSlot(w.inflight + w.leaked, off) == WithSlot(w.inflight, off) + w.leaked;
  }

  lemma ReleaseKeepsOwned(w: World, cfg: Config, off: nat)
    requires Owned(w) && off in w.inflight
    ensures Owned(Do(w, cfg, ReleaseSlot(off)))
  {
    FreeConserves(w.space, w.inflight + w.leaked, off);
    assert w.inflight + w.leaked - multiset{off} == w.inflight - multiset{off} + w.leaked;
  }

  lemma IndexKeepsOwned(w: World, cfg: Config, r: Record, data: seq<byte>)
    requires Owned(w) && Enabled(w, cfg, IndexKey(r, data))
    ensures Owned(Do(w, cfg, IndexKey(r, data)))
  {
    IndexConserves(w.space, w.inflight + w.leaked, r.key, r);
    var recs := w.space.index.recs;
    var lost := if r.key in recs then multiset{recs[r.key].offset} else multiset{};
    assert w.inflight + w.leaked - multiset{r.offset} + lost == (w.inflight - multiset{r.offset}) + (w.leaked + lost);
  }

  lemma RemoveKeepsOwned(w: World, cfg: Config, k: Key, rpc: Rpc, now: nat)
    requires Owned(w)
    ensures Owned(Do(w, cfg, RemoveKey(k, rpc, now)))
  {
    var sp := w.space.(link := SyncRemoveSpec(w.space.link, [k], rpc).0);
    if k in w.space.index.recs { RemoveConserves(sp, w.inflight + w.leaked, k, now); }
  }

  // ---------- every step keeps the stored bytes ----------

  /** Each indexed key's bytes are in the file, inside one slot, as they were put. */
  ghost predicate Holds(w: World, k: Key) {
    var r := w.space.index.recs;
    k in r ==> k in w.written && r[k].size <= w.space.alloc.slotSize
               && PRead(w.disk, r[k].offset, r[k].size) == Some(w.written[k])
  }

  ghost predicate Contents(w: World) {
    forall k :: k in w.space.index.recs ==> Holds(w, k)
  }

  /** A write to a slot of the operation does not touch a slot held elsewhere. */
  lemma WriteLeavesOthers(w: World, off: nat, data: seq<byte>, outcome: WriteOutcome, o: nat, n: nat)
    requires Owned(w) && off in w.inflight && |data| <= w.space.alloc.slotSize
    requires o in InUse(w.space.alloc) && o != off && n <= w.space.alloc.slotSize && o + n <= |w.disk|
    ensures PRead(WriteSpec(w.disk, off, data, outcome).0, o, n) == PRead(w.disk, o, n)
    ensures |WriteSpec(w.disk, off, data, outcome).0| >= |w.disk|
  {
    assert off in multiset(InUse(w.space.alloc));
    InUseDisjoint(w.space.alloc, o, off);
    WriteSpecElsewhere(w.disk, off, data, outcome, o, n);
  }

  lemma StepKeepsContents(w: World, cfg: Config, s: Step)
    requires Owned(w) && Enabled(w, cfg, s) && Strict(w, s) && Contents(w)
    ensures Contents(Do(w, cfg, s))
  {
    var v := Do(w, cfg, s);
    forall k | k in v.space.index.recs ensures Holds(v, k) {
      StepKeepsBytes(w, cfg, s, k);
    }
  }

  lemma StepKeepsBytes(w: World, cfg: Config, s: Step, k: Key)
    requires Owned(w) && Enabled(w, cfg, s) && Strict(w, s) && Contents(w)
    requires k in Do(w, cfg, s).space.index.recs
    ensures Holds(Do(w, cfg, s), k)
  {
    match s
    case WriteSlot(off, data, outcome) =>
      IndexedSlot(w.space, w.inflight + w.leaked, k);
      WriteLeavesOthers(w, off, data, outcome, w.space.index.recs[k].offset, w.space.index.recs[k].size);
    case IndexKey(r, data) =>
    case _ => StepLeavesRecords(w, cfg, s, k);
  }

  /** Steps that neither write nor index leave a surviving record and the slot size alone. */
  lemma StepLeavesRecords(w: World, cfg: Config, s: Step, k: Key)
    requires Owned(w) && Enabled(w, cfg, s) && !s.WriteSlot? && !s.IndexKey?
    requires k in Do(w, cfg, s).space.index.recs
    ensures
      var v := Do(w, cfg, s);
      && v.disk == w.disk && v.written == w.written && v.space.alloc.slotSize == w.space.alloc.slotSize
      && k in w.space.index.recs
      && v.space.index.recs[k].(accessTime := 0) == w.space.index.recs[k].(accessTime := 0)
  {
    var rest := w.inflight + w.leaked;
    match s
    case TakeSlot(size) =>
      AllocateConserves(w.space, rest, size);
      UninitialisedIsEmpty(w.space, rest);
    case FlushDue(now) => FlushExpiredConserves(w.space, rest, cfg.grace, now);
    case FlushForced => FlushAllConserves(w.space, rest);
    case EvictCold(n, round) => EvictLeavesRecords(w, cfg, n, round, k);
    case _ =>
  }

  lemma EvictLeavesRecords(w: World, cfg: Config, n: nat, round: Round, k: Key)
    requires Owned(w) && Enabled(w, cfg, EvictCold(n, round))
    ensures
      var v := Do(w, cfg, EvictCold(n, round));
      && v.space.alloc == w.space.alloc
      && (k in v.space.index.recs ==> k in w.space.index.recs && v.space.index.recs[k] == w.space.index.recs[k])
  {
    var sp := w.space.(link := SyncRemoveSpec(w.space.link, KeysOf(Coldest(w.space.index, n)), round.rpc).0);
    EvictNShape(sp, n, round.now);
  }

  // ---------- Meta never names a slot that is not the key's own ----------

  /** What Meta, or a queued commit, says of `k` is what the index says, unless the key is one
      Meta may not have been told about. */
  ghost predicate Agrees(w: World, k: Key, off: nat, size: nat) {
    k in w.space.link.unannounced || Indexed(w, k, off, size)
  }

  ghost predicate MetaAgrees(w: World, cfg: Config) {
    var l := w.space.link;
    && (forall k :: k in l.table && l.table[k].storeId == cfg.storeId ==>
          Agrees(w, k, l.table[k].offset, l.table[k].size))
    && (forall c :: c in l.queue ==> c.storeId == cfg.storeId)
    && (forall c, r :: c in l.queue && r in c.records ==> Agrees(w, r.key, r.offset, r.size))
  }

  /** After a commit, answered or not, every key is where it was or where a committed record
      says. */
  lemma CommitMoves(l: LinkState, storeId: nat, recs: seq<Record>, r1: Rpc, r2: Rpc, k: Key)
    ensures
      var m := SyncCommitSpec(l, storeId, recs, r1, r2).0;
      && m.queue == l.queue && m.unannounced == l.unannounced && m.stores == l.stores
      && (PlaceIn(m.table, k) == PlaceIn(l.table, k)
          || exists i ::
               0 <= i < |recs| && recs[i].key == k && PlaceIn(m.table, k) == Some(PlaceOfRecord(storeId, recs[i])))
  {
    LastPlaceIsARecord(storeId, recs, |recs|, k);
    var t1 := Commits(l.table, storeId, recs, r1);
    if !r1.NotDelivered? { CommitPlaces(l.table, storeId, Wire(recs), r1.at, |recs|, k); }
    if !r2.NotDelivered? { CommitPlaces(t1, storeId, Wire(recs), r2.at, |recs|, k); }
  }

  lemma {:induction false} LastPlaceIsARecord(storeId: nat, recs: seq<Record>, n: nat, k: Key)
    requires n <= |recs|
    ensures
      var p := LastPlace(storeId, Wire(recs), n, k);
      p.None? || exists i :: 0 <= i < |recs| && recs[i].key == k && p == Some(PlaceOfRecord(storeId, recs[i]))
  {
    if n > 0 { LastPlaceIsARecord(storeId, recs, n - 1, k); }
  }

  lemma {:induction false} PushMoves(l: LinkState, storeId: nat, entries: seq<Record>, i: nat, j: nat,
                                     env: nat -> (Rpc, Rpc), k: Key)
    ensures
      var m := PushBatches(l, storeId, entries, i, j, env);
      && m.queue == l.queue && m.unannounced == l.unannounced
      && (PlaceIn(m.table, k) == PlaceIn(l.table, k)
          || exists e ::
               && 0 <= e < |entries| && entries[e].key == k
               && PlaceIn(m.table, k) == Some(PlaceOfRecord(storeId, entries[e])))
    decreases |entries| - i
  {
    if i < |entries| {
      var end := Min(i + BATCH_SIZE, |entries|);
      CommitMoves(l, storeId, entries[i..end], env(j).0, env(j).1, k);
      var (m, s) := SyncCommitSpec(l, storeId, entries[i..end], env(j).0, env(j).1);
      if s == Ok { PushMoves(m, storeId, entries, i + BATCH_SIZE, j + 1, env, k); }
    }
  }

  /** A new table leaves `k` where it was, forgets it, or puts it where the index has it. */
  ghost predicate MovesWell(w: World, cfg: Config, t: Table, k: Key) {
    var p := PlaceIn(t, k);
    || p == PlaceIn(w.space.link.table, k)
    || (p.Some? && p.value.storeId == cfg.storeId ==> Agrees(w, k, p.value.offset, p.value.size))
  }

  /** A new table that moves this store's keys only to where the index has them keeps Meta in
      agreement. */
  lemma TableAgrees(w: World, cfg: Config, v: World)
    requires MetaAgrees(w, cfg) && v.space.index == w.space.index
    requires v.space.link.unannounced == w.space.link.unannounced
    requires v.space.link.queue == w.space.link.queue || v.space.link.queue == []
    requires forall k :: MovesWell(w, cfg, v.space.link.table, k)
    ensures MetaAgrees(v, cfg)
  {
    var t, u := w.space.link.table, v.space.link.table;
    forall k | k in u && u[k].storeId == cfg.storeId ensures Agrees(v, k, u[k].offset, u[k].size) {
      assert MovesWell(w, cfg, u, k) && PlaceIn(u, k).Some?;
      if PlaceIn(u, k) == PlaceIn(t, k) { assert k in t; }
    }
  }

  lemma CommitKeepsAgreement(w: World, cfg: Config, recs: seq<Record>, r1: Rpc, r2: Rpc, queue: seq<PendingCommit>)
    requires MetaAgrees(w, cfg) && (queue == w.space.link.queue || queue == [])
    requires forall i :: 0 <= i < |recs| ==> Agrees(w, recs[i].key, recs[i].offset, recs[i].size)
    ensures
      var l := SyncCommitSpec(w.space.link.(queue := queue), cfg.storeId, recs, r1, r2).0;
      MetaAgrees(w.(space := w.space.(link := l)), cfg)
  {
    var l := SyncCommitSpec(w.space.link.(queue := queue), cfg.storeId, recs, r1, r2).0;
    CommitMoves(w.space.link.(queue := queue), cfg.storeId, recs, r1, r2, "");
    forall k ensures MovesWell(w, cfg, l.table, k) {
      CommitMoves(w.space.link.(queue := queue), cfg.storeId, recs, r1, r2, k);
    }
    TableAgrees(w, cfg, w.(space := w.space.(link := l)));
  }

  /** Telling Meta and then dropping the keys from the index, in that order, keeps agreement
      whatever becomes of the call. */
  lemma DropKeepsAgreement(w: World, cfg: Config, v: World, keys: seq<Key>, rpc: Rpc)
    requires MetaAgrees(w, cfg)
    requires
      var (l, s) := SyncRemoveSpec(w.space.link, keys, rpc);
      && v.space.link == l
      && (forall k :: k in w.space.index.recs && k !in v.space.index.recs ==> s == Ok && k in keys)
      && (forall k :: k in v.space.index.recs ==>
            k in w.space.index.recs && v.space.index.recs[k] == w.space.index.recs[k])
    ensures MetaAgrees(v, cfg)
  {
    var l := v.space.link;
    forall k | k in l.table && l.table[k].storeId == cfg.storeId
      ensures Agrees(v, k, l.table[k].offset, l.table[k].size)
    {
      assert Agrees(w, k, w.space.link.table[k].offset, w.space.link.table[k].size);
    }
    forall c, r | c in l.queue && r in c.records ensures Agrees(v, r.key, r.offset, r.size) {
      assert Agrees(w, r.key, r.offset, r.size);
      if r.key in keys { assert Queued(w.space.link.queue, r.key); }
    }
  }

  /** A change of the index that leaves every record's place alone, or adds a new key. */
  lemma IndexKeepsAgreement(w: World, cfg: Config, v: World)
    requires MetaAgrees(w, cfg) && v.space.link == w.space.link
    requires forall k :: k in w.space.index.recs ==>
      Indexed(v, k, w.space.index.recs[k].offset, w.space.index.recs[k].size)
    ensures MetaAgrees(v, cfg)
  {
    var l := v.space.link;
    forall k | k in l.table && l.table[k].storeId == cfg.storeId
      ensures Agrees(v, k, l.table[k].offset, l.table[k].size)
    {
      assert Agrees(w, k, l.table[k].offset, l.table[k].size);
    }
    forall c, r | c in l.queue && r in c.records ensures Agrees(v, r.key, r.offset, r.size) {
      assert Agrees(w, r.key, r.offset, r.size);
    }
  }

  lemma EvictKeepsAgreement(w: World, cfg: Config, n: nat, round: Round)
    requires Owned(w) && MetaAgrees(w, cfg) && n <= |w.space.index.lru|
    ensures MetaAgrees(Do(w, cfg, EvictCold(n, round)), cfg)
  {
    var keys := KeysOf(Coldest(w.space.index, n));
    var (l, s) := SyncRemoveSpec(w.space.link, keys, round.rpc);
    var v := Do(w, cfg, EvictCold(n, round));
    var lru := w.space.index.lru;
    EvictNShape(w.space.(link := l), n, round.now);
    forall k | k in lru[|lru| - n..] ensures k in keys {
      var i :| 0 <= i < n && lru[|lru| - n..][i] == k;
      assert k in lru && keys[n - 1 - i] == k;
    }
    DropKeepsAgreement(w, cfg, v, keys, round.rpc);
  }

  lemma {:induction false} MergedRecords(queue: seq<PendingCommit>)
    ensures forall r :: r in Merged(queue) ==> exists c :: c in queue && r in c.records
    decreases |queue|
  {
    if queue != [] {
      MergedRecords(queue[..|queue| - 1]);
      assert queue[|queue| - 1] in queue;
    }
  }

  lemma DrainKeepsAgreement(w: World, cfg: Config, r1: Rpc, r2: Rpc)
    requires MetaAgrees(w, cfg)
    ensures MetaAgrees(Relinked(w, DrainSpec(w.space.link, r1, r2)), cfg)
  {
    var queue := w.space.link.queue;
    if queue != [] {
      var recs := Merged(queue);
      MergedRecords(queue);
      assert queue[0] in queue;
      forall i | 0 <= i < |recs| ensures Agrees(w, recs[i].key, recs[i].offset, recs[i].size) {
        assert recs[i] in recs;
      }
      CommitKeepsAgreement(w, cfg, recs, r1, r2, []);
    }
  }

  function Relinked(w: World, l: LinkState): World { w.(space := w.space.(link := l)) }

  lemma ResyncKeepsAgreement(w: World, cfg: Config, info: StoreInfo, entries: seq<Record>, reg: seq<Rpc>,
                             env: nat -> (Rpc, Rpc))
    requires MetaAgrees(w, cfg) && Enabled(w, cfg, Resync(info, entries, reg, env))
    ensures MetaAgrees(Relinked(w, ResyncSpec(w.space.link.(connected := true), info, entries, reg, env)), cfg)
  {
    var l := w.space.link.(connected := true);
    var (m, s) := RegisterRetrying(l, info, reg);
    var v := Relinked(w, ResyncSpec(l, info, entries, reg, env));
    PushMoves(m, info.storeId, entries, 0, 0, env, "");
    forall k ensures MovesWell(w, cfg, v.space.link.table, k) {
      PushMoves(m, info.storeId, entries, 0, 0, env, k);
    }
    TableAgrees(w, cfg, v);
  }

  lemma LaterKeepsAgreement(w: World, cfg: Config, recs: seq<Record>)
    requires MetaAgrees(w, cfg) && Strict(w, CommitLater(recs))
    ensures MetaAgrees(Relinked(w, AsyncCommitSpec(w.space.link, cfg.storeId, recs)), cfg)
  {
    var v := Relinked(w, AsyncCommitSpec(w.space.link, cfg.storeId, recs));
    forall c, r | c in v.space.link.queue && r in c.records ensures Agrees(v, r.key, r.offset, r.size) {
      if c in w.space.link.queue {
        assert Agrees(w, r.key, r.offset, r.size);
      } else {
        assert c.records == recs;
        var i :| 0 <= i < |recs| && recs[i] == r;
        assert Indexed(w, recs[i].key, recs[i].offset, recs[i].size);
      }
    }
    forall k | k in v.space.link.table && v.space.link.table[k].storeId == cfg.storeId
      ensures Agrees(v, k, v.space.link.table[k].offset, v.space.link.table[k].size)
    {
      assert Agrees(w, k, w.space.link.table[k].offset, w.space.link.table[k].size);
    }
  }

  lemma LinkStepKeepsAgreement(w: World, cfg: Config, s: Step)
    requires Owned(w) && MetaAgrees(w, cfg) && Enabled(w, cfg, s) && Strict(w, s)
    requires s.CommitNow? || s.CommitLater? || s.DrainCommits? || s.Resync? || s.OtherStores?
    ensures MetaAgrees(Do(w, cfg, s), cfg)
  {
    match s
    case CommitNow(recs, r1, r2) => CommitKeepsAgreement(w, cfg, recs, r1, r2, w.space.link.queue);
    case CommitLater(recs) => LaterKeepsAgreement(w, cfg, recs);
    case DrainCommits(r1, r2) => DrainKeepsAgreement(w, cfg, r1, r2);
    case Resync(info, entries, reg, env) => ResyncKeepsAgreement(w, cfg, info, entries, reg, env);
    case OtherStores(t, _) => OthersKeepAgreement(w, cfg, s);
  }

  lemma OthersKeepAgreement(w: World, cfg: Config, s: Step)
    requires MetaAgrees(w, cfg) && MetaIndex.Wf(w.space.index) && s.OtherStores? && Enabled(w, cfg, s)
    ensures MetaAgrees(Do(w, cfg, s), cfg)
  {
    forall k ensures MovesWell(w, cfg, s.table, k) {
      if k in s.table && s.table[k].storeId == cfg.storeId {
        assert PlaceIn(s.table, k) == PlaceIn(w.space.link.table, k);
      }
    }
    TableAgrees(w, cfg, Do(w, cfg, s));
  }

  /** Over every step, Meta's records of this store name keys indexed at that very offset, but
      for the keys it may not have been told about. */
  lemma StepKeepsAgreement(w: World, cfg: Config, s: Step)
    requires Owned(w) && MetaAgrees(w, cfg) && Enabled(w, cfg, s) && Strict(w, s)
    ensures MetaAgrees(Do(w, cfg, s), cfg)
  {
    if s.CommitNow? || s.CommitLater? || s.DrainCommits? || s.Resync? || s.OtherStores? {
      LinkStepKeepsAgreement(w, cfg, s);
    } else if s.EvictCold? {
      EvictKeepsAgreement(w, cfg, s.n, s.round);
    } else if s.RemoveKey? {
      DropKeepsAgreement(w, cfg, Do(w, cfg, s), [s.key], s.rpc);
    } else {
      IndexKeepsAgreement(w, cfg, Do(w, cfg, s));
    }
  }

  /** So a slot that is free, waiting or in the operation's hands is named by no Meta record of
      this store, as long as Meta was told of every eviction. */
  lemma MetaNeverDangles(w: World, cfg: Config, k: Key)
    requires Owned(w) && MetaAgrees(w, cfg) && w.space.link.unannounced == {}
    requires k in w.space.link.table && w.space.link.table[k].storeId == cfg.storeId
    ensures
      var off := w.space.link.table[k].offset;
      && Indexed(w, k, off, w.space.link.table[k].size) && off in InUse(w.space.alloc)
      && off !in OffsetsOf(w.space.queue.entries) && off !in w.inflight && off !in w.leaked
  {
    assert Agrees(w, k, w.space.link.table[k].offset, w.space.link.table[k].size);
    IndexedSlot(w.space, w.inflight + w.leaked, k);
    var off, waiting := w.space.link.table[k].offset, OffsetsOf(w.space.queue.entries);
    assert off in waiting <==> off in multiset(waiting);
  }

  /** Only a removal that was skipped for disconnection, or met a queued commit of the same key,
      can leave Meta untold. */
  lemma OnlySkippedIsUnannounced(w: World, cfg: Config, s: Step)
    requires MetaIndex.Wf(w.space.index) && Enabled(w, cfg, s)
    requires s.EvictCold? || s.RemoveKey? ==> w.space.link.connected && w.space.link.queue == []
    ensures Do(w, cfg, s).space.link.unannounced == w.space.link.unannounced
  {
    match s
    case EvictCold(n, round) =>
      EvictNShape(w.space.(link := SyncRemoveSpec(w.space.link, KeysOf(Coldest(w.space.index, n)), round.rpc).0), n,
                  round.now);
      assert (set k | k in KeysOf(Coldest(w.space.index, n)) && Queued([], k)) == {};
    case RemoveKey(k, rpc, now) =>
      assert (set j | j in [k] && Queued([], j)) == {};
    case Resync(info, entries, reg, env) =>
      PushMoves(RegisterRetrying(w.space.link.(connected := true), info, reg).0, info.storeId, entries, 0, 0, env, "");
    case CommitNow(recs, r1, r2) =>
    case _ =>
  }
}
