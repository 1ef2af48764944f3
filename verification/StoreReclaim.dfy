/** Which slots come back and which keys go when the store makes room (src/store/falconkv_store.cpp, the
    ladders of `Put` and `BatchPut`; src/store/pending_evict_queue.cpp): slots that have waited out
    their grace period first, then the coldest keys and no more of them than needed, and waiting
    slots before their time only at the very end. Times are compared as they are read. */
module StoreReclaim {
  import opened Base
  import opened SlotAllocation
  import opened MetaIndex
  import opened PendingQueue
  import opened MetaLink
  import opened StoreSpace
  import opened Eviction
  import opened StoreOps
  import opened StoreProgress
  import opened StoreSteps
  import opened StoreRuns
  import opened StoreTraces
  import opened StoreBatches
  import opened StoreBatchLaws
  import opened StoreTheorems

  // ---------- the queue's own thread ----------

  /** A flush leaves waiting exactly the entries that have not waited out the grace period, and takes the
      slots of all others out of use. */
  lemma FlushFreesTheOld(sp: Space, rest: multiset<nat>, grace: nat, now: nat)
    requires Conserved(sp, rest) && now < U64 && forall e :: e in sp.queue.entries ==> e.enqueuedAt <= now
    ensures
      var t := FlushExpiredSpec(sp, grace, now);
      && (forall e :: e in t.queue.entries <==> e in sp.queue.entries && now < e.enqueuedAt + grace)
      && (forall e :: e in sp.queue.entries ==> (e.offset in InUse(t.alloc) <==> now < e.enqueuedAt + grace))
      && (forall x :: x in InUse(t.alloc) ==> x in InUse(sp.alloc))
  {
    var es := sp.queue.entries;
    var due := OffsetsOf(Due(es, grace, now));
    WaitedOut(es, grace, now);
    QueueInUse(sp, rest);
    DueInUse(sp.alloc, es, grace, now);
    FreeAllCorrect(sp.alloc, due);
    forall e | e in es ensures e.offset in InUse(FreeAll(sp.alloc, due)) <==> now < e.enqueuedAt + grace {
      EntryDue(sp.alloc, es, grace, now, e);
    }
  }

  /** No two entries wait for one slot, so a slot is due with its own entry. */
  lemma EntryDue(a: AllocState, es: seq<Entry>, grace: nat, now: nat, e: Entry)
    requires AllInUse(a, OffsetsOf(es)) && e in es
    ensures e.offset in InUse(a) && (e.offset in OffsetsOf(Due(es, grace, now)) <==> e in Due(es, grace, now))
  {
    var due := Due(es, grace, now);
    CompactionMembers(es, grace, now);
    var i :| 0 <= i < |es| && es[i] == e;
    assert OffsetsOf(es)[i] == e.offset;
    if e in due {
      var j :| 0 <= j < |due| && due[j] == e;
      assert OffsetsOf(due)[j] == e.offset;
    }
    if e.offset in OffsetsOf(due) {
      var j :| 0 <= j < |due| && OffsetsOf(due)[j] == e.offset;
      assert due[j] in due;
      SameEntry(es, due[j], e);
    }
  }

  lemma SameEntry(es: seq<Entry>, d: Entry, e: Entry)
    requires NoDup(OffsetsOf(es)) && d in es && e in es && d.offset == e.offset
    ensures d == e
  {
    var i :| 0 <= i < |es| && es[i] == d;
    var j :| 0 <= j < |es| && es[j] == e;
    assert OffsetsOf(es)[i] == OffsetsOf(es)[j];
    if i < j { NoDupAt(OffsetsOf(es), i, j); }
    if j < i { NoDupAt(OffsetsOf(es), j, i); }
  }

  /** A turn of the queue's thread, in any state of the store. */
  lemma TickFreesTheOld(w: World, cfg: Config, now: nat)
    requires Owned(w) && now < U64 && EnqueuedBy(w, now)
    ensures
      var (es, v) := (w.space.queue.entries, Perform(w, cfg, QueueTick(now)).0);
      && (forall e :: e in v.space.queue.entries <==> e in es && now < e.enqueuedAt + cfg.grace)
      && (forall e :: e in es ==> (e.offset in InUse(v.space.alloc) <==> now < e.enqueuedAt + cfg.grace))
      && v.space.index == w.space.index && v.space.link == w.space.link && v.disk == w.disk
  {
    FlushFreesTheOld(w.space, w.inflight + w.leaked, cfg.grace, now);
  }

  /** A removed key's slot comes back at the first turn that is the grace period later, not before. */
  lemma RemovedSlotComesBack(w: World, cfg: Config, k: Key, rpc: Rpc, now: nat, later: nat)
    requires Owned(w) && k in w.space.index.recs && RemoveOp(w, k, rpc, now).1 == Ok
    requires now <= later < U64 && EnqueuedBy(w, later)
    ensures Owned(RemoveOp(w, k, rpc, now).0)
    ensures
      var (v, off) := (RemoveOp(w, k, rpc, now).0, w.space.index.recs[k].offset);
      && off in InUse(v.space.alloc)
      && (off in InUse(Perform(v, cfg, QueueTick(later)).0.space.alloc) <==> later < now + cfg.grace)
  {
    var v := RemoveOp(w, k, rpc, now).0;
    var r := w.space.index.recs[k];
    RemoveKeepsOwned(w, cfg, k, rpc, now);
    IndexedSlot(w.space, w.inflight + w.leaked, k);
    assert v.space.queue.entries == w.space.queue.entries + [Entry(r.offset, r.allocSize, now)];
    assert Entry(r.offset, r.allocSize, now) in v.space.queue.entries;
    TickFreesTheOld(v, cfg, later);
  }

  /** `FlushExpired` reports the bytes by which the used space shrinks. */
  lemma FlushReportsBytes(sp: Space, rest: multiset<nat>, grace: nat, now: nat)
    requires Conserved(sp, rest)
    ensures
      var t := FlushExpiredSpec(sp, grace, now);
      && t.alloc.usedSlots <= sp.alloc.usedSlots
      && BytesOf(Due(sp.queue.entries, grace, now)) == (sp.alloc.usedSlots - t.alloc.usedSlots) * sp.alloc.slotSize
  {
    var due := Due(sp.queue.entries, grace, now);
    FlushExpiredConserves(sp, rest, grace, now);
    CompactionMembers(sp.queue.entries, grace, now);
    BytesOfSlots(due, sp.alloc.slotSize);
    UsedIsHeld(sp, rest);
    UsedIsHeld(FlushExpiredSpec(sp, grace, now), rest);
    CompactionSizes(sp.queue.entries, grace, now);
  }

  lemma {:induction false} CompactionSizes(es: seq<Entry>, grace: nat, now: nat)
    ensures |Kept(es, grace, now)| + |Due(es, grace, now)| == |es|
    decreases |es|
  {
    if es != [] { CompactionSizes(es[..|es| - 1], grace, now); }
  }

  /** The usage the watermarks are compared with is the share of the slots in use. These are the indexed, the
      waiting, those in somebody's hands and the leaked (`UsedIsHeld`): evicting a key does not lower
      it, freeing a waiting slot does. */
  lemma UsageAtMost(a: AllocState, mark: real)
    requires a.initialized && a.totalSlots > 0
    ensures Usage(a) <= mark <==> a.usedSlots as real <= mark * a.totalSlots as real
  {
    ShareAtMost(a.usedSlots as real, a.totalSlots as real, mark);
  }

  lemma ShareAtMost(part: real, whole: real, mark: real)
    requires whole > 0.0
    ensures part / whole <= mark <==> part <= mark * whole
  {
    assert part == part / whole * whole;
    if part / whole <= mark {
      assert part / whole * whole <= mark * whole;
    } else {
      assert part / whole * whole > mark * whole;
    }
  }

  // ---------- the first level: slots that have waited long enough ----------

  /** How many entries have waited out the grace period at `now`. */
  function OldCount(es: seq<Entry>, grace: nat, now: nat): nat
    decreases |es|
  {
    if es == [] then 0
    else OldCount(es[..|es| - 1], grace, now) + if now - es[|es| - 1].enqueuedAt >= grace then 1 else 0
  }

  lemma {:induction false} OldAreDue(es: seq<Entry>, grace: nat, now: nat)
    requires now < U64 && forall e :: e in es ==> e.enqueuedAt <= now
    ensures |Due(es, grace, now)| == OldCount(es, grace, now)
    ensures OldCount(es, grace, now) > 0 <==> exists e :: e in es && now - e.enqueuedAt >= grace
    decreases |es|
  {
    if es != [] {
      var front, last := es[..|es| - 1], es[|es| - 1];
      assert es == front + [last];
      OldAreDue(front, grace, now);
      SmallModulo(now - last.enqueuedAt);
    }
  }

  /** What an operation that only reused old slots has left alone. */
  predicate OnlyReused(sp: Space, t: Space) {
    t.index == sp.index && t.link == sp.link && t.queue.forced == sp.queue.forced
  }

  lemma FreeSlotsAre(a: AllocState)
    requires SlotAllocation.Wf(a) && a.initialized
    ensures FreeSlots(a) == a.totalSlots - |InUse(a)|
  {
  }

  lemma TakeOneFree(sp: Space, rest: multiset<nat>, size: nat)
    requires Conserved(sp, rest) && size < U32 && sp.alloc.initialized && Admissible(sp.alloc, size)
    requires FreeSlots(sp.alloc) > 0
    ensures
      var (t, off) := Allocate(sp, size);
      && off.Some? && Conserved(t, rest + multiset{off.value}) && t == sp.(alloc := t.alloc)
      && SameGeometry(sp.alloc, t.alloc) && FreeSlots(t.alloc) == FreeSlots(sp.alloc) - 1
  {
    AllocateConserves(sp, rest, size);
    AllocateSucceedsIff(sp, size);
  }

  /** With a free slot, or an entry old enough to give one, a descent of the ladder goes no further than
      its first flush. */
  lemma FirstLevelFinds(sp: Space, rest: multiset<nat>, size: nat, grace: nat, env: Ladder)
    requires Conserved(sp, rest) && size < U32 && sp.alloc.initialized && Admissible(sp.alloc, size)
    requires FreeSlots(sp.alloc) + |Due(sp.queue.entries, grace, env.flush1)| > 0
    ensures
      var (t, off) := LadderSpec(sp, size, grace, env);
      && off.Some? && Conserved(t, rest + multiset{off.value}) && OnlyReused(sp, t) && SameGeometry(sp.alloc, t.alloc)
      && t.queue.entries == Kept(sp.queue.entries, grace, env.flush1)
      && FreeSlots(t.alloc) == FreeSlots(sp.alloc) + |Due(sp.queue.entries, grace, env.flush1)| - 1
  {
    FlushExpiredConserves(sp, rest, grace, env.flush1);
    TakeOneFree(FlushExpiredSpec(sp, grace, env.flush1), rest, size);
  }

  /** `Put` spares the keys while a waiting slot is old enough: it evicts nothing, tells Meta of no removal
      and cuts no grace period short. */
  lemma PutReusesOldSlots(w: World, cfg: Config, key: Key, data: seq<byte>, env: PutEnv, e: Entry)
    requires Owned(w) && |data| < U32 && Admissible(w.space.alloc, |data|)
    requires env.ladder.flush1 < U64 && EnqueuedBy(w, env.ladder.flush1)
    requires e in w.space.queue.entries && env.ladder.flush1 - e.enqueuedAt >= cfg.grace
    ensures
      var (v, r) := PutOp(w, cfg, key, data, env);
      && r.status != NoSpace && v.space.queue.forced == w.space.queue.forced
      && v.space.link.unannounced == w.space.link.unannounced
      && (forall j :: j != key ==> (j in v.space.index.recs <==> j in w.space.index.recs))
      && (forall j :: j in w.space.index.recs && j != key ==> v.space.index.recs[j] == w.space.index.recs[j])
  {
    if !Committed(w.space.index, key) {
      var sp, rest := w.space, w.inflight + w.leaked;
      AllocateConserves(sp, rest, |data|);
      UninitialisedIsEmpty(sp, rest);
      OldAreDue(sp.queue.entries, cfg.grace, env.ladder.flush1);
      if Allocate(sp, |data|).1.None? { FirstLevelFinds(sp, rest, |data|, cfg.grace, env.ladder); }
      PutLeavesOthers(w, cfg, key, data, env);
    }
  }

  /** Once its slot is found, `Put` changes no other key and no waiting slot. */
  lemma PutLeavesOthers(w: World, cfg: Config, key: Key, data: seq<byte>, env: PutEnv)
    requires MetaIndex.Wf(w.space.index) && !Committed(w.space.index, key)
    ensures
      var ((t, off), (v, r)) := (PlaceSpec(w.space, |data|, cfg.grace, env.ladder), PutOp(w, cfg, key, data, env));
      && v.space.queue == t.queue && v.space.link.unannounced == t.link.unannounced
      && (r.status == NoSpace <==> off.None?)
      && (forall j :: j != key ==> (j in v.space.index.recs <==> j in t.index.recs))
      && (forall j :: j in t.index.recs && j != key ==> v.space.index.recs[j] == t.index.recs[j])
  {
  }

  /** In a batch the ladders find a slot each at their first level as long as there are free slots and old
      entries for all of them when the first one starts. */
  lemma {:induction false} LaddersReuse(sp: Space, rest: multiset<nat>, datas: seq<seq<byte>>, pos: seq<nat>,
                                        grace: nat, ladders: nat -> Ladder)
    requires Conserved(sp, rest) && sp.alloc.initialized && SizesOk(datas) && InRange(pos, |datas|)
    requires forall i :: 0 <= i < |pos| ==> Admissible(sp.alloc, |datas[pos[i]]|)
    requires pos != [] ==>
      |pos| <= FreeSlots(sp.alloc) + |Due(sp.queue.entries, grace, ladders(pos[0]).flush1)|
    ensures
      var (t, places) := LadderEach(sp, datas, pos, grace, ladders);
      OnlyReused(sp, t) && forall i :: 0 <= i < |pos| ==> places[i].Some?
    decreases |pos|
  {
    if pos != [] {
      var size, l := |datas[pos[0]]|, ladders(pos[0]);
      FirstLevelFinds(sp, rest, size, grace, l);
      var (t, off) := LadderSpec(sp, size, grace, l);
      TailAdmissible(sp.alloc, t.alloc, datas, pos, 1);
      LaddersReuse(t, rest + multiset{off.value}, datas, pos[1..], grace, ladders);
      var places := LadderEach(t, datas, pos[1..], grace, ladders).1;
      assert forall i :: 0 < i < |pos| ==> ([off] + places)[i] == places[i - 1];
    }
  }

  /** The slots a batch allocation leaves, and the descents of the ladder it leaves to make. */
  lemma PlacedThenLadders(sp: Space, rest: multiset<nat>, cfg: Config, datas: seq<seq<byte>>, pos: seq<nat>,
                          ladders: nat -> Ladder)
    requires Conserved(sp, rest) && sp.alloc.initialized && SizesOk(datas) && pos != [] && |pos| < U32
    requires InRange(pos, |datas|) && forall i :: 0 <= i < |pos| ==> Admissible(sp.alloc, |datas[pos[i]]|)
    requires
      var n := FreeSlots(sp.alloc);
      n < |pos| ==> |pos| <= n + |Due(sp.queue.entries, cfg.grace, ladders(pos[n]).flush1)|
    ensures
      var (t, places) := BatchPlace(sp, cfg, datas, pos, ladders);
      OnlyReused(sp, t) && forall i :: 0 <= i < |pos| ==> places[i].Some?
  {
    var size := |datas[pos[0]]|;
    var (a, offs) := RepeatAlloc(sp.alloc, size, |pos|);
    RepeatTakesFree(sp.alloc, size, |pos|);
    RepeatConserves(sp, rest, size, |pos|);
    RepeatLeavesFree(sp.alloc, size, |pos|);
    TailAdmissible(sp.alloc, a, datas, pos, |offs|);
    var u := sp.(alloc := a);
    LaddersReuse(u, rest + multiset(offs), datas, pos[|offs|..], cfg.grace, ladders);
    AllSome(offs, LadderEach(u, datas, pos[|offs|..], cfg.grace, ladders).1);
  }

  lemma AllSome(offs: seq<nat>, rests: seq<Option<nat>>)
    requires forall i :: 0 <= i < |rests| ==> rests[i].Some?
    ensures forall i :: 0 <= i < |offs| + |rests| ==> (Somes(offs) + rests)[i].Some?
  {
  }

  lemma TailAdmissible(a: AllocState, b: AllocState, datas: seq<seq<byte>>, pos: seq<nat>, n: nat)
    requires a.initialized && SameGeometry(a, b) && n <= |pos| && InRange(pos, |datas|)
    requires forall i :: 0 <= i < |pos| ==> Admissible(a, |datas[pos[i]]|)
    ensures InRange(pos[n..], |datas|) && forall i :: 0 <= i < |pos[n..]| ==> Admissible(b, |datas[pos[n..][i]]|)
  {
    forall i | 0 <= i < |pos[n..]| ensures Admissible(b, |datas[pos[n..][i]]|) { assert pos[n..][i] == pos[n + i]; }
  }

  lemma {:induction false} RepeatLeavesFree(a: AllocState, size: nat, count: nat)
    requires SlotAllocation.Wf(a) && a.initialized && Admissible(a, size) && size < U32
    ensures
      var (t, offs) := RepeatAlloc(a, size, count);
      SlotAllocation.Wf(t) && |offs| <= FreeSlots(a) && FreeSlots(t) == FreeSlots(a) - |offs|
    decreases count
  {
    if count > 0 {
      AllocCorrect(a, size);
      var (t, off) := AllocSpec(a, size);
      if off.Some? { RepeatLeavesFree(t, size, count - 1); }
    }
  }

  /** So does `BatchPut`: with slots that are free, or old enough at the first ladder, for all its new items,
      it evicts nothing, tells Meta of no removal and cuts no grace period short. */
  lemma BatchReusesOldSlots(w: World, cfg: Config, keys: seq<Key>, datas: seq<seq<byte>>, env: BatchEnv)
    requires Owned(w) && w.space.alloc.initialized && SizesOk(datas) && |keys| == |datas|
    requires
      var (pos, n) := (Needed(w.space.index, keys, |keys|), FreeSlots(w.space.alloc));
      && |pos| < U32 && InRange(pos, |datas|)
      && (forall i :: 0 <= i < |pos| ==> Admissible(w.space.alloc, |datas[pos[i]]|))
      && (n < |pos| ==>
            var now := env.ladders(pos[n]).flush1;
            now < U64 && EnqueuedBy(w, now) && |pos| <= n + OldCount(w.space.queue.entries, cfg.grace, now))
    ensures
      var (v, rs) := BatchPutOp(w, cfg, keys, datas, env);
      && v.space.queue.forced == w.space.queue.forced && v.space.link.unannounced == w.space.link.unannounced
      && (forall i :: 0 <= i < |rs| ==> rs[i].status != NoSpace)
      && (forall k :: k in w.space.index.recs ==> k in v.space.index.recs)
  {
    var pos, n := Needed(w.space.index, keys, |keys|), FreeSlots(w.space.alloc);
    TouchAllRecords(w.space.index, keys, env.lookup);
    if pos != [] {
      TouchAllConserves(w.space, w.inflight + w.leaked, keys, env.lookup);
      var u := w.(space := w.space.(index := TouchAll(w.space.index, keys, env.lookup)));
      if n < |pos| { OldAreDue(w.space.queue.entries, cfg.grace, env.ladders(pos[n]).flush1); }
      PlacedThenLadders(u.space, u.inflight + u.leaked, cfg, datas, pos, env.ladders);
      PutNewLeavesOthers(u, cfg, keys, datas, pos, env);
    }
  }

  lemma PutNewLeavesOthers(u: World, cfg: Config, keys: seq<Key>, datas: seq<seq<byte>>, pos: seq<nat>, env: BatchEnv)
    requires MetaIndex.Wf(u.space.index) && |keys| == |datas| && pos != [] && InRange(pos, |keys|)
    requires
      var (t, places) := BatchPlace(u.space, cfg, datas, pos, env.ladders);
      OnlyReused(u.space, t) && forall i :: 0 <= i < |pos| ==> places[i].Some?
    ensures
      var (v, rs) := PutNew(u, cfg, keys, datas, pos, env);
      && v.space.queue.forced == u.space.queue.forced && v.space.link.unannounced == u.space.link.unannounced
      && (forall i :: 0 <= i < |rs| ==> rs[i].status != NoSpace)
      && (forall k :: k in u.space.index.recs ==> k in v.space.index.recs)
  {
    var (t, places) := BatchPlace(u.space, cfg, datas, pos, env.ladders);
    var items := Items(pos, places);
    ItemsInRange(pos, places, |keys|);
    var h := u.(space := t, inflight := u.inflight + multiset(ItemOffsets(items)));
    StoringLeavesOthers(h, cfg, keys, datas, items, env);
    forall i | 0 <= i < |keys| ensures ResultAt(pos, places, t.alloc.slotSize, i).status == Ok {
      PlacedIsOk(pos, places, t.alloc.slotSize, i);
    }
  }

  lemma {:induction false} PlacedIsOk(pos: seq<nat>, places: seq<Option<nat>>, slot: nat, i: nat)
    requires |pos| == |places| && forall j :: 0 <= j < |pos| ==> places[j].Some?
    ensures ResultAt(pos, places, slot, i).status == Ok
    decreases |pos|
  {
    if pos != [] && pos[0] != i { PlacedIsOk(pos[1..], places[1..], slot, i); }
  }

  lemma StoringLeavesOthers(h: World, cfg: Config, keys: seq<Key>, datas: seq<seq<byte>>, items: seq<Item>,
                            env: BatchEnv)
    requires |keys| == |datas| && ItemsIn(items, |keys|) && MetaIndex.Wf(h.space.index)
    ensures
      var (v, s) := BatchStore(h, cfg, keys, datas, items, env);
      && v.space.queue == h.space.queue && v.space.link.unannounced == h.space.link.unannounced
      && s != NoSpace && (forall k :: k in h.space.index.recs ==> k in v.space.index.recs)
  {
    var d := h.(disk := WriteEach(h.disk, items, datas, env.writes).0);
    IndexEachShape(d, keys, datas, h.space.alloc.slotSize, env.commit, items);
    WritesNeverFull(h.disk, items, datas, env.writes);
  }

  lemma {:induction false} WritesNeverFull(d: Disk, items: seq<Item>, datas: seq<seq<byte>>,
                                           writes: nat -> WriteOutcome)
    requires ItemsIn(items, |datas|)
    ensures WriteEach(d, items, datas, writes).1 != NoSpace
    decreases |items|
  {
    if items != [] { WritesNeverFull(d, items[..|items| - 1], datas, writes); }
  }

  // ---------- the later levels: the coldest keys, and no more of them than needed ----------

  /** What forced eviction queues, in order of time: nothing, or first a slot at the time of its first
      round. */
  ghost predicate Queues(sp: Space, t: Space, n: nat, lo: nat, hi: nat) {
    && |t.queue.entries| == |sp.queue.entries| + n && t.queue.forced == sp.queue.forced
    && (forall i :: 0 <= i < |sp.queue.entries| ==> t.queue.entries[i] == sp.queue.entries[i])
    && (forall i :: |sp.queue.entries| <= i < |t.queue.entries| ==> lo <= t.queue.entries[i].enqueuedAt <= hi)
    && (n > 0 ==> t.queue.entries[|sp.queue.entries|].enqueuedAt == lo)
  }

  lemma RoundQueuesAt(sp: Space, needed: nat, total: nat, r: Round)
    requires MetaIndex.Wf(sp.index)
    ensures
      var (t, sum, more) := ForceRound(sp, needed, total, r);
      && |t.queue.entries| >= |sp.queue.entries|
      && Queues(sp, t, |t.queue.entries| - |sp.queue.entries|, r.now, r.now)
      && (!more ==> t.queue.entries == sp.queue.entries) && (more ==> t.queue.entries != sp.queue.entries)
  {
    if total < needed {
      var n := Victims(sp.index, needed - total).0;
      EvictNShape(sp.(link := SyncRemoveSpec(sp.link, KeysOf(Coldest(sp.index, n)), r.rpc).0), n, r.now);
    }
  }

  lemma {:induction false} ForceRoundsQueueAt(sp: Space, needed: nat, total: nat, rounds: seq<Round>, lo: nat, hi: nat)
    requires MetaIndex.Wf(sp.index) && RoundsTimed(rounds, lo, hi)
    ensures
      var t := ForceRounds(sp, needed, total, rounds).0;
      && |t.queue.entries| >= |sp.queue.entries|
      && Queues(sp, t, |t.queue.entries| - |sp.queue.entries|, if rounds == [] then lo else rounds[0].now, hi)
    decreases |rounds|
  {
    if rounds != [] {
      RoundsOrder(rounds, lo, hi);
      RoundQueuesAt(sp, needed, total, rounds[0]);
      RoundsOrder(rounds[1..], rounds[0].now, hi);
      var (t, sum, more) := ForceRound(sp, needed, total, rounds[0]);
      if more { ForceRoundsQueueAt(t, needed, sum, rounds[1..], rounds[0].now, hi); }
    }
  }

  /** With no entry old enough and no free slot the first level changes nothing. */
  lemma FirstLevelMisses(sp: Space, rest: multiset<nat>, size: nat, grace: nat, env: Ladder)
    requires Conserved(sp, rest) && size < U32 && Admissible(sp.alloc, size) && Full(sp.alloc)
    requires Due(sp.queue.entries, grace, env.flush1) == []
    ensures Level1(sp, size, grace, env) == (sp, None)
  {
    CompactionMembers(sp.queue.entries, grace, env.flush1);
    NothingDue(sp.queue.entries, grace, env.flush1);
    assert FreeAll(sp.alloc, OffsetsOf([])) == sp.alloc;
    AllocateConserves(sp, rest, size);
    AllocateSucceedsIff(sp, size);
  }

  /** After forced eviction has led to `t`: the second flush gives a slot if an entry is old enough by then,
      and otherwise everything is flushed by force. */
  lemma LaterLevels(t: Space, rest: multiset<nat>, size: nat, grace: nat, flush2: nat, u: Space)
    requires Conserved(t, rest) && size < U32 && Admissible(t.alloc, size) && Full(t.alloc)
    requires
      var r2 := Allocate(FlushExpiredSpec(t, grace, flush2), size);
      u == if r2.1.Some? then r2.0 else Level3(r2.0, size).0
    ensures u.index == t.index && u.link == t.link
    ensures Due(t.queue.entries, grace, flush2) != [] ==>
              u.queue == t.queue.(entries := Kept(t.queue.entries, grace, flush2))
    ensures Due(t.queue.entries, grace, flush2) == [] ==> u.queue == QueueState([], t.queue.forced + 1)
  {
    var f := FlushExpiredSpec(t, grace, flush2);
    FlushExpiredConserves(t, rest, grace, flush2);
    AllocateConserves(f, rest, size);
    AllocateSucceedsIff(f, size);
  }

  /** What a descent of the ladder from `sp` to `t` does to keys and queue when it evicts `n` keys. */
  ghost predicate EvictsAndFlushes(sp: Space, t: Space, n: nat, grace: nat, since: nat, flush2: nat) {
    var oldEnough := (exists e :: e in sp.queue.entries && flush2 - e.enqueuedAt >= grace)
                     || (n > 0 && flush2 - since >= grace);
    && n <= |sp.index.lru| && t.index.lru == sp.index.lru[..|sp.index.lru| - n]
    && t.index.recs == Outside(sp.index.recs, sp.index.lru, |sp.index.lru| - n)
    && t.queue.forced == sp.queue.forced + (if oldEnough then 0 else 1)
    && (forall e :: e in t.queue.entries ==> flush2 < e.enqueuedAt + grace)
  }

  lemma LadderEvictsTarget(sp: Space, rest: multiset<nat>, size: nat, grace: nat, env: Ladder, lo: nat, n: nat)
    requires Conserved(sp, rest) && size < U32 && Admissible(sp.alloc, size) && Full(sp.alloc)
    requires LadderTimed(env, lo, env.flush2) && env.flush2 < U64
    requires forall e :: e in sp.queue.entries ==> e.enqueuedAt <= env.flush1 < e.enqueuedAt + grace
    requires
      var p := Prefix(Coldest(sp.index, |sp.index.lru|), sp.link.connected, EvictTarget(sp.alloc, size), env.rounds);
      n == |p| && SizeSum(p) < U32
    ensures EvictsAndFlushes(sp, LadderSpec(sp, size, grace, env).0, n, grace, env.rounds[0].now, env.flush2)
  {
    RoundsOrder(env.rounds, env.flush1, env.flush2);
    FirstLevelMissesYoung(sp, rest, size, grace, env);
    EvictedExactly(sp, rest, EvictTarget(sp.alloc, size), env.rounds, env.flush1, env.flush2);
    var t := ForceEvictSpec(sp, EvictTarget(sp.alloc, size), env.rounds).0;
    LaterLevels(t, rest, size, grace, env.flush2, LadderSpec(sp, size, grace, env).0);
    OldAfterEviction(sp, t, grace, env.rounds[0].now, env.flush2);
  }

  /** What the forced eviction leaves to the levels after it. */
  lemma EvictedExactly(sp: Space, rest: multiset<nat>, target: nat, rounds: seq<Round>, lo: nat, hi: nat)
    requires Conserved(sp, rest) && |rounds| == MAX_ROUNDS && RoundsTimed(rounds, lo, hi)
    requires SizeSum(Prefix(Coldest(sp.index, |sp.index.lru|), sp.link.connected, target, rounds)) < U32
    ensures
      var (t, n) := (ForceEvictSpec(sp, target, rounds).0,
                     |Prefix(Coldest(sp.index, |sp.index.lru|), sp.link.connected, target, rounds)|);
      && Conserved(t, rest) && t.alloc == sp.alloc && n <= |sp.index.lru|
      && t.index.lru == sp.index.lru[..|sp.index.lru| - n]
      && t.index.recs == Outside(sp.index.recs, sp.index.lru, |sp.index.lru| - n)
      && Queues(sp, t, n, rounds[0].now, hi)
  {
    var t := ForceEvictSpec(sp, target, rounds).0;
    ForceEvictExactIff(sp, target, rounds);
    ForceRoundsConserves(sp, rest, target, 0, rounds);
    ForceRoundsQueueAt(sp, target, 0, rounds, lo, hi);
    RoundQueues(sp, |Prefix(Coldest(sp.index, |sp.index.lru|), sp.link.connected, target, rounds)|, t);
  }

  lemma FirstLevelMissesYoung(sp: Space, rest: multiset<nat>, size: nat, grace: nat, env: Ladder)
    requires Conserved(sp, rest) && size < U32 && Admissible(sp.alloc, size) && Full(sp.alloc) && env.flush1 < U64
    requires forall e :: e in sp.queue.entries ==> e.enqueuedAt <= env.flush1 < e.enqueuedAt + grace
    ensures Level1(sp, size, grace, env) == (sp, None)
  {
    forall e | e in sp.queue.entries ensures !Expired(e, grace, env.flush1) {
      SmallModulo(env.flush1 - e.enqueuedAt);
    }
    NothingDue(sp.queue.entries, grace, env.flush1);
    FirstLevelMisses(sp, rest, size, grace, env);
  }

  /** Among the entries after a forced eviction one is old enough exactly if one was before it, or the first
      one it queued is. */
  lemma OldAfterEviction(sp: Space, t: Space, grace: nat, since: nat, now: nat)
    requires |t.queue.entries| >= |sp.queue.entries| && now < U64
    requires Queues(sp, t, |t.queue.entries| - |sp.queue.entries|, since, now)
    requires forall e :: e in sp.queue.entries ==> e.enqueuedAt <= now
    ensures Due(t.queue.entries, grace, now) != []
      <==> (exists e :: e in sp.queue.entries && now - e.enqueuedAt >= grace)
           || (|t.queue.entries| > |sp.queue.entries| && now - since >= grace)
    ensures forall e :: e in Kept(t.queue.entries, grace, now) ==> now < e.enqueuedAt + grace
  {
    var (es, old0) := (t.queue.entries, |sp.queue.entries|);
    forall e | e in es ensures e.enqueuedAt <= now {
      var i :| 0 <= i < |es| && es[i] == e;
      if i < old0 { assert sp.queue.entries[i] in sp.queue.entries; }
    }
    WaitedOut(es, grace, now);
    var due := Due(es, grace, now);
    if e :| e in sp.queue.entries && now - e.enqueuedAt >= grace {
      var i :| 0 <= i < old0 && sp.queue.entries[i] == e;
      assert es[i] in es;
    }
    if |es| > old0 { assert es[old0] in es; }
    if due != [] {
      assert due[0] in due;
      var i :| 0 <= i < |es| && es[i] == due[0];
      if i < old0 { assert sp.queue.entries[i] in sp.queue.entries; }
    }
  }

  /** When there is no free slot and no waiting one is old enough, `Put` evicts exactly the shortest run of
      coldest keys that covers the larger of its size and a twentieth of the capacity, cut short only
      by 64 keys a round, an empty index or a failing Meta; and it flushes by force only if no entry,
      old or new, is old enough at the second flush either. */
  lemma PutEvictsExactly(w: World, cfg: Config, key: Key, data: seq<byte>, env: PutEnv, lo: nat)
    requires Owned(w) && |data| < U32 && Admissible(w.space.alloc, |data|) && Full(w.space.alloc)
    requires key !in w.space.index.recs
    requires LadderTimed(env.ladder, lo, env.ladder.flush2) && env.ladder.flush2 < U64
    requires forall e :: e in w.space.queue.entries ==>
               e.enqueuedAt <= env.ladder.flush1 < e.enqueuedAt + cfg.grace
    requires
      var (share, cold) := ((w.space.alloc.totalBytes / 20) % U32, Coldest(w.space.index, |w.space.index.lru|));
      SizeSum(Prefix(cold, w.space.link.connected, if |data| > share then |data| else share, env.ladder.rounds)) < U32
    ensures
      var (share, cold) := ((w.space.alloc.totalBytes / 20) % U32, Coldest(w.space.index, |w.space.index.lru|));
      var n := |Prefix(cold, w.space.link.connected, if |data| > share then |data| else share, env.ladder.rounds)|;
      var (v, lru, flush2) := (PutOp(w, cfg, key, data, env).0, w.space.index.lru, env.ladder.flush2);
      var oldEnough := (exists e :: e in w.space.queue.entries && flush2 - e.enqueuedAt >= cfg.grace)
                       || (n > 0 && flush2 - env.ladder.rounds[0].now >= cfg.grace);
      && n <= |lru|
      && (forall j :: j != key ==> (j in v.space.index.recs <==> j in w.space.index.recs && j !in lru[|lru| - n..]))
      && v.space.queue.forced == w.space.queue.forced + (if oldEnough then 0 else 1)
      && (forall e :: e in v.space.queue.entries ==> flush2 < e.enqueuedAt + cfg.grace)
  {
    var (sp, rest, share) := (w.space, w.inflight + w.leaked, (w.space.alloc.totalBytes / 20) % U32);
    assert EvictTarget(sp.alloc, |data|) == if |data| > share then |data| else share;
    AllocateConserves(sp, rest, |data|);
    AllocateSucceedsIff(sp, |data|);
    var p := Prefix(Coldest(sp.index, |sp.index.lru|), sp.link.connected, EvictTarget(sp.alloc, |data|),
                    env.ladder.rounds);
    LadderEvictsTarget(sp, rest, |data|, cfg.grace, env.ladder, lo, |p|);
    PutLeavesOthers(w, cfg, key, data, env);
  }

  /** A put that ends without a slot, be it that its size can never fit, has flushed the whole queue by
      force on the way. */
  lemma FailedPutFlushesAll(w: World, cfg: Config, key: Key, data: seq<byte>, env: PutEnv)
    requires Owned(w) && |data| < U32 && PutOp(w, cfg, key, data, env).1.status == NoSpace
    ensures
      var v := PutOp(w, cfg, key, data, env).0;
      v.space.queue.entries == [] && v.space.queue.forced == w.space.queue.forced + 1
  {
    AllocateConserves(w.space, w.inflight + w.leaked, |data|);
    LadderFailsEmpty(w.space, |data|, cfg.grace, env.ladder);
    PutLeavesOthers(w, cfg, key, data, env);
  }

  lemma LadderFailsEmpty(sp: Space, size: nat, grace: nat, env: Ladder)
    requires MetaIndex.Wf(sp.index) && LadderSpec(sp, size, grace, env).1.None?
    ensures LadderSpec(sp, size, grace, env).0.queue == QueueState([], sp.queue.forced + 1)
  {
    var r1 := Level1(sp, size, grace, env);
    ForceRoundsForced(r1.0, EvictTarget(r1.0.alloc, size), 0, env.rounds);
    assert Level2(r1.0, size, grace, env).0.queue.forced == sp.queue.forced;
  }

  lemma {:induction false} ForceRoundsForced(sp: Space, needed: nat, total: nat, rounds: seq<Round>)
    requires MetaIndex.Wf(sp.index)
    ensures ForceRounds(sp, needed, total, rounds).0.queue.forced == sp.queue.forced
    decreases |rounds|
  {
    if rounds != [] {
      RoundQueuesAt(sp, needed, total, rounds[0]);
      var (t, sum, more) := ForceRound(sp, needed, total, rounds[0]);
      if more { ForceRoundsForced(t, needed, sum, rounds[1..]); }
    }
  }
}
