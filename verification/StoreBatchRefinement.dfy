/** With room enough and successful writes, `BatchPut` is one `Put` after another. */
module StoreBatchRefinement {
  import opened Base
  import opened SlotAllocation
  import opened MetaIndex
  import PendingQueue
  import opened MetaTable
  import opened MetaLink
  import opened StoreSpace
  import opened StoreOps
  import opened StoreSteps
  import opened StoreBatches
  import opened StoreHistory
  import opened StoreBatchLaws

  /** The first `n` puts, one after another. */
  ghost function PutEach(w: World, cfg: Config, keys: seq<Key>, datas: seq<seq<byte>>, envs: nat -> PutEnv,
                         n: nat): (World, seq<PutResult>)
    requires n <= |keys| == |datas|
  {
    if n == 0 then (w, [])
    else
      var (u, rs) := PutEach(w, cfg, keys, datas, envs, n - 1);
      if !MetaIndex.Wf(u.space.index) then (u, rs)
      else
        var (v, r) := PutOp(u, cfg, keys[n - 1], datas[n - 1], envs(n - 1));
        (v, rs + [r])
  }

  // ---------- a batch allocation, one longer ----------

  lemma {:induction false} RepeatOneMore(a: AllocState, size: nat, n: nat)
    requires |RepeatAlloc(a, size, n + 1).1| == n + 1
    ensures
      var (t, offs) := RepeatAlloc(a, size, n);
      var (u, more) := RepeatAlloc(a, size, n + 1);
      |offs| == n && more[..n] == offs && AllocSpec(t, size) == (u, Some(more[n]))
    decreases n
  {
    if n > 0 {
      RepeatOneMore(AllocSpec(a, size).0, size, n - 1);
    } else {
      assert RepeatAlloc(AllocSpec(a, size).0, size, 0).1 == [];
    }
  }

  lemma {:induction false} RepeatPrefix(a: AllocState, size: nat, n: nat, m: nat)
    requires n <= m && |RepeatAlloc(a, size, m).1| == m
    ensures |RepeatAlloc(a, size, n).1| == n && RepeatAlloc(a, size, m).1[..n] == RepeatAlloc(a, size, n).1
    decreases m
  {
    if n < m {
      RepeatOneMore(a, size, m - 1);
      RepeatPrefix(a, size, n, m - 1);
    } else {
      assert RepeatAlloc(a, size, m).1[..m] == RepeatAlloc(a, size, m).1;
    }
  }

  // ---------- the conditions ----------

  /** New, distinct keys, none empty-handed, every size admissible, and room for all. */
  ghost predicate Fitting(w: World, keys: seq<Key>, datas: seq<seq<byte>>) {
    && 0 < |keys| == |datas| < U32 && SizesOk(datas) && datas[0] != []
    && Admissible(w.space.alloc, |datas[0]|) && SlotAllocation.Wf(w.space.alloc)
    && |keys| <= Room(w.space.alloc, |datas[0]|)
    && (forall i :: 0 <= i < |keys| ==> keys[i] !in w.space.index.recs && datas[i] != [])
    && (forall i :: 0 <= i < |keys| ==> Admissible(LazyInit(w.space.alloc, |datas[0]|), |datas[i]|))
    && (forall i, j :: 0 <= i < j < |keys| ==> keys[i] != keys[j])
  }

  ghost predicate SmoothPuts(envs: nat -> PutEnv, commit: nat, n: nat) {
    forall i :: 0 <= i < n ==> envs(i).write == Written && envs(i).commit == commit
  }

  ghost function Offs(w: World, datas: seq<seq<byte>>, n: nat): seq<nat>
    requires datas != []
  {
    RepeatAlloc(w.space.alloc, |datas[0]|, n).1
  }

  ghost function ItemList(w: World, datas: seq<seq<byte>>, n: nat): seq<Item>
    requires datas != []
  {
    var offs := Offs(w, datas, n);
    seq(|offs|, i requires 0 <= i < |offs| => Item(i, offs[i]))
  }

  /** The store after the first `n` items of the batch. */
  ghost predicate Midway(w: World, keys: seq<Key>, datas: seq<seq<byte>>, writes: nat -> WriteOutcome, commit: nat,
                         n: nat, u: World)
    requires 0 < |keys| == |datas| && n <= |keys|
  {
    var items := ItemList(w, datas, n);
    && |items| == n && ItemsIn(items, |keys|)
    && u.space.alloc == RepeatAlloc(w.space.alloc, |datas[0]|, n).0
    && u.space.queue == w.space.queue && u.inflight == w.inflight
    && u.disk == WriteEach(w.disk, items, datas, writes).0
    && SameRecords(u, IndexEach(w, keys, datas, SlotFor(w, datas), commit, items))
  }

  ghost predicate MidwayReplies(w: World, datas: seq<seq<byte>>, n: nat, rs: seq<PutResult>)
    requires datas != []
  {
    && |rs| == n == |Offs(w, datas, n)|
    && forall i :: 0 <= i < n ==> rs[i] == PutResult(Ok, Offs(w, datas, n)[i], SlotFor(w, datas))
  }

  ghost function SlotFor(w: World, datas: seq<seq<byte>>): nat
    requires datas != []
  {
    if w.space.alloc.initialized then w.space.alloc.slotSize else |datas[0]|
  }

  /** The same index, in the same order, with the same bytes behind it. */
  ghost predicate SameRecords(u: World, v: World) {
    u.space.index == v.space.index && u.leaked == v.leaked && u.written == v.written
  }

  // ---------- step by step ----------

  lemma ItemListMore(w: World, datas: seq<seq<byte>>, n: nat)
    requires datas != [] && |RepeatAlloc(w.space.alloc, |datas[0]|, n + 1).1| == n + 1
    ensures
      var items := ItemList(w, datas, n + 1);
      |items| == n + 1 && items[..n] == ItemList(w, datas, n) && items[n] == Item(n, Offs(w, datas, n + 1)[n])
  {
    RepeatOneMore(w.space.alloc, |datas[0]|, n);
  }

  /** What the batch allocation gives at each length. */
  lemma AllocatedAt(w: World, keys: seq<Key>, datas: seq<seq<byte>>, n: nat)
    requires Fitting(w, keys, datas) && n < |keys|
    ensures
      var (t, offs) := RepeatAlloc(w.space.alloc, |datas[0]|, n);
      var (u, more) := RepeatAlloc(w.space.alloc, |datas[0]|, n + 1);
      && |offs| == n && |more| == n + 1 && more[..n] == offs
      && AllocSpec(t, |datas[n]|) == (u, Some(more[n])) && u.slotSize == SlotFor(w, datas)
  {
    var size := |datas[0]|;
    RepeatTakesRoom(w.space.alloc, size, |keys|);
    RepeatPrefix(w.space.alloc, size, n + 1, |keys|);
    RepeatOneMore(w.space.alloc, size, n);
    RepeatTakesRoom(w.space.alloc, size, n + 1);
    if n > 0 { AnySize(w, keys, datas, n); }
  }

  /** Past the first, the sizes of the others do not matter as long as they are admissible. */
  lemma AnySize(w: World, keys: seq<Key>, datas: seq<seq<byte>>, n: nat)
    requires Fitting(w, keys, datas) && 0 < n < |keys|
    ensures
      var t := RepeatAlloc(w.space.alloc, |datas[0]|, n).0;
      AllocSpec(t, |datas[n]|) == AllocSpec(t, |datas[0]|)
  {
    var l := LazyInit(w.space.alloc, |datas[0]|);
    assert RepeatAlloc(w.space.alloc, |datas[0]|, n) == RepeatAlloc(l, |datas[0]|, n);
    RepeatTakesFree(l, |datas[0]|, n);
  }

  /** One `Put` of a new key that finds a slot at once and is written. */
  lemma PutAtOnce(u: World, cfg: Config, key: Key, data: seq<byte>, env: PutEnv, a: AllocState, off: nat)
    requires MetaIndex.Wf(u.space.index) && !Committed(u.space.index, key) && data != [] && env.write == Written
    requires AllocSpec(u.space.alloc, |data|) == (a, Some(off))
    ensures
      var (v, r) := PutOp(u, cfg, key, data, env);
      var rec := Record(key, off, |data|, a.slotSize, 1, env.commit);
      && v.space.alloc == a && v.space.queue == u.space.queue && v.inflight == u.inflight
      && v.disk == PWrite(u.disk, off, data) && SameRecords(v, IndexRecord(u, rec, data))
      && v.space.link == SyncCommitSpec(u.space.link, cfg.storeId, [rec], env.rpc1, env.rpc2).0
      && r == PutResult(Ok, off, a.slotSize)
  {
    assert u.inflight + multiset{off} - multiset{off} == u.inflight;
  }

  lemma StillSame(u: World, v: World, r: Record, data: seq<byte>)
    requires SameRecords(u, v)
    ensures SameRecords(IndexRecord(u, r, data), IndexRecord(v, r, data))
  {
  }

  /** The batch, one item longer. */
  lemma BatchOneMore(w: World, keys: seq<Key>, datas: seq<seq<byte>>, writes: nat -> WriteOutcome, commit: nat, n: nat)
    requires Fitting(w, keys, datas) && n < |keys| && writes(n) == Written
    requires |ItemList(w, datas, n)| == n && |Offs(w, datas, n + 1)| == n + 1
    ensures
      var (items, slot, off) := (ItemList(w, datas, n + 1), SlotFor(w, datas), Offs(w, datas, n + 1)[n]);
      var rec := Record(keys[n], off, |datas[n]|, slot, 1, commit);
      && ItemsIn(items, |keys|) && ItemsIn(ItemList(w, datas, n), |keys|)
      && IndexEach(w, keys, datas, slot, commit, items)
        == IndexRecord(IndexEach(w, keys, datas, slot, commit, ItemList(w, datas, n)), rec, datas[n])
      && WriteEach(w.disk, items, datas, writes).0
        == PWrite(WriteEach(w.disk, ItemList(w, datas, n), datas, writes).0, off, datas[n])
  {
    AllocatedAt(w, keys, datas, n);
    ItemListMore(w, datas, n);
  }

  lemma NewToIndex(w: World, keys: seq<Key>, datas: seq<seq<byte>>, commit: nat, n: nat, v: World)
    requires Fitting(w, keys, datas) && MetaIndex.Wf(w.space.index) && n < |keys| && |ItemList(w, datas, n)| == n
    requires ItemsIn(ItemList(w, datas, n), |keys|)
      && v == IndexEach(w, keys, datas, SlotFor(w, datas), commit, ItemList(w, datas, n))
    ensures MetaIndex.Wf(v.space.index) && keys[n] !in v.space.index.recs
  {
    IndexEachShape(w, keys, datas, SlotFor(w, datas), commit, ItemList(w, datas, n));
  }

  /** After `n` items the next key is new and the allocator gives it the batch's next slot. */
  lemma NextPut(w: World, keys: seq<Key>, datas: seq<seq<byte>>, writes: nat -> WriteOutcome, commit: nat, n: nat,
                u: World)
    requires Fitting(w, keys, datas) && MetaIndex.Wf(w.space.index) && n < |keys|
      && Midway(w, keys, datas, writes, commit, n, u)
    ensures MetaIndex.Wf(u.space.index) && !Committed(u.space.index, keys[n])
    ensures |Offs(w, datas, n + 1)| == n + 1 && Offs(w, datas, n + 1)[..n] == Offs(w, datas, n) && datas[n] != []
    ensures
      var a := RepeatAlloc(w.space.alloc, |datas[0]|, n + 1).0;
      a.slotSize == SlotFor(w, datas) && AllocSpec(u.space.alloc, |datas[n]|) == (a, Some(Offs(w, datas, n + 1)[n]))
  {
    AllocatedAt(w, keys, datas, n);
    NewToIndex(w, keys, datas, commit, n, IndexEach(w, keys, datas, SlotFor(w, datas), commit, ItemList(w, datas, n)));
  }

  /** One more `Put` takes the store from after `n` items to after `n + 1`. */
  lemma MidwayStep(w: World, cfg: Config, keys: seq<Key>, datas: seq<seq<byte>>, writes: nat -> WriteOutcome,
                   commit: nat, n: nat, u: World, env: PutEnv)
    requires Fitting(w, keys, datas) && MetaIndex.Wf(w.space.index) && n < |keys|
      && Midway(w, keys, datas, writes, commit, n, u)
    requires writes(n) == Written && env.write == Written && env.commit == commit
    ensures MetaIndex.Wf(u.space.index) && |Offs(w, datas, n + 1)| == n + 1
      && Offs(w, datas, n + 1)[..n] == Offs(w, datas, n)
    ensures
      var (v, r) := PutOp(u, cfg, keys[n], datas[n], env);
      Midway(w, keys, datas, writes, commit, n + 1, v)
        && r == PutResult(Ok, Offs(w, datas, n + 1)[n], SlotFor(w, datas))
  {
    NextPut(w, keys, datas, writes, commit, n, u);
    PutAtOnce(u, cfg, keys[n], datas[n], env, RepeatAlloc(w.space.alloc, |datas[0]|, n + 1).0,
              Offs(w, datas, n + 1)[n]);
    MidwayNext(w, keys, datas, writes, commit, n, u, PutOp(u, cfg, keys[n], datas[n], env).0);
  }

  lemma MidwayNext(w: World, keys: seq<Key>, datas: seq<seq<byte>>, writes: nat -> WriteOutcome, commit: nat, n: nat,
                   u: World, v: World)
    requires Fitting(w, keys, datas) && n < |keys| && Midway(w, keys, datas, writes, commit, n, u)
      && writes(n) == Written
    requires |Offs(w, datas, n + 1)| == n + 1
    requires
      var (off, slot) := (Offs(w, datas, n + 1)[n], SlotFor(w, datas));
      && v.space.alloc == RepeatAlloc(w.space.alloc, |datas[0]|, n + 1).0 && v.space.queue == u.space.queue
      && v.inflight == u.inflight
      && v.disk == PWrite(u.disk, off, datas[n])
      && SameRecords(v, IndexRecord(u, Record(keys[n], off, |datas[n]|, slot, 1, commit), datas[n]))
    ensures Midway(w, keys, datas, writes, commit, n + 1, v)
  {
    var (off, slot) := (Offs(w, datas, n + 1)[n], SlotFor(w, datas));
    BatchOneMore(w, keys, datas, writes, commit, n);
    StillSame(u, IndexEach(w, keys, datas, slot, commit, ItemList(w, datas, n)),
              Record(keys[n], off, |datas[n]|, slot, 1, commit), datas[n]);
  }

  lemma PutEachMore(w: World, cfg: Config, keys: seq<Key>, datas: seq<seq<byte>>, envs: nat -> PutEnv, n: nat)
    requires n < |keys| == |datas| && MetaIndex.Wf(PutEach(w, cfg, keys, datas, envs, n).0.space.index)
    ensures
      var (u, rs) := PutEach(w, cfg, keys, datas, envs, n);
      var (v, r) := PutOp(u, cfg, keys[n], datas[n], envs(n));
      PutEach(w, cfg, keys, datas, envs, n + 1) == (v, rs + [r])
  {
  }

  /** The state and the answers after the first `n` puts. */
  ghost predicate PutSoFar(w: World, keys: seq<Key>, datas: seq<seq<byte>>, writes: nat -> WriteOutcome, commit: nat,
                           n: nat, u: World, rs: seq<PutResult>)
    requires 0 < |keys| == |datas| && n <= |keys|
  {
    Midway(w, keys, datas, writes, commit, n, u) && MidwayReplies(w, datas, n, rs)
  }

  lemma PutOneMore(w: World, cfg: Config, keys: seq<Key>, datas: seq<seq<byte>>, writes: nat -> WriteOutcome,
                   commit: nat, n: nat, u: World, rs: seq<PutResult>, env: PutEnv)
    requires Fitting(w, keys, datas) && MetaIndex.Wf(w.space.index) && n < |keys|
    requires writes(n) == Written && env.write == Written && env.commit == commit
    requires PutSoFar(w, keys, datas, writes, commit, n, u, rs)
    ensures MetaIndex.Wf(u.space.index)
    ensures
      var (v, r) := PutOp(u, cfg, keys[n], datas[n], env);
      PutSoFar(w, keys, datas, writes, commit, n + 1, v, rs + [r])
  {
    MidwayStep(w, cfg, keys, datas, writes, commit, n, u, env);
    RepliesMore(w, datas, n, rs, PutOp(u, cfg, keys[n], datas[n], env).1);
  }

  /** Puts one after another. */
  lemma PutEachMidway(w: World, cfg: Config, keys: seq<Key>, datas: seq<seq<byte>>,
                                         writes: nat -> WriteOutcome, commit: nat, envs: nat -> PutEnv, n: nat)
    requires Fitting(w, keys, datas) && MetaIndex.Wf(w.space.index) && n <= |keys| && SmoothPuts(envs, commit, n)
    requires forall i :: 0 <= i < n ==> writes(i) == Written
    ensures
      var (u, rs) := PutEach(w, cfg, keys, datas, envs, n);
      PutSoFar(w, keys, datas, writes, commit, n, u, rs)
  {
    PutNone(w, keys, datas, writes, commit);
    var i, u, rs := 0, w, [];
    while i < n
      invariant i <= n && (u, rs) == PutEach(w, cfg, keys, datas, envs, i)
      invariant PutSoFar(w, keys, datas, writes, commit, i, u, rs)
    {
      PutOneMore(w, cfg, keys, datas, writes, commit, i, u, rs, envs(i));
      PutEachMore(w, cfg, keys, datas, envs, i);
      var (v, r) := PutOp(u, cfg, keys[i], datas[i], envs(i));
      i, u, rs := i + 1, v, rs + [r];
    }
  }

  lemma PutNone(w: World, keys: seq<Key>, datas: seq<seq<byte>>, writes: nat -> WriteOutcome, commit: nat)
    requires 0 < |keys| == |datas|
    ensures PutSoFar(w, keys, datas, writes, commit, 0, w, [])
  {
    assert ItemList(w, datas, 0) == [];
  }

  lemma RepliesMore(w: World, datas: seq<seq<byte>>, n: nat, rs: seq<PutResult>, r: PutResult)
    requires datas != [] && MidwayReplies(w, datas, n, rs) && |Offs(w, datas, n + 1)| == n + 1
    requires Offs(w, datas, n + 1)[..n] == Offs(w, datas, n)
      && r == PutResult(Ok, Offs(w, datas, n + 1)[n], SlotFor(w, datas))
    ensures MidwayReplies(w, datas, n + 1, rs + [r])
  {
    var offs := Offs(w, datas, n + 1);
    assert forall i :: 0 <= i < n ==> offs[i] == offs[..n][i];
  }

  // ---------- the batch ----------

  lemma {:induction false} TouchNone(s: IndexState, keys: seq<Key>, now: nat)
    requires forall i :: 0 <= i < |keys| ==> !Committed(s, keys[i])
    ensures TouchAll(s, keys, now) == s
    decreases |keys|
  {
    if keys != [] { TouchNone(s, keys[..|keys| - 1], now); }
  }

  function UpTo(n: nat): seq<nat> { seq(n, i => i) }

  lemma {:induction false} NeedAll(s: IndexState, keys: seq<Key>, n: nat)
    requires n <= |keys| && forall i :: 0 <= i < |keys| ==> !Committed(s, keys[i])
    ensures Needed(s, keys, n) == UpTo(n)
  {
    if n > 0 { NeedAll(s, keys, n - 1); }
  }

  lemma {:induction false} IndexEachSame(u: World, v: World, keys: seq<Key>, datas: seq<seq<byte>>, slot: nat,
                                         commit: nat, items: seq<Item>)
    requires |keys| == |datas| && ItemsIn(items, |keys|) && SameRecords(u, v)
    ensures SameRecords(IndexEach(u, keys, datas, slot, commit, items), IndexEach(v, keys, datas, slot, commit, items))
    decreases |items|
  {
    if items != [] {
      var n := |items| - 1;
      IndexEachSame(u, v, keys, datas, slot, commit, items[..n]);
      StillSame(IndexEach(u, keys, datas, slot, commit, items[..n]),
                IndexEach(v, keys, datas, slot, commit, items[..n]),
                RecordOf(keys, datas, slot, commit, items[n]), datas[items[n].pos]);
    }
  }

  lemma {:induction false} ResultOfSomes(pos: seq<nat>, offs: seq<nat>, slot: nat, j: nat)
    requires |pos| == |offs| && Increasing(pos) && j < |pos|
    ensures ResultAt(pos, Somes(offs), slot, pos[j]) == PutResult(Ok, offs[j], slot)
    decreases |pos|
  {
    if j > 0 {
      assert Somes(offs)[1..] == Somes(offs[1..]);
      ResultOfSomes(pos[1..], offs[1..], slot, j - 1);
    }
  }

  /** A batch of new keys goes on with every position. */
  lemma AllNewBatch(w: World, cfg: Config, keys: seq<Key>, datas: seq<seq<byte>>, env: BatchEnv)
    requires MetaIndex.Wf(w.space.index) && 0 < |keys| == |datas|
    requires forall i :: 0 <= i < |keys| ==> !Committed(w.space.index, keys[i])
    ensures BatchPutOp(w, cfg, keys, datas, env) == PutNew(w, cfg, keys, datas, UpTo(|keys|), env)
  {
    TouchNone(w.space.index, keys, env.lookup);
    NeedAll(w.space.index, keys, |keys|);
  }

  /** Writing and indexing items, all of it successful. */
  lemma StoreSucceeds(h: World, cfg: Config, keys: seq<Key>, datas: seq<seq<byte>>, items: seq<Item>, env: BatchEnv)
    requires |keys| == |datas| && ItemsIn(items, |keys|) && MetaIndex.Wf(h.space.index)
    requires forall i :: 0 <= i < |items| ==> datas[items[i].pos] != [] && env.writes(items[i].pos) == Written
    ensures
      var (v, s) := BatchStore(h, cfg, keys, datas, items, env);
      var slot := h.space.alloc.slotSize;
      && s == Ok && v.space.alloc == h.space.alloc && v.space.queue == h.space.queue
      && v.disk == WriteEach(h.disk, items, datas, env.writes).0
      && v.inflight == h.inflight - multiset(ItemOffsets(items))
      && SameRecords(v, IndexEach(h, keys, datas, slot, env.commit, items))
      && v.space.link == AsyncCommitSpec(h.space.link, cfg.storeId, RecordsOf(keys, datas, slot, env.commit, items))
  {
    AllWritten(h.disk, items, datas, env.writes);
    var h' := h.(disk := WriteEach(h.disk, items, datas, env.writes).0);
    IndexEachShape(h', keys, datas, h.space.alloc.slotSize, env.commit, items);
    IndexEachSame(h', h, keys, datas, h.space.alloc.slotSize, env.commit, items);
  }

  /** The batch itself reaches the same. */
  lemma BatchMidway(w: World, cfg: Config, keys: seq<Key>, datas: seq<seq<byte>>, env: BatchEnv)
    requires Fitting(w, keys, datas) && Owned(w) && forall i :: 0 <= i < |keys| ==> env.writes(i) == Written
    ensures
      var v := PutNew(w, cfg, keys, datas, UpTo(|keys|), env).0;
      && Midway(w, keys, datas, env.writes, env.commit, |keys|, v)
      && v.space.link == AsyncCommitSpec(w.space.link, cfg.storeId,
           RecordsOf(keys, datas, SlotFor(w, datas), env.commit, AllItems(w, keys, datas)))
  {
    var h, items, offs := RoomyHeld(w, cfg, keys, datas, UpTo(|keys|), env);
    RepeatTakesRoom(w.space.alloc, |datas[0]|, |keys|);
    ItemsOfSomes(UpTo(|keys|), offs);
    assert items == AllItems(w, keys, datas);
    StoreSucceeds(h, cfg, keys, datas, items, env);
    IndexEachSame(h, w, keys, datas, SlotFor(w, datas), env.commit, items);
    TakenAndGiven(w.inflight, ItemOffsets(items));
  }

  lemma BatchAnswers(w: World, cfg: Config, keys: seq<Key>, datas: seq<seq<byte>>, env: BatchEnv)
    requires Fitting(w, keys, datas) && Owned(w) && forall i :: 0 <= i < |keys| ==> env.writes(i) == Written
    ensures MidwayReplies(w, datas, |keys|, PutNew(w, cfg, keys, datas, UpTo(|keys|), env).1)
  {
    var h, items, offs := RoomyHeld(w, cfg, keys, datas, UpTo(|keys|), env);
    RepeatTakesRoom(w.space.alloc, |datas[0]|, |keys|);
    ItemsOfSomes(UpTo(|keys|), offs);
    AllWritten(h.disk, items, datas, env.writes);
    RepliesOfSomes(keys, offs, SlotFor(w, datas));
  }

  lemma TakenAndGiven(m: multiset<nat>, offs: seq<nat>)
    ensures m + multiset(offs) - multiset(offs) == m
  {
  }

  lemma RepliesOfSomes(keys: seq<Key>, offs: seq<nat>, slot: nat)
    requires |keys| == |offs|
    ensures forall i :: 0 <= i < |keys| ==>
              BatchResult(UpTo(|keys|), Somes(offs), slot, Ok, i) == PutResult(Ok, offs[i], slot)
  {
    var pos := UpTo(|keys|);
    forall i | 0 <= i < |keys| ensures BatchResult(pos, Somes(offs), slot, Ok, i) == PutResult(Ok, offs[i], slot) {
      ResultOfSomes(pos, offs, slot, i);
    }
  }

  ghost function AllItems(w: World, keys: seq<Key>, datas: seq<seq<byte>>): (items: seq<Item>)
    requires Fitting(w, keys, datas)
    ensures |items| == |keys| && ItemsIn(items, |keys|)
  {
    RepeatTakesRoom(w.space.alloc, |datas[0]|, |keys|);
    ItemList(w, datas, |keys|)
  }

  /** For new distinct keys with room enough and successful writes, a batch leaves the same
      allocator, file, index in the same order, and answers as one put after another. */
  lemma BatchIsOneByOne(w: World, cfg: Config, keys: seq<Key>, datas: seq<seq<byte>>, env: BatchEnv,
                        envs: nat -> PutEnv)
    requires Fitting(w, keys, datas) && Owned(w) && forall i :: 0 <= i < |keys| ==> env.writes(i) == Written
    requires SmoothPuts(envs, env.commit, |keys|)
    ensures
      var (v, rs) := BatchPutOp(w, cfg, keys, datas, env);
      var (u, ss) := PutEach(w, cfg, keys, datas, envs, |keys|);
      && v.space.alloc == u.space.alloc && v.disk == u.disk && v.space.index == u.space.index
      && v.space.queue == u.space.queue && v.written == u.written && v.leaked == u.leaked && v.inflight == u.inflight
      && rs == ss
  {
    AllNewBatch(w, cfg, keys, datas, env);
    BatchMidway(w, cfg, keys, datas, env);
    BatchAnswers(w, cfg, keys, datas, env);
    PutEachMidway(w, cfg, keys, datas, env.writes, env.commit, envs, |keys|);
  }

  // ---------- Meta ----------

  /** The records of the first `n` items, as one put after another commits them. */
  ghost function CommittedBy(w: World, keys: seq<Key>, datas: seq<seq<byte>>, commit: nat, n: nat): seq<Record>
    requires Fitting(w, keys, datas) && n <= |keys|
  {
    RecordsOf(keys, datas, SlotFor(w, datas), commit, AllItems(w, keys, datas))[..n]
  }

  ghost function CommittedAt(l: LinkState, storeId: nat, recs: seq<Record>, at: nat): LinkState {
    l.(table := CommitAll(l.table, storeId, Wire(recs), at))
  }

  lemma TakeMore<T>(s: seq<T>, n: nat)
    requires n < |s|
    ensures s[..n + 1] == s[..n] + [s[n]]
  {
  }

  lemma CommitOneMore(l: LinkState, storeId: nat, a: seq<Record>, rec: Record, at: nat, r2: Rpc)
    requires l.connected
    ensures SyncCommitSpec(CommittedAt(l, storeId, a, at), storeId, [rec], Delivered(at), r2).0
      == CommittedAt(l, storeId, a + [rec], at)
  {
    WireBoth(a, [rec]);
    CommitBoth(l.table, storeId, Wire(a), Wire([rec]), at);
  }

  lemma DrainOne(l: LinkState, storeId: nat, recs: seq<Record>, at: nat, r2: Rpc)
    requires l.connected && l.queue == [] && recs != []
    ensures DrainSpec(AsyncCommitSpec(l, storeId, recs), Delivered(at), r2) == CommittedAt(l, storeId, recs, at)
  {
    var queue := [PendingCommit(storeId, recs)];
    assert queue[..0] == [] && [] + recs == recs;
    assert Merged(queue) == recs;
  }

  /** The link `l` after the commits of the first `n` puts. */
  ghost predicate CommitsSoFar(w: World, cfg: Config, keys: seq<Key>, datas: seq<seq<byte>>, commit: nat, at: nat,
                               n: nat,
                               l: LinkState)
    requires Fitting(w, keys, datas) && n <= |keys|
  {
    l == CommittedAt(w.space.link, cfg.storeId, CommittedBy(w, keys, datas, commit, n), at)
  }

  lemma EachCommits(w: World, cfg: Config, keys: seq<Key>, datas: seq<seq<byte>>, writes: nat -> WriteOutcome,
                    commit: nat, envs: nat -> PutEnv, at: nat, n: nat)
    requires Fitting(w, keys, datas) && MetaIndex.Wf(w.space.index) && n <= |keys| && SmoothPuts(envs, commit, n)
    requires forall i :: 0 <= i < n ==> writes(i) == Written && envs(i).rpc1 == Delivered(at)
    requires w.space.link.connected
    ensures CommitsSoFar(w, cfg, keys, datas, commit, at, n, PutEach(w, cfg, keys, datas, envs, n).0.space.link)
  {
    assert CommitAll(w.space.link.table, cfg.storeId, Wire([]), at) == w.space.link.table;
    var i, u := 0, w;
    while i < n
      invariant i <= n && u == PutEach(w, cfg, keys, datas, envs, i).0
      invariant CommitsSoFar(w, cfg, keys, datas, commit, at, i, u.space.link)
    {
      PutEachMidway(w, cfg, keys, datas, writes, commit, envs, i);
      NextCommit(w, cfg, keys, datas, writes, commit, envs, at, i);
      i, u := i + 1, PutEach(w, cfg, keys, datas, envs, i + 1).0;
    }
  }

  lemma NextCommit(w: World, cfg: Config, keys: seq<Key>, datas: seq<seq<byte>>, writes: nat -> WriteOutcome,
                   commit: nat, envs: nat -> PutEnv, at: nat, n: nat)
    requires Fitting(w, keys, datas) && MetaIndex.Wf(w.space.index) && n < |keys| && w.space.link.connected
    requires envs(n).write == Written && envs(n).commit == commit && envs(n).rpc1 == Delivered(at)
    requires
      var u := PutEach(w, cfg, keys, datas, envs, n).0;
      Midway(w, keys, datas, writes, commit, n, u) && CommitsSoFar(w, cfg, keys, datas, commit, at, n, u.space.link)
    ensures
      CommitsSoFar(w, cfg, keys, datas, commit, at, n + 1, PutEach(w, cfg, keys, datas, envs, n + 1).0.space.link)
  {
    var u := PutEach(w, cfg, keys, datas, envs, n).0;
    var rec := CommitsOne(w, cfg, keys, datas, writes, commit, n, u, envs(n));
    PutEachMore(w, cfg, keys, datas, envs, n);
    TakeMore(RecordsOf(keys, datas, SlotFor(w, datas), commit, AllItems(w, keys, datas)), n);
    CommitOneMore(w.space.link, cfg.storeId, CommittedBy(w, keys, datas, commit, n), rec, at, envs(n).rpc2);
  }

  lemma CommitsOne(w: World, cfg: Config, keys: seq<Key>, datas: seq<seq<byte>>, writes: nat -> WriteOutcome,
                   commit: nat, n: nat, u: World, env: PutEnv) returns (rec: Record)
    requires Fitting(w, keys, datas) && MetaIndex.Wf(w.space.index) && n < |keys|
      && Midway(w, keys, datas, writes, commit, n, u)
    requires env.write == Written && env.commit == commit
    ensures rec == RecordsOf(keys, datas, SlotFor(w, datas), commit, AllItems(w, keys, datas))[n]
    ensures MetaIndex.Wf(u.space.index)
    ensures PutOp(u, cfg, keys[n], datas[n], env).0.space.link
      == SyncCommitSpec(u.space.link, cfg.storeId, [rec], env.rpc1, env.rpc2).0
  {
    NextPut(w, keys, datas, writes, commit, n, u);
    RepeatTakesRoom(w.space.alloc, |datas[0]|, |keys|);
    RepeatPrefix(w.space.alloc, |datas[0]|, n + 1, |keys|);
    var off := Offs(w, datas, n + 1)[n];
    assert AllItems(w, keys, datas)[n].off == off;
    PutAtOnce(u, cfg, keys[n], datas[n], env, RepeatAlloc(w.space.alloc, |datas[0]|, n + 1).0, off);
    rec := Record(keys[n], off, |datas[n]|, SlotFor(w, datas), 1, commit);
  }

  /** And once the batch's queued commit is delivered, Meta's table is the same too. */
  lemma BatchReachesMetaLater(w: World, cfg: Config, keys: seq<Key>, datas: seq<seq<byte>>, env: BatchEnv,
                              envs: nat -> PutEnv, at: nat, r2: Rpc)
    requires Fitting(w, keys, datas) && Owned(w) && forall i :: 0 <= i < |keys| ==> env.writes(i) == Written
    requires SmoothPuts(envs, env.commit, |keys|) && forall i :: 0 <= i < |keys| ==> envs(i).rpc1 == Delivered(at)
    requires w.space.link.connected && w.space.link.queue == []
    ensures
      var (v, u) := (BatchPutOp(w, cfg, keys, datas, env).0, PutEach(w, cfg, keys, datas, envs, |keys|).0);
      DrainSpec(v.space.link, Delivered(at), r2) == u.space.link
  {
    AllNewBatch(w, cfg, keys, datas, env);
    BatchMidway(w, cfg, keys, datas, env);
    EachCommits(w, cfg, keys, datas, env.writes, env.commit, envs, at, |keys|);
    var recs := RecordsOf(keys, datas, SlotFor(w, datas), env.commit, AllItems(w, keys, datas));
    assert recs[..|keys|] == recs;
    DrainOne(w.space.link, cfg.storeId, recs, at, r2);
  }

  // ---------- an item larger than the first ----------

  lemma BumpAlloc(a: AllocState, size: nat)
    requires a.initialized && a.freeStack == [] && a.nextSlot < a.totalSlots && Admissible(a, size)
    ensures AllocSpec(a, size) == (Bump(a), Some(OffsetOf(a.nextSlot, a.slotSize)))
  {
  }

  lemma BumpThree(a: AllocState, size: nat)
    requires a.initialized && a.freeStack == [] && a.nextSlot + 2 < a.totalSlots && Admissible(a, size)
    ensures RepeatAlloc(a, size, 3)
      == (Bump(Bump(Bump(a))),
          [OffsetOf(a.nextSlot, a.slotSize), OffsetOf(a.nextSlot + 1, a.slotSize),
           OffsetOf(a.nextSlot + 2, a.slotSize)])
  {
    var b, c, d := Bump(a), Bump(Bump(a)), Bump(Bump(Bump(a)));
    BumpAlloc(a, size);
    BumpAlloc(b, size);
    BumpAlloc(c, size);
    var o1, o2, o3 := OffsetOf(a.nextSlot, a.slotSize), OffsetOf(a.nextSlot + 1, a.slotSize),
        OffsetOf(a.nextSlot + 2, a.slotSize);
    assert RepeatAlloc(d, size, 0) == (d, []) && [o3] + [] == [o3];
    assert RepeatAlloc(c, size, 1) == (d, [o3]) && [o2] + [o3] == [o2, o3];
    assert RepeatAlloc(b, size, 2) == (d, [o2, o3]) && [o1] + [o2, o3] == [o1, o2, o3];
  }

  lemma ThreeSlots()
    ensures Room(Fresh(3, 0), 1) == 3 && RepeatAlloc(Fresh(3, 0), 1, 3).1 == [0, 1, 2]
      && RepeatAlloc(Fresh(3, 0), 1, 3).0.slotSize == 1
  {
    var a := LazyInit(Fresh(3, 0), 1);
    assert Quotient(1, 1) == 1 && Quotient(2, 1) == 2;
    assert OffsetOf(1, 1) == 1;
    BumpThree(a, 1);
    assert RepeatAlloc(Fresh(3, 0), 1, 3) == RepeatAlloc(a, 1, 3);
  }

  lemma WriteOne(d: Disk, items: seq<Item>, datas: seq<seq<byte>>, writes: nat -> WriteOutcome)
    requires ItemsIn(items, |datas|) && items != []
    requires datas[items[|items| - 1].pos] != [] && writes(items[|items| - 1].pos) == Written
    ensures
      var it := items[|items| - 1];
      WriteEach(d, items, datas, writes).0
        == PWrite(WriteEach(d, items[..|items| - 1], datas, writes).0, it.off, datas[it.pos])
  {
  }

  lemma ThreeWrites(datas: seq<seq<byte>>, writes: nat -> WriteOutcome)
    requires datas == [[1], [2, 2], [3]] && forall i :: 0 <= i < 3 ==> writes(i) == Written
    ensures WriteEach([], [Item(0, 0), Item(1, 1), Item(2, 2)], datas, writes).0 == [1, 2, 3]
  {
    var i1, i2, i3 := [Item(0, 0)], [Item(0, 0), Item(1, 1)], [Item(0, 0), Item(1, 1), Item(2, 2)];
    assert i3[..2] == i2 && i2[..1] == i1 && i1[..0] == [];
    WriteOne([], i1, datas, writes);
    WriteOne([], i2, datas, writes);
    WriteOne([], i3, datas, writes);
    assert PWrite([], 0, datas[0]) == [1];
    assert PWrite([1], 1, datas[1]) == [1, 2, 2];
    assert PWrite([1, 2, 2], 2, datas[2]) == [1, 2, 3];
  }

  /** An empty store of three bytes whose slot size is still open. */
  ghost predicate EmptyTiny(w: World) {
    && w.space.alloc == Fresh(3, 0) && w.space.index == EMPTY_INDEX && w.space.queue.entries == []
    && w.disk == [] && w.inflight == w.leaked == multiset{}
  }

  /** Three keys, the second with an item larger than the first's. */
  ghost predicate Oversized(keys: seq<Key>, datas: seq<seq<byte>>) {
    && |keys| == 3 && keys[0] != keys[1] && keys[0] != keys[2] && keys[1] != keys[2]
    && datas == [[1], [2, 2], [3]]
  }

  /** A batch whose second item is larger than its first, which alone is checked: the item runs
      over into the third slot, and once that is written it reads back wrong. */
  lemma OversizedItemIsCorrupted(w: World, cfg: Config, keys: seq<Key>, datas: seq<seq<byte>>, env: BatchEnv, now: nat)
    requires EmptyTiny(w) && Oversized(keys, datas) && forall i :: 0 <= i < 3 ==> env.writes(i) == Written
    ensures GetOp(BatchPutOp(w, cfg, keys, datas, env).0, keys[1], 2, true, now).1 == GetResult(Ok, [2, 3])
  {
    TinyOwned(w);
    AllNewBatch(w, cfg, keys, datas, env);
    var h, items := OversizedHeld(w, cfg, keys, datas, env);
    OversizedStored(h, cfg, keys, datas, items, env, now);
  }

  lemma OversizedStored(h: World, cfg: Config, keys: seq<Key>, datas: seq<seq<byte>>, items: seq<Item>, env: BatchEnv,
                        now: nat)
    requires Oversized(keys, datas) && items == [Item(0, 0), Item(1, 1), Item(2, 2)]
    requires forall i :: 0 <= i < 3 ==> env.writes(i) == Written
    requires h.disk == [] && h.space.index == EMPTY_INDEX && h.space.alloc.slotSize == 1
    ensures GetOp(BatchStore(h, cfg, keys, datas, items, env).0, keys[1], 2, true, now).1 == GetResult(Ok, [2, 3])
  {
    StoreSucceeds(h, cfg, keys, datas, items, env);
    ThreeWrites(datas, env.writes);
    OversizedIndexed(h, keys, datas, items, env.commit);
    OversizedRead(BatchStore(h, cfg, keys, datas, items, env).0, IndexEach(h, keys, datas, 1, env.commit, items),
                  keys[1], now);
  }

  lemma OversizedIndexed(h: World, keys: seq<Key>, datas: seq<seq<byte>>, items: seq<Item>, commit: nat)
    requires Oversized(keys, datas) && items == [Item(0, 0), Item(1, 1), Item(2, 2)] && h.space.index == EMPTY_INDEX
    ensures
      var v := IndexEach(h, keys, datas, 1, commit, items);
      Indexed(v, keys[1], 1, 2) && AllCommitted(v.space.index)
  {
    EachIndexed(h, keys, datas, 1, commit, items, 1);
    IndexEachStat(h, keys, datas, 1, commit, items);
  }

  lemma OversizedRead(v: World, x: World, k: Key, now: nat)
    requires v.disk == [1, 2, 3] && SameRecords(v, x) && Indexed(x, k, 1, 2) && AllCommitted(x.space.index)
    ensures GetOp(v, k, 2, true, now).1 == GetResult(Ok, [2, 3])
  {
    GetIndexed(v, k, 1, 2, now);
    assert v.disk[1..3] == [2, 3];
  }

  lemma GetIndexed(v: World, k: Key, off: nat, size: nat, now: nat)
    requires Indexed(v, k, off, size) && AllCommitted(v.space.index) && size > 0 && off + size <= |v.disk|
    ensures GetOp(v, k, size, true, now).1 == GetResult(Ok, v.disk[off..off + size])
  {
  }

  lemma OversizedHeld(w: World, cfg: Config, keys: seq<Key>, datas: seq<seq<byte>>, env: BatchEnv)
    returns (h: World, items: seq<Item>)
    requires EmptyTiny(w) && Oversized(keys, datas)
    ensures items == [Item(0, 0), Item(1, 1), Item(2, 2)] && MetaIndex.Wf(w.space.index)
    ensures h.disk == [] && h.space.index == EMPTY_INDEX && h.space.alloc.slotSize == 1
    ensures PutNew(w, cfg, keys, datas, UpTo(|keys|), env).0 == BatchStore(h, cfg, keys, datas, items, env).0
  {
    TinyOwned(w);
    ThreeSlots();
    var offs;
    h, items, offs := RoomyHeld(w, cfg, keys, datas, UpTo(|keys|), env);
    ItemsOfSomes(UpTo(|keys|), offs);
  }

  lemma TinyOwned(w: World)
    requires EmptyTiny(w)
    ensures Owned(w) && Admissible(w.space.alloc, 1)
  {
    FreshWf(3, 0);
    assert PendingQueue.OffsetsOf([]) == [];
  }

  lemma {:induction false} IndexEachStat(w: World, keys: seq<Key>, datas: seq<seq<byte>>, slot: nat, commit: nat,
                                         items: seq<Item>)
    requires |keys| == |datas| && ItemsIn(items, |keys|) && AllCommitted(w.space.index)
    ensures AllCommitted(IndexEach(w, keys, datas, slot, commit, items).space.index)
    decreases |items|
  {
    if items != [] { IndexEachStat(w, keys, datas, slot, commit, items[..|items| - 1]); }
  }
}
