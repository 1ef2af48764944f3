/** What sets `BatchPut` apart from `Put`: when the batch leaks slots, when its writes stay inside
    their slots, and when it runs out of space. */
module StoreBatchLaws {
  import opened Base
  import opened SlotAllocation
  import opened MetaIndex
  import opened StoreSpace
  import opened Eviction
  import opened StoreOps
  import opened StoreProgress
  import opened StoreSteps
  import opened StoreBatches

  // ---------- room for a batch ----------

  /** How many slots an allocation of `size` can still take. */
  ghost function Room(a: AllocState, size: nat): nat
    requires SlotAllocation.Wf(a)
  {
    if a.initialized then FreeSlots(a) else SlotCount(a.totalBytes, size)
  }

  lemma {:induction false} RepeatTakesFree(a: AllocState, size: nat, count: nat)
    requires a.initialized && a.nextSlot <= a.totalSlots && Admissible(a, size)
    ensures
      var (t, offs) := RepeatAlloc(a, size, count);
      |offs| == Min(count, FreeSlots(a)) && SameGeometry(a, t)
    decreases count
  {
    if count > 0 {
      var (t, off) := AllocSpec(a, size);
      if off.Some? { RepeatTakesFree(t, size, count - 1); }
    }
  }

  /** A batch allocation takes what it asks for, or all the room there is; the first request
      fixes the slot size if nothing has yet. */
  lemma RepeatTakesRoom(a: AllocState, size: nat, count: nat)
    requires SlotAllocation.Wf(a) && 0 < size < U32 && Admissible(a, size) && count > 0
    ensures
      var (t, offs) := RepeatAlloc(a, size, count);
      |offs| == Min(count, Room(a, size)) && t.slotSize == if a.initialized then a.slotSize else size
  {
    var t := LazyInit(a, size);
    assert RepeatAlloc(a, size, count) == RepeatAlloc(t, size, count);
    RepeatTakesFree(t, size, count);
  }

  /** With room enough every new position gets a slot from the batch allocation. */
  lemma AllPlaced(sp: Space, rest: multiset<nat>, cfg: Config, datas: seq<seq<byte>>, pos: seq<nat>,
                  ladders: nat -> Ladder)
    requires Conserved(sp, rest) && SizesOk(datas) && pos != [] && |pos| < U32 && InRange(pos, |datas|)
    requires datas[pos[0]] != [] && Admissible(sp.alloc, |datas[pos[0]]|) && |pos| <= Room(sp.alloc, |datas[pos[0]]|)
    ensures
      var (a, offs) := RepeatAlloc(sp.alloc, |datas[pos[0]]|, |pos|);
      |offs| == |pos| && BatchPlace(sp, cfg, datas, pos, ladders) == (sp.(alloc := a), Somes(offs))
  {
    var (a, offs) := RepeatAlloc(sp.alloc, |datas[pos[0]]|, |pos|);
    RepeatTakesRoom(sp.alloc, |datas[pos[0]]|, |pos|);
    assert pos[|offs|..] == [];
    assert Somes(offs) + [] == Somes(offs);
  }

  // ---------- what a batch leaks ----------

  /** How many items have a key that an earlier item has too. */
  ghost function Repeats(keys: seq<Key>, items: seq<Item>): nat
    requires ItemsIn(items, |keys|)
    decreases |items|
  {
    if items == [] then 0
    else
      var n := |items| - 1;
      Repeats(keys, items[..n]) + if KeyAmong(keys, items[..n], keys[items[n].pos]) then 1 else 0
  }

  lemma {:induction false} RepeatsNoneIff(keys: seq<Key>, items: seq<Item>)
    requires ItemsIn(items, |keys|)
    ensures Repeats(keys, items) == 0 <==> DistinctItems(keys, items)
    decreases |items|
  {
    if items != [] {
      var n := |items| - 1;
      RepeatsNoneIff(keys, items[..n]);
      if KeyAmong(keys, items[..n], keys[items[n].pos]) {
        var i :| 0 <= i < |items[..n]| && keys[items[..n][i].pos] == keys[items[n].pos];
        assert items[i] == items[..n][i];
      } else {
        forall i | 0 <= i < n ensures keys[items[i].pos] != keys[items[n].pos] {
          assert items[..n][i] == items[i];
        }
      }
    }
  }

  /** Indexing a batch of new keys loses one slot for each repeated key. */
  lemma {:induction false} IndexEachLeaks(w: World, keys: seq<Key>, datas: seq<seq<byte>>, slot: nat, commit: nat,
                                          items: seq<Item>)
    requires |keys| == |datas| && ItemsIn(items, |keys|) && MetaIndex.Wf(w.space.index)
    requires forall i :: 0 <= i < |items| ==> keys[items[i].pos] !in w.space.index.recs
    ensures
      var v := IndexEach(w, keys, datas, slot, commit, items);
      w.leaked <= v.leaked && |v.leaked| == |w.leaked| + Repeats(keys, items)
    decreases |items|
  {
    if items != [] {
      var n := |items| - 1;
      IndexEachLeaks(w, keys, datas, slot, commit, items[..n]);
      IndexEachShape(w, keys, datas, slot, commit, items[..n]);
      var u := IndexEach(w, keys, datas, slot, commit, items[..n]);
      LeakStep(u, RecordOf(keys, datas, slot, commit, items[n]), datas[items[n].pos]);
    }
  }

  lemma LeakStep(u: World, r: Record, data: seq<byte>)
    ensures
      var v := IndexRecord(u, r, data);
      u.leaked <= v.leaked && |v.leaked| == |u.leaked| + if r.key in u.space.index.recs then 1 else 0
  {
  }

  /** A batch whose writes all succeed leaks nothing exactly when the items it placed have
      distinct keys; each repeated key costs the store one slot for good. */
  lemma BatchLeaksIff(u: World, cfg: Config, keys: seq<Key>, datas: seq<seq<byte>>, items: seq<Item>, env: BatchEnv)
    requires |keys| == |datas| && ItemsIn(items, |keys|) && MetaIndex.Wf(u.space.index)
    requires forall i :: 0 <= i < |items| ==> keys[items[i].pos] !in u.space.index.recs
    requires WriteEach(u.disk, items, datas, env.writes).1 == Ok
    ensures
      var v := BatchStore(u, cfg, keys, datas, items, env).0;
      && |v.leaked| == |u.leaked| + Repeats(keys, items)
      && (v.leaked == u.leaked <==> DistinctItems(keys, items))
  {
    var h := u.(disk := WriteEach(u.disk, items, datas, env.writes).0);
    var slot := u.space.alloc.slotSize;
    IndexEachLeaks(h, keys, datas, slot, env.commit, items);
    RepeatsNoneIff(keys, items);
    var m := IndexEach(h, keys, datas, slot, env.commit, items).leaked;
    if |m| == |u.leaked| {
      assert m == u.leaked + (m - u.leaked);
      assert |m - u.leaked| == 0;
    }
  }

  /** The state a batch with room enough reaches before it writes. */
  lemma RoomyHeld(u: World, cfg: Config, keys: seq<Key>, datas: seq<seq<byte>>, pos: seq<nat>, env: BatchEnv)
    returns (h: World, items: seq<Item>, offs: seq<nat>)
    requires Owned(u) && SizesOk(datas) && |keys| == |datas| && pos != [] && |pos| < U32 && InRange(pos, |keys|)
    requires datas[pos[0]] != [] && Admissible(u.space.alloc, |datas[pos[0]]|)
      && |pos| <= Room(u.space.alloc, |datas[pos[0]]|)
    ensures |offs| == |pos| && offs == RepeatAlloc(u.space.alloc, |datas[pos[0]]|, |pos|).1
    ensures items == Items(pos, Somes(offs)) && ItemsIn(items, |keys|)
    ensures h == u.(space := u.space.(alloc := RepeatAlloc(u.space.alloc, |datas[pos[0]]|, |pos|).0),
                    inflight := u.inflight + multiset(ItemOffsets(items)))
    ensures PutNew(u, cfg, keys, datas, pos, env).0 == BatchStore(h, cfg, keys, datas, items, env).0
    ensures PutNew(u, cfg, keys, datas, pos, env).1
      == seq(|keys|, i requires 0 <= i < |keys| =>
           BatchResult(pos, Somes(offs), h.space.alloc.slotSize, BatchStore(h, cfg, keys, datas, items, env).1, i))
  {
    AllPlaced(u.space, u.inflight + u.leaked, cfg, datas, pos, env.ladders);
    var r := RepeatAlloc(u.space.alloc, |datas[pos[0]]|, |pos|);
    offs := r.1;
    items := Items(pos, Somes(offs));
    ItemsInRange(pos, Somes(offs), |keys|);
    h := u.(space := u.space.(alloc := r.0), inflight := u.inflight + multiset(ItemOffsets(items)));
  }

  /** With room for every new item, that is exactly when the batch's new keys are distinct. */
  lemma RoomyBatchLeaksIff(u: World, cfg: Config, keys: seq<Key>, datas: seq<seq<byte>>, pos: seq<nat>, env: BatchEnv)
    requires Owned(u) && SizesOk(datas) && |keys| == |datas| && pos != [] && |pos| < U32 && InRange(pos, |keys|)
    requires datas[pos[0]] != [] && Admissible(u.space.alloc, |datas[pos[0]]|)
      && |pos| <= Room(u.space.alloc, |datas[pos[0]]|)
    requires forall i :: 0 <= i < |pos| ==>
               && keys[pos[i]] !in u.space.index.recs && datas[pos[i]] != []
               && env.writes(pos[i]) == Written
    ensures PutNew(u, cfg, keys, datas, pos, env).0.leaked == u.leaked <==> DistinctOver(keys, pos)
  {
    var h, items, offs := RoomyHeld(u, cfg, keys, datas, pos, env);
    ItemsOfSomes(pos, offs);
    AllWritten(h.disk, items, datas, env.writes);
    BatchLeaksIff(h, cfg, keys, datas, items, env);
    DistinctOfSomes(keys, pos, offs);
  }

  /** One new key twice in a batch: a slot is lost. */
  lemma RepeatedKeyLeaks(u: World, cfg: Config, key: Key, env: BatchEnv)
    requires Owned(u) && key !in u.space.index.recs && env.writes(0) == env.writes(1) == Written
    requires u.space.alloc.initialized && Admissible(u.space.alloc, 1) && Room(u.space.alloc, 1) >= 2
    ensures PutNew(u, cfg, [key, key], [[1], [2]], [0, 1], env).0.leaked != u.leaked
  {
    var keys: seq<Key>, datas: seq<seq<byte>>, pos: seq<nat> := [key, key], [[1], [2]], [0, 1];
    RoomyBatchLeaksIff(u, cfg, keys, datas, pos, env);
    assert keys[pos[0]] == keys[pos[1]];
  }

  lemma DistinctOfSomes(keys: seq<Key>, pos: seq<nat>, offs: seq<nat>)
    requires |pos| == |offs| && InRange(pos, |keys|) && ItemsIn(Items(pos, Somes(offs)), |keys|)
    ensures DistinctItems(keys, Items(pos, Somes(offs))) <==> DistinctOver(keys, pos)
  {
    ItemsOfSomes(pos, offs);
    var items := Items(pos, Somes(offs));
    assert forall i :: 0 <= i < |pos| ==> items[i].pos == pos[i];
    if DistinctItems(keys, items) {
      forall i, j | 0 <= i < j < |pos| ensures keys[pos[i]] != keys[pos[j]] {
        assert keys[items[i].pos] != keys[items[j].pos];
      }
    }
  }

  lemma {:induction false} ItemsOfSomes(pos: seq<nat>, offs: seq<nat>)
    requires |pos| == |offs|
    ensures Items(pos, Somes(offs)) == seq(|pos|, i requires 0 <= i < |pos| => Item(pos[i], offs[i]))
    decreases |pos|
  {
    if pos != [] {
      assert Somes(offs)[1..] == Somes(offs[1..]);
      ItemsOfSomes(pos[1..], offs[1..]);
    }
  }

  lemma {:induction false} AllWritten(d: Disk, items: seq<Item>, datas: seq<seq<byte>>, writes: nat -> WriteOutcome)
    requires ItemsIn(items, |datas|)
    requires forall i :: 0 <= i < |items| ==> datas[items[i].pos] != [] && writes(items[i].pos) == Written
    ensures WriteEach(d, items, datas, writes).1 == Ok
    decreases |items|
  {
    if items != [] { AllWritten(d, items[..|items| - 1], datas, writes); }
  }

  // ---------- when a batch's writes stay inside their slots ----------

  /** Every write stays inside its slot exactly when each item that got its slot from the batch
      allocation, which checks only the first, is no larger than the slot; the others are checked
      one by one. */
  lemma WritesStayInsideIff(sp: Space, rest: multiset<nat>, cfg: Config, datas: seq<seq<byte>>, pos: seq<nat>,
                            ladders: nat -> Ladder)
    requires Conserved(sp, rest) && SizesOk(datas) && pos != [] && InRange(pos, |datas|)
    ensures
      var (t, places) := BatchPlace(sp, cfg, datas, pos, ladders);
      var offs := RepeatAlloc(sp.alloc, |datas[pos[0]]|, Low32(|pos|)).1;
      && |offs| <= |pos|
      && (ItemsFit(Items(pos, places), datas, t.alloc.slotSize)
          <==> forall j :: 0 <= j < |offs| ==> |datas[pos[j]]| <= t.alloc.slotSize)
  {
    var size := |datas[pos[0]]|;
    RepeatConserves(sp, rest, size, Low32(|pos|));
    RepeatAllocLength(sp.alloc, size, Low32(|pos|));
    var (a, offs) := RepeatAlloc(sp.alloc, size, Low32(|pos|));
    var u := sp.(alloc := a);
    EachPlacedWell(u, rest + multiset(offs), datas, pos[|offs|..], cfg.grace, ladders);
    var (t, tail) := LadderEach(u, datas, pos[|offs|..], cfg.grace, ladders);
    FitOfFront(datas, pos, offs, tail, t.alloc.slotSize);
  }

  lemma FitOfFront(datas: seq<seq<byte>>, pos: seq<nat>, offs: seq<nat>, tail: seq<Option<nat>>, slot: nat)
    requires |offs| + |tail| == |pos| && InRange(pos, |datas|) && ItemsFit(Items(pos[|offs|..], tail), datas, slot)
    ensures ItemsFit(Items(pos, Somes(offs) + tail), datas, slot)
      <==> forall j :: 0 <= j < |offs| ==> |datas[pos[j]]| <= slot
  {
    if forall j :: 0 <= j < |offs| ==> |datas[pos[j]]| <= slot {
      ItemsOfPlaced(datas, pos, offs, tail, slot);
    }
    FrontItems(pos, offs, tail);
  }

  /** The slots of the batch allocation go to the first items. */
  lemma {:induction false} FrontItems(pos: seq<nat>, offs: seq<nat>, tail: seq<Option<nat>>)
    requires |offs| + |tail| == |pos|
    ensures
      var items := Items(pos, Somes(offs) + tail);
      |offs| <= |items| && forall j :: 0 <= j < |offs| ==> items[j].pos == pos[j]
    decreases |offs|
  {
    if offs != [] {
      assert (Somes(offs) + tail)[1..] == Somes(offs[1..]) + tail;
      FrontItems(pos[1..], offs[1..], tail);
      var rest := Items(pos[1..], Somes(offs[1..]) + tail);
      assert Items(pos, Somes(offs) + tail) == [Item(pos[0], offs[0])] + rest;
      forall j | 0 < j < |offs| ensures ([Item(pos[0], offs[0])] + rest)[j].pos == pos[j] {
        assert rest[j - 1].pos == pos[1..][j - 1];
      }
    }
  }

  /** With room for all of them, exactly when no new item is larger than the slot, which the first
      one fixes if nothing has yet. */
  lemma RoomyWritesStayInsideIff(sp: Space, rest: multiset<nat>, cfg: Config, datas: seq<seq<byte>>, pos: seq<nat>,
                                 ladders: nat -> Ladder)
    requires Conserved(sp, rest) && SizesOk(datas) && pos != [] && |pos| < U32 && InRange(pos, |datas|)
    requires datas[pos[0]] != [] && Admissible(sp.alloc, |datas[pos[0]]|) && |pos| <= Room(sp.alloc, |datas[pos[0]]|)
    ensures
      var (t, places) := BatchPlace(sp, cfg, datas, pos, ladders);
      ItemsFit(Items(pos, places), datas, t.alloc.slotSize) <==> SizesFit(sp.alloc, datas, pos)
  {
    var (a, offs) := RepeatAlloc(sp.alloc, |datas[pos[0]]|, |pos|);
    AllPlaced(sp, rest, cfg, datas, pos, ladders);
    RepeatTakesRoom(sp.alloc, |datas[pos[0]]|, |pos|);
    FitOfSomes(datas, pos, offs, a.slotSize);
  }

  lemma FitOfSomes(datas: seq<seq<byte>>, pos: seq<nat>, offs: seq<nat>, slot: nat)
    requires |pos| == |offs| && InRange(pos, |datas|)
    ensures ItemsFit(Items(pos, Somes(offs)), datas, slot) <==> forall i :: 0 <= i < |pos| ==> |datas[pos[i]]| <= slot
  {
    ItemsOfSomes(pos, offs);
    var items := Items(pos, Somes(offs));
    assert forall i :: 0 <= i < |pos| ==> items[i].pos == pos[i];
    if ItemsFit(items, datas, slot) {
      forall i | 0 <= i < |pos| ensures |datas[pos[i]]| <= slot { assert items[i].pos == pos[i]; }
    }
  }

  // ---------- when a batch runs out of space ----------

  /** Every item has an admissible, non-zero size. */
  ghost predicate SizesAdmissible(a: AllocState, datas: seq<seq<byte>>, pos: seq<nat>) {
    InRange(pos, |datas|) && forall i :: 0 <= i < |pos| ==> datas[pos[i]] != [] && Admissible(a, |datas[pos[i]]|)
  }

  /** Every item's first eviction request is answered, or Meta is not connected and not asked. */
  ghost predicate MetaAnswers(connected: bool, ladders: nat -> Ladder, pos: seq<nat>) {
    forall i :: 0 <= i < |pos| ==> RemoveSucceeds(connected, ladders(pos[i]).rounds[0].rpc)
  }

  /** If the answer at `j` is none, what came before it and `rest` are `total` slots. */
  ghost predicate NoneMeansHeld(rest: multiset<nat>, places: seq<Option<nat>>, j: nat, total: nat) {
    j < |places| && (places[j].None? ==> |rest| + |Found(places[..j])| == total)
  }

  /** An item that goes down the ladder in vain finds every slot of the store held by what the
      batch found before it and by earlier leaks. */
  lemma {:induction false} EachFindsSlot(sp: Space, rest: multiset<nat>, datas: seq<seq<byte>>, pos: seq<nat>,
                                         grace: nat, ladders: nat -> Ladder, j: nat)
    requires Conserved(sp, rest) && sp.alloc.initialized && SizesOk(datas) && SizesAdmissible(sp.alloc, datas, pos)
    requires MetaAnswers(sp.link.connected, ladders, pos) && j < |pos|
    ensures
      var (t, places) := LadderEach(sp, datas, pos, grace, ladders);
      && NoneMeansHeld(rest, places, j, sp.alloc.totalSlots)
      && t.alloc.totalSlots == sp.alloc.totalSlots
    decreases |pos|
  {
    var (t, off) := LadderSpec(sp, |datas[pos[0]]|, grace, ladders(pos[0]));
    FirstFindsSlot(sp, rest, datas, pos, grace, ladders);
    var tail := LadderEach(t, datas, pos[1..], grace, ladders).1;
    EachPlacedWell(t, WithSlot(rest, off), datas, pos[1..], grace, ladders);
    if j > 0 { EachFindsSlot(t, WithSlot(rest, off), datas, pos[1..], grace, ladders, j - 1); }
    OneBefore(rest, off, tail, j, sp.alloc.totalSlots);
  }

  /** The first item goes down the ladder, and leaves the others what they need. */
  lemma FirstFindsSlot(sp: Space, rest: multiset<nat>, datas: seq<seq<byte>>, pos: seq<nat>, grace: nat,
                       ladders: nat -> Ladder)
    requires Conserved(sp, rest) && sp.alloc.initialized && SizesOk(datas) && SizesAdmissible(sp.alloc, datas, pos)
    requires MetaAnswers(sp.link.connected, ladders, pos) && pos != []
    ensures
      var (t, off) := LadderSpec(sp, |datas[pos[0]]|, grace, ladders(pos[0]));
      && Conserved(t, WithSlot(rest, off)) && SameGeometry(sp.alloc, t.alloc)
      && SizesAdmissible(t.alloc, datas, pos[1..]) && MetaAnswers(t.link.connected, ladders, pos[1..])
      && (off.None? ==> |rest| == sp.alloc.totalSlots)
  {
    var size, l := |datas[pos[0]]|, ladders(pos[0]);
    LadderConserves(sp, rest, size, grace, l);
    LadderNeverConnects(sp, size, grace, l);
    if LadderSpec(sp, size, grace, l).1.None? { NoSpaceMeansAllHeld(sp, rest, size, grace, l); }
  }

  lemma OneBefore(rest: multiset<nat>, off: Option<nat>, tail: seq<Option<nat>>, j: nat, total: nat)
    requires j <= |tail| && (j == 0 && off.None? ==> |rest| == total)
    requires j > 0 ==> NoneMeansHeld(WithSlot(rest, off), tail, j - 1, total)
    ensures NoneMeansHeld(rest, [off] + tail, j, total)
  {
    var all := [off] + tail;
    if j > 0 {
      assert all[..j] == [off] + tail[..j - 1];
      assert ([off] + tail[..j - 1])[1..] == tail[..j - 1];
    } else {
      assert all[..0] == [];
    }
  }

  /** The slots of the store once the first request has fixed their size. */
  ghost function Capacity(a: AllocState, size: nat): nat {
    if a.initialized then a.totalSlots else SlotCount(a.totalBytes, size)
  }

  /** A batch with a Meta that answers: an item ends in NoSpace only if earlier items of the
      same batch, and slots leaked before, hold every slot of the store. */
  lemma BatchNoSpaceMeansFull(sp: Space, rest: multiset<nat>, cfg: Config, datas: seq<seq<byte>>, pos: seq<nat>,
                              ladders: nat -> Ladder, j: nat)
    requires Conserved(sp, rest) && SizesOk(datas) && pos != [] && |pos| < U32 && j < |pos| && InRange(pos, |datas|)
    requires datas[pos[0]] != [] && SizesAdmissible(LazyInit(sp.alloc, |datas[pos[0]]|), datas, pos)
      && Admissible(sp.alloc, |datas[pos[0]]|)
    requires MetaAnswers(sp.link.connected, ladders, pos)
    ensures
      NoneMeansHeld(rest, BatchPlace(sp, cfg, datas, pos, ladders).1, j, Capacity(sp.alloc, |datas[pos[0]]|))
  {
    var (a, offs) := RepeatAlloc(sp.alloc, |datas[pos[0]]|, |pos|);
    BatchTook(sp, rest, datas, pos);
    if j >= |offs| { RestFindsSlot(sp, rest, cfg.grace, datas, pos, ladders, a, offs, j); }
    var tail := LadderEach(sp.(alloc := a), datas, pos[|offs|..], cfg.grace, ladders).1;
    HeldBefore(rest, offs, tail, j, Capacity(sp.alloc, |datas[pos[0]]|));
  }

  /** The items the batch allocation left without a slot. */
  lemma RestFindsSlot(sp: Space, rest: multiset<nat>, grace: nat, datas: seq<seq<byte>>, pos: seq<nat>,
                      ladders: nat -> Ladder, a: AllocState, offs: seq<nat>, j: nat)
    requires Conserved(sp.(alloc := a), rest + multiset(offs)) && a.initialized && SizesOk(datas)
    requires |offs| <= j < |pos| && SizesAdmissible(a, datas, pos[|offs|..])
    requires MetaAnswers(sp.link.connected, ladders, pos)
    ensures
      NoneMeansHeld(rest + multiset(offs), LadderEach(sp.(alloc := a), datas, pos[|offs|..], grace, ladders).1,
                    j - |offs|, a.totalSlots)
  {
    var tail := pos[|offs|..];
    assert MetaAnswers(sp.link.connected, ladders, tail);
    EachFindsSlot(sp.(alloc := a), rest + multiset(offs), datas, tail, grace, ladders, j - |offs|);
  }

  lemma HeldBefore(rest: multiset<nat>, offs: seq<nat>, tail: seq<Option<nat>>, j: nat, total: nat)
    requires j < |offs| + |tail| && (j >= |offs| ==> NoneMeansHeld(rest + multiset(offs), tail, j - |offs|, total))
    ensures NoneMeansHeld(rest, Somes(offs) + tail, j, total)
  {
    if j >= |offs| {
      FoundAfterSomes(offs, tail, j - |offs|);
      assert |rest + multiset(offs)| == |rest| + |multiset(offs)|;
    } else {
      assert (Somes(offs) + tail)[j] == Somes(offs)[j];
    }
  }

  /** The store after the batch allocation. */
  lemma BatchTook(sp: Space, rest: multiset<nat>, datas: seq<seq<byte>>, pos: seq<nat>)
    requires Conserved(sp, rest) && SizesOk(datas) && pos != [] && InRange(pos, |datas|) && datas[pos[0]] != []
    requires SizesAdmissible(LazyInit(sp.alloc, |datas[pos[0]]|), datas, pos) && Admissible(sp.alloc, |datas[pos[0]]|)
    ensures
      var (a, offs) := RepeatAlloc(sp.alloc, |datas[pos[0]]|, |pos|);
      && Conserved(sp.(alloc := a), rest + multiset(offs)) && |offs| <= |pos| && a.initialized
      && a.totalSlots == Capacity(sp.alloc, |datas[pos[0]]|) && SizesAdmissible(a, datas, pos[|offs|..])
  {
    var size := |datas[pos[0]]|;
    var t := LazyInit(sp.alloc, size);
    RepeatConserves(sp, rest, size, |pos|);
    LazyInitFirst(sp.alloc, size, |pos|);
    RepeatTakesFree(t, size, |pos|);
    var (a, offs) := RepeatAlloc(sp.alloc, size, |pos|);
    StillAdmissible(t, a, datas, pos, |offs|);
  }

  lemma LazyInitFirst(a: AllocState, size: nat, count: nat)
    requires count > 0
    ensures RepeatAlloc(a, size, count) == RepeatAlloc(LazyInit(a, size), size, count)
  {
  }

  lemma StillAdmissible(a: AllocState, b: AllocState, datas: seq<seq<byte>>, pos: seq<nat>, n: nat)
    requires SizesAdmissible(a, datas, pos) && SameGeometry(a, b) && n <= |pos|
    ensures SizesAdmissible(b, datas, pos[n..])
  {
  }

  lemma FoundAfterSomes(offs: seq<nat>, tail: seq<Option<nat>>, m: nat)
    requires m <= |tail|
    ensures Found((Somes(offs) + tail)[..|offs| + m]) == offs + Found(tail[..m])
  {
    assert (Somes(offs) + tail)[..|offs| + m] == Somes(offs) + tail[..m];
    FoundConcat(Somes(offs), tail[..m]);
    FoundSomes(offs);
  }

  lemma {:induction false} FoundAtMost(places: seq<Option<nat>>)
    ensures |Found(places)| <= |places|
  {
    if places != [] { FoundAtMost(places[1..]); }
  }
}
