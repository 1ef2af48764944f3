/** `BatchPut` as a run of the store's steps, for any batch; the run is strict when the new keys
    are distinct and no new item is larger than the slot. */
module StoreBatches {
  import opened Base
  import opened SlotAllocation
  import opened MetaIndex
  import opened MetaLink
  import opened StoreSpace
  import opened StoreOps
  import opened StoreProgress
  import opened StoreSteps
  import opened StoreTraces

  // ---------- the slots found ----------

  function Found(places: seq<Option<nat>>): seq<nat> {
    if places == [] then [] else (if places[0].Some? then [places[0].value] else []) + Found(places[1..])
  }

  lemma ThreeParts(a: seq<nat>, b: seq<nat>, c: seq<nat>)
    ensures a + b + c == a + (b + c)
  {
  }

  lemma {:induction false} FoundConcat(a: seq<Option<nat>>, b: seq<Option<nat>>)
    ensures Found(a + b) == Found(a) + Found(b)
  {
    if a == [] {
      assert a + b == b;
    } else {
      assert (a + b)[0] == a[0] && (a + b)[1..] == a[1..] + b;
      FoundConcat(a[1..], b);
      ThreeParts(if a[0].Some? then [a[0].value] else [], Found(a[1..]), Found(b));
    }
  }

  lemma {:induction false} FoundSomes(offs: seq<nat>)
    ensures Found(Somes(offs)) == offs
  {
    if offs != [] {
      assert Somes(offs)[1..] == Somes(offs[1..]);
      FoundSomes(offs[1..]);
    }
  }

  lemma {:induction false} ItemOffsetsFound(pos: seq<nat>, places: seq<Option<nat>>)
    requires |pos| == |places|
    ensures ItemOffsets(Items(pos, places)) == Found(places)
    decreases |pos|
  {
    if pos != [] {
      ItemOffsetsFound(pos[1..], places[1..]);
      var rest := Items(pos[1..], places[1..]);
      if places[0].Some? {
        assert ItemOffsets([Item(pos[0], places[0].value)] + rest) == [places[0].value] + ItemOffsets(rest);
      }
    }
  }

  ghost predicate SizesOk(datas: seq<seq<byte>>) {
    forall i :: 0 <= i < |datas| ==> |datas[i]| < U32
  }

  ghost predicate ItemsFit(items: seq<Item>, datas: seq<seq<byte>>, slot: nat) {
    ItemsIn(items, |datas|) && forall i :: 0 <= i < |items| ==> |datas[items[i].pos]| <= slot
  }

  /** What looking for slots, taking `sp` to `t` with answers `places`, keeps. */
  ghost predicate PlacedWell(sp: Space, rest: multiset<nat>, datas: seq<seq<byte>>, pos: seq<nat>, t: Space,
                             places: seq<Option<nat>>) {
    && |places| == |pos| && Conserved(t, rest + multiset(Found(places)))
    && (sp.alloc.initialized ==> SameGeometry(sp.alloc, t.alloc))
    && Shrinks(sp.index, t.index) && ItemsFit(Items(pos, places), datas, t.alloc.slotSize)
    && (Found(places) != [] ==> t.alloc.initialized)
  }

  lemma {:induction false} EachPlacedWell(sp: Space, rest: multiset<nat>, datas: seq<seq<byte>>, pos: seq<nat>,
                                          grace: nat, ladders: nat -> Ladder)
    requires Conserved(sp, rest) && SizesOk(datas) && InRange(pos, |datas|)
    ensures var (t, places) := LadderEach(sp, datas, pos, grace, ladders); PlacedWell(sp, rest, datas, pos, t, places)
    decreases |pos|
  {
    if pos == [] {
      assert rest + multiset(Found([])) == rest;
    } else {
      var size := |datas[pos[0]]|;
      var (t, off) := LadderSpec(sp, size, grace, ladders(pos[0]));
      LadderConserves(sp, rest, size, grace, ladders(pos[0]));
      LadderShrinks(sp, size, grace, ladders(pos[0]));
      EachPlacedWell(t, WithSlot(rest, off), datas, pos[1..], grace, ladders);
      var (u, places) := LadderEach(t, datas, pos[1..], grace, ladders);
      PlacedOneMore(sp, rest, datas, pos, t, off, u, places);
    }
  }

  lemma PlacedOneMore(sp: Space, rest: multiset<nat>, datas: seq<seq<byte>>, pos: seq<nat>, t: Space, off: Option<nat>,
                      u: Space, places: seq<Option<nat>>)
    requires pos != [] && InRange(pos, |datas|) && Fits(sp, t, |datas[pos[0]]|, off) && Shrinks(sp.index, t.index)
    requires PlacedWell(t, WithSlot(rest, off), datas, pos[1..], u, places)
    ensures PlacedWell(sp, rest, datas, pos, u, [off] + places)
  {
    var all := [off] + places;
    assert all[1..] == places;
    assert WithSlot(rest, off) + multiset(Found(places)) == rest + multiset(Found(all));
    var tail := Items(pos[1..], places);
    if off.Some? {
      var items := [Item(pos[0], off.value)] + tail;
      forall i | 0 <= i < |items| ensures items[i].pos < |datas| && |datas[items[i].pos]| <= u.alloc.slotSize {
        if i > 0 { assert items[i] == tail[i - 1]; }
      }
    }
  }

  /** A batch of slots taken is held by the operation, once each. */
  lemma RepeatConserves(sp: Space, rest: multiset<nat>, size: nat, count: nat)
    requires Conserved(sp, rest) && size < U32
    ensures
      var (a, offs) := RepeatAlloc(sp.alloc, size, count);
      Conserved(sp.(alloc := a), rest + multiset(offs)) && BatchTaken(sp.alloc, size, count, a, offs)
  {
    RepeatAllocCorrect(sp.alloc, size, count);
    UninitialisedIsEmpty(sp, rest);
    var (a, offs) := RepeatAlloc(sp.alloc, size, count);
    SetMinus(InUse(a), offs);
    assert InUse(a) - (set x | x in offs) == InUse(sp.alloc);
  }

  /** The slot size a batch meets: its first item's, if nothing has fixed one yet. */
  ghost function SlotMet(a: AllocState, datas: seq<seq<byte>>, pos: seq<nat>): nat
    requires pos != [] && InRange(pos, |datas|)
  {
    if a.initialized then a.slotSize else |datas[pos[0]]|
  }

  /** No new item is larger than the slot; the batch allocation checks only the first. */
  ghost predicate SizesFit(a: AllocState, datas: seq<seq<byte>>, pos: seq<nat>) {
    InRange(pos, |datas|) && forall i :: 0 <= i < |pos| ==> |datas[pos[i]]| <= SlotMet(a, datas, pos)
  }

  lemma {:induction false} ItemsOfPlaced(datas: seq<seq<byte>>, pos: seq<nat>, offs: seq<nat>, places: seq<Option<nat>>,
                                         slot: nat)
    requires |offs| + |places| == |pos| && InRange(pos, |datas|)
    requires forall i :: 0 <= i < |offs| ==> |datas[pos[i]]| <= slot
    requires ItemsFit(Items(pos[|offs|..], places), datas, slot)
    ensures ItemsFit(Items(pos, Somes(offs) + places), datas, slot)
    decreases |offs|
  {
    if offs == [] {
      assert pos[0..] == pos && Somes(offs) + places == places;
    } else {
      assert (Somes(offs) + places)[1..] == Somes(offs[1..]) + places;
      assert pos[1..][|offs[1..]|..] == pos[|offs|..];
      ItemsOfPlaced(datas, pos[1..], offs[1..], places, slot);
      var tail := Items(pos[1..], Somes(offs[1..]) + places);
      var items := [Item(pos[0], offs[0])] + tail;
      forall i | 0 <= i < |items| ensures items[i].pos < |datas| && |datas[items[i].pos]| <= slot {
        if i > 0 { assert items[i] == tail[i - 1]; }
      }
    }
  }

  /** What `BatchPlace` guarantees. */
  ghost predicate BatchPlaced(sp: Space, rest: multiset<nat>, datas: seq<seq<byte>>, pos: seq<nat>, t: Space,
                              places: seq<Option<nat>>) {
    && |places| == |pos| && Conserved(t, rest + multiset(Found(places))) && Shrinks(sp.index, t.index)
    && (Found(places) != [] ==> t.alloc.initialized)
    && (SizesFit(sp.alloc, datas, pos) ==> ItemsFit(Items(pos, places), datas, t.alloc.slotSize))
  }

  lemma BatchPlacedWell(sp: Space, rest: multiset<nat>, cfg: Config, datas: seq<seq<byte>>, pos: seq<nat>,
                        ladders: nat -> Ladder)
    requires Conserved(sp, rest) && SizesOk(datas) && pos != [] && InRange(pos, |datas|)
    ensures
      var (t, places) := BatchPlace(sp, cfg, datas, pos, ladders);
      BatchPlaced(sp, rest, datas, pos, t, places)
  {
    var size := |datas[pos[0]]|;
    RepeatConserves(sp, rest, size, Low32(|pos|));
    var (a, offs) := RepeatAlloc(sp.alloc, size, Low32(|pos|));
    var u := sp.(alloc := a);
    EachPlacedWell(u, rest + multiset(offs), datas, pos[|offs|..], cfg.grace, ladders);
    var (t, places) := LadderEach(u, datas, pos[|offs|..], cfg.grace, ladders);
    ThenPlaced(sp, rest, datas, pos, size, a, offs, t, places);
  }

  lemma ThenPlaced(sp: Space, rest: multiset<nat>, datas: seq<seq<byte>>, pos: seq<nat>, size: nat, a: AllocState,
                   offs: seq<nat>, t: Space, places: seq<Option<nat>>)
    requires pos != [] && InRange(pos, |datas|) && size == |datas[pos[0]]|
      && BatchTaken(sp.alloc, size, Low32(|pos|), a, offs)
    requires PlacedWell(sp.(alloc := a), rest + multiset(offs), datas, pos[|offs|..], t, places)
    ensures BatchPlaced(sp, rest, datas, pos, t, Somes(offs) + places)
  {
    FoundConcat(Somes(offs), places);
    FoundSomes(offs);
    assert rest + multiset(offs) + multiset(Found(places)) == rest + multiset(offs + Found(places));
    if SizesFit(sp.alloc, datas, pos) { ItemsOfPlaced(datas, pos, offs, places, t.alloc.slotSize); }
  }

  // ---------- the run that looks for slots ----------

  function InHand(w: World, sp: Space, offs: seq<nat>): World {
    w.(space := sp, inflight := w.inflight + multiset(offs))
  }

  predicate LaddersTimed(pos: seq<nat>, ladders: nat -> Ladder, lo: nat, hi: nat) {
    if pos == [] then lo <= hi
    else
      && LadderTimed(ladders(pos[0]), lo, ladders(pos[0]).flush2)
      && LaddersTimed(pos[1..], ladders, ladders(pos[0]).flush2, hi)
  }

  lemma {:induction false} LaddersTimedFrom(pos: seq<nat>, n: nat, ladders: nat -> Ladder, lo: nat, hi: nat)
    requires LaddersTimed(pos, ladders, lo, hi) && n <= |pos|
    ensures LaddersTimed(pos[n..], ladders, lo, hi) && lo <= hi
    decreases |pos|
  {
    if pos != [] {
      var l := ladders(pos[0]);
      RoundsOrder(l.rounds, l.flush1, l.flush2);
      if n > 0 {
        LaddersTimedFrom(pos[1..], n - 1, ladders, l.flush2, hi);
        assert pos[1..][n - 1..] == pos[n..];
        LaddersEarlier(pos[n..], ladders, lo, l.flush2, hi);
      } else {
        LaddersTimedFrom(pos[1..], 0, ladders, l.flush2, hi);
        assert pos[0..] == pos;
      }
    }
  }

  lemma LaddersEarlier(pos: seq<nat>, ladders: nat -> Ladder, lo: nat, mid: nat, hi: nat)
    requires LaddersTimed(pos, ladders, mid, hi) && lo <= mid
    ensures LaddersTimed(pos, ladders, lo, hi)
  {
  }

  lemma SameEnd(w: World, cfg: Config, tr: seq<Step>, u: World, v: World, mode: Mode, lo: nat, hi: nat)
    requires Reaches(w, cfg, tr, u, mode, lo, hi) && u == v
    ensures Reaches(w, cfg, tr, v, mode, lo, hi)
  {
  }

  /** `w` with the slots of a batch allocation in the operation's hands. */
  ghost function Repeated(w: World, size: nat, count: nat): World {
    var (a, offs) := RepeatAlloc(w.space.alloc, size, count);
    InHand(w, w.space.(alloc := a), offs)
  }

  lemma {:induction false} RepeatRun(w: World, cfg: Config, size: nat, count: nat, mode: Mode, lo: nat, hi: nat)
    returns (tr: seq<Step>)
    requires MetaIndex.Wf(w.space.index) && size < U32 && (mode.timed ==> lo <= hi)
    ensures Reaches(w, cfg, tr, Repeated(w, size, count), mode, lo, hi)
    decreases count
  {
    if count == 0 {
      tr := RepeatNone(w, cfg, size, mode, lo, hi);
    } else if AllocSpec(w.space.alloc, size).1.Some? {
      RepeatedFirst(w, cfg, size, count);
      var u := Do(w, cfg, TakeSlot(size));
      var b := RepeatRun(u, cfg, size, count - 1, mode, lo, hi);
      tr := [TakeSlot(size)] + b;
      TakeThenRepeat(w, cfg, u, Repeated(u, size, count - 1), size, count, b, mode, lo, hi);
    } else {
      tr := RepeatFails(w, cfg, size, count, mode, lo, hi);
    }
  }

  lemma RepeatNone(w: World, cfg: Config, size: nat, mode: Mode, lo: nat, hi: nat) returns (tr: seq<Step>)
    requires mode.timed ==> lo <= hi
    ensures Reaches(w, cfg, tr, Repeated(w, size, 0), mode, lo, hi)
  {
    tr := [];
    TakenNone(w);
    ReachesNone(w, cfg, mode, lo, hi);
  }

  lemma RepeatFails(w: World, cfg: Config, size: nat, count: nat, mode: Mode, lo: nat, hi: nat)
    returns (tr: seq<Step>)
    requires MetaIndex.Wf(w.space.index) && size < U32 && count > 0 && (mode.timed ==> lo <= hi)
    requires AllocSpec(w.space.alloc, size).1.None?
    ensures Reaches(w, cfg, tr, Repeated(w, size, count), mode, lo, hi)
  {
    RepeatedFirst(w, cfg, size, count);
    tr := TakeRun(w, cfg, size, mode, lo, hi);
  }

  lemma TakeThenRepeat(w: World, cfg: Config, u: World, v: World, size: nat, count: nat, b: seq<Step>,
                       mode: Mode, lo: nat, hi: nat)
    requires MetaIndex.Wf(w.space.index) && size < U32 && count > 0 && AllocSpec(w.space.alloc, size).1.Some?
    requires u == Do(w, cfg, TakeSlot(size)) && v == Repeated(u, size, count - 1)
    requires Reaches(u, cfg, b, v, mode, lo, hi)
    ensures Reaches(w, cfg, [TakeSlot(size)] + b, Repeated(w, size, count), mode, lo, hi)
  {
    RepeatedFirst(w, cfg, size, count);
    ReachesCons(w, cfg, TakeSlot(size), b, v, mode, lo, hi);
    SameEnd(w, cfg, [TakeSlot(size)] + b, v, Repeated(w, size, count), mode, lo, hi);
  }

  /** The batch allocation takes its first slot and goes on, or ends. */
  lemma RepeatedFirst(w: World, cfg: Config, size: nat, count: nat)
    requires MetaIndex.Wf(w.space.index) && size < U32 && count > 0
    ensures Enabled(w, cfg, TakeSlot(size)) && Strict(w, TakeSlot(size))
    ensures
      var u := Do(w, cfg, TakeSlot(size));
      && u == Holding(w, Allocate(w.space, size))
      && MetaIndex.Wf(u.space.index)
      && Repeated(w, size, count) == if AllocSpec(w.space.alloc, size).1.Some? then Repeated(u, size, count - 1) else u
  {
    var (t, off) := AllocSpec(w.space.alloc, size);
    if off.Some? {
      var (a, rest) := RepeatAlloc(t, size, count - 1);
      HeadHeld(w.inflight, off.value, rest);
    } else {
      TakenNone(Holding(w, Allocate(w.space, size)));
    }
  }

  lemma TakenNone(w: World)
    ensures InHand(w, w.space, []) == w
  {
    assert w.inflight + multiset([]) == w.inflight;
  }

  lemma HeadHeld(m: multiset<nat>, x: nat, rest: seq<nat>)
    ensures m + multiset{x} + multiset(rest) == m + multiset([x] + rest)
    ensures m - multiset{x} - multiset(rest) == m - multiset([x] + rest)
    ensures multiset([x] + rest) <= m ==> x in m && multiset(rest) <= m - multiset{x}
  {
    assert multiset([x] + rest) == multiset{x} + multiset(rest);
  }

  /** `w` after every position of `pos` has gone down the ladder. */
  ghost function Laddered(w: World, cfg: Config, datas: seq<seq<byte>>, pos: seq<nat>, ladders: nat -> Ladder): World
    requires MetaIndex.Wf(w.space.index) && InRange(pos, |datas|)
  {
    var (t, places) := LadderEach(w.space, datas, pos, cfg.grace, ladders);
    InHand(w, t, Found(places))
  }

  lemma {:induction false} EachRun(w: World, cfg: Config, datas: seq<seq<byte>>, pos: seq<nat>, ladders: nat -> Ladder,
                                   mode: Mode, lo: nat, hi: nat)
    returns (tr: seq<Step>)
    requires MetaIndex.Wf(w.space.index) && SizesOk(datas) && InRange(pos, |datas|)
    requires mode.timed ==> LaddersTimed(pos, ladders, lo, hi)
    ensures Reaches(w, cfg, tr, Laddered(w, cfg, datas, pos, ladders), mode, lo, hi)
    decreases |pos|
  {
    if pos == [] {
      tr := [];
      TakenNone(w);
      ReachesNone(w, cfg, mode, lo, hi);
    } else {
      var l, size := ladders(pos[0]), |datas[pos[0]]|;
      var u := Holding(w, LadderSpec(w.space, size, cfg.grace, l));
      tr := LadderRun(w, cfg, size, l, mode, lo, l.flush2);
      LadderedFirst(w, cfg, datas, pos, ladders);
      var b := EachRun(u, cfg, datas, pos[1..], ladders, mode, l.flush2, hi);
      ReachesThen(w, cfg, tr, u, b, Laddered(w, cfg, datas, pos, ladders), mode, lo, l.flush2, hi);
      tr := tr + b;
    }
  }

  lemma LadderedFirst(w: World, cfg: Config, datas: seq<seq<byte>>, pos: seq<nat>, ladders: nat -> Ladder)
    requires MetaIndex.Wf(w.space.index) && InRange(pos, |datas|) && pos != []
    ensures
      var u := Holding(w, LadderSpec(w.space, |datas[pos[0]]|, cfg.grace, ladders(pos[0])));
      && MetaIndex.Wf(u.space.index) && InRange(pos[1..], |datas|)
      && Laddered(w, cfg, datas, pos, ladders) == Laddered(u, cfg, datas, pos[1..], ladders)
  {
    var l, size := ladders(pos[0]), |datas[pos[0]]|;
    LadderKeepsWf(w.space, size, cfg.grace, l);
    var (t, off) := LadderSpec(w.space, size, cfg.grace, l);
    var rest := Found(LadderEach(t, datas, pos[1..], cfg.grace, ladders).1);
    if off.Some? { HeadHeld(w.inflight, off.value, rest); }
  }

  lemma BatchPlaceRun(w: World, cfg: Config, datas: seq<seq<byte>>, pos: seq<nat>, ladders: nat -> Ladder, mode: Mode,
                      lo: nat, hi: nat) returns (tr: seq<Step>)
    requires MetaIndex.Wf(w.space.index) && SizesOk(datas) && pos != [] && InRange(pos, |datas|)
    requires mode.timed ==> LaddersTimed(pos, ladders, lo, hi)
    ensures
      var (t, places) := BatchPlace(w.space, cfg, datas, pos, ladders);
      Reaches(w, cfg, tr, InHand(w, t, Found(places)), mode, lo, hi)
  {
    var size := |datas[pos[0]]|;
    var (a, offs) := RepeatAlloc(w.space.alloc, size, Low32(|pos|));
    RepeatAllocLength(w.space.alloc, size, Low32(|pos|));
    if mode.timed { LaddersTimedFrom(pos, |offs|, ladders, lo, hi); }
    tr := RepeatRun(w, cfg, size, Low32(|pos|), mode, lo, lo);
    var u := InHand(w, w.space.(alloc := a), offs);
    var b := EachRun(u, cfg, datas, pos[|offs|..], ladders, mode, lo, hi);
    var (t, places) := LadderEach(u.space, datas, pos[|offs|..], cfg.grace, ladders);
    FoundConcat(Somes(offs), places);
    FoundSomes(offs);
    assert w.inflight + multiset(offs) + multiset(Found(places)) == w.inflight + multiset(offs + Found(places));
    ReachesThen(w, cfg, tr, u, b, InHand(w, t, offs + Found(places)), mode, lo, lo, hi);
    tr := tr + b;
  }

  // ---------- the run that writes and gives back or indexes ----------

  ghost predicate HoldsItems(w: World, items: seq<Item>) {
    forall i :: 0 <= i < |items| ==> items[i].off in w.inflight
  }

  lemma {:induction false} WritesRun(w: World, cfg: Config, items: seq<Item>, datas: seq<seq<byte>>,
                                     writes: nat -> WriteOutcome, mode: Mode, t: nat) returns (tr: seq<Step>)
    requires MetaIndex.Wf(w.space.index) && ItemsIn(items, |datas|) && HoldsItems(w, items)
    requires mode.strict ==> ItemsFit(items, datas, w.space.alloc.slotSize)
    ensures Reaches(w, cfg, tr, w.(disk := WriteEach(w.disk, items, datas, writes).0), mode, t, t)
    decreases |items|
  {
    if items == [] {
      tr := [];
      ReachesNone(w, cfg, mode, t, t);
    } else {
      var n := |items| - 1;
      tr := WritesRun(w, cfg, items[..n], datas, writes, mode, t);
      var u := w.(disk := WriteEach(w.disk, items[..n], datas, writes).0);
      var s := WriteSlot(items[n].off, datas[items[n].pos], writes(items[n].pos));
      ReachesOne(u, cfg, s, mode, t, t);
      ReachesThen(w, cfg, tr, u, [s], w.(disk := WriteEach(w.disk, items, datas, writes).0), mode, t, t, t);
      tr := tr + [s];
    }
  }

  lemma {:induction false} ReleasesRun(w: World, cfg: Config, offs: seq<nat>, mode: Mode, t: nat)
    returns (tr: seq<Step>)
    requires MetaIndex.Wf(w.space.index) && multiset(offs) <= w.inflight
    ensures Reaches(w, cfg, tr, Released(w, offs), mode, t, t)
    decreases |offs|
  {
    if offs == [] {
      tr := [];
      assert w.inflight - multiset(offs) == w.inflight;
      ReachesNone(w, cfg, mode, t, t);
    } else {
      var x, rest := offs[0], offs[1..];
      assert offs == [x] + rest;
      HeadHeld(w.inflight, x, rest);
      var u := Do(w, cfg, ReleaseSlot(x));
      var b := ReleasesRun(u, cfg, rest, mode, t);
      ReachesCons(w, cfg, ReleaseSlot(x), b, Released(w, offs), mode, t, t);
      tr := [ReleaseSlot(x)] + b;
    }
  }

  /** Every slot of `offs` given back. */
  ghost function Released(w: World, offs: seq<nat>): World {
    w.(space := w.space.(alloc := FreeAll(w.space.alloc, offs)), inflight := w.inflight - multiset(offs))
  }

  // ---------- indexing a batch ----------

  /** `v` is `w` with the items indexed, duplicates or not. */
  ghost predicate IndexShape(w: World, keys: seq<Key>, items: seq<Item>, v: World)
    requires ItemsIn(items, |keys|)
  {
    && v.disk == w.disk && v.space == w.space.(index := v.space.index) && MetaIndex.Wf(v.space.index)
    && v.inflight == w.inflight - multiset(ItemOffsets(items))
    && (forall k :: k in v.space.index.recs <==> k in w.space.index.recs || KeyAmong(keys, items, k))
  }

  lemma IndexShapeStep(w: World, keys: seq<Key>, items: seq<Item>, u: World, r: Record, data: seq<byte>)
    requires ItemsIn(items, |keys|) && items != [] && IndexShape(w, keys, items[..|items| - 1], u)
    requires r.key == keys[items[|items| - 1].pos] && r.offset == items[|items| - 1].off
    ensures IndexShape(w, keys, items, IndexRecord(u, r, data))
  {
    var n := |items| - 1;
    PutKeepsWf(u.space.index, r.key, r);
    assert ItemOffsets(items) == ItemOffsets(items[..n]) + [items[n].off];
    assert w.inflight - multiset(ItemOffsets(items[..n])) - multiset{r.offset}
      == w.inflight - multiset(ItemOffsets(items));
    KeyAmongMore(keys, items, n);
  }

  lemma {:induction false} IndexEachShape(w: World, keys: seq<Key>, datas: seq<seq<byte>>, slot: nat, commit: nat,
                                          items: seq<Item>)
    requires |keys| == |datas| && ItemsIn(items, |keys|) && MetaIndex.Wf(w.space.index)
    ensures IndexShape(w, keys, items, IndexEach(w, keys, datas, slot, commit, items))
    decreases |items|
  {
    if items == [] {
      assert w.inflight - multiset([]) == w.inflight;
    } else {
      var n := |items| - 1;
      IndexEachShape(w, keys, datas, slot, commit, items[..n]);
      IndexShapeStep(w, keys, items, IndexEach(w, keys, datas, slot, commit, items[..n]),
                     RecordOf(keys, datas, slot, commit, items[n]), datas[items[n].pos]);
    }
  }

  ghost predicate KeyAmong(keys: seq<Key>, items: seq<Item>, k: Key)
    requires ItemsIn(items, |keys|)
  {
    exists i :: 0 <= i < |items| && keys[items[i].pos] == k
  }

  lemma KeyAmongMore(keys: seq<Key>, items: seq<Item>, n: nat)
    requires ItemsIn(items, |keys|) && n + 1 == |items|
    ensures forall k :: KeyAmong(keys, items, k) <==> KeyAmong(keys, items[..n], k) || k == keys[items[n].pos]
  {
    forall k ensures KeyAmong(keys, items, k) <==> KeyAmong(keys, items[..n], k) || k == keys[items[n].pos] {
      if KeyAmong(keys, items, k) {
        var i :| 0 <= i < |items| && keys[items[i].pos] == k;
        if i < n { assert items[..n][i] == items[i]; }
      }
    }
  }

  ghost predicate DistinctItems(keys: seq<Key>, items: seq<Item>)
    requires ItemsIn(items, |keys|)
  {
    forall i, j :: 0 <= i < j < |items| ==> keys[items[i].pos] != keys[items[j].pos]
  }

  ghost predicate RecordAt(m: map<Key, Record>, k: Key, off: nat, size: nat) {
    k in m && m[k].offset == off && m[k].size == size
  }

  lemma EachRecords(w: World, keys: seq<Key>, datas: seq<seq<byte>>, slot: nat, commit: nat, items: seq<Item>, n: nat)
    requires |keys| == |datas| && ItemsIn(items, |keys|) && n == |items| - 1
    ensures
      var r := RecordOf(keys, datas, slot, commit, items[n]);
      IndexEach(w, keys, datas, slot, commit, items).space.index.recs
        == IndexEach(w, keys, datas, slot, commit, items[..n]).space.index.recs[r.key := r]
  {
  }

  /** Each item of a batch with distinct keys ends up indexed where it was written. */
  lemma {:induction false} EachIndexed(w: World, keys: seq<Key>, datas: seq<seq<byte>>, slot: nat, commit: nat,
                                       items: seq<Item>, i: nat)
    requires |keys| == |datas| && ItemsIn(items, |keys|) && DistinctItems(keys, items) && i < |items|
    ensures
      var m := IndexEach(w, keys, datas, slot, commit, items).space.index.recs;
      RecordAt(m, keys[items[i].pos], items[i].off, |datas[items[i].pos]|)
    decreases |items|
  {
    var n := |items| - 1;
    var r := RecordOf(keys, datas, slot, commit, items[n]);
    if i < n {
      ItemBefore(keys, items, i, n);
      EachIndexed(w, keys, datas, slot, commit, items[..n], i);
      AddedRecord(w, keys, datas, slot, commit, items, n, keys[items[i].pos], items[i].off, |datas[items[i].pos]|);
    } else {
      AddedRecord(w, keys, datas, slot, commit, items, n, r.key, r.offset, r.size);
    }
  }

  /** The record added last is there, and so are the earlier ones of other keys. */
  lemma AddedRecord(w: World, keys: seq<Key>, datas: seq<seq<byte>>, slot: nat, commit: nat, items: seq<Item>, n: nat,
                    k: Key, off: nat, size: nat)
    requires |keys| == |datas| && ItemsIn(items, |keys|) && n == |items| - 1
    requires
      var r := RecordOf(keys, datas, slot, commit, items[n]);
      if r.key == k then off == r.offset && size == r.size
      else RecordAt(IndexEach(w, keys, datas, slot, commit, items[..n]).space.index.recs, k, off, size)
    ensures RecordAt(IndexEach(w, keys, datas, slot, commit, items).space.index.recs, k, off, size)
  {
    EachRecords(w, keys, datas, slot, commit, items, n);
  }

  lemma ItemBefore(keys: seq<Key>, items: seq<Item>, i: nat, n: nat)
    requires ItemsIn(items, |keys|) && DistinctItems(keys, items) && i < n < |items|
    ensures DistinctItems(keys, items[..n]) && items[..n][i] == items[i] && keys[items[n].pos] != keys[items[i].pos]
  {
  }

  lemma IndexOneMore(w: World, keys: seq<Key>, datas: seq<seq<byte>>, slot: nat, commit: nat, items: seq<Item>, n: nat)
    requires |keys| == |datas| && ItemsIn(items, |keys|) && n < |items|
    ensures IndexEach(w, keys, datas, slot, commit, items[..n + 1])
      == IndexRecord(IndexEach(w, keys, datas, slot, commit, items[..n]),
                     RecordOf(keys, datas, slot, commit, items[n]), datas[items[n].pos])
  {
    assert items[..n + 1][..n] == items[..n];
  }

  /** Whatever was placed was distinct if the positions' keys were. */
  ghost predicate DistinctOver(keys: seq<Key>, pos: seq<nat>) {
    InRange(pos, |keys|) && forall i, j :: 0 <= i < j < |pos| ==> keys[pos[i]] != keys[pos[j]]
  }

  lemma {:induction false} ItemsDistinct(keys: seq<Key>, pos: seq<nat>, places: seq<Option<nat>>)
    requires |pos| == |places| && DistinctOver(keys, pos)
    ensures ItemsIn(Items(pos, places), |keys|) && DistinctItems(keys, Items(pos, places))
    ensures forall i :: 0 <= i < |Items(pos, places)| ==> Items(pos, places)[i].pos in pos
    decreases |pos|
  {
    if pos != [] {
      ItemsDistinct(keys, pos[1..], places[1..]);
      var tail, items := Items(pos[1..], places[1..]), Items(pos, places);
      assert pos == [pos[0]] + pos[1..];
      forall i | 0 <= i < |items| ensures items[i].pos in pos {
        if i >= |items| - |tail| { assert items[i] == tail[i - (|items| - |tail|)]; }
      }
      if places[0].Some? { FirstDistinct(keys, pos, Item(pos[0], places[0].value), tail); }
    }
  }

  lemma FirstDistinct(keys: seq<Key>, pos: seq<nat>, it: Item, tail: seq<Item>)
    requires pos != [] && DistinctOver(keys, pos) && it.pos == pos[0]
    requires ItemsIn(tail, |keys|) && DistinctItems(keys, tail)
    requires forall i :: 0 <= i < |tail| ==> tail[i].pos in pos[1..]
    ensures ItemsIn([it] + tail, |keys|) && DistinctItems(keys, [it] + tail)
  {
    var items := [it] + tail;
    forall i, j | 0 <= i < j < |items| ensures keys[items[i].pos] != keys[items[j].pos] {
      assert items[j] == tail[j - 1];
      if i == 0 {
        var m :| 0 <= m < |pos[1..]| && pos[1..][m] == tail[j - 1].pos;
        assert pos[m + 1] == tail[j - 1].pos;
      }
    }
  }

  /** Slots that do not overlap. */
  ghost predicate Apart(items: seq<Item>, slot: nat) {
    forall i, j :: 0 <= i < j < |items| ==> items[i].off + slot <= items[j].off || items[j].off + slot <= items[i].off
  }

  /** When every write of a batch succeeds, every item can be read back. */
  lemma {:induction false} WritesLand(d: Disk, items: seq<Item>, datas: seq<seq<byte>>, writes: nat -> WriteOutcome,
                                      slot: nat, i: nat)
    requires ItemsFit(items, datas, slot) && Apart(items, slot) && i < |items|
    requires WriteEach(d, items, datas, writes).1 == Ok
    ensures
      var data := datas[items[i].pos];
      PRead(WriteEach(d, items, datas, writes).0, items[i].off, |data|) == Some(data)
    decreases |items|
  {
    var n := |items| - 1;
    var e := WriteEach(d, items[..n], datas, writes).0;
    var last := datas[items[n].pos];
    if i < n {
      WritesLand(d, items[..n], datas, writes, slot, i);
      WriteElsewhere(e, items[n].off, last, items[i].off, |datas[items[i].pos]|);
    } else {
      WriteOk(e, items[n].off, last);
    }
  }

  /** The slots in the operation's hands do not overlap. */
  lemma HeldApart(w: World, items: seq<Item>)
    requires Owned(w) && multiset(ItemOffsets(items)) <= w.inflight
    ensures Apart(items, w.space.alloc.slotSize)
  {
    var offs := ItemOffsets(items);
    assert multiset(offs) <= multiset(InUse(w.space.alloc));
    FitsInSet(offs, InUse(w.space.alloc));
    forall i, j | 0 <= i < j < |items|
      ensures items[i].off + w.space.alloc.slotSize <= items[j].off
        || items[j].off + w.space.alloc.slotSize <= items[i].off
    {
      NoDupAt(offs, i, j);
      assert offs[i] in offs && offs[j] in offs;
      InUseDisjoint(w.space.alloc, offs[i], offs[j]);
    }
  }

  /** What makes indexing a batch strict. */
  ghost predicate Landed(w: World, keys: seq<Key>, datas: seq<seq<byte>>, items: seq<Item>) {
    && |keys| == |datas| && ItemsFit(items, datas, w.space.alloc.slotSize) && DistinctItems(keys, items)
    && (forall i :: 0 <= i < |items| ==> keys[items[i].pos] !in w.space.index.recs)
    && (forall i :: 0 <= i < |items| ==> Reads(w.disk, items[i], datas[items[i].pos]))
  }

  predicate Reads(d: Disk, it: Item, data: seq<byte>) { PRead(d, it.off, |data|) == Some(data) }

  lemma {:induction false} IndexRun(w: World, cfg: Config, keys: seq<Key>, datas: seq<seq<byte>>, commit: nat,
                                    items: seq<Item>, mode: Mode, t: nat) returns (tr: seq<Step>)
    requires |keys| == |datas| && ItemsIn(items, |keys|) && MetaIndex.Wf(w.space.index)
    requires multiset(ItemOffsets(items)) <= w.inflight && (mode.strict ==> Landed(w, keys, datas, items))
    ensures Reaches(w, cfg, tr, IndexEach(w, keys, datas, w.space.alloc.slotSize, commit, items), mode, t, t)
    decreases |items|
  {
    if items == [] {
      tr := [];
      ReachesNone(w, cfg, mode, t, t);
    } else {
      var n, slot := |items| - 1, w.space.alloc.slotSize;
      SomeHeld(w.inflight, items);
      LandedInit(w, keys, datas, items, mode.strict);
      tr := IndexRun(w, cfg, keys, datas, commit, items[..n], mode, t);
      IndexEachShape(w, keys, datas, slot, commit, items[..n]);
      var u := IndexEach(w, keys, datas, slot, commit, items[..n]);
      var s := IndexStep(w, cfg, u, keys, datas, commit, items, mode, t);
      ReachesThen(w, cfg, tr, u, [s], Do(u, cfg, s), mode, t, t, t);
      tr := tr + [s];
    }
  }

  lemma SomeHeld(m: multiset<nat>, items: seq<Item>)
    requires items != [] && multiset(ItemOffsets(items)) <= m
    ensures
      var n := |items| - 1;
      && multiset(ItemOffsets(items[..n])) <= m && items[n].off in m - multiset(ItemOffsets(items[..n]))
  {
    var n := |items| - 1;
    assert ItemOffsets(items) == ItemOffsets(items[..n]) + [items[n].off];
    assert multiset(ItemOffsets(items)) == multiset(ItemOffsets(items[..n])) + multiset{items[n].off};
  }

  lemma LandedInit(w: World, keys: seq<Key>, datas: seq<seq<byte>>, items: seq<Item>, strict: bool)
    requires items != [] && (strict ==> Landed(w, keys, datas, items))
    ensures strict ==> Landed(w, keys, datas, items[..|items| - 1])
  {
  }

  /** The next item of a batch is indexed; strictly, if the batch landed. */
  lemma IndexStep(w: World, cfg: Config, u: World, keys: seq<Key>, datas: seq<seq<byte>>, commit: nat, items: seq<Item>,
                  mode: Mode, t: nat) returns (s: Step)
    requires |keys| == |datas| && ItemsIn(items, |keys|) && items != []
    requires mode.strict ==> Landed(w, keys, datas, items)
    requires items[|items| - 1].off in u.inflight && IndexShape(w, keys, items[..|items| - 1], u)
    ensures
      var it := items[|items| - 1];
      && s == IndexKey(RecordOf(keys, datas, w.space.alloc.slotSize, commit, it), datas[it.pos])
      && Reaches(u, cfg, [s], Do(u, cfg, s), mode, t, t)
  {
    var it := items[|items| - 1];
    s := IndexKey(RecordOf(keys, datas, w.space.alloc.slotSize, commit, it), datas[it.pos]);
    if mode.strict {
      assert Reads(w.disk, it, datas[it.pos]);
      assert !KeyAmong(keys, items[..|items| - 1], keys[it.pos]);
    }
    ReachesOne(u, cfg, s, mode, t, t);
  }

  // ---------- the whole batch ----------

  lemma WrittenBatchLands(h: World, keys: seq<Key>, datas: seq<seq<byte>>, items: seq<Item>,
                          writes: nat -> WriteOutcome)
    requires Owned(h) && multiset(ItemOffsets(items)) <= h.inflight && |keys| == |datas|
    requires ItemsFit(items, datas, h.space.alloc.slotSize) && DistinctItems(keys, items)
    requires forall i :: 0 <= i < |items| ==> keys[items[i].pos] !in h.space.index.recs
    requires WriteEach(h.disk, items, datas, writes).1 == Ok
    ensures Landed(h.(disk := WriteEach(h.disk, items, datas, writes).0), keys, datas, items)
  {
    HeldApart(h, items);
    forall i | 0 <= i < |items|
      ensures Reads(WriteEach(h.disk, items, datas, writes).0, items[i], datas[items[i].pos])
    {
      WritesLand(h.disk, items, datas, writes, h.space.alloc.slotSize, i);
    }
  }

  lemma AllHeld(w: World, items: seq<Item>)
    requires multiset(ItemOffsets(items)) <= w.inflight
    ensures HoldsItems(w, items)
  {
    var offs := ItemOffsets(items);
    forall i | 0 <= i < |items| ensures items[i].off in w.inflight {
      assert offs[i] in multiset(offs);
    }
  }

  lemma RecordsIndexed(w: World, keys: seq<Key>, datas: seq<seq<byte>>, slot: nat, commit: nat, items: seq<Item>)
    requires |keys| == |datas| && ItemsIn(items, |keys|) && DistinctItems(keys, items)
    ensures
      var v, recs := IndexEach(w, keys, datas, slot, commit, items), RecordsOf(keys, datas, slot, commit, items);
      forall i :: 0 <= i < |recs| ==> Indexed(v, recs[i].key, recs[i].offset, recs[i].size)
  {
    forall i | 0 <= i < |items|
      ensures Indexed(IndexEach(w, keys, datas, slot, commit, items), keys[items[i].pos], items[i].off,
                      |datas[items[i].pos]|)
    {
      EachIndexed(w, keys, datas, slot, commit, items, i);
    }
  }

  /** Indexing a batch that was written, and queueing its commit. */
  lemma CommitBatchRun(u: World, cfg: Config, keys: seq<Key>, datas: seq<seq<byte>>, commit: nat, items: seq<Item>,
                       mode: Mode, t: nat) returns (tr: seq<Step>)
    requires |keys| == |datas| && ItemsIn(items, |keys|) && MetaIndex.Wf(u.space.index)
    requires multiset(ItemOffsets(items)) <= u.inflight && (mode.strict ==> Landed(u, keys, datas, items))
    ensures
      var slot := u.space.alloc.slotSize;
      var v := IndexEach(u, keys, datas, slot, commit, items);
      Reaches(u, cfg, tr,
              Relinked(v, AsyncCommitSpec(v.space.link, cfg.storeId, RecordsOf(keys, datas, slot, commit, items))),
              mode, t, t)
  {
    var slot := u.space.alloc.slotSize;
    var v := IndexEach(u, keys, datas, slot, commit, items);
    var recs := RecordsOf(keys, datas, slot, commit, items);
    IndexEachShape(u, keys, datas, slot, commit, items);
    tr := IndexRun(u, cfg, keys, datas, commit, items, mode, t);
    if mode.strict { RecordsIndexed(u, keys, datas, slot, commit, items); }
    ReachesOne(v, cfg, CommitLater(recs), mode, t, t);
    ReachesThen(u, cfg, tr, v, [CommitLater(recs)], Do(v, cfg, CommitLater(recs)), mode, t, t, t);
    tr := tr + [CommitLater(recs)];
  }

  lemma BatchStoreRun(h: World, cfg: Config, keys: seq<Key>, datas: seq<seq<byte>>, items: seq<Item>, env: BatchEnv,
                      mode: Mode, t: nat) returns (tr: seq<Step>)
    requires |keys| == |datas| && ItemsIn(items, |keys|) && Owned(h) && multiset(ItemOffsets(items)) <= h.inflight
    requires mode.strict ==> ItemsFit(items, datas, h.space.alloc.slotSize) && DistinctItems(keys, items)
                             && forall i :: 0 <= i < |items| ==> keys[items[i].pos] !in h.space.index.recs
    ensures Reaches(h, cfg, tr, BatchStore(h, cfg, keys, datas, items, env).0, mode, t, t)
  {
    var (disk, s) := WriteEach(h.disk, items, datas, env.writes);
    var u := h.(disk := disk);
    var end := BatchStore(h, cfg, keys, datas, items, env).0;
    AllHeld(h, items);
    tr := WritesRun(h, cfg, items, datas, env.writes, mode, t);
    var b;
    if s != Ok {
      b := ReleasesRun(u, cfg, ItemOffsets(items), mode, t);
    } else {
      if mode.strict { WrittenBatchLands(h, keys, datas, items, env.writes); }
      b := CommitBatchRun(u, cfg, keys, datas, env.commit, items, mode, t);
    }
    ReachesThen(h, cfg, tr, u, b, end, mode, t, t, t);
    tr := tr + b;
  }

  lemma {:induction false} TouchRun(w: World, cfg: Config, keys: seq<Key>, now: nat, mode: Mode, lo: nat, hi: nat)
    returns (tr: seq<Step>)
    requires MetaIndex.Wf(w.space.index) && (mode.timed ==> lo <= hi)
    ensures Reaches(w, cfg, tr, w.(space := w.space.(index := TouchAll(w.space.index, keys, now))), mode, lo, hi)
    decreases |keys|
  {
    if keys == [] {
      tr := [];
      ReachesNone(w, cfg, mode, lo, hi);
    } else {
      var init, s := keys[..|keys| - 1], TouchKey(keys[|keys| - 1], now);
      tr := TouchRun(w, cfg, init, now, mode, lo, lo);
      TouchAllRecords(w.space.index, init, now);
      var u := w.(space := w.space.(index := TouchAll(w.space.index, init, now)));
      ReachesOne(u, cfg, s, mode, lo, hi);
      ReachesThen(w, cfg, tr, u, [s], Do(u, cfg, s), mode, lo, lo, hi);
      tr := tr + [s];
    }
  }

  lemma {:induction false} TouchAllConserves(sp: Space, rest: multiset<nat>, keys: seq<Key>, now: nat)
    requires Conserved(sp, rest)
    ensures Conserved(sp.(index := TouchAll(sp.index, keys, now)), rest)
    decreases |keys|
  {
    if keys != [] {
      var init := keys[..|keys| - 1];
      TouchAllConserves(sp, rest, init, now);
      TouchConserves(sp.(index := TouchAll(sp.index, init, now)), rest, keys[|keys| - 1], now);
    }
  }

  /** The batches whose new keys are distinct and no new item is larger than the slot. */
  ghost predicate Regular(sp: Space, keys: seq<Key>, datas: seq<seq<byte>>) {
    var pos := Needed(sp.index, keys, |keys|);
    |keys| == |datas| ==> SizesFit(sp.alloc, datas, pos) && DistinctOver(keys, pos)
  }

  lemma {:induction false} NeededIsNew(s: IndexState, keys: seq<Key>, n: nat)
    requires n <= |keys|
    ensures forall i :: i in Needed(s, keys, n) <==> 0 <= i < n && !Committed(s, keys[i])
  {
    if n > 0 { NeededIsNew(s, keys, n - 1); }
  }

  /** The keys of the items of a batch are new to the index when its slots have been found. */
  lemma ItemsAreNew(u: World, keys: seq<Key>, pos: seq<nat>, t: Space, places: seq<Option<nat>>)
    requires |places| == |pos| && DistinctOver(keys, pos) && Shrinks(u.space.index, t.index)
    requires forall i :: 0 <= i < |pos| ==> keys[pos[i]] !in u.space.index.recs
    ensures
      var items := Items(pos, places);
      && ItemsIn(items, |keys|) && DistinctItems(keys, items)
      && forall i :: 0 <= i < |items| ==> keys[items[i].pos] !in t.index.recs
  {
    ItemsDistinct(keys, pos, places);
    var items := Items(pos, places);
    forall i | 0 <= i < |items| ensures keys[items[i].pos] !in t.index.recs {
      var j :| 0 <= j < |pos| && pos[j] == items[i].pos;
    }
  }

  lemma BatchPutRun(w: World, cfg: Config, keys: seq<Key>, datas: seq<seq<byte>>, env: BatchEnv, mode: Mode, lo: nat,
                    hi: nat) returns (tr: seq<Step>)
    requires Owned(w) && SizesOk(datas) && (mode.strict ==> Regular(w.space, keys, datas))
    requires mode.timed ==> LaddersTimed(Needed(w.space.index, keys, |keys|), env.ladders, lo, hi)
    ensures Reaches(w, cfg, tr, BatchPutOp(w, cfg, keys, datas, env).0, mode, lo, hi)
  {
    var pos := Needed(w.space.index, keys, |keys|);
    if mode.timed { LaddersTimedFrom(pos, 0, env.ladders, lo, hi); }
    if |keys| != |datas| {
      tr := [];
      ReachesNone(w, cfg, mode, lo, hi);
    } else if pos == [] {
      tr := TouchRun(w, cfg, keys, env.lookup, mode, lo, hi);
    } else {
      var u := w.(space := w.space.(index := TouchAll(w.space.index, keys, env.lookup)));
      TouchAllConserves(w.space, w.inflight + w.leaked, keys, env.lookup);
      TouchAllRecords(w.space.index, keys, env.lookup);
      NeededInRange(w.space.index, keys, |keys|);
      if mode.strict { StillNew(w.space.index, u.space.index, keys, |keys|); }
      tr := TouchRun(w, cfg, keys, env.lookup, mode, lo, lo);
      var b := PutNewRun(u, cfg, keys, datas, pos, env, mode, lo, hi);
      ReachesThen(w, cfg, tr, u, b, BatchPutOp(w, cfg, keys, datas, env).0, mode, lo, lo, hi);
      tr := tr + b;
    }
  }

  /** Lookups leave the new positions new. */
  lemma StillNew(s: IndexState, t: IndexState, keys: seq<Key>, n: nat)
    requires n <= |keys| && AllCommitted(s) && t.recs.Keys == s.recs.Keys
    ensures forall i :: 0 <= i < |Needed(s, keys, n)| ==>
      Needed(s, keys, n)[i] < |keys| && keys[Needed(s, keys, n)[i]] !in t.recs
  {
    NeededIsNew(s, keys, n);
    forall i | 0 <= i < |Needed(s, keys, n)|
      ensures Needed(s, keys, n)[i] < |keys| && keys[Needed(s, keys, n)[i]] !in t.recs
    {
      assert Needed(s, keys, n)[i] in Needed(s, keys, n);
    }
  }

  /** The batch after its lookups. */
  lemma PutNewRun(u: World, cfg: Config, keys: seq<Key>, datas: seq<seq<byte>>, pos: seq<nat>, env: BatchEnv,
                  mode: Mode, lo: nat, hi: nat) returns (tr: seq<Step>)
    requires Owned(u) && SizesOk(datas) && |keys| == |datas| && pos != [] && InRange(pos, |keys|)
    requires mode.strict ==> SizesFit(u.space.alloc, datas, pos) && DistinctOver(keys, pos)
                             && forall i :: 0 <= i < |pos| ==> keys[pos[i]] !in u.space.index.recs
    requires mode.timed ==> LaddersTimed(pos, env.ladders, lo, hi)
    ensures Reaches(u, cfg, tr, PutNew(u, cfg, keys, datas, pos, env).0, mode, lo, hi)
  {
    var (sp, places) := BatchPlace(u.space, cfg, datas, pos, env.ladders);
    var items := Items(pos, places);
    ItemsInRange(pos, places, |keys|);
    ItemOffsetsFound(pos, places);
    BatchPlacedWell(u.space, u.inflight + u.leaked, cfg, datas, pos, env.ladders);
    if mode.strict { ItemsAreNew(u, keys, pos, sp, places); }
    var h := InHand(u, sp, Found(places));
    assert h.inflight + h.leaked == u.inflight + u.leaked + multiset(Found(places));
    tr := BatchPlaceRun(u, cfg, datas, pos, env.ladders, mode, lo, hi);
    var b := BatchStoreRun(h, cfg, keys, datas, items, env, mode, hi);
    ReachesThen(u, cfg, tr, h, b, BatchStore(h, cfg, keys, datas, items, env).0, mode, lo, hi, hi);
    tr := tr + b;
  }
}
