/** What a client can know from the answers of the store: which bytes it last stored under each
    key. The store's own history agrees with it. */
module StoreHistory {
  import opened Base
  import opened SlotAllocation
  import opened MetaIndex
  import opened StoreSpace
  import opened StoreOps
  import opened StoreProgress
  import opened StoreSteps
  import opened StoreTraces
  import opened StoreBatches

  /** The answer that says the bytes were stored, rather than found there already. */
  predicate Stored(r: PutResult) { r.status == Ok && r.allocSize > 0 }

  /** The bytes last stored under each key, going by the first `n` answers of a batch. */
  function Noted(m: map<Key, seq<byte>>, keys: seq<Key>, datas: seq<seq<byte>>, rs: seq<PutResult>,
                 n: nat): map<Key, seq<byte>>
    requires n <= |keys| == |datas| == |rs|
  {
    if n == 0 then m
    else
      var before := Noted(m, keys, datas, rs, n - 1);
      if Stored(rs[n - 1]) then before[keys[n - 1] := datas[n - 1]] else before
  }

  // ---------- one Put ----------

  lemma PutNotes(w: World, cfg: Config, key: Key, data: seq<byte>, env: PutEnv)
    requires Owned(w) && |data| < U32
    ensures
      var (v, r) := PutOp(w, cfg, key, data, env);
      && v.inflight == w.inflight
      && v.written == if Stored(r) then w.written[key := data] else w.written
  {
    if !Committed(w.space.index, key) {
      var place := PlaceSpec(w.space, |data|, cfg.grace, env.ladder);
      PlaceConserves(w.space, w.inflight + w.leaked, |data|, cfg.grace, env.ladder);
      PutInHalves(w, cfg, key, data, env);
      if place.1.Some? {
        HeldNotes(Holding(w, place), cfg, place.1.value, key, data, env);
        GivenBack(w.inflight, place.1.value);
      }
    }
  }

  lemma HeldNotes(h: World, cfg: Config, off: nat, key: Key, data: seq<byte>, env: PutEnv)
    requires MetaIndex.Wf(h.space.index)
    ensures
      var v := PutHeld(h, cfg, off, key, data, env);
      && v.inflight == h.inflight - multiset{off}
      && v.written == if WriteSpec(h.disk, off, data, OfWrite(data, env.write)).1 == Ok then h.written[key := data]
                      else h.written
  {
  }

  lemma GivenBack(m: multiset<nat>, off: nat)
    ensures m + multiset{off} - multiset{off} == m
  {
  }

  // ---------- the items of a batch and its answers ----------

  ghost predicate Increasing(pos: seq<nat>) {
    forall i, j :: 0 <= i < j < |pos| ==> pos[i] < pos[j]
  }

  lemma {:induction false} NeededIncreasing(s: IndexState, keys: seq<Key>, n: nat)
    requires n <= |keys|
    ensures Increasing(Needed(s, keys, n))
  {
    if n > 0 {
      NeededIncreasing(s, keys, n - 1);
      NeededInRange(s, keys, n - 1);
    }
  }

  ghost predicate ItemAt(items: seq<Item>, i: nat) {
    exists a :: 0 <= a < |items| && items[a].pos == i
  }

  /** There is an item for exactly the positions that were given a slot. */
  lemma {:induction false} ItemsAnswer(pos: seq<nat>, places: seq<Option<nat>>, slot: nat, i: nat)
    requires |pos| == |places| && Increasing(pos)
    ensures Stored(ResultAt(pos, places, slot, i)) <==> slot > 0 && ItemAt(Items(pos, places), i)
    decreases |pos|
  {
    if pos != [] {
      var tail, items := Items(pos[1..], places[1..]), Items(pos, places);
      var head := |items| - |tail|;
      forall a | 0 <= a < |tail| ensures items[a + head] == tail[a] && tail[a].pos != pos[0] {
        ItemsFrom(pos[1..], places[1..], a);
      }
      if i == pos[0] {
        if places[0].Some? { assert items[0].pos == i; }
        forall a | 0 <= a < |items| && places[0].None? ensures items[a].pos != i {
          assert items[a] == tail[a];
        }
      } else {
        ItemsAnswer(pos[1..], places[1..], slot, i);
        forall a | 0 <= a < |items| && items[a].pos == i ensures ItemAt(tail, i) {
          assert items[a] == tail[a - head];
        }
        forall a | 0 <= a < |tail| && tail[a].pos == i ensures ItemAt(items, i) {
          assert items[a + head] == tail[a];
        }
      }
    }
  }

  lemma {:induction false} ItemsFrom(pos: seq<nat>, places: seq<Option<nat>>, a: nat)
    requires |pos| == |places| && a < |Items(pos, places)|
    ensures exists j :: 0 <= j < |pos| && pos[j] == Items(pos, places)[a].pos
    decreases |pos|
  {
    var tail, items := Items(pos[1..], places[1..]), Items(pos, places);
    if a >= |items| - |tail| {
      ItemsFrom(pos[1..], places[1..], a - (|items| - |tail|));
      var j :| 0 <= j < |pos[1..]| && pos[1..][j] == tail[a - (|items| - |tail|)].pos;
      assert pos[j + 1] == items[a].pos;
    }
  }

  lemma {:induction false} ItemsIncreasing(pos: seq<nat>, places: seq<Option<nat>>)
    requires |pos| == |places| && Increasing(pos)
    ensures forall a, b :: 0 <= a < b < |Items(pos, places)| ==> Items(pos, places)[a].pos < Items(pos, places)[b].pos
    decreases |pos|
  {
    if pos != [] {
      ItemsIncreasing(pos[1..], places[1..]);
      var tail, items := Items(pos[1..], places[1..]), Items(pos, places);
      if places[0].Some? {
        forall a, b | 0 <= a < b < |items| ensures items[a].pos < items[b].pos {
          assert items[b] == tail[b - 1];
          ItemsFrom(pos[1..], places[1..], b - 1);
        }
      }
    }
  }

  /** The answers of a batch so far: those of the positions `pos`, and `Ok` without a slot for
      the others. */
  function Answers(n: nat, pos: seq<nat>, places: seq<Option<nat>>, slot: nat): seq<PutResult>
    requires |pos| == |places|
  {
    seq(n, i requires 0 <= i < n => ResultAt(pos, places, slot, i))
  }

  ghost predicate AreAnswers(rs: seq<PutResult>, n: nat, pos: seq<nat>, places: seq<Option<nat>>, slot: nat)
    requires |pos| == |places|
  {
    rs == Answers(n, pos, places, slot)
  }

  lemma {:induction false} ResultAtSnoc(pos: seq<nat>, places: seq<Option<nat>>, slot: nat, p: nat, x: Option<nat>,
                                        i: nat)
    requires |pos| == |places| && p !in pos
    ensures ResultAt(pos + [p], places + [x], slot, i)
      == if i == p then (if x.Some? then PutResult(Ok, x.value, slot) else PutResult(NoSpace, 0, 0))
        else ResultAt(pos, places, slot, i)
    decreases |pos|
  {
    if pos != [] {
      assert (pos + [p])[1..] == pos[1..] + [p] && (places + [x])[1..] == places[1..] + [x];
      assert pos[0] in pos && forall q :: q in pos[1..] ==> q in pos;
      ResultAtSnoc(pos[1..], places[1..], slot, p, x, i);
    }
  }

  /** One more answer. */
  lemma AnswersSnoc(n: nat, pos: seq<nat>, places: seq<Option<nat>>, slot: nat, p: nat, x: Option<nat>)
    requires |pos| == |places| && p !in pos && p < n
    ensures Answers(n, pos + [p], places + [x], slot)
      == Answers(n, pos, places, slot)[p := if x.Some? then PutResult(Ok, x.value, slot) else PutResult(NoSpace, 0, 0)]
  {
    forall i | 0 <= i < n
      ensures Answers(n, pos + [p], places + [x], slot)[i]
        == Answers(n, pos, places, slot)[p := if x.Some? then PutResult(Ok, x.value, slot)
                                         else PutResult(NoSpace, 0, 0)][i]
    {
      ResultAtSnoc(pos, places, slot, p, x, i);
    }
  }

  /** While nothing was found the slot size makes no difference. */
  lemma {:induction false} NoneFound(pos: seq<nat>, places: seq<Option<nat>>, s1: nat, s2: nat, i: nat)
    requires |pos| == |places| && Found(places) == []
    ensures ResultAt(pos, places, s1, i) == ResultAt(pos, places, s2, i)
    decreases |pos|
  {
    if pos != [] { NoneFound(pos[1..], places[1..], s1, s2, i); }
  }

  /** An item is answered with its own slot. */
  lemma {:induction false} ItemAnswer(pos: seq<nat>, places: seq<Option<nat>>, slot: nat, a: nat)
    requires |pos| == |places| && Increasing(pos) && a < |Items(pos, places)|
    ensures
      var it := Items(pos, places)[a];
      ResultAt(pos, places, slot, it.pos) == PutResult(Ok, it.off, slot)
    decreases |pos|
  {
    var tail, items := Items(pos[1..], places[1..]), Items(pos, places);
    var head := |items| - |tail|;
    if a >= head {
      assert items[a] == tail[a - head];
      ItemsFrom(pos[1..], places[1..], a - head);
      ItemAnswer(pos[1..], places[1..], slot, a - head);
    }
  }

  // ---------- the last of several writes to a key ----------

  /** Position `i` holds the last stored answer for its key among the first `n`. */
  ghost predicate LastStoredAt(keys: seq<Key>, rs: seq<PutResult>, n: nat, i: nat)
    requires n <= |keys| == |rs|
  {
    i < n && Stored(rs[i]) && forall j :: i < j < n && Stored(rs[j]) ==> keys[j] != keys[i]
  }

  lemma {:induction false} NotedLast(m: map<Key, seq<byte>>, keys: seq<Key>, datas: seq<seq<byte>>, rs: seq<PutResult>,
                                     n: nat, i: nat)
    requires n <= |keys| == |datas| == |rs| && LastStoredAt(keys, rs, n, i)
    ensures keys[i] in Noted(m, keys, datas, rs, n) && Noted(m, keys, datas, rs, n)[keys[i]] == datas[i]
  {
    if i < n - 1 { NotedLast(m, keys, datas, rs, n - 1, i); }
  }

  lemma {:induction false} NotedElse(m: map<Key, seq<byte>>, keys: seq<Key>, datas: seq<seq<byte>>, rs: seq<PutResult>,
                                     n: nat, k: Key)
    requires n <= |keys| == |datas| == |rs|
    ensures (exists i: nat :: LastStoredAt(keys, rs, n, i) && keys[i] == k)
      || ((k in Noted(m, keys, datas, rs, n) <==> k in m) && (k in m ==> Noted(m, keys, datas, rs, n)[k] == m[k])
          && forall i :: 0 <= i < n && Stored(rs[i]) ==> keys[i] != k)
  {
    if n > 0 {
      NotedElse(m, keys, datas, rs, n - 1, k);
      if Stored(rs[n - 1]) && keys[n - 1] == k {
        assert LastStoredAt(keys, rs, n, n - 1);
      } else if i: nat :| LastStoredAt(keys, rs, n - 1, i) && keys[i] == k {
        assert LastStoredAt(keys, rs, n, i);
      }
    }
  }

  ghost predicate LastItem(keys: seq<Key>, items: seq<Item>, a: nat)
    requires ItemsIn(items, |keys|)
  {
    a < |items| && forall b :: a < b < |items| ==> keys[items[b].pos] != keys[items[a].pos]
  }

  ghost predicate Bound(m: map<Key, seq<byte>>, k: Key, v: seq<byte>) { k in m && m[k] == v }

  /** The bytes written by a list of items, in order. */
  function WrittenBy(m: map<Key, seq<byte>>, keys: seq<Key>, datas: seq<seq<byte>>, items: seq<Item>)
    : map<Key, seq<byte>>
    requires |keys| == |datas| && ItemsIn(items, |keys|)
    decreases |items|
  {
    if items == [] then m
    else
      var n := |items| - 1;
      WrittenBy(m, keys, datas, items[..n])[keys[items[n].pos] := datas[items[n].pos]]
  }

  lemma {:induction false} IndexingWrites(w: World, keys: seq<Key>, datas: seq<seq<byte>>, slot: nat, commit: nat,
                                          items: seq<Item>)
    requires |keys| == |datas| && ItemsIn(items, |keys|)
    ensures IndexEach(w, keys, datas, slot, commit, items).written == WrittenBy(w.written, keys, datas, items)
    decreases |items|
  {
    if items != [] { IndexingWrites(w, keys, datas, slot, commit, items[..|items| - 1]); }
  }

  lemma {:induction false} LastWritten(m: map<Key, seq<byte>>, keys: seq<Key>, datas: seq<seq<byte>>, items: seq<Item>,
                                       a: nat)
    requires |keys| == |datas| && ItemsIn(items, |keys|) && LastItem(keys, items, a)
    ensures Bound(WrittenBy(m, keys, datas, items), keys[items[a].pos], datas[items[a].pos])
    decreases |items|
  {
    if a < |items| - 1 { LastWritten(m, keys, datas, items[..|items| - 1], a); }
  }

  lemma {:induction false} OthersNotWritten(m: map<Key, seq<byte>>, keys: seq<Key>, datas: seq<seq<byte>>,
                                            items: seq<Item>, k: Key)
    requires |keys| == |datas| && ItemsIn(items, |keys|) && !KeyAmong(keys, items, k)
    ensures
      var m' := WrittenBy(m, keys, datas, items);
      (k in m' <==> k in m) && (k in m' ==> m'[k] == m[k])
    decreases |items|
  {
    if items != [] {
      KeyAmongMore(keys, items, |items| - 1);
      OthersNotWritten(m, keys, datas, items[..|items| - 1], k);
    }
  }

  lemma LastItemWritten(w: World, keys: seq<Key>, datas: seq<seq<byte>>, slot: nat, commit: nat, items: seq<Item>,
                        a: nat)
    requires |keys| == |datas| && ItemsIn(items, |keys|) && LastItem(keys, items, a)
    ensures Bound(IndexEach(w, keys, datas, slot, commit, items).written, keys[items[a].pos], datas[items[a].pos])
  {
    IndexingWrites(w, keys, datas, slot, commit, items);
    LastWritten(w.written, keys, datas, items, a);
  }

  lemma OthersUnwritten(w: World, keys: seq<Key>, datas: seq<seq<byte>>, slot: nat, commit: nat, items: seq<Item>,
                        k: Key)
    requires |keys| == |datas| && ItemsIn(items, |keys|) && !KeyAmong(keys, items, k)
    ensures
      var m := IndexEach(w, keys, datas, slot, commit, items).written;
      (k in m <==> k in w.written) && (k in m ==> m[k] == w.written[k])
  {
    IndexingWrites(w, keys, datas, slot, commit, items);
    OthersNotWritten(w.written, keys, datas, items, k);
  }

  /** Items and stored answers name the same positions, so both give the same last write. */
  lemma SameNote(w: World, keys: seq<Key>, datas: seq<seq<byte>>, slot: nat, commit: nat, items: seq<Item>,
                 rs: seq<PutResult>, k: Key)
    requires |keys| == |datas| == |rs| && ItemsIn(items, |keys|)
    requires forall i: nat :: i < |keys| ==> (Stored(rs[i]) <==> ItemAt(items, i))
    requires forall a, b :: 0 <= a < b < |items| ==> items[a].pos < items[b].pos
    ensures
      var m, u := IndexEach(w, keys, datas, slot, commit, items).written, Noted(w.written, keys, datas, rs, |keys|);
      (k in m <==> k in u) && (k in m ==> m[k] == u[k])
  {
    NotedElse(w.written, keys, datas, rs, |keys|, k);
    if i: nat :| LastStoredAt(keys, rs, |keys|, i) && keys[i] == k {
      NotedLast(w.written, keys, datas, rs, |keys|, i);
      var a :| 0 <= a < |items| && items[a].pos == i;
      forall b | a < b < |items| ensures keys[items[b].pos] != k {
        assert ItemAt(items, items[b].pos);
      }
      LastItemWritten(w, keys, datas, slot, commit, items, a);
    } else {
      forall a | 0 <= a < |items| ensures keys[items[a].pos] != k {
        assert ItemAt(items, items[a].pos);
      }
      OthersUnwritten(w, keys, datas, slot, commit, items, k);
    }
  }

  // ---------- a batch ----------

  lemma StoreNotes(h: World, cfg: Config, keys: seq<Key>, datas: seq<seq<byte>>, items: seq<Item>, env: BatchEnv,
                   rs: seq<PutResult>)
    requires |keys| == |datas| == |rs| && ItemsIn(items, |keys|) && MetaIndex.Wf(h.space.index)
    requires
      var s := BatchStore(h, cfg, keys, datas, items, env).1;
      forall i: nat :: i < |keys| ==> (Stored(rs[i]) <==> s == Ok && ItemAt(items, i))
    requires forall a, b :: 0 <= a < b < |items| ==> items[a].pos < items[b].pos
    ensures
      var v := BatchStore(h, cfg, keys, datas, items, env).0;
      && v.inflight == h.inflight - multiset(ItemOffsets(items))
      && v.written == Noted(h.written, keys, datas, rs, |keys|)
  {
    var (disk, s) := WriteEach(h.disk, items, datas, env.writes);
    if s == Ok {
      var u, slot := h.(disk := disk), h.space.alloc.slotSize;
      IndexEachShape(u, keys, datas, slot, env.commit, items);
      AllNotes(u, keys, datas, slot, env.commit, items, rs);
    } else {
      NothingNoted(h.written, keys, datas, rs, |keys|);
    }
  }

  lemma AllNotes(u: World, keys: seq<Key>, datas: seq<seq<byte>>, slot: nat, commit: nat, items: seq<Item>,
                 rs: seq<PutResult>)
    requires |keys| == |datas| == |rs| && ItemsIn(items, |keys|)
    requires forall i: nat :: i < |keys| ==> (Stored(rs[i]) <==> ItemAt(items, i))
    requires forall a, b :: 0 <= a < b < |items| ==> items[a].pos < items[b].pos
    ensures IndexEach(u, keys, datas, slot, commit, items).written == Noted(u.written, keys, datas, rs, |keys|)
  {
    var m, n := IndexEach(u, keys, datas, slot, commit, items).written, Noted(u.written, keys, datas, rs, |keys|);
    forall k ensures (k in m <==> k in n) && (k in m ==> m[k] == n[k]) {
      SameNote(u, keys, datas, slot, commit, items, rs, k);
    }
  }

  lemma {:induction false} NothingNoted(m: map<Key, seq<byte>>, keys: seq<Key>, datas: seq<seq<byte>>,
                                        rs: seq<PutResult>, n: nat)
    requires n <= |keys| == |datas| == |rs| && forall i :: 0 <= i < n ==> !Stored(rs[i])
    ensures Noted(m, keys, datas, rs, n) == m
  {
    if n > 0 { NothingNoted(m, keys, datas, rs, n - 1); }
  }

  /** After a batch the store remembers for each key the bytes of the last position answered as
      stored, and holds no slot of its own any more. */
  lemma BatchNotes(w: World, cfg: Config, keys: seq<Key>, datas: seq<seq<byte>>, env: BatchEnv)
    requires Owned(w) && SizesOk(datas)
    ensures
      var (v, rs) := BatchPutOp(w, cfg, keys, datas, env);
      && |rs| == |keys| && v.inflight == w.inflight
      && v.written == if |keys| == |datas| then Noted(w.written, keys, datas, rs, |keys|) else w.written
  {
    var rs := BatchPutOp(w, cfg, keys, datas, env).1;
    var pos := Needed(w.space.index, keys, |keys|);
    if |keys| == |datas| {
      if pos == [] {
        NothingNoted(w.written, keys, datas, rs, |keys|);
      } else {
        NeededInRange(w.space.index, keys, |keys|);
        NeededIncreasing(w.space.index, keys, |keys|);
        TouchAllConserves(w.space, w.inflight + w.leaked, keys, env.lookup);
        PutNewNotes(w.(space := w.space.(index := TouchAll(w.space.index, keys, env.lookup))), cfg, keys, datas, pos,
                    env);
      }
    }
  }

  lemma PutNewNotes(u: World, cfg: Config, keys: seq<Key>, datas: seq<seq<byte>>, pos: seq<nat>, env: BatchEnv)
    requires Owned(u) && SizesOk(datas) && |keys| == |datas| && pos != [] && InRange(pos, |keys|) && Increasing(pos)
    ensures
      var (v, rs) := PutNew(u, cfg, keys, datas, pos, env);
      |rs| == |keys| && v.inflight == u.inflight && v.written == Noted(u.written, keys, datas, rs, |keys|)
  {
    var (sp, places) := BatchPlace(u.space, cfg, datas, pos, env.ladders);
    BatchPlacedWell(u.space, u.inflight + u.leaked, cfg, datas, pos, env.ladders);
    var items := Items(pos, places);
    ItemsInRange(pos, places, |keys|);
    ItemsIncreasing(pos, places);
    var h := u.(space := sp, inflight := u.inflight + multiset(ItemOffsets(items)));
    var rs := PutNew(u, cfg, keys, datas, pos, env).1;
    AnswersMatch(sp, pos, places, items, BatchStore(h, cfg, keys, datas, items, env).1, rs);
    StoreNotes(h, cfg, keys, datas, items, env, rs);
    assert h.inflight - multiset(ItemOffsets(items)) == u.inflight;
  }

  lemma AnswersMatch(sp: Space, pos: seq<nat>, places: seq<Option<nat>>, items: seq<Item>, s: Status,
                     rs: seq<PutResult>)
    requires |pos| == |places| && Increasing(pos) && items == Items(pos, places) && SlotAllocation.Wf(sp.alloc)
    requires Found(places) != [] ==> sp.alloc.initialized
    requires forall i: nat :: i < |rs| ==> rs[i] == BatchResult(pos, places, sp.alloc.slotSize, s, i)
    ensures forall i: nat :: i < |rs| ==> (Stored(rs[i]) <==> s == Ok && ItemAt(items, i))
  {
    ItemOffsetsFound(pos, places);
    assert |ItemOffsets(items)| == |items|;
    forall i: nat | i < |rs| ensures Stored(rs[i]) <==> s == Ok && ItemAt(items, i) {
      ItemsAnswer(pos, places, sp.alloc.slotSize, i);
    }
  }
}
