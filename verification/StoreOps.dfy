/** What each operation of the store does (src/store/falconkv_store.cpp), as functions on the
    store's whole state. Clock readings, RPC fates and write outcomes are arguments. */
module StoreOps {
  import opened Base
  import opened SlotAllocation
  import opened MetaIndex
  import opened PendingQueue
  import opened MetaTable
  import opened MetaLink
  import opened StoreSpace
  import opened Eviction

  datatype Config = Config(storeId: nat, grace: nat)

  /** The data file. */
  type Disk = seq<byte>

  /** The store, and what the operation under way holds: `inflight` are its slots. `leaked` and
      `written` are history: slots whose record was overwritten in the index, and the bytes the
      current record of each key was put with. */
  datatype World = World(
    space: Space, disk: Disk, inflight: multiset<nat>, leaked: multiset<nat>, written: map<Key, seq<byte>>)

  // ---------- the data file ----------

  function Zeros(n: nat): seq<byte> { seq(n, _ => 0) }

  /** `pwrite`: past the end the file grows, and a gap reads as zeros, as the unwritten part of
      the preallocated file does. */
  function PWrite(d: Disk, off: nat, data: seq<byte>): Disk {
    var e := if off > |d| then d + Zeros(off - |d|) else d;
    e[..off] + data + if off + |data| <= |e| then e[off + |data|..] else []
  }

  /** `pread` of exactly `n` bytes; a short read is a failure. */
  function PRead(d: Disk, off: nat, n: nat): Option<seq<byte>> {
    if off + n <= |d| then Some(d[off..off + n]) else None
  }

  /** A shorter read gives the front of a longer one. */
  lemma FrontOfRead(d: Disk, off: nat, m: nat, n: nat)
    requires m <= n && PRead(d, off, n).Some?
    ensures |PRead(d, off, n).value| == n && PRead(d, off, m) == Some(PRead(d, off, n).value[..m])
  {
    assert d[off..off + n][..m] == d[off..off + m];
  }

  /** A write succeeds whole, fails leaving some other bytes inside its own range, or is refused
      before it reaches the file, as `Write` refuses an item without bytes. */
  datatype WriteOutcome = Written | Failed(damage: seq<byte>) | Refused

  /** One item of a batch. Through the thread pool an item without bytes is `Refused`; io_uring
      takes it. */
  function WriteSpec(d: Disk, off: nat, data: seq<byte>, w: WriteOutcome): (Disk, Status) {
    match w
    case Written => (PWrite(d, off, data), Ok)
    case Failed(damage) => (PWrite(d, off, damage[..Min(|damage|, |data|)]), IOError)
    case Refused => (d, InvalidArg)
  }

  /** What `Write` makes of an outcome. */
  function OfWrite(data: seq<byte>, w: WriteOutcome): WriteOutcome {
    if data == [] then Refused else w
  }

  lemma WriteOk(d: Disk, off: nat, data: seq<byte>)
    ensures PRead(PWrite(d, off, data), off, |data|) == Some(data)
    ensures |PWrite(d, off, data)| >= |d|
  {
  }

  /** A write past the end of the file leaves zeros in between. */
  lemma GapReadsZero(d: Disk, off: nat, data: seq<byte>, i: nat)
    requires |d| <= i < off
    ensures PRead(PWrite(d, off, data), i, 1) == Some([0])
  {
    var e := PWrite(d, off, data);
    assert e[i..i + 1] == [e[i]];
  }

  lemma WriteElsewhere(d: Disk, off: nat, data: seq<byte>, o: nat, n: nat)
    requires o + n <= |d| && (o + n <= off || off + |data| <= o)
    ensures PRead(PWrite(d, off, data), o, n) == PRead(d, o, n)
  {
    var e := PWrite(d, off, data);
    assert forall i :: o <= i < o + n ==> e[i] == d[i];
    assert e[o..o + n] == d[o..o + n];
  }

  /** A write, failed or not, changes nothing outside its range and never shortens the file. */
  lemma WriteSpecElsewhere(d: Disk, off: nat, data: seq<byte>, w: WriteOutcome, o: nat, n: nat)
    requires o + n <= |d| && (o + n <= off || off + |data| <= o)
    ensures PRead(WriteSpec(d, off, data, w).0, o, n) == PRead(d, o, n)
    ensures |WriteSpec(d, off, data, w).0| >= |d|
  {
    match w
    case Written => WriteElsewhere(d, off, data, o, n); WriteOk(d, off, data);
    case Failed(damage) =>
      WriteElsewhere(d, off, damage[..Min(|damage|, |data|)], o, n);
      WriteOk(d, off, damage[..Min(|damage|, |data|)]);
    case Refused =>
  }

  // ---------- finding a slot: the reclaim ladder ----------

  /** What one descent of the ladder meets: the clock at its two flushes, and the rounds of its
      forced eviction. */
  datatype LadderEnv = LadderEnv(flush1: nat, rounds: seq<Round>, flush2: nat)

  predicate LadderEnvOk(env: LadderEnv) { |env.rounds| == MAX_ROUNDS }

  type Ladder = e: LadderEnv | LadderEnvOk(e)
    witness LadderEnv(0, seq(MAX_ROUNDS, _ => Round(NotDelivered, 0)), 0)

  /** At least the request, and a twentieth of the capacity cut to 32 bits. */
  function EvictTarget(a: AllocState, size: nat): nat { Max(size, (a.totalBytes / 20) % U32) }

  ghost function Allocate(sp: Space, size: nat): (Space, Option<nat>) {
    var (a, off) := AllocSpec(sp.alloc, size);
    (sp.(alloc := a), off)
  }

  /** Level 1: flush what has expired. */
  ghost function Level1(sp: Space, size: nat, grace: nat, env: Ladder): (Space, Option<nat>) {
    Allocate(FlushExpiredSpec(sp, grace, env.flush1), size)
  }

  /** Level 2: force evictions and flush again. */
  ghost function Level2(sp: Space, size: nat, grace: nat, env: Ladder): (Space, Option<nat>)
    requires MetaIndex.Wf(sp.index)
  {
    Allocate(FlushExpiredSpec(ForceEvictSpec(sp, EvictTarget(sp.alloc, size), env.rounds).0, grace, env.flush2), size)
  }

  /** Level 3: flush everything, ignoring the grace period. */
  ghost function Level3(sp: Space, size: nat): (Space, Option<nat>) {
    Allocate(FlushAllSpec(sp), size)
  }

  ghost function LadderSpec(sp: Space, size: nat, grace: nat, env: Ladder): (Space, Option<nat>)
    requires MetaIndex.Wf(sp.index)
  {
    var r1 := Level1(sp, size, grace, env);
    if r1.1.Some? then r1
    else
      var r2 := Level2(r1.0, size, grace, env);
      if r2.1.Some? then r2 else Level3(r2.0, size)
  }

  /** `Put`'s allocation: directly, or down the ladder. */
  ghost function PlaceSpec(sp: Space, size: nat, grace: nat, env: Ladder): (Space, Option<nat>)
    requires MetaIndex.Wf(sp.index)
  {
    var r := Allocate(sp, size);
    if r.1.Some? then r else LadderSpec(r.0, size, grace, env)
  }

  // ---------- Put ----------

  datatype PutResult = PutResult(status: Status, offset: nat, allocSize: nat)

  datatype PutEnv = PutEnv(lookup: nat, ladder: Ladder, write: WriteOutcome, commit: nat, rpc1: Rpc, rpc2: Rpc)

  /** A record enters the index: its slot leaves the operation's hands, and the slot of a record
      it replaces is lost. */
  function IndexRecord(w: World, r: Record, data: seq<byte>): World {
    var recs := w.space.index.recs;
    w.(space := w.space.(index := PutSpec(w.space.index, r.key, r)),
       inflight := w.inflight - multiset{r.offset},
       leaked := w.leaked + if r.key in recs then multiset{recs[r.key].offset} else multiset{},
       written := w.written[r.key := data])
  }

  ghost function PutOp(w: World, cfg: Config, key: Key, data: seq<byte>, env: PutEnv): (World, PutResult)
    requires MetaIndex.Wf(w.space.index)
  {
    if Committed(w.space.index, key) then
      (w.(space := w.space.(index := TouchSpec(w.space.index, key, env.lookup))), PutResult(Ok, 0, 0))
    else
      var (sp, place) := PlaceSpec(w.space, |data|, cfg.grace, env.ladder);
      if place.None? then (w.(space := sp), PutResult(NoSpace, 0, 0))
      else
        var (off, slot) := (place.value, sp.alloc.slotSize);
        var (disk, s) := WriteSpec(w.disk, off, data, OfWrite(data, env.write));
        if s != Ok then
          (w.(space := sp.(alloc := FreeSpec(sp.alloc, off)), disk := disk), PutResult(s, off, slot))
        else
          var r := Record(key, off, |data|, slot, 1, env.commit);
          var held := w.(space := sp, disk := disk, inflight := w.inflight + multiset{off});
          var indexed := IndexRecord(held, r, data);
          var link := SyncCommitSpec(indexed.space.link, cfg.storeId, [r], env.rpc1, env.rpc2).0;
          (indexed.(space := indexed.space.(link := link)), PutResult(Ok, off, slot))
  }

  // ---------- Get, Contains, Remove, background ticks ----------

  datatype GetResult = GetResult(status: Status, bytes: seq<byte>)

  function GetOp(w: World, key: Key, bufferSize: nat, readOk: bool, now: nat): (World, GetResult) {
    var r := GetSpec(w.space.index, key, now);
    var touched := w.(space := w.space.(index := TouchSpec(w.space.index, key, now)));
    if r.None? then (touched, GetResult(NotFound, []))
    else if bufferSize < r.value.size then (touched, GetResult(InvalidArg, []))
    else if r.value.size == 0 then (touched, GetResult(InvalidArg, []))
    else
      var bytes := PRead(w.disk, r.value.offset, r.value.size);
      if !readOk || bytes.None? then (touched, GetResult(IOError, [])) else (touched, GetResult(Ok, bytes.value))
  }

  ghost function RemoveOp(w: World, key: Key, rpc: Rpc, now: nat): (World, Status) {
    var (l, s) := SyncRemoveSpec(w.space.link, [key], rpc);
    var told := w.(space := w.space.(link := l));
    if s != Ok then (told, s)
    else if key !in w.space.index.recs then (told, NotFound)
    else (told.(space := Evicted(told.space, key, now)), Ok)
  }

  /** `Remove` leaves the records of other stores alone exactly if it does not reach Meta or the key
      is not committed by another store, whether or not this store holds it. */
  lemma RemoveSparesOthersIff(w: World, storeId: nat, key: Key, rpc: Rpc, now: nat)
    ensures
      var l := w.space.link;
      OthersKept(l.table, RemoveOp(w, key, rpc, now).0.space.link.table, storeId)
      <==> !l.connected || rpc.NotDelivered? || (key in l.table ==> l.table[key].storeId == storeId)
  {
    SyncRemoveSparesOthersIff(w.space.link, storeId, [key], rpc);
    assert OwnKeys(w.space.link.table, storeId, [key])
      <==> (key in w.space.link.table ==> w.space.link.table[key].storeId == storeId) by {
      assert key in [key];
    }
  }

  // ---------- BatchPut ----------

  datatype BatchEnv = BatchEnv(lookup: nat, ladders: nat -> Ladder, writes: nat -> WriteOutcome, commit: nat)

  /** The positions below `n` whose key is not in the index. */
  function Needed(s: IndexState, keys: seq<Key>, n: nat): seq<nat>
    requires n <= |keys|
  {
    if n == 0 then []
    else
      var m := Needed(s, keys, n - 1);
      if Committed(s, keys[n - 1]) then m else m + [n - 1]
  }

  /** The positions that go down the ladder, one after another; the answers in order. */
  ghost function LadderEach(sp: Space, datas: seq<seq<byte>>, pos: seq<nat>, grace: nat,
                            ladders: nat -> Ladder): (r: (Space, seq<Option<nat>>))
    requires MetaIndex.Wf(sp.index)
    ensures |r.1| == |pos|
    decreases |pos|
  {
    if pos == [] then (sp, [])
    else
      var size := if pos[0] < |datas| then |datas[pos[0]]| else 0;
      var (t, off) := LadderSpec(sp, size, grace, ladders(pos[0]));
      LadderKeepsWf(sp, size, grace, ladders(pos[0]));
      var (u, rest) := LadderEach(t, datas, pos[1..], grace, ladders);
      (u, [off] + rest)
  }

  /** An item to write: its position in the batch and its offset. */
  datatype Item = Item(pos: nat, off: nat)

  function Items(pos: seq<nat>, places: seq<Option<nat>>): seq<Item>
    requires |pos| == |places|
    decreases |pos|
  {
    if pos == [] then []
    else
      var rest := Items(pos[1..], places[1..]);
      if places[0].Some? then [Item(pos[0], places[0].value)] + rest else rest
  }

  /** All writes are carried out; the status is that of the last failure. */
  function WriteEach(d: Disk, items: seq<Item>, datas: seq<seq<byte>>, writes: nat -> WriteOutcome): (Disk, Status)
    requires ItemsIn(items, |datas|)
    decreases |items|
  {
    if items == [] then (d, Ok)
    else
      var n := |items| - 1;
      var (e, s) := WriteEach(d, items[..n], datas, writes);
      var (f, s') := WriteSpec(e, items[n].off, datas[items[n].pos], writes(items[n].pos));
      (f, if s' != Ok then s' else s)
  }

  function RecordOf(keys: seq<Key>, datas: seq<seq<byte>>, slot: nat, commit: nat, it: Item): Record
    requires it.pos < |keys| == |datas|
  {
    Record(keys[it.pos], it.off, |datas[it.pos]|, slot, 1, commit)
  }

  function IndexEach(w: World, keys: seq<Key>, datas: seq<seq<byte>>, slot: nat, commit: nat, items: seq<Item>): World
    requires |keys| == |datas| && ItemsIn(items, |keys|)
    decreases |items|
  {
    if items == [] then w
    else
      var n := |items| - 1;
      var r := RecordOf(keys, datas, slot, commit, items[n]);
      IndexRecord(IndexEach(w, keys, datas, slot, commit, items[..n]), r, datas[items[n].pos])
  }

  function RecordsOf(keys: seq<Key>, datas: seq<seq<byte>>, slot: nat, commit: nat, items: seq<Item>): seq<Record>
    requires |keys| == |datas| && ItemsIn(items, |keys|)
  {
    seq(|items|, i requires 0 <= i < |items| => RecordOf(keys, datas, slot, commit, items[i]))
  }

  function ItemOffsets(items: seq<Item>): seq<nat> {
    seq(|items|, i requires 0 <= i < |items| => items[i].off)
  }

  /** The result at position `i`: present already, placed, or out of space. */
  function ResultAt(pos: seq<nat>, places: seq<Option<nat>>, slot: nat, i: nat): PutResult
    requires |pos| == |places|
    decreases |pos|
  {
    if pos == [] then PutResult(Ok, 0, 0)
    else if pos[0] == i then
      if places[0].Some? then PutResult(Ok, places[0].value, slot) else PutResult(NoSpace, 0, 0)
    else ResultAt(pos[1..], places[1..], slot, i)
  }

  ghost predicate ItemsIn(items: seq<Item>, n: nat) {
    forall i :: 0 <= i < |items| ==> items[i].pos < n
  }

  lemma {:induction false} ItemsInRange(pos: seq<nat>, places: seq<Option<nat>>, n: nat)
    requires |pos| == |places| && forall i :: 0 <= i < |pos| ==> pos[i] < n
    ensures ItemsIn(Items(pos, places), n)
    decreases |pos|
  {
    if pos != [] { ItemsInRange(pos[1..], places[1..], n); }
  }

  lemma {:induction false} NeededInRange(s: IndexState, keys: seq<Key>, n: nat)
    requires n <= |keys|
    ensures forall i :: 0 <= i < |Needed(s, keys, n)| ==> Needed(s, keys, n)[i] < n
  {
    if n > 0 { NeededInRange(s, keys, n - 1); }
  }

  lemma {:induction false} RepeatAllocLength(a: AllocState, size: nat, count: nat)
    ensures |RepeatAlloc(a, size, count).1| <= count
    decreases count
  {
    if count > 0 {
      var (t, off) := AllocSpec(a, size);
      if off.Some? { RepeatAllocLength(t, size, count - 1); }
    }
  }

  function Somes(offs: seq<nat>): seq<Option<nat>> {
    seq(|offs|, i requires 0 <= i < |offs| => Some(offs[i]))
  }

  /** Phase 1: the store after slots were found for the positions `pos`, and the slots. The
      batch allocation is asked for the 32-bit count of the positions. */
  ghost function BatchPlace(sp: Space, cfg: Config, datas: seq<seq<byte>>, pos: seq<nat>,
                            ladders: nat -> Ladder): (r: (Space, seq<Option<nat>>))
    requires MetaIndex.Wf(sp.index) && pos != [] && forall i :: 0 <= i < |pos| ==> pos[i] < |datas|
    ensures |r.1| == |pos|
  {
    var (a, offs) := RepeatAlloc(sp.alloc, |datas[pos[0]]|, Low32(|pos|));
    RepeatAllocLength(sp.alloc, |datas[pos[0]]|, Low32(|pos|));
    var (t, rest) := LadderEach(sp.(alloc := a), datas, pos[|offs|..], cfg.grace, ladders);
    (t, Somes(offs) + rest)
  }

  /** Phases 2 and 3: write every placed item; if all writes succeed index them and queue the
      commit, otherwise give every slot back. */
  ghost function BatchStore(w: World, cfg: Config, keys: seq<Key>, datas: seq<seq<byte>>, items: seq<Item>,
                            env: BatchEnv): (World, Status)
    requires |keys| == |datas| && ItemsIn(items, |keys|)
  {
    var (disk, s) := WriteEach(w.disk, items, datas, env.writes);
    var offs := ItemOffsets(items);
    if s != Ok then
      (w.(space := w.space.(alloc := FreeAll(w.space.alloc, offs)), disk := disk,
          inflight := w.inflight - multiset(offs)), s)
    else
      var slot := w.space.alloc.slotSize;
      var indexed := IndexEach(w.(disk := disk), keys, datas, slot, env.commit, items);
      var link := AsyncCommitSpec(indexed.space.link, cfg.storeId, RecordsOf(keys, datas, slot, env.commit, items));
      (indexed.(space := indexed.space.(link := link)), Ok)
  }

  /** The batch after its lookups, which left the positions `pos` to put. */
  ghost function PutNew(w: World, cfg: Config, keys: seq<Key>, datas: seq<seq<byte>>, pos: seq<nat>,
                        env: BatchEnv): (World, seq<PutResult>)
    requires MetaIndex.Wf(w.space.index) && |keys| == |datas|
    requires pos != [] && forall i :: 0 <= i < |pos| ==> pos[i] < |keys|
  {
    var (sp, places) := BatchPlace(w.space, cfg, datas, pos, env.ladders);
    var items := Items(pos, places);
    ItemsInRange(pos, places, |keys|);
    var held := w.(space := sp, inflight := w.inflight + multiset(ItemOffsets(items)));
    var (v, s) := BatchStore(held, cfg, keys, datas, items, env);
    (v, seq(|keys|, i requires 0 <= i < |keys| => BatchResult(pos, places, sp.alloc.slotSize, s, i)))
  }

  ghost function BatchPutOp(w: World, cfg: Config, keys: seq<Key>, datas: seq<seq<byte>>,
                            env: BatchEnv): (World, seq<PutResult>)
    requires MetaIndex.Wf(w.space.index)
  {
    if |keys| != |datas| then (w, seq(|keys|, _ => PutResult(InvalidArg, 0, 0)))
    else
      var touched := w.(space := w.space.(index := TouchAll(w.space.index, keys, env.lookup)));
      var pos := Needed(w.space.index, keys, |keys|);
      if pos == [] then (touched, seq(|keys|, _ => PutResult(Ok, 0, 0)))
      else
        TouchAllRecords(w.space.index, keys, env.lookup);
        NeededInRange(w.space.index, keys, |keys|);
        PutNew(touched, cfg, keys, datas, pos, env)
  }

  /** Position `i`'s result: a write failure fails every item that was written. */
  function BatchResult(pos: seq<nat>, places: seq<Option<nat>>, slot: nat, s: Status, i: nat): PutResult
    requires |pos| == |places|
  {
    var r := ResultAt(pos, places, slot, i);
    if s != Ok && r.status == Ok && r.allocSize > 0 then PutResult(s, 0, 0) else r
  }

  // ---------- the ladder keeps the index well formed ----------

  lemma {:induction false} ForceRoundsKeepsWf(sp: Space, needed: nat, total: nat, rounds: seq<Round>)
    requires MetaIndex.Wf(sp.index)
    ensures MetaIndex.Wf(ForceRounds(sp, needed, total, rounds).0.index)
    decreases |rounds|
  {
    if rounds != [] {
      var (t, sum, more) := ForceRound(sp, needed, total, rounds[0]);
      if more { ForceRoundsKeepsWf(t, needed, sum, rounds[1..]); }
    }
  }

  lemma LadderKeepsWf(sp: Space, size: nat, grace: nat, env: Ladder)
    requires MetaIndex.Wf(sp.index)
    ensures MetaIndex.Wf(LadderSpec(sp, size, grace, env).0.index)
  {
    var t := Level1(sp, size, grace, env).0;
    ForceRoundsKeepsWf(t, EvictTarget(t.alloc, size), 0, env.rounds);
  }

  lemma LadderNeverConnects(sp: Space, size: nat, grace: nat, env: Ladder)
    requires MetaIndex.Wf(sp.index)
    ensures LadderSpec(sp, size, grace, env).0.link.connected ==> sp.link.connected
  {
    var t := Level1(sp, size, grace, env).0;
    ForceRoundsLink(t, EvictTarget(t.alloc, size), 0, env.rounds);
  }

  // ---------- the ladder's progress ----------

  /** Forced eviction queues at least one slot, unless there is nothing to evict, nothing to
      reach, or Meta fails at once. */
  lemma ForceEvictQueues(sp: Space, needed: nat, rounds: seq<Round>)
    requires MetaIndex.Wf(sp.index) && |rounds| == MAX_ROUNDS
    ensures
      var t := ForceEvictSpec(sp, needed, rounds).0;
      if sp.index.lru == [] || needed == 0 || !RemoveSucceeds(sp.link.connected, rounds[0].rpc)
      then |t.queue.entries| == |sp.queue.entries| else |t.queue.entries| > |sp.queue.entries|
  {
    if needed > 0 {
      RoundEvicts(sp, needed, 0, rounds[0]);
      var (t, sum, more) := ForceRound(sp, needed, 0, rounds[0]);
      var n := Victims(sp.index, needed).0;
      RoundQueues(sp, if more then n else 0, t);
      if more { ForceRoundsQueue(t, needed, sum, rounds[1..]); }
    }
  }

  lemma RoundQueues(sp: Space, n: nat, t: Space)
    requires MetaIndex.Wf(sp.index) && n <= |sp.index.lru| && ColdestEvicted(sp, n, t)
    ensures |t.queue.entries| == |sp.queue.entries| + n
  {
    assert |OffsetsOf(t.queue.entries)| == |OffsetsOf(sp.queue.entries) + RecordOffsets(Coldest(sp.index, n))|;
  }

  lemma {:induction false} ForceRoundsQueue(sp: Space, needed: nat, total: nat, rounds: seq<Round>)
    requires MetaIndex.Wf(sp.index)
    ensures |ForceRounds(sp, needed, total, rounds).0.queue.entries| >= |sp.queue.entries|
    decreases |rounds|
  {
    if rounds != [] && total < needed {
      RoundEvicts(sp, needed, total, rounds[0]);
      var (t, sum, more) := ForceRound(sp, needed, total, rounds[0]);
      RoundQueues(sp, if more then Victims(sp.index, needed - total).0 else 0, t);
      if more { ForceRoundsQueue(t, needed, sum, rounds[1..]); }
    }
  }
}
