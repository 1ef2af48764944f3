/** The store's side of metadata synchronisation (src/store/meta_sync_client.cpp) over a lossy
    channel: a failed call may or may not have been carried out by Meta. */
module MetaLink {
  import opened Base
  import opened MetaIndex
  import opened MetaTable

  /** The fate of one call; `at` is Meta's clock when it ran. */
  datatype Rpc = Delivered(at: nat) | ReplyLost(at: nat) | NotDelivered

  datatype PendingCommit = PendingCommit(storeId: nat, records: seq<Record>)

  /** The client's state together with the table it talks to. `unannounced` is history: keys
      this store may have dropped without Meta forgetting them for good, because the removal
      was skipped while disconnected or because a queued commit can bring the key back. */
  datatype LinkState = LinkState(
    connected: bool, queue: seq<PendingCommit>, table: Table, stores: map<nat, StoreInfo>,
    unannounced: set<Key>)

  // ---------- specification ----------

  /** The request `SyncCommit` sends. */
  function Wire(recs: seq<Record>): seq<KeyRecord> {
    seq(|recs|, i requires 0 <= i < |recs| =>
      NO_RECORD.(key := recs[i].key, offset := recs[i].offset, size := recs[i].size))
  }

  function Commits(t: Table, storeId: nat, recs: seq<Record>, r: Rpc): Table {
    if r.NotDelivered? then t else CommitAll(t, storeId, Wire(recs), r.at)
  }

  /** One retry; skipped, reporting success, while disconnected. */
  function SyncCommitSpec(l: LinkState, storeId: nat, recs: seq<Record>, r1: Rpc, r2: Rpc): (LinkState, Status) {
    if !l.connected then (l, Ok)
    else
      var t1 := Commits(l.table, storeId, recs, r1);
      if r1.Delivered? then (l.(table := t1), Ok)
      else
        var t2 := Commits(t1, storeId, recs, r2);
        (l.(table := t2, connected := r2.Delivered?), if r2.Delivered? then Ok else RpcError)
  }

  predicate Queued(queue: seq<PendingCommit>, k: Key) {
    exists c :: c in queue && exists r :: r in c.records && r.key == k
  }

  function KeySet(keys: seq<Key>): set<Key> { set k | k in keys }

  /** No retry; skipped, reporting success, while disconnected. */
  ghost function SyncRemoveSpec(l: LinkState, keys: seq<Key>, r: Rpc): (LinkState, Status) {
    if !l.connected then (l.(unannounced := l.unannounced + KeySet(keys)), Ok)
    else
      var t := if r.NotDelivered? then l.table else RemoveAll(l.table, keys);
      if r.Delivered? then
        (l.(table := t, unannounced := l.unannounced + set k | k in keys && Queued(l.queue, k)), Ok)
      else (l.(table := t, connected := false), RpcError)
  }

  function AsyncCommitSpec(l: LinkState, storeId: nat, recs: seq<Record>): LinkState {
    if recs == [] then l else l.(queue := l.queue + [PendingCommit(storeId, recs)])
  }

  function Merged(queue: seq<PendingCommit>): seq<Record>
    decreases |queue|
  {
    if queue == [] then [] else Merged(queue[..|queue| - 1]) + queue[|queue| - 1].records
  }

  /** One turn of the asynchronous commit thread: the whole queue as one request. */
  function DrainSpec(l: LinkState, r1: Rpc, r2: Rpc): LinkState {
    if l.queue == [] then l
    else SyncCommitSpec(l.(queue := []), l.queue[0].storeId, Merged(l.queue), r1, r2).0
  }

  function RegisterSpec(l: LinkState, info: StoreInfo, r: Rpc): (LinkState, Status) {
    if !l.connected then (l, Ok)
    else
      var stores := if r.NotDelivered? || info.storeId == 0 then l.stores else l.stores[info.storeId := info];
      (l.(stores := stores, connected := r.Delivered?),
       if !r.Delivered? then RpcError else if info.storeId == 0 then Corruption else Ok)
  }

  const BATCH_SIZE: nat := 256

  /** Pushes `entries[i..]` in batches; batch `j` of the resync meets the calls `env(j)`. */
  function PushBatches(l: LinkState, storeId: nat, entries: seq<Record>, i: nat, j: nat,
                       env: nat -> (Rpc, Rpc)): LinkState
    decreases |entries| - i
  {
    if i >= |entries| then l
    else
      var end := Min(i + BATCH_SIZE, |entries|);
      var (m, s) := SyncCommitSpec(l, storeId, entries[i..end], env(j).0, env(j).1);
      if s != Ok then m else PushBatches(m, storeId, entries, i + BATCH_SIZE, j + 1, env)
  }

  /** Up to three attempts to register. */
  function RegisterRetrying(l: LinkState, info: StoreInfo, reg: seq<Rpc>): (LinkState, Status)
    requires |reg| == 3
  {
    var (l1, s1) := RegisterSpec(l, info, reg[0]);
    var (l2, s2) := if s1 == Ok then (l1, s1) else RegisterSpec(l1, info, reg[1]);
    if s2 == Ok then (l2, s2) else RegisterSpec(l2, info, reg[2])
  }

  /** Registers and then pushes every committed entry. */
  function ResyncSpec(l: LinkState, info: StoreInfo, entries: seq<Record>, reg: seq<Rpc>,
                      env: nat -> (Rpc, Rpc)): LinkState
    requires |reg| == 3
  {
    var (m, s) := RegisterRetrying(l, info, reg);
    if s != Ok then m.(connected := false) else PushBatches(m, info.storeId, entries, 0, 0, env)
  }

  /** What a store's removal request, whatever becomes of it, does to the records of other stores. */
  lemma SyncRemoveSparesOthersIff(l: LinkState, storeId: nat, keys: seq<Key>, r: Rpc)
    ensures OthersKept(l.table, SyncRemoveSpec(l, keys, r).0.table, storeId)
      <==> !l.connected || r.NotDelivered? || OwnKeys(l.table, storeId, keys)
  {
    RemovalSparesOthersIff(l.table, storeId, keys);
  }

  // ---------- resynchronisation is complete ----------

  /** Does the batch that starts at entry `i` get through, on the first call or the retry? */
  predicate Passes(env: nat -> (Rpc, Rpc), j: nat) {
    env(j).0.Delivered? || env(j).1.Delivered?
  }

  ghost predicate DistinctKeys(recs: seq<Record>) {
    forall i, j :: 0 <= i < j < |recs| ==> recs[i].key != recs[j].key
  }

  function PlaceOfRecord(storeId: nat, r: Record): Place {
    Place(storeId, r.offset, r.size, 1, "")
  }

  lemma {:induction false} LastPlaceOfDistinct(storeId: nat, recs: seq<Record>, n: nat, k: Key)
    requires DistinctKeys(recs) && n <= |recs|
    ensures forall i :: 0 <= i < n && recs[i].key == k != "" ==>
              LastPlace(storeId, Wire(recs), n, k) == Some(PlaceOfRecord(storeId, recs[i]))
    ensures (forall i :: 0 <= i < n ==> recs[i].key != k) || k == "" ==> LastPlace(storeId, Wire(recs), n, k) == None
  {
    if n > 0 { LastPlaceOfDistinct(storeId, recs, n - 1, k); }
  }

  /** Between `t0` and `t` the place of `k` was set by the record of `recs` that has this key, if
      one does. */
  ghost predicate Placed(t0: Table, t: Table, storeId: nat, recs: seq<Record>, k: Key) {
    && (forall i :: 0 <= i < |recs| && recs[i].key == k != "" ==>
          PlaceIn(t, k) == Some(PlaceOfRecord(storeId, recs[i])))
    && ((forall i :: 0 <= i < |recs| ==> recs[i].key != k) || k == "" ==> PlaceIn(t, k) == PlaceIn(t0, k))
  }

  lemma PlacedBoth(t0: Table, t1: Table, t2: Table, storeId: nat, a: seq<Record>, b: seq<Record>, k: Key)
    requires DistinctKeys(a + b) && Placed(t0, t1, storeId, a, k) && Placed(t1, t2, storeId, b, k)
    ensures Placed(t0, t2, storeId, a + b, k)
  {
    var c := a + b;
    assert forall i :: 0 <= i < |b| ==> b[i] == c[|a| + i];
    assert forall i :: 0 <= i < |a| ==> a[i] == c[i];
  }

  /** A commit is reported Ok exactly if the call or its retry was answered, or nothing was sent for want of a
      connection; only the unanswered one costs the connection. */
  lemma CommitReportsOkIff(l: LinkState, storeId: nat, recs: seq<Record>, r1: Rpc, r2: Rpc)
    ensures
      var (m, s) := SyncCommitSpec(l, storeId, recs, r1, r2);
      && (s == Ok <==> !l.connected || r1.Delivered? || r2.Delivered?)
      && (m.connected <==> l.connected && (r1.Delivered? || r2.Delivered?))
      && (!l.connected ==> m == l)
  {
  }

  /** A commit that was applied, once or twice, puts its records in place and moves no other key. */
  lemma AppliedCommit(l: LinkState, storeId: nat, recs: seq<Record>, r1: Rpc, r2: Rpc, k: Key)
    requires l.connected && DistinctKeys(recs) && SyncCommitSpec(l, storeId, recs, r1, r2).1 == Ok
    ensures Placed(l.table, SyncCommitSpec(l, storeId, recs, r1, r2).0.table, storeId, recs, k)
  {
    LastPlaceOfDistinct(storeId, recs, |recs|, k);
    var t1 := Commits(l.table, storeId, recs, r1);
    if !r1.NotDelivered? { CommitPlaces(l.table, storeId, Wire(recs), r1.at, |recs|, k); }
    if !r2.NotDelivered? { CommitPlaces(t1, storeId, Wire(recs), r2.at, |recs|, k); }
  }

  /** From `l` to `m` nothing but the table and the connection changed, and if the connection
      held, the places of `recs` are set. */
  ghost predicate Pushed(l: LinkState, m: LinkState, storeId: nat, recs: seq<Record>, k: Key) {
    && m.stores == l.stores && m.queue == l.queue && m.unannounced == l.unannounced
    && (m.connected ==> Placed(l.table, m.table, storeId, recs, k))
  }

  /** One batch, and then the rest. */
  lemma PushedBoth(l: LinkState, m: LinkState, n: LinkState, storeId: nat, a: seq<Record>, b: seq<Record>, k: Key)
    requires DistinctKeys(a + b) && m.connected && Pushed(l, m, storeId, a, k) && Pushed(m, n, storeId, b, k)
    ensures Pushed(l, n, storeId, a + b, k)
  {
    if n.connected { PlacedBoth(l.table, m.table, n.table, storeId, a, b, k); }
  }

  lemma CommitPushed(l: LinkState, storeId: nat, recs: seq<Record>, r1: Rpc, r2: Rpc, k: Key)
    requires l.connected && DistinctKeys(recs)
    ensures
      var (m, s) := SyncCommitSpec(l, storeId, recs, r1, r2);
      if s == Ok then m.connected && Pushed(l, m, storeId, recs, k)
      else !m.connected && forall rest :: Pushed(l, m, storeId, rest, k)
  {
    if SyncCommitSpec(l, storeId, recs, r1, r2).1 == Ok { AppliedCommit(l, storeId, recs, r1, r2, k); }
  }

  lemma NextBatch(entries: seq<Record>, i: nat)
    requires i < |entries| && DistinctKeys(entries)
    ensures
      var batch, rest := entries[i..Min(i + BATCH_SIZE, |entries|)], entries[Min(i + BATCH_SIZE, |entries|)..];
      entries[i..] == batch + rest && DistinctKeys(batch) && DistinctKeys(batch + rest)
  {
  }

  /** Every entry from `i` on is in its place, provided every batch got through. */
  lemma {:induction false} PushedInPlace(l: LinkState, storeId: nat, entries: seq<Record>,
                                         i: nat, j: nat, env: nat -> (Rpc, Rpc), k: Key)
    requires l.connected && DistinctKeys(entries)
    ensures Pushed(l, PushBatches(l, storeId, entries, i, j, env), storeId, entries[Min(i, |entries|)..], k)
    decreases |entries| - i
  {
    if i < |entries| {
      var end := Min(i + BATCH_SIZE, |entries|);
      var (m, s) := SyncCommitSpec(l, storeId, entries[i..end], env(j).0, env(j).1);
      NextBatch(entries, i);
      CommitPushed(l, storeId, entries[i..end], env(j).0, env(j).1, k);
      if s == Ok {
        PushedInPlace(m, storeId, entries, i + BATCH_SIZE, j + 1, env, k);
        var n := PushBatches(m, storeId, entries, i + BATCH_SIZE, j + 1, env);
        PushedBoth(l, m, n, storeId, entries[i..end], entries[end..], k);
      }
    }
  }

  /** Do all the batches from batch `j` on get through? */
  ghost predicate AllPass(env: nat -> (Rpc, Rpc), j: nat, count: nat) {
    forall b: nat :: j <= b && b * BATCH_SIZE < count ==> Passes(env, b)
  }

  lemma AllPassFrom(env: nat -> (Rpc, Rpc), j: nat, count: nat)
    ensures AllPass(env, j, count) <==> j * BATCH_SIZE >= count || (Passes(env, j) && AllPass(env, j + 1, count))
  {
    if j * BATCH_SIZE < count && Passes(env, j) && AllPass(env, j + 1, count) {
      forall b: nat | j <= b && b * BATCH_SIZE < count ensures Passes(env, b) {
        if b > j { assert j + 1 <= b; }
      }
    }
  }

  lemma CommitGetsThrough(l: LinkState, storeId: nat, recs: seq<Record>, env: nat -> (Rpc, Rpc), j: nat)
    requires l.connected
    ensures
      var (m, s) := SyncCommitSpec(l, storeId, recs, env(j).0, env(j).1);
      (s == Ok <==> Passes(env, j)) && m.connected == (s == Ok)
  {
  }

  /** Do the batches of the entries from `i` on, the first of them batch `j`, get through? */
  predicate RestPasses(env: nat -> (Rpc, Rpc), i: nat, j: nat, count: nat)
    decreases count - i
  {
    i >= count || (Passes(env, j) && RestPasses(env, i + BATCH_SIZE, j + 1, count))
  }

  lemma {:induction false} RestPassesIsAll(env: nat -> (Rpc, Rpc), i: nat, j: nat, count: nat)
    requires i == j * BATCH_SIZE
    ensures RestPasses(env, i, j, count) <==> AllPass(env, j, count)
    decreases count - i
  {
    AllPassFrom(env, j, count);
    if i < count { RestPassesIsAll(env, i + BATCH_SIZE, j + 1, count); }
  }

  lemma {:induction false} PushedConnected(l: LinkState, storeId: nat, entries: seq<Record>,
                                           i: nat, j: nat, env: nat -> (Rpc, Rpc))
    requires l.connected
    ensures PushBatches(l, storeId, entries, i, j, env).connected <==> RestPasses(env, i, j, |entries|)
    decreases |entries| - i
  {
    if i < |entries| {
      var m := NextPushed(l, storeId, entries, i, j, env);
      if Passes(env, j) { PushedConnected(m, storeId, entries, i + BATCH_SIZE, j + 1, env); }
    }
  }

  lemma NextPushed(l: LinkState, storeId: nat, entries: seq<Record>, i: nat, j: nat, env: nat -> (Rpc, Rpc))
    returns (m: LinkState)
    requires l.connected && i < |entries|
    ensures m.connected == Passes(env, j)
    ensures PushBatches(l, storeId, entries, i, j, env)
      == if Passes(env, j) then PushBatches(m, storeId, entries, i + BATCH_SIZE, j + 1, env) else m
  {
    var batch := entries[i..Min(i + BATCH_SIZE, |entries|)];
    CommitGetsThrough(l, storeId, batch, env, j);
    m := SyncCommitSpec(l, storeId, batch, env(j).0, env(j).1).0;
  }

  /** A resync ends connected exactly when it began connected with a non-zero store id, its
      first registration call was answered, and every batch got through. The retry of a failed
      registration never helps: the failure clears the connection flag, and the later attempts
      then report success without calling. */
  lemma ResyncConnectedIff(l: LinkState, info: StoreInfo, entries: seq<Record>, reg: seq<Rpc>, env: nat -> (Rpc, Rpc))
    requires |reg| == 3
    ensures ResyncSpec(l, info, entries, reg, env).connected
      <==> l.connected && info.storeId != 0 && reg[0].Delivered?
           && AllPass(env, 0, |entries|)
  {
    var (m, s) := RegisterRetrying(l, info, reg);
    if s == Ok {
      if m.connected {
        PushedConnected(m, info.storeId, entries, 0, 0, env);
        RestPassesIsAll(env, 0, 0, |entries|);
      } else {
        PushedDisconnected(m, info.storeId, entries, 0, 0, env);
      }
    }
  }

  /** A resync registers its own store and no other, and never one with id zero. */
  lemma ResyncRegistersItself(l: LinkState, info: StoreInfo, entries: seq<Record>, reg: seq<Rpc>,
                              env: nat -> (Rpc, Rpc), id: nat)
    requires |reg| == 3
    ensures
      var m := ResyncSpec(l, info, entries, reg, env);
      && (id != info.storeId || id == 0 ==> (id in m.stores <==> id in l.stores))
      && (id != info.storeId && id in l.stores ==> m.stores[id] == l.stores[id])
      && (id == info.storeId && id in m.stores ==>
            m.stores[id] == info || (id in l.stores && m.stores[id] == l.stores[id]))
  {
    var m := RegisterRetrying(l, info, reg).0;
    PushKeepsStores(m, info.storeId, entries, 0, 0, env);
  }

  lemma {:induction false} PushKeepsStores(l: LinkState, storeId: nat, entries: seq<Record>, i: nat, j: nat,
                                           env: nat -> (Rpc, Rpc))
    ensures PushBatches(l, storeId, entries, i, j, env).stores == l.stores
    decreases |entries| - i
  {
    if i < |entries| {
      var end := Min(i + BATCH_SIZE, |entries|);
      var (m, s) := SyncCommitSpec(l, storeId, entries[i..end], env(j).0, env(j).1);
      if s == Ok { PushKeepsStores(m, storeId, entries, i + BATCH_SIZE, j + 1, env); }
    }
  }

  /** A registration whose first call does not arrive, and whose retries would: the store is not registered. */
  lemma RetryIsNeverMade(l: LinkState, info: StoreInfo, at: nat, env: nat -> (Rpc, Rpc))
    ensures ResyncSpec(l, info, [], [NotDelivered, Delivered(at), Delivered(at)], env) == l.(connected := false)
  {
    var reg: seq<Rpc> := [NotDelivered, Delivered(at), Delivered(at)];
    ResyncConnectedIff(l, info, [], reg, env);
  }

  lemma {:induction false} PushedDisconnected(l: LinkState, storeId: nat, entries: seq<Record>, i: nat, j: nat,
                                              env: nat -> (Rpc, Rpc))
    requires !l.connected
    ensures PushBatches(l, storeId, entries, i, j, env) == l
    decreases |entries| - i
  {
    if i < |entries| { PushedDisconnected(l, storeId, entries, i + BATCH_SIZE, j + 1, env); }
  }

  ghost predicate Enumerates(s: IndexState, entries: seq<Record>) {
    && DistinctKeys(entries)
    && (forall i :: 0 <= i < |entries| ==> Committed(s, entries[i].key) && entries[i] == s.recs[entries[i].key])
    && (forall k :: Committed(s, k) ==> s.recs[k] in entries)
  }

  /** If a resync ends connected, the store is registered and Meta agrees with the index on
      every committed key (Meta keeps no record for the empty key); no other key moved. */
  lemma ResyncComplete(l: LinkState, info: StoreInfo, s: IndexState, entries: seq<Record>, reg: seq<Rpc>,
                       env: nat -> (Rpc, Rpc), k: Key)
    requires |reg| == 3 && Wf(s) && Enumerates(s, entries)
    requires ResyncSpec(l, info, entries, reg, env).connected
    ensures
      var m := ResyncSpec(l, info, entries, reg, env);
      && info.storeId in m.stores && m.stores[info.storeId] == info
      && PlaceIn(m.table, k) == if Committed(s, k) && k != "" then Some(PlaceOfRecord(info.storeId, s.recs[k]))
                                else PlaceIn(l.table, k)
  {
    ResyncConnectedIff(l, info, entries, reg, env);
    PushedInPlace(RegisterSpec(l, info, reg[0]).0, info.storeId, entries, 0, 0, env, k);
    assert entries[0..] == entries;
    if Committed(s, k) {
      var e :| 0 <= e < |entries| && entries[e] == s.recs[k];
      assert entries[e].key == k;
    }
  }

  /** What the asynchronous thread sends as one request leaves every key where sending the
      queued commits one by one, each answered, would have left it. */
  lemma {:induction false} DrainIsInOrder(t: Table, storeId: nat, queue: seq<PendingCommit>, now: nat)
    ensures CommitAll(t, storeId, Wire(Merged(queue)), now) == CommitOneByOne(t, storeId, queue, now)
    decreases |queue|
  {
    if queue != [] {
      var init, last := queue[..|queue| - 1], queue[|queue| - 1].records;
      DrainIsInOrder(t, storeId, init, now);
      WireBoth(Merged(init), last);
      CommitBoth(t, storeId, Wire(Merged(init)), Wire(last), now);
    }
  }

  // ---------- where a turn of the commit thread leaves each key ----------

  /** The place given by the last record of the queue that names `k`. */
  function Awaited(queue: seq<PendingCommit>, storeId: nat, k: Key): Option<Place>
    decreases |queue|
  {
    if queue == [] then None
    else
      var recs := Wire(queue[|queue| - 1].records);
      var p := LastPlace(storeId, recs, |recs|, k);
      if p.Some? then p else Awaited(queue[..|queue| - 1], storeId, k)
  }

  /** All queued commits are those of one store. */
  ghost predicate OneStore(queue: seq<PendingCommit>, storeId: nat) {
    forall c :: c in queue ==> c.storeId == storeId
  }

  /** Record `i` of commit `c` is the last of the queue to name `k`. */
  ghost predicate NamesLast(queue: seq<PendingCommit>, c: nat, i: nat, k: Key) {
    && c < |queue| && i < |queue[c].records| && queue[c].records[i].key == k
    && (forall j :: i < j < |queue[c].records| ==> queue[c].records[j].key != k)
    && (forall d, j :: c < d < |queue| && 0 <= j < |queue[d].records| ==> queue[d].records[j].key != k)
  }

  lemma {:induction false} LastPlaceBoth(storeId: nat, a: seq<KeyRecord>, b: seq<KeyRecord>, n: nat, k: Key)
    requires n <= |b|
    ensures LastPlace(storeId, a + b, |a| + n, k)
      == if LastPlace(storeId, b, n, k).Some? then LastPlace(storeId, b, n, k) else LastPlace(storeId, a, |a|, k)
  {
    if n > 0 {
      LastPlaceBoth(storeId, a, b, n - 1, k);
      assert (a + b)[|a| + n - 1] == b[n - 1];
    } else {
      LastPlaceFront(storeId, a, b, |a|, k);
    }
  }

  lemma {:induction false} LastPlaceFront(storeId: nat, a: seq<KeyRecord>, b: seq<KeyRecord>, n: nat, k: Key)
    requires n <= |a|
    ensures LastPlace(storeId, a + b, n, k) == LastPlace(storeId, a, n, k)
  {
    if n > 0 { LastPlaceFront(storeId, a, b, n - 1, k); }
  }

  lemma {:induction false} MergedPlace(queue: seq<PendingCommit>, storeId: nat, k: Key)
    ensures LastPlace(storeId, Wire(Merged(queue)), |Merged(queue)|, k) == Awaited(queue, storeId, k)
    decreases |queue|
  {
    if queue != [] {
      var init, last := queue[..|queue| - 1], queue[|queue| - 1].records;
      MergedPlace(init, storeId, k);
      WireBoth(Merged(init), last);
      LastPlaceBoth(storeId, Wire(Merged(init)), Wire(last), |last|, k);
    }
  }

  /** The last of `n` records to name `k` gives its place. */
  lemma {:induction false} LastNamed(storeId: nat, recs: seq<Record>, n: nat, i: nat, k: Key)
    requires n <= |recs| && k != ""
    ensures i < n && recs[i].key == k && (forall j :: i < j < n ==> recs[j].key != k) ==>
              LastPlace(storeId, Wire(recs), n, k) == Some(PlaceOfRecord(storeId, recs[i]))
    ensures (forall j :: 0 <= j < n ==> recs[j].key != k) ==> LastPlace(storeId, Wire(recs), n, k) == None
  {
    if n > 0 { LastNamed(storeId, recs, n - 1, i, k); }
  }

  lemma {:induction false} AwaitedIs(queue: seq<PendingCommit>, storeId: nat, c: nat, i: nat, k: Key)
    requires k != ""
    ensures NamesLast(queue, c, i, k) ==>
              Awaited(queue, storeId, k) == Some(PlaceOfRecord(storeId, queue[c].records[i]))
    ensures !Queued(queue, k) ==> Awaited(queue, storeId, k) == None
    decreases |queue|
  {
    if queue != [] {
      var init, last := queue[..|queue| - 1], queue[|queue| - 1].records;
      LastNamed(storeId, last, |last|, i, k);
      AwaitedIs(init, storeId, c, i, k);
      if NamesLast(queue, c, i, k) && c < |init| {
        assert init[c] == queue[c];
        var d := |queue| - 1;
        assert forall j :: 0 <= j < |last| ==> queue[d].records[j].key != k;
      }
      if !Queued(queue, k) {
        assert queue[|queue| - 1] in queue;
        forall j | 0 <= j < |last| ensures last[j].key != k { assert last[j] in queue[|queue| - 1].records; }
      }
    }
  }

  lemma DrainedPlace(l: LinkState, storeId: nat, r1: Rpc, r2: Rpc, k: Key)
    requires l.connected && OneStore(l.queue, storeId) && (r1.Delivered? || r2.Delivered?)
    ensures
      var (m, p) := (DrainSpec(l, r1, r2), Awaited(l.queue, storeId, k));
      && m.connected && m.queue == [] && m.stores == l.stores && m.unannounced == l.unannounced
      && PlaceIn(m.table, k) == if p.Some? then p else PlaceIn(l.table, k)
  {
    if l.queue != [] {
      assert l.queue[0] in l.queue;
      var recs := Wire(Merged(l.queue));
      MergedPlace(l.queue, storeId, k);
      var t1 := Commits(l.table, storeId, Merged(l.queue), r1);
      if !r1.NotDelivered? { CommitPlaces(l.table, storeId, recs, r1.at, |recs|, k); }
      if !r2.NotDelivered? { CommitPlaces(t1, storeId, recs, r2.at, |recs|, k); }
    }
  }

  /** A turn of the commit thread that Meta answers, on the call or the retry, empties the queue and leaves
      every key where the last queued record naming it says, and all others where they were. */
  lemma TurnDelivers(l: LinkState, storeId: nat, r1: Rpc, r2: Rpc, k: Key)
    requires l.connected && OneStore(l.queue, storeId) && (r1.Delivered? || r2.Delivered?)
    ensures
      var m := DrainSpec(l, r1, r2);
      && m.connected && m.queue == []
      && (k != "" ==> forall c: nat, i: nat :: NamesLast(l.queue, c, i, k) ==>
            && k in m.table && m.table[k].storeId == storeId && m.table[k].stat == 1
            && m.table[k].offset == l.queue[c].records[i].offset && m.table[k].size == l.queue[c].records[i].size)
      && (k == "" || !Queued(l.queue, k) ==> PlaceIn(m.table, k) == PlaceIn(l.table, k))
  {
    DrainedPlace(l, storeId, r1, r2, k);
    if k == "" {
      NamelessAwaitsNothing(l.queue, storeId);
    } else {
      forall c: nat, i: nat | NamesLast(l.queue, c, i, k)
        ensures Awaited(l.queue, storeId, k) == Some(PlaceOfRecord(storeId, l.queue[c].records[i]))
      {
        AwaitedIs(l.queue, storeId, c, i, k);
      }
      AwaitedIs(l.queue, storeId, 0, 0, k);
    }
  }

  lemma {:induction false} NamelessAwaitsNothing(queue: seq<PendingCommit>, storeId: nat)
    ensures Awaited(queue, storeId, "") == None
    decreases |queue|
  {
    if queue != [] {
      var recs := Wire(queue[|queue| - 1].records);
      NamelessPlace(storeId, recs, |recs|);
      NamelessAwaitsNothing(queue[..|queue| - 1], storeId);
    }
  }

  lemma {:induction false} NamelessPlace(storeId: nat, recs: seq<KeyRecord>, n: nat)
    requires n <= |recs|
    ensures LastPlace(storeId, recs, n, "") == None
  {
    if n > 0 { NamelessPlace(storeId, recs, n - 1); }
  }

  lemma WireBoth(a: seq<Record>, b: seq<Record>)
    ensures Wire(a + b) == Wire(a) + Wire(b)
  {
  }

  function CommitOneByOne(t: Table, storeId: nat, queue: seq<PendingCommit>, now: nat): Table
    decreases |queue|
  {
    if queue == [] then t
    else CommitAll(CommitOneByOne(t, storeId, queue[..|queue| - 1], now), storeId, Wire(queue[|queue| - 1].records),
                   now)
  }

  // ---------- the client itself ----------

  class MetaSyncClient {
    const storeId: nat
    const info: StoreInfo
    const metaIndex: StoreMetaIndex
    const server: MetaManager
    var connected: bool
    var pendingCommits: seq<PendingCommit>
    ghost var unannounced: set<Key>

    ghost function View(): LinkState
      reads this, server
    {
      LinkState(connected, pendingCommits, server.table, server.stores, unannounced)
    }

    ghost predicate Valid()
      reads this, server
    {
      server.Valid() && info.storeId == storeId
    }

    constructor (info: StoreInfo, metaIndex: StoreMetaIndex, server: MetaManager)
      requires server.Valid()
      ensures Valid() && this.info == info && this.storeId == info.storeId
      ensures this.metaIndex == metaIndex && this.server == server
      ensures !connected && pendingCommits == [] && unannounced == {}
    {
      this.storeId, this.info, this.metaIndex, this.server := info.storeId, info, metaIndex, server;
      connected, pendingCommits, unannounced := false, [], {};
    }

    /** One delivery, or none, of a commit request. */
    method CallCommit(id: nat, recs: seq<Record>, r: Rpc) returns (failed: bool)
      requires Valid()
      modifies server
      ensures Valid() && failed == !r.Delivered? && server.stores == old(server.stores)
      ensures server.table == Commits(old(server.table), id, recs, r)
    {
      if !r.NotDelivered? {
        var _ := server.SyncCommit(id, Wire(recs), r.at);
      }
      failed := !r.Delivered?;
    }

    method SyncCommit(id: nat, recs: seq<Record>, r1: Rpc, r2: Rpc) returns (s: Status)
      requires Valid()
      modifies `connected, server
      ensures Valid() && (View(), s) == SyncCommitSpec(old(View()), id, recs, r1, r2)
    {
      if !connected {
        return Ok;
      }
      var failed := CallCommit(id, recs, r1);
      if failed {
        connected := false;
        var failed2 := CallCommit(id, recs, r2);
        if failed2 {
          return RpcError;
        }
        connected := true;
      }
      return Ok;
    }

    method SyncRemove(id: nat, keys: seq<Key>, r: Rpc) returns (s: Status)
      requires Valid()
      modifies `connected, `unannounced, server
      ensures Valid() && (View(), s) == SyncRemoveSpec(old(View()), keys, r)
    {
      if !connected {
        unannounced := unannounced + KeySet(keys);
        return Ok;
      }
      if !r.NotDelivered? {
        var _ := server.SyncRemove(id, keys);
      }
      if !r.Delivered? {
        connected := false;
        return RpcError;
      }
      unannounced := unannounced + set k | k in keys && Queued(pendingCommits, k);
      return Ok;
    }

    method AsyncCommit(id: nat, recs: seq<Record>)
      requires Valid()
      modifies `pendingCommits
      ensures Valid() && View() == AsyncCommitSpec(old(View()), id, recs)
    {
      if recs == [] {
        return;
      }
      pendingCommits := pendingCommits + [PendingCommit(id, recs)];
    }

    /** One turn of `AsyncCommitLoop`; a failed request is not repeated. */
    method AsyncCommitTurn(r1: Rpc, r2: Rpc)
      requires Valid()
      modifies `pendingCommits, `connected, server
      ensures Valid() && View() == DrainSpec(old(View()), r1, r2)
      ensures old(connected) && (r1.Delivered? || r2.Delivered?) ==>
                forall c: nat, i: nat, sid: nat, k ::
                  NamesLast(old(pendingCommits), c, i, k) && k != "" && OneStore(old(pendingCommits), sid) ==>
                    PlaceIn(server.table, k) == Some(PlaceOfRecord(sid, old(pendingCommits)[c].records[i]))
    {
      ghost var before := View();
      if connected && (r1.Delivered? || r2.Delivered?) {
        forall c: nat, i: nat, sid: nat, k
          | NamesLast(pendingCommits, c, i, k) && k != "" && OneStore(pendingCommits, sid)
          ensures PlaceIn(DrainSpec(before, r1, r2).table, k) == Some(PlaceOfRecord(sid, pendingCommits[c].records[i]))
        {
          DrainedPlace(before, sid, r1, r2, k);
          AwaitedIs(pendingCommits, sid, c, i, k);
        }
      }
      var batch := pendingCommits;
      pendingCommits := [];
      if batch == [] {
        return;
      }
      var merged := [];
      var sid := batch[0].storeId;
      for i := 0 to |batch|
        invariant merged == Merged(batch[..i])
      {
        assert batch[..i + 1][..i] == batch[..i];
        merged := merged + batch[i].records;
      }
      assert batch[..|batch|] == batch;
      var _ := SyncCommit(sid, merged, r1, r2);
    }

    method RegisterStore(r: Rpc) returns (s: Status)
      requires Valid()
      modifies `connected, server
      ensures Valid() && (View(), s) == RegisterSpec(old(View()), info, r)
    {
      if !connected {
        return Ok;
      }
      var status := Ok;
      if !r.NotDelivered? {
        status := server.RegisterStore(info);
      }
      if !r.Delivered? {
        connected := false;
        return RpcError;
      }
      return if status != Ok then Corruption else Ok;
    }

    method RegisterWithRetry(reg: seq<Rpc>) returns (s: Status)
      requires Valid() && |reg| == 3
      modifies `connected, server
      ensures Valid() && (View(), s) == RegisterRetrying(old(View()), info, reg)
    {
      s := RegisterStore(reg[0]);
      if s != Ok {
        s := RegisterStore(reg[1]);
      }
      if s != Ok {
        s := RegisterStore(reg[2]);
      }
    }

    method PushAll(entries: seq<Record>, env: nat -> (Rpc, Rpc))
      requires Valid()
      modifies `connected, server
      ensures Valid() && View() == PushBatches(old(View()), storeId, entries, 0, 0, env)
    {
      var i, j := 0, 0;
      while i < |entries|
        invariant Valid()
        invariant PushBatches(old(View()), storeId, entries, 0, 0, env)
          == PushBatches(View(), storeId, entries, i, j, env)
      {
        var end := Min(i + BATCH_SIZE, |entries|);
        var s := SyncCommit(storeId, entries[i..end], env(j).0, env(j).1);
        if s != Ok {
          return;
        }
        i, j := i + BATCH_SIZE, j + 1;
      }
    }

    method FullResync(reg: seq<Rpc>, env: nat -> (Rpc, Rpc)) returns (ghost entries: seq<Record>)
      requires Valid() && metaIndex.Valid() && |reg| == 3
      modifies `connected, server
      ensures Valid() && Enumerates(metaIndex.View(), entries)
      ensures View() == ResyncSpec(old(View()), info, entries, reg, env)
    {
      var all := metaIndex.GetAllCommittedEntries();
      entries := all;
      var s := RegisterWithRetry(reg);
      if s != Ok {
        connected := false;
        return;
      }
      PushAll(all, env);
    }

    /** A connection that succeeded, in `Connect` or in the reconnect loop: resynchronise. */
    method Reconnected(reg: seq<Rpc>, env: nat -> (Rpc, Rpc)) returns (ghost entries: seq<Record>)
      requires Valid() && metaIndex.Valid() && |reg| == 3
      modifies `connected, server
      ensures Valid() && Enumerates(metaIndex.View(), entries)
      ensures View() == ResyncSpec(old(View()).(connected := true), info, entries, reg, env)
    {
      connected := true;
      entries := FullResync(reg, env);
    }
  }
}
