/** The Meta server's key table (src/meta/meta_manager.cpp), cut into shards by key hash. */
module MetaTable {
  import opened Base

  datatype KeyRecord = KeyRecord(
    key: Key, storeId: nat, offset: nat, size: nat, stat: int, accessTime: nat, createTime: nat,
    clientId: string, nodeId: nat, dataFile: string, storeAddr: string)

  const NO_RECORD := KeyRecord("", 0, 0, 0, 0, 0, 0, "", 0, "", "")

  datatype StoreInfo = StoreInfo(storeId: nat, nodeId: nat, storeAddr: string, dataFile: string)

  type Table = map<Key, KeyRecord>

  /** `BatchExist` shows committed records only, `BatchLookup` all but evicted ones. */
  datatype Query = Exist | Lookup

  predicate Visible(q: Query, r: KeyRecord) {
    match q
    case Exist => r.stat == 1
    case Lookup => r.stat != 2
  }

  // ---------- specification: one flat table, requests in order ----------

  /** A batch request as a list of single-key updates. */
  datatype Batch =
    | CommitBatch(storeId: nat, recs: seq<KeyRecord>, now: nat)
    | RemoveBatch(keys: seq<Key>)
    | QueryBatch(query: Query, keys: seq<Key>, now: nat)

  function Size(b: Batch): nat {
    if b.CommitBatch? then |b.recs| else |b.keys|
  }

  function KeyAt(b: Batch, i: nat): Key
    requires i < Size(b)
  {
    if b.CommitBatch? then b.recs[i].key else b.keys[i]
  }

  /** A committed record: identity from the request, creation time from its first commit. */
  function Merge(t: Table, storeId: nat, r: KeyRecord, now: nat): KeyRecord {
    var entry := if r.key in t then t[r.key] else NO_RECORD;
    entry.(key := r.key, storeId := storeId, offset := r.offset, size := r.size, stat := 1, accessTime := now,
           createTime := if entry.createTime == 0 then now else entry.createTime, clientId := r.clientId)
  }

  function Update(b: Batch, t: Table, i: nat): Table {
    if i >= Size(b) then t
    else
      var k := KeyAt(b, i);
      match b
      case CommitBatch(sid, recs, now) => if k == "" then t else t[k := Merge(t, sid, recs[i], now)]
      case RemoveBatch(_) => t - {k}
      case QueryBatch(q, _, now) => if k in t && Visible(q, t[k]) then t[k := t[k].(accessTime := now)] else t
  }

  /** The first `n` updates of a batch, in order. */
  function UpTo(b: Batch, t: Table, n: nat): Table
    requires n <= Size(b)
  {
    if n == 0 then t else Update(b, UpTo(b, t, n - 1), n - 1)
  }

  function All(b: Batch, t: Table): Table { UpTo(b, t, Size(b)) }

  function CommitAll(t: Table, storeId: nat, recs: seq<KeyRecord>, now: nat): Table {
    All(CommitBatch(storeId, recs, now), t)
  }

  function RemoveAll(t: Table, keys: seq<Key>): Table {
    map k | k in t && k !in keys :: t[k]
  }

  function InfoOf(stores: map<nat, StoreInfo>, id: nat): StoreInfo {
    if id in stores then stores[id] else StoreInfo(0, 0, "", "")
  }

  /** The answer to a query for `k`: its record with the store's routing filled in, or blank. */
  function Answer(t: Table, stores: map<nat, StoreInfo>, q: Query, k: Key, now: nat): KeyRecord {
    if k in t && Visible(q, t[k]) then
      var info := InfoOf(stores, t[k].storeId);
      t[k].(accessTime := now, nodeId := info.nodeId, dataFile := info.dataFile, storeAddr := info.storeAddr)
    else NO_RECORD
  }

  /** The same before routing is filled in. */
  function Shown(t: Table, q: Query, k: Key, now: nat): KeyRecord {
    if k in t && Visible(q, t[k]) then t[k].(accessTime := now) else NO_RECORD
  }

  /** `u` is `t` with some visible records touched. */
  ghost predicate Touched(q: Query, t: Table, u: Table, now: nat) {
    t.Keys == u.Keys && forall k :: k in t ==> u[k] == t[k] || (Visible(q, t[k]) && u[k] == t[k].(accessTime := now))
  }

  /** `results` is `results0` with the visible records of the keys at the positions `group` filled
      in. */
  ghost predicate ShownFor(q: Query, keys: seq<Key>, now: nat, t: Table, group: seq<nat>,
                           results0: seq<KeyRecord>, results: seq<KeyRecord>) {
    && |results| == |results0| == |keys|
    && forall i :: 0 <= i < |keys| ==>
         results[i] == if i in group && keys[i] in t && Visible(q, t[keys[i]]) then Shown(t, q, keys[i], now)
                       else results0[i]
  }

  ghost predicate TableWf(t: Table) {
    forall k :: k in t ==> k != "" && t[k].key == k
  }

  lemma {:induction false} UpToKeepsWf(b: Batch, t: Table, n: nat)
    requires TableWf(t) && n <= Size(b)
    ensures TableWf(UpTo(b, t, n))
  {
    if n > 0 { UpToKeepsWf(b, t, n - 1); }
  }

  lemma {:induction false} RemoveInOrder(t: Table, keys: seq<Key>, n: nat)
    requires n <= |keys|
    ensures UpTo(RemoveBatch(keys), t, n) == RemoveAll(t, keys[..n])
  {
    if n > 0 {
      RemoveInOrder(t, keys, n - 1);
      assert keys[..n] == keys[..n - 1] + [keys[n - 1]];
    }
  }

  /** `u` is `t` with exactly the visible records of `ks` touched. */
  ghost predicate TouchedAt(q: Query, ks: seq<Key>, now: nat, t: Table, u: Table) {
    && u.Keys == t.Keys
    && forall k :: k in t ==> u[k] == if k in ks && Visible(q, t[k]) then t[k].(accessTime := now) else t[k]
  }

  lemma TouchOneMore(q: Query, keys: seq<Key>, i: nat, now: nat, t: Table, u: Table)
    requires i < |keys| && TouchedAt(q, keys[..i], now, t, u)
    ensures TouchedAt(q, keys[..i + 1], now, t, Update(QueryBatch(q, keys, now), u, i))
  {
    assert keys[..i + 1] == keys[..i] + [keys[i]];
  }

  /** A query changes nothing but access times. */
  lemma {:induction false} QueryOnlyTouches(q: Query, keys: seq<Key>, now: nat, t: Table, n: nat)
    requires n <= |keys|
    ensures TouchedAt(q, keys[..n], now, t, UpTo(QueryBatch(q, keys, now), t, n))
  {
    if n > 0 {
      QueryOnlyTouches(q, keys, now, t, n - 1);
      TouchOneMore(q, keys, n - 1, now, t, UpTo(QueryBatch(q, keys, now), t, n - 1));
    }
  }

  /** What Meta says about where a key's bytes are: everything in a record but time stamps. */
  datatype Place = Place(storeId: nat, offset: nat, size: nat, stat: int, clientId: string)

  function PlaceIn(t: Table, k: Key): Option<Place> {
    if k in t then Some(Place(t[k].storeId, t[k].offset, t[k].size, t[k].stat, t[k].clientId)) else None
  }

  /** The place given by the last of the first `n` records that names `k`. */
  function LastPlace(storeId: nat, recs: seq<KeyRecord>, n: nat, k: Key): Option<Place>
    requires n <= |recs|
  {
    if n == 0 then None
    else if recs[n - 1].key == k && k != "" then
      Some(Place(storeId, recs[n - 1].offset, recs[n - 1].size, 1, recs[n - 1].clientId))
    else LastPlace(storeId, recs, n - 1, k)
  }

  /** After a commit every key is where the last record naming it says, and a key no record
      names is where it was; when the request arrives makes no difference. */
  lemma {:induction false} CommitPlaces(t: Table, storeId: nat, recs: seq<KeyRecord>, now: nat, n: nat, k: Key)
    requires n <= |recs|
    ensures
      var last := LastPlace(storeId, recs, n, k);
      PlaceIn(UpTo(CommitBatch(storeId, recs, now), t, n), k) == if last.Some? then last else PlaceIn(t, k)
  {
    if n > 0 { CommitPlaces(t, storeId, recs, now, n - 1, k); }
  }

  /** Delivering a commit twice, at any two times, is delivering it once. */
  lemma CommitIdempotent(t: Table, storeId: nat, recs: seq<KeyRecord>, t1: nat, t2: nat, k: Key)
    ensures PlaceIn(CommitAll(CommitAll(t, storeId, recs, t1), storeId, recs, t2), k)
      == PlaceIn(CommitAll(t, storeId, recs, t1), k)
  {
    CommitPlaces(t, storeId, recs, t1, |recs|, k);
    CommitPlaces(CommitAll(t, storeId, recs, t1), storeId, recs, t2, |recs|, k);
  }

  /** The creation time of a key's first commit is kept. */
  lemma {:induction false} CreateTimeKept(t: Table, storeId: nat, recs: seq<KeyRecord>, now: nat, n: nat, k: Key)
    requires n <= |recs| && k in t && t[k].createTime != 0
    ensures var u := UpTo(CommitBatch(storeId, recs, now), t, n); k in u && u[k].createTime == t[k].createTime
  {
    if n > 0 { CreateTimeKept(t, storeId, recs, now, n - 1, k); }
  }

  /** A key without a creation time gets that of its first commit. */
  lemma {:induction false} FirstCommitDates(t: Table, storeId: nat, recs: seq<KeyRecord>, now: nat, n: nat, k: Key)
    requires n <= |recs| && k != "" && (k in t ==> t[k].createTime == 0)
    ensures
      var u := UpTo(CommitBatch(storeId, recs, now), t, n);
      if exists i :: 0 <= i < n && recs[i].key == k then k in u && u[k].createTime == now
      else (k in u <==> k in t) && (k in t ==> u[k] == t[k])
  {
    if n > 0 {
      FirstCommitDates(t, storeId, recs, now, n - 1, k);
      assert recs[n - 1].key == k || (forall i :: 0 <= i < n && recs[i].key == k ==> i < n - 1);
    }
  }

  lemma {:induction false} LastNamedPlace(storeId: nat, recs: seq<KeyRecord>, n: nat, i: nat, k: Key)
    requires i < n <= |recs| && k != "" && recs[i].key == k && forall j :: i < j < n ==> recs[j].key != k
    ensures LastPlace(storeId, recs, n, k) == Some(Place(storeId, recs[i].offset, recs[i].size, 1, recs[i].clientId))
  {
    if i < n - 1 { LastNamedPlace(storeId, recs, n - 1, i, k); }
  }

  /** What is committed is found: either query then answers the key with the place its last record gave, and
      with the node, the file and the address its store registered. */
  lemma CommittedIsAnswered(t: Table, storeId: nat, recs: seq<KeyRecord>, now: nat, stores: map<nat, StoreInfo>,
                            q: Query, i: nat, at: nat)
    requires i < |recs| && recs[i].key != "" && forall j :: i < j < |recs| ==> recs[j].key != recs[i].key
    requires TableWf(t) && storeId in stores
    ensures
      var a := Answer(CommitAll(t, storeId, recs, now), stores, q, recs[i].key, at);
      && a.key == recs[i].key && a.storeId == storeId && a.offset == recs[i].offset && a.size == recs[i].size
      && a.nodeId == stores[storeId].nodeId && a.dataFile == stores[storeId].dataFile
      && a.storeAddr == stores[storeId].storeAddr && a.accessTime == at
  {
    var k := recs[i].key;
    CommitPlaces(t, storeId, recs, now, |recs|, k);
    LastNamedPlace(storeId, recs, |recs|, i, k);
    UpToKeepsWf(CommitBatch(storeId, recs, now), t, |recs|);
    assert PlaceIn(CommitAll(t, storeId, recs, now), k).Some?;
  }

  /** A commit is an access: every key it names bears its time, no other key is changed. */
  lemma {:induction false} CommitIsAccess(t: Table, storeId: nat, recs: seq<KeyRecord>, now: nat, n: nat, k: Key)
    requires n <= |recs|
    ensures
      var u := UpTo(CommitBatch(storeId, recs, now), t, n);
      if k != "" && exists i :: 0 <= i < n && recs[i].key == k then k in u && u[k].accessTime == now
      else (k in u <==> k in t) && (k in t ==> u[k] == t[k])
  {
    if n > 0 {
      CommitIsAccess(t, storeId, recs, now, n - 1, k);
      assert recs[n - 1].key == k || (forall i :: 0 <= i < n && recs[i].key == k ==> i < n - 1);
    }
  }

  /** Which records the two queries show: the committed ones, or all that are not evicted. */
  lemma ShownIff(t: Table, stores: map<nat, StoreInfo>, k: Key, at: nat)
    requires TableWf(t)
    ensures Answer(t, stores, Exist, k, at).key != "" <==> k in t && t[k].stat == 1
    ensures Answer(t, stores, Lookup, k, at).key != "" <==> k in t && t[k].stat != 2
  {
    if k in t { assert t[k].key == k != ""; }
  }

  /** A key no table names, or one removed, is answered blank. */
  lemma RemovedIsBlank(t: Table, keys: seq<Key>, stores: map<nat, StoreInfo>, q: Query, k: Key, at: nat)
    ensures k in keys || k !in t ==> Answer(RemoveAll(t, keys), stores, q, k, at).key == ""
    ensures k !in keys ==> Answer(RemoveAll(t, keys), stores, q, k, at) == Answer(t, stores, q, k, at)
  {
  }

  /** Committing the concatenation of two lists is committing one and then the other: a merged
      asynchronous commit equals its parts delivered in order. */
  lemma {:induction false} MergedCommit(t: Table, storeId: nat, a: seq<KeyRecord>, b: seq<KeyRecord>, now: nat, n: nat)
    requires n <= |b|
    ensures UpTo(CommitBatch(storeId, a + b, now), t, |a| + n)
      == UpTo(CommitBatch(storeId, b, now), CommitAll(t, storeId, a, now), n)
  {
    if n > 0 {
      MergedCommit(t, storeId, a, b, now, n - 1);
      assert (a + b)[|a| + n - 1] == b[n - 1];
    } else {
      CommitPrefix(t, storeId, a, b, now, |a|);
    }
  }

  lemma CommitBoth(t: Table, storeId: nat, a: seq<KeyRecord>, b: seq<KeyRecord>, now: nat)
    ensures CommitAll(t, storeId, a + b, now) == CommitAll(CommitAll(t, storeId, a, now), storeId, b, now)
  {
    MergedCommit(t, storeId, a, b, now, |b|);
  }

  lemma {:induction false} CommitPrefix(t: Table, storeId: nat, a: seq<KeyRecord>, b: seq<KeyRecord>, now: nat, n: nat)
    requires n <= |a|
    ensures UpTo(CommitBatch(storeId, a + b, now), t, n) == UpTo(CommitBatch(storeId, a, now), t, n)
  {
    if n > 0 {
      CommitPrefix(t, storeId, a, b, now, n - 1);
      assert (a + b)[n - 1] == a[n - 1];
    }
  }

  // ---------- a removal and the other stores ----------

  /** Every record of a store other than `storeId` is still there, unchanged. */
  ghost predicate OthersKept(t: Table, u: Table, storeId: nat) {
    forall k :: k in t && t[k].storeId != storeId ==> k in u && u[k] == t[k]
  }

  /** No key of the request is committed by another store. */
  ghost predicate OwnKeys(t: Table, storeId: nat, keys: seq<Key>) {
    forall k :: k in keys && k in t ==> t[k].storeId == storeId
  }

  /** A removal on behalf of a store leaves the records of the others alone exactly if none of its
      keys is committed by another store. */
  lemma RemovalSparesOthersIff(t: Table, storeId: nat, keys: seq<Key>)
    ensures OthersKept(t, RemoveAll(t, keys), storeId) <==> OwnKeys(t, storeId, keys)
  {
    var u := RemoveAll(t, keys);
    if !OwnKeys(t, storeId, keys) {
      var k :| k in keys && k in t && t[k].storeId != storeId;
      assert k !in u;
    }
  }

  /** Two stores commit a key, the second last; when the first removes its copy, the record of the
      second, which still holds the key, is gone. */
  lemma RemovalErasesOthers(a: KeyRecord, b: KeyRecord, now: nat)
    requires a.key == b.key != ""
    ensures
      var t := CommitAll(CommitAll(map[], 1, [a], now), 2, [b], now);
      && a.key in t && t[a.key].storeId == 2 && t[a.key].offset == b.offset
      && a.key !in RemoveAll(t, [a.key])
  {
    var t1 := CommitAll(map[], 1, [a], now);
    assert UpTo(CommitBatch(2, [b], now), t1, 1) == Update(CommitBatch(2, [b], now), t1, 0);
  }

  // ---------- sharding ----------

  /** A key's shard, by its hash. */
  function ShardOf(hash: Key -> nat, count: nat): Key -> nat
    requires count > 0
  {
    k => hash(k) % count
  }

  /** The records of `t` whose keys hash to shard `s`. */
  ghost function Part(t: Table, shard: Key -> nat, s: nat): Table {
    map k | k in t && shard(k) == s :: t[k]
  }

  /** Does position `i` go to shard `s`? A commit leaves out records without a key. */
  predicate Goes(b: Batch, shard: Key -> nat, s: nat, i: nat)
    requires i < Size(b)
  {
    shard(KeyAt(b, i)) == s && !(b.CommitBatch? && KeyAt(b, i) == "")
  }

  /** The positions below `n` that go to shard `s`, in order. */
  function Group(b: Batch, shard: Key -> nat, s: nat, n: nat): seq<nat>
    requires n <= Size(b)
  {
    if n == 0 then []
    else
      var g := Group(b, shard, s, n - 1);
      if Goes(b, shard, s, n - 1) then g + [n - 1] else g
  }

  ghost predicate Positions(b: Batch, p: seq<nat>) {
    forall j :: 0 <= j < |p| ==> p[j] < Size(b)
  }

  lemma {:induction false} GroupMembers(b: Batch, shard: Key -> nat, s: nat, n: nat)
    requires n <= Size(b)
    ensures Positions(b, Group(b, shard, s, n))
    ensures forall i: nat :: i in Group(b, shard, s, n) <==> i < n && Goes(b, shard, s, i)
  {
    if n > 0 { GroupMembers(b, shard, s, n - 1); }
  }

  ghost function UpdateEach(b: Batch, t: Table, p: seq<nat>): Table
    decreases |p|
  {
    if p == [] then t else Update(b, UpdateEach(b, t, p[..|p| - 1]), p[|p| - 1])
  }

  lemma UpdateOnPart(b: Batch, t: Table, shard: Key -> nat, s: nat, i: nat)
    requires i < Size(b)
    ensures if Goes(b, shard, s, i)
            then Update(b, Part(t, shard, s), i) == Part(Update(b, t, i), shard, s)
            else Part(t, shard, s) == Part(Update(b, t, i), shard, s)
  {
  }

  lemma UpdateLast(b: Batch, t: Table, p: seq<nat>, i: nat)
    ensures UpdateEach(b, t, p + [i]) == Update(b, UpdateEach(b, t, p), i)
  {
    assert (p + [i])[..|p|] == p;
  }

  /** Running shard `s`'s group of the first `n` positions on its part of the table gives its
      part of the flat result. */
  ghost predicate GroupedSoFar(b: Batch, t: Table, shard: Key -> nat, s: nat, n: nat)
    requires n <= Size(b)
  {
    UpdateEach(b, Part(t, shard, s), Group(b, shard, s, n)) == Part(UpTo(b, t, n), shard, s)
  }

  lemma GroupedStep(b: Batch, t: Table, shard: Key -> nat, s: nat, i: nat)
    requires i < Size(b) && GroupedSoFar(b, t, shard, s, i)
    ensures GroupedSoFar(b, t, shard, s, i + 1)
  {
    UpdateOnPart(b, UpTo(b, t, i), shard, s, i);
    UpdateLast(b, Part(t, shard, s), Group(b, shard, s, i), i);
  }

  /** Running a shard's own group on the shard gives that shard's part of the flat result: the
      order between keys of different shards does not matter. */
  lemma GroupedIsOrdered(b: Batch, t: Table, shard: Key -> nat, s: nat, n: nat)
    requires n <= Size(b)
    ensures GroupedSoFar(b, t, shard, s, n)
  {
    for m := 0 to n
      invariant GroupedSoFar(b, t, shard, s, m)
    {
      GroupedStep(b, t, shard, s, m);
    }
  }

  /** The positions `group` of a query, run on the shard `t`, leave it `u`. */
  ghost predicate QueriedSoFar(q: Query, keys: seq<Key>, now: nat, t: Table, group: seq<nat>, u: Table,
                               results0: seq<KeyRecord>, results: seq<KeyRecord>) {
    && u == UpdateEach(QueryBatch(q, keys, now), t, group) && Touched(q, t, u, now)
    && ShownFor(q, keys, now, t, group, results0, results)
  }

  lemma QueryOne(q: Query, keys: seq<Key>, now: nat, t: Table, u: Table, group: seq<nat>, j: nat,
                 results0: seq<KeyRecord>, results: seq<KeyRecord>)
    requires j < |group| && group[j] < |keys| && QueriedSoFar(q, keys, now, t, group[..j], u, results0, results)
    ensures
      var k := keys[group[j]];
      if k in u && Visible(q, u[k]) then
        var r := u[k].(accessTime := now);
        QueriedSoFar(q, keys, now, t, group[..j + 1], u[k := r], results0, results[group[j] := r])
      else QueriedSoFar(q, keys, now, t, group[..j + 1], u, results0, results)
  {
    UpdateLast(QueryBatch(q, keys, now), t, group[..j], group[j]);
    assert group[..j + 1] == group[..j] + [group[j]];
  }

  /** The answers of the shards below `s` are filled in. */
  ghost predicate ShownBelow(q: Query, keys: seq<Key>, now: nat, t: Table, shard: Key -> nat, s: nat,
                             results: seq<KeyRecord>) {
    && |results| == |keys|
    && forall i :: 0 <= i < |keys| ==>
         results[i] == if shard(keys[i]) < s then Shown(t, q, keys[i], now) else NO_RECORD
  }

  lemma ShownNext(q: Query, keys: seq<Key>, now: nat, t: Table, shard: Key -> nat, s: nat,
                  results0: seq<KeyRecord>, results: seq<KeyRecord>)
    requires ShownBelow(q, keys, now, t, shard, s, results0)
    requires
      var b := QueryBatch(q, keys, now);
      ShownFor(q, keys, now, Part(t, shard, s), Group(b, shard, s, Size(b)), results0, results)
    ensures ShownBelow(q, keys, now, t, shard, s + 1, results)
  {
    var b := QueryBatch(q, keys, now);
    GroupMembers(b, shard, s, Size(b));
    forall i | 0 <= i < |keys|
      ensures results[i] == if shard(keys[i]) < s + 1 then Shown(t, q, keys[i], now) else NO_RECORD
    {
      assert i in Group(b, shard, s, Size(b)) <==> Goes(b, shard, s, i);
    }
  }

  // ---------- the manager itself ----------

  class MetaManager {
    const hash: Key -> nat
    const shardCount: nat
    var shards: seq<Table>
    var stores: map<nat, StoreInfo>
    ghost var table: Table

    ghost predicate Valid()
      reads this
    {
      && shardCount > 0 && |shards| == shardCount && TableWf(table)
      && (forall s :: 0 <= s < shardCount ==> shards[s] == Part(table, ShardOf(hash, shardCount), s))
    }

    constructor (shardCount: nat, hash: Key -> nat)
      requires shardCount > 0
      ensures Valid() && table == map[] && stores == map[]
      ensures this.shardCount == shardCount && this.hash == hash
    {
      this.shardCount, this.hash := shardCount, hash;
      shards := seq(shardCount, _ => map[]);
      stores := map[];
      table := map[];
    }

    method RegisterStore(info: StoreInfo) returns (s: Status)
      requires Valid()
      modifies `stores
      ensures Valid() && s == if info.storeId == 0 then InvalidArg else Ok
      ensures stores == if info.storeId == 0 then old(stores) else old(stores)[info.storeId := info]
    {
      if info.storeId == 0 {
        return InvalidArg;
      }
      stores := stores[info.storeId := info];
      return Ok;
    }

    /** `shard_groups`: for each shard the positions of its keys. */
    method GroupByShard(b: Batch) returns (groups: seq<seq<nat>>)
      requires shardCount > 0
      ensures |groups| == shardCount
      ensures forall s :: 0 <= s < shardCount ==> groups[s] == Group(b, ShardOf(hash, shardCount), s, Size(b))
    {
      groups := seq(shardCount, _ => []);
      for i := 0 to Size(b)
        invariant |groups| == shardCount
        invariant forall s :: 0 <= s < shardCount ==> groups[s] == Group(b, ShardOf(hash, shardCount), s, i)
      {
        if !(b.CommitBatch? && KeyAt(b, i) == "") {
          var s := ShardOf(hash, shardCount)(KeyAt(b, i));
          groups := groups[s := groups[s] + [i]];
        }
      }
    }

    /** One shard's share of a batch, in the order of its group. */
    method RunGroup(b: Batch, s: nat, group: seq<nat>)
      requires s < |shards|
      modifies `shards
      ensures shards == old(shards)[s := UpdateEach(b, old(shards)[s], group)]
    {
      for j := 0 to |group|
        invariant |shards| == |old(shards)|
        invariant shards == old(shards)[s := UpdateEach(b, old(shards)[s], group[..j])]
      {
        UpdateLast(b, old(shards)[s], group[..j], group[j]);
        assert group[..j + 1] == group[..j] + [group[j]];
        shards := shards[s := Update(b, shards[s], group[j])];
      }
      assert group[..|group|] == group;
    }

    method RunBatch(b: Batch)
      requires Valid()
      modifies `shards, `table
      ensures Valid() && table == All(b, old(table))
    {
      var groups := GroupByShard(b);
      ghost var after := All(b, table);
      UpToKeepsWf(b, table, Size(b));
      for s := 0 to shardCount
        invariant |shards| == shardCount && table == old(table)
        invariant forall r :: 0 <= r < s ==> shards[r] == Part(after, ShardOf(hash, shardCount), r)
        invariant forall r :: s <= r < shardCount ==> shards[r] == Part(table, ShardOf(hash, shardCount), r)
      {
        GroupedIsOrdered(b, table, ShardOf(hash, shardCount), s, Size(b));
        if groups[s] != [] {
          RunGroup(b, s, groups[s]);
        }
        assert shards[s] == UpdateEach(b, Part(table, ShardOf(hash, shardCount), s), groups[s]);
      }
      table := after;
    }

    /** `BatchExist` and `BatchLookup`: the answer to `keys[i]` at position `i`, and every
        record shown is touched. */
    method BatchQuery(q: Query, keys: seq<Key>, now: nat) returns (results: seq<KeyRecord>)
      requires Valid()
      modifies `shards, `table
      ensures Valid() && table == All(QueryBatch(q, keys, now), old(table))
      ensures |results| == |keys|
      ensures forall i :: 0 <= i < |keys| ==> results[i] == Answer(old(table), stores, q, keys[i], now)
    {
      var b := QueryBatch(q, keys, now);
      var groups := GroupByShard(b);
      results := seq(|keys|, _ => NO_RECORD);
      ghost var after := All(b, table);
      UpToKeepsWf(b, table, Size(b));
      for s := 0 to shardCount
        invariant |shards| == shardCount && table == old(table)
        invariant forall r :: 0 <= r < s ==> shards[r] == Part(after, ShardOf(hash, shardCount), r)
        invariant forall r :: s <= r < shardCount ==> shards[r] == Part(table, ShardOf(hash, shardCount), r)
        invariant ShownBelow(q, keys, now, table, ShardOf(hash, shardCount), s, results)
      {
        GroupMembers(b, ShardOf(hash, shardCount), s, Size(b));
        GroupedIsOrdered(b, table, ShardOf(hash, shardCount), s, Size(b));
        ghost var before := results;
        results := QueryGroup(q, keys, now, s, groups[s], results);
        ShownNext(q, keys, now, table, ShardOf(hash, shardCount), s, before, results);
      }
      ghost var before := table;
      table := after;
      results := FillRouting(before, q, keys, now, results);
    }

    /** Each record shown gets its store's routing. */
    method FillRouting(ghost t: Table, q: Query, keys: seq<Key>, now: nat, shown: seq<KeyRecord>)
      returns (results: seq<KeyRecord>)
      requires TableWf(t) && |shown| == |keys|
      requires forall i :: 0 <= i < |keys| ==> shown[i] == Shown(t, q, keys[i], now)
      ensures |results| == |keys|
      ensures forall i :: 0 <= i < |keys| ==> results[i] == Answer(t, stores, q, keys[i], now)
    {
      results := shown;
      for i := 0 to |keys|
        invariant |results| == |keys|
        invariant forall j :: 0 <= j < i ==> results[j] == Answer(t, stores, q, keys[j], now)
        invariant forall j :: i <= j < |keys| ==> results[j] == shown[j]
      {
        if results[i].key != "" {
          var info := InfoOf(stores, results[i].storeId);
          results := results[i := results[i].(nodeId := info.nodeId, dataFile := info.dataFile,
                                              storeAddr := info.storeAddr)];
        }
      }
    }

    /** One shard's share of a query. */
    method QueryGroup(q: Query, keys: seq<Key>, now: nat, s: nat, group: seq<nat>, results0: seq<KeyRecord>)
      returns (results: seq<KeyRecord>)
      requires s < |shards| && Positions(QueryBatch(q, keys, now), group) && |results0| == |keys|
      modifies `shards
      ensures shards == old(shards)[s := UpdateEach(QueryBatch(q, keys, now), old(shards)[s], group)]
      ensures ShownFor(q, keys, now, old(shards)[s], group, results0, results)
    {
      ghost var b := QueryBatch(q, keys, now);
      results := results0;
      ghost var t := shards[s];
      for j := 0 to |group|
        invariant |shards| == |old(shards)| && shards == old(shards)[s := shards[s]]
        invariant QueriedSoFar(q, keys, now, t, group[..j], shards[s], results0, results)
      {
        QueryOne(q, keys, now, t, shards[s], group, j, results0, results);
        var k := keys[group[j]];
        if k in shards[s] && Visible(q, shards[s][k]) {
          shards := shards[s := shards[s][k := shards[s][k].(accessTime := now)]];
          results := results[group[j] := shards[s][k]];
        }
      }
      assert group[..|group|] == group;
    }

    method SyncCommit(storeId: nat, recs: seq<KeyRecord>, now: nat) returns (s: Status)
      requires Valid()
      modifies `shards, `table
      ensures Valid() && s == Ok && table == CommitAll(old(table), storeId, recs, now)
    {
      RunBatch(CommitBatch(storeId, recs, now));
      return Ok;
    }

    /** Erases the keys whichever store committed them: the store id is not consulted. */
    method SyncRemove(storeId: nat, keys: seq<Key>) returns (s: Status)
      requires Valid()
      modifies `shards, `table
      ensures Valid() && s == Ok && table == RemoveAll(old(table), keys)
    {
      RunBatch(RemoveBatch(keys));
      RemoveInOrder(old(table), keys, |keys|);
      assert keys[..|keys|] == keys;
      return Ok;
    }
  }
}
