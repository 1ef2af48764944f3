/** From a put at the store to a read at a client: the store's guarantees, Meta's table and the client's
    batch read put together. */
module EndToEnd {
  import opened Base
  import opened DescCache
  import opened MetaTable
  import opened StoreOps
  import opened StoreRuns
  import opened StoreTheorems
  import opened StoreAnnouncements
  import MetaLink
  import ReadClient

  // ---------- what a client knows of a key ----------

  /** A key looked up in the cache is among the hits or the misses. */
  lemma {:induction false} HitOrMiss(view: seq<Desc>, keys: seq<Key>, now: nat, k: Key)
    requires k in keys
    ensures Find(view, k).Some? ==> Find(Hits(view, keys, now), k) == Some(Find(view, k).value.(accessTime := now))
    ensures Find(view, k).None? ==> k in Misses(view, keys)
    decreases |keys|
  {
    var front, last := keys[..|keys| - 1], keys[|keys| - 1];
    assert keys == front + [last];
    FindAt(view, last);
    if Find(view, last).Some? {
      ReadClient.FindAppend(Hits(view, front, now), Find(view, last).value.(accessTime := now), k);
    } else {
      assert Hits(view, keys, now) == Hits(view, front, now);
    }
    if k in front { HitOrMiss(view, front, now, k); } else { OthersAreNoHits(view, front, now, k); }
  }

  lemma {:induction false} OthersAreNoHits(view: seq<Desc>, keys: seq<Key>, now: nat, k: Key)
    requires k !in keys || Find(view, k).None?
    ensures Find(Hits(view, keys, now), k).None?
    decreases |keys|
  {
    if keys != [] {
      var front, last := keys[..|keys| - 1], keys[|keys| - 1];
      OthersAreNoHits(view, front, now, k);
      FindAt(view, last);
      if Find(view, last).Some? {
        ReadClient.FindAppend(Hits(view, front, now), Find(view, last).value.(accessTime := now), k);
      } else {
        assert Hits(view, keys, now) == Hits(view, front, now);
      }
    }
  }

  /** All records of `k` in a reply being the same, that is the one learnt. */
  lemma {:induction false} LearntRecord(records: seq<KeyRecord>, nodeId: nat, r: KeyRecord)
    requires r.key != "" && forall i :: 0 <= i < |records| && records[i].key == r.key ==> records[i] == r
    ensures Find(ReadClient.NewDescs(records, nodeId), r.key)
      == if r in records then Some(ReadClient.DescOf(r, nodeId)) else None
    decreases |records|
  {
    if records != [] {
      var front, last := records[..|records| - 1], records[|records| - 1];
      assert records == front + [last];
      LearntRecord(front, nodeId, r);
      var before := ReadClient.NewDescs(front, nodeId);
      if last.key == "" {
        assert ReadClient.NewDescs(records, nodeId) == before;
      } else {
        ReadClient.FindAppend(before, ReadClient.DescOf(last, nodeId), r.key);
      }
    }
  }

  /** Meta's reply to a query for `keys`. */
  ghost predicate Replied(l: MetaLink.LinkState, q: Query, keys: seq<Key>, at: nat, answer: seq<KeyRecord>) {
    |answer| == |keys| && forall i :: 0 <= i < |keys| ==> answer[i] == Answer(l.table, l.stores, q, keys[i], at)
  }

  /** The descriptor leads to the slot of Meta's record. */
  predicate SamePlace(d: Desc, r: KeyRecord) { d.storeId == r.storeId && d.offset == r.offset && d.size == r.size }

  /** What the client goes by: the hits of its cache, then Meta's reply for the misses. */
  function Known(view: seq<Desc>, keys: seq<Key>, now: nat, answer: seq<KeyRecord>, nodeId: nat): seq<Desc> {
    Hits(view, keys, now) + if Misses(view, keys) == [] then [] else ReadClient.NewDescs(answer, nodeId)
  }

  /** Does the store of this entry run on the client's own node? Node id zero is no node. */
  predicate OwnNode(info: StoreInfo, nodeId: nat) { info.nodeId != 0 && info.nodeId == nodeId }

  /** What Meta has registered of the store of a record. */
  function StoreOf(l: MetaLink.LinkState, r: KeyRecord): StoreInfo {
    if r.storeId in l.stores then l.stores[r.storeId] else StoreInfo(0, 0, "", "")
  }

  /** The descriptor leads where Meta's record and its store's entry lead now. */
  predicate UpToDate(d: Desc, r: KeyRecord, info: StoreInfo, nodeId: nat) {
    && SamePlace(d, r) && d.storeAddr == info.storeAddr
    && d.access == if OwnNode(info, nodeId) then NodeDirect else RemoteRpc
  }

  /** A client whose cache has nothing of the key, or nothing out of date, goes by Meta's record. */
  lemma GoesByMeta(l: MetaLink.LinkState, q: Query, view: seq<Desc>, keys: seq<Key>, now: nat, at: nat,
                   answer: seq<KeyRecord>, nodeId: nat, k: Key)
    requires TableWf(l.table) && k in l.table && Visible(q, l.table[k]) && k in keys
    requires Replied(l, q, Misses(view, keys), at, answer)
    requires Find(view, k).Some? ==> UpToDate(Find(view, k).value, l.table[k], StoreOf(l, l.table[k]), nodeId)
    ensures
      var d := Find(Known(view, keys, now, answer, nodeId), k);
      d.Some? && UpToDate(d.value, l.table[k], StoreOf(l, l.table[k]), nodeId)
  {
    HitOrMiss(view, keys, now, k);
    var misses, r := Misses(view, keys), Answer(l.table, l.stores, q, k, at);
    FindAmong(Hits(view, keys, now), if misses == [] then [] else ReadClient.NewDescs(answer, nodeId), k);
    if Find(view, k).None? {
      OthersAreNoHits(view, keys, now, k);
      var i :| 0 <= i < |misses| && misses[i] == k;
      assert answer[i] == r;
      forall j | 0 <= j < |answer| && answer[j].key == r.key ensures answer[j] == r { assert misses[j] == k; }
      LearntRecord(answer, nodeId, r);
    }
  }

  // ---------- what the client reads ----------

  /** The address a store is read at: its registered one, else the last one the client heard of. */
  function AddressOf(info: StoreInfo, addrs: map<nat, string>, storeId: nat): string {
    if info.storeAddr != "" then info.storeAddr else if storeId in addrs then addrs[storeId] else ""
  }

  /** A descriptor that is up to date is read from the store's file on the client's own node exactly if Meta has
      the store registered there; and otherwise, unless another key of the store leads the group
      elsewhere, over the network at the store's address. */
  lemma ReadWhereRegistered(r: KeyRecord, info: StoreInfo, nodeId: nat, descs: seq<Desc>, addrs: map<nat, string>,
                            j: nat)
    requires j < |descs| && UpToDate(descs[j], r, info, nodeId)
    ensures (forall net: ReadClient.Net :: ReadClient.FileOf(descs, addrs, net, j) == net.node(r.storeId))
      <==> info.nodeId != 0 && info.nodeId == nodeId
    ensures !(info.nodeId != 0 && info.nodeId == nodeId) && ReadClient.AtOwnAddress(descs, addrs, j) ==>
              forall net: ReadClient.Net ::
                ReadClient.FileOf(descs, addrs, net, j) == Some(net.remote(AddressOf(info, addrs, r.storeId)))
  {
    if !OwnNode(info, nodeId) {
      var net := ReadClient.Net(None, _ => None, _ => [], _ => true, _ => true, _ => ReadClient.Unreachable);
      assert ReadClient.FileOf(descs, addrs, net, j) != net.node(r.storeId);
    }
  }

  /** So it is for a key the client has just learnt from Meta. */
  lemma LearntIsReadWhereRegistered(l: MetaLink.LinkState, q: Query, view: seq<Desc>, keys: seq<Key>, now: nat, at: nat,
                                    answer: seq<KeyRecord>, nodeId: nat, k: Key, descs: seq<Desc>,
                                    addrs: map<nat, string>, j: nat)
    requires TableWf(l.table) && k in l.table && Visible(q, l.table[k]) && k in keys
    requires Replied(l, q, Misses(view, keys), at, answer) && Find(view, k).None?
    requires j < |descs| && Find(Known(view, keys, now, answer, nodeId), k) == Some(descs[j])
    requires l.table[k].storeId in l.stores
    ensures
      var (sid, info) := (l.table[k].storeId, l.stores[l.table[k].storeId]);
      && ((forall net: ReadClient.Net :: ReadClient.FileOf(descs, addrs, net, j) == net.node(sid))
          <==> info.nodeId != 0 && info.nodeId == nodeId)
      && (!(info.nodeId != 0 && info.nodeId == nodeId) && info.storeAddr != ""
          && ReadClient.AtOwnAddress(descs, addrs, j) ==>
            forall net: ReadClient.Net :: ReadClient.FileOf(descs, addrs, net, j) == Some(net.remote(info.storeAddr)))
  {
    GoesByMeta(l, q, view, keys, now, at, answer, nodeId, k);
    ReadWhereRegistered(l.table[k], l.stores[l.table[k].storeId], nodeId, descs, addrs, j);
  }

  /** The store's file is where it is registered: on the client's node, or behind its address. */
  predicate FileAt(net: ReadClient.Net, info: StoreInfo, nodeId: nat, storeId: nat, addrs: map<nat, string>,
                   disk: Disk) {
    if OwnNode(info, nodeId) then net.node(storeId) == Some(disk)
    else net.remote(AddressOf(info, addrs, storeId)) == disk
  }

  lemma ReadsTheFile(r: KeyRecord, info: StoreInfo, nodeId: nat, descs: seq<Desc>, addrs: map<nat, string>,
                     net: ReadClient.Net, j: nat, disk: Disk)
    requires j < |descs| && UpToDate(descs[j], r, info, nodeId) && FileAt(net, info, nodeId, r.storeId, addrs, disk)
    requires OwnNode(info, nodeId) || ReadClient.AtOwnAddress(descs, addrs, j)
    ensures ReadClient.FileOf(descs, addrs, net, j) == Some(disk)
  {
    ReadWhereRegistered(r, info, nodeId, descs, addrs, j);
  }

  /** The store goes on for less than the grace period, and never flushes its queue by force. */
  ghost predicate WithinGrace(v: World, cfg: Config, later: seq<Op>, times: seq<nat>) {
    && OpsAllowed(v, cfg, later, true) && OpsAllowed(v, cfg, later, false)
    && |times| == |later| + 1 && OpsTimed(v, cfg, later, times) && times[|later|] < U64
    && EnqueuedBy(v, times[0]) && times[|later|] < times[0] + cfg.grace
    && After(v, cfg, later).space.queue.forced == v.space.queue.forced
  }

  /** What Meta says of a key leads, for less than the grace period, to the bytes last stored under
      it when Meta said so. */
  lemma MetaRecordLasts(w: World, cfg: Config, ops: seq<Op>, later: seq<Op>, times: seq<nat>, k: Key)
    requires Sound(w, cfg) && OpsAllowed(w, cfg, ops, true) && OpsAllowed(w, cfg, ops, false)
    requires OpsTell(w, cfg, ops) && w.space.link.unannounced == {}
    requires
      var l := After(w, cfg, ops).space.link;
      k in l.table && l.table[k].storeId == cfg.storeId
    requires WithinGrace(After(w, cfg, ops), cfg, later, times)
    ensures
      var v, known := After(w, cfg, ops), LastStored(w.written, ops, Replies(w, cfg, ops));
      var r := v.space.link.table[k];
      k in known && PRead(After(v, cfg, later).disk, r.offset, r.size) == Some(known[k])
  {
    MetaNamesLiveBytes(w, cfg, ops, k);
    OpsKeepSound(w, cfg, ops);
    DescriptorsLastForGrace(After(w, cfg, ops), cfg, later, times, k);
  }

  /** The whole way of a key's bytes. A store runs, telling Meta of every removal; a client looks keys up
      and asks Meta for those it does not know; the store runs on, evicting and rewriting slots, for less
      than the grace period; then the client reads the file where Meta has the store registered. If it
      is told of success at a key of that store, its buffer holds what was last stored under the key
      when Meta was asked: all of it exactly if the buffer is of the record's size, and its front if
      the buffer is smaller. */
  lemma ClientReadsLastStored(
    w: World, cfg: Config, ops: seq<Op>, later: seq<Op>, times: seq<nat>, q: Query, view: seq<Desc>, keys: seq<Key>,
    now: nat, asked: nat, answer: seq<KeyRecord>, nodeId: nat, bufs0: seq<seq<byte>>, at: seq<nat>,
    descs: seq<Desc>, parts: seq<seq<byte>>, addrs: map<nat, string>, net: ReadClient.Net, results: seq<int>,
    bufs: seq<seq<byte>>, i: nat)
    requires Sound(w, cfg) && OpsAllowed(w, cfg, ops, true) && OpsAllowed(w, cfg, ops, false)
    requires OpsTell(w, cfg, ops) && w.space.link.unannounced == {}
    requires WithinGrace(After(w, cfg, ops), cfg, later, times)
    requires i < |keys| == |bufs0| && |bufs0[i]| < U32
    requires
      var l := After(w, cfg, ops).space.link;
      && TableWf(l.table) && Replied(l, q, Misses(view, keys), asked, answer)
      && keys[i] in l.table && l.table[keys[i]].storeId == cfg.storeId && Visible(q, l.table[keys[i]])
      && cfg.storeId in l.stores
      && (Find(view, keys[i]).Some? ==>
            UpToDate(Find(view, keys[i]).value, l.table[keys[i]], l.stores[cfg.storeId], nodeId))
    requires ReadClient.Arranged(keys, bufs0, Known(view, keys, now, answer, nodeId), |keys|, at, descs, parts)
    requires ReadClient.Answered(keys, bufs0, at, descs, parts, addrs, net, results, bufs)
    requires
      var info := After(w, cfg, ops).space.link.stores[cfg.storeId];
      && FileAt(net, info, nodeId, cfg.storeId, addrs, After(After(w, cfg, ops), cfg, later).disk)
      && (OwnNode(info, nodeId) || forall j :: 0 <= j < |at| && at[j] == i ==> ReadClient.AtOwnAddress(descs, addrs, j))
    requires results[i] > 0
    ensures
      var known := LastStored(w.written, ops, Replies(w, cfg, ops));
      && keys[i] in known && results[i] == |bufs[i]| == |bufs0[i]|
      && (bufs[i] == known[keys[i]] <==> |bufs0[i]| == |known[keys[i]]|)
      && (|bufs0[i]| <= |known[keys[i]]| ==> bufs[i] == known[keys[i]][..|bufs0[i]|])
  {
    var v := After(w, cfg, ops);
    var r := v.space.link.table[keys[i]];
    GoesByMeta(v.space.link, q, view, keys, now, asked, answer, nodeId, keys[i]);
    MetaRecordLasts(w, cfg, ops, later, times, keys[i]);
    var j := ReadClient.PositiveMeansKnownBytes(keys, bufs0, Known(view, keys, now, answer, nodeId), at, descs, parts,
                                                addrs, net, results, bufs, i);
    ReadsTheFile(r, v.space.link.stores[cfg.storeId], nodeId, descs, addrs, net, j, After(v, cfg, later).disk);
    FrontOfRecord(After(v, cfg, later).disk, r.offset, r.size, bufs[i],
                  LastStored(w.written, ops, Replies(w, cfg, ops))[keys[i]]);
  }

  /** And the read does succeed, if the store is on the client's node, the file can be read, and no more is asked
      for than the record holds; over the network, if the whole group can be served. */
  lemma ClientReadSucceeds(
    w: World, cfg: Config, ops: seq<Op>, later: seq<Op>, times: seq<nat>, q: Query, view: seq<Desc>, keys: seq<Key>,
    now: nat, asked: nat, answer: seq<KeyRecord>, nodeId: nat, bufs0: seq<seq<byte>>, at: seq<nat>,
    descs: seq<Desc>, parts: seq<seq<byte>>, addrs: map<nat, string>, net: ReadClient.Net, results: seq<int>,
    bufs: seq<seq<byte>>, i: nat)
    requires Sound(w, cfg) && OpsAllowed(w, cfg, ops, true) && OpsAllowed(w, cfg, ops, false)
    requires OpsTell(w, cfg, ops) && w.space.link.unannounced == {}
    requires WithinGrace(After(w, cfg, ops), cfg, later, times)
    requires i < |keys| == |bufs0|
    requires
      var l := After(w, cfg, ops).space.link;
      && TableWf(l.table) && Replied(l, q, Misses(view, keys), asked, answer)
      && keys[i] in l.table && l.table[keys[i]].storeId == cfg.storeId && Visible(q, l.table[keys[i]])
      && cfg.storeId in l.stores
      && (Find(view, keys[i]).Some? ==>
            UpToDate(Find(view, keys[i]).value, l.table[keys[i]], l.stores[cfg.storeId], nodeId))
      && 0 < |bufs0[i]| <= l.table[keys[i]].size && |bufs0[i]| < 0x8000_0000
    requires ReadClient.Arranged(keys, bufs0, Known(view, keys, now, answer, nodeId), |keys|, at, descs, parts)
    requires ReadClient.Answered(keys, bufs0, at, descs, parts, addrs, net, results, bufs)
    requires
      var info := After(w, cfg, ops).space.link.stores[cfg.storeId];
      && FileAt(net, info, nodeId, cfg.storeId, addrs, After(After(w, cfg, ops), cfg, later).disk)
      && forall j :: 0 <= j < |at| && at[j] == i ==>
           if OwnNode(info, nodeId) then net.nodeOk(j) else ReadClient.CanBeServed(descs, parts, addrs, net, j)
    ensures results[i] == |bufs0[i]|
  {
    var v := After(w, cfg, ops);
    var r, info := v.space.link.table[keys[i]], v.space.link.stores[cfg.storeId];
    GoesByMeta(v.space.link, q, view, keys, now, asked, answer, nodeId, keys[i]);
    MetaRecordLasts(w, cfg, ops, later, times, keys[i]);
    forall j | 0 <= j < |at| && at[j] == i ensures ReadClient.CanBeServed(descs, parts, addrs, net, j) {
      if OwnNode(info, nodeId) {
        OwnNodeServes(r, info, nodeId, descs, parts, addrs, net, j, After(v, cfg, later).disk);
      }
    }
    ReadClient.ServedIsPositive(keys, bufs0, Known(view, keys, now, answer, nodeId), at, descs, parts, addrs, net,
                                results, bufs, i);
  }

  lemma OwnNodeServes(r: KeyRecord, info: StoreInfo, nodeId: nat, descs: seq<Desc>, parts: seq<seq<byte>>,
                      addrs: map<nat, string>, net: ReadClient.Net, j: nat, disk: Disk)
    requires j < |descs| == |parts| && UpToDate(descs[j], r, info, nodeId) && OwnNode(info, nodeId) && net.nodeOk(j)
    requires FileAt(net, info, nodeId, r.storeId, addrs, disk) && PRead(disk, r.offset, r.size).Some?
    requires 0 < |parts[j]| <= r.size
    ensures ReadClient.CanBeServed(descs, parts, addrs, net, j)
  {
  }

  lemma FrontOfRecord(d: Disk, off: nat, size: nat, buf: seq<byte>, data: seq<byte>)
    requires PRead(d, off, |buf|) == Some(buf) && PRead(d, off, size) == Some(data)
    ensures |data| == size && (buf == data <==> |buf| == |data|) && (|buf| <= |data| ==> buf == data[..|buf|])
  {
    if |buf| <= size { FrontOfRead(d, off, |buf|, size); }
    assert data[..|data|] == data;
  }
}
