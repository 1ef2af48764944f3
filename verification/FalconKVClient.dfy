/** The client's batch reads (src/client/falconkv_client_impl.cpp): positions are gathered into
    groups by how their key is reached, each group is read at once, and the answers are scattered
    back to their positions. */
module ReadClient {
  import opened Base
  import opened DescCache
  import MetaTable
  import opened ReadFraming
  import opened StoreOps

  // ---------- groups ----------

  datatype ReadGroup = Local | SameNode | Remote(storeId: nat)

  function GroupOf(d: Desc): ReadGroup {
    match d.access
    case LocalDirect => Local
    case NodeDirect => SameNode
    case RemoteRpc => Remote(d.storeId)
  }

  /** The positions below `n` of a group, in order. */
  function Members(descs: seq<Desc>, g: ReadGroup, n: nat): seq<nat>
    requires n <= |descs|
  {
    if n == 0 then []
    else
      var m := Members(descs, g, n - 1);
      if GroupOf(descs[n - 1]) == g then m + [n - 1] else m
  }

  function Positions(descs: seq<Desc>, g: ReadGroup): seq<nat> { Members(descs, g, |descs|) }

  lemma {:induction false} MembersAre(descs: seq<Desc>, g: ReadGroup, n: nat)
    requires n <= |descs|
    ensures forall i: nat :: i in Members(descs, g, n) <==> i < n && GroupOf(descs[i]) == g
    ensures forall a, b :: 0 <= a < b < |Members(descs, g, n)| ==> Members(descs, g, n)[a] < Members(descs, g, n)[b]
  {
    if n > 0 {
      MembersAre(descs, g, n - 1);
      var m := Members(descs, g, n - 1);
      assert forall i :: 0 <= i < |m| ==> m[i] in m;
    }
  }

  lemma MemberIndex(descs: seq<Desc>, g: ReadGroup, a: nat)
    requires a < |Positions(descs, g)|
    ensures Positions(descs, g)[a] < |descs| && GroupOf(descs[Positions(descs, g)[a]]) == g
  {
    MembersAre(descs, g, |descs|);
    assert Positions(descs, g)[a] in Positions(descs, g);
  }

  // ---------- what the reads meet ----------

  /** The fate of a group's call: no connection, no reply, or served with these outcomes. */
  datatype Fate = Unreachable | Lost | Served(allocs: nat -> bool, oks: nat -> bool)

  /** The files within reach, and how each read fares: local reads and those of a remote group
      numbered within their batch, same-node reads by position. */
  datatype Net = Net(
    local: Option<Disk>, node: nat -> Option<Disk>, remote: string -> Disk,
    localOk: nat -> bool, nodeOk: nat -> bool, fate: nat -> Fate)

  /** `RemoteAddrForDesc`: the descriptor's own address, else the last one known of its store. */
  function AddrOf(addrs: map<nat, string>, d: Desc): string {
    if d.access != RemoteRpc then ""
    else if d.storeAddr != "" then d.storeAddr
    else if d.storeId in addrs then addrs[d.storeId] else ""
  }

  function SegmentsOf(descs: seq<Desc>, bufs: seq<seq<byte>>, pos: seq<nat>): seq<Segment>
    requires |descs| == |bufs| && forall a :: 0 <= a < |pos| ==> pos[a] < |descs|
  {
    seq(|pos|, a requires 0 <= a < |pos| => Segment(descs[pos[a]].offset, |bufs[pos[a]]|))
  }

  lemma PositionsInRange(descs: seq<Desc>, g: ReadGroup)
    ensures InRange(Positions(descs, g), |descs|)
  {
    forall a | 0 <= a < |Positions(descs, g)| ensures Positions(descs, g)[a] < |descs| {
      MemberIndex(descs, g, a);
    }
  }

  // ---------- what each position gets ----------

  /** The address a remote group is read at: that of its first member. */
  function GroupAddr(descs: seq<Desc>, addrs: map<nat, string>, storeId: nat): string {
    var pos := Positions(descs, Remote(storeId));
    if pos == [] then ""
    else
      PositionsInRange(descs, Remote(storeId));
      AddrOf(addrs, descs[pos[0]])
  }

  /** The file position `i` is read from. */
  function FileOf(descs: seq<Desc>, addrs: map<nat, string>, net: Net, i: nat): Option<Disk>
    requires i < |descs|
  {
    match GroupOf(descs[i])
    case Local => net.local
    case SameNode => net.node(descs[i].storeId)
    case Remote(sid) => Some(net.remote(GroupAddr(descs, addrs, sid)))
  }

  /** Do the reads of a whole group succeed? Same-node reads succeed one by one. */
  ghost predicate GroupReads(descs: seq<Desc>, bufs: seq<seq<byte>>, addrs: map<nat, string>, net: Net, g: ReadGroup)
    requires |descs| == |bufs|
  {
    PositionsInRange(descs, g);
    var segs := SegmentsOf(descs, bufs, Positions(descs, g));
    match g
    case Local => net.local.Some? && AllReadable(net.local.value, segs, net.localOk)
    case SameNode => true
    case Remote(sid) =>
      var addr := GroupAddr(descs, addrs, sid);
      && addr != "" && net.fate(sid).Served? && AllReadable(net.remote(addr), segs, net.fate(sid).oks)
      && forall a :: 0 <= a < |segs| ==> net.fate(sid).allocs(a)
  }

  ghost predicate Reads(descs: seq<Desc>, bufs: seq<seq<byte>>, addrs: map<nat, string>, net: Net, i: nat)
    requires |descs| == |bufs| && i < |descs|
  {
    && GroupReads(descs, bufs, addrs, net, GroupOf(descs[i]))
    && (GroupOf(descs[i]) == SameNode ==>
          net.node(descs[i].storeId).Some? && net.nodeOk(i)
            && PRead(net.node(descs[i].storeId).value, descs[i].offset, |bufs[i]|).Some?)
  }

  /** The result and the buffer of position `i`: on success the buffer is filled from the key's
      own descriptor and the result is its size as a 32-bit number (a remote group reports only
      positive ones); a local key without a local store is left at 0; all else is -1. */
  ghost predicate Got(descs: seq<Desc>, bufs: seq<seq<byte>>, addrs: map<nat, string>, net: Net, i: nat, result: int,
                      buf: seq<byte>)
    requires |descs| == |bufs| && i < |descs|
  {
    var n, file := |bufs[i]|, FileOf(descs, addrs, net, i);
    && |buf| == n
    && if Reads(descs, bufs, addrs, net, i) then
         && file.Some? && descs[i].offset + n <= |file.value| && buf == file.value[descs[i].offset..descs[i].offset + n]
         && result == if GroupOf(descs[i]).Remote? && ToInt32(n) <= 0 then -1 else ToInt32(n)
       else result == if GroupOf(descs[i]) == Local && net.local.None? then 0 else -1
  }

  /** The groups of `done` have been read; the other positions are as they were. */
  ghost predicate Progress(descs: seq<Desc>, bufs0: seq<seq<byte>>, addrs: map<nat, string>, net: Net,
                           done: iset<ReadGroup>,
                           results: seq<int>, bufs: seq<seq<byte>>)
    requires |descs| == |bufs0|
  {
    && |results| == |bufs| == |descs|
    && forall i :: 0 <= i < |descs| ==>
         if GroupOf(descs[i]) in done then Got(descs, bufs0, addrs, net, i, results[i], bufs[i])
         else results[i] == 0 && bufs[i] == bufs0[i]
  }

  /** A positive result at a position means its buffer holds the bytes at that key's own
      descriptor, and counts them. */
  lemma PositiveMeansOwnBytes(descs: seq<Desc>, bufs0: seq<seq<byte>>, addrs: map<nat, string>, net: Net, i: nat,
                              result: int, buf: seq<byte>)
    requires |descs| == |bufs0| && i < |descs| && |bufs0[i]| < U32
    requires Got(descs, bufs0, addrs, net, i, result, buf) && result > 0
    ensures
      var file := FileOf(descs, addrs, net, i);
      file.Some? && result == |buf| && PRead(file.value, descs[i].offset, |buf|) == Some(buf)
  {
  }

  /** How failure shows: a same-node key that cannot be read, and any remote key not given bytes, answer -1; a
      local key answers 0 if there is no local store. A buffer of 2^31 bytes or more shows as a
      negative count, but for a remote key. */
  lemma FailureShows(descs: seq<Desc>, bufs: seq<seq<byte>>, addrs: map<nat, string>, net: Net, i: nat, result: int,
                     buf: seq<byte>)
    requires |descs| == |bufs| && i < |descs| && |bufs[i]| < U32 && Got(descs, bufs, addrs, net, i, result, buf)
    ensures descs[i].access == RemoteRpc ==> result == -1 || result == |bufs[i]| > 0
    ensures descs[i].access == LocalDirect && net.local.None? ==> result == 0
    ensures descs[i].access == LocalDirect && net.local.Some? ==>
              result == -1 || result == |bufs[i]| || (|bufs[i]| >= 0x8000_0000 && result == |bufs[i]| - U32)
    ensures descs[i].access == NodeDirect && (net.node(descs[i].storeId).None? || !net.nodeOk(i)) ==> result == -1
  {
  }

  // ---------- how many bytes a key is given ----------

  /** A read asks for as many bytes as the buffer holds; the descriptor's size is not consulted. So a
      positive result means the buffer is the key's record exactly if it is of the record's size. */
  lemma RecordSizedIff(descs: seq<Desc>, bufs0: seq<seq<byte>>, addrs: map<nat, string>, net: Net, i: nat, result: int,
                       buf: seq<byte>)
    requires |descs| == |bufs0| && i < |descs| && |bufs0[i]| < U32
    requires Got(descs, bufs0, addrs, net, i, result, buf) && result > 0
    ensures
      var file := FileOf(descs, addrs, net, i);
      && file.Some?
      && (PRead(file.value, descs[i].offset, descs[i].size) == Some(buf) <==> |buf| == descs[i].size)
      && (|buf| <= descs[i].size && PRead(file.value, descs[i].offset, descs[i].size).Some? ==>
            buf == PRead(file.value, descs[i].offset, descs[i].size).value[..|buf|])
      && (|buf| >= descs[i].size ==>
            PRead(file.value, descs[i].offset, descs[i].size) == Some(buf[..descs[i].size]))
  {
    PositiveMeansOwnBytes(descs, bufs0, addrs, net, i, result, buf);
    var file, off, size := FileOf(descs, addrs, net, i).value, descs[i].offset, descs[i].size;
    if |buf| >= size {
      FrontOfRead(file, off, size, |buf|);
    } else if PRead(file, off, size).Some? {
      FrontOfRead(file, off, |buf|, size);
    }
    assert buf[..|buf|] == buf;
  }

  /** With a buffer larger than the record the read runs on into the next slot: a record of one byte,
      read into two, comes with its neighbour's byte, and the result counts both. */
  lemma LargerBufferReadsOn(d: Desc, net: Net, result: int, buf: seq<byte>)
    requires d.access == NodeDirect && d.offset == 0 && d.size == 1
    requires net.node(d.storeId) == Some([1, 2]) && net.nodeOk(0)
    requires Got([d], [[0, 0]], map[], net, 0, result, buf)
    ensures result == 2 && buf == [1, 2] && PRead([1, 2], d.offset, d.size) == Some([1])
  {
    var file: seq<byte> := [1, 2];
    var one: seq<byte> := [1];
    assert file[0..2] == file && file[0..1] == one;
    assert Reads([d], [[0, 0]], map[], net, 0);
  }

  // ---------- whose bytes a remote key is given ----------

  /** Does the first remote key of the same store resolve to the address of key `i`? */
  predicate AtOwnAddress(descs: seq<Desc>, addrs: map<nat, string>, i: nat)
    requires i < |descs|
  {
    GroupAddr(descs, addrs, descs[i].storeId) == AddrOf(addrs, descs[i])
  }

  /** Can a remote key be read at all? Its group has an address and no empty buffer, and its own
      buffer's size is positive as a 32-bit number. */
  ghost predicate CanBeRead(descs: seq<Desc>, bufs: seq<seq<byte>>, addrs: map<nat, string>, i: nat)
    requires |descs| == |bufs| && i < |descs|
  {
    PositionsInRange(descs, GroupOf(descs[i]));
    && GroupAddr(descs, addrs, descs[i].storeId) != "" && ToInt32(|bufs[i]|) > 0
    && forall j: nat :: j in Positions(descs, GroupOf(descs[i])) ==> bufs[j] != []
  }

  /** The bytes at key `i`'s own descriptor, at its own address. */
  ghost predicate OwnBytes(descs: seq<Desc>, addrs: map<nat, string>, net: Net, i: nat, buf: seq<byte>)
    requires i < |descs|
  {
    PRead(net.remote(AddrOf(addrs, descs[i])), descs[i].offset, |buf|) == Some(buf)
  }

  /** A remote key is read from the file at its own address, whatever the files hold, exactly when
      the first remote key of the same store resolves to the same address. */
  lemma OwnFileIff(descs: seq<Desc>, addrs: map<nat, string>, i: nat)
    requires i < |descs| && descs[i].access == RemoteRpc
    ensures (forall net: Net :: FileOf(descs, addrs, net, i) == Some(net.remote(AddrOf(addrs, descs[i]))))
      <==> AtOwnAddress(descs, addrs, i)
  {
    var net := OnlyAt(GroupAddr(descs, addrs, descs[i].storeId), 1);
    assert FileOf(descs, addrs, net, i) == Some(Zeros(1));
  }

  /** So the bytes behind every positive result are the key's own, whatever the network does,
      exactly when the key is at its own address or can never be read. */
  lemma PositiveIsOwnIff(descs: seq<Desc>, bufs: seq<seq<byte>>, addrs: map<nat, string>, i: nat)
    requires |descs| == |bufs| && i < |descs| && descs[i].access == RemoteRpc && |bufs[i]| < U32
    ensures
      (forall net: Net, result: int, buf: seq<byte> ::
         Got(descs, bufs, addrs, net, i, result, buf) && result > 0 ==> OwnBytes(descs, addrs, net, i, buf))
      <==> (CanBeRead(descs, bufs, addrs, i) ==> AtOwnAddress(descs, addrs, i))
  {
    if CanBeRead(descs, bufs, addrs, i) && !AtOwnAddress(descs, addrs, i) {
      var net := Misread(descs, bufs, addrs, i);
      assert !OwnBytes(descs, addrs, net, i, Zeros(|bufs[i]|));
    } else {
      forall net: Net, result: int, buf: seq<byte> | Got(descs, bufs, addrs, net, i, result, buf) && result > 0
        ensures OwnBytes(descs, addrs, net, i, buf)
      {
        ReadMeansCanBeRead(descs, bufs, addrs, net, i, result, buf);
      }
    }
  }

  lemma ReadMeansCanBeRead(descs: seq<Desc>, bufs: seq<seq<byte>>, addrs: map<nat, string>, net: Net, i: nat,
                           result: int, buf: seq<byte>)
    requires |descs| == |bufs| && i < |descs| && descs[i].access == RemoteRpc && |bufs[i]| < U32
    requires Got(descs, bufs, addrs, net, i, result, buf) && result > 0
    ensures CanBeRead(descs, bufs, addrs, i)
  {
    var pos := Positions(descs, GroupOf(descs[i]));
    PositionsInRange(descs, GroupOf(descs[i]));
    forall j: nat | j in pos ensures bufs[j] != [] {
      var a :| 0 <= a < |pos| && pos[a] == j;
      assert SegmentsOf(descs, bufs, pos)[a].size == |bufs[j]|;
    }
  }

  /** A network with one file, at `addr`, where every call and read succeeds. */
  ghost function OnlyAt(addr: string, size: nat): Net {
    Net(None, _ => None, a => if a == addr then Zeros(size) else [], _ => true, _ => true,
        _ => Served(_ => true, _ => true))
  }

  /** Room for every segment. */
  function Reach(segs: seq<Segment>): nat
    decreases |segs|
  {
    if segs == [] then 0 else Max(Reach(segs[..|segs| - 1]), segs[|segs| - 1].offset + segs[|segs| - 1].size)
  }

  lemma {:induction false} ReachCovers(segs: seq<Segment>, a: nat)
    requires a < |segs|
    ensures segs[a].offset + segs[a].size <= Reach(segs)
    decreases |segs|
  {
    if a < |segs| - 1 { ReachCovers(segs[..|segs| - 1], a); }
  }

  /** A readable key that is not at its own address is given another file's bytes. */
  lemma Misread(descs: seq<Desc>, bufs: seq<seq<byte>>, addrs: map<nat, string>, i: nat) returns (net: Net)
    requires |descs| == |bufs| && i < |descs| && descs[i].access == RemoteRpc && |bufs[i]| < U32
    requires CanBeRead(descs, bufs, addrs, i) && !AtOwnAddress(descs, addrs, i)
    ensures Got(descs, bufs, addrs, net, i, ToInt32(|bufs[i]|), Zeros(|bufs[i]|)) && ToInt32(|bufs[i]|) > 0
    ensures net.remote(AddrOf(addrs, descs[i])) == []
  {
    var g := GroupOf(descs[i]);
    var pos := Positions(descs, g);
    PositionsInRange(descs, g);
    MembersAre(descs, g, |descs|);
    var segs := SegmentsOf(descs, bufs, pos);
    var addr, size := GroupAddr(descs, addrs, descs[i].storeId), Reach(segs);
    net := OnlyAt(addr, size);
    forall a | 0 <= a < |segs| ensures Readable(Zeros(size), segs[a], true) {
      ReachCovers(segs, a);
      assert pos[a] in pos;
    }
    var at :| 0 <= at < |pos| && pos[at] == i;
    assert segs[at] == Segment(descs[i].offset, |bufs[i]|);
    ReachCovers(segs, at);
    assert Zeros(size)[descs[i].offset..descs[i].offset + |bufs[i]|] == Zeros(|bufs[i]|);
  }

  /** A group is read at its first key's address: here the second key, whose
      own store holds a 2, is given the 1 of the other. */
  lemma MixedAddressesMisread(d0: Desc, d1: Desc, net: Net, result: int, buf: seq<byte>)
    requires d0 == Desc("x", 1, 0, 1, 0, "a", RemoteRpc) && d1 == Desc("y", 1, 0, 1, 0, "b", RemoteRpc)
    requires net.remote("a") == [1] && net.remote("b") == [2] && net.fate(1).Served?
    requires forall j :: net.fate(1).oks(j) && net.fate(1).allocs(j)
    requires Got([d0, d1], [[0], [0]], map[], net, 1, result, buf)
    ensures result == 1 && buf == [1] && PRead(net.remote(AddrOf(map[], d1)), d1.offset, 1) == Some([2])
  {
    var descs := [d0, d1];
    var g := Remote(1);
    assert Members(descs, g, 0) == [] && Members(descs, g, 1) == [0] && Members(descs, g, 2) == [0, 1];
    assert GroupAddr(descs, map[], 1) == "a";
    var segs := SegmentsOf(descs, [[0], [0]], [0, 1]);
    assert segs == [Segment(0, 1), Segment(0, 1)];
    assert forall j :: 0 <= j < |segs| ==> Readable(net.remote("a"), segs[j], net.fate(1).oks(j));
    var one: seq<byte> := [1];
    assert one[0..1] == [1];
    var two: seq<byte> := [2];
    assert two[0..1] == [2];
  }

  // ---------- the client itself ----------

  /** Taking one more group's positions to their results. */
  ghost predicate Scattered(descs: seq<Desc>, bufs0: seq<seq<byte>>, addrs: map<nat, string>, net: Net, g: ReadGroup,
                            r0: seq<int>, b0: seq<seq<byte>>, r: seq<int>, b: seq<seq<byte>>)
    requires |descs| == |bufs0|
  {
    && |r| == |b| == |r0| == |b0| == |descs|
    && forall i :: 0 <= i < |descs| ==>
         if GroupOf(descs[i]) == g then Got(descs, bufs0, addrs, net, i, r[i], b[i]) else r[i] == r0[i] && b[i] == b0[i]
  }

  lemma ProgressOne(descs: seq<Desc>, bufs0: seq<seq<byte>>, addrs: map<nat, string>, net: Net, done: iset<ReadGroup>,
                    g: ReadGroup,
                    r0: seq<int>, b0: seq<seq<byte>>, r: seq<int>, b: seq<seq<byte>>)
    requires |descs| == |bufs0| && Progress(descs, bufs0, addrs, net, done, r0, b0)
    requires Scattered(descs, bufs0, addrs, net, g, r0, b0, r, b)
    ensures Progress(descs, bufs0, addrs, net, done + iset{g}, r, b)
  {
  }

  class FalconKVClientImpl {
    const nodeId: nat
    const cache: KeyDescCache
    var storeAddrMap: map<nat, string>

    constructor (nodeId: nat, cacheCapacity: nat)
      ensures this.nodeId == nodeId && fresh(cache) && cache.Valid() && cache.view == [] && storeAddrMap == map[]
      ensures cache.capacity == cacheCapacity && cache.nodes == {}
    {
      this.nodeId := nodeId;
      cache := new KeyDescCache(cacheCapacity);
      storeAddrMap := map[];
    }

    function RemoteAddrForDesc(d: Desc): (addr: string)
      reads this
      ensures addr == AddrOf(storeAddrMap, d)
    {
      if d.access == RemoteRpc then
        if d.storeAddr != "" then d.storeAddr
        else if d.storeId in storeAddrMap then storeAddrMap[d.storeId] else ""
      else ""
    }

    /** The positions of one group, gathered by a scan. */
    method Gather(descs: seq<Desc>, g: ReadGroup) returns (pos: seq<nat>)
      ensures pos == Positions(descs, g)
    {
      pos := [];
      for i := 0 to |descs|
        invariant pos == Members(descs, g, i)
      {
        if GroupOf(descs[i]) == g {
          pos := pos + [i];
        }
      }
    }

    /** A group's answers go back to its positions. */
    method Scatter(pos: seq<nat>, vals: seq<int>, parts: seq<seq<byte>>, r0: seq<int>, b0: seq<seq<byte>>)
      returns (r: seq<int>, b: seq<seq<byte>>)
      requires |pos| == |vals| == |parts| && |r0| == |b0| && InRange(pos, |r0|)
      requires forall a, c :: 0 <= a < c < |pos| ==> pos[a] < pos[c]
      ensures Spread(pos, vals, parts, r0, b0, r, b)
    {
      r, b := r0, b0;
      for a := 0 to |pos|
        invariant |r| == |b| == |r0|
        invariant forall c :: 0 <= c < a ==> r[pos[c]] == vals[c] && b[pos[c]] == parts[c]
        invariant forall i: nat :: i < |r0| && (forall c :: 0 <= c < a ==> pos[c] != i) ==>
                    r[i] == r0[i] && b[i] == b0[i]
      {
        r, b := r[pos[a] := vals[a]], b[pos[a] := parts[a]];
      }
    }

    /** The local keys: one batch read of the local store, which fails or succeeds as a whole. */
    method ReadLocal(descs: seq<Desc>, bufs0: seq<seq<byte>>, net: Net, r0: seq<int>, b0: seq<seq<byte>>)
      returns (r: seq<int>, b: seq<seq<byte>>)
      requires |descs| == |bufs0| && Progress(descs, bufs0, storeAddrMap, net, iset{}, r0, b0)
      ensures Scattered(descs, bufs0, storeAddrMap, net, Local, r0, b0, r, b)
    {
      r, b := r0, b0;
      var pos := Gather(descs, Local);
      PositionsInRange(descs, Local);
      MembersAre(descs, Local, |descs|);
      if net.local.Some? {
        var segs := SegmentsOf(descs, bufs0, pos);
        var failed, read := ReadAll(net.local.value, segs, net.localOk);
        var vals := seq(|pos|, a requires 0 <= a < |pos| => if failed then -1 else ToInt32(|bufs0[pos[a]]|));
        var parts := if failed then seq(|pos|, a requires 0 <= a < |pos| => b0[pos[a]]) else read;
        r, b := Scatter(pos, vals, parts, r0, b0);
        forall a | 0 <= a < |pos| ensures Got(descs, bufs0, storeAddrMap, net, pos[a], vals[a], parts[a]) {
          MemberIndex(descs, Local, a);
          LocalGot(descs, bufs0, storeAddrMap, net, a, vals[a], parts[a]);
        }
        SpreadScatters(descs, bufs0, storeAddrMap, net, Local, vals, parts, r0, b0, r, b);
      } else {
        forall i | 0 <= i < |descs| && GroupOf(descs[i]) == Local
          ensures Got(descs, bufs0, storeAddrMap, net, i, r[i], b[i])
        {
        }
      }
    }

    /** The same-node keys: each read stands alone. */
    method ReadSameNode(descs: seq<Desc>, bufs0: seq<seq<byte>>, net: Net, r0: seq<int>, b0: seq<seq<byte>>)
      returns (r: seq<int>, b: seq<seq<byte>>)
      requires |descs| == |bufs0| && Progress(descs, bufs0, storeAddrMap, net, iset{Local}, r0, b0)
      ensures Scattered(descs, bufs0, storeAddrMap, net, SameNode, r0, b0, r, b)
    {
      var pos := Gather(descs, SameNode);
      PositionsInRange(descs, SameNode);
      MembersAre(descs, SameNode, |descs|);
      var vals: seq<int>, parts: seq<seq<byte>> := [], [];
      for a := 0 to |pos|
        invariant |vals| == |parts| == a
        invariant forall c :: 0 <= c < a ==> Got(descs, bufs0, storeAddrMap, net, pos[c], vals[c], parts[c])
      {
        MemberIndex(descs, SameNode, a);
        var v, part := ReadNode(descs, bufs0, net, pos[a]);
        vals, parts := vals + [v], parts + [part];
      }
      r, b := Scatter(pos, vals, parts, r0, b0);
      SpreadScatters(descs, bufs0, storeAddrMap, net, SameNode, vals, parts, r0, b0, r, b);
    }

    method ReadNode(descs: seq<Desc>, bufs0: seq<seq<byte>>, net: Net, i: nat) returns (v: int, part: seq<byte>)
      requires |descs| == |bufs0| && i < |descs| && GroupOf(descs[i]) == SameNode
      ensures Got(descs, bufs0, storeAddrMap, net, i, v, part)
    {
      var file := net.node(descs[i].storeId);
      if file.None? || !net.nodeOk(i) {
        return -1, bufs0[i];
      }
      var bytes := PRead(file.value, descs[i].offset, |bufs0[i]|);
      if bytes.None? {
        return -1, bufs0[i];
      }
      return ToInt32(|bufs0[i]|), bytes.value;
    }

    /** One store's remote keys: one call at the first key's address. */
    method ReadRemote(descs: seq<Desc>, bufs0: seq<seq<byte>>, net: Net, storeId: nat, pos: seq<nat>, r0: seq<int>,
                      b0: seq<seq<byte>>,
                      ghost done: iset<ReadGroup>)
      returns (r: seq<int>, b: seq<seq<byte>>)
      requires |descs| == |bufs0| && pos == Positions(descs, Remote(storeId)) && pos != []
      requires Progress(descs, bufs0, storeAddrMap, net, done, r0, b0) && Remote(storeId) !in done
      ensures Scattered(descs, bufs0, storeAddrMap, net, Remote(storeId), r0, b0, r, b)
    {
      PositionsInRange(descs, Remote(storeId));
      MembersAre(descs, Remote(storeId), |descs|);
      var vals, parts := ReadMembers(descs, bufs0, net, storeId, pos);
      r, b := Scatter(pos, vals, parts, r0, b0);
      SpreadScatters(descs, bufs0, storeAddrMap, net, Remote(storeId), vals, parts, r0, b0, r, b);
    }

    /** What one store's call gives each of its keys. */
    method ReadMembers(descs: seq<Desc>, bufs0: seq<seq<byte>>, net: Net, storeId: nat, pos: seq<nat>)
      returns (vals: seq<int>, parts: seq<seq<byte>>)
      requires |descs| == |bufs0| && pos == Positions(descs, Remote(storeId)) && pos != [] && InRange(pos, |descs|)
      ensures |vals| == |parts| == |pos|
      ensures forall a :: 0 <= a < |pos| ==> Got(descs, bufs0, storeAddrMap, net, pos[a], vals[a], parts[a])
    {
      MemberIndex(descs, Remote(storeId), 0);
      var before := seq(|pos|, a requires 0 <= a < |pos| => bufs0[pos[a]]);
      var results;
      results, parts := CallRemote(descs, bufs0, net, storeId, pos, before);
      vals := seq(|pos|, a requires 0 <= a < |pos| => if a < |results| && results[a] > 0 then results[a] else -1);
      forall a | 0 <= a < |pos| ensures Got(descs, bufs0, storeAddrMap, net, pos[a], vals[a], parts[a]) {
        MemberIndex(descs, Remote(storeId), a);
      }
    }

    /** The call of a group, and what it leaves in the group's buffers. */
    method CallRemote(descs: seq<Desc>, bufs0: seq<seq<byte>>, net: Net, storeId: nat, pos: seq<nat>,
                      before: seq<seq<byte>>)
      returns (results: seq<int>, parts: seq<seq<byte>>)
      requires |descs| == |bufs0| && pos == Positions(descs, Remote(storeId)) && pos != [] && InRange(pos, |descs|)
      requires |before| == |pos| && forall a :: 0 <= a < |pos| ==> before[a] == bufs0[pos[a]]
      ensures |parts| == |pos|
      ensures
        if GroupReads(descs, bufs0, storeAddrMap, net, Remote(storeId)) then
          && |results| == |pos|
          && forall a :: 0 <= a < |pos| ==>
               FromFile(net.remote(GroupAddr(descs, storeAddrMap, storeId)), descs[pos[a]].offset, |bufs0[pos[a]]|,
                        results[a], parts[a])
        else parts == before && forall a :: 0 <= a < |results| ==> results[a] == -1
    {
      var addr := RemoteAddrForDesc(descs[pos[0]]);
      if addr == "" {
        return [], before;
      }
      var segs := SegmentsOf(descs, bufs0, pos);
      match net.fate(storeId) {
        case Unreachable => return [], before;
        case Lost => return AllFailed(|pos|), before;
        case Served(allocs, oks) =>
          var s;
          s, results, parts := ReadRemotely(net.remote(addr), segs, allocs, oks, before);
      }
    }

    /** The remote positions by store. */
    method GroupByStore(descs: seq<Desc>) returns (groups: map<nat, seq<nat>>)
      ensures forall sid :: sid in groups <==> Positions(descs, Remote(sid)) != []
      ensures forall sid :: sid in groups ==> groups[sid] == Positions(descs, Remote(sid))
    {
      groups := map[];
      for i := 0 to |descs|
        invariant forall sid :: sid in groups <==> Members(descs, Remote(sid), i) != []
        invariant forall sid :: sid in groups ==> groups[sid] == Members(descs, Remote(sid), i)
      {
        if descs[i].access == RemoteRpc {
          var sid := descs[i].storeId;
          groups := groups[sid := (if sid in groups then groups[sid] else []) + [i]];
        }
      }
    }

    /** The remote keys, one call a store, in no particular order of stores. */
    method ReadRemotes(descs: seq<Desc>, bufs0: seq<seq<byte>>, net: Net, r0: seq<int>, b0: seq<seq<byte>>)
      returns (r: seq<int>, b: seq<seq<byte>>)
      requires |descs| == |bufs0| && Progress(descs, bufs0, storeAddrMap, net, iset{Local, SameNode}, r0, b0)
      ensures |r| == |b| == |descs|
      ensures forall i :: 0 <= i < |descs| ==> Got(descs, bufs0, storeAddrMap, net, i, r[i], b[i])
    {
      r, b := r0, b0;
      var groups := GroupByStore(descs);
      var rest := groups.Keys;
      ghost var done := iset{Local, SameNode};
      while rest != {}
        invariant rest <= groups.Keys
        invariant forall g: ReadGroup ::
                    g in done <==>
                    (g == Local || g == SameNode || (g.Remote? && g.storeId in groups && g.storeId !in rest))
        invariant Progress(descs, bufs0, storeAddrMap, net, done, r, b)
        decreases rest
      {
        var sid :| sid in rest;
        rest := rest - {sid};
        ghost var r1, b1 := r, b;
        r, b := ReadRemote(descs, bufs0, net, sid, groups[sid], r, b, done);
        ProgressOne(descs, bufs0, storeAddrMap, net, done, Remote(sid), r1, b1, r, b);
        done := done + iset{Remote(sid)};
      }
      forall i | 0 <= i < |descs| ensures Got(descs, bufs0, storeAddrMap, net, i, r[i], b[i]) {
        MembersAre(descs, GroupOf(descs[i]), |descs|);
        assert i in Positions(descs, GroupOf(descs[i]));
        assert GroupOf(descs[i]) in done;
      }
    }

    /** Every position is read by its own group and by no other. */
    method BatchGet(descs: seq<Desc>, bufs0: seq<seq<byte>>, net: Net) returns (r: seq<int>, b: seq<seq<byte>>)
      ensures |descs| != |bufs0| ==> r == AllFailed(|descs|) && b == bufs0
      ensures |descs| == |bufs0| ==> |r| == |b| == |descs|
      ensures |descs| == |bufs0| ==>
                forall i :: 0 <= i < |descs| ==> Got(descs, bufs0, storeAddrMap, net, i, r[i], b[i])
    {
      if |descs| != |bufs0| {
        return AllFailed(|descs|), bufs0;
      }
      r, b := seq(|descs|, _ => 0), bufs0;
      ghost var r0, b0 := r, b;
      r, b := ReadLocal(descs, bufs0, net, r, b);
      ProgressOne(descs, bufs0, storeAddrMap, net, iset{}, Local, r0, b0, r, b);
      assert iset{} + iset{Local} == iset{Local};
      r0, b0 := r, b;
      r, b := ReadSameNode(descs, bufs0, net, r, b);
      ProgressOne(descs, bufs0, storeAddrMap, net, iset{Local}, SameNode, r0, b0, r, b);
      assert iset{Local} + iset{SameNode} == iset{Local, SameNode};
      r, b := ReadRemotes(descs, bufs0, net, r, b);
    }

    /** The hits of the cache and what Meta adds, by key; the first descriptor of a key stays. */
    method HitMap(hits: seq<Desc>) returns (m: map<Key, Desc>)
      ensures MapsFirst(m, hits)
    {
      m := map[];
      for i := 0 to |hits|
        invariant MapsFirst(m, hits[..i])
      {
        FirstSnoc(hits, i);
        if hits[i].key !in m {
          m := m[hits[i].key := hits[i]];
        }
      }
      assert hits[..|hits|] == hits;
    }

    /** What Meta answered enters the hit map, the cache and the address map. */
    method Learn(records: seq<MetaTable.KeyRecord>, m0: map<Key, Desc>, ghost hits: seq<Desc>)
      returns (m: map<Key, Desc>)
      requires cache.Valid() && MapsFirst(m0, hits)
      modifies `storeAddrMap, cache, cache.nodes
      ensures cache.Valid() && fresh(cache.nodes - old(cache.nodes))
      ensures MapsFirst(m, hits + NewDescs(records, nodeId))
      ensures cache.view == InsertAll(old(cache.view), cache.capacity, Keyed(NewDescs(records, nodeId)))
      ensures storeAddrMap == AddrsAfter(old(storeAddrMap), records)
    {
      m := m0;
      ghost var view0, addrs0, news := cache.view, storeAddrMap, [];
      assert hits + [] == hits && records[..0] == [];
      for i := 0 to |records|
        invariant cache.Valid() && fresh(cache.nodes - old(cache.nodes))
        invariant news == NewDescs(records[..i], nodeId) && MapsFirst(m, hits + news)
        invariant cache.view == InsertAll(view0, cache.capacity, Keyed(news))
        invariant storeAddrMap == AddrsAfter(addrs0, records[..i])
      {
        RecordStep(addrs0, records, nodeId, i);
        if records[i].key != "" {
          var d := DescOf(records[i], nodeId);
          m := LearnRecord(records[i].storeAddr, d, m, hits, news);
          KeyedSnoc(view0, cache.capacity, news, d);
          news := news + [d];
        }
      }
      assert records[..|records|] == records;
    }

    method LearnRecord(addr: string, d: Desc, m0: map<Key, Desc>, ghost hits: seq<Desc>, ghost news: seq<Desc>)
      returns (m: map<Key, Desc>)
      requires cache.Valid() && MapsFirst(m0, hits + news)
      modifies `storeAddrMap, cache, cache.nodes
      ensures cache.Valid() && fresh(cache.nodes - old(cache.nodes))
      ensures MapsFirst(m, hits + (news + [d]))
      ensures cache.view == InsertSpec(old(cache.view), cache.capacity, d.key, d)
      ensures storeAddrMap == if addr == "" then old(storeAddrMap) else old(storeAddrMap)[d.storeId := addr]
    {
      LearnOne(hits, news, d);
      if addr != "" {
        storeAddrMap := storeAddrMap[d.storeId := addr];
      }
      m := if d.key in m0 then m0 else m0[d.key := d];
      cache.Insert(d.key, d);
    }

    /** The positions whose key is known, with their descriptors and buffers. */
    method Arrange(keys: seq<Key>, bufs: seq<seq<byte>>, m: map<Key, Desc>, ghost known: seq<Desc>)
      returns (at: seq<nat>, descs: seq<Desc>, parts: seq<seq<byte>>)
      requires |keys| == |bufs| && MapsFirst(m, known)
      ensures Arranged(keys, bufs, known, |keys|, at, descs, parts)
    {
      at, descs, parts := [], [], [];
      for i := 0 to |keys|
        invariant Arranged(keys, bufs, known, i, at, descs, parts)
      {
        if keys[i] in m {
          at, descs, parts := at + [i], descs + [m[keys[i]]], parts + [bufs[i]];
        }
      }
    }

    /** Known keys are read through `BatchGet` and answered at their own positions; every other
        position is -1 and its buffer untouched. `known` is what the cache and Meta said. */
    method BatchGetSync(keys: seq<Key>, bufs0: seq<seq<byte>>, now: nat, answer: seq<MetaTable.KeyRecord>, net: Net)
      returns (results: seq<int>, bufs: seq<seq<byte>>, ghost known: seq<Desc>, ghost at: seq<nat>,
               ghost descs: seq<Desc>, ghost parts: seq<seq<byte>>)
      requires cache.Valid()
      modifies `storeAddrMap, cache, cache.nodes
      ensures cache.Valid() && fresh(cache.nodes - old(cache.nodes))
      ensures |keys| != |bufs0| ==>
        results == AllFailed(|keys|) && bufs == bufs0 && cache.view == old(cache.view)
        && storeAddrMap == old(storeAddrMap)
      ensures |keys| == |bufs0| ==>
        var (looked, missed) := (LookupAll(old(cache.view), keys, now), Misses(old(cache.view), keys) != []);
        && cache.view == (if missed then InsertAll(looked, cache.capacity, Keyed(NewDescs(answer, nodeId))) else looked)
        && storeAddrMap == if missed then AddrsAfter(old(storeAddrMap), answer) else old(storeAddrMap)
      ensures |keys| == |bufs0| ==>
        known == Hits(old(cache.view), keys, now) + (if Misses(old(cache.view), keys) == [] then []
                                                     else NewDescs(answer, nodeId))
      ensures |keys| == |bufs0| ==> Arranged(keys, bufs0, known, |keys|, at, descs, parts)
      ensures |keys| == |bufs0| ==> Answered(keys, bufs0, at, descs, parts, storeAddrMap, net, results, bufs)
    {
      known, at, descs, parts := [], [], [], [];
      if |keys| != |bufs0| {
        return AllFailed(|keys|), bufs0, known, at, descs, parts;
      }
      var hits, misses := cache.BatchLookup(keys, now);
      var m := HitMap(hits);
      known := hits;
      if misses != [] {
        m := Learn(answer, m, hits);
        known := hits + NewDescs(answer, nodeId);
      } else {
        assert hits + [] == hits;
      }
      var pos, ds, bs := Arrange(keys, bufs0, m, known);
      at, descs, parts := pos, ds, bs;
      var r, b := BatchGet(ds, bs, net);
      results, bufs := Scatter(pos, r, b, AllFailed(|keys|), bufs0);
    }
  }

  lemma LocalGot(descs: seq<Desc>, bufs: seq<seq<byte>>, addrs: map<nat, string>, net: Net, a: nat, v: int,
                 part: seq<byte>)
    requires |descs| == |bufs| && InRange(Positions(descs, Local), |descs|) && a < |Positions(descs, Local)|
      && net.local.Some?
    requires GroupOf(descs[Positions(descs, Local)[a]]) == Local
    requires
      var (i, segs) := (Positions(descs, Local)[a], SegmentsOf(descs, bufs, Positions(descs, Local)));
      if AllReadable(net.local.value, segs, net.localOk)
      then v == ToInt32(|bufs[i]|) && PRead(net.local.value, segs[a].offset, segs[a].size) == Some(part)
      else v == -1 && |part| == |bufs[i]|
    ensures Got(descs, bufs, addrs, net, Positions(descs, Local)[a], v, part)
  {
    var segs := SegmentsOf(descs, bufs, Positions(descs, Local));
    if AllReadable(net.local.value, segs, net.localOk) { assert Readable(net.local.value, segs[a], net.localOk(a)); }
  }

  /** `vals` and `parts` at the positions, and nothing else changed. */
  ghost predicate Spread(pos: seq<nat>, vals: seq<int>, parts: seq<seq<byte>>, r0: seq<int>, b0: seq<seq<byte>>,
                         r: seq<int>, b: seq<seq<byte>>)
    requires |pos| == |vals| == |parts| && InRange(pos, |r0|)
  {
    && |r| == |b| == |r0| == |b0|
    && (forall c :: 0 <= c < |pos| ==> r[pos[c]] == vals[c] && b[pos[c]] == parts[c])
    && (forall i: nat :: i < |r0| && (forall c :: 0 <= c < |pos| ==> pos[c] != i) ==> r[i] == r0[i] && b[i] == b0[i])
  }

  lemma SpreadScatters(descs: seq<Desc>, bufs0: seq<seq<byte>>, addrs: map<nat, string>, net: Net, g: ReadGroup,
                       vals: seq<int>, parts: seq<seq<byte>>, r0: seq<int>, b0: seq<seq<byte>>, r: seq<int>,
                           b: seq<seq<byte>>)
    requires |descs| == |bufs0| == |r0| && InRange(Positions(descs, g), |descs|)
      && |Positions(descs, g)| == |vals| == |parts|
    requires Spread(Positions(descs, g), vals, parts, r0, b0, r, b)
    requires forall a :: 0 <= a < |vals| ==> Got(descs, bufs0, addrs, net, Positions(descs, g)[a], vals[a], parts[a])
    ensures Scattered(descs, bufs0, addrs, net, g, r0, b0, r, b)
  {
    var pos := Positions(descs, g);
    MembersAre(descs, g, |descs|);
    forall i | 0 <= i < |descs|
      ensures if GroupOf(descs[i]) == g then Got(descs, bufs0, addrs, net, i, r[i], b[i])
        else r[i] == r0[i] && b[i] == b0[i]
    {
      if GroupOf(descs[i]) == g {
        assert i in pos;
        var a :| 0 <= a < |pos| && pos[a] == i;
        assert Got(descs, bufs0, addrs, net, pos[a], vals[a], parts[a]);
      } else {
        forall c | 0 <= c < |pos| ensures pos[c] != i { MemberIndex(descs, g, c); }
      }
    }
  }

  // ---------- what is known of the keys ----------

  ghost predicate MapsFirst(m: map<Key, Desc>, l: seq<Desc>) {
    forall k :: (k in m <==> Find(l, k).Some?) && (k in m ==> Find(l, k) == Some(m[k]))
  }

  lemma {:induction false} FindAppend(l: seq<Desc>, d: Desc, k: Key)
    ensures Find(l + [d], k) == if Find(l, k).Some? then Find(l, k) else if d.key == k then Some(d) else None
  {
    if l == [] {
      assert l + [d] == [d] && [d][1..] == [];
    } else {
      assert (l + [d])[1..] == l[1..] + [d];
      FindAppend(l[1..], d, k);
    }
  }

  lemma FirstSnoc(l: seq<Desc>, i: nat)
    requires i < |l|
    ensures forall k :: Find(l[..i + 1], k)
              == if Find(l[..i], k).Some? then Find(l[..i], k) else if l[i].key == k then Some(l[i]) else None
  {
    assert l[..i + 1] == l[..i] + [l[i]];
    forall k
      ensures Find(l[..i + 1], k)
        == if Find(l[..i], k).Some? then Find(l[..i], k) else if l[i].key == k then Some(l[i]) else None
    {
      FindAppend(l[..i], l[i], k);
    }
  }

  /** The descriptor made from Meta's record: reached directly when its store is on this node. */
  function DescOf(r: MetaTable.KeyRecord, nodeId: nat): Desc {
    Desc(r.key, r.storeId, r.offset, r.size, r.accessTime, r.storeAddr,
         if r.nodeId != 0 && r.nodeId == nodeId then NodeDirect else RemoteRpc)
  }

  function NewDescs(records: seq<MetaTable.KeyRecord>, nodeId: nat): seq<Desc>
    decreases |records|
  {
    if records == [] then []
    else
      var last := records[|records| - 1];
      NewDescs(records[..|records| - 1], nodeId) + if last.key == "" then [] else [DescOf(last, nodeId)]
  }

  function AddrsAfter(addrs: map<nat, string>, records: seq<MetaTable.KeyRecord>): map<nat, string>
    decreases |records|
  {
    if records == [] then addrs
    else
      var last, before := records[|records| - 1], AddrsAfter(addrs, records[..|records| - 1]);
      if last.key == "" || last.storeAddr == "" then before else before[last.storeId := last.storeAddr]
  }

  /** Does the record tell where a store is? */
  predicate TellsAddress(r: MetaTable.KeyRecord, storeId: nat) {
    r.key != "" && r.storeId == storeId && r.storeAddr != ""
  }

  /** The client keeps the last address it was told of each store. */
  lemma {:induction false} LastAddressStays(addrs: map<nat, string>, records: seq<MetaTable.KeyRecord>, storeId: nat,
                                            i: nat)
    ensures
      var after := AddrsAfter(addrs, records);
      && (i < |records| && TellsAddress(records[i], storeId)
          && (forall j :: i < j < |records| ==> !TellsAddress(records[j], storeId)) ==>
            storeId in after && after[storeId] == records[i].storeAddr)
      && ((forall j :: 0 <= j < |records| ==> !TellsAddress(records[j], storeId)) ==>
            (storeId in after <==> storeId in addrs) && (storeId in addrs ==> after[storeId] == addrs[storeId]))
    decreases |records|
  {
    if records != [] { LastAddressStays(addrs, records[..|records| - 1], storeId, i); }
  }

  function Keyed(ds: seq<Desc>): seq<(Key, Desc)> {
    seq(|ds|, i requires 0 <= i < |ds| => (ds[i].key, ds[i]))
  }

  lemma LearnOne(hits: seq<Desc>, news: seq<Desc>, d: Desc)
    ensures forall k :: Find(hits + (news + [d]), k)
              == if Find(hits + news, k).Some? then Find(hits + news, k) else if d.key == k then Some(d) else None
  {
    assert hits + (news + [d]) == (hits + news) + [d];
    forall k ensures Find(hits + (news + [d]), k)
      == if Find(hits + news, k).Some? then Find(hits + news, k) else if d.key == k then Some(d) else None
    {
      FindAppend(hits + news, d, k);
    }
  }

  lemma KeyedSnoc(view: seq<Desc>, cap: nat, news: seq<Desc>, d: Desc)
    ensures InsertAll(view, cap, Keyed(news + [d])) == InsertSpec(InsertAll(view, cap, Keyed(news)), cap, d.key, d)
  {
    var items := Keyed(news + [d]);
    assert items[..|items| - 1] == Keyed(news) && items[|items| - 1] == (d.key, d);
  }

  lemma RecordStep(addrs: map<nat, string>, records: seq<MetaTable.KeyRecord>, nodeId: nat, i: nat)
    requires i < |records|
    ensures NewDescs(records[..i + 1], nodeId) == NewDescs(records[..i], nodeId) + if records[i].key == "" then []
      else [DescOf(records[i], nodeId)]
    ensures
      var before := AddrsAfter(addrs, records[..i]);
      AddrsAfter(addrs, records[..i + 1])
        == if records[i].key == "" || records[i].storeAddr == "" then before
          else before[records[i].storeId := records[i].storeAddr]
  {
    assert records[..i + 1][..i] == records[..i];
  }

  /** The known keys among the first `n`, in order. */
  ghost predicate Arranged(keys: seq<Key>, bufs: seq<seq<byte>>, known: seq<Desc>, n: nat, at: seq<nat>,
                           descs: seq<Desc>, parts: seq<seq<byte>>)
    requires n <= |keys| == |bufs|
  {
    && |at| == |descs| == |parts|
    && (forall j :: 0 <= j < |at| ==>
          at[j] < n && Find(known, keys[at[j]]) == Some(descs[j]) && parts[j] == bufs[at[j]])
    && (forall j, l :: 0 <= j < l < |at| ==> at[j] < at[l])
    && (forall i: nat :: i < n && Find(known, keys[i]).Some? ==> i in at)
  }

  /** The known positions have what `BatchGet` read, the others nothing. */
  ghost predicate Answered(keys: seq<Key>, bufs0: seq<seq<byte>>, at: seq<nat>, descs: seq<Desc>, parts: seq<seq<byte>>,
                           addrs: map<nat, string>, net: Net, results: seq<int>, bufs: seq<seq<byte>>)
    requires |keys| == |bufs0|
  {
    && |results| == |bufs| == |keys| && |at| == |descs| == |parts|
    && (forall j :: 0 <= j < |at| ==> at[j] < |keys| && Got(descs, parts, addrs, net, j, results[at[j]], bufs[at[j]]))
    && (forall i: nat :: i < |keys| && i !in at ==> results[i] == -1 && bufs[i] == bufs0[i])
  }

  /** So a positive result at position `i` means the key at `i` is known and buffer `i` holds the
      bytes at its descriptor. */
  lemma PositiveMeansKnownBytes(keys: seq<Key>, bufs0: seq<seq<byte>>, known: seq<Desc>, at: seq<nat>, descs: seq<Desc>,
                                parts: seq<seq<byte>>,
                                addrs: map<nat, string>, net: Net, results: seq<int>, bufs: seq<seq<byte>>, i: nat)
    returns (j: nat)
    requires |keys| == |bufs0| && Arranged(keys, bufs0, known, |keys|, at, descs, parts)
    requires Answered(keys, bufs0, at, descs, parts, addrs, net, results, bufs)
    requires i < |keys| && |bufs0[i]| < U32 && results[i] > 0
    ensures j < |at| && at[j] == i && Find(known, keys[i]) == Some(descs[j]) && |bufs[i]| == |bufs0[i]|
    ensures
      var file := FileOf(descs, addrs, net, j);
      file.Some? && results[i] == |bufs[i]| && PRead(file.value, descs[j].offset, |bufs[i]|) == Some(bufs[i])
    ensures
      var record := PRead(FileOf(descs, addrs, net, j).value, descs[j].offset, descs[j].size);
      record == Some(bufs[i]) <==> |bufs[i]| == descs[j].size
    ensures descs[j].access == RemoteRpc && AtOwnAddress(descs, addrs, j) ==>
              PRead(net.remote(AddrOf(addrs, descs[j])), descs[j].offset, |bufs[i]|) == Some(bufs[i])
  {
    j :| 0 <= j < |at| && at[j] == i;
    PositiveMeansOwnBytes(descs, parts, addrs, net, j, results[i], bufs[i]);
    RecordSizedIff(descs, parts, addrs, net, j, results[i], bufs[i]);
  }

  /** Everything position `j` needs works: a same-node key its own file and read; a local or remote key also
      those of the keys read with it. */
  ghost predicate CanBeServed(descs: seq<Desc>, bufs: seq<seq<byte>>, addrs: map<nat, string>, net: Net, j: nat)
    requires |descs| == |bufs| && j < |descs|
  {
    var sid := descs[j].storeId;
    match descs[j].access
    case NodeDirect => net.node(sid).Some? && net.nodeOk(j) && InFile(net.node(sid).value, descs[j], bufs[j])
    case LocalDirect =>
      && net.local.Some? && (forall a :: net.localOk(a))
      && forall i :: 0 <= i < |descs| && descs[i].access == LocalDirect ==> InFile(net.local.value, descs[i], bufs[i])
    case RemoteRpc =>
      var addr := GroupAddr(descs, addrs, sid);
      && addr != "" && net.fate(sid).Served? && (forall a :: net.fate(sid).oks(a) && net.fate(sid).allocs(a))
      && forall i :: 0 <= i < |descs| && descs[i].access == RemoteRpc && descs[i].storeId == sid ==>
           InFile(net.remote(addr), descs[i], bufs[i])
  }

  predicate InFile(d: Disk, desc: Desc, buf: seq<byte>) { buf != [] && desc.offset + |buf| <= |d| }

  lemma ServedGroupReads(descs: seq<Desc>, bufs: seq<seq<byte>>, addrs: map<nat, string>, net: Net, j: nat)
    requires |descs| == |bufs| && j < |descs| && CanBeServed(descs, bufs, addrs, net, j)
    ensures Reads(descs, bufs, addrs, net, j)
  {
    var g := GroupOf(descs[j]);
    PositionsInRange(descs, g);
    forall a | 0 <= a < |Positions(descs, g)| ensures GroupOf(descs[Positions(descs, g)[a]]) == g {
      MemberIndex(descs, g, a);
    }
  }

  /** A known key that can be served is served: its result is its buffer's size. */
  lemma ServedIsPositive(keys: seq<Key>, bufs0: seq<seq<byte>>, known: seq<Desc>, at: seq<nat>, descs: seq<Desc>,
                         parts: seq<seq<byte>>, addrs: map<nat, string>, net: Net, results: seq<int>,
                         bufs: seq<seq<byte>>, i: nat)
    requires |keys| == |bufs0| && Arranged(keys, bufs0, known, |keys|, at, descs, parts)
    requires Answered(keys, bufs0, at, descs, parts, addrs, net, results, bufs)
    requires i < |keys| && 0 < |bufs0[i]| < 0x8000_0000 && Find(known, keys[i]).Some?
    requires forall j :: 0 <= j < |at| && at[j] == i ==> CanBeServed(descs, parts, addrs, net, j)
    ensures results[i] == |bufs0[i]|
  {
    assert i in at;
    var j :| 0 <= j < |at| && at[j] == i;
    ServedGroupReads(descs, parts, addrs, net, j);
    ReadResult(descs, parts, addrs, net, j, results[i], bufs[i]);
  }

  lemma ReadResult(descs: seq<Desc>, bufs: seq<seq<byte>>, addrs: map<nat, string>, net: Net, j: nat, result: int,
                   buf: seq<byte>)
    requires |descs| == |bufs| && j < |descs| && Reads(descs, bufs, addrs, net, j) && 0 < |bufs[j]| < 0x8000_0000
    requires Got(descs, bufs, addrs, net, j, result, buf)
    ensures result == |bufs[j]|
  {
  }

  /** A buffer filled from a file, and its size as the result. */
  ghost predicate FromFile(d: Disk, off: nat, n: nat, result: int, part: seq<byte>) {
    off + n <= |d| && part == d[off..off + n] && result == ToInt32(n)
  }
}
