/** Remote batch reads: the server lays the segments one after another in the attachment
    (src/store/store_service_impl.cpp), and the client cuts it back into its buffers
    (src/store/store_rpc_client.cpp). */
module ReadFraming {
  import opened Base
  import opened StoreOps

  datatype Segment = Segment(offset: nat, size: nat)

  datatype Response = Response(status: int, bytesRead: seq<nat>, attachment: seq<byte>)

  /** What becomes of the call. */
  datatype Call = NoReply | Replied(response: Response)

  // ---------- the server's layout ----------

  /** A segment read succeeds if it asks for bytes, the device delivers and the file is long
      enough. */
  predicate Readable(d: Disk, seg: Segment, ok: bool) {
    seg.size > 0 && ok && PRead(d, seg.offset, seg.size).Some?
  }

  ghost predicate AllReadable(d: Disk, segs: seq<Segment>, oks: nat -> bool) {
    forall i :: 0 <= i < |segs| ==> Readable(d, segs[i], oks(i))
  }

  function Concat(parts: seq<seq<byte>>): seq<byte>
    decreases |parts|
  {
    if parts == [] then [] else Concat(parts[..|parts| - 1]) + parts[|parts| - 1]
  }

  function Sizes(parts: seq<seq<byte>>): seq<nat> {
    seq(|parts|, i requires 0 <= i < |parts| => |parts[i]|)
  }

  /** The successful response for these segments' bytes. */
  function Layout(parts: seq<seq<byte>>): Response { Response(0, Sizes(parts), Concat(parts)) }

  /** The bytes of readable segments. */
  function Parts(d: Disk, segs: seq<Segment>, oks: nat -> bool): (parts: seq<seq<byte>>)
    requires AllReadable(d, segs, oks)
    ensures |parts| == |segs|
    ensures forall i :: 0 <= i < |segs| ==> PRead(d, segs[i].offset, segs[i].size) == Some(parts[i])
  {
    seq(|segs|, i requires 0 <= i < |segs| =>
      assert Readable(d, segs[i], oks(i));
      d[segs[i].offset..segs[i].offset + segs[i].size])
  }

  function Zeroes(n: nat): seq<nat> { seq(n, _ => 0) }

  /** The buffers are allocated one by one, all segments are read, and then the sizes and the
      bytes are appended to the response. */
  method ServeBatchRead(disk: Disk, segs: seq<Segment>, allocs: nat -> bool, oks: nat -> bool) returns (r: Response)
    ensures (exists i :: 0 <= i < |segs| && !allocs(i)) ==> r == Response(-1, [], [])
    ensures (forall i :: 0 <= i < |segs| ==> allocs(i)) && AllReadable(disk, segs, oks)
      ==> r == Layout(Parts(disk, segs, oks))
    ensures (forall i :: 0 <= i < |segs| ==> allocs(i)) && !AllReadable(disk, segs, oks)
      ==> r.status != 0 && r.bytesRead == Zeroes(|segs|) && r.attachment == []
  {
    for i := 0 to |segs|
      invariant forall j :: 0 <= j < i ==> allocs(j)
    {
      if !allocs(i) {
        return Response(-1, [], []);
      }
    }
    var failed, buffers := ReadAll(disk, segs, oks);
    var bytesRead: seq<nat>, attachment := [], [];
    if failed {
      for i := 0 to |segs|
        invariant bytesRead == Zeroes(i)
      {
        bytesRead := bytesRead + [0];
      }
      return Response(1, bytesRead, attachment);
    }
    for i := 0 to |segs|
      invariant |bytesRead| == i && forall j :: 0 <= j < i ==> bytesRead[j] == segs[j].size
    {
      bytesRead := bytesRead + [segs[i].size];
    }
    for i := 0 to |segs|
      invariant attachment == Concat(buffers[..i])
    {
      assert buffers[..i + 1][..i] == buffers[..i];
      attachment := attachment + buffers[i];
    }
    assert buffers[..|segs|] == buffers && buffers == Parts(disk, segs, oks);
    assert bytesRead == Sizes(buffers);
    return Response(0, bytesRead, attachment);
  }

  /** All reads are carried out; one failure fails them all. */
  method ReadAll(disk: Disk, segs: seq<Segment>, oks: nat -> bool) returns (failed: bool, buffers: seq<seq<byte>>)
    ensures failed <==> !AllReadable(disk, segs, oks)
    ensures !failed ==> buffers == Parts(disk, segs, oks)
  {
    failed, buffers := false, [];
    for i := 0 to |segs|
      invariant failed <==> exists j :: 0 <= j < i && !Readable(disk, segs[j], oks(j))
      invariant |buffers| == i
      invariant forall j :: 0 <= j < i && Readable(disk, segs[j], oks(j)) ==>
                    Some(buffers[j]) == PRead(disk, segs[j].offset, segs[j].size)
    {
      if Readable(disk, segs[i], oks(i)) {
        buffers := buffers + [PRead(disk, segs[i].offset, segs[i].size).value];
      } else {
        failed := true;
        buffers := buffers + [[]];
      }
    }
    if !failed {
      assert forall j :: 0 <= j < |segs| ==> Some(buffers[j]) == Some(Parts(disk, segs, oks)[j]);
    }
  }

  // ---------- the client's cutting ----------

  function Sum(ns: seq<nat>): nat
    decreases |ns|
  {
    if ns == [] then 0 else Sum(ns[..|ns| - 1]) + ns[|ns| - 1]
  }

  /** `copy_to`: up to `n` bytes from position `pos`, as many as there are. */
  function CopyFrom(att: seq<byte>, n: nat, pos: nat): seq<byte> {
    att[Min(pos, |att|)..Min(pos + n, |att|)]
  }

  /** The front of a buffer overwritten. */
  function Overwrite(buf: seq<byte>, data: seq<byte>): seq<byte>
    requires |data| <= |buf|
  {
    data + buf[|data|..]
  }

  /** The buffers the caller passes are as long as it says. */
  ghost predicate Roomy(sizes: seq<nat>, buffers: seq<seq<byte>>) {
    |sizes| == |buffers| && forall i :: 0 <= i < |sizes| ==> sizes[i] <= |buffers[i]|
  }

  /** Segment `i` of a response in its buffer: its bytes start after all earlier segments', and
      are cut to what was asked for. */
  ghost predicate Placed(r: Response, sizes: seq<nat>, before: seq<seq<byte>>, i: nat, result: int, after: seq<byte>)
    requires i < |r.bytesRead| == |sizes| && Roomy(sizes, before)
  {
    var n := Min(r.bytesRead[i], sizes[i]);
    if r.bytesRead[i] == 0 then result == -1 && after == before[i]
    else
      && result == ToInt32(n)
      && after == Overwrite(before[i], CopyFrom(r.attachment, n, Sum(r.bytesRead[..i])))
  }

  method SplitAttachment(r: Response, sizes: seq<nat>, buffers0: seq<seq<byte>>)
    returns (results: seq<int>, buffers: seq<seq<byte>>)
    requires |r.bytesRead| == |sizes| && Roomy(sizes, buffers0)
    ensures |results| == |buffers| == |sizes|
    ensures forall i :: 0 <= i < |sizes| ==> Placed(r, sizes, buffers0, i, results[i], buffers[i])
  {
    results, buffers := seq(|sizes|, _ => 0), buffers0;
    var attOffset := 0;
    for i := 0 to |sizes|
      invariant |results| == |buffers| == |sizes| && attOffset == Sum(r.bytesRead[..i])
      invariant forall j :: 0 <= j < i ==> Placed(r, sizes, buffers0, j, results[j], buffers[j])
      invariant forall j :: i <= j < |sizes| ==> buffers[j] == buffers0[j]
    {
      assert r.bytesRead[..i + 1][..i] == r.bytesRead[..i];
      var bytesRead := r.bytesRead[i];
      if bytesRead == 0 {
        results := results[i := -1];
      } else {
        var toCopy := Min(bytesRead, sizes[i]);
        buffers := buffers[i := Overwrite(buffers[i], CopyFrom(r.attachment, toCopy, attOffset))];
        attOffset := attOffset + bytesRead;
        results := results[i := ToInt32(toCopy)];
      }
    }
  }

  function AllFailed(n: nat): seq<int> { seq(n, _ => -1) }

  /** A successful response with as many sizes as segments is cut up; anything else fails every
      segment and touches no buffer. Without a connection, or with a malformed request, the
      results are left as they were. */
  method BatchRead(connected: bool, offsets: seq<nat>, sizes: seq<nat>, buffers0: seq<seq<byte>>, results0: seq<int>,
                   call: Call)
    returns (s: Status, results: seq<int>, buffers: seq<seq<byte>>)
    requires |sizes| == |buffers0| ==> Roomy(sizes, buffers0)
    ensures
      if !connected then s == RpcError && results == results0 && buffers == buffers0
      else if !(|offsets| == |sizes| == |buffers0|) then s == InvalidArg && results == results0 && buffers == buffers0
      else if offsets == [] then s == Ok && results == [] && buffers == buffers0
      else if call.Replied? && call.response.status == 0 && |call.response.bytesRead| == |offsets| then
        && s == Ok && |results| == |buffers| == |offsets|
        && forall i :: 0 <= i < |offsets| ==> Placed(call.response, sizes, buffers0, i, results[i], buffers[i])
      else s == (if call.NoReply? then RpcError else IOError) && results == AllFailed(|offsets|) && buffers == buffers0
  {
    results, buffers := results0, buffers0;
    if !connected {
      return RpcError, results, buffers;
    }
    var n := |offsets|;
    if n != |sizes| || n != |buffers0| {
      return InvalidArg, results, buffers;
    }
    results := seq(n, _ => 0);
    if n == 0 {
      return Ok, [], buffers;
    }
    if call.NoReply? {
      return RpcError, AllFailed(n), buffers;
    }
    if call.response.status != 0 {
      return IOError, AllFailed(n), buffers;
    }
    if |call.response.bytesRead| != n {
      return IOError, AllFailed(n), buffers;
    }
    results, buffers := SplitAttachment(call.response, sizes, buffers0);
    return Ok, results, buffers;
  }

  // ---------- round trip ----------

  lemma {:induction false} ConcatLength(parts: seq<seq<byte>>)
    ensures |Concat(parts)| == Sum(Sizes(parts))
    decreases |parts|
  {
    if parts != [] {
      ConcatLength(parts[..|parts| - 1]);
      assert Sizes(parts)[..|parts| - 1] == Sizes(parts[..|parts| - 1]);
    }
  }

  /** Segment `i` starts where the sizes before it add up to. */
  lemma {:induction false} SegmentStart(parts: seq<seq<byte>>, i: nat)
    requires i < |parts|
    ensures
      var at := Sum(Sizes(parts)[..i]);
      at + |parts[i]| <= |Concat(parts)| && Concat(parts)[at..at + |parts[i]|] == parts[i]
    decreases |parts|
  {
    var init := parts[..|parts| - 1];
    ConcatLength(init);
    if i < |parts| - 1 {
      SegmentStart(init, i);
      assert Sizes(init)[..i] == Sizes(parts)[..i];
    } else {
      assert Sizes(parts)[..i] == Sizes(init);
    }
  }

  /** The round trip. Whatever the segments, of whatever sizes, cutting up the response that lays
      them out gives each buffer the front of its own segment, as much of it as was asked for. */
  lemma RoundTrip(parts: seq<seq<byte>>, sizes: seq<nat>, before: seq<seq<byte>>, i: nat, result: int, after: seq<byte>)
    requires |parts| == |sizes| && Roomy(sizes, before) && i < |parts| && parts[i] != []
    requires Placed(Layout(parts), sizes, before, i, result, after)
    ensures
      var n := Min(|parts[i]|, sizes[i]);
      result == ToInt32(n) && after == Overwrite(before[i], parts[i][..n])
  {
    SegmentStart(parts, i);
    var n, at := Min(|parts[i]|, sizes[i]), Sum(Sizes(parts)[..i]);
    assert CopyFrom(Concat(parts), n, at) == Concat(parts)[at..at + |parts[i]|][..n];
  }

  /** From the server's file to the client's buffers: when both ends succeed, each buffer starts
      with exactly the bytes of the file at its own segment, and its result is their number. */
  method ReadRemotely(disk: Disk, segs: seq<Segment>, allocs: nat -> bool, oks: nat -> bool, buffers0: seq<seq<byte>>)
    returns (s: Status, results: seq<int>, buffers: seq<seq<byte>>)
    requires |buffers0| == |segs| && forall i :: 0 <= i < |segs| ==> segs[i].size <= |buffers0[i]|
    ensures |results| == |buffers| == |segs|
    ensures s == Ok <==> segs == [] || (AllReadable(disk, segs, oks) && forall i :: 0 <= i < |segs| ==> allocs(i))
    ensures s == Ok ==> forall i :: 0 <= i < |segs| ==> Delivered(disk, segs[i], buffers0[i], results[i], buffers[i])
    ensures s != Ok ==> results == AllFailed(|segs|) && buffers == buffers0
  {
    var r := ServeBatchRead(disk, segs, allocs, oks);
    var offsets := seq(|segs|, i requires 0 <= i < |segs| => segs[i].offset);
    var sizes := seq(|segs|, i requires 0 <= i < |segs| => segs[i].size);
    s, results, buffers := BatchRead(true, offsets, sizes, buffers0, [], Replied(r));
    if s == Ok && segs != [] {
      ghost var parts := Parts(disk, segs, oks);
      forall i | 0 <= i < |segs| ensures Delivered(disk, segs[i], buffers0[i], results[i], buffers[i]) {
        assert Readable(disk, segs[i], oks(i));
        RoundTrip(parts, sizes, buffers0, i, results[i], buffers[i]);
      }
    }
  }

  ghost predicate Delivered(d: Disk, seg: Segment, before: seq<byte>, result: int, after: seq<byte>)
    requires seg.size <= |before|
  {
    seg.offset + seg.size <= |d| && result == ToInt32(seg.size)
    && after == Overwrite(before, d[seg.offset..seg.offset + seg.size])
  }
}
