/** The scheduler's statistics of one node (src/scheduler/node_stats.cpp): the last sixty
    one-second windows in a ring. */
module Statistics {
  import opened Base

  const WINDOW_COUNT: nat := 60
  const WINDOW_NS: nat := 1_000_000_000
  const MAX_SAMPLES: nat := 10000

  /** Bytes and operations of one traffic channel, as unsigned 64- and 32-bit counters. */
  datatype Channel = Channel(totalBytes: nat, ioCount: nat)

  const IDLE := Channel(0, 0)

  datatype Window = Window(start: nat, end: nat, localRead: Channel, localWrite: Channel, netTx: Channel,
                           netRx: Channel)

  datatype Completion = Completion(channel: int, size: nat, startNs: nat, doneNs: nat, remoteAddr: string)

  // ---------- specification: an unbounded log of windows ----------

  function Count(c: Channel, size: nat): Channel {
    Channel((c.totalBytes + size) % U64, (c.ioCount + 1) % U32)
  }

  /** A record counts in its channel; an unknown channel counts as local reads. */
  function Accumulate(w: Window, r: Completion): Window {
    match r.channel
    case 1 => w.(localWrite := Count(w.localWrite, r.size))
    case 2 => w.(netTx := Count(w.netTx, r.size))
    case 3 => w.(netRx := Count(w.netRx, r.size))
    case _ => w.(localRead := Count(w.localRead, r.size))
  }

  /** The window after `w`. */
  function After(w: Window): Window { Window(w.end, (w.end + WINDOW_NS) % U64, IDLE, IDLE, IDLE, IDLE) }

  /** The log with `k` more windows. */
  function Extend(log: seq<Window>, k: nat): seq<Window>
    requires log != []
    ensures |Extend(log, k)| == |log| + k
    decreases k
  {
    if k == 0 then log else Extend(log + [After(log[|log| - 1])], k - 1)
  }

  function Last(log: seq<Window>): Window
    requires log != []
  {
    log[|log| - 1]
  }

  /** Each window begins where the one before ends, and lasts one second of the clock. */
  ghost predicate Contiguous(log: seq<Window>) {
    && (forall i :: 0 <= i < |log| ==> OneSecond(log[i]))
    && (forall i, j :: 0 <= i && j == i + 1 < |log| ==> log[j].start == log[i].end)
  }

  predicate OneSecond(w: Window) { w.start < U64 && w.end == (w.start + WINDOW_NS) % U64 }

  lemma {:induction false} ExtendContiguous(log: seq<Window>, k: nat)
    requires log != [] && Contiguous(log)
    ensures Contiguous(Extend(log, k)) && log <= Extend(log, k)
    decreases k
  {
    if k > 0 { ExtendContiguous(log + [After(Last(log))], k - 1); }
  }

  // ---------- when the advance loop ends ----------

  /** The end of the newest window `k` windows on. */
  function EndAfter(end: nat, k: nat): nat { (end + k * WINDOW_NS) % U64 }

  /** The advance loop ends at the first window that ends after the record. */
  ghost predicate LoopEnds(end: nat, done: nat) { exists k: nat :: EndAfter(end, k) > done }

  /** The last value the newest end can take before the 64-bit clock wraps: ends advance in steps
      of 10^9, so they keep their remainder modulo 512, the greatest power of two in 10^9. */
  function LatestEnd(end: nat): nat { U64 - 512 + end % 512 }

  /** The loop ends exactly for records completed before that. */
  lemma LoopEndsIff(end: nat, done: nat)
    requires end < U64
    ensures LoopEnds(end, done) <==> done < LatestEnd(end)
  {
    if done < LatestEnd(end) {
      var k := StepsTo(end, LatestEnd(end));
      assert EndAfter(end, k) == LatestEnd(end);
    }
    forall k: nat ensures EndAfter(end, k) <= LatestEnd(end) {
      EndsKeepRemainder(end, k);
    }
  }

  /** So whatever the ring holds, a record completed in the last nanosecond the clock can show keeps the
      loop turning for ever. */
  lemma LastInstantNeverEnds(end: nat)
    requires end < U64
    ensures !LoopEnds(end, U64 - 1)
  {
    LoopEndsIff(end, U64 - 1);
  }

  lemma {:induction false} EndsKeepRemainder(end: nat, k: nat)
    requires end < U64
    ensures EndAfter(end, k) % 512 == end % 512 && EndAfter(end, k) <= LatestEnd(end)
  {
    if k > 0 {
      EndsKeepRemainder(end, k - 1);
      OneStepOn(end, k - 1);
      StepKeepsRemainder(EndAfter(end, k - 1));
    }
    BelowLatest(end, EndAfter(end, k));
  }

  lemma StepKeepsRemainder(x: nat)
    requires x < U64
    ensures (x + WINDOW_NS) % U64 % 512 == x % 512
  {
    assert (x + WINDOW_NS) % U64 == if x + WINDOW_NS < U64 then x + WINDOW_NS else x + WINDOW_NS - U64;
  }

  lemma BelowLatest(end: nat, x: nat)
    requires x < U64 && x % 512 == end % 512
    ensures x <= LatestEnd(end)
  {
  }

  lemma OneStepOn(end: nat, k: nat)
    ensures EndAfter(end, k + 1) == (EndAfter(end, k) + WINDOW_NS) % U64 == EndAfter((end + WINDOW_NS) % U64, k)
  {
    var x := end + k * WINDOW_NS;
    assert end + (k + 1) * WINDOW_NS == x + WINDOW_NS == (end + WINDOW_NS) + k * WINDOW_NS;
    Absorb(x, WINDOW_NS);
    Absorb(end + WINDOW_NS, k * WINDOW_NS);
  }

  lemma Absorb(x: nat, y: nat)
    ensures (x % U64 + y) % U64 == (x + y) % U64
  {
  }

  /** Any value of the same remainder is reached: 10^9 / 512 is odd, so it has an inverse modulo
      2^55. */
  lemma StepsTo(end: nat, target: nat) returns (k: nat)
    requires end < U64 && target < U64 && target % 512 == end % 512 && end <= target
    ensures EndAfter(end, k) == target
  {
    var m := (target - end) / 512;
    assert target - end == 512 * m;
    k := m * INVERSE;
    assert k * WINDOW_NS == (target - end) + (m * WRAPS) * U64 by {
      assert 1953125 * INVERSE == 1 + WRAPS * 0x80_0000_0000_0000;
    }
    assert end + k * WINDOW_NS == target + (m * WRAPS) * U64;
    Unwrap(target, m * WRAPS);
  }

  lemma Unwrap(x: nat, n: nat)
    requires x < U64
    ensures (x + n * U64) % U64 == x
  {
  }

  /** 1953125 * INVERSE is 1 modulo 2^55. */
  const INVERSE: nat := 20211507185753197
  const WRAPS: nat := 1095668

  // ---------- nothing recorded is lost ----------

  function BytesIn(w: Window): nat {
    w.localRead.totalBytes + w.localWrite.totalBytes + w.netTx.totalBytes + w.netRx.totalBytes
  }

  function BytesOf(log: seq<Window>): nat
    decreases |log|
  {
    if log == [] then 0 else BytesOf(log[..|log| - 1]) + BytesIn(log[|log| - 1])
  }

  function Record(log: seq<Window>, k: nat, r: Completion): seq<Window>
    requires log != []
  {
    var l := Extend(log, k);
    l[|l| - 1 := Accumulate(Last(l), r)]
  }

  lemma {:induction false} ExtendAddsNothing(log: seq<Window>, k: nat)
    requires log != []
    ensures BytesOf(Extend(log, k)) == BytesOf(log)
    decreases k
  {
    if k > 0 {
      var more := log + [After(Last(log))];
      ExtendAddsNothing(more, k - 1);
      assert more[..|log|] == log;
    }
  }

  /** Every record adds its size to the log's total, modulo 2^64, wherever it counts. */
  lemma RecordAddsItsSize(log: seq<Window>, k: nat, r: Completion)
    requires log != []
    ensures BytesOf(Record(log, k, r)) % U64 == (BytesOf(log) + r.size) % U64
  {
    var l := Extend(log, k);
    ExtendAddsNothing(log, k);
    assert Record(log, k, r)[..|l| - 1] == l[..|l| - 1];
    CountAdds(Last(l), r);
    Absorb(BytesOf(log) + r.size, 0);
    var before, w, v := BytesOf(l[..|l| - 1]), Last(l), Accumulate(Last(l), r);
    assert BytesOf(l) == before + BytesIn(w) && BytesOf(Record(log, k, r)) == before + BytesIn(v);
    SameRemainder(before, BytesIn(v), BytesIn(w) + r.size);
  }

  lemma SameRemainder(x: nat, y: nat, z: nat)
    requires y % U64 == z % U64
    ensures (x + y) % U64 == (x + z) % U64
  {
    Absorb(y, x);
    Absorb(z, x);
  }

  lemma CountAdds(w: Window, r: Completion)
    ensures BytesIn(Accumulate(w, r)) % U64 == (BytesIn(w) + r.size) % U64
  {
    var c := if r.channel == 1 then w.localWrite else if r.channel == 2 then w.netTx else if r.channel == 3 then w.netRx
      else w.localRead;
    var rest := BytesIn(w) - c.totalBytes;
    assert BytesIn(Accumulate(w, r)) == rest + (c.totalBytes + r.size) % U64;
    Absorb(c.totalBytes + r.size, rest);
  }

  // ---------- each record counts in its own channel ----------

  /** The channels by number: local reads, local writes, sent, received. */
  function ChannelOf(w: Window, c: nat): Channel {
    if c == 1 then w.localWrite else if c == 2 then w.netTx else if c == 3 then w.netRx else w.localRead
  }

  /** The bytes and the operations of channel `c` over a log. */
  function BytesOn(log: seq<Window>, c: nat): nat
    decreases |log|
  {
    if log == [] then 0 else BytesOn(log[..|log| - 1], c) + ChannelOf(log[|log| - 1], c).totalBytes
  }

  function CountOn(log: seq<Window>, c: nat): nat
    decreases |log|
  {
    if log == [] then 0 else CountOn(log[..|log| - 1], c) + ChannelOf(log[|log| - 1], c).ioCount
  }

  lemma {:induction false} ExtendKeepsChannels(log: seq<Window>, k: nat, c: nat)
    requires log != []
    ensures BytesOn(Extend(log, k), c) == BytesOn(log, c) && CountOn(Extend(log, k), c) == CountOn(log, c)
    decreases k
  {
    if k > 0 {
      var more := log + [After(Last(log))];
      ExtendKeepsChannels(more, k - 1, c);
      assert more[..|log|] == log;
    }
  }

  lemma Absorb32(x: nat, y: nat)
    ensures (x % U32 + y) % U32 == (x + y) % U32
  {
  }

  /** A record adds its size and one operation to the channel it names, reads if it names none, and nothing to
      the other three; and it does so in the newest window. */
  lemma RecordCountsInItsChannel(log: seq<Window>, k: nat, r: Completion, c: nat)
    requires log != [] && c < 4
    ensures
      var l, own := Record(log, k, r), c == if 1 <= r.channel <= 3 then r.channel else 0;
      && BytesOn(l, c) % U64 == (BytesOn(log, c) + if own then r.size else 0) % U64
      && CountOn(l, c) % U32 == (CountOn(log, c) + if own then 1 else 0) % U32
      && l[..|l| - 1] == Extend(log, k)[..|l| - 1]
  {
    var l, e := Record(log, k, r), Extend(log, k);
    ExtendKeepsChannels(log, k, c);
    assert l[..|l| - 1] == e[..|e| - 1];
    var before, count, ch := BytesOn(e[..|e| - 1], c), CountOn(e[..|e| - 1], c), ChannelOf(Last(e), c);
    Absorb(ch.totalBytes + r.size, before);
    Absorb32(ch.ioCount + 1, count);
  }

  /** The log after a run of records, each after the turns the loop makes for it. */
  function RecordAll(log: seq<Window>, rs: seq<(nat, Completion)>): (l: seq<Window>)
    requires log != []
    ensures l != []
    decreases |rs|
  {
    if rs == [] then log
    else
      var (k, r) := rs[|rs| - 1];
      Record(RecordAll(log, rs[..|rs| - 1]), k, r)
  }

  /** What the records of a run amount to on channel `c`. */
  function SizesOn(rs: seq<(nat, Completion)>, c: nat): nat
    decreases |rs|
  {
    if rs == [] then 0
    else
      var r := rs[|rs| - 1].1;
      SizesOn(rs[..|rs| - 1], c) + if c == (if 1 <= r.channel <= 3 then r.channel else 0) then r.size else 0
  }

  /** Over every run each channel's total is the sum of its own records' sizes, modulo 2^64. */
  lemma {:induction false} ChannelTotals(log: seq<Window>, rs: seq<(nat, Completion)>, c: nat)
    requires log != [] && c < 4
    ensures BytesOn(RecordAll(log, rs), c) % U64 == (BytesOn(log, c) + SizesOn(rs, c)) % U64
    decreases |rs|
  {
    if rs != [] {
      var front, k, r := rs[..|rs| - 1], rs[|rs| - 1].0, rs[|rs| - 1].1;
      ChannelTotals(log, front, c);
      RecordCountsInItsChannel(RecordAll(log, front), k, r, c);
      var own := if c == (if 1 <= r.channel <= 3 then r.channel else 0) then r.size else 0;
      Absorb(BytesOn(RecordAll(log, front), c), own);
      Absorb(BytesOn(log, c) + SizesOn(front, c), own);
    }
  }

  // ---------- the ring ----------

  /** The windows of the ring, oldest first. */
  function Ordered(ring: seq<Window>, idx: nat): seq<Window>
    requires idx < |ring|
  {
    ring[idx + 1..] + ring[..idx + 1]
  }

  /** Overwriting the oldest window with a new one shifts the order by one. */
  lemma Advance(ring: seq<Window>, idx: nat, next: nat, w: Window)
    requires idx < |ring| && next == if idx + 1 == |ring| then 0 else idx + 1
    ensures Ordered(ring[next := w], next) == Ordered(ring, idx)[1..] + [w]
  {
    var o := Ordered(ring, idx);
    assert |o| == |ring|;
    if next == 0 {
      assert o == ring;
      assert Ordered(ring[0 := w], 0) == ring[1..] + [w];
    } else {
      assert ring[next := w][next + 1..] == ring[next + 1..];
      assert ring[next := w][..next + 1] == ring[..next] + [w];
      assert o[1..] == ring[next + 1..] + ring[..next];
    }
  }

  lemma SmallRemainder(x: nat, n: nat)
    requires x < n
    ensures x % n == x
  {
  }

  ghost predicate Newest(ring: seq<Window>, idx: nat, log: seq<Window>) {
    |ring| == WINDOW_COUNT && idx < WINDOW_COUNT && |log| >= WINDOW_COUNT
      && Ordered(ring, idx) == log[|log| - WINDOW_COUNT..]
  }

  lemma NewestAdvance(ring: seq<Window>, idx: nat, log: seq<Window>)
    requires Newest(ring, idx, log)
    ensures ring[idx] == Last(log)
    ensures
      var next, w := (idx + 1) % WINDOW_COUNT, After(Last(log));
      Newest(ring[next := w], next, log + [w])
  {
    var w := After(Last(log));
    Advance(ring, idx, (idx + 1) % WINDOW_COUNT, w);
    assert ring[idx] == Ordered(ring, idx)[WINDOW_COUNT - 1];
    assert (log + [w])[|log| + 1 - WINDOW_COUNT..] == log[|log| - WINDOW_COUNT..][1..] + [w];
  }

  lemma NewestUpdate(ring: seq<Window>, idx: nat, log: seq<Window>, w: Window)
    requires Newest(ring, idx, log)
    ensures ring[idx] == Last(log) && Newest(ring[idx := w], idx, log[|log| - 1 := w])
  {
    assert ring[idx] == Ordered(ring, idx)[WINDOW_COUNT - 1];
    assert Ordered(ring[idx := w], idx) == Ordered(ring, idx)[WINDOW_COUNT - 1 := w];
    assert log[|log| - 1 := w][|log| - WINDOW_COUNT..] == log[|log| - WINDOW_COUNT..][WINDOW_COUNT - 1 := w];
  }

  /** A difference of unsigned 64-bit numbers. */
  function Sub(a: nat, b: nat): nat
    requires a < U64 && b < U64
  {
    if a >= b then a - b else a + U64 - b
  }

  /** The window `i` of a new ring, counted back from `base`. */
  function Initial(base: nat, i: nat): Window
    requires base < U64 && i < WINDOW_COUNT
  {
    Window(Sub(base, (WINDOW_COUNT - i) * WINDOW_NS), Sub(base, (WINDOW_COUNT - i - 1) * WINDOW_NS), IDLE, IDLE, IDLE,
           IDLE)
  }

  lemma InitialContiguous(base: nat)
    requires base < U64
    ensures Contiguous(seq(WINDOW_COUNT, i requires 0 <= i < WINDOW_COUNT => Initial(base, i)))
  {
    var log := seq(WINDOW_COUNT, i requires 0 <= i < WINDOW_COUNT => Initial(base, i));
    forall i | 0 <= i < |log| ensures OneSecond(log[i]) {
      var n := WINDOW_COUNT - i;
      assert n * WINDOW_NS == (n - 1) * WINDOW_NS + WINDOW_NS;
    }
  }

  // ---------- the engine itself ----------

  /** Traffic with one other node. */
  datatype NodeTraffic = NodeTraffic(addr: string, netTx: Channel, netRx: Channel)

  function Traffic(m: map<string, NodeTraffic>, r: Completion): map<string, NodeTraffic> {
    if r.remoteAddr == "" then m
    else
      var t := (if r.remoteAddr in m then m[r.remoteAddr] else NodeTraffic("", IDLE, IDLE)).(addr := r.remoteAddr);
      m[r.remoteAddr := if r.channel == 2 then t.(netTx := Count(t.netTx, r.size))
                        else if r.channel == 3 then t.(netRx := Count(t.netRx, r.size)) else t]
  }

  function TrafficAll(rs: seq<Completion>): map<string, NodeTraffic>
    decreases |rs|
  {
    if rs == [] then map[] else Traffic(TrafficAll(rs[..|rs| - 1]), rs[|rs| - 1])
  }

  /** The sizes and the number of the records exchanged with `addr` on channel `c`. */
  function SizesWith(rs: seq<Completion>, addr: string, c: int): nat
    decreases |rs|
  {
    if rs == [] then 0
    else
      var r := rs[|rs| - 1];
      SizesWith(rs[..|rs| - 1], addr, c) + if r.remoteAddr == addr && r.channel == c then r.size else 0
  }

  function CountWith(rs: seq<Completion>, addr: string, c: int): nat
    decreases |rs|
  {
    if rs == [] then 0
    else
      var r := rs[|rs| - 1];
      CountWith(rs[..|rs| - 1], addr, c) + if r.remoteAddr == addr && r.channel == c then 1 else 0
  }

  lemma CountIsSum(c: Channel, bytes: nat, count: nat, size: nat)
    requires c == Channel(bytes % U64, count % U32)
    ensures Count(c, size) == Channel((bytes + size) % U64, (count + 1) % U32)
  {
    Absorb(bytes, size);
    Absorb32(count, 1);
  }

  /** What is known of a node: nothing, or its traffic. */
  function TrafficWith(m: map<string, NodeTraffic>, addr: string): NodeTraffic {
    if addr in m then m[addr] else NodeTraffic(addr, IDLE, IDLE)
  }

  lemma TrafficOne(m: map<string, NodeTraffic>, r: Completion, addr: string)
    requires addr != "" && (addr in m ==> m[addr].addr == addr)
    ensures addr in Traffic(m, r) <==> addr in m || r.remoteAddr == addr
    ensures
      var (t, u) := (TrafficWith(m, addr), TrafficWith(Traffic(m, r), addr));
      if r.remoteAddr != addr then u == t
      else
        && u.addr == addr && u.netTx == (if r.channel == 2 then Count(t.netTx, r.size) else t.netTx)
        && u.netRx == if r.channel == 3 then Count(t.netRx, r.size) else t.netRx
  {
  }

  /** Over every run a node is listed exactly if a record names it, and has been sent and has sent the sum of
      those records' sizes; records without a node, and local ones, count for none. */
  lemma {:induction false} TrafficIsSum(rs: seq<Completion>, addr: string)
    requires addr != ""
    ensures addr in TrafficAll(rs) <==> exists i :: 0 <= i < |rs| && rs[i].remoteAddr == addr
    ensures
      var t := TrafficWith(TrafficAll(rs), addr);
      && t.addr == addr
      && t.netTx == Channel(SizesWith(rs, addr, 2) % U64, CountWith(rs, addr, 2) % U32)
      && t.netRx == Channel(SizesWith(rs, addr, 3) % U64, CountWith(rs, addr, 3) % U32)
    decreases |rs|
  {
    if rs != [] {
      var n := |rs| - 1;
      var front, r := rs[..n], rs[n];
      TrafficIsSum(front, addr);
      TrafficOne(TrafficAll(front), r, addr);
      assert forall i :: 0 <= i < n ==> front[i] == rs[i];
      if r.remoteAddr == addr && (r.channel == 2 || r.channel == 3) {
        var c := r.channel;
        CountIsSum(Channel(SizesWith(front, addr, c) % U64, CountWith(front, addr, c) % U32), SizesWith(front, addr, c),
                   CountWith(front, addr, c), r.size);
      }
    }
  }

  /** The latency samples after a record: one more, or one replaced once there are enough. */
  function Sampled(s: seq<nat>, r: Completion): (t: seq<nat>)
    ensures |s| <= MAX_SAMPLES ==> |s| <= |t| <= MAX_SAMPLES
    ensures r.doneNs >= r.startNs ==> r.doneNs - r.startNs in t
    ensures forall x :: x in t ==> x in s || (r.doneNs >= r.startNs && x == r.doneNs - r.startNs)
  {
    if r.doneNs < r.startNs then s
    else
      var latency := r.doneNs - r.startNs;
      if |s| >= MAX_SAMPLES then
        var t := s[latency % |s| := latency];
        assert t[latency % |s|] == latency;
        t
      else
        var t := s + [latency];
        assert t[|s|] == latency;
        t
  }

  function SampledAll(rs: seq<Completion>): seq<nat>
    decreases |rs|
  {
    if rs == [] then [] else Sampled(SampledAll(rs[..|rs| - 1]), rs[|rs| - 1])
  }

  /** The latencies of a run, of the records that end no earlier than they start. */
  function Latencies(rs: seq<Completion>): seq<nat>
    decreases |rs|
  {
    if rs == [] then []
    else
      var r := rs[|rs| - 1];
      Latencies(rs[..|rs| - 1]) + if r.doneNs >= r.startNs then [r.doneNs - r.startNs] else []
  }

  /** Up to the first ten thousand every latency is kept, in order; after that their number stays. */
  lemma {:induction false} SamplesAreLatencies(rs: seq<Completion>)
    ensures |Latencies(rs)| <= MAX_SAMPLES ==> SampledAll(rs) == Latencies(rs)
    ensures |Latencies(rs)| > MAX_SAMPLES ==> |SampledAll(rs)| == MAX_SAMPLES
    decreases |rs|
  {
    if rs != [] { SamplesAreLatencies(rs[..|rs| - 1]); }
  }

  class NodeStats {
    const windows: array<Window>
    var currentWindowIdx: nat
    var nodeAddrStats: map<string, NodeTraffic>
    var latencySamples: seq<nat>
    ghost var log: seq<Window>

    /** The ring is the last sixty windows of the log. */
    ghost predicate Valid()
      reads this, windows
    {
      && Newest(windows[..], currentWindowIdx, log) && Contiguous(log) && |latencySamples| <= MAX_SAMPLES
    }

    constructor (base: nat)
      requires base < U64
      ensures Valid() && fresh(windows) && |log| == WINDOW_COUNT && Last(log).end == base
      ensures BytesOf(log) == 0 && nodeAddrStats == map[] && latencySamples == []
    {
      windows := new Window[WINDOW_COUNT](i requires 0 <= i < WINDOW_COUNT => Initial(base, i));
      currentWindowIdx := WINDOW_COUNT - 1;
      nodeAddrStats, latencySamples := map[], [];
      log := seq(WINDOW_COUNT, i requires 0 <= i < WINDOW_COUNT => Initial(base, i));
      new;
      InitialContiguous(base);
      assert windows[..] == log;
      assert log[WINDOW_COUNT..] + log[..WINDOW_COUNT] == log && log[0..] == log;
      NothingYet(log);
    }

    /** One turn of the advance loop. */
    method AdvanceWindow()
      requires Valid()
      modifies `currentWindowIdx, `log, windows
      ensures Valid() && log == old(log) + [After(Last(old(log)))]
    {
      var idx := currentWindowIdx;
      var next := (idx + 1) % WINDOW_COUNT;
      ghost var ring := windows[..];
      NewestAdvance(ring, idx, log);
      ExtendContiguous(log, 1);
      windows[next] := After(windows[idx]);
      assert windows[..] == ring[next := After(ring[idx])];
      currentWindowIdx := next;
      log := log + [After(Last(log))];
      assert Extend(log, 0) == log;
    }

    /** The windows advance until the newest ends after the record, and the record counts in it.
        The source loops for ever on a record whose completion no window end can pass. */
    method UpdateWindow(r: Completion) returns (ghost k: nat)
      requires Valid() && LoopEnds(Last(log).end, r.doneNs)
      modifies `currentWindowIdx, `log, windows
      ensures Valid() && log == Record(old(log), k, r) && Last(log).end > r.doneNs
      ensures forall j: nat :: j < k ==> EndAfter(Last(old(log)).end, j) <= r.doneNs
    {
      ghost var left: nat :| EndAfter(Last(log).end, left) > r.doneNs;
      k := 0;
      var idx := currentWindowIdx;
      NewestUpdate(windows[..], currentWindowIdx, log, Last(log));
      while windows[currentWindowIdx].end <= r.doneNs
        invariant Valid() && log == Extend(old(log), k) && windows[currentWindowIdx] == Last(log)
        invariant Last(log).end == EndAfter(Last(old(log)).end, k) && EndAfter(Last(log).end, left) > r.doneNs
        invariant forall j: nat :: j < k ==> EndAfter(Last(old(log)).end, j) <= r.doneNs
        decreases left
      {
        OneTurnOn(Last(old(log)).end, Last(log), k, left, r.doneNs);
        ExtendOneMore(old(log), k);
        AdvanceWindow();
        k, left := k + 1, left - 1;
        NewestUpdate(windows[..], currentWindowIdx, log, Last(log));
      }
      Tally(r);
    }

    method Tally(r: Completion)
      requires Valid()
      modifies `log, windows
      ensures Valid() && log == old(log)[|old(log)| - 1 := Accumulate(Last(old(log)), r)]
    {
      ghost var ring := windows[..];
      NewestUpdate(ring, currentWindowIdx, log, Accumulate(Last(log), r));
      windows[currentWindowIdx] := Accumulate(windows[currentWindowIdx], r);
      assert windows[..] == ring[currentWindowIdx := Accumulate(ring[currentWindowIdx], r)];
      log := log[|log| - 1 := Accumulate(Last(log), r)];
    }

    method RecordIO(r: Completion) returns (ghost k: nat)
      requires Valid() && LoopEnds(Last(log).end, r.doneNs)
      modifies this, windows
      ensures Valid() && log == Record(old(log), k, r) && Last(log).end > r.doneNs
      ensures nodeAddrStats == Traffic(old(nodeAddrStats), r)
      ensures latencySamples == Sampled(old(latencySamples), r)
    {
      k := UpdateWindow(r);
      if r.remoteAddr != "" {
        var t := if r.remoteAddr in nodeAddrStats then nodeAddrStats[r.remoteAddr] else NodeTraffic("", IDLE, IDLE);
        t := t.(addr := r.remoteAddr);
        if r.channel == 2 {
          t := t.(netTx := Count(t.netTx, r.size));
        } else if r.channel == 3 {
          t := t.(netRx := Count(t.netRx, r.size));
        }
        nodeAddrStats := nodeAddrStats[r.remoteAddr := t];
      }
      if r.doneNs >= r.startNs {
        var latency := r.doneNs - r.startNs;
        if |latencySamples| >= MAX_SAMPLES {
          latencySamples := latencySamples[latency % |latencySamples| := latency];
        } else {
          latencySamples := latencySamples + [latency];
        }
      }
    }
  }

  lemma NothingYet(log: seq<Window>)
    requires forall i :: 0 <= i < |log| ==> BytesIn(log[i]) == 0
    ensures BytesOf(log) == 0
    decreases |log|
  {
    if log != [] { NothingYet(log[..|log| - 1]); }
  }

  lemma LeftShrinks(end: nat, left: nat, done: nat)
    requires end < U64 && end <= done && EndAfter(end, left) > done
    ensures left > 0 && EndAfter((end + WINDOW_NS) % U64, left - 1) > done
  {
    if left == 0 {
      SmallRemainder(end, U64);
    } else {
      OneStepOn(end, left - 1);
    }
  }

  /** One more turn of the loop, seen by the window it makes. */
  lemma OneTurnOn(end: nat, w: Window, k: nat, left: nat, done: nat)
    requires w.end == EndAfter(end, k) && w.end <= done && EndAfter(w.end, left) > done
    ensures left > 0 && EndAfter(After(w).end, left - 1) > done && After(w).end == EndAfter(end, k + 1)
  {
    LeftShrinks(w.end, left, done);
    OneStepOn(end, k);
  }

  lemma {:induction false} ExtendOneMore(log: seq<Window>, k: nat)
    requires log != []
    ensures Extend(log, k + 1) == Extend(log, k) + [After(Last(Extend(log, k)))]
    decreases k
  {
    if k > 0 { ExtendOneMore(log + [After(Last(log))], k - 1); }
  }
}
