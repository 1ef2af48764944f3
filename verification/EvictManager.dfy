/** Choosing and evicting victims (src/store/evict_manager.cpp): the coldest records first, Meta
    told before the index forgets them, their slots queued for the grace period. */
module Eviction {
  import opened Base
  import opened SlotAllocation
  import opened MetaIndex
  import opened PendingQueue
  import opened MetaTable
  import opened MetaLink
  import opened StoreSpace

  /** What one eviction batch meets: the fate of its `SyncRemove` and the wall clock. */
  datatype Round = Round(rpc: Rpc, now: nat)

  const MAX_ROUNDS: nat := 5
  const MAX_PER_ROUND: nat := 64
  const MAX_PER_PASS: nat := 16

  // ---------- specification ----------

  ghost function KeysOf(rs: seq<Record>): seq<Key> {
    seq(|rs|, i requires 0 <= i < |rs| => rs[i].key)
  }

  /** The `n` coldest keys leave the index one by one, each slot into the queue. */
  ghost function EvictN(sp: Space, n: nat, now: nat): Space {
    if n == 0 then sp
    else
      var t := EvictN(sp, n - 1, now);
      var lru := t.index.lru;
      if lru == [] || lru[|lru| - 1] !in t.index.recs then t else Evicted(t, lru[|lru| - 1], now)
  }

  /** One batch: Meta first, and nothing else happens if Meta fails. */
  ghost function EvictBatch(sp: Space, n: nat, r: Round): (Space, bool)
    requires MetaIndex.Wf(sp.index) && n <= |sp.index.lru|
  {
    var (l, s) := SyncRemoveSpec(sp.link, KeysOf(Coldest(sp.index, n)), r.rpc);
    if s == Ok then (EvictN(sp.(link := l), n, r.now), true) else (sp.(link := l), false)
  }

  /** One candidate of a list made earlier: its key leaves the index if it is there, and the slot it was
      listed with goes to the queue either way. */
  function EvictRecord(sp: Space, c: Record, now: nat): Space {
    sp.(index := RemoveSpec(sp.index, c.key),
        queue := sp.queue.(entries := sp.queue.entries + [EntryOf(c, now)]))
  }

  function EvictAll(sp: Space, cs: seq<Record>, now: nat): Space
    decreases |cs|
  {
    if cs == [] then sp else EvictRecord(EvictAll(sp, cs[..|cs| - 1], now), cs[|cs| - 1], now)
  }

  /** What `EvictEntries` does with any list of candidates: Meta first, and nothing else if Meta fails. */
  ghost function EvictListed(sp: Space, cs: seq<Record>, r: Round): (Space, bool) {
    var (l, s) := SyncRemoveSpec(sp.link, KeysOf(cs), r.rpc);
    if s == Ok then (EvictAll(sp.(link := l), cs, r.now), true) else (sp.(link := l), false)
  }

  /** The victims one round picks, and their 32-bit total. */
  ghost function Victims(s: IndexState, needed: nat): (v: (nat, nat))
    requires MetaIndex.Wf(s)
    ensures v.0 <= |s.lru| && (needed > 0 && s.lru != [] ==> v.0 > 0)
  {
    TakeBounded(Coldest(s, |s.lru|), needed, MAX_PER_ROUND, 0);
    TakeBySize(Coldest(s, |s.lru|), needed, MAX_PER_ROUND, 0)
  }

  /** One round: the new state, the bytes evicted so far, and whether to go on. */
  ghost function ForceRound(sp: Space, needed: nat, total: nat, r: Round): (t: (Space, nat, bool))
    requires MetaIndex.Wf(sp.index)
    ensures MetaIndex.Wf(t.0.index)
  {
    if total >= needed then (sp, total, false)
    else
      var (n, bytes) := Victims(sp.index, needed - total);
      if n == 0 then (sp, total, false)
      else
        EvictBatchShape(sp, n, r);
        RoundOutcome(sp, n, bytes, total, r)
  }

  /** A batch of `n`, and the running total, which wraps at 32 bits. */
  ghost function RoundOutcome(sp: Space, n: nat, bytes: nat, total: nat, r: Round): (Space, nat, bool)
    requires MetaIndex.Wf(sp.index) && n <= |sp.index.lru|
  {
    var (t, ok) := EvictBatch(sp, n, r);
    (t, if ok then (total + bytes) % U32 else total, ok)
  }

  ghost function ForceRounds(sp: Space, needed: nat, total: nat, rounds: seq<Round>): (Space, nat)
    requires MetaIndex.Wf(sp.index)
    decreases |rounds|
  {
    if rounds == [] then (sp, total)
    else
      var (t, sum, more) := ForceRound(sp, needed, total, rounds[0]);
      if more then ForceRounds(t, needed, sum, rounds[1..]) else (t, sum)
  }

  ghost function ForceEvictSpec(sp: Space, needed: nat, rounds: seq<Round>): (Space, nat)
    requires MetaIndex.Wf(sp.index) && |rounds| == MAX_ROUNDS
  {
    ForceRounds(sp, needed, 0, rounds)
  }

  lemma {:induction false} TakeBounded(cold: seq<Record>, needed: nat, cap: nat, total: nat)
    ensures TakeBySize(cold, needed, cap, total).0 <= |cold|
    ensures total < needed && cold != [] && cap > 0 ==> TakeBySize(cold, needed, cap, total).0 > 0
    decreases |cold|
  {
    if cold != [] && cap > 0 && total < needed {
      TakeBounded(cold[1..], needed, cap - 1, (total + cold[0].allocSize) % U32);
    }
  }

  // ---------- the shape of an eviction ----------

  function EntriesOf(rs: seq<Record>, now: nat): seq<Entry> {
    seq(|rs|, i requires 0 <= i < |rs| => EntryOf(rs[i], now))
  }

  /** `t` is `sp` with its `n` coldest keys evicted at `now`. */
  ghost predicate ColdEndGone(sp: Space, n: nat, now: nat, t: Space)
    requires MetaIndex.Wf(sp.index) && n <= |sp.index.lru|
  {
    var lru, left := sp.index.lru, |sp.index.lru| - n;
    && t.alloc == sp.alloc && t.link == sp.link && t.queue.forced == sp.queue.forced
    && MetaIndex.Wf(t.index) && t.index.lru == lru[..left]
    && t.index.recs == Outside(sp.index.recs, lru, left)
    && t.queue.entries == sp.queue.entries + EntriesOf(Coldest(sp.index, n), now)
  }

  /** The next key to go is the last one listed. */
  lemma NextCold(sp: Space, n: nat, now: nat, t: Space)
    requires MetaIndex.Wf(sp.index) && n < |sp.index.lru| && ColdEndGone(sp, n, now, t)
    ensures
      var k := sp.index.lru[|sp.index.lru| - n - 1];
      && |t.index.lru| > 0 && t.index.lru[|t.index.lru| - 1] == k && k in sp.index.recs && k in t.index.recs
      && t.index.recs[k] == sp.index.recs[k] == Coldest(sp.index, n + 1)[n]
  {
    var lru, m := sp.index.lru, |sp.index.lru| - n - 1;
    assert lru[m] in lru;
    NoDupTake(lru, m + 1);
    assert lru[m] in lru[..m + 1];
  }

  lemma WithoutLast(lru: seq<Key>, m: nat)
    requires NoDup(lru) && m < |lru|
    ensures Without(lru[..m + 1], lru[m]) == lru[..m]
  {
    NoDupTake(lru, m + 1);
    WithoutAt(lru[..m + 1], m);
    assert lru[..m + 1][..m] + lru[..m + 1][m + 1..] == lru[..m];
  }

  /** The records outside the end of the list from `m` on. */
  function Outside(recs: map<Key, Record>, lru: seq<Key>, m: nat): map<Key, Record>
    requires m <= |lru|
  {
    map k | k in recs && k !in lru[m..] :: recs[k]
  }

  lemma OutsideMore(recs: map<Key, Record>, lru: seq<Key>, m: nat)
    requires m < |lru|
    ensures Outside(recs, lru, m + 1) - {lru[m]} == Outside(recs, lru, m)
  {
    assert lru[m..] == [lru[m]] + lru[m + 1..];
  }

  lemma ColdestMore(s: IndexState, n: nat, now: nat)
    requires MetaIndex.Wf(s) && n < |s.lru|
    ensures
      var k := s.lru[|s.lru| - n - 1];
      k in s.recs && EntriesOf(Coldest(s, n + 1), now) == EntriesOf(Coldest(s, n), now) + [EntryOf(s.recs[k], now)]
  {
    assert s.lru[|s.lru| - n - 1] in s.lru;
  }

  lemma ColdEndStep(sp: Space, n: nat, now: nat, t: Space)
    requires MetaIndex.Wf(sp.index) && n < |sp.index.lru| && ColdEndGone(sp, n, now, t)
    ensures
      var k := sp.index.lru[|sp.index.lru| - n - 1];
      k in t.index.recs && ColdEndGone(sp, n + 1, now, Evicted(t, k, now))
  {
    var m := |sp.index.lru| - n - 1;
    NextCold(sp, n, now, t);
    WithoutLast(sp.index.lru, m);
    OutsideMore(sp.index.recs, sp.index.lru, m);
    ColdestMore(sp.index, n, now);
    RemoveKeepsWf(t.index, sp.index.lru[m]);
  }

  /** Evicting one by one takes exactly the cold end of the list. */
  lemma {:induction false} EvictNShape(sp: Space, n: nat, now: nat)
    requires MetaIndex.Wf(sp.index) && n <= |sp.index.lru|
    ensures ColdEndGone(sp, n, now, EvictN(sp, n, now))
  {
    if n > 0 {
      EvictNShape(sp, n - 1, now);
      NextCold(sp, n - 1, now, EvictN(sp, n - 1, now));
      ColdEndStep(sp, n - 1, now, EvictN(sp, n - 1, now));
    } else {
      assert sp.queue.entries + [] == sp.queue.entries;
    }
  }

  lemma NextEvicted(sp: Space, n: nat, now: nat)
    requires MetaIndex.Wf(sp.index) && n < |sp.index.lru|
    ensures
      var t := EvictN(sp, n, now);
      && t.index.lru != [] && t.index.lru[|t.index.lru| - 1] in t.index.recs
      && EvictN(sp, n + 1, now) == Evicted(t, t.index.lru[|t.index.lru| - 1], now)
  {
    EvictNShape(sp, n, now);
    NextCold(sp, n, now, EvictN(sp, n, now));
  }

  lemma EvictLastConserves(sp: Space, rest: multiset<nat>, now: nat)
    requires Conserved(sp, rest) && sp.index.lru != []
    ensures
      var k := sp.index.lru[|sp.index.lru| - 1];
      k in sp.index.recs && Conserved(Evicted(sp, k, now), rest)
  {
    assert sp.index.lru[|sp.index.lru| - 1] in sp.index.lru;
    RemoveConserves(sp, rest, sp.index.lru[|sp.index.lru| - 1], now);
  }

  lemma {:induction false} EvictNConserves(sp: Space, rest: multiset<nat>, n: nat, now: nat)
    requires Conserved(sp, rest) && n <= |sp.index.lru|
    ensures Conserved(EvictN(sp, n, now), rest)
  {
    if n > 0 {
      EvictNConserves(sp, rest, n - 1, now);
      NextEvicted(sp, n - 1, now);
      EvictLastConserves(EvictN(sp, n - 1, now), rest, now);
    }
  }

  lemma EvictBatchShape(sp: Space, n: nat, r: Round)
    requires MetaIndex.Wf(sp.index) && n <= |sp.index.lru|
    ensures MetaIndex.Wf(EvictBatch(sp, n, r).0.index)
  {
    EvictNShape(sp.(link := SyncRemoveSpec(sp.link, KeysOf(Coldest(sp.index, n)), r.rpc).0), n, r.now);
  }

  /** A batch of evictions leaves the records of other stores alone exactly if it does not reach Meta
      or evicts no key that another store committed. */
  lemma EvictBatchSparesOthersIff(sp: Space, storeId: nat, n: nat, r: Round)
    requires MetaIndex.Wf(sp.index) && n <= |sp.index.lru|
    ensures OthersKept(sp.link.table, EvictBatch(sp, n, r).0.link.table, storeId)
      <==> !sp.link.connected || r.rpc.NotDelivered? || OwnKeys(sp.link.table, storeId, KeysOf(Coldest(sp.index, n)))
  {
    var keys := KeysOf(Coldest(sp.index, n));
    SyncRemoveSparesOthersIff(sp.link, storeId, keys, r.rpc);
    EvictNShape(sp.(link := SyncRemoveSpec(sp.link, keys, r.rpc).0), n, r.now);
  }

  lemma EvictBatchConserves(sp: Space, rest: multiset<nat>, n: nat, r: Round)
    requires Conserved(sp, rest) && n <= |sp.index.lru|
    ensures Conserved(EvictBatch(sp, n, r).0, rest) && EvictBatch(sp, n, r).0.alloc == sp.alloc
  {
    var sp' := sp.(link := SyncRemoveSpec(sp.link, KeysOf(Coldest(sp.index, n)), r.rpc).0);
    EvictNConserves(sp', rest, n, r.now);
    EvictNShape(sp', n, r.now);
  }

  lemma ForceRoundConserves(sp: Space, rest: multiset<nat>, needed: nat, total: nat, r: Round)
    requires Conserved(sp, rest)
    ensures var t := ForceRound(sp, needed, total, r).0; Conserved(t, rest) && t.alloc == sp.alloc
  {
    if total < needed { EvictBatchConserves(sp, rest, Victims(sp.index, needed - total).0, r); }
  }

  lemma {:induction false} ForceRoundsConserves(sp: Space, rest: multiset<nat>, needed: nat, total: nat,
                                                rounds: seq<Round>)
    requires Conserved(sp, rest)
    ensures var t := ForceRounds(sp, needed, total, rounds).0; Conserved(t, rest) && t.alloc == sp.alloc
    decreases |rounds|
  {
    if rounds != [] {
      ForceRoundConserves(sp, rest, needed, total, rounds[0]);
      var (t, sum, more) := ForceRound(sp, needed, total, rounds[0]);
      if more { ForceRoundsConserves(t, rest, needed, sum, rounds[1..]); }
    }
  }

  // ---------- exactly the shortest coldest prefix ----------

  function SizeSum(rs: seq<Record>): nat
    decreases |rs|
  {
    if rs == [] then 0 else rs[0].allocSize + SizeSum(rs[1..])
  }

  /** The length of the shortest prefix of `cold` covering `needed` bytes, or all that `cap`
      and the list allow. */
  function Shortest(cold: seq<Record>, needed: nat, cap: nat): (n: nat)
    ensures n <= |cold| && n <= cap
    decreases |cold|
  {
    if cold == [] || cap == 0 || needed == 0 then 0
    else 1 + Shortest(cold[1..], if needed > cold[0].allocSize then needed - cold[0].allocSize else 0, cap - 1)
  }

  /** `Shortest` is what its name says. */
  lemma {:induction false} ShortestIsShortest(cold: seq<Record>, needed: nat, cap: nat)
    ensures
      var n := Shortest(cold, needed, cap);
      && (SizeSum(cold[..n]) >= needed || n == cap || n == |cold|)
      && (forall m :: 0 <= m < n ==> SizeSum(cold[..m]) < needed)
    decreases |cold|
  {
    if cold != [] && cap != 0 && needed != 0 {
      var left := if needed > cold[0].allocSize then needed - cold[0].allocSize else 0;
      var n := Shortest(cold, needed, cap);
      ShortestIsShortest(cold[1..], left, cap - 1);
      forall m | 0 <= m < n ensures SizeSum(cold[..m]) < needed {
        if m > 0 {
          assert cold[..m][0] == cold[0] && cold[..m][1..] == cold[1..][..m - 1];
          assert SizeSum(cold[1..][..m - 1]) < left;
        }
      }
      assert cold[..n][0] == cold[0] && cold[..n][1..] == cold[1..][..n - 1];
    }
  }

  /** The scan of the index with its 32-bit running total takes the shortest covering prefix as
      long as that prefix's size fits 32 bits. */
  lemma {:induction false} TakeIsShortest(cold: seq<Record>, needed: nat, cap: nat, total: nat)
    requires total <= needed
    requires total + SizeSum(cold[..Shortest(cold, needed - total, cap)]) < U32
    ensures
      var n := Shortest(cold, needed - total, cap);
      TakeBySize(cold, needed, cap, total) == (n, total + SizeSum(cold[..n]))
    decreases |cold|
  {
    if cold != [] && cap != 0 && total < needed {
      var sum := total + cold[0].allocSize;
      FirstTaken(cold, Shortest(cold, needed - total, cap));
      OneTaken(cold, needed, cap, total);
      if sum <= needed {
        TakeIsShortest(cold[1..], needed, cap - 1, sum);
      } else {
        assert Shortest(cold[1..], 0, cap - 1) == 0;
        assert SizeSum(cold[1..][..0]) == 0;
      }
    } else {
      assert SizeSum(cold[..0]) == 0;
    }
  }

  lemma FirstTaken(cold: seq<Record>, n: nat)
    requires 0 < n <= |cold|
    ensures SizeSum(cold[..n]) == cold[0].allocSize + SizeSum(cold[1..][..n - 1])
  {
    assert cold[..n][1..] == cold[1..][..n - 1];
  }

  lemma OneTaken(cold: seq<Record>, needed: nat, cap: nat, total: nat)
    requires cold != [] && cap != 0 && total < needed && total + cold[0].allocSize < U32
    ensures
      var (n, sum) := TakeBySize(cold[1..], needed, cap - 1, total + cold[0].allocSize);
      TakeBySize(cold, needed, cap, total) == (n + 1, sum)
  {
  }

  /** The scan's total is the true size of the shortest covering prefix exactly when that size
      fits 32 bits. */
  lemma TakeExactIff(cold: seq<Record>, needed: nat, cap: nat)
    ensures
      var n := Shortest(cold, needed, cap);
      TakeBySize(cold, needed, cap, 0) == (n, SizeSum(cold[..n])) <==> SizeSum(cold[..n]) < U32
  {
    var n := Shortest(cold, needed, cap);
    if SizeSum(cold[..n]) < U32 {
      TakeIsShortest(cold, needed, cap, 0);
    } else {
      TakeTotalFits(cold, needed, cap, 0);
    }
  }

  lemma {:induction false} TakeTotalFits(cold: seq<Record>, needed: nat, cap: nat, total: nat)
    requires total < U32
    ensures TakeBySize(cold, needed, cap, total).1 < U32
    decreases |cold|
  {
    if cold != [] && cap != 0 && total < needed {
      TakeTotalFits(cold[1..], needed, cap - 1, (total + cold[0].allocSize) % U32);
    }
  }

  /** When the prefix does not fit, the total wraps and the scan runs on: with slots of 2^31
      bytes and a request of 2^32 - 1, two records would do and all three are taken. */
  lemma WrappedTotalOvershoots(k: Key)
    ensures
      var r := Record(k, 0, 1, 0x8000_0000, 1, 0);
      && Shortest([r, r, r], U32 - 1, MAX_PER_ROUND) == 2
      && TakeBySize([r, r, r], U32 - 1, MAX_PER_ROUND, 0) == (3, 0x8000_0000)
  {
    var r := Record(k, 0, 1, 0x8000_0000, 1, 0);
    assert [r, r, r][1..] == [r, r] && [r, r][1..] == [r] && [r][1..] == [];
    assert Shortest([r], 0, MAX_PER_ROUND - 2) == 0;
    assert Shortest([r, r], 0x7FFF_FFFF, MAX_PER_ROUND - 1) == 1;
    assert TakeBySize([], U32 - 1, MAX_PER_ROUND - 3, 0x8000_0000) == (0, 0x8000_0000);
    assert TakeBySize([r], U32 - 1, MAX_PER_ROUND - 2, 0) == (1, 0x8000_0000);
    assert TakeBySize([r, r], U32 - 1, MAX_PER_ROUND - 1, 0x8000_0000) == (2, 0x8000_0000);
  }

  // ---------- the rounds together ----------

  predicate RemoveSucceeds(connected: bool, rpc: Rpc) { !connected || rpc.Delivered? }

  /** How many rounds get through to Meta, or skip it, before the first that fails. */
  function OkRounds(connected: bool, rounds: seq<Round>): (n: nat)
    ensures n <= |rounds|
  {
    if rounds == [] || !RemoveSucceeds(connected, rounds[0].rpc) then 0 else 1 + OkRounds(connected, rounds[1..])
  }

  function Left(needed: nat, total: nat): nat { if total < needed then needed - total else 0 }

  /** `t` is `sp` without its `n` coldest keys, whose slots now wait in the queue, coldest first. */
  ghost predicate ColdestEvicted(sp: Space, n: nat, t: Space)
    requires MetaIndex.Wf(sp.index) && n <= |sp.index.lru|
  {
    var lru, left := sp.index.lru, |sp.index.lru| - n;
    && t.alloc == sp.alloc && MetaIndex.Wf(t.index) && t.index.lru == lru[..left]
    && t.index.recs == Outside(sp.index.recs, lru, left)
    && OffsetsOf(t.queue.entries) == OffsetsOf(sp.queue.entries) + RecordOffsets(Coldest(sp.index, n))
  }

  function RecordOffsets(rs: seq<Record>): seq<nat> {
    seq(|rs|, i requires 0 <= i < |rs| => rs[i].offset)
  }

  /** Covering in two rounds is covering in one with the caps added. */
  lemma {:induction false} ShortestInRounds(cold: seq<Record>, needed: nat, c1: nat, c2: nat)
    ensures
      var n := Shortest(cold, needed, c1);
      Shortest(cold, needed, c1 + c2) == n + Shortest(cold[n..], Left(needed, SizeSum(cold[..n])), c2)
    decreases |cold|
  {
    var n := Shortest(cold, needed, c1);
    if n > 0 {
      var left := Left(needed, cold[0].allocSize);
      ShortestInRounds(cold[1..], left, c1 - 1, c2);
      assert cold[1..][n - 1..] == cold[n..];
      assert cold[..n][0] == cold[0] && cold[..n][1..] == cold[1..][..n - 1];
    } else {
      assert cold[0..] == cold && cold[..0] == [];
    }
  }

  lemma {:induction false} SizeSumConcat(a: seq<Record>, b: seq<Record>)
    ensures SizeSum(a + b) == SizeSum(a) + SizeSum(b)
  {
    if a == [] {
      assert a + b == b;
    } else {
      assert (a + b)[1..] == a[1..] + b;
      SizeSumConcat(a[1..], b);
    }
  }

  /** Evicting some coldest keys and then some more. */
  lemma EvictedTwice(sp: Space, n1: nat, t: Space, n2: nat, u: Space)
    requires MetaIndex.Wf(sp.index) && n1 <= |sp.index.lru| && ColdestEvicted(sp, n1, t)
    requires n2 <= |t.index.lru| && ColdestEvicted(t, n2, u)
    ensures Coldest(t.index, |t.index.lru|) == Coldest(sp.index, |sp.index.lru|)[n1..]
    ensures ColdestEvicted(sp, n1 + n2, u)
  {
    RestOfColdest(sp, n1, t);
    var lru := sp.index.lru;
    var l1, l2 := |lru| - n1, |lru| - n1 - n2;
    assert lru[..l1][..l2] == lru[..l2];
    assert lru[l2..] == lru[..l1][l2..] + lru[l1..];
    assert forall k :: k in lru[l2..] <==> k in lru[..l1][l2..] || k in lru[l1..];
    assert Coldest(t.index, n2) == Coldest(t.index, |t.index.lru|)[..n2];
    assert Coldest(sp.index, n1 + n2) == Coldest(sp.index, n1) + Coldest(t.index, n2);
    assert RecordOffsets(Coldest(sp.index, n1 + n2))
      == RecordOffsets(Coldest(sp.index, n1)) + RecordOffsets(Coldest(t.index, n2));
  }

  lemma RestOfColdest(sp: Space, n: nat, t: Space)
    requires MetaIndex.Wf(sp.index) && n <= |sp.index.lru| && ColdestEvicted(sp, n, t)
    ensures Coldest(t.index, |t.index.lru|) == Coldest(sp.index, |sp.index.lru|)[n..]
  {
    var lru := sp.index.lru;
    forall i | 0 <= i < |t.index.lru|
      ensures Coldest(t.index, |t.index.lru|)[i] == Coldest(sp.index, |sp.index.lru|)[n + i]
    {
      assert t.index.lru[|t.index.lru| - 1 - i] in t.index.lru;
    }
  }

  /** One round that evicts something evicts exactly what the scan picked. */
  lemma RoundEvicts(sp: Space, needed: nat, total: nat, r: Round)
    requires MetaIndex.Wf(sp.index) && total < needed
    ensures
      var (n, bytes) := Victims(sp.index, needed - total);
      var (t, sum, more) := ForceRound(sp, needed, total, r);
      && (more <==> n > 0 && RemoveSucceeds(sp.link.connected, r.rpc))
      && (more ==> sum == (total + bytes) % U32 && ColdestEvicted(sp, n, t) && t.link.connected == sp.link.connected)
      && (!more ==> sum == total && ColdestEvicted(sp, 0, t))
  {
    var n := Victims(sp.index, needed - total).0;
    var sp' := sp.(link := SyncRemoveSpec(sp.link, KeysOf(Coldest(sp.index, n)), r.rpc).0);
    EvictNShape(sp', n, r.now);
    EvictedIsColdest(sp', n, r.now, EvictN(sp', n, r.now));
    NothingEvicted(sp, sp.link);
    NothingEvicted(sp, sp'.link);
  }

  lemma EvictedIsColdest(sp: Space, n: nat, now: nat, t: Space)
    requires MetaIndex.Wf(sp.index) && n <= |sp.index.lru| && ColdEndGone(sp, n, now, t)
    ensures ColdestEvicted(sp, n, t)
  {
    var es := EntriesOf(Coldest(sp.index, n), now);
    assert OffsetsOf(sp.queue.entries + es) == OffsetsOf(sp.queue.entries) + OffsetsOf(es);
    assert OffsetsOf(es) == RecordOffsets(Coldest(sp.index, n));
  }

  lemma NothingEvicted(sp: Space, link: LinkState)
    requires MetaIndex.Wf(sp.index)
    ensures ColdestEvicted(sp, 0, sp.(link := link))
  {
    var lru := sp.index.lru;
    assert lru[..|lru|] == lru;
    assert OffsetsOf(sp.queue.entries) + RecordOffsets(Coldest(sp.index, 0)) == OffsetsOf(sp.queue.entries);
  }

  /** The records of `cold` a forced eviction of `need` bytes should evict: the shortest covering
      prefix, cut short only by 64 keys a round, the end of the list, or the first round Meta
      fails. */
  function Prefix(cold: seq<Record>, connected: bool, need: nat, rounds: seq<Round>): seq<Record> {
    cold[..Shortest(cold, need, MAX_PER_ROUND * OkRounds(connected, rounds))]
  }

  /** After the first round the prefix still to evict is the rest of the prefix. */
  lemma PrefixInRounds(cold: seq<Record>, connected: bool, need: nat, rounds: seq<Round>)
    requires rounds != [] && RemoveSucceeds(connected, rounds[0].rpc)
    ensures
      var n1 := Shortest(cold, need, MAX_PER_ROUND);
      var p2 := Prefix(cold[n1..], connected, Left(need, SizeSum(cold[..n1])), rounds[1..]);
      && Prefix(cold, connected, need, rounds) == cold[..n1] + p2
      && SizeSum(cold[..n1] + p2) == SizeSum(cold[..n1]) + SizeSum(p2)
  {
    var n1 := Shortest(cold, need, MAX_PER_ROUND);
    var c2 := MAX_PER_ROUND * OkRounds(connected, rounds[1..]);
    ShortestInRounds(cold, need, MAX_PER_ROUND, c2);
    var p2 := Prefix(cold[n1..], connected, Left(need, SizeSum(cold[..n1])), rounds[1..]);
    assert Prefix(cold, connected, need, rounds) == cold[..n1] + p2;
    SizeSumConcat(cold[..n1], p2);
  }

  /** From `sp` with `total` bytes evicted, reaching `t` and `sum` evicts exactly `p`. */
  ghost predicate EvictsPrefix(sp: Space, total: nat, p: seq<Record>, t: Space, sum: nat)
    requires MetaIndex.Wf(sp.index)
  {
    sum == total + SizeSum(p) && |p| <= |sp.index.lru| && ColdestEvicted(sp, |p|, t)
  }

  lemma PrefixThenRest(sp: Space, total: nat, p1: seq<Record>, t: Space, sum: nat, p2: seq<Record>, u: Space, sum2: nat)
    requires MetaIndex.Wf(sp.index) && EvictsPrefix(sp, total, p1, t, sum)
    requires MetaIndex.Wf(t.index) && EvictsPrefix(t, sum, p2, u, sum2)
    requires SizeSum(p1 + p2) == SizeSum(p1) + SizeSum(p2)
    ensures EvictsPrefix(sp, total, p1 + p2, u, sum2)
  {
    EvictedTwice(sp, |p1|, t, |p2|, u);
  }

  /** What one round contributes. */
  lemma RoundExact(sp: Space, needed: nat, total: nat, r: Round, cold: seq<Record>)
    requires MetaIndex.Wf(sp.index) && total < needed && cold == Coldest(sp.index, |sp.index.lru|)
    requires RemoveSucceeds(sp.link.connected, r.rpc) ==>
      total + SizeSum(cold[..Shortest(cold, needed - total, MAX_PER_ROUND)]) < U32
    ensures
      var p1 := if RemoveSucceeds(sp.link.connected, r.rpc) then cold[..Shortest(cold, needed - total, MAX_PER_ROUND)]
        else [];
      var (t, sum, more) := ForceRound(sp, needed, total, r);
      && EvictsPrefix(sp, total, p1, t, sum)
      && (more <==> p1 != [])
      && (more ==> t.link.connected == sp.link.connected && Coldest(t.index, |t.index.lru|) == cold[|p1|..])
  {
    RoundEvicts(sp, needed, total, r);
    if RemoveSucceeds(sp.link.connected, r.rpc) {
      TakeIsShortest(cold, needed - total, MAX_PER_ROUND, 0);
      var (t, sum, more) := ForceRound(sp, needed, total, r);
      if more { RestOfColdest(sp, Shortest(cold, needed - total, MAX_PER_ROUND), t); }
    }
  }

  /** The first round that gets through, and then the rest of the rounds, evict the whole prefix. */
  lemma FirstThenRest(sp: Space, needed: nat, total: nat, rounds: seq<Round>, cold: seq<Record>,
                      t: Space, sum: nat, u: Space, sum2: nat)
    requires MetaIndex.Wf(sp.index) && MetaIndex.Wf(t.index) && total < needed
    requires rounds != [] && RemoveSucceeds(sp.link.connected, rounds[0].rpc)
    requires EvictsPrefix(sp, total, cold[..Shortest(cold, needed - total, MAX_PER_ROUND)], t, sum)
    requires
      var rest := cold[Shortest(cold, needed - total, MAX_PER_ROUND)..];
      EvictsPrefix(t, sum, Prefix(rest, sp.link.connected, Left(needed, sum), rounds[1..]), u, sum2)
    ensures EvictsPrefix(sp, total, Prefix(cold, sp.link.connected, needed - total, rounds), u, sum2)
  {
    var n1 := Shortest(cold, needed - total, MAX_PER_ROUND);
    PrefixInRounds(cold, sp.link.connected, needed - total, rounds);
    assert Left(needed, sum) == Left(needed - total, SizeSum(cold[..n1]));
    PrefixThenRest(sp, total, cold[..n1], t, sum,
                   Prefix(cold[n1..], sp.link.connected, Left(needed, sum), rounds[1..]), u, sum2);
  }

  /** The rounds stop at once when Meta fails, or when the index is empty. */
  lemma LastRound(sp: Space, needed: nat, total: nat, rounds: seq<Round>, cold: seq<Record>)
    requires MetaIndex.Wf(sp.index) && cold == Coldest(sp.index, |sp.index.lru|)
    requires rounds != [] && total < needed && (!RemoveSucceeds(sp.link.connected, rounds[0].rpc) || cold == [])
    ensures
      var (t, sum) := ForceRounds(sp, needed, total, rounds);
      EvictsPrefix(sp, total, Prefix(cold, sp.link.connected, needed - total, rounds), t, sum)
  {
    assert Prefix(cold, sp.link.connected, needed - total, rounds) == [];
    RoundEvicts(sp, needed, total, rounds[0]);
  }

  /** A first round that evicts something, and what it leaves to the others. */
  lemma FirstRound(sp: Space, needed: nat, total: nat, rounds: seq<Round>, cold: seq<Record>)
    requires MetaIndex.Wf(sp.index) && cold == Coldest(sp.index, |sp.index.lru|) && cold != []
    requires rounds != [] && total < needed && RemoveSucceeds(sp.link.connected, rounds[0].rpc)
    requires total + SizeSum(Prefix(cold, sp.link.connected, needed - total, rounds)) < U32
    ensures
      var n1 := Shortest(cold, needed - total, MAX_PER_ROUND);
      var (t, sum, more) := ForceRound(sp, needed, total, rounds[0]);
      && more && t.link.connected == sp.link.connected && cold[n1..] == Coldest(t.index, |t.index.lru|)
      && EvictsPrefix(sp, total, cold[..n1], t, sum)
      && sum + SizeSum(Prefix(cold[n1..], sp.link.connected, Left(needed, sum), rounds[1..])) < U32
  {
    FirstPart(cold, sp.link.connected, needed, total, rounds);
    RoundExact(sp, needed, total, rounds[0], cold);
  }

  lemma FirstPart(cold: seq<Record>, connected: bool, needed: nat, total: nat, rounds: seq<Round>)
    requires rounds != [] && total < needed && cold != [] && RemoveSucceeds(connected, rounds[0].rpc)
    ensures
      var n1 := Shortest(cold, needed - total, MAX_PER_ROUND);
      var sum := total + SizeSum(cold[..n1]);
      && cold[..n1] != []
      && total + SizeSum(Prefix(cold, connected, needed - total, rounds))
         == sum + SizeSum(Prefix(cold[n1..], connected, Left(needed, sum), rounds[1..]))
  {
    var n1 := Shortest(cold, needed - total, MAX_PER_ROUND);
    PrefixInRounds(cold, connected, needed - total, rounds);
    assert Left(needed, total + SizeSum(cold[..n1])) == Left(needed - total, SizeSum(cold[..n1]));
  }

  /** Forced eviction evicts exactly that prefix, and its result is the prefix's size, as long
      as the size fits 32 bits. */
  lemma {:induction false} ForceRoundsExact(sp: Space, needed: nat, total: nat, rounds: seq<Round>, cold: seq<Record>)
    requires MetaIndex.Wf(sp.index) && cold == Coldest(sp.index, |sp.index.lru|)
    requires total + SizeSum(Prefix(cold, sp.link.connected, Left(needed, total), rounds)) < U32
    ensures
      var (t, sum) := ForceRounds(sp, needed, total, rounds);
      EvictsPrefix(sp, total, Prefix(cold, sp.link.connected, Left(needed, total), rounds), t, sum)
    decreases |rounds|
  {
    if rounds == [] || total >= needed {
      NothingEvicted(sp, sp.link);
      assert Prefix(cold, sp.link.connected, Left(needed, total), rounds) == [];
    } else if !RemoveSucceeds(sp.link.connected, rounds[0].rpc) || cold == [] {
      LastRound(sp, needed, total, rounds, cold);
    } else {
      var n1 := Shortest(cold, needed - total, MAX_PER_ROUND);
      var (t, sum, more) := ForceRound(sp, needed, total, rounds[0]);
      FirstRound(sp, needed, total, rounds, cold);
      ForceRoundsExact(t, needed, sum, rounds[1..], cold[n1..]);
      var (u, sum2) := ForceRounds(t, needed, sum, rounds[1..]);
      FirstThenRest(sp, needed, total, rounds, cold, t, sum, u, sum2);
    }
  }

  lemma {:induction false} ForceRoundsFit(sp: Space, needed: nat, total: nat, rounds: seq<Round>)
    requires MetaIndex.Wf(sp.index) && total < U32
    ensures ForceRounds(sp, needed, total, rounds).1 < U32
    decreases |rounds|
  {
    if rounds != [] {
      var (t, sum, more) := ForceRound(sp, needed, total, rounds[0]);
      if more { ForceRoundsFit(t, needed, sum, rounds[1..]); }
    }
  }

  /** Evicting never reconnects the store to Meta. */
  lemma {:induction false} ForceRoundsLink(sp: Space, needed: nat, total: nat, rounds: seq<Round>)
    requires MetaIndex.Wf(sp.index)
    ensures ForceRounds(sp, needed, total, rounds).0.link.connected ==> sp.link.connected
    decreases |rounds|
  {
    if rounds != [] {
      ForceRoundLink(sp, needed, total, rounds[0]);
      var (t, sum, more) := ForceRound(sp, needed, total, rounds[0]);
      if more { ForceRoundsLink(t, needed, sum, rounds[1..]); }
    }
  }

  lemma ForceRoundLink(sp: Space, needed: nat, total: nat, r: Round)
    requires MetaIndex.Wf(sp.index)
    ensures ForceRound(sp, needed, total, r).0.link.connected ==> sp.link.connected
  {
    if total < needed {
      var n := Victims(sp.index, needed - total).0;
      EvictNShape(sp.(link := SyncRemoveSpec(sp.link, KeysOf(Coldest(sp.index, n)), r.rpc).0), n, r.now);
    }
  }

  /** A forced eviction evicts exactly that prefix, and returns its size, exactly when the size
      fits 32 bits. */
  lemma ForceEvictExactIff(sp: Space, needed: nat, rounds: seq<Round>)
    requires MetaIndex.Wf(sp.index) && |rounds| == MAX_ROUNDS
    ensures
      var p := Prefix(Coldest(sp.index, |sp.index.lru|), sp.link.connected, needed, rounds);
      var (t, sum) := ForceEvictSpec(sp, needed, rounds);
      EvictsPrefix(sp, 0, p, t, sum) <==> SizeSum(p) < U32
  {
    var cold := Coldest(sp.index, |sp.index.lru|);
    if SizeSum(Prefix(cold, sp.link.connected, needed, rounds)) < U32 {
      ForceRoundsExact(sp, needed, 0, rounds, cold);
    } else {
      ForceRoundsFit(sp, needed, 0, rounds);
    }
  }

  /** With equal slots the result stays below `needed` plus one slot, so a request that leaves
      room for one slot in 32 bits never wraps. */
  lemma ForceEvictBound(sp: Space, rest: multiset<nat>, needed: nat, rounds: seq<Round>)
    requires Conserved(sp, rest) && |rounds| == MAX_ROUNDS && needed + sp.alloc.slotSize <= U32
    ensures
      var p := Prefix(Coldest(sp.index, |sp.index.lru|), sp.link.connected, needed, rounds);
      var (t, sum) := ForceEvictSpec(sp, needed, rounds);
      EvictsPrefix(sp, 0, p, t, sum) && (needed > 0 ==> sum < needed + sp.alloc.slotSize)
  {
    var cold := Coldest(sp.index, |sp.index.lru|);
    forall r | r in cold ensures r.allocSize == sp.alloc.slotSize {
      var i :| 0 <= i < |cold| && cold[i] == r;
      assert sp.index.lru[|sp.index.lru| - 1 - i] in sp.index.lru;
    }
    OvershootsByLessThanOne(cold, needed, MAX_PER_ROUND * OkRounds(sp.link.connected, rounds), sp.alloc.slotSize);
    ForceRoundsExact(sp, needed, 0, rounds, cold);
  }

  /** The last record taken was still needed. */
  lemma {:induction false} OvershootsByLessThanOne(cold: seq<Record>, needed: nat, cap: nat, slot: nat)
    requires forall r :: r in cold ==> r.allocSize == slot
    ensures
      var sum := SizeSum(cold[..Shortest(cold, needed, cap)]);
      if needed == 0 then sum == 0 else sum < needed + slot
    decreases |cold|
  {
    var n := Shortest(cold, needed, cap);
    if n > 0 {
      FirstTaken(cold, n);
      OvershootsByLessThanOne(cold[1..], Left(needed, slot), cap - 1, slot);
      assert needed <= slot ==> n == 1 && SizeSum(cold[1..][..0]) == 0;
    } else {
      assert SizeSum(cold[..0]) == 0;
    }
  }

  // ---------- the watermark pass ----------

  /** What one turn of the pass meets: an eviction round, and perhaps a tick of the queue's own
      thread before usage is looked at again. */
  datatype Turn = Turn(round: Round, tick: Option<nat>)

  function Usage(a: AllocState): real {
    if !a.initialized || a.totalSlots == 0 then 0.0 else a.usedSlots as real / a.totalSlots as real
  }

  ghost function Ticked(sp: Space, grace: nat, tick: Option<nat>): Space {
    if tick.Some? then FlushExpiredSpec(sp, grace, tick.value) else sp
  }

  /** One turn: a batch of up to 16, then the tick; no more turns after an empty index or a
      failure. */
  ghost function PassTurn(sp: Space, grace: nat, turn: Turn): (Space, bool)
    requires MetaIndex.Wf(sp.index)
  {
    var n := Min(MAX_PER_PASS, |sp.index.lru|);
    if n == 0 then (sp, false)
    else
      var (t, ok) := EvictBatch(sp, n, turn.round);
      if ok then (Ticked(t, grace, turn.tick), true) else (t, false)
  }

  /** The pass from turn `i` on: turns until usage is at most `low`. */
  ghost function PassSpec(sp: Space, low: real, grace: nat, env: nat -> Turn, i: nat): Space
    requires MetaIndex.Wf(sp.index)
    decreases |sp.index.lru|
  {
    if Usage(sp.alloc) <= low then sp
    else
      var (t, more) := PassTurn(sp, grace, env(i));
      PassTurnShrinks(sp, grace, env(i));
      if more then PassSpec(t, low, grace, env, i + 1) else t
  }

  /** The measure of the pass: every turn that asks for another shortens the list. */
  lemma PassTurnShrinks(sp: Space, grace: nat, turn: Turn)
    requires MetaIndex.Wf(sp.index)
    ensures var (t, more) := PassTurn(sp, grace, turn);
            MetaIndex.Wf(t.index) && (more ==> |t.index.lru| < |sp.index.lru|)
  {
    var n := Min(MAX_PER_PASS, |sp.index.lru|);
    EvictNShape(sp.(link := SyncRemoveSpec(sp.link, KeysOf(Coldest(sp.index, n)), turn.round.rpc).0), n,
                turn.round.now);
  }

  lemma PassTurnConserves(sp: Space, rest: multiset<nat>, grace: nat, turn: Turn)
    requires Conserved(sp, rest)
    ensures Conserved(PassTurn(sp, grace, turn).0, rest)
  {
    var n := Min(MAX_PER_PASS, |sp.index.lru|);
    EvictBatchConserves(sp, rest, n, turn.round);
    var (t, ok) := EvictBatch(sp, n, turn.round);
    if turn.tick.Some? { FlushExpiredConserves(t, rest, grace, turn.tick.value); }
  }

  lemma {:induction false} PassConserves(sp: Space, rest: multiset<nat>, low: real, grace: nat, env: nat -> Turn,
                                         i: nat)
    requires Conserved(sp, rest)
    ensures Conserved(PassSpec(sp, low, grace, env, i), rest)
    decreases |sp.index.lru|
  {
    if Usage(sp.alloc) > low {
      PassTurnShrinks(sp, grace, env(i));
      PassTurnConserves(sp, rest, grace, env(i));
      var (t, more) := PassTurn(sp, grace, env(i));
      if more { PassConserves(t, rest, low, grace, env, i + 1); }
    }
  }

  /** No tick from turn `i` on finds an entry whose grace period is over: neither one that waits
      already nor one a turn of the pass put there. */
  ghost predicate GraceNeverOver(es: seq<Entry>, grace: nat, env: nat -> Turn, i: nat) {
    forall j: nat :: j >= i && env(j).tick.Some? ==>
      && (forall e :: e in es ==> !Expired(e, grace, env(j).tick.value))
      && (forall h: nat :: i <= h <= j ==> (env(j).tick.value - env(h).round.now) % U64 < grace)
  }

  lemma GraceGoesOn(es: seq<Entry>, rs: seq<Record>, grace: nat, env: nat -> Turn, i: nat)
    requires GraceNeverOver(es, grace, env, i)
    ensures GraceNeverOver(es + EntriesOf(rs, env(i).round.now), grace, env, i + 1)
  {
    forall j: nat, e | j >= i + 1 && env(j).tick.Some? && e in es + EntriesOf(rs, env(i).round.now)
      ensures !Expired(e, grace, env(j).tick.value)
    {
      assert e in es || e in EntriesOf(rs, env(i).round.now);
      if e !in es { assert e.enqueuedAt == env(i).round.now; }
    }
  }

  lemma IdleTick(sp: Space, grace: nat, tick: Option<nat>)
    requires tick.Some? ==> forall e :: e in sp.queue.entries ==> !Expired(e, grace, tick.value)
    ensures Ticked(sp, grace, tick) == sp
  {
    if tick.Some? { NothingDue(sp.queue.entries, grace, tick.value); }
  }

  lemma StillEarly(es: seq<Entry>, rs: seq<Record>, grace: nat, env: nat -> Turn, i: nat)
    requires GraceNeverOver(es, grace, env, i) && env(i).tick.Some?
    ensures
      forall e :: e in es + EntriesOf(rs, env(i).round.now) ==> !Expired(e, grace, env(i).tick.value)
  {
    forall e | e in es + EntriesOf(rs, env(i).round.now)
      ensures !Expired(e, grace, env(i).tick.value)
    {
      assert e in es || e in EntriesOf(rs, env(i).round.now);
      if e !in es { assert e.enqueuedAt == env(i).round.now; }
    }
  }

  /** A batch that Meta does not fail. */
  lemma BatchGoesThrough(sp: Space, n: nat, r: Round)
    requires MetaIndex.Wf(sp.index) && n <= |sp.index.lru| && RemoveSucceeds(sp.link.connected, r.rpc)
    ensures
      var (t, ok) := EvictBatch(sp, n, r);
      && ok && t.alloc == sp.alloc && t.link.connected == sp.link.connected
      && MetaIndex.Wf(t.index) && |t.index.lru| == |sp.index.lru| - n
      && t.queue.entries == sp.queue.entries + EntriesOf(Coldest(sp.index, n), r.now)
  {
    EvictNShape(sp.(link := SyncRemoveSpec(sp.link, KeysOf(Coldest(sp.index, n)), r.rpc).0), n, r.now);
  }

  /** One turn of a pass that Meta does not fail and whose tick finds nothing to free. */
  lemma IdleTurn(sp: Space, grace: nat, env: nat -> Turn, i: nat)
    requires MetaIndex.Wf(sp.index) && sp.index.lru != []
    requires GraceNeverOver(sp.queue.entries, grace, env, i)
    requires RemoveSucceeds(sp.link.connected, env(i).round.rpc)
    ensures
      var (t, more) := PassTurn(sp, grace, env(i));
      && more && t.alloc == sp.alloc && t.link.connected == sp.link.connected
      && MetaIndex.Wf(t.index) && |t.index.lru| < |sp.index.lru|
      && GraceNeverOver(t.queue.entries, grace, env, i + 1)
  {
    var n := Min(MAX_PER_PASS, |sp.index.lru|);
    var cold := Coldest(sp.index, n);
    BatchGoesThrough(sp, n, env(i).round);
    GraceGoesOn(sp.queue.entries, cold, grace, env, i);
    if env(i).tick.Some? { StillEarly(sp.queue.entries, cold, grace, env, i); }
    IdleTick(EvictBatch(sp, n, env(i).round).0, grace, env(i).tick);
  }

  /** The space after `m` turns, taken whatever the usage. */
  ghost function Turned(sp: Space, grace: nat, env: nat -> Turn, i: nat, m: nat): Space
    requires MetaIndex.Wf(sp.index)
    decreases m
  {
    if m == 0 then sp
    else
      PassTurnShrinks(sp, grace, env(i));
      Turned(PassTurn(sp, grace, env(i)).0, grace, env, i + 1, m - 1)
  }

  lemma TurnGoesOn(sp: Space, grace: nat, turn: Turn)
    requires MetaIndex.Wf(sp.index) && sp.index.lru != [] && RemoveSucceeds(sp.link.connected, turn.round.rpc)
    ensures
      var (t, more) := PassTurn(sp, grace, turn);
      && more && t.link.connected == sp.link.connected && MetaIndex.Wf(t.index)
      && |t.index.lru| == |sp.index.lru| - Min(MAX_PER_PASS, |sp.index.lru|)
  {
    BatchGoesThrough(sp, Min(MAX_PER_PASS, |sp.index.lru|), turn.round);
  }

  /** Does turn `m`, before the index can be empty, find usage at most `low`, or fail at Meta? */
  ghost predicate StopsAt(sp: Space, low: real, grace: nat, env: nat -> Turn, i: nat, m: nat)
    requires MetaIndex.Wf(sp.index)
  {
    && m * MAX_PER_PASS < |sp.index.lru|
    && (forall h: nat :: i <= h < i + m ==> RemoveSucceeds(sp.link.connected, env(h).round.rpc))
    && (Usage(Turned(sp, grace, env, i, m).alloc) <= low
        || !RemoveSucceeds(sp.link.connected, env(i + m).round.rpc))
  }

  ghost predicate Stops(sp: Space, low: real, grace: nat, env: nat -> Turn, i: nat)
    requires MetaIndex.Wf(sp.index)
  {
    exists m: nat :: StopsAt(sp, low, grace, env, i, m)
  }

  /** A turn on, the question is the same. */
  lemma StopsNext(sp: Space, low: real, grace: nat, env: nat -> Turn, i: nat)
    requires MetaIndex.Wf(sp.index) && sp.index.lru != [] && Usage(sp.alloc) > low
    requires RemoveSucceeds(sp.link.connected, env(i).round.rpc)
    ensures
      var t := PassTurn(sp, grace, env(i)).0;
      MetaIndex.Wf(t.index) && (Stops(sp, low, grace, env, i) <==> Stops(t, low, grace, env, i + 1))
  {
    TurnGoesOn(sp, grace, env(i));
    var t, next := PassTurn(sp, grace, env(i)).0, i + 1;
    if m: nat :| StopsAt(sp, low, grace, env, i, m) {
      assert m > 0;
      assert StopsAt(t, low, grace, env, next, m - 1);
    }
    if m: nat :| StopsAt(t, low, grace, env, next, m) {
      assert StopsAt(sp, low, grace, env, i, m + 1);
    }
  }

  lemma FailedTurn(sp: Space, grace: nat, turn: Turn)
    requires MetaIndex.Wf(sp.index) && sp.index.lru != [] && !RemoveSucceeds(sp.link.connected, turn.round.rpc)
    ensures !PassTurn(sp, grace, turn).1 && PassTurn(sp, grace, turn).0.index == sp.index
  {
  }

  /** A pass leaves keys in the index exactly if Meta fails one of its requests, or the queue's
      thread frees enough slots between two turns before the index is empty. */
  lemma {:induction false} PassStopsIff(sp: Space, low: real, grace: nat, env: nat -> Turn, i: nat)
    requires MetaIndex.Wf(sp.index)
    ensures PassSpec(sp, low, grace, env, i).index.lru != [] <==> Stops(sp, low, grace, env, i)
    decreases |sp.index.lru|
  {
    if sp.index.lru != [] {
      if Usage(sp.alloc) <= low {
        assert StopsAt(sp, low, grace, env, i, 0);
      } else if RemoveSucceeds(sp.link.connected, env(i).round.rpc) {
        TurnGoesOn(sp, grace, env(i));
        StopsNext(sp, low, grace, env, i);
        PassStopsIff(PassTurn(sp, grace, env(i)).0, low, grace, env, i + 1);
      } else {
        FailedTurn(sp, grace, env(i));
        assert StopsAt(sp, low, grace, env, i, 0);
      }
    }
  }

  lemma {:induction false} IdleTurns(sp: Space, grace: nat, env: nat -> Turn, i: nat, m: nat)
    requires MetaIndex.Wf(sp.index) && m * MAX_PER_PASS < |sp.index.lru|
    requires GraceNeverOver(sp.queue.entries, grace, env, i)
    requires forall j :: RemoveSucceeds(sp.link.connected, env(j).round.rpc)
    ensures Turned(sp, grace, env, i, m).alloc == sp.alloc
    decreases m
  {
    if m > 0 {
      IdleTurn(sp, grace, env, i);
      TurnGoesOn(sp, grace, env(i));
      assert (m - 1) * MAX_PER_PASS < |PassTurn(sp, grace, env(i)).0.index.lru|;
      IdleTurns(PassTurn(sp, grace, env(i)).0, grace, env, i + 1, m - 1);
    }
  }

  /** Evicting alone does not lower usage, since the slots stay in use while they wait. So a pass
      that starts above the low watermark, and meets no Meta failure and no tick late enough to free
      a slot, does not stop at the watermark: it evicts every key. */
  lemma PassEmptiesIndex(sp: Space, low: real, grace: nat, env: nat -> Turn, i: nat)
    requires MetaIndex.Wf(sp.index) && Usage(sp.alloc) > low
    requires GraceNeverOver(sp.queue.entries, grace, env, i)
    requires forall j :: RemoveSucceeds(sp.link.connected, env(j).round.rpc)
    ensures PassSpec(sp, low, grace, env, i).index.lru == []
    ensures PassSpec(sp, low, grace, env, i).alloc == sp.alloc
  {
    PassStopsIff(sp, low, grace, env, i);
    if m: nat :| StopsAt(sp, low, grace, env, i, m) { IdleTurns(sp, grace, env, i, m); }
    IdlePass(sp, low, grace, env, i);
  }

  lemma {:induction false} IdlePass(sp: Space, low: real, grace: nat, env: nat -> Turn, i: nat)
    requires MetaIndex.Wf(sp.index) && GraceNeverOver(sp.queue.entries, grace, env, i)
    requires forall j :: RemoveSucceeds(sp.link.connected, env(j).round.rpc)
    ensures PassSpec(sp, low, grace, env, i).alloc == sp.alloc
    decreases |sp.index.lru|
  {
    if Usage(sp.alloc) > low && sp.index.lru != [] {
      IdleTurn(sp, grace, env, i);
      IdlePass(PassTurn(sp, grace, env(i)).0, low, grace, env, i + 1);
    }
  }

  // ---------- the manager itself ----------

  class EvictManager {
    const storeId: nat
    const highWatermark: real
    const lowWatermark: real
    const metaIndex: StoreMetaIndex
    const metaSyncClient: MetaSyncClient
    const pendingQueue: PendingEvictQueue
    const allocator: SlotAllocator

    constructor (storeId: nat, highWatermark: real, lowWatermark: real, metaIndex: StoreMetaIndex,
                 metaSyncClient: MetaSyncClient, pendingQueue: PendingEvictQueue, allocator: SlotAllocator)
      ensures this.storeId == storeId && this.highWatermark == highWatermark && this.lowWatermark == lowWatermark
      ensures this.metaIndex == metaIndex && this.metaSyncClient == metaSyncClient
      ensures this.pendingQueue == pendingQueue && this.allocator == allocator
    {
      this.storeId, this.highWatermark, this.lowWatermark := storeId, highWatermark, lowWatermark;
      this.metaIndex, this.metaSyncClient := metaIndex, metaSyncClient;
      this.pendingQueue, this.allocator := pendingQueue, allocator;
    }

    ghost function View(): Space
      reads metaIndex, metaSyncClient, metaSyncClient.server, pendingQueue, allocator
    {
      Space(allocator.View(), metaIndex.View(), pendingQueue.View(), metaSyncClient.View())
    }

    ghost predicate Valid()
      reads metaIndex, metaIndex.nodes, metaSyncClient, metaSyncClient.server
    {
      metaIndex.Valid() && metaSyncClient.Valid() && pendingQueue.allocator == allocator
    }

    /** The candidates leave the index and their slots wait in the queue. */
    method EvictRecords(candidates: seq<Record>, now: nat)
      requires Valid()
      modifies metaIndex, metaIndex.nodes, pendingQueue`entries
      ensures Valid() && metaIndex.nodes == old(metaIndex.nodes)
      ensures View() == EvictAll(old(View()), candidates, now)
    {
      ghost var start := View();
      for i := 0 to |candidates|
        invariant Valid() && metaIndex.nodes == old(metaIndex.nodes)
        invariant View() == EvictAll(start, candidates[..i], now)
      {
        assert candidates[..i + 1][..i] == candidates[..i];
        EvictOne(candidates[i], now);
      }
      assert candidates[..|candidates|] == candidates;
    }

    method EvictOne(rec: Record, now: nat)
      requires Valid()
      modifies metaIndex, metaIndex.nodes, pendingQueue`entries
      ensures Valid() && metaIndex.nodes == old(metaIndex.nodes)
      ensures View() == EvictRecord(old(View()), rec, now)
    {
      var _ := metaIndex.Remove(rec.key);
      pendingQueue.Enqueue(rec.offset, rec.allocSize, now);
    }

    /** Meta first; on its failure nothing else happens. */
    method EvictEntries(candidates: seq<Record>, r: Round) returns (ok: bool)
      requires Valid()
      modifies metaIndex, metaIndex.nodes, pendingQueue`entries
      modifies metaSyncClient`connected, metaSyncClient`unannounced, metaSyncClient.server
      ensures Valid() && metaIndex.nodes == old(metaIndex.nodes)
      ensures if candidates == [] then !ok && View() == old(View())
              else (View(), ok) == EvictListed(old(View()), candidates, r)
    {
      if candidates == [] {
        return false;
      }
      var keys := seq(|candidates|, i requires 0 <= i < |candidates| => candidates[i].key);
      assert keys == KeysOf(candidates);
      var s := metaSyncClient.SyncRemove(storeId, keys, r.rpc);
      if s != Ok {
        return false;
      }
      EvictRecords(candidates, r.now);
      return true;
    }

    method TryEvictBatchLRU(r: Round) returns (ok: bool)
      requires Valid()
      modifies metaIndex, metaIndex.nodes, pendingQueue`entries
      modifies metaSyncClient`connected, metaSyncClient`unannounced, metaSyncClient.server
      ensures Valid() && metaIndex.nodes == old(metaIndex.nodes)
      ensures var n := Min(MAX_PER_PASS, |old(metaIndex.lru)|);
              if n == 0 then !ok && View() == old(View()) else (View(), ok) == EvictBatch(old(View()), n, r)
    {
      var candidates := metaIndex.GetLRUCandidates(MAX_PER_PASS);
      ColdestIsBatch(View(), |candidates|, r);
      ok := EvictEntries(candidates, r);
    }

    /** One turn of the loop of `ForceEvict`; `more` is false where the source breaks. */
    method ForceOnce(neededBytes: nat, total: nat, r: Round) returns (sum: nat, more: bool)
      requires Valid()
      modifies metaIndex, metaIndex.nodes, pendingQueue`entries
      modifies metaSyncClient`connected, metaSyncClient`unannounced, metaSyncClient.server
      ensures Valid() && metaIndex.nodes == old(metaIndex.nodes)
      ensures (View(), sum, more) == ForceRound(old(View()), neededBytes, total, r)
    {
      sum, more := total, false;
      if total < neededBytes {
        var candidates, bytes := PickVictims(neededBytes - total);
        if candidates != [] {
          sum, more := EvictVictims(candidates, bytes, total, r);
        }
      }
    }

    method EvictVictims(candidates: seq<Record>, bytes: nat, total: nat, r: Round) returns (sum: nat, more: bool)
      requires Valid() && 0 < |candidates| <= |metaIndex.lru|
      requires candidates == Coldest(metaIndex.View(), |candidates|)
      modifies metaIndex, metaIndex.nodes, pendingQueue`entries
      modifies metaSyncClient`connected, metaSyncClient`unannounced, metaSyncClient.server
      ensures Valid() && metaIndex.nodes == old(metaIndex.nodes)
      ensures (View(), sum, more) == RoundOutcome(old(View()), |candidates|, bytes, total, r)
    {
      ColdestIsBatch(View(), |candidates|, r);
      more := EvictEntries(candidates, r);
      sum := if more then (total + bytes) % U32 else total;
    }

    method PickVictims(neededBytes: nat) returns (candidates: seq<Record>, bytes: nat)
      requires Valid()
      ensures |candidates| <= |metaIndex.lru| && candidates == Coldest(metaIndex.View(), |candidates|)
      ensures (|candidates|, bytes) == Victims(metaIndex.View(), neededBytes)
    {
      candidates, bytes := metaIndex.GetLRUCandidatesBySize(neededBytes, MAX_PER_ROUND);
    }

    method ForceEvict(neededBytes: nat, rounds: seq<Round>) returns (totalEvicted: nat)
      requires Valid() && |rounds| == MAX_ROUNDS
      modifies metaIndex, metaIndex.nodes, pendingQueue`entries
      modifies metaSyncClient`connected, metaSyncClient`unannounced, metaSyncClient.server
      ensures Valid() && metaIndex.nodes == old(metaIndex.nodes)
      ensures (View(), totalEvicted) == ForceEvictSpec(old(View()), neededBytes, rounds)
    {
      totalEvicted := 0;
      var round, more := 0, true;
      ghost var start := View();
      while round < MAX_ROUNDS && more
        invariant Valid() && metaIndex.nodes == old(metaIndex.nodes) && round <= MAX_ROUNDS
        invariant ForceRounds(start, neededBytes, 0, rounds)
          == if more then ForceRounds(View(), neededBytes, totalEvicted, rounds[round..]) else (View(), totalEvicted)
        decreases MAX_ROUNDS - round
      {
        assert rounds[round..][0] == rounds[round] && rounds[round..][1..] == rounds[round + 1..];
        totalEvicted, more := ForceOnce(neededBytes, totalEvicted, rounds[round]);
        round := round + 1;
      }
    }

    /** One turn of the inner loop of `EvictLoop`, with what the queue's thread may do after it. */
    method PassOnce(turn: Turn, ghost rest: multiset<nat>) returns (more: bool)
      requires Valid() && Conserved(View(), rest)
      modifies metaIndex, metaIndex.nodes, pendingQueue`entries, allocator
      modifies metaSyncClient`connected, metaSyncClient`unannounced, metaSyncClient.server
      ensures Valid() && metaIndex.nodes == old(metaIndex.nodes)
      ensures (View(), more) == PassTurn(old(View()), pendingQueue.gracePeriodMs, turn)
    {
      EvictBatchConserves(View(), rest, Min(MAX_PER_PASS, |metaIndex.lru|), turn.round);
      more := TryEvictBatchLRU(turn.round);
      if more {
        QueueTurn(turn.tick, rest);
      }
    }

    method QueueTurn(tick: Option<nat>, ghost rest: multiset<nat>)
      requires Valid() && Conserved(View(), rest)
      modifies pendingQueue`entries, allocator
      ensures Valid()
      ensures View() == Ticked(old(View()), pendingQueue.gracePeriodMs, tick)
    {
      if tick.Some? {
        QueueInUse(View(), rest);
        pendingQueue.Tick(tick.value);
      }
    }

    /** The inner loop of `EvictLoop`. */
    method EvictPass(env: nat -> Turn, ghost rest: multiset<nat>)
      requires Valid() && Conserved(View(), rest)
      modifies metaIndex, metaIndex.nodes, pendingQueue`entries, allocator
      modifies metaSyncClient`connected, metaSyncClient`unannounced, metaSyncClient.server
      ensures Valid() && metaIndex.nodes == old(metaIndex.nodes)
      ensures View() == PassSpec(old(View()), lowWatermark, pendingQueue.gracePeriodMs, env, 0)
    {
      var i, more := 0, true;
      ghost var start, grace := View(), pendingQueue.gracePeriodMs;
      while more && allocator.GetUsageRatio() > lowWatermark
        invariant Valid() && metaIndex.nodes == old(metaIndex.nodes)
        invariant Conserved(View(), rest)
        invariant PassSpec(start, lowWatermark, grace, env, 0)
          == if more then PassSpec(View(), lowWatermark, grace, env, i) else View()
        decreases |metaIndex.lru|, more
      {
        PassTurnShrinks(View(), grace, env(i));
        PassTurnConserves(View(), rest, grace, env(i));
        more := PassOnce(env(i), rest);
        i := i + 1;
      }
    }
  }

  /** The next candidate is the coldest key left. */
  /** The coldest records, listed just now, are evicted one by one from the cold end. */
  lemma {:induction false} ColdestOneByOne(sp: Space, n: nat, now: nat)
    requires MetaIndex.Wf(sp.index) && n <= |sp.index.lru|
    ensures EvictAll(sp, Coldest(sp.index, n), now) == EvictN(sp, n, now)
  {
    if n > 0 {
      var m := n - 1;
      ColdestOneByOne(sp, m, now);
      EvictNShape(sp, m, now);
      NextCold(sp, m, now, EvictN(sp, m, now));
      assert Coldest(sp.index, n)[..m] == Coldest(sp.index, m);
    }
  }

  lemma ColdestIsBatch(sp: Space, n: nat, r: Round)
    requires MetaIndex.Wf(sp.index) && n <= |sp.index.lru|
    ensures EvictListed(sp, Coldest(sp.index, n), r) == EvictBatch(sp, n, r)
  {
    var l := SyncRemoveSpec(sp.link, KeysOf(Coldest(sp.index, n)), r.rpc).0;
    ColdestOneByOne(sp.(link := l), n, r.now);
  }
}
