/** Deferred frees (src/store/pending_evict_queue.cpp): an evicted slot waits out a grace period
    before it goes back to the allocator. The evicted key is carried along in the source but
    never read back, so entries here have none. */
module PendingQueue {
  import opened Base
  import opened SlotAllocation

  datatype Entry = Entry(offset: nat, allocSize: nat, enqueuedAt: nat)

  /** The waiting entries, and how often `FlushAllForced` has ignored the grace period. */
  datatype QueueState = QueueState(entries: seq<Entry>, forced: nat)

  const EMPTY_QUEUE := QueueState([], 0)

  /** `now - enqueuedAt` in unsigned 64-bit arithmetic. */
  predicate Expired(e: Entry, grace: nat, now: nat) {
    (now - e.enqueuedAt) % U64 >= grace
  }

  // ---------- specification ----------

  function Kept(es: seq<Entry>, grace: nat, now: nat): seq<Entry>
    decreases |es|
  {
    if es == [] then []
    else
      var k := Kept(es[..|es| - 1], grace, now);
      if Expired(es[|es| - 1], grace, now) then k else k + [es[|es| - 1]]
  }

  function Due(es: seq<Entry>, grace: nat, now: nat): seq<Entry>
    decreases |es|
  {
    if es == [] then []
    else
      var d := Due(es[..|es| - 1], grace, now);
      if Expired(es[|es| - 1], grace, now) then d + [es[|es| - 1]] else d
  }

  function OffsetsOf(es: seq<Entry>): seq<nat> {
    seq(|es|, i requires 0 <= i < |es| => es[i].offset)
  }

  function BytesOf(es: seq<Entry>): nat
    decreases |es|
  {
    if es == [] then 0 else BytesOf(es[..|es| - 1]) + es[|es| - 1].allocSize
  }

  /** Compaction splits the entries: none is lost, none is duplicated. */
  lemma {:induction false} CompactionSplits(es: seq<Entry>, grace: nat, now: nat)
    ensures multiset(OffsetsOf(es))
      == multiset(OffsetsOf(Kept(es, grace, now))) + multiset(OffsetsOf(Due(es, grace, now)))
    decreases |es|
  {
    if es != [] {
      var init, last := es[..|es| - 1], es[|es| - 1];
      CompactionSplits(init, grace, now);
      OffsetsAppend(init, last);
      assert init + [last] == es;
      OffsetsAppend(Kept(init, grace, now), last);
      OffsetsAppend(Due(init, grace, now), last);
    }
  }

  lemma OffsetsAppend(es: seq<Entry>, e: Entry)
    ensures OffsetsOf(es + [e]) == OffsetsOf(es) + [e.offset]
    ensures multiset(OffsetsOf(es + [e])) == multiset(OffsetsOf(es)) + multiset{e.offset}
  {
    assert OffsetsOf(es + [e]) == OffsetsOf(es) + [e.offset];
  }

  lemma {:induction false} CompactionMembers(es: seq<Entry>, grace: nat, now: nat)
    ensures forall e :: e in Kept(es, grace, now) <==> e in es && !Expired(e, grace, now)
    ensures forall e :: e in Due(es, grace, now) <==> e in es && Expired(e, grace, now)
    decreases |es|
  {
    if es != [] {
      CompactionMembers(es[..|es| - 1], grace, now);
      assert es == es[..|es| - 1] + [es[|es| - 1]];
    }
  }

  /** A flush at `now` keeps exactly the entries that have waited less than the grace period. */
  lemma WaitedOut(es: seq<Entry>, grace: nat, now: nat)
    requires now < U64 && forall e :: e in es ==> e.enqueuedAt <= now
    ensures forall e :: e in Kept(es, grace, now) <==> e in es && now < e.enqueuedAt + grace
    ensures forall e :: e in Due(es, grace, now) <==> e in es && now >= e.enqueuedAt + grace
  {
    CompactionMembers(es, grace, now);
    forall e | e in es ensures Expired(e, grace, now) <==> now >= e.enqueuedAt + grace {
      SmallModulo(now - e.enqueuedAt);
    }
  }

  /** If the wall clock was set back meanwhile the difference wraps, and the wait is over at once, but for
      grace periods of nearly 2^64 milliseconds. */
  lemma SetBackClock(e: Entry, grace: nat, now: nat)
    requires now < e.enqueuedAt < U64
    ensures Expired(e, grace, now) <==> grace + (e.enqueuedAt - now) <= U64
  {
    SmallModulo(U64 - (e.enqueuedAt - now));
    assert (now - e.enqueuedAt) % U64 == (now - e.enqueuedAt + U64) % U64;
  }

  lemma SmallModulo(x: nat)
    requires x < U64
    ensures x % U64 == x
  {
  }

  /** Entries of one slot size reclaim as many slots as there are. */
  lemma {:induction false} BytesOfSlots(es: seq<Entry>, slot: nat)
    requires forall e :: e in es ==> e.allocSize == slot
    ensures BytesOf(es) == |es| * slot
    decreases |es|
  {
    if es != [] {
      BytesOfSlots(es[..|es| - 1], slot);
      assert es[|es| - 1] in es && |es| * slot == (|es| - 1) * slot + slot;
    }
  }

  lemma {:induction false} NothingDue(es: seq<Entry>, grace: nat, now: nat)
    requires forall e :: e in es ==> !Expired(e, grace, now)
    ensures Kept(es, grace, now) == es && Due(es, grace, now) == []
    decreases |es|
  {
    if es != [] {
      NothingDue(es[..|es| - 1], grace, now);
      assert es == es[..|es| - 1] + [es[|es| - 1]];
    }
  }

  // ---------- the queue itself ----------

  class PendingEvictQueue {
    const gracePeriodMs: nat
    const allocator: SlotAllocator
    var entries: seq<Entry>
    ghost var forced: nat

    ghost function View(): QueueState
      reads this
    {
      QueueState(entries, forced)
    }

    /** Every waiting slot is in use, once. */
    ghost predicate Valid()
      reads this, allocator
    {
      Wf(allocator.View()) && AllInUse(allocator.View(), OffsetsOf(entries))
    }

    constructor (gracePeriodMs: nat, allocator: SlotAllocator)
      ensures this.gracePeriodMs == gracePeriodMs && this.allocator == allocator && View() == EMPTY_QUEUE
    {
      this.gracePeriodMs, this.allocator, entries, forced := gracePeriodMs, allocator, [], 0;
    }

    method Enqueue(offset: nat, allocSize: nat, now: nat)
      modifies `entries
      ensures entries == old(entries) + [Entry(offset, allocSize, now)]
    {
      entries := entries + [Entry(offset, allocSize, now)];
    }

    /** The compaction loop: expired entries move out, the others slide down in place. */
    method Compact(now: nat) returns (toFree: seq<Entry>)
      modifies `entries
      ensures entries == Kept(old(entries), gracePeriodMs, now)
      ensures toFree == Due(old(entries), gracePeriodMs, now)
    {
      toFree := [];
      var keepFrom := 0;
      ghost var es := entries;
      for i := 0 to |entries|
        invariant |entries| == |es| && keepFrom <= i && entries[i..] == es[i..]
        invariant entries[..keepFrom] == Kept(es[..i], gracePeriodMs, now)
        invariant toFree == Due(es[..i], gracePeriodMs, now)
      {
        assert es[..i + 1][..i] == es[..i] && entries[i] == entries[i..][0] == es[i];
        if Expired(entries[i], gracePeriodMs, now) {
          toFree := toFree + [entries[i]];
        } else {
          entries := entries[keepFrom := entries[i]];
          keepFrom := keepFrom + 1;
        }
      }
      assert es[..|es|] == es;
      entries := entries[..keepFrom];
    }

    /** Frees a list of entries that are all in use. */
    method FreeEntries(es: seq<Entry>) returns (reclaimed: nat)
      requires Wf(allocator.View()) && AllInUse(allocator.View(), OffsetsOf(es))
      modifies allocator
      ensures allocator.View() == FreeAll(old(allocator.View()), OffsetsOf(es))
      ensures reclaimed == BytesOf(es)
    {
      reclaimed := 0;
      ghost var offs := OffsetsOf(es);
      ghost var start := allocator.View();
      assert offs[0..] == offs;
      for i := 0 to |es|
        invariant Wf(allocator.View()) && AllInUse(allocator.View(), offs[i..])
        invariant FreeAll(start, offs) == FreeAll(allocator.View(), offs[i..])
        invariant reclaimed == BytesOf(es[..i])
      {
        FreeEntryNext(allocator.View(), offs, i);
        assert es[..i + 1][..i] == es[..i];
        allocator.Free(es[i].offset, es[i].allocSize);
        reclaimed := reclaimed + es[i].allocSize;
      }
      assert es[..|es|] == es;
    }

    method FlushExpired(now: nat) returns (reclaimed: nat)
      requires Valid()
      modifies `entries, allocator
      ensures entries == Kept(old(entries), gracePeriodMs, now)
      ensures allocator.View() == FreeAll(old(allocator.View()), OffsetsOf(Due(old(entries), gracePeriodMs, now)))
      ensures reclaimed == BytesOf(Due(old(entries), gracePeriodMs, now))
      ensures now < U64 && (forall e :: e in old(entries) ==> e.enqueuedAt <= now) ==>
                forall e :: e in entries <==> e in old(entries) && now < e.enqueuedAt + gracePeriodMs
    {
      DueInUse(allocator.View(), entries, gracePeriodMs, now);
      ghost var es := entries;
      if now < U64 && forall e :: e in es ==> e.enqueuedAt <= now { WaitedOut(es, gracePeriodMs, now); }
      var toFree := Compact(now);
      reclaimed := FreeEntries(toFree);
    }

    /** One turn of the background loop. */
    method Tick(now: nat)
      requires Valid()
      modifies `entries, allocator
      ensures entries == Kept(old(entries), gracePeriodMs, now)
      ensures allocator.View() == FreeAll(old(allocator.View()), OffsetsOf(Due(old(entries), gracePeriodMs, now)))
      ensures now < U64 && (forall e :: e in old(entries) ==> e.enqueuedAt <= now) ==>
                forall e :: e in entries <==> e in old(entries) && now < e.enqueuedAt + gracePeriodMs
    {
      DueInUse(allocator.View(), entries, gracePeriodMs, now);
      ghost var es := entries;
      if now < U64 && forall e :: e in es ==> e.enqueuedAt <= now { WaitedOut(es, gracePeriodMs, now); }
      var toFree := Compact(now);
      var _ := FreeEntries(toFree);
    }

    /** `FlushAllForced`, and `FlushAll` when the queue stops. */
    method FlushAllForced() returns (reclaimed: nat)
      requires Valid()
      modifies `entries, `forced, allocator
      ensures entries == [] && forced == old(forced) + 1
      ensures allocator.View() == FreeAll(old(allocator.View()), OffsetsOf(old(entries)))
      ensures reclaimed == BytesOf(old(entries))
    {
      var remaining := entries;
      entries, forced := [], forced + 1;
      reclaimed := FreeEntries(remaining);
    }
  }

  lemma FreeEntryNext(a: AllocState, offs: seq<nat>, i: nat)
    requires Wf(a) && i < |offs| && AllInUse(a, offs[i..])
    ensures
      var b := FreeSpec(a, offs[i]);
      && offs[i] in InUse(a) && Wf(b) && AllInUse(b, offs[i + 1..])
      && FreeAll(a, offs[i..]) == FreeAll(b, offs[i + 1..])
  {
    assert offs[i..][1..] == offs[i + 1..] && offs[i..][0] == offs[i];
    FreeCorrect(a, offs[i]);
  }

  lemma DueInUse(a: AllocState, es: seq<Entry>, grace: nat, now: nat)
    requires AllInUse(a, OffsetsOf(es))
    ensures AllInUse(a, OffsetsOf(Due(es, grace, now)))
  {
    CompactionSplits(es, grace, now);
    NoDupMultiset(OffsetsOf(es));
    FitsInSet(OffsetsOf(Due(es, grace, now)), set x | x in OffsetsOf(es));
  }
}
