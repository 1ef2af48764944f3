/** The pieces of one store that own slots (the members of src/store/falconkv_store.h), and the
    law that ties them together: every slot in use is held exactly once, by a record of the
    index, by a waiting entry of the eviction queue, or by the operation under way. */
module StoreSpace {
  import opened Base
  import opened SlotAllocation
  import opened MetaIndex
  import opened PendingQueue
  import opened MetaLink

  datatype Space = Space(alloc: AllocState, index: IndexState, queue: QueueState, link: LinkState)

  /** The offsets of the records of `ks`. */
  ghost function KeyOffsets(recs: map<Key, Record>, ks: seq<Key>): multiset<nat> {
    if ks == [] then multiset{}
    else (if ks[0] in recs then multiset{recs[ks[0]].offset} else multiset{}) + KeyOffsets(recs, ks[1..])
  }

  ghost predicate AllCommitted(s: IndexState) {
    forall k :: k in s.recs ==> s.recs[k].stat == 1
  }

  /** `rest` are the offsets held by neither the index nor the queue. */
  ghost predicate Ledger(sp: Space, rest: multiset<nat>) {
    multiset(InUse(sp.alloc))
      == KeyOffsets(sp.index.recs, sp.index.lru) + multiset(OffsetsOf(sp.queue.entries)) + rest
  }

  ghost predicate SlotSized(sp: Space) {
    && (forall k :: k in sp.index.recs ==> sp.index.recs[k].allocSize == sp.alloc.slotSize)
    && (forall e :: e in sp.queue.entries ==> e.allocSize == sp.alloc.slotSize)
  }

  ghost predicate Conserved(sp: Space, rest: multiset<nat>) {
    && SlotAllocation.Wf(sp.alloc) && MetaIndex.Wf(sp.index) && AllCommitted(sp.index)
    && Ledger(sp, rest) && SlotSized(sp)
  }

  /** A new store holds nothing. */
  lemma EmptyConserved(totalBytes: nat, slotSize: nat, link: LinkState)
    requires slotSize < U32
    ensures Conserved(Space(Fresh(totalBytes, slotSize), EMPTY_INDEX, EMPTY_QUEUE, link), multiset{})
  {
    FreshWf(totalBytes, slotSize);
    assert OffsetsOf([]) == [];
  }

  // ---------- offsets of lists of keys ----------

  lemma {:induction false} KeyOffsetsWithout(recs: map<Key, Record>, ks: seq<Key>, k: Key)
    requires k in ks && k in recs
    ensures KeyOffsets(recs, ks) == multiset{recs[k].offset} + KeyOffsets(recs, Without(ks, k))
  {
    if ks[0] != k {
      KeyOffsetsWithout(recs, ks[1..], k);
      assert ([ks[0]] + Without(ks[1..], k))[1..] == Without(ks[1..], k);
    }
  }

  lemma {:induction false} KeyOffsetsFrame(r1: map<Key, Record>, r2: map<Key, Record>, ks: seq<Key>)
    requires forall k :: k in ks ==> k in r1 && k in r2 && r1[k].offset == r2[k].offset
    ensures KeyOffsets(r1, ks) == KeyOffsets(r2, ks)
  {
    if ks != [] { KeyOffsetsFrame(r1, r2, ks[1..]); }
  }

  lemma {:induction false} KeyOffsetsSize(recs: map<Key, Record>, ks: seq<Key>)
    requires forall k :: k in ks ==> k in recs
    ensures |KeyOffsets(recs, ks)| == |ks|
  {
    if ks != [] { KeyOffsetsSize(recs, ks[1..]); }
  }

  /** Two listed keys never share an offset that the ledger holds once. */
  lemma KeyOffsetHeld(recs: map<Key, Record>, ks: seq<Key>, k: Key)
    requires k in ks && k in recs
    ensures recs[k].offset in KeyOffsets(recs, ks)
  {
    KeyOffsetsWithout(recs, ks, k);
  }

  // ---------- consequences of the law ----------

  /** The slot count: used slots are the indexed, the pending and the rest. */
  lemma UsedIsHeld(sp: Space, rest: multiset<nat>)
    requires Conserved(sp, rest)
    ensures sp.alloc.usedSlots == |sp.index.lru| + |sp.queue.entries| + |rest|
  {
    KeyOffsetsSize(sp.index.recs, sp.index.lru);
    assert |multiset(InUse(sp.alloc))| == |InUse(sp.alloc)|;
    assert |multiset(OffsetsOf(sp.queue.entries))| == |OffsetsOf(sp.queue.entries)|;
  }

  /** What waits in the queue may be freed. */
  lemma QueueInUse(sp: Space, rest: multiset<nat>)
    requires Conserved(sp, rest)
    ensures AllInUse(sp.alloc, OffsetsOf(sp.queue.entries))
  {
    FitsInSet(OffsetsOf(sp.queue.entries), InUse(sp.alloc));
  }

  /** An indexed record's slot is in use, and held by nothing else. */
  lemma IndexedSlot(sp: Space, rest: multiset<nat>, k: Key)
    requires Conserved(sp, rest) && k in sp.index.recs
    ensures sp.index.recs[k].offset in InUse(sp.alloc)
    ensures sp.index.recs[k].offset !in rest && sp.index.recs[k].offset !in multiset(OffsetsOf(sp.queue.entries))
    ensures forall j :: j in sp.index.recs && j != k ==> sp.index.recs[j].offset != sp.index.recs[k].offset
  {
    var recs, lru := sp.index.recs, sp.index.lru;
    var off := recs[k].offset;
    KeyOffsetsWithout(recs, lru, k);
    var m := multiset(InUse(sp.alloc));
    assert m[off] <= 1 && off in m;
    forall j | j in recs && j != k ensures recs[j].offset != off {
      WithoutNoDup(lru, k);
      KeyOffsetHeld(recs, Without(lru, k), j);
    }
  }

  // ---------- every change of hands keeps the law ----------

  lemma AllocConserves(sp: Space, rest: multiset<nat>, size: nat)
    requires Conserved(sp, rest) && size < U32
    ensures
      var (a, off) := AllocSpec(sp.alloc, size);
      && AllocTaken(sp.alloc, size, a, off)
      && Conserved(sp.(alloc := a), if off.Some? then rest + multiset{off.value} else rest)
  {
    AllocCorrect(sp.alloc, size);
    UninitialisedIsEmpty(sp, rest);
    var off := AllocSpec(sp.alloc, size).1;
    if off.Some? { SetPlus(InUse(sp.alloc), off.value); }
  }

  lemma UninitialisedIsEmpty(sp: Space, rest: multiset<nat>)
    requires Conserved(sp, rest)
    ensures !sp.alloc.initialized ==>
              sp.index.recs == map[] && sp.index.lru == [] && sp.queue.entries == [] && rest == multiset{}
  {
    UsedIsHeld(sp, rest);
    assert forall k :: k in sp.index.recs ==> k in sp.index.lru;
  }

  lemma FreeConserves(sp: Space, rest: multiset<nat>, off: nat)
    requires Conserved(sp, rest) && off in rest
    ensures off in InUse(sp.alloc) && Conserved(sp.(alloc := FreeSpec(sp.alloc, off)), rest - multiset{off})
  {
    assert off in multiset(InUse(sp.alloc));
    FreeCorrect(sp.alloc, off);
    var left := InUse(sp.alloc) - {off};
    assert InUse(sp.alloc) == left + {off};
    SetPlus(left, off);
    var held := KeyOffsets(sp.index.recs, sp.index.lru) + multiset(OffsetsOf(sp.queue.entries));
    MultisetCancel(multiset(left), held + (rest - multiset{off}), multiset{off});
  }

  lemma TouchConserves(sp: Space, rest: multiset<nat>, k: Key, now: nat)
    requires Conserved(sp, rest)
    ensures Conserved(sp.(index := TouchSpec(sp.index, k, now)), rest)
  {
    TouchKeepsWf(sp.index, k, now);
    TouchedOffsets(sp.index, k, now);
  }

  lemma TouchedOffsets(s: IndexState, k: Key, now: nat)
    requires MetaIndex.Wf(s) && AllCommitted(s)
    ensures KeyOffsets(TouchSpec(s, k, now).recs, TouchSpec(s, k, now).lru) == KeyOffsets(s.recs, s.lru)
  {
    if Committed(s, k) {
      var r := s.recs[k].(accessTime := now);
      IndexedOffsets(s, k, r);
      assert TouchSpec(s, k, now) == PutSpec(s, k, r);
      MultisetCancel(KeyOffsets(PutSpec(s, k, r).recs, PutSpec(s, k, r).lru), KeyOffsets(s.recs, s.lru),
                     multiset{r.offset});
    }
  }

  /** Indexing a record moves its slot from the operation to the index; the slot of a record it
      overwrites is held by nothing any more. */
  lemma IndexConserves(sp: Space, rest: multiset<nat>, k: Key, r: Record)
    requires Conserved(sp, rest) && r.offset in rest && r.key == k && r.stat == 1 && r.allocSize == sp.alloc.slotSize
    ensures
      var lost := if k in sp.index.recs then multiset{sp.index.recs[k].offset} else multiset{};
      Conserved(sp.(index := PutSpec(sp.index, k, r)), rest - multiset{r.offset} + lost)
  {
    var t := PutSpec(sp.index, k, r);
    var lost := if k in sp.index.recs then multiset{sp.index.recs[k].offset} else multiset{};
    PutKeepsWf(sp.index, k, r);
    IndexedOffsets(sp.index, k, r);
    Rebalance(KeyOffsets(sp.index.recs, sp.index.lru), KeyOffsets(t.recs, t.lru),
              multiset(OffsetsOf(sp.queue.entries)), rest, r.offset, lost);
  }

  lemma Rebalance(before: multiset<nat>, after: multiset<nat>, queued: multiset<nat>, rest: multiset<nat>, off: nat,
                  lost: multiset<nat>)
    requires after + lost == before + multiset{off} && off in rest
    ensures before + queued + rest == after + queued + (rest - multiset{off} + lost)
  {
    assert before + queued + rest == before + multiset{off} + queued + (rest - multiset{off});
  }

  /** The offsets the index holds after a committed record is put. */
  lemma IndexedOffsets(s: IndexState, k: Key, r: Record)
    requires MetaIndex.Wf(s) && AllCommitted(s) && r.stat == 1
    ensures
      var t := PutSpec(s, k, r);
      var lost := if k in s.recs then multiset{s.recs[k].offset} else multiset{};
      KeyOffsets(t.recs, t.lru) + lost == KeyOffsets(s.recs, s.lru) + multiset{r.offset}
  {
    var t := PutSpec(s, k, r);
    WithoutNoDup(s.lru, k);
    if k in s.recs {
      KeyOffsetsWithout(s.recs, s.lru, k);
    } else {
      WithoutAbsent(s.lru, k);
    }
    KeyOffsetsFrame(s.recs, t.recs, Without(s.lru, k));
    assert t.lru[1..] == Without(s.lru, k);
  }

  /** Removing a key and queueing its slot. */
  lemma RemoveConserves(sp: Space, rest: multiset<nat>, k: Key, now: nat)
    requires Conserved(sp, rest) && k in sp.index.recs
    ensures Conserved(Evicted(sp, k, now), rest)
  {
    var t := RemoveSpec(sp.index, k);
    RemoveKeepsWf(sp.index, k);
    WithoutNoDup(sp.index.lru, k);
    KeyOffsetsWithout(sp.index.recs, sp.index.lru, k);
    KeyOffsetsFrame(sp.index.recs, t.recs, Without(sp.index.lru, k));
    OffsetsAppend(sp.queue.entries, EntryOf(sp.index.recs[k], now));
  }

  function EntryOf(r: Record, now: nat): Entry { Entry(r.offset, r.allocSize, now) }

  /** A key out of the index, its slot into the queue. */
  function Evicted(sp: Space, k: Key, now: nat): Space
    requires k in sp.index.recs
  {
    sp.(index := RemoveSpec(sp.index, k),
        queue := sp.queue.(entries := sp.queue.entries + [EntryOf(sp.index.recs[k], now)]))
  }

  ghost function FlushExpiredSpec(sp: Space, grace: nat, now: nat): Space {
    sp.(alloc := FreeAll(sp.alloc, OffsetsOf(Due(sp.queue.entries, grace, now))),
        queue := sp.queue.(entries := Kept(sp.queue.entries, grace, now)))
  }

  ghost function FlushAllSpec(sp: Space): Space {
    sp.(alloc := FreeAll(sp.alloc, OffsetsOf(sp.queue.entries)), queue := QueueState([], sp.queue.forced + 1))
  }

  lemma FlushExpiredConserves(sp: Space, rest: multiset<nat>, grace: nat, now: nat)
    requires Conserved(sp, rest)
    ensures Conserved(FlushExpiredSpec(sp, grace, now), rest)
    ensures SameGeometry(sp.alloc, FlushExpiredSpec(sp, grace, now).alloc)
    ensures FreeSlots(FlushExpiredSpec(sp, grace, now).alloc)
      == FreeSlots(sp.alloc) + |Due(sp.queue.entries, grace, now)|
  {
    var due := OffsetsOf(Due(sp.queue.entries, grace, now));
    QueueInUse(sp, rest);
    DueInUse(sp.alloc, sp.queue.entries, grace, now);
    FreeAllCorrect(sp.alloc, due);
    CompactionSplits(sp.queue.entries, grace, now);
    CompactionMembers(sp.queue.entries, grace, now);
    SetMinus(InUse(sp.alloc), due);
    var t := FlushExpiredSpec(sp, grace, now);
    var held := KeyOffsets(sp.index.recs, sp.index.lru) + multiset(OffsetsOf(t.queue.entries)) + rest;
    MultisetCancel(multiset(InUse(t.alloc)), held, multiset(due));
  }

  lemma FlushAllConserves(sp: Space, rest: multiset<nat>)
    requires Conserved(sp, rest)
    ensures Conserved(FlushAllSpec(sp), rest)
    ensures SameGeometry(sp.alloc, FlushAllSpec(sp).alloc)
    ensures FreeSlots(FlushAllSpec(sp).alloc) == FreeSlots(sp.alloc) + |sp.queue.entries|
  {
    var offs := OffsetsOf(sp.queue.entries);
    QueueInUse(sp, rest);
    FreeAllCorrect(sp.alloc, offs);
    SetMinus(InUse(sp.alloc), offs);
    assert OffsetsOf([]) == [];
    var held := KeyOffsets(sp.index.recs, sp.index.lru) + rest;
    MultisetCancel(multiset(InUse(FlushAllSpec(sp).alloc)), held, multiset(offs));
  }

  lemma SetMinus(m: set<nat>, s: seq<nat>)
    requires NoDup(s) && forall x :: x in s ==> x in m
    ensures multiset(m) == multiset(m - set x | x in s) + multiset(s)
  {
    NoDupMultiset(s);
  }
}
