/** Candidates listed earlier (src/store/evict_manager.cpp, `EvictEntries`). Listing the coldest records and
    evicting them are two steps, each locked by itself, and nothing checks in between that a
    candidate is still indexed. */
module StaleCandidates {
  import opened Base
  import opened SlotAllocation
  import opened MetaIndex
  import opened PendingQueue
  import opened StoreSpace
  import opened Eviction

  /** Is the candidate's key still indexed at the slot it was listed with? */
  predicate StillListed(s: IndexState, c: Record) { c.key in s.recs && s.recs[c.key].offset == c.offset }

  /** Does the ledger balance after each candidate? */
  ghost predicate Balanced(sp: Space, rest: multiset<nat>, cs: seq<Record>, now: nat)
    decreases |cs|
  {
    cs == [] || (Balanced(sp, rest, cs[..|cs| - 1], now) && Conserved(EvictAll(sp, cs, now), rest))
  }

  // ---------- one candidate ----------

  lemma QueuedOnTop(sp: Space, c: Record, now: nat)
    ensures OffsetsOf(EvictRecord(sp, c, now).queue.entries) == OffsetsOf(sp.queue.entries) + [c.offset]
  {
    OffsetsAppend(sp.queue.entries, EntryOf(c, now));
  }

  /** A candidate no longer indexed is queued beside whoever holds its slot. */
  lemma GoneUnbalances(sp: Space, rest: multiset<nat>, c: Record, now: nat)
    requires Conserved(sp, rest) && c.key !in sp.index.recs
    ensures !Ledger(EvictRecord(sp, c, now), rest)
  {
    QueuedOnTop(sp, c, now);
    WithoutAbsent(sp.index.lru, c.key);
    assert sp.index.recs - {c.key} == sp.index.recs;
    var held := KeyOffsets(sp.index.recs, sp.index.lru) + multiset(OffsetsOf(sp.queue.entries)) + rest;
    assert (held + multiset{c.offset})[c.offset] == held[c.offset] + 1;
  }

  /** One indexed elsewhere by now gives back its old slot, and its new one is lost. */
  lemma MovedUnbalances(sp: Space, rest: multiset<nat>, c: Record, now: nat)
    requires Conserved(sp, rest) && c.key in sp.index.recs && sp.index.recs[c.key].offset != c.offset
    ensures !Ledger(EvictRecord(sp, c, now), rest)
  {
    var (recs, lru, off) := (sp.index.recs, sp.index.lru, sp.index.recs[c.key].offset);
    QueuedOnTop(sp, c, now);
    WithoutNoDup(lru, c.key);
    KeyOffsetsWithout(recs, lru, c.key);
    KeyOffsetsFrame(recs, recs - {c.key}, Without(lru, c.key));
    var others := KeyOffsets(recs, Without(lru, c.key)) + multiset(OffsetsOf(sp.queue.entries)) + rest;
    var t := EvictRecord(sp, c, now);
    assert KeyOffsets(t.index.recs, t.index.lru) + multiset(OffsetsOf(t.queue.entries)) + rest
           == others + multiset{c.offset};
    assert multiset(InUse(sp.alloc)) == others + multiset{off};
    assert (others + multiset{off})[off] == (others + multiset{c.offset})[off] + 1;
  }

  /** A candidate of the store's slot size keeps the ledger balanced exactly if it is still listed. */
  lemma EvictRecordIff(sp: Space, rest: multiset<nat>, c: Record, now: nat)
    requires Conserved(sp, rest) && c.allocSize == sp.alloc.slotSize
    ensures Conserved(EvictRecord(sp, c, now), rest) <==> StillListed(sp.index, c)
  {
    if c.key !in sp.index.recs {
      GoneUnbalances(sp, rest, c, now);
    } else if sp.index.recs[c.key].offset != c.offset {
      MovedUnbalances(sp, rest, c, now);
    } else {
      RemoveConserves(sp, rest, c.key, now);
      assert EvictRecord(sp, c, now) == Evicted(sp, c.key, now);
    }
  }

  // ---------- a list of candidates ----------

  lemma {:induction false} EvictAllLeaves(sp: Space, cs: seq<Record>, now: nat)
    ensures
      var t := EvictAll(sp, cs, now);
      && t.alloc == sp.alloc
      && (forall k :: k in t.index.recs <==> k in sp.index.recs && k !in KeysOf(cs))
      && (forall k :: k in t.index.recs ==> t.index.recs[k] == sp.index.recs[k])
    decreases |cs|
  {
    if cs != [] {
      EvictAllLeaves(sp, cs[..|cs| - 1], now);
      KeysSnoc(cs);
    }
  }

  lemma KeysSnoc(cs: seq<Record>)
    requires cs != []
    ensures KeysOf(cs) == KeysOf(cs[..|cs| - 1]) + [cs[|cs| - 1].key]
    ensures NoDup(KeysOf(cs)) <==> NoDup(KeysOf(cs[..|cs| - 1])) && cs[|cs| - 1].key !in KeysOf(cs[..|cs| - 1])
  {
    var front, last := KeysOf(cs[..|cs| - 1]), cs[|cs| - 1].key;
    assert KeysOf(cs) == front + [last];
    if NoDup(front) && last !in front { NoDupAppend(front, last); }
    if NoDup(front + [last]) {
      NoDupTake(front + [last], |front|);
      assert (front + [last])[..|front|] == front && (front + [last])[|front|..] == [last];
    }
  }

  /** Evicting a list made earlier keeps the ledger balanced all the way exactly if its keys are distinct
      and each is still indexed where it was. */
  lemma {:induction false} BalancedIff(sp: Space, rest: multiset<nat>, cs: seq<Record>, now: nat)
    requires Conserved(sp, rest) && forall c :: c in cs ==> c.allocSize == sp.alloc.slotSize
    ensures Balanced(sp, rest, cs, now) <==> NoDup(KeysOf(cs)) && forall c :: c in cs ==> StillListed(sp.index, c)
    decreases |cs|
  {
    if cs != [] {
      var front, last := cs[..|cs| - 1], cs[|cs| - 1];
      assert cs == front + [last];
      BalancedIff(sp, rest, front, now);
      KeysSnoc(cs);
      if Balanced(sp, rest, front, now) {
        BalancedEnd(sp, rest, front, now);
        EvictAllLeaves(sp, front, now);
        EvictRecordIff(EvictAll(sp, front, now), rest, last, now);
      }
    }
  }

  lemma BalancedEnd(sp: Space, rest: multiset<nat>, cs: seq<Record>, now: nat)
    requires Conserved(sp, rest) && Balanced(sp, rest, cs, now)
    ensures Conserved(EvictAll(sp, cs, now), rest)
  {
  }

  // ---------- two evictors ----------

  lemma ColdestAreListed(sp: Space, rest: multiset<nat>, m: nat)
    requires Conserved(sp, rest) && m <= |sp.index.lru|
    ensures
      var cs := Coldest(sp.index, m);
      && NoDup(KeysOf(cs)) && forall c :: c in cs ==> StillListed(sp.index, c) && c.allocSize == sp.alloc.slotSize
  {
    var (cs, lru) := (Coldest(sp.index, m), sp.index.lru);
    forall i, j | 0 <= i < j < |cs| ensures KeysOf(cs)[i] != KeysOf(cs)[j] {
      assert lru[|lru| - 1 - i] in lru && lru[|lru| - 1 - j] in lru;
      NoDupAt(lru, |lru| - 1 - j, |lru| - 1 - i);
    }
    NoDupFromIndices(KeysOf(cs));
    forall c | c in cs ensures StillListed(sp.index, c) && c.allocSize == sp.alloc.slotSize {
      var i :| 0 <= i < |cs| && cs[i] == c;
      assert lru[|lru| - 1 - i] in lru;
    }
  }

  /** Two evictors list their victims from the same index, `n` and `m` of the coldest, and then evict
      them one after the other: the ledger survives the second exactly if one of the lists is empty. */
  lemma TwoEvictorsIff(sp: Space, rest: multiset<nat>, n: nat, m: nat, now: nat, later: nat)
    requires Conserved(sp, rest) && n <= |sp.index.lru| && m <= |sp.index.lru|
    ensures Conserved(EvictN(sp, n, now), rest)
    ensures Balanced(EvictN(sp, n, now), rest, Coldest(sp.index, m), later) <==> n == 0 || m == 0
  {
    EvictNConserves(sp, rest, n, now);
    EvictNShape(sp, n, now);
    ColdestAreListed(sp, rest, m);
    var t, cs := EvictN(sp, n, now), Coldest(sp.index, m);
    BalancedIff(t, rest, cs, later);
    if n > 0 && m > 0 {
      ColdestIsGone(sp, n, now);
      assert cs[0] in cs;
    }
  }

  lemma ColdestIsGone(sp: Space, n: nat, now: nat)
    requires MetaIndex.Wf(sp.index) && 0 < n <= |sp.index.lru|
    ensures !StillListed(EvictN(sp, n, now).index, Coldest(sp.index, 1)[0])
  {
    EvictNShape(sp, n, now);
    var lru := sp.index.lru;
    assert lru[|lru| - 1] in lru;
    assert lru[|lru| - n..][n - 1] == lru[|lru| - 1];
  }

  /** What comes of it: a victim of both is queued twice and freed twice, and the next two puts are given
      its slot. */
  lemma ListedTwiceAliases(sp: Space, rest: multiset<nat>, k: Key, now: nat, later: nat, size: nat)
    requires Conserved(sp, rest) && sp.queue.entries == [] && k in sp.index.recs && Admissible(sp.alloc, size)
    ensures
      var c := sp.index.recs[k];
      var t := FlushAllSpec(EvictRecord(EvictRecord(sp, c, now), c, later));
      var (a, one) := AllocSpec(t.alloc, size);
      AllocSpec(a, size).1 == one == Some(c.offset)
  {
    var off := sp.index.recs[k].offset;
    IndexedSlot(sp, rest, k);
    var u := EvictRecord(EvictRecord(sp, sp.index.recs[k], now), sp.index.recs[k], later);
    assert OffsetsOf(u.queue.entries) == [off, off];
    FreedTwice(sp.alloc, off);
    DoubleFreeAliases(sp.alloc, off, size);
  }

  lemma FreedTwice(a: AllocState, off: nat)
    ensures FreeAll(a, [off, off]) == FreeSpec(FreeSpec(a, off), off)
  {
    assert [off, off][1..] == [off] && [off][1..] == [];
    assert FreeAll(FreeSpec(a, off), [off]) == FreeAll(FreeSpec(FreeSpec(a, off), off), []);
  }
}
