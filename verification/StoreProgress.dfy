/** The reclaim ladder of `Put` and `BatchPut` always makes progress: when it ends in NoSpace,
    and what that means. */
module StoreProgress {
  import opened Base
  import opened SlotAllocation
  import opened PendingQueue
  import opened StoreSpace
  import opened Eviction
  import opened StoreOps

  ghost function WithSlot(rest: multiset<nat>, off: Option<nat>): multiset<nat> {
    if off.Some? then rest + multiset{off.value} else rest
  }

  /** A slot that was found is large enough, and a slot size once fixed stays. */
  predicate Fits(sp: Space, t: Space, size: nat, off: Option<nat>) {
    && (off.Some? ==> t.alloc.initialized && size <= t.alloc.slotSize)
    && (sp.alloc.initialized ==> SameGeometry(sp.alloc, t.alloc))
  }

  lemma AllocateConserves(sp: Space, rest: multiset<nat>, size: nat)
    requires Conserved(sp, rest) && size < U32
    ensures
      var (t, off) := Allocate(sp, size);
      && Conserved(t, WithSlot(rest, off)) && AllocTaken(sp.alloc, size, t.alloc, off)
      && (off.None? ==> t == sp) && Fits(sp, t, size, off)
  {
    AllocConserves(sp, rest, size);
    if AllocSpec(sp.alloc, size).1.None? { AllocFailsSame(sp.alloc, size); }
  }

  /** A failed allocation leaves the allocator as it was. */
  lemma AllocFailsSame(a: AllocState, size: nat)
    requires SlotAllocation.Wf(a) && size < U32 && AllocSpec(a, size).1.None?
    ensures AllocSpec(a, size).0 == a
  {
    if !a.initialized && size > 0 { LayoutWf(a, size, true); }
  }

  lemma Level1Conserves(sp: Space, rest: multiset<nat>, size: nat, grace: nat, env: Ladder)
    requires Conserved(sp, rest) && size < U32
    ensures var (t, off) := Level1(sp, size, grace, env); Conserved(t, WithSlot(rest, off)) && Fits(sp, t, size, off)
  {
    FlushExpiredConserves(sp, rest, grace, env.flush1);
    AllocateConserves(FlushExpiredSpec(sp, grace, env.flush1), rest, size);
  }

  lemma Level2Conserves(sp: Space, rest: multiset<nat>, size: nat, grace: nat, env: Ladder)
    requires Conserved(sp, rest) && size < U32
    ensures var (t, off) := Level2(sp, size, grace, env); Conserved(t, WithSlot(rest, off)) && Fits(sp, t, size, off)
  {
    ForceRoundsConserves(sp, rest, EvictTarget(sp.alloc, size), 0, env.rounds);
    var t := ForceEvictSpec(sp, EvictTarget(sp.alloc, size), env.rounds).0;
    FlushExpiredConserves(t, rest, grace, env.flush2);
    AllocateConserves(FlushExpiredSpec(t, grace, env.flush2), rest, size);
  }

  lemma Level3Conserves(sp: Space, rest: multiset<nat>, size: nat)
    requires Conserved(sp, rest) && size < U32
    ensures var (t, off) := Level3(sp, size); Conserved(t, WithSlot(rest, off)) && Fits(sp, t, size, off)
  {
    FlushAllConserves(sp, rest);
    AllocateConserves(FlushAllSpec(sp), rest, size);
  }

  /** The slot the ladder finds was nobody's; every other slot keeps its holder. */
  lemma LadderConserves(sp: Space, rest: multiset<nat>, size: nat, grace: nat, env: Ladder)
    requires Conserved(sp, rest) && size < U32
    ensures
      var (t, off) := LadderSpec(sp, size, grace, env);
      Conserved(t, WithSlot(rest, off)) && Fits(sp, t, size, off)
  {
    Level1Conserves(sp, rest, size, grace, env);
    var r1 := Level1(sp, size, grace, env);
    if r1.1.None? {
      Level2Conserves(r1.0, rest, size, grace, env);
      var r2 := Level2(r1.0, size, grace, env);
      if r2.1.None? { Level3Conserves(r2.0, rest, size); }
    }
  }

  lemma PlaceConserves(sp: Space, rest: multiset<nat>, size: nat, grace: nat, env: Ladder)
    requires Conserved(sp, rest) && size < U32
    ensures var (t, off) := PlaceSpec(sp, size, grace, env); Conserved(t, WithSlot(rest, off)) && Fits(sp, t, size, off)
  {
    AllocateConserves(sp, rest, size);
    var r := Allocate(sp, size);
    if r.1.None? { LadderConserves(r.0, rest, size, grace, env); }
  }

  // ---------- when a level succeeds ----------

  /** With an admissible size a level succeeds as soon as its flush frees a slot, or one was
      free. */
  lemma AllocateSucceedsIff(sp: Space, size: nat)
    requires SlotAllocation.Wf(sp.alloc) && size < U32
    ensures Allocate(sp, size).1.Some? <==> Admissible(sp.alloc, size) && !Full(sp.alloc)
  {
    AllocCorrect(sp.alloc, size);
  }

  lemma Level1Outcome(sp: Space, rest: multiset<nat>, size: nat, grace: nat, env: Ladder)
    requires Conserved(sp, rest) && size < U32 && Admissible(sp.alloc, size) && Full(sp.alloc)
    ensures
      var (t, off) := Level1(sp, size, grace, env);
      off.None? ==> t == sp
  {
    var f := FlushExpiredSpec(sp, grace, env.flush1);
    FlushExpiredConserves(sp, rest, grace, env.flush1);
    AllocateConserves(f, rest, size);
    AllocateSucceedsIff(f, size);
    if Level1(sp, size, grace, env).1.None? {
      assert Due(sp.queue.entries, grace, env.flush1) == [];
      CompactionMembers(sp.queue.entries, grace, env.flush1);
      NothingDue(sp.queue.entries, grace, env.flush1);
      assert FreeAll(sp.alloc, OffsetsOf([])) == sp.alloc;
    }
  }

  /** The two last levels fail exactly when nothing waits in the queue and forced eviction could
      queue nothing. */
  lemma Levels23Outcome(sp: Space, rest: multiset<nat>, size: nat, grace: nat, env: Ladder)
    requires Conserved(sp, rest) && size < U32 && Admissible(sp.alloc, size) && Full(sp.alloc)
    ensures
      var r2 := Level2(sp, size, grace, env);
      r2.1.None? && Level3(r2.0, size).1.None?
      <==> sp.queue.entries == [] && !CanEvict(sp, size, env)
  {
    var target := EvictTarget(sp.alloc, size);
    var t := ForceEvictSpec(sp, target, env.rounds).0;
    ForceRoundsConserves(sp, rest, target, 0, env.rounds);
    ForceEvictQueues(sp, target, env.rounds);
    var f := FlushExpiredSpec(t, grace, env.flush2);
    FlushExpiredConserves(t, rest, grace, env.flush2);
    AllocateSucceedsIff(f, size);
    AllocateConserves(f, rest, size);
    if Level2(sp, size, grace, env).1.None? {
      CompactionMembers(t.queue.entries, grace, env.flush2);
      NothingDue(t.queue.entries, grace, env.flush2);
      FlushAllConserves(f, rest);
      AllocateSucceedsIff(FlushAllSpec(f), size);
    }
  }

  /** Is there a key to evict, a reason to, and does Meta hear of it? */
  predicate CanEvict(sp: Space, size: nat, env: Ladder) {
    sp.index.lru != [] && EvictTarget(sp.alloc, size) > 0 && RemoveSucceeds(sp.link.connected, env.rounds[0].rpc)
  }

  /** The ladder finds no slot exactly when the size is inadmissible, or every slot is taken,
      none of them waits in the queue, and nothing can be evicted. */
  lemma LadderFailsIff(sp: Space, rest: multiset<nat>, size: nat, grace: nat, env: Ladder)
    requires Conserved(sp, rest) && size < U32
    ensures LadderSpec(sp, size, grace, env).1.None? <==> NoSlot(sp, size, env)
  {
    if !Admissible(sp.alloc, size) {
      InadmissibleFails(sp, rest, size, grace, env);
    } else if Full(sp.alloc) {
      Level1Outcome(sp, rest, size, grace, env);
      Levels23Outcome(sp, rest, size, grace, env);
      if sp.queue.entries == [] { assert OffsetsOf([]) == []; }
    } else {
      FlushExpiredConserves(sp, rest, grace, env.flush1);
      AllocateSucceedsIff(FlushExpiredSpec(sp, grace, env.flush1), size);
      if !sp.alloc.initialized {
        UninitialisedIsEmpty(sp, rest);
        assert OffsetsOf([]) == [];
      }
    }
  }

  predicate NoSlot(sp: Space, size: nat, env: Ladder) {
    !Admissible(sp.alloc, size) || (Full(sp.alloc) && sp.queue.entries == [] && !CanEvict(sp, size, env))
  }

  /** The same for `Put`, which first tries without the ladder. */
  lemma PlaceFailsIff(sp: Space, rest: multiset<nat>, size: nat, grace: nat, env: Ladder)
    requires Conserved(sp, rest) && size < U32
    ensures PlaceSpec(sp, size, grace, env).1.None? <==> NoSlot(sp, size, env)
  {
    AllocateConserves(sp, rest, size);
    AllocateSucceedsIff(sp, size);
    LadderFailsIff(sp, rest, size, grace, env);
  }

  /** An inadmissible size stays inadmissible down the ladder. */
  lemma InadmissibleFails(sp: Space, rest: multiset<nat>, size: nat, grace: nat, env: Ladder)
    requires Conserved(sp, rest) && size < U32 && !Admissible(sp.alloc, size)
    ensures LadderSpec(sp, size, grace, env).1.None?
  {
    var f1 := FlushExpiredSpec(sp, grace, env.flush1);
    FlushExpiredConserves(sp, rest, grace, env.flush1);
    AllocateConserves(f1, rest, size);
    var t := ForceEvictSpec(f1, EvictTarget(f1.alloc, size), env.rounds).0;
    ForceRoundsConserves(f1, rest, EvictTarget(f1.alloc, size), 0, env.rounds);
    var f2 := FlushExpiredSpec(t, grace, env.flush2);
    FlushExpiredConserves(t, rest, grace, env.flush2);
    AllocateConserves(f2, rest, size);
    FlushAllConserves(f2, rest);
    AllocateConserves(FlushAllSpec(f2), rest, size);
  }

  /** With an admissible non-zero size and a Meta that answers (or is not connected), a slot is
      always found unless the operation under way and earlier leaks hold all of them; with none
      of either, `Put` never runs out of space. */
  lemma PutNeverNoSpace(sp: Space, rest: multiset<nat>, size: nat, grace: nat, env: Ladder)
    requires Conserved(sp, rest) && 0 < size < U32 && Admissible(sp.alloc, size)
    requires RemoveSucceeds(sp.link.connected, env.rounds[0].rpc)
    requires rest == multiset{} || |rest| < sp.alloc.totalSlots
    ensures PlaceSpec(sp, size, grace, env).1.Some?
  {
    PlaceFailsIff(sp, rest, size, grace, env);
    UsedIsHeld(sp, rest);
  }

  /** In a batch: when a slot cannot be found although Meta answers, the operation itself and
      what was leaked before hold every slot of the store. */
  lemma NoSpaceMeansAllHeld(sp: Space, rest: multiset<nat>, size: nat, grace: nat, env: Ladder)
    requires Conserved(sp, rest) && 0 < size < U32 && Admissible(sp.alloc, size)
    requires RemoveSucceeds(sp.link.connected, env.rounds[0].rpc)
    requires LadderSpec(sp, size, grace, env).1.None?
    ensures |rest| == sp.alloc.totalSlots && sp.index.lru == [] && sp.queue.entries == []
  {
    LadderFailsIff(sp, rest, size, grace, env);
    UsedIsHeld(sp, rest);
  }
}
