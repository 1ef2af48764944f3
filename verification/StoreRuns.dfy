/** Whole runs of the store's steps. */
module StoreRuns {
  import opened Base
  import opened SlotAllocation
  import opened MetaIndex
  import opened PendingQueue
  import opened MetaLink
  import opened StoreSpace
  import opened Eviction
  import opened StoreOps
  import opened StoreProgress
  import opened StoreSteps

  /** `tr` can be taken from `w`, step by step; strictly, if every step is strict. */
  ghost predicate Runs(w: World, cfg: Config, tr: seq<Step>, strict: bool)
    decreases |tr|
  {
    tr == [] || (&& MetaIndex.Wf(w.space.index) && Enabled(w, cfg, tr[0]) && (strict ==> Strict(w, tr[0]))
                 && Runs(Do(w, cfg, tr[0]), cfg, tr[1..], strict))
  }

  ghost function Exec(w: World, cfg: Config, tr: seq<Step>): World
    requires Runs(w, cfg, tr, false)
    decreases |tr|
  {
    if tr == [] then w else Exec(Do(w, cfg, tr[0]), cfg, tr[1..])
  }

  lemma {:induction false} RunsThen(w: World, cfg: Config, a: seq<Step>, b: seq<Step>, strict: bool)
    requires Runs(w, cfg, a, false) && Runs(w, cfg, a, strict) && Runs(Exec(w, cfg, a), cfg, b, false)
    requires Runs(Exec(w, cfg, a), cfg, b, strict)
    ensures Runs(w, cfg, a + b, strict) && Runs(w, cfg, a + b, false)
    ensures Exec(w, cfg, a + b) == Exec(Exec(w, cfg, a), cfg, b)
    decreases |a|
  {
    if a == [] {
      assert a + b == b;
    } else {
      assert (a + b)[1..] == a[1..] + b;
      RunsThen(Do(w, cfg, a[0]), cfg, a[1..], b, strict);
    }
  }

  // ---------- what every run keeps ----------

  /** In every reachable state every slot in use has exactly one holder. */
  lemma {:induction false} RunKeepsOwned(w: World, cfg: Config, tr: seq<Step>)
    requires Owned(w) && Runs(w, cfg, tr, false)
    ensures Owned(Exec(w, cfg, tr))
    decreases |tr|
  {
    if tr != [] {
      StepKeepsOwned(w, cfg, tr[0]);
      RunKeepsOwned(Do(w, cfg, tr[0]), cfg, tr[1..]);
    }
  }

  /** In every state strictly reached the indexed bytes are the bytes put, and Meta agrees. */
  lemma {:induction false} RunKeepsContents(w: World, cfg: Config, tr: seq<Step>)
    requires Owned(w) && Contents(w) && MetaAgrees(w, cfg) && Runs(w, cfg, tr, true) && Runs(w, cfg, tr, false)
    ensures Contents(Exec(w, cfg, tr)) && MetaAgrees(Exec(w, cfg, tr), cfg)
    decreases |tr|
  {
    if tr != [] {
      StepKeepsOwned(w, cfg, tr[0]);
      StepKeepsContents(w, cfg, tr[0]);
      StepKeepsAgreement(w, cfg, tr[0]);
      RunKeepsContents(Do(w, cfg, tr[0]), cfg, tr[1..]);
    }
  }

  /** A strict run loses no slot: only overwriting a record does, and no strict step does. */
  lemma {:induction false} RunLeaksNothing(w: World, cfg: Config, tr: seq<Step>)
    requires Owned(w) && Runs(w, cfg, tr, true) && Runs(w, cfg, tr, false)
    ensures Exec(w, cfg, tr).leaked == w.leaked
    decreases |tr|
  {
    if tr != [] {
      StepKeepsOwned(w, cfg, tr[0]);
      StepLeaksNothing(w, cfg, tr[0]);
      RunLeaksNothing(Do(w, cfg, tr[0]), cfg, tr[1..]);
    }
  }

  lemma StepLeaksNothing(w: World, cfg: Config, s: Step)
    requires MetaIndex.Wf(w.space.index) && Enabled(w, cfg, s) && Strict(w, s)
    ensures Do(w, cfg, s).leaked == w.leaked
  {
    if s.IndexKey? { assert w.leaked + multiset{} == w.leaked; }
  }

  /** Meta is connected and no commit is queued whenever the run evicts or removes. */
  ghost predicate TellsMeta(w: World, cfg: Config, tr: seq<Step>)
    requires Runs(w, cfg, tr, false)
    decreases |tr|
  {
    tr == [] || (&& (tr[0].EvictCold? || tr[0].RemoveKey? ==> w.space.link.connected && w.space.link.queue == [])
                 && TellsMeta(Do(w, cfg, tr[0]), cfg, tr[1..]))
  }

  lemma {:induction false} ToldRuns(w: World, cfg: Config, tr: seq<Step>)
    requires Runs(w, cfg, tr, false) && TellsMeta(w, cfg, tr)
    ensures Exec(w, cfg, tr).space.link.unannounced == w.space.link.unannounced
    decreases |tr|
  {
    if tr != [] {
      OnlySkippedIsUnannounced(w, cfg, tr[0]);
      ToldRuns(Do(w, cfg, tr[0]), cfg, tr[1..]);
    }
  }

  /** Remove before free. In runs where no removal is skipped for disconnection and queued commits
      drain before the next eviction, whatever replies are lost, a slot named by a Meta record
      of this store is that key's indexed slot: it is not free, not waiting, and in nobody's
      hands, so it is not rewritten while Meta points at it. */
  lemma MetaNeverDanglesInRuns(w: World, cfg: Config, tr: seq<Step>, k: Key)
    requires Owned(w) && Contents(w) && MetaAgrees(w, cfg) && w.space.link.unannounced == {}
    requires Runs(w, cfg, tr, true) && Runs(w, cfg, tr, false) && TellsMeta(w, cfg, tr)
    requires var t := Exec(w, cfg, tr).space.link.table; k in t && t[k].storeId == cfg.storeId
    ensures
      var v := Exec(w, cfg, tr);
      var (off, size) := (v.space.link.table[k].offset, v.space.link.table[k].size);
      && Indexed(v, k, off, size) && off in InUse(v.space.alloc)
      && off !in OffsetsOf(v.space.queue.entries) && off !in v.inflight && off !in v.leaked
      && k in v.written && PRead(v.disk, off, size) == Some(v.written[k])
  {
    RunKeepsOwned(w, cfg, tr);
    RunKeepsContents(w, cfg, tr);
    ToldRuns(w, cfg, tr);
    MetaNeverDangles(Exec(w, cfg, tr), cfg, k);
    assert Holds(Exec(w, cfg, tr), k);
  }

  // ---------- the grace period ----------

  function TimeOf(s: Step): Option<nat> {
    match s
    case FlushDue(now) => Some(now)
    case EvictCold(_, round) => Some(round.now)
    case RemoveKey(_, _, now) => Some(now)
    case _ => None
  }

  /** The clock readings of `tr` never go back, from `lo` to `hi`. */
  predicate Timed(tr: seq<Step>, lo: nat, hi: nat)
    decreases |tr|
  {
    if tr == [] then lo <= hi
    else if TimeOf(tr[0]).None? then Timed(tr[1..], lo, hi)
    else lo <= TimeOf(tr[0]).value && Timed(tr[1..], TimeOf(tr[0]).value, hi)
  }

  lemma {:induction false} TimedOrder(tr: seq<Step>, lo: nat, hi: nat)
    requires Timed(tr, lo, hi)
    ensures lo <= hi
    decreases |tr|
  {
    if tr != [] { TimedOrder(tr[1..], if TimeOf(tr[0]).None? then lo else TimeOf(tr[0]).value, hi); }
  }

  lemma {:induction false} TimedThen(a: seq<Step>, b: seq<Step>, lo: nat, mid: nat, hi: nat)
    requires Timed(a, lo, mid) && Timed(b, mid, hi)
    ensures Timed(a + b, lo, hi)
    decreases |a|
  {
    if a == [] {
      assert a + b == b;
      TimedEarlier(b, lo, mid, hi);
    } else {
      assert (a + b)[1..] == a[1..] + b;
      TimedThen(a[1..], b, if TimeOf(a[0]).None? then lo else TimeOf(a[0]).value, mid, hi);
    }
  }

  lemma {:induction false} TimedEarlier(tr: seq<Step>, lo: nat, mid: nat, hi: nat)
    requires lo <= mid && Timed(tr, mid, hi)
    ensures Timed(tr, lo, hi)
    decreases |tr|
  {
    if tr != [] && TimeOf(tr[0]).None? { TimedEarlier(tr[1..], lo, mid, hi); }
  }

  /** A slot held by the index or waiting in the queue. */
  ghost predicate Guarded(w: World, off: nat) {
    off in InUse(w.space.alloc) && off !in w.inflight && off !in w.leaked
  }

  ghost predicate WaitedFor(w: World, cfg: Config, off: nat, hi: nat) {
    exists e :: e in w.space.queue.entries && e.offset == off && e.enqueuedAt + cfg.grace <= hi
  }

  /** At some point of the run the slot was waiting with its grace period over by `hi`. */
  ghost predicate GraceOver(w: World, cfg: Config, tr: seq<Step>, off: nat, hi: nat)
    requires Runs(w, cfg, tr, false)
    decreases |tr|
  {
    WaitedFor(w, cfg, off, hi) || (tr != [] && GraceOver(Do(w, cfg, tr[0]), cfg, tr[1..], off, hi))
  }

  ghost predicate EnqueuedBy(w: World, t: nat) {
    forall e :: e in w.space.queue.entries ==> e.enqueuedAt <= t
  }

  /** A step that is not a forced flush leaves a guarded slot guarded, unless it frees the slot
      after its grace period. */
  lemma StepGuards(w: World, cfg: Config, s: Step, off: nat, lo: nat)
    requires Owned(w) && Enabled(w, cfg, s) && Strict(w, s) && !s.FlushForced?
    requires Guarded(w, off) && EnqueuedBy(w, lo) && (TimeOf(s).Some? ==> lo <= TimeOf(s).value < U64)
    ensures Guarded(Do(w, cfg, s), off) || (s.FlushDue? && WaitedFor(w, cfg, off, s.now))
  {
    match s
    case TakeSlot(_) => HandsGuard(w, cfg, s, off);
    case FlushDue(now) => FlushFrees(w, cfg, now, off);
    case EvictCold(n, round) => EvictBatchConserves(w.space, w.inflight + w.leaked, n, round);
    case ReleaseSlot(_) => HandsGuard(w, cfg, s, off);
    case _ =>
  }

  /** Taking and giving back slots touches no slot held elsewhere. */
  lemma HandsGuard(w: World, cfg: Config, s: Step, off: nat)
    requires Owned(w) && Enabled(w, cfg, s) && (s.TakeSlot? || s.ReleaseSlot?) && Guarded(w, off)
    ensures Guarded(Do(w, cfg, s), off)
  {
    var rest := w.inflight + w.leaked;
    match s
    case TakeSlot(size) => AllocateConserves(w.space, rest, size);
    case ReleaseSlot(o) => FreeConserves(w.space, rest, o); FreeCorrect(w.space.alloc, o);
  }

  lemma FlushFrees(w: World, cfg: Config, now: nat, off: nat)
    requires Owned(w) && Guarded(w, off) && EnqueuedBy(w, now) && now < U64
    ensures Guarded(Do(w, cfg, FlushDue(now)), off) || WaitedFor(w, cfg, off, now)
  {
    var es := w.space.queue.entries;
    var due := Due(es, cfg.grace, now);
    QueueInUse(w.space, w.inflight + w.leaked);
    DueInUse(w.space.alloc, es, cfg.grace, now);
    FreeAllCorrect(w.space.alloc, OffsetsOf(due));
    CompactionMembers(es, cfg.grace, now);
    if off in OffsetsOf(due) {
      var i :| 0 <= i < |due| && OffsetsOf(due)[i] == off;
      assert due[i] in due && due[i] in es && Expired(due[i], cfg.grace, now);
      assert (now - due[i].enqueuedAt) % U64 == now - due[i].enqueuedAt;
    }
  }

  /** New entries of the queue bear the time of the step. */
  lemma StepEnqueues(w: World, cfg: Config, s: Step, lo: nat)
    requires Owned(w) && Enabled(w, cfg, s) && EnqueuedBy(w, lo) && (TimeOf(s).Some? ==> lo <= TimeOf(s).value)
    ensures EnqueuedBy(Do(w, cfg, s), if TimeOf(s).None? then lo else TimeOf(s).value)
  {
    match s
    case EvictCold(n, round) =>
      EvictNShape(w.space.(link := SyncRemoveSpec(w.space.link, KeysOf(Coldest(w.space.index, n)), round.rpc).0), n,
                  round.now);
    case FlushDue(now) => CompactionMembers(w.space.queue.entries, cfg.grace, now);
    case _ =>
  }

  /** A step leaves the bytes of a guarded slot alone. */
  lemma StepLeavesBytes(w: World, cfg: Config, s: Step, off: nat, n: nat)
    requires Owned(w) && Enabled(w, cfg, s) && Strict(w, s) && Guarded(w, off)
    requires n <= w.space.alloc.slotSize && off + n <= |w.disk|
    ensures PRead(Do(w, cfg, s).disk, off, n) == PRead(w.disk, off, n) && |Do(w, cfg, s).disk| >= |w.disk|
    ensures Do(w, cfg, s).space.alloc.slotSize == w.space.alloc.slotSize
  {
    var rest := w.inflight + w.leaked;
    InUseDisjoint(w.space.alloc, off, off);
    match s
    case WriteSlot(o, data, outcome) => WriteLeavesOthers(w, o, data, outcome, off, n);
    case TakeSlot(size) => AllocateConserves(w.space, rest, size);
    case FlushDue(now) => FlushExpiredConserves(w.space, rest, cfg.grace, now);
    case FlushForced => FlushAllConserves(w.space, rest);
    case EvictCold(m, round) => EvictBatchConserves(w.space, rest, m, round);
    case _ =>
  }

  lemma {:induction false} ForcedOnlyGrows(w: World, cfg: Config, tr: seq<Step>)
    requires Owned(w) && Runs(w, cfg, tr, false)
    ensures Exec(w, cfg, tr).space.queue.forced >= w.space.queue.forced
    decreases |tr|
  {
    if tr != [] {
      StepForced(w, cfg, tr[0]);
      StepKeepsOwned(w, cfg, tr[0]);
      ForcedOnlyGrows(Do(w, cfg, tr[0]), cfg, tr[1..]);
    }
  }

  lemma StepForced(w: World, cfg: Config, s: Step)
    requires Owned(w) && Enabled(w, cfg, s)
    ensures Do(w, cfg, s).space.queue.forced == w.space.queue.forced + if s.FlushForced? then 1 else 0
  {
    match s
    case EvictCold(n, round) =>
      EvictNShape(w.space.(link := SyncRemoveSpec(w.space.link, KeysOf(Coldest(w.space.index, n)), round.rpc).0), n,
                  round.now);
    case _ =>
  }

  /** The grace window. Take a slot the index or the queue holds, and any run whose clock does
      not go back and that never flushes by force. By its end, at time `hi`, the slot is still
      held and its bytes are what they were, unless at some point it waited in the queue since
      at least the grace period before `hi`. */
  lemma {:induction false} GraceWindow(w: World, cfg: Config, tr: seq<Step>, off: nat, n: nat, lo: nat, hi: nat)
    requires Owned(w) && Runs(w, cfg, tr, true) && Runs(w, cfg, tr, false)
    requires Timed(tr, lo, hi) && hi < U64 && EnqueuedBy(w, lo)
    requires Exec(w, cfg, tr).space.queue.forced == w.space.queue.forced
    requires Guarded(w, off) && n <= w.space.alloc.slotSize && off + n <= |w.disk|
    ensures GraceOver(w, cfg, tr, off, hi)
      || (Guarded(Exec(w, cfg, tr), off) && PRead(Exec(w, cfg, tr).disk, off, n) == PRead(w.disk, off, n))
    decreases |tr|
  {
    if tr != [] {
      var s, v := tr[0], Do(w, cfg, tr[0]);
      var mid := if TimeOf(s).None? then lo else TimeOf(s).value;
      TimedOrder(tr[1..], mid, hi);
      StepKeepsOwned(w, cfg, s);
      StepForced(w, cfg, s);
      ForcedOnlyGrows(v, cfg, tr[1..]);
      StepGuards(w, cfg, s, off, lo);
      if Guarded(v, off) {
        StepLeavesBytes(w, cfg, s, off, n);
        StepEnqueues(w, cfg, s, lo);
        GraceWindow(v, cfg, tr[1..], off, n, mid, hi);
      }
    }
  }

  // ---------- no slot waits long enough ----------

  /** If the slot waits at all, it has waited no longer than since `t`. */
  ghost predicate WaitsSince(w: World, off: nat, t: nat) {
    forall e :: e in w.space.queue.entries && e.offset == off ==> e.enqueuedAt >= t
  }

  lemma StepWaitsSince(w: World, cfg: Config, s: Step, off: nat, t: nat)
    requires Owned(w) && Enabled(w, cfg, s) && WaitsSince(w, off, t) && (TimeOf(s).Some? ==> t <= TimeOf(s).value)
    ensures WaitsSince(Do(w, cfg, s), off, t)
  {
    match s
    case EvictCold(n, r) =>
      EvictNShape(w.space.(link := SyncRemoveSpec(w.space.link, KeysOf(Coldest(w.space.index, n)), r.rpc).0), n, r.now);
    case FlushDue(now) => CompactionMembers(w.space.queue.entries, cfg.grace, now);
    case _ =>
  }

  /** In a run shorter than the grace period no slot that was not waiting before has waited out its
      grace period. */
  lemma {:induction false} GraceNotOver(w: World, cfg: Config, tr: seq<Step>, off: nat, t: nat, lo: nat, hi: nat)
    requires Owned(w) && Runs(w, cfg, tr, false) && Timed(tr, lo, hi) && t <= lo && hi < t + cfg.grace
    requires WaitsSince(w, off, t)
    ensures !GraceOver(w, cfg, tr, off, hi)
    decreases |tr|
  {
    if tr != [] {
      StepKeepsOwned(w, cfg, tr[0]);
      StepWaitsSince(w, cfg, tr[0], off, t);
      var mid := if TimeOf(tr[0]).None? then lo else TimeOf(tr[0]).value;
      GraceNotOver(Do(w, cfg, tr[0]), cfg, tr[1..], off, t, mid, hi);
    }
  }
}
