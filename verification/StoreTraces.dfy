/** Every operation of the store is a run of its steps. */
module StoreTraces {
  import opened Base
  import opened SlotAllocation
  import opened MetaIndex
  import opened MetaLink
  import opened StoreSpace
  import opened Eviction
  import opened StoreOps
  import opened StoreProgress
  import opened StoreSteps
  import opened StoreRuns

  /** Which side conditions a run is to meet: strict steps, and a clock that does not go back. */
  datatype Mode = Mode(strict: bool, timed: bool)

  ghost predicate Reaches(w: World, cfg: Config, tr: seq<Step>, v: World, mode: Mode, lo: nat, hi: nat) {
    && Runs(w, cfg, tr, false) && Runs(w, cfg, tr, mode.strict) && Exec(w, cfg, tr) == v
    && (mode.timed ==> Timed(tr, lo, hi))
  }

  lemma ReachesThen(w: World, cfg: Config, a: seq<Step>, u: World, b: seq<Step>, v: World, mode: Mode, lo: nat,
                    mid: nat, hi: nat)
    requires Reaches(w, cfg, a, u, mode, lo, mid) && Reaches(u, cfg, b, v, mode, mid, hi)
    ensures Reaches(w, cfg, a + b, v, mode, lo, hi)
  {
    RunsThen(w, cfg, a, b, mode.strict);
    if mode.timed { TimedThen(a, b, lo, mid, hi); }
  }

  lemma ReachesNone(w: World, cfg: Config, mode: Mode, lo: nat, hi: nat)
    requires mode.timed ==> lo <= hi
    ensures Reaches(w, cfg, [], w, mode, lo, hi)
  {
  }

  lemma ReachesOne(w: World, cfg: Config, s: Step, mode: Mode, lo: nat, hi: nat)
    requires MetaIndex.Wf(w.space.index) && Enabled(w, cfg, s) && (mode.strict ==> Strict(w, s))
    requires mode.timed ==> lo <= hi && (TimeOf(s).Some? ==> lo <= TimeOf(s).value <= hi)
    ensures Reaches(w, cfg, [s], Do(w, cfg, s), mode, lo, hi)
  {
    assert [s][1..] == [];
  }

  // ---------- well-timed environments ----------

  predicate RoundsTimed(rounds: seq<Round>, lo: nat, hi: nat)
    decreases |rounds|
  {
    if rounds == [] then lo <= hi else lo <= rounds[0].now && RoundsTimed(rounds[1..], rounds[0].now, hi)
  }

  predicate LadderTimed(env: Ladder, lo: nat, hi: nat) {
    lo <= env.flush1 && RoundsTimed(env.rounds, env.flush1, env.flush2) && env.flush2 <= hi
  }

  lemma {:induction false} RoundsOrder(rounds: seq<Round>, lo: nat, hi: nat)
    requires RoundsTimed(rounds, lo, hi)
    ensures lo <= hi && (rounds != [] ==> rounds[0].now <= hi)
    decreases |rounds|
  {
    if rounds != [] { RoundsOrder(rounds[1..], rounds[0].now, hi); }
  }

  // ---------- the ladder ----------

  lemma {:induction false} ForceRun(w: World, cfg: Config, needed: nat, total: nat, rounds: seq<Round>, mode: Mode,
                                    lo: nat, hi: nat) returns (tr: seq<Step>)
    requires MetaIndex.Wf(w.space.index) && (mode.timed ==> RoundsTimed(rounds, lo, hi))
    ensures Reaches(w, cfg, tr, w.(space := ForceRounds(w.space, needed, total, rounds).0), mode, lo, hi)
    decreases |rounds|
  {
    tr := [];
    if mode.timed { RoundsOrder(rounds, lo, hi); }
    ReachesNone(w, cfg, mode, lo, hi);
    if rounds != [] && total < needed {
      var n := Victims(w.space.index, needed - total).0;
      if n > 0 {
        var (t, sum, more) := ForceRound(w.space, needed, total, rounds[0]);
        var s := EvictCold(n, rounds[0]);
        var u := w.(space := t);
        assert Do(w, cfg, s) == u;
        if more {
          ReachesOne(w, cfg, s, mode, lo, rounds[0].now);
          var rest := ForceRun(u, cfg, needed, sum, rounds[1..], mode, rounds[0].now, hi);
          ReachesThen(w, cfg, [s], u, rest, w.(space := ForceRounds(w.space, needed, total, rounds).0), mode, lo,
                      rounds[0].now, hi);
          tr := [s] + rest;
        } else {
          ReachesOne(w, cfg, s, mode, lo, hi);
          tr := [s];
        }
      }
    }
  }

  /** The world after looking for a slot: the space changed, the slot, if any, in hand. */
  ghost function Holding(w: World, r: (Space, Option<nat>)): World {
    w.(space := r.0, inflight := WithSlot(w.inflight, r.1))
  }

  lemma TakeRun(w: World, cfg: Config, size: nat, mode: Mode, lo: nat, hi: nat) returns (tr: seq<Step>)
    requires MetaIndex.Wf(w.space.index) && size < U32 && (mode.timed ==> lo <= hi)
    ensures Reaches(w, cfg, tr, Holding(w, Allocate(w.space, size)), mode, lo, hi)
  {
    tr := [TakeSlot(size)];
    ReachesOne(w, cfg, TakeSlot(size), mode, lo, hi);
  }

  lemma Level1Run(w: World, cfg: Config, size: nat, env: Ladder, mode: Mode, lo: nat) returns (tr: seq<Step>)
    requires MetaIndex.Wf(w.space.index) && size < U32 && (mode.timed ==> lo <= env.flush1)
    ensures Reaches(w, cfg, tr, Holding(w, Level1(w.space, size, cfg.grace, env)), mode, lo, env.flush1)
  {
    var u := Do(w, cfg, FlushDue(env.flush1));
    ReachesOne(w, cfg, FlushDue(env.flush1), mode, lo, env.flush1);
    var b := TakeRun(u, cfg, size, mode, env.flush1, env.flush1);
    tr := [FlushDue(env.flush1)] + b;
    ReachesThen(w, cfg, [FlushDue(env.flush1)], u, b, Holding(w, Level1(w.space, size, cfg.grace, env)), mode, lo,
                env.flush1, env.flush1);
  }

  lemma Level2Run(w: World, cfg: Config, size: nat, env: Ladder, mode: Mode) returns (tr: seq<Step>)
    requires MetaIndex.Wf(w.space.index) && size < U32
      && (mode.timed ==> RoundsTimed(env.rounds, env.flush1, env.flush2))
    ensures Reaches(w, cfg, tr, Holding(w, Level2(w.space, size, cfg.grace, env)), mode, env.flush1, env.flush2)
  {
    var target := EvictTarget(w.space.alloc, size);
    var a := ForceRun(w, cfg, target, 0, env.rounds, mode, env.flush1, env.flush2);
    var u := w.(space := ForceRounds(w.space, target, 0, env.rounds).0);
    ForceRoundsKeepsWf(w.space, target, 0, env.rounds);
    var v := Do(u, cfg, FlushDue(env.flush2));
    ReachesOne(u, cfg, FlushDue(env.flush2), mode, env.flush2, env.flush2);
    var b := TakeRun(v, cfg, size, mode, env.flush2, env.flush2);
    var end := Holding(w, Level2(w.space, size, cfg.grace, env));
    ReachesThen(u, cfg, [FlushDue(env.flush2)], v, b, end, mode, env.flush2, env.flush2, env.flush2);
    tr := a + ([FlushDue(env.flush2)] + b);
    ReachesThen(w, cfg, a, u, [FlushDue(env.flush2)] + b, end, mode, env.flush1, env.flush2, env.flush2);
  }

  lemma Level3Run(w: World, cfg: Config, size: nat, mode: Mode, lo: nat, hi: nat) returns (tr: seq<Step>)
    requires MetaIndex.Wf(w.space.index) && size < U32 && (mode.timed ==> lo <= hi)
    ensures Reaches(w, cfg, tr, Holding(w, Level3(w.space, size)), mode, lo, hi)
  {
    var u := Do(w, cfg, FlushForced);
    ReachesOne(w, cfg, FlushForced, mode, lo, lo);
    var b := TakeRun(u, cfg, size, mode, lo, hi);
    tr := [FlushForced] + b;
    ReachesThen(w, cfg, [FlushForced], u, b, Holding(w, Level3(w.space, size)), mode, lo, lo, hi);
  }

  lemma LadderRun(w: World, cfg: Config, size: nat, env: Ladder, mode: Mode, lo: nat, hi: nat) returns (tr: seq<Step>)
    requires MetaIndex.Wf(w.space.index) && size < U32 && (mode.timed ==> LadderTimed(env, lo, hi))
    ensures Reaches(w, cfg, tr, Holding(w, LadderSpec(w.space, size, cfg.grace, env)), mode, lo, hi)
  {
    if mode.timed { RoundsOrder(env.rounds, env.flush1, env.flush2); }
    var r1 := Level1(w.space, size, cfg.grace, env);
    var end := Holding(w, LadderSpec(w.space, size, cfg.grace, env));
    tr := Level1Run(w, cfg, size, env, mode, lo);
    if r1.1.Some? {
      Later(w, cfg, tr, end, mode, lo, env.flush1, hi);
    } else {
      var u := w.(space := r1.0);
      var r2 := Level2(r1.0, size, cfg.grace, env);
      var b := Level2Run(u, cfg, size, env, mode);
      ReachesThen(w, cfg, tr, u, b, Holding(w, r2), mode, lo, env.flush1, env.flush2);
      tr := tr + b;
      if r2.1.Some? {
        Later(w, cfg, tr, end, mode, lo, env.flush2, hi);
      } else {
        var v := w.(space := r2.0);
        ForceRoundsKeepsWf(r1.0, EvictTarget(r1.0.alloc, size), 0, env.rounds);
        var c := Level3Run(v, cfg, size, mode, env.flush2, hi);
        ReachesThen(w, cfg, tr, v, c, end, mode, lo, env.flush2, hi);
        tr := tr + c;
      }
    }
  }

  lemma Later(w: World, cfg: Config, tr: seq<Step>, v: World, mode: Mode, lo: nat, mid: nat, hi: nat)
    requires Reaches(w, cfg, tr, v, mode, lo, mid) && (mode.timed ==> mid <= hi)
    ensures Reaches(w, cfg, tr, v, mode, lo, hi)
  {
    ReachesNone(v, cfg, mode, mid, hi);
    ReachesThen(w, cfg, tr, v, [], v, mode, lo, mid, hi);
    assert tr + [] == tr;
  }

  lemma PlaceRun(w: World, cfg: Config, size: nat, env: Ladder, mode: Mode, lo: nat, hi: nat) returns (tr: seq<Step>)
    requires MetaIndex.Wf(w.space.index) && size < U32 && (mode.timed ==> LadderTimed(env, lo, hi))
    ensures Reaches(w, cfg, tr, Holding(w, PlaceSpec(w.space, size, cfg.grace, env)), mode, lo, hi)
  {
    if mode.timed { RoundsOrder(env.rounds, env.flush1, env.flush2); }
    var r := Allocate(w.space, size);
    if r.1.Some? {
      tr := TakeRun(w, cfg, size, mode, lo, hi);
    } else {
      var a := TakeRun(w, cfg, size, mode, lo, lo);
      var u := w.(space := r.0);
      var b := LadderRun(u, cfg, size, env, mode, lo, hi);
      ReachesThen(w, cfg, a, u, b, Holding(w, PlaceSpec(w.space, size, cfg.grace, env)), mode, lo, lo, hi);
      tr := a + b;
    }
  }

  // ---------- looking for a slot only takes keys out of the index ----------

  ghost predicate Shrinks(s: IndexState, t: IndexState) {
    forall k :: k in t.recs ==> k in s.recs
  }

  lemma {:induction false} ForceRoundsShrink(sp: Space, needed: nat, total: nat, rounds: seq<Round>)
    requires MetaIndex.Wf(sp.index)
    ensures Shrinks(sp.index, ForceRounds(sp, needed, total, rounds).0.index)
    decreases |rounds|
  {
    if rounds != [] && total < needed {
      RoundEvicts(sp, needed, total, rounds[0]);
      var (t, sum, more) := ForceRound(sp, needed, total, rounds[0]);
      if more { ForceRoundsShrink(t, needed, sum, rounds[1..]); }
    }
  }

  lemma LadderShrinks(sp: Space, size: nat, grace: nat, env: Ladder)
    requires MetaIndex.Wf(sp.index)
    ensures Shrinks(sp.index, LadderSpec(sp, size, grace, env).0.index)
  {
    var t := Level1(sp, size, grace, env).0;
    ForceRoundsShrink(t, EvictTarget(t.alloc, size), 0, env.rounds);
  }

  lemma PlaceShrinks(sp: Space, size: nat, grace: nat, env: Ladder)
    requires MetaIndex.Wf(sp.index)
    ensures Shrinks(sp.index, PlaceSpec(sp, size, grace, env).0.index)
  {
    LadderShrinks(Allocate(sp, size).0, size, grace, env);
  }

  // ---------- Put ----------

  /** The second half of `Put`, from the slot in hand. */
  ghost function PutHeld(h: World, cfg: Config, off: nat, key: Key, data: seq<byte>, env: PutEnv): World {
    var (disk, s) := WriteSpec(h.disk, off, data, OfWrite(data, env.write));
    var written := h.(disk := disk);
    if s != Ok then
      written.(space := h.space.(alloc := FreeSpec(h.space.alloc, off)), inflight := h.inflight - multiset{off})
    else
      var r := Record(key, off, |data|, h.space.alloc.slotSize, 1, env.commit);
      var indexed := IndexRecord(written, r, data);
      Relinked(indexed, SyncCommitSpec(indexed.space.link, cfg.storeId, [r], env.rpc1, env.rpc2).0)
  }

  lemma PutInHalves(w: World, cfg: Config, key: Key, data: seq<byte>, env: PutEnv)
    requires MetaIndex.Wf(w.space.index) && !Committed(w.space.index, key)
    ensures
      var r := PlaceSpec(w.space, |data|, cfg.grace, env.ladder);
      PutOp(w, cfg, key, data, env)
        == if r.1.None? then (Holding(w, r), PutResult(NoSpace, 0, 0))
           else (PutHeld(Holding(w, r), cfg, r.1.value, key, data, env),
                 PutResult(WriteSpec(w.disk, r.1.value, data, OfWrite(data, env.write)).1, r.1.value,
                           r.0.alloc.slotSize))
  {
    var r := PlaceSpec(w.space, |data|, cfg.grace, env.ladder);
    if r.1.Some? {
      assert w.inflight + multiset{r.1.value} - multiset{r.1.value} == w.inflight;
    }
  }

  /** A timeless step and then a run. */
  lemma ReachesCons(w: World, cfg: Config, s: Step, b: seq<Step>, v: World, mode: Mode, lo: nat, hi: nat)
    requires MetaIndex.Wf(w.space.index) && Enabled(w, cfg, s) && (mode.strict ==> Strict(w, s)) && TimeOf(s).None?
    requires Reaches(Do(w, cfg, s), cfg, b, v, mode, lo, hi)
    ensures Reaches(w, cfg, [s] + b, v, mode, lo, hi)
  {
    ReachesOne(w, cfg, s, mode, lo, lo);
    ReachesThen(w, cfg, [s], Do(w, cfg, s), b, v, mode, lo, lo, hi);
  }

  /** Two steps after which nothing has to be late. */
  lemma ReachesTwo(w: World, cfg: Config, s: Step, t: Step, mode: Mode, lo: nat, hi: nat)
    requires MetaIndex.Wf(w.space.index) && Enabled(w, cfg, s) && (mode.strict ==> Strict(w, s)) && TimeOf(s).None?
    requires
      var u := Do(w, cfg, s);
      MetaIndex.Wf(u.space.index) && Enabled(u, cfg, t) && (mode.strict ==> Strict(u, t)) && TimeOf(t).None?
    requires mode.timed ==> lo <= hi
    ensures Reaches(w, cfg, [s, t], Do(Do(w, cfg, s), cfg, t), mode, lo, hi)
  {
    var u := Do(w, cfg, s);
    ReachesOne(w, cfg, s, mode, lo, lo);
    ReachesOne(u, cfg, t, mode, lo, hi);
    ReachesThen(w, cfg, [s], u, [t], Do(u, cfg, t), mode, lo, lo, hi);
    assert [s] + [t] == [s, t];
  }

  /** The record enters the index and Meta is told. */
  lemma IndexAndCommitRun(u: World, cfg: Config, r: Record, data: seq<byte>, r1: Rpc, r2: Rpc, mode: Mode, lo: nat,
                          hi: nat)
    requires MetaIndex.Wf(u.space.index) && Enabled(u, cfg, IndexKey(r, data))
      && (mode.strict ==> Strict(u, IndexKey(r, data)))
    requires mode.timed ==> lo <= hi
    ensures
      var v := IndexRecord(u, r, data);
      Reaches(u, cfg, [IndexKey(r, data), CommitNow([r], r1, r2)],
              Relinked(v, SyncCommitSpec(v.space.link, cfg.storeId, [r], r1, r2).0), mode, lo, hi)
  {
    PutKeepsWf(u.space.index, r.key, r);
    var v := Do(u, cfg, IndexKey(r, data));
    assert mode.strict ==> Indexed(v, r.key, r.offset, r.size);
    ReachesTwo(u, cfg, IndexKey(r, data), CommitNow([r], r1, r2), mode, lo, hi);
  }

  lemma HeldRun(h: World, cfg: Config, off: nat, key: Key, data: seq<byte>, env: PutEnv, mode: Mode, lo: nat, hi: nat)
    returns (tr: seq<Step>)
    requires MetaIndex.Wf(h.space.index) && off in h.inflight && (mode.timed ==> lo <= hi)
    requires |data| <= h.space.alloc.slotSize && key !in h.space.index.recs
    ensures Reaches(h, cfg, tr, PutHeld(h, cfg, off, key, data, env), mode, lo, hi)
  {
    var s1 := WriteSlot(off, data, OfWrite(data, env.write));
    var u := Do(h, cfg, s1);
    if WriteSpec(h.disk, off, data, OfWrite(data, env.write)).1 != Ok {
      tr := [s1, ReleaseSlot(off)];
      ReachesTwo(h, cfg, s1, ReleaseSlot(off), mode, lo, hi);
    } else {
      WriteOk(h.disk, off, data);
      var r := Record(key, off, |data|, h.space.alloc.slotSize, 1, env.commit);
      var b := [IndexKey(r, data), CommitNow([r], env.rpc1, env.rpc2)];
      IndexAndCommitRun(u, cfg, r, data, env.rpc1, env.rpc2, mode, lo, hi);
      ReachesOne(h, cfg, s1, mode, lo, lo);
      ReachesThen(h, cfg, [s1], u, b, PutHeld(h, cfg, off, key, data, env), mode, lo, lo, hi);
      tr := [s1] + b;
    }
  }

  lemma PutRun(w: World, cfg: Config, key: Key, data: seq<byte>, env: PutEnv, mode: Mode, lo: nat, hi: nat)
    returns (tr: seq<Step>)
    requires Owned(w) && |data| < U32 && (mode.timed ==> LadderTimed(env.ladder, lo, hi))
    ensures Reaches(w, cfg, tr, PutOp(w, cfg, key, data, env).0, mode, lo, hi)
  {
    if mode.timed { RoundsOrder(env.ladder.rounds, env.ladder.flush1, env.ladder.flush2); }
    if Committed(w.space.index, key) {
      tr := [TouchKey(key, env.lookup)];
      ReachesOne(w, cfg, TouchKey(key, env.lookup), mode, lo, hi);
    } else {
      var r := PlaceSpec(w.space, |data|, cfg.grace, env.ladder);
      tr := PlaceRun(w, cfg, |data|, env.ladder, mode, lo, hi);
      PutInHalves(w, cfg, key, data, env);
      if r.1.Some? {
        PlaceConserves(w.space, w.inflight + w.leaked, |data|, cfg.grace, env.ladder);
        PlaceShrinks(w.space, |data|, cfg.grace, env.ladder);
        var h := Holding(w, r);
        var b := HeldRun(h, cfg, r.1.value, key, data, env, mode, hi, hi);
        ReachesThen(w, cfg, tr, h, b, PutOp(w, cfg, key, data, env).0, mode, lo, hi, hi);
        tr := tr + b;
      }
    }
  }

  // ---------- the watermark pass ----------

  function TurnEnd(t: Turn): nat { if t.tick.Some? then t.tick.value else t.round.now }

  ghost predicate PassTimed(env: nat -> Turn, i: nat, lo: nat, hi: nat) {
    && lo <= env(i).round.now
    && forall j: nat {:trigger env(j)} :: i <= j ==>
         && env(j).round.now <= TurnEnd(env(j)) <= hi
         && TurnEnd(env(j)) <= env(j + 1).round.now
  }

  lemma TurnRun(w: World, cfg: Config, turn: Turn, mode: Mode, lo: nat, hi: nat) returns (tr: seq<Step>)
    requires MetaIndex.Wf(w.space.index) && (mode.timed ==> lo <= turn.round.now <= TurnEnd(turn) <= hi)
    ensures Reaches(w, cfg, tr, w.(space := PassTurn(w.space, cfg.grace, turn).0), mode, lo, if mode.timed
                    then TurnEnd(turn) else hi)
  {
    var n := Min(MAX_PER_PASS, |w.space.index.lru|);
    var end := if mode.timed then TurnEnd(turn) else hi;
    if n == 0 {
      tr := [];
      ReachesNone(w, cfg, mode, lo, end);
    } else {
      var (t, ok) := EvictBatch(w.space, n, turn.round);
      var u := w.(space := t);
      var s := EvictCold(n, turn.round);
      PassTurnShrinks(w.space, cfg.grace, turn);
      if ok && turn.tick.Some? {
        EvictBatchShape(w.space, n, turn.round);
        ReachesOne(w, cfg, s, mode, lo, turn.round.now);
        ReachesOne(u, cfg, FlushDue(turn.tick.value), mode, turn.round.now, end);
        ReachesThen(w, cfg, [s], u, [FlushDue(turn.tick.value)], Do(u, cfg, FlushDue(turn.tick.value)), mode, lo,
                    turn.round.now, end);
        tr := [s] + [FlushDue(turn.tick.value)];
      } else {
        ReachesOne(w, cfg, s, mode, lo, end);
        tr := [s];
      }
    }
  }

  lemma {:induction false} PassRun(w: World, cfg: Config, low: real, env: nat -> Turn, i: nat, mode: Mode, lo: nat,
                                   hi: nat) returns (tr: seq<Step>)
    requires MetaIndex.Wf(w.space.index) && (mode.timed ==> PassTimed(env, i, lo, hi))
    ensures Reaches(w, cfg, tr, w.(space := PassSpec(w.space, low, cfg.grace, env, i)), mode, lo, hi)
    decreases |w.space.index.lru|
  {
    if mode.timed { assert env(i).round.now <= TurnEnd(env(i)) <= hi; }
    if Usage(w.space.alloc) <= low {
      tr := [];
      ReachesNone(w, cfg, mode, lo, hi);
    } else {
      var mid := if mode.timed then TurnEnd(env(i)) else hi;
      var (t, more) := PassTurn(w.space, cfg.grace, env(i));
      var u := w.(space := t);
      PassTurnShrinks(w.space, cfg.grace, env(i));
      tr := TurnRun(w, cfg, env(i), mode, lo, hi);
      if more {
        var b := PassRun(u, cfg, low, env, i + 1, mode, mid, hi);
        ReachesThen(w, cfg, tr, u, b, w.(space := PassSpec(w.space, low, cfg.grace, env, i)), mode, lo, mid, hi);
        tr := tr + b;
      } else {
        Later(w, cfg, tr, u, mode, lo, mid, hi);
      }
    }
  }
}
