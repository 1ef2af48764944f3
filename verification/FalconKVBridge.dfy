/** The bridge's fire-and-forget pool (python/_pyfalconkv_internal/falconkv_bridge.cpp): submitters,
    workers and closers interleave; each step is one critical section, or the running of a task. */
module Bridge {
  import opened Base

  datatype Worker = Idle | Running(task: nat) | Exited

  /** Where a call of `Close` stands: waiting for an empty queue, about to set `stopped`, joining
      the workers, or past the join; `Returned` if `stopped` was set already. */
  datatype Closer = Draining | Drained | Joining | Joined | Returned

  /** Tasks are numbered as they are submitted. `done` lists the finished ones in order, `begun`
      counts those taken off the queue, and `atStop` those submitted before `stopped` was set. */
  datatype State = State(
    submitted: nat, queue: seq<nat>, stopped: bool, workers: seq<Worker>, closers: map<nat, Closer>,
    done: seq<nat>, begun: nat, atStop: nat)

  datatype Step =
    | Submit
    | Take(worker: nat)
    | Finish(worker: nat)
    | Exit(worker: nat)
    | CallClose(closer: nat)
    | SeeEmpty(closer: nat)
    | SetStopped(closer: nat)
    | JoinAll(closer: nat)

  predicate AllExited(s: State) { forall w :: 0 <= w < |s.workers| ==> s.workers[w] == Exited }

  predicate Enabled(s: State, step: Step) {
    match step
    case Submit => true
    case Take(w) => w < |s.workers| && s.workers[w] == Idle && s.queue != []
    case Finish(w) => w < |s.workers| && s.workers[w].Running?
    case Exit(w) => w < |s.workers| && s.workers[w] == Idle && s.stopped && s.queue == []
    case CallClose(c) => c !in s.closers
    case SeeEmpty(c) => c in s.closers && s.closers[c] == Draining && s.queue == []
    case SetStopped(c) => c in s.closers && s.closers[c] == Drained
    case JoinAll(c) => c in s.closers && s.closers[c] == Joining && AllExited(s)
  }

  function Do(s: State, step: Step): State
    requires Enabled(s, step)
  {
    match step
    case Submit => s.(submitted := s.submitted + 1, queue := s.queue + [s.submitted])
    case Take(w) => s.(queue := s.queue[1..], workers := s.workers[w := Running(s.queue[0])], begun := s.begun + 1)
    case Finish(w) => s.(workers := s.workers[w := Idle], done := s.done + [s.workers[w].task])
    case Exit(w) => s.(workers := s.workers[w := Exited])
    case CallClose(c) => s.(closers := s.closers[c := Draining])
    case SeeEmpty(c) => s.(closers := s.closers[c := Drained])
    case SetStopped(c) =>
      if s.stopped then s.(closers := s.closers[c := Returned])
      else s.(stopped := true, closers := s.closers[c := Joining], atStop := s.submitted)
    case JoinAll(c) => s.(closers := s.closers[c := Joined])
  }

  function Start(workers: nat): State {
    State(0, [], false, seq(workers, _ => Idle), map[], [], 0, 0)
  }

  ghost predicate Runs(s: State, steps: seq<Step>)
    decreases |steps|
  {
    steps == [] || (Enabled(s, steps[0]) && Runs(Do(s, steps[0]), steps[1..]))
  }

  function Exec(s: State, steps: seq<Step>): State
    requires Runs(s, steps)
    decreases |steps|
  {
    if steps == [] then s else Exec(Do(s, steps[0]), steps[1..])
  }

  // ---------- what every step keeps ----------

  predicate RunningAt(s: State, w: nat, t: nat) { w < |s.workers| && s.workers[w] == Running(t) }

  /** The queue is what was submitted and not begun, in order. */
  ghost predicate InOrder(s: State) {
    s.begun + |s.queue| == s.submitted && forall i :: 0 <= i < |s.queue| ==> s.queue[i] == s.begun + i
  }

  /** A begun task is running at one worker or done, once, and not both. */
  ghost predicate OnceEach(s: State) {
    && NoDup(s.done)
    && (forall t :: t in s.done ==> t < s.begun)
    && (forall w: nat, t: nat :: RunningAt(s, w, t) ==> t < s.begun && t !in s.done)
    && (forall w: nat, v: nat, t: nat :: RunningAt(s, w, t) && RunningAt(s, v, t) ==> w == v)
    && (forall t: nat :: t < s.begun ==> t in s.done || exists w: nat :: RunningAt(s, w, t))
  }

  /** Once a worker has left, what is queued came after the stop. */
  ghost predicate ExitsLate(s: State) {
    && (s.stopped ==> s.atStop <= s.submitted)
    && (forall w :: 0 <= w < |s.workers| && s.workers[w] == Exited ==> s.stopped && s.atStop <= s.begun)
    && (forall c :: c in s.closers && s.closers[c] == Joined ==> AllExited(s))
  }

  ghost predicate Inv(s: State) { InOrder(s) && OnceEach(s) && ExitsLate(s) }

  lemma StartInv(workers: nat)
    ensures Inv(Start(workers))
  {
  }

  lemma TakeKeeps(s: State, w: nat)
    requires Inv(s) && Enabled(s, Take(w))
    ensures Inv(Do(s, Take(w)))
  {
    var v, x := Do(s, Take(w)), s.queue[0];
    assert x == s.begun && RunningAt(v, w, x);
    forall t: nat | t < v.begun ensures t in v.done || exists u: nat :: RunningAt(v, u, t) {
      if t < s.begun && t !in s.done {
        var u: nat :| RunningAt(s, u, t);
        assert RunningAt(v, u, t);
      }
    }
    forall u: nat, t: nat | RunningAt(v, u, t) ensures if u == w then t == x else RunningAt(s, u, t) && t < x {
      if u != w { assert RunningAt(s, u, t); }
    }
  }

  lemma FinishKeeps(s: State, w: nat)
    requires Inv(s) && Enabled(s, Finish(w))
    ensures Inv(Do(s, Finish(w)))
  {
    var v, x := Do(s, Finish(w)), s.workers[w].task;
    assert RunningAt(s, w, x);
    NoDupAppend(s.done, x);
    forall u: nat, t: nat | RunningAt(v, u, t) ensures RunningAt(s, u, t) && t != x { assert RunningAt(s, u, t); }
    forall t: nat | t < v.begun ensures t in v.done || exists u: nat :: RunningAt(v, u, t) {
      if t !in s.done && t != x {
        var u: nat :| RunningAt(s, u, t);
        assert RunningAt(v, u, t);
      }
    }
  }

  /** Steps that move no task. */
  lemma OthersKeep(s: State, step: Step)
    requires Inv(s) && Enabled(s, step) && !step.Take? && !step.Finish?
    ensures Inv(Do(s, step))
  {
    var v := Do(s, step);
    assert forall u: nat, t: nat :: RunningAt(v, u, t) <==> RunningAt(s, u, t);
  }

  lemma StepKeeps(s: State, step: Step)
    requires Inv(s) && Enabled(s, step)
    ensures Inv(Do(s, step))
  {
    match step
    case Take(w) => TakeKeeps(s, w);
    case Finish(w) => FinishKeeps(s, w);
    case _ => OthersKeep(s, step);
  }

  lemma {:induction false} RunKeeps(s: State, steps: seq<Step>)
    requires Inv(s) && Runs(s, steps)
    ensures Inv(Exec(s, steps))
    decreases |steps|
  {
    if steps != [] {
      StepKeeps(s, steps[0]);
      RunKeeps(Do(s, steps[0]), steps[1..]);
    }
  }

  // ---------- the theorems ----------

  ghost predicate IsQueued(s: State, t: nat) { t in s.queue }

  ghost predicate IsRunning(s: State, t: nat) { exists w: nat :: RunningAt(s, w, t) }

  ghost predicate IsDone(s: State, t: nat) { t in s.done }

  /** Over every interleaving each submitted task is queued, running or done, and only one of the
      three; nothing else is; and no task is done twice or run by two workers. */
  lemma EveryTaskIsSomewhere(workers: nat, steps: seq<Step>, t: nat)
    requires Runs(Start(workers), steps)
    ensures
      var s := Exec(Start(workers), steps);
      && (t < s.submitted <==> IsQueued(s, t) || IsRunning(s, t) || IsDone(s, t))
      && !(IsQueued(s, t) && IsRunning(s, t)) && !(IsQueued(s, t) && IsDone(s, t)) && !(IsRunning(s, t) && IsDone(s, t))
      && multiset(s.done)[t] <= 1
      && (forall w: nat, v: nat :: RunningAt(s, w, t) && RunningAt(s, v, t) ==> w == v)
  {
    StartInv(workers);
    RunKeeps(Start(workers), steps);
    var s := Exec(Start(workers), steps);
    if t < s.submitted && t >= s.begun { assert s.queue[t - s.begun] == t; }
    NoDupMultiset(s.done);
  }

  /** Once every worker has left, each task submitted before the stop has been run exactly once,
      and nothing is running. */
  lemma StoppedTasksAllRan(workers: nat, steps: seq<Step>, t: nat)
    requires workers > 0 && Runs(Start(workers), steps) && AllExited(Exec(Start(workers), steps))
    ensures
      var s := Exec(Start(workers), steps);
      && s.stopped && (t < s.atStop ==> multiset(s.done)[t] == 1) && !IsRunning(s, t)
      && (t < s.submitted && !IsDone(s, t) ==> IsQueued(s, t) && t >= s.atStop)
  {
    StartInv(workers);
    RunKeeps(Start(workers), steps);
    EveryTaskIsSomewhere(workers, steps, t);
    var s := Exec(Start(workers), steps);
    WorkersStay(Start(workers), steps);
    assert s.workers[0] == Exited;
    if t < s.atStop { assert IsDone(s, t); }
  }

  lemma {:induction false} WorkersStay(s: State, steps: seq<Step>)
    requires Runs(s, steps)
    ensures |Exec(s, steps).workers| == |s.workers|
    decreases |steps|
  {
    if steps != [] { WorkersStay(Do(s, steps[0]), steps[1..]); }
  }

  /** When a call of `Close` is past its join no task runs, and none will: what the workers used
      may be taken down. */
  lemma NothingRunsAfterJoin(workers: nat, before: seq<Step>, after: seq<Step>, c: nat, t: nat)
    requires Runs(Start(workers), before)
    requires
      var s := Exec(Start(workers), before);
      c in s.closers && s.closers[c] == Joined && Runs(s, after)
    ensures
      var (s, u) := (Exec(Start(workers), before), Exec(Exec(Start(workers), before), after));
      !IsRunning(u, t) && u.done == s.done && u.begun == s.begun
  {
    StartInv(workers);
    RunKeeps(Start(workers), before);
    ExitedStay(Exec(Start(workers), before), after);
  }

  lemma {:induction false} ExitedStay(s: State, steps: seq<Step>)
    requires AllExited(s) && Runs(s, steps)
    ensures var u := Exec(s, steps); AllExited(u) && u.done == s.done && u.begun == s.begun
    decreases |steps|
  {
    if steps != [] { ExitedStay(Do(s, steps[0]), steps[1..]); }
  }

  /** A task not yet begun keeps a worker from leaving: one leaves only with the queue empty. */
  ghost predicate BegunOrAwaited(s: State, t: nat) { t < s.begun || !AllExited(s) }

  lemma StepKeepsAwaited(s: State, step: Step, t: nat)
    requires Inv(s) && Enabled(s, step) && t < s.submitted && BegunOrAwaited(s, t)
    ensures BegunOrAwaited(Do(s, step), t)
  {
    var v := Do(s, step);
    if !AllExited(s) {
      var w :| 0 <= w < |s.workers| && s.workers[w] != Exited;
      if !step.Exit? {
        var at := if step.Take? || step.Finish? then step.worker else w;
        assert v.workers[at] != Exited;
      }
    }
  }

  lemma {:induction false} RunKeepsAwaited(s: State, steps: seq<Step>, t: nat)
    requires Inv(s) && Runs(s, steps) && t < s.submitted && BegunOrAwaited(s, t)
    ensures BegunOrAwaited(Exec(s, steps), t) && Inv(Exec(s, steps))
    decreases |steps|
  {
    if steps != [] {
      StepKeepsAwaited(s, steps[0], t);
      StepKeeps(s, steps[0]);
      RunKeepsAwaited(Do(s, steps[0]), steps[1..], t);
    }
  }

  /** Submitting is never refused, not even after the stop. When all workers have left in the end,
      a task has run exactly if some worker had not left when it was submitted. */
  lemma TaskRunsIff(workers: nat, before: seq<Step>, after: seq<Step>)
    requires Runs(Start(workers), before)
    requires
      var s := Exec(Start(workers), before);
      Runs(Do(s, Submit), after) && AllExited(Exec(Do(s, Submit), after))
    ensures
      var s := Exec(Start(workers), before);
      IsDone(Exec(Do(s, Submit), after), s.submitted) <==> !AllExited(s)
  {
    var s := Exec(Start(workers), before);
    var t, u, v := s.submitted, Do(s, Submit), Exec(Do(s, Submit), after);
    StartInv(workers);
    RunKeeps(Start(workers), before);
    StepKeeps(s, Submit);
    if AllExited(s) {
      ExitedStay(u, after);
      assert forall x :: x in s.done ==> x < s.begun;
    } else {
      RunKeepsAwaited(u, after, t);
      assert t < v.begun;
      assert forall w: nat :: !RunningAt(v, w, t);
    }
  }

  /** One such run: the only worker has left, and the task stays in the queue for good. */
  lemma LateTaskIsStranded() returns (steps: seq<Step>)
    ensures Runs(Start(1), steps)
    ensures var s := Exec(Start(1), steps); IsQueued(s, 0) && AllExited(s) && s.closers == map[0 := Joined]
  {
    var s1 := Do(Start(1), CallClose(0));
    var s2 := Do(s1, SeeEmpty(0));
    var s3 := Do(s2, SetStopped(0));
    var s4 := Do(s3, Exit(0));
    var s5 := Do(s4, Submit);
    var s6 := Do(s5, JoinAll(0));
    assert s6.queue == [0];
    steps := Chain(s5, JoinAll(0), [], s6);
    steps := Chain(s4, Submit, steps, s6);
    steps := Chain(s3, Exit(0), steps, s6);
    steps := Chain(s2, SetStopped(0), steps, s6);
    steps := Chain(s1, SeeEmpty(0), steps, s6);
    steps := Chain(Start(1), CallClose(0), steps, s6);
  }

  lemma Chain(s: State, step: Step, rest: seq<Step>, u: State) returns (steps: seq<Step>)
    requires Enabled(s, step) && Runs(Do(s, step), rest) && Exec(Do(s, step), rest) == u
    ensures Runs(s, steps) && Exec(s, steps) == u
  {
    steps := [step] + rest;
    assert steps[1..] == rest;
  }

  // ---------- the critical sections ----------

  /** What a worker gets from its critical section. */
  datatype Turn = Wait | Leave | Work(task: nat)

  class FalconKVBridge {
    var taskQueue: seq<nat>
    var stopped: bool
    ghost var state: State

    ghost predicate Valid()
      reads this
    {
      taskQueue == state.queue && stopped == state.stopped && Inv(state)
    }

    constructor (numWorkers: nat)
      ensures Valid() && state == Start(numWorkers)
    {
      taskQueue, stopped, state := [], false, Start(numWorkers);
      new;
      StartInv(numWorkers);
    }

    /** `task` stands for the closure; the caller numbers it. */
    method SubmitTask(task: nat)
      requires Valid() && task == state.submitted
      modifies this
      ensures Valid() && state == Do(old(state), Submit)
    {
      StepKeeps(state, Submit);
      taskQueue := taskQueue + [task];
      state := Do(state, Submit);
    }

    /** The critical section of `WorkerLoop`: sleep on, leave, or take the oldest task. */
    method NextTurn(worker: nat) returns (turn: Turn)
      requires Valid() && worker < |state.workers| && state.workers[worker] == Idle
      modifies this
      ensures Valid()
      ensures turn == Wait ==> state == old(state) && !stopped && taskQueue == []
      ensures turn == Leave ==> Enabled(old(state), Exit(worker)) && state == Do(old(state), Exit(worker))
      ensures turn.Work? ==>
                && Enabled(old(state), Take(worker)) && state == Do(old(state), Take(worker))
                && turn.task == old(state).begun
    {
      if !stopped && taskQueue == [] {
        return Wait;
      }
      if stopped && taskQueue == [] {
        StepKeeps(state, Exit(worker));
        state := Do(state, Exit(worker));
        return Leave;
      }
      var task := taskQueue[0];
      StepKeeps(state, Take(worker));
      taskQueue := taskQueue[1..];
      state := Do(state, Take(worker));
      return Work(task);
    }

    /** One look of `DrainQueue`. */
    method QueueEmpty(closer: nat) returns (empty: bool)
      requires Valid() && closer in state.closers && state.closers[closer] == Draining
      modifies `state
      ensures Valid() && empty == (taskQueue == [])
      ensures state == if empty then Do(old(state), SeeEmpty(closer)) else old(state)
    {
      empty := taskQueue == [];
      if empty {
        StepKeeps(state, SeeEmpty(closer));
        state := Do(state, SeeEmpty(closer));
      }
    }

    /** The critical section of `Close`: false when it was stopped already. */
    method StopOnce(closer: nat) returns (first: bool)
      requires Valid() && closer in state.closers && state.closers[closer] == Drained
      modifies this
      ensures Valid() && state == Do(old(state), SetStopped(closer)) && first == !old(stopped)
    {
      StepKeeps(state, SetStopped(closer));
      first := !stopped;
      stopped := true;
      state := Do(state, SetStopped(closer));
    }
  }
}
