// Every interleaving of the pool's callers and workers. A step is one region
// between lock and unlock, one spurious wake-up, or the end of one task.

module PoolProtocol {
  import opened Counting
  import opened Waking
  import opened WorkerPool

  // AtLock: heading for the lock, after start, after a task or after a wake-up.
  // The ticket of a running task is its place in the order of dequeuing.
  datatype Worker = AtLock | Asleep | Busy(task: Task, ticket: nat) | Exited

  datatype Call = Call(ticket: nat, routine: nat, argument: int)

  // accepted, taken and calls are the histories of the run.
  datatype System = System(
    pool: Pool, workers: seq<Worker>,
    accepted: seq<Task>, taken: seq<Task>, calls: seq<Call>)

  // Submit names the sleepers that the one signal wakes: POSIX promises at
  // least one of them when there is any.
  datatype Step =
    | Submit(task: Task, woken: set<nat>)
    | Locked(worker: nat)
    | Spurious(worker: nat)
    | Finish(worker: nat)
    | Destroy(graceful: bool)

  function Start(threads: nat, size: nat): System {
    System(Pool([], size, Open, threads), seq(threads, _ => AtLock), [], [], [])
  }

  predicate IsAsleep(w: Worker) { w.Asleep? }

  ghost predicate Enabled(s: System, step: Step) {
    match step
    case Submit(t, woken) =>
      var sleepers := Sleepers(s.workers, IsAsleep);
      && woken <= sleepers
      && (woken == {} <==> AddTask(s.pool, t).1 != Added || sleepers == {})
    case Locked(i) => i < |s.workers| && s.workers[i].AtLock?
    case Spurious(i) => i < |s.workers| && s.workers[i].Asleep?
    case Finish(i) => i < |s.workers| && s.workers[i].Busy?
    case Destroy(_) => s.pool.mode.Open?
  }

  ghost function Apply(s: System, step: Step): System
    requires Enabled(s, step)
  {
    match step
    case Submit(t, woken) =>
      var (p, err) := AddTask(s.pool, t);
      s.(pool := p, workers := Woken(s.workers, woken, IsAsleep, AtLock),
         accepted := if err == Added then s.accepted + [t] else s.accepted)
    case Locked(i) =>
      var (p, turn) := TakeTurn(s.pool);
      (match turn
       case Sleep => s.(pool := p, workers := s.workers[i := Asleep])
       case Quit => s.(pool := p, workers := s.workers[i := Exited])
       case Run(t) => s.(pool := p, workers := s.workers[i := Busy(t, |s.taken|)], taken := s.taken + [t]))
    case Spurious(i) => s.(workers := s.workers[i := AtLock])
    case Finish(i) =>
      var w := s.workers[i];
      s.(workers := s.workers[i := AtLock],
         calls := s.calls + [Call(w.ticket, w.task.routine, w.task.argument)])
    case Destroy(graceful) =>
      s.(pool := s.pool.(mode := if graceful then Graceful else Immediate),
         workers := Woken(s.workers, Sleepers(s.workers, IsAsleep), IsAsleep, AtLock))
  }

  // A run is a sequence of steps, each enabled where it is taken.
  ghost predicate CanRun(s: System, steps: seq<Step>)
    decreases |steps|
  {
    steps != [] ==> Enabled(s, steps[0]) && CanRun(Apply(s, steps[0]), steps[1..])
  }

  ghost function After(s: System, steps: seq<Step>): System
    requires CanRun(s, steps)
    decreases |steps|
  {
    if steps == [] then s else After(Apply(s, steps[0]), steps[1..])
  }

  // ----- counting workers -----

  predicate IsReady(w: Worker) { w.AtLock? }

  predicate IsBusy(w: Worker) { w.Busy? }

  predicate IsAlive(w: Worker) { !w.Exited? }

  // Some sleepers of ws are on their way to the lock in woken.
  ghost predicate IsWake(ws: seq<Worker>, woken: seq<Worker>) {
    && |woken| == |ws|
    && forall i | 0 <= i < |ws| :: woken[i] == ws[i] || (ws[i].Asleep? && woken[i].AtLock?)
  }

  lemma CountWake(ws: seq<Worker>, woken: seq<Worker>)
    requires IsWake(ws, woken)
    ensures Count(woken, IsReady) >= Count(ws, IsReady)
    ensures woken != ws ==> Count(woken, IsReady) > Count(ws, IsReady)
    ensures Count(woken, IsAlive) == Count(ws, IsAlive)
  {
    CountMonotone(ws, woken, IsReady, IsReady);
    CountMonotone(ws, woken, IsAlive, IsAlive);
    CountMonotone(woken, ws, IsAlive, IsAlive);
    if woken != ws {
      var i :| 0 <= i < |ws| && woken[i] != ws[i];
      assert IsReady(woken[i]) && !IsReady(ws[i]);
    }
  }

  // ----- invariants -----

  ghost predicate NoLostWakeup(s: System) {
    s.pool.mode.Open? ==> Count(s.workers, IsAsleep) == 0 || |s.pool.queue| <= Count(s.workers, IsReady)
  }

  // After the broadcast nobody sleeps, and the start counter is the number of
  // workers that have not left.
  ghost predicate Bookkeeping(s: System) {
    && (!s.pool.mode.Open? ==> Count(s.workers, IsAsleep) == 0)
    && s.pool.started == Count(s.workers, IsAlive)
    && |s.pool.queue| <= s.pool.capacity
  }

  ghost predicate Fifo(s: System) {
    s.accepted == s.taken + s.pool.queue
  }

  ghost predicate HeldBy(ws: seq<Worker>, k: nat) {
    exists i :: 0 <= i < |ws| && ws[i].Busy? && ws[i].ticket == k
  }

  ghost predicate Called(calls: seq<Call>, k: nat) {
    exists j :: 0 <= j < |calls| && calls[j].ticket == k
  }

  // A busy worker holds a task that was dequeued, and no two hold the same.
  ghost predicate Held(ws: seq<Worker>, taken: seq<Task>) {
    && (forall i | 0 <= i < |ws| && ws[i].Busy? :: ws[i].ticket < |taken| && taken[ws[i].ticket] == ws[i].task)
    && (forall i, j | 0 <= i < j < |ws| && ws[i].Busy? && ws[j].Busy? :: ws[i].ticket != ws[j].ticket)
  }

  // A call had the routine and argument of a dequeued task, and no task was
  // called twice.
  ghost predicate Logged(calls: seq<Call>, taken: seq<Task>) {
    && (forall j | 0 <= j < |calls| ::
          calls[j].ticket < |taken| && taken[calls[j].ticket] == Task(calls[j].routine, calls[j].argument))
    && (forall i, j | 0 <= i < j < |calls| :: calls[i].ticket != calls[j].ticket)
  }

  // Every dequeued task is with exactly one worker or has been called exactly
  // once, never both.
  ghost predicate ExactlyOnce(s: System) {
    && Held(s.workers, s.taken)
    && Logged(s.calls, s.taken)
    && (forall k: nat | k < |s.taken| :: HeldBy(s.workers, k) <==> !Called(s.calls, k))
  }

  // Workers leave only an immediate pool or a graceful one with nothing to do.
  ghost predicate LeftWhenDone(s: System) {
    forall i | 0 <= i < |s.workers| && s.workers[i].Exited? ::
      s.pool.mode.Immediate? || (s.pool.mode.Graceful? && s.pool.queue == [])
  }

  ghost predicate Inv(s: System) {
    NoLostWakeup(s) && Bookkeeping(s) && LeftWhenDone(s) && Fifo(s) && ExactlyOnce(s)
  }

  lemma StartInv(threads: nat, size: nat)
    ensures Inv(Start(threads, size))
  {
    var ws := Start(threads, size).workers;
    CountPositive(ws, IsAsleep);
    CountAllAlive(ws);
  }

  lemma {:induction false} CountAllAlive(ws: seq<Worker>)
    requires forall i | 0 <= i < |ws| :: ws[i].AtLock?
    ensures Count(ws, IsAlive) == |ws|
  {
    if ws != [] {
      CountAllAlive(ws[1..]);
    }
  }

  lemma WakeKeeps(s: System, step: Step)
    requires Inv(s) && Enabled(s, step) && (step.Submit? || step.Destroy?)
    ensures NoLostWakeup(Apply(s, step)) && Bookkeeping(Apply(s, step)) && LeftWhenDone(Apply(s, step))
  {
    var s' := Apply(s, step);
    CountPositive(s.workers, IsAsleep);
    CountPositive(s'.workers, IsAsleep);
    CountWake(s.workers, s'.workers);
    if step.Submit? && AddTask(s.pool, step.task).1 == Added {
      if i :| i in step.woken {
        assert s'.workers[i] != s.workers[i];
      } else {
        assert forall i: nat | i < |s.workers| :: i !in Sleepers(s.workers, IsAsleep);
      }
    }
  }

  lemma WorkerKeeps(s: System, step: Step)
    requires Inv(s) && Enabled(s, step) && !step.Submit? && !step.Destroy?
    ensures NoLostWakeup(Apply(s, step)) && Bookkeeping(Apply(s, step)) && LeftWhenDone(Apply(s, step))
  {
    var i := step.worker;
    var w := Apply(s, step).workers[i];
    CountPositive(s.workers, IsAsleep);
    CountUpdate(s.workers, i, w, IsReady);
    CountUpdate(s.workers, i, w, IsAsleep);
    CountUpdate(s.workers, i, w, IsAlive);
  }

  // Steps that leave every busy worker alone.
  lemma QuietKeepsTickets(s: System, s': System)
    requires ExactlyOnce(s) && s'.taken == s.taken && s'.calls == s.calls && |s'.workers| == |s.workers|
    requires forall i | 0 <= i < |s.workers| ::
               (s.workers[i].Busy? || s'.workers[i].Busy?) ==> s'.workers[i] == s.workers[i]
    ensures ExactlyOnce(s')
  {
    forall k: nat | k < |s.taken|
      ensures HeldBy(s'.workers, k) <==> HeldBy(s.workers, k)
    {
      if i :| 0 <= i < |s.workers| && s.workers[i].Busy? && s.workers[i].ticket == k {
        assert s'.workers[i].Busy?;
      }
      if i :| 0 <= i < |s.workers| && s'.workers[i].Busy? && s'.workers[i].ticket == k {
        assert s.workers[i].Busy?;
      }
    }
  }

  lemma TakingKeepsTickets(s: System, i: nat)
    requires ExactlyOnce(s) && Enabled(s, Locked(i)) && TakeTurn(s.pool).1.Run?
    ensures ExactlyOnce(Apply(s, Locked(i)))
  {
    var s' := Apply(s, Locked(i));
    var ticket := |s.taken|;
    assert s'.workers[i].ticket == ticket;
    assert HeldBy(s'.workers, ticket) && !Called(s.calls, ticket);
    forall k: nat | k < ticket
      ensures HeldBy(s'.workers, k) <==> HeldBy(s.workers, k)
    {
      if w :| 0 <= w < |s.workers| && s.workers[w].Busy? && s.workers[w].ticket == k {
        assert s'.workers[w] == s.workers[w];
      }
      if w :| 0 <= w < |s.workers| && s'.workers[w].Busy? && s'.workers[w].ticket == k {
        assert s'.workers[w] == s.workers[w];
      }
    }
  }

  lemma FinishingKeepsTickets(s: System, i: nat)
    requires ExactlyOnce(s) && Enabled(s, Finish(i))
    ensures ExactlyOnce(Apply(s, Finish(i)))
  {
    var s' := Apply(s, Finish(i));
    var ticket := s.workers[i].ticket;
    assert HeldBy(s.workers, ticket);
    assert s'.calls[|s.calls|].ticket == ticket;
    forall w | 0 <= w < |s'.workers| && s'.workers[w].Busy?
      ensures s'.workers[w] == s.workers[w] && s'.workers[w].ticket != ticket
    {
      assert w < i || i < w;
    }
    forall k: nat | k < |s.taken| && k != ticket
      ensures HeldBy(s'.workers, k) <==> HeldBy(s.workers, k)
      ensures Called(s'.calls, k) <==> Called(s.calls, k)
    {
      if w :| 0 <= w < |s.workers| && s.workers[w].Busy? && s.workers[w].ticket == k {
        assert s'.workers[w] == s.workers[w];
      }
      if j :| 0 <= j < |s.calls| && s.calls[j].ticket == k {
        assert s'.calls[j].ticket == k;
      }
    }
  }

  lemma TicketsKeep(s: System, step: Step)
    requires ExactlyOnce(s) && Enabled(s, step)
    ensures ExactlyOnce(Apply(s, step))
  {
    if step.Finish? {
      FinishingKeepsTickets(s, step.worker);
    } else if step.Locked? && TakeTurn(s.pool).1.Run? {
      TakingKeepsTickets(s, step.worker);
    } else {
      QuietKeepsTickets(s, Apply(s, step));
    }
  }

  lemma StepKeepsInv(s: System, step: Step)
    requires Inv(s) && Enabled(s, step)
    ensures Inv(Apply(s, step))
  {
    if step.Submit? || step.Destroy? {
      WakeKeeps(s, step);
    } else {
      WorkerKeeps(s, step);
    }
    TicketsKeep(s, step);
  }

  lemma {:induction false} RunKeepsInv(s: System, steps: seq<Step>)
    requires Inv(s) && CanRun(s, steps)
    ensures Inv(After(s, steps))
    ensures |After(s, steps).workers| == |s.workers|
    decreases |steps|
  {
    if steps != [] {
      StepKeepsInv(s, steps[0]);
      RunKeepsInv(Apply(s, steps[0]), steps[1..]);
    }
  }

  // ----- safety over every run -----

  // A state of some run of some pool that threadpool_create agrees to make.
  ghost predicate Reachable(s: System) {
    exists threads: nat, size: nat, steps: seq<Step> ::
      && 0 < threads <= MAX_THREADS && 0 < size <= MAX_QUEUE
      && CanRun(Start(threads, size), steps) && s == After(Start(threads, size), steps)
  }

  lemma ReachableInv(s: System)
    requires Reachable(s)
    ensures Inv(s) && s.workers != []
  {
    var threads: nat, size: nat, steps: seq<Step> :|
      && 0 < threads <= MAX_THREADS && 0 < size <= MAX_QUEUE
      && CanRun(Start(threads, size), steps) && s == After(Start(threads, size), steps);
    StartInv(threads, size);
    RunKeepsInv(Start(threads, size), steps);
  }

  // The queue is never left with everyone asleep, whatever the interleaving
  // and whatever spurious wake-ups occur: someone is on the way to the lock or
  // still at work, and if anyone sleeps, at least as many workers as there are
  // tasks are on the way.
  lemma NoLostWakeupEver(s: System)
    requires Reachable(s) && s.pool.mode.Open? && s.pool.queue != []
    ensures exists i :: 0 <= i < |s.workers| && (s.workers[i].AtLock? || s.workers[i].Busy?)
    ensures Sleepers(s.workers, IsAsleep) != {} ==> |s.pool.queue| <= Count(s.workers, IsReady)
  {
    ReachableInv(s);
    CountPositive(s.workers, IsAsleep);
    CountPositive(s.workers, IsReady);
    assert !s.workers[0].Exited?;
    if i :| i in Sleepers(s.workers, IsAsleep) {
      assert IsAsleep(s.workers[i]);
      var k :| 0 <= k < |s.workers| && IsReady(s.workers[k]);
    } else {
      assert 0 !in Sleepers(s.workers, IsAsleep);
    }
  }

  // First in, first out, and exactly once.
  lemma FifoExactlyOnceEver(s: System)
    requires Reachable(s)
    ensures s.accepted == s.taken + s.pool.queue && |s.pool.queue| <= s.pool.capacity
    ensures ExactlyOnce(s)
  {
    ReachableInv(s);
  }

  // In every reachable state a submission is accepted exactly if it has a
  // routine, the pool is open and a place in the queue is free.
  lemma AcceptedIff(s: System, t: Task, woken: set<nat>)
    requires Reachable(s) && Enabled(s, Submit(t, woken))
    ensures var s' := Apply(s, Submit(t, woken));
      if t.routine != 0 && s.pool.mode.Open? && |s.pool.queue| < s.pool.capacity then
        s'.accepted == s.accepted + [t] && s'.pool == s.pool.(queue := s.pool.queue + [t])
      else
        s' == s
  {
    ReachableInv(s);
    if AddTask(s.pool, t).1 != Added {
      RejectedChangesNothing(s, t, woken);
    }
  }

  // A rejected submission changes nothing at all.
  lemma RejectedChangesNothing(s: System, t: Task, woken: set<nat>)
    requires Enabled(s, Submit(t, woken)) && AddTask(s.pool, t).1 != Added
    ensures Apply(s, Submit(t, woken)) == s
  {
    assert Woken(s.workers, {}, IsAsleep, AtLock) == s.workers;
  }

  // ----- shutdown -----

  // The number of worker steps left once shutdown has begun.
  function StepsLeft(s: System): nat {
    (if s.pool.mode.Graceful? then 2 * |s.pool.queue| else 0)
    + Count(s.workers, IsBusy) + Count(s.workers, IsAlive)
  }

  function WorkerSteps(steps: seq<Step>): nat {
    if steps == [] then 0
    else (if steps[0].Locked? || steps[0].Finish? then 1 else 0) + WorkerSteps(steps[1..])
  }

  ghost predicate Stuck(s: System) {
    forall i: nat :: !Enabled(s, Locked(i)) && !Enabled(s, Finish(i)) && !Enabled(s, Spurious(i))
  }

  // Closing: a submission is refused, nobody can sleep, and every worker step
  // uses up exactly one of the steps left.
  lemma ClosedStep(s: System, step: Step)
    requires Inv(s) && !s.pool.mode.Open? && Enabled(s, step)
    ensures !step.Spurious? && !step.Destroy?
    ensures step.Submit? ==> Apply(s, step) == s
    ensures Apply(s, step).pool.mode == s.pool.mode
    ensures Apply(s, step).accepted == s.accepted
    ensures s.pool.mode.Immediate? ==>
              Apply(s, step).taken == s.taken && Apply(s, step).pool.queue == s.pool.queue
    ensures !step.Submit? ==> StepsLeft(Apply(s, step)) == StepsLeft(s) - 1
  {
    CountPositive(s.workers, IsAsleep);
    if step.Submit? {
      RejectedChangesNothing(s, step.task, step.woken);
    } else {
      var i := step.worker;
      assert IsAsleep(s.workers[i]) <==> s.workers[i].Asleep?;
      var w := Apply(s, step).workers[i];
      CountUpdate(s.workers, i, w, IsBusy);
      CountUpdate(s.workers, i, w, IsAlive);
    }
  }

  lemma {:induction false} ClosedRun(s: System, steps: seq<Step>)
    requires Inv(s) && !s.pool.mode.Open? && CanRun(s, steps)
    ensures var e := After(s, steps);
      && Inv(e) && e.pool.mode == s.pool.mode && e.accepted == s.accepted && |e.workers| == |s.workers|
      && (s.pool.mode.Immediate? ==> e.taken == s.taken && e.pool.queue == s.pool.queue)
      && WorkerSteps(steps) + StepsLeft(e) == StepsLeft(s)
    decreases |steps|
  {
    if steps != [] {
      ClosedStep(s, steps[0]);
      StepKeepsInv(s, steps[0]);
      ClosedRun(Apply(s, steps[0]), steps[1..]);
    }
  }

  ghost predicate AllGone(s: System) {
    forall i | 0 <= i < |s.workers| :: s.workers[i].Exited?
  }

  // Shutdown cannot deadlock: while a worker is left, some worker can move.
  lemma StuckMeansGone(s: System)
    requires Inv(s) && !s.pool.mode.Open?
    ensures Stuck(s) <==> AllGone(s)
  {
    CountPositive(s.workers, IsAsleep);
    if Stuck(s) {
      forall i: nat | i < |s.workers|
        ensures s.workers[i].Exited?
      {
        assert !Enabled(s, Locked(i)) && !Enabled(s, Finish(i));
        assert IsAsleep(s.workers[i]) <==> s.workers[i].Asleep?;
      }
    }
  }

  // The two shutdown modes, from any reachable state and over every run that
  // follows. A graceful shutdown takes exactly StepsLeft worker steps; when it
  // is over every accepted task has been called, and threadpool_free finds no
  // started worker. An immediate one dequeues nothing more, and drops exactly
  // the tasks that were queued.
  lemma ShutdownEver(before: System, graceful: bool, steps: seq<Step>)
    requires Reachable(before) && before.pool.mode.Open?
    requires CanRun(before, [Destroy(graceful)] + steps)
    ensures var s := Apply(before, Destroy(graceful));
      var e := After(before, [Destroy(graceful)] + steps);
      && WorkerSteps(steps) <= StepsLeft(s)
      && e.accepted == before.accepted
      && (!graceful ==> e.taken == before.taken && e.pool.queue == before.pool.queue)
      && (Stuck(e) ==>
            && WorkerSteps(steps) == StepsLeft(s)
            && AllGone(e) && e.pool.started == 0
            && (graceful ==> e.taken == e.accepted)
            && Logged(e.calls, e.taken)
            && (forall k: nat | k < |e.taken| :: Called(e.calls, k)))
    ensures WorkerSteps(steps) == StepsLeft(Apply(before, Destroy(graceful))) ==>
              Stuck(After(before, [Destroy(graceful)] + steps))
  {
    var destroy := Destroy(graceful);
    var s := Apply(before, destroy);
    assert ([destroy] + steps)[1..] == steps && ([destroy] + steps)[0] == destroy;
    ReachableInv(before);
    StepKeepsInv(before, destroy);
    ClosedRun(s, steps);
    var e := After(s, steps);
    StuckMeansGone(e);
    CountPositive(e.workers, IsBusy);
    CountPositive(e.workers, IsAlive);
    if Stuck(e) {
      forall k: nat | k < |e.taken|
        ensures !HeldBy(e.workers, k)
      {
      }
      assert e.workers[0].Exited?;
    }
    if StepsLeft(e) == 0 {
      forall i | 0 <= i < |e.workers|
        ensures e.workers[i].Exited?
      {
        assert !IsAlive(e.workers[i]);
      }
    }
  }
}
