// The interleavings of the server's pool with its one producer, which submits
// a task and polls its slot.

module Handshake {
  import opened Waking
  import opened Options
  import opened WorkerPool
  import opened ResultPool

  // The ticket of a worker that is about to run a task is the submission it
  // dequeued, by its number in the order of acceptance.
  datatype Worker =
    | AtLock
    | Asleep
    | Holding(slot: nat, ticket: nat)  // released the lock, has not run the task
    | Computed(slot: nat, value: int)
    | Stored(slot: nat)
    | Leaving                          // left the loop without the lock
    | Counted(started: int)            // read the start counter, has not written it
    | Gone

  datatype Producer = Idle | Waiting(slot: nat)

  // A call made for the submission ticket ran the task of the submission ran,
  // which was the last to be stored in the slot.
  datatype Call = Call(ticket: nat, ran: nat, task: Task, value: int)

  // What a wait gives back, beside the task that was submitted last.
  datatype Answer = Answer(task: Task, value: int)

  // accepted, calls and returned are the histories of the run.
  datatype Raw = System(
    ring: Ring, workers: seq<Worker>, producer: Producer,
    accepted: seq<Task>, calls: seq<Call>, returned: seq<Answer>)

  predicate Holds(w: Worker) {
    w.Holding? || w.Computed? || w.Stored?
  }

  predicate SlotsInRange(s: Raw) {
    && s.ring.Valid()
    && (s.producer.Waiting? ==> s.producer.slot < |s.ring.slots|)
    && (forall i | 0 <= i < |s.workers| && Holds(s.workers[i]) :: s.workers[i].slot < |s.ring.slots|)
  }

  type System = s: Raw | SlotsInRange(s)
    witness System(Ring([Slot(Task(0, 0), None, false)], 0, 0, 0, 0, 0), [], Idle, [], [], [])

  // Forget breaks the discipline: the producer goes on without waiting.
  datatype Step =
    | Submit(task: Task, woken: set<nat>)
    | Return
    | Forget
    | Destroy
    | Locked(worker: nat)
    | Spurious(worker: nat)
    | Execute(worker: nat, value: int)
    | Store(worker: nat)
    | Complete(worker: nat)
    | Load(worker: nat)
    | Decrement(worker: nat)

  function Start(threads: nat, slots: seq<Slot>): System
    requires slots != []
  {
    System(Ring(slots, 0, 0, 0, 0, threads), seq(threads, _ => AtLock), Idle, [], [], [])
  }

  predicate IsAsleep(w: Worker) { w.Asleep? }

  // The submission that was last stored in slot k: the slots before the tail
  // hold the latest ones, each slot anew after a round of the ring.
  function Writer(s: Raw, k: nat): (w: Option<nat>)
    requires s.ring.tail < |s.ring.slots| && k < |s.ring.slots|
    ensures w.Some? ==> w.value < |s.accepted|
  {
    var n := |s.ring.slots|;
    var ahead := if k >= s.ring.tail then k - s.ring.tail else k + n - s.ring.tail;
    if |s.accepted| + ahead < n then None else Some(|s.accepted| + ahead - n)
  }

  ghost predicate Enabled(s: System, step: Step) {
    var ws := s.workers;
    match step
    case Submit(t, woken) =>
      var sleepers := Sleepers(ws, IsAsleep);
      && s.producer.Idle? && woken <= sleepers
      && (woken == {} <==> AddSlot(s.ring, t).1.Refused? || sleepers == {})
    case Return => s.producer.Waiting? && s.ring.slots[s.producer.slot].done
    case Forget => s.producer.Waiting?
    case Destroy => s.producer.Idle? && s.ring.shutdown == 0
    case Locked(i) => i < |ws| && ws[i].AtLock?
    case Spurious(i) => i < |ws| && ws[i].Asleep?
    case Execute(i, _) => i < |ws| && ws[i].Holding?
    case Store(i) => i < |ws| && ws[i].Computed?
    case Complete(i) => i < |ws| && ws[i].Stored?
    case Load(i) => i < |ws| && ws[i].Leaving?
    case Decrement(i) => i < |ws| && ws[i].Counted?
  }

  ghost function Submitted(s: System, t: Task, woken: set<nat>): System
    requires Enabled(s, Submit(t, woken))
  {
    var (r, reply) := AddSlot(s.ring, t);
    if reply.Refused? then s
    else s.(ring := r, workers := Woken(s.workers, woken, IsAsleep, AtLock), producer := Waiting(reply.slot),
            accepted := s.accepted + [t])
  }

  // The value that threadpool_wait reads from the slot.
  ghost function Returned(s: System): System
    requires Enabled(s, Return)
  {
    var slot := s.ring.slots[s.producer.slot];
    var value := if slot.result.Some? then slot.result.value else 0;
    var task := if s.accepted == [] then slot.task else s.accepted[|s.accepted| - 1];
    s.(producer := Idle, returned := s.returned + [Answer(task, value)])
  }

  // What worker i does with the lock.
  ghost function Turned(s: System, i: nat): System
    requires Enabled(s, Locked(i))
  {
    var (r, turn) := GrabSlot(s.ring);
    var ticket := if s.ring.count <= |s.accepted| then |s.accepted| - s.ring.count else 0;
    s.(ring := r,
       workers := s.workers[i := match turn
                                 case Doze => Asleep
                                 case Leave => Leaving
                                 case Grab(slot) => Holding(slot, ticket)])
  }

  ghost function Executed(s: System, i: nat, value: int): System
    requires Enabled(s, Execute(i, value))
  {
    var w := s.workers[i];
    var ran := match Writer(s, w.slot) case None => 0 case Some(j) => j;
    s.(workers := s.workers[i := Computed(w.slot, value)],
       calls := s.calls + [Call(w.ticket, ran, s.ring.slots[w.slot].task, value)])
  }

  // Worker i moves on to w and leaves slot behind in its place.
  ghost function Wrote(s: System, i: nat, slot: Slot, w: Worker): System
    requires i < |s.workers| && Holds(s.workers[i]) && (Holds(w) ==> w.slot == s.workers[i].slot)
  {
    s.(ring := s.ring.(slots := s.ring.slots[s.workers[i].slot := slot]), workers := s.workers[i := w])
  }

  ghost function Apply(s: System, step: Step): System
    requires Enabled(s, step)
  {
    match step
    case Submit(t, woken) => Submitted(s, t, woken)
    case Return => Returned(s)
    case Forget => s.(producer := Idle)
    case Destroy =>
      s.(ring := s.ring.(shutdown := 1), workers := Woken(s.workers, Sleepers(s.workers, IsAsleep), IsAsleep, AtLock))
    case Locked(i) => Turned(s, i)
    case Spurious(i) => s.(workers := s.workers[i := AtLock])
    case Execute(i, value) => Executed(s, i, value)
    case Store(i) =>
      var w := s.workers[i];
      Wrote(s, i, s.ring.slots[w.slot].(result := Some(w.value)), Stored(w.slot))
    case Complete(i) => Wrote(s, i, s.ring.slots[s.workers[i].slot].(done := true), AtLock)
    case Load(i) => s.(workers := s.workers[i := Counted(s.ring.started)])
    case Decrement(i) => s.(ring := s.ring.(started := s.workers[i].started - 1), workers := s.workers[i := Gone])
  }

  ghost predicate CanRun(s: System, steps: seq<Step>)
    decreases |steps|
  {
    steps != [] ==> Enabled(s, steps[0]) && CanRun(Apply(s, steps[0]), steps[1..])
  }

  ghost function After(s: System, steps: seq<Step>): (e: System)
    requires CanRun(s, steps)
    decreases |steps|
  {
    if steps == [] then s else After(Apply(s, steps[0]), steps[1..])
  }

  // ----- the discipline: add, then wait -----

  predicate Disciplined(steps: seq<Step>) {
    forall k | 0 <= k < |steps| :: !steps[k].Forget?
  }

  ghost predicate NoneHolds(ws: seq<Worker>) {
    forall i | 0 <= i < |ws| :: !Holds(ws[i])
  }

  ghost predicate OnlyHolder(ws: seq<Worker>, i: nat) {
    && i < |ws| && Holds(ws[i])
    && forall j | 0 <= j < |ws| && j != i :: !Holds(ws[j])
  }

  function Answers(calls: seq<Call>): (r: seq<Answer>)
    ensures |r| == |calls|
    ensures forall k | 0 <= k < |calls| :: r[k] == Answer(calls[k].task, calls[k].value)
  {
    seq(|calls|, k requires 0 <= k < |calls| => Answer(calls[k].task, calls[k].value))
  }

  // The call that answers the outstanding submission has been made.
  ghost predicate Answered(s: System, value: int) {
    s.accepted != [] && Answers(s.calls) == s.returned + [Answer(s.accepted[|s.accepted| - 1], value)]
  }

  ghost predicate InHand(s: System, i: nat)
    requires s.producer.Waiting?
  {
    && OnlyHolder(s.workers, i)
    && var w := s.workers[i]; var slot := s.ring.slots[w.slot];
    && w.slot == s.producer.slot && !slot.done
    && (match w
        case Holding(_, _) => Answers(s.calls) == s.returned
        case Computed(_, v) => Answered(s, v)
        case Stored(_) => slot.result.Some? && Answered(s, slot.result.value)
        case _ => false)
  }

  // The single outstanding task is in the queue, in one worker's hands, or
  // finished in its slot.
  ghost predicate Outstanding(s: System)
    requires s.producer.Waiting?
  {
    var slot := s.ring.slots[s.producer.slot];
    && |s.accepted| == |s.returned| + 1
    && slot.task == s.accepted[|s.accepted| - 1]
    && s.ring.shutdown == 0
    && ( || (s.ring.count == 1 && s.ring.head == s.producer.slot && !slot.done
             && NoneHolds(s.workers) && Answers(s.calls) == s.returned)
         || (s.ring.count == 0 && exists i: nat :: InHand(s, i))
         || (s.ring.count == 0 && NoneHolds(s.workers) && slot.done
             && slot.result.Some? && Answered(s, slot.result.value)))
  }

  ghost predicate Inv(s: System) {
    && |s.returned| <= |s.accepted|
    && (forall k | 0 <= k < |s.returned| :: s.returned[k].task == s.accepted[k])
    && (s.producer.Idle? ==>
          s.ring.count == 0 && NoneHolds(s.workers) && Answers(s.calls) == s.returned && |s.accepted| == |s.returned|)
    && (s.producer.Waiting? ==> Outstanding(s))
    && (s.ring.count > 0 && s.ring.shutdown == 0 ==>
          Sleepers(s.workers, IsAsleep) == {} || exists i :: 0 <= i < |s.workers| && s.workers[i].AtLock?)
    && (s.ring.shutdown == 0 ==> forall i | 0 <= i < |s.workers| :: !Left(s.workers[i]))
  }

  predicate Left(w: Worker) {
    w.Leaving? || w.Counted? || w.Gone?
  }

  lemma StartInv(threads: nat, slots: seq<Slot>)
    requires slots != []
    ensures Inv(Start(threads, slots))
  {
  }

  // Steps by which the task outside the queue moves on.
  lemma HolderKeepsInv(s: System, step: Step)
    requires Inv(s) && Enabled(s, step) && (step.Execute? || step.Store? || step.Complete?)
    ensures Inv(Apply(s, step))
  {
    var i := step.worker;
    var s' := Apply(s, step);
    assert Holds(s.workers[i]);
    assert InHand(s, i) by {
      var h: nat :| InHand(s, h);
      assert h == i;
    }
    if !step.Complete? {
      assert InHand(s', i);
    }
    AwakeStays(s, s', i);
  }

  // Worker i changed, and was not the one heading for the lock.
  lemma AwakeStays(s: System, s': System, i: nat)
    requires |s'.workers| == |s.workers| && i < |s.workers| && Holds(s.workers[i])
    requires s'.workers == s.workers[i := s'.workers[i]] && !s'.workers[i].Asleep?
    ensures Sleepers(s.workers, IsAsleep) == {} ==> Sleepers(s'.workers, IsAsleep) == {}
    ensures (exists k :: 0 <= k < |s.workers| && s.workers[k].AtLock?) ==>
              exists k :: 0 <= k < |s'.workers| && s'.workers[k].AtLock?
  {
    if k :| 0 <= k < |s.workers| && s.workers[k].AtLock? {
      assert s'.workers[k].AtLock?;
    }
  }

  lemma LockedKeepsInv(s: System, i: nat)
    requires Inv(s) && Enabled(s, Locked(i))
    ensures Inv(Apply(s, Locked(i)))
  {
    var s' := Apply(s, Locked(i));
    if s.producer.Waiting? {
      if GrabSlot(s.ring).1.Grab? {
        assert InHand(s', i);
      } else if h: nat :| InHand(s, h) {
        assert InHand(s', h);
      }
    }
  }

  lemma SubmitKeepsInv(s: System, t: Task, woken: set<nat>)
    requires Inv(s) && Enabled(s, Submit(t, woken))
    ensures Inv(Apply(s, Submit(t, woken)))
  {
    var s' := Apply(s, Submit(t, woken));
    if AddSlot(s.ring, t).1.Accepted? {
      if i :| i in woken {
        assert s'.workers[i].AtLock?;
      }
    }
  }

  lemma OtherKeepsInv(s: System, step: Step)
    requires Inv(s) && Enabled(s, step)
    requires step.Return? || step.Destroy? || step.Spurious? || step.Load? || step.Decrement?
    ensures Inv(Apply(s, step))
  {
    var s' := Apply(s, step);
    if step.Spurious? && s.producer.Waiting? {
      assert s'.workers[step.worker].AtLock?;
      if h: nat :| InHand(s, h) {
        assert InHand(s', h);
      }
    }
  }

  lemma StepKeepsInv(s: System, step: Step)
    requires Inv(s) && Enabled(s, step) && !step.Forget?
    ensures Inv(Apply(s, step))
  {
    match step {
      case Submit(t, woken) => SubmitKeepsInv(s, t, woken);
      case Locked(i) => LockedKeepsInv(s, i);
      case Execute(_, _) => HolderKeepsInv(s, step);
      case Store(_) => HolderKeepsInv(s, step);
      case Complete(_) => HolderKeepsInv(s, step);
      case _ => OtherKeepsInv(s, step);
    }
  }

  lemma {:induction false} RunKeepsInv(s: System, steps: seq<Step>)
    requires Inv(s) && CanRun(s, steps) && Disciplined(steps)
    ensures Inv(After(s, steps))
    decreases |steps|
  {
    if steps != [] {
      StepKeepsInv(s, steps[0]);
      RunKeepsInv(Apply(s, steps[0]), steps[1..]);
    }
  }

  // ----- what the producer may rely on -----

  // A state of a run whose producer waits for each of its submissions.
  ghost predicate DisciplinedState(s: System) {
    exists threads: nat, slots: seq<Slot>, steps: seq<Step> ::
      && slots != [] && CanRun(Start(threads, slots), steps) && Disciplined(steps)
      && s == After(Start(threads, slots), steps)
  }

  lemma DisciplinedInv(s: System)
    requires DisciplinedState(s)
    ensures Inv(s)
  {
    var threads: nat, slots: seq<Slot>, steps: seq<Step> :|
      && slots != [] && CanRun(Start(threads, slots), steps) && Disciplined(steps)
      && s == After(Start(threads, slots), steps);
    StartInv(threads, slots);
    RunKeepsInv(Start(threads, slots), steps);
  }

  // threadpool_wait gives back the value that the one call of this
  // submission's own task computed, and so did every wait before it.
  lemma WaitReturnsOwnResult(s: System)
    requires DisciplinedState(s) && Enabled(s, Return)
    ensures var s' := Apply(s, Return);
      && s'.returned == Answers(s'.calls) && |s'.calls| == |s'.accepted|
      && s.ring.slots[s.producer.slot].result.Some? && s'.calls != []
      && s'.calls[|s'.calls| - 1].value == s.ring.slots[s.producer.slot].result.value
      && forall k | 0 <= k < |s'.calls| :: s'.calls[k].task == s'.accepted[k]
  {
    DisciplinedInv(s);
    StepKeepsInv(s, Return);
  }

  // While the producer waits nothing rewrites the slot's task, nothing else is
  // submitted, and the slot is done only when its result is there.
  lemma SlotStays(s: System, step: Step)
    requires DisciplinedState(s) && Enabled(s, step) && s.producer.Waiting? && !step.Return? && !step.Forget?
    ensures var s' := Apply(s, step); var slot := s.ring.slots[s.producer.slot];
      && s'.producer == s.producer && s'.accepted == s.accepted
      && s.accepted != [] && s.producer.slot < |s'.ring.slots|
      && s'.ring.slots[s.producer.slot].task == slot.task == s.accepted[|s.accepted| - 1]
      && (slot.done ==> s'.ring.slots[s.producer.slot] == slot)
    ensures |s.accepted| - |s.returned| == 1
  {
    DisciplinedInv(s);
    if step.Execute? || step.Store? || step.Complete? {
      assert Holds(s.workers[step.worker]);
    }
  }

  // When the server destroys its pool the ring is empty: every task it ever
  // submitted has been run and its result collected.
  lemma NothingLostAtDestroy(s: System)
    requires DisciplinedState(s) && Enabled(s, Destroy)
    ensures s.ring.count == 0 && NoneHolds(s.workers) && s.returned == Answers(s.calls)
    ensures |s.calls| == |s.accepted| && forall k | 0 <= k < |s.calls| :: s.calls[k].task == s.accepted[k]
  {
    DisciplinedInv(s);
  }

  // How far the outstanding task still is from being done.
  ghost function Distance(s: System): nat
    requires Inv(s) && s.producer.Waiting?
  {
    if s.ring.count == 1 then 4
    else if exists i: nat :: InHand(s, i) then
      var i: nat :| InHand(s, i);
      (match s.workers[i] case Holding(_, _) => 3 case Computed(_, _) => 2 case _ => 1)
    else 0
  }

  lemma HolderIsUnique(s: System, i: nat)
    requires Inv(s) && s.producer.Waiting? && InHand(s, i)
    ensures Distance(s) == match s.workers[i] case Holding(_, _) => 3 case Computed(_, _) => 2 case _ => 1
  {
    forall j: nat | InHand(s, j)
      ensures j == i
    {
      assert Holds(s.workers[j]);
    }
  }

  // The wait cannot hang: as long as it is not over some worker can bring it
  // one step closer.
  lemma WaitProgresses(s: System) returns (step: Step)
    requires DisciplinedState(s) && s.producer.Waiting? && s.workers != []
    requires !Enabled(s, Return)
    ensures step.Locked? || step.Execute? || step.Store? || step.Complete?
    ensures Enabled(s, step) && Inv(s) && Inv(Apply(s, step)) && Apply(s, step).producer == s.producer
    ensures Distance(Apply(s, step)) < Distance(s)
  {
    DisciplinedInv(s);
    if s.ring.count == 1 {
      assert 0 in Sleepers(s.workers, IsAsleep) || s.workers[0].AtLock?;
      var i :| 0 <= i < |s.workers| && s.workers[i].AtLock?;
      step := Locked(i);
      StepKeepsInv(s, step);
      assert InHand(Apply(s, step), i);
      HolderIsUnique(Apply(s, step), i);
    } else {
      var i: nat :| InHand(s, i);
      step := match s.workers[i]
              case Holding(_, _) => Execute(i, 0)
              case Computed(_, _) => Store(i)
              case _ => Complete(i);
      HolderIsUnique(s, i);
      StepKeepsInv(s, step);
      if !step.Complete? {
        HolderIsUnique(Apply(s, step), i);
      }
    }
  }

  // And no step takes it further away.
  lemma NoStepSetsBack(s: System, step: Step)
    requires DisciplinedState(s) && s.producer.Waiting? && Enabled(s, step) && !step.Return? && !step.Forget?
    ensures Inv(s) && Inv(Apply(s, step)) && Apply(s, step).producer == s.producer
    ensures Distance(Apply(s, step)) <= Distance(s)
  {
    DisciplinedInv(s);
    StepKeepsInv(s, step);
    SlotStays(s, step);
    var s' := Apply(s, step);
    if s'.ring.count == 0 {
      if i: nat :| InHand(s', i) {
        HolderIsUnique(s', i);
        if s.ring.count == 0 {
          var h: nat :| InHand(s, h);
          HolderIsUnique(s, h);
          assert Holds(s'.workers[i]);
          assert h == i;
        }
      }
    }
  }

  ghost predicate AllGone(s: System) {
    forall i | 0 <= i < |s.workers| :: s.workers[i].Gone?
  }

  // ----- leaving the pool -----

  lemma Prepend(s: System, step: Step, rest: seq<Step>)
    requires Enabled(s, step) && CanRun(Apply(s, step), rest)
    ensures CanRun(s, [step] + rest)
    ensures After(s, [step] + rest) == After(Apply(s, step), rest)
  {
    assert ([step] + rest)[0] == step && ([step] + rest)[1..] == rest;
  }

  // The workers k, k+1, ... leave one after the other.
  lemma {:induction false} OneByOne(s: System, k: nat) returns (steps: seq<Step>)
    requires s.ring.shutdown == 1 && k <= |s.workers|
    requires forall i | 0 <= i < |s.workers| :: s.workers[i] == if i < k then Gone else AtLock
    ensures CanRun(s, steps) && AllGone(After(s, steps))
    ensures After(s, steps).ring.started == s.ring.started - (|s.workers| - k)
    decreases |s.workers| - k
  {
    if k == |s.workers| {
      steps := [];
    } else {
      var s1 := Apply(s, Locked(k));
      var s2 := Apply(s1, Load(k));
      var s3 := Apply(s2, Decrement(k));
      var rest := OneByOne(s3, k + 1);
      Prepend(s2, Decrement(k), rest);
      Prepend(s1, Load(k), [Decrement(k)] + rest);
      Prepend(s, Locked(k), [Load(k)] + ([Decrement(k)] + rest));
      steps := [Locked(k)] + ([Load(k)] + ([Decrement(k)] + rest));
    }
  }

  lemma Race(s: System) returns (steps: seq<Step>)
    requires s.ring.shutdown == 1 && 2 <= |s.workers| == s.ring.started
    requires forall i | 0 <= i < |s.workers| :: s.workers[i] == if i < 2 then Leaving else AtLock
    ensures CanRun(s, steps) && AllGone(After(s, steps)) && After(s, steps).ring.started == 1
  {
    var s4 := Apply(s, Load(0));
    var s5 := Apply(s4, Load(1));
    var s6 := Apply(s5, Decrement(0));
    var s7 := Apply(s6, Decrement(1));
    var r7 := OneByOne(s7, 2);
    Prepend(s6, Decrement(1), r7);
    var r6 := [Decrement(1)] + r7;
    Prepend(s5, Decrement(0), r6);
    var r5 := [Decrement(0)] + r6;
    Prepend(s4, Load(1), r5);
    var r4 := [Load(1)] + r5;
    Prepend(s, Load(0), r4);
    steps := [Load(0)] + r4;
  }

  // Two workers that read the counter before either writes it: one decrement
  // is lost.
  lemma LostDecrement(threads: nat, slots: seq<Slot>) returns (steps: seq<Step>)
    requires 2 <= threads && slots != []
    ensures CanRun(Start(threads, slots), steps) && AllGone(After(Start(threads, slots), steps))
    ensures After(Start(threads, slots), steps).ring.started == 1
  {
    var s0 := Start(threads, slots);
    var s1 := Apply(s0, Destroy);
    var s2 := Apply(s1, Locked(0));
    var s3 := Apply(s2, Locked(1));
    var r3 := Race(s3);
    Prepend(s2, Locked(1), r3);
    var r2 := [Locked(1)] + r3;
    Prepend(s1, Locked(0), r2);
    Prepend(s0, Destroy, [Locked(0)] + r2);
    steps := [Destroy] + ([Locked(0)] + r2);
  }

  ghost predicate Exact(s: System) {
    && SlotsInRange(s) && |s.workers| == 1
    && s.ring.started == (if s.workers[0].Gone? then 0 else 1)
    && (s.workers[0].Counted? ==> s.workers[0].started == 1)
  }

  lemma {:induction false} OneWorkerIsExact(s: System, steps: seq<Step>)
    requires Exact(s) && CanRun(s, steps)
    ensures Exact(After(s, steps))
    decreases |steps|
  {
    if steps != [] {
      assert Exact(Apply(s, steps[0]));
      OneWorkerIsExact(Apply(s, steps[0]), steps[1..]);
    }
  }

  // Leaving workers decrement the start counter after releasing the lock, so
  // the counter that makes threadpool_free proceed is certain to reach zero
  // exactly for a pool of one worker.
  lemma FreeProceedsIffOneWorker(threads: nat, slots: seq<Slot>)
    requires 0 < threads && slots != []
    ensures (forall steps | CanRun(Start(threads, slots), steps) && AllGone(After(Start(threads, slots), steps)) ::
               !(After(Start(threads, slots), steps).ring.started > 0))
            <==> threads == 1
  {
    if threads == 1 {
      forall steps | CanRun(Start(threads, slots), steps) && AllGone(After(Start(threads, slots), steps))
        ensures !(After(Start(threads, slots), steps).ring.started > 0)
      {
        OneWorkerIsExact(Start(threads, slots), steps);
      }
    } else {
      var steps := LostDecrement(threads, slots);
    }
  }
}
