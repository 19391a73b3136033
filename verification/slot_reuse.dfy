// What a run of the server's pool does if its producer need not wait: which
// submission a call really runs, and when that is the submission it is for.

module SlotReuse {
  import opened Options
  import opened WorkerPool
  import opened ResultPool
  import opened Handshake

  // How many submissions have been dequeued.
  function Dequeued(s: System): int {
    |s.accepted| - s.ring.count
  }

  // ----- every dequeued submission has one call -----

  ghost predicate HeldBy(ws: seq<Worker>, k: nat) {
    exists i :: 0 <= i < |ws| && ws[i].Holding? && ws[i].ticket == k
  }

  ghost predicate Called(calls: seq<Call>, k: nat) {
    exists j :: 0 <= j < |calls| && calls[j].ticket == k
  }

  ghost predicate TicketsDiffer(ws: seq<Worker>, calls: seq<Call>) {
    && (forall i, j | 0 <= i < j < |ws| && ws[i].Holding? && ws[j].Holding? :: ws[i].ticket != ws[j].ticket)
    && (forall i, j | 0 <= i < j < |calls| :: calls[i].ticket != calls[j].ticket)
  }

  // Every dequeued submission is with exactly one worker or has had exactly
  // one call, never both; and there are no others.
  ghost predicate OneCallEach(s: System) {
    && 0 <= Dequeued(s) && TicketsDiffer(s.workers, s.calls)
    && (forall i | 0 <= i < |s.workers| && s.workers[i].Holding? :: s.workers[i].ticket < Dequeued(s))
    && (forall j | 0 <= j < |s.calls| :: s.calls[j].ticket < Dequeued(s))
    && (forall k: nat | k < Dequeued(s) :: HeldBy(s.workers, k) <==> !Called(s.calls, k))
  }

  // ----- which submission is in a slot -----

  // A slot holds the task last stored in it; a worker's slot has not been
  // given to an earlier submission than the worker's own; a call ran the task
  // of some submission, its own or a later one.
  ghost predicate SlotsWritten(s: System) {
    && (forall k | 0 <= k < |s.ring.slots| && Writer(s, k).Some? ::
          s.ring.slots[k].task == s.accepted[Writer(s, k).value])
    && (forall i | 0 <= i < |s.workers| && s.workers[i].Holding? ::
          Writer(s, s.workers[i].slot).Some? && s.workers[i].ticket <= Writer(s, s.workers[i].slot).value)
    && (forall j | 0 <= j < |s.calls| ::
          s.calls[j].ticket <= s.calls[j].ran < |s.accepted| && s.calls[j].task == s.accepted[s.calls[j].ran])
  }

  ghost predicate Books(s: System) {
    OneCallEach(s) && SlotsWritten(s)
  }

  lemma StartBooks(threads: nat, slots: seq<Slot>)
    requires slots != []
    ensures Books(Start(threads, slots)) && OwnTasks(Start(threads, slots))
  {
  }

  // A worker that has not started its task still finds it in the slot, and
  // every call was made with the task it was for.
  ghost predicate OwnTasks(s: System)
  {
    && (forall i | 0 <= i < |s.workers| && s.workers[i].Holding? ::
          Writer(s, s.workers[i].slot) == Some(s.workers[i].ticket))
    && (forall j | 0 <= j < |s.calls| :: s.calls[j].ran == s.calls[j].ticket)
  }

  // The submission takes a slot whose last task a worker has yet to run.
  ghost predicate Overwrites(s: System, step: Step) {
    && step.Submit? && AddSlot(s.ring, step.task).1.Accepted?
    && exists i :: 0 <= i < |s.workers| && s.workers[i].Holding? && s.workers[i].slot == s.ring.tail
  }

  ghost predicate EverOverwrites(s: System, steps: seq<Step>)
    requires CanRun(s, steps)
    decreases |steps|
  {
    steps != [] && (Overwrites(s, steps[0]) || EverOverwrites(Apply(s, steps[0]), steps[1..]))
  }

  // ----- each step -----

  lemma WriterAfterSubmit(s: System, t: Task, woken: set<nat>, k: nat)
    requires Enabled(s, Submit(t, woken)) && AddSlot(s.ring, t).1.Accepted? && k < |s.ring.slots|
    ensures var s' := Apply(s, Submit(t, woken));
      Writer(s', k) == if k == s.ring.tail then Some(|s.accepted|) else Writer(s, k)
  {
  }

  // The head of the queue was stored by the submission whose turn it is.
  lemma WriterOfQueued(s: System, i: nat)
    requires 0 <= Dequeued(s) && i < s.ring.count
    ensures var k := if s.ring.head + i < |s.ring.slots| then s.ring.head + i else s.ring.head + i - |s.ring.slots|;
      k < |s.ring.slots| && Writer(s, k) == Some(Dequeued(s) + i)
  {
  }

  lemma SubmitKeepsBooks(s: System, t: Task, woken: set<nat>)
    requires Books(s) && Enabled(s, Submit(t, woken)) && AddSlot(s.ring, t).1.Accepted?
    ensures var s' := Apply(s, Submit(t, woken));
      Books(s') && (OwnTasks(s') <==> OwnTasks(s) && !Overwrites(s, Submit(t, woken)))
  {
    var s' := Apply(s, Submit(t, woken));
    forall k: nat | k < |s.ring.slots|
      ensures Writer(s', k) == if k == s.ring.tail then Some(|s.accepted|) else Writer(s, k)
    {
      WriterAfterSubmit(s, t, woken, k);
    }
    hide Writer;
    SameHolders(s, s');
  }

  // Steps that neither take a task nor run one.
  lemma SameHolders(s: System, s': System)
    requires OneCallEach(s) && Dequeued(s') == Dequeued(s) && s'.calls == s.calls && |s'.workers| == |s.workers|
    requires forall i | 0 <= i < |s.workers| ::
               (s.workers[i].Holding? || s'.workers[i].Holding?) ==> s'.workers[i] == s.workers[i]
    ensures OneCallEach(s')
  {
    forall k: nat | k < Dequeued(s)
      ensures HeldBy(s'.workers, k) <==> HeldBy(s.workers, k)
    {
      if i :| 0 <= i < |s.workers| && s.workers[i].Holding? && s.workers[i].ticket == k {
        assert s'.workers[i].Holding?;
      }
      if i :| 0 <= i < |s.workers| && s'.workers[i].Holding? && s'.workers[i].ticket == k {
        assert s.workers[i].Holding?;
      }
    }
  }

  lemma GrabKeepsBooks(s: System, i: nat)
    requires Books(s) && Enabled(s, Locked(i)) && GrabSlot(s.ring).1.Grab?
    ensures Books(Apply(s, Locked(i))) && (OwnTasks(Apply(s, Locked(i))) <==> OwnTasks(s))
  {
    var s' := Apply(s, Locked(i));
    var ticket := Dequeued(s);
    WriterOfQueued(s, 0);
    assert s'.workers[i] == Holding(s.ring.head, ticket);
    assert forall k: nat | k < |s.ring.slots| :: Writer(s', k) == Writer(s, k);
    hide Writer;
    GrabKeepsCalls(s, i);
    if OwnTasks(s') {
      forall w | 0 <= w < |s.workers| && s.workers[w].Holding?
        ensures Writer(s, s.workers[w].slot) == Some(s.workers[w].ticket)
      {
        assert s'.workers[w] == s.workers[w];
      }
    }
  }

  lemma GrabKeepsCalls(s: System, i: nat)
    requires OneCallEach(s) && Enabled(s, Locked(i)) && GrabSlot(s.ring).1.Grab?
    ensures OneCallEach(Apply(s, Locked(i)))
  {
    var s' := Apply(s, Locked(i));
    var ticket := Dequeued(s);
    assert s'.workers[i].ticket == ticket;
    assert HeldBy(s'.workers, ticket) && !Called(s.calls, ticket);
    forall k: nat | k < ticket
      ensures HeldBy(s'.workers, k) <==> HeldBy(s.workers, k)
    {
      if w :| 0 <= w < |s.workers| && s.workers[w].Holding? && s.workers[w].ticket == k {
        assert s'.workers[w] == s.workers[w];
      }
      if w :| 0 <= w < |s.workers| && s'.workers[w].Holding? && s'.workers[w].ticket == k {
        assert s'.workers[w] == s.workers[w];
      }
    }
  }

  lemma ExecuteKeepsCalls(s: System, i: nat, value: int)
    requires OneCallEach(s) && Enabled(s, Execute(i, value))
    ensures OneCallEach(Apply(s, Execute(i, value)))
  {
    var s' := Apply(s, Execute(i, value));
    var ticket := s.workers[i].ticket;
    assert HeldBy(s.workers, ticket);
    assert s'.calls[|s.calls|].ticket == ticket;
    forall w | 0 <= w < |s'.workers| && s'.workers[w].Holding?
      ensures s'.workers[w] == s.workers[w] && s'.workers[w].ticket != ticket
    {
      assert w < i || i < w;
    }
    forall k: nat | k < Dequeued(s) && k != ticket
      ensures HeldBy(s'.workers, k) <==> HeldBy(s.workers, k)
      ensures Called(s'.calls, k) <==> Called(s.calls, k)
    {
      if w :| 0 <= w < |s.workers| && s.workers[w].Holding? && s.workers[w].ticket == k {
        assert s'.workers[w] == s.workers[w];
      }
      if j :| 0 <= j < |s.calls| && s.calls[j].ticket == k {
        assert s'.calls[j].ticket == k;
      }
    }
  }

  lemma ExecuteKeepsBooks(s: System, i: nat, value: int)
    requires Books(s) && Enabled(s, Execute(i, value))
    ensures var s' := Apply(s, Execute(i, value)); Books(s') && (OwnTasks(s') <==> OwnTasks(s))
  {
    var s' := Apply(s, Execute(i, value));
    assert forall k: nat | k < |s.ring.slots| :: Writer(s', k) == Writer(s, k);
    hide Writer;
    ExecuteKeepsCalls(s, i, value);
    assert s'.calls[|s.calls|].ticket == s.workers[i].ticket;
    if OwnTasks(s') {
      assert forall j | 0 <= j < |s.calls| :: s'.calls[j] == s.calls[j];
      forall w | 0 <= w < |s.workers| && s.workers[w].Holding?
        ensures Writer(s, s.workers[w].slot) == Some(s.workers[w].ticket)
      {
        assert w != i ==> s'.workers[w] == s.workers[w];
      }
    }
  }

  lemma OtherKeepsBooks(s: System, step: Step)
    requires Books(s) && Enabled(s, step) && !step.Execute?
    requires step.Submit? ==> AddSlot(s.ring, step.task).1.Refused?
    requires step.Locked? ==> !GrabSlot(s.ring).1.Grab?
    ensures Books(Apply(s, step)) && (OwnTasks(Apply(s, step)) <==> OwnTasks(s))
  {
    var s' := Apply(s, step);
    assert |s'.ring.slots| == |s.ring.slots| && s'.ring.tail == s.ring.tail && s'.accepted == s.accepted;
    assert forall k: nat | k < |s.ring.slots| :: Writer(s', k) == Writer(s, k);
    hide Writer;
    SameHolders(s, s');
  }

  // The submission a call runs is the one it is for as long as no slot is
  // taken from under a worker, and never again afterwards.
  lemma StepKeepsBooks(s: System, step: Step)
    requires Books(s) && Enabled(s, step)
    ensures Books(Apply(s, step))
    ensures OwnTasks(Apply(s, step)) <==> OwnTasks(s) && !Overwrites(s, step)
  {
    if step.Submit? && AddSlot(s.ring, step.task).1.Accepted? {
      SubmitKeepsBooks(s, step.task, step.woken);
    } else if step.Locked? && GrabSlot(s.ring).1.Grab? {
      GrabKeepsBooks(s, step.worker);
    } else if step.Execute? {
      ExecuteKeepsBooks(s, step.worker, step.value);
    } else {
      OtherKeepsBooks(s, step);
    }
  }

  lemma {:induction false} RunKeepsBooks(s: System, steps: seq<Step>)
    requires Books(s) && CanRun(s, steps)
    ensures Books(After(s, steps))
    ensures OwnTasks(After(s, steps)) <==> OwnTasks(s) && !EverOverwrites(s, steps)
    decreases |steps|
  {
    if steps != [] {
      StepKeepsBooks(s, steps[0]);
      RunKeepsBooks(Apply(s, steps[0]), steps[1..]);
    }
  }

  // ----- the theorems -----

  // In every run, with any number of slots and workers, each submission that
  // was dequeued is with one worker or had one call, and this call ran some
  // submission's own task. It is the submission's own, now and for the workers
  // about to run theirs, if and only if no submission was ever accepted into a
  // slot that a worker had dequeued but not yet run.
  lemma OwnTasksIffNoneOverwritten(threads: nat, slots: seq<Slot>, steps: seq<Step>)
    requires slots != [] && CanRun(Start(threads, slots), steps)
    ensures var e := After(Start(threads, slots), steps);
      && OneCallEach(e)
      && (forall j | 0 <= j < |e.calls| ::
            e.calls[j].ran < |e.accepted| && e.calls[j].task == e.accepted[e.calls[j].ran])
      && (OwnTasks(e) <==> !EverOverwrites(Start(threads, slots), steps))
  {
    StartBooks(threads, slots);
    RunKeepsBooks(Start(threads, slots), steps);
  }

  // Submission k had a call of its own: one made for it that ran its task,
  // which no other call ran.
  ghost predicate RanAsItself(calls: seq<Call>, k: nat) {
    exists j :: RanOnlyBy(calls, k, j)
  }

  ghost predicate RanOnlyBy(calls: seq<Call>, k: nat, j: int) {
    && 0 <= j < |calls| && calls[j].ticket == k == calls[j].ran
    && forall i | 0 <= i < |calls| && i != j :: calls[i].ran != k && calls[i].ticket != k
  }

  function Tasks(calls: seq<Call>): (r: seq<Task>)
    ensures |r| == |calls| && forall j | 0 <= j < |calls| :: r[j] == calls[j].task
  {
    seq(|calls|, j requires 0 <= j < |calls| => calls[j].task)
  }

  // The tasks still in the queue.
  function Queued(r: Ring): (q: seq<Task>)
    requires r.Valid()
    ensures |q| == r.count
  {
    seq(r.count, i requires 0 <= i < r.count => Window(r.slots, r.head, r.count)[i].task)
  }

  lemma QueuedAreLatest(s: System)
    requires Books(s)
    ensures Queued(s.ring) == s.accepted[Dequeued(s)..]
  {
    hide Writer, Window;
    forall i: nat | i < s.ring.count
      ensures Queued(s.ring)[i] == s.accepted[Dequeued(s) + i]
    {
      WriterOfQueued(s, i);
    }
  }

  predicate Distinct(tickets: seq<nat>) {
    forall i, j | 0 <= i < j < |tickets| :: tickets[i] != tickets[j]
  }

  ghost predicate Picks<T>(tickets: seq<nat>, picked: seq<T>, values: seq<T>) {
    && |picked| == |tickets|
    && forall j | 0 <= j < |tickets| :: tickets[j] < |values| && picked[j] == values[tickets[j]]
  }

  function Without<T>(s: seq<T>, j: nat): (r: seq<T>)
    requires j < |s|
    ensures |r| == |s| - 1
    ensures forall i | 0 <= i < |r| :: r[i] == s[if i < j then i else i + 1]
  {
    s[..j] + s[j + 1..]
  }

  lemma TakeOut<T>(s: seq<T>, j: nat)
    requires j < |s|
    ensures multiset(s) == multiset(Without(s, j)) + multiset{s[j]}
  {
    assert s == s[..j] + [s[j]] + s[j + 1..];
  }

  lemma LastPicked<T>(tickets: seq<nat>, picked: seq<T>, values: seq<T>, j: nat)
    requires Distinct(tickets) && Picks(tickets, picked, values)
    requires values != [] && j < |tickets| && tickets[j] == |values| - 1
    ensures Distinct(Without(tickets, j)) && Picks(Without(tickets, j), Without(picked, j), values[..|values| - 1])
  {
    hide Without;
    assert forall i | 0 <= i < |tickets| && i != j :: tickets[i] != tickets[j];
  }

  lemma StillThere<T>(s: seq<T>, j: nat, x: T)
    requires j < |s| && x in s && x != s[j]
    ensures x in Without(s, j)
  {
    var i :| 0 <= i < |s| && s[i] == x;
    assert Without(s, j)[if i < j then i else i - 1] == x;
  }

  // Values picked by different tickets, of which none is missing, are all the
  // values.
  lemma {:induction false} TicketsPermute<T>(tickets: seq<nat>, picked: seq<T>, values: seq<T>)
    requires Distinct(tickets) && Picks(tickets, picked, values)
    requires forall k: nat | k < |values| :: k in tickets
    ensures multiset(picked) == multiset(values) && |picked| == |values|
    decreases |values|
  {
    if values == [] {
      assert tickets == [];
    } else {
      var last := |values| - 1;
      assert last in tickets;
      var j :| 0 <= j < |tickets| && tickets[j] == last;
      LastPicked(tickets, picked, values, j);
      forall k: nat | k < last
        ensures k in Without(tickets, j)
      {
        StillThere(tickets, j, k);
      }
      hide Without, Distinct, Picks;
      var rest := Without(picked, j);
      TicketsPermute(Without(tickets, j), rest, values[..last]);
      TakeOut(picked, j);
      DropLast(values);
    }
  }

  lemma DropLast<T>(s: seq<T>)
    requires s != []
    ensures multiset(s) == multiset(s[..|s| - 1]) + multiset{s[|s| - 1]}
  {
    assert s == s[..|s| - 1] + [s[|s| - 1]];
  }

  lemma {:induction false} ClosedRun(s: System, steps: seq<Step>)
    requires CanRun(s, steps) && s.ring.shutdown == 1
    ensures var e := After(s, steps);
      e.accepted == s.accepted && e.ring.count == s.ring.count && !EverOverwrites(s, steps)
    decreases |steps|
  {
    if steps != [] {
      ClosedStep(s, steps[0]);
      ClosedRun(Apply(s, steps[0]), steps[1..]);
    }
  }

  lemma ClosedStep(s: System, step: Step)
    requires Enabled(s, step) && s.ring.shutdown == 1
    ensures var s' := Apply(s, step);
      && s'.ring.shutdown == 1 && s'.accepted == s.accepted && s'.ring.count == s.ring.count
      && !Overwrites(s, step)
  {
  }

  function TicketsOf(calls: seq<Call>): (r: seq<nat>)
    ensures |r| == |calls| && forall j | 0 <= j < |calls| :: r[j] == calls[j].ticket
  {
    seq(|calls|, j requires 0 <= j < |calls| => calls[j].ticket)
  }

  // Once everybody has left, the calls are for the dequeued submissions.
  lemma AllCalled(e: System)
    requires Books(e) && AllGone(e)
    ensures |e.calls| == Dequeued(e)
    ensures OwnTasks(e) ==> multiset(Tasks(e.calls)) == multiset(e.accepted[..Dequeued(e)])
  {
    hide Writer;
    var n, tickets := Dequeued(e), TicketsOf(e.calls);
    forall k: nat | k < n
      ensures k in tickets
    {
      assert !HeldBy(e.workers, k);
      assert Called(e.calls, k);
      var j :| 0 <= j < |e.calls| && e.calls[j].ticket == k;
      assert tickets[j] == k;
    }
    TicketsPermute(tickets, tickets, seq(n, k => k));
    if OwnTasks(e) {
      TicketsPermute(tickets, Tasks(e.calls), e.accepted[..n]);
    }
  }

  lemma QueuedNotRun(e: System)
    requires Books(e)
    ensures e.ring.count > 0 ==> !RanAsItself(e.calls, |e.accepted| - 1)
  {
  }

  lemma OwnCalls(e: System)
    requires Books(e) && AllGone(e)
    ensures (forall k: nat | k < |e.accepted| :: RanAsItself(e.calls, k)) <==> e.ring.count == 0 && OwnTasks(e)
  {
    hide Writer;
    if forall k: nat | k < |e.accepted| :: RanAsItself(e.calls, k) {
      QueuedNotRun(e);
      forall j | 0 <= j < |e.calls|
        ensures e.calls[j].ran == e.calls[j].ticket
      {
        var k := e.calls[j].ticket;
        assert RanAsItself(e.calls, k);
        var i :| RanOnlyBy(e.calls, k, i);
      }
    }
    if e.ring.count == 0 && OwnTasks(e) {
      forall k: nat | k < |e.accepted|
        ensures RanAsItself(e.calls, k)
      {
        assert !HeldBy(e.workers, k);
        assert Called(e.calls, k);
        var j :| 0 <= j < |e.calls| && e.calls[j].ticket == k;
        assert RanOnlyBy(e.calls, k, j);
      }
    }
  }

  // What is left in the queue was accepted last.
  lemma CalledAndQueued(e: System)
    requires Books(e) && AllGone(e) && OwnTasks(e)
    ensures multiset(Tasks(e.calls)) + multiset(Queued(e.ring)) == multiset(e.accepted)
  {
    var n := Dequeued(e);
    AllCalled(e);
    QueuedAreLatest(e);
    hide *;
    assert e.accepted == e.accepted[..n] + e.accepted[n..];
  }

  lemma DestroyedRun(s: System, after: seq<Step>)
    requires Books(s) && Enabled(s, Destroy)
    requires CanRun(Apply(s, Destroy), after) && AllGone(After(Apply(s, Destroy), after))
    ensures var e := After(Apply(s, Destroy), after);
      && Books(e) && e.accepted == s.accepted && e.ring.count == s.ring.count && (OwnTasks(e) <==> OwnTasks(s))
  {
    var s' := Apply(s, Destroy);
    assert s'.ring.shutdown == 1 && s'.accepted == s.accepted && s'.ring.count == s.ring.count;
    StepKeepsBooks(s, Destroy);
    assert !Overwrites(s, Destroy);
    hide *;
    RunKeepsBooks(s', after);
    ClosedRun(s', after);
  }

  // THREADPOOL_GRACEFUL does not drain the queue, because its value is the one
  // workers take for an immediate shutdown: what is queued at destroy is never
  // run. Over every run, every accepted submission has a call of its own if
  // and only if none was queued at destroy and none was accepted into a slot
  // that a worker had yet to run. In the latter case the tasks called and the
  // tasks still queued are the tasks accepted.
  lemma DrainsIff(threads: nat, slots: seq<Slot>, before: seq<Step>, after: seq<Step>)
    requires slots != [] && CanRun(Start(threads, slots), before)
    requires Enabled(After(Start(threads, slots), before), Destroy)
    requires CanRun(Apply(After(Start(threads, slots), before), Destroy), after)
    requires AllGone(After(Apply(After(Start(threads, slots), before), Destroy), after))
    ensures var s := After(Start(threads, slots), before); var e := After(Apply(s, Destroy), after);
      var overwritten := EverOverwrites(Start(threads, slots), before);
      && e.accepted == s.accepted && |e.calls| == |e.accepted| - s.ring.count
      && ((forall k: nat | k < |e.accepted| :: RanAsItself(e.calls, k)) <==> s.ring.count == 0 && !overwritten)
      && (!overwritten ==> multiset(Tasks(e.calls)) + multiset(Queued(e.ring)) == multiset(e.accepted))
      && Queued(e.ring) == e.accepted[|e.accepted| - s.ring.count..]
  {
    hide CanRun, After, Apply, Enabled, OneCallEach, SlotsWritten, OwnTasks, EverOverwrites, RanAsItself, AllGone;
    hide Tasks, Queued, Start;
    var s := After(Start(threads, slots), before);
    var e := After(Apply(s, Destroy), after);
    StartBooks(threads, slots);
    RunKeepsBooks(Start(threads, slots), before);
    DestroyedRun(s, after);
    AllCalled(e);
    OwnCalls(e);
    QueuedAreLatest(e);
    if OwnTasks(e) {
      CalledAndQueued(e);
    }
  }

  // A submission is accepted exactly if it has a routine, the pool is open and
  // a slot of the queue is free.
  lemma AcceptedIff(s: System, t: Task, woken: set<nat>)
    requires Enabled(s, Submit(t, woken))
    ensures var s' := Apply(s, Submit(t, woken));
      if t.routine != 0 && s.ring.shutdown == 0 && s.ring.count < |s.ring.slots| then
        && s'.accepted == s.accepted + [t] && s'.producer == Waiting(s.ring.tail)
        && s'.ring.slots == s.ring.slots[s.ring.tail := Slot(t, None, false)] && s'.ring.count == s.ring.count + 1
      else
        s' == s
  {
  }

  // ----- a producer that looks before it submits -----

  // The slot of a submission is that of the one a whole ring before it.
  lemma TailReuses(s: System)
    ensures Writer(s, s.ring.tail) ==
            if |s.accepted| < |s.ring.slots| then None else Some(|s.accepted| - |s.ring.slots|)
  {
  }

  // A submission is made in the first round of the ring, or after the task of
  // the submission a whole ring before it has been seen to be done.
  ghost predicate LooksFirst(s: System, step: Step) {
    step.Submit? && AddSlot(s.ring, step.task).1.Accepted? ==>
      |s.accepted| < |s.ring.slots| || s.ring.slots[s.ring.tail].done
  }

  ghost predicate AlwaysLooks(s: System, steps: seq<Step>)
    requires CanRun(s, steps)
    decreases |steps|
  {
    steps != [] ==> LooksFirst(s, steps[0]) && AlwaysLooks(Apply(s, steps[0]), steps[1..])
  }

  predicate InQueue(r: Ring, k: nat) {
    (if k >= r.head then k - r.head else k + |r.slots| - r.head) < r.count
  }

  // Workers are in slots of their own that are neither queued nor done.
  ghost predicate Tidy(s: System) {
    && 0 <= Dequeued(s)
    && (forall i | 0 <= i < |s.workers| && Holds(s.workers[i]) ::
          var k := s.workers[i].slot;
          !s.ring.slots[k].done && Writer(s, k).Some? && !InQueue(s.ring, k))
    && (forall i, j | 0 <= i < j < |s.workers| && Holds(s.workers[i]) && Holds(s.workers[j]) ::
          s.workers[i].slot != s.workers[j].slot)
    && (forall k | 0 <= k < |s.ring.slots| && InQueue(s.ring, k) :: !s.ring.slots[k].done)
  }

  lemma SubmitKeepsTidy(s: System, t: Task, woken: set<nat>)
    requires Tidy(s) && Enabled(s, Submit(t, woken)) && AddSlot(s.ring, t).1.Accepted?
    requires LooksFirst(s, Submit(t, woken))
    ensures Tidy(Apply(s, Submit(t, woken))) && !Overwrites(s, Submit(t, woken))
  {
    var s' := Apply(s, Submit(t, woken));
    TailReuses(s);
    forall k: nat | k < |s.ring.slots|
      ensures Writer(s', k) == if k == s.ring.tail then Some(|s.accepted|) else Writer(s, k)
      ensures InQueue(s'.ring, k) <==> InQueue(s.ring, k) || k == s.ring.tail
    {
      WriterAfterSubmit(s, t, woken, k);
    }
    hide Writer, InQueue;
    assert forall i | 0 <= i < |s.workers| && Holds(s.workers[i]) :: s.workers[i].slot != s.ring.tail;
  }

  lemma GrabKeepsTidy(s: System, i: nat)
    requires Tidy(s) && Enabled(s, Locked(i)) && GrabSlot(s.ring).1.Grab?
    ensures Tidy(Apply(s, Locked(i)))
  {
    var s' := Apply(s, Locked(i));
    WriterOfQueued(s, 0);
    forall k: nat | k < |s.ring.slots|
      ensures Writer(s', k) == Writer(s, k)
      ensures InQueue(s'.ring, k) <==> InQueue(s.ring, k) && k != s.ring.head
    {
    }
    assert InQueue(s.ring, s.ring.head);
    hide Writer, InQueue;
    assert s'.workers[i] == Holding(s.ring.head, Dequeued(s));
    assert forall j | 0 <= j < |s.workers| && j != i :: s'.workers[j] == s.workers[j];
  }

  lemma SameSlots(s: System, s': System)
    requires |s'.ring.slots| == |s.ring.slots| && s'.ring.tail == s.ring.tail && |s'.accepted| == |s.accepted|
    requires s'.ring.head == s.ring.head && s'.ring.count == s.ring.count
    ensures forall k: nat | k < |s.ring.slots| ::
              Writer(s', k) == Writer(s, k) && (InQueue(s'.ring, k) <==> InQueue(s.ring, k))
  {
  }

  // Work in worker i's own slot.
  lemma WorkKeepsTidy(s: System, step: Step)
    requires Tidy(s) && Enabled(s, step) && (step.Execute? || step.Store? || step.Complete?)
    ensures Tidy(Apply(s, step))
  {
    hide Writer, InQueue;
    var s', i := Apply(s, step), step.worker;
    SameSlots(s, s');
    assert forall j | 0 <= j < |s.workers| && j != i :: s'.workers[j] == s.workers[j];
    assert Holds(s.workers[i]) && (Holds(s'.workers[i]) ==> s'.workers[i].slot == s.workers[i].slot);
  }

  lemma OtherKeepsTidy(s: System, step: Step)
    requires Tidy(s) && Enabled(s, step) && !step.Execute? && !step.Store? && !step.Complete?
    requires step.Submit? ==> AddSlot(s.ring, step.task).1.Refused?
    requires step.Locked? ==> !GrabSlot(s.ring).1.Grab?
    ensures Tidy(Apply(s, step))
  {
    hide Writer, InQueue;
    var s' := Apply(s, step);
    assert s'.ring.slots == s.ring.slots;
    SameSlots(s, s');
    forall i | 0 <= i < |s'.workers| && Holds(s'.workers[i])
      ensures Holds(s.workers[i]) && s'.workers[i].slot == s.workers[i].slot
    {
    }
  }

  lemma {:induction false} LookingRunNeverOverwrites(s: System, steps: seq<Step>)
    requires Tidy(s) && CanRun(s, steps) && AlwaysLooks(s, steps)
    ensures !EverOverwrites(s, steps)
    decreases |steps|
  {
    if steps != [] {
      LookKeepsTidy(s, steps[0]);
      hide Tidy;
      LookingRunNeverOverwrites(Apply(s, steps[0]), steps[1..]);
    }
  }

  lemma LookKeepsTidy(s: System, step: Step)
    requires Tidy(s) && Enabled(s, step) && LooksFirst(s, step)
    ensures Tidy(Apply(s, step)) && !Overwrites(s, step)
  {
    hide Tidy;
    if step.Submit? && AddSlot(s.ring, step.task).1.Accepted? {
      SubmitKeepsTidy(s, step.task, step.woken);
    } else if step.Locked? && GrabSlot(s.ring).1.Grab? {
      GrabKeepsTidy(s, step.worker);
    } else if step.Execute? || step.Store? || step.Complete? {
      WorkKeepsTidy(s, step);
    } else {
      OtherKeepsTidy(s, step);
    }
  }

  // So what a producer can see before it submits is enough, without waiting
  // for the last submission: every call then runs the task it is for.
  lemma LookingIsEnough(threads: nat, slots: seq<Slot>, steps: seq<Step>)
    requires slots != [] && CanRun(Start(threads, slots), steps) && AlwaysLooks(Start(threads, slots), steps)
    ensures OneCallEach(After(Start(threads, slots), steps)) && OwnTasks(After(Start(threads, slots), steps))
  {
    LookingRunNeverOverwrites(Start(threads, slots), steps);
    OwnTasksIffNoneOverwritten(threads, slots, steps);
  }

  // ----- what a later look at a slot reads -----

  // The call made for the submission in slot k gave v.
  ghost predicate Gave(s: System, k: nat, v: int)
    requires k < |s.ring.slots|
  {
    && Writer(s, k).Some?
    && exists j :: 0 <= j < |s.calls| && s.calls[j].ticket == Writer(s, k).value && s.calls[j].value == v
  }

  ghost predicate HasResult(s: System, k: nat)
    requires k < |s.ring.slots|
  {
    s.ring.slots[k].result.Some? && Gave(s, k, s.ring.slots[k].result.value)
  }

  // A result on its way to a slot, or in it, is that of the slot's submission.
  ghost predicate Results(s: System) {
    && (forall i | 0 <= i < |s.workers| && s.workers[i].Computed? :: Gave(s, s.workers[i].slot, s.workers[i].value))
    && (forall i | 0 <= i < |s.workers| && s.workers[i].Stored? :: HasResult(s, s.workers[i].slot))
    && (forall k | 0 <= k < |s.ring.slots| && s.ring.slots[k].done && Writer(s, k).Some? :: HasResult(s, k))
  }

  // More calls, the same submissions in the slots.
  lemma GaveStays(s: System, s': System, k: nat, v: int)
    requires k < |s.ring.slots| == |s'.ring.slots| && Gave(s, k, v)
    requires Writer(s', k) == Writer(s, k) && s.calls <= s'.calls
    ensures Gave(s', k, v)
  {
    hide Writer;
    var j :| 0 <= j < |s.calls| && s.calls[j].ticket == Writer(s, k).value && s.calls[j].value == v;
    assert s'.calls[j] == s.calls[j];
  }

  lemma SubmitKeepsResults(s: System, t: Task, woken: set<nat>)
    requires Tidy(s) && Results(s) && Enabled(s, Submit(t, woken)) && AddSlot(s.ring, t).1.Accepted?
    requires LooksFirst(s, Submit(t, woken))
    ensures Results(Apply(s, Submit(t, woken)))
  {
    var s' := Apply(s, Submit(t, woken));
    TailReuses(s);
    forall k: nat | k < |s.ring.slots|
      ensures Writer(s', k) == if k == s.ring.tail then Some(|s.accepted|) else Writer(s, k)
    {
      WriterAfterSubmit(s, t, woken, k);
    }
    hide Writer, InQueue, Gave;
    assert forall i | 0 <= i < |s.workers| && Holds(s.workers[i]) :: s.workers[i].slot != s.ring.tail;
    assert forall i | 0 <= i < |s.workers| && Holds(s'.workers[i]) :: s'.workers[i] == s.workers[i];
    forall k: nat, v | k < |s.ring.slots| && k != s.ring.tail && Gave(s, k, v)
      ensures Gave(s', k, v)
    {
      GaveStays(s, s', k, v);
    }
  }

  lemma ExecuteKeepsResults(s: System, i: nat, value: int)
    requires OwnTasks(s) && Results(s) && Enabled(s, Execute(i, value))
    ensures Results(Apply(s, Execute(i, value)))
  {
    var s' := Apply(s, Execute(i, value));
    SameSlots(s, s');
    var slot := s.workers[i].slot;
    assert s'.calls[|s.calls|].ticket == s.workers[i].ticket && s'.calls[|s.calls|].value == value;
    assert Gave(s', slot, value);
    hide Writer, Gave;
    forall k: nat, v | k < |s.ring.slots| && Gave(s, k, v)
      ensures Gave(s', k, v)
    {
      GaveStays(s, s', k, v);
    }
    assert forall j | 0 <= j < |s.workers| && j != i :: s'.workers[j] == s.workers[j];
  }

  // Every other step leaves what is in the slots there, but for a worker's
  // own slot.
  lemma OtherKeepsResults(s: System, step: Step)
    requires Tidy(s) && Results(s) && Enabled(s, step) && !step.Execute?
    requires step.Submit? ==> AddSlot(s.ring, step.task).1.Refused?
    ensures Results(Apply(s, step))
  {
    hide Writer, InQueue, Gave;
    var s' := Apply(s, step);
    SameWriters(s, step);
    forall k: nat, v | k < |s.ring.slots| && Gave(s, k, v)
      ensures Gave(s', k, v)
    {
      GaveStays(s, s', k, v);
    }
    if step.Locked? {
      TurnKeepsSlots(s, step.worker);
    }
  }

  lemma SameWriters(s: System, step: Step)
    requires Enabled(s, step) && !step.Execute?
    requires step.Submit? ==> AddSlot(s.ring, step.task).1.Refused?
    ensures var s' := Apply(s, step);
      && |s'.ring.slots| == |s.ring.slots| && s'.calls == s.calls
      && forall k: nat | k < |s.ring.slots| :: Writer(s', k) == Writer(s, k)
  {
  }

  lemma TurnKeepsSlots(s: System, i: nat)
    requires Enabled(s, Locked(i))
    ensures var s' := Apply(s, Locked(i));
      && !s'.workers[i].Computed? && !s'.workers[i].Stored?
      && (forall j | 0 <= j < |s.workers| && j != i :: s'.workers[j] == s.workers[j])
      && forall k | 0 <= k < |s.ring.slots| ::
           s'.ring.slots[k].result == s.ring.slots[k].result && (s'.ring.slots[k].done ==> s.ring.slots[k].done)
  {
  }

  lemma {:induction false} LookingRunKeepsResults(s: System, steps: seq<Step>)
    requires Tidy(s) && Books(s) && OwnTasks(s) && Results(s) && CanRun(s, steps) && AlwaysLooks(s, steps)
    ensures Results(After(s, steps))
    decreases |steps|
  {
    if steps != [] {
      var step := steps[0];
      StepKeepsBooks(s, step);
      LookKeepsTidy(s, step);
      LookKeepsResults(s, step);
      hide Tidy, Books, OwnTasks, Results, Overwrites;
      LookingRunKeepsResults(Apply(s, step), steps[1..]);
    }
  }

  lemma LookKeepsResults(s: System, step: Step)
    requires Tidy(s) && OwnTasks(s) && Results(s) && Enabled(s, step) && LooksFirst(s, step)
    ensures Results(Apply(s, step))
  {
    hide Tidy, OwnTasks, Results;
    if step.Submit? && AddSlot(s.ring, step.task).1.Accepted? {
      SubmitKeepsResults(s, step.task, step.woken);
    } else if step.Execute? {
      ExecuteKeepsResults(s, step.worker, step.value);
    } else {
      OtherKeepsResults(s, step);
    }
  }

  // With several submissions outstanding: once the slot of a submission is
  // seen to be done it holds what the one call made for it, which ran its own
  // task, computed.
  lemma LookingReadsOwnResult(threads: nat, slots: seq<Slot>, steps: seq<Step>, k: nat)
    requires slots != [] && CanRun(Start(threads, slots), steps) && AlwaysLooks(Start(threads, slots), steps)
    requires k < |After(Start(threads, slots), steps).ring.slots|
    requires After(Start(threads, slots), steps).ring.slots[k].done
    requires Writer(After(Start(threads, slots), steps), k).Some?
    ensures var e := After(Start(threads, slots), steps); var submission := Writer(e, k).value;
      && e.ring.slots[k].result.Some?
      && exists j :: RanOnlyBy(e.calls, submission, j) && e.calls[j].value == e.ring.slots[k].result.value
  {
    var e := After(Start(threads, slots), steps);
    StartBooks(threads, slots);
    LookingRunKeepsResults(Start(threads, slots), steps);
    LookingIsEnough(threads, slots, steps);
    hide Writer, Start, After;
    assert HasResult(e, k);
    var j :| 0 <= j < |e.calls| && e.calls[j].ticket == Writer(e, k).value
             && e.calls[j].value == e.ring.slots[k].result.value;
    assert RanOnlyBy(e.calls, Writer(e, k).value, j);
  }

  // A producer that waits for each submission never overwrites either.
  lemma {:induction false} WaitingIsEnough(s: System, steps: seq<Step>)
    requires Inv(s) && CanRun(s, steps) && Disciplined(steps)
    ensures !EverOverwrites(s, steps)
    decreases |steps|
  {
    if steps != [] {
      StepKeepsInv(s, steps[0]);
      WaitingIsEnough(Apply(s, steps[0]), steps[1..]);
    }
  }

  // ----- two submissions in one slot -----

  // From the moment the slot has been rewritten under its holder.
  lemma RewrittenSlotRunsTwice(s: System, second: Task) returns (steps: seq<Step>)
    requires s.ring == Ring([Slot(second, None, false)], 0, 0, 1, 0, 1)
    requires s.workers == [Holding(0, 0)] && |s.accepted| == 2 && s.calls == []
    ensures CanRun(s, steps)
    ensures After(s, steps).accepted == s.accepted
    ensures After(s, steps).calls == [Call(0, 1, second, 0), Call(1, 1, second, 0)]
    ensures After(s, steps).ring.count == 0
  {
    var s1 := Apply(s, Execute(0, 0));
    var s2 := Apply(s1, Store(0));
    var s3 := Apply(s2, Complete(0));
    var s4 := Apply(s3, Locked(0));
    Prepend(s4, Execute(0, 0), []);
    var r4 := [Execute(0, 0)] + [];
    Prepend(s3, Locked(0), r4);
    var r3 := [Locked(0)] + r4;
    Prepend(s2, Complete(0), r3);
    var r2 := [Complete(0)] + r3;
    Prepend(s1, Store(0), r2);
    var r1 := [Store(0)] + r2;
    Prepend(s, Execute(0, 0), r1);
    steps := [Execute(0, 0)] + r1;
  }

  // A slot's pointer outlives its place in the ring: a producer that does not
  // wait can overwrite the task a worker has taken but not started. The first
  // task is then never run, the second runs twice, and the queue is empty.
  lemma UnwaitedTaskIsLost(first: Task, second: Task) returns (slots: seq<Slot>, steps: seq<Step>)
    requires first.routine != 0 && second.routine != 0 && first != second
    ensures slots != [] && CanRun(Start(1, slots), steps)
    ensures var e := After(Start(1, slots), steps);
      && e.accepted == [first, second] && Tasks(e.calls) == [second, second] && first !in Tasks(e.calls)
      && e.ring.count == 0 && !RanAsItself(e.calls, 0)
    ensures EverOverwrites(Start(1, slots), steps)
  {
    slots := [Slot(first, None, false)];
    var s0 := Start(1, slots);
    var s1 := Apply(s0, Submit(first, {}));
    var s2 := Apply(s1, Locked(0));
    var s3 := Apply(s2, Forget);
    var s4 := Apply(s3, Submit(second, {}));
    assert s4.workers == [Holding(0, 0)];
    assert s4.ring.slots == [Slot(second, None, false)];
    var r4 := RewrittenSlotRunsTwice(s4, second);
    Prepend(s3, Submit(second, {}), r4);
    var r3 := [Submit(second, {})] + r4;
    Prepend(s2, Forget, r3);
    var r2 := [Forget] + r3;
    Prepend(s1, Locked(0), r2);
    var r1 := [Locked(0)] + r2;
    Prepend(s0, Submit(first, {}), r1);
    steps := [Submit(first, {})] + r1;
    hide CanRun, After;
    OwnTasksIffNoneOverwritten(1, slots, steps);
    assert After(s0, steps).calls[0].ran != After(s0, steps).calls[0].ticket;
  }
}
