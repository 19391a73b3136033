// The server's version of the pool. Tasks give back a result: a submission
// hands out a pointer to the ring slot, the worker runs the task straight from
// that slot after releasing the lock, and threadpool_wait polls the slot.

module ResultPool {
  import opened Options
  import opened WorkerPool

  // The flag's value is also the value the workers read as "at once".
  const GRACEFUL := 1

  // One threadpool_task_t; a NULL result is None.
  datatype Slot = Slot(task: Task, result: Option<int>, done: bool)

  datatype Reply = Accepted(slot: nat) | Refused(error: AddResult)

  datatype SlotTurn = Doze | Leave | Grab(slot: nat)

  datatype Ring = Ring(slots: seq<Slot>, head: nat, tail: nat, count: nat, shutdown: int, started: int)
  {
    predicate Valid() {
      && head < |slots| && tail < |slots| && count <= |slots|
      && tail == (if head + count < |slots| then head + count else head + count - |slots|)
      && (shutdown == 0 || shutdown == 1)
    }
  }

  function Next(i: nat, n: nat): nat
    requires i < n
  {
    if i + 1 == n then 0 else i + 1
  }

  function AddSlot(r: Ring, t: Task): (Ring, Reply)
    requires r.Valid()
  {
    if t.routine == 0 then (r, Refused(Invalid))
    else if r.count == |r.slots| then (r, Refused(QueueFull))
    else if r.shutdown != 0 then (r, Refused(ShuttingDown))
    else (r.(slots := r.slots[r.tail := Slot(t, None, false)],
             tail := Next(r.tail, |r.slots|), count := r.count + 1),
          Accepted(r.tail))
  }

  function GrabSlot(r: Ring): (Ring, SlotTurn)
    requires r.Valid()
  {
    if r.count == 0 && r.shutdown == 0 then (r, Doze)
    else if r.shutdown == 1 || (r.shutdown == GRACEFUL && r.count == 0) then (r, Leave)
    else (r.(slots := r.slots[r.head := r.slots[r.head].(done := false)],
             head := Next(r.head, |r.slots|), count := r.count - 1),
          Grab(r.head))
  }

  class Pool {
    var slots: array<Slot>
    var head: nat
    var tail: nat
    var count: nat
    var shutdown: int
    var started: int

    ghost function View(): Ring
      reads this, slots
    {
      Ring(slots[..], head, tail, count, shutdown, started)
    }

    // threadpool_create makes no check of its arguments; an empty ring would
    // divide by zero in the first submission.
    constructor (threads: nat, size: nat)
      requires 0 < size
      ensures fresh(slots) && slots.Length == size && View().Valid()
      ensures View() == Ring(slots[..], 0, 0, 0, 0, threads)
    {
      slots := new Slot[size](_ => Slot(Task(0, 0), None, false));
      head, tail, count, shutdown, started := 0, 0, 0, 0, 0;
      new;
      for i := 0 to threads
        invariant started == i && fresh(slots) && slots.Length == size
        invariant head == 0 && tail == 0 && count == 0 && shutdown == 0
        modifies this
      {
        started := started + 1;
      }
    }

    method Add(routine: nat, argument: int) returns (reply: Reply)
      requires View().Valid()
      modifies this`tail, this`count, slots
      ensures View().Valid()
      ensures (View(), reply) == AddSlot(old(View()), Task(routine, argument))
      ensures reply == Refused(Invalid) <==> routine == 0
      ensures reply == Refused(QueueFull) <==> routine != 0 && old(count) == slots.Length
      ensures reply == Refused(ShuttingDown) <==> routine != 0 && old(count) < slots.Length && shutdown != 0
      ensures reply.Accepted? <==> routine != 0 && old(count) < slots.Length && shutdown == 0
      ensures reply.Accepted? ==>
                && reply.slot == old(tail) && slots[reply.slot] == Slot(Task(routine, argument), None, false)
                && tail == (if old(tail) + 1 == slots.Length then 0 else old(tail) + 1) && count == old(count) + 1
      ensures reply.Refused? ==> View() == old(View())
      ensures forall k | 0 <= k < slots.Length && reply != Accepted(k) :: slots[k] == old(slots[k])
    {
      if routine == 0 {
        return Refused(Invalid);
      }
      var next := (tail + 1) % slots.Length;
      NextIndex(tail, slots.Length);
      if count == slots.Length {
        reply := Refused(QueueFull);
      } else if shutdown != 0 {
        reply := Refused(ShuttingDown);
      } else {
        slots[tail] := Slot(Task(routine, argument), None, false);
        reply := Accepted(tail);
        tail := next;
        count := count + 1;
      }
    }

    // The locked part of one round of a worker's loop.
    method Turn() returns (turn: SlotTurn)
      requires View().Valid()
      modifies this`head, this`count, slots
      ensures View().Valid()
      ensures (View(), turn) == GrabSlot(old(View()))
      ensures turn == Doze <==> shutdown == 0 && old(count) == 0
      ensures turn == Leave <==> shutdown == 1
      ensures turn.Grab? <==> shutdown == 0 && old(count) > 0
      ensures turn.Grab? ==>
                && turn.slot == old(head) && slots[turn.slot] == old(slots[head]).(done := false)
                && head == (if old(head) + 1 == slots.Length then 0 else old(head) + 1) && count == old(count) - 1
      ensures !turn.Grab? ==> View() == old(View())
      ensures forall k | 0 <= k < slots.Length && turn != Grab(k) :: slots[k] == old(slots[k])
    {
      if count == 0 && shutdown == 0 {
        return Doze;
      }
      if shutdown == 1 || (shutdown == GRACEFUL && count == 0) {
        return Leave;
      }
      turn := Grab(head);
      slots[head] := slots[head].(done := false);
      NextIndex(head, slots.Length);
      head := (head + 1) % slots.Length;
      count := count - 1;
    }

    method BeginShutdown(flags: bv32) returns (ok: bool)
      requires View().Valid()
      modifies this`shutdown
      ensures View().Valid()
      ensures ok == (old(shutdown) == 0)
      ensures View() == if ok then old(View()).(shutdown := 1) else old(View())
    {
      if shutdown != 0 {
        return false;
      }
      shutdown := if flags & 1 != 0 then GRACEFUL else 1;
      ok := true;
    }
  }
}
