// The bounded worker pool of the thread-pool course: a ring of tasks guarded
// by one lock. Each method below is the code between taking the lock and
// releasing it, so a method call is one atomic step of the concurrent program.

module WorkerPool {

  const MAX_THREADS := 64
  const MAX_QUEUE := 65536

  // A task is a function pointer and its argument. Routine 0 is NULL.
  datatype Task = Task(routine: nat, argument: int)

  datatype Mode = Open | Immediate | Graceful

  datatype AddResult = Added | Invalid | QueueFull | ShuttingDown

  // What a worker holding the lock does next.
  datatype Turn = Sleep | Quit | Run(task: Task)

  // The pool as its users see it: the ring is a plain queue.
  datatype Pool = Pool(queue: seq<Task>, capacity: nat, mode: Mode, started: int)

  function AddTask(p: Pool, t: Task): (Pool, AddResult) {
    if t.routine == 0 then (p, Invalid)
    else if |p.queue| == p.capacity then (p, QueueFull)
    else if !p.mode.Open? then (p, ShuttingDown)
    else (p.(queue := p.queue + [t]), Added)
  }

  function TakeTurn(p: Pool): (Pool, Turn) {
    if p.queue == [] && p.mode.Open? then (p, Sleep)
    else if p.mode.Immediate? || (p.mode.Graceful? && p.queue == []) then
      (p.(started := p.started - 1), Quit)
    else (p.(queue := p.queue[1..]), Run(p.queue[0]))
  }

  // An index that steps round a ring of n slots.
  lemma NextIndex(i: nat, n: nat)
    requires i < n
    ensures (i + 1) % n == if i + 1 == n then 0 else i + 1
  {
    if i + 1 == n {
      assert n % n == 0;
    }
  }

  // The count slots of the ring q from head on.
  function Window<T>(q: seq<T>, head: nat, count: nat): (w: seq<T>)
    requires head < |q| && count <= |q|
    ensures |w| == count
    ensures forall k | 0 <= k < count :: w[k] == if head + k < |q| then q[head + k] else q[head + k - |q|]
  {
    if head + count <= |q| then q[head..head + count] else q[head..] + q[..head + count - |q|]
  }

  lemma WindowFirst<T>(q: seq<T>, head: nat, count: nat)
    requires head < |q| && 0 < count <= |q|
    ensures Window(q, head, count)[0] == q[head]
    ensures Window(q, if head + 1 == |q| then 0 else head + 1, count - 1) == Window(q, head, count)[1..]
  {
    hide Window;
  }

  lemma WindowLast<T>(q: seq<T>, head: nat, count: nat, tail: nat, t: T)
    requires head < |q| && count < |q|
    requires tail == if head + count < |q| then head + count else head + count - |q|
    ensures Window(q[tail := t], head, count + 1) == Window(q, head, count) + [t]
  {
    hide Window;
  }

  class ThreadPool {
    var queue: array<Task>
    var head: nat
    var tail: nat
    var count: nat
    var mode: Mode
    var started: int
    var threadCount: nat

    ghost predicate Valid()
      reads this
    {
      && 0 < queue.Length
      && head < queue.Length
      && tail < queue.Length
      && count <= queue.Length
      && tail == if head + count < queue.Length then head + count else head + count - queue.Length
    }

    ghost function Pending(): seq<Task>
      reads this, queue
      requires Valid()
    {
      Window(queue[..], head, count)
    }

    ghost function View(): Pool
      reads this, queue
      requires Valid()
    {
      Pool(Pending(), queue.Length, mode, started)
    }

    // threadpool_create, after its argument check and with every allocation
    // and pthread_create succeeding.
    constructor (threads: nat, size: nat)
      requires 0 < threads <= MAX_THREADS && 0 < size <= MAX_QUEUE
      ensures Valid() && fresh(queue)
      ensures View() == Pool([], size, Open, threads)
      ensures threadCount == threads
    {
      queue := new Task[size](_ => Task(0, 0));
      head, tail, count := 0, 0, 0;
      mode, started, threadCount := Open, 0, 0;
      new;
      for i := 0 to threads
        invariant started == i && threadCount == i
        invariant fresh(queue) && queue.Length == size
        invariant head == 0 && tail == 0 && count == 0 && mode == Open
        modifies this
      {
        threadCount := threadCount + 1;
        started := started + 1;
      }
    }

    method Add(routine: nat, argument: int) returns (err: AddResult)
      requires Valid()
      modifies this`tail, this`count, queue
      ensures Valid() && queue == old(queue)
      ensures (View(), err) == AddTask(old(View()), Task(routine, argument))
      ensures err == Invalid <==> routine == 0
      ensures err == QueueFull <==> routine != 0 && |old(Pending())| == queue.Length
      ensures err == ShuttingDown <==> routine != 0 && |old(Pending())| < queue.Length && mode != Open
      ensures err == Added <==> routine != 0 && |old(Pending())| < queue.Length && mode == Open
      ensures Pending() == if err == Added then old(Pending()) + [Task(routine, argument)] else old(Pending())
    {
      hide Window;
      if routine == 0 {
        return Invalid;
      }
      var next := (tail + 1) % queue.Length;
      NextIndex(tail, queue.Length);
      if count == queue.Length {
        err := QueueFull;
      } else if mode != Open {
        err := ShuttingDown;
      } else {
        WindowLast(queue[..], head, count, tail, Task(routine, argument));
        queue[tail] := Task(routine, argument);
        tail := next;
        count := count + 1;
        err := Added;
      }
    }

    // The locked part of one round of a worker's loop: it sleeps on the
    // condition variable, leaves the loop, or carries off the oldest task.
    method Turn() returns (turn: Turn)
      requires Valid()
      modifies this`head, this`count, this`started
      ensures Valid()
      ensures (View(), turn) == TakeTurn(old(View()))
      ensures turn == Sleep <==> mode == Open && old(Pending()) == []
      ensures turn == Quit <==> mode == Immediate || (mode == Graceful && old(Pending()) == [])
      ensures turn.Run? <==> old(Pending()) != [] && mode != Immediate
      ensures turn.Run? ==> old(Pending()) == [turn.task] + Pending()
      ensures !turn.Run? ==> Pending() == old(Pending())
      ensures started == if turn == Quit then old(started) - 1 else old(started)
    {
      hide Window;
      if count == 0 && mode == Open {
        return Sleep;
      }
      if mode == Immediate || (mode == Graceful && count == 0) {
        started := started - 1;
        return Quit;
      }
      WindowFirst(queue[..], head, count);
      turn := Run(queue[head]);
      NextIndex(head, queue.Length);
      head := (head + 1) % queue.Length;
      count := count - 1;
    }

    // The locked part of threadpool_destroy; false is threadpool_shutdown.
    method BeginShutdown(graceful: bool) returns (ok: bool)
      requires Valid()
      modifies this`mode
      ensures Valid()
      ensures ok == (old(mode) == Open)
      ensures View() == if ok then old(View()).(mode := if graceful then Graceful else Immediate)
                        else old(View())
    {
      if mode != Open {
        return false;
      }
      mode := if graceful then Graceful else Immediate;
      ok := true;
    }

    // threadpool_free refuses while a started worker is left.
    method Free() returns (freed: bool)
      requires Valid()
      ensures freed <==> View().started <= 0
    {
      freed := !(started > 0);
    }
  }

  // threadpool_create: null if an argument is out of range.
  method Create(threads: int, size: int) returns (pool: ThreadPool?)
    ensures pool == null <==> threads <= 0 || threads > 64 || size <= 0 || size > 65536
    ensures pool != null ==>
              && fresh(pool) && pool.Valid() && pool.View() == Pool([], size, Open, threads)
              && pool.threadCount == threads
  {
    if threads <= 0 || threads > MAX_THREADS || size <= 0 || size > MAX_QUEUE {
      return null;
    }
    pool := new ThreadPool(threads, size);
  }
}
