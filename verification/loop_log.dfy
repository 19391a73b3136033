// What a run of the event loop does, visit by visit and pass by pass.

module LoopLog {
  import opened Options
  import opened DescriptorLog

  // The set of select that reports a descriptor, in the order they are tried.
  datatype Way = Reading | Writing | Failing

  // The tasks that are given to the pool, and how they end.
  datatype Handler = HeartbeatRead | HeartbeatWrite | SimpleRead | SimpleWrite | HttpRead | HttpWrite

  datatype Outcome = SUCCESS | CLOSED | ERROR | EMPTY_PACKET | EMPTY_REQUEST

  // What serving a descriptor asks of others: a connection of a listening
  // socket, a task of the pool and its result, or nothing.
  datatype Call =
    | Accept(listener: nat, got: Option<nat>, port: nat)
    | Task(fd: nat, handler: Handler, added: bool, outcome: Option<Outcome>)
    | NoCall

  // The watched set, the clients of either table, and the log.
  datatype State = State(master: set<nat>, clients: set<nat>, httpClients: set<nat>, events: seq<Event>)

  // One descriptor that was served, and whether that ends the loop.
  datatype Visited = Visited(fd: nat, way: Way, call: Call, before: State, after: State, ends: bool)

  datatype Listeners = Listeners(tcp: nat, udp: nat, http: nat)

  function Gone(s: State, fd: nat): State {
    State(s.master - {fd}, s.clients - {fd}, s.httpClients - {fd}, s.events + [Event.Closed(fd)])
  }

  function Joined(s: State, n: nat, http: bool): State {
    State(s.master + {n}, if http then s.clients else s.clients + {n},
          if http then s.httpClients + {n} else s.httpClients, s.events + [Opened(n)])
  }

  // A connection joins the listener's own table, or the loop ends.
  predicate Admitted(v: Visited, open: set<nat>, http: bool) {
    && v.call.Accept? && v.call.listener == v.fd
    && match v.call.got
       case None => v.after == v.before && v.ends
       case Some(n) =>
         && n !in open
         && if 0 < n && 0 < v.call.port then v.after == Joined(v.before, n, http) && !v.ends
            else v.after == v.before.(events := v.before.events + [Opened(n), Event.Closed(n)]) && v.ends
  }

  // A client is let go if its task was refused, failed or found the
  // connection closed, and otherwise nothing changes.
  predicate ClientServed(v: Visited, read: Handler, write: Handler) {
    && v.call.Task? && v.call.fd == v.fd && v.call.handler == (if v.way.Reading? then read else write)
    && (v.call.added ==> v.call.outcome.Some?)
    && v.after == (if !v.call.added || v.call.outcome == Some(ERROR) || v.call.outcome == Some(CLOSED)
                   then Gone(v.before, v.fd) else v.before)
    && v.ends == !v.call.added
  }

  // What a visit may do, for each kind of descriptor.
  predicate Settled(v: Visited, l: Listeners) {
    var clients, httpClients, listeners := v.before.clients, v.before.httpClients, {l.tcp, l.udp, l.http};
    && l.tcp != l.udp && l.udp != l.http && l.http != l.tcp
    && v.fd in listeners + clients + httpClients && listeners !! clients + httpClients && clients !! httpClients
    && (v.way.Reading? && (v.fd == l.tcp || v.fd == l.http) ==>
          Admitted(v, listeners + clients + httpClients, v.fd == l.http))
    && (v.way.Writing? && (v.fd == l.tcp || v.fd == l.http) ==>
          && v.ends && v.call.Task? && v.call.fd == v.fd && v.call.handler == SimpleWrite
          && v.after == v.before.(master := if v.call.added then v.before.master else v.before.master - {v.fd}))
    && (!v.way.Failing? && v.fd == l.udp ==>
          && v.call.Task? && v.call.fd == v.fd
          && v.call.handler == (if v.way.Reading? then HeartbeatRead else HeartbeatWrite)
          && v.after == v.before && v.ends == !v.call.added)
    && (!v.way.Failing? && v.fd in clients ==> ClientServed(v, SimpleRead, SimpleWrite))
    && (!v.way.Failing? && v.fd in httpClients ==> ClientServed(v, HttpRead, HttpWrite))
    && (v.way.Failing? && v.fd in listeners ==> v.call.NoCall? && v.after == v.before && v.ends)
    && (v.way.Failing? && v.fd in clients + httpClients ==>
          v.call.NoCall? && v.after == Gone(v.before, v.fd) && !v.ends)
  }

  // A visit concerns one descriptor that was there, and leaves the others.
  lemma OthersStay(v: Visited, l: Listeners, fd: nat)
    requires Settled(v, l) && fd in {l.tcp, l.udp, l.http} + v.before.clients + v.before.httpClients && fd != v.fd
    ensures fd in v.after.master <==> fd in v.before.master
    ensures fd in v.after.clients <==> fd in v.before.clients
    ensures fd in v.after.httpClients <==> fd in v.before.httpClients
  {
  }

  // The visits lead from one state to another, and only the last may end the
  // loop.
  predicate History(visits: seq<Visited>, l: Listeners, first: State, now: State) {
    if visits == [] then now == first
    else
      var v, before := visits[|visits| - 1], visits[..|visits| - 1];
      && v.after == now && Settled(v, l) && History(before, l, first, v.before)
      && (before == [] || !before[|before| - 1].ends)
  }

  // The calls of these visits, in order.
  function CallsOf(visits: seq<Visited>): seq<Call> {
    if visits == [] then []
    else
      var call := visits[|visits| - 1].call;
      CallsOf(visits[..|visits| - 1]) + if call.NoCall? then [] else [call]
  }

  lemma HistoryStep(visits: seq<Visited>, l: Listeners, first: State, v: Visited)
    requires History(visits, l, first, v.before) && Settled(v, l)
    requires visits == [] || !visits[|visits| - 1].ends
    ensures History(visits + [v], l, first, v.after)
    ensures CallsOf(visits + [v]) == CallsOf(visits) + if v.call.NoCall? then [] else [v.call]
  {
    assert (visits + [v])[..|visits|] == visits;
  }

  // ----- what every run does -----

  lemma {:induction false} EachSettled(visits: seq<Visited>, l: Listeners, first: State, now: State, k: nat)
    requires History(visits, l, first, now) && k < |visits|
    ensures Settled(visits[k], l) && (k < |visits| - 1 ==> !visits[k].ends)
  {
    hide Settled;
    var n := |visits| - 1;
    if k < n {
      EachSettled(visits[..n], l, first, visits[n].before, k);
    }
  }

  // A client that is visited stays watched and in its table exactly if its
  // task was run and neither failed nor found the connection closed. It is
  // closed exactly if it does not stay.
  lemma ClientStaysIff(visits: seq<Visited>, l: Listeners, first: State, now: State, k: nat)
    requires History(visits, l, first, now) && k < |visits|
    requires visits[k].fd in visits[k].before.clients + visits[k].before.httpClients
    ensures var v := visits[k]; var b, a := v.before, v.after;
      var stays := v.call.Task? && v.call.added && v.call.outcome != Some(ERROR) && v.call.outcome != Some(CLOSED);
      && (v.call.NoCall? <==> v.way.Failing?)
      && a.master == (if stays then b.master else b.master - {v.fd})
      && a.clients == (if stays then b.clients else b.clients - {v.fd})
      && a.httpClients == (if stays then b.httpClients else b.httpClients - {v.fd})
      && a.events == b.events + (if stays then [] else [Event.Closed(v.fd)])
  {
    EachSettled(visits, l, first, now, k);
  }

  // A connection adds exactly one descriptor, to the table of its listener, or
  // the loop ends and nothing is added.
  lemma AcceptAddsOne(visits: seq<Visited>, l: Listeners, first: State, now: State, k: nat)
    requires History(visits, l, first, now) && k < |visits| && visits[k].call.Accept?
    ensures var v := visits[k]; var b, a := v.before, v.after;
      && v.way.Reading? && v.call.listener == v.fd && (v.fd == l.tcp || v.fd == l.http)
      && (!v.ends <==> v.call.got.Some? && 0 < v.call.got.value && 0 < v.call.port)
      && (v.ends ==> a.master == b.master && a.clients == b.clients && a.httpClients == b.httpClients)
      && (!v.ends ==>
            var n := v.call.got.value;
            && a.master == b.master + {n} && a.events == b.events + [Opened(n)]
            && a.clients == (if v.fd == l.tcp then b.clients + {n} else b.clients)
            && a.httpClients == (if v.fd == l.http then b.httpClients + {n} else b.httpClients))
  {
    EachSettled(visits, l, first, now, k);
  }

  // The event at q was logged by visit k.
  predicate LoggedBy(visits: seq<Visited>, k: int, q: nat) {
    0 <= k < |visits| && |visits[k].before.events| <= q < |visits[k].after.events|
  }

  lemma {:induction false} EventsGrow(visits: seq<Visited>, l: Listeners, first: State, now: State)
    requires History(visits, l, first, now)
    ensures first.events <= now.events
    ensures forall k | 0 <= k < |visits| :: visits[k].after.events <= now.events
  {
    if visits != [] {
      var n := |visits| - 1;
      var v := visits[n];
      EventsGrow(visits[..n], l, first, v.before);
      assert v.before.events <= v.after.events;
      forall k | 0 <= k < n
        ensures visits[k].after.events <= now.events
      {
        assert visits[..n][k] == visits[k];
      }
    }
  }

  // Every close of a run is that of a client whose task was refused, failed or
  // found the connection closed, of a client with an exception, or of a
  // connection that got no record.
  lemma {:induction false} EveryCloseHasReason(visits: seq<Visited>, l: Listeners, first: State, now: State, q: nat)
    returns (k: nat)
    requires History(visits, l, first, now)
    requires |first.events| <= q < |now.events| && now.events[q].Closed?
    ensures LoggedBy(visits, k, q)
    ensures var v, fd := visits[k], now.events[q].fd;
      || (v.fd == fd && fd in v.before.clients + v.before.httpClients && !v.way.Failing?
          && v.call.Task? && v.call.fd == fd
          && (!v.call.added || v.call.outcome == Some(ERROR) || v.call.outcome == Some(CLOSED)))
      || (v.fd == fd && fd in v.before.clients + v.before.httpClients && v.way.Failing?)
      || (v.call.Accept? && v.call.got == Some(fd) && (fd == 0 || v.call.port == 0))
  {
    var n := |visits| - 1;
    var v := visits[n];
    if q < |v.before.events| {
      assert v.before.events[q] == now.events[q];
      k := EveryCloseHasReason(visits[..n], l, first, v.before, q);
    } else {
      k := n;
    }
  }

  // ----- counting what is ready -----

  function Below(fds: set<nat>, i: nat): set<nat> {
    set fd | fd in fds && fd < i
  }

  lemma BelowStep(fds: set<nat>, i: nat)
    ensures |Below(fds, i + 1)| == |Below(fds, i)| + if i in fds then 1 else 0
    ensures Below(fds, 0) == {}
  {
    assert Below(fds, i + 1) == Below(fds, i) + if i in fds then {i} else {};
  }

  lemma SubsetSmaller<T>(a: set<T>, b: set<T>)
    requires a <= b
    ensures |a| <= |b| && (|a| == |b| ==> a == b)
  {
    assert b == a + (b - a) && a !! (b - a);
  }

  // count is what is left of select's result before descriptor i.
  ghost predicate Counted(r: set<nat>, w: set<nat>, e: set<nat>, i: nat, count: int) {
    count + |Below(r + w + e, i)| == |r| + |w| + |e|
  }

  lemma CountStep(r: set<nat>, w: set<nat>, e: set<nat>, i: nat, count: int)
    ensures Counted(r, w, e, 0, |r| + |w| + |e|)
    ensures Counted(r, w, e, i, count) ==> Counted(r, w, e, i + 1, if i in r + w + e then count - 1 else count)
  {
    BelowStep(r + w + e, i);
  }

  // The count that select returns counts a descriptor once for each set that
  // holds it, but it is decremented once for each visit: it cannot run out
  // while a ready descriptor is left.
  lemma CountOutlastsPass(r: set<nat>, w: set<nat>, e: set<nat>, i: nat, count: int)
    requires Counted(r, w, e, i, count)
    ensures 0 <= count
    ensures count == 0 ==> forall fd | fd in r + w + e :: fd < i
  {
    var ready := r + w + e;
    SubsetSmaller(Below(ready, i), ready);
    assert ready == r + (w - r) + (e - r - w);
    SubsetSmaller(w - r, w);
    SubsetSmaller(e - r - w, e);
    assert |ready| == |r| + |w - r| + |e - r - w|;
  }

  // ----- passes -----

  // A pass of the loop: what select reported, the clients there were, and the
  // visits that were made.
  datatype Pass = Pass(r: set<nat>, w: set<nat>, e: set<nat>, clients: set<nat>, httpClients: set<nat>,
                       visits: seq<Visited>)

  function FdsOf(visits: seq<Visited>): set<nat> {
    set v | v in visits :: v.fd
  }

  // The visits are to different descriptors, in order, each in the way that is
  // tried first for it and in the table it was in.
  predicate Orderly(p: Pass) {
    && (forall j, k | 0 <= j < k < |p.visits| :: p.visits[j].fd < p.visits[k].fd)
    && (forall k | 0 <= k < |p.visits| ::
          var v := p.visits[k];
          && v.way == (if v.fd in p.r then Reading else if v.fd in p.w then Writing else Failing)
          && (v.fd in v.before.clients <==> v.fd in p.clients)
          && (v.fd in v.before.httpClients <==> v.fd in p.httpClients))
  }

  // The pass has reached descriptor upTo.
  predicate Reached(p: Pass, upTo: nat) {
    Orderly(p) && FdsOf(p.visits) == Below(p.r + p.w + p.e, upTo)
  }

  // All that was ready was visited.
  predicate Complete(p: Pass) {
    && Orderly(p) && FdsOf(p.visits) == p.r + p.w + p.e
    && forall k | 0 <= k < |p.visits| :: !p.visits[k].ends
  }

  lemma VisitNext(p: Pass, i: nat, v: Visited)
    requires Reached(p, i) && v.fd == i && i in p.r + p.w + p.e
    requires v.way == if i in p.r then Reading else if i in p.w then Writing else Failing
    requires (i in v.before.clients <==> i in p.clients) && (i in v.before.httpClients <==> i in p.httpClients)
    ensures Reached(p.(visits := p.visits + [v]), i + 1)
  {
    var more := p.visits + [v];
    assert FdsOf(more) == FdsOf(p.visits) + {i};
    assert Below(p.r + p.w + p.e, i + 1) == Below(p.r + p.w + p.e, i) + {i};
    forall k | 0 <= k < |p.visits|
      ensures p.visits[k].fd < i
    {
      assert p.visits[k].fd in FdsOf(p.visits);
    }
  }

  lemma SkipNext(p: Pass, i: nat)
    requires Reached(p, i) && i !in p.r + p.w + p.e
    ensures Reached(p, i + 1)
  {
    assert Below(p.r + p.w + p.e, i + 1) == Below(p.r + p.w + p.e, i);
  }

  lemma ReachedAll(p: Pass, i: nat)
    requires Reached(p, i) && (forall fd | fd in p.r + p.w + p.e :: fd < i)
    requires forall k | 0 <= k < |p.visits| :: !p.visits[k].ends
    ensures Complete(p)
  {
    assert Below(p.r + p.w + p.e, i) == p.r + p.w + p.e;
  }

  lemma ReachedOrderly(p: Pass, i: nat)
    requires Reached(p, i)
    ensures Orderly(p)
  {
  }

  lemma NothingYet(p: Pass)
    requires p.visits == []
    ensures Reached(p, 0)
  {
    assert Below(p.r + p.w + p.e, 0) == {};
  }

  // In a complete pass every ready descriptor is visited once. It is read or
  // its connection accepted exactly if it was reported readable, written
  // exactly if it was reported writable only, and failed exactly if it had
  // nothing but an exception; by the handlers of its own kind.
  lemma ServedAsReported(p: Pass, l: Listeners, fd: nat) returns (k: nat)
    requires Complete(p) && (forall k | 0 <= k < |p.visits| :: Settled(p.visits[k], l)) && fd in p.r + p.w + p.e
    ensures k < |p.visits| && p.visits[k].fd == fd
    ensures forall j | 0 <= j < |p.visits| && j != k :: p.visits[j].fd != fd
    ensures var call := p.visits[k].call;
      && (fd in p.r <==> call.Accept? || (call.Task? && call.handler in {HeartbeatRead, SimpleRead, HttpRead}))
      && (fd in p.w - p.r <==> call.Task? && call.handler in {HeartbeatWrite, SimpleWrite, HttpWrite})
      && (fd in p.e - p.r - p.w <==> call.NoCall?)
      && (call.Accept? <==> fd in p.r && (fd == l.tcp || fd == l.http))
      && (call.Accept? ==> call.listener == fd)
      && (call.Task? ==> call.fd == fd)
      && (call.Task? && call.handler in {HeartbeatRead, HeartbeatWrite} <==> fd == l.udp && fd in p.r + p.w)
      && (call.Task? && call.handler in {HttpRead, HttpWrite} <==> fd in p.httpClients && fd in p.r + p.w)
      && (call.Task? && call.handler in {SimpleRead, SimpleWrite} <==> fd in p.clients && fd in p.r + p.w)
      && (call.NoCall? ==> fd in p.clients + p.httpClients)
  {
    assert fd in FdsOf(p.visits);
    k :| 0 <= k < |p.visits| && p.visits[k].fd == fd;
    forall j | 0 <= j < |p.visits| && j != k
      ensures p.visits[j].fd != fd
    {
      assert j < k || k < j;
    }
  }

  // What select reported, pass by pass.
  datatype Report = Report(r: set<nat>, w: set<nat>, e: set<nat>)

  ghost predicate Answers(passes: seq<Pass>, reports: seq<Report>) {
    && |passes| == |reports|
    && forall k | 0 <= k < |passes| :: Report(passes[k].r, passes[k].w, passes[k].e) == reports[k]
  }

  // Only the last pass of a loop that ends with -1 may leave something out.
  ghost predicate CompleteButLast(passes: seq<Pass>, retVal: int) {
    && (forall k | 0 <= k < |passes| :: Orderly(passes[k]))
    && (forall k | 0 <= k < |passes| :: k < |passes| - 1 || retVal == 0 ==> Complete(passes[k]))
  }

  // All visits of all passes, in order.
  function AllVisits(passes: seq<Pass>): seq<Visited> {
    if passes == [] then [] else AllVisits(passes[..|passes| - 1]) + passes[|passes| - 1].visits
  }

  lemma NoPass()
    ensures Answers([], []) && CompleteButLast([], 0) && AllVisits([]) == []
  {
  }

  lemma FailedSelect(passes: seq<Pass>)
    requires CompleteButLast(passes, 0)
    ensures CompleteButLast(passes, -1)
  {
  }

  lemma NextPass(passes: seq<Pass>, reports: seq<Report>, p: Pass, retVal: int)
    requires Answers(passes, reports) && CompleteButLast(passes, 0)
    requires Orderly(p) && (retVal == 0 ==> Complete(p))
    ensures Answers(passes + [p], reports + [Report(p.r, p.w, p.e)])
    ensures CompleteButLast(passes + [p], retVal)
    ensures AllVisits(passes + [p]) == AllVisits(passes) + p.visits
  {
    hide Complete, Orderly;
    assert (passes + [p])[..|passes|] == passes;
  }

  lemma NothingReady(p: Pass)
    requires |p.r| + |p.w| + |p.e| == 0 && p.visits == []
    ensures Complete(p)
  {
    assert p.r == {} && p.w == {} && p.e == {};
  }
}
