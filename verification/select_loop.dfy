// The server's event loop: the descriptor set that select watches, and the
// two client tables beside it.

module SelectLoop {
  import opened Options
  import opened DescriptorLog
  import opened LoopLog

  const MAX_CLIENTS := 1024

  datatype Client = Client(fd: nat)

  // ----- the client tables -----

  // clients or http_clients, indexed by descriptor.
  class Table {
    const slots: array<Option<Client>>

    ghost predicate Valid()
      reads slots
    {
      && slots.Length == MAX_CLIENTS
      && forall i | 0 <= i < MAX_CLIENTS :: slots[i].Some? ==> slots[i].value.fd == i && 0 < i
    }

    ghost function Fds(): (fds: set<nat>)
      reads slots
      ensures forall fd: nat :: fd in fds <==> fd < slots.Length && slots[fd].Some?
    {
      set fd: nat | fd < slots.Length && slots[fd].Some?
    }

    constructor ()
      ensures Valid() && Fds() == {} && fresh(slots)
    {
      slots := new Option<Client>[MAX_CLIENTS](_ => None);
    }

    // create_client_tcp_data and create_client_http_data, whose result goes
    // into the slot of fd.
    method Create(fd: nat, port: nat) returns (ok: bool)
      requires Valid() && fd < MAX_CLIENTS && fd !in Fds()
      modifies slots
      ensures Valid() && (ok <==> 0 < fd && 0 < port)
      ensures Fds() == if ok then old(Fds()) + {fd} else old(Fds())
    {
      ok := 0 < fd && 0 < port;
      slots[fd] := if ok then Some(Client(fd)) else None;
    }

    // free_client_tcp_data and free_client_http_data: what they close.
    method Free(fd: nat) returns (closed: Option<nat>)
      requires Valid() && fd < MAX_CLIENTS
      modifies slots
      ensures Valid() && Fds() == old(Fds()) - {fd}
      ensures closed == if fd in old(Fds()) then Some(fd) else None
    {
      closed := None;
      if slots[fd].Some? {
        if slots[fd].value.fd > 0 {
          closed := Some(slots[fd].value.fd);
        }
        slots[fd] := None;
      }
    }
  }

  // ----- the loop -----

  // What holds of the descriptor set between any two steps. Only a run that is
  // about to end (not going) may have dropped a listener.
  ghost predicate Consistent(listeners: set<nat>, tcps: set<nat>, clients: set<nat>, httpClients: set<nat>,
                             master: set<nat>, maxFd: nat, going: bool, events: seq<Event>)
  {
    var open := listeners + clients + httpClients;
    && clients !! httpClients && listeners !! clients + httpClients
    && maxFd < MAX_CLIENTS && (forall fd | fd in open :: fd <= maxFd)
    && open - tcps <= master <= open && (going ==> master == open)
    && Proper(events) && OpenAfter(events) == clients + httpClients
  }

  lemma AcceptKeeps(listeners: set<nat>, tcps: set<nat>, clients: set<nat>, httpClients: set<nat>,
                    master: set<nat>, maxFd: nat, events: seq<Event>, n: nat)
    requires Consistent(listeners, tcps, clients, httpClients, master, maxFd, true, events)
    requires n < MAX_CLIENTS && n !in listeners + clients + httpClients
    ensures n !in master
    ensures var max, log := if n > maxFd then n else maxFd, events + [Opened(n)];
      && Consistent(listeners, tcps, clients + {n}, httpClients, master + {n}, max, true, log)
      && Consistent(listeners, tcps, clients, httpClients + {n}, master + {n}, max, true, log)
      && Consistent(listeners, tcps, clients, httpClients, master + {n} - {n}, max, false, log + [Event.Closed(n)])
  {
    hide Proper, OpenAfter;
    LogOne(events, Opened(n));
    LogOne(events + [Opened(n)], Event.Closed(n));
    assert clients + httpClients + {n} - {n} == clients + httpClients;
    assert clients + {n} + httpClients == clients + httpClients + {n} == clients + (httpClients + {n});
  }

  lemma Ending(listeners: set<nat>, tcps: set<nat>, clients: set<nat>, httpClients: set<nat>,
               master: set<nat>, maxFd: nat, events: seq<Event>)
    requires Consistent(listeners, tcps, clients, httpClients, master, maxFd, true, events)
    ensures Consistent(listeners, tcps, clients, httpClients, master, maxFd, false, events)
  {
  }

  lemma DropKeeps(listeners: set<nat>, tcps: set<nat>, clients: set<nat>, httpClients: set<nat>,
                  master: set<nat>, maxFd: nat, going: bool, events: seq<Event>, n: nat)
    requires Consistent(listeners, tcps, clients, httpClients, master, maxFd, going, events)
    requires n in clients + httpClients
    ensures Consistent(listeners, tcps, clients - {n}, httpClients - {n}, master - {n}, maxFd, going,
                       events + [Event.Closed(n)])
  {
    hide Proper, OpenAfter;
    LogOne(events, Event.Closed(n));
    assert clients + httpClients - {n} == (clients - {n}) + (httpClients - {n});
  }

  class Server {
    const tcp: nat
    const udp: nat
    const http: nat
    const clients: Table
    const httpClients: Table
    var master: set<nat>
    var maxFd: nat
    var retVal: int
    var stop: bool
    ghost var events: seq<Event>
    ghost var calls: seq<Call>
    ghost var visits: seq<Visited>
    ghost var reports: seq<Report>

    ghost predicate Valid()
      reads this, clients.slots, httpClients.slots
    {
      && clients.Valid() && httpClients.Valid() && clients.slots != httpClients.slots
      && tcp != udp && udp != http && http != tcp && (retVal == 0 || retVal == -1)
      && Consistent({tcp, udp, http}, {tcp, http}, clients.Fds(), httpClients.Fds(),
                    master, maxFd, retVal == 0, events)
    }

    ghost function Now(): State
      reads this, clients.slots, httpClients.slots
    {
      State(master, clients.Fds(), httpClients.Fds(), events)
    }

    // The server before its first visit.
    ghost function First(): State {
      State({tcp, udp, http}, {}, {}, [])
    }

    // Between visits: what has happened is what the visits log.
    ghost predicate Logged()
      reads this, clients.slots, httpClients.slots
    {
      && Valid() && History(visits, Listeners(tcp, udp, http), First(), Now()) && calls == CallsOf(visits)
      && (retVal == 0 ==> visits == [] || !visits[|visits| - 1].ends)
    }

    ghost function Open(): set<nat>
      reads clients.slots, httpClients.slots
    {
      {tcp, udp, http} + clients.Fds() + httpClients.Fds()
    }

    constructor (tcp: nat, udp: nat, http: nat)
      requires tcp != udp && udp != http && http != tcp
      requires tcp < MAX_CLIENTS && udp < MAX_CLIENTS && http < MAX_CLIENTS
      ensures Logged() && retVal == 0 && events == [] && visits == [] && reports == []
      ensures master == {tcp, udp, http} && clients.Fds() == httpClients.Fds() == {}
      ensures fresh(clients.slots) && fresh(httpClients.slots)
      ensures this.tcp == tcp && this.udp == udp && this.http == http
    {
      this.tcp, this.udp, this.http := tcp, udp, http;
      clients := new Table();
      httpClients := new Table();
      master := {tcp, udp, http};
      maxFd := if tcp < udp then (if udp < http then http else udp) else (if tcp < http then http else tcp);
      retVal := 0;
      stop := false;
      events, calls, visits, reports := [], [], [], [];
    }

    // The C library's accept: any descriptor that is not open, or a failure.
    method Accept(listener: nat) returns (fd: Option<nat>, port: nat)
      requires Valid()
      modifies this`calls
      ensures fd.Some? ==> fd.value < MAX_CLIENTS && fd.value !in Open()
      ensures calls == old(calls) + [Call.Accept(listener, fd, port)]
    {
      var got: nat :| got < MAX_CLIENTS;
      port := *;
      var free := got != tcp && got != udp && got != http && clients.slots[got].None? && httpClients.slots[got].None?;
      fd := if free then Some(got) else None;
      calls := calls + [Call.Accept(listener, fd, port)];
    }

    // A new connection on a listening socket.
    method NewClient(listener: nat, table: Table) returns (ghost call: Call)
      requires Valid() && retVal == 0 && (table == clients || table == httpClients)
      modifies this`master, this`maxFd, this`retVal, this`events, this`calls, table.slots
      ensures Valid() && call.Accept? && call.listener == listener && calls == old(calls) + [call]
      ensures match call.got
        case None => retVal == -1 && Now() == old(Now())
        case Some(n) =>
          && n !in old(Open())
          && if 0 < n && 0 < call.port then
               retVal == 0 && Now() == Joined(old(Now()), n, table == httpClients)
             else
               retVal == -1 && Now() == old(Now()).(events := old(events) + [Opened(n), Event.Closed(n)])
    {
      hide Consistent;
      var fd, port := Accept(listener);
      call := Call.Accept(listener, fd, port);
      if fd.None? {
        retVal := -1;
        Ending({tcp, udp, http}, {tcp, http}, clients.Fds(), httpClients.Fds(), master, maxFd, events);
      } else {
        Enroll(table, fd.value, port);
      }
    }

    // The record of an accepted client.
    method Enroll(table: Table, n: nat, port: nat)
      requires Valid() && retVal == 0 && (table == clients || table == httpClients)
      requires n < MAX_CLIENTS && n !in Open()
      modifies this`master, this`maxFd, this`retVal, this`events, table.slots
      ensures Valid()
      ensures if 0 < n && 0 < port then
                retVal == 0 && Now() == Joined(old(Now()), n, table == httpClients)
              else
                retVal == -1 && Now() == old(Now()).(events := old(events) + [Opened(n), Event.Closed(n)])
    {
      hide Consistent;
      AcceptKeeps({tcp, udp, http}, {tcp, http}, clients.Fds(), httpClients.Fds(), master, maxFd, events, n);
      master := master + {n};
      if n > maxFd {
        maxFd := n;
      }
      events := events + [Opened(n)];
      var ok := table.Create(n, port);
      if !ok {
        retVal := -1;
        master := master - {n};
        events := events + [Event.Closed(n)];
        assert old(events) + [Opened(n)] + [Event.Closed(n)] == old(events) + [Opened(n), Event.Closed(n)];
      }
    }

    // Frees the record of a client and forgets its descriptor.
    method Drop(table: Table, fd: nat)
      requires Valid() && fd in Open() && (table == clients || table == httpClients)
      requires fd in table.Fds() || (retVal == -1 && (fd == tcp || fd == http))
      modifies this`master, this`events, table.slots
      ensures Valid()
      ensures Now() == if fd in old(table.Fds()) then Gone(old(Now()), fd)
                       else old(Now()).(master := old(master) - {fd})
    {
      hide Consistent;
      DropAny(fd);
      assert fd !in clients.Fds() ==> clients.Fds() - {fd} == clients.Fds();
      assert fd !in httpClients.Fds() ==> httpClients.Fds() - {fd} == httpClients.Fds();
      var closed := table.Free(fd);
      if closed.Some? {
        events := events + [Event.Closed(fd)];
      }
      master := master - {fd};
    }

    lemma DropAny(fd: nat)
      requires Valid() && fd in Open() && (fd !in clients.Fds() + httpClients.Fds() ==> retVal == -1 && fd != udp)
      ensures fd !in clients.Fds() || fd !in httpClients.Fds()
      ensures fd == tcp || fd == http ==> fd !in clients.Fds() + httpClients.Fds()
      ensures var log := if fd in clients.Fds() + httpClients.Fds() then events + [Event.Closed(fd)] else events;
        Consistent({tcp, udp, http}, {tcp, http}, clients.Fds() - {fd}, httpClients.Fds() - {fd},
                   master - {fd}, maxFd, retVal == 0, log)
    {
      if fd in clients.Fds() + httpClients.Fds() {
        DropKeeps({tcp, udp, http}, {tcp, http}, clients.Fds(), httpClients.Fds(), master, maxFd,
                  retVal == 0, events, fd);
      } else {
        assert clients.Fds() - {fd} == clients.Fds() && httpClients.Fds() - {fd} == httpClients.Fds();
      }
    }

    // threadpool_add and threadpool_wait: the task may be refused, and a
    // handler gives nothing exactly if it is given nothing.
    method RunTask(fd: nat, handler: Handler, given: bool) returns (added: bool, outcome: Option<Outcome>)
      modifies this`calls
      ensures outcome.Some? <==> given
      ensures calls == old(calls) + [Task(fd, handler, added, outcome)]
    {
      added := *;
      var some: Outcome := *;
      outcome := if given then Some(some) else None;
      calls := calls + [Task(fd, handler, added, outcome)];
    }

    // Reading or writing for the heartbeats.
    method ServeHeartbeat(handler: Handler) returns (ghost call: Call)
      requires Valid() && retVal == 0
      modifies this`retVal, this`calls
      ensures Valid() && Now() == old(Now()) && call.Task? && call.fd == udp && call.handler == handler
      ensures calls == old(calls) + [call] && retVal == if call.added then 0 else -1
    {
      var added, outcome := RunTask(udp, handler, true);
      call := Task(udp, handler, added, outcome);
      if !added || outcome.None? {
        retVal := -1;
      }
    }

    // Reading or writing for a client. A listening socket that is taken for a
    // client has no record, which ends the loop. A client is let go when its
    // task was refused, failed or found the connection closed.
    method ServeClient(table: Table, fd: nat, handler: Handler) returns (ghost call: Call)
      requires Valid() && retVal == 0 && (table == clients || table == httpClients)
      requires fd in table.Fds() || fd == tcp || fd == http
      modifies this`master, this`retVal, this`events, this`calls, table.slots
      ensures Valid() && call.Task? && call.fd == fd && call.handler == handler && calls == old(calls) + [call]
      ensures call.outcome.Some? <==> fd in old(table.Fds())
      ensures retVal == if call.added && call.outcome.Some? then 0 else -1
      ensures fd in old(table.Fds()) ==>
                Now() == if !call.added || call.outcome == Some(ERROR) || call.outcome == Some(CLOSED)
                         then Gone(old(Now()), fd) else old(Now())
      ensures fd !in old(table.Fds()) ==>
                Now() == old(Now()).(master := if call.added then old(master) else old(master) - {fd})
    {
      var added, outcome := RunTask(fd, handler, table.slots[fd].Some?);
      call := Task(fd, handler, added, outcome);
      if !added {
        retVal := -1;
        Drop(table, fd);
      } else if outcome.None? {
        retVal := -1;
      } else if outcome.value == ERROR || outcome.value == CLOSED {
        Drop(table, fd);
      }
    }

    // An exception on a descriptor.
    method Fail(i: nat)
      requires Valid() && retVal == 0 && i in master
      modifies this`master, this`retVal, this`events, clients.slots, httpClients.slots
      ensures Valid()
      ensures if i == tcp || i == udp || i == http then retVal == -1 && Now() == old(Now())
              else retVal == 0 && Now() == Gone(old(Now()), i)
    {
      if i != tcp && i != udp && i != http {
        if httpClients.slots[i].Some? {
          Drop(httpClients, i);
        } else {
          Drop(clients, i);
        }
      } else {
        retVal := -1;
      }
    }

    // The handling of a descriptor that is no client: one of the listening
    // sockets.
    method ServeListener(i: nat, way: Way) returns (ghost call: Call)
      requires Valid() && retVal == 0 && way != Failing && (i == tcp || i == udp || i == http)
      modifies this`master, this`maxFd, this`retVal, this`events, this`calls, clients.slots, httpClients.slots
      ensures Valid() && calls == old(calls) + [call] && !call.NoCall?
      ensures Settled(Visited(i, way, call, old(Now()), Now(), retVal == -1), Listeners(tcp, udp, http))
    {
      Bounded();
      hide Consistent;
      if way == Reading && i == tcp {
        call := NewClient(i, clients);
      } else if way == Reading && i == http {
        call := NewClient(i, httpClients);
      } else if i == udp {
        call := ServeHeartbeat(if way == Reading then HeartbeatRead else HeartbeatWrite);
      } else {
        call := ServeClient(clients, i, if way == Reading then SimpleRead else SimpleWrite);
      }
    }

    // One descriptor that select reported.
    method Serve(i: nat, way: Way) returns (ghost call: Call)
      requires Valid() && retVal == 0 && i in master
      modifies this`master, this`maxFd, this`retVal, this`events, this`calls, clients.slots, httpClients.slots
      ensures Valid() && calls == old(calls) + if call.NoCall? then [] else [call]
      ensures Settled(Visited(i, way, call, old(Now()), Now(), retVal == -1), Listeners(tcp, udp, http))
    {
      Bounded();
      hide Consistent, Admitted;
      call := NoCall;
      if way == Failing {
        Fail(i);
      } else if i == tcp || i == udp || i == http {
        call := ServeListener(i, way);
      } else if httpClients.slots[i].Some? {
        call := ServeClient(httpClients, i, if way == Reading then HttpRead else HttpWrite);
      } else {
        call := ServeClient(clients, i, if way == Reading then SimpleRead else SimpleWrite);
      }
    }

    // The same with its entry in the log.
    method Visit(i: nat, way: Way) returns (ghost v: Visited)
      requires Logged() && retVal == 0 && i in master
      modifies this`master, this`maxFd, this`retVal, this`events, this`calls, this`visits
      modifies clients.slots, httpClients.slots
      ensures Logged() && visits == old(visits) + [v] && Settled(v, Listeners(tcp, udp, http))
      ensures v.fd == i && v.way == way && v.before == old(Now()) && v.after == Now() && v.ends == (retVal == -1)
      ensures calls == old(calls) + if v.call.NoCall? then [] else [v.call]
    {
      hide Consistent, Settled, History, CallsOf;
      ghost var call := Serve(i, way);
      v := Visited(i, way, call, old(Now()), Now(), retVal == -1);
      Log(v);
    }

    ghost method Log(v: Visited)
      requires Valid() && Settled(v, Listeners(tcp, udp, http)) && v.after == Now() && v.ends == (retVal == -1)
      requires History(visits, Listeners(tcp, udp, http), First(), v.before)
      requires visits == [] || !visits[|visits| - 1].ends
      requires calls == CallsOf(visits) + if v.call.NoCall? then [] else [v.call]
      modifies this`visits
      ensures Logged() && visits == old(visits) + [v] && Now() == old(Now())
    {
      hide Consistent, Settled, History, CallsOf;
      HistoryStep(visits, Listeners(tcp, udp, http), First(), v);
      visits := visits + [v];
    }

    // In the middle of pass p, before descriptor i: what is ready from there on
    // is still what it was.
    ghost predicate Midway(p: Pass, before: seq<Visited>, i: nat)
      reads this, clients.slots, httpClients.slots
    {
      && Logged() && retVal == 0 && visits == before + p.visits && Reached(p, i)
      && (forall k | 0 <= k < |p.visits| :: !p.visits[k].ends)
      && (forall fd | fd in p.r + p.w + p.e && fd >= i ::
            && fd in master
            && (fd in clients.Fds() <==> fd in p.clients) && (fd in httpClients.Fds() <==> fd in p.httpClients))
    }

    // After a visit that ended the loop, or before the next one.
    ghost predicate Passed(p: Pass, before: seq<Visited>, i: nat)
      reads this, clients.slots, httpClients.slots
    {
      if retVal == 0 then Midway(p, before, i) else Logged() && visits == before + p.visits && Reached(p, i)
    }

    // The if statements on the three sets.
    method VisitReady(r: set<nat>, w: set<nat>, ghost p: Pass, ghost before: seq<Visited>, i: nat)
      returns (ghost more: Pass)
      requires Midway(p, before, i) && i in p.r + p.w + p.e && r == p.r && w == p.w
      modifies this`master, this`maxFd, this`retVal, this`events, this`calls, this`visits
      modifies clients.slots, httpClients.slots
      ensures (retVal == 0 || retVal == -1) && more == p.(visits := more.visits) && Passed(more, before, i + 1)
    {
      hide Consistent, Settled, History, CallsOf, Reached;
      Bounded();
      ghost var v := Visit(i, if i in r then Reading else if i in w then Writing else Failing);
      more := p.(visits := p.visits + [v]);
      VisitNext(p, i, v);
      forall fd | fd in p.r + p.w + p.e && fd > i
        ensures fd in v.after.master <==> fd in v.before.master
        ensures fd in v.after.clients <==> fd in v.before.clients
        ensures fd in v.after.httpClients <==> fd in v.before.httpClients
      {
        OthersStay(v, Listeners(tcp, udp, http), fd);
      }
      assert visits == before + more.visits;
    }

    lemma SkipStep(p: Pass, before: seq<Visited>, i: nat)
      requires Midway(p, before, i) && i !in p.r + p.w + p.e
      ensures Midway(p, before, i + 1) && retVal == 0
    {
      hide Consistent, History, CallsOf, Reached;
      SkipNext(p, i);
    }

    // The body of the for loop. left is what remains of select's result.
    method PassStep(r: set<nat>, w: set<nat>, e: set<nat>, ghost p: Pass, ghost before: seq<Visited>, i: nat,
                    selectRet: int)
      returns (left: int, ghost more: Pass)
      requires Midway(p, before, i) && r == p.r && w == p.w && e == p.e && Counted(r, w, e, i, selectRet)
      modifies this`master, this`maxFd, this`retVal, this`events, this`calls, this`visits
      modifies clients.slots, httpClients.slots
      ensures (retVal == 0 || retVal == -1) && more == p.(visits := more.visits)
      ensures Passed(more, before, i + 1) && Counted(r, w, e, i + 1, left)
    {
      hide Midway, Counted, Reached;
      CountStep(r, w, e, i, selectRet);
      left, more := selectRet, p;
      if i in r + w + e {
        left := left - 1;
        more := VisitReady(r, w, p, before, i);
      } else {
        SkipStep(p, before, i);
      }
    }

    lemma StartOfPass(p: Pass)
      requires Logged() && retVal == 0 && p.r + p.w + p.e <= master && p.visits == []
      requires p.clients == clients.Fds() && p.httpClients == httpClients.Fds()
      ensures Midway(p, visits, 0)
    {
      hide Reached, Consistent, History, CallsOf;
      NothingYet(p);
    }

    lemma MidwayFacts(p: Pass, before: seq<Visited>, i: nat)
      requires Midway(p, before, i)
      ensures Logged() && retVal == 0 && maxFd < MAX_CLIENTS && visits == before + p.visits && Reached(p, i)
      ensures forall fd | fd in p.r + p.w + p.e && fd >= i :: fd <= maxFd
    {
      hide Reached, History, CallsOf;
      Bounded();
    }

    lemma EndOfPass(p: Pass, before: seq<Visited>, i: nat, selectRet: int)
      requires Midway(p, before, i) && Counted(p.r, p.w, p.e, i, selectRet) && (i > maxFd || selectRet <= 0)
      ensures Complete(p)
    {
      hide Reached, History, CallsOf, Complete;
      CountOutlastsPass(p.r, p.w, p.e, i, selectRet);
      MidwayFacts(p, before, i);
      ReachedAll(p, i);
    }

    // The for loop over the descriptors of one pass.
    method HandlePass(r: set<nat>, w: set<nat>, e: set<nat>) returns (ghost p: Pass, ghost upTo: nat)
      requires Logged() && retVal == 0 && r + w + e <= master
      modifies this`master, this`maxFd, this`retVal, this`events, this`calls, this`visits
      modifies clients.slots, httpClients.slots
      ensures Logged() && visits == old(visits) + p.visits
      ensures p == Pass(r, w, e, old(clients.Fds()), old(httpClients.Fds()), p.visits)
      ensures Reached(p, upTo) && (retVal == 0 ==> Complete(p))
    {
      ghost var before := visits;
      ghost var start := Pass(r, w, e, clients.Fds(), httpClients.Fds(), []);
      p := start;
      var selectRet := |r| + |w| + |e|;
      CountStep(r, w, e, 0, selectRet);
      StartOfPass(p);
      hide Midway, Logged, Counted, Reached, Complete;
      var i: nat := 0;
      MidwayFacts(p, before, i);
      while i <= maxFd && selectRet > 0
        invariant Midway(p, before, i) && maxFd < MAX_CLIENTS && p == start.(visits := p.visits)
        invariant Counted(r, w, e, i, selectRet)
        decreases MAX_CLIENTS - i
      {
        selectRet, p := PassStep(r, w, e, p, before, i, selectRet);
        i := i + 1;
        if retVal == -1 {
          upTo := i;
          return;
        }
        MidwayFacts(p, before, i);
      }
      upTo := i;
      MidwayFacts(p, before, i);
      EndOfPass(p, before, i, selectRet);
    }

    // select: it fails, or it reports what it likes of what it watches.
    method Select() returns (failed: bool, r: set<nat>, w: set<nat>, e: set<nat>)
      modifies this`reports
      ensures r + w + e <= master
      ensures reports == if failed then old(reports) else old(reports) + [Report(r, w, e)]
    {
      failed := *;
      r, w, e := *, *, *;
      r, w, e := r * master, w * master, e * master;
      if !failed {
        reports := reports + [Report(r, w, e)];
      }
    }

    // free_clients_tcp_data and free_clients_http_data
    method FreeAll(table: Table, ghost others: set<nat>)
      requires table.Valid() && Proper(events)
      requires table.Fds() !! others && OpenAfter(events) == table.Fds() + others
      modifies this`events, table.slots
      ensures table.Valid() && table.Fds() == {}
      ensures Proper(events) && OpenAfter(events) == others && ClosesOnly(old(events), events)
    {
      hide Proper, OpenAfter;
      var i: nat := 0;
      while i < MAX_CLIENTS
        invariant i <= MAX_CLIENTS && table.Valid() && Proper(events) && ClosesOnly(old(events), events)
        invariant table.Fds() !! others && OpenAfter(events) == table.Fds() + others
        invariant forall fd | fd in table.Fds() :: i <= fd
      {
        var closed := table.Free(i);
        if closed.Some? {
          LogOne(events, Event.Closed(i));
          events := events + [Event.Closed(i)];
        }
        i := i + 1;
      }
      assert table.Fds() == {};
    }

    // One round of the main loop: a select and a pass over what it reports.
    method Round(ghost passes: seq<Pass>) returns (failed: bool, ghost more: seq<Pass>)
      requires Logged() && retVal == 0
      requires Answers(passes, reports) && CompleteButLast(passes, 0) && AllVisits(passes) == visits
      modifies this`master, this`maxFd, this`retVal, this`events, this`calls, this`visits, this`reports
      modifies clients.slots, httpClients.slots
      ensures Logged() && (retVal == 0 || retVal == -1)
      ensures Answers(more, reports) && CompleteButLast(more, retVal) && AllVisits(more) == visits
      ensures if failed then retVal == -1 && more == passes else |more| == |passes| + 1
    {
      hide Consistent, Complete, CompleteButLast, Answers, AllVisits, History, CallsOf, Reached, Orderly;
      ghost var before := reports;
      var r, w, e;
      failed, r, w, e := Select();
      if failed {
        retVal := -1;
        Ending({tcp, udp, http}, {tcp, http}, clients.Fds(), httpClients.Fds(), master, maxFd, events);
        FailedSelect(passes);
        return true, passes;
      }
      ghost var p := Pass(r, w, e, clients.Fds(), httpClients.Fds(), []);
      if |r| + |w| + |e| > 0 {
        ghost var upTo;
        p, upTo := HandlePass(r, w, e);
        ReachedOrderly(p, upTo);
      } else {
        NothingReady(p);
      }
      more := passes + [p];
      NextPass(passes, before, p, retVal);
    }

    // Behind the main loop.
    method CleanUp()
      requires Valid()
      modifies this`master, this`events, clients.slots, httpClients.slots
      ensures Proper(events) && OpenAfter(events) == {} && ClosesOnly(old(events), events)
      ensures master == {} && clients.Fds() == httpClients.Fds() == {}
    {
      hide Consistent, Proper, OpenAfter;
      Bounded();
      master := {};
      FreeAll(clients, httpClients.Fds());
      FreeAll(httpClients, {});
    }

    // handle_connections, for any number of passes: it ends by an error, by a
    // signal, or where one stops looking. last is how it was left to the
    // cleanup.
    method HandleConnections(rounds: nat) returns (ghost passes: seq<Pass>, ghost last: State)
      requires Logged() && retVal == 0 && reports == [] && visits == []
      modifies this, clients.slots, httpClients.slots
      ensures History(visits, Listeners(tcp, udp, http), First(), last) && calls == CallsOf(visits)
      ensures AllVisits(passes) == visits && Answers(passes, reports) && CompleteButLast(passes, retVal)
      ensures (retVal == 0 || retVal == -1) && (retVal == 0 && !stop ==> |passes| == rounds)
      ensures ClosesOnly(last.events, events) && Proper(events) && OpenAfter(events) == {}
      ensures master == {} && clients.Fds() == httpClients.Fds() == {}
    {
      NoPass();
      hide Consistent, Complete, Proper, OpenAfter, CompleteButLast, Answers, AllVisits, History, CallsOf;
      stop := false;
      var n: nat := 0;
      passes := [];
      while !stop && n < rounds
        invariant Logged()
        invariant (retVal == 0 || retVal == -1) && (!stop ==> retVal == 0) && n == |passes| <= rounds
        invariant Answers(passes, reports) && CompleteButLast(passes, retVal) && AllVisits(passes) == visits
      {
        var failed;
        failed, passes := Round(passes);
        if failed {
          break;
        }
        if retVal == -1 {
          stop := true;
        }
        if * {
          stop := true;
        }
        n := n + 1;
      }
      last := Now();
      CleanUp();
    }

    lemma Bounded()
      requires Valid()
      ensures maxFd < MAX_CLIENTS && (forall fd | fd in master :: fd <= maxFd) && master <= Open()
      ensures clients.Fds() !! httpClients.Fds() && {tcp, udp, http} !! clients.Fds() + httpClients.Fds()
      ensures retVal == 0 ==> master == Open()
      ensures Proper(events) && OpenAfter(events) == clients.Fds() + httpClients.Fds()
    {
    }
  }
}
