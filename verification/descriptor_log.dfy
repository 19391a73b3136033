// What becomes of the descriptors that a server accepts.

module DescriptorLog {

  datatype Event = Opened(fd: nat) | Closed(fd: nat)

  function OpenAfter(events: seq<Event>): set<nat> {
    if events == [] then {}
    else
      var before := OpenAfter(events[..|events| - 1]);
      match events[|events| - 1]
      case Opened(fd) => before + {fd}
      case Closed(fd) => before - {fd}
  }

  // Only what is not open is opened, only what is open is closed.
  predicate Proper(events: seq<Event>) {
    if events == [] then true
    else
      var before, last := events[..|events| - 1], events[|events| - 1];
      Proper(before) && (last.fd in OpenAfter(before) <==> last.Closed?)
  }

  // From before on, descriptors are only closed.
  predicate ClosesOnly(before: seq<Event>, events: seq<Event>) {
    before <= events && forall k | |before| <= k < |events| :: events[k].Closed?
  }

  lemma LogOne(events: seq<Event>, e: Event)
    requires Proper(events) && (e.fd in OpenAfter(events) <==> e.Closed?)
    ensures Proper(events + [e])
    ensures OpenAfter(events + [e]) == if e.Opened? then OpenAfter(events) + {e.fd} else OpenAfter(events) - {e.fd}
  {
    assert (events + [e])[..|events|] == events;
  }

  // The close at q ends what was opened at p.
  ghost predicate ClosedAt(events: seq<Event>, p: nat, q: nat) {
    && p < q < |events| && events[p].Opened? && events[q] == Closed(events[p].fd)
    && forall k | p < k < q :: events[k].fd != events[p].fd
  }

  // Either a descriptor is still open or its close is found.
  lemma {:induction false} OpenOrClosed(events: seq<Event>, p: nat)
    requires Proper(events) && p < |events| && events[p].Opened?
    ensures (exists q: nat :: ClosedAt(events, p, q)) ||
            (events[p].fd in OpenAfter(events) && forall k | p < k < |events| :: events[k].fd != events[p].fd)
  {
    var n := |events| - 1;
    var before := events[..n];
    if p < n {
      OpenOrClosed(before, p);
      if q: nat :| ClosedAt(before, p, q) {
        assert ClosedAt(events, p, q);
      } else if events[n].fd == events[p].fd {
        assert before[p] == events[p];
        assert forall k | p < k < n :: before[k] == events[k];
        assert ClosedAt(events, p, n);
      }
    }
  }

  // Once nothing is open, every accepted descriptor was closed, and by one
  // close only, even if its number was given out again.
  lemma ClosedExactlyOnce(events: seq<Event>, p: nat)
    requires Proper(events) && OpenAfter(events) == {} && p < |events| && events[p].Opened?
    ensures exists q: nat :: ClosedAt(events, p, q)
    ensures forall q: nat, t: nat | ClosedAt(events, p, q) && ClosedAt(events, p, t) :: q == t
  {
    OpenOrClosed(events, p);
  }

  // No close is one too many: each ends an opening of its own.
  lemma {:induction false} CloseHasOpening(events: seq<Event>, q: nat)
    requires Proper(events) && q < |events| && events[q].Closed?
    ensures exists p: nat :: ClosedAt(events, p, q)
  {
    var n := |events| - 1;
    var before := events[..n];
    if q < n {
      CloseHasOpening(before, q);
      var p: nat :| ClosedAt(before, p, q);
      assert ClosedAt(events, p, q);
    } else {
      var p := LastOpening(before, events[q].fd);
      assert ClosedAt(events, p, q);
    }
  }

  lemma {:induction false} LastOpening(events: seq<Event>, fd: nat) returns (p: nat)
    requires Proper(events) && fd in OpenAfter(events)
    ensures p < |events| && events[p] == Opened(fd) && forall k | p < k < |events| :: events[k].fd != fd
  {
    var n := |events| - 1;
    if events[n] == Opened(fd) {
      p := n;
    } else {
      p := LastOpening(events[..n], fd);
    }
  }
}
