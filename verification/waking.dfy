// Who sleeps among the workers of a pool, and waking some of them.

module Waking {

  ghost function Sleepers<W(!new)>(ws: seq<W>, asleep: W -> bool): (r: set<nat>)
    ensures forall i: nat :: i in r <==> i < |ws| && asleep(ws[i])
  {
    set i: nat | i < |ws| && asleep(ws[i])
  }

  // Those of woken who sleep are ready afterwards.
  function Woken<W>(ws: seq<W>, woken: set<nat>, asleep: W -> bool, ready: W): (r: seq<W>)
    ensures |r| == |ws|
    ensures forall i | 0 <= i < |ws| :: r[i] == if i in woken && asleep(ws[i]) then ready else ws[i]
  {
    seq(|ws|, i requires 0 <= i < |ws| => if i in woken && asleep(ws[i]) then ready else ws[i])
  }
}
