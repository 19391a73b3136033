// Counting the elements of a sequence that satisfy a predicate.

module Counting {

  function Count<W>(ws: seq<W>, p: W -> bool): nat {
    if ws == [] then 0 else (if p(ws[0]) then 1 else 0) + Count(ws[1..], p)
  }

  lemma {:induction false} CountUpdate<W>(ws: seq<W>, i: nat, w: W, p: W -> bool)
    requires i < |ws|
    ensures Count(ws[i := w], p) == Count(ws, p) - (if p(ws[i]) then 1 else 0) + (if p(w) then 1 else 0)
  {
    if i == 0 {
      assert ws[i := w][1..] == ws[1..];
    } else {
      CountUpdate(ws[1..], i - 1, w, p);
      assert ws[i := w][1..] == ws[1..][i - 1 := w];
    }
  }

  lemma {:induction false} CountPositive<W>(ws: seq<W>, p: W -> bool)
    ensures Count(ws, p) > 0 <==> exists i :: 0 <= i < |ws| && p(ws[i])
  {
    if ws != [] {
      CountPositive(ws[1..], p);
      if i :| 0 <= i < |ws| && p(ws[i]) && i != 0 {
        assert ws[1..][i - 1] == ws[i];
      }
    }
  }

  // Elements may move in and out of p, but none of them leaves it.
  lemma {:induction false} CountMonotone<W>(ws: seq<W>, ws': seq<W>, p: W -> bool, q: W -> bool)
    requires |ws'| == |ws| && forall i | 0 <= i < |ws| :: p(ws[i]) ==> q(ws'[i])
    ensures Count(ws, p) <= Count(ws', q)
    ensures (exists i :: 0 <= i < |ws| && q(ws'[i]) && !p(ws[i])) ==> Count(ws, p) < Count(ws', q)
  {
    if ws != [] {
      CountMonotone(ws[1..], ws'[1..], p, q);
      if i :| 0 <= i < |ws| && q(ws'[i]) && !p(ws[i]) && i != 0 {
        assert q(ws'[1..][i - 1]) && !p(ws[1..][i - 1]);
      }
    }
  }
}
