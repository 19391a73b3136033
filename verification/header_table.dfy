// The growing and shrinking array of headers behind add_header and
// remove_header.

module HeaderTable {

  datatype Header = Header(key: string, value: string)

  // The table as its users see it: a list, and the number of slots.
  datatype Table = Table(list: seq<Header>, count: nat)

  // The list without its first header of that key.
  function RemoveFirst(hs: seq<Header>, key: string): seq<Header> {
    if hs == [] then []
    else if hs[0].key == key then hs[1..]
    else [hs[0]] + RemoveFirst(hs[1..], key)
  }

  predicate HasKey(hs: seq<Header>, key: string) {
    exists i :: 0 <= i < |hs| && hs[i].key == key
  }

  function Added(t: Table, h: Header): Table {
    Table(t.list + [h], if |t.list| >= t.count then t.count + 1 else t.count)
  }

  // Removing may halve the number of slots, but never to none.
  function Removed(t: Table, key: string): Table {
    if !HasKey(t.list, key) then t
    else
      var list := RemoveFirst(t.list, key);
      Table(list, if |list| > 0 && |list| < t.count / 2 then t.count / 2 else t.count)
  }

  class Headers {
    var slots: array<Header>
    var index: nat
    var count: nat

    ghost predicate Valid()
      reads this
    {
      index <= count == slots.Length
    }

    ghost function View(): Table
      reads this, slots
      requires Valid()
    {
      Table(slots[..index], count)
    }

    // create_headers
    constructor (initial: nat)
      ensures Valid() && fresh(slots) && View() == Table([], initial)
    {
      slots := new Header[initial](_ => Header("", ""));
      index, count := 0, initial;
    }

    // realloc of the slots to count of them
    method Resize()
      requires index <= count && index <= slots.Length
      modifies this`slots
      ensures fresh(slots) && slots.Length == count
      ensures slots[..index] == old(slots[..index])
    {
      var was := slots;
      slots := new Header[count](k reads was => if 0 <= k < was.Length then was[k] else Header("", ""));
    }

    method Add(key: string, value: string)
      requires Valid()
      modifies this, slots
      ensures Valid() && (slots == old(slots) || fresh(slots))
      ensures View() == Added(old(View()), Header(key, value))
      ensures slots[..index] == old(slots[..index]) + [Header(key, value)]
      ensures count == if old(index) == old(count) then old(count) + 1 else old(count)
    {
      if index >= count {
        count := count + 1;
        Resize();
      }
      slots[index] := Header(key, value);
      index := index + 1;
    }

    // The first slot with that key, or index.
    method Find(key: string) returns (i: nat)
      requires Valid()
      ensures i <= index && (i < index ==> slots[i].key == key)
      ensures forall k | 0 <= k < i :: slots[k].key != key
    {
      i := 0;
      while i < index && slots[i].key != key
        invariant i <= index
        invariant forall k | 0 <= k < i :: slots[k].key != key
      {
        i := i + 1;
      }
    }

    // Shifts the headers after slot i to the left.
    method CloseGap(i: nat)
      requires Valid() && i < index
      modifies this`index, slots
      ensures Valid() && index == old(index) - 1
      ensures slots[..index] == old(slots[..i] + slots[i + 1..index])
    {
      var j := i;
      while j < index - 1
        invariant index == old(index) && i <= j <= index - 1
        invariant forall k | 0 <= k < i || j <= k < index :: slots[k] == old(slots[k])
        invariant forall k | i <= k < j :: slots[k] == old(slots[k + 1])
      {
        slots[j] := slots[j + 1];
        j := j + 1;
      }
      index := index - 1;
    }

    method Remove(key: string) returns (found: bool)
      requires Valid()
      modifies this, slots
      ensures Valid() && (slots == old(slots) || fresh(slots))
      ensures found <==> HasKey(old(View()).list, key)
      ensures View() == Removed(old(View()), key)
      ensures !found ==> slots[..index] == old(slots[..index]) && count == old(count)
      ensures found ==>
                && index == old(index) - 1
                && (exists i: nat :: i < old(index) && old(slots[i]).key == key
                      && (forall k | 0 <= k < i :: old(slots[k]).key != key)
                      && slots[..index] == old(slots[..i]) + old(slots[i + 1..index]))
                && count == if 0 < index && index < old(count) / 2 then old(count) / 2 else old(count)
    {
      ghost var list := slots[..index];
      var i := Find(key);
      assert forall k | 0 <= k < index :: list[k] == slots[k];
      if i == index {
        return false;
      }
      RemoveFirstAt(list, key, i);
      CloseGap(i);
      assert slots[..index] == list[..i] + list[i + 1..];
      if index > 0 && index < count / 2 {
        count := count / 2;
        Resize();
      }
      found := true;
    }
  }

  // What is removed is the first header of that key, and nothing else moves.
  lemma {:induction false} RemoveFirstAt(hs: seq<Header>, key: string, i: nat)
    requires i < |hs| && hs[i].key == key && forall k | 0 <= k < i :: hs[k].key != key
    ensures RemoveFirst(hs, key) == hs[..i] + hs[i + 1..]
  {
    if i > 0 {
      RemoveFirstAt(hs[1..], key, i - 1);
    }
  }

  // ----- runs of additions and removals -----

  datatype Op = Add(header: Header) | Remove(key: string)

  function Run(t: Table, ops: seq<Op>): Table {
    if ops == [] then t
    else
      var before := Run(t, ops[..|ops| - 1]);
      match ops[|ops| - 1]
      case Add(h) => Added(before, h)
      case Remove(key) => Removed(before, key)
  }

  predicate AddsOnly(ops: seq<Op>) {
    forall k | 0 <= k < |ops| :: ops[k].Add?
  }

  // However it grows and shrinks, the table has a slot for every header.
  lemma {:induction false} EveryHeaderHasSlot(t: Table, ops: seq<Op>)
    requires |t.list| <= t.count
    ensures |Run(t, ops).list| <= Run(t, ops).count
  {
    if ops != [] {
      EveryHeaderHasSlot(t, ops[..|ops| - 1]);
      if ops[|ops| - 1].Remove? {
        RemoveShortens(Run(t, ops[..|ops| - 1]).list, ops[|ops| - 1].key);
      }
    }
  }

  lemma {:induction false} RemoveShortens(hs: seq<Header>, key: string)
    ensures |RemoveFirst(hs, key)| == if HasKey(hs, key) then |hs| - 1 else |hs|
  {
    if hs != [] && hs[0].key != key {
      RemoveShortens(hs[1..], key);
      if i :| 0 <= i < |hs| && hs[i].key == key {
        assert hs[1..][i - 1].key == key;
      }
      if i :| 0 <= i < |hs[1..]| && hs[1..][i].key == key {
        assert hs[i + 1].key == key;
      }
    }
  }

  // From the one slot that the server starts with, a run of additions leaves
  // no empty slot, so printing header_count headers prints the list.
  lemma {:induction false} AddsFillEverySlot(ops: seq<Op>)
    requires AddsOnly(ops)
    ensures var t := Run(Table([], 1), ops);
      && |t.list| == |ops| && (forall k | 0 <= k < |ops| :: t.list[k] == ops[k].header)
      && t.count == if ops == [] then 1 else |t.list|
  {
    if ops != [] {
      AddsFillEverySlot(ops[..|ops| - 1]);
    }
  }

  // A removal always leaves a slot that is counted but not filled: printing
  // header_count headers right after it would read past the list.
  lemma RemovalLeavesSlot(t: Table, key: string)
    requires |t.list| <= t.count && HasKey(t.list, key)
    ensures |Removed(t, key).list| < Removed(t, key).count
  {
    RemoveShortens(t.list, key);
  }

  lemma {:induction false} RunConcat(t: Table, ops: seq<Op>, more: seq<Op>)
    ensures Run(t, ops + more) == Run(Run(t, ops), more)
  {
    if more == [] {
      assert ops + more == ops;
    } else {
      var n := |ops + more| - 1;
      assert (ops + more)[..n] == ops + more[..|more| - 1] && (ops + more)[n] == more[|more| - 1];
      RunConcat(t, ops, more[..|more| - 1]);
    }
  }

  lemma {:induction false} AddsFillSlots(t: Table, adds: seq<Op>)
    requires AddsOnly(adds) && |t.list| <= t.count
    ensures var u := Run(t, adds);
      && |u.list| == |t.list| + |adds|
      && u.count == if |u.list| < t.count then t.count else |u.list|
  {
    if adds != [] {
      AddsFillSlots(t, adds[..|adds| - 1]);
    }
  }

  // Over every run: after any additions and removals, every counted slot is
  // filled again exactly after as many additions as there are empty slots.
  lemma FilledAgainIff(t: Table, ops: seq<Op>, adds: seq<Op>)
    requires |t.list| <= t.count && AddsOnly(adds)
    ensures var u, v := Run(t, ops), Run(t, ops + adds);
      v.count == |v.list| <==> u.count - |u.list| <= |adds|
  {
    EveryHeaderHasSlot(t, ops);
    RunConcat(t, ops, adds);
    AddsFillSlots(Run(t, ops), adds);
  }
}
