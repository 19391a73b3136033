// The server's heartbeat socket: datagrams from anyone, each heartbeat
// acknowledged to its sender.

module Heartbeats {
  import opened Options
  import opened Substrings

  const HEARTBEAT := "HEARTBEAT"

  datatype Address = Address(ip: nat, port: nat)

  // What a receive finds: a packet, an empty datagram, or an error.
  datatype Arrival = Datagram(from: Address, message: string) | EmptyDatagram(from: Address) | Nothing

  datatype Op = Heard(arrival: Arrival) | Wrote(sent: bool)

  // A packet that was sent, or tried.
  datatype Ack = Ack(to: Address, message: string)

  // The stored packet's message, the last sender, and what was sent or tried.
  datatype State = State(packet: Option<string>, addr: Address, acks: seq<Ack>)

  predicate IsHeartbeat(op: Op) {
    op.Heard? && op.arrival.Datagram? && Contains(op.arrival.message, HEARTBEAT)
  }

  function Step(s: State, op: Op): State {
    match op
    case Heard(Datagram(from, message)) => s.(packet := Some(message), addr := from)
    case Heard(EmptyDatagram(from)) => s.(packet := None, addr := from)
    case Heard(Nothing) => s.(packet := None)
    case Wrote(_) =>
      if s.packet.None? || !Contains(s.packet.value, HEARTBEAT) then s
      else State(None, s.addr, s.acks + [Ack(s.addr, "ACK")])
  }

  function Run(ops: seq<Op>): State {
    if ops == [] then State(None, Address(0, 0), []) else Step(Run(ops[..|ops| - 1]), ops[|ops| - 1])
  }

  datatype Result = SUCCESS | CLOSED | ERROR | EMPTY_PACKET

  // Heartbeat_Data
  class HeartbeatData {
    var packet: Option<string>
    var addr: Address
    ghost var acks: seq<Ack>
    ghost var ops: seq<Op>

    ghost predicate Valid()
      reads this
    {
      State(packet, addr, acks) == Run(ops)
    }

    constructor ()
      ensures Valid() && ops == []
    {
      packet, addr := None, Address(0, 0);
      acks, ops := [], [];
    }

    // handle_client_heartbeat_read; arrival is what recvfrom finds.
    method HandleRead(arrival: Arrival) returns (result: Result)
      requires Valid()
      modifies this
      ensures Valid() && ops == old(ops) + [Heard(arrival)]
      ensures result == match arrival
                        case Datagram(_, _) => SUCCESS
                        case EmptyDatagram(_) => CLOSED
                        case Nothing => ERROR
      ensures packet == (if arrival.Datagram? then Some(arrival.message) else None) && acks == old(acks)
      ensures addr == if arrival.Nothing? then old(addr) else arrival.from
    {
      assert (ops + [Heard(arrival)])[..|ops|] == ops;
      ops := ops + [Heard(arrival)];
      if packet.Some? {
        packet := None;
      }
      packet := Some("");
      match arrival {
        case Datagram(from, message) =>
          addr, packet := from, Some(message);
          return SUCCESS;
        case EmptyDatagram(from) =>
          addr, packet := from, None;
          return CLOSED;
        case Nothing =>
          packet := None;
          return ERROR;
      }
    }

    // handle_client_heartbeat_write; sent says whether sendto succeeds.
    method HandleWrite(sent: bool) returns (result: Result)
      requires Valid()
      modifies this
      ensures Valid() && ops == old(ops) + [Wrote(sent)]
      ensures result ==
              if old(packet).None? then EMPTY_PACKET
              else if Contains(old(packet).value, HEARTBEAT) && !sent then ERROR
              else SUCCESS
      ensures addr == old(addr)
      ensures if old(packet).Some? && Contains(old(packet).value, "HEARTBEAT") then
                packet == None && acks == old(acks) + [Ack(old(addr), "ACK")]
              else
                packet == old(packet) && acks == old(acks)
    {
      hide Contains;
      assert (ops + [Wrote(sent)])[..|ops|] == ops;
      ops := ops + [Wrote(sent)];
      if packet.None? {
        return EMPTY_PACKET;
      }
      if packet.Some? && !Contains(packet.value, HEARTBEAT) {
        return SUCCESS;
      }
      packet := Some("ACK");
      acks := acks + [Ack(addr, packet.value)];
      packet := None;
      if !sent {
        return ERROR;
      }
      result := SUCCESS;
    }
  }

  // ----- over every run -----

  // Only the very last operation can have left a heartbeat unanswered.
  lemma HeartbeatStored(ops: seq<Op>)
    ensures var s := Run(ops); var last := ops != [] && IsHeartbeat(ops[|ops| - 1]);
      && (s.packet.Some? && Contains(s.packet.value, HEARTBEAT) <==> last)
      && (last ==> s.addr == ops[|ops| - 1].arrival.from)
  {
    hide Contains;
  }

  // The senders of the heartbeats that the next operation answers.
  function Answered(ops: seq<Op>): seq<Address> {
    if |ops| < 2 then []
    else
      var answered := Answered(ops[..|ops| - 1]);
      if IsHeartbeat(ops[|ops| - 2]) && ops[|ops| - 1].Wrote? then answered + [ops[|ops| - 2].arrival.from]
      else answered
  }

  // What an operation sends: a write directly behind a datagram that says
  // HEARTBEAT sends ACK to its sender, and nothing else sends anything.
  lemma AckIff(ops: seq<Op>, k: nat)
    requires k < |ops|
    ensures var before, after := Run(ops[..k]).acks, Run(ops[..k + 1]).acks;
      if k > 0 && ops[k].Wrote? && ops[k - 1].Heard? && ops[k - 1].arrival.Datagram?
         && Contains(ops[k - 1].arrival.message, "HEARTBEAT")
      then after == before + [Ack(ops[k - 1].arrival.from, "ACK")]
      else after == before
  {
    hide Contains;
    assert ops[..k + 1][..k] == ops[..k];
    HeartbeatStored(ops[..k]);
  }

  // ACKs go to the senders of the heartbeats that a write follows, one each,
  // in order, and to nobody else.
  lemma {:induction false} AcksAnswerHeartbeats(ops: seq<Op>)
    ensures |Run(ops).acks| == |Answered(ops)|
    ensures forall k | 0 <= k < |Answered(ops)| :: Run(ops).acks[k] == Ack(Answered(ops)[k], "ACK")
  {
    hide Contains, IsHeartbeat;
    if ops != [] {
      var before := ops[..|ops| - 1];
      AcksAnswerHeartbeats(before);
      HeartbeatStored(before);
    }
  }

  function Heartbeats(ops: seq<Op>): nat {
    if ops == [] then 0
    else Heartbeats(ops[..|ops| - 1]) + if IsHeartbeat(ops[|ops| - 1]) then 1 else 0
  }

  // Heartbeats that something else was received over before any write.
  function Overheard(ops: seq<Op>): nat {
    if |ops| < 2 then 0
    else Overheard(ops[..|ops| - 1]) + if IsHeartbeat(ops[|ops| - 2]) && ops[|ops| - 1].Heard? then 1 else 0
  }

  // Every heartbeat has its ACK, is about to have it, or was overheard.
  lemma {:induction false} AcksConserved(ops: seq<Op>)
    ensures Heartbeats(ops) == |Run(ops).acks| + Overheard(ops) +
                               if ops != [] && IsHeartbeat(ops[|ops| - 1]) then 1 else 0
  {
    if ops != [] {
      var before := ops[..|ops| - 1];
      AcksConserved(before);
      HeartbeatStored(before);
      assert ops[|ops| - 1].Wrote? ==> !IsHeartbeat(ops[|ops| - 1]);
      hide Contains, IsHeartbeat;
    }
  }
}
