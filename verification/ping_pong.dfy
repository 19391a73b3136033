// The server's simple clients: packets come in, and each write answers what
// the last packet said.

module PingPong {
  import opened Options
  import opened Bytes
  import opened Powers
  import opened Sockets
  import opened Packets
  import opened Substrings

  // The bytes of a string.
  function Ascii(s: string): (r: seq<byte>)
    ensures |r| == |s| && forall k | 0 <= k < |s| :: r[k] as int == s[k] as int % 256
  {
    seq(|s|, k requires 0 <= k < |s| => (s[k] as int % 256) as byte)
  }

  const PING := Ascii("PING")
  const PONG := Ascii("PONG")
  const GREETING := Ascii("Hola, soy el server")

  // What a packet's data is as a string: it ends at the first zero.
  function Text(data: seq<byte>): (r: seq<byte>)
    ensures r <= data && 0 !in r && (|r| < |data| ==> data[|r|] == 0)
  {
    if data == [] || data[0] == 0 then [] else [data[0]] + Text(data[1..])
  }

  predicate Says(data: seq<byte>, word: seq<byte>) {
    Contains(Text(data), word)
  }

  // ----- what a client's packet goes through -----

  // What succeeded for a client.
  datatype Op = Read(data: seq<byte>) | Write

  function Reply(stored: Option<seq<byte>>): seq<byte> {
    if stored.Some? && Says(stored.value, PING) then PONG else GREETING
  }

  // The packet field after these operations.
  function Stored(ops: seq<Op>): Option<seq<byte>> {
    if ops == [] then None
    else
      match ops[|ops| - 1]
      case Read(data) => Some(data)
      case Write => Some(Reply(Stored(ops[..|ops| - 1])))
  }

  function Reads(ops: seq<Op>): seq<seq<byte>> {
    if ops == [] then []
    else
      Reads(ops[..|ops| - 1]) +
      match ops[|ops| - 1]
      case Read(data) => [data]
      case Write => []
  }

  function Replies(ops: seq<Op>): seq<seq<byte>> {
    if ops == [] then []
    else
      Replies(ops[..|ops| - 1]) +
      match ops[|ops| - 1]
      case Read(_) => []
      case Write => [Reply(Stored(ops[..|ops| - 1]))]
  }

  lemma {:induction false} TextWhole(data: seq<byte>)
    requires 0 !in data
    ensures Text(data) == data
  {
    if data != [] {
      TextWhole(data[1..]);
    }
  }

  lemma GreetingChars(s: string)
    requires s == "Hola, soy el server"
    ensures |s| == 19 && forall k | 0 <= k < |s| :: s[k] != 'P' && s[k] != '\0' && s[k] < 128 as char
  {
  }

  lemma NotAmong(s: string, c: char)
    requires c < 128 as char && forall k | 0 <= k < |s| :: s[k] != c && s[k] < 128 as char
    ensures (c as int) as byte !in Ascii(s)
  {
  }

  lemma NoPingIn(s: string)
    requires forall k | 0 <= k < |s| :: s[k] != 'P' && s[k] != '\0' && s[k] < 128 as char
    ensures !Says(Ascii(s), PING)
  {
    NotAmong(s, 'P');
    NotAmong(s, '\0');
    TextWhole(Ascii(s));
    assert PING[0] == 'P' as byte;
    NotWithoutFirst(Ascii(s), PING);
  }

  lemma GreetingSaysNoPing()
    ensures !Says(GREETING, PING) && Sendable(GREETING) && |GREETING| == 19
  {
    var s := "Hola, soy el server";
    GreetingChars(s);
    NoPingIn(s);
    assert GREETING == Ascii(s);
  }

  lemma PongSaysNoPing()
    ensures !Says(PONG, PING) && Sendable(PONG) && |PONG| == 4
  {
    TextWhole(PONG);
    assert PONG[1] != PING[1];
    assert !Contains(PONG[1..], PING);
  }

  // ----- over every run -----

  predicate PingRead(op: Op) {
    op.Read? && Says(op.data, PING)
  }

  // A write answers PONG exactly if what came just before it was a ping.
  lemma PongExactlyAfterPing(ops: seq<Op>, k: nat)
    requires k < |ops| && ops[k].Write?
    ensures Reply(Stored(ops[..k])) == PONG <==> k > 0 && PingRead(ops[k - 1])
  {
    GreetingSaysNoPing();
    PongSaysNoPing();
    hide Says;
    StoredPing(ops[..k]);
  }

  lemma StoredPing(ops: seq<Op>)
    ensures Stored(ops).Some? && Says(Stored(ops).value, PING) <==> ops != [] && PingRead(ops[|ops| - 1])
  {
    GreetingSaysNoPing();
    PongSaysNoPing();
    hide Says;
  }

  function One(b: bool): nat {
    if b then 1 else 0
  }

  function Pings(ops: seq<Op>): nat {
    if ops == [] then 0 else Pings(ops[..|ops| - 1]) + One(PingRead(ops[|ops| - 1]))
  }

  // Pings whose packet the next read replaced before any write.
  function Replaced(ops: seq<Op>): nat {
    if |ops| < 2 then 0
    else Replaced(ops[..|ops| - 1]) + One(PingRead(ops[|ops| - 2]) && ops[|ops| - 1].Read?)
  }

  // Every ping is answered by one PONG, is about to be, or was replaced; and
  // there is no other PONG.
  lemma {:induction false} PongsConserved(ops: seq<Op>)
    ensures Pings(ops) == multiset(Replies(ops))[PONG] + Replaced(ops) + One(ops != [] && PingRead(ops[|ops| - 1]))
  {
    if ops != [] {
      var before := ops[..|ops| - 1];
      PongsConserved(before);
      GreetingSaysNoPing();
      PongSaysNoPing();
      hide PingRead, Says;
      if ops[|ops| - 1].Write? {
        PongExactlyAfterPing(ops, |before|);
        assert !PingRead(ops[|ops| - 1]) by { assert ops[|ops| - 1] == Write; WriteIsNoPing(); }
      }
    }
  }

  lemma WriteIsNoPing()
    ensures !PingRead(Write)
  {
  }

  // ----- the handlers -----

  datatype Result = SUCCESS | CLOSED | ERROR

  lemma ReadExtends(ops: seq<Op>, data: seq<byte>)
    ensures var more := ops + [Read(data)];
      && Stored(more) == Some(data) && Reads(more) == Reads(ops) + [data] && Replies(more) == Replies(ops)
      && Frames(Reads(more)) == Frames(Reads(ops)) + Frame(data)
  {
    hide Frame, Frames;
    assert (ops + [Read(data)])[..|ops|] == ops;
    FramesAppend(Reads(ops), data);
  }

  lemma WriteExtends(ops: seq<Op>)
    ensures var more, reply := ops + [Write], Reply(Stored(ops));
      && Stored(more) == Some(reply) && Reads(more) == Reads(ops)
      && Frames(Replies(more)) == Frames(Replies(ops)) + Frame(reply)
  {
    hide Frame, Frames, Reply;
    assert (ops + [Write])[..|ops|] == ops;
    FramesAppend(Replies(ops), Reply(Stored(ops)));
  }

  lemma ReplySendable(stored: Option<seq<byte>>)
    ensures Sendable(Reply(stored)) && |Reply(stored)| < 100
    ensures |Frame(Reply(stored))| == |Reply(stored)| + 4
  {
    GreetingSaysNoPing();
    PongSaysNoPing();
  }

  lemma Regroup<T>(a: seq<T>, b: seq<T>, c: seq<T>)
    ensures a + (b + c) == a + b + c
  {
  }

  // What came before operation k is the read of a packet that says PING.
  ghost predicate AfterPing(ops: seq<Op>, k: nat)
    requires k <= |ops|
  {
    k > 0 && ops[k - 1].Read? && exists a, b :: Text(ops[k - 1].data) == a + Ascii("PING") + b
  }

  // The two replies, each behind its length.
  function PongFrame(): seq<byte> {
    [0, 0, 0, 4] + Ascii("PONG")
  }

  function GreetingFrame(): seq<byte> {
    [0, 0, 0, 19] + Ascii("Hola, soy el server")
  }

  lemma ReplyFrame(ops: seq<Op>)
    ensures Frame(Reply(Stored(ops))) == if AfterPing(ops, |ops|) then PongFrame() else GreetingFrame()
  {
    GreetingSaysNoPing();
    PongSaysNoPing();
    SmallLengths();
    hide BigEndian, Text, Contains, Ascii;
    if ops != [] && ops[|ops| - 1].Read? {
      ContainsAt(Text(ops[|ops| - 1].data), Ascii("PING"));
    }
  }

  lemma SmallLengths()
    ensures BigEndian(4, 4) == [0, 0, 0, 4] && BigEndian(19, 4) == [0, 0, 0, 19]
  {
    assert BigEndian(0, 1) == [0] && BigEndian(0, 2) == [0, 0] && BigEndian(0, 3) == [0, 0, 0];
  }

  // What the operations before k had sent, each operation from there on adds
  // to: a read nothing, a write its reply.
  lemma SentBy(ops: seq<Op>, k: nat)
    requires k < |ops|
    ensures Frames(Replies(ops[..k + 1])) == Frames(Replies(ops[..k])) +
            if ops[k].Read? then [] else if AfterPing(ops, k) then PongFrame() else GreetingFrame()
  {
    var before := ops[..k];
    assert ops[..k + 1] == before + [ops[k]];
    hide Frames, Frame, AfterPing;
    match ops[k] {
      case Read(data) =>
        ReadExtends(before, data);
      case Write =>
        WriteExtends(before);
        ReplyFrame(before);
        SameBefore(ops, k);
    }
  }

  lemma SameBefore(ops: seq<Op>, k: nat)
    requires k <= |ops|
    ensures AfterPing(ops, k) == AfterPing(ops[..k], |ops[..k]|)
  {
  }

  lemma {:induction false} SentStays(ops: seq<Op>, k: nat)
    requires k <= |ops|
    ensures Frames(Replies(ops[..k])) <= Frames(Replies(ops))
    decreases |ops| - k
  {
    hide Frames, Replies, AfterPing;
    if k == |ops| {
      assert ops[..k] == ops;
    } else {
      SentBy(ops, k);
      SentStays(ops, k + 1);
    }
  }

  // Client_Tcp_Data: its socket and the packet last read or sent.
  class SimpleClient {
    const conn: Conn<byte>
    var packet: Option<seq<byte>>
    ghost const arriving: seq<byte>
    ghost var ops: seq<Op>

    // Everything that arrives is either read or still to come, everything
    // that went out is a reply.
    ghost predicate Valid()
      reads this, conn
    {
      && packet == Stored(ops)
      && arriving == Frames(Reads(ops)) + conn.incoming
      && conn.outgoing == Frames(Replies(ops))
      && forall k | 0 <= k < |Reads(ops)| :: 0 < |Reads(ops)[k]| <= 0x7fff_ffff
    }

    constructor (conn: Conn<byte>)
      requires conn.outgoing == []
      ensures Valid() && this.conn == conn && arriving == conn.incoming && ops == []
    {
      this.conn := conn;
      packet := None;
      arriving := conn.incoming;
      ops := [];
    }

    // handle_client_simple_read
    method HandleRead() returns (result: Result)
      requires Valid()
      modifies this`packet, this`ops, conn`incoming
      ensures match ReceiveFrame(old(conn.incoming), conn.end).0
        case Packet(data) => result == SUCCESS && Valid() && ops == old(ops) + [Read(data)]
        case Ended(code) => result == (if code == 0 then CLOSED else ERROR) && packet == None && ops == old(ops)
    {
      hide ReceiveFrame, Frame, Frames, Reads, Replies, Stored;
      FrameTaken(conn.incoming, conn.end);
      var code, data := ReceivePacket(conn);
      if code == 0 {
        packet := None;
        return CLOSED;
      } else if code < 0 {
        packet := None;
        return ERROR;
      }
      packet := Some(data);
      ReadExtends(ops, data);
      Regroup(Frames(Reads(ops)), Frame(data), conn.incoming);
      ops := ops + [Read(data)];
      result := SUCCESS;
    }

    // handle_client_simple_write
    method HandleWrite() returns (result: Result)
      requires Valid()
      modifies this`packet, this`ops, conn`outgoing, conn`room
      ensures var before := old(ops);
        var sent := if before != [] && AfterPing(before, |before|) then PongFrame() else GreetingFrame();
        if |sent| <= old(conn.room) then
          && result == SUCCESS && Valid() && ops == before + [Write] && conn.outgoing == old(conn.outgoing) + sent
        else
          result == ERROR && packet == None && ops == before
    {
      ReplyFrame(ops);
      ReplySendable(packet);
      WriteExtends(ops);
      hide Frame, Frames, Says, Reads, Replies, Stored, PONG, GREETING;
      if packet.Some? && Says(packet.value, PING) {
        packet := Some(PONG);
      } else {
        packet := Some(GREETING);
      }
      var sent := SendPacket(conn, packet.value);
      if sent < 0 {
        packet := None;
        return ERROR;
      }
      ops := ops + [Write];
      result := SUCCESS;
    }
  }

  // ----- on the wire -----

  // In any run, each write puts exactly the bytes of PONG on the wire if it
  // directly follows the read of a packet with PING, and else exactly those of
  // the greeting, with their length before them; reads put nothing there.
  lemma WriteOnTheWire(client: SimpleClient, k: nat)
    requires client.Valid() && k < |client.ops|
    ensures var ops, wire := client.ops, client.conn.outgoing;
      var at, end := |Frames(Replies(ops[..k]))|, |Frames(Replies(ops[..k + 1]))|;
      && at <= end <= |wire| && (k == 0 ==> at == 0) && (k == |ops| - 1 ==> end == |wire|)
      && (ops[k].Read? ==> end == at)
      && (ops[k].Write? && AfterPing(ops, k) ==> wire[at..end] == [0, 0, 0, 4] + Ascii("PONG"))
      && (ops[k].Write? && !AfterPing(ops, k) ==> wire[at..end] == [0, 0, 0, 19] + Ascii("Hola, soy el server"))
  {
    hide *;
    PieceOnTheWire(client, k);
    Literally(client.conn.outgoing, |Frames(Replies(client.ops[..k]))|, |Frames(Replies(client.ops[..k + 1]))|,
              client.ops[k], AfterPing(client.ops, k));
  }

  lemma Literally(wire: seq<byte>, at: nat, end: nat, op: Op, ping: bool)
    requires at <= end <= |wire|
    requires wire[at..end] == if op.Read? then [] else if ping then PongFrame() else GreetingFrame()
    ensures op.Read? ==> end == at
    ensures op.Write? && ping ==> wire[at..end] == [0, 0, 0, 4] + Ascii("PONG")
    ensures op.Write? && !ping ==> wire[at..end] == [0, 0, 0, 19] + Ascii("Hola, soy el server")
  {
    hide Ascii;
    assert |wire[at..end]| == end - at;
  }

  lemma PieceOnTheWire(client: SimpleClient, k: nat)
    requires client.Valid() && k < |client.ops|
    ensures var ops, wire := client.ops, client.conn.outgoing;
      var at, end := |Frames(Replies(ops[..k]))|, |Frames(Replies(ops[..k + 1]))|;
      && at <= end <= |wire| && (k == 0 ==> at == 0) && (k == |ops| - 1 ==> end == |wire|)
      && wire[at..end] == if ops[k].Read? then [] else if AfterPing(ops, k) then PongFrame() else GreetingFrame()
  {
    hide Frames, Replies, AfterPing, PongFrame, GreetingFrame;
    var ops := client.ops;
    var sofar, more := Frames(Replies(ops[..k])), Frames(Replies(ops[..k + 1]));
    var piece := if ops[k].Read? then [] else if AfterPing(ops, k) then PongFrame() else GreetingFrame();
    SentBy(ops, k);
    SentStays(ops, k + 1);
    NothingSent();
    assert k == 0 ==> ops[..k] == [];
    assert k == |ops| - 1 ==> ops[..k + 1] == ops;
    WireSlice(client.conn.outgoing, sofar, more, piece);
  }

  lemma WireSlice<T>(wire: seq<T>, sofar: seq<T>, more: seq<T>, piece: seq<T>)
    requires more == sofar + piece && more <= wire
    ensures |sofar| <= |more| <= |wire| && wire[|sofar|..|more|] == piece
  {
  }

  lemma NothingSent()
    ensures Frames(Replies([])) == []
  {
  }

  // ----- both ends -----

  // What is read of a stream of packets is the first of them, in order.
  lemma {:induction false} ReadsArePrefix(rs: seq<seq<byte>>, rest: seq<byte>, ps: seq<seq<byte>>)
    requires forall k | 0 <= k < |rs| :: 0 < |rs[k]| <= 0x7fff_ffff
    requires forall k | 0 <= k < |ps| :: 0 < |ps[k]| <= 0x7fff_ffff
    requires Frames(rs) + rest == Frames(ps)
    ensures rs <= ps && rest == Frames(ps[|rs|..])
  {
    if rs == [] {
      assert ps[0..] == ps;
    } else {
      var a, b := Frames(rs[1..]) + rest, Frames(ps[1..]);
      assert Frames(rs) + rest == Frame(rs[0]) + a;
      WholeFrame(rs[0], a, Closed);
      assert |Frames(ps)| > 0;
      WholeFrame(ps[0], b, Closed);
      ReadsArePrefix(rs[1..], rest, ps[1..]);
      assert ps[1..][|rs| - 1..] == ps[|rs|..];
    }
  }

  // The other end receives the replies.
  lemma {:induction false} RepliesArrive(ops: seq<Op>, end: End)
    ensures ReceivePackets(Frames(Replies(ops)), end) == (Replies(ops), if end.Closed? then 0 else -1)
  {
    RepliesSendable(ops);
    NothingLost(Replies(ops), end);
  }

  lemma {:induction false} RepliesSendable(ops: seq<Op>)
    ensures forall k | 0 <= k < |Replies(ops)| :: Sendable(Replies(ops)[k])
  {
    if ops != [] {
      ReplySendable(Stored(ops[..|ops| - 1]));
      hide Reply;
      RepliesSendable(ops[..|ops| - 1]);
    }
  }
}
