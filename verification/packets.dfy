// Length-prefixed packets over a socket.

module Packets {
  import opened Powers
  import opened Bytes
  import opened Options
  import PackFormat
  import opened Sockets

  const ZERO: byte := 0

  // A packet whose framed size is an int.
  predicate Sendable(data: seq<byte>) {
    0 < |data| && |data| + 4 <= 0x7fff_ffff
  }

  function Frame(data: seq<byte>): seq<byte> {
    BigEndian(|data|, 4) + data
  }

  function Frames(ps: seq<seq<byte>>): seq<byte> {
    if ps == [] then [] else Frame(ps[0]) + Frames(ps[1..])
  }

  // A packet, or the return value 0 or -1.
  datatype Outcome = Packet(data: seq<byte>) | Ended(code: int)

  // What a read of len bytes makes of a stream that is too short for it.
  function ShortRead(got: nat, end: End): Outcome {
    Ended(if end.Closed? && got == 0 then 0 else -1)
  }

  function ReceiveFrame(stream: seq<byte>, end: End): (r: (Outcome, seq<byte>))
    ensures |r.1| <= |stream|
    ensures r.0.Packet? ==> |r.1| < |stream|
  {
    if |stream| < 4 then (ShortRead(|stream|, end), [])
    else
      var length := Resign(FromBytes(stream[..4]), 4);
      if length <= 0 then (Ended(-1), stream[4..])
      else if |stream| < 4 + length then (ShortRead(|stream| - 4, end), [])
      else (Packet(stream[4..4 + length]), stream[4 + length..])
  }

  // The packets that repeated receives report before one that reports none,
  // and what that one reports.
  function ReceivePackets(stream: seq<byte>, end: End): (seq<seq<byte>>, int)
    decreases |stream|
  {
    var (r, rest) := ReceiveFrame(stream, end);
    match r
    case Ended(code) => ([], code)
    case Packet(data) =>
      var (more, code) := ReceivePackets(rest, end);
      ([data] + more, code)
  }

  // ----- the methods -----

  lemma LengthPrefix(n: nat)
    requires n <= 0x7fff_ffff
    ensures PackFormat.Matches("l", [PackFormat.Int(n)])
    ensures PackFormat.PackBytes("l", [PackFormat.Int(n)]) == BigEndian(n, 4)
  {
    var args := [PackFormat.Int(n)];
    assert "l"[1..] == "" && args[1..] == [];
    FourBytes();
    Pow2Grows(32, 64);
    SmallMod(n, Pow2(64));
    hide BigEndian, Pow2;
    assert PackFormat.PackItem('l', args[0]) == BigEndian(n, 4);
  }

  lemma FourBytes()
    ensures Width(4) == 0x1_0000_0000 && Pow2(31) == 0x8000_0000 && Pow2(32) == 0x1_0000_0000
  {
    WidthStep(1);
    WidthStep(2);
    WidthStep(3);
    WidthStep(4);
  }

  lemma UnpackLength(bs: seq<byte>)
    requires |bs| == 4
    ensures PackFormat.UnpackValues("l", 0, bs) == Some(([PackFormat.Int(Resign(FromBytes(bs), 4))], 4))
  {
    hide FromBytes, Resign;
    assert "l"[1..] == "" && bs[..4] == bs;
    PackFormat.UnpackNothing(0, bs[4..]);
    assert [PackFormat.Int(Resign(FromBytes(bs), 4))] + [] == [PackFormat.Int(Resign(FromBytes(bs), 4))];
  }

  method SendPacket(conn: Conn<byte>, data: seq<byte>) returns (sent: int)
    requires |data| + 4 <= 0x7fff_ffff
    modifies conn`outgoing, conn`room
    ensures if |Frame(data)| <= old(conn.room) then
              && sent == |Frame(data)| == |data| + 4 && conn.room == old(conn.room) - |Frame(data)|
              && conn.outgoing == old(conn.outgoing) + Frame(data)
            else
              && sent == -1 && conn.room == 0
              && conn.outgoing == old(conn.outgoing) + Frame(data)[..old(conn.room)]
  {
    var packetSize := 4 + |data|;
    var netLength := new byte[4](_ => 0);
    LengthPrefix(|data|);
    var size := PackFormat.Pack(netLength, "l", [PackFormat.Int(|data|)]);
    assert netLength[..] == BigEndian(|data|, 4);
    sent := SendAll(conn, netLength[..] + data);
    if sent != packetSize {
      return -1;
    }
  }

  method DecodeLength(lengthBuffer: array<byte>) returns (length: int)
    requires lengthBuffer.Length > 4
    ensures length == Resign(FromBytes(lengthBuffer[..4]), 4)
  {
    var netLength := new byte[4](k requires 0 <= k < 4 reads lengthBuffer => lengthBuffer[k]);
    assert netLength[..] == lengthBuffer[..4];
    UnpackLength(netLength[..]);
    var values, at := PackFormat.Unpack(netLength, "l");
    length := values[0].i;
  }

  // What ReceiveFrame is, step by step of the receive function.
  lemma FrameCases(stream: seq<byte>, end: End)
    ensures |stream| < 4 ==> ReceiveFrame(stream, end) == (ShortRead(|stream|, end), [])
    ensures |stream| >= 4 ==>
              var length, tail := Resign(FromBytes(stream[..4]), 4), stream[4..];
              && (length <= 0 ==> ReceiveFrame(stream, end) == (Ended(-1), tail))
              && (length > |tail| ==> ReceiveFrame(stream, end) == (ShortRead(|tail|, end), []))
              && (0 < length <= |tail| ==> ReceiveFrame(stream, end) == (Packet(tail[..length]), tail[length..]))
  {
    hide FromBytes, Resign;
    if |stream| >= 4 {
      var length, tail := Resign(FromBytes(stream[..4]), 4), stream[4..];
      if 0 < length <= |tail| {
        assert stream[4..4 + length] == tail[..length] && stream[4 + length..] == tail[length..];
      }
    }
  }

  method ReceivePacket(conn: Conn<byte>) returns (code: int, data: seq<byte>)
    modifies conn`incoming
    ensures var (r, rest) := ReceiveFrame(old(conn.incoming), conn.end);
      conn.incoming == rest &&
      match r
      case Packet(d) => data == d && code == |d| > 0
      case Ended(c) => code == c <= 0
  {
    hide FromBytes, Resign, ReceiveFrame;
    data := [];
    FrameCases(conn.incoming, conn.end);
    var lengthBuffer := new byte[5](_ => 0);
    var got := RecvAll(conn, lengthBuffer, 0, 4, ZERO);
    if got <= 0 {
      return got, data;
    }
    if got != 4 {
      return -1, data;
    }
    assert lengthBuffer[..4] == lengthBuffer[0..4];
    var length := DecodeLength(lengthBuffer);
    if length <= 0 {
      return -1, data;
    }
    var buffer := new byte[length + 1](_ => 0);
    got := RecvAll(conn, buffer, 0, length, ZERO);
    if got <= 0 {
      return got, data;
    }
    if got != length {
      return -1, data;
    }
    buffer[length] := 0;
    data := buffer[..length];
    assert data == buffer[0..length];
    code := got;
  }

  // ----- the theorems -----

  // The first frame of a stream that holds all of it.
  lemma WholeFrame(data: seq<byte>, rest: seq<byte>, end: End)
    requires 0 < |data| <= 0x7fff_ffff
    ensures ReceiveFrame(Frame(data) + rest, end) == (Packet(data), rest)
  {
    var stream := Frame(data) + rest;
    assert stream[..4] == BigEndian(|data|, 4);
    PrefixValue(|data|);
    assert stream[4..4 + |data|] == data && stream[4 + |data|..] == rest;
  }

  lemma PrefixValue(n: nat)
    requires n <= 0x7fff_ffff
    ensures Resign(FromBytes(BigEndian(n, 4)), 4) == n
  {
    FourBytes();
    FromBigEndian(n, 4);
    SmallMod(n, Width(4));
  }

  // And back: what is reported was framed at the front of the stream.
  lemma FrameTaken(stream: seq<byte>, end: End)
    ensures var (r, rest) := ReceiveFrame(stream, end);
      r.Packet? ==> stream == Frame(r.data) + rest && 0 < |r.data| <= 0x7fff_ffff
  {
    if |stream| >= 4 {
      FourBytes();
      var front := stream[..4];
      FromBytesBound(front);
      ToBigEndian(front);
      if 0 < Resign(FromBytes(front), 4) <= |stream| - 4 {
        TakenApart(stream, FromBytes(front));
      }
    }
  }

  lemma TakenApart(stream: seq<byte>, n: nat)
    requires 4 + n <= |stream| && stream[..4] == BigEndian(n, 4)
    ensures stream == Frame(stream[4..4 + n]) + stream[4 + n..]
  {
  }

  // A stream that ends inside its first frame.
  lemma PartOfFrame(data: seq<byte>, k: nat, end: End)
    requires Sendable(data) && k < |Frame(data)|
    ensures ReceiveFrame(Frame(data)[..k], end)
         == (Ended(if end.Closed? && (k == 0 || k == 4) then 0 else -1), [])
  {
    var stream := Frame(data)[..k];
    if 4 <= k {
      assert stream[..4] == BigEndian(|data|, 4);
      PrefixValue(|data|);
    }
  }

  // How many of the frames lie within the first k bytes, and how far the cut
  // reaches into the next one.
  function Whole(ps: seq<seq<byte>>, k: nat): (r: (nat, nat))
    ensures r.0 <= |ps|
  {
    if ps == [] || k < |Frame(ps[0])| then (0, k)
    else
      var (n, into) := Whole(ps[1..], k - |Frame(ps[0])|); (n + 1, into)
  }

  // Wherever the stream is cut, and whatever the pattern of partial receives,
  // the packets reported are exactly those that were delivered whole; the
  // last receive says 0 exactly if the peer closed between two packets or
  // between a length and its data.
  lemma {:induction false} CutAnywhere(ps: seq<seq<byte>>, k: nat, end: End)
    requires (forall i | 0 <= i < |ps| :: Sendable(ps[i])) && k <= |Frames(ps)|
    ensures var (n, into) := Whole(ps, k);
      ReceivePackets(Frames(ps)[..k], end)
        == (ps[..n], if end.Closed? && (into == 0 || into == 4) then 0 else -1)
    decreases ps
  {
    hide ReceiveFrame, ReceivePackets, Frame;
    if ps == [] {
      assert Frames(ps)[..k] == [];
      EmptyStream(end);
    } else {
      var frame, tail := Frame(ps[0]), Frames(ps[1..]);
      if k < |frame| {
        assert Frames(ps)[..k] == frame[..k];
        PartOfFrame(ps[0], k, end);
        LastReceive(frame[..k], end);
      } else {
        var j := k - |frame|;
        assert Frames(ps)[..k] == frame + tail[..j];
        CutAnywhere(ps[1..], j, end);
        WholeFrame(ps[0], tail[..j], end);
        OneReceive(frame + tail[..j], ps[0], tail[..j], end);
        assert ps[..Whole(ps[1..], j).0 + 1] == [ps[0]] + ps[1..][..Whole(ps[1..], j).0];
      }
    }
  }

  lemma EmptyStream(end: End)
    ensures ReceivePackets([], end) == ([], if end.Closed? then 0 else -1)
  {
  }

  lemma LastReceive(stream: seq<byte>, end: End)
    requires ReceiveFrame(stream, end).0.Ended?
    ensures ReceivePackets(stream, end) == ([], ReceiveFrame(stream, end).0.code)
  {
  }

  lemma OneReceive(stream: seq<byte>, data: seq<byte>, rest: seq<byte>, end: End)
    requires ReceiveFrame(stream, end) == (Packet(data), rest)
    ensures var (more, code) := ReceivePackets(rest, end);
      ReceivePackets(stream, end) == ([data] + more, code)
  {
  }

  // Uncut, the whole list comes back, and then a clean end.
  lemma {:induction false} NothingLost(ps: seq<seq<byte>>, end: End)
    requires forall i | 0 <= i < |ps| :: Sendable(ps[i])
    ensures ReceivePackets(Frames(ps), end) == (ps, if end.Closed? then 0 else -1)
  {
    CutAnywhere(ps, |Frames(ps)|, end);
    WholeAll(ps);
    assert Frames(ps)[..|Frames(ps)|] == Frames(ps) && ps[..|ps|] == ps;
  }

  lemma {:induction false} WholeAll(ps: seq<seq<byte>>)
    ensures Whole(ps, |Frames(ps)|) == (|ps|, 0)
  {
    if ps != [] {
      WholeAll(ps[1..]);
    }
  }

  // ----- a list of packets from one end to the other -----

  lemma {:induction false} FramesAppend(ps: seq<seq<byte>>, p: seq<byte>)
    ensures Frames(ps + [p]) == Frames(ps) + Frame(p)
  {
    hide Frame;
    if ps == [] {
      assert Frames([p]) == Frame(p) + Frames([]);
    } else {
      FramesAppend(ps[1..], p);
      assert (ps + [p])[1..] == ps[1..] + [p];
    }
  }

  lemma {:induction false} FramesSplit(ps: seq<seq<byte>>, i: nat)
    requires i < |ps|
    ensures Frames(ps) == Frames(ps[..i]) + Frame(ps[i]) + Frames(ps[i + 1..])
    ensures Frames(ps[..i + 1]) == Frames(ps[..i]) + Frame(ps[i])
  {
    hide Frame;
    assert ps[..i + 1] == ps[..i] + [ps[i]];
    FramesAppend(ps[..i], ps[i]);
    if i == 0 {
      assert ps[..0] == [];
    } else {
      FramesSplit(ps[1..], i - 1);
      assert ps[..i][0] == ps[0] && ps[..i][1..] == ps[1..][..i - 1] && ps[1..][i..] == ps[i + 1..];
      assert Frames(ps[..i]) == Frame(ps[0]) + Frames(ps[1..][..i - 1]);
    }
  }

  // Sends packets until one does not fit any more.
  method SendPackets(conn: Conn<byte>, ps: seq<seq<byte>>)
    requires forall i | 0 <= i < |ps| :: Sendable(ps[i])
    modifies conn`outgoing, conn`room
    ensures if |Frames(ps)| <= old(conn.room) then conn.outgoing == old(conn.outgoing) + Frames(ps)
            else conn.outgoing == old(conn.outgoing) + Frames(ps)[..old(conn.room)]
  {
    hide Frame, Frames;
    var i: nat := 0;
    ghost var room, out := conn.room, conn.outgoing;
    NoFrames();
    assert ps[..0] == [];
    while i < |ps|
      invariant i <= |ps| && |Frames(ps[..i])| <= room
      invariant conn.outgoing == out + Frames(ps[..i]) && conn.room == room - |Frames(ps[..i])|
    {
      FramesSplit(ps, i);
      ghost var sofar, frame, later := Frames(ps[..i]), Frame(ps[i]), Frames(ps[i + 1..]);
      var sent := SendPacket(conn, ps[i]);
      if sent < 0 {
        CutInside(sofar, frame, later, room);
        return;
      }
      i := i + 1;
    }
    assert ps[..i] == ps;
  }

  lemma NoFrames()
    ensures Frames([]) == []
  {
  }

  lemma CutInside<T>(a: seq<T>, b: seq<T>, c: seq<T>, k: nat)
    requires |a| <= k <= |a| + |b|
    ensures (a + b + c)[..k] == a + b[..k - |a|]
  {
  }

  // Receives packets until there is none any more.
  method ReceiveAll(conn: Conn<byte>) returns (got: seq<seq<byte>>, code: int)
    modifies conn`incoming
    ensures (got, code) == ReceivePackets(old(conn.incoming), conn.end)
  {
    hide ReceiveFrame, ReceivePackets;
    got := [];
    ghost var all := ReceivePackets(conn.incoming, conn.end);
    assert [] + all.0 == all.0;
    while true
      invariant all == (got + ReceivePackets(conn.incoming, conn.end).0, ReceivePackets(conn.incoming, conn.end).1)
      decreases |conn.incoming|
    {
      ghost var stream := conn.incoming;
      var data;
      code, data := ReceivePacket(conn);
      if code <= 0 {
        LastReceive(stream, conn.end);
        assert got + [] == got;
        return;
      }
      OneReceive(stream, data, conn.incoming, conn.end);
      MoveFirst(got, data, ReceivePackets(conn.incoming, conn.end).0);
      got := got + [data];
    }
  }

  lemma MoveFirst<T>(a: seq<T>, x: T, b: seq<T>)
    ensures a + ([x] + b) == a + [x] + b
  {
  }

  // From end to end, over partial sends and receives: the receiver reports
  // the packets that the sender had room for, and nothing else.
  method ExchangePackets(sender: Conn<byte>, receiver: Conn<byte>, ps: seq<seq<byte>>)
    returns (got: seq<seq<byte>>, code: int)
    requires (forall i | 0 <= i < |ps| :: Sendable(ps[i])) && sender.outgoing == []
    modifies sender`outgoing, sender`room, receiver`incoming
    ensures var room, all := old(sender.room), |Frames(ps)|;
      var (n, into) := Whole(ps, if all <= room then all else room);
      got == ps[..n] && code == if receiver.end.Closed? && (into == 0 || into == 4) then 0 else -1
    ensures |Frames(ps)| <= old(sender.room) ==> got == ps
  {
    hide Frames, Whole, ReceivePackets;
    ghost var room := sender.room;
    ghost var k := if |Frames(ps)| <= room then |Frames(ps)| else room;
    SendPackets(sender, ps);
    receiver.incoming := sender.outgoing;
    assert Frames(ps)[..|Frames(ps)|] == Frames(ps);
    assert receiver.incoming == Frames(ps)[..k];
    CutAnywhere(ps, k, receiver.end);
    WholeAll(ps);
    got, code := ReceiveAll(receiver);
  }

  // ----- the bytes themselves -----

  lemma FrameBytes(data: seq<byte>)
    requires Sendable(data)
    ensures var n := |data|;
      Frame(data) == [(n / 0x100_0000 % 256) as byte, (n / 0x1_0000 % 256) as byte,
                      (n / 0x100 % 256) as byte, (n % 256) as byte] + data
  {
    PackFormat.Halves(|data|);
  }

  // A length of zero or less, which is one whose four bytes are zero or whose
  // first is 128 or more, ends the receiving with -1 behind it.
  lemma NoSuchLength(stream: seq<byte>, end: End)
    requires |stream| >= 4 && (stream[0] >= 128 || stream[..4] == [0, 0, 0, 0])
    ensures ReceiveFrame(stream, end) == (Ended(-1), stream[4..])
  {
    var b := stream[..4];
    PackFormat.UnpackUnsignedIsFromBytes(b);
    FourBytes();
    hide FromBytes;
    assert b[0] == stream[0];
    assert PackFormat.UnpackUnsigned(b) == PackFormat.UnpackU32(b);
  }

  // A stream that ends too early: closed right at its start or behind a
  // length, 0; anywhere else, or broken, -1.
  lemma TooShort(stream: seq<byte>, length: nat, end: End)
    requires 0 < length <= 0x7fff_ffff
    requires |stream| < 4 || (stream[..4] == BigEndian(length, 4) && |stream| < 4 + length)
    ensures ReceiveFrame(stream, end) ==
            (Ended(if end.Closed? && (|stream| == 0 || |stream| == 4) then 0 else -1), [])
  {
    hide FromBytes, Resign, BigEndian;
    if |stream| >= 4 {
      PrefixValue(length);
    }
  }
}
