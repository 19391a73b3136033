// A connected socket as its process sees it, and the two transfer loops that
// hide partial sends and receives.

module Sockets {

  // How a stream ends: the peer closes it, or an error interrupts it.
  datatype End = Closed | Broken

  // incoming is what will still arrive before the stream ends; room is how
  // much the connection will still take before sending fails.
  class Conn<T(0)> {
    var incoming: seq<T>
    var end: End
    var outgoing: seq<T>
    var room: nat

    // recv: any non-empty part of what is there, 0 at a close, -1 on an error.
    method Recv(buf: array<T>, at: nat, n: nat) returns (got: int)
      requires 0 < n && at + n <= buf.Length
      modifies this`incoming, buf
      ensures old(incoming) == [] ==> got == (if end.Closed? then 0 else -1) && incoming == []
      ensures old(incoming) != [] ==> 1 <= got <= n && got <= |old(incoming)| && incoming == old(incoming)[got..]
      ensures got > 0 ==> buf[at..at + got] == old(incoming)[..got]
      ensures forall k | 0 <= k < at || at + (if got > 0 then got else 0) <= k < buf.Length :: buf[k] == old(buf[k])
    {
      if incoming == [] {
        return if end.Closed? then 0 else -1;
      }
      got :| 1 <= got <= n && got <= |incoming|;
      forall k | 0 <= k < got {
        buf[at + k] := incoming[k];
      }
      incoming := incoming[got..];
    }

    // send: any non-empty part of data[from..], -1 when there is no room.
    method Send(data: seq<T>, from: nat) returns (sent: int)
      requires from < |data|
      modifies this`outgoing, this`room
      ensures old(room) == 0 ==> sent == -1 && outgoing == old(outgoing) && room == 0
      ensures old(room) > 0 ==>
        && 1 <= sent <= |data| - from && sent <= old(room) && room == old(room) - sent
        && outgoing == old(outgoing) + data[from..from + sent]
    {
      if room == 0 {
        return -1;
      }
      sent :| 1 <= sent <= |data| - from && sent <= room;
      outgoing := outgoing + data[from..from + sent];
      room := room - sent;
    }
  }

  // recvall: len elements unless the stream ends first, and a terminator.
  method RecvAll<T(0)>(conn: Conn<T>, buf: array<T>, at: nat, len: nat, nul: T) returns (got: int)
    requires at + len < buf.Length
    modifies conn`incoming, buf
    ensures var stream := old(conn.incoming);
      if len <= |stream| then
        && got == len && conn.incoming == stream[len..]
        && buf[at..at + len] == stream[..len] && buf[at + len] == nul
      else
        && got == (if conn.end.Closed? then |stream| else -1) && conn.incoming == []
        && buf[at..at + |stream|] == stream && (got >= 0 ==> buf[at + |stream|] == nul)
    ensures forall k | 0 <= k < at || at + len < k < buf.Length :: buf[k] == old(buf[k])
  {
    ghost var stream := conn.incoming;
    var total: nat := 0;
    while total < len
      invariant total <= len && total <= |stream|
      invariant conn.incoming == stream[total..]
      invariant buf[at..at + total] == stream[..total]
      invariant forall k | 0 <= k < at || at + len < k < buf.Length :: buf[k] == old(buf[k])
      decreases len - total
    {
      ghost var before := buf[at..at + total];
      var received := conn.Recv(buf, at + total, len - total);
      assert buf[at..at + total] == before;
      if received < 0 {
        return received;
      } else if received == 0 {
        break;
      }
      assert buf[at..at + total + received] == before + buf[at + total..at + total + received];
      total := total + received;
    }
    ghost var filled := buf[at..at + total];
    buf[at + total] := nul;
    assert buf[at..at + total] == filled;
    got := total;
  }

  // sendall: all of data, or as much of it as there was room for.
  method SendAll<T(0)>(conn: Conn<T>, data: seq<T>) returns (sent: int)
    modifies conn`outgoing, conn`room
    ensures if |data| <= old(conn.room) then
              && sent == |data| && conn.room == old(conn.room) - |data|
              && conn.outgoing == old(conn.outgoing) + data
            else
              && sent == -1 && conn.room == 0
              && conn.outgoing == old(conn.outgoing) + data[..old(conn.room)]
  {
    var total: nat := 0;
    while total < |data|
      invariant total <= |data| && total <= old(conn.room)
      invariant conn.room == old(conn.room) - total
      invariant conn.outgoing == old(conn.outgoing) + data[..total]
      decreases |data| - total
    {
      var n := conn.Send(data, total);
      if n < 0 {
        return n;
      }
      assert data[..total + n] == data[..total] + data[total..total + n];
      total := total + n;
    }
    sent := total;
  }
}
