// Requests and responses over a socket: finding the end of the header section
// in a stream that arrives in pieces, and joining the body to it.

module HttpStream {
  import opened Options
  import opened CText
  import opened HeaderTable
  import opened HeaderCodec
  import opened HttpMessages
  import opened Sockets

  const BUFFER_SIZE := 4096

  // What comes over the socket: a head and the body_length characters behind
  // it, if there are any.
  datatype Message<H> = Message(head: H, body: Option<string>)

  // What a receive function comes to. Fault is what C leaves undefined, which
  // the code does not look out for: a missing head whose headers are read, a
  // Content-Length that is no int or leaves none for its buffer's size, or a
  // copy past the end of its array.
  datatype Outcome<H> = Got(message: Message<H>) | Nothing | Fault

  // What a function of the C library takes for the string that starts s.
  function CString(s: string): (r: string)
    ensures IsText(r)
  {
    s[..IndexOf(s, NUL)]
  }

  // Behind the first blank line of a stream.
  function SectionEnd(stream: string): (r: Option<nat>)
    ensures r.Some? ==> 4 <= r.value <= |stream|
  {
    match FindBlank(CString(stream))
    case None => None
    case Some(k) => Some(k + 4)
  }

  lemma CStringOfPrefix(s: string, n: nat)
    requires n <= |s|
    ensures CString(s[..n]) == if n < |CString(s)| then s[..n] else CString(s)
  {
    var i := IndexOf(s, NUL);
    IndexOfIs(s[..n], NUL, if n < i then n else i);
  }

  lemma CStringTerminated(s: string, n: nat)
    requires n < |s| && s[n] == NUL
    ensures CString(s) == CString(s[..n])
  {
    CStringOfPrefix(s, n);
    if n < IndexOf(s, NUL) {
      assert false;
    }
  }

  // A part of the stream shows the end of the header section exactly if it
  // reaches that far.
  lemma SectionEndOfPrefix(stream: string, n: nat)
    requires n <= |stream|
    ensures SectionEnd(stream[..n]) ==
            if SectionEnd(stream).Some? && SectionEnd(stream).value <= n then SectionEnd(stream) else None
  {
    var whole, part := CString(stream), CString(stream[..n]);
    CStringOfPrefix(stream, n);
    assert part == whole[..|part|] && whole == part + whole[|part|..];
    hide FindBlank, CString;
    if FindBlank(part).Some? {
      FindBlankPrefix(part, whole[|part|..]);
    } else if FindBlank(whole).Some? {
      var k := FindBlank(whole).value;
      if k + 4 <= n {
        assert part[k..k + 4] == whole[k..k + 4];
        FindBlankFirst(part, k);
      }
    }
  }

  // size characters of the stream are in the buffer, the rest still to come.
  ghost predicate Received(conn: Conn<char>, buf: array<char>, stream: string, size: int)
    reads conn, buf
  {
    && 0 <= size < buf.Length && size <= |stream|
    && buf[..size] == stream[..size] && buf[size] == NUL && conn.incoming == stream[size..]
  }

  // However recv splits the stream, the header section that is found is the
  // stream's own; what arrived behind it is counted as extra.
  method ReadUntilDoubleEndLine(conn: Conn<char>, buf: array<char>, length: nat) returns (size: int, extra: nat)
    requires 0 < length < buf.Length
    modifies conn`incoming, buf
    ensures var stream, end := old(conn.incoming), SectionEnd(old(conn.incoming));
      if end.Some? && end.value <= length then
        && end.value <= size <= length && extra == size - end.value && Received(conn, buf, stream, size)
      else if length <= |stream| then
        && size == length && extra == 0 && Received(conn, buf, stream, size)
      else
        && size == (if conn.end.Closed? then 0 else -1) && extra == 0 && conn.incoming == []
  {
    hide SectionEnd, CString, FindBlank;
    ghost var stream := conn.incoming;
    ghost var end := SectionEnd(stream);
    var total: nat := 0;
    extra := 0;
    while total < length
      invariant total <= length && total <= |stream| && extra == 0
      invariant conn.incoming == stream[total..]
      invariant buf[..total] == stream[..total]
      invariant total > 0 ==> buf[total] == NUL
      invariant end.Some? ==> total < end.value
      decreases length - total
    {
      ghost var before := buf[..total];
      var received := conn.Recv(buf, total, length - total);
      assert buf[..total] == before;
      if received == -1 {
        return -1, extra;
      } else if received == 0 {
        return 0, extra;
      }
      assert buf[..total + received] == before + buf[total..total + received];
      total := total + received;
      ghost var filled := buf[..total];
      buf[total] := NUL;
      assert buf[..total] == filled == stream[..total];
      var found := SearchBlank(buf, stream, total);
      if found.Some? {
        extra := total - (found.value + 4);
        break;
      }
    }
    size := total;
  }

  // strstr(buffer, "\r\n\r\n") behind a recv.
  method SearchBlank(buf: array<char>, ghost stream: string, total: nat) returns (r: Option<nat>)
    requires total < buf.Length && total <= |stream|
    requires buf[..total] == stream[..total] && buf[total] == NUL
    ensures var end := SectionEnd(stream);
      if end.Some? && end.value <= total then r == Some(end.value - 4) else r == None
  {
    hide FindBlank, CString;
    r := FindBlank(CString(buf[..]));
    assert buf[..][..total] == stream[..total];
    CStringTerminated(buf[..], total);
    SectionEndOfPrefix(stream, total);
  }

  // ----- bodies -----

  function HeaderValue(hs: seq<Header>, key: string): Option<string> {
    if hs == [] then None
    else if hs[0].key == key then Some(hs[0].value)
    else HeaderValue(hs[1..], key)
  }

  method FindHeaderValue(hs: seq<Header>, key: string) returns (v: Option<string>)
    ensures v == HeaderValue(hs, key)
  {
    var i: nat := 0;
    while i < |hs|
      invariant i <= |hs|
      invariant HeaderValue(hs, key) == HeaderValue(hs[i..], key)
    {
      assert hs[i..][1..] == hs[i + 1..];
      if hs[i].key == key {
        return Some(hs[i].value);
      }
      i := i + 1;
    }
    v := None;
  }

  // The value found is that of the first header of the key; none is found
  // only if there is no such header.
  lemma {:induction false} HeaderValueIs(hs: seq<Header>, key: string, i: nat)
    requires i < |hs| && hs[i].key == key && forall k | 0 <= k < i :: hs[k].key != key
    ensures HeaderValue(hs, key) == Some(hs[i].value)
  {
    if i > 0 {
      HeaderValueIs(hs[1..], key, i - 1);
    }
  }

  function BodyLength(hs: seq<Header>): int {
    match HeaderValue(hs, "Content-Length")
    case None => 0
    case Some(v) => Atoi(v)
  }

  // What receiving a body makes of a stream whose header section ends at end,
  // if the read that found this end stopped at size: r is the outcome and
  // left what stays in the socket.
  ghost predicate BodyTaken(stream: string, broken: bool, end: nat, size: nat, length: int,
                            r: Option<Option<string>>, left: string)
  {
    && end <= size <= |stream|
    && if length <= 0 then
         r == Some(None) && left == stream[size..]
       else if end + length <= |stream| then
         && r == Some(Some(stream[end..end + length]))
         && left == stream[if size < end + length then end + length else size..]
       else
         && left == [] && (r.None? <==> broken || size == |stream|)
         && (r.Some? ==> Truncated(r.value, stream[end..], length))
  }

  // The body that a stream cut short by its peer's close leaves: what had
  // arrived, a terminator, and what the allocated memory held.
  predicate Truncated(body: Option<string>, arrived: string, length: int) {
    && body.Some? && |arrived| < |body.value| == length
    && body.value[..|arrived|] == arrived && body.value[|arrived|] == NUL
  }

  // The body's buffer has one place more than body_length.
  method ReceiveBody(conn: Conn<char>, buf: array<char>, ghost stream: string, size: nat, extra: nat, length: int)
    returns (r: Option<Option<string>>)
    requires Received(conn, buf, stream, size) && extra <= size
    requires length > 0 ==> extra <= length + 1
    modifies conn`incoming
    ensures BodyTaken(stream, conn.end.Broken?, size - extra, size, length, r, conn.incoming)
    ensures var end := size - extra;
      && (length <= 0 ==> r == Some(None) && conn.incoming == stream[size..])
      && (0 < length <= |stream| - end ==> r == Some(Some(stream[end..end + length])))
      && (length > |stream| - end && length > 0 ==> (r.None? <==> conn.end.Broken? || size == |stream|))
      && (length > |stream| - end && length > 0 && r.Some? ==>
            && r.value.Some? && |r.value.value| == length
            && r.value.value[..|stream| - end] == stream[end..] && r.value.value[|stream| - end] == NUL)
  {
    if length <= 0 {
      return Some(None);
    }
    ghost var end := size - extra;
    var body := new char[length + 1];
    forall k | 0 <= k < extra {
      body[k] := buf[size - extra + k];
    }
    assert forall k | 0 <= k < extra :: body[k] == stream[end + k];
    var remaining := length - extra;
    if remaining > 0 {
      var got := RecvAll(conn, body, extra, remaining, NUL);
      if got <= 0 {
        return None;
      }
      JoinParts(stream, end, size, body[..], got);
    }
    ghost var have := if end + length <= |stream| then length else |stream| - end;
    assert forall k | 0 <= k < have :: body[k] == stream[end + k];
    body[length] := NUL;
    assert forall k | 0 <= k < have :: body[k] == stream[end + k];
    assert body[..have] == stream[end..end + have];
    r := Some(Some(body[..length]));
    assert have < length ==> body[..length][..have] == body[..have] && stream[end..end + have] == stream[end..];
  }

  lemma JoinParts(stream: string, end: nat, size: nat, body: string, got: int)
    requires end <= size <= |stream| && 0 <= got && size + got <= |stream| && size - end + got <= |body|
    requires forall k | 0 <= k < size - end :: body[k] == stream[end + k]
    requires body[size - end..size - end + got] == stream[size..][..got]
    ensures forall k | 0 <= k < size - end + got :: body[k] == stream[end + k]
  {
    forall k | 0 <= k < size - end + got
      ensures body[k] == stream[end + k]
    {
      if size - end <= k {
        assert body[k] == body[size - end..size - end + got][k - (size - end)];
      }
    }
  }

  // ----- receiving -----

  // The stream has a header section that fits the buffer.
  predicate HasHead(stream: string) {
    SectionEnd(stream).Some? && SectionEnd(stream).value <= BUFFER_SIZE
  }

  function HeadText(stream: string): string
    requires HasHead(stream)
  {
    stream[..SectionEnd(stream).value]
  }

  function BodyOf<H>(r: Outcome<H>): Option<Option<string>> {
    if r.Got? then Some(r.message.body) else None
  }

  // body_length is an int and, if there is a body, so is the size of its
  // buffer, body_length + 1.
  predicate Allocates(length: int) {
    IsInt(length) && (length > 0 ==> IsInt(length + 1))
  }

  // Where the read of the header section may stop, depending on the split.
  predicate StopsAt(stream: string, size: nat) {
    && size <= BUFFER_SIZE && size <= |stream|
    && if HasHead(stream) then SectionEnd(stream).value <= size else size == BUFFER_SIZE
  }

  // memcpy of what was read behind the header section fits the body's buffer.
  predicate ExtraFits(stream: string, size: nat, length: int) {
    length > 0 && HasHead(stream) ==> size - SectionEnd(stream).value <= length + 1
  }

  // It fits wherever the read stops.
  predicate BodyFits(stream: string, end: nat, hs: seq<Header>) {
    var length := BodyLength(hs);
    Allocates(length) && (length > 0 ==> |stream| <= end + length + 1 || BUFFER_SIZE <= end + length + 1)
  }

  lemma BodyFitsIff(stream: string, hs: seq<Header>)
    requires HasHead(stream)
    ensures BodyFits(stream, SectionEnd(stream).value, hs) <==>
              && Allocates(BodyLength(hs))
              && forall size: nat | StopsAt(stream, size) :: ExtraFits(stream, size, BodyLength(hs))
  {
    hide SectionEnd, BodyLength;
    var most := if |stream| < BUFFER_SIZE then |stream| else BUFFER_SIZE;
    assert StopsAt(stream, most);
  }

  // Otherwise some split overruns the buffer.
  lemma OverrunSplit(stream: string, hs: seq<Header>) returns (size: nat)
    requires HasHead(stream) && Allocates(BodyLength(hs)) && !BodyFits(stream, SectionEnd(stream).value, hs)
    ensures StopsAt(stream, size) && BodyLength(hs) > 0
    ensures size - SectionEnd(stream).value > BodyLength(hs) + 1
  {
    hide SectionEnd, BodyLength;
    size := if |stream| < BUFFER_SIZE then |stream| else BUFFER_SIZE;
  }

  // The read may stop right behind the header section.
  lemma HeadRead(stream: string)
    requires HasHead(stream)
    ensures StopsAt(stream, |HeadText(stream)|) && |HeadText(stream)| == SectionEnd(stream).value
    ensures CString(stream[..|HeadText(stream)|]) == HeadText(stream)
  {
    CStringOfPrefix(stream, SectionEnd(stream).value);
  }

  lemma NoHeadRead(stream: string)
    requires !HasHead(stream) && BUFFER_SIZE <= |stream|
    ensures FindBlank(CString(stream[..BUFFER_SIZE])).None?
  {
    SectionEndOfPrefix(stream, BUFFER_SIZE);
  }

  // A header section is parsed alike whatever was read behind it.
  lemma {:induction false} FirstLineInside(s: string, more: string)
    requires FirstLine(s).Some? && IsEol(s[|s| - 1])
    ensures FirstLine(s + more) == FirstLine(s)
  {
    if IsEol(s[0]) {
      FirstLineInside(s[1..], more);
      assert (s + more)[1..] == s[1..] + more;
    } else {
      var n := LineLength(s);
      assert n < |s|;
      LineLengthIs(s + more, n);
      assert (s + more)[..n] == s[..n];
    }
  }

  lemma SameFirstLine(text: string, section: string)
    requires FindBlank(section) == Some(|section| - 4) && FirstLine(section).Some?
    requires |section| <= |text| && text[..|section|] == section
    ensures FirstLine(text) == FirstLine(section)
  {
    hide FindBlank, FirstLine;
    var k := |section| - 4;
    assert section[|section| - 1] == section[k..k + 4][3];
    assert text == section + text[|section|..];
    FirstLineInside(section, text[|section|..]);
  }

  // What the parser is given, of which the header section is the front.
  lemma BlankOfStream(stream: string)
    requires SectionEnd(stream).Some?
    ensures var text, end := CString(stream), SectionEnd(stream).value;
      FindBlank(text) == Some(end - 4) && end <= |text| <= |stream| && text[..end] == stream[..end]
  {
    hide FindBlank;
    var text, end := CString(stream), SectionEnd(stream).value;
    assert text == stream[..|text|];
  }

  lemma HeadInText(stream: string, size: nat)
    requires HasHead(stream) && SectionEnd(stream).value <= size <= |stream|
    ensures var text, section := CString(stream[..size]), HeadText(stream);
      && FindBlank(text) == FindBlank(section) == Some(|section| - 4)
      && |section| <= |text| && text[..|section|] == section
  {
    var end := SectionEnd(stream).value;
    SectionEndOfPrefix(stream, size);
    SectionEndOfPrefix(stream, end);
    BlankOfStream(stream[..size]);
    BlankOfStream(stream[..end]);
    HeadRead(stream);
    hide FindBlank, CString, SectionEnd;
    assert stream[..size][..end] == stream[..end];
  }

  lemma SectionDecides(stream: string, size: nat)
    requires HasHead(stream) && SectionEnd(stream).value <= size <= |stream|
    requires FirstLine(HeadText(stream)).Some?
    ensures var text, section := CString(stream[..size]), HeadText(stream);
      && FirstLine(text) == FirstLine(section)
      && FindBlank(text) == FindBlank(section) == Some(|section| - 4)
      && |section| <= |text| && text[..|section|] == section
  {
    hide *;
    HeadInText(stream, size);
    SameFirstLine(CString(stream[..size]), HeadText(stream));
  }

  // A response whose head parses and whose body fits, or a stream that ends
  // before its header section does.
  predicate ResponseArrives(stream: string) {
    if HasHead(stream) then
      var section := HeadText(stream);
      && ResponseFits(section) && ParseResponse(section).Some?
      && BodyFits(stream, |section|, ParseResponse(section).value.headers)
    else
      |stream| < BUFFER_SIZE
  }

  lemma ResponseHeadDecides(stream: string, size: nat)
    requires HasHead(stream) && SectionEnd(stream).value <= size <= |stream|
    requires ResponseFits(HeadText(stream)) && ParseResponse(HeadText(stream)).Some?
    ensures var text, section := CString(stream[..size]), HeadText(stream);
      ResponseFits(text) && ParseResponse(text) == ParseResponse(section)
  {
    hide HeadText, HasHead, SectionEnd, CString, FirstLine, FindBlank, ParseHeaders;
    hide NextWord, NextInt, AfterSecondSpace;
    SectionDecides(stream, size);
    var section := HeadText(stream);
    assert section[..|section| - 4 + 4] == section;
  }

  // Reading stopped at size and nothing undefined follows: the words of the
  // status line fit their arrays, the head parses, its body can be allocated,
  // and what was read behind the head fits the body's buffer.
  predicate ResponseSafe(stream: string, size: nat)
    requires size <= |stream|
  {
    var text := CString(stream[..size]);
    ResponseFits(text) && ParseResponse(text).Some?
    && var length := BodyLength(ParseResponse(text).value.headers); Allocates(length) && ExtraFits(stream, size, length)
  }

  // No way to split the stream leads to anything undefined exactly if it has
  // a response that arrives, or ends before it has a head.
  lemma ResponseArrivesIff(stream: string)
    ensures ResponseArrives(stream) <==> forall size: nat | StopsAt(stream, size) :: ResponseSafe(stream, size)
  {
    hide SectionEnd, CString, ResponseFits, ParseResponse, BodyLength, HeadText;
    if HasHead(stream) {
      HeadRead(stream);
      var section := HeadText(stream);
      if ResponseFits(section) && ParseResponse(section).Some? {
        var hs := ParseResponse(section).value.headers;
        forall size: nat | StopsAt(stream, size)
          ensures ResponseSafe(stream, size) <==> Allocates(BodyLength(hs)) && ExtraFits(stream, size, BodyLength(hs))
        {
          ResponseHeadDecides(stream, size);
        }
        BodyFitsIff(stream, hs);
      }
    } else if |stream| >= BUFFER_SIZE {
      NoHeadRead(stream);
      NoBlankNoResponse(CString(stream[..BUFFER_SIZE]));
      assert StopsAt(stream, BUFFER_SIZE) && !ResponseSafe(stream, BUFFER_SIZE);
    }
  }

  lemma NoBlankNoResponse(text: string)
    requires FindBlank(text).None?
    ensures ParseResponse(text).None?
  {
  }

  lemma ResponseArrived(stream: string, size: nat)
    requires HasHead(stream) && ResponseArrives(stream) && StopsAt(stream, size)
    ensures ResponseSafe(stream, size) && ParseResponse(CString(stream[..size])) == ParseResponse(HeadText(stream))
  {
    hide SectionEnd, CString, ResponseFits, ParseResponse, ResponseSafe, HeadText, BodyFits;
    ResponseArrivesIff(stream);
    ResponseHeadDecides(stream, size);
  }

  // receive_http_response. size is where the read that found the end of the
  // header section stopped; nothing else depends on how the stream is split.
  method ReceiveResponse(conn: Conn<char>) returns (r: Outcome<Response>, ghost size: nat)
    modifies conn`incoming
    ensures var stream := old(conn.incoming);
      if HasHead(stream) then
        && StopsAt(stream, size) && (r.Fault? <==> !ResponseSafe(stream, size))
        && (!r.Fault? ==>
              var head := ParseResponse(CString(stream[..size])).value;
              && (r.Got? ==> r.message.head == head)
              && BodyTaken(stream, conn.end.Broken?, |HeadText(stream)|, size, BodyLength(head.headers),
                           BodyOf(r), conn.incoming))
      else if 4096 <= |stream| then
        r == Fault && size == 4096
      else
        r == Nothing && conn.incoming == []
  {
    hide SectionEnd, CString, ParseResponse, ResponseFits, BodyTaken, HeaderValue, Atoi;
    ghost var stream := conn.incoming;
    var buf := new char[BUFFER_SIZE + 1];
    var total, extra := ReadUntilDoubleEndLine(conn, buf, BUFFER_SIZE);
    if total <= 0 {
      return Nothing, 0;
    }
    size := total;
    CStringTerminated(buf[..], total);
    assert buf[..][..total] == stream[..total];
    if !HasHead(stream) {
      NoHeadRead(stream);
      NoBlankNoResponse(CString(stream[..size]));
    }
    if !ResponseFits(CString(buf[..])) {
      return Fault, size;
    }
    var head := DeserializeResponse(CString(buf[..]));
    if head.None? {
      return Fault, size;
    }
    var value := FindHeaderValue(head.value.headers, "Content-Length");
    var length := if value.None? then 0 else Atoi(value.value);
    if !Allocates(length) || (length > 0 && extra > length + 1) {
      return Fault, size;
    }
    var body := ReceiveBody(conn, buf, stream, total, extra, length);
    r := if body.None? then Nothing else Got(Message(head.value, body.value));
  }

  predicate RequestArrives(stream: string) {
    if HasHead(stream) then
      var section := HeadText(stream);
      && RequestFits(section) && ParseRequest(section).Some?
      && BodyFits(stream, |section|, ParseRequest(section).value.headers)
    else
      |stream| < BUFFER_SIZE
  }

  lemma RequestHeadDecides(stream: string, size: nat)
    requires HasHead(stream) && SectionEnd(stream).value <= size <= |stream|
    requires RequestFits(HeadText(stream)) && ParseRequest(HeadText(stream)).Some?
    ensures var text, section := CString(stream[..size]), HeadText(stream);
      RequestFits(text) && ParseRequest(text) == ParseRequest(section)
  {
    hide HeadText, HasHead, SectionEnd, CString, FirstLine, FindBlank, Words, ParseHeaders;
    SectionDecides(stream, size);
    var section := HeadText(stream);
    assert section[..|section| - 4 + 4] == section;
  }

  // Reading stopped at size and nothing undefined follows: the words of the
  // request line fit their arrays, the head parses, its body can be allocated,
  // and what was read behind the head fits the body's buffer.
  predicate RequestSafe(stream: string, size: nat)
    requires size <= |stream|
  {
    var text := CString(stream[..size]);
    RequestFits(text) && ParseRequest(text).Some?
    && var length := BodyLength(ParseRequest(text).value.headers); Allocates(length) && ExtraFits(stream, size, length)
  }

  // No way to split the stream leads to anything undefined exactly if it has
  // a request that arrives, or ends before it has a head.
  lemma RequestArrivesIff(stream: string)
    ensures RequestArrives(stream) <==> forall size: nat | StopsAt(stream, size) :: RequestSafe(stream, size)
  {
    hide SectionEnd, CString, RequestFits, ParseRequest, BodyLength, HeadText;
    if HasHead(stream) {
      HeadRead(stream);
      var section := HeadText(stream);
      if RequestFits(section) && ParseRequest(section).Some? {
        var hs := ParseRequest(section).value.headers;
        forall size: nat | StopsAt(stream, size)
          ensures RequestSafe(stream, size) <==> Allocates(BodyLength(hs)) && ExtraFits(stream, size, BodyLength(hs))
        {
          RequestHeadDecides(stream, size);
        }
        BodyFitsIff(stream, hs);
      }
    } else if |stream| >= BUFFER_SIZE {
      NoHeadRead(stream);
      NoBlankNoRequest(CString(stream[..BUFFER_SIZE]));
      assert StopsAt(stream, BUFFER_SIZE) && !RequestSafe(stream, BUFFER_SIZE);
    }
  }

  lemma NoBlankNoRequest(text: string)
    requires FindBlank(text).None?
    ensures ParseRequest(text).None?
  {
  }

  lemma RequestArrived(stream: string, size: nat)
    requires HasHead(stream) && RequestArrives(stream) && StopsAt(stream, size)
    ensures RequestSafe(stream, size) && ParseRequest(CString(stream[..size])) == ParseRequest(HeadText(stream))
  {
    hide SectionEnd, CString, RequestFits, ParseRequest, RequestSafe, HeadText, BodyFits;
    RequestArrivesIff(stream);
    RequestHeadDecides(stream, size);
  }

  // receive_http_request. size is where the read that found the end of the
  // header section stopped; nothing else depends on how the stream is split.
  method ReceiveRequest(conn: Conn<char>) returns (r: Outcome<Request>, ghost size: nat)
    modifies conn`incoming
    ensures var stream := old(conn.incoming);
      if HasHead(stream) then
        && StopsAt(stream, size) && (r.Fault? <==> !RequestSafe(stream, size))
        && (!r.Fault? ==>
              var head := ParseRequest(CString(stream[..size])).value;
              && (r.Got? ==> r.message.head == head)
              && BodyTaken(stream, conn.end.Broken?, |HeadText(stream)|, size, BodyLength(head.headers),
                           BodyOf(r), conn.incoming))
      else if 4096 <= |stream| then
        r == Fault && size == 4096
      else
        r == Nothing && conn.incoming == []
  {
    hide SectionEnd, CString, ParseRequest, RequestFits, BodyTaken, HeaderValue, Atoi;
    ghost var stream := conn.incoming;
    var buf := new char[BUFFER_SIZE + 1];
    var total, extra := ReadUntilDoubleEndLine(conn, buf, BUFFER_SIZE);
    if total <= 0 {
      return Nothing, 0;
    }
    size := total;
    CStringTerminated(buf[..], total);
    assert buf[..][..total] == stream[..total];
    if !HasHead(stream) {
      NoHeadRead(stream);
      NoBlankNoRequest(CString(stream[..size]));
    }
    if !RequestFits(CString(buf[..])) {
      return Fault, size;
    }
    var head := DeserializeRequest(CString(buf[..]));
    if head.None? {
      return Fault, size;
    }
    var value := FindHeaderValue(head.value.headers, "Content-Length");
    var length := if value.None? then 0 else Atoi(value.value);
    if !Allocates(length) || (length > 0 && extra > length + 1) {
      return Fault, size;
    }
    var body := ReceiveBody(conn, buf, stream, total, extra, length);
    r := if body.None? then Nothing else Got(Message(head.value, body.value));
  }

  // ----- sending -----

  // What sending text made of a connection: all of it went out, or as much
  // as there was room for.
  ghost predicate Delivered(text: string, room: nat, out: string, result: int, roomAfter: nat, outAfter: string) {
    if |text| <= room then
      result == 0 && roomAfter == room - |text| && outAfter == out + text
    else
      result == -1 && roomAfter == 0 && outAfter == out + text[..room]
  }

  lemma DeliveredInTwo(a: string, b: string, room: nat, out: string, result: int, roomAfter: nat, outAfter: string)
    requires |a| <= room && Delivered(b, room - |a|, out + a, result, roomAfter, outAfter)
    ensures Delivered(a + b, room, out, result, roomAfter, outAfter)
  {
    if |a + b| > room {
      assert (a + b)[..room] == a + b[..room - |a|];
    }
  }

  // send_http_request: the header section and, if there is one, the body,
  // whose length is an int. None is a section that is too long for one.
  method SendRequest(conn: Conn<char>, r: Request, body: Option<string>) returns (result: Option<int>)
    requires body.Some? ==> |body.value| <= INT_MAX
    modifies conn`outgoing, conn`room
    ensures result.Some? <==> |PrintRequest(r)| <= INT_MAX
    ensures result.None? ==> conn.room == old(conn.room) && conn.outgoing == old(conn.outgoing)
    ensures result.Some? ==>
              Delivered(PrintRequest(r) + (if body.Some? then body.value else ""),
                        old(conn.room), old(conn.outgoing), result.value, conn.room, conn.outgoing)
    ensures result.Some? ==>
              var text := PrintRequest(r) + (if body.Some? then body.value else "");
              if |text| <= old(conn.room) then result == Some(0) && conn.outgoing == old(conn.outgoing) + text
              else result == Some(-1) && conn.outgoing == old(conn.outgoing) + text[..old(conn.room)]
  {
    ghost var room, out, text := conn.room, conn.outgoing, PrintRequest(r);
    ghost var more := if body.Some? then body.value else "";
    hide PrintRequest;
    var fits, buf, size := SerializeRequest(r);
    if !fits {
      return None;
    }
    var sent := SendAll(conn, buf[..size]);
    if sent < 0 {
      assert (text + more)[..room] == text[..room];
      return Some(-1);
    }
    result := Some(0);
    if body.Some? {
      sent := SendAll(conn, body.value);
      result := Some(if sent < 0 then -1 else 0);
    }
    DeliveredInTwo(text, more, room, out, result.value, conn.room, conn.outgoing);
  }

  // send_http_response, with whatever was in the places that the size counts
  // for the status and its digits do not use. None is a status of too many
  // digits, which overruns the buffer, or a size that is no int.
  method SendResponse(conn: Conn<char>, r: Response, body: string) returns (result: Option<int>, ghost surplus: string)
    requires r.status >= 0
    modifies conn`outgoing, conn`room
    ensures result.Some? <==> |Decimal(r.status)| <= 4 && ResponseSize(r, body) <= INT_MAX
    ensures result.None? ==> conn.room == old(conn.room) && conn.outgoing == old(conn.outgoing)
    ensures result.Some? ==>
              && |surplus| == 4 - |Decimal(r.status)|
              && Delivered(PrintResponse(r, body) + surplus,
                           old(conn.room), old(conn.outgoing), result.value, conn.room, conn.outgoing)
    ensures result.Some? ==>
              var text := PrintResponse(r, body) + surplus;
              if |text| <= old(conn.room) then result == Some(0) && conn.outgoing == old(conn.outgoing) + text
              else result == Some(-1) && conn.outgoing == old(conn.outgoing) + text[..old(conn.room)]
  {
    hide PrintResponse, Decimal;
    var fits, buf, size := SerializeResponse(r, body);
    surplus := "";
    if !fits {
      return None, surplus;
    }
    surplus := buf[|PrintResponse(r, body)|..];
    assert buf[..] == PrintResponse(r, body) + surplus && buf[..size] == buf[..];
    var sent := SendAll(conn, buf[..size]);
    result := Some(if sent < 0 then -1 else 0);
  }

  // ----- end to end -----

  // The headers give the length of the body.
  predicate Announces(hs: seq<Header>, length: nat) {
    match HeaderValue(hs, "Content-Length")
    case None => length == 0
    case Some(v) => v == Decimal(length)
  }

  lemma AnnouncedLength(hs: seq<Header>, length: nat)
    requires Announces(hs, length)
    ensures BodyLength(hs) == length
  {
    AtoiDecimal(length, "");
    assert Decimal(length) + "" == Decimal(length);
  }

  lemma {:induction false} PrintedIsText(hs: seq<Header>)
    requires ValidHeaders(hs)
    ensures IsText(PrintHeaders(hs))
  {
    if hs != [] {
      PrintedIsText(hs[1..]);
      assert IsText(PrintHeader(hs[0]));
    }
  }

  // The end of a printed section is found whatever follows it, NULs included.
  lemma SectionEndIs(start: string, hs: seq<Header>, more: string)
    requires ValidHeaders(hs) && ValidValue(start)
    ensures SectionEnd(Section(start, hs) + more) == Some(|Section(start, hs)|)
    ensures (Section(start, hs) + more)[..|Section(start, hs)|] == Section(start, hs)
  {
    var section := Section(start, hs);
    PrintedIsText(hs);
    assert IsText(section);
    BlankOfSection(start, hs, "");
    assert section + "" == section;
    IndexOfIs(section, NUL, |section|);
    assert section[..|section|] == section;
    assert SectionEnd(section) == Some(|section|);
    assert (section + more)[..|section|] == section;
    SectionEndOfPrefix(section + more, |section|);
  }

  // A sent response whose headers announce its body arrives as it was, and
  // the surplus fits the receiver's body buffer.
  lemma ResponseDelivered(r: Response, body: string, surplus: string)
    requires ValidResponse(r) && ':' !in StatusLine(r) && Announces(r.headers, |body|)
    requires |Section(StatusLine(r), r.headers)| <= BUFFER_SIZE && |body| < INT_MAX && |surplus| <= 1
    ensures var stream := PrintResponse(r, body) + surplus;
      && HasHead(stream) && ResponseArrives(stream)
      && ParseResponse(HeadText(stream)) == Some(r) && BodyLength(r.headers) == |body|
      && stream[|HeadText(stream)|..] == body + surplus
  {
    var section := Section(StatusLine(r), r.headers);
    assert PrintResponse(r, body) + surplus == section + (body + surplus);
    SectionEndIs(StatusLine(r), r.headers, body + surplus);
    ResponseRoundTripIff(r, "");
    assert section + "" == section;
    hide *;
    AnnouncedLength(r.headers, |body|);
    ResponseHeadArrives(section, r, body + surplus, |body|);
  }

  lemma ResponseHeadArrives(section: string, r: Response, tail: string, length: nat)
    requires SectionEnd(section + tail) == Some(|section|) && |section| <= BUFFER_SIZE
    requires ResponseFits(section) && ParseResponse(section) == Some(r)
    requires BodyLength(r.headers) == length < INT_MAX && |tail| <= length + 1
    ensures var stream := section + tail;
      && HasHead(stream) && ResponseArrives(stream) && HeadText(stream) == section && stream[|section|..] == tail
  {
    hide SectionEnd, ResponseFits, ParseResponse, BodyLength;
    assert (section + tail)[..|section|] == section;
  }

  // A body that can be allocated always fits with three digits or more. With
  // fewer, a response overruns the body's buffer if it is read at once, unless
  // there is no body or the read stops before the surplus.
  lemma SurplusFitsIff(r: Response, body: string, surplus: string)
    requires ValidResponse(r) && Announces(r.headers, |body|)
    requires |Decimal(r.status)| + |surplus| == 4
    ensures BodyFits(PrintResponse(r, body) + surplus, |Section(StatusLine(r), r.headers)|, r.headers) <==>
              || body == ""
              || (|body| < INT_MAX
                  && (3 <= |Decimal(r.status)|
                      || BUFFER_SIZE <= |Section(StatusLine(r), r.headers)| + |body| + 1))
  {
    AnnouncedLength(r.headers, |body|);
    hide Section, StatusLine, Decimal;
  }

  lemma RequestDelivered(r: Request, body: string)
    requires ValidRequest(r) && ':' !in RequestLine(r) && Announces(r.headers, |body|)
    requires |PrintRequest(r)| <= BUFFER_SIZE && |body| < INT_MAX
    ensures var stream := PrintRequest(r) + body;
      && HasHead(stream) && RequestArrives(stream)
      && ParseRequest(HeadText(stream)) == Some(r) && BodyLength(r.headers) == |body|
      && stream[|HeadText(stream)|..] == body
  {
    WordsOfLine(r);
    SectionEndIs(RequestLine(r), r.headers, body);
    RequestRoundTripIff(r, "");
    assert PrintRequest(r) + "" == PrintRequest(r);
    hide Section, RequestLine, ParseRequest, RequestFits, SectionEnd, ValidRequest;
    AnnouncedLength(r.headers, |body|);
  }

  function NonEmpty(body: string): Option<string> {
    if body == "" then None else Some(body)
  }

  // What a complete stream leaves no choice about.
  lemma TakenWhole(stream: string, broken: bool, end: nat, size: nat, body: string, surplus: string,
                   r: Option<Option<string>>, left: string)
    requires BodyTaken(stream, broken, end, size, |body|, r, left)
    requires stream[end..] == body + surplus
    ensures r == Some(NonEmpty(body)) && |left| <= |surplus|
  {
    assert stream[end..end + |body|] == stream[end..][..|body|] == body;
  }

  lemma BodyIsShorter(r: Response, body: string)
    requires 0 <= r.status && |Decimal(r.status)| <= 4
    ensures |body| < ResponseSize(r, body)
  {
    hide Decimal, PrintHeaders;
  }

  // Behind a head that announces the longest int or more, nothing can be
  // received: however the stream goes on and is split, the size of the body's
  // buffer is no int.
  lemma TooLongToReceive(r: Response, length: nat, more: string)
    requires ValidResponse(r) && ':' !in StatusLine(r) && Announces(r.headers, length) && INT_MAX <= length
    requires |Section(StatusLine(r), r.headers)| <= BUFFER_SIZE
    ensures var stream := Section(StatusLine(r), r.headers) + more;
      && HasHead(stream) && forall size: nat | StopsAt(stream, size) :: !ResponseSafe(stream, size)
  {
    var stream := Section(StatusLine(r), r.headers) + more;
    SectionEndIs(StatusLine(r), r.headers, more);
    ResponseRoundTripIff(r, "");
    assert Section(StatusLine(r), r.headers) + "" == Section(StatusLine(r), r.headers);
    hide Section, StatusLine, ParseResponse, ResponseFits, SectionEnd, ValidResponse, CString;
    AnnouncedLength(r.headers, length);
    forall size: nat | StopsAt(stream, size)
      ensures !ResponseSafe(stream, size)
    {
      ResponseHeadDecides(stream, size);
    }
  }

  // The same for a request.
  lemma RequestTooLongToReceive(r: Request, length: nat, more: string)
    requires ValidRequest(r) && ':' !in RequestLine(r) && Announces(r.headers, length) && INT_MAX <= length
    requires |PrintRequest(r)| <= BUFFER_SIZE
    ensures var stream := PrintRequest(r) + more;
      && HasHead(stream) && forall size: nat | StopsAt(stream, size) :: !RequestSafe(stream, size)
  {
    var stream := PrintRequest(r) + more;
    WordsOfLine(r);
    SectionEndIs(RequestLine(r), r.headers, more);
    RequestRoundTripIff(r, "");
    assert PrintRequest(r) + "" == PrintRequest(r);
    hide Section, RequestLine, ParseRequest, RequestFits, SectionEnd, ValidRequest, CString;
    AnnouncedLength(r.headers, length);
    forall size: nat | StopsAt(stream, size)
      ensures !RequestSafe(stream, size)
    {
      RequestHeadDecides(stream, size);
    }
  }

  lemma DigitsAreValue(s: string)
    requires forall k | 0 <= k < |s| :: IsDigit(s[k])
    ensures ValidValue(s)
  {
  }

  lemma PlainStatusLine(r: Response)
    requires r.version == "HTTP/1.1" && r.status == 200 && r.reason == "OK"
    ensures StatusLine(r) == "HTTP/1.1 200 OK" && ':' !in StatusLine(r)
    ensures IsWord(r.version) && IsText(r.version) && ValidValue(r.reason)
  {
    TwoHundred();
    hide Decimal;
  }

  lemma TwoHundred()
    ensures Decimal(200) == "200"
  {
    assert Decimal(2) == "2" && Decimal(20) == "20";
  }

  // Such a head is short enough to arrive.
  lemma LongestLength() returns (r: Response)
    ensures ValidResponse(r) && ':' !in StatusLine(r) && Announces(r.headers, 2147483647)
    ensures |Section(StatusLine(r), r.headers)| <= 4096
  {
    var value := Decimal(INT_MAX);
    TenToTen();
    DecimalLength(INT_MAX, 10);
    DigitsAreValue(value);
    r := Response("HTTP/1.1", 200, "OK", [Header("Content-Length", value)]);
    PlainStatusLine(r);
    LengthHeader(value);
    OneHeader(r.headers[0]);
    hide Decimal, PrintHeaders, ValidValue, StatusLine, IsWord, IsText, HeaderValue, ValidHeaders;
  }

  lemma LengthHeader(value: string)
    requires ValidValue(value)
    ensures ValidHeaders([Header("Content-Length", value)])
    ensures HeaderValue([Header("Content-Length", value)], "Content-Length") == Some(value)
  {
    assert ValidKey("Content-Length");
  }

  lemma OneHeader(h: Header)
    ensures |PrintHeaders([h])| == |h.key| + |h.value| + 4
  {
    assert [h][1..] == [];
    assert PrintHeaders([h]) == PrintHeader(h) + "";
  }

  lemma TenToTen()
    ensures TenTo(10) == 10_000_000_000
  {
    assert TenTo(5) == 100_000;
  }

  lemma {:induction false} DecimalLength(n: nat, digits: nat)
    requires 0 < digits && n < TenTo(digits)
    ensures |Decimal(n)| <= digits
  {
    if n >= 10 {
      DecimalLength(n / 10, digits - 1);
    }
  }

  function TenTo(digits: nat): nat {
    if digits == 0 then 1 else 10 * TenTo(digits - 1)
  }

  // End to end: however the response is cut up under way, what is received is
  // what was sent.
  method ExchangeResponse(sender: Conn<char>, receiver: Conn<char>, r: Response, body: string)
    returns (got: Outcome<Response>)
    requires ValidResponse(r) && 3 <= |Decimal(r.status)| <= 4
    requires ':' !in StatusLine(r) && Announces(r.headers, |body|)
    requires |Section(StatusLine(r), r.headers)| <= BUFFER_SIZE && ResponseSize(r, body) <= INT_MAX
    requires sender.outgoing == [] && |PrintResponse(r, body)| + 1 <= sender.room
    modifies sender`outgoing, sender`room, receiver`incoming
    ensures got == Got(Message(r, NonEmpty(body)))
    ensures |receiver.incoming| <= 4 - |Decimal(r.status)|
  {
    hide Section, StatusLine, PrintResponse, Decimal, Announces, BodyTaken;
    hide ParseResponse, HasHead, ResponseArrives, BodyLength, ResponseSafe, StopsAt, CString;
    var result, surplus := SendResponse(sender, r, body);
    receiver.incoming := sender.outgoing;
    ghost var stream := receiver.incoming;
    assert stream == PrintResponse(r, body) + surplus;
    BodyIsShorter(r, body);
    ResponseDelivered(r, body, surplus);
    ghost var size;
    got, size := ReceiveResponse(receiver);
    ResponseArrived(stream, size);
    TakenWhole(stream, receiver.end.Broken?, |HeadText(stream)|, size, body, surplus, BodyOf(got), receiver.incoming);
  }

  method ExchangeRequest(sender: Conn<char>, receiver: Conn<char>, r: Request, body: string)
    returns (got: Outcome<Request>)
    requires ValidRequest(r) && ':' !in RequestLine(r) && Announces(r.headers, |body|)
    requires |PrintRequest(r)| <= BUFFER_SIZE && |body| < INT_MAX
    requires sender.outgoing == [] && |PrintRequest(r)| + |body| <= sender.room
    modifies sender`outgoing, sender`room, receiver`incoming
    ensures got == Got(Message(r, NonEmpty(body))) && receiver.incoming == []
  {
    hide RequestLine, PrintRequest, Announces, ValidRequest, BodyTaken;
    hide ParseRequest, HasHead, RequestArrives, BodyLength, RequestSafe, StopsAt, CString;
    var result := SendRequest(sender, r, NonEmpty(body));
    receiver.incoming := sender.outgoing;
    ghost var stream := receiver.incoming;
    assert stream == PrintRequest(r) + body;
    RequestDelivered(r, body);
    ghost var size;
    got, size := ReceiveRequest(receiver);
    RequestArrived(stream, size);
    TakenWhole(stream, receiver.end.Broken?, |HeadText(stream)|, size, body, "", BodyOf(got), receiver.incoming);
  }
}
