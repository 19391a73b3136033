// HTTP/1.1 requests and responses: printing them, and parsing the header
// section of what arrives.

module HttpMessages {
  import opened Options
  import opened CText
  import opened HeaderTable
  import opened HeaderCodec

  const METHOD_SIZE := 16
  const URI_SIZE := 256
  const VERSION_SIZE := 16
  const REASON_PHRASE_SIZE := 256

  datatype Request = Request(verb: string, uri: string, version: string, headers: seq<Header>)

  datatype Response = Response(version: string, status: int, reason: string, headers: seq<Header>)

  // ----- printing -----

  function RequestLine(r: Request): string {
    r.verb + " " + r.uri + " " + r.version
  }

  function PrintRequest(r: Request): string {
    Section(RequestLine(r), r.headers)
  }

  function StatusLine(r: Response): string
    requires r.status >= 0
  {
    r.version + " " + Decimal(r.status) + " " + r.reason
  }

  function PrintResponse(r: Response, body: string): string
    requires r.status >= 0
  {
    Section(StatusLine(r), r.headers) + body
  }

  // What serialize_http_response counts.
  function ResponseSize(r: Response, body: string): int
    requires r.status >= 0
  {
    |PrintResponse(r, body)| + 4 - |Decimal(r.status)|
  }

  // serialize_http_request_header; the buffer has a spare byte for the
  // terminator that sprintf and strcat write. The size is an int, which is
  // fits.
  method SerializeRequest(r: Request) returns (fits: bool, buf: array<char>, size: nat)
    ensures fits <==> |PrintRequest(r)| <= INT_MAX
    ensures fresh(buf)
    ensures fits ==> size == |PrintRequest(r)| && Holds(buf, PrintRequest(r))
    ensures fits ==>
              var uri, version, headers := |r.verb| + 1, |r.verb| + 1 + |r.uri| + 1, |PrintHeaders(r.headers)|;
              var end := version + |r.version|;
              && size == |r.verb| + |r.uri| + |r.version| + 2 + 2 + headers + 2 < buf.Length
              && buf[..|r.verb|] == r.verb && buf[uri - 1] == ' '
              && buf[uri..version - 1] == r.uri && buf[version - 1] == ' '
              && buf[version..end] == r.version && buf[end..end + 2] == "\r\n"
              && buf[end + 2..end + 2 + headers] == PrintHeaders(r.headers)
              && buf[end + 2 + headers..size] == "\r\n" && buf[size] == NUL
  {
    hide PrintHeaders;
    var headersBuffer, headersSize;
    fits, headersBuffer, headersSize := SerializeHeaders(r.headers);
    if !fits {
      return false, headersBuffer, 0;
    }
    size := |r.verb| + |r.uri| + |r.version| + |" "| * 2 + |"\r\n"|;
    size := size + headersSize;
    size := size + |"\r\n"|;
    fits := size <= INT_MAX;
    buf := new char[size + 1](_ => NUL);
    var line := RequestLine(r);
    var text := headersBuffer[..headersSize];
    assert PrintRequest(r) == line + "\r\n" + text + "\r\n";
    CatLines(buf, line, text);
    RequestPieces(r, buf[..]);
  }

  // The last piece of what s starts with.
  lemma LastPiece<T>(s: seq<T>, p: seq<T>, x: seq<T>)
    requires p + x <= s
    ensures p <= s && |p| + |x| <= |s| && s[|p|..|p| + |x|] == x
  {
    assert (p + x)[|p|..] == x && (p + x)[..|p|] == p;
  }

  // Where the pieces of a printed request are.
  lemma RequestPieces(r: Request, s: string)
    requires PrintRequest(r) <= s
    ensures var uri, version, headers := |r.verb| + 1, |r.verb| + 1 + |r.uri| + 1, |PrintHeaders(r.headers)|;
      var end := version + |r.version|;
      && |PrintRequest(r)| == end + 2 + headers + 2
      && s[..|r.verb|] == r.verb && s[uri - 1] == ' '
      && s[uri..version - 1] == r.uri && s[version - 1] == ' '
      && s[version..end] == r.version && s[end..end + 2] == "\r\n"
      && s[end + 2..end + 2 + headers] == PrintHeaders(r.headers)
      && s[end + 2 + headers..end + 2 + headers + 2] == "\r\n"
  {
    hide PrintHeaders;
    var hs := PrintHeaders(r.headers);
    var a := r.verb + " ";
    var b := a + r.uri;
    var c := b + " ";
    var d := c + r.version;
    var e := d + "\r\n";
    var f := e + hs;
    assert PrintRequest(r) == f + "\r\n";
    LastPiece(s, f, "\r\n");
    LastPiece(s, e, hs);
    LastPiece(s, d, "\r\n");
    LastPiece(s, c, r.version);
    LastPiece(s, b, " ");
    LastPiece(s, a, r.uri);
    LastPiece(s, r.verb, " ");
    assert s[|r.verb|] == s[|r.verb|..|r.verb| + 1][0] && s[|b|] == s[|b|..|b| + 1][0];
  }

  // A valid request's first line has no other white space than the two spaces.
  lemma TwoSpaces(r: Request)
    requires ValidRequest(r)
    ensures var uri, version := |r.verb| + 1, |r.verb| + 1 + |r.uri| + 1;
      && version + |r.version| <= |PrintRequest(r)|
      && forall k | 0 <= k < version + |r.version| ::
           IsSpace(PrintRequest(r)[k]) <==> k == uri - 1 || k == version - 1
  {
    var s, uri, version := PrintRequest(r), |r.verb| + 1, |r.verb| + 1 + |r.uri| + 1;
    RequestPieces(r, s);
    hide PrintRequest, IsSpace;
    assert IsSpace(' ') by { SpaceIsSpace(); }
    forall k | 0 <= k < version + |r.version|
      ensures IsSpace(s[k]) <==> k == uri - 1 || k == version - 1
    {
      if k < |r.verb| {
        assert s[k] == s[..|r.verb|][k];
      } else if uri <= k < version - 1 {
        assert s[k] == s[uri..version - 1][k - uri];
      } else if version <= k {
        assert s[k] == s[version..version + |r.version|][k - version];
      }
    }
  }

  lemma SpaceIsSpace()
    ensures IsSpace(' ')
  {
  }

  // sprintf of the start line, strcat of the headers and of the blank line.
  method CatLines(buf: array<char>, line: string, headers: string)
    requires |line| + |headers| + 4 < buf.Length && buf[0] == NUL
    modifies buf
    ensures Holds(buf, line + "\r\n" + headers + "\r\n")
  {
    StrCat(buf, 0, line);
    StrCat(buf, |line|, "\r\n");
    StrCat(buf, |line| + 2, headers);
    StrCat(buf, |line| + 2 + |headers|, "\r\n");
  }

  // serialize_http_response. The size counts the status as sizeof(int), four
  // bytes, whatever its number of digits; what lies beyond the printed text is
  // sent as it was allocated. It fits if no digit more is printed, or the
  // copies run past the buffer, and if the size is an int.
  method SerializeResponse(r: Response, body: string) returns (fits: bool, buf: array<char>, size: nat)
    requires r.status >= 0
    ensures fits <==> |Decimal(r.status)| <= 4 && ResponseSize(r, body) <= INT_MAX
    ensures fresh(buf)
    ensures fits ==>
              && size == buf.Length == ResponseSize(r, body)
              && buf[..|PrintResponse(r, body)|] == PrintResponse(r, body)
    ensures fits ==>
              var number, headers := Decimal(r.status), |PrintHeaders(r.headers)|;
              var status := |r.version| + 1;
              var reason := status + |number| + 1;
              var end := reason + |r.reason|;
              && size == |r.version| + 4 + |r.reason| + 2 + 2 + headers + 2 + |body|
              && buf[..|r.version|] == r.version && buf[status - 1] == ' '
              && buf[status..reason - 1] == number && buf[reason - 1] == ' '
              && buf[reason..end] == r.reason && buf[end..end + 2] == "\r\n"
              && buf[end + 2..end + 2 + headers] == PrintHeaders(r.headers)
              && buf[end + 2 + headers..end + 2 + headers + 2] == "\r\n"
              && buf[end + 2 + headers + 2..end + 2 + headers + 2 + |body|] == body
  {
    hide PrintHeaders, Decimal;
    var headersBuffer, headersSize;
    fits, headersBuffer, headersSize := SerializeHeaders(r.headers);
    if !fits {
      return false, headersBuffer, 0;
    }
    size := |r.version| + 4 + |r.reason| + |" "| * 2 + |"\r\n"|;
    size := size + headersSize;
    size := size + |"\r\n"|;
    size := size + |body|;
    buf := new char[size];
    var start := StatusLine(r) + "\r\n";
    var text := headersBuffer[..headersSize];
    assert PrintResponse(r, body) == start + text + "\r\n" + body;
    fits := |start| + |text| + 2 + |body| <= buf.Length && size <= INT_MAX;
    if fits {
      CopyPieces(buf, start, text, body);
      assert buf[..|PrintResponse(r, body)|] == buf[..][..|PrintResponse(r, body)|];
      ResponsePieces(r, body, buf[..]);
    }
  }

  // Where the pieces of a printed response are.
  lemma ResponsePieces(r: Response, body: string, s: string)
    requires r.status >= 0 && PrintResponse(r, body) <= s
    ensures var number, headers := Decimal(r.status), |PrintHeaders(r.headers)|;
      var status := |r.version| + 1;
      var reason := status + |number| + 1;
      var end := reason + |r.reason|;
      && |PrintResponse(r, body)| == end + 2 + headers + 2 + |body|
      && s[..|r.version|] == r.version && s[status - 1] == ' '
      && s[status..reason - 1] == number && s[reason - 1] == ' '
      && s[reason..end] == r.reason && s[end..end + 2] == "\r\n"
      && s[end + 2..end + 2 + headers] == PrintHeaders(r.headers)
      && s[end + 2 + headers..end + 2 + headers + 2] == "\r\n"
      && s[end + 2 + headers + 2..end + 2 + headers + 2 + |body|] == body
  {
    hide PrintHeaders, Decimal;
    var number, hs := Decimal(r.status), PrintHeaders(r.headers);
    var a := r.version + " ";
    var b := a + number;
    var c := b + " ";
    var d := c + r.reason;
    var e := d + "\r\n";
    var f := e + hs;
    var g := f + "\r\n";
    assert PrintResponse(r, body) == g + body;
    LastPiece(s, g, body);
    LastPiece(s, f, "\r\n");
    LastPiece(s, e, hs);
    LastPiece(s, d, "\r\n");
    LinePieces(r.version, number, r.reason, s);
  }

  lemma LinePieces(version: string, number: string, reason: string, s: string)
    requires version + " " + number + " " + reason <= s
    ensures var status := |version| + 1;
      var at := status + |number| + 1;
      && at + |reason| <= |s| && s[..|version|] == version && s[status - 1] == ' '
      && s[status..at - 1] == number && s[at - 1] == ' ' && s[at..at + |reason|] == reason
  {
    var a := version + " ";
    var b := a + number;
    var c := b + " ";
    LastPiece(s, c, reason);
    LastPiece(s, b, " ");
    LastPiece(s, a, number);
    LastPiece(s, version, " ");
    assert s[|version|] == s[|version|..|version| + 1][0] && s[|b|] == s[|b|..|b| + 1][0];
  }

  // sprintf of the start line, whose terminator the next copy overwrites, and
  // the three copies.
  method CopyPieces(buf: array<char>, start: string, headers: string, body: string)
    requires |start| + |headers| + 2 + |body| <= buf.Length
    modifies buf
    ensures buf[..|start| + |headers| + 2 + |body|] == start + headers + "\r\n" + body
  {
    CopyIn(buf, 0, start + [NUL]);
    assert buf[..|start|] == buf[..|start| + 1][..|start|] == start;
    CopyIn(buf, |start|, headers);
    CopyIn(buf, |start| + |headers|, "\r\n");
    CopyIn(buf, |start| + |headers| + 2, body);
  }

  // memcpy behind the at characters that are already there.
  method CopyIn(buf: array<char>, at: nat, s: string)
    requires at + |s| <= buf.Length
    modifies buf
    ensures buf[..at + |s|] == old(buf[..at]) + s
  {
    forall k | 0 <= k < |s| {
      buf[at + k] := s[k];
    }
  }

  // ----- parsing -----

  // The first token of strtok.
  function FirstLine(s: string): (r: Option<string>)
  {
    if s == "" then None
    else if IsEol(s[0]) then FirstLine(s[1..])
    else Some(s[..LineLength(s)])
  }

  // "%d": optional sign and digits after white space.
  function NextInt(s: string): Option<int> {
    var t := SkipSpace(s);
    var digits := if t != "" && (t[0] == '-' || t[0] == '+') then t[1..] else t;
    if digits == "" || !IsDigit(digits[0]) then None
    else Some(if t[0] == '-' then 0 - Digits(digits, 0) else Digits(digits, 0))
  }

  // Up to three words, as "%s %s %s" finds them.
  function Words(line: string): (r: seq<string>)
    ensures |r| <= 3
  {
    match NextWord(line)
    case None => []
    case Some((a, more)) =>
      match NextWord(more)
      case None => [a]
      case Some((b, last)) =>
        match NextWord(last)
        case None => [a, b]
        case Some((c, _)) => [a, b, c]
  }

  function ParseRequest(text: string): Option<Request> {
    match FirstLine(text)
    case None => None
    case Some(line) =>
      var words := Words(line);
      if |words| != 3 then None
      else
        match FindBlank(text)
        case None => None
        case Some(k) => Some(Request(words[0], words[1], words[2], ParseHeaders(text[..k + 4])))
  }

  // The words that sscanf stores fit its arrays.
  predicate RequestFits(text: string) {
    FirstLine(text).Some? ==>
      var words := Words(FirstLine(text).value);
      && (|words| > 0 ==> |words[0]| < METHOD_SIZE)
      && (|words| > 1 ==> |words[1]| < URI_SIZE)
      && (|words| > 2 ==> |words[2]| < VERSION_SIZE)
  }

  // What follows the second space.
  function AfterSecondSpace(line: string): Option<string> {
    var i := IndexOf(line, ' ');
    if i == |line| then None
    else
      var rest := line[i + 1..];
      var j := IndexOf(rest, ' ');
      if j == |rest| then None else Some(rest[j + 1..])
  }

  function ParseResponse(text: string): Option<Response> {
    match FirstLine(text)
    case None => None
    case Some(line) =>
      match NextWord(line)
      case None => None
      case Some((version, more)) =>
        match NextInt(more)
        case None => None
        case Some(status) =>
          match AfterSecondSpace(line)
          case None => None
          case Some(reason) =>
            match FindBlank(text)
            case None => None
            case Some(k) => Some(Response(version, status, reason, ParseHeaders(text[..k + 4])))
  }

  // What sscanf and strcpy store fits its place.
  predicate ResponseFits(text: string) {
    FirstLine(text).Some? ==>
      var line := FirstLine(text).value;
      && (NextWord(line).Some? ==>
            var (version, more) := NextWord(line).value;
            |version| < VERSION_SIZE && (NextInt(more).Some? ==> -0x8000_0000 <= NextInt(more).value < 0x8000_0000))
      && (AfterSecondSpace(line).Some? ==> |AfterSecondSpace(line).value| < REASON_PHRASE_SIZE)
  }

  lemma LastIsEol(s: string, b: nat)
    requires s != "" && IsEol(s[|s| - 1]) && b == if IsEol(s[0]) then 1 else LineLength(s)
    ensures b < |s| || (b == |s| == 1 && IsEol(s[0]))
    ensures b < |s| ==> s[b..][|s| - b - 1] == s[|s| - 1]
    ensures IsEol(s[0]) ==> (InBounds(s) <==> InBounds(s[1..]))
  {
  }

  // A section that ends with its blank line is safe to parse.
  lemma {:induction false} TerminatedInBounds(s: string)
    requires s != "" ==> IsEol(s[|s| - 1])
    ensures InBounds(s)
    decreases |s|
  {
    hide LineLength, IndexOf, IsEol, InBounds;
    if s == "" {
      NothingInBounds();
    } else {
      var b := if IsEol(s[0]) then 1 else LineLength(s);
      LastIsEol(s, b);
      if !IsEol(s[0]) {
        UnfoldLine(s);
      }
      TerminatedInBounds(s[b..]);
    }
  }

  lemma NothingInBounds()
    ensures InBounds("")
  {
  }

  // The header section of text, parsed.
  method ParseSectionOf(text: string, k: nat) returns (headers: Headers)
    requires IsText(text) && k + 4 <= |text| && text[k..k + 4] == BLANK
    ensures fresh(headers) && headers.Valid() && headers.View().list == ParseHeaders(text[..k + 4])
  {
    var part := text[..k + 4];
    assert part[k + 3] == text[k..k + 4][3];
    TerminatedInBounds(part);
    headers := DeserializeHeaders(part);
  }

  method DeserializeRequest(text: string) returns (r: Option<Request>)
    requires IsText(text) && RequestFits(text)
    ensures r == ParseRequest(text)
  {
    hide ParseHeaders;
    var line := FirstLine(text);
    if line.None? {
      return None;
    }
    var words := Words(line.value);
    if |words| != 3 {
      return None;
    }
    var k := FindBlank(text);
    if k.None? {
      return None;
    }
    var headers := ParseSectionOf(text, k.value);
    r := Some(Request(words[0], words[1], words[2], headers.slots[..headers.index]));
  }

  method DeserializeResponse(text: string) returns (r: Option<Response>)
    requires IsText(text) && ResponseFits(text)
    ensures r == ParseResponse(text)
  {
    hide ParseHeaders;
    var line := FirstLine(text);
    if line.None? {
      return None;
    }
    var word := NextWord(line.value);
    var status := if word.None? then None else NextInt(word.value.1);
    if status.None? {
      return None;
    }
    var reason := AfterSecondSpace(line.value);
    if reason.None? {
      return None;
    }
    var k := FindBlank(text);
    if k.None? {
      return None;
    }
    var headers := ParseSectionOf(text, k.value);
    r := Some(Response(word.value.0, status.value, reason.value, headers.slots[..headers.index]));
  }

  // ----- what is parsed, said of the text -----

  predicate AllEol(s: string) { forall k | 0 <= k < |s| :: IsEol(s[k]) }

  // The first line is what stands between line endings, or behind them at the
  // end; none is found only where there are but line endings.
  lemma {:induction false} FirstLineBetween(a: string, line: string, rest: string)
    requires AllEol(a) && line != "" && (forall k | 0 <= k < |line| :: !IsEol(line[k]))
    requires rest == "" || IsEol(rest[0])
    ensures FirstLine(a + line + rest) == Some(line)
    ensures FirstLine(a) == None
  {
    var s := a + line + rest;
    if a == "" {
      LineLengthIs(s, |line|);
      assert s[..|line|] == line && s[0] == line[0];
    } else {
      FirstLineBetween(a[1..], line, rest);
      assert s[1..] == a[1..] + line + rest;
    }
  }

  // "%d" reads white space, a sign and digits, of which there must be one.
  lemma NextIntSigned(a: string, sign: string, digits: string, rest: string)
    requires AllSpace(a) && AllDigits(digits) && (rest == "" || !IsDigit(rest[0]))
    requires sign == "" || sign == "+" || sign == "-"
    requires sign == "" && digits == "" ==> rest == "" || (!IsSpace(rest[0]) && rest[0] != '+' && rest[0] != '-')
    ensures NextInt(a + sign + digits + rest) ==
            if digits == "" then None
            else Some(if sign == "-" then 0 - Digits(digits, 0) else Digits(digits, 0))
  {
    var t := sign + (digits + rest);
    assert a + sign + digits + rest == a + t;
    SkipSpaceIs(a, t);
    DigitsStop(digits, rest);
    if sign != "" {
      assert t[1..] == digits + rest;
    } else {
      assert t == digits + rest;
    }
  }

  // The reason is what stands behind the second space, none without one.
  lemma ReasonIff(line: string, reason: string)
    ensures AfterSecondSpace(line) == Some(reason) <==> BehindTwoSpaces(line, reason)
  {
    if AfterSecondSpace(line) == Some(reason) {
      TakenApart(line, reason);
    }
    hide AfterSecondSpace, IndexOf;
    if a, b :| ' ' !in a && ' ' !in b && line == a + " " + b + " " + reason {
      SecondSpaceIs(a, b, reason);
    }
  }

  lemma TakenApart(line: string, reason: string)
    requires AfterSecondSpace(line) == Some(reason)
    ensures BehindTwoSpaces(line, reason)
  {
    var i := IndexOf(line, ' ');
    var rest := line[i + 1..];
    var j := IndexOf(rest, ' ');
    var a, b := line[..i], rest[..j];
    hide IndexOf, AfterSecondSpace;
    CutAt(line, i);
    CutAt(rest, j);
    Rejoin(a, b, reason);
  }

  lemma CutAt(line: string, i: nat)
    requires i < |line| && line[i] == ' '
    ensures line == line[..i] + " " + line[i + 1..]
  {
  }

  lemma Rejoin(a: string, b: string, c: string)
    ensures a + " " + (b + " " + c) == a + " " + b + " " + c
  {
  }

  ghost predicate BehindTwoSpaces(line: string, reason: string) {
    exists a, b :: ' ' !in a && ' ' !in b && line == a + " " + b + " " + reason
  }

  // The line starts with these words, with white space between and around.
  ghost predicate ThreeWords(line: string, a: string, b: string, c: string) {
    exists s, t, u :: WordBetween(line, a, s) && WordBetween(s, b, t) && WordBetween(t, c, u)
  }

  lemma WordsIff(line: string, a: string, b: string, c: string)
    ensures Words(line) == [a, b, c] <==> ThreeWords(line, a, b, c)
  {
    hide NextWord, WordBetween;
    if Words(line) == [a, b, c] {
      var s := NextWord(line).value.1;
      var t := NextWord(s).value.1;
      var u := NextWord(t).value.1;
      NextWordIff(line, a, s);
      NextWordIff(s, b, t);
      NextWordIff(t, c, u);
    }
    if s, t, u :| WordBetween(line, a, s) && WordBetween(s, b, t) && WordBetween(t, c, u) {
      NextWordIff(line, a, s);
      NextWordIff(s, b, t);
      NextWordIff(t, c, u);
    }
  }

  // A request is three words of the first line, in this order, and the headers
  // of the section up to the first blank line.
  lemma RequestParsedIff(text: string, r: Request)
    ensures ParseRequest(text) == Some(r) <==>
              && FirstLine(text).Some? && FindBlank(text).Some?
              && r.headers == ParseHeaders(text[..FindBlank(text).value + 4])
              && ThreeWords(FirstLine(text).value, r.verb, r.uri, r.version)
  {
    hide FirstLine, FindBlank, ParseHeaders, Words, ThreeWords;
    if FirstLine(text).Some? {
      WordsIff(FirstLine(text).value, r.verb, r.uri, r.version);
    }
  }

  // The words fit the arrays of 16, 256 and 16 places.
  lemma RequestFitsIff(text: string)
    ensures RequestFits(text) <==>
              (FirstLine(text).Some? ==>
                 forall k | 0 <= k < |Words(FirstLine(text).value)| ::
                   |Words(FirstLine(text).value)[k]| < if k == 1 then 256 else 16)
  {
    hide FirstLine, Words;
  }

  // The version fits its 16 places, the number is an int and the reason fits
  // its 256 places.
  lemma ResponseFitsIff(text: string, line: string, version: string, rest: string)
    requires FirstLine(text) == Some(line) && WordBetween(line, version, rest)
    ensures ResponseFits(text) <==>
              && |version| < 16
              && (NextInt(rest).Some? ==> -2147483648 <= NextInt(rest).value <= 2147483647)
              && forall reason | BehindTwoSpaces(line, reason) :: |reason| < 256
  {
    hide FirstLine, NextWord, NextInt, AfterSecondSpace, WordBetween, BehindTwoSpaces;
    NextWordIff(line, version, rest);
    forall reason
      ensures AfterSecondSpace(line) == Some(reason) <==> BehindTwoSpaces(line, reason)
    {
      ReasonIff(line, reason);
    }
    if AfterSecondSpace(line).Some? {
      assert BehindTwoSpaces(line, AfterSecondSpace(line).value);
    }
  }

  // A response is a word and a number of the first line, what is behind its
  // second space, and the headers of the section.
  lemma ResponseParsedIff(text: string, r: Response)
    ensures ParseResponse(text) == Some(r) <==>
              && FirstLine(text).Some? && FindBlank(text).Some?
              && r.headers == ParseHeaders(text[..FindBlank(text).value + 4])
              && BehindTwoSpaces(FirstLine(text).value, r.reason)
              && exists rest :: WordBetween(FirstLine(text).value, r.version, rest) && NextInt(rest) == Some(r.status)
  {
    hide FirstLine, NextWord, FindBlank, ParseHeaders, AfterSecondSpace, NextInt, WordBetween, BehindTwoSpaces;
    if FirstLine(text).Some? {
      var line := FirstLine(text).value;
      ReasonIff(line, r.reason);
      if NextWord(line).Some? {
        var rest := NextWord(line).value.1;
        NextWordIff(line, r.version, rest);
      }
      forall rest | WordBetween(line, r.version, rest)
        ensures NextWord(line) == Some((r.version, rest))
      {
        NextWordIff(line, r.version, rest);
      }
    }
  }

  // ----- round trips -----

  lemma FirstLineIs(line: string, rest: string)
    requires line != "" && forall k | 0 <= k < |line| :: !IsEol(line[k])
    ensures FirstLine(line + CRLF + rest) == Some(line)
  {
    var s := line + CRLF + rest;
    LineLengthIs(s, |line|);
    assert s[..|line|] == line && s[0] == line[0];
  }

  lemma Nest<T>(a: seq<T>, line: seq<T>, p: seq<T>, m: seq<T>)
    ensures a + (line + a + p) + a + m == a + (line + (a + p + a + m))
  {
  }

  lemma HeaderLine(h: Header)
    requires ValidKey(h.key) && ValidValue(h.value)
    ensures var line := h.key + ": " + h.value;
      line != "" && !IsEol(line[0]) && PrintHeader(h) == line + CRLF && forall k | 0 <= k < |line| :: !IsEol(line[k])
  {
  }

  // The blank line of a section is its end.
  lemma {:induction false} BlankOfHeaders(hs: seq<Header>, more: string)
    requires ValidHeaders(hs)
    ensures FindBlank(CRLF + PrintHeaders(hs) + CRLF + more) == Some(|PrintHeaders(hs)|)
  {
    if hs == [] {
      assert (CRLF + "" + CRLF + more)[..4] == BLANK;
    } else {
      HeaderLine(hs[0]);
      hide FindBlank, PrintHeader, IsEol;
      var line := hs[0].key + ": " + hs[0].value;
      var printed := PrintHeaders(hs[1..]);
      assert PrintHeaders(hs) == line + CRLF + printed;
      BlankOfHeaders(hs[1..], more);
      BlankBehindLine(line, printed, more);
    }
  }

  lemma BlankBehindLine(line: string, printed: string, more: string)
    requires line != "" && forall k | 0 <= k < |line| :: !IsEol(line[k])
    requires FindBlank(CRLF + printed + CRLF + more) == Some(|printed|)
    ensures FindBlank(CRLF + (line + CRLF + printed) + CRLF + more) == Some(|line + CRLF + printed|)
  {
    hide FindBlank;
    var rest := CRLF + printed + CRLF + more;
    Nest(CRLF, line, printed, more);
    FindBlankSkip(line, rest);
    assert line[0] != '\r';
    FindBlankEol(line + rest);
  }

  lemma BlankOfSection(start: string, hs: seq<Header>, more: string)
    requires ValidHeaders(hs) && ValidValue(start)
    ensures FindBlank(Section(start, hs) + more) == Some(|Section(start, hs)| - 4)
    ensures (Section(start, hs) + more)[..|Section(start, hs)|] == Section(start, hs)
  {
    hide FindBlank, PrintHeaders;
    var rest := CRLF + PrintHeaders(hs) + CRLF + more;
    assert Section(start, hs) + more == start + rest;
    BlankOfHeaders(hs, more);
    FindBlankSkip(start, rest);
  }

  predicate ValidRequest(r: Request) {
    && IsWord(r.verb) && IsText(r.verb) && |r.verb| < METHOD_SIZE
    && IsWord(r.uri) && IsText(r.uri) && |r.uri| < URI_SIZE
    && IsWord(r.version) && IsText(r.version) && |r.version| < VERSION_SIZE
    && ValidHeaders(r.headers)
  }

  lemma ValidJoin(a: string, b: string)
    requires ValidValue(a) && ValidValue(b)
    ensures ValidValue(a + b)
  {
  }

  lemma Spread<T>(a: seq<T>, b: seq<T>, c: seq<T>, d: seq<T>, e: seq<T>)
    ensures a + b + c + d + e == a + (b + c + d + e) && b + c + d + e == b + c + (d + e)
  {
  }

  // Three pieces with a space between.
  lemma ThreePieces(a: string, b: string, c: string)
    requires ValidValue(a) && ValidValue(b) && ValidValue(c)
    ensures var line := a + " " + b + " " + c; var tail := " " + c; var more := " " + b + tail;
      line == a + more && more == " " + b + " " + c && line != "" && ValidValue(line)
  {
    Spread(a, " ", b, " ", c);
    ValidJoin(a, " ");
    ValidJoin(a + " ", b);
    ValidJoin(a + " " + b, " ");
    ValidJoin(a + " " + b + " ", c);
  }

  lemma WordsOfLine(r: Request)
    requires ValidRequest(r)
    ensures Words(RequestLine(r)) == [r.verb, r.uri, r.version]
    ensures RequestLine(r) != "" && ValidValue(RequestLine(r))
  {
    var last := " " + r.version;
    var more := " " + r.uri + last;
    ThreePieces(r.verb, r.uri, r.version);
    assert last + "" == last;
    hide NextWord, ValidValue;
    NextWordIs(r.verb, more);
    NextWordIs(r.uri, last);
    NextWordIs(r.version, "");
  }

  // What a parser sees of a section and whatever follows it.
  lemma SectionSeen(start: string, hs: seq<Header>, more: string)
    requires ValidHeaders(hs) && ValidValue(start) && start != ""
    ensures var text := Section(start, hs) + more; var k := |Section(start, hs)| - 4;
      && FirstLine(text) == Some(start) && FindBlank(text) == Some(k) && k + 4 <= |text|
      && (ParseHeaders(text[..k + 4]) == hs <==> ':' !in start)
  {
    hide ParseHeaders, FindBlank, FirstLine, PrintHeaders;
    var rest := PrintHeaders(hs) + CRLF + more;
    assert Section(start, hs) + more == start + CRLF + rest;
    FirstLineIs(start, rest);
    BlankOfSection(start, hs, more);
    SectionParses(start, hs);
  }

  // A valid request comes back from its printed form, with anything behind
  // it, exactly if its request line has no colon.
  lemma RequestRoundTripIff(r: Request, more: string)
    requires ValidRequest(r)
    ensures RequestFits(PrintRequest(r) + more)
    ensures ParseRequest(PrintRequest(r) + more) == Some(r) <==> ':' !in RequestLine(r)
  {
    WordsOfLine(r);
    hide ParseHeaders, FindBlank, FirstLine, Words, RequestLine, Section;
    SectionSeen(RequestLine(r), r.headers, more);
  }

  predicate ValidResponse(r: Response) {
    && IsWord(r.version) && IsText(r.version) && |r.version| < VERSION_SIZE
    && 0 <= r.status < 0x8000_0000
    && ValidValue(r.reason) && |r.reason| < REASON_PHRASE_SIZE
    && ValidHeaders(r.headers)
  }

  lemma PartsOfStatusLine(r: Response)
    requires ValidResponse(r)
    ensures var line := StatusLine(r);
      && NextWord(line) == Some((r.version, " " + Decimal(r.status) + " " + r.reason))
      && NextInt(" " + Decimal(r.status) + " " + r.reason) == Some(r.status)
      && AfterSecondSpace(line) == Some(r.reason)
      && line != "" && ValidValue(line)
  {
    var number, tail := Decimal(r.status), " " + r.reason;
    ThreePieces(r.version, number, r.reason);
    hide NextWord, NextInt, Decimal, AfterSecondSpace, ValidValue;
    NextWordIs(r.version, " " + number + tail);
    IntIs(r.status, tail);
    SecondSpaceIs(r.version, number, r.reason);
  }

  lemma SecondSpaceIs(a: string, b: string, c: string)
    requires ' ' !in a && ' ' !in b
    ensures AfterSecondSpace(a + " " + b + " " + c) == Some(c)
  {
    var line := a + " " + b + " " + c;
    var rest := b + " " + c;
    assert line[|a| + 1..] == rest && rest[|b| + 1..] == c;
    assert line[|a|] == ' ' && rest[|b|] == ' ';
    IndexOfIs(line, ' ', |a|);
    IndexOfIs(rest, ' ', |b|);
  }

  lemma IntIs(n: nat, tail: string)
    requires tail == "" || !IsDigit(tail[0])
    ensures NextInt(" " + Decimal(n) + tail) == Some(n)
  {
    var t := Decimal(n) + tail;
    assert (" " + Decimal(n) + tail)[1..] == t;
    assert SkipSpace(" " + Decimal(n) + tail) == t;
    DecimalDigits(n, tail);
  }

  lemma ResponseFrom(text: string, line: string, version: string, rest: string, status: int, reason: string, k: nat)
    requires FirstLine(text) == Some(line) && NextWord(line) == Some((version, rest))
    requires NextInt(rest) == Some(status) && AfterSecondSpace(line) == Some(reason)
    requires FindBlank(text) == Some(k) && k + 4 <= |text|
    ensures ParseResponse(text) == Some(Response(version, status, reason, ParseHeaders(text[..k + 4])))
    ensures |version| < VERSION_SIZE && 0 <= status < 0x8000_0000 && |reason| < REASON_PHRASE_SIZE ==>
              ResponseFits(text)
  {
    hide ParseHeaders, FindBlank, FirstLine, NextWord, NextInt, AfterSecondSpace;
  }

  // What a parser makes of a section behind a status line with these parts.
  lemma ResponseOfSection(line: string, r: Response, rest: string, more: string)
    requires line != "" && ValidValue(line) && ValidHeaders(r.headers)
    requires NextWord(line) == Some((r.version, rest)) && NextInt(rest) == Some(r.status)
    requires AfterSecondSpace(line) == Some(r.reason)
    requires |r.version| < VERSION_SIZE && 0 <= r.status < 0x8000_0000 && |r.reason| < REASON_PHRASE_SIZE
    ensures ResponseFits(Section(line, r.headers) + more)
    ensures ParseResponse(Section(line, r.headers) + more) == Some(r) <==> ':' !in line
  {
    hide *;
    var text := Section(line, r.headers) + more;
    SectionSeen(line, r.headers, more);
    ResponseFrom(text, line, r.version, rest, r.status, r.reason, |Section(line, r.headers)| - 4);
  }

  // The same for a response, whatever the number of digits of its status.
  lemma ResponseRoundTripIff(r: Response, more: string)
    requires ValidResponse(r)
    ensures ResponseFits(Section(StatusLine(r), r.headers) + more)
    ensures ParseResponse(Section(StatusLine(r), r.headers) + more) == Some(r) <==> ':' !in StatusLine(r)
  {
    PartsOfStatusLine(r);
    hide ParseResponse, ResponseFits, Section, StatusLine, NextWord, NextInt, AfterSecondSpace, ValidValue;
    ResponseOfSection(StatusLine(r), r, " " + Decimal(r.status) + " " + r.reason, more);
  }
}
