// serialize_headers and deserialize_headers.

module HeaderCodec {
  import opened Options
  import opened CText
  import opened HeaderTable

  // ----- printing -----

  function PrintHeader(h: Header): string {
    h.key + ": " + h.value + CRLF
  }

  function PrintHeaders(hs: seq<Header>): string {
    if hs == [] then "" else PrintHeader(hs[0]) + PrintHeaders(hs[1..])
  }

  lemma {:induction false} PrintHeadersAppend(hs: seq<Header>, h: Header)
    ensures PrintHeaders(hs + [h]) == PrintHeaders(hs) + PrintHeader(h)
  {
    if hs == [] {
      assert [h][1..] == [];
    } else {
      assert (hs + [h])[1..] == hs[1..] + [h];
      PrintHeadersAppend(hs[1..], h);
    }
  }

  // Every header stands in a line of its own, its key and value with a colon
  // and a space between, behind those before it.
  lemma {:induction false} PrintedLine(hs: seq<Header>, i: nat)
    requires i < |hs|
    ensures PrintHeaders(hs) ==
            PrintHeaders(hs[..i]) + hs[i].key + ": " + hs[i].value + "\r\n" + PrintHeaders(hs[i + 1..])
    ensures PrintHeaders([]) == ""
  {
    hide PrintHeader;
    PrintedFront(hs, i);
    PrintedHeader(hs[i]);
  }

  lemma PrintedHeader(h: Header)
    ensures PrintHeader(h) == h.key + ": " + h.value + "\r\n"
  {
  }

  lemma {:induction false} PrintedFront(hs: seq<Header>, i: nat)
    requires i < |hs|
    ensures PrintHeaders(hs) == PrintHeaders(hs[..i]) + PrintHeader(hs[i]) + PrintHeaders(hs[i + 1..])
  {
    hide PrintHeader;
    if i > 0 {
      PrintedFront(hs[1..], i - 1);
      assert hs[..i][0] == hs[0] && hs[..i][1..] == hs[1..][..i - 1] && hs[1..][i..] == hs[i + 1..];
    }
  }

  // A buffer that holds text as a C string.
  ghost predicate Holds(buf: array<char>, text: string)
    reads buf
  {
    |text| < buf.Length && buf[..|text|] == text && buf[|text|] == NUL
  }

  // strcat onto the at characters that buf holds.
  method StrCat(buf: array<char>, at: nat, s: string)
    requires at + |s| < buf.Length && Holds(buf, buf[..at])
    modifies buf
    ensures Holds(buf, old(buf[..at]) + s)
  {
    forall k | 0 <= k < |s| {
      buf[at + k] := s[k];
    }
    buf[at + |s|] := NUL;
  }

  // One pass for the size, one to fill the buffer; the size leaves room for
  // the terminator only. The size is an int, which is fits.
  method SerializeHeaders(headers: seq<Header>) returns (fits: bool, buf: array<char>, size: nat)
    ensures fits <==> |PrintHeaders(headers)| <= INT_MAX
    ensures fresh(buf)
    ensures fits ==>
              size == |PrintHeaders(headers)| && buf.Length == size + 1 && Holds(buf, PrintHeaders(headers))
  {
    size := 0;
    assert headers[..|headers|] == headers;
    for i := 0 to |headers|
      invariant size == |PrintHeaders(headers[..i])|
    {
      assert headers[..i + 1] == headers[..i] + [headers[i]];
      PrintHeadersAppend(headers[..i], headers[i]);
      size := size + |headers[i].key| + |headers[i].value| + |": "| + |"\r\n"|;
    }
    fits := size <= INT_MAX;
    if !fits {
      buf := new char[0];
      return;
    }
    buf := new char[size + 1](_ => NUL);
    var at: nat := 0;
    for i := 0 to |headers|
      invariant fresh(buf) && buf.Length == size + 1
      invariant at == |PrintHeaders(headers[..i])|
      invariant Holds(buf, PrintHeaders(headers[..i]))
    {
      assert headers[..i + 1] == headers[..i] + [headers[i]];
      PrintHeadersAppend(headers[..i], headers[i]);
      PrintedPrefix(headers, i + 1);
      at := CatHeader(buf, at, headers[i]);
    }
    assert headers[..|headers|] == headers;
  }

  // The four strcat calls of one header.
  method CatHeader(buf: array<char>, at: nat, h: Header) returns (end: nat)
    requires at + |PrintHeader(h)| < buf.Length && Holds(buf, buf[..at])
    modifies buf
    ensures end == at + |PrintHeader(h)| && Holds(buf, old(buf[..at]) + PrintHeader(h))
  {
    ghost var done := buf[..at];
    assert |PrintHeader(h)| == |h.key| + |h.value| + 4;
    hide PrintHeader;
    StrCat(buf, at, h.key);
    StrCat(buf, at + |h.key|, ": ");
    StrCat(buf, at + |h.key| + 2, h.value);
    StrCat(buf, at + |h.key| + 2 + |h.value|, "\r\n");
    end := at + |h.key| + 2 + |h.value| + 2;
    Printed(done, h);
  }

  lemma Printed(done: string, h: Header)
    ensures done + h.key + ": " + h.value + "\r\n" == done + PrintHeader(h)
  {
  }

  lemma {:induction false} PrintedPrefix(hs: seq<Header>, i: nat)
    requires i <= |hs|
    ensures |PrintHeaders(hs[..i])| <= |PrintHeaders(hs)|
  {
    if i > 0 {
      assert hs[..i][1..] == hs[1..][..i - 1];
      PrintedPrefix(hs[1..], i - 1);
    }
  }

  // ----- parsing -----

  // The header that a line of b characters at the front of s gives, with its
  // colon at c. The value starts two characters after the colon; if the line
  // ends right after it, that is already the text of the following lines.
  function HeaderAt(s: string, b: nat, c: nat): Header
    requires c < b <= |s|
  {
    Header(s[..c], if c + 2 <= b then s[c + 2..b] else if b < |s| then s[b + 1..] else "")
  }

  function ParseHeaders(s: string): seq<Header>
    decreases |s|
  {
    if s == "" then []
    else if IsEol(s[0]) then ParseHeaders(s[1..])
    else
      var b := LineLength(s);
      var c := IndexOf(s[..b], ':');
      (if c < b then [HeaderAt(s, b, c)] else []) + ParseHeaders(s[b..])
  }

  // The text does not end right after the only colon of its last line: there
  // the parser would read past the end of its copy.
  predicate InBounds(s: string)
    decreases |s|
  {
    if s == "" then true
    else if IsEol(s[0]) then InBounds(s[1..])
    else
      var b := LineLength(s);
      !(b == |s| && IndexOf(s[..b], ':') == b - 1) && InBounds(s[b..])
  }

  // Runs of line endings: the parser's first estimate of the header count.
  function EolRuns(s: string): nat
    decreases |s|
  {
    if s == "" then 0
    else if IsEol(s[0]) then 1 + EolRuns(s[EolLength(s)..])
    else EolRuns(s[1..])
  }

  function EolLength(s: string): (n: nat)
    ensures n <= |s| && (s != "" && IsEol(s[0]) ==> n > 0)
    ensures forall k | 0 <= k < n :: IsEol(s[k])
    ensures n < |s| ==> !IsEol(s[n])
  {
    if s == "" || !IsEol(s[0]) then 0 else 1 + EolLength(s[1..])
  }

  lemma {:induction false} EolLengthIs(s: string, n: nat)
    requires n <= |s| && (forall k | 0 <= k < n :: IsEol(s[k])) && (n < |s| ==> !IsEol(s[n]))
    ensures EolLength(s) == n
  {
  }

  // A run begins at a line ending that is the first character or stands behind
  // another one.
  predicate RunBegins(s: string, k: nat) {
    k < |s| && IsEol(s[k]) && (k == 0 || !IsEol(s[k - 1]))
  }

  function RunStarts(s: string): set<nat> {
    set k: nat | k < |s| && RunBegins(s, k)
  }

  function Shifted(a: set<nat>, n: nat): (r: set<nat>)
    ensures forall x: nat :: x in r <==> x >= n && x - n in a
  {
    set k | k in a :: k + n
  }

  lemma {:induction false} ShiftedSize(a: set<nat>, n: nat)
    ensures |Shifted(a, n)| == |a|
    decreases |a|
  {
    if a == {} {
      assert Shifted(a, n) == {};
    } else {
      var x :| x in a;
      ShiftedSize(a - {x}, n);
      assert Shifted(a, n) == Shifted(a - {x}, n) + {x + n};
    }
  }

  lemma StartsBehind(s: string, n: nat)
    requires n <= |s| && (n < |s| && n > 0 && IsEol(s[n - 1]) ==> !IsEol(s[n]))
    requires n > 0
    ensures forall k: nat | k >= n :: k in RunStarts(s) <==> k - n in RunStarts(s[n..])
  {
    forall k: nat | k >= n
      ensures RunBegins(s, k) <==> RunBegins(s[n..], k - n)
    {
      if n < k < |s| {
        assert s[n..][k - n - 1] == s[k - 1];
      }
    }
  }

  lemma {:induction false} RunsAreStarts(s: string)
    ensures EolRuns(s) == |RunStarts(s)|
    decreases |s|
  {
    if s == "" {
      assert RunStarts(s) == {};
    } else {
      var n := if IsEol(s[0]) then EolLength(s) else 1;
      hide EolRuns, EolLength, RunStarts;
      RunsAreStarts(s[n..]);
      FirstRun(s, n);
      StartsSize(s, n);
    }
  }

  lemma StartsSize(s: string, n: nat)
    requires s != "" && n == if IsEol(s[0]) then EolLength(s) else 1
    ensures |RunStarts(s)| == |RunStarts(s[n..])| + if IsEol(s[0]) then 1 else 0
  {
    hide EolRuns, Shifted, RunStarts;
    StartsBehind(s, n);
    StartsAre(s, n);
    ShiftedSize(RunStarts(s[n..]), n);
    assert 0 !in Shifted(RunStarts(s[n..]), n);
  }

  lemma FirstRun(s: string, n: nat)
    requires s != "" && n == if IsEol(s[0]) then EolLength(s) else 1
    ensures EolRuns(s) == EolRuns(s[n..]) + if IsEol(s[0]) then 1 else 0
  {
  }

  lemma StartsAre(s: string, n: nat)
    requires s != "" && n == if IsEol(s[0]) then EolLength(s) else 1
    requires forall k: nat | k >= n :: k in RunStarts(s) <==> k - n in RunStarts(s[n..])
    ensures RunStarts(s) == (if IsEol(s[0]) then {0} else {}) + Shifted(RunStarts(s[n..]), n)
  {
    hide Shifted;
    forall k: nat | k < n
      ensures k in RunStarts(s) <==> k == 0 && IsEol(s[0])
    {
    }
  }

  method CountRuns(text: string) returns (count: nat)
    ensures count == EolRuns(text)
  {
    count := 0;
    var i := 0;
    assert text[0..] == text;
    while i < |text|
      invariant 0 <= i <= |text|
      invariant EolRuns(text) == count + EolRuns(text[i..])
    {
      if IsEol(text[i]) {
        count := count + 1;
        ghost var start := i;
        while i < |text| && IsEol(text[i])
          invariant start <= i <= |text| && (i == start ==> i < |text| && IsEol(text[i]))
          invariant forall k | start <= k < i :: IsEol(text[k])
        {
          i := i + 1;
        }
        EolLengthIs(text[start..], i - start);
        assert text[start..][i - start..] == text[i..];
      } else {
        assert text[i..][1..] == text[i + 1..];
        i := i + 1;
      }
    }
  }

  // strtok over a copy: what it has not reached is still the original text.
  ghost predicate Untouched(copy: array<char>, s: string, from: nat)
    reads copy
  {
    copy.Length == |s| + 1 && from <= |s| && copy[|s|] == NUL && forall k | from <= k < |s| :: copy[k] == s[k]
  }

  // A token of s that has been zero-terminated in the copy, or none left.
  ghost predicate Token(copy: array<char>, s: string, found: bool, start: nat, next: nat)
    reads copy
  {
    && start <= next <= |s| && Untouched(copy, s, next)
    && (!found ==> start == |s|)
    && (found ==>
          && start < |s| && !IsEol(s[start])
          && var b := start + LineLength(s[start..]);
             && b <= next && (b < |s| ==> next == b + 1)
             && Kept(copy, s, start, b) && copy[b] == NUL)
  }

  ghost predicate Kept(copy: array<char>, s: string, from: nat, to: nat)
    reads copy
  {
    to <= |s| < copy.Length && forall k | from <= k < to :: copy[k] == s[k]
  }

  // The next token, zero-terminated in place, and where to go on.
  method StrTok(copy: array<char>, ghost s: string, from: nat) returns (found: bool, start: nat, next: nat)
    requires IsText(s) && Untouched(copy, s, from)
    modifies copy
    ensures from <= start <= |s| && forall k | from <= k < start :: IsEol(s[k])
    ensures Token(copy, s, found, start, next)
  {
    start := from;
    while IsEol(copy[start])
      invariant from <= start <= |s|
      invariant forall k | from <= k < start :: IsEol(s[k])
      decreases |s| - start
    {
      start := start + 1;
    }
    if copy[start] == NUL {
      return false, start, start;
    }
    found := true;
    next := start;
    while copy[next] != NUL && !IsEol(copy[next])
      invariant start <= next <= |s|
      invariant forall k | start <= k < next :: !IsEol(s[k])
      decreases |s| - next
    {
      next := next + 1;
    }
    LineLengthIs(s[start..], next - start);
    if copy[next] != NUL {
      copy[next] := NUL;
      next := next + 1;
    }
  }

  // strchr on the C string that ends at b; b if there is none.
  method StrChr(copy: array<char>, ghost s: string, start: nat, ghost b: nat, c: char) returns (i: nat)
    requires c != NUL && IsText(s) && start <= b && Kept(copy, s, start, b) && copy[b] == NUL
    ensures start <= i <= b && i - start == IndexOf(s[start..b], c)
    ensures i < b ==> copy[i] == c
  {
    i := start;
    while copy[i] != NUL && copy[i] != c
      invariant start <= i <= b
      invariant forall k | start <= k < i :: s[k] != c
      decreases b - i
    {
      i := i + 1;
    }
    IndexOfIs(s[start..b], c, i - start);
  }

  // The C string that ends at b.
  method StrCopy(copy: array<char>, ghost s: string, start: nat, ghost b: nat) returns (text: string)
    requires IsText(s) && start <= b && Kept(copy, s, start, b) && copy[b] == NUL
    ensures text == s[start..b]
  {
    var i := start;
    while copy[i] != NUL
      invariant start <= i <= b
      decreases b - i
    {
      i := i + 1;
    }
    text := copy[start..i];
  }

  lemma {:induction false} SkipEols(s: string, from: nat, start: nat)
    requires from <= start <= |s| && forall k | from <= k < start :: IsEol(s[k])
    ensures ParseHeaders(s[from..]) == ParseHeaders(s[start..])
    ensures InBounds(s[from..]) <==> InBounds(s[start..])
    decreases start - from
  {
    if from < start {
      assert s[from..][1..] == s[from + 1..];
      SkipEols(s, from + 1, start);
    }
  }

  lemma TakeLine(s: string, start: nat)
    requires start < |s| && !IsEol(s[start])
    ensures var b := start + LineLength(s[start..]); var c := IndexOf(s[start..b], ':');
      && start < b
      && ParseHeaders(s[start..])
           == (if start + c < b then [HeaderAt(s[start..], b - start, c)] else []) + ParseHeaders(s[b..])
      && (InBounds(s[start..]) ==> InBounds(s[b..]) && (start + c + 1 == b ==> b < |s|))
  {
    hide HeaderAt, IndexOf, ParseHeaders, InBounds;
    var line := s[start..];
    var b := LineLength(line);
    UnfoldLine(line);
    assert line[b..] == s[start + b..];
    assert line[..b] == s[start..start + b];
  }

  lemma UnfoldLine(s: string)
    requires s != "" && !IsEol(s[0])
    ensures var b := LineLength(s); var c := IndexOf(s[..b], ':');
      && 0 < b
      && ParseHeaders(s) == (if c < b then [HeaderAt(s, b, c)] else []) + ParseHeaders(s[b..])
      && (InBounds(s) <==> !(b == |s| && c == b - 1) && InBounds(s[b..]))
  {
    hide HeaderAt, IndexOf;
  }

  // One header of the token at start, whose colon is at c.
  method AddLine(headers: Headers, copy: array<char>, ghost s: string, start: nat, ghost b: nat, c: nat,
                 ghost next: nat)
    requires headers.Valid() && IsText(s) && Untouched(copy, s, next)
    requires start <= c < b <= |s| && b <= next && (b < |s| ==> next == b + 1) && (c + 1 == b ==> b < |s|)
    requires Kept(copy, s, start, b) && copy[b] == NUL
    modifies headers, headers.slots, copy
    ensures headers.Valid() && (headers.slots == old(headers.slots) || fresh(headers.slots))
    ensures Untouched(copy, s, next)
    ensures headers.View() == Added(old(headers.View()), HeaderAt(s[start..], b - start, c - start))
  {
    HeaderSlices(s, start, b, c);
    hide HeaderAt;
    copy[c] := NUL;
    var key := StrCopy(copy, s, start, c);
    var value := StrCopy(copy, s, c + 2, if c + 2 <= b then b else |s|);
    headers.Add(key, value);
  }

  lemma HeaderSlices(s: string, start: nat, b: nat, c: nat)
    requires start <= c < b <= |s| && (c + 1 == b ==> b < |s|)
    ensures HeaderAt(s[start..], b - start, c - start)
         == Header(s[start..c], if c + 2 <= b then s[c + 2..b] else s[c + 2..|s|])
  {
    SliceOfTail(s, start, 0, c - start);
    if c + 2 <= b {
      SliceOfTail(s, start, c - start + 2, b - start);
    } else {
      SliceOfTail(s, start, b - start + 1, |s| - start);
    }
  }

  lemma SliceOfTail<T>(s: seq<T>, start: nat, from: nat, to: nat)
    requires from <= to && start + to <= |s|
    ensures s[start..][from..to] == s[start + from..start + to]
  {
  }

  method DeserializeHeaders(s: string) returns (headers: Headers)
    requires IsText(s) && InBounds(s)
    ensures fresh(headers) && headers.Valid() && fresh(headers.slots)
    ensures headers.View().list == ParseHeaders(s)
    ensures var initial := if EolRuns(s) > 0 then EolRuns(s) else 1;
      headers.count == if |ParseHeaders(s)| <= initial then initial else |ParseHeaders(s)|
  {
    hide ParseHeaders, InBounds, EolRuns, Added, LineLength, Untouched;
    var count := CountRuns(s);
    var initial := if count > 0 then count else 1;
    headers := new Headers(initial);
    var copy := CopyText(s);
    var found, start, next := StrTok(copy, s, 0);
    SkipEols(s, 0, start);
    assert s[0..] == s;
    ghost var all := ParseHeaders(s);
    assert all == [] + ParseHeaders(s[start..]);
    while found
      invariant fresh(headers) && headers.Valid() && fresh(headers.slots) && fresh(copy)
      invariant Token(copy, s, found, start, next) && InBounds(s[start..])
      invariant all == headers.View().list + ParseHeaders(s[start..])
      invariant headers.count == if headers.index <= initial then initial else headers.index
      decreases |s| - start
    {
      found, start, next := ParseToken(headers, copy, s, start, next);
    }
    assert s[start..] == "";
    ParseNothing();
    assert all == headers.View().list + [];
  }

  // malloc and strcpy
  method CopyText(s: string) returns (copy: array<char>)
    ensures fresh(copy) && Untouched(copy, s, 0)
  {
    copy := new char[|s| + 1](k => if 0 <= k < |s| then s[k] else NUL);
  }

  lemma ParseNothing()
    ensures ParseHeaders("") == []
  {
  }

  lemma Shift<T>(a: seq<T>, b: seq<T>, c: seq<T>)
    ensures (a + b) + c == a + (b + c)
  {
  }

  // The part of one round of the parser's loop that takes the token up to b.
  method TakeToken(headers: Headers, copy: array<char>, ghost s: string, start: nat, ghost b: nat, ghost next: nat)
    requires headers.Valid() && IsText(s) && Untouched(copy, s, next)
    requires start < b <= |s| && b <= next && (b < |s| ==> next == b + 1)
    requires Kept(copy, s, start, b) && copy[b] == NUL
    requires start + IndexOf(s[start..b], ':') + 1 == b ==> b < |s|
    modifies headers, headers.slots, copy
    ensures headers.Valid() && (headers.slots == old(headers.slots) || fresh(headers.slots))
    ensures Untouched(copy, s, next)
    ensures var c := IndexOf(s[start..b], ':');
      headers.View() == if start + c < b then Added(old(headers.View()), HeaderAt(s[start..], b - start, c))
                        else old(headers.View())
  {
    hide HeaderAt, IndexOf;
    var colon := StrChr(copy, s, start, b, ':');
    if copy[colon] != NUL {
      AddLine(headers, copy, s, start, b, colon, next);
    }
  }

  // One round of the parser's loop.
  method ParseToken(headers: Headers, copy: array<char>, ghost s: string, start: nat, next: nat)
    returns (found: bool, start': nat, next': nat)
    requires headers.Valid() && IsText(s) && Token(copy, s, true, start, next) && InBounds(s[start..])
    modifies headers, headers.slots, copy
    ensures headers.Valid() && (headers.slots == old(headers.slots) || fresh(headers.slots))
    ensures Token(copy, s, found, start', next') && start < start' && InBounds(s[start'..])
    ensures old(headers.View()).list + ParseHeaders(s[start..]) == headers.View().list + ParseHeaders(s[start'..])
    ensures old(headers.index) <= headers.index
    ensures headers.count == if old(headers.count) < headers.index then headers.index else old(headers.count)
  {
    hide ParseHeaders, InBounds, HeaderAt, LineLength, IndexOf, EolRuns;
    ghost var before := headers.View();
    ghost var b := start + LineLength(s[start..]);
    TakeLine(s, start);
    TakeToken(headers, copy, s, start, b, next);
    ghost var h := headers.View().list[|before.list|..];
    Shift(before.list, h, ParseHeaders(s[b..]));
    hide Added;
    found, start', next' := StrTok(copy, s, next);
    SkipEols(s, b, start');
  }

  // ----- the round trip -----

  predicate ValidKey(key: string) {
    IsText(key) && forall k | 0 <= k < |key| :: key[k] != ':' && !IsEol(key[k])
  }

  predicate ValidValue(value: string) {
    IsText(value) && forall k | 0 <= k < |value| :: !IsEol(value[k])
  }

  predicate ValidHeaders(hs: seq<Header>) {
    forall i | 0 <= i < |hs| :: ValidKey(hs[i].key) && ValidValue(hs[i].value)
  }

  // A line, its ending and what follows.
  lemma ParseOneLine(line: string, rest: string)
    requires line != "" && forall k | 0 <= k < |line| :: !IsEol(line[k])
    ensures var s := line + CRLF + rest; var c := IndexOf(line, ':');
      && ParseHeaders(s)
           == (if c < |line| then [HeaderAt(s, |line|, c)] else []) + ParseHeaders(rest)
      && (InBounds(s) <==> InBounds(rest)) && s[..|line|] == line
  {
    var s := line + CRLF + rest;
    LineLengthIs(s, |line|);
    UnfoldLine(s);
    assert s[..|line|] == line && s[0] == line[0];
    assert s[|line|..] == CRLF + rest;
    hide ParseHeaders, InBounds;
    SkipEols(CRLF + rest, 0, 2);
    assert (CRLF + rest)[0..] == CRLF + rest && (CRLF + rest)[2..] == rest;
  }

  lemma ParseOneHeader(h: Header, rest: string)
    requires ValidKey(h.key) && ValidValue(h.value)
    ensures ParseHeaders(PrintHeader(h) + rest) == [h] + ParseHeaders(rest)
    ensures InBounds(PrintHeader(h) + rest) <==> InBounds(rest)
  {
    hide ParseHeaders, InBounds, HeaderAt, IndexOf;
    var line := h.key + ": " + h.value;
    assert line != "" && forall k | 0 <= k < |line| :: !IsEol(line[k]);
    ParseOneLine(line, rest);
    LinePieces(h.key, h.value, line + CRLF + rest);
  }

  lemma LinePieces(key: string, value: string, s: string)
    requires ValidKey(key)
    requires var line := key + ": " + value; |line| <= |s| && s[..|line|] == line
    ensures var line := key + ": " + value;
      IndexOf(line, ':') == |key| < |line| && HeaderAt(s, |line|, |key|) == Header(key, value)
  {
    var line := key + ": " + value;
    assert line[|key|] == ':';
    IndexOfIs(line, ':', |key|);
    assert s[..|key|] == line[..|key|] == key;
    assert s[|key| + 2..|line|] == line[|key| + 2..] == value;
  }

  // Printed headers parse back, in front of anything.
  lemma {:induction false} ParsePrinted(hs: seq<Header>, rest: string)
    requires ValidHeaders(hs)
    ensures ParseHeaders(PrintHeaders(hs) + rest) == hs + ParseHeaders(rest)
    ensures InBounds(PrintHeaders(hs) + rest) <==> InBounds(rest)
  {
    hide ParseHeaders, InBounds, PrintHeader;
    if hs == [] {
      assert PrintHeaders(hs) + rest == rest;
    } else {
      ParsePrinted(hs[1..], rest);
      ParseOneHeader(hs[0], PrintHeaders(hs[1..]) + rest);
      assert PrintHeaders(hs) + rest == PrintHeader(hs[0]) + (PrintHeaders(hs[1..]) + rest);
    }
  }

  lemma HeadersRoundTrip(hs: seq<Header>)
    requires ValidHeaders(hs)
    ensures InBounds(PrintHeaders(hs)) && ParseHeaders(PrintHeaders(hs)) == hs
  {
    ParsePrinted(hs, "");
    assert PrintHeaders(hs) + "" == PrintHeaders(hs);
  }

  predicate IsLine(line: string, rest: string) {
    line != "" && (forall k | 0 <= k < |line| :: !IsEol(line[k])) && (rest == "" || IsEol(rest[0]))
  }

  lemma FirstOf(line: string, rest: string)
    requires IsLine(line, rest)
    ensures var b, c := |line|, IndexOf(line, ':');
      ParseHeaders(line + rest) == (if c < b then [HeaderAt(line + rest, b, c)] else []) + ParseHeaders(rest)
  {
    var s, b := line + rest, |line|;
    LineLengthIs(s, b);
    UnfoldLine(s);
    assert s[..b] == line && s[b..] == rest;
  }

  // What a line of any text gives: nothing without a colon,
  lemma LineWithoutColon(line: string, rest: string)
    requires IsLine(line, rest) && ':' !in line
    ensures ParseHeaders(line + rest) == ParseHeaders(rest)
  {
    hide ParseHeaders;
    FirstOf(line, rest);
    assert [] + ParseHeaders(rest) == ParseHeaders(rest);
  }

  // and else a header whose key is what is before the first one and whose
  // value starts two characters behind it.
  lemma LineWithColon(key: string, value: string, rest: string)
    requires IsLine(key + ":" + value, rest) && ':' !in key && value != ""
    ensures ParseHeaders(key + ":" + value + rest) == [Header(key, value[1..])] + ParseHeaders(rest)
  {
    hide ParseHeaders;
    var line := key + ":" + value;
    var s, b := line + rest, |line|;
    FirstOf(line, rest);
    IndexOfIs(line, ':', |key|);
    assert s[..|key|] == key && s[|key| + 2..b] == value[1..];
  }

  // If the line ends with the colon, the value is the text of the next lines.
  lemma LineEndsWithColon(key: string, rest: string)
    requires IsLine(key + ":", rest) && ':' !in key && rest != ""
    ensures ParseHeaders(key + ":" + rest) == [Header(key, rest[1..])] + ParseHeaders(rest)
  {
    hide ParseHeaders;
    var line := key + ":";
    var s, b := line + rest, |line|;
    FirstOf(line, rest);
    IndexOfIs(line, ':', |key|);
    assert s[..|key|] == key && s[b + 1..] == rest[1..];
  }

  // Line endings are skipped.
  lemma NoLine(s: string)
    ensures s == "" ==> ParseHeaders(s) == []
    ensures s != "" && IsEol(s[0]) ==> ParseHeaders(s) == ParseHeaders(s[1..])
  {
  }

  // A whole header section: a start line, headers, a blank line.
  function Section(start: string, hs: seq<Header>): string {
    start + CRLF + PrintHeaders(hs) + CRLF
  }

  // The header that a start line with a colon is taken for.
  function Spurious(start: string, hs: seq<Header>): seq<Header> {
    var c := IndexOf(start, ':');
    if c < |start| then [HeaderAt(Section(start, hs), |start|, c)] else []
  }

  lemma ParseSection(start: string, hs: seq<Header>)
    requires ValidHeaders(hs) && start != "" && ValidValue(start)
    ensures InBounds(Section(start, hs))
    ensures ParseHeaders(Section(start, hs)) == Spurious(start, hs) + hs
  {
    var rest := PrintHeaders(hs) + CRLF;
    assert Section(start, hs) == start + CRLF + rest;
    ParseEnd();
    hide ParseHeaders, InBounds, HeaderAt;
    ParseOneLine(start, rest);
    ParsePrinted(hs, CRLF);
    assert ParseHeaders(rest) == hs + [];
  }

  lemma ParseEnd()
    ensures ParseHeaders(CRLF) == [] && InBounds(CRLF)
  {
    SkipEols(CRLF, 0, 2);
    assert CRLF[0..] == CRLF && CRLF[2..] == "";
    assert InBounds("");
  }

  // The parser is given the start line as well. A colon there makes a header
  // of it, so the section parses to its headers exactly if there is none.
  lemma SectionParses(start: string, hs: seq<Header>)
    requires ValidHeaders(hs) && start != "" && ValidValue(start)
    ensures InBounds(Section(start, hs))
    ensures var ps := ParseHeaders(Section(start, hs));
      && (ps == hs <==> ':' !in start)
      && (':' in start ==> |ps| == |hs| + 1 && ps[1..] == hs && ps[0].key == start[..IndexOf(start, ':')])
  {
    ParseSection(start, hs);
    hide ParseHeaders, InBounds;
    var c := IndexOf(start, ':');
    assert Section(start, hs)[..c] == start[..c];
    assert c < |start| <==> ':' in start;
  }

  // ----- the estimate of the header count -----

  predicate Unterminated(s: string) { s != "" && !IsEol(s[|s| - 1]) }

  // Text that ends with a line ending has as many runs of them as it has
  // lines, so the table never has to grow.
  lemma {:induction false} EstimateBounds(s: string)
    ensures |ParseHeaders(s)| <= EolRuns(s) + (if Unterminated(s) then 1 else 0)
    decreases |s|
  {
    if s == "" {
    } else if IsEol(s[0]) {
      AfterRun(s);
      EstimateBounds(s[EolLength(s)..]);
    } else {
      var b := LineLength(s);
      UnfoldLine(s);
      RunsAfterLine(s, b);
      if b < |s| {
        AfterRun(s[b..]);
        EstimateBounds(s[b..][EolLength(s[b..])..]);
      } else {
        assert s[b..] == "";
      }
    }
  }

  lemma AfterRun(s: string)
    requires s != "" && IsEol(s[0])
    ensures var rest := s[EolLength(s)..];
      && ParseHeaders(s) == ParseHeaders(rest) && EolRuns(s) == 1 + EolRuns(rest)
      && (Unterminated(s) <==> Unterminated(rest)) && |rest| < |s|
  {
    SkipEols(s, 0, EolLength(s));
    assert s[0..] == s;
  }

  lemma {:induction false} RunsAfterLine(s: string, b: nat)
    requires b <= |s| && forall k | 0 <= k < b :: !IsEol(s[k])
    ensures EolRuns(s) == EolRuns(s[b..])
  {
    if b > 0 {
      RunsAfterLine(s[1..], b - 1);
      assert s[1..][b - 1..] == s[b..];
    } else {
      assert s[0..] == s;
    }
  }
}
