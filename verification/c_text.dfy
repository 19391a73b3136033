// Zero-terminated text, and the C library's ways of taking it apart.

module CText {
  import opened Options

  const INT_MAX := 0x7fff_ffff

  const NUL: char := '\0'
  const CRLF := "\r\n"
  const BLANK := "\r\n\r\n"

  predicate IsInt(n: int) { -INT_MAX - 1 <= n <= INT_MAX }

  predicate IsEol(c: char) { c == '\r' || c == '\n' }

  predicate IsSpace(c: char) {
    c == ' ' || c == '\t' || c == '\n' || c == '\U{0B}' || c == '\U{0C}' || c == '\r'
  }

  // No zero inside, as strlen requires of its argument's content.
  predicate IsText(s: string) { NUL !in s }

  // The characters before the first line ending: a token of strtok.
  function LineLength(s: string): (n: nat)
    ensures n <= |s|
    ensures forall k | 0 <= k < n :: !IsEol(s[k])
    ensures n < |s| ==> IsEol(s[n])
  {
    if s == "" || IsEol(s[0]) then 0 else 1 + LineLength(s[1..])
  }

  // strchr: the first position of c, or the length if there is none.
  function IndexOf(s: string, c: char): (n: nat)
    ensures n <= |s|
    ensures forall k | 0 <= k < n :: s[k] != c
    ensures n < |s| ==> s[n] == c
  {
    if s == "" || s[0] == c then 0 else 1 + IndexOf(s[1..], c)
  }

  lemma {:induction false} LineLengthIs(s: string, n: nat)
    requires n <= |s| && (forall k | 0 <= k < n :: !IsEol(s[k])) && (n < |s| ==> IsEol(s[n]))
    ensures LineLength(s) == n
  {
  }

  lemma {:induction false} IndexOfIs(s: string, c: char, n: nat)
    requires n <= |s| && (forall k | 0 <= k < n :: s[k] != c) && (n < |s| ==> s[n] == c)
    ensures IndexOf(s, c) == n
  {
  }

  // strstr(s, "\r\n\r\n"), or None.
  function FindBlank(s: string): (r: Option<nat>)
    ensures r.Some? ==> r.value + 4 <= |s| && s[r.value..r.value + 4] == BLANK
  {
    if |s| < 4 then None
    else if s[..4] == BLANK then Some(0)
    else
      match FindBlank(s[1..])
      case None => None
      case Some(k) => Some(k + 1)
  }

  // What FindBlank finds is the first, and it misses none.
  lemma {:induction false} FindBlankFirst(s: string, k: nat)
    requires k + 4 <= |s| && s[k..k + 4] == BLANK
    ensures FindBlank(s).Some? && FindBlank(s).value <= k
  {
    if s[..4] != BLANK {
      assert k > 0;
      assert s[1..][k - 1..k + 3] == BLANK;
      FindBlankFirst(s[1..], k - 1);
    }
  }

  lemma {:induction false} FindBlankPrefix(s: string, more: string)
    requires FindBlank(s).Some?
    ensures FindBlank(s + more) == FindBlank(s)
  {
    assert (s + more)[..4] == s[..4];
    if s[..4] != BLANK {
      FindBlankPrefix(s[1..], more);
      assert (s + more)[1..] == s[1..] + more;
    }
  }

  function Further(n: nat, r: Option<nat>): Option<nat> {
    match r case None => None case Some(k) => Some(n + k)
  }

  lemma FindBlankNotHere(s: string)
    requires s != "" && (|s| >= 4 ==> s[..4] != BLANK)
    ensures FindBlank(s) == Further(1, FindBlank(s[1..]))
  {
  }

  lemma FindBlankStep(s: string)
    requires s != "" && s[0] != '\r'
    ensures FindBlank(s) == Further(1, FindBlank(s[1..]))
  {
    hide FindBlank;
    NoBlankAt(s, 0);
    FindBlankNotHere(s);
  }

  // A text without line endings is skipped.
  lemma {:induction false} FindBlankSkip(line: string, rest: string)
    requires forall k | 0 <= k < |line| :: !IsEol(line[k])
    ensures FindBlank(line + rest) == Further(|line|, FindBlank(rest))
  {
    hide FindBlank;
    if line == "" {
      assert line + rest == rest;
    } else {
      FindBlankSkip(line[1..], rest);
      assert (line + rest)[1..] == line[1..] + rest;
      FindBlankStep(line + rest);
    }
  }

  // A line ending followed by another line is skipped.
  lemma FindBlankEol(rest: string)
    requires rest != "" && rest[0] != '\r'
    ensures FindBlank(CRLF + rest) == Further(2, FindBlank(rest))
  {
    hide FindBlank;
    var s, t := CRLF + rest, "\n" + rest;
    assert s[1..] == t && t[1..] == rest;
    NoBlankAt(s, 2);
    FindBlankNotHere(s);
    FindBlankStep(t);
  }

  lemma NoBlankAt(s: string, k: nat)
    requires k < |s| && (k == 0 || k == 2) && s[k] != '\r'
    ensures |s| >= 4 ==> s[..4] != BLANK
  {
    assert |s| >= 4 ==> s[..4][k] == s[k];
    assert BLANK[0] == BLANK[2] == '\r';
  }

  // ----- decimal numbers -----

  predicate IsDigit(c: char) { '0' <= c <= '9' }

  function DigitOf(c: char): nat
    requires IsDigit(c)
  {
    c as int - '0' as int
  }

  // "%d" of a number that is not negative.
  function Decimal(n: nat): (s: string)
    ensures s != "" && forall k | 0 <= k < |s| :: IsDigit(s[k])
  {
    if n < 10 then [(n + '0' as int) as char] else Decimal(n / 10) + [(n % 10 + '0' as int) as char]
  }

  // The value of the digits at the front of s, continuing from v.
  function Digits(s: string, v: nat): nat {
    if s == "" || !IsDigit(s[0]) then v else Digits(s[1..], v * 10 + DigitOf(s[0]))
  }

  function SkipSpace(s: string): (r: string)
    ensures |r| <= |s| && (r != "" ==> !IsSpace(r[0]))
  {
    if s != "" && IsSpace(s[0]) then SkipSpace(s[1..]) else s
  }

  // atoi, on numbers that fit an int.
  function Atoi(s: string): int {
    var t := SkipSpace(s);
    if t != "" && t[0] == '-' then 0 - Digits(t[1..], 0)
    else if t != "" && t[0] == '+' then Digits(t[1..], 0)
    else Digits(t, 0)
  }

  lemma {:induction false} DigitsAppend(s: string, t: string, v: nat)
    requires forall k | 0 <= k < |s| :: IsDigit(s[k])
    ensures Digits(s + t, v) == Digits(t, Digits(s, v))
  {
    if s == "" {
      assert s + t == t;
    } else {
      DigitsAppend(s[1..], t, v * 10 + DigitOf(s[0]));
      assert (s + t)[1..] == s[1..] + t;
    }
  }

  lemma {:induction false} DecimalDigits(n: nat, rest: string)
    requires rest == "" || !IsDigit(rest[0])
    ensures Digits(Decimal(n) + rest, 0) == n
    decreases n
  {
    DigitsAppend(Decimal(n), rest, 0);
    if n < 10 {
      assert Digits(Decimal(n), 0) == n;
    } else {
      var last := [(n % 10 + '0' as int) as char];
      DigitsAppend(Decimal(n / 10), last, 0);
      DecimalDigits(n / 10, "");
      assert Decimal(n / 10) + "" == Decimal(n / 10);
      assert Digits(last, n / 10) == n;
    }
  }

  lemma AtoiDecimal(n: nat, rest: string)
    requires rest == "" || !IsDigit(rest[0])
    ensures Atoi(Decimal(n) + rest) == n
  {
    var s := Decimal(n) + rest;
    assert IsDigit(s[0]);
    assert SkipSpace(s) == s;
    DecimalDigits(n, rest);
  }

  // ----- sscanf's words -----

  function WordLength(s: string): (n: nat)
    ensures n <= |s|
    ensures forall k | 0 <= k < n :: !IsSpace(s[k])
    ensures n < |s| ==> IsSpace(s[n])
  {
    if s == "" || IsSpace(s[0]) then 0 else 1 + WordLength(s[1..])
  }

  // "%s": the next word and what follows it, or None at the end.
  function NextWord(s: string): (r: Option<(string, string)>)
    ensures r.Some? ==> |r.value.1| < |s|
  {
    var t := SkipSpace(s);
    var n := WordLength(t);
    if t == "" then None else Some((t[..n], t[n..]))
  }

  predicate IsWord(s: string) {
    s != "" && forall k | 0 <= k < |s| :: !IsSpace(s[k])
  }

  lemma {:induction false} WordLengthIs(s: string, n: nat)
    requires n <= |s| && (forall k | 0 <= k < n :: !IsSpace(s[k])) && (n < |s| ==> IsSpace(s[n]))
    ensures WordLength(s) == n
  {
  }

  lemma NextWordIs(word: string, rest: string)
    requires IsWord(word) && (rest == "" || IsSpace(rest[0]))
    ensures NextWord(word + rest) == Some((word, rest))
    ensures NextWord(" " + word + rest) == Some((word, rest))
  {
    var s := word + rest;
    WordLengthIs(s, |word|);
    assert SkipSpace(s) == s;
    assert (" " + word + rest)[1..] == s;
  }

  // ----- what these functions find, said of the text -----

  // The white space of the C locale.
  lemma SpaceCodes(c: char)
    ensures IsSpace(c) <==> c as int == 32 || 9 <= c as int <= 13
  {
  }

  predicate AllSpace(s: string) { forall k | 0 <= k < |s| :: IsSpace(s[k]) }

  predicate AllDigits(s: string) { forall k | 0 <= k < |s| :: IsDigit(s[k]) }

  lemma {:induction false} SkipSpaceIs(a: string, rest: string)
    requires AllSpace(a) && (rest == "" || !IsSpace(rest[0]))
    ensures SkipSpace(a + rest) == rest
  {
    if a == "" {
      assert a + rest == rest;
    } else {
      SkipSpaceIs(a[1..], rest);
      assert (a + rest)[1..] == a[1..] + rest;
    }
  }

  lemma {:induction false} SkippedSpace(s: string) returns (a: string)
    ensures AllSpace(a) && s == a + SkipSpace(s)
  {
    if s != "" && IsSpace(s[0]) {
      a := SkippedSpace(s[1..]);
      a := [s[0]] + a;
    } else {
      a := "";
    }
  }

  ghost predicate WordBetween(s: string, word: string, rest: string) {
    exists a :: AllSpace(a) && s == a + word + rest && IsWord(word) && (rest == "" || IsSpace(rest[0]))
  }

  // A word is what stands between white space, or behind it at the end.
  lemma NextWordIff(s: string, word: string, rest: string)
    ensures NextWord(s) == Some((word, rest)) <==> WordBetween(s, word, rest)
    ensures NextWord(s) == None <==> AllSpace(s)
  {
    hide NextWord, WordBetween;
    if NextWord(s) == Some((word, rest)) {
      WordFound(s, word, rest);
    }
    if WordBetween(s, word, rest) {
      WordThere(s, word, rest);
    }
    NoWord(s);
  }

  lemma WordFound(s: string, word: string, rest: string)
    requires NextWord(s) == Some((word, rest))
    ensures WordBetween(s, word, rest)
  {
    var a := SkippedSpace(s);
    hide SkipSpace, IsSpace;
    assert SkipSpace(s) == word + rest;
    assert s == a + word + rest;
  }

  lemma WordThere(s: string, word: string, rest: string)
    requires WordBetween(s, word, rest)
    ensures NextWord(s) == Some((word, rest))
  {
    var a :| AllSpace(a) && s == a + word + rest && IsWord(word) && (rest == "" || IsSpace(rest[0]));
    var t := word + rest;
    assert s == a + t;
    NextWordIs(word, rest);
    SkipSpaceIs(a, t);
    assert SkipSpace(t) == t;
  }

  lemma NoWord(s: string)
    ensures NextWord(s) == None <==> AllSpace(s)
  {
    var a := SkippedSpace(s);
    if AllSpace(s) {
      SkipSpaceIs(s, "");
      assert s + "" == s;
    }
  }

  // One more digit.
  lemma DigitsLast(s: string, c: char)
    requires AllDigits(s) && IsDigit(c)
    ensures Digits(s + [c], 0) == 10 * Digits(s, 0) + (c as int - 48)
  {
    DigitsAppend(s, [c], 0);
    assert Digits([c], Digits(s, 0)) == 10 * Digits(s, 0) + DigitOf(c);
  }

  lemma DigitsStop(s: string, rest: string)
    requires AllDigits(s) && (rest == "" || !IsDigit(rest[0]))
    ensures Digits(s + rest, 0) == Digits(s, 0)
  {
    DigitsAppend(s, rest, 0);
  }

  // atoi: white space, a sign, and the digits up to the first other character;
  // without digits, zero.
  lemma AtoiSigned(a: string, sign: string, digits: string, rest: string)
    requires AllSpace(a) && AllDigits(digits) && (rest == "" || !IsDigit(rest[0]))
    requires sign == "" || sign == "+" || sign == "-"
    requires sign == "" && digits == "" ==> rest == "" || (!IsSpace(rest[0]) && rest[0] != '+' && rest[0] != '-')
    ensures Atoi(a + sign + digits + rest) == if sign == "-" then 0 - Digits(digits, 0) else Digits(digits, 0)
  {
    var t := sign + (digits + rest);
    assert a + sign + digits + rest == a + t;
    SkipSpaceIs(a, t);
    DigitsStop(digits, rest);
    if sign != "" {
      assert t[1..] == digits + rest;
    } else {
      assert t == digits + rest;
    }
  }

  // "%d" prints no leading zeros.
  lemma {:induction false} DecimalLeads(n: nat)
    ensures n > 0 ==> Decimal(n)[0] != '0'
    ensures Decimal(0) == "0"
    decreases n
  {
    if n >= 10 {
      DecimalLeads(n / 10);
    }
  }
}
