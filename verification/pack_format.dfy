// pack and unpack: interpreters of a format string over a byte buffer.

module PackFormat {
  import opened Options
  import CText
  import opened Powers
  import opened Bytes
  import opened Ieee754

  // The variable arguments. A string has no zero byte.
  datatype Arg = Int(i: int) | Real(f: real) | Str(s: seq<byte>)

  predicate IsInt(c: char) { c in "cChHlLqQ" }

  predicate IsReal(c: char) { c in "fdg" }

  predicate IsSigned(c: char) { c in "chlq" }

  predicate TakesArg(c: char) { IsInt(c) || IsReal(c) || c == 's' }

  // How many bytes a number takes.
  function Size(c: char): nat {
    if c in "cC" then 1 else if c in "hHf" then 2 else if c in "lLd" then 4 else 8
  }

  function ExpBits(c: char): nat {
    if c == 'f' then 5 else if c == 'd' then 8 else 11
  }

  predicate Fits(c: char, a: Arg) {
    if IsInt(c) then a.Int? else if IsReal(c) then a.Real? else c == 's' && a.Str? && 0 !in a.s
  }

  // The arguments are the ones the format asks for, in order.
  predicate Matches(format: string, args: seq<Arg>) {
    if format == "" then args == []
    else if TakesArg(format[0]) then args != [] && Fits(format[0], args[0]) && Matches(format[1..], args[1..])
    else Matches(format[1..], args)
  }

  function RealPattern(c: char, f: real): nat
    requires IsReal(c)
  {
    Pack754(f, 8 * Size(c), ExpBits(c))
  }

  // The bytes of a string that are copied: their number is an unsigned int.
  function Copied(s: seq<byte>): (c: seq<byte>)
    ensures |c| == |s| % 0x1_0000_0000 && c <= s
  {
    s[..|s| % 0x1_0000_0000]
  }

  function PackItem(c: char, a: Arg): seq<byte>
    requires TakesArg(c) && Fits(c, a)
  {
    if IsInt(c) then BigEndian(Word(a.i), Size(c))
    else if IsReal(c) then BigEndian(RealPattern(c, a.f), Size(c))
    else BigEndian(|Copied(a.s)|, 2) + Copied(a.s)
  }

  function PackBytes(format: string, args: seq<Arg>): seq<byte>
    requires Matches(format, args)
  {
    if format == "" then []
    else if TakesArg(format[0]) then PackItem(format[0], args[0]) + PackBytes(format[1..], args[1..])
    else PackBytes(format[1..], args)
  }

  // ----- the methods -----

  // What a buffer holds after bs has been stored at position at.
  ghost predicate Stored(before: seq<byte>, after: seq<byte>, at: nat, bs: seq<byte>) {
    && |after| == |before| && at + |bs| <= |after|
    && after[at..at + |bs|] == bs
    && (forall k | 0 <= k < at || at + |bs| <= k < |after| :: after[k] == before[k])
  }

  method PackI16(buf: array<byte>, at: nat, i: nat)
    requires at + 2 <= buf.Length
    modifies buf
    ensures Stored(old(buf[..]), buf[..], at, BigEndian(i, 2))
  {
    buf[at] := (i / 0x100 % 256) as byte;
    buf[at + 1] := (i % 256) as byte;
    assert buf[at..at + 2] == [buf[at], buf[at + 1]];
    assert BigEndian(i, 2) == BigEndian(i / 256, 1) + [(i % 256) as byte];
  }

  method PackI32(buf: array<byte>, at: nat, i: nat)
    requires at + 4 <= buf.Length
    modifies buf
    ensures Stored(old(buf[..]), buf[..], at, BigEndian(i, 4))
  {
    buf[at] := (i / 0x100_0000 % 256) as byte;
    buf[at + 1] := (i / 0x1_0000 % 256) as byte;
    buf[at + 2] := (i / 0x100 % 256) as byte;
    buf[at + 3] := (i % 256) as byte;
    Halves(i);
    assert buf[at..at + 4] == [buf[at], buf[at + 1]] + [buf[at + 2], buf[at + 3]];
  }

  lemma TwoBytes(i: nat)
    ensures BigEndian(i, 2) == [(i / 0x100 % 256) as byte, (i % 256) as byte]
  {
    assert BigEndian(i, 2) == BigEndian(i / 256, 1) + [(i % 256) as byte];
  }

  lemma Halves(i: nat)
    ensures BigEndian(i, 2) == [(i / 0x100 % 256) as byte, (i % 256) as byte]
    ensures BigEndian(i, 4) == BigEndian(i / 0x1_0000, 2) + BigEndian(i, 2)
    ensures BigEndian(i / 0x1_0000, 2) == [(i / 0x100_0000 % 256) as byte, (i / 0x1_0000 % 256) as byte]
  {
    TwoBytes(i);
    TwoBytes(i / 0x1_0000);
    assert i / 0x1_0000 / 0x100 == i / 0x100_0000;
    var a, b := i / 256, i / 256 / 256;
    assert b == i / 0x1_0000;
    assert BigEndian(i, 4) == BigEndian(a, 3) + [(i % 256) as byte];
    assert BigEndian(a, 3) == BigEndian(b, 2) + [(a % 256) as byte];
  }

  method PackI64(buf: array<byte>, at: nat, i: nat)
    requires at + 8 <= buf.Length
    modifies buf
    ensures Stored(old(buf[..]), buf[..], at, BigEndian(i, 8))
  {
    buf[at] := (i / 0x100_0000_0000_0000 % 256) as byte;
    buf[at + 1] := (i / 0x1_0000_0000_0000 % 256) as byte;
    buf[at + 2] := (i / 0x100_0000_0000 % 256) as byte;
    buf[at + 3] := (i / 0x1_0000_0000 % 256) as byte;
    buf[at + 4] := (i / 0x100_0000 % 256) as byte;
    buf[at + 5] := (i / 0x1_0000 % 256) as byte;
    buf[at + 6] := (i / 0x100 % 256) as byte;
    buf[at + 7] := (i % 256) as byte;
    Quarters(i);
    assert buf[at..at + 8]
        == [buf[at], buf[at + 1], buf[at + 2], buf[at + 3]] + [buf[at + 4], buf[at + 5], buf[at + 6], buf[at + 7]];
  }

  lemma Quarters(i: nat)
    ensures BigEndian(i, 8) ==
      [(i / 0x100_0000_0000_0000 % 256) as byte, (i / 0x1_0000_0000_0000 % 256) as byte,
       (i / 0x100_0000_0000 % 256) as byte, (i / 0x1_0000_0000 % 256) as byte]
      + [(i / 0x100_0000 % 256) as byte, (i / 0x1_0000 % 256) as byte, (i / 0x100 % 256) as byte, (i % 256) as byte]
  {
    var h := i / 0x1_0000_0000;
    assert i / 256 / 256 / 256 / 256 == h;
    assert BigEndian(i, 8) == BigEndian(h, 4) + BigEndian(i, 4) by {
      var a, b, c := i / 256, i / 256 / 256, i / 256 / 256 / 256;
      assert BigEndian(i, 8) == BigEndian(a, 7) + [(i % 256) as byte];
      assert BigEndian(a, 7) == BigEndian(b, 6) + [(a % 256) as byte];
      assert BigEndian(b, 6) == BigEndian(c, 5) + [(b % 256) as byte];
      assert BigEndian(c, 5) == BigEndian(h, 4) + [(c % 256) as byte];
      assert BigEndian(i, 4) == [(c % 256) as byte, (b % 256) as byte, (a % 256) as byte, (i % 256) as byte] by {
        Halves(i);
      }
    }
    Halves(h);
    Halves(i);
    assert h / 0x100_0000 == i / 0x100_0000_0000_0000;
    assert h / 0x1_0000 == i / 0x1_0000_0000_0000;
    assert h / 0x100 == i / 0x100_0000_0000;
  }

  // One case of the switch in pack.
  method PackOne(buf: array<byte>, at: nat, c: char, a: Arg) returns (n: nat)
    requires TakesArg(c) && Fits(c, a) && at + |PackItem(c, a)| <= buf.Length
    modifies buf
    ensures n == |PackItem(c, a)| && Stored(old(buf[..]), buf[..], at, PackItem(c, a))
  {
    hide Pack754, BigEndian, Word;
    match c {
      case 'c' | 'C' =>
        buf[at] := (a.i % 256) as byte;
        n := 1;
        OneByte(a.i);
      case 'h' | 'H' =>
        PackI16(buf, at, Word(a.i));
        n := 2;
      case 'l' | 'L' =>
        PackI32(buf, at, Word(a.i));
        n := 4;
      case 'q' | 'Q' =>
        PackI64(buf, at, Word(a.i));
        n := 8;
      case 'f' =>
        var fhold := Ieee754.Pack(a.f, 16, 5);
        PackI16(buf, at, fhold);
        n := 2;
      case 'd' =>
        var fhold := Ieee754.Pack(a.f, 32, 8);
        PackI32(buf, at, fhold);
        n := 4;
      case 'g' =>
        var fhold := Ieee754.Pack(a.f, 64, 11);
        PackI64(buf, at, fhold);
        n := 8;
      case _ =>
        var len := PackString(buf, at, a.s);
        n := len + 2;
    }
  }

  method PackString(buf: array<byte>, at: nat, s: seq<byte>) returns (len: nat)
    requires at + 2 + |Copied(s)| <= buf.Length
    modifies buf
    ensures len == |Copied(s)|
    ensures Stored(old(buf[..]), buf[..], at, BigEndian(|Copied(s)|, 2) + Copied(s))
  {
    hide BigEndian;
    ghost var copied := Copied(s);
    len := |s| % 0x1_0000_0000;
    PackI16(buf, at, len);
    ghost var prefix := buf[at..at + 2];
    forall k | 0 <= k < len {
      buf[at + 2 + k] := s[k];
    }
    assert buf[at..at + 2] == prefix;
    assert buf[at + 2..at + 2 + len] == copied;
    assert buf[at..at + 2 + len] == buf[at..at + 2] + buf[at + 2..at + 2 + len];
  }

  lemma OneByte(i: int)
    ensures BigEndian(Word(i), 1) == [(i % 256) as byte]
  {
    WordMod(i, 1);
    assert Width(1) == 256 by {
      WidthStep(1);
    }
  }

  // The low bytes of the 64-bit word are those of the integer.
  lemma WordMod(i: int, n: nat)
    requires n <= 8
    ensures Word(i) % Width(n) == i % Width(n)
  {
    hide Pow2;
    Pow2Add(64 - 8 * n, 8 * n);
    assert 64 - 8 * n + 8 * n == 64;
    ModMod(i, Pow2(64 - 8 * n), Width(n));
  }

  lemma ModMod(i: int, v: nat, w: nat)
    requires 0 < v && 0 < w
    ensures 0 < v * w && i % (v * w) % w == i % w
  {
    var q, r := i / (v * w), i % (v * w);
    var q', r' := r / w, r % w;
    assert i == q * (v * w) + r && r == q' * w + r';
    assert i == (q * v + q') * w + r';
    Divide(q * v + q', w, r');
  }

  lemma StoredAfter(b0: seq<byte>, b1: seq<byte>, b2: seq<byte>, bs: seq<byte>, item: seq<byte>)
    requires Stored(b0, b1, 0, bs) && Stored(b1, b2, |bs|, item)
    ensures Stored(b0, b2, 0, bs + item)
  {
    assert b2[0..|bs|] == b1[0..|bs|];
    assert b2[0..|bs| + |item|] == b2[0..|bs|] + b2[|bs|..|bs| + |item|];
  }

  // The format from i on, with the arguments from j on.
  lemma PackFrom(format: string, args: seq<Arg>, i: nat, j: nat)
    requires i < |format| && j <= |args| && Matches(format[i..], args[j..])
    ensures TakesArg(format[i]) ==>
      && j < |args| && Fits(format[i], args[j]) && Matches(format[i + 1..], args[j + 1..])
      && PackBytes(format[i..], args[j..]) == PackItem(format[i], args[j]) + PackBytes(format[i + 1..], args[j + 1..])
    ensures !TakesArg(format[i]) ==>
      && Matches(format[i + 1..], args[j..])
      && PackBytes(format[i..], args[j..]) == PackBytes(format[i + 1..], args[j..])
  {
    assert format[i..][1..] == format[i + 1..];
    if j < |args| {
      assert args[j..][1..] == args[j + 1..];
    }
  }

  // pack: size is an unsigned int and wraps; the cursor is a pointer and moves
  // by what is stored.
  method Pack(buf: array<byte>, format: string, args: seq<Arg>) returns (size: nat)
    requires Matches(format, args) && |PackBytes(format, args)| <= buf.Length
    modifies buf
    ensures size == |PackBytes(format, args)| % 0x1_0000_0000
    ensures Stored(old(buf[..]), buf[..], 0, PackBytes(format, args))
  {
    hide PackItem, PackBytes, Matches, Fits, TakesArg, Stored;
    var i: nat, j: nat, at: nat := 0, 0, 0;
    size := 0;
    ghost var done: seq<byte> := [];
    StoredNothing(buf[..]);
    assert format[0..] == format && args[0..] == args;
    while i < |format|
      invariant i <= |format| && j <= |args| && at == |done|
      invariant Matches(format[i..], args[j..])
      invariant PackBytes(format, args) == done + PackBytes(format[i..], args[j..])
      invariant size == at % 0x1_0000_0000
      invariant Stored(old(buf[..]), buf[..], 0, done)
    {
      PackFrom(format, args, i, j);
      if TakesArg(format[i]) {
        ghost var before := buf[..];
        ghost var item := PackItem(format[i], args[j]);
        assert PackBytes(format, args) == (done + item) + PackBytes(format[i + 1..], args[j + 1..]);
        var n := PackOne(buf, at, format[i], args[j]);
        StoredAfter(old(buf[..]), before, buf[..], done, item);
        size := (size + n) % 0x1_0000_0000;
        at, j := at + n, j + 1;
        done := done + item;
      }
      i := i + 1;
    }
    PackNothing(args[j..]);
    assert format[i..] == "" && PackBytes(format, args) == done;
  }

  lemma StoredNothing(b: seq<byte>)
    ensures Stored(b, b, 0, [])
  {
  }

  lemma PackNothing(args: seq<Arg>)
    ensures Matches("", args) ==> PackBytes("", args) == []
  {
  }

  // ----- unpack -----

  // The limit on the next string, an unsigned int made of the digits before it.
  function NextLimit(c: char, limit: nat): nat {
    if CText.IsDigit(c) then (limit * 10 + (c as int - '0' as int)) % 0x1_0000_0000 else 0
  }

  function Cut(s: seq<byte>, limit: nat): seq<byte> {
    if limit > 0 && |s| > limit then s[..limit - 1] else s
  }

  // The value of one item at the front of bs and the bytes it takes, or None
  // if bs ends too early.
  function UnpackNumber(c: char, bs: seq<byte>): Option<(Arg, nat)>
    requires TakesArg(c) && c != 's'
  {
    var n := Size(c);
    if |bs| < n then None
    else
      var u := FromBytes(bs[..n]);
      Some((if IsReal(c) then Real(Unpack754(u, 8 * n, ExpBits(c)))
            else if IsSigned(c) then Int(Resign(u, n))
            else Int(u), n))
  }

  function UnpackString(limit: nat, bs: seq<byte>): Option<(Arg, nat)> {
    if |bs| < 2 then None
    else
      var len := FromBytes(bs[..2]);
      if |bs| < 2 + len then None else Some((Str(Cut(bs[2..2 + len], limit)), 2 + len))
  }

  function UnpackItem(c: char, limit: nat, bs: seq<byte>): Option<(Arg, nat)>
    requires TakesArg(c)
  {
    if c == 's' then UnpackString(limit, bs) else UnpackNumber(c, bs)
  }

  function UnpackValues(format: string, limit: nat, bs: seq<byte>): Option<(seq<Arg>, nat)> {
    if format == "" then Some(([], 0))
    else if TakesArg(format[0]) then
      match UnpackItem(format[0], limit, bs)
      case None => None
      case Some((a, n)) =>
        if |bs| < n then None
        else
          match UnpackValues(format[1..], 0, bs[n..])
          case None => None
          case Some((rest, m)) => Some(([a] + rest, n + m))
    else UnpackValues(format[1..], NextLimit(format[0], limit), bs)
  }

  // unpacku16, unpacku32 and unpacku64.
  function UnpackU16(b: seq<byte>): nat
    requires |b| == 2
  {
    b[0] as nat * 0x100 + b[1] as nat
  }

  function UnpackU32(b: seq<byte>): nat
    requires |b| == 4
  {
    b[0] as nat * 0x100_0000 + b[1] as nat * 0x1_0000 + b[2] as nat * 0x100 + b[3] as nat
  }

  function UnpackU64(b: seq<byte>): nat
    requires |b| == 8
  {
    b[0] as nat * 0x100_0000_0000_0000 + b[1] as nat * 0x1_0000_0000_0000
    + b[2] as nat * 0x100_0000_0000 + b[3] as nat * 0x1_0000_0000
    + b[4] as nat * 0x100_0000 + b[5] as nat * 0x1_0000 + b[6] as nat * 0x100 + b[7] as nat
  }

  function UnpackUnsigned(b: seq<byte>): nat
    requires |b| == 1 || |b| == 2 || |b| == 4 || |b| == 8
  {
    if |b| == 1 then b[0] as nat
    else if |b| == 2 then UnpackU16(b)
    else if |b| == 4 then UnpackU32(b)
    else UnpackU64(b)
  }

  lemma LastByte(b: seq<byte>, n: nat)
    requires |b| == n + 1
    ensures FromBytes(b) == 256 * FromBytes(b[..n]) + b[n] as nat
  {
  }

  lemma {:induction false} FirstBytes(b: seq<byte>, k: nat)
    requires k < |b|
    ensures FromBytes(b[..k + 1]) == 256 * FromBytes(b[..k]) + b[k] as nat
  {
    LastByte(b[..k + 1], k);
    assert b[..k + 1][..k] == b[..k];
  }

  lemma UnpackUnsignedIsFromBytes(b: seq<byte>)
    requires |b| == 1 || |b| == 2 || |b| == 4 || |b| == 8
    ensures UnpackUnsigned(b) == FromBytes(b)
  {
    hide FromBytes;
    assert FromBytes(b[..0]) == 0 by {
      FromNothing();
    }
    forall k | 0 <= k < |b|
      ensures FromBytes(b[..k + 1]) == 256 * FromBytes(b[..k]) + b[k] as nat
    {
      FirstBytes(b, k);
    }
    assert b[..|b|] == b;
    assert FromBytes(b[..0 + 1]) == b[0] as nat;
    if |b| >= 2 {
      assert FromBytes(b[..1 + 1]) == 256 * b[0] as nat + b[1] as nat;
    }
    if |b| >= 4 {
      assert FromBytes(b[..2 + 1]) == 256 * FromBytes(b[..2]) + b[2] as nat;
      assert FromBytes(b[..3 + 1]) == 256 * FromBytes(b[..3]) + b[3] as nat;
    }
    if |b| == 8 {
      assert FromBytes(b[..4 + 1]) == 256 * FromBytes(b[..4]) + b[4] as nat;
      assert FromBytes(b[..5 + 1]) == 256 * FromBytes(b[..5]) + b[5] as nat;
      assert FromBytes(b[..6 + 1]) == 256 * FromBytes(b[..6]) + b[6] as nat;
      assert FromBytes(b[..7 + 1]) == 256 * FromBytes(b[..7]) + b[7] as nat;
    }
  }

  lemma LengthIsFromBytes(b: seq<byte>)
    requires |b| == 2
    ensures UnpackU16(b) == FromBytes(b)
  {
    UnpackUnsignedIsFromBytes(b);
  }

  lemma FromNothing()
    ensures FromBytes([]) == 0
  {
  }

  // One case of the switch in unpack.
  method UnpackOne(buf: array<byte>, at: nat, c: char, limit: nat) returns (a: Arg, n: nat)
    requires TakesArg(c) && at <= buf.Length && UnpackItem(c, limit, buf[at..]).Some?
    ensures (a, n) == UnpackItem(c, limit, buf[at..]).value && at + n <= buf.Length
  {
    hide FromBytes, Unpack754, Width, Pow2, UnpackUnsigned, UnpackU16, UnpackU32, UnpackU64;
    if c == 's' {
      assert buf[at..][..2] == buf[at..at + 2];
      var len := UnpackU16(buf[at..at + 2]);
      LengthIsFromBytes(buf[at..at + 2]);
      assert buf[at..][2..2 + len] == buf[at + 2..at + 2 + len];
      var count := if limit > 0 && len > limit then limit - 1 else len;
      a := Str(buf[at + 2..at + 2 + count]);
      assert buf[at + 2..at + 2 + count] == buf[at + 2..at + 2 + len][..count];
      assert a.s == Cut(buf[at + 2..at + 2 + len], limit);
      n := 2 + len;
    } else {
      n := Size(c);
      var u := UnpackUnsigned(buf[at..at + n]);
      UnpackUnsignedIsFromBytes(buf[at..at + n]);
      assert buf[at..][..n] == buf[at..at + n];
      if IsReal(c) {
        var f := Ieee754.Unpack(u, 8 * n, ExpBits(c));
        a := Real(f);
      } else if IsSigned(c) {
        if u <= Pow2(8 * n - 1) - 1 {
          a := Int(u);
        } else {
          a := Int(-1 - (Width(n) - 1 - u));
        }
      } else {
        a := Int(u);
      }
    }
  }

  lemma UnpackFrom(format: string, i: nat, limit: nat, bs: seq<byte>)
    requires i < |format| && UnpackValues(format[i..], limit, bs).Some?
    ensures TakesArg(format[i]) ==>
      && UnpackItem(format[i], limit, bs).Some?
      && var (a, n) := UnpackItem(format[i], limit, bs).value;
         && n <= |bs| && UnpackValues(format[i + 1..], 0, bs[n..]).Some?
         && var (rest, m) := UnpackValues(format[i + 1..], 0, bs[n..]).value;
            UnpackValues(format[i..], limit, bs).value == ([a] + rest, n + m)
    ensures !TakesArg(format[i]) ==>
      UnpackValues(format[i..], limit, bs) == UnpackValues(format[i + 1..], NextLimit(format[i], limit), bs)
  {
    assert format[i..][1..] == format[i + 1..];
  }

  // unpack, with the cursor's final position.
  method Unpack(buf: array<byte>, format: string) returns (values: seq<Arg>, at: nat)
    requires UnpackValues(format, 0, buf[..]).Some?
    ensures (values, at) == UnpackValues(format, 0, buf[..]).value
  {
    hide UnpackItem, UnpackValues;
    values, at := [], 0;
    var maxstrlen := 0;
    assert format[0..] == format && buf[0..] == buf[..];
    ghost var (all, total) := UnpackValues(format, 0, buf[..]).value;
    assert [] + all == all;
    for i := 0 to |format|
      invariant at <= buf.Length && maxstrlen >= 0
      invariant UnpackValues(format[i..], maxstrlen, buf[at..]).Some?
      invariant var (rest, m) := UnpackValues(format[i..], maxstrlen, buf[at..]).value;
        (all, total) == (values + rest, at + m)
    {
      UnpackFrom(format, i, maxstrlen, buf[at..]);
      if TakesArg(format[i]) {
        var a, n := UnpackOne(buf, at, format[i], maxstrlen);
        ghost var (rest, m) := UnpackValues(format[i + 1..], 0, buf[at..][n..]).value;
        assert values + ([a] + rest) == (values + [a]) + rest;
        assert buf[at..][n..] == buf[at + n..];
        values, at := values + [a], at + n;
      } else if CText.IsDigit(format[i]) {
        maxstrlen := (maxstrlen * 10 + (format[i] as int - '0' as int)) % 0x1_0000_0000;
      }
      if !CText.IsDigit(format[i]) {
        maxstrlen := 0;
      }
    }
    UnpackNothing(maxstrlen, buf[at..]);
    assert format[|format|..] == "" && values + [] == values;
  }

  lemma UnpackNothing(limit: nat, bs: seq<byte>)
    ensures UnpackValues("", limit, bs) == Some(([], 0))
  {
  }

  // ----- the round trip -----

  // What is to come back: an integer reduced to its width and signedness, the
  // value of a real's pattern, a string cut to its limit.
  function Expected(c: char, limit: nat, a: Arg): Arg
    requires TakesArg(c) && Fits(c, a)
  {
    if IsInt(c) then Int(if IsSigned(c) then SignedWrap(a.i, Size(c)) else a.i % Width(Size(c)))
    else if IsReal(c) then Real(Unpack754(RealPattern(c, a.f) % Width(Size(c)), 8 * Size(c), ExpBits(c)))
    else Str(Cut(a.s, limit))
  }

  function ExpectedValues(format: string, limit: nat, args: seq<Arg>): seq<Arg>
    requires Matches(format, args)
  {
    if format == "" then []
    else if TakesArg(format[0]) then
      [Expected(format[0], limit, args[0])] + ExpectedValues(format[1..], 0, args[1..])
    else ExpectedValues(format[1..], NextLimit(format[0], limit), args)
  }

  predicate ShortStrings(args: seq<Arg>) {
    forall k | 0 <= k < |args| && args[k].Str? :: |args[k].s| < 0x1_0000
  }

  lemma LengthField(len: nat)
    ensures FromBytes(BigEndian(len, 2)) == len % 0x1_0000
  {
    FromBigEndian(len, 2);
    WidthStep(1);
    WidthStep(2);
  }

  lemma NumberRoundTrip(c: char, limit: nat, a: Arg, rest: seq<byte>)
    requires TakesArg(c) && c != 's' && Fits(c, a)
    ensures UnpackItem(c, limit, PackItem(c, a) + rest) == Some((Expected(c, limit, a), Size(c)))
    ensures |PackItem(c, a)| == Size(c)
  {
    var n := Size(c);
    var bs := PackItem(c, a);
    assert (bs + rest)[..n] == bs;
    hide BigEndian, FromBytes, Pack754, Unpack754, Word, Width, Resign, SignedWrap;
    if IsInt(c) {
      FromBigEndian(Word(a.i), n);
      WordMod(a.i, n);
      ResignWraps(a.i, n);
    } else {
      FromBigEndian(RealPattern(c, a.f), n);
    }
  }

  lemma StringRoundTrip(limit: nat, s: seq<byte>, rest: seq<byte>)
    requires |s| < 0x1_0000
    ensures UnpackString(limit, BigEndian(|s|, 2) + s + rest) == Some((Str(Cut(s, limit)), 2 + |s|))
  {
    hide BigEndian, FromBytes, Cut;
    LengthField(|s|);
    SmallMod(|s|, 0x1_0000);
    Front(BigEndian(|s|, 2), s, rest);
  }

  lemma Front<T>(a: seq<T>, b: seq<T>, c: seq<T>)
    ensures var all := a + b + c;
      |all| == |a| + |b| + |c| && all[..|a|] == a && all[|a|..|a| + |b|] == b
  {
  }

  lemma StringItem(limit: nat, a: Arg, rest: seq<byte>)
    requires Fits('s', a) && a.Str? && |a.s| < 0x1_0000
    ensures UnpackItem('s', limit, PackItem('s', a) + rest)
         == Some((Expected('s', limit, a), |PackItem('s', a)|))
  {
    SmallMod(|a.s|, 0x1_0000_0000);
    assert Copied(a.s) == a.s;
    StringRoundTrip(limit, a.s, rest);
  }

  lemma UnpackCons(format: string, limit: nat, item: seq<byte>, more: seq<byte>)
    requires format != "" && TakesArg(format[0])
    requires UnpackItem(format[0], limit, item + more).Some? && UnpackValues(format[1..], 0, more).Some?
    requires UnpackItem(format[0], limit, item + more).value.1 == |item|
    ensures var a := UnpackItem(format[0], limit, item + more).value.0;
      var (vs, m) := UnpackValues(format[1..], 0, more).value;
      UnpackValues(format, limit, item + more) == Some(([a] + vs, |item| + m))
  {
    hide UnpackItem, TakesArg, NextLimit;
    assert (item + more)[|item|..] == more;
  }

  // Unpacking what pack produced, with the same format and whatever follows
  // it, gives the expected values and consumes exactly what pack produced.
  lemma {:induction false} RoundTrip(format: string, limit: nat, args: seq<Arg>, rest: seq<byte>)
    requires Matches(format, args) && ShortStrings(args)
    ensures UnpackValues(format, limit, PackBytes(format, args) + rest)
         == Some((ExpectedValues(format, limit, args), |PackBytes(format, args)|))
    decreases |format|
  {
    hide UnpackItem, Expected, PackItem;
    if format == "" {
    } else if TakesArg(format[0]) {
      var item, tail := PackItem(format[0], args[0]), PackBytes(format[1..], args[1..]);
      RoundTrip(format[1..], 0, args[1..], rest);
      if format[0] == 's' {
        assert args[0].Str?;
        StringItem(limit, args[0], tail + rest);
      } else {
        NumberRoundTrip(format[0], limit, args[0], tail + rest);
      }
      assert PackBytes(format, args) + rest == item + (tail + rest);
      UnpackCons(format, limit, item, tail + rest);
    } else {
      RoundTrip(format[1..], NextLimit(format[0], limit), args, rest);
    }
  }

  // A real that some pattern of the width stands for comes back unchanged.
  lemma RepresentableReal(c: char, limit: nat, i: nat)
    requires IsReal(c) && i < Width(Size(c))
    ensures var f := Unpack754(i, 8 * Size(c), ExpBits(c));
      Expected(c, limit, Real(f)) == Real(f)
  {
    hide Pack754, Unpack754, Pow2, Cut, SignedWrap;
    PatternIdentity(i, 8 * Size(c), ExpBits(c));
    SmallMod(i, Width(Size(c)));
  }

  predicate InWidth(c: char, i: int)
    requires IsInt(c)
  {
    var n := Size(c);
    if IsSigned(c) then -(Pow2(8 * n - 1) as int) <= i < Pow2(8 * n - 1) else 0 <= i < Width(n)
  }

  // An integer comes back unchanged exactly if it fits its width.
  lemma IntegerComesBackIff(c: char, limit: nat, i: int, rest: seq<byte>)
    requires IsInt(c)
    ensures UnpackItem(c, limit, PackItem(c, Int(i)) + rest) == Some((Int(i), Size(c))) <==> InWidth(c, i)
  {
    var n := Size(c);
    hide UnpackItem, PackItem, Pow2, Cut, Pack754, Unpack754;
    NumberRoundTrip(c, limit, Int(i), rest);
    WidthStep(n);
    if InWidth(c, i) {
      if IsSigned(c) {
        SignedWrapFits(i, n);
      } else {
        SmallMod(i, Width(n));
      }
    }
  }

  // The limit that stands in front of what follows a format.
  function LimitAfter(format: string, limit: nat): nat {
    if format == "" then limit
    else LimitAfter(format[1..], if TakesArg(format[0]) then 0 else NextLimit(format[0], limit))
  }

  // The values of one format and then those of another.
  function Then(vs: seq<Arg>, n: nat, more: Option<(seq<Arg>, nat)>): Option<(seq<Arg>, nat)> {
    match more
    case None => None
    case Some((ws, m)) => Some((vs + ws, n + m))
  }

  lemma {:induction false} UnpackConcat(f1: string, f2: string, limit: nat, bs: seq<byte>, vs: seq<Arg>, n: nat)
    requires UnpackValues(f1, limit, bs) == Some((vs, n)) && n <= |bs|
    ensures UnpackValues(f1 + f2, limit, bs) == Then(vs, n, UnpackValues(f2, LimitAfter(f1, limit), bs[n..]))
    decreases |f1|
  {
    hide UnpackItem;
    if f1 == "" {
      assert f1 + f2 == f2 && bs[0..] == bs;
      AddNothing(UnpackValues(f2, limit, bs));
    } else {
      var c := f1[0];
      assert (f1 + f2)[0] == c && (f1 + f2)[1..] == f1[1..] + f2;
      if TakesArg(c) {
        var (a, k) := UnpackItem(c, limit, bs).value;
        var (ws, m) := UnpackValues(f1[1..], 0, bs[k..]).value;
        UnpackConcat(f1[1..], f2, 0, bs[k..], ws, m);
        assert bs[k..][m..] == bs[k + m..];
        AddFirst(a, k, ws, m, UnpackValues(f2, LimitAfter(f1, limit), bs[n..]));
      } else {
        UnpackConcat(f1[1..], f2, NextLimit(c, limit), bs, vs, n);
      }
    }
  }

  lemma AddNothing(more: Option<(seq<Arg>, nat)>)
    ensures Then([], 0, more) == more
  {
    if more.Some? {
      assert [] + more.value.0 == more.value.0;
    }
  }

  lemma AddFirst(a: Arg, k: nat, ws: seq<Arg>, m: nat, more: Option<(seq<Arg>, nat)>)
    ensures Then([a], k, Then(ws, m, more)) == Then([a] + ws, k + m, more)
  {
    if more.Some? {
      assert [a] + (ws + more.value.0) == ([a] + ws) + more.value.0;
    }
  }

  lemma {:induction false} PackConcat(f1: string, args1: seq<Arg>, f2: string, args2: seq<Arg>)
    requires Matches(f1, args1) && Matches(f2, args2)
    ensures Matches(f1 + f2, args1 + args2)
    ensures PackBytes(f1 + f2, args1 + args2) == PackBytes(f1, args1) + PackBytes(f2, args2)
    decreases |f1|
  {
    hide PackItem;
    if f1 == "" {
      assert f1 + f2 == f2 && args1 + args2 == args2;
    } else {
      assert (f1 + f2)[0] == f1[0] && (f1 + f2)[1..] == f1[1..] + f2;
      if TakesArg(f1[0]) {
        assert (args1 + args2)[0] == args1[0] && (args1 + args2)[1..] == args1[1..] + args2;
        PackConcat(f1[1..], args1[1..], f2, args2);
      } else {
        PackConcat(f1[1..], args1, f2, args2);
      }
    }
  }

  // A string behind any format: how the 16-bit length prefix reads it.
  function ReadBack(s: seq<byte>, limit: nat, rest: seq<byte>): Option<(Arg, nat)> {
    UnpackString(limit, BigEndian(|Copied(s)|, 2) + Copied(s) + rest)
  }

  // From 65536 bytes on a string can only come back if it is so long that its
  // number of bytes has wrapped to a short one, and both lengths are cut.
  predicate ComesBack(s: seq<byte>, limit: nat) {
    || |s| < 0x1_0000
    || (|Copied(s)| < 0x1_0000 && 0 < limit && (limit < |Copied(s)| || limit == |Copied(s)| + 1))
  }

  // The prefix gives the length modulo 65536, so the end is found exactly if
  // what was copied is short. The value may be right even so, if both lengths
  // are cut.
  lemma StringReadBackIff(s: seq<byte>, limit: nat, rest: seq<byte>)
    ensures ReadBack(s, limit, rest).Some?
    ensures ReadBack(s, limit, rest).value.1 == 2 + |Copied(s)| <==> |Copied(s)| < 0x1_0000
    ensures ReadBack(s, limit, rest).value.0 == Str(Cut(s, limit)) <==>
              || |s| < 0x1_0000
              || (0 < limit && (limit < |s| % 0x1_0000 || limit == |s| % 0x1_0000 + 1))
    ensures ReadBack(s, limit, rest) == Some((Str(Cut(s, limit)), 2 + |Copied(s)|)) <==> ComesBack(s, limit)
  {
    hide ReadBack, Cut;
    ReadBackIs(s, limit, rest);
    CutOfFront(s, |s| % 0x1_0000, limit);
    WrapTwice(|s|);
  }

  lemma WrapTwice(n: nat)
    ensures n % 0x1_0000_0000 % 0x1_0000 == n % 0x1_0000
  {
  }

  lemma ReadBackIs(s: seq<byte>, limit: nat, rest: seq<byte>)
    ensures ReadBack(s, limit, rest) == Some((Str(Cut(s[..|s| % 0x1_0000], limit)), 2 + |s| % 0x1_0000))
  {
    hide BigEndian, FromBytes, Cut, Copied;
    var c := Copied(s);
    var bs, len := BigEndian(|c|, 2) + c + rest, |s| % 0x1_0000;
    LengthField(|c|);
    WrapTwice(|s|);
    Front(BigEndian(|c|, 2), c, rest);
    assert bs[..2] == BigEndian(|c|, 2);
    assert bs[2..2 + len] == bs[2..2 + |c|][..len];
    assert c[..len] == s[..len];
  }

  lemma CutOfFront(s: seq<byte>, len: nat, limit: nat)
    requires len == |s| % 0x1_0000
    ensures Cut(s[..len], limit) == Cut(s, limit) <==>
              || |s| < 0x1_0000
              || (0 < limit && (limit < len || limit == len + 1))
  {
    if |s| < 0x1_0000 {
      assert s[..len] == s;
    }
  }

  lemma OneString(s: seq<byte>, limit: nat, rest: seq<byte>)
    requires 0 !in s
    ensures var bs := BigEndian(|Copied(s)|, 2) + Copied(s);
      && Matches("s", [Str(s)]) && PackBytes("s", [Str(s)]) == bs
      && UnpackValues("s", limit, bs + rest) == match UnpackString(limit, bs + rest)
                                                case None => None
                                                case Some((a, n)) => if |bs + rest| < n then None else Some(([a], n))
  {
    var bs := BigEndian(|Copied(s)|, 2) + Copied(s);
    hide UnpackString, BigEndian, Copied;
    assert "s"[1..] == "" && [Str(s)][1..] == [];
    assert PackItem('s', Str(s)) == bs;
    assert PackBytes("s", [Str(s)]) == bs + PackBytes("", []);
    match UnpackString(limit, bs + rest) {
      case None =>
      case Some((a, n)) =>
        if n <= |bs + rest| {
          UnpackNothing(0, (bs + rest)[n..]);
          assert [a] + [] == [a];
        }
    }
  }

  // Anywhere in a format, with any limit before it and anything behind it, a
  // string comes back, cut to its limit, and the cursor with it, exactly if it
  // is short, or of the few that wrap.
  lemma StringComesBackIff(format: string, limit: nat, args: seq<Arg>, s: seq<byte>, rest: seq<byte>)
    requires Matches(format, args) && ShortStrings(args) && 0 !in s
    ensures Matches(format + "s", args + [Str(s)])
    ensures var bs := PackBytes(format + "s", args + [Str(s)]);
      var back := ExpectedValues(format, limit, args) + [Str(Cut(s, LimitAfter(format, limit)))];
      UnpackValues(format + "s", limit, bs + rest) == Some((back, |bs|)) <==> ComesBack(s, LimitAfter(format, limit))
  {
    hide UnpackValues, PackBytes, Matches, ExpectedValues, BigEndian, UnpackString, Cut, LimitAfter, Copied;
    hide ComesBack;
    var front, item := PackBytes(format, args), BigEndian(|Copied(s)|, 2) + Copied(s);
    var last := LimitAfter(format, limit);
    OneString(s, last, rest);
    PackConcat(format, args, "s", [Str(s)]);
    RoundTrip(format, limit, args, item + rest);
    assert PackBytes(format + "s", args + [Str(s)]) + rest == front + (item + rest);
    UnpackConcat(format, "s", limit, front + (item + rest), ExpectedValues(format, limit, args), |front|);
    assert (front + (item + rest))[|front|..] == item + rest;
    StringReadBackIff(s, last, rest);
    ReadBackFits(s, last, rest);
    LastValue(ExpectedValues(format, limit, args), ReadBack(s, last, rest).value.0, Str(Cut(s, last)));
  }

  lemma LastValue(vs: seq<Arg>, a: Arg, b: Arg)
    ensures vs + [a] == vs + [b] <==> a == b
  {
    assert (vs + [a])[|vs|] == a && (vs + [b])[|vs|] == b;
  }

  lemma ReadBackFits(s: seq<byte>, limit: nat, rest: seq<byte>)
    requires ReadBack(s, limit, rest).Some?
    ensures ReadBack(s, limit, rest).value.1 <= |BigEndian(|Copied(s)|, 2) + Copied(s) + rest|
  {
  }

  // ----- the bytes themselves -----

  // Bytes of all ones show width and signedness of each letter.
  lemma AllOnes(c: char, n: nat, limit: nat, rest: seq<byte>)
    requires c in "cChHlLqQ"
    requires n == if c in "cC" then 1 else if c in "hH" then 2 else if c in "lL" then 4 else 8
    ensures UnpackItem(c, limit, seq(n, _ => 255 as byte) + rest) ==
            Some((Int(if c in "chlq" then -1 else Width(n) - 1), n))
  {
    var ones := seq(n, _ => 255 as byte);
    hide FromBytes, Width, Pow2, Resign, UnpackString;
    OnesValue(n);
    ResignOnes(n);
    assert (ones + rest)[..n] == ones;
  }

  lemma ResignOnes(n: nat)
    requires n > 0
    ensures Resign(Width(n) - 1, n) == -1
  {
    WidthStep(n);
    hide Width, Pow2;
  }

  lemma {:induction false} OnesValue(n: nat)
    ensures FromBytes(seq(n, _ => 255 as byte)) == Width(n) - 1
  {
    var ones := seq(n, _ => 255 as byte);
    if n > 0 {
      OnesValue(n - 1);
      WidthStep(n);
      assert ones[..n - 1] == seq(n - 1, _ => 255 as byte);
    }
  }

  // 1.0 in the three formats.
  lemma OneInF()
    ensures PackItem('f', Real(1.0)) == [0x3c, 0x00]
  {
    Ones();
    OnesBytes();
    hide Pack754, BigEndian, PackItem;
    RealItem('f', 16, 5, 2);
  }

  lemma OneInD()
    ensures PackItem('d', Real(1.0)) == [0x3f, 0x80, 0x00, 0x00]
  {
    Ones();
    OnesBytes();
    hide Pack754, BigEndian, PackItem;
    RealItem('d', 32, 8, 4);
  }

  lemma OneInG()
    ensures PackItem('g', Real(1.0)) == [0x3f, 0xf0, 0x00, 0x00, 0x00, 0x00, 0x00, 0x00]
  {
    Ones();
    OnesBytes();
    hide Pack754, BigEndian, PackItem;
    RealItem('g', 64, 11, 8);
  }

  lemma RealItem(c: char, bits: nat, expbits: nat, n: nat)
    requires IsReal(c) && bits == 8 * n && n == Size(c) && expbits == ExpBits(c)
    ensures PackItem(c, Real(1.0)) == BigEndian(Pack754(1.0, bits, expbits), n)
  {
    hide Pack754, BigEndian;
  }

  lemma OnesBytes()
    ensures BigEndian(0x3c00, 2) == [0x3c, 0x00]
    ensures BigEndian(0x3f80_0000, 4) == [0x3f, 0x80, 0x00, 0x00]
    ensures BigEndian(0x3ff0_0000_0000_0000, 8) == [0x3f, 0xf0, 0x00, 0x00, 0x00, 0x00, 0x00, 0x00]
  {
    hide BigEndian;
    TwoBytes(0x3c00);
    Halves(0x3f80_0000);
    Eighths(0x3ff0_0000_0000_0000);
  }

  lemma Eighths(i: nat)
    requires i == 0x3ff0_0000_0000_0000
    ensures BigEndian(i, 8) == [0x3f, 0xf0] + [0x00, 0x00, 0x00, 0x00, 0x00, 0x00]
  {
    var a := 0x3ff0_0000_0000;
    var b := 0x3ff0;
    ZeroByte(i, 0x3f_f000_0000_0000, 7);
    ZeroByte(0x3f_f000_0000_0000, a, 6);
    ZeroByte(a, 0x3f_f000_0000, 5);
    ZeroByte(0x3f_f000_0000, 0x3ff0_0000, 4);
    ZeroByte(0x3ff0_0000, 0x3f_f000, 3);
    ZeroByte(0x3f_f000, b, 2);
    TwoBytes(b);
    hide BigEndian;
    assert BigEndian(b, 2) == [0x3f, 0xf0];
  }

  lemma ZeroByte(i: nat, q: nat, n: nat)
    requires i == 256 * q
    ensures BigEndian(i, n + 1) == BigEndian(q, n) + [0]
  {
  }

  lemma {:induction false} LimitAppend(format: string, c: char, limit: nat)
    ensures LimitAfter(format + [c], limit) ==
            if CText.IsDigit(c) then (LimitAfter(format, limit) * 10 + (c as int - 48)) % 0x1_0000_0000 else 0
    decreases |format|
  {
    if format == "" {
      assert format + [c] == [c] && [c][1..] == "";
    } else {
      assert (format + [c])[1..] == format[1..] + [c];
      LimitAppend(format[1..], c, if TakesArg(format[0]) then 0 else NextLimit(format[0], limit));
    }
  }

  // Digits in front are read as a decimal number.
  lemma {:induction false} LimitIsDecimal(n: nat)
    requires n < 0x1_0000_0000
    ensures LimitAfter(CText.Decimal(n), 0) == n
    decreases n
  {
    var last := (n % 10 + '0' as int) as char;
    if n < 10 {
      LimitAppend("", last, 0);
      assert "" + [last] == CText.Decimal(n);
    } else {
      LimitIsDecimal(n / 10);
      LimitAppend(CText.Decimal(n / 10), last, 0);
    }
  }

  lemma {:induction false} DigitsTakeNothing(format: string)
    requires CText.AllDigits(format)
    ensures Matches(format, []) && PackBytes(format, []) == [] && ExpectedValues(format, 0, []) == []
    ensures forall limit: nat :: ExpectedValues(format, limit, []) == []
  {
    if format != "" {
      DigitsTakeNothing(format[1..]);
    }
  }

  // A number n in front of 's' lets n - 1 bytes of a longer string through.
  lemma LimitedString(n: nat, s: seq<byte>, rest: seq<byte>)
    requires n < 0x1_0000_0000 && |s| < 0x1_0000 && 0 !in s
    ensures UnpackValues(CText.Decimal(n) + "s", 0, BigEndian(|s|, 2) + s + rest) ==
            Some(([Str(if 0 < n && n < |s| then s[..n - 1] else s)], 2 + |s|))
  {
    hide UnpackValues, PackBytes, Matches, ExpectedValues, BigEndian, LimitAfter;
    var format := CText.Decimal(n);
    DigitsTakeNothing(format);
    LimitIsDecimal(n);
    StringComesBackIff(format, 0, [], s, rest);
    OneString(s, n, rest);
    PackConcat(format, [], "s", [Str(s)]);
    SmallMod(|s|, 0x1_0000_0000);
    assert Copied(s) == s;
    assert [] + (BigEndian(|s|, 2) + s) == BigEndian(|s|, 2) + s;
    assert [] + [Str(s)] == [Str(s)];
    assert [] + [Str(Cut(s, n))] == [Str(Cut(s, n))];
  }
}
