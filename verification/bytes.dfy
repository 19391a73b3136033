// Bytes, big-endian integers and signed reinterpretation.

module Bytes {
  import opened Powers

  newtype byte = x: int | 0 <= x < 256

  // 256^n
  function Width(n: nat): nat {
    Pow2(8 * n)
  }

  lemma WidthStep(n: nat)
    requires n > 0
    ensures Width(n) == 256 * Width(n - 1)
    ensures Width(n) == 2 * Pow2(8 * n - 1)
  {
    Pow2Add(8, 8 * (n - 1));
    assert 8 + 8 * (n - 1) == 8 * n;
    assert Pow2(8) == 256 by {
      assert Pow2(4) == 16;
      Pow2Add(4, 4);
    }
  }

  // The n low bytes of v, most significant first.
  function BigEndian(v: nat, n: nat): (r: seq<byte>)
    ensures |r| == n
  {
    if n == 0 then [] else BigEndian(v / 256, n - 1) + [(v % 256) as byte]
  }

  function FromBytes(bs: seq<byte>): nat {
    if bs == [] then 0 else 256 * FromBytes(bs[..|bs| - 1]) + bs[|bs| - 1] as nat
  }

  lemma {:induction false} FromBigEndian(v: nat, n: nat)
    ensures FromBytes(BigEndian(v, n)) == v % Width(n)
  {
    if n == 0 {
      assert v % 1 == 0;
    } else {
      FromBigEndian(v / 256, n - 1);
      assert BigEndian(v, n)[..n - 1] == BigEndian(v / 256, n - 1);
      WidthStep(n);
      LowDigit(v, Width(n - 1));
    }
  }

  lemma LowDigit(v: nat, w: nat)
    requires 0 < w
    ensures v % (256 * w) == 256 * (v / 256 % w) + v % 256
  {
    var q, d := v / 256, v % 256;
    var a, b := q / w, q % w;
    assert q == a * w + b;
    assert v == a * (256 * w) + (256 * b + d);
    Divide(a, 256 * w, 256 * b + d);
  }

  lemma {:induction false} FromBytesBound(bs: seq<byte>)
    ensures FromBytes(bs) < Width(|bs|)
  {
    if bs != [] {
      FromBytesBound(bs[..|bs| - 1]);
      WidthStep(|bs|);
    }
  }

  lemma {:induction false} ToBigEndian(bs: seq<byte>)
    ensures BigEndian(FromBytes(bs), |bs|) == bs
  {
    if bs != [] {
      ToBigEndian(bs[..|bs| - 1]);
      var v := FromBytes(bs[..|bs| - 1]);
      assert FromBytes(bs) / 256 == v && FromBytes(bs) % 256 == bs[|bs| - 1] as nat;
    }
  }

  // The n-byte two's complement integer congruent to i.
  function SignedWrap(i: int, n: nat): int
    requires n > 0
  {
    (i + Pow2(8 * n - 1)) % Width(n) - Pow2(8 * n - 1)
  }

  // How the unpacki functions turn an unsigned value into a signed one.
  function Resign(u: nat, n: nat): int
    requires n > 0
  {
    if u <= Pow2(8 * n - 1) - 1 then u else -1 - (Width(n) - 1 - u)
  }

  lemma ResignWraps(i: int, n: nat)
    requires n > 0
    ensures Resign(i % Width(n), n) == SignedWrap(i, n)
  {
    WidthStep(n);
    var h := Pow2(8 * n - 1);
    var w := Width(n);
    var q, u := i / w, i % w;
    assert i == q * w + u;
    if u < h {
      Divide(q, w, u + h);
      assert i + h == q * w + (u + h);
    } else {
      Divide(q + 1, w, u - h);
      assert i + h == (q + 1) * w + (u - h);
    }
  }

  // An integer that fits is not changed.
  lemma SignedWrapFits(i: int, n: nat)
    requires n > 0 && -(Pow2(8 * n - 1) as int) <= i < Pow2(8 * n - 1)
    ensures SignedWrap(i, n) == i
  {
    WidthStep(n);
    Divide(0, Width(n), i + Pow2(8 * n - 1));
  }

  // Each byte stands for its power of 256, the first for the highest.
  lemma {:induction false} BigEndianAt(v: nat, n: nat, k: nat)
    requires k < n
    ensures BigEndian(v, n)[k] as nat == v / Width(n - 1 - k) % 256
    decreases n
  {
    if k < n - 1 {
      BigEndianAt(v / 256, n - 1, k);
      WidthStep(n - 1 - k);
      DivideTwice(v, 256, Width(n - 2 - k));
    }
  }

  lemma DivideTwice(v: nat, a: nat, b: nat)
    requires 0 < a && 0 < b
    ensures 0 < a * b && v / a / b == v / (a * b)
  {
    var q, r := v / a, v % a;
    assert v == q * a + r;
    Quotients(q, r, a, b, q / b, q % b);
  }

  lemma Quotients(q: nat, r: nat, a: nat, b: nat, p: nat, s: nat)
    requires q == p * b + s && s < b && r < a
    ensures 0 < a * b && (q * a + r) / (a * b) == p
  {
    Spread(p, a, b, s, r);
    LessTimes(s, b, a);
    var w := a * b;
    assert w == b * a;
    Divide(p, w, s * a + r);
  }

  lemma Spread(p: nat, a: nat, b: nat, s: nat, r: nat)
    ensures (p * b + s) * a + r == p * (a * b) + (s * a + r)
  {
    assert (p * b + s) * a == p * b * a + s * a;
    assert p * b * a == p * (a * b);
  }

  // SignedWrap is the number of the n-byte range that differs from i by a
  // multiple of 256^n.
  lemma SignedWrapMeans(i: int, n: nat) returns (q: int)
    requires n > 0
    ensures -(Pow2(8 * n - 1) as int) <= SignedWrap(i, n) < Pow2(8 * n - 1)
    ensures i == q * Width(n) + SignedWrap(i, n)
  {
    WidthStep(n);
    q := (i + Pow2(8 * n - 1)) / Width(n);
  }
}
