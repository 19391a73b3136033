// pack754 and unpack754: a floating-point number to and from a bit pattern of
// sign, biased exponent and significand. The all-zero and all-one exponents
// are ordinary ones here, unlike in section 3.4 of IEEE 754-2019; only the
// all-zero pattern is special, and stands for zero. A long double is a real.

module Ieee754 {
  import opened Powers

  predicate Shape(bits: nat, expbits: nat) {
    1 <= expbits <= 31 && expbits + 2 <= bits <= 64
  }

  function SigBits(bits: nat, expbits: nat): nat
    requires Shape(bits, expbits)
  {
    bits - expbits - 1
  }

  function Bias(expbits: nat): int
    requires expbits > 0
  {
    Pow2(expbits - 1) - 1
  }

  // (1LL << n) + 0.5f is computed in single precision: the half survives only
  // while n + 2 bits fit a 24-bit significand, otherwise ties-to-even drops it.
  function Half(n: nat): real {
    if n + 2 <= 24 then 0.5 else 0.0
  }

  function Abs(f: real): real {
    if f < 0.0 then -f else f
  }

  // A 64-bit word.
  function Word(x: int): nat {
    x % Pow2(64)
  }

  // a == m * 2^k with 1 <= m < 2.
  function Normalize(a: real): (mk: (real, int))
    requires a > 0.0
    ensures 1.0 <= mk.0 < 2.0
    decreases a < 1.0, if a < 1.0 then (1.0 / a).Floor else a.Floor
  {
    if a >= 2.0 then
      var (m, k) := Normalize(a / 2.0); (m, k + 1)
    else if a < 1.0 then
      var (m, k) := (FloorOfInverse(a); Normalize(a * 2.0)); (m, k - 1)
    else (a, 0)
  }

  lemma FloorOfInverse(a: real)
    requires 0.0 < a < 1.0
    ensures 0 <= (1.0 / (a * 2.0)).Floor < (1.0 / a).Floor
  {
    var y := 1.0 / a;
    assert y * a == 1.0;
    assert y > 1.0;
    assert 1.0 / (a * 2.0) == y / 2.0;
  }

  function Scaled(x: real, n: nat): real {
    x * (Scale(n) + Half(n))
  }

  function Significand(x: real, n: nat): int {
    Scaled(x, n).Floor
  }

  function Pack754(f: real, bits: nat, expbits: nat): nat
    requires Shape(bits, expbits)
  {
    var n := SigBits(bits, expbits);
    if f == 0.0 then 0
    else
      var (m, k) := Normalize(Abs(f));
      Or(Or(Word((if f < 0.0 then 1 else 0) * Pow2(bits - 1)), Word((k + Bias(expbits)) * Pow2(n))),
         Word(Significand(m - 1.0, n)))
  }

  // m * 2^k, one doubling or halving at a time.
  function Raise(m: real, k: int): real
    decreases if k < 0 then -k else k
  {
    if k == 0 then m else if k > 0 then 2.0 * Raise(m, k - 1) else Raise(m, k + 1) / 2.0
  }

  // The value of significand k of n bits under exponent e.
  function Fraction(k: nat, n: nat): real {
    k as real / Scale(n) + 1.0
  }

  function Value(k: nat, n: nat, e: int): real {
    Raise(Fraction(k, n), e)
  }

  function Unpack754(i: nat, bits: nat, expbits: nat): real
    requires Shape(bits, expbits)
  {
    var n := SigBits(bits, expbits);
    if i == 0 then 0.0
    else
      var v := Value(i % Pow2(n), n, i / Pow2(n) % Pow2(expbits) - Bias(expbits));
      if i / Pow2(bits - 1) % 2 == 1 then -v else v
  }

  // The two normalization loops of pack754.
  method NormalForm(a: real) returns (fnorm: real, shift: int)
    requires a > 0.0
    ensures (fnorm, shift) == Normalize(a)
  {
    fnorm, shift := a, 0;
    ghost var (m, k) := Normalize(a);
    while fnorm >= 2.0
      invariant fnorm > 0.0
      invariant Normalize(fnorm) == (m, k - shift)
      decreases fnorm
    {
      fnorm := fnorm / 2.0;
      shift := shift + 1;
    }
    while fnorm < 1.0
      invariant 0.0 < fnorm < 2.0
      invariant Normalize(fnorm) == (m, k - shift)
      decreases (1.0 / fnorm).Floor
    {
      FloorOfInverse(fnorm);
      fnorm := fnorm * 2.0;
      shift := shift - 1;
    }
  }

  method Pack(f: real, bits: nat, expbits: nat) returns (r: nat)
    requires Shape(bits, expbits)
    ensures r == Pack754(f, bits, expbits)
  {
    if f == 0.0 {
      return 0;
    }
    var n := bits - expbits - 1;
    var sign := if f < 0.0 then 1 else 0;
    var fnorm, shift := NormalForm(if f < 0.0 then -f else f);
    fnorm := fnorm - 1.0;
    var significand := Truncate(fnorm, n);
    var exp := shift + (Pow2(expbits - 1) - 1);
    r := Or(Or(Word(sign * Pow2(bits - 1)), Word(exp * Pow2(n))), Word(significand));
  }

  method Truncate(fnorm: real, n: nat) returns (significand: int)
    ensures significand == Significand(fnorm, n)
  {
    ScaleIsPow2(n);
    significand := (fnorm * (Pow2(n) as real + Half(n))).Floor;
  }

  // The two exponent loops of unpack754.
  method ScaleBy(m: real, k: int) returns (result: real)
    ensures result == Raise(m, k)
  {
    result := m;
    var shift := k;
    while shift > 0
      invariant if k > 0 then 0 <= shift <= k else shift == k
      invariant result == Raise(m, k - shift)
    {
      result := result * 2.0;
      shift := shift - 1;
    }
    while shift < 0
      invariant if k < 0 then k <= shift <= 0 else shift == 0
      invariant result == Raise(m, k - shift)
    {
      result := result / 2.0;
      shift := shift + 1;
    }
  }

  method SignificandValue(k: nat, n: nat) returns (result: real)
    ensures result == Fraction(k, n)
  {
    ScaleIsPow2(n);
    result := k as real;
    result := result / Pow2(n) as real;
    result := result + 1.0;
  }

  method Unpack(i: nat, bits: nat, expbits: nat) returns (result: real)
    requires Shape(bits, expbits)
    ensures result == Unpack754(i, bits, expbits)
  {
    if i == 0 {
      return 0.0;
    }
    var n := bits - expbits - 1;
    var m := SignificandValue(i % Pow2(n), n);
    var bias := Pow2(expbits - 1) - 1;
    result := ScaleBy(m, i / Pow2(n) % Pow2(expbits) - bias);
    result := result * if i / Pow2(bits - 1) % 2 == 1 then -1.0 else 1.0;
  }

  // ----- normal forms -----

  lemma {:induction false} NormalizeUnique(m: real, k: int)
    requires 1.0 <= m < 2.0
    ensures Raise(m, k) > 0.0 && Normalize(Raise(m, k)) == (m, k)
    ensures if k < 0 then Raise(m, k) < 1.0 else Raise(m, k) >= 1.0
    decreases if k < 0 then -k else k
  {
    var a := Raise(m, k);
    if k > 0 {
      NormalizeUnique(m, k - 1);
      assert a / 2.0 == Raise(m, k - 1);
    } else if k < 0 {
      NormalizeUnique(m, k + 1);
      assert a * 2.0 == Raise(m, k + 1);
      assert k + 1 < 0 || Raise(m, k + 1) == m;
    }
  }

  lemma {:induction false} NormalizeExact(a: real)
    requires a > 0.0
    ensures a == Raise(Normalize(a).0, Normalize(a).1)
    decreases a < 1.0, if a < 1.0 then (1.0 / a).Floor else a.Floor
  {
    var (m, k) := Normalize(a);
    if a >= 2.0 {
      NormalizeExact(a / 2.0);
      RaiseStep(m, k - 1);
    } else if a < 1.0 {
      FloorOfInverse(a);
      NormalizeExact(a * 2.0);
      RaiseStep(m, k);
    }
  }

  lemma RaiseStep(m: real, k: int)
    ensures Raise(m, k + 1) == 2.0 * Raise(m, k)
  {
  }

  lemma {:induction false} RaiseIsScaled(m: real, k: int)
    ensures Raise(m, k) == m * Scale(k)
    decreases if k < 0 then -k else k
  {
    if k > 0 {
      RaiseIsScaled(m, k - 1);
      TwoOut(m, Scale(k - 1), Scale(k));
    } else if k < 0 {
      RaiseIsScaled(m, k + 1);
      TwoOut(m, Scale(k), Scale(k + 1));
    }
  }

  lemma TwoOut(m: real, p: real, p2: real)
    requires p2 == 2.0 * p
    ensures m * p2 == 2.0 * (m * p)
  {
  }

  // ----- the pattern as an integer -----

  lemma Positive(a: nat, b: nat)
    requires b > 0
    ensures a * b == 0 <==> a == 0
  {
  }

  lemma WordFits(x: nat, n: nat)
    requires x < Pow2(n) && n <= 64
    ensures Word(x) == x
  {
    Pow2Grows(n, 64);
    SmallMod(x, Pow2(64));
  }

  lemma Distribute(s: nat, p: nat, q: nat, e: nat)
    ensures (s * p + e) * q == s * (p * q) + e * q
  {
  }

  // Sign and exponent side by side, above n significand bits.
  lemma HighFields(sign: nat, exp: nat, bits: nat, expbits: nat)
    requires Shape(bits, expbits) && sign <= 1 && exp < Pow2(expbits)
    ensures Or(Word(sign * Pow2(bits - 1)), Word(exp * Pow2(SigBits(bits, expbits))))
         == (sign * Pow2(expbits) + exp) * Pow2(SigBits(bits, expbits))
  {
    var n := SigBits(bits, expbits);
    var low := exp * Pow2(n);
    assert low < Pow2(bits - 1) by {
      Pow2Add(expbits, n);
      LessTimes(exp, Pow2(expbits), Pow2(n));
    }
    assert Word(low) == low by {
      WordFits(low, bits - 1);
    }
    var top := sign * Pow2(bits - 1);
    assert Word(top) == top by {
      assert top < Pow2(bits);
      WordFits(top, bits);
    }
    OrFields(sign, bits - 1, low);
    Pow2Add(expbits, n);
    Distribute(sign, Pow2(expbits), Pow2(n), exp);
  }

  // The pattern splits into its fields again.
  lemma FieldsSplit(sign: nat, exp: nat, k: nat, p: nat, q: nat)
    requires sign <= 1 && exp < p && k < q
    ensures var i := (sign * p + exp) * q + k;
      && i < 2 * (p * q) && i % q == k && i / q % p == exp && i / (p * q) % 2 == sign
      && (i == 0 <==> sign == 0 && exp == 0 && k == 0)
  {
    var hi := sign * p + exp;
    Divide(hi, q, k);
    Divide(sign, p, exp);
    Distribute(sign, p, q, exp);
    LessTimes(exp, p, q);
    Divide(sign, p * q, exp * q + k);
    Positive(hi, q);
    Positive(sign, p);
  }

  function Pattern(sign: nat, exp: nat, k: nat, bits: nat, expbits: nat): nat
    requires Shape(bits, expbits)
  {
    var high: nat := sign * Pow2(expbits) + exp;
    var shifted: nat := high * Pow2(SigBits(bits, expbits));
    shifted + k
  }

  lemma PatternSplit(sign: nat, exp: nat, k: nat, bits: nat, expbits: nat)
    requires Shape(bits, expbits) && sign <= 1 && exp < Pow2(expbits) && k < Pow2(SigBits(bits, expbits))
    ensures var n := SigBits(bits, expbits); var i := Pattern(sign, exp, k, bits, expbits);
      && i < Pow2(bits)
      && (i == 0 <==> sign == 0 && exp == 0 && k == 0)
      && i % Pow2(n) == k && i / Pow2(n) % Pow2(expbits) == exp && i / Pow2(bits - 1) % 2 == sign
  {
    var n := SigBits(bits, expbits);
    Pow2Add(expbits, n);
    assert expbits + n == bits - 1;
    FieldsSplit(sign, exp, k, Pow2(expbits), Pow2(n));
    assert Pow2(bits) == 2 * Pow2(bits - 1);
  }

  // What unpack754 makes of the three fields.
  lemma UnpackFields(sign: nat, exp: nat, k: nat, bits: nat, expbits: nat)
    requires Shape(bits, expbits) && sign <= 1 && exp < Pow2(expbits) && k < Pow2(SigBits(bits, expbits))
    requires sign != 0 || exp != 0 || k != 0
    ensures var v := Value(k, SigBits(bits, expbits), exp - Bias(expbits));
      Unpack754(Pattern(sign, exp, k, bits, expbits), bits, expbits) == if sign == 1 then -v else v
  {
    PatternSplit(sign, exp, k, bits, expbits);
  }

  // ----- the theorems -----

  // What pack754 puts into the fields, for an exponent that fits.
  predicate InRange(f: real, expbits: nat)
    requires expbits > 0
  {
    f != 0.0 && 0 <= Normalize(Abs(f)).1 + Bias(expbits) < Pow2(expbits)
  }

  lemma PartOf(x: real, y: real)
    requires 0.0 <= x < 1.0 && 0.0 < y
    ensures 0.0 <= x * y < y
  {
  }

  lemma ScaledBounds(x: real, n: nat)
    requires 0.0 <= x < 1.0
    ensures 0.0 <= Scaled(x, n) < Scale(n) + 0.5
    ensures x * Scale(n) <= Scaled(x, n) < x * Scale(n) + 0.5
  {
    Spread(x, Scale(n), Half(n));
  }

  lemma SignificandBounds(x: real, n: nat)
    requires 0.0 <= x < 1.0
    ensures 0 <= Significand(x, n) <= Pow2(n)
    ensures x * Scale(n) - 1.0 < Significand(x, n) as real < x * Scale(n) + 0.5
    ensures Significand(x, n) == Pow2(n) ==> Scale(n) <= Scaled(x, n)
  {
    ScaledBounds(x, n);
    ScaleIsPow2(n);
    FloorBetween(Scaled(x, n), x * Scale(n), Pow2(n));
  }

  lemma FloorBetween(y: real, z: real, top: nat)
    requires 0.0 <= y < top as real + 0.5 && z <= y < z + 0.5
    ensures 0 <= y.Floor <= top
    ensures z - 1.0 < y.Floor as real < z + 0.5
    ensures y.Floor == top ==> top as real <= y
  {
  }

  lemma Spread(x: real, p: real, h: real)
    requires 0.0 <= x < 1.0 && 0.0 < p && 0.0 <= h <= 0.5
    ensures x * p <= x * (p + h) < x * p + 0.5
    ensures 0.0 <= x * (p + h) < p + 0.5
  {
    assert x * (p + h) == x * p + x * h;
    if h > 0.0 {
      PartOf(x, h);
    }
    PartOf(x, p);
  }

  // Without overflow of the significand the pattern is the three fields; an
  // overflowing significand is or-ed into the exponent.
  lemma PackFields(f: real, bits: nat, expbits: nat)
    requires Shape(bits, expbits) && InRange(f, expbits)
    ensures var n := SigBits(bits, expbits); var (m, k) := Normalize(Abs(f));
      var sign := if f < 0.0 then 1 else 0; var exp := k + Bias(expbits); var sig := Significand(m - 1.0, n);
      && 0 <= sig <= Pow2(n)
      && (sig < Pow2(n) ==> Pack754(f, bits, expbits) == Pattern(sign, exp, sig, bits, expbits))
      && (sig == Pow2(n) && exp % 2 == 1 ==> Pack754(f, bits, expbits) == Pattern(sign, exp, 0, bits, expbits))
      && (sig == Pow2(n) && exp % 2 == 0 ==>
            exp + 1 < Pow2(expbits) && Pack754(f, bits, expbits) == Pattern(sign, exp + 1, 0, bits, expbits))
  {
    var n := SigBits(bits, expbits);
    var (m, k) := Normalize(Abs(f));
    var sign := if f < 0.0 then 1 else 0;
    SignificandBounds(m - 1.0, n);
    var sig := Significand(m - 1.0, n);
    var exp := k + Bias(expbits);
    PatternOr(sign, exp, sig, bits, expbits);
  }

  lemma PatternOr(sign: nat, exp: nat, sig: nat, bits: nat, expbits: nat)
    requires Shape(bits, expbits) && sign <= 1 && exp < Pow2(expbits) && sig <= Pow2(SigBits(bits, expbits))
    ensures var n := SigBits(bits, expbits);
      var r := Or(Or(Word(sign * Pow2(bits - 1)), Word(exp * Pow2(n))), Word(sig));
      && (sig < Pow2(n) ==> r == Pattern(sign, exp, sig, bits, expbits))
      && (sig == Pow2(n) && exp % 2 == 1 ==> r == Pattern(sign, exp, 0, bits, expbits))
      && (sig == Pow2(n) && exp % 2 == 0 ==>
            exp + 1 < Pow2(expbits) && r == Pattern(sign, exp + 1, 0, bits, expbits))
  {
    hide Or, Word, Pow2;
    var n := SigBits(bits, expbits);
    var hi := sign * Pow2(expbits) + exp;
    HighFields(sign, exp, bits, expbits);
    WordOfSignificand(sig, n);
    OrAbove(hi, n, sig);
    EvenHigh(sign, exp, expbits);
  }

  lemma WordOfSignificand(sig: nat, n: nat)
    requires n < 63 && sig <= Pow2(n)
    ensures Word(sig) == sig
  {
    hide Word, Pow2;
    Pow2Grows(n, 63);
    Pow2Grows(63, 64);
    WordFits(sig, 64);
  }

  lemma EvenHigh(sign: nat, exp: nat, expbits: nat)
    requires 0 < expbits && exp < Pow2(expbits)
    ensures (sign * Pow2(expbits) + exp) % 2 == exp % 2
    ensures exp % 2 == 0 ==> exp + 1 < Pow2(expbits)
  {
    assert Pow2(expbits) == 2 * Pow2(expbits - 1);
    hide Pow2;
    EvenTimes(sign, Pow2(expbits - 1), exp);
  }

  lemma OrAbove(hi: nat, n: nat, sig: nat)
    requires sig <= Pow2(n)
    ensures Or(hi * Pow2(n), sig) == if sig < Pow2(n) then hi * Pow2(n) + sig
                                     else if hi % 2 == 1 then hi * Pow2(n) else (hi + 1) * Pow2(n)
  {
    hide Or, Pow2;
    if sig < Pow2(n) {
      OrFields(hi, n, sig);
    } else {
      OrCarry(hi, n);
    }
  }

  lemma EvenTimes(s: nat, p: nat, e: nat)
    ensures (s * (2 * p) + e) % 2 == e % 2
  {
    assert s * (2 * p) == 2 * (s * p);
  }

  // Every pattern survives unpacking and packing, whatever its exponent field.
  lemma PatternIdentity(i: nat, bits: nat, expbits: nat)
    requires Shape(bits, expbits) && i < Pow2(bits)
    ensures Pack754(Unpack754(i, bits, expbits), bits, expbits) == i
  {
    hide Normalize, Value, Significand, Pow2, Pattern;
    if i != 0 {
      var sign, exp, k := FieldsOf(i, bits, expbits);
      UnpackFields(sign, exp, k, bits, expbits);
      ValueFields(k, SigBits(bits, expbits), exp - Bias(expbits));
      hide Unpack754, Pack754;
      PackFields(Unpack754(i, bits, expbits), bits, expbits);
    }
  }

  lemma ValueFields(k: nat, n: nat, e: int)
    requires k < Pow2(n)
    ensures Value(k, n, e) > 0.0
    ensures var (m, shift) := Normalize(Value(k, n, e));
      shift == e && Significand(m - 1.0, n) == k
  {
    FractionBounds(k, n);
    NormalizeUnique(Fraction(k, n), e);
    SignificandExact(k, n);
  }

  lemma FieldsOf(i: nat, bits: nat, expbits: nat) returns (sign: nat, exp: nat, k: nat)
    requires Shape(bits, expbits) && 0 < i < Pow2(bits)
    ensures sign <= 1 && exp < Pow2(expbits) && k < Pow2(SigBits(bits, expbits))
    ensures sign != 0 || exp != 0 || k != 0
    ensures i == Pattern(sign, exp, k, bits, expbits)
  {
    var n := SigBits(bits, expbits);
    Pow2Add(expbits, n);
    assert expbits + n == bits - 1;
    assert Pow2(bits) == 2 * Pow2(bits - 1);
    sign, exp, k := SplitOff(i, Pow2(expbits), Pow2(n));
    hide Pow2;
    TopBit(sign, exp, k, Pow2(expbits), Pow2(n));
    PatternSplit(sign, exp, k, bits, expbits);
  }

  lemma SplitOff(i: nat, p: nat, q: nat) returns (sign: nat, exp: nat, k: nat)
    requires 0 < p && 0 < q
    ensures exp < p && k < q
    ensures i == (sign * p + exp) * q + k
  {
    var hi := i / q;
    Euclid(i, q);
    Euclid(hi, p);
    sign, exp, k := hi / p, hi % p, i % q;
  }

  lemma TopBit(sign: nat, exp: nat, k: nat, p: nat, q: nat)
    requires 0 < p && 0 < q
    ensures (sign * p + exp) * q + k < 2 * (p * q) ==> sign <= 1
  {
    Distribute(sign, p, q, exp);
    if sign > 1 {
      LessTimes(1, sign, p * q);
    }
  }

  lemma Euclid(x: nat, d: nat)
    requires 0 < d
    ensures x == x / d * d + x % d && x % d < d && x / d >= 0
  {
  }

  lemma FractionBounds(k: nat, n: nat)
    requires k < Pow2(n)
    ensures 1.0 <= Fraction(k, n) < 2.0
    ensures (Fraction(k, n) - 1.0) * Scale(n) == k as real
  {
    ScaleIsPow2(n);
    Quotient(k as real, Scale(n));
  }

  lemma Quotient(a: real, p: real)
    requires 0.0 <= a < p
    ensures 0.0 <= a / p < 1.0 && a / p * p == a
  {
  }

  // The half added to the scale never reaches the next integer.
  lemma SignificandExact(k: nat, n: nat)
    requires k < Pow2(n)
    ensures Significand(Fraction(k, n) - 1.0, n) == k
  {
    FractionBounds(k, n);
    SignificandBounds(Fraction(k, n) - 1.0, n);
  }

  // f in scientific form, and the spacing of the patterns around it.
  lemma Anatomy(f: real, n: nat) returns (m: real, k: int, step: real)
    requires f != 0.0
    ensures (m, k) == Normalize(Abs(f)) && 1.0 <= m < 2.0
    ensures step == Scale(k - n) && 0.0 < step
    ensures Scale(k) == step * Scale(n)
    ensures Abs(f) == m * Scale(k)
  {
    hide Normalize, Raise, Scale;
    m, k := Normalize(Abs(f)).0, Normalize(Abs(f)).1;
    step := Scale(k - n);
    StepOf(k, n);
    NormalizeExact(Abs(f));
    RaiseIsScaled(m, k);
  }

  lemma StepOf(k: int, n: nat)
    ensures Scale(k) == Scale(k - n) * Scale(n)
  {
    hide Scale;
    ScaleSum(k - n, n);
    assert k - n + n == k;
  }

  lemma Regroup(a: real, p: real, step: real, scale: real)
    requires scale == step * p
    ensures a * scale == (a * p) * step
  {
  }

  lemma Factor(x: real, y: real, step: real)
    ensures x * step - y * step == (x - y) * step
  {
  }

  lemma AtLeastStep(d: real, step: real)
    requires 1.0 <= d && 0.0 < step
    ensures d * step >= step
  {
    assert (d - 1.0) * step >= 0.0;
  }

  lemma WithinPositive(d: real, step: real, ds: real)
    requires 0.0 <= d && 0.0 < step && ds == d * step
    ensures 0.0 <= ds && (d < 1.0 <==> ds < step)
  {
    if d >= 1.0 {
      AtLeastStep(d, step);
    } else {
      PartOf(d, step);
    }
  }

  lemma Negated(d: real, step: real, ds: real)
    requires ds == d * step
    ensures -ds == -d * step
  {
  }

  lemma Within(d: real, step: real, ds: real)
    requires 0.0 < step && ds == d * step
    ensures -1.0 < d < 1.0 <==> Abs(ds) < step
  {
    if d >= 0.0 {
      WithinPositive(d, step, ds);
    } else {
      Negated(d, step, ds);
      WithinPositive(-d, step, -ds);
    }
  }

  // The distance from a significand a to a significand b, both under the same
  // exponent, in units of the last place.
  lemma Distance(a: real, b: real, p: real, step: real, scale: real)
    requires scale == step * p && 0.0 < step
    ensures Abs(a * scale - b * scale) < step <==> -1.0 < a * p - b * p < 1.0
  {
    Regroup(a, p, step, scale);
    Regroup(b, p, step, scale);
    Units(a * p, b * p, step, a * scale, b * scale);
  }

  lemma Units(x: real, y: real, step: real, xs: real, ys: real)
    requires 0.0 < step && xs == x * step && ys == y * step
    ensures Abs(xs - ys) < step <==> -1.0 < x - y < 1.0
  {
    Factor(x, y, step);
    Within(x - y, step, xs - ys);
  }

  // An overflowing significand is or-ed into an odd exponent and lost there.
  predicate LostCarry(f: real, bits: nat, expbits: nat)
    requires Shape(bits, expbits) && f != 0.0
  {
    var (m, k) := Normalize(Abs(f));
    Significand(m - 1.0, SigBits(bits, expbits)) == Pow2(SigBits(bits, expbits))
    && (k + Bias(expbits)) % 2 == 1
  }

  // The smallest positive number has the pattern of zero.
  predicate LooksZero(f: real, bits: nat, expbits: nat)
    requires Shape(bits, expbits) && f != 0.0
  {
    var (m, k) := Normalize(Abs(f));
    f > 0.0 && k + Bias(expbits) == 0 && Significand(m - 1.0, SigBits(bits, expbits)) == 0
  }

  // The fields that pack754 leaves in the pattern.
  lemma FieldsBack(f: real, bits: nat, expbits: nat) returns (sign: nat, exp: nat, sig: nat)
    requires Shape(bits, expbits) && InRange(f, expbits)
    ensures sign == (if f < 0.0 then 1 else 0) && exp < Pow2(expbits) && sig < Pow2(SigBits(bits, expbits))
    ensures Pack754(f, bits, expbits) == Pattern(sign, exp, sig, bits, expbits)
    ensures var n := SigBits(bits, expbits); var (m, k) := Normalize(Abs(f));
      var s := Significand(m - 1.0, n); var e := k + Bias(expbits);
      && 0 <= s <= Pow2(n)
      && (s < Pow2(n) ==> exp == e && sig == s)
      && (s == Pow2(n) ==> sig == 0 && exp == if LostCarry(f, bits, expbits) then e else e + 1)
    ensures LooksZero(f, bits, expbits) <==> sign == 0 && exp == 0 && sig == 0
  {
    hide Normalize, Significand, Pattern, Pack754, Pow2, Bias, SigBits;
    var n := SigBits(bits, expbits);
    var (m, k) := Normalize(Abs(f));
    var s, e := Significand(m - 1.0, n), k + Bias(expbits);
    PackFields(f, bits, expbits);
    sign := if f < 0.0 then 1 else 0;
    if s < Pow2(n) {
      exp, sig := e, s;
    } else {
      exp, sig := if e % 2 == 1 then e else e + 1, 0;
    }
  }

  // Significand sig under exponent k' is a significand a under exponent k,
  // where k' is k or, after a carry, k + 1.
  lemma SameExponent(sig: nat, n: nat, k': int, k: int) returns (a: real, ap: real, v: real)
    requires sig < Pow2(n) && (k' == k || (k' == k + 1 && sig == 0))
    ensures v == Value(sig, n, k') && v == a * Scale(k) && ap == a * Scale(n)
    ensures ap == if k' == k then sig as real + Scale(n) else 2.0 * Scale(n)
  {
    FractionSum(sig, n);
    if k' == k {
      a, ap := Fraction(sig, n), sig as real + Scale(n);
      v := Raise(a, k);
      RaiseIsScaled(a, k);
    } else {
      a, ap := 2.0, 2.0 * Scale(n);
      FractionZero(n);
      RaiseStep(1.0, k);
      RaiseIsScaled(1.0, k);
      v := Raise(1.0, k + 1);
    }
  }

  lemma FractionZero(n: nat)
    ensures Fraction(0, n) == 1.0
  {
  }

  lemma FractionSum(k: nat, n: nat)
    requires k < Pow2(n)
    ensures Fraction(k, n) * Scale(n) == k as real + Scale(n) && Fraction(k, n) > 0.0
  {
    FractionBounds(k, n);
    var a := Fraction(k, n);
    assert a * Scale(n) == (a - 1.0) * Scale(n) + Scale(n);
  }

  // z is the fraction of f in units of the last place, back that of the result.
  lemma Judge(s: int, z: real, p: real, scaled: real, lost: bool, back: real)
    requires 0 <= s && 2.0 <= p && 0.0 <= z < p && z - 1.0 < s as real < z + 0.5
    requires s as real <= p && scaled < z + 0.5 && (s as real == p ==> p <= scaled)
    requires lost ==> s as real == p
    requires back == if s as real < p then s as real + p else if lost then p else 2.0 * p
    ensures -1.0 < back - (z + p) < 1.0 <==> !lost
  {
  }

  lemma MinusOne(m: real, p: real)
    ensures m * p == (m - 1.0) * p + p
  {
  }

  lemma FlipSign(f: real, v: real, w: real)
    requires Abs(f) == w
    ensures Abs((if f < 0.0 then -v else v) - f) == Abs(v - w)
  {
  }

  // The distance of the result from f, measured in units of the last place:
  // z is the fraction of f and back the significand of the result.
  lemma Gap(f: real, n: nat, sig: nat, k': int) returns (z: real, back: real)
    requires f != 0.0 && sig < Pow2(n)
    requires var k := Normalize(Abs(f)).1; k' == k || (k' == k + 1 && sig == 0)
    ensures z == (Normalize(Abs(f)).0 - 1.0) * Scale(n)
    ensures var k := Normalize(Abs(f)).1;
      && back == (if k' == k then sig as real + Scale(n) else 2.0 * Scale(n))
      && (Abs(Value(sig, n, k') - Abs(f)) < Scale(k - n) <==> -1.0 < back - (z + Scale(n)) < 1.0)
  {
    hide Normalize, Scale, Fraction, Value, Pow2;
    var m, k, step := Anatomy(f, n);
    var a, ap, v := SameExponent(sig, n, k', k);
    Distance(a, m, Scale(n), step, Scale(k));
    MinusOne(m, Scale(n));
    z := (m - 1.0) * Scale(n);
    back := ap;
  }

  lemma FractionFacts(x: real, n: nat, z: real)
    requires 0.0 <= x < 1.0 && 0 < n && z == x * Scale(n)
    ensures 2.0 <= Scale(n) == Pow2(n) as real && 0.0 <= z < Scale(n)
    ensures 0 <= Significand(x, n) <= Pow2(n)
    ensures z - 1.0 < Significand(x, n) as real < z + 0.5 && Scaled(x, n) < z + 0.5
    ensures Significand(x, n) == Pow2(n) ==> Scale(n) <= Scaled(x, n)
  {
    hide Scaled, Significand, Scale;
    assert Pow2(n) >= 2;
    ScaleIsPow2(n);
    SignificandBounds(x, n);
    ScaledBounds(x, n);
    PartOf(x, Scale(n));
  }

  // The error when the pattern of f holds significand sig and exponent k'.
  lemma ErrorOf(f: real, n: nat, k': int, sig: nat, lost: bool, u: real)
    requires f != 0.0 && 0 < n && sig < Pow2(n)
    requires var (m, k) := Normalize(Abs(f)); var s := Significand(m - 1.0, n);
      && 0 <= s <= Pow2(n)
      && (s < Pow2(n) ==> k' == k && sig == s && !lost)
      && (s == Pow2(n) ==> sig == 0 && k' == if lost then k else k + 1)
    requires u == if f < 0.0 then -Value(sig, n, k') else Value(sig, n, k')
    ensures Abs(u - f) < Scale(Normalize(Abs(f)).1 - n) <==> !lost
  {
    hide Normalize, Scale, Significand, Scaled, Value;
    var x := Normalize(Abs(f)).0 - 1.0;
    var z, back := Gap(f, n, sig, k');
    FractionFacts(x, n, z);
    Judge(Significand(x, n), z, Scale(n), Scaled(x, n), lost, back);
    FlipSign(f, Value(sig, n, k'), Abs(f));
  }

  lemma ErrorOfZero(f: real, n: nat)
    requires f != 0.0 && 0 < n
    ensures !(Abs(0.0 - f) < Scale(Normalize(Abs(f)).1 - n))
  {
    hide Normalize, Scale, Significand, Scaled;
    var m, k, step := Anatomy(f, n);
    Distance(0.0, m, Scale(n), step, Scale(k));
    MinusOne(m, Scale(n));
    FractionFacts(m - 1.0, n, (m - 1.0) * Scale(n));
  }

  // The conversion is off by less than one unit in the last place exactly when
  // no carry is lost and the number does not look like zero.
  lemma ErrorBoundIff(f: real, bits: nat, expbits: nat)
    requires Shape(bits, expbits) && InRange(f, expbits)
    ensures Abs(Unpack754(Pack754(f, bits, expbits), bits, expbits) - f)
              < Scale(Normalize(Abs(f)).1 - SigBits(bits, expbits))
       <==> !LostCarry(f, bits, expbits) && !LooksZero(f, bits, expbits)
  {
    var n := SigBits(bits, expbits);
    var sign, exp, sig := FieldsBack(f, bits, expbits);
    PatternSplit(sign, exp, sig, bits, expbits);
    if LooksZero(f, bits, expbits) {
      ErrorOfZero(f, n);
    } else {
      UnpackFields(sign, exp, sig, bits, expbits);
      ErrorOf(f, n, exp - Bias(expbits), sig, LostCarry(f, bits, expbits),
              Unpack754(Pattern(sign, exp, sig, bits, expbits), bits, expbits));
    }
  }

  // The top bit is the sign, and the pattern fits its width.
  lemma SignKept(f: real, bits: nat, expbits: nat)
    requires Shape(bits, expbits) && InRange(f, expbits)
    ensures Pack754(f, bits, expbits) < Pow2(bits)
    ensures Pack754(f, bits, expbits) / Pow2(bits - 1) % 2 == if f < 0.0 then 1 else 0
  {
    var sign, exp, sig := FieldsBack(f, bits, expbits);
    PatternSplit(sign, exp, sig, bits, expbits);
  }

  // A number comes back exactly when it is the value of some pattern.
  lemma RepresentableIff(f: real, bits: nat, expbits: nat)
    requires Shape(bits, expbits) && (f == 0.0 || InRange(f, expbits))
    ensures Unpack754(Pack754(f, bits, expbits), bits, expbits) == f
       <==> exists i: nat :: i < Pow2(bits) && Unpack754(i, bits, expbits) == f
  {
    if i: nat :| i < Pow2(bits) && Unpack754(i, bits, expbits) == f {
      PatternIdentity(i, bits, expbits);
    }
    if f != 0.0 {
      SignKept(f, bits, expbits);
    }
  }

  lemma Ordered(m: real, m': real, w: real)
    requires 0.0 < w
    ensures m * w <= m' * w ==> m <= m'
  {
    if m > m' {
      assert (m - m') * w > 0.0;
    }
  }

  lemma Crossed(m: real, m': real, w: real, w': real)
    requires 1.0 <= m && 1.0 <= m' < 2.0 && 0.0 < w' && 2.0 * w' <= w
    ensures m * w > m' * w'
  {
    assert (m - 1.0) * w >= 0.0;
    assert (2.0 - m') * w' > 0.0;
  }

  lemma NormalizeMonotone(a: real, b: real)
    requires 0.0 < a <= b
    ensures var (m, k) := Normalize(a); var (m', k') := Normalize(b);
      k < k' || (k == k' && m <= m')
  {
    var (m, k) := Normalize(a);
    var (m', k') := Normalize(b);
    NormalizeExact(a);
    NormalizeExact(b);
    Lexicographic(m, k, m', k');
  }

  lemma Lexicographic(m: real, k: int, m': real, k': int)
    requires 1.0 <= m < 2.0 && 1.0 <= m' < 2.0
    ensures Raise(m, k) <= Raise(m', k') ==> k < k' || (k == k' && m <= m')
  {
    hide Scale, Raise;
    RaiseIsScaled(m, k);
    RaiseIsScaled(m', k');
    if k' < k {
      ScaleGrows(k', k);
      Crossed(m, m', Scale(k), Scale(k'));
    } else if k == k' {
      Ordered(m, m', Scale(k));
    }
  }

  lemma SignificandMonotone(x: real, y: real, n: nat)
    requires 0.0 <= x <= y < 1.0
    ensures Significand(x, n) <= Significand(y, n)
  {
    var w := Scale(n) + Half(n);
    assert (y - x) * w >= 0.0;
    assert Scaled(x, n) <= Scaled(y, n);
  }

  lemma FieldOrder(e: nat, k: nat, e': nat, k': nat, q: nat)
    requires k < q && k' < q
    ensures e * q + k <= e' * q + k' <==> e < e' || (e == e' && k <= k')
  {
    if e < e' {
      LessTimes(e, e', q);
    } else if e' < e {
      LessTimes(e', e, q);
    }
  }

  // The significand field that pack754 leaves is zero.
  predicate ZeroField(f: real, bits: nat, expbits: nat)
    requires Shape(bits, expbits) && f != 0.0
  {
    LostCarry(f, bits, expbits) || Significand(Normalize(Abs(f)).0 - 1.0, SigBits(bits, expbits)) == 0
  }

  // pack754 keeps the order of two positive numbers exactly unless the larger
  // one loses a carry and falls back behind the smaller one's significand.
  lemma PackMonotoneIff(f: real, g: real, bits: nat, expbits: nat)
    requires Shape(bits, expbits) && InRange(f, expbits) && InRange(g, expbits) && 0.0 < f <= g
    ensures Pack754(f, bits, expbits) <= Pack754(g, bits, expbits) <==>
              || !LostCarry(g, bits, expbits) || Normalize(f).1 < Normalize(g).1 || ZeroField(f, bits, expbits)
  {
    hide Normalize, Significand, Pack754, Pow2, Bias, SigBits;
    var n := SigBits(bits, expbits);
    var s, e, k := FieldsBack(f, bits, expbits);
    var s', e', k' := FieldsBack(g, bits, expbits);
    NormalizeMonotone(f, g);
    if Normalize(f).1 == Normalize(g).1 {
      SignificandMonotone(Normalize(f).0 - 1.0, Normalize(g).0 - 1.0, n);
    }
    FieldOrder(e, k, e', k', Pow2(n));
  }

  // ----- inputs on both sides of the conditions -----

  // In single precision the half is gone from 23 significand bits on, and with
  // it every carry: the 32- and 64-bit shapes keep the order of all positive
  // numbers.
  lemma WideNeverCarries(f: real, bits: nat, expbits: nat)
    requires Shape(bits, expbits) && 23 <= SigBits(bits, expbits) && f != 0.0
    ensures !LostCarry(f, bits, expbits)
  {
    hide Normalize, Significand, Pow2, Bias;
    SignificandBelow(Normalize(Abs(f)).0 - 1.0, SigBits(bits, expbits));
  }

  lemma SignificandBelow(x: real, n: nat)
    requires x < 1.0 && 23 <= n
    ensures Significand(x, n) < Pow2(n)
  {
    hide Scale, Pow2;
    ScaleIsPow2(n);
    LessThanWhole(x, Scale(n));
    assert Scaled(x, n) == x * Scale(n);
  }

  lemma LessThanWhole(x: real, p: real)
    requires x < 1.0 && 0.0 < p
    ensures x * p < p
  {
    assert (1.0 - x) * p > 0.0;
  }

  lemma WideMonotone(f: real, g: real, bits: nat, expbits: nat)
    requires Shape(bits, expbits) && 23 <= SigBits(bits, expbits)
    requires InRange(f, expbits) && InRange(g, expbits) && 0.0 < f <= g
    ensures Pack754(f, bits, expbits) <= Pack754(g, bits, expbits)
  {
    hide Normalize, Pack754, LostCarry, ZeroField;
    WideNeverCarries(g, bits, expbits);
    PackMonotoneIff(f, g, bits, expbits);
  }

  lemma HalfFloat()
    ensures Pow2(10) == 1024 && Scale(10) == 1024.0 && Bias(5) == 15
  {
    assert Pow2(4) == 16;
    Pow2Add(4, 6);
    ScaleIsPow2(10);
  }

  // 1.9999 loses its carry in 16 bits, and there falls behind 1.5.
  lemma CarryIsLost()
    ensures InRange(1.9999, 5) && LostCarry(1.9999, 16, 5)
    ensures InRange(1.5, 5) && Pack754(1.9999, 16, 5) < Pack754(1.5, 16, 5)
  {
    HalfFloat();
    assert Normalize(1.9999) == (1.9999, 0) && Normalize(1.5) == (1.5, 0);
    assert Scaled(1.9999 - 1.0, 10) == 0.9999 * 1024.5 && Scaled(1.5 - 1.0, 10) == 512.25;
    assert Pow2(5) == 32;
    hide Pow2, Scale, Normalize, Scaled, Pack754;
    assert !ZeroField(1.5, 16, 5);
    PackMonotoneIff(1.5, 1.9999, 16, 5);
  }

  // The smallest positive number of any shape becomes zero.
  lemma SmallestLooksZero(bits: nat, expbits: nat) returns (f: real)
    requires Shape(bits, expbits)
    ensures 0.0 < f && InRange(f, expbits) && LooksZero(f, bits, expbits)
    ensures Pack754(f, bits, expbits) == 0 && Unpack754(Pack754(f, bits, expbits), bits, expbits) == 0.0
  {
    f := Raise(1.0, -Bias(expbits));
    RaiseIsScaled(1.0, -Bias(expbits));
    NormalizeUnique(1.0, -Bias(expbits));
    hide Raise, Normalize, Pow2, Bias, SigBits;
    assert Significand(0.0, SigBits(bits, expbits)) == 0;
    var sign, exp, sig := FieldsBack(f, bits, expbits);
  }

  // ----- the patterns themselves -----

  lemma PowersOfTwo()
    ensures Pow2(4) == 16 && Pow2(5) == 32 && Pow2(7) == 128 && Pow2(8) == 256 && Pow2(10) == 1024 && Pow2(11) == 2048
    ensures Pow2(23) == 0x80_0000 && Pow2(52) == 0x10_0000_0000_0000
  {
    assert Pow2(4) == 16;
    Pow2Add(4, 4);
    Pow2Add(4, 3);
    Pow2Add(8, 2);
    Pow2Add(8, 3);
    Pow2Add(10, 10);
    Pow2Add(20, 3);
    Pow2Add(23, 23);
    Pow2Add(46, 6);
    assert Pow2(6) == 64;
  }

  // The three biases.
  lemma Biases()
    ensures Bias(5) == 15 && Bias(8) == 127 && Bias(11) == 1023
  {
    PowersOfTwo();
  }

  // A power of two has its exponent's pattern alone.
  lemma PatternOfOne(bits: nat, expbits: nat)
    requires Shape(bits, expbits) && 0 <= Bias(expbits) < Pow2(expbits)
    ensures Pack754(1.0, bits, expbits) == Bias(expbits) * Pow2(SigBits(bits, expbits))
  {
    var n := SigBits(bits, expbits);
    assert Normalize(1.0) == (1.0, 0);
    assert Significand(0.0, n) == 0;
    hide Pow2, Bias, SigBits, Significand, Normalize, Pack754;
    var sign, exp, sig := FieldsBack(1.0, bits, expbits);
    assert Pattern(0, exp, 0, bits, expbits) == exp * Pow2(n);
  }

  // 1.0 in the three shapes.
  lemma Ones()
    ensures Pack754(1.0, 16, 5) == 0x3c00 && Pack754(1.0, 32, 8) == 0x3f80_0000
    ensures Pack754(1.0, 64, 11) == 0x3ff0_0000_0000_0000
  {
    PowersOfTwo();
    Biases();
    hide Pow2, Bias, Pack754;
    PatternOfOne(16, 5);
    PatternOfOne(32, 8);
    PatternOfOne(64, 11);
  }

  // What a pattern means: sign, exponent less its bias, and significand behind
  // an implicit one.
  lemma PatternMeans(sign: nat, exp: nat, sig: nat, bits: nat, expbits: nat)
    requires Shape(bits, expbits) && sign <= 1 && exp < Pow2(expbits) && sig < Pow2(SigBits(bits, expbits))
    requires sign != 0 || exp != 0 || sig != 0
    ensures var n := bits - expbits - 1;
      var i := (sign * Pow2(expbits) + exp) * Pow2(n) + sig;
      var v := (1.0 + sig as real / Pow2(n) as real) * Scale(exp - (Pow2(expbits - 1) - 1));
      i >= 0 && Unpack754(i, bits, expbits) == if sign == 1 then -v else v
  {
    hide Unpack754, Pow2, Value;
    var n := bits - expbits - 1;
    UnpackFields(sign, exp, sig, bits, expbits);
    ValueMeans(sig, n, exp - Bias(expbits));
    PatternSum(sign, exp, sig, bits, expbits);
  }

  lemma ValueMeans(k: nat, n: nat, e: int)
    ensures Value(k, n, e) == (1.0 + k as real / Pow2(n) as real) * Scale(e)
  {
    hide Scale, Raise, Pow2;
    RaiseIsScaled(Fraction(k, n), e);
    ScaleIsPow2(n);
  }

  lemma PatternSum(sign: nat, exp: nat, sig: nat, bits: nat, expbits: nat)
    requires Shape(bits, expbits)
    ensures Pattern(sign, exp, sig, bits, expbits) == (sign * Pow2(expbits) + exp) * Pow2(bits - expbits - 1) + sig
  {
    hide Pow2;
  }

  // The half is kept exactly where 2^n and a half fit the 24 bits of a single
  // precision significand.
  lemma HalfFitsIff(n: nat)
    ensures Half(n) == 0.5 <==> 2 * Pow2(n) + 1 < Pow2(24)
    ensures Half(n) == 0.5 || Half(n) == 0.0
  {
    if n <= 22 {
      Pow2Grows(n, 22);
    } else {
      Pow2Grows(23, n);
    }
    assert Pow2(24) == 2 * Pow2(23) && Pow2(23) == 2 * Pow2(22);
    Pow2Grows(1, 22);
    assert Pow2(1) == 2;
  }
}
