// Powers of two over the naturals and the reals, and `|` on naturals.

module Powers {

  function Pow2(n: nat): (r: nat)
    ensures r > 0
  {
    if n == 0 then 1 else 2 * Pow2(n - 1)
  }

  lemma {:induction false} Pow2Add(a: nat, b: nat)
    ensures Pow2(a + b) == Pow2(a) * Pow2(b)
  {
    if a != 0 {
      Pow2Add(a - 1, b);
      assert 2 * Pow2(a - 1) * Pow2(b) == 2 * (Pow2(a - 1) * Pow2(b));
    }
  }

  lemma {:induction false} Pow2Grows(a: nat, b: nat)
    requires a <= b
    ensures Pow2(a) <= Pow2(b)
    ensures a < b ==> 2 * Pow2(a) <= Pow2(b)
  {
    if a < b {
      Pow2Grows(a, b - 1);
    }
  }

  // 2^k for any integer k.
  function Scale(k: int): (r: real)
    ensures r > 0.0
    decreases if k < 0 then -k else k
  {
    if k == 0 then 1.0 else if k > 0 then 2.0 * Scale(k - 1) else Scale(k + 1) / 2.0
  }

  lemma ScaleStep(k: int)
    ensures Scale(k + 1) == 2.0 * Scale(k)
  {
  }

  lemma {:induction false} ScaleGrows(j: int, k: int)
    requires j < k
    ensures 2.0 * Scale(j) <= Scale(k)
    decreases k - j
  {
    ScaleStep(k - 1);
    if j + 1 < k {
      ScaleGrows(j, k - 1);
    } else {
      assert j == k - 1;
    }
  }

  lemma TwiceRight(a: real, p: real, p2: real, c: real, c2: real)
    requires a * p == c && p2 == 2.0 * p && c2 == 2.0 * c
    ensures a * p2 == c2
  {
    assert a * (2.0 * p) == 2.0 * (a * p);
  }

  lemma ScaleSumStep(j: int, n: nat)
    requires Scale(j) * Scale(n) == Scale(j + n)
    ensures Scale(j) * Scale(n + 1) == Scale(j + (n + 1))
  {
    hide Scale;
    var k := j + n;
    ScaleStep(k);
    ScaleStep(n);
    assert j + (n + 1) == k + 1;
    TwiceRight(Scale(j), Scale(n), Scale(n + 1), Scale(k), Scale(k + 1));
  }

  lemma ScaleZero(x: real)
    ensures x * Scale(0) == x
  {
  }

  lemma {:induction false} ScaleSum(j: int, n: nat)
    ensures Scale(j) * Scale(n) == Scale(j + n)
  {
    hide Scale;
    if n == 0 {
      ScaleZero(Scale(j));
    } else {
      var p: nat := n - 1;
      ScaleSum(j, p);
      ScaleSumStep(j, p);
      assert p + 1 == n;
    }
  }

  lemma {:induction false} ScaleIsPow2(n: nat)
    ensures Scale(n) == Pow2(n) as real
  {
    if n != 0 {
      ScaleIsPow2(n - 1);
    }
  }

  // Bitwise or of two naturals.
  function Or(a: nat, b: nat): nat {
    if a == 0 then b
    else if b == 0 then a
    else (if a % 2 == 1 || b % 2 == 1 then 1 else 0) + 2 * Or(a / 2, b / 2)
  }

  lemma OrUnfold(a: nat, b: nat)
    ensures Or(a, b) == (if a % 2 == 1 || b % 2 == 1 then 1 else 0) + 2 * Or(a / 2, b / 2)
  {
  }

  lemma TakeTwo(a: nat, k: nat)
    requires k > 0
    ensures a * Pow2(k) == 2 * (a * Pow2(k - 1))
  {
  }

  // Fields that do not overlap.
  lemma {:induction false} OrFields(a: nat, k: nat, b: nat)
    requires b < Pow2(k)
    ensures Or(a * Pow2(k), b) == a * Pow2(k) + b
  {
    if k == 0 {
      assert b == 0 && Or(a, 0) == a;
    } else {
      assert b / 2 < Pow2(k - 1);
      hide Or, Pow2;
      OrFields(a, k - 1, b / 2);
      TakeTwo(a, k);
      OrUnfold(a * Pow2(k), b);
    }
  }

  lemma OrOne(a: nat)
    ensures Or(a, 1) == if a % 2 == 1 then a else a + 1
  {
  }

  // The same with a factor of two taken out of both.
  lemma OrEven(a: nat, b: nat)
    ensures Or(2 * a, 2 * b) == 2 * Or(a, b)
  {
  }

  // A field of k bits that overflows by one: `|` adds one to the field above
  // it only if that is even.
  lemma {:induction false} OrCarry(a: nat, k: nat)
    ensures Or(a * Pow2(k), Pow2(k)) == (if a % 2 == 1 then a else a + 1) * Pow2(k)
  {
    if k == 0 {
      OrOne(a);
    } else {
      OrCarry(a, k - 1);
      OrEven(a * Pow2(k - 1), Pow2(k - 1));
      TakeTwo(a, k);
      TakeTwo(a + 1, k);
    }
  }

  // Division with remainder.

  lemma SmallMod(x: nat, d: nat)
    requires x < d
    ensures x % d == x && x / d == 0
  {
  }

  lemma LessTimes(a: int, b: int, c: nat)
    requires a < b
    ensures a * c + c <= b * c
  {
    assert (a + 1) * c <= b * c;
  }

  lemma QuotientUnique(q: int, r: nat, q': int, r': nat, d: nat)
    requires r < d && r' < d && q * d + r == q' * d + r'
    ensures q == q' && r == r'
  {
    if q < q' {
      LessTimes(q, q', d);
    } else if q' < q {
      LessTimes(q', q, d);
    }
  }

  lemma Divide(q: int, d: nat, r: nat)
    requires r < d
    ensures (q * d + r) / d == q && (q * d + r) % d == r
  {
    var x := q * d + r;
    assert x == x / d * d + x % d;
    QuotientUnique(q, r, x / d, x % d, d);
  }
}
