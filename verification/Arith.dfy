/** Powers, division and single bits of natural numbers. */
module Arith {

  function Pow2(n: nat): (p: nat)
    ensures p > 0
  {
    if n == 0 then 1 else 2 * Pow2(n - 1)
  }

  lemma Pow2Next(n: nat)
    ensures Pow2(n + 1) == 2 * Pow2(n)
  {
  }

  lemma {:induction false} Pow2Add(m: nat, n: nat)
    ensures Pow2(m + n) == Pow2(m) * Pow2(n)
  {
    if m > 0 {
      Pow2Add(m - 1, n);
      Pow2Next(m - 1);
      Pow2Next(m - 1 + n);
      hide Pow2;
      Regroup(2, Pow2(m - 1), Pow2(n));
    }
  }

  lemma {:induction false} Pow2Monotone(m: nat, n: nat)
    requires m <= n
    ensures Pow2(m) <= Pow2(n)
  {
    if m < n { Pow2Monotone(m, n - 1); }
  }

  lemma MulMonotone(a: nat, b: nat, c: nat)
    requires a <= b
    ensures a * c <= b * c
  {
  }

  lemma Distribute(a: int, b: int, c: int)
    ensures (a + b) * c == a * c + b * c
    ensures c * (a + b) == c * a + c * b
  {
  }

  /** Multiplication is associative. */
  lemma Regroup(a: int, b: int, c: int)
    ensures a * (b * c) == (a * b) * c
    ensures a * (b * c) == b * (a * c)
  {
  }

  lemma Shuffle(a: int, b: int, c: int, d: int)
    ensures (a * b) * (c * d) == (a * d) * (b * c)
  {
    assert (a * b) * (c * d) == a * (b * (c * d));
    assert b * (c * d) == (b * c) * d;
    assert (a * d) * (b * c) == a * (d * (b * c));
  }

  /** Quotient and remainder are unique. */
  lemma DivUnique(x: nat, d: nat, q: nat, r: nat)
    requires d > 0 && x == q * d + r && r < d
    ensures x / d == q && x % d == r
  {
    var e: int := x / d - q;
    assert x == (x / d) * d + x % d;
    assert e * d == (x / d) * d - q * d;
    MultipleInside(e, d, r - x % d);
  }

  lemma MultipleInside(e: int, d: nat, m: int)
    requires d > 0 && e * d == m && -(d as int) < m < d
    ensures e == 0
  {
    assert e >= 1 ==> e * d >= d;
    assert e <= -1 ==> e * d <= -(d as int);
  }

  lemma DivDiv(x: nat, a: nat, b: nat)
    requires a > 0 && b > 0
    ensures a * b > 0 && (x / a) / b == x / (a * b)
  {
    var q1, r1 := x / a, x % a;
    var q2, r2 := q1 / b, q1 % b;
    var ab := a * b;
    DivDivParts(x, a, b, ab, q1, r1, q2, r2);
    DivUnique(x, ab, q2, r2 * a + r1);
  }

  lemma DivDivParts(x: nat, a: nat, b: nat, ab: nat, q1: nat, r1: nat, q2: nat, r2: nat)
    requires x == q1 * a + r1 && r1 < a && q1 == q2 * b + r2 && r2 < b && ab == a * b
    ensures x == q2 * ab + (r2 * a + r1) && 0 <= r2 * a + r1 < ab
  {
    assert q1 * a == q2 * b * a + r2 * a;
    assert q2 * b * a == q2 * (a * b);
    assert r2 * a <= (b - 1) * a;
    assert (b - 1) * a == a * b - a;
  }

  lemma QuotientIsSmaller(n: nat, p: nat)
    requires p > 0
    ensures n / p <= n
  {
    assert n == (n / p) * p + n % p;
    MulMonotone(1, p, n / p);
  }

  /** A multiple of twice the divisor changes the quotient by an even number. */
  lemma EvenPart(x: nat, p: nat, m: nat)
    requires p > 0
    ensures (x + p * (2 * m)) / p == x / p + 2 * m
  {
    assert x == (x / p) * p + x % p;
    Distribute(x / p, 2 * m, p);
    DivUnique(x + p * (2 * m), p, x / p + 2 * m, x % p);
  }

  /** A multiple of twice the divisor does not change whether the quotient is odd. */
  lemma LowBitsAlgebra(limb: nat, high: nat, p: nat, rest: nat, b: nat)
    requires p > 0 && b == p * (2 * rest)
    ensures ((limb + b * high) / p) % 2 == (limb / p) % 2
  {
    Reassociate(p, rest, high);
    EvenPart(limb, p, rest * high);
  }

  lemma Reassociate(p: nat, rest: nat, high: nat)
    ensures (p * (2 * rest)) * high == p * (2 * (rest * high))
  {
    assert (p * (2 * rest)) * high == p * ((2 * rest) * high);
  }

  /** Bit `k` of `x`, as a shift and a mask read it. */
  predicate HasBit(x: nat, k: nat) {
    (x / Pow2(k)) % 2 == 1
  }

  /** `x` with bit `k` set, as an inclusive or with a single bit sets it. */
  function SetBit(x: nat, k: nat): nat {
    if HasBit(x, k) then x else x + Pow2(k)
  }

  lemma HasBitHalf(x: nat, k: nat)
    ensures HasBit(x, k + 1) <==> HasBit(x / 2, k)
  {
    DivDiv(x, 2, Pow2(k));
  }

  lemma SetBitHalf(x: nat, k: nat)
    ensures SetBit(x, k + 1) == 2 * SetBit(x / 2, k) + x % 2
  {
    HasBitHalf(x, k);
  }

  /** Setting a bit sets that bit and leaves every other one alone. */
  lemma {:induction false} SetBitEffect(x: nat, k: nat, m: nat)
    ensures HasBit(SetBit(x, k), m) <==> m == k || HasBit(x, m)
    decreases k
  {
    if k == 0 {
      assert Pow2(0) == 1 && SetBit(x, 0) / 2 == x / 2;
      if m > 0 {
        HasBitHalf(x, m - 1);
        HasBitHalf(SetBit(x, 0), m - 1);
      }
    } else {
      SetBitHalf(x, k - 1);
      assert SetBit(x, k) / 2 == SetBit(x / 2, k - 1) && SetBit(x, k) % 2 == x % 2;
      if m == 0 {
        assert Pow2(0) == 1;
      } else {
        HasBitHalf(x, m - 1);
        HasBitHalf(SetBit(x, k), m - 1);
        SetBitEffect(x / 2, k - 1, m - 1);
      }
    }
  }

  lemma {:induction false} SetBitBound(x: nat, k: nat, n: nat)
    requires x < Pow2(n) && k < n
    ensures SetBit(x, k) < Pow2(n)
    decreases k
  {
    if k == 0 {
      assert Pow2(n) == 2 * Pow2(n - 1) && Pow2(0) == 1;
    } else {
      SetBitHalf(x, k - 1);
      SetBitBound(x / 2, k - 1, n - 1);
    }
  }

  /** Shifting by one place less brings the next bit in. */
  lemma HalfStep(n: nat, i: nat)
    ensures n / Pow2(i) == 2 * (n / Pow2(i + 1)) + (if HasBit(n, i) then 1 else 0)
  {
    DivDiv(n, Pow2(i), 2);
  }
}
