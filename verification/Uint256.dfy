/** The 256-bit integer as four 64-bit limbs, least significant first, and its decimal form. */
module Uint256 {
  import opened Primitives
  import opened Arith

  const B := 0x1_0000_0000_0000_0000
  const MOD256 := 0x1_0000000000000000_0000000000000000_0000000000000000_0000000000000000

  type u64 = x: int | 0 <= x < B

  type U256 = s: seq<u64> | |s| == 4 witness [0, 0, 0, 0]

  const ZERO: U256 := [0, 0, 0, 0]

  function FromU64(x: u64): U256 {
    [x, 0, 0, 0]
  }

  function LimbPow(i: nat): (p: nat)
    ensures p > 0
  {
    if i == 0 then 1 else B * LimbPow(i - 1)
  }

  /** The number that a sequence of limbs stands for. */
  function Value(s: seq<u64>): nat {
    if s == [] then 0 else Value(s[..|s| - 1]) + s[|s| - 1] * LimbPow(|s| - 1)
  }

  lemma ValueZero()
    ensures Value([]) == 0 && Value(ZERO) == 0
  {
    ValueWhole(ZERO);
    ValueStep(ZERO, 0);
    ValueStep(ZERO, 1);
    ValueStep(ZERO, 2);
    ValueStep(ZERO, 3);
  }

  lemma NextPow(i: nat)
    ensures LimbPow(i + 1) == B * LimbPow(i)
  {
  }

  lemma Pow4()
    ensures LimbPow(4) == MOD256
  {
    assert LimbPow(1) == B && LimbPow(2) == B * B && LimbPow(3) == B * B * B;
  }

  lemma ValueStep(s: seq<u64>, i: nat)
    requires i < |s|
    ensures Value(s[..i + 1]) == Value(s[..i]) + s[i] * LimbPow(i)
  {
    assert s[..i + 1][..i] == s[..i];
  }

  lemma ValueWhole(s: U256)
    ensures s[..0] == [] && s[..4] == s && Value(s) == Value(s[..4])
  {
    assert s[..4] == s;
  }

  lemma {:induction false} ValueBound(s: seq<u64>)
    ensures Value(s) < LimbPow(|s|)
  {
    if s != [] {
      var n := |s| - 1;
      ValueBound(s[..n]);
      MulMonotone(s[n], B - 1, LimbPow(n));
      Distribute(B - 1, 1, LimbPow(n));
    }
  }

  lemma ValueLess(s: U256)
    ensures Value(s) < MOD256
  {
    ValueBound(s);
    Pow4();
  }

  lemma {:induction false} LimbPowAdd(i: nat, j: nat)
    ensures LimbPow(i + j) == LimbPow(i) * LimbPow(j)
  {
    if i > 0 {
      LimbPowAdd(i - 1, j);
      assert B * (LimbPow(i - 1) * LimbPow(j)) == (B * LimbPow(i - 1)) * LimbPow(j);
    }
  }

  lemma {:induction false} ValueSplit(s: seq<u64>, i: nat)
    requires i <= |s|
    ensures Value(s) == Value(s[..i]) + LimbPow(i) * Value(s[i..])
    decreases |s| - i
  {
    if i < |s| {
      var n := |s| - 1;
      ValueSplit(s[..n], i);
      assert s[..n][..i] == s[..i] && s[..n][i..] == s[i..][..n - i];
      LimbPowAdd(i, n - i);
      assert s[i..][n - i] == s[n];
      MoveIn(LimbPow(i), Value(s[i..n]), s[n], LimbPow(n - i));
      assert s[i..n] == s[i..][..n - i];
    } else {
      assert s[..i] == s;
    }
  }

  lemma MoveIn(p: nat, v: nat, x: nat, q: nat)
    ensures p * v + x * (p * q) == p * (v + x * q)
  {
    assert x * (p * q) == p * (x * q);
  }

  lemma {:induction false} ValueUpdate(s: seq<u64>, i: nat, x: u64)
    requires i < |s|
    ensures Value(s[i := x]) == Value(s) + (x - s[i]) * LimbPow(i)
  {
    var n := |s| - 1;
    ValueTop(s);
    ValueTop(s[i := x]);
    if i == n {
      assert s[i := x][..n] == s[..n];
      hide Value, LimbPow;
      Distribute(s[n], x - s[n], LimbPow(n));
    } else {
      assert s[i := x][..n] == s[..n][i := x];
      ValueUpdate(s[..n], i, x);
    }
  }

  lemma {:induction false} ValueInjective(a: seq<u64>, b: seq<u64>)
    requires |a| == |b| && Value(a) == Value(b)
    ensures a == b
  {
    if a != [] {
      var n := |a| - 1;
      TopLimbDecides(a, b);
      ValueInjective(a[..n], b[..n]);
      assert a == a[..n] + [a[n]] && b == b[..n] + [b[n]];
    }
  }

  /** Of two numbers of equal length, the greater top limb makes the greater number. */
  lemma TopLimbDecides(a: seq<u64>, b: seq<u64>)
    requires |a| == |b| > 0
    ensures a[|a| - 1] < b[|a| - 1] ==> Value(a) < Value(b)
    ensures a[|a| - 1] > b[|a| - 1] ==> Value(a) > Value(b)
  {
    hide Value, LimbPow;
    var n := |a| - 1;
    ValueTop(a);
    ValueTop(b);
    ValueBound(a[..n]);
    ValueBound(b[..n]);
    if a[n] < b[n] { HigherDigit(Value(a[..n]), a[n], b[n], LimbPow(n)); }
    if a[n] > b[n] { HigherDigit(Value(b[..n]), b[n], a[n], LimbPow(n)); }
  }

  lemma ValueTop(s: seq<u64>)
    requires s != []
    ensures Value(s) == Value(s[..|s| - 1]) + s[|s| - 1] * LimbPow(|s| - 1)
  {
  }

  lemma HigherDigit(low: nat, a: nat, b: nat, p: nat)
    requires low < p && a < b
    ensures low + a * p < b * p
  {
    MulMonotone(a + 1, b, p);
    Distribute(a, 1, p);
  }

  // ---------------------------------------------------------------- machine words

  function OverflowingAdd(a: u64, b: u64): (u64, bool) {
    ((a + b) % B, a + b >= B)
  }

  function OverflowingSub(a: u64, b: u64): (u64, bool) {
    ((a - b) % B, a < b)
  }

  function AsWord(b: bool): u64 {
    if b then 1 else 0
  }

  // ---------------------------------------------------------------- addition, subtraction, order

  /** The lowest `i` limbs of `r` and the carry are the sum of those of `x` and `y`. */
  ghost predicate Summed(x: U256, y: U256, i: nat, r: U256, carry: nat)
    requires i <= 4
  {
    Value(r[..i]) + carry * LimbPow(i) == Value(x[..i]) + Value(y[..i])
  }

  lemma SumStep(x: U256, y: U256, i: nat, r: U256, carry: nat, limb: u64, carry': nat)
    requires i < 4 && Summed(x, y, i, r, carry) && x[i] + y[i] + carry == limb + carry' * B
    ensures Summed(x, y, i + 1, r[i := limb], carry')
  {
    hide Value, LimbPow;
    var r' := r[i := limb];
    assert r'[..i] == r[..i];
    ValueStep(r', i);
    ValueStep(x, i);
    ValueStep(y, i);
    NextPow(i);
    CarryStep(LimbPow(i), Value(x[..i]), Value(y[..i]), Value(r[..i]), x[i], y[i], carry, limb, carry');
  }

  lemma CarryStep(p: nat, va: nat, vb: nat, vr: nat, a: u64, b: u64, carry: nat, r: u64, carry': nat)
    requires vr + carry * p == va + vb && a + b + carry == r + carry' * B
    ensures (vr + r * p) + carry' * (B * p) == (va + a * p) + (vb + b * p)
  {
    assert (a + b + carry) * p == a * p + b * p + carry * p;
    assert (r + carry' * B) * p == r * p + carry' * (B * p);
  }

  lemma SumEnds(x: U256, y: U256, r: U256, carry: nat)
    ensures Summed(x, y, 0, ZERO, 0)
    ensures Summed(x, y, 4, r, carry) ==> Value(r) + carry * MOD256 == Value(x) + Value(y)
    ensures Value(r) < MOD256
  {
    ValueWhole(r);
    ValueWhole(x);
    ValueWhole(y);
    Pow4();
    ValueLess(r);
  }

  /** The sum, or `None` exactly when it does not fit. */
  method CheckedAdd(x: U256, y: U256) returns (r: Option<U256>)
    ensures r.Some? <==> Value(x) + Value(y) < MOD256
    ensures r.Some? ==> Value(r.value) == Value(x) + Value(y)
  {
    hide Value, Summed;
    var result: U256 := ZERO;
    var carry: u64 := 0;
    SumEnds(x, y, result, carry);
    for i := 0 to 4
      invariant carry <= 1 && Summed(x, y, i, result, carry)
    {
      var (sum1, overflow1) := OverflowingAdd(x[i], y[i]);
      var (sum2, overflow2) := OverflowingAdd(sum1, carry);
      SumStep(x, y, i, result, carry, sum2, AsWord(overflow1) + AsWord(overflow2));
      result := result[i := sum2];
      carry := AsWord(overflow1) + AsWord(overflow2);
    }
    SumEnds(x, y, result, carry);
    r := if carry > 0 then None else Some(result);
  }

  /** The lowest `i` limbs of `r` are the difference of those of `x` and `y`, up to the borrow. */
  ghost predicate Subtracted(x: U256, y: U256, i: nat, r: U256, borrow: nat)
    requires i <= 4
  {
    Value(r[..i]) + Value(y[..i]) == Value(x[..i]) + borrow * LimbPow(i)
  }

  lemma SubtractStep(x: U256, y: U256, i: nat, r: U256, borrow: nat, limb: u64, borrow': nat)
    requires i < 4 && Subtracted(x, y, i, r, borrow) && x[i] + borrow' * B == y[i] + borrow + limb
    ensures Subtracted(x, y, i + 1, r[i := limb], borrow')
  {
    hide Value, LimbPow;
    var r' := r[i := limb];
    assert r'[..i] == r[..i];
    ValueStep(r', i);
    ValueStep(x, i);
    ValueStep(y, i);
    NextPow(i);
    BorrowStep(LimbPow(i), Value(x[..i]), Value(y[..i]), Value(r[..i]), x[i], y[i], borrow, limb, borrow');
  }

  lemma BorrowStep(p: nat, va: nat, vb: nat, vr: nat, a: u64, b: u64, borrow: nat, r: u64, borrow': nat)
    requires vr + vb == va + borrow * p && a + borrow' * B == b + borrow + r
    ensures (vr + r * p) + (vb + b * p) == (va + a * p) + borrow' * (B * p)
  {
    assert (a + borrow' * B) * p == a * p + borrow' * (B * p);
    assert (b + borrow + r) * p == b * p + borrow * p + r * p;
  }

  lemma SubtractEnds(x: U256, y: U256, r: U256, borrow: nat)
    ensures Subtracted(x, y, 0, ZERO, 0)
    ensures Subtracted(x, y, 4, r, borrow) ==> Value(r) + Value(y) == Value(x) + borrow * MOD256
    ensures Value(x) < MOD256 && Value(r) < MOD256
  {
    ValueWhole(r);
    ValueWhole(x);
    ValueWhole(y);
    Pow4();
    ValueLess(r);
    ValueLess(x);
  }

  /** The difference, or `None` exactly when it would be negative. */
  method CheckedSub(x: U256, y: U256) returns (r: Option<U256>)
    ensures r.Some? <==> Value(y) <= Value(x)
    ensures r.Some? ==> Value(r.value) == Value(x) - Value(y)
  {
    hide Value, Subtracted;
    var result: U256 := ZERO;
    var borrow: u64 := 0;
    SubtractEnds(x, y, result, borrow);
    for i := 0 to 4
      invariant borrow <= 1 && Subtracted(x, y, i, result, borrow)
    {
      var (diff1, overflow1) := OverflowingSub(x[i], y[i]);
      var (diff2, overflow2) := OverflowingSub(diff1, borrow);
      SubtractStep(x, y, i, result, borrow, diff2, AsWord(overflow1) + AsWord(overflow2));
      result := result[i := diff2];
      borrow := AsWord(overflow1) + AsWord(overflow2);
    }
    SubtractEnds(x, y, result, borrow);
    r := if borrow > 0 then None else Some(result);
  }

  datatype Ordering = Less | Equal | Greater

  /** The order of the numbers. */
  method Cmp(x: U256, y: U256) returns (r: Ordering)
    ensures r.Less? <==> Value(x) < Value(y)
    ensures r.Equal? <==> x == y
    ensures r.Equal? <==> Value(x) == Value(y)
    ensures r.Greater? <==> Value(x) > Value(y)
  {
    var i := 4;
    ValueWhole(x);
    ValueWhole(y);
    while i > 0
      invariant 0 <= i <= 4 && x[i..] == y[i..]
      invariant Value(x[..i]) < Value(y[..i]) <==> Value(x) < Value(y)
      invariant Value(x[..i]) > Value(y[..i]) <==> Value(x) > Value(y)
    {
      i := i - 1;
      TopLimbDecides(x[..i + 1], y[..i + 1]);
      ValueStep(x, i);
      ValueStep(y, i);
      if x[i] < y[i] { return Less; }
      if x[i] > y[i] { return Greater; }
      assert x[i..] == [x[i]] + x[i + 1..] && y[i..] == [y[i]] + y[i + 1..];
    }
    return Equal;
  }

  // ---------------------------------------------------------------- multiplication

  lemma CellStep(p: nat, v: int, carry: nat, base: int, x: nat, pi: nat, vb: int, y: u64, pj: nat, cell: u64,
      lo: u64, hi: nat)
    requires v + carry * p == base + x * pi * vb && p == pi * pj
    requires x * y + cell + carry == lo + hi * B
    ensures v + (lo - cell) * p + hi * (B * p) == base + x * pi * (vb + y * pj)
  {
    assert (x * y + cell + carry) * p == x * y * p + cell * p + carry * p;
    assert (lo + hi * B) * p == lo * p + hi * (B * p);
    assert (lo - cell) * p == lo * p - cell * p;
    assert x * pi * (vb + y * pj) == x * pi * vb + x * pi * (y * pj);
    assert x * pi * (y * pj) == x * y * (pi * pj);
  }

  lemma CellFits(x: u64, y: u64, cell: u64, carry: u64)
    ensures x * y + cell + carry < B * B
  {
    MulMonotone(x, B - 1, y);
    MulMonotone(y, B - 1, B - 1);
  }

  /** After `i` rows: the result, but for a multiple of 2^256. */
  ghost predicate RowsDone(x: U256, y: U256, i: nat, result: U256, q: nat)
    requires i <= 4
  {
    Value(result) + q * LimbPow(4) == Value(x[..i]) * Value(y)
  }

  /** After `j` cells of row `i`, which began with the value `base`. */
  ghost predicate CellsDone(x: U256, y: U256, i: nat, j: nat, result: U256, carry: nat, base: nat)
    requires i < 4 && i + j <= 4
  {
    Value(result) + carry * LimbPow(i + j) == base + x[i] * LimbPow(i) * Value(y[..j])
  }

  lemma NextCell(x: U256, y: U256, i: nat, j: nat, result: U256, carry: u64, base: nat, lo: u64, hi: nat)
    requires i < 4 && i + j < 4 && CellsDone(x, y, i, j, result, carry, base)
    requires x[i] * y[j] + result[i + j] + carry == lo + hi * B
    ensures CellsDone(x, y, i, j + 1, result[i + j := lo], hi, base)
  {
    hide Value, LimbPow;
    ValueUpdate(result, i + j, lo);
    ValueStep(y, j);
    LimbPowAdd(i, j);
    NextPow(i + j);
    CellStep(LimbPow(i + j), Value(result), carry, base, x[i], LimbPow(i), Value(y[..j]), y[j], LimbPow(j),
             result[i + j], lo, hi);
  }

  lemma FirstRow(x: U256, y: U256)
    ensures RowsDone(x, y, 0, ZERO, 0)
  {
    ValueZero();
    assert x[..0] == [];
  }

  lemma FirstCell(x: U256, y: U256, i: nat, result: U256)
    requires i < 4
    ensures CellsDone(x, y, i, 0, result, 0, Value(result))
  {
    ValueZero();
    assert y[..0] == [];
  }

  lemma NextRow(x: U256, y: U256, i: nat, before: U256, result: U256, carry: nat, q: nat)
    requires i < 4 && RowsDone(x, y, i, before, q) && CellsDone(x, y, i, 4 - i, result, carry, Value(before))
    ensures RowsDone(x, y, i + 1, result, q + carry + x[i] * Value(y[4 - i..]))
  {
    hide Value, LimbPow;
    RowDone(x, y, i, Value(result), carry, Value(before), q);
  }

  lemma LastRow(x: U256, y: U256, result: U256, q: nat)
    requires RowsDone(x, y, 4, result, q)
    ensures Value(result) == (Value(x) * Value(y)) % MOD256
  {
    ValueWhole(x);
    ValueLess(result);
    Pow4();
    hide Value, LimbPow;
    DivUnique(Value(x) * Value(y), MOD256, q, Value(result));
  }

  /** The low 256 bits of the product. Every cell fits a 128-bit intermediate. */
  method Mul(x: U256, y: U256) returns (r: U256)
    ensures Value(r) == (Value(x) * Value(y)) % MOD256
  {
    hide Value, RowsDone, CellsDone;
    var result: U256 := ZERO;
    ghost var q: nat := 0;
    FirstRow(x, y);
    for i := 0 to 4
      invariant RowsDone(x, y, i, result, q)
    {
      var carry: u64 := 0;
      ghost var before := result;
      FirstCell(x, y, i, result);
      for j := 0 to 4 - i
        invariant CellsDone(x, y, i, j, result, carry, Value(before))
      {
        CellFits(x[i], y[j], result[i + j], carry);
        var product := x[i] * y[j] + result[i + j] + carry;
        assert 0 <= product < B * B;
        NextCell(x, y, i, j, result, carry, Value(before), product % B, product / B);
        result := result[i + j := product % B];
        carry := product / B;
      }
      NextRow(x, y, i, before, result, carry, q);
      q := q + carry + x[i] * Value(y[4 - i..]);
    }
    LastRow(x, y, result, q);
    return result;
  }

  /** What a finished row leaves out lies beyond 256 bits. */
  lemma RowDone(x: U256, y: U256, i: nat, v: nat, carry: nat, base: nat, q: nat)
    requires i < 4 && base + q * LimbPow(4) == Value(x[..i]) * Value(y)
    requires v + carry * LimbPow(4) == base + x[i] * LimbPow(i) * Value(y[..4 - i])
    ensures v + (q + carry + x[i] * Value(y[4 - i..])) * LimbPow(4) == Value(x[..i + 1]) * Value(y)
  {
    var low, high := Value(y[..4 - i]), Value(y[4 - i..]);
    ValueSplit(y, 4 - i);
    LimbPowAdd(i, 4 - i);
    ValueStep(x, i);
    RowAlgebra(v, carry, base, q, Value(x[..i]), x[i], LimbPow(i), LimbPow(4 - i), low, high, Value(y));
  }

  lemma RowAlgebra(v: nat, carry: nat, base: nat, q: nat, xs: nat, xi: nat, p: nat, p': nat, low: nat, high: nat,
      y: nat)
    requires y == low + p' * high && base + q * (p * p') == xs * y
    requires v + carry * (p * p') == base + xi * p * low
    ensures v + (q + carry + xi * high) * (p * p') == (xs + xi * p) * y
  {
    var p4 := p * p';
    Distribute(xs, xi * p, y);
    Distribute(low, p' * high, xi * p);
    Shuffle(xi, p, p', high);
    Distribute(q + carry, xi * high, p4);
    Distribute(q, carry, p4);
  }

  // ---------------------------------------------------------------- bits and long division

  lemma {:induction false} Pow2Limbs(k: nat, r: nat)
    ensures Pow2(64 * k + r) == LimbPow(k) * Pow2(r)
  {
    if k > 0 {
      Pow2Limbs(k - 1, r);
      NextPow(k - 1);
      hide LimbPow, Pow2;
      Pow2Of64();
      Pow2Add(64, 64 * (k - 1) + r);
      Regroup(B, LimbPow(k - 1), Pow2(r));
    }
  }

  lemma Pow2Of64()
    ensures Pow2(64) == B
  {
    assert Pow2(8) == 256;
    Pow2Add(8, 8);
    hide Pow2;
    Pow2Add(16, 16);
    Pow2Add(32, 32);
  }

  /** Reads one bit. */
  function Bit(x: U256, pos: nat): bool
    requires pos < 256
  {
    (x[pos / 64] / Pow2(pos % 64)) % 2 == 1
  }

  lemma BitIsBit(x: U256, pos: nat)
    requires pos < 256
    ensures Bit(x, pos) <==> HasBit(Value(x), pos)
  {
    hide Value, LimbPow, Pow2;
    var k, r := pos / 64, pos % 64;
    var high := LimbAt(x, k);
    Pow2Limbs(k, r);
    DivDiv(Value(x), LimbPow(k), Pow2(r));
    LowBits(x[k], high, r);
  }

  lemma LimbAt(x: U256, k: nat) returns (high: nat)
    requires k < 4
    ensures Value(x) / LimbPow(k) == x[k] + B * high
  {
    LimbsFrom(x, k);
    var rest := x[k..];
    ValueSplit(rest, 1);
    assert rest[..1] == [x[k]] && [x[k]][..0] == [];
    high := Value(rest[1..]);
    assert LimbPow(1) == B && LimbPow(0) == 1;
  }

  lemma LimbsFrom(x: U256, k: nat)
    requires k < 4
    ensures Value(x) / LimbPow(k) == Value(x[k..])
  {
    hide Value, LimbPow;
    ValueSplit(x, k);
    ValueBound(x[..k]);
    DivUnique(Value(x), LimbPow(k), Value(x[k..]), Value(x[..k]));
  }

  /** Shifting by less than a limb, bits of higher limbs do not reach the lowest place. */
  lemma LowBits(limb: u64, high: nat, r: nat)
    requires r < 64
    ensures ((limb + B * high) / Pow2(r)) % 2 == (limb / Pow2(r)) % 2
  {
    var p, rest := Pow2(r), Pow2(63 - r);
    Pow2Of64();
    Pow2Add(r, 64 - r);
    assert Pow2(64 - r) == 2 * rest;
    LowBitsAlgebra(limb, high, p, rest, B);
  }

  /** One bit to the left; the carry that leaves the top limb is dropped. */
  method Shl1(x: U256) returns (r: U256)
    ensures Value(r) == (2 * Value(x)) % MOD256
  {
    hide Value, Summed;
    r := ZERO;
    var carry: u64 := 0;
    SumEnds(x, x, r, carry);
    for i := 0 to 4
      invariant carry <= 1 && Summed(x, x, i, r, carry)
    {
      SumStep(x, x, i, r, carry, (2 * x[i]) % B + carry, x[i] / 0x8000_0000_0000_0000);
      r := r[i := (2 * x[i]) % B + carry];
      carry := x[i] / 0x8000_0000_0000_0000;
    }
    SumEnds(x, x, r, carry);
    DivUnique(2 * Value(x), MOD256, carry, Value(r));
  }

  /** Sets one bit. */
  method SetBitAt(x: U256, pos: nat) returns (r: U256)
    requires pos < 256
    ensures Value(r) == SetBit(Value(x), pos)
  {
    var k := pos / 64;
    var limb := SetBit(x[k], pos % 64);
    LimbWithBit(x, k, pos % 64);
    assert pos == 64 * k + pos % 64;
    r := x[k := limb];
  }

  lemma LimbWithBit(x: U256, k: nat, r: nat)
    requires k < 4 && r < 64
    ensures SetBit(x[k], r) < B && Value(x[k := SetBit(x[k], r)]) == SetBit(Value(x), 64 * k + r)
  {
    hide Value, LimbPow, Pow2;
    Pow2Of64();
    SetBitBound(x[k], r, 64);
    var limb := SetBit(x[k], r);
    ValueUpdate(x, k, limb);
    BitIsBit(x, 64 * k + r);
    Pow2Limbs(k, r);
    assert (64 * k + r) / 64 == k && (64 * k + r) % 64 == r;
    if !HasBit(x[k], r) {
      assert (limb - x[k]) * LimbPow(k) == LimbPow(k) * Pow2(r);
    }
  }

  /** Sets the lowest bit of the lowest limb. */
  method SetLowest(x: U256) returns (r: U256)
    ensures Value(r) == SetBit(Value(x), 0)
  {
    r := SetBitAt(x, 0);
  }

  /** Long division, bit by bit: the integer quotient, and `None` exactly for the divisor zero. */
  method CheckedDiv(x: U256, y: U256) returns (r: Option<U256>)
    ensures r.None? <==> Value(y) == 0
    ensures r.Some? ==> Value(r.value) == Value(x) / Value(y)
  {
    hide Value, Divided, HasBit, SetBit, Bit, Pow2, LimbPow;
    ValueZero();
    ValueLess(x);
    var isZero := Cmp(y, ZERO);
    if isZero.Equal? { return None; }
    var order := Cmp(x, y);
    if order.Less? {
      QuotientOfLess(Value(x), Value(y));
      return Some(ZERO);
    }
    var quotient, remainder: U256 := ZERO, ZERO;
    ghost var q: nat := 0;
    var i := 256;
    FirstPart(Value(x), Value(y));
    while i > 0
      invariant 0 <= i <= 256
      invariant Divided(Value(x), Value(y), i, Value(quotient), Value(remainder), q)
    {
      i := i - 1;
      BitIsBit(x, i);
      NextBit(Value(x), Value(y), i, Value(quotient), Value(remainder), q);
      remainder := Shl1(remainder);
      if Bit(x, i) { remainder := SetLowest(remainder); }
      var cmp := Cmp(remainder, y);
      q := if cmp.Less? then 2 * q else 2 * q + 1;
      if !cmp.Less? {
        var reduced := CheckedSub(remainder, y);
        remainder := reduced.value;
        quotient := SetBitAt(quotient, i);
      }
    }
    LastBit(Value(x), Value(y), Value(quotient), Value(remainder), q);
    return Some(quotient);
  }

  /**
   * Bits `i` and up of the dividend have been divided: `q` times the divisor and the remainder make them
   * up, and the quotient is `q` shifted into place.
   */
  ghost predicate Divided(n: nat, d: nat, i: nat, quotient: nat, remainder: nat, q: nat) {
    && n < MOD256 && quotient == q * Pow2(i)
    && n / Pow2(i) == q * d + remainder && remainder < d
  }

  lemma NextBit(n: nat, d: nat, i: nat, quotient: nat, remainder: nat, q: nat)
    requires Divided(n, d, i + 1, quotient, remainder, q)
    ensures 2 * remainder + 1 < MOD256 && SetBit(2 * remainder, 0) == 2 * remainder + 1
    ensures var part := 2 * remainder + (if HasBit(n, i) then 1 else 0);
      if part < d then Divided(n, d, i, quotient, part, 2 * q)
      else Divided(n, d, i, SetBit(quotient, i), part - d, 2 * q + 1)
  {
    hide Pow2, HasBit, SetBit;
    HalfStep(n, i);
    PartBound(n, i, q, d, remainder);
    QuotientBit(q, i);
    EvenHasNoLowBit(remainder);
    DoubleProduct(q, d);
  }

  lemma QuotientOfLess(n: nat, d: nat)
    requires n < d
    ensures n / d == 0
  {
    DivUnique(n, d, 0, n);
  }

  lemma LastBit(n: nat, d: nat, quotient: nat, remainder: nat, q: nat)
    requires Divided(n, d, 0, quotient, remainder, q)
    ensures quotient == n / d
  {
    assert Pow2(0) == 1;
    DivUnique(n, d, q, remainder);
  }

  lemma Pow256()
    ensures Pow2(256) == MOD256
  {
    Pow2Limbs(4, 0);
    Pow4();
    assert Pow2(0) == 1;
  }

  lemma FirstPart(n: nat, d: nat)
    requires n < MOD256 && d > 0
    ensures Divided(n, d, 256, 0, 0, 0)
  {
    Pow256();
  }

  lemma DoubleProduct(q: nat, d: nat)
    ensures (2 * q) * d == 2 * (q * d) && (2 * q + 1) * d == 2 * (q * d) + d
  {
  }

  /** The doubled remainder with the next bit is a part of the dividend, so that no shift loses a bit. */
  lemma PartBound(n: nat, i: nat, q: nat, d: nat, rem: nat)
    requires n < MOD256 && n / Pow2(i + 1) == q * d + rem
    ensures 2 * rem + (if HasBit(n, i) then 1 else 0) <= n / Pow2(i) < MOD256 && 2 * rem + 1 < MOD256
  {
    hide Pow2;
    HalfStep(n, i);
    QuotientIsSmaller(n, Pow2(i));
    MulMonotone(0, q, d);
  }

  lemma EvenHasNoLowBit(r: nat)
    ensures SetBit(2 * r, 0) == 2 * r + 1
  {
    assert Pow2(0) == 1;
  }

  /** Bit `i` of a multiple of the next power is clear. */
  lemma QuotientBit(q: nat, i: nat)
    ensures q * Pow2(i + 1) == 2 * q * Pow2(i)
    ensures SetBit(q * Pow2(i + 1), i) == (2 * q + 1) * Pow2(i)
  {
    var p := Pow2(i);
    assert q * (2 * p) == (2 * q) * p;
    DivUnique(q * Pow2(i + 1), p, 2 * q, 0);
    assert (2 * q + 1) * p == 2 * q * p + p;
  }
}
