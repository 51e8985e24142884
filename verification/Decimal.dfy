/** Printing a 256-bit integer in decimal and reading it back. */
module Decimal {
  import opened Primitives
  import opened Arith
  import opened Uint256

  predicate IsDigit(c: char) {
    '0' <= c <= '9'
  }

  function DigitOf(c: char): (d: nat)
    ensures IsDigit(c) ==> d < 10
  {
    if IsDigit(c) then (c - '0') as nat else 0
  }

  function CharOf(d: nat): (c: char)
    requires d < 10
    ensures IsDigit(c) && DigitOf(c) == d
  {
    '0' + d as char
  }

  /** Digits stand for their places in "0123456789". */
  lemma DigitsInOrder(n: nat)
    requires n < 10
    ensures CharOf(n) == "0123456789"[n] && IsDigit("0123456789"[n]) && DigitOf("0123456789"[n]) == n
  {
  }

  /** Nothing else is a digit. */
  lemma OnlyTheseAreDigits(c: char)
    ensures IsDigit(c) <==> c in "0123456789"
  {
    if IsDigit(c) {
      DigitsInOrder(DigitOf(c));
      assert c == "0123456789"[DigitOf(c)];
    } else {
      forall n | 0 <= n < 10 ensures "0123456789"[n] != c {
        DigitsInOrder(n);
      }
    }
  }

  /** The number that the digits of a string spell; other characters are passed over. */
  function Spelled(s: string): nat {
    if s == "" then 0
    else if IsDigit(s[|s| - 1]) then 10 * Spelled(s[..|s| - 1]) + DigitOf(s[|s| - 1])
    else Spelled(s[..|s| - 1])
  }

  /** The digits, lowest first, of a number. */
  function FromLowest(digits: string): nat {
    if digits == "" then 0 else DigitOf(digits[0]) + 10 * FromLowest(digits[1..])
  }

  function Reversed(s: string): string {
    if s == "" then "" else Reversed(s[1..]) + [s[0]]
  }

  lemma SpelledStep(s: string, c: char)
    requires IsDigit(c)
    ensures Spelled(s + [c]) == 10 * Spelled(s) + DigitOf(c)
  {
    var t := s + [c];
    assert t[..|t| - 1] == s && t[|t| - 1] == c;
  }

  lemma LowestStep(s: string)
    requires s != ""
    ensures FromLowest(s) == DigitOf(s[0]) + 10 * FromLowest(s[1..])
  {
  }

  lemma {:induction false} ReversedFacts(s: string)
    requires forall i :: 0 <= i < |s| ==> IsDigit(s[i])
    ensures |Reversed(s)| == |s| && Spelled(Reversed(s)) == FromLowest(s)
    ensures forall i :: 0 <= i < |s| ==> IsDigit(Reversed(s)[i])
    ensures s != "" ==> Reversed(s)[0] == s[|s| - 1]
  {
    if s == "" {
      assert Reversed(s) == "";
    } else {
      LowestStep(s);
      SpelledStep(Reversed(s[1..]), s[0]);
      assert Reversed(s) == Reversed(s[1..]) + [s[0]];
      hide FromLowest, Spelled, Reversed, IsDigit, DigitOf;
      ReversedFacts(s[1..]);
      assert s[|s| - 1] == if |s| == 1 then s[0] else s[1..][|s| - 2];
    }
  }

  function Pow10(n: nat): (p: nat)
    ensures p > 0
  {
    if n == 0 then 1 else 10 * Pow10(n - 1)
  }

  lemma NextPow10(n: nat)
    ensures Pow10(n + 1) == 10 * Pow10(n)
  {
  }

  lemma {:induction false} AppendHighest(digits: string, c: char)
    ensures FromLowest(digits + [c]) == FromLowest(digits) + DigitOf(c) * Pow10(|digits|)
  {
    if digits == "" {
      assert [c][1..] == "";
    } else {
      assert (digits + [c])[1..] == digits[1..] + [c];
      AppendHighest(digits[1..], c);
      LowestStep(digits);
      LowestStep(digits + [c]);
      hide FromLowest, DigitOf;
      NextPow10(|digits| - 1);
      hide Pow10;
      Regroup(10, DigitOf(c), Pow10(|digits| - 1));
    }
  }

  /** `digits` are the lowest digits of `x`, and `n` is what is left of it. */
  ghost predicate Peeled(x: nat, digits: string, n: nat) {
    && (forall i :: 0 <= i < |digits| ==> IsDigit(digits[i]))
    && x == FromLowest(digits) + Pow10(|digits|) * n
    && (digits != "" && n == 0 ==> digits[|digits| - 1] != '0')
    && (digits == "" ==> n == x)
  }

  lemma ZeroDigit()
    ensures DigitOf('0') == 0
  {
  }

  lemma PeelOne(x: nat, digits: string, n: nat, c: char)
    requires Peeled(x, digits, n) && n > 0 && IsDigit(c) && DigitOf(c) == n % 10
    ensures Peeled(x, digits + [c], n / 10)
  {
    hide FromLowest, Pow10, DigitOf;
    AppendHighest(digits, c);
    NextPow10(|digits|);
    PeelAlgebra(FromLowest(digits), Pow10(|digits|), n / 10, DigitOf(c));
    assert n / 10 == 0 ==> DigitOf(c) != 0;
    ZeroDigit();
  }

  lemma PeelAlgebra(low: nat, p: nat, q: nat, d: nat)
    ensures low + p * (10 * q + d) == (low + d * p) + (10 * p) * q
  {
    Distribute(10 * q, d, p);
    Regroup(p, 10, q);
  }

  /** Prints a number: digits only, no leading zero, and they spell the number. */
  method Display(x: U256) returns (s: string)
    ensures Spelled(s) == Value(x) && s != ""
    ensures forall i :: 0 <= i < |s| ==> IsDigit(s[i])
    ensures |s| > 1 ==> s[0] != '0'
    ensures forall n :: 0 <= n < 10 && Value(x) == n ==> s == ["0123456789"[n]]
  {
    hide Value, Spelled, FromLowest, Pow10, DigitOf;
    ValueZero();
    ValueOfTen();
    if x == ZERO {
      SpelledZero();
      DigitsInOrder(0);
      return "0";
    }
    var digits := "";
    var n := x;
    var ten := FromU64(10);
    var cmp := Cmp(n, ZERO);
    PeelNone(Value(x));
    while cmp.Greater?
      invariant Peeled(Value(x), digits, Value(n))
      invariant cmp.Greater? <==> Value(n) > 0
      decreases Value(n)
    {
      var q := CheckedDiv(n, ten);
      var product := Mul(q.value, ten);
      ValueLess(n);
      assert Value(product) == 10 * (Value(n) / 10);
      var rem := CheckedSub(n, product);
      LowestLimb(rem.value);
      assert rem.value[0] == Value(n) % 10;
      PeelOne(Value(x), digits, Value(n), CharOf(rem.value[0]));
      digits := digits + [CharOf(rem.value[0])];
      n := q.value;
      cmp := Cmp(n, ZERO);
    }
    ReversedFacts(digits);
    s := Reversed(digits);
    NonZero(x);
    OneDigit(s, Value(x));
  }

  lemma SpelledSkips(s: string, c: char)
    requires !IsDigit(c)
    ensures Spelled(s + [c]) == Spelled(s)
  {
    var t := s + [c];
    assert t[..|t| - 1] == s && t[|t| - 1] == c;
  }

  /** Only one string of digits without a leading zero spells a number below ten. */
  lemma OneDigit(s: string, x: nat)
    requires Spelled(s) == x && s != "" && forall i :: 0 <= i < |s| ==> IsDigit(s[i])
    requires |s| > 1 ==> s[0] != '0'
    ensures forall n :: 0 <= n < 10 && x == n ==> s == ["0123456789"[n]]
  {
    if x < 10 {
      var front, c := s[..|s| - 1], s[|s| - 1];
      assert s == front + [c];
      SpelledStep(front, c);
      assert Spelled("") == 0;
      hide Spelled;
      if front != "" {
        assert front[0] == s[0];
        LeadingCounts(front);
        assert false;
      }
      DigitsInOrder(x);
      assert CharOf(DigitOf(c)) == c by { DigitsInOrder(DigitOf(c)); }
    }
  }

  lemma {:induction false} LeadingCounts(s: string)
    requires s != "" && s[0] != '0' && forall i :: 0 <= i < |s| ==> IsDigit(s[i])
    ensures Spelled(s) > 0
  {
    var front, c := s[..|s| - 1], s[|s| - 1];
    assert s == front + [c];
    SpelledStep(front, c);
    assert IsDigit(c);
    hide Spelled;
    if front != "" {
      assert front[0] == s[0];
      LeadingCounts(front);
    } else {
      assert c == s[0];
      PositiveDigit(c);
    }
  }

  lemma PositiveDigit(c: char)
    requires IsDigit(c) && c != '0'
    ensures DigitOf(c) > 0
  {
  }

  lemma SpelledZero()
    ensures Spelled("0") == 0
  {
    assert "0"[..0] == "";
  }

  lemma PeelNone(x: nat)
    ensures Peeled(x, "", x)
  {
  }

  lemma ValueOfTen()
    ensures Value(FromU64(10)) == 10
  {
    SmallValue(FromU64(10));
  }

  lemma SmallValue(x: U256)
    requires x[1] == 0 && x[2] == 0 && x[3] == 0
    ensures Value(x) == x[0]
  {
    ValueWhole(x);
    ValueStep(x, 0);
    ValueStep(x, 1);
    ValueStep(x, 2);
    ValueStep(x, 3);
  }

  lemma LowestLimb(x: U256)
    ensures Value(x) < B ==> x[0] == Value(x)
  {
    ValueSplit(x, 1);
    assert x[..1] == [x[0]] && [x[0]][..0] == [];
    assert LimbPow(1) == B && LimbPow(0) == 1;
    var high := Value(x[1..]);
    MulMonotone(if high > 0 then 1 else 0, high, B);
  }

  lemma NonZero(x: U256)
    ensures x != ZERO ==> Value(x) > 0
  {
    if Value(x) == 0 {
      ValueZero();
      ValueInjective(x, ZERO);
    }
  }

  // ---------------------------------------------------------------- reading

  /** What is left of a number in 256 bits. */
  function Wrapped(x: nat): (r: nat)
    ensures r < MOD256 && (x < MOD256 ==> r == x)
  {
    x % MOD256
  }

  /**
   * What the reading loop computes: each digit multiplies by ten modulo 2^256 and adds; the addition, not
   * the multiplication, fails on overflow.
   */
  function Read(s: string): Option<nat> {
    if s == "" then Some(0)
    else
      var c := s[|s| - 1];
      match Read(s[..|s| - 1])
      case None => None
      case Some(v) =>
        if !IsDigit(c) then Some(v)
        else if Wrapped(v * 10) + DigitOf(c) < MOD256 then Some(Wrapped(v * 10) + DigitOf(c))
        else None
  }

  /** Reads a decimal string; `None` stands for the panic of an overflowing addition. */
  method ParseU256Decimal(s: string) returns (r: Option<U256>)
    ensures r.Some? <==> Read(s).Some?
    ensures r.Some? ==> Value(r.value) == Read(s).value
    ensures forall n :: 0 <= n < 10 && s == ["0123456789"[n]] ==> r.Some? && Value(r.value) == n
  {
    hide Value;
    ValueZero();
    ValueOfTen();
    var result: U256 := ZERO;
    var ten := FromU64(10);
    for i := 0 to |s|
      invariant Read(s[..i]) == Some(Value(result))
    {
      assert s[..i + 1][..i] == s[..i];
      if IsDigit(s[i]) {
        var product := Mul(result, ten);
        SmallValue(FromU64(DigitOf(s[i])));
        var sum := CheckedAdd(product, FromU64(DigitOf(s[i])));
        if sum == None {
          NoneStays(s, i + 1);
          ReadOne(s);
          return None;
        }
        result := sum.value;
      }
    }
    assert s[..|s|] == s;
    ReadOne(s);
    return Some(result);
  }

  lemma ReadOne(s: string)
    ensures forall n :: 0 <= n < 10 && s == ["0123456789"[n]] ==> Read(s) == Some(n)
  {
    forall n | 0 <= n < 10 && s == ["0123456789"[n]] ensures Read(s) == Some(n) {
      DigitsInOrder(n);
      assert s[..0] == "" && Read("") == Some(0) && s[0] == "0123456789"[n];
    }
  }

  lemma {:induction false} NoneStays(s: string, i: nat)
    requires i <= |s| && Read(s[..i]).None?
    ensures Read(s).None?
    decreases |s| - i
  {
    if i < |s| {
      assert s[..i + 1][..i] == s[..i];
      NoneStays(s, i + 1);
    } else {
      assert s[..i] == s;
    }
  }

  /** The digit at `i` overflows the addition. */
  predicate Overflows(s: string, i: nat)
    requires i < |s|
  {
    IsDigit(s[i]) && Wrapped(10 * Spelled(s[..i])) + DigitOf(s[i]) >= MOD256
  }

  /** Exactly when reading panics, and that otherwise it gives the number that is spelled modulo 2^256. */
  lemma {:induction false} ReadIs(s: string)
    ensures Read(s).None? <==> exists i :: 0 <= i < |s| && Overflows(s, i)
    ensures Read(s).Some? ==> Read(s).value == Wrapped(Spelled(s))
  {
    if s != "" {
      var n := |s| - 1;
      var front := s[..n];
      ReadIs(front);
      forall i | 0 <= i < n ensures Overflows(front, i) <==> Overflows(s, i) {
        assert front[..i] == s[..i];
      }
      if i :| 0 <= i < n && Overflows(front, i) { assert Overflows(s, i); }
      hide Overflows;
      LastDigit(s);
    }
  }

  lemma LastDigit(s: string)
    requires s != "" && (Read(s[..|s| - 1]).Some? ==> Read(s[..|s| - 1]).value == Wrapped(Spelled(s[..|s| - 1])))
    ensures Read(s).None? <==> Read(s[..|s| - 1]).None? || Overflows(s, |s| - 1)
    ensures Read(s).Some? ==> Read(s).value == Wrapped(Spelled(s))
  {
    hide *;
    var front, c := s[..|s| - 1], s[|s| - 1];
    SpelledLast(s);
    ReadLast(s);
    OverflowsLast(s);
    TimesTenMod(Spelled(front));
    SumMod(10 * Spelled(front), DigitOf(c));
  }

  lemma OverflowsLast(s: string)
    requires s != ""
    ensures var front, c := s[..|s| - 1], s[|s| - 1];
      Overflows(s, |s| - 1) <==> IsDigit(c) && Wrapped(10 * Spelled(front)) + DigitOf(c) >= MOD256
  {
  }

  lemma SpelledLast(s: string)
    requires s != ""
    ensures var front, c := s[..|s| - 1], s[|s| - 1];
      Spelled(s) == if IsDigit(c) then 10 * Spelled(front) + DigitOf(c) else Spelled(front)
  {
  }

  lemma ReadLast(s: string)
    requires s != ""
    ensures var front, c := s[..|s| - 1], s[|s| - 1];
      Read(s) ==
        if Read(front).None? || !IsDigit(c) then Read(front)
        else if Wrapped(Read(front).value * 10) + DigitOf(c) < MOD256
        then Some(Wrapped(Read(front).value * 10) + DigitOf(c))
        else None
  {
  }

  lemma TimesTenMod(v: nat)
    ensures Wrapped(Wrapped(v) * 10) == Wrapped(10 * v)
  {
    assert v == MOD256 * (v / MOD256) + v % MOD256;
  }

  lemma SumMod(a: nat, b: nat)
    ensures Wrapped(a) + b < MOD256 ==> Wrapped(a + b) == Wrapped(a) + b
  {
    assert a == MOD256 * (a / MOD256) + a % MOD256;
  }

  /** Reading gives the number that is spelled exactly when that number is below 2^256. */
  lemma {:induction false} ReadExactIff(s: string)
    ensures Read(s) == Some(Spelled(s)) <==> Spelled(s) < MOD256
  {
    ReadIs(s);
    hide Read;
    if Spelled(s) < MOD256 {
      forall i | 0 <= i < |s| ensures !Overflows(s, i) {
        SmallNeverOverflows(s, i);
      }
    }
  }

  lemma SmallNeverOverflows(s: string, i: nat)
    requires i < |s| && Spelled(s) < MOD256
    ensures !Overflows(s, i)
  {
    SpelledGrows(s, i + 1);
    assert s[..i + 1] == s[..i] + [s[i]];
    if IsDigit(s[i]) { SpelledStep(s[..i], s[i]); }
    hide Spelled;
  }

  lemma {:induction false} SpelledGrows(s: string, i: nat)
    requires i <= |s|
    ensures Spelled(s[..i]) <= Spelled(s)
    decreases |s| - i
  {
    if i < |s| {
      assert s[..i + 1][..i] == s[..i];
      SpelledGrows(s, i + 1);
    } else {
      assert s[..i] == s;
    }
  }

  /** Too large a number is either refused with a panic or, without notice, read as another one. */
  lemma TooLarge(s: string)
    requires Spelled(s) >= MOD256
    ensures if exists i :: 0 <= i < |s| && Overflows(s, i) then Read(s).None?
      else Read(s).Some? && Read(s).value == Wrapped(Spelled(s)) != Spelled(s)
  {
    ReadIs(s);
  }

  /** The first four numbers past the range panic when they end in a digit. */
  lemma FirstTooLargePanics(s: string)
    requires MOD256 <= Spelled(s) < MOD256 + 4 && IsDigit(s[|s| - 1])
    ensures Read(s).None?
  {
    ReadIs(s);
    var n := |s| - 1;
    SpelledLast(s);
    hide Spelled, Read, DigitOf, Wrapped;
    JustTooLarge(Spelled(s[..n]), DigitOf(s[n]));
    assert Overflows(s, n);
  }

  lemma JustTooLarge(v: nat, d: nat)
    requires MOD256 <= 10 * v + d < MOD256 + 4 && d < 10
    ensures Wrapped(10 * v) + d >= MOD256
  {
    assert 10 * v < MOD256;
  }

  function OneAndZeros(n: nat): string {
    "1" + seq(n, _ => '0')
  }

  /** Ten to the power of 256 or more is read as zero. */
  lemma PowerOfTenReadAsZero(n: nat)
    requires n >= 256
    ensures Spelled(OneAndZeros(n)) == Pow10(n) >= MOD256
    ensures Read(OneAndZeros(n)) == Some(0)
  {
    var s := OneAndZeros(n);
    SpelledZeros(n);
    ReadIs(s);
    forall i | 0 <= i < |s| ensures !Overflows(s, i) {
      if i == 0 { assert s[..0] == ""; }
    }
    hide Spelled, Read, Overflows;
    MultipleOfPow2(n);
    PowersOfTen(n);
  }

  lemma {:induction false} SpelledZeros(n: nat)
    ensures Spelled(OneAndZeros(n)) == Pow10(n)
  {
    if n == 0 {
      assert OneAndZeros(0) == "1" && "1"[..0] == "";
      assert Spelled("1") == 1;
    } else {
      assert OneAndZeros(n) == OneAndZeros(n - 1) + ['0'];
      SpelledZeros(n - 1);
      SpelledStep(OneAndZeros(n - 1), '0');
      ZeroDigit();
    }
  }

  lemma MultipleOfPow2(n: nat)
    requires n >= 256
    ensures Wrapped(Pow10(n)) == 0
  {
    hide Pow10, Pow2;
    var q := TensAreEven(256);
    Pow256();
    var m := Pow10Split(256, n - 256);
    Regroup(m, q, MOD256);
    MultipleMod(m * q);
  }

  lemma MultipleMod(k: nat)
    ensures Wrapped(k * MOD256) == 0
  {
  }

  lemma {:induction false} TensAreEven(n: nat) returns (q: nat)
    ensures Pow10(n) == q * Pow2(n)
  {
    if n == 0 {
      q := 1;
    } else {
      q := TensAreEven(n - 1);
      TenTimes(q, Pow2(n - 1));
      q := 5 * q;
    }
  }

  lemma TenTimes(q: nat, p: nat)
    ensures 10 * (q * p) == (5 * q) * (2 * p)
  {
  }

  lemma {:induction false} Pow10Split(m: nat, n: nat) returns (q: nat)
    ensures Pow10(m + n) == q * Pow10(m)
  {
    if n == 0 {
      q := 1;
    } else {
      q := Pow10Split(m, n - 1);
      Regroup(10, q, Pow10(m));
      q := 10 * q;
    }
  }

  lemma PowersOfTen(n: nat)
    requires n >= 256 && Wrapped(Pow10(n)) == 0
    ensures Pow10(n) >= MOD256
  {
  }

  /** Every 256-bit integer survives being printed and read back. */
  method RoundTrip(x: U256) returns (r: Option<U256>)
    ensures r == Some(x)
  {
    var s := Display(x);
    ValueLess(x);
    ReadExactIff(s);
    r := ParseU256Decimal(s);
    ValueInjective(r.value, x);
  }
}
