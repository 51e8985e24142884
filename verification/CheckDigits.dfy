/** Check digits: the MOD 97-10 system of ISO/IEC 7064 and the formula of ISO/IEC 7812-1, Annex B (Luhn). */
module CheckDigits {
  import opened Primitives
  import opened Arith
  import opened Decimal

  ghost predicate AllDigits(s: string) {
    forall i :: 0 <= i < |s| ==> IsDigit(s[i])
  }

  /** `v` written in front of `places` digits that spell `low`. */
  function InFront(v: nat, places: nat, low: nat): nat {
    v * Pow10(places) + low
  }

  lemma {:induction false} SpelledAppend(a: string, b: string)
    requires AllDigits(b)
    ensures Spelled(a + b) == InFront(Spelled(a), |b|, Spelled(b))
    decreases |b|
  {
    if b == "" {
      assert a + b == a;
    } else {
      var n := |b| - 1;
      assert (a + b)[..|a + b| - 1] == a + b[..n];
      SpelledAppend(a, b[..n]);
      assert a + b == (a + b[..n]) + [b[n]] && b == b[..n] + [b[n]];
      SpelledStep(a + b[..n], b[n]);
      SpelledStep(b[..n], b[n]);
      NextPow10(n);
      hide Spelled, Pow10, DigitOf;
      Regroup(10, Spelled(a), Pow10(n));
    }
  }

  // ---------------------------------------------------------------- MOD 97-10

  lemma ModStep(v: nat, p: nat, c: nat)
    ensures ((v % 97) * p + c) % 97 == (v * p + c) % 97
  {
    var q, r := v / 97, v % 97;
    assert v == 97 * q + r;
    assert (97 * q + r) * p == 97 * (q * p) + r * p;
    AddMultiple(r * p + c, q * p);
  }

  lemma AddMultiple(x: int, m: int)
    ensures (x + 97 * m) % 97 == x % 97
  {
  }

  /** A number below 100 in decimal. */
  function Short(n: nat): (s: string)
    requires n < 100
    ensures AllDigits(s) && 1 <= |s| <= 2
  {
    if n < 10 then [CharOf(n)] else [CharOf(n / 10), CharOf(n % 10)]
  }

  lemma ShortSpells(n: nat)
    requires n < 100
    ensures Spelled(Short(n)) == n
  {
    var s := Short(n);
    if n < 10 {
      assert s[..0] == "";
    } else {
      assert s[..1] == [CharOf(n / 10)] && s[..1][..0] == "";
      assert Spelled(s[..1]) == n / 10;
    }
  }

  lemma {:induction false} SpelledBound(s: string)
    ensures Spelled(s) < Pow10(|s|)
  {
    if s != "" { SpelledBound(s[..|s| - 1]); }
  }

  /** The chunk loop: seven digits at a time, the remainder so far written in front of the next chunk. */
  method Remainder97(numeric: string) returns (remainder: nat)
    requires AllDigits(numeric)
    ensures remainder == Spelled(numeric) % 97
  {
    hide *;
    remainder := 0;
    var i := 0;
    SpelledNothing();
    assert numeric[..0] == "";
    while i < |numeric|
      invariant 0 <= i <= |numeric| && remainder < 97 && remainder == Spelled(numeric[..i]) % 97
    {
      var next := if i + 7 < |numeric| then i + 7 else |numeric|;
      var chunk := numeric[i..next];
      assert numeric[..next] == numeric[..i] + chunk;
      DigitsWithin(numeric, i, next);
      ChunkStep(numeric[..i], remainder, chunk);
      var num := Spelled(Short(remainder) + chunk);
      assert num < 0x1_0000_0000_0000_0000;
      remainder := num % 97;
      i := next;
    }
    assert numeric[..i] == numeric;
  }

  lemma SpelledNothing()
    ensures Spelled("") == 0
  {
  }

  lemma DigitsWithin(s: string, i: nat, j: nat)
    requires AllDigits(s) && i <= j <= |s|
    ensures AllDigits(s[i..j])
  {
  }

  /** The number that a turn of the loop parses fits and has the remainder of all that was read. */
  lemma ChunkStep(front: string, remainder: nat, chunk: string)
    requires AllDigits(chunk) && |chunk| <= 7 && remainder == Spelled(front) % 97
    ensures remainder < 97 && Spelled(Short(remainder) + chunk) < 0x1_0000_0000_0000_0000
    ensures Spelled(Short(remainder) + chunk) % 97 == Spelled(front + chunk) % 97
  {
    hide Spelled, AllDigits, Pow10;
    ChunkFits(remainder, chunk);
    SpelledAppend(Short(remainder), chunk);
    SpelledAppend(front, chunk);
    ShortSpells(remainder);
    ModStep(Spelled(front), Pow10(|chunk|), Spelled(chunk));
  }

  /** A remainder and seven digits fit a 64-bit number. */
  lemma ChunkFits(remainder: nat, chunk: string)
    requires remainder < 97 && |chunk| <= 7
    ensures Spelled(Short(remainder) + chunk) < 0x1_0000_0000_0000_0000
  {
    SpelledBound(Short(remainder) + chunk);
    Pow10Monotone(|Short(remainder) + chunk|, 9);
    assert Pow10(9) == 1_000_000_000 by {
      assert Pow10(3) == 1000 && Pow10(6) == 1_000_000;
    }
  }

  lemma {:induction false} Pow10Monotone(m: nat, n: nat)
    requires m <= n
    ensures Pow10(m) <= Pow10(n)
  {
    if m < n { Pow10Monotone(m, n - 1); }
  }

  /** Shifting by decimal places neither makes nor removes a multiple of 97. */
  lemma {:induction false} ShiftedMultiple(m: int, k: nat)
    ensures (m * Pow10(k)) % 97 == 0 <==> m % 97 == 0
  {
    if k > 0 {
      ShiftedMultiple(m, k - 1);
      NextPow10(k - 1);
      hide Pow10;
      Regroup(m, 10, Pow10(k - 1));
      TimesTen(m * Pow10(k - 1));
    }
  }

  lemma TimesTen(y: int)
    ensures (10 * y) % 97 == 0 <==> y % 97 == 0
  {
    if (10 * y) % 97 == 0 {
      var q := 10 * y / 97;
      assert y == 97 * (68 * q - 7 * y);
    }
  }

  lemma SameRemainder(a: int, b: int)
    ensures a % 97 == b % 97 <==> (a - b) % 97 == 0
  {
  }

  // ---------------------------------------------------------------- letters as two digits

  predicate IsLetter(c: char) {
    'A' <= c <= 'Z'
  }

  predicate IsAlnum(c: char) {
    IsDigit(c) || IsLetter(c)
  }

  /** 0 to 9 for a digit, 10 to 35 for a letter. */
  function CharValue(c: char): (v: nat)
    requires IsAlnum(c)
    ensures IsDigit(c) ==> v < 10
    ensures IsLetter(c) ==> 10 <= v < 36
  {
    if IsDigit(c) then DigitOf(c) else (c - 'A') as nat + 10
  }

  function Digits(c: char): (s: string)
    requires IsAlnum(c)
    ensures AllDigits(s) && |s| == (if IsDigit(c) then 1 else 2)
  {
    if IsDigit(c) then [c] else Short(CharValue(c))
  }

  /** Digits and then letters have the values 0 to 35 in their order. */
  lemma ValuesInOrder(n: nat)
    requires n < 36
    ensures var c := "0123456789ABCDEFGHIJKLMNOPQRSTUVWXYZ"[n];
      IsAlnum(c) && (IsDigit(c) <==> n < 10) && CharValue(c) == n
  {
  }

  lemma DigitsSpell(c: char)
    requires IsAlnum(c)
    ensures Spelled(Digits(c)) == CharValue(c)
  {
    if IsDigit(c) {
      assert [c][..0] == "";
    } else {
      ShortSpells(CharValue(c));
    }
  }

  predicate AllAlnum(s: string) {
    forall i :: 0 <= i < |s| ==> IsAlnum(s[i])
  }

  /** The digits that a string of digits and capital letters stands for. */
  function Numeric(s: string): (r: string)
    requires AllAlnum(s)
    ensures AllDigits(r)
  {
    if s == "" then "" else Numeric(s[..|s| - 1]) + Digits(s[|s| - 1])
  }

  lemma NumericStep(s: string, c: char)
    requires AllAlnum(s) && IsAlnum(c)
    ensures AllAlnum(s + [c]) && Numeric(s + [c]) == Numeric(s) + Digits(c)
  {
    assert (s + [c])[..|s|] == s;
  }

  lemma NumericOfNothing()
    ensures Numeric("") == ""
  {
  }

  lemma LastOf(s: string)
    requires s != "" && AllAlnum(s)
    ensures s == s[..|s| - 1] + [s[|s| - 1]] && AllAlnum(s[..|s| - 1]) && IsAlnum(s[|s| - 1])
  {
  }

  lemma {:induction false} NumericAppend(a: string, b: string)
    requires AllAlnum(a) && AllAlnum(b)
    ensures AllAlnum(a + b) && Numeric(a + b) == Numeric(a) + Numeric(b)
    decreases |b|
  {
    hide *;
    if b == "" {
      assert a + b == a && Numeric(a) + "" == Numeric(a);
      NumericOfNothing();
    } else {
      var front, c := b[..|b| - 1], b[|b| - 1];
      LastOf(b);
      NumericAppend(a, front);
      NumericStep(a + front, c);
      NumericStep(front, c);
      assert a + b == (a + front) + [c];
    }
  }

  function Checksum(s: string): nat
    requires AllAlnum(s)
  {
    Spelled(Numeric(s)) % 97
  }

  /** Two strings that differ only in a middle part have one checksum iff the parts read alike behind the front. */
  lemma MiddlePart(before: string, x: string, y: string, after: string)
    requires AllAlnum(before) && AllAlnum(x) && AllAlnum(y) && AllAlnum(after)
    ensures AllAlnum(before + x + after) && AllAlnum(before + y + after)
    ensures var b := Spelled(Numeric(before));
      Checksum(before + x + after) == Checksum(before + y + after) <==>
        (InFront(b, |Numeric(x)|, Spelled(Numeric(x))) - InFront(b, |Numeric(y)|, Spelled(Numeric(y)))) % 97 == 0
  {
    hide Spelled, Numeric, InFront, AllAlnum, AllDigits;
    SpelledMiddle(before, x, after);
    SpelledMiddle(before, y, after);
    var b := Spelled(Numeric(before));
    MiddleDifference(InFront(b, |Numeric(x)|, Spelled(Numeric(x))), InFront(b, |Numeric(y)|, Spelled(Numeric(y))),
                     |Numeric(after)|, Spelled(Numeric(after)));
  }

  lemma MiddleDifference(u: nat, v: nat, n: nat, after: nat)
    ensures InFront(u, n, after) % 97 == InFront(v, n, after) % 97 <==> (u - v) % 97 == 0
  {
    hide *;
    ScaledDifference(u, v, n, after);
    ShiftedMultiple(u - v, n);
    SameRemainder(InFront(u, n, after), InFront(v, n, after));
  }

  lemma ScaledDifference(u: nat, v: nat, n: nat, after: nat)
    ensures InFront(u, n, after) - InFront(v, n, after) == (u - v) * Pow10(n)
  {
    hide Pow10;
    Distribute(u - v, v, Pow10(n));
  }

  lemma SpelledMiddle(before: string, x: string, after: string)
    requires AllAlnum(before) && AllAlnum(x) && AllAlnum(after)
    ensures AllAlnum(before + x + after)
    ensures Spelled(Numeric(before + x + after)) ==
      InFront(InFront(Spelled(Numeric(before)), |Numeric(x)|, Spelled(Numeric(x))), |Numeric(after)|,
              Spelled(Numeric(after)))
  {
    hide Spelled, Numeric, InFront, AllAlnum, AllDigits;
    NumericAppend(before, x);
    NumericAppend(before + x, after);
    SpelledAppend(Numeric(before) + Numeric(x), Numeric(after));
    SpelledAppend(Numeric(before), Numeric(x));
  }

  lemma NumericOne(c: char)
    requires IsAlnum(c)
    ensures AllAlnum([c]) && Numeric([c]) == Digits(c) && Spelled(Numeric([c])) == CharValue(c)
  {
    assert [c][..0] == "";
    assert "" + Digits(c) == Digits(c);
    DigitsSpell(c);
  }

  lemma NumericTwo(c: char, d: char)
    requires IsAlnum(c) && IsAlnum(d)
    ensures AllAlnum([c, d]) && |Numeric([c, d])| == |Digits(c)| + |Digits(d)|
    ensures Spelled(Numeric([c, d])) == CharValue(c) * (if IsDigit(d) then 10 else 100) + CharValue(d)
  {
    assert [c, d] == [c] + [d];
    NumericAppend([c], [d]);
    NumericOne(c);
    NumericOne(d);
    SpelledAppend(Digits(c), Digits(d));
    Pow10OfTwo();
  }

  /**
   * When the replacement of `d` by `c`, behind a part with the checksum `front`, goes unnoticed: never between
   * two digits or two letters, but for a digit and a letter it depends on that part.
   */
  predicate Unnoticed(front: nat, d: char, c: char)
    requires IsAlnum(d) && IsAlnum(c)
  {
    if IsDigit(d) == IsDigit(c) then c == d
    else if IsDigit(d) then (90 * front + CharValue(c) - CharValue(d)) % 97 == 0
    else (90 * front + CharValue(d) - CharValue(c)) % 97 == 0
  }

  /** Exactly which replacements of one character by another change the checksum. */
  lemma SubstitutionDetectedIff(s: string, i: nat, c: char)
    requires AllAlnum(s) && i < |s| && IsAlnum(c)
    ensures AllAlnum(s[i := c]) && AllAlnum(s[..i])
    ensures Checksum(s[i := c]) == Checksum(s) <==> Unnoticed(Checksum(s[..i]), s[i], c)
  {
    hide *;
    AlnumAround(s, i);
    ReplacedParts(s, i, c);
    ReplacedMiddle(s[..i], c, s[i], s[i + 1..]);
  }

  lemma AlnumAround(s: string, i: nat)
    requires AllAlnum(s) && i < |s|
    ensures IsAlnum(s[i]) && AllAlnum(s[..i]) && AllAlnum(s[i + 1..])
  {
  }

  lemma ReplacedParts(s: string, i: nat, c: char)
    requires i < |s|
    ensures s == s[..i] + [s[i]] + s[i + 1..] && s[i := c] == s[..i] + [c] + s[i + 1..]
  {
  }

  lemma ReplacedMiddle(before: string, c: char, d: char, after: string)
    requires AllAlnum(before) && IsAlnum(c) && IsAlnum(d) && AllAlnum(after)
    ensures AllAlnum(before + [c] + after) && AllAlnum(before + [d] + after)
    ensures Checksum(before + [c] + after) == Checksum(before + [d] + after) <==> Unnoticed(Checksum(before), d, c)
  {
    hide Spelled, Numeric, AllAlnum, AllDigits, InFront, Unnoticed, CharValue, IsAlnum;
    NumericOne(c);
    NumericOne(d);
    MiddlePart(before, [c], [d], after);
    FrontDecides(Spelled(Numeric(before)), c, d);
  }

  lemma FrontDecides(front: nat, c: char, d: char)
    requires IsAlnum(c) && IsAlnum(d)
    ensures (InFront(front, |Digits(c)|, CharValue(c)) - InFront(front, |Digits(d)|, CharValue(d))) % 97 == 0 <==>
      Unnoticed(front % 97, d, c)
  {
    hide InFront, CharValue, Digits, AllDigits;
    var x, y := CharValue(c), CharValue(d);
    if IsDigit(d) && !IsDigit(c) {
      WiderFront(front, x, y);
    } else if IsDigit(c) && !IsDigit(d) {
      WiderFront(front, y, x);
      Negated(InFront(front, 2, y) - InFront(front, 1, x));
    } else {
      SameWidth(front, |Digits(c)|, x, y);
      ValueDecides(c, d);
    }
  }

  lemma WiderFront(front: nat, x: nat, y: nat)
    ensures (InFront(front, 2, x) - InFront(front, 1, y)) % 97 == 0 <==> (90 * (front % 97) + x - y) % 97 == 0
  {
    Pow10OfTwo();
    var diff: int := x - y as int;
    assert InFront(front, 2, x) - InFront(front, 1, y) == 90 * front + diff;
    hide *;
    assert front == 97 * (front / 97) + front % 97;
    AddMultiple(90 * (front % 97) + diff, 90 * (front / 97));
  }

  lemma ValueDecides(c: char, d: char)
    requires IsAlnum(c) && IsAlnum(d)
    ensures IsDigit(c) == IsDigit(d) ==> ((CharValue(c) - CharValue(d)) % 97 == 0 <==> c == d)
  {
  }

  lemma Pow10OfTwo()
    ensures Pow10(1) == 10 && Pow10(2) == 100
  {
    assert Pow10(0) == 1;
  }

  lemma Negated(x: int)
    ensures (-x) % 97 == 0 <==> x % 97 == 0
  {
  }

  /** Such a pair: behind a leading 1, the digit 3 and the letter A, as 13 and 110 are the same modulo 97. */
  lemma ThreeForA(after: string)
    requires AllAlnum(after)
    ensures AllAlnum("13" + after) && AllAlnum("1A" + after)
    ensures Checksum("13" + after) == Checksum("1A" + after)
  {
    hide Spelled, Numeric, AllDigits, InFront;
    assert "1" + ['3'] + after == "13" + after && "1" + ['A'] + after == "1A" + after;
    NumericOne('1');
    ReplacedMiddle("1", 'A', '3', after);
  }

  /** A legal entity identifier that begins with 13 is exactly as valid with 1A in its place. */
  lemma LeiThreeForA(rest: string)
    requires |rest| == 18
    ensures LeiFormat("13" + rest) <==> LeiFormat("1A" + rest)
    ensures LeiFormat("13" + rest) ==> Checksum("13" + rest) == Checksum("1A" + rest)
  {
    var a, b := "13" + rest, "1A" + rest;
    assert forall i :: 2 <= i < 20 ==> a[i] == b[i];
    if LeiFormat(a) {
      assert forall i :: 0 <= i < 18 ==> rest[i] == a[i + 2];
      ThreeForA(rest);
    }
  }

  /** Two neighbours that can be exchanged without a trace: equal ones, or a letter worth eleven times the digit. */
  predicate Interchangeable(c: char, d: char)
    requires IsAlnum(c) && IsAlnum(d)
  {
    || c == d
    || (IsLetter(c) && IsDigit(d) && CharValue(c) == 11 * CharValue(d))
    || (IsDigit(c) && IsLetter(d) && CharValue(d) == 11 * CharValue(c))
  }

  function Swapped(s: string, i: nat): string
    requires i + 1 < |s|
  {
    s[i := s[i + 1]][i + 1 := s[i]]
  }

  /** Exchanging two neighbours changes the checksum unless their digits read the same in both orders. */
  lemma TranspositionDetectedIff(s: string, i: nat)
    requires AllAlnum(s) && i + 1 < |s|
    ensures AllAlnum(Swapped(s, i))
    ensures Checksum(Swapped(s, i)) == Checksum(s) <==> Interchangeable(s[i], s[i + 1])
  {
    hide *;
    SwappedParts(s, i);
    PartsAreAlnum(s, i);
    SwappedPair(s[..i], s[i], s[i + 1], s[i + 2..]);
  }

  lemma PartsAreAlnum(s: string, i: nat)
    requires AllAlnum(s) && i + 1 < |s|
    ensures IsAlnum(s[i]) && IsAlnum(s[i + 1]) && AllAlnum(s[..i]) && AllAlnum(s[i + 2..])
  {
  }

  lemma SwappedPair(before: string, c: char, d: char, after: string)
    requires AllAlnum(before) && IsAlnum(c) && IsAlnum(d) && AllAlnum(after)
    ensures AllAlnum(before + [c, d] + after) && AllAlnum(before + [d, c] + after)
    ensures Checksum(before + [d, c] + after) == Checksum(before + [c, d] + after) <==> Interchangeable(c, d)
  {
    hide *;
    PairChecksums(c, d);
    MiddlePart(before, [d, c], [c, d], after);
    SameWidth(Spelled(Numeric(before)), |Numeric([c, d])|, Spelled(Numeric([d, c])), Spelled(Numeric([c, d])));
  }

  lemma SameWidth(front: nat, k: nat, x: nat, y: nat)
    ensures InFront(front, k, x) - InFront(front, k, y) == x - y
  {
  }

  lemma SwappedParts(s: string, i: nat)
    requires i + 1 < |s|
    ensures s == s[..i] + [s[i], s[i + 1]] + s[i + 2..]
    ensures Swapped(s, i) == s[..i] + [s[i + 1], s[i]] + s[i + 2..]
  {
  }

  lemma PairChecksums(c: char, d: char)
    requires IsAlnum(c) && IsAlnum(d)
    ensures AllAlnum([c, d]) && AllAlnum([d, c]) && |Numeric([c, d])| == |Numeric([d, c])|
    ensures (Spelled(Numeric([d, c])) - Spelled(Numeric([c, d]))) % 97 == 0 <==> Interchangeable(c, d)
  {
    hide Spelled, Numeric, CharValue, Interchangeable, Digits, AllDigits, AllAlnum;
    NumericTwo(c, d);
    NumericTwo(d, c);
    PairValues(c, d);
  }

  lemma PairValues(c: char, d: char)
    requires IsAlnum(c) && IsAlnum(d)
    ensures var cd := CharValue(c) * (if IsDigit(d) then 10 else 100) + CharValue(d);
      var dc := CharValue(d) * (if IsDigit(c) then 10 else 100) + CharValue(c);
      (dc - cd) % 97 == 0 <==> Interchangeable(c, d)
  {
    var x: int, y: int := CharValue(c), CharValue(d);
    if IsDigit(c) && IsDigit(d) {
      SmallMultiple(9, y - x);
    } else if IsLetter(c) && IsLetter(d) {
      SmallMultiple(99, y - x);
    } else if IsLetter(c) {
      SmallMultiple(9, 11 * y - x);
    } else {
      SmallMultiple(9, y - 11 * x);
    }
  }

  /** Neither 9 nor 99 shares a factor with 97. */
  lemma SmallMultiple(f: int, m: int)
    requires (f == 9 || f == 99) && -97 < m < 97
    ensures (f * m) % 97 == 0 <==> m == 0
  {
    var q := f * m / 97;
    if f == 9 && (f * m) % 97 == 0 {
      assert m == 97 * (54 * q - 5 * m);
    } else if f == 99 && (f * m) % 97 == 0 {
      assert m == 97 * (49 * q - 50 * m);
    }
  }

  // ---------------------------------------------------------------- identifiers

  datatype ValidationError = WrongLength | WrongFormat | WrongChecksum

  /** Four characters, two zeros, twelve characters, two digits. */
  predicate LeiFormat(s: string)
    requires |s| == 20
  {
    && (forall i :: 0 <= i < 20 ==> IsAlnum(s[i]))
    && s[4] == '0' && s[5] == '0' && IsDigit(s[18]) && IsDigit(s[19])
  }

  /** The letters of a string written as digits. */
  method ToNumeric(s: string) returns (r: string)
    requires AllAlnum(s)
    ensures r == Numeric(s)
  {
    r := "";
    for i := 0 to |s|
      invariant r == Numeric(s[..i])
    {
      assert s[..i + 1][..i] == s[..i];
      r := r + Digits(s[i]);
    }
    assert s[..|s|] == s;
  }

  /** Two valid identifiers that differ in one character. */
  lemma TwoValidLeis() returns (a: string, b: string)
    ensures |a| == |b| == 20 && a[1] == '3' && b == a[1 := 'A']
    ensures LeiFormat(a) && Checksum(a) == 1 && LeiFormat(b) && Checksum(b) == 1
  {
    hide Checksum;
    var zeros: string := seq(16, _ => '0');
    var c, d := CheckPair("13" + zeros);
    var rest := zeros + [c, d];
    a, b := "13" + rest, "1A" + rest;
    assert "13" + zeros + [c, d] == a;
    LeiThreeForA(rest);
  }

  /** Checks a legal entity identifier; `upper` is the conversion to upper case. */
  method ValidateLei(upper: string -> string, text: string) returns (r: Outcome<ValidationError>)
    ensures var lei := upper(text);
      var wellFormed := |lei| == 20
        && (forall i :: 0 <= i < 20 ==> '0' <= lei[i] <= '9' || 'A' <= lei[i] <= 'Z')
        && lei[4] == '0' && lei[5] == '0' && '0' <= lei[18] <= '9' && '0' <= lei[19] <= '9';
      && (r == Err(WrongLength) <==> |lei| != 20)
      && (r == Err(WrongFormat) <==> |lei| == 20 && !wellFormed)
      && (r.Ok? <==> wellFormed && Checksum(lei) == 1)
  {
    var lei := upper(text);
    if |lei| != 20 { return Err(WrongLength); }
    if !LeiFormat(lei) { return Err(WrongFormat); }
    var numeric := ToNumeric(lei);
    var remainder := Remainder97(numeric);
    return if remainder != 1 then Err(WrongChecksum) else Ok;
  }

  /** Two letters, two digits, four characters, seven digits, then up to sixteen characters. */
  predicate IbanFormat(s: string) {
    && 15 <= |s| <= 31 && AllAlnum(s)
    && IsLetter(s[0]) && IsLetter(s[1]) && IsDigit(s[2]) && IsDigit(s[3])
    && forall i :: 8 <= i < 15 ==> IsDigit(s[i])
  }

  /** The length fits the country, if the table has the country. */
  predicate FitsCountry(lengths: map<string, nat>, s: string)
    requires |s| >= 2
  {
    s[..2] in lengths ==> |s| == lengths[s[..2]]
  }

  /** The first four characters go to the end. */
  function Rearranged(iban: string): string
    requires |iban| >= 4
  {
    iban[4..] + iban[..4]
  }

  /** The checksum part of the check. */
  method IbanChecksum(iban: string) returns (ok: bool)
    requires |iban| >= 4 && AllAlnum(iban)
    ensures AllAlnum(iban[4..] + iban[..4]) && (ok <==> Checksum(iban[4..] + iban[..4]) == 1)
  {
    var numeric := ToNumeric(Rearranged(iban));
    var remainder := Remainder97(numeric);
    return remainder == 1;
  }

  /** What is left of an IBAN to check once it is in normal form. */
  predicate Passes(lengths: map<string, nat>, iban: string) {
    IbanFormat(iban) && FitsCountry(lengths, iban) && Checksum(Rearranged(iban)) == 1
  }

  /** Checks an IBAN; `normalize` drops blanks and hyphens and converts to upper case. */
  method ValidateIban(normalize: string -> string, lengths: map<string, nat>, text: string)
    returns (r: Outcome<ValidationError>)
    ensures var iban := normalize(text);
      var wellFormed := 15 <= |iban| <= 31
        && (forall i :: 0 <= i < |iban| ==> '0' <= iban[i] <= '9' || 'A' <= iban[i] <= 'Z')
        && 'A' <= iban[0] <= 'Z' && 'A' <= iban[1] <= 'Z' && '0' <= iban[2] <= '9' && '0' <= iban[3] <= '9'
        && forall i :: 8 <= i < 15 ==> '0' <= iban[i] <= '9';
      && (r == Err(WrongFormat) <==> !wellFormed)
      && (r == Err(WrongLength) <==> wellFormed && iban[..2] in lengths && |iban| != lengths[iban[..2]])
      && (r.Ok? <==>
            && wellFormed && (iban[..2] in lengths ==> |iban| == lengths[iban[..2]])
            && AllAlnum(iban[4..] + iban[..4]) && Checksum(iban[4..] + iban[..4]) == 1)
      && (r.Ok? <==> Passes(lengths, iban))
  {
    var iban := normalize(text);
    if !IbanFormat(iban) { return Err(WrongFormat); }
    if !FitsCountry(lengths, iban) { return Err(WrongLength); }
    var ok := IbanChecksum(iban);
    return if ok then Ok else Err(WrongChecksum);
  }

  /** Some IBAN of a known country passes exactly if the length in the table is between 15 and 31. */
  lemma CountryPassesIff(lengths: map<string, nat>, country: string)
    requires |country| == 2 && IsLetter(country[0]) && IsLetter(country[1]) && country in lengths
    ensures (exists iban :: Passes(lengths, iban) && iban[..2] == country) <==> 15 <= lengths[country] <= 31
  {
    hide Checksum, AllAlnum;
    if 15 <= lengths[country] <= 31 {
      var rest: string := seq(lengths[country] - 4, _ => '0');
      ZerosAreAlnum(lengths[country] - 4, country);
      var c, d := CheckPair(rest + country);
      var iban := country + [c, d] + rest;
      assert Rearranged(iban) == rest + country + [c, d];
      assert iban[..2] == country;
      WellFormedIban(country, c, d, rest);
      assert Passes(lengths, iban);
    }
  }

  lemma ZerosAreAlnum(n: nat, country: string)
    requires |country| == 2 && IsLetter(country[0]) && IsLetter(country[1])
    ensures AllAlnum(seq(n, _ => '0') + country)
  {
  }

  lemma WellFormedIban(country: string, c: char, d: char, rest: string)
    requires |country| == 2 && IsLetter(country[0]) && IsLetter(country[1]) && IsDigit(c) && IsDigit(d)
    requires 11 <= |rest| <= 27 && forall i :: 0 <= i < |rest| ==> rest[i] == '0'
    ensures IbanFormat(country + [c, d] + rest)
  {
  }

  /** Two digits can always be found that bring the remainder to one. */
  lemma CheckPair(front: string) returns (c: char, d: char)
    requires AllAlnum(front)
    ensures IsDigit(c) && IsDigit(d) && AllAlnum(front + [c, d]) && Checksum(front + [c, d]) == 1
  {
    var k: int := Spelled(Numeric(front));
    var check := (1 - 100 * k) % 97;
    c, d := CharOf(check / 10), CharOf(check % 10);
    NumericTwo(c, d);
    NumericAppend(front, [c, d]);
    SpelledAppend(Numeric(front), Numeric([c, d]));
    Pow10OfTwo();
    assert Spelled(Numeric([c, d])) == check;
    assert Spelled(Numeric(front + [c, d])) == 100 * k + check;
    hide *;
    SumToOne(k, check);
    ChecksumIs(front + [c, d]);
  }

  lemma ChecksumIs(s: string)
    requires AllAlnum(s)
    ensures Checksum(s) == Spelled(Numeric(s)) % 97
  {
  }

  lemma SumToOne(k: int, check: int)
    requires check == (1 - 100 * k) % 97
    ensures (100 * k + check) % 97 == 1
  {
    var q := (1 - 100 * k) / 97;
    assert 1 - 100 * k == 97 * q + check;
    AddMultiple(1, -q);
  }

  /** Exactly which replacements of one character of an IBAN leave its checksum as it was. */
  lemma IbanSubstitutionIff(iban: string, i: nat, c: char)
    requires 4 <= |iban| && AllAlnum(iban) && i < |iban| && IsAlnum(c)
    ensures var r, j := Rearranged(iban), if i < 4 then |iban| - 4 + i else i - 4;
      && AllAlnum(r) && AllAlnum(Rearranged(iban[i := c])) && AllAlnum(r[..j]) && j < |r| && r[j] == iban[i]
      && (Checksum(Rearranged(iban[i := c])) == Checksum(r) <==> Unnoticed(Checksum(r[..j]), iban[i], c))
  {
    hide Checksum, Unnoticed;
    var r := Rearranged(iban);
    var j := if i < 4 then |iban| - 4 + i else i - 4;
    assert Rearranged(iban[i := c]) == r[j := c];
    SubstitutionDetectedIff(r, j, c);
  }

  // ---------------------------------------------------------------- Luhn

  /** What a digit contributes; every second one is doubled, less nine if that exceeds nine. */
  function LuhnTerm(d: nat, double: bool): nat
    requires d < 10
  {
    if !double then d else if 2 * d > 9 then 2 * d - 9 else 2 * d
  }

  /** The sum of the contributions from the right, the last digit doubled or not. */
  function LuhnSum(s: string, double: bool): nat {
    if s == "" then 0
    else (if IsDigit(s[|s| - 1]) then LuhnTerm(DigitOf(s[|s| - 1]), double) else 0) + LuhnSum(s[..|s| - 1], !double)
  }

  function OnlyDigits(s: string): (r: string)
    ensures AllDigits(r)
  {
    if s == "" then "" else OnlyDigits(s[..|s| - 1]) + (if IsDigit(s[|s| - 1]) then [s[|s| - 1]] else "")
  }

  lemma OnlyDigitsStep(s: string, c: char)
    ensures OnlyDigits(s + [c]) == OnlyDigits(s) + if IsDigit(c) then [c] else ""
  {
    assert (s + [c])[..|s|] == s;
  }

  /** The digits of a text are those of its parts, in order. */
  lemma {:induction false} OnlyDigitsAppend(a: string, b: string)
    ensures OnlyDigits(a + b) == OnlyDigits(a) + OnlyDigits(b)
    decreases |b|
  {
    if b == "" {
      assert a + b == a;
    } else {
      var n := |b| - 1;
      assert a + b == (a + b[..n]) + [b[n]] && b == b[..n] + [b[n]];
      OnlyDigitsStep(a + b[..n], b[n]);
      OnlyDigitsStep(b[..n], b[n]);
      hide OnlyDigits, IsDigit;
      OnlyDigitsAppend(a, b[..n]);
    }
  }

  /** Digits are kept, and nothing else is. */
  lemma {:induction false} OnlyDigitsAre(s: string)
    ensures AllDigits(s) ==> OnlyDigits(s) == s
    ensures (forall i :: 0 <= i < |s| ==> !IsDigit(s[i])) ==> OnlyDigits(s) == ""
  {
    if s != "" {
      var n := |s| - 1;
      assert s == s[..n] + [s[n]];
      OnlyDigitsStep(s[..n], s[n]);
      hide OnlyDigits, IsDigit;
      OnlyDigitsAre(s[..n]);
    }
  }

  /** The last digit counts as it is. */
  lemma LuhnLast(s: string, c: char, d: char)
    requires IsDigit(c) && IsDigit(d)
    ensures LuhnSum(s + [c], false) - LuhnSum(s + [d], false) == c as int - d as int
  {
    assert (s + [c])[..|s|] == s && (s + [d])[..|s|] == s;
  }

  /**
   * The rule, two places at a time from the end: the last digit counts as it is, the one before it with the
   * digits of its double, and so on with what is in front of them.
   */
  lemma LuhnTwoPlaces(s: string, c: char, d: char)
    requires IsDigit(c) && IsDigit(d)
    ensures var x, y := c as int - 48, d as int - 48;
      LuhnSum(s + [c, d], false) == LuhnSum(s, false) + (2 * x / 10 + 2 * x % 10) + y
    ensures LuhnSum("", false) == 0 && LuhnSum([d], false) == d as int - 48
  {
    var t := s + [c, d];
    assert t[..|t| - 1] == s + [c] && (s + [c])[..|s|] == s && [d][..0] == "";
  }

  /** A number that is valid. */
  lemma KnownCard()
    ensures OnlyDigits("4111111111111111") == "4111111111111111" && |"4111111111111111"| == 16
    ensures LuhnSum("4111111111111111", false) == 30
  {
    hide LuhnSum, OnlyDigits;
    OnlyDigitsAre("4111111111111111");
    LuhnTwoPlaces("", '4', '1');
    Ones("41", 7);
    assert "" + ['4', '1'] == "41" && "41" + seq(14, _ => '1') == "4111111111111111";
  }

  lemma {:induction false} Ones(s: string, n: nat)
    ensures LuhnSum(s + seq(2 * n, _ => '1'), false) == LuhnSum(s, false) + 3 * n
  {
    hide LuhnSum;
    if n == 0 {
      assert s + seq(0, _ => '1') == s;
    } else {
      Ones(s, n - 1);
      LuhnTwoPlaces(s + seq(2 * (n - 1), _ => '1'), '1', '1');
      assert s + seq(2 * (n - 1), _ => '1') + ['1', '1'] == s + seq(2 * n, _ => '1');
    }
  }

  /** Checks a card number; other characters than digits are passed over. */
  method ValidateCardNumber(card: string) returns (r: Outcome<ValidationError>)
    ensures r.Ok? <==> 13 <= |OnlyDigits(card)| <= 19 && LuhnSum(OnlyDigits(card), false) % 10 == 0
    ensures r == Err(WrongLength) <==> !(13 <= |OnlyDigits(card)| <= 19)
  {
    var digits := OnlyDigits(card);
    if |digits| < 13 || |digits| > 19 { return Err(WrongLength); }
    var sum := 0;
    var double := false;
    var i := |digits|;
    assert digits[..i] == digits;
    while i > 0
      invariant 0 <= i <= |digits|
      invariant sum + LuhnSum(digits[..i], double) == LuhnSum(digits, false)
    {
      i := i - 1;
      assert digits[..i + 1][..i] == digits[..i];
      var digit := DigitOf(digits[i]);
      if double {
        digit := digit * 2;
        if digit > 9 { digit := digit - 9; }
      }
      sum := sum + digit;
      double := !double;
    }
    return if sum % 10 != 0 then Err(WrongChecksum) else Ok;
  }

  /** Whether a digit is doubled depends on the parity of the number of digits to its right. */
  predicate Flipped(double: bool, n: nat) {
    double != (n % 2 == 1)
  }

  lemma {:induction false} LuhnSplit(a: string, b: string, double: bool)
    ensures LuhnSum(a + b, double) == LuhnSum(a, Flipped(double, |b|)) + LuhnSum(b, double)
    decreases |b|
  {
    if b == "" {
      assert a + b == a;
    } else {
      var n := |b| - 1;
      assert (a + b)[..|a + b| - 1] == a + b[..n];
      LuhnSplit(a, b[..n], !double);
    }
  }

  /** Strings that differ in a middle part have sums that differ by what the parts contribute. */
  lemma LuhnMiddle(before: string, x: string, y: string, after: string)
    requires |x| == |y|
    ensures var double := Flipped(false, |after|);
      LuhnSum(before + x + after, false) - LuhnSum(before + y + after, false) == LuhnSum(x, double) - LuhnSum(y, double)
  {
    hide LuhnSum, Flipped;
    LuhnSplit(before + x, after, false);
    LuhnSplit(before + y, after, false);
    LuhnSplit(before, x, Flipped(false, |after|));
    LuhnSplit(before, y, Flipped(false, |after|));
  }

  lemma LuhnOne(c: char, double: bool)
    requires IsDigit(c)
    ensures LuhnSum([c], double) == LuhnTerm(DigitOf(c), double)
  {
    assert [c][..0] == "";
  }

  lemma LuhnTwo(c: char, d: char, double: bool)
    requires IsDigit(c) && IsDigit(d)
    ensures LuhnSum([c, d], double) == LuhnTerm(DigitOf(c), !double) + LuhnTerm(DigitOf(d), double)
  {
    assert [c, d][..1] == [c];
    LuhnOne(c, !double);
  }

  /** A valid number with one digit changed is invalid. */
  lemma LuhnSubstitution(s: string, i: nat, c: char)
    requires AllDigits(s) && i < |s| && IsDigit(c) && c != s[i]
    ensures LuhnSum(s, false) % 10 == 0 ==> LuhnSum(s[i := c], false) % 10 != 0
  {
    hide LuhnSum;
    var before, after := s[..i], s[i + 1..];
    assert s == before + [s[i]] + after && s[i := c] == before + [c] + after;
    LuhnMiddle(before, [c], [s[i]], after);
    LuhnOne(s[i], Flipped(false, |after|));
    LuhnOne(c, Flipped(false, |after|));
    TermsDiffer(c, s[i], Flipped(false, |after|));
    DifferenceDecides(LuhnSum(s[i := c], false), LuhnSum(s, false));
  }

  lemma TermsDiffer(c: char, d: char, double: bool)
    requires IsDigit(c) && IsDigit(d) && c != d
    ensures (LuhnTerm(DigitOf(c), double) - LuhnTerm(DigitOf(d), double)) % 10 != 0
  {
  }

  lemma DifferenceDecides(x: int, y: int)
    ensures y % 10 == 0 ==> (x % 10 == 0 <==> (x - y) % 10 == 0)
  {
  }

  /** A valid number with two neighbours exchanged is invalid, unless they are equal or a 0 and a 9. */
  lemma LuhnTranspositionIff(s: string, i: nat)
    requires AllDigits(s) && i + 1 < |s| && LuhnSum(s, false) % 10 == 0
    ensures LuhnSum(Swapped(s, i), false) % 10 == 0 <==> s[i] == s[i + 1] || {s[i], s[i + 1]} == {'0', '9'}
  {
    hide LuhnSum;
    var before, after, c, d := s[..i], s[i + 2..], s[i], s[i + 1];
    SwappedParts(s, i);
    hide Swapped;
    LuhnMiddle(before, [d, c], [c, d], after);
    LuhnTwo(c, d, Flipped(false, |after|));
    LuhnTwo(d, c, Flipped(false, |after|));
    LuhnPairs(c, d, Flipped(false, |after|));
    DifferenceDecides(LuhnSum(Swapped(s, i), false), LuhnSum(s, false));
  }

  lemma LuhnPairs(c: char, d: char, double: bool)
    requires IsDigit(c) && IsDigit(d)
    ensures (LuhnTerm(DigitOf(d), !double) + LuhnTerm(DigitOf(c), double)
             - LuhnTerm(DigitOf(c), !double) - LuhnTerm(DigitOf(d), double)) % 10 == 0
      <==> c == d || {c, d} == {'0', '9'}
  {
  }
}
