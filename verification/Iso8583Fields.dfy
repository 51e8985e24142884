/** The fields of an ISO 8583:1987 message: how each one is written and read. */
module Iso8583Fields {
  import opened Primitives

  datatype IsoError = InvalidFormat | UnknownMessageType

  type FieldId = nat

  datatype FieldEncoding = Fixed(len: nat) | LlVar(max: nat) | LllVar(max: nat)

  /** How the field with the given number is encoded. */
  function EncodingOf(id: FieldId): (r: Option<FieldEncoding>)
    ensures r.Some? <==> 1 <= id <= 128
    ensures r.Some? && r.value.LlVar? ==> r.value.max <= 99
    ensures r.Some? && r.value.LllVar? ==> r.value.max <= 999
  {
    if id == 1 then Some(Fixed(8))
    else if id == 2 then Some(LlVar(19))
    else if id == 3 then Some(Fixed(6))
    else if 4 <= id <= 6 then Some(Fixed(12))
    else if id == 7 then Some(Fixed(10))
    else if 8 <= id <= 10 then Some(Fixed(8))
    else if 11 <= id <= 12 then Some(Fixed(6))
    else if 13 <= id <= 18 then Some(Fixed(4))
    else if 19 <= id <= 24 then Some(Fixed(3))
    else if 25 <= id <= 26 then Some(Fixed(2))
    else if id == 27 then Some(Fixed(1))
    else if 28 <= id <= 31 then Some(Fixed(9))
    else if 32 <= id <= 33 then Some(LlVar(11))
    else if id == 34 then Some(LlVar(28))
    else if id == 35 then Some(LlVar(37))
    else if id == 36 then Some(LllVar(104))
    else if id == 37 then Some(Fixed(12))
    else if id == 38 then Some(Fixed(6))
    else if id == 39 then Some(Fixed(2))
    else if id == 40 then Some(Fixed(3))
    else if id == 41 then Some(Fixed(8))
    else if id == 42 then Some(Fixed(15))
    else if id == 43 then Some(Fixed(40))
    else if id == 44 then Some(LlVar(25))
    else if id == 45 then Some(LlVar(76))
    else if 46 <= id <= 48 then Some(LllVar(999))
    else if 49 <= id <= 51 then Some(Fixed(3))
    else if id == 52 then Some(Fixed(8))
    else if id == 53 then Some(Fixed(16))
    else if id == 54 then Some(LllVar(120))
    else if 55 <= id <= 63 then Some(LllVar(999))
    else if 64 <= id <= 65 then Some(Fixed(8))
    else if id == 66 then Some(Fixed(1))
    else if id == 67 then Some(Fixed(2))
    else if 68 <= id <= 90 then Some(Fixed(10))
    else if id == 91 then Some(Fixed(1))
    else if 92 <= id <= 95 then Some(Fixed(2))
    else if id == 96 then Some(Fixed(8))
    else if id == 97 then Some(Fixed(17))
    else if id == 98 then Some(Fixed(25))
    else if 99 <= id <= 100 then Some(LlVar(11))
    else if id == 101 then Some(LlVar(17))
    else if 102 <= id <= 103 then Some(LlVar(28))
    else if id == 104 then Some(LllVar(100))
    else if 105 <= id <= 127 then Some(LllVar(999))
    else if id == 128 then Some(Fixed(8))
    else None
  }

  /** Which fields have which encoding. */
  lemma FieldsByEncoding(id: FieldId)
    ensures EncodingOf(id) == Some(Fixed(1)) <==> id in {27, 66, 91}
    ensures EncodingOf(id) == Some(Fixed(2)) <==> id in {25, 26, 39, 67} || 92 <= id <= 95
    ensures EncodingOf(id) == Some(Fixed(3)) <==> id == 40 || 19 <= id <= 24 || 49 <= id <= 51
    ensures EncodingOf(id) == Some(Fixed(4)) <==> 13 <= id <= 18
    ensures EncodingOf(id) == Some(Fixed(6)) <==> id in {3, 11, 12, 38}
    ensures EncodingOf(id) == Some(Fixed(8)) <==> id in {1, 41, 52, 64, 65, 96, 128} || 8 <= id <= 10
    ensures EncodingOf(id) == Some(Fixed(9)) <==> 28 <= id <= 31
    ensures EncodingOf(id) == Some(Fixed(10)) <==> id == 7 || 68 <= id <= 90
    ensures EncodingOf(id) == Some(Fixed(12)) <==> id == 37 || 4 <= id <= 6
    ensures EncodingOf(id) == Some(Fixed(15)) <==> id == 42
    ensures EncodingOf(id) == Some(Fixed(16)) <==> id == 53
    ensures EncodingOf(id) == Some(Fixed(17)) <==> id == 97
    ensures EncodingOf(id) == Some(Fixed(25)) <==> id == 98
    ensures EncodingOf(id) == Some(Fixed(40)) <==> id == 43
    ensures EncodingOf(id) == Some(LlVar(11)) <==> id in {32, 33, 99, 100}
    ensures EncodingOf(id) == Some(LlVar(17)) <==> id == 101
    ensures EncodingOf(id) == Some(LlVar(19)) <==> id == 2
    ensures EncodingOf(id) == Some(LlVar(25)) <==> id == 44
    ensures EncodingOf(id) == Some(LlVar(28)) <==> id in {34, 102, 103}
    ensures EncodingOf(id) == Some(LlVar(37)) <==> id == 35
    ensures EncodingOf(id) == Some(LlVar(76)) <==> id == 45
    ensures EncodingOf(id) == Some(LllVar(100)) <==> id == 104
    ensures EncodingOf(id) == Some(LllVar(104)) <==> id == 36
    ensures EncodingOf(id) == Some(LllVar(120)) <==> id == 54
    ensures EncodingOf(id) == Some(LllVar(999)) <==> 46 <= id <= 48 || 55 <= id <= 63 || 105 <= id <= 127
  {
  }

  // ---------------------------------------------------------------- decimal prefixes

  predicate IsDigit(b: byte) {
    48 <= b <= 57
  }

  function Digit(d: nat): (b: byte)
    requires d < 10
    ensures IsDigit(b) && b as nat == 48 + d
  {
    (48 + d) as byte
  }

  function DigitsValue(s: Bytes): nat {
    if s == [] then 0 else 10 * DigitsValue(s[..|s| - 1]) + (if IsDigit(s[|s| - 1]) then s[|s| - 1] as nat - 48 else 0)
  }

  predicate AllDigits(s: Bytes) {
    forall i :: 0 <= i < |s| ==> IsDigit(s[i])
  }

  /** Reads an unsigned decimal number; a leading plus sign is allowed when digits follow. */
  function ParseDecimal(s: Bytes): Option<nat> {
    var digits := if s != [] && s[0] == 43 then s[1..] else s;
    if digits != [] && AllDigits(digits) then Some(DigitsValue(digits)) else None
  }

  /** A number as two decimal digits. */
  function TwoDigits(n: nat): Bytes
    requires n < 100
  {
    [Digit(n / 10), Digit(n % 10)]
  }

  /** A number as three decimal digits. */
  function ThreeDigits(n: nat): Bytes
    requires n < 1000
  {
    [Digit(n / 100), Digit(n / 10 % 10), Digit(n % 10)]
  }

  lemma PrefixesParse(n: nat)
    ensures n < 100 ==> ParseDecimal(TwoDigits(n)) == Some(n)
    ensures n < 1000 ==> ParseDecimal(ThreeDigits(n)) == Some(n)
  {
    if n < 100 {
      var s := TwoDigits(n);
      assert s[..1] == [Digit(n / 10)] && s[..1][..0] == [];
      assert DigitsValue(s[..1]) == n / 10;
    }
    if n < 1000 {
      var s := ThreeDigits(n);
      assert s[..2] == [Digit(n / 100), Digit(n / 10 % 10)];
      assert s[..2][..1] == [Digit(n / 100)] && s[..2][..1][..0] == [];
      assert DigitsValue(s[..2][..1]) == n / 100;
      assert DigitsValue(s[..2]) == n / 10;
    }
  }

  // ---------------------------------------------------------------- one field

  const SPACE: byte := 32

  /** A fixed field holds exactly its length: longer values are cut, shorter ones padded with spaces. */
  function Fit(value: Bytes, len: nat): (r: Bytes)
    ensures |r| == len && forall i :: 0 <= i < len ==> r[i] == if i < |value| then value[i] else 32
  {
    if |value| >= len then value[..len] else value + seq(len - |value|, _ => SPACE)
  }

  /** The value as it arrives on the other side. */
  function Normal(id: FieldId, value: Bytes): Bytes {
    match EncodingOf(id)
    case Some(Fixed(len)) => Fit(value, len)
    case _ => value
  }

  /** A field can be written when it exists and a variable value is within its maximum. */
  predicate Encodable(id: FieldId, value: Bytes) {
    match EncodingOf(id)
    case None => false
    case Some(Fixed(_)) => true
    case Some(LlVar(max)) => |value| <= max
    case Some(LllVar(max)) => |value| <= max
  }

  function EncodeField(id: FieldId, value: Bytes): (r: Result<Bytes, IsoError>)
    ensures r.Success? <==> Encodable(id, value)
    ensures r.Failure? ==> r.error == InvalidFormat
  {
    match EncodingOf(id)
    case None => Failure(InvalidFormat)
    case Some(Fixed(len)) => Success(Fit(value, len))
    case Some(LlVar(max)) => if |value| > max then Failure(InvalidFormat) else Success(TwoDigits(|value|) + value)
    case Some(LllVar(max)) => if |value| > max then Failure(InvalidFormat) else Success(ThreeDigits(|value|) + value)
  }

  /** What is written: a fixed value cut or padded with blanks, a variable one behind its length in decimal. */
  lemma EncodedForm(id: FieldId, value: Bytes)
    requires Encodable(id, value)
    ensures var e := EncodeField(id, value).value;
      match EncodingOf(id).value
      case Fixed(len) => |e| == len && forall i :: 0 <= i < len ==> e[i] == if i < |value| then value[i] else 32
      case LlVar(max) =>
        && |value| <= max && |e| == 2 + |value| && e[2..] == value
        && e[0] as nat == 48 + |value| / 10 && e[1] as nat == 48 + |value| % 10
      case LllVar(max) =>
        && |value| <= max && |e| == 3 + |value| && e[3..] == value
        && e[0] as nat == 48 + |value| / 100 && e[1] as nat == 48 + |value| / 10 % 10
        && e[2] as nat == 48 + |value| % 10
  {
  }

  /** Takes `len` bytes at a position. */
  function Take(data: Bytes, pos: nat, len: nat): Result<(Bytes, nat), IsoError> {
    if pos + len > |data| then Failure(InvalidFormat) else Success((data[pos..pos + len], pos + len))
  }

  /** Reads a length prefix of the given width, then that many bytes. */
  function TakePrefixed(data: Bytes, pos: nat, width: nat): Result<(Bytes, nat), IsoError> {
    if pos + width > |data| then Failure(InvalidFormat)
    else
      match ParseDecimal(data[pos..pos + width])
      case None => Failure(InvalidFormat)
      case Some(len) => Take(data, pos + width, len)
  }

  /** Reads one field at a position: its value and the position after it. */
  function DecodeField(id: FieldId, data: Bytes, pos: nat): (r: Result<(Bytes, nat), IsoError>)
    ensures r.Success? ==> pos <= r.value.1 <= |data|
    ensures r.Failure? ==> r.error == InvalidFormat
  {
    match EncodingOf(id)
    case None => Failure(InvalidFormat)
    case Some(Fixed(len)) => Take(data, pos, len)
    case Some(LlVar(_)) => TakePrefixed(data, pos, 2)
    case Some(LllVar(_)) => TakePrefixed(data, pos, 3)
  }

  lemma ReadAsNormal(id: FieldId, value: Bytes, before: Bytes, after: Bytes)
    requires Encodable(id, value)
    ensures var e := EncodeField(id, value).value;
      DecodeField(id, before + e + after, |before|) == Success((Normal(id, value), |before| + |e|))
  {
    hide EncodingOf, Take, TakePrefixed;
    match EncodingOf(id)
    case Some(Fixed(len)) => TakeBack(Fit(value, len), before, after);
    case Some(LlVar(_)) => PrefixedBack(TwoDigits(|value|), value, before, after);
    case Some(LllVar(_)) => PrefixedBack(ThreeDigits(|value|), value, before, after);
  }

  /**
   * Fields delimit themselves: each is read back from its own encoding, whatever comes before and after, a
   * fixed value cut or followed by blanks.
   */
  lemma DecodeEncoded(id: FieldId, value: Bytes, before: Bytes, after: Bytes)
    requires Encodable(id, value)
    ensures var e := EncodeField(id, value).value;
      var r := DecodeField(id, before + e + after, |before|);
      r.Success? && r.value.1 == |before| + |e|
    ensures var got := DecodeField(id, before + EncodeField(id, value).value + after, |before|).value.0;
      match EncodingOf(id).value
      case Fixed(len) => |got| == len && forall i :: 0 <= i < len ==> got[i] == if i < |value| then value[i] else 32
      case _ => got == value
  {
    ReadAsNormal(id, value, before, after);
    hide DecodeField, EncodeField, EncodingOf;
  }

  /** A value of exactly the length of its fixed field is left as it is. */
  lemma ExactValueKept(id: FieldId, value: Bytes)
    requires EncodingOf(id) == Some(Fixed(|value|))
    ensures EncodeField(id, value) == Success(value)
  {
    assert EncodeField(id, value).value == value;
  }

  /**
   * What is read at a position, be it well-formed or not: a fixed field is as many bytes; a variable one is
   * announced by two or three decimal digits, the first of which may be a plus sign, and may exceed its maximum.
   */
  lemma DecodeFieldIs(id: FieldId, data: Bytes, pos: nat)
    ensures DecodeField(id, data, pos) ==
      match EncodingOf(id)
      case None => Failure(InvalidFormat)
      case Some(Fixed(len)) =>
        if pos + len > |data| then Failure(InvalidFormat) else Success((data[pos..pos + len], pos + len))
      case Some(LlVar(_)) =>
        if pos + 2 > |data| then Failure(InvalidFormat)
        else
          var a: int, b: int := data[pos] as int - 48, data[pos + 1] as int - 48;
          var n := if !(0 <= b <= 9) then -1 else if 0 <= a <= 9 then 10 * a + b else if a == -5 then b else -1;
          if n < 0 || pos + 2 + n > |data| then Failure(InvalidFormat)
          else Success((data[pos + 2..pos + 2 + n], pos + 2 + n))
      case Some(LllVar(_)) =>
        if pos + 3 > |data| then Failure(InvalidFormat)
        else
          var a: int, b: int := data[pos] as int - 48, data[pos + 1] as int - 48;
          var c: int := data[pos + 2] as int - 48;
          var n := if !(0 <= b <= 9 && 0 <= c <= 9) then -1
            else if 0 <= a <= 9 then 100 * a + 10 * b + c else if a == -5 then 10 * b + c else -1;
          if n < 0 || pos + 3 + n > |data| then Failure(InvalidFormat)
          else Success((data[pos + 3..pos + 3 + n], pos + 3 + n))
  {
    match EncodingOf(id)
    case None =>
    case Some(Fixed(_)) =>
    case Some(LlVar(_)) => if pos + 2 <= |data| { TwoBytesRead(data[pos..pos + 2]); }
    case Some(LllVar(_)) => if pos + 3 <= |data| { ThreeBytesRead(data[pos..pos + 3]); }
  }

  lemma TwoBytesRead(s: Bytes)
    requires |s| == 2
    ensures var a: int, b: int := s[0] as int - 48, s[1] as int - 48;
      ParseDecimal(s) == if !(0 <= b <= 9) then None
        else if 0 <= a <= 9 then Some(10 * a + b) else if a == -5 then Some(b) else None
  {
    var t := s[1..];
    assert s[..1] == [s[0]] && s[..1][..0] == [] && t == [s[1]] && t[..0] == [];
    assert AllDigits(s) <==> IsDigit(s[0]) && IsDigit(s[1]);
    assert AllDigits(t) <==> IsDigit(s[1]) by { assert t[0] == s[1]; }
    if AllDigits(s) {
      assert DigitsValue(s[..1]) == s[0] as int - 48;
      assert DigitsValue(s) == 10 * DigitsValue(s[..1]) + (s[1] as int - 48);
    }
    if AllDigits(t) { assert DigitsValue(t) == s[1] as int - 48; }
    assert s[0] == 43 ==> !IsDigit(s[0]);
  }

  lemma ThreeBytesRead(s: Bytes)
    requires |s| == 3
    ensures var a: int, b: int, c: int := s[0] as int - 48, s[1] as int - 48, s[2] as int - 48;
      ParseDecimal(s) == if !(0 <= b <= 9 && 0 <= c <= 9) then None
        else if 0 <= a <= 9 then Some(100 * a + 10 * b + c) else if a == -5 then Some(10 * b + c) else None
  {
    var front, t := s[..2], s[1..];
    assert AllDigits(s) <==> IsDigit(s[0]) && IsDigit(s[1]) && IsDigit(s[2]);
    assert AllDigits(t) <==> IsDigit(s[1]) && IsDigit(s[2]) by { assert t[0] == s[1] && t[1] == s[2]; }
    if AllDigits(t) {
      TwoBytesRead(t);
    }
    if AllDigits(s) {
      assert AllDigits(front) && front[0] == s[0] && front[1] == s[1];
      TwoBytesRead(front);
    }
  }

  /** A leading plus sign is dropped, and nothing but digits is read. */
  lemma PlusIsDropped(s: Bytes)
    requires s != [] && s[0] != 43
    ensures ParseDecimal([43] + s) == ParseDecimal(s)
    ensures ParseDecimal(s).Some? <==> forall i :: 0 <= i < |s| ==> 48 <= s[i] <= 57
  {
    var signed: Bytes := [43] + s;
    assert signed[0] == 43 && signed[1..] == s;
  }

  lemma TakeBack(e: Bytes, before: Bytes, after: Bytes)
    ensures Take(before + e + after, |before|, |e|) == Success((e, |before| + |e|))
  {
    assert (before + e + after)[|before|..|before| + |e|] == e;
  }

  lemma PrefixedBack(prefix: Bytes, value: Bytes, before: Bytes, after: Bytes)
    requires (|value| < 100 && prefix == TwoDigits(|value|)) || (|value| < 1000 && prefix == ThreeDigits(|value|))
    ensures TakePrefixed(before + (prefix + value) + after, |before|, |prefix|) ==
      Success((value, |before| + |prefix + value|))
  {
    hide ParseDecimal, TwoDigits, ThreeDigits;
    PrefixesParse(|value|);
    var data := before + (prefix + value) + after;
    assert data == (before + prefix) + value + after;
    assert data[|before|..|before| + |prefix|] == prefix;
    TakeBack(value, before + prefix, after);
  }
}
