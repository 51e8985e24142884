/** The ISO 8583:1987 message: bitmaps, the printer and the parser. */
module Iso8583 {
  import opened Primitives
  import opened Arith
  import opened Iso8583Fields

  // ---------------------------------------------------------------- message types

  datatype MessageType =
    | AuthorizationRequest | AuthorizationResponse
    | FinancialRequest | FinancialResponse
    | ReversalRequest | ReversalResponse
    | NetworkManagementRequest | NetworkManagementResponse

  function FromCode(code: nat): Option<MessageType> {
    if code == 0x0100 then Some(AuthorizationRequest)
    else if code == 0x0110 then Some(AuthorizationResponse)
    else if code == 0x0200 then Some(FinancialRequest)
    else if code == 0x0210 then Some(FinancialResponse)
    else if code == 0x0400 then Some(ReversalRequest)
    else if code == 0x0410 then Some(ReversalResponse)
    else if code == 0x0800 then Some(NetworkManagementRequest)
    else if code == 0x0810 then Some(NetworkManagementResponse)
    else None
  }

  function ToCode(mti: MessageType): nat {
    match mti
    case AuthorizationRequest => 0x0100
    case AuthorizationResponse => 0x0110
    case FinancialRequest => 0x0200
    case FinancialResponse => 0x0210
    case ReversalRequest => 0x0400
    case ReversalResponse => 0x0410
    case NetworkManagementRequest => 0x0800
    case NetworkManagementResponse => 0x0810
  }

  /** An upper-case hexadecimal digit. */
  function HexDigit(d: nat): byte
    requires d < 16
  {
    if d < 10 then Digit(d) else (55 + d) as byte
  }

  function HexValue(b: byte): Option<nat> {
    if IsDigit(b) then Some(b as nat - 48)
    else if 65 <= b <= 70 then Some(b as nat - 55)
    else if 97 <= b <= 102 then Some(b as nat - 87)
    else None
  }

  /** A code as four hexadecimal digits. */
  function HexCode(code: nat): Bytes {
    [HexDigit(code / 4096 % 16), HexDigit(code / 256 % 16), HexDigit(code / 16 % 16), HexDigit(code % 16)]
  }

  function ParseHexCode(s: Bytes): Option<nat>
    requires |s| == 4
  {
    match (HexValue(s[0]), HexValue(s[1]), HexValue(s[2]), HexValue(s[3]))
    case (Some(a), Some(b), Some(c), Some(d)) => Some(a * 4096 + b * 256 + c * 16 + d)
    case _ => None
  }

  lemma CodesRoundTrip(mti: MessageType)
    ensures FromCode(ToCode(mti)) == Some(mti)
    ensures ParseHexCode(HexCode(ToCode(mti))) == Some(ToCode(mti)) && IsDigit(HexCode(ToCode(mti))[0])
  {
    assert ToCode(mti) < 4096;
    hide HexCode, ParseHexCode;
    HexRoundTrip(ToCode(mti));
  }

  /** Any 16-bit code is read back from its four digits. */
  lemma HexRoundTrip(code: nat)
    requires code < 65536
    ensures ParseHexCode(HexCode(code)) == Some(code) && (code < 4096 ==> IsDigit(HexCode(code)[0]))
  {
    hide HexValue, HexDigit;
    DigitsOfCode(code);
    var a, b, c, d := code / 4096 % 16, code / 256 % 16, code / 16 % 16, code % 16;
    HexValues(a);
    HexValues(b);
    HexValues(c);
    HexValues(d);
    var s := [HexDigit(a), HexDigit(b), HexDigit(c), HexDigit(d)];
    assert HexCode(code) == s;
    hide HexCode;
    assert ParseHexCode(s) == Some(a * 4096 + b * 256 + c * 16 + d);
  }

  lemma DigitsOfCode(code: nat)
    requires code < 65536
    ensures (code / 4096 % 16) * 4096 + (code / 256 % 16) * 256 + (code / 16 % 16) * 16 + code % 16 == code
    ensures code < 4096 ==> code / 4096 % 16 == 0
  {
    assert code / 256 == 16 * (code / 4096) + code / 256 % 16;
    assert code / 256 == code / 16 / 16;
    assert code == 16 * (code / 16) + code % 16;
    assert code / 16 == 16 * (code / 256) + code / 16 % 16;
  }

  lemma HexValues(d: nat)
    requires d < 16
    ensures HexValue(HexDigit(d)) == Some(d) && (d == 0 ==> IsDigit(HexDigit(d)))
    ensures HexDigit(d) as nat == if d < 10 then 48 + d else 55 + d
    ensures d >= 10 ==> HexValue((87 + d) as byte) == Some(d)
  {
  }

  /** Which bytes are hexadecimal digits, of either case, and for which value. */
  lemma HexValueIff(b: byte, n: nat)
    ensures HexValue(b) == Some(n) <==>
      (n < 10 && b as nat == 48 + n) || (10 <= n < 16 && (b as nat == 55 + n || b as nat == 87 + n))
  {
  }

  /** The message types as they stand on the wire. */
  lemma CodesOnWire()
    ensures HexCode(ToCode(AuthorizationRequest)) == [48, 49, 48, 48]
    ensures HexCode(ToCode(AuthorizationResponse)) == [48, 49, 49, 48]
    ensures HexCode(ToCode(FinancialRequest)) == [48, 50, 48, 48]
    ensures HexCode(ToCode(FinancialResponse)) == [48, 50, 49, 48]
    ensures HexCode(ToCode(ReversalRequest)) == [48, 52, 48, 48]
    ensures HexCode(ToCode(ReversalResponse)) == [48, 52, 49, 48]
    ensures HexCode(ToCode(NetworkManagementRequest)) == [48, 56, 48, 48]
    ensures HexCode(ToCode(NetworkManagementResponse)) == [48, 56, 49, 48]
  {
    hide HexCode;
    HexOf(0, 1, 0, 0);
    HexOf(0, 1, 1, 0);
    HexOf(0, 2, 0, 0);
    HexOf(0, 2, 1, 0);
    HexOf(0, 4, 0, 0);
    HexOf(0, 4, 1, 0);
    HexOf(0, 8, 0, 0);
    HexOf(0, 8, 1, 0);
  }

  lemma Sixteens(n: nat, d: nat)
    requires d < 16
    ensures (16 * n + d) / 16 == n && (16 * n + d) % 16 == d
  {
  }

  lemma HexOf(a: nat, b: nat, c: nat, d: nat)
    requires a < 10 && b < 10 && c < 10 && d < 10
    ensures HexCode(4096 * a + 256 * b + 16 * c + d) ==
      [(48 + a) as byte, (48 + b) as byte, (48 + c) as byte, (48 + d) as byte]
  {
    var code := 4096 * a + 256 * b + 16 * c + d;
    Sixteens(256 * a + 16 * b + c, d);
    Sixteens(16 * a + b, c);
    Sixteens(a, b);
    assert code / 256 == code / 16 / 16 && code / 4096 == code / 256 / 16;
    HexValues(a);
    HexValues(b);
    HexValues(c);
    HexValues(d);
    hide HexDigit;
    assert HexCode(code) == [HexDigit(a), HexDigit(b), HexDigit(c), HexDigit(d)];
  }

  // ---------------------------------------------------------------- bitmaps

  /** The lowest `n` bytes of a number, highest first. */
  function ToBytes(x: nat, n: nat): (r: Bytes)
    ensures |r| == n
    decreases n
  {
    if n == 0 then [] else ToBytes(x / 256, n - 1) + [(x % 256) as byte]
  }

  function FromBytes(s: Bytes): nat {
    if s == [] then 0 else 256 * FromBytes(s[..|s| - 1]) + s[|s| - 1] as nat
  }

  lemma {:induction false} BytesRoundTrip(x: nat, n: nat)
    requires x < Pow2(8 * n)
    ensures FromBytes(ToBytes(x, n)) == x
    decreases n
  {
    if n > 0 {
      Pow2Add(8, 8 * (n - 1));
      assert Pow2(8) == 256;
      BytesRoundTrip(x / 256, n - 1);
      var s := ToBytes(x, n);
      assert s[..n - 1] == ToBytes(x / 256, n - 1);
    }
  }

  /** The bytes of a number, the highest first. */
  lemma {:induction false} ByteAt(x: nat, n: nat, k: nat)
    requires k < n
    ensures ToBytes(x, n)[k] as nat == (x / Pow2(8 * (n - 1 - k))) % 256
    decreases n
  {
    if k == n - 1 {
      assert Pow2(0) == 1;
    } else {
      ByteAt(x / 256, n - 1, k);
      Pow2Add(8, 8 * (n - 2 - k));
      assert Pow2(8) == 256 && 8 + 8 * (n - 2 - k) == 8 * (n - 1 - k);
      hide Pow2;
      DivDiv(x, 256, Pow2(8 * (n - 2 - k)));
    }
  }

  lemma BitOfByte(x: nat, n: nat, k: nat, j: nat)
    requires k < n && j < 8
    ensures HasBit(ToBytes(x, n)[k] as nat, j) <==> HasBit(x, 8 * (n - 1 - k) + j)
  {
    hide *;
    var m := 8 * (n - 1 - k);
    ByteAt(x, n, k);
    var y := x / Pow2(m);
    assert ToBytes(x, n)[k] as nat == y % 256;
    LowByte(y, j);
    ShiftedBit(x, m, j, y);
  }

  lemma LowByte(y: nat, j: nat)
    requires j < 8
    ensures HasBit(y % 256, j) <==> HasBit(y, j)
  {
    Pow2Add(j, 8 - j);
    assert Pow2(8) == 256 && Pow2(8 - j) == 2 * Pow2(7 - j);
    hide Pow2;
    LowBitsAlgebra(y % 256, y / 256, Pow2(j), Pow2(7 - j), 256);
    assert y == y % 256 + 256 * (y / 256);
  }

  lemma ShiftedBit(x: nat, m: nat, j: nat, y: nat)
    requires y == x / Pow2(m)
    ensures HasBit(y, j) <==> HasBit(x, m + j)
  {
    hide Pow2;
    Pow2Add(m, j);
    DivDiv(x, Pow2(m), Pow2(j));
  }

  // ---------------------------------------------------------------- messages as values

  type Elements = map<FieldId, Bytes>

  datatype Content = Content(mti: MessageType, primary: nat, secondary: Option<nat>, elements: Elements)

  /** What `set_element` builds: a bitmap has the bit of a field exactly when the message has the field. */
  ghost predicate Built(c: Content) {
    && c.primary < Pow2(64)
    && (forall id :: id in c.elements ==> 1 <= id <= 128)
    && (forall id {:trigger id in c.elements} :: 2 <= id <= 64 ==> (HasBit(c.primary, 64 - id) <==> id in c.elements))
    && (HasBit(c.primary, 63) <==> c.secondary.Some? || 1 in c.elements)
    && (c.secondary.Some? ==>
          && c.secondary.value < Pow2(64)
          && forall id {:trigger id in c.elements} :: 65 <= id <= 128 ==>
               (HasBit(c.secondary.value, 128 - id) <==> id in c.elements))
    && (c.secondary.None? ==> forall id :: id in c.elements ==> id <= 64)
  }

  ghost predicate AllEncodable(elements: Elements) {
    forall id :: id in elements ==> Encodable(id, elements[id])
  }

  /** What becomes of the elements, position by position. */
  lemma NormalElementsAre(elements: Elements)
    requires AllEncodable(elements)
    ensures var got := NormalElements(elements);
      && got.Keys == elements.Keys
      && forall id :: id in got ==>
           match EncodingOf(id).value
           case Fixed(len) =>
             && |got[id]| == len
             && forall i :: 0 <= i < len ==> got[id][i] == if i < |elements[id]| then elements[id][i] else 32
           case _ => got[id] == elements[id]
  {
    hide EncodingOf;
  }

  /** The message as it arrives: fixed values padded or cut to length, everything else as it was. */
  function NormalElements(elements: Elements): Elements {
    map id | id in elements :: Normal(id, elements[id])
  }

  // ---------------------------------------------------------------- writing

  /** The fields numbered `lo` to `hi - 1`, in ascending order. */
  function EncodeRange(elements: Elements, lo: nat, hi: nat): (r: Result<Bytes, IsoError>)
    ensures r.Failure? ==> r.error == InvalidFormat
    decreases hi - lo
  {
    if lo >= hi then Success([])
    else if lo !in elements then EncodeRange(elements, lo + 1, hi)
    else
      match EncodeField(lo, elements[lo])
      case Failure(e) => Failure(e)
      case Success(first) =>
        match EncodeRange(elements, lo + 1, hi)
        case Failure(e) => Failure(e)
        case Success(rest) => Success(first + rest)
  }

  lemma {:induction false} EncodeRangeSucceeds(elements: Elements, lo: nat, hi: nat)
    ensures EncodeRange(elements, lo, hi).Success? <==>
      forall id :: id in elements && lo <= id < hi ==> Encodable(id, elements[id])
    decreases hi - lo
  {
    if lo < hi { EncodeRangeSucceeds(elements, lo + 1, hi); }
  }

  lemma {:induction false} EncodeRangeSplit(elements: Elements, lo: nat, mid: nat, hi: nat)
    requires lo <= mid <= hi && EncodeRange(elements, lo, hi).Success?
    ensures EncodeRange(elements, lo, mid).Success? && EncodeRange(elements, mid, hi).Success?
    ensures EncodeRange(elements, lo, hi).value ==
      EncodeRange(elements, lo, mid).value + EncodeRange(elements, mid, hi).value
    decreases mid - lo
  {
    if lo < mid {
      EncodeRangeSplit(elements, lo + 1, mid, hi);
    }
  }

  lemma {:induction false} EncodeGap(elements: Elements, lo: nat, mid: nat, hi: nat)
    requires lo <= mid <= hi && forall id :: lo <= id < mid ==> id !in elements
    ensures EncodeRange(elements, lo, hi) == EncodeRange(elements, mid, hi)
    decreases mid - lo
  {
    if lo < mid { EncodeGap(elements, lo + 1, mid, hi); }
  }

  lemma {:induction false} EncodeWithout(elements: Elements, i: FieldId, lo: nat, hi: nat)
    requires i < lo
    ensures EncodeRange(elements - {i}, lo, hi) == EncodeRange(elements, lo, hi)
    decreases hi - lo
  {
    if lo < hi { EncodeWithout(elements, i, lo + 1, hi); }
  }

  /** The field with the least number is written first, then the others in the same way. */
  lemma LeastFirst(elements: Elements, i: FieldId)
    requires i in elements && (forall id :: id in elements ==> i <= id < 256) && AllEncodable(elements)
    ensures EncodeRange(elements, 0, 256).Success? && EncodeRange(elements - {i}, 0, 256).Success?
    ensures EncodeRange(elements, 0, 256).value ==
      EncodeField(i, elements[i]).value + EncodeRange(elements - {i}, 0, 256).value
  {
    EncodeRangeSucceeds(elements, 0, 256);
    EncodeRangeSucceeds(elements - {i}, 0, 256);
    EncodeGap(elements, 0, i, 256);
    EncodeGap(elements - {i}, 0, i + 1, 256);
    EncodeWithout(elements, i, i + 1, 256);
    hide EncodeField, Encodable;
  }

  lemma {:induction false} EncodeLastField(elements: Elements, lo: nat, id: nat)
    requires lo <= id && id in elements && EncodeRange(elements, lo, id).Success?
    ensures EncodeRange(elements, lo, id + 1) == match EncodeField(id, elements[id])
      case Failure(e) => Failure(e)
      case Success(last) => Success(EncodeRange(elements, lo, id).value + last)
    decreases id - lo
  {
    if lo < id {
      EncodeLastField(elements, lo + 1, id);
      if lo in elements && Encodable(id, elements[id]) {
        var first, rest, last := EncodeField(lo, elements[lo]).value, EncodeRange(elements, lo + 1, id).value,
          EncodeField(id, elements[id]).value;
        assert first + (rest + last) == (first + rest) + last;
      }
    } else if Encodable(id, elements[id]) {
      var last := EncodeField(id, elements[id]).value;
      assert last + [] == last && [] + last == last;
    }
  }

  function Header(c: Content): Bytes {
    HexCode(ToCode(c.mti)) + ToBytes(c.primary, 8) + if c.secondary.Some? then ToBytes(c.secondary.value, 8) else []
  }

  /** The bytes of a message. */
  function Serialized(c: Content): Result<Bytes, IsoError> {
    match EncodeRange(c.elements, 0, 256)
    case Failure(e) => Failure(e)
    case Success(body) => Success(Header(c) + body)
  }

  lemma SerializedIff(c: Content)
    requires forall id :: id in c.elements ==> id < 256
    ensures Serialized(c).Success? <==> AllEncodable(c.elements)
    ensures Serialized(c).Failure? ==> Serialized(c).error == InvalidFormat
  {
    EncodeRangeSucceeds(c.elements, 0, 256);
    hide EncodeRange, Encodable;
  }

  // ---------------------------------------------------------------- reading

  /**
   * Reads the fields from number `id` on whose bits are set in a bitmap for the fields `top - 63` to `top`;
   * the first field of the bitmap is no data element and is passed over.
   */
  function DecodeRange(bitmap: nat, top: nat, id: nat, data: Bytes, pos: nat,
      elements: Elements): (r: Result<(Elements, nat), IsoError>)
    requires 64 <= top && top - 63 <= id <= top + 1
    ensures r.Failure? ==> r.error == InvalidFormat
    decreases top + 1 - id
  {
    if id > top then Success((elements, pos))
    else if id == top - 63 || !HasBit(bitmap, top - id) then DecodeRange(bitmap, top, id + 1, data, pos, elements)
    else
      match DecodeField(id, data, pos)
      case Failure(e) => Failure(e)
      case Success((value, next)) => DecodeRange(bitmap, top, id + 1, data, next, elements[id := value])
  }

  /** The message type: four hexadecimal digits if the first byte is a digit, else two bytes. */
  function ParseMti(data: Bytes): Result<(nat, nat), IsoError>
    requires |data| >= 10
  {
    if IsDigit(data[0]) then
      match ParseHexCode(data[..4])
      case None => Failure(InvalidFormat)
      case Some(code) => Success((code, 4))
    else Success((256 * data[0] as nat + data[1] as nat, 2))
  }

  /** The message that a byte string stands for. */
  function Parsed(data: Bytes): Result<Content, IsoError> {
    if |data| < 10 then Failure(InvalidFormat)
    else
      match ParseMti(data)
      case Failure(e) => Failure(e)
      case Success((code, pos)) =>
        if FromCode(code).None? then Failure(UnknownMessageType)
        else ParsedAfterMti(data, FromCode(code).value, pos)
  }

  function ParsedAfterMti(data: Bytes, mti: MessageType, pos: nat): Result<Content, IsoError> {
    if pos + 8 > |data| then Failure(InvalidFormat)
    else
      var primary := FromBytes(data[pos..pos + 8]);
      var extended := HasBit(primary, 63);
      if extended && pos + 16 > |data| then Failure(InvalidFormat)
      else
        var secondary := if extended then Some(FromBytes(data[pos + 8..pos + 16])) else None;
        match DecodeRange(primary, 64, 1, data, if extended then pos + 16 else pos + 8, map[])
        case Failure(e) => Failure(e)
        case Success((first, next)) =>
          if !extended then Success(Content(mti, primary, None, first))
          else
            match DecodeRange(secondary.value, 128, 65, data, next, first)
            case Failure(e) => Failure(e)
            case Success((both, _)) => Success(Content(mti, primary, secondary, both))
  }

  lemma SameAhead(a: Bytes, pos: nat, b: Bytes, pos': nat, n: nat)
    requires pos <= |a| && pos' <= |b| && a[pos..] == b[pos'..]
    ensures pos + n <= |a| <==> pos' + n <= |b|
    ensures pos + n <= |a| ==> a[pos..pos + n] == b[pos'..pos' + n] && a[pos + n..] == b[pos' + n..]
  {
    var rest := a[pos..];
    assert |rest| == |a| - pos == |b| - pos';
    if n <= |rest| {
      assert a[pos..pos + n] == rest[..n] == b[pos'..pos' + n];
      assert a[pos + n..] == rest[n..] == b[pos' + n..];
    }
  }

  /** One field reads alike wherever it stands. */
  lemma FieldShift(id: FieldId, a: Bytes, pos: nat, b: Bytes, pos': nat)
    requires pos <= |a| && pos' <= |b| && a[pos..] == b[pos'..]
    ensures var r, r' := DecodeField(id, a, pos), DecodeField(id, b, pos');
      if r.Failure? then r' == r
      else r'.Success? && r'.value.0 == r.value.0 && a[r.value.1..] == b[r'.value.1..]
  {
    hide EncodingOf, ParseDecimal;
    match EncodingOf(id)
    case None =>
    case Some(Fixed(len)) => SameAhead(a, pos, b, pos', len);
    case Some(LlVar(_)) => PrefixedShift(a, pos, b, pos', 2);
    case Some(LllVar(_)) => PrefixedShift(a, pos, b, pos', 3);
  }

  lemma PrefixedShift(a: Bytes, pos: nat, b: Bytes, pos': nat, width: nat)
    requires pos <= |a| && pos' <= |b| && a[pos..] == b[pos'..]
    ensures var r, r' := TakePrefixed(a, pos, width), TakePrefixed(b, pos', width);
      if r.Failure? then r' == r
      else r'.Success? && r'.value.0 == r.value.0 && a[r.value.1..] == b[r'.value.1..]
  {
    hide ParseDecimal;
    SameAhead(a, pos, b, pos', width);
    if pos + width <= |a| && ParseDecimal(a[pos..pos + width]).Some? {
      SameAhead(a, pos + width, b, pos' + width, ParseDecimal(a[pos..pos + width]).value);
    }
  }

  lemma {:induction false} RangeShift(bitmap: nat, top: nat, id: nat, a: Bytes, pos: nat, b: Bytes, pos': nat,
      elements: Elements)
    requires 64 <= top && top - 63 <= id <= top + 1
    requires pos <= |a| && pos' <= |b| && a[pos..] == b[pos'..]
    ensures var r := DecodeRange(bitmap, top, id, a, pos, elements);
      var r' := DecodeRange(bitmap, top, id, b, pos', elements);
      if r.Failure? then r' == r
      else
        && r'.Success? && r'.value.0 == r.value.0 && r.value.1 <= |a| && r'.value.1 <= |b|
        && a[r.value.1..] == b[r'.value.1..]
    decreases top + 1 - id
  {
    hide HasBit, DecodeField;
    if id <= top {
      if id == top - 63 || !HasBit(bitmap, top - id) {
        RangeShift(bitmap, top, id + 1, a, pos, b, pos', elements);
      } else {
        FieldShift(id, a, pos, b, pos');
        var r, r' := DecodeField(id, a, pos), DecodeField(id, b, pos');
        if r.Success? {
          RangeShift(bitmap, top, id + 1, a, r.value.1, b, r'.value.1, elements[id := r.value.0]);
        }
      }
    }
  }

  /** What follows the message type reads alike wherever it stands. */
  lemma AfterMtiShift(mti: MessageType, a: Bytes, pos: nat, b: Bytes, pos': nat)
    requires pos <= |a| && pos' <= |b| && a[pos..] == b[pos'..]
    ensures ParsedAfterMti(a, mti, pos) == ParsedAfterMti(b, mti, pos')
  {
    hide HasBit, FromBytes, DecodeRange;
    var rest := a[pos..];
    if |rest| >= 8 {
      assert a[pos..pos + 8] == rest[..8] == b[pos'..pos' + 8];
      var primary := FromBytes(rest[..8]);
      if !HasBit(primary, 63) {
        assert a[pos + 8..] == rest[8..] == b[pos' + 8..];
        RangeShift(primary, 64, 1, a, pos + 8, b, pos' + 8, map[]);
      } else if |rest| >= 16 {
        assert a[pos + 8..pos + 16] == rest[8..16] == b[pos' + 8..pos' + 16];
        assert a[pos + 16..] == rest[16..] == b[pos' + 16..];
        RangeShift(primary, 64, 1, a, pos + 16, b, pos' + 16, map[]);
        var low := DecodeRange(primary, 64, 1, a, pos + 16, map[]);
        var low' := DecodeRange(primary, 64, 1, b, pos' + 16, map[]);
        if low.Success? {
          RangeShift(FromBytes(rest[8..16]), 128, 65, a, low.value.1, b, low'.value.1, low.value.0);
        }
      }
    }
  }

  /** What has been read stays the same when more follows. */
  lemma FieldLonger(id: FieldId, data: Bytes, pos: nat, extra: Bytes)
    requires DecodeField(id, data, pos).Success?
    ensures DecodeField(id, data + extra, pos) == DecodeField(id, data, pos)
  {
    forall i, j | 0 <= i <= j <= |data| ensures (data + extra)[i..j] == data[i..j] {
    }
    hide EncodingOf, ParseDecimal;
  }

  lemma {:induction false} RangeLonger(bitmap: nat, top: nat, id: nat, data: Bytes, pos: nat, extra: Bytes,
      elements: Elements)
    requires 64 <= top && top - 63 <= id <= top + 1
    requires DecodeRange(bitmap, top, id, data, pos, elements).Success?
    ensures DecodeRange(bitmap, top, id, data + extra, pos, elements) ==
      DecodeRange(bitmap, top, id, data, pos, elements)
    decreases top + 1 - id
  {
    hide HasBit, DecodeField;
    if id <= top {
      if id == top - 63 || !HasBit(bitmap, top - id) {
        RangeLonger(bitmap, top, id + 1, data, pos, extra, elements);
      } else {
        FieldLonger(id, data, pos, extra);
        var r := DecodeField(id, data, pos).value;
        RangeLonger(bitmap, top, id + 1, data, r.1, extra, elements[id := r.0]);
      }
    }
  }

  /** Whatever stands behind a message is ignored. */
  lemma TrailingIgnored(data: Bytes, extra: Bytes)
    requires Parsed(data).Success?
    ensures Parsed(data + extra) == Parsed(data)
  {
    hide HasBit, FromBytes, DecodeRange, ParseHexCode, IsDigit;
    var long := data + extra;
    assert long[..4] == data[..4] && long[0] == data[0] && long[1] == data[1];
    var pos := ParseMti(data).value.1;
    assert long[pos..pos + 8] == data[pos..pos + 8];
    var primary := FromBytes(data[pos..pos + 8]);
    if HasBit(primary, 63) {
      assert long[pos + 8..pos + 16] == data[pos + 8..pos + 16];
      RangeLonger(primary, 64, 1, data, pos + 16, extra, map[]);
      var low := DecodeRange(primary, 64, 1, data, pos + 16, map[]).value;
      RangeLonger(FromBytes(data[pos + 8..pos + 16]), 128, 65, data, low.1, extra, low.0);
    } else {
      RangeLonger(primary, 64, 1, data, pos + 8, extra, map[]);
    }
  }

  lemma AsTwoBytes(mti: MessageType)
    ensures ToCode(mti) < 65536 && !IsDigit((ToCode(mti) / 256) as byte)
    ensures 256 * ((ToCode(mti) / 256) as byte) as nat + ((ToCode(mti) % 256) as byte) as nat == ToCode(mti)
  {
  }

  /** The message type may stand as two bytes in place of four digits: whatever follows is read alike. */
  lemma TwoForms(mti: MessageType, rest: Bytes)
    ensures ToCode(mti) < 65536
    ensures Parsed([(ToCode(mti) / 256) as byte, (ToCode(mti) % 256) as byte] + rest) ==
      Parsed(HexCode(ToCode(mti)) + rest)
  {
    hide ToCode, FromCode, HexCode, ParseHexCode, HasBit, DecodeRange, FromBytes, IsDigit;
    AsTwoBytes(mti);
    CodesRoundTrip(mti);
    FourBytes(ToCode(mti));
    var x: Bytes, y := [(ToCode(mti) / 256) as byte, (ToCode(mti) % 256) as byte], HexCode(ToCode(mti));
    var a, b := x + rest, y + rest;
    assert a[2..] == rest == b[4..] && b[..4] == y && b[0] == y[0];
    AfterMtiShift(mti, a, 2, b, 4);
  }

  lemma FourBytes(code: nat)
    ensures |HexCode(code)| == 4
  {
  }

  /** Which data is refused for its message type: other failures are of the format. */
  lemma UnknownTypeIff(data: Bytes)
    ensures var known := {0x0100, 0x0110, 0x0200, 0x0210, 0x0400, 0x0410, 0x0800, 0x0810};
      Parsed(data) == Failure(UnknownMessageType) <==>
        && |data| >= 10
        && if 48 <= data[0] <= 57 then ParseHexCode(data[..4]).Some? && ParseHexCode(data[..4]).value !in known
           else 256 * data[0] as nat + data[1] as nat !in known
  {
    hide DecodeRange, HasBit, FromBytes, ParseHexCode;
  }

  // ---------------------------------------------------------------- the round trip

  /** `r` is `acc` with the normal forms of the fields numbered `lo` to `hi - 1` entered. */
  ghost predicate Entered(acc: Elements, elements: Elements, lo: nat, hi: nat, r: Elements) {
    && (forall id :: id in r <==> id in acc || (lo <= id < hi && id in elements))
    && (forall id :: id in r ==> r[id] == if lo <= id < hi && id in elements then Normal(id, elements[id]) else acc[id])
  }

  /** Reading back a range of fields that a bitmap announces. */
  lemma {:induction false} RangeRoundTrip(bitmap: nat, top: nat, id: nat, elements: Elements, before: Bytes,
      after: Bytes, acc: Elements)
    requires 64 <= top && top - 62 <= id <= top + 1
    requires forall k {:trigger k in elements} :: id <= k <= top ==> (HasBit(bitmap, top - k) <==> k in elements)
    requires EncodeRange(elements, id, top + 1).Success?
    ensures var body := EncodeRange(elements, id, top + 1).value;
      var r := DecodeRange(bitmap, top, id, before + body + after, |before|, acc);
      && r.Success? && r.value.1 == |before| + |body|
      && Entered(acc, elements, id, top + 1, r.value.0)
    decreases top + 1 - id
  {
    hide EncodeField, DecodeField, Normal, Encodable, HasBit;
    if id <= top {
      assert id in elements <==> HasBit(bitmap, top - id);
      if id !in elements {
        RangeRoundTrip(bitmap, top, id + 1, elements, before, after, acc);
      } else {
        FieldThenRange(bitmap, top, id, elements, before, after, acc);
      }
    }
  }

  lemma {:induction false} FieldThenRange(bitmap: nat, top: nat, id: nat, elements: Elements, before: Bytes,
      after: Bytes, acc: Elements)
    requires 64 <= top && top - 62 <= id <= top && id in elements
    requires forall k {:trigger k in elements} :: id <= k <= top ==> (HasBit(bitmap, top - k) <==> k in elements)
    requires EncodeRange(elements, id, top + 1).Success?
    ensures var body := EncodeRange(elements, id, top + 1).value;
      var r := DecodeRange(bitmap, top, id, before + body + after, |before|, acc);
      && r.Success? && r.value.1 == |before| + |body|
      && Entered(acc, elements, id, top + 1, r.value.0)
    decreases top + 1 - id, 0
  {
    hide EncodeField, DecodeField, Normal, Encodable, HasBit;
    var e := EncodeField(id, elements[id]).value;
    var rest := EncodeRange(elements, id + 1, top + 1).value;
    var body := EncodeRange(elements, id, top + 1).value;
    assert body == e + rest;
    ReadAsNormal(id, elements[id], before, rest + after);
    assert before + body + after == before + e + (rest + after) == (before + e) + rest + after;
    RangeRoundTrip(bitmap, top, id + 1, elements, before + e, after, acc[id := Normal(id, elements[id])]);
    assert HasBit(bitmap, top - id);
  }

  lemma HeaderParses(c: Content, body: Bytes)
    requires c.primary < Pow2(64) && (c.secondary.Some? ==> c.secondary.value < Pow2(64))
    ensures var data := Header(c) + body;
      && |data| >= 12 && ParseMti(data) == Success((ToCode(c.mti), 4)) && FromCode(ToCode(c.mti)) == Some(c.mti)
      && FromBytes(data[4..12]) == c.primary
      && (c.secondary.Some? ==> |data| >= 20 && FromBytes(data[12..20]) == c.secondary.value)
      && |Header(c)| == if c.secondary.Some? then 20 else 12
  {
    hide ToBytes, FromBytes, HexCode, ParseHexCode, ToCode, FromCode, IsDigit, Pow2;
    var data := Header(c) + body;
    CodesRoundTrip(c.mti);
    HeaderSlices(c, body);
    assert data[0] == data[..4][0];
    BytesRoundTrip(c.primary, 8);
    if c.secondary.Some? { BytesRoundTrip(c.secondary.value, 8); }
  }

  lemma HeaderSlices(c: Content, body: Bytes)
    ensures var data := Header(c) + body;
      && |data| >= 12 && data[..4] == HexCode(ToCode(c.mti)) && data[4..12] == ToBytes(c.primary, 8)
      && (c.secondary.Some? ==> |data| >= 20 && data[12..20] == ToBytes(c.secondary.value, 8))
      && |Header(c)| == if c.secondary.Some? then 20 else 12
  {
    hide ToBytes, HexDigit, ToCode;
  }

  /**
   * A message built over fields 2 to 64 and 66 to 128, with its variable values within their maximum, is
   * read back as it was, fixed values padded or cut to length.
   */
  lemma RoundTrip(c: Content)
    requires Built(c) && AllEncodable(c.elements) && 1 !in c.elements && 65 !in c.elements
    ensures Serialized(c).Success?
    ensures Parsed(Serialized(c).value) == Success(c.(elements := NormalElements(c.elements)))
    ensures var got := Parsed(Serialized(c).value).value.elements;
      && got.Keys == c.elements.Keys
      && forall id :: id in got ==>
           match EncodingOf(id).value
           case Fixed(len) =>
             && |got[id]| == len
             && forall i :: 0 <= i < len ==> got[id][i] == if i < |c.elements[id]| then c.elements[id][i] else 32
           case _ => got[id] == c.elements[id]
  {
    ReadBack(c);
    NormalElementsAre(c.elements);
    hide NormalElements, Parsed, Serialized, EncodingOf;
  }

  lemma ReadBack(c: Content)
    requires Built(c) && AllEncodable(c.elements) && 1 !in c.elements && 65 !in c.elements
    ensures Serialized(c).Success?
    ensures Parsed(Serialized(c).value) == Success(c.(elements := NormalElements(c.elements)))
  {
    hide HasBit, Encodable, Normal, EncodeField, DecodeField, ParseMti, FromBytes, EncodeRange, DecodeRange,
      Header, Pow2;
    EncodeRangeSucceeds(c.elements, 0, 256);
    var body := EncodeRange(c.elements, 0, 256).value;
    HeaderParses(c, body);
    BodyParts(c);
    var low := EncodeRange(c.elements, 2, 65).value;
    if c.secondary.None? {
      RangeRoundTrip(c.primary, 64, 2, c.elements, Header(c), [], map[]);
      assert Header(c) + low + [] == Header(c) + body;
      FirstIsSkipped(c.primary, 64, Header(c) + body, |Header(c)|, map[]);
      var r := DecodeRange(c.primary, 64, 2, Header(c) + body, |Header(c)|, map[]).value.0;
      assert r == NormalElements(c.elements);
    } else {
      var high := EncodeRange(c.elements, 66, 129).value;
      RangeRoundTrip(c.primary, 64, 2, c.elements, Header(c), high, map[]);
      assert Header(c) + low + high == Header(c) + body;
      FirstIsSkipped(c.primary, 64, Header(c) + body, |Header(c)|, map[]);
      var first := DecodeRange(c.primary, 64, 2, Header(c) + body, |Header(c)|, map[]).value.0;
      RangeRoundTrip(c.secondary.value, 128, 66, c.elements, Header(c) + low, [], first);
      assert Header(c) + low + high + [] == Header(c) + body;
      FirstIsSkipped(c.secondary.value, 128, Header(c) + body, |Header(c) + low|, first);
      var r := DecodeRange(c.secondary.value, 128, 66, Header(c) + body, |Header(c) + low|, first).value.0;
      assert r == NormalElements(c.elements);
    }
  }

  lemma FirstIsSkipped(bitmap: nat, top: nat, data: Bytes, pos: nat, acc: Elements)
    requires 64 <= top
    ensures DecodeRange(bitmap, top, top - 63, data, pos, acc) == DecodeRange(bitmap, top, top - 62, data, pos, acc)
  {
  }

  /**
   * The bitmaps on the wire: counting the bits of the message after its type from 1, highest bit of each byte
   * first, the bit with the number of a field is set exactly if the message has the field.
   */
  lemma BitmapOnWire(c: Content, id: FieldId)
    requires Built(c) && (2 <= id <= 64 || (66 <= id <= 128 && c.secondary.Some?))
    ensures |Header(c)| >= 4 + (id - 1) / 8 + 1
    ensures HasBit(Header(c)[4 + (id - 1) / 8] as nat, 7 - (id - 1) % 8) <==> id in c.elements
  {
    hide ToBytes, HasBit, Pow2, HexDigit;
    var k, j := (id - 1) / 8, 7 - (id - 1) % 8;
    if id <= 64 {
      assert Header(c)[4 + k] == ToBytes(c.primary, 8)[k];
      assert 8 * (7 - k) + j == 64 - id;
      BitOfByte(c.primary, 8, k, j);
    } else {
      assert Header(c)[4 + k] == ToBytes(c.secondary.value, 8)[k - 8];
      assert 8 * (7 - (k - 8)) + j == 128 - id;
      BitOfByte(c.secondary.value, 8, k - 8, j);
    }
  }

  /** The body is the fields of the first bitmap followed by those of the second. */
  lemma BodyParts(c: Content)
    requires Built(c) && EncodeRange(c.elements, 0, 256).Success? && 1 !in c.elements && 65 !in c.elements
    ensures EncodeRange(c.elements, 2, 65).Success? && EncodeRange(c.elements, 66, 129).Success?
    ensures EncodeRange(c.elements, 0, 256).value ==
      EncodeRange(c.elements, 2, 65).value + EncodeRange(c.elements, 66, 129).value
    ensures c.secondary.None? ==> EncodeRange(c.elements, 66, 129).value == []
  {
    hide HasBit, EncodeField;
    EncodeGap(c.elements, 0, 2, 256);
    EncodeRangeSplit(c.elements, 2, 65, 256);
    EncodeGap(c.elements, 65, 66, 256);
    EncodeRangeSplit(c.elements, 66, 129, 256);
    EncodeGap(c.elements, 129, 256, 256);
    assert EncodeRange(c.elements, 256, 256) == Success([]);
    if c.secondary.None? {
      EncodeGap(c.elements, 66, 129, 129);
      assert EncodeRange(c.elements, 129, 129) == Success([]);
    }
  }

  /** The parser never yields the fields 1 and 65, so that a message with one of them does not survive. */
  lemma RoundTripIff(c: Content)
    requires Built(c) && AllEncodable(c.elements)
    ensures Serialized(c).Success?
    ensures Parsed(Serialized(c).value) == Success(c.(elements := NormalElements(c.elements)))
      <==> 1 !in c.elements && 65 !in c.elements
  {
    hide HasBit, Encodable, Normal, EncodeField, DecodeField, EncodeRange, Header, Parsed, Pow2, Built;
    EncodeRangeSucceeds(c.elements, 0, 256);
    var data := Serialized(c).value;
    if 1 !in c.elements && 65 !in c.elements {
      ReadBack(c);
    } else {
      ParsedFields(data);
      assert 1 in NormalElements(c.elements) || 65 in NormalElements(c.elements);
    }
  }

  lemma ParsedFields(data: Bytes)
    ensures Parsed(data).Success? ==> 1 !in Parsed(data).value.elements && 65 !in Parsed(data).value.elements
  {
    hide HasBit, ParseMti, DecodeRange, FromBytes;
    if Parsed(data).Success? {
      var pos := ParseMti(data).value.1;
      var primary := FromBytes(data[pos..pos + 8]);
      var start := if HasBit(primary, 63) then pos + 16 else pos + 8;
      var low := DecodeRange(primary, 64, 1, data, start, map[]);
      assert low.Success?;
      FirstBitmapFields(primary, data, start);
      if HasBit(primary, 63) {
        SecondBitmapFields(FromBytes(data[pos + 8..pos + 16]), data, low.value.1, low.value.0);
      }
    }
  }

  lemma FirstBitmapFields(bitmap: nat, data: Bytes, pos: nat)
    ensures var r := DecodeRange(bitmap, 64, 1, data, pos, map[]);
      r.Success? ==> forall k :: k in r.value.0 ==> 2 <= k <= 64
  {
    hide DecodeRange;
    DecodedFields(bitmap, 64, 1, data, pos, map[]);
  }

  lemma SecondBitmapFields(bitmap: nat, data: Bytes, pos: nat, acc: Elements)
    requires forall k :: k in acc ==> 2 <= k <= 64
    ensures var r := DecodeRange(bitmap, 128, 65, data, pos, acc);
      r.Success? ==> forall k :: k in r.value.0 ==> 2 <= k <= 128 && k != 65
  {
    hide DecodeRange;
    DecodedFields(bitmap, 128, 65, data, pos, acc);
  }

  lemma {:induction false} DecodedFields(bitmap: nat, top: nat, id: nat, data: Bytes, pos: nat, acc: Elements)
    requires 64 <= top && top - 63 <= id <= top + 1
    ensures var r := DecodeRange(bitmap, top, id, data, pos, acc);
      r.Success? ==> forall k :: k in r.value.0 ==> k in acc || (id <= k <= top && k != top - 63)
    decreases top + 1 - id
  {
    hide HasBit, DecodeField;
    if id <= top {
      if id == top - 63 || !HasBit(bitmap, top - id) {
        DecodedFields(bitmap, top, id + 1, data, pos, acc);
      } else if DecodeField(id, data, pos).Success? {
        var (value, next) := DecodeField(id, data, pos).value;
        assert DecodeRange(bitmap, top, id, data, pos, acc) ==
          DecodeRange(bitmap, top, id + 1, data, next, acc[id := value]);
        DecodedFields(bitmap, top, id + 1, data, next, acc[id := value]);
        assert id != top - 63 && forall k :: k in acc[id := value] ==> k in acc || k == id;
      }
    }
  }

  // ---------------------------------------------------------------- the message object

  class Iso8583Message {
    var mti: MessageType
    var primaryBitmap: nat
    var secondaryBitmap: Option<nat>
    var elements: Elements

    ghost function State(): Content
      reads this
    {
      Content(mti, primaryBitmap, secondaryBitmap, elements)
    }

    constructor (mti: MessageType)
      ensures State() == Content(mti, 0, None, map[]) && Built(State())
    {
      this.mti := mti;
      primaryBitmap, secondaryBitmap, elements := 0, None, map[];
      new;
      hide Built;
      BuiltEmpty(mti);
      assert State() == Content(mti, 0, None, map[]);
    }

    /**
     * Sets a field and its bit. For the number 0 the shift overflows, and for those above 128 the subtraction
     * before it: in a build with overflow checks the call panics, which the result `false` stands for, in one
     * without them they wrap, and another field is marked.
     */
    method SetElement(id: FieldId, value: Bytes, checks: bool) returns (ok: bool)
      requires id < 256
      modifies this
      ensures ok <==> 1 <= id <= 128 || !checks
      ensures elements == (if ok then old(elements)[id := value] else old(elements)) && mti == old(mti)
      ensures old(Built(State())) ==> (Built(State()) <==> !ok || 1 <= id <= 128)
      ensures secondaryBitmap.Some? <==> old(secondaryBitmap).Some? || id > 64
      ensures forall b: nat :: HasBit(primaryBitmap, b) <==>
        || HasBit(old(primaryBitmap), b)
        || (id > 64 && old(secondaryBitmap).None? && b == 63)
        || (ok && id <= 64 && b == if id == 0 then 0 else 64 - id)
      ensures secondaryBitmap.Some? ==> forall b: nat :: HasBit(secondaryBitmap.value, b) <==>
        || (old(secondaryBitmap).Some? && HasBit(old(secondaryBitmap).value, b))
        || (ok && id > 64 && b == if id <= 128 then 128 - id else if id <= 192 then 192 - id else 256 - id)
    {
      hide Built, SetBit, HasBit;
      ghost var before := State();
      NoBits();
      forall x: nat, k: nat, m: nat ensures HasBit(SetBit(x, k), m) <==> m == k || HasBit(x, m) {
        SetBitEffect(x, k, m);
      }
      if id <= 64 {
        if checks && id == 0 { return false; }
        primaryBitmap := SetBit(primaryBitmap, (64 - id) % 64);
      } else {
        if secondaryBitmap == None {
          secondaryBitmap := Some(0);
          primaryBitmap := SetBit(primaryBitmap, 63);
        }
        if checks && id > 128 {
          if Built(before) { BuiltAnnounced(before); }
          return false;
        }
        secondaryBitmap := Some(SetBit(secondaryBitmap.value, (128 - id) % 64));
      }
      elements := elements[id := value];
      assert State().elements == before.elements[id := value] && id in State().elements;
      if Built(before) && 1 <= id <= 128 {
        assert (64 - id) % 64 == if id <= 64 then 64 - id else 128 - id;
        if id <= 64 { BuiltLow(before, id, value); } else { BuiltHigh(before, id, value); }
      }
      BuiltNumbers(State());
      return true;
    }

    /** Writes the message: the fields in ascending order of their numbers. */
    method Serialize() returns (r: Result<Bytes, IsoError>)
      requires forall id :: id in elements ==> id < 256
      ensures r == Serialized(State())
      ensures r.Success? <==> AllEncodable(elements)
      ensures r.Failure? ==> r.error == InvalidFormat
    {
      hide EncodeField, HexCode, ToBytes, EncodeRange, AllEncodable;
      SerializedIff(State());
      var data := HexCode(ToCode(mti)) + ToBytes(primaryBitmap, 8);
      if secondaryBitmap.Some? { data := data + ToBytes(secondaryBitmap.value, 8); }
      assert data == Header(State());
      var ids := SortedIds();
      ghost var done := 0;
      EncodeNone(elements);
      for i := 0 to |ids|
        invariant done <= 256 && EncodeRange(elements, 0, done).Success?
        invariant data == Header(State()) + EncodeRange(elements, 0, done).value
        invariant forall id :: id in elements && id >= done ==> exists k :: i <= k < |ids| && ids[k] == id
        invariant forall k :: i <= k < |ids| ==> ids[k] >= done
      {
        hide *;
        var id := ids[i];
        assert id in ids && id in elements;
        assert forall k {:trigger k in elements} :: done <= k < id ==> k !in elements;
        EncodeNext(elements, done, id);
        var field := EncodeField(id, elements[id]);
        if field.Failure? { return Failure(field.error); }
        assert data + field.value == Header(State()) + EncodeRange(elements, 0, id + 1).value;
        data := data + field.value;
        done := id + 1;
      }
      EncodeUpTo(elements, done, 256);
      return Success(data);
    }

    /** The numbers of the fields, ascending. */
    method SortedIds() returns (ids: seq<FieldId>)
      requires forall id :: id in elements ==> id < 256
      ensures forall i, j :: 0 <= i < j < |ids| ==> ids[i] < ids[j]
      ensures forall id :: id in elements <==> id in ids
    {
      ids := [];
      var todo := elements.Keys;
      while todo != {}
        invariant todo <= elements.Keys
        invariant forall i, j :: 0 <= i < j < |ids| ==> ids[i] < ids[j]
        invariant forall id :: id in elements <==> id in ids || id in todo
        invariant forall id, k :: id in todo && 0 <= k < |ids| ==> ids[k] < id
      {
        var least := Least(todo);
        ids := ids + [least];
        todo := todo - {least};
      }
    }

    static method Least(s: set<nat>) returns (m: nat)
      requires s != {}
      ensures m in s && forall x :: x in s ==> m <= x
    {
      m :| m in s;
      var todo := s - {m};
      while todo != {}
        invariant m in s && todo <= s
        invariant forall x :: x in s && x !in todo ==> m <= x
        decreases todo
      {
        var x :| x in todo;
        if x < m { m := x; }
        todo := todo - {x};
      }
    }
  }

  lemma EncodeNone(elements: Elements)
    ensures EncodeRange(elements, 0, 0) == Success([])
  {
  }

  /** The next field that is there follows the fields before it, or decides with its failure. */
  lemma EncodeNext(elements: Elements, lo: nat, id: nat)
    requires lo <= id < 256 && id in elements && EncodeRange(elements, 0, lo).Success?
    requires forall k :: lo <= k < id ==> k !in elements
    ensures var field := EncodeField(id, elements[id]);
      if field.Failure? then EncodeRange(elements, 0, 256) == Failure(field.error)
      else EncodeRange(elements, 0, id + 1) == Success(EncodeRange(elements, 0, lo).value + field.value)
  {
    hide EncodeField, EncodeRange;
    EncodeUpTo(elements, lo, id);
    EncodeLastField(elements, 0, id);
    if EncodeField(id, elements[id]).Failure? { FailureStays(elements, id + 1, 256); }
  }

  lemma EncodeUpTo(elements: Elements, lo: nat, hi: nat)
    requires lo <= hi && EncodeRange(elements, 0, lo).Success? && forall id :: lo <= id < hi ==> id !in elements
    ensures EncodeRange(elements, 0, hi) == EncodeRange(elements, 0, lo)
    decreases hi - lo
  {
    if lo < hi {
      EncodeSkip(elements, 0, lo);
      EncodeUpTo(elements, lo + 1, hi);
    }
  }

  lemma {:induction false} EncodeSkip(elements: Elements, from: nat, id: nat)
    requires from <= id && id !in elements
    ensures EncodeRange(elements, from, id + 1) == EncodeRange(elements, from, id)
    decreases id - from
  {
    if from < id { EncodeSkip(elements, from + 1, id); }
  }

  /** The first field that cannot be written decides, whatever follows it. */
  lemma {:induction false} FailureStays(elements: Elements, mid: nat, hi: nat)
    requires mid <= hi && EncodeRange(elements, 0, mid).Failure?
    ensures EncodeRange(elements, 0, hi) == EncodeRange(elements, 0, mid)
  {
    FailureStaysFrom(elements, 0, mid, hi);
  }

  lemma {:induction false} FailureStaysFrom(elements: Elements, lo: nat, mid: nat, hi: nat)
    requires lo <= mid <= hi && EncodeRange(elements, lo, mid).Failure?
    ensures EncodeRange(elements, lo, hi) == EncodeRange(elements, lo, mid)
    decreases mid - lo
  {
    if lo < mid && (lo !in elements || EncodeField(lo, elements[lo]).Success?) {
      FailureStaysFrom(elements, lo + 1, mid, hi);
    }
  }

  lemma NoBits()
    ensures forall k: nat :: !HasBit(0, k)
  {
    forall k: nat ensures !HasBit(0, k) {
      DivUnique(0, Pow2(k), 0, 0);
    }
  }

  lemma BuiltEmpty(mti: MessageType)
    ensures Built(Content(mti, 0, None, map[]))
  {
    NoBits();
    hide HasBit, Pow2;
  }

  lemma BuiltNumbers(c: Content)
    ensures Built(c) ==> forall id :: id in c.elements ==> 1 <= id <= 128
  {
  }

  /** The second bitmap may be announced although it is still empty. */
  lemma BuiltAnnounced(c: Content)
    requires Built(c)
    ensures Built(if c.secondary.None? then c.(secondary := Some(0), primary := SetBit(c.primary, 63)) else c)
  {
    SetBitBound(c.primary, 63, 64);
    var p := SetBit(c.primary, 63);
    forall k: nat ensures HasBit(p, k) <==> k == 63 || HasBit(c.primary, k) {
      SetBitEffect(c.primary, 63, k);
    }
    NoBits();
    assert Pow2(64) > 0;
    hide HasBit, SetBit, Pow2;
  }

  /** A message with a field numbered 0 or above 128 cannot be written. */
  lemma StrangeNumberUnwritable(c: Content, id: FieldId)
    requires id in c.elements && id < 256 && !(1 <= id <= 128)
    ensures Serialized(c).Failure?
  {
    EncodeRangeSucceeds(c.elements, 0, 256);
  }

  lemma BuiltLow(c: Content, id: FieldId, value: Bytes)
    requires Built(c) && 1 <= id <= 64
    ensures Built(c.(primary := SetBit(c.primary, 64 - id), elements := c.elements[id := value]))
  {
    hide HasBit, SetBit, Pow2;
    SetBitBound(c.primary, 64 - id, 64);
    var p := SetBit(c.primary, 64 - id);
    forall k: nat ensures HasBit(p, k) <==> k == 64 - id || HasBit(c.primary, k) {
      SetBitEffect(c.primary, 64 - id, k);
    }
  }

  lemma BuiltHigh(c: Content, id: FieldId, value: Bytes)
    requires Built(c) && 65 <= id <= 128
    ensures var grown := if c.secondary.None? then c.(secondary := Some(0), primary := SetBit(c.primary, 63)) else c;
      Built(grown.(secondary := Some(SetBit(grown.secondary.value, 128 - id)), elements := c.elements[id := value]))
  {
    var grown := if c.secondary.None? then c.(secondary := Some(0), primary := SetBit(c.primary, 63)) else c;
    SetBitBound(c.primary, 63, 64);
    SetBitBound(grown.secondary.value, 128 - id, 64);
    var p, s := SetBit(c.primary, 63), SetBit(grown.secondary.value, 128 - id);
    forall k: nat ensures HasBit(p, k) <==> k == 63 || HasBit(c.primary, k) {
      SetBitEffect(c.primary, 63, k);
    }
    forall k: nat ensures HasBit(s, k) <==> k == 128 - id || HasBit(grown.secondary.value, k) {
      SetBitEffect(grown.secondary.value, 128 - id, k);
    }
    NoBits();
    hide HasBit, SetBit, Pow2;
  }

  /** Reads a message: the type, the bitmaps, then each announced field in turn. */
  method Parse(data: Bytes) returns (r: Result<Iso8583Message, IsoError>)
    ensures r.Success? <==> Parsed(data).Success?
    ensures r.Success? ==> fresh(r.value) && r.value.State() == Parsed(data).value
    ensures r.Failure? ==> r.error == Parsed(data).error
    ensures |data| < 10 ==> r == Failure(InvalidFormat)
    ensures var known := {0x0100, 0x0110, 0x0200, 0x0210, 0x0400, 0x0410, 0x0800, 0x0810};
      r == Failure(UnknownMessageType) <==>
        && |data| >= 10
        && if 48 <= data[0] <= 57 then ParseHexCode(data[..4]).Some? && ParseHexCode(data[..4]).value !in known
           else 256 * data[0] as nat + data[1] as nat !in known
  {
    hide DecodeField, HasBit, FromBytes;
    UnknownTypeIff(data);
    hide ParseHexCode;
    if |data| < 10 { return Failure(InvalidFormat); }
    var start := ParseMti(data);
    if start.Failure? { return Failure(start.error); }
    var (code, pos) := start.value;
    var mti := FromCode(code);
    if mti == None { return Failure(UnknownMessageType); }
    if pos + 8 > |data| { return Failure(InvalidFormat); }
    var primary := FromBytes(data[pos..pos + 8]);
    pos := pos + 8;
    var secondary := None;
    if HasBit(primary, 63) {
      if pos + 8 > |data| { return Failure(InvalidFormat); }
      secondary := Some(FromBytes(data[pos..pos + 8]));
      pos := pos + 8;
    }
    var low := DecodeBits(primary, 64, data, pos, map[]);
    if low.Failure? { return Failure(low.error); }
    var elements := low.value.0;
    if secondary.Some? {
      var high := DecodeBits(secondary.value, 128, data, low.value.1, elements);
      if high.Failure? { return Failure(high.error); }
      elements := high.value.0;
    }
    var msg := new Iso8583Message(mti.value);
    msg.primaryBitmap, msg.secondaryBitmap, msg.elements := primary, secondary, elements;
    return Success(msg);
  }

  /** One pass over a bitmap. */
  method DecodeBits(bitmap: nat, top: nat, data: Bytes, start: nat, acc: Elements)
      returns (r: Result<(Elements, nat), IsoError>)
    requires 64 <= top
    ensures r == DecodeRange(bitmap, top, top - 63, data, start, acc)
  {
    hide DecodeField, HasBit;
    var elements: Elements := acc;
    var pos: nat := start;
    for bit := top - 63 to top + 1
      invariant DecodeRange(bitmap, top, bit, data, pos, elements) ==
        DecodeRange(bitmap, top, top - 63, data, start, acc)
    {
      if bit != top - 63 && HasBit(bitmap, top - bit) {
        var field := DecodeField(bit, data, pos);
        if field.Failure? { return Failure(field.error); }
        elements := elements[bit := field.value.0];
        pos := field.value.1;
      }
    }
    return Success((elements, pos));
  }

  /** A message without the fields 1 and 65 that can be written at all arrives whole. */
  method Transmit(msg: Iso8583Message) returns (r: Result<Iso8583Message, IsoError>)
    requires Built(msg.State()) && 1 !in msg.elements && 65 !in msg.elements
    ensures r.Success? <==> AllEncodable(msg.elements)
    ensures r.Success? ==> fresh(r.value) && r.value.State() == msg.State().(elements := NormalElements(msg.elements))
    ensures r.Success? ==>
      && r.value.elements.Keys == msg.elements.Keys
      && forall id :: id in msg.elements ==>
           match EncodingOf(id).value
           case Fixed(len) =>
             && |r.value.elements[id]| == len
             && forall i :: 0 <= i < len ==>
                  r.value.elements[id][i] == if i < |msg.elements[id]| then msg.elements[id][i] else 32
           case _ => r.value.elements[id] == msg.elements[id]
  {
    EncodeRangeSucceeds(msg.elements, 0, 256);
    hide HasBit, Encodable, Normal, EncodeField, EncodeRange, Parsed, Header;
    var data := msg.Serialize();
    if data.Failure? { return Failure(data.error); }
    ReadBack(msg.State());
    NormalElementsAre(msg.elements);
    hide NormalElements;
    r := Parse(data.value);
  }
}
