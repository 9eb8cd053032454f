/** The data segments of a QR code: their bit encoding, and how decode_payload of quirc reads them. */
module QrPayload {
  import opened Common


  const MAX_PAYLOAD := 8896
  const NUMERIC := 1
  const ALPHA := 2
  const BYTES := 4
  const KANJI := 8
  const ECI := 7

  // ----- bits -----

  function Bit(b: bool): nat { if b then 1 else 0 }

  /** The number whose binary digits are s, highest first. */
  function Value(s: seq<bool>): nat {
    if |s| == 0 then 0 else 2 * Value(s[..|s| - 1]) + Bit(s[|s| - 1])
  }

  /** The low len binary digits of v, highest first. */
  function Binary(len: nat, v: nat): (s: seq<bool>)
    ensures |s| == len
  {
    if len == 0 then [] else Binary(len - 1, v / 2) + [v % 2 == 1]
  }

  function Pow(base: nat, n: nat): (p: nat)
    ensures base > 0 ==> p > 0
  {
    if n == 0 then 1 else base * Pow(base, n - 1)
  }

  /** Numeric characters are digits to base 10, alphanumeric ones to base 45. */
  function Base(alpha: bool): nat { if alpha then 45 else 10 }

  /** The low count digits of v, highest first. */
  function Digits(alpha: bool, v: nat, count: nat): (s: seq<nat>)
    ensures |s| == count && forall i | 0 <= i < count :: s[i] < Base(alpha)
    decreases count
  {
    if count == 0 then []
    else if alpha then Digits(alpha, v / 45, count - 1) + [v % 45]
    else Digits(alpha, v / 10, count - 1) + [v % 10]
  }

  function Push(alpha: bool, x: nat, d: nat): nat { if alpha then 45 * x + d else 10 * x + d }

  function FromDigits(alpha: bool, s: seq<nat>): nat {
    if |s| == 0 then 0 else Push(alpha, FromDigits(alpha, s[..|s| - 1]), s[|s| - 1])
  }

  function Min(a: nat, b: nat): nat { if a <= b then a else b }

  // ----- what the decoder does -----

  datatype Error = Overflow | Underflow

  /** The payload so far, the largest data type, and the last interpretation number. */
  datatype Data = Data(payload: seq<byte>, dataType: nat, eci: nat)

  datatype Result = Success(data: Data) | Failure(error: Error)

  datatype Chunk = Chunk(bytes: seq<byte>, rest: seq<bool>)

  /** take_bits: fewer bits at the end of the stream. */
  function Take(bits: seq<bool>, len: nat): nat { Value(bits[..Min(len, |bits|)]) }

  function After(bits: seq<bool>, len: nat): seq<bool> { bits[Min(len, |bits|)..] }

  /** The width of a segment's character count. */
  function CountBits(version: nat, mode: nat): nat {
    if mode == NUMERIC then (if version < 10 then 10 else if version < 27 then 12 else 14)
    else if mode == ALPHA then (if version < 10 then 9 else if version < 27 then 11 else 13)
    else if mode == BYTES then (if version < 10 then 8 else 16)
    else (if version < 10 then 8 else if version < 27 then 10 else 12)
  }

  const ALPHA_MAP := "0123456789" + "ABCDEFGHIJ" + "KLMNOPQRST" + "UVWXYZ" + " $%*+-./:"

  function DigitByte(d: nat): byte
    requires d < 10
  {
    48 + d
  }

  function AlphaByte(d: nat): byte
    requires d < 45
  {
    var c := ALPHA_MAP[d] as int;
    if c < 256 then c else 0
  }

  function NumericBytes(tuple: nat, digits: nat): (s: seq<byte>)
    ensures |s| == digits
  {
    seq(digits, i requires 0 <= i < digits => DigitByte(Digits(false, tuple, digits)[i]))
  }

  function AlphaBytes(tuple: nat, digits: nat): (s: seq<byte>)
    ensures |s| == digits
  {
    seq(digits, i requires 0 <= i < digits => AlphaByte(Digits(true, tuple, digits)[i]))
  }

  /** The digits of a numeric segment: three in ten bits, two in seven, one in four. */
  function ReadNumeric(bits: seq<bool>, count: nat): (r: Option<Chunk>)
    ensures r.Some? ==> |r.value.bytes| == count && |r.value.rest| <= |bits|
    decreases count
  {
    if count == 0 then Some(Chunk([], bits))
    else
      var digits := if count >= 3 then 3 else count;
      var width := if digits == 3 then 10 else if digits == 2 then 7 else 4;
      if |bits| < width then None
      else
        match ReadNumeric(bits[width..], count - digits)
        case None => None
        case Some(c) => Some(Chunk(NumericBytes(Value(bits[..width]), digits) + c.bytes, c.rest))
  }

  /** The characters of an alphanumeric segment: two in eleven bits, one in six. */
  function ReadAlpha(bits: seq<bool>, count: nat): (r: Option<Chunk>)
    ensures r.Some? ==> |r.value.bytes| == count && |r.value.rest| <= |bits|
    decreases count
  {
    if count == 0 then Some(Chunk([], bits))
    else
      var digits := if count >= 2 then 2 else 1;
      var width := if digits == 2 then 11 else 6;
      if |bits| < width then None
      else
        match ReadAlpha(bits[width..], count - digits)
        case None => None
        case Some(c) => Some(Chunk(AlphaBytes(Value(bits[..width]), digits) + c.bytes, c.rest))
  }

  function ReadBytes(bits: seq<bool>, count: nat): (r: Chunk)
    requires |bits| >= 8 * count
    ensures |r.bytes| == count && |r.rest| <= |bits|
    decreases count
  {
    if count == 0 then Chunk([], bits)
    else
      var c := ReadBytes(bits[8..], count - 1);
      Chunk([Value(bits[..8]) % 256] + c.bytes, c.rest)
  }

  /** The Shift-JIS code of a 13-bit kanji number. */
  function KanjiCode(d: nat): nat {
    var intermediate := d / 0xc0 * 256 + d % 0xc0;
    if intermediate + 0x8140 <= 0x9ffc then intermediate + 0x8140 else intermediate + 0xc140
  }

  function ReadKanji(bits: seq<bool>, count: nat): (r: Chunk)
    requires |bits| >= 13 * count
    ensures |r.bytes| == 2 * count && |r.rest| <= |bits|
    decreases count
  {
    if count == 0 then Chunk([], bits)
    else
      var code := KanjiCode(Value(bits[..13]));
      var c := ReadKanji(bits[13..], count - 1);
      Chunk([code / 256 % 256, code % 256] + c.bytes, c.rest)
  }

  datatype Parsed = Next(data: Data, rest: seq<bool>) | Error(error: Error)

  function Append(data: Data, c: Option<Chunk>): (r: Parsed)
    ensures r.Next? ==> c.Some? && r.rest == c.value.rest && |r.data.payload| == |data.payload| + |c.value.bytes|
  {
    match c
    case None => Error(Underflow)
    case Some(c) => Next(data.(payload := data.payload + c.bytes), c.rest)
  }

  /** The characters of a segment. */
  function ReadBody(mode: nat, bits: seq<bool>, count: nat): (r: Option<Chunk>)
    requires mode == NUMERIC || mode == ALPHA || mode == BYTES || mode == KANJI
    ensures r.Some? ==> |r.value.rest| <= |bits| && |r.value.bytes| == if mode == KANJI then 2 * count else count
  {
    if mode == NUMERIC then ReadNumeric(bits, count)
    else if mode == ALPHA then ReadAlpha(bits, count)
    else if mode == BYTES then if |bits| < 8 * count then None else Some(ReadBytes(bits, count))
    else if |bits| < 13 * count then None else Some(ReadKanji(bits, count))
  }

  /** decode_numeric, decode_alpha, decode_byte and decode_kanji, after the mode. */
  function ReadSegment(version: nat, data: Data, mode: nat, bits: seq<bool>): (r: Parsed)
    requires mode == NUMERIC || mode == ALPHA || mode == BYTES || mode == KANJI
    ensures r.Next? ==> |r.rest| <= |bits| && |r.data.payload| < MAX_PAYLOAD
  {
    var width := CountBits(version, mode);
    var count := Take(bits, width);
    var rest := After(bits, width);
    if |data.payload| + (if mode == KANJI then 2 * count else count) + 1 > MAX_PAYLOAD then Error(Overflow)
    else Append(data, ReadBody(mode, rest, count))
  }

  /** decode_eci: one, two or three bytes, told apart by the top bits of the first. */
  function ReadEci(data: Data, bits: seq<bool>): (r: Parsed)
    ensures r.Next? ==> |r.rest| <= |bits| && r.data.payload == data.payload
  {
    if |bits| < 8 then Error(Underflow)
    else
      var first := Take(bits, 8);
      var more := if 0x80 <= first < 0xc0 then 8 else if 0xc0 <= first < 0xe0 then 16 else 0;
      if |bits| < 8 + more then Error(Underflow)
      else Next(data.(eci := first * Pow(2, more) + Take(bits[8..], more)), bits[8 + more..])
  }

  /** The loop of decode_payload: segments until fewer than four bits or an unknown mode. */
  function ReadAll(version: nat, data: Data, bits: seq<bool>): Result
    decreases |bits|
  {
    if |bits| < 4 then Success(data)
    else
      var mode := Value(bits[..4]);
      if mode == NUMERIC || mode == ALPHA || mode == BYTES || mode == KANJI then
        match ReadSegment(version, data, mode, bits[4..])
        case Error(e) => Failure(e)
        case Next(data', rest) =>
          ReadAll(version, if mode > data'.dataType then data'.(dataType := mode) else data', rest)
      else if mode == ECI then
        match ReadEci(data, bits[4..])
        case Error(e) => Failure(e)
        case Next(data', rest) => ReadAll(version, data', rest)
      else Success(data)
  }

  // ----- encoding, section 8.4 of ISO/IEC 18004:2000 -----

  datatype Segment =
    | Numeric(digits: seq<nat>)
    | Alphanumeric(codes: seq<nat>)
    | Bytes(bytes: seq<byte>)
    | Kanji(codes: seq<nat>)

  predicate KanjiOk(c: nat) {
    (0x8140 <= c <= 0x9ffc || 0xe040 <= c <= 0xebbf) && c % 256 >= 0x40
  }

  function Mode(s: Segment): nat {
    match s
    case Numeric(_) => NUMERIC
    case Alphanumeric(_) => ALPHA
    case Bytes(_) => BYTES
    case Kanji(_) => KANJI
  }

  function Count(s: Segment): nat {
    match s
    case Numeric(d) => |d|
    case Alphanumeric(d) => |d|
    case Bytes(d) => |d|
    case Kanji(d) => |d|
  }

  predicate Below(d: seq<nat>, n: nat) { forall i | 0 <= i < |d| :: d[i] < n }

  /** The characters are in range. */
  predicate CharsOk(s: Segment) {
    match s
    case Numeric(d) => Below(d, 10)
    case Alphanumeric(d) => Below(d, 45)
    case Bytes(_) => true
    case Kanji(d) => (forall i | 0 <= i < |d| :: KanjiOk(d[i]))
  }

  /** And the count fits its field. */
  predicate SegmentOk(version: nat, s: Segment) {
    CharsOk(s) && Count(s) < Pow(2, Width(version, s))
  }

  function NumericText(d: seq<nat>): (s: seq<byte>)
    requires Below(d, 10)
    ensures |s| == |d|
  {
    seq(|d|, i requires 0 <= i < |d| => DigitByte(d[i]))
  }

  function AlphaText(d: seq<nat>): (s: seq<byte>)
    requires Below(d, 45)
    ensures |s| == |d|
  {
    seq(|d|, i requires 0 <= i < |d| => AlphaByte(d[i]))
  }

  /** The characters a segment stands for. */
  function Text(s: Segment): seq<byte>
    requires CharsOk(s)
  {
    match s
    case Numeric(d) => NumericText(d)
    case Alphanumeric(d) => AlphaText(d)
    case Bytes(d) => d
    case Kanji(d) => KanjiText(d)
  }

  function KanjiText(d: seq<nat>): seq<byte> {
    if |d| == 0 then [] else [d[0] / 256 % 256, d[0] % 256] + KanjiText(d[1..])
  }

  function NumericBits(d: seq<nat>): seq<bool> {
    if |d| >= 3 then Binary(10, FromDigits(false, d[..3])) + NumericBits(d[3..])
    else if |d| == 2 then Binary(7, FromDigits(false, d))
    else if |d| == 1 then Binary(4, FromDigits(false, d))
    else []
  }

  function AlphaBits(d: seq<nat>): seq<bool> {
    if |d| >= 2 then Binary(11, FromDigits(true, d[..2])) + AlphaBits(d[2..])
    else if |d| == 1 then Binary(6, FromDigits(true, d))
    else []
  }

  function ByteBits(d: seq<byte>): (s: seq<bool>)
    ensures |s| == 8 * |d|
  {
    if |d| == 0 then [] else Binary(8, d[0]) + ByteBits(d[1..])
  }

  /** The 13-bit number of a Shift-JIS code. */
  function KanjiNumber(c: nat): nat
    requires KanjiOk(c)
  {
    var t := if c <= 0x9ffc then c - 0x8140 else c - 0xc140;
    t / 256 * 0xc0 + t % 256
  }

  function KanjiBits(d: seq<nat>): (s: seq<bool>)
    requires forall i | 0 <= i < |d| :: KanjiOk(d[i])
    ensures |s| == 13 * |d|
  {
    if |d| == 0 then [] else Binary(13, KanjiNumber(d[0])) + KanjiBits(d[1..])
  }

  /** The bits of a segment after its mode and count. */
  function BodyBits(s: Segment): seq<bool>
    requires CharsOk(s)
  {
    match s
    case Numeric(d) => NumericBits(d)
    case Alphanumeric(d) => AlphaBits(d)
    case Bytes(d) => ByteBits(d)
    case Kanji(d) => KanjiBits(d)
  }

  /** The mode indicator of a segment. */
  function Indicator(s: Segment): (b: seq<bool>)
    ensures |b| == 4
  {
    match s
    case Numeric(_) => [false, false, false, true]
    case Alphanumeric(_) => [false, false, true, false]
    case Bytes(_) => [false, true, false, false]
    case Kanji(_) => [true, false, false, false]
  }

  /** The width of the character count, by the range of versions: 1 to 9, 10 to 26, 27 to 40. */
  function Width(version: nat, s: Segment): nat {
    var range := if version <= 9 then 0 else if version <= 26 then 1 else 2;
    match s
    case Numeric(_) => [10, 12, 14][range]
    case Alphanumeric(_) => [9, 11, 13][range]
    case Bytes(_) => [8, 16, 16][range]
    case Kanji(_) => [8, 10, 12][range]
  }

  /** A segment of characters, or a designator of another interpretation of those that follow. */
  datatype Part = Chars(s: Segment) | Designator(n: nat)

  predicate PartOk(version: nat, p: Part) {
    match p
    case Chars(s) => SegmentOk(version, s)
    case Designator(n) => n < 1_000_000
  }

  function SegmentBits(version: nat, s: Segment): seq<bool>
    requires SegmentOk(version, s)
  {
    Indicator(s) + Binary(Width(version, s), Count(s)) + BodyBits(s)
  }

  /** A designator takes one, two or three bytes, marked by 0, 10 or 110. */
  function DesignatorBits(n: nat): seq<bool> {
    if n < 128 then [false] + Binary(7, n)
    else if n < 16384 then [true, false] + Binary(14, n)
    else [true, true, false] + Binary(21, n)
  }

  function PartBits(version: nat, p: Part): seq<bool>
    requires PartOk(version, p)
  {
    match p
    case Chars(s) => SegmentBits(version, s)
    case Designator(n) => [false, true, true, true] + DesignatorBits(n)
  }

  function AllBits(version: nat, parts: seq<Part>): seq<bool>
    requires forall i | 0 <= i < |parts| :: PartOk(version, parts[i])
  {
    if |parts| == 0 then [] else PartBits(version, parts[0]) + AllBits(version, parts[1..])
  }

  predicate Readable(p: Part) { p.Chars? ==> CharsOk(p.s) }

  function AllText(parts: seq<Part>): seq<byte>
    requires forall i | 0 <= i < |parts| :: Readable(parts[i])
  {
    if |parts| == 0 then []
    else
      assert Readable(parts[0]);
      (if parts[0].Chars? then Text(parts[0].s) else []) + AllText(parts[1..])
  }

  function MaxMode(mode: nat, parts: seq<Part>): nat
    decreases |parts|
  {
    if |parts| == 0 then mode
    else MaxMode(if parts[0].Chars? && Mode(parts[0].s) > mode then Mode(parts[0].s) else mode, parts[1..])
  }

  /** The number kept of a designator: the decoder leaves the marker of the longer forms in it. */
  function Kept(n: nat): nat { if n < 128 then n else if n < 16384 then 0x8000 + n else 0xc0_0000 + n }

  /** The number of the last designator. */
  function LastEci(eci: nat, parts: seq<Part>): nat
    decreases |parts|
  {
    if |parts| == 0 then eci else LastEci(if parts[0].Designator? then Kept(parts[0].n) else eci, parts[1..])
  }

  /** The indicators of the four kinds of segments and of a designator. */
  const INDICATORS := [
    [false, false, false, true],
    [false, false, true, false],
    [false, true, false, false],
    [true, false, false, false],
    [false, true, true, true]
  ]

  /** What may follow the last segment: fewer than four bits, the terminator, or any indicator not in use. */
  predicate Ended(tail: seq<bool>) {
    |tail| < 4 || tail[..4] !in INDICATORS
  }

  // ----- bits and digits -----

  lemma {:induction false} BinaryValue(len: nat, v: nat)
    requires v < Pow(2, len)
    ensures Value(Binary(len, v)) == v
    decreases len
  {
    if len > 0 {
      BinaryValue(len - 1, v / 2);
      assert Binary(len, v)[..len - 1] == Binary(len - 1, v / 2);
    }
  }

  lemma Field(len: nat, v: nat, rest: seq<bool>)
    requires v < Pow(2, len)
    ensures var b := Binary(len, v) + rest;
            b[..len] == Binary(len, v) && Value(b[..len]) == v && b[len..] == rest && Take(b, len) == v
              && After(b, len) == rest
  {
    BinaryValue(len, v);
    assert (Binary(len, v) + rest)[..len] == Binary(len, v);
  }

  lemma LastDigit(alpha: bool, x: nat, d: nat, count: nat)
    requires d < Base(alpha) && count > 0
    ensures Digits(alpha, Push(alpha, x, d), count) == Digits(alpha, x, count - 1) + [d]
  {
    if alpha {
      assert (45 * x + d) / 45 == x && (45 * x + d) % 45 == d;
    } else {
      assert (10 * x + d) / 10 == x && (10 * x + d) % 10 == d;
    }
  }

  lemma {:induction false} DigitsRoundTrip(alpha: bool, s: seq<nat>)
    requires forall i | 0 <= i < |s| :: s[i] < Base(alpha)
    ensures Digits(alpha, FromDigits(alpha, s), |s|) == s
    decreases |s|
  {
    if |s| == 0 {
      assert Digits(alpha, 0, 0) == [];
    } else {
      hide Digits, Base, Push;
      var t, d := s[..|s| - 1], s[|s| - 1];
      LastDigit(alpha, FromDigits(alpha, t), d, |s|);
      DigitsRoundTrip(alpha, t);
      assert s == t + [d];
    }
  }

  lemma {:induction false} FromDigitsBound(alpha: bool, s: seq<nat>)
    requires forall i | 0 <= i < |s| :: s[i] < Base(alpha)
    ensures FromDigits(alpha, s) < Pow(Base(alpha), |s|)
    decreases |s|
  {
    if |s| > 0 { FromDigitsBound(alpha, s[..|s| - 1]); }
  }

  // ----- segments -----

  lemma PowValues()
    ensures Pow(10, 1) == 10 && Pow(10, 2) == 100 && Pow(10, 3) == 1000 && Pow(45, 1) == 45 && Pow(45, 2) == 2025
    ensures Pow(2, 4) == 16 && Pow(2, 6) == 64 && Pow(2, 7) == 128 && Pow(2, 8) == 256
    ensures Pow(2, 10) == 1024 && Pow(2, 11) == 2048 && Pow(2, 13) == 8192
  {
    assert Pow(2, 4) == 16;
    assert Pow(2, 6) == 4 * Pow(2, 4);
    assert Pow(2, 8) == 4 * Pow(2, 6) && Pow(2, 7) == 2 * Pow(2, 6);
    assert Pow(2, 10) == 4 * Pow(2, 8);
    assert Pow(2, 11) == 2 * Pow(2, 10);
    assert Pow(2, 13) == 4 * Pow(2, 11);
  }

  /** A group of digits comes back from its bits. */
  lemma NumericGroup(d: seq<nat>, width: nat, rest: seq<bool>)
    requires Below(d, 10) && 0 < |d| <= 3 && width == (if |d| == 3 then 10 else if |d| == 2 then 7 else 4)
    ensures var b := Binary(width, FromDigits(false, d)) + rest;
            NumericBytes(Value(b[..width]), |d|) == NumericText(d) && b[width..] == rest
  {
    PowValues();
    FromDigitsBound(false, d);
    hide Pow;
    Field(width, FromDigits(false, d), rest);
    DigitsRoundTrip(false, d);
  }

  lemma {:induction false} NumericRoundTrip(d: seq<nat>, rest: seq<bool>)
    requires Below(d, 10)
    ensures ReadNumeric(NumericBits(d) + rest, |d|) == Some(Chunk(NumericText(d), rest))
    decreases |d|
  {
    hide Binary, Value, NumericBytes, FromDigits;
    if |d| == 0 {
      assert NumericBits(d) + rest == rest;
    } else {
      var n := if |d| >= 3 then 3 else |d|;
      var width := if n == 3 then 10 else if n == 2 then 7 else 4;
      var head, tail := d[..n], d[n..];
      NumericGroup(head, width, NumericBits(tail) + rest);
      assert NumericBits(d) + rest == Binary(width, FromDigits(false, head)) + (NumericBits(tail) + rest) by {
        if |d| < 3 { assert head == d && tail == [] && NumericBits(tail) == []; }
      }
      NumericRoundTrip(tail, rest);
      assert NumericText(head) + NumericText(tail) == NumericText(d);
    }
  }

  lemma AlphaGroup(d: seq<nat>, width: nat, rest: seq<bool>)
    requires Below(d, 45) && 0 < |d| <= 2 && width == (if |d| == 2 then 11 else 6)
    ensures var b := Binary(width, FromDigits(true, d)) + rest;
            AlphaBytes(Value(b[..width]), |d|) == AlphaText(d) && b[width..] == rest
  {
    PowValues();
    FromDigitsBound(true, d);
    hide Pow;
    Field(width, FromDigits(true, d), rest);
    DigitsRoundTrip(true, d);
    hide AlphaByte;
  }

  lemma {:induction false} AlphaRoundTrip(d: seq<nat>, rest: seq<bool>)
    requires Below(d, 45)
    ensures ReadAlpha(AlphaBits(d) + rest, |d|) == Some(Chunk(AlphaText(d), rest))
    decreases |d|
  {
    hide Binary, Value, AlphaBytes, FromDigits, AlphaByte;
    if |d| == 0 {
      assert AlphaBits(d) + rest == rest;
    } else {
      var n := if |d| >= 2 then 2 else 1;
      var width := if n == 2 then 11 else 6;
      var head, tail := d[..n], d[n..];
      AlphaGroup(head, width, AlphaBits(tail) + rest);
      assert AlphaBits(d) + rest == Binary(width, FromDigits(true, head)) + (AlphaBits(tail) + rest) by {
        if |d| < 2 { assert head == d && tail == [] && AlphaBits(tail) == []; }
      }
      AlphaRoundTrip(tail, rest);
      assert AlphaText(head) + AlphaText(tail) == AlphaText(d);
    }
  }

  lemma {:induction false} BytesRoundTrip(d: seq<byte>, rest: seq<bool>)
    ensures ReadBytes(ByteBits(d) + rest, |d|) == Chunk(d, rest)
    decreases |d|
  {
    PowValues();
    hide Binary, Value, Pow;
    if |d| == 0 {
      assert ByteBits(d) + rest == rest;
    } else {
      Field(8, d[0], ByteBits(d[1..]) + rest);
      assert ByteBits(d) + rest == Binary(8, d[0]) + (ByteBits(d[1..]) + rest);
      BytesRoundTrip(d[1..], rest);
      assert [d[0]] + d[1..] == d;
    }
  }

  /** The two ranges of Shift-JIS map to thirteen bits and back. */
  lemma KanjiNumberRoundTrip(c: nat)
    requires KanjiOk(c)
    ensures KanjiNumber(c) < 8192 && KanjiCode(KanjiNumber(c)) == c
  {
    var t := if c <= 0x9ffc then c - 0x8140 else c - 0xc140;
    assert t % 256 < 0xc0;
    assert (t / 256 * 0xc0 + t % 256) / 0xc0 == t / 256;
  }

  lemma {:induction false} KanjiRoundTrip(d: seq<nat>, rest: seq<bool>)
    requires forall i | 0 <= i < |d| :: KanjiOk(d[i])
    ensures ReadKanji(KanjiBits(d) + rest, |d|) == Chunk(KanjiText(d), rest)
    decreases |d|
  {
    PowValues();
    hide Binary, Value, Pow, KanjiNumber, KanjiCode;
    if |d| == 0 {
      assert KanjiBits(d) + rest == rest;
    } else {
      KanjiNumberRoundTrip(d[0]);
      Field(13, KanjiNumber(d[0]), KanjiBits(d[1..]) + rest);
      assert KanjiBits(d) + rest == Binary(13, KanjiNumber(d[0])) + (KanjiBits(d[1..]) + rest);
      KanjiRoundTrip(d[1..], rest);
    }
  }

  // ----- whole streams -----

  /** The decoder expects the widths and the indicators of the standard. */
  lemma StandardFields(version: nat, s: Segment)
    ensures CountBits(version, Mode(s)) == Width(version, s)
    ensures Value(Indicator(s)) == Mode(s)
  {
    FourBits(Indicator(s));
  }

  lemma FourBits(b: seq<bool>)
    requires |b| == 4
    ensures Value(b) == 8 * Bit(b[0]) + 4 * Bit(b[1]) + 2 * Bit(b[2]) + Bit(b[3])
  {
    assert b[..3][..2] == b[..2] && b[..2][..1] == b[..1] && b[..1][..0] == [];
    assert Value(b[..1]) == Bit(b[0]) && Value(b[..2]) == 2 * Value(b[..1]) + Bit(b[1]);
    assert Value(b[..3]) == 2 * Value(b[..2]) + Bit(b[2]);
  }

  lemma SegmentRoundTrip(version: nat, data: Data, s: Segment, rest: seq<bool>)
    requires SegmentOk(version, s) && |data.payload| + |Text(s)| < MAX_PAYLOAD
    ensures ReadSegment(version, data, Mode(s), Binary(Width(version, s), Count(s)) + BodyBits(s) + rest)
         == Next(data.(payload := data.payload + Text(s)), rest)
  {
    var width, after := Width(version, s), BodyBits(s) + rest;
    assert Binary(width, Count(s)) + BodyBits(s) + rest == Binary(width, Count(s)) + after;
    Field(width, Count(s), after);
    StandardFields(version, s);
    hide Binary, Value, Pow, ReadBody, Take, After, CountBits, Width, Text, BodyBits;
    BodyRoundTrip(s, rest);
  }

  lemma BodyRoundTrip(s: Segment, rest: seq<bool>)
    requires CharsOk(s)
    ensures ReadBody(Mode(s), BodyBits(s) + rest, Count(s)) == Some(Chunk(Text(s), rest))
  {
    hide ReadNumeric, ReadAlpha, ReadBytes, ReadKanji, NumericText, AlphaText, NumericBits, AlphaBits, ByteBits,
      KanjiBits, KanjiText;
    match s
    case Numeric(d) => NumericRoundTrip(d, rest);
    case Alphanumeric(d) => AlphaRoundTrip(d, rest);
    case Bytes(d) => BytesRoundTrip(d, rest);
    case Kanji(d) => KanjiRoundTrip(d, rest);
  }

  /** What a segment leaves behind. */
  function With(data: Data, s: Segment): Data
    requires CharsOk(s)
  {
    data.(payload := data.payload + Text(s), dataType := if Mode(s) > data.dataType then Mode(s) else data.dataType)
  }

  lemma SegmentStep(version: nat, data: Data, s: Segment, more: seq<bool>)
    requires SegmentOk(version, s) && |data.payload| + |Text(s)| < MAX_PAYLOAD
    ensures ReadAll(version, data, SegmentBits(version, s) + more) == ReadAll(version, With(data, s), more)
  {
    hide Pow, Binary, Value, ReadSegment, ReadEci, CountBits, Width, BodyBits, CharsOk;
    var body := Binary(Width(version, s), Count(s)) + BodyBits(s) + more;
    SegmentRoundTrip(version, data, s, more);
    ModeComesBack(version, s, more);
    hide SegmentBits, SegmentOk, Text, Count;
    assert ReadSegment(version, data, Mode(s), body).Next?;
  }

  /** The mode comes back from the first four bits of a segment. */
  lemma ModeComesBack(version: nat, s: Segment, more: seq<bool>)
    requires SegmentOk(version, s)
    ensures var bits := SegmentBits(version, s) + more;
            var body := Binary(Width(version, s), Count(s)) + BodyBits(s) + more;
            |bits| >= 4 && Value(bits[..4]) == Mode(s) && bits[4..] == body
  {
    hide Pow, Binary, Value, CountBits, Width, BodyBits, CharsOk, Indicator;
    StandardFields(version, s);
    var body := Binary(Width(version, s), Count(s)) + BodyBits(s) + more;
    assert SegmentBits(version, s) + more == Indicator(s) + body;
  }

  // ----- designators -----

  lemma {:induction false} ValueAppend(a: seq<bool>, b: seq<bool>)
    ensures Value(a + b) == Value(a) * Pow(2, |b|) + Value(b)
    decreases |b|
  {
    if |b| == 0 {
      assert a + b == a;
    } else {
      var n := |b| - 1;
      ValueAppend(a, b[..n]);
      assert (a + b)[..|a| + n] == a + b[..n] && (a + b)[|a| + n] == b[n];
      DoublePow(Value(a), n);
      hide Pow;
    }
  }

  lemma DoublePow(v: nat, n: nat)
    ensures v * Pow(2, n + 1) == 2 * (v * Pow(2, n))
  {
  }

  /** What a designator's bits stand for, marker and all. */
  lemma DesignatorValue(n: nat)
    requires n < 1_000_000
    ensures Value(DesignatorBits(n)) == Kept(n)
  {
    PowValues();
    assert Pow(2, 14) == 2 * Pow(2, 13) && Pow(2, 15) == 2 * Pow(2, 14) && Pow(2, 16) == 2 * Pow(2, 15);
    assert Pow(2, 18) == 4 * Pow(2, 16) && Pow(2, 20) == 4 * Pow(2, 18) && Pow(2, 21) == 2 * Pow(2, 20);
    assert Value([false]) == 0 && Value([true]) == 1;
    Value10();
    hide Pow, Value, Binary;
    if n < 128 {
      ValueAppend([false], Binary(7, n));
      BinaryValue(7, n);
    } else if n < 16384 {
      ValueAppend([true, false], Binary(14, n));
      BinaryValue(14, n);
    } else {
      ValueAppend([true, true, false], Binary(21, n));
      BinaryValue(21, n);
    }
  }

  lemma Value10()
    ensures Value([true, false]) == 2 && Value([true, true, false]) == 6
  {
    assert [true, false][..1] == [true] && [true, true, false][..2] == [true, true] && [true, true][..1] == [true];
    assert Value([true]) == 1;
    assert Value([true, true]) == 3;
  }

  /** decode_eci reads as many bytes as the designator has. */
  lemma EciRoundTrip(data: Data, n: nat, rest: seq<bool>)
    requires n < 1_000_000
    ensures ReadEci(data, DesignatorBits(n) + rest) == Next(data.(eci := Kept(n)), rest)
  {
    var d, bits := DesignatorBits(n), DesignatorBits(n) + rest;
    DesignatorValue(n);
    FirstByte(n);
    assert bits[..8] == d[..8] && d == d[..8] + d[8..];
    ValueAppend(d[..8], d[8..]);
    assert bits[8..][..|d| - 8] == d[8..] && bits[|d|..] == rest;
    hide Pow, Value, Binary;
  }

  /** The first byte tells how many follow. */
  lemma FirstByte(n: nat)
    requires n < 1_000_000
    ensures var d := DesignatorBits(n);
            && |d| == (if n < 128 then 8 else if n < 16384 then 16 else 24)
            && (n < 128 ==> Value(d[..8]) < 0x80)
            && (128 <= n < 16384 ==> 0x80 <= Value(d[..8]) < 0xc0)
            && (16384 <= n ==> 0xc0 <= Value(d[..8]) < 0xe0)
  {
    var d := DesignatorBits(n);
    PowValues();
    assert Pow(2, 5) == 32 && Value([false]) == 0;
    Value10();
    hide Pow, Binary, Value;
    if n < 128 {
      assert d[..8] == [false] + d[1..8];
      ValueAppend([false], d[1..8]);
      ValueBelow(d[1..8]);
    } else if n < 16384 {
      assert d[..8] == [true, false] + d[2..8];
      ValueAppend([true, false], d[2..8]);
      ValueBelow(d[2..8]);
    } else {
      assert d[..8] == [true, true, false] + d[3..8];
      ValueAppend([true, true, false], d[3..8]);
      ValueBelow(d[3..8]);
    }
  }

  lemma {:induction false} ValueBelow(b: seq<bool>)
    ensures Value(b) < Pow(2, |b|)
    decreases |b|
  {
    if |b| > 0 { ValueBelow(b[..|b| - 1]); }
  }

  /** What a part leaves behind. */
  function WithPart(data: Data, p: Part): Data
    requires Readable(p)
  {
    match p
    case Chars(s) => With(data, s)
    case Designator(n) => data.(eci := Kept(n))
  }

  lemma PartStep(version: nat, data: Data, p: Part, more: seq<bool>)
    requires PartOk(version, p) && (p.Chars? ==> |data.payload| + |Text(p.s)| < MAX_PAYLOAD)
    ensures ReadAll(version, data, PartBits(version, p) + more) == ReadAll(version, WithPart(data, p), more)
  {
    match p
    case Chars(s) => SegmentStep(version, data, s, more);
    case Designator(n) => DesignatorStep(version, data, n, more);
  }

  lemma DesignatorStep(version: nat, data: Data, n: nat, more: seq<bool>)
    requires n < 1_000_000
    ensures ReadAll(version, data, PartBits(version, Designator(n)) + more)
         == ReadAll(version, data.(eci := Kept(n)), more)
  {
    hide Value, ReadAll, ReadEci, DesignatorBits, Kept;
    var m, body := [false, true, true, true], DesignatorBits(n) + more;
    FourBits(m);
    EciRoundTrip(data, n, more);
    ReadAllEci(version, data, m, body);
    assert m + DesignatorBits(n) + more == m + body;
  }

  lemma ReadAllEci(version: nat, data: Data, m: seq<bool>, body: seq<bool>)
    requires |m| == 4 && Value(m) == ECI && ReadEci(data, body).Next?
    ensures ReadAll(version, data, m + body) == ReadAll(version, ReadEci(data, body).data, ReadEci(data, body).rest)
  {
    hide Value, ReadEci, ReadSegment;
    assert (m + body)[..4] == m && (m + body)[4..] == body;
  }

  /** decode_payload of the encoding of any parts that fit yields exactly their characters, the largest mode
      among them and the last designator. */
  lemma {:induction false} PayloadRoundTrip(version: nat, data: Data, parts: seq<Part>, tail: seq<bool>)
    requires forall i | 0 <= i < |parts| :: Readable(parts[i]) && PartOk(version, parts[i])
    requires |data.payload| + |AllText(parts)| < MAX_PAYLOAD && Ended(tail)
    ensures ReadAll(version, data, AllBits(version, parts) + tail)
         == Success(Data(data.payload + AllText(parts), MaxMode(data.dataType, parts), LastEci(data.eci, parts)))
    decreases |parts|
  {
    hide ReadAll, SegmentOk, CharsOk, PartBits, Text, Kept, With, Ended;
    if |parts| == 0 {
      assert AllBits(version, parts) + tail == tail;
      EndStep(version, data, tail);
      assert data.payload + [] == data.payload;
    } else {
      var p, more := parts[0], AllBits(version, parts[1..]) + tail;
      AllUnfold(version, parts, tail);
      TextSplits(data, parts);
      PartStep(version, data, p, more);
      hide AllBits, AllText;
      PartFields(data, p);
      PayloadRoundTrip(version, WithPart(data, p), parts[1..], tail);
    }
  }

  lemma AllUnfold(version: nat, parts: seq<Part>, tail: seq<bool>)
    requires |parts| > 0 && forall i | 0 <= i < |parts| :: PartOk(version, parts[i])
    ensures AllBits(version, parts) + tail == PartBits(version, parts[0]) + (AllBits(version, parts[1..]) + tail)
  {
    hide PartBits, PartOk;
  }

  lemma TextSplits(data: Data, parts: seq<Part>)
    requires |parts| > 0 && forall i | 0 <= i < |parts| :: Readable(parts[i])
    ensures data.payload + AllText(parts) == WithPart(data, parts[0]).payload + AllText(parts[1..])
    ensures |AllText(parts)| == (if parts[0].Chars? then |Text(parts[0].s)| else 0) + |AllText(parts[1..])|
  {
    assert Readable(parts[0]);
    hide CharsOk, Text, Kept;
  }

  lemma PartFields(data: Data, p: Part)
    requires Readable(p)
    ensures var d := WithPart(data, p);
            && d.dataType == (if p.Chars? && Mode(p.s) > data.dataType then Mode(p.s) else data.dataType)
            && d.eci == (if p.Designator? then Kept(p.n) else data.eci)
            && |d.payload| == |data.payload| + if p.Chars? then |Text(p.s)| else 0
  {
    hide CharsOk, Text, Kept;
  }

  /** There the decoder stops, and what it has is the result. */
  lemma EndStep(version: nat, data: Data, tail: seq<bool>)
    requires Ended(tail)
    ensures ReadAll(version, data, tail) == Success(data)
  {
    hide ReadSegment, ReadEci, Value;
    if |tail| >= 4 { UnknownIndicator(tail[..4]); }
  }

  lemma UnknownIndicator(b: seq<bool>)
    requires |b| == 4
    ensures Value(b) in {NUMERIC, ALPHA, BYTES, KANJI, ECI} <==> b in INDICATORS
  {
    FourBits(b);
    hide Value;
    assert b == [b[0], b[1], b[2], b[3]];
    forall k | 0 <= k < 5 ensures INDICATORS[k] in INDICATORS {}
  }

  // ----- errors -----

  lemma TextLength(s: Segment)
    requires CharsOk(s)
    ensures |Text(s)| == if s.Kanji? then 2 * Count(s) else Count(s)
  {
    if s.Kanji? { KanjiTextLength(s.codes); }
  }

  lemma {:induction false} KanjiTextLength(d: seq<nat>)
    ensures |KanjiText(d)| == 2 * |d|
    decreases |d|
  {
    if |d| > 0 { KanjiTextLength(d[1..]); }
  }

  lemma ReadAllSegment(version: nat, data: Data, s: Segment, body: seq<bool>)
    ensures var bits := Indicator(s) + (Binary(Width(version, s), Count(s)) + body);
            var r := ReadSegment(version, data, Mode(s), Binary(Width(version, s), Count(s)) + body);
            r.Error? ==> ReadAll(version, data, bits) == Failure(r.error)
  {
    StandardFields(version, s);
    hide Binary, Value, Pow, ReadSegment, CountBits, Width, Indicator, Count;
    var rest := Binary(Width(version, s), Count(s)) + body;
    assert (Indicator(s) + rest)[..4] == Indicator(s) && (Indicator(s) + rest)[4..] == rest;
  }

  /** A segment that does not leave room for the final NUL is an overflow. */
  lemma TooLongOverflows(version: nat, data: Data, s: Segment, more: seq<bool>)
    requires SegmentOk(version, s) && |data.payload| + |Text(s)| >= MAX_PAYLOAD
    ensures ReadAll(version, data, SegmentBits(version, s) + more) == Failure(Overflow)
  {
    hide Binary, Value, Pow, ReadSegment, CountBits, Width, Text, BodyBits, Indicator, CharsOk, ReadAll;
    var body := BodyBits(s) + more;
    SegmentOverflows(version, data, s, body);
    ReadAllSegment(version, data, s, body);
    assert Indicator(s) + Binary(Width(version, s), Count(s)) + BodyBits(s) + more
        == Indicator(s) + (Binary(Width(version, s), Count(s)) + body);
  }

  lemma SegmentOverflows(version: nat, data: Data, s: Segment, body: seq<bool>)
    requires SegmentOk(version, s) && |data.payload| + |Text(s)| >= MAX_PAYLOAD
    ensures ReadSegment(version, data, Mode(s), Binary(Width(version, s), Count(s)) + body) == Error(Overflow)
  {
    Field(Width(version, s), Count(s), body);
    StandardFields(version, s);
    TextLength(s);
    hide Binary, Value, Pow, ReadBody, Take, After, CountBits, Width, Text, CharsOk;
  }

  lemma {:induction false} NumericCut(d: seq<nat>, n: nat)
    requires Below(d, 10) && n < |NumericBits(d)|
    ensures ReadNumeric(NumericBits(d)[..n], |d|) == None
    decreases |d|
  {
    hide Binary, FromDigits, NumericBytes, Value;
    if |d| >= 3 {
      var b, t := Binary(10, FromDigits(false, d[..3])), NumericBits(d[3..]);
      NumericUnfold(d);
      if n >= 10 {
        NumericCut(d[3..], n - 10);
        assert (b + t)[..n][10..] == t[..n - 10];
      }
    }
  }

  lemma NumericUnfold(d: seq<nat>)
    requires |d| >= 3
    ensures NumericBits(d) == Binary(10, FromDigits(false, d[..3])) + NumericBits(d[3..])
  {
  }

  lemma {:induction false} AlphaCut(d: seq<nat>, n: nat)
    requires Below(d, 45) && n < |AlphaBits(d)|
    ensures ReadAlpha(AlphaBits(d)[..n], |d|) == None
    decreases |d|
  {
    hide Binary, FromDigits, AlphaBytes, Value;
    if |d| >= 2 {
      var b, t := Binary(11, FromDigits(true, d[..2])), AlphaBits(d[2..]);
      AlphaUnfold(d);
      if n >= 11 {
        AlphaCut(d[2..], n - 11);
        assert (b + t)[..n][11..] == t[..n - 11];
      }
    }
  }

  lemma AlphaUnfold(d: seq<nat>)
    requires |d| >= 2
    ensures AlphaBits(d) == Binary(11, FromDigits(true, d[..2])) + AlphaBits(d[2..])
  {
  }

  lemma BodyCut(s: Segment, n: nat)
    requires CharsOk(s) && n < |BodyBits(s)|
    ensures ReadBody(Mode(s), BodyBits(s)[..n], Count(s)) == None
  {
    hide ReadNumeric, ReadAlpha, ReadBytes, ReadKanji, NumericBits, AlphaBits, ByteBits, KanjiBits;
    match s
    case Numeric(d) => NumericCut(d, n);
    case Alphanumeric(d) => AlphaCut(d, n);
    case Bytes(_) =>
    case Kanji(_) =>
  }

  /** A stream that ends inside the characters of a segment is an underflow. */
  lemma CutShortUnderflows(version: nat, data: Data, s: Segment, n: nat)
    requires SegmentOk(version, s) && |data.payload| + |Text(s)| < MAX_PAYLOAD && n < |BodyBits(s)|
    ensures ReadAll(version, data, Indicator(s) + (Binary(Width(version, s), Count(s)) + BodyBits(s)[..n]))
         == Failure(Underflow)
  {
    var width, body := Width(version, s), BodyBits(s)[..n];
    Field(width, Count(s), body);
    StandardFields(version, s);
    TextLength(s);
    BodyCut(s, n);
    hide Binary, Value, Pow, ReadBody, Take, After, CountBits, Width, Text, BodyBits, Indicator, CharsOk, ReadAll;
    ReadAllSegment(version, data, s, body);
  }

  /** So is one that ends inside a designator. */
  lemma CutDesignatorUnderflows(version: nat, data: Data, n: nat, k: nat)
    requires n < 1_000_000 && k < |DesignatorBits(n)|
    ensures ReadAll(version, data, [false, true, true, true] + DesignatorBits(n)[..k]) == Failure(Underflow)
  {
    var d, m := DesignatorBits(n), [false, true, true, true];
    FourBits(m);
    FirstByte(n);
    assert (m + d[..k])[..4] == m && (m + d[..k])[4..] == d[..k];
    if k >= 8 { assert d[..k][..8] == d[..8]; }
    hide Value, DesignatorBits;
  }

  // ----- the alphanumeric characters -----

  /** The value of an alphanumeric character, as table 5 of ISO/IEC 18004:2000 has it. */
  function CharValue(c: char): Option<nat> {
    if '0' <= c <= '9' then Some(c as nat - '0' as nat)
    else if 'A' <= c <= 'Z' then Some(c as nat - 'A' as nat + 10)
    else if c == ' ' then Some(36) else if c == '$' then Some(37) else if c == '%' then Some(38)
    else if c == '*' then Some(39) else if c == '+' then Some(40) else if c == '-' then Some(41)
    else if c == '.' then Some(42) else if c == '/' then Some(43) else if c == ':' then Some(44)
    else None
  }

  lemma DigitAt(d: nat)
    requires d < 10
    ensures |ALPHA_MAP| == 45 && ALPHA_MAP[d] as int == '0' as int + d
  {
    assert d == 0 || d == 1 || d == 2 || d == 3 || d == 4 || d == 5 || d == 6 || d == 7 || d == 8 || d == 9;
  }

  lemma LetterAt(i: nat)
    requires i < 26
    ensures |ALPHA_MAP| == 45 && ALPHA_MAP[10 + i] as int == 'A' as int + i
  {
    assert i == 0 || i == 1 || i == 2 || i == 3 || i == 4 || i == 5 || i == 6 || i == 7 || i == 8 || i == 9 ||
      i == 10 || i == 11 || i == 12 || i == 13 || i == 14 || i == 15 || i == 16 || i == 17 || i == 18 || i
      == 19 || i == 20 || i == 21 || i == 22 || i == 23 || i == 24 || i == 25;
  }

  /** The decoder's table gives each value its character. */
  lemma AlphaIsStandard(d: nat)
    requires d < 45
    ensures CharValue(ALPHA_MAP[d]) == Some(d) && AlphaByte(d) == ALPHA_MAP[d] as int
  {
    if d < 10 {
      DigitAt(d);
      hide ALPHA_MAP;
    } else if d < 36 {
      LetterAt(d - 10);
      hide ALPHA_MAP;
    } else {
      assert d == 36 || d == 37 || d == 38 || d == 39 || d == 40 || d == 41 || d == 42 || d == 43 || d == 44;
    }
  }

  lemma DigitIsStandard(d: nat)
    requires d < 10
    ensures CharValue(DigitByte(d) as char) == Some(d)
  {
  }
}
