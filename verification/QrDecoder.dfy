/** The segment parser of quirc's decode.c, reading a bit stream and filling the payload in place. */
module QrDecoder {
  import opened Common
  import opened QrPayload

  /** 0x80 >> k. */
  function Mask(k: nat): bv8 {
    if k == 0 then 0x80 else if k == 1 then 0x40 else if k == 2 then 0x20 else if k == 3 then 0x10
    else if k == 4 then 0x08 else if k == 5 then 0x04 else if k == 6 then 0x02 else 0x01
  }

  /** Bit number ptr of the data, highest bit of each byte first. */
  function BitAt(data: seq<bv8>, ptr: nat): bool
    requires ptr / 8 < |data|
  {
    data[ptr / 8] & Mask(ptr % 8) != 0
  }

  /** The bits from ptr up to end. */
  function BitsFrom(data: seq<bv8>, ptr: nat, end: nat): (s: seq<bool>)
    requires ptr <= end <= 8 * |data|
    ensures |s| == end - ptr
  {
    seq(end - ptr, i requires 0 <= i < end - ptr => BitAt(data, ptr + i))
  }

  lemma BitsFromTail(data: seq<bv8>, ptr: nat, end: nat, n: nat)
    requires ptr + n <= end <= 8 * |data|
    ensures BitsFrom(data, ptr, end)[n..] == BitsFrom(data, ptr + n, end)
  {
    hide BitAt;
  }

  class Datastream {
    const data: seq<bv8>
    const dataBits: nat
    var ptr: nat

    ghost predicate Valid()
      reads this
    {
      ptr <= dataBits <= 8 * |data|
    }

    ghost function Left(): (s: seq<bool>)
      requires Valid()
      reads this
      ensures |s| == dataBits - ptr
    {
      BitsFrom(data, ptr, dataBits)
    }

    constructor (data: seq<bv8>, dataBits: nat)
      requires dataBits <= 8 * |data|
      ensures Valid() && Left() == BitsFrom(data, 0, dataBits)
    {
      this.data, this.dataBits, ptr := data, dataBits, 0;
    }

    method Remaining() returns (n: nat)
      requires Valid()
      ensures n == |Left()|
    {
      n := dataBits - ptr;
    }

    /** take_bits. */
    method TakeBits(len: nat) returns (ret: nat)
      requires Valid()
      modifies this
      ensures Valid() && ret == Take(old(Left()), len) && Left() == After(old(Left()), len)
    {
      hide BitAt;
      ret := 0;
      var n: nat := len;
      ghost var bits := Left();
      ghost var k: nat := 0;
      assert bits[..0] == [];
      while n > 0 && ptr < dataBits
        invariant Valid() && n + k == len && ptr == old(ptr) + k && k <= |bits| && ret == Value(bits[..k])
      {
        assert bits[..k + 1][..k] == bits[..k] && bits[..k + 1][k] == BitAt(data, ptr);
        ret := 2 * ret;
        if BitAt(data, ptr) { ret := ret + 1; }
        ptr := ptr + 1;
        k := k + 1;
        n := n - 1;
      }
      assert k == Min(len, |bits|);
      BitsFromTail(data, old(ptr), dataBits, k);
    }
  }

  datatype Code = Fine | Bad(error: QrPayload.Error)

  function TupleBytes(alpha: bool, tuple: nat, digits: nat): (s: seq<byte>)
    ensures |s| == digits
  {
    if alpha then AlphaBytes(tuple, digits) else NumericBytes(tuple, digits)
  }

  /** The last digit still to come, and the number without it. */
  lemma LastOf(alpha: bool, tuple0: nat, digits: nat, tuple: nat, i: nat)
    requires 0 < i <= digits && Digits(alpha, tuple, i) == Digits(alpha, tuple0, digits)[..i]
    ensures Digits(alpha, if alpha then tuple / 45 else tuple / 10, i - 1) == Digits(alpha, tuple0, digits)[..i - 1]
    ensures TupleBytes(alpha, tuple0, digits)[i - 1] == if alpha then AlphaByte(tuple % 45) else DigitByte(tuple % 10)
  {
    hide AlphaByte, DigitByte;
    var all := Digits(alpha, tuple0, digits);
    assert all[..i][i - 1] == all[i - 1] && all[..i][..i - 1] == all[..i - 1];
  }

  class QrData {
    const version: nat
    const payload: array<byte>
    var payloadLen: nat
    var dataType: nat
    var eci: nat

    ghost predicate Valid()
      reads this
    {
      payload.Length == MAX_PAYLOAD && payloadLen < MAX_PAYLOAD
    }

    ghost function Value(): Data
      requires Valid()
      reads this, payload
    {
      Data(payload[..payloadLen], dataType, eci)
    }

    constructor (version: nat)
      ensures Valid() && this.version == version && Value() == Data([], 0, 0) && fresh(payload)
    {
      this.version := version;
      payload := new byte[MAX_PAYLOAD](_ => 0);
      payloadLen, dataType, eci := 0, 0, 0;
    }

    /** What a segment decoder promises: it does what r says. */
    ghost predicate Did(ds: Datastream, code: Code, r: Parsed)
      requires Valid() && ds.Valid()
      reads this, payload, ds
    {
      match r
      case Error(e) => code == Bad(e)
      case Next(data, rest) => code == Fine && Value() == data && ds.Left() == rest
    }

    /** The digits of a tuple, last one first. */
    method PutTuple(alpha: bool, tuple0: nat, digits: nat)
      requires Valid() && payloadLen + digits < MAX_PAYLOAD
      modifies this`payloadLen, payload
      ensures Valid() && payloadLen == old(payloadLen) + digits
      ensures payload[..payloadLen] == old(payload[..payloadLen]) + TupleBytes(alpha, tuple0, digits)
    {
      hide TupleBytes, AlphaByte, DigitByte, Digits;
      var tuple := tuple0;
      var i := digits;
      ghost var all, out := Digits(alpha, tuple0, digits), TupleBytes(alpha, tuple0, digits);
      while i > 0
        invariant 0 <= i <= digits && Digits(alpha, tuple, i) == all[..i]
        invariant payload[..payloadLen] == old(payload[..payloadLen])
        invariant forall k | i <= k < digits :: payload[payloadLen + k] == out[k]
        modifies payload
      {
        LastOf(alpha, tuple0, digits, tuple, i);
        i := i - 1;
        payload[payloadLen + i] := if alpha then AlphaByte(tuple % 45) else DigitByte(tuple % 10);
        tuple := if alpha then tuple / 45 else tuple / 10;
      }
      payloadLen := payloadLen + digits;
    }

    /** numeric_tuple and alpha_tuple. */
    method Tuple(ds: Datastream, alpha: bool, bits: nat, digits: nat) returns (ok: bool)
      requires Valid() && ds.Valid() && payloadLen + digits < MAX_PAYLOAD
      modifies this`payloadLen, payload, ds
      ensures Valid() && ds.Valid() && ok == (|old(ds.Left())| >= bits)
      ensures ok ==> ds.Left() == old(ds.Left())[bits..] && payloadLen == old(payloadLen) + digits
                     && payload[..payloadLen] == old(payload[..payloadLen])
                          + TupleBytes(alpha, QrPayload.Value(old(ds.Left())[..bits]), digits)
    {
      hide TupleBytes;
      var remaining := ds.Remaining();
      if remaining < bits { return false; }
      var tuple := ds.TakeBits(bits);
      PutTuple(alpha, tuple, digits);
      ok := true;
    }

    /** decode_numeric. */
    method DecodeNumeric(ds: Datastream) returns (code: Code)
      requires Valid() && ds.Valid()
      modifies this`payloadLen, payload, ds
      ensures Valid() && ds.Valid() && Did(ds, code, ReadSegment(version, old(Value()), NUMERIC, old(ds.Left())))
    {
      hide Take, After, ReadNumeric;
      var bits := 14;
      if version < 10 { bits := 10; } else if version < 27 { bits := 12; }
      var count := ds.TakeBits(bits);
      if payloadLen + count + 1 > MAX_PAYLOAD { return Bad(Overflow); }
      code := NumericTuples(ds, count);
    }

    method NumericTuples(ds: Datastream, count0: nat) returns (code: Code)
      requires Valid() && ds.Valid() && payloadLen + count0 + 1 <= MAX_PAYLOAD
      modifies this`payloadLen, payload, ds
      ensures Valid() && ds.Valid() && Did(ds, code, Append(old(Value()), ReadNumeric(old(ds.Left()), count0)))
    {
      hide NumericBytes, Append, ReadNumeric;
      var count := count0;
      while count >= 3
        invariant Valid() && ds.Valid() && payloadLen + count + 1 <= MAX_PAYLOAD
        invariant Append(old(Value()), ReadNumeric(old(ds.Left()), count0))
          == Append(Value(), ReadNumeric(ds.Left(), count))
      {
        NumericStep(Value(), ds.Left(), count);
        var ok := Tuple(ds, false, 10, 3);
        if !ok { return Bad(Underflow); }
        count := count - 3;
      }
      if count >= 2 {
        NumericStep(Value(), ds.Left(), count);
        var ok := Tuple(ds, false, 7, 2);
        if !ok { return Bad(Underflow); }
        count := count - 2;
      }
      if count > 0 {
        NumericStep(Value(), ds.Left(), count);
        var ok := Tuple(ds, false, 4, 1);
        if !ok { return Bad(Underflow); }
        count := count - 1;
      }
      NumericDone(Value(), ds.Left());
      code := Fine;
    }

    /** decode_alpha. */
    method DecodeAlpha(ds: Datastream) returns (code: Code)
      requires Valid() && ds.Valid()
      modifies this`payloadLen, payload, ds
      ensures Valid() && ds.Valid() && Did(ds, code, ReadSegment(version, old(Value()), ALPHA, old(ds.Left())))
    {
      hide Take, After, ReadAlpha;
      var bits := 13;
      if version < 10 { bits := 9; } else if version < 27 { bits := 11; }
      var count := ds.TakeBits(bits);
      if payloadLen + count + 1 > MAX_PAYLOAD { return Bad(Overflow); }
      code := AlphaTuples(ds, count);
    }

    method AlphaTuples(ds: Datastream, count0: nat) returns (code: Code)
      requires Valid() && ds.Valid() && payloadLen + count0 + 1 <= MAX_PAYLOAD
      modifies this`payloadLen, payload, ds
      ensures Valid() && ds.Valid() && Did(ds, code, Append(old(Value()), ReadAlpha(old(ds.Left()), count0)))
    {
      hide AlphaBytes, Append, ReadAlpha;
      var count := count0;
      while count >= 2
        invariant Valid() && ds.Valid() && payloadLen + count + 1 <= MAX_PAYLOAD
        invariant Append(old(Value()), ReadAlpha(old(ds.Left()), count0))
          == Append(Value(), ReadAlpha(ds.Left(), count))
      {
        AlphaStep(Value(), ds.Left(), count);
        var ok := Tuple(ds, true, 11, 2);
        if !ok { return Bad(Underflow); }
        count := count - 2;
      }
      if count > 0 {
        AlphaStep(Value(), ds.Left(), count);
        var ok := Tuple(ds, true, 6, 1);
        if !ok { return Bad(Underflow); }
        count := count - 1;
      }
      AlphaDone(Value(), ds.Left());
      code := Fine;
    }

    method Put(x: byte)
      requires Valid() && payloadLen + 1 < MAX_PAYLOAD
      modifies this`payloadLen, payload
      ensures Valid() && payloadLen == old(payloadLen) + 1 && payload[..payloadLen] == old(payload[..payloadLen]) + [x]
    {
      payload[payloadLen] := x;
      payloadLen := payloadLen + 1;
    }

    /** decode_byte. */
    method DecodeByte(ds: Datastream) returns (code: Code)
      requires Valid() && ds.Valid()
      modifies this`payloadLen, payload, ds
      ensures Valid() && ds.Valid() && Did(ds, code, ReadSegment(version, old(Value()), BYTES, old(ds.Left())))
    {
      hide Take, After, ReadBytes;
      var count := ds.TakeBits(if version < 10 then 8 else 16);
      if payloadLen + count + 1 > MAX_PAYLOAD { return Bad(Overflow); }
      var remaining := ds.Remaining();
      if remaining < count * 8 { return Bad(Underflow); }
      ByteLoop(ds, count);
      code := Fine;
    }

    method ByteLoop(ds: Datastream, count: nat)
      requires Valid() && ds.Valid() && payloadLen + count + 1 <= MAX_PAYLOAD && |ds.Left()| >= 8 * count
      modifies this`payloadLen, payload, ds
      ensures Valid() && ds.Valid() && Did(ds, Fine, Append(old(Value()), Some(ReadBytes(old(ds.Left()), count))))
    {
      hide QrPayload.Value, Append;
      var i: nat := 0;
      while i < count
        invariant i <= count && Valid() && ds.Valid() && payloadLen + (count - i) + 1 <= MAX_PAYLOAD
        invariant |ds.Left()| >= 8 * (count - i)
        invariant Append(old(Value()), Some(ReadBytes(old(ds.Left()), count)))
          == Append(Value(), Some(ReadBytes(ds.Left(), count - i)))
      {
        ghost var before := Value();
        var x := ds.TakeBits(8);
        Put(x % 256);
        AppendMore(before, [x % 256], Some(ReadBytes(ds.Left(), count - i - 1)));
        i := i + 1;
      }
      AppendNothing(Value(), ds.Left());
    }

    /** decode_kanji. */
    method DecodeKanji(ds: Datastream) returns (code: Code)
      requires Valid() && ds.Valid()
      modifies this`payloadLen, payload, ds
      ensures Valid() && ds.Valid() && Did(ds, code, ReadSegment(version, old(Value()), KANJI, old(ds.Left())))
    {
      hide Take, After, ReadKanji;
      var bits := 12;
      if version < 10 { bits := 8; } else if version < 27 { bits := 10; }
      var count := ds.TakeBits(bits);
      if payloadLen + count * 2 + 1 > MAX_PAYLOAD { return Bad(Overflow); }
      var remaining := ds.Remaining();
      if remaining < count * 13 { return Bad(Underflow); }
      KanjiLoop(ds, count);
      code := Fine;
    }

    method KanjiLoop(ds: Datastream, count: nat)
      requires Valid() && ds.Valid() && payloadLen + 2 * count + 1 <= MAX_PAYLOAD && |ds.Left()| >= 13 * count
      modifies this`payloadLen, payload, ds
      ensures Valid() && ds.Valid() && Did(ds, Fine, Append(old(Value()), Some(ReadKanji(old(ds.Left()), count))))
    {
      hide QrPayload.Value, Append, KanjiCode;
      var i: nat := 0;
      while i < count
        invariant i <= count && Valid() && ds.Valid() && payloadLen + 2 * (count - i) + 1 <= MAX_PAYLOAD
        invariant |ds.Left()| >= 13 * (count - i)
        invariant Append(old(Value()), Some(ReadKanji(old(ds.Left()), count)))
          == Append(Value(), Some(ReadKanji(ds.Left(), count - i)))
      {
        ghost var before := Value();
        var d := ds.TakeBits(13);
        var sjw := SjisOf(d);
        Put2(sjw / 256 % 256, sjw % 256);
        AppendMore(before, [sjw / 256 % 256, sjw % 256], Some(ReadKanji(ds.Left(), count - i - 1)));
        i := i + 1;
      }
      AppendNothing(Value(), ds.Left());
    }

    method Put2(x: byte, y: byte)
      requires Valid() && payloadLen + 2 < MAX_PAYLOAD
      modifies this`payloadLen, payload
      ensures Valid() && payloadLen == old(payloadLen) + 2
        && payload[..payloadLen] == old(payload[..payloadLen]) + [x, y]
    {
      Put(x);
      Put(y);
    }

    /** decode_eci. */
    method DecodeEci(ds: Datastream) returns (code: Code)
      requires Valid() && ds.Valid()
      modifies this`eci, ds
      ensures Valid() && ds.Valid() && Did(ds, code, ReadEci(old(Value()), old(ds.Left())))
    {
      hide QrPayload.Value;
      PowValues16();
      hide Pow;
      EciParts(ds.Left());
      var remaining := ds.Remaining();
      if remaining < 8 { return Bad(Underflow); }
      var first := ds.TakeBits(8);
      eci := first;
      remaining := ds.Remaining();
      if 0x80 <= first < 0xc0 {
        if remaining < 8 { return Bad(Underflow); }
        var more := ds.TakeBits(8);
        eci := first * 256 + more;
      } else if 0xc0 <= first < 0xe0 {
        if remaining < 16 { return Bad(Underflow); }
        var more := ds.TakeBits(16);
        eci := first * 65536 + more;
      }
      code := Fine;
    }

    /** decode_payload: it does to the payload what ReadAll says, and ends it with a NUL. */
    method DecodePayload(ds: Datastream) returns (code: Code)
      requires Valid() && ds.Valid()
      modifies this, payload, ds
      ensures Valid()
      ensures match ReadAll(version, old(Value()), old(ds.Left()))
              case Failure(e) => code == Bad(e)
              case Success(data) => code == Fine && Value() == data && payload[payloadLen] == 0
    {
      hide ReadSegment, ReadEci, QrPayload.Value;
      ghost var all := ReadAll(version, Value(), ds.Left());
      var more := true;
      var remaining := ds.Remaining();
      while more && remaining >= 4
        invariant Valid() && ds.Valid() && remaining == |ds.Left()|
        invariant if more then all == ReadAll(version, Value(), ds.Left()) else all == Success(Value())
        decreases remaining + if more then 1 else 0
      {
        var mode := ds.TakeBits(4);
        if mode == NUMERIC {
          code := DecodeNumeric(ds);
        } else if mode == ALPHA {
          code := DecodeAlpha(ds);
        } else if mode == BYTES {
          code := DecodeByte(ds);
        } else if mode == KANJI {
          code := DecodeKanji(ds);
        } else if mode == ECI {
          code := DecodeEci(ds);
        } else {
          more := false;
          code := Fine;
        }
        if code != Fine { return; }
        if more && mode != ECI && mode > dataType { dataType := mode; }
        remaining := ds.Remaining();
      }
      payload[payloadLen] := 0;
      code := Fine;
    }
  }

  method SjisOf(d: nat) returns (sjw: nat)
    ensures sjw == KanjiCode(d)
  {
    var msb, lsb := d / 0xc0, d % 0xc0;
    var intermediate := msb * 256 + lsb;
    if intermediate + 0x8140 <= 0x9ffc { sjw := intermediate + 0x8140; } else { sjw := intermediate + 0xc140; }
  }

  lemma PowValues16()
    ensures Pow(2, 0) == 1 && Pow(2, 8) == 256 && Pow(2, 16) == 65536
  {
    PowValues();
    assert Pow(2, 10) == 4 * Pow(2, 8) && Pow(2, 12) == 4 * Pow(2, 10);
    assert Pow(2, 14) == 4 * Pow(2, 12) && Pow(2, 16) == 4 * Pow(2, 14);
  }

  /** Reading more after a first part has been stored. */
  lemma AppendMore(data: Data, first: seq<byte>, c: Option<Chunk>)
    ensures Append(data.(payload := data.payload + first), c)
         == Append(data, match c case None => None case Some(c) => Some(Chunk(first + c.bytes, c.rest)))
  {
    if c.Some? { assert data.payload + (first + c.value.bytes) == (data.payload + first) + c.value.bytes; }
  }

  lemma EciParts(bits: seq<bool>)
    ensures |bits| >= 8 ==> Take(bits[8..], 0) == 0
    ensures |bits| >= 16 ==> bits[8..][8..] == bits[16..]
    ensures |bits| >= 24 ==> bits[8..][16..] == bits[24..]
  {
    if |bits| >= 8 { assert bits[8..][..0] == []; }
  }

  lemma AppendNothing(data: Data, bits: seq<bool>)
    ensures Append(data, Some(Chunk([], bits))) == Next(data, bits)
  {
    assert data.payload + [] == data.payload;
  }

  lemma NumericDone(data: Data, bits: seq<bool>)
    ensures Append(data, ReadNumeric(bits, 0)) == Next(data, bits)
  {
    AppendNothing(data, bits);
  }

  lemma AlphaDone(data: Data, bits: seq<bool>)
    ensures Append(data, ReadAlpha(bits, 0)) == Next(data, bits)
  {
    AppendNothing(data, bits);
  }

  /** One more group of digits. */
  lemma NumericStep(data: Data, bits: seq<bool>, count: nat)
    requires count > 0
    ensures var digits := if count >= 3 then 3 else count;
            var width := if digits == 3 then 10 else if digits == 2 then 7 else 4;
            Append(data, ReadNumeric(bits, count))
            == if |bits| < width then Error(Underflow)
               else Append(data.(payload := data.payload + NumericBytes(Value(bits[..width]), digits)),
                           ReadNumeric(bits[width..], count - digits))
  {
    hide NumericBytes;
    var digits := if count >= 3 then 3 else count;
    var width := if digits == 3 then 10 else if digits == 2 then 7 else 4;
    if |bits| >= width {
      AppendMore(data, NumericBytes(Value(bits[..width]), digits), ReadNumeric(bits[width..], count - digits));
    }
  }

  lemma AlphaStep(data: Data, bits: seq<bool>, count: nat)
    requires count > 0
    ensures var digits := if count >= 2 then 2 else 1;
            var width := if digits == 2 then 11 else 6;
            Append(data, ReadAlpha(bits, count))
            == if |bits| < width then Error(Underflow)
               else Append(data.(payload := data.payload + AlphaBytes(Value(bits[..width]), digits)),
                           ReadAlpha(bits[width..], count - digits))
  {
    hide AlphaBytes;
    var digits := if count >= 2 then 2 else 1;
    var width := if digits == 2 then 11 else 6;
    if |bits| >= width {
      AppendMore(data, AlphaBytes(Value(bits[..width]), digits), ReadAlpha(bits[width..], count - digits));
    }
  }
}
