/** Numbers on the Protocol Buffers wire: base-128 varints, zig-zag and little-endian words. */
module PbVarint {
  import opened Common


  const U32 := 0x1_0000_0000
  const U64 := 0x1_0000_0000_0000_0000

  datatype Parsed<T> = Ok(value: T, rest: seq<byte>) | Fail

  function Pow2(n: nat): (p: nat)
    ensures 0 < p
  {
    if n == 0 then 1 else 2 * Pow2(n - 1)
  }

  /** v << n. */
  function Shift(v: nat, n: nat): nat { v * Pow2(n) }

  // ----- encoding -----

  /** The base-128 form of v: seven bits a byte, lowest first, the top bit set on all but the last. */
  function Base128(v: nat): (b: seq<byte>)
    ensures |b| > 0
  {
    if v < 128 then [v] else [128 + v % 128] + Base128(v / 128)
  }

  function ZigZag(v: int): nat {
    if v < 0 then -2 * v - 1 else 2 * v
  }

  function UnZigZag(u: nat): int {
    if u % 2 == 1 then -(u / 2) - 1 else u / 2
  }

  /** count bytes of v, lowest first. */
  function LittleEndian(v: nat, count: nat): (b: seq<byte>)
    ensures |b| == count
  {
    if count == 0 then [] else [v % 256] + LittleEndian(v / 256, count - 1)
  }

  function FromLittleEndian(b: seq<byte>): nat {
    if |b| == 0 then 0 else b[0] + 256 * FromLittleEndian(b[1..])
  }

  // ----- decoding -----

  /** The loop of pb_decode_varint with result so far and the position of the next seven bits. */
  function ReadVarint(b: seq<byte>, bitpos: nat, result: nat): (r: Parsed<nat>)
    ensures r.Ok? ==> |r.rest| < |b|
    decreases |b|
  {
    if |b| == 0 || (bitpos >= 63 && b[0] >= 2) then Fail
    else
      var result' := result + Shift(b[0] % 128, bitpos);
      if b[0] >= 128 then ReadVarint(b[1..], bitpos + 7, result') else Ok(result', b[1..])
  }

  /** Whether a byte can come at a position: past 32 bits only as sign extension or padding. */
  predicate Accepts32(x: byte, bitpos: nat, result: nat) {
    if bitpos >= 32 then
      bitpos < 64 && (x % 128 == 0 || (result >= 0x8000_0000 && x == if bitpos < 63 then 0xFF else 0x01))
    else bitpos != 28 || x / 16 % 8 == 0 || x / 8 % 16 == 15
  }

  function Next32(x: byte, bitpos: nat, result: nat): nat {
    if bitpos >= 32 then result
    else if bitpos == 28 then result + Shift(x % 16, 28)
    else result + Shift(x % 128, bitpos)
  }

  /** The loop of pb_decode_varint32_eof after the first byte. */
  function ReadMore32(b: seq<byte>, bitpos: nat, result: nat): (r: Parsed<nat>)
    ensures r.Ok? ==> |r.rest| < |b|
    decreases |b|
  {
    if |b| == 0 || !Accepts32(b[0], bitpos, result) then Fail
    else if b[0] >= 128 then ReadMore32(b[1..], bitpos + 7, Next32(b[0], bitpos, result))
    else Ok(Next32(b[0], bitpos, result), b[1..])
  }

  /** pb_decode_varint32. */
  function ReadVarint32(b: seq<byte>): (r: Parsed<nat>)
    ensures r.Ok? ==> |r.rest| < |b|
  {
    if |b| == 0 then Fail else if b[0] < 128 then Ok(b[0], b[1..]) else ReadMore32(b[1..], 7, b[0] % 128)
  }

  function ReadSvarint(b: seq<byte>): (r: Parsed<int>)
    ensures r.Ok? ==> |r.rest| < |b|
  {
    match ReadVarint(b, 0, 0)
    case Ok(v, rest) => Ok(UnZigZag(v), rest)
    case Fail => Fail
  }

  // ----- arithmetic -----

  lemma {:induction false} Pow2Add(a: nat, b: nat)
    ensures Pow2(a + b) == Pow2(a) * Pow2(b)
  {
    if a > 0 {
      Pow2Add(a - 1, b);
      assert 2 * (Pow2(a - 1) * Pow2(b)) == (2 * Pow2(a - 1)) * Pow2(b);
    }
  }

  lemma Pow2Seven(k: nat)
    ensures Pow2(k + 7) == 128 * Pow2(k)
  {
    Pow2Add(7, k);
    assert Pow2(7) == 128 by {
      assert Pow2(3) == 8;
      Pow2Add(3, 3);
      assert Pow2(6) == 64;
    }
  }

  lemma Cancel(a: int, b: int, c: int)
    requires 0 < c && a * c < b * c
    ensures a < b
  {
    if b <= a { Monotone(b, a, c); }
  }

  lemma Pow2Small()
    ensures Pow2(4) == 16 && Pow2(8) == 256 && Pow2(12) == 4096
  {
    assert Pow2(4) == 16;
    Pow2Add(4, 4);
    Pow2Add(8, 4);
  }

  lemma Pow2Values()
    ensures Pow2(4) == 16 && Pow2(28) == 0x1000_0000 && Pow2(32) == U32 && Pow2(63) == 0x8000_0000_0000_0000
      && Pow2(64) == U64
  {
    Pow2Small();
    assert Pow2(1) == 2;
    hide Pow2;
    Pow2Add(8, 8);
    Pow2Add(16, 16);
    Pow2Add(32, 32);
    Pow2Add(16, 12);
    Pow2Add(63, 1);
  }

  // ----- varints decode to what was encoded -----

  /** From position 63 on there is room for one bit only. */
  lemma RoomFor(v: nat, bitpos: nat)
    requires Shift(v, bitpos) < U64
    ensures bitpos >= 63 ==> v < 2
  {
    if bitpos >= 63 && v >= 2 {
      Pow2Values();
      hide Pow2;
      Pow2Add(63, bitpos - 63);
      Monotone(1, Pow2(bitpos - 63), Pow2(63));
      Monotone(2, v, Pow2(bitpos));
    }
  }

  lemma SplitSeven(v: nat, bitpos: nat)
    ensures Shift(v, bitpos) == Shift(v % 128, bitpos) + Shift(v / 128, bitpos + 7)
  {
    Pow2Seven(bitpos);
    hide Pow2;
    assert v == v / 128 * 128 + v % 128;
    Distribute(v / 128 * 128, v % 128, Pow2(bitpos));
    assert v / 128 * 128 * Pow2(bitpos) == v / 128 * (128 * Pow2(bitpos));
  }

  lemma ShiftZero(v: nat)
    ensures Shift(v, 0) == v
  {
  }

  lemma FourBits(v: nat)
    requires Shift(v, 28) < U32
    ensures v < 16
  {
    Pow2Values();
    hide Pow2;
    Cancel(v, 16, Pow2(28));
  }

  /** Reading the base-128 form of v at any position adds v there, and leaves what follows. */
  lemma {:induction false} ReadBase128(v: nat, bitpos: nat, result: nat, rest: seq<byte>)
    requires Shift(v, bitpos) < U64
    ensures ReadVarint(Base128(v) + rest, bitpos, result) == Ok(result + Shift(v, bitpos), rest)
    decreases v
  {
    hide Pow2, Shift;
    var b := Base128(v) + rest;
    RoomFor(v, bitpos);
    if v < 128 {
      assert b[0] == v && b[1..] == rest;
    } else {
      assert b[0] == 128 + v % 128 && b[1..] == Base128(v / 128) + rest;
      SplitSeven(v, bitpos);
      ReadBase128(v / 128, bitpos + 7, result + Shift(v % 128, bitpos), rest);
    }
  }

  /** Every 64-bit value survives its varint. */
  lemma VarintRoundTrip(v: nat, rest: seq<byte>)
    requires v < U64
    ensures ReadVarint(Base128(v) + rest, 0, 0) == Ok(v, rest)
  {
    ShiftZero(v);
    hide Shift;
    ReadBase128(v, 0, 0, rest);
  }

  lemma SvarintRoundTrip(v: int, rest: seq<byte>)
    requires -0x8000_0000_0000_0000 <= v < 0x8000_0000_0000_0000
    ensures ZigZag(v) < U64 && ReadSvarint(Base128(ZigZag(v)) + rest) == Ok(v, rest)
  {
    VarintRoundTrip(ZigZag(v), rest);
  }

  /** A varint is at most ten bytes, and its value fits 64 bits. */
  lemma {:induction false} ReadVarintBounds(b: seq<byte>, bitpos: nat, result: nat)
    requires bitpos % 7 == 0 && bitpos <= 63 && result < Pow2(bitpos)
    ensures var r := ReadVarint(b, bitpos, result);
            r.Ok? ==> r.value < U64 && 0 < |b| - |r.rest| <= 10 - bitpos / 7 && r.rest == b[|b| - |r.rest|..]
    decreases |b|
  {
    hide Pow2, Shift;
    if |b| > 0 && !(bitpos >= 63 && b[0] >= 2) {
      var result' := result + Shift(b[0] % 128, bitpos);
      NextResult(b[0] % 128, bitpos, result);
      if b[0] >= 128 { ReadVarintBounds(b[1..], bitpos + 7, result'); }
    }
  }

  lemma NextResult(d: nat, bitpos: nat, result: nat)
    requires d < 128 && bitpos <= 63 && bitpos % 7 == 0 && result < Pow2(bitpos) && (bitpos >= 63 ==> d < 2)
    ensures result + Shift(d, bitpos) < U64
    ensures bitpos < 63 ==> result + Shift(d, bitpos) < Pow2(bitpos + 7)
  {
    Pow2Values();
    hide Pow2;
    Pow2Seven(bitpos);
    if bitpos == 63 {
      Monotone(d, 1, Pow2(63));
    } else {
      Monotone(d, 127, Pow2(bitpos));
      if bitpos <= 57 {
        Pow2Add(bitpos + 7, 64 - (bitpos + 7));
        Monotone(1, Pow2(64 - (bitpos + 7)), Pow2(bitpos + 7));
      }
    }
  }

  /** The base-128 form is minimal: no sequence of bytes that decodes to the same value is shorter. */
  lemma {:induction false} ReadLength(b: seq<byte>, bitpos: nat, result: nat) returns (w: nat)
    requires ReadVarint(b, bitpos, result).Ok?
    ensures var r := ReadVarint(b, bitpos, result);
            r.value == result + Shift(w, bitpos) && |Base128(w)| <= |b| - |r.rest|
    decreases |b|
  {
    hide Pow2, Shift;
    w := b[0] % 128;
    if b[0] >= 128 {
      var w' := ReadLength(b[1..], bitpos + 7, result + Shift(w, bitpos));
      SplitSeven(w + 128 * w', bitpos);
      w := w + 128 * w';
    }
  }

  lemma Base128Minimal(b: seq<byte>)
    ensures var r := ReadVarint(b, 0, 0); r.Ok? ==> |Base128(r.value)| <= |b| - |r.rest|
  {
    if ReadVarint(b, 0, 0).Ok? {
      var w := ReadLength(b, 0, 0);
      ShiftZero(w);
    }
  }

  // ----- the 32-bit decoder agrees with the 64-bit one -----

  lemma MultipleOf32(d: nat, k: nat, r: nat)
    requires k >= 32
    ensures (r + Shift(d, k)) % U32 == r % U32
  {
    Pow2Values();
    hide Pow2;
    Pow2Add(32, k - 32);
    var m := d * Pow2(k - 32);
    assert d * Pow2(k) == m * U32;
    AddMultiple(r, m);
  }

  lemma AddMultiple(r: nat, m: nat)
    ensures (r + m * U32) % U32 == r % U32
  {
  }

  lemma At28(x: byte, r: nat)
    requires r < Pow2(28)
    ensures r + Shift(x % 16, 28) < U32
    ensures (r + Shift(x % 128, 28)) % U32 == r + Shift(x % 16, 28)
  {
    Pow2Values();
    hide Pow2;
    var hi := x % 128 / 16;
    assert x % 128 == 16 * hi + x % 16;
    assert r + Shift(x % 128, 28) == (r + Shift(x % 16, 28)) + hi * U32;
    AddMultiple(r + Shift(x % 16, 28), hi);
  }

  /** Past 32 bits the 32-bit decoder only checks the sign extension. */
  lemma {:induction false} AgreeHigh(b: seq<byte>, bitpos: nat, r32: nat, r64: nat)
    requires ReadMore32(b, bitpos, r32).Ok? && bitpos % 7 == 0 && 32 <= bitpos && r32 == r64 % U32
    ensures var r := ReadMore32(b, bitpos, r32);
            var r' := ReadVarint(b, bitpos, r64);
            r'.Ok? && r'.rest == r.rest && r.value == r'.value % U32
    decreases |b|
  {
    hide Pow2, Shift;
    MultipleOf32(b[0] % 128, bitpos, r64);
    if b[0] >= 128 { AgreeHigh(b[1..], bitpos + 7, r32, r64 + Shift(b[0] % 128, bitpos)); }
  }

  lemma {:induction false} AgreeLow(b: seq<byte>, bitpos: nat, r: nat)
    requires ReadMore32(b, bitpos, r).Ok? && bitpos % 7 == 0 && bitpos <= 28 && r < Pow2(bitpos)
    ensures var s := ReadMore32(b, bitpos, r);
            var s' := ReadVarint(b, bitpos, r);
            s'.Ok? && s'.rest == s.rest && s.value == s'.value % U32
    decreases |b|
  {
    hide Pow2, Shift;
    var x := b[0];
    NextResult(x % 128, bitpos, r);
    if bitpos == 28 {
      At28(x, r);
      if x >= 128 { AgreeHigh(b[1..], 35, r + Shift(x % 16, 28), r + Shift(x % 128, 28)); }
    } else {
      Below32(r + Shift(x % 128, bitpos), bitpos + 7);
      if x >= 128 { AgreeLow(b[1..], bitpos + 7, r + Shift(x % 128, bitpos)); }
    }
  }

  lemma Below32(r: nat, k: nat)
    requires k <= 32 && r < Pow2(k)
    ensures r < U32
  {
    Pow2Values();
    hide Pow2;
    Pow2Add(k, 32 - k);
    Monotone(1, Pow2(32 - k), Pow2(k));
  }

  /** Whatever the 32-bit decoder accepts, the 64-bit decoder accepts with the same value modulo 2^32. */
  lemma Varint32Agrees(b: seq<byte>)
    ensures var s := ReadVarint32(b);
            s.Ok? ==> var s' := ReadVarint(b, 0, 0);
                      s'.Ok? && s'.rest == s.rest && s.value == s'.value % U32 && s.value < U32
  {
    if ReadVarint32(b).Ok? {
      ShiftZero(b[0] % 128);
      hide Shift, ReadMore32;
      if b[0] >= 128 {
        assert Pow2(7) == 128 by { Pow2Seven(0); }
        AgreeLow(b[1..], 7, b[0] % 128);
      }
    }
  }

  /** The last byte of a 32-bit value has four bits. */
  lemma ReadMoreLast(v: nat, result: nat, rest: seq<byte>)
    requires v < 16
    ensures ReadMore32(Base128(v) + rest, 28, result) == Ok(result + Shift(v, 28), rest)
  {
    hide Pow2, Shift;
    var b := Base128(v) + rest;
    assert b[0] == v && b[1..] == rest;
  }

  lemma ReadMoreStep(x: byte, b: seq<byte>, bitpos: nat, result: nat)
    requires bitpos < 28
    ensures ReadMore32([x] + b, bitpos, result)
         == if x >= 128 then ReadMore32(b, bitpos + 7, result + Shift(x % 128, bitpos))
            else Ok(result + Shift(x % 128, bitpos), b)
  {
    hide Pow2, Shift;
    assert ([x] + b)[1..] == b;
  }

  lemma {:induction false} ReadMoreBase128(v: nat, bitpos: nat, result: nat, rest: seq<byte>)
    requires Shift(v, bitpos) < U32 && bitpos % 7 == 0 && bitpos <= 28
    ensures ReadMore32(Base128(v) + rest, bitpos, result) == Ok(result + Shift(v, bitpos), rest)
    decreases v
  {
    hide Pow2, Shift, ReadMore32;
    if bitpos == 28 {
      FourBits(v);
      ReadMoreLast(v, result, rest);
    } else if v < 128 {
      ReadMoreStep(v, rest, bitpos, result);
    } else {
      assert Base128(v) + rest == [128 + v % 128] + (Base128(v / 128) + rest);
      ReadMoreStep(128 + v % 128, Base128(v / 128) + rest, bitpos, result);
      SplitSeven(v, bitpos);
      ReadMoreBase128(v / 128, bitpos + 7, result + Shift(v % 128, bitpos), rest);
    }
  }

  lemma Base128Splits(v: nat, rest: seq<byte>)
    requires v >= 128
    ensures var b := Base128(v) + rest; b[0] == 128 + v % 128 && b[1..] == Base128(v / 128) + rest
  {
    var x, t := 128 + v % 128, Base128(v / 128);
    assert Base128(v) == [x] + t;
    hide Base128;
    assert ([x] + t + rest)[1..] == t + rest;
  }

  /** Every 32-bit value survives its varint through the 32-bit decoder. */
  lemma Varint32RoundTrip(v: nat, rest: seq<byte>)
    requires v < U32
    ensures ReadVarint32(Base128(v) + rest) == Ok(v, rest)
  {
    hide ReadMore32;
    if v >= 128 {
      Base128Splits(v, rest);
      hide Pow2, Shift, Base128;
      ShiftZero(v);
      ShiftZero(v % 128);
      SplitSeven(v, 0);
      ReadMoreBase128(v / 128, 7, v % 128, rest);
    } else {
      assert ([v] + rest)[1..] == rest;
    }
  }

  // ----- bytes that follow do not matter -----

  predicate Suffix(b: seq<byte>, rest: seq<byte>) {
    |rest| <= |b| && b[|b| - |rest|..] == rest
  }

  /** What was read of b when rest is left of it. */
  function Used(b: seq<byte>, rest: seq<byte>): seq<byte> {
    if |rest| <= |b| then b[..|b| - |rest|] else []
  }

  /** Reading n bytes first and then down to rest. */
  lemma UsedAfter(b: seq<byte>, n: nat, rest: seq<byte>, c: seq<byte>)
    requires n <= |b| && Suffix(b[n..], rest)
    ensures Suffix(b, rest) && |Used(b, rest) + c| >= n
    ensures (Used(b, rest) + c)[..n] == b[..n] && (Used(b, rest) + c)[n..] == Used(b[n..], rest) + c
  {
  }

  lemma {:induction false} ReadVarintLocal(b: seq<byte>, c: seq<byte>, bitpos: nat, result: nat)
    requires ReadVarint(b, bitpos, result).Ok?
    ensures var r := ReadVarint(b, bitpos, result);
            Suffix(b, r.rest) && ReadVarint(Used(b, r.rest) + c, bitpos, result) == Ok(r.value, c)
    decreases |b|
  {
    hide Pow2, Shift;
    if b[0] >= 128 { ReadVarintLocal(b[1..], c, bitpos + 7, result + Shift(b[0] % 128, bitpos)); }
    UsedAfter(b, 1, ReadVarint(b, bitpos, result).rest, c);
    hide Suffix, Used;
    assert b[..1][0] == b[0];
  }

  lemma {:induction false} ReadMore32Local(b: seq<byte>, c: seq<byte>, bitpos: nat, result: nat)
    requires ReadMore32(b, bitpos, result).Ok?
    ensures var r := ReadMore32(b, bitpos, result);
            Suffix(b, r.rest) && ReadMore32(Used(b, r.rest) + c, bitpos, result) == Ok(r.value, c)
    decreases |b|
  {
    hide Accepts32, Next32;
    if b[0] >= 128 { ReadMore32Local(b[1..], c, bitpos + 7, Next32(b[0], bitpos, result)); }
    UsedAfter(b, 1, ReadMore32(b, bitpos, result).rest, c);
    hide Suffix, Used;
    assert b[..1][0] == b[0];
  }

  lemma ReadVarint32Local(b: seq<byte>, c: seq<byte>)
    requires ReadVarint32(b).Ok?
    ensures var r := ReadVarint32(b); Suffix(b, r.rest) && ReadVarint32(Used(b, r.rest) + c) == Ok(r.value, c)
  {
    if b[0] >= 128 { ReadMore32Local(b[1..], c, 7, b[0] % 128); }
    hide ReadMore32;
    UsedAfter(b, 1, ReadVarint32(b).rest, c);
    assert b[..1][0] == b[0];
  }

  // ----- little-endian words -----

  lemma {:induction false} LittleEndianRoundTrip(v: nat, count: nat)
    requires v < Pow2(8 * count)
    ensures FromLittleEndian(LittleEndian(v, count)) == v
    decreases count
  {
    if count > 0 {
      Pow2Add(8, 8 * (count - 1));
      Pow2Small();
      hide Pow2;
      Cancel(v / 256, Pow2(8 * (count - 1)), 256);
      LittleEndianRoundTrip(v / 256, count - 1);
      assert LittleEndian(v, count)[1..] == LittleEndian(v / 256, count - 1);
    }
  }
}
