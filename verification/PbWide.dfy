/** Varints that are longer than they need be, as pb_decode_varint32 reads them. */
module PbWide {
  import opened Common
  import opened PbVarint
  import opened PbModel

  /** The lowest 7 * n bits of v in n bytes, zeros and all. */
  function Groups(v: nat, n: nat): (b: seq<byte>)
    requires n > 0
    ensures |b| == n
  {
    if n == 1 then [v % 128] else [128 + v % 128] + Groups(v / 128, n - 1)
  }

  lemma LastGroup(v: nat)
    ensures Groups(v, 1) == [v % 128]
  {
  }

  lemma Pow2Zero()
    ensures Pow2(0) == 1
  {
  }

  lemma GroupsSplit(v: nat, n: nat, rest: seq<byte>)
    requires n > 1
    ensures Groups(v, n) + rest == [128 + v % 128] + (Groups(v / 128, n - 1) + rest)
  {
  }

  lemma FirstGroup(v: nat, n: nat, rest: seq<byte>)
    requires n > 1
    ensures ReadVarint32(Groups(v, n) + rest) == ReadMore32(Groups(v / 128, n - 1) + rest, 7, v % 128)
  {
    var more := Groups(v / 128, n - 1) + rest;
    GroupsSplit(v, n, rest);
    hide Groups, ReadMore32;
    assert ([128 + v % 128] + more)[1..] == more;
  }

  lemma OneGroup(v: nat, n: nat, bitpos: nat, result: nat, rest: seq<byte>)
    requires n > 1 && bitpos < 28
    ensures ReadMore32(Groups(v, n) + rest, bitpos, result)
         == ReadMore32(Groups(v / 128, n - 1) + rest, bitpos + 7, result + Shift(v % 128, bitpos))
  {
    GroupsSplit(v, n, rest);
    hide Groups, ReadMore32, Shift;
    ReadMoreStep(128 + v % 128, Groups(v / 128, n - 1) + rest, bitpos, result);
  }

  lemma {:induction false} ShortGroups(v: nat, n: nat, bitpos: nat, result: nat, rest: seq<byte>)
    requires 0 < n && bitpos + 7 * n <= 28 && v < Pow2(7 * n)
    ensures ReadMore32(Groups(v, n) + rest, bitpos, result) == Ok(result + Shift(v, bitpos), rest)
    decreases n
  {
    hide Pow2, Shift, ReadMore32, Groups;
    Pow2Seven(7 * n - 7);
    if n == 1 {
      Pow2Zero();
      LastGroup(v);
      ReadMoreStep(v, rest, bitpos, result);
    } else {
      OneGroup(v, n, bitpos, result, rest);
      ShortGroups(v / 128, n - 1, bitpos + 7, result + Shift(v % 128, bitpos), rest);
      SplitSeven(v, bitpos);
    }
  }

  /** Past 32 bits: zeros, or ones after a negative number. */
  lemma {:induction false} TailGroups(v: nat, n: nat, bitpos: nat, result: nat, rest: seq<byte>)
    requires 0 < n && 35 <= bitpos && bitpos + 7 * n <= 70 && bitpos % 7 == 0
    requires v == 0 || (result >= 0x8000_0000 && bitpos + 7 * n == 70 && v == Pow2(64 - bitpos) - 1)
    ensures ReadMore32(Groups(v, n) + rest, bitpos, result) == Ok(result, rest)
    decreases n
  {
    if n == 1 {
      assert v > 0 ==> Pow2(1) == 2;
      assert ([v % 128] + rest)[1..] == rest;
    } else {
      var more := Groups(v / 128, n - 1) + rest;
      GroupsSplit(v, n, rest);
      assert ([128 + v % 128] + more)[1..] == more;
      if v > 0 { Pow2Seven(57 - bitpos); }
      hide Pow2, Groups;
      TailGroups(v / 128, n - 1, bitpos + 7, result, rest);
    }
  }

  lemma Pow2Sevens()
    ensures Pow2(7) == 128 && Pow2(14) == 16384 && Pow2(21) == 2097152 && Pow2(28) == 268435456
  {
    Pow2Seven(0);
    hide Pow2;
    Pow2Seven(7);
    Pow2Seven(14);
    Pow2Seven(21);
    Pow2Zero();
  }

  /** The four groups that are read as they are. */
  lemma LowGroups(v: nat, n: nat, rest: seq<byte>)
    requires n > 4
    ensures ReadVarint32(Groups(v, n) + rest) == ReadMore32(Groups(v / 268435456, n - 4) + rest, 28, v % 268435456)
  {
    hide *;
    var a, b, c := v / 128, v / 128 / 128, v / 128 / 128 / 128;
    var r := v % 128;
    var r' := r + Shift(a % 128, 7);
    FirstGroup(v, n, rest);
    OneGroup(a, n - 1, 7, r, rest);
    OneGroup(b, n - 2, 14, r', rest);
    OneGroup(c, n - 3, 21, r' + Shift(b % 128, 14), rest);
    Low28(v);
    Shifts(a % 128, b % 128, c % 128);
  }

  lemma Shifts(a: nat, b: nat, c: nat)
    ensures Shift(a, 7) == a * 128 && Shift(b, 14) == b * 16384 && Shift(c, 21) == c * 2097152
  {
    Pow2Sevens();
    hide Pow2;
  }

  lemma Low28(v: nat)
    ensures var a, b, c := v / 128, v / 128 / 128, v / 128 / 128 / 128;
            && c / 128 == v / 268435456
            && v % 128 + a % 128 * 128 + b % 128 * 16384 + c % 128 * 2097152 == v % 268435456
  {
  }

  lemma FifthByte(x: byte, more: seq<byte>, result: nat)
    requires x % 128 < 16 || x % 128 >= 120
    ensures var result' := result + x % 16 * 268435456;
            ReadMore32([x] + more, 28, result) == if x >= 128 then ReadMore32(more, 35, result') else Ok(result', more)
  {
    hide Accepts32, Next32;
    FifthAccepted(x, result);
    assert ([x] + more)[1..] == more && ([x] + more)[0] == x;
  }

  lemma FifthAccepted(x: byte, result: nat)
    requires x % 128 < 16 || x % 128 >= 120
    ensures Accepts32(x, 28, result) && Next32(x, 28, result) == result + x % 16 * 268435456
  {
    hide Pow2;
    TopBits(x);
    Pow2Sevens();
  }

  lemma TopBits(x: byte)
    requires x % 128 < 16 || x % 128 >= 120
    ensures x / 16 % 8 == 0 || x / 8 % 16 == 15
  {
  }

  /** The group that holds the last four bits and four more. */
  lemma FifthGroup(h: nat, n: nat, result: nat, rest: seq<byte>)
    requires n > 0 && (h % 128 < 16 || h % 128 >= 120)
    ensures var result' := result + h % 16 * 268435456;
            ReadMore32(Groups(h, n) + rest, 28, result)
            == if n == 1 then Ok(result', rest) else ReadMore32(Groups(h / 128, n - 1) + rest, 35, result')
  {
    hide *;
    LowFour(h);
    if n == 1 {
      LastGroup(h);
      FifthByte(h % 128, rest, result);
    } else {
      GroupsSplit(h, n, rest);
      FifthByte(128 + h % 128, Groups(h / 128, n - 1) + rest, result);
    }
  }

  lemma LowFour(h: nat)
    ensures h % 128 % 16 == h % 16 == (128 + h % 128) % 16 && (128 + h % 128) % 128 == h % 128
  {
  }

  /** A number of 32 bits is read from up to ten bytes, whether they are padded with zeros or it is negative and has
      its sign in all of 64 bits. */
  lemma WideVarint32(w: nat, n: nat, rest: seq<byte>)
    requires 0 < n <= 10 && w < Pow2(7 * n) && (w < U32 || (n == 10 && U64 - 0x8000_0000 <= w < U64))
    ensures ReadVarint32(Groups(w, n) + rest) == Ok(w % U32, rest)
  {
    hide *;
    if n == 1 {
      Pow2Sevens();
      SingleGroup(w, rest);
    } else if n <= 4 {
      ShortWide(w, n, rest);
    } else {
      LongWide(w, n, rest);
    }
  }

  lemma SingleGroup(w: nat, rest: seq<byte>)
    requires w < 128
    ensures ReadVarint32(Groups(w, 1) + rest) == Ok(w % U32, rest)
  {
    assert Groups(w, 1) == [w] && ([w] + rest)[1..] == rest;
    hide Groups, ReadMore32;
  }

  lemma LongWide(w: nat, n: nat, rest: seq<byte>)
    requires 5 <= n <= 10 && (w < U32 || (n == 10 && U64 - 0x8000_0000 <= w < U64))
    ensures ReadVarint32(Groups(w, n) + rest) == Ok(w % U32, rest)
  {
    hide ReadVarint32, ReadMore32, Groups, Pow2;
    var h := w / 268435456;
    LowGroups(w, n, rest);
    HighPart(w, n);
    FifthGroup(h, n - 4, w % 268435456, rest);
    if n > 5 {
      Pow2Of29();
      TailGroups(h / 128, n - 5, 35, w % U32, rest);
    }
  }

  lemma Pow2Of29()
    ensures Pow2(29) == 0x2000_0000
  {
    Pow2Values();
    assert Pow2(29) == 2 * Pow2(28);
    hide Pow2;
  }

  lemma ShortWide(w: nat, n: nat, rest: seq<byte>)
    requires 1 < n <= 4 && w < Pow2(7 * n)
    ensures w < U32 && ReadVarint32(Groups(w, n) + rest) == Ok(w % U32, rest)
  {
    hide ReadVarint32, ReadMore32, Groups, Pow2, Shift;
    Pow2Sevens();
    Pow2Seven(7 * n - 7);
    assert n == 2 || n == 3 || n == 4;
    SplitSeven(w, 0);
    ShiftZero(w);
    ShiftZero(w % 128);
    FirstGroup(w, n, rest);
    ShortGroups(w / 128, n - 1, 7, w % 128, rest);
  }

  lemma HighPart(w: nat, n: nat)
    requires 5 <= n <= 10 && (w < U32 || (n == 10 && U64 - 0x8000_0000 <= w < U64))
    ensures var h := w / 268435456;
            && (h % 128 < 16 || h % 128 >= 120)
            && w % 268435456 + h % 16 * 268435456 == w % U32
            && (w < U32 ==> h / 128 == 0)
            && (w >= U32 ==> h / 128 == 0x2000_0000 - 1 && w % U32 >= 0x8000_0000)
  {
  }

  lemma {:induction false} Canonical(w: nat, n: nat)
    requires 0 < n && w < Pow2(7 * n) && (n > 1 ==> Pow2(7 * n - 7) <= w)
    ensures Base128(w) == Groups(w, n)
    decreases n
  {
    Pow2Sevens();
    if n > 1 {
      Pow2Seven(7 * n - 7);
      if n > 2 { Pow2Seven(7 * n - 14); }
      hide Pow2;
      Canonical(w / 128, n - 1);
    }
  }

  /** So a negative number that pb_encode wrote for a field of 32 bits is read as those bits. */
  lemma NegativeVarint32(v: int, rest: seq<byte>)
    requires -0x8000_0000 <= v < 0
    ensures ReadVarint32(Base128(Unsigned64(v)) + rest) == Ok(v + U32, rest)
  {
    hide ReadVarint32, Base128, Groups, Pow2;
    var w := Unsigned64(v);
    assert w == v + U64;
    Pow2Values();
    Pow2Seven(63);
    Canonical(w, 10);
    WideVarint32(w, 10, rest);
  }

  // ----- numbers that are too wide -----

  lemma {:induction false} LengthOf(w: nat) returns (n: nat)
    ensures 0 < n && w < Pow2(7 * n) && (n > 1 ==> Pow2(7 * n - 7) <= w)
    decreases w
  {
    Pow2Sevens();
    n := 1;
    if w >= 128 {
      var m := LengthOf(w / 128);
      n := m + 1;
      Pow2Seven(7 * m);
      Pow2Seven(7 * m - 7);
      hide Pow2;
      Pow2Zero();
    }
  }

  /** The last group of a number that is not padded stands for something, which nothing past 32 bits may. */
  lemma {:induction false} TailFails(v: nat, n: nat, bitpos: nat, result: nat, rest: seq<byte>)
    requires 0 < n && 35 <= bitpos && bitpos + 7 * n <= 63 && 0 < v < Pow2(7 * n) && (n > 1 ==> Pow2(7 * n - 7) <= v)
    ensures ReadMore32(Groups(v, n) + rest, bitpos, result).Fail?
    decreases n
  {
    Pow2Sevens();
    if n > 1 {
      var more := Groups(v / 128, n - 1) + rest;
      GroupsSplit(v, n, rest);
      assert ([128 + v % 128] + more)[1..] == more;
      Pow2Seven(7 * n - 7);
      Pow2Seven(7 * n - 14);
      assert Pow2(0) == 1;
      hide Pow2, Groups;
      TailFails(v / 128, n - 1, bitpos + 7, result, rest);
    }
  }

  lemma FifthRefused(x: byte, more: seq<byte>, result: nat)
    requires 16 <= x % 128 < 120
    ensures ReadMore32([x] + more, 28, result).Fail?
  {
    assert x / 16 % 8 != 0 && x / 8 % 16 != 15;
    hide Shift;
  }

  lemma LengthFive(w: nat, n: nat)
    requires U32 <= w < 0x8000_0000_0000_0000 && 0 < n && w < Pow2(7 * n) && (n > 1 ==> Pow2(7 * n - 7) <= w)
    ensures 5 <= n <= 9
    ensures n > 5 ==> 0 < w / 268435456 / 128 < Pow2(7 * (n - 5))
    ensures n > 6 ==> Pow2(7 * (n - 5) - 7) <= w / 268435456 / 128
    ensures n == 5 <==> w / 268435456 < 128
  {
    hide Pow2;
    Pow2Sevens();
    Pow2Values();
    Pow2Seven(28);
    if n < 5 { PowGrows(7 * n, 28); }
    if n > 9 { PowGrows(63, 7 * n - 7); }
    if n > 5 {
      PowGrows(35, 7 * n - 7);
      Pow2Add(35, 7 * (n - 5));
      Pow2Add(35, 7 * (n - 5) - 7);
      Cancel(w / 268435456 / 128, Pow2(7 * (n - 5)), 34359738368);
    }
  }

  lemma PowGrows(a: nat, b: nat)
    requires a <= b
    ensures Pow2(a) <= Pow2(b)
  {
    Pow2Add(a, b - a);
    hide Pow2;
    Monotone(1, Pow2(b - a), Pow2(a));
  }

  /** Of the numbers of 63 bits, those of 32 bits are read and others are refused, but for those below 2^35 whose
      bits above the lowest 31 are all ones. */
  lemma WideIsRefused(w: nat, rest: seq<byte>)
    requires w < 0x8000_0000_0000_0000
    ensures ReadVarint32(Base128(w) + rest).Ok? <==> w < U32 || w / 0x8000_0000 == 15
  {
    hide ReadVarint32, ReadMore32, Base128, Groups, Pow2;
    if w < U32 {
      Varint32RoundTrip(w, rest);
    } else {
      var n := LengthOf(w);
      Canonical(w, n);
      LengthFive(w, n);
      LowGroups(w, n, rest);
      RefusedHigh(w, n, rest);
    }
  }

  lemma RefusedHigh(w: nat, n: nat, rest: seq<byte>)
    requires U32 <= w && 5 <= n <= 9 && (n == 5 <==> w / 268435456 < 128)
    requires n > 5 ==> 0 < w / 268435456 / 128 < Pow2(7 * (n - 5))
    requires n > 6 ==> Pow2(7 * (n - 5) - 7) <= w / 268435456 / 128
    ensures ReadMore32(Groups(w / 268435456, n - 4) + rest, 28, w % 268435456).Ok? <==> w / 0x8000_0000 == 15
  {
    hide ReadMore32, Groups, Pow2;
    var h, r := w / 268435456, w % 268435456;
    if h % 128 < 16 || h % 128 >= 120 {
      FifthGroup(h, n - 4, r, rest);
      if n > 5 { TailFails(h / 128, n - 5, 35, r + h % 16 * 268435456, rest); }
    } else if n == 5 {
      LastGroup(h);
      FifthRefused(h, rest, r);
    } else {
      GroupsSplit(h, n - 4, rest);
      FifthRefused(128 + h % 128, Groups(h / 128, n - 5) + rest, r);
    }
  }
}
