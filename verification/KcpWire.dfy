/** The wire format of a segment: a 24-byte little-endian header followed by the data. */
module KcpWire {
  import opened Common
  import opened KcpTypes

  function Le16(v: int): (b: seq<byte>)
    ensures |b| == 2
  {
    [v % 256, v / 256 % 256]
  }

  function Le32(v: int): (b: seq<byte>)
    ensures |b| == 4
  {
    [v % 256, v / 256 % 256, v / 65536 % 256, v / 16777216 % 256]
  }

  function Read16(b: seq<byte>, i: nat): u32
    requires i + 2 <= |b|
  {
    b[i] as int + 256 * b[i + 1] as int
  }

  function Read32(b: seq<byte>, i: nat): u32
    requires i + 4 <= |b|
  {
    b[i] as int + 256 * b[i + 1] as int + 65536 * b[i + 2] as int + 16777216 * b[i + 3] as int
  }

  /** The header ikcp_encode_seg writes: command and fragment are cut to 8 bits, the window to 16. */
  function Header(s: Segment): (h: seq<byte>)
    ensures |h| == OVERHEAD
  {
    Le32(s.conv) + [s.cmd % 256, s.frg % 256] + Le16(s.wnd) + Le32(s.ts) + Le32(s.sn) + Le32(s.una) + Le32(|s.data|)
  }

  function Encode(s: Segment): (b: seq<byte>)
    ensures |b| == OVERHEAD + |s.data|
  {
    Header(s) + s.data
  }

  function EncodeAll(segs: seq<Segment>): seq<byte> {
    if |segs| == 0 then [] else Encode(segs[0]) + EncodeAll(segs[1..])
  }

  /** The header fields as ikcp_input reads them. */
  function ReadHeader(b: seq<byte>, data: seq<byte>): Segment
    requires OVERHEAD <= |b|
  {
    Segment(Read32(b, 0), b[4], b[5], Read16(b, 6), Read32(b, 8), Read32(b, 12), Read32(b, 16), data, 0, 0, 0, 0)
  }

  function DataLength(b: seq<byte>): u32
    requires OVERHEAD <= |b|
  {
    Read32(b, 20)
  }

  /** What the peer sees of a segment. */
  function OnWire(s: Segment): Segment {
    Segment(s.conv, s.cmd % 256, s.frg % 256, s.wnd % 65536, s.ts, s.sn, s.una, s.data, 0, 0, 0, 0)
  }

  function OnWireAll(segs: seq<Segment>): (r: seq<Segment>)
    ensures |r| == |segs|
  {
    seq(|segs|, i requires 0 <= i < |segs| => OnWire(segs[i]))
  }

  lemma ReadLe32(b: seq<byte>, i: nat, v: u32)
    requires i + 4 <= |b| && b[i..i + 4] == Le32(v)
    ensures Read32(b, i) == v
  {
    var w := b[i..i + 4];
    assert b[i] == w[0] && b[i + 1] == w[1] && b[i + 2] == w[2] && b[i + 3] == w[3];
    FourBytes(v);
  }

  lemma FourBytes(v: u32)
    ensures v == v % 256 + 256 * (v / 256 % 256) + 65536 * (v / 65536 % 256) + 16777216 * (v / 16777216 % 256)
  {
    var a, b, c := v / 256, v / 65536, v / 16777216;
    assert a / 256 == b && b / 256 == c && c < 256;
  }

  lemma ReadLe16(b: seq<byte>, i: nat, v: u32)
    requires i + 2 <= |b| && b[i..i + 2] == Le16(v)
    ensures Read16(b, i) == v % 65536
  {
    var w := b[i..i + 2];
    assert b[i] == w[0] && b[i + 1] == w[1];
  }

  lemma HeaderFields(s: Segment, b: seq<byte>)
    requires Header(s) <= b
    ensures b[0..4] == Le32(s.conv) && b[4] == s.cmd % 256 && b[5] == s.frg % 256 && b[6..8] == Le16(s.wnd)
    ensures b[8..12] == Le32(s.ts) && b[12..16] == Le32(s.sn) && b[16..20] == Le32(s.una) && b[20..24] == Le32(|s.data|)
  {
    hide Le16, Le32;
    var h := Header(s);
    forall i | 0 <= i < OVERHEAD ensures b[i] == h[i] {}
  }

  /** Reading an encoded segment gives back what the format keeps of it. */
  lemma ReadEncoded(s: Segment, rest: seq<byte>)
    requires |s.data| < U32
    ensures var b := Encode(s) + rest;
            && DataLength(b) == |s.data|
            && ReadHeader(b, b[OVERHEAD..OVERHEAD + |s.data|]) == OnWire(s)
            && b[OVERHEAD + |s.data|..] == rest
  {
    hide Le16, Le32, Read16, Read32, Header;
    var b := Encode(s) + rest;
    assert b == Header(s) + (s.data + rest);
    HeaderFields(s, b);
    ReadLe32(b, 0, s.conv);
    ReadLe16(b, 6, s.wnd);
    ReadLe32(b, 8, s.ts);
    ReadLe32(b, 12, s.sn);
    ReadLe32(b, 16, s.una);
    ReadLe32(b, 20, |s.data|);
  }

  /** The number that some bytes stand for, lowest byte first. */
  function Number(b: seq<byte>): nat { if |b| == 0 then 0 else b[0] + 256 * Number(b[1..]) }

  /** Where the fields of the header are, as the format of the protocol has them. */
  lemma HeaderLayout(s: Segment)
    requires |s.data| < U32
    ensures var b := Encode(s);
            && Number(b[0..4]) == s.conv && b[4] == s.cmd % 256 && b[5] == s.frg % 256
            && Number(b[6..8]) == s.wnd % 65536 && Number(b[8..12]) == s.ts && Number(b[12..16]) == s.sn
            && Number(b[16..20]) == s.una && Number(b[20..24]) == |s.data| && b[24..] == s.data
  {
    HeaderFields(s, Encode(s));
    Number32(s.conv);
    Number16(s.wnd);
    Number32(s.ts);
    Number32(s.sn);
    Number32(s.una);
    Number32(|s.data|);
    hide Number, Le16, Le32, Header;
  }

  lemma Number32(v: u32)
    ensures Number(Le32(v)) == v
  {
    var b := Le32(v);
    assert Number(b) == b[0] + 256 * Number(b[1..]);
    assert Number(b[1..]) == b[1] + 256 * Number(b[1..][1..]);
    assert Number(b[1..][1..]) == b[2] + 256 * Number(b[1..][1..][1..]);
    assert Number(b[1..][1..][1..]) == b[3];
    FourBytes(v);
  }

  lemma Number16(v: u32)
    ensures Number(Le16(v)) == v % 65536
  {
    var b := Le16(v);
    assert Number(b) == b[0] + 256 * Number(b[1..]);
    assert Number(b[1..]) == b[1];
  }
}
