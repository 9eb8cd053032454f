/** Readers with an older descriptor: what a newer one writes for a field they do not have is skipped whole.
    And the bytes that the Protocol Buffers documentation gives as examples. */
module PbForward {
  import opened Common
  import opened PbVarint
  import opened PbModel
  import opened PbRoundTrip
  import opened PbCompose

  lemma {:induction false} VarintSkips(v: nat, rest: seq<byte>)
    ensures SkipVarint(Base128(v) + rest) == Ok((), rest)
    decreases v
  {
    if v < 128 {
      assert ([v] + rest)[1..] == rest;
    } else {
      VarintSkips(v / 128, rest);
      Base128Splits(v, rest);
    }
  }

  /** The wire type of a number tells how long it is. */
  lemma NumSkips(t: LType, v: int, rest: seq<byte>)
    requires Packable(t)
    ensures Skip(WireType(t), NumBytes(t, v) + rest) == Ok((), rest)
  {
    hide Base128, LittleEndian, SkipVarint;
    match t
    case SVarint(_) => VarintSkips(ZigZag(v), rest);
    case Fixed32 => Behind(LittleEndian(v % U32, 4), rest);
    case Fixed64 => Behind(LittleEndian(v % U64, 8), rest);
    case _ => VarintSkips(Unsigned64(v), rest);
  }

  lemma Behind(a: seq<byte>, rest: seq<byte>)
    ensures (a + rest)[|a|..] == rest
  {
  }

  lemma DelimitedSkips(b: seq<byte>, rest: seq<byte>)
    requires |b| < U32
    ensures Skip(WT_STRING, Delimited(b) + rest) == Ok((), rest)
  {
    DelimitedRoundTrip(b, rest);
    hide Delimited, ReadDelimited;
  }

  /** The wire type of any value tells where it ends. */
  lemma ElemSkips(t: LType, e: Elem, rest: seq<byte>)
    requires TypeOk(t) && ElemTyped(t, e) && Short(t, e) && ElemBytes(t, e).Some?
    ensures Skip(WireType(t), ElemBytes(t, e).value + rest) == Ok((), rest)
  {
    hide Skip, NumBytes, Delimited, MessageBytes;
    if Packable(t) {
      NumSkips(t, e.v, rest);
    } else if t.Submessage? {
      DelimitedSkips(MessageBytes(t.desc, e.m).value, rest);
    } else {
      DelimitedSkips(e.b, rest);
    }
  }

  /** To a descriptor without its tag, an encoded field is a well-formed unknown one. */
  lemma RecordIsUnknown(d: Desc, f: Field, e: Elem)
    requires FieldOk(false, f) || FieldOk(true, f)
    requires ElemTyped(f.ltype, e) && Short(f.ltype, e) && Record(f, e).Some?
    requires forall i | 0 <= i < |d.fields| :: d.fields[i].tag != f.tag
    ensures Unknown(d, Record(f, e).value)
  {
    CatSome(Some(TagBytes(f.tag, WireType(f.ltype))), ElemBytes(f.ltype, e));
    var payload := ElemBytes(f.ltype, e).value;
    Varint32RoundTrip(f.tag * 8 + WireType(f.ltype), payload);
    ElemSkips(f.ltype, e, []);
    assert payload + [] == payload;
    hide Base128, ReadVarint32, ElemBytes, Skip, ElemTyped;
  }

  /** A field that the reader does not have changes nothing, wherever it stands. */
  lemma NewFieldIsIgnored(d: Desc, m: Message, f: Field, e: Elem, b1: seq<byte>, b2: seq<byte>)
    requires FieldOk(false, f) || FieldOk(true, f)
    requires ElemTyped(f.ltype, e) && Short(f.ltype, e) && Record(f, e).Some?
    requires forall i | 0 <= i < |d.fields| :: d.fields[i].tag != f.tag
    requires ReadAll(d, State(m, {}, NoTrack), b1).Some?
    ensures DecodeFrom(d, m, b1 + Record(f, e).value + b2) == DecodeFrom(d, m, b1 + b2)
  {
    RecordIsUnknown(d, f, e);
    hide Unknown, Record, ElemTyped, ReadAll, DecodeFrom;
    UnknownIsSkipped(d, m, b1, Record(f, e).value, b2);
  }

  /** Examples of the encoding as its documentation gives them: the varints 150 and 300, zig-zag of the
      smallest numbers, words lowest byte first, and the tags of fields 1, 2 and 3. */
  lemma Examples()
    ensures Base128(150) == [0x96, 0x01] && Base128(300) == [0xac, 0x02]
    ensures ZigZag(0) == 0 && ZigZag(-1) == 1 && ZigZag(1) == 2 && ZigZag(-2) == 3
    ensures ZigZag(0x7fff_ffff) == 0xffff_fffe && ZigZag(-0x8000_0000) == 0xffff_ffff
    ensures LittleEndian(0x1234_5678, 4) == [0x78, 0x56, 0x34, 0x12]
    ensures TagBytes(1, WT_VARINT) == [0x08] && TagBytes(2, WT_STRING) == [0x12] && TagBytes(3, WT_32BIT) == [0x1d]
    ensures WireType(Bool) == 0 && WireType(Fixed64) == 1 && WireType(Str(1)) == 2 && WireType(Fixed32) == 5
  {
    assert Base128(150 / 128) == [1] && Base128(300 / 128) == [2];
  }
}
