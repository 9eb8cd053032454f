/** Decoding in pieces: one message after another, and unknown fields between known ones. */
module PbCompose {
  import opened Common
  import opened PbVarint
  import opened PbModel

  // ----- reading depends only on what is read -----

  lemma DelimitedLocal(b: seq<byte>, c: seq<byte>)
    requires ReadDelimited(b).Ok?
    ensures var r := ReadDelimited(b); Suffix(b, r.rest) && ReadDelimited(Used(b, r.rest) + c) == Ok(r.value, c)
  {
    var n, rest := ReadVarint32(b).value, ReadVarint32(b).rest;
    ReadVarint32Local(b, rest[..n] + c);
    hide ReadVarint32;
    assert Used(b, rest[n..]) + c == Used(b, rest) + (rest[..n] + c);
    assert (rest[..n] + c)[..n] == rest[..n] && (rest[..n] + c)[n..] == c;
  }

  lemma FixedLocal(b: seq<byte>, n: nat, c: seq<byte>)
    requires n <= |b|
    ensures Suffix(b, b[n..]) && Used(b, b[n..]) == b[..n] && (b[..n] + c)[..n] == b[..n] && (b[..n] + c)[n..] == c
  {
  }

  lemma NumLocal(t: LType, b: seq<byte>, c: seq<byte>)
    requires Packable(t) && ReadNum(t, b).Ok?
    ensures var r := ReadNum(t, b); Suffix(b, r.rest) && ReadNum(t, Used(b, r.rest) + c) == Ok(r.value, c)
  {
    hide ReadVarint, ReadVarint32, AsSigned, FitsSigned, Pow2, FromLittleEndian, Suffix, Used;
    match t
    case Bool => ReadVarint32Local(b, c);
    case Fixed32 => FixedLocal(b, 4, c);
    case Fixed64 => FixedLocal(b, 8, c);
    case Varint(_, _) => ReadVarintLocal(b, c, 0, 0);
    case UVarint(_, _) => ReadVarintLocal(b, c, 0, 0);
    case SVarint(_) => ReadVarintLocal(b, c, 0, 0);
  }

  lemma ElemLocal(t: LType, prior: Elem, b: seq<byte>, c: seq<byte>)
    requires ReadElem(t, prior, b).Ok?
    ensures var r := ReadElem(t, prior, b);
            Suffix(b, r.rest) && ReadElem(t, prior, Used(b, r.rest) + c) == Ok(r.value, c)
  {
    hide Suffix, Used;
    if Packable(t) {
      NumLocal(t, b, c);
      hide ReadNum;
    } else {
      DelimitedLocal(b, c);
      hide ReadDelimited, DecodeFrom, CString;
    }
  }

  lemma ArrayLocal(f: Field, fixed: bool, a: Array, wireType: nat, b: seq<byte>, c: seq<byte>)
    requires ReadArray(f, fixed, a, wireType, b).Ok?
    ensures var r := ReadArray(f, fixed, a, wireType, b);
            Suffix(b, r.rest) && ReadArray(f, fixed, a, wireType, Used(b, r.rest) + c) == Ok(r.value, c)
  {
    hide ReadElem, ReadPacked, ReadDelimited, Put, Zero, Suffix, Used;
    if wireType == WT_STRING && Packable(f.ltype) {
      DelimitedLocal(b, c);
    } else {
      ElemLocal(f.ltype, Zero(f.ltype), b, c);
    }
  }

  lemma FieldLocal(d: Desc, st: State, i: nat, wireType: nat, b: seq<byte>, c: seq<byte>)
    requires i < |d.fields| && ReadField(d, st, i, wireType, b).Ok?
    ensures var r := ReadField(d, st, i, wireType, b);
            Suffix(b, r.rest) && ReadField(d, st, i, wireType, Used(b, r.rest) + c) == Ok(r.value, c)
  {
    var f, s := d.fields[i], st.m.slots[i];
    hide ReadElem, ReadArray, RequiredBefore, ClearGroup, Zero, Suffix, Used;
    if s.Rep? {
      var fixed := f.rule == Repeated(true);
      var track := if fixed then Retrack(st.track, i, f.arraySize).value else st.track;
      ArrayLocal(f, fixed, Array(s.es, if fixed && track.Track? then track.size else |s.es|), wireType, b, c);
    } else {
      ElemLocal(f.ltype, if s.Choice? && !s.present then Zero(f.ltype) else s.e, b, c);
    }
  }

  lemma {:induction false} SkipVarintLocal(b: seq<byte>, c: seq<byte>)
    requires SkipVarint(b).Ok?
    ensures var rest := SkipVarint(b).rest; Suffix(b, rest) && SkipVarint(Used(b, rest) + c) == Ok((), c)
    decreases |b|
  {
    if b[0] >= 128 { SkipVarintLocal(b[1..], c); }
    UsedAfter(b, 1, SkipVarint(b).rest, c);
    hide Suffix, Used;
    assert b[..1][0] == b[0];
  }

  lemma SkipLocal(wireType: nat, b: seq<byte>, c: seq<byte>)
    requires Skip(wireType, b).Ok?
    ensures var rest := Skip(wireType, b).rest; Suffix(b, rest) && Skip(wireType, Used(b, rest) + c) == Ok((), c)
  {
    hide ReadDelimited, SkipVarint, Suffix, Used;
    if wireType == WT_VARINT {
      SkipVarintLocal(b, c);
    } else if wireType == WT_STRING {
      DelimitedLocal(b, c);
    } else if wireType == WT_64BIT {
      FixedLocal(b, 8, c);
    } else {
      FixedLocal(b, 4, c);
    }
  }

  /** A tagged value is read the same whatever follows it. */
  lemma RecordLocal(d: Desc, st: State, b: seq<byte>, c: seq<byte>)
    requires ReadRecord(d, st, b).Ok?
    ensures var r := ReadRecord(d, st, b); Suffix(b, r.rest) && ReadRecord(d, st, Used(b, r.rest) + c) == Ok(r.value, c)
  {
    var t, rest := ReadVarint32(b).value, ReadVarint32(b).rest;
    var i := FindField(d.fields, t / 8, 0);
    var left := ReadRecord(d, st, b).rest;
    if i < |d.fields| { FieldLocal(d, st, i, t % 8, rest, c); } else { SkipLocal(t % 8, rest, c); }
    ReadVarint32Local(b, Used(rest, left) + c);
    UsedBoth(b, rest, left, c);
    hide ReadVarint32, ReadField, Skip, FindField, Suffix, Used;
  }

  lemma UsedBoth(b: seq<byte>, rest: seq<byte>, left: seq<byte>, c: seq<byte>)
    requires Suffix(b, rest) && Suffix(rest, left)
    ensures Suffix(b, left) && Used(b, left) + c == Used(b, rest) + (Used(rest, left) + c)
  {
  }

  lemma RecordAppend(d: Desc, st: State, b: seq<byte>, c: seq<byte>)
    requires ReadRecord(d, st, b).Ok?
    ensures var r := ReadRecord(d, st, b); ReadRecord(d, st, b + c) == Ok(r.value, r.rest + c)
  {
    var rest := ReadRecord(d, st, b).rest;
    hide ReadRecord;
    RecordLocal(d, st, b, rest + c);
    UsedAndRest(b, rest, c);
    hide Suffix, Used;
  }

  lemma UsedAndRest(b: seq<byte>, rest: seq<byte>, c: seq<byte>)
    requires Suffix(b, rest)
    ensures Used(b, rest) + (rest + c) == b + c
  {
  }

  /** The decoding loop over two pieces is the loop over the first and then over the second. */
  lemma {:induction false} LoopAppend(d: Desc, st: State, b: seq<byte>, c: seq<byte>)
    requires ReadAll(d, st, b).Some?
    ensures ReadAll(d, st, b + c) == ReadAll(d, ReadAll(d, st, b).value, c)
    decreases |b|
  {
    hide ReadRecord;
    if |b| == 0 {
      assert b + c == c;
    } else {
      RecordAppend(d, st, b, c);
      var r := ReadRecord(d, st, b);
      LoopAppend(d, r.value, r.rest, c);
    }
  }

  // ----- messages without required or fixed-count fields -----

  predicate Plain(d: Desc) {
    forall i | 0 <= i < |d.fields| :: !d.fields[i].rule.Required? && d.fields[i].rule != Repeated(true)
  }

  lemma PlainField(d: Desc, st: State, i: nat, wireType: nat, b: seq<byte>)
    requires Plain(d) && i < |d.fields| && st.seen == {} && st.track == NoTrack && ReadField(d, st, i, wireType, b).Ok?
    ensures ReadField(d, st, i, wireType, b).value.seen == {} && ReadField(d, st, i, wireType, b).value.track == NoTrack
  {
    hide ReadElem, ReadArray, ClearGroup, RequiredBefore, Zero;
    assert !d.fields[i].rule.Required? && d.fields[i].rule != Repeated(true);
  }

  /** Nothing is tracked for a plain descriptor. */
  lemma {:induction false} PlainTracksNothing(d: Desc, st: State, b: seq<byte>)
    requires Plain(d) && st.seen == {} && st.track == NoTrack && ReadAll(d, st, b).Some?
    ensures ReadAll(d, st, b).value.seen == {} && ReadAll(d, st, b).value.track == NoTrack
    decreases |b|
  {
    hide ReadField, ReadVarint32, Skip, FindField, Plain;
    if |b| > 0 {
      var r := ReadRecord(d, st, b);
      var t, rest := ReadVarint32(b).value, ReadVarint32(b).rest;
      var i := FindField(d.fields, t / 8, 0);
      if i < |d.fields| { PlainField(d, st, i, t % 8, rest); }
      PlainTracksNothing(d, r.value, r.rest);
    }
  }

  /** Decoding two encodings one after the other is decoding the first and then the second into the
      result: scalars are replaced, submessages merged, arrays extended. */
  lemma DecodeConcatenation(d: Desc, b1: seq<byte>, b2: seq<byte>)
    requires Plain(d) && Decode(d, b1).Some?
    ensures Decode(d, b1 + b2) == DecodeFrom(d, Decode(d, b1).value, b2)
  {
    var st := State(Default(d), {}, NoTrack);
    PlainTracksNothing(d, st, b1);
    LoopAppend(d, st, b1, b2);
    var st1 := ReadAll(d, st, b1).value;
    hide ReadAll, Default;
    assert st1 == State(st1.m, {}, NoTrack);
  }

  // ----- unknown fields -----

  /** A well-formed value of a tag the descriptor does not have: wire type 0, 1, 2 or 5. */
  predicate Unknown(d: Desc, u: seq<byte>) {
    && ReadVarint32(u).Ok?
    && var t := ReadVarint32(u).value;
       && t / 8 != 0 && FindField(d.fields, t / 8, 0) == |d.fields|
       && Skip(t % 8, ReadVarint32(u).rest) == Ok((), [])
  }

  /** Unknown fields between the fields of a message change nothing. */
  lemma UnknownIsSkipped(d: Desc, m: Message, b1: seq<byte>, u: seq<byte>, b2: seq<byte>)
    requires Unknown(d, u) && ReadAll(d, State(m, {}, NoTrack), b1).Some?
    ensures DecodeFrom(d, m, b1 + u + b2) == DecodeFrom(d, m, b1 + b2)
  {
    var st := State(m, {}, NoTrack);
    var st1 := ReadAll(d, st, b1).value;
    assert b1 + u + b2 == b1 + (u + b2);
    LoopAppend(d, st, b1, u + b2);
    LoopAppend(d, st, b1, b2);
    SkipUnknown(d, st1, u, b2);
    hide ReadAll;
  }

  lemma SkipUnknown(d: Desc, st: State, u: seq<byte>, rest: seq<byte>)
    requires Unknown(d, u)
    ensures ReadAll(d, st, u + rest) == ReadAll(d, st, rest)
  {
    hide ReadVarint32, Skip, FindField, ReadField;
    assert ReadRecord(d, st, u) == Ok(st, []);
    RecordAppend(d, st, u, rest);
    assert [] + rest == rest;
    hide ReadRecord;
  }
}
