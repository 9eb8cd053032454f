/** What pb_encode and pb_decode refuse, and nothing else. */
module PbReject {
  import opened Common
  import opened PbVarint
  import opened PbModel
  import opened PbRoundTrip
  import opened PbCompose

  // ----- messages that can be encoded -----

  /** A value no longer than its field. */
  predicate ElemFits(t: LType, e: Elem)
    decreases t
  {
    match t
    case Bytes(cap) => e.Blob? && |e.b| <= cap
    case Str(dataSize) => e.Blob? && |e.b| < dataSize
    case FixedBytes(_) => e.Blob?
    case Submessage(d) => e.Msg? && Encodable(d, e.m)
    case _ => e.Num?
  }

  /** What is sent of a slot fits: no array has more elements than its field has room for. */
  predicate SlotFits(hasDefaults: bool, f: Field, s: Slot)
    decreases f
  {
    match s
    case Rep(es) => |es| == 0 || (|es| <= f.arraySize && forall k | 0 <= k < |es| :: ElemFits(f.ltype, es[k]))
    case Choice(present, e) => present ==> ElemFits(f.ltype, e)
    case Opt(has, e) => has ==> ElemFits(f.ltype, e)
    case Single(e) => (f.rule.Optional? && IsDefault(hasDefaults, f, s)) || ElemFits(f.ltype, e)
  }

  predicate Encodable(d: Desc, m: Message)
    decreases d
  {
    |d.fields| <= |m.slots| && forall i | 0 <= i < |d.fields| :: SlotFits(d.hasDefaults, d.fields[i], m.slots[i])
  }

  lemma ElemEncodes(t: LType, e: Elem)
    ensures ElemBytes(t, e).Some? <==> ElemFits(t, e)
    decreases t, 0
  {
    if t.Submessage? && e.Msg? { EncodesExactly(t.desc, e.m); }
    hide MessageBytes, Encodable, Base128, NumBytes;
  }

  lemma {:induction false} PackedEncodes(t: LType, es: seq<Elem>)
    ensures PackedBytes(t, es).Some? <==> forall k | 0 <= k < |es| :: ElemFits(t, es[k])
    decreases t, 1, |es|
  {
    hide ElemBytes, ElemFits;
    if |es| > 0 {
      ElemEncodes(t, es[0]);
      PackedEncodes(t, es[1..]);
      AllSplits(t, es);
    }
  }

  lemma AllSplits(t: LType, es: seq<Elem>)
    requires |es| > 0
    ensures (forall k | 0 <= k < |es| :: ElemFits(t, es[k])) <==>
      ElemFits(t, es[0]) && forall k | 0 <= k < |es| - 1 :: ElemFits(t, es[1..][k])
  {
    hide ElemFits;
    if ElemFits(t, es[0]) && forall k | 0 <= k < |es| - 1 :: ElemFits(t, es[1..][k]) {
      forall k | 0 <= k < |es| ensures ElemFits(t, es[k]) {
        if k > 0 { assert ElemFits(t, es[1..][k - 1]); }
      }
    }
  }

  lemma {:induction false} RecordsEncode(f: Field, es: seq<Elem>)
    ensures RecordAll(f, es).Some? <==> forall k | 0 <= k < |es| :: ElemFits(f.ltype, es[k])
    decreases f.ltype, 1, |es|
  {
    hide ElemBytes, ElemFits, TagBytes;
    if |es| > 0 {
      ElemEncodes(f.ltype, es[0]);
      RecordsEncode(f, es[1..]);
      AllSplits(f.ltype, es);
    }
  }

  lemma SlotEncodes(hasDefaults: bool, f: Field, s: Slot)
    ensures SlotBytes(hasDefaults, f, s).Some? <==> SlotFits(hasDefaults, f, s)
    decreases f.ltype, 2
  {
    match s
    case Rep(es) =>
      PackedEncodes(f.ltype, es);
      RecordsEncode(f, es);
      hide PackedBytes, RecordAll, ElemFits;
    case Choice(_, e) =>
      ElemEncodes(f.ltype, e);
      hide ElemBytes, ElemFits;
    case Opt(_, e) =>
      ElemEncodes(f.ltype, e);
      hide ElemBytes, ElemFits;
    case Single(e) =>
      ElemEncodes(f.ltype, e);
      hide ElemBytes, ElemFits, IsDefault;
  }

  lemma {:induction false} FieldsEncode(d: Desc, m: Message, i: nat)
    requires i <= |d.fields|
    ensures FieldsBytes(d, m, i).Some? <==>
      (i < |d.fields| ==> |d.fields| <= |m.slots|)
      && forall j | i <= j < |d.fields| && j < |m.slots| :: SlotFits(d.hasDefaults, d.fields[j], m.slots[j])
    decreases d, 0, |d.fields| - i
  {
    hide SlotBytes, SlotFits;
    if i < |d.fields| && i < |m.slots| {
      SlotEncodes(d.hasDefaults, d.fields[i], m.slots[i]);
      FieldsEncode(d, m, i + 1);
    }
  }

  /** pb_encode succeeds exactly when everything that is sent fits its field. */
  lemma EncodesExactly(d: Desc, m: Message)
    ensures MessageBytes(d, m).Some? <==> Encodable(d, m)
    decreases d, 1
  {
    FieldsEncode(d, m, 0);
    hide FieldsBytes, SlotFits;
  }

  // ----- bytes that are not a record -----

  /** A record that cannot be read makes the whole input invalid. */
  lemma BadRecordFails(d: Desc, m: Message, b: seq<byte>, bad: seq<byte>)
    requires ReadAll(d, State(m, {}, NoTrack), b).Some? && |bad| > 0
    requires ReadRecord(d, ReadAll(d, State(m, {}, NoTrack), b).value, bad).Fail?
    ensures DecodeFrom(d, m, b + bad) == None
  {
    hide ReadRecord;
    LoopAppend(d, State(m, {}, NoTrack), b, bad);
  }

  /** Input that ends inside a record is refused, wherever it ends. */
  lemma CutRecordFails(d: Desc, st: State, b: seq<byte>, n: nat)
    requires ReadRecord(d, st, b).Ok? && ReadRecord(d, st, b).rest == [] && n < |b|
    ensures ReadRecord(d, st, b[..n]).Fail?
  {
    hide ReadRecord;
    assert b[..n] + b[n..] == b;
    MoreIsLeft(d, st, b[..n], b[n..]);
  }

  lemma MoreIsLeft(d: Desc, st: State, a: seq<byte>, c: seq<byte>)
    ensures ReadRecord(d, st, a).Ok? ==> ReadRecord(d, st, a + c).Ok? && |ReadRecord(d, st, a + c).rest| >= |c|
  {
    hide ReadRecord;
    if ReadRecord(d, st, a).Ok? { RecordAppend(d, st, a, c); }
  }

  /** A value whose wire type is not that of its field is refused, unless it is a packed array. */
  lemma WrongWireTypeFails(d: Desc, st: State, i: nat, wireType: nat, payload: seq<byte>)
    requires DescOk(d) && i < |d.fields| && wireType < 8 && wireType != WireType(d.fields[i].ltype)
    requires !(wireType == WT_STRING && Packable(d.fields[i].ltype) && i < |st.m.slots| && st.m.slots[i].Rep?)
    ensures ReadRecord(d, st, TagBytes(d.fields[i].tag, wireType) + payload).Fail?
  {
    TagRead(d, st, i, wireType, payload);
    hide ReadRecord, DescOk, ReadElem, ReadPacked, TagBytes, WireType, Packable, RequiredBefore;
  }

  /** So is a tag that no field has with a wire type that nothing has, and field number zero. */
  lemma BadTagFails(d: Desc, st: State, tag: nat, wireType: nat, payload: seq<byte>)
    requires tag < MAX_TAG && wireType < 8
    requires tag == 0 || (wireType in {3, 4, 6, 7} && forall i | 0 <= i < |d.fields| :: d.fields[i].tag != tag)
    ensures ReadRecord(d, st, TagBytes(tag, wireType) + payload).Fail?
  {
    Varint32RoundTrip(tag * 8 + wireType, payload);
    hide ReadVarint32, Base128, ReadField;
  }
}
