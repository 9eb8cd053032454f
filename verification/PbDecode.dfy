/** The decoder of pb_decode.c as it runs: streams that advance, substreams of limited length, and the
    loop over the fields of a message. */
module PbDecode {
  import opened Common
  import opened PbVarint
  import opened PbModel
  import opened PbRoundTrip
  import opened PbIter

  /** An input stream over a buffer. */
  class IStream {
    const buffer: seq<byte>
    var state: nat
    var bytesLeft: nat

    ghost predicate Valid()
      reads this
    {
      state + bytesLeft <= |buffer|
    }

    /** Where the stream ends. */
    ghost function End(): nat
      reads this
    {
      state + bytesLeft
    }

    /** What can still be read. */
    ghost function Left(): (b: seq<byte>)
      requires Valid()
      reads this
      ensures |b| == bytesLeft
    {
      buffer[state..state + bytesLeft]
    }

    constructor (buffer: seq<byte>, state: nat, bytesLeft: nat)
      requires state + bytesLeft <= |buffer|
      ensures Valid() && this.buffer == buffer && this.state == state && this.bytesLeft == bytesLeft
    {
      this.buffer, this.state, this.bytesLeft := buffer, state, bytesLeft;
    }

    /** pb_read. */
    method Read(count: nat) returns (ok: bool, b: seq<byte>)
      requires Valid()
      modifies this
      ensures Valid() && End() == old(End()) && ok == (count <= |old(Left())|)
      ensures if ok then b == old(Left())[..count] && Left() == old(Left())[count..] && state == old(state) + count
              else Left() == old(Left()) && state == old(state)
    {
      if bytesLeft < count { return false, []; }
      b := buffer[state..state + count];
      state, bytesLeft := state + count, bytesLeft - count;
      ok := true;
    }

    /** pb_readbyte. */
    method ReadByte() returns (ok: bool, x: byte)
      requires Valid()
      modifies this
      ensures Valid() && End() == old(End()) && ok == (|old(Left())| > 0)
      ensures ok ==> x == old(Left())[0] && Left() == old(Left())[1..]
      ensures !ok ==> Left() == []
    {
      if bytesLeft == 0 { return false, 0; }
      x := buffer[state];
      state, bytesLeft := state + 1, bytesLeft - 1;
      ok := true;
    }
  }

  /** The stream has been read as r says: the value is r's, and what r leaves is left. */
  ghost predicate Did<T>(s: IStream, ok: bool, value: T, r: Parsed<T>)
    requires s.Valid()
    reads s
  {
    ok == r.Ok? && (ok ==> value == r.value && s.Left() == r.rest)
  }

  // ----- numbers -----

  /** pb_decode_varint. */
  method DecodeVarint(s: IStream) returns (ok: bool, value: nat)
    requires s.Valid()
    modifies s
    ensures s.Valid() && s.End() == old(s.End()) && Did(s, ok, value, ReadVarint(old(s.Left()), 0, 0))
  {
    hide Shift;
    var bitpos: nat := 0;
    value := 0;
    var x: byte := 0x80;
    while x >= 0x80
      invariant s.Valid() && s.End() == old(s.End())
      invariant x >= 0x80 ==> ReadVarint(s.Left(), bitpos, value) == ReadVarint(old(s.Left()), 0, 0)
      invariant x < 0x80 ==> Ok(value, s.Left()) == ReadVarint(old(s.Left()), 0, 0)
      decreases s.bytesLeft + if x >= 0x80 then 1 else 0
    {
      ok, x := s.ReadByte();
      if !ok { return false, 0; }
      if bitpos >= 63 && x >= 2 { return false, 0; }
      value := value + Shift(x % 128, bitpos);
      bitpos := bitpos + 7;
    }
    ok := true;
  }

  /** One turn of the loop of pb_decode_varint32_eof. */
  method Step32(x: byte, bitpos: nat, result: nat) returns (ok: bool, next: nat)
    ensures ok == Accepts32(x, bitpos, result) && (ok ==> next == Next32(x, bitpos, result))
  {
    hide Shift;
    next := result;
    if bitpos >= 32 {
      var extension := if bitpos < 63 then 0xff else 0x01;
      var valid := x % 128 == 0 || (result >= 0x8000_0000 && x == extension);
      if bitpos >= 64 || !valid { return false, result; }
    } else if bitpos == 28 {
      if x / 16 % 8 != 0 && x / 8 % 16 != 15 { return false, result; }
      next := result + Shift(x % 16, 28);
    } else {
      next := result + Shift(x % 128, bitpos);
    }
    ok := true;
  }

  /** pb_decode_varint32. */
  method DecodeVarint32(s: IStream) returns (ok: bool, value: nat)
    requires s.Valid()
    modifies s
    ensures s.Valid() && s.End() == old(s.End()) && Did(s, ok, value, ReadVarint32(old(s.Left())))
  {
    hide Accepts32, Next32;
    var x;
    ok, x := s.ReadByte();
    if !ok { return false, 0; }
    if x < 0x80 { return true, x; }
    var bitpos: nat := 7;
    value := x % 128;
    while x >= 0x80
      invariant s.Valid() && s.End() == old(s.End())
      invariant x >= 0x80 ==> ReadMore32(s.Left(), bitpos, value) == ReadVarint32(old(s.Left()))
      invariant x < 0x80 ==> Ok(value, s.Left()) == ReadVarint32(old(s.Left()))
      decreases s.bytesLeft + if x >= 0x80 then 1 else 0
    {
      ok, x := s.ReadByte();
      if !ok { return false, 0; }
      ok, value := Step32(x, bitpos, value);
      if !ok { return false, 0; }
      bitpos := bitpos + 7;
    }
    ok := true;
  }

  /** pb_skip_varint. */
  method SkipVarintBytes(s: IStream) returns (ok: bool)
    requires s.Valid()
    modifies s
    ensures s.Valid() && s.End() == old(s.End()) && Did(s, ok, (), SkipVarint(old(s.Left())))
  {
    var x: byte := 0x80;
    while x >= 0x80
      invariant s.Valid() && s.End() == old(s.End())
      invariant x >= 0x80 ==> SkipVarint(s.Left()) == SkipVarint(old(s.Left()))
      invariant x < 0x80 ==> Ok((), s.Left()) == SkipVarint(old(s.Left()))
      decreases s.bytesLeft + if x >= 0x80 then 1 else 0
    {
      ok, x := s.ReadByte();
      if !ok { return false; }
    }
    ok := true;
  }

  /** pb_make_string_substream: a stream over the next length-delimited piece. */
  method MakeSubstream(s: IStream) returns (ok: bool, sub: IStream)
    requires s.Valid()
    modifies s
    ensures s.Valid() && ok == ReadDelimited(old(s.Left())).Ok? && (!ok ==> s.End() == old(s.End()))
    ensures ok ==> sub.End() + s.bytesLeft == old(s.End())
    ensures ok ==> fresh(sub) && sub.Valid() && sub.buffer == s.buffer
                   && sub.Left() == ReadDelimited(old(s.Left())).value
    ensures ok ==> s.state == sub.state && s.state + sub.bytesLeft + s.bytesLeft <= |s.buffer|
                   && s.buffer[s.state + sub.bytesLeft..s.state + sub.bytesLeft + s.bytesLeft]
                     == ReadDelimited(old(s.Left())).rest
  {
    hide ReadVarint32;
    sub := new IStream(s.buffer, s.state, s.bytesLeft);
    var size;
    ok, size := DecodeVarint32(s);
    if !ok { return; }
    sub.state, sub.bytesLeft := s.state, s.bytesLeft;
    if sub.bytesLeft < size { return false, sub; }
    sub.bytesLeft := size;
    s.bytesLeft := s.bytesLeft - size;
  }

  /** pb_close_string_substream: the parent goes on after the piece. */
  method CloseSubstream(s: IStream, sub: IStream, ghost end: nat)
    requires s != sub && sub.Valid() && sub.buffer == s.buffer && sub.state + sub.bytesLeft == end
    requires end + s.bytesLeft <= |s.buffer|
    modifies s, sub
    ensures s.Valid() && s.state == end && s.bytesLeft == old(s.bytesLeft)
  {
    if sub.bytesLeft > 0 {
      var ok, b := sub.Read(sub.bytesLeft);
    }
    s.state := sub.state;
  }

  /** A length and as many bytes. */
  method DecodeBytes(s: IStream) returns (ok: bool, b: seq<byte>)
    requires s.Valid()
    modifies s
    ensures s.Valid() && s.End() == old(s.End()) && Did(s, ok, b, ReadDelimited(old(s.Left())))
  {
    hide ReadVarint32;
    var size;
    ok, size := DecodeVarint32(s);
    if !ok { return false, []; }
    ok, b := s.Read(size);
  }

  /** pb_skip_field. */
  method SkipField(s: IStream, wireType: nat) returns (ok: bool)
    requires s.Valid()
    modifies s
    ensures s.Valid() && s.End() == old(s.End()) && Did(s, ok, (), Skip(wireType, old(s.Left())))
  {
    hide ReadDelimited, SkipVarint;
    var b;
    if wireType == WT_VARINT {
      ok := SkipVarintBytes(s);
    } else if wireType == WT_64BIT {
      ok, b := s.Read(8);
    } else if wireType == WT_STRING {
      ok, b := DecodeBytes(s);
    } else if wireType == WT_32BIT {
      ok, b := s.Read(4);
    } else {
      ok := false;
    }
  }

  /** pb_dec_bool, pb_dec_varint and the fixed decoders. */
  method DecodeNum(s: IStream, t: LType) returns (ok: bool, v: int)
    requires s.Valid() && Packable(t)
    modifies s
    ensures s.Valid() && s.End() == old(s.End()) && Did(s, ok, v, ReadNum(t, old(s.Left())))
  {
    hide ReadVarint, ReadVarint32, Pow2, AsSigned, FitsSigned, FromLittleEndian;
    var u: nat, b;
    match t
    case Bool =>
      ok, u := DecodeVarint32(s);
      v := if u != 0 then 1 else 0;
    case UVarint(size, _) =>
      ok, v := DecodeVarint(s);
      if ok && v >= Pow2(8 * size) { return false, 0; }
    case Varint(size, _) =>
      ok, u := DecodeVarint(s);
      v := AsSigned(if size == 8 then 64 else 32, u);
      if ok && !FitsSigned(size, v) { return false, 0; }
    case SVarint(size) =>
      ok, u := DecodeVarint(s);
      v := UnZigZag(u);
      if ok && !FitsSigned(size, v) { return false, 0; }
    case Fixed32 =>
      ok, b := s.Read(4);
      if !ok { return false, 0; }
      v := FromLittleEndian(b);
    case Fixed64 =>
      ok, b := s.Read(8);
      if !ok { return false, 0; }
      v := FromLittleEndian(b);
  }

  // ----- fields -----

  /** pb_dec_bytes, pb_dec_string and pb_dec_fixed_length_bytes. */
  method DecodeBlob(s: IStream, t: LType) returns (ok: bool, e: Elem)
    requires s.Valid() && !Packable(t) && !t.Submessage?
    modifies s
    ensures s.Valid() && s.End() == old(s.End()) && Did(s, ok, e, ReadElem(t, Zero(t), old(s.Left())))
  {
    hide ReadDelimited, CString;
    var b;
    ok, b := DecodeBytes(s);
    e := Blob(b);
    if !ok { return; }
    match t
    case Bytes(cap) => ok := |b| <= SIZE_MAX && |b| <= cap;
    case Str(dataSize) =>
      ok := |b| < dataSize;
      e := Blob(CString(b));
    case FixedBytes(n) =>
      if |b| > SIZE_MAX { return false, e; }
      if |b| == 0 { return true, Zero(t); }
      ok := |b| == n;
  }

  lemma PriorUnused(t: LType, p: Elem, q: Elem, b: seq<byte>)
    requires !t.Submessage?
    ensures ReadElem(t, p, b) == ReadElem(t, q, b)
  {
    hide ReadDelimited, ReadNum, CString;
  }

  /** decode_basic_field. */
  method DecodeElem(s: IStream, t: LType, prior: Elem) returns (ok: bool, e: Elem)
    requires s.Valid() && TypeOk(t)
    modifies s
    ensures s.Valid() && s.End() == old(s.End()) && Did(s, ok, e, ReadElem(t, prior, old(s.Left())))
    decreases t, 0
  {
    if t.Submessage? {
      ok, e := DecodeSubmessage(s, t.desc, if prior.Msg? then prior.m else Default(t.desc));
      SubmessageReads(t.desc, prior, old(s.Left()));
    } else if Packable(t) {
      hide ReadNum;
      var v;
      ok, v := DecodeNum(s, t);
      e := Num(v);
    } else {
      PriorUnused(t, prior, Zero(t), s.Left());
      hide ReadElem;
      ok, e := DecodeBlob(s, t);
    }
  }

  /** Reading a submessage into m. */
  function ReadSubmessage(d: Desc, m: Message, b: seq<byte>): Parsed<Elem> {
    match ReadDelimited(b)
    case Ok(sub, rest) =>
      (match DecodeFrom(d, m, sub)
       case Some(m') => Ok(Msg(m'), rest)
       case None => Fail)
    case Fail => Fail
  }

  lemma SubmessageReads(d: Desc, prior: Elem, b: seq<byte>)
    ensures ReadElem(Submessage(d), prior, b) == ReadSubmessage(d, if prior.Msg? then prior.m else Default(d), b)
  {
    hide ReadDelimited, DecodeFrom, Default;
  }

  /** pb_dec_submessage. */
  method DecodeSubmessage(s: IStream, d: Desc, m0: Message) returns (ok: bool, e: Elem)
    requires s.Valid() && DescOk(d)
    modifies s
    ensures s.Valid() && s.End() == old(s.End()) && Did(s, ok, e, ReadSubmessage(d, m0, old(s.Left())))
    decreases d, 5
  {
    hide ReadDelimited, DecodeFrom, DescOk;
    e := Msg(m0);
    var sub;
    ok, sub := MakeSubstream(s);
    if !ok { return; }
    ghost var end := sub.state + sub.bytesLeft;
    var m;
    ok, m := DecodeInner(sub, d, m0);
    CloseSubstream(s, sub, end);
    e := Msg(m);
  }

  /** The loop over a packed array. */
  method DecodePacked(s: IStream, f: Field, fixed: bool, a0: Array) returns (ok: bool, a: Array)
    requires s.Valid() && Packable(f.ltype)
    modifies s
    ensures s.Valid() && s.End() == old(s.End())
    ensures ok == ReadPacked(f, fixed, a0, old(s.Left())).Some?
    ensures ok ==> a == ReadPacked(f, fixed, a0, old(s.Left())).value
  {
    hide ReadNum, Put;
    a := a0;
    while s.bytesLeft > 0 && a.size < f.arraySize
      invariant s.Valid() && s.End() == old(s.End())
      invariant ReadPacked(f, fixed, a, s.Left()) == ReadPacked(f, fixed, a0, old(s.Left()))
      decreases s.bytesLeft
    {
      var v;
      ok, v := DecodeNum(s, f.ltype);
      if !ok { return; }
      a := Array(Put(fixed, a.es, a.size, Num(v)), a.size + 1);
    }
    ok := s.bytesLeft == 0;
  }

  /** The HTYPE_REPEATED case of decode_static_field. */
  method DecodeArray(s: IStream, f: Field, fixed: bool, a0: Array, wireType: nat) returns (ok: bool, a: Array)
    requires s.Valid() && TypeOk(f.ltype)
    modifies s
    ensures s.Valid() && s.End() == old(s.End()) && Did(s, ok, a, ReadArray(f, fixed, a0, wireType, old(s.Left())))
    decreases f, 2
  {
    hide ReadDelimited, ReadPacked, ReadElem, Put, TypeOk;
    a := a0;
    if wireType == WT_STRING && Packable(f.ltype) {
      var sub;
      ok, sub := MakeSubstream(s);
      if !ok { return; }
      ghost var end := sub.End();
      ok, a := DecodePacked(sub, f, fixed, a0);
      CloseSubstream(s, sub, end);
    } else {
      if a.size >= f.arraySize || wireType != WireType(f.ltype) { return false, a; }
      var e;
      ok, e := DecodeElem(s, f.ltype, Zero(f.ltype));
      a := Array(Put(fixed, a0.es, a0.size, e), a0.size + 1);
    }
  }

  /** decode_field for field i of the message. */
  method DecodeField(s: IStream, d: Desc, st: State, i: nat, wireType: nat) returns (ok: bool, st': State)
    requires s.Valid() && i < |d.fields| && DescOk(d)
    modifies s
    ensures s.Valid() && s.End() == old(s.End()) && Did(s, ok, st', ReadField(d, st, i, wireType, old(s.Left())))
    decreases d, 1
  {
    var f := d.fields[i];
    assert FieldOk(d.hasDefaults, f);
    hide DescOk, TypeOk, ReadElem, ReadArray, RequiredBefore, ClearGroup, Zero;
    st' := st;
    if i >= |st.m.slots| { return false, st; }
    var slot := st.m.slots[i];
    if slot.Rep? {
      var fixed := f.rule == Repeated(true);
      var track := st.track;
      if fixed {
        if !(track.Track? && track.field == i) {
          if track.Track? && track.size != track.total { return false, st; }
          track := Track(i, 0, f.arraySize);
        }
      }
      var a;
      ok, a := DecodeArray(s, f, fixed, Array(slot.es, if fixed then track.size else |slot.es|), wireType);
      st' := State(Message(st.m.slots[i := Rep(a.es)]), st.seen, if fixed then track.(size := a.size) else track);
    } else {
      if wireType != WireType(f.ltype) { return false, st; }
      var e;
      ok, e := DecodeElem(s, f.ltype, if slot.Choice? && !slot.present then Zero(f.ltype) else slot.e);
      match slot
      case Single(_) =>
        st' := st.(m := Message(st.m.slots[i := Single(e)]),
                   seen := if f.rule.Required? && RequiredBefore(d, i) < MAX_REQUIRED then st.seen + {i} else st.seen);
      case Opt(_, _) => st' := st.(m := Message(st.m.slots[i := Opt(true, e)]));
      case Choice(_, _) =>
        var slots := if f.rule.OneOf? then ClearGroup(d, st.m.slots, f.rule.group) else st.m.slots;
        st' := st.(m := Message(slots[i := Choice(true, e)]));
    }
  }

  /** The check that every required field that is tracked was seen. */
  method RequiredSeen(d: Desc, seen: set<nat>) returns (all: bool)
    ensures all <==>
              forall i | 0 <= i < |d.fields| && d.fields[i].rule.Required? && RequiredBefore(d, i) < MAX_REQUIRED ::
                i in seen
  {
    var i: nat := 0;
    var count: nat := 0;
    while i < |d.fields|
      invariant i <= |d.fields| && count == RequiredBefore(d, i)
      invariant forall j | 0 <= j < i && d.fields[j].rule.Required? && RequiredBefore(d, j) < MAX_REQUIRED :: j in seen
    {
      if d.fields[i].rule.Required? {
        if count < MAX_REQUIRED && i !in seen { return false; }
        count := count + 1;
      }
      i := i + 1;
    }
    all := true;
  }

  /** pb_decode_inner without the initialisation. */
  method DecodeInner(s: IStream, d: Desc, m0: Message) returns (ok: bool, m: Message)
    requires s.Valid() && DescOk(d)
    modifies s
    ensures s.Valid() && s.End() == old(s.End())
    ensures ok == DecodeFrom(d, m0, old(s.Left())).Some?
    ensures ok ==> m == DecodeFrom(d, m0, old(s.Left())).value && s.bytesLeft == 0
    decreases d, 4
  {
    hide DescOk, ReadField, ReadVarint32, Skip, FindField, Finished;
    m := m0;
    var iter := new FieldIter(d);
    var st := State(m0, {}, NoTrack);
    while s.bytesLeft > 0
      invariant s.Valid() && s.End() == old(s.End()) && iter.Valid() && iter.desc == d && fresh(iter)
      invariant ReadAll(d, st, s.Left()) == ReadAll(d, State(m0, {}, NoTrack), old(s.Left()))
      decreases s.bytesLeft
    {
      var t;
      ok, t := DecodeVarint32(s);
      if !ok { return; }
      if t / 8 == 0 { return false, m; }
      var found := iter.Find(t / 8);
      if found {
        ok, st := DecodeField(s, d, st, iter.index, t % 8);
      } else {
        ok := SkipField(s, t % 8);
      }
      if !ok { return; }
    }
    FinishedMeans(d, st);
    var seen := RequiredSeen(d, st.seen);
    m := st.m;
    ok := seen && (st.track.Track? ==> st.track.size == st.track.total);
  }

  lemma FinishedMeans(d: Desc, st: State)
    ensures Finished(d, st) <==>
      (st.track.Track? ==> st.track.size == st.track.total)
      && forall i | 0 <= i < |d.fields| && d.fields[i].rule.Required? && RequiredBefore(d, i) < MAX_REQUIRED ::
        i in st.seen
  {
  }

  /** pb_decode of a whole buffer. */
  method DecodeMessage(buffer: seq<byte>, d: Desc) returns (ok: bool, m: Message)
    requires DescOk(d)
    ensures ok == Decode(d, buffer).Some? && (ok ==> m == Decode(d, buffer).value)
  {
    hide DescOk, DecodeFrom, Default;
    var s := new IStream(buffer, 0, |buffer|);
    assert s.Left() == buffer;
    ok, m := DecodeInner(s, d, Default(d));
  }
}
