/** The encoder of pb_encode.c as it runs: streams that are written or only counted, and the two passes
    over a submessage. */
module PbEncode {
  import opened Common
  import opened PbVarint
  import opened PbModel

  /** An output stream: it writes to a buffer, or it only counts. */
  class OStream {
    const sizing: bool
    const buffer: array<byte>
    const maxSize: nat
    var state: nat
    var written: nat

    ghost predicate Valid()
      reads this
    {
      state <= buffer.Length && (!sizing ==> written <= maxSize && state + (maxSize - written) <= buffer.Length)
    }

    /** What has been written to the buffer so far. */
    ghost function Output(): seq<byte>
      requires Valid()
      reads this, buffer
    {
      buffer[..state]
    }

    /** Whether size bytes can be taken after the first count. */
    ghost predicate Takes(count: nat, size: nat) {
      sizing || count + size <= maxSize
    }

    /** b has been written after what was there. */
    ghost predicate Wrote(before: seq<byte>, count: nat, b: seq<byte>)
      requires Valid()
      reads this, buffer
    {
      written == count + |b| && Output() == if sizing then before else before + b
    }

    /** PB_OSTREAM_SIZING. */
    constructor Sizing()
      ensures Valid() && sizing && written == 0 && fresh(buffer)
    {
      sizing, maxSize, state, written := true, 0, 0, 0;
      buffer := new byte[0];
    }

    /** pb_ostream_from_buffer, from a position on. */
    constructor FromBuffer(buffer: array<byte>, state: nat, size: nat)
      requires state + size <= buffer.Length
      ensures Valid() && !sizing && this.buffer == buffer && this.state == state && written == 0 && maxSize == size
    {
      sizing, maxSize, written := false, size, 0;
      this.buffer, this.state := buffer, state;
    }

    /** pb_write. */
    method Write(b: seq<byte>) returns (ok: bool)
      requires Valid()
      modifies this, buffer
      ensures Valid() && ok == Takes(old(written), |b|)
      ensures ok ==> Wrote(old(Output()), old(written), b)
    {
      if |b| > 0 && !sizing {
        if written + |b| > maxSize { return false; }
        var i: nat := 0;
        while i < |b|
          invariant i <= |b| && state == old(state) && written == old(written)
          invariant buffer[..state + i] == old(buffer[..state]) + b[..i]
        {
          buffer[state + i] := b[i];
          i := i + 1;
        }
        state := state + |b|;
      }
      written := written + |b|;
      ok := true;
    }

    /** pb_write without data, on a stream that only counts. */
    method Count(size: nat)
      requires Valid() && sizing
      modifies this`written
      ensures Valid() && written == old(written) + size
    {
      written := written + size;
    }

    // ----- numbers -----

    /** pb_encode_varint_32: the base-128 form of high * 2^32 + low, with 32-bit shifts only. */
    method EncodeVarint32(low0: nat, high0: nat) returns (ok: bool)
      requires Valid() && low0 < U32
      modifies this, buffer
      ensures Valid() && ok == Takes(old(written), |Base128(high0 * U32 + low0)|)
      ensures ok ==> Wrote(old(Output()), old(written), Base128(high0 * U32 + low0))
    {
      var b := SplitBase128(low0, high0);
      ok := Write(b);
    }
  }

  /** The scale of the high word in what is left after i + 1 groups of the low word. */
  function Scale(i: nat): nat
    requires i < 4
  {
    if i == 0 then 0x200_0000 else if i == 1 then 0x4_0000 else if i == 2 then 0x800 else 0x10
  }

  /** Dividing by 128 splits off the next group of the low word. */
  lemma LowStep(i: nat, low: nat, high: nat)
    requires i < 4 && low < Scale(i)
    ensures i < 3 ==> low / 128 < Scale(i + 1)
                      && low + high * Scale(i) == low % 128 + 128 * (low / 128 + high * Scale(i + 1))
    ensures i == 3 ==> low % 128 < 16 && low / 128 == 0 && low + high * Scale(i) == low % 128 + 16 * high
  {
  }

  lemma Base128Step(left: nat, x: nat, more: nat)
    requires left == x + 128 * more && x < 128
    ensures left / 128 == more
    ensures more > 0 ==> Base128(left) == [128 + x] + Base128(more)
    ensures more == 0 ==> Base128(left) == [x]
  {
  }

  lemma Append3(b: seq<byte>, x: byte, c: seq<byte>)
    ensures b + ([x] + c) == (b + [x]) + c
  {
  }

  /** The loops of pb_encode_varint_32. */
  method SplitBase128(low0: nat, high0: nat) returns (b: seq<byte>)
    requires low0 < U32
    ensures b == Base128(high0 * U32 + low0)
  {
    hide Base128, Scale;
    var x: nat := low0 % 128;
    var low: nat, high: nat := low0 / 128, high0;
    b := [];
    var i: nat := 0;
    ghost var left: nat := high0 * U32 + low0;
    ScaleStart(low0, high0);
    while i < 4 && (low != 0 || high != 0)
      invariant i <= 4 && x < 128 && b + Base128(left) == Base128(high0 * U32 + low0) && high == high0
      invariant i < 4 ==> low < Scale(i) && left == x + 128 * (low + high * Scale(i))
      invariant i == 4 ==> low == 0 && x < 16 && left == x + 16 * high
    {
      ScalePositive(i, high);
      Base128Step(left, x, low + high * Scale(i));
      LowStep(i, low, high);
      left := left / 128;
      Append3(b, 128 + x, Base128(left));
      b := b + [128 + x];
      x := low % 128;
      low := low / 128;
      i := i + 1;
    }
    if high != 0 {
      x := x + high % 8 * 16;
      high := high / 8;
      while high != 0
        invariant x < 128 && b + Base128(left) == Base128(high0 * U32 + low0) && left == x + 128 * high
        decreases high
      {
        Base128Step(left, x, high);
        left := left / 128;
        Append3(b, 128 + x, Base128(left));
        b := b + [128 + x];
        x := high % 128;
        high := high / 128;
      }
    }
    Base128Step(left, x, 0);
    b := b + [x];
  }

  lemma ScaleStart(low: nat, high: nat)
    requires low < U32
    ensures low / 128 < Scale(0) && high * U32 + low == low % 128 + 128 * (low / 128 + high * Scale(0))
  {
  }

  lemma ScalePositive(i: nat, high: nat)
    requires i < 4
    ensures high > 0 ==> high * Scale(i) > 0
    ensures high == 0 ==> high * Scale(i) == 0
  {
  }

  // ----- values -----

  /** pb_encode_varint. */
  method EncodeVarint(s: OStream, v: nat) returns (ok: bool)
    requires s.Valid()
    modifies s, s.buffer
    ensures s.Valid() && ok == s.Takes(old(s.written), |Base128(v)|)
    ensures ok ==> s.Wrote(old(s.Output()), old(s.written), Base128(v))
  {
    if v <= 0x7f {
      ok := s.Write([v]);
    } else {
      SplitWords(v);
      ok := s.EncodeVarint32(v % U32, v / U32);
    }
  }

  lemma SplitWords(v: nat)
    ensures v / U32 * U32 + v % U32 == v
  {
  }

  /** Two pieces in a row are written like the two together. */
  lemma Both(s: OStream, before: seq<byte>, count: nat, a: seq<byte>, b: seq<byte>, middle: seq<byte>)
    requires s.Valid()
    requires s.Wrote(middle, count + |a|, b) && middle == if s.sizing then before else before + a
    ensures s.Wrote(before, count, a + b)
  {
  }

  /** pb_encode_string. */
  method EncodeString(s: OStream, b: seq<byte>) returns (ok: bool)
    requires s.Valid()
    modifies s, s.buffer
    ensures s.Valid() && ok == s.Takes(old(s.written), |Delimited(b)|)
    ensures ok ==> s.Wrote(old(s.Output()), old(s.written), Delimited(b))
  {
    hide Base128;
    ok := EncodeVarint(s, |b|);
    if !ok { return; }
    ghost var middle := s.Output();
    ok := s.Write(b);
    if ok { Both(s, old(s.Output()), old(s.written), Base128(|b|), b, middle); }
  }

  /** pb_enc_bool, pb_enc_varint and pb_enc_fixed. */
  method EncodeNum(s: OStream, t: LType, v: int) returns (ok: bool)
    requires s.Valid() && Packable(t)
    modifies s, s.buffer
    ensures s.Valid() && ok == s.Takes(old(s.written), |NumBytes(t, v)|)
    ensures ok ==> s.Wrote(old(s.Output()), old(s.written), NumBytes(t, v))
  {
    match t
    case Fixed32 => ok := s.Write(LittleEndian(v % U32, 4));
    case Fixed64 => ok := s.Write(LittleEndian(v % U64, 8));
    case SVarint(_) => ok := EncodeVarint(s, ZigZag(v));
    case Bool => ok := EncodeVarint(s, Unsigned64(v));
    case Varint(_, _) => ok := EncodeVarint(s, Unsigned64(v));
    case UVarint(_, _) => ok := EncodeVarint(s, Unsigned64(v));
  }

  // ----- messages -----

  /** The size of a packed array: the encoder counts it first. */
  method PackedSize(t: LType, es: seq<Elem>) returns (ok: bool, size: nat)
    requires Packable(t)
    ensures ok == PackedBytes(t, es).Some? && (ok ==> size == |PackedBytes(t, es).value|)
  {
    hide NumBytes;
    var stream := new OStream.Sizing();
    var i: nat := 0;
    ghost var done: seq<byte> := [];
    CatEmpty(PackedBytes(t, es));
    assert es[0..] == es;
    while i < |es|
      invariant i <= |es| && stream.Valid() && stream.sizing && stream.written == |done| && fresh(stream)
        && fresh(stream.buffer)
      invariant PackedBytes(t, es) == Cat(Some(done), PackedBytes(t, es[i..]))
    {
      assert es[i..][0] == es[i] && es[i..][1..] == es[i + 1..];
      if !es[i].Num? { return false, 0; }
      var written := EncodeNum(stream, t, es[i].v);
      CatAssociates(done, ElemBytes(t, es[i]), PackedBytes(t, es[i + 1..]));
      done := done + NumBytes(t, es[i].v);
      i := i + 1;
    }
    ok, size := true, stream.written;
  }

  lemma CatAssociates(a: seq<byte>, b: Option<seq<byte>>, c: Option<seq<byte>>)
    ensures Cat(Some(a), Cat(b, c)) == if b.Some? then Cat(Some(a + b.value), c) else None
  {
    if b.Some? && c.Some? { assert a + (b.value + c.value) == (a + b.value) + c.value; }
  }

  lemma CatEmpty(c: Option<seq<byte>>)
    ensures Cat(Some([]), c) == c
  {
    if c.Some? { assert [] + c.value == c.value; }
  }

  /** The values of a packed array. */
  method WritePacked(s: OStream, t: LType, es: seq<Elem>) returns (ok: bool)
    requires s.Valid() && Packable(t) && PackedBytes(t, es).Some?
    modifies s, s.buffer
    ensures s.Valid() && ok == s.Takes(old(s.written), |PackedBytes(t, es).value|)
    ensures ok ==> s.Wrote(old(s.Output()), old(s.written), PackedBytes(t, es).value)
  {
    hide NumBytes;
    var i: nat := 0;
    ghost var done: seq<byte> := [];
    CatEmpty(PackedBytes(t, es));
    assert es[0..] == es;
    while i < |es|
      invariant i <= |es| && s.Valid() && s.Wrote(old(s.Output()), old(s.written), done)
        && PackedBytes(t, es[i..]).Some?
      invariant PackedBytes(t, es) == Cat(Some(done), PackedBytes(t, es[i..]))
    {
      assert es[i..][0] == es[i] && es[i..][1..] == es[i + 1..];
      CatAssociates(done, ElemBytes(t, es[i]), PackedBytes(t, es[i + 1..]));
      ghost var middle := s.Output();
      var written := EncodeNum(s, t, es[i].v);
      if !written { return false; }
      Both(s, old(s.Output()), old(s.written), done, NumBytes(t, es[i].v), middle);
      done := done + NumBytes(t, es[i].v);
      i := i + 1;
    }
    ok := true;
  }

  /** pb_enc_bytes, pb_enc_string and pb_enc_fixed_length_bytes: a value too long for its field is an error. */
  method EncodeBlob(s: OStream, t: LType, b: seq<byte>) returns (ok: bool)
    requires s.Valid() && !Packable(t) && !t.Submessage?
    modifies s, s.buffer
    ensures s.Valid() && ok == (ElemBytes(t, Blob(b)).Some? && s.Takes(old(s.written), |Delimited(b)|))
    ensures ok ==> s.Wrote(old(s.Output()), old(s.written), Delimited(b))
  {
    hide Delimited;
    if (t.Bytes? && |b| > t.cap) || (t.Str? && |b| >= t.dataSize) { return false; }
    ok := EncodeString(s, b);
  }

  /** The contract of everything below: it succeeds exactly when the value can be encoded and there is
      room for it, and then writes exactly its bytes. */
  ghost predicate Encoded(s: OStream, ok: bool, before: seq<byte>, count: nat, r: Option<seq<byte>>)
    requires s.Valid()
    reads s, s.buffer
  {
    ok == (r.Some? && s.Takes(count, |r.value|)) && (ok ==> s.Wrote(before, count, r.value))
  }

  /** pb_encode_submessage: the size is counted first, then the message is written; the second pass
      always writes as much as the first has counted. */
  method EncodeSubmessage(s: OStream, d: Desc, m: Message) returns (ok: bool)
    requires s.Valid()
    modifies s, s.buffer
    ensures s.Valid()
    ensures var r := ElemBytes(Submessage(d), Msg(m));
            Encoded(s, ok, old(s.Output()), old(s.written), r)
    decreases d, 6
  {
    hide Base128, MessageBytes;
    var sub := new OStream.Sizing();
    var counted := Encode(sub, d, m);
    if !counted { return false; }
    var size := sub.written;
    var written := EncodeVarint(s, size);
    if !written { return false; }
    ghost var middle := s.Output();
    if s.sizing {
      s.Count(size);
      Both(s, old(s.Output()), old(s.written), Base128(size), MessageBytes(d, m).value, middle);
      return true;
    }
    if s.written + size > s.maxSize { return false; }
    var sub2 := new OStream.FromBuffer(s.buffer, s.state, size);
    var status := Encode(sub2, d, m);
    s.written := s.written + sub2.written;
    s.state := sub2.state;
    // "submsg size changed" is never raised
    assert status && sub2.written == size;
    Both(s, old(s.Output()), old(s.written), Base128(size), MessageBytes(d, m).value, middle);
    ok := status;
  }

  /** encode_basic_field without its tag. */
  method EncodeElem(s: OStream, t: LType, e: Elem) returns (ok: bool)
    requires s.Valid()
    modifies s, s.buffer
    ensures s.Valid()
    ensures Encoded(s, ok, old(s.Output()), old(s.written), ElemBytes(t, e))
    decreases t, 7
  {
    if t.Submessage? {
      if !e.Msg? { return false; }
      ok := EncodeSubmessage(s, t.desc, e.m);
    } else if Packable(t) {
      if !e.Num? { return false; }
      ok := EncodeNum(s, t, e.v);
    } else {
      if !e.Blob? { return false; }
      ok := EncodeBlob(s, t, e.b);
    }
  }

  /** encode_basic_field: the tag and the value. */
  method EncodeRecord(s: OStream, f: Field, e: Elem) returns (ok: bool)
    requires s.Valid()
    modifies s, s.buffer
    ensures s.Valid()
    ensures Encoded(s, ok, old(s.Output()), old(s.written), Record(f, e))
    decreases f, 0
  {
    hide ElemBytes, TagBytes;
    ok := EncodeTag(s, f.tag, WireType(f.ltype));
    if !ok { return; }
    ghost var middle := s.Output();
    ok := EncodeElem(s, f.ltype, e);
    if ok {
      Both(s, old(s.Output()), old(s.written), TagBytes(f.tag, WireType(f.ltype)), ElemBytes(f.ltype, e).value, middle);
    }
  }

  method EncodeTag(s: OStream, tag: nat, wireType: nat) returns (ok: bool)
    requires s.Valid()
    modifies s, s.buffer
    ensures s.Valid() && ok == s.Takes(old(s.written), |TagBytes(tag, wireType)|)
    ensures ok ==> s.Wrote(old(s.Output()), old(s.written), TagBytes(tag, wireType))
  {
    ok := EncodeVarint(s, tag * 8 + wireType);
  }

  /** encode_array. */
  method EncodeArray(s: OStream, f: Field, es: seq<Elem>) returns (ok: bool)
    requires s.Valid()
    modifies s, s.buffer
    ensures s.Valid()
    ensures Encoded(s, ok, old(s.Output()), old(s.written), ArrayBytes(f, es))
    decreases f, 2
  {
    hide PackedBytes, RecordAll, TagBytes, Base128;
    if |es| == 0 { return true; }
    if |es| > f.arraySize { return false; }
    if Packable(f.ltype) {
      ok := EncodePacked(s, f, es);
    } else {
      ok := EncodeUnpacked(s, f, es);
    }
  }

  method EncodePacked(s: OStream, f: Field, es: seq<Elem>) returns (ok: bool)
    requires s.Valid() && Packable(f.ltype) && 0 < |es| <= f.arraySize
    modifies s, s.buffer
    ensures s.Valid()
    ensures Encoded(s, ok, old(s.Output()), old(s.written), ArrayBytes(f, es))
  {
    hide PackedBytes, TagBytes, Base128;
    ghost var tag := TagBytes(f.tag, WT_STRING);
    ok := EncodeTag(s, f.tag, WT_STRING);
    if !ok { return; }
    var size;
    ok, size := PackedSize(f.ltype, es);
    if !ok { return; }
    ghost var middle := s.Output();
    ok := EncodeVarint(s, size);
    if !ok { return; }
    Both(s, old(s.Output()), old(s.written), tag, Base128(size), middle);
    middle := s.Output();
    if s.sizing {
      s.Count(size);
    } else {
      ok := WritePacked(s, f.ltype, es);
      if !ok { return; }
    }
    Both(s, old(s.Output()), old(s.written), tag + Base128(size), PackedBytes(f.ltype, es).value, middle);
    assert tag + Base128(size) + PackedBytes(f.ltype, es).value == tag + Delimited(PackedBytes(f.ltype, es).value);
  }

  method EncodeUnpacked(s: OStream, f: Field, es: seq<Elem>) returns (ok: bool)
    requires s.Valid()
    modifies s, s.buffer
    ensures s.Valid()
    ensures Encoded(s, ok, old(s.Output()), old(s.written), RecordAll(f, es))
    decreases f, 1
  {
    hide Record;
    var i: nat := 0;
    ghost var done: seq<byte> := [];
    CatEmpty(RecordAll(f, es));
    assert es[0..] == es;
    while i < |es|
      invariant i <= |es| && s.Valid() && s.Wrote(old(s.Output()), old(s.written), done)
      invariant RecordAll(f, es) == Cat(Some(done), RecordAll(f, es[i..]))
      invariant i > 0 ==> s.Takes(old(s.written), |done|)
    {
      assert es[i..][0] == es[i] && es[i..][1..] == es[i + 1..];
      CatAssociates(done, Record(f, es[i]), RecordAll(f, es[i + 1..]));
      ghost var middle := s.Output();
      var written := EncodeRecord(s, f, es[i]);
      if !written { return false; }
      Both(s, old(s.Output()), old(s.written), done, Record(f, es[i]).value, middle);
      done := done + Record(f, es[i]).value;
      i := i + 1;
    }
    ok := true;
  }

  /** encode_field. */
  method EncodeField(s: OStream, hasDefaults: bool, f: Field, slot: Slot) returns (ok: bool)
    requires s.Valid()
    modifies s, s.buffer
    ensures s.Valid()
    ensures var r := SlotBytes(hasDefaults, f, slot);
            Encoded(s, ok, old(s.Output()), old(s.written), r)
    decreases f, 3
  {
    hide Record, ArrayBytes, IsDefault;
    match slot
    case Rep(es) => ok := EncodeArray(s, f, es);
    case Choice(present, e) => if !present { return true; } ok := EncodeRecord(s, f, e);
    case Opt(has, e) => if !has { return true; } ok := EncodeRecord(s, f, e);
    case Single(e) =>
      if f.rule.Optional? && IsDefault(hasDefaults, f, slot) { return true; }
      ok := EncodeRecord(s, f, e);
  }

  /** pb_encode: it succeeds exactly when the message can be encoded and its bytes fit, whether they are
      counted or written, and then leaves exactly those bytes. */
  method Encode(s: OStream, d: Desc, m: Message) returns (ok: bool)
    requires s.Valid()
    modifies s, s.buffer
    ensures s.Valid()
    ensures Encoded(s, ok, old(s.Output()), old(s.written), MessageBytes(d, m))
    decreases d, 5
  {
    hide SlotBytes;
    var i: nat := 0;
    ghost var done: seq<byte> := [];
    CatEmpty(FieldsBytes(d, m, 0));
    while i < |d.fields|
      invariant i <= |d.fields| && s.Valid() && s.Wrote(old(s.Output()), old(s.written), done)
      invariant FieldsBytes(d, m, 0) == Cat(Some(done), FieldsBytes(d, m, i))
      invariant i > 0 ==> s.Takes(old(s.written), |done|)
    {
      if i >= |m.slots| { return false; }
      ghost var r := SlotBytes(d.hasDefaults, d.fields[i], m.slots[i]);
      CatAssociates(done, r, FieldsBytes(d, m, i + 1));
      ghost var middle := s.Output();
      var written := EncodeField(s, d.hasDefaults, d.fields[i], m.slots[i]);
      if !written { return false; }
      Both(s, old(s.Output()), old(s.written), done, r.value, middle);
      done := done + r.value;
      i := i + 1;
    }
    ok := true;
  }

  /** pb_get_encoded_size: exactly what encoding to a buffer would write. */
  method GetEncodedSize(d: Desc, m: Message) returns (ok: bool, size: nat)
    ensures ok == MessageBytes(d, m).Some? && (ok ==> size == |MessageBytes(d, m).value|)
  {
    var stream := new OStream.Sizing();
    ok := Encode(stream, d, m);
    size := stream.written;
  }
}
