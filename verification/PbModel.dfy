/** nanopb messages with static allocation: descriptors, values, and what pb_encode and pb_decode do. */
module PbModel {
  import opened Common
  import opened PbVarint

  const MAX_TAG := 0x2000_0000
  const SIZE_MAX := 65535
  const MAX_REQUIRED := 64

  /** How a field is stored and sent; sizes are in bytes. A varint field of an enumeration has the
      declared values of it; any other declares none. */
  datatype LType =
    | Bool
    | Varint(size: nat, declared: seq<int>)
    | UVarint(size: nat, declared: seq<int>)
    | SVarint(size: nat)
    | Fixed32
    | Fixed64
    | Bytes(cap: nat)
    | Str(dataSize: nat)
    | Submessage(desc: Desc)
    | FixedBytes(length: nat)

  /** Optional fields have a has_ flag or not; a repeated field has a count or is always full. */
  datatype Rule = Required | Optional(has: bool) | Repeated(fixedCount: bool) | OneOf(group: nat)

  datatype Field = Field(tag: nat, rule: Rule, ltype: LType, arraySize: nat, init: Elem)

  datatype Desc = Desc(fields: seq<Field>, hasDefaults: bool)

  datatype Elem = Num(v: int) | Blob(b: seq<byte>) | Msg(m: Message)

  datatype Slot = Single(e: Elem) | Opt(has: bool, e: Elem) | Rep(es: seq<Elem>) | Choice(present: bool, e: Elem)

  datatype Message = Message(slots: seq<Slot>)

  // ----- defaults -----

  predicate Packable(t: LType) {
    t.Bool? || t.Varint? || t.UVarint? || t.SVarint? || t.Fixed32? || t.Fixed64?
  }

  /** The value of zeroed memory. */
  function Zero(t: LType): Elem
    decreases t
  {
    match t
    case Bytes(_) => Blob([])
    case Str(_) => Blob([])
    case FixedBytes(n) => Blob(seq(n, i => 0))
    case Submessage(d) => Msg(Default(d))
    case _ => Num(0)
  }

  /** A field's value before anything is decoded into it. */
  function Initial(f: Field): Elem
    decreases f, 0
  {
    if f.ltype.Submessage? then Zero(f.ltype) else f.init
  }

  function DefaultSlot(f: Field): Slot
    decreases f, 1
  {
    match f.rule
    case Required => Single(Initial(f))
    case Optional(has) => if has then Opt(false, Initial(f)) else Single(Initial(f))
    case Repeated(fixed) => if fixed then Rep(seq(f.arraySize, i => Zero(f.ltype))) else Rep([])
    case OneOf(_) => Choice(false, Initial(f))
  }

  /** pb_message_set_to_defaults. */
  function Default(d: Desc): (m: Message)
    ensures |m.slots| == |d.fields|
    decreases d, 2
  {
    Message(seq(|d.fields|, i requires 0 <= i < |d.fields| => DefaultSlot(d.fields[i])))
  }

  // ----- encoding -----

  /** Two pieces one after the other, if both could be encoded. */
  function Cat(a: Option<seq<byte>>, b: Option<seq<byte>>): Option<seq<byte>> {
    if a.Some? && b.Some? then Some(a.value + b.value) else None
  }

  const WT_VARINT := 0
  const WT_64BIT := 1
  const WT_STRING := 2
  const WT_32BIT := 5

  function WireType(t: LType): nat {
    match t
    case Fixed32 => WT_32BIT
    case Fixed64 => WT_64BIT
    case Bytes(_) => WT_STRING
    case Str(_) => WT_STRING
    case Submessage(_) => WT_STRING
    case FixedBytes(_) => WT_STRING
    case _ => WT_VARINT
  }

  function TagBytes(tag: nat, wireType: nat): (b: seq<byte>)
    ensures |b| > 0
  {
    Base128(tag * 8 + wireType)
  }

  /** A length and the bytes it counts. */
  function Delimited(b: seq<byte>): seq<byte> { Base128(|b|) + b }

  /** The 64 bits of a signed value. */
  function Unsigned64(v: int): (u: nat)
    ensures u < U64
  {
    v % U64
  }

  /** A value without its tag, or None where the encoder reports an error. */
  function ElemBytes(t: LType, e: Elem): (r: Option<seq<byte>>)
    decreases t, 0
  {
    match t
    case Submessage(d) =>
      if e.Msg? then
        match MessageBytes(d, e.m)
        case Some(b) => Some(Delimited(b))
        case None => None
      else None
    case Bytes(cap) => if e.Blob? && |e.b| <= cap then Some(Delimited(e.b)) else None
    case Str(dataSize) => if e.Blob? && |e.b| < dataSize then Some(Delimited(e.b)) else None
    case FixedBytes(n) => if e.Blob? then Some(Delimited(e.b)) else None
    case _ => if e.Num? then Some(NumBytes(t, e.v)) else None
  }

  function NumBytes(t: LType, v: int): (b: seq<byte>)
    requires Packable(t)
  {
    match t
    case SVarint(_) => Base128(ZigZag(v))
    case Fixed32 => LittleEndian(v % U32, 4)
    case Fixed64 => LittleEndian(v % U64, 8)
    case _ => Base128(Unsigned64(v))
  }

  /** A tagged value. */
  function Record(f: Field, e: Elem): Option<seq<byte>>
    decreases f, 0
  {
    Cat(Some(TagBytes(f.tag, WireType(f.ltype))), ElemBytes(f.ltype, e))
  }

  /** The elements of a packed array. */
  function PackedBytes(t: LType, es: seq<Elem>): Option<seq<byte>>
    decreases t, 1, |es|
  {
    if |es| == 0 then Some([]) else Cat(ElemBytes(t, es[0]), PackedBytes(t, es[1..]))
  }

  function RecordAll(f: Field, es: seq<Elem>): Option<seq<byte>>
    decreases f, 1, |es|
  {
    if |es| == 0 then Some([]) else Cat(Record(f, es[0]), RecordAll(f, es[1..]))
  }

  /** encode_array: packed whenever the type allows it. */
  function ArrayBytes(f: Field, es: seq<Elem>): Option<seq<byte>>
    decreases f, 2
  {
    if |es| == 0 then Some([])
    else if |es| > f.arraySize then None
    else if Packable(f.ltype) then
      match PackedBytes(f.ltype, es)
      case Some(b) => Some(TagBytes(f.tag, WT_STRING) + Delimited(b))
      case None => None
    else RecordAll(f, es)
  }

  /** pb_check_proto3_default_value. */
  predicate IsDefault(hasDefaults: bool, f: Field, s: Slot)
    decreases f, 1
  {
    match s
    case Rep(es) => |es| == 0
    case Choice(present, _) => !present
    case Opt(has, _) => !has
    case Single(e) =>
      !f.rule.Required? && !hasDefaults &&
      match e
      case Num(v) => v == 0
      case Blob(b) => if f.ltype.FixedBytes? then f.ltype.length == 0 else |b| == 0
      case Msg(m) => f.ltype.Submessage? && AllDefault(f.ltype.desc, m)
  }

  predicate AllDefault(d: Desc, m: Message)
    decreases d, 2
  {
    forall i | 0 <= i < |d.fields| && i < |m.slots| :: IsDefault(d.hasDefaults, d.fields[i], m.slots[i])
  }

  /** encode_field: nothing at all for a field that is absent. */
  function SlotBytes(hasDefaults: bool, f: Field, s: Slot): Option<seq<byte>>
    decreases f, 3
  {
    match s
    case Rep(es) => ArrayBytes(f, es)
    case Choice(present, e) => if present then Record(f, e) else Some([])
    case Opt(has, e) => if has then Record(f, e) else Some([])
    case Single(e) => if f.rule.Optional? && IsDefault(hasDefaults, f, s) then Some([]) else Record(f, e)
  }

  /** The fields from number i on. */
  function FieldsBytes(d: Desc, m: Message, i: nat): Option<seq<byte>>
    decreases d, 4, |d.fields| - i
  {
    if i >= |d.fields| then Some([])
    else if i >= |m.slots| then None
    else Cat(SlotBytes(d.hasDefaults, d.fields[i], m.slots[i]), FieldsBytes(d, m, i + 1))
  }

  /** The bytes pb_encode writes, or None where it reports an error other than a full stream. */
  function MessageBytes(d: Desc, m: Message): Option<seq<byte>>
    decreases d, 5
  {
    FieldsBytes(d, m, 0)
  }

  // ----- decoding -----

  /** How much of the fixed-count array decoded last has arrived. */
  datatype Track = NoTrack | Track(field: nat, size: nat, total: nat)

  datatype State = State(m: Message, seen: set<nat>, track: Track)

  /** The number of required fields before field i: its bit in the fields-seen set. */
  function RequiredBefore(d: Desc, i: nat): nat {
    if i == 0 || i > |d.fields| then 0 else RequiredBefore(d, i - 1) + if d.fields[i - 1].rule.Required? then 1 else 0
  }

  function SignedRange(size: nat): nat { Pow2(if size == 0 then 0 else 8 * size - 1) }

  predicate FitsSigned(size: nat, v: int) { 0 - SignedRange(size) <= v < SignedRange(size) }

  function AsSigned(bits: nat, v: nat): int {
    var r := v % Pow2(bits);
    if bits > 0 && r >= Pow2(bits - 1) then r - Pow2(bits) else r
  }

  /** A length-delimited piece: pb_decode_varint32 and that many bytes. */
  function ReadDelimited(b: seq<byte>): (r: Parsed<seq<byte>>)
    ensures r.Ok? ==> |r.rest| < |b| && |r.value| < |b|
  {
    match ReadVarint32(b)
    case Ok(n, rest) => if |rest| < n then Fail else Ok(rest[..n], rest[n..])
    case Fail => Fail
  }

  /** The part of a byte string before its first zero: what the C string says. */
  function CString(b: seq<byte>): (r: seq<byte>)
    ensures |r| <= |b| && r == b[..|r|] && 0 !in r && (|r| < |b| ==> b[|r|] == 0)
  {
    if |b| == 0 || b[0] == 0 then [] else [b[0]] + CString(b[1..])
  }

  /** pb_dec_bool, pb_dec_varint and the fixed decoders: a number that does not fit its field is an error. */
  function ReadNum(t: LType, b: seq<byte>): (r: Parsed<int>)
    requires Packable(t)
    ensures r.Ok? ==> |r.rest| < |b|
  {
    match t
    case Bool =>
      (match ReadVarint32(b)
       case Ok(v, rest) => Ok(if v != 0 then 1 else 0, rest)
       case Fail => Fail)
    case UVarint(size, _) =>
      (match ReadVarint(b, 0, 0)
       case Ok(v, rest) => if v < Pow2(8 * size) then Ok(v, rest) else Fail
       case Fail => Fail)
    case Varint(size, _) =>
      (match ReadVarint(b, 0, 0)
       case Ok(v, rest) =>
         var s := AsSigned(if size == 8 then 64 else 32, v);
         if FitsSigned(size, s) then Ok(s, rest) else Fail
       case Fail => Fail)
    case SVarint(size) =>
      (match ReadSvarint(b)
       case Ok(v, rest) => if FitsSigned(size, v) then Ok(v, rest) else Fail
       case Fail => Fail)
    case Fixed32 => if |b| < 4 then Fail else Ok(FromLittleEndian(b[..4]), b[4..])
    case Fixed64 => if |b| < 8 then Fail else Ok(FromLittleEndian(b[..8]), b[8..])
  }

  /** decode_basic_field, once the wire type has been checked. Decoding goes on from prior, which only
      matters for a submessage. */
  function ReadElem(t: LType, prior: Elem, b: seq<byte>): (r: Parsed<Elem>)
    ensures r.Ok? ==> |r.rest| < |b|
    decreases t, |b|
  {
    match t
    case Submessage(d) =>
      (match ReadDelimited(b)
       case Ok(sub, rest) =>
         (match DecodeFrom(d, if prior.Msg? then prior.m else Default(d), sub)
          case Some(m) => Ok(Msg(m), rest)
          case None => Fail)
       case Fail => Fail)
    case Bytes(cap) =>
      (match ReadDelimited(b)
       case Ok(s, rest) => if |s| <= SIZE_MAX && |s| <= cap then Ok(Blob(s), rest) else Fail
       case Fail => Fail)
    case Str(dataSize) =>
      (match ReadDelimited(b)
       case Ok(s, rest) => if |s| < dataSize then Ok(Blob(CString(s)), rest) else Fail
       case Fail => Fail)
    case FixedBytes(n) =>
      (match ReadDelimited(b)
       case Ok(s, rest) =>
         if |s| > SIZE_MAX then Fail
         else if |s| == 0 then Ok(Zero(t), rest)
         else if |s| == n then Ok(Blob(s), rest)
         else Fail
       case Fail => Fail)
    case _ =>
      (match ReadNum(t, b)
       case Ok(v, rest) => Ok(Num(v), rest)
       case Fail => Fail)
  }

  /** Element number n of an array: stored in place when the count is fixed, appended otherwise. */
  function Put(fixed: bool, es: seq<Elem>, n: nat, e: Elem): seq<Elem> {
    if !fixed then es + [e] else if n < |es| then es[n := e] else es
  }

  datatype Array = Array(es: seq<Elem>, size: nat)

  /** The loop over a packed array. */
  function ReadPacked(f: Field, fixed: bool, a: Array, b: seq<byte>): Option<Array>
    decreases |b|
  {
    if |b| == 0 then Some(a)
    else if a.size >= f.arraySize || !Packable(f.ltype) then None
    else
      match ReadNum(f.ltype, b)
      case Ok(v, rest) => ReadPacked(f, fixed, Array(Put(fixed, a.es, a.size, Num(v)), a.size + 1), rest)
      case Fail => None
  }

  /** The HTYPE_REPEATED case of decode_static_field. */
  function ReadArray(f: Field, fixed: bool, a: Array, wireType: nat, b: seq<byte>): (r: Parsed<Array>)
    ensures r.Ok? ==> |r.rest| < |b|
    decreases f, 2, |b|
  {
    if wireType == WT_STRING && Packable(f.ltype) then
      match ReadDelimited(b)
      case Ok(sub, rest) =>
        (match ReadPacked(f, fixed, a, sub)
         case Some(a') => Ok(a', rest)
         case None => Fail)
      case Fail => Fail
    else if a.size >= f.arraySize || wireType != WireType(f.ltype) then Fail
    else
      match ReadElem(f.ltype, Zero(f.ltype), b)
      case Ok(e, rest) => Ok(Array(Put(fixed, a.es, a.size, e), a.size + 1), rest)
      case Fail => Fail
  }

  /** Selecting a member of a oneof takes the storage from the others. */
  function ClearGroup(d: Desc, slots: seq<Slot>, group: nat): (r: seq<Slot>)
    ensures |r| == |slots|
  {
    seq(|slots|, j requires 0 <= j < |slots| =>
      if j < |d.fields| && d.fields[j].rule == OneOf(group) then DefaultSlot(d.fields[j]) else slots[j])
  }

  /** The track a fixed-count field decodes with, or None when the previous one is incomplete. */
  function Retrack(t: Track, i: nat, total: nat): Option<Track> {
    if t.Track? && t.field == i then Some(t)
    else if t.Track? && t.size != t.total then None
    else Some(Track(i, 0, total))
  }

  /** decode_field for field i of the message. */
  function ReadField(d: Desc, st: State, i: nat, wireType: nat, b: seq<byte>): (r: Parsed<State>)
    requires i < |d.fields|
    ensures r.Ok? ==> |r.rest| < |b|
    decreases d, |b|, 1
  {
    var f := d.fields[i];
    if i >= |st.m.slots| then Fail
    else
      match st.m.slots[i]
      case Rep(es) =>
        var fixed := f.rule == Repeated(true);
        (match if fixed then Retrack(st.track, i, f.arraySize) else Some(st.track)
         case None => Fail
         case Some(track) =>
           (match ReadArray(f, fixed, Array(es, if fixed && track.Track? then track.size else |es|), wireType, b)
            case Ok(a, rest) =>
              Ok(State(Message(st.m.slots[i := Rep(a.es)]), st.seen,
                       if fixed && track.Track? then track.(size := a.size) else track), rest)
            case Fail => Fail))
      case Single(prior) =>
        if wireType != WireType(f.ltype) then Fail
        else
          (match ReadElem(f.ltype, prior, b)
           case Ok(e, rest) =>
             Ok(st.(m := Message(st.m.slots[i := Single(e)]),
                    seen := if f.rule.Required? && RequiredBefore(d, i) < MAX_REQUIRED then st.seen + {i}
                            else st.seen), rest)
           case Fail => Fail)
      case Opt(_, prior) =>
        if wireType != WireType(f.ltype) then Fail
        else
          (match ReadElem(f.ltype, prior, b)
           case Ok(e, rest) => Ok(st.(m := Message(st.m.slots[i := Opt(true, e)])), rest)
           case Fail => Fail)
      case Choice(present, prior) =>
        if wireType != WireType(f.ltype) then Fail
        else
          (match ReadElem(f.ltype, if present then prior else Zero(f.ltype), b)
           case Ok(e, rest) =>
             var slots := if f.rule.OneOf? then ClearGroup(d, st.m.slots, f.rule.group) else st.m.slots;
             Ok(st.(m := Message(slots[i := Choice(true, e)])), rest)
           case Fail => Fail)
  }

  /** pb_skip_field. */
  function Skip(wireType: nat, b: seq<byte>): (r: Parsed<()>)
    ensures r.Ok? ==> |r.rest| < |b|
  {
    if wireType == WT_VARINT then SkipVarint(b)
    else if wireType == WT_64BIT then (if |b| < 8 then Fail else Ok((), b[8..]))
    else if wireType == WT_STRING then
      (match ReadDelimited(b)
       case Ok(_, rest) => Ok((), rest)
       case Fail => Fail)
    else if wireType == WT_32BIT then (if |b| < 4 then Fail else Ok((), b[4..]))
    else Fail
  }

  function SkipVarint(b: seq<byte>): (r: Parsed<()>)
    ensures r.Ok? ==> |r.rest| < |b|
  {
    if |b| == 0 then Fail else if b[0] >= 128 then SkipVarint(b[1..]) else Ok((), b[1..])
  }

  /** The field with a tag, or the number of fields. */
  function FindField(fields: seq<Field>, tag: nat, i: nat): (r: nat)
    requires i <= |fields|
    ensures i <= r <= |fields| && (r < |fields| ==> fields[r].tag == tag)
    ensures forall j | i <= j < r :: fields[j].tag != tag
    decreases |fields| - i
  {
    if i == |fields| || fields[i].tag == tag then i else FindField(fields, tag, i + 1)
  }

  /** One tagged value of the input; unknown tags are skipped. */
  function ReadRecord(d: Desc, st: State, b: seq<byte>): (r: Parsed<State>)
    ensures r.Ok? ==> |r.rest| < |b|
    decreases d, |b|, 2
  {
    match ReadVarint32(b)
    case Fail => Fail
    case Ok(t, rest) =>
      var i := FindField(d.fields, t / 8, 0);
      if t / 8 == 0 then Fail
      else if i < |d.fields| then ReadField(d, st, i, t % 8, rest)
      else
        match Skip(t % 8, rest)
        case Ok(_, rest') => Ok(st, rest')
        case Fail => Fail
  }

  /** The loop of pb_decode_inner. */
  function ReadAll(d: Desc, st: State, b: seq<byte>): Option<State>
    decreases d, |b|, 3
  {
    if |b| == 0 then Some(st)
    else
      match ReadRecord(d, st, b)
      case Ok(st', rest) => ReadAll(d, st', rest)
      case Fail => None
  }

  /** The checks at the end: the last fixed-count array is complete and every required field was seen. */
  predicate Finished(d: Desc, st: State) {
    && (st.track.Track? ==> st.track.size == st.track.total)
    && (forall i | 0 <= i < |d.fields| && d.fields[i].rule.Required? && RequiredBefore(d, i) < MAX_REQUIRED ::
      i in st.seen)
  }

  /** pb_decode_inner with PB_DECODE_NOINIT: goes on from what m holds. */
  function DecodeFrom(d: Desc, m: Message, b: seq<byte>): Option<Message>
    decreases d, |b|, 4
  {
    match ReadAll(d, State(m, {}, NoTrack), b)
    case Some(st) => if Finished(d, st) then Some(st.m) else None
    case None => None
  }

  /** pb_decode. */
  function Decode(d: Desc, b: seq<byte>): Option<Message> {
    DecodeFrom(d, Default(d), b)
  }
}
