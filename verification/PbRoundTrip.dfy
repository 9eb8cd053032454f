/** pb_decode of the bytes pb_encode writes rebuilds the message. */
module PbRoundTrip {
  import opened Common
  import opened PbVarint
  import opened PbModel

  // ----- descriptors and values -----

  predicate WordSize(n: nat) { n == 1 || n == 2 || n == 4 || n == 8 }

  predicate TypeOk(t: LType)
    decreases t
  {
    match t
    case Varint(n, _) => WordSize(n)
    case UVarint(n, _) => WordSize(n)
    case SVarint(n) => WordSize(n)
    case Bytes(cap) => cap <= SIZE_MAX
    case Str(n) => 0 < n <= SIZE_MAX
    case FixedBytes(n) => n <= SIZE_MAX
    case Submessage(d) => DescOk(d)
    case _ => true
  }

  predicate FieldOk(hasDefaults: bool, f: Field)
    decreases f
  {
    && 0 < f.tag < MAX_TAG && 0 < f.arraySize && TypeOk(f.ltype)
    && (!hasDefaults && !f.ltype.Submessage? ==> f.init == Zero(f.ltype))
  }

  /** What the generator guarantees of a descriptor: unique ascending tags and known sizes. */
  predicate DescOk(d: Desc)
    decreases d
  {
    && (forall i | 0 <= i < |d.fields| :: FieldOk(d.hasDefaults, d.fields[i]))
    && (forall i, j | 0 <= i < j < |d.fields| :: d.fields[i].tag < d.fields[j].tag)
  }

  predicate NumTyped(t: LType, v: int)
    requires Packable(t)
  {
    match t
    case Bool => v == 0 || v == 1
    case UVarint(n, _) => 0 <= v < Pow2(8 * n)
    case Varint(n, _) => FitsSigned(n, v)
    case SVarint(n) => FitsSigned(n, v)
    case Fixed32 => 0 <= v < Pow2(32)
    case Fixed64 => 0 <= v < Pow2(64)
  }

  /** A value the C type of a field can hold. */
  predicate ElemTyped(t: LType, e: Elem)
    decreases t
  {
    match t
    case Submessage(d) => e.Msg? && WellTyped(d, e.m)
    case Bytes(_) => e.Blob?
    case Str(_) => e.Blob? && 0 !in e.b
    case FixedBytes(n) => e.Blob? && |e.b| == n
    case _ => e.Num? && NumTyped(t, e.v)
  }

  predicate SlotTyped(f: Field, s: Slot)
    decreases f
  {
    match f.rule
    case Required => s.Single? && ElemTyped(f.ltype, s.e)
    case Optional(has) => (if has then s.Opt? else s.Single?) && ElemTyped(f.ltype, s.e)
    case Repeated(fixed) =>
      s.Rep? && (fixed ==> |s.es| == f.arraySize) && forall k | 0 <= k < |s.es| :: ElemTyped(f.ltype, s.es[k])
    case OneOf(_) => s.Choice? && (s.present ==> ElemTyped(f.ltype, s.e))
  }

  predicate Present(f: Field, s: Slot, group: nat) { f.rule == OneOf(group) && s.Choice? && s.present }

  /** A message the C struct can hold: values of the right types, at most one member of each oneof. */
  predicate WellTyped(d: Desc, m: Message)
    decreases d
  {
    && |m.slots| == |d.fields|
    && (forall i | 0 <= i < |d.fields| :: SlotTyped(d.fields[i], m.slots[i]))
    && (forall i, j | 0 <= i < j < |d.fields| :: d.fields[i].rule.OneOf? ==>
          !(Present(d.fields[i], m.slots[i], d.fields[i].rule.group)
            && Present(d.fields[j], m.slots[j], d.fields[i].rule.group)))
  }

  // ----- what a message means -----

  /** A message with the storage of absent parts set to their defaults. */
  function CanonElem(t: LType, e: Elem): Elem
    decreases t, 0
  {
    if t.Submessage? && e.Msg? then Msg(Canonical(t.desc, e.m)) else e
  }

  function CanonAll(t: LType, es: seq<Elem>): (r: seq<Elem>)
    ensures |r| == |es|
    decreases t, 1
  {
    seq(|es|, k requires 0 <= k < |es| => CanonElem(t, es[k]))
  }

  function CanonSlot(f: Field, s: Slot): Slot
    decreases f
  {
    match s
    case Single(e) => Single(CanonElem(f.ltype, e))
    case Opt(has, e) => if has then Opt(true, CanonElem(f.ltype, e)) else DefaultSlot(f)
    case Rep(es) => Rep(CanonAll(f.ltype, es))
    case Choice(present, e) => if present then Choice(true, CanonElem(f.ltype, e)) else DefaultSlot(f)
  }

  function Canonical(d: Desc, m: Message): (r: Message)
    ensures |r.slots| == |m.slots|
    decreases d
  {
    Message(seq(|m.slots|, i requires 0 <= i < |m.slots| =>
      if i < |d.fields| then CanonSlot(d.fields[i], m.slots[i]) else m.slots[i]))
  }

  // ----- numbers -----

  lemma Pow2Words()
    ensures Pow2(7) == 0x80 && Pow2(8) == 0x100 && Pow2(15) == 0x8000 && Pow2(16) == 0x1_0000
    ensures Pow2(31) == 0x8000_0000 && Pow2(32) == U32 && Pow2(63) == 0x8000_0000_0000_0000 && Pow2(64) == U64
  {
    Pow2Small();
    Pow2Values();
    assert Pow2(7) == 0x80 by { Pow2Seven(0); }
    hide Pow2;
    Pow2Add(8, 7);
    Pow2Add(8, 8);
    Pow2Add(15, 16);
  }

  /** A value of a signed field survives being sent as 64 bits and read back as 32 or 64. */
  lemma SignedRoundTrip(size: nat, v: int)
    requires WordSize(size) && FitsSigned(size, v)
    ensures -0x8000_0000_0000_0000 <= v < 0x8000_0000_0000_0000
    ensures v >= 0 ==> Unsigned64(v) == v
    ensures AsSigned(if size == 8 then 64 else 32, Unsigned64(v)) == v
  {
    Pow2Words();
    hide Pow2;
    if v < 0 { assert Unsigned64(v) == v + U64; }
    if size < 8 && v < 0 { assert Unsigned64(v) % U32 == v + U32; }
  }

  lemma NumRoundTrip(t: LType, v: int, rest: seq<byte>)
    requires Packable(t) && TypeOk(t) && NumTyped(t, v)
    ensures ReadNum(t, NumBytes(t, v) + rest) == Ok(v, rest)
  {
    Pow2Words();
    hide Pow2, ReadVarint, ReadVarint32, Base128, AsSigned, LittleEndian, FromLittleEndian;
    match t
    case Bool => Varint32RoundTrip(v, rest);
    case UVarint(n, _) => VarintRoundTrip(v, rest);
    case Varint(n, _) =>
      SignedRoundTrip(n, v);
      VarintRoundTrip(Unsigned64(v), rest);
    case SVarint(n) =>
      SignedRoundTrip(n, v);
      SvarintRoundTrip(v, rest);
    case Fixed32 => FixedRoundTrip(v, 4, rest);
    case Fixed64 => FixedRoundTrip(v, 8, rest);
  }

  lemma FixedRoundTrip(v: nat, n: nat, rest: seq<byte>)
    requires v < Pow2(8 * n)
    ensures var b := LittleEndian(v, n) + rest; FromLittleEndian(b[..n]) == v && b[n..] == rest
  {
    LittleEndianRoundTrip(v, n);
    assert (LittleEndian(v, n) + rest)[..n] == LittleEndian(v, n);
  }

  lemma DelimitedRoundTrip(s: seq<byte>, rest: seq<byte>)
    requires |s| < U32
    ensures ReadDelimited(Delimited(s) + rest) == Ok(s, rest)
  {
    Varint32RoundTrip(|s|, s + rest);
    assert Delimited(s) + rest == Base128(|s|) + (s + rest);
  }

  lemma {:induction false} NoZeros(s: seq<byte>)
    requires 0 !in s
    ensures CString(s) == s
    decreases |s|
  {
    if |s| > 0 { NoZeros(s[1..]); }
  }

  // ----- the state after the first fields -----

  /** The track once the fields before i have been decoded. */
  function TrackAt(d: Desc, i: nat): Track
    requires i <= |d.fields|
  {
    if i == 0 then NoTrack
    else if d.fields[i - 1].rule == Repeated(true) then
      Track(i - 1, d.fields[i - 1].arraySize, d.fields[i - 1].arraySize)
    else TrackAt(d, i - 1)
  }

  function SeenAt(d: Desc, i: nat): set<nat>
    requires i <= |d.fields|
  {
    set j | 0 <= j < i && d.fields[j].rule.Required? && RequiredBefore(d, j) < MAX_REQUIRED
  }

  /** The message with the fields before i decoded and the others still at their defaults. */
  function SlotsAt(d: Desc, m: Message, i: nat): (r: seq<Slot>)
    requires |m.slots| == |d.fields| && i <= |d.fields|
    ensures |r| == |d.fields|
  {
    seq(|d.fields|, j requires 0 <= j < |d.fields| =>
      if j < i then CanonSlot(d.fields[j], m.slots[j]) else DefaultSlot(d.fields[j]))
  }

  function StateAt(d: Desc, m: Message, i: nat): State
    requires |m.slots| == |d.fields| && i <= |d.fields|
  {
    State(Message(SlotsAt(d, m, i)), SeenAt(d, i), TrackAt(d, i))
  }

  lemma {:induction false} FindExact(d: Desc, i: nat, k: nat)
    requires DescOk(d) && k <= i < |d.fields|
    ensures FindField(d.fields, d.fields[i].tag, k) == i
    decreases i - k
  {
    if k < i { FindExact(d, i, k + 1); }
  }

  /** Reading a tagged value of field i is reading the field. */
  lemma TagRead(d: Desc, st: State, i: nat, wireType: nat, payload: seq<byte>)
    requires DescOk(d) && i < |d.fields| && wireType < 8
    ensures ReadRecord(d, st, TagBytes(d.fields[i].tag, wireType) + payload) == ReadField(d, st, i, wireType, payload)
  {
    assert FieldOk(d.hasDefaults, d.fields[i]);
    Varint32RoundTrip(d.fields[i].tag * 8 + wireType, payload);
    FindExact(d, i, 0);
    hide ReadField, Base128, ReadVarint32, DescOk, FindField, FieldOk;
  }

  /** One decoded value takes the loop one step on. */
  lemma LoopStep(d: Desc, st: State, i: nat, wireType: nat, payload: seq<byte>, st': State, rest: seq<byte>)
    requires DescOk(d) && i < |d.fields| && wireType < 8
    requires ReadField(d, st, i, wireType, payload + rest) == Ok(st', rest)
    ensures ReadAll(d, st, TagBytes(d.fields[i].tag, wireType) + payload + rest) == ReadAll(d, st', rest)
  {
    var b := TagBytes(d.fields[i].tag, wireType) + payload + rest;
    assert b == TagBytes(d.fields[i].tag, wireType) + (payload + rest);
    TagRead(d, st, i, wireType, payload + rest);
    hide ReadField, ReadRecord, TagBytes, DescOk;
  }

  // ----- arrays -----

  lemma CatSome(a: Option<seq<byte>>, b: Option<seq<byte>>)
    requires Cat(a, b).Some?
    ensures a.Some? && b.Some? && Cat(a, b).value == a.value + b.value
  {
  }

  /** An array of which the first k elements have been decoded. */
  function ArrayAt(f: Field, fixed: bool, es: seq<Elem>, k: nat): (r: seq<Elem>)
    requires k <= |es|
    ensures |r| == if fixed then |es| else k
  {
    if fixed then CanonAll(f.ltype, es[..k]) + seq(|es| - k, j => Zero(f.ltype)) else CanonAll(f.ltype, es[..k])
  }

  lemma ArrayPut(f: Field, fixed: bool, es: seq<Elem>, k: nat)
    requires k < |es|
    ensures Put(fixed, ArrayAt(f, fixed, es, k), k, CanonElem(f.ltype, es[k])) == ArrayAt(f, fixed, es, k + 1)
  {
    hide CanonElem, Zero;
    assert es[..k + 1] == es[..k] + [es[k]];
  }

  lemma ArrayWhole(f: Field, fixed: bool, es: seq<Elem>)
    ensures ArrayAt(f, fixed, es, |es|) == CanonAll(f.ltype, es)
  {
    hide CanonElem;
    assert es[..|es|] == es;
  }

  /** The packed loop reads what was packed. */
  lemma {:induction false} PackedRoundTrip(f: Field, fixed: bool, es: seq<Elem>, k: nat)
    requires Packable(f.ltype) && TypeOk(f.ltype) && k <= |es| <= f.arraySize
    requires forall j | 0 <= j < |es| :: ElemTyped(f.ltype, es[j])
    requires PackedBytes(f.ltype, es[k..]).Some?
    ensures ReadPacked(f, fixed, Array(ArrayAt(f, fixed, es, k), k), PackedBytes(f.ltype, es[k..]).value)
         == Some(Array(CanonAll(f.ltype, es), |es|))
    decreases |es| - k
  {
    hide ReadNum, NumBytes, Zero, ArrayAt, CanonAll, NumTyped;
    if k == |es| {
      ArrayWhole(f, fixed, es);
    } else {
      var v := es[k].v;
      assert es[k..][0] == es[k] && es[k..][1..] == es[k + 1..];
      CatSome(ElemBytes(f.ltype, es[k]), PackedBytes(f.ltype, es[k + 1..]));
      var rest := PackedBytes(f.ltype, es[k + 1..]).value;
      NumRoundTrip(f.ltype, v, rest);
      ArrayPut(f, fixed, es, k);
      NumNotEmpty(f.ltype, v);
      PackedRoundTrip(f, fixed, es, k + 1);
    }
  }

  lemma NumNotEmpty(t: LType, v: int)
    requires Packable(t)
    ensures |NumBytes(t, v)| > 0
  {
  }

  // ----- one field -----

  /** What decoding an element needs to hold, so that reading it back gives its canonical form. */
  ghost predicate Reads(t: LType, prior: Elem, e: Elem) {
    forall rest: seq<byte> :: ElemBytes(t, e).Some? ==>
      ReadElem(t, prior, ElemBytes(t, e).value + rest) == Ok(CanonElem(t, e), rest)
  }

  lemma SlotAt(d: Desc, m: Message, i: nat)
    requires |m.slots| == |d.fields| && i < |d.fields|
    ensures SlotsAt(d, m, i)[i] == DefaultSlot(d.fields[i])
    ensures SlotsAt(d, m, i)[i := CanonSlot(d.fields[i], m.slots[i])] == SlotsAt(d, m, i + 1)
  {
    hide CanonSlot, DefaultSlot;
  }

  lemma SeenNext(d: Desc, i: nat)
    requires i < |d.fields|
    ensures SeenAt(d, i + 1)
         == if d.fields[i].rule.Required? && RequiredBefore(d, i) < MAX_REQUIRED then SeenAt(d, i) + {i}
           else SeenAt(d, i)
  {
    hide RequiredBefore;
  }

  /** An absent field writes nothing and keeps its default. */
  lemma AbsentStep(d: Desc, m: Message, i: nat)
    requires |m.slots| == |d.fields| && i < |d.fields| && !d.fields[i].rule.Repeated? && !d.fields[i].rule.Required?
    requires CanonSlot(d.fields[i], m.slots[i]) == DefaultSlot(d.fields[i])
    ensures StateAt(d, m, i + 1) == StateAt(d, m, i)
  {
    SlotAt(d, m, i);
    SeenNext(d, i);
    hide SlotsAt, CanonSlot, DefaultSlot, SeenAt, RequiredBefore;
    assert SlotsAt(d, m, i)[i := DefaultSlot(d.fields[i])] == SlotsAt(d, m, i);
  }

  /** A present singular field is read back by one turn of the loop. */
  lemma SingularStep(d: Desc, m: Message, i: nat, e: Elem, rest: seq<byte>)
    requires DescOk(d) && WellTyped(d, m) && i < |d.fields|
    requires var f := d.fields[i];
             && (f.rule.Required? || f.rule.Optional?)
             && (m.slots[i] == Single(e) || m.slots[i] == Opt(true, e))
             && Reads(f.ltype, Initial(f), e) && Record(f, e).Some?
    ensures ReadAll(d, StateAt(d, m, i), Record(d.fields[i], e).value + rest) == ReadAll(d, StateAt(d, m, i + 1), rest)
  {
    var f := d.fields[i];
    assert SlotTyped(f, m.slots[i]);
    SlotAt(d, m, i);
    SeenNext(d, i);
    var payload := ElemBytes(f.ltype, e).value;
    hide SlotsAt, SeenAt, RequiredBefore, ReadElem, ElemBytes, CanonElem, DescOk, WellTyped, Initial, TagBytes,
      ElemTyped;
    var st' := StateAt(d, m, i + 1);
    assert ReadField(d, StateAt(d, m, i), i, WireType(f.ltype), payload + rest) == Ok(st', rest);
    LoopStep(d, StateAt(d, m, i), i, WireType(f.ltype), payload, st', rest);
  }

  lemma OneMember(d: Desc, m: Message, i: nat, j: nat)
    requires WellTyped(d, m) && i < |d.fields| && j < |d.fields| && i != j && d.fields[i].rule.OneOf?
    requires Present(d.fields[i], m.slots[i], d.fields[i].rule.group) && d.fields[j].rule == d.fields[i].rule
    ensures !Present(d.fields[j], m.slots[j], d.fields[i].rule.group)
  {
  }

  /** Selecting the member of a oneof that is present clears nothing that was decoded. */
  lemma ClearNothing(d: Desc, m: Message, i: nat, e: Elem)
    requires WellTyped(d, m) && i < |d.fields| && d.fields[i].rule.OneOf? && m.slots[i].Choice? && m.slots[i].present
    ensures ClearGroup(d, SlotsAt(d, m, i), d.fields[i].rule.group)[i := Choice(true, e)]
      == SlotsAt(d, m, i)[i := Choice(true, e)]
  {
    var slots := SlotsAt(d, m, i);
    var g := d.fields[i].rule.group;
    assert Present(d.fields[i], m.slots[i], g);
    forall j | 0 <= j < |slots| && j != i && d.fields[j].rule == OneOf(g)
      ensures slots[j] == DefaultSlot(d.fields[j])
    {
      assert SlotTyped(d.fields[j], m.slots[j]);
      OneMember(d, m, i, j);
    }
    hide DefaultSlot, CanonSlot, SlotTyped, SlotsAt;
  }

  lemma ChoiceStep(d: Desc, m: Message, i: nat, e: Elem, rest: seq<byte>)
    requires DescOk(d) && WellTyped(d, m) && i < |d.fields|
    requires var f := d.fields[i];
             f.rule.OneOf? && m.slots[i] == Choice(true, e) && Reads(f.ltype, Zero(f.ltype), e) && Record(f, e).Some?
    ensures ReadAll(d, StateAt(d, m, i), Record(d.fields[i], e).value + rest) == ReadAll(d, StateAt(d, m, i + 1), rest)
  {
    var f := d.fields[i];
    SlotAt(d, m, i);
    SeenNext(d, i);
    ClearNothing(d, m, i, CanonElem(f.ltype, e));
    var payload := ElemBytes(f.ltype, e).value;
    hide SlotsAt, SeenAt, RequiredBefore, ReadElem, ElemBytes, CanonElem, DescOk, WellTyped, Initial, TagBytes,
      ElemTyped, ClearGroup;
    var st' := StateAt(d, m, i + 1);
    assert ReadField(d, StateAt(d, m, i), i, WireType(f.ltype), payload + rest) == Ok(st', rest);
    LoopStep(d, StateAt(d, m, i), i, WireType(f.ltype), payload, st', rest);
  }

  // ----- one array -----

  /** The state with the first k elements of array i decoded. */
  function ArrayState(d: Desc, m: Message, i: nat, fixed: bool, es: seq<Elem>, k: nat): State
    requires |m.slots| == |d.fields| && i < |d.fields| && k <= |es|
  {
    State(Message(SlotsAt(d, m, i)[i := Rep(ArrayAt(d.fields[i], fixed, es, k))]), SeenAt(d, i),
          if fixed && k > 0 then Track(i, k, d.fields[i].arraySize) else TrackAt(d, i))
  }

  lemma ArrayStarts(d: Desc, m: Message, i: nat, fixed: bool, es: seq<Elem>)
    requires |m.slots| == |d.fields| && i < |d.fields| && d.fields[i].rule == Repeated(fixed)
    requires fixed ==> |es| == d.fields[i].arraySize
    ensures ArrayState(d, m, i, fixed, es, 0) == StateAt(d, m, i)
  {
    var f := d.fields[i];
    SlotAt(d, m, i);
    assert es[..0] == [] && CanonAll(f.ltype, []) == [];
    assert ArrayAt(f, fixed, es, 0) == DefaultSlot(f).es;
    hide SlotsAt, DefaultSlot, CanonSlot;
    assert SlotsAt(d, m, i)[i := DefaultSlot(f)] == SlotsAt(d, m, i);
  }

  lemma ArrayEnds(d: Desc, m: Message, i: nat, fixed: bool, es: seq<Elem>)
    requires |m.slots| == |d.fields| && i < |d.fields| && d.fields[i].rule == Repeated(fixed) && m.slots[i] == Rep(es)
    requires fixed ==> |es| == d.fields[i].arraySize > 0
    ensures ArrayState(d, m, i, fixed, es, |es|) == StateAt(d, m, i + 1)
  {
    var f := d.fields[i];
    SlotAt(d, m, i);
    SeenNext(d, i);
    ArrayWhole(f, fixed, es);
    hide SlotsAt, SeenAt, RequiredBefore, CanonAll, ArrayAt;
  }

  lemma {:induction false} TrackComplete(d: Desc, i: nat)
    requires i <= |d.fields|
    ensures TrackAt(d, i).Track? ==> TrackAt(d, i).size == TrackAt(d, i).total && TrackAt(d, i).field < i
  {
    if i > 0 { TrackComplete(d, i - 1); }
  }

  /** How array i decodes its next element from position k. */
  lemma ArrayReads(d: Desc, m: Message, i: nat, fixed: bool, es: seq<Elem>, k: nat, k': nat, wireType: nat,
                   b: seq<byte>, rest: seq<byte>)
    requires |m.slots| == |d.fields| && i < |d.fields| && d.fields[i].rule == Repeated(fixed) && k < k' <= |es|
    requires fixed ==> |es| == d.fields[i].arraySize
    requires ReadArray(d.fields[i], fixed, Array(ArrayAt(d.fields[i], fixed, es, k), k), wireType, b)
          == Ok(Array(ArrayAt(d.fields[i], fixed, es, k'), k'), rest)
    ensures ReadField(d, ArrayState(d, m, i, fixed, es, k), i, wireType, b)
      == Ok(ArrayState(d, m, i, fixed, es, k'), rest)
  {
    TrackComplete(d, i);
    hide SlotsAt, SeenAt, RequiredBefore, CanonAll, ArrayAt, ReadArray, TrackAt;
    var slots := SlotsAt(d, m, i);
    var a, a' := Rep(ArrayAt(d.fields[i], fixed, es, k)), Rep(ArrayAt(d.fields[i], fixed, es, k'));
    assert slots[i := a][i := a'] == slots[i := a'];
  }

  /** A packed array is read back by one turn of the loop. */
  lemma PackedStep(d: Desc, m: Message, i: nat, fixed: bool, es: seq<Elem>, rest: seq<byte>)
    requires DescOk(d) && WellTyped(d, m) && i < |d.fields| && m.slots[i] == Rep(es) && |es| > 0
    requires var f := d.fields[i];
             f.rule == Repeated(fixed) && Packable(f.ltype) && ArrayBytes(f, es).Some? && SlotShort(f, m.slots[i])
    ensures ReadAll(d, StateAt(d, m, i), ArrayBytes(d.fields[i], es).value + rest)
      == ReadAll(d, StateAt(d, m, i + 1), rest)
  {
    var f := d.fields[i];
    assert SlotTyped(f, m.slots[i]) && FieldOk(d.hasDefaults, f);
    var packed := PackedBytes(f.ltype, es).value;
    assert es[0..] == es;
    PackedRoundTrip(f, fixed, es, 0);
    DelimitedRoundTrip(packed, rest);
    ArrayStarts(d, m, i, fixed, es);
    ArrayEnds(d, m, i, fixed, es);
    ArrayWhole(f, fixed, es);
    hide ReadField, ReadPacked, PackedBytes, ArrayAt, CanonAll, DescOk, WellTyped, StateAt, ArrayState, TagBytes,
      Delimited, ReadDelimited, ReadElem, ElemTyped;
    ArrayReads(d, m, i, fixed, es, 0, |es|, WT_STRING, Delimited(packed) + rest, rest);
    LoopStep(d, StateAt(d, m, i), i, WT_STRING, Delimited(packed), StateAt(d, m, i + 1), rest);
  }

  /** One element of an unpacked array. */
  lemma ElementStep(d: Desc, m: Message, i: nat, fixed: bool, es: seq<Elem>, k: nat, more: seq<byte>)
    requires DescOk(d) && |m.slots| == |d.fields| && i < |d.fields| && k < |es|
    requires var f := d.fields[i];
             && f.rule == Repeated(fixed) && |es| <= f.arraySize
             && (fixed ==> |es| == f.arraySize)
             && Record(f, es[k]).Some? && Reads(f.ltype, Zero(f.ltype), es[k])
    ensures ReadAll(d, ArrayState(d, m, i, fixed, es, k), Record(d.fields[i], es[k]).value + more)
         == ReadAll(d, ArrayState(d, m, i, fixed, es, k + 1), more)
  {
    var f := d.fields[i];
    ArrayPut(f, fixed, es, k);
    hide ReadField, ArrayAt, CanonAll, CanonElem, DescOk, StateAt, ArrayState, TagBytes, ReadElem, ElemBytes, Zero,
      Put, ReadAll;
    var payload := ElemBytes(f.ltype, es[k]).value;
    ArrayReads(d, m, i, fixed, es, k, k + 1, WireType(f.ltype), payload + more, more);
    LoopStep(d, ArrayState(d, m, i, fixed, es, k), i, WireType(f.ltype), payload,
      ArrayState(d, m, i, fixed, es, k + 1), more);
  }

  lemma ArrayShape(d: Desc, m: Message, i: nat, fixed: bool)
    requires DescOk(d) && WellTyped(d, m) && i < |d.fields| && d.fields[i].rule == Repeated(fixed)
    ensures i < |m.slots| == |d.fields| && m.slots[i].Rep?
    ensures fixed ==> |m.slots[i].es| == d.fields[i].arraySize > 0
  {
    assert SlotTyped(d.fields[i], m.slots[i]) && FieldOk(d.hasDefaults, d.fields[i]);
  }

  /** part is what es holds from position k on. */
  ghost predicate PartOf(es: seq<Elem>, k: nat, part: seq<Elem>) {
    k + |part| <= |es| && es[k..k + |part|] == part
  }

  lemma PartSplits(es: seq<Elem>, k: nat, a: seq<Elem>, b: seq<Elem>)
    requires PartOf(es, k, a + b)
    ensures PartOf(es, k, a) && PartOf(es, k + |a|, b)
  {
    var part := es[k..k + |a + b|];
    assert part[..|a|] == a && part[|a|..] == b;
    assert es[k..k + |a|] == part[..|a|] && es[k + |a|..k + |a + b|] == part[|a|..];
  }

  lemma PartTail(es: seq<Elem>, k: nat, part: seq<Elem>)
    requires PartOf(es, k, part)
    ensures k + |part| <= |es|
    ensures |part| > 0 ==> part[0] == es[k] && PartOf(es, k + 1, part[1..])
  {
  }

  /** Some elements of an array, sent one by one, are read back. */
  lemma {:induction false} ElementsStep(d: Desc, m: Message, i: nat, fixed: bool, es: seq<Elem>, k: nat,
                                        part: seq<Elem>, rest: seq<byte>)
    requires DescOk(d) && |m.slots| == |d.fields| && i < |d.fields|
    requires PartOf(es, k, part)
    requires var f := d.fields[i];
             && f.rule == Repeated(fixed) && |es| <= f.arraySize && (fixed ==> |es| == f.arraySize)
             && RecordAll(f, part).Some?
             && (forall j | 0 <= j < |part| :: Reads(f.ltype, Zero(f.ltype), part[j]))
    ensures ReadAll(d, ArrayState(d, m, i, fixed, es, k), RecordAll(d.fields[i], part).value + rest)
         == ReadAll(d, ArrayState(d, m, i, fixed, es, k + |part|), rest)
    decreases |part|
  {
    hide DescOk, StateAt, ArrayState, Record, Zero, ReadAll, Reads, PartOf;
    var f := d.fields[i];
    PartTail(es, k, part);
    if |part| == 0 {
      assert [] + rest == rest;
    } else {
      var part' := part[1..];
      CatSome(Record(f, es[k]), RecordAll(f, part'));
      var more := RecordAll(f, part').value + rest;
      ElementStep(d, m, i, fixed, es, k, more);
      assert RecordAll(f, part).value + rest == Record(f, es[k]).value + more;
      ElementsStep(d, m, i, fixed, es, k + 1, part', rest);
    }
  }

  lemma WholePart(es: seq<Elem>)
    ensures PartOf(es, 0, es)
  {
    assert es[0..|es|] == es;
  }

  /** An unpacked array is read back one by one, whether or not its type could be packed. */
  lemma UnpackedStep(d: Desc, m: Message, i: nat, fixed: bool, es: seq<Elem>, rest: seq<byte>)
    requires DescOk(d) && WellTyped(d, m) && i < |d.fields| && m.slots[i] == Rep(es)
    requires var f := d.fields[i];
             && f.rule == Repeated(fixed) && |es| <= f.arraySize && RecordAll(f, es).Some?
             && (forall j | 0 <= j < |es| :: Reads(f.ltype, Zero(f.ltype), es[j]))
    ensures ReadAll(d, StateAt(d, m, i), RecordAll(d.fields[i], es).value + rest)
         == ReadAll(d, StateAt(d, m, i + 1), rest)
  {
    hide *;
    ArrayShape(d, m, i, fixed);
    ArrayStarts(d, m, i, fixed, es);
    WholePart(es);
    ElementsStep(d, m, i, fixed, es, 0, es, rest);
    ArrayEnds(d, m, i, fixed, es);
  }

  // ----- values left out because they are the default -----

  /** A proto3 field that is left out has the value the decoder starts from. */
  lemma DefaultIsInitial(hasDefaults: bool, f: Field, s: Slot)
    requires FieldOk(hasDefaults, f) && SlotTyped(f, s) && IsDefault(hasDefaults, f, s)
    ensures CanonSlot(f, s) == DefaultSlot(f)
    decreases f
  {
    match s
    case Single(e) =>
      if f.ltype.Submessage? {
        var d := f.ltype.desc;
        assert e.Msg? && DescOk(d) && WellTyped(d, e.m) && AllDefault(d, e.m);
        AllDefaultIsDefault(d, e.m);
        assert Initial(f) == Zero(f.ltype) == Msg(Default(d));
        assert CanonElem(f.ltype, e) == Msg(Canonical(d, e.m));
      } else if e.Blob? {
        ZeroBlob(f.ltype, e.b);
      }
    case _ =>
  }

  lemma ZeroBlob(t: LType, b: seq<byte>)
    requires !Packable(t) && !t.Submessage? && |b| == 0 && (t.FixedBytes? ==> t.length == 0)
    ensures Zero(t) == Blob(b)
  {
    assert b == [];
    if t.FixedBytes? { assert seq(t.length, i => 0) == []; }
  }

  lemma AllDefaultIsDefault(d: Desc, m: Message)
    requires DescOk(d) && WellTyped(d, m) && AllDefault(d, m)
    ensures Canonical(d, m) == Default(d)
    decreases d
  {
    forall i | 0 <= i < |d.fields|
      ensures Canonical(d, m).slots[i] == Default(d).slots[i]
    {
      assert FieldOk(d.hasDefaults, d.fields[i]) && SlotTyped(d.fields[i], m.slots[i]);
      assert IsDefault(d.hasDefaults, d.fields[i], m.slots[i]);
      DefaultIsInitial(d.hasDefaults, d.fields[i], m.slots[i]);
    }
    hide CanonSlot, DefaultSlot, DescOk, WellTyped, AllDefault;
  }

  // ----- length prefixes -----

  /** A submessage whose length a prefix can say. */
  predicate Short(t: LType, e: Elem) {
    t.Submessage? && e.Msg? && MessageBytes(t.desc, e.m).Some? ==> |MessageBytes(t.desc, e.m).value| < U32
  }

  predicate AllShort(t: LType, es: seq<Elem>) {
    forall k | 0 <= k < |es| :: Short(t, es[k])
  }

  /** Every length prefix that a field needs fits 32 bits. */
  predicate SlotShort(f: Field, s: Slot) {
    match s
    case Single(e) => Short(f.ltype, e)
    case Opt(has, e) => has ==> Short(f.ltype, e)
    case Choice(present, e) => present ==> Short(f.ltype, e)
    case Rep(es) =>
      if Packable(f.ltype) then PackedBytes(f.ltype, es).Some? ==> |PackedBytes(f.ltype, es).value| < U32
      else AllShort(f.ltype, es)
  }

  predicate MessageShort(d: Desc, m: Message) {
    |m.slots| == |d.fields| && forall i | 0 <= i < |d.fields| :: SlotShort(d.fields[i], m.slots[i])
  }

  lemma ElemShort(t: LType, e: Elem)
    requires ElemBytes(t, e).Some? && |ElemBytes(t, e).value| < U32
    ensures Short(t, e)
  {
    hide MessageBytes, Base128;
  }

  lemma RecordShort(f: Field, e: Elem)
    requires Record(f, e).Some? && |Record(f, e).value| < U32
    ensures Short(f.ltype, e)
  {
    CatSome(Some(TagBytes(f.tag, WireType(f.ltype))), ElemBytes(f.ltype, e));
    hide TagBytes, ElemBytes, Short;
    ElemShort(f.ltype, e);
  }

  lemma ArrayShort(f: Field, es: seq<Elem>)
    requires ArrayBytes(f, es).Some? && |ArrayBytes(f, es).value| < U32
    ensures SlotShort(f, Rep(es))
  {
    hide TagBytes, ElemBytes, Base128, Short;
    if !Packable(f.ltype) && |es| > 0 {
      ElementsShort(f, es);
      forall k | 0 <= k < |es| ensures Short(f.ltype, es[k]) { ElemShort(f.ltype, es[k]); }
    }
  }

  /** A message of defaults only has no bytes. */
  lemma {:induction false} DefaultsAreEmpty(d: Desc, m: Message, i: nat)
    requires WellTyped(d, m) && AllDefault(d, m) && |m.slots| == |d.fields| && i <= |d.fields|
    ensures FieldsBytes(d, m, i) == Some([])
    decreases |d.fields| - i
  {
    if i < |d.fields| {
      DefaultIsEmpty(d.hasDefaults, d.fields[i], m.slots[i]);
      hide SlotBytes, AllDefault, WellTyped;
      DefaultsAreEmpty(d, m, i + 1);
      var none: seq<byte> := [];
      assert none + none == none;
    }
  }

  lemma DefaultIsEmpty(hasDefaults: bool, f: Field, s: Slot)
    requires SlotTyped(f, s) && IsDefault(hasDefaults, f, s)
    ensures SlotBytes(hasDefaults, f, s) == Some([])
  {
    hide ElemTyped;
  }

  lemma DefaultShort(hasDefaults: bool, f: Field, e: Elem)
    requires SlotTyped(f, Single(e)) && IsDefault(hasDefaults, f, Single(e))
    ensures Short(f.ltype, e)
  {
    if f.ltype.Submessage? {
      MessageLength(f.ltype.desc, e.m);
      DefaultsAreEmpty(f.ltype.desc, e.m, 0);
    }
    hide WellTyped, AllDefault, FieldsBytes;
  }

  lemma BytesShort(hasDefaults: bool, f: Field, s: Slot)
    requires SlotTyped(f, s) && FieldOk(hasDefaults, f)
    requires SlotBytes(hasDefaults, f, s).Some? && |SlotBytes(hasDefaults, f, s).value| < U32
    ensures SlotShort(f, s)
  {
    hide ElemTyped, ElemBytes, TagBytes, TypeOk, Base128, IsDefault, Short;
    match s
    case Single(e) =>
      if SlotBytes(hasDefaults, f, s) == Record(f, e) { RecordShort(f, e); } else { DefaultShort(hasDefaults, f, e); }
    case Opt(has, e) => if has { RecordShort(f, e); }
    case Choice(present, e) => if present { RecordShort(f, e); }
    case Rep(es) => ArrayShort(f, es);
  }

  // ----- everything -----

  lemma PriorIrrelevant(t: LType, p: Elem, q: Elem, e: Elem)
    requires !t.Submessage? && Reads(t, p, e)
    ensures Reads(t, q, e)
  {
    hide CanonElem, ElemBytes;
    forall rest: seq<byte> | ElemBytes(t, e).Some?
      ensures ReadElem(t, q, ElemBytes(t, e).value + rest) == Ok(CanonElem(t, e), rest)
    {
      assert ReadElem(t, p, ElemBytes(t, e).value + rest) == Ok(CanonElem(t, e), rest);
    }
  }

  lemma BlobRoundTrip(t: LType, e: Elem, rest: seq<byte>)
    requires TypeOk(t) && ElemTyped(t, e) && !Packable(t) && !t.Submessage? && ElemBytes(t, e).Some?
    ensures ReadElem(t, Zero(t), ElemBytes(t, e).value + rest) == Ok(CanonElem(t, e), rest)
  {
    DelimitedRoundTrip(e.b, rest);
    if t.Str? { NoZeros(e.b); }
    hide ReadDelimited, Delimited;
    if t.FixedBytes? && |e.b| == 0 { assert e.b == seq(0, i => 0); }
  }

  lemma ElemRoundTrip(t: LType, e: Elem)
    requires TypeOk(t) && ElemTyped(t, e) && Short(t, e)
    ensures Reads(t, Zero(t), e)
    decreases t, 1
  {
    forall rest: seq<byte> | ElemBytes(t, e).Some?
      ensures ReadElem(t, Zero(t), ElemBytes(t, e).value + rest) == Ok(CanonElem(t, e), rest)
    {
      if t.Submessage? {
        SubmessageRoundTrip(t, e, rest);
      } else if Packable(t) {
        NumRoundTrip(t, e.v, rest);
        hide ReadNum, NumBytes, NumTyped, TypeOk;
      } else {
        BlobRoundTrip(t, e, rest);
      }
    }
  }

  lemma SubmessageRoundTrip(t: LType, e: Elem, rest: seq<byte>)
    requires t.Submessage? && TypeOk(t) && ElemTyped(t, e) && ElemBytes(t, e).Some? && Short(t, e)
    ensures ReadElem(t, Zero(t), ElemBytes(t, e).value + rest) == Ok(CanonElem(t, e), rest)
    decreases t, 0
  {
    var sub := MessageBytes(t.desc, e.m).value;
    MessageLength(t.desc, e.m);
    SlotsShort(t.desc, e.m, 0);
    MessageRoundTrip(t.desc, e.m);
    DelimitedRoundTrip(sub, rest);
    hide ReadDelimited, Delimited, DescOk, WellTyped, MessageBytes, DecodeFrom, Canonical, Default;
  }

  /** No element is longer than the array it is part of. */
  lemma {:induction false} ElementsShort(f: Field, es: seq<Elem>)
    requires RecordAll(f, es).Some?
    ensures forall j | 0 <= j < |es| ::
      Record(f, es[j]).Some? && ElemBytes(f.ltype, es[j]).Some?
        && |ElemBytes(f.ltype, es[j]).value| <= |RecordAll(f, es).value|
    decreases |es|
  {
    hide ElemBytes, TagBytes;
    if |es| > 0 {
      CatSome(Record(f, es[0]), RecordAll(f, es[1..]));
      ElementsShort(f, es[1..]);
      forall j | 0 <= j < |es|
        ensures Record(f, es[j]).Some? && ElemBytes(f.ltype, es[j]).Some?
                && |ElemBytes(f.ltype, es[j]).value| <= |RecordAll(f, es).value|
      {
        if j > 0 { assert es[j] == es[1..][j - 1]; }
      }
    }
  }

  /** Decoding the bytes of field i takes the loop from the state before it to the state after it. */
  lemma FieldStep(d: Desc, m: Message, i: nat, rest: seq<byte>)
    requires DescOk(d) && WellTyped(d, m) && i < |d.fields|
    requires SlotBytes(d.hasDefaults, d.fields[i], m.slots[i]).Some? && SlotShort(d.fields[i], m.slots[i])
    ensures ReadAll(d, StateAt(d, m, i), SlotBytes(d.hasDefaults, d.fields[i], m.slots[i]).value + rest)
         == ReadAll(d, StateAt(d, m, i + 1), rest)
    decreases d, 1
  {
    var f, s := d.fields[i], m.slots[i];
    assert FieldOk(d.hasDefaults, f) && SlotTyped(f, s);
    assert [] + rest == rest;
    hide DescOk, WellTyped, StateAt, ReadAll, Reads, ElemTyped, ElemBytes, CanonElem, FieldOk, TagBytes;
    if s.Rep? {
      ArrayFieldStep(d, m, i, rest);
    } else if f.rule.OneOf? && s.present {
      ElemRoundTrip(f.ltype, s.e);
      ChoiceStep(d, m, i, s.e, rest);
    } else if SlotBytes(d.hasDefaults, f, s) == Record(f, s.e) && !f.rule.OneOf? && (s.Single? || s.has) {
      ElemRoundTrip(f.ltype, s.e);
      if !f.ltype.Submessage? { PriorIrrelevant(f.ltype, Zero(f.ltype), Initial(f), s.e); }
      SingularStep(d, m, i, s.e, rest);
    } else {
      DefaultIsInitial(d.hasDefaults, f, s);
      AbsentStep(d, m, i);
    }
  }

  lemma ArrayFieldStep(d: Desc, m: Message, i: nat, rest: seq<byte>)
    requires DescOk(d) && WellTyped(d, m) && i < |d.fields| && m.slots[i].Rep?
    requires ArrayBytes(d.fields[i], m.slots[i].es).Some? && SlotShort(d.fields[i], m.slots[i])
    ensures ReadAll(d, StateAt(d, m, i), ArrayBytes(d.fields[i], m.slots[i].es).value + rest)
         == ReadAll(d, StateAt(d, m, i + 1), rest)
    decreases d, 0
  {
    var f, es := d.fields[i], m.slots[i].es;
    assert FieldOk(d.hasDefaults, f) && SlotTyped(f, m.slots[i]);
    var fixed := f.rule.fixedCount;
    hide DescOk, WellTyped, StateAt, ArrayState, ReadAll, Reads, ElemTyped, ElemBytes, CanonElem, TagBytes, TypeOk,
      Zero;
    if |es| == 0 {
      ArrayStarts(d, m, i, fixed, es);
      ArrayEnds(d, m, i, fixed, es);
      assert [] + rest == rest;
    } else if Packable(f.ltype) {
      PackedStep(d, m, i, fixed, es, rest);
    } else {
      ElementsShort(f, es);
      forall j | 0 <= j < |es| ensures Reads(f.ltype, Zero(f.ltype), es[j]) {
        ElemRoundTrip(f.ltype, es[j]);
      }
      UnpackedStep(d, m, i, fixed, es, rest);
    }
  }

  lemma FieldsStep(d: Desc, m: Message, i: nat)
    requires DescOk(d) && WellTyped(d, m) && i <= |d.fields|
    requires FieldsBytes(d, m, i).Some? && MessageShort(d, m)
    ensures ReadAll(d, StateAt(d, m, i), FieldsBytes(d, m, i).value) == Some(StateAt(d, m, |d.fields|))
    decreases d, 2, |d.fields| - i
  {
    hide DescOk, WellTyped, StateAt, SlotBytes, SlotShort;
    if i < |d.fields| {
      MessageLength(d, m);
      CatSome(SlotBytes(d.hasDefaults, d.fields[i], m.slots[i]), FieldsBytes(d, m, i + 1));
      FieldStep(d, m, i, FieldsBytes(d, m, i + 1).value);
      FieldsStep(d, m, i + 1);
    }
  }

  /** A message of fewer than 2^32 bytes needs no longer prefix. */
  lemma {:induction false} SlotsShort(d: Desc, m: Message, i: nat)
    requires DescOk(d) && WellTyped(d, m) && |m.slots| == |d.fields| && i <= |d.fields|
    requires FieldsBytes(d, m, i).Some? && |FieldsBytes(d, m, i).value| < U32
    ensures forall j | i <= j < |d.fields| :: SlotShort(d.fields[j], m.slots[j])
    decreases |d.fields| - i
  {
    if i < |d.fields| {
      assert FieldOk(d.hasDefaults, d.fields[i]) && SlotTyped(d.fields[i], m.slots[i]);
      hide DescOk, WellTyped, SlotBytes, SlotShort, FieldOk, SlotTyped;
      CatSome(SlotBytes(d.hasDefaults, d.fields[i], m.slots[i]), FieldsBytes(d, m, i + 1));
      BytesShort(d.hasDefaults, d.fields[i], m.slots[i]);
      SlotsShort(d, m, i + 1);
    }
  }

  lemma MessageLength(d: Desc, m: Message)
    requires WellTyped(d, m)
    ensures |m.slots| == |d.fields|
  {
  }

  /** Whenever pb_encode succeeds and every length prefix fits 32 bits, pb_decode of its bytes succeeds,
      consumes all of them and rebuilds the message. */
  lemma MessageRoundTrip(d: Desc, m: Message)
    requires DescOk(d) && WellTyped(d, m) && MessageBytes(d, m).Some? && MessageShort(d, m)
    ensures Decode(d, MessageBytes(d, m).value) == Some(Canonical(d, m))
    decreases d, 3
  {
    MessageLength(d, m);
    StartState(d, m);
    EndState(d, m);
    hide DescOk, WellTyped, StateAt, FieldsBytes, Canonical, Default, Finished, MessageShort;
    FieldsStep(d, m, 0);
  }

  lemma StartState(d: Desc, m: Message)
    requires |m.slots| == |d.fields|
    ensures StateAt(d, m, 0) == State(Default(d), {}, NoTrack)
  {
    hide CanonSlot, DefaultSlot, RequiredBefore;
    assert SlotsAt(d, m, 0) == Default(d).slots;
  }

  lemma EndState(d: Desc, m: Message)
    requires |m.slots| == |d.fields|
    ensures StateAt(d, m, |d.fields|).m == Canonical(d, m) && Finished(d, StateAt(d, m, |d.fields|))
  {
    TrackComplete(d, |d.fields|);
    hide CanonSlot, DefaultSlot, RequiredBefore, TrackAt;
    assert SlotsAt(d, m, |d.fields|) == Canonical(d, m).slots;
  }
}
