/** What pb_decode makes of any sequence of tagged values: in any order, repeated, split into pieces,
    arrays packed or not. The meaning is given on trees of records, without bytes. */
module PbRecords {
  import opened Common
  import opened PbVarint
  import opened PbModel
  import opened PbRoundTrip
  import opened PbCompose
  import opened PbRequired

  /** One value of field i, several numbers of field i in one packed piece, or something else. */
  datatype Rec = One(i: nat, v: Val) | Packed(i: nat, vs: seq<int>) | Other(bytes: seq<byte>)

  datatype Val = Number(v: int) | Text(b: seq<byte>) | Sub(rs: seq<Rec>)

  // ----- what a record looks like -----

  /** A number that the wire format of a type can say, whether or not the field can hold it. */
  predicate Sayable(t: LType, v: int) {
    match t
    case Bool => 0 <= v < U32
    case UVarint(_, _) => 0 <= v < U64
    case Varint(_, _) => -0x8000_0000_0000_0000 <= v < 0x8000_0000_0000_0000
    case SVarint(_) => -0x8000_0000_0000_0000 <= v < 0x8000_0000_0000_0000
    case Fixed32 => 0 <= v < U32
    case Fixed64 => 0 <= v < U64
    case _ => false
  }

  predicate ValOk(t: LType, v: Val)
    decreases v, 0
  {
    match v
    case Number(n) => Sayable(t, n)
    case Text(b) => !Packable(t) && !t.Submessage? && |b| < U32
    case Sub(rs) =>
      && t.Submessage? && DescOk(t.desc) && Growing(t.desc) && TreeOk(t.desc, rs)
      && |TreeBytes(t.desc, rs)| < U32
  }

  predicate RecOk(d: Desc, r: Rec)
    decreases r, 1
  {
    match r
    case One(i, v) => i < |d.fields| && ValOk(d.fields[i].ltype, v)
    case Packed(i, vs) =>
      && i < |d.fields| && Packable(d.fields[i].ltype) && d.fields[i].rule.Repeated?
      && (forall n | n in vs :: Sayable(d.fields[i].ltype, n))
      && |NumsBytes(d.fields[i].ltype, vs)| < U32
    case Other(u) => Unknown(d, u)
  }

  predicate TreeOk(d: Desc, rs: seq<Rec>)
    decreases rs, 2
  {
    forall k | 0 <= k < |rs| :: RecOk(d, rs[k])
  }

  /** No array of a fixed count, for which the position of a value matters too. */
  predicate Growing(d: Desc) {
    forall i | 0 <= i < |d.fields| :: d.fields[i].rule != Repeated(true)
  }

  function NumsBytes(t: LType, vs: seq<int>): seq<byte> {
    if |vs| == 0 || !Packable(t) then [] else NumBytes(t, vs[0]) + NumsBytes(t, vs[1..])
  }

  function ValBytes(t: LType, v: Val): seq<byte>
    decreases v, 0
  {
    match v
    case Number(n) => if Packable(t) then NumBytes(t, n) else []
    case Text(b) => Delimited(b)
    case Sub(rs) => if t.Submessage? then Delimited(TreeBytes(t.desc, rs)) else []
  }

  function RecBytes(d: Desc, r: Rec): seq<byte>
    decreases r, 1
  {
    match r
    case One(i, v) =>
      if i < |d.fields| then TagBytes(d.fields[i].tag, WireType(d.fields[i].ltype)) + ValBytes(d.fields[i].ltype, v)
      else []
    case Packed(i, vs) =>
      if i < |d.fields| then TagBytes(d.fields[i].tag, WT_STRING) + Delimited(NumsBytes(d.fields[i].ltype, vs)) else []
    case Other(u) => u
  }

  function TreeBytes(d: Desc, rs: seq<Rec>): seq<byte>
    decreases rs, 2
  {
    if |rs| == 0 then [] else RecBytes(d, rs[0]) + TreeBytes(d, rs[1..])
  }

  // ----- what it means -----

  /** The number a field ends up with, or None when it cannot hold it. A signed field of less than 64
      bits takes the low 32 bits first. */
  function Stored(t: LType, v: int): Option<int> {
    match t
    case Bool => Some(if v == 0 then 0 else 1)
    case UVarint(size, _) => if 0 <= v < Pow2(8 * size) then Some(v) else None
    case Varint(size, _) =>
      var s := if size == 8 then v else (v + 0x8000_0000) % U32 - 0x8000_0000;
      if FitsSigned(size, s) then Some(s) else None
    case SVarint(size) => if FitsSigned(size, v) then Some(v) else None
    case _ => Some(v)
  }

  /** A value, on top of what is there: only a submessage is merged with it. */
  function Value(t: LType, prior: Elem, v: Val): Option<Elem>
    decreases v, 0
  {
    match v
    case Number(n) => (match Stored(t, n) case Some(s) => Some(Num(s)) case None => None)
    case Text(b) =>
      (match t
       case Bytes(cap) => if |b| <= cap then Some(Blob(b)) else None
       case Str(dataSize) => if |b| < dataSize then Some(Blob(CString(b))) else None
       case FixedBytes(n) => if |b| == 0 || |b| == n then Some(if |b| == 0 then Zero(t) else Blob(b)) else None
       case _ => None)
    case Sub(rs) =>
      if !t.Submessage? then None
      else
        match Meaning(t.desc, if prior.Msg? then prior.m else Default(t.desc), rs)
        case Some(m) => Some(Msg(m))
        case None => None
  }

  /** Storing into one slot; the other members of its oneof go back to their defaults. */
  function Store(d: Desc, m: Message, i: nat, s: Slot): Message
    requires i < |d.fields|
  {
    Message(seq(|m.slots|, j requires 0 <= j < |m.slots| =>
      if j == i then s
      else if j < |d.fields| && d.fields[i].rule.OneOf? && s.Choice? && d.fields[j].rule == d.fields[i].rule
        then DefaultSlot(d.fields[j])
      else m.slots[j]))
  }

  /** All the numbers as elements, or None when the field cannot hold one of them. */
  function StoredAll(t: LType, vs: seq<int>): Option<seq<Elem>> {
    if |vs| == 0 then Some([])
    else
      match (Stored(t, vs[0]), StoredAll(t, vs[1..]))
      case (Some(s), Some(es)) => Some([Num(s)] + es)
      case _ => None
  }

  /** What one record does to a message, or None when decoding fails. */
  function Applied(d: Desc, m: Message, r: Rec): Option<Message>
    decreases r, 1
  {
    match r
    case Other(_) => Some(m)
    case One(i, v) =>
      if i >= |d.fields| || i >= |m.slots| then None
      else
        (match m.slots[i]
         case Rep(es) =>
           (match Value(d.fields[i].ltype, Zero(d.fields[i].ltype), v)
            case Some(e) => if |es| < d.fields[i].arraySize then Some(Store(d, m, i, Rep(es + [e]))) else None
            case None => None)
         case Single(prior) =>
           (match Value(d.fields[i].ltype, prior, v)
            case Some(e) => Some(Store(d, m, i, Single(e)))
            case None => None)
         case Opt(_, prior) =>
           (match Value(d.fields[i].ltype, prior, v)
            case Some(e) => Some(Store(d, m, i, Opt(true, e)))
            case None => None)
         case Choice(present, prior) =>
           (match Value(d.fields[i].ltype, if present then prior else Zero(d.fields[i].ltype), v)
            case Some(e) => Some(Store(d, m, i, Choice(true, e)))
            case None => None))
    case Packed(i, vs) =>
      if i >= |d.fields| || i >= |m.slots| || !m.slots[i].Rep? then None
      else
        match StoredAll(d.fields[i].ltype, vs)
        case Some(es) =>
          if |m.slots[i].es| + |es| <= d.fields[i].arraySize || |es| == 0
          then Some(Store(d, m, i, Rep(m.slots[i].es + es))) else None
        case None => None
  }

  function AppliedAll(d: Desc, m: Message, rs: seq<Rec>): Option<Message>
    decreases rs, 2
  {
    if |rs| == 0 then Some(m)
    else
      match Applied(d, m, rs[0])
      case Some(m') => AppliedAll(d, m', rs[1..])
      case None => None
  }

  /** Some record is a value of field i. */
  predicate Comes(rs: seq<Rec>, i: nat) {
    exists k :: 0 <= k < |rs| && rs[k].One? && rs[k].i == i
  }

  /** Every required field among the first 64 has come. */
  predicate Complete(d: Desc, rs: seq<Rec>) {
    forall i: nat | i < |d.fields| && Tracked(d, i) :: Comes(rs, i)
  }

  /** A whole message, on top of what is there. */
  function Meaning(d: Desc, m: Message, rs: seq<Rec>): Option<Message>
    decreases rs, 3
  {
    if Complete(d, rs) then AppliedAll(d, m, rs) else None
  }

  // ----- numbers -----

  lemma NumMeans(t: LType, v: int, rest: seq<byte>)
    requires Packable(t) && TypeOk(t) && Sayable(t, v)
    ensures ReadNum(t, NumBytes(t, v) + rest)
         == match Stored(t, v) case Some(s) => Ok(s, rest) case None => Fail
  {
    Pow2Words();
    hide Pow2, ReadVarint, ReadVarint32, Base128, AsSigned, LittleEndian, FromLittleEndian, FitsSigned;
    match t
    case Bool => BoolMeans(v, rest);
    case UVarint(n, _) => VarintRoundTrip(v, rest);
    case Varint(n, _) =>
      VarintRoundTrip(Unsigned64(v), rest);
      LowWord(n, v);
    case SVarint(n) => SvarintRoundTrip(v, rest);
    case Fixed32 => FixedRoundTrip(v, 4, rest);
    case Fixed64 => FixedRoundTrip(v, 8, rest);
  }

  lemma BoolMeans(v: int, rest: seq<byte>)
    requires 0 <= v < U32
    ensures Unsigned64(v) == v && ReadVarint32(Base128(v) + rest) == Ok(v, rest)
  {
    Varint32RoundTrip(v, rest);
  }

  /** The low 32 bits as a signed number, or all 64. */
  lemma LowWord(size: nat, v: int)
    requires -0x8000_0000_0000_0000 <= v < 0x8000_0000_0000_0000
    ensures AsSigned(if size == 8 then 64 else 32, Unsigned64(v))
         == if size == 8 then v else (v + 0x8000_0000) % U32 - 0x8000_0000
  {
    Pow2Words();
    hide Pow2;
    assert Unsigned64(v) == if v < 0 then v + U64 else v;
    assert (v + U64) % U32 == v % U32;
  }

  // ----- values -----

  lemma TextMeans(t: LType, prior: Elem, b: seq<byte>, rest: seq<byte>)
    requires TypeOk(t) && !Packable(t) && !t.Submessage? && |b| < U32
    ensures ReadElem(t, prior, Delimited(b) + rest)
         == match Value(t, prior, Text(b)) case Some(e) => Ok(e, rest) case None => Fail
  {
    DelimitedRoundTrip(b, rest);
    hide ReadDelimited, Delimited, CString;
  }

  lemma ValMeans(t: LType, prior: Elem, v: Val, rest: seq<byte>)
    requires TypeOk(t) && ValOk(t, v) && PriorShaped(t, prior)
    ensures ReadElem(t, prior, ValBytes(t, v) + rest)
         == match Value(t, prior, v) case Some(e) => Ok(e, rest) case None => Fail
    decreases t, 0
  {
    match v
    case Number(n) =>
      NumMeans(t, n, rest);
      hide ReadNum, NumBytes, Stored;
    case Text(b) => TextMeans(t, prior, b, rest);
    case Sub(rs) =>
      DelimitedRoundTrip(TreeBytes(t.desc, rs), rest);
      DefaultDeep(t.desc);
      hide ReadDelimited, Delimited, DecodeFrom, Meaning, TreeBytes;
      DecodeMeans(t.desc, if prior.Msg? then prior.m else Default(t.desc), rs);
  }

  predicate Fitting(rule: Rule, s: Slot) { (rule.Required? ==> s.Single?) && (rule.Repeated? ==> s.Rep?) }

  /** What a submessage is merged with has the shape of its descriptor. */
  ghost predicate PriorShaped(t: LType, prior: Elem)
    decreases t, 0
  {
    t.Submessage? && prior.Msg? ==> DeepShaped(t.desc, prior.m)
  }

  /** Required fields are stored singly and repeated ones as arrays, here and in the submessages. */
  ghost predicate DeepShaped(d: Desc, m: Message)
    decreases d, 1
  {
    && |m.slots| == |d.fields|
    && (forall i | 0 <= i < |d.fields| :: Fitting(d.fields[i].rule, m.slots[i]))
    && (forall i | 0 <= i < |d.fields| && !m.slots[i].Rep? :: PriorShaped(d.fields[i].ltype, m.slots[i].e))
  }

  lemma DefaultDeep(d: Desc)
    ensures DeepShaped(d, Default(d))
    decreases d
  {
    forall i | 0 <= i < |d.fields| && !Default(d).slots[i].Rep?
      ensures PriorShaped(d.fields[i].ltype, Default(d).slots[i].e)
    {
      assert Default(d).slots[i] == DefaultSlot(d.fields[i]);
      InitialDeep(d.fields[i]);
    }
  }

  lemma InitialDeep(f: Field)
    ensures PriorShaped(f.ltype, Initial(f)) && PriorShaped(f.ltype, Zero(f.ltype))
    decreases f
  {
    if f.ltype.Submessage? { DefaultDeep(f.ltype.desc); }
    hide DeepShaped;
  }

  lemma ValDeep(t: LType, prior: Elem, v: Val)
    requires ValOk(t, v) && PriorShaped(t, prior) && Value(t, prior, v).Some?
    ensures PriorShaped(t, Value(t, prior, v).value)
    decreases t, 0
  {
    if v.Sub? {
      DefaultDeep(t.desc);
      var m := if prior.Msg? then prior.m else Default(t.desc);
      AppliedAllDeep(t.desc, m, v.rs);
    }
    hide DeepShaped, AppliedAll;
  }

  lemma StoreDeep(d: Desc, m: Message, i: nat, s: Slot)
    requires DeepShaped(d, m) && i < |d.fields| && Fitting(d.fields[i].rule, s)
    requires !s.Rep? ==> PriorShaped(d.fields[i].ltype, s.e)
    ensures DeepShaped(d, Store(d, m, i, s))
  {
    var m' := Store(d, m, i, s);
    forall j | 0 <= j < |d.fields| && !m'.slots[j].Rep?
      ensures PriorShaped(d.fields[j].ltype, m'.slots[j].e)
    {
      InitialDeep(d.fields[j]);
    }
    hide Initial, PriorShaped;
  }

  lemma AppliedDeep(d: Desc, m: Message, r: Rec)
    requires DeepShaped(d, m) && RecOk(d, r) && Applied(d, m, r).Some?
    ensures DeepShaped(d, Applied(d, m, r).value)
    decreases d, 1
  {
    match r
    case Other(_) =>
    case Packed(i, vs) =>
      StoreDeep(d, m, i, Rep(m.slots[i].es + StoredAll(d.fields[i].ltype, vs).value));
    case One(i, v) =>
      var f, s := d.fields[i], m.slots[i];
      InitialDeep(f);
      var prior := if s.Rep? || (s.Choice? && !s.present) then Zero(f.ltype) else s.e;
      assert PriorShaped(f.ltype, prior);
      ValDeep(f.ltype, prior, v);
      hide DeepShaped, Value, Store, PriorShaped;
      assert m.slots[i] == s;
      var e := Value(f.ltype, prior, v).value;
      assert Fitting(f.rule, s) by { FitsRule(d, m, i); }
      match s
      case Rep(es) => StoreDeep(d, m, i, Rep(es + [e]));
      case Single(_) => StoreDeep(d, m, i, Single(e));
      case Opt(_, _) => StoreDeep(d, m, i, Opt(true, e));
      case Choice(_, _) => StoreDeep(d, m, i, Choice(true, e));
  }

  lemma FitsRule(d: Desc, m: Message, i: nat)
    requires DeepShaped(d, m) && i < |d.fields|
    ensures i < |m.slots| && Fitting(d.fields[i].rule, m.slots[i])
  {
  }

  lemma {:induction false} AppliedAllDeep(d: Desc, m: Message, rs: seq<Rec>)
    requires DeepShaped(d, m) && TreeOk(d, rs) && AppliedAll(d, m, rs).Some?
    ensures DeepShaped(d, AppliedAll(d, m, rs).value)
    decreases d, 2, |rs|
  {
    hide DeepShaped, Applied, RecOk;
    if |rs| > 0 {
      AppliedDeep(d, m, rs[0]);
      AppliedAllDeep(d, Applied(d, m, rs[0]).value, rs[1..]);
    }
  }

  // ----- records -----

  /** The result of reading on from a message that decoding a record has changed. */
  function After(d: Desc, m: Option<Message>, seen: set<nat>, r: Rec, rest: seq<byte>): Parsed<State> {
    match m
    case Some(m') => Ok(State(m', if r.One? && Tracked(d, r.i) then seen + {r.i} else seen, NoTrack), rest)
    case None => Fail
  }

  lemma StoreIs(d: Desc, m: Message, i: nat, s: Slot)
    requires i < |d.fields| && i < |m.slots|
    ensures !(d.fields[i].rule.OneOf? && s.Choice?) ==> Store(d, m, i, s).slots == m.slots[i := s]
    ensures d.fields[i].rule.OneOf? && s.Choice? ==>
      Store(d, m, i, s).slots == ClearGroup(d, m.slots, d.fields[i].rule.group)[i := s]
  {
    hide DefaultSlot;
  }

  lemma OneMeans(d: Desc, m: Message, seen: set<nat>, i: nat, v: Val, rest: seq<byte>)
    requires DescOk(d) && Growing(d) && DeepShaped(d, m) && RecOk(d, One(i, v))
    ensures ReadField(d, State(m, seen, NoTrack), i, WireType(d.fields[i].ltype), ValBytes(d.fields[i].ltype, v) + rest)
         == After(d, Applied(d, m, One(i, v)), seen, One(i, v), rest)
    decreases d, 0
  {
    var f, s := d.fields[i], m.slots[i];
    assert FieldOk(d.hasDefaults, f);
    InitialDeep(f);
    var prior := if s.Rep? || (s.Choice? && !s.present) then Zero(f.ltype) else s.e;
    ValMeans(f.ltype, prior, v, rest);
    FitsRule(d, m, i);
    assert f.rule != Repeated(true);
    assert Packable(f.ltype) ==> WireType(f.ltype) != WT_STRING;
    hide DeepShaped, Value, ValBytes, Store, PriorShaped, ClearGroup, DescOk, FieldOk, ReadElem, RequiredBefore, ValOk,
      Growing, Zero, WireType, Packable;
    var e := Value(f.ltype, prior, v);
    if e.Some? {
      match s
      case Rep(es) => StoreIs(d, m, i, Rep(es + [e.value]));
      case Single(_) => StoreIs(d, m, i, Single(e.value));
      case Opt(_, _) => StoreIs(d, m, i, Opt(true, e.value));
      case Choice(_, _) => StoreIs(d, m, i, Choice(true, e.value));
    }
  }

  /** The packed loop appends what the numbers mean, while there is room. */
  lemma {:induction false} PackedLoop(f: Field, es: seq<Elem>, vs: seq<int>)
    requires Packable(f.ltype) && TypeOk(f.ltype) && forall n | n in vs :: Sayable(f.ltype, n)
    ensures ReadPacked(f, false, Array(es, |es|), NumsBytes(f.ltype, vs))
         == match StoredAll(f.ltype, vs)
            case Some(more) =>
              if |es| + |more| <= f.arraySize || |more| == 0 then Some(Array(es + more, |es| + |more|)) else None
            case None => None
    decreases |vs|
  {
    hide NumBytes, ReadNum, Stored, TypeOk, Sayable;
    StoredLength(f.ltype, vs);
    if |vs| == 0 {
      assert es + [] == es;
    } else {
      var rest := NumsBytes(f.ltype, vs[1..]);
      NumMeans(f.ltype, vs[0], rest);
      NumNotEmpty(f.ltype, vs[0]);
      if Stored(f.ltype, vs[0]).Some? {
        var e := Num(Stored(f.ltype, vs[0]).value);
        PackedLoop(f, es + [e], vs[1..]);
        if StoredAll(f.ltype, vs[1..]).Some? {
          var more := StoredAll(f.ltype, vs[1..]).value;
          assert es + [e] + more == es + ([e] + more);
        }
      }
    }
  }

  lemma {:induction false} StoredLength(t: LType, vs: seq<int>)
    ensures StoredAll(t, vs).Some? ==> |StoredAll(t, vs).value| == |vs|
    decreases |vs|
  {
    hide Stored;
    if |vs| > 0 { StoredLength(t, vs[1..]); }
  }

  lemma PackedMeans(d: Desc, m: Message, seen: set<nat>, i: nat, vs: seq<int>, rest: seq<byte>)
    requires DescOk(d) && Growing(d) && DeepShaped(d, m) && RecOk(d, Packed(i, vs))
    ensures ReadField(d, State(m, seen, NoTrack), i, WT_STRING, Delimited(NumsBytes(d.fields[i].ltype, vs)) + rest)
         == After(d, Applied(d, m, Packed(i, vs)), seen, Packed(i, vs), rest)
  {
    var f, s := d.fields[i], m.slots[i];
    assert FieldOk(d.hasDefaults, f) && f.rule != Repeated(true);
    FitsRule(d, m, i);
    DelimitedRoundTrip(NumsBytes(f.ltype, vs), rest);
    if s.Rep? {
      PackedLoop(f, s.es, vs);
      if StoredAll(f.ltype, vs).Some? { StoreIs(d, m, i, Rep(s.es + StoredAll(f.ltype, vs).value)); }
    }
    hide DeepShaped, Store, DescOk, FieldOk, RequiredBefore, ReadPacked, NumsBytes, Delimited, ReadDelimited, Growing,
      StoredAll;
  }

  lemma TaggedRead(d: Desc, st: State, i: nat, wireType: nat, b: seq<byte>, rest: seq<byte>)
    requires DescOk(d) && i < |d.fields| && wireType < 8
    ensures ReadRecord(d, st, TagBytes(d.fields[i].tag, wireType) + b + rest) == ReadField(d, st, i, wireType, b + rest)
  {
    hide *;
    TagRead(d, st, i, wireType, b + rest);
    assert TagBytes(d.fields[i].tag, wireType) + b + rest == TagBytes(d.fields[i].tag, wireType) + (b + rest);
  }

  lemma OneRecMeans(d: Desc, m: Message, seen: set<nat>, i: nat, v: Val, rest: seq<byte>)
    requires DescOk(d) && Growing(d) && DeepShaped(d, m) && RecOk(d, One(i, v))
    ensures ReadRecord(d, State(m, seen, NoTrack), RecBytes(d, One(i, v)) + rest)
         == After(d, Applied(d, m, One(i, v)), seen, One(i, v), rest)
    decreases d, 1
  {
    hide DescOk, Growing, DeepShaped, ReadRecord, ReadField, Applied, After, TagBytes, ValBytes, ValOk;
    var t := d.fields[i].ltype;
    OneMeans(d, m, seen, i, v, rest);
    TaggedRead(d, State(m, seen, NoTrack), i, WireType(t), ValBytes(t, v), rest);
  }

  lemma PackedRecMeans(d: Desc, m: Message, seen: set<nat>, i: nat, vs: seq<int>, rest: seq<byte>)
    requires DescOk(d) && Growing(d) && DeepShaped(d, m) && RecOk(d, Packed(i, vs))
    ensures ReadRecord(d, State(m, seen, NoTrack), RecBytes(d, Packed(i, vs)) + rest)
         == After(d, Applied(d, m, Packed(i, vs)), seen, Packed(i, vs), rest)
  {
    hide DescOk, Growing, DeepShaped, ReadRecord, ReadField, Applied, After, TagBytes, NumsBytes, Delimited;
    PackedMeans(d, m, seen, i, vs, rest);
    TaggedRead(d, State(m, seen, NoTrack), i, WT_STRING, Delimited(NumsBytes(d.fields[i].ltype, vs)), rest);
  }

  lemma RecMeans(d: Desc, m: Message, seen: set<nat>, r: Rec, rest: seq<byte>)
    requires DescOk(d) && Growing(d) && DeepShaped(d, m) && RecOk(d, r)
    ensures ReadRecord(d, State(m, seen, NoTrack), RecBytes(d, r) + rest)
         == After(d, Applied(d, m, r), seen, r, rest)
    decreases d, 2, 0
  {
    match r
    case One(i, v) => OneRecMeans(d, m, seen, i, v, rest);
    case Packed(i, vs) => PackedRecMeans(d, m, seen, i, vs, rest);
    case Other(u) =>
      OtherMeans(d, State(m, seen, NoTrack), u, rest);
      hide ReadRecord, DescOk, Growing, DeepShaped;
  }

  lemma OtherMeans(d: Desc, st: State, u: seq<byte>, rest: seq<byte>)
    requires Unknown(d, u)
    ensures ReadRecord(d, st, u + rest) == Ok(st, rest)
  {
    hide ReadVarint32, Skip, FindField, ReadField;
    assert ReadRecord(d, st, u) == Ok(st, []);
    RecordAppend(d, st, u, rest);
    assert [] + rest == rest;
  }

  lemma RecNotEmpty(d: Desc, r: Rec)
    requires RecOk(d, r)
    ensures |RecBytes(d, r)| > 0
  {
    hide ValBytes, NumsBytes, ValOk, Delimited, Skip, FindField;
  }

  /** The tracked fields that records bring. */
  function Brought(d: Desc, rs: seq<Rec>): set<nat> {
    if |rs| == 0 then {}
    else (if rs[0].One? && Tracked(d, rs[0].i) then {rs[0].i} else {}) + Brought(d, rs[1..])
  }

  lemma {:induction false} TreeMeans(d: Desc, m: Message, seen: set<nat>, rs: seq<Rec>)
    requires DescOk(d) && Growing(d) && DeepShaped(d, m) && TreeOk(d, rs)
    ensures ReadAll(d, State(m, seen, NoTrack), TreeBytes(d, rs))
         == match AppliedAll(d, m, rs)
            case Some(m') => Some(State(m', seen + Brought(d, rs), NoTrack))
            case None => None
    decreases d, 3, |rs|
  {
    hide DescOk, Growing, DeepShaped, Applied, RecBytes, ReadRecord, RecOk, Tracked;
    if |rs| == 0 {
      assert seen + {} == seen;
    } else {
      var rest := TreeBytes(d, rs[1..]);
      RecMeans(d, m, seen, rs[0], rest);
      RecNotEmpty(d, rs[0]);
      if Applied(d, m, rs[0]).Some? {
        AppliedDeep(d, m, rs[0]);
        var seen' := if rs[0].One? && Tracked(d, rs[0].i) then seen + {rs[0].i} else seen;
        TreeMeans(d, Applied(d, m, rs[0]).value, seen', rs[1..]);
        assert seen' + Brought(d, rs[1..]) == seen + Brought(d, rs);
      }
    }
  }

  lemma {:induction false} BroughtIs(d: Desc, rs: seq<Rec>, i: nat)
    ensures i in Brought(d, rs) <==> Tracked(d, i) && Comes(rs, i)
    decreases |rs|
  {
    hide Tracked;
    if |rs| > 0 {
      BroughtIs(d, rs[1..], i);
      if Comes(rs, i) {
        var k :| 0 <= k < |rs| && rs[k].One? && rs[k].i == i;
        if k > 0 { assert rs[1..][k - 1] == rs[k]; }
      }
      if Comes(rs[1..], i) {
        var k :| 0 <= k < |rs| - 1 && rs[1..][k].One? && rs[1..][k].i == i;
        assert rs[k + 1] == rs[1..][k];
      }
    }
  }

  /** Going on from a message, pb_decode succeeds exactly when the records mean something, and its result
      is what they mean. */
  lemma DecodeMeans(d: Desc, m: Message, rs: seq<Rec>)
    requires DescOk(d) && Growing(d) && DeepShaped(d, m) && TreeOk(d, rs)
    ensures DecodeFrom(d, m, TreeBytes(d, rs)) == Meaning(d, m, rs)
    decreases d, 4
  {
    TreeMeans(d, m, {}, rs);
    var st := State(m, {}, NoTrack);
    hide DescOk, Growing, DeepShaped, AppliedAll, TreeBytes, ReadAll, RecOk, Tracked, Brought, Comes;
    if AppliedAll(d, m, rs).Some? {
      FinishedTracked(d, ReadAll(d, st, TreeBytes(d, rs)).value);
      forall i: nat ensures i in Brought(d, rs) <==> Tracked(d, i) && Comes(rs, i) { BroughtIs(d, rs, i); }
      assert {} + Brought(d, rs) == Brought(d, rs);
      TrackedField(d);
    }
  }

  lemma TrackedField(d: Desc)
    ensures forall i: nat | Tracked(d, i) :: i < |d.fields|
  {
  }

  /** pb_decode of any records, in any order, is their meaning. */
  lemma DecodeRecords(d: Desc, rs: seq<Rec>)
    requires DescOk(d) && Growing(d) && TreeOk(d, rs)
    ensures Decode(d, TreeBytes(d, rs)) == Meaning(d, Default(d), rs)
  {
    DefaultDeep(d);
    DecodeMeans(d, Default(d), rs);
  }

  // ----- packed and unpacked -----

  /** The same numbers one by one. */
  function Ones(i: nat, vs: seq<int>): (rs: seq<Rec>)
    ensures |rs| == |vs|
  {
    seq(|vs|, k requires 0 <= k < |vs| => One(i, Number(vs[k])))
  }

  lemma {:induction false} AppliedAppend(d: Desc, m: Message, a: seq<Rec>, b: seq<Rec>)
    ensures AppliedAll(d, m, a + b)
         == match AppliedAll(d, m, a) case Some(m') => AppliedAll(d, m', b) case None => None
    decreases |a|
  {
    hide Applied;
    if |a| == 0 {
      assert a + b == b;
    } else {
      assert (a + b)[1..] == a[1..] + b;
      if Applied(d, m, a[0]).Some? { AppliedAppend(d, Applied(d, m, a[0]).value, a[1..], b); }
    }
  }

  lemma StoreTwice(d: Desc, m: Message, i: nat, a: seq<Elem>, b: seq<Elem>)
    requires i < |d.fields| && i < |m.slots|
    ensures Store(d, Store(d, m, i, Rep(a)), i, Rep(b)) == Store(d, m, i, Rep(b))
  {
    hide DefaultSlot;
    assert Store(d, Store(d, m, i, Rep(a)), i, Rep(b)).slots == Store(d, m, i, Rep(b)).slots;
  }

  /** Numbers one by one do what they do in one packed piece. */
  lemma {:induction false} OnesArePacked(d: Desc, m: Message, i: nat, vs: seq<int>)
    requires i < |d.fields| && i < |m.slots| && d.fields[i].rule.Repeated? && m.slots[i].Rep?
    ensures AppliedAll(d, m, Ones(i, vs)) == Applied(d, m, Packed(i, vs))
    decreases |vs|
  {
    hide Stored;
    var f, es := d.fields[i], m.slots[i].es;
    StoredLength(f.ltype, vs);
    if |vs| == 0 {
      StoreIs(d, m, i, Rep(es + []));
      assert es + [] == es && m.slots[i := Rep(es)] == m.slots;
    } else {
      assert Ones(i, vs)[0] == One(i, Number(vs[0])) && Ones(i, vs)[1..] == Ones(i, vs[1..]);
      if Stored(f.ltype, vs[0]).Some? && |es| < f.arraySize {
        var e := Num(Stored(f.ltype, vs[0]).value);
        var m' := Store(d, m, i, Rep(es + [e]));
        StoreIs(d, m, i, Rep(es + [e]));
        OnesArePacked(d, m', i, vs[1..]);
        assert m'.slots[i] == Rep(es + [e]) && Applied(d, m, One(i, Number(vs[0]))) == Some(m');
        assert AppliedAll(d, m, Ones(i, vs)) == Applied(d, m', Packed(i, vs[1..]));
        assert StoredAll(f.ltype, vs).Some? <==> StoredAll(f.ltype, vs[1..]).Some?;
        if StoredAll(f.ltype, vs[1..]).Some? {
          var more := StoredAll(f.ltype, vs[1..]).value;
          assert es + [e] + more == es + ([e] + more);
          StoreTwice(d, m, i, es + [e], es + ([e] + more));
        }
      } else {
        assert Applied(d, m, One(i, Number(vs[0]))) == None && Applied(d, m, Packed(i, vs)) == None;
      }
    }
  }

  /** The same records with every packed array sent one by one, in submessages too. */
  function Spread(r: Rec): seq<Rec>
    decreases r, 1
  {
    match r
    case One(i, v) => [One(i, if v.Sub? then Sub(SpreadAll(v.rs)) else v)]
    case Packed(i, vs) => Ones(i, vs)
    case Other(_) => [r]
  }

  function SpreadAll(rs: seq<Rec>): seq<Rec>
    decreases rs, 2
  {
    if |rs| == 0 then [] else Spread(rs[0]) + SpreadAll(rs[1..])
  }

  lemma {:induction false} SpreadComes(rs: seq<Rec>, d: Desc, i: nat)
    requires IsRequired(d, i) && TreeOk(d, rs)
    ensures Comes(SpreadAll(rs), i) <==> Comes(rs, i)
    decreases |rs|
  {
    hide IsRequired;
    if |rs| > 0 {
      SpreadComes(rs[1..], d, i);
      ComesAppend(Spread(rs[0]), SpreadAll(rs[1..]), i);
      ComesAppend([rs[0]], rs[1..], i);
      assert [rs[0]] + rs[1..] == rs;
      SpreadOneComes(rs[0], d, i);
    }
  }

  lemma SpreadOneComes(r: Rec, d: Desc, i: nat)
    requires IsRequired(d, i) && RecOk(d, r)
    ensures Comes(Spread(r), i) <==> Comes([r], i)
  {
    assert [r][0] == r;
    match r
    case One(j, v) => assert Spread(r)[0].One? && Spread(r)[0].i == j;
    case Packed(j, vs) =>
    case Other(_) =>
  }

  lemma ComesAppend(a: seq<Rec>, b: seq<Rec>, i: nat)
    ensures Comes(a + b, i) <==> Comes(a, i) || Comes(b, i)
  {
    if Comes(a, i) {
      var k :| 0 <= k < |a| && a[k].One? && a[k].i == i;
      assert (a + b)[k] == a[k];
    }
    if Comes(b, i) {
      var k :| 0 <= k < |b| && b[k].One? && b[k].i == i;
      assert (a + b)[|a| + k] == b[k];
    }
  }

  lemma SpreadValue(t: LType, prior: Elem, v: Val)
    requires ValOk(t, v) && PriorShaped(t, prior)
    ensures Value(t, prior, if v.Sub? then Sub(SpreadAll(v.rs)) else v) == Value(t, prior, v)
    decreases t, 0
  {
    if v.Sub? {
      DefaultDeep(t.desc);
      SpreadMeans(t.desc, if prior.Msg? then prior.m else Default(t.desc), v.rs);
    }
    hide Meaning, DeepShaped, DescOk, SpreadAll;
  }

  lemma SpreadRec(d: Desc, m: Message, r: Rec)
    requires DeepShaped(d, m) && RecOk(d, r)
    ensures AppliedAll(d, m, Spread(r)) == Applied(d, m, r)
    decreases d, 1
  {
    match r
    case Other(_) => AppliedOne(d, m, r);
    case Packed(i, vs) =>
      FitsRule(d, m, i);
      hide DeepShaped;
      OnesArePacked(d, m, i, vs);
    case One(i, v) =>
      var f, s := d.fields[i], m.slots[i];
      InitialDeep(f);
      var prior := if s.Rep? || (s.Choice? && !s.present) then Zero(f.ltype) else s.e;
      SpreadValue(f.ltype, prior, v);
      var v' := if v.Sub? then Sub(SpreadAll(v.rs)) else v;
      AppliedOne(d, m, One(i, v'));
      hide DeepShaped, Value, Store, Zero, SpreadAll, ValOk, PriorShaped;
  }

  lemma AppliedOne(d: Desc, m: Message, r: Rec)
    ensures AppliedAll(d, m, [r]) == Applied(d, m, r)
  {
    hide Applied;
  }

  lemma {:induction false} SpreadTree(d: Desc, m: Message, rs: seq<Rec>)
    requires DeepShaped(d, m) && TreeOk(d, rs)
    ensures AppliedAll(d, m, SpreadAll(rs)) == AppliedAll(d, m, rs)
    decreases d, 2, |rs|
  {
    hide DeepShaped, Applied, RecOk, Spread;
    if |rs| > 0 {
      SpreadRec(d, m, rs[0]);
      AppliedAppend(d, m, Spread(rs[0]), SpreadAll(rs[1..]));
      if Applied(d, m, rs[0]).Some? {
        AppliedDeep(d, m, rs[0]);
        SpreadTree(d, Applied(d, m, rs[0]).value, rs[1..]);
      }
    }
  }

  /** Packing means nothing: one by one, the records mean what they did. */
  lemma SpreadMeans(d: Desc, m: Message, rs: seq<Rec>)
    requires DeepShaped(d, m) && TreeOk(d, rs)
    ensures Meaning(d, m, SpreadAll(rs)) == Meaning(d, m, rs)
    decreases d, 3
  {
    SpreadTree(d, m, rs);
    forall i: nat | i < |d.fields| && Tracked(d, i) ensures Comes(SpreadAll(rs), i) <==> Comes(rs, i) {
      SpreadComes(rs, d, i);
    }
    hide DeepShaped, TreeOk, AppliedAll, SpreadAll, Comes, Tracked;
  }

  /** pb_decode gives the same message whether arrays arrive packed or one by one. */
  lemma UnpackedDecodesSame(d: Desc, rs: seq<Rec>)
    requires DescOk(d) && Growing(d) && TreeOk(d, rs) && TreeOk(d, SpreadAll(rs))
    ensures Decode(d, TreeBytes(d, SpreadAll(rs))) == Decode(d, TreeBytes(d, rs))
  {
    DefaultDeep(d);
    DecodeRecords(d, rs);
    DecodeRecords(d, SpreadAll(rs));
    SpreadMeans(d, Default(d), rs);
  }
}
