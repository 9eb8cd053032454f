/** When pb_decode notices that a required field is missing: its set of seen fields has room for 64. */
module PbRequired {
  import opened Common
  import opened PbVarint
  import opened PbModel
  import opened PbRoundTrip
  import opened PbCompose
  import opened PbSize

  // ----- the fields a run of the decoder has met -----

  /** The field the next tag belongs to, or the number of fields. */
  function FieldOf(d: Desc, b: seq<byte>): nat {
    if ReadVarint32(b).Ok? then FindField(d.fields, ReadVarint32(b).value / 8, 0) else |d.fields|
  }

  /** Every field that the decoding loop reads from b, however many there are. */
  ghost function Decoded(d: Desc, st: State, b: seq<byte>): set<nat>
    decreases |b|
  {
    if |b| == 0 || ReadRecord(d, st, b).Fail? then {}
    else {FieldOf(d, b)} + Decoded(d, ReadRecord(d, st, b).value, ReadRecord(d, st, b).rest)
  }

  predicate IsRequired(d: Desc, i: nat) { i < |d.fields| && d.fields[i].rule.Required? }

  /** Required and among the first 64 that are. */
  predicate Tracked(d: Desc, i: nat) { IsRequired(d, i) && RequiredBefore(d, i) < MAX_REQUIRED }

  ghost predicate AllRequired(d: Desc, m: Message, b: seq<byte>) {
    forall i: nat | IsRequired(d, i) :: i in Decoded(d, State(m, {}, NoTrack), b)
  }

  /** A message as the C struct of the descriptor holds it, as far as required fields go. */
  ghost predicate Shaped(d: Desc, m: Message) {
    |m.slots| == |d.fields| && forall i: nat | IsRequired(d, i) :: m.slots[i].Single?
  }

  // ----- the set of seen fields -----

  lemma FieldSeen(d: Desc, st: State, i: nat, wireType: nat, b: seq<byte>)
    requires Shaped(d, st.m) && i < |d.fields| && ReadField(d, st, i, wireType, b).Ok?
    ensures var st' := ReadField(d, st, i, wireType, b).value;
            Shaped(d, st'.m) && st'.seen == if Tracked(d, i) then st.seen + {i} else st.seen
  {
    hide ReadElem, ReadArray, RequiredBefore, Zero, Retrack;
  }

  lemma RecordSeen(d: Desc, st: State, b: seq<byte>)
    requires Shaped(d, st.m) && ReadRecord(d, st, b).Ok?
    ensures var st' := ReadRecord(d, st, b).value;
            Shaped(d, st'.m) && st'.seen == if Tracked(d, FieldOf(d, b)) then st.seen + {FieldOf(d, b)} else st.seen
  {
    var t, rest := ReadVarint32(b).value, ReadVarint32(b).rest;
    if FieldOf(d, b) < |d.fields| { FieldSeen(d, st, FieldOf(d, b), t % 8, rest); }
    hide ReadField, Skip, Shaped, ReadVarint32, FindField, RequiredBefore;
  }

  /** What the loop has marked as seen are the tracked fields it has decoded. */
  lemma {:induction false} SeenIsDecoded(d: Desc, st: State, b: seq<byte>)
    requires Shaped(d, st.m) && ReadAll(d, st, b).Some?
    ensures forall i: nat ::
              i in ReadAll(d, st, b).value.seen <==> i in st.seen || (Tracked(d, i) && i in Decoded(d, st, b))
    decreases |b|
  {
    hide ReadRecord, Shaped, FieldOf, Tracked;
    if |b| > 0 {
      RecordSeen(d, st, b);
      SeenIsDecoded(d, ReadRecord(d, st, b).value, ReadRecord(d, st, b).rest);
    }
  }

  /** Decoding succeeds exactly when the loop does, the last fixed-count array is complete, and every
      tracked required field was decoded. */
  lemma DecodeChecks(d: Desc, m: Message, b: seq<byte>)
    requires Shaped(d, m)
    ensures var r := ReadAll(d, State(m, {}, NoTrack), b);
            DecodeFrom(d, m, b).Some? <==>
              && r.Some? && (r.value.track.Track? ==> r.value.track.size == r.value.track.total)
              && forall i: nat | Tracked(d, i) :: i in Decoded(d, State(m, {}, NoTrack), b)
  {
    var st := State(m, {}, NoTrack);
    if ReadAll(d, st, b).Some? {
      SeenIsDecoded(d, st, b);
      FinishedTracked(d, ReadAll(d, st, b).value);
    }
    hide ReadAll, Decoded, Tracked, Finished;
  }

  lemma FinishedTracked(d: Desc, st: State)
    ensures Finished(d, st)
            <==> (st.track.Track? ==> st.track.size == st.track.total) && forall i: nat | Tracked(d, i) :: i in st.seen
  {
    hide RequiredBefore;
    if forall i: nat | Tracked(d, i) :: i in st.seen {
      forall i | 0 <= i < |d.fields| && d.fields[i].rule.Required? && RequiredBefore(d, i) < MAX_REQUIRED
        ensures i in st.seen {
        assert Tracked(d, i);
      }
    }
  }

  lemma DefaultShaped(d: Desc)
    ensures Shaped(d, Default(d))
  {
    hide Initial;
  }

  // ----- counting required fields -----

  lemma {:induction false} CountGrows(d: Desc, i: nat, j: nat)
    requires i <= j <= |d.fields|
    ensures RequiredBefore(d, i) <= RequiredBefore(d, j)
    decreases j
  {
    if i < j { CountGrows(d, i, j - 1); }
  }

  /** With at most 64 of them, every required field is tracked. */
  lemma FewAreTracked(d: Desc, i: nat)
    requires RequiredBefore(d, |d.fields|) <= MAX_REQUIRED && IsRequired(d, i)
    ensures Tracked(d, i)
  {
    CountGrows(d, i + 1, |d.fields|);
  }

  /** With more, some required field is not. */
  lemma {:induction false} UntrackedExists(d: Desc, n: nat) returns (k: nat)
    requires n <= |d.fields| && RequiredBefore(d, n) > MAX_REQUIRED
    ensures IsRequired(d, k) && !Tracked(d, k)
    decreases n
  {
    if RequiredBefore(d, n - 1) > MAX_REQUIRED { k := UntrackedExists(d, n - 1); } else { k := n - 1; }
  }

  // ----- leaving out a field that is not tracked -----

  /** The same but for the value of required field k. */
  ghost predicate Alike(k: nat, st: State, st': State) {
    && st.seen == st'.seen && st.track == st'.track && k < |st.m.slots| == |st'.m.slots|
    && st.m.slots[k].Single? && st'.m.slots[k].Single?
    && forall j | 0 <= j < |st.m.slots| && j != k :: st.m.slots[j] == st'.m.slots[j]
  }

  /** Reading another field neither uses nor changes field k. */
  lemma FieldAlike(d: Desc, k: nat, st: State, st': State, i: nat, wireType: nat, b: seq<byte>)
    requires IsRequired(d, k) && Alike(k, st, st') && i < |d.fields| && i != k && ReadField(d, st, i, wireType, b).Ok?
    ensures var r, r' := ReadField(d, st, i, wireType, b), ReadField(d, st', i, wireType, b);
            r'.Ok? && r'.rest == r.rest && Alike(k, r.value, r'.value)
  {
    hide ReadElem, ReadArray, RequiredBefore, Zero, Retrack, DefaultSlot;
    assert st.m.slots[i] == st'.m.slots[i];
  }

  lemma FieldUntracked(d: Desc, k: nat, st: State, wireType: nat, b: seq<byte>)
    requires IsRequired(d, k) && !Tracked(d, k) && Alike(k, st, st) && ReadField(d, st, k, wireType, b).Ok?
    ensures Alike(k, ReadField(d, st, k, wireType, b).value, st)
  {
    hide ReadElem, ReadArray, RequiredBefore, Zero;
  }

  lemma RecordAlike(d: Desc, k: nat, st: State, st': State, b: seq<byte>)
    requires IsRequired(d, k) && Alike(k, st, st') && FieldOf(d, b) != k && ReadRecord(d, st, b).Ok?
    ensures var r, r' := ReadRecord(d, st, b), ReadRecord(d, st', b);
            r'.Ok? && r'.rest == r.rest && Alike(k, r.value, r'.value)
  {
    var t, rest := ReadVarint32(b).value, ReadVarint32(b).rest;
    if FieldOf(d, b) < |d.fields| { FieldAlike(d, k, st, st', FieldOf(d, b), t % 8, rest); }
    hide ReadField, Skip, Alike, ReadVarint32, FindField;
  }

  lemma RecordUntracked(d: Desc, k: nat, st: State, b: seq<byte>)
    requires IsRequired(d, k) && !Tracked(d, k) && Alike(k, st, st) && FieldOf(d, b) == k && ReadRecord(d, st, b).Ok?
    ensures Alike(k, ReadRecord(d, st, b).value, st)
  {
    FieldUntracked(d, k, st, ReadVarint32(b).value % 8, ReadVarint32(b).rest);
    hide ReadField, Skip, Alike, ReadVarint32, FindField;
  }

  /** The input without the values of field k. */
  ghost function Drop(d: Desc, k: nat, st: State, b: seq<byte>): seq<byte>
    requires ReadAll(d, st, b).Some?
    decreases |b|
  {
    if |b| == 0 then []
    else
      var r := ReadRecord(d, st, b);
      (if FieldOf(d, b) == k then [] else Used(b, r.rest)) + Drop(d, k, r.value, r.rest)
  }

  lemma FieldOfLocal(d: Desc, st: State, b: seq<byte>, c: seq<byte>)
    requires ReadRecord(d, st, b).Ok?
    ensures FieldOf(d, Used(b, ReadRecord(d, st, b).rest) + c) == FieldOf(d, b)
  {
    var rest, left := ReadVarint32(b).rest, ReadRecord(d, st, b).rest;
    var t, i := ReadVarint32(b).value, FieldOf(d, b);
    if i < |d.fields| { FieldLocal(d, st, i, t % 8, rest, c); } else { SkipLocal(t % 8, rest, c); }
    ReadVarint32Local(b, Used(rest, left) + c);
    UsedBoth(b, rest, left, c);
    hide ReadVarint32, ReadField, Skip, FindField, Suffix, Used;
  }

  /** What is left of an accepted input is still accepted, and has no value for field k. */
  lemma {:induction false} DropAccepted(d: Desc, k: nat, st: State, st': State, b: seq<byte>)
    requires IsRequired(d, k) && !Tracked(d, k) && Alike(k, st, st') && ReadAll(d, st, b).Some?
    ensures var b' := Drop(d, k, st, b);
            && ReadAll(d, st', b').Some? && Alike(k, ReadAll(d, st, b).value, ReadAll(d, st', b').value)
            && k !in Decoded(d, st', b')
    decreases |b|
  {
    if |b| > 0 {
      var r := ReadRecord(d, st, b);
      var left := Drop(d, k, r.value, r.rest);
      if FieldOf(d, b) == k {
        RecordUntracked(d, k, st, b);
        DropAccepted(d, k, r.value, st', r.rest);
        assert [] + left == left;
      } else {
        RecordAlike(d, k, st, st', b);
        var r' := ReadRecord(d, st', b);
        DropAccepted(d, k, r.value, r'.value, r.rest);
        DropKept(d, k, st', b, left);
      }
    }
  }

  /** One record in front of what is accepted. */
  lemma DropKept(d: Desc, k: nat, st: State, b: seq<byte>, c: seq<byte>)
    requires ReadRecord(d, st, b).Ok? && FieldOf(d, b) != k
    ensures var r := ReadRecord(d, st, b);
            && ReadAll(d, st, Used(b, r.rest) + c) == ReadAll(d, r.value, c)
            && (k in Decoded(d, st, Used(b, r.rest) + c) <==> k in Decoded(d, r.value, c))
  {
    RecordLocal(d, st, b, c);
    FieldOfLocal(d, st, b, c);
    hide ReadRecord, FieldOf;
  }

  // ----- the guarantee -----

  /** No input that is accepted lacks a required field. */
  ghost predicate Guaranteed(d: Desc) {
    forall b: seq<byte> :: Decode(d, b).Some? ==> AllRequired(d, Default(d), b)
  }

  ghost predicate AcceptsSome(d: Desc) {
    exists b: seq<byte> :: Decode(d, b).Some?
  }

  /** pb_decode notices every missing required field exactly when there are at most 64 of them, for any
      descriptor that has an acceptable input at all. */
  lemma RequiredGuarantee(d: Desc)
    ensures Guaranteed(d) <==> RequiredBefore(d, |d.fields|) <= MAX_REQUIRED || !AcceptsSome(d)
  {
    if RequiredBefore(d, |d.fields|) <= MAX_REQUIRED {
      forall b: seq<byte> | Decode(d, b).Some? ensures AllRequired(d, Default(d), b) { FewAreDecoded(d, b); }
    } else if AcceptsSome(d) {
      var b: seq<byte> :| Decode(d, b).Some?;
      var k := UntrackedExists(d, |d.fields|);
      MissingAccepted(d, k, b);
    }
    hide Decode, AllRequired;
  }

  lemma FewAreDecoded(d: Desc, b: seq<byte>)
    requires RequiredBefore(d, |d.fields|) <= MAX_REQUIRED && Decode(d, b).Some?
    ensures AllRequired(d, Default(d), b)
  {
    DefaultShaped(d);
    DecodeChecks(d, Default(d), b);
    hide Decoded, DecodeFrom, Default, Tracked;
    forall i: nat | IsRequired(d, i) ensures i in Decoded(d, State(Default(d), {}, NoTrack), b) { FewAreTracked(d, i); }
  }

  /** Any accepted input is accepted without its values of a required field beyond the first 64. */
  lemma MissingAccepted(d: Desc, k: nat, b: seq<byte>)
    requires IsRequired(d, k) && !Tracked(d, k) && Decode(d, b).Some?
    ensures var b' := Drop(d, k, State(Default(d), {}, NoTrack), b);
            Decode(d, b').Some? && !AllRequired(d, Default(d), b')
  {
    var st := State(Default(d), {}, NoTrack);
    DefaultShaped(d);
    hide Default, Drop, ReadAll, Decoded, Tracked;
    DropAccepted(d, k, st, st, b);
    var b' := Drop(d, k, st, b);
    FinishedTracked(d, ReadAll(d, st, b).value);
    FinishedTracked(d, ReadAll(d, st, b').value);
    hide Finished;
  }

  /** So it does for every descriptor whose messages fit a length prefix by the generator's bound. */
  lemma RequiredGuaranteeSized(d: Desc)
    requires DescOk(d) && EnumsTyped(d) && MessageSize(d) < U32
    ensures Guaranteed(d) <==> RequiredBefore(d, |d.fields|) <= MAX_REQUIRED
  {
    RequiredGuarantee(d);
    BlankOk(d);
    MessageFits(d, Blank(d));
    SlotsShort(d, Blank(d), 0);
    MessageRoundTrip(d, Blank(d));
    hide Decode, MessageBytes, MessageSize, DescOk, WellTyped, Declared, Guaranteed, EnumsTyped;
    assert AcceptsSome(d);
  }

  // ----- a message of every descriptor -----

  /** The declared values of an enumeration fit its type. */
  predicate EnumTyped(t: LType)
    decreases t
  {
    match t
    case Varint(n, declared) => forall v | v in declared :: FitsSigned(n, v)
    case UVarint(n, declared) => forall v | v in declared :: 0 <= v < Pow2(8 * n)
    case Submessage(d) => EnumsTyped(d)
    case _ => true
  }

  predicate EnumsTyped(d: Desc)
    decreases d
  {
    forall i | 0 <= i < |d.fields| :: EnumTyped(d.fields[i].ltype)
  }

  function BlankNum(declared: seq<int>): int { if |declared| > 0 then declared[0] else 0 }

  function BlankElem(t: LType): Elem
    decreases t
  {
    match t
    case Varint(_, declared) => Num(BlankNum(declared))
    case UVarint(_, declared) => Num(BlankNum(declared))
    case Bytes(_) => Blob([])
    case Str(_) => Blob([])
    case FixedBytes(n) => Blob(seq(n, i => 0))
    case Submessage(d) => Msg(Blank(d))
    case _ => Num(0)
  }

  function BlankSlot(f: Field): Slot
    decreases f
  {
    match f.rule
    case Required => Single(BlankElem(f.ltype))
    case Optional(has) => if has then Opt(false, BlankElem(f.ltype)) else Single(BlankElem(f.ltype))
    case Repeated(fixed) => Rep(if fixed then seq(f.arraySize, i => BlankElem(f.ltype)) else [])
    case OneOf(_) => Choice(false, BlankElem(f.ltype))
  }

  /** A message with nothing in it that can be left out. */
  function Blank(d: Desc): (m: Message)
    ensures |m.slots| == |d.fields|
    decreases d
  {
    Message(seq(|d.fields|, i requires 0 <= i < |d.fields| => BlankSlot(d.fields[i])))
  }

  lemma BlankElemOk(t: LType)
    requires TypeOk(t) && EnumTyped(t)
    ensures ElemTyped(t, BlankElem(t)) && DeclaredElem(t, BlankElem(t)) && ElemBytes(t, BlankElem(t)).Some?
    decreases t
  {
    hide Base128, NumBytes, FitsSigned, Pow2;
    match t
    case Submessage(d) =>
      BlankOk(d);
      hide WellTyped, Declared, MessageBytes, Blank, DescOk, EnumsTyped;
    case Varint(n, declared) =>
      ZeroFits(n);
      assert |declared| > 0 ==> declared[0] in declared;
    case UVarint(n, declared) =>
      ZeroFits(n);
      assert |declared| > 0 ==> declared[0] in declared;
    case SVarint(n) => ZeroFits(n);
    case _ => ZeroFits(4);
  }

  lemma ZeroFits(n: nat)
    ensures FitsSigned(n, 0) && 0 < Pow2(8 * n) && 0 < Pow2(32) && 0 < Pow2(64)
  {
  }

  lemma {:induction false} SameRecords(f: Field, es: seq<Elem>)
    requires forall k | 0 <= k < |es| :: ElemBytes(f.ltype, es[k]).Some?
    ensures RecordAll(f, es).Some? && PackedBytes(f.ltype, es).Some?
    decreases |es|
  {
    hide ElemBytes, TagBytes;
    if |es| > 0 { SameRecords(f, es[1..]); }
  }

  lemma BlankSlotOk(hasDefaults: bool, f: Field)
    requires FieldOk(hasDefaults, f) && EnumTyped(f.ltype)
    ensures SlotTyped(f, BlankSlot(f)) && SlotBytes(hasDefaults, f, BlankSlot(f)).Some?
    decreases f
  {
    BlankElemOk(f.ltype);
    hide ElemTyped, ElemBytes, BlankElem, TagBytes, IsDefault, EnumTyped, TypeOk;
    if f.rule.Repeated? { SameRecords(f, BlankSlot(f).es); }
  }

  lemma BlankSlotDeclared(f: Field)
    requires TypeOk(f.ltype) && EnumTyped(f.ltype)
    ensures match BlankSlot(f)
            case Rep(es) => (forall k | 0 <= k < |es| :: DeclaredElem(f.ltype, es[k]))
            case Opt(has, e) => has ==> DeclaredElem(f.ltype, e)
            case Choice(present, e) => present ==> DeclaredElem(f.ltype, e)
            case Single(e) => DeclaredElem(f.ltype, e)
    decreases f
  {
    BlankElemOk(f.ltype);
    hide DeclaredElem, BlankElem;
  }

  /** It is well typed and can be encoded. */
  lemma BlankOk(d: Desc)
    requires DescOk(d) && EnumsTyped(d)
    ensures WellTyped(d, Blank(d)) && Declared(d, Blank(d)) && MessageBytes(d, Blank(d)).Some?
    decreases d
  {
    forall i | 0 <= i < |d.fields|
      ensures SlotTyped(d.fields[i], Blank(d).slots[i])
        && SlotBytes(d.hasDefaults, d.fields[i], Blank(d).slots[i]).Some?
    {
      assert FieldOk(d.hasDefaults, d.fields[i]) && EnumTyped(d.fields[i].ltype);
      BlankSlotOk(d.hasDefaults, d.fields[i]);
    }
    BlankAbsent(d);
    BlankDeclared(d);
    FieldsEncodable(d, Blank(d), 0);
  }

  lemma BlankAbsent(d: Desc)
    ensures forall i, g | 0 <= i < |d.fields| :: !Present(d.fields[i], Blank(d).slots[i], g)
  {
    hide BlankElem;
  }

  lemma BlankDeclared(d: Desc)
    requires DescOk(d) && EnumsTyped(d)
    ensures Declared(d, Blank(d))
    decreases d, 0
  {
    hide BlankSlot, DeclaredElem;
    forall i | 0 <= i < |d.fields| ensures FieldOk(d.hasDefaults, d.fields[i]) && EnumTyped(d.fields[i].ltype) {}
    forall i | 0 <= i < |d.fields| { BlankSlotDeclared(d.fields[i]); }
  }

  lemma {:induction false} FieldsEncodable(d: Desc, m: Message, i: nat)
    requires |m.slots| == |d.fields| && i <= |d.fields|
    requires forall j | 0 <= j < |d.fields| :: SlotBytes(d.hasDefaults, d.fields[j], m.slots[j]).Some?
    ensures FieldsBytes(d, m, i).Some?
    decreases |d.fields| - i
  {
    hide SlotBytes;
    if i < |d.fields| { FieldsEncodable(d, m, i + 1); }
  }

  // ----- an input that lacks a required field -----

  /** n required booleans. */
  function Flags(n: nat): Desc {
    Desc(seq(n, i requires 0 <= i < n => Field(i + 1, Required, Bool, 1, Num(0))), false)
  }

  /** The values of fields i to 63. */
  function FlagBytes(i: nat): seq<byte>
    decreases MAX_REQUIRED - i
  {
    if MAX_REQUIRED <= i then [] else TagBytes(i + 1, WT_VARINT) + ([0] + FlagBytes(i + 1))
  }

  lemma {:induction false} FlagsBefore(n: nat, i: nat)
    requires i <= n
    ensures RequiredBefore(Flags(n), i) == i
  {
    if i > 0 { FlagsBefore(n, i - 1); }
  }

  function Below(i: nat): (s: set<nat>)
    ensures forall j: nat :: j in s <==> j < i
  {
    if i == 0 then {} else Below(i - 1) + {i - 1}
  }

  function FlagState(n: nat, i: nat): State {
    State(Default(Flags(n)), Below(i), NoTrack)
  }

  lemma {:induction false} FlagsRead(n: nat, i: nat, last: nat)
    requires i <= last == MAX_REQUIRED <= n && n < MAX_TAG - 1
    ensures ReadAll(Flags(n), FlagState(n, i), FlagBytes(i)) == Some(FlagState(n, last))
    ensures forall j :: j in Decoded(Flags(n), FlagState(n, i), FlagBytes(i)) ==> j < last
    decreases last - i
  {
    hide FlagState, Flags, FlagBytes, ReadRecord, FieldOf;
    if i < last {
      FlagsStep(n, i);
      FlagsRead(n, i + 1, last);
      hide ReadAll, Decoded;
    } else {
      FlagsEnd(i);
    }
  }

  lemma FlagsStep(n: nat, i: nat)
    requires i < MAX_REQUIRED <= n && n < MAX_TAG - 1
    ensures ReadAll(Flags(n), FlagState(n, i), FlagBytes(i)) == ReadAll(Flags(n), FlagState(n, i + 1), FlagBytes(i + 1))
    ensures Decoded(Flags(n), FlagState(n, i), FlagBytes(i))
      == {i} + Decoded(Flags(n), FlagState(n, i + 1), FlagBytes(i + 1))
  {
    FlagRead(n, i, FlagBytes(i + 1));
    FlagBytesAre(i);
    hide ReadRecord, FlagState, Flags, TagBytes, FieldOf, FlagBytes;
  }

  lemma FlagsEnd(i: nat)
    requires MAX_REQUIRED <= i
    ensures FlagBytes(i) == []
  {
  }

  lemma FlagBytesAre(i: nat)
    requires i < MAX_REQUIRED
    ensures FlagBytes(i) == TagBytes(i + 1, WT_VARINT) + ([0] + FlagBytes(i + 1)) && |FlagBytes(i)| > 0
  {
  }

  lemma FlagRead(n: nat, i: nat, rest: seq<byte>)
    requires i < MAX_REQUIRED <= n && n < MAX_TAG - 1
    ensures var b := TagBytes(i + 1, WT_VARINT) + ([0] + rest);
            ReadRecord(Flags(n), FlagState(n, i), b) == Ok(FlagState(n, i + 1), rest) && FieldOf(Flags(n), b) == i
  {
    FlagsOk(n);
    var d, st := Flags(n), FlagState(n, i);
    TagRead(d, st, i, WT_VARINT, [0] + rest);
    Varint32RoundTrip((i + 1) * 8 + WT_VARINT, [0] + rest);
    FindExact(d, i, 0);
    FlagsBefore(n, i);
    FlagField(n, i, rest);
    hide ReadRecord, ReadField, ReadVarint32, FindField, DescOk, RequiredBefore, Base128, FlagState;
  }

  lemma FlagField(n: nat, i: nat, rest: seq<byte>)
    requires i < MAX_REQUIRED <= n && RequiredBefore(Flags(n), i) == i
    ensures ReadField(Flags(n), FlagState(n, i), i, WT_VARINT, [0] + rest) == Ok(FlagState(n, i + 1), rest)
  {
    hide RequiredBefore, ReadMore32;
    var st := FlagState(n, i);
    assert ReadVarint32([0] + rest) == Ok(0, rest);
    assert st.m.slots[i] == DefaultSlot(Flags(n).fields[i]) == Single(Num(0));
    assert st.m.slots[i := Single(Num(0))] == st.m.slots;
  }

  lemma FlagsOk(n: nat)
    requires n < MAX_TAG - 1
    ensures DescOk(Flags(n))
  {
  }

  /** With more than 64 required booleans, the first 64 alone are accepted, and the next one is missing. */
  lemma MissingFlagAccepted(n: nat)
    requires MAX_REQUIRED < n < MAX_TAG - 1
    ensures DescOk(Flags(n)) && Decode(Flags(n), FlagBytes(0)) == Some(Default(Flags(n)))
    ensures IsRequired(Flags(n), MAX_REQUIRED) && !AllRequired(Flags(n), Default(Flags(n)), FlagBytes(0))
  {
    hide Below, FlagBytes, DescOk, ReadAll, Finished, Default, Decoded;
    FlagsOk(n);
    FlagsRead(n, 0, MAX_REQUIRED);
    FlagsComplete(n);
    NothingBelow();
  }

  lemma NothingBelow()
    ensures Below(0) == {}
  {
  }

  lemma FlagsComplete(n: nat)
    ensures Finished(Flags(n), FlagState(n, MAX_REQUIRED))
  {
    hide Below;
    FinishedTracked(Flags(n), FlagState(n, MAX_REQUIRED));
    hide Finished, Default, Flags, RequiredBefore;
    forall i: nat | Tracked(Flags(n), i) ensures i in FlagState(n, MAX_REQUIRED).seen {
      FlagsLength(n);
      FlagsBefore(n, i);
    }
  }

  lemma FlagsLength(n: nat)
    ensures |Flags(n).fields| == n
  {
  }
}
