/** The static size bound nanopb_generator.py prints for a message is never exceeded by pb_encode. */
module PbSize {
  import opened Common
  import opened PbVarint
  import opened PbModel
  import opened PbRoundTrip

  // ----- the generator's arithmetic -----

  /** varint_max_size: the bytes a varint takes; a negative value counts as one beyond 64 bits. */
  function VarintMaxSize(v: int): nat { |Base128(if v < 0 then U64 - v else v)| }

  function Max(a: nat, b: nat): nat { if a >= b then a else b }

  /** Enum.encoded_size: the largest of the declared values. */
  function EnumSize(values: seq<int>): nat {
    if |values| == 0 then 0 else Max(VarintMaxSize(values[0]), EnumSize(values[1..]))
  }

  /** The encoded size of an integer of so many bytes. */
  function IntSize(size: nat): nat {
    if size == 1 then 2 else if size == 2 then 3 else if size == 4 then 5 else 10
  }

  /** The largest encoding of one element, without its tag. */
  function ElemSize(t: LType): nat
    decreases t, 0
  {
    match t
    case Bool => 1
    case Varint(_, declared) => if |declared| > 0 then EnumSize(declared) else 10
    case UVarint(size, declared) => if |declared| > 0 then EnumSize(declared) else IntSize(size)
    case SVarint(size) => IntSize(size)
    case Fixed32 => 4
    case Fixed64 => 8
    case Bytes(cap) => VarintMaxSize(cap) + cap
    case Str(dataSize) => VarintMaxSize(dataSize) + if dataSize == 0 then 0 else dataSize - 1
    case FixedBytes(n) => VarintMaxSize(n) + n
    case Submessage(d) => MessageSize(d) + VarintMaxSize(MessageSize(d))
  }

  /** Field.encoded_size. */
  function FieldSize(f: Field): nat
    decreases f, 1
  {
    var one := ElemSize(f.ltype) + VarintMaxSize(f.tag * 8);
    if f.rule.Repeated? then one * f.arraySize + (if f.arraySize == 1 then 1 else 0) else one
  }

  /** OneOf.encoded_size: the largest member from number i on. */
  function GroupSize(d: Desc, group: nat, i: nat): nat
    decreases d, 2, |d.fields| - i
  {
    if i >= |d.fields| then 0
    else Max(if d.fields[i].rule == OneOf(group) then FieldSize(d.fields[i]) else 0, GroupSize(d, group, i + 1))
  }

  predicate FirstOfGroup(d: Desc, i: nat)
    requires i < |d.fields|
  {
    d.fields[i].rule.OneOf? && forall j | 0 <= j < i :: d.fields[j].rule != d.fields[i].rule
  }

  /** Message.encoded_size: the sum over the fields from number i on, each oneof counted once. */
  function SizeFrom(d: Desc, i: nat): nat
    decreases d, 3, |d.fields| - i
  {
    if i >= |d.fields| then 0
    else
      (if !d.fields[i].rule.OneOf? then FieldSize(d.fields[i])
       else if FirstOfGroup(d, i) then GroupSize(d, d.fields[i].rule.group, 0)
       else 0)
      + SizeFrom(d, i + 1)
  }

  function MessageSize(d: Desc): nat
    decreases d, 4
  {
    SizeFrom(d, 0)
  }

  // ----- values the bound is for -----

  /** Every enumeration that is sent has one of its declared values. */
  predicate DeclaredElem(t: LType, e: Elem)
    decreases t
  {
    match t
    case Varint(_, declared) => |declared| > 0 && e.Num? ==> e.v in declared
    case UVarint(_, declared) => |declared| > 0 && e.Num? ==> e.v in declared
    case Submessage(d) => e.Msg? ==> Declared(d, e.m)
    case _ => true
  }

  predicate Declared(d: Desc, m: Message)
    decreases d
  {
    forall i | 0 <= i < |d.fields| && i < |m.slots| ::
      match m.slots[i]
      case Rep(es) => (forall k | 0 <= k < |es| :: DeclaredElem(d.fields[i].ltype, es[k]))
      case Opt(has, e) => has ==> DeclaredElem(d.fields[i].ltype, e)
      case Choice(present, e) => present ==> DeclaredElem(d.fields[i].ltype, e)
      case Single(e) => DeclaredElem(d.fields[i].ltype, e)
  }

  // ----- varint lengths -----

  lemma {:induction false} LengthMonotone(a: nat, b: nat)
    requires a <= b
    ensures |Base128(a)| <= |Base128(b)|
    decreases b
  {
    if b >= 128 && a >= 128 { LengthMonotone(a / 128, b / 128); }
  }

  /** The wire type does not change the length of a tag. */
  lemma TagLength(tag: nat, wireType: nat)
    requires wireType < 8
    ensures |TagBytes(tag, wireType)| == VarintMaxSize(tag * 8)
  {
    if tag >= 16 { assert (tag * 8 + wireType) / 128 == tag * 8 / 128; }
  }

  lemma {:induction false} LengthBelow(v: nat, k: nat)
    requires v < Pow2(7 * k) && k > 0
    ensures |Base128(v)| <= k
    decreases k
  {
    if v >= 128 {
      if k == 1 {
        Pow2Seven(0);
      } else {
        Pow2Seven(7 * (k - 1));
        hide Pow2;
        Cancel(v / 128, Pow2(7 * (k - 1)), 128);
        LengthBelow(v / 128, k - 1);
      }
    }
  }

  lemma {:induction false} LengthLinear(v: nat)
    ensures |Base128(v)| <= 1 + v / 128
    decreases v
  {
    if v >= 128 { LengthLinear(v / 128); }
  }

  lemma {:induction false} EnumSizeCovers(values: seq<int>, v: int)
    requires v in values
    ensures VarintMaxSize(v) <= EnumSize(values)
    decreases |values|
  {
    hide Base128;
    if v != values[0] {
      assert v in values[1..];
      EnumSizeCovers(values[1..], v);
    }
  }

  // ----- elements -----

  lemma Pow2Lengths()
    ensures 128 == Pow2(7) && 0x4000 == Pow2(14) && 0x20_0000 == Pow2(21) && 0x8_0000_0000 == Pow2(35)
      && U64 <= Pow2(70)
  {
    Pow2Words();
    hide Pow2;
    Pow2Add(7, 7);
    Pow2Add(14, 7);
    Pow2Add(32, 3);
    assert Pow2(3) == 8 by { Pow2Eight(); }
    Pow2Add(64, 6);
  }

  lemma Pow2Eight()
    ensures Pow2(3) == 8
  {
  }

  /** No 64-bit value takes more than ten bytes. */
  lemma TenBytes(v: nat)
    requires v < U64
    ensures |Base128(v)| <= 10
  {
    Pow2Lengths();
    hide Pow2;
    LengthBelow(v, 10);
  }

  lemma Base128Small(v: nat)
    requires v < 128
    ensures |Base128(v)| == 1
  {
  }

  lemma IntFits(size: nat, v: nat)
    requires WordSize(size) && v < Pow2(8 * size)
    ensures |Base128(v)| <= IntSize(size)
  {
    Pow2Words();
    Pow2Lengths();
    hide Pow2, Base128;
    if size == 8 { TenBytes(v); } else { LengthBelow(v, IntSize(size)); }
  }

  lemma ZigZagFits(size: nat, v: int)
    requires WordSize(size) && FitsSigned(size, v)
    ensures ZigZag(v) < Pow2(8 * size)
  {
    Pow2Words();
    hide Pow2;
  }

  lemma UnsignedFits(size: nat, v: nat)
    requires WordSize(size) && v < Pow2(8 * size)
    ensures v < U64 && Unsigned64(v) == v
  {
    Pow2Words();
    hide Pow2;
  }

  lemma SignedEnumFits(size: nat, declared: seq<int>, v: int)
    requires WordSize(size) && FitsSigned(size, v) && v in declared
    ensures |Base128(Unsigned64(v))| <= EnumSize(declared)
  {
    SignedRoundTrip(size, v);
    EnumSizeCovers(declared, v);
    if v < 0 {
      assert Unsigned64(v) == v + U64;
      LengthMonotone(v + U64, U64 - v);
    }
  }

  lemma NumFits(t: LType, v: int)
    requires Packable(t) && TypeOk(t) && NumTyped(t, v) && DeclaredElem(t, Num(v))
    ensures |NumBytes(t, v)| <= ElemSize(t)
    ensures |NumBytes(t, v)| <= 10
  {
    hide Base128, Pow2, FitsSigned, IntSize;
    match t
    case Bool => Base128Small(v);
    case UVarint(n, declared) =>
      UnsignedFits(n, v);
      TenBytes(v);
      if |declared| > 0 { EnumSizeCovers(declared, v); } else { IntFits(n, v); }
    case Varint(n, declared) =>
      TenBytes(Unsigned64(v));
      if |declared| > 0 { SignedEnumFits(n, declared, v); }
    case SVarint(n) =>
      ZigZagFits(n, v);
      IntFits(n, ZigZag(v));
      UnsignedFits(n, ZigZag(v));
      TenBytes(ZigZag(v));
    case Fixed32 =>
    case Fixed64 =>
  }

  lemma DelimitedFits(b: seq<byte>, cap: nat)
    requires |b| <= cap
    ensures |Delimited(b)| <= VarintMaxSize(cap) + cap
  {
    LengthMonotone(|b|, cap);
  }

  lemma ElemFits(t: LType, e: Elem)
    requires TypeOk(t) && ElemTyped(t, e) && DeclaredElem(t, e) && ElemBytes(t, e).Some?
    ensures |ElemBytes(t, e).value| <= ElemSize(t)
    decreases t
  {
    if t.Submessage? {
      MessageFits(t.desc, e.m);
      DelimitedFits(MessageBytes(t.desc, e.m).value, MessageSize(t.desc));
    } else if Packable(t) {
      NumFits(t, e.v);
    } else {
      BlobFits(t, e);
    }
  }

  lemma BlobFits(t: LType, e: Elem)
    requires TypeOk(t) && ElemTyped(t, e) && !Packable(t) && !t.Submessage? && ElemBytes(t, e).Some?
    ensures |ElemBytes(t, e).value| <= ElemSize(t)
  {
    hide Base128, Delimited;
    match t
    case Bytes(cap) => DelimitedFits(e.b, cap);
    case Str(dataSize) =>
      DelimitedFits(e.b, dataSize - 1);
      LengthMonotone(dataSize - 1, dataSize);
    case FixedBytes(n) => DelimitedFits(e.b, n);
  }

  lemma RecordFits(f: Field, e: Elem)
    requires TypeOk(f.ltype) && ElemTyped(f.ltype, e) && DeclaredElem(f.ltype, e) && Record(f, e).Some?
    ensures |Record(f, e).value| <= ElemSize(f.ltype) + VarintMaxSize(f.tag * 8)
    decreases f, 0
  {
    ElemFits(f.ltype, e);
    TagLength(f.tag, WireType(f.ltype));
    hide ElemBytes, ElemSize, TagBytes, VarintMaxSize;
  }

  // ----- arrays -----

  lemma {:induction false} RecordsFit(f: Field, es: seq<Elem>)
    requires TypeOk(f.ltype) && RecordAll(f, es).Some?
    requires forall k | 0 <= k < |es| :: ElemTyped(f.ltype, es[k]) && DeclaredElem(f.ltype, es[k])
    ensures |RecordAll(f, es).value| <= |es| * (ElemSize(f.ltype) + VarintMaxSize(f.tag * 8))
    decreases f, 1, |es|
  {
    hide Record, ElemSize, VarintMaxSize, ElemTyped, DeclaredElem;
    if |es| > 0 {
      CatSome(Record(f, es[0]), RecordAll(f, es[1..]));
      RecordFits(f, es[0]);
      RecordsFit(f, es[1..]);
      Distribute(|es| - 1, 1, ElemSize(f.ltype) + VarintMaxSize(f.tag * 8));
    }
  }

  lemma {:induction false} PackedFits(t: LType, es: seq<Elem>)
    requires Packable(t) && TypeOk(t) && PackedBytes(t, es).Some?
    requires forall k | 0 <= k < |es| :: ElemTyped(t, es[k]) && DeclaredElem(t, es[k])
    ensures |PackedBytes(t, es).value| <= |es| * ElemSize(t)
    ensures |PackedBytes(t, es).value| <= 10 * |es|
    decreases |es|
  {
    hide NumBytes, ElemSize, NumTyped, TypeOk;
    if |es| > 0 {
      CatSome(ElemBytes(t, es[0]), PackedBytes(t, es[1..]));
      NumFits(t, es[0].v);
      PackedFits(t, es[1..]);
      Distribute(|es| - 1, 1, ElemSize(t));
    }
  }

  /** The length prefix of a packed array costs no more than the tags it saves, except for one element. */
  lemma PrefixPays(size: nat, n: nat)
    requires size <= 10 * n && n > 0
    ensures |Base128(size)| <= if n == 1 then 1 else n - 1
  {
    LengthLinear(size);
    hide Base128;
  }

  lemma ArrayFits(f: Field, es: seq<Elem>)
    requires f.rule.Repeated? && TypeOk(f.ltype) && f.tag > 0 && ArrayBytes(f, es).Some? && f.arraySize > 0
    requires forall k | 0 <= k < |es| :: ElemTyped(f.ltype, es[k]) && DeclaredElem(f.ltype, es[k])
    ensures |ArrayBytes(f, es).value| <= FieldSize(f)
    decreases f, 2
  {
    hide ElemTyped, DeclaredElem, ElemSize, VarintMaxSize, PackedBytes, RecordAll, TypeOk, Base128;
    if |es| == 0 {
      Monotone(0, f.arraySize, ElemSize(f.ltype) + VarintMaxSize(f.tag * 8));
    } else if Packable(f.ltype) {
      PackedArrayFits(f, es);
    } else {
      RecordsFit(f, es);
      Monotone(|es|, f.arraySize, ElemSize(f.ltype) + VarintMaxSize(f.tag * 8));
    }
  }

  lemma PackedArrayFits(f: Field, es: seq<Elem>)
    requires f.rule.Repeated? && TypeOk(f.ltype) && f.tag > 0 && ArrayBytes(f, es).Some? && f.arraySize > 0
    requires forall k | 0 <= k < |es| :: ElemTyped(f.ltype, es[k]) && DeclaredElem(f.ltype, es[k])
    requires Packable(f.ltype) && |es| > 0
    ensures |ArrayBytes(f, es).value| <= FieldSize(f)
  {
    var n, enc, tag := f.arraySize, ElemSize(f.ltype), VarintMaxSize(f.tag * 8);
    hide ElemTyped, DeclaredElem, ElemSize, VarintMaxSize, PackedBytes, RecordAll, TypeOk, Base128;
    var packed := PackedBytes(f.ltype, es).value;
    PackedFits(f.ltype, es);
    TagLength(f.tag, WT_STRING);
    PrefixPays(|packed|, n);
    Monotone(|es|, n, enc);
    PackedBelow(n, enc, tag, |packed|, |Base128(|packed|)|);
  }

  lemma PackedBelow(n: nat, enc: nat, tag: nat, size: nat, prefix: nat)
    requires n > 0 && tag > 0 && size <= n * enc && prefix <= if n == 1 then 1 else n - 1
    ensures tag + prefix + size <= (enc + tag) * n + (if n == 1 then 1 else 0)
  {
    Distribute(enc, tag, n);
    Distribute(n - 1, 1, tag);
    Monotone(1, tag, n - 1);
    assert enc * n == n * enc && tag * n == n * tag && tag * (n - 1) == (n - 1) * tag;
  }

  /** Whatever a field's value, its bytes fit the bound of the field. */
  lemma SlotFits(hasDefaults: bool, f: Field, s: Slot)
    requires FieldOk(hasDefaults, f) && SlotTyped(f, s) && SlotBytes(hasDefaults, f, s).Some?
    requires match s
             case Rep(es) => (forall k | 0 <= k < |es| :: DeclaredElem(f.ltype, es[k]))
             case Opt(has, e) => has ==> DeclaredElem(f.ltype, e)
             case Choice(present, e) => present ==> DeclaredElem(f.ltype, e)
             case Single(e) => DeclaredElem(f.ltype, e)
    ensures |SlotBytes(hasDefaults, f, s).value| <= if s.Choice? && !s.present then 0 else FieldSize(f)
    decreases f, 3
  {
    hide ElemTyped, DeclaredElem, ElemSize, VarintMaxSize, ArrayBytes, Record, IsDefault;
    match s
    case Rep(es) => ArrayFits(f, es);
    case Opt(has, e) => if has { RecordFits(f, e); }
    case Choice(present, e) => if present { RecordFits(f, e); }
    case Single(e) => if SlotBytes(hasDefaults, f, s) == Record(f, e) { RecordFits(f, e); }
  }

  // ----- oneofs -----

  /** The bound with only the oneofs of a set counted. */
  function SizeOf(d: Desc, groups: set<nat>, i: nat): nat
    decreases |d.fields| - i
  {
    if i >= |d.fields| then 0
    else
      (if !d.fields[i].rule.OneOf? then 0
       else if FirstOfGroup(d, i) && d.fields[i].rule.group in groups then GroupSize(d, d.fields[i].rule.group, 0)
       else 0)
      + SizeOf(d, groups, i + 1)
  }

  /** The fields from number i on that are in no oneof. */
  function PlainFrom(d: Desc, i: nat): nat
    decreases |d.fields| - i
  {
    if i >= |d.fields| then 0
    else (if d.fields[i].rule.OneOf? then 0 else FieldSize(d.fields[i])) + PlainFrom(d, i + 1)
  }

  /** Counting one more oneof adds its largest member. */
  lemma {:induction false} SizeOfAdd(d: Desc, groups: set<nat>, g: nat, i: nat, first: nat)
    requires g !in groups && i <= first < |d.fields| && d.fields[first].rule == OneOf(g) && FirstOfGroup(d, first)
    ensures SizeOf(d, groups + {g}, i) == SizeOf(d, groups, i) + GroupSize(d, g, 0)
    decreases |d.fields| - i
  {
    hide GroupSize;
    if i == first {
      SizeOfSame(d, groups, g, i + 1, first);
    } else {
      SizeOfAdd(d, groups, g, i + 1, first);
    }
  }

  lemma {:induction false} SizeOfSame(d: Desc, groups: set<nat>, g: nat, i: nat, first: nat)
    requires first < i && first < |d.fields| && d.fields[first].rule == OneOf(g)
    ensures SizeOf(d, groups + {g}, i) == SizeOf(d, groups, i)
    decreases |d.fields| - i
  {
    hide GroupSize;
    if i < |d.fields| { SizeOfSame(d, groups, g, i + 1, first); }
  }

  lemma {:induction false} SizeOfAll(d: Desc, groups: set<nat>, i: nat)
    ensures PlainFrom(d, i) + SizeOf(d, groups, i) <= SizeFrom(d, i)
    decreases |d.fields| - i
  {
    hide GroupSize, FieldSize, FirstOfGroup;
    if i < |d.fields| { SizeOfAll(d, groups, i + 1); }
  }

  lemma {:induction false} SizeOfNone(d: Desc, i: nat)
    ensures SizeOf(d, {}, i) == 0
    decreases |d.fields| - i
  {
    if i < |d.fields| { SizeOfNone(d, i + 1); }
  }

  /** The oneofs with a member present from field i on. */
  function PresentFrom(d: Desc, m: Message, i: nat): set<nat>
    decreases |d.fields| - i
  {
    if i >= |d.fields| || i >= |m.slots| then {}
    else
      (if d.fields[i].rule.OneOf? && Present(d.fields[i], m.slots[i], d.fields[i].rule.group)
        then {d.fields[i].rule.group} else {})
      + PresentFrom(d, m, i + 1)
  }

  lemma {:induction false} PresentMeans(d: Desc, m: Message, g: nat, i: nat)
    requires g in PresentFrom(d, m, i)
    ensures exists j :: i <= j < |d.fields| && j < |m.slots| && Present(d.fields[j], m.slots[j], g)
    decreases |d.fields| - i
  {
    if g in PresentFrom(d, m, i + 1) { PresentMeans(d, m, g, i + 1); }
  }

  lemma {:induction false} FirstExists(d: Desc, g: nat, i: nat) returns (first: nat)
    requires i < |d.fields| && d.fields[i].rule == OneOf(g)
    ensures first <= i && d.fields[first].rule == OneOf(g) && FirstOfGroup(d, first)
    decreases i
  {
    if j: nat :| j < i && d.fields[j].rule == OneOf(g) {
      first := FirstExists(d, g, j);
    } else {
      first := i;
    }
  }

  lemma {:induction false} GroupCovers(d: Desc, g: nat, i: nat, k: nat)
    requires k <= i < |d.fields| && d.fields[i].rule == OneOf(g)
    ensures FieldSize(d.fields[i]) <= GroupSize(d, g, k)
    decreases i - k
  {
    hide FieldSize;
    if k < i { GroupCovers(d, g, i, k + 1); }
  }

  /** The bytes of the fields from i on fit the plain fields and the oneofs that are present. */
  lemma {:induction false} FieldsFit(d: Desc, m: Message, i: nat)
    requires DescOk(d) && WellTyped(d, m) && Declared(d, m) && i <= |d.fields| && FieldsBytes(d, m, i).Some?
    ensures |FieldsBytes(d, m, i).value| <= PlainFrom(d, i) + SizeOf(d, PresentFrom(d, m, i), 0)
    decreases d, 1, |d.fields| - i
  {
    if i < |d.fields| {
      var f, s := d.fields[i], m.slots[i];
      assert FieldOk(d.hasDefaults, f) && SlotTyped(f, s);
      CatSome(SlotBytes(d.hasDefaults, f, s), FieldsBytes(d, m, i + 1));
      FieldsFit(d, m, i + 1);
      SlotFits(d.hasDefaults, f, s);
      hide SizeOf, FieldSize, DescOk, WellTyped, Declared, SlotBytes, SlotTyped;
      if f.rule.OneOf? && s.present {
        PresentAdds(d, m, i);
      } else {
        assert PresentFrom(d, m, i) == PresentFrom(d, m, i + 1);
      }
    }
  }

  lemma PresentAdds(d: Desc, m: Message, i: nat)
    requires WellTyped(d, m) && i < |d.fields| && d.fields[i].rule.OneOf?
      && Present(d.fields[i], m.slots[i], d.fields[i].rule.group)
    ensures SizeOf(d, PresentFrom(d, m, i), 0) >= SizeOf(d, PresentFrom(d, m, i + 1), 0) + FieldSize(d.fields[i])
  {
    var g := d.fields[i].rule.group;
    hide FieldSize, SizeOf, GroupSize;
    if g in PresentFrom(d, m, i + 1) {
      PresentMeans(d, m, g, i + 1);
      assert false;
    }
    var first := FirstExists(d, g, i);
    SizeOfAdd(d, PresentFrom(d, m, i + 1), g, 0, first);
    GroupCovers(d, g, i, 0);
    assert PresentFrom(d, m, i) == PresentFrom(d, m, i + 1) + {g};
  }

  /** The generator's bound holds for every message with declared enumeration values, although it is
      computed for unpacked arrays and the encoder packs them. */
  lemma MessageFits(d: Desc, m: Message)
    requires DescOk(d) && WellTyped(d, m) && Declared(d, m) && MessageBytes(d, m).Some?
    ensures |MessageBytes(d, m).value| <= MessageSize(d)
    decreases d, 2
  {
    FieldsFit(d, m, 0);
    SizeOfAll(d, PresentFrom(d, m, 0), 0);
  }
}
