/** For which descriptors the size bound of nanopb_generator.py is the best one: some message needs all of it. */
module PbTight {
  import opened Common
  import opened PbVarint
  import opened PbModel
  import opened PbRoundTrip
  import opened PbSize

  /** Types whose bound some value reaches: the field can hold the declared values of an enumeration, and a string
      does not get a longer length prefix for its final zero, which is not sent. */
  predicate TightType(t: LType)
    decreases t
  {
    match t
    case Varint(n, declared) => forall v | v in declared :: FitsSigned(n, v)
    case UVarint(n, declared) => forall v | v in declared :: 0 <= v < Pow2(8 * n)
    case Str(n) => 0 < n && VarintMaxSize(n) == VarintMaxSize(n - 1)
    case Submessage(d) => Tight(d)
    case _ => true
  }

  /** Singular fields, oneofs, arrays of at least two elements that are sent one by one, and packed arrays of one
      element, or of two when the tag is one byte. */
  predicate Tight(d: Desc)
    decreases d
  {
    forall i | 0 <= i < |d.fields| ::
      && TightType(d.fields[i].ltype)
      && match d.fields[i].rule
         case Required => true
         case Optional(has) => has
         case Repeated(_) => TightArray(d.fields[i])
         case OneOf(_) => true
  }

  predicate TightArray(f: Field) {
    if Packable(f.ltype) then f.arraySize == 1 || (f.arraySize == 2 && f.tag < 16) else f.arraySize >= 2
  }

  // ----- the largest message -----

  /** A declared value that takes as many bytes as any. */
  function LargestOf(values: seq<int>): (v: int)
    requires |values| > 0
    ensures v in values && VarintMaxSize(v) == EnumSize(values)
  {
    if |values| == 1 || VarintMaxSize(values[0]) >= EnumSize(values[1..]) then values[0] else LargestOf(values[1..])
  }

  function LargestNum(t: LType): int {
    match t
    case Bool => 1
    case UVarint(n, declared) => if |declared| > 0 then LargestOf(declared) else Pow2(8 * n) - 1
    case Varint(_, declared) => if |declared| > 0 then LargestOf(declared) else -1
    case SVarint(n) => 0 - SignedRange(n)
    case _ => 0
  }

  function LargestElem(t: LType): Elem
    decreases t, 0
  {
    match t
    case Bytes(cap) => Blob(Ones(cap))
    case Str(n) => Blob(Ones(if n == 0 then 0 else n - 1))
    case FixedBytes(n) => Blob(Ones(n))
    case Submessage(d) => Msg(Largest(d))
    case _ => Num(LargestNum(t))
  }

  function Ones(n: nat): (b: seq<byte>)
    ensures |b| == n && 0 !in b
  {
    seq(n, i => 1)
  }

  /** The largest member of a oneof from field i on, or the number of fields. */
  function Winner(d: Desc, group: nat, i: nat): (w: nat)
    requires i <= |d.fields|
    ensures i <= w <= |d.fields|
    decreases |d.fields| - i
  {
    if i == |d.fields| then i
    else if d.fields[i].rule == OneOf(group) && FieldSize(d.fields[i]) >= GroupSize(d, group, i + 1) then i
    else Winner(d, group, i + 1)
  }

  function Largest(d: Desc): (m: Message)
    ensures |m.slots| == |d.fields|
    decreases d, 1
  {
    Message(seq(|d.fields|, i requires 0 <= i < |d.fields| =>
      var f := d.fields[i];
      match f.rule
      case Required => Single(LargestElem(f.ltype))
      case Optional(_) => Opt(true, LargestElem(f.ltype))
      case Repeated(_) => Rep(seq(f.arraySize, k => LargestElem(f.ltype)))
      case OneOf(group) => Choice(Winner(d, group, 0) == i, LargestElem(f.ltype))))
  }

  // ----- numbers -----

  lemma {:induction false} LengthAbove(v: nat, k: nat)
    requires v >= Pow2(7 * k)
    ensures |Base128(v)| > k
    decreases k
  {
    if k > 0 {
      Pow2Seven(7 * (k - 1));
      hide Pow2;
      assert v / 128 >= Pow2(7 * (k - 1)) by { DivAtLeast(v, Pow2(7 * (k - 1))); }
      LengthAbove(v / 128, k - 1);
      assert v >= 128 by { AtMostProduct(128, Pow2(7 * (k - 1))); }
    }
  }

  lemma DivAtLeast(v: nat, p: nat)
    requires v >= 128 * p
    ensures v / 128 >= p
  {
  }

  /** The largest word of so many bytes takes as many bytes as the bound says. */
  lemma WordReaches(n: nat)
    requires WordSize(n)
    ensures |Base128(Pow2(8 * n) - 1)| == IntSize(n)
  {
    Pow2Words();
    Pow2Lengths();
    IntFits(n, Pow2(8 * n) - 1);
    hide Pow2, Base128;
    Pow2Add(28, 35);
    Pow2Add(21, 7);
    LengthAbove(Pow2(8 * n) - 1, IntSize(n) - 1);
  }

  lemma NumReaches(t: LType)
    requires Packable(t) && TypeOk(t) && TightType(t)
    ensures NumTyped(t, LargestNum(t)) && |NumBytes(t, LargestNum(t))| == ElemSize(t)
  {
    hide Base128, Pow2, Unsigned64, FitsSigned, SignedRange, IntSize, LittleEndian;
    match t
    case UVarint(n, declared) =>
      if |declared| > 0 { UnsignedFits(n, LargestOf(declared)); } else { UnsignedReaches(n); }
    case SVarint(n) => ZigZagReaches(n);
    case Varint(n, declared) =>
      if |declared| > 0 { SignedReaches(n, LargestOf(declared)); } else { MinusOneReaches(n); }
    case Bool => OneByte();
    case Fixed32 => ZeroFixed();
    case Fixed64 => ZeroFixed();
  }

  lemma OneByte()
    ensures Unsigned64(1) == 1 && |Base128(1)| == 1
  {
  }

  lemma ZeroFixed()
    ensures Pow2(32) > 0 && Pow2(64) > 0
  {
  }

  lemma UnsignedReaches(n: nat)
    requires WordSize(n)
    ensures 0 <= Pow2(8 * n) - 1 < Pow2(8 * n) && |Base128(Unsigned64(Pow2(8 * n) - 1))| == IntSize(n)
  {
    hide Base128, Pow2, Unsigned64;
    UnsignedFits(n, Pow2(8 * n) - 1);
    WordReaches(n);
  }

  lemma ZigZagReaches(n: nat)
    requires WordSize(n)
    ensures FitsSigned(n, 0 - SignedRange(n)) && |Base128(ZigZag(0 - SignedRange(n)))| == IntSize(n)
  {
    WordReaches(n);
    assert Pow2(8 * n) == 2 * Pow2(8 * n - 1);
    hide Base128, Pow2, IntSize;
    assert ZigZag(0 - SignedRange(n)) == Pow2(8 * n) - 1;
  }

  /** A negative number is sent as 64 bits whatever the size of its field. */
  lemma MinusOneReaches(n: nat)
    requires WordSize(n)
    ensures FitsSigned(n, -1) && |Base128(Unsigned64(-1))| == 10
  {
    WordReaches(8);
    Pow2Words();
    hide Base128, Pow2;
    assert Unsigned64(-1) == U64 - 1;
  }

  /** The bound of the generator for a declared value is what the value takes. */
  lemma SignedReaches(n: nat, v: int)
    requires WordSize(n) && FitsSigned(n, v)
    ensures |Base128(Unsigned64(v))| == VarintMaxSize(v)
  {
    SignedRoundTrip(n, v);
    Pow2Values();
    Pow2Seven(63);
    hide Base128, Pow2;
    if v < 0 {
      assert Unsigned64(v) == v + U64;
      LengthAbove(v + U64, 9);
      LengthAbove(U64 - v, 9);
      LengthBelow(v + U64, 10);
      LengthBelow(U64 - v, 10);
    }
  }

  // ----- elements, fields, messages -----

  lemma ElemReaches(t: LType)
    requires TypeOk(t) && TightType(t)
    ensures ElemTyped(t, LargestElem(t)) && ElemBytes(t, LargestElem(t)).Some?
    ensures |ElemBytes(t, LargestElem(t)).value| == ElemSize(t)
    decreases t, 0
  {
    if Packable(t) {
      NumReaches(t);
      hide NumBytes, NumTyped;
    } else if t.Submessage? {
      MessageReaches(t.desc);
      hide WellTyped, MessageBytes, Base128;
    } else {
      hide Base128;
    }
  }

  lemma RecordReaches(f: Field)
    requires TypeOk(f.ltype) && TightType(f.ltype)
    ensures Record(f, LargestElem(f.ltype)).Some?
    ensures |Record(f, LargestElem(f.ltype)).value| == ElemSize(f.ltype) + VarintMaxSize(f.tag * 8)
    decreases f.ltype, 1
  {
    ElemReaches(f.ltype);
    TagLength(f.tag, WireType(f.ltype));
    hide ElemBytes, TagBytes, ElemTyped;
  }

  lemma {:induction false} RecordsReach(f: Field, es: seq<Elem>)
    requires Record(f, LargestElem(f.ltype)).Some? && forall k | 0 <= k < |es| :: es[k] == LargestElem(f.ltype)
    ensures RecordAll(f, es).Some?
    ensures |RecordAll(f, es).value| == |es| * |Record(f, LargestElem(f.ltype)).value|
    decreases |es|
  {
    hide Record, LargestElem;
    if |es| > 0 {
      RecordsReach(f, es[1..]);
      Distribute(|es| - 1, 1, |Record(f, LargestElem(f.ltype)).value|);
    }
  }

  lemma NumShort(t: LType, v: int)
    requires Packable(t) && TypeOk(t) && NumTyped(t, v)
    ensures |NumBytes(t, v)| <= 10
  {
    hide Base128, LittleEndian, Pow2;
    match t
    case SVarint(n) =>
      SignedRoundTrip(n, v);
      TenBytes(ZigZag(v));
    case Fixed32 =>
    case Fixed64 =>
    case _ => TenBytes(Unsigned64(v));
  }

  lemma {:induction false} PackedReaches(t: LType, es: seq<Elem>)
    requires ElemBytes(t, LargestElem(t)).Some? && forall k | 0 <= k < |es| :: es[k] == LargestElem(t)
    ensures PackedBytes(t, es).Some?
    ensures |PackedBytes(t, es).value| == |es| * |ElemBytes(t, LargestElem(t)).value|
    decreases |es|
  {
    hide ElemBytes, LargestElem;
    if |es| > 0 {
      PackedReaches(t, es[1..]);
      Distribute(|es| - 1, 1, |ElemBytes(t, LargestElem(t)).value|);
    }
  }

  /** A packed array of one element pays one byte for its length; one of two has saved that byte as a tag. */
  lemma ArrayReaches(f: Field, es: seq<Elem>)
    requires TypeOk(f.ltype) && TightType(f.ltype) && Packable(f.ltype) && TightArray(f)
    requires |es| == f.arraySize && forall k | 0 <= k < |es| :: es[k] == LargestElem(f.ltype)
    ensures var b := PackedBytes(f.ltype, es);
            b.Some? && |TagBytes(f.tag, WT_STRING) + Delimited(b.value)|
            == (ElemSize(f.ltype) + VarintMaxSize(f.tag * 8)) * f.arraySize + if f.arraySize == 1 then 1 else 0
    decreases f.ltype, 2
  {
    hide *;
    var n, e := f.arraySize, ElemSize(f.ltype);
    ElemReaches(f.ltype);
    PackedReaches(f.ltype, es);
    NumIsShort(f.ltype);
    PackedLength(f, PackedBytes(f.ltype, es).value);
    ArraySum(n, e, f.tag);
  }

  lemma PackedLength(f: Field, b: seq<byte>)
    requires Packable(f.ltype) && TightArray(f)
    ensures |TagBytes(f.tag, WT_STRING) + Delimited(b)| == VarintMaxSize(f.tag * 8) + |Base128(|b|)| + |b|
    ensures f.arraySize == 1 || (f.arraySize == 2 && f.tag < 16)
  {
    TagLength(f.tag, WT_STRING);
    hide TagBytes, VarintMaxSize, Base128;
  }

  lemma NumIsShort(t: LType)
    requires Packable(t) && TypeOk(t) && TightType(t)
    ensures ElemSize(t) <= 10
  {
    NumReaches(t);
    NumShort(t, LargestNum(t));
    hide NumBytes, NumTyped, ElemSize, LargestNum;
  }

  lemma ArraySum(n: nat, e: nat, tag: nat)
    requires n == 1 || (n == 2 && tag < 16)
    requires e <= 10
    ensures var t := VarintMaxSize(tag * 8);
            t + |Base128(n * e)| + n * e == (e + t) * n + if n == 1 then 1 else 0
  {
    assert n * e < 128;
  }

  // ----- oneofs -----

  lemma {:induction false} WinnerIs(d: Desc, group: nat, i: nat, k: nat)
    requires i <= k < |d.fields| && d.fields[k].rule == OneOf(group)
    ensures var w := Winner(d, group, i);
            w < |d.fields| && d.fields[w].rule == OneOf(group) && FieldSize(d.fields[w]) == GroupSize(d, group, i)
    decreases |d.fields| - i
  {
    hide FieldSize;
    if i < k {
      WinnerIs(d, group, i + 1, k);
    } else if !(FieldSize(d.fields[i]) >= GroupSize(d, group, i + 1)) {
      var j := SomeMember(d, group, i + 1);
      WinnerIs(d, group, i + 1, j);
    }
  }

  lemma {:induction false} SomeMember(d: Desc, group: nat, i: nat) returns (j: nat)
    requires i <= |d.fields| && GroupSize(d, group, i) > 0
    ensures i <= j < |d.fields| && d.fields[j].rule == OneOf(group)
    decreases |d.fields| - i
  {
    hide FieldSize;
    if d.fields[i].rule == OneOf(group) { j := i; } else { j := SomeMember(d, group, i + 1); }
  }

  predicate Sent(d: Desc, i: nat)
    requires i < |d.fields|
  {
    d.fields[i].rule.OneOf? ==> Winner(d, d.fields[i].rule.group, 0) == i
  }

  lemma {:induction false} SentIsPresent(d: Desc, m: Message, g: nat, j: nat, i: nat)
    requires i <= j < |d.fields| == |m.slots| && Present(d.fields[j], m.slots[j], g)
    ensures g in PresentFrom(d, m, i)
    decreases j - i
  {
    if i < j { SentIsPresent(d, m, g, j, i + 1); }
  }

  lemma {:induction false} SizeOfEvery(d: Desc, groups: set<nat>, i: nat)
    requires forall j | i <= j < |d.fields| && d.fields[j].rule.OneOf? :: d.fields[j].rule.group in groups
    ensures PlainFrom(d, i) + SizeOf(d, groups, i) == SizeFrom(d, i)
    decreases |d.fields| - i
  {
    hide GroupSize, FieldSize, FirstOfGroup;
    if i < |d.fields| { SizeOfEvery(d, groups, i + 1); }
  }

  // ----- messages -----

  lemma RepeatedReaches(f: Field, es: seq<Elem>)
    requires TypeOk(f.ltype) && TightType(f.ltype) && TightArray(f) && f.rule.Repeated?
    requires |es| == f.arraySize && forall k | 0 <= k < |es| :: es[k] == LargestElem(f.ltype)
    ensures ArrayBytes(f, es).Some? && |ArrayBytes(f, es).value| == FieldSize(f)
    decreases f.ltype, 3
  {
    hide Record, LargestElem, ElemSize, VarintMaxSize, RecordAll, PackedBytes, TightType, TypeOk, TagBytes, Delimited;
    if Packable(f.ltype) {
      ArrayReaches(f, es);
    } else {
      RecordReaches(f);
      RecordsReach(f, es);
      Commute(f.arraySize, ElemSize(f.ltype) + VarintMaxSize(f.tag * 8));
    }
  }

  lemma SlotReaches(d: Desc, i: nat)
    requires DescOk(d) && Tight(d) && i < |d.fields|
    ensures SlotTyped(d.fields[i], Largest(d).slots[i])
    ensures SlotBytes(d.hasDefaults, d.fields[i], Largest(d).slots[i]).Some?
    ensures |SlotBytes(d.hasDefaults, d.fields[i], Largest(d).slots[i]).value|
         == if Sent(d, i) then FieldSize(d.fields[i]) else 0
    decreases d, 0
  {
    var f := d.fields[i];
    assert FieldOk(d.hasDefaults, f) && TightType(f.ltype);
    ElemReaches(f.ltype);
    RecordReaches(f);
    if f.rule.Repeated? { RepeatedReaches(f, Largest(d).slots[i].es); }
    hide Record, LargestElem, ElemTyped, ElemSize, VarintMaxSize, ArrayBytes, DescOk, Winner, TightType, TightArray;
  }

  lemma Commute(a: int, b: int)
    ensures a * b == b * a
  {
  }

  lemma {:induction false} FieldsReach(d: Desc, i: nat)
    requires DescOk(d) && Tight(d) && i <= |d.fields|
    ensures FieldsBytes(d, Largest(d), i).Some?
    ensures |FieldsBytes(d, Largest(d), i).value| == PlainFrom(d, i) + SizeOf(d, PresentFrom(d, Largest(d), i), 0)
    decreases d, 1, |d.fields| - i
  {
    if i == |d.fields| {
      SizeOfNone(d, 0);
    } else {
      SlotReaches(d, i);
      FieldsReach(d, i + 1);
      SlotIs(d, i);
      if d.fields[i].rule.OneOf? && Sent(d, i) {
        WinnerAdds(d, i);
      } else {
        assert PresentFrom(d, Largest(d), i) == PresentFrom(d, Largest(d), i + 1);
      }
    }
    hide DescOk, SlotBytes, Largest, FieldSize, SlotTyped, SizeOf, Winner, Tight;
  }

  lemma SlotIs(d: Desc, i: nat)
    requires i < |d.fields|
    ensures d.fields[i].rule.OneOf? ==>
      (Present(d.fields[i], Largest(d).slots[i], d.fields[i].rule.group) <==> Sent(d, i))
  {
  }

  lemma WinnerAdds(d: Desc, i: nat)
    requires i < |d.fields| && d.fields[i].rule.OneOf? && Sent(d, i)
    ensures var m := Largest(d);
            SizeOf(d, PresentFrom(d, m, i), 0) == SizeOf(d, PresentFrom(d, m, i + 1), 0) + FieldSize(d.fields[i])
  {
    var g, m := d.fields[i].rule.group, Largest(d);
    hide FieldSize, SizeOf, GroupSize, Winner;
    WinnerIs(d, g, 0, i);
    NoOther(d, i);
    var first := FirstExists(d, g, i);
    SizeOfAdd(d, PresentFrom(d, m, i + 1), g, 0, first);
    SlotIs(d, i);
    assert PresentFrom(d, m, i) == PresentFrom(d, m, i + 1) + {g};
  }

  lemma NoOther(d: Desc, i: nat)
    requires i < |d.fields| && d.fields[i].rule.OneOf? && Sent(d, i)
    ensures d.fields[i].rule.group !in PresentFrom(d, Largest(d), i + 1)
  {
    hide Winner;
    AbsentFrom(d, Largest(d), d.fields[i].rule.group, i + 1);
  }

  lemma {:induction false} AbsentFrom(d: Desc, m: Message, g: nat, i: nat)
    requires forall j | i <= j < |d.fields| && j < |m.slots| :: !Present(d.fields[j], m.slots[j], g)
    ensures g !in PresentFrom(d, m, i)
    decreases |d.fields| - i
  {
    if i < |d.fields| { AbsentFrom(d, m, g, i + 1); }
  }

  /** Some message of a tight descriptor needs every byte of the bound. */
  lemma MessageReaches(d: Desc)
    requires DescOk(d) && Tight(d)
    ensures WellTyped(d, Largest(d)) && MessageBytes(d, Largest(d)).Some?
    ensures |MessageBytes(d, Largest(d)).value| == MessageSize(d)
    decreases d, 2
  {
    FieldsReach(d, 0);
    forall i | 0 <= i < |d.fields| ensures SlotTyped(d.fields[i], Largest(d).slots[i]) { SlotReaches(d, i); }
    OnePerGroup(d);
    EveryGroup(d);
    SizeOfEvery(d, PresentFrom(d, Largest(d), 0), 0);
    hide DescOk, Largest, SlotTyped, FieldsBytes, SizeFrom, PresentFrom, PlainFrom, SizeOf, Tight;
  }

  lemma OnePerGroup(d: Desc)
    ensures forall i, j | 0 <= i < j < |d.fields| :: d.fields[i].rule.OneOf? ==>
              !(Present(d.fields[i], Largest(d).slots[i], d.fields[i].rule.group)
                && Present(d.fields[j], Largest(d).slots[j], d.fields[i].rule.group))
  {
    hide Winner;
  }

  lemma EveryGroup(d: Desc)
    ensures forall j | 0 <= j < |d.fields| && d.fields[j].rule.OneOf? ::
              d.fields[j].rule.group in PresentFrom(d, Largest(d), 0)
  {
    forall j | 0 <= j < |d.fields| && d.fields[j].rule.OneOf?
      ensures d.fields[j].rule.group in PresentFrom(d, Largest(d), 0)
    {
      var g := d.fields[j].rule.group;
      WinnerIs(d, g, 0, j);
      var w := Winner(d, g, 0);
      SlotIs(d, w);
      SentIsPresent(d, Largest(d), g, w, 0);
    }
    hide Winner, PresentFrom;
  }
}
