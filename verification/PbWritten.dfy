/** What pb_encode writes, value by value: which fields, in which order, and which it leaves out. */
module PbWritten {
  import opened Common
  import opened PbVarint
  import opened PbModel
  import opened PbRoundTrip
  import opened PbRecords

  function ValOf(t: LType, e: Elem): Val
    decreases t, 0
  {
    match e
    case Num(v) => Number(v)
    case Blob(b) => Text(b)
    case Msg(m) => if t.Submessage? then Sub(Written(t.desc, m, 0)) else Sub([])
  }

  function Numbers(es: seq<Elem>): seq<int> {
    seq(|es|, k requires 0 <= k < |es| => if es[k].Num? then es[k].v else 0)
  }

  function Values(t: LType, i: nat, es: seq<Elem>): seq<Rec>
    decreases t, 1, |es|
  {
    if |es| == 0 then [] else [One(i, ValOf(t, es[0]))] + Values(t, i, es[1..])
  }

  /** A proto3 value that goes without saying: zero, nothing, or a message of which nothing is written. */
  predicate Silent(t: LType, e: Elem)
    decreases t, 1
  {
    match e
    case Num(v) => v == 0
    case Blob(b) => b == []
    case Msg(m) => t.Submessage? && Written(t.desc, m, 0) == []
  }

  /** The values written for field i: an array that is not empty, packed if its type can be; the member of a oneof
      or the optional field that is there; a required field always; and a proto3 field that is not silent. */
  function FieldWritten(hasDefaults: bool, f: Field, i: nat, s: Slot): seq<Rec>
    decreases f, 2
  {
    match s
    case Rep(es) =>
      if |es| == 0 then [] else if Packable(f.ltype) then [Packed(i, Numbers(es))] else Values(f.ltype, i, es)
    case Choice(present, e) => if present then [One(i, ValOf(f.ltype, e))] else []
    case Opt(has, e) => if has then [One(i, ValOf(f.ltype, e))] else []
    case Single(e) =>
      if f.rule.Optional? && !hasDefaults && Silent(f.ltype, e) then [] else [One(i, ValOf(f.ltype, e))]
  }

  /** The values written for the fields from number i on, in the order of the fields. */
  function Written(d: Desc, m: Message, i: nat): seq<Rec>
    decreases d, 3, |d.fields| - i
  {
    if i >= |d.fields| || i >= |m.slots| then []
    else FieldWritten(d.hasDefaults, d.fields[i], i, m.slots[i]) + Written(d, m, i + 1)
  }

  lemma {:induction false} TreeCat(d: Desc, a: seq<Rec>, b: seq<Rec>)
    ensures TreeBytes(d, a + b) == TreeBytes(d, a) + TreeBytes(d, b)
    decreases |a|
  {
    hide RecBytes;
    if |a| == 0 {
      assert a + b == b;
    } else {
      assert (a + b)[1..] == a[1..] + b;
      TreeCat(d, a[1..], b);
    }
  }

  lemma OneRec(d: Desc, r: Rec)
    ensures TreeBytes(d, [r]) == RecBytes(d, r)
  {
    hide RecBytes;
  }

  lemma ElemWritten(t: LType, e: Elem)
    requires TypeOk(t) && ElemTyped(t, e) && ElemBytes(t, e).Some?
    ensures ElemBytes(t, e).value == ValBytes(t, ValOf(t, e))
    decreases t, 4
  {
    if t.Submessage? { MessageWritten(t.desc, e.m); }
    hide MessageBytes, TreeBytes, Written, NumBytes, DescOk, WellTyped;
  }

  lemma {:induction false} NumbersWritten(t: LType, es: seq<Elem>)
    requires Packable(t) && (forall k | 0 <= k < |es| :: ElemTyped(t, es[k])) && PackedBytes(t, es).Some?
    ensures PackedBytes(t, es).value == NumsBytes(t, Numbers(es))
    decreases |es|
  {
    hide NumBytes, NumTyped;
    if |es| > 0 {
      CatSome(ElemBytes(t, es[0]), PackedBytes(t, es[1..]));
      NumbersWritten(t, es[1..]);
      assert Numbers(es)[1..] == Numbers(es[1..]);
    }
  }

  lemma OneWritten(d: Desc, i: nat, e: Elem)
    requires i < |d.fields| && TypeOk(d.fields[i].ltype) && ElemTyped(d.fields[i].ltype, e)
    requires Record(d.fields[i], e).Some?
    ensures Record(d.fields[i], e).value == TreeBytes(d, [One(i, ValOf(d.fields[i].ltype, e))])
    decreases d.fields[i].ltype, 5
  {
    var t := d.fields[i].ltype;
    ElemWritten(t, e);
    OneRec(d, One(i, ValOf(t, e)));
    hide ElemBytes, ValBytes, ValOf, TagBytes, TreeBytes, TypeOk, ElemTyped;
  }

  lemma {:induction false} ValuesWritten(d: Desc, i: nat, es: seq<Elem>)
    requires i < |d.fields| && TypeOk(d.fields[i].ltype)
    requires (forall k | 0 <= k < |es| :: ElemTyped(d.fields[i].ltype, es[k])) && RecordAll(d.fields[i], es).Some?
    ensures RecordAll(d.fields[i], es).value == TreeBytes(d, Values(d.fields[i].ltype, i, es))
    decreases d.fields[i].ltype, 6, |es|
  {
    hide Record, TypeOk, ElemTyped, ValOf, RecBytes;
    if |es| > 0 {
      CatSome(Record(d.fields[i], es[0]), RecordAll(d.fields[i], es[1..]));
      OneWritten(d, i, es[0]);
      ValuesWritten(d, i, es[1..]);
      TreeCat(d, [One(i, ValOf(d.fields[i].ltype, es[0]))], Values(d.fields[i].ltype, i, es[1..]));
    }
  }

  /** What pb_check_proto3_default_value finds is what is not written. */
  lemma SlotIsDefault(hasDefaults: bool, f: Field, i: nat, s: Slot)
    requires FieldOk(hasDefaults, f) && SlotTyped(f, s)
    ensures IsDefault(hasDefaults, f, s) <==> FieldWritten(hasDefaults, f, i, s) == []
    decreases f, 7
  {
    if s.Single? && f.ltype.Submessage? { MessageIsDefault(f.ltype.desc, s.e.m, 0); }
    hide AllDefault, Written, ValOf, DescOk, WellTyped;
  }

  lemma {:induction false} MessageIsDefault(d: Desc, m: Message, i: nat)
    requires DescOk(d) && WellTyped(d, m) && i <= |d.fields|
    ensures Written(d, m, i) == [] <==>
      forall j | i <= j < |d.fields| && j < |m.slots| :: IsDefault(d.hasDefaults, d.fields[j], m.slots[j])
    decreases d, 8, |d.fields| - i
  {
    hide FieldWritten, IsDefault, SlotTyped;
    if i < |d.fields| {
      SlotIsDefault(d.hasDefaults, d.fields[i], i, m.slots[i]);
      MessageIsDefault(d, m, i + 1);
    }
  }

  lemma SlotWritten(d: Desc, i: nat, s: Slot)
    requires DescOk(d) && i < |d.fields| && SlotTyped(d.fields[i], s)
    requires SlotBytes(d.hasDefaults, d.fields[i], s).Some?
    ensures SlotBytes(d.hasDefaults, d.fields[i], s).value
         == TreeBytes(d, FieldWritten(d.hasDefaults, d.fields[i], i, s))
    decreases d.fields[i], 9
  {
    var f := d.fields[i];
    assert FieldOk(d.hasDefaults, f);
    match s
    case Rep(es) =>
      if |es| > 0 && Packable(f.ltype) {
        NumbersWritten(f.ltype, es);
        OneRec(d, Packed(i, Numbers(es)));
      } else if |es| > 0 {
        ValuesWritten(d, i, es);
      }
      hide PackedBytes, RecordAll, Numbers, Values, DescOk, NumsBytes, TagBytes, Delimited, TypeOk, ElemTyped;
    case Choice(present, e) =>
      if present { OneWritten(d, i, e); }
      hide Record, ValOf, DescOk, TypeOk, ElemTyped, RecBytes;
    case Opt(has, e) =>
      if has { OneWritten(d, i, e); }
      hide Record, ValOf, DescOk, TypeOk, ElemTyped, RecBytes;
    case Single(e) =>
      SlotIsDefault(d.hasDefaults, f, i, s);
      if Record(f, e).Some? { OneWritten(d, i, e); }
      hide Record, ValOf, DescOk, TypeOk, ElemTyped, RecBytes, IsDefault, Silent;
  }

  lemma {:induction false} FieldsWritten(d: Desc, m: Message, i: nat)
    requires DescOk(d) && WellTyped(d, m) && i <= |d.fields| && FieldsBytes(d, m, i).Some?
    ensures FieldsBytes(d, m, i).value == TreeBytes(d, Written(d, m, i))
    decreases d, 10, |d.fields| - i
  {
    hide SlotBytes, FieldWritten, SlotTyped, DescOk, RecBytes;
    if i < |d.fields| {
      CatSome(SlotBytes(d.hasDefaults, d.fields[i], m.slots[i]), FieldsBytes(d, m, i + 1));
      SlotWritten(d, i, m.slots[i]);
      FieldsWritten(d, m, i + 1);
      TreeCat(d, FieldWritten(d.hasDefaults, d.fields[i], i, m.slots[i]), Written(d, m, i + 1));
    }
  }

  /** pb_encode writes exactly these values, in this order. */
  lemma MessageWritten(d: Desc, m: Message)
    requires DescOk(d) && WellTyped(d, m) && MessageBytes(d, m).Some?
    ensures MessageBytes(d, m).value == TreeBytes(d, Written(d, m, 0))
    decreases d, 11
  {
    FieldsWritten(d, m, 0);
    hide FieldsBytes, TreeBytes, Written, DescOk, WellTyped;
  }

  // ----- the order -----

  /** The field of a value, for those that have one. */
  function Index(r: Rec): int { if r.Other? then -1 else r.i }

  ghost predicate InOrder(rs: seq<Rec>) { forall a, b | 0 <= a < b < |rs| :: Index(rs[a]) <= Index(rs[b]) }

  ghost predicate AllOf(rs: seq<Rec>, i: nat) { forall a | 0 <= a < |rs| :: Index(rs[a]) == i }

  lemma {:induction false} ValuesOf(t: LType, i: nat, es: seq<Elem>)
    ensures AllOf(Values(t, i, es), i) && |Values(t, i, es)| == |es|
    decreases |es|
  {
    hide ValOf;
    if |es| > 0 { ValuesOf(t, i, es[1..]); }
  }

  lemma FieldOf(hasDefaults: bool, f: Field, i: nat, s: Slot)
    ensures AllOf(FieldWritten(hasDefaults, f, i, s), i)
  {
    hide ValOf, Silent;
    if s.Rep? { ValuesOf(f.ltype, i, s.es); }
    hide Values, Numbers;
  }

  /** Fields are written in ascending order, which is that of their tags. */
  lemma {:induction false} WrittenInOrder(d: Desc, m: Message, i: nat)
    requires DescOk(d)
    ensures InOrder(Written(d, m, i)) && forall r | r in Written(d, m, i) :: i <= Index(r) < |d.fields|
    ensures forall j, k | 0 <= j < k < |d.fields| :: d.fields[j].tag < d.fields[k].tag
    decreases |d.fields| - i
  {
    hide FieldWritten;
    if i < |d.fields| && i < |m.slots| {
      WrittenInOrder(d, m, i + 1);
      FieldOf(d.hasDefaults, d.fields[i], i, m.slots[i]);
      var a, b := FieldWritten(d.hasDefaults, d.fields[i], i, m.slots[i]), Written(d, m, i + 1);
      forall r | r in a + b ensures i <= Index(r) < |d.fields| {}
      forall x, y | 0 <= x < y < |a + b| ensures Index((a + b)[x]) <= Index((a + b)[y]) {
        if x < |a| <= y { assert b[y - |a|] in b; }
      }
    }
  }
}
