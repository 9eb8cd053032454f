/** What a message is before anything has been decoded into it. */
module PbDefault {
  import opened Common
  import opened PbVarint
  import opened PbModel
  import opened PbRoundTrip

  /** Fields that an encoder can leave out: no required ones, no full arrays and no bytes of a fixed length. */
  predicate Silent(d: Desc)
    decreases d
  {
    forall i | 0 <= i < |d.fields| ::
      match d.fields[i].rule
      case Required => false
      case Optional(has) =>
        has || (!d.hasDefaults && (d.fields[i].ltype.FixedBytes? ==> d.fields[i].ltype.length == 0)
                && (d.fields[i].ltype.Submessage? ==> Silent(d.fields[i].ltype.desc)))
      case Repeated(fixed) => !fixed
      case OneOf(_) => true
  }

  lemma DefaultSlotIsDefault(d: Desc, i: nat)
    requires DescOk(d) && Silent(d) && i < |d.fields|
    ensures IsDefault(d.hasDefaults, d.fields[i], DefaultSlot(d.fields[i]))
    ensures SlotBytes(d.hasDefaults, d.fields[i], DefaultSlot(d.fields[i])) == Some([])
    decreases d, 0
  {
    var f := d.fields[i];
    assert FieldOk(d.hasDefaults, f) && f.rule != Required && f.rule != Repeated(true);
    assert f.rule == Optional(false) ==> !d.hasDefaults && (f.ltype.FixedBytes? ==> f.ltype.length == 0);
    if f.ltype.Submessage? && f.rule == Optional(false) {
      assert TypeOk(f.ltype) && Silent(f.ltype.desc);
      DefaultIsAllDefault(f.ltype.desc);
    }
    if f.rule == Optional(false) { InitialValues(d.hasDefaults, f); }
    hide AllDefault, Record, ArrayBytes, DescOk, Silent, Initial;
    assert DefaultSlot(f).Rep? ==> DefaultSlot(f) == Rep([]);
  }

  lemma InitialValues(hasDefaults: bool, f: Field)
    requires FieldOk(hasDefaults, f) && !hasDefaults
    ensures match f.ltype
            case Submessage(d) => Initial(f) == Msg(Default(d))
            case FixedBytes(n) => Initial(f).Blob? && |Initial(f).b| == n
            case Bytes(_) => Initial(f) == Blob([])
            case Str(_) => Initial(f) == Blob([])
            case _ => Initial(f) == Num(0)
  {
    hide Default, DescOk;
  }

  lemma DefaultIsAllDefault(d: Desc)
    requires DescOk(d) && Silent(d)
    ensures AllDefault(d, Default(d))
    decreases d, 1
  {
    forall i | 0 <= i < |d.fields| ensures IsDefault(d.hasDefaults, d.fields[i], Default(d).slots[i]) {
      DefaultSlotIsDefault(d, i);
    }
    hide DefaultSlot, IsDefault, DescOk, Silent;
  }

  lemma {:induction false} NothingToSend(d: Desc, i: nat)
    requires DescOk(d) && Silent(d) && i <= |d.fields|
    ensures FieldsBytes(d, Default(d), i) == Some([])
    decreases |d.fields| - i
  {
    hide DescOk, Silent, SlotBytes, DefaultSlot, IsDefault;
    if i < |d.fields| {
      DefaultSlotIsDefault(d, i);
      NothingToSend(d, i + 1);
      var none: seq<byte> := [];
      assert none + none == none;
    }
  }

  /** A message into which nothing has been decoded has nothing to send: no optional field is there, no array
      has elements, no member of a oneof is chosen, and the rest is at its proto3 default. */
  lemma DefaultSendsNothing(d: Desc)
    requires DescOk(d) && Silent(d)
    ensures MessageBytes(d, Default(d)) == Some([]) && Decode(d, []) == Some(Default(d))
  {
    NothingToSend(d, 0);
    hide DescOk, FieldsBytes, Default;
    NothingRequired(d);
  }

  lemma NothingRequired(d: Desc)
    requires Silent(d)
    ensures Decode(d, []) == Some(Default(d))
  {
    forall i | 0 <= i < |d.fields| ensures !d.fields[i].rule.Required? {}
    hide Default, Silent;
    var st := State(Default(d), {}, NoTrack);
    assert ReadAll(d, st, []) == Some(st) && Finished(d, st);
  }
}
