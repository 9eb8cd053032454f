/** The field iterator of pb_common.c: it walks the fields in a circle, with running counts of required
    and submessage fields, and finds a field by tag from wherever it stands. */
module PbIter {
  import opened PbModel
  import opened PbRoundTrip

  function SubmessagesBefore(d: Desc, i: nat): nat {
    if i == 0 || i > |d.fields| then 0
    else SubmessagesBefore(d, i - 1) + if d.fields[i - 1].ltype.Submessage? then 1 else 0
  }

  function LargestTag(d: Desc): nat {
    if |d.fields| == 0 then 0 else d.fields[|d.fields| - 1].tag
  }

  class FieldIter {
    const desc: Desc
    var index: nat
    var requiredIndex: nat
    var submessageIndex: nat
    var tag: nat

    /** The running counts belong to the index. */
    ghost predicate Counted()
      reads this
    {
      requiredIndex == RequiredBefore(desc, index) && submessageIndex == SubmessagesBefore(desc, index)
    }

    ghost predicate Valid()
      reads this
    {
      && DescOk(desc) && Counted()
      && if |desc.fields| == 0 then index == 0 && tag == 0 else index < |desc.fields| && tag == desc.fields[index].tag
    }

    /** pb_field_iter_begin. */
    constructor (d: Desc)
      requires DescOk(d)
      ensures Valid() && desc == d && index == 0
    {
      desc := d;
      index, requiredIndex, submessageIndex := 0, 0, 0;
      tag := if |d.fields| == 0 then 0 else d.fields[0].tag;
    }

    /** advance_iterator: past the last field, or from an index past it, back to the first. */
    method Advance()
      requires index < |desc.fields| ==> Counted()
      requires |desc.fields| > 0
      modifies this`index, this`requiredIndex, this`submessageIndex
      ensures Counted() && index == if old(index) + 1 < |desc.fields| then old(index) + 1 else 0
    {
      index := index + 1;
      if index >= |desc.fields| {
        index, requiredIndex, submessageIndex := 0, 0, 0;
      } else {
        var previous := desc.fields[index - 1];
        requiredIndex := requiredIndex + if previous.rule.Required? then 1 else 0;
        submessageIndex := submessageIndex + if previous.ltype.Submessage? then 1 else 0;
      }
    }

    /** load_descriptor_values. */
    method Load()
      requires index < |desc.fields|
      modifies this`tag
      ensures tag == desc.fields[index].tag
    {
      tag := desc.fields[index].tag;
    }

    /** pb_field_iter_next: whether there was another field. */
    method Next() returns (more: bool)
      requires Valid() && |desc.fields| > 0
      modifies this
      ensures Valid() && more == (old(index) + 1 < |desc.fields|)
      ensures index == if more then old(index) + 1 else 0
    {
      Advance();
      Load();
      more := index != 0;
    }

    /** pb_field_iter_find: from any position it finds the field of a tag exactly when there is one. */
    method Find(wanted: nat) returns (found: bool)
      requires Valid() && wanted > 0
      modifies this
      ensures Valid()
      ensures found <==> FindField(desc.fields, wanted, 0) < |desc.fields|
      ensures found ==> index == FindField(desc.fields, wanted, 0)
    {
      hide DescOk, RequiredBefore, SubmessagesBefore;
      TagsAscend(desc);
      FindIs(desc, wanted);
      var n := |desc.fields|;
      if tag == wanted { return true; }
      if wanted > LargestTag(desc) { return false; }
      var start := index;
      if wanted < tag { index := n; }
      ghost var wrapped := wanted < tag;
      ghost var first := true;
      while true
        invariant desc.fields[start].tag != wanted && start < n
        invariant index < n ==> Counted()
        invariant first ==> if wrapped then index == n && wanted < desc.fields[start].tag else index == start
        invariant !first ==> index < n && index != start && desc.fields[index].tag != wanted
        invariant !first && !wrapped ==> start < index && forall j | start < j <= index :: desc.fields[j].tag != wanted
        invariant !first && wrapped ==>
                    index < start && forall j | 0 <= j <= index || start < j < n :: desc.fields[j].tag != wanted
        decreases if first then 2 * n + 1 else if wrapped then start - index else n - index + n
      {
        Advance();
        wrapped := wrapped || index == 0;
        first := false;
        if desc.fields[index].tag % 64 == wanted % 64 {
          Load();
          if tag == wanted { return true; }
        }
        if index == start { break; }
      }
      Load();
      found := false;
    }
  }

  lemma TagsAscend(d: Desc)
    requires DescOk(d)
    ensures forall i, j | 0 <= i < j < |d.fields| :: d.fields[i].tag < d.fields[j].tag
    ensures forall i | 0 <= i < |d.fields| :: d.fields[i].tag <= LargestTag(d)
  {
  }

  lemma FindIs(d: Desc, wanted: nat)
    requires DescOk(d)
    ensures forall i | 0 <= i < |d.fields| && d.fields[i].tag == wanted :: FindField(d.fields, wanted, 0) == i
  {
    forall i | 0 <= i < |d.fields| && d.fields[i].tag == wanted ensures FindField(d.fields, wanted, 0) == i {
      FindExact(d, i, 0);
    }
  }
}
