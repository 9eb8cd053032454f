/** Arrays in pieces: whatever mix of packed and unpacked pieces a sender chooses, of a fixed count or not,
    pb_decode rebuilds the message. */
module PbPieces {
  import opened Common
  import opened PbVarint
  import opened PbModel
  import opened PbRoundTrip

  /** Some elements of an array, in one packed value or one by one. */
  datatype Piece = Piece(packed: bool, es: seq<Elem>)

  function PieceBytes(f: Field, p: Piece): Option<seq<byte>> {
    if p.packed then
      match PackedBytes(f.ltype, p.es)
      case Some(b) => Some(TagBytes(f.tag, WT_STRING) + Delimited(b))
      case None => None
    else RecordAll(f, p.es)
  }

  function PiecesBytes(f: Field, ps: seq<Piece>): Option<seq<byte>>
    decreases |ps|
  {
    if |ps| == 0 then Some([]) else Cat(PieceBytes(f, ps[0]), PiecesBytes(f, ps[1..]))
  }

  function Joined(ps: seq<Piece>): seq<Elem>
    decreases |ps|
  {
    if |ps| == 0 then [] else ps[0].es + Joined(ps[1..])
  }

  /** A packed piece holds something, of a type that can be packed, and its length fits the prefix. */
  predicate PieceOk(f: Field, p: Piece) {
    if p.packed then
      |p.es| > 0 && Packable(f.ltype) && (PackedBytes(f.ltype, p.es).Some? ==> |PackedBytes(f.ltype, p.es).value| < U32)
    else AllShort(f.ltype, p.es)
  }

  predicate CutOk(f: Field, s: Slot, ps: seq<Piece>) {
    s.Rep? ==> |s.es| <= f.arraySize && Joined(ps) == s.es && forall k | 0 <= k < |ps| :: PieceOk(f, ps[k])
  }

  /** The fields from number i on, with array j in the pieces cuts[j]. */
  function CutBytes(d: Desc, m: Message, cuts: seq<seq<Piece>>, i: nat): Option<seq<byte>>
    requires |m.slots| == |d.fields| == |cuts|
    decreases |d.fields| - i
  {
    if i >= |d.fields| then Some([])
    else
      Cat(if m.slots[i].Rep? then PiecesBytes(d.fields[i], cuts[i])
          else SlotBytes(d.hasDefaults, d.fields[i], m.slots[i]),
          CutBytes(d, m, cuts, i + 1))
  }

  // ----- one piece -----

  lemma {:induction false} PackedRange(f: Field, fixed: bool, es: seq<Elem>, k: nat, k': nat)
    requires Packable(f.ltype) && TypeOk(f.ltype) && k <= k' <= |es| <= f.arraySize
    requires forall j | 0 <= j < |es| :: ElemTyped(f.ltype, es[j])
    requires PackedBytes(f.ltype, es[k..k']).Some?
    ensures ReadPacked(f, fixed, Array(ArrayAt(f, fixed, es, k), k), PackedBytes(f.ltype, es[k..k']).value)
         == Some(Array(ArrayAt(f, fixed, es, k'), k'))
    decreases k' - k
  {
    hide ReadNum, NumBytes, Zero, ArrayAt, CanonAll, NumTyped;
    if k < k' {
      var v := es[k].v;
      assert es[k..k'][0] == es[k] && es[k..k'][1..] == es[k + 1..k'];
      CatSome(ElemBytes(f.ltype, es[k]), PackedBytes(f.ltype, es[k + 1..k']));
      var rest := PackedBytes(f.ltype, es[k + 1..k']).value;
      NumRoundTrip(f.ltype, v, rest);
      ArrayPut(f, fixed, es, k);
      NumNotEmpty(f.ltype, v);
      PackedRange(f, fixed, es, k + 1, k');
    }
  }

  lemma PackedPiece(d: Desc, m: Message, i: nat, fixed: bool, es: seq<Elem>, k: nat, p: Piece, rest: seq<byte>)
    requires DescOk(d) && WellTyped(d, m) && i < |d.fields| && m.slots[i] == Rep(es)
    requires |es| <= d.fields[i].arraySize && PartOf(es, k, p.es) && p.packed
    requires d.fields[i].rule == Repeated(fixed) && PieceOk(d.fields[i], p) && PieceBytes(d.fields[i], p).Some?
    ensures ReadAll(d, ArrayState(d, m, i, fixed, es, k), PieceBytes(d.fields[i], p).value + rest)
         == ReadAll(d, ArrayState(d, m, i, fixed, es, k + |p.es|), rest)
  {
    var f := d.fields[i];
    assert SlotTyped(f, m.slots[i]) && FieldOk(d.hasDefaults, f);
    var b := PackedBytes(f.ltype, p.es).value;
    PackedRange(f, fixed, es, k, k + |p.es|);
    DelimitedRoundTrip(b, rest);
    hide ReadField, ReadPacked, PackedBytes, ArrayAt, CanonAll, DescOk, WellTyped, StateAt, ArrayState, TagBytes,
      Delimited, ReadDelimited, ReadElem, ElemTyped;
    ArrayReads(d, m, i, fixed, es, k, k + |p.es|, WT_STRING, Delimited(b) + rest, rest);
    LoopStep(d, ArrayState(d, m, i, fixed, es, k), i, WT_STRING, Delimited(b),
      ArrayState(d, m, i, fixed, es, k + |p.es|), rest);
  }

  // ----- one array, a whole message -----

  /** The pieces of an array take the loop past it, from whatever position they start. */
  lemma {:induction false} PiecesStep(d: Desc, m: Message, i: nat, fixed: bool, es: seq<Elem>, k: nat, ps: seq<Piece>,
                                      rest: seq<byte>)
    requires DescOk(d) && WellTyped(d, m) && i < |d.fields| && m.slots[i] == Rep(es)
    requires |es| <= d.fields[i].arraySize && d.fields[i].rule == Repeated(fixed)
    requires PartOf(es, k, Joined(ps)) && k + |Joined(ps)| == |es|
    requires PiecesBytes(d.fields[i], ps).Some? && forall j | 0 <= j < |ps| :: PieceOk(d.fields[i], ps[j])
    ensures ReadAll(d, ArrayState(d, m, i, fixed, es, k), PiecesBytes(d.fields[i], ps).value + rest)
         == ReadAll(d, ArrayState(d, m, i, fixed, es, |es|), rest)
    decreases |ps|
  {
    hide DescOk, WellTyped, StateAt, ArrayState, ReadAll, PieceBytes, PieceOk, PartOf;
    if |ps| == 0 {
      assert [] + rest == rest;
    } else {
      hide PiecesBytes, Joined;
      PiecesSplit(d.fields[i], es, k, ps, rest);
      OnePiece(d, m, i, fixed, es, k, ps[0], PiecesBytes(d.fields[i], ps[1..]).value + rest);
      PiecesStep(d, m, i, fixed, es, k + |ps[0].es|, ps[1..], rest);
    }
  }

  lemma PiecesSplit(f: Field, es: seq<Elem>, k: nat, ps: seq<Piece>, rest: seq<byte>)
    requires |ps| > 0 && PiecesBytes(f, ps).Some? && PartOf(es, k, Joined(ps))
    ensures PieceBytes(f, ps[0]).Some? && PiecesBytes(f, ps[1..]).Some?
    ensures PiecesBytes(f, ps).value + rest == PieceBytes(f, ps[0]).value + (PiecesBytes(f, ps[1..]).value + rest)
    ensures PartOf(es, k, ps[0].es) && PartOf(es, k + |ps[0].es|, Joined(ps[1..]))
    ensures |Joined(ps)| == |ps[0].es| + |Joined(ps[1..])|
  {
    hide PieceBytes, PartOf;
    PartSplits(es, k, ps[0].es, Joined(ps[1..]));
    CatSome(PieceBytes(f, ps[0]), PiecesBytes(f, ps[1..]));
    CatRest(PieceBytes(f, ps[0]).value, PiecesBytes(f, ps[1..]).value, rest);
  }

  lemma CatRest(a: seq<byte>, b: seq<byte>, rest: seq<byte>)
    ensures a + b + rest == a + (b + rest)
  {
  }

  lemma OnePiece(d: Desc, m: Message, i: nat, fixed: bool, es: seq<Elem>, k: nat, p: Piece, rest: seq<byte>)
    requires DescOk(d) && WellTyped(d, m) && i < |d.fields| && m.slots[i] == Rep(es)
    requires |es| <= d.fields[i].arraySize && PartOf(es, k, p.es)
    requires d.fields[i].rule == Repeated(fixed) && PieceOk(d.fields[i], p) && PieceBytes(d.fields[i], p).Some?
    ensures ReadAll(d, ArrayState(d, m, i, fixed, es, k), PieceBytes(d.fields[i], p).value + rest)
         == ReadAll(d, ArrayState(d, m, i, fixed, es, k + |p.es|), rest)
  {
    hide DescOk, WellTyped, StateAt, ArrayState, ReadAll, Reads, PartOf, PackedBytes, RecordAll;
    ArrayShape(d, m, i, fixed);
    if p.packed {
      PackedPiece(d, m, i, fixed, es, k, p, rest);
    } else {
      PartReads(d, m, i, es, k, p);
      ElementsStep(d, m, i, fixed, es, k, p.es, rest);
    }
  }

  lemma PartReads(d: Desc, m: Message, i: nat, es: seq<Elem>, k: nat, p: Piece)
    requires DescOk(d) && WellTyped(d, m) && i < |d.fields| && m.slots[i] == Rep(es) && d.fields[i].rule.Repeated?
    requires PartOf(es, k, p.es) && PieceOk(d.fields[i], p) && !p.packed
    ensures forall j | 0 <= j < |p.es| :: Reads(d.fields[i].ltype, Zero(d.fields[i].ltype), p.es[j])
  {
    var f := d.fields[i];
    assert SlotTyped(f, m.slots[i]) && FieldOk(d.hasDefaults, f);
    hide DescOk, WellTyped, Reads, ElemTyped, TypeOk, Short;
    forall j | 0 <= j < |p.es| ensures Reads(f.ltype, Zero(f.ltype), p.es[j]) {
      assert es[k + j] == p.es[j] && ElemTyped(f.ltype, es[k + j]) && Short(f.ltype, p.es[j]);
      ElemRoundTrip(f.ltype, p.es[j]);
    }
  }

  lemma CutArray(d: Desc, m: Message, i: nat, ps: seq<Piece>, rest: seq<byte>)
    requires DescOk(d) && WellTyped(d, m) && i < |d.fields| && m.slots[i].Rep?
    requires CutOk(d.fields[i], m.slots[i], ps) && PiecesBytes(d.fields[i], ps).Some?
    ensures ReadAll(d, StateAt(d, m, i), PiecesBytes(d.fields[i], ps).value + rest)
         == ReadAll(d, StateAt(d, m, i + 1), rest)
  {
    var f, es := d.fields[i], m.slots[i].es;
    assert FieldOk(d.hasDefaults, f) && SlotTyped(f, m.slots[i]);
    hide DescOk, WellTyped, StateAt, ArrayState, ReadAll, ElemTyped, TypeOk, PiecesBytes, PieceOk;
    var fixed := f.rule.fixedCount;
    assert es[0..|es|] == es;
    ArrayStarts(d, m, i, fixed, es);
    PiecesStep(d, m, i, fixed, es, 0, ps, rest);
    ArrayEnds(d, m, i, fixed, es);
  }

  lemma {:induction false} CutFields(d: Desc, m: Message, cuts: seq<seq<Piece>>, i: nat)
    requires DescOk(d) && WellTyped(d, m) && |m.slots| == |d.fields| == |cuts| && i <= |d.fields|
    requires CutBytes(d, m, cuts, i).Some?
    requires forall j | 0 <= j < |d.fields| :: CutOk(d.fields[j], m.slots[j], cuts[j])
    requires forall j | 0 <= j < |d.fields| && !m.slots[j].Rep? :: SlotShort(d.fields[j], m.slots[j])
    ensures ReadAll(d, StateAt(d, m, i), CutBytes(d, m, cuts, i).value) == Some(StateAt(d, m, |d.fields|))
    decreases |d.fields| - i
  {
    hide DescOk, WellTyped, StateAt, SlotBytes, SlotShort, PiecesBytes, CutOk;
    if i < |d.fields| {
      var s := m.slots[i];
      CatSome(if s.Rep? then PiecesBytes(d.fields[i], cuts[i]) else SlotBytes(d.hasDefaults, d.fields[i], s),
              CutBytes(d, m, cuts, i + 1));
      var rest := CutBytes(d, m, cuts, i + 1).value;
      assert CutOk(d.fields[i], m.slots[i], cuts[i]);
      if s.Rep? { CutArray(d, m, i, cuts[i], rest); } else { FieldStep(d, m, i, rest); }
      CutFields(d, m, cuts, i + 1);
    }
  }

  /** However the arrays of a message are cut, pb_decode rebuilds the message. */
  lemma CutRoundTrip(d: Desc, m: Message, cuts: seq<seq<Piece>>)
    requires DescOk(d) && WellTyped(d, m) && |m.slots| == |d.fields| == |cuts| && CutBytes(d, m, cuts, 0).Some?
    requires forall j | 0 <= j < |d.fields| :: CutOk(d.fields[j], m.slots[j], cuts[j])
    requires forall j | 0 <= j < |d.fields| && !m.slots[j].Rep? :: SlotShort(d.fields[j], m.slots[j])
    ensures Decode(d, CutBytes(d, m, cuts, 0).value) == Some(Canonical(d, m))
  {
    StartState(d, m);
    EndState(d, m);
    hide DescOk, WellTyped, StateAt, CutBytes, Canonical, Default, Finished, CutOk, SlotShort;
    CutFields(d, m, cuts, 0);
  }

  /** Every array in one piece, packed or not as the choice says. */
  function Whole(d: Desc, m: Message, packed: nat -> bool): (cuts: seq<seq<Piece>>)
    requires |m.slots| == |d.fields|
    ensures |cuts| == |d.fields|
  {
    seq(|d.fields|, i requires 0 <= i < |d.fields| =>
      if m.slots[i].Rep? && |m.slots[i].es| > 0
      then [Piece(packed(i) && Packable(d.fields[i].ltype), m.slots[i].es)] else [])
  }

  /** What pb_encode writes is the cut that packs whatever can be packed. */
  lemma {:induction false} EncodedIsPacked(d: Desc, m: Message, i: nat)
    requires |m.slots| == |d.fields| && i <= |d.fields| && FieldsBytes(d, m, i).Some?
    ensures CutBytes(d, m, Whole(d, m, _ => true), i) == FieldsBytes(d, m, i)
    decreases |d.fields| - i
  {
    hide SlotBytes;
    if i < |d.fields| {
      CatSome(SlotBytes(d.hasDefaults, d.fields[i], m.slots[i]), FieldsBytes(d, m, i + 1));
      EncodedIsPacked(d, m, i + 1);
      if m.slots[i].Rep? { EncodedArray(d.hasDefaults, d.fields[i], m.slots[i].es); }
    }
  }

  lemma EncodedArray(hasDefaults: bool, f: Field, es: seq<Elem>)
    requires SlotBytes(hasDefaults, f, Rep(es)).Some?
    ensures var ps := if |es| > 0 then [Piece(Packable(f.ltype), es)] else [];
            PiecesBytes(f, ps) == SlotBytes(hasDefaults, f, Rep(es))
  {
    hide PackedBytes, RecordAll, TagBytes, Delimited;
    if |es| > 0 {
      var p := Piece(Packable(f.ltype), es);
      assert PiecesBytes(f, [p]) == Cat(PieceBytes(f, p), Some([]));
      assert PieceBytes(f, p).value + [] == PieceBytes(f, p).value;
    }
  }

  lemma {:induction false} SlotsFit(d: Desc, m: Message, i: nat)
    requires |m.slots| == |d.fields| && i <= |d.fields| && FieldsBytes(d, m, i).Some?
    ensures forall j | i <= j < |d.fields| && m.slots[j].Rep? :: |m.slots[j].es| <= d.fields[j].arraySize
    decreases |d.fields| - i
  {
    hide SlotBytes;
    if i < |d.fields| {
      CatSome(SlotBytes(d.hasDefaults, d.fields[i], m.slots[i]), FieldsBytes(d, m, i + 1));
      ArrayFitsSlot(d.hasDefaults, d.fields[i], m.slots[i]);
      SlotsFit(d, m, i + 1);
    }
  }

  lemma ArrayFitsSlot(hasDefaults: bool, f: Field, s: Slot)
    requires SlotBytes(hasDefaults, f, s).Some?
    ensures s.Rep? ==> |s.es| <= f.arraySize
  {
    hide RecordAll, PackedBytes, Record, IsDefault;
  }

  lemma WholeOk(d: Desc, m: Message, packed: nat -> bool, j: nat)
    requires MessageShort(d, m) && j < |d.fields|
    requires m.slots[j].Rep? ==> |m.slots[j].es| <= d.fields[j].arraySize
    ensures CutOk(d.fields[j], m.slots[j], Whole(d, m, packed)[j])
  {
    var f, s := d.fields[j], m.slots[j];
    if s.Rep? && |s.es| > 0 {
      var p := Piece(packed(j) && Packable(f.ltype), s.es);
      assert Joined([p]) == s.es + [] == s.es;
      assert SlotShort(f, s);
    }
  }

  /** Elements that can be packed can be sent one by one. */
  lemma {:induction false} PackedRecords(f: Field, es: seq<Elem>)
    requires PackedBytes(f.ltype, es).Some?
    ensures RecordAll(f, es).Some?
    decreases |es|
  {
    hide ElemBytes, TagBytes;
    if |es| > 0 {
      CatSome(ElemBytes(f.ltype, es[0]), PackedBytes(f.ltype, es[1..]));
      PackedRecords(f, es[1..]);
    }
  }

  /** What can be encoded can be encoded with any arrays unpacked. */
  lemma {:induction false} WholeEncodes(d: Desc, m: Message, packed: nat -> bool, i: nat)
    requires |m.slots| == |d.fields| && i <= |d.fields| && FieldsBytes(d, m, i).Some?
    ensures CutBytes(d, m, Whole(d, m, packed), i).Some?
    decreases |d.fields| - i
  {
    hide SlotBytes, PieceBytes;
    if i < |d.fields| {
      CatSome(SlotBytes(d.hasDefaults, d.fields[i], m.slots[i]), FieldsBytes(d, m, i + 1));
      WholeEncodes(d, m, packed, i + 1);
      if m.slots[i].Rep? && |m.slots[i].es| > 0 {
        PieceEncodes(d.hasDefaults, d.fields[i], m.slots[i].es, packed(i) && Packable(d.fields[i].ltype));
      }
    }
  }

  lemma PieceEncodes(hasDefaults: bool, f: Field, es: seq<Elem>, packed: bool)
    requires |es| > 0 && SlotBytes(hasDefaults, f, Rep(es)).Some? && (packed ==> Packable(f.ltype))
    ensures PiecesBytes(f, [Piece(packed, es)]).Some?
  {
    hide PackedBytes, RecordAll, TagBytes, Delimited;
    if Packable(f.ltype) { PackedRecords(f, es); }
    assert PiecesBytes(f, [Piece(packed, es)]) == Cat(PieceBytes(f, Piece(packed, es)), Some([]));
  }

  /** Packed or unpacked, array by array, a message that can be encoded decodes to the same. */
  lemma UnpackedIsPacked(d: Desc, m: Message, packed: nat -> bool)
    requires DescOk(d) && WellTyped(d, m) && |m.slots| == |d.fields| && MessageBytes(d, m).Some? && MessageShort(d, m)
    ensures var b := CutBytes(d, m, Whole(d, m, packed), 0);
            b.Some? && Decode(d, b.value) == Decode(d, MessageBytes(d, m).value)
  {
    MessageRoundTrip(d, m);
    SlotsFit(d, m, 0);
    WholeEncodes(d, m, packed, 0);
    forall j | 0 <= j < |d.fields| ensures CutOk(d.fields[j], m.slots[j], Whole(d, m, packed)[j]) {
      WholeOk(d, m, packed, j);
    }
    hide CutOk;
    CutRoundTrip(d, m, Whole(d, m, packed));
  }
}
