/** codestream_ecc of quirc's decode.c: the blocks of a code are picked out of the stream of codewords,
    corrected one after another, and their data bytes joined. */
module QrBlocks {
  import opened Common
  import opened ErrorPatterns
  import opened ReedSolomon

  /** ns short blocks of bs bytes, dw of them data, and lb long blocks with one more data byte. */
  datatype Layout = Layout(bs: nat, dw: nat, ns: nat, lb: nat)

  /** What the table of versions keeps to: a short block and a long one both fit the field. */
  predicate LayoutOk(l: Layout) { l.dw < l.bs < 255 && l.bs - l.dw <= MAX_POLY }

  /** The layout that the table entry and the size of the version make. */
  function LayoutOf(bs: nat, dw: nat, ns: nat, dataBytes: nat): (l: Layout)
    requires bs * ns <= dataBytes
    ensures Total(l) <= dataBytes < Total(l) + bs + 1
  {
    var lb := (dataBytes - bs * ns) / (bs + 1);
    assert (bs + 1) * lb <= dataBytes - bs * ns < (bs + 1) * lb + bs + 1;
    Layout(bs, dw, ns, lb)
  }

  function Blocks(l: Layout): nat { l.ns + l.lb }

  function DataWords(l: Layout, i: nat): nat { if i < l.ns then l.dw else l.dw + 1 }

  function BlockWords(l: Layout, i: nat): nat { if i < l.ns then l.bs else l.bs + 1 }

  function Total(l: Layout): nat { l.bs * l.ns + (l.bs + 1) * l.lb }

  /** Where codestream_ecc takes byte j of block i from. */
  function Source(l: Layout, i: nat, j: nat): nat {
    var bc, dw := Blocks(l), DataWords(l, i);
    if j < dw then j * bc + i else l.dw * bc + l.lb + (j - dw) * bc + i
  }

  lemma TotalRows(l: Layout)
    ensures Total(l) == l.bs * Blocks(l) + l.lb
  {
    Distribute(l.ns, l.lb, l.bs);
  }

  /** Entry i of a row before number n. */
  lemma RowFits(row: nat, n: nat, bc: nat, i: nat)
    requires row < n && i < bc
    ensures row * bc + i < n * bc
  {
    Monotone(row + 1, n, bc);
    Distribute(row, 1, bc);
  }

  lemma SourceFits(l: Layout, i: nat, j: nat)
    requires LayoutOk(l) && i < Blocks(l) && j < BlockWords(l, i)
    ensures Source(l, i, j) < Total(l)
  {
    TotalRows(l);
    hide Total;
    var dw := DataWords(l, i);
    var row := if j < dw then j else l.dw + (j - dw);
    Distribute(l.dw, j - dw, Blocks(l));
    RowFits(row, l.bs, Blocks(l), i);
  }

  function Gathered(l: Layout, raw: seq<bv8>, i: nat): (b: seq<bv8>)
    requires LayoutOk(l) && i < Blocks(l) && Total(l) <= |raw|
    ensures |b| == BlockWords(l, i)
  {
    seq(BlockWords(l, i), j requires 0 <= j < BlockWords(l, i) => SourceFits(l, i, j); raw[Source(l, i, j)])
  }

  /** The data bytes of the first blocks, one block after the other. */
  function DataOf(l: Layout, words: seq<seq<bv8>>): seq<bv8> {
    if |words| == 0 then [] else DataOf(l, words[..|words| - 1]) + DataPart(l, words, |words| - 1)
  }

  function DataPart(l: Layout, words: seq<seq<bv8>>, i: nat): seq<bv8>
    requires i < |words|
  {
    if |words[i]| < DataWords(l, i) then words[i] else words[i][..DataWords(l, i)]
  }

  /** The place of a block in the output. */
  function Offset(l: Layout, i: nat): nat { i * l.dw + if i > l.ns then i - l.ns else 0 }

  lemma {:induction false} DataLength(l: Layout, words: seq<seq<bv8>>)
    requires forall i | 0 <= i < |words| :: |words[i]| >= DataWords(l, i)
    ensures |DataOf(l, words)| == Offset(l, |words|)
    decreases |words|
  {
    if |words| > 0 {
      var last := |words| - 1;
      DataLength(l, words[..last]);
      Distribute(last, 1, l.dw);
    }
  }

  /** A whole block fits behind the data of the blocks before it. */
  lemma OffsetFits(l: Layout, i: nat)
    requires LayoutOk(l) && i < Blocks(l)
    ensures Offset(l, i) + BlockWords(l, i) <= Total(l)
  {
    TotalRows(l);
    hide Total;
    Monotone(i + 1, Blocks(l), l.bs);
    Distribute(i, 1, l.bs);
    Monotone(l.dw, l.bs, i);
  }

  // ----- the method -----

  /** before was corrected to after: to the codeword within half the number of check bytes, if there is one. */
  ghost predicate Restored(before: seq<bv8>, after: seq<bv8>, npar: nat) {
    |before| == |after| && forall code: seq<bv8> | Near(before, code, npar) :: after == code
  }

  ghost predicate Near(before: seq<bv8>, code: seq<bv8>, npar: nat) {
    |code| == |before| && InCode(code, npar) && 2 * Distance(before, code) <= npar
  }

  /** The first blocks of the stream after correction. */
  ghost predicate AllRestored(l: Layout, raw: seq<bv8>, words: seq<seq<bv8>>)
    requires LayoutOk(l) && Total(l) <= |raw|
  {
    |words| <= Blocks(l) && forall i | 0 <= i < |words| :: Restored(Gathered(l, raw, i), words[i], l.bs - l.dw)
  }

  ghost predicate AllInCode(words: seq<seq<bv8>>, npar: nat) { forall i | 0 <= i < |words| :: InCode(words[i], npar) }

  lemma OneInCode(words: seq<seq<bv8>>, word: seq<bv8>, npar: nat)
    ensures AllInCode(words + [word], npar) <==> AllInCode(words, npar) && InCode(word, npar)
  {
    hide InCode;
    var more := words + [word];
    assert more[|words|] == word && forall i | 0 <= i < |words| :: more[i] == words[i];
  }

  /** The copying loops, for block i. */
  method Gather(raw: array<bv8>, l: Layout, i: nat) returns (dst: array<bv8>)
    requires LayoutOk(l) && i < Blocks(l) && Total(l) <= raw.Length
    ensures fresh(dst) && dst[..] == Gathered(l, raw[..], i)
  {
    var bc := l.lb + l.ns;
    var eccOffset := l.dw * bc + l.lb;
    var dw, bs := if i < l.ns then l.dw else l.dw + 1, if i < l.ns then l.bs else l.bs + 1;
    dst := new bv8[bs];
    ghost var block := Gathered(l, raw[..], i);
    for j := 0 to dw
      invariant forall k | 0 <= k < j :: dst[k] == block[k]
    {
      SourceFits(l, i, j);
      dst[j] := raw[j * bc + i];
    }
    for j := 0 to bs - dw
      invariant forall k | 0 <= k < dw + j :: dst[k] == block[k]
    {
      SourceFits(l, i, dw + j);
      dst[dw + j] := raw[eccOffset + j * bc + i];
    }
  }

  /** Puts a block into the output. */
  method Store(data: array<bv8>, offset: nat, block: array<bv8>)
    requires offset + block.Length <= data.Length && data != block
    modifies data
    ensures data[..offset] == old(data[..offset])
    ensures data[offset..offset + block.Length] == block[..]
  {
    for j := 0 to block.Length
      invariant data[..offset] == old(data[..offset]) && data[offset..offset + j] == block[..j]
    {
      data[offset + j] := block[j];
    }
  }

  lemma OneRestored(l: Layout, raw: seq<bv8>, words: seq<seq<bv8>>, word: seq<bv8>)
    requires LayoutOk(l) && Total(l) <= |raw| && AllRestored(l, raw, words) && |words| < Blocks(l)
    requires Restored(Gathered(l, raw, |words|), word, l.bs - l.dw)
    ensures AllRestored(l, raw, words + [word])
  {
    hide Restored, Gathered, Total;
    var more := words + [word];
    forall i | 0 <= i < |more| ensures Restored(Gathered(l, raw, i), more[i], l.bs - l.dw) {}
  }

  lemma OneStored(l: Layout, words: seq<seq<bv8>>, word: seq<bv8>)
    requires LayoutOk(l) && |words| < Blocks(l) && |word| == BlockWords(l, |words|)
    ensures DataOf(l, words + [word]) == DataOf(l, words) + word[..DataWords(l, |words|)]
    ensures Offset(l, |words| + 1) == Offset(l, |words|) + DataWords(l, |words|)
    ensures Offset(l, |words|) + |word| <= Total(l)
  {
    OffsetFits(l, |words|);
    hide Total;
    var more := words + [word];
    assert more[..|words|] == words;
    Distribute(|words|, 1, l.dw);
  }

  lemma CorrectedIsRestored(before: seq<bv8>, after: seq<bv8>, npar: nat, status: Status)
    requires |before| == |after| && CorrectsTo(before, after, npar, status)
    ensures Restored(before, after, npar)
  {
    hide InCode, Distance;
  }

  lemma PrefixGrows(data: seq<bv8>, offset: nat, len: nat, n: nat)
    requires offset + len <= |data| && n <= len
    ensures data[..offset + n] == data[..offset] + data[offset..offset + len][..n]
  {
  }

  /** One turn of the loop over the blocks. */
  method CorrectNext(raw: array<bv8>, data: array<bv8>, l: Layout, i: nat, offset: nat)
    returns (status: Status, ghost word: seq<bv8>)
    requires LayoutOk(l) && Total(l) <= raw.Length && i < Blocks(l) && raw != data
    requires offset + BlockWords(l, i) <= data.Length
    modifies data
    ensures Restored(Gathered(l, raw[..], i), word, l.bs - l.dw) && |word| == BlockWords(l, i)
    ensures status == Success <==> InCode(word, l.bs - l.dw)
    ensures status == Success ==> data[..offset + DataWords(l, i)] == old(data[..offset]) + word[..DataWords(l, i)]
  {
    hide Restored, InCode, CorrectsTo, Total;
    var block := Gather(raw, l, i);
    ghost var before := block[..];
    var bs, dw := if i < l.ns then l.bs else l.bs + 1, if i < l.ns then l.dw else l.dw + 1;
    status := CorrectBlock(block, bs, dw);
    word := block[..];
    assert before[..bs] == before && block[..bs] == word;
    CorrectedIsRestored(before, word, l.bs - l.dw, status);
    if status == Success {
      Store(data, offset, block);
      PrefixGrows(data[..], offset, bs, dw);
      assert data[..][..offset] == data[..offset] && data[..][offset..offset + bs] == data[offset..offset + bs];
      assert data[..][..offset + dw] == data[..offset + dw];
    }
  }

  lemma NothingYet(l: Layout, raw: seq<bv8>)
    requires LayoutOk(l) && Total(l) <= |raw|
    ensures Offset(l, 0) == 0 && DataOf(l, []) == [] && AllRestored(l, raw, []) && AllInCode([], l.bs - l.dw)
  {
  }

  /** codestream_ecc. */
  method CodestreamEcc(raw: array<bv8>, data: array<bv8>, l: Layout)
    returns (status: Status, dataBits: nat, ghost words: seq<seq<bv8>>)
    requires LayoutOk(l) && Total(l) <= raw.Length && Total(l) <= data.Length && raw != data
    modifies data
    ensures AllRestored(l, raw[..], words)
    ensures status == Success <==> |words| == Blocks(l) && AllInCode(words, l.bs - l.dw)
    ensures status != Success ==> |words| > 0 && !InCode(words[|words| - 1], l.bs - l.dw)
    ensures status == Success ==>
      && dataBits == 8 * |DataOf(l, words)| && |DataOf(l, words)| <= data.Length
      && data[..dataBits / 8] == DataOf(l, words)
  {
    hide AllRestored, AllInCode, Restored, Gathered, DataOf, Offset, Total, InCode;
    words := [];
    dataBits := 0;
    var offset: nat := 0;
    NothingYet(l, raw[..]);
    for i := 0 to l.lb + l.ns
      invariant raw[..] == old(raw[..]) && |words| == i && AllRestored(l, raw[..], words)
      invariant AllInCode(words, l.bs - l.dw)
      invariant offset == Offset(l, i) <= data.Length && data[..offset] == DataOf(l, words)
    {
      ghost var word;
      OneStored(l, words, seq(BlockWords(l, i), _ => 0));
      status, word := CorrectNext(raw, data, l, i, offset);
      OneRestored(l, raw[..], words, word);
      OneInCode(words, word, l.bs - l.dw);
      OneStored(l, words, word);
      words := words + [word];
      if status != Success { return; }
      offset := offset + if i < l.ns then l.dw else l.dw + 1;
    }
    dataBits := offset * 8;
    status := Success;
  }
}
