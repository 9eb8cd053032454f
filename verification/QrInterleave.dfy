/** The stream of codewords as ISO/IEC 18004:2000, section 8.6, lays it out, and what codestream_ecc makes of it. */
module QrInterleave {
  import opened Common
  import opened ErrorPatterns
  import opened ReedSolomon
  import opened QrBlocks

  // ----- the stream -----

  /** The bytes number j of the parts that have so many, in the order of the parts. */
  function Column(parts: seq<seq<bv8>>, j: nat): seq<bv8> {
    if |parts| == 0 then []
    else
      var last := |parts| - 1;
      Column(parts[..last], j) + if j < |parts[last]| then [parts[last][j]] else []
  }

  /** The first n columns. */
  function Interleaved(parts: seq<seq<bv8>>, n: nat): seq<bv8> {
    if n == 0 then [] else Interleaved(parts, n - 1) + Column(parts, n - 1)
  }

  /** As many blocks as the layout has, each of its size. */
  predicate Sized(l: Layout, blocks: seq<seq<bv8>>) {
    |blocks| == Blocks(l) && forall i | 0 <= i < |blocks| :: |blocks[i]| == BlockWords(l, i)
  }

  function Datas(l: Layout, blocks: seq<seq<bv8>>): seq<seq<bv8>>
    requires LayoutOk(l) && Sized(l, blocks)
  {
    seq(|blocks|, i requires 0 <= i < |blocks| => blocks[i][..DataWords(l, i)])
  }

  function Checks(l: Layout, blocks: seq<seq<bv8>>): seq<seq<bv8>>
    requires LayoutOk(l) && Sized(l, blocks)
  {
    seq(|blocks|, i requires 0 <= i < |blocks| => blocks[i][DataWords(l, i)..])
  }

  /** The data bytes of all blocks, column by column, and then the check bytes. */
  function Stream(l: Layout, blocks: seq<seq<bv8>>): seq<bv8>
    requires LayoutOk(l) && Sized(l, blocks)
  {
    Interleaved(Datas(l, blocks), l.dw + 1) + Interleaved(Checks(l, blocks), l.bs - l.dw)
  }

  lemma {:induction false} FullColumn(parts: seq<seq<bv8>>, j: nat)
    requires forall i | 0 <= i < |parts| :: j < |parts[i]|
    ensures |Column(parts, j)| == |parts| && forall i | 0 <= i < |parts| :: Column(parts, j)[i] == parts[i][j]
    decreases |parts|
  {
    if |parts| > 0 { FullColumn(parts[..|parts| - 1], j); }
  }

  /** Only the parts from number n on reach the column. */
  lemma {:induction false} LongColumn(parts: seq<seq<bv8>>, j: nat, n: nat)
    requires n <= |parts| && forall i | 0 <= i < |parts| :: j < |parts[i]| <==> n <= i
    ensures |Column(parts, j)| == |parts| - n
    ensures forall i | n <= i < |parts| :: Column(parts, j)[i - n] == parts[i][j]
    decreases |parts|
  {
    if n < |parts| {
      LongColumn(parts[..|parts| - 1], j, n);
    } else if |parts| > 0 {
      LongColumn(parts[..|parts| - 1], j, n - 1);
    }
  }

  lemma {:induction false} FullColumns(parts: seq<seq<bv8>>, n: nat)
    requires forall i | 0 <= i < |parts| :: n <= |parts[i]|
    ensures |Interleaved(parts, n)| == n * |parts|
    decreases n
  {
    hide Column;
    if n > 0 {
      FullColumns(parts, n - 1);
      FullColumn(parts, n - 1);
      Distribute(n - 1, 1, |parts|);
    }
  }

  lemma {:induction false} FullAt(parts: seq<seq<bv8>>, n: nat, j: nat, i: nat)
    requires (forall k | 0 <= k < |parts| :: n <= |parts[k]|) && j < n && i < |parts|
    ensures j * |parts| + i < |Interleaved(parts, n)| && Interleaved(parts, n)[j * |parts| + i] == parts[i][j]
    decreases n
  {
    hide Column;
    FullColumns(parts, n - 1);
    FullColumn(parts, n - 1);
    Monotone(j + 1, n, |parts|);
    Distribute(j, 1, |parts|);
    FullColumns(parts, n);
    if j < n - 1 { FullAt(parts, n - 1, j, i); }
  }

  // ----- where a byte of a block is -----

  /** The place of byte j of block i by the standard: the extra data bytes of the long blocks stand together. */
  function Standard(l: Layout, i: nat, j: nat): nat {
    var bc, dw := Blocks(l), DataWords(l, i);
    if j < l.dw then j * bc + i
    else if j < dw then l.dw * bc + (i - l.ns)
    else l.dw * bc + l.lb + (j - dw) * bc + i
  }

  lemma TotalIs(l: Layout)
    requires LayoutOk(l)
    ensures l.dw * Blocks(l) + l.lb + (l.bs - l.dw) * Blocks(l) == Total(l)
  {
    Distribute(l.dw, l.bs - l.dw, Blocks(l));
    TotalRows(l);
    hide Total;
  }

  lemma DataColumns(l: Layout, blocks: seq<seq<bv8>>)
    requires LayoutOk(l) && Sized(l, blocks)
    ensures var ds := Datas(l, blocks);
            |Interleaved(ds, l.dw)| == l.dw * Blocks(l) && |Column(ds, l.dw)| == l.lb
    ensures forall i | l.ns <= i < |blocks| :: Column(Datas(l, blocks), l.dw)[i - l.ns] == blocks[i][l.dw]
  {
    hide Column, Interleaved;
    var ds := Datas(l, blocks);
    FullColumns(ds, l.dw);
    LongColumn(ds, l.dw, l.ns);
    forall i | l.ns <= i < |blocks| ensures Column(ds, l.dw)[i - l.ns] == blocks[i][l.dw] {
      assert Column(ds, l.dw)[i - l.ns] == ds[i][l.dw];
    }
  }

  lemma StreamParts(l: Layout, blocks: seq<seq<bv8>>)
    requires LayoutOk(l) && Sized(l, blocks)
    ensures |Stream(l, blocks)| == Total(l)
    ensures var ds := Datas(l, blocks);
      Stream(l, blocks) == Interleaved(ds, l.dw) + Column(ds, l.dw) + Interleaved(Checks(l, blocks), l.bs - l.dw)
  {
    hide Datas, Checks, Interleaved, Column, Total, Sized, Blocks;
    DataColumns(l, blocks);
    LastColumn(Datas(l, blocks), l.dw);
    CheckColumns(l, blocks);
    TotalIs(l);
  }

  lemma LastColumn(parts: seq<seq<bv8>>, n: nat)
    ensures Interleaved(parts, n + 1) == Interleaved(parts, n) + Column(parts, n)
  {
  }

  lemma CheckColumns(l: Layout, blocks: seq<seq<bv8>>)
    requires LayoutOk(l) && Sized(l, blocks)
    ensures |Interleaved(Checks(l, blocks), l.bs - l.dw)| == (l.bs - l.dw) * Blocks(l)
  {
    hide Interleaved;
    FullColumns(Checks(l, blocks), l.bs - l.dw);
  }

  /** Byte j of block i is there. */
  lemma StreamAt(l: Layout, blocks: seq<seq<bv8>>, i: nat, j: nat)
    requires LayoutOk(l) && Sized(l, blocks) && i < |blocks| && j < |blocks[i]|
    ensures Standard(l, i, j) < |Stream(l, blocks)| && Stream(l, blocks)[Standard(l, i, j)] == blocks[i][j]
  {
    hide Stream, Total, Datas, Checks, Interleaved, Column;
    StreamParts(l, blocks);
    DataColumns(l, blocks);
    var a, b := Interleaved(Datas(l, blocks), l.dw), Column(Datas(l, blocks), l.dw);
    var c := Interleaved(Checks(l, blocks), l.bs - l.dw);
    if j < l.dw {
      DataAt(l, blocks, i, j);
      InPart([], a, b + c, j * Blocks(l) + i);
      assert [] + a + (b + c) == a + b + c;
    } else if j < DataWords(l, i) {
      InPart(a, b, c, i - l.ns);
    } else {
      var k := j - DataWords(l, i);
      CheckAt(l, blocks, i, k);
      InPart(a + b, c, [], k * Blocks(l) + i);
      assert a + b + c + [] == a + b + c;
    }
  }

  lemma InPart(a: seq<bv8>, b: seq<bv8>, c: seq<bv8>, k: int)
    requires 0 <= k < |b|
    ensures (a + b + c)[|a| + k] == b[k]
  {
  }

  lemma DataAt(l: Layout, blocks: seq<seq<bv8>>, i: nat, j: nat)
    requires LayoutOk(l) && Sized(l, blocks) && i < |blocks| && j < l.dw
    ensures 0 <= j * Blocks(l) + i < |Interleaved(Datas(l, blocks), l.dw)|
    ensures Interleaved(Datas(l, blocks), l.dw)[j * Blocks(l) + i] == blocks[i][j]
  {
    hide Interleaved;
    FullAt(Datas(l, blocks), l.dw, j, i);
  }

  lemma CheckAt(l: Layout, blocks: seq<seq<bv8>>, i: nat, j: nat)
    requires LayoutOk(l) && Sized(l, blocks) && i < |blocks| && j < l.bs - l.dw
    ensures 0 <= j * Blocks(l) + i < |Interleaved(Checks(l, blocks), l.bs - l.dw)|
    ensures Interleaved(Checks(l, blocks), l.bs - l.dw)[j * Blocks(l) + i] == blocks[i][DataWords(l, i) + j]
  {
    hide Interleaved;
    FullAt(Checks(l, blocks), l.bs - l.dw, j, i);
  }

  lemma StandardFits(l: Layout, i: nat, j: nat)
    requires LayoutOk(l) && i < Blocks(l) && j < BlockWords(l, i)
    ensures Standard(l, i, j) < Total(l)
  {
    SourceFits(l, i, j);
    if i >= l.ns && j == l.dw { assert Standard(l, i, j) == Source(l, i, j) - l.ns; }
  }

  /** Block i of a stream, by the standard. */
  function Taken(l: Layout, raw: seq<bv8>, i: nat): (b: seq<bv8>)
    requires LayoutOk(l) && i < Blocks(l) && Total(l) <= |raw|
    ensures |b| == BlockWords(l, i)
  {
    seq(BlockWords(l, i), j requires 0 <= j < BlockWords(l, i) => StandardFits(l, i, j); raw[Standard(l, i, j)])
  }

  lemma TakenFromStream(l: Layout, blocks: seq<seq<bv8>>, i: nat)
    requires LayoutOk(l) && Sized(l, blocks) && i < |blocks|
    ensures |Stream(l, blocks)| == Total(l) && Taken(l, Stream(l, blocks), i) == blocks[i]
  {
    StreamParts(l, blocks);
    hide Stream, Standard, Total;
    forall j | 0 <= j < |blocks[i]| ensures Taken(l, Stream(l, blocks), i)[j] == blocks[i][j] {
      StreamAt(l, blocks, i, j);
    }
  }

  // ----- what codestream_ecc makes of it -----

  /** codestream_ecc reads a block as the standard lays it out, but for the last data byte of a long block, which
      it takes from the place of another byte. */
  lemma GatheredIsTaken(l: Layout, raw: seq<bv8>, i: nat)
    requires LayoutOk(l) && i < Blocks(l) && Total(l) <= |raw|
    ensures i < l.ns ==> Gathered(l, raw, i) == Taken(l, raw, i)
    ensures i >= l.ns ==>
      l.dw * Blocks(l) + i < |raw|
      && Gathered(l, raw, i) == Taken(l, raw, i)[l.dw := raw[l.dw * Blocks(l) + i]]
      && Taken(l, raw, i)[l.dw] == raw[l.dw * Blocks(l) + (i - l.ns)]
  {
    forall j | 0 <= j < BlockWords(l, i) && (i < l.ns || j != l.dw)
      ensures Gathered(l, raw, i)[j] == Taken(l, raw, i)[j]
    {
      SourceFits(l, i, j);
      StandardFits(l, i, j);
    }
    if i >= l.ns {
      SourceFits(l, i, l.dw);
      StandardFits(l, i, l.dw);
    }
    hide Total;
  }

  /** So it reads the block right exactly when that byte happens to be the same. */
  lemma GatheredRight(l: Layout, raw: seq<bv8>, i: nat)
    requires LayoutOk(l) && i < Blocks(l) && Total(l) <= |raw|
    ensures i >= l.ns ==> l.dw * Blocks(l) + i < |raw|
    ensures Gathered(l, raw, i) == Taken(l, raw, i) <==>
      (i >= l.ns ==> raw[l.dw * Blocks(l) + i] == raw[l.dw * Blocks(l) + (i - l.ns)])
  {
    GatheredIsTaken(l, raw, i);
    hide Gathered, Taken, Total;
    if i >= l.ns {
      var t := Taken(l, raw, i);
      assert t[l.dw := t[l.dw]] == t;
      assert t[l.dw := raw[l.dw * Blocks(l) + i]][l.dw] == raw[l.dw * Blocks(l) + i];
    }
  }

  lemma {:induction false} OneChanged(a: seq<bv8>, b: seq<bv8>, k: nat, x: bv8)
    requires |a| == |b| && k < |a|
    ensures Distance(a[k := x], b) == Distance(a, b) + (if x == b[k] then 0 else 1) - (if a[k] == b[k] then 0 else 1)
    decreases |a|
  {
    if k == 0 {
      assert a[0 := x][1..] == a[1..];
    } else {
      assert a[k := x][1..] == a[1..][k - 1 := x];
      OneChanged(a[1..], b[1..], k - 1, x);
    }
  }

  lemma {:induction false} SameIsNear(a: seq<bv8>)
    ensures Distance(a, a) == 0
    decreases |a|
  {
    if |a| > 0 { SameIsNear(a[1..]); }
  }

  /** How many bytes of block i of a damaged stream the decoder can stand: one fewer in a long block. */
  ghost predicate Legible(l: Layout, raw: seq<bv8>, block: seq<bv8>, i: nat)
    requires LayoutOk(l) && i < Blocks(l) && Total(l) <= |raw| && |block| == BlockWords(l, i)
  {
    2 * (Distance(Taken(l, raw, i), block) + if i < l.ns then 0 else 1) <= l.bs - l.dw
  }

  lemma LegibleIsNear(l: Layout, raw: seq<bv8>, block: seq<bv8>, i: nat)
    requires LayoutOk(l) && i < Blocks(l) && Total(l) <= |raw| && |block| == BlockWords(l, i)
    requires Legible(l, raw, block, i) && InCode(block, l.bs - l.dw)
    ensures Near(Gathered(l, raw, i), block, l.bs - l.dw)
  {
    GatheredIsTaken(l, raw, i);
    if i >= l.ns { OneChanged(Taken(l, raw, i), block, l.dw, raw[l.dw * Blocks(l) + i]); }
    hide Gathered, Taken, Total, InCode;
  }

  /** The blocks that a code was made of. */
  ghost predicate Coded(l: Layout, blocks: seq<seq<bv8>>)
    requires LayoutOk(l)
  {
    Sized(l, blocks) && AllInCode(blocks, l.bs - l.dw)
  }

  /** Every block of the stream that was received is legible. */
  ghost predicate AllLegible(l: Layout, raw: seq<bv8>, blocks: seq<seq<bv8>>)
    requires LayoutOk(l) && Total(l) <= |raw| && Sized(l, blocks)
  {
    forall i | 0 <= i < |blocks| :: Legible(l, raw, blocks[i], i)
  }

  /** codestream_ecc restores a damaged stream whenever every block is legible: words and whether all of them are
      corrected are what CodestreamEcc promises. */
  lemma StreamIsRestored(l: Layout, raw: seq<bv8>, blocks: seq<seq<bv8>>, words: seq<seq<bv8>>, success: bool)
    requires LayoutOk(l) && Total(l) <= |raw| && Coded(l, blocks) && AllLegible(l, raw, blocks)
    requires AllRestored(l, raw, words)
    requires success <==> |words| == Blocks(l) && AllInCode(words, l.bs - l.dw)
    requires !success ==> |words| > 0 && !InCode(words[|words| - 1], l.bs - l.dw)
    ensures success && words == blocks
  {
    hide Legible, Near, InCode, Gathered, Total;
    forall i | 0 <= i < |words| ensures words[i] == blocks[i] {
      LegibleIsNear(l, raw, blocks[i], i);
      assert Restored(Gathered(l, raw, i), words[i], l.bs - l.dw);
    }
  }

  /** An undamaged stream is legible when there is a check byte to spare for the misread one. */
  lemma CleanIsLegible(l: Layout, blocks: seq<seq<bv8>>)
    requires LayoutOk(l) && Sized(l, blocks) && (l.lb == 0 || l.bs - l.dw >= 2)
    ensures Total(l) <= |Stream(l, blocks)| && AllLegible(l, Stream(l, blocks), blocks)
  {
    StreamParts(l, blocks);
    hide Stream, Total;
    forall i | 0 <= i < |blocks| ensures Legible(l, Stream(l, blocks), blocks[i], i) {
      TakenFromStream(l, blocks, i);
      SameIsNear(blocks[i]);
    }
  }
}
