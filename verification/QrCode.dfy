/** quirc_decode behind the format bits: from the cells of a code to its characters. */
module QrCode {
  import opened Common
  import opened ReedSolomon
  import opened QrPayload
  import opened QrDecoder
  import opened QrGrid
  import opened QrOrder
  import opened QrCells
  import opened QrBlocks
  import opened QrInterleave

  const MAX_BITMAP := 3917
  const MAX_SIZE := 177
  const MAX_VERSION := 40

  datatype Failure = InvalidGridSize | InvalidVersion | Damaged | BadPayload(error: QrPayload.Error)

  datatype Outcome = Read(data: Data) | Failed(failure: Failure)

  /** The data bytes of the blocks as decode_payload sees them. */
  function Payload(l: Layout, words: seq<seq<bv8>>): seq<bool> {
    BitsFrom(DataOf(l, words), 0, 8 * |DataOf(l, words)|)
  }

  /** What the decoder makes of a code: raw holds the bits of its data cells, words are the blocks in it after
      correction, and the payload is read from their data when all of them could be corrected. */
  ghost predicate Decoded(code: QrGrid.Code, mask: nat, version: nat, apat: seq<nat>, l: Layout,
                          outcome: Outcome, raw: seq<bv8>, words: seq<seq<bv8>>)
    requires CodeOk(code) && LayoutOk(l) && AllInGrid(code.size, Walk(code.size))
  {
    var bits := ReadCells(code, mask, c => Reserved(version, apat, c), Walk(code.size));
    var success := |words| == Blocks(l) && AllInCode(words, l.bs - l.dw);
    && |raw| == MAX_PAYLOAD && |bits| <= 8 * |raw| && BitsFrom(raw, 0, |bits|) == bits
    && Total(l) <= |raw| && AllRestored(l, raw, words)
    && (!success ==> |words| > 0 && !InCode(words[|words| - 1], l.bs - l.dw))
    && outcome == if success then Parsed(ReadAll(version, Data([], 0, 0), Payload(l, words))) else Failed(Damaged)
  }

  function Parsed(r: QrPayload.Result): Outcome {
    match r
    case Success(data) => Read(data)
    case Failure(e) => Failed(BadPayload(e))
  }

  /** What quirc_decode does with the size of the grid. */
  function VersionOf(size: nat): Option<nat> {
    if size <= MAX_SIZE && size >= 21 && size % 4 == 1 then Some((size - 17) / 4) else None
  }

  /** A code of version v has 17 + 4 * v cells a side, for versions 1 to 40; there are no others. */
  lemma VersionMeans(size: nat, v: nat)
    ensures VersionOf(size) == Some(v) <==> 1 <= v <= 40 && size == 17 + 4 * v
  {
  }

  lemma SizeRules(size: nat)
    ensures VersionOf(size) ==
      if size > MAX_SIZE || (size - 17) % 4 != 0 || (size - 17) / 4 < 1 then None else Some((size - 17) / 4)
    ensures size <= MAX_SIZE ==> (size - 17) / 4 <= MAX_VERSION
    ensures (size - 17) % 4 == 0 <==> size % 4 == 1
    ensures size % 4 == 1 ==> size % 2 == 1
    ensures (size - 17) % 4 == 0 && (size - 17) / 4 >= 1 ==> size >= 21
  {
  }

  /** quirc_decode after the format has been read: mask, alignment positions and block layout are those of the
      version and the format. */
  method Decode(code: QrGrid.Code, mask: nat, apat: seq<nat>, l: Layout)
    returns (outcome: Outcome, ghost raw: seq<bv8>, ghost words: seq<seq<bv8>>)
    requires |code.bitmap| == MAX_BITMAP && LayoutOk(l) && Total(l) <= MAX_PAYLOAD
    ensures VersionOf(code.size) == None ==>
      outcome == Failed(if code.size <= MAX_SIZE && code.size % 4 == 1 then InvalidVersion else InvalidGridSize)
    ensures VersionOf(code.size).Some? ==>
      && CodeOk(code) && AllInGrid(code.size, Walk(code.size))
      && Decoded(code, mask, VersionOf(code.size).value, apat, l, outcome, raw, words)
  {
    hide Decoded, InGrid, Walk, VersionOf;
    raw, words := [], [];
    SizeRules(code.size);
    if code.size > MAX_SIZE { return Failed(InvalidGridSize), raw, words; }
    if (code.size - 17) % 4 != 0 { return Failed(InvalidGridSize), raw, words; }
    var version := (code.size - 17) / 4;
    if version < 1 || version > MAX_VERSION { return Failed(InvalidVersion), raw, words; }
    BitmapHolds(code.size);
    outcome, raw, words := DecodeCells(code, mask, version, apat, l);
  }

  lemma BitmapHolds(size: nat)
    requires size <= MAX_SIZE
    ensures size * size <= 8 * MAX_BITMAP && size * size <= 8 * MAX_PAYLOAD
  {
    Monotone(size, MAX_SIZE, size);
    Monotone(size, MAX_SIZE, MAX_SIZE);
  }

  method DecodeCells(code: QrGrid.Code, mask: nat, version: nat, apat: seq<nat>, l: Layout)
    returns (outcome: Outcome, ghost stream: seq<bv8>, ghost words: seq<seq<bv8>>)
    requires CodeOk(code) && code.size >= 21 && code.size % 2 == 1 && code.size * code.size <= 8 * MAX_PAYLOAD
    requires LayoutOk(l) && Total(l) <= MAX_PAYLOAD
    ensures AllInGrid(code.size, Walk(code.size)) && Decoded(code, mask, version, apat, l, outcome, stream, words)
  {
    hide BitAt, ReadCells, ZeroFrom, AllRestored, InCode, ReadAll, DataOf, Total, CodeOk, InGrid, Walk;
    var raw := new bv8[MAX_PAYLOAD](_ => 0);
    AllZero(raw[..]);
    var reader := new Reader(code, mask, c => Reserved(version, apat, c), raw);
    reader.ReadData();
    stream := raw[..];
    var data := new bv8[MAX_PAYLOAD](_ => 0);
    var status, dataBits;
    status, dataBits, words := CodestreamEcc(raw, data, l);
    if status != ReedSolomon.Success { return Failed(Damaged), stream, words; }
    var ds := new Datastream(data[..], dataBits);
    PrefixBits(data[..], DataOf(l, words));
    var out := new QrData(version);
    var result := out.DecodePayload(ds);
    outcome := if result == Fine then Read(Data(out.payload[..out.payloadLen], out.dataType, out.eci))
               else Failed(BadPayload(result.error));
  }

  lemma AllZero(raw: seq<bv8>)
    requires forall k | 0 <= k < |raw| :: raw[k] == 0
    ensures ZeroFrom(raw, 0)
  {
  }

  lemma PrefixBits(a: seq<bv8>, b: seq<bv8>)
    requires b <= a
    ensures BitsFrom(a, 0, 8 * |b|) == BitsFrom(b, 0, 8 * |b|)
  {
    hide Mask;
    forall p | 0 <= p < 8 * |b| ensures BitAt(a, p) == BitAt(b, p) { assert a[p / 8] == b[p / 8]; }
  }

  // ----- reading what was drawn -----

  /** The cells of the grid, in the order of the standard and unmasked, are the bits of these codewords and some
      remainder bits. */
  ghost predicate Shows(code: QrGrid.Code, mask: nat, version: nat, apat: seq<nat>, received: seq<bv8>) {
    && CodeOk(code)
    && exists s: seq<Cell>, bits: seq<bool> ::
         && IsDataCells(code.size, c => Reserved(version, apat, c), s) && InOrder(code.size, s)
         && AllInGrid(code.size, s) && Carries(code, mask, s, bits) && BitsFrom(received, 0, 8 * |received|) <= bits
  }

  /** Blocks that carry the encoding of the parts, with whatever comes after the terminator. */
  ghost predicate Encodes(version: nat, l: Layout, blocks: seq<seq<bv8>>, parts: seq<Part>)
    requires LayoutOk(l)
  {
    && Coded(l, blocks) && (forall i | 0 <= i < |parts| :: Readable(parts[i]) && PartOk(version, parts[i]))
    && exists tail :: Ended(tail) && Payload(l, blocks) == AllBits(version, parts) + tail
  }

  lemma SameBytes(x: bv8, y: bv8)
    requires forall k | 0 <= k < 8 :: x & Mask(k) != 0 <==> y & Mask(k) != 0
    ensures x == y
  {
    assert x & Mask(0) != 0 <==> y & Mask(0) != 0;
    assert x & Mask(1) != 0 <==> y & Mask(1) != 0;
    assert x & Mask(2) != 0 <==> y & Mask(2) != 0;
    assert x & Mask(3) != 0 <==> y & Mask(3) != 0;
    assert x & Mask(4) != 0 <==> y & Mask(4) != 0;
    assert x & Mask(5) != 0 <==> y & Mask(5) != 0;
    assert x & Mask(6) != 0 <==> y & Mask(6) != 0;
    assert x & Mask(7) != 0 <==> y & Mask(7) != 0;
  }

  /** Bytes are determined by their bits. */
  lemma SameBits(a: seq<bv8>, b: seq<bv8>, n: nat)
    requires |b| <= |a| && 8 * |b| <= n <= 8 * |a|
    requires BitsFrom(b, 0, 8 * |b|) <= BitsFrom(a, 0, n)
    ensures a[..|b|] == b
  {
    forall k | 0 <= k < |b| ensures a[k] == b[k] {
      hide Mask;
      forall j | 0 <= j < 8 ensures a[k] & Mask(j) != 0 <==> b[k] & Mask(j) != 0 {
        var p := 8 * k + j;
        assert p / 8 == k && p % 8 == j;
        assert BitsFrom(a, 0, n)[p] == BitAt(a, p) && BitsFrom(b, 0, 8 * |b|)[p] == BitAt(b, p);
      }
      SameBytes(a[k], b[k]);
    }
  }

  /** read_data finds the codewords that the grid shows. */
  lemma ShownIsRead(code: QrGrid.Code, mask: nat, version: nat, apat: seq<nat>, received: seq<bv8>, raw: seq<bv8>)
    requires Shows(code, mask, version, apat, received) && code.size >= 21 && code.size % 2 == 1
    requires AllInGrid(code.size, Walk(code.size))
    requires var bits := ReadCells(code, mask, c => Reserved(version, apat, c), Walk(code.size));
             |bits| <= 8 * |raw| && BitsFrom(raw, 0, |bits|) == bits
    ensures received <= raw
  {
    hide ReadCells, Walk, InOrder, IsDataCells, Carries, CodeOk, InGrid, BitAt, Reserved;
    var s: seq<Cell>, bits: seq<bool> :|
      && IsDataCells(code.size, c => Reserved(version, apat, c), s) && InOrder(code.size, s)
      && AllInGrid(code.size, s) && Carries(code, mask, s, bits) && BitsFrom(received, 0, 8 * |received|) <= bits;
    forall c: Cell | c.x == 6 ensures Reserved(version, apat, c) { TimingColumnReserved(version, apat, c); }
    CarriedIsRead(code, mask, c => Reserved(version, apat, c), s, bits);
    SameBits(raw, received, |bits|);
  }

  /** The decoder depends on the codewords alone. */
  lemma GatheredPrefix(l: Layout, raw: seq<bv8>, received: seq<bv8>, i: nat)
    requires LayoutOk(l) && i < Blocks(l) && Total(l) == |received| && received <= raw
    ensures Gathered(l, raw, i) == Gathered(l, received, i)
  {
    forall j | 0 <= j < BlockWords(l, i) ensures Gathered(l, raw, i)[j] == Gathered(l, received, i)[j] {
      SourceFits(l, i, j);
    }
  }

  lemma RestoredPrefix(l: Layout, raw: seq<bv8>, received: seq<bv8>, words: seq<seq<bv8>>)
    requires LayoutOk(l) && Total(l) == |received| && received <= raw && AllRestored(l, raw, words)
    ensures AllRestored(l, received, words)
  {
    hide Gathered, Restored, Total;
    forall i | 0 <= i < |words| ensures Restored(Gathered(l, received, i), words[i], l.bs - l.dw) {
      assert Restored(Gathered(l, raw, i), words[i], l.bs - l.dw);
      GatheredPrefix(l, raw, received, i);
    }
  }

  /** A code drawn from numeric, alphanumeric, byte and kanji segments and designators, under any mask, is decoded
      to exactly their characters, although codewords were misread: up to half the number of check bytes in a short
      block, and one fewer in a long one. */
  lemma CodeRoundTrip(code: QrGrid.Code, mask: nat, version: nat, apat: seq<nat>, l: Layout, received: seq<bv8>,
                      blocks: seq<seq<bv8>>, parts: seq<Part>, outcome: Outcome, raw: seq<bv8>, words: seq<seq<bv8>>)
    requires VersionOf(code.size) == Some(version) && LayoutOk(l) && |received| == Total(l)
    requires Shows(code, mask, version, apat, received)
    requires Encodes(version, l, blocks, parts) && AllLegible(l, received, blocks) && |AllText(parts)| < MAX_PAYLOAD
    requires AllInGrid(code.size, Walk(code.size)) && Decoded(code, mask, version, apat, l, outcome, raw, words)
    ensures outcome == Read(Data(AllText(parts), MaxMode(0, parts), LastEci(0, parts)))
  {
    hide *;
    SizeIsOdd(code.size);
    EncodedIsCoded(version, l, blocks, parts);
    BlocksAreRestored(code, mask, version, apat, l, received, blocks, outcome, raw, words);
    EncodedIsRead(version, l, blocks, parts);
  }

  lemma SizeIsOdd(size: nat)
    requires VersionOf(size).Some?
    ensures size >= 21 && size % 2 == 1
  {
  }

  lemma BlocksAreRestored(code: QrGrid.Code, mask: nat, version: nat, apat: seq<nat>, l: Layout, received: seq<bv8>,
                          blocks: seq<seq<bv8>>, outcome: Outcome, raw: seq<bv8>, words: seq<seq<bv8>>)
    requires code.size >= 21 && code.size % 2 == 1 && LayoutOk(l) && |received| == Total(l)
    requires Shows(code, mask, version, apat, received) && Coded(l, blocks) && AllLegible(l, received, blocks)
    requires AllInGrid(code.size, Walk(code.size)) && Decoded(code, mask, version, apat, l, outcome, raw, words)
    ensures outcome == Parsed(ReadAll(version, Data([], 0, 0), Payload(l, blocks)))
  {
    hide AllLegible, AllRestored, AllInCode, InCode, ReadAll, ReadCells, Walk, CodeOk, InGrid, AllInGrid, BitsFrom;
    hide DataOf, Total, Blocks, Coded, Shows, Payload, Parsed, Reserved;
    ShownIsRead(code, mask, version, apat, received, raw);
    RestoredPrefix(l, raw, received, words);
    StreamIsRestored(l, received, blocks, words, |words| == Blocks(l) && AllInCode(words, l.bs - l.dw));
  }

  lemma EncodedIsCoded(version: nat, l: Layout, blocks: seq<seq<bv8>>, parts: seq<Part>)
    requires LayoutOk(l) && Encodes(version, l, blocks, parts)
    ensures Coded(l, blocks)
  {
    hide Coded, Ended, Payload, Readable, PartOk;
  }

  lemma EncodedIsRead(version: nat, l: Layout, blocks: seq<seq<bv8>>, parts: seq<Part>)
    requires LayoutOk(l) && Encodes(version, l, blocks, parts) && |AllText(parts)| < MAX_PAYLOAD
    ensures Parsed(ReadAll(version, Data([], 0, 0), Payload(l, blocks)))
         == Read(Data(AllText(parts), MaxMode(0, parts), LastEci(0, parts)))
  {
    hide Coded, Ended, Readable, PartOk, ReadAll, Payload, AllBits, AllText, MaxMode, LastEci, LayoutOk;
    var tail :| Ended(tail) && Payload(l, blocks) == AllBits(version, parts) + tail;
    PayloadRoundTrip(version, Data([], 0, 0), parts, tail);
    assert [] + AllText(parts) == AllText(parts);
  }
}
