/** Which cells of a QR code quirc takes for data, and how it unmasks them, in the terms of the standard. */
module QrCells {
  import opened QrDecoder
  import opened QrGrid
  import opened QrOrder

  // ----- masks -----

  /** The mask conditions of table 20 of ISO/IEC 18004:2000, as divisibility. */
  predicate Masked(mask: nat, i: nat, j: nat) {
    match mask
    case 0 => i % 2 == j % 2
    case 1 => i % 2 == 0
    case 2 => j % 3 == 0
    case 3 => (i % 3 + j % 3) % 3 == 0
    case 4 => i / 2 % 2 == j / 3 % 2
    case 5 => i * j % 6 == 0
    case 6 => i * j % 6 < 3
    case 7 => i * j % 3 % 2 == (i + j) % 2
    case _ => false
  }

  lemma MaskMeans(mask: nat, i: nat, j: nat)
    ensures MaskBit(mask, i, j) <==> Masked(mask, i, j)
  {
    match mask
    case 0 => SumParity(i, j);
    case 3 => SumMod3(i, j);
    case 4 => SumParity(i / 2, j / 3);
    case 5 => SixSplits(i * j);
    case 6 => SixSplits(i * j);
    case 7 => SumParity(i * j % 3, (i + j) % 2);
    case _ =>
  }

  lemma SumParity(a: nat, b: nat)
    ensures (a + b) % 2 == 0 <==> a % 2 == b % 2
  {
  }

  lemma SixSplits(n: nat)
    ensures n % 6 == 0 <==> n % 2 + n % 3 == 0
    ensures n % 6 < 3 <==> (n % 2 + n % 3) % 2 == 0
  {
    var q, r := n / 6, n % 6;
    assert n == 6 * q + r;
    assert n % 2 == r % 2 && n % 3 == r % 3;
  }

  lemma SumMod3(i: nat, j: nat)
    ensures (i + j) % 3 == (i % 3 + j % 3) % 3
  {
  }

  // ----- the bitmap -----

  predicate BitUp(b: bv8, k: nat)
    requires k < 8
  {
    (b >> k) & 1 == 1
  }

  lemma MaskIsShift(b: bv8, k: nat)
    requires k < 8
    ensures b & Mask(7 - k) != 0 <==> BitUp(b, k)
  {
    assert k == 0 || k == 1 || k == 2 || k == 3 || k == 4 || k == 5 || k == 6 || k == 7;
  }

  /** Bit p of the bitmap, counted from the lowest bit of the first byte. */
  predicate Dot(bitmap: seq<bv8>, p: nat)
    requires p < 8 * |bitmap|
  {
    BitUp(bitmap[p / 8], p % 8)
  }

  lemma DotIs(bitmap: seq<bv8>, p: nat)
    requires p < 8 * |bitmap|
    ensures Dot(bitmap, p) <==> bitmap[p / 8] & Mask(7 - p % 8) != 0
  {
    hide Mask, BitUp;
    MaskIsShift(bitmap[p / 8], p % 8);
  }

  /** Cells are stored row by row, eight to a byte, from the lowest bit up. */
  lemma GridBitIs(code: QrGrid.Code, c: Cell)
    requires CodeOk(code) && InGrid(code.size, c)
    ensures 0 <= c.y * code.size + c.x < 8 * |code.bitmap|
    ensures GridBit(code, c) <==> Dot(code.bitmap, c.y * code.size + c.x)
  {
    hide Mask, Dot, BitUp;
    CellIndex(code.size, c);
    DotIs(code.bitmap, c.y * code.size + c.x);
  }

  // ----- reserved cells -----

  /** The positions of alignment patterns in a row: in order and at least five cells apart. */
  ghost predicate Spaced(apat: seq<nat>) {
    forall a, b | 0 <= a < b < |apat| :: apat[a] + 5 <= apat[b]
  }

  /** Within two cells. */
  predicate Near(p: nat, v: int) { -3 < p - v < 3 }

  lemma {:induction false} AlignIndexMeans(apat: seq<nat>, v: int)
    requires Spaced(apat)
    ensures var a := AlignIndex(apat, v);
            if a < 0 then forall b | 0 <= b < |apat| :: !Near(apat[b], v)
            else Near(apat[a], v) && forall b | 0 <= b < |apat| && b != a :: !Near(apat[b], v)
    decreases |apat|
  {
    if |apat| > 0 {
      var last := |apat| - 1;
      if !Near(apat[last], v) {
        AlignIndexMeans(apat[..last], v);
        assert forall b | 0 <= b < last :: apat[..last][b] == apat[b];
      }
    }
  }

  /** The alignment pattern in this row and column of them exists: there is none in the three corners that
      hold the finder patterns. */
  predicate HasPattern(count: nat, a: int, b: int) {
    var last := count - 1;
    0 <= a <= last && 0 <= b <= last && !(a == 0 && b == 0) && !(a == 0 && b == last) && !(a == last && b == 0)
  }

  ghost predicate InAlignment(apat: seq<nat>, c: Cell) {
    exists a, b :: HasPattern(|apat|, a, b) && Near(apat[a], c.y) && Near(apat[b], c.x)
  }

  /** The finder patterns with their separators and the format information beside them. */
  predicate InFinder(size: nat, c: Cell) {
    (c.y <= 8 && c.x <= 8) || (c.y >= size - 8 && c.x <= 8) || (c.y <= 8 && c.x >= size - 8)
  }

  /** The two blocks of three by six cells that carry the version, from version 7 on. */
  predicate InVersion(version: nat, size: nat, c: Cell) {
    version >= 7 && ((c.y <= 5 && c.x >= size - 11) || (c.y >= size - 11 && c.x <= 5))
  }

  predicate InTiming(c: Cell) { c.y == 6 || c.x == 6 }

  /** reserved_cell says of every cell of a code whether it belongs to a function pattern. */
  lemma ReservedMeans(version: nat, apat: seq<nat>, c: Cell)
    requires Spaced(apat) && |apat| != 1
    ensures var size := version * 4 + 17;
            Reserved(version, apat, c) <==>
              InFinder(size, c) || InTiming(c) || InVersion(version, size, c) || InAlignment(apat, c)
  {
    AlignIndexMeans(apat, c.y);
    AlignIndexMeans(apat, c.x);
    var ai, aj := AlignIndex(apat, c.y), AlignIndex(apat, c.x);
    assert InAlignment(apat, c) <==> HasPattern(|apat|, ai, aj);
  }

  /** The function patterns are the same on both sides of the diagonal. */
  lemma ReservedIsSymmetric(version: nat, apat: seq<nat>, y: int, x: int)
    ensures Reserved(version, apat, Cell(y, x)) <==> Reserved(version, apat, Cell(x, y))
  {
  }

  // ----- reading what was written -----

  /** The k-th data cell of the grid holds bit k, turned over where the mask says so. */
  ghost predicate Carries(code: QrGrid.Code, mask: nat, s: seq<Cell>, bits: seq<bool>)
    requires CodeOk(code) && AllInGrid(code.size, s)
  {
    |bits| == |s| && forall k | 0 <= k < |s| :: HoldsBit(code, mask, s[k], bits[k])
  }

  ghost predicate HoldsBit(code: QrGrid.Code, mask: nat, c: Cell, bit: bool)
    requires CodeOk(code) && InGrid(code.size, c)
  {
    CellIndex(code.size, c);
    Dot(code.bitmap, c.y * code.size + c.x) == if Masked(mask, c.y, c.x) then !bit else bit
  }

  lemma CellHolds(code: QrGrid.Code, mask: nat, c: Cell, bit: bool)
    requires CodeOk(code) && InGrid(code.size, c) && HoldsBit(code, mask, c, bit)
    ensures CellBit(code, mask, c) == bit
  {
    GridBitIs(code, c);
    MaskMeans(mask, c.y, c.x);
    hide Dot, Masked, MaskBit, GridBit;
  }

  /** read_data gives back the bits that were put into the data cells under any of the masks. */
  lemma CarriedIsRead(code: QrGrid.Code, mask: nat, reserved: Cell -> bool, s: seq<Cell>, bits: seq<bool>)
    requires CodeOk(code) && code.size >= 7 && code.size % 2 == 1 && forall c: Cell :: c.x == 6 ==> reserved(c)
    requires AllInGrid(code.size, s) && InOrder(code.size, s) && IsDataCells(code.size, reserved, s)
    requires Carries(code, mask, s, bits)
    ensures AllInGrid(code.size, Walk(code.size)) && ReadCells(code, mask, reserved, Walk(code.size)) == bits
  {
    hide CellBit, HoldsBit, Earlier, ReadCells, Walk, CodeOk, InGrid;
    DataBitsInOrder(code, mask, reserved, s);
    forall k | 0 <= k < |s| ensures CellBits(code, mask, s)[k] == bits[k] { CellHolds(code, mask, s[k], bits[k]); }
  }
}
