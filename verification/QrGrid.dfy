/** How quirc reads the data cells of a QR code: the zigzag of read_data. */
module QrGrid {
  import opened QrDecoder

  datatype Cell = Cell(y: int, x: int)

  // ----- the walk -----

  /** The loop of read_data from row y and column x on, going up or down: two columns at a time from the
      right, past the timing column. */
  function WalkFrom(n: nat, y: nat, x: int, dir: int): seq<Cell>
    requires y < n && (dir == 1 || dir == -1)
    decreases if x > 0 then x else 0, if dir < 0 then y else n - y
  {
    if x <= 0 then []
    else
      var c := if x == 6 then 5 else x;
      [Cell(y, c), Cell(y, c - 1)]
      + if 0 <= y + dir < n then WalkFrom(n, y + dir, c, dir) else WalkFrom(n, y, c - 2, -dir)
  }

  function Walk(n: nat): seq<Cell>
    requires n > 0
  {
    WalkFrom(n, n - 1, n - 1, -1)
  }

  function Visits(s: seq<Cell>, c: Cell): nat {
    if |s| == 0 then 0 else (if s[0] == c then 1 else 0) + Visits(s[1..], c)
  }

  /** The right column of the pair column j is read with. */
  function Right(j: int): int {
    if j > 6 then (if j % 2 == 0 then j else j + 1) else (if j % 2 == 1 then j else j + 1)
  }

  /** A column the walk can stand on, or past the last one. */
  predicate Stand(x: int) { x == -1 || x == 1 || x == 3 || x == 5 || x == 6 || (x >= 8 && x % 2 == 0) }

  /** Whether the cell is still ahead. */
  predicate Ahead(n: nat, y: int, x: int, dir: int, c: Cell) {
    var col := if x == 6 then 5 else x;
    && 0 <= c.y < n && 0 <= c.x && c.x != 6
    && (Right(c.x) < col || (Right(c.x) == col && (if dir < 0 then c.y <= y else c.y >= y)))
  }

  lemma VisitsTwo(a: Cell, b: Cell, s: seq<Cell>, c: Cell)
    ensures Visits([a, b] + s, c) == (if a == c then 1 else 0) + (if b == c then 1 else 0) + Visits(s, c)
  {
    assert ([a, b] + s)[1..] == [b] + s && ([b] + s)[1..] == s;
  }

  /** Where one turn of the loop goes next. */
  datatype Position = Position(y: nat, x: int, dir: int)

  function Next(n: nat, y: nat, x: int, dir: int): (p: Position)
    requires y < n && (dir == 1 || dir == -1)
    ensures p.y < n && (p.dir == 1 || p.dir == -1)
  {
    var col := if x == 6 then 5 else x;
    if 0 <= y + dir < n then Position(y + dir, col, dir) else Position(y, col - 2, -dir)
  }

  /** One turn takes the two cells of its row off what is ahead. */
  lemma AheadNext(n: nat, y: nat, x: int, dir: int, c: Cell)
    requires y < n && (dir == 1 || dir == -1) && Stand(x) && x > 0
    ensures var col := if x == 6 then 5 else x;
            var p := Next(n, y, x, dir);
            var here := c == Cell(y, col) || c == Cell(y, col - 1);
            Stand(p.x) && (Ahead(n, y, x, dir, c) <==> here || Ahead(n, p.y, p.x, p.dir, c))
            && !(here && Ahead(n, p.y, p.x, p.dir, c))
  {
    var col := if x == 6 then 5 else x;
    RightIs(c.x, col);
    hide Right;
  }

  /** The columns of a pair. */
  lemma RightIs(j: int, col: int)
    requires col == 1 || col == 3 || col == 5 || (col >= 8 && col % 2 == 0)
    ensures j != 6 ==> (Right(j) == col <==> j == col || j == col - 1)
    ensures j != 6 ==> (Right(j) < col <==> j < col - 1)
    ensures j != 6 && col == 8 ==> (Right(j) < 8 <==> Right(j) <= 5)
    ensures j != 6 && col != 8 ==> (Right(j) < col <==> Right(j) <= col - 2)
  {
  }

  /** The walk meets every cell ahead of it exactly once and no other. */
  lemma {:induction false} WalkVisits(n: nat, y: nat, x: int, dir: int, c: Cell)
    requires y < n && (dir == 1 || dir == -1) && Stand(x)
    ensures Visits(WalkFrom(n, y, x, dir), c) == if Ahead(n, y, x, dir, c) then 1 else 0
    decreases if x > 0 then x else 0, if dir < 0 then y else n - y
  {
    if x > 0 {
      var col := if x == 6 then 5 else x;
      var p := Next(n, y, x, dir);
      AheadNext(n, y, x, dir, c);
      hide Ahead, Visits;
      WalkVisits(n, p.y, p.x, p.dir, c);
      VisitsTwo(Cell(y, col), Cell(y, col - 1), WalkFrom(n, p.y, p.x, p.dir), c);
    } else {
      NothingAhead(n, y, x, dir, c);
    }
  }

  lemma NothingAhead(n: nat, y: nat, x: int, dir: int, c: Cell)
    requires y < n && Stand(x) && x <= 0
    ensures !Ahead(n, y, x, dir, c)
  {
  }

  /** For every odd size from 7 on, the walk visits each cell outside column 6 exactly once, and no cell
      of column 6. */
  lemma WalkVisitsOnce(n: nat, c: Cell)
    requires n >= 7 && n % 2 == 1
    ensures Visits(Walk(n), c) == if 0 <= c.y < n && 0 <= c.x < n && c.x != 6 then 1 else 0
  {
    hide WalkFrom, Visits, Ahead, Right;
    WalkVisits(n, n - 1, n - 1, -1, c);
    AllAhead(n, c);
  }

  /** At the start every cell outside column 6 is ahead. */
  lemma AllAhead(n: nat, c: Cell)
    requires n % 2 == 1 && n >= 7
    ensures Ahead(n, n - 1, n - 1, -1, c) <==> 0 <= c.y < n && 0 <= c.x < n && c.x != 6
  {
    var col := if n - 1 == 6 then 5 else n - 1;
    RightIs(c.x, col);
    hide Right;
  }

  ghost predicate EachOnce(n: nat)
    requires n > 0
  {
    forall c: Cell :: Visits(Walk(n), c) == if 0 <= c.y < n && 0 <= c.x < n && c.x != 6 then 1 else 0
  }

  /** Among odd sizes, 7 and more are exactly those for which it does: smaller ones miss the first column. */
  lemma EachOnceFromSeven(n: nat)
    requires n % 2 == 1
    ensures EachOnce(n) <==> n >= 7
  {
    if n >= 7 {
      hide Visits, Walk;
      forall c: Cell ensures Visits(Walk(n), c) == if 0 <= c.y < n && 0 <= c.x < n && c.x != 6 then 1 else 0 {
        WalkVisitsOnce(n, c);
      }
    } else {
      NoneOfFirst(n, n - 1, n - 1, -1);
      assert Visits(Walk(n), Cell(0, 0)) == 0;
    }
  }

  lemma {:induction false} NoneOfFirst(n: nat, y: nat, x: int, dir: int)
    requires y < n && (dir == 1 || dir == -1) && x % 2 == 0 && x < 6
    ensures Visits(WalkFrom(n, y, x, dir), Cell(0, 0)) == 0
    decreases if x > 0 then x else 0, if dir < 0 then y else n - y
  {
    if x > 0 {
      if 0 <= y + dir < n {
        NoneOfFirst(n, y + dir, x, dir);
        VisitsTwo(Cell(y, x), Cell(y, x - 1), WalkFrom(n, y + dir, x, dir), Cell(0, 0));
      } else {
        NoneOfFirst(n, y, x - 2, -dir);
        VisitsTwo(Cell(y, x), Cell(y, x - 1), WalkFrom(n, y, x - 2, -dir), Cell(0, 0));
      }
    }
  }

  // ----- cells -----

  /** A sampled code: size cells a side, one bit a cell, lowest bit first. */
  datatype Code = Code(size: nat, bitmap: seq<bv8>)

  predicate CodeOk(code: Code) { code.size > 0 && code.size * code.size <= 8 * |code.bitmap| }

  predicate InGrid(n: nat, c: Cell) { 0 <= c.y < n && 0 <= c.x < n }

  lemma CellIndex(n: nat, c: Cell)
    requires InGrid(n, c)
    ensures 0 <= c.y * n + c.x < n * n
  {
    assert c.y * n <= (n - 1) * n;
  }

  function GridBit(code: Code, c: Cell): bool
    requires CodeOk(code) && InGrid(code.size, c)
  {
    CellIndex(code.size, c);
    var p := c.y * code.size + c.x;
    code.bitmap[p / 8] & Mask(7 - p % 8) != 0
  }

  /** mask_bit, for row i and column j. */
  function MaskBit(mask: nat, i: nat, j: nat): bool {
    if mask == 0 then (i + j) % 2 == 0
    else if mask == 1 then i % 2 == 0
    else if mask == 2 then j % 3 == 0
    else if mask == 3 then (i + j) % 3 == 0
    else if mask == 4 then (i / 2 + j / 3) % 2 == 0
    else if mask == 5 then i * j % 2 + i * j % 3 == 0
    else if mask == 6 then (i * j % 2 + i * j % 3) % 2 == 0
    else if mask == 7 then (i * j % 3 + (i + j) % 2) % 2 == 0
    else false
  }

  /** The last alignment position within two cells of v, or -1. */
  function AlignIndex(apat: seq<nat>, v: int): (a: int)
    ensures -1 <= a < |apat|
  {
    if |apat| == 0 then -1
    else
      var last := apat[|apat| - 1];
      if -3 < last - v < 3 then |apat| - 1 else AlignIndex(apat[..|apat| - 1], v)
  }

  /** reserved_cell, for the alignment positions of a version. */
  predicate Reserved(version: nat, apat: seq<nat>, c: Cell) {
    var size, i, j := version * 4 + 17, c.y, c.x;
    var ai, aj, last := AlignIndex(apat, i), AlignIndex(apat, j), |apat| - 1;
    || (i < 9 && j < 9) || (i + 8 >= size && j < 9) || (i < 9 && j + 8 >= size)
    || i == 6 || j == 6
    || (version >= 7 && ((i < 6 && j + 11 >= size) || (i + 11 >= size && j < 6)))
    || (ai >= 0 && aj >= 0 && (0 < ai < last || 0 < aj < last || (aj == last && ai == last)))
  }

  function Unreserved(reserved: Cell -> bool, s: seq<Cell>): (r: seq<Cell>)
    ensures |r| <= |s|
    ensures forall k | 0 <= k < |r| :: r[k] in s
  {
    if |s| == 0 then [] else (if reserved(s[0]) then [] else [s[0]]) + Unreserved(reserved, s[1..])
  }

  /** The bit read_bit takes from a cell: its colour under the mask. */
  function CellBit(code: Code, mask: nat, c: Cell): bool
    requires CodeOk(code) && InGrid(code.size, c)
  {
    GridBit(code, c) != MaskBit(mask, c.y, c.x)
  }

  predicate AllInGrid(n: nat, s: seq<Cell>) { forall k | 0 <= k < |s| :: InGrid(n, s[k]) }

  /** The bits of the unreserved cells of s, in order. */
  function ReadCells(code: Code, mask: nat, reserved: Cell -> bool, s: seq<Cell>): (b: seq<bool>)
    requires CodeOk(code) && AllInGrid(code.size, s)
    ensures |b| <= |s|
  {
    if |s| == 0 then []
    else (if reserved(s[0]) then [] else [CellBit(code, mask, s[0])]) + ReadCells(code, mask, reserved, s[1..])
  }

  lemma {:induction false} UnreservedVisits(reserved: Cell -> bool, s: seq<Cell>, c: Cell)
    ensures Visits(Unreserved(reserved, s), c) == if reserved(c) then 0 else Visits(s, c)
    decreases |s|
  {
    if |s| > 0 {
      UnreservedVisits(reserved, s[1..], c);
      if reserved(s[0]) {
        assert [] + Unreserved(reserved, s[1..]) == Unreserved(reserved, s[1..]);
      } else {
        assert ([s[0]] + Unreserved(reserved, s[1..]))[1..] == Unreserved(reserved, s[1..]);
      }
    }
  }

  /** With any reservation that covers the timing column, the data cells are read exactly once each. */
  lemma DataCellsOnce(n: nat, reserved: Cell -> bool, c: Cell)
    requires n >= 7 && n % 2 == 1 && forall c: Cell :: c.x == 6 ==> reserved(c)
    ensures Visits(Unreserved(reserved, Walk(n)), c) == if InGrid(n, c) && !reserved(c) then 1 else 0
  {
    UnreservedVisits(reserved, Walk(n), c);
    WalkVisitsOnce(n, c);
  }

  /** reserved_cell covers it for every version. */
  lemma TimingColumnReserved(version: nat, apat: seq<nat>, c: Cell)
    ensures c.x == 6 ==> Reserved(version, apat, c)
  {
  }

  lemma {:induction false} ReadCellsAppend(code: Code, mask: nat, reserved: Cell -> bool, a: seq<Cell>, b: seq<Cell>)
    requires CodeOk(code) && AllInGrid(code.size, a) && AllInGrid(code.size, b)
    ensures AllInGrid(code.size, a + b)
    ensures ReadCells(code, mask, reserved, a + b)
         == ReadCells(code, mask, reserved, a) + ReadCells(code, mask, reserved, b)
    decreases |a|
  {
    hide CellBit, InGrid;
    forall k | 0 <= k < |a + b| ensures InGrid(code.size, (a + b)[k]) {}
    if |a| == 0 {
      assert a + b == b;
    } else {
      assert (a + b)[1..] == a[1..] + b;
      ReadCellsAppend(code, mask, reserved, a[1..], b);
    }
  }

  lemma {:induction false} WalkInGrid(n: nat, y: nat, x: int, dir: int)
    requires y < n && (dir == 1 || dir == -1) && Stand(x) && x < n && n >= 6
    ensures AllInGrid(n, WalkFrom(n, y, x, dir))
    decreases if x > 0 then x else 0, if dir < 0 then y else n - y
  {
    if x > 0 {
      var c := if x == 6 then 5 else x;
      if 0 <= y + dir < n { WalkInGrid(n, y + dir, c, dir); } else { WalkInGrid(n, y, c - 2, -dir); }
    }
  }

  /** The cells of the column pairs from x on. */
  function Area(n: nat, x: int): nat
    decreases if x > 0 then x else 0
  {
    if x <= 0 then 0 else 2 * n + Area(n, x - 2)
  }

  lemma {:induction false} AreaBound(n: nat, x: int)
    requires x >= -1
    ensures Area(n, x) <= (x + 1) * n
    decreases if x > 0 then x else 0
  {
    if x > 0 {
      AreaBound(n, x - 2);
      assert (x + 1) * n == (x - 1) * n + 2 * n;
    } else {
      assert 0 <= (x + 1) * n;
    }
  }

  lemma {:induction false} AreaMonotone(n: nat, x: int)
    ensures Area(n, x) <= Area(n, x + 1)
    decreases if x > 0 then x else 0
  {
    if x > 0 { AreaMonotone(n, x - 2); }
  }

  lemma {:induction false} WalkLength(n: nat, y: nat, x: int, dir: int)
    requires y < n && (dir == 1 || dir == -1)
    ensures |WalkFrom(n, y, x, dir)| <= if x <= 0 then 0 else 2 * (if dir < 0 then y + 1 else n - y) + Area(n, x - 2)
    decreases if x > 0 then x else 0, if dir < 0 then y else n - y
  {
    if x > 0 {
      var c := if x == 6 then 5 else x;
      AreaMonotone(n, 3);
      if 0 <= y + dir < n { WalkLength(n, y + dir, c, dir); } else { WalkLength(n, y, c - 2, -dir); }
    }
  }

  /** The walk fits a buffer of one bit a cell. */
  lemma WalkFits(n: nat)
    requires n >= 7 && n % 2 == 1
    ensures |Walk(n)| <= n * n && AllInGrid(n, Walk(n))
  {
    WalkInGrid(n, n - 1, n - 1, -1);
    WalkLength(n, n - 1, n - 1, -1);
    AreaBound(n, n - 3);
    assert n * n == (n - 2) * n + 2 * n;
  }

  // ----- reading into the buffer -----

  lemma MaskBits(b: bv8, k: nat, j: nat)
    requires k < 8 && j < 8
    ensures (b | Mask(k)) & Mask(j) != 0 <==> j == k || b & Mask(j) != 0
  {
  }

  ghost predicate ZeroFrom(raw: seq<bv8>, n: nat) {
    forall p | n <= p < 8 * |raw| :: !BitAt(raw, p)
  }

  /** Setting bit n adds it to the bits before it. */
  lemma SetBit(raw: seq<bv8>, raw': seq<bv8>, n: nat, bit: bool)
    requires n < 8 * |raw| && |raw'| == |raw| && ZeroFrom(raw, n)
    requires raw' == if bit then raw[n / 8 := raw[n / 8] | Mask(n % 8)] else raw
    ensures ZeroFrom(raw', n + 1) && BitsFrom(raw', 0, n + 1) == BitsFrom(raw, 0, n) + [bit]
  {
    hide BitAt;
    assert !BitAt(raw, n);
    forall p | 0 <= p < 8 * |raw| ensures BitAt(raw', p) == if p == n then bit else BitAt(raw, p) {
      SetBitAt(raw, raw', n, bit, p);
    }
  }

  lemma SetBitAt(raw: seq<bv8>, raw': seq<bv8>, n: nat, bit: bool, p: nat)
    requires n < 8 * |raw| && |raw'| == |raw| && !BitAt(raw, n) && p < 8 * |raw|
    requires raw' == if bit then raw[n / 8 := raw[n / 8] | Mask(n % 8)] else raw
    ensures BitAt(raw', p) == if p == n then bit else BitAt(raw, p)
  {
    MaskBits(raw[n / 8], n % 8, p % 8);
    hide Mask;
  }

  class Reader {
    const code: Code
    const mask: nat
    const reserved: Cell -> bool
    const raw: array<bv8>
    var dataBits: nat

    ghost predicate Valid()
      reads this, raw
    {
      CodeOk(code) && dataBits <= 8 * raw.Length && ZeroFrom(raw[..], dataBits)
    }

    /** The bits read so far. */
    ghost function Bits(): seq<bool>
      requires Valid()
      reads this, raw
    {
      BitsFrom(raw[..], 0, dataBits)
    }

    constructor (code: Code, mask: nat, reserved: Cell -> bool, raw: array<bv8>)
      requires CodeOk(code) && ZeroFrom(raw[..], 0)
      ensures Valid() && Bits() == [] && this.code == code && this.mask == mask && this.reserved == reserved
        && this.raw == raw
    {
      this.code, this.mask, this.reserved, this.raw := code, mask, reserved, raw;
      dataBits := 0;
    }

    /** read_bit. */
    method ReadBit(c: Cell)
      requires Valid() && InGrid(code.size, c) && dataBits < 8 * raw.Length
      modifies this, raw
      ensures Valid() && dataBits == old(dataBits) + 1
      ensures Bits() == old(Bits()) + [CellBit(code, mask, c)]
    {
      hide BitAt, Mask, MaskBit, GridBit, CodeOk;
      var v := GridBit(code, c);
      if MaskBit(mask, c.y, c.x) { v := !v; }
      if v { raw[dataBits / 8] := raw[dataBits / 8] | Mask(dataBits % 8); }
      SetBit(old(raw[..]), raw[..], dataBits, v);
      dataBits := dataBits + 1;
    }

    /** A cell is read unless it is reserved. */
    method ReadCell(c: Cell)
      requires Valid() && InGrid(code.size, c) && dataBits < 8 * raw.Length
      modifies this, raw
      ensures Valid() && dataBits <= old(dataBits) + 1
      ensures Bits() == old(Bits()) + ReadCells(code, mask, reserved, [c])
    {
      hide BitAt, CellBit, CodeOk, ZeroFrom;
      if reserved(c) {
        assert old(Bits()) + [] == old(Bits());
      } else {
        ReadBit(c);
      }
    }

    /** read_data. */
    method ReadData()
      requires Valid() && dataBits == 0 && code.size >= 7 && code.size % 2 == 1
      requires code.size * code.size <= 8 * raw.Length
      modifies this, raw
      ensures Valid() && AllInGrid(code.size, Walk(code.size))
      ensures Bits() == ReadCells(code, mask, reserved, Walk(code.size))
    {
      hide BitAt, CellBit, CodeOk, ZeroFrom, BitsFrom, ReadCells, InGrid, AllInGrid, WalkFrom;
      var n := code.size;
      WalkFits(n);
      var y: nat, x: int, dir := n - 1, n - 1, -1;
      assert [] + ReadCells(code, mask, reserved, Walk(n)) == ReadCells(code, mask, reserved, Walk(n));
      while x > 0
        invariant Valid() && y < n && (dir == 1 || dir == -1) && Stand(x) && AllInGrid(n, WalkFrom(n, y, x, dir))
        invariant dataBits + |WalkFrom(n, y, x, dir)| <= 8 * raw.Length
        invariant Bits() + ReadCells(code, mask, reserved, WalkFrom(n, y, x, dir))
          == ReadCells(code, mask, reserved, Walk(n))
        decreases if x > 0 then x else 0, if dir < 0 then y else n - y
      {
        WalkStep(code, mask, reserved, y, x, dir);
        if x == 6 { x := x - 1; }
        ReadPair(y, x);
        if y + dir < 0 || y + dir >= n {
          dir := -dir;
          x := x - 2;
        } else {
          y := y + dir;
        }
      }
      WalkEnds(code, mask, reserved, y, x, dir);
    }

    /** The two cells of a row. */
    method ReadPair(y: nat, x: int)
      requires Valid() && InGrid(code.size, Cell(y, x)) && InGrid(code.size, Cell(y, x - 1))
        && dataBits + 2 <= 8 * raw.Length
      modifies this, raw
      ensures Valid() && dataBits <= old(dataBits) + 2
      ensures forall rest: seq<bool> ::
        old(Bits()) + (ReadCells(code, mask, reserved, [Cell(y, x)])
          + ReadCells(code, mask, reserved, [Cell(y, x - 1)]) + rest)
        == Bits() + rest
    {
      hide BitAt, CellBit, CodeOk, ZeroFrom, BitsFrom, ReadCells, InGrid;
      ReadCell(Cell(y, x));
      ReadCell(Cell(y, x - 1));
    }
  }

  lemma WalkUnfolds(n: nat, y: nat, x: int, dir: int)
    requires y < n && (dir == 1 || dir == -1) && Stand(x) && x > 0
    ensures var p := Next(n, y, x, dir);
            var col := if x == 6 then 5 else x;
            && Stand(p.x)
            && WalkFrom(n, y, x, dir) == [Cell(y, col), Cell(y, col - 1)] + WalkFrom(n, p.y, p.x, p.dir)
  {
  }

  /** One turn of the walk. */
  lemma WalkStep(code: Code, mask: nat, reserved: Cell -> bool, y: nat, x: int, dir: int)
    requires CodeOk(code) && y < code.size && (dir == 1 || dir == -1) && Stand(x) && x > 0
    requires AllInGrid(code.size, WalkFrom(code.size, y, x, dir))
    ensures var p := Next(code.size, y, x, dir);
            var col := if x == 6 then 5 else x;
            var a, b, rest := Cell(y, col), Cell(y, col - 1), WalkFrom(code.size, p.y, p.x, p.dir);
            && Stand(p.x) && InGrid(code.size, a) && InGrid(code.size, b) && AllInGrid(code.size, rest)
            && |WalkFrom(code.size, y, x, dir)| == 2 + |rest|
            && ReadCells(code, mask, reserved, WalkFrom(code.size, y, x, dir))
               == ReadCells(code, mask, reserved, [a]) + ReadCells(code, mask, reserved, [b])
                 + ReadCells(code, mask, reserved, rest)
  {
    var p := Next(code.size, y, x, dir);
    var col := if x == 6 then 5 else x;
    WalkUnfolds(code.size, y, x, dir);
    hide ReadCells, InGrid, CodeOk, WalkFrom, Stand, Next, AllInGrid;
    WalkSplits(code, mask, reserved, Cell(y, col), Cell(y, col - 1), WalkFrom(code.size, p.y, p.x, p.dir));
  }

  lemma WalkEnds(code: Code, mask: nat, reserved: Cell -> bool, y: nat, x: int, dir: int)
    requires CodeOk(code) && y < code.size && (dir == 1 || dir == -1) && x <= 0
    ensures WalkFrom(code.size, y, x, dir) == [] && AllInGrid(code.size, [])
      && ReadCells(code, mask, reserved, []) == []
  {
  }

  lemma WalkSplits(code: Code, mask: nat, reserved: Cell -> bool, a: Cell, b: Cell, rest: seq<Cell>)
    requires CodeOk(code) && AllInGrid(code.size, [a, b] + rest)
    ensures InGrid(code.size, a) && InGrid(code.size, b) && AllInGrid(code.size, rest)
    ensures ReadCells(code, mask, reserved, [a, b] + rest)
         == ReadCells(code, mask, reserved, [a]) + ReadCells(code, mask, reserved, [b])
           + ReadCells(code, mask, reserved, rest)
  {
    assert ([a, b] + rest)[0] == a && ([a, b] + rest)[1] == b;
    forall k | 0 <= k < |rest| ensures InGrid(code.size, rest[k]) { assert ([a, b] + rest)[k + 2] == rest[k]; }
    ReadCellsAppend(code, mask, reserved, [a, b], rest);
    assert [a, b] == [a] + [b];
    ReadCellsAppend(code, mask, reserved, [a], [b]);
  }
}
