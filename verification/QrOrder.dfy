/** The order in which quirc reads the data cells, said without the walk: column pairs from right to left,
    up and down in turn, in each row the right cell first. */
module QrOrder {
  import opened QrGrid

  /** The number of the pair of columns that column x belongs to, counted from the right without column 6. */
  function Pair(n: nat, x: int): int {
    if x > 6 then (n - 1 - x) / 2 else (n - 2 - x) / 2
  }

  /** Whether a is read before b. */
  predicate Earlier(n: nat, a: Cell, b: Cell) {
    var p, q := Pair(n, a.x), Pair(n, b.x);
    || p < q
    || (p == q && a.y != b.y && (if p % 2 == 0 then a.y > b.y else a.y < b.y))
    || (p == q && a.y == b.y && a.x > b.x)
  }

  ghost predicate InOrder(n: nat, s: seq<Cell>) {
    forall i, j | 0 <= i < j < |s| :: Earlier(n, s[i], s[j])
  }

  lemma EarlierIsStrict(n: nat, a: Cell, b: Cell)
    ensures !(Earlier(n, a, b) && Earlier(n, b, a)) && !Earlier(n, a, a)
  {
  }

  lemma {:induction false} VisitedIsIn(s: seq<Cell>, c: Cell)
    ensures c in s <==> Visits(s, c) > 0
    decreases |s|
  {
    if |s| > 0 {
      VisitedIsIn(s[1..], c);
      assert s == [s[0]] + s[1..];
    }
  }

  /** The walk goes up in even pairs and down in odd ones. */
  predicate Heading(n: nat, x: int, dir: int) {
    x > 0 ==> dir == if Pair(n, if x == 6 then 5 else x) % 2 == 0 then -1 else 1
  }

  lemma HeadingNext(n: nat, y: nat, x: int, dir: int)
    requires n % 2 == 1 && n >= 7 && y < n && Stand(x) && 0 < x < n && Heading(n, x, dir)
    ensures var p := Next(n, y, x, dir); Heading(n, p.x, p.dir) && p.x < n
  {
    var col := if x == 6 then 5 else x;
    assert Right(col) == col;
    var p := Next(n, y, x, dir);
    if p.x != col && p.x > 0 {
      var col' := if p.x == 6 then 5 else p.x;
      assert Right(col') == col' && Pair(n, col') == Pair(n, col) + 1;
    }
  }

  /** Everything still ahead after a turn is read later than the two cells of the turn. */
  lemma TurnIsEarlier(n: nat, y: nat, x: int, dir: int, c: Cell)
    requires n % 2 == 1 && n >= 7 && y < n && (dir == 1 || dir == -1) && Stand(x) && 0 < x < n && Heading(n, x, dir)
    requires var p := Next(n, y, x, dir); Ahead(n, p.y, p.x, p.dir, c)
    ensures var col := if x == 6 then 5 else x; Earlier(n, Cell(y, col), c) && Earlier(n, Cell(y, col - 1), c)
  {
    var col := if x == 6 then 5 else x;
    var p := Next(n, y, x, dir);
    RightIs(c.x, col);
    assert Right(col) == col && Right(col - 1) == col;
    assert Pair(n, col) == Pair(n, col - 1);
    if Right(c.x) == col {
      assert Pair(n, c.x) == Pair(n, col);
    } else {
      PairGrows(n, c.x, col);
    }
    hide Right, Pair;
  }

  lemma PairGrows(n: nat, j: int, col: int)
    requires n % 2 == 1 && (col == 1 || col == 3 || col == 5 || (col >= 8 && col % 2 == 0)) && j != 6 && Right(j) < col
    ensures Pair(n, col) < Pair(n, j)
  {
    RightIs(j, col);
    assert Right(col) == col && Right(j) != 6 && Right(j) != 7;
  }

  /** The walk is in order. */
  lemma {:induction false} WalkFromInOrder(n: nat, y: nat, x: int, dir: int)
    requires n % 2 == 1 && n >= 7 && y < n && (dir == 1 || dir == -1) && Stand(x) && x < n && Heading(n, x, dir)
    ensures InOrder(n, WalkFrom(n, y, x, dir))
    decreases if x > 0 then x else 0, if dir < 0 then y else n - y
  {
    if x > 0 {
      hide WalkFrom, Earlier, Heading, Visits, Ahead;
      var p := Next(n, y, x, dir);
      HeadingNext(n, y, x, dir);
      WalkUnfolds(n, y, x, dir);
      WalkFromInOrder(n, p.y, p.x, p.dir);
      TurnBeforeRest(n, y, x, dir);
      var col := if x == 6 then 5 else x;
      SameRow(n, y, col);
      Prepend(n, Cell(y, col), Cell(y, col - 1), WalkFrom(n, p.y, p.x, p.dir));
    }
  }

  lemma TurnBeforeRest(n: nat, y: nat, x: int, dir: int)
    requires n % 2 == 1 && n >= 7 && y < n && (dir == 1 || dir == -1) && Stand(x) && 0 < x < n && Heading(n, x, dir)
    ensures var col := if x == 6 then 5 else x;
            var p := Next(n, y, x, dir);
            var rest := WalkFrom(n, p.y, p.x, p.dir);
            forall k | 0 <= k < |rest| :: Earlier(n, Cell(y, col), rest[k]) && Earlier(n, Cell(y, col - 1), rest[k])
  {
    HeadingNext(n, y, x, dir);
    WalkUnfolds(n, y, x, dir);
    hide WalkFrom, Earlier, Heading, Visits, Ahead, Stand;
    var p := Next(n, y, x, dir);
    var rest := WalkFrom(n, p.y, p.x, p.dir);
    forall k | 0 <= k < |rest|
      ensures var col := if x == 6 then 5 else x;
              Earlier(n, Cell(y, col), rest[k]) && Earlier(n, Cell(y, col - 1), rest[k])
    {
      VisitedIsIn(rest, rest[k]);
      WalkVisits(n, p.y, p.x, p.dir, rest[k]);
      TurnIsEarlier(n, y, x, dir, rest[k]);
    }
  }

  lemma SameRow(n: nat, y: nat, col: int)
    requires col == 1 || col == 3 || col == 5 || (col >= 8 && col % 2 == 0)
    ensures Earlier(n, Cell(y, col), Cell(y, col - 1))
  {
    assert Right(col) == col && Right(col - 1) == col;
  }

  lemma Prepend(n: nat, a: Cell, b: Cell, rest: seq<Cell>)
    requires Earlier(n, a, b) && InOrder(n, rest)
    requires forall k | 0 <= k < |rest| :: Earlier(n, a, rest[k]) && Earlier(n, b, rest[k])
    ensures InOrder(n, [a, b] + rest)
  {
    hide Earlier;
  }

  /** For every odd size from 7 on: of two cells the walk meets, it meets first the one that is earlier. */
  lemma WalkInOrder(n: nat, i: nat, j: nat)
    requires n >= 7 && n % 2 == 1 && i < |Walk(n)| && j < |Walk(n)|
    ensures i < j <==> Earlier(n, Walk(n)[i], Walk(n)[j])
  {
    StartsUp(n);
    WalkFromInOrder(n, n - 1, n - 1, -1);
    EarlierIsStrict(n, Walk(n)[i], Walk(n)[j]);
    hide Earlier, WalkFrom;
  }

  lemma StartsUp(n: nat)
    requires n >= 7 && n % 2 == 1
    ensures Stand(n - 1) && Heading(n, n - 1, -1)
  {
    var col := if n - 1 == 6 then 5 else n - 1;
    assert Right(col) == col && Pair(n, col) == 0;
  }

  // ----- the data cells -----

  lemma {:induction false} UnreservedInOrder(n: nat, reserved: Cell -> bool, s: seq<Cell>)
    requires InOrder(n, s)
    ensures InOrder(n, Unreserved(reserved, s))
    decreases |s|
  {
    hide Earlier;
    if |s| > 0 {
      var r := Unreserved(reserved, s[1..]);
      UnreservedInOrder(n, reserved, s[1..]);
      forall k | 0 <= k < |r| ensures Earlier(n, s[0], r[k]) {
        assert r[k] in s[1..];
        var j :| 0 <= j < |s| - 1 && s[1..][j] == r[k];
        assert s[j + 1] == r[k];
      }
    }
  }

  /** The bits of the cells of s, reserved or not, in order. */
  function CellBits(code: Code, mask: nat, s: seq<Cell>): seq<bool>
    requires CodeOk(code) && AllInGrid(code.size, s)
  {
    seq(|s|, k requires 0 <= k < |s| => CellBit(code, mask, s[k]))
  }

  lemma {:induction false} ReadCellsAre(code: Code, mask: nat, reserved: Cell -> bool, s: seq<Cell>)
    requires CodeOk(code) && AllInGrid(code.size, s)
    ensures AllInGrid(code.size, Unreserved(reserved, s))
    ensures ReadCells(code, mask, reserved, s) == CellBits(code, mask, Unreserved(reserved, s))
    decreases |s|
  {
    hide CellBit, InGrid;
    if |s| > 0 {
      forall k | 0 <= k < |s| - 1 ensures InGrid(code.size, s[1..][k]) { assert s[1..][k] == s[k + 1]; }
      ReadCellsAre(code, mask, reserved, s[1..]);
    }
  }

  /** Exactly the data cells of a code: inside the grid and not reserved. */
  ghost predicate IsDataCells(n: nat, reserved: Cell -> bool, s: seq<Cell>) {
    forall c: Cell :: c in s <==> InGrid(n, c) && !reserved(c)
  }

  /** Two lists of the same cells in order are the same list. */
  lemma {:induction false} OneOrder(n: nat, a: seq<Cell>, b: seq<Cell>)
    requires InOrder(n, a) && InOrder(n, b) && forall c: Cell :: c in a <==> c in b
    ensures a == b
    decreases |a|
  {
    hide Earlier;
    SomeMember(b);
    if |a| > 0 {
      assert a[0] in b;
      SameFirst(n, a, b);
      forall c: Cell ensures c in a[1..] <==> c in b[1..] {
        WithoutFirst(n, a, c);
        WithoutFirst(n, b, c);
      }
      OneOrder(n, a[1..], b[1..]);
      assert a == [a[0]] + a[1..] && b == [b[0]] + b[1..];
    }
  }

  lemma SomeMember(s: seq<Cell>)
    ensures |s| == 0 || exists c :: c in s
  {
    if |s| > 0 { assert s[0] in s; }
  }

  lemma SameFirst(n: nat, a: seq<Cell>, b: seq<Cell>)
    requires InOrder(n, a) && InOrder(n, b) && |a| > 0 && |b| > 0 && a[0] in b && b[0] in a
    ensures a[0] == b[0]
  {
    EarlierIsStrict(n, a[0], b[0]);
    hide Earlier;
  }

  lemma WithoutFirst(n: nat, a: seq<Cell>, c: Cell)
    requires InOrder(n, a) && |a| > 0
    ensures c in a[1..] <==> c in a && c != a[0]
  {
    EarlierIsStrict(n, a[0], a[0]);
    hide Earlier;
    assert a == [a[0]] + a[1..];
    forall k | 0 <= k < |a| - 1 ensures a[1..][k] != a[0] { assert Earlier(n, a[0], a[k + 1]); }
  }

  /** What read_data reads are the bits of the data cells in the order above, however that order is found. */
  lemma DataBitsInOrder(code: Code, mask: nat, reserved: Cell -> bool, s: seq<Cell>)
    requires CodeOk(code) && code.size >= 7 && code.size % 2 == 1 && forall c: Cell :: c.x == 6 ==> reserved(c)
    requires InOrder(code.size, s) && IsDataCells(code.size, reserved, s)
    ensures AllInGrid(code.size, Walk(code.size)) && AllInGrid(code.size, s)
    ensures ReadCells(code, mask, reserved, Walk(code.size)) == CellBits(code, mask, s)
  {
    var n := code.size;
    hide CellBit, InGrid, Earlier, ReadCells, WalkFrom, CodeOk;
    WalkFits(n);
    ReadCellsAre(code, mask, reserved, Walk(n));
    forall i, j | 0 <= i < j < |Walk(n)| ensures Earlier(n, Walk(n)[i], Walk(n)[j]) { WalkInOrder(n, i, j); }
    UnreservedInOrder(n, reserved, Walk(n));
    var u := Unreserved(reserved, Walk(n));
    forall c: Cell ensures c in u <==> c in s {
      VisitedIsIn(u, c);
      DataCellsOnce(n, reserved, c);
    }
    OneOrder(n, u, s);
  }
}
