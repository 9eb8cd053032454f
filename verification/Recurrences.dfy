/** Linear recurrences over a field: what the Berlekamp-Massey algorithm keeps,
    and why no shorter recurrence exists. */
module Recurrences {
  import opened Fields
  import opened Sums

  /** The coefficient at i; a sequence stands for the polynomial that is zero beyond it. */
  function Coef<T(!new)>(f: Field<T>, c: seq<T>, i: int): T {
    if 0 <= i < |c| then c[i] else f.zero
  }

  function DiscTerm<T(!new)>(f: Field<T>, c: seq<T>, s: seq<T>, n: int): int -> T {
    i => f.mul(Coef(f, c, i), Coef(f, s, n - i))
  }

  /** The discrepancy of c at index n: c[0]*s[n] + c[1]*s[n-1] + ... + c[n]*s[0]. */
  function Discrepancy<T(!new)>(f: Field<T>, c: seq<T>, s: seq<T>, n: nat): T {
    Sum(f, n + 1, DiscTerm(f, c, s, n))
  }

  ghost predicate DegreeAtMost<T(!new)>(f: Field<T>, c: seq<T>, d: int) {
    forall i | d < i :: Coef(f, c, i) == f.zero
  }

  ghost predicate Annihilates<T(!new)>(f: Field<T>, c: seq<T>, s: seq<T>, lo: int, hi: int) {
    forall k: nat | lo <= k < hi :: Discrepancy(f, c, s, k) == f.zero
  }

  /** c is a connection polynomial of length len for the first n symbols of s. */
  ghost predicate Generates<T(!new)>(f: Field<T>, c: seq<T>, len: nat, s: seq<T>, n: nat) {
    && Coef(f, c, 0) == f.one
    && DegreeAtMost(f, c, len)
    && Annihilates(f, c, s, len, n)
  }

  /** No connection polynomial for the first n symbols of s is shorter than len. */
  ghost predicate NoShorter<T(!new)>(f: Field<T>, s: seq<T>, n: nat, len: nat) {
    forall c: seq<T>, l: nat | Generates(f, c, l, s, n) :: len <= l
  }

  function CrossTerm<T(!new)>(f: Field<T>, c: seq<T>, c': seq<T>, s: seq<T>, n: int): (int, int) -> T {
    (j, i) => f.mul(Coef(f, c', j), f.mul(Coef(f, c, i), Coef(f, s, n - j - i)))
  }

  /** One row of the cross sum is c'[j] times the discrepancy of c at n - j. */
  lemma CrossRow<T(!new)>(f: Field<T>, c: seq<T>, c': seq<T>, s: seq<T>, n: nat, j: nat)
    requires f.IsField() && j <= n
    ensures RowSums(f, n + 1, CrossTerm(f, c, c', s, n))(j)
            == f.mul(Coef(f, c', j), Discrepancy(f, c, s, n - j))
  {
    var row := Row(CrossTerm(f, c, c', s, n), j);
    forall i | n - j < i <= n
      ensures row(i) == f.zero
    {
      f.MulZero(Coef(f, c, i));
      f.MulZero(Coef(f, c', j));
    }
    SumTail(f, n - j + 1, n + 1, row);
    SumScale(f, n - j + 1, Coef(f, c', j), DiscTerm(f, c, s, n - j), row);
  }

  /** One column of the cross sum is c[i] times the discrepancy of c' at n - i. */
  lemma CrossColumn<T(!new)>(f: Field<T>, c: seq<T>, c': seq<T>, s: seq<T>, n: nat, i: nat)
    requires f.IsField() && i <= n
    ensures ColumnSums(f, n + 1, CrossTerm(f, c, c', s, n))(i)
            == f.mul(Coef(f, c, i), Discrepancy(f, c', s, n - i))
  {
    var col := Column(CrossTerm(f, c, c', s, n), i);
    forall j | 0 <= j <= n
      ensures col(j) == f.mul(Coef(f, c, i), DiscTerm(f, c', s, n - i)(j))
    {
      var x, y, z := Coef(f, c', j), Coef(f, c, i), Coef(f, s, n - j - i);
      assert n - j - i == n - i - j;
      assert f.Law(x, y, z) && f.Law(y, x, z);
    }
    forall j | n - i < j <= n
      ensures col(j) == f.zero
    {
      f.MulZero(Coef(f, c', j));
      f.MulZero(Coef(f, c, i));
    }
    SumTail(f, n - i + 1, n + 1, col);
    SumScale(f, n - i + 1, Coef(f, c, i), DiscTerm(f, c', s, n - i), col);
  }

  /** Massey's bound: when a connection polynomial of length len fails at n, every
      polynomial that also covers index n has length at least n + 1 - len. */
  lemma LengthBound<T(!new)>(f: Field<T>, c: seq<T>, len: nat, c': seq<T>, len': nat, s: seq<T>, n: nat)
    requires f.IsField()
    requires Generates(f, c, len, s, n) && Discrepancy(f, c, s, n) != f.zero
    requires Generates(f, c', len', s, n + 1)
    ensures n + 1 - len <= len'
  {
    if len' <= n - len {
      var g := CrossTerm(f, c, c', s, n);
      var rows, cols := RowSums(f, n + 1, g), ColumnSums(f, n + 1, g);
      SumExchange(f, n + 1, n + 1, g);
      forall j | 0 <= j < n + 1 && j != 0
        ensures rows(j) == f.zero
      {
        CrossRow(f, c, c', s, n, j);
        f.MulZero(Coef(f, c', j));
        f.MulZero(Discrepancy(f, c, s, n - j));
      }
      SumSingle(f, n + 1, rows, 0);
      CrossRow(f, c, c', s, n, 0);
      var d := Discrepancy(f, c, s, n);
      assert f.Law(f.one, d, d) && f.Law(d, d, d);
      forall i | 0 <= i < n + 1
        ensures cols(i) == f.zero
      {
        CrossColumn(f, c, c', s, n, i);
        f.MulZero(Coef(f, c, i));
        f.MulZero(Discrepancy(f, c', s, n - i));
      }
      SumOfZeros(f, n + 1, cols);
      assert false;
    }
  }

  /** out = c + x^m * mult * b, as poly_add computes it. */
  ghost predicate Combines<T(!new)>(f: Field<T>, out: seq<T>, c: seq<T>, b: seq<T>, mult: T, m: int, hi: int) {
    forall i | 0 <= i < hi :: Coef(f, out, i) == f.add(Coef(f, c, i), f.mul(mult, Coef(f, b, i - m)))
  }

  function ShiftedTerm<T(!new)>(f: Field<T>, b: seq<T>, mult: T, m: nat, s: seq<T>, n: nat): int -> T {
    i => f.mul(mult, f.mul(Coef(f, b, i - m), Coef(f, s, n - i)))
  }

  /** The part that the shifted polynomial contributes to a discrepancy. */
  lemma ShiftedSum<T(!new)>(f: Field<T>, b: seq<T>, mult: T, m: nat, s: seq<T>, n: nat)
    requires f.IsField()
    ensures Sum(f, n + 1, ShiftedTerm(f, b, mult, m, s, n))
            == if m <= n then f.mul(mult, Discrepancy(f, b, s, n - m)) else f.zero
  {
    var shifted := ShiftedTerm(f, b, mult, m, s, n);
    forall i | 0 <= i < m
      ensures shifted(i) == f.zero
    {
      assert Coef(f, b, i - m) == f.zero;
      f.MulZero(Coef(f, s, n - i));
      f.MulZero(mult);
    }
    if m <= n {
      var scaled := ShiftedTerm(f, b, mult, 0, s, n - m);
      forall i | 0 <= i < n - m + 1
        ensures shifted(m + i) == scaled(i)
      {
        var k := m + i;
        assert k - m == i - 0 && n - k == n - m - i;
      }
      SumShift(f, m, n - m + 1, shifted, scaled);
      SumScale(f, n - m + 1, mult, DiscTerm(f, b, s, n - m), scaled);
    } else {
      SumOfZeros(f, n + 1, shifted);
    }
  }

  /** The discrepancy is linear in the connection polynomial. */
  lemma DiscrepancyCombines<T(!new)>(f: Field<T>, out: seq<T>, c: seq<T>, b: seq<T>, mult: T, m: nat,
                                     s: seq<T>, n: nat)
    requires f.IsField() && Combines(f, out, c, b, mult, m, n + 1)
    ensures Discrepancy(f, out, s, n)
            == if m <= n then f.add(Discrepancy(f, c, s, n), f.mul(mult, Discrepancy(f, b, s, n - m)))
               else Discrepancy(f, c, s, n)
  {
    var shifted := ShiftedTerm(f, b, mult, m, s, n);
    forall i | 0 <= i < n + 1
      ensures DiscTerm(f, out, s, n)(i) == f.add(DiscTerm(f, c, s, n)(i), shifted(i))
    {
      f.MulAddRight(Coef(f, c, i), mult, Coef(f, b, i - m), Coef(f, s, n - i));
    }
    SumAdd(f, n + 1, DiscTerm(f, c, s, n), shifted, DiscTerm(f, out, s, n));
    ShiftedSum(f, b, mult, m, s, n);
    assert f.Law(Discrepancy(f, c, s, n), f.zero, f.zero);
  }
}
