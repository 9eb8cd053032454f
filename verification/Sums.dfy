/** Finite sums over a field. */
module Sums {
  import opened Fields

  /** g(0) + g(1) + ... + g(n-1). */
  function Sum<T(!new)>(f: Field<T>, n: nat, g: int -> T): T {
    if n == 0 then f.zero else f.add(Sum(f, n - 1, g), g(n - 1))
  }

  lemma {:induction false} SumEqual<T(!new)>(f: Field<T>, n: nat, g: int -> T, h: int -> T)
    requires forall i | 0 <= i < n :: g(i) == h(i)
    ensures Sum(f, n, g) == Sum(f, n, h)
  {
    if n > 0 { SumEqual(f, n - 1, g, h); }
  }

  lemma {:induction false} SumOfZeros<T(!new)>(f: Field<T>, n: nat, g: int -> T)
    requires f.IsField()
    requires forall i | 0 <= i < n :: g(i) == f.zero
    ensures Sum(f, n, g) == f.zero
  {
    if n > 0 {
      SumOfZeros(f, n - 1, g);
      assert f.Law(f.zero, f.zero, f.zero);
    }
  }

  /** Only the first m terms can be non-zero. */
  lemma {:induction false} SumTail<T(!new)>(f: Field<T>, m: nat, n: nat, g: int -> T)
    requires f.IsField() && m <= n
    requires forall i | m <= i < n :: g(i) == f.zero
    ensures Sum(f, n, g) == Sum(f, m, g)
    decreases n
  {
    if m < n {
      SumTail(f, m, n - 1, g);
      assert f.Law(Sum(f, n - 1, g), f.zero, f.zero);
    }
  }

  /** Only the term at k can be non-zero. */
  lemma {:induction false} SumSingle<T(!new)>(f: Field<T>, n: nat, g: int -> T, k: nat)
    requires f.IsField() && k < n
    requires forall i | 0 <= i < n && i != k :: g(i) == f.zero
    ensures Sum(f, n, g) == g(k)
  {
    SumTail(f, k + 1, n, g);
    SumOfZeros(f, k, g);
    assert f.Law(f.zero, g(k), g(k)) && f.Law(g(k), f.zero, f.zero);
  }

  lemma {:induction false} SumAdd<T(!new)>(f: Field<T>, n: nat, g: int -> T, h: int -> T, k: int -> T)
    requires f.IsField()
    requires forall i | 0 <= i < n :: k(i) == f.add(g(i), h(i))
    ensures Sum(f, n, k) == f.add(Sum(f, n, g), Sum(f, n, h))
  {
    if n == 0 {
      assert f.Law(f.zero, f.zero, f.zero);
    } else {
      SumAdd(f, n - 1, g, h, k);
      f.AddInterchange(Sum(f, n - 1, g), Sum(f, n - 1, h), g(n - 1), h(n - 1));
    }
  }

  lemma {:induction false} SumScale<T(!new)>(f: Field<T>, n: nat, c: T, g: int -> T, k: int -> T)
    requires f.IsField()
    requires forall i | 0 <= i < n :: k(i) == f.mul(c, g(i))
    ensures Sum(f, n, k) == f.mul(c, Sum(f, n, g))
  {
    if n == 0 {
      f.MulZero(c);
    } else {
      SumScale(f, n - 1, c, g, k);
      assert f.Law(c, Sum(f, n - 1, g), g(n - 1));
    }
  }

  /** The first m terms are zero and the others are h, moved up by m. */
  lemma {:induction false} SumShift<T(!new)>(f: Field<T>, m: nat, n: nat, g: int -> T, h: int -> T)
    requires f.IsField()
    requires forall i | 0 <= i < m :: g(i) == f.zero
    requires forall i | 0 <= i < n :: g(m + i) == h(i)
    ensures Sum(f, m + n, g) == Sum(f, n, h)
    decreases n
  {
    if n == 0 {
      SumOfZeros(f, m, g);
    } else {
      SumShift(f, m, n - 1, g, h);
      assert g(m + (n - 1)) == h(n - 1);
    }
  }

  function Row<T>(g: (int, int) -> T, i: int): int -> T { j => g(i, j) }

  function Column<T>(g: (int, int) -> T, j: int): int -> T { i => g(i, j) }

  function RowSums<T(!new)>(f: Field<T>, n: nat, g: (int, int) -> T): int -> T {
    i => Sum(f, n, Row(g, i))
  }

  function ColumnSums<T(!new)>(f: Field<T>, m: nat, g: (int, int) -> T): int -> T {
    j => Sum(f, m, Column(g, j))
  }

  /** A finite double sum may be taken in either order. */
  lemma {:induction false} SumExchange<T(!new)>(f: Field<T>, m: nat, n: nat, g: (int, int) -> T)
    requires f.IsField()
    ensures Sum(f, m, RowSums(f, n, g)) == Sum(f, n, ColumnSums(f, m, g))
    decreases m
  {
    if m == 0 {
      SumOfZeros(f, n, ColumnSums(f, 0, g));
    } else {
      SumExchange(f, m - 1, n, g);
      forall j | 0 <= j < n
        ensures ColumnSums(f, m, g)(j) == f.add(ColumnSums(f, m - 1, g)(j), Row(g, m - 1)(j))
      {
      }
      SumAdd(f, n, ColumnSums(f, m - 1, g), Row(g, m - 1), ColumnSums(f, m, g));
    }
  }
}
