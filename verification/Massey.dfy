/** The Berlekamp-Massey algorithm, over any field: its rounds, and that they find a shortest recurrence. */
module Massey {
  import opened Fields
  import opened Recurrences

  /** What holds before round n.  b is the last polynomial that was replaced (initially 1,
      which counts as failing at index -1), it failed at index n - m with discrepancy db. */
  ghost predicate Invariant<T(!new)>(f: Field<T>, s: seq<T>, n: nat, c: seq<T>, len: nat, b: seq<T>, m: nat, db: T) {
    && 1 <= m && len + m <= n + 1
    && db != f.zero
    && Generates(f, c, len, s, n)
    && NoShorter(f, s, n, len)
    && DegreeAtMost(f, b, n + 1 - m - len)
    && (m == n + 1 ==> len == 0)
    && (m <= n ==> Annihilates(f, b, s, n + 1 - m - len, n - m) && Discrepancy(f, b, s, n - m) == db)
  }

  /** The length after round n when its discrepancy is d. */
  function NextLength<T(==,!new)>(f: Field<T>, n: nat, len: nat, d: T): nat {
    if d != f.zero && 2 * len <= n then n + 1 - len else len
  }

  lemma Start<T(!new)>(f: Field<T>, s: seq<T>, c: seq<T>)
    requires f.IsField()
    requires Coef(f, c, 0) == f.one && DegreeAtMost(f, c, 0)
    ensures Invariant(f, s, 0, c, 0, c, 1, f.one)
  {
    assert f.Law(f.zero, f.zero, f.zero);
  }

  lemma StepNoShorter<T(!new)>(f: Field<T>, s: seq<T>, n: nat, c: seq<T>, len: nat)
    requires f.IsField() && Generates(f, c, len, s, n) && NoShorter(f, s, n, len)
    ensures NoShorter(f, s, n + 1, NextLength(f, n, len, Discrepancy(f, c, s, n)))
  {
    var n' := n + 1;
    forall c': seq<T>, l: nat | Generates(f, c', l, s, n')
      ensures NextLength(f, n, len, Discrepancy(f, c, s, n)) <= l
    {
      assert Generates(f, c', l, s, n);
      if Discrepancy(f, c, s, n) != f.zero {
        LengthBound(f, c, len, c', l, s, n);
      }
    }
  }

  /** Adding the right multiple of b, moved up by m, repairs c at index n and breaks nothing. */
  lemma StepGenerates<T(!new)>(f: Field<T>, s: seq<T>, n: nat, c: seq<T>, len: nat, b: seq<T>, m: nat, db: T,
                               mult: T, out: seq<T>)
    requires f.IsField() && Invariant(f, s, n, c, len, b, m, db)
    requires f.add(Discrepancy(f, c, s, n), f.mul(mult, db)) == f.zero != Discrepancy(f, c, s, n)
    requires Combines(f, out, c, b, mult, m, |out|) && n + 1 <= |out|
    ensures Generates(f, out, NextLength(f, n, len, Discrepancy(f, c, s, n)), s, n + 1)
  {
    var len' := NextLength(f, n, len, Discrepancy(f, c, s, n));
    f.MulZero(mult);
    forall i | len' < i
      ensures Coef(f, out, i) == f.zero
    {
      assert Coef(f, c, i) == f.zero && Coef(f, b, i - m) == f.zero;
      assert f.Law(f.zero, f.zero, f.zero);
    }
    assert Coef(f, b, 0 - m) == f.zero && f.Law(f.one, f.zero, f.zero);
    forall k: nat | len' <= k < n + 1
      ensures Discrepancy(f, out, s, k) == f.zero
    {
      DiscrepancyCombines(f, out, c, b, mult, m, s, k);
      assert f.Law(f.zero, f.zero, f.zero);
    }
  }

  /** A round with discrepancy zero. */
  lemma StepZero<T(!new)>(f: Field<T>, s: seq<T>, n: nat, c: seq<T>, len: nat, b: seq<T>, m: nat, db: T)
    requires f.IsField() && Invariant(f, s, n, c, len, b, m, db)
    requires Discrepancy(f, c, s, n) == f.zero
    ensures Invariant(f, s, n + 1, c, len, b, m + 1, db)
  {
    StepNoShorter(f, s, n, c, len);
  }

  /** A round with non-zero discrepancy d: out replaces c, and c replaces b when the length grows. */
  lemma StepNonZero<T(!new)>(f: Field<T>, s: seq<T>, n: nat, c: seq<T>, len: nat, b: seq<T>, m: nat, db: T,
                             mult: T, out: seq<T>)
    requires f.IsField() && Invariant(f, s, n, c, len, b, m, db)
    requires f.add(Discrepancy(f, c, s, n), f.mul(mult, db)) == f.zero != Discrepancy(f, c, s, n)
    requires Combines(f, out, c, b, mult, m, |out|) && n + 1 <= |out|
    ensures 2 * len <= n ==> Invariant(f, s, n + 1, out, n + 1 - len, c, 1, Discrepancy(f, c, s, n))
    ensures n < 2 * len ==> Invariant(f, s, n + 1, out, len, b, m + 1, db)
  {
    StepNoShorter(f, s, n, c, len);
    StepGenerates(f, s, n, c, len, b, m, db, mult, out);
  }

  // ----- all rounds -----

  /** The variables of the algorithm. */
  datatype Round<T> = Round(c: seq<T>, len: nat, b: seq<T>, m: nat, db: T)

  /** c + x^m * mult * b, in a buffer as long as c. */
  function Combination<T(!new)>(f: Field<T>, c: seq<T>, b: seq<T>, mult: T, m: nat): (out: seq<T>)
    ensures |out| == |c|
  {
    seq(|c|, i requires 0 <= i < |c| => f.add(c[i], f.mul(mult, Coef(f, b, i - m))))
  }

  function Initial<T(!new)>(f: Field<T>, cap: nat): Round<T> {
    var c := seq(cap, i requires 0 <= i < cap => if i == 0 then f.one else f.zero);
    Round(c, 0, c, 1, f.one)
  }

  /** Round n: the symbol at n is tried, and the recurrence repaired when it fails. */
  function Next<T(==,!new)>(f: Field<T>, s: seq<T>, n: nat, r: Round<T>): Round<T> {
    var d := Discrepancy(f, r.c, s, n);
    var c := Combination(f, r.c, r.b, f.neg(f.mul(d, f.inv(r.db))), r.m);
    if d == f.zero then r.(m := r.m + 1)
    else if 2 * r.len <= n then Round(c, n + 1 - r.len, r.c, 1, d)
    else r.(c := c, m := r.m + 1)
  }

  /** The first n rounds, in buffers of cap coefficients. */
  function Rounds<T(==,!new)>(f: Field<T>, s: seq<T>, n: nat, cap: nat): Round<T> {
    if n == 0 then Initial(f, cap) else Next(f, s, n - 1, Rounds(f, s, n - 1, cap))
  }

  lemma CombinationCombines<T(!new)>(f: Field<T>, c: seq<T>, b: seq<T>, mult: T, m: nat)
    ensures Combines(f, Combination(f, c, b, mult, m), c, b, mult, m, |c|)
  {
  }

  /** The multiple that is added cancels the discrepancy. */
  lemma Cancels<T(!new)>(f: Field<T>, d: T, db: T)
    requires f.IsField() && db != f.zero
    ensures f.add(d, f.mul(f.neg(f.mul(d, f.inv(db))), db)) == f.zero
  {
    var q := f.mul(d, f.inv(db));
    f.InvNonZero(db);
    f.MulNeg(db, q);
    assert f.Law(f.neg(q), db, q) && f.Law(q, db, q) && f.Law(db, q, q);
    assert f.Law(d, f.inv(db), db) && f.Law(d, d, d);
  }

  lemma {:induction false} RoundsInvariant<T(!new)>(f: Field<T>, s: seq<T>, n: nat, cap: nat)
    requires f.IsField() && n <= cap && 0 < cap
    ensures var r := Rounds(f, s, n, cap);
            |r.c| == cap && Invariant(f, s, n, r.c, r.len, r.b, r.m, r.db)
  {
    if n == 0 {
      Start(f, s, Initial(f, cap).c);
      hide Invariant;
    } else {
      hide Invariant, Next, Initial;
      RoundsInvariant(f, s, n - 1, cap);
      NextInvariant(f, s, n - 1, Rounds(f, s, n - 1, cap));
    }
  }

  lemma NextInvariant<T(!new)>(f: Field<T>, s: seq<T>, n: nat, r: Round<T>)
    requires f.IsField() && Invariant(f, s, n, r.c, r.len, r.b, r.m, r.db) && n + 1 <= |r.c|
    ensures var r' := Next(f, s, n, r);
            |r'.c| == |r.c| && Invariant(f, s, n + 1, r'.c, r'.len, r'.b, r'.m, r'.db)
  {
    var d := Discrepancy(f, r.c, s, n);
    if d == f.zero {
      StepZero(f, s, n, r.c, r.len, r.b, r.m, r.db);
    } else {
      var mult := f.neg(f.mul(d, f.inv(r.db)));
      Cancels(f, d, r.db);
      CombinationCombines(f, r.c, r.b, mult, r.m);
      StepNonZero(f, s, n, r.c, r.len, r.b, r.m, r.db, mult, Combination(f, r.c, r.b, mult, r.m));
    }
    hide Invariant, Discrepancy, Combination;
  }

  /** Over any field and any sequence, after n rounds the recurrence generates the first n symbols and
      no shorter one does. */
  lemma RoundsShortest<T(!new)>(f: Field<T>, s: seq<T>, n: nat, cap: nat)
    requires f.IsField() && n <= cap && 0 < cap
    ensures var r := Rounds(f, s, n, cap);
            && Coef(f, r.c, 0) == f.one && DegreeAtMost(f, r.c, r.len) && r.len <= n
            && Generates(f, r.c, r.len, s, n) && NoShorter(f, s, n, r.len)
  {
    RoundsInvariant(f, s, n, cap);
    hide Rounds, NoShorter;
  }
}
