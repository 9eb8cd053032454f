/** Error locators: power sums, their recurrences, roots and Forney's formula.
    A locator polynomial c is evaluated in reversed form, at the location x itself:
    RevEval(c, x, m) = c[0]*x^m + c[1]*x^(m-1) + ... + c[m]. */
module Locators {
  import opened Fields
  import opened Sums
  import opened Recurrences

  function RevEval<T(!new)>(f: Field<T>, c: seq<T>, x: T, m: nat): T {
    if m == 0 then Coef(f, c, 0) else f.add(f.mul(x, RevEval(f, c, x, m - 1)), Coef(f, c, m))
  }

  /** The quotient of c by (1 - x*z): its coefficients are the intermediate values of RevEval. */
  function Quotient<T(!new)>(f: Field<T>, c: seq<T>, x: T, d: nat): (q: seq<T>)
    ensures |q| == d
  {
    seq(d, i requires 0 <= i < d => RevEval(f, c, x, i))
  }

  ghost predicate Distinct<T(!new)>(xs: seq<T>) {
    forall i, j | 0 <= i < j < |xs| :: xs[i] != xs[j]
  }

  ghost predicate AllRoots<T(!new)>(f: Field<T>, c: seq<T>, xs: seq<T>, d: nat) {
    forall i | 0 <= i < |xs| :: RevEval(f, c, xs[i], d) == f.zero
  }

  function PowerTerm<T(!new)>(f: Field<T>, xs: seq<T>, ys: seq<T>, n: int): int -> T {
    k => if 0 <= k < |xs| && k < |ys| && 0 <= n then f.mul(ys[k], Pow(f, xs[k], n)) else f.zero
  }

  /** ys[0]*xs[0]^n + ys[1]*xs[1]^n + ... */
  function PowerSum<T(!new)>(f: Field<T>, xs: seq<T>, ys: seq<T>, n: int): T {
    Sum(f, |xs|, PowerTerm(f, xs, ys, n))
  }

  // ----- evaluation -----

  /** Beyond the degree bound, evaluation only multiplies by x. */
  lemma {:induction false} RevEvalBeyond<T(!new)>(f: Field<T>, c: seq<T>, x: T, d: nat, m: nat)
    requires f.IsField() && d <= m && DegreeAtMost(f, c, d)
    ensures RevEval(f, c, x, m) == f.mul(Pow(f, x, m - d), RevEval(f, c, x, d))
  {
    var r := RevEval(f, c, x, d);
    if m == d {
      assert f.Law(f.one, r, r) && f.Law(r, r, r);
    } else {
      RevEvalBeyond(f, c, x, d, m - 1);
      assert f.Law(x, Pow(f, x, m - 1 - d), r) && f.Law(RevEval(f, c, x, m), r, r);
      assert Coef(f, c, m) == f.zero;
      var y := f.mul(x, RevEval(f, c, x, m - 1));
      assert f.Law(y, y, y);
    }
  }

  function RevTerm<T(!new)>(f: Field<T>, c: seq<T>, x: T, n: int): int -> T {
    i => if 0 <= i <= n then f.mul(Coef(f, c, i), Pow(f, x, n - i)) else f.zero
  }

  lemma {:induction false} RevEvalIsSum<T(!new)>(f: Field<T>, c: seq<T>, x: T, n: nat)
    requires f.IsField()
    ensures RevEval(f, c, x, n) == Sum(f, n + 1, RevTerm(f, c, x, n))
  {
    var last := Coef(f, c, n);
    assert f.Law(last, last, last);
    if n == 0 {
      assert f.Law(f.zero, last, last) && f.Law(last, f.zero, f.zero);
      assert Sum(f, 1, RevTerm(f, c, x, 0)) == f.add(Sum(f, 0, RevTerm(f, c, x, 0)), RevTerm(f, c, x, 0)(0));
    } else {
      RevEvalIsSum(f, c, x, n - 1);
      forall i | 0 <= i < n
        ensures RevTerm(f, c, x, n)(i) == f.mul(x, RevTerm(f, c, x, n - 1)(i))
      {
        var a, p := Coef(f, c, i), Pow(f, x, n - 1 - i);
        assert f.Law(a, x, p) && f.Law(x, a, p);
      }
      SumScale(f, n, x, RevTerm(f, c, x, n - 1), RevTerm(f, c, x, n));
    }
  }

  function LocatorTerm<T(!new)>(f: Field<T>, c: seq<T>, xs: seq<T>, ys: seq<T>, n: nat): (int, int) -> T {
    (i, k) => if 0 <= i <= n then f.mul(Coef(f, c, i), PowerTerm(f, xs, ys, n - i)(k)) else f.zero
  }

  function WeightedValue<T(!new)>(f: Field<T>, c: seq<T>, xs: seq<T>, ys: seq<T>, n: nat): int -> T {
    k => if 0 <= k < |xs| && k < |ys| then f.mul(ys[k], RevEval(f, c, xs[k], n)) else f.zero
  }

  ghost predicate IsPowerSums<T(!new)>(f: Field<T>, s: seq<T>, xs: seq<T>, ys: seq<T>, n: nat) {
    forall i | 0 <= i < n :: Coef(f, s, i) == PowerSum(f, xs, ys, i)
  }

  lemma LocatorColumn<T(!new)>(f: Field<T>, c: seq<T>, xs: seq<T>, ys: seq<T>, n: nat, k: nat)
    requires f.IsField() && k < |xs| == |ys|
    ensures ColumnSums(f, n + 1, LocatorTerm(f, c, xs, ys, n))(k) == WeightedValue(f, c, xs, ys, n)(k)
  {
    var col := Column(LocatorTerm(f, c, xs, ys, n), k);
    forall i | 0 <= i < n + 1
      ensures col(i) == f.mul(ys[k], RevTerm(f, c, xs[k], n)(i))
    {
      var a, y, p := Coef(f, c, i), ys[k], Pow(f, xs[k], n - i);
      assert f.Law(a, y, p) && f.Law(y, a, p);
    }
    SumScale(f, n + 1, ys[k], RevTerm(f, c, xs[k], n), col);
    RevEvalIsSum(f, c, xs[k], n);
  }

  /** On power sums, a discrepancy is the weighted sum of the values of c at the locations. */
  lemma DiscrepancyOfPowerSums<T(!new)>(f: Field<T>, c: seq<T>, s: seq<T>, xs: seq<T>, ys: seq<T>, n: nat)
    requires f.IsField() && |xs| == |ys| && IsPowerSums(f, s, xs, ys, n + 1)
    ensures Discrepancy(f, c, s, n) == Sum(f, |xs|, WeightedValue(f, c, xs, ys, n))
  {
    var g := LocatorTerm(f, c, xs, ys, n);
    forall i | 0 <= i < n + 1
      ensures DiscTerm(f, c, s, n)(i) == RowSums(f, |xs|, g)(i)
    {
      assert Coef(f, s, n - i) == PowerSum(f, xs, ys, n - i);
      SumScale(f, |xs|, Coef(f, c, i), PowerTerm(f, xs, ys, n - i), Row(g, i));
    }
    SumEqual(f, n + 1, DiscTerm(f, c, s, n), RowSums(f, |xs|, g));
    SumExchange(f, n + 1, |xs|, g);
    forall k | 0 <= k < |xs|
      ensures ColumnSums(f, n + 1, g)(k) == WeightedValue(f, c, xs, ys, n)(k)
    {
      LocatorColumn(f, c, xs, ys, n, k);
    }
    SumEqual(f, |xs|, ColumnSums(f, n + 1, g), WeightedValue(f, c, xs, ys, n));
  }

  // ----- roots -----

  /** Division by (1 - x*z): value(c, x') = (x' - x) * value(quotient, x') + value(c, x). */
  lemma {:induction false} Division<T(!new)>(f: Field<T>, c: seq<T>, x: T, x': T, d: nat, e: nat)
    requires f.IsField() && 1 <= d <= e
    ensures RevEval(f, c, x', d)
            == f.add(f.mul(f.add(x', f.neg(x)), RevEval(f, Quotient(f, c, x, e), x', d - 1)), RevEval(f, c, x, d))
  {
    var q := Quotient(f, c, x, e);
    var diff := f.add(x', f.neg(x));
    assert Coef(f, q, d - 1) == RevEval(f, c, x, d - 1);
    if d == 1 {
      DivisionStep(f, x, x', f.zero, Coef(f, c, 0), Coef(f, c, 1));
      f.MulZero(diff);
      f.MulZero(x');
      var c0 := Coef(f, c, 0);
      assert f.Law(f.zero, c0, c0) && f.Law(c0, f.zero, f.zero);
    } else {
      Division(f, c, x, x', d - 1, e);
      DivisionStep(f, x, x', RevEval(f, q, x', d - 2), RevEval(f, c, x, d - 1), Coef(f, c, d));
    }
  }

  /** x'*((x'-x)*q + r) + a == (x'-x)*(x'*q + r) + (x*r + a). */
  lemma DivisionStep<T(!new)>(f: Field<T>, x: T, x': T, q: T, r: T, a: T)
    requires f.IsField()
    ensures var diff := f.add(x', f.neg(x));
            f.add(f.mul(x', f.add(f.mul(diff, q), r)), a)
            == f.add(f.mul(diff, f.add(f.mul(x', q), r)), f.add(f.mul(x, r), a))
  {
    var diff := f.add(x', f.neg(x));
    var left, right := f.mul(x', f.mul(diff, q)), f.mul(diff, f.mul(x', q));
    assert left == right by { assert f.Law(x', diff, q) && f.Law(diff, x', q); }
    var p := f.mul(x, r);
    assert f.add(f.mul(diff, r), p) == f.mul(x', r) by {
      assert f.Law(r, diff, x) && f.Law(diff, r, r) && f.Law(x, r, r) && f.Law(x', r, r);
      assert f.Law(x', f.neg(x), x) && f.Law(x, f.neg(x), x) && f.Law(f.neg(x), x, x) && f.Law(x', x', x');
    }
    assert f.Law(x', f.mul(diff, q), r) && f.Law(diff, f.mul(x', q), r);
    assert f.Law(left, f.mul(x', r), a) && f.Law(left, f.mul(diff, r), f.add(p, a)) && f.Law(f.mul(diff, r), p, a);
  }

  /** Dividing by a root leaves every other root a root of the quotient. */
  lemma RootOfQuotient<T(!new)>(f: Field<T>, c: seq<T>, x: T, x': T, d: nat)
    requires f.IsField() && 1 <= d && x != x'
    requires RevEval(f, c, x, d) == f.zero == RevEval(f, c, x', d)
    ensures RevEval(f, Quotient(f, c, x, d), x', d - 1) == f.zero
  {
    var v := RevEval(f, Quotient(f, c, x, d), x', d - 1);
    var diff := f.add(x', f.neg(x));
    Division(f, c, x, x', d, d);
    assert f.Law(f.mul(diff, v), f.zero, f.zero);
    f.NoZeroDivisors(diff, v);
    f.SubZero(x', x);
  }

  /** A polynomial with leading coefficient c[0] has no more roots than its degree. */
  lemma {:induction false} RootBound<T(!new)>(f: Field<T>, c: seq<T>, xs: seq<T>, d: nat)
    requires f.IsField() && Coef(f, c, 0) != f.zero && Distinct(xs) && AllRoots(f, c, xs, d)
    ensures |xs| <= d
    decreases d
  {
    if |xs| > 0 {
      assert RevEval(f, c, xs[0], d) == f.zero;
      var n := |xs| - 1;
      if d > 0 {
        var q := Quotient(f, c, xs[n], d);
        forall i | 0 <= i < n
          ensures RevEval(f, q, xs[..n][i], d - 1) == f.zero
        {
          RootOfQuotient(f, c, xs[n], xs[i], d);
        }
        RootBound(f, q, xs[..n], d - 1);
      }
    }
  }

  /** With as many distinct roots as the degree, no root is a double root. */
  lemma SimpleRoot<T(!new)>(f: Field<T>, c: seq<T>, xs: seq<T>, k: nat)
    requires f.IsField() && Coef(f, c, 0) != f.zero && Distinct(xs) && AllRoots(f, c, xs, |xs|) && k < |xs|
    ensures RevEval(f, Quotient(f, c, xs[k], |xs|), xs[k], |xs| - 1) != f.zero
  {
    var d := |xs|;
    var q := Quotient(f, c, xs[k], d);
    if RevEval(f, q, xs[k], d - 1) == f.zero {
      forall i | 0 <= i < d
        ensures RevEval(f, q, xs[i], d - 1) == f.zero
      {
        if i != k { RootOfQuotient(f, c, xs[k], xs[i], d); }
      }
      RootBound(f, q, xs, d - 1);
    }
  }

  // ----- power sums -----

  function Differences<T(!new)>(f: Field<T>, xs: seq<T>, ys: seq<T>, x: T): (zs: seq<T>)
    requires |xs| <= |ys|
    ensures |zs| == |xs|
  {
    seq(|xs|, i requires 0 <= i < |xs| => f.mul(ys[i], f.add(xs[i], f.neg(x))))
  }

  lemma DifferenceTerm<T(!new)>(f: Field<T>, x: T, y: T, p: T, z: T)
    requires f.IsField()
    ensures f.mul(f.mul(y, f.add(x, f.neg(z))), p) == f.add(f.mul(y, f.mul(x, p)), f.mul(f.neg(z), f.mul(y, p)))
  {
    assert f.Law(y, f.add(x, f.neg(z)), p) && f.Law(f.add(x, f.neg(z)), p, p);
    assert f.Law(p, x, f.neg(z)) && f.Law(x, p, p) && f.Law(p, f.neg(z), f.neg(z));
    assert f.Law(y, f.mul(x, p), f.mul(f.neg(z), p)) && f.Law(y, f.neg(z), p) && f.Law(f.neg(z), y, p);
  }

  /** Weighting every term by (xs[i] - z) takes z times the power sum from the next one. */
  lemma PowerSumDifference<T(!new)>(f: Field<T>, xs: seq<T>, ys: seq<T>, z: T, m: nat)
    requires f.IsField() && |xs| == |ys|
    ensures PowerSum(f, xs, Differences(f, xs, ys, z), m)
            == f.add(PowerSum(f, xs, ys, m + 1), f.mul(f.neg(z), PowerSum(f, xs, ys, m)))
  {
    var zs := Differences(f, xs, ys, z);
    var scaled: int -> T := k => f.mul(f.neg(z), PowerTerm(f, xs, ys, m)(k));
    forall k | 0 <= k < |xs|
      ensures PowerTerm(f, xs, zs, m)(k) == f.add(PowerTerm(f, xs, ys, m + 1)(k), scaled(k))
    {
      DifferenceTerm(f, xs[k], ys[k], Pow(f, xs[k], m), z);
      assert PowerTerm(f, xs, ys, m + 1)(k) == f.mul(ys[k], Pow(f, xs[k], m + 1));
      assert PowerTerm(f, xs, ys, m)(k) == f.mul(ys[k], Pow(f, xs[k], m));
      assert PowerTerm(f, xs, zs, m)(k) == f.mul(zs[k], Pow(f, xs[k], m));
    }
    SumAdd(f, |xs|, PowerTerm(f, xs, ys, m + 1), scaled, PowerTerm(f, xs, zs, m));
    SumScale(f, |xs|, f.neg(z), PowerTerm(f, xs, ys, m), scaled);
  }

  ghost predicate AllZero<T(!new)>(f: Field<T>, ys: seq<T>) {
    forall i | 0 <= i < |ys| :: ys[i] == f.zero
  }

  lemma PowerSumInit<T(!new)>(f: Field<T>, xs: seq<T>, ys: seq<T>, n: nat)
    requires f.IsField() && |xs| == |ys| > 0 && ys[|ys| - 1] == f.zero
    ensures PowerSum(f, xs, ys, n) == PowerSum(f, xs[..|xs| - 1], ys[..|ys| - 1], n)
  {
    var k := |xs| - 1;
    f.MulZero(Pow(f, xs[k], n));
    SumTail(f, k, k + 1, PowerTerm(f, xs, ys, n));
    SumEqual(f, k, PowerTerm(f, xs, ys, n), PowerTerm(f, xs[..k], ys[..k], n));
  }

  /** Distinct locations are independent (the Vandermonde system has only the zero solution). */
  lemma {:induction false} Independent<T(!new)>(f: Field<T>, xs: seq<T>, ys: seq<T>)
    requires f.IsField() && |xs| == |ys| && Distinct(xs)
    requires forall m: nat | m < |xs| :: PowerSum(f, xs, ys, m) == f.zero
    ensures AllZero(f, ys)
    decreases |xs|
  {
    if |xs| > 0 {
      var k := |xs| - 1;
      var z := xs[k];
      var zs := Differences(f, xs, ys, z);
      assert zs[k] == f.zero by { f.SubZero(z, z); f.MulZero(ys[k]); }
      forall m: nat | m < k
        ensures PowerSum(f, xs[..k], zs[..k], m) == f.zero
      {
        PowerSumDifference(f, xs, ys, z, m);
        assert PowerSum(f, xs, ys, m) == f.zero;
        assert PowerSum(f, xs, ys, m + 1) == f.zero;
        f.MulZero(f.neg(z));
        assert f.Law(f.zero, f.zero, f.zero);
        PowerSumInit(f, xs, zs, m);
      }
      Independent(f, xs[..k], zs[..k]);
      forall i | 0 <= i < k
        ensures ys[i] == f.zero
      {
        assert zs[..k][i] == zs[i];
        f.NoZeroDivisors(ys[i], f.add(xs[i], f.neg(z)));
        f.SubZero(xs[i], z);
      }
      LastIsZero(f, xs, ys);
    }
  }

  lemma LastIsZero<T(!new)>(f: Field<T>, xs: seq<T>, ys: seq<T>)
    requires f.IsField() && |xs| == |ys| > 0
    requires forall i | 0 <= i < |ys| - 1 :: ys[i] == f.zero
    requires PowerSum(f, xs, ys, 0) == f.zero
    ensures ys[|ys| - 1] == f.zero
  {
    var k, zero := |xs| - 1, 0;
    forall i | 0 <= i < |xs| && i != k
      ensures PowerTerm(f, xs, ys, zero)(i) == f.zero
    {
      f.MulZero(Pow(f, xs[i], zero));
    }
    SumSingle(f, |xs|, PowerTerm(f, xs, ys, zero), k);
    assert Pow(f, xs[k], zero) == f.one;
    assert f.Law(ys[k], ys[k], ys[k]);
  }
}
