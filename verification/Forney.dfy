/** From a shortest recurrence for the syndromes to the error locations and values. */
module Forney {
  import opened Fields
  import opened Sums
  import opened Recurrences
  import opened Locators

  ghost predicate Char2<T(!new)>(f: Field<T>) {
    f.IsField() && f.add(f.one, f.one) == f.zero
  }

  lemma Char2Double<T(!new)>(f: Field<T>, x: T)
    requires Char2(f)
    ensures f.add(x, x) == f.zero
  {
    assert f.Law(x, f.one, f.one);
    f.MulZero(x);
  }

  /** An error pattern: distinct non-zero locations with non-zero values, and the first n power sums of it. */
  ghost predicate ErrorPattern<T(!new)>(f: Field<T>, s: seq<T>, xs: seq<T>, ys: seq<T>, n: nat) {
    && |xs| == |ys| <= |s| && n <= |s|
    && Distinct(xs)
    && (forall i | 0 <= i < |xs| :: xs[i] != f.zero && ys[i] != f.zero)
    && IsPowerSums(f, s, xs, ys, n)
  }

  // ----- the locator of a pattern -----

  function TimesFactor<T(!new)>(f: Field<T>, c: seq<T>, x: T): (r: seq<T>)
    ensures |r| == |c| + 1
  {
    seq(|c| + 1, i requires 0 <= i <= |c| => f.add(Coef(f, c, i), f.neg(f.mul(x, Coef(f, c, i - 1)))))
  }

  /** The product of (1 - x*z) over the locations x. */
  function Locator<T(!new)>(f: Field<T>, xs: seq<T>): (c: seq<T>)
    ensures |c| == |xs| + 1
  {
    if |xs| == 0 then [f.one] else TimesFactor(f, Locator(f, xs[..|xs| - 1]), xs[|xs| - 1])
  }

  lemma {:induction false} TimesFactorValue<T(!new)>(f: Field<T>, c: seq<T>, x: T, x': T, m: nat)
    requires f.IsField()
    ensures m == 0 ==> RevEval(f, TimesFactor(f, c, x), x', 0) == Coef(f, c, 0)
    ensures m > 0 ==> RevEval(f, TimesFactor(f, c, x), x', m)
                      == f.add(RevEval(f, c, x', m), f.neg(f.mul(x, RevEval(f, c, x', m - 1))))
  {
    var r := TimesFactor(f, c, x);
    var a, b := Coef(f, c, m), Coef(f, c, m - 1);
    f.MulZero(x);
    var zero := f.zero;
    assert f.neg(zero) == zero by {
      assert f.Law(zero, f.neg(zero), zero) && f.Law(zero, zero, zero) && f.Law(f.neg(zero), zero, zero);
    }
    assert f.Law(a, zero, zero) && f.Law(zero, zero, zero);
    assert Coef(f, r, m) == f.add(a, f.neg(f.mul(x, b)));
    if m > 0 {
      TimesFactorValue(f, c, x, x', m - 1);
      if m == 1 {
        var c0 := Coef(f, c, 0);
        assert f.Law(f.mul(x', c0), a, f.neg(f.mul(x, c0)));
      } else {
        FactorStep(f, x, x', RevEval(f, c, x', m - 1), RevEval(f, c, x', m - 2), a, b);
      }
    }
  }

  /** x'*(r - x*q) + (a - x*b) == (x'*r + a) - x*(x'*q + b). */
  lemma FactorStep<T(!new)>(f: Field<T>, x: T, x': T, r: T, q: T, a: T, b: T)
    requires f.IsField()
    ensures f.add(f.mul(x', f.add(r, f.neg(f.mul(x, q)))), f.add(a, f.neg(f.mul(x, b))))
            == f.add(f.add(f.mul(x', r), a), f.neg(f.mul(x, f.add(f.mul(x', q), b))))
  {
    var nx := f.neg(x);
    forall y ensures f.neg(f.mul(x, y)) == f.mul(nx, y) {
      f.MulNeg(y, x);
      assert f.Law(x, y, y) && f.Law(nx, y, y);
    }
    var p := f.mul(nx, q);
    assert f.Law(x', r, p);
    f.AddInterchange(f.mul(x', r), f.mul(x', p), a, f.mul(nx, b));
    assert f.mul(x', p) == f.mul(nx, f.mul(x', q)) by {
      assert f.Law(x', nx, q) && f.Law(nx, x', q);
    }
    assert f.Law(nx, f.mul(x', q), b);
  }

  lemma FactorRoot<T(!new)>(f: Field<T>, c: seq<T>, x: T, x': T, m: nat)
    requires f.IsField() && |c| == m > 0
    requires x == x' || RevEval(f, c, x', m - 1) == f.zero
    ensures RevEval(f, TimesFactor(f, c, x), x', m) == f.zero
  {
    var v := RevEval(f, c, x', m - 1);
    TimesFactorValue(f, c, x, x', m);
    assert f.Law(f.mul(x', v), f.zero, f.zero);
    f.MulZero(x');
    f.MulZero(x);
    f.SubZero(f.mul(x', v), f.mul(x, v));
  }

  lemma FactorConstant<T(!new)>(f: Field<T>, c: seq<T>, x: T)
    requires f.IsField()
    ensures Coef(f, TimesFactor(f, c, x), 0) == Coef(f, c, 0)
  {
    TimesFactorValue(f, c, x, x, 0);
  }

  lemma FactorRoots<T(!new)>(f: Field<T>, c: seq<T>, xs: seq<T>, x: T)
    requires f.IsField() && |c| == |xs| + 1 && AllRoots(f, c, xs, |xs|)
    ensures AllRoots(f, TimesFactor(f, c, x), xs + [x], |xs| + 1)
  {
    hide RevEval, TimesFactor;
    forall i | 0 <= i < |xs| + 1
      ensures RevEval(f, TimesFactor(f, c, x), (xs + [x])[i], |xs| + 1) == f.zero
    {
      FactorRoot(f, c, x, (xs + [x])[i], |xs| + 1);
    }
  }

  lemma {:induction false} LocatorRoots<T(!new)>(f: Field<T>, xs: seq<T>)
    requires f.IsField()
    ensures Coef(f, Locator(f, xs), 0) == f.one
    ensures AllRoots(f, Locator(f, xs), xs, |xs|)
    decreases |xs|
  {
    if |xs| > 0 {
      hide AllRoots, TimesFactor;
      var k := |xs| - 1;
      var c := Locator(f, xs[..k]);
      LocatorRoots(f, xs[..k]);
      FactorConstant(f, c, xs[k]);
      FactorRoots(f, c, xs[..k], xs[k]);
      assert xs[..k] + [xs[k]] == xs;
    }
  }

  /** A polynomial that vanishes at every location annihilates the power sums. */
  lemma RootsAnnihilate<T(!new)>(f: Field<T>, c: seq<T>, s: seq<T>, xs: seq<T>, ys: seq<T>, d: nat, n: nat)
    requires f.IsField() && |xs| == |ys| && IsPowerSums(f, s, xs, ys, n + 1)
    requires AllRoots(f, c, xs, d) && DegreeAtMost(f, c, d) && d <= n
    ensures Discrepancy(f, c, s, n) == f.zero
  {
    DiscrepancyOfPowerSums(f, c, s, xs, ys, n);
    forall k | 0 <= k < |xs|
      ensures WeightedValue(f, c, xs, ys, n)(k) == f.zero
    {
      RevEvalBeyond(f, c, xs[k], d, n);
      f.MulZero(Pow(f, xs[k], n - d));
      f.MulZero(ys[k]);
    }
    SumOfZeros(f, |xs|, WeightedValue(f, c, xs, ys, n));
  }

  lemma LocatorGenerates<T(!new)>(f: Field<T>, s: seq<T>, xs: seq<T>, ys: seq<T>, n: nat)
    requires f.IsField() && ErrorPattern(f, s, xs, ys, n)
    ensures Generates(f, Locator(f, xs), |xs|, s, n)
  {
    LocatorRoots(f, xs);
    forall k: nat | |xs| <= k < n
      ensures Discrepancy(f, Locator(f, xs), s, k) == f.zero
    {
      RootsAnnihilate(f, Locator(f, xs), s, xs, ys, |xs|, k);
    }
  }

  // ----- the shortest recurrence is a locator -----

  function Residues<T(!new)>(f: Field<T>, c: seq<T>, xs: seq<T>, ys: seq<T>, d: nat): (zs: seq<T>)
    requires |xs| <= |ys|
    ensures |zs| == |xs|
  {
    seq(|xs|, i requires 0 <= i < |xs| => f.mul(ys[i], RevEval(f, c, xs[i], d)))
  }

  /** Discrepancies beyond the length are power sums of the residues. */
  lemma DiscrepancyResidues<T(!new)>(f: Field<T>, c: seq<T>, s: seq<T>, xs: seq<T>, ys: seq<T>, d: nat, n: nat)
    requires f.IsField() && |xs| == |ys| && IsPowerSums(f, s, xs, ys, n + 1)
    requires DegreeAtMost(f, c, d) && d <= n
    ensures Discrepancy(f, c, s, n) == PowerSum(f, xs, Residues(f, c, xs, ys, d), n - d)
  {
    DiscrepancyOfPowerSums(f, c, s, xs, ys, n);
    var zs := Residues(f, c, xs, ys, d);
    forall k | 0 <= k < |xs|
      ensures WeightedValue(f, c, xs, ys, n)(k) == PowerTerm(f, xs, zs, n - d)(k)
    {
      RevEvalBeyond(f, c, xs[k], d, n);
      var y, p, v := ys[k], Pow(f, xs[k], n - d), RevEval(f, c, xs[k], d);
      assert f.Law(y, v, p) && f.Law(p, v, v);
    }
    SumEqual(f, |xs|, WeightedValue(f, c, xs, ys, n), PowerTerm(f, xs, zs, n - d));
  }

  /** Given at least twice as many syndromes as errors, a shortest recurrence has exactly the
      length of the pattern and its roots are exactly the error locations. */
  lemma ShortestIsLocator<T(!new)>(f: Field<T>, s: seq<T>, xs: seq<T>, ys: seq<T>, n: nat, c: seq<T>, len: nat)
    requires f.IsField() && ErrorPattern(f, s, xs, ys, n) && 2 * |xs| <= n
    requires Generates(f, c, len, s, n) && NoShorter(f, s, n, len)
    ensures len == |xs|
    ensures forall x {:trigger RevEval(f, c, x, len)} :: RevEval(f, c, x, len) == f.zero <==> x in xs
  {
    LocatorGenerates(f, s, xs, ys, n);
    var zs := Residues(f, c, xs, ys, len);
    forall m: nat | m < |xs|
      ensures PowerSum(f, xs, zs, m) == f.zero
    {
      DiscrepancyResidues(f, c, s, xs, ys, len, m + len);
    }
    Independent(f, xs, zs);
    forall i | 0 <= i < |xs|
      ensures RevEval(f, c, xs[i], len) == f.zero
    {
      assert zs[i] == f.zero;
      f.NoZeroDivisors(ys[i], RevEval(f, c, xs[i], len));
    }
    assert f.Law(f.zero, f.zero, f.zero);
    RootBound(f, c, xs, len);
    forall x | RevEval(f, c, x, len) == f.zero
      ensures x in xs
    {
      if x !in xs {
        RootBound(f, c, xs + [x], len);
      }
    }
  }

  // ----- error values -----

  function Weights<T(!new)>(f: Field<T>, xs: seq<T>, ys: seq<T>): (ws: seq<T>)
    requires |xs| <= |ys|
    ensures |ws| == |xs|
  {
    seq(|xs|, i requires 0 <= i < |xs| => f.mul(ys[i], xs[i]))
  }

  /** Dropping the first syndrome multiplies every weight by its location. */
  lemma ShiftedSyndromes<T(!new)>(f: Field<T>, s: seq<T>, xs: seq<T>, ys: seq<T>, n: nat)
    requires f.IsField() && 1 <= n && ErrorPattern(f, s, xs, ys, n)
    ensures IsPowerSums(f, s[1..], xs, Weights(f, xs, ys), n - 1)
  {
    var ws := Weights(f, xs, ys);
    forall i | 0 <= i < n - 1
      ensures Coef(f, s[1..], i) == PowerSum(f, xs, ws, i)
    {
      assert Coef(f, s[1..], i) == Coef(f, s, i + 1);
      forall k | 0 <= k < |xs|
        ensures PowerTerm(f, xs, ys, i + 1)(k) == PowerTerm(f, xs, ws, i)(k)
      {
        assert f.Law(ys[k], xs[k], Pow(f, xs[k], i));
        assert PowerTerm(f, xs, ys, i + 1)(k) == f.mul(ys[k], Pow(f, xs[k], i + 1));
      }
      SumEqual(f, |xs|, PowerTerm(f, xs, ys, i + 1), PowerTerm(f, xs, ws, i));
    }
  }

  /** omega = (c * (s shifted down by one)) mod z^(n-1), the error evaluator. */
  ghost predicate IsEvaluator<T(!new)>(f: Field<T>, omega: seq<T>, c: seq<T>, s: seq<T>, n: nat) {
    && 1 <= n <= |s|
    && (forall m: nat :: Coef(f, omega, m) == if m < n - 1 then Discrepancy(f, c, s[1..], m) else f.zero)
  }

  function QuotientTerm<T(!new)>(f: Field<T>, c: seq<T>, xs: seq<T>, ws: seq<T>, d: nat, x: T, m: nat): int -> T {
    k => if 0 <= k < |xs| && k < |ws| then f.mul(ws[k], RevEval(f, Quotient(f, c, xs[k], d), x, m)) else f.zero
  }

  /** The evaluator is the weighted sum of the quotients of the locator. */
  lemma {:induction false} EvaluatorIsQuotients<T(!new)>(
      f: Field<T>, omega: seq<T>, c: seq<T>, s: seq<T>, xs: seq<T>, ws: seq<T>, n: nat, x: T, m: nat)
    requires f.IsField() && |xs| == |ws| && IsEvaluator(f, omega, c, s, n) && IsPowerSums(f, s[1..], xs, ws, n - 1)
    requires m < |xs| < n
    ensures RevEval(f, omega, x, m) == Sum(f, |xs|, QuotientTerm(f, c, xs, ws, |xs|, x, m))
  {
    var d := |xs|;
    DiscrepancyOfPowerSums(f, c, s[1..], xs, ws, m);
    assert Coef(f, omega, m) == Sum(f, d, WeightedValue(f, c, xs, ws, m));
    forall k | 0 <= k < d
      ensures Coef(f, Quotient(f, c, xs[k], d), m) == RevEval(f, c, xs[k], m)
    {
    }
    if m == 0 {
      forall k | 0 <= k < d
        ensures WeightedValue(f, c, xs, ws, m)(k) == QuotientTerm(f, c, xs, ws, d, x, m)(k)
      {
        assert RevEval(f, Quotient(f, c, xs[k], d), x, m) == RevEval(f, c, xs[k], m);
      }
      SumEqual(f, d, WeightedValue(f, c, xs, ws, m), QuotientTerm(f, c, xs, ws, d, x, m));
    } else {
      EvaluatorIsQuotients(f, omega, c, s, xs, ws, n, x, m - 1);
      var scaled: int -> T := k => f.mul(x, QuotientTerm(f, c, xs, ws, d, x, m - 1)(k));
      SumScale(f, d, x, QuotientTerm(f, c, xs, ws, d, x, m - 1), scaled);
      forall k | 0 <= k < d
        ensures QuotientTerm(f, c, xs, ws, d, x, m)(k) == f.add(scaled(k), WeightedValue(f, c, xs, ws, m)(k))
      {
        var q := Quotient(f, c, xs[k], d);
        var w, v, r := ws[k], RevEval(f, q, x, m - 1), RevEval(f, c, xs[k], m);
        assert RevEval(f, q, x, m) == f.add(f.mul(x, v), r);
        assert f.Law(w, f.mul(x, v), r) && f.Law(w, x, v) && f.Law(x, w, v) && f.Law(f.mul(w, x), v, v)
          && f.Law(x, w, w);
        assert QuotientTerm(f, c, xs, ws, d, x, m - 1)(k) == f.mul(w, v);
      }
      SumAdd(f, d, scaled, WeightedValue(f, c, xs, ws, m), QuotientTerm(f, c, xs, ws, d, x, m));
    }
  }

  /** The formal derivative, in characteristic two. */
  ghost predicate IsDerivative<T(!new)>(f: Field<T>, deriv: seq<T>, c: seq<T>) {
    forall i: nat :: Coef(f, deriv, i) == if i % 2 == 0 then Coef(f, c, i + 1) else f.zero
  }

  /** x times the quotient's value plus the derivative's value is a multiple of the locator's next value. */
  lemma {:induction false} DerivativeValue<T(!new)>(f: Field<T>, deriv: seq<T>, c: seq<T>, x: T, m: nat, d: nat)
    requires Char2(f) && IsDerivative(f, deriv, c) && m < d
    ensures f.add(f.mul(x, RevEval(f, Quotient(f, c, x, d), x, m)), RevEval(f, deriv, x, m))
            == if m % 2 == 0 then RevEval(f, c, x, m + 1) else f.zero
  {
    var q, e := Quotient(f, c, x, d), Coef(f, deriv, m);
    assert Coef(f, q, m) == RevEval(f, c, x, m);
    if m > 0 {
      DerivativeValue(f, deriv, c, x, m - 1, d);
      var g, h, r := RevEval(f, q, x, m - 1), RevEval(f, deriv, x, m - 1), RevEval(f, c, x, m);
      DerivativeStep(f, x, g, h, r, e);
      f.MulZero(x);
      var xr := f.mul(x, r);
      if m % 2 == 0 {
        var v := f.add(xr, e);
        assert f.Law(f.zero, v, v) && f.Law(v, f.zero, f.zero);
      } else {
        Char2Double(f, xr);
        assert f.Law(xr, f.zero, f.zero);
      }
    }
  }

  /** x*(x*g + r) + (x*h + e) == x*(x*g + h) + (x*r + e). */
  lemma DerivativeStep<T(!new)>(f: Field<T>, x: T, g: T, h: T, r: T, e: T)
    requires f.IsField()
    ensures f.add(f.mul(x, f.add(f.mul(x, g), r)), f.add(f.mul(x, h), e))
            == f.add(f.mul(x, f.add(f.mul(x, g), h)), f.add(f.mul(x, r), e))
  {
    assert f.Law(x, f.mul(x, g), r) && f.Law(x, f.mul(x, g), h);
    f.AddInterchange(f.mul(x, f.mul(x, g)), f.mul(x, r), f.mul(x, h), e);
  }

  /** At a location, only that location's quotient contributes to the evaluator. */
  lemma EvaluatorAtLocation<T(!new)>(f: Field<T>, s: seq<T>, xs: seq<T>, ys: seq<T>, n: nat, c: seq<T>, omega: seq<T>,
                              l: nat)
    requires f.IsField() && ErrorPattern(f, s, xs, ys, n) && 2 * |xs| <= n && l < |xs|
    requires AllRoots(f, c, xs, |xs|) && IsEvaluator(f, omega, c, s, n)
    ensures RevEval(f, omega, xs[l], |xs| - 1)
            == f.mul(f.mul(ys[l], xs[l]), RevEval(f, Quotient(f, c, xs[l], |xs|), xs[l], |xs| - 1))
  {
    hide RevEval, Quotient, Sum, Discrepancy, PowerSum, IsEvaluator;
    var d := |xs|;
    var ws := Weights(f, xs, ys);
    ShiftedSyndromes(f, s, xs, ys, n);
    EvaluatorIsQuotients(f, omega, c, s, xs, ws, n, xs[l], d - 1);
    var term := QuotientTerm(f, c, xs, ws, d, xs[l], d - 1);
    forall k | 0 <= k < d && k != l
      ensures term(k) == f.zero
    {
      RootOfQuotient(f, c, xs[k], xs[l], d);
      f.MulZero(ws[k]);
    }
    SumSingle(f, d, term, l);
  }

  /** At a root the derivative is the location times the quotient. */
  lemma DerivativeAtRoot<T(!new)>(f: Field<T>, deriv: seq<T>, c: seq<T>, x: T, d: nat)
    requires Char2(f) && IsDerivative(f, deriv, c) && 0 < d && RevEval(f, c, x, d) == f.zero
    ensures RevEval(f, deriv, x, d - 1) == f.mul(x, RevEval(f, Quotient(f, c, x, d), x, d - 1))
  {
    hide RevEval, Quotient;
    var g, h := RevEval(f, Quotient(f, c, x, d), x, d - 1), RevEval(f, deriv, x, d - 1);
    DerivativeValue(f, deriv, c, x, d - 1, d);
    Char2Double(f, h);
    assert f.Law(h, f.mul(x, g), f.mul(x, g));
    f.CancelAdd(h, f.mul(x, g), h);
  }

  /** Forney's formula: at an error location the evaluator is the error value times the
      derivative of the locator, which is not zero there. */
  lemma ErrorValue<T(!new)>(f: Field<T>, s: seq<T>, xs: seq<T>, ys: seq<T>, n: nat, c: seq<T>,
                            omega: seq<T>, deriv: seq<T>, l: nat)
    requires Char2(f) && ErrorPattern(f, s, xs, ys, n) && 2 * |xs| <= n && l < |xs|
    requires Coef(f, c, 0) == f.one && AllRoots(f, c, xs, |xs|)
    requires IsEvaluator(f, omega, c, s, n) && IsDerivative(f, deriv, c)
    ensures RevEval(f, deriv, xs[l], |xs| - 1) != f.zero
    ensures RevEval(f, omega, xs[l], |xs| - 1) == f.mul(ys[l], RevEval(f, deriv, xs[l], |xs| - 1))
  {
    hide RevEval, Quotient, IsEvaluator, IsDerivative;
    var d, x, y := |xs|, xs[l], ys[l];
    EvaluatorAtLocation(f, s, xs, ys, n, c, omega, l);
    DerivativeAtRoot(f, deriv, c, x, d);
    assert f.Law(f.zero, f.zero, f.zero);
    SimpleRoot(f, c, xs, l);
    var g := RevEval(f, Quotient(f, c, x, d), x, d - 1);
    if f.mul(x, g) == f.zero { f.NoZeroDivisors(x, g); }
    assert f.Law(y, x, g);
  }

  // ----- plain polynomial evaluation -----

  function ValueTerm<T(!new)>(f: Field<T>, p: seq<T>, y: T): int -> T {
    i => if 0 <= i then f.mul(Coef(f, p, i), Pow(f, y, i)) else f.zero
  }

  lemma ValueTermAt<T(!new)>(f: Field<T>, p: seq<T>, y: T, i: nat)
    ensures ValueTerm(f, p, y)(i) == f.mul(Coef(f, p, i), Pow(f, y, i))
  {
  }

  /** p[0] + p[1]*y + p[2]*y^2 + ... */
  function Value<T(!new)>(f: Field<T>, p: seq<T>, y: T): T {
    Sum(f, |p|, ValueTerm(f, p, y))
  }

  /** Evaluating at the inverse of x is evaluating in reversed form at x, up to a power of x. */
  lemma {:induction false} ValueReversed<T(!new)>(f: Field<T>, p: seq<T>, x: T, y: T, m: nat)
    requires f.IsField() && f.mul(x, y) == f.one
    ensures f.mul(Pow(f, x, m), Sum(f, m + 1, ValueTerm(f, p, y))) == RevEval(f, p, x, m)
    ensures f.mul(Pow(f, x, m), Pow(f, y, m)) == f.one
  {
    var a := Coef(f, p, m);
    assert f.Law(f.one, f.one, f.one) && f.Law(a, f.one, f.one) && f.Law(a, a, a);
    if m == 0 {
      assert ValueTerm(f, p, y)(0) == f.mul(a, Pow(f, y, 0));
      assert Sum(f, 1, ValueTerm(f, p, y)) == f.add(Sum(f, 0, ValueTerm(f, p, y)), ValueTerm(f, p, y)(0));
      assert f.Law(f.zero, a, a) && f.Law(a, f.zero, f.zero) && f.Law(f.one, a, a);
    } else {
      ValueReversed(f, p, x, y, m - 1);
      var px, py := Pow(f, x, m - 1), Pow(f, y, m - 1);
      var xm, ym := f.mul(x, px), f.mul(y, py);
      assert f.mul(xm, ym) == f.one by {
        assert f.Law(x, px, ym) && f.Law(px, y, py) && f.Law(y, px, py) && f.Law(x, y, f.mul(px, py));
      }
      var sum := Sum(f, m, ValueTerm(f, p, y));
      assert ValueTerm(f, p, y)(m) == f.mul(a, Pow(f, y, m)) && Pow(f, y, m) == ym;
      assert f.Law(xm, sum, f.mul(a, ym)) && f.Law(x, px, sum);
      assert f.Law(xm, a, ym) && f.Law(a, xm, ym);
    }
  }

  /** A quotient of two values at y, the inverse of x, is the same quotient in reversed form. */
  lemma ValueQuotient<T(!new)>(f: Field<T>, p: seq<T>, q: seq<T>, x: T, y: T, d: nat, e: T)
    requires f.IsField() && f.mul(x, y) == f.one && d < |p| == |q|
    requires DegreeAtMost(f, p, d) && DegreeAtMost(f, q, d)
    requires RevEval(f, p, x, d) == f.mul(e, RevEval(f, q, x, d))
    ensures Value(f, p, y) == f.mul(e, Value(f, q, y))
    ensures Value(f, q, y) == f.zero <==> RevEval(f, q, x, d) == f.zero
  {
    hide RevEval, Sum, Pow, Coef, ValueTerm;
    var m := |p| - 1;
    ValueReversed(f, p, x, y, m);
    ValueReversed(f, q, x, y, m);
    RevEvalBeyond(f, p, x, d, m);
    RevEvalBeyond(f, q, x, d, m);
    f.MulZero(y);
    assert f.Law(f.zero, f.zero, f.zero) && f.Law(x, y, y);
    assert x != f.zero by { f.MulZero(y); }
    PowNonZero(f, x, m);
    PowNonZero(f, x, m - d);
    var xm, xd := Pow(f, x, m), Pow(f, x, m - d);
    var vp, vq, r := Value(f, p, y), Value(f, q, y), RevEval(f, q, x, d);
    assert f.mul(xm, vp) == f.mul(xm, f.mul(e, vq)) by {
      assert f.Law(xd, e, r) && f.Law(e, xd, r) && f.Law(xm, e, vq) && f.Law(e, xm, vq);
    }
    f.CancelMul(xm, vp, f.mul(e, vq));
    f.MulZero(xm);
    f.MulZero(xd);
    if vq == f.zero { f.NoZeroDivisors(xd, r); }
    if r == f.zero { f.NoZeroDivisors(xm, vq); }
  }
}
