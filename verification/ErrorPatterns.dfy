/** Received blocks, codewords and the error pattern between them, over any field with a
    generator of known order. */
module ErrorPatterns {
  import opened Fields
  import opened Sums
  import opened Recurrences
  import opened Locators
  import opened Forney

  /** gen has order p: its p-th power is 1 and no smaller one is. */
  ghost predicate HasOrder<T(!new)>(f: Field<T>, gen: T, p: nat) {
    && f.IsField() && 0 < p
    && Pow(f, gen, p) == f.one
    && (forall i | 0 < i < p :: Pow(f, gen, i) != f.one)
  }

  /** The block as a polynomial: its last byte is the constant coefficient. */
  function Reversed<T(!new)>(block: seq<T>): (r: seq<T>)
    ensures |r| == |block|
  {
    seq(|block|, j requires 0 <= j < |block| => block[|block| - 1 - j])
  }

  function Syndrome<T(!new)>(f: Field<T>, gen: T, block: seq<T>, i: nat): T {
    Value(f, Reversed(block), Pow(f, gen, i))
  }

  /** The code: polynomials that vanish at gen^0, gen^1, ..., gen^(npar-1). */
  ghost predicate IsCodeword<T(!new)>(f: Field<T>, gen: T, block: seq<T>, npar: nat) {
    forall i: nat | i < npar :: Syndrome(f, gen, block, i) == f.zero
  }

  /** In how many places two blocks differ. */
  function Distance<T(==)>(a: seq<T>, b: seq<T>): nat
    requires |a| == |b|
  {
    if |a| == 0 then 0 else Distance(a[1..], b[1..]) + if a[0] == b[0] then 0 else 1
  }

  /** The differences of two blocks, as a polynomial. */
  function ErrorPoly<T(!new)>(f: Field<T>, a: seq<T>, b: seq<T>): (e: seq<T>)
    requires |a| == |b|
    ensures |e| == |a|
  {
    seq(|a|, j requires 0 <= j < |a| => f.add(a[|a| - 1 - j], f.neg(b[|a| - 1 - j])))
  }

  /** The exponents below n at which e is not zero, in increasing order. */
  function Support<T(==,!new)>(f: Field<T>, e: seq<T>, n: nat): (r: seq<nat>)
    requires n <= |e|
    ensures forall j :: j in r <==> 0 <= j < n && e[j] != f.zero
    ensures forall k | 0 <= k < |r| :: r[k] < n && e[r[k]] != f.zero
    ensures forall i, j | 0 <= i < j < |r| :: r[i] < r[j]
  {
    if n == 0 then []
    else if e[n - 1] == f.zero then Support(f, e, n - 1)
    else Support(f, e, n - 1) + [n - 1]
  }

  lemma {:induction false} DistanceIsSupport<T(!new)>(f: Field<T>, a: seq<T>, b: seq<T>)
    requires f.IsField() && |a| == |b|
    ensures |Support(f, ErrorPoly(f, a, b), |a|)| == Distance(a, b)
  {
    if |a| > 0 {
      DistanceIsSupport(f, a[1..], b[1..]);
      var e, e' := ErrorPoly(f, a, b), ErrorPoly(f, a[1..], b[1..]);
      assert e[..|a| - 1] == e';
      SupportPrefix(f, e, e', |a| - 1);
      f.SubZero(a[0], b[0]);
    }
  }

  lemma {:induction false} SupportPrefix<T(!new)>(f: Field<T>, e: seq<T>, e': seq<T>, n: nat)
    requires n <= |e| && n <= |e'| && e[..n] == e'[..n]
    ensures Support(f, e, n) == Support(f, e', n)
  {
    if n > 0 {
      assert e[n - 1] == e[..n][n - 1] == e'[n - 1];
      assert e[..n - 1] == e[..n][..n - 1] == e'[..n][..n - 1] == e'[..n - 1];
      SupportPrefix(f, e, e', n - 1);
    }
  }

  /** The location gen^j of each exponent. */
  function LocationsOf<T(!new)>(f: Field<T>, gen: T, js: seq<nat>): (xs: seq<T>)
    ensures |xs| == |js|
  {
    seq(|js|, k requires 0 <= k < |js| => Pow(f, gen, js[k]))
  }

  function ValuesOf<T(!new)>(e: seq<T>, js: seq<nat>): (ys: seq<T>)
    requires forall k | 0 <= k < |js| :: js[k] < |e|
    ensures |ys| == |js|
  {
    seq(|js|, k requires 0 <= k < |js| => e[js[k]])
  }

  /** Only the support contributes to the value of an error polynomial. */
  lemma {:induction false} ValueIsPowerSum<T(!new)>(f: Field<T>, gen: T, e: seq<T>, n: nat, i: nat)
    requires f.IsField() && n <= |e|
    ensures Sum(f, n, ValueTerm(f, e, Pow(f, gen, i)))
            == PowerSum(f, LocationsOf(f, gen, Support(f, e, n)), ValuesOf(e, Support(f, e, n)), i)
  {
    if n > 0 {
      hide Sum, PowerSum, ValueTerm;
      ValueIsPowerSum(f, gen, e, n - 1, i);
      var js := Support(f, e, n - 1);
      ExtendPowerSum(f, gen, e, n - 1, i, js);
    }
  }

  lemma ExtendPowerSum<T(!new)>(f: Field<T>, gen: T, e: seq<T>, n: nat, i: nat, js: seq<nat>)
    requires f.IsField() && n < |e|
    requires forall k | 0 <= k < |js| :: js[k] < |e|
    requires Sum(f, n, ValueTerm(f, e, Pow(f, gen, i))) == PowerSum(f, LocationsOf(f, gen, js), ValuesOf(e, js), i)
    ensures Sum(f, n + 1, ValueTerm(f, e, Pow(f, gen, i)))
            == if e[n] == f.zero then PowerSum(f, LocationsOf(f, gen, js), ValuesOf(e, js), i)
               else PowerSum(f, LocationsOf(f, gen, js + [n]), ValuesOf(e, js + [n]), i)
  {
    var y, xs, ys := Pow(f, gen, i), LocationsOf(f, gen, js), ValuesOf(e, js);
    var sum := PowerSum(f, xs, ys, i);
    ValueTermAt(f, e, y, n);
    PowExchange(f, gen, i, n);
    f.MulZero(Pow(f, y, n));
    assert f.Law(sum, f.zero, f.zero);
    PowerSumAppend(f, xs, ys, Pow(f, gen, n), e[n], i);
    assert LocationsOf(f, gen, js + [n]) == xs + [Pow(f, gen, n)];
    assert ValuesOf(e, js + [n]) == ys + [e[n]];
  }

  lemma PowerSumAppend<T(!new)>(f: Field<T>, xs: seq<T>, ys: seq<T>, x: T, y: T, n: nat)
    requires |xs| == |ys|
    ensures PowerSum(f, xs + [x], ys + [y], n) == f.add(PowerSum(f, xs, ys, n), f.mul(y, Pow(f, x, n)))
  {
    var xs', ys' := xs + [x], ys + [y];
    SumEqual(f, |xs|, PowerTerm(f, xs, ys, n), PowerTerm(f, xs', ys', n));
  }

  lemma SyndromeOfDifference<T(!new)>(f: Field<T>, gen: T, block: seq<T>, code: seq<T>, i: nat)
    requires f.IsField() && |block| == |code| && Syndrome(f, gen, code, i) == f.zero
    ensures Syndrome(f, gen, block, i) == Value(f, ErrorPoly(f, block, code), Pow(f, gen, i))
  {
    var y, e := Pow(f, gen, i), ErrorPoly(f, block, code);
    var a, b := Reversed(block), Reversed(code);
    forall j | 0 <= j < |block|
      ensures ValueTerm(f, a, y)(j) == f.add(ValueTerm(f, e, y)(j), ValueTerm(f, b, y)(j))
    {
      var p, nb := Pow(f, y, j), f.neg(b[j]);
      assert Coef(f, e, j) == f.add(a[j], nb);
      assert f.Law(p, e[j], b[j]) && f.Law(e[j], p, p) && f.Law(b[j], p, p) && f.Law(f.add(e[j], b[j]), p, p);
      assert f.Law(a[j], nb, b[j]) && f.Law(b[j], nb, nb) && f.Law(a[j], a[j], a[j]);
      ValueTermAt(f, a, y, j);
      ValueTermAt(f, b, y, j);
      ValueTermAt(f, e, y, j);
    }
    SumAdd(f, |block|, ValueTerm(f, e, y), ValueTerm(f, b, y), ValueTerm(f, a, y));
    var s := Value(f, e, y);
    assert f.Law(s, f.zero, f.zero);
  }

  /** s holds the syndromes of the block. */
  ghost predicate HoldsSyndromes<T(!new)>(f: Field<T>, gen: T, s: seq<T>, block: seq<T>, npar: nat) {
    npar <= |s| && forall i: nat | i < npar :: Coef(f, s, i) == Syndrome(f, gen, block, i)
  }

  lemma PowersDistinct<T(!new)>(f: Field<T>, gen: T, p: nat, i: nat, j: nat)
    requires HasOrder(f, gen, p) && i < j < p
    ensures Pow(f, gen, i) != Pow(f, gen, j)
  {
    var x, y := Pow(f, gen, i), Pow(f, gen, j - i);
    PowAdd(f, gen, i, j - i);
    PowerNonZero(f, gen, p, i);
    assert f.Law(x, f.one, x);
    if f.mul(x, y) == f.mul(x, f.one) {
      f.CancelMul(x, y, f.one);
    }
  }

  lemma PowerNonZero<T(!new)>(f: Field<T>, gen: T, p: nat, n: nat)
    requires HasOrder(f, gen, p)
    ensures Pow(f, gen, n) != f.zero
  {
    assert f.Law(gen, gen, gen);
    PowOfZero(f, p);
    PowNonZero(f, gen, n);
  }

  /** The syndromes of a block are the power sums of its difference from any codeword. */
  lemma SyndromesArePattern<T(!new)>(f: Field<T>, gen: T, p: nat, s: seq<T>, block: seq<T>, code: seq<T>, npar: nat)
    requires HasOrder(f, gen, p) && |block| == |code| <= p
    requires HoldsSyndromes(f, gen, s, block, npar) && IsCodeword(f, gen, code, npar)
    requires Distance(block, code) <= |s|
    ensures var e := ErrorPoly(f, block, code);
            var js := Support(f, e, |e|);
            ErrorPattern(f, s, LocationsOf(f, gen, js), ValuesOf(e, js), npar)
  {
    var e := ErrorPoly(f, block, code);
    var js := Support(f, e, |e|);
    var xs, ys := LocationsOf(f, gen, js), ValuesOf(e, js);
    DistanceIsSupport(f, block, code);
    forall i | 0 <= i < npar
      ensures Coef(f, s, i) == PowerSum(f, xs, ys, i)
    {
      assert Syndrome(f, gen, code, i) == f.zero;
      SyndromeOfDifference(f, gen, block, code, i);
      ValueIsPowerSum(f, gen, e, |e|, i);
    }
    forall i, j | 0 <= i < j < |xs|
      ensures xs[i] != xs[j]
    {
      PowersDistinct(f, gen, p, js[i], js[j]);
    }
    forall i | 0 <= i < |xs|
      ensures xs[i] != f.zero && ys[i] != f.zero
    {
      PowerNonZero(f, gen, p, js[i]);
    }
  }

  // ----- the correction at one position -----

  /** What the decoder has computed before it looks for error positions. */
  ghost predicate Solved<T(!new)>(f: Field<T>, s: seq<T>, npar: nat, sigma: seq<T>, len: nat, deriv: seq<T>,
                           omega: seq<T>) {
    && Generates(f, sigma, len, s, npar) && NoShorter(f, s, npar, len)
    && IsDerivative(f, deriv, sigma)
    && IsEvaluator(f, omega, sigma, s, npar)
    && |sigma| == |deriv| == |omega| == |s|
  }

  /** The evaluator and the derivative have degree less than the number of errors. */
  lemma DegreesBelowErrors<T(!new)>(f: Field<T>, s: seq<T>, xs: seq<T>, ys: seq<T>, npar: nat,
                                    sigma: seq<T>, deriv: seq<T>, omega: seq<T>)
    requires f.IsField() && ErrorPattern(f, s, xs, ys, npar) && 0 < |xs|
    requires DegreeAtMost(f, sigma, |xs|) && AllRoots(f, sigma, xs, |xs|)
    requires IsDerivative(f, deriv, sigma) && IsEvaluator(f, omega, sigma, s, npar)
    ensures DegreeAtMost(f, omega, |xs| - 1) && DegreeAtMost(f, deriv, |xs| - 1)
  {
    ShiftedSyndromes(f, s, xs, ys, npar);
    forall m: int | |xs| - 1 < m
      ensures Coef(f, omega, m) == f.zero
    {
      if m < npar - 1 {
        RootsAnnihilate(f, sigma, s[1..], xs, Weights(f, xs, ys), |xs|, m);
      }
    }
    forall m: int | |xs| - 1 < m
      ensures Coef(f, deriv, m) == f.zero
    {
      assert Coef(f, deriv, m) == if m % 2 == 0 then Coef(f, sigma, m + 1) else f.zero;
    }
  }

  /** The setting of one correction: a block near enough to a codeword, its syndromes, and
      the polynomials the decoder has computed from them. */
  ghost predicate Correctable<T(!new)>(f: Field<T>, gen: T, p: nat, s: seq<T>, block: seq<T>, code: seq<T>, npar: nat,
                                       sigma: seq<T>, len: nat, deriv: seq<T>, omega: seq<T>) {
    && Char2(f) && HasOrder(f, gen, p) && |block| == |code| <= p
    && HoldsSyndromes(f, gen, s, block, npar) && IsCodeword(f, gen, code, npar)
    && 2 * Distance(block, code) <= npar
    && Solved(f, s, npar, sigma, len, deriv, omega)
  }

  /** The locator's roots are the inverses of the locations of the pattern. */
  lemma LocatorOfPattern<T(!new)>(f: Field<T>, gen: T, p: nat, s: seq<T>, block: seq<T>, code: seq<T>, npar: nat,
                                  sigma: seq<T>, len: nat, deriv: seq<T>, omega: seq<T>)
    requires Correctable(f, gen, p, s, block, code, npar, sigma, len, deriv, omega)
    ensures var js := Support(f, ErrorPoly(f, block, code), |block|);
            var xs := LocationsOf(f, gen, js);
            && len == |js| && 2 * len <= npar && len < |sigma|
            && ErrorPattern(f, s, xs, ValuesOf(ErrorPoly(f, block, code), js), npar)
            && AllRoots(f, sigma, xs, len)
            && (forall x {:trigger RevEval(f, sigma, x, len)} :: RevEval(f, sigma, x, len) == f.zero <==> x in xs)
  {
    var e := ErrorPoly(f, block, code);
    var js := Support(f, e, |e|);
    var xs, ys := LocationsOf(f, gen, js), ValuesOf(e, js);
    DistanceIsSupport(f, block, code);
    SyndromesArePattern(f, gen, p, s, block, code, npar);
    ShortestIsLocator(f, s, xs, ys, npar, sigma, len);
    assert len < |sigma| by { assert Coef(f, sigma, 0) == f.one && f.Law(gen, gen, gen); }
    forall i | 0 <= i < |xs|
      ensures RevEval(f, sigma, xs[i], len) == f.zero
    {
      assert xs[i] in xs;
    }
  }

  /** At every position the polynomials tell whether there is an error, and which. */
  lemma PositionCorrect<T(!new)>(f: Field<T>, gen: T, p: nat, s: seq<T>, block: seq<T>, code: seq<T>, npar: nat,
                                 sigma: seq<T>, len: nat, deriv: seq<T>, omega: seq<T>, j: nat, y: T)
    requires Correctable(f, gen, p, s, block, code, npar, sigma, len, deriv, omega)
    requires j < |block| && f.mul(Pow(f, gen, j), y) == f.one
    ensures var e := ErrorPoly(f, block, code);
            && (Value(f, sigma, y) == f.zero <==> e[j] != f.zero)
            && (e[j] != f.zero ==> Value(f, deriv, y) != f.zero
                                   && Value(f, omega, y) == f.mul(e[j], Value(f, deriv, y)))
  {
    var e := ErrorPoly(f, block, code);
    var js := Support(f, e, |e|);
    LocatorOfPattern(f, gen, p, s, block, code, npar, sigma, len, deriv, omega);
    LocationInPattern(f, gen, p, e, j);
    SigmaValue(f, sigma, Pow(f, gen, j), y, len);
    if e[j] != f.zero {
      var l :| 0 <= l < |js| && js[l] == j;
      ValueAtError(f, s, LocationsOf(f, gen, js), ValuesOf(e, js), npar, sigma, deriv, omega, l, y);
    }
  }

  lemma ValueAtError<T(!new)>(f: Field<T>, s: seq<T>, xs: seq<T>, ys: seq<T>, npar: nat,
                              sigma: seq<T>, deriv: seq<T>, omega: seq<T>, l: nat, y: T)
    requires Char2(f) && ErrorPattern(f, s, xs, ys, npar) && 2 * |xs| <= npar && l < |xs|
    requires Coef(f, sigma, 0) == f.one && DegreeAtMost(f, sigma, |xs|) && AllRoots(f, sigma, xs, |xs|)
    requires IsDerivative(f, deriv, sigma) && IsEvaluator(f, omega, sigma, s, npar)
    requires |deriv| == |omega| == |s|
    requires f.mul(xs[l], y) == f.one
    ensures Value(f, deriv, y) != f.zero && Value(f, omega, y) == f.mul(ys[l], Value(f, deriv, y))
  {
    DegreesBelowErrors(f, s, xs, ys, npar, sigma, deriv, omega);
    ErrorValue(f, s, xs, ys, npar, sigma, omega, deriv, l);
    ValueQuotient(f, omega, deriv, xs[l], y, |xs| - 1, ys[l]);
  }

  lemma SigmaValue<T(!new)>(f: Field<T>, sigma: seq<T>, x: T, y: T, d: nat)
    requires f.IsField() && f.mul(x, y) == f.one && d < |sigma| && DegreeAtMost(f, sigma, d)
    ensures Value(f, sigma, y) == f.zero <==> RevEval(f, sigma, x, d) == f.zero
  {
    var r := RevEval(f, sigma, x, d);
    assert f.Law(f.one, r, r) && f.Law(r, r, r);
    ValueQuotient(f, sigma, sigma, x, y, d, f.one);
  }

  /** gen^j is an error location exactly when the error polynomial is not zero at j. */
  lemma LocationInPattern<T(!new)>(f: Field<T>, gen: T, p: nat, e: seq<T>, j: nat)
    requires HasOrder(f, gen, p) && j < |e| <= p
    ensures Pow(f, gen, j) in LocationsOf(f, gen, Support(f, e, |e|)) <==> e[j] != f.zero
  {
    var js := Support(f, e, |e|);
    var xs := LocationsOf(f, gen, js);
    if e[j] != f.zero {
      var l :| 0 <= l < |js| && js[l] == j;
      assert xs[l] == Pow(f, gen, j);
    } else if Pow(f, gen, j) in xs {
      var l :| 0 <= l < |xs| && xs[l] == Pow(f, gen, j);
      if js[l] < j { PowersDistinct(f, gen, p, js[l], j); }
      if j < js[l] { PowersDistinct(f, gen, p, j, js[l]); }
    }
  }

  /** A block without syndromes is no further than its own distance bound from a codeword: it is that codeword. */
  lemma NoSyndromesNoErrors<T(!new)>(f: Field<T>, gen: T, p: nat, s: seq<T>, block: seq<T>, code: seq<T>, npar: nat)
    requires HasOrder(f, gen, p) && |block| == |code| <= p
    requires HoldsSyndromes(f, gen, s, block, npar)
    requires IsCodeword(f, gen, block, npar) && IsCodeword(f, gen, code, npar)
    requires Distance(block, code) <= npar
    ensures block == code
  {
    var e := ErrorPoly(f, block, code);
    var js := Support(f, e, |e|);
    var xs, ys := LocationsOf(f, gen, js), ValuesOf(e, js);
    DistanceIsSupport(f, block, code);
    SyndromesArePattern(f, gen, p, s, block, code, npar);
    forall m: nat | m < |xs|
      ensures PowerSum(f, xs, ys, m) == f.zero
    {
      assert Coef(f, s, m) == Syndrome(f, gen, block, m);
    }
    Independent(f, xs, ys);
    assert |js| == 0;
    forall i | 0 <= i < |block|
      ensures block[i] == code[i]
    {
      var j := |block| - 1 - i;
      assert j !in js;
      assert e[j] == f.add(block[i], f.neg(code[i]));
      f.SubZero(block[i], code[i]);
    }
  }
}
