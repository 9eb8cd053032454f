/** The block decoder of quirc: syndromes, Berlekamp-Massey, error evaluator, root search and
    correction, on byte buffers and logarithm tables.  Every method takes, as ghosts, the field
    f and the generator gen that its tables stand for. */
module ReedSolomon {
  import opened Fields
  import opened Sums
  import opened Recurrences
  import opened Massey
  import opened Forney
  import opened ErrorPatterns
  import opened Galois

  const MAX_POLY := 64

  /** dst += x^shift * c * src; terms that fall outside the buffer are dropped. */
  method PolyAdd(dst: array<bv8>, src: array<bv8>, c: bv8, shift: int, gf: GaloisField,
                 ghost f: Field<bv8>, ghost gen: bv8)
    requires Implements(gf, f, gen)
    requires dst.Length == src.Length == MAX_POLY && dst != src
    modifies dst
    ensures Combines(f, dst[..], old(dst[..]), src[..], c, shift, MAX_POLY)
  {
    hide TableTimes, TablePower, TableDivide, LogOf, Implements;
    TableFacts(gf, f, gen);
    if c != 0 {
      var i := 0;
      while i < MAX_POLY
        invariant 0 <= i <= MAX_POLY
        invariant forall q | 0 <= q < MAX_POLY ::
          dst[q] == if 0 <= q - shift < i then f.add(old(dst[q]), f.mul(c, src[q - shift])) else old(dst[q])
      {
        var p := i + shift;
        var v := src[i];
        if 0 <= p < MAX_POLY {
          AddNothing(gf, f, gen, dst[p], c);
          if v != 0 {
            TableTerm(gf, f, gen, v, c, dst[p]);
            assert f.Law(v, c, c);
            dst[p] := dst[p] ^ TableTimes(gf, v, c);
          }
        }
        i := i + 1;
      }
    }
    forall q | 0 <= q < MAX_POLY
      ensures dst[q] == f.add(old(dst[q]), f.mul(c, Coef(f, src[..], q - shift)))
    {
      AddNothing(gf, f, gen, old(dst[q]), c);
      AddNothing(gf, f, gen, old(dst[q]), Coef(f, src[..], q - shift));
    }
  }

  lemma TableFacts(gf: GaloisField, f: Field<bv8>, gen: bv8)
    requires Implements(gf, f, gen)
    ensures WellFormed(gf) && f.IsField() && f.zero == 0 && f.one == 1
  {
  }

  lemma AddNothing(gf: GaloisField, f: Field<bv8>, gen: bv8, x: bv8, c: bv8)
    requires Implements(gf, f, gen)
    ensures f.add(x, f.mul(c, 0)) == x && f.add(x, f.mul(0, c)) == x
  {
    f.MulZero(c);
    XorFacts(gf, f, gen, x, x);
  }

  /** One table look-up adds the product a * b. */
  lemma TableTerm(gf: GaloisField, f: Field<bv8>, gen: bv8, a: bv8, b: bv8, x: bv8)
    requires Implements(gf, f, gen) && a != 0 && b != 0
    ensures x ^ TableTimes(gf, a, b) == f.add(x, f.mul(a, b))
  {
    TableTimesIs(gf, f, gen, a, b);
    XorFacts(gf, f, gen, x, f.mul(a, b));
  }

  /** The value of the polynomial s at x. */
  method PolyEval(s: array<bv8>, x: bv8, gf: GaloisField, ghost f: Field<bv8>, ghost gen: bv8) returns (sum: bv8)
    requires Implements(gf, f, gen) && s.Length == MAX_POLY
    ensures sum == Value(f, s[..], x)
  {
    hide TableTimes, TablePower, TableDivide, LogOf, Implements;
    TableFacts(gf, f, gen);
    sum := 0;
    if x == 0 {
      ValueAtZero(f, s[..]);
      return s[0];
    }
    var i := 0;
    while i < MAX_POLY
      invariant 0 <= i <= MAX_POLY
      invariant sum == Sum(f, i, ValueTerm(f, s[..], x))
    {
      var c := s[i];
      AddNothing(gf, f, gen, sum, Pow(f, x, i));
      ValueTermAt(f, s[..], x, i);
      if c != 0 {
        PowerProduct(gf, f, gen, c, x, i, sum);
        sum := sum ^ TablePower(gf, c, LogOf(gf, x) * i);
      }
      i := i + 1;
    }
  }

  lemma ValueAtZero<T(!new)>(f: Field<T>, p: seq<T>)
    requires f.IsField() && 0 < |p|
    ensures Value(f, p, f.zero) == p[0]
  {
    forall i | 0 <= i < |p| && i != 0
      ensures ValueTerm(f, p, f.zero)(i) == f.zero
    {
      PowOfZero(f, i);
      f.MulZero(Coef(f, p, i));
    }
    SumSingle(f, |p|, ValueTerm(f, p, f.zero), 0);
    ValueTermAt(f, p, f.zero, 0);
    assert Pow(f, f.zero, 0) == f.one && f.Law(p[0], p[0], p[0]);
  }

  /** One table look-up adds c * x^n. */
  lemma PowerProduct(gf: GaloisField, f: Field<bv8>, gen: bv8, c: bv8, x: bv8, n: nat, sum: bv8)
    requires Implements(gf, f, gen) && c != 0 && x != 0
    ensures sum ^ TablePower(gf, c, LogOf(gf, x) * n)
            == f.add(sum, f.mul(c, Pow(f, x, n)))
  {
    var l := LogOf(gf, x);
    TablePowerIs(gf, f, gen, c, l * n);
    PowMul(f, gen, l, n);
    LogPower(gf, f, gen, x);
    XorFacts(gf, f, gen, sum, f.mul(c, Pow(f, x, n)));
  }

  /** The discrepancy of the current connection polynomial, as the inner loop accumulates it. */
  method ComputeDiscrepancy(s: array<bv8>, c: array<bv8>, n: nat, len: nat, gf: GaloisField,
                            ghost f: Field<bv8>, ghost gen: bv8) returns (d: bv8)
    requires Implements(gf, f, gen) && s.Length == c.Length == MAX_POLY
    requires len <= n < MAX_POLY && Coef(f, c[..], 0) == f.one && DegreeAtMost(f, c[..], len)
    ensures d == Discrepancy(f, c[..], s[..], n)
  {
    hide TableTimes, TablePower, TableDivide, LogOf, Implements, Sum, DiscTerm, DegreeAtMost, Discrepancy, Coef;
    ghost var cs, ss := c[..], s[..];
    d := s[n];
    TableFacts(gf, f, gen);
    DiscrepancyStart(f, cs, ss, n);
    var i := 1;
    while i <= len
      invariant 1 <= i <= len + 1
      invariant d == Sum(f, i, DiscTerm(f, cs, ss, n))
    {
      var a, v := c[i], s[n - i];
      assert a == cs[i] && v == ss[n - i];
      DiscrepancyStep(gf, f, gen, cs, ss, n, i, d);
      if a != 0 && v != 0 {
        d := d ^ TableTimes(gf, a, v);
      }
      i := i + 1;
    }
    DiscrepancyEnd(f, cs, ss, n, len);
  }

  /** One turn of the discrepancy loop adds one term of the sum. */
  lemma DiscrepancyStep(gf: GaloisField, f: Field<bv8>, gen: bv8, c: seq<bv8>, s: seq<bv8>, n: nat, i: nat, d: bv8)
    requires Implements(gf, f, gen) && i < |c| && i <= n < |s|
    requires d == Sum(f, i, DiscTerm(f, c, s, n))
    ensures Sum(f, i + 1, DiscTerm(f, c, s, n))
            == if c[i] == 0 || s[n - i] == 0 then d
               else d ^ TableTimes(gf, c[i], s[n - i])
  {
    assert DiscTerm(f, c, s, n)(i) == f.mul(c[i], s[n - i]);
    AddNothing(gf, f, gen, d, c[i]);
    AddNothing(gf, f, gen, d, s[n - i]);
    if c[i] != 0 && s[n - i] != 0 {
      TableTerm(gf, f, gen, c[i], s[n - i], d);
    }
  }

  lemma DiscrepancyStart<T(!new)>(f: Field<T>, c: seq<T>, s: seq<T>, n: nat)
    requires f.IsField() && Coef(f, c, 0) == f.one && n < |s|
    ensures Sum(f, 1, DiscTerm(f, c, s, n)) == s[n]
  {
    var v := Coef(f, s, n);
    SumSingle(f, 1, DiscTerm(f, c, s, n), 0);
    assert f.Law(f.one, v, v) && f.Law(v, v, v);
  }

  lemma DiscrepancyEnd<T(!new)>(f: Field<T>, c: seq<T>, s: seq<T>, n: nat, len: nat)
    requires f.IsField() && DegreeAtMost(f, c, len) && len <= n
    ensures Sum(f, len + 1, DiscTerm(f, c, s, n)) == Discrepancy(f, c, s, n)
  {
    forall i | len + 1 <= i < n + 1
      ensures DiscTerm(f, c, s, n)(i) == f.zero
    {
      f.MulZero(Coef(f, s, n - i));
    }
    SumTail(f, len + 1, n + 1, DiscTerm(f, c, s, n));
  }

  method CopyPoly(dst: array<bv8>, src: array<bv8>)
    requires dst.Length == src.Length
    modifies dst
    ensures dst[..] == old(src[..])
  {
    forall i | 0 <= i < dst.Length { dst[i] := src[i]; }
  }

  /** The rounds of the algorithm on count symbols: a shortest linear recurrence for them, of length len. */
  method BerlekampMassey(s: array<bv8>, count: nat, gf: GaloisField, sigma: array<bv8>,
                         ghost f: Field<bv8>, ghost gen: bv8) returns (ghost len: nat)
    requires Implements(gf, f, gen)
    requires s.Length == sigma.Length == MAX_POLY && s != sigma && count <= MAX_POLY
    modifies sigma
    ensures sigma[..] == Rounds(f, s[..], count, MAX_POLY).c && len == Rounds(f, s[..], count, MAX_POLY).len
    ensures Generates(f, sigma[..], len, s[..], count)
    ensures NoShorter(f, s[..], count, len)
  {
    hide TableTimes, TablePower, TableDivide, LogOf, Implements, Invariant, Generates, NoShorter, Combines, Discrepancy,
      Rounds, Next, Initial, Combination;
    ghost var syms := s[..];
    var bigC := new bv8[MAX_POLY](i => 0);
    var bigB := new bv8[MAX_POLY](i => 0);
    var l: nat, m: nat, b: bv8 := 0, 1, 1;
    bigB[0] := 1;
    bigC[0] := 1;
    TableFacts(gf, f, gen);
    ghost var cs, bs := bigC[..], bigB[..];
    assert bs == cs;
    StartBytes(f, syms, cs);
    var n := 0;
    while n < count
      invariant 0 <= n <= count
      invariant fresh(bigC) && fresh(bigB) && bigC != bigB && bigC.Length == bigB.Length == MAX_POLY
      invariant s[..] == syms && bigC[..] == cs && bigB[..] == bs
      invariant Rounds(f, syms, n, MAX_POLY) == Round(cs, l, bs, m, b)
    {
      RoundFacts(f, syms, n, cs, l, bs, m, b);
      var d := ComputeDiscrepancy(s, bigC, n, l, gf, f, gen);
      var mult := TableDivide(gf, d, b);
      if d == 0 {
        RoundZero(f, syms, n, Round(cs, l, bs, m, b));
        m := m + 1;
      } else {
        RepairFactor(gf, f, gen, d, b, mult);
        if l * 2 <= n {
          ReplaceOlder(bigC, bigB, mult, m, gf, f, gen);
          RoundNonZero(f, syms, n, Round(cs, l, bs, m, b), mult, bigC[..]);
          l, b, m := n + 1 - l, d, 1;
          bs := cs;
        } else {
          PolyAdd(bigC, bigB, mult, m, gf, f, gen);
          RoundNonZero(f, syms, n, Round(cs, l, bs, m, b), mult, bigC[..]);
          m := m + 1;
        }
        cs := bigC[..];
      }
      n := n + 1;
    }
    RoundsShortest(f, syms, count, MAX_POLY);
    CopyPoly(sigma, bigC);
    assert s[..] == syms;
    len := l;
  }

  /** Repairs c with b, which c as it was then replaces. */
  method ReplaceOlder(c: array<bv8>, b: array<bv8>, mult: bv8, m: nat, gf: GaloisField, ghost f: Field<bv8>,
                      ghost gen: bv8)
    requires Implements(gf, f, gen)
    requires c.Length == b.Length == MAX_POLY && c != b
    modifies c, b
    ensures Combines(f, c[..], old(c[..]), old(b[..]), mult, m, MAX_POLY) && b[..] == old(c[..])
  {
    hide Implements, Combines;
    var t := new bv8[MAX_POLY](i => 0);
    CopyPoly(t, c);
    PolyAdd(c, b, mult, m, gf, f, gen);
    ghost var next := c[..];
    CopyPoly(b, t);
    assert c[..] == next;
  }

  lemma StartBytes(f: Field<bv8>, s: seq<bv8>, c: seq<bv8>)
    requires f.IsField() && f.zero == 0 && f.one == 1
    requires |c| == MAX_POLY && c[0] == 1 && forall i | 0 < i < |c| :: c[i] == 0
    ensures Rounds(f, s, 0, MAX_POLY) == Round(c, 0, c, 1, 1)
  {
    assert Initial(f, MAX_POLY).c == c;
  }

  lemma RoundFacts(f: Field<bv8>, s: seq<bv8>, n: nat, c: seq<bv8>, len: nat, b: seq<bv8>, m: nat, db: bv8)
    requires f.IsField() && n <= MAX_POLY && Rounds(f, s, n, MAX_POLY) == Round(c, len, b, m, db)
    ensures |c| == MAX_POLY && len <= n && db != f.zero
    ensures Coef(f, c, 0) == f.one && DegreeAtMost(f, c, len)
  {
    RoundsInvariant(f, s, n, MAX_POLY);
    hide Rounds;
  }

  lemma RoundZero(f: Field<bv8>, s: seq<bv8>, n: nat, r: Round<bv8>)
    requires Rounds(f, s, n, MAX_POLY) == r && Discrepancy(f, r.c, s, n) == f.zero
    ensures Rounds(f, s, n + 1, MAX_POLY) == r.(m := r.m + 1)
  {
    hide Discrepancy, Combination;
  }

  lemma RoundNonZero(f: Field<bv8>, s: seq<bv8>, n: nat, r: Round<bv8>, mult: bv8, out: seq<bv8>)
    requires Rounds(f, s, n, MAX_POLY) == r && |r.c| == |out| == MAX_POLY
    requires Discrepancy(f, r.c, s, n) != f.zero && mult == f.neg(f.mul(Discrepancy(f, r.c, s, n), f.inv(r.db)))
    requires Combines(f, out, r.c, r.b, mult, r.m, MAX_POLY)
    ensures Rounds(f, s, n + 1, MAX_POLY)
         == if 2 * r.len <= n then Round(out, n + 1 - r.len, r.c, 1, Discrepancy(f, r.c, s, n))
            else r.(c := out, m := r.m + 1)
  {
    CombinesIs(f, out, r.c, r.b, mult, r.m);
    hide Combination, Combines, Discrepancy;
  }

  lemma CombinesIs(f: Field<bv8>, out: seq<bv8>, c: seq<bv8>, b: seq<bv8>, mult: bv8, m: nat)
    requires |c| == |out| && Combines(f, out, c, b, mult, m, |out|)
    ensures out == Combination(f, c, b, mult, m)
  {
    forall i | 0 <= i < |out| ensures out[i] == Combination(f, c, b, mult, m)[i] {
      assert Coef(f, out, i) == out[i];
    }
  }

  /** The table quotient is the multiple that repairs. */
  lemma RepairFactor(gf: GaloisField, f: Field<bv8>, gen: bv8, d: bv8, b: bv8, mult: bv8)
    requires Implements(gf, f, gen) && d != 0 && b != 0
    requires mult == TableDivide(gf, d, b)
    ensures mult == f.neg(f.mul(d, f.inv(b)))
  {
    TableDivideIs(gf, f, gen, d, b);
    TableFacts(gf, f, gen);
    f.InvNonZero(b);
    assert f.Law(mult, b, f.inv(b)) && f.Law(mult, mult, mult);
    OwnNegative(gf, f, gen, mult);
  }

  lemma OwnNegative(gf: GaloisField, f: Field<bv8>, gen: bv8, x: bv8)
    requires Implements(gf, f, gen)
    ensures f.neg(x) == x
  {
    XorFacts(gf, f, gen, x, x);
    TableFacts(gf, f, gen);
    assert f.Law(x, x, x);
    f.CancelAdd(x, x, f.neg(x));
  }

  // ----- syndromes -----

  /** s[i] is the value at gen^i of the block's first bs bytes; tells whether any is not zero. */
  method BlockSyndromes(data: array<bv8>, bs: nat, npar: nat, s: array<bv8>, gf: GaloisField,
                        ghost f: Field<bv8>, ghost gen: bv8) returns (nonzero: bool)
    requires Implements(gf, f, gen)
    requires bs <= data.Length && s.Length == MAX_POLY && npar <= MAX_POLY && data != s
    modifies s
    ensures HoldsSyndromes(f, gen, s[..], data[..bs], npar)
    ensures !nonzero <==> IsCodeword(f, gen, data[..bs], npar)
  {
    hide Implements, TableTimes, TablePower, LogOf, Sum, ValueTerm, Value, Syndrome;
    TableFacts(gf, f, gen);
    ghost var block := data[..bs];
    nonzero := false;
    forall i | 0 <= i < MAX_POLY { s[i] := 0; }
    var i := 0;
    while i < npar
      invariant 0 <= i <= npar && data[..bs] == block
      invariant forall k | 0 <= k < i :: s[k] == Syndrome(f, gen, block, k)
      invariant forall k | i <= k < MAX_POLY :: s[k] == 0
      invariant nonzero <==> exists k | 0 <= k < i :: s[k] != 0
    {
      var j := 0;
      SyndromeStart(f, gen, block, i);
      while j < bs
        invariant 0 <= j <= bs && data[..bs] == block
        invariant forall k | 0 <= k < i :: s[k] == Syndrome(f, gen, block, k)
        invariant forall k | i < k < MAX_POLY :: s[k] == 0
        invariant s[i] == PartialSyndrome(f, gen, block, i, j)
      {
        var c := data[bs - j - 1];
        assert c == block[bs - j - 1];
        SyndromeStep(gf, f, gen, block, i, j);
        if c != 0 {
          s[i] := s[i] ^ TablePower(gf, c, i * j);
        }
        j := j + 1;
      }
      SyndromeEnd(f, gen, block, i);
      if s[i] != 0 {
        nonzero := true;
      }
      i := i + 1;
    }
    assert forall k: nat | k < npar :: Coef(f, s[..], k) == Syndrome(f, gen, block, k);
  }

  /** The part of a syndrome that the last j bytes of the block contribute. */
  function PartialSyndrome(f: Field<bv8>, gen: bv8, block: seq<bv8>, i: nat, j: nat): bv8 {
    Sum(f, j, ValueTerm(f, Reversed(block), Pow(f, gen, i)))
  }

  lemma SyndromeStart(f: Field<bv8>, gen: bv8, block: seq<bv8>, i: nat)
    ensures PartialSyndrome(f, gen, block, i, 0) == f.zero
  {
  }

  lemma SyndromeEnd(f: Field<bv8>, gen: bv8, block: seq<bv8>, i: nat)
    ensures PartialSyndrome(f, gen, block, i, |block|) == Syndrome(f, gen, block, i)
  {
  }

  lemma SyndromeStep(gf: GaloisField, f: Field<bv8>, gen: bv8, block: seq<bv8>, i: nat, j: nat)
    requires Implements(gf, f, gen) && j < |block|
    ensures var c := block[|block| - j - 1];
            PartialSyndrome(f, gen, block, i, j + 1)
            == if c == 0 then PartialSyndrome(f, gen, block, i, j)
               else PartialSyndrome(f, gen, block, i, j) ^ TablePower(gf, c, i * j)
  {
    var c, sum, y := block[|block| - j - 1], PartialSyndrome(f, gen, block, i, j), Pow(f, gen, i);
    ValueTermAt(f, Reversed(block), y, j);
    AddNothing(gf, f, gen, sum, Pow(f, y, j));
    if c != 0 {
      TablePowerIs(gf, f, gen, c, i * j);
      PowMul(f, gen, i, j);
      XorFacts(gf, f, gen, sum, f.mul(c, Pow(f, y, j)));
    }
  }

  // ----- error evaluator -----

  /** omega = sigma * (s shifted down by one) mod z^npar. */
  method ErrorEvaluator(omega: array<bv8>, s: array<bv8>, sigma: array<bv8>, npar: nat, gf: GaloisField,
                        ghost f: Field<bv8>, ghost gen: bv8)
    requires Implements(gf, f, gen) && npar < MAX_POLY
    requires omega.Length == s.Length == sigma.Length == MAX_POLY && omega != s && omega != sigma
    modifies omega
    ensures IsEvaluator(f, omega[..], sigma[..], s[..], npar + 1)
  {
    hide Implements, TableTimes, TablePower, LogOf, Sum, DiscTerm;
    TableFacts(gf, f, gen);
    ghost var c, s1 := sigma[..], s[1..];
    forall m | 0 <= m < MAX_POLY { omega[m] := 0; }
    forall m: nat { PartialStart(f, c, s1, m); }
    var i := 0;
    while i < npar
      invariant 0 <= i <= npar && sigma[..] == c && s[1..] == s1
      invariant forall m: nat | m < npar :: omega[m] == Partial(f, c, s1, m, i)
      invariant forall m: nat | npar <= m < MAX_POLY :: omega[m] == 0
    {
      var a := sigma[i];
      forall m: nat | m < npar { PartialStep(gf, f, gen, c, s1, m, i); }
      if a != 0 {
        var j := 0;
        while j + 1 < MAX_POLY && i + j < npar
          invariant 0 <= j < MAX_POLY && i + j <= npar && sigma[..] == c && s[1..] == s1
          invariant forall m: nat | m < npar :: omega[m] == Partial(f, c, s1, m, if i <= m < i + j then i + 1 else i)
          invariant forall m: nat | npar <= m < MAX_POLY :: omega[m] == 0
        {
          var b := s[j + 1];
          assert b == s1[j] && a == c[i];
          if b != 0 {
            omega[i + j] := omega[i + j] ^ TableTimes(gf, a, b);
          }
          j := j + 1;
        }
      }
      i := i + 1;
    }
    forall m: nat
      ensures Coef(f, omega[..], m) == if m < npar then Discrepancy(f, c, s1, m) else f.zero
    {
      if m < npar { PartialEnd(f, c, s1, m, npar); }
    }
  }

  /** The first i terms of a coefficient of the product c * s. */
  function Partial(f: Field<bv8>, c: seq<bv8>, s: seq<bv8>, m: nat, i: nat): bv8 {
    Sum(f, i, DiscTerm(f, c, s, m))
  }

  lemma PartialStart(f: Field<bv8>, c: seq<bv8>, s: seq<bv8>, m: nat)
    ensures Partial(f, c, s, m, 0) == f.zero
  {
  }

  lemma PartialStep(gf: GaloisField, f: Field<bv8>, gen: bv8, c: seq<bv8>, s: seq<bv8>, m: nat, i: nat)
    requires Implements(gf, f, gen) && i < |c| && m < |s|
    ensures Partial(f, c, s, m, i + 1)
            == if m < i || c[i] == 0 || s[m - i] == 0 then Partial(f, c, s, m, i)
               else Partial(f, c, s, m, i) ^ TableTimes(gf, c[i], s[m - i])
  {
    var d := Partial(f, c, s, m, i);
    assert DiscTerm(f, c, s, m)(i) == f.mul(c[i], Coef(f, s, m - i));
    AddNothing(gf, f, gen, d, c[i]);
    AddNothing(gf, f, gen, d, Coef(f, s, m - i));
    if i <= m && c[i] != 0 && s[m - i] != 0 {
      TableTerm(gf, f, gen, c[i], s[m - i], d);
    }
  }

  lemma PartialEnd(f: Field<bv8>, c: seq<bv8>, s: seq<bv8>, m: nat, n: nat)
    requires f.IsField() && m < n
    ensures Partial(f, c, s, m, n) == Discrepancy(f, c, s, m)
  {
    forall i | m + 1 <= i < n
      ensures DiscTerm(f, c, s, m)(i) == f.zero
    {
      f.MulZero(Coef(f, c, i));
    }
    SumTail(f, m + 1, n, DiscTerm(f, c, s, m));
  }

  // ----- correction -----

  /** Every odd coefficient moves down by one: the formal derivative in characteristic two. */
  method Derivative(sigma: array<bv8>, deriv: array<bv8>, ghost f: Field<bv8>)
    requires sigma.Length == deriv.Length == MAX_POLY && sigma != deriv && f.zero == 0
    modifies deriv
    ensures IsDerivative(f, deriv[..], sigma[..])
  {
    forall i | 0 <= i < MAX_POLY { deriv[i] := 0; }
    var i := 0;
    while i + 1 < MAX_POLY
      invariant 0 <= i <= MAX_POLY && i % 2 == 0
      invariant forall k | 0 <= k < MAX_POLY :: deriv[k] == if k < i && k % 2 == 0 then sigma[k + 1] else 0
    {
      deriv[i] := sigma[i + 1];
      i := i + 2;
    }
  }

  /** The correction the decoder applies at the position whose inverse location is y. */
  function Fix(gf: GaloisField, f: Field<bv8>, sigma: seq<bv8>, deriv: seq<bv8>, omega: seq<bv8>, y: bv8): bv8
    requires WellFormed(gf)
  {
    if Value(f, sigma, y) == 0 then TableDivide(gf, Value(f, omega, y), Value(f, deriv, y)) else 0
  }

  lemma XorCancels(a: bv8, b: bv8, c: bv8)
    ensures a ^ b == 0 <==> a == b
    ensures a ^ c == b ==> a ^ b == c
    ensures a ^ (a ^ b) == b
  {
  }

  /** An error polynomial over bytes holds exclusive ors. */
  lemma ErrorIsXor(gf: GaloisField, f: Field<bv8>, gen: bv8, a: bv8, b: bv8)
    requires Implements(gf, f, gen)
    ensures f.add(a, f.neg(b)) == a ^ b
  {
    XorFacts(gf, f, gen, b, f.neg(b));
    assert f.Law(b, b, b);
    XorCancels(b, f.neg(b), 0);
    XorFacts(gf, f, gen, a, b);
  }

  lemma InverseLocation(gf: GaloisField, f: Field<bv8>, gen: bv8, k: nat)
    requires Implements(gf, f, gen) && k <= gf.p
    ensures f.mul(Pow(f, gen, k), gf.exp[gf.p - k]) == f.one
  {
    PowAdd(f, gen, k, gf.p - k);
  }

  lemma CharacteristicTwo(gf: GaloisField, f: Field<bv8>, gen: bv8)
    requires Implements(gf, f, gen)
    ensures Char2(f)
  {
    XorFacts(gf, f, gen, f.one, f.one);
  }

  /** What the decoder makes of byte n of the block. */
  function Corrected(gf: GaloisField, f: Field<bv8>, block: seq<bv8>, sigma: seq<bv8>, deriv: seq<bv8>, omega: seq<bv8>,
                     n: nat): bv8
    requires WellFormed(gf) && n < |block| <= gf.p
  {
    block[n] ^ Fix(gf, f, sigma, deriv, omega, gf.exp[gf.p - (|block| - 1 - n)])
  }

  lemma QuotientIs(gf: GaloisField, f: Field<bv8>, gen: bv8, num: bv8, den: bv8, e: bv8)
    requires Implements(gf, f, gen) && den != 0 && e != 0 && num == f.mul(e, den)
    ensures TableDivide(gf, num, den) == e
  {
    hide TableDivide;
    if num == 0 { f.NoZeroDivisors(e, den); }
    TableDivideIs(gf, f, gen, num, den);
    var q := TableDivide(gf, num, den);
    assert f.Law(q, den, den) && f.Law(e, den, den);
    f.CancelMul(den, q, e);
  }

  /** Near a codeword, the correction at a position is the error polynomial's coefficient. */
  lemma FixIsError(gf: GaloisField, f: Field<bv8>, gen: bv8, s: seq<bv8>, block: seq<bv8>, code: seq<bv8>, npar: nat,
                   sigma: seq<bv8>, len: nat, deriv: seq<bv8>, omega: seq<bv8>, k: nat)
    requires Implements(gf, f, gen) && Correctable(f, gen, gf.p, s, block, code, npar, sigma, len, deriv, omega)
    requires k < |block| == |code| <= gf.p
    ensures Fix(gf, f, sigma, deriv, omega, gf.exp[gf.p - k]) == ErrorPoly(f, block, code)[k]
  {
    hide Implements, Correctable, TableDivide, Value, ErrorPoly;
    TableFacts(gf, f, gen);
    var y := gf.exp[gf.p - k];
    InverseLocation(gf, f, gen, k);
    PositionCorrect(f, gen, gf.p, s, block, code, npar, sigma, len, deriv, omega, k, y);
    var e := ErrorPoly(f, block, code)[k];
    if e != 0 {
      QuotientIs(gf, f, gen, Value(f, omega, y), Value(f, deriv, y), e);
    }
  }

  /** Near a codeword, every byte is corrected to the codeword's. */
  lemma CorrectedIsCode(gf: GaloisField, f: Field<bv8>, gen: bv8, s: seq<bv8>, block: seq<bv8>, code: seq<bv8>,
                        npar: nat, sigma: seq<bv8>, len: nat, deriv: seq<bv8>, omega: seq<bv8>, n: nat)
    requires Implements(gf, f, gen) && Correctable(f, gen, gf.p, s, block, code, npar, sigma, len, deriv, omega)
    requires n < |block| == |code| <= gf.p
    ensures Corrected(gf, f, block, sigma, deriv, omega, n) == code[n]
  {
    hide Implements, Correctable, Fix;
    TableFacts(gf, f, gen);
    FixIsError(gf, f, gen, s, block, code, npar, sigma, len, deriv, omega, |block| - 1 - n);
    ErrorIsXor(gf, f, gen, block[n], code[n]);
    XorCancels(block[n], code[n], 0);
  }

  datatype Status = Success | DataEcc

  /** The code of a block of GF(2^8) symbols with npar check symbols. */
  ghost predicate InCode(block: seq<bv8>, npar: nat) {
    IsCodeword(Field256(), 2, block, npar)
  }

  /** What a corrected block must be, for every codeword within half the number of check symbols. */
  ghost predicate CorrectsTo(before: seq<bv8>, after: seq<bv8>, npar: nat, status: Status)
    requires |before| == |after|
  {
    forall code: seq<bv8> | |code| == |before| && InCode(code, npar) && 2 * Distance(before, code) <= npar ::
      status == Success && after == code
  }

  /** Corrects the first bs bytes of data, of which dw are data and the rest are check bytes. */
  method CorrectBlock(data: array<bv8>, bs: nat, dw: nat) returns (status: Status)
    requires dw <= bs <= data.Length && bs <= 255 && bs - dw <= MAX_POLY
    modifies data
    ensures data[bs..] == old(data[bs..])
    ensures status == Success <==> InCode(data[..bs], bs - dw)
    ensures CorrectsTo(old(data[..bs]), data[..bs], bs - dw, status)
  {
    hide *;
    ghost var f, gen: bv8 := Field256(), 2;
    var gf := Gf256();
    Gf256Implements();
    Gf256Order();
    TableFacts(gf, f, gen);
    ghost var block, rest := data[..bs], data[bs..];
    var npar := bs - dw;
    var s := new bv8[MAX_POLY];
    var nonzero := BlockSyndromes(data, bs, npar, s, gf, f, gen);
    ghost var syn := s[..];
    assert data[..bs] == block && data[bs..] == rest;
    InCodeIs(f, gen, block, npar);
    if !nonzero {
      CleanBlock(gf, f, gen, syn, block, npar);
      return Success;
    }
    SomeParity(f, gen, block, npar);
    var sigma := new bv8[MAX_POLY];
    ghost var len := BerlekampMassey(s, npar, gf, sigma, f, gen);
    var deriv := new bv8[MAX_POLY];
    Derivative(sigma, deriv, f);
    var omega := new bv8[MAX_POLY];
    ErrorEvaluator(omega, s, sigma, npar - 1, gf, f, gen);
    ghost var sg, dv, om := sigma[..], deriv[..], omega[..];
    assert s[..] == syn && data[..bs] == block && data[bs..] == rest;
    SolvedHolds(f, syn, npar, sg, len, dv, om);
    CorrectPositions(data, bs, sigma, deriv, omega, gf, f, gen);
    ghost var after := data[..bs];
    nonzero := BlockSyndromes(data, bs, npar, s, gf, f, gen);
    assert data[..bs] == after && data[bs..] == rest;
    InCodeIs(f, gen, after, npar);
    status := if nonzero then DataEcc else Success;
    DirtyBlock(gf, f, gen, syn, block, after, npar, sg, len, dv, om, status);
  }

  lemma InCodeIs(f: Field<bv8>, gen: bv8, block: seq<bv8>, npar: nat)
    requires f == Field256() && gen == 2
    ensures InCode(block, npar) <==> IsCodeword(f, gen, block, npar)
  {
  }

  /** Finds the roots of sigma among the block's positions and corrects each of them. */
  method CorrectPositions(data: array<bv8>, bs: nat, sigma: array<bv8>, deriv: array<bv8>, omega: array<bv8>,
                          gf: GaloisField, ghost f: Field<bv8>, ghost gen: bv8)
    requires Implements(gf, f, gen) && bs <= data.Length && bs <= gf.p
    requires sigma.Length == deriv.Length == omega.Length == MAX_POLY
    requires data != sigma && data != deriv && data != omega
    modifies data
    ensures data[bs..] == old(data[bs..])
    ensures forall n | 0 <= n < bs ::
      data[n] == Corrected(gf, f, old(data[..bs]), sigma[..], deriv[..], omega[..], n)
  {
    hide Implements, Corrected, TableDivide, Value;
    TableFacts(gf, f, gen);
    ghost var block, sg, dv, om := data[..bs], sigma[..], deriv[..], omega[..];
    var i := 0;
    while i < bs
      invariant 0 <= i <= bs && data[bs..] == old(data[bs..])
      invariant sigma[..] == sg && deriv[..] == dv && omega[..] == om
      invariant forall n | 0 <= n < bs :: data[n] == if bs - i <= n then Corrected(gf, f, block, sg, dv, om, n)
        else block[n]
    {
      var xinv := gf.exp[gf.p - i];
      var value := PolyEval(sigma, xinv, gf, f, gen);
      var error: bv8 := 0;
      if value == 0 {
        var sdX := PolyEval(deriv, xinv, gf, f, gen);
        var omegaX := PolyEval(omega, xinv, gf, f, gen);
        error := TableDivide(gf, omegaX, sdX);
        data[bs - i - 1] := data[bs - i - 1] ^ error;
      }
      CorrectedIs(gf, f, block, sg, dv, om, bs - 1 - i, error);
      i := i + 1;
    }
  }

  lemma Gf256Order()
    ensures Gf256().p == 255
  {
  }

  lemma SomeParity(f: Field<bv8>, gen: bv8, block: seq<bv8>, npar: nat)
    requires !IsCodeword(f, gen, block, npar)
    ensures npar > 0
  {
  }

  lemma SolvedHolds(f: Field<bv8>, s: seq<bv8>, npar: nat, sigma: seq<bv8>, len: nat, deriv: seq<bv8>, omega: seq<bv8>)
    requires Generates(f, sigma, len, s, npar) && NoShorter(f, s, npar, len)
    requires IsDerivative(f, deriv, sigma) && IsEvaluator(f, omega, sigma, s, npar)
    requires |sigma| == |deriv| == |omega| == |s|
    ensures Solved(f, s, npar, sigma, len, deriv, omega)
  {
  }

  lemma CorrectedIs(gf: GaloisField, f: Field<bv8>, block: seq<bv8>, sigma: seq<bv8>, deriv: seq<bv8>, omega: seq<bv8>,
                    n: nat, error: bv8)
    requires WellFormed(gf) && n < |block| <= gf.p
    requires var y := gf.exp[gf.p - (|block| - 1 - n)];
      error == if Value(f, sigma, y) == 0 then TableDivide(gf, Value(f, omega, y), Value(f, deriv, y)) else 0
    ensures Corrected(gf, f, block, sigma, deriv, omega, n) == block[n] ^ error
    ensures error == 0 ==> Corrected(gf, f, block, sigma, deriv, omega, n) == block[n]
  {
    XorCancels(block[n], block[n], 0);
  }

  /** A block without syndromes is left alone, rightly. */
  lemma CleanBlock(gf: GaloisField, f: Field<bv8>, gen: bv8, s: seq<bv8>, block: seq<bv8>, npar: nat)
    requires Implements(gf, f, gen) && f == Field256() && gen == 2 && |block| <= gf.p
    requires HoldsSyndromes(f, gen, s, block, npar) && InCode(block, npar)
    ensures CorrectsTo(block, block, npar, Success)
  {
    hide Field256, WellFormed;
    forall code: seq<bv8> | |code| == |block| && InCode(code, npar) && 2 * Distance(block, code) <= npar
      ensures block == code
    {
      NoSyndromesNoErrors(f, gen, gf.p, s, block, code, npar);
    }
  }

  /** Otherwise the block ends up at the nearby codeword, if there is one. */
  lemma DirtyBlock(gf: GaloisField, f: Field<bv8>, gen: bv8, s: seq<bv8>, block: seq<bv8>, after: seq<bv8>, npar: nat,
                   sigma: seq<bv8>, len: nat, deriv: seq<bv8>, omega: seq<bv8>, status: Status)
    requires Implements(gf, f, gen) && f == Field256() && gen == 2 && |block| == |after| <= gf.p
    requires HoldsSyndromes(f, gen, s, block, npar) && Solved(f, s, npar, sigma, len, deriv, omega)
    requires forall n | 0 <= n < |block| :: after[n] == Corrected(gf, f, block, sigma, deriv, omega, n)
    requires status == Success <==> InCode(after, npar)
    ensures CorrectsTo(block, after, npar, status)
  {
    hide Implements, Field256, Corrected, Solved, HoldsSyndromes, IsCodeword;
    forall code: seq<bv8> | |code| == |block| && InCode(code, npar) && 2 * Distance(block, code) <= npar
      ensures status == Success && after == code
    {
      CharacteristicTwo(gf, f, gen);
      OrderOf(gf, f, gen);
      assert Correctable(f, gen, gf.p, s, block, code, npar, sigma, len, deriv, omega);
      forall n | 0 <= n < |block|
        ensures after[n] == code[n]
      {
        CorrectedIsCode(gf, f, gen, s, block, code, npar, sigma, len, deriv, omega, n);
      }
      assert after == code;
    }
  }

  lemma OrderOf(gf: GaloisField, f: Field<bv8>, gen: bv8)
    requires Implements(gf, f, gen)
    ensures HasOrder(f, gen, gf.p)
  {
  }
}
