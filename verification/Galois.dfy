/** Table-driven Galois fields, as struct galois_field describes them. */
module Galois {
  import opened Fields
  import opened GaloisTables
  import opened ErrorPatterns

  datatype GaloisField = GaloisField(p: nat, log: seq<bv8>, exp: seq<bv8>)

  /** The byte with value i. */
  function Byte(i: nat): (b: bv8)
    requires i < 256
    ensures b as nat == i
  {
    if i == 0 then 0 else Increment(Byte(i - 1))
  }

  function Increment(b: bv8): (r: bv8)
    requires b < 255
    ensures r as nat == b as nat + 1
  {
    b + 1
  }

  lemma ByteOfNat(b: bv8)
    ensures b as nat < 256 && Byte(b as nat) == b
  {
    SameNat(b, Byte(b as nat));
  }

  lemma SameNat(a: bv8, b: bv8)
    requires a as nat == b as nat
    ensures a == b
  {
  }

  function Gf256(): GaloisField {
    GaloisField(255, seq(256, i requires 0 <= i < 256 => Log(Byte(i))),
      seq(256, i requires 0 <= i < 256 => Exp(Byte(i))))
  }

  /** The tables cover their index ranges. */
  predicate WellFormed(gf: GaloisField) {
    && 0 < gf.p && |gf.log| == 256 && |gf.exp| == gf.p + 1
    && (forall i | 0 <= i < 256 :: gf.log[i] as nat <= gf.p)
  }

  function LogOf(gf: GaloisField, a: bv8): (l: nat)
    requires WellFormed(gf)
    ensures l <= gf.p
  {
    gf.log[a as nat] as nat
  }

  /** exp[(log[a] + n) % p], how the decoder multiplies a by the n-th power of the generator. */
  function TablePower(gf: GaloisField, a: bv8, n: nat): bv8
    requires WellFormed(gf)
  {
    gf.exp[(LogOf(gf, a) + n) % gf.p]
  }

  /** exp[(log[a] + log[b]) % p]. */
  function TableTimes(gf: GaloisField, a: bv8, b: bv8): bv8
    requires WellFormed(gf)
  {
    gf.exp[(LogOf(gf, a) + LogOf(gf, b)) % gf.p]
  }

  /** exp[(p - log[b] + log[a]) % p]. */
  function TableDivide(gf: GaloisField, a: bv8, b: bv8): bv8
    requires WellFormed(gf)
  {
    gf.exp[(gf.p - LogOf(gf, b) + LogOf(gf, a)) % gf.p]
  }

  /** The tables gf compute in the field f, whose addition is exclusive or: exp lists the
      powers of a generator of order p, and log finds every non-zero element among them. */
  ghost predicate Implements(gf: GaloisField, f: Field<bv8>, gen: bv8) {
    && WellFormed(gf)
    && f.zero == 0 && f.one == 1 && HasOrder(f, gen, gf.p)
    && (forall a, b :: IsXor(f, a, b))
    && (forall i | 0 <= i <= gf.p :: gf.exp[i] == Pow(f, gen, i))
    && (forall a: bv8 :: LogInverts(gf, a))
  }

  ghost predicate IsXor(f: Field<bv8>, a: bv8, b: bv8) { f.add(a, b) == a ^ b }

  ghost predicate LogInverts(gf: GaloisField, a: bv8)
    requires WellFormed(gf)
  {
    a != 0 ==> gf.exp[LogOf(gf, a)] == a
  }

  // ----- reading the tables -----

  lemma {:induction false} PowPeriod(gf: GaloisField, f: Field<bv8>, gen: bv8, n: nat)
    requires Implements(gf, f, gen)
    ensures gf.exp[n % gf.p] == Pow(f, gen, n)
  {
    if n >= gf.p {
      PowPeriod(gf, f, gen, n - gf.p);
      PowAdd(f, gen, gf.p, n - gf.p);
      var r := Pow(f, gen, n - gf.p);
      assert f.Law(f.one, r, r) && f.Law(r, r, r);
      ModPeriod(n, gf.p);
    } else {
      ModPeriod(n, gf.p);
    }
  }

  lemma ModPeriod(n: nat, p: nat)
    requires 0 < p
    ensures n < p ==> n % p == n
    ensures p <= n ==> n % p == (n - p) % p
  {
    if p <= n {
      var k := n / p - (n - p) / p - 1;
      PeriodProduct(n / p, (n - p) / p, p);
      assert k * p == (n - p) % p - n % p;
      Magnitude(k, p);
    }
  }

  lemma PeriodProduct(a: int, b: int, p: int)
    ensures (a - b - 1) * p == a * p - b * p - p
  {
  }

  lemma Magnitude(k: int, p: nat)
    ensures k >= 1 ==> k * p >= p
    ensures k <= -1 ==> k * p + p <= 0
  {
  }

  lemma LogPower(gf: GaloisField, f: Field<bv8>, gen: bv8, a: bv8)
    requires Implements(gf, f, gen) && a != 0
    ensures Pow(f, gen, LogOf(gf, a)) == a
  {
    assert LogInverts(gf, a);
  }

  lemma TablePowerIs(gf: GaloisField, f: Field<bv8>, gen: bv8, a: bv8, n: nat)
    requires Implements(gf, f, gen) && a != 0
    ensures TablePower(gf, a, n) == f.mul(a, Pow(f, gen, n))
  {
    LogPower(gf, f, gen, a);
    PowPeriod(gf, f, gen, LogOf(gf, a) + n);
    PowAdd(f, gen, LogOf(gf, a), n);
  }

  lemma TableTimesIs(gf: GaloisField, f: Field<bv8>, gen: bv8, a: bv8, b: bv8)
    requires Implements(gf, f, gen) && a != 0 && b != 0
    ensures TableTimes(gf, a, b) == f.mul(a, b)
  {
    TablePowerIs(gf, f, gen, a, LogOf(gf, b));
    LogPower(gf, f, gen, b);
  }

  lemma TableDivideIs(gf: GaloisField, f: Field<bv8>, gen: bv8, a: bv8, b: bv8)
    requires Implements(gf, f, gen) && a != 0 && b != 0
    ensures f.mul(TableDivide(gf, a, b), b) == a
  {
    hide LogOf;
    var la, lb := LogOf(gf, a), LogOf(gf, b);
    LogPower(gf, f, gen, a);
    LogPower(gf, f, gen, b);
    var n := gf.p - lb + la;
    PowPeriod(gf, f, gen, n);
    PowAdd(f, gen, n, lb);
    PowAdd(f, gen, gf.p, la);
    assert n + lb == gf.p + la;
    assert f.Law(f.one, a, a) && f.Law(a, a, a);
  }

  lemma XorFacts(gf: GaloisField, f: Field<bv8>, gen: bv8, a: bv8, b: bv8)
    requires Implements(gf, f, gen)
    ensures f.add(a, b) == a ^ b && f.add(a, a) == 0 && f.add(a, 0) == a
  {
    assert IsXor(f, a, b) && IsXor(f, a, a) && f.Law(a, a, a);
  }

  // ----- GF(2^8) -----

  function Xor(a: bv8, b: bv8): bv8 { a ^ b }

  function LogN(a: bv8): nat { Log(a) as nat }

  function ExpN(n: nat): bv8 { Exp(Byte(n % 255)) }

  function Times(a: bv8, b: bv8): bv8 {
    if a == 0 || b == 0 then 0 else ExpN(LogN(a) + LogN(b))
  }

  function Inverse(a: bv8): bv8 {
    if a == 0 then 0 else ExpN(255 - LogN(a))
  }

  function Field256(): Field<bv8> {
    Field(0, 1, (a, b) => Xor(a, b), a => a, (a, b) => Times(a, b), a => Inverse(a))
  }

  lemma XorLaws(a: bv8, b: bv8, c: bv8)
    ensures Xor(Xor(a, b), c) == Xor(a, Xor(b, c)) && Xor(a, b) == Xor(b, a) && Xor(a, 0) == a && Xor(a, a) == 0
  {
  }

  lemma ExpNPeriod(m: nat, n: nat)
    requires m % 255 == n % 255
    ensures ExpN(m) == ExpN(n)
  {
  }

  lemma ExpNOne()
    ensures ExpN(0) == 1 == ExpN(255) && ExpN(1) == 2
  {
    ExpOne();
    SameNat(Byte(0), 0);
    SameNat(Byte(1), 1);
    assert 0 % 255 == 255 % 255 == 0 && 1 % 255 == 1;
  }

  lemma ExpLogN(a: bv8)
    requires a != 0
    ensures 0 < LogN(a) <= 255 && ExpN(LogN(a)) == a
  {
    hide Exp, Log, Byte, Increment;
    ExpOfLog(a);
    ByteOfNat(Log(a));
    Positive(Log(a));
    if LogN(a) == 255 {
      ExpOne();
      SameNat(Log(a), 255);
      ExpNOne();
    } else {
      assert LogN(a) % 255 == LogN(a);
    }
  }

  lemma Positive(b: bv8)
    ensures b != 0 ==> 0 < b as nat
  {
  }

  /** Logarithms of powers, up to the period. */
  lemma LogExpN(n: nat)
    ensures ExpN(n) != 0 && LogN(ExpN(n)) % 255 == n % 255
  {
    hide Exp, Log;
    ExpOne();
    LogOfExp(255);
    SameNat(Byte(0), 0);
    var b := Byte(n % 255);
    if b != 0 {
      LogOfExp(b);
    }
  }

  lemma ModAdd(a: nat, b: nat, c: nat, d: nat)
    requires a % 255 == b % 255 && c % 255 == d % 255
    ensures (a + c) % 255 == (b + d) % 255
  {
    ModShift(a % 255 + c % 255, a / 255 + c / 255);
    ModShift(b % 255 + d % 255, b / 255 + d / 255);
  }

  lemma {:induction false} ModShift(r: nat, q: nat)
    ensures (r + 255 * q) % 255 == r % 255
  {
    if q > 0 {
      ModShift(r, q - 1);
      ModPeriod(r + 255 * q, 255);
    }
  }

  lemma TimesPower(m: nat, n: nat)
    ensures Times(ExpN(m), ExpN(n)) == ExpN(m + n)
  {
    hide ExpN, LogN, Byte, Increment, Exp, Log;
    LogExpN(m);
    LogExpN(n);
    ModAdd(LogN(ExpN(m)), m, LogN(ExpN(n)), n);
    ExpNPeriod(LogN(ExpN(m)) + LogN(ExpN(n)), m + n);
  }

  lemma ExpNStep(n: nat)
    ensures ExpN(n + 1) == Xtime(ExpN(n))
  {
    hide Exp, Log, Xtime;
    var i := n % 255;
    ExpSteps(Byte(i));
    if i == 254 {
      ExpOne();
      assert (n + 1) % 255 == 0;
      SameNat(Byte(255), 255);
      SameNat(Byte(0), 0);
    } else {
      assert (n + 1) % 255 == i + 1;
    }
  }

  function XtimePow(n: nat, b: bv8): bv8 {
    if n == 0 then b else Xtime(XtimePow(n - 1, b))
  }

  lemma XtimeOfXor(a: bv8, b: bv8)
    ensures Xtime(Xor(a, b)) == Xor(Xtime(a), Xtime(b)) && Xtime(0) == 0
  {
    XtimeLinear(a, b);
  }

  lemma {:induction false} XtimePowLinear(n: nat, a: bv8, b: bv8)
    ensures XtimePow(n, Xor(a, b)) == Xor(XtimePow(n, a), XtimePow(n, b))
    ensures XtimePow(n, 0) == 0
  {
    hide Xor, Xtime;
    if n > 0 {
      XtimePowLinear(n - 1, a, b);
      XtimeOfXor(XtimePow(n - 1, a), XtimePow(n - 1, b));
    }
  }

  lemma {:induction false} ExpNIsXtimePow(m: nat, n: nat)
    ensures ExpN(m + n) == XtimePow(m, ExpN(n))
  {
    hide ExpN, Xtime;
    if m > 0 {
      ExpNIsXtimePow(m - 1, n);
      ExpNStep(m - 1 + n);
    }
  }

  /** Multiplying by a power of the generator is repeated multiplication by x. */
  lemma TimesIsXtimePow(n: nat, b: bv8)
    ensures Times(ExpN(n), b) == XtimePow(n, b)
  {
    hide ExpN, LogN, Xtime, Xor;
    if b == 0 {
      XtimePowLinear(n, 0, 0);
    } else {
      ExpLogN(b);
      TimesPower(n, LogN(b));
      ExpNIsXtimePow(n, LogN(b));
    }
  }

  lemma TimesDistributes(a: bv8, b: bv8, c: bv8)
    ensures Times(a, Xor(b, c)) == Xor(Times(a, b), Times(a, c))
  {
    hide Xor, Xtime, ExpN, LogN;
    if a == 0 {
      XorLaws(0, 0, 0);
    } else {
      ExpLogN(a);
      var n := LogN(a);
      TimesIsXtimePow(n, b);
      TimesIsXtimePow(n, c);
      TimesIsXtimePow(n, Xor(b, c));
      XtimePowLinear(n, b, c);
    }
  }

  lemma TimesAssociates(a: bv8, b: bv8, c: bv8)
    ensures Times(Times(a, b), c) == Times(a, Times(b, c))
  {
    hide Byte, Increment, Exp, Log, ExpN, LogN;
    if a != 0 && b != 0 && c != 0 {
      ExpLogN(a);
      ExpLogN(b);
      ExpLogN(c);
      TimesPower(LogN(a), LogN(b));
      TimesPower(LogN(a) + LogN(b), LogN(c));
      TimesPower(LogN(b), LogN(c));
      TimesPower(LogN(a), LogN(b) + LogN(c));
      LogExpN(LogN(a) + LogN(b));
      LogExpN(LogN(b) + LogN(c));
    }
  }

  lemma TimesOne(a: bv8)
    ensures Times(a, 1) == a
    ensures a != 0 ==> LogN(a) <= 255 && Times(a, Inverse(a)) == 1
  {
    hide Byte, Increment, Exp, Log, ExpN, LogN;
    ExpNOne();
    if a != 0 {
      ExpLogN(a);
      TimesPower(LogN(a), 0);
      TimesPower(LogN(a), 255 - LogN(a));
    }
  }

  lemma Field256Law(a: bv8, b: bv8, c: bv8)
    ensures Field256().Law(a, b, c)
  {
    hide Times, Xor, Inverse;
    XorLaws(a, b, c);
    TimesDistributes(a, b, c);
    TimesAssociates(a, b, c);
    TimesOne(a);
    assert Times(a, b) == Times(b, a) by { TimesCommutes(a, b); }
  }

  lemma TimesCommutes(a: bv8, b: bv8)
    ensures Times(a, b) == Times(b, a)
  {
    hide ExpN, LogN;
  }

  lemma Field256IsField()
    ensures Field256().IsField()
  {
    hide Field256;
    forall a, b, c
      ensures Field256().Law(a, b, c)
    {
      Field256Law(a, b, c);
    }
  }

  lemma {:induction false} PowersOfTwo(n: nat)
    ensures Pow(Field256(), 2, n) == ExpN(n)
  {
    hide ExpN, Times;
    ExpNOne();
    if n > 0 {
      PowersOfTwo(n - 1);
      TimesPower(1, n - 1);
    }
  }

  lemma Gf256Log(a: bv8)
    ensures WellFormed(Gf256()) && LogInverts(Gf256(), a)
  {
    hide Exp, Log;
    ByteOfNat(a);
    if a != 0 {
      ExpOfLog(a);
      ByteOfNat(Log(a));
    }
  }

  lemma Gf256Exp(i: nat)
    requires i <= 255
    ensures Gf256().exp[i] == Pow(Field256(), 2, i)
    ensures 0 < i < 255 ==> Pow(Field256(), 2, i) != 1
  {
    hide Exp, Log, Times, Byte, Increment, Pow;
    PowersOfTwo(i);
    ExpNOne();
    if i == 255 {
      ExpOne();
      SameNat(Byte(255), 255);
    } else {
      assert i % 255 == i;
      LogExpN(i);
      LogExpN(0);
    }
  }

  /** The published tables compute in a field with 256 elements, in which 2 has order 255. */
  lemma Gf256Implements()
    ensures Implements(Gf256(), Field256(), 2)
  {
    hide Exp, Log, Times, Byte, Increment, Inverse;
    var gf, f := Gf256(), Field256();
    Field256IsField();
    Gf256Log(0);
    forall i | 0 <= i <= 255
      ensures gf.exp[i] == Pow(f, 2, i)
    {
      Gf256Exp(i);
    }
    forall a: bv8
      ensures LogInverts(gf, a)
    {
      Gf256Log(a);
    }
    forall i | 0 < i < 255
      ensures Pow(f, 2, i) != f.one
    {
      Gf256Exp(i);
    }
    PowersOfTwo(255);
    ExpNOne();
  }
}
