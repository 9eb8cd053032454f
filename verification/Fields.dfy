/** Fields as first-class values: a carrier is any type, the operations are the
    components of a record, and a record is a field when the axioms hold of
    every triple of elements. */
module Fields {

  datatype Field<!T(!new,==)> = Field(
    zero: T,
    one: T,
    add: (T, T) -> T,
    neg: T -> T,
    mul: (T, T) -> T,
    inv: T -> T)
  {
    /** The field axioms, stated of three elements.  Proofs name the triples
        they need; the quantifier in IsField fires on nothing else. */
    ghost predicate Law(x: T, y: T, z: T) {
      && add(add(x, y), z) == add(x, add(y, z))
      && add(x, y) == add(y, x)
      && add(x, zero) == x
      && add(x, neg(x)) == zero
      && mul(mul(x, y), z) == mul(x, mul(y, z))
      && mul(x, y) == mul(y, x)
      && mul(x, one) == x
      && mul(x, add(y, z)) == add(mul(x, y), mul(x, z))
      && (x != zero ==> mul(x, inv(x)) == one)
      && zero != one
    }

    ghost predicate IsField() {
      forall x, y, z :: Law(x, y, z)
    }

    lemma CancelAdd(x: T, y: T, z: T)
      requires IsField() && add(x, y) == add(x, z)
      ensures y == z
    {
      assert Law(neg(x), x, y) && Law(neg(x), x, z) && Law(x, neg(x), zero);
      assert Law(y, zero, zero) && Law(zero, y, y) && Law(z, zero, zero) && Law(zero, z, z);
    }

    lemma MulZero(x: T)
      requires IsField()
      ensures mul(x, zero) == zero == mul(zero, x)
    {
      assert Law(zero, zero, zero) && Law(x, zero, zero) && Law(mul(x, zero), zero, zero);
      CancelAdd(mul(x, zero), mul(x, zero), zero);
    }

    lemma NoZeroDivisors(x: T, y: T)
      requires IsField() && mul(x, y) == zero
      ensures x == zero || y == zero
    {
      if x != zero {
        assert Law(inv(x), x, y) && Law(x, inv(x), y) && Law(y, one, one) && Law(one, y, y);
        MulZero(inv(x));
      }
    }

    lemma InvNonZero(x: T)
      requires IsField() && x != zero
      ensures inv(x) != zero && mul(inv(x), x) == one == mul(x, inv(x))
    {
      assert Law(x, inv(x), x);
      MulZero(x);
    }

    lemma CancelMul(x: T, y: T, z: T)
      requires IsField() && x != zero && mul(x, y) == mul(x, z)
      ensures y == z
    {
      InvNonZero(x);
      assert Law(inv(x), x, y) && Law(inv(x), x, z);
      assert Law(y, one, y) && Law(z, one, z) && Law(one, y, y) && Law(one, z, z);
    }

    lemma AddInterchange(a: T, b: T, c: T, d: T)
      requires IsField()
      ensures add(add(a, b), add(c, d)) == add(add(a, c), add(b, d))
    {
      assert Law(a, b, add(c, d)) && Law(b, c, d) && Law(c, b, d) && Law(b, c, c) && Law(a, c, add(b, d));
    }

    lemma MulAddRight(x: T, m: T, y: T, z: T)
      requires IsField()
      ensures mul(add(x, mul(m, y)), z) == add(mul(x, z), mul(m, mul(y, z)))
    {
      assert Law(z, x, mul(m, y)) && Law(add(x, mul(m, y)), z, z) && Law(x, z, z) && Law(mul(m, y), z, z)
             && Law(m, y, z);
    }

    lemma MulNeg(x: T, y: T)
      requires IsField()
      ensures mul(x, neg(y)) == neg(mul(x, y))
    {
      assert Law(x, y, neg(y)) && Law(y, y, y) && Law(mul(x, y), mul(x, y), mul(x, y));
      MulZero(x);
      CancelAdd(mul(x, y), mul(x, neg(y)), neg(mul(x, y)));
    }

    /** x - y is zero only when x equals y. */
    lemma SubZero(x: T, y: T)
      requires IsField()
      ensures add(x, neg(y)) == zero <==> x == y
    {
      assert Law(y, neg(y), y) && Law(x, neg(y), y) && Law(neg(y), x, x);
      if add(x, neg(y)) == zero {
        CancelAdd(neg(y), x, y);
        assert Law(neg(y), y, y);
      }
    }
  }

  /** x raised to the power n. */
  function Pow<T(!new)>(f: Field<T>, x: T, n: nat): T {
    if n == 0 then f.one else f.mul(x, Pow(f, x, n - 1))
  }

  lemma {:induction false} PowAdd<T(!new)>(f: Field<T>, x: T, m: nat, n: nat)
    requires f.IsField()
    ensures Pow(f, x, m + n) == f.mul(Pow(f, x, m), Pow(f, x, n))
    decreases m
  {
    if m == 0 {
      assert f.Law(f.one, Pow(f, x, n), f.zero) && f.Law(Pow(f, x, n), f.one, f.zero);
    } else {
      PowAdd(f, x, m - 1, n);
      assert f.Law(x, Pow(f, x, m - 1), Pow(f, x, n));
    }
  }

  lemma {:induction false} PowNonZero<T(!new)>(f: Field<T>, x: T, n: nat)
    requires f.IsField() && x != f.zero
    ensures Pow(f, x, n) != f.zero
  {
    if n == 0 {
      assert f.Law(x, x, x);
    } else {
      PowNonZero(f, x, n - 1);
      if f.mul(x, Pow(f, x, n - 1)) == f.zero {
        f.NoZeroDivisors(x, Pow(f, x, n - 1));
      }
    }
  }

  lemma {:induction false} PowMul<T(!new)>(f: Field<T>, x: T, m: nat, n: nat)
    requires f.IsField()
    ensures Pow(f, x, m * n) == Pow(f, Pow(f, x, m), n)
    decreases n
  {
    if n > 0 {
      PowMul(f, x, m, n - 1);
      PowAdd(f, x, m, m * (n - 1));
      assert m * n == m + m * (n - 1);
    } else {
      assert m * n == 0;
    }
  }

  lemma PowExchange<T(!new)>(f: Field<T>, x: T, m: nat, n: nat)
    requires f.IsField()
    ensures Pow(f, Pow(f, x, m), n) == Pow(f, Pow(f, x, n), m)
  {
    PowMul(f, x, m, n);
    PowMul(f, x, n, m);
    assert m * n == n * m;
  }

  lemma {:induction false} PowOfZero<T(!new)>(f: Field<T>, n: nat)
    requires f.IsField()
    ensures n > 0 ==> Pow(f, f.zero, n) == f.zero
  {
    if n > 0 { f.MulZero(Pow(f, f.zero, n - 1)); }
  }
}
