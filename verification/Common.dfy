/** What several components share: options, bytes and three facts about products. */
module Common {

  datatype Option<T> = None | Some(value: T)

  type byte = x: int | 0 <= x < 256

  lemma Distribute(a: int, b: int, c: int)
    ensures (a + b) * c == a * c + b * c
  {
  }

  lemma Monotone(a: int, b: int, c: nat)
    requires a <= b
    ensures a * c <= b * c
  {
  }

  lemma AtMostProduct(a: nat, m: nat)
    requires 0 < m
    ensures a <= a * m
  {
    Monotone(1, m, a);
    assert m * a == a * m;
  }
}
