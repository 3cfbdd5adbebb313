/** Small definitions shared by the models. */
module Wrappers {
  datatype Option<+T> = None | Some(value: T)

  /** The value stored under a key, if there is one. */
  function Find<K, V>(m: map<K, V>, k: K): Option<V> {
    if k in m then Some(m[k]) else None
  }

  function Min(a: int, b: int): int {
    if a < b then a else b
  }

  function Max(a: int, b: int): int {
    if a < b then b else a
  }

  /** Integer division as in Go, which truncates toward zero. */
  function Quotient(a: int, b: int): int
    requires b != 0
  {
    var q := (if a < 0 then -a else a) / (if b < 0 then -b else b);
    if (a < 0) == (b < 0) then q else -q
  }

  /** It is the quotient of the absolute values with the sign of the product. */
  lemma QuotientMeans(a: int, b: int)
    requires a >= 0 && b > 0
    ensures Quotient(a, b) * b <= a < Quotient(a, b) * b + b
    ensures Quotient(-a, b) == Quotient(a, -b) == -Quotient(a, b) && Quotient(-a, -b) == Quotient(a, b)
  {
    var q := a / b;
    assert a == b * q + a % b;
    assert b * q == q * b;
    assert a == 0 ==> q == 0;
    assert Quotient(a, b) == q && Quotient(a, -b) == -q;
    assert Quotient(-a, b) == -q;
  }
}
