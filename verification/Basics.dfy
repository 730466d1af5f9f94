/** What several models share. */
module Basics {

  datatype Option<T> = None | Some(value: T)

  type byte = x: int | 0 <= x < 256

  function Min(a: int, b: int): int {
    if a < b then a else b
  }

  lemma Product(x: real, y: real)
    requires x >= 0.0 && y >= 0.0
    ensures x * y >= 0.0
  {}

  lemma {:induction false} MulAtLeast(a: int, b: int, k: int)
    requires a > b && k > 0
    ensures a * k >= b * k + k
    decreases a - b
  {
    assert a * k == (a - 1) * k + k;
    if a - 1 > b { MulAtLeast(a - 1, b, k); }
  }
}
