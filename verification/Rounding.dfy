/** The C library's lrint in the default rounding mode, and fmod_one of jni/libsamplerate/common.h,
    in exact arithmetic. */
module Rounding {

  /** Nearest integer, ties to even. */
  function Lrint(x: real): int {
    var f := x.Floor;
    var d := x - f as real;
    if d < 0.5 then f
    else if d > 0.5 then f + 1
    else if f % 2 == 0 then f else f + 1
  }

  function FmodOne(x: real): real {
    var res := x - Lrint(x) as real;
    if res < 0.0 then res + 1.0 else res
  }

  /** fmod_one is the fractional part, whichever way lrint rounds, and lrint then gives the floor. */
  lemma WholeAndFraction(x: real)
    ensures FmodOne(x) == x - x.Floor as real
    ensures 0.0 <= FmodOne(x) < 1.0
    ensures Lrint(x - FmodOne(x)) == x.Floor
  {
    LrintWhole(x.Floor);
    assert x - FmodOne(x) == x.Floor as real;
  }

  lemma LrintWhole(n: int)
    ensures Lrint(n as real) == n
  {
    FloorShift(n, 0.0);
  }

  /** A whole number plus a fraction in [0, 1). */
  lemma FloorShift(n: int, d: real)
    requires 0.0 <= d < 1.0
    ensures (n as real + d).Floor == n
  {
    var f := (n as real + d).Floor;
    assert f as real <= n as real + d < f as real + 1.0;
  }

  lemma LrintNearest(x: real)
    ensures -0.5 <= x - Lrint(x) as real <= 0.5
    ensures x - x.Floor as real == 0.5 ==> Lrint(x) % 2 == 0
  {}

  lemma LrintMonotone(x: real, y: real)
    requires x <= y
    ensures Lrint(x) <= Lrint(y)
  {
    assert x.Floor <= y.Floor;
  }
}
