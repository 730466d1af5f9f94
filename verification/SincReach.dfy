/** The filter lengths of sinc_vari_process in jni/libsamplerate/src_sinc.c for one fixed ratio, and
    how far the filter then reaches. */
module SincReach {

  import opened Basics
  import opened Rounding
  import opened SincFilter

  predicate GoodRatio(r: real) {
    1.0 / 256.0 <= r <= 256.0
  }

  /** A coefficient table: it reaches over at least one and a half input samples. */
  predicate GoodTable(halfLen: nat, indexInc: nat) {
    indexInc >= 1 && 2 * halfLen >= 3 * indexInc
  }

  function FloatIncrement(indexInc: nat, r: real): real {
    if r < 1.0 then indexInc as real * r else indexInc as real
  }

  function Count(halfLen: nat, indexInc: nat, r: real): real
    requires indexInc >= 1 && r > 0.0
  {
    var count := (halfLen as real + 2.0) / indexInc as real;
    if r < 1.0 then count / r else count
  }

  /** half_filter_chan_len / channels */
  function Reach(halfLen: nat, indexInc: nat, r: real): int
    requires indexInc >= 1 && r > 0.0
  {
    Lrint(Count(halfLen, indexInc, r)) + 1
  }

  function Increment(indexInc: nat, r: real): int {
    DoubleToFp(FloatIncrement(indexInc, r))
  }

  function Start(indexInc: nat, r: real, index: real): int {
    DoubleToFp(Scaled(index, FloatIncrement(indexInc, r)))
  }

  function Scaled(index: real, f: real): real {
    index * f
  }

  // ----- the filter is centred on the position -----

  function Abs(x: real): real {
    if x < 0.0 then -x else x
  }

  lemma FpNearest(x: real)
    ensures Abs(DoubleToFp(x) as real - x * 4096.0) <= 0.5
  {
    LrintNearest(x * 4096.0);
  }

  lemma ScaledError(j: real, e: real)
    requires Abs(e) <= 0.5
    ensures Abs(j * e) <= Abs(j) / 2.0
  {
    if j < 0.0 { Product(-j, 0.5 - e); Product(-j, 0.5 + e); } else { Product(j, 0.5 - e); Product(j, 0.5 + e); }
  }

  lemma AbsNear(d: real, g: real, y: real, bound: real)
    requires g >= 0.0 && Abs(d - Scaled(g, y)) <= bound
    ensures Abs(Abs(d) - Scaled(g, Abs(y))) <= bound
  {
    if y < 0.0 { Product(g, -y); assert g * -y == -(g * y); } else { Product(g, y); }
  }

  lemma CentredAt(x: real, index: real, f: real, n: real, s: real)
    requires Abs(n - f * 4096.0) <= 0.5 && Abs(s - Scaled(index, f) * 4096.0) <= 0.5
    ensures Abs(Scaled(x, n) - s - Scaled(4096.0 * f, x - index)) <= (Abs(x) + 1.0) / 2.0
  {
    var e, xf, xi := n - f * 4096.0, x * f, index * f;
    assert x * n == xf * 4096.0 + x * e;
    assert 4096.0 * f * (x - index) == 4096.0 * (xf - xi);
    ScaledError(x, e);
  }

  lemma DistanceReal(j: int, increment: int, start: int)
    ensures Distance(j, increment, start) as real == Abs(Scaled(j as real, increment as real) - start as real)
  {
    assert (j * increment) as real == j as real * increment as real;
  }

  lemma CentredDistance(f: real, index: real, j: int, n: int, s: int)
    requires f >= 0.0 && n == DoubleToFp(f) && s == DoubleToFp(Scaled(index, f))
    ensures -(Abs(j as real) + 1.0) / 2.0 <= Distance(j, n, s) as real - 4096.0 * f * Abs(j as real - index)
            <= (Abs(j as real) + 1.0) / 2.0
  {
    hide DoubleToFp, Distance, Abs, Scaled;
    var x, y := j as real, Abs(j as real - index);
    FpNearest(f);
    FpNearest(Scaled(index, f));
    CentredAt(x, index, f, n as real, s as real);
    AbsNear(Scaled(x, n as real) - s as real, 4096.0 * f, x - index, (Abs(x) + 1.0) / 2.0);
    DistanceReal(j, n, s);
    AbsAtMost(Distance(j, n, s) as real - Scaled(4096.0 * f, y), (Abs(x) + 1.0) / 2.0);
    ScaledIs(4096.0 * f, y);
  }

  lemma AbsAtMost(x: real, bound: real)
    requires Abs(x) <= bound
    ensures -bound <= x <= bound
  {}

  lemma ScaledIs(x: real, y: real)
    ensures Scaled(x, y) == x * y
  {}

  lemma FloatIncrementNatural(indexInc: nat, r: real)
    requires r > 0.0
    ensures FloatIncrement(indexInc, r) >= 0.0
  {
    Product(indexInc as real, r);
  }

  /** Twelve fraction bits of the increment and of the start leave the point of the table at which
      frame j is weighed within (|j| + 1) / 2 steps of its distance from the position. */
  lemma FilterCentred(indexInc: nat, r: real, index: real, j: int)
    requires r > 0.0
    ensures -(Abs(j as real) + 1.0) / 2.0 <=
            Distance(j, Increment(indexInc, r), Start(indexInc, r, index)) as real -
              4096.0 * FloatIncrement(indexInc, r) * Abs(j as real - index)
            <= (Abs(j as real) + 1.0) / 2.0
  {
    hide DoubleToFp, Distance, Abs, FloatIncrement, Scaled;
    FloatIncrementNatural(indexInc, r);
    CentredDistance(FloatIncrement(indexInc, r), index, j, Increment(indexInc, r), Start(indexInc, r, index));
  }

  lemma CountTimes(halfLen: nat, indexInc: nat, r: real)
    requires GoodTable(halfLen, indexInc) && GoodRatio(r)
    ensures Count(halfLen, indexInc, r) * FloatIncrement(indexInc, r) == halfLen as real + 2.0
    ensures Count(halfLen, indexInc, r) > 0.0
  {
    var i, h := indexInc as real, halfLen as real + 2.0;
    var c := h / i;
    assert c * i == h;
    assert c > 0.0 by { Quotient(h, i, 0.0); }
    if r < 1.0 {
      var d := c / r;
      assert d * r == c;
      assert d * (i * r) == (d * r) * i;
      Quotient(c, r, 0.0);
    }
  }

  lemma Quotient(a: real, b: real, q: real)
    requires b > 0.0 && a > q * b
    ensures a / b > q
  {
    var d := a / b;
    assert d * b == a;
    if d <= q { Product(q - d, b); }
  }

  lemma QuotientAtMost(a: real, b: real, q: real)
    requires b > 0.0 && a <= q * b
    ensures a / b <= q
  {
    var d := a / b;
    assert d * b == a;
    if d > q { StrictProduct(d - q, b); }
  }

  lemma StrictProduct(x: real, y: real)
    requires x > 0.0 && y > 0.0
    ensures x * y > 0.0
  {}

  lemma IncrementBounds(halfLen: nat, indexInc: nat, r: real)
    requires GoodTable(halfLen, indexInc) && GoodRatio(r)
    ensures FloatIncrement(indexInc, r) >= 1.0 / 256.0
    ensures 0 < Increment(indexInc, r) <= IntToFp(halfLen)
    ensures Increment(indexInc, r) as real >= FloatIncrement(indexInc, r) * 4096.0 - 0.5
  {
    hide DoubleToFp;
    FloatIncrementBounds(indexInc, r);
    FpRange(FloatIncrement(indexInc, r), indexInc);
  }

  lemma FloatIncrementBounds(indexInc: nat, r: real)
    requires indexInc >= 1 && GoodRatio(r)
    ensures 1.0 / 256.0 <= FloatIncrement(indexInc, r) <= indexInc as real
  {
    var i := indexInc as real;
    if r < 1.0 {
      Product(i - 1.0, r);
      assert (i - 1.0) * r == i * r - r;
      Product(i, 1.0 - r);
      assert i * (1.0 - r) == i - i * r;
    }
  }

  lemma FpRange(f: real, i: nat)
    requires 1.0 / 256.0 <= f <= i as real
    ensures 0 < DoubleToFp(f) <= i * 4096 && DoubleToFp(f) as real >= f * 4096.0 - 0.5
  {
    LrintNearest(f * 4096.0);
    LrintMonotone(f * 4096.0, (i * 4096) as real);
    LrintWhole(i * 4096);
    hide Lrint;
  }

  lemma StartBounds(indexInc: nat, r: real, index: real)
    requires FloatIncrement(indexInc, r) >= 0.0 && 0.0 <= index < 1.0
    ensures 0 <= Start(indexInc, r, index) <= Increment(indexInc, r)
  {
    hide DoubleToFp, FloatIncrement, Scaled;
    var f := FloatIncrement(indexInc, r);
    Portion(index, f);
    FpMonotone(Scaled(index, f), f);
    FpNatural(Scaled(index, f));
  }

  lemma FpMonotone(x: real, y: real)
    requires x <= y
    ensures DoubleToFp(x) <= DoubleToFp(y)
  {
    LrintMonotone(x * 4096.0, y * 4096.0);
  }

  lemma FpNatural(x: real)
    requires x >= 0.0
    ensures DoubleToFp(x) >= 0
  {
    LrintMonotone(0.0, x * 4096.0);
    LrintWhole(0);
  }

  lemma Portion(index: real, f: real)
    requires f >= 0.0 && 0.0 <= index < 1.0
    ensures 0.0 <= Scaled(index, f) <= f
  {
    Product(index, f);
    Product(1.0 - index, f);
  }

  lemma ReachPositive(halfLen: nat, indexInc: nat, r: real)
    requires indexInc >= 1 && r > 0.0
    ensures Reach(halfLen, indexInc, r) >= 1
  {
    var c := (halfLen as real + 2.0) / indexInc as real;
    Quotient(halfLen as real + 2.0, indexInc as real, 0.0);
    Quotient(c, r, 0.0);
    LrintMonotone(0.0, Count(halfLen, indexInc, r));
    LrintWhole(0);
    hide Lrint;
  }

  lemma ReachReal(halfLen: nat, indexInc: nat, r: real)
    requires GoodTable(halfLen, indexInc) && GoodRatio(r)
    ensures Count(halfLen, indexInc, r) + 0.5 <= Reach(halfLen, indexInc, r) as real
    ensures Reach(halfLen, indexInc, r) as real <= Count(halfLen, indexInc, r) + 1.5
    ensures Reach(halfLen, indexInc, r) >= 1
  {
    CountTimes(halfLen, indexInc, r);
    LrintNearest(Count(halfLen, indexInc, r));
  }

  lemma PastTable(l: real, n: real, c: real, f: real, h: real)
    requires c * f == h + 2.0 && 0.0 < c <= 1024.0 && f > 0.0 && n >= f * 4096.0 - 0.5 && n > 0.0 && l >= c + 0.5
    ensures l * n > h * 4096.0
  {
    var a, b := l - c - 0.5, n - f * 4096.0 + 0.5;
    Product(a, n);
    Product(c + 0.5, b);
    assert l * n == a * n + (c + 0.5) * n;
    assert (c + 0.5) * n == (c + 0.5) * b + (c + 0.5) * (f * 4096.0 - 0.5);
    var cf := c * f;
    assert (c + 0.5) * (f * 4096.0 - 0.5) == cf * 4096.0 + f * 2048.0 - c * 0.5 - 0.25;
  }

  /** The increments of the filter, times the reach, go past the table. */
  lemma ReachPast(halfLen: nat, indexInc: nat, r: real)
    requires GoodTable(halfLen, indexInc) && GoodRatio(r) && Reach(halfLen, indexInc, r) < 1024
    ensures Reach(halfLen, indexInc, r) * Increment(indexInc, r) > IntToFp(halfLen)
  {
    hide Count, FloatIncrement, Increment;
    var c, f := Count(halfLen, indexInc, r), FloatIncrement(indexInc, r);
    var l, n := Reach(halfLen, indexInc, r) as real, Increment(indexInc, r) as real;
    CountTimes(halfLen, indexInc, r);
    IncrementBounds(halfLen, indexInc, r);
    ReachReal(halfLen, indexInc, r);
    hide Reach;
    PastTable(l, n, c, f, halfLen as real);
    assert (Reach(halfLen, indexInc, r) * Increment(indexInc, r)) as real == l * n;
  }

  /** No output reads further than the reach on either side. */
  lemma ReachEnough(halfLen: nat, indexInc: nat, r: real, index: real)
    requires GoodTable(halfLen, indexInc) && GoodRatio(r) && Reach(halfLen, indexInc, r) < 1024 && 0.0 <= index < 1.0
    ensures 0 <= Start(indexInc, r, index) <= Increment(indexInc, r) <= IntToFp(halfLen) && Increment(indexInc, r) > 0
    ensures -Reach(halfLen, indexInc, r) <=
            Leftmost(IntToFp(halfLen), Increment(indexInc, r), Start(indexInc, r, index))
    ensures Rightmost(IntToFp(halfLen), Increment(indexInc, r), Start(indexInc, r, index)) <=
            Reach(halfLen, indexInc, r)
  {
    hide Reach, Increment, Start, FloatIncrement;
    IncrementBounds(halfLen, indexInc, r);
    StartBounds(indexInc, r, index);
    ReachPast(halfLen, indexInc, r);
    var max, inc, start, l := IntToFp(halfLen), Increment(indexInc, r), Start(indexInc, r, index),
      Reach(halfLen, indexInc, r);
    assert (l + 1) * inc == l * inc + inc;
    DivBounds(max - start, inc, l + 1);
    DivBounds(max + start, inc, l + 1);
  }

  /** One output moves the window by no more than the reach. */
  lemma StepShort(halfLen: nat, indexInc: nat, r: real, index: real)
    requires GoodTable(halfLen, indexInc) && GoodRatio(r) && 0.0 <= index < 1.0
    ensures 0 <= (index + 1.0 / r).Floor <= Reach(halfLen, indexInc, r)
  {
    hide Reach;
    ReachReal(halfLen, indexInc, r);
    var i, h := indexInc as real, halfLen as real + 2.0;
    var inv := 1.0 / r;
    assert inv * r == 1.0;
    if r < 1.0 {
      Quotient(h, i, 1.5);
      var q := h / i;
      var c := q / r;
      assert c == q * inv by { assert (q * inv) * r == q * (inv * r); }
      assert inv > 1.0 by { Quotient(1.0, r, 1.0); }
      Product(q - 1.5, inv);
      assert (q - 1.5) * inv == q * inv - 1.5 * inv;
    } else {
      QuotientAtMost(1.0, r, 1.0);
      Quotient(1.0, r, 0.0);
    }
  }

  /** The reach is longer than one output step and the end margin together. */
  lemma ReachPastStep(halfLen: nat, indexInc: nat, r: real)
    requires GoodTable(halfLen, indexInc) && GoodRatio(r)
    ensures r > 0.0 && Reach(halfLen, indexInc, r) as real + 1.0 >= 1.0 / r + 1.5
  {
    hide Reach;
    ReachReal(halfLen, indexInc, r);
    var i, h := indexInc as real, halfLen as real + 2.0;
    var inv := 1.0 / r;
    assert inv * r == 1.0;
    Quotient(h, i, 1.5);
    if r < 1.0 {
      var q := h / i;
      assert q / r == q * inv by { assert (q * inv) * r == q * (inv * r); }
      assert inv > 1.0 by { Quotient(1.0, r, 1.0); }
      Product(q - 1.5, inv);
      assert (q - 1.5) * inv == q * inv - 1.5 * inv;
    } else {
      QuotientAtMost(1.0, r, 1.0);
    }
  }
}
