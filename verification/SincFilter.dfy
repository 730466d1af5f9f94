/** The fixed-point filter walk of calc_output in jni/libsamplerate/src_sinc.c, over exact reals. */
module SincFilter {

  import opened Rounding

  type Coeffs = nat -> real

  // ----- fixed point, twelve fraction bits -----

  function DoubleToFp(x: real): int {
    Lrint(x * 4096.0)
  }

  function IntToFp(x: nat): nat {
    x * 4096
  }

  function FpToInt(x: nat): nat {
    x / 4096
  }

  function FpToDouble(x: nat): real {
    (x % 4096) as real / 4096.0
  }

  /** The coefficient table interpolated at x / 4096. */
  function Coeff(coeffs: Coeffs, x: nat): real {
    if x % 4096 == 0 then coeffs(x / 4096)
    else
      var w := (x % 4096) as real / 4096.0;
      (1.0 - w) * coeffs(x / 4096) + w * coeffs(x / 4096 + 1)
  }

  lemma StepQuotient(k: nat, n: nat)
    requires n < 4096
    ensures (4096 * k + n) / 4096 == k && (4096 * k + n) % 4096 == n
  {}

  /** On the 4096 steps from entry k of the table to entry k + 1 the coefficient is a straight line
      from the one to the other, both ends included. */
  lemma CoeffBetween(coeffs: Coeffs, k: nat, n: nat)
    requires n <= 4096
    ensures Coeff(coeffs, 4096 * k + n) == coeffs(k) + n as real / 4096.0 * (coeffs(k + 1) - coeffs(k))
  {
    if n == 4096 {
      StepQuotient(k + 1, 0);
      assert 4096 * k + n == 4096 * (k + 1) + 0;
    } else {
      StepQuotient(k, n);
    }
  }

  // ----- the direct sum -----

  function Distance(j: int, increment: int, start: int): nat {
    var d := j * increment - start;
    if d < 0 then -d else d
  }

  /** What the frame at offset j from the centre contributes. */
  function Term(coeffs: Coeffs, max: nat, increment: int, start: int, tap: int -> real, j: int): real {
    if Distance(j, increment, start) <= max then Coeff(coeffs, Distance(j, increment, start)) * tap(j) else 0.0
  }

  /** The contributions of the frames at offsets lo to hi - 1. */
  function FilterSum(coeffs: Coeffs, max: nat, increment: int, start: int, tap: int -> real, lo: int, hi: int): real
    decreases hi - lo
  {
    if hi <= lo then 0.0
    else FilterSum(coeffs, max, increment, start, tap, lo, hi - 1) + Term(coeffs, max, increment, start, tap, hi - 1)
  }

  lemma {:induction false} SumSplit(coeffs: Coeffs, max: nat, increment: int, start: int, tap: int -> real, lo: int,
                                    mid: int, hi: int)
    requires lo <= mid <= hi
    ensures FilterSum(coeffs, max, increment, start, tap, lo, hi) ==
            FilterSum(coeffs, max, increment, start, tap, lo, mid) +
              FilterSum(coeffs, max, increment, start, tap, mid, hi)
    decreases hi - mid
  {
    hide Term;
    if mid < hi { SumSplit(coeffs, max, increment, start, tap, lo, mid, hi - 1); }
  }

  lemma SumFront(coeffs: Coeffs, max: nat, increment: int, start: int, tap: int -> real, lo: int, hi: int)
    requires lo < hi
    ensures FilterSum(coeffs, max, increment, start, tap, lo, hi) ==
            Term(coeffs, max, increment, start, tap, lo) + FilterSum(coeffs, max, increment, start, tap, lo + 1, hi)
  {
    hide Term;
    SumSplit(coeffs, max, increment, start, tap, lo, lo + 1, hi);
    assert FilterSum(coeffs, max, increment, start, tap, lo, lo) == 0.0;
  }

  /** The offsets of the outermost frames that the filter reaches. */
  function Leftmost(max: nat, increment: int, start: int): int
    requires 0 <= start <= max && increment > 0
  {
    -((max - start) / increment)
  }

  function Rightmost(max: nat, increment: int, start: int): int
    requires 0 <= start && increment > 0
  {
    (max + start) / increment
  }

  lemma MulOrder(a: int, b: int, m: int)
    requires a <= b && m > 0
    ensures a * m <= b * m
  {
    assert (b - a) * m >= 0;
  }

  lemma DivBounds(a: nat, b: int, k: int)
    requires b > 0
    ensures k <= a / b <==> k * b <= a
  {
    var q := a / b;
    assert q * b <= a < q * b + b;
    if k <= q {
      MulOrder(k, q, b);
    } else {
      MulOrder(q + 1, k, b);
      assert (q + 1) * b == q * b + b;
    }
  }

  lemma ReachSigns(max: nat, increment: int, start: int)
    requires 0 <= start <= max && increment > 0
    ensures Leftmost(max, increment, start) <= 0 <= Rightmost(max, increment, start)
  {
    DivBounds(max - start, increment, 0);
    DivBounds(max + start, increment, 0);
  }

  /** The filter reaches exactly the frames from the leftmost to the rightmost. */
  lemma ReachExact(max: nat, increment: int, start: int, j: int)
    requires 0 <= start <= max && increment > 0
    ensures Distance(j, increment, start) <= max
            <==> Leftmost(max, increment, start) <= j <= Rightmost(max, increment, start)
  {
    DivBounds(max - start, increment, -j);
    DivBounds(max + start, increment, j);
    assert -j * increment == -(j * increment);
  }

  lemma {:induction false} SumOutside(coeffs: Coeffs, max: nat, increment: int, start: int, tap: int -> real, lo: int,
                                      hi: int)
    requires 0 <= start <= max && increment > 0
    requires hi <= Leftmost(max, increment, start) || lo > Rightmost(max, increment, start)
    ensures FilterSum(coeffs, max, increment, start, tap, lo, hi) == 0.0
    decreases hi - lo
  {
    hide Leftmost, Rightmost, Distance;
    if lo < hi {
      ReachExact(max, increment, start, hi - 1);
      SumOutside(coeffs, max, increment, start, tap, lo, hi - 1);
    }
  }

  /** Any range that covers the reach gives the same sum: every frame in reach counts once. */
  lemma SumCovers(coeffs: Coeffs, max: nat, increment: int, start: int, tap: int -> real, lo: int, hi: int)
    requires 0 <= start <= max && increment > 0
    requires lo <= Leftmost(max, increment, start) && Rightmost(max, increment, start) < hi
    ensures FilterSum(coeffs, max, increment, start, tap, lo, hi) ==
            FilterSum(coeffs, max, increment, start, tap, Leftmost(max, increment, start),
                      Rightmost(max, increment, start) + 1)
  {
    var l, r := Leftmost(max, increment, start), Rightmost(max, increment, start);
    hide Leftmost, Rightmost, FilterSum;
    ReachSigns(max, increment, start);
    SumSplit(coeffs, max, increment, start, tap, lo, l, hi);
    SumSplit(coeffs, max, increment, start, tap, l, r + 1, hi);
    SumOutside(coeffs, max, increment, start, tap, lo, l);
    SumOutside(coeffs, max, increment, start, tap, r + 1, hi);
  }

  lemma {:induction false} SumCongruent(coeffs: Coeffs, max: nat, increment: int, start: int, tap: int -> real,
                                        tap': int -> real, lo: int, hi: int)
    requires forall j :: lo <= j < hi ==> tap(j) == tap'(j)
    ensures FilterSum(coeffs, max, increment, start, tap, lo, hi)
         == FilterSum(coeffs, max, increment, start, tap', lo, hi)
    decreases hi - lo
  {
    if lo < hi { SumCongruent(coeffs, max, increment, start, tap, tap', lo, hi - 1); }
  }

  // ----- the walk -----

  /** Sample ch of the frame at offset j from the current one. */
  function Tap(buffer: seq<real>, current: int, channels: int, ch: int): int -> real {
    (j: int) => if 0 <= current + channels * j + ch < |buffer| then buffer[current + channels * j + ch] else 0.0
  }

  method Interpolate(coeffs: Coeffs, filterIndex: nat) returns (icoeff: real)
    ensures icoeff == Coeff(coeffs, filterIndex)
  {
    var fraction := FpToDouble(filterIndex);
    var indx := FpToInt(filterIndex);
    icoeff := coeffs(indx) + fraction * (coeffs(indx + 1) - coeffs(indx));
  }

  /** calc_output: the left pass walks from the leftmost frame in, the right pass from the rightmost. */
  method CalcOutput(coeffs: Coeffs, halfLen: nat, buffer: array<real>, current: nat, channels: nat, increment: int,
                    start: int, ch: nat)
    returns (r: real)
    requires 0 <= start <= increment <= IntToFp(halfLen) && increment > 0 && ch < channels
    requires InBounds(buffer.Length, current, channels, ch, Leftmost(IntToFp(halfLen), increment, start))
    requires InBounds(buffer.Length, current, channels, ch, Rightmost(IntToFp(halfLen), increment, start))
    ensures forall lo, hi ::
              (lo <= Leftmost(IntToFp(halfLen), increment, start) && Rightmost(IntToFp(halfLen), increment, start) < hi)
              ==>
              r == FilterSum(coeffs, IntToFp(halfLen), increment, start, Tap(buffer[..], current, channels, ch), lo, hi)
  {
    hide Leftmost, Rightmost, FilterSum, Tap, InBounds;
    var max := IntToFp(halfLen);
    var left := LeftPass(coeffs, max, buffer, current, channels, increment, start, ch);
    var right := RightPass(coeffs, max, buffer, current, channels, increment, start, ch);
    r := left + right;
    ghost var tap := Tap(buffer[..], current, channels, ch);
    ghost var l, h := Leftmost(max, increment, start), Rightmost(max, increment, start);
    Middle(max, increment, start);
    SumSplit(coeffs, max, increment, start, tap, l, Turn(increment, start), h + 1);
    forall lo, hi | lo <= l && h < hi
      ensures r == FilterSum(coeffs, max, increment, start, tap, lo, hi)
    {
      SumCovers(coeffs, max, increment, start, tap, lo, hi);
    }
  }

  predicate InBounds(length: nat, current: nat, channels: nat, ch: nat, j: int) {
    0 <= current + channels * j + ch < length
  }

  /** The first offset that the left pass leaves to the right pass. */
  function Turn(increment: int, start: int): int {
    if start < increment then 1 else 2
  }

  lemma Middle(max: nat, increment: int, start: int)
    requires 0 <= start <= increment <= max && increment > 0
    ensures Leftmost(max, increment, start) <= 0 && Turn(increment, start) <= Rightmost(max, increment, start)
  {
    ReachSigns(max, increment, start);
    DivBounds(max + start, increment, Turn(increment, start));
  }

  /** Between two positions inside the buffer all positions are inside. */
  lemma InsideBounds(length: nat, current: nat, channels: nat, ch: nat, lo: int, j: int, hi: int)
    requires channels > 0 && lo <= j <= hi && InBounds(length, current, channels, ch, lo)
    requires InBounds(length, current, channels, ch, hi)
    ensures InBounds(length, current, channels, ch, j)
  {
    MulOrder(lo, j, channels);
    MulOrder(j, hi, channels);
    assert channels * lo == lo * channels && channels * j == j * channels && channels * hi == hi * channels;
  }

  method LeftPass(coeffs: Coeffs, max: nat, buffer: array<real>, current: nat, channels: nat, increment: int,
                  start: int, ch: nat)
    returns (left: real)
    requires 0 <= start <= increment <= max && increment > 0 && ch < channels
    requires InBounds(buffer.Length, current, channels, ch, Leftmost(max, increment, start))
    requires InBounds(buffer.Length, current, channels, ch, Rightmost(max, increment, start))
    ensures left == FilterSum(coeffs, max, increment, start, Tap(buffer[..], current, channels, ch),
                              Leftmost(max, increment, start), Turn(increment, start))
  {
    hide FilterSum, Tap, Term, Coeff;
    ghost var tap, lo, hi := Tap(buffer[..], current, channels, ch), Leftmost(max, increment, start),
      Rightmost(max, increment, start);
    var filterIndex := start;
    var coeffCount := (max - filterIndex) / increment;
    filterIndex := filterIndex + coeffCount * increment;
    var dataIndex := current - channels * coeffCount + ch;
    Middle(max, increment, start);
    left := 0.0;
    ghost var j := lo;
    hide Leftmost, Rightmost;
    assert filterIndex == start - j * increment;
    SumEmpty(coeffs, max, increment, start, tap, lo);
    while true
      invariant lo <= j < Turn(increment, start)
      invariant filterIndex == start - j * increment && filterIndex >= 0
      invariant dataIndex == current + channels * j + ch
      invariant left == FilterSum(coeffs, max, increment, start, tap, lo, j)
      decreases filterIndex
    {
      InsideBounds(buffer.Length, current, channels, ch, lo, j, hi);
      ReachExact(max, increment, start, j);
      var icoeff := Interpolate(coeffs, filterIndex);
      left := left + icoeff * buffer[dataIndex];
      TermAt(coeffs, max, increment, start, buffer[..], current, channels, ch, j, filterIndex);
      SumNext(coeffs, max, increment, start, tap, lo, j);
      filterIndex := filterIndex - increment;
      dataIndex := dataIndex + channels;
      assert (j + 1) * increment == j * increment + increment && channels * (j + 1) == channels * j + channels;
      j := j + 1;
      if !(filterIndex >= 0) {
        break;
      }
      LeftGoes(increment, start, j);
    }
    LeftStops(increment, start, j);
  }

  lemma LeftGoes(increment: int, start: int, j: int)
    requires 0 <= start <= increment && increment > 0 && start - j * increment >= 0
    ensures j < Turn(increment, start)
  {
    if j >= Turn(increment, start) { MulOrder(Turn(increment, start), j, increment); }
  }

  lemma LeftStops(increment: int, start: int, j: int)
    requires 0 <= start <= increment && increment > 0 && start - j * increment < 0 && j <= Turn(increment, start)
    ensures j == Turn(increment, start)
  {
    if j < Turn(increment, start) { MulOrder(j, Turn(increment, start) - 1, increment); }
  }

  lemma SumEmpty(coeffs: Coeffs, max: nat, increment: int, start: int, tap: int -> real, lo: int)
    ensures FilterSum(coeffs, max, increment, start, tap, lo, lo) == 0.0
  {}

  lemma SumNext(coeffs: Coeffs, max: nat, increment: int, start: int, tap: int -> real, lo: int, j: int)
    requires lo <= j
    ensures FilterSum(coeffs, max, increment, start, tap, lo, j + 1) ==
            FilterSum(coeffs, max, increment, start, tap, lo, j) + Term(coeffs, max, increment, start, tap, j)
  {
    hide Term;
  }

  lemma TermAt(coeffs: Coeffs, max: nat, increment: int, start: int, buffer: seq<real>, current: nat, channels: nat,
               ch: nat, j: int, index: nat)
    requires index == Distance(j, increment, start) <= max && InBounds(|buffer|, current, channels, ch, j)
    ensures 0 <= current + channels * j + ch < |buffer|
    ensures Term(coeffs, max, increment, start, Tap(buffer, current, channels, ch), j) ==
            Coeff(coeffs, index) * buffer[current + channels * j + ch]
  {
    hide Coeff;
  }

  method RightPass(coeffs: Coeffs, max: nat, buffer: array<real>, current: nat, channels: nat, increment: int,
                   start: int, ch: nat)
    returns (right: real)
    requires 0 <= start <= increment <= max && increment > 0 && ch < channels
    requires InBounds(buffer.Length, current, channels, ch, Leftmost(max, increment, start))
    requires InBounds(buffer.Length, current, channels, ch, Rightmost(max, increment, start))
    ensures right == FilterSum(coeffs, max, increment, start, Tap(buffer[..], current, channels, ch),
                               Turn(increment, start), Rightmost(max, increment, start) + 1)
  {
    hide FilterSum, Tap, Term, Coeff, Leftmost;
    ghost var tap, lo, hi := Tap(buffer[..], current, channels, ch), Leftmost(max, increment, start),
      Rightmost(max, increment, start);
    var filterIndex := increment - start;
    var coeffCount := (max - filterIndex) / increment;
    DivShift(max + start, increment);
    filterIndex := filterIndex + coeffCount * increment;
    var dataIndex := current + channels * (1 + coeffCount) + ch;
    Middle(max, increment, start);
    right := 0.0;
    ghost var j := hi;
    assert coeffCount == j - 1;
    hide Rightmost;
    assert filterIndex == j * increment - start;
    SumEmpty(coeffs, max, increment, start, tap, hi + 1);
    RightStarts(increment, start, j);
    while true
      invariant Turn(increment, start) <= j <= hi
      invariant filterIndex == j * increment - start && filterIndex > 0
      invariant dataIndex == current + channels * j + ch
      invariant right == FilterSum(coeffs, max, increment, start, tap, j + 1, hi + 1)
      decreases filterIndex
    {
      InsideBounds(buffer.Length, current, channels, ch, lo, j, hi);
      ReachExact(max, increment, start, j);
      var icoeff := Interpolate(coeffs, filterIndex);
      right := right + icoeff * buffer[dataIndex];
      TermAt(coeffs, max, increment, start, buffer[..], current, channels, ch, j, filterIndex);
      SumFront(coeffs, max, increment, start, tap, j, hi + 1);
      filterIndex := filterIndex - increment;
      dataIndex := dataIndex - channels;
      assert (j - 1) * increment == j * increment - increment && channels * (j - 1) == channels * j - channels;
      j := j - 1;
      if !(filterIndex > 0) {
        break;
      }
      RightGoes(increment, start, j);
    }
    RightStops(increment, start, j);
  }

  lemma DivShift(a: int, b: int)
    requires b > 0 && a >= b
    ensures (a - b) / b == a / b - 1
  {
    var q := a / b;
    DivBounds(a - b, b, q - 1);
    DivBounds(a - b, b, q);
    DivBounds(a, b, q);
    DivBounds(a, b, q + 1);
    assert (q - 1) * b == q * b - b && (q + 1) * b == q * b + b;
  }

  lemma RightStarts(increment: int, start: int, j: int)
    requires 0 <= start <= increment && increment > 0 && j >= Turn(increment, start)
    ensures j * increment - start > 0
  {
    MulOrder(Turn(increment, start), j, increment);
  }

  lemma RightGoes(increment: int, start: int, j: int)
    requires 0 <= start <= increment && increment > 0 && j * increment - start > 0
    ensures j >= Turn(increment, start)
  {
    if j < Turn(increment, start) { MulOrder(j, Turn(increment, start) - 1, increment); }
  }

  lemma RightStops(increment: int, start: int, j: int)
    requires 0 <= start <= increment && increment > 0 && j * increment - start <= 0 && j + 1 >= Turn(increment, start)
    ensures j + 1 == Turn(increment, start)
  {
    if j >= Turn(increment, start) { RightStarts(increment, start, j); }
  }
}
