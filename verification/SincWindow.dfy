/** The sliding window of jni/libsamplerate/src_sinc.c: prepare_data, the window's place in the
    stream, and what one call of sinc_vari_process puts out at a fixed ratio. */
module SincWindow {

  import opened Basics
  import opened Rounding
  import opened SincFilter
  import opened SincReach

  function Zeros(n: nat): (z: seq<real>)
    ensures |z| == n
  {
    seq(n, i => 0.0)
  }

  /** hf zeros, all samples taken so far and, at the end of input, hf + 5 zeros. */
  function Padded(loaded: seq<real>, ended: bool, hf: nat): seq<real> {
    Zeros(hf) + loaded + if ended then Zeros(hf + 5) else []
  }

  /** buffer[current - hf..end) is the rest of z from pos on. */
  ghost predicate Window(buffer: seq<real>, current: int, end: int, hf: nat, z: seq<real>, pos: nat) {
    && hf <= current <= end <= |buffer| && pos <= |z|
    && |z| - pos == hf + end - current
    && buffer[current - hf..end] == z[pos..]
  }

  lemma WindowInside(buffer: seq<real>, current: int, end: int, hf: nat, z: seq<real>, pos: nat)
    requires Window(buffer, current, end, hf, z, pos)
    ensures hf <= current <= end <= |buffer| && |z| - pos == hf + end - current
  {}

  lemma WindowMoved(b: seq<real>, b': seq<real>, current: int, end: int, hf: nat, z: seq<real>, pos: nat)
    requires Window(b, current, end, hf, z, pos) && |b'| == |b|
    requires forall i :: 0 <= i < hf + end - current ==> b'[i] == b[current - hf + i]
    ensures Window(b', hf, hf + end - current, hf, z, pos)
  {
    assert b'[0..hf + end - current] == b[current - hf..end];
  }

  lemma WindowAppended(b: seq<real>, b': seq<real>, current: int, end: int, hf: nat, z: seq<real>, pos: nat,
                       xs: seq<real>)
    requires Window(b, current, end, hf, z, pos) && |b'| == |b| && end + |xs| <= |b|
    requires b'[..end] == b[..end] && b'[end..end + |xs|] == xs
    ensures Window(b', current, end + |xs|, hf, z + xs, pos)
  {
    assert b'[current - hf..end + |xs|] == b[current - hf..end] + xs;
    assert (z + xs)[pos..] == z[pos..] + xs;
  }

  lemma WindowSlides(b: seq<real>, current: int, end: int, hf: nat, z: seq<real>, pos: nat, step: nat)
    requires Window(b, current, end, hf, z, pos) && current + step <= end
    ensures Window(b, current + step, end, hf, z, pos + step)
  {
    assert b[current - hf..end][step..] == b[current + step - hf..end];
    assert z[pos..][step..] == z[pos + step..];
  }

  lemma PaddedAppend(loaded: seq<real>, hf: nat, xs: seq<real>)
    ensures Padded(loaded + xs, false, hf) == Padded(loaded, false, hf) + xs
    ensures Padded(loaded, true, hf) == Padded(loaded, false, hf) + Zeros(hf + 5)
  {}

  /** The start of the window: no input yet. */
  lemma WindowStarts(b: seq<real>, hf: nat)
    requires hf <= |b| && forall i :: 0 <= i < hf ==> b[i] == 0.0
    ensures Window(b, hf, hf, hf, Padded([], false, hf), 0)
  {
    assert b[0..hf] == Zeros(hf) == Padded([], false, hf)[0..];
  }

  // ----- what an output is -----

  datatype Filter = Filter(coeffs: Coeffs, halfLen: nat, indexInc: nat, channels: nat)

  /** Sample c of the frame at offset j from `centre`, zero outside what was taken. */
  function StreamTap(loaded: seq<real>, channels: nat, centre: int, c: nat): int -> real {
    (j: int) => if 0 <= (centre + j) * channels + c < |loaded| then loaded[(centre + j) * channels + c] else 0.0
  }

  /** The filter applied to the stream at position p: the sum over every frame that it reaches. */
  function Filtered(f: Filter, loaded: seq<real>, r: real, p: real, c: nat): real
    requires f.indexInc >= 1 && r > 0.0
  {
    var reach := Reach(f.halfLen, f.indexInc, r);
    (FloatIncrement(f.indexInc, r) / f.indexInc as real) *
    FilterSum(f.coeffs, IntToFp(f.halfLen), Increment(f.indexInc, r), Start(f.indexInc, r, p - p.Floor as real),
              StreamTap(loaded, f.channels, p.Floor, c), -reach, reach + 1)
  }

  // ----- an output without the fixed-point walk -----

  function Total(s: seq<real>): real {
    if s == [] then 0.0 else Total(s[..|s| - 1]) + s[|s| - 1]
  }

  /** d is the distance from p, in table steps, of the frame j away from the one below p, but for the
      rounding of increment and start. */
  ghost predicate Placed(f: Filter, r: real, p: real, j: int, d: nat) {
    var error := d as real - 4096.0 * FloatIncrement(f.indexInc, r) * Abs(j as real - (p - p.Floor as real));
    -(Abs(j as real) + 1.0) / 2.0 <= error <= (Abs(j as real) + 1.0) / 2.0
  }

  /** t is that frame's sample of channel c times the table at d, nothing past the end of the table. */
  ghost predicate Weighed(f: Filter, loaded: seq<real>, p: real, c: nat, j: int, d: nat, t: real) {
    var at := (p.Floor + j) * f.channels + c;
    t == if d <= 4096 * f.halfLen then Coeff(f.coeffs, d) * (if 0 <= at < |loaded| then loaded[at] else 0.0) else 0.0
  }

  lemma PlacedTerm(f: Filter, r: real, p: real, j: int)
    requires r > 0.0
    ensures Placed(f, r, p, j, Distance(j, Increment(f.indexInc, r), Start(f.indexInc, r, p - p.Floor as real)))
  {
    hide Increment, Start, Distance, FloatIncrement, Abs;
    FilterCentred(f.indexInc, r, p - p.Floor as real, j);
  }

  lemma WeighedTerm(f: Filter, loaded: seq<real>, p: real, c: nat, j: int, increment: int, start: int)
    ensures Weighed(f, loaded, p, c, j, Distance(j, increment, start),
                    Term(f.coeffs, IntToFp(f.halfLen), increment, start, StreamTap(loaded, f.channels, p.Floor, c), j))
  {
    hide Distance, Coeff;
  }

  /** The gain of the filter is the ratio, but never more than 1. */
  lemma Gain(indexInc: nat, r: real)
    requires indexInc >= 1 && r > 0.0
    ensures FloatIncrement(indexInc, r) / indexInc as real == if r < 1.0 then r else 1.0
  {
    var i := indexInc as real;
    if r < 1.0 { assert i * r / i == r; }
  }

  lemma {:induction false} SumIsTotal(coeffs: Coeffs, max: nat, increment: int, start: int, tap: int -> real, lo: int,
                                      terms: seq<real>)
    requires forall i :: 0 <= i < |terms| ==> terms[i] == Term(coeffs, max, increment, start, tap, lo + i)
    ensures FilterSum(coeffs, max, increment, start, tap, lo, lo + |terms|) == Total(terms)
  {
    hide Term;
    if terms != [] {
      SumIsTotal(coeffs, max, increment, start, tap, lo, terms[..|terms| - 1]);
    }
  }

  /** Every output is the gain min(r, 1) times the sum of the contributions of all frames in reach. */
  lemma FilteredTerms(f: Filter, loaded: seq<real>, r: real, p: real, c: nat) returns (dist: seq<nat>, terms: seq<real>)
    requires f.indexInc >= 1 && r > 0.0
    ensures |dist| == |terms| == 2 * Reach(f.halfLen, f.indexInc, r) + 1
    ensures forall i :: 0 <= i < |terms| ==>
      (&& Placed(f, r, p, i - Reach(f.halfLen, f.indexInc, r), dist[i])
       && Weighed(f, loaded, p, c, i - Reach(f.halfLen, f.indexInc, r), dist[i], terms[i]))
    ensures Filtered(f, loaded, r, p, c) == (if r < 1.0 then r else 1.0) * Total(terms)
  {
    hide Reach, IntToFp, Increment, Start, StreamTap, Term, Distance, Placed, Weighed, FilterSum, Total, FloatIncrement;
    ReachPositive(f.halfLen, f.indexInc, r);
    var reach, max := Reach(f.halfLen, f.indexInc, r), IntToFp(f.halfLen);
    var increment, start := Increment(f.indexInc, r), Start(f.indexInc, r, p - p.Floor as real);
    var tap := StreamTap(loaded, f.channels, p.Floor, c);
    dist, terms := TermsFrom(f.coeffs, max, increment, start, tap, -reach, 2 * reach + 1);
    forall i | 0 <= i < |terms|
      ensures Placed(f, r, p, i - reach, dist[i]) && Weighed(f, loaded, p, c, i - reach, dist[i], terms[i])
    {
      PlacedTerm(f, r, p, i - reach);
      WeighedTerm(f, loaded, p, c, i - reach, increment, start);
    }
    SumIsTotal(f.coeffs, max, increment, start, tap, -reach, terms);
    Gain(f.indexInc, r);
  }

  lemma {:induction false} TermsFrom(coeffs: Coeffs, max: nat, increment: int, start: int, tap: int -> real, lo: int,
                                     n: nat) returns (dist: seq<nat>, terms: seq<real>)
    ensures |dist| == |terms| == n
    ensures forall i :: 0 <= i < n ==> dist[i] == Distance(lo + i, increment, start)
    ensures forall i :: 0 <= i < n ==> terms[i] == Term(coeffs, max, increment, start, tap, lo + i)
  {
    hide Distance, Term;
    if n == 0 {
      dist, terms := [], [];
    } else {
      dist, terms := TermsFrom(coeffs, max, increment, start, tap, lo, n - 1);
      dist := dist + [Distance(lo + n - 1, increment, start)];
      terms := terms + [Term(coeffs, max, increment, start, tap, lo + n - 1)];
    }
  }

  function FilteredFrame(f: Filter, loaded: seq<real>, r: real, p: real): (o: seq<real>)
    requires f.indexInc >= 1 && r > 0.0
    ensures |o| == f.channels
  {
    seq(f.channels, c requires 0 <= c < f.channels => Filtered(f, loaded, r, p, c))
  }

  /** k frames from position p on, 1 / r apart. */
  function FilteredFrames(f: Filter, loaded: seq<real>, r: real, p: real, k: nat): (o: seq<real>)
    requires f.indexInc >= 1 && r > 0.0
    ensures |o| == k * f.channels
  {
    if k == 0 then []
    else FilteredFrames(f, loaded, r, p, k - 1) + FilteredFrame(f, loaded, r, p + (k - 1) as real / r)
  }

  /** Frame i of those is the one at p + i / r. */
  lemma {:induction false} FrameAt(f: Filter, loaded: seq<real>, r: real, p: real, k: nat, i: nat, c: nat)
    requires f.indexInc >= 1 && r > 0.0 && i < k && c < f.channels
    ensures 0 <= i * f.channels + c < k * f.channels
    ensures FilteredFrames(f, loaded, r, p, k)[i * f.channels + c] == Filtered(f, loaded, r, p + i as real / r, c)
  {
    hide Filtered;
    assert k * f.channels == (k - 1) * f.channels + f.channels;
    if i < k - 1 {
      FrameAt(f, loaded, r, p, k - 1, i, c);
    }
  }

  /** All frames that the filter reaches from frame `centre` have been taken, or the input has ended. */
  predicate Settled(f: Filter, loaded: seq<real>, ended: bool, r: real, centre: int)
    requires f.indexInc >= 1 && r > 0.0
  {
    if ended then centre * f.channels < |loaded|
    else (centre + Reach(f.halfLen, f.indexInc, r) + 1) * f.channels <= |loaded|
  }

  lemma FilteredSettled(f: Filter, loaded: seq<real>, more: seq<real>, r: real, p: real, c: nat)
    requires f.indexInc >= 1 && r > 0.0 && c < f.channels && Settled(f, loaded, false, r, p.Floor)
    ensures Filtered(f, loaded + more, r, p, c) == Filtered(f, loaded, r, p, c)
  {
    hide Reach, FloatIncrement, Increment, Start, StreamTap, FilterSum;
    var reach, centre := Reach(f.halfLen, f.indexInc, r), p.Floor;
    var tap, tap' := StreamTap(loaded, f.channels, centre, c), StreamTap(loaded + more, f.channels, centre, c);
    forall j | -reach <= j < reach + 1 ensures tap'(j) == tap(j) {
      TapSettled(loaded, more, f.channels, centre, c, reach, j);
    }
    SumCongruent(f.coeffs, IntToFp(f.halfLen), Increment(f.indexInc, r), Start(f.indexInc, r, p - p.Floor as real),
                 tap', tap, -reach, reach + 1);
  }

  lemma TapSettled(loaded: seq<real>, more: seq<real>, channels: nat, centre: int, c: nat, reach: int, j: int)
    requires c < channels && (centre + reach + 1) * channels <= |loaded| && j <= reach
    ensures StreamTap(loaded + more, channels, centre, c)(j) == StreamTap(loaded, channels, centre, c)(j)
  {
    MulOrder(centre + j, centre + reach, channels);
    assert (centre + reach + 1) * channels == (centre + reach) * channels + channels;
  }

  lemma {:induction false} FramesSettled(f: Filter, loaded: seq<real>, more: seq<real>, r: real, p: real, k: nat)
    requires f.indexInc >= 1 && r > 0.0
    requires k > 0 ==> Settled(f, loaded, false, r, (p + (k - 1) as real / r).Floor)
    ensures FilteredFrames(f, loaded + more, r, p, k) == FilteredFrames(f, loaded, r, p, k)
  {
    if k > 0 {
      var q := p + (k - 1) as real / r;
      FrameSettled(f, loaded, more, r, q);
      if k > 1 {
        SettledEarlier(f, loaded, r, p, k);
        FramesSettled(f, loaded, more, r, p, k - 1);
      }
    }
  }

  lemma FrameSettled(f: Filter, loaded: seq<real>, more: seq<real>, r: real, q: real)
    requires f.indexInc >= 1 && r > 0.0 && Settled(f, loaded, false, r, q.Floor)
    ensures FilteredFrame(f, loaded + more, r, q) == FilteredFrame(f, loaded, r, q)
  {
    hide Settled, Filtered;
    forall c | 0 <= c < f.channels { FilteredSettled(f, loaded, more, r, q, c); }
  }

  lemma SettledEarlier(f: Filter, loaded: seq<real>, r: real, p: real, k: nat)
    requires f.indexInc >= 1 && r > 0.0 && k > 1 && Settled(f, loaded, false, r, (p + (k - 1) as real / r).Floor)
    ensures Settled(f, loaded, false, r, (p + (k - 2) as real / r).Floor)
  {
    var a, b := (p + (k - 2) as real / r).Floor, (p + (k - 1) as real / r).Floor;
    assert 1.0 / r > 0.0 by { Quotient(1.0, r, 0.0); }
    assert (k - 1) as real / r == (k - 2) as real / r + 1.0 / r;
    assert a <= b;
    var reach := Reach(f.halfLen, f.indexInc, r);
    if f.channels > 0 { MulOrder(a + reach + 1, b + reach + 1, f.channels); }
  }
}
