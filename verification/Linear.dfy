/** The streaming linear converter of jni/libsamplerate/src_linear.c behind src_process of
    samplerate.c, with doubles as exact reals. Samples are interleaved; `data` is what data_in
    points at, of which the first frames * channels samples are the caller's input. */
module Linear {

  import opened Basics
  import opened Rounding

  const MAX_RATIO := 256.0
  const MIN_RATIO_DIFF := 0.00000000000000000001

  type Data = nat -> real

  function Abs(x: real): real {
    if x < 0.0 then -x else x
  }

  predicate BadRatio(r: real) {
    r < 1.0 / MAX_RATIO || r > MAX_RATIO
  }

  // ----- one call -----

  /** The ratio in force for output frame k of n: it moves linearly from the last to the new one. */
  function RatioAt(last: real, target: real, n: nat, k: nat): (r: real)
    requires !BadRatio(last) && !BadRatio(target) && k < n
    ensures !BadRatio(r)
  {
    if Abs(last - target) > MIN_RATIO_DIFF then
      Between(last, target, k as real, n as real);
      Blend(last, target, k as real, n as real)
    else last
  }

  function Blend(last: real, target: real, k: real, n: real): real
    requires n > 0.0
  {
    last + k * (target - last) / n
  }

  /** The blend runs in n equal steps from the last ratio to the new one. */
  lemma BlendLine(last: real, target: real, k: real, n: real)
    requires n > 0.0
    ensures Blend(last, target, 0.0, n) == last && Blend(last, target, n, n) == target
    ensures Blend(last, target, k + 1.0, n) - Blend(last, target, k, n) == (target - last) / n
  {
    var d := target - last;
    assert n * d / n == d;
    assert (k + 1.0) * d == k * d + d;
  }

  lemma Between(last: real, target: real, k: real, n: real)
    requires !BadRatio(last) && !BadRatio(target) && 0.0 <= k < n
    ensures !BadRatio(Blend(last, target, k, n))
  {
    var f := k / n;
    assert 0.0 <= f < 1.0 by { assert f * n == k; Sign(n, f - 1.0); Sign(n, -f); }
    var d := target - last;
    assert k * d / n == f * d by { assert f * n == k; assert f * d * n == k * d; }
    assert last + f * (target - last) == (1.0 - f) * last + f * target;
    Convex(f, last, target, 1.0 / MAX_RATIO);
    Convex(f, -last, -target, -MAX_RATIO);
  }

  lemma Convex(f: real, a: real, b: real, low: real)
    requires 0.0 <= f < 1.0 && low <= a && low <= b
    ensures low <= (1.0 - f) * a + f * b
  {
    Product(1.0 - f, a - low);
    Product(f, b - low);
    assert (1.0 - f) * a + f * b - low == (1.0 - f) * (a - low) + f * (b - low);
  }

  /** The ratio left in src_ratio after k output frames. */
  function RatioAfter(last: real, target: real, n: nat, k: nat): real
    requires !BadRatio(last) && !BadRatio(target) && k <= n
  {
    if k == 0 then last else RatioAt(last, target, n, k - 1)
  }

  /** The position of output frame k, counted in input frames. */
  function Position(start: real, last: real, target: real, n: nat, k: nat): (p: real)
    requires !BadRatio(last) && !BadRatio(target) && k <= n
    ensures p >= start
  {
    if k == 0 then start
    else Position(start, last, target, n, k - 1) + 1.0 / RatioAt(last, target, n, k - 1)
  }

  /** Frame k + 1 follows frame k after the reciprocal of k steps of the blend, and that is the ratio left. */
  lemma RampStep(start: real, last: real, target: real, n: nat, k: nat)
    requires !BadRatio(last) && !BadRatio(target) && k < n && Abs(last - target) > MIN_RATIO_DIFF
    ensures last + k as real * (target - last) / n as real > 0.0
    ensures Position(start, last, target, n, k + 1) - Position(start, last, target, n, k) ==
            1.0 / (last + k as real * (target - last) / n as real)
    ensures RatioAfter(last, target, n, k + 1) == last + k as real * (target - last) / n as real
  {
    Between(last, target, k as real, n as real);
  }

  /** Sample c of frame i of the stream `first` ++ data. */
  function Sample(data: Data, first: seq<real>, channels: nat, i: nat, c: nat): real
    requires c < channels == |first|
  {
    if i == 0 then first[c] else data((i - 1) * channels + c)
  }

  /** Linear interpolation at position p. */
  function Value(data: Data, first: seq<real>, channels: nat, p: real, c: nat): real
    requires c < channels == |first| && p >= 0.0
  {
    var a := Sample(data, first, channels, p.Floor, c);
    if p == p.Floor as real then a
    else a + (p - p.Floor as real) * (Sample(data, first, channels, p.Floor + 1, c) - a)
  }

  function Frame(data: Data, first: seq<real>, channels: nat, p: real): (f: seq<real>)
    requires channels == |first| && p >= 0.0
    ensures |f| == channels
  {
    seq(channels, c requires 0 <= c < channels => Value(data, first, channels, p, c))
  }

  /** A value before the first input frame. */
  lemma FirstValue(data: Data, first: seq<real>, channels: nat, index: real, c: nat)
    requires c < channels == |first| && 0.0 <= index < 1.0
    ensures Value(data, first, channels, index, c) == first[c] + index * (data(c) - first[c])
  {
    assert index.Floor == 0;
  }

  /** A value between two input frames. */
  lemma NextValue(data: Data, first: seq<real>, channels: nat, u: nat, index: real, c: nat)
    requires c < channels == |first| && 0.0 <= index < 1.0 && u > 0
    ensures (u - 1) * channels == u * channels - channels >= 0
    ensures Value(data, first, channels, u as real + index, c)
         == data(u * channels - channels + c) + index * (data(u * channels + c) - data(u * channels - channels + c))
  {
    FloorShift(u, index);
  }

  /** The first k output frames. */
  function Output(data: Data, first: seq<real>, channels: nat, start: real, last: real, target: real, n: nat,
                  k: nat): (o: seq<real>)
    requires channels == |first| && !BadRatio(last) && !BadRatio(target) && k <= n && start >= 0.0
    ensures |o| == k * channels
  {
    if k == 0 then []
    else Output(data, first, channels, start, last, target, n, k - 1) +
         Frame(data, first, channels, Position(start, last, target, n, k - 1))
  }

  datatype State = State(ratio: real, position: real, reset: bool, last: seq<real>)

  predicate Ready(s: State, channels: nat) {
    channels > 0 && |s.last| == channels && s.position >= 0.0 && !BadRatio(s.ratio)
  }

  /** The frame before the input: right after a reset it is the first frame that data_in points at. */
  function First(s: State, data: Data): seq<real> {
    if s.reset then seq(|s.last|, c requires 0 <= c => data(c)) else s.last
  }

  /** One call with `frames` input frames and room for n: what it writes, uses and leaves. */
  ghost predicate Called(s: State, channels: nat, data: Data, frames: nat, n: nat, target: real, s': State, used: nat,
                         gen: nat, out: seq<real>)
    requires Ready(s, channels) && !BadRatio(target)
  {
    && gen <= n
    && (forall k: nat :: k < gen ==> Position(s.position, s.ratio, target, n, k) <= frames as real)
    && (gen < n ==> Position(s.position, s.ratio, target, n, gen) > frames as real)
    && out == Output(data, First(s, data), channels, s.position, s.ratio, target, n, gen)
    && var end := Position(s.position, s.ratio, target, n, gen);
       && used == Min(end.Floor, frames)
       && s' == State(RatioAfter(s.ratio, target, n, gen), end - used as real, false,
                      seq(channels, c requires 0 <= c < channels => Sample(data, First(s, data), channels, used, c)))
  }

  lemma WrapUp(u: nat, frames: nat, channels: nat)
    requires channels > 0
    ensures u * channels > frames * channels <==> u > frames
    ensures u > frames ==> (u * channels - frames * channels) / channels == u - frames
    ensures u * channels / channels == u
  {
    MulMonotone(u, frames, channels);
    MulMonotone(frames, u, channels);
    assert u * channels - frames * channels == (u - frames) * channels;
    MulDiv(u, channels);
    if u > frames { MulDiv(u - frames, channels); }
  }

  lemma MulMonotone(a: nat, b: nat, m: nat)
    requires m > 0
    ensures a > b ==> a * m >= b * m + m
  {
    if a > b { MulAtLeast(a, b, m); }
  }

  lemma RoomForOne(k: nat, n: nat, channels: nat)
    requires channels > 0 && k <= n
    ensures k * channels < n * channels <==> k < n
    ensures k < n ==> k * channels + channels <= n * channels
    ensures (k + 1) * channels == k * channels + channels
  {
    MulMonotone(n, k, channels);
  }

  lemma MulDiv(a: nat, m: nat)
    requires m > 0
    ensures a * m / m == a
  {
    var q, r := a * m / m, a * m % m;
    assert q * m + r == a * m;
    MulMonotone(a, q, m);
    MulMonotone(q, a, m);
  }

  /** Where the index points, in samples. */
  function PointedAt(inUsed: nat, channels: nat, index: real): real {
    inUsed as real + channels as real * index
  }

  /** The loops' test, in samples, compares positions in frames. */
  lemma TestInFrames(u: nat, index: real, frames: nat, channels: nat)
    requires channels > 0
    ensures PointedAt(u * channels, channels, index) <= (frames * channels) as real
            <==> u as real + index <= frames as real
  {
    var m := channels as real;
    assert (u * channels) as real == u as real * m && (frames * channels) as real == frames as real * m;
    assert u as real * m + m * index - frames as real * m == m * (u as real + index - frames as real);
    Sign(m, u as real + index - frames as real);
  }

  lemma Sign(m: real, x: real)
    requires m > 0.0
    ensures m * x <= 0.0 <==> x <= 0.0
  {
    if x > 0.0 { assert m * x > 0.0; } else { assert m * (-x) >= 0.0; }
  }

  lemma RatioInFrames(last: real, target: real, k: nat, n: nat, channels: nat)
    requires channels > 0 && k < n
    ensures (n * channels) as real > 0.0
    ensures Blend(last, target, (k * channels) as real, (n * channels) as real)
         == Blend(last, target, k as real, n as real)
  {
    var m, d := channels as real, target - last;
    assert (k * channels) as real == k as real * m && (n * channels) as real == n as real * m;
    CancelFactor(k as real * d, n as real, m);
    assert k as real * m * d == (k as real * d) * m;
  }

  lemma CancelFactor(a: real, b: real, m: real)
    requires b > 0.0 && m > 0.0
    ensures b * m > 0.0
    ensures (a * m) / (b * m) == a / b
  {
    var q := a / b;
    assert q * b == a;
    assert q * (b * m) == a * m;
  }

  /** k frames are out. */
  ghost predicate Emitted(s: State, channels: nat, data: Data, frames: nat, n: nat, target: real, k: nat,
                          out: seq<real>, srcRatio: real)
    requires Ready(s, channels) && !BadRatio(target)
  {
    && k <= n
    && out == Output(data, s.last, channels, s.position, s.ratio, target, n, k)
    && (forall j: nat :: j < k ==> Position(s.position, s.ratio, target, n, j) <= frames as real)
    && srcRatio == RatioAfter(s.ratio, target, n, k)
  }

  lemma NothingEmitted(s: State, channels: nat, data: Data, frames: nat, n: nat, target: real)
    requires Ready(s, channels) && !BadRatio(target)
    ensures Emitted(s, channels, data, frames, n, target, 0, [], s.ratio)
    ensures Position(s.position, s.ratio, target, n, 0) == s.position
  {}

  lemma EmitOne(s: State, channels: nat, data: Data, frames: nat, n: nat, target: real, k: nat, out: seq<real>,
                srcRatio: real)
    requires Ready(s, channels) && !BadRatio(target) && k < n
    requires Emitted(s, channels, data, frames, n, target, k, out, srcRatio)
    requires Position(s.position, s.ratio, target, n, k) <= frames as real
    ensures var p := Position(s.position, s.ratio, target, n, k);
            var r := RatioAt(s.ratio, target, n, k);
            && Emitted(s, channels, data, frames, n, target, k + 1, out + Frame(data, s.last, channels, p), r)
            && Position(s.position, s.ratio, target, n, k + 1) == p + 1.0 / r
  {
    hide Frame;
  }

  lemma EmittedRatio(s: State, channels: nat, data: Data, frames: nat, n: nat, target: real, k: nat, out: seq<real>,
                     srcRatio: real)
    requires Ready(s, channels) && !BadRatio(target)
    requires Emitted(s, channels, data, frames, n, target, k, out, srcRatio)
    ensures k <= n && srcRatio == RatioAfter(s.ratio, target, n, k) && |out| == k * channels
  {}

  // ----- the converter -----

  class Converter {
    const channels: nat
    var lastRatio: real
    var lastPosition: real
    var reset: bool
    var lastValue: seq<real>

    ghost predicate Valid()
      reads this
    {
      channels > 0 && |lastValue| == channels && lastPosition >= 0.0 && (lastRatio == 0.0 || !BadRatio(lastRatio))
    }

    ghost function Abstract(): State
      reads this
    {
      State(lastRatio, lastPosition, reset, lastValue)
    }

    /** linear_set_converter and src_reset */
    constructor (channels: nat)
      requires channels > 0
      ensures Valid() && this.channels == channels
      ensures Abstract() == State(0.0, 0.0, true, seq(channels, c => 0.0))
    {
      this.channels := channels;
      lastRatio, lastPosition, reset := 0.0, 0.0, true;
      lastValue := seq(channels, c => 0.0);
    }

    /** src_reset with linear_reset */
    method Reset()
      requires Valid()
      modifies this
      ensures Valid() && Abstract() == State(0.0, 0.0, true, seq(channels, c => 0.0))
    {
      reset := true;
      lastValue := seq(channels, c => 0.0);
      lastPosition := 0.0;
      lastRatio := 0.0;
    }

    method LoadFirst(data: Data)
      requires |lastValue| == channels && reset
      modifies this`lastValue, this`reset
      ensures lastValue == First(old(Abstract()), data) && !reset
    {
      var ch := 0;
      while ch < channels
        invariant 0 <= ch <= channels && |lastValue| == channels
        invariant forall c :: 0 <= c < ch ==> lastValue[c] == data(c)
      {
        lastValue := lastValue[ch := data(ch)];
        ch := ch + 1;
      }
      reset := false;
    }

    /** A frame between last_value and the first input frame. */
    method EmitFirst(data: Data, dataOut: array<real>, outGen: nat, index: real)
      requires |lastValue| == channels && outGen + channels <= dataOut.Length && 0.0 <= index < 1.0
      modifies dataOut
      ensures dataOut[..outGen + channels] == old(dataOut[..outGen]) + Frame(data, lastValue, channels, index)
      ensures dataOut[outGen + channels..] == old(dataOut[outGen + channels..])
    {
      hide Value;
      ghost var f := Frame(data, lastValue, channels, index);
      var ch := 0;
      while ch < channels
        invariant 0 <= ch <= channels
        invariant forall i :: 0 <= i < outGen ==> dataOut[i] == old(dataOut[i])
        invariant forall i :: outGen <= i < outGen + ch ==> dataOut[i] == f[i - outGen]
        invariant dataOut[outGen + ch..] == old(dataOut[outGen + ch..])
      {
        dataOut[outGen + ch] := lastValue[ch] + index * (data(ch) - lastValue[ch]);
        FirstValue(data, lastValue, channels, index, ch);
        ch := ch + 1;
      }
    }

    /** A frame between two input frames. */
    method EmitNext(data: Data, dataOut: array<real>, outGen: nat, inUsed: nat, index: real, ghost u: nat)
      requires |lastValue| == channels && outGen + channels <= dataOut.Length && 0.0 <= index < 1.0
      requires u > 0 && inUsed == u * channels && inUsed >= channels
      modifies dataOut
      ensures dataOut[..outGen + channels]
           == old(dataOut[..outGen]) + Frame(data, lastValue, channels, u as real + index)
      ensures dataOut[outGen + channels..] == old(dataOut[outGen + channels..])
    {
      hide Value;
      ghost var f := Frame(data, lastValue, channels, u as real + index);
      var ch := 0;
      while ch < channels
        invariant 0 <= ch <= channels
        invariant forall i :: 0 <= i < outGen ==> dataOut[i] == old(dataOut[i])
        invariant forall i :: outGen <= i < outGen + ch ==> dataOut[i] == f[i - outGen]
        invariant dataOut[outGen + ch..] == old(dataOut[outGen + ch..])
      {
        dataOut[outGen + ch] := data(inUsed - channels + ch) +
          index * (data(inUsed + ch) - data(inUsed - channels + ch));
        NextValue(data, lastValue, channels, u, index, ch);
        ch := ch + 1;
      }
    }

    /** The ratio update at the top of both loops. */
    method NextRatio(srcRatio: real, target: real, outGen: nat, outCount: nat, ghost k: nat, ghost n: nat)
      returns (r: real)
      requires channels > 0 && !BadRatio(lastRatio) && !BadRatio(target) && k < n
      requires outGen == k * channels && outCount == n * channels && srcRatio == RatioAfter(lastRatio, target, n, k)
      ensures r == RatioAt(lastRatio, target, n, k)
    {
      r := srcRatio;
      RatioInFrames(lastRatio, target, k, n, channels);
      if outCount > 0 && Abs(lastRatio - target) > MIN_RATIO_DIFF {
        r := Blend(lastRatio, target, outGen as real, outCount as real);
      }
    }

    /** The frames before the first input frame. */
    method Head(data: Data, frames: nat, dataOut: array<real>, n: nat, target: real)
      returns (outGen: nat, index: real, srcRatio: real, ghost k: nat)
      requires Ready(Abstract(), channels) && !BadRatio(target) && n * channels <= dataOut.Length
      modifies dataOut
      ensures k <= n && outGen == k * channels && outGen <= dataOut.Length
      ensures Emitted(Abstract(), channels, data, frames, n, target, k, dataOut[..outGen], srcRatio)
      ensures index == Position(lastPosition, lastRatio, target, n, k)
      ensures k < n && index <= frames as real ==> index >= 1.0
    {
      hide Emitted, Position, RatioAfter, RatioAt, Output, Frame, PointedAt;
      ghost var s := Abstract();
      var inCount, outCount := frames * channels, n * channels;
      outGen, index, srcRatio, k := 0, lastPosition, lastRatio, 0;
      NothingEmitted(s, channels, data, frames, n, target);
      assert dataOut[..0] == [];
      RoomForOne(0, n, channels);
      while index < 1.0 && outGen < outCount
        invariant k <= n && outGen == k * channels && outGen <= dataOut.Length && (outGen < outCount <==> k < n)
        invariant Emitted(s, channels, data, frames, n, target, k, dataOut[..outGen], srcRatio)
        invariant index == Position(lastPosition, lastRatio, target, n, k) && index >= 0.0
        decreases n - k
      {
        TestInFrames(0, index, frames, channels);
        if PointedAt(0, channels, index) > inCount as real {
          break;
        }
        EmittedRatio(s, channels, data, frames, n, target, k, dataOut[..outGen], srcRatio);
        EmitOne(s, channels, data, frames, n, target, k, dataOut[..outGen], srcRatio);
        RoomForOne(k, n, channels);
        srcRatio := NextRatio(srcRatio, target, outGen, outCount, k, n);
        EmitFirst(data, dataOut, outGen, index);
        outGen := outGen + channels;
        index := index + 1.0 / srcRatio;
        k := k + 1;
        RoomForOne(k, n, channels);
      }
    }

    /** One turn of the main loop. */
    method Next(data: Data, frames: nat, dataOut: array<real>, n: nat, target: real,
                outGen0: nat, inUsed0: nat, index0: real, srcRatio0: real, ghost k: nat, ghost u: nat)
      returns (outGen: nat, inUsed: nat, index: real, srcRatio: real, ghost u': nat)
      requires Ready(Abstract(), channels) && !BadRatio(target)
      requires k < n && outGen0 == k * channels && outGen0 + channels <= dataOut.Length
      requires Emitted(Abstract(), channels, data, frames, n, target, k, dataOut[..outGen0], srcRatio0)
      requires inUsed0 == u * channels && 0.0 <= index0 < 1.0 && u >= 1
      requires u as real + index0 == Position(lastPosition, lastRatio, target, n, k) <= frames as real
      modifies dataOut
      ensures outGen == outGen0 + channels
      ensures Emitted(Abstract(), channels, data, frames, n, target, k + 1, dataOut[..outGen], srcRatio)
      ensures inUsed == u' * channels && 0.0 <= index < 1.0 && u' >= u
      ensures u' as real + index == Position(lastPosition, lastRatio, target, n, k + 1)
    {
      hide Emitted, Position, RatioAfter, RatioAt, Output, Frame, FmodOne, Lrint;
      ghost var s := Abstract();
      EmittedRatio(s, channels, data, frames, n, target, k, dataOut[..outGen0], srcRatio0);
      EmitOne(s, channels, data, frames, n, target, k, dataOut[..outGen0], srcRatio0);
      srcRatio := NextRatio(srcRatio0, target, outGen0, n * channels, k, n);
      MulMonotone(u, 0, channels);
      EmitNext(data, dataOut, outGen0, inUsed0, index0, u);
      outGen := outGen0 + channels;
      index := index0 + 1.0 / srcRatio;
      inUsed, index, u' := Advance(inUsed0, index, u);
    }

    /** The whole part of the index moves into inUsed. */
    method Advance(inUsed0: nat, index0: real, ghost u: nat) returns (inUsed: nat, index: real, ghost u': nat)
      requires inUsed0 == u * channels && index0 >= 0.0
      ensures inUsed == u' * channels && 0.0 <= index < 1.0 && u' >= u && u' as real + index == u as real + index0
    {
      hide FmodOne, Lrint;
      WholeAndFraction(index0);
      index := FmodOne(index0);
      ghost var whole := index0.Floor;
      u' := u + whole;
      assert u' * channels == u * channels + channels * whole;
      inUsed := inUsed0 + channels * Lrint(index0 - index);
    }

    /** The frames between two input frames; inUsed counts the samples left behind. */
    method Body(data: Data, frames: nat, dataOut: array<real>, n: nat, target: real,
                outGen0: nat, inUsed0: nat, index0: real, srcRatio0: real, ghost k0: nat, ghost u0: nat)
      returns (outGen: nat, inUsed: nat, index: real, srcRatio: real, ghost k: nat, ghost u: nat)
      requires Ready(Abstract(), channels) && !BadRatio(target) && n * channels <= dataOut.Length
      requires k0 <= n && outGen0 == k0 * channels && outGen0 <= dataOut.Length
      requires Emitted(Abstract(), channels, data, frames, n, target, k0, dataOut[..outGen0], srcRatio0)
      requires inUsed0 == u0 * channels && 0.0 <= index0 < 1.0
      requires u0 as real + index0 == Position(lastPosition, lastRatio, target, n, k0)
      requires k0 < n && u0 as real + index0 <= frames as real ==> u0 >= 1
      modifies dataOut
      ensures k <= n && outGen == k * channels && outGen <= dataOut.Length
      ensures Emitted(Abstract(), channels, data, frames, n, target, k, dataOut[..outGen], srcRatio)
      ensures inUsed == u * channels && 0.0 <= index < 1.0
      ensures u as real + index == Position(lastPosition, lastRatio, target, n, k)
      ensures k < n ==> u as real + index > frames as real
    {
      hide Emitted, Position, RatioAfter, RatioAt, Output, Frame, PointedAt;
      var inCount, outCount := frames * channels, n * channels;
      outGen, inUsed, index, srcRatio, k, u := outGen0, inUsed0, index0, srcRatio0, k0, u0;
      TestInFrames(u, index, frames, channels);
      RoomForOne(k, n, channels);
      while outGen < outCount && PointedAt(inUsed, channels, index) <= inCount as real
        invariant k <= n && outGen == k * channels && outGen <= dataOut.Length && (outGen < outCount <==> k < n)
        invariant Emitted(Abstract(), channels, data, frames, n, target, k, dataOut[..outGen], srcRatio)
        invariant inUsed == u * channels && 0.0 <= index < 1.0
        invariant u as real + index == Position(lastPosition, lastRatio, target, n, k)
        invariant PointedAt(inUsed, channels, index) <= inCount as real <==> u as real + index <= frames as real
        invariant k < n && u as real + index <= frames as real ==> u >= 1
        decreases n - k
      {
        RoomForOne(k, n, channels);
        outGen, inUsed, index, srcRatio, u :=
          Next(data, frames, dataOut, n, target, outGen, inUsed, index, srcRatio, k, u);
        k := k + 1;
        RoomForOne(k, n, channels);
        TestInFrames(u, index, frames, channels);
      }
    }

    /** linear_vari_process */
    method VariProcess(data: Data, frames: nat, dataOut: array<real>, n: nat, target: real)
      returns (used: nat, gen: nat)
      requires Ready(Abstract(), channels) && !BadRatio(target) && n * channels <= dataOut.Length
      modifies this, dataOut
      ensures gen * channels <= dataOut.Length
      ensures Called(old(Abstract()), channels, data, frames, n, target, Abstract(), used, gen,
                     dataOut[..gen * channels])
    {
      hide Emitted, Position, RatioAfter, RatioAt, Output, Frame, Called;
      ghost var s := Abstract();
      if reset {
        LoadFirst(data);
      }
      ghost var s1 := Abstract();
      assert s1.last == First(s, data);
      var outGen, index, srcRatio, k := Head(data, frames, dataOut, n, target);
      PositionLow(lastPosition, lastRatio, target, n, k);
      var inUsed: nat;
      ghost var u: nat;
      inUsed, index, u := Advance(0, index, 0);
      outGen, inUsed, index, srcRatio, k, u :=
        Body(data, frames, dataOut, n, target, outGen, inUsed, index, srcRatio, k, u);
      WrapUp(u, frames, channels);
      var inCount := frames * channels;
      FloorShift(u, index);
      if inUsed > inCount {
        index := index + ((inUsed - inCount) / channels) as real;
        inUsed := inCount;
        u := frames;
      }
      lastPosition := index;
      MulMonotone(u, 0, channels);
      if inUsed > 0 {
        SaveLast(data, inUsed, u);
      }
      lastRatio := srcRatio;
      WrapUp(u, u, channels);
      WrapUp(k, k, channels);
      used, gen := inUsed / channels, outGen / channels;
      CallDone(s, s1, channels, data, frames, n, target, Abstract(), used, gen, dataOut[..gen * channels], srcRatio);
    }

    method SaveLast(data: Data, inUsed: nat, ghost u: nat)
      requires |lastValue| == channels > 0 && inUsed == u * channels && u > 0
      modifies this`lastValue
      ensures |lastValue| == channels
      ensures forall c :: 0 <= c < channels ==> lastValue[c] == Sample(data, old(lastValue), channels, u, c)
    {
      assert (u - 1) * channels == inUsed - channels && (u - 1) * channels >= 0;
      var ch := 0;
      while ch < channels
        invariant 0 <= ch <= channels && |lastValue| == channels
        invariant forall c :: 0 <= c < ch ==> lastValue[c] == data(inUsed - channels + c)
      {
        lastValue := lastValue[ch := data(inUsed - channels + ch)];
        ch := ch + 1;
      }
    }

    /** src_process; the buffers are given and do not overlap. */
    method SrcProcess(data: Data, inputFrames: int, dataOut: array<real>, outputFrames: int, ratio: real)
      returns (ok: bool, used: nat, gen: nat)
      requires Valid() && Clamped(outputFrames) * channels <= dataOut.Length
      modifies this, dataOut
      ensures Valid() && ok == (1.0 / 256.0 <= ratio <= 256.0)
      ensures (inputFrames <= 0 ==> used == 0) && (outputFrames <= 0 ==> gen == 0)
      ensures !ok ==> Abstract() == old(Abstract()) && dataOut[..] == old(dataOut[..])
      ensures gen * channels <= dataOut.Length
      ensures ok ==> Called(Started(old(Abstract()), ratio), channels, data, Clamped(inputFrames),
                            Clamped(outputFrames), ratio,
                            Abstract(), used, gen, dataOut[..gen * channels])
      ensures ok && old(lastRatio) >= 1.0 / 256.0 ==>
                Ready(old(Abstract()), channels) &&
                Called(old(Abstract()), channels, data, Clamped(inputFrames), Clamped(outputFrames), ratio,
                       Abstract(), used, gen, dataOut[..gen * channels])
    {
      hide Called;
      ok, used, gen := true, 0, 0;
      if BadRatio(ratio) {
        ok := false;
        return;
      }
      var inFrames, outFrames := inputFrames, outputFrames;
      if inFrames < 0 { inFrames := 0; }
      if outFrames < 0 { outFrames := 0; }
      if lastRatio < 1.0 / MAX_RATIO {
        lastRatio := ratio;
      }
      ghost var s := Abstract();
      used, gen := VariProcess(data, inFrames, dataOut, outFrames, ratio);
      CalledReady(s, channels, data, inFrames, outFrames, ratio, Abstract(), used, gen, dataOut[..gen * channels]);
      CalledWithin(s, channels, data, inFrames, outFrames, ratio, Abstract(), used, gen, dataOut[..gen * channels]);
    }
  }

  lemma CalledWithin(s: State, channels: nat, data: Data, frames: nat, n: nat, target: real, s': State, used: nat,
                     gen: nat, out: seq<real>)
    requires Ready(s, channels) && !BadRatio(target)
    requires Called(s, channels, data, frames, n, target, s', used, gen, out)
    ensures used <= frames && gen <= n
  {
    hide Position, Output, RatioAfter, Sample;
  }

  function Clamped(n: int): nat {
    if n < 0 then 0 else n
  }

  /** src_process sets a ratio that has not been set yet. */
  function Started(s: State, ratio: real): State {
    if s.ratio < 1.0 / MAX_RATIO then s.(ratio := ratio) else s
  }

  lemma PositionLow(start: real, last: real, target: real, n: nat, k: nat)
    requires !BadRatio(last) && !BadRatio(target) && k <= n
    ensures Position(start, last, target, n, k) >= start
  {
    hide Position;
  }

  lemma CallDone(s: State, s1: State, channels: nat, data: Data, frames: nat, n: nat, target: real,
                 s': State, used: nat, gen: nat, out: seq<real>, srcRatio: real)
    requires Ready(s, channels) && Ready(s1, channels) && !BadRatio(target)
    requires s1 == s.(reset := false, last := First(s, data))
    requires Emitted(s1, channels, data, frames, n, target, gen, out, srcRatio)
    requires gen <= n
    requires gen < n ==> Position(s.position, s.ratio, target, n, gen) > frames as real
    requires used == Min(Position(s.position, s.ratio, target, n, gen).Floor, frames)
    requires !s'.reset && s'.ratio == srcRatio
    requires s'.position == Position(s.position, s.ratio, target, n, gen) - used as real
    requires |s'.last| == channels
    requires forall c :: 0 <= c < channels ==> s'.last[c] == Sample(data, First(s, data), channels, used, c)
    ensures Called(s, channels, data, frames, n, target, s', used, gen, out)
  {
    hide Position, Output, RatioAfter, Sample;
    assert s'.last == seq(channels, c requires 0 <= c < channels => Sample(data, First(s, data), channels, used, c));
  }

  lemma CalledReady(s: State, channels: nat, data: Data, frames: nat, n: nat, target: real, s': State, used: nat,
                    gen: nat, out: seq<real>)
    requires Ready(s, channels) && !BadRatio(target)
    requires Called(s, channels, data, frames, n, target, s', used, gen, out)
    ensures Ready(s', channels) && used <= frames
  {
    hide Output, Sample;
  }
}
