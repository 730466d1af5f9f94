/** Runs of the linear converter: whatever the chunking, the output is the interpolation of one
    stream x0, x0, x1, x2, … at positions that advance by 1 / ratio. */
module LinearStream {

  import opened Basics
  import opened Rounding
  import opened Linear

  // ----- the stateless definition -----

  function FirstFrame(x: Data, channels: nat): seq<real> {
    seq(channels, c requires 0 <= c => x(c))
  }

  /** The stream x0, x0, x1, x2, … interpolated at position p. */
  function StreamFrame(x: Data, channels: nat, p: real): (f: seq<real>)
    requires p >= 0.0
    ensures |f| == channels
  {
    Frame(x, FirstFrame(x, channels), channels, p)
  }

  predicate GoodRatios(rs: seq<real>) {
    forall i :: 0 <= i < |rs| ==> !BadRatio(rs[i])
  }

  /** The time that output frames with these ratios take, in input frames. */
  function Span(rs: seq<real>): (t: real)
    requires GoodRatios(rs)
    ensures t >= 0.0
  {
    if rs == [] then 0.0
    else
      var front := rs[..|rs| - 1];
      Span(front) + 1.0 / rs[|rs| - 1]
  }

  function StreamFrames(x: Data, channels: nat, p: real, rs: seq<real>): (o: seq<real>)
    requires p >= 0.0 && GoodRatios(rs)
  {
    if rs == [] then []
    else
      var front := rs[..|rs| - 1];
      StreamFrames(x, channels, p, front) + StreamFrame(x, channels, p + Span(front))
  }

  lemma {:induction false} SpanAppend(a: seq<real>, b: seq<real>)
    requires GoodRatios(a) && GoodRatios(b)
    ensures GoodRatios(a + b) && Span(a + b) == Span(a) + Span(b)
  {
    if b == [] {
      assert a + b == a;
    } else {
      assert (a + b)[..|a + b| - 1] == a + b[..|b| - 1];
      SpanAppend(a, b[..|b| - 1]);
    }
  }

  lemma {:induction false} StreamFramesAppend(x: Data, channels: nat, p: real, a: seq<real>, b: seq<real>)
    requires p >= 0.0 && GoodRatios(a) && GoodRatios(b)
    ensures GoodRatios(a + b)
    ensures StreamFrames(x, channels, p, a + b)
         == StreamFrames(x, channels, p, a) + StreamFrames(x, channels, p + Span(a), b)
  {
    if b == [] {
      assert a + b == a;
    } else {
      var front := b[..|b| - 1];
      assert (a + b)[..|a + b| - 1] == a + front;
      StreamFramesAppend(x, channels, p, a, front);
      SpanAppend(a, front);
    }
  }

  lemma StreamFramesNext(x: Data, channels: nat, p: real, rs: seq<real>, r: real)
    requires p >= 0.0 && GoodRatios(rs) && !BadRatio(r)
    ensures StreamFrames(x, channels, p, rs + [r])
         == StreamFrames(x, channels, p, rs) + StreamFrame(x, channels, p + Span(rs))
  {
    assert (rs + [r])[..|rs + [r]| - 1] == rs;
  }

  // ----- one call against the stream -----

  /** The caller's input is the stream from frame `used` on. */
  ghost predicate Fed(x: Data, channels: nat, used: nat, data: Data, frames: nat) {
    forall i: nat :: i < frames * channels ==> data(i) == x(used * channels + i)
  }

  /** last_value holds the stream's frame before the next input. */
  ghost predicate InStep(x: Data, channels: nat, used: nat, first: seq<real>) {
    |first| == channels &&
      forall c :: 0 <= c < channels ==> first[c] == Sample(x, FirstFrame(x, channels), channels, used, c)
  }

  lemma FedSample(x: Data, channels: nat, used: nat, data: Data, frames: nat, first: seq<real>, i: nat, c: nat)
    requires Fed(x, channels, used, data, frames) && InStep(x, channels, used, first) && i <= frames && c < channels
    ensures Sample(data, first, channels, i, c) == Sample(x, FirstFrame(x, channels), channels, used + i, c)
  {
    if i > 0 {
      var j := (i - 1) * channels + c;
      assert j < frames * channels by {
        MulMonotone(frames, i - 1, channels);
      }
      assert used * channels + j == (used + i - 1) * channels + c;
    }
  }

  /** Interpolation over the caller's input reads only that input, and is interpolation over the stream. */
  lemma FedFrame(x: Data, channels: nat, used: nat, data: Data, frames: nat, first: seq<real>, p: real)
    requires Fed(x, channels, used, data, frames) && InStep(x, channels, used, first) && 0.0 <= p <= frames as real
    ensures Frame(data, first, channels, p) == StreamFrame(x, channels, used as real + p)
  {
    hide Fed, InStep, Sample;
    FloorShift(used + p.Floor, p - p.Floor as real);
    assert |first| == channels by { InStepLength(x, channels, used, first); }
    forall c | 0 <= c < channels
      ensures Value(data, first, channels, p, c) == Value(x, FirstFrame(x, channels), channels, used as real + p, c)
    {
      FedSample(x, channels, used, data, frames, first, p.Floor, c);
      if p != p.Floor as real {
        FedSample(x, channels, used, data, frames, first, p.Floor + 1, c);
      }
    }
  }

  lemma InStepLength(x: Data, channels: nat, used: nat, first: seq<real>)
    requires InStep(x, channels, used, first)
    ensures |first| == channels
  {}

  function CallRatios(last: real, target: real, n: nat, k: nat): (rs: seq<real>)
    requires !BadRatio(last) && !BadRatio(target) && k <= n
    ensures |rs| == k && GoodRatios(rs)
  {
    if k == 0 then [] else CallRatios(last, target, n, k - 1) + [RatioAt(last, target, n, k - 1)]
  }

  lemma {:induction false} PositionIsSpan(start: real, last: real, target: real, n: nat, k: nat)
    requires !BadRatio(last) && !BadRatio(target) && k <= n
    ensures Position(start, last, target, n, k) == start + Span(CallRatios(last, target, n, k))
  {
    if k > 0 {
      PositionIsSpan(start, last, target, n, k - 1);
      var rs := CallRatios(last, target, n, k);
      assert rs[..|rs| - 1] == CallRatios(last, target, n, k - 1);
    }
  }

  lemma OutputUnfold(x: Data, channels: nat, used: nat, data: Data, first: seq<real>, start: real, last: real,
                     target: real, n: nat, k: nat)
    requires |first| == channels && !BadRatio(last) && !BadRatio(target) && k <= n && start >= 0.0
    ensures k == 0 ==> Output(data, first, channels, start, last, target, n, k) == [] ==
                       StreamFrames(x, channels, used as real + start, CallRatios(last, target, n, k))
    ensures k > 0 ==>
              CallRatios(last, target, n, k) == CallRatios(last, target, n, k - 1) + [RatioAt(last, target, n, k - 1)]
    ensures k > 0 ==> Output(data, first, channels, start, last, target, n, k) ==
                      Output(data, first, channels, start, last, target, n, k - 1) +
                      Frame(data, first, channels, Position(start, last, target, n, k - 1))
  {
    hide Frame, Position;
  }

  lemma {:induction false} OutputIsStream(x: Data, channels: nat, used: nat, data: Data, frames: nat, first: seq<real>,
                                          start: real, last: real, target: real, n: nat, k: nat)
    requires Fed(x, channels, used, data, frames) && InStep(x, channels, used, first) && |first| == channels
    requires !BadRatio(last) && !BadRatio(target) && k <= n && start >= 0.0
    requires forall j: nat :: j < k ==> Position(start, last, target, n, j) <= frames as real
    ensures Output(data, first, channels, start, last, target, n, k) ==
            StreamFrames(x, channels, used as real + start, CallRatios(last, target, n, k))
  {
    hide *;
    OutputUnfold(x, channels, used, data, first, start, last, target, n, k);
    if k > 0 {
      var rs, r := CallRatios(last, target, n, k - 1), RatioAt(last, target, n, k - 1);
      OutputIsStream(x, channels, used, data, frames, first, start, last, target, n, k - 1);
      PositionIsSpan(start, last, target, n, k - 1);
      FedFrame(x, channels, used, data, frames, first, Position(start, last, target, n, k - 1));
      StreamFramesNext(x, channels, used as real + start, rs, r);
    }
  }

  /** A call in step with the stream puts out the stream's frames from where it stands, and stays in step. */
  lemma CallStreams(x: Data, channels: nat, used: nat, s: State, t: Turn)
    requires Ready(s, channels) && !BadRatio(t.target) && Fed(x, channels, used, t.data, t.frames)
    requires InStep(x, channels, used, First(s, t.data))
    requires Called(s, channels, t.data, t.frames, t.n, t.target, t.after, t.used, t.gen, t.out)
    ensures t.gen <= t.n
    ensures t.out == StreamFrames(x, channels, used as real + s.position, CallRatios(s.ratio, t.target, t.n, t.gen))
    ensures t.used as real + t.after.position == s.position + Span(CallRatios(s.ratio, t.target, t.n, t.gen))
    ensures Ready(t.after, channels) && !t.after.reset && InStep(x, channels, used + t.used, t.after.last)
  {
    CalledReady(s, channels, t.data, t.frames, t.n, t.target, t.after, t.used, t.gen, t.out);
    hide Fed, Position, Sample, CallRatios, Output, RatioAfter;
    OutputIsStream(x, channels, used, t.data, t.frames, First(s, t.data), s.position, s.ratio, t.target, t.n, t.gen);
    PositionIsSpan(s.position, s.ratio, t.target, t.n, t.gen);
    forall c | 0 <= c < channels
      ensures t.after.last[c] == Sample(x, FirstFrame(x, channels), channels, used + t.used, c)
    {
      FedSample(x, channels, used, t.data, t.frames, First(s, t.data), t.used, c);
    }
  }

  // ----- runs -----

  datatype Turn = Turn(data: Data, frames: nat, n: nat, target: real, after: State, used: nat, gen: nat, out: seq<real>)

  /** A run of src_process calls: each call is given the stream from the first frame not used yet,
      and the first call after a reset is given at least one frame. */
  ghost predicate Run(x: Data, channels: nat, s: State, used: nat, turns: seq<Turn>)
    decreases |turns|
  {
    turns == [] ||
    (var t := turns[0];
     && !BadRatio(t.target) && Ready(Started(s, t.target), channels)
     && Fed(x, channels, used, t.data, t.frames) && (s.reset ==> t.frames > 0)
     && Called(Started(s, t.target), channels, t.data, t.frames, t.n, t.target, t.after, t.used, t.gen, t.out)
     && Run(x, channels, t.after, used + t.used, turns[1..]))
  }

  function Outputs(turns: seq<Turn>): seq<real> {
    if turns == [] then [] else turns[0].out + Outputs(turns[1..])
  }

  function Generated(turns: seq<Turn>): nat {
    if turns == [] then 0 else turns[0].gen + Generated(turns[1..])
  }

  function FramesUsed(turns: seq<Turn>): nat {
    if turns == [] then 0 else turns[0].used + FramesUsed(turns[1..])
  }

  function Final(s: State, turns: seq<Turn>): State
    decreases |turns|
  {
    if turns == [] then s else Final(turns[0].after, turns[1..])
  }

  /** The state between two calls, `used` frames into the stream. */
  ghost predicate Standing(x: Data, channels: nat, used: nat, s: State) {
    && channels > 0 && |s.last| == channels && s.position >= 0.0 && (s.ratio == 0.0 || !BadRatio(s.ratio))
    && if s.reset then used == 0 else InStep(x, channels, used, s.last)
  }

  lemma FirstInStep(x: Data, channels: nat, used: nat, s: State, data: Data, frames: nat)
    requires Standing(x, channels, used, s) && Fed(x, channels, used, data, frames) && (s.reset ==> frames > 0)
    ensures InStep(x, channels, used, First(s, data))
  {
    if s.reset {
      MulMonotone(frames, 0, channels);
      forall c | 0 <= c < channels ensures data(c) == x(c) {
        assert data(c) == x(used * channels + c);
      }
    }
  }

  /** The ratios of all output frames of a run. */
  ghost function RunRatios(x: Data, channels: nat, s: State, used: nat, turns: seq<Turn>): (rs: seq<real>)
    requires Run(x, channels, s, used, turns)
    ensures GoodRatios(rs)
    decreases |turns|
  {
    if turns == [] then []
    else
      var t := turns[0];
      CallRatios(Started(s, t.target).ratio, t.target, t.n, t.gen) +
        RunRatios(x, channels, t.after, used + t.used, turns[1..])
  }

  lemma RunStart(x: Data, channels: nat, s: State, used: nat, turns: seq<Turn>)
    requires Run(x, channels, s, used, turns) && Standing(x, channels, used, s) && turns != []
    ensures var t := turns[0];
            var s1 := Started(s, t.target);
            && !BadRatio(s1.ratio) && t.gen <= t.n && s1.position == s.position
            && t.out == StreamFrames(x, channels, used as real + s.position, CallRatios(s1.ratio, t.target, t.n, t.gen))
            && t.used as real + t.after.position == s.position + Span(CallRatios(s1.ratio, t.target, t.n, t.gen))
            && Standing(x, channels, used + t.used, t.after)
            && Run(x, channels, t.after, used + t.used, turns[1..])
  {
    hide InStep, Called, StreamFrames, Span, CallRatios, Fed;
    var t := turns[0];
    var s1 := Started(s, t.target);
    FirstInStep(x, channels, used, s, t.data, t.frames);
    assert First(s1, t.data) == First(s, t.data);
    CallStreams(x, channels, used, s1, t);
  }

  /** Any run puts out the stream at the positions that its ratios make, and frames used plus last_position
      is the time those outputs take. */
  lemma {:induction false} RunStreams(x: Data, channels: nat, s: State, used: nat, turns: seq<Turn>)
    requires Run(x, channels, s, used, turns) && Standing(x, channels, used, s)
    ensures Outputs(turns)
         == StreamFrames(x, channels, used as real + s.position, RunRatios(x, channels, s, used, turns))
    ensures FramesUsed(turns) as real + Final(s, turns).position
         == s.position + Span(RunRatios(x, channels, s, used, turns))
    decreases |turns|
  {
    hide InStep, Called, StreamFrames, Span, CallRatios, Fed, Ready, Run, First, Position, RunRatios, Standing;
    RunUnfold(x, channels, s, used, turns);
    if turns != [] {
      var t := turns[0];
      var s1 := Started(s, t.target);
      RunStart(x, channels, s, used, turns);
      RunStreams(x, channels, t.after, used + t.used, turns[1..]);
      var a, b := CallRatios(s1.ratio, t.target, t.n, t.gen),
        RunRatios(x, channels, t.after, used + t.used, turns[1..]);
      StreamFramesAppend(x, channels, used as real + s.position, a, b);
      SpanAppend(a, b);
    }
  }

  lemma RunUnfold(x: Data, channels: nat, s: State, used: nat, turns: seq<Turn>)
    requires Run(x, channels, s, used, turns) && Standing(x, channels, used, s)
    ensures s.position >= 0.0
    ensures turns == [] ==> RunRatios(x, channels, s, used, turns) == [] &&
                            StreamFrames(x, channels, used as real + s.position, []) == [] && Span([]) == 0.0
    ensures turns != [] ==>
              var t := turns[0];
              var s1 := Started(s, t.target);
              && !BadRatio(s1.ratio) && !BadRatio(t.target) && t.gen <= t.n
              && Run(x, channels, t.after, used + t.used, turns[1..])
              && RunRatios(x, channels, s, used, turns) ==
                 CallRatios(s1.ratio, t.target, t.n, t.gen) + RunRatios(x, channels, t.after, used + t.used, turns[1..])
  {}

  // ----- a constant ratio -----

  /** The first m output frames at a constant ratio: positions 0, 1 / r, 2 / r, … */
  function Resampled(x: Data, channels: nat, r: real, m: nat): seq<real>
    requires !BadRatio(r)
  {
    if m == 0 then [] else Resampled(x, channels, r, m - 1) + StreamFrame(x, channels, (m - 1) as real / r)
  }

  predicate AllEqual(rs: seq<real>, r: real) {
    forall i :: 0 <= i < |rs| ==> rs[i] == r
  }

  lemma {:induction false} SpanConstant(rs: seq<real>, r: real)
    requires !BadRatio(r) && GoodRatios(rs) && AllEqual(rs, r)
    ensures Span(rs) == |rs| as real / r
  {
    if rs != [] {
      var front := rs[..|rs| - 1];
      SpanConstant(front, r);
      assert |rs| as real / r == |front| as real / r + 1.0 / r;
    }
  }

  lemma {:induction false} StreamFramesConstant(x: Data, channels: nat, rs: seq<real>, r: real)
    requires !BadRatio(r) && GoodRatios(rs) && AllEqual(rs, r)
    ensures StreamFrames(x, channels, 0.0, rs) == Resampled(x, channels, r, |rs|)
  {
    if rs != [] {
      var front := rs[..|rs| - 1];
      StreamFramesConstant(x, channels, front, r);
      SpanConstant(front, r);
    }
  }

  lemma {:induction false} CallConstant(r: real, n: nat, k: nat)
    requires !BadRatio(r) && k <= n
    ensures AllEqual(CallRatios(r, r, n, k), r) && RatioAfter(r, r, n, k) == r
  {
    if k > 0 { CallConstant(r, n, k - 1); }
  }

  lemma {:induction false} RunConstant(x: Data, channels: nat, s: State, used: nat, turns: seq<Turn>, r: real)
    requires Run(x, channels, s, used, turns) && !BadRatio(r) && (s.ratio == 0.0 || s.ratio == r)
    requires forall i :: 0 <= i < |turns| ==> turns[i].target == r
    ensures AllEqual(RunRatios(x, channels, s, used, turns), r)
    ensures |RunRatios(x, channels, s, used, turns)| == Generated(turns)
    decreases |turns|
  {
    hide Fed, CallRatios, RatioAfter, Position, Output, Sample;
    if turns != [] {
      var t := turns[0];
      CallConstant(r, t.n, t.gen);
      RunConstant(x, channels, t.after, used + t.used, turns[1..], r);
    }
  }

  /** One call at a constant ratio: it stops where the input or the room ends, at positions 1 / r apart. */
  lemma ConstantCall(s: State, channels: nat, t: Turn)
    requires Ready(s, channels) && t.target == s.ratio
    requires Called(s, channels, t.data, t.frames, t.n, t.target, t.after, t.used, t.gen, t.out)
    ensures t.gen > 0 ==> s.position + (t.gen - 1) as real / s.ratio <= t.frames as real
    ensures t.gen < t.n ==> s.position + t.gen as real / s.ratio > t.frames as real
    ensures t.used == Min((s.position + t.gen as real / s.ratio).Floor, t.frames)
    ensures t.used as real + t.after.position == s.position + t.gen as real / s.ratio && t.after.ratio == s.ratio
  {
    hide Position, Output, Sample, RatioAfter;
    CallConstant(s.ratio, t.n, t.gen);
    ConstantPosition(s.position, s.ratio, t.n, t.gen);
    if t.gen > 0 { ConstantPosition(s.position, s.ratio, t.n, t.gen - 1); }
  }

  lemma ConstantPosition(start: real, r: real, n: nat, k: nat)
    requires !BadRatio(r) && k <= n
    ensures Position(start, r, r, n, k) == start + k as real / r
  {
    hide Position, Span, CallRatios;
    CallConstant(r, n, k);
    PositionIsSpan(start, r, r, n, k);
    SpanConstant(CallRatios(r, r, n, k), r);
  }

  /** After a reset and at one ratio, every run puts out the stream at positions 0, 1 / r, 2 / r, …, and
      frames used + last_position = frames generated / r. */
  lemma ConstantRatio(x: Data, channels: nat, last: seq<real>, turns: seq<Turn>, r: real)
    requires channels > 0 && |last| == channels && !BadRatio(r)
    requires Run(x, channels, State(0.0, 0.0, true, last), 0, turns)
    requires forall i :: 0 <= i < |turns| ==> turns[i].target == r
    ensures Outputs(turns) == Resampled(x, channels, r, Generated(turns))
    ensures FramesUsed(turns) as real + Final(State(0.0, 0.0, true, last), turns).position
         == Generated(turns) as real / r
  {
    hide Run, RunRatios, StreamFrames, Resampled, Span;
    var s := State(0.0, 0.0, true, last);
    RunStreams(x, channels, s, 0, turns);
    RunConstant(x, channels, s, 0, turns, r);
    StreamFramesConstant(x, channels, RunRatios(x, channels, s, 0, turns), r);
    SpanConstant(RunRatios(x, channels, s, 0, turns), r);
  }

  /** The stream at position p: its first frame up to 1, then straight lines from frame to frame. */
  lemma StreamValue(x: Data, channels: nat, p: real, c: nat)
    requires p >= 0.0 && c < channels
    ensures p < 1.0 ==> StreamFrame(x, channels, p)[c] == x(c)
    ensures p >= 1.0 ==>
      var a, b := (p.Floor - 1) * channels + c, p.Floor * channels + c;
      a >= 0 && StreamFrame(x, channels, p)[c] == x(a) + (p - p.Floor as real) * (x(b) - x(a))
  {
    if p >= 1.0 { assert (p.Floor - 1) * channels >= 0; }
  }

  /** Sample c of output frame k at a constant ratio, from the two input frames around k / r. */
  lemma {:induction false} ResampledAt(x: Data, channels: nat, r: real, m: nat, k: nat, c: nat)
    requires !BadRatio(r) && k < m && c < channels
    ensures 0 <= k * channels + c < |Resampled(x, channels, r, m)| == m * channels
    ensures var p := k as real / r;
            p >= 0.0 && Resampled(x, channels, r, m)[k * channels + c] == StreamFrame(x, channels, p)[c]
    decreases m
  {
    hide StreamFrame;
    ResampledLength(x, channels, r, m - 1);
    assert m * channels == (m - 1) * channels + channels;
    if k < m - 1 {
      ResampledAt(x, channels, r, m - 1, k, c);
    }
  }

  lemma {:induction false} ResampledLength(x: Data, channels: nat, r: real, m: nat)
    requires !BadRatio(r)
    ensures |Resampled(x, channels, r, m)| == m * channels
  {
    hide StreamFrame;
    if m > 0 {
      ResampledLength(x, channels, r, m - 1);
      assert m * channels == (m - 1) * channels + channels;
    }
  }

  lemma {:induction false} ResampledPrefix(x: Data, channels: nat, r: real, m: nat, n: nat)
    requires !BadRatio(r) && m <= n
    ensures Resampled(x, channels, r, m) <= Resampled(x, channels, r, n)
    decreases n - m
  {
    if m < n {
      assert Resampled(x, channels, r, m) <= Resampled(x, channels, r, m + 1);
      ResampledPrefix(x, channels, r, m + 1, n);
    }
  }

  /** Chunking does not matter: of two runs over the same stream, the shorter output is a prefix of the longer. */
  lemma ChunkingIrrelevant(x: Data, channels: nat, last: seq<real>, some: seq<Turn>, others: seq<Turn>, r: real)
    requires channels > 0 && |last| == channels && !BadRatio(r)
    requires Run(x, channels, State(0.0, 0.0, true, last), 0, some)
    requires Run(x, channels, State(0.0, 0.0, true, last), 0, others)
    requires forall i :: 0 <= i < |some| ==> some[i].target == r
    requires forall i :: 0 <= i < |others| ==> others[i].target == r
    requires Generated(some) <= Generated(others)
    ensures Outputs(some) <= Outputs(others)
  {
    hide Run, Resampled;
    ConstantRatio(x, channels, last, some, r);
    ConstantRatio(x, channels, last, others, r);
    ResampledPrefix(x, channels, r, Generated(some), Generated(others));
  }

  // ----- the first call after a reset -----

  /** Whatever lies behind the caller's input, the first call stays in step with the stream. */
  ghost predicate FirstCallInStep(x: Data, channels: nat, last: seq<real>, frames: nat, n: nat, r: real)
    requires channels > 0 && |last| == channels && !BadRatio(r)
  {
    forall data: Data, after: State, used: nat, gen: nat, out: seq<real> ::
      Fed(x, channels, 0, data, frames) &&
        Called(State(r, 0.0, true, last), channels, data, frames, n, r, after, used, gen, out) ==>
        InStep(x, channels, used, after.last)
  }

  /** The first call after a reset loads last_value from data_in unconditionally, so it must be given a frame. */
  lemma FirstCallExact(x: Data, channels: nat, last: seq<real>, frames: nat, n: nat, r: real)
    requires channels > 0 && |last| == channels && !BadRatio(r)
    ensures FirstCallInStep(x, channels, last, frames, n, r) <==> frames > 0
  {
    if frames > 0 {
      forall data: Data, after: State, used: nat, gen: nat, out: seq<real> |
        Fed(x, channels, 0, data, frames) &&
          Called(State(r, 0.0, true, last), channels, data, frames, n, r, after, used, gen, out)
        ensures InStep(x, channels, used, after.last)
      {
        FirstInStep(x, channels, 0, State(r, 0.0, true, last), data, frames);
        CallStreams(x, channels, 0, State(r, 0.0, true, last), Turn(data, frames, n, r, after, used, gen, out));
      }
    } else {
      var data, t := EmptyFirstCall(x, channels, last, n, r);
    }
  }

  /** Without input the call takes whatever data_in points at for the first frame, and puts it out. */
  lemma EmptyFirstCall(x: Data, channels: nat, last: seq<real>, n: nat, r: real) returns (data: Data, t: Turn)
    requires channels > 0 && |last| == channels && !BadRatio(r)
    ensures Fed(x, channels, 0, data, 0)
    ensures Called(State(r, 0.0, true, last), channels, data, 0, n, r, t.after, t.used, t.gen, t.out)
    ensures !InStep(x, channels, t.used, t.after.last)
    ensures n > 0 ==> t.gen == 1 && t.out == seq(channels, c requires 0 <= c => x(c) + 1.0)
  {
    data := (i: nat) => x(i) + 1.0;
    var s := State(r, 0.0, true, last);
    var gen := if n > 0 then 1 else 0;
    var first := First(s, data);
    var end := Position(0.0, r, r, n, gen);
    var out := Output(data, first, channels, 0.0, r, r, n, gen);
    var after := State(RatioAfter(r, r, n, gen), end, false,
                       seq(channels, c requires 0 <= c < channels => Sample(data, first, channels, 0, c)));
    t := Turn(data, 0, n, r, after, 0, gen, out);
    assert Position(0.0, r, r, n, 0) == 0.0;
    if n > 0 {
      assert out == Frame(data, first, channels, 0.0);
      assert Position(0.0, r, r, n, 1) > 0.0;
    }
    assert after.last[0] != x(0);
  }
}
