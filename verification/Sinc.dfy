/** The streaming sinc converter of jni/libsamplerate/src_sinc.c at one fixed ratio. */
module Sinc {

  import opened Basics
  import opened Rounding
  import opened SincFilter
  import opened SincReach
  import opened SincWindow

  const TERMINATE_EPSILON := 0.00000000000000000001

  function Max(a: int, b: int): int {
    if a > b then a else b
  }

  function Samples(frames: int, channels: nat): (n: int)
    ensures frames >= 0 ==> n >= 0
  {
    frames * channels
  }

  /** b_len / channels as sinc_set_converter sizes it. */
  function BufferFrames(halfLen: nat, indexInc: nat): int
    requires indexInc >= 1
  {
    Min(1000 + 2 * Lrint(0.5 + (2 * halfLen) as real / indexInc as real * 256.0), 4096)
  }

  lemma BufferFramesBounds(halfLen: nat, indexInc: nat)
    requires indexInc >= 1
    ensures 1000 <= BufferFrames(halfLen, indexInc) <= 4096
  {
    var x := (2 * halfLen) as real / indexInc as real;
    assert x * indexInc as real == (2 * halfLen) as real;
    if x < 0.0 { StrictProduct(-x, indexInc as real); }
    LrintMonotone(0.0, 0.5 + x * 256.0);
    LrintWhole(0);
  }

  class Converter {
    const filter: Filter
    const bLen: nat
    const buffer: array<real>
    var bCurrent: int
    var bEnd: int
    var bRealEnd: int
    var lastRatio: real
    var lastPosition: real

    /** All samples taken, as many frames, and the frame that b_current stands at. */
    ghost var loaded: seq<real>
    ghost var frames: nat
    ghost var centre: nat

    ghost predicate Shaped() {
      && filter.channels > 0 && GoodTable(filter.halfLen, filter.indexInc)
      && bLen <= 4096 * filter.channels && buffer.Length == bLen + filter.channels
    }

    /** half_filter_chan_len fits the buffer. */
    ghost predicate Fits(hf: nat, reach: int) {
      reach >= 1 && hf == Samples(reach, filter.channels) && 4 * hf + 5 <= bLen && buffer.Length >= bLen
    }

    ghost predicate Unloaded()
      reads this`bCurrent, this`bEnd, this`bRealEnd, this`loaded, this`frames, this`centre, buffer
    {
      && bCurrent == 0 && bEnd == 0 && bRealEnd == -1 && loaded == [] && frames == 0 && centre == 0
      && bLen <= buffer.Length && forall i :: 0 <= i < bLen ==> buffer[i] == 0.0
    }

    /** The window invariant. */
    ghost predicate Windowed(hf: nat)
      reads this`bCurrent, this`bEnd, this`bRealEnd, this`loaded, this`frames, this`centre, buffer
    {
      && -1 <= bRealEnd && bCurrent < bLen && bEnd <= bLen && |loaded| == Samples(frames, filter.channels)
      && Window(buffer[..], bCurrent, bEnd, hf, Padded(loaded, bRealEnd >= 0, hf), Samples(centre, filter.channels))
      && (bRealEnd >= 0 ==> bRealEnd == bEnd - hf - 5)
    }

    lemma FitsFacts(hf: nat, reach: int)
      requires Fits(hf, reach) && filter.channels > 0
      ensures hf >= filter.channels && 4 * hf + 5 <= bLen <= buffer.Length && reach >= 1
    {
      FrameFits(reach, filter.channels, hf);
    }

    lemma Loaded(hf: nat)
      requires Windowed(hf) && hf > 0
      ensures 0 < bCurrent <= bEnd
    {
      hide Padded;
    }

    lemma Inside(hf: nat)
      requires Unloaded() || Windowed(hf)
      ensures 0 <= bCurrent <= bEnd && bRealEnd >= -1
      ensures bRealEnd >= 0 || bEnd > bCurrent ==> Windowed(hf)
    {
      hide Padded;
    }

    /** memmove of the window to the start of the buffer. */
    method MoveDown(hf: nat)
      requires Windowed(hf) && hf < bLen
      modifies this`bCurrent, this`bEnd, buffer
      ensures bCurrent == hf && bEnd == hf + old(bEnd - bCurrent)
      ensures bRealEnd < 0 ==> Windowed(hf)
    {
      hide Window, Padded, Samples;
      ghost var z, pos := Padded(loaded, bRealEnd >= 0, hf), Samples(centre, filter.channels);
      WindowInside(buffer[..], bCurrent, bEnd, hf, z, pos);
      var len := bEnd - bCurrent;
      CopyDown(bCurrent - hf, hf + len);
      WindowMoved(old(buffer[..]), buffer[..], bCurrent, bEnd, hf, z, pos);
      bCurrent := hf;
      bEnd := bCurrent + len;
    }

    method CopyDown(from: nat, n: nat)
      requires from + n <= buffer.Length
      modifies buffer
      ensures forall i :: 0 <= i < n ==> buffer[..][i] == old(buffer[..])[from + i]
    {
      forall i | 0 <= i < n {
        buffer[i] := buffer[from + i];
      }
    }

    /** The first half of prepare_data: where to load, and how much there is room for. */
    method MakeRoom(hf: nat, ghost reach: int) returns (len: nat)
      requires Fits(hf, reach) && (Unloaded() || Windowed(hf)) && hf > 0
      requires bRealEnd < 0 && 0 <= bEnd - bCurrent <= hf
      modifies this`bCurrent, this`bEnd, buffer
      ensures Windowed(hf) && bEnd - bCurrent == old(bEnd - bCurrent) && bEnd + len <= bLen
      ensures if old(bCurrent == 0 || bEnd + hf + filter.channels >= bLen) then len == bLen - 2 * hf
              else bEnd + len == bLen + bEnd - bCurrent - hf
    {
      if bCurrent == 0 {
        WindowStarts(buffer[..], hf);
        len := bLen - 2 * hf;
        bCurrent, bEnd := hf, hf;
      } else if bEnd + hf + filter.channels < bLen {
        len := Max(bLen - bCurrent - hf, 0);
      } else {
        MoveDown(hf);
        len := Max(bLen - bCurrent - hf, 0);
      }
    }

    /** memcpy, or memset, to the buffer. */
    method Put(at: nat, xs: seq<real>)
      requires at + |xs| <= buffer.Length
      modifies buffer
      ensures buffer[..][..at] == old(buffer[..])[..at] && buffer[..][at..at + |xs|] == xs
    {
      forall i | 0 <= i < |xs| {
        buffer[at + i] := xs[i];
      }
    }

    method WholeFrames(n: nat) returns (len: nat, ghost whole: nat)
      requires filter.channels > 0
      ensures len == Samples(whole, filter.channels) && len <= n < len + filter.channels
    {
      whole := n / filter.channels;
      len := n - n % filter.channels;
    }

    /** The second half: copy whole frames of input. */
    method Load(dataIn: seq<real>, inUsed0: nat, hf: nat, room: nat) returns (inUsed: nat)
      requires Windowed(hf) && bRealEnd < 0 && bEnd + room <= bLen <= buffer.Length && inUsed0 <= |dataIn|
      requires filter.channels > 0
      modifies this`bEnd, this`loaded, this`frames, buffer
      ensures Windowed(hf) && inUsed0 <= inUsed <= |dataIn| && loaded == old(loaded) + dataIn[inUsed0..inUsed]
      ensures inUsed + filter.channels > |dataIn| || bEnd > old(bEnd) + room - filter.channels
      ensures bEnd == old(bEnd) + inUsed - inUsed0
    {
      hide Window, Padded, Samples;
      WindowInside(buffer[..], bCurrent, bEnd, hf, Padded(loaded, bRealEnd >= 0, hf), Samples(centre, filter.channels));
      var len, whole := WholeFrames(Min(|dataIn| - inUsed0, room));
      var xs := dataIn[inUsed0..inUsed0 + len];
      Put(bEnd, xs);
      WindowAppended(old(buffer[..]), buffer[..], bCurrent, bEnd, hf, Padded(loaded, false, hf),
                     Samples(centre, filter.channels), xs);
      PaddedAppend(loaded, hf, xs);
      bEnd := bEnd + len;
      inUsed := inUsed0 + len;
      loaded := loaded + xs;
      MoreSamples(frames, whole, filter.channels);
      frames := frames + whole;
    }

    /** The tail of prepare_data: zeros after the last input. */
    method PadTail(hf: nat, ghost reach: int)
      requires Fits(hf, reach) && Windowed(hf) && bRealEnd < 0 && bEnd - bCurrent < 2 * hf
      modifies this`bCurrent, this`bEnd, this`bRealEnd, buffer
      ensures Windowed(hf) && bRealEnd >= 0
    {
      hide Window, Padded, Samples;
      WindowInside(buffer[..], bCurrent, bEnd, hf, Padded(loaded, bRealEnd >= 0, hf), Samples(centre, filter.channels));
      if bLen - bEnd < hf + 5 {
        MoveDown(hf);
      }
      ghost var b := buffer[..];
      bRealEnd := bEnd;
      var len := hf + 5;
      Put(bEnd, Zeros(len));
      WindowAppended(b, buffer[..], bCurrent, bEnd, hf, Padded(loaded, false, hf), Samples(centre, filter.channels),
                     Zeros(len));
      PaddedAppend(loaded, hf, []);
      bEnd := bEnd + len;
    }

    /** prepare_data: the window stays a slice of the padded stream; zeros go in only behind the last input. */
    method PrepareData(dataIn: seq<real>, inUsed0: nat, endOfInput: bool, hf: nat, ghost reach: int)
      returns (inUsed: nat)
      requires Shaped() && Fits(hf, reach) && (Unloaded() || Windowed(hf)) && hf > 0 && inUsed0 <= |dataIn|
      requires bEnd - bCurrent <= hf
      modifies this`bCurrent, this`bEnd, this`bRealEnd, this`loaded, this`frames, buffer
      ensures Windowed(hf) && inUsed0 <= inUsed <= |dataIn| && loaded == old(loaded) + dataIn[inUsed0..inUsed]
      ensures old(bRealEnd) >= 0 ==> bRealEnd >= 0 && loaded == old(loaded)
      ensures old(bRealEnd) < 0 <= bRealEnd ==> inUsed == |dataIn| && endOfInput
      ensures bRealEnd < 0 && bEnd - bCurrent < 2 * hf ==> !(inUsed == |dataIn| && endOfInput)
      ensures bRealEnd < 0 && bEnd - bCurrent <= hf ==>
                (|| inUsed + filter.channels > |dataIn|
                 || (bEnd + hf + filter.channels >= bLen && old(bCurrent != 0 && bEnd + hf + filter.channels < bLen)))
    {
      hide Windowed, Unloaded, Fits;
      inUsed := inUsed0;
      FitsFacts(hf, reach);
      Inside(hf);
      if bRealEnd >= 0 {
        return;
      }
      var room := MakeRoom(hf, reach);
      inUsed := Load(dataIn, inUsed, hf, room);
      if inUsed == |dataIn| && bEnd - bCurrent < 2 * hf && endOfInput {
        PadTail(hf, reach);
      }
    }

    /** One output frame: every channel through the filter. */
    method EmitFrame(dataOut: array<real>, outGen: nat, r: real, index: real, hf: nat, ghost reach: int)
      requires Shaped() && Fits(hf, reach) && Windowed(hf) && GoodRatio(r) && 0.0 <= index < 1.0
      requires reach == Reach(filter.halfLen, filter.indexInc, r) && Settled(filter, loaded, bRealEnd >= 0, r, centre)
      requires dataOut != buffer && outGen + filter.channels <= dataOut.Length
      modifies dataOut
      ensures dataOut[..outGen + filter.channels] ==
              old(dataOut[..outGen]) + FilteredFrame(filter, loaded, r, centre as real + index)
    {
      hide Window, Padded, Settled, Windowed, FilterSum, Filtered, StreamTap, DoubleToFp, FloatIncrement, Scaled, Reach;
      ReachFits(bLen, hf, reach, filter.channels);
      var floatIncrement := FloatIncrement(filter.indexInc, r);
      var increment := DoubleToFp(floatIncrement);
      var start := DoubleToFp(Scaled(index, floatIncrement));
      ghost var f := FilteredFrame(filter, loaded, r, centre as real + index);
      var ch := 0;
      while ch < filter.channels
        invariant 0 <= ch <= filter.channels
        invariant forall i :: 0 <= i < outGen ==> dataOut[i] == old(dataOut[i])
        invariant forall i :: outGen <= i < outGen + ch ==> dataOut[i] == f[i - outGen]
      {
        var y := FilterChannel(increment, start, r, index, ch, hf, reach);
        dataOut[outGen + ch] := Scaled(floatIncrement / filter.indexInc as real, y);
        assert f[ch] == Filtered(filter, loaded, r, centre as real + index, ch);
        FilteredAt(filter, loaded, r, centre, index, ch, y);
        ch := ch + 1;
      }
    }

    /** calc_output on the window is the filter sum on the stream. */
    method FilterChannel(increment: int, start: int, ghost r: real, ghost index: real, ch: nat, ghost hf: nat,
                         ghost reach: int) returns (y: real)
      requires Shaped() && Fits(hf, reach) && Windowed(hf) && GoodRatio(r) && 0.0 <= index < 1.0 && ch < filter.channels
      requires reach == Reach(filter.halfLen, filter.indexInc, r) && Settled(filter, loaded, bRealEnd >= 0, r, centre)
      requires reach < 1024
      requires increment == Increment(filter.indexInc, r) && start == Start(filter.indexInc, r, index)
      ensures y == FilterSum(filter.coeffs, IntToFp(filter.halfLen), increment, start,
                             StreamTap(loaded, filter.channels, centre, ch), -reach, reach + 1)
    {
      hide Window, Padded, Settled, FilterSum, Leftmost, Rightmost, Increment, Start, Reach, IntToFp, Tap, StreamTap;
      hide InBounds;
      WindowInside(buffer[..], bCurrent, bEnd, hf, Padded(loaded, bRealEnd >= 0, hf), Samples(centre, filter.channels));
      ReachEnough(filter.halfLen, filter.indexInc, r, index);
      ghost var max := IntToFp(filter.halfLen);
      ReachSigns(max, increment, start);
      forall j | -reach <= j <= reach
        ensures InBounds(buffer.Length, bCurrent, filter.channels, ch, j)
        ensures Tap(buffer[..], bCurrent, filter.channels, ch)(j) == StreamTap(loaded, filter.channels, centre, ch)(j)
      {
        TapsAgree(buffer[..], bCurrent, bEnd, hf, filter, r, reach, loaded, frames, bRealEnd >= 0, centre, ch, j);
      }
      y := CalcOutput(filter.coeffs, filter.halfLen, buffer, bCurrent, filter.channels, increment, start, ch);
      SumCongruent(filter.coeffs, max, increment, start, Tap(buffer[..], bCurrent, filter.channels, ch),
                   StreamTap(loaded, filter.channels, centre, ch), -reach, reach + 1);
    }

    /** What has been taken, whether the input has ended, and the position in it. */
    ghost function Abstract(): State
      reads this
    {
      State(loaded, bRealEnd >= 0, centre as real + lastPosition)
    }

    /** The converter between two calls at ratio r. */
    ghost predicate Valid(r: real)
      reads this, buffer
      requires filter.indexInc >= 1 && r > 0.0
    {
      var reach := Reach(filter.halfLen, filter.indexInc, r);
      && Shaped() && reach >= 1 && Fits(Samples(reach, filter.channels), reach)
      && 0.0 <= lastPosition < 1.0
      && (if bCurrent == 0 then Unloaded() && lastPosition == 0.0 else Windowed(Samples(reach, filter.channels)))
    }

    /** sinc_set_converter and src_reset */
    constructor (filter: Filter)
      requires filter.channels > 0 && GoodTable(filter.halfLen, filter.indexInc)
      ensures this.filter == filter && fresh(buffer) && Shaped() && Unloaded()
      ensures bLen == BufferFrames(filter.halfLen, filter.indexInc) * filter.channels && lastPosition == 0.0
      ensures lastRatio == 0.0
    {
      BufferFramesBounds(filter.halfLen, filter.indexInc);
      BufferSize(BufferFrames(filter.halfLen, filter.indexInc), filter.channels);
      this.filter := filter;
      bLen := BufferFrames(filter.halfLen, filter.indexInc) * filter.channels;
      buffer := new real[BufferFrames(filter.halfLen, filter.indexInc) * filter.channels + filter.channels](i => 0.0);
      bCurrent, bEnd, bRealEnd, lastRatio, lastPosition := 0, 0, -1, 0.0, 0.0;
      loaded, frames, centre := [], 0, 0;
    }

    /** src_reset with sinc_reset */
    method Reset()
      requires Shaped()
      modifies this, buffer
      ensures Unloaded() && lastPosition == 0.0 && lastRatio == 0.0
    {
      bCurrent, bEnd, bRealEnd := 0, 0, -1;
      Put(0, Zeros(bLen));
      assert forall i :: 0 <= i < bLen ==> buffer[..][0..bLen][i] == buffer[i];
      lastPosition, lastRatio := 0.0, 0.0;
      loaded, frames, centre := [], 0, 0;
    }

    /** The first src_process call sets the ratio; the filter at that ratio must fit the buffer. */
    method SetRatio(ratio: real)
      requires Shaped() && Unloaded() && lastPosition == 0.0 && GoodRatio(ratio)
      requires 4 * Samples(Reach(filter.halfLen, filter.indexInc, ratio), filter.channels) + 5 <= bLen
      modifies this`lastRatio
      ensures lastRatio == if old(lastRatio) < 1.0 / 256.0 then ratio else old(lastRatio)
      ensures lastRatio == ratio ==> Valid(lastRatio)
    {
      ReachReal(filter.halfLen, filter.indexInc, ratio);
      hide Reach;
      if lastRatio < 1.0 / 256.0 {
        lastRatio := ratio;
      }
    }

    /** Moving on by one output: the whole part of the index goes into b_current. */
    method Advance(r: real, index0: real, hf: nat, ghost reach: int) returns (index: real)
      requires Shaped() && Fits(hf, reach) && Windowed(hf) && GoodRatio(r) && 0.0 <= index0 < 1.0
      requires reach == Reach(filter.halfLen, filter.indexInc, r) && bEnd - bCurrent > hf
      modifies this`bCurrent, this`centre
      ensures Windowed(hf) && 0.0 <= index < 1.0 && bCurrent > 0
      ensures centre as real + index == old(centre) as real + index0 + 1.0 / r
    {
      hide Window, Padded, Reach, FmodOne, Lrint, GoodTable, GoodRatio;
      ghost var z := Padded(loaded, bRealEnd >= 0, hf);
      WindowInside(buffer[..], bCurrent, bEnd, hf, z, Samples(centre, filter.channels));
      var whole;
      whole, index := WholePart(r, index0, reach);
      SlideBounds(bCurrent, bEnd, bLen, hf, reach, filter.channels, whole, centre);
      WindowSlides(buffer[..], bCurrent, bEnd, hf, z, Samples(centre, filter.channels), filter.channels * whole);
      bCurrent := (bCurrent + filter.channels * whole) % bLen;
      centre := centre + whole;
    }

    method WholePart(r: real, index0: real, ghost reach: int) returns (whole: int, rem: real)
      requires GoodTable(filter.halfLen, filter.indexInc) && GoodRatio(r) && 0.0 <= index0 < 1.0
      requires reach == Reach(filter.halfLen, filter.indexInc, r)
      ensures 0 <= whole <= reach && 0.0 <= rem < 1.0 && whole as real + rem == index0 + 1.0 / r
    {
      hide Reach, FmodOne, Lrint;
      StepShort(filter.halfLen, filter.indexInc, r, index0);
      var index := index0 + 1.0 / r;
      WholeAndFraction(index);
      rem := FmodOne(index);
      whole := Lrint(index - rem);
    }

    /** samples_in_hand */
    method InHand(ghost hf: nat, ghost reach: int) returns (n: int)
      requires Fits(hf, reach) && hf > 0 && (Windowed(hf) || Unloaded())
      ensures n == bEnd - bCurrent
    {
      ModSmall(bEnd - bCurrent, bLen);
      n := (bEnd - bCurrent + bLen) % bLen;
    }

    /** With more than hf samples in hand, and before the end, all that the filter needs is there. */
    lemma Ready(r: real, hf: nat, reach: int)
      requires Shaped() && Fits(hf, reach) && Windowed(hf) && GoodRatio(r)
      requires reach == Reach(filter.halfLen, filter.indexInc, r) && bEnd - bCurrent > hf
      requires bRealEnd >= 0 ==> bCurrent < bRealEnd
      ensures Settled(filter, loaded, bRealEnd >= 0, r, centre)
    {
      hide Reach;
      var ch := filter.channels;
      PaddedLength(loaded, bRealEnd >= 0, hf);
      if bRealEnd < 0 {
        assert frames * ch - centre * ch > reach * ch;
        assert (centre + reach) * ch == centre * ch + reach * ch;
        if frames <= centre + reach { MulOrder(frames, centre + reach, ch); }
        MulOrder(centre + reach + 1, frames, ch);
      }
    }

    /** The state inside a call. */
    ghost predicate Between(r: real, hf: nat, index: real)
      reads this`bCurrent, this`bEnd, this`bRealEnd, this`loaded, this`frames, this`centre, buffer
    {
      && 0.0 <= index < 1.0
      && (if bCurrent == 0 then Unloaded() && index == 0.0 else Windowed(hf))
    }

    /** Why a call stops before the output is full: the input has run out, or the window must be moved
        down first, or the next output would come too close to the end of the input. */
    ghost predicate Stopped(available: nat, inUsed: nat, endOfInput: bool, r: real, index: real, hf: nat, reach: int)
      reads this`bEnd, this`bRealEnd, this`loaded, this`centre
      requires r > 0.0
    {
      var ch := filter.channels;
      if bRealEnd >= 0 then (|loaded| - centre * ch) as real <= index + 1.0 / r + TERMINATE_EPSILON
      else
        && (centre + reach + 1) * ch > |loaded| && !(endOfInput && inUsed == available)
        && (inUsed + ch > available || bEnd + hf + ch >= bLen)
    }

    method HalfFilter(r: real) returns (hf: nat, ghost reach: int)
      requires Shaped() && GoodRatio(r)
      ensures reach == Reach(filter.halfLen, filter.indexInc, r) >= 1 && hf == Samples(reach, filter.channels) && hf > 0
    {
      hide Lrint, Count;
      ReachReal(filter.halfLen, filter.indexInc, r);
      reach := Reach(filter.halfLen, filter.indexInc, r);
      MulOrder(1, reach, filter.channels);
      hf := filter.channels * (Lrint(Count(filter.halfLen, filter.indexInc, r)) + 1);
    }

    lemma StopsAtEnd(available: nat, inUsed: nat, endOfInput: bool, r: real, index: real, hf: nat, reach: int)
      requires r > 0.0 && Windowed(hf) && bRealEnd >= 0
      requires bCurrent as real + index + 1.0 / r + TERMINATE_EPSILON >= bRealEnd as real
      ensures Stopped(available, inUsed, endOfInput, r, index, hf, reach)
    {
      PaddedLength(loaded, true, hf);
      WindowInside(buffer[..], bCurrent, bEnd, hf, Padded(loaded, true, hf), Samples(centre, filter.channels));
      hide Window, Padded;
    }

    lemma GoesOn(r: real, index: real, hf: nat)
      requires r > 0.0 && Windowed(hf) && bRealEnd >= 0 && 0.0 <= index < 1.0
      requires bCurrent as real + index + 1.0 / r + TERMINATE_EPSILON < bRealEnd as real
      ensures !AtEnd(filter, |loaded|, r, centre as real + index)
    {
      PaddedLength(loaded, true, hf);
      WindowInside(buffer[..], bCurrent, bEnd, hf, Padded(loaded, true, hf), Samples(centre, filter.channels));
      FloorShift(centre, index);
      hide Window, Padded;
    }

    /** Where a call stops after the end of the input is a matter of the position alone. */
    lemma StoppedAtEnd(available: nat, inUsed: nat, endOfInput: bool, r: real, index: real, hf: nat, reach: int)
      requires r > 0.0 && bRealEnd >= 0 && 0.0 <= index < 1.0
      ensures Stopped(available, inUsed, endOfInput, r, index, hf, reach)
              <==> AtEnd(filter, |loaded|, r, centre as real + index)
    {
      FloorShift(centre, index);
    }

    lemma StopsShort(available: nat, inUsed: nat, endOfInput: bool, r: real, index: real, hf: nat, reach: int)
      requires filter.channels > 0 && r > 0.0 && Windowed(hf) && bEnd - bCurrent <= hf && Fits(hf, reach)
      requires index >= 0.0
      requires bRealEnd < 0 ==> !(endOfInput && inUsed == available)
      requires bRealEnd < 0 ==> inUsed + filter.channels > available || bEnd + hf + filter.channels >= bLen
      ensures Stopped(available, inUsed, endOfInput, r, index, hf, reach)
    {
      PaddedLength(loaded, bRealEnd >= 0, hf);
      WindowInside(buffer[..], bCurrent, bEnd, hf, Padded(loaded, bRealEnd >= 0, hf), Samples(centre, filter.channels));
      hide Window, Padded;
      assert (centre + reach + 1) * filter.channels == Samples(centre, filter.channels) + hf + filter.channels;
      Quotient(1.0, r, 0.0);
    }

    /** The top of the loop: reload when too little is in hand, and stop when there is nothing to put out. */
    method Reload(dataIn: seq<real>, inUsed0: nat, endOfInput: bool, r: real, index: real, hf: nat, ghost reach: int,
                  ghost start: real, ghost k: nat, ghost out: seq<real>) returns (inUsed: nat, ready: bool)
      requires Shaped() && Fits(hf, reach) && hf > 0 && GoodRatio(r) && Between(r, hf, index) && inUsed0 <= |dataIn|
      requires reach == Reach(filter.halfLen, filter.indexInc, r)
      requires Emitted(filter, loaded, bRealEnd >= 0, r, start, k, out)
      modifies this`bCurrent, this`bEnd, this`bRealEnd, this`loaded, this`frames, buffer
      ensures Between(r, hf, index) && inUsed0 <= inUsed <= |dataIn| && loaded == old(loaded) + dataIn[inUsed0..inUsed]
      ensures old(bRealEnd) >= 0 ==> bRealEnd >= 0 && loaded == old(loaded)
      ensures old(bRealEnd) < 0 <= bRealEnd ==> inUsed == |dataIn| && endOfInput
      ensures Emitted(filter, loaded, bRealEnd >= 0, r, start, k, out)
      ensures ready ==> Windowed(hf) && bEnd - bCurrent > hf && Settled(filter, loaded, bRealEnd >= 0, r, centre)
      ensures ready && bRealEnd >= 0 ==> !AtEnd(filter, |loaded|, r, centre as real + index)
      ensures !ready ==> Stopped(|dataIn|, inUsed, endOfInput, r, index, hf, reach)
    {
      hide Emitted, Settled, Reach, Stopped, Windowed, Unloaded, Fits, AtEnd;
      inUsed, ready := inUsed0, false;
      Inside(hf);
      FitsFacts(hf, reach);
      assert dataIn[inUsed0..inUsed0] == [] && loaded + [] == loaded;
      var inHand := InHand(hf, reach);
      if inHand <= hf {
        inUsed := PrepareData(dataIn, inUsed, endOfInput, hf, reach);
        if old(bRealEnd) < 0 {
          EmittedMore(filter, old(loaded), dataIn[inUsed0..inUsed], bRealEnd >= 0, r, start, k, out);
        }
        Loaded(hf);
        inHand := InHand(hf, reach);
        if inHand <= hf {
          StopsShort(|dataIn|, inUsed, endOfInput, r, index, hf, reach);
          return;
        }
      }
      if bRealEnd >= 0 {
        var terminate := 1.0 / r + TERMINATE_EPSILON;
        assert 1.0 / r > 0.0 by { Quotient(1.0, r, 0.0); }
        if bCurrent as real + index + terminate >= bRealEnd as real {
          StopsAtEnd(|dataIn|, inUsed, endOfInput, r, index, hf, reach);
          return;
        }
        GoesOn(r, index, hf);
      }
      Ready(r, hf, reach);
      ready := true;
    }

    /** One turn of the main loop. */
    method Turn(dataIn: seq<real>, inUsed0: nat, endOfInput: bool, dataOut: array<real>, outGen0: nat, r: real,
                index0: real, hf: nat, ghost reach: int, ghost start: real, ghost k: nat)
      returns (inUsed: nat, outGen: nat, index: real, ready: bool)
      requires Shaped() && Fits(hf, reach) && hf > 0 && GoodRatio(r) && Between(r, hf, index0) && inUsed0 <= |dataIn|
      requires reach == Reach(filter.halfLen, filter.indexInc, r)
      requires dataOut != buffer && outGen0 + filter.channels <= dataOut.Length
      requires Emitted(filter, loaded, bRealEnd >= 0, r, start, k, dataOut[..outGen0])
      requires centre as real + index0 == start + k as real / r
      modifies this`bCurrent, this`bEnd, this`bRealEnd, this`loaded, this`frames, this`centre, buffer, dataOut
      ensures Between(r, hf, index) && inUsed0 <= inUsed <= |dataIn| && loaded == old(loaded) + dataIn[inUsed0..inUsed]
      ensures old(bRealEnd) >= 0 ==> bRealEnd >= 0 && loaded == old(loaded)
      ensures old(bRealEnd) < 0 <= bRealEnd ==> inUsed == |dataIn| && endOfInput
      ensures outGen == outGen0 + if ready then filter.channels else 0
      ensures Emitted(filter, loaded, bRealEnd >= 0, r, start, if ready then k + 1 else k, dataOut[..outGen])
      ensures centre as real + index == start + (if ready then k + 1 else k) as real / r
      ensures !ready ==> Stopped(|dataIn|, inUsed, endOfInput, r, index, hf, reach)
    {
      hide Unloaded, Windowed, Emitted, Reach, Settled, GoodRatio, Stopped;
      outGen, index := outGen0, index0;
      inUsed, ready := Reload(dataIn, inUsed0, endOfInput, r, index, hf, reach, start, k, dataOut[..outGen]);
      if ready {
        assert r > 0.0 by { RatioPositive(r); }
        EmittedNext(filter, loaded, bRealEnd >= 0, r, start, k, dataOut[..outGen], centre, index);
        EmitFrame(dataOut, outGen, r, index, hf, reach);
        outGen := outGen + filter.channels;
        index := Advance(r, index, hf, reach);
      }
    }

    /** The main loop. */
    method Fill(dataIn: seq<real>, endOfInput: bool, dataOut: array<real>, n: nat, r: real, hf: nat, ghost reach: int,
                ghost start: real)
      returns (inUsed: nat, gen: nat, index: real)
      requires Shaped() && Fits(hf, reach) && hf > 0 && GoodRatio(r) && r > 0.0 && Between(r, hf, lastPosition)
      requires reach == Reach(filter.halfLen, filter.indexInc, r) && start == centre as real + lastPosition
      requires dataOut != buffer && Samples(n, filter.channels) <= dataOut.Length
      modifies this`bCurrent, this`bEnd, this`bRealEnd, this`loaded, this`frames, this`centre, buffer, dataOut
      ensures Between(r, hf, index)
      ensures gen <= n && Samples(gen, filter.channels) <= dataOut.Length && inUsed <= |dataIn|
      ensures loaded == old(loaded) + dataIn[..inUsed]
      ensures Emitted(filter, loaded, bRealEnd >= 0, r, start, gen, dataOut[..Samples(gen, filter.channels)])
      ensures centre as real + index == start + gen as real / r
      ensures old(bRealEnd) >= 0 ==> bRealEnd >= 0 && loaded == old(loaded)
      ensures old(bRealEnd) < 0 <= bRealEnd ==> endOfInput && inUsed == |dataIn|
      ensures gen < n ==> Stopped(|dataIn|, inUsed, endOfInput, r, index, hf, reach)
    {
      hide Between, Emitted, Reach, GoodRatio, Fits, Stopped, Samples;
      var outCount, outGen := Samples(n, filter.channels), 0;
      index, gen, inUsed := lastPosition, 0, 0;
      EmittedNone(filter, loaded, bRealEnd >= 0, r, start);
      assert dataOut[..0] == [] && dataIn[..0] == [] && loaded + [] == loaded;
      RoomForOne(0, n, filter.channels);
      while outGen < outCount
        invariant Between(r, hf, index)
        invariant gen <= n && outGen == Samples(gen, filter.channels) && outGen <= dataOut.Length
        invariant outGen < outCount <==> gen < n
        invariant inUsed <= |dataIn| && loaded == old(loaded) + dataIn[..inUsed]
        invariant Emitted(filter, loaded, bRealEnd >= 0, r, start, gen, dataOut[..outGen])
        invariant centre as real + index == start + gen as real / r
        invariant old(bRealEnd) >= 0 ==> bRealEnd >= 0 && loaded == old(loaded)
        invariant old(bRealEnd) < 0 <= bRealEnd ==> endOfInput && inUsed == |dataIn|
        decreases n - gen
      {
        RoomForOne(gen, n, filter.channels);
        var ready;
        ghost var used0 := inUsed;
        inUsed, outGen, index, ready :=
          Turn(dataIn, inUsed, endOfInput, dataOut, outGen, r, index, hf, reach, start, gen);
        assert dataIn[..used0] + dataIn[used0..inUsed] == dataIn[..inUsed];
        if !ready {
          break;
        }
        gen := gen + 1;
        RoomForOne(gen, n, filter.channels);
      }
    }

    /** sinc_vari_process at a fixed ratio: what it takes, what it puts out, where it then stands and why it stops. */
    method Process(dataIn: seq<real>, endOfInput: bool, dataOut: array<real>, n: nat) returns (inUsed: nat, gen: nat)
      requires filter.indexInc >= 1 && GoodRatio(lastRatio) && Valid(lastRatio)
      requires dataOut != buffer && Samples(n, filter.channels) <= dataOut.Length
      modifies this`bCurrent, this`bEnd, this`bRealEnd, this`lastPosition, this`loaded, this`frames, this`centre,
               buffer, dataOut
      ensures Valid(lastRatio)
      ensures gen <= n && Samples(gen, filter.channels) <= dataOut.Length && inUsed <= |dataIn|
      ensures Called(filter, lastRatio, old(Abstract()), dataIn[..inUsed], gen,
                     dataOut[..Samples(gen, filter.channels)], Abstract())
      ensures old(bRealEnd) < 0 <= bRealEnd ==> endOfInput && inUsed == |dataIn|
      ensures gen < n ==>
                var reach := Reach(filter.halfLen, filter.indexInc, lastRatio);
                reach >= 1 && Stopped(|dataIn|, inUsed, endOfInput, lastRatio, lastPosition,
                                      Samples(reach, filter.channels), reach)
      ensures gen < n && bRealEnd >= 0 ==> Complete(filter, lastRatio, Abstract())
    {
      hide Valid, Between, Emitted, Reach, GoodRatio, Fits, Stopped, Called, Samples;
      RatioPositive(lastRatio);
      Begins(lastRatio);
      var hf, reach := HalfFilter(lastRatio);
      var index;
      inUsed, gen, index := Fill(dataIn, endOfInput, dataOut, n, lastRatio, hf, reach, centre as real + lastPosition);
      lastPosition := index;
      Ends(lastRatio);
      CallDone(filter, lastRatio, old(Abstract()), dataIn[..inUsed], gen, dataOut[..Samples(gen, filter.channels)],
               Abstract());
      if gen < n && bRealEnd >= 0 {
        IndexInside(lastRatio, hf, index);
        StoppedAtEnd(|dataIn|, inUsed, endOfInput, lastRatio, index, hf, reach);
      }
    }

    lemma IndexInside(r: real, hf: nat, index: real)
      requires Between(r, hf, index)
      ensures 0.0 <= index < 1.0
    {}

    lemma Begins(r: real)
      requires filter.indexInc >= 1 && r > 0.0 && Valid(r)
      ensures var reach := Reach(filter.halfLen, filter.indexInc, r);
              var hf := Samples(reach, filter.channels);
              Shaped() && hf >= 0 && Fits(hf, reach) && Between(r, hf, lastPosition)
    {
      hide Reach, Unloaded, Windowed;
    }

    lemma Ends(r: real)
      requires filter.indexInc >= 1 && r > 0.0 && Shaped()
      requires var reach := Reach(filter.halfLen, filter.indexInc, r);
               var hf := Samples(reach, filter.channels);
               hf >= 0 && Fits(hf, reach) && Between(r, hf, lastPosition)
      ensures Valid(r)
    {
      hide Reach, Unloaded, Windowed;
    }
  }

  /** The test that ends the output: position p is too close to the end of the input. The code compares samples with
      frames, so the whole part of p counts once for each channel and its fraction once. */
  predicate AtEnd(f: Filter, len: nat, r: real, p: real)
    requires r > 0.0
  {
    (len - p.Floor * f.channels) as real <= (p - p.Floor as real) + 1.0 / r + TERMINATE_EPSILON
  }

  /** k frames are out, and nothing that comes later changes them; after the end of the input the last of them was not
      too close to it. */
  ghost predicate Emitted(f: Filter, loaded: seq<real>, ended: bool, r: real, start: real, k: nat, out: seq<real>)
    requires f.indexInc >= 1 && r > 0.0
  {
    && out == FilteredFrames(f, loaded, r, start, k)
    && (k > 0 ==> Settled(f, loaded, ended, r, (start + (k - 1) as real / r).Floor))
    && (k > 0 && ended ==> !AtEnd(f, |loaded|, r, start + (k - 1) as real / r))
  }

  /** All that the filter reaches from p has been taken: p is far from the end. */
  lemma SettledNotAtEnd(f: Filter, loaded: seq<real>, len: nat, r: real, p: real)
    requires GoodTable(f.halfLen, f.indexInc) && GoodRatio(r) && r > 0.0 && f.channels > 0 && |loaded| <= len
    requires Settled(f, loaded, false, r, p.Floor)
    ensures !AtEnd(f, len, r, p)
  {
    var c, reach := p.Floor, Reach(f.halfLen, f.indexInc, r);
    ReachPastStep(f.halfLen, f.indexInc, r);
    ReachReal(f.halfLen, f.indexInc, r);
    hide Reach;
    MulOrder(1, f.channels, reach + 1);
    assert (c + reach + 1) * f.channels == c * f.channels + (reach + 1) * f.channels;
  }

  /** The farther on, the closer to the end. */
  lemma AtEndLater(f: Filter, len: nat, r: real, p: real, q: real)
    requires r > 0.0 && f.channels > 0 && p <= q && AtEnd(f, len, r, p)
    ensures AtEnd(f, len, r, q)
  {
    var a, b := p.Floor, q.Floor;
    assert a <= b;
    if a < b {
      MulOrder(a + 1, b, f.channels);
      MulOrder(1, f.channels, b - a);
      assert b * f.channels == a * f.channels + (b - a) * f.channels;
    }
  }

  datatype State = State(loaded: seq<real>, ended: bool, position: real)

  /** One call that takes these samples and puts out `gen` frames. */
  ghost predicate Called(f: Filter, r: real, s: State, taken: seq<real>, gen: nat, out: seq<real>, s': State)
    requires f.indexInc >= 1 && r > 0.0
  {
    && s'.loaded == s.loaded + taken && (s.ended ==> s'.ended && s'.loaded == s.loaded)
    && Emitted(f, s'.loaded, s'.ended, r, s.position, gen, out)
    && s'.position == s.position + gen as real / r
  }

  lemma CallDone(f: Filter, r: real, s: State, taken: seq<real>, gen: nat, out: seq<real>, s': State)
    requires f.indexInc >= 1 && r > 0.0 && s'.loaded == s.loaded + taken
    requires s.ended ==> s'.ended && s'.loaded == s.loaded
    requires Emitted(f, s'.loaded, s'.ended, r, s.position, gen, out) && s'.position == s.position + gen as real / r
    ensures Called(f, r, s, taken, gen, out, s')
  {
    hide Emitted;
  }

  lemma EmittedMore(f: Filter, loaded: seq<real>, more: seq<real>, ended: bool, r: real, start: real, k: nat,
                    out: seq<real>)
    requires GoodTable(f.halfLen, f.indexInc) && GoodRatio(r) && r > 0.0 && f.channels > 0
    requires Reach(f.halfLen, f.indexInc, r) >= 1 && Emitted(f, loaded, false, r, start, k, out)
    ensures Emitted(f, loaded + more, ended, r, start, k, out)
  {
    hide FilteredFrames, Reach, AtEnd;
    FramesSettled(f, loaded, more, r, start, k);
    if k > 0 {
      SettledNotAtEnd(f, loaded, |loaded + more|, r, start + (k - 1) as real / r);
      var c, reach := (start + (k - 1) as real / r).Floor, Reach(f.halfLen, f.indexInc, r);
      MulOrder(c + 1, c + reach + 1, f.channels);
      assert (c + 1) * f.channels == c * f.channels + f.channels;
    }
  }

  lemma EmittedNone(f: Filter, loaded: seq<real>, ended: bool, r: real, start: real)
    requires f.indexInc >= 1 && r > 0.0
    ensures Emitted(f, loaded, ended, r, start, 0, []) && start + 0 as real / r == start
  {}

  lemma RoomForOne(k: nat, n: nat, channels: nat)
    requires channels > 0 && k <= n
    ensures Samples(k, channels) <= Samples(n, channels) && (Samples(k, channels) < Samples(n, channels) <==> k < n)
    ensures k < n ==> Samples(k, channels) + channels <= Samples(n, channels)
    ensures Samples(k + 1, channels) == Samples(k, channels) + channels && Samples(0, channels) == 0
  {
    if k < n { MulOrder(k + 1, n, channels); }
  }

  lemma FrameFits(reach: int, channels: nat, hf: nat)
    requires reach >= 1 && hf == reach * channels && channels > 0
    ensures hf >= channels
  {
    MulOrder(1, reach, channels);
  }

  lemma RatioPositive(r: real)
    requires GoodRatio(r)
    ensures r > 0.0
  {}

  lemma EmittedNext(f: Filter, loaded: seq<real>, ended: bool, r: real, start: real, k: nat, out: seq<real>,
                    centre: nat, index: real)
    requires f.indexInc >= 1 && r > 0.0 && Emitted(f, loaded, ended, r, start, k, out)
    requires centre as real + index == start + k as real / r && 0.0 <= index < 1.0
    requires Settled(f, loaded, ended, r, centre)
    requires ended ==> !AtEnd(f, |loaded|, r, centre as real + index)
    ensures Emitted(f, loaded, ended, r, start, k + 1, out + FilteredFrame(f, loaded, r, centre as real + index))
    ensures start + (k + 1) as real / r == start + k as real / r + 1.0 / r
  {
    hide FilteredFrame, Settled, AtEnd;
    FloorShift(centre, index);
    assert (k + 1) as real / r == k as real / r + 1.0 / r;
  }

  lemma SlideBounds(current: int, end: int, bLen: int, hf: nat, reach: int, channels: nat, step: int, centre: nat)
    requires channels > 0 && 0 <= step <= reach && hf == reach * channels && 0 < current && end - current > hf
    requires end <= bLen
    ensures 0 <= channels * step && current + channels * step < end
    ensures (current + channels * step) % bLen == current + channels * step
    ensures (centre + step) * channels == centre * channels + channels * step
  {
    OffsetInside(channels, reach, step);
    OffsetInside(channels, step, step);
    MulOrder(0, step, channels);
    ModSmall(current + channels * step, bLen);
  }

  lemma BufferSize(n: int, channels: nat)
    requires 1000 <= n <= 4096 && channels > 0
    ensures 0 < n * channels <= 4096 * channels
  {
    MulOrder(n, 4096, channels);
    MulOrder(1, n, channels);
  }

  lemma MoreSamples(a: nat, b: nat, channels: nat)
    ensures Samples(a + b, channels) == Samples(a, channels) + Samples(b, channels)
  {}

  lemma ModSmall(a: int, m: int)
    requires 0 <= a < m
    ensures a % m == a && (a + m) % m == a
  {}

  lemma PaddedLength(loaded: seq<real>, ended: bool, hf: nat)
    ensures |Padded(loaded, ended, hf)| == hf + |loaded| + if ended then hf + 5 else 0
  {}

  lemma ReachFits(bLen: nat, hf: nat, reach: int, channels: nat)
    requires reach >= 1 && hf == reach * channels && 4 * hf + 5 <= bLen <= 4096 * channels && channels > 0
    ensures reach < 1024
  {
    if reach >= 1024 { MulOrder(1024, reach, channels); }
  }

  lemma FilteredAt(f: Filter, loaded: seq<real>, r: real, centre: nat, index: real, c: nat, y: real)
    requires f.indexInc >= 1 && r > 0.0 && 0.0 <= index < 1.0
    requires y == FilterSum(f.coeffs, IntToFp(f.halfLen), Increment(f.indexInc, r), Start(f.indexInc, r, index),
                            StreamTap(loaded, f.channels, centre, c),
                            -Reach(f.halfLen, f.indexInc, r), Reach(f.halfLen, f.indexInc, r) + 1)
    ensures Filtered(f, loaded, r, centre as real + index, c)
         == Scaled(FloatIncrement(f.indexInc, r) / f.indexInc as real, y)
  {
    hide FilterSum, Increment, Start, Reach, StreamTap;
    FloorShift(centre, index);
  }

  /** Inside the reach, the buffer and the stream hold the same sample. */
  lemma TapsAgree(buffer: seq<real>, current: int, end: int, hf: nat, f: Filter, r: real, reach: int,
                  loaded: seq<real>, frames: nat, ended: bool, centre: nat, c: nat, j: int)
    requires Window(buffer, current, end, hf, Padded(loaded, ended, hf), centre * f.channels)
    requires f.indexInc >= 1 && r > 0.0 && reach == Reach(f.halfLen, f.indexInc, r) && hf == reach * f.channels
    requires |loaded| == frames * f.channels && Settled(f, loaded, ended, r, centre) && c < f.channels
    requires -reach <= j <= reach
    ensures InBounds(|buffer|, current, f.channels, c, j)
    ensures Tap(buffer, current, f.channels, c)(j) == StreamTap(loaded, f.channels, centre, c)(j)
  {
    var z, pos, i := Padded(loaded, ended, hf), centre * f.channels, hf + f.channels * j + c;
    OffsetInside(f.channels, reach, j);
    assert (centre + j) * f.channels + c == pos + i - hf;
    WindowEnough(hf, f, r, reach, loaded, frames, ended, centre);
    assert 0 <= i < |z| - pos;
    assert buffer[current - hf..end][i] == z[pos..][i];
    assert buffer[current + f.channels * j + c] == z[pos + i];
  }

  lemma OffsetInside(channels: nat, reach: int, j: int)
    requires channels > 0 && reach >= 0 && -reach <= j <= reach
    ensures -(reach * channels) <= channels * j <= reach * channels
  {
    MulOrder(-reach, j, channels);
    MulOrder(j, reach, channels);
  }

  lemma WindowEnough(hf: nat, f: Filter, r: real, reach: int, loaded: seq<real>, frames: nat, ended: bool, centre: nat)
    requires f.indexInc >= 1 && r > 0.0 && reach == Reach(f.halfLen, f.indexInc, r) && hf == reach * f.channels
    requires f.channels > 0
    requires |loaded| == frames * f.channels && Settled(f, loaded, ended, r, centre)
    ensures |Padded(loaded, ended, hf)| - centre * f.channels >= 2 * hf + f.channels
  {
    hide Reach;
    var ch := f.channels;
    if ended {
      if frames <= centre { MulOrder(frames, centre, ch); }
      MulOrder(centre + 1, frames, ch);
      assert (centre + 1) * ch == centre * ch + ch;
    } else {
      assert (centre + reach + 1) * ch == centre * ch + reach * ch + ch;
    }
  }

  // ----- runs -----

  datatype Call = Call(taken: seq<real>, gen: nat, out: seq<real>, after: State)

  ghost predicate Run(f: Filter, r: real, s: State, calls: seq<Call>)
    requires f.indexInc >= 1 && r > 0.0
    decreases |calls|
  {
    calls == [] ||
    (Called(f, r, s, calls[0].taken, calls[0].gen, calls[0].out, calls[0].after) &&
     Run(f, r, calls[0].after, calls[1..]))
  }

  function Final(s: State, calls: seq<Call>): State
    decreases |calls|
  {
    if calls == [] then s else Final(calls[0].after, calls[1..])
  }

  function Outputs(calls: seq<Call>): seq<real> {
    if calls == [] then [] else calls[0].out + Outputs(calls[1..])
  }

  function Taken(calls: seq<Call>): seq<real> {
    if calls == [] then [] else calls[0].taken + Taken(calls[1..])
  }

  function Generated(calls: seq<Call>): nat {
    if calls == [] then 0 else calls[0].gen + Generated(calls[1..])
  }

  lemma {:induction false} FramesAppend(f: Filter, loaded: seq<real>, r: real, p: real, a: nat, b: nat)
    requires f.indexInc >= 1 && r > 0.0
    ensures FilteredFrames(f, loaded, r, p, a + b) ==
            FilteredFrames(f, loaded, r, p, a) + FilteredFrames(f, loaded, r, p + a as real / r, b)
  {
    hide FilteredFrame;
    if b > 0 {
      FramesAppend(f, loaded, r, p, a, b - 1);
      FractionSum(p, r, a, b - 1);
    }
  }

  lemma FractionSum(p: real, r: real, a: nat, b: nat)
    requires r > 0.0
    ensures p + a as real / r + b as real / r == p + (a + b) as real / r
  {}

  lemma {:induction false} RunGrows(f: Filter, r: real, s: State, calls: seq<Call>)
    requires f.indexInc >= 1 && r > 0.0 && Run(f, r, s, calls)
    ensures Final(s, calls).loaded == s.loaded + Taken(calls)
    ensures s.ended ==> Final(s, calls).ended && Taken(calls) == []
    ensures Final(s, calls).position == s.position + Generated(calls) as real / r
    decreases |calls|
  {
    hide Emitted;
    if calls != [] {
      var c := calls[0];
      RunGrows(f, r, c.after, calls[1..]);
      FractionSum(s.position, r, c.gen, Generated(calls[1..]));
      if s.ended { assert c.taken == []; }
    } else {
      assert s.loaded + [] == s.loaded;
    }
  }

  /** However the calls cut the input and the output: all output frames of a run are the filter applied
      to all that the run took, 1 / r apart. */
  lemma {:induction false} RunFilters(f: Filter, r: real, s: State, calls: seq<Call>)
    requires f.indexInc >= 1 && r > 0.0 && f.channels > 0 && Reach(f.halfLen, f.indexInc, r) >= 1 && Run(f, r, s, calls)
    ensures Outputs(calls) == FilteredFrames(f, s.loaded + Taken(calls), r, s.position, Generated(calls))
    decreases |calls|
  {
    hide Emitted, Reach, FilteredFrames;
    RunStart(f, r, s, calls);
    if calls != [] {
      var c, rest := calls[0], calls[1..];
      RunFilters(f, r, c.after, rest);
      assert s.loaded + Taken(calls) == c.after.loaded + Taken(rest);
      FramesAppend(f, s.loaded + Taken(calls), r, s.position, c.gen, Generated(rest));
    }
  }

  /** The first call's frames do not change with what the later calls take. */
  lemma RunStart(f: Filter, r: real, s: State, calls: seq<Call>)
    requires f.indexInc >= 1 && r > 0.0 && f.channels > 0 && Reach(f.halfLen, f.indexInc, r) >= 1 && Run(f, r, s, calls)
    ensures calls == [] ==> FilteredFrames(f, s.loaded + Taken(calls), r, s.position, 0) == []
    ensures calls != [] ==>
              calls[0].out == FilteredFrames(f, calls[0].after.loaded + Taken(calls[1..]), r, s.position, calls[0].gen)
  {
    hide Reach, Settled;
    if calls != [] {
      var c, rest := calls[0], calls[1..];
      RunGrows(f, r, c.after, rest);
      if c.after.ended {
        assert c.after.loaded + [] == c.after.loaded;
      } else {
        FramesSettled(f, c.after.loaded, Taken(rest), r, s.position, c.gen);
      }
    }
  }

  /** Chunking does not matter: of two runs over the same input, the shorter output is a prefix of the longer. */
  lemma ChunkingIrrelevant(f: Filter, r: real, s: State, some: seq<Call>, others: seq<Call>)
    requires f.indexInc >= 1 && r > 0.0 && f.channels > 0 && Reach(f.halfLen, f.indexInc, r) >= 1
    requires Run(f, r, s, some) && Run(f, r, s, others) && Taken(some) == Taken(others)
    requires Generated(some) <= Generated(others)
    ensures Outputs(some) <= Outputs(others)
  {
    hide Reach, Run, FilteredFrames;
    RunFilters(f, r, s, some);
    RunFilters(f, r, s, others);
    FramesAppend(f, s.loaded + Taken(some), r, s.position, Generated(some), Generated(others) - Generated(some));
  }

  // ----- whole runs -----

  /** The run has seen the end of the input, and its next output would come too close to it. */
  ghost predicate Complete(f: Filter, r: real, s: State)
    requires r > 0.0
  {
    s.ended && AtEnd(f, |s.loaded|, r, s.position)
  }

  /** No output of a run comes too close to the end of the input. */
  lemma {:induction false} OutputsBeforeEnd(f: Filter, r: real, s: State, calls: seq<Call>)
    requires GoodTable(f.halfLen, f.indexInc) && GoodRatio(r) && r > 0.0 && f.channels > 0 && Run(f, r, s, calls)
    requires Generated(calls) > 0
    ensures !AtEnd(f, |s.loaded + Taken(calls)|, r, s.position + (Generated(calls) - 1) as real / r)
    decreases |calls|
  {
    hide AtEnd, Settled;
    var c, rest := calls[0], calls[1..];
    RunGrows(f, r, c.after, rest);
    assert s.loaded + Taken(calls) == c.after.loaded + Taken(rest);
    if Generated(rest) > 0 {
      OutputsBeforeEnd(f, r, c.after, rest);
      FractionSum(s.position, r, c.gen, Generated(rest) - 1);
    } else if c.after.ended {
      assert Taken(rest) == [];
    } else {
      SettledNotAtEnd(f, c.after.loaded, |s.loaded + Taken(calls)|, r, s.position + (c.gen - 1) as real / r);
    }
  }

  lemma NotMore(f: Filter, r: real, s: State, some: seq<Call>, others: seq<Call>)
    requires GoodTable(f.halfLen, f.indexInc) && GoodRatio(r) && r > 0.0 && f.channels > 0
    requires Run(f, r, s, some) && Run(f, r, s, others) && Taken(some) == Taken(others)
    requires Complete(f, r, Final(s, some))
    ensures Generated(others) <= Generated(some)
  {
    hide AtEnd, Run;
    if Generated(others) > Generated(some) {
      RunGrows(f, r, s, some);
      OutputsBeforeEnd(f, r, s, others);
      var a, b := Generated(some), Generated(others) - 1;
      FractionOrder(a, b, r);
      AtEndLater(f, |s.loaded + Taken(some)|, r, s.position + a as real / r, s.position + b as real / r);
    }
  }

  lemma FractionOrder(a: nat, b: nat, r: real)
    requires a <= b && r > 0.0
    ensures a as real / r <= b as real / r
  {
    Product((b - a) as real, 1.0 / r);
    assert b as real / r - a as real / r == (b - a) as real * (1.0 / r);
  }

  /** Two complete runs over the same input put out the same frames, however each cuts input and output. */
  lemma CompleteRunsAgree(f: Filter, r: real, s: State, some: seq<Call>, others: seq<Call>)
    requires GoodTable(f.halfLen, f.indexInc) && GoodRatio(r) && r > 0.0 && f.channels > 0
    requires Run(f, r, s, some) && Run(f, r, s, others) && Taken(some) == Taken(others)
    requires Complete(f, r, Final(s, some)) && Complete(f, r, Final(s, others))
    ensures Generated(some) == Generated(others) && Outputs(some) == Outputs(others)
  {
    hide Reach, Run, Complete;
    ReachReal(f.halfLen, f.indexInc, r);
    NotMore(f, r, s, some, others);
    NotMore(f, r, s, others, some);
    RunFilters(f, r, s, some);
    RunFilters(f, r, s, others);
  }

  /** How many frames a complete mono run puts out: the next one would be less than a step before the
      end of the input, and the last one was not. */
  lemma CompleteLength(f: Filter, r: real, s: State, calls: seq<Call>)
    requires GoodTable(f.halfLen, f.indexInc) && GoodRatio(r) && r > 0.0 && f.channels == 1
    requires Run(f, r, s, calls) && Complete(f, r, Final(s, calls))
    ensures |s.loaded + Taken(calls)| as real <=
            s.position + (Generated(calls) + 1) as real / r + 0.00000000000000000001
    ensures Generated(calls) > 0 ==>
      |s.loaded + Taken(calls)| as real > s.position + Generated(calls) as real / r + 0.00000000000000000001
  {
    hide Run;
    var n, k := |s.loaded + Taken(calls)|, Generated(calls);
    RunGrows(f, r, s, calls);
    MonoEnd(f, n, r, s.position + k as real / r);
    FractionSum(s.position, r, k, 1);
    if k > 0 {
      OutputsBeforeEnd(f, r, s, calls);
      MonoEnd(f, n, r, s.position + (k - 1) as real / r);
      FractionSum(s.position, r, k - 1, 1);
    }
  }

  lemma MonoEnd(f: Filter, len: nat, r: real, p: real)
    requires r > 0.0 && f.channels == 1
    ensures AtEnd(f, len, r, p) <==> len as real <= p + 1.0 / r + 0.00000000000000000001
  {
    assert p.Floor * f.channels == p.Floor;
  }
}
