/** OutputTrack::write of audioflinger/4.1.2/AudioFlinger.cpp: frames go to the output in order, with
    an overflow queue for what does not fit. A frame is one sample per channel. */
module OutputTrack {

  import opened Basics

  type Frame = seq<int>

  /** What one obtainBuffer call meets: how many frames it may hand out (0 when it times out or the track
      is not active) and how long it took. */
  datatype Grant = Grant(frames: nat, waitedMs: nat)

  /** No obtainBuffer call has to wait. */
  ghost predicate Instant(grants: nat -> Grant) {
    forall k: nat :: grants(k).waitedMs == 0
  }

  function Flat(queue: seq<seq<Frame>>): seq<Frame> {
    if queue == [] then [] else queue[0] + Flat(queue[1..])
  }

  lemma {:induction false} FlatAppend(queue: seq<seq<Frame>>, b: seq<Frame>)
    ensures Flat(queue + [b]) == Flat(queue) + b
  {
    if queue == [] {
      assert queue + [b] == [b] && Flat([b]) == b + Flat([b][1..]);
    } else {
      assert (queue + [b])[1..] == queue[1..] + [b];
      FlatAppend(queue[1..], b);
    }
  }

  function Silence(n: nat, channels: nat): (s: seq<Frame>)
    ensures |s| == n
    ensures forall i :: 0 <= i < n ==> |s[i]| == channels && forall c :: 0 <= c < channels ==> s[i][c] == 0
  {
    seq(n, i => seq(channels, c => 0))
  }

  class Track {
    const frameCount: nat      // size of the output's shared buffer
    const channels: nat
    const maxBuffers: nat      // kMaxOverFlowBuffers
    var active: bool
    var queue: seq<seq<Frame>>
    var granted: nat           // mOutBuffer.frameCount
    var user: nat              // frames since the last reset
    ghost var earlier: nat     // frames delivered before it
    ghost var delivered: seq<Frame>
    ghost var accepted: seq<Frame>

    /** What has been delivered and what is queued is, in order, all that was accepted. */
    ghost predicate Valid()
      reads this
    {
      && maxBuffers > 0 && |queue| <= maxBuffers && (forall b :: b in queue ==> b != [])
      && delivered + Flat(queue) == accepted && earlier + user == |delivered|
    }

    constructor (frameCount: nat, channels: nat, maxBuffers: nat)
      requires maxBuffers > 0
      ensures Valid() && accepted == [] && !active
    {
      this.frameCount, this.channels, this.maxBuffers := frameCount, channels, maxBuffers;
      active, queue, granted, user, earlier, delivered, accepted := false, [], 0, 0, 0, [], [];
    }

    /** A buffer joins the queue. */
    method Enqueue(b: seq<Frame>)
      requires Valid() && b != [] && |queue| < maxBuffers
      modifies this`queue, this`accepted
      ensures Valid() && queue == old(queue) + [b] && accepted == old(accepted) + b
    {
      FlatAppend(queue, b);
      queue := queue + [b];
      accepted := accepted + b;
      assert delivered + (Flat(old(queue)) + b) == (delivered + Flat(old(queue))) + b;
    }

    /** Whether write() starts the track with silence. */
    predicate StartsWithSilence(frames: nat, threadAlive: bool)
      reads this
    {
      !active && frames != 0 && threadAlive && frameCount > frames && |queue| < maxBuffers
    }

    /** The first part of write(); startOk says whether Track::start succeeds. */
    method Begin(frames: nat, threadAlive: bool, startOk: bool)
      requires Valid() && (startOk ==> threadAlive)
      modifies this`queue, this`accepted, this`active
      ensures Valid() && active == (old(active) || (frames != 0 && startOk))
      ensures accepted == old(accepted) +
              if old(StartsWithSilence(frames, threadAlive)) then Silence(frameCount - frames, channels) else []
      ensures queue == old(queue) +
              if !old(active) && frames != 0 && threadAlive && frameCount > frames && |old(queue)| < maxBuffers
              then [Silence(frameCount - frames, channels)] else []
    {
      if !active && frames != 0 {
        if startOk {
          active := true;
        }
        if threadAlive {
          if frameCount > frames {
            if |queue| < maxBuffers {
              Enqueue(Silence(frameCount - frames, channels));
            }
          }
        }
      }
    }

    /** The frames still to come, pending buffers first. */
    ghost function Pending(rest: seq<Frame>): seq<Frame>
      reads this`queue
    {
      Flat(queue) + rest
    }

    /** Copies up to `granted` frames of the buffer in front, or of the new data when nothing is pending. */
    method Copy(rest0: seq<Frame>) returns (rest: seq<Frame>, finished: bool)
      requires granted > 0 && (forall b :: b in queue ==> b != []) && (queue == [] ==> rest0 != [])
      requires earlier + user == |delivered|
      modifies this`queue, this`granted, this`user, this`delivered
      ensures delivered + Pending(rest) == old(delivered) + old(Pending(rest0)) && old(delivered) < delivered
      ensures earlier + user == |delivered|
      ensures forall b :: b in queue ==> b != []
      ensures |queue| <= |old(queue)| && (old(queue) != [] ==> rest == rest0)
      ensures old(queue) == [] ==> queue == [] && |rest| < |rest0| && rest == rest0[|rest0| - |rest|..]
      ensures finished <==> old(queue) == [] && rest == []
    {
      ghost var q, before := queue, delivered;
      var cur := if queue != [] then queue[0] else rest0;
      var n := Min(|cur|, granted);
      assert n > 0 by { if queue != [] { assert queue[0] in queue; } }
      hide Flat, Taken;
      delivered := delivered + cur[..n];
      user := user + n;
      granted := granted - n;
      rest, finished := rest0, false;
      if queue != [] {
        FrontTaken(q, n);
        TakenFilled(q, n);
        queue := Taken(queue, n);
        assert delivered + (Flat(queue) + rest) == before + ((cur[..n] + Flat(queue)) + rest);
      } else {
        rest := cur[n..];
        finished := rest == [];
        assert rest0 == cur[..n] + rest;
        FlatNone();
        assert delivered + ([] + rest) == before + ([] + rest0);
      }
    }

    /** Inside the write loop: nothing is lost or reordered, and new data goes out only when nothing is pending. */
    ghost predicate Flowing(rest: seq<Frame>, data: seq<Frame>, all: seq<Frame>, start: seq<Frame>)
      reads this`queue, this`user, this`earlier, this`delivered
    {
      && (forall b :: b in queue ==> b != []) && earlier + user == |delivered|
      && |rest| <= |data| && rest == data[|data| - |rest|..] && (|rest| < |data| ==> queue == [])
      && delivered + Pending(rest) == all && start <= delivered
    }

    /** One turn of the write loop. */
    method Turn(rest0: seq<Frame>, wait0: nat, grants: nat -> Grant, i0: nat, ghost data: seq<Frame>,
                ghost all: seq<Frame>, ghost start: seq<Frame>)
      returns (rest: seq<Frame>, wait: nat, i: nat, stop: bool, full: bool)
      requires Flowing(rest0, data, all, start)
      modifies this`queue, this`granted, this`user, this`delivered
      ensures Flowing(rest, data, all, start) && |queue| <= |old(queue)|
      ensures !stop ==> |delivered| > |old(delivered)|
      ensures full ==> stop && granted == 0 && (rest != [] || queue != []) && exists k: nat :: grants(k).frames == 0
      ensures stop && !full ==> rest == [] && queue == []
      ensures Instant(grants) ==> wait == wait0
    {
      hide Flat;
      rest, wait, i, stop, full := rest0, wait0, i0, true, false;
      var cur := if queue != [] then queue[0] else rest;
      assert queue != [] ==> queue[0] in queue;
      if |cur| == 0 {
        return;
      }
      if granted == 0 {
        var g := grants(i);
        i := i + 1;
        granted := Min(|cur|, g.frames);
        if granted == 0 {
          full := true;
          return;
        }
        wait := if wait >= g.waitedMs then wait - g.waitedMs else 0;
      }
      ghost var before := delivered;
      rest, stop := Copy(rest);
      if |rest| < |rest0| { SuffixOfSuffix(data, rest0, rest); }
      PrefixOfPrefix(start, before, delivered);
    }

    /** The write loop; grants(i) is what the i-th obtainBuffer call meets. */
    method Drain(data: seq<Frame>, waitMs: nat, grants: nat -> Grant) returns (rest: seq<Frame>, full: bool)
      requires Valid()
      modifies this`queue, this`granted, this`user, this`delivered, this`accepted
      ensures Valid() && |rest| <= |data| && rest == data[|data| - |rest|..]
      ensures accepted == old(accepted) + data[..|data| - |rest|]
      ensures |rest| < |data| ==> queue == []
      ensures |queue| <= |old(queue)| && old(delivered) <= delivered
      ensures full ==> granted == 0 && (rest != [] || queue != []) && exists k: nat :: grants(k).frames == 0
      ensures waitMs > 0 && Instant(grants) && !full ==> rest == [] && queue == []
    {
      rest, full := data, false;
      var wait, i := waitMs, 0;
      ghost var all := accepted + data;
      assert data[0..] == data && delivered + (Flat(queue) + data) == all;
      hide Flat, Flowing;
      assert Flowing(rest, data, all, delivered) by { Starts(data); }
      while wait > 0
        invariant |queue| <= |old(queue)| && !full && accepted == old(accepted) && (Instant(grants) ==> wait == waitMs)
        invariant Flowing(rest, data, all, old(delivered))
        decreases |all| - |delivered|
      {
        var stop;
        rest, wait, i, stop, full := Turn(rest, wait, grants, i, data, all, old(delivered));
        FlowingShort(rest, data, all, old(delivered));
        if stop {
          break;
        }
      }
      accepted := accepted + data[..|data| - |rest|];
      Settled(rest, data, all, old(delivered), old(accepted));
    }

    lemma Starts(data: seq<Frame>)
      requires Valid()
      ensures Flowing(data, data, accepted + data, delivered)
    {
      assert data[0..] == data && delivered + (Flat(queue) + data) == accepted + data;
    }

    lemma FlowingShort(rest: seq<Frame>, data: seq<Frame>, all: seq<Frame>, start: seq<Frame>)
      requires Flowing(rest, data, all, start)
      ensures |delivered| <= |all|
    {}

    lemma Settled(rest: seq<Frame>, data: seq<Frame>, all: seq<Frame>, start: seq<Frame>, was: seq<Frame>)
      requires Flowing(rest, data, all, start) && all == was + data && |rest| <= |data|
      ensures rest == data[|data| - |rest|..] && (|rest| < |data| ==> queue == []) && start <= delivered
      ensures delivered + Flat(queue) == was + data[..|data| - |rest|]
      ensures (forall b :: b in queue ==> b != []) && earlier + user == |delivered|
    {
      var kept := data[..|data| - |rest|];
      assert data == kept + rest;
      assert delivered + (Flat(queue) + rest) == (delivered + Flat(queue)) + rest;
      assert was + (kept + rest) == (was + kept) + rest;
      Cancel(delivered + Flat(queue), was + kept, rest);
    }

    /** write(): everything accepted goes out in order. What is accepted is the start silence if there is any, the
        data but for a dropped suffix, and closing silence after an empty write. */
    method Write(data: seq<Frame>, waitMs: nat, grants: nat -> Grant, threadAlive: bool, startOk: bool, standby: bool)
      returns (full: bool, ghost dropped: seq<Frame>, ghost closing: seq<Frame>)
      requires Valid() && (startOk ==> threadAlive)
      modifies this
      ensures Valid() && old(delivered) <= delivered && earlier == old(earlier)
      ensures |dropped| <= |data| && dropped == data[|data| - |dropped|..]
      ensures accepted == old(accepted) +
              (if old(StartsWithSilence(|data|, threadAlive)) then Silence(frameCount - |data|, channels) else [])
                          + data[..|data| - |dropped|] + closing
      ensures dropped != [] ==> !threadAlive || standby || (dropped == data && |queue| == maxBuffers)
      ensures closing != [] ==>
                data == [] && user < frameCount && closing == Silence(frameCount - user, channels) && queue == [closing]
      ensures data == [] && queue == [] ==> user >= frameCount && !active
      ensures active ==> old(active) || (data != [] && startOk)
      ensures full ==> granted == 0 && exists k: nat :: grants(k).frames == 0
      ensures data != [] && waitMs > 0 && Instant(grants) && !full ==>
                queue == [] && dropped == [] && delivered == accepted
    {
      hide Flat, Silence;
      Begin(|data|, threadAlive, startOk);
      ghost var begun := accepted;
      var rest;
      rest, full := Drain(data, waitMs, grants);
      dropped := Overflow(data, rest, begun, threadAlive && !standby);
      closing := Close(data == []);
      FlatNone();
      assert delivered + [] == delivered;
    }

    /** What could not be written is queued for next time, if the thread runs and there is room. */
    method Overflow(ghost data: seq<Frame>, rest: seq<Frame>, ghost begun: seq<Frame>, running: bool)
      returns (ghost dropped: seq<Frame>)
      requires Valid() && |rest| <= |data| && rest == data[|data| - |rest|..]
      requires accepted == begun + data[..|data| - |rest|]
      requires |rest| < |data| ==> queue == []
      modifies this`queue, this`accepted
      ensures Valid() && |dropped| <= |data| && dropped == data[|data| - |dropped|..]
      ensures accepted == begun + data[..|data| - |dropped|]
      ensures dropped != [] ==> !running || (dropped == data && |queue| == maxBuffers)
      ensures rest == [] ==> queue == old(queue) && dropped == []
    {
      dropped := rest;
      if rest != [] {
        if running {
          if |queue| < maxBuffers {
            Enqueue(rest);
            dropped := [];
            assert data[..|data|] == data == data[..|data| - |rest|] + rest;
            assert begun + (data[..|data| - |rest|] + rest) == (begun + data[..|data| - |rest|]) + rest;
          }
        }
      }
    }

    /** The end of write(): after an empty write with nothing pending the output is filled up, or the track stops. */
    method Close(ended: bool) returns (ghost closing: seq<Frame>)
      requires Valid()
      modifies this`queue, this`accepted, this`granted, this`active
      ensures Valid() && accepted == old(accepted) + closing && granted <= old(granted)
      ensures closing != [] ==>
                ended && user < frameCount && closing == Silence(frameCount - user, channels) && queue == [closing]
      ensures closing == [] ==> queue == old(queue)
      ensures ended && queue == [] ==> user >= frameCount && !active
      ensures active ==> old(active)
    {
      closing := [];
      assert accepted + [] == accepted;
      if ended && queue == [] {
        if user < frameCount {
          closing := Silence(frameCount - user, channels);
          Enqueue(Silence(frameCount - user, channels));
        } else if active {
          assert delivered + [] == delivered;
          Stop();
        }
      }
    }

    /** OutputTrack::stop: what is still queued is given up. */
    method Stop()
      requires Valid()
      modifies this`queue, this`granted, this`active, this`accepted
      ensures Valid() && queue == [] && !active && accepted == delivered && granted == 0
    {
      queue, granted, active := [], 0, false;
      accepted := delivered;
    }

    /** TrackBase::reset, which the mixer or stop() does once the track has stopped: counting starts again. */
    method Reset()
      requires Valid()
      modifies this`user, this`earlier
      ensures Valid() && user == 0
    {
      user, earlier := 0, |delivered|;
    }

    /** Because of the reset an output is filled up again each time it has been stopped: the empty write that
        follows queues a whole buffer of silence. */
    method FillAgain(waitMs: nat, grants: nat -> Grant, threadAlive: bool, standby: bool) returns (full: bool)
      requires Valid() && frameCount > 0
      modifies this
      ensures Valid() && queue == [Silence(frameCount, channels)]
      ensures accepted == old(delivered) + Silence(frameCount, channels)
    {
      Stop();
      Reset();
      ghost var dropped, closing;
      full, dropped, closing := Write([], waitMs, grants, threadAlive, threadAlive, standby);
      assert accepted == old(delivered) + closing;
      if queue != [] { assert queue[0] in queue; }
      assert closing != [] ==> Flat([closing]) == closing;
    }
  }

  /** The queue after n frames of the buffer in front are gone. */
  function Taken(queue: seq<seq<Frame>>, n: nat): (r: seq<seq<Frame>>)
    requires queue != [] && n <= |queue[0]|
    ensures |r| <= |queue|
  {
    if n == |queue[0]| then queue[1..] else [queue[0][n..]] + queue[1..]
  }

  lemma TakenFilled(queue: seq<seq<Frame>>, n: nat)
    requires queue != [] && n <= |queue[0]| && forall b :: b in queue ==> b != []
    ensures forall b :: b in Taken(queue, n) ==> b != []
  {
    var r := Taken(queue, n);
    forall b | b in r ensures b != [] {
      if b in queue[1..] { assert b in queue; } else { assert b == queue[0][n..] && |b| == |queue[0]| - n; }
    }
  }

  lemma FrontTaken(queue: seq<seq<Frame>>, n: nat)
    requires queue != [] && n <= |queue[0]|
    ensures Flat(queue) == queue[0][..n] + Flat(Taken(queue, n))
  {
    var front, rest := queue[0], Flat(queue[1..]);
    assert front == front[..n] + front[n..];
    if n == |front| {
      assert front[..n] == front;
    } else {
      assert Taken(queue, n)[0] == front[n..] && Taken(queue, n)[1..] == queue[1..];
      assert (front[..n] + front[n..]) + rest == front[..n] + (front[n..] + rest);
    }
  }

  lemma FlatNone()
    ensures Flat([]) == []
  {}

  lemma PrefixOfPrefix(a: seq<Frame>, b: seq<Frame>, c: seq<Frame>)
    requires a <= b <= c
    ensures a <= c
  {}

  lemma SuffixOfSuffix(data: seq<Frame>, a: seq<Frame>, b: seq<Frame>)
    requires |b| <= |a| <= |data| && a == data[|data| - |a|..] && b == a[|a| - |b|..]
    ensures b == data[|data| - |b|..]
  {}

  lemma Cancel(a: seq<Frame>, b: seq<Frame>, rest: seq<Frame>)
    requires a + rest == b + rest
    ensures a == b
  {
    assert (a + rest)[..|a|] == a && (b + rest)[..|b|] == b;
  }
}
