/** The playback track state machine of audioflinger/4.1.2/AudioFlinger.cpp. Each client call and each
    mixer cycle is one step. isStopped() covers the states STOPPED and FLUSHED. */
module TrackState {

  datatype State = Idle | Terminated | Flushed | Stopped | Stopping1 | Stopping2 | Resuming | Active | Pausing | Paused

  datatype Filling = FsFilling | FsFilled | FsActive

  const MAX_RETRIES := 50

  /** Frames written to the HAL so far, and frames of latency it reports. */
  datatype Hal = Hal(written: nat, latency: nat)

  /** What the mixer finds for a normal track. */
  datatype Round = Round(enough: bool, full: bool, muted: bool)

  /** What the mixer finds for a fast track: underruns since the last cycle, by kind. */
  datatype Underruns = Underruns(recentFull: nat, recentPartial: nat, recentEmpty: nat)

  /** What a track tells the audio policy: startOutput that succeeds or is refused, and stopOutput. */
  datatype PolicyCall = Started | Refused | StopCalled

  /** Successful startOutput calls less stopOutput calls. */
  function Balance(calls: seq<PolicyCall>): int {
    if calls == [] then 0
    else
      var front := calls[..|calls| - 1];
      Balance(front) + match calls[|calls| - 1] { case Started => 1 case Refused => 0 case StopCalled => -1 }
  }

  /** startOutput is called only when it is not in force, and stopOutput only when it is. */
  predicate Alternating(calls: seq<PolicyCall>) {
    calls == [] ||
    (var front := calls[..|calls| - 1];
     Alternating(front) && Balance(front) == if calls[|calls| - 1] == StopCalled then 1 else 0)
  }

  lemma Called(calls: seq<PolicyCall>, c: PolicyCall)
    requires Alternating(calls) && Balance(calls) == if c == StopCalled then 1 else 0
    ensures Alternating(calls + [c])
    ensures Balance(calls + [c]) == if c == Started then 1 else 0
  {
    assert (calls + [c])[..|calls + [c]| - 1] == calls;
  }

  /** At every moment of the past the policy counted the track once or not at all. */
  lemma {:induction false} NeverTwice(calls: seq<PolicyCall>, k: nat)
    requires Alternating(calls) && k <= |calls|
    ensures Balance(calls[..k]) == 0 || Balance(calls[..k]) == 1
  {
    if k == |calls| {
      assert calls[..k] == calls;
    } else {
      assert calls[..|calls| - 1][..k] == calls[..k];
      NeverTwice(calls[..|calls| - 1], k);
    }
  }

  predicate Playing(s: State) {
    s == Active || s == Resuming
  }

  class Track {
    const fast: bool
    const shared: bool
    var state: State
    var inActiveList: bool
    var resetDone: bool
    var filling: Filling
    var retryCount: int
    var masked: bool           // its bit in the fast mixer's track mask
    var presented: nat         // mPresentationCompleteFrames
    ghost var calls: seq<PolicyCall>

    /** The audio policy counts this track once exactly while its state is Active or Resuming, the mixer never
        meets an idle track, and the fast mixer knows only active fast tracks. */
    ghost predicate Valid()
      reads this
    {
      && Alternating(calls) && Balance(calls) == (if Playing(state) then 1 else 0)
      && (state == Idle ==> !inActiveList)
      && (masked ==> inActiveList && fast)
      && (fast && inActiveList && !masked ==> retryCount == MAX_RETRIES && presented == 0)
    }

    constructor (fast: bool, shared: bool)
      ensures Valid() && state == Idle && this.fast == fast && this.shared == shared
    {
      this.fast, this.shared := fast, shared;
      state, inActiveList, resetDone, filling, retryCount, masked, presented, calls :=
        Idle, false, false, FsFilling, 0, false, 0, [];
    }

    predicate IsStopped()
      reads this`state
    {
      state == Stopped || state == Flushed
    }

    ghost method Tell(c: PolicyCall)
      requires Alternating(calls) && Balance(calls) == if c == StopCalled then 1 else 0
      modifies this`calls
      ensures calls == old(calls) + [c] && Alternating(calls) && Balance(calls) == if c == Started then 1 else 0
    {
      Called(calls, c);
      calls := calls + [c];
    }

    /** addTrack_l */
    method AddTrack()
      modifies this`inActiveList, this`resetDone, this`filling, this`retryCount, this`presented
      ensures inActiveList && retryCount == MAX_RETRIES
      ensures !old(inActiveList) ==> filling == FsFilling && !resetDone && presented == 0
      ensures old(inActiveList) ==>
                filling == old(filling) && resetDone == old(resetDone) && presented == old(presented)
    {
      retryCount := MAX_RETRIES;
      if !inActiveList {
        filling, resetDone, presented, inActiveList := FsFilling, false, 0, true;
      }
    }

    /** start; startOk is what startOutput answers. */
    method Start(startOk: bool) returns (ok: bool)
      requires Valid()
      modifies this`state, this`calls, this`inActiveList, this`resetDone, this`filling, this`retryCount, this`presented
      ensures Valid() && ok == (startOk || old(state) == Active || old(state) == Resuming)
      ensures ok ==> inActiveList && state == if old(state) == Paused then Resuming else Active
      ensures !ok ==> state == old(state) && inActiveList == old(inActiveList)
      ensures calls == old(calls) + if Playing(old(state)) then [] else if startOk then [Started] else [Refused]
    {
      var was := state;
      ok := true;
      if state == Paused {
        state := Resuming;
      } else {
        state := Active;
      }
      if was != Active && was != Resuming {
        ok := startOk;
        Tell(if startOk then Started else Refused);
      }
      if ok {
        AddTrack();
      } else {
        state := was;
      }
    }

    /** stop */
    method Stop()
      requires Valid()
      modifies this`state, this`calls, this`resetDone, this`filling
      ensures Valid()
      ensures calls == old(calls) + if Playing(old(state)) then [StopCalled] else []
      ensures state == if old(state) !in {Resuming, Active, Pausing, Paused} then old(state)
                       else if inActiveList && fast then Stopping1 else Stopped
    {
      var was := state;
      if was == Resuming || was == Active || was == Pausing || was == Paused {
        if !inActiveList {
          Reset();
          state := Stopped;
        } else if !fast {
          state := Stopped;
        } else {
          state := Stopping1;
        }
      }
      if was == Active || was == Resuming {
        Tell(StopCalled);
      }
    }

    /** pause */
    method Pause()
      requires Valid()
      modifies this`state, this`calls
      ensures Valid()
      ensures state == if Playing(old(state)) then Pausing else old(state)
      ensures calls == old(calls) + if Playing(old(state)) then [StopCalled] else []
    {
      if state == Active || state == Resuming {
        state := Pausing;
        Tell(StopCalled);
      }
    }

    /** flush: a track that the mixer still holds is reset by the mixer later. */
    method Flush()
      requires Valid()
      modifies this`state, this`resetDone, this`filling
      ensures Valid()
      ensures old(state) in {Stopping1, Stopping2, Stopped, Paused, Pausing} ==>
                state == if inActiveList || old(resetDone) then Flushed else Idle
      ensures old(state) !in {Stopping1, Stopping2, Stopped, Paused, Pausing} ==> state == old(state)
    {
      if state != Stopping1 && state != Stopping2 && state != Stopped && state != Paused && state != Pausing {
        return;
      }
      state := Flushed;
      if !inActiveList {
        Reset();
      }
    }

    /** reset */
    method Reset()
      modifies this`state, this`resetDone, this`filling
      ensures resetDone
      ensures state == if !old(resetDone) && old(state) == Flushed then Idle else old(state)
    {
      if !resetDone {
        filling, resetDone := FsFilling, true;
        if state == Flushed {
          state := Idle;
        }
      }
    }

    /** destroy: the audio policy is told before the track is marked; the mixer lets go of it later. */
    method Destroy() returns (removed: bool)
      requires Valid()
      modifies this`state, this`calls
      ensures Valid() && state == Terminated && removed == !inActiveList
      ensures calls == old(calls) + if Playing(old(state)) then [StopCalled] else []
    {
      if state == Active || state == Resuming {
        Tell(StopCalled);
      }
      state := Terminated;
      removed := !inActiveList;
    }

    /** isReady, for normal tracks. */
    method IsReady(full: bool) returns (ready: bool)
      modifies this`filling
      ensures ready == (old(filling) != FsFilling || IsStopped() || state == Pausing || full)
      ensures filling == if ready && old(filling) == FsFilling && !IsStopped() && state != Pausing
                         then FsFilled else old(filling)
    {
      if filling != FsFilling || IsStopped() || state == Pausing {
        return true;
      }
      if full {
        filling := FsFilled;
        return true;
      }
      ready := false;
    }

    /** Whether the mixer mixes this normal track: it has enough data, has filled up once, and is not paused or
        dying. */
    predicate Mixes(round: Round)
      reads this`state, this`filling
    {
      round.enough && (filling != FsFilling || IsStopped() || state == Pausing || round.full) && state != Paused &&
        state != Terminated
    }

    /** Whether a normal track that is not mixed is only waiting for its presentation to complete. */
    predicate Waits()
      reads this`state
    {
      shared || state == Terminated || IsStopped() || state == Paused
    }

    /** The frame count at which what the track has handed over will have been played: fixed by the first question. */
    function Deadline(hal: Hal): nat
      reads this`presented
    {
      if presented == 0 then hal.written + hal.latency else presented
    }

    /** presentationComplete */
    method PresentationComplete(hal: Hal) returns (complete: bool)
      modifies this`presented
      ensures presented == old(Deadline(hal)) && complete == (hal.written >= presented)
    {
      if presented == 0 {
        presented := hal.written + hal.latency;
      }
      complete := hal.written >= presented;
    }

    /** The mixer cycle for a normal track that is in the active list. */
    method MixNormal(round: Round, hal: Hal) returns (removed: bool)
      requires Valid() && inActiveList && !fast
      modifies this`state, this`inActiveList, this`filling, this`resetDone, this`retryCount, this`presented
      ensures presented == if !old(Mixes(round)) && old(Waits()) then old(Deadline(hal)) else old(presented)
      ensures Valid() && inActiveList == !removed && Playing(state) == Playing(old(state))
      ensures old(Mixes(round)) ==> !removed && retryCount == MAX_RETRIES
      ensures old(Mixes(round)) ==>
                state == (if old(state) == Pausing then Paused
                          else if old(state) == Resuming && old(filling) != FsActive then Active else old(state))
      ensures !old(Mixes(round)) && old(Waits()) ==>
                removed == (hal.written >= old(Deadline(hal))) && retryCount == old(retryCount)
      ensures !old(Mixes(round)) && old(Waits()) ==>
                state == if removed && old(state) == Flushed && !old(resetDone) then Idle else old(state)
      ensures !old(Mixes(round)) && !old(Waits()) ==>
                removed == (old(retryCount) <= 1) && retryCount == old(retryCount) - 1 && state == old(state)
      ensures removed ==
              if old(state) in {Paused, Terminated} || (old(state) in {Stopped, Flushed} && !round.enough)
              then hal.written >= if old(presented) == 0 then hal.written + hal.latency else old(presented)
              else if round.enough &&
                      (old(filling) != FsFilling || old(state) in {Stopped, Flushed, Pausing} || round.full)
              then false
              else if shared
              then hal.written >= if old(presented) == 0 then hal.written + hal.latency else old(presented)
              else old(retryCount) <= 1
    {
      removed := false;
      var ready := round.enough;
      if ready {
        ready := IsReady(round.full);
      }
      if ready && state != Paused && state != Terminated {
        if filling == FsFilled {
          filling := FsActive;
          if state == Resuming {
            state := Active;
          }
        }
        if round.muted || state == Pausing {
          if state == Pausing {
            state := Paused;
          }
        }
        retryCount := MAX_RETRIES;
      } else if shared || state == Terminated || IsStopped() || state == Paused {
        var complete := PresentationComplete(hal);
        if complete {
          if IsStopped() {
            Reset();
          }
          removed := true;
        }
      } else {
        retryCount := retryCount - 1;
        if retryCount <= 0 {
          removed := true;
        }
      }
      if removed {
        inActiveList := false;
      }
    }

    /** Whether a fast track is only waiting for its presentation to complete. */
    predicate FastWaits(u: Underruns)
      reads this`state
    {
      || state in {Stopping2, Paused, Terminated, Stopped, Flushed}
      || (state == Active && shared && u.recentPartial + u.recentEmpty > 0)
    }

    /** The mixer cycle for a fast track that is in the active list. `fatal` is the LOG_FATAL for a track that goes
        before the fast mixer has seen it: exactly if it has nothing to play on its first cycle and the HAL reports
        no latency. */
    method MixFast(u: Underruns, hal: Hal) returns (removed: bool, fatal: bool)
      requires Valid() && inActiveList && fast
      modifies this`state, this`inActiveList, this`filling, this`resetDone, this`retryCount, this`masked, this`presented
      ensures masked == !removed && fatal == (!old(masked) && old(FastWaits(u)) && hal.latency == 0)
      ensures presented == if old(FastWaits(u)) then old(Deadline(hal)) else old(presented)
      ensures Valid() && inActiveList == !removed && Playing(state) == Playing(old(state))
      ensures old(FastWaits(u)) ==> removed == (hal.written >= old(Deadline(hal)))
      ensures old(FastWaits(u)) ==>
                state == (if !removed then old(state)
                          else if old(state) == Stopping2 then Stopped
                          else if old(state) == Flushed && !old(resetDone) then Idle else old(state))
      ensures !old(FastWaits(u)) ==>
                state == (match old(state)
                          case Stopping1 => if u.recentPartial + u.recentEmpty > 0 then Stopping2 else Stopping1
                          case Pausing => Paused
                          case Resuming => Active
                          case _ => old(state))
      ensures !old(FastWaits(u)) ==>
                removed == (old(state) == Active && u.recentEmpty > 0 && u.recentFull == 0 && u.recentPartial == 0 &&
                            old(retryCount) <= 1)
      ensures removed ==
              match old(state)
              case Stopping1 | Pausing | Resuming => false
              case Active =>
                if !shared then u.recentEmpty > 0 && u.recentFull + u.recentPartial == 0 && old(retryCount) <= 1
                else u.recentPartial + u.recentEmpty > 0 &&
                     hal.written >= if old(presented) == 0 then hal.written + hal.latency else old(presented)
              case _ => hal.written >= if old(presented) == 0 then hal.written + hal.latency else old(presented)
    {
      removed, fatal := false, false;
      var recent := u.recentPartial + u.recentEmpty;
      var drained := false;
      match state {
        case Stopping1 =>
          if recent > 0 {
            state := Stopping2;
          }
        case Pausing =>
          state := Paused;
        case Resuming =>
          state := Active;
        case Active =>
          if u.recentFull > 0 || u.recentPartial > 0 {
            retryCount := MAX_RETRIES;
          }
          if recent != 0 {
            if shared {
              drained := true;
            } else if u.recentEmpty != 0 {
              retryCount := retryCount - 1;
              if retryCount <= 0 {
                removed := true;
              }
            }
          }
        case Idle =>
          assert false;
        case _ =>
          drained := true;
      }
      if drained {
        var complete := PresentationComplete(hal);
        if complete {
          Finish();
          removed := true;
        }
      }
      if !removed {
        masked := true;
      } else {
        if masked {
          masked := false;
        } else {
          fatal := true;
        }
        inActiveList := false;
      }
    }

    /** A fast track whose presentation is complete is reset if it was stopped. */
    method Finish()
      modifies this`state, this`resetDone, this`filling
      ensures state == (if old(state) == Stopping2 then Stopped
                        else if old(state) == Flushed && !old(resetDone) then Idle else old(state))
    {
      if state == Stopping2 {
        state := Stopped;
      }
      if IsStopped() {
        Reset();
      }
    }
  }

  /** With a HAL that reports no latency, the fatal case is reached by a fast track that is started, stopped and
      flushed between two mixer cycles; with any other the track stays for at least that cycle. */
  method GoneBeforeSeen(u: Underruns, hal: Hal) returns (track: Track, fatal: bool)
    ensures fresh(track) && fatal == (hal.latency == 0) && track.masked == !fatal
  {
    hide Alternating, Balance;
    track := new Track(true, false);
    var ok := track.Start(true);
    track.Stop();
    track.Flush();
    assert track.state == Flushed && !track.masked && track.presented == 0;
    var removed;
    removed, fatal := track.MixFast(u, hal);
  }
}
