/** The per-session track accounting of a mixer thread in audioflinger/4.1.2/AudioFlinger.cpp: which
    buffer a track mixes into, and how many tracks a chain counts. */
module TrackCounters {

  import opened EffectSpec
  import opened Effects
  import opened EffectMove

  class Track {
    const session: int
    var mainBuffer: Buffer
    var terminated: bool
    var auxEffectId: nat       // 0 for no auxiliary effect
    var auxBuffer: Buffer

    /** A new track mixes into the thread's mix buffer and sends to no auxiliary effect. */
    constructor (session: int, mixBuffer: Buffer)
      ensures this.session == session && mainBuffer == mixBuffer && !terminated && auxEffectId == 0
    {
      this.session, mainBuffer, terminated, auxEffectId, auxBuffer := session, mixBuffer, false, 0, 0;
    }
  }

  /** How many of these tracks belong to the session. */
  function Count(ts: seq<Track>, session: int): nat {
    if ts == [] then 0
    else
      var front := ts[..|ts| - 1];
      Count(front, session) + if ts[|ts| - 1].session == session then 1 else 0
  }

  ghost predicate NoRepeats(ts: seq<Track>) {
    forall i, j :: 0 <= i < j < |ts| ==> ts[i] != ts[j]
  }

  function Dropped(ts: seq<Track>, t: Track): (r: seq<Track>)
    ensures forall u :: u in r ==> u in ts
    ensures t !in ts ==> r == ts
  {
    if ts == [] then []
    else
      var front := ts[..|ts| - 1];
      if ts[|ts| - 1] == t then front else Dropped(front, t) + [ts[|ts| - 1]]
  }

  lemma CountAdded(ts: seq<Track>, t: Track, session: int)
    ensures Count(ts + [t], session) == Count(ts, session) + if t.session == session then 1 else 0
  {
    assert (ts + [t])[..|ts + [t]| - 1] == ts;
  }

  lemma {:induction false} CountDropped(ts: seq<Track>, t: Track, session: int)
    requires t in ts
    ensures Count(Dropped(ts, t), session) == Count(ts, session) - if t.session == session then 1 else 0
  {
    var front, last := ts[..|ts| - 1], ts[|ts| - 1];
    if last != t {
      assert ts == front + [last];
      CountDropped(front, t, session);
      CountAdded(Dropped(front, t), last, session);
    }
  }

  lemma {:induction false} DroppedOnce(ts: seq<Track>, t: Track)
    requires NoRepeats(ts)
    ensures NoRepeats(Dropped(ts, t)) && t !in Dropped(ts, t)
    ensures forall u :: u in ts && u != t ==> u in Dropped(ts, t)
  {
    if ts != [] {
      var front, last := ts[..|ts| - 1], ts[|ts| - 1];
      assert ts == front + [last];
      if last == t {
        assert forall i :: 0 <= i < |front| ==> front[i] == ts[i] && ts[i] != ts[|ts| - 1];
      } else {
        DroppedOnce(front, t);
        assert last !in front;
      }
    }
  }

  // ----- the invariant -----

  /** What a chain counts, for a session that tracks can have. */
  ghost predicate Counted(c: EffectChain, tracks: seq<Track>, active: seq<Track>, mixBuffer: Buffer)
    reads c`trackCnt, c`activeTrackCnt, c`inBuffer
  {
    c.session > 0 ==>
      c.trackCnt == Count(tracks, c.session) && c.activeTrackCnt == Count(active, c.session) && c.inBuffer != mixBuffer
  }

  /** A track mixes into its session's chain if there is one, else into the mix buffer. */
  ghost predicate Routed(t: Track, chains: seq<EffectChain>, mixBuffer: Buffer)
    reads t`mainBuffer, (if Find(chains, t.session) == null then {} else {Find(chains, t.session)})`inBuffer
  {
    t.session > 0 ==>
      t.mainBuffer == if Find(chains, t.session) == null then mixBuffer else Find(chains, t.session).inBuffer
  }

  /** A track sends to nothing, or to the input of an auxiliary effect of this chain. */
  ghost predicate Sent(t: Track, c: EffectChain?)
    reads t`auxEffectId, t`auxBuffer, (if c == null then {} else {c})`effects
    reads (if c == null then {} else set e | e in c.effects)`inBuffer
  {
    t.auxEffectId != 0 ==>
      && c != null
      && exists e :: e in c.effects && e.id == t.auxEffectId && e.mode == Auxiliary && e.inBuffer == t.auxBuffer
  }

  /** Sent to another effect than this one. */
  ghost predicate SentPast(t: Track, c: EffectChain?, effect: EffectModule)
    reads t`auxEffectId, t`auxBuffer, (if c == null then {} else {c})`effects
    reads (if c == null then {} else set e | e in c.effects)`inBuffer
  {
    t.auxEffectId != 0 ==>
      && c != null
      && exists e :: (e in c.effects && e != effect && e.id == t.auxEffectId
                      && e.mode == Auxiliary && e.inBuffer == t.auxBuffer)
  }

  class MixerThread {
    const thread: PlaybackThread
    var tracks: seq<Track>
    var active: seq<Track>

    /** Counters and buffers are right for this list of chains. */
    ghost predicate ValidFor(chains: seq<EffectChain>)
      reads this`tracks, this`active, (set t | t in tracks)`mainBuffer
      reads (set c | c in chains)`trackCnt, (set c | c in chains)`activeTrackCnt, (set c | c in chains)`inBuffer
    {
      && !thread.direct && Descending(chains)
      && NoRepeats(tracks) && NoRepeats(active) && (forall t :: t in active ==> t in tracks)
      && (forall c :: c in chains ==> Counted(c, tracks, active, thread.mixBuffer))
      && (forall t :: t in tracks ==> Routed(t, chains, thread.mixBuffer))
    }

    ghost predicate Valid()
      reads this`tracks, this`active, thread`chains, (set t | t in tracks)`mainBuffer
      reads (set c | c in thread.chains)`trackCnt, (set c | c in thread.chains)`activeTrackCnt,
            (set c | c in thread.chains)`inBuffer
    {
      ValidFor(thread.chains)
    }

    /** The chain of AUDIO_SESSION_OUTPUT_MIX, which holds the auxiliary effects. */
    ghost function MixChain(): EffectChain?
      reads thread`chains
    {
      Find(thread.chains, 0)
    }

    ghost function MixChains(): set<EffectChain>
      reads thread`chains
    {
      if MixChain() == null then {} else {MixChain()}
    }

    ghost function MixEffects(): set<EffectModule>
      reads thread`chains, MixChains()`effects
    {
      if MixChain() == null then {} else set e | e in MixChain().effects
    }

    /** No track sends to an effect that is not there. */
    ghost predicate Sends()
      reads this`tracks, thread`chains, (set t | t in tracks)`auxEffectId, (set t | t in tracks)`auxBuffer
      reads MixChains()`effects, MixEffects()`inBuffer
    {
      forall t :: t in tracks ==> Sent(t, MixChain())
    }

    constructor (thread: PlaybackThread)
      requires thread.chains == [] && !thread.direct
      ensures Sends() && Valid() && tracks == [] && active == [] && this.thread == thread
    {
      this.thread, tracks, active := thread, [], [];
    }

    /** The end of createTrack_l: the new track joins the list and its session's chain. */
    method CreateTrack(session: int) returns (track: Track)
      requires Valid()
      modifies this`tracks, (set c | c in thread.chains)`trackCnt
      ensures Valid() && fresh(track) && track.session == session && tracks == old(tracks) + [track]
      ensures old(Sends()) ==> Sends()
    {
      hide Find, Descending, Count, Sent;
      track := new Track(session, thread.mixBuffer);
      NoSend(track, MixChain());
      var chain := GetEffectChain(thread.chains, session);
      ghost var before := tracks;
      assert track !in tracks;
      tracks := tracks + [track];
      if chain != null {
        track.mainBuffer := chain.inBuffer;
        chain.trackCnt := chain.trackCnt + 1;
      }
      forall c | c in thread.chains ensures Counted(c, tracks, active, thread.mixBuffer) {
        CountAdded(before, track, c.session);
        SameSession(thread.chains, c);
      }
    }

    /** addTrack_l: a track that is not active yet becomes active. */
    method AddTrack(track: Track) returns (added: bool)
      requires Valid() && track in tracks
      modifies this`active, (set c | c in thread.chains)`activeTrackCnt
      ensures Valid() && added == (track !in old(active))
      ensures active == if added then old(active) + [track] else old(active)
    {
      hide Find, Descending, Count;
      added := false;
      if track !in active {
        ghost var before := active;
        active := active + [track];
        assert Routed(track, thread.chains, thread.mixBuffer);
        if track.mainBuffer != thread.mixBuffer {
          var chain := GetEffectChain(thread.chains, track.session);
          if chain != null {
            chain.activeTrackCnt := chain.activeTrackCnt + 1;
          }
        }
        added := true;
        forall c | c in thread.chains ensures Counted(c, tracks, active, thread.mixBuffer) {
          CountAdded(before, track, c.session);
          SameSession(thread.chains, c);
        }
      }
    }

    /** removeTrack_l */
    method RemoveTrack(track: Track)
      requires Valid() && track in tracks && track !in active
      modifies this`tracks, (set c | c in thread.chains)`trackCnt
      ensures Valid() && tracks == Dropped(old(tracks), track)
      ensures old(Sends()) ==> Sends()
    {
      hide Find, Descending, Dropped, Count, NoRepeats;
      ghost var before := tracks;
      tracks := Dropped(tracks, track);
      DroppedOnce(before, track);
      var chain := GetEffectChain(thread.chains, track.session);
      if chain != null {
        chain.trackCnt := chain.trackCnt - 1;
      }
      forall c | c in thread.chains ensures Counted(c, tracks, active, thread.mixBuffer) {
        CountDropped(before, track, c.session);
        SameSession(thread.chains, c);
      }
    }

    /** destroyTrack_l: an active track stays until the mixer removes it. */
    method DestroyTrack(track: Track)
      requires Valid() && track in tracks
      modifies this`tracks, track`terminated, (set c | c in thread.chains)`trackCnt
      ensures Valid() && track.terminated
      ensures tracks == if track in active then old(tracks) else Dropped(old(tracks), track)
      ensures old(Sends()) ==> Sends()
    {
      track.terminated := true;
      if track !in active {
        RemoveTrack(track);
      }
    }

    /** One turn of the removal loop of prepareTracks_l. */
    method Deactivate(track: Track)
      requires Valid() && track in active
      modifies this`tracks, this`active, (set c | c in thread.chains)`trackCnt,
               (set c | c in thread.chains)`activeTrackCnt
      ensures Valid() && active == Dropped(old(active), track)
      ensures tracks == if track.terminated then Dropped(old(tracks), track) else old(tracks)
      ensures old(Sends()) ==> Sends()
    {
      hide Find, Descending, Dropped, Count, NoRepeats;
      ghost var before := active;
      assert Routed(track, thread.chains, thread.mixBuffer);
      active := Dropped(active, track);
      DroppedOnce(before, track);
      if track.mainBuffer != thread.mixBuffer {
        var chain := GetEffectChain(thread.chains, track.session);
        if chain != null {
          chain.activeTrackCnt := chain.activeTrackCnt - 1;
        }
      }
      forall c | c in thread.chains ensures Counted(c, tracks, active, thread.mixBuffer) {
        CountDropped(before, track, c.session);
        SameSession(thread.chains, c);
      }
      if track.terminated {
        RemoveTrack(track);
      }
    }

    /** The removal loop of prepareTracks_l. */
    method RemoveTracks(toRemove: seq<Track>)
      requires Valid() && NoRepeats(toRemove) && forall t :: t in toRemove ==> t in active
      modifies this`tracks, this`active, (set c | c in thread.chains)`trackCnt,
               (set c | c in thread.chains)`activeTrackCnt
      ensures Valid()
      ensures forall t :: t in active <==> t in old(active) && t !in toRemove
      ensures forall t :: t in tracks <==> t in old(tracks) && !(t in toRemove && t.terminated)
      ensures old(Sends()) ==> Sends()
    {
      hide Find, Descending, Count, Dropped, Routed, Counted;
      var i := 0;
      while i < |toRemove|
        invariant 0 <= i <= |toRemove| && Valid()
        invariant forall t :: t in active <==> t in old(active) && t !in toRemove[..i]
        invariant forall t :: t in tracks <==> t in old(tracks) && !(t in toRemove[..i] && t.terminated)
        invariant old(Sends()) ==> Sends()
      {
        var t := toRemove[i];
        assert t !in toRemove[..i];
        DroppedOnce(active, t);
        DroppedOnce(tracks, t);
        Deactivate(t);
        i := i + 1;
        assert toRemove[..i] == toRemove[..i - 1] + [t];
      }
      assert toRemove[..i] == toRemove;
    }

    /** The first loop of addEffectChain_l: the session's tracks move to the chain's buffer and are counted. */
    method AttachTracks(chain: EffectChain, buffer: Buffer)
      modifies chain`trackCnt, (set t | t in tracks)`mainBuffer
      ensures chain.trackCnt == old(chain.trackCnt) + Count(tracks, chain.session)
      ensures forall t :: t in tracks ==>
                t.mainBuffer == if t.session == chain.session then buffer else old(t.mainBuffer)
    {
      var i := 0;
      while i < |tracks|
        invariant 0 <= i <= |tracks| && chain.trackCnt == old(chain.trackCnt) + Count(tracks[..i], chain.session)
        invariant forall t :: t in tracks[..i] ==>
                    t.mainBuffer == if t.session == chain.session then buffer else old(t.mainBuffer)
        invariant forall t :: t in tracks && t !in tracks[..i] ==> t.mainBuffer == old(t.mainBuffer)
      {
        var t := tracks[i];
        assert t in tracks;
        CountAdded(tracks[..i], t, chain.session);
        assert tracks[..i + 1] == tracks[..i] + [t];
        if chain.session == t.session {
          t.mainBuffer := buffer;
          chain.trackCnt := chain.trackCnt + 1;
        }
        i := i + 1;
      }
      assert tracks[..i] == tracks;
    }

    /** The loops over the active tracks in addEffectChain_l and removeEffectChain_l. */
    method CountActive(chain: EffectChain, step: int)
      modifies chain`activeTrackCnt
      ensures chain.activeTrackCnt == old(chain.activeTrackCnt) + step * Count(active, chain.session)
    {
      var i := 0;
      while i < |active|
        invariant 0 <= i <= |active|
        invariant chain.activeTrackCnt == old(chain.activeTrackCnt) + step * Count(active[..i], chain.session)
      {
        CountAdded(active[..i], active[i], chain.session);
        assert active[..i + 1] == active[..i] + [active[i]];
        if chain.session == active[i].session {
          chain.activeTrackCnt := chain.activeTrackCnt + step;
        }
        i := i + 1;
      }
      assert active[..i] == active;
    }

    /** addEffectChain_l on a mixer thread; newBuffer is the input buffer it allocates. */
    method AddEffectChain(chain: EffectChain, newBuffer: Buffer)
      requires Valid() && Find(thread.chains, chain.session) == null && newBuffer != thread.mixBuffer
      requires chain.trackCnt == 0 && chain.activeTrackCnt == 0
      modifies thread`chains, chain`inBuffer, chain`outBuffer, chain`trackCnt, chain`activeTrackCnt,
               (set t | t in tracks)`mainBuffer
      ensures Valid() && thread.chains == Inserted(old(thread.chains), chain)
      ensures NewBuffers(chain, newBuffer) && (old(Sends()) ==> Sends())
    {
      hide ValidFor, Find, Inserted, Sent, Descending;
      ghost var before := thread.chains;
      assert chain !in before;
      InValid(before);
      thread.AddEffectChain(chain, newBuffer);
      InsertedFind(before, chain, 0);
      CountIn(chain, before);
      if old(Sends()) {
        SendsToNone(tracks, Find(before, 0), MixChain());
      }
    }

    /** The buffers of a new chain. */
    ghost predicate NewBuffers(chain: EffectChain, newBuffer: Buffer)
      reads chain`inBuffer, chain`outBuffer
    {
      chain.outBuffer == thread.mixBuffer && chain.inBuffer == if chain.session > 0 then newBuffer else thread.mixBuffer
    }

    /** The part of addEffectChain_l that attaches the session's tracks to a new chain and counts them. */
    method CountIn(chain: EffectChain, ghost before: seq<EffectChain>)
      requires ValidFor(before) && thread.chains == Inserted(before, chain) && Find(before, chain.session) == null
      requires chain.trackCnt == 0 && chain.activeTrackCnt == 0
      requires chain.session > 0 ==> chain.inBuffer != thread.mixBuffer
      modifies chain`trackCnt, chain`activeTrackCnt, (set t | t in tracks)`mainBuffer
      ensures Valid()
    {
      hide Descending, Find, Slot, Count, NoRepeats, Inserted;
      assert chain !in before;
      if chain.session > 0 {
        AttachTracks(chain, chain.inBuffer);
        CountActive(chain, 1);
      }
      InsertedMembers(before, chain);
      InsertedDescends(before, chain);
      forall c | c in thread.chains ensures Counted(c, tracks, active, thread.mixBuffer) {
        assert c == chain || (c in before && c != chain);
      }
      forall t | t in tracks ensures Routed(t, thread.chains, thread.mixBuffer) {
        InsertedFind(before, chain, t.session);
      }
    }

    /** The second loop of removeEffectChain_l: the session's tracks go back to the mix buffer. */
    method DetachTracks(chain: EffectChain)
      modifies chain`trackCnt, (set t | t in tracks)`mainBuffer
      ensures chain.trackCnt == old(chain.trackCnt) - Count(tracks, chain.session)
      ensures forall t :: t in tracks ==>
                t.mainBuffer == if t.session == chain.session then thread.mixBuffer else old(t.mainBuffer)
    {
      var i := 0;
      while i < |tracks|
        invariant 0 <= i <= |tracks| && chain.trackCnt == old(chain.trackCnt) - Count(tracks[..i], chain.session)
        invariant forall t :: t in tracks[..i] ==>
                    t.mainBuffer == if t.session == chain.session then thread.mixBuffer else old(t.mainBuffer)
        invariant forall t :: t in tracks && t !in tracks[..i] ==> t.mainBuffer == old(t.mainBuffer)
      {
        var t := tracks[i];
        assert t in tracks;
        CountAdded(tracks[..i], t, chain.session);
        assert tracks[..i + 1] == tracks[..i] + [t];
        if chain.session == t.session {
          t.mainBuffer := thread.mixBuffer;
          chain.trackCnt := chain.trackCnt - 1;
        }
        i := i + 1;
      }
      assert tracks[..i] == tracks;
    }

    /** attachAuxEffect_l */
    method AttachAux(track: Track, effectId: nat) returns (status: Status)
      requires Sends() && track in tracks && (MixChain() != null ==> Distinct(MixChain().effects))
      modifies track`auxEffectId, track`auxBuffer
      ensures Sends()
      ensures status == if effectId == 0 then NoError
                        else if exists e :: e in MixEffects() && e.id == effectId && e.mode == Auxiliary then NoError
                        else if exists e :: e in MixEffects() && e.id == effectId then InvalidOperation
                        else BadValue
      ensures track.auxEffectId == if status == NoError then effectId else old(track.auxEffectId)
    {
      if effectId == 0 {
        track.auxEffectId, track.auxBuffer := 0, 0;
        return NoError;
      }
      var chain := GetEffectChain(thread.chains, 0);
      var effect: EffectModule? := null;
      if chain != null {
        effect := chain.FromId(effectId);
      }
      if effect == null {
        return BadValue;
      }
      if effect.mode != Auxiliary {
        return InvalidOperation;
      }
      track.auxEffectId, track.auxBuffer := effectId, effect.inBuffer;
      status := NoError;
    }

    /** detachAuxEffect_l */
    method DetachAux(effectId: nat)
      modifies (set t | t in tracks)`auxEffectId, (set t | t in tracks)`auxBuffer
      ensures forall t :: t in tracks ==>
                t.auxEffectId == if old(t.auxEffectId) == effectId then 0 else old(t.auxEffectId)
      ensures forall t :: t in tracks ==> t.auxEffectId != 0 ==> t.auxBuffer == old(t.auxBuffer)
    {
      var i := 0;
      while i < |tracks|
        invariant 0 <= i <= |tracks|
        invariant forall t :: t in tracks[..i] ==>
                    t.auxEffectId == if old(t.auxEffectId) == effectId then 0 else old(t.auxEffectId)
        invariant forall t :: t in tracks && t !in tracks[..i] ==> t.auxEffectId == old(t.auxEffectId)
        invariant forall t :: t in tracks && t.auxEffectId != 0 ==> t.auxBuffer == old(t.auxBuffer)
      {
        var t := tracks[i];
        assert t in tracks;
        assert tracks[..i + 1] == tracks[..i] + [t];
        if t.auxEffectId == effectId {
          t.auxEffectId, t.auxBuffer := 0, 0;
        }
        i := i + 1;
      }
      assert tracks[..i] == tracks;
    }

    /** removeEffectChain_l: a chain that is not on the list is left alone. Sends stay good exactly unless it is the
        chain they go to. */
    method RemoveEffectChain(chain: EffectChain)
      requires Valid()
      modifies thread`chains, chain`trackCnt, chain`activeTrackCnt, (set t | t in tracks)`mainBuffer
      ensures Valid() && thread.chains == Without(old(thread.chains), chain)
      ensures chain in old(thread.chains) && chain.session > 0 ==> chain.trackCnt == 0 && chain.activeTrackCnt == 0
      ensures old(Sends()) ==> (Sends() <==> old(MixChain()) != chain || forall t :: t in tracks ==> t.auxEffectId == 0)
    {
      hide ValidFor, Find, Without, Descending;
      ghost var before, mix := thread.chains, MixChain();
      InValid(before);
      Uncount(chain);
      if chain in before {
        WithoutFind(before, chain, 0);
        if mix == chain { SameSession(before, chain); }
      } else {
        assert Without(before, chain) == before;
      }
      if old(Sends()) {
        forall t | t in tracks ensures Sent(t, MixChain()) <==> mix != chain || t.auxEffectId == 0 {
          assert old(Sent(t, mix));
        }
      }
    }

    /** removeEffectChain_l as far as lists, counters and buffers go. */
    method Uncount(chain: EffectChain)
      requires Valid()
      modifies thread`chains, chain`trackCnt, chain`activeTrackCnt, (set t | t in tracks)`mainBuffer
      ensures Valid() && thread.chains == Without(old(thread.chains), chain)
      ensures chain in old(thread.chains) && chain.session > 0 ==> chain.trackCnt == 0 && chain.activeTrackCnt == 0
    {
      hide Descending;
      ghost var before := thread.chains;
      var i := IndexOf(thread.chains, chain);
      if i < |thread.chains| {
        thread.RemoveEffectChain(chain);
        assert chain in before && Counted(chain, tracks, active, thread.mixBuffer);
        CountActive(chain, -1);
        DetachTracks(chain);
        WithoutDescends(before, chain);
        forall t | t in tracks ensures Routed(t, thread.chains, thread.mixBuffer) {
          WithoutFind(before, chain, t.session);
        }
      }
    }

    /** addEffect_l: into the session's chain or a new one, which goes again if the effect is refused. */
    method AddEffect(effect: EffectModule, alive: bool, newBuffer: Buffer, auxBuffer: Buffer) returns (status: Status)
      requires Valid() && Sends() && effect.id > 0 && newBuffer != thread.mixBuffer
      requires effect in MixEffects() ==> effect.session == 0
      requires var c := Find(thread.chains, effect.session); c != null ==> c.Valid()
      modifies thread`chains, effect`chain, effect`inBuffer, effect`outBuffer
      modifies thread.Owners(effect.session)`effects, thread.Members(effect.session)`outBuffer,
               (set t | t in tracks)`mainBuffer
      ensures Valid() && Sends()
      ensures var c := Find(old(thread.chains), effect.session);
              c != null ==>
                && thread.chains == old(thread.chains) && c.Valid()
                && status == AddStatus(old(c.effects), old(c.View()), effect.id, old(effect.Snap()), alive)
                && (status == NoError ==>
                      c.View() == Added(old(c.View()), old(effect.Snap()), c.inBuffer, c.outBuffer))
                && (status != NoError ==> c.effects == old(c.effects) && c.View() == old(c.View()))
      ensures Find(old(thread.chains), effect.session) == null ==>
                && status == (if alive then NoError else NoInit)
                && (status != NoError ==> thread.chains == old(thread.chains))
                && (status == NoError ==>
                      var c := effect.chain;
                      && c != null && fresh(c) && c.Valid() && thread.chains == Inserted(old(thread.chains), c)
                      && multiset(c.effects) == multiset{effect})
    {
      hide ValidFor, Find, Inserted, Added, AddStatus, EffectChain.Valid, EffectChain.View;
      var chain := GetEffectChain(thread.chains, effect.session);
      if chain == null {
        status := AddToNew(effect, alive, newBuffer, auxBuffer);
      } else {
        status := AddToPresent(chain, effect, alive, auxBuffer);
      }
    }

    method AddToPresent(chain: EffectChain, effect: EffectModule, alive: bool, auxBuffer: Buffer)
      returns (status: Status)
      requires Sends() && chain.Valid() && effect.id > 0 && chain in thread.chains
      requires effect in MixEffects() ==> MixChain() == chain
      modifies effect`chain, effect`inBuffer, effect`outBuffer, chain`effects, (set e | e in chain.effects)`outBuffer
      ensures Sends() && chain.Valid()
      ensures status == AddStatus(old(chain.effects), old(chain.View()), effect.id, old(effect.Snap()), alive)
      ensures status == NoError ==>
                && effect.chain == chain && multiset(chain.effects) == multiset(old(chain.effects)) + multiset{effect}
                && chain.View() == Added(old(chain.View()), old(effect.Snap()), chain.inBuffer, chain.outBuffer)
      ensures status != NoError ==> chain.effects == old(chain.effects) && chain.View() == old(chain.View())
    {
      hide Find, Added, EffectChain.Valid, EffectChain.View;
      ghost var mix, es := MixChain(), chain.effects;
      status := thread.AddTo(chain, effect, alive, auxBuffer);
      if status == NoError {
        assert multiset([effect]) == multiset{effect};
        forall e | e in es ensures e in chain.effects { StillIn(es, [effect], chain.effects, e); }
      }
      forall t | t in tracks ensures Sent(t, mix) {
        assert old(Sent(t, mix));
      }
    }

    method AddToNew(effect: EffectModule, alive: bool, newBuffer: Buffer, auxBuffer: Buffer) returns (status: Status)
      requires Valid() && Sends() && effect.id > 0 && newBuffer != thread.mixBuffer
      requires Find(thread.chains, effect.session) == null && effect !in MixEffects()
      modifies thread`chains, effect`chain, effect`inBuffer, effect`outBuffer, (set t | t in tracks)`mainBuffer
      ensures Valid() && Sends() && status == if alive then NoError else NoInit
      ensures status != NoError ==> thread.chains == old(thread.chains)
      ensures status == NoError ==>
                (var c := effect.chain;
                 && c != null && fresh(c) && c.Valid() && thread.chains == Inserted(old(thread.chains), c)
                 && multiset(c.effects) == multiset{effect})
    {
      hide ValidFor, Find, Inserted, Without, Added, Conflict, EffectChain.Valid, EffectChain.View;
      var chain := new EffectChain(effect.session);
      InValid(thread.chains);
      InsertedWithout(thread.chains, chain);
      InsertedDescends(thread.chains, chain);
      InsertedFind(thread.chains, chain, 0);
      AddEffectChain(chain, newBuffer);
      EmptyValid(chain);
      status := AddToPresent(chain, effect, alive, auxBuffer);
      if status != NoError {
        DropEmpty(chain);
      }
    }

    /** removeEffect_l: an auxiliary effect loses its sends, and a chain goes with its last effect. */
    method RemoveEffect(effect: EffectModule)
      requires Valid() && Sends() && effect.chain != null && effect.chain.Valid() && effect in effect.chain.effects
      modifies thread`chains, effect.chain`effects, effect.chain`trackCnt, effect.chain`activeTrackCnt,
               effect`engineEnabled
      modifies (set e | e in effect.chain.effects)`outBuffer
      modifies (set t | t in tracks)`mainBuffer, (set t | t in tracks)`auxEffectId, (set t | t in tracks)`auxBuffer
      ensures Valid() && Sends() && effect.chain.Valid()
      ensures effect.mode == Auxiliary ==> forall t :: t in tracks ==> t.auxEffectId == 0 || t.auxEffectId != effect.id
      ensures thread.chains == if effect.chain.effects != [] then old(thread.chains)
                               else Without(old(thread.chains), effect.chain)
      ensures exists i :: 0 <= i < |old(effect.chain.effects)| && old(effect.chain.effects)[i] == effect &&
                RemovedAt(old(effect.chain.effects), old(effect.chain.View()), effect.chain.effects,
                          effect.chain.View(), effect.chain.outBuffer, i)
      ensures effect.engineEnabled == (old(effect.engineEnabled) && effect.state != Active && effect.state != Stopping)
    {
      hide ValidFor, Find, Without, EffectChain.Valid, EffectChain.View, Sent, SentPast;
      var chain := effect.chain;
      DetachFor(effect);
      var left := TakeFrom(effect);
      if left == 0 {
        DropEmpty(chain);
      }
    }

    /** Sends to an auxiliary effect that is about to go are ended. */
    method DetachFor(effect: EffectModule)
      requires Sends()
      modifies (set t | t in tracks)`auxEffectId, (set t | t in tracks)`auxBuffer
      ensures forall t :: t in tracks ==> SentPast(t, MixChain(), effect)
      ensures effect.mode == Auxiliary ==> forall t :: t in tracks ==> t.auxEffectId == 0 || t.auxEffectId != effect.id
    {
      hide Find;
      ghost var mix := MixChain();
      if effect.mode == Auxiliary {
        DetachAux(effect.id);
      }
      forall t | t in tracks ensures SentPast(t, mix, effect) {
        assert old(Sent(t, mix));
      }
    }

    /** The effect goes; no track sends to it. */
    method TakeFrom(effect: EffectModule) returns (left: nat)
      requires effect.chain != null && effect.chain.Valid() && effect in effect.chain.effects
      requires forall t :: t in tracks ==> SentPast(t, MixChain(), effect)
      modifies effect.chain`effects, effect`engineEnabled, (set e | e in effect.chain.effects)`outBuffer
      ensures effect.chain.Valid() && left == |effect.chain.effects| && Sends()
      ensures exists i :: 0 <= i < |old(effect.chain.effects)| && old(effect.chain.effects)[i] == effect &&
                RemovedAt(old(effect.chain.effects), old(effect.chain.View()), effect.chain.effects,
                          effect.chain.View(), effect.chain.outBuffer, i)
      ensures effect.engineEnabled == (old(effect.engineEnabled) && effect.state != Active && effect.state != Stopping)
    {
      hide Find, EffectChain.Valid, EffectChain.View, Removed;
      var chain := effect.chain;
      ghost var mix, es, v := MixChain(), chain.effects, chain.View();
      left := chain.RemoveEffect(effect);
      ghost var i :| 0 <= i < |es| && es[i] == effect &&
        RemovedAt(es, v, chain.effects, chain.View(), chain.outBuffer, i);
      forall e | e in es && e != effect ensures e in chain.effects {
        OthersStay(es, i, e);
      }
      forall t | t in tracks ensures Sent(t, mix) {
        assert old(SentPast(t, mix, effect));
      }
    }

    /** removeEffectChain_l on a chain without effects. */
    method DropEmpty(chain: EffectChain)
      requires Valid() && Sends() && chain.effects == []
      modifies thread`chains, chain`trackCnt, chain`activeTrackCnt, (set t | t in tracks)`mainBuffer
      ensures Valid() && Sends() && thread.chains == Without(old(thread.chains), chain)
    {
      hide ValidFor, Find, Without;
      ghost var before, mix := thread.chains, MixChain();
      assert chain in before ==> Descending(before) by { InValid(before); }
      RemoveEffectChain(chain);
      if chain in before {
        WithoutFind(before, chain, 0);
      } else {
        assert Without(before, chain) == before;
      }
      forall t | t in tracks ensures Sent(t, MixChain()) {
        assert old(Sent(t, mix));
      }
    }

    /** The sends to the auxiliary effects of a chain that is moved away are ended one by one. */
    method DetachAll(es: seq<EffectModule>)
      modifies (set t | t in tracks)`auxEffectId, (set t | t in tracks)`auxBuffer
      ensures forall t :: t in tracks ==>
                t.auxEffectId == 0 || (t.auxEffectId == old(t.auxEffectId) && t.auxBuffer == old(t.auxBuffer))
      ensures forall t, e :: t in tracks && e in es && e.mode == Auxiliary ==>
                t.auxEffectId == 0 || t.auxEffectId != e.id
    {
      var i := 0;
      while i < |es|
        invariant 0 <= i <= |es|
        invariant forall t :: t in tracks ==>
                    t.auxEffectId == 0 || (t.auxEffectId == old(t.auxEffectId) && t.auxBuffer == old(t.auxBuffer))
        invariant forall t, k :: t in tracks && 0 <= k < i && es[k].mode == Auxiliary ==>
                    t.auxEffectId == 0 || t.auxEffectId != es[k].id
      {
        if es[i].mode == Auxiliary {
          DetachAux(es[i].id);
        }
        i := i + 1;
      }
    }

    /** The chain leaves this thread with its effects: its tracks go back to the mix buffer, and sends to it end. */
    method LetGo(chain: EffectChain)
      requires Valid() && Sends() && chain in thread.chains
      modifies thread`chains, chain`trackCnt, chain`activeTrackCnt
      modifies (set t | t in tracks)`mainBuffer, (set t | t in tracks)`auxEffectId, (set t | t in tracks)`auxBuffer
      ensures Valid() && Sends() && thread.chains == Without(old(thread.chains), chain)
      ensures chain.session > 0 ==> chain.trackCnt == 0 && chain.activeTrackCnt == 0
    {
      hide ValidFor, Find, Without;
      ghost var before, mix := thread.chains, MixChain();
      assert Descending(before) by { InValid(before); }
      RemoveEffectChain(chain);
      DetachAll(chain.effects);
      WithoutFind(before, chain, 0);
      forall t | t in tracks ensures Sent(t, MixChain()) {
        assert old(Sent(t, mix));
      }
    }

    lemma InValid(chains: seq<EffectChain>)
      requires ValidFor(chains)
      ensures Descending(chains) && !thread.direct
    {}
  }

  /** Two threads share neither tracks nor chains. */
  ghost predicate Separate(src: MixerThread, dst: MixerThread)
    reads src`tracks, dst`tracks, src.thread`chains, dst.thread`chains
  {
    && src.thread != dst.thread && (forall t :: t in src.tracks ==> t !in dst.tracks)
    && forall c :: c in src.thread.chains ==> c !in dst.thread.chains
  }

  /** None of these effects gets sends on this thread. */
  ghost predicate NoSends(thread: MixerThread, es: seq<EffectModule>)
    reads thread.thread`chains, thread.MixChains()`effects
  {
    forall e :: e in thread.MixEffects() ==> e !in es
  }

  /** moveEffectChain_l on mixer threads: afterwards the counters, main buffers and sends of both threads are right. */
  method MoveSession(session: int, src: MixerThread, dst: MixerThread, newBuffer: Buffer, auxBuffers: nat -> Buffer)
    returns (status: Status, ghost from: EffectChain?, to: EffectChain?)
    requires src.Valid() && src.Sends() && dst.Valid() && dst.Sends() && (src == dst || Separate(src, dst))
    requires newBuffer != dst.thread.mixBuffer
    requires var c := Find(src.thread.chains, session);
             c != null ==> c.Valid() && forall e :: e in c.effects ==> e.session == session && e.EngineFollows()
    requires Target(src.thread, dst.thread, session) != null ==> Target(src.thread, dst.thread, session).Valid()
    requires src.MixChain() != null ==> src.MixChain().Valid()
    requires dst.MixChain() != null ==> dst.MixChain().Valid()
    modifies src.thread`chains, dst.thread`chains, src.thread.Owners(session)`effects,
             dst.thread.Owners(session)`effects
    modifies src.thread.Owners(session)`trackCnt, src.thread.Owners(session)`activeTrackCnt,
             dst.thread.Members(session)`outBuffer
    modifies src.thread.Members(session)`chain, src.thread.Members(session)`inBuffer,
             src.thread.Members(session)`outBuffer
    modifies src.thread.Members(session)`engineEnabled
    modifies (set t | t in src.tracks)`mainBuffer, (set t | t in src.tracks)`auxEffectId,
             (set t | t in src.tracks)`auxBuffer
    modifies (set t | t in dst.tracks)`mainBuffer
    ensures src.Valid() && src.Sends() && dst.Valid() && dst.Sends()
    ensures from == Find(old(src.thread.chains), session)
    ensures status == if from == null then InvalidOperation else NoError
    ensures from == null ==> src.thread.chains == old(src.thread.chains) && dst.thread.chains == old(dst.thread.chains)
    ensures from != null ==> from.effects == [] && from !in src.thread.chains && from !in dst.thread.chains
    ensures from != null && old(from.effects) != [] ==>
              to != null && to.Valid() && Find(dst.thread.chains, session) == to
    ensures from != null && old(Target(src.thread, dst.thread, session)) == null && to != null ==>
              multiset(to.effects) == multiset(old(from.effects))
  {
    hide Find, MixerThread.ValidFor, EffectChain.Valid, EffectChain.View, Sent, Without, Descending, Taken, Emptied;
    hide Distinct, EffectModule.EngineFollows;
    var chain := GetEffectChain(src.thread.chains, session);
    from, to := chain, null;
    if chain == null {
      return InvalidOperation, from, to;
    }
    status := NoError;
    ghost var es, v := chain.effects, chain.View();
    assert src.thread.Members(session) == set e | e in es;
    ChainTaken(chain, session);
    assert Descending(src.thread.chains) by { src.InValid(src.thread.chains); }
    ListsWithout(src.thread.chains, chain);
    WithoutFind(src.thread.chains, chain, 0);
    src.LetGo(chain);
    NoSendsTo(src, chain);
    NoSendsTo(dst, chain);
    to := Land(src, dst, chain, newBuffer, auxBuffers, session, es, v);
  }

  /** The effects of a chain that has left its thread go to the other one. */
  method Land(src: MixerThread, dst: MixerThread, chain: EffectChain, newBuffer: Buffer, auxBuffers: nat -> Buffer,
              session: int, ghost es: seq<EffectModule>, ghost v: EffectList) returns (to: EffectChain?)
    requires src.Valid() && src.Sends() && dst.Valid() && dst.Sends() && (src == dst || Separate(src, dst))
    requires newBuffer != dst.thread.mixBuffer
    requires Taken(es, v, session) && Distinct(es) && Emptied(chain, es, v, 0) && chain.effects == es
    requires forall e :: e in es ==> e.EngineFollows()
    requires chain.Valid() && chain !in src.thread.chains && chain !in dst.thread.chains && NoSends(src, es)
    requires NoSends(dst, es)
    requires var d := Find(dst.thread.chains, session);
             d != null ==> src != dst && d.Valid()
    modifies src.thread`chains, dst.thread`chains, chain`effects, dst.thread.Owners(session)`effects,
             dst.thread.Members(session)`outBuffer
    modifies (set e | e in es)`chain, (set e | e in es)`inBuffer, (set e | e in es)`outBuffer,
             (set e | e in es)`engineEnabled
    modifies (set t | t in dst.tracks)`mainBuffer
    ensures src.Valid() && src.Sends() && dst.Valid() && dst.Sends()
    ensures chain.effects == [] && chain !in src.thread.chains && chain !in dst.thread.chains
    ensures es != [] ==> to != null
    ensures to != null ==> to.Valid() && Find(dst.thread.chains, session) == to
    ensures Find(old(dst.thread.chains), session) == null && to != null ==> multiset(to.effects) == multiset(es)
  {
    hide Find, MixerThread.ValidFor, EffectChain.Valid, EffectChain.View, Sent, Without, Descending, Taken, Emptied;
    hide Distinct, EffectModule.EngineFollows;
    assert Descending(dst.thread.chains) by { dst.InValid(dst.thread.chains); }
    to := GetEffectChain(dst.thread.chains, session);
    if to == null {
      to := Refill(src, dst, chain, newBuffer, auxBuffers, session, es, v);
    } else {
      FoundInside(dst.thread.chains, session);
      ApartChains(chain, to);
      Join(src, dst, chain, to, newBuffer, auxBuffers, session, es, v);
    }
  }

  /** The other thread's list is as it was, and its sends are still good. */
  ghost predicate KeptApart(thread: MixerThread, chains: seq<EffectChain>)
    reads thread`tracks, thread.thread`chains
    reads (set t | t in thread.tracks)`auxEffectId, (set t | t in thread.tracks)`auxBuffer
    reads thread.MixChains()`effects, thread.MixEffects()`inBuffer
  {
    thread.thread.chains == chains && thread.Sends()
  }

  /** The loop of moveEffectChain_l with a new chain, which takes over the session's tracks. */
  method Refill(src: MixerThread, dst: MixerThread, chain: EffectChain, newBuffer: Buffer, auxBuffers: nat -> Buffer,
                ghost session: int, ghost es: seq<EffectModule>, ghost v: EffectList) returns (to: EffectChain?)
    requires src.Valid() && src.Sends() && dst.Valid() && dst.Sends() && (src == dst || Separate(src, dst))
    requires newBuffer != dst.thread.mixBuffer
    requires Taken(es, v, session) && Distinct(es) && Emptied(chain, es, v, 0) && chain.effects == es
    requires forall e :: e in es ==> e.EngineFollows()
    requires Descending(dst.thread.chains) && Find(dst.thread.chains, session) == null
    requires chain !in src.thread.chains && chain !in dst.thread.chains && NoSends(src, es) && NoSends(dst, es)
    modifies src.thread`chains, dst.thread`chains, chain`effects
    modifies (set e | e in es)`chain, (set e | e in es)`inBuffer, (set e | e in es)`outBuffer,
             (set e | e in es)`engineEnabled
    modifies (set t | t in dst.tracks)`mainBuffer
    ensures dst.Valid() && dst.Sends() && (src == dst || KeptApart(src, old(src.thread.chains)))
    ensures chain.effects == [] && chain !in dst.thread.chains && (to == null <==> es == [])
    ensures to != null ==>
              fresh(to) && to.Valid() && Find(dst.thread.chains, session) == to && multiset(to.effects) == multiset(es)
  {
    hide Find, MixerThread.ValidFor, EffectChain.Valid, EffectChain.View, Without, Descending, Taken, Emptied, Inserted;
    hide Filled, Sent, Distinct, NewOn, EffectModule.EngineFollows;
    ghost var before := dst.thread.chains;
    to := Fill(src, dst, chain, newBuffer, auxBuffers, session, es, v);
    if to != null {
      NotInserted(before, to, chain);
      Settle(dst, to, newBuffer, before);
    }
  }

  /** A new chain takes over its session's tracks. */
  method Settle(dst: MixerThread, to: EffectChain, newBuffer: Buffer, ghost before: seq<EffectChain>)
    requires dst.ValidFor(before) && dst.thread.chains == Inserted(before, to) && Find(before, to.session) == null
    requires NewOn(to, dst.thread, newBuffer) && newBuffer != dst.thread.mixBuffer
    requires forall t :: t in dst.tracks ==> Sent(t, Find(before, 0))
    modifies to`trackCnt, to`activeTrackCnt, (set t | t in dst.tracks)`mainBuffer
    ensures dst.Valid() && dst.Sends()
  {
    hide Find, MixerThread.ValidFor, Inserted, Sent, Descending;
    dst.InValid(before);
    InsertedFind(before, to, 0);
    dst.CountIn(to, before);
    SendsToNone(dst.tracks, Find(before, 0), dst.MixChain());
  }

  /** The effects alone; sends go to effects that do not move. */
  method Fill(src: MixerThread, dst: MixerThread, chain: EffectChain, newBuffer: Buffer, auxBuffers: nat -> Buffer,
              ghost session: int, ghost es: seq<EffectModule>, ghost v: EffectList) returns (to: EffectChain?)
    requires src.Sends() && dst.Sends() && NoSends(src, es) && NoSends(dst, es) && dst.ValidFor(dst.thread.chains)
    requires Taken(es, v, session) && Distinct(es) && Emptied(chain, es, v, 0) && chain.effects == es
    requires forall e :: e in es ==> e.EngineFollows()
    requires Descending(dst.thread.chains) && Find(dst.thread.chains, session) == null
    requires chain !in src.thread.chains && chain !in dst.thread.chains
    modifies src.thread`chains, dst.thread`chains, chain`effects
    modifies (set e | e in es)`chain, (set e | e in es)`inBuffer, (set e | e in es)`outBuffer,
             (set e | e in es)`engineEnabled
    ensures chain.effects == [] && (to == null <==> es == [])
    ensures dst.thread.chains == if to == null then old(dst.thread.chains) else Inserted(old(dst.thread.chains), to)
    ensures src.thread != dst.thread ==> src.thread.chains == old(src.thread.chains)
    ensures to != null ==>
              && fresh(to) && to.Valid() && multiset(to.effects) == multiset(es)
              && Find(dst.thread.chains, session) == to && NewOn(to, dst.thread, newBuffer)
    ensures dst.ValidFor(old(dst.thread.chains))
    ensures forall t :: t in src.tracks ==> Sent(t, old(src.MixChain()))
    ensures forall t :: t in dst.tracks ==> Sent(t, old(dst.MixChain()))
  {
    hide Find, Descending, Taken, Emptied, Inserted, Filled, NewOn, Distinct, EffectModule.EngineFollows;
    hide MixerThread.ValidFor, EffectChain.Valid, EffectChain.View;
    ghost var mixS, mixD := src.MixChain(), dst.MixChain();
    to := MoveAll(src.thread, dst.thread, chain, newBuffer, auxBuffers, session, es, v);
    if to != null {
      FilledAll(to, es, v);
    }
    forall t | t in dst.tracks ensures Sent(t, mixD) {
      assert old(Sent(t, mixD));
    }
    forall t | t in src.tracks ensures Sent(t, mixS) {
      assert old(Sent(t, mixS));
    }
  }

  /** The loop of moveEffectChain_l with a chain that is there already and keeps its tracks. */
  method Join(src: MixerThread, dst: MixerThread, chain: EffectChain, d: EffectChain, newBuffer: Buffer,
              auxBuffers: nat -> Buffer,
              ghost session: int, ghost es: seq<EffectModule>, ghost v: EffectList)
    requires src.Valid() && src.Sends() && dst.Valid() && dst.Sends() && src != dst && Separate(src, dst)
    requires Taken(es, v, session) && Distinct(es) && Emptied(chain, es, v, 0) && chain.effects == es
    requires forall e :: e in es ==> e.EngineFollows()
    requires Descending(dst.thread.chains) && Find(dst.thread.chains, session) == d
    requires chain !in src.thread.chains && chain !in dst.thread.chains && NoSends(src, es) && NoSends(dst, es)
    requires d.Valid() && forall e :: e in d.effects ==> e !in es
    modifies src.thread`chains, dst.thread`chains, chain`effects, d`effects, (set e | e in d.effects)`outBuffer
    modifies (set e | e in es)`chain, (set e | e in es)`inBuffer, (set e | e in es)`outBuffer,
             (set e | e in es)`engineEnabled
    ensures src.Valid() && src.Sends() && dst.Valid() && dst.Sends()
    ensures src.thread.chains == old(src.thread.chains) && dst.thread.chains == old(dst.thread.chains)
    ensures chain.effects == [] && d.Valid()
  {
    hide Find, MixerThread.ValidFor, EffectChain.Valid, EffectChain.View, Without, Descending, Taken, Emptied, Merging;
    hide Gained;
    ghost var ds, w := d.effects, d.View();
    ghost var mixS, mixD := src.MixChain(), dst.MixChain();
    MoveInto(src.thread, dst.thread, chain, d, newBuffer, auxBuffers, session, ds, w, es, v);
    MergedAll(d, ds, w, es, v);
    forall e | e in ds ensures e in d.effects {
      StillIn(ds, Gained(w, v, es, |es|, d.inBuffer, d.outBuffer), d.effects, e);
    }
    forall t | t in dst.tracks ensures Sent(t, mixD) {
      assert old(Sent(t, mixD));
    }
    forall t | t in src.tracks ensures Sent(t, mixS) {
      assert old(Sent(t, mixS));
    }
  }

  lemma NoSend(t: Track, mix: EffectChain?)
    requires t.auxEffectId == 0
    ensures Sent(t, mix)
  {}

  lemma SendsToNone(ts: seq<Track>, mix: EffectChain?, mix': EffectChain?)
    requires (forall t :: t in ts ==> Sent(t, mix)) && (mix == null || mix == mix')
    ensures forall t :: t in ts ==> Sent(t, mix')
  {
    forall t | t in ts ensures Sent(t, mix') {
      assert Sent(t, mix);
    }
  }

  lemma StillIn(ds: seq<EffectModule>, gained: seq<EffectModule>, after: seq<EffectModule>, e: EffectModule)
    requires multiset(after) == multiset(ds) + multiset(gained) && e in ds
    ensures e in after
  {
    assert e in multiset(ds);
    assert e in multiset(after);
  }

  /** A chain that is not on the list shares no effect with the thread's output mix chain. */
  lemma NoSendsTo(thread: MixerThread, chain: EffectChain)
    requires chain.Valid() && chain !in thread.thread.chains
    requires thread.MixChain() != null ==> thread.MixChain().Valid()
    ensures NoSends(thread, chain.effects)
  {
    hide Find, EffectChain.Valid;
    if thread.MixChain() != null {
      FoundInside(thread.thread.chains, 0);
      ApartChains(chain, thread.MixChain());
    }
  }

  lemma OthersStay(es: seq<EffectModule>, i: nat, e: EffectModule)
    requires i < |es| && e in es && e != es[i]
    ensures e in es[..i] + es[i + 1..]
  {
    var k :| 0 <= k < |es| && es[k] == e;
    if k < i { assert es[..i][k] == e; } else { assert es[i + 1..][k - i - 1] == e; }
  }

  lemma {:induction false} InsertedFind(chains: seq<EffectChain>, chain: EffectChain, session: int)
    requires Descending(chains) && Find(chains, chain.session) == null
    ensures Find(Inserted(chains, chain), session) == if session == chain.session then chain else Find(chains, session)
  {
    hide Find, Slot;
    var r, k := Inserted(chains, chain), Slot(chains, chain.session);
    InsertedDescends(chains, chain);
    if session != chain.session && Find(chains, session) != null {
      var i :| 0 <= i < |chains| && chains[i] == Find(chains, session);
      PutAt(chains, chain, k, if i < k then i else i + 1);
      FindUnique(r, if i < k then i else i + 1, session);
    } else if session != chain.session {
      assert forall c :: c in r ==> c == chain || c in chains;
    }
  }

  lemma InsertedMembers(chains: seq<EffectChain>, chain: EffectChain)
    ensures Inserted(chains, chain)
         == chains[..Slot(chains, chain.session)] + [chain] + chains[Slot(chains, chain.session)..]
    ensures forall c :: c in Inserted(chains, chain) ==> c == chain || c in chains
  {
    hide Slot;
  }

  lemma WithoutFind(chains: seq<EffectChain>, chain: EffectChain, session: int)
    requires Descending(chains) && chain in chains
    ensures Find(Without(chains, chain), session) == if session == chain.session then null else Find(chains, session)
  {
    WithoutDescends(chains, chain);
    var r := Without(chains, chain);
    if session != chain.session && Find(chains, session) != null {
      var c := Find(chains, session);
      WithoutKeeps(chains, chain, c);
      SameSession(r, c);
    }
  }

  lemma {:induction false} WithoutKeeps(chains: seq<EffectChain>, chain: EffectChain, c: EffectChain)
    requires c in chains && c != chain
    ensures c in Without(chains, chain)
  {
    if chains[0] != chain && chains[0] != c { WithoutKeeps(chains[1..], chain, c); }
  }

  /** Find gives the chain itself: sessions are unique. */
  lemma SameSession(chains: seq<EffectChain>, c: EffectChain)
    requires Descending(chains) && c in chains
    ensures Find(chains, c.session) == c
  {
    var k :| 0 <= k < |chains| && chains[k] == c;
    FindUnique(chains, k, c.session);
  }
}
