/** The active track count of the one effect chain of a direct output thread, from
    audioflinger/4.1.2/AudioFlinger.cpp. Its chain works on the mix buffer, so addTrack_l does not count a track that
    starts, while the thread's own prepareTracks_l does take one off the count for each track that goes. */
module DirectCounters {

  import opened EffectSpec
  import opened Effects
  import opened TrackCounters

  class DirectThread {
    const mixBuffer: Buffer
    const session: int         // the session it plays
    var chain: EffectChain?
    var tracks: seq<Track>
    var active: seq<Track>
    ghost var uncounted: nat   // tracks started since the chain came

    ghost predicate Valid()
      reads this, tracks, chain
    {
      && session > 0 && (forall t :: t in active ==> t in tracks)
      && (forall t :: t in tracks ==> t.session == session && t.mainBuffer == mixBuffer)
      && (chain != null ==>
            && chain.session == session && chain.inBuffer == mixBuffer
            && chain.activeTrackCnt + uncounted == Count(active, session))
    }

    /** The chain's count of active tracks is right. */
    ghost predicate CountRight()
      reads this, chain
    {
      chain != null ==> chain.activeTrackCnt == Count(active, session)
    }

    constructor (mixBuffer: Buffer, session: int)
      requires session > 0
      ensures Valid() && tracks == [] && active == [] && chain == null
      ensures this.session == session && this.mixBuffer == mixBuffer
    {
      this.mixBuffer, this.session, chain, tracks, active, uncounted := mixBuffer, session, null, [], [], 0;
    }

    /** The end of createTrack_l, for the list of tracks. */
    method CreateTrack() returns (track: Track)
      requires Valid()
      modifies this`tracks
      ensures Valid() && fresh(track) && tracks == old(tracks) + [track] && uncounted == old(uncounted)
    {
      track := new Track(session, mixBuffer);
      tracks := tracks + [track];
    }

    /** addEffectChain_l */
    method AddEffectChain(c: EffectChain)
      requires Valid() && chain == null && c.session == session && c.activeTrackCnt == 0
      modifies this`chain, this`uncounted, c`inBuffer, c`outBuffer, c`activeTrackCnt
      ensures Valid() && chain == c && uncounted == 0 && CountRight()
    {
      c.activeTrackCnt := CountOf(active, session);
      c.inBuffer, c.outBuffer := mixBuffer, mixBuffer;
      chain, uncounted := c, 0;
    }

    /** addTrack_l: the track's buffer is the mix buffer, so no chain is told. */
    method AddTrack(track: Track)
      requires Valid() && track in tracks
      modifies this`active, this`uncounted
      ensures Valid() && active == if track in old(active) then old(active) else old(active) + [track]
      ensures uncounted == old(uncounted) + if track in old(active) || chain == null then 0 else 1
    {
      if track !in active {
        CountAdded(active, track, session);
        active := active + [track];
        assert track.mainBuffer == mixBuffer;
        if chain != null {
          uncounted := uncounted + 1;
        }
      }
    }

    /** The end of prepareTracks_l: the chain loses one from its count. */
    method Deactivate(track: Track)
      requires Valid() && track in active
      modifies this`active, (if chain == null then {} else {chain})`activeTrackCnt
      ensures Valid() && active == Dropped(old(active), track) && uncounted == old(uncounted)
      ensures chain != null ==> chain.activeTrackCnt == old(chain.activeTrackCnt) - 1
    {
      CountDropped(active, track, session);
      active := Dropped(active, track);
      if chain != null {
        chain.activeTrackCnt := chain.activeTrackCnt - 1;
      }
    }

    /** The count is right if and only if no track was started since the chain came. */
    lemma CountRightIff()
      requires Valid() && chain != null
      ensures CountRight() <==> uncounted == 0
    {}
  }

  /** The second loop of addEffectChain_l. */
  method CountOf(ts: seq<Track>, session: int) returns (n: nat)
    ensures n == Count(ts, session)
  {
    n := 0;
    var i := 0;
    while i < |ts|
      invariant 0 <= i <= |ts| && n == Count(ts[..i], session)
    {
      CountAdded(ts[..i], ts[i], session);
      assert ts[..i + 1] == ts[..i] + [ts[i]];
      if ts[i].session == session {
        n := n + 1;
      }
      i := i + 1;
    }
    assert ts[..i] == ts;
  }

  lemma NoTracks(session: int)
    ensures Count([], session) == 0
  {}

  lemma OneTrack(t: Track)
    ensures Dropped([t], t) == []
  {}

  /** A track that plays once after its chain came leaves the count at -1. */
  method PlayedOnce(mixBuffer: Buffer, session: int) returns (thread: DirectThread, chain: EffectChain)
    requires session > 0
    ensures fresh(thread) && thread.chain == chain && thread.active == [] && chain.activeTrackCnt == -1
  {
    hide Count, Dropped;
    thread := new DirectThread(mixBuffer, session);
    NoTracks(session);
    chain := new EffectChain(session);
    thread.AddEffectChain(chain);
    var track := thread.CreateTrack();
    thread.AddTrack(track);
    OneTrack(track);
    assert thread.active == [track];
    thread.Deactivate(track);
  }
}
