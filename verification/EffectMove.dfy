/** The effect chains of a playback thread and moving a chain between threads, from
    audioflinger/4.1.2/AudioFlinger.cpp. */
module EffectMove {

  import opened EffectSpec
  import opened Effects
  import opened EffectMerge

  /** Chain lists are strictly descending by session. */
  ghost predicate Descending(chains: seq<EffectChain>) {
    forall i, j :: 0 <= i < j < |chains| ==> chains[i].session > chains[j].session
  }

  /** The chain of a session. */
  function Find(chains: seq<EffectChain>, session: int): (c: EffectChain?)
    ensures c == null ==> forall i :: 0 <= i < |chains| ==> chains[i].session != session
    ensures c != null ==> c in chains && c.session == session
  {
    if chains == [] then null else if chains[0].session == session then chains[0] else Find(chains[1..], session)
  }

  /** Where a session's chain goes: before the first chain of a lower session. */
  function Slot(chains: seq<EffectChain>, session: int): (k: nat)
    ensures k <= |chains|
    ensures forall i :: 0 <= i < k ==> chains[i].session >= session
    ensures k < |chains| ==> chains[k].session < session
  {
    if chains == [] || chains[0].session < session then 0 else 1 + Slot(chains[1..], session)
  }

  function Inserted(chains: seq<EffectChain>, chain: EffectChain): seq<EffectChain> {
    chains[..Slot(chains, chain.session)] + [chain] + chains[Slot(chains, chain.session)..]
  }

  function Without(chains: seq<EffectChain>, chain: EffectChain): (r: seq<EffectChain>)
    ensures forall c :: c in r ==> c in chains
    ensures chain !in chains ==> r == chains
  {
    if chains == [] then [] else if chains[0] == chain then chains[1..] else [chains[0]] + Without(chains[1..], chain)
  }

  lemma {:induction false} WithoutAt(chains: seq<EffectChain>, chain: EffectChain, i: nat)
    requires i < |chains| && chains[i] == chain && chain !in chains[..i]
    ensures Without(chains, chain) == chains[..i] + chains[i + 1..]
  {
    if i > 0 {
      assert chains[0] == chains[..i][0];
      assert forall k :: 0 <= k < i - 1 ==> chains[1..][k] == chains[..i][k + 1];
      WithoutAt(chains[1..], chain, i - 1);
    }
  }

  lemma PutAt(chains: seq<EffectChain>, chain: EffectChain, k: nat, i: nat)
    requires k <= |chains| && i <= |chains|
    ensures (chains[..k] + [chain] + chains[k..])[i] ==
            if i < k then chains[i] else if i == k then chain else chains[i - 1]
  {}

  lemma InsertedDescends(chains: seq<EffectChain>, chain: EffectChain)
    requires Descending(chains) && Find(chains, chain.session) == null
    ensures Descending(Inserted(chains, chain)) && Find(Inserted(chains, chain), chain.session) == chain
  {
    hide Find, Slot;
    var k, r := Slot(chains, chain.session), Inserted(chains, chain);
    forall i, j | 0 <= i < j < |r| ensures r[i].session > r[j].session {
      PutAt(chains, chain, k, i);
      PutAt(chains, chain, k, j);
    }
    PutAt(chains, chain, k, k);
    FindUnique(r, k, chain.session);
  }

  lemma {:induction false} FindUnique(chains: seq<EffectChain>, k: nat, session: int)
    requires Descending(chains) && k < |chains| && chains[k].session == session
    ensures Find(chains, session) == chains[k]
  {
    if k > 0 {
      assert chains[0].session > chains[k].session;
      FindUnique(chains[1..], k - 1, session);
    }
  }

  lemma CutAt(chains: seq<EffectChain>, k: nat, i: nat)
    requires k < |chains| && i < |chains| - 1
    ensures (chains[..k] + chains[k + 1..])[i] == if i < k then chains[i] else chains[i + 1]
  {}

  lemma CutDescends(chains: seq<EffectChain>, k: nat)
    requires Descending(chains) && k < |chains|
    ensures Descending(chains[..k] + chains[k + 1..])
  {
    var r := chains[..k] + chains[k + 1..];
    forall i, j | 0 <= i < j < |r| ensures r[i].session > r[j].session {
      CutAt(chains, k, i);
      CutAt(chains, k, j);
    }
  }

  lemma CutAbsent(chains: seq<EffectChain>, k: nat, c: EffectChain)
    requires Descending(chains) && k < |chains| && c in chains[..k] + chains[k + 1..]
    ensures c.session != chains[k].session
  {
    var i :| 0 <= i < |chains| - 1 && (chains[..k] + chains[k + 1..])[i] == c;
    CutAt(chains, k, i);
  }

  lemma WithoutDescends(chains: seq<EffectChain>, chain: EffectChain)
    requires Descending(chains) && chain in chains
    ensures Descending(Without(chains, chain)) && Find(Without(chains, chain), chain.session) == null
    ensures chain !in Without(chains, chain) && |Without(chains, chain)| == |chains| - 1
  {
    hide Without, Find;
    var k :| 0 <= k < |chains| && chains[k] == chain;
    assert chain !in chains[..k];
    WithoutAt(chains, chain, k);
    hide Descending;
    CutDescends(chains, k);
    forall c | c in Without(chains, chain) ensures c.session != chain.session {
      CutAbsent(chains, k, c);
    }
  }

  lemma EmptyValid(chain: EffectChain)
    requires chain.effects == []
    ensures chain.Valid() && chain.View() == []
    ensures forall e: Effect :: !Conflict([], e)
  {}

  lemma InsertedWithout(chains: seq<EffectChain>, chain: EffectChain)
    requires chain !in chains
    ensures Without(Inserted(chains, chain), chain) == chains
  {
    WithoutAt(Inserted(chains, chain), chain, Slot(chains, chain.session));
  }

  /** getEffectChain_l */
  method GetEffectChain(chains: seq<EffectChain>, session: int) returns (chain: EffectChain?)
    ensures chain == Find(chains, session)
  {
    var i := 0;
    assert chains[0..] == chains;
    while i < |chains|
      invariant 0 <= i <= |chains| && Find(chains, session) == Find(chains[i..], session)
    {
      assert chains[i..][1..] == chains[i + 1..];
      if chains[i].session == session {
        return chains[i];
      }
      i := i + 1;
    }
    chain := null;
  }

  /** The search in addEffectChain_l for the place of a new chain. */
  method FindSlot(chains: seq<EffectChain>, session: int) returns (i: nat)
    ensures i == Slot(chains, session)
  {
    i := 0;
    assert chains[0..] == chains;
    while i < |chains|
      invariant 0 <= i <= |chains| && Slot(chains, session) == i + Slot(chains[i..], session)
    {
      assert chains[i..][1..] == chains[i + 1..];
      if chains[i].session < session {
        break;
      }
      i := i + 1;
    }
  }

  /** The search in removeEffectChain_l: the chain itself, not its session. */
  method IndexOf(chains: seq<EffectChain>, chain: EffectChain) returns (i: nat)
    ensures i <= |chains| && chain !in chains[..i] && (i < |chains| ==> chains[i] == chain)
  {
    i := 0;
    while i < |chains|
      invariant 0 <= i <= |chains| && chain !in chains[..i]
    {
      if chains[i] == chain {
        return;
      }
      i := i + 1;
    }
  }

  /** A chain as addEffectChain_l leaves a new one, before its session's tracks are counted. */
  ghost predicate NewOn(c: EffectChain, thread: PlaybackThread, newBuffer: Buffer)
    reads c`inBuffer, c`outBuffer, c`trackCnt, c`activeTrackCnt
  {
    && c.trackCnt == 0 && c.activeTrackCnt == 0 && c.outBuffer == thread.mixBuffer
    && c.inBuffer == if c.session > 0 && !thread.direct then newBuffer else thread.mixBuffer
  }

  class PlaybackThread {
    const mixBuffer: Buffer
    const direct: bool
    var chains: seq<EffectChain>

    constructor (mixBuffer: Buffer, direct: bool)
      ensures chains == [] && Descending(chains)
    {
      this.mixBuffer, this.direct, chains := mixBuffer, direct, [];
    }

    /** addEffectChain_l without its track accounting; newBuffer is the input buffer it allocates. */
    method AddEffectChain(chain: EffectChain, newBuffer: Buffer)
      modifies this`chains, chain`inBuffer, chain`outBuffer
      ensures chains == Inserted(old(chains), chain) && chain.outBuffer == mixBuffer
      ensures chain.inBuffer == if chain.session > 0 && !direct then newBuffer else mixBuffer
    {
      var buffer := mixBuffer;
      if chain.session > 0 {
        if !direct {
          buffer := newBuffer;
        }
      }
      chain.inBuffer := buffer;
      chain.outBuffer := mixBuffer;
      var i := FindSlot(chains, chain.session);
      chains := chains[..i] + [chain] + chains[i..];
    }

    /** removeEffectChain_l without its track accounting. */
    method RemoveEffectChain(chain: EffectChain)
      modifies this`chains
      ensures chains == Without(old(chains), chain)
    {
      var i := IndexOf(chains, chain);
      if i < |chains| {
        WithoutAt(chains, chain, i);
        chains := chains[..i] + chains[i + 1..];
      }
    }

    /** The chain of this session as a set of at most one. */
    ghost function Owners(session: int): set<EffectChain>
      reads this`chains
    {
      if Find(chains, session) == null then {} else {Find(chains, session)}
    }

    /** The effects of this session's chain. */
    ghost function Members(session: int): set<EffectModule>
      reads this`chains, Owners(session)`effects
    {
      if Find(chains, session) == null then {} else set e | e in Find(chains, session).effects
    }

    /** The rest of ThreadBase::addEffect_l once the chain is known: reject an id that is present, else add. */
    method AddTo(chain: EffectChain, effect: EffectModule, alive: bool, auxBuffer: Buffer) returns (status: Status)
      requires chain.Valid() && effect.id > 0
      modifies effect`chain, effect`inBuffer, effect`outBuffer, chain`effects, (set e | e in chain.effects)`outBuffer
      ensures chain.Valid()
      ensures status == AddStatus(old(chain.effects), old(chain.View()), effect.id, old(effect.Snap()), alive)
      ensures status == NoError ==>
                && effect.chain == chain && multiset(chain.effects) == multiset(old(chain.effects)) + multiset{effect}
                && chain.View() == Added(old(chain.View()), old(effect.Snap()), chain.inBuffer, chain.outBuffer)
      ensures status != NoError ==> chain.effects == old(chain.effects) && chain.View() == old(chain.View())
      ensures status != NoError ==> effect.inBuffer == old(effect.inBuffer)
    {
      IdsDiffer(chain, effect);
      hide Added, Conflict, Place, EffectChain.Valid, EffectChain.View;
      var present := chain.FromId(effect.id);
      if present != null {
        return BadValue;
      }
      status := chain.AddEffect(effect, alive, auxBuffer);
    }

    /** ThreadBase::addEffect_l */
    method AddEffect(effect: EffectModule, alive: bool, newBuffer: Buffer, auxBuffer: Buffer) returns (status: Status)
      requires Descending(chains) && effect.id > 0
      requires var c := Find(chains, effect.session); c != null ==> c.Valid()
      modifies this`chains, effect`chain, effect`inBuffer, effect`outBuffer
      modifies Owners(effect.session)`effects, Members(effect.session)`outBuffer
      ensures Descending(chains)
      ensures var c := Find(old(chains), effect.session);
              c != null ==>
                && chains == old(chains) && c.Valid()
                && status == AddStatus(old(c.effects), old(c.View()), effect.id, old(effect.Snap()), alive)
                && (status == NoError ==>
                      && effect.chain == c && multiset(c.effects) == multiset(old(c.effects)) + multiset{effect}
                      && c.View() == Added(old(c.View()), old(effect.Snap()), c.inBuffer, c.outBuffer))
                && (status != NoError ==> c.effects == old(c.effects) && c.View() == old(c.View()))
      ensures Find(old(chains), effect.session) == null ==>
                && status == (if alive then NoError else NoInit)
                && (status != NoError ==> chains == old(chains))
                && (status == NoError ==>
                      var c := effect.chain;
                      && c != null && fresh(c) && NewOn(c, this, newBuffer) && chains == Inserted(old(chains), c)
                      && Find(chains, effect.session) == c && c.Valid() && multiset(c.effects) == multiset{effect}
                      && c.View() == Added([], old(effect.Snap()), c.inBuffer, c.outBuffer))
    {
      hide Added, AddStatus, Descending, Inserted;
      var chain := GetEffectChain(chains, effect.session);
      if chain == null {
        status := AddToNew(effect, alive, newBuffer, auxBuffer);
      } else {
        status := AddTo(chain, effect, alive, auxBuffer);
      }
    }

    /** The case of no chain yet: one is made, and dropped again if the effect is refused. */
    method AddToNew(effect: EffectModule, alive: bool, newBuffer: Buffer, auxBuffer: Buffer) returns (status: Status)
      requires Descending(chains) && effect.id > 0 && Find(chains, effect.session) == null
      modifies this`chains, effect`chain, effect`inBuffer, effect`outBuffer
      ensures Descending(chains) && status == if alive then NoError else NoInit
      ensures status != NoError ==> chains == old(chains)
      ensures status == NoError ==>
                (var c := effect.chain;
                 && c != null && fresh(c) && NewOn(c, this, newBuffer) && chains == Inserted(old(chains), c)
                 && Find(chains, effect.session) == c && c.Valid() && multiset(c.effects) == multiset{effect}
                 && c.View() == Added([], old(effect.Snap()), c.inBuffer, c.outBuffer))
    {
      hide Added, Ordered, Wired, Distinct, Descending, Inserted, Conflict;
      var chain := new EffectChain(effect.session);
      InsertedDescends(chains, chain);
      InsertedWithout(chains, chain);
      AddEffectChain(chain, newBuffer);
      EmptyValid(chain);
      status := AddTo(chain, effect, alive, auxBuffer);
      if status != NoError {
        RemoveEffectChain(chain);
      }
    }

    /** ThreadBase::removeEffect_l, without detaching auxiliary sends from tracks. */
    method RemoveEffect(effect: EffectModule)
      requires effect.chain != null && effect.chain.Valid() && effect in effect.chain.effects
      modifies this`chains, effect.chain`effects, effect`engineEnabled, (set e | e in effect.chain.effects)`outBuffer
      ensures effect.chain.Valid()
      ensures chains == if effect.chain.effects == [] then Without(old(chains), effect.chain) else old(chains)
      ensures exists i :: 0 <= i < |old(effect.chain.effects)| && old(effect.chain.effects)[i] == effect &&
                RemovedAt(old(effect.chain.effects), old(effect.chain.View()), effect.chain.effects,
                          effect.chain.View(), effect.chain.outBuffer, i)
      ensures effect.engineEnabled == (old(effect.engineEnabled) && effect.state != Active && effect.state != Stopping)
    {
      hide EffectChain.Valid, EffectChain.View, RemovedAt, Without;
      var chain := effect.chain;
      var left := chain.RemoveEffect(effect);
      if left == 0 {
        RemoveEffectChain(chain);
      }
    }
  }

  lemma IdsDiffer(chain: EffectChain, effect: EffectModule)
    ensures (forall e :: e in chain.effects ==> e != effect && e.id != effect.id)
            <==> !exists d :: d in chain.effects && d.id == effect.id
  {}

  ghost function AddStatus(es: seq<EffectModule>, v: EffectList, id: nat, e: Effect, alive: bool): Status {
    if exists d :: d in es && d.id == id then BadValue
    else if !alive then NoInit
    else if e.mode != Auxiliary && Conflict(v, e) then InvalidOperation
    else NoError
  }

  // ----- moving -----

  /** The chain that is emptied: what is left of it after k effects. */
  ghost predicate Emptied(chain: EffectChain, es: seq<EffectModule>, v: EffectList, k: nat)
    reads chain`inBuffer, chain`outBuffer, chain`effects, (set e | e in chain.effects)`outBuffer,
          (set e | e in chain.effects)`chain
  {
    k <= |es| == |v| && chain.Valid() && chain.effects == es[k..]
  }

  /** The chain that is filled: it holds the first k effects, put in one by one. */
  ghost predicate Filled(d: EffectChain, es: seq<EffectModule>, v: EffectList, k: nat)
    reads d`inBuffer, d`outBuffer, d`effects, (set e | e in d.effects)`outBuffer, (set e | e in d.effects)`chain
  {
    && k <= |es| == |v| && d.Valid() && multiset(d.effects) == multiset(es[..k])
    && d.View() == Rebuilt(v, k, d.inBuffer, d.outBuffer)
  }

  /** Snapshots of the effects as they were in the chain that is moved. */
  ghost predicate Taken(es: seq<EffectModule>, v: EffectList, session: int) {
    && Distinct(es) && |v| == |es| && Ordered(v)
    && forall i :: 0 <= i < |es| ==>
         es[i].id > 0 && es[i].session == session && v[i] == Effect(es[i].id, es[i].mode, es[i].pref, v[i].out)
  }

  lemma OnlyOnce(es: seq<EffectModule>, k: nat, i: nat)
    requires Distinct(es) && k + i < |es| && es[k + i] == es[k]
    ensures i == 0
  {}

  lemma FrontRemoved(es: seq<EffectModule>, v: EffectList, rest: seq<EffectModule>, w: EffectList, b: Buffer, k: nat,
                     i: nat)
    requires Distinct(es) && k < |es| && i < |es[k..]| && es[k..][i] == es[k] && RemovedAt(es[k..], v, rest, w, b, i)
    ensures rest == es[k + 1..]
  {
    OnlyOnce(es, k, i);
  }

  /** The effect in front leaves the old chain. */
  method TakeOut(src: PlaybackThread, chain: EffectChain, effect: EffectModule, ghost es: seq<EffectModule>,
                 ghost v: EffectList, ghost k: nat)
    requires Distinct(es) && k < |es| && effect == es[k] && Emptied(chain, es, v, k) && chain !in src.chains
    modifies src`chains, chain`effects, effect`engineEnabled, (set e | e in chain.effects)`outBuffer
    ensures Emptied(chain, es, v, k + 1) && src.chains == old(src.chains)
    ensures effect.engineEnabled == (old(effect.engineEnabled) && effect.state != Active && effect.state != Stopping)
  {
    assert effect == chain.effects[0] && effect.chain == chain;
    ghost var before := chain.View();
    hide Distinct, EffectChain.View, EffectChain.Valid, RemovedAt, Without;
    src.RemoveEffect(effect);
    ghost var i :| 0 <= i < |es[k..]| && es[k..][i] == effect &&
      RemovedAt(es[k..], before, chain.effects, chain.View(), chain.outBuffer, i);
    FrontRemoved(es, before, chain.effects, chain.View(), chain.outBuffer, k, i);
  }

  lemma NotYet(ds: seq<EffectModule>, es: seq<EffectModule>, k: nat)
    requires Distinct(es) && k < |es| && multiset(ds) == multiset(es[..k])
    ensures es[k] !in ds && !exists e :: e in ds && e.id == es[k].id
  {
    forall e | e in ds ensures e.id != es[k].id {
      assert e in multiset(ds);
      assert e in es[..k];
    }
  }

  lemma NextFilled(ds: seq<EffectModule>, ds': seq<EffectModule>, es: seq<EffectModule>, k: nat)
    requires k < |es| && multiset(ds) == multiset(es[..k]) && multiset(ds') == multiset(ds) + multiset{es[k]}
    ensures multiset(ds') == multiset(es[..k + 1])
  {
    assert es[..k + 1] == es[..k] + [es[k]];
  }

  /** The next effect of an ordered chain is never refused, and extends the rebuilt chain. */
  lemma NextAccepted(ds: seq<EffectModule>, es: seq<EffectModule>, v: EffectList, k: nat, session: int, snap: Effect,
                     inBuffer: Buffer, outBuffer: Buffer)
    requires Taken(es, v, session) && k < |es| && multiset(ds) == multiset(es[..k])
    requires snap == v[k].(out := snap.out)
    ensures es[k] !in ds
    ensures AddStatus(ds, Rebuilt(v, k, inBuffer, outBuffer), es[k].id, snap, true) == NoError
    ensures Added(Rebuilt(v, k, inBuffer, outBuffer), snap, inBuffer, outBuffer)
         == Rebuilt(v, k + 1, inBuffer, outBuffer)
  {
    NotYet(ds, es, k);
    RebuiltKeeps(v, k, inBuffer, outBuffer);
    AddedIgnoresOut(Rebuilt(v, k, inBuffer, outBuffer), v[k], snap.out, inBuffer, outBuffer);
    hide Added, Distinct, Ordered;
  }

  method PutFirst(dst: PlaybackThread, effect: EffectModule, newBuffer: Buffer, auxBuffer: Buffer,
                  ghost session: int, ghost es: seq<EffectModule>, ghost v: EffectList) returns (d: EffectChain)
    requires Taken(es, v, session) && |es| > 0 && effect == es[0]
    requires Descending(dst.chains) && Find(dst.chains, session) == null
    modifies dst`chains, effect`chain, effect`inBuffer, effect`outBuffer
    ensures fresh(d) && Filled(d, es, v, 1) && NewOn(d, dst, newBuffer)
    ensures dst.chains == Inserted(old(dst.chains), d) && Descending(dst.chains) && Find(dst.chains, session) == d
  {
    assert effect.session == session && effect.id > 0;
    ghost var snap := effect.Snap();
    assert snap == v[0].(out := snap.out);
    hide Descending, Inserted, Taken, Find, Added, EffectChain.Valid, EffectChain.View;
    var status := dst.AddEffect(effect, true, newBuffer, auxBuffer);
    d := effect.chain;
    assert es[..1] == [es[0]];
    FirstFilled(es, v, session, snap, d.inBuffer, d.outBuffer);
  }

  lemma FirstFilled(es: seq<EffectModule>, v: EffectList, session: int, snap: Effect, inBuffer: Buffer,
                    outBuffer: Buffer)
    requires Taken(es, v, session) && |es| > 0 && snap == v[0].(out := snap.out)
    ensures Added([], snap, inBuffer, outBuffer) == Rebuilt(v, 1, inBuffer, outBuffer)
  {
    assert multiset(es[..0]) == multiset([]);
    NextAccepted([], es, v, 0, session, snap, inBuffer, outBuffer);
  }

  method PutNext(dst: PlaybackThread, d: EffectChain, effect: EffectModule, newBuffer: Buffer, auxBuffer: Buffer,
                 ghost session: int, ghost es: seq<EffectModule>, ghost v: EffectList, ghost k: nat)
    requires Taken(es, v, session) && k < |es| && effect == es[k] && Filled(d, es, v, k)
    requires Descending(dst.chains) && Find(dst.chains, session) == d
    modifies dst`chains, effect`chain, effect`inBuffer, effect`outBuffer, d`effects, (set e | e in d.effects)`outBuffer
    ensures Filled(d, es, v, k + 1) && dst.chains == old(dst.chains)
  {
    assert effect.session == session && effect.id > 0;
    ghost var snap, ds := effect.Snap(), d.effects;
    assert snap == v[k].(out := snap.out);
    NextAccepted(ds, es, v, k, session, snap, d.inBuffer, d.outBuffer);
    hide Descending, Taken, Find, Added, AddStatus, Rebuilt, EffectChain.Valid, EffectChain.View;
    var status := dst.AddEffect(effect, true, newBuffer, auxBuffer);
    NextFilled(ds, d.effects, es, k);
  }

  lemma Apart(ds: seq<EffectModule>, es: seq<EffectModule>, k: nat)
    requires Distinct(es) && k <= |es| && multiset(ds) == multiset(es[..k])
    ensures forall e :: e in ds ==> e !in es[k..] && e in es
  {
    forall e | e in ds ensures e !in es[k..] && e in es {
      assert e in multiset(ds);
      var i :| 0 <= i < |es[..k]| && es[..k][i] == e;
      assert es[i] == e;
    }
  }

  lemma EmptiedIs(chain: EffectChain, es: seq<EffectModule>, v: EffectList, k: nat)
    requires Emptied(chain, es, v, k) && Distinct(es)
    ensures k <= |es| && chain.effects == es[k..] && (k > 0 ==> es[k - 1] !in chain.effects)
    ensures forall e :: e in chain.effects ==> e in es
  {
    hide EffectChain.Valid;
    if k > 0 { NotLater(es, k - 1); }
  }

  lemma FilledIs(d: EffectChain, es: seq<EffectModule>, v: EffectList, k: nat)
    requires Filled(d, es, v, k) && Distinct(es)
    ensures k <= |es| && forall e :: e in d.effects ==> e !in es[k..] && e in es
  {
    hide EffectChain.Valid, EffectChain.View, Rebuilt;
    Apart(d.effects, es, k);
  }

  /** One turn of the loop: the effect in front leaves the old chain, joins the new one and runs again if it ran. */
  method MoveFirst(src: PlaybackThread, dst: PlaybackThread, chain: EffectChain, effect: EffectModule,
                   newBuffer: Buffer, auxBuffer: Buffer,
                   ghost session: int, ghost es: seq<EffectModule>, ghost v: EffectList) returns (d: EffectChain)
    requires Taken(es, v, session) && Distinct(es) && |es| > 0 && effect == es[0] && Emptied(chain, es, v, 0)
    requires effect.EngineFollows()
    requires Descending(dst.chains) && Find(dst.chains, session) == null && chain !in src.chains && chain !in dst.chains
    modifies src`chains, dst`chains, chain`effects
    modifies effect`chain, effect`inBuffer, effect`engineEnabled, (set e | e in es)`outBuffer
    ensures Emptied(chain, es, v, 1) && effect.EngineFollows() && fresh(d) && Filled(d, es, v, 1)
    ensures NewOn(d, dst, newBuffer)
    ensures dst.chains == Inserted(old(dst.chains), d) && Descending(dst.chains) && Find(dst.chains, session) == d
    ensures src != dst ==> src.chains == old(src.chains)
  {
    hide Descending, Inserted, Find, Taken, Emptied, Filled, Distinct;
    EmptiedIs(chain, es, v, 0);
    TakeOut(src, chain, effect, es, v, 0);
    EmptiedIs(chain, es, v, 1);
    d := PutFirst(dst, effect, newBuffer, auxBuffer, session, es, v);
    if effect.state == Active || effect.state == Stopping {
      effect.Start();
    }
  }

  method MoveNext(src: PlaybackThread, dst: PlaybackThread, chain: EffectChain, effect: EffectModule, d: EffectChain,
                  newBuffer: Buffer, auxBuffer: Buffer,
                  ghost session: int, ghost es: seq<EffectModule>, ghost v: EffectList, ghost k: nat)
    requires Taken(es, v, session) && Distinct(es) && k < |es| && effect == es[k] && Emptied(chain, es, v, k)
    requires effect.EngineFollows()
    requires Filled(d, es, v, k) && d != chain && chain !in src.chains
    requires Descending(dst.chains) && Find(dst.chains, session) == d
    modifies src`chains, dst`chains, chain`effects, d`effects
    modifies effect`chain, effect`inBuffer, effect`engineEnabled, (set e | e in es)`outBuffer
    ensures Emptied(chain, es, v, k + 1) && effect.EngineFollows() && Filled(d, es, v, k + 1)
    ensures dst.chains == old(dst.chains) && (src != dst ==> src.chains == old(src.chains))
  {
    hide Descending, Inserted, Find, Taken, Emptied, Filled, Distinct;
    EmptiedIs(chain, es, v, k);
    FilledIs(d, es, v, k);
    TakeOut(src, chain, effect, es, v, k);
    EmptiedIs(chain, es, v, k + 1);
    assert forall e :: e in d.effects ==> e !in chain.effects by {
      assert forall e :: e in es[k + 1..] ==> e in es[k..];
    }
    PutNext(dst, d, effect, newBuffer, auxBuffer, session, es, v, k);
    if effect.state == Active || effect.state == Stopping {
      effect.Start();
    }
  }

  // ----- moving into a chain that is there already -----

  /** The effects that get into the other chain, which changes as they come. */
  ghost function Gained(w: EffectList, v: EffectList, es: seq<EffectModule>, k: nat, inBuffer: Buffer,
                        outBuffer: Buffer): seq<EffectModule>
    requires k <= |es| == |v|
  {
    if k == 0 then []
    else
      var before := Gained(w, v, es, k - 1, inBuffer, outBuffer);
      if Takes(w, v, k - 1, inBuffer, outBuffer) then before + [es[k - 1]] else before
  }

  /** The other chain, which held ds and read w, after k effects. */
  ghost predicate Merging(d: EffectChain, ds: seq<EffectModule>, w: EffectList, es: seq<EffectModule>, v: EffectList,
                          k: nat)
    reads d`inBuffer, d`outBuffer, d`effects, (set e | e in d.effects)`outBuffer, (set e | e in d.effects)`chain
  {
    && k <= |es| == |v| && d.Valid() && d.View() == Merged(w, v, k, d.inBuffer, d.outBuffer)
    && multiset(d.effects) == multiset(ds) + multiset(Gained(w, v, es, k, d.inBuffer, d.outBuffer))
  }

  lemma {:induction false} GainedWithin(w: EffectList, v: EffectList, es: seq<EffectModule>, k: nat, inBuffer: Buffer,
                                        outBuffer: Buffer)
    requires k <= |es| == |v|
    ensures forall e :: e in Gained(w, v, es, k, inBuffer, outBuffer) ==> e in es[..k]
  {
    hide Takes;
    if k > 0 {
      GainedWithin(w, v, es, k - 1, inBuffer, outBuffer);
      assert es[..k] == es[..k - 1] + [es[k - 1]];
    }
  }

  /** The move loses nothing exactly if the other chain, as it was before, takes every effect by itself. */
  lemma NothingLostIff(w: EffectList, v: EffectList, es: seq<EffectModule>, inBuffer: Buffer, outBuffer: Buffer)
    requires |v| == |es| && Ordered(v) && forall i, j :: 0 <= i < j < |v| ==> v[i].id != v[j].id
    ensures multiset(Gained(w, v, es, |es|, inBuffer, outBuffer)) == multiset(es) <==>
            forall k :: 0 <= k < |v| ==> Accepts(w, v[k])
  {
    hide Accepts, Takes, Ordered;
    GainedLength(w, v, es, |es|, inBuffer, outBuffer);
    forall k | 0 <= k < |v| ensures Takes(w, v, k, inBuffer, outBuffer) <==> Accepts(w, v[k]) {
      TakesIff(w, v, k, inBuffer, outBuffer);
    }
    if forall k :: 0 <= k < |v| ==> Takes(w, v, k, inBuffer, outBuffer) {
      assert es[..|es|] == es;
    } else {
      assert |multiset(Gained(w, v, es, |es|, inBuffer, outBuffer))| < |multiset(es)|;
    }
  }

  lemma {:induction false} GainedLength(w: EffectList, v: EffectList, es: seq<EffectModule>, k: nat, inBuffer: Buffer,
                                        outBuffer: Buffer)
    requires k <= |es| == |v|
    ensures var g := Gained(w, v, es, k, inBuffer, outBuffer);
            if forall i :: 0 <= i < k ==> Takes(w, v, i, inBuffer, outBuffer) then g == es[..k] else |g| < k
  {
    hide Takes;
    if k > 0 {
      GainedLength(w, v, es, k - 1, inBuffer, outBuffer);
      assert es[..k] == es[..k - 1] + [es[k - 1]];
    }
  }

  lemma MergingIs(d: EffectChain, ds: seq<EffectModule>, w: EffectList, es: seq<EffectModule>, v: EffectList, k: nat)
    requires Merging(d, ds, w, es, v, k) && Distinct(es) && forall e :: e in ds ==> e !in es
    ensures k <= |es| && forall e :: e in d.effects ==> e !in es[k..] && (e in ds || e in es)
  {
    hide EffectChain.Valid, EffectChain.View, Merged, Gained;
    GainedWithin(w, v, es, k, d.inBuffer, d.outBuffer);
    forall e | e in d.effects ensures e !in es[k..] && (e in ds || e in es) {
      assert e in multiset(d.effects);
      if e in ds {
      } else {
        assert e in es[..k];
        var i :| 0 <= i < |es[..k]| && es[..k][i] == e;
        assert es[i] == e;
      }
    }
  }

  /** addEffect_l takes exactly the acceptable effects. */
  lemma StatusAccepts(d: EffectChain, e: Effect)
    ensures AddStatus(d.effects, d.View(), e.id, e, true) == NoError <==> Accepts(d.View(), e)
  {
    hide Conflict;
    var v := d.View();
    assert forall i :: 0 <= i < |v| ==> v[i].id == d.effects[i].id;
  }

  lemma AcceptsIgnoresOut(v: EffectList, e: Effect, out: Buffer)
    ensures Accepts(v, e.(out := out)) <==> Accepts(v, e)
  {}

  lemma MergeNext(w: EffectList, es: seq<EffectModule>, v: EffectList, k: nat, session: int, snap: Effect,
                  inBuffer: Buffer, outBuffer: Buffer)
    requires Taken(es, v, session) && k < |es| && snap == v[k].(out := snap.out)
    ensures var u := Merged(w, v, k, inBuffer, outBuffer);
            && (Accepts(u, snap) <==> Takes(w, v, k, inBuffer, outBuffer))
            && Merged(w, v, k + 1, inBuffer, outBuffer) ==
               if Accepts(u, snap) then Added(u, snap, inBuffer, outBuffer) else u
  {
    hide Accepts, Added, Ordered;
    var u := Merged(w, v, k, inBuffer, outBuffer);
    AcceptsIgnoresOut(u, v[k], snap.out);
    AddedIgnoresOut(u, v[k], snap.out, inBuffer, outBuffer);
  }

  /** The effect is offered to the chain. */
  method PutInto(dst: PlaybackThread, d: EffectChain, effect: EffectModule, newBuffer: Buffer, auxBuffer: Buffer,
                 ghost session: int, ghost ds: seq<EffectModule>, ghost w: EffectList,
                 ghost es: seq<EffectModule>, ghost v: EffectList, ghost k: nat)
    requires Taken(es, v, session) && k < |es| && effect == es[k] && Merging(d, ds, w, es, v, k)
    requires Descending(dst.chains) && Find(dst.chains, session) == d
    modifies dst`chains, effect`chain, effect`inBuffer, effect`outBuffer, d`effects, (set e | e in d.effects)`outBuffer
    ensures Merging(d, ds, w, es, v, k + 1) && dst.chains == old(dst.chains)
  {
    assert effect.session == session && effect.id > 0;
    ghost var snap := effect.Snap();
    assert snap == v[k].(out := snap.out);
    hide Descending, Taken, Find, Added, AddStatus, Accepts, Takes, Merged, Gained, EffectChain.Valid, EffectChain.View;
    MergeNext(w, es, v, k, session, snap, d.inBuffer, d.outBuffer);
    StatusAccepts(d, snap);
    ghost var before := d.effects;
    var status := dst.AddEffect(effect, true, newBuffer, auxBuffer);
    GainNext(ds, w, es, v, k, before, d.effects, d.inBuffer, d.outBuffer);
  }

  lemma GainNext(ds: seq<EffectModule>, w: EffectList, es: seq<EffectModule>, v: EffectList, k: nat,
                 before: seq<EffectModule>, after: seq<EffectModule>, inBuffer: Buffer, outBuffer: Buffer)
    requires k < |es| == |v| && multiset(before) == multiset(ds) + multiset(Gained(w, v, es, k, inBuffer, outBuffer))
    requires multiset(after) == multiset(before) +
             if Takes(w, v, k, inBuffer, outBuffer) then multiset{es[k]} else multiset{}
    ensures multiset(after) == multiset(ds) + multiset(Gained(w, v, es, k + 1, inBuffer, outBuffer))
  {
    hide Takes;
  }

  method MoveIntoNext(src: PlaybackThread, dst: PlaybackThread, chain: EffectChain, effect: EffectModule,
                      d: EffectChain,
                      newBuffer: Buffer, auxBuffer: Buffer, ghost session: int,
                      ghost ds: seq<EffectModule>, ghost w: EffectList,
                      ghost es: seq<EffectModule>, ghost v: EffectList, ghost k: nat)
    requires Taken(es, v, session) && Distinct(es) && k < |es| && effect == es[k] && Emptied(chain, es, v, k)
    requires effect.EngineFollows()
    requires Merging(d, ds, w, es, v, k) && d != chain && chain !in src.chains && src != dst
    requires Descending(dst.chains) && Find(dst.chains, session) == d && forall e :: e in ds ==> e !in es
    modifies src`chains, dst`chains, chain`effects, d`effects
    modifies effect`chain, effect`inBuffer, effect`engineEnabled, (set e | e in es)`outBuffer,
             (set e | e in ds)`outBuffer
    ensures Emptied(chain, es, v, k + 1) && effect.EngineFollows() && Merging(d, ds, w, es, v, k + 1)
    ensures dst.chains == old(dst.chains) && src.chains == old(src.chains)
  {
    hide Descending, Find, Taken, Emptied, Merging, Distinct;
    EmptiedIs(chain, es, v, k);
    MergingIs(d, ds, w, es, v, k);
    TakeOut(src, chain, effect, es, v, k);
    EmptiedIs(chain, es, v, k + 1);
    assert forall e :: e in d.effects ==> e !in chain.effects by {
      assert forall e :: e in es[k + 1..] ==> e in es[k..];
    }
    PutInto(dst, d, effect, newBuffer, auxBuffer, session, ds, w, es, v, k);
    if effect.state == Active || effect.state == Stopping {
      effect.Start();
    }
  }

  lemma NotLater(es: seq<EffectModule>, k: nat)
    requires Distinct(es) && k < |es|
    ensures es[k] !in es[k + 1..]
  {}

  /** The chain of the session that is on the other thread already. */
  ghost function Target(src: PlaybackThread, dst: PlaybackThread, session: int): EffectChain?
    reads dst`chains
  {
    if src == dst then null else Find(dst.chains, session)
  }

  /** moveEffectChain_l, to another thread or to the same one; what it registers with the audio policy is left
      out. `from` is the old chain and `to` the one that gets its effects. */
  method MoveEffectChain(session: int, src: PlaybackThread, dst: PlaybackThread, newBuffer: Buffer,
                         auxBuffers: nat -> Buffer)
    returns (status: Status, ghost from: EffectChain?, to: EffectChain?)
    requires Descending(src.chains) && Descending(dst.chains)
    requires var c := Find(src.chains, session);
             c != null ==> c !in dst.chains || src == dst
    requires var c := Find(src.chains, session);
             c != null ==> c.Valid() && forall e :: e in c.effects ==> e.session == session && e.EngineFollows()
    requires Target(src, dst, session) != null ==> Target(src, dst, session).Valid()
    modifies src`chains, dst`chains, src.Owners(session)`effects, dst.Owners(session)`effects,
             dst.Members(session)`outBuffer
    modifies src.Members(session)`chain, src.Members(session)`inBuffer, src.Members(session)`outBuffer,
             src.Members(session)`engineEnabled
    ensures from == Find(old(src.chains), session) && status == if from == null then InvalidOperation else NoError
    ensures from == null ==> src.chains == old(src.chains) && dst.chains == old(dst.chains) && to == null
    ensures Descending(src.chains) && Descending(dst.chains)
    ensures from != null ==>
              && from.effects == [] && (src != dst ==> src.chains == Without(old(src.chains), from))
              && forall e :: e in old(from.effects) ==> e.EngineFollows()
    ensures from != null && old(Target(src, dst, session)) == null ==>
              && (to == null <==> old(from.effects) == [])
              && dst.chains == (var base := if src == dst then Without(old(dst.chains), from) else old(dst.chains);
                                if to == null then base else Inserted(base, to))
              && (to != null ==>
                    && fresh(to) && to.Valid() && to.session == session && NewOn(to, dst, newBuffer)
                    && multiset(to.effects) == multiset(old(from.effects))
                    && to.View() == Rebuilt(old(from.View()), |old(from.effects)|, to.inBuffer, to.outBuffer))
    ensures from != null && old(Target(src, dst, session)) != null ==>
              (var d, v, es := old(Target(src, dst, session)), old(from.View()), old(from.effects);
               && to == d && dst.chains == old(dst.chains) && d.Valid()
               && multiset(d.effects)
                 == multiset(old(d.effects)) + multiset(Gained(old(d.View()), v, es, |es|, d.inBuffer, d.outBuffer))
               && d.View() == Merged(old(d.View()), v, |es|, d.inBuffer, d.outBuffer))
  {
    hide Descending, Inserted, Find, Distinct, Rebuilt, EffectChain.View, EffectChain.Valid, Without, Filled, Taken;
    hide Emptied, Merging, Merged, Gained;
    var chain := GetEffectChain(src.chains, session);
    from, to := chain, null;
    if chain == null {
      return InvalidOperation, from, to;
    }
    status := NoError;
    ghost var es, v := chain.effects, chain.View();
    assert src.Members(session) == set e | e in es;
    ChainTaken(chain, session);
    ListsWithout(src.chains, chain);
    src.RemoveEffectChain(chain);
    to := GetEffectChain(dst.chains, session);
    if to == null {
      to := MoveAll(src, dst, chain, newBuffer, auxBuffers, session, es, v);
      if to != null {
        FilledAll(to, es, v);
      }
    } else {
      FoundInside(dst.chains, session);
      ApartChains(chain, to);
      MoveInto(src, dst, chain, to, newBuffer, auxBuffers, session, to.effects, to.View(), es, v);
      MergedAll(to, old(to.effects), old(to.View()), es, v);
    }
  }

  lemma FoundInside(chains: seq<EffectChain>, session: int)
    requires Find(chains, session) != null
    ensures Find(chains, session) in chains
  {}

  /** No effect is in two chains. */
  lemma ApartChains(c: EffectChain, d: EffectChain)
    requires c.Valid() && d.Valid() && c != d
    ensures forall e :: e in d.effects ==> e !in c.effects
  {}

  lemma MergedAll(d: EffectChain, ds: seq<EffectModule>, w: EffectList, es: seq<EffectModule>, v: EffectList)
    requires Merging(d, ds, w, es, v, |es|)
    ensures |v| == |es| && d.Valid()
    ensures multiset(d.effects) == multiset(ds) + multiset(Gained(w, v, es, |es|, d.inBuffer, d.outBuffer))
    ensures d.View() == Merged(w, v, |es|, d.inBuffer, d.outBuffer)
  {}

  /** The loop of moveEffectChain_l when the chain to fill is there already. */
  method MoveInto(src: PlaybackThread, dst: PlaybackThread, chain: EffectChain, d: EffectChain, newBuffer: Buffer,
                  auxBuffers: nat -> Buffer, ghost session: int, ghost ds: seq<EffectModule>, ghost w: EffectList,
                  ghost es: seq<EffectModule>, ghost v: EffectList)
    requires Taken(es, v, session) && Distinct(es) && Emptied(chain, es, v, 0) && chain.effects == es
    requires forall e :: e in es ==> e.EngineFollows()
    requires Descending(dst.chains) && Find(dst.chains, session) == d && chain !in src.chains && d != chain
    requires src != dst
    requires d.Valid() && ds == d.effects && w == d.View() && forall e :: e in ds ==> e !in es
    modifies src`chains, dst`chains, chain`effects, d`effects, (set e | e in ds)`outBuffer
    modifies (set e | e in es)`chain, (set e | e in es)`inBuffer, (set e | e in es)`outBuffer,
             (set e | e in es)`engineEnabled
    ensures chain.effects == [] && dst.chains == old(dst.chains) && src.chains == old(src.chains)
    ensures Merging(d, ds, w, es, v, |es|)
    ensures forall e :: e in es ==> e.EngineFollows()
  {
    hide *;
    ghost var k := 0;
    assert es[0..] == es;
    assert Merging(d, ds, w, es, v, 0) by { MergingStarts(d, es, v, chain); }
    var effect := chain.FromId(0);
    while effect != null
      invariant k <= |es| && Emptied(chain, es, v, k) && chain.effects == es[k..]
      invariant effect == if k == |es| then null else es[k]
      invariant Merging(d, ds, w, es, v, k) && Descending(dst.chains) && Find(dst.chains, session) == d
      invariant chain !in src.chains
      invariant dst.chains == old(dst.chains) && src.chains == old(src.chains)
      invariant forall e :: e in es ==> e.EngineFollows()
      decreases |es| - k
    {
      assert effect == es[k] && effect in es;
      MoveIntoNext(src, dst, chain, effect, d, newBuffer, auxBuffers(effect.id), session, ds, w, es, v, k);
      k := k + 1;
      EmptiedIs(chain, es, v, k);
      effect := chain.FromId(0);
    }
  }

  lemma MergingStarts(d: EffectChain, es: seq<EffectModule>, v: EffectList, chain: EffectChain)
    requires d.Valid() && Emptied(chain, es, v, 0)
    ensures Merging(d, d.effects, d.View(), es, v, 0)
  {
    hide EffectChain.Valid, EffectChain.View;
    assert multiset(d.effects) == multiset(d.effects) + multiset([]);
  }

  /** The loop of moveEffectChain_l. */
  method MoveAll(src: PlaybackThread, dst: PlaybackThread, chain: EffectChain, newBuffer: Buffer,
                 auxBuffers: nat -> Buffer,
                 ghost session: int, ghost es: seq<EffectModule>, ghost v: EffectList) returns (to: EffectChain?)
    requires Taken(es, v, session) && Distinct(es) && Emptied(chain, es, v, 0) && chain.effects == es
    requires forall e :: e in es ==> e.EngineFollows()
    requires Descending(dst.chains) && Find(dst.chains, session) == null && chain !in src.chains && chain !in dst.chains
    modifies src`chains, dst`chains, chain`effects
    modifies (set e | e in es)`chain, (set e | e in es)`inBuffer, (set e | e in es)`outBuffer,
             (set e | e in es)`engineEnabled
    ensures chain.effects == [] && (to == null <==> es == []) && Descending(dst.chains)
    ensures dst.chains == if to == null then old(dst.chains) else Inserted(old(dst.chains), to)
    ensures src != dst ==> src.chains == old(src.chains)
    ensures to != null ==>
              fresh(to) && Filled(to, es, v, |es|) && Find(dst.chains, session) == to && NewOn(to, dst, newBuffer)
    ensures forall e :: e in es ==> e.EngineFollows()
  {
    hide *;
    to := null;
    ghost var k := 0;
    assert es[0..] == es;
    var effect := chain.FromId(0);
    while effect != null
      invariant k <= |es| && Emptied(chain, es, v, k) && chain.effects == es[k..]
      invariant effect == if k == |es| then null else es[k]
      invariant k == 0 ==> to == null && dst.chains == old(dst.chains)
      invariant k > 0 ==> to != null && fresh(to) && Filled(to, es, v, k) && NewOn(to, dst, newBuffer)
      invariant k > 0 ==> dst.chains == Inserted(old(dst.chains), to) && Find(dst.chains, session) == to
      invariant Descending(dst.chains) && (src != dst ==> src.chains == old(src.chains)) && chain !in src.chains
      invariant forall e :: e in es ==> e.EngineFollows()
      decreases |es| - k
    {
      assert effect == es[k] && effect in es;
      if to == null {
        to := MoveFirst(src, dst, chain, effect, newBuffer, auxBuffers(effect.id), session, es, v);
        NotInserted(old(dst.chains), to, chain);
      } else {
        MoveNext(src, dst, chain, effect, to, newBuffer, auxBuffers(effect.id), session, es, v, k);
      }
      k := k + 1;
      EmptiedIs(chain, es, v, k);
      effect := chain.FromId(0);
    }
  }

  lemma NotInserted(chains: seq<EffectChain>, d: EffectChain, chain: EffectChain)
    requires chain !in chains && chain != d
    ensures chain !in Inserted(chains, d)
  {}

  lemma FilledAll(to: EffectChain, es: seq<EffectModule>, v: EffectList)
    requires Filled(to, es, v, |es|)
    ensures |v| == |es| && to.Valid() && multiset(to.effects) == multiset(es)
    ensures to.View() == Rebuilt(v, |es|, to.inBuffer, to.outBuffer)
  {
    assert es[..|es|] == es;
  }

  lemma ChainTaken(chain: EffectChain, session: int)
    requires chain.Valid() && forall e :: e in chain.effects ==> e.session == session
    ensures Taken(chain.effects, chain.View(), session) && Distinct(chain.effects)
    ensures Emptied(chain, chain.effects, chain.View(), 0)
  {
    var es, v := chain.effects, chain.View();
    hide Distinct, Ordered, Wired;
    assert forall i :: 0 <= i < |es| ==> es[i] in es;
  }

  lemma ListsWithout(chains: seq<EffectChain>, chain: EffectChain)
    requires Descending(chains) && Find(chains, chain.session) == chain
    ensures Descending(Without(chains, chain)) && Find(Without(chains, chain), chain.session) == null
    ensures chain !in Without(chains, chain)
  {
    WithoutDescends(chains, chain);
  }
}
