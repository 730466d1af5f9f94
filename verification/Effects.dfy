/** EffectModule and EffectChain of audioflinger/4.1.2/AudioFlinger.cpp. The effect engine is reduced
    to whether it has been told to run; it is taken to obey. */
module Effects {

  import opened EffectSpec

  datatype EffectState = Idle | Restart | Starting | Active | Stopping | Stopped | Destroyed

  /** Refused stands for any error of the audio policy. */
  datatype Status = NoError | NoInit | InvalidOperation | BadValue | AlreadyExists | DeadObject | Refused

  class EffectModule {
    const id: nat
    const mode: Mode
    const pref: Pref
    const session: int
    const maxDisableWaitCnt: int
    var chain: EffectChain?
    var inBuffer: Buffer
    var outBuffer: Buffer
    var state: EffectState
    var disableWaitCnt: int
    var engineEnabled: bool

    constructor (id: nat, mode: Mode, pref: Pref, session: int, maxDisableWaitCnt: int)
      ensures this.id == id && this.mode == mode && this.pref == pref && this.session == session
      ensures EngineFollows() && state == Idle
    {
      this.id, this.mode, this.pref, this.session, this.maxDisableWaitCnt := id, mode, pref, session, maxDisableWaitCnt;
      chain, inBuffer, outBuffer, state, disableWaitCnt, engineEnabled := null, 0, 0, Idle, 0, false;
    }

    function Snap(): Effect
      reads this`outBuffer
    {
      Effect(id, mode, pref, outBuffer)
    }

    /** The engine runs exactly in the states Active and Stopping. */
    ghost predicate EngineFollows()
      reads this`state, this`engineEnabled
    {
      engineEnabled <==> state == Active || state == Stopping
    }

    predicate IsEnabled()
      reads this`state
    {
      state == Restart || state == Starting || state == Active
    }

    method Start()
      modifies this`engineEnabled
      ensures engineEnabled
    {
      engineEnabled := true;
    }

    method Stop()
      modifies this`engineEnabled
      ensures !engineEnabled
    {
      engineEnabled := false;
    }

    /** updateState: once per mixer cycle. */
    method UpdateState()
      requires EngineFollows()
      modifies this`state, this`disableWaitCnt, this`engineEnabled
      ensures EngineFollows()
      ensures state == (match old(state)
                        case Restart => Active
                        case Starting => Active
                        case Stopping => Stopped
                        case Stopped => if old(disableWaitCnt) == 1 then Idle else Stopped
                        case _ => old(state))
      ensures disableWaitCnt == (match old(state)
                                 case Stopping => maxDisableWaitCnt
                                 case Stopped => old(disableWaitCnt) - 1
                                 case _ => old(disableWaitCnt))
      ensures IsEnabled() == old(IsEnabled())
    {
      match state {
        case Restart =>
          Start();
          state := Active;
        case Starting =>
          Start();
          state := Active;
        case Stopping =>
          Stop();
          disableWaitCnt := maxDisableWaitCnt;
          state := Stopped;
        case Stopped =>
          disableWaitCnt := disableWaitCnt - 1;
          if disableWaitCnt == 0 {
            state := Idle;
          }
        case _ =>
      }
    }

    /** setEnabled; policyOk is what AudioSystem::setEffectEnabled answers. */
    method SetEnabled(enabled: bool, policyOk: bool) returns (ok: bool)
      requires EngineFollows()
      modifies this`state
      ensures EngineFollows()
      ensures ok == (policyOk || !enabled || old(IsEnabled()))
      ensures ok && old(state) != Destroyed ==> IsEnabled() == enabled
      ensures !ok || old(state) == Destroyed ==> state == old(state)
      ensures state == if !ok || enabled == old(IsEnabled()) then old(state) else
                         match old(state)
                         case Idle => Starting
                         case Stopped => Restart
                         case Stopping => Active
                         case Restart => Stopped
                         case Starting => Idle
                         case Active => Stopping
                         case Destroyed => Destroyed
    {
      ok := true;
      if enabled != IsEnabled() {
        if enabled && !policyOk {
          return false;
        }
        match state {
          case Idle => state := Starting;
          case Stopped => state := Restart;
          case Stopping => state := Active;
          case Restart => state := Stopped;
          case Starting => state := Idle;
          case Active => state := Stopping;
          case Destroyed =>
        }
      }
    }

    /** The end of removeHandle: the last handle of an effect that is not pinned goes. The engine is not
        told, so it follows the state afterwards exactly if it was not running. */
    method LoseHandle(handlesLeft: nat, pinned: bool)
      requires EngineFollows()
      modifies this`state
      ensures state == if handlesLeft == 0 && !pinned then Destroyed else old(state)
      ensures EngineFollows() <==> handlesLeft > 0 || pinned || !engineEnabled
    {
      if handlesLeft == 0 && !pinned {
        state := Destroyed;
      }
    }
  }

  /** A running effect that loses its last handle is destroyed while its engine still runs. */
  method DestroyedRunning(id: nat, mode: Mode, pref: Pref, session: int) returns (effect: EffectModule)
    ensures fresh(effect) && effect.state == Destroyed && effect.engineEnabled && !effect.EngineFollows()
  {
    effect := new EffectModule(id, mode, pref, session, 0);
    var ok := effect.SetEnabled(true, true);
    effect.UpdateState();
    effect.LoseHandle(0, false);
  }

  class EffectChain {
    const session: int
    var inBuffer: Buffer
    var outBuffer: Buffer
    var effects: seq<EffectModule>
    var trackCnt: int
    var activeTrackCnt: int

    constructor (session: int)
      ensures this.session == session && effects == [] && trackCnt == 0 && activeTrackCnt == 0
    {
      this.session := session;
      inBuffer, outBuffer, effects, trackCnt, activeTrackCnt := 0, 0, [], 0, 0;
    }

    ghost function View(): (v: EffectList)
      reads this`effects, set e | e in effects :: e`outBuffer
      ensures |v| == |effects| && forall i :: 0 <= i < |v| ==> v[i] == effects[i].Snap()
    {
      Views(effects, |effects|)
    }

    /** The effects are distinct, belong to this chain, and are in order and wired. */
    ghost predicate Valid()
      reads this`inBuffer, this`outBuffer, this`effects, set e | e in effects :: e`outBuffer,
            set e | e in effects :: e`chain
    {
      && Distinct(effects) && (forall e :: e in effects ==> e.chain == this && e.id > 0)
      && Ordered(View()) && Wired(View(), inBuffer, outBuffer)
    }

    /** getEffectFromId_l: id 0 stands for the first effect. */
    method FromId(id: nat) returns (effect: EffectModule?)
      ensures effect == null <==> effects == [] || (id != 0 && !exists e :: e in effects && e.id == id)
      ensures effect != null ==> effect in effects && if id == 0 then effect == effects[0] else effect.id == id
    {
      var i := 0;
      while i < |effects|
        invariant 0 <= i <= |effects| && (i > 0 ==> id != 0) && forall k :: 0 <= k < i ==> effects[k].id != id
      {
        if id == 0 || effects[i].id == id {
          return effects[i];
        }
        i := i + 1;
      }
      effect := null;
    }

    /** Where addEffect_l's loop leaves the insertion index, or an exclusive conflict. */
    method FindPlace(effect: EffectModule) returns (conflict: bool, idx: nat)
      requires InsertsSorted(View())
      ensures conflict == Conflict(View(), effect.Snap())
      ensures !conflict ==> idx == Place(View(), effect.Snap())
    {
      hide Conflict, Place, InsertsSorted;
      conflict, idx := Search(effects, effect, View(), effect.Snap());
    }

    /** addEffect_l; auxBuffer is the buffer allocated for an auxiliary effect. */
    method AddEffect(effect: EffectModule, threadAlive: bool, auxBuffer: Buffer) returns (status: Status)
      requires Valid() && effect.id > 0 && forall e :: e in effects ==> e != effect && e.id != effect.id
      modifies this`effects, effect`chain, effect`inBuffer, effect`outBuffer, set e | e in effects :: e`outBuffer
      ensures status == if !threadAlive then NoInit
                        else if effect.mode == Auxiliary || !Conflict(old(View()), old(effect.Snap())) then NoError
                        else InvalidOperation
      ensures Valid() && effect.chain == this
      ensures View() == if status != NoError then old(View())
                        else Added(old(View()), old(effect.Snap()), inBuffer, outBuffer)
      ensures status == NoError ==> effect.inBuffer == if effect.mode == Auxiliary then auxBuffer else inBuffer
      ensures status != NoError ==> effect.inBuffer == old(effect.inBuffer) && effect.outBuffer == old(effect.outBuffer)
      ensures effects == if status != NoError then old(effects)
                         else var p := if effect.mode == Auxiliary then 0 else Place(old(View()), old(effect.Snap()));
                              old(effects)[..p] + [effect] + old(effects)[p..]
      ensures status == NoError ==> multiset(effects) == multiset(old(effects)) + multiset{effect}
    {
      hide Added, Place, Conflict, Ordered, Wired, Distinct, View, InsertsSorted;
      effect.chain := this;
      if !threadAlive {
        return NoInit;
      }
      if effect.mode == Auxiliary {
        AddAuxiliary(effect, auxBuffer);
        return NoError;
      }
      OrderedSorted(View());
      var conflict, idx := FindPlace(effect);
      if conflict {
        return InvalidOperation;
      }
      AddAt(effect, idx);
      status := NoError;
    }

    /** An auxiliary effect goes to the front. */
    method AddAuxiliary(effect: EffectModule, auxBuffer: Buffer)
      requires Valid() && effect.chain == this && effect.id > 0 && effect.mode == Auxiliary
      requires forall e :: e in effects ==> e != effect && e.id != effect.id
      modifies this`effects, effect`inBuffer, effect`outBuffer
      ensures Valid() && View() == Added(old(View()), old(effect.Snap()), inBuffer, outBuffer)
      ensures effect.inBuffer == auxBuffer && effects == old(effects)[..0] + [effect] + old(effects)[0..]
      ensures multiset(effects) == multiset(old(effects)) + multiset{effect}
    {
      hide Added, Place, Conflict, Ordered, Wired, Distinct, View, Rewired;
      AddedCases(View(), effect.Snap(), inBuffer, outBuffer);
      AddedKeeps(View(), effect.Snap(), inBuffer, outBuffer);
      Prepend(effect, auxBuffer);
      assert effects == old(effects)[..0] + [effect] + old(effects)[0..];
    }

    /** Another effect goes to the place that was found for it. */
    method AddAt(effect: EffectModule, idx: nat)
      requires Valid() && effect.chain == this && effect.id > 0 && effect.mode != Auxiliary
      requires forall e :: e in effects ==> e != effect && e.id != effect.id
      requires !Conflict(View(), effect.Snap()) && idx == Place(View(), effect.Snap())
      modifies this`effects, effect`inBuffer, effect`outBuffer, set e | e in effects :: e`outBuffer
      ensures Valid() && View() == Added(old(View()), old(effect.Snap()), inBuffer, outBuffer)
      ensures effect.inBuffer == inBuffer && effects == old(effects)[..idx] + [effect] + old(effects)[idx..]
      ensures multiset(effects) == multiset(old(effects)) + multiset{effect}
    {
      hide Added, Place, Conflict, Ordered, Wired, Distinct, View, Rewired;
      AddedCases(View(), effect.Snap(), inBuffer, outBuffer);
      AddedKeeps(View(), effect.Snap(), inBuffer, outBuffer);
      AddInsert(effect, idx);
    }

    /** The insert effect goes to its place. */
    method AddInsert(effect: EffectModule, idx: nat)
      requires Distinct(effects) && (forall e :: e in effects ==> e != effect && e.id != effect.id) && idx <= |effects|
      modifies this`effects, effect`inBuffer, effect`outBuffer, set e | e in effects :: e`outBuffer
      ensures effects == old(effects)[..idx] + [effect] + old(effects)[idx..] && Distinct(effects)
      ensures effect.inBuffer == inBuffer
      ensures multiset(effects) == multiset(old(effects)) + multiset{effect}
      ensures View() == if idx < |old(effects)|
                        then old(View())[..idx] + [old(effect.Snap()).(out := inBuffer)] + old(View())[idx..]
                        else Rewired(old(View()), inBuffer) + [old(effect.Snap()).(out := outBuffer)]
    {
      hide Distinct, View, Rewired;
      effect.inBuffer := inBuffer;
      if idx == |effects| {
        Append(effect);
      } else {
        InsertInside(effect, idx);
      }
    }

    /** removeEffect_l: stops the engine, hands the output on to the effect before, and drops the effect. */
    method RemoveEffect(effect: EffectModule) returns (left: nat)
      requires Valid()
      modifies this`effects, effect`engineEnabled, set e | e in effects :: e`outBuffer
      ensures Valid() && left == |effects|
      ensures effect !in old(effects) ==>
                effects == old(effects) && View() == old(View()) && effect.engineEnabled == old(effect.engineEnabled)
      ensures effect in old(effects) ==>
                exists i :: 0 <= i < |old(effects)| && old(effects)[i] == effect &&
                  RemovedAt(old(effects), old(View()), effects, View(), outBuffer, i)
      ensures effect in old(effects) ==>
                effect.engineEnabled
                  == (old(effect.engineEnabled) && effect.state != Active && effect.state != Stopping)
    {
      hide Ordered, Wired, Distinct, View, RemovedAt;
      var size := |effects|;
      var i := 0;
      while i < size
        invariant 0 <= i <= size && effect !in effects[..i]
      {
        if effect == effects[i] {
          if effects[i].state == Active || effects[i].state == Stopping {
            effects[i].Stop();
          }
          Drop(i);
          break;
        }
        i := i + 1;
      }
      left := |effects|;
    }

    /** Makes one effect write another buffer. */
    method SetOut(i: nat, buffer: Buffer)
      requires Distinct(effects) && i < |effects|
      modifies {effects[i]}`outBuffer
      ensures View() == old(View())[i := old(View())[i].(out := buffer)]
      ensures i == |effects| - 1 ==> View() == Rewired(old(View()), buffer)
    {
      ghost var v := View();
      effects[i].outBuffer := buffer;
      assert View() == v[i := v[i].(out := buffer)];
    }

    method Drop(i: nat)
      requires Valid() && i < |effects|
      modifies this`effects, set e | e in effects :: e`outBuffer
      ensures Valid() && RemovedAt(old(effects), old(View()), effects, View(), outBuffer, i)
    {
      hide Ordered, Wired, Distinct, View;
      ghost var v := View();
      RemovedKeeps(v, i, inBuffer, outBuffer);
      var size := |effects|;
      if effects[i].mode != Auxiliary && i == size - 1 && i != 0 {
        assert effects[i - 1] in effects;
        SetOut(i - 1, outBuffer);
      }
      TakeOut(i);
      assert v[i].mode == old(effects)[i].mode;
      assert View() == Removed(v, i, outBuffer);
    }

    /** Removes one effect from the list. */
    method TakeOut(i: nat)
      requires Distinct(effects) && i < |effects|
      modifies this`effects
      ensures effects == old(effects)[..i] + old(effects)[i + 1..] && Distinct(effects)
      ensures View() == old(View())[..i] + old(View())[i + 1..]
    {
      ghost var v := View();
      effects := effects[..i] + effects[i + 1..];
      assert View() == v[..i] + v[i + 1..];
    }

    method Prepend(effect: EffectModule, auxBuffer: Buffer)
      requires Distinct(effects) && forall e :: e in effects ==> e != effect && e.id != effect.id
      modifies this`effects, effect`inBuffer, effect`outBuffer
      ensures multiset(effects) == multiset(old(effects)) + multiset{effect}
      ensures effects == [effect] + old(effects) && effect.inBuffer == auxBuffer && Distinct(effects)
      ensures View() == [old(effect.Snap()).(out := inBuffer)] + old(View())
    {
      effects := [effect] + effects;
      effect.inBuffer := auxBuffer;
      effect.outBuffer := inBuffer;
    }

    method Append(effect: EffectModule)
      requires Distinct(effects) && forall e :: e in effects ==> e != effect && e.id != effect.id
      modifies this`effects, effect`outBuffer, set e | e in effects :: e`outBuffer
      ensures effects == old(effects) + [effect] && Distinct(effects)
      ensures multiset(effects) == multiset(old(effects)) + multiset{effect}
      ensures View() == Rewired(old(View()), inBuffer) + [old(effect.Snap()).(out := outBuffer)]
    {
      hide Rewired;
      var size := |effects|;
      NothingRewired(inBuffer);
      if size != 0 {
        assert effects[size - 1] in effects;
        SetOut(size - 1, inBuffer);
      }
      ghost var v := View();
      effect.outBuffer := outBuffer;
      effects := effects + [effect];
      assert View() == v + [effect.Snap()];
    }

    method InsertInside(effect: EffectModule, idx: nat)
      requires Distinct(effects) && idx <= |effects| && forall e :: e in effects ==> e != effect && e.id != effect.id
      modifies this`effects, effect`outBuffer
      ensures effects == old(effects)[..idx] + [effect] + old(effects)[idx..] && Distinct(effects)
      ensures multiset(effects) == multiset(old(effects)) + multiset{effect}
      ensures View() == old(View())[..idx] + [old(effect.Snap()).(out := inBuffer)] + old(View())[idx..]
    {
      ghost var es, v, snap := effects, View(), effect.Snap();
      ghost var w := v[..idx] + [snap.(out := inBuffer)] + v[idx..];
      effect.outBuffer := inBuffer;
      effects := effects[..idx] + [effect] + effects[idx..];
      InsertedDistinct(es, effect, idx);
      assert es == es[..idx] + es[idx..];
      forall i | 0 <= i < |w| ensures View()[i] == w[i] {
        InsertedAt(es, effect, idx, i);
      }
    }
  }

  ghost predicate RemovedAt(es: seq<EffectModule>, v: EffectList, es': seq<EffectModule>, v': EffectList,
                            outBuffer: Buffer, i: nat) {
    |v| == |es| && i < |es| && es' == es[..i] + es[i + 1..] && v' == Removed(v, i, outBuffer)
  }

  /** The last effect made to write this buffer. */
  function Rewired(v: EffectList, buffer: Buffer): EffectList {
    if v == [] then v else v[|v| - 1 := v[|v| - 1].(out := buffer)]
  }

  lemma NothingRewired(buffer: Buffer)
    ensures Rewired([], buffer) == []
  {}

  lemma AddedCases(v: EffectList, e: Effect, inBuffer: Buffer, outBuffer: Buffer)
    ensures Added(v, e, inBuffer, outBuffer) ==
            if e.mode == Auxiliary then [e.(out := inBuffer)] + v
            else if Place(v, e) < |v| then v[..Place(v, e)] + [e.(out := inBuffer)] + v[Place(v, e)..]
            else Rewired(v, inBuffer) + [e.(out := outBuffer)]
  {
    hide Place;
  }

  lemma OrderedSorted(v: EffectList)
    requires Ordered(v)
    ensures InsertsSorted(v)
  {
    hide AuxFirst, Alone, InsertsSorted;
  }

  lemma InsertedDistinct(es: seq<EffectModule>, effect: EffectModule, idx: nat)
    requires Distinct(es) && idx <= |es| && forall e :: e in es ==> e != effect && e.id != effect.id
    ensures Distinct(es[..idx] + [effect] + es[idx..])
  {
    var fs := es[..idx] + [effect] + es[idx..];
    forall i, j | 0 <= i < j < |fs| ensures fs[i] != fs[j] && fs[i].id != fs[j].id {
      InsertedAt(es, effect, idx, i);
      InsertedAt(es, effect, idx, j);
    }
  }

  lemma InsertedAt(es: seq<EffectModule>, effect: EffectModule, idx: nat, i: nat)
    requires idx <= |es| && i <= |es|
    ensures (es[..idx] + [effect] + es[idx..])[i] == if i < idx then es[i] else if i == idx then effect else es[i - 1]
    ensures i < idx ==> es[i] in es
    ensures i > idx ==> es[i - 1] in es
  {}

  ghost function Views(es: seq<EffectModule>, n: nat): (v: EffectList)
    requires n <= |es|
    reads set e | e in es :: e`outBuffer
    ensures |v| == n && forall i :: 0 <= i < n ==> v[i] == es[i].Snap()
  {
    if n == 0 then []
    else
      assert es[n - 1] in es;
      Views(es, n - 1) + [es[n - 1].Snap()]
  }

  ghost predicate Distinct(es: seq<EffectModule>) {
    forall i, j :: 0 <= i < j < |es| ==> es[i] != es[j] && es[i].id != es[j].id
  }

  /** What the search loop knows after n effects: no exclusive conflict, the first insert effect, the last one
      that claims the first position and the first one that claims the last. */
  ghost predicate Found(v: EffectList, pref: Pref, n: nat, idx: nat, first: int, last: int) {
    && n <= |v|
    && (forall k :: 0 <= k < n && v[k].mode == Insert ==> pref != Exclusive && v[k].pref != Exclusive)
    && (idx < n || idx == |v|) && (idx < n ==> v[idx].mode == Insert)
    && (forall k :: 0 <= k < n && k < idx ==> v[k].mode != Insert)
    && -1 <= first < n && (first >= 0 ==> v[first].mode == Insert && v[first].pref == First)
    && (forall k :: first < k < n ==> !(v[k].mode == Insert && v[k].pref == First))
    && -1 <= last < n && (last >= 0 ==> v[last].mode == Insert && v[last].pref == Last)
    && (forall k :: 0 <= k < (if last < 0 then n else last) ==> !(v[k].mode == Insert && v[k].pref == Last))
  }

  /** addEffect_l's loop over the effects, and the choice that follows it. */
  method Search(es: seq<EffectModule>, effect: EffectModule, ghost v: EffectList, ghost snap: Effect)
    returns (conflict: bool, idx: nat)
    requires |v| == |es| && snap.pref == effect.pref
    requires forall i :: 0 <= i < |v| ==> v[i].mode == es[i].mode && v[i].pref == es[i].pref
    ensures conflict == Conflict(v, snap)
    ensures !conflict ==> idx == Place(v, snap)
  {
    hide *;
    var size := |es|;
    idx, conflict := size, false;
    var first, last := -1, -1;
    FoundNone(v, effect.pref);
    var i := 0;
    while i < size
      invariant 0 <= i <= size
      invariant Found(v, effect.pref, i, idx, first, last)
    {
      var e := es[i];
      FoundNext(v, snap, i, idx, first, last);
      if e.mode == Insert {
        if effect.pref == Exclusive || e.pref == Exclusive {
          return true, 0;
        }
        if idx == size {
          idx := i;
        }
        if e.pref == First {
          first := i;
        }
        if e.pref == Last && last == -1 {
          last := i;
        }
      }
      i := i + 1;
    }
    FoundAll(v, snap, idx, first, last);
    if effect.pref == Last {
      if last != -1 {
        idx := last;
      } else {
        idx := size;
      }
    } else {
      if first != -1 {
        idx := first + 1;
      }
    }
  }

  lemma FoundNone(v: EffectList, pref: Pref)
    ensures Found(v, pref, 0, |v|, -1, -1)
  {}

  lemma FoundNext(v: EffectList, e: Effect, n: nat, idx: nat, first: int, last: int)
    requires n < |v| && Found(v, e.pref, n, idx, first, last)
    ensures var d := v[n];
            if d.mode != Insert then Found(v, e.pref, n + 1, idx, first, last)
            else if e.pref == Exclusive || d.pref == Exclusive then Conflict(v, e)
            else Found(v, e.pref, n + 1, if idx == |v| then n else idx, if d.pref == First then n else first,
                       if d.pref == Last && last == -1 then n else last)
  {}

  lemma FoundAll(v: EffectList, e: Effect, idx: nat, first: int, last: int)
    requires Found(v, e.pref, |v|, idx, first, last)
    ensures !Conflict(v, e)
    ensures Place(v, e) == if e.pref == Last then (if last != -1 then last else |v|)
                           else if first != -1 then first + 1 else idx
  {
    assert SomeInsert(v) == idx;
    assert FirstInsert(v, Last, false, 0) == if last != -1 then last else |v|;
    assert PastFirst(v) == first + 1;
  }
}
