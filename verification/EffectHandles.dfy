/** The handles of an effect, from audioflinger/4.1.2/AudioFlinger.cpp: the clients of one effect, of which the
    first on the list controls it. Handles are held strongly. */
module EffectHandles {

  import opened Effects

  class EffectHandle {
    const priority: int
    var effect: HandledEffect?
    var hasControl: bool
    var enabled: bool

    constructor (effect: HandledEffect, priority: int)
      ensures this.effect == effect && this.priority == priority && !hasControl && !enabled
    {
      this.effect, this.priority, hasControl, enabled := effect, priority, false, false;
    }

    method SetControl(hasControl: bool, enabled: bool)
      modifies this`hasControl, this`enabled
      ensures this.hasControl == hasControl && this.enabled == enabled
    {
      this.hasControl, this.enabled := hasControl, enabled;
    }

    /** This handle is on the list of an effect that is alive. */
    ghost predicate Serves()
      reads this`effect, if effect == null then {} else {effect, effect.core},
            if effect == null then [] else effect.handles
    {
      effect != null && effect.core.state != Destroyed && effect.Controlled() && this in effect.handles
    }

    /** This handle has control of an effect that is alive and believes that it is off. */
    predicate CanEnable()
      reads this`hasControl, this`effect, this`enabled
    {
      hasControl && effect != null && !enabled
    }

    /** enable; policyOk is what AudioSystem::setEffectEnabled answers, and suspends whether
        checkSuspendOnEffectEnabled finds that this effect is to be suspended. */
    method Enable(policyOk: bool, suspends: bool) returns (status: Status)
      requires effect != null ==> effect.core.EngineFollows()
      modifies this`enabled, (if effect == null then {} else {effect})`suspended
      modifies (if effect == null then {} else {effect.core})`state
      ensures effect != null ==> effect.core.EngineFollows()
      ensures status == if !hasControl then InvalidOperation
                        else if effect == null then DeadObject
                        else if old(enabled) || effect.suspended || policyOk then NoError
                        else if old(effect.core.IsEnabled()) then NoError else Refused
      ensures enabled == (old(enabled) || (hasControl && effect != null && status == NoError))
      ensures effect != null ==> effect.suspended == (old(effect.suspended) || (old(CanEnable()) && suspends))
      ensures effect != null && old(effect.core.state) != Destroyed ==>
                effect.core.IsEnabled() == if old(CanEnable()) && !old(effect.suspended)
                                           then !suspends && status == NoError else old(effect.core.IsEnabled())
      ensures effect != null ==> (effect.core.state == Destroyed <==> old(effect.core.state) == Destroyed)
      ensures old(Serves()) ==>
                effect.View() == Lived(old(effect.View()), TurnsOn(this, policyOk, suspends), effect.pinned)
    {
      if !hasControl {
        return InvalidOperation;
      }
      if effect == null {
        return DeadObject;
      }
      if enabled {
        return NoError;
      }
      enabled := true;
      var ok;
      if suspends && !effect.suspended {
        ok := effect.core.SetEnabled(false, true);
        effect.suspended := true;
      }
      if effect.suspended {
        return NoError;
      }
      ok := effect.core.SetEnabled(true, policyOk);
      if !ok {
        enabled := false;
        return Refused;
      }
      status := NoError;
    }

    /** disable */
    method Disable() returns (status: Status)
      requires effect != null ==> effect.core.EngineFollows()
      modifies this`enabled, (if effect == null then {} else {effect.core})`state
      ensures effect != null ==> effect.core.EngineFollows()
      ensures status == if !hasControl then InvalidOperation else if effect == null then DeadObject else NoError
      ensures enabled == (old(enabled) && status != NoError)
      ensures effect != null && old(effect.core.state) != Destroyed ==>
                effect.core.IsEnabled()
                  == (old(effect.core.IsEnabled()) && !(hasControl && old(enabled) && !effect.suspended))
      ensures effect != null ==> (effect.core.state == Destroyed <==> old(effect.core.state) == Destroyed)
      ensures old(Serves()) ==> effect.View() == Lived(old(effect.View()), TurnsOff(this), effect.pinned)
    {
      if !hasControl {
        return InvalidOperation;
      }
      if effect == null {
        return DeadObject;
      }
      if !enabled {
        return NoError;
      }
      enabled := false;
      if effect.suspended {
        return NoError;
      }
      var ok := effect.core.SetEnabled(false, true);
      status := NoError;
    }
  }

  // ----- the order of the list -----

  /** Where a handle of this priority goes: before the first of the same or a lower one. */
  function Rank(hs: seq<EffectHandle>, priority: int): (k: nat)
    ensures k <= |hs|
    ensures forall i :: 0 <= i < k ==> hs[i].priority > priority
    ensures k < |hs| ==> hs[k].priority <= priority
  {
    if hs == [] || hs[0].priority <= priority then 0 else 1 + Rank(hs[1..], priority)
  }

  function Joined(hs: seq<EffectHandle>, h: EffectHandle): seq<EffectHandle> {
    hs[..Rank(hs, h.priority)] + [h] + hs[Rank(hs, h.priority)..]
  }

  function Left(hs: seq<EffectHandle>, h: EffectHandle): (r: seq<EffectHandle>)
    ensures h !in hs ==> r == hs
    ensures forall g :: g in r ==> g in hs
  {
    if hs == [] then [] else if hs[0] == h then hs[1..] else [hs[0]] + Left(hs[1..], h)
  }

  ghost predicate Once(hs: seq<EffectHandle>) {
    forall i, j :: 0 <= i < j < |hs| ==> hs[i] != hs[j]
  }

  lemma JoinedAt(hs: seq<EffectHandle>, h: EffectHandle, i: nat)
    requires i <= |hs|
    ensures var k := Rank(hs, h.priority);
            |Joined(hs, h)| == |hs| + 1 && Joined(hs, h)[i] == if i < k then hs[i] else if i == k then h else hs[i - 1]
  {
    hide Rank;
  }

  lemma {:induction false} LeftAt(hs: seq<EffectHandle>, h: EffectHandle, k: nat)
    requires k < |hs| && hs[k] == h && h !in hs[..k]
    ensures Left(hs, h) == hs[..k] + hs[k + 1..]
  {
    if k > 0 {
      assert hs[0] == hs[..k][0];
      assert hs[1..][..k - 1] == hs[..k][1..];
      LeftAt(hs[1..], h, k - 1);
    }
  }

  lemma JoinedOnce(hs: seq<EffectHandle>, h: EffectHandle)
    requires Once(hs) && h !in hs
    ensures Once(Joined(hs, h))
  {
    hide Rank, Joined;
    JoinedAt(hs, h, 0);
    var r := Joined(hs, h);
    forall i, j | 0 <= i < j < |r| ensures r[i] != r[j] {
      JoinedAt(hs, h, i);
      JoinedAt(hs, h, j);
    }
  }

  // ----- whole runs -----

  datatype Op = Join(h: EffectHandle) | Leave(h: EffectHandle)

  function After(ops: seq<Op>): seq<EffectHandle> {
    if ops == [] then []
    else
      var hs := After(ops[..|ops| - 1]);
      match ops[|ops| - 1]
      case Join(h) => Joined(hs, h)
      case Leave(h) => Left(hs, h)
  }

  /** A handle joins only while it is not on the list. */
  predicate Orderly(ops: seq<Op>) {
    ops == [] ||
    (Orderly(ops[..|ops| - 1]) && (ops[|ops| - 1].Join? ==> ops[|ops| - 1].h !in After(ops[..|ops| - 1])))
  }

  /** One more than the number of the step in which h joined last; 0 if it never did. */
  function JoinTime(ops: seq<Op>, h: EffectHandle): (n: nat)
    ensures n <= |ops|
  {
    if ops == [] then 0 else if ops[|ops| - 1] == Join(h) then |ops| else JoinTime(ops[..|ops| - 1], h)
  }

  /** g comes before h: it has the higher priority, or the same and joined later. */
  predicate Ahead(ops: seq<Op>, g: EffectHandle, h: EffectHandle) {
    g.priority > h.priority || (g.priority == h.priority && JoinTime(ops, g) > JoinTime(ops, h))
  }

  ghost predicate InOrder(ops: seq<Op>, hs: seq<EffectHandle>) {
    forall i, j :: 0 <= i < j < |hs| ==> Ahead(ops, hs[i], hs[j])
  }

  /** A handle is on the list exactly from its joining to its leaving. */
  predicate Present(ops: seq<Op>, h: EffectHandle) {
    if ops == [] then false
    else if ops[|ops| - 1] == Join(h) then true
    else if ops[|ops| - 1] == Leave(h) then false
    else Present(ops[..|ops| - 1], h)
  }

  lemma {:induction false} PresentIff(ops: seq<Op>, h: EffectHandle)
    requires Orderly(ops)
    ensures Once(After(ops)) && (h in After(ops) <==> Present(ops, h))
  {
    if ops != [] {
      var before, op := ops[..|ops| - 1], ops[|ops| - 1];
      PresentIff(before, h);
      var hs := After(before);
      match op
      case Join(g) =>
        JoinedOnce(hs, g);
        JoinedMembers(hs, g, h);
      case Leave(g) =>
        LeftOnce(hs, g, h);
    }
  }

  lemma JoinedMembers(hs: seq<EffectHandle>, g: EffectHandle, h: EffectHandle)
    ensures h in Joined(hs, g) <==> h == g || h in hs
  {
    hide Rank;
    assert hs == hs[..Rank(hs, g.priority)] + hs[Rank(hs, g.priority)..];
  }

  lemma LeftOnce(hs: seq<EffectHandle>, g: EffectHandle, h: EffectHandle)
    requires Once(hs)
    ensures Once(Left(hs, g)) && (h in Left(hs, g) <==> h != g && h in hs)
  {
    hide Left;
    if k :| 0 <= k < |hs| && hs[k] == g {
      assert g !in hs[..k];
      LeftAt(hs, g, k);
      assert hs == hs[..k] + [g] + hs[k + 1..];
    }
  }

  lemma AheadLater(ops: seq<Op>, g: EffectHandle, h: EffectHandle)
    requires ops != [] && ops[|ops| - 1] != Join(g) && ops[|ops| - 1] != Join(h)
    ensures Ahead(ops, g, h) == Ahead(ops[..|ops| - 1], g, h)
  {}

  lemma JoinedInOrder(ops: seq<Op>, hs: seq<EffectHandle>, h: EffectHandle)
    requires ops != [] && ops[|ops| - 1] == Join(h) && h !in hs && InOrder(ops[..|ops| - 1], hs)
    ensures InOrder(ops, Joined(hs, h))
  {
    hide Rank, Joined, Ahead;
    JoinedAt(hs, h, 0);
    var r, k := Joined(hs, h), Rank(hs, h.priority);
    forall i, j | 0 <= i < j < |r| ensures Ahead(ops, r[i], r[j]) {
      JoinedAt(hs, h, i);
      JoinedAt(hs, h, j);
      if i == k {
        NewestAhead(ops, hs, h, j - 1);
      } else if j == k {
        HigherAhead(ops, r[i], h);
      } else {
        var a, b := if i < k then i else i - 1, if j < k then j else j - 1;
        assert Ahead(ops[..|ops| - 1], hs[a], hs[b]);
        AheadLater(ops, hs[a], hs[b]);
      }
    }
  }

  lemma HigherAhead(ops: seq<Op>, g: EffectHandle, h: EffectHandle)
    requires g.priority > h.priority
    ensures Ahead(ops, g, h)
  {}

  lemma NewestAhead(ops: seq<Op>, hs: seq<EffectHandle>, h: EffectHandle, b: nat)
    requires ops != [] && ops[|ops| - 1] == Join(h) && h !in hs && Rank(hs, h.priority) <= b < |hs|
    requires InOrder(ops[..|ops| - 1], hs)
    ensures Ahead(ops, h, hs[b])
  {
    hide Rank;
    var k := Rank(hs, h.priority);
    assert k == b || Ahead(ops[..|ops| - 1], hs[k], hs[b]);
  }

  lemma LeftInOrder(ops: seq<Op>, hs: seq<EffectHandle>, h: EffectHandle)
    requires ops != [] && ops[|ops| - 1] == Leave(h) && Once(hs) && InOrder(ops[..|ops| - 1], hs)
    ensures InOrder(ops, Left(hs, h))
  {
    hide Left, Ahead;
    forall i, j | 0 <= i < j < |hs| ensures Ahead(ops, hs[i], hs[j]) {
      AheadLater(ops, hs[i], hs[j]);
    }
    if k :| 0 <= k < |hs| && hs[k] == h {
      assert h !in hs[..k];
      LeftAt(hs, h, k);
    }
  }

  /** After every run the list is in order, so the handle in front is the newest of the highest priority. */
  lemma {:induction false} RunInOrder(ops: seq<Op>)
    requires Orderly(ops)
    ensures InOrder(ops, After(ops))
  {
    if ops != [] {
      var before, op := ops[..|ops| - 1], ops[|ops| - 1];
      RunInOrder(before);
      PresentIff(before, op.h);
      match op
      case Join(h) => JoinedInOrder(ops, After(before), h);
      case Leave(h) => LeftInOrder(ops, After(before), h);
    }
  }

  /** Who controls the effect after a run: the present handle that is ahead of all others. */
  lemma ControlAfterRun(ops: seq<Op>, h: EffectHandle)
    requires Orderly(ops)
    ensures After(ops) != [] && After(ops)[0] == h <==>
            Present(ops, h) && forall g :: g in After(ops) && g != h ==> Ahead(ops, h, g)
  {
    hide Ahead, JoinTime;
    var hs := After(ops);
    RunInOrder(ops);
    PresentIff(ops, h);
    if hs != [] && hs[0] == h {
      forall g | g in hs && g != h ensures Ahead(ops, h, g) {
        var j :| 0 <= j < |hs| && hs[j] == g;
      }
    } else if h in hs {
      var j :| 0 <= j < |hs| && hs[j] == h;
      assert Ahead(ops, hs[0], hs[j]);
      NotBothAhead(ops, hs[0], h);
    }
  }

  lemma NotBothAhead(ops: seq<Op>, g: EffectHandle, h: EffectHandle)
    requires Ahead(ops, g, h)
    ensures !Ahead(ops, h, g)
  {}

  // ----- what the handle in control believes -----

  /** An effect as its clients see it: what the handle in front believes, and whether it is on, suspended or gone. */
  datatype Life = Life(handles: seq<EffectHandle>, believed: bool, on: bool, suspended: bool, gone: bool)

  datatype Act =
    | Joins(h: EffectHandle)
    | Leaves(h: EffectHandle)
    | TurnsOn(h: EffectHandle, policyOk: bool, suspends: bool)
    | TurnsOff(h: EffectHandle)
    | Suspends
    | Restores(policyOk: bool)

  predicate InFront(l: Life, h: EffectHandle) {
    l.handles != [] && l.handles[0] == h
  }

  function Lived(l: Life, a: Act, pinned: bool): Life {
    if l.gone then l
    else
      match a
      case Joins(h) =>
        if h in l.handles then l else l.(handles := Joined(l.handles, h), believed := l.handles != [] && l.believed)
      case Leaves(h) =>
        if h !in l.handles then l
        else if Left(l.handles, h) != [] then l.(handles := Left(l.handles, h))
        else Life([], false, pinned && l.on, l.suspended, !pinned)
      case TurnsOn(h, ok, suspends) =>
        if !InFront(l, h) || l.believed then l
        else if l.suspended then l.(believed := true)
        else if suspends then l.(believed := true, on := false, suspended := true)
        else if ok || l.on then l.(believed := true, on := true)
        else l
      case TurnsOff(h) =>
        if !InFront(l, h) || !l.believed then l
        else l.(believed := false, on := l.suspended && l.on)
      case Suspends => if l.on then l.(on := false, suspended := true) else l
      case Restores(ok) =>
        if !l.suspended then l
        else if l.handles == [] then l.(suspended := false)
        else l.(suspended := false, on := l.believed && (ok || l.on))
  }

  function LifeAfter(acts: seq<Act>, pinned: bool): Life {
    if acts == [] then Life([], false, false, false, false)
    else Lived(LifeAfter(acts[..|acts| - 1], pinned), acts[|acts| - 1], pinned)
  }

  /** How the effect can fail to do what the handle in control believes. */
  datatype Fault = NoFault | StuckOn | StuckOff

  /** What a run does to it. The effect is stuck on when a handle joins an empty list while it is on, until the handle
      in control enables it, it is suspended, or the list is empty. It is stuck off when the policy refuses to restore
      it, until the handle in control disables it or the list is empty. */
  function FaultAfter(acts: seq<Act>, pinned: bool): Fault {
    if acts == [] then NoFault
    else
      var front, a := acts[..|acts| - 1], acts[|acts| - 1];
      var l, f := LifeAfter(front, pinned), FaultAfter(front, pinned);
      if l.gone then NoFault
      else
        match a
        case Joins(h) => if l.handles == [] && l.on then StuckOn else f
        case Leaves(h) => if h in l.handles && Left(l.handles, h) == [] then NoFault else f
        case TurnsOn(h, _, _) => if InFront(l, h) && f == StuckOn then NoFault else f
        case TurnsOff(h) => if InFront(l, h) && f == StuckOff then NoFault else f
        case Suspends => if f == StuckOn then NoFault else f
        case Restores(ok) => if l.suspended && l.handles != [] && l.believed && !ok then StuckOff else f
  }

  /** What a fault means. */
  predicate Means(l: Life, f: Fault) {
    && (l.suspended ==> !l.on) && (l.gone || l.handles == [] ==> f == NoFault && !l.believed)
    && (l.handles != [] ==>
          match f
          case NoFault => l.on == (l.believed && !l.suspended)
          case StuckOn => l.on && !l.believed
          case StuckOff => !l.on && l.believed && !l.suspended)
  }

  lemma {:induction false} RunMeans(acts: seq<Act>, pinned: bool)
    ensures Means(LifeAfter(acts, pinned), FaultAfter(acts, pinned))
  {
    hide Joined, Left;
    if acts != [] {
      RunMeans(acts[..|acts| - 1], pinned);
      if acts[|acts| - 1].Joins? {
        JoinedMembers(LifeAfter(acts[..|acts| - 1], pinned).handles, acts[|acts| - 1].h, acts[|acts| - 1].h);
      }
    }
  }

  /** Over every run of joining, leaving, enabling, disabling, suspending and restoring: the effect is on exactly if the
      handle in control believes so and it is not suspended, if and only if neither fault is pending. */
  lemma BeliefIff(acts: seq<Act>, pinned: bool)
    requires LifeAfter(acts, pinned).handles != []
    ensures var l := LifeAfter(acts, pinned);
            (l.on == (l.believed && !l.suspended)) <==> FaultAfter(acts, pinned) == NoFault
  {
    RunMeans(acts, pinned);
  }

  lemma OneAct(acts: seq<Act>, a: Act, pinned: bool)
    ensures LifeAfter(acts + [a], pinned) == Lived(LifeAfter(acts, pinned), a, pinned)
    ensures var l := LifeAfter(acts, pinned);
            a == Restores(false) && !l.gone && l.suspended && l.believed && l.handles != [] ==>
              FaultAfter(acts + [a], pinned) == StuckOff
  {
    hide Lived;
    assert (acts + [a])[..|acts + [a]| - 1] == acts;
  }

  /** Stuck off: enabled, suspended, and restored against the policy. The handle believes that the effect is on. */
  lemma RestoreRefused(h: EffectHandle, pinned: bool) returns (acts: seq<Act>)
    ensures LifeAfter(acts, pinned) == Life([h], true, false, false, false) && FaultAfter(acts, pinned) == StuckOff
  {
    hide LifeAfter, FaultAfter, Joined, Left, Rank;
    OnlyOne(h);
    assert LifeAfter([], pinned) == Life([], false, false, false, false) by { NoLife(pinned); }
    var first, second, third := [Joins(h)], [TurnsOn(h, true, false)], [Suspends];
    OneAct([], Joins(h), pinned);
    OneAct([] + first, TurnsOn(h, true, false), pinned);
    OneAct([] + first + second, Suspends, pinned);
    OneAct([] + first + second + third, Restores(false), pinned);
    acts := [] + first + second + third + [Restores(false)];
  }

  lemma NoLife(pinned: bool)
    ensures LifeAfter([], pinned) == Life([], false, false, false, false)
  {}

  /** An effect that is not pinned is never stuck on. */
  lemma {:induction false} NeverStuckOn(acts: seq<Act>)
    ensures FaultAfter(acts, false) != StuckOn
    ensures var l := LifeAfter(acts, false);
            l.handles == [] ==> !l.on
  {
    hide Joined, Left;
    if acts != [] {
      NeverStuckOn(acts[..|acts| - 1]);
      if acts[|acts| - 1].Joins? {
        JoinedMembers(LifeAfter(acts[..|acts| - 1], false).handles, acts[|acts| - 1].h, acts[|acts| - 1].h);
      }
    }
  }

  // ----- the effect and its handles -----

  /** The part of EffectModule that keeps the handles; `core` is the rest. */
  class HandledEffect {
    const core: EffectModule
    var pinned: bool
    var handles: seq<EffectHandle>
    var suspended: bool

    constructor (core: EffectModule, pinned: bool)
      ensures this.core == core && this.pinned == pinned && handles == [] && !suspended && Controlled()
    {
      this.core, this.pinned, handles, suspended := core, pinned, [], false;
    }

    /** The first handle, and no other, has control. */
    ghost predicate Controlled()
      reads this`handles, (set h | h in handles)`hasControl
    {
      Once(handles) && forall i :: 0 <= i < |handles| ==> (handles[i].hasControl <==> i == 0)
    }

    /** The effect is on exactly if the handle in control believes so and it is not suspended. */
    ghost predicate InStep()
      reads this`handles, this`suspended, (set h | h in handles)`enabled, core`state
    {
      handles != [] ==> assert handles[0] in handles; (core.IsEnabled() <==> handles[0].enabled && !suspended)
    }

    /** What the run theorem below speaks of. */
    ghost function View(): Life
      reads this`handles, this`suspended, (set h | h in handles)`enabled, core`state
    {
      Life(handles, handles != [] && assert handles[0] in handles; handles[0].enabled, core.IsEnabled(), suspended,
           core.state == Destroyed)
    }

    /** addHandle. Control comes with what the previous owner believed; after a pinned effect has lost its last
        handle there is none to ask, and the new owner believes that the effect is off. */
    method AddHandle(h: EffectHandle) returns (status: Status)
      requires Controlled() && h !in handles && !h.hasControl
      modifies this`handles, {h}`hasControl, {h}`enabled
      modifies (set g | g in handles)`hasControl, (set g | g in handles)`enabled
      ensures Controlled() && handles == Joined(old(handles), h) && handles != []
      ensures status == if handles[0] == h then NoError else AlreadyExists
      ensures old(InStep()) ==> (InStep() <==> old(handles) != [] || !core.IsEnabled())
      ensures core.state != Destroyed ==> View() == Lived(old(View()), Joins(h), pinned)
    {
      var i := FindRank(handles, h.priority);
      JoinedOnce(handles, h);
      if i == 0 {
        var enabled := false;
        if |handles| > 0 {
          var first := handles[0];
          assert first in handles;
          enabled := first.enabled;
          first.SetControl(false, enabled);
        }
        h.SetControl(true, enabled);
        status := NoError;
      } else {
        status := AlreadyExists;
      }
      handles := handles[..i] + [h] + handles[i..];
    }

    /** removeHandle */
    method RemoveHandle(h: EffectHandle) returns (left: nat)
      requires Controlled() && core.EngineFollows()
      modifies this`handles, core`state
      modifies (set g | g in handles)`hasControl, (set g | g in handles)`enabled
      ensures Controlled() && handles == Left(old(handles), h) && left == |handles|
      ensures old(InStep()) ==> InStep()
      ensures core.state == if h in old(handles) && handles == [] && !pinned then Destroyed else old(core.state)
      ensures core.EngineFollows() <==> !(h in old(handles) && handles == [] && !pinned) || !core.engineEnabled
      ensures old(core.state) != Destroyed ==> View() == Lived(old(View()), Leaves(h), pinned)
    {
      hide Left;
      var i := IndexOf(handles, h);
      if i == |handles| {
        return i;
      }
      LeftAt(handles, h, i);
      TakeOff(i);
      core.LoseHandle(|handles|, pinned);
      left := |handles|;
    }

    /** setEffectSuspended_l to suspend, as it meets this effect. */
    method Suspend()
      requires core.EngineFollows()
      modifies this`suspended, core`state
      ensures core.EngineFollows() && (old(InStep()) ==> InStep())
      ensures old(core.state) != Destroyed ==> View() == Lived(old(View()), Suspends, pinned)
    {
      if core.IsEnabled() {
        suspended := true;
        var ok := core.SetEnabled(false, true);
      }
    }

    /** setEffectSuspended_l to restore, as it meets this effect; policyOk is what the policy answers. */
    method Restore(policyOk: bool)
      requires core.EngineFollows()
      modifies this`suspended, core`state
      ensures core.EngineFollows()
      ensures old(core.state) != Destroyed ==> View() == Lived(old(View()), Restores(policyOk), pinned)
    {
      if suspended {
        suspended := false;
        if handles != [] {
          var ok := core.SetEnabled(handles[0].enabled, policyOk);
        }
      }
    }

    /** The handle at i goes; if it had control, the next in line gets it. */
    method TakeOff(i: nat)
      requires Controlled() && i < |handles|
      modifies this`handles, (set g | g in handles)`hasControl, (set g | g in handles)`enabled
      ensures Controlled() && handles == old(handles)[..i] + old(handles)[i + 1..]
      ensures handles != [] ==> handles[0].enabled == old(handles[0].enabled)
      ensures old(InStep()) ==> InStep()
    {
      ghost var before := handles;
      var enabled := handles[i].enabled;
      handles := handles[..i] + handles[i + 1..];
      forall j | 0 <= j < |handles| ensures handles[j] == before[if j < i then j else j + 1] {}
      if i == 0 && |handles| != 0 {
        assert handles[0] in before;
        handles[0].SetControl(true, enabled);
      }
    }
  }

  method FindRank(hs: seq<EffectHandle>, priority: int) returns (i: nat)
    ensures i == Rank(hs, priority)
  {
    i := 0;
    assert hs[0..] == hs;
    while i < |hs|
      invariant 0 <= i <= |hs| && Rank(hs, priority) == i + Rank(hs[i..], priority)
    {
      assert hs[i..][1..] == hs[i + 1..];
      if hs[i].priority <= priority {
        break;
      }
      i := i + 1;
    }
  }

  method IndexOf(hs: seq<EffectHandle>, h: EffectHandle) returns (i: nat)
    ensures i <= |hs| && h !in hs[..i] && (i < |hs| ==> hs[i] == h)
  {
    i := 0;
    while i < |hs|
      invariant 0 <= i <= |hs| && h !in hs[..i]
    {
      if hs[i] == h {
        return;
      }
      i := i + 1;
    }
  }

  lemma OnlyOne(h: EffectHandle)
    ensures Joined([], h) == [h] && Left([h], h) == []
  {}

  /** A pinned effect that was on when its last handle went: the next handle cannot turn it off in one call. */
  method PinnedStaysOn(core: EffectModule) returns (effect: HandledEffect, h: EffectHandle)
    requires core.EngineFollows() && core.state == Idle
    modifies core`state
    ensures fresh(effect) && effect.core == core && effect.handles == [h] && effect.Controlled()
    ensures core.IsEnabled() && !h.enabled && !effect.InStep()
  {
    hide Joined, Left, Rank, Lived, HandledEffect.Controlled;
    effect := new HandledEffect(core, true);
    var first := new EffectHandle(effect, 0);
    OnlyOne(first);
    var status := effect.AddHandle(first);
    status := first.Enable(true, false);
    var left := effect.RemoveHandle(first);
    h := new EffectHandle(effect, 0);
    OnlyOne(h);
    status := effect.AddHandle(h);
    status := h.Disable();
  }
}
