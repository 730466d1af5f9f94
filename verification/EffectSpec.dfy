/** The order and the wiring of the effects of one chain, on values: where
    audioflinger/4.1.2/AudioFlinger.cpp puts an effect and which buffers the effects then write. */
module EffectSpec {

  type Buffer = nat

  /** The effect type flag; Processing stands for pre- and post-processing types. */
  datatype Mode = Insert | Auxiliary | Processing

  /** The insertion preference flag; Any stands for every value that is not one of the others. */
  datatype Pref = First | Any | Last | Exclusive

  datatype Effect = Effect(id: nat, mode: Mode, pref: Pref, out: Buffer)

  type EffectList = seq<Effect>

  // ----- the invariants -----

  function Rank(p: Pref): nat {
    match p
    case First => 0
    case Any => 1
    case Last => 2
    case Exclusive => 1
  }

  /** Auxiliary effects come first. */
  ghost predicate AuxFirst(v: EffectList) {
    forall i, j :: 0 <= i < j < |v| && v[j].mode == Auxiliary ==> v[i].mode == Auxiliary
  }

  /** Insert effects come in the order first, any, last. */
  ghost predicate InsertsSorted(v: EffectList) {
    forall i, j :: 0 <= i < j < |v| && v[i].mode == Insert && v[j].mode == Insert ==> Rank(v[i].pref) <= Rank(v[j].pref)
  }

  /** An exclusive effect stands alone: it neither follows nor precedes an insert effect that way. */
  ghost predicate Alone(v: EffectList) {
    forall i, j :: 0 <= i < j < |v| && v[i].mode == Insert && v[j].mode != Auxiliary ==>
      v[i].pref != Exclusive && v[j].pref != Exclusive
  }

  ghost predicate Ordered(v: EffectList) {
    AuxFirst(v) && InsertsSorted(v) && Alone(v)
  }

  /** All effects but the last write the chain's input buffer; the last one writes the chain's output buffer or, if
      it is auxiliary, possibly the input buffer. */
  ghost predicate Wired(v: EffectList, inBuffer: Buffer, outBuffer: Buffer) {
    && (forall i :: 0 <= i < |v| - 1 ==> v[i].out == inBuffer)
    && (|v| > 0 ==> v[|v| - 1].out == outBuffer || (v[|v| - 1].mode == Auxiliary && v[|v| - 1].out == inBuffer))
  }

  // ----- where an effect goes -----

  /** The first index from i on with an insert effect of this preference, or any insert effect. */
  function FirstInsert(v: EffectList, pref: Pref, any: bool, i: nat): (k: nat)
    requires i <= |v|
    ensures i <= k <= |v|
    ensures k < |v| ==> v[k].mode == Insert && (any || v[k].pref == pref)
    ensures forall j :: i <= j < k ==> !(v[j].mode == Insert && (any || v[j].pref == pref))
    decreases |v| - i
  {
    if i == |v| || (v[i].mode == Insert && (any || v[i].pref == pref)) then i else FirstInsert(v, pref, any, i + 1)
  }

  /** One past the last insert effect that claims the first position, 0 if there is none. */
  function PastFirst(v: EffectList): (k: nat)
    ensures k <= |v|
    ensures k > 0 ==> v[k - 1].mode == Insert && v[k - 1].pref == First
    ensures forall j :: k <= j < |v| ==> !(v[j].mode == Insert && v[j].pref == First)
  {
    if v == [] then 0
    else if v[|v| - 1].mode == Insert && v[|v| - 1].pref == First then |v|
    else
      var front := v[..|v| - 1];
      PastFirst(front)
  }

  function SomeInsert(v: EffectList): nat {
    FirstInsert(v, Any, true, 0)
  }

  predicate Conflict(v: EffectList, e: Effect) {
    exists k :: 0 <= k < |v| && v[k].mode == Insert && (e.pref == Exclusive || v[k].pref == Exclusive)
  }

  function Place(v: EffectList, e: Effect): (k: nat)
    ensures k <= |v|
  {
    if e.pref == Last then FirstInsert(v, Last, false, 0)
    else if PastFirst(v) > 0 then PastFirst(v)
    else SomeInsert(v)
  }

  /** The chain with one more effect. */
  function Added(v: EffectList, e: Effect, inBuffer: Buffer, outBuffer: Buffer): EffectList {
    if e.mode == Auxiliary then [e.(out := inBuffer)] + v
    else if Place(v, e) < |v| then v[..Place(v, e)] + [e.(out := inBuffer)] + v[Place(v, e)..]
    else if v == [] then [e.(out := outBuffer)]
    else v[|v| - 1 := v[|v| - 1].(out := inBuffer)] + [e.(out := outBuffer)]
  }

  /** The chain without its effect at i. */
  function Removed(v: EffectList, i: nat, outBuffer: Buffer): EffectList
    requires i < |v|
  {
    if v[i].mode != Auxiliary && i == |v| - 1 && i != 0 then v[..i][i - 1 := v[i - 1].(out := outBuffer)]
    else v[..i] + v[i + 1..]
  }

  // ----- adding -----

  /** What the place of an insert effect means: what comes before and after it. */
  lemma PlaceBetween(v: EffectList, e: Effect)
    requires InsertsSorted(v) && !Conflict(v, e)
    ensures forall j :: 0 <= j < Place(v, e) && v[j].mode == Insert ==> Rank(v[j].pref) <= Rank(e.pref)
    ensures forall j :: Place(v, e) <= j < |v| && v[j].mode == Insert ==> Rank(e.pref) <= Rank(v[j].pref)
    ensures Place(v, e) < |v| ==> SomeInsert(v) <= Place(v, e)
  {
    var p := Place(v, e);
    if e.pref != Last && PastFirst(v) > 0 {
      assert v[p - 1].pref == First;
    }
  }

  /** The chain around the new effect, whichever buffers are written. */
  lemma AddedOrder(v: EffectList, e: Effect, w: EffectList, p: nat)
    requires Ordered(v) && p <= |v| && |w| == |v| + 1
    requires w[p].mode == e.mode && w[p].pref == e.pref
    requires forall i :: 0 <= i < p ==> w[i].mode == v[i].mode && w[i].pref == v[i].pref
    requires forall i :: p < i < |w| ==> w[i].mode == v[i - 1].mode && w[i].pref == v[i - 1].pref
    requires if e.mode == Auxiliary then p == 0 else p == Place(v, e) && !Conflict(v, e)
    ensures Ordered(w)
  {
    if e.mode != Auxiliary { PlaceBetween(v, e); }
    hide Place, Conflict;
    AddedAuxFirst(v, e, w, p);
    AddedSorted(v, e, w, p);
    AddedAlone(v, e, w, p);
  }

  lemma AddedAuxFirst(v: EffectList, e: Effect, w: EffectList, p: nat)
    requires AuxFirst(v) && p <= |v| && |w| == |v| + 1
    requires w[p].mode == e.mode
    requires forall i :: 0 <= i < p ==> w[i].mode == v[i].mode
    requires forall i :: p < i < |w| ==> w[i].mode == v[i - 1].mode
    requires if e.mode == Auxiliary then p == 0 else p < |v| ==> SomeInsert(v) <= p
    ensures AuxFirst(w)
  {
    forall i, j | 0 <= i < j < |w| && w[j].mode == Auxiliary ensures w[i].mode == Auxiliary {
      if j > p && e.mode != Auxiliary {
        assert v[SomeInsert(v)].mode == Insert;
      }
    }
  }

  lemma AddedSorted(v: EffectList, e: Effect, w: EffectList, p: nat)
    requires InsertsSorted(v) && p <= |v| && |w| == |v| + 1
    requires w[p].mode == e.mode && w[p].pref == e.pref
    requires forall i :: 0 <= i < p ==> w[i].mode == v[i].mode && w[i].pref == v[i].pref
    requires forall i :: p < i < |w| ==> w[i].mode == v[i - 1].mode && w[i].pref == v[i - 1].pref
    requires e.mode == Insert ==>
               (&& (forall j :: 0 <= j < p && v[j].mode == Insert ==> Rank(v[j].pref) <= Rank(e.pref))
                && (forall j :: p <= j < |v| && v[j].mode == Insert ==> Rank(e.pref) <= Rank(v[j].pref)))
    ensures InsertsSorted(w)
  {
    forall i, j | 0 <= i < j < |w| && w[i].mode == Insert && w[j].mode == Insert
      ensures Rank(w[i].pref) <= Rank(w[j].pref)
    {
      hide Rank;
      var a, b := if i < p then i else i - 1, if j < p then j else j - 1;
      if i == p {
        assert v[b].mode == Insert;
      } else if j == p {
        assert v[a].mode == Insert;
      } else {
        assert a < b;
        assert v[a].mode == Insert && v[b].mode == Insert;
      }
    }
  }

  lemma AddedAlone(v: EffectList, e: Effect, w: EffectList, p: nat)
    requires Alone(v) && p <= |v| && |w| == |v| + 1
    requires w[p].mode == e.mode && w[p].pref == e.pref
    requires forall i :: 0 <= i < p ==> w[i].mode == v[i].mode && w[i].pref == v[i].pref
    requires forall i :: p < i < |w| ==> w[i].mode == v[i - 1].mode && w[i].pref == v[i - 1].pref
    requires e.mode != Auxiliary ==>
               (&& !Conflict(v, e)
                && (p < |v| ==> SomeInsert(v) <= p))
    ensures Alone(w)
  {
    forall i, j | 0 <= i < j < |w| && w[i].mode == Insert && w[j].mode != Auxiliary
      ensures w[i].pref != Exclusive && w[j].pref != Exclusive
    {
      var a, b := if i < p then i else i - 1, if j < p then j else j - 1;
      if i == p {
        var k := SomeInsert(v);
        assert v[k].mode == Insert;
        if k < b { assert v[k].mode == Insert && v[b].mode != Auxiliary; } else { assert v[b].mode == Insert; }
      } else if j == p {
        assert v[a].mode == Insert;
      } else {
        assert v[a].mode == Insert && v[b].mode != Auxiliary;
      }
    }
  }

  /** Adding keeps the order and the wiring. */
  lemma AddedKeeps(v: EffectList, e: Effect, inBuffer: Buffer, outBuffer: Buffer)
    requires Ordered(v) && Wired(v, inBuffer, outBuffer) && (e.mode == Auxiliary || !Conflict(v, e))
    ensures Ordered(Added(v, e, inBuffer, outBuffer)) && Wired(Added(v, e, inBuffer, outBuffer), inBuffer, outBuffer)
  {
    var w, p := Added(v, e, inBuffer, outBuffer), if e.mode == Auxiliary then 0 else Place(v, e);
    AddedParts(v, e, inBuffer, outBuffer);
    hide Added, Place, Ordered, Conflict;
    AddedOrder(v, e, w, p);
  }

  lemma AddedParts(v: EffectList, e: Effect, inBuffer: Buffer, outBuffer: Buffer)
    requires Wired(v, inBuffer, outBuffer)
    ensures var w, p := Added(v, e, inBuffer, outBuffer), if e.mode == Auxiliary then 0 else Place(v, e);
            && |w| == |v| + 1 && w[p] == e.(out := w[p].out)
            && (forall i :: 0 <= i < p ==> w[i].mode == v[i].mode && w[i].pref == v[i].pref && w[i].id == v[i].id)
            && (forall i :: p < i < |w| ==>
                  w[i].mode == v[i - 1].mode && w[i].pref == v[i - 1].pref && w[i].id == v[i - 1].id)
            && Wired(w, inBuffer, outBuffer)
  {
    hide Place;
  }

  // ----- removing -----

  /** Removing keeps the order and the wiring. */
  lemma RemovedKeeps(v: EffectList, i: nat, inBuffer: Buffer, outBuffer: Buffer)
    requires Ordered(v) && Wired(v, inBuffer, outBuffer) && i < |v|
    ensures Ordered(Removed(v, i, outBuffer)) && Wired(Removed(v, i, outBuffer), inBuffer, outBuffer)
  {
    var w := Removed(v, i, outBuffer);
    assert forall k :: 0 <= k < |w| ==>
             w[k].mode == v[if k < i then k else k + 1].mode && w[k].pref == v[if k < i then k else k + 1].pref;
    RemovedOrder(v, i, w);
    if v[i].mode == Auxiliary && i == |v| - 1 && i > 0 {
      assert v[i - 1].mode == Auxiliary;
    }
  }

  lemma RemovedOrder(v: EffectList, i: nat, w: EffectList)
    requires Ordered(v) && i < |v| && |w| == |v| - 1
    requires forall k :: 0 <= k < |w| ==>
               w[k].mode == v[if k < i then k else k + 1].mode && w[k].pref == v[if k < i then k else k + 1].pref
    ensures Ordered(w)
  {
    hide Rank;
    forall a, b | 0 <= a < b < |w|
      ensures w[b].mode == Auxiliary ==> w[a].mode == Auxiliary
      ensures w[a].mode == Insert && w[b].mode == Insert ==> Rank(w[a].pref) <= Rank(w[b].pref)
      ensures w[a].mode == Insert && w[b].mode != Auxiliary ==> w[a].pref != Exclusive && w[b].pref != Exclusive
    {
      var c, d := if a < i then a else a + 1, if b < i then b else b + 1;
      assert v[c].mode == w[a].mode && v[d].mode == w[b].mode;
    }
  }

  // ----- which buffer auxiliary effects write -----

  /** Every auxiliary effect accumulates into the chain's input buffer, as it is set up to. */
  ghost predicate AuxIn(v: EffectList, inBuffer: Buffer) {
    forall i :: 0 <= i < |v| && v[i].mode == Auxiliary ==> v[i].out == inBuffer
  }

  /** The removal that hands the output on to an auxiliary effect: the last effect goes, and an auxiliary one is
      right in front of it. */
  predicate Exposes(v: EffectList, i: nat) {
    0 < i == |v| - 1 && v[i].mode != Auxiliary && v[i - 1].mode == Auxiliary
  }

  /** After a removal auxiliary effects write the input buffer exactly if it was not such a one, and they did before
      or the one that did not is gone. */
  lemma RemovedAuxIn(v: EffectList, i: nat, inBuffer: Buffer, outBuffer: Buffer)
    requires Wired(v, inBuffer, outBuffer) && inBuffer != outBuffer && i < |v|
    ensures AuxIn(Removed(v, i, outBuffer), inBuffer) <==> !Exposes(v, i) && (AuxIn(v, inBuffer) || i == |v| - 1)
  {
    var w := Removed(v, i, outBuffer);
    if Exposes(v, i) {
      assert w[i - 1].out == outBuffer && w[i - 1].mode == Auxiliary;
    } else if !AuxIn(v, inBuffer) && i < |v| - 1 {
      assert w[|w| - 1] == v[|v| - 1];
    }
  }

  /** After an addition they do exactly if they did before, or the new effect takes the end of the chain. */
  lemma AddedAuxIn(v: EffectList, e: Effect, inBuffer: Buffer, outBuffer: Buffer)
    requires Wired(v, inBuffer, outBuffer) && inBuffer != outBuffer
    ensures AuxIn(Added(v, e, inBuffer, outBuffer), inBuffer) <==>
            AuxIn(v, inBuffer) || (e.mode != Auxiliary && Place(v, e) == |v|)
  {
    hide Place;
    var w, p := Added(v, e, inBuffer, outBuffer), Place(v, e);
    if !AuxIn(v, inBuffer) && (e.mode == Auxiliary || p < |v|) {
      assert w[|w| - 1] == v[|v| - 1];
    }
  }

  // ----- runs -----

  datatype Op = Add(effect: Effect) | Remove(index: nat)

  /** What a request does: a conflicting effect is refused, an absent one is not removed. */
  function Applied(v: EffectList, op: Op, inBuffer: Buffer, outBuffer: Buffer): EffectList {
    match op
    case Add(e) => if e.mode == Auxiliary || !Conflict(v, e) then Added(v, e, inBuffer, outBuffer) else v
    case Remove(i) => if i < |v| then Removed(v, i, outBuffer) else v
  }

  function AfterAll(ops: seq<Op>, inBuffer: Buffer, outBuffer: Buffer): EffectList {
    if ops == [] then []
    else
      var front := ops[..|ops| - 1];
      Applied(AfterAll(front, inBuffer, outBuffer), ops[|ops| - 1], inBuffer, outBuffer)
  }

  /** Every run of additions and removals leaves the chain in order and wired. */
  lemma {:induction false} RunKeeps(ops: seq<Op>, inBuffer: Buffer, outBuffer: Buffer)
    ensures Ordered(AfterAll(ops, inBuffer, outBuffer))
    ensures Wired(AfterAll(ops, inBuffer, outBuffer), inBuffer, outBuffer)
  {
    if ops != [] {
      var v := AfterAll(ops[..|ops| - 1], inBuffer, outBuffer);
      RunKeeps(ops[..|ops| - 1], inBuffer, outBuffer);
      match ops[|ops| - 1] {
        case Add(e) => if e.mode == Auxiliary || !Conflict(v, e) { AddedKeeps(v, e, inBuffer, outBuffer); }
        case Remove(i) => if i < |v| { RemovedKeeps(v, i, inBuffer, outBuffer); }
      }
    }
  }

  /** After every run without auxiliary effects in the chain, exactly the last effect writes the output buffer. */
  lemma OnlyLastWritesOut(ops: seq<Op>, inBuffer: Buffer, outBuffer: Buffer, i: nat)
    requires var v := AfterAll(ops, inBuffer, outBuffer);
             inBuffer != outBuffer && i < |v| && forall k :: 0 <= k < |v| ==> v[k].mode != Auxiliary
    ensures var v := AfterAll(ops, inBuffer, outBuffer);
            && v[i].out == (if i == |v| - 1 then outBuffer else inBuffer)
            && (v[i].out == outBuffer <==> i == |v| - 1)
  {
    RunKeeps(ops, inBuffer, outBuffer);
  }

  /** After every run an exclusive insert effect is the only insert effect. */
  lemma ExclusiveIsOnlyInsert(ops: seq<Op>, inBuffer: Buffer, outBuffer: Buffer, i: nat, j: nat)
    requires var v := AfterAll(ops, inBuffer, outBuffer);
             i < |v| && j < |v| && v[i].mode == Insert && v[j].mode == Insert && v[i].pref == Exclusive
    ensures i == j
  {
    RunKeeps(ops, inBuffer, outBuffer);
    hide AfterAll;
  }

  /** Whether a run leaves an auxiliary effect writing the output buffer: some removal exposed one, and since then
      neither was it removed nor did an effect take the end of the chain. */
  ghost predicate Exposed(ops: seq<Op>, inBuffer: Buffer, outBuffer: Buffer) {
    ops != [] &&
    var front := ops[..|ops| - 1];
    var v := AfterAll(front, inBuffer, outBuffer);
    match ops[|ops| - 1]
    case Add(e) =>
      Exposed(front, inBuffer, outBuffer) && !(e.mode != Auxiliary && !Conflict(v, e) && Place(v, e) == |v|)
    case Remove(i) =>
      if i < |v| then Exposes(v, i) || (Exposed(front, inBuffer, outBuffer) && i != |v| - 1)
      else Exposed(front, inBuffer, outBuffer)
  }

  /** The exact condition for auxiliary effects, over all runs. */
  lemma {:induction false} RunAuxIn(ops: seq<Op>, inBuffer: Buffer, outBuffer: Buffer)
    requires inBuffer != outBuffer
    ensures AuxIn(AfterAll(ops, inBuffer, outBuffer), inBuffer) <==> !Exposed(ops, inBuffer, outBuffer)
  {
    if ops != [] {
      var front := ops[..|ops| - 1];
      var v := AfterAll(front, inBuffer, outBuffer);
      RunAuxIn(front, inBuffer, outBuffer);
      RunKeeps(front, inBuffer, outBuffer);
      hide AuxIn, Wired, Ordered, Added, Removed, Place, Conflict, Exposes;
      match ops[|ops| - 1] {
        case Add(e) => AddedAuxIn(v, e, inBuffer, outBuffer);
        case Remove(i) => if i < |v| { RemovedAuxIn(v, i, inBuffer, outBuffer); }
      }
    }
  }

  /** Auxiliary effects write the input buffer throughout a run exactly if no removal of it exposes one. */
  lemma {:induction false} AlwaysAuxIn(ops: seq<Op>, inBuffer: Buffer, outBuffer: Buffer)
    requires inBuffer != outBuffer
    ensures (forall k :: 0 <= k <= |ops| ==> AuxIn(AfterAll(ops[..k], inBuffer, outBuffer), inBuffer)) <==>
            (forall k :: 0 <= k < |ops| ==> !ExposedBy(AfterAll(ops[..k], inBuffer, outBuffer), ops[k]))
  {
    if forall k :: 0 <= k < |ops| ==> !ExposedBy(AfterAll(ops[..k], inBuffer, outBuffer), ops[k]) {
      forall k | 0 <= k <= |ops| ensures AuxIn(AfterAll(ops[..k], inBuffer, outBuffer), inBuffer) {
        NeverExposed(ops, k, inBuffer, outBuffer);
      }
    }
    if forall k :: 0 <= k <= |ops| ==> AuxIn(AfterAll(ops[..k], inBuffer, outBuffer), inBuffer) {
      forall k | 0 <= k < |ops| ensures !ExposedBy(AfterAll(ops[..k], inBuffer, outBuffer), ops[k]) {
        StepExposes(ops, k, inBuffer, outBuffer);
        assert AuxIn(AfterAll(ops[..k + 1], inBuffer, outBuffer), inBuffer);
      }
    }
  }

  predicate ExposedBy(v: EffectList, op: Op) {
    op.Remove? && op.index < |v| && Exposes(v, op.index)
  }

  lemma StepExposes(ops: seq<Op>, k: nat, inBuffer: Buffer, outBuffer: Buffer)
    requires inBuffer != outBuffer && k < |ops|
    ensures var v := AfterAll(ops[..k], inBuffer, outBuffer);
            var w := AfterAll(ops[..k + 1], inBuffer, outBuffer);
            && (ExposedBy(v, ops[k]) ==> !AuxIn(w, inBuffer))
            && (!ExposedBy(v, ops[k]) && AuxIn(v, inBuffer) ==> AuxIn(w, inBuffer))
  {
    var v := AfterAll(ops[..k], inBuffer, outBuffer);
    assert ops[..k + 1][..k] == ops[..k] && ops[..k + 1][k] == ops[k];
    RunKeeps(ops[..k], inBuffer, outBuffer);
    hide AuxIn, Wired, Ordered, Added, Removed, Place, Conflict, Exposes;
    match ops[k] {
      case Add(e) => AddedAuxIn(v, e, inBuffer, outBuffer);
      case Remove(i) => if i < |v| { RemovedAuxIn(v, i, inBuffer, outBuffer); }
    }
  }

  lemma {:induction false} NeverExposed(ops: seq<Op>, k: nat, inBuffer: Buffer, outBuffer: Buffer)
    requires inBuffer != outBuffer && k <= |ops|
    requires forall j :: 0 <= j < |ops| ==> !ExposedBy(AfterAll(ops[..j], inBuffer, outBuffer), ops[j])
    ensures AuxIn(AfterAll(ops[..k], inBuffer, outBuffer), inBuffer)
  {
    if k > 0 {
      NeverExposed(ops, k - 1, inBuffer, outBuffer);
      StepExposes(ops, k - 1, inBuffer, outBuffer);
    }
  }

  /** Such a run: an auxiliary and an insert effect are added, and the insert effect is removed. */
  lemma ExposingRun(inBuffer: Buffer, outBuffer: Buffer)
    requires inBuffer != outBuffer
    ensures var ops := [Add(Effect(1, Auxiliary, Any, 0)), Add(Effect(2, Insert, Any, 0)), Remove(1)];
            AfterAll(ops, inBuffer, outBuffer) == [Effect(1, Auxiliary, Any, outBuffer)]
  {
    var aux, ins := Effect(1, Auxiliary, Any, 0), Effect(2, Insert, Any, 0);
    var ops := [Add(aux), Add(ins), Remove(1)];
    assert ops[..2][..1] == [Add(aux)] && ops[..2][1] == Add(ins) && [Add(aux)][..0] == [];
    var one := AfterAll([Add(aux)], inBuffer, outBuffer);
    assert one == Applied(AfterAll([], inBuffer, outBuffer), Add(aux), inBuffer, outBuffer);
    assert one == [aux.(out := inBuffer)];
    assert one[..|one| - 1] == [];
    assert Place(one, ins) == 1;
    assert AfterAll(ops[..2], inBuffer, outBuffer) == [aux.(out := inBuffer), ins.(out := outBuffer)];
  }

  // ----- moving a chain: its effects are added to a new chain one by one -----

  /** The new chain after the first k effects. */
  function Rebuilt(v: EffectList, k: nat, inBuffer: Buffer, outBuffer: Buffer): (w: EffectList)
    requires k <= |v|
  {
    if k == 0 then [] else Added(Rebuilt(v, k - 1, inBuffer, outBuffer), v[k - 1], inBuffer, outBuffer)
  }

  /** Only id, type and preference of the new effect matter. */
  lemma AddedIgnoresOut(v: EffectList, e: Effect, b: Buffer, inBuffer: Buffer, outBuffer: Buffer)
    ensures Added(v, e.(out := b), inBuffer, outBuffer) == Added(v, e, inBuffer, outBuffer)
  {}

  function Core(e: Effect): Effect {
    e.(out := 0)
  }

  function Cores(v: EffectList): (w: EffectList)
    ensures |w| == |v|
    ensures forall i :: 0 <= i < |v| ==> w[i] == Core(v[i])
  {
    seq(|v|, i requires 0 <= i < |v| => Core(v[i]))
  }

  /** Adding puts one effect in and leaves the others in their order. */
  lemma AddedCores(v: EffectList, e: Effect, inBuffer: Buffer, outBuffer: Buffer)
    ensures var p := if e.mode == Auxiliary then 0 else Place(v, e);
            Cores(Added(v, e, inBuffer, outBuffer)) == Cores(v)[..p] + [Core(e)] + Cores(v)[p..]
  {
    hide Place;
  }

  ghost predicate Within(w: EffectList, v: EffectList, k: nat)
    requires k <= |v|
  {
    forall d :: d in w ==> exists i :: 0 <= i < k && Core(d) == Core(v[i])
  }

  /** Re-adding the effects of an ordered chain never meets an exclusive conflict. */
  lemma NoConflict(w: EffectList, v: EffectList, k: nat)
    requires k < |v| && Alone(v) && Within(w, v, k) && v[k].mode != Auxiliary
    ensures !Conflict(w, v[k])
  {
    forall n | 0 <= n < |w| && w[n].mode == Insert ensures v[k].pref != Exclusive && w[n].pref != Exclusive {
      assert w[n] in w;
      var i :| 0 <= i < k && Core(w[n]) == Core(v[i]);
      assert v[i].mode == Core(w[n]).mode && v[i].pref == Core(w[n]).pref;
    }
  }

  lemma AddedWithin(w: EffectList, v: EffectList, k: nat, inBuffer: Buffer, outBuffer: Buffer)
    requires k < |v| && Within(w, v, k)
    ensures Within(Added(w, v[k], inBuffer, outBuffer), v, k + 1)
  {
    var u := Added(w, v[k], inBuffer, outBuffer);
    AddedCores(w, v[k], inBuffer, outBuffer);
    hide Added, Place;
    var p := if v[k].mode == Auxiliary then 0 else Place(w, v[k]);
    forall d | d in u ensures exists i :: 0 <= i < k + 1 && Core(d) == Core(v[i]) {
      var n :| 0 <= n < |u| && u[n] == d;
      assert Cores(u)[n] == Core(d);
      if n == p {
        assert Core(d) == Core(v[k]);
      } else {
        var m := if n < p then n else n - 1;
        assert Cores(w)[m] == Core(w[m]) == Core(d);
        assert w[m] in w;
      }
    }
  }

  /** The rebuilt chain is ordered and wired, at every step. */
  lemma {:induction false} RebuiltKeeps(v: EffectList, k: nat, inBuffer: Buffer, outBuffer: Buffer)
    requires Ordered(v) && k <= |v|
    ensures Ordered(Rebuilt(v, k, inBuffer, outBuffer))
    ensures Wired(Rebuilt(v, k, inBuffer, outBuffer), inBuffer, outBuffer)
    ensures Within(Rebuilt(v, k, inBuffer, outBuffer), v, k)
    ensures k < |v| && v[k].mode != Auxiliary ==> !Conflict(Rebuilt(v, k, inBuffer, outBuffer), v[k])
  {
    if k > 0 {
      RebuiltKeeps(v, k - 1, inBuffer, outBuffer);
      var w := Rebuilt(v, k - 1, inBuffer, outBuffer);
      AddedKeeps(w, v[k - 1], inBuffer, outBuffer);
      AddedWithin(w, v, k - 1, inBuffer, outBuffer);
    }
    if k < |v| && v[k].mode != Auxiliary {
      NoConflict(Rebuilt(v, k, inBuffer, outBuffer), v, k);
    }
  }
}
