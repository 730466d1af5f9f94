/** Moving a chain to a thread that already has one for the session, on values: the effects join the other
    chain one by one, and audioflinger/4.1.2/AudioFlinger.cpp drops those it refuses. */
module EffectMerge {

  import opened EffectSpec

  /** The chain takes the effect: no effect of the same id, and no exclusive conflict. */
  ghost predicate Accepts(v: EffectList, e: Effect) {
    (forall i :: 0 <= i < |v| ==> v[i].id != e.id) && (e.mode == Auxiliary || !Conflict(v, e))
  }

  /** The chain w after the first k effects of v have been offered to it. */
  ghost function Merged(w: EffectList, v: EffectList, k: nat, inBuffer: Buffer, outBuffer: Buffer): EffectList
    requires k <= |v|
  {
    if k == 0 then w
    else
      var u := Merged(w, v, k - 1, inBuffer, outBuffer);
      if Accepts(u, v[k - 1]) then Added(u, v[k - 1], inBuffer, outBuffer) else u
  }

  /** Effect k of v is taken. */
  ghost predicate Takes(w: EffectList, v: EffectList, k: nat, inBuffer: Buffer, outBuffer: Buffer)
    requires k < |v|
  {
    Accepts(Merged(w, v, k, inBuffer, outBuffer), v[k])
  }

  lemma {:induction false} MergedKeeps(w: EffectList, v: EffectList, k: nat, inBuffer: Buffer, outBuffer: Buffer)
    requires Ordered(w) && Wired(w, inBuffer, outBuffer) && k <= |v|
    ensures Ordered(Merged(w, v, k, inBuffer, outBuffer))
    ensures Wired(Merged(w, v, k, inBuffer, outBuffer), inBuffer, outBuffer)
  {
    hide Ordered, Wired, Added, Conflict;
    if k > 0 {
      MergedKeeps(w, v, k - 1, inBuffer, outBuffer);
      var u := Merged(w, v, k - 1, inBuffer, outBuffer);
      if Accepts(u, v[k - 1]) { AddedKeeps(u, v[k - 1], inBuffer, outBuffer); }
    }
  }

  // ----- which effects are lost -----

  /** Two effects that can be in one chain, when e comes to c. */
  predicate Friendly(c: Effect, e: Effect) {
    c.id != e.id && (e.mode == Auxiliary || !(c.mode == Insert && (e.pref == Exclusive || c.pref == Exclusive)))
  }

  function CoreSet(v: EffectList): set<Effect> {
    set i | 0 <= i < |v| :: Core(v[i])
  }

  lemma AcceptsAll(v: EffectList, e: Effect)
    ensures Accepts(v, e) <==> forall c :: c in CoreSet(v) ==> Friendly(c, e)
  {
    if Accepts(v, e) {
      forall c | c in CoreSet(v) ensures Friendly(c, e) {
        var i :| 0 <= i < |v| && c == Core(v[i]);
      }
    }
    if forall c :: c in CoreSet(v) ==> Friendly(c, e) {
      forall i | 0 <= i < |v| ensures Friendly(v[i], e) {
        assert Core(v[i]) in CoreSet(v);
      }
    }
  }

  lemma AddedCoreSet(v: EffectList, e: Effect, inBuffer: Buffer, outBuffer: Buffer)
    ensures CoreSet(Added(v, e, inBuffer, outBuffer)) == CoreSet(v) + {Core(e)}
  {
    hide Added, Core, Place;
    var w, p := Added(v, e, inBuffer, outBuffer), if e.mode == Auxiliary then 0 else Place(v, e);
    AddedCores(v, e, inBuffer, outBuffer);
    forall i | 0 <= i < |w|
      ensures Core(w[i]) == Cores(w)[i] == if i < p then Core(v[i]) else if i == p then Core(e) else Core(v[i - 1])
    {}
    forall i | 0 <= i < |v| ensures Core(v[i]) in CoreSet(w) {
      var k := if i < p then i else i + 1;
      assert Core(w[k]) == Core(v[i]);
    }
    assert Core(w[p]) in CoreSet(w);
  }

  /** Effects of one ordered chain get along. */
  lemma OfOneChain(v: EffectList, i: nat, k: nat)
    requires Ordered(v) && i < k < |v| && v[i].id != v[k].id
    ensures Friendly(Core(v[i]), v[k])
  {}

  /** The merged chain holds w and nothing but w and earlier effects of v. */
  lemma {:induction false} MergedCoreSet(w: EffectList, v: EffectList, k: nat, inBuffer: Buffer, outBuffer: Buffer)
    requires k <= |v|
    ensures CoreSet(w) <= CoreSet(Merged(w, v, k, inBuffer, outBuffer)) <= CoreSet(w) + CoreSet(v[..k])
  {
    hide Added, Accepts;
    if k > 0 {
      MergedCoreSet(w, v, k - 1, inBuffer, outBuffer);
      AddedCoreSet(Merged(w, v, k - 1, inBuffer, outBuffer), v[k - 1], inBuffer, outBuffer);
      assert v[..k][k - 1] == v[k - 1];
      forall c | c in CoreSet(v[..k - 1]) ensures c in CoreSet(v[..k]) {
        var i :| 0 <= i < k - 1 && c == Core(v[..k - 1][i]);
        assert v[..k][i] == v[..k - 1][i];
      }
    }
  }

  /** Exactly which effects of a moved chain get into the other one: those it would take by itself. */
  lemma TakesIff(w: EffectList, v: EffectList, k: nat, inBuffer: Buffer, outBuffer: Buffer)
    requires Ordered(v) && k < |v| && forall i :: 0 <= i < k ==> v[i].id != v[k].id
    ensures Takes(w, v, k, inBuffer, outBuffer) <==> Accepts(w, v[k])
  {
    hide Accepts, Merged, Ordered;
    var u := Merged(w, v, k, inBuffer, outBuffer);
    MergedCoreSet(w, v, k, inBuffer, outBuffer);
    AcceptsAll(w, v[k]);
    AcceptsAll(u, v[k]);
    forall c | c in CoreSet(v[..k]) ensures Friendly(c, v[k]) {
      var i :| 0 <= i < k && c == Core(v[..k][i]);
      OfOneChain(v, i, k);
    }
  }

  /** A chain moved to a thread without one for the session loses nothing. */
  lemma {:induction false} MergedIntoNone(v: EffectList, k: nat, inBuffer: Buffer, outBuffer: Buffer)
    requires Ordered(v) && k <= |v| && forall i, j :: 0 <= i < j < |v| ==> v[i].id != v[j].id
    ensures Merged([], v, k, inBuffer, outBuffer) == Rebuilt(v, k, inBuffer, outBuffer)
  {
    if k > 0 {
      MergedIntoNone(v, k - 1, inBuffer, outBuffer);
      TakesIff([], v, k - 1, inBuffer, outBuffer);
      assert Accepts([], v[k - 1]);
    }
  }

  /** An exclusive effect moved to a chain with an insert effect is lost. */
  lemma ExclusiveLost(id: nat, other: nat, inBuffer: Buffer, outBuffer: Buffer)
    requires id != other
    ensures var w, v := [Effect(other, Insert, Any, outBuffer)], [Effect(id, Insert, Exclusive, outBuffer)];
            Ordered(v) && Ordered(w) && Merged(w, v, 1, inBuffer, outBuffer) == w
  {
    var w, v := [Effect(other, Insert, Any, outBuffer)], [Effect(id, Insert, Exclusive, outBuffer)];
    assert Conflict(w, v[0]) by { assert w[0].mode == Insert; }
    assert Merged(w, v, 0, inBuffer, outBuffer) == w;
  }
}
