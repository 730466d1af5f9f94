/** The order of a chain's effects after moveEffectChain_l of audioflinger/4.1.2/AudioFlinger.cpp, which
    adds them to a new chain one by one: what the order is, when it stays, and when a second move restores it. */
module EffectOrder {

  import opened EffectSpec

  // ----- the five parts of a moved chain -----

  predicate IsFirst(e: Effect) {
    e.mode == Insert && e.pref == First
  }

  predicate IsMiddle(e: Effect) {
    e.mode == Insert && Rank(e.pref) == 1
  }

  predicate HasFirst(v: EffectList) {
    v != [] &&
    var front := v[..|v| - 1];
    IsFirst(v[|v| - 1]) || HasFirst(front)
  }

  predicate HasMiddle(v: EffectList) {
    v != [] &&
    var front := v[..|v| - 1];
    IsMiddle(v[|v| - 1]) || HasMiddle(front)
  }

  /** The part an effect joins, by whether a first-position or a middle insert effect came before it: 0 auxiliary,
      1 up to the first-position inserts, 2 and 3 before and after the middle ones, 4 last-position inserts. */
  function PartOf(first: bool, middle: bool, e: Effect): (n: nat)
    ensures n <= 4
  {
    match e.mode
    case Auxiliary => 0
    case Insert => if e.pref == First then 1 else if e.pref == Last then 4 else 2
    case Processing =>
      if e.pref == Last then (if first || middle then 3 else 1)
      else if first then 2 else 1
  }

  function PartAt(v: EffectList, i: nat): nat
    requires i < |v|
  {
    PartOf(HasFirst(v[..i]), HasMiddle(v[..i]), v[i])
  }

  /** The effects of one part, in their order. */
  function Part(v: EffectList, n: nat): EffectList {
    if v == [] then []
    else
      var front, e := v[..|v| - 1], v[|v| - 1];
      Part(front, n) + if PartOf(HasFirst(front), HasMiddle(front), e) == n then [Core(e)] else []
  }

  function Reversed(v: EffectList): (r: EffectList)
    ensures |r| == |v|
  {
    if v == [] then [] else
      var front, e := v[..|v| - 1], v[|v| - 1];
      [e] + Reversed(front)
  }

  /** Five parts one after the other. */
  function Layout(a: EffectList, u: EffectList, m: EffectList, b: EffectList, l: EffectList): EffectList {
    a + u + m + b + l
  }

  /** The order after a move: auxiliary effects, middle inserts and last-position inserts are reversed. */
  function Moved(v: EffectList): EffectList {
    Layout(Reversed(Part(v, 0)), Part(v, 1), Reversed(Part(v, 2)), Part(v, 3), Reversed(Part(v, 4)))
  }

  /** The same parts, each in its old order. */
  function Grouped(v: EffectList): EffectList {
    Layout(Part(v, 0), Part(v, 1), Part(v, 2), Part(v, 3), Part(v, 4))
  }

  lemma Snoc(u: EffectList, e: Effect)
    ensures (u + [e])[..|u + [e]| - 1] == u && (u + [e])[|u + [e]| - 1] == e
  {}

  lemma FlagsNext(u: EffectList, e: Effect)
    ensures HasFirst(u + [e]) == (HasFirst(u) || IsFirst(e)) && HasMiddle(u + [e]) == (HasMiddle(u) || IsMiddle(e))
  {
    Snoc(u, e);
  }

  lemma PartNext(u: EffectList, e: Effect, n: nat)
    ensures Part(u + [e], n) == if PartOf(HasFirst(u), HasMiddle(u), e) == n then Part(u, n) + [Core(e)] else Part(u, n)
  {
    Snoc(u, e);
    assert Part(u, n) + [] == Part(u, n);
  }

  lemma ReversedNext(u: EffectList, e: Effect)
    ensures Reversed(u + [e]) == [e] + Reversed(u)
  {
    Snoc(u, e);
  }

  // ----- what the parts hold -----

  /** What kind of effects the parts of a moved chain hold, by whether it has first-position and middle inserts. */
  ghost predicate Shape(a: EffectList, u: EffectList, m: EffectList, b: EffectList, l: EffectList, first: bool,
                        middle: bool) {
    && (forall i :: 0 <= i < |a| ==> a[i].mode == Auxiliary)
    && (forall i :: 0 <= i < |u| ==> u[i].mode == Processing || (first && IsFirst(u[i])))
    && (forall i :: 0 <= i < |m| ==> m[i].mode == Processing || (middle && IsMiddle(m[i])))
    && (forall i :: 0 <= i < |b| ==> b[i].mode == Processing)
    && (forall i :: 0 <= i < |l| ==> l[i].mode == Insert && l[i].pref == Last)
    && (if first then u != [] && IsFirst(u[|u| - 1]) else m != [] ==> IsMiddle(m[0]))
    && (middle ==> m != []) && (!first && !middle ==> m == [] && b == [])
  }

  lemma ShapeNext(a: EffectList, u: EffectList, m: EffectList, b: EffectList, l: EffectList, first: bool,
                  middle: bool, e: Effect)
    requires Shape(a, u, m, b, l, first, middle)
    ensures var n, c := PartOf(first, middle, e), Core(e);
            Shape(if n == 0 then [c] + a else a, if n == 1 then u + [c] else u, if n == 2 then [c] + m else m,
                  if n == 3 then b + [c] else b, if n == 4 then [c] + l else l,
                  first || IsFirst(e), middle || IsMiddle(e))
  {}

  lemma {:induction false} MovedShape(v: EffectList)
    ensures Shape(Reversed(Part(v, 0)), Part(v, 1), Reversed(Part(v, 2)), Part(v, 3), Reversed(Part(v, 4)),
                  HasFirst(v), HasMiddle(v))
  {
    if v != [] {
      var u, e := v[..|v| - 1], v[|v| - 1];
      assert v == u + [e];
      MovedShape(u);
      ShapeStep(u, e);
    }
  }

  lemma ShapeStep(u: EffectList, e: Effect)
    requires Shape(Reversed(Part(u, 0)), Part(u, 1), Reversed(Part(u, 2)), Part(u, 3), Reversed(Part(u, 4)),
                   HasFirst(u), HasMiddle(u))
    ensures var v := u + [e];
            Shape(Reversed(Part(v, 0)), Part(v, 1), Reversed(Part(v, 2)), Part(v, 3), Reversed(Part(v, 4)),
                  HasFirst(v), HasMiddle(v))
  {
    hide *;
    ShapeNext(Reversed(Part(u, 0)), Part(u, 1), Reversed(Part(u, 2)), Part(u, 3), Reversed(Part(u, 4)), HasFirst(u),
              HasMiddle(u), e);
    PartsNext(u, e);
    FlagsNext(u, e);
  }

  lemma PartsNext(u: EffectList, e: Effect)
    ensures var v, n, c := u + [e], PartOf(HasFirst(u), HasMiddle(u), e), Core(e);
            && Part(v, 0) == (if n == 0 then Part(u, 0) + [c] else Part(u, 0))
            && Part(v, 1) == (if n == 1 then Part(u, 1) + [c] else Part(u, 1))
            && Part(v, 2) == (if n == 2 then Part(u, 2) + [c] else Part(u, 2))
            && Part(v, 3) == (if n == 3 then Part(u, 3) + [c] else Part(u, 3))
            && Part(v, 4) == (if n == 4 then Part(u, 4) + [c] else Part(u, 4))
            && Reversed(Part(v, 0)) == (if n == 0 then [c] + Reversed(Part(u, 0)) else Reversed(Part(u, 0)))
            && Reversed(Part(v, 2)) == (if n == 2 then [c] + Reversed(Part(u, 2)) else Reversed(Part(u, 2)))
            && Reversed(Part(v, 4)) == (if n == 4 then [c] + Reversed(Part(u, 4)) else Reversed(Part(u, 4)))
  {
    hide *;
    var c := Core(e);
    PartNext(u, e, 0);
    PartNext(u, e, 1);
    PartNext(u, e, 2);
    PartNext(u, e, 3);
    PartNext(u, e, 4);
    ReversedNext(Part(u, 0), c);
    ReversedNext(Part(u, 2), c);
    ReversedNext(Part(u, 4), c);
  }

  // ----- where a moved chain takes the next effect -----

  /** What kind of effect stands at index i of parts of these sizes. */
  ghost predicate KindAt(e: Effect, i: int, a: nat, u: nat, m: nat, b: nat, first: bool) {
    if i < a then e.mode == Auxiliary
    else if i < a + u then e.mode == Processing || (first && IsFirst(e))
    else if i < a + u + m then e.mode == Processing || IsMiddle(e)
    else if i < a + u + m + b then e.mode == Processing
    else e.mode == Insert && e.pref == Last
  }

  lemma LayoutKinds(w: EffectList, a: EffectList, u: EffectList, m: EffectList, b: EffectList, l: EffectList,
                    first: bool, middle: bool)
    requires Shape(a, u, m, b, l, first, middle) && Cores(w) == Layout(a, u, m, b, l)
    ensures forall i :: 0 <= i < |w| ==> KindAt(w[i], i, |a|, |u|, |m|, |b|, first)
    ensures first ==> |u| > 0 && IsFirst(w[|a| + |u| - 1])
    ensures !first && |m| > 0 ==> IsMiddle(w[|a| + |u|])
  {
    forall i | 0 <= i < |w| ensures KindAt(w[i], i, |a|, |u|, |m|, |b|, first) {
      LayoutAt(w, a, u, m, b, l, i);
    }
    if first { LayoutAt(w, a, u, m, b, l, |a| + |u| - 1); }
    if !first && |m| > 0 { LayoutAt(w, a, u, m, b, l, |a| + |u|); }
  }

  lemma LayoutAt(w: EffectList, a: EffectList, u: EffectList, m: EffectList, b: EffectList, l: EffectList, i: nat)
    requires Cores(w) == Layout(a, u, m, b, l) && i < |w|
    ensures |w| == |a| + |u| + |m| + |b| + |l|
    ensures Core(w[i]) == if i < |a| then a[i]
                          else if i < |a| + |u| then u[i - |a|]
                          else if i < |a| + |u| + |m| then m[i - |a| - |u|]
                          else if i < |a| + |u| + |m| + |b| then b[i - |a| - |u| - |m|]
                          else l[i - |a| - |u| - |m| - |b|]
  {
    assert Core(w[i]) == Cores(w)[i];
  }

  lemma PlaceInLayout(w: EffectList, e: Effect, a: nat, u: nat, m: nat, b: nat, first: bool)
    requires a + u + m + b <= |w| && forall i :: 0 <= i < |w| ==> KindAt(w[i], i, a, u, m, b, first)
    requires first ==> u > 0 && IsFirst(w[a + u - 1])
    requires !first ==> (m > 0 ==> IsMiddle(w[a + u])) && (m == 0 ==> b == 0)
    ensures Place(w, e) == a + u + if e.pref == Last then m + b else 0
  {
    if a + u < |w| { assert KindAt(w[a + u], a + u, a, u, m, b, first); }
    if a + u + m + b < |w| { assert KindAt(w[a + u + m + b], a + u + m + b, a, u, m, b, first); }
    assert FirstInsert(w, Last, false, 0) == a + u + m + b;
    assert PastFirst(w) == if first then a + u else 0;
    if !first { assert SomeInsert(w) == a + u; }
  }

  lemma LayoutInsert(a: EffectList, u: EffectList, m: EffectList, b: EffectList, l: EffectList, c: Effect)
    ensures var w, p, q := Layout(a, u, m, b, l), |a| + |u|, |a| + |u| + |m| + |b|;
            && q <= |w|
            && Layout([c] + a, u, m, b, l) == w[..0] + [c] + w[0..]
            && Layout(a, u + [c], m, b, l) == w[..p] + [c] + w[p..]
            && Layout(a, u, [c] + m, b, l) == w[..p] + [c] + w[p..]
            && Layout(a, u, m, b + [c], l) == w[..q] + [c] + w[q..]
            && Layout(a, u, m, b, [c] + l) == w[..q] + [c] + w[q..]
  {}

  lemma PlaceOfPart(first: bool, middle: bool, e: Effect, m: nat, b: nat)
    requires !first && !middle ==> m == 0 && b == 0
    ensures var n := PartOf(first, middle, e);
            && (n == 0 <==> e.mode == Auxiliary)
            && (n == 1 || n == 2 ==> e.pref == Last ==> m + b == 0)
            && (n >= 3 ==> e.pref == Last)
  {}

  lemma MovedNext(u: EffectList, e: Effect)
    ensures var a, t, m := Reversed(Part(u, 0)), Part(u, 1), Reversed(Part(u, 2));
            var b, l := Part(u, 3), Reversed(Part(u, 4));
            var n, c := PartOf(HasFirst(u), HasMiddle(u), e), Core(e);
            Moved(u + [e]) == Layout(if n == 0 then [c] + a else a, if n == 1 then t + [c] else t,
                                     if n == 2 then [c] + m else m,
                                     if n == 3 then b + [c] else b, if n == 4 then [c] + l else l)
  {
    PartsNext(u, e);
    hide Part, Reversed, PartOf, HasFirst, HasMiddle, Layout;
  }

  lemma PlaceMoved(w: EffectList, u: EffectList, e: Effect)
    requires Cores(w) == Moved(u)
    ensures var a, t, m, b := Reversed(Part(u, 0)), Part(u, 1), Reversed(Part(u, 2)), Part(u, 3);
            var n := PartOf(HasFirst(u), HasMiddle(u), e);
            && n <= 4 && (n == 0 <==> e.mode == Auxiliary)
            && (1 <= n <= 2 ==> Place(w, e) == |a| + |t|)
            && (n >= 3 ==> Place(w, e) == |a| + |t| + |m| + |b|)
  {
    var a, t, m, b, l := Reversed(Part(u, 0)), Part(u, 1), Reversed(Part(u, 2)), Part(u, 3), Reversed(Part(u, 4));
    MovedShape(u);
    hide Part, Reversed, HasFirst, HasMiddle, Place, PartOf;
    LayoutKinds(w, a, t, m, b, l, HasFirst(u), HasMiddle(u));
    assert |w| == |Cores(w)| >= |a| + |t| + |m| + |b|;
    PlaceInLayout(w, e, |a|, |t|, |m|, |b|, HasFirst(u));
    PlaceOfPart(HasFirst(u), HasMiddle(u), e, |m|, |b|);
  }

  lemma MovedIs(u: EffectList)
    ensures Moved(u) == Layout(Reversed(Part(u, 0)), Part(u, 1), Reversed(Part(u, 2)), Part(u, 3), Reversed(Part(u, 4)))
  {}

  lemma AddedMoves(w: EffectList, u: EffectList, e: Effect, inBuffer: Buffer, outBuffer: Buffer)
    requires Cores(w) == Moved(u)
    ensures Cores(Added(w, e, inBuffer, outBuffer)) == Moved(u + [e])
  {
    hide *;
    var a, t, m, b, l := Reversed(Part(u, 0)), Part(u, 1), Reversed(Part(u, 2)), Part(u, 3), Reversed(Part(u, 4));
    MovedIs(u);
    PlaceMoved(w, u, e);
    AddedCores(w, e, inBuffer, outBuffer);
    MovedNext(u, e);
    LayoutInsert(a, t, m, b, l, Core(e));
  }

  /** The exact order after a move, for every chain. */
  lemma {:induction false} RebuiltOrder(v: EffectList, k: nat, inBuffer: Buffer, outBuffer: Buffer)
    requires k <= |v|
    ensures Cores(Rebuilt(v, k, inBuffer, outBuffer)) == Moved(v[..k])
  {
    if k > 0 {
      RebuiltOrder(v, k - 1, inBuffer, outBuffer);
      assert v[..k] == v[..k - 1] + [v[k - 1]];
      AddedMoves(Rebuilt(v, k - 1, inBuffer, outBuffer), v[..k - 1], v[k - 1], inBuffer, outBuffer);
    }
  }

  // ----- moving twice -----

  /** All of xs join part n when they come after p. */
  ghost predicate AllJoin(p: EffectList, xs: EffectList, n: nat) {
    forall k :: 0 <= k < |xs| ==>
      PartOf(HasFirst(p + xs[..k]), HasMiddle(p + xs[..k]), xs[k]) == n && Core(xs[k]) == xs[k]
  }

  lemma AllJoinFront(p: EffectList, xs: EffectList, n: nat)
    requires AllJoin(p, xs, n) && xs != []
    ensures var front, e := xs[..|xs| - 1], xs[|xs| - 1];
            && AllJoin(p, front, n)
            && PartOf(HasFirst(p + front), HasMiddle(p + front), e) == n && Core(e) == e
  {
    hide HasFirst, HasMiddle, PartOf;
    var front := xs[..|xs| - 1];
    assert forall j :: 0 <= j < |front| ==> front[..j] == xs[..j] && front[j] == xs[j];
  }

  lemma {:induction false} PartAppend(p: EffectList, xs: EffectList, n: nat, k: nat)
    requires AllJoin(p, xs, n)
    ensures Part(p + xs, k) == if k == n then Part(p, k) + xs else Part(p, k)
  {
    hide *;
    if xs == [] {
      assert p + xs == p && Part(p, k) + xs == Part(p, k);
    } else {
      var front, e := xs[..|xs| - 1], xs[|xs| - 1];
      AllJoinFront(p, xs, n);
      PartAppend(p, front, n, k);
      assert p + xs == (p + front) + [e];
      PartNext(p + front, e, k);
      assert (Part(p, k) + front) + [e] == Part(p, k) + xs;
    }
  }

  lemma {:induction false} FlagsAppend(p: EffectList, xs: EffectList)
    ensures HasFirst(p + xs) == (HasFirst(p) || HasFirst(xs)) && HasMiddle(p + xs) == (HasMiddle(p) || HasMiddle(xs))
  {
    if xs == [] {
      assert p + xs == p;
    } else {
      var front, e := xs[..|xs| - 1], xs[|xs| - 1];
      FlagsAppend(p, front);
      assert p + xs == (p + front) + [e];
      FlagsNext(p + front, e);
    }
  }

  lemma {:induction false} FlagsIff(v: EffectList)
    ensures HasFirst(v) <==> exists i :: 0 <= i < |v| && IsFirst(v[i])
    ensures HasMiddle(v) <==> exists i :: 0 <= i < |v| && IsMiddle(v[i])
  {
    if v != [] { FlagsIff(v[..|v| - 1]); }
  }

  /** What a second move needs to know of the parts: effects before the first first-position insert stay there,
      and the middle and back parts have what put them there in front of them. */
  ghost predicate Stays(u: EffectList, m: EffectList, b: EffectList) {
    && (forall k :: 0 <= k < |u| && u[k].mode == Processing ==> !HasFirst(u[..k]))
    && !HasMiddle(u)
    && (forall k :: 0 <= k < |m| && m[k].mode == Processing ==> m[k].pref != Last && HasFirst(u))
    && (forall k :: 0 <= k < |b| ==> b[k].pref == Last)
    && (b != [] ==> HasFirst(u) || HasMiddle(m))
  }

  lemma {:induction false} MovedStays(v: EffectList)
    ensures Stays(Part(v, 1), Reversed(Part(v, 2)), Part(v, 3))
    ensures HasFirst(v) == HasFirst(Part(v, 1)) && HasMiddle(v) == HasMiddle(Reversed(Part(v, 2)))
  {
    if v != [] {
      var u, e := v[..|v| - 1], v[|v| - 1];
      assert v == u + [e];
      MovedStays(u);
      StaysStep(u, e);
    }
  }

  lemma StaysStep(u: EffectList, e: Effect)
    requires Stays(Part(u, 1), Reversed(Part(u, 2)), Part(u, 3))
    requires HasFirst(u) == HasFirst(Part(u, 1)) && HasMiddle(u) == HasMiddle(Reversed(Part(u, 2)))
    ensures var v := u + [e];
            && Stays(Part(v, 1), Reversed(Part(v, 2)), Part(v, 3))
            && HasFirst(v) == HasFirst(Part(v, 1)) && HasMiddle(v) == HasMiddle(Reversed(Part(v, 2)))
  {
    PartsNext(u, e);
    FlagsNext(u, e);
    StaysNext(Part(u, 1), Reversed(Part(u, 2)), Part(u, 3), e);
    hide Part, Reversed, HasFirst, HasMiddle, Stays, PartOf;
  }

  lemma StaysNext(u: EffectList, m: EffectList, b: EffectList, e: Effect)
    requires Stays(u, m, b)
    ensures var n, c := PartOf(HasFirst(u), HasMiddle(m), e), Core(e);
            var u', m', b' := if n == 1 then u + [c] else u, if n == 2 then [c] + m else m,
              if n == 3 then b + [c] else b;
            && Stays(u', m', b')
            && HasFirst(u') == (HasFirst(u) || IsFirst(e)) && HasMiddle(m') == (HasMiddle(m) || IsMiddle(e))
  {
    hide HasFirst, HasMiddle, Stays;
    var n, c := PartOf(HasFirst(u), HasMiddle(m), e), Core(e);
    if n == 1 {
      UpperStays(u, m, b, c);
    } else if n == 2 {
      MiddleStays(u, m, b, c);
    } else if n == 3 {
      BackStays(u, m, b, c);
    }
  }

  lemma UpperStays(u: EffectList, m: EffectList, b: EffectList, c: Effect)
    requires Stays(u, m, b) && !IsMiddle(c) && (c.mode == Processing ==> !HasFirst(u))
    ensures Stays(u + [c], m, b) && HasFirst(u + [c]) == (HasFirst(u) || IsFirst(c))
  {
    hide HasFirst, HasMiddle;
    FlagsNext(u, c);
    forall k | 0 <= k < |u + [c]| && (u + [c])[k].mode == Processing ensures !HasFirst((u + [c])[..k]) {
      assert (u + [c])[..k] == u[..k];
      if k == |u| { assert u[..k] == u; }
    }
  }

  lemma MiddleStays(u: EffectList, m: EffectList, b: EffectList, c: Effect)
    requires Stays(u, m, b) && !IsFirst(c) && (c.mode == Processing ==> c.pref != Last && HasFirst(u))
    ensures Stays(u, [c] + m, b) && HasMiddle([c] + m) == (HasMiddle(m) || IsMiddle(c))
  {
    hide HasFirst, HasMiddle;
    FlagsAppend([c], m);
    FlagsOne(c);
  }

  lemma BackStays(u: EffectList, m: EffectList, b: EffectList, c: Effect)
    requires Stays(u, m, b) && c.pref == Last && (HasFirst(u) || HasMiddle(m))
    ensures Stays(u, m, b + [c])
  {
    hide HasFirst, HasMiddle;
  }

  lemma FlagsOne(c: Effect)
    ensures HasFirst([c]) == IsFirst(c) && HasMiddle([c]) == IsMiddle(c)
  {
    FlagsNext([], c);
    assert [] + [c] == [c];
  }

  ghost predicate AreCores(v: EffectList) {
    forall i :: 0 <= i < |v| ==> Core(v[i]) == v[i]
  }

  lemma {:induction false} PartIsCores(v: EffectList, n: nat)
    ensures AreCores(Part(v, n)) && AreCores(Reversed(Part(v, n)))
  {
    if v != [] { PartIsCores(v[..|v| - 1], n); ReversedIsCores(Part(v, n)); }
  }

  lemma {:induction false} ReversedIsCores(v: EffectList)
    requires AreCores(v)
    ensures AreCores(Reversed(v))
  {
    if v != [] { ReversedIsCores(v[..|v| - 1]); }
  }

  /** Parts laid out join the same parts again. */
  lemma PartsOfLayout(a: EffectList, u: EffectList, m: EffectList, b: EffectList, l: EffectList, first: bool,
                      middle: bool, n: nat)
    requires Shape(a, u, m, b, l, first, middle) && Stays(u, m, b) && n <= 4
    requires AreCores(a) && AreCores(u) && AreCores(m) && AreCores(b) && AreCores(l)
    ensures Part(Layout(a, u, m, b, l), n) ==
            if n == 0 then a else if n == 1 then u else if n == 2 then m else if n == 3 then b else l
  {
    hide *;
    Join0(a, u, m, b, l, first, middle);
    Join1(a, u, m, b, l, first, middle);
    Join2(a, u, m, b, l, first, middle);
    Join3(a, u, m, b, l, first, middle);
    Join4(a, u, m, b, l, first, middle);
    PartNone(n);
    PartAppend([], a, 0, n);
    assert [] + a == a;
    PartAppend(a, u, 1, n);
    PartAppend(a + u, m, 2, n);
    PartAppend(a + u + m, b, 3, n);
    PartAppend(a + u + m + b, l, 4, n);
    LayoutIs(a, u, m, b, l);
    assert [] + u == u && [] + m == m && [] + b == b && [] + l == l;
  }

  lemma PartNone(n: nat)
    ensures Part([], n) == []
  {}

  lemma LayoutIs(a: EffectList, u: EffectList, m: EffectList, b: EffectList, l: EffectList)
    ensures Layout(a, u, m, b, l) == a + u + m + b + l
  {}

  lemma Join0(a: EffectList, u: EffectList, m: EffectList, b: EffectList, l: EffectList, first: bool, middle: bool)
    requires Shape(a, u, m, b, l, first, middle) && AreCores(a)
    ensures AllJoin([], a, 0)
  {
    hide HasFirst, HasMiddle;
  }

  lemma NoFlags(a: EffectList)
    requires forall i :: 0 <= i < |a| ==> a[i].mode != Insert
    ensures !HasFirst(a) && !HasMiddle(a)
  {
    FlagsIff(a);
  }

  lemma Join1(a: EffectList, u: EffectList, m: EffectList, b: EffectList, l: EffectList, first: bool, middle: bool)
    requires Shape(a, u, m, b, l, first, middle) && Stays(u, m, b) && AreCores(u)
    ensures AllJoin(a, u, 1)
  {
    hide HasFirst, HasMiddle;
    NoFlags(a);
    forall k | 0 <= k < |u| ensures PartOf(HasFirst(a + u[..k]), HasMiddle(a + u[..k]), u[k]) == 1 {
      FlagsAppend(a, u[..k]);
      FlagsAppend(u[..k], u[k..]);
      assert u[..k] + u[k..] == u;
    }
  }

  lemma Join2(a: EffectList, u: EffectList, m: EffectList, b: EffectList, l: EffectList, first: bool, middle: bool)
    requires Shape(a, u, m, b, l, first, middle) && Stays(u, m, b) && AreCores(m)
    ensures AllJoin(a + u, m, 2)
  {
    hide HasFirst, HasMiddle;
    FlagsAppend(a, u);
    forall k | 0 <= k < |m| ensures PartOf(HasFirst(a + u + m[..k]), HasMiddle(a + u + m[..k]), m[k]) == 2 {
      FlagsAppend(a + u, m[..k]);
    }
  }

  lemma Join3(a: EffectList, u: EffectList, m: EffectList, b: EffectList, l: EffectList, first: bool, middle: bool)
    requires Shape(a, u, m, b, l, first, middle) && Stays(u, m, b) && AreCores(b)
    ensures AllJoin(a + u + m, b, 3)
  {
    hide HasFirst, HasMiddle;
    FlagsAppend(a, u);
    FlagsAppend(a + u, m);
    forall k | 0 <= k < |b| ensures PartOf(HasFirst(a + u + m + b[..k]), HasMiddle(a + u + m + b[..k]), b[k]) == 3 {
      FlagsAppend(a + u + m, b[..k]);
    }
  }

  lemma Join4(a: EffectList, u: EffectList, m: EffectList, b: EffectList, l: EffectList, first: bool, middle: bool)
    requires Shape(a, u, m, b, l, first, middle) && AreCores(l)
    ensures AllJoin(a + u + m + b, l, 4)
  {
    hide HasFirst, HasMiddle;
  }

  lemma {:induction false} ReversedTwice(v: EffectList)
    ensures Reversed(Reversed(v)) == v
  {
    if v != [] {
      var front, e := v[..|v| - 1], v[|v| - 1];
      ReversedTwice(front);
      ReversedFront(e, Reversed(front));
      assert v == front + [e];
    }
  }

  lemma {:induction false} ReversedFront(e: Effect, v: EffectList)
    ensures Reversed([e] + v) == Reversed(v) + [e]
  {
    if v == [] {
      assert [e] + v == [e];
      assert Reversed([e]) == [e] + Reversed([e][..0]);
    } else {
      var front, d := v[..|v| - 1], v[|v| - 1];
      assert ([e] + v)[..|v|] == [e] + front;
      ReversedFront(e, front);
    }
  }

  lemma {:induction false} CoresFlags(v: EffectList)
    ensures HasFirst(Cores(v)) == HasFirst(v) && HasMiddle(Cores(v)) == HasMiddle(v)
  {
    if v != [] {
      CoresFlags(v[..|v| - 1]);
      assert Cores(v)[..|v| - 1] == Cores(v[..|v| - 1]);
    }
  }

  lemma {:induction false} PartOfCores(v: EffectList, n: nat)
    ensures Part(Cores(v), n) == Part(v, n)
  {
    if v != [] {
      var front := v[..|v| - 1];
      PartOfCores(front, n);
      CoresFlags(front);
      assert Cores(v)[..|v| - 1] == Cores(front);
    }
  }

  /** A second move puts every part back into its old order. */
  lemma MovedAgain(v: EffectList, w: EffectList)
    requires Cores(w) == Moved(v)
    ensures Moved(w) == Grouped(v)
  {
    var a, u, m, b, l := Reversed(Part(v, 0)), Part(v, 1), Reversed(Part(v, 2)), Part(v, 3), Reversed(Part(v, 4));
    assert Moved(v) == Layout(a, u, m, b, l);
    assert Moved(w) == Layout(Reversed(Part(w, 0)), Part(w, 1), Reversed(Part(w, 2)), Part(w, 3), Reversed(Part(w, 4)));
    assert Grouped(v) == Layout(Part(v, 0), Part(v, 1), Part(v, 2), Part(v, 3), Part(v, 4));
    hide *;
    PartOfMoved(v, w, 0);
    PartOfMoved(v, w, 1);
    PartOfMoved(v, w, 2);
    PartOfMoved(v, w, 3);
    PartOfMoved(v, w, 4);
    ReversedTwice(Part(v, 0));
    ReversedTwice(Part(v, 2));
    ReversedTwice(Part(v, 4));
  }

  lemma PartOfMoved(v: EffectList, w: EffectList, n: nat)
    requires Cores(w) == Moved(v) && n <= 4
    ensures Part(w, n) == if n == 0 || n == 2 || n == 4 then Reversed(Part(v, n)) else Part(v, n)
  {
    var a, u, m, b, l := Reversed(Part(v, 0)), Part(v, 1), Reversed(Part(v, 2)), Part(v, 3), Reversed(Part(v, 4));
    assert Moved(v) == Layout(a, u, m, b, l);
    hide *;
    PartOfCores(w, n);
    MovedShape(v);
    MovedStays(v);
    PartIsCores(v, 0);
    PartIsCores(v, 1);
    PartIsCores(v, 2);
    PartIsCores(v, 3);
    PartIsCores(v, 4);
    PartsOfLayout(a, u, m, b, l, HasFirst(v), HasMiddle(v), n);
  }

  // ----- when a second move restores the order, and when the first keeps it -----

  ghost predicate DistinctIds(v: EffectList) {
    forall i, j :: 0 <= i < j < |v| ==> v[i].id != v[j].id
  }

  /** The parts already stand one after the other. */
  ghost predicate Straight(v: EffectList) {
    forall i, j :: 0 <= i < j < |v| ==> PartAt(v, i) <= PartAt(v, j)
  }

  /** No effect of u is in a part behind part n. */
  ghost predicate NoneBehind(u: EffectList, n: nat) {
    forall i :: 0 <= i < |u| ==> PartAt(u, i) <= n
  }

  lemma PartAtFront(u: EffectList, e: Effect, i: nat)
    requires i <= |u|
    ensures PartAt(u + [e], i) == if i < |u| then PartAt(u, i) else PartOf(HasFirst(u), HasMiddle(u), e)
  {
    assert (u + [e])[..i] == u[..i];
    if i == |u| { assert u[..i] == u; }
  }

  lemma StraightNext(u: EffectList, e: Effect)
    ensures Straight(u + [e]) <==> Straight(u) && NoneBehind(u, PartOf(HasFirst(u), HasMiddle(u), e))
  {
    hide PartAt, HasFirst, HasMiddle, PartOf;
    forall i: nat | i <= |u|
      ensures PartAt(u + [e], i) == if i < |u| then PartAt(u, i) else PartOf(HasFirst(u), HasMiddle(u), e)
    {
      PartAtFront(u, e, i);
    }
    if Straight(u + [e]) {
      assert forall i :: 0 <= i < |u| ==> PartAt(u + [e], i) <= PartAt(u + [e], |u|);
      assert forall i, j :: 0 <= i < j < |u| ==> PartAt(u + [e], i) <= PartAt(u + [e], j);
    }
  }

  lemma {:induction false} PartEmptyIff(v: EffectList, n: nat)
    ensures Part(v, n) == [] <==> forall i :: 0 <= i < |v| ==> PartAt(v, i) != n
  {
    if v != [] {
      var u, e := v[..|v| - 1], v[|v| - 1];
      assert v == u + [e];
      PartEmptyIff(u, n);
      PartNext(u, e, n);
      PartAtFront(u, e, |u|);
      hide PartAt, Part, HasFirst, HasMiddle, PartOf;
      assert forall i: nat :: i < |u| ==> PartAt(v, i) == PartAt(u, i) by {
        forall i: nat | i < |u| ensures PartAt(v, i) == PartAt(u, i) { PartAtFront(u, e, i); }
      }
    }
  }

  predicate EmptyBehind(a: EffectList, u: EffectList, m: EffectList, b: EffectList, l: EffectList, n: nat) {
    (n < 1 ==> u == []) && (n < 2 ==> m == []) && (n < 3 ==> b == []) && (n < 4 ==> l == [])
  }

  lemma NoneBehindIff(u: EffectList, n: nat)
    requires n <= 4
    ensures NoneBehind(u, n) <==> EmptyBehind(Part(u, 0), Part(u, 1), Part(u, 2), Part(u, 3), Part(u, 4), n)
  {
    hide Part;
    PartEmptyIff(u, 1);
    PartEmptyIff(u, 2);
    PartEmptyIff(u, 3);
    PartEmptyIff(u, 4);
    forall i: nat | i < |u| ensures PartAt(u, i) <= 4 {}
    hide PartAt;
  }

  lemma {:induction false} PartFrom(v: EffectList, n: nat, c: Effect)
    requires c in Part(v, n)
    ensures exists i :: 0 <= i < |v| && Core(v[i]) == c
  {
    var u, e := v[..|v| - 1], v[|v| - 1];
    if c in Part(u, n) {
      PartFrom(u, n, c);
      var i :| 0 <= i < |u| && Core(u[i]) == c;
      assert v[i] == u[i];
    } else {
      assert Core(v[|v| - 1]) == c;
    }
  }

  lemma GroupedNext(u: EffectList, e: Effect)
    ensures var n, c := PartOf(HasFirst(u), HasMiddle(u), e), Core(e);
            Grouped(u + [e]) == Layout(if n == 0 then Part(u, 0) + [c] else Part(u, 0),
                                       if n == 1 then Part(u, 1) + [c] else Part(u, 1),
                                       if n == 2 then Part(u, 2) + [c] else Part(u, 2),
                                       if n == 3 then Part(u, 3) + [c] else Part(u, 3),
                                       if n == 4 then Part(u, 4) + [c] else Part(u, 4))
  {
    PartsNext(u, e);
    hide Part, Reversed, PartOf, HasFirst, HasMiddle, Layout;
  }

  /** An effect put at the end of its part stands last exactly if the parts behind are empty. */
  lemma LayoutEnd(a: EffectList, u: EffectList, m: EffectList, b: EffectList, l: EffectList, c: Effect, n: nat)
    requires n <= 4 && c !in a && c !in u && c !in m && c !in b && c !in l
    ensures var w := Layout(if n == 0 then a + [c] else a, if n == 1 then u + [c] else u, if n == 2 then m + [c] else m,
                            if n == 3 then b + [c] else b, if n == 4 then l + [c] else l);
            && |w| == |Layout(a, u, m, b, l)| + 1
            && (EmptyBehind(a, u, m, b, l, n) ==> w == Layout(a, u, m, b, l) + [c])
            && (!EmptyBehind(a, u, m, b, l, n) ==> w[|w| - 1] != c)
  {
    if n < 4 && l != [] { assert l[|l| - 1] in l; }
    else if n < 3 && b != [] { assert b[|b| - 1] in b; }
    else if n < 2 && m != [] { assert m[|m| - 1] in m; }
    else if n < 1 && u != [] { assert u[|u| - 1] in u; }
  }

  lemma CoresIn(v: EffectList, n: nat, e: Effect)
    requires forall i :: 0 <= i < |v| ==> v[i].id != e.id
    ensures Core(e) !in Part(v, n)
  {
    if Core(e) in Part(v, n) { PartFrom(v, n, Core(e)); }
  }

  /** The parts one after the other are the chain itself exactly if the chain is straight. */
  lemma {:induction false} GroupedIff(v: EffectList)
    requires DistinctIds(v)
    ensures Grouped(v) == Cores(v) <==> Straight(v)
  {
    if v != [] {
      var u, e := v[..|v| - 1], v[|v| - 1];
      assert v == u + [e];
      GroupedIff(u);
      GroupedStep(u, e);
    }
  }

  lemma GroupedStep(u: EffectList, e: Effect)
    requires DistinctIds(u + [e]) && (Grouped(u) == Cores(u) <==> Straight(u))
    ensures Grouped(u + [e]) == Cores(u + [e]) <==> Straight(u + [e])
  {
    hide *;
    var n, c := PartOf(HasFirst(u), HasMiddle(u), e), Core(e);
    GroupedEnd(u, e);
    StraightNext(u, e);
    NoneBehindIff(u, n);
    CoresNext(u, e);
    SameEnd(Grouped(u), Cores(u), c);
  }

  lemma SameEnd(a: EffectList, b: EffectList, c: Effect)
    ensures a + [c] == b + [c] <==> a == b
    ensures (b + [c])[|b + [c]| - 1] == c
  {
    if a + [c] == b + [c] { assert (a + [c])[..|a|] == (b + [c])[..|b|]; }
  }

  lemma CoresNext(u: EffectList, e: Effect)
    ensures Cores(u + [e]) == Cores(u) + [Core(e)]
  {}

  lemma GroupedEnd(u: EffectList, e: Effect)
    requires DistinctIds(u + [e])
    ensures var n, w := PartOf(HasFirst(u), HasMiddle(u), e), Grouped(u + [e]);
            if EmptyBehind(Part(u, 0), Part(u, 1), Part(u, 2), Part(u, 3), Part(u, 4), n)
            then w == Grouped(u) + [Core(e)]
            else w != [] && w[|w| - 1] != Core(e)
  {
    hide *;
    NewId(u, e);
    CoresIn(u, 0, e);
    CoresIn(u, 1, e);
    CoresIn(u, 2, e);
    CoresIn(u, 3, e);
    CoresIn(u, 4, e);
    GroupedNext(u, e);
    GroupedIs(u);
    LayoutEnd(Part(u, 0), Part(u, 1), Part(u, 2), Part(u, 3), Part(u, 4), Core(e),
              PartOf(HasFirst(u), HasMiddle(u), e));
  }

  lemma NewId(u: EffectList, e: Effect)
    requires DistinctIds(u + [e])
    ensures forall i :: 0 <= i < |u| ==> u[i].id != e.id
  {
    forall i | 0 <= i < |u| ensures u[i].id != e.id { assert (u + [e])[i].id != (u + [e])[|u|].id; }
  }

  lemma GroupedIs(u: EffectList)
    ensures Grouped(u) == Layout(Part(u, 0), Part(u, 1), Part(u, 2), Part(u, 3), Part(u, 4))
  {
    hide Part, Layout;
  }

  /** A second move restores the order exactly if the chain was straight. */
  lemma MovedTwice(v: EffectList, w: EffectList)
    requires DistinctIds(v) && Cores(w) == Moved(v)
    ensures Moved(w) == Cores(v) <==> Straight(v)
  {
    hide *;
    MovedAgain(v, w);
    GroupedIff(v);
  }

  ghost predicate Plain(v: EffectList) {
    forall i :: 0 <= i < |v| ==> v[i].mode != Processing
  }

  /** Chains of insert and auxiliary effects are straight, so a second move restores them. */
  lemma PlainStraight(v: EffectList)
    requires Ordered(v) && Plain(v)
    ensures Straight(v)
  {
    hide HasFirst, HasMiddle;
  }

  lemma {:induction false} PartDistinct(v: EffectList, n: nat)
    requires DistinctIds(v)
    ensures DistinctIds(Part(v, n))
  {
    if v != [] {
      var u, e := v[..|v| - 1], v[|v| - 1];
      assert v == u + [e];
      PartDistinct(u, n);
      PartNext(u, e, n);
      forall i | 0 <= i < |Part(u, n)| ensures Part(u, n)[i].id != e.id {
        PartFrom(u, n, Part(u, n)[i]);
        var k :| 0 <= k < |u| && Core(u[k]) == Part(u, n)[i];
        assert v[k].id != v[|u|].id;
      }
      hide Part;
    }
  }

  lemma ReversedSame(v: EffectList)
    requires DistinctIds(v)
    ensures Reversed(v) == v <==> |v| <= 1
  {
    if |v| == 1 { assert Reversed(v) == [v[0]] + Reversed(v[..0]); }
    if |v| > 1 { assert Reversed(v)[0] == v[|v| - 1]; }
  }

  lemma LayoutSame(a: EffectList, m: EffectList, l: EffectList, u: EffectList, b: EffectList)
    ensures Layout(Reversed(a), u, Reversed(m), b, Reversed(l)) == Layout(a, u, m, b, l) <==>
            Reversed(a) == a && Reversed(m) == m && Reversed(l) == l
  {
    hide Reversed;
    var x, y := Layout(Reversed(a), u, Reversed(m), b, Reversed(l)), Layout(a, u, m, b, l);
    if x == y {
      var p, q := |a| + |u|, |a| + |u| + |m|;
      assert x[..|a|] == Reversed(a) && y[..|a|] == a;
      assert x[p..q] == Reversed(m) && y[p..q] == m;
      assert x[q + |b|..] == Reversed(l) && y[q + |b|..] == l;
    }
  }

  /** A move keeps the order exactly if the chain is straight and has at most one effect in each reversed part. */
  lemma OrderKept(v: EffectList)
    requires DistinctIds(v)
    ensures Moved(v) == Cores(v) <==> Straight(v) && |Part(v, 0)| <= 1 && |Part(v, 2)| <= 1 && |Part(v, 4)| <= 1
  {
    assert Moved(v) == Layout(Reversed(Part(v, 0)), Part(v, 1), Reversed(Part(v, 2)), Part(v, 3), Reversed(Part(v, 4)));
    assert Grouped(v) == Layout(Part(v, 0), Part(v, 1), Part(v, 2), Part(v, 3), Part(v, 4));
    hide *;
    GroupedIff(v);
    PartDistinct(v, 0);
    PartDistinct(v, 2);
    PartDistinct(v, 4);
    ReversedSame(Part(v, 0));
    ReversedSame(Part(v, 2));
    ReversedSame(Part(v, 4));
    LayoutSame(Part(v, 0), Part(v, 2), Part(v, 4), Part(v, 1), Part(v, 3));
    if Moved(v) == Cores(v) {
      MovedAgain(v, v);
    }
  }

  /** The part of an effect, as a list with that effect or none. */
  function Only(c: Effect, here: bool): EffectList {
    if here then [c] else []
  }

  lemma PartPair(x: Effect, y: Effect, n: nat)
    ensures Part([x, y], n)
         == Only(Core(x), PartOf(false, false, x) == n) + Only(Core(y), PartOf(IsFirst(x), IsMiddle(x), y) == n)
  {
    assert [x, y] == [x] + [y] && [x] == [] + [x];
    PartNext([], x, n);
    PartNext([x], y, n);
    FlagsNext([], x);
  }

  lemma ReversedPair(c: Effect, d: Effect, p: bool, q: bool)
    ensures Reversed(Only(c, p) + Only(d, q)) == Only(d, q) + Only(c, p)
  {
    assert Only(c, p) == [] + Only(c, p) && Only(d, q) == [] + Only(d, q);
    ReversedNext([], c);
    ReversedNext([], d);
    ReversedNext([c], d);
    assert Reversed([]) == [];
  }

  /** The parts of two effects that join parts 1 and 2 at most. */
  lemma MovedPair(x: Effect, y: Effect)
    requires 1 <= PartOf(false, false, x) <= 2 && 1 <= PartOf(IsFirst(x), IsMiddle(x), y) <= 2
    ensures var i, j := PartOf(false, false, x), PartOf(IsFirst(x), IsMiddle(x), y);
            Moved([x, y]) == if i == 2 then [Core(y), Core(x)] else [Core(x), Core(y)]
  {
    var i, j, c, d := PartOf(false, false, x), PartOf(IsFirst(x), IsMiddle(x), y), Core(x), Core(y);
    hide Part, Reversed, PartOf;
    PartPair(x, y, 0);
    PartPair(x, y, 1);
    PartPair(x, y, 2);
    PartPair(x, y, 3);
    PartPair(x, y, 4);
    ReversedPair(c, d, false, false);
    ReversedPair(c, d, i == 2, j == 2);
    assert [] + [] == Reversed([] + []) == [];
    LayoutMiddle(Part([x, y], 1), Reversed(Part([x, y], 2)));
    if i == 1 && j == 1 { assert [c] + [d] == [c, d]; } else if i == 2 && j == 2 { assert [d] + [c] == [d, c]; } else {}
  }

  lemma LayoutMiddle(u: EffectList, m: EffectList)
    ensures Layout([], u, m, [], []) == u + m
  {}

  /** Two plain inserts change places. */
  lemma MoveSwaps()
    ensures var x, y := Effect(1, Insert, Any, 0), Effect(2, Insert, Any, 0);
            Ordered([x, y]) && Moved([x, y]) == [y, x]
  {
    hide Moved;
    MovedPair(Effect(1, Insert, Any, 0), Effect(2, Insert, Any, 0));
  }

  /** A post-processing effect behind a middle insert moves in front of it, and stays there. */
  lemma SecondMoveDiffers()
    ensures var x, p := Effect(1, Insert, Any, 0), Effect(2, Processing, Any, 0);
            Ordered([x, p]) && Moved([x, p]) == [p, x] && Moved([p, x]) == [p, x]
  {
    hide Moved;
    MovedPair(Effect(1, Insert, Any, 0), Effect(2, Processing, Any, 0));
    MovedPair(Effect(2, Processing, Any, 0), Effect(1, Insert, Any, 0));
  }
}
