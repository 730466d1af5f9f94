/** start, stop and pause of one track by any number of clients at once, from
    audioflinger/4.1.2/AudioFlinger.cpp: each releases the thread lock around its call to the audio policy, so
    there is a step for every locked section and one for every call that reaches the policy. */
module TrackRaces {

  import opened TrackState

  /** A call to the policy that has left its locked section and not arrived; start() remembers the state it found. */
  datatype Call = StartCall(found: State) | StopCall

  datatype World = World(
    state: State,
    pending: seq<Call>,        // in the order of their locked sections
    refused: seq<State>,       // start() calls that were refused and have not taken the lock again
    calls: seq<PolicyCall>)    // what the policy has seen

  datatype Step =
    | BeginStart                        // the first locked section of start()
    | BeginStop(next: State)            // that of stop(), which goes to STOPPED or STOPPING_1
    | BeginPause                        // that of pause()
    | Arrive(i: nat, ok: bool)          // pending call i reaches the policy; ok is the answer to startOutput
    | EndRefused(i: nat)                // the second locked section of a refused start() restores the state
    | Elsewhere(next: State)            // a flush or a mixer cycle

  /** Which steps can happen. A start() that succeeds takes the lock again only for addTrack_l. */
  predicate Possible(w: World, s: Step) {
    match s
    case BeginStart => true
    case BeginStop(next) => next == Stopped || next == Stopping1
    case BeginPause => true
    case Arrive(i, _) => i < |w.pending|
    case EndRefused(i) => i < |w.refused|
    case Elsewhere(next) => Playing(next) == Playing(w.state)
  }

  function Without<T>(s: seq<T>, i: nat): seq<T>
    requires i < |s|
  {
    s[..i] + s[i + 1..]
  }

  function Apply(w: World, s: Step): World
    requires Possible(w, s)
  {
    match s
    case BeginStart =>
      var next := if w.state == Paused then Resuming else Active;
      if Playing(w.state) then w.(state := next) else w.(state := next, pending := w.pending + [StartCall(w.state)])
    case BeginStop(next) =>
      if w.state == Pausing || w.state == Paused then w.(state := next)
      else if Playing(w.state) then w.(state := next, pending := w.pending + [StopCall])
      else w
    case BeginPause =>
      if Playing(w.state) then w.(state := Pausing, pending := w.pending + [StopCall]) else w
    case Arrive(i, ok) =>
      var rest := w.(pending := Without(w.pending, i));
      (match w.pending[i]
       case StopCall => rest.(calls := w.calls + [StopCalled])
       case StartCall(found) =>
         if ok then rest.(calls := w.calls + [Started])
         else rest.(calls := w.calls + [Refused], refused := w.refused + [found]))
    case EndRefused(i) => w.(state := w.refused[i], refused := Without(w.refused, i))
    case Elsewhere(next) => w.(state := next)
  }

  /** The track after a run; a step that cannot happen changes nothing. */
  function After(steps: seq<Step>): World {
    if steps == [] then World(Idle, [], [], [])
    else
      var v := After(steps[..|steps| - 1]);
      var s := steps[|steps| - 1];
      if Possible(v, s) then Apply(v, s) else v
  }

  // ----- what the policy counts in the end -----

  function Count(state: State): int {
    if Playing(state) then 1 else 0
  }

  /** What the pending calls would add to the policy's count if all were accepted. */
  function Due(pending: seq<Call>): int {
    if pending == [] then 0
    else
      var front := pending[..|pending| - 1];
      Due(front) + if pending[|pending| - 1].StartCall? then 1 else -1
  }

  /** How many refused start() calls found the track no longer playing when they restored its state. */
  function Overtaken(steps: seq<Step>): nat {
    if steps == [] then 0
    else
      var front, s := steps[..|steps| - 1], steps[|steps| - 1];
      var v := After(front);
      Overtaken(front) + if s.EndRefused? && Possible(v, s) && !Playing(v.state) then 1 else 0
  }

  lemma DueAppend(pending: seq<Call>, c: Call)
    ensures Due(pending + [c]) == Due(pending) + if c.StartCall? then 1 else -1
  {
    assert (pending + [c])[..|pending + [c]| - 1] == pending;
  }

  lemma {:induction false} DueWithout(pending: seq<Call>, i: nat)
    requires i < |pending|
    ensures Due(Without(pending, i)) == Due(pending) - if pending[i].StartCall? then 1 else -1
  {
    var front, last := pending[..|pending| - 1], pending[|pending| - 1];
    if i == |pending| - 1 {
      assert Without(pending, i) == front;
    } else {
      assert Without(pending, i) == Without(front, i) + [last];
      DueWithout(front, i);
      DueAppend(Without(front, i), last);
    }
  }

  lemma BalanceAppend(calls: seq<PolicyCall>, c: PolicyCall)
    ensures Balance(calls + [c])
         == Balance(calls) + match c { case Started => 1 case Refused => 0 case StopCalled => -1 }
  {
    assert (calls + [c])[..|calls + [c]| - 1] == calls;
  }

  /** start() goes to the policy only from a state that is not playing. */
  predicate FoundIdle(w: World) {
    && (forall i :: 0 <= i < |w.pending| && w.pending[i].StartCall? ==> !Playing(w.pending[i].found))
    && (forall i :: 0 <= i < |w.refused| ==> !Playing(w.refused[i]))
  }

  /** How much more the state promises than the policy has counted, pending calls and refusals included. */
  function Gap(w: World): int {
    Count(w.state) - Balance(w.calls) - Due(w.pending) - |w.refused|
  }

  lemma StepGap(w: World, s: Step)
    requires FoundIdle(w) && Possible(w, s)
    ensures FoundIdle(Apply(w, s))
    ensures Gap(Apply(w, s)) == Gap(w) + if s.EndRefused? && !Playing(w.state) then 1 else 0
  {
    hide Balance, Due;
    DueAppend(w.pending, StopCall);
    DueAppend(w.pending, StartCall(w.state));
    match s
    case Arrive(i, ok) =>
      DueWithout(w.pending, i);
      BalanceAppend(w.calls, StopCalled);
      BalanceAppend(w.calls, Started);
      BalanceAppend(w.calls, Refused);
    case _ =>
  }

  /** The ledger of every run: what the state promises, less what the policy has counted and is still to hear, is the
      number of overtaken refusals. */
  lemma {:induction false} Ledger(steps: seq<Step>)
    ensures FoundIdle(After(steps)) && Gap(After(steps)) == Overtaken(steps)
  {
    if steps != [] {
      var front, s := steps[..|steps| - 1], steps[|steps| - 1];
      Ledger(front);
      if Possible(After(front), s) { StepGap(After(front), s); }
    }
  }

  predicate Settled(w: World) {
    w.pending == [] && w.refused == []
  }

  /** Once all calls have ended, the policy counts the track right if and only if no refused start() was overtaken by
      a stop() or a pause(); each one that was leaves the count one too low. */
  lemma SettledIff(steps: seq<Step>)
    requires Settled(After(steps))
    ensures Balance(After(steps).calls) == Count(After(steps).state) - Overtaken(steps)
    ensures Balance(After(steps).calls) == Count(After(steps).state) <==> Overtaken(steps) == 0
  {
    Ledger(steps);
  }

  lemma OneMore(steps: seq<Step>, s: Step)
    requires Possible(After(steps), s)
    ensures After(steps + [s]) == Apply(After(steps), s)
  {
    assert (steps + [s])[..|steps + [s]| - 1] == steps;
  }

  /** A start() and a stop() that race. */
  lemma StartThenStop() returns (steps: seq<Step>)
    ensures After(steps) == World(Stopped, [StartCall(Idle), StopCall], [], [])
  {
    hide After;
    assert After([]) == World(Idle, [], [], []) by { Beginning(); }
    OneMore([], BeginStart);
    OneMore([] + [BeginStart], BeginStop(Stopped));
    steps := [] + [BeginStart] + [BeginStop(Stopped)];
  }

  lemma Beginning()
    ensures After([]) == World(Idle, [], [], [])
  {}

  /** A refusal that is overtaken: the policy is left with one stopOutput too many. */
  lemma RefusalOvertaken() returns (steps: seq<Step>)
    ensures After(steps) == World(Idle, [], [], [Refused, StopCalled]) && Balance(After(steps).calls) == -1
  {
    hide After, Balance;
    steps := StartThenStop();
    OneMore(steps, Arrive(0, false));
    OneMore(steps + [Arrive(0, false)], EndRefused(0));
    OneMore(steps + [Arrive(0, false)] + [EndRefused(0)], Arrive(0, true));
    steps := steps + [Arrive(0, false)] + [EndRefused(0)] + [Arrive(0, true)];
    NoBalance();
    BalanceAppend([], Refused);
    BalanceAppend([Refused], StopCalled);
    assert [] + [Refused] == [Refused] && [Refused] + [StopCalled] == [Refused, StopCalled];
  }

  lemma NoBalance()
    ensures Balance([]) == 0
  {}

  // ----- what the policy counts on the way -----

  function Promise(c: Call): PolicyCall {
    if c.StartCall? then Started else StopCalled
  }

  function Promises(pending: seq<Call>): seq<PolicyCall> {
    seq(|pending|, i requires 0 <= i < |pending| => Promise(pending[i]))
  }

  /** What the policy will have seen if the pending calls arrive in order and are accepted. */
  function Expected(w: World): seq<PolicyCall> {
    w.calls + Promises(w.pending)
  }

  /** Calls arrive in the order of their locked sections; a refusal arrives with no other call pending, and the state is
      restored before anything else happens. */
  predicate Orderly(steps: seq<Step>) {
    steps == [] ||
    (var front, s := steps[..|steps| - 1], steps[|steps| - 1];
     var v := After(front);
     && Orderly(front) && (v.refused != [] ==> s.EndRefused?)
     && (s.Arrive? ==> s.i == 0 && (s.ok || |v.pending| == 1)))
  }

  /** Between steps of an orderly run: what is expected alternates and ends at what the state says, or a lone refusal is
      about to be taken back. */
  ghost predicate Good(w: World) {
    if w.refused == [] then Alternating(Expected(w)) && Balance(Expected(w)) == Count(w.state)
    else
      && w.pending == [] && |w.refused| == 1 && Alternating(w.calls) && Balance(w.calls) == 0
      && Playing(w.state) && !Playing(w.refused[0])
  }

  lemma Expects(w: World, c: Call, state: State)
    requires w.refused == [] && Good(w) && Count(w.state) == (if c.StartCall? then 0 else 1)
    requires Count(state) == 1 - Count(w.state)
    ensures Good(w.(state := state, pending := w.pending + [c]))
  {
    hide Alternating, Balance;
    var v := w.(state := state, pending := w.pending + [c]);
    Called(Expected(w), Promise(c));
    assert Promises(v.pending) == Promises(w.pending) + [Promise(c)];
    assert Expected(v) == Expected(w) + [Promise(c)];
  }

  lemma Arrives(w: World)
    requires w.refused == [] && Good(w) && w.pending != []
    ensures Good(w.(pending := Without(w.pending, 0), calls := w.calls + [Promise(w.pending[0])]))
  {
    hide Alternating, Balance;
    var v := w.(pending := Without(w.pending, 0), calls := w.calls + [Promise(w.pending[0])]);
    assert Promises(w.pending) == [Promise(w.pending[0])] + Promises(v.pending);
    assert Expected(v) == Expected(w);
  }

  lemma ArrivesRefused(w: World)
    requires w.refused == [] && Good(w) && |w.pending| == 1 && w.pending[0].StartCall? && !Playing(w.pending[0].found)
    ensures Good(w.(pending := [], calls := w.calls + [Refused], refused := [w.pending[0].found]))
  {
    hide Alternating, Balance;
    assert Expected(w) == w.calls + [Started];
    LastCall(w.calls, Started);
    Called(w.calls, Refused);
  }

  lemma LastCall(calls: seq<PolicyCall>, c: PolicyCall)
    requires Alternating(calls + [c])
    ensures Alternating(calls) && Balance(calls) == if c == StopCalled then 1 else 0
    ensures Balance(calls + [c]) == if c == Started then 1 else 0
  {
    assert (calls + [c])[..|calls + [c]| - 1] == calls;
  }

  lemma StepGood(w: World, s: Step)
    requires Good(w) && FoundIdle(w) && Possible(w, s) && (w.refused != [] ==> s.EndRefused?)
    requires s.Arrive? ==> s.i == 0 && (s.ok || |w.pending| == 1)
    ensures Good(Apply(w, s))
  {
    if w.refused != [] {
      RestoredGood(w);
      assert Without(w.refused, 0) == [];
    } else {
      match s
      case BeginStart => if !Playing(w.state) { Expects(w, StartCall(w.state), Apply(w, s).state); }
      case BeginStop(next) => if Playing(w.state) { Expects(w, StopCall, next); }
      case BeginPause => if Playing(w.state) { Expects(w, StopCall, Pausing); }
      case Arrive(i, ok) =>
        if ok || w.pending[0].StopCall? {
          Arrives(w);
        } else {
          ArrivesRefused(w);
          assert Without(w.pending, 0) == [] && w.refused + [w.pending[0].found] == [w.pending[0].found];
        }
      case EndRefused(_) =>
      case Elsewhere(_) =>
    }
  }

  lemma RestoredGood(w: World)
    requires Good(w) && w.refused != []
    ensures Good(w.(state := w.refused[0], refused := []))
  {
    hide Alternating, Balance;
    assert Expected(w) == w.calls;
  }

  lemma {:induction false} OrderlyGood(steps: seq<Step>)
    requires Orderly(steps)
    ensures Good(After(steps))
  {
    hide Good;
    if steps == [] {
      NothingGood();
    } else {
      var front, s := steps[..|steps| - 1], steps[|steps| - 1];
      OrderlyGood(front);
      Ledger(front);
      if Possible(After(front), s) { StepGood(After(front), s); }
    }
  }

  lemma NothingGood()
    ensures Good(World(Idle, [], [], []))
  {
    assert Expected(World(Idle, [], [], [])) == [];
  }

  lemma {:induction false} AlternatingPrefix(a: seq<PolicyCall>, b: seq<PolicyCall>)
    requires Alternating(a + b)
    ensures Alternating(a)
  {
    if b == [] {
      assert a + b == a;
    } else {
      assert (a + b)[..|a + b| - 1] == a + b[..|b| - 1];
      AlternatingPrefix(a, b[..|b| - 1]);
    }
  }

  /** In an orderly run the policy never counts the track twice or less than not at all, and in the end it is right. */
  lemma OrderlyAlternates(steps: seq<Step>)
    requires Orderly(steps)
    ensures Alternating(After(steps).calls)
    ensures Settled(After(steps)) ==> Balance(After(steps).calls) == Count(After(steps).state)
  {
    hide Alternating, Balance;
    OrderlyGood(steps);
    var w := After(steps);
    if w.refused == [] { AlternatingPrefix(w.calls, Promises(w.pending)); }
    if Settled(w) { assert Expected(w) == w.calls; }
  }

  /** As long as things have been orderly, every next call keeps the policy's count right if and only if there is at
      most one: of two pending calls the later one must not arrive first. */
  lemma RaceIff(w: World)
    requires Alternating(Expected(w))
    ensures (forall i :: 0 <= i < |w.pending| ==> Alternating(w.calls + [Promise(w.pending[i])])) <==> |w.pending| <= 1
  {
    hide Alternating, Balance, Promise;
    if |w.pending| >= 2 {
      var p, q := Promise(w.pending[0]), Promise(w.pending[1]);
      assert Expected(w) == (w.calls + [p] + [q]) + Promises(w.pending)[2..];
      AlternatingPrefix(w.calls + [p] + [q], Promises(w.pending)[2..]);
      LastCall(w.calls + [p], q);
      LastCall(w.calls, p);
      IsPromise(w.pending[0]);
      IsPromise(w.pending[1]);
      if Alternating(w.calls + [q]) { LastCall(w.calls, q); }
    } else if |w.pending| == 1 {
      assert Expected(w) == w.calls + [Promise(w.pending[0])];
    }
  }

  lemma IsPromise(c: Call)
    ensures Promise(c) == Started || Promise(c) == StopCalled
  {}

  /** A stopOutput that overtakes a startOutput. */
  lemma StopFirst() returns (steps: seq<Step>)
    ensures After(steps) == World(Stopped, [StartCall(Idle)], [], [StopCalled]) && !Alternating(After(steps).calls)
  {
    hide After;
    steps := StartThenStop();
    OneMore(steps, Arrive(1, true));
    steps := steps + [Arrive(1, true)];
    if Alternating([] + [StopCalled]) { LastCall([], StopCalled); }
    assert [] + [StopCalled] == [StopCalled];
  }
}
