/** The nested-disable protocol of CRYPTO_mem_ctrl and CRYPTO_is_mem_check_on in
    jni/openssl/crypto/mem_dbg.c as a step machine: any number of threads, two locks, one
    step for each lock operation, test and assignment to a shared variable. */
module MemCtrl {

  import opened Basics

  type Thread = nat

  /** Where a thread stands. MALLOC is the short lock, MALLOC2 the long one. */
  datatype Pc =
    | Outside      // not in a call
    | DisWant      // DISABLE: waits for MALLOC
    | DisTest      // holds MALLOC, about to test the mode and the nesting
    | DisWant2     // gave MALLOC back, waits for MALLOC2
    | DisWant1     // holds MALLOC2, waits for MALLOC
    | DisClear     // about to clear the ENABLE bit
    | DisOwn       // about to record itself as the disabling thread
    | DisCount     // about to increment num_disable
    | DisLeave     // about to release MALLOC
    | EnWant       // ENABLE: waits for MALLOC
    | EnTest       // holds MALLOC, about to test and decrement num_disable
    | EnSet        // num_disable reached 0: about to set the ENABLE bit
    | EnFree       // about to release MALLOC2
    | EnLeave      // about to release MALLOC
    | AskWant      // CRYPTO_is_mem_check_on: waits for MALLOC as a reader
    | AskRead      // holds MALLOC as a reader
    | AskDone(answer: bool)

  /** depth counts the DISABLE calls of the thread that took effect and are not yet undone. */
  datatype Local = Local(pc: Pc, depth: nat)

  datatype State = State(
    on: bool, enable: bool,          // the two bits of mh_mode
    numDisable: nat,
    disabling: Thread,               // disabling_thread
    malloc: Option<Thread>,          // writer of CRYPTO_LOCK_MALLOC
    readers: set<Thread>,            // readers of CRYPTO_LOCK_MALLOC
    malloc2: Option<Thread>,         // holder of CRYPTO_LOCK_MALLOC2
    threads: map<Thread, Local>)

  datatype Action = CallDisable | CallEnable | CallAsk | Advance | Start | Stop

  datatype Event = Event(thread: Thread, action: Action)

  predicate MallocFree(s: State) {
    s.malloc.None? && s.readers == {}
  }

  /** No thread is in a call and none has checking disabled: when MemCheck_start and MemCheck_stop are allowed. */
  predicate Quiet(s: State) {
    forall t :: t in s.threads ==> s.threads[t] == Local(Outside, 0)
  }

  /** Thread t is inside a call and not waiting for a lock. */
  predicate CanMove(s: State, t: Thread) {
    t in s.threads &&
    match s.threads[t].pc
    case Outside => false
    case DisWant => MallocFree(s)
    case DisWant1 => MallocFree(s)
    case EnWant => MallocFree(s)
    case DisWant2 => s.malloc2.None?
    case AskWant => !s.on || s.malloc.None?
    case _ => true
  }

  /** Which actions can happen. Each ENABLE follows a DISABLE of its own thread. */
  predicate Enabled(s: State, e: Event) {
    e.thread in s.threads &&
    var l := s.threads[e.thread];
    match e.action
    case CallDisable => l.pc == Outside
    case CallEnable => l.pc == Outside && (s.on ==> l.depth > 0)
    case CallAsk => l.pc == Outside
    case Start => Quiet(s)
    case Stop => Quiet(s)
    case Advance => CanMove(s, e.thread)
  }

  function Goto(s: State, t: Thread, pc: Pc): State
    requires t in s.threads
  {
    s.(threads := s.threads[t := s.threads[t].(pc := pc)])
  }

  /** One step of CRYPTO_MEM_CHECK_DISABLE. */
  function Disabling(s: State, t: Thread): State
    requires t in s.threads
  {
    match s.threads[t].pc
    case DisWant => Goto(s, t, DisTest).(malloc := Some(t))
    case DisTest =>
      if !s.on then Goto(s, t, DisLeave)
      else if s.numDisable == 0 || s.disabling != t then Goto(s, t, DisWant2).(malloc := None)
      else Goto(s, t, DisCount)
    case DisWant2 => Goto(s, t, DisWant1).(malloc2 := Some(t))
    case DisWant1 => Goto(s, t, DisClear).(malloc := Some(t))
    case DisClear => Goto(s, t, DisOwn).(enable := false)
    case DisOwn => Goto(s, t, DisCount).(disabling := t)
    case DisCount =>
      s.(numDisable := s.numDisable + 1, threads := s.threads[t := Local(DisLeave, s.threads[t].depth + 1)])
    case DisLeave => Goto(s, t, Outside).(malloc := None)
    case _ => s
  }

  /** One step of CRYPTO_MEM_CHECK_ENABLE. */
  function Enabling(s: State, t: Thread): State
    requires t in s.threads
  {
    var l := s.threads[t];
    match l.pc
    case EnWant => Goto(s, t, EnTest).(malloc := Some(t))
    case EnTest =>
      if !s.on || s.numDisable == 0 then Goto(s, t, EnLeave)
      else
        s.(numDisable := s.numDisable - 1,
           threads := s.threads[t := Local(if s.numDisable == 1 then EnSet else EnLeave,
                                           if l.depth > 0 then l.depth - 1 else 0)])
    case EnSet => Goto(s, t, EnFree).(enable := true)
    case EnFree => Goto(s, t, EnLeave).(malloc2 := None)
    case EnLeave => Goto(s, t, Outside).(malloc := None)
    case _ => s
  }

  /** One step of CRYPTO_is_mem_check_on. */
  function Asking(s: State, t: Thread): State
    requires t in s.threads
  {
    match s.threads[t].pc
    case AskWant => if !s.on then Goto(s, t, AskDone(false)) else Goto(s, t, AskRead).(readers := s.readers + {t})
    case AskRead => Goto(s, t, AskDone(s.enable || s.disabling != t)).(readers := s.readers - {t})
    case AskDone(_) => Goto(s, t, Outside)
    case _ => s
  }

  predicate Asks(pc: Pc) {
    pc == AskWant || pc == AskRead || pc.AskDone?
  }

  predicate Enables(pc: Pc) {
    pc == EnWant || pc == EnTest || pc == EnSet || pc == EnFree || pc == EnLeave
  }

  /** One step of thread t inside a call. */
  function Move(s: State, t: Thread): State
    requires t in s.threads
  {
    var pc := s.threads[t].pc;
    if Asks(pc) then Asking(s, t) else if Enables(pc) then Enabling(s, t) else Disabling(s, t)
  }

  function Apply(s: State, e: Event): State
    requires Enabled(s, e)
  {
    match e.action
    case CallDisable => Goto(s, e.thread, DisWant)
    case CallEnable => Goto(s, e.thread, EnWant)
    case CallAsk => Goto(s, e.thread, AskWant)
    case Start => s.(on := true, enable := true, numDisable := 0)
    case Stop => s.(on := false, enable := false, numDisable := 0)
    case Advance => Move(s, e.thread)
  }

  /** The initial state: checking off, all threads outside. */
  function Initial(ts: set<Thread>): State {
    State(false, false, 0, 0, None, {}, None, map t | t in ts :: Local(Outside, 0))
  }

  /** A run: every event can happen where it stands. */
  ghost predicate Runs(s: State, events: seq<Event>, end: State)
    decreases |events|
  {
    if events == [] then s == end
    else Enabled(s, events[0]) && Runs(Apply(s, events[0]), events[1..], end)
  }

  // ----- the invariant -----

  /** The thread holds MALLOC as a writer. */
  predicate Writes(pc: Pc) {
    pc == DisTest || pc == DisClear || pc == DisOwn || pc == DisCount || pc == DisLeave ||
    pc == EnTest || pc == EnSet || pc == EnFree || pc == EnLeave
  }

  /** The thread holds MALLOC2: it has checking disabled, or is about to or has just ended. */
  predicate Owns(l: Local) {
    l.depth > 0 || l.pc == DisWant1 || l.pc == DisClear || l.pc == DisOwn || l.pc == DisCount || l.pc == EnSet ||
      l.pc == EnFree
  }

  /** The owner has cleared the ENABLE bit and not set it again. */
  predicate Cleared(l: Local) {
    l.depth > 0 || l.pc == DisOwn || l.pc == DisCount || l.pc == EnSet
  }

  predicate LocalOk(s: State, t: Thread)
    requires t in s.threads
  {
    var l := s.threads[t];
    && (Writes(l.pc) <==> s.malloc == Some(t))
    && (l.pc == AskRead <==> t in s.readers)
    && (Owns(l) <==> s.malloc2 == Some(t))
    && (l.depth > 0 || l.pc == DisCount ==> s.disabling == t)
    && ((l.pc == DisWant2 || l.pc == DisWant1 || l.pc == DisClear || l.pc == DisOwn || l.pc == EnSet || l.pc == EnFree)
        ==> l.depth == 0)
    && (l.pc == EnWant || l.pc == EnTest ==> s.on ==> l.depth > 0)
    && (l.pc == AskRead || Owns(l) || l.pc == DisWant2 ==> s.on)
    && (l.pc.AskDone? ==> (l.pc.answer <==> s.on && l.depth == 0))
  }

  /** What the locks, the count and the mode say together. */
  predicate LocksOk(s: State) {
    && (s.malloc.Some? ==> s.malloc.value in s.threads && s.readers == {})
    && s.readers <= s.threads.Keys
    && (s.malloc2.Some? ==> s.malloc2.value in s.threads)
    && s.numDisable == (if s.malloc2.Some? then s.threads[s.malloc2.value].depth else 0)
    && (s.on ==> (s.enable <==> !(s.malloc2.Some? && Cleared(s.threads[s.malloc2.value]))))
  }

  ghost predicate Inv(s: State) {
    LocksOk(s) && forall t :: t in s.threads ==> LocalOk(s, t)
  }

  lemma InitialInv(ts: set<Thread>)
    ensures Inv(Initial(ts))
  {}

  lemma DisablingSelf(s: State, t: Thread)
    requires LocksOk(s) && CanMove(s, t) && LocalOk(s, t) && !Asks(s.threads[t].pc) && !Enables(s.threads[t].pc)
    requires s.malloc2.Some? ==> LocalOk(s, s.malloc2.value)
    ensures LocalOk(Disabling(s, t), t)
  {}

  lemma DisablingOther(s: State, t: Thread, u: Thread)
    requires LocksOk(s) && CanMove(s, t) && LocalOk(s, t) && !Asks(s.threads[t].pc) && !Enables(s.threads[t].pc)
    requires u in s.threads && u != t && LocalOk(s, u)
    ensures LocalOk(Disabling(s, t), u)
  {}

  lemma DisablingLocks(s: State, t: Thread)
    requires LocksOk(s) && CanMove(s, t) && LocalOk(s, t) && !Asks(s.threads[t].pc) && !Enables(s.threads[t].pc)
    ensures LocksOk(Disabling(s, t))
  {}

  lemma EnablingSelf(s: State, t: Thread)
    requires LocksOk(s) && CanMove(s, t) && LocalOk(s, t) && Enables(s.threads[t].pc)
    requires s.malloc2.Some? ==> LocalOk(s, s.malloc2.value)
    ensures LocalOk(Enabling(s, t), t)
  {}

  lemma EnablingOther(s: State, t: Thread, u: Thread)
    requires LocksOk(s) && CanMove(s, t) && LocalOk(s, t) && Enables(s.threads[t].pc)
    requires u in s.threads && u != t && LocalOk(s, u)
    ensures LocalOk(Enabling(s, t), u)
  {}

  lemma EnablingLocks(s: State, t: Thread)
    requires LocksOk(s) && CanMove(s, t) && LocalOk(s, t) && Enables(s.threads[t].pc)
    ensures LocksOk(Enabling(s, t))
  {}

  lemma AskingSelf(s: State, t: Thread)
    requires LocksOk(s) && CanMove(s, t) && LocalOk(s, t) && Asks(s.threads[t].pc)
    requires s.malloc2.Some? ==> LocalOk(s, s.malloc2.value)
    ensures LocalOk(Asking(s, t), t)
  {}

  lemma AskingOther(s: State, t: Thread, u: Thread)
    requires LocksOk(s) && CanMove(s, t) && LocalOk(s, t) && Asks(s.threads[t].pc)
    requires u in s.threads && u != t && LocalOk(s, u)
    ensures LocalOk(Asking(s, t), u)
  {}

  lemma AskingLocks(s: State, t: Thread)
    requires LocksOk(s) && CanMove(s, t) && LocalOk(s, t) && Asks(s.threads[t].pc)
    ensures LocksOk(Asking(s, t))
  {}

  lemma MoveKeepsThreads(s: State, t: Thread)
    requires t in s.threads
    ensures Move(s, t).threads.Keys == s.threads.Keys
  {}

  /** A step of t keeps what holds of every thread. */
  lemma MoveLocal(s: State, t: Thread, u: Thread)
    requires Inv(s) && CanMove(s, t) && u in s.threads && u in Move(s, t).threads
    ensures LocalOk(Move(s, t), u)
  {
    hide LocksOk, LocalOk, CanMove, Asking, Enabling, Disabling, Asks, Enables;
    assert t in s.threads by { CanMoveInside(s, t); }
    OwnerOk(s);
    var pc := s.threads[t].pc;
    if u == t {
      if Asks(pc) { AskingSelf(s, t); } else if Enables(pc) { EnablingSelf(s, t); } else { DisablingSelf(s, t); }
    } else {
      if Asks(pc) {
        AskingOther(s, t, u);
      } else if Enables(pc) {
        EnablingOther(s, t, u);
      } else {
        DisablingOther(s, t, u);
      }
    }
  }

  lemma CanMoveInside(s: State, t: Thread)
    requires CanMove(s, t)
    ensures t in s.threads
  {}

  lemma OwnerOk(s: State)
    requires Inv(s)
    ensures s.malloc2.Some? ==> s.malloc2.value in s.threads && LocalOk(s, s.malloc2.value)
  {}

  lemma MoveLocks(s: State, t: Thread)
    requires Inv(s) && CanMove(s, t)
    ensures LocksOk(Move(s, t))
  {
    hide LocksOk, LocalOk, CanMove, Asking, Enabling, Disabling, Asks, Enables;
    assert t in s.threads by { CanMoveInside(s, t); }
    var pc := s.threads[t].pc;
    if Asks(pc) { AskingLocks(s, t); } else if Enables(pc) { EnablingLocks(s, t); } else { DisablingLocks(s, t); }
  }

  lemma MoveInv(s: State, t: Thread)
    requires Inv(s) && CanMove(s, t)
    ensures Inv(Move(s, t))
  {
    hide LocksOk, LocalOk, CanMove, Move;
    assert t in s.threads by { CanMoveInside(s, t); }
    MoveKeepsThreads(s, t);
    MoveLocks(s, t);
    forall u | u in s.threads
      ensures LocalOk(Move(s, t), u)
    {
      MoveLocal(s, t, u);
    }
  }

  lemma CallLocal(s: State, t: Thread, pc: Pc, u: Thread)
    requires t in s.threads && s.threads[t].pc == Outside && u in s.threads && LocalOk(s, u)
    requires pc == DisWant || pc == AskWant || (pc == EnWant && (s.on ==> s.threads[t].depth > 0))
    ensures LocalOk(Goto(s, t, pc), u)
  {}

  lemma CallLocks(s: State, t: Thread, pc: Pc)
    requires t in s.threads && s.threads[t].pc == Outside && LocksOk(s)
    requires pc == DisWant || pc == AskWant || pc == EnWant
    ensures LocksOk(Goto(s, t, pc))
  {}

  lemma CallInv(s: State, t: Thread, pc: Pc)
    requires Inv(s) && t in s.threads && s.threads[t].pc == Outside
    requires pc == DisWant || pc == AskWant || (pc == EnWant && (s.on ==> s.threads[t].depth > 0))
    ensures Inv(Goto(s, t, pc))
  {
    hide LocksOk, LocalOk;
    CallLocks(s, t, pc);
    forall u | u in s.threads
      ensures LocalOk(Goto(s, t, pc), u)
    {
      CallLocal(s, t, pc, u);
    }
  }

  lemma SwitchInv(s: State, on: bool)
    requires Inv(s) && Quiet(s)
    ensures Inv(s.(on := on, enable := on, numDisable := 0))
  {}

  /** Every step keeps the invariant. */
  lemma ApplyInv(s: State, e: Event)
    requires Inv(s) && Enabled(s, e)
    ensures Inv(Apply(s, e))
  {
    hide Inv, Move;
    match e.action
    case CallDisable => CallInv(s, e.thread, DisWant);
    case CallEnable => CallInv(s, e.thread, EnWant);
    case CallAsk => CallInv(s, e.thread, AskWant);
    case Start => SwitchInv(s, true);
    case Stop => SwitchInv(s, false);
    case Advance => MoveInv(s, e.thread);
  }

  lemma {:induction false} RunInv(s: State, events: seq<Event>, end: State)
    requires Inv(s) && Runs(s, events, end)
    ensures Inv(end)
    decreases |events|
  {
    hide Inv, Apply;
    if events != [] {
      ApplyInv(s, events[0]);
      RunInv(Apply(s, events[0]), events[1..], end);
    }
  }

  // ----- what holds in every interleaving -----

  /** num_disable > 0 means that MALLOC2 is held by disabling_thread and nobody else is inside,
      and num_disable is that thread's nesting depth. */
  lemma DisabledMeansOwned(ts: set<Thread>, events: seq<Event>, s: State)
    requires Runs(Initial(ts), events, s)
    ensures s.numDisable > 0 ==>
              s.malloc2 == Some(s.disabling) && s.disabling in s.threads && s.numDisable == s.threads[s.disabling].depth
    ensures forall t :: t in s.threads && s.threads[t].depth > 0 ==> s.numDisable > 0 && t == s.disabling
  {
    InitialInv(ts);
    RunInv(Initial(ts), events, s);
  }

  /** While no thread is between taking and releasing MALLOC, the ENABLE bit is clear exactly when
      num_disable > 0, and MALLOC2 is held exactly then or by a thread that waits for MALLOC with it. */
  lemma EnableBit(ts: set<Thread>, events: seq<Event>, s: State)
    requires Runs(Initial(ts), events, s)
    ensures s.malloc.None? && s.on ==> (!s.enable <==> s.numDisable > 0)
    ensures s.malloc.None? ==>
      (s.malloc2.Some? <==> s.numDisable > 0 || exists t :: t in s.threads && s.threads[t].pc == DisWant1)
  {
    InitialInv(ts);
    RunInv(Initial(ts), events, s);
    if s.malloc.None? && s.malloc2.Some? && s.numDisable == 0 {
      assert s.threads[s.malloc2.value].pc == DisWant1;
    }
  }

  /** A thread that waits for MALLOC2 holds neither lock, so the two waits cannot form a cycle. */
  lemma NoHoldAndWait(ts: set<Thread>, events: seq<Event>, s: State, t: Thread)
    requires Runs(Initial(ts), events, s) && t in s.threads && s.threads[t].pc == DisWant2
    ensures s.malloc != Some(t) && t !in s.readers && s.malloc2 != Some(t) && s.threads[t].depth == 0
  {
    InitialInv(ts);
    RunInv(Initial(ts), events, s);
  }

  /** CRYPTO_is_mem_check_on answers yes exactly while checking is on, to threads that have not disabled
      it themselves. */
  lemma AnswerIsOwnView(ts: set<Thread>, events: seq<Event>, s: State, t: Thread)
    requires Runs(Initial(ts), events, s) && t in s.threads && s.threads[t].pc.AskDone?
    ensures s.threads[t].pc.answer <==> s.on && s.threads[t].depth == 0
  {
    InitialInv(ts);
    RunInv(Initial(ts), events, s);
  }

  // ----- what a thread's depth counts -----

  /** How often thread t made this call. */
  function Calls(events: seq<Event>, t: Thread, call: Action): nat {
    if events == [] then 0 else (if events[0] == Event(t, call) then 1 else 0) + Calls(events[1..], t, call)
  }

  /** The thread's depth once the call that it is in has taken effect. */
  function Due(l: Local): int {
    match l.pc
    case DisWant | DisTest | DisWant2 | DisWant1 | DisClear | DisOwn | DisCount => l.depth + 1
    case EnWant | EnTest => l.depth - 1
    case _ => l.depth
  }

  lemma DisablingDue(s: State, t: Thread, u: Thread)
    requires t in s.threads && u in s.threads && s.on && !Asks(s.threads[t].pc) && !Enables(s.threads[t].pc)
    ensures u in Disabling(s, t).threads && Due(Disabling(s, t).threads[u]) == Due(s.threads[u])
    ensures Disabling(s, t).on
  {}

  lemma EnablingDue(s: State, t: Thread, u: Thread)
    requires t in s.threads && u in s.threads && s.on && Enables(s.threads[t].pc)
    requires s.threads[t].pc == EnTest ==> s.numDisable > 0 && s.threads[t].depth > 0
    ensures u in Enabling(s, t).threads && Due(Enabling(s, t).threads[u]) == Due(s.threads[u])
    ensures Enabling(s, t).on
  {}

  lemma AskingDue(s: State, t: Thread, u: Thread)
    requires t in s.threads && u in s.threads && s.on && Asks(s.threads[t].pc)
    ensures u in Asking(s, t).threads && Due(Asking(s, t).threads[u]) == Due(s.threads[u])
    ensures Asking(s, t).on
  {}

  lemma TestedDepth(s: State, t: Thread)
    requires Inv(s) && t in s.threads && s.on && s.threads[t].pc == EnTest
    ensures s.numDisable > 0 && s.threads[t].depth > 0
  {}

  lemma MoveDue(s: State, t: Thread, u: Thread)
    requires Inv(s) && CanMove(s, t) && u in s.threads && s.on
    ensures u in Move(s, t).threads && Due(Move(s, t).threads[u]) == Due(s.threads[u]) && Move(s, t).on
  {
    hide Inv, CanMove, Asking, Enabling, Disabling, Asks, Enables, Due;
    assert t in s.threads by { CanMoveInside(s, t); }
    var pc := s.threads[t].pc;
    if pc == EnTest { TestedDepth(s, t); }
    if Asks(pc) { AskingDue(s, t, u); } else if Enables(pc) { EnablingDue(s, t, u); } else { DisablingDue(s, t, u); }
  }

  lemma CallDue(s: State, t: Thread, pc: Pc, u: Thread)
    requires t in s.threads && u in s.threads && s.threads[t].pc == Outside
    ensures u in Goto(s, t, pc).threads && Goto(s, t, pc).on == s.on
    ensures Due(Goto(s, t, pc).threads[u]) ==
            if u == t then Due(Local(pc, s.threads[u].depth)) else Due(s.threads[u])
  {
    hide Due;
  }

  /** While checking stays on, only the calls of a thread change what it is due. */
  lemma ApplyDue(s: State, e: Event, u: Thread)
    requires Inv(s) && Enabled(s, e) && u in s.threads && s.on && e.action != Stop
    ensures u in Apply(s, e).threads && Apply(s, e).on
    ensures Due(Apply(s, e).threads[u]) ==
            Due(s.threads[u]) +
              if e == Event(u, CallDisable) then 1 else if e == Event(u, CallEnable) then -1 else 0
  {
    hide Inv, Move, Goto, CanMove, Quiet;
    match e.action
    case CallDisable => CallDue(s, e.thread, DisWant, u);
    case CallEnable => CallDue(s, e.thread, EnWant, u);
    case CallAsk => CallDue(s, e.thread, AskWant, u);
    case Start => {}
    case Advance => MoveDue(s, e.thread, u);
  }

  lemma {:induction false} RunDue(s: State, events: seq<Event>, end: State, u: Thread)
    requires Inv(s) && Runs(s, events, end) && u in s.threads && s.on
    requires forall e :: e in events ==> e.action != Stop
    ensures u in end.threads && end.on
    ensures Due(end.threads[u]) == Due(s.threads[u]) + Calls(events, u, CallDisable) - Calls(events, u, CallEnable)
    decreases |events|
  {
    hide Inv, Enabled, Apply, Due;
    if events != [] {
      ApplyInv(s, events[0]);
      ApplyDue(s, events[0], u);
      RunDue(Apply(s, events[0]), events[1..], end, u);
    }
  }

  /** Since checking was started, a thread outside all calls, each of which has then returned, has disabled
      checking as often as it called DISABLE less as often as it called ENABLE. */
  lemma DepthCountsCalls(ts: set<Thread>, before: seq<Event>, s: State, start: Event, events: seq<Event>, end: State,
                         t: Thread)
    requires Runs(Initial(ts), before, s) && Enabled(s, start) && start.action == Start
    requires Runs(Apply(s, start), events, end) && forall e :: e in events ==> e.action != Stop
    requires t in s.threads
    ensures t in end.threads
    ensures end.threads[t].pc == Outside ==>
      end.threads[t].depth == Calls(events, t, CallDisable) - Calls(events, t, CallEnable)
  {
    hide Runs, Inv, Calls;
    InitialInv(ts);
    RunInv(Initial(ts), before, s);
    ApplyInv(s, start);
    RunDue(Apply(s, start), events, end, t);
  }

  // ----- a thread on its own completes DISABLE -----

  /** Thread t is inside DISABLE, and no other thread holds a lock that it needs. */
  predicate Alone(s: State, t: Thread) {
    && t in s.threads && s.on && s.readers == {}
    && (s.malloc.None? || s.malloc == Some(t)) && (s.malloc2.None? || s.malloc2 == Some(t))
    && s.threads[t].pc != Outside && !Asks(s.threads[t].pc) && !Enables(s.threads[t].pc)
    && (s.threads[t].pc == DisLeave ==> s.threads[t].depth > 0)
  }

  /** The steps that are left. */
  function StepsLeft(pc: Pc): nat {
    match pc
    case DisWant => 8
    case DisTest => 7
    case DisWant2 => 6
    case DisWant1 => 5
    case DisClear => 4
    case DisOwn => 3
    case DisCount => 2
    case DisLeave => 1
    case _ => 0
  }

  lemma AloneMoves(s: State, t: Thread)
    requires LocksOk(s) && t in s.threads && LocalOk(s, t) && Alone(s, t)
    ensures CanMove(s, t)
    ensures var n := Disabling(s, t);
            t in n.threads && StepsLeft(n.threads[t].pc) < StepsLeft(s.threads[t].pc) &&
            (if s.threads[t].pc == DisLeave then n.threads[t].pc == Outside && !n.enable && n.malloc2 == Some(t)
             else Alone(n, t)) &&
            n.readers == {} && (s.threads[t].pc == DisLeave ==> n.malloc.None?) &&
            n.numDisable - s.numDisable == n.threads[t].depth - s.threads[t].depth
  {}

  lemma {:induction false} AloneFinishes(s: State, t: Thread) returns (events: seq<Event>, end: State)
    requires Inv(s) && Alone(s, t)
    ensures Runs(s, events, end) && forall e :: e in events ==> e == Event(t, Advance)
    ensures t in end.threads && end.threads[t].pc == Outside && end.on
    ensures !end.enable && end.malloc2 == Some(t) && MallocFree(end)
    ensures end.numDisable - s.numDisable == end.threads[t].depth - s.threads[t].depth
    decreases StepsLeft(s.threads[t].pc)
  {
    hide LocksOk, LocalOk, CanMove, Disabling, StepsLeft;
    AloneMoves(s, t);
    var n := Disabling(s, t);
    var go := Event(t, Advance);
    assert n == Apply(s, go);
    DisablingDue(s, t, t);
    hide Inv;
    if s.threads[t].pc == DisLeave {
      end := n;
      NoSteps(end);
      events := [go] + [];
      OneStep(s, go, [], end);
    } else {
      MoveInv(s, t);
      var rest;
      rest, end := AloneFinishes(n, t);
      OneStep(s, go, rest, end);
      events := [go] + rest;
    }
  }

  /** From every reachable state in which MALLOC is free and MALLOC2 is free or held by t, the steps of t
      alone complete a DISABLE, after which checking is disabled once more. */
  lemma DisableCompletes(ts: set<Thread>, before: seq<Event>, s: State, t: Thread)
    returns (events: seq<Event>, end: State)
    requires Runs(Initial(ts), before, s) && s.on && t in s.threads && s.threads[t].pc == Outside
    requires MallocFree(s) && (s.malloc2.None? || s.malloc2 == Some(t))
    ensures Runs(s, events, end) && |events| > 0 && events[0] == Event(t, CallDisable)
    ensures forall e :: e in events[1..] ==> e == Event(t, Advance)
    ensures t in end.threads && end.threads[t] == Local(Outside, s.threads[t].depth + 1)
    ensures end.numDisable == s.numDisable + 1 && !end.enable && end.malloc2 == Some(t) && MallocFree(end)
  {
    hide Runs, Inv;
    InitialInv(ts);
    RunInv(Initial(ts), before, s);
    var call := Event(t, CallDisable);
    ApplyInv(s, call);
    var mid := Apply(s, call);
    var rest;
    rest, end := AloneFinishes(mid, t);
    NoCalls(rest, t);
    RunDue(mid, rest, end, t);
    OneStep(s, call, rest, end);
    events := [call] + rest;
    assert events[1..] == rest;
  }

  lemma {:induction false} NoCalls(events: seq<Event>, t: Thread)
    requires forall e :: e in events ==> e == Event(t, Advance)
    ensures Calls(events, t, CallDisable) == Calls(events, t, CallEnable) == 0
  {
    if events != [] {
      assert events[0] in events && forall e :: e in events[1..] ==> e in events;
      NoCalls(events[1..], t);
    }
  }

  // ----- no deadlock -----

  /** The holder is outside, and nobody holds MALLOC. */
  predicate Idling(s: State, t: Thread) {
    t in s.threads && s.on && MallocFree(s) && s.malloc2 == Some(t) &&
    s.threads[t].pc == Outside && s.numDisable == s.threads[t].depth > 0
  }

  /** A thread that holds MALLOC, as a writer or a reader, can move. */
  lemma HolderMoves(s: State, t: Thread)
    requires t in s.threads && LocalOk(s, t) && (s.malloc == Some(t) || t in s.readers)
    ensures CanMove(s, t)
  {}

  /** While nobody holds MALLOC, only a thread that waits for MALLOC2 cannot move. */
  lemma FreeMoves(s: State, t: Thread)
    requires t in s.threads && MallocFree(s) && s.threads[t].pc != Outside
    ensures CanMove(s, t) || (s.threads[t].pc == DisWant2 && s.malloc2.Some?)
  {}

  /** While nobody holds MALLOC, a holder of MALLOC2 that cannot move is outside. */
  lemma OwnerMoves(s: State, t: Thread)
    requires t in s.threads && LocalOk(s, t) && LocksOk(s) && MallocFree(s) && s.malloc2 == Some(t)
    ensures CanMove(s, t) || Idling(s, t)
  {}

  /** No deadlock: if any thread is in a call, some thread in a call can take a step, or all of
      them wait for MALLOC2 while its holder is outside and, by HolderReleases, can give it back. */
  lemma NoDeadlock(ts: set<Thread>, events: seq<Event>, s: State, t: Thread)
    requires Runs(Initial(ts), events, s) && t in s.threads && s.threads[t].pc != Outside
    ensures (exists u :: CanMove(s, u)) ||
            (s.malloc2.Some? && Idling(s, s.malloc2.value) &&
             forall u :: u in s.threads && s.threads[u].pc != Outside ==> s.threads[u].pc == DisWant2)
  {
    hide LocalOk, CanMove, Runs;
    InitialInv(ts);
    RunInv(Initial(ts), events, s);
    if s.malloc.Some? {
      HolderMoves(s, s.malloc.value);
    } else if r :| r in s.readers {
      HolderMoves(s, r);
    } else {
      forall u | u in s.threads && s.threads[u].pc != Outside
        ensures CanMove(s, u) || (s.threads[u].pc == DisWant2 && s.malloc2.Some?)
      {
        FreeMoves(s, u);
      }
      if s.malloc2.Some? {
        OwnerMoves(s, s.malloc2.value);
      }
    }
  }

  // ----- the holder of MALLOC2 can always give it back -----

  lemma {:induction false} RunsOn(s: State, a: seq<Event>, mid: State, b: seq<Event>, end: State)
    requires Runs(s, a, mid) && Runs(mid, b, end)
    ensures Runs(s, a + b, end)
    decreases |a|
  {
    hide Enabled, Apply;
    if a == [] {
      assert a + b == b;
    } else {
      assert (a + b)[0] == a[0] && (a + b)[1..] == a[1..] + b;
      RunsOn(Apply(s, a[0]), a[1..], mid, b, end);
    }
  }

  lemma OneStep(s: State, e: Event, rest: seq<Event>, end: State)
    requires Enabled(s, e) && Runs(Apply(s, e), rest, end)
    ensures Runs(s, [e] + rest, end)
  {
    hide Enabled, Apply;
    assert ([e] + rest)[1..] == rest;
  }

  lemma EnableStep(s: State, t: Thread, rest: seq<Event>, end: State)
    requires t in s.threads && Enables(s.threads[t].pc) && (s.threads[t].pc == EnWant ==> MallocFree(s))
    requires Runs(Enabling(s, t), rest, end)
    ensures Runs(s, [Event(t, Advance)] + rest, end)
  {
    hide Enabling, Runs;
    OneStep(s, Event(t, Advance), rest, end);
  }

  lemma NoSteps(s: State)
    ensures Runs(s, [], s)
  {}

  /** The last call of ENABLE: from the decrement on. */
  lemma LastEnable(s: State, t: Thread)
    requires t in s.threads && s.threads[t].pc == EnSet && s.readers == {}
    ensures var s1 := Enabling(s, t);
            var s2 := Enabling(s1, t);
            var end := Enabling(s2, t);
            Runs(s, [Event(t, Advance)] + ([Event(t, Advance)] + ([Event(t, Advance)] + [])), end) &&
              end.malloc2.None? && end.enable && MallocFree(end)
  {
    hide Runs;
    var go := Event(t, Advance);
    var s1 := Enabling(s, t);
    var s2 := Enabling(s1, t);
    var end := Enabling(s2, t);
    NoSteps(end);
    EnableStep(s2, t, [], end);
    EnableStep(s1, t, [go] + [], end);
    EnableStep(s, t, [go] + ([go] + []), end);
  }

  /** After the decrement in ENABLE. */
  function Decremented(s: State, t: Thread): State
    requires Idling(s, t)
  {
    var d := s.threads[t].depth;
    s.(malloc := Some(t), numDisable := d - 1,
       threads := s.threads[t := Local(if d == 1 then EnSet else EnLeave, d - 1)])
  }

  lemma FirstSteps(s: State, t: Thread, rest: seq<Event>, end: State)
    requires Idling(s, t) && Runs(Decremented(s, t), rest, end)
    ensures Runs(s, [Event(t, CallEnable)] + ([Event(t, Advance)] + ([Event(t, Advance)] + rest)), end)
  {
    hide Runs;
    var go := Event(t, Advance);
    var s1 := Goto(s, t, EnWant);
    var s2 := Enabling(s1, t);
    assert Enabling(s2, t).threads == Decremented(s, t).threads;
    EnableStep(s2, t, rest, end);
    EnableStep(s1, t, [go] + rest, end);
    OneStep(s, Event(t, CallEnable), [go] + ([go] + rest), end);
  }

  /** One call of ENABLE by the holder, on its own. */
  lemma EnableOnce(s: State, t: Thread) returns (events: seq<Event>, end: State)
    requires Idling(s, t)
    ensures Runs(s, events, end) && forall e :: e in events ==> e.thread == t
    ensures if s.numDisable == 1 then end.malloc2.None? && end.enable && MallocFree(end)
            else Idling(end, t) && end.numDisable == s.numDisable - 1
  {
    hide Runs;
    var go := Event(t, Advance);
    var s3 := Decremented(s, t);
    var rest := [go] + ([go] + ([go] + []));
    if s.numDisable == 1 {
      end := Enabling(Enabling(Enabling(s3, t), t), t);
      LastEnable(s3, t);
    } else {
      rest := [go] + [];
      end := Enabling(s3, t);
      NoSteps(end);
      EnableStep(s3, t, [], end);
    }
    FirstSteps(s, t, rest, end);
    events := [Event(t, CallEnable)] + ([go] + ([go] + rest));
  }

  /** From every such state the holder's own calls of ENABLE release MALLOC2, whatever the other threads wait for. */
  lemma {:induction false} HolderReleases(s: State, t: Thread) returns (events: seq<Event>, end: State)
    requires Idling(s, t)
    ensures Runs(s, events, end) && (forall e :: e in events ==> e.thread == t) && end.malloc2.None? && MallocFree(end)
    decreases s.numDisable
  {
    events, end := EnableOnce(s, t);
    if s.numDisable > 1 {
      var mid := end;
      var rest;
      rest, end := HolderReleases(mid, t);
      RunsOn(s, events, mid, rest, end);
      events := events + rest;
    }
  }
}
