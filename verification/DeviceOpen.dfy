/**
 * Opening and closing one device by many threads. Each step is what a thread does under the device's lock, or
 * one call of the driver; between steps any other thread may run.
 */
module DeviceOpen {

  type Tid = nat

  datatype DeviceState = Init | Opening | Open | Closing

  datatype Pc =
    | Idle
    | Entering                     // in ds_device_open, about to look at the state
    | Waiting                      // asleep until the operation in progress ends
    | OpeningPort                  // has marked the device as opening
    | DriverOpening                // d_open has been called
    | OpenReturned(ok: bool)       // d_open has answered
    | CloseDriver                  // has marked the device as closing
    | CloseReturned                // d_close has returned

  datatype Call = Opened | Closed

  datatype State = State(
    state: DeviceState,
    openCount: int,
    ioWait: bool,
    exclusive: bool,
    threads: map<Tid, Pc>,
    credits: nat,                  // successful opens that have not been closed
    log: seq<Call>)                // successful driver opens and driver closes

  datatype Action =
    | StartOpen(t: Tid)
    | TestState(t: Tid)
    | AllocatePort(t: Tid, ok: bool)
    | DriverAnswers(t: Tid, ok: bool)
    | OpenDone(t: Tid)
    | Close(t: Tid)
    | CallClose(t: Tid)
    | CloseDone(t: Tid)

  predicate Enabled(s: State, a: Action) {
    && a.t in s.threads
    && var pc := s.threads[a.t];
       match a
       case StartOpen(_) => pc == Idle
       case TestState(_) => pc == Entering
       case AllocatePort(_, _) => pc == OpeningPort
       case DriverAnswers(_, _) => pc == DriverOpening
       case OpenDone(_) => pc.OpenReturned?
       // no client closes more often than it has opened
       case Close(_) => pc == Idle && s.credits > 0
       case CallClose(_) => pc == CloseDriver
       case CloseDone(_) => pc == CloseReturned
  }

  function Goto(s: State, t: Tid, pc: Pc): State {
    s.(threads := s.threads[t := pc])
  }

  /** thread_wakeup: every sleeper looks at the state again. */
  function WakeAll(threads: map<Tid, Pc>): map<Tid, Pc> {
    map t | t in threads :: if threads[t] == Waiting then Entering else threads[t]
  }

  /** The end of an operation: the new state, and a wakeup if someone waits. */
  function Settle(s: State, state: DeviceState): State {
    if s.ioWait then s.(state := state, ioWait := false, threads := WakeAll(s.threads)) else s.(state := state)
  }

  function Step(s: State, a: Action): State
    requires Enabled(s, a)
  {
    match a
    case StartOpen(t) => Goto(s, t, Entering)
    case TestState(t) =>
      if s.state == Opening || s.state == Closing then Goto(s.(ioWait := true), t, Waiting)
      else if s.state == Open then
        if s.exclusive then Goto(s, t, Idle)
        else Goto(s.(openCount := s.openCount + 1, credits := s.credits + 1), t, Idle)
      else Goto(s.(state := Opening), t, OpeningPort)
    case AllocatePort(t, ok) =>
      if ok then Goto(s, t, DriverOpening) else Goto(Settle(s, Init), t, Idle)
    case DriverAnswers(t, ok) =>
      Goto(if ok then s.(log := s.log + [Opened]) else s, t, OpenReturned(ok))
    case OpenDone(t) =>
      if s.threads[t].ok
      then Goto(Settle(s.(openCount := 1, credits := s.credits + 1), Open), t, Idle)
      else Goto(Settle(s, Init), t, Idle)
    case Close(t) =>
      var s := s.(openCount := s.openCount - 1, credits := s.credits - 1);
      if s.openCount > 0 || s.state == Closing then s
      else Goto(s.(state := Closing), t, CloseDriver)
    case CallClose(t) => Goto(s.(log := s.log + [Closed]), t, CloseReturned)
    case CloseDone(t) => Goto(Settle(s, Init), t, Idle)
  }

  // ---------------------------------------------------------------- the invariant

  /** A thread is between marking the device and settling its state. */
  predicate InWindow(pc: Pc) {
    pc == OpeningPort || pc == DriverOpening || pc.OpenReturned? || pc == CloseDriver || pc == CloseReturned
  }

  predicate Alternates(log: seq<Call>) {
    forall i :: 0 <= i < |log| ==> log[i] == if i % 2 == 0 then Opened else Closed
  }

  /** The driver has the device open. */
  predicate DriverHasOpen(log: seq<Call>) {
    |log| % 2 == 1
  }

  /** What a thread's place says about the device. */
  ghost predicate Thread(s: State, t: Tid)
    requires t in s.threads
  {
    var pc := s.threads[t];
    && (pc == OpeningPort || pc == DriverOpening || pc.OpenReturned? ==> s.state == Opening)
    && (pc == CloseDriver || pc == CloseReturned ==> s.state == Closing)
    && (InWindow(pc) ==> (DriverHasOpen(s.log) <==> pc == OpenReturned(true) || pc == CloseDriver))
    && (pc == Waiting ==> s.ioWait && (s.state == Opening || s.state == Closing))
  }

  ghost predicate Apart(s: State, t: Tid, u: Tid) {
    t in s.threads && u in s.threads && InWindow(s.threads[t]) && InWindow(s.threads[u]) ==> t == u
  }

  ghost predicate Inv(s: State) {
    && (forall t :: t in s.threads ==> Thread(s, t))
    && (forall t, u :: Apart(s, t, u))
    && (s.state == Opening || s.state == Closing ==> exists t :: t in s.threads && InWindow(s.threads[t]))
    && Agree(s)
  }

  lemma StepKeepsThreads(s: State, a: Action, t: Tid)
    requires Inv(s) && Enabled(s, a)
    requires t in Step(s, a).threads
    ensures Thread(Step(s, a), t)
  {
    assert Thread(s, a.t) && Thread(s, t) && Apart(s, a.t, t);
  }

  /** Nobody but the thread that moves enters the window, and it enters only when nobody is in it. */
  lemma OthersStay(s: State, a: Action, t: Tid)
    requires Inv(s) && Enabled(s, a) && t in s.threads
    ensures t in Step(s, a).threads
    ensures t != a.t && InWindow(Step(s, a).threads[t]) ==> InWindow(s.threads[t])
    ensures InWindow(Step(s, a).threads[a.t]) && !InWindow(s.threads[a.t]) ==> !InWindow(s.threads[t])
  {
    assert Thread(s, a.t) && Thread(s, t);
  }

  lemma StepKeepsApart(s: State, a: Action, t: Tid, u: Tid)
    requires Inv(s) && Enabled(s, a) && t in s.threads && u in s.threads
    ensures Apart(Step(s, a), t, u)
  {
    OthersStay(s, a, t);
    OthersStay(s, a, u);
    assert Apart(s, t, u) && Apart(s, a.t, t) && Apart(s, a.t, u);
  }

  lemma StepKeepsWindow(s: State, a: Action)
    requires Inv(s) && Enabled(s, a)
    ensures Step(s, a).state == Opening || Step(s, a).state == Closing
            ==> exists t :: t in Step(s, a).threads && InWindow(Step(s, a).threads[t])
  {
    var s' := Step(s, a);
    assert Thread(s, a.t);
    if (s'.state == Opening || s'.state == Closing) && !InWindow(s'.threads[a.t]) {
      var t :| t in s.threads && InWindow(s.threads[t]);
      assert t in s'.threads && InWindow(s'.threads[t]);
    }
  }

  /** The count, the driver and the state agree. */
  ghost predicate Agree(s: State) {
    && (s.state == Init ==> !DriverHasOpen(s.log))
    && (s.state == Open ==> DriverHasOpen(s.log) && s.openCount == s.credits > 0)
    && (s.state != Open ==> s.credits == 0)
    && Alternates(s.log)
  }

  lemma StepKeepsAgree(s: State, a: Action)
    requires Inv(s) && Enabled(s, a)
    ensures Agree(Step(s, a))
  {
    assert Thread(s, a.t);
  }

  lemma StepKeeps(s: State, a: Action)
    requires Inv(s) && Enabled(s, a)
    ensures Inv(Step(s, a))
  {
    var s' := Step(s, a);
    StepKeepsAgree(s, a);
    forall t | t in s'.threads ensures Thread(s', t) { StepKeepsThreads(s, a, t); }
    assert s'.threads.Keys == s.threads.Keys;
    forall t, u ensures Apart(s', t, u) {
      if t in s.threads && u in s.threads { StepKeepsApart(s, a, t, u); }
    }
    StepKeepsWindow(s, a);
  }

  // ---------------------------------------------------------------- whole runs

  function Start(threads: set<Tid>, exclusive: bool): State {
    State(Init, 0, false, exclusive, map t | t in threads :: Idle, 0, [])
  }

  ghost predicate Possible(s: State, run: seq<Action>)
    decreases |run|
  {
    run == [] || (Enabled(s, run[0]) && Possible(Step(s, run[0]), run[1..]))
  }

  ghost function After(s: State, run: seq<Action>): State
    requires Possible(s, run)
    decreases |run|
  {
    if run == [] then s else After(Step(s, run[0]), run[1..])
  }

  lemma {:induction false} RunKeeps(s: State, run: seq<Action>)
    requires Inv(s) && Possible(s, run)
    ensures Inv(After(s, run))
    decreases |run|
  {
    if run != [] {
      StepKeeps(s, run[0]);
      RunKeeps(Step(s, run[0]), run[1..]);
    }
  }

  /** The opens and closes that have succeeded in a run, counted from its steps alone. */
  ghost function Net(s: State, run: seq<Action>): int
    requires Possible(s, run)
    decreases |run|
  {
    if run == [] then 0 else
      var a := run[0];
      var one :=
        match a
        case TestState(_) => if s.state == Open && !s.exclusive then 1 else 0
        case OpenDone(t) => if s.threads[t].ok then 1 else 0
        case Close(_) => -1
        case _ => 0;
      one + Net(Step(s, a), run[1..])
  }

  lemma {:induction false} CreditsAreNet(s: State, run: seq<Action>)
    requires Possible(s, run)
    ensures After(s, run).credits == s.credits + Net(s, run)
    decreases |run|
  {
    if run != [] {
      CreditsAreNet(Step(s, run[0]), run[1..]);
    }
  }

  /**
   * In every interleaving: the driver's successful opens and its closes alternate, one thread at most is inside
   * an opening or a closing, the count is the opens less the closes while the device is open and there are none
   * to close otherwise, and a sleeper always has a thread in progress that will wake it.
   */
  lemma EveryInterleaving(threads: set<Tid>, exclusive: bool, run: seq<Action>)
    requires Possible(Start(threads, exclusive), run)
    ensures var start := Start(threads, exclusive);
            var s := After(start, run);
            && Alternates(s.log)
            && (forall t, u :: t in s.threads && u in s.threads && InWindow(s.threads[t]) && InWindow(s.threads[u])
                               ==> t == u)
            && (s.state == Open ==> s.openCount == Net(start, run) > 0 && DriverHasOpen(s.log))
            && (s.state != Open ==> Net(start, run) == 0)
            && (s.state == Init ==> !DriverHasOpen(s.log))
            && (forall t :: t in s.threads && s.threads[t] == Waiting
                            ==> s.ioWait && exists u :: u in s.threads && InWindow(s.threads[u]))
  {
    var start := Start(threads, exclusive);
    var s := After(start, run);
    forall t, u ensures Apart(start, t, u) {}
    RunKeeps(start, run);
    CreditsAreNet(start, run);
    forall t, u | t in s.threads && u in s.threads && InWindow(s.threads[t]) && InWindow(s.threads[u])
      ensures t == u
    {
      assert Apart(s, t, u);
    }
    forall t | t in s.threads && s.threads[t] == Waiting
      ensures s.ioWait && exists u :: u in s.threads && InWindow(s.threads[u])
    {
      assert Thread(s, t);
    }
  }

  // ---------------------------------------------------------------- no lost wakeup

  /** Steps left to the thread that holds the window. */
  function Remaining(pc: Pc): nat {
    match pc
    case OpeningPort => 3
    case DriverOpening => 2
    case CloseDriver => 2
    case OpenReturned(_) => 1
    case CloseReturned => 1
    case _ => 0
  }

  /**
   * The window closes: every step of the thread in it brings it nearer to its end, no other thread's step touches
   * it, and when it ends nobody is left asleep.
   */
  lemma WindowEnds(s: State, a: Action, u: Tid)
    requires Inv(s) && Enabled(s, a) && u in s.threads && InWindow(s.threads[u])
    ensures var s' := Step(s, a);
            && u in s'.threads
            && (a.t == u ==> Remaining(s'.threads[u]) < Remaining(s.threads[u]))
            && (a.t != u ==> s'.threads[u] == s.threads[u])
            && (!InWindow(s'.threads[u]) ==> forall t :: t in s'.threads ==> s'.threads[t] != Waiting)
  {
    var s' := Step(s, a);
    assert Thread(s, u) && Thread(s, a.t);
    if !InWindow(s'.threads[u]) {
      forall t | t in s'.threads ensures s'.threads[t] != Waiting {
        assert Thread(s, t);
      }
    }
  }

  /** The thread in the window always has a step to take. */
  lemma WindowMoves(s: State, u: Tid)
    requires Inv(s) && u in s.threads && InWindow(s.threads[u])
    ensures exists a: Action :: a.t == u && Enabled(s, a)
  {
    var a :=
      match s.threads[u]
      case OpeningPort => AllocatePort(u, true)
      case DriverOpening => DriverAnswers(u, true)
      case OpenReturned(_) => OpenDone(u)
      case CloseDriver => CallClose(u)
      case _ => CloseDone(u);
    assert Enabled(s, a);
  }
}
