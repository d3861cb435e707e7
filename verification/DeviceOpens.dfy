/** How each open ends: with one more success to close, or refused for a reason that can be named. */
module DeviceOpens {
  import opened DeviceOpen

  function StateAt(s: State, run: seq<Action>, k: nat): State
    requires Possible(s, run) && k <= |run|
    decreases k
  {
    if k == 0 then s else StateAt(Step(s, run[0]), run[1..], k - 1)
  }

  lemma {:induction false} StateNext(s: State, run: seq<Action>, k: nat)
    requires Possible(s, run) && k < |run|
    ensures Enabled(StateAt(s, run, k), run[k])
    ensures StateAt(s, run, k + 1) == Step(StateAt(s, run, k), run[k])
    decreases k
  {
    if k > 0 {
      StateNext(Step(s, run[0]), run[1..], k - 1);
    }
  }

  /** A thread is in ds_device_open. */
  predicate InOpen(pc: Pc) {
    pc == Entering || pc == Waiting || pc == OpeningPort || pc == DriverOpening || pc.OpenReturned?
  }

  /** A step that turns an open down: no port, an error from the driver, or a device that is open for one only. */
  predicate Refuses(s: State, a: Action) {
    match a
    case AllocatePort(_, ok) => !ok
    case DriverAnswers(_, ok) => !ok
    case TestState(_) => s.state == Open && s.exclusive
    case _ => false
  }

  /** One step, seen from a thread that is in an open. */
  lemma OpenStep(s: State, a: Action, t: Tid)
    requires Enabled(s, a) && t in s.threads && InOpen(s.threads[t])
    ensures t in Step(s, a).threads
    ensures var pc, pc' := s.threads[t], Step(s, a).threads[t];
      && (a.t != t ==> pc' == pc || (pc == Waiting && pc' == Entering))
      && (a.t == t ==> pc' == Idle || InOpen(pc'))
      && (a.t == t && pc' != Idle ==> Step(s, a).credits == s.credits)
      && (a.t == t && pc' != Idle ==> (pc' == OpenReturned(false) <==> Refuses(s, a)))
      && (a.t == t && pc' == Idle ==>
            (Step(s, a).credits == s.credits + 1 <==> !Refuses(s, a) && pc != OpenReturned(false)))
      && (a.t == t && pc' == Idle ==> Step(s, a).credits == s.credits || Step(s, a).credits == s.credits + 1)
  {
  }

  /** Some step of a thread between two points of a run turned its open down. */
  ghost predicate Refused(s: State, run: seq<Action>, t: Tid, i: nat, m: nat)
    requires Possible(s, run) && m <= |run|
  {
    exists n: nat :: i < n < m && run[n].t == t && Refuses(StateAt(s, run, n), run[n])
  }

  /** The thread's own steps between two points left the successes to close alone. */
  ghost predicate NoneYet(s: State, run: seq<Action>, t: Tid, i: nat, m: nat)
    requires Possible(s, run) && m <= |run|
  {
    forall n: nat :: i < n < m && run[n].t == t ==> StateAt(s, run, n + 1).credits == StateAt(s, run, n).credits
  }

  ghost function PcAt(s: State, run: seq<Action>, t: Tid, k: nat): Pc
    requires Possible(s, run) && k <= |run|
  {
    var now := StateAt(s, run, k);
    if t in now.threads then now.threads[t] else Idle
  }

  /** An open that began at i, seen at m while it goes on. */
  ghost predicate OpenSeen(s: State, run: seq<Action>, t: Tid, i: nat, m: nat)
    requires Possible(s, run) && i < m <= |run|
  {
    && InOpen(PcAt(s, run, t, m))
    && NoneYet(s, run, t, i, m)
    && (Refused(s, run, t, i, m) <==> PcAt(s, run, t, m) == OpenReturned(false))
  }

  lemma OpenTurn(s: State, run: seq<Action>, t: Tid, i: nat, m: nat)
    requires Possible(s, run) && i < m < |run| && OpenSeen(s, run, t, i, m)
    ensures run[m].t == t || InOpen(PcAt(s, run, t, m + 1))
    ensures PcAt(s, run, t, m + 1) == Idle || OpenSeen(s, run, t, i, m + 1)
    ensures Refused(s, run, t, i, m + 1) <==>
      Refused(s, run, t, i, m) || (run[m].t == t && Refuses(StateAt(s, run, m), run[m]))
  {
    StateNext(s, run, m);
    var now := StateAt(s, run, m);
    OpenStep(now, run[m], t);
    if run[m].t == t && Refuses(now, run[m]) {
      assert Refused(s, run, t, i, m + 1);
    }
    if Refused(s, run, t, i, m) {
      var n: nat :| i < n < m && run[n].t == t && Refuses(StateAt(s, run, n), run[n]);
      assert Refused(s, run, t, i, m + 1);
    }
  }

  lemma {:induction false} OpenSoFar(s: State, run: seq<Action>, t: Tid, i: nat, m: nat)
    requires Possible(s, run) && i < m <= |run| && run[i] == StartOpen(t)
    requires forall n: nat :: i < n <= m ==> PcAt(s, run, t, n) != Idle
    ensures OpenSeen(s, run, t, i, m)
    decreases m
  {
    if m == i + 1 {
      StateNext(s, run, i);
    } else {
      OpenSoFar(s, run, t, i, m - 1);
      OpenTurn(s, run, t, i, m - 1);
    }
  }

  /**
   * In every interleaving: an open that has come to its end has done so by a step of its own thread. With that step it
   * has one more success to close, and none before; unless a port could not be had, the driver answered with an error,
   * or the device was open for one only, and in each of these cases it has none.
   */
  lemma EveryOpenEnds(threads: set<Tid>, exclusive: bool, run: seq<Action>, t: Tid, i: nat, j: nat)
    requires Possible(Start(threads, exclusive), run) && i + 1 < j <= |run| && run[i] == StartOpen(t)
    requires PcAt(Start(threads, exclusive), run, t, j) == Idle
    requires forall n: nat :: i < n < j ==> PcAt(Start(threads, exclusive), run, t, n) != Idle
    ensures var s := Start(threads, exclusive);
      var gain := StateAt(s, run, j).credits - StateAt(s, run, j - 1).credits;
      && run[j - 1].t == t && NoneYet(s, run, t, i, j - 1)
      && gain == if Refused(s, run, t, i, j) then 0 else 1
  {
    var s := Start(threads, exclusive);
    OpenSoFar(s, run, t, i, j - 1);
    OpenTurn(s, run, t, i, j - 1);
    StateNext(s, run, j - 1);
    OpenStep(StateAt(s, run, j - 1), run[j - 1], t);
  }
}
