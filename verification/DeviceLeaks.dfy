/** No structure is lost: each is in the table with a reference to it, or in the hands of a thread that will free it. */
module DeviceLeaks {
  import opened DeviceRefs
  import opened DeviceRefsProofs

  /** A thread has the structure to itself: one it has allocated and not entered, or one it is about to free. */
  ghost predicate InHand(s: State, d: Id) {
    exists t :: t in s.threads && Private(s.threads[t]) == Some(d)
  }

  ghost predicate Kept(s: State, d: Id) {
    d in s.devices ==> (InTable(s, d) && s.devices[d].refCount > 0) || InHand(s, d)
  }

  lemma HandStays(s: State, s': State, t: Tid, d: Id)
    requires t in s.threads && s'.threads.Keys == s.threads.Keys
    requires forall u :: u in s.threads && u != t ==> s'.threads[u] == s.threads[u]
    requires InHand(s, d) && (Private(s.threads[t]) == Some(d) ==> Private(s'.threads[t]) == Some(d))
    ensures InHand(s', d)
  {
    var u :| u in s.threads && Private(s.threads[u]) == Some(d);
    assert Private(s'.threads[u]) == Some(d);
  }

  predicate Plain(a: Action) {
    a.Begin? || a.TakeLock? || a.Reference? || a.Deallocate?
  }

  lemma PlainTable(s: State, a: Action)
    requires Enabled(s, a) && Plain(a)
    ensures SameTable(s, Step(s, a))
    ensures forall d :: d in s.devices && s.devices[d].refCount > 0 ==> Step(s, a).devices[d].refCount > 0
  {
  }

  lemma PlainHands(s: State, a: Action)
    requires Enabled(s, a) && Plain(a)
    ensures var s' := Step(s, a);
      && s'.threads.Keys == s.threads.Keys
      && (forall u :: u in s.threads && u != a.t ==> s'.threads[u] == s.threads[u])
      && (Private(s.threads[a.t]).Some? ==> Private(s'.threads[a.t]) == Private(s.threads[a.t]))
  {
  }

  /** Steps that leave the table alone. */
  lemma PlainKept(s: State, a: Action, d: Id)
    requires Inv(s) && Enabled(s, a) && Kept(s, d) && Plain(a)
    ensures Kept(Step(s, a), d)
  {
    var s' := Step(s, a);
    PlainTable(s, a);
    SameTableKeeps(s, s');
    if d in s.devices && InHand(s, d) {
      PlainHands(s, a);
      HandStays(s, s', a.t, d);
    }
  }

  lemma AllocateKept(s: State, a: Action, d: Id)
    requires Inv(s) && Enabled(s, a) && Kept(s, d) && a.Allocate?
    ensures Kept(Step(s, a), d)
  {
    var s' := Step(s, a);
    AllocateTable(s, a);
    if d == a.id {
      assert Private(s'.threads[a.t]) == Some(d);
    } else if d in s.devices && InHand(s, d) {
      HandStays(s, s', a.t, d);
    }
  }

  lemma FreeKept(s: State, a: Action, d: Id)
    requires Inv(s) && Enabled(s, a) && Kept(s, d) && a.Free?
    ensures Kept(Step(s, a), d)
  {
    var s' := Step(s, a);
    FreeTable(s, a);
    if d in s'.devices && InHand(s, d) {
      HandStays(s, s', a.t, d);
    }
  }

  lemma EnterKept(s: State, a: Action, d: Id)
    requires Inv(s) && Enabled(s, a) && Kept(s, d) && a.Proceed?
    requires s.threads[a.t].Missed? && s.threads[a.t].extra.Some?
    ensures Kept(Step(s, a), d)
  {
    var s', n := Step(s, a), s.threads[a.t].extra.value;
    assert Thread(s, a.t);
    EnterTable(s, a);
    if d != n && d in s.devices && InHand(s, d) {
      HandStays(s, s', a.t, d);
    }
  }

  lemma LeaveKept(s: State, a: Action, d: Id)
    requires Inv(s) && Enabled(s, a) && Kept(s, d) && a.Proceed?
    requires s.threads[a.t].Dropped? && Count(s, s.threads[a.t].device) <= 1
    ensures Kept(Step(s, a), d)
  {
    var s' := Step(s, a);
    LeaveTable(s, a);
    if d == s.threads[a.t].device {
      assert Private(s'.threads[a.t]) == Some(d);
    } else if d in s.devices && InHand(s, d) {
      HandStays(s, s', a.t, d);
    }
  }

  /** A hit, a miss with nothing in hand, or a reference that is not the last. */
  lemma StayKept(s: State, a: Action, d: Id)
    requires Inv(s) && Enabled(s, a) && Kept(s, d) && a.Proceed?
    requires var pc := s.threads[a.t];
      pc.Found? || (pc.Missed? && pc.extra == None) || (pc.Dropped? && Count(s, pc.device) > 1)
    ensures Kept(Step(s, a), d)
  {
    var s' := Step(s, a);
    SameTableKeeps(s, s');
    if d in s.devices && InHand(s, d) {
      HandStays(s, s', a.t, d);
    }
  }

  lemma ProceedKept(s: State, a: Action, d: Id)
    requires Inv(s) && Enabled(s, a) && Kept(s, d) && a.Proceed?
    ensures Kept(Step(s, a), d)
  {
    var pc := s.threads[a.t];
    if pc.Missed? && pc.extra.Some? {
      EnterKept(s, a, d);
    } else if pc.Dropped? && Count(s, pc.device) <= 1 {
      LeaveKept(s, a, d);
    } else {
      StayKept(s, a, d);
    }
  }

  lemma StepKept(s: State, a: Action)
    requires Inv(s) && Enabled(s, a) && forall d :: Kept(s, d)
    ensures forall d :: Kept(Step(s, a), d)
  {
    forall d ensures Kept(Step(s, a), d) {
      if a.Allocate? {
        AllocateKept(s, a, d);
      } else if a.Free? {
        FreeKept(s, a, d);
      } else if a.Proceed? {
        ProceedKept(s, a, d);
      } else {
        PlainKept(s, a, d);
      }
    }
  }

  lemma {:induction false} RunKept(s: State, actions: seq<Action>)
    requires Inv(s) && Possible(s, actions) && forall d :: Kept(s, d)
    ensures forall d :: Kept(After(s, actions), d)
    decreases |actions|
  {
    if actions != [] {
      StepKept(s, actions[0]);
      StepKeeps(s, actions[0]);
      RunKept(Step(s, actions[0]), actions[1..]);
    }
  }

  /**
   * In every interleaving: a device stays in the table only while there is a reference to it, held or being given up,
   * and every structure out of the table is in the hands of a thread whose next steps enter or free it. When all
   * threads are idle, the structures that exist are exactly the devices that somebody holds.
   */
  lemma NothingLost(threads: set<Tid>, actions: seq<Action>)
    requires Possible(Start(threads), actions)
    ensures var s := After(Start(threads), actions);
      && (forall d :: InTable(s, d) ==> s.devices[d].refCount > 0)
      && (forall d :: d in s.devices && !InTable(s, d) ==> InHand(s, d))
      && ((forall t :: t in s.threads ==> s.threads[t] == Idle) ==> forall d :: d in s.devices <==> d in s.held)
  {
    var s := After(Start(threads), actions);
    StartHolds(threads);
    RunKeeps(Start(threads), actions);
    RunKept(Start(threads), actions);
    forall d ensures InTable(s, d) ==> s.devices[d].refCount > 0 {
      assert Kept(s, d);
      if InTable(s, d) && InHand(s, d) {
        var t :| t in s.threads && Private(s.threads[t]) == Some(d);
        assert Thread(s, t);
      }
    }
    forall d | d in s.devices && !InTable(s, d) ensures InHand(s, d) {
      assert Kept(s, d);
    }
    if forall t :: t in s.threads ==> s.threads[t] == Idle {
      forall d ensures d in s.devices <==> d in s.held {
        assert Safe(s, d) && Counted(s, d) && Kept(s, d);
        assert Claimants(s.threads, d) == {};
      }
    }
  }
}
