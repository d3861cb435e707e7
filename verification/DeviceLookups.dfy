/** Every lookup comes to a reference to the device that was asked for, and each takes a bounded number of steps. */
module DeviceLookups {
  import opened DeviceRefs
  import opened DeviceRefsProofs

  /** A thread is in device_lookup for a key, and has no reference yet. */
  predicate Looking(pc: Pc, key: Key) {
    (pc.Lookup? || pc.Found? || pc.Missed? || pc.Allocating?) && pc.key == key
  }

  /** One reference more, to a device in the table that has the key. */
  ghost predicate Gained(s: State, s': State, key: Key) {
    exists d :: s'.held == s.held + multiset{d} && InTable(s', d) && s'.devices[d].key == key
  }

  /**
   * What follows the search of the table. A thread goes on to allocate a structure exactly when no device in the table
   * has the key and it has no structure in hand; otherwise it gets one reference, to a device with that key.
   */
  lemma ProceedResult(s: State, t: Tid, key: Key)
    requires Inv(s) && Enabled(s, Proceed(t)) && Looking(s.threads[t], key)
    ensures var s' := Step(s, Proceed(t));
      && (s'.threads[t] == Allocating(key) <==> Absent(s, key) && Spare(s.threads[t]) == None)
      && (s'.threads[t] == Allocating(key) ==> s'.held == s.held && s'.devices == s.devices)
      && (s'.threads[t] != Allocating(key) ==>
            Gained(s, s', key) && (s'.threads[t] == Idle || s'.threads[t].Discarding?))
  {
    var s', pc := Step(s, Proceed(t)), s.threads[t];
    assert Thread(s, t);
    if pc.Found? {
      assert InTable(s, pc.device);
      assert InTable(s', pc.device) && s'.held == s.held + multiset{pc.device};
    } else if pc.extra.Some? {
      var n := pc.extra.value;
      EnterTable(s, Proceed(t));
      assert InTable(s', n) && s'.held == s.held + multiset{n};
    }
  }

  // ---------------------------------------------------------------- runs, step by step

  function StateAt(s: State, actions: seq<Action>, k: nat): State
    requires Possible(s, actions) && k <= |actions|
    decreases k
  {
    if k == 0 then s else StateAt(Step(s, actions[0]), actions[1..], k - 1)
  }

  lemma {:induction false} StateNext(s: State, actions: seq<Action>, k: nat)
    requires Possible(s, actions) && k < |actions|
    ensures Enabled(StateAt(s, actions, k), actions[k])
    ensures StateAt(s, actions, k + 1) == Step(StateAt(s, actions, k), actions[k])
    decreases k
  {
    if k > 0 {
      StateNext(Step(s, actions[0]), actions[1..], k - 1);
    }
  }

  lemma {:induction false} StateSound(s: State, actions: seq<Action>, k: nat)
    requires Inv(s) && Possible(s, actions) && k <= |actions|
    ensures Inv(StateAt(s, actions, k))
    decreases k
  {
    if k > 0 {
      StepKeeps(s, actions[0]);
      StateSound(Step(s, actions[0]), actions[1..], k - 1);
    }
  }

  /** A step leaves the places of the other threads alone. */
  lemma OthersStay(s: State, a: Action, t: Tid)
    requires Enabled(s, a) && t in s.threads
    ensures t in Step(s, a).threads
    ensures a.t != t ==> Step(s, a).threads[t] == s.threads[t]
  {
  }

  /** One step of a lookup: it stays one, or gets its reference, or gives back a structure it did not need. */
  lemma LookupStep(s: State, a: Action, t: Tid, key: Key)
    requires Inv(s) && Enabled(s, a) && t in s.threads && a.t == t
    requires Looking(s.threads[t], key) || s.threads[t].Discarding?
    ensures var s' := Step(s, a);
      && (Looking(s.threads[t], key) && !(a.Proceed? && Gained(s, s', key)) ==>
            Looking(s'.threads[t], key) && s'.held == s.held)
      && (Looking(s.threads[t], key) && a.Proceed? && Gained(s, s', key) ==>
            s'.threads[t] == Idle || s'.threads[t].Discarding?)
      && (s.threads[t].Discarding? ==> s'.threads[t] == Idle && s'.held == s.held)
  {
    if a.Proceed? && Looking(s.threads[t], key) {
      ProceedResult(s, t, key);
    }
  }

  /** At step k a run's references change by nothing. */
  ghost predicate Quiet(s: State, actions: seq<Action>, k: nat)
    requires Possible(s, actions) && k < |actions|
  {
    StateAt(s, actions, k + 1).held == StateAt(s, actions, k).held
  }

  /** Between two points of a run a thread takes no step that changes the references, but for one at most. */
  ghost predicate QuietBut(s: State, actions: seq<Action>, t: Tid, i: nat, m: nat, k: nat)
    requires Possible(s, actions) && m <= |actions|
  {
    forall n: nat :: i < n < m && n != k && actions[n].t == t ==> Quiet(s, actions, n)
  }

  /** Step k of a run gives a thread its reference. */
  ghost predicate GetsAt(s: State, actions: seq<Action>, t: Tid, key: Key, k: nat)
    requires Possible(s, actions) && k < |actions|
  {
    actions[k] == Proceed(t) && Gained(StateAt(s, actions, k), StateAt(s, actions, k + 1), key)
  }

  /** Where a thread stands at a point of a run. */
  ghost function PcAt(s: State, actions: seq<Action>, t: Tid, k: nat): Option<Pc>
    requires Possible(s, actions) && k <= |actions|
  {
    var now := StateAt(s, actions, k);
    if t in now.threads then Some(now.threads[t]) else None
  }

  /** A lookup that began at i, seen at m: still looking without a reference, or with the one it got. */
  ghost predicate LookupSeen(s: State, actions: seq<Action>, t: Tid, key: Key, i: nat, m: nat)
    requires Possible(s, actions) && i < m <= |actions|
  {
    && PcAt(s, actions, t, m).Some?
    && var pc := PcAt(s, actions, t, m).value;
    || (Looking(pc, key) && QuietBut(s, actions, t, i, m, i))
    || ((pc == Idle || pc.Discarding?) &&
        exists k: nat :: i < k < m && GetsAt(s, actions, t, key, k) && QuietBut(s, actions, t, i, m, k))
  }

  lemma LookupBegins(s: State, actions: seq<Action>, t: Tid, key: Key, i: nat)
    requires Possible(s, actions) && i < |actions| && actions[i] == Begin(t, key)
    ensures LookupSeen(s, actions, t, key, i, i + 1)
  {
    StateNext(s, actions, i);
  }

  /** One step of a run, seen from a lookup. */
  lemma LookupTurn(s: State, actions: seq<Action>, t: Tid, key: Key, m: nat)
    requires Inv(s) && Possible(s, actions) && m < |actions| && PcAt(s, actions, t, m).Some?
    requires var pc := PcAt(s, actions, t, m).value; Looking(pc, key) || pc.Discarding?
    ensures PcAt(s, actions, t, m + 1).Some?
    ensures var pc, pc' := PcAt(s, actions, t, m).value, PcAt(s, actions, t, m + 1).value;
      && (actions[m].t != t ==> pc' == pc)
      && (actions[m].t == t && Looking(pc, key) && GetsAt(s, actions, t, key, m) ==> pc' == Idle || pc'.Discarding?)
      && (actions[m].t == t && Looking(pc, key) && !GetsAt(s, actions, t, key, m) ==>
            Looking(pc', key) && Quiet(s, actions, m))
      && (actions[m].t == t && pc.Discarding? ==> pc' == Idle && Quiet(s, actions, m))
  {
    StateNext(s, actions, m);
    StateSound(s, actions, m);
    var now, a := StateAt(s, actions, m), actions[m];
    OthersStay(now, a, t);
    if a.t == t {
      LookupStep(now, a, t, key);
    }
  }

  lemma QuietMore(s: State, actions: seq<Action>, t: Tid, i: nat, m: nat, k: nat)
    requires Possible(s, actions) && m < |actions| && QuietBut(s, actions, t, i, m, k)
    requires actions[m].t != t || m == k || Quiet(s, actions, m)
    ensures QuietBut(s, actions, t, i, m + 1, k)
  {
  }

  lemma LookupGoesOn(s: State, actions: seq<Action>, t: Tid, key: Key, i: nat, m: nat)
    requires Inv(s) && Possible(s, actions) && i < m < |actions|
    requires LookupSeen(s, actions, t, key, i, m) && PcAt(s, actions, t, m) != Some(Idle)
    ensures LookupSeen(s, actions, t, key, i, m + 1)
  {
    LookupTurn(s, actions, t, key, m);
    if Looking(PcAt(s, actions, t, m).value, key) {
      if actions[m].t == t && GetsAt(s, actions, t, key, m) {
        assert QuietBut(s, actions, t, i, m, m);
        QuietMore(s, actions, t, i, m, m);
      } else {
        QuietMore(s, actions, t, i, m, i);
      }
    } else {
      var k: nat :| i < k < m && GetsAt(s, actions, t, key, k) && QuietBut(s, actions, t, i, m, k);
      QuietMore(s, actions, t, i, m, k);
    }
  }

  lemma {:induction false} LookupSoFar(s: State, actions: seq<Action>, t: Tid, key: Key, i: nat, m: nat)
    requires Inv(s) && Possible(s, actions) && i < m <= |actions| && actions[i] == Begin(t, key)
    requires forall n: nat :: i < n < m ==> PcAt(s, actions, t, n) != Some(Idle)
    ensures LookupSeen(s, actions, t, key, i, m)
    decreases m
  {
    if m == i + 1 {
      LookupBegins(s, actions, t, key, i);
    } else {
      LookupSoFar(s, actions, t, key, i, m - 1);
      LookupGoesOn(s, actions, t, key, i, m - 1);
    }
  }

  /**
   * In every interleaving: a thread that has begun a lookup and is idle again has got exactly one reference on the way,
   * at one step, to a device that was then in the table and has the operations and the number asked for.
   */
  lemma EveryLookupGets(threads: set<Tid>, actions: seq<Action>, t: Tid, key: Key, i: nat, j: nat)
    requires Possible(Start(threads), actions) && i < j <= |actions| && actions[i] == Begin(t, key)
    requires PcAt(Start(threads), actions, t, j) == Some(Idle)
    requires forall n: nat :: i < n < j ==> PcAt(Start(threads), actions, t, n) != Some(Idle)
    ensures exists k: nat ::
      i < k < j && GetsAt(Start(threads), actions, t, key, k) && QuietBut(Start(threads), actions, t, i, j, k)
  {
    StartHolds(threads);
    LookupSoFar(Start(threads), actions, t, key, i, j);
  }

  // ---------------------------------------------------------------- a lookup has an end

  /** Steps left to a thread in a lookup, at most. */
  function Remaining(pc: Pc): nat {
    match pc
    case Lookup(_, spare) => if spare == None then 6 else 3
    case Missed(_, spare) => if spare == None then 5 else 1
    case Allocating(_) => 4
    case Found(_, _, spare) => if spare == None then 1 else 2
    case Discarding(_) => 1
    case _ => 0
  }

  /** Every step of its thread brings a lookup nearer to its end, and no other thread's step sets it back. */
  lemma LookupProgress(s: State, a: Action, t: Tid, key: Key)
    requires Inv(s) && Enabled(s, a) && t in s.threads
    requires Looking(s.threads[t], key) || s.threads[t].Discarding?
    ensures t in Step(s, a).threads
    ensures a.t == t ==> Remaining(Step(s, a).threads[t]) < Remaining(s.threads[t])
    ensures a.t != t ==> Step(s, a).threads[t] == s.threads[t]
  {
    OthersStay(s, a, t);
  }

  lemma {:induction false} FreshId(ids: set<Id>)
    ensures exists id: Id :: id !in ids
  {
    var bound := Bound(ids);
    assert bound !in ids;
  }

  ghost function Bound(ids: set<Id>): (b: nat)
    ensures forall id :: id in ids ==> id < b
  {
    if ids == {} then 0 else
    var id :| id in ids;
    var rest := ids - {id};
    var b := Bound(rest);
    assert forall other :: other in ids ==> other == id || other in rest;
    if id < b then b else id + 1
  }

  /** The thread has a step to take, unless another one holds the lock, which can give it up. */
  lemma LookupMoves(s: State, t: Tid, key: Key)
    requires Inv(s) && t in s.threads && (Looking(s.threads[t], key) || s.threads[t].Discarding?)
    ensures (exists a: Action :: a.t == t && Enabled(s, a))
      || (s.lock.Some? && s.lock.value != t && Enabled(s, Proceed(s.lock.value)))
  {
    var pc := s.threads[t];
    if pc.Lookup? && s.lock.Some? {
      assert Thread(s, t) && Thread(s, s.lock.value);
    } else if pc.Allocating? {
      FreshId(s.devices.Keys);
      var id: Id :| id !in s.devices.Keys;
      assert Enabled(s, Allocate(t, id));
    } else {
      var a := if pc.Lookup? then TakeLock(t) else if pc.Discarding? then Free(t) else Proceed(t);
      assert Enabled(s, a);
    }
  }
}
