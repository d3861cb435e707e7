/** Every interleaving keeps the reference counts exact and the table free of duplicates. */
module DeviceRefsProofs {
  import opened DeviceRefs

  function OtherClaimants(threads: map<Tid, Pc>, t: Tid, d: Id): set<Tid> {
    set u | u in threads && u != t && Claims(threads[u], d)
  }

  lemma ClaimantsSplit(threads: map<Tid, Pc>, t: Tid, d: Id)
    requires t in threads
    ensures |Claimants(threads, d)| == |OtherClaimants(threads, t, d)| + if Claims(threads[t], d) then 1 else 0
  {
    var others := OtherClaimants(threads, t, d);
    assert Claimants(threads, d) == if Claims(threads[t], d) then others + {t} else others;
  }

  /** Moving one thread changes the claims on a device by that thread's claim only. */
  lemma ClaimantsAfter(threads: map<Tid, Pc>, t: Tid, pc: Pc, d: Id)
    requires t in threads
    ensures |Claimants(threads[t := pc], d)| ==
      |Claimants(threads, d)| - (if Claims(threads[t], d) then 1 else 0) + (if Claims(pc, d) then 1 else 0)
  {
    ClaimantsSplit(threads, t, d);
    ClaimantsSplit(threads[t := pc], t, d);
    assert OtherClaimants(threads[t := pc], t, d) == OtherClaimants(threads, t, d);
  }

  /** Steps that leave devices' keys and the buckets alone leave the table alone. */
  ghost predicate SameTable(s: State, s': State) {
    && s'.buckets == s.buckets
    && s'.devices.Keys == s.devices.Keys
    && forall d :: d in s.devices ==> s'.devices[d].key == s.devices[d].key
  }

  lemma SameTableKeeps(s: State, s': State)
    requires Table(s) && SameTable(s, s')
    ensures Table(s')
    ensures forall d :: InTable(s', d) <==> InTable(s, d)
    ensures forall key :: Absent(s, key) ==> Absent(s', key)
  {
    assert forall d :: InTable(s', d) <==> InTable(s, d);
    forall d, e ensures Distinct(s', d, e) {
      assert Distinct(s, d, e);
    }
    forall b | 0 <= b < 8 ensures BucketOk(s'.devices, s'.buckets[b], b) {
      assert BucketOk(s.devices, s.buckets[b], b);
    }
  }

  /** Structures that threads alone know stay apart when a thread moves on without a new one. */
  lemma ApartStill(s: State, s': State, t: Tid)
    requires (forall u, v :: Apart(s, u, v)) && t in s.threads && t in s'.threads
    requires s'.threads == s.threads[t := s'.threads[t]]
    requires Private(s'.threads[t]).Some? ==> Private(s'.threads[t]) == Private(s.threads[t])
    ensures forall u, v :: Apart(s', u, v)
  {
    forall u, v ensures Apart(s', u, v) {
      assert Apart(s, u, v);
    }
  }

  lemma BeginKeeps(s: State, a: Action)
    requires Inv(s) && Enabled(s, a) && a.Begin?
    ensures Inv(Step(s, a))
  {
    var s' := Step(s, a);
    SameTableKeeps(s, s');
    forall d ensures Counted(s', d) && Safe(s', d) {
      assert Counted(s, d) && Safe(s, d);
      ClaimantsAfter(s.threads, a.t, s'.threads[a.t], d);
    }
    forall t | t in s'.threads ensures Thread(s', t) {
      assert Thread(s, t);
    }
    forall t, u ensures Apart(s', t, u) {
      assert Apart(s, t, u);
    }
  }

  lemma ReferenceKeeps(s: State, a: Action)
    requires Inv(s) && Enabled(s, a) && a.Reference?
    ensures Inv(Step(s, a))
  {
    var s' := Step(s, a);
    assert Safe(s, a.device);
    SameTableKeeps(s, s');
    forall d ensures Counted(s', d) && Safe(s', d) {
      assert Counted(s, d) && Safe(s, d);
    }
    forall t | t in s'.threads ensures Thread(s', t) {
      assert Thread(s, t);
    }
    forall t, u ensures Apart(s', t, u) {
      assert Apart(s, t, u);
    }
  }

  // ---------------------------------------------------------------- the search

  lemma {:induction false} FindHits(devices: map<Id, Device>, q: seq<Id>, key: Key)
    ensures Find(devices, q, key).Some? ==>
      var d := Find(devices, q, key).value; d in q && d in devices && devices[d].key == key
    ensures Find(devices, q, key) == None ==> forall d :: d in q && d in devices ==> devices[d].key != key
  {
    if q != [] && !(q[0] in devices && devices[q[0]].key == key) {
      FindHits(devices, q[1..], key);
      assert forall d :: d in q ==> d == q[0] || d in q[1..];
    }
  }

  lemma TakeLockThreads(s: State, a: Action, t: Tid)
    requires Inv(s) && Enabled(s, a) && a.TakeLock? && t in Step(s, a).threads
    ensures Thread(Step(s, a), t)
  {
    var pc := s.threads[a.t];
    assert Thread(s, a.t) && Thread(s, t);
    SameTableKeeps(s, Step(s, a));
    if t == a.t && pc.Lookup? {
      FindHits(s.devices, Bucket(s, pc.key), pc.key);
    }
  }

  lemma TakeLockKeeps(s: State, a: Action)
    requires Inv(s) && Enabled(s, a) && a.TakeLock?
    ensures Inv(Step(s, a))
  {
    var s' := Step(s, a);
    SameTableKeeps(s, s');
    forall d ensures Counted(s', d) && Safe(s', d) {
      assert Counted(s, d) && Safe(s, d);
      ClaimantsAfter(s.threads, a.t, s'.threads[a.t], d);
    }
    forall t | t in s'.threads ensures Thread(s', t) {
      TakeLockThreads(s, a, t);
    }
    ApartStill(s, s', a.t);
  }

  // ---------------------------------------------------------------- allocation and release of structures

  /** A device that a thread accounts for exists. */
  lemma ClaimedExists(s: State, d: Id)
    requires Inv(s) && d !in s.devices
    ensures Claimants(s.threads, d) == {} && s.held[d] == 0
    ensures forall t :: t in s.threads ==> Private(s.threads[t]) != Some(d)
  {
    forall t | t in s.threads ensures !Claims(s.threads[t], d) && Private(s.threads[t]) != Some(d) {
      assert Thread(s, t);
    }
    assert Safe(s, d);
  }

  lemma AllocateTable(s: State, a: Action)
    requires Inv(s) && Enabled(s, a) && a.Allocate?
    ensures var s' := Step(s, a); Table(s') && forall d :: InTable(s', d) <==> InTable(s, d)
  {
    var s' := Step(s, a);
    forall b | 0 <= b < 8 ensures BucketOk(s'.devices, s'.buckets[b], b) && a.id !in s'.buckets[b] {
      assert BucketOk(s.devices, s.buckets[b], b);
    }
    assert forall d :: InTable(s', d) <==> InTable(s, d);
    forall d, e ensures Distinct(s', d, e) {
      assert Distinct(s, d, e);
    }
  }

  lemma AllocateKeeps(s: State, a: Action)
    requires Inv(s) && Enabled(s, a) && a.Allocate?
    ensures Inv(Step(s, a))
  {
    var s' := Step(s, a);
    AllocateTable(s, a);
    ClaimedExists(s, a.id);
    assert Thread(s, a.t);
    forall d ensures Counted(s', d) && Safe(s', d) {
      assert Counted(s, d) && Safe(s, d);
      ClaimantsAfter(s.threads, a.t, s'.threads[a.t], d);
    }
    forall t | t in s'.threads ensures Thread(s', t) {
      assert Thread(s, t);
    }
    forall t, u ensures Apart(s', t, u) {
      assert Apart(s, t, u);
    }
  }

  lemma FreeTable(s: State, a: Action)
    requires Inv(s) && Enabled(s, a) && a.Free?
    ensures var s' := Step(s, a); Table(s') && forall d :: InTable(s', d) <==> InTable(s, d)
  {
    var s', n := Step(s, a), Private(s.threads[a.t]).value;
    assert Thread(s, a.t);
    forall b | 0 <= b < 8 ensures BucketOk(s'.devices, s'.buckets[b], b) && n !in s'.buckets[b] {
      assert BucketOk(s.devices, s.buckets[b], b);
    }
    assert forall d :: InTable(s', d) <==> InTable(s, d);
    forall d, e ensures Distinct(s', d, e) {
      assert Distinct(s, d, e);
    }
  }

  lemma FreeKeeps(s: State, a: Action)
    requires Inv(s) && Enabled(s, a) && a.Free?
    ensures Inv(Step(s, a))
  {
    var s', n := Step(s, a), Private(s.threads[a.t]).value;
    FreeTable(s, a);
    assert Thread(s, a.t);
    forall d ensures Counted(s', d) && Safe(s', d) {
      assert Counted(s, d) && Safe(s, d);
      ClaimantsAfter(s.threads, a.t, s'.threads[a.t], d);
    }
    forall t | t in s'.threads ensures Thread(s', t) {
      assert Thread(s, t) && Apart(s, a.t, t);
    }
    forall t, u ensures Apart(s', t, u) {
      assert Apart(s, t, u);
    }
  }

  // ---------------------------------------------------------------- giving up a reference

  lemma DeallocateCounts(s: State, a: Action, d: Id)
    requires Inv(s) && Enabled(s, a) && a.Deallocate?
    ensures Counted(Step(s, a), d) && Safe(Step(s, a), d)
  {
    var s' := Step(s, a);
    assert Safe(s, a.device) && Counted(s, a.device);
    assert Counted(s, d) && Safe(s, d);
    ClaimantsAfter(s.threads, a.t, s'.threads[a.t], d);
    assert s.threads[a.t := s.threads[a.t]] == s.threads;
  }

  lemma DeallocateKeeps(s: State, a: Action)
    requires Inv(s) && Enabled(s, a) && a.Deallocate?
    ensures Inv(Step(s, a))
  {
    var s' := Step(s, a);
    assert Safe(s, a.device) && Counted(s, a.device);
    SameTableKeeps(s, s');
    forall d ensures Counted(s', d) && Safe(s', d) {
      DeallocateCounts(s, a, d);
    }
    forall t | t in s'.threads ensures Thread(s', t) {
      assert Thread(s, t);
    }
    assert s.threads[a.t := s.threads[a.t]] == s.threads;
    ApartStill(s, s', a.t);
  }

  // ---------------------------------------------------------------- under the table lock

  lemma ProceedCounts(s: State, a: Action, d: Id)
    requires Inv(s) && Enabled(s, a) && a.Proceed?
    requires var pc := s.threads[a.t];
      pc.Found? || (pc.Missed? && pc.extra == None) || (pc.Dropped? && Count(s, pc.device) > 1)
    ensures Counted(Step(s, a), d) && Safe(Step(s, a), d)
  {
    var s' := Step(s, a);
    assert Thread(s, a.t);
    SameTableKeeps(s, s');
    assert Counted(s, d) && Safe(s, d);
    ClaimantsAfter(s.threads, a.t, s'.threads[a.t], d);
  }

  lemma ProceedThreads(s: State, a: Action, t: Tid)
    requires Inv(s) && Enabled(s, a) && a.Proceed? && t in Step(s, a).threads
    requires var pc := s.threads[a.t];
      pc.Found? || (pc.Missed? && pc.extra == None) || (pc.Dropped? && Count(s, pc.device) > 1)
    ensures Thread(Step(s, a), t)
  {
    assert Thread(s, a.t) && Thread(s, t);
    SameTableKeeps(s, Step(s, a));
  }

  /**
   * A hit: the device gains a reference, and a structure allocated for nothing becomes a spare to discard; a miss
   * with nothing allocated; or a reference that is not the last.
   */
  lemma ProceedQuietly(s: State, a: Action)
    requires Inv(s) && Enabled(s, a) && a.Proceed?
    requires var pc := s.threads[a.t];
      pc.Found? || (pc.Missed? && pc.extra == None) || (pc.Dropped? && Count(s, pc.device) > 1)
    ensures Inv(Step(s, a))
  {
    var s' := Step(s, a);
    SameTableKeeps(s, s');
    forall d ensures Counted(s', d) && Safe(s', d) {
      ProceedCounts(s, a, d);
    }
    forall t | t in s'.threads ensures Thread(s', t) {
      ProceedThreads(s, a, t);
    }
    ApartStill(s, s', a.t);
  }

  lemma EnterTable(s: State, a: Action)
    requires Inv(s) && Enabled(s, a) && a.Proceed? && s.threads[a.t].Missed? && s.threads[a.t].extra.Some?
    ensures var s', n := Step(s, a), s.threads[a.t].extra.value;
      Table(s') && forall d :: InTable(s', d) <==> InTable(s, d) || d == n
  {
    var s', pc := Step(s, a), s.threads[a.t];
    var n := pc.extra.value;
    assert Thread(s, a.t);
    forall b | 0 <= b < 8 ensures BucketOk(s'.devices, s'.buckets[b], b) {
      assert BucketOk(s.devices, s.buckets[b], b);
    }
    assert forall d :: InTable(s', d) <==> InTable(s, d) || d == n;
    forall d, e ensures Distinct(s', d, e) {
      assert Distinct(s, d, e);
    }
  }

  /** The structure allocated with the table unlocked goes in: nobody has entered the same device meanwhile. */
  lemma EnterKeeps(s: State, a: Action)
    requires Inv(s) && Enabled(s, a) && a.Proceed? && s.threads[a.t].Missed? && s.threads[a.t].extra.Some?
    ensures Inv(Step(s, a))
  {
    var s', n := Step(s, a), s.threads[a.t].extra.value;
    EnterTable(s, a);
    assert Thread(s, a.t) && Safe(s, n);
    forall d ensures Counted(s', d) && Safe(s', d) {
      assert Counted(s, d) && Safe(s, d);
      ClaimantsAfter(s.threads, a.t, s'.threads[a.t], d);
    }
    forall t | t in s'.threads ensures Thread(s', t) {
      assert Thread(s, t) && Apart(s, a.t, t);
    }
    forall t, u ensures Apart(s', t, u) {
      assert Apart(s, t, u);
    }
  }

  lemma {:induction false} RemoveOne(q: seq<Id>, d: Id)
    requires NoRepeats(q)
    ensures NoRepeats(Remove(q, d)) && forall e :: e in Remove(q, d) <==> e in q && e != d
  {
    if q != [] {
      assert forall e :: e in q <==> e == q[0] || e in q[1..];
      if q[0] != d {
        RemoveOne(q[1..], d);
        var rest := Remove(q[1..], d);
        assert Remove(q, d) == [q[0]] + rest;
        forall j | 0 <= j < |rest| ensures rest[j] != q[0] {
          assert rest[j] in rest && q[0] !in q[1..];
        }
      }
    }
  }

  lemma LeaveTable(s: State, a: Action)
    requires Inv(s) && Enabled(s, a) && a.Proceed? && s.threads[a.t].Dropped? && Count(s, s.threads[a.t].device) <= 1
    ensures var s', d := Step(s, a), s.threads[a.t].device;
      Table(s') && forall e :: InTable(s', e) <==> InTable(s, e) && e != d
  {
    var s', d := Step(s, a), s.threads[a.t].device;
    assert Thread(s, a.t);
    RemoveOne(Bucket(s, s.devices[d].key), d);
    forall b | 0 <= b < 8 ensures BucketOk(s'.devices, s'.buckets[b], b) {
      assert BucketOk(s.devices, s.buckets[b], b);
    }
    assert forall e :: InTable(s', e) <==> InTable(s, e) && e != d;
    forall e, f ensures Distinct(s', e, f) {
      assert Distinct(s, e, f);
    }
  }

  /** The last reference: nobody else holds one or is giving one up. */
  lemma LastReference(s: State, t: Tid)
    requires Inv(s) && t in s.threads && s.threads[t].Dropped? && Count(s, s.threads[t].device) <= 1
    ensures s.held[s.threads[t].device] == 0
    ensures Claimants(s.threads, s.threads[t].device) == {t}
  {
    var d := s.threads[t].device;
    assert Thread(s, t) && Counted(s, d);
    var c := Claimants(s.threads, d);
    assert t in c;
    if u :| u in c && u != t {
      assert |c - {t}| >= 1 by {
        assert u in c - {t};
      }
    }
  }

  lemma LeaveKeeps(s: State, a: Action)
    requires Inv(s) && Enabled(s, a) && a.Proceed? && s.threads[a.t].Dropped? && Count(s, s.threads[a.t].device) <= 1
    ensures Inv(Step(s, a))
  {
    var s', d := Step(s, a), s.threads[a.t].device;
    LeaveTable(s, a);
    LastReference(s, a.t);
    assert Thread(s, a.t);
    forall e ensures Counted(s', e) && Safe(s', e) {
      assert Counted(s, e) && Safe(s, e);
      ClaimantsAfter(s.threads, a.t, s'.threads[a.t], e);
    }
    forall t | t in s'.threads ensures Thread(s', t) {
      assert Thread(s, t);
      assert t != a.t ==> t !in Claimants(s.threads, d);
    }
    forall t, u ensures Apart(s', t, u) {
      assert Apart(s, t, u);
      assert t in s.threads ==> Thread(s, t);
      assert u in s.threads ==> Thread(s, u);
    }
  }

  // ---------------------------------------------------------------- every run

  lemma StepKeeps(s: State, a: Action)
    requires Inv(s) && Enabled(s, a)
    ensures Inv(Step(s, a))
  {
    match a
    case Begin(_, _) => BeginKeeps(s, a);
    case TakeLock(_) => TakeLockKeeps(s, a);
    case Allocate(_, _) => AllocateKeeps(s, a);
    case Free(_) => FreeKeeps(s, a);
    case Reference(_, _) => ReferenceKeeps(s, a);
    case Deallocate(_, _) => DeallocateKeeps(s, a);
    case Proceed(t) =>
      var pc := s.threads[t];
      if pc.Missed? && pc.extra.Some? {
        EnterKeeps(s, a);
      } else if pc.Dropped? && Count(s, pc.device) <= 1 {
        LeaveKeeps(s, a);
      } else {
        ProceedQuietly(s, a);
      }
  }

  /** No devices, an empty table, and some threads with nothing to do. */
  function Start(threads: set<Tid>): State {
    State(map[], seq(8, _ => []), None, map t | t in threads :: Idle, multiset{})
  }

  lemma StartHolds(threads: set<Tid>)
    ensures Inv(Start(threads))
  {
    var s := Start(threads);
    assert forall t :: t in s.threads ==> Thread(s, t);
    assert forall d, e :: Distinct(s, d, e);
  }

  /** A run: each action is possible when it is taken. */
  ghost predicate Possible(s: State, actions: seq<Action>)
    decreases |actions|
  {
    actions != [] ==> Enabled(s, actions[0]) && Possible(Step(s, actions[0]), actions[1..])
  }

  function After(s: State, actions: seq<Action>): State
    requires Possible(s, actions)
    decreases |actions|
  {
    if actions == [] then s else After(Step(s, actions[0]), actions[1..])
  }

  lemma {:induction false} RunKeeps(s: State, actions: seq<Action>)
    requires Inv(s) && Possible(s, actions)
    ensures Inv(After(s, actions))
    decreases |actions|
  {
    if actions != [] {
      StepKeeps(s, actions[0]);
      RunKeeps(Step(s, actions[0]), actions[1..]);
    }
  }

  /** Threads that are between the two halves of giving up a reference. */
  function Droppers(s: State, d: Id): set<Tid> {
    set t | t in s.threads && (s.threads[t].Dropping? || s.threads[t].Dropped?) && s.threads[t].device == d
  }

  /**
   * In every interleaving of lookups, references and deallocations by any threads: the count of a device in
   * the table is the number of references to it, held or being given up; whoever holds a reference holds a
   * live device that is in the table; and the table never has two devices with the same operations and number.
   */
  lemma EveryInterleaving(threads: set<Tid>, actions: seq<Action>)
    requires Possible(Start(threads), actions)
    ensures var s := After(Start(threads), actions);
      && (forall d :: InTable(s, d) ==> s.devices[d].refCount == s.held[d] + |Droppers(s, d)|)
      && (forall d :: d in s.held ==> InTable(s, d))
      && (forall d, e :: InTable(s, d) && InTable(s, e) && s.devices[d].key == s.devices[e].key ==> d == e)
  {
    StartHolds(threads);
    RunKeeps(Start(threads), actions);
    InvMeans(After(Start(threads), actions));
  }

  lemma InvMeans(s: State)
    requires Inv(s)
    ensures forall d :: InTable(s, d) ==> s.devices[d].refCount == s.held[d] + |Droppers(s, d)|
    ensures forall d :: d in s.held ==> InTable(s, d)
    ensures forall d, e :: InTable(s, d) && InTable(s, e) && s.devices[d].key == s.devices[e].key ==> d == e
  {
    forall d | InTable(s, d) ensures s.devices[d].refCount == s.held[d] + |Droppers(s, d)| {
      assert Counted(s, d);
      forall t | t in s.threads ensures t in Droppers(s, d) <==> t in Claimants(s.threads, d) {
        assert Thread(s, t);
      }
      assert Droppers(s, d) == Claimants(s.threads, d);
    }
    forall d | d in s.held ensures InTable(s, d) {
      assert Safe(s, d);
    }
    forall d, e | InTable(s, d) && InTable(s, e) && s.devices[d].key == s.devices[e].key ensures d == e {
      assert Distinct(s, d, e);
    }
  }

  /** A structure is freed only when no reference to it is left, none is being given up, and it is not in the table. */
  lemma FreedOnlyUnreferenced(s: State, a: Action)
    requires Inv(s) && Enabled(s, a) && a.Free?
    ensures var d := Private(s.threads[a.t]).value;
      && d in s.devices && d !in s.held && !InTable(s, d)
      && (forall t :: t in s.threads && t != a.t ==> !Claims(s.threads[t], d) && Private(s.threads[t]) != Some(d))
      && (forall t :: t in s.threads && s.threads[t].Found? ==> s.threads[t].device != d)
  {
    var d := Private(s.threads[a.t]).value;
    assert Thread(s, a.t) && Safe(s, d);
    forall t | t in s.threads && t != a.t ensures !Claims(s.threads[t], d) && Private(s.threads[t]) != Some(d) {
      assert Thread(s, t) && Apart(s, a.t, t);
    }
    forall t | t in s.threads && s.threads[t].Found? ensures s.threads[t].device != d {
      assert Thread(s, t);
    }
  }

  /** The same over every run: whatever has happened, a structure about to be freed is nobody else's. */
  lemma EveryRunFreesUnreferenced(threads: set<Tid>, actions: seq<Action>, a: Action)
    requires Possible(Start(threads), actions)
    requires Enabled(After(Start(threads), actions), a) && a.Free?
    ensures var s := After(Start(threads), actions);
      var d := Private(s.threads[a.t]).value;
      && d in s.devices && d !in s.held && !InTable(s, d)
      && (forall t :: t in s.threads && t != a.t ==> !Claims(s.threads[t], d) && Private(s.threads[t]) != Some(d))
      && (forall t :: t in s.threads && s.threads[t].Found? ==> s.threads[t].device != d)
  {
    StartHolds(threads);
    RunKeeps(Start(threads), actions);
    FreedOnlyUnreferenced(After(Start(threads), actions), a);
  }
}
