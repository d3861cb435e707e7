/**
 * Device structures shared by threads: looked up by name, referenced, and freed with the last reference.
 * Each step is what one thread does under one lock; between steps any other thread may run.
 */
module DeviceRefs {

  type Tid = nat
  type Id = nat
  datatype Option<T> = None | Some(value: T)

  /** Device operations and minor number: what a name stands for. */
  datatype Key = Key(ops: nat, number: nat)

  datatype Device = Device(key: Key, refCount: nat)

  /** Where a thread is. Found, Missed and Dropped hold the number-table lock. */
  datatype Pc =
    | Idle
    | Lookup(key: Key, extra: Option<Id>)
    | Found(key: Key, device: Id, extra: Option<Id>)
    | Missed(key: Key, extra: Option<Id>)
    | Allocating(key: Key)
    | Discarding(spare: Id)
    | Dropping(device: Id)
    | Dropped(device: Id)
    | Freeing(device: Id)

  datatype State = State(
    devices: map<Id, Device>,
    buckets: seq<seq<Id>>,
    lock: Option<Tid>,
    threads: map<Tid, Pc>,
    held: multiset<Id>)

  function Hash(key: Key): nat {
    key.number % 8
  }

  datatype Action =
    | Begin(t: Tid, key: Key)          // device_lookup is called
    | TakeLock(t: Tid)                 // takes the table lock, and searches or goes on to the second decrement
    | Proceed(t: Tid)                  // what follows, up to releasing the lock
    | Allocate(t: Tid, id: Id)         // zalloc
    | Free(t: Tid)                     // zfree
    | Reference(t: Tid, device: Id)    // device_reference by a holder
    | Deallocate(t: Tid, device: Id)   // the first half of device_deallocate by a holder

  /** The device of a bucket that has a key. */
  function Find(devices: map<Id, Device>, bucket: seq<Id>, key: Key): Option<Id> {
    if bucket == [] then None
    else if bucket[0] in devices && devices[bucket[0]].key == key then Some(bucket[0])
    else Find(devices, bucket[1..], key)
  }

  function Remove(bucket: seq<Id>, d: Id): seq<Id> {
    if bucket == [] then [] else if bucket[0] == d then bucket[1..] else [bucket[0]] + Remove(bucket[1..], d)
  }

  predicate Enabled(s: State, a: Action) {
    && a.t in s.threads
    && var pc := s.threads[a.t];
       match a
       case Begin(_, _) => pc == Idle
       case TakeLock(_) => s.lock == None && (pc.Lookup? || pc.Dropping?)
       case Proceed(_) => pc.Found? || pc.Missed? || pc.Dropped?
       case Allocate(_, id) => pc.Allocating? && id !in s.devices
       case Free(_) => pc.Discarding? || pc.Freeing?
       case Reference(_, d) => pc == Idle && d in s.held
       case Deallocate(_, d) => pc == Idle && d in s.held
  }

  function Count(s: State, d: Id): nat {
    if d in s.devices then s.devices[d].refCount else 0
  }

  function WithCount(s: State, d: Id, n: nat): State {
    if d in s.devices then s.(devices := s.devices[d := s.devices[d].(refCount := n)]) else s
  }

  function Goto(s: State, t: Tid, pc: Pc): State {
    s.(threads := s.threads[t := pc])
  }

  function Bucket(s: State, key: Key): seq<Id> {
    if Hash(key) < |s.buckets| then s.buckets[Hash(key)] else []
  }

  function WithBucket(s: State, key: Key, b: seq<Id>): State {
    if Hash(key) < |s.buckets| then s.(buckets := s.buckets[Hash(key) := b]) else s
  }

  /** device_lookup and device_deallocate under the table lock, up to its release. */
  function Critical(s: State, t: Tid, pc: Pc): State
    requires pc.Found? || pc.Missed? || pc.Dropped?
  {
    var s := s.(lock := None);
    match pc
    case Found(key, d, spare) =>
      var s := WithCount(s, d, Count(s, d) + 1).(held := s.held + multiset{d});
      Goto(s, t, if spare.Some? then Discarding(spare.value) else Idle)
    case Missed(key, None) => Goto(s, t, Allocating(key))
    case Missed(key, Some(n)) =>
      Goto(WithBucket(s, key, Bucket(s, key) + [n]).(held := s.held + multiset{n}), t, Idle)
    case Dropped(d) =>
      if Count(s, d) > 1 then Goto(WithCount(s, d, Count(s, d) - 1), t, Idle)
      else
        var key := if d in s.devices then s.devices[d].key else Key(0, 0);
        Goto(WithBucket(WithCount(s, d, 0), key, Remove(Bucket(s, key), d)), t, Freeing(d))
  }

  function Step(s: State, a: Action): State
    requires Enabled(s, a)
  {
    var pc := s.threads[a.t];
    match a
    case Begin(t, key) => Goto(s, t, Lookup(key, None))
    case TakeLock(t) =>
      var s := s.(lock := Some(t));
      if pc.Dropping? then Goto(s, t, Dropped(pc.device)) else
      var hit := Find(s.devices, Bucket(s, pc.key), pc.key);
      Goto(s, t, if hit.Some? then Found(pc.key, hit.value, pc.extra) else Missed(pc.key, pc.extra))
    case Proceed(t) => Critical(s, t, pc)
    case Allocate(t, id) => Goto(s.(devices := s.devices[id := Device(pc.key, 1)]), t, Lookup(pc.key, Some(id)))
    case Free(t) =>
      var d := if pc.Discarding? then pc.spare else pc.device;
      Goto(s.(devices := s.devices - {d}), t, Idle)
    case Reference(t, d) => WithCount(s, d, Count(s, d) + 1).(held := s.held + multiset{d})
    case Deallocate(t, d) =>
      var s := s.(held := s.held - multiset{d});
      if Count(s, d) > 1 then WithCount(s, d, Count(s, d) - 1)
      else Goto(WithCount(s, d, 1), t, Dropping(d))
  }

  // ---------------------------------------------------------------- the invariant

  ghost predicate InTable(s: State, d: Id) {
    d in s.devices && Hash(s.devices[d].key) < |s.buckets| && d in s.buckets[Hash(s.devices[d].key)]
  }

  /** A structure that a thread has allocated and not entered in the table. */
  function Spare(pc: Pc): Option<Id> {
    match pc
    case Lookup(_, n) => n
    case Found(_, _, n) => n
    case Missed(_, n) => n
    case Discarding(n) => Some(n)
    case _ => None
  }

  /** A thread accounts for one of a device's references: one it is giving up, or the one of a spare. */
  predicate Claims(pc: Pc, d: Id) {
    ((pc.Dropping? || pc.Dropped?) && pc.device == d) || Spare(pc) == Some(d)
  }

  function Claimants(threads: map<Tid, Pc>, d: Id): set<Tid> {
    set t | t in threads && Claims(threads[t], d)
  }

  predicate Locking(pc: Pc) {
    pc.Found? || pc.Missed? || pc.Dropped?
  }

  ghost predicate NoRepeats(q: seq<Id>) {
    forall i, j :: 0 <= i < j < |q| ==> q[i] != q[j]
  }

  /** A bucket holds devices that hash to it, each once. */
  ghost predicate BucketOk(devices: map<Id, Device>, q: seq<Id>, b: nat) {
    NoRepeats(q) && forall d :: d in q ==> d in devices && Hash(devices[d].key) == b
  }

  /** No two devices in the table have the same operations and number. */
  ghost predicate Distinct(s: State, d: Id, e: Id) {
    InTable(s, d) && InTable(s, e) && s.devices[d].key == s.devices[e].key ==> d == e
  }

  ghost predicate Table(s: State) {
    && |s.buckets| == 8
    && (forall b :: 0 <= b < 8 ==> BucketOk(s.devices, s.buckets[b], b))
    && (forall d, e :: Distinct(s, d, e))
  }

  /** What a thread may rely on. */
  ghost predicate Thread(s: State, t: Tid)
    requires t in s.threads
  {
    var pc := s.threads[t];
    && (Locking(pc) <==> s.lock == Some(t))
    && (Spare(pc).Some? ==>
          && Spare(pc).value in s.devices
          && !InTable(s, Spare(pc).value)
          && s.devices[Spare(pc).value].refCount == 1
          && (pc.Discarding? || s.devices[Spare(pc).value].key == pc.key))
    && (pc.Found? ==> InTable(s, pc.device) && s.devices[pc.device].key == pc.key)
    && (pc.Missed? ==> Absent(s, pc.key))
    && (pc.Dropping? || pc.Dropped? ==> InTable(s, pc.device))
    && (pc.Freeing? ==> pc.device in s.devices && s.devices[pc.device].refCount == 0 && !InTable(s, pc.device))
  }

  ghost predicate Absent(s: State, key: Key) {
    forall d :: InTable(s, d) ==> s.devices[d].key != key
  }

  /** The structure that a thread alone knows: its spare, or one it is freeing. */
  function Private(pc: Pc): Option<Id> {
    if pc.Freeing? then Some(pc.device) else Spare(pc)
  }

  ghost predicate Apart(s: State, t: Tid, u: Tid) {
    t in s.threads && u in s.threads && t != u && Private(s.threads[t]).Some? ==>
      Private(s.threads[t]) != Private(s.threads[u])
  }

  /** The reference count is the number of references outstanding, those that threads account for included. */
  ghost predicate Counted(s: State, d: Id) {
    d in s.devices ==> s.devices[d].refCount == s.held[d] + |Claimants(s.threads, d)|
  }

  ghost predicate Safe(s: State, d: Id) {
    d in s.held ==> InTable(s, d)
  }

  ghost predicate Inv(s: State) {
    && Table(s)
    && (forall t :: t in s.threads ==> Thread(s, t))
    && (s.lock.Some? ==> s.lock.value in s.threads)
    && (forall t, u :: Apart(s, t, u))
    && (forall d :: Counted(s, d))
    && (forall d :: Safe(s, d))
  }
}
