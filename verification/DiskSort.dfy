/** Insertion keeps the chain in two opposite runs, over every run of arrivals and completions. */
module DiskSort {
  import opened DiskOrder

  lemma {:induction false} AdvanceStops(c: seq<int>, k: nat, rule: Rule)
    requires 1 <= k <= |c|
    ensures forall j :: k <= j < Advance(c, k, rule) ==> Passes(rule, c[j - 1], c[j])
    ensures var r := Advance(c, k, rule); r < |c| ==> !Passes(rule, c[r - 1], c[r])
    decreases |c| - k
  {
    if k < |c| && Passes(rule, c[k - 1], c[k]) {
      AdvanceStops(c, k + 1, rule);
    }
  }

  ghost predicate Mirrored(c: seq<int>, m: seq<int>) {
    |m| == |c| && forall i :: 0 <= i < |c| ==> m[i] == -c[i]
  }

  function MirrorRule(rule: Rule): Rule {
    match rule
    case Level => Level
    case RisingTo(c) => FallingTo(-c)
    case FallingTo(c) => RisingTo(-c)
    case Rising => Falling
    case Falling => Rising
    case Above(c) => Under(-c)
    case Under(c) => Above(-c)
  }

  lemma {:induction false} MirrorAdvance(c: seq<int>, m: seq<int>, k: nat, rule: Rule)
    requires Mirrored(c, m) && 1 <= k <= |c|
    ensures Advance(m, k, MirrorRule(rule)) == Advance(c, k, rule)
    decreases |c| - k
  {
    if k < |c| {
      assert m[k - 1] == -c[k - 1] && m[k] == -c[k];
      if Passes(rule, c[k - 1], c[k]) {
        MirrorAdvance(c, m, k + 1, rule);
      }
    }
  }

  lemma MirrorRising(c: seq<int>, m: seq<int>, k: nat, x: int)
    requires Mirrored(c, m) && 1 <= k < |c|
    ensures FallingPlace(m, k, -x) == RisingPlace(c, k, x)
  {
    if c[k - 1] <= x {
      MirrorAdvance(c, m, k, RisingTo(x));
    } else {
      MirrorAdvance(c, m, k + 1, Rising);
      MirrorAdvance(c, m, Advance(c, k + 1, Rising), Above(x));
    }
  }

  lemma MirrorFalling(c: seq<int>, m: seq<int>, k: nat, x: int)
    requires Mirrored(c, m) && 1 <= k < |c|
    ensures RisingPlace(m, k, -x) == FallingPlace(c, k, x)
  {
    if c[k - 1] >= x {
      MirrorAdvance(c, m, k, FallingTo(x));
    } else {
      MirrorAdvance(c, m, k + 1, Falling);
      MirrorAdvance(c, m, Advance(c, k + 1, Falling), Under(x));
    }
  }

  /** The two halves of the routine are mirror images. */
  lemma MirrorPosition(c: seq<int>, m: seq<int>, x: int)
    requires Mirrored(c, m)
    ensures Position(m, -x) == Position(c, x)
  {
    if c != [] {
      MirrorAdvance(c, m, 1, Level);
      var k := Advance(c, 1, Level);
      if k < |c| {
        AdvanceStops(c, 1, Level);
        assert m[k - 1] == -c[k - 1] && m[k] == -c[k];
        MirrorRising(c, m, k, x);
        MirrorFalling(c, m, k, x);
      }
    }
  }

  lemma MirrorShape(c: seq<int>, m: seq<int>, k: int)
    requires Mirrored(c, m)
    ensures UpThenDown(m, k) <==> DownThenUp(c, k)
  {
  }

  /** The leading requests all wait for the head's cylinder. */
  lemma LevelPrefix(c: seq<int>, j: nat)
    requires c != [] && j < Advance(c, 1, Level)
    ensures c[j] == c[0]
  {
    AdvanceStops(c, 1, Level);
    if j > 0 {
      LevelPrefix(c, j - 1);
      assert Passes(Level, c[j - 1], c[j]);
    }
  }

  /** A chain whose cylinders first change upwards has its rising run first. */
  lemma RisingFirst(c: seq<int>) returns (k: int)
    requires c != [] && Sweep(c)
    requires var n := Advance(c, 1, Level); n < |c| && c[n - 1] < c[n]
    ensures UpThenDown(c, k) && Advance(c, 1, Level) < k
  {
    var n := Advance(c, 1, Level);
    forall j | 0 <= j < n ensures c[j] == c[0] {
      LevelPrefix(c, j);
    }
    k :| UpThenDown(c, k) || DownThenUp(c, k);
    if !UpThenDown(c, k) {
      assert k == n;
      k := |c|;
    }
  }

  /** Where the insertion loop ends when the request joins a rising run that comes first. */
  lemma RisingPosition(c: seq<int>, k: int, n: nat, x: int)
    requires UpThenDown(c, k) && 1 <= n < k && x >= c[0]
    requires forall j :: 0 <= j < n ==> c[j] == c[0]
    ensures var p := Advance(c, n, RisingTo(x));
      p <= k && (forall j :: 0 <= j < p ==> c[j] <= x) && (forall j :: p <= j < k ==> c[j] > x)
  {
    AdvanceStops(c, n, RisingTo(x));
    var p := Advance(c, n, RisingTo(x));
    forall j | 0 <= j < p ensures c[j] <= x {
      if j >= n {
        assert Passes(RisingTo(x), c[j - 1], c[j]);
      }
    }
    if k < |c| {
      assert c[0] <= c[k - 1];
      assert !Passes(RisingTo(x), c[k - 1], c[k]);
    }
  }

  /** Where the two loops end when the request joins the falling run behind it. */
  lemma BehindPosition(c: seq<int>, k: int, n: nat, x: int)
    requires UpThenDown(c, k) && 1 <= n < k && x < c[0]
    ensures Advance(c, n + 1, Rising) == k
    ensures var p := Advance(c, k, Above(x));
      p >= k && (forall j :: k <= j < p ==> c[j] >= x) && (forall j :: p <= j < |c| ==> c[j] < x)
  {
    AdvanceStops(c, n + 1, Rising);
    if k < |c| {
      assert c[0] <= c[k - 1];
      assert !Passes(Rising, c[k - 1], c[k]);
    }
    AdvanceStops(c, k, Above(x));
    forall j | k <= j < Advance(c, k, Above(x)) ensures c[j] >= x {
      assert Passes(Above(x), c[j - 1], c[j]);
    }
  }

  lemma InsertAt<T>(c: seq<T>, p: nat, x: T, i: nat)
    requires p <= |c| && i <= |c|
    ensures Insert(c, p, x)[i] == if i < p then c[i] else if i == p then x else c[i - 1]
  {
  }

  /** Insertion in the rising run. */
  lemma InsertRising(c: seq<int>, k: int, p: nat, x: int)
    requires UpThenDown(c, k) && 1 <= p <= k && x >= c[0]
    requires (forall j :: 0 <= j < p ==> c[j] <= x) && (forall j :: p <= j < k ==> c[j] > x)
    ensures UpThenDown(Insert(c, p, x), k + 1)
  {
    var r := Insert(c, p, x);
    forall i | 0 <= i < |r| ensures r[i] == if i < p then c[i] else if i == p then x else c[i - 1] {
      InsertAt(c, p, x, i);
    }
  }

  /** Insertion in the falling run behind it. */
  lemma InsertFalling(c: seq<int>, k: int, p: nat, x: int)
    requires UpThenDown(c, k) && k <= p <= |c| && x < c[0]
    requires (forall j :: k <= j < p ==> c[j] >= x) && (forall j :: p <= j < |c| ==> c[j] < x)
    ensures UpThenDown(Insert(c, p, x), k)
  {
    var r := Insert(c, p, x);
    forall i | 0 <= i < |r| ensures r[i] == if i < p then c[i] else if i == p then x else c[i - 1] {
      InsertAt(c, p, x, i);
    }
  }

  /** Nothing behind the place the routine finds waits for the same cylinder; and the runs are kept. */
  lemma RisingInsert(c: seq<int>, x: int)
    requires c != [] && Sweep(c)
    requires var n := Advance(c, 1, Level); n < |c| && c[n - 1] < c[n]
    ensures Fits(c, Position(c, x), x)
  {
    var k := RisingFirst(c);
    var n := Advance(c, 1, Level);
    forall j | 0 <= j < n ensures c[j] == c[0] {
      LevelPrefix(c, j);
    }
    if x >= c[0] {
      RisingPosition(c, k, n, x);
      InsertRising(c, k, Position(c, x), x);
    } else {
      BehindPosition(c, k, n, x);
      InsertFalling(c, k, Position(c, x), x);
    }
  }

  /** All requests wait for one cylinder: the new one goes last. */
  lemma LevelInsert(c: seq<int>, x: int)
    requires c != [] && Advance(c, 1, Level) == |c|
    ensures Position(c, x) == |c|
    ensures Sweep(Insert(c, |c|, x))
  {
    var r := Insert(c, |c|, x);
    forall j | 0 <= j < |c| ensures r[j] == c[0] {
      LevelPrefix(c, j);
    }
    if x >= c[0] {
      assert UpThenDown(r, |c| + 1);
    } else {
      assert UpThenDown(r, |c|);
    }
  }

  lemma MirrorExists(c: seq<int>) returns (m: seq<int>)
    ensures Mirrored(c, m)
  {
    m := seq(|c|, i requires 0 <= i < |c| => -c[i]);
  }

  lemma MirrorSweep(c: seq<int>, m: seq<int>)
    requires Mirrored(c, m)
    ensures Sweep(c) ==> Sweep(m)
  {
    if c != [] && Sweep(c) {
      var k :| UpThenDown(c, k) || DownThenUp(c, k);
      MirrorShape(c, m, k);
      MirrorShape(m, c, k);
    }
  }

  /** The chain keeps its shape, and requests for one cylinder keep their order of arrival. */
  lemma SortKeepsSweep(c: seq<int>, x: int)
    requires Sweep(c)
    ensures Fits(c, Position(c, x), x)
  {
    if c == [] {
      assert UpThenDown(Insert(c, 0, x), 1);
    } else {
      var n := Advance(c, 1, Level);
      AdvanceStops(c, 1, Level);
      if n == |c| {
        LevelInsert(c, x);
      } else if c[n - 1] < c[n] {
        RisingInsert(c, x);
      } else {
        FallingInsert(c, x);
      }
    }
  }

  lemma MirrorInsert(c: seq<int>, m: seq<int>, p: nat, x: int)
    requires Mirrored(c, m) && p <= |c|
    ensures Mirrored(Insert(m, p, -x), Insert(c, p, x))
  {
    forall i: nat | i <= |c| ensures Insert(c, p, x)[i] == -Insert(m, p, -x)[i] {
      InsertAt(c, p, x, i);
      InsertAt(m, p, -x, i);
    }
  }

  /** A chain that first changes downwards is the mirror image of one that first changes upwards. */
  lemma MirrorRises(c: seq<int>, m: seq<int>)
    requires c != [] && Mirrored(c, m)
    requires var n := Advance(c, 1, Level); n < |c| && c[n - 1] > c[n]
    ensures var n := Advance(m, 1, Level); n < |m| && m[n - 1] < m[n]
  {
    MirrorAdvance(c, m, 1, Level);
    var n := Advance(c, 1, Level);
    assert m[n - 1] == -c[n - 1] && m[n] == -c[n];
  }

  lemma FallingInsert(c: seq<int>, x: int)
    requires c != [] && Sweep(c)
    requires var n := Advance(c, 1, Level); n < |c| && c[n - 1] > c[n]
    ensures Fits(c, Position(c, x), x)
  {
    var m := MirrorExists(c);
    MirrorRises(c, m);
    MirrorSweep(c, m);
    FallingByMirror(c, m, x);
  }

  lemma FallingByMirror(c: seq<int>, m: seq<int>, x: int)
    requires c != [] && Mirrored(c, m) && Sweep(m)
    requires var n := Advance(m, 1, Level); n < |m| && m[n - 1] < m[n]
    ensures Fits(c, Position(c, x), x)
  {
    RisingInsert(m, -x);
    MirrorPosition(c, m, x);
    MirrorBack(c, m, Position(c, x), x);
  }

  lemma MirrorBack(c: seq<int>, m: seq<int>, p: nat, x: int)
    requires Mirrored(c, m) && p <= |c|
    ensures Fits(m, p, -x) ==> Fits(c, p, x)
  {
    MirrorInsert(c, m, p, x);
    MirrorSweep(Insert(m, p, -x), Insert(c, p, x));
    if Fits(m, p, -x) {
      forall j | p <= j < |c| ensures c[j] != x {
        assert m[j] == -c[j];
      }
    }
  }

  /** Serving the head keeps the shape. */
  lemma ServeKeepsSweep(c: seq<int>)
    requires c != [] && Sweep(c)
    ensures Sweep(c[1..])
  {
    var r := c[1..];
    if r != [] {
      var k :| UpThenDown(c, k) || DownThenUp(c, k);
      if UpThenDown(c, k) {
        assert if k > 1 then UpThenDown(r, k - 1) else DownThenUp(r, |r|);
      } else {
        assert if k > 1 then DownThenUp(r, k - 1) else UpThenDown(r, |r|);
      }
    }
  }

  /** Serving the chain as it stands changes direction at most once. */
  lemma OneReversal(c: seq<int>)
    requires Sweep(c) && c != []
    ensures exists k :: 1 <= k <= |c| && ((Up(c, 0, k) && Down(c, k - 1, |c|)) || (Down(c, 0, k) && Up(c, k - 1, |c|)))
  {
    var k :| UpThenDown(c, k) || DownThenUp(c, k);
    if UpThenDown(c, k) {
      assert Up(c, 0, k) && Down(c, k - 1, |c|) by {
        assert c[0] <= c[k - 1];
      }
    } else {
      assert Down(c, 0, k) && Up(c, k - 1, |c|) by {
        assert c[0] >= c[k - 1];
      }
    }
  }

  /**
   * A request beyond the head joins the sweep in progress, ahead of everything on the other side, exactly
   * when the first request for another cylinder is not on the other side. When it is, the chain counts as
   * falling first, and the new request waits for the way back.
   */
  lemma JoinsSweepIff(c: seq<int>, x: int)
    requires Sweep(c) && c != [] && x > c[0]
    ensures (forall j :: 0 <= j < |c| && c[j] < c[0] ==> Position(c, x) <= j) <==>
      var n := Advance(c, 1, Level); n == |c| || c[n] > c[0]
  {
    var n := Advance(c, 1, Level);
    AdvanceStops(c, 1, Level);
    forall j | 0 <= j < n ensures c[j] == c[0] {
      LevelPrefix(c, j);
    }
    if n < |c| {
      if c[n] > c[0] {
        var k := RisingFirst(c);
        RisingPosition(c, k, n, x);
      } else {
        assert c[n] < c[0] && n < Position(c, x);
      }
    }
  }

  /** The same below the head. */
  lemma JoinsSweepDownIff(c: seq<int>, x: int)
    requires Sweep(c) && c != [] && x < c[0]
    ensures (forall j :: 0 <= j < |c| && c[j] > c[0] ==> Position(c, x) <= j) <==>
      var n := Advance(c, 1, Level); n == |c| || c[n] < c[0]
  {
    var m := MirrorExists(c);
    MirrorSweep(c, m);
    JoinsSweepIff(m, -x);
    MirrorPosition(c, m, x);
    MirrorAdvance(c, m, 1, Level);
    MirrorAbove(c, m, Position(c, x));
  }

  lemma MirrorAbove(c: seq<int>, m: seq<int>, p: nat)
    requires c != [] && Mirrored(c, m)
    ensures (forall j :: 0 <= j < |c| && c[j] > c[0] ==> p <= j) <==>
            (forall j :: 0 <= j < |m| && m[j] < m[0] ==> p <= j)
  {
    assert forall j :: 0 <= j < |c| ==> m[j] == -c[j];
  }

  /** Behind cylinders 10 and 5, a request for 20 waits until the arm has been to 5. */
  lemma WaitsForTheWayBack()
    ensures Sweep([10, 5]) && Position([10, 5], 20) == 2
  {
    var c := [10, 5];
    assert DownThenUp(c, 2);
    assert Advance(c, 1, Level) == 1;
  }

  // ---------------------------------------------------------------- runs

  /** A queued request: its cylinder, and when it arrived. */
  datatype Waiting = Waiting(cylinder: int, arrival: nat)

  datatype Event = Arrive(cylinder: int) | Serve

  function CylindersOf(q: seq<Waiting>): (c: seq<int>)
    ensures |c| == |q|
    ensures forall i :: 0 <= i < |q| ==> c[i] == q[i].cylinder
  {
    seq(|q|, i requires 0 <= i < |q| => q[i].cylinder)
  }

  function Enqueue(q: seq<Waiting>, w: Waiting): seq<Waiting> {
    Insert(q, Position(CylindersOf(q), w.cylinder), w)
  }

  /** The queue after a run of arrivals and completions. */
  function QueueAfter(events: seq<Event>): seq<Waiting> {
    if events == [] then [] else
    var q := QueueAfter(events[..|events| - 1]);
    match events[|events| - 1]
    case Arrive(c) => Enqueue(q, Waiting(c, |events| - 1))
    case Serve => if q == [] then [] else q[1..]
  }

  /** Requests for one cylinder wait in the order they arrived. */
  ghost predicate InOrder(q: seq<Waiting>) {
    forall i, j :: 0 <= i < j < |q| && q[i].cylinder == q[j].cylinder ==> q[i].arrival < q[j].arrival
  }

  ghost predicate ArrivedBefore(q: seq<Waiting>, now: nat) {
    forall i :: 0 <= i < |q| ==> q[i].arrival < now
  }

  lemma EnqueueKeeps(q: seq<Waiting>, c: int, now: nat)
    requires Sweep(CylindersOf(q)) && InOrder(q) && ArrivedBefore(q, now)
    ensures var r := Enqueue(q, Waiting(c, now));
      Sweep(CylindersOf(r)) && InOrder(r) && ArrivedBefore(r, now + 1)
    ensures q != [] ==> Enqueue(q, Waiting(c, now))[0] == q[0]
  {
    var cs, w := CylindersOf(q), Waiting(c, now);
    SortKeepsSweep(cs, c);
    InsertWaiting(q, Position(cs, c), w);
    EnqueueInOrder(q, Position(cs, c), w);
    InsertAt(q, Position(cs, c), w, 0);
  }

  lemma InsertWaiting(q: seq<Waiting>, p: nat, w: Waiting)
    requires p <= |q|
    ensures CylindersOf(Insert(q, p, w)) == Insert(CylindersOf(q), p, w.cylinder)
  {
    forall i: nat | i <= |q| ensures CylindersOf(Insert(q, p, w))[i] == Insert(CylindersOf(q), p, w.cylinder)[i] {
      InsertAt(q, p, w, i);
      InsertAt(CylindersOf(q), p, w.cylinder, i);
    }
  }

  lemma EnqueueInOrder(q: seq<Waiting>, p: nat, w: Waiting)
    requires p <= |q| && InOrder(q) && ArrivedBefore(q, w.arrival)
    requires forall j :: p <= j < |q| ==> q[j].cylinder != w.cylinder
    ensures InOrder(Insert(q, p, w)) && ArrivedBefore(Insert(q, p, w), w.arrival + 1)
  {
    var r := Insert(q, p, w);
    forall i: nat | i < |r| ensures r[i] == if i < p then q[i] else if i == p then w else q[i - 1] {
      InsertAt(q, p, w, i);
    }
  }

  /** Over every run from an empty chain: two opposite runs, and same-cylinder requests in order of arrival. */
  lemma {:induction false} EveryRunSweeps(events: seq<Event>)
    ensures Sweep(CylindersOf(QueueAfter(events)))
    ensures InOrder(QueueAfter(events))
    ensures ArrivedBefore(QueueAfter(events), |events|)
  {
    if events != [] {
      var before := events[..|events| - 1];
      EveryRunSweeps(before);
      var q := QueueAfter(before);
      match events[|events| - 1]
      case Arrive(c) =>
        EnqueueKeeps(q, c, |events| - 1);
      case Serve =>
        if q != [] {
          ServeKeepsSweep(CylindersOf(q));
          assert CylindersOf(q[1..]) == CylindersOf(q)[1..];
        }
    }
  }
}
