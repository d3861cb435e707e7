/** The linked chain of disk requests that disksort edits in place. */
module RequestChain {
  import opened DiskOrder
  import opened DiskSort

  /** A request; the driver fills in its cylinder before queueing it and leaves it alone while it is queued. */
  class IoReq {
    const cylinder: int
    var next: IoReq?

    constructor (c: int)
      ensures cylinder == c
    {
      cylinder := c;
      next := null;
    }
  }

  function Cylinders(reqs: seq<IoReq>): (c: seq<int>)
    ensures |c| == |reqs|
  {
    seq(|reqs|, i requires 0 <= i < |reqs| => reqs[i].cylinder)
  }

  class Queue {
    var head: IoReq?
    var tail: IoReq?
    ghost var reqs: seq<IoReq>

    /** The links follow reqs, and the tail pointer is right whenever the chain is not empty. */
    ghost predicate Valid()
      reads this, reqs
    {
      && (head == null <==> reqs == [])
      && (reqs != [] ==> head == reqs[0] && tail == reqs[|reqs| - 1])
      && Linked(reqs)
      && Distinct(reqs)
    }

    constructor ()
      ensures Valid() && reqs == []
    {
      head := null;
      tail := null;
      reqs := [];
    }

    /** The neighbours of place k. */
    ghost predicate Between(prev: IoReq, next: IoReq?, k: nat)
      reads this
    {
      1 <= k <= |reqs| && prev == reqs[k - 1] && next == Link(reqs, k)
    }

    /** A loop of the routine: moves on while there is a next request and the rule allows it. */
    method Walk(start: IoReq, rule: Rule, ghost c: seq<int>, ghost k: nat)
      returns (prev: IoReq, next: IoReq?, ghost r: nat)
      requires Valid() && c == Cylinders(reqs) && 1 <= k <= |reqs| && start == reqs[k - 1]
      ensures r == Advance(c, k, rule)
      ensures Between(prev, next, r)
    {
      prev, next, r := start, start.next, k;
      while next != null && Passes(rule, prev.cylinder, next.cylinder)
        invariant Between(prev, next, r)
        invariant Advance(c, r, rule) == Advance(c, k, rule)
        decreases |reqs| - r
      {
        prev, r := next, r + 1;
        next := prev.next;
      }
    }

    method FindRising(start: IoReq, second: IoReq, x: int, ghost c: seq<int>, ghost n: nat)
      returns (prev: IoReq, next: IoReq?, ghost k: nat)
      requires Valid() && c == Cylinders(reqs) && Between(start, second, n) && n < |c|
      ensures k == RisingPlace(c, n, x)
      ensures Between(prev, next, k)
    {
      if start.cylinder <= x {
        prev, next, k := Walk(start, RisingTo(x), c, n);
      } else {
        prev, next, k := Walk(second, Rising, c, n + 1);
        prev, next, k := Walk(prev, Above(x), c, k);
      }
    }

    method FindFalling(start: IoReq, second: IoReq, x: int, ghost c: seq<int>, ghost n: nat)
      returns (prev: IoReq, next: IoReq?, ghost k: nat)
      requires Valid() && c == Cylinders(reqs) && Between(start, second, n) && n < |c|
      ensures k == FallingPlace(c, n, x)
      ensures Between(prev, next, k)
    {
      if start.cylinder >= x {
        prev, next, k := Walk(start, FallingTo(x), c, n);
      } else {
        prev, next, k := Walk(second, Falling, c, n + 1);
        prev, next, k := Walk(prev, Under(x), c, k);
      }
    }

    /** The neighbours between which a request for a cylinder goes, in a chain that is not empty. */
    method FindPlace(x: int, ghost c: seq<int>) returns (prev: IoReq, next: IoReq?, ghost k: nat)
      requires Valid() && c == Cylinders(reqs) && head != null
      ensures k == Position(c, x)
      ensures Between(prev, next, k)
    {
      prev, next, k := Walk(head, Level, c, 1);
      if next == null {
        return;
      }
      if prev.cylinder < next.cylinder {
        prev, next, k := FindRising(prev, next, x, c, k);
      } else {
        prev, next, k := FindFalling(prev, next, x, c, k);
      }
    }

    /** disksort: the chain gains the request at the place Position says, and its head stays if it had one. */
    method Sort(ior: IoReq)
      requires Valid() && ior !in reqs
      modifies this, ior, reqs
      ensures Valid()
      ensures reqs == Insert(old(reqs), Position(Cylinders(old(reqs)), ior.cylinder), ior)
      ensures old(head) != null ==> head == old(head)
    {
      if head == null {
        head := ior;
        tail := ior;
        ior.next := null;
        reqs := [ior];
      } else {
        var prev, next, k := FindPlace(ior.cylinder, Cylinders(reqs));
        Splice(prev, next, ior, k);
      }
    }

    /** Inserts between prev and next. */
    method Splice(prev: IoReq, next: IoReq?, ior: IoReq, ghost k: nat)
      requires Valid() && ior !in reqs
      requires Between(prev, next, k)
      modifies this, ior, prev
      ensures Valid() && head == old(head)
      ensures reqs == Insert(old(reqs), k, ior)
    {
      ghost var before := reqs;
      prev.next := ior;
      ior.next := next;
      if next == null {
        tail := ior;
      }
      reqs := Insert(reqs, k, ior);
      DistinctInsert(before, k, ior);
      forall i: nat | i < |reqs| ensures reqs[i].next == Link(reqs, i + 1) {
        LinkInsert(before, k, ior, i);
      }
      InsertAt(before, k, ior, 0);
      InsertAt(before, k, ior, |before|);
    }

    /** What the driver does when the request at the head is finished. */
    method RemoveHead() returns (ior: IoReq)
      requires Valid() && head != null
      modifies this
      ensures Valid()
      ensures ior == old(reqs)[0] && reqs == old(reqs)[1..]
    {
      ior := head;
      head := head.next;
      reqs := reqs[1..];
    }
  }

  /** What follows position k - 1 of a chain. */
  ghost function Link(reqs: seq<IoReq>, k: nat): IoReq? {
    if k < |reqs| then reqs[k] else null
  }

  ghost predicate Distinct(reqs: seq<IoReq>) {
    forall i, j :: 0 <= i < j < |reqs| ==> reqs[i] != reqs[j]
  }

  /** The links of a chain with one more request, from the links it had. */
  lemma LinkInsert(reqs: seq<IoReq>, k: nat, ior: IoReq, i: nat)
    requires Distinct(reqs) && 1 <= k <= |reqs| && ior !in reqs && i <= |reqs|
    ensures i < k - 1 ==>
      Insert(reqs, k, ior)[i] == reqs[i] != reqs[k - 1] && Link(Insert(reqs, k, ior), i + 1) == Link(reqs, i + 1)
    ensures i == k - 1 ==> Insert(reqs, k, ior)[i] == reqs[i] && Link(Insert(reqs, k, ior), i + 1) == ior
    ensures i == k ==> Insert(reqs, k, ior)[i] == ior && Link(Insert(reqs, k, ior), i + 1) == Link(reqs, i)
    ensures i > k ==>
      Insert(reqs, k, ior)[i] == reqs[i - 1] != reqs[k - 1] && Link(Insert(reqs, k, ior), i + 1) == Link(reqs, i)
  {
    InsertAt(reqs, k, ior, i);
    if i < |reqs| {
      InsertAt(reqs, k, ior, i + 1);
    }
  }

  lemma DistinctInsert(reqs: seq<IoReq>, k: nat, ior: IoReq)
    requires Distinct(reqs) && k <= |reqs| && ior !in reqs
    ensures Distinct(Insert(reqs, k, ior))
  {
    var r := Insert(reqs, k, ior);
    forall i: nat, j: nat | i < j < |r| ensures r[i] != r[j] {
      InsertAt(reqs, k, ior, i);
      InsertAt(reqs, k, ior, j);
    }
  }

  ghost predicate Linked(reqs: seq<IoReq>)
    reads reqs
  {
    forall i: nat {:trigger reqs[i]} :: i < |reqs| ==> reqs[i].next == Link(reqs, i + 1)
  }
}
