/** Doubly linked queues: a ring of links that starts at a header. */
module QueueLinks {

  class Link {
    var next: Link
    var prev: Link

    constructor ()
      ensures next == this && prev == this
    {
      next, prev := this, this;
    }
  }

  function After(ring: seq<Link>, i: nat): Link
    requires i < |ring|
  {
    ring[if i + 1 == |ring| then 0 else i + 1]
  }

  ghost predicate Joined(ring: seq<Link>, i: nat)
    requires i < |ring|
    reads ring
  {
    ring[i].next == After(ring, i) && After(ring, i).prev == ring[i]
  }

  /** A ring of distinct links, the header first. */
  ghost predicate Ring(ring: seq<Link>)
    reads ring
  {
    && (forall i, j :: 0 <= i < j < |ring| ==> ring[i] != ring[j])
    && (forall i :: 0 <= i < |ring| ==> Joined(ring, i))
  }

  /** reorder_queue: two neighbours change places, and the rest of the ring stays. */
  method ReorderQueue(first: Link, last: Link, ghost ring: seq<Link>, ghost k: nat)
    requires Ring(ring) && 0 < k && k + 1 < |ring| && ring[k] == first && ring[k + 1] == last
    modifies ring
    ensures Ring(ring[k := last][k + 1 := first])
  {
    assert Joined(ring, k - 1) && Joined(ring, k + 1);
    var prev, next := first.prev, last.next;
    assert prev == ring[k - 1] && next == After(ring, k + 1);
    prev.next := last;
    next.prev := first;
    last.prev := prev;
    last.next := first;
    first.next := next;
    first.prev := last;
    ghost var now := ring[k := last][k + 1 := first];
    forall i | 0 <= i < |now| ensures Joined(now, i) {
      assert old(Joined(ring, i));
    }
  }
}
