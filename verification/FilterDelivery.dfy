/** A delivery serves the clients as they were promised. */
module FilterDelivery {

  import opened FilterList

  /** The cases of the walk, by the room that is left. */
  lemma ReceiversStep(accepts: Accepts, list: seq<Entry>, packet: Packet, first: bool, buffers: nat)
    requires list != []
    ensures var ports, room := Receivers(accepts, list, packet, first, buffers), if first then buffers + 1 else buffers;
            && (!accepts(list[0].program, packet) ==> ports == Receivers(accepts, list[1..], packet, first, buffers))
            && (accepts(list[0].program, packet) && room == 0 ==> ports == [])
            && (accepts(list[0].program, packet) && room > 0 && list[0].priority >= NET_HI_PRI ==>
                  ports == [list[0].port])
            && (accepts(list[0].program, packet) && room > 0 && list[0].priority < NET_HI_PRI ==>
                  ports == [list[0].port] + Receivers(accepts, list[1..], packet, false, room - 1))
  {
  }

  lemma {:induction false} ReceiversServed(accepts: Accepts, list: seq<Entry>, reg: Registry, packet: Packet,
                                           first: bool, buffers: nat, room: nat)
    requires Ordered(list, reg, first) && room == if first then buffers + 1 else buffers
    ensures Fair(WantingIn(accepts, list, packet), reg, room, Receivers(accepts, list, packet, first, buffers))
    decreases |list|
  {
    if list == [] {
      NobodyServed({}, reg, room);
    } else {
      ReceiversStep(accepts, list, packet, first, buffers);
      OrderedTail(list, reg, first);
      if !accepts(list[0].program, packet) {
        ReceiversServed(accepts, list[1..], reg, packet, first, buffers, room);
        assert WantingIn(accepts, list, packet) == WantingIn(accepts, list[1..], packet);
      } else {
        var rest := if room == 0 then [] else Receivers(accepts, list[1..], packet, false, room - 1);
        if room > 0 && list[0].priority < NET_HI_PRI {
          ReceiversServed(accepts, list[1..], reg, packet, false, room - 1, room - 1);
        }
        HeadLeads(accepts, list, reg, packet);
        assert Backed(list[0], reg);
        HeadServed(WantingIn(accepts, list[1..], packet), reg, room, list[0].port,
                   Receivers(accepts, list, packet, first, buffers), rest);
      }
    }
  }

  /** The head of the list wants the packet. */
  lemma HeadServed(others: set<Port>, reg: Registry, room: nat, p: Port, ports: seq<Port>, rest: seq<Port>)
    requires others <= reg.Keys && p in reg
    requires forall q :: q in others ==> q != p && reg[q].priority <= reg[p].priority
    requires room == 0 ==> reg[p].priority < NET_HI_PRI && ports == []
    requires room > 0 && reg[p].priority >= NET_HI_PRI ==> ports == [p]
    requires room > 0 && reg[p].priority < NET_HI_PRI ==> Fair(others, reg, room - 1, rest) && ports == [p] + rest
    ensures Fair({p} + others, reg, room, ports)
  {
    if room == 0 {
      NobodyServed({p} + others, reg, room);
    } else if reg[p].priority >= NET_HI_PRI {
      HighAlone(others, reg, room, p);
    } else {
      LowAhead(others, reg, room - 1, p, rest);
    }
  }

  /** The walk over a list that is right serves the registered filters fairly. */
  lemma WalkServes(accepts: Accepts, list: seq<Entry>, reg: Registry, packet: Packet, buffers: nat)
    requires Kept(list, reg)
    ensures Served(accepts, reg, packet, buffers, Receivers(accepts, list, packet, true, buffers))
  {
    ReceiversServed(accepts, list, reg, packet, true, buffers, buffers + 1);
    WantingSame(accepts, list, reg, packet);
  }

  // ---------------------------------------------------------------- counting and promotion

  /** Every receiver's count goes up by one. */
  function Credited(list: seq<Entry>, ports: seq<Port>): seq<Entry> {
    seq(|list|, i requires 0 <= i < |list| =>
      if list[i].port in ports then list[i].(count := list[i].count + 1) else list[i])
  }

  /** A high-priority filter moves ahead of an equal neighbour that it has outrun by more than a hundred. */
  function Promote(list: seq<Entry>, k: nat): seq<Entry>
    requires k < |list|
  {
    if k > 0 && list[k].priority == list[k - 1].priority && 100 + list[k - 1].count < list[k].count
    then list[k - 1 := list[k]][k := list[k - 1]]
    else list
  }

  lemma CreditedKeeps(list: seq<Entry>, reg: Registry, ports: seq<Port>)
    requires Kept(list, reg)
    ensures Kept(Credited(list, ports), reg)
  {
    var credited := Credited(list, ports);
    forall i | 0 <= i < |credited| ensures Backed(credited[i], reg) {
      assert Backed(list[i], reg);
    }
    forall p | p in reg ensures Has(credited, p) {
      assert Has(list, p);
      var i :| 0 <= i < |list| && list[i].port == p;
      assert credited[i].port == p;
    }
  }

  /** Where the entry at i goes when two neighbours are exchanged. */
  function Across(k: nat, i: nat): nat {
    if k > 0 && i == k then k - 1 else if i + 1 == k then k else i
  }

  ghost predicate Exchanged(list: seq<Entry>, k: nat, swapped: seq<Entry>) {
    0 < k < |list| == |swapped| && forall i :: 0 <= i < |list| ==> swapped[i] == list[Across(k, i)]
  }

  lemma SwapRepresents(list: seq<Entry>, reg: Registry, k: nat, swapped: seq<Entry>)
    requires Represents(list, reg) && Exchanged(list, k, swapped)
    ensures Represents(swapped, reg)
  {
    forall i | 0 <= i < |swapped| ensures Backed(swapped[i], reg) {
      assert Backed(list[Across(k, i)], reg);
    }
    forall p | p in reg ensures Has(swapped, p) {
      assert Has(list, p);
      var i :| 0 <= i < |list| && list[i].port == p;
      assert swapped[Across(k, i)].port == p;
    }
  }

  lemma SwapInOrder(list: seq<Entry>, k: nat, swapped: seq<Entry>)
    requires Exchanged(list, k, swapped) && list[k].priority == list[k - 1].priority
    requires Sorted(list) && OnePerPort(list)
    ensures Sorted(swapped) && OnePerPort(swapped)
  {
    forall i, j | 0 <= i < j < |swapped|
      ensures swapped[i].priority >= swapped[j].priority && swapped[i].port != swapped[j].port
    {
      assert swapped[i] == list[Across(k, i)] && swapped[j] == list[Across(k, j)];
    }
  }

  lemma SwapKeeps(list: seq<Entry>, reg: Registry, k: nat)
    requires Kept(list, reg) && 0 < k < |list| && list[k].priority == list[k - 1].priority
    ensures Kept(list[k - 1 := list[k]][k := list[k - 1]], reg)
  {
    var swapped := list[k - 1 := list[k]][k := list[k - 1]];
    SwapRepresents(list, reg, k, swapped);
    SwapInOrder(list, k, swapped);
  }

  lemma PromoteKeeps(list: seq<Entry>, reg: Registry, k: nat)
    requires Kept(list, reg) && k < |list|
    ensures Kept(Promote(list, k), reg)
  {
    if Promote(list, k) != list {
      SwapKeeps(list, reg, k);
    }
  }

  /** A list without a port stands for a registry without it. */
  lemma Missing(list: seq<Entry>, reg: Registry, port: Port)
    requires Represents(list, reg)
    requires forall i :: 0 <= i < |list| ==> list[i].port != port
    ensures port !in reg
  {
    assert !Has(list, port);
  }

  // ---------------------------------------------------------------- the walk of a delivery

  /** So far so many ports have the packet, and the rest of the list decides the others. */
  ghost predicate Walking(accepts: Accepts, list: seq<Entry>, packet: Packet, buffers: nat,
                          i: nat, ports: seq<Port>, left: nat) {
    && i <= |list|
    && ports + Receivers(accepts, list[i..], packet, ports == [], left) ==
         Receivers(accepts, list, packet, true, buffers)
    && left == (if ports == [] then buffers else buffers + 1 - |ports|)
    && (forall j :: i <= j < |list| ==> list[j].port !in ports)
  }

  lemma WalkStart(accepts: Accepts, list: seq<Entry>, packet: Packet, buffers: nat)
    ensures Walking(accepts, list, packet, buffers, 0, [], buffers)
  {
    assert list[0..] == list;
  }

  lemma WalkSkip(accepts: Accepts, list: seq<Entry>, packet: Packet, buffers: nat, i: nat, ports: seq<Port>, left: nat)
    requires Walking(accepts, list, packet, buffers, i, ports, left)
    requires i < |list| && !accepts(list[i].program, packet)
    ensures Walking(accepts, list, packet, buffers, i + 1, ports, left)
  {
    assert list[i..][1..] == list[i + 1..];
  }

  lemma WalkStop(accepts: Accepts, list: seq<Entry>, packet: Packet, buffers: nat, i: nat, ports: seq<Port>, left: nat)
    requires Walking(accepts, list, packet, buffers, i, ports, left)
    requires i == |list| || (accepts(list[i].program, packet) && ports != [] && left == 0)
    ensures ports == Receivers(accepts, list, packet, true, buffers)
  {
    assert ports + [] == ports;
  }

  lemma WalkTake(accepts: Accepts, list: seq<Entry>, packet: Packet, buffers: nat, i: nat, ports: seq<Port>, left: nat)
    requires Walking(accepts, list, packet, buffers, i, ports, left) && OnePerPort(list)
    requires i < |list| && accepts(list[i].program, packet) && (ports == [] || left > 0)
    ensures var more := ports + [list[i].port];
            && (list[i].priority >= NET_HI_PRI ==> more == Receivers(accepts, list, packet, true, buffers))
            && (list[i].priority < NET_HI_PRI ==>
                  Walking(accepts, list, packet, buffers, i + 1, more, if ports == [] then left else left - 1))
  {
    assert list[i..][1..] == list[i + 1..];
    var rest := Receivers(accepts, list[i + 1..], packet, false, if ports == [] then left else left - 1);
    assert ports + ([list[i].port] + rest) == ports + [list[i].port] + rest;
  }

  lemma CreditNext(list: seq<Entry>, i: nat, ports: seq<Port>)
    requires i < |list| && OnePerPort(list) && list[i].port !in ports
    ensures Credited(list, ports)[i := list[i].(count := list[i].count + 1)] == Credited(list, ports + [list[i].port])
    ensures Credited(list, ports)[i] == list[i]
  {
  }

  // ---------------------------------------------------------------- the list during and after a delivery

  /** One receiver counted, and moved forward if it has earned it. */
  function CreditAt(list: seq<Entry>, k: nat): seq<Entry>
    requires k < |list|
  {
    var counted := list[k := list[k].(count := list[k].count + 1)];
    if list[k].priority >= NET_HI_PRI then Promote(counted, k) else counted
  }

  predicate LastIs(list: seq<Entry>, ports: seq<Port>, last: nat) {
    ports != [] ==> last < |list| && list[last].port == ports[|ports| - 1]
  }

  /** The list that a delivery to the given ports leaves behind. */
  function Settled(list: seq<Entry>, ports: seq<Port>, last: nat): seq<Entry>
    requires LastIs(list, ports, last)
  {
    var credited := Credited(list, ports);
    if ports != [] && list[last].priority >= NET_HI_PRI then Promote(credited, last) else credited
  }

  ghost predicate Underway(accepts: Accepts, was: seq<Entry>, packet: Packet, buffers: nat,
                           i: nat, list: seq<Entry>, ports: seq<Port>, left: nat, last: nat) {
    && OnePerPort(was)
    && Walking(accepts, was, packet, buffers, i, ports, left)
    && list == Credited(was, ports)
    && LastIs(was, ports, last)
    && (ports != [] ==> was[last].priority < NET_HI_PRI)
  }

  ghost predicate Delivered(accepts: Accepts, was: seq<Entry>, packet: Packet, buffers: nat,
                            list: seq<Entry>, ports: seq<Port>, left: nat, last: nat) {
    && ports == Receivers(accepts, was, packet, true, buffers)
    && left == (if ports == [] then buffers else buffers + 1 - |ports|)
    && LastIs(was, ports, last)
    && list == Settled(was, ports, last)
  }

  lemma CreditedNone(list: seq<Entry>)
    ensures Credited(list, []) == list
  {
  }

  lemma Begin(accepts: Accepts, was: seq<Entry>, packet: Packet, buffers: nat)
    requires OnePerPort(was)
    ensures Underway(accepts, was, packet, buffers, 0, was, [], buffers, 0)
  {
    WalkStart(accepts, was, packet, buffers);
    CreditedNone(was);
  }

  /** The entry the walk has come to is as it was. */
  lemma Ahead(accepts: Accepts, was: seq<Entry>, packet: Packet, buffers: nat,
             i: nat, list: seq<Entry>, ports: seq<Port>, left: nat, last: nat)
    requires Underway(accepts, was, packet, buffers, i, list, ports, left, last)
    ensures |list| == |was| && i <= |list|
    ensures i < |list| ==> list[i] == was[i]
  {
  }

  lemma Skip(accepts: Accepts, was: seq<Entry>, packet: Packet, buffers: nat,
             i: nat, list: seq<Entry>, ports: seq<Port>, left: nat, last: nat)
    requires Underway(accepts, was, packet, buffers, i, list, ports, left, last)
    requires i < |was| && !accepts(was[i].program, packet)
    ensures Underway(accepts, was, packet, buffers, i + 1, list, ports, left, last)
  {
    WalkSkip(accepts, was, packet, buffers, i, ports, left);
  }

  lemma Stop(accepts: Accepts, was: seq<Entry>, packet: Packet, buffers: nat,
             i: nat, list: seq<Entry>, ports: seq<Port>, left: nat, last: nat)
    requires Underway(accepts, was, packet, buffers, i, list, ports, left, last)
    requires i == |was| || (accepts(was[i].program, packet) && ports != [] && left == 0)
    ensures Delivered(accepts, was, packet, buffers, list, ports, left, last)
  {
    WalkStop(accepts, was, packet, buffers, i, ports, left);
  }

  lemma Take(accepts: Accepts, was: seq<Entry>, packet: Packet, buffers: nat,
             i: nat, list: seq<Entry>, ports: seq<Port>, left: nat, last: nat)
    requires Underway(accepts, was, packet, buffers, i, list, ports, left, last)
    requires i < |was| && accepts(was[i].program, packet) && (ports == [] || left > 0)
    ensures i < |list|
    ensures var more, left' := ports + [was[i].port], if ports == [] then left else left - 1;
            && (was[i].priority >= NET_HI_PRI ==>
                  Delivered(accepts, was, packet, buffers, CreditAt(list, i), more, left', i))
            && (was[i].priority < NET_HI_PRI ==>
                  Underway(accepts, was, packet, buffers, i + 1, CreditAt(list, i), more, left', i))
  {
    WalkTake(accepts, was, packet, buffers, i, ports, left);
    CreditNext(was, i, ports);
  }

  lemma SameLength(accepts: Accepts, was: seq<Entry>, packet: Packet, buffers: nat,
                   i: nat, list: seq<Entry>, ports: seq<Port>, left: nat, last: nat)
    requires Underway(accepts, was, packet, buffers, i, list, ports, left, last)
             || Delivered(accepts, was, packet, buffers, list, ports, left, last)
    ensures |list| == |was|
  {
  }

  lemma DeliveredKeeps(accepts: Accepts, was: seq<Entry>, packet: Packet, buffers: nat,
                       list: seq<Entry>, ports: seq<Port>, left: nat, last: nat, reg: Registry)
    requires Kept(was, reg) && Delivered(accepts, was, packet, buffers, list, ports, left, last)
    ensures Kept(list, reg)
    ensures Served(accepts, reg, packet, buffers, ports)
  {
    CreditedKeeps(was, reg, ports);
    if ports != [] {
      PromoteKeeps(Credited(was, ports), reg, last);
    }
    WalkServes(accepts, was, reg, packet, buffers);
  }
}
