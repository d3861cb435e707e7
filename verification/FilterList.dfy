/**
 * The list of receive filters of a network interface: what it stands for, the order it keeps, and who gets a packet.
 */
module FilterList {

  import opened FilterCode

  type Port = nat
  type Packet = seq<Word>
  type Program = seq<Word>

  /** What net_do_filter answers for a program and a packet. */
  type Accepts = (Program, Packet) -> bool

  const NET_HI_PRI := 100

  datatype Entry = Entry(port: Port, priority: int, program: Program, count: nat)

  /** What a client asked for: one filter for each port. */
  datatype Want = Want(priority: int, program: Program)
  type Registry = map<Port, Want>

  predicate Sorted(list: seq<Entry>) {
    forall i, j :: 0 <= i < j < |list| ==> list[i].priority >= list[j].priority
  }

  predicate OnePerPort(list: seq<Entry>) {
    forall i, j :: 0 <= i < j < |list| ==> list[i].port != list[j].port
  }

  ghost predicate Has(list: seq<Entry>, p: Port) {
    exists i :: 0 <= i < |list| && list[i].port == p
  }

  predicate Backed(e: Entry, reg: Registry) {
    e.port in reg && reg[e.port] == Want(e.priority, e.program)
  }

  /** The list holds exactly the registered filters. */
  ghost predicate Represents(list: seq<Entry>, reg: Registry) {
    && (forall i :: 0 <= i < |list| ==> Backed(list[i], reg))
    && (forall p :: p in reg ==> Has(list, p))
  }

  ghost predicate Kept(list: seq<Entry>, reg: Registry) {
    Sorted(list) && OnePerPort(list) && Represents(list, reg)
  }

  // ---------------------------------------------------------------- insertion and removal

  /** The entries at or above a priority come first; a new one goes behind them. */
  function Insert(list: seq<Entry>, e: Entry): seq<Entry> {
    if list == [] || e.priority > list[0].priority then [e] + list
    else [list[0]] + Insert(list[1..], e)
  }

  function Placed(list: seq<Entry>, e: Entry, k: nat): seq<Entry>
    requires k <= |list|
  {
    list[..k] + [e] + list[k..]
  }

  lemma PlacedTail(list: seq<Entry>, e: Entry, k: nat)
    requires 0 < k <= |list|
    ensures Placed(list, e, k) == [list[0]] + Placed(list[1..], e, k - 1)
  {
  }

  lemma {:induction false} InsertAt(list: seq<Entry>, e: Entry, k: nat)
    requires k <= |list|
    requires forall i :: 0 <= i < k ==> e.priority <= list[i].priority
    requires k < |list| ==> e.priority > list[k].priority
    ensures Insert(list, e) == Placed(list, e, k)
  {
    if k == 0 {
      assert list[..0] == [] && list[0..] == list;
    } else {
      InsertAt(list[1..], e, k - 1);
      PlacedTail(list, e, k);
    }
  }

  lemma PlacedRepresents(list: seq<Entry>, reg: Registry, e: Entry, k: nat)
    requires Represents(list, reg) && e.port !in reg && k <= |list|
    ensures Represents(Placed(list, e, k), reg[e.port := Want(e.priority, e.program)])
  {
    var placed, reg' := Placed(list, e, k), reg[e.port := Want(e.priority, e.program)];
    forall i | 0 <= i < |placed| ensures Backed(placed[i], reg') {
      if i != k {
        assert Backed(list[if i < k then i else i - 1], reg);
      }
    }
    forall p | p in reg' ensures Has(placed, p) {
      if p == e.port {
        assert placed[k].port == p;
      } else {
        assert Has(list, p);
        var i :| 0 <= i < |list| && list[i].port == p;
        assert placed[if i < k then i else i + 1].port == p;
      }
    }
  }

  lemma PlacedInOrder(list: seq<Entry>, reg: Registry, e: Entry, k: nat)
    requires Kept(list, reg) && e.port !in reg && k <= |list|
    requires forall i :: 0 <= i < k ==> e.priority <= list[i].priority
    requires k < |list| ==> e.priority > list[k].priority
    ensures Sorted(Placed(list, e, k)) && OnePerPort(Placed(list, e, k))
  {
    var placed := Placed(list, e, k);
    forall i, j | 0 <= i < j < |placed|
      ensures placed[i].priority >= placed[j].priority && placed[i].port != placed[j].port
    {
      var i', j' := if i < k then i else i - 1, if j < k then j else j - 1;
      if i == k {
        assert Backed(list[j'], reg);
      } else if j == k {
        assert Backed(list[i'], reg);
      } else {
        assert placed[i] == list[i'] && placed[j] == list[j'];
      }
    }
  }

  /** A filter for a new port, put in its place, keeps the list right. */
  lemma InsertKeeps(list: seq<Entry>, reg: Registry, e: Entry, k: nat)
    requires Kept(list, reg) && e.port !in reg && k <= |list|
    requires forall i :: 0 <= i < k ==> e.priority <= list[i].priority
    requires k < |list| ==> e.priority > list[k].priority
    ensures Insert(list, e) == Placed(list, e, k)
    ensures Kept(Insert(list, e), reg[e.port := Want(e.priority, e.program)])
  {
    InsertAt(list, e, k);
    PlacedRepresents(list, reg, e, k);
    PlacedInOrder(list, reg, e, k);
  }

  function Dropped(list: seq<Entry>, k: nat): seq<Entry>
    requires k < |list|
  {
    list[..k] + list[k + 1..]
  }

  lemma DroppedRepresents(list: seq<Entry>, reg: Registry, k: nat)
    requires Represents(list, reg) && OnePerPort(list) && k < |list|
    ensures Represents(Dropped(list, k), reg - {list[k].port})
  {
    var rest, reg' := Dropped(list, k), reg - {list[k].port};
    forall i | 0 <= i < |rest| ensures Backed(rest[i], reg') {
      assert Backed(list[if i < k then i else i + 1], reg);
    }
    forall p | p in reg' ensures Has(rest, p) {
      assert Has(list, p);
      var i :| 0 <= i < |list| && list[i].port == p;
      assert rest[if i < k then i else i - 1].port == p;
    }
  }

  /** Taking an entry out keeps the list right. */
  lemma DroppedKeeps(list: seq<Entry>, reg: Registry, k: nat)
    requires Kept(list, reg) && k < |list|
    ensures Kept(Dropped(list, k), reg - {list[k].port})
  {
    DroppedRepresents(list, reg, k);
    var rest := Dropped(list, k);
    forall i, j | 0 <= i < j < |rest|
      ensures rest[i].priority >= rest[j].priority && rest[i].port != rest[j].port
    {
      assert rest[i] == list[if i < k then i else i + 1] && rest[j] == list[if j < k then j else j + 1];
    }
  }

  // ---------------------------------------------------------------- delivery

  /** The ports that get the packet: the list is walked until a high-priority filter matches or buffers run out. */
  function Receivers(accepts: Accepts, list: seq<Entry>, packet: Packet, first: bool, buffers: nat): seq<Port>
    decreases |list|
  {
    if list == [] then []
    else if !accepts(list[0].program, packet) then Receivers(accepts, list[1..], packet, first, buffers)
    else if !first && buffers == 0 then []
    else if list[0].priority >= NET_HI_PRI then [list[0].port]
    else [list[0].port] + Receivers(accepts, list[1..], packet, false, if first then buffers else buffers - 1)
  }

  /** The ports whose filters match. */
  function Wanting(accepts: Accepts, reg: Registry, packet: Packet): set<Port> {
    set p | p in reg && accepts(reg[p].program, packet)
  }

  /**
   * A fair delivery: to ports that want the packet, none twice; to one port alone, of the highest priority that
   * matches, when that is a high priority; else by falling priority to every port that matches, or as far as the
   * room goes.
   */
  ghost predicate Fair(wanting: set<Port>, reg: Registry, room: nat, ports: seq<Port>) {
    && wanting <= reg.Keys
    && |ports| <= room
    && (forall i :: 0 <= i < |ports| ==> ports[i] in wanting)
    && (forall i, j :: 0 <= i < j < |ports| ==>
          ports[i] != ports[j] && reg[ports[i]].priority >= reg[ports[j]].priority)
    && (forall p, i :: p in wanting && p !in ports && 0 <= i < |ports| ==> reg[ports[i]].priority >= reg[p].priority)
    && ((exists p :: p in wanting && reg[p].priority >= NET_HI_PRI) ==> |ports| == 1)
    && ((forall p :: p in wanting ==> reg[p].priority < NET_HI_PRI) ==>
          |ports| == room || forall p :: p in wanting ==> p in ports)
  }

  /** A fair delivery to the registered filters, of the packet itself and of copies in the spare buffers. */
  ghost predicate Served(accepts: Accepts, reg: Registry, packet: Packet, buffers: nat, ports: seq<Port>) {
    Fair(Wanting(accepts, reg, packet), reg, buffers + 1, ports)
  }

  /** The ports of a list whose filters match. */
  function WantingIn(accepts: Accepts, list: seq<Entry>, packet: Packet): set<Port> {
    if list == [] then {}
    else (if accepts(list[0].program, packet) then {list[0].port} else {}) + WantingIn(accepts, list[1..], packet)
  }

  lemma {:induction false} WantingInIs(accepts: Accepts, list: seq<Entry>, packet: Packet, p: Port)
    ensures p in WantingIn(accepts, list, packet) <==>
      exists i :: 0 <= i < |list| && list[i].port == p && accepts(list[i].program, packet)
  {
    if list != [] {
      var rest := list[1..];
      WantingInIs(accepts, rest, packet, p);
      if i :| 0 <= i < |list| && list[i].port == p && accepts(list[i].program, packet) {
        assert i > 0 ==> rest[i - 1] == list[i];
      }
      if i :| 0 <= i < |rest| && rest[i].port == p && accepts(rest[i].program, packet) {
        assert list[i + 1] == rest[i];
      }
    }
  }

  /** A list that stands for a registry asks for the same packets. */
  lemma WantingSame(accepts: Accepts, list: seq<Entry>, reg: Registry, packet: Packet)
    requires Represents(list, reg)
    ensures WantingIn(accepts, list, packet) == Wanting(accepts, reg, packet)
  {
    forall p ensures p in WantingIn(accepts, list, packet) <==> p in Wanting(accepts, reg, packet) {
      WantingInIs(accepts, list, packet, p);
      if i :| 0 <= i < |list| && list[i].port == p && accepts(list[i].program, packet) {
        assert Backed(list[i], reg);
      }
      if p in Wanting(accepts, reg, packet) {
        assert Has(list, p);
        var i :| 0 <= i < |list| && list[i].port == p;
        assert Backed(list[i], reg);
      }
    }
  }

  predicate AllBacked(list: seq<Entry>, reg: Registry) {
    forall i :: 0 <= i < |list| ==> Backed(list[i], reg)
  }

  /** In a sorted list, whatever the rest wants comes after the head. */
  lemma HeadLeads(accepts: Accepts, list: seq<Entry>, reg: Registry, packet: Packet)
    requires list != [] && Sorted(list) && OnePerPort(list) && AllBacked(list, reg)
    ensures forall p :: p in WantingIn(accepts, list[1..], packet) ==>
      p in reg && p != list[0].port && reg[p].priority <= list[0].priority
  {
    var rest := list[1..];
    forall p | p in WantingIn(accepts, rest, packet)
      ensures p in reg && p != list[0].port && reg[p].priority <= list[0].priority
    {
      WantingInIs(accepts, rest, packet, p);
      var i :| 0 <= i < |rest| && rest[i].port == p && accepts(rest[i].program, packet);
      assert list[i + 1] == rest[i] && Backed(list[i + 1], reg);
    }
  }

  /** A high-priority port alone, ahead of all others that want the packet. */
  lemma HighAlone(others: set<Port>, reg: Registry, room: nat, p: Port)
    requires others <= reg.Keys && p in reg && reg[p].priority >= NET_HI_PRI && room > 0
    requires forall q :: q in others ==> reg[q].priority <= reg[p].priority
    ensures Fair({p} + others, reg, room, [p])
  {
  }

  /** A low-priority port ahead of a fair delivery to the rest. */
  lemma LowAhead(others: set<Port>, reg: Registry, room: nat, p: Port, ports: seq<Port>)
    requires Fair(others, reg, room, ports) && p in reg && reg[p].priority < NET_HI_PRI
    requires forall q :: q in others ==> q != p && reg[q].priority <= reg[p].priority
    ensures Fair({p} + others, reg, room + 1, [p] + ports)
  {
    var all := [p] + ports;
    assert forall q :: q in ports ==> q in all;
    forall q, i | q in {p} + others && q !in all && 0 <= i < |all| ensures reg[all[i]].priority >= reg[q].priority {
      assert i > 0 ==> all[i] == ports[i - 1];
    }
  }

  /** Nobody gets the packet when nobody wants it, or when there is no room and no high priority among them. */
  lemma NobodyServed(wanting: set<Port>, reg: Registry, room: nat)
    requires wanting <= reg.Keys && (wanting == {} || room == 0)
    requires forall p :: p in wanting ==> reg[p].priority < NET_HI_PRI
    ensures Fair(wanting, reg, room, [])
  {
  }

  /** What holds of a list and of one that comes after a low-priority delivery. */
  predicate Ordered(list: seq<Entry>, reg: Registry, first: bool) {
    && Sorted(list) && OnePerPort(list) && AllBacked(list, reg)
    && (!first ==> forall i :: 0 <= i < |list| ==> list[i].priority < NET_HI_PRI)
  }

  lemma OrderedTail(list: seq<Entry>, reg: Registry, first: bool)
    requires list != [] && Ordered(list, reg, first)
    ensures Ordered(list[1..], reg, first)
    ensures list[0].priority < NET_HI_PRI ==> Ordered(list[1..], reg, false)
  {
  }
}
