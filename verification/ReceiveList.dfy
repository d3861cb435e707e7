/** The receive filters of an interface at work: clients set and remove filters while packets arrive. */
module ReceiveList {

  import opened FilterCode
  import opened FilterMachine
  import opened FilterList
  import opened FilterDelivery

  // ---------------------------------------------------------------- the operations

  /** Overran: the filter was longer than the structure's array, and the copy went on behind it. */
  datatype Begun = Invalid | Replaced | MustAllocate | Overran

  /** The filter array of the structure holds the whole program. */
  predicate Holdable(program: Program) {
    |program| <= NET_MAX_FILTER
  }

  /** The copy into the structure's array: inside it exactly for programs it can hold. */
  method CopyFilter(program: Program) returns (inside: bool, filter: seq<Word>)
    ensures inside <==> Holdable(program)
    ensures inside ==> filter == program
  {
    var slot := new Word[NET_MAX_FILTER];
    inside, filter := true, [];
    var i := 0;
    while i < |program|
      invariant i <= |program| && i <= slot.Length
      invariant slot[..i] == program[..i]
    {
      if i == slot.Length {
        inside := false;
        return;
      }
      slot[i] := program[i];
      i := i + 1;
    }
    filter := slot[..i];
  }

  /** A filter of any number of words that neither push nor operate is admitted. */
  lemma {:induction false} ZerosAdmitted(n: nat)
    ensures Admitted(Zeros(n)) && Decode(Zeros(n)).value == seq(n, _ => Instr(Pop, Nop))
  {
    var code := seq(n, _ => Instr(Pop, Nop));
    ZerosDecode(n);
    forall k | 0 <= k < n ensures Fits(Items(code[..k]), code[k]) {
      NothingPushed(code[..k]);
    }
  }

  function Zeros(n: nat): Program {
    seq(n, _ => 0)
  }

  lemma {:induction false} ZerosDecode(n: nat)
    ensures Decode(Zeros(n)) == Some(seq(n, _ => Instr(Pop, Nop)))
  {
    if n == 0 {
      assert Zeros(0) == [] && seq(0, _ => Instr(Pop, Nop)) == [];
    } else {
      ZerosDecode(n - 1);
      assert Zeros(n)[1..] == Zeros(n - 1);
      assert seq(n, _ => Instr(Pop, Nop)) == [Instr(Pop, Nop)] + seq(n - 1, _ => Instr(Pop, Nop));
    }
  }

  lemma {:induction false} NothingPushed(code: seq<Instr>)
    requires forall i :: 0 <= i < |code| ==> code[i] == Instr(Pop, Nop)
    ensures Items(code) == 0
  {
    if code != [] {
      NothingPushed(code[..|code| - 1]);
    }
  }

  /** The longest filter a message can carry, of 64 words: the checker admits it, and the structure cannot hold it. */
  lemma LongFilterOverruns()
    ensures |Zeros(64)| == 64 && Admitted(Zeros(64)) && !Holdable(Zeros(64))
  {
    ZerosAdmitted(64);
  }

  class Interface {
    var list: seq<Entry>

    constructor ()
      ensures list == []
    {
      list := [];
    }

    method Find(port: Port) returns (k: nat)
      ensures k <= |list|
      ensures k < |list| ==> list[k].port == port
      ensures k == |list| ==> !Has(list, port)
    {
      k := 0;
      while k < |list| && list[k].port != port
        invariant k <= |list|
        invariant forall i :: 0 <= i < k ==> list[i].port != port
      {
        k := k + 1;
      }
    }

    /** The end of net_set_filter: insert according to priority. */
    method Install(e: Entry, ghost reg: Registry)
      requires Kept(list, reg) && e.port !in reg
      modifies this
      ensures list == Insert(old(list), e)
      ensures Kept(list, reg[e.port := Want(e.priority, e.program)])
    {
      var k := 0;
      while k < |list| && e.priority <= list[k].priority
        invariant k <= |list|
        invariant forall i :: 0 <= i < k ==> e.priority <= list[i].priority
      {
        k := k + 1;
      }
      InsertKeeps(list, reg, e, k);
      list := list[..k] + [e] + list[k..];
    }

    /** An existing filter for the port is taken out and its structure used again, with its count. */
    method Replace(k: nat, priority: int, program: Program, ghost reg: Registry) returns (inside: bool)
      requires Kept(list, reg) && k < |list|
      modifies this
      ensures inside <==> Holdable(program)
      ensures inside ==>
                && list == Insert(Dropped(old(list), k),
                                  Entry(old(list[k].port), priority, program, old(list[k].count)))
                && Kept(list, reg[old(list[k].port) := Want(priority, program)])
    {
      var e := list[k];
      DroppedKeeps(list, reg, k);
      list := list[..k] + list[k + 1..];
      var filter;
      inside, filter := CopyFilter(program);
      if !inside {
        return;
      }
      Install(Entry(e.port, priority, filter, e.count), reg - {e.port});
      assert (reg - {e.port})[e.port := Want(priority, program)] == reg[e.port := Want(priority, program)];
    }

    /** net_set_filter up to the unlock: a bad filter is refused, a known port's filter replaced. */
    method BeginSet(port: Port, priority: int, program: Program, ghost reg: Registry) returns (r: Begun)
      requires Kept(list, reg)
      modifies this
      ensures r == Invalid <==> !Admitted(program)
      ensures r == Replaced <==> Admitted(program) && port in reg && Holdable(program)
      ensures r == Overran <==> Admitted(program) && port in reg && !Holdable(program)
      ensures r == Invalid || r == MustAllocate ==> list == old(list)
      ensures r == Replaced ==> Kept(list, reg[port := Want(priority, program)])
    {
      var ok := ParseNetFilter(program);
      if !ok {
        return Invalid;
      }
      var k := Find(port);
      if k == |list| {
        return MustAllocate;
      }
      assert Backed(list[k], reg);
      var inside := Replace(k, priority, program, reg);
      return if inside then Replaced else Overran;
    }

    /** net_set_filter after the allocation: the lookup again, since another thread may have set the port's filter. */
    method EndSet(port: Port, priority: int, program: Program, ghost reg: Registry) returns (inside: bool)
      requires Kept(list, reg)
      modifies this
      ensures inside <==> Holdable(program)
      ensures inside ==> Kept(list, reg[port := Want(priority, program)])
    {
      var k := Find(port);
      if k < |list| {
        inside := Replace(k, priority, program, reg);
      } else {
        var filter;
        inside, filter := CopyFilter(program);
        if inside {
          Install(Entry(port, priority, filter, 0), reg);
        }
      }
    }

    /** net_remove_filter: every filter with this port. */
    method RemoveFilter(port: Port, ghost reg: Registry) returns (found: bool)
      requires Kept(list, reg)
      modifies this
      ensures found <==> port in reg
      ensures Kept(list, reg - {port})
    {
      found := false;
      var i := 0;
      ghost var now := reg;
      while i < |list|
        invariant i <= |list|
        invariant Kept(list, now) && now == (if found then reg - {port} else reg)
        invariant found ==> port in reg
        invariant forall j :: 0 <= j < i ==> list[j].port != port
      {
        if list[i].port == port {
          assert Backed(list[i], now);
          DroppedKeeps(list, now, i);
          now := now - {port};
          list := list[..i] + list[i + 1..];
          found := true;
        } else {
          i := i + 1;
        }
      }
      Missing(list, now, port);
      assert now == reg - {port};
    }

    /** The count of a receiver goes up, and a high-priority one may move forward. */
    method Credit(k: nat)
      requires k < |list|
      modifies this
      ensures list == CreditAt(old(list), k)
    {
      var e := list[k].(count := list[k].count + 1);
      list := list[k := e];
      if e.priority >= NET_HI_PRI && k > 0 {
        var prev := list[k - 1];
        if e.priority == prev.priority && 100 + prev.count < e.count {
          list := list[k - 1 := e][k := prev];
        }
      }
    }

    /** One turn of the loop of net_filter. */
    method Offer(accepts: Accepts, packet: Packet, ghost buffers: nat, ghost was: seq<Entry>,
                 i: nat, got: seq<Port>, spare: nat, ghost before: nat)
      returns (more: bool, ports: seq<Port>, left: nat, ghost last: nat)
      requires i < |list|
      requires Underway(accepts, was, packet, buffers, i, list, got, spare, before)
      modifies this
      ensures more ==> Underway(accepts, was, packet, buffers, i + 1, list, ports, left, last)
      ensures !more ==> Delivered(accepts, was, packet, buffers, list, ports, left, last)
    {
      more, ports, left, last := true, got, spare, before;
      Ahead(accepts, was, packet, buffers, i, list, ports, left, last);
      if !accepts(list[i].program, packet) {
        Skip(accepts, was, packet, buffers, i, list, ports, left, last);
      } else if ports != [] && left == 0 {
        Stop(accepts, was, packet, buffers, i, list, ports, left, last);
        more := false;
      } else {
        Take(accepts, was, packet, buffers, i, list, ports, left, last);
        if ports != [] {
          left := left - 1;
        }
        ports, last, more := ports + [list[i].port], i, list[i].priority < NET_HI_PRI;
        Credit(i);
      }
    }

    /** The loop of net_filter. */
    method Walk(accepts: Accepts, packet: Packet, buffers: nat)
      returns (ports: seq<Port>, left: nat, ghost last: nat)
      requires OnePerPort(list)
      modifies this
      ensures Delivered(accepts, old(list), packet, buffers, list, ports, left, last)
    {
      ports, left, last := [], buffers, 0;
      ghost var was := list;
      Begin(accepts, was, packet, buffers);
      var i, more := 0, true;
      while i < |list| && more
        invariant more ==> Underway(accepts, was, packet, buffers, i, list, ports, left, last)
        invariant !more ==> Delivered(accepts, was, packet, buffers, list, ports, left, last)
        invariant |list| == |was|
      {
        more, ports, left, last := Offer(accepts, packet, buffers, was, i, ports, left, last);
        i := i + 1;
        SameLength(accepts, was, packet, buffers, i, list, ports, left, last);
      }
      if more {
        Ahead(accepts, was, packet, buffers, i, list, ports, left, last);
        Stop(accepts, was, packet, buffers, i, list, ports, left, last);
      }
    }

    /**
     * net_filter: give the packet to the filters that match. The first gets the packet itself, the others copies
     * in spare buffers; with no receiver the packet's own buffer is recycled.
     */
    method Deliver(accepts: Accepts, packet: Packet, buffers: nat, ghost reg: Registry)
      returns (ports: seq<Port>, left: nat, recycled: bool)
      requires Kept(list, reg)
      modifies this
      ensures Served(accepts, reg, packet, buffers, ports)
      ensures left == if ports == [] then buffers else buffers + 1 - |ports|
      ensures recycled <==> ports == []
      ensures Kept(list, reg)
    {
      ghost var was := list;
      ghost var last;
      ports, left, last := Walk(accepts, packet, buffers);
      recycled := ports == [];
      DeliveredKeeps(accepts, was, packet, buffers, list, ports, left, last, reg);
    }
  }

  // ---------------------------------------------------------------- whole runs

  type Tid = nat

  datatype Step =
    | SetBegins(t: Tid, port: Port, priority: int, program: Program)
    | SetEnds(t: Tid)                        // the thread has allocated, and has the lock again
    | Removes(port: Port)
    | Arrives(packet: Packet, buffers: nat)

  datatype Answer = Refused | Set | Allocating | Removed(found: bool) | Sent(ports: seq<Port>, left: nat)

  /** What clients have registered, and the threads that are between their two looks at the list. */
  datatype Clients = Clients(reg: Registry, pending: map<Tid, (Port, Want)>)

  function Next(c: Clients, step: Step): Clients {
    match step
    case SetBegins(t, port, priority, program) =>
      if !Admitted(program) then c
      else if port in c.reg then c.(reg := c.reg[port := Want(priority, program)])
      else c.(pending := c.pending[t := (port, Want(priority, program))])
    case SetEnds(t) =>
      if t !in c.pending then c
      else Clients(c.reg[c.pending[t].0 := c.pending[t].1], c.pending - {t})
    case Removes(port) => c.(reg := c.reg - {port})
    case Arrives(_, _) => c
  }

  function After(script: seq<Step>, k: nat): Clients
    requires k <= |script|
  {
    if k == 0 then Clients(map[], map[]) else Next(After(script, k - 1), script[k - 1])
  }

  /** A thread ends what it began, and begins one call at a time. */
  predicate Possible(c: Clients, step: Step) {
    && (step.SetBegins? ==> step.t !in c.pending)
    && (step.SetEnds? ==> step.t in c.pending)
  }

  /** The step copies a filter that the structure cannot hold. */
  predicate Overruns(c: Clients, step: Step) {
    match step
    case SetBegins(_, port, _, program) => Admitted(program) && port in c.reg && !Holdable(program)
    case SetEnds(t) => t in c.pending && !Holdable(c.pending[t].1.program)
    case _ => false
  }

  ghost predicate Right(accepts: Accepts, c: Clients, step: Step, answer: Answer) {
    && (step.SetBegins? ==>
          answer == if !Admitted(step.program) then Refused else if step.port in c.reg then Set else Allocating)
    && (step.SetEnds? ==> answer == Set)
    && (step.Removes? ==> answer == Removed(step.port in c.reg))
    && (step.Arrives? ==>
          && answer.Sent?
          && Served(accepts, c.reg, step.packet, step.buffers, answer.ports)
          && answer.left == if answer.ports == [] then step.buffers else step.buffers + 1 - |answer.ports|)
  }

  ghost predicate RightAt(accepts: Accepts, script: seq<Step>, k: nat, answer: Answer) {
    k < |script| && !Overruns(After(script, k), script[k]) && Right(accepts, After(script, k), script[k], answer)
  }

  ghost predicate AllRight(accepts: Accepts, script: seq<Step>, answers: seq<Answer>) {
    |answers| <= |script| && forall k :: 0 <= k < |answers| ==> RightAt(accepts, script, k, answers[k])
  }

  /** What holds between two steps of a script: the list is right, and so are the answers. */
  ghost predicate Steady(accepts: Accepts, script: seq<Step>, k: nat, list: seq<Entry>, pending: map<Tid, (Port, Want)>,
                         answers: seq<Answer>) {
    && k <= |script| && |answers| == k
    && Kept(list, After(script, k).reg) && pending == After(script, k).pending
    && AllRight(accepts, script, answers)
  }

  lemma Onward(accepts: Accepts, script: seq<Step>, k: nat, list: seq<Entry>, pending: map<Tid, (Port, Want)>,
               answers: seq<Answer>, list': seq<Entry>, pending': map<Tid, (Port, Want)>, answer: Answer)
    requires Steady(accepts, script, k, list, pending, answers) && k < |script|
    requires Right(accepts, After(script, k), script[k], answer) && !Overruns(After(script, k), script[k])
    requires Kept(list', Next(After(script, k), script[k]).reg) && pending' == Next(After(script, k), script[k]).pending
    ensures Steady(accepts, script, k + 1, list', pending', answers + [answer])
  {
    assert After(script, k + 1) == Next(After(script, k), script[k]);
    assert RightAt(accepts, script, k, answer);
  }

  /** One step of any thread, or one packet; false when a copy left its structure. */
  method Perform(i: Interface, accepts: Accepts, step: Step, pending: map<Tid, (Port, Want)>, ghost c: Clients)
    returns (inside: bool, answer: Answer, now: map<Tid, (Port, Want)>)
    requires Kept(i.list, c.reg) && pending == c.pending && Possible(c, step)
    modifies i
    ensures inside <==> !Overruns(c, step)
    ensures inside ==> Right(accepts, c, step, answer)
    ensures inside ==> Kept(i.list, Next(c, step).reg) && now == Next(c, step).pending
  {
    now := pending;
    inside, answer := true, Refused;
    match step {
      case SetBegins(t, port, priority, program) =>
        var r := i.BeginSet(port, priority, program, c.reg);
        inside := r != Overran;
        answer := if r == Invalid then Refused else if r == Replaced then Set else Allocating;
        if r == MustAllocate {
          now := now[t := (port, Want(priority, program))];
        }
      case SetEnds(t) =>
        inside := i.EndSet(pending[t].0, pending[t].1.priority, pending[t].1.program, c.reg);
        now := now - {t};
        answer := Set;
      case Removes(port) =>
        var found := i.RemoveFilter(port, c.reg);
        answer := Removed(found);
      case Arrives(packet, buffers) =>
        var ports, left, recycled := i.Deliver(accepts, packet, buffers, c.reg);
        answer := Sent(ports, left);
    }
  }

  /**
   * Any run of filter calls, interleaved at the lock, and packets: up to the first copy of a filter that its structure
   * cannot hold, every answer is right for the filters registered at that moment, and the list stays sorted by falling
   * priority with one entry for each registered port. The run goes on to its end exactly when there is no such copy.
   */
  method Run(accepts: Accepts, script: seq<Step>) returns (answers: seq<Answer>, list: seq<Entry>)
    requires forall k :: 0 <= k < |script| ==> Possible(After(script, k), script[k])
    ensures AllRight(accepts, script, answers)
    ensures |answers| < |script| ==> Overruns(After(script, |answers|), script[|answers|])
    ensures |answers| == |script| ==> Kept(list, After(script, |script|).reg)
  {
    var i := new Interface();
    var pending: map<Tid, (Port, Want)> := map[];
    answers := [];
    for k := 0 to |script|
      invariant fresh(i) && Steady(accepts, script, k, i.list, pending, answers)
    {
      ghost var list0, pending0 := i.list, pending;
      assert Possible(After(script, k), script[k]);
      var inside, answer;
      inside, answer, pending := Perform(i, accepts, script[k], pending, After(script, k));
      if !inside {
        return answers, i.list;
      }
      Onward(accepts, script, k, list0, pending0, answers, i.list, pending, answer);
      answers := answers + [answer];
    }
    list := i.list;
  }

  /** A client that sends no filter longer than the structure's array never cuts a run short. */
  lemma {:induction false} ShortFiltersStayInside(script: seq<Step>, k: nat)
    requires k <= |script|
    requires forall i :: 0 <= i < k && script[i].SetBegins? ==> Holdable(script[i].program)
    ensures forall t :: t in After(script, k).pending ==> Holdable(After(script, k).pending[t].1.program)
    ensures k < |script| && (script[k].SetBegins? ==> Holdable(script[k].program)) ==>
      !Overruns(After(script, k), script[k])
  {
    if k > 0 {
      ShortFiltersStayInside(script, k - 1);
    }
  }
}
