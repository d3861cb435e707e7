/** The kernel debugger's breakpoints and run modes: the list, the pool, and the program's memory changed in place. */
module Debugger {

  import opened BreakSpec
  import opened DebugSpec
  import opened DebugProofs

  class Debug {
    const c: Context
    const mem: array<Byte>
    var list: seq<Bkpt>
    var nextFree: nat          // entries of the table ever used
    var freeChain: nat         // entries on the free chain
    var inserted: bool
    var run: Run
    var tf: bool               // the processor's trace flag
    ghost var program: seq<Byte>

    ghost predicate Valid()
      reads this, mem
    {
      && mem.Length == c.size
      && Distinct(c, list)
      && nextFree == |list| + freeChain <= NBREAKPOINTS
      && InStep(c, list, inserted, program, mem[..])
    }

    /** The ideal debugger this one stands for. */
    ghost function Ideally(): Ideal
      reads this
    {
      Ideal(Plain(list), run, tf, program)
    }

    /** A kernel that has not yet entered its debugger: the list is empty, and marked inserted. */
    constructor (c: Context, mem: array<Byte>)
      requires mem.Length == c.size
      ensures this.c == c && this.mem == mem && Valid() && inserted && !tf
      ensures Ideally() == Ideal([], Run(StepNone, 0, 0), false, mem[..])
    {
      this.c, this.mem := c, mem;
      list, nextFree, freeChain, inserted := [], 0, 0, true;
      run, tf, program := Run(StepNone, 0, 0), false, mem[..];
    }

    // ---------------------------------------------------------------- planting and clearing

    /** db_set_breakpoints */
    method SetBreakpoints()
      requires Valid()
      modifies this`list, this`inserted, mem
      ensures Valid() && inserted
      ensures Plain(list) == old(Plain(list))
    {
      if !inserted {
        var k := 0;
        NothingPlanted(c, list, 0, program, mem[..]);
        while k < |list|
          invariant k <= |list| && Distinct(c, list) && |list| == |old(list)|
          invariant Planted(c, list, 0, k, program, mem[..])
          invariant Plain(list) == old(Plain(list))
        {
          var b := list[k];
          if MapCurrent(c, b.map_) {
            PlantNext(c, list, k, program, mem[..]);
            SavedKeeps(c, list, k, mem[b.address]);
            list := list[k := b.(inst := mem[b.address])];
            mem[b.address] := BKPT_INST;
          } else {
            PlantSkip(c, list, k, program, mem[..]);
          }
          k := k + 1;
        }
        inserted := true;
      }
    }

    /** db_clear_breakpoints */
    method ClearBreakpoints()
      requires Valid()
      modifies this`inserted, mem
      ensures Valid() && !inserted
      ensures old(inserted) ==> mem[..] == Cleared(c, list, old(mem[..]))
    {
      if inserted {
        var k := 0;
        assert list[0..] == list;
        while k < |list|
          invariant k <= |list|
          invariant Planted(c, list, k, |list|, program, mem[..])
          invariant Cleared(c, list[k..], mem[..]) == Cleared(c, list, old(mem[..]))
        {
          var b := list[k];
          ClearNext(c, list, k, program, mem[..]);
          assert list[k..][1..] == list[k + 1..];
          if MapCurrent(c, b.map_) {
            mem[b.address] := b.inst;
          }
          k := k + 1;
        }
        NothingPlanted(c, list, k, program, mem[..]);
        inserted := false;
      }
    }

    // ---------------------------------------------------------------- the list

    /** db_find_breakpoint_here */
    method FindBreakpoint(a: Addr) returns (k: nat)
      ensures k == FindHere(c, list, a)
    {
      k := 0;
      while k < |list| && !At(c, list[k], MapAddr(c, a), a)
        invariant k <= |list|
        invariant forall i :: 0 <= i < k ==> !At(c, list[i], MapAddr(c, a), a)
      {
        k := k + 1;
      }
      FindIs(c, list, MapAddr(c, a), a, k);
    }

    /** db_set_breakpoint: refused where there is one, and when the table is used up. */
    method SetBreakpoint(a: Addr, count: int)
      requires Valid() && !inserted && a < c.size
      modifies this`list, this`nextFree, this`freeChain
      ensures Valid() && list == Add(c, old(list), a, count)
    {
      AddKeeps(c, list, a, count);
      var k := FindBreakpoint(a);
      if k == |list| {
        if freeChain > 0 {
          freeChain := freeChain - 1;
        } else if nextFree == NBREAKPOINTS {
          return;
        } else {
          nextFree := nextFree + 1;
        }
        list := [Bkpt(MapAddr(c, a), a, count, count, 0)] + list;
      }
    }

    /** db_delete_breakpoint */
    method DeleteBreakpoint(a: Addr)
      requires Valid() && !inserted
      modifies this`list, this`freeChain
      ensures Valid() && list == Delete(c, old(list), a)
    {
      DeleteKeeps(c, list, a);
      var k := FindBreakpoint(a);
      if k < |list| {
        list := list[..k] + list[k + 1..];
        freeChain := freeChain + 1;
      }
    }

    // ---------------------------------------------------------------- stopping and going on

    /** The rest of db_stop_at_pc, where no breakpoint is due. */
    method Consider(decode: Decoder, pc: Addr) returns (stop: bool)
      requires Valid() && !inserted
      modifies this`run
      ensures (stop, run) == Decide(old(run), decode(program, pc))
    {
      if run.mode == StepInvisible {
        run := run.(mode := StepContinue);
        return false;
      }
      if run.mode == StepCount {
        return false;
      }
      if run.mode == StepOnce {
        run := run.(loopCount := run.loopCount - 1);
        if run.loopCount > 0 {
          return false;
        }
      }
      if run.mode == StepReturn {
        var ins := decode(mem[..], pc);
        var going := !ins.trapReturn;
        if going && ins.ret {
          run := run.(callDepth := run.callDepth - 1);
          going := run.callDepth != 0;
        }
        if going {
          if ins.call {
            run := run.(callDepth := run.callDepth + 1);
          }
          return false;
        }
      }
      if run.mode == StepCallT {
        var ins := decode(mem[..], pc);
        if !ins.call && !ins.ret && !ins.trapReturn {
          return false;
        }
      }
      run := run.(mode := StepNone);
      return true;
    }

    /** A breakpoint at the program counter counts; is it due? */
    method CountArrival(pc: Addr) returns (due: bool)
      requires Valid() && !inserted
      modifies this`list
      ensures Valid() && list == Tick(c, old(list), pc) && due == Due(c, old(list), pc)
    {
      TickKeeps(c, list, pc);
      var k := FindBreakpoint(pc);
      due := false;
      if k < |list| {
        var b := list[k].(count := list[k].count - 1);
        due := b.count == 0;
        list := list[k := if due then b.(count := b.initCount) else b];
      }
    }

    /** db_stop_at_pc, entered by a breakpoint instruction that has been executed or by a step. */
    method StopAtPc(decode: Decoder, breakpointTrap: bool, eip: nat) returns (stop: bool, isBreakpoint: bool, pc: Addr)
      requires Valid() && (breakpointTrap ==> eip > 0)
      modifies this`inserted, this`list, this`run, this`tf, mem
      ensures Valid() && !inserted && !tf
      ensures pc == if breakpointTrap then eip - 1 else eip
      ensures list == Tick(c, old(list), pc)
      ensures isBreakpoint == Due(c, old(list), pc)
      ensures isBreakpoint ==> stop && run == old(run)
      ensures !isBreakpoint ==> (stop, run) == Decide(old(run), decode(program, pc))
    {
      tf := false;
      ClearBreakpoints();
      pc := if breakpointTrap then eip - 1 else eip;
      isBreakpoint := CountArrival(pc);
      stop := true;
      if !isBreakpoint {
        stop := Consider(decode, pc);
      }
    }

    /** db_restart_at_pc */
    method RestartAtPc(pc: Addr, watchpt: bool)
      requires Valid() && !inserted && !tf
      modifies this`list, this`inserted, this`run, this`tf, mem
      ensures Valid() && (inserted <==> !tf)
      ensures Ideally() == Resume(c, old(Ideally()), pc, watchpt)
    {
      TickPlain(c, list, pc);
      if run.mode == StepContinue {
        var k := FindBreakpoint(pc);
        if watchpt || k < |list| {
          run := run.(mode := StepInvisible);
          tf := true;
        } else {
          SetBreakpoints();
        }
      } else {
        tf := true;
      }
    }

    // ---------------------------------------------------------------- commands

    method Command(cmd: Command)
      requires Valid() && !inserted && InRange(cmd, c.size)
      modifies this, mem
      ensures Valid() && !inserted && Ideally() == Obey(c, old(Ideally()), cmd)
    {
      match cmd {
        case SetBreak(a, count) =>
          AddPlain(c, list, a, if count == -1 then 1 else count);
          SetBreakpoint(a, if count == -1 then 1 else count);
        case DeleteBreak(a) =>
          DeletePlain(c, list, a);
          DeleteBreakpoint(a);
        case Write(a, value) =>
          mem[a] := value;
          program := program[a := value];
        case SingleStep(count) =>
          run := run.(mode := StepOnce, loopCount := if count == -1 then 1 else count);
        case UntilCall =>
          run := run.(mode := StepCallT);
        case UntilMatching =>
          run := run.(mode := StepReturn, callDepth := 1);
        case Continue(counting) =>
          run := run.(mode := if counting then StepCount else StepContinue);
      }
    }

    method CommandLoop(cmds: seq<Command>)
      requires Valid() && !inserted
      requires forall i :: 0 <= i < |cmds| ==> InRange(cmds[i], c.size)
      modifies this, mem
      ensures Valid() && !inserted && Ideally() == ObeyAll(c, old(Ideally()), cmds)
    {
      ghost var s := Ideally();
      for i := 0 to |cmds|
        invariant Valid() && !inserted && Ideally() == ObeyAll(c, s, cmds[..i])
      {
        assert cmds[..i + 1][..i] == cmds[..i];
        Command(cmds[i]);
      }
      assert cmds[..|cmds|] == cmds;
    }

    // ---------------------------------------------------------------- the program runs

    /** db_trap: stop or not, obey the operator, and go on. */
    method Trap(decode: Decoder, breakpointTrap: bool, eip: nat, cmds: seq<Command>, watchpt: bool) returns (stop: bool)
      requires Valid() && (breakpointTrap ==> eip > 0)
      requires forall i :: 0 <= i < |cmds| ==> InRange(cmds[i], c.size)
      requires var pc := if breakpointTrap then eip - 1 else eip;
               pc < c.size && Trapped(c, Ideally(), pc)
      modifies this, mem
      ensures var s, pc := old(Ideally()), if breakpointTrap then eip - 1 else eip;
              && stop == Stops(c, decode, s, pc)
              && Ideally() == Next(c, decode, s, Arrive(pc, cmds, watchpt))
      ensures Valid() && (inserted <==> !tf)
    {
      TickPlain(c, list, if breakpointTrap then eip - 1 else eip);
      var isBreakpoint, pc;
      stop, isBreakpoint, pc := StopAtPc(decode, breakpointTrap, eip);
      if stop {
        CommandLoop(cmds);
      }
      RestartAtPc(pc, watchpt);
    }

    /** An instruction leads to pc: the processor traps if it is tracing or meets a breakpoint instruction there. */
    method Arrived(decode: Decoder, pc: Addr, cmds: seq<Command>, watchpt: bool) returns (stop: bool)
      requires Valid() && (inserted <==> !tf)
      requires Allowed(c, Ideally(), Arrive(pc, cmds, watchpt))
      modifies this, mem
      ensures Valid() && (inserted <==> !tf)
      ensures stop == Stops(c, decode, old(Ideally()), pc)
      ensures Ideally() == Next(c, decode, old(Ideally()), Arrive(pc, cmds, watchpt))
    {
      TickPlain(c, list, pc);
      stop := false;
      if tf {
        stop := Trap(decode, false, pc, cmds, watchpt);
      } else {
        MeetsInt3(c, list, program, mem[..], pc);
        if mem[pc] == BKPT_INST {
          stop := Trap(decode, true, pc + 1, cmds, watchpt);
        }
      }
    }

    /** An instruction of the program stores a byte. */
    method Stored(decode: Decoder, a: Addr, value: Byte)
      requires Valid() && (inserted <==> !tf)
      requires Allowed(c, Ideally(), Store(a, value))
      modifies this`program, mem
      ensures Valid()
      ensures Ideally() == Next(c, decode, old(Ideally()), Store(a, value))
    {
      TickPlain(c, list, a);
      if inserted {
        StoreKeeps(c, list, program, mem[..], a, value);
      }
      mem[a] := value;
      program := program[a := value];
    }
  }

  // ---------------------------------------------------------------- whole runs

  function Start(program: seq<Byte>): Ideal {
    Ideal([], Run(StepNone, 0, 0), false, program)
  }

  ghost predicate Possible(c: Context, decode: Decoder, s: Ideal, script: seq<Event>)
    decreases |script|
  {
    script == [] ||
    (Allowed(c, s, script[0]) && Possible(c, decode, Next(c, decode, s, script[0]), script[1..]))
  }

  ghost function After(c: Context, decode: Decoder, s: Ideal, script: seq<Event>): Ideal
    requires Possible(c, decode, s, script)
    decreases |script|
  {
    if script == [] then s else After(c, decode, Next(c, decode, s, script[0]), script[1..])
  }

  /** Where the ideal debugger stops. */
  ghost function StopsOf(c: Context, decode: Decoder, s: Ideal, script: seq<Event>): seq<bool>
    requires Possible(c, decode, s, script)
    decreases |script|
  {
    if script == [] then [] else
      [script[0].Arrive? && Stops(c, decode, s, script[0].pc)]
      + StopsOf(c, decode, Next(c, decode, s, script[0]), script[1..])
  }

  /** In the middle of a script: the rest leads from here to where the whole script leads. */
  ghost predicate Midway(c: Context, decode: Decoder, start: Ideal, script: seq<Event>, k: nat,
                         s: Ideal, stops: seq<bool>) {
    && k <= |script|
    && Possible(c, decode, start, script) && Possible(c, decode, s, script[k..])
    && stops + StopsOf(c, decode, s, script[k..]) == StopsOf(c, decode, start, script)
    && After(c, decode, s, script[k..]) == After(c, decode, start, script)
  }

  lemma Outset(c: Context, decode: Decoder, start: Ideal, script: seq<Event>)
    requires Possible(c, decode, start, script)
    ensures Midway(c, decode, start, script, 0, start, [])
  {
    assert script[0..] == script;
  }

  lemma Onward(c: Context, decode: Decoder, start: Ideal, script: seq<Event>, k: nat, s: Ideal, stops: seq<bool>)
    requires Midway(c, decode, start, script, k, s, stops) && k < |script|
    ensures Allowed(c, s, script[k])
    ensures Midway(c, decode, start, script, k + 1, Next(c, decode, s, script[k]),
                   stops + [script[k].Arrive? && Stops(c, decode, s, script[k].pc)])
  {
    assert script[k..][1..] == script[k + 1..];
    var stop := script[k].Arrive? && Stops(c, decode, s, script[k].pc);
    var rest := StopsOf(c, decode, Next(c, decode, s, script[k]), script[k + 1..]);
    assert stops + ([stop] + rest) == stops + [stop] + rest;
  }

  lemma AtEnd(c: Context, decode: Decoder, start: Ideal, script: seq<Event>, s: Ideal, stops: seq<bool>)
    requires Midway(c, decode, start, script, |script|, s, stops)
    ensures s == After(c, decode, start, script) && stops == StopsOf(c, decode, start, script)
  {
  }

  method React(d: Debug, decode: Decoder, e: Event) returns (stop: bool)
    requires d.Valid() && (d.inserted <==> !d.tf) && Allowed(d.c, d.Ideally(), e)
    modifies d, d.mem
    ensures d.Valid() && (d.inserted <==> !d.tf)
    ensures stop == (e.Arrive? && Stops(d.c, decode, old(d.Ideally()), e.pc))
    ensures d.Ideally() == Next(d.c, decode, old(d.Ideally()), e)
  {
    stop := false;
    match e {
      case Arrive(pc, cmds, watchpt) => stop := d.Arrived(decode, pc, cmds, watchpt);
      case Store(a, value) => d.Stored(decode, a, value);
    }
  }

  /**
   * Any run of a program under the debugger: it stops exactly where the ideal debugger does, its counts are the
   * ideal one's, and its memory is the program's, but for the breakpoints when they are in.
   */
  method Session(c: Context, decode: Decoder, initial: seq<Byte>, script: seq<Event>)
    returns (stops: seq<bool>, list: seq<Bkpt>, inserted: bool, memory: seq<Byte>)
    requires |initial| == c.size && Possible(c, decode, Start(initial), script)
    ensures stops == StopsOf(c, decode, Start(initial), script)
    ensures var s := After(c, decode, Start(initial), script);
            && Plain(list) == s.list
            && inserted == !s.stepping
            && Distinct(c, list)
            && InStep(c, list, inserted, s.program, memory)
  {
    var mem := new Byte[c.size](i requires 0 <= i < |initial| => initial[i]);
    assert mem[..] == initial;
    var d := new Debug(c, mem);
    stops := [];
    ghost var start := Start(initial);
    Outset(c, decode, start, script);
    assert d.Ideally() == start;
    for k := 0 to |script|
      invariant fresh(d) && fresh(d.mem) && d.c == c
      invariant d.Valid() && (d.inserted <==> !d.tf)
      invariant Midway(c, decode, start, script, k, d.Ideally(), stops)
    {
      Onward(c, decode, start, script, k, d.Ideally(), stops);
      var stop := React(d, decode, script[k]);
      stops := stops + [stop];
    }
    AtEnd(c, decode, start, script, d.Ideally(), stops);
    list, inserted, memory := d.list, d.inserted, d.mem[..];
  }
}
