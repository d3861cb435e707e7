/**
 * A debugger that never touches memory: at every instruction it looks at its list of breakpoints and at its run mode.
 * The real one must behave like it.
 */
module DebugSpec {

  import opened BreakSpec

  // ---------------------------------------------------------------- the list

  function Find(c: Context, list: seq<Bkpt>, m: Map, a: Addr): (k: nat)
    ensures k <= |list|
    ensures k < |list| ==> At(c, list[k], m, a)
    ensures forall i :: 0 <= i < k ==> !At(c, list[i], m, a)
  {
    if list == [] || At(c, list[0], m, a) then 0 else 1 + Find(c, list[1..], m, a)
  }

  lemma FindIs(c: Context, list: seq<Bkpt>, m: Map, a: Addr, k: nat)
    requires k <= |list| && (forall i :: 0 <= i < k ==> !At(c, list[i], m, a))
    requires k < |list| ==> At(c, list[k], m, a)
    ensures Find(c, list, m, a) == k
  {
  }

  function FindHere(c: Context, list: seq<Bkpt>, a: Addr): nat {
    Find(c, list, MapAddr(c, a), a)
  }

  /** The count of a breakpoint that is reached: down by one, and back to its start at zero. */
  function Reached(b: Bkpt): Bkpt {
    b.(count := if b.count - 1 == 0 then b.initCount else b.count - 1)
  }

  function Tick(c: Context, list: seq<Bkpt>, pc: Addr): seq<Bkpt> {
    var k := FindHere(c, list, pc);
    if k < |list| then list[k := Reached(list[k])] else list
  }

  predicate Present(c: Context, list: seq<Bkpt>, pc: Addr) {
    FindHere(c, list, pc) < |list|
  }

  predicate Due(c: Context, list: seq<Bkpt>, pc: Addr) {
    Present(c, list, pc) && list[FindHere(c, list, pc)].count - 1 == 0
  }

  function Add(c: Context, list: seq<Bkpt>, a: Addr, count: int): seq<Bkpt> {
    if Present(c, list, a) || |list| >= NBREAKPOINTS then list
    else [Bkpt(MapAddr(c, a), a, count, count, 0)] + list
  }

  function Delete(c: Context, list: seq<Bkpt>, a: Addr): seq<Bkpt> {
    var k := FindHere(c, list, a);
    if k < |list| then list[..k] + list[k + 1..] else list
  }

  // ---------------------------------------------------------------- run modes

  datatype RunMode = StepNone | StepOnce | StepReturn | StepCallT | StepContinue | StepInvisible | StepCount

  datatype Run = Run(mode: RunMode, loopCount: int, callDepth: int)

  /** What the debugger wants to know of an instruction. */
  datatype Inst = Inst(call: bool, ret: bool, trapReturn: bool)

  /** Whether to stop where no breakpoint is due, and how to run on. */
  function Decide(r: Run, inst: Inst): (bool, Run) {
    match r.mode
    case StepInvisible => (false, r.(mode := StepContinue))
    case StepCount => (false, r)
    case StepOnce =>
      var n := r.loopCount - 1;
      if n > 0 then (false, r.(loopCount := n)) else (true, r.(mode := StepNone, loopCount := n))
    case StepReturn =>
      if inst.trapReturn then (true, r.(mode := StepNone))
      else
        var n := r.callDepth - if inst.ret then 1 else 0;
        if inst.ret && n == 0 then (true, r.(mode := StepNone, callDepth := n))
        else (false, r.(callDepth := n + if inst.call then 1 else 0))
    case StepCallT =>
      if inst.call || inst.ret || inst.trapReturn then (true, r.(mode := StepNone)) else (false, r)
    case _ => (true, r.(mode := StepNone))
  }

  // ---------------------------------------------------------------- commands

  datatype Command =
    | SetBreak(a: Addr, count: int)
    | DeleteBreak(a: Addr)
    | Write(a: Addr, value: Byte)
    | SingleStep(count: int)
    | UntilCall
    | UntilMatching
    | Continue(counting: bool)

  type Decoder = (seq<Byte>, Addr) -> Inst

  /** The list, the run mode, the trace flag of the processor and the program's memory. */
  datatype Ideal = Ideal(list: seq<Bkpt>, run: Run, stepping: bool, program: seq<Byte>)

  predicate InRange(cmd: Command, size: nat) {
    (cmd.SetBreak? || cmd.DeleteBreak? || cmd.Write?) ==> cmd.a < size
  }

  function Obey(c: Context, s: Ideal, cmd: Command): (r: Ideal)
    requires InRange(cmd, |s.program|)
    ensures |r.program| == |s.program| && r.stepping == s.stepping
  {
    match cmd
    case SetBreak(a, count) => s.(list := Add(c, s.list, a, if count == -1 then 1 else count))
    case DeleteBreak(a) => s.(list := Delete(c, s.list, a))
    case Write(a, value) => s.(program := s.program[a := value])
    case SingleStep(count) => s.(run := s.run.(mode := StepOnce, loopCount := if count == -1 then 1 else count))
    case UntilCall => s.(run := s.run.(mode := StepCallT))
    case UntilMatching => s.(run := s.run.(mode := StepReturn, callDepth := 1))
    case Continue(counting) => s.(run := s.run.(mode := if counting then StepCount else StepContinue))
  }

  function ObeyAll(c: Context, s: Ideal, cmds: seq<Command>): (r: Ideal)
    requires forall i :: 0 <= i < |cmds| ==> InRange(cmds[i], |s.program|)
    ensures |r.program| == |s.program| && r.stepping == s.stepping
  {
    if cmds == [] then s else
      Obey(c, ObeyAll(c, s, cmds[..|cmds| - 1]), cmds[|cmds| - 1])
  }

  /** Going on: over a breakpoint or a watchpoint by one step, else at full speed. */
  function Resume(c: Context, s: Ideal, pc: Addr, watchpt: bool): Ideal {
    if s.run.mode == StepContinue then
      if watchpt || Present(c, s.list, pc) then s.(run := s.run.(mode := StepInvisible), stepping := true)
      else s.(stepping := false)
    else s.(stepping := true)
  }

  /** The debugger gets control when it steps, at a breakpoint, and at a breakpoint instruction of the program's own. */
  predicate Trapped(c: Context, s: Ideal, pc: Addr)
    requires pc < |s.program|
  {
    s.stepping || Present(c, s.list, pc) || s.program[pc] == BKPT_INST
  }

  /** It stops at a breakpoint that is due, or as the run mode says. */
  predicate Stops(c: Context, decode: Decoder, s: Ideal, pc: Addr)
    requires pc < |s.program|
  {
    Trapped(c, s, pc) && (Due(c, s.list, pc) || Decide(s.run, decode(s.program, pc)).0)
  }

  datatype Event =
    | Arrive(pc: Addr, cmds: seq<Command>, watchpt: bool)  // an instruction has led to pc
    | Store(a: Addr, value: Byte)                          // an instruction has changed memory

  /** What the program and the operator may do: the program does not overwrite a breakpoint while it runs freely. */
  predicate Allowed(c: Context, s: Ideal, e: Event) {
    match e
    case Arrive(pc, cmds, _) => pc < |s.program| && forall i :: 0 <= i < |cmds| ==> InRange(cmds[i], |s.program|)
    case Store(a, _) => a < |s.program| && (s.stepping || !Present(c, s.list, a))
  }

  /** Every arrival counts for the breakpoint there, however the program got there. */
  function Next(c: Context, decode: Decoder, s: Ideal, e: Event): Ideal
    requires Allowed(c, s, e)
  {
    match e
    case Store(a, value) => s.(program := s.program[a := value])
    case Arrive(pc, cmds, watchpt) =>
      if !Trapped(c, s, pc) then s
      else
        var run := if Due(c, s.list, pc) then s.run else Decide(s.run, decode(s.program, pc)).1;
        var s' := Ideal(Tick(c, s.list, pc), run, false, s.program);
        var s'' := if Stops(c, decode, s, pc) then ObeyAll(c, s', cmds) else s';
        Resume(c, s'', pc, watchpt)
  }
}
