/** What an operator can rely on: counts of breakpoints and the step commands. */
module DebugFacts {

  import opened BreakSpec
  import opened DebugSpec
  import opened Debugger

  // ---------------------------------------------------------------- arrivals are counted once

  function TickAll(c: Context, list: seq<Bkpt>, pcs: seq<Addr>): seq<Bkpt>
    decreases |pcs|
  {
    if pcs == [] then list else TickAll(c, Tick(c, list, pcs[0]), pcs[1..])
  }

  /** The program counter values of a run, in which the operator only lets the program go on. */
  predicate Unattended(script: seq<Event>) {
    forall i :: 0 <= i < |script| && script[i].Arrive? ==> script[i].cmds == []
  }

  function Arrivals(script: seq<Event>): seq<Addr> {
    if script == [] then []
    else (if script[0].Arrive? then [script[0].pc] else []) + Arrivals(script[1..])
  }

  lemma OneArrival(c: Context, decode: Decoder, s: Ideal, e: Event)
    requires Allowed(c, s, e) && (e.Arrive? ==> e.cmds == [])
    ensures Next(c, decode, s, e).list == if e.Arrive? then Tick(c, s.list, e.pc) else s.list
  {
  }

  /** However the program runs, traced, stepped invisibly or free, every arrival counts once for its breakpoint. */
  lemma {:induction false} EveryArrivalCounts(c: Context, decode: Decoder, s: Ideal, script: seq<Event>)
    requires Possible(c, decode, s, script) && Unattended(script)
    ensures After(c, decode, s, script).list == TickAll(c, s.list, Arrivals(script))
    decreases |script|
  {
    if script != [] {
      var e, rest := script[0], script[1..];
      OneArrival(c, decode, s, e);
      EveryArrivalCounts(c, decode, Next(c, decode, s, e), rest);
      if e.Arrive? {
        assert Arrivals(script)[1..] == Arrivals(rest);
      } else {
        assert Arrivals(script) == Arrivals(rest);
      }
    }
  }

  function ReachedTimes(b: Bkpt, n: nat): Bkpt {
    if n == 0 then b else Reached(ReachedTimes(b, n - 1))
  }

  /** A breakpoint counts down from its initial count, is due at the last of so many arrivals, and starts again. */
  lemma {:induction false} CountsDown(b: Bkpt, n: nat)
    requires b.count == b.initCount > 0 && n <= b.count
    ensures n < b.count ==> ReachedTimes(b, n) == b.(count := b.count - n)
    ensures n < b.count ==> (ReachedTimes(b, n).count - 1 == 0 <==> n == b.count - 1)
    ensures n == b.count ==> ReachedTimes(b, n) == b
  {
    if n > 0 {
      CountsDown(b, n - 1);
    }
  }

  // ---------------------------------------------------------------- free running

  /** A program that runs freely was told to continue, or was never stopped. */
  predicate Free(s: Ideal) {
    s.stepping || s.run.mode == StepContinue || s.run.mode == StepNone
  }

  lemma {:induction false} AlwaysFree(c: Context, decode: Decoder, s: Ideal, script: seq<Event>)
    requires Free(s) && Possible(c, decode, s, script)
    ensures Free(After(c, decode, s, script))
    decreases |script|
  {
    if script != [] {
      AlwaysFree(c, decode, Next(c, decode, s, script[0]), script[1..]);
    }
  }

  /**
   * A count is a number of times to skip a breakpoint, by its declaration; but a program that runs freely stops at
   * every breakpoint it reaches, whatever its count. A count delays the stop only of a program that is stepped, in a
   * mode that goes on.
   */
  lemma FreeProgramsStopAtEveryBreakpoint(c: Context, decode: Decoder, program: seq<Byte>, script: seq<Event>, pc: Addr)
    requires Possible(c, decode, Start(program), script)
    requires var s := After(c, decode, Start(program), script);
             pc < |s.program| && Present(c, s.list, pc) && !Due(c, s.list, pc)
    ensures var s := After(c, decode, Start(program), script);
            && (!s.stepping ==> Stops(c, decode, s, pc))
            && (!Stops(c, decode, s, pc) <==> s.stepping && !Decide(s.run, decode(s.program, pc)).0)
  {
    AlwaysFree(c, decode, Start(program), script);
  }

  const PROGRAM: seq<Byte> := [BKPT_INST, 0, 0, 0]
  const FLAT := Context(1, None, 0, 0, 4)
  const SETUP := Arrive(0, [SetBreak(2, 2), Continue(false)], false)

  /** A breakpoint to be skipped once, set at the program's own trap, stops the program that continues into it. */
  lemma SkippedOnceStopsAtOnce(decode: Decoder)
    ensures Possible(FLAT, decode, Start(PROGRAM), [SETUP])
    ensures var s := After(FLAT, decode, Start(PROGRAM), [SETUP]);
            && s.list == [Bkpt(1, 2, 2, 2, 0)] && !s.stepping && s.program == PROGRAM
            && Present(FLAT, s.list, 2) && !Due(FLAT, s.list, 2) && Stops(FLAT, decode, s, 2)
  {
    var start := Start(PROGRAM);
    assert Allowed(FLAT, start, SETUP) && Trapped(FLAT, start, 0) && Stops(FLAT, decode, start, 0);
    var cmds := SETUP.cmds;
    assert cmds[..1][..0] == [] && cmds[..1] == [SetBreak(2, 2)];
    var s := Ideal([], Run(StepNone, 0, 0), false, PROGRAM);
    var s1 := Obey(FLAT, s, SetBreak(2, 2));
    assert ObeyAll(FLAT, s, cmds[..1]) == s1 && s1.list == [Bkpt(1, 2, 2, 2, 0)] + [];
    assert ObeyAll(FLAT, s, cmds) == Obey(FLAT, s1, Continue(false));
    var next := Next(FLAT, decode, start, SETUP);
    assert next == Resume(FLAT, ObeyAll(FLAT, s, cmds), 0, false);
    assert [SETUP][1..] == [];
  }

  // ---------------------------------------------------------------- continuing

  /** The program has been told to continue at an address: it steps if a breakpoint is there, else it runs. */
  predicate Continuing(c: Context, s: Ideal, at: Addr) {
    && s.stepping == Present(c, s.list, at)
    && s.run.mode == if Present(c, s.list, at) then StepInvisible else StepContinue
  }

  /** The breakpoints do not move when they are counted. */
  lemma TickPresent(c: Context, list: seq<Bkpt>, pc: Addr, a: Addr)
    ensures Present(c, Tick(c, list, pc), a) == Present(c, list, a)
  {
    var k, list' := FindHere(c, list, a), Tick(c, list, pc);
    forall i | 0 <= i < |list| ensures At(c, list'[i], MapAddr(c, a), a) <==> At(c, list[i], MapAddr(c, a), a) {}
    FindIs(c, list', MapAddr(c, a), a, k);
  }

  /** Where a continuing program that comes from one address to another is stopped. */
  predicate Halts(c: Context, list: seq<Bkpt>, from: Addr, to: Addr) {
    Present(c, list, to) && (Present(c, list, from) ==> Due(c, list, to))
  }

  /** No address of the path halts a continuing program, the counts being kept on the way. */
  predicate Passes(c: Context, list: seq<Bkpt>, from: Addr, path: seq<Addr>)
    decreases |path|
  {
    path == [] || (!Halts(c, list, from, path[0]) && Passes(c, Tick(c, list, path[0]), path[0], path[1..]))
  }

  lemma OneStepOfContinue(c: Context, decode: Decoder, s: Ideal, at: Addr, pc: Addr)
    requires Continuing(c, s, at) && pc < |s.program| && s.program[pc] != BKPT_INST
    ensures Stops(c, decode, s, pc) <==> Halts(c, s.list, at, pc)
    ensures !Stops(c, decode, s, pc) ==> Continuing(c, Next(c, decode, s, Arrive(pc, [], false)), pc)
    ensures Next(c, decode, s, Arrive(pc, [], false)).list == Tick(c, s.list, pc)
    ensures Next(c, decode, s, Arrive(pc, [], false)).program == s.program
  {
    TickPresent(c, s.list, pc, pc);
  }

  /** The run of a continuing program along a path, up to where it stops. */
  ghost predicate RunsThrough(c: Context, decode: Decoder, s: Ideal, path: seq<Addr>)
    requires forall i :: 0 <= i < |path| ==> path[i] < |s.program|
    decreases |path|
  {
    path == [] ||
    (!Stops(c, decode, s, path[0]) &&
     var s' := Next(c, decode, s, Arrive(path[0], [], false));
     |s'.program| == |s.program| && RunsThrough(c, decode, s', path[1..]))
  }

  /**
   * The continue command, for every program path: the program is stopped at the first breakpoint it comes to from an
   * address without one, or at the first due one it comes to from another breakpoint; and nowhere else.
   */
  lemma {:induction false} ContinueStopsExactly(c: Context, decode: Decoder, s: Ideal, at: Addr, path: seq<Addr>)
    requires Continuing(c, s, at)
    requires forall i :: 0 <= i < |path| ==> path[i] < |s.program| && s.program[path[i]] != BKPT_INST
    ensures RunsThrough(c, decode, s, path) <==> Passes(c, s.list, at, path)
    decreases |path|
  {
    if path != [] {
      OneStepOfContinue(c, decode, s, at, path[0]);
      if !Stops(c, decode, s, path[0]) {
        ContinueStopsExactly(c, decode, Next(c, decode, s, Arrive(path[0], [], false)), path[0], path[1..]);
      }
    }
  }

  // ---------------------------------------------------------------- step until the matching return

  function Calls(path: seq<Inst>): int {
    if path == [] then 0 else
      var i := path[|path| - 1];
      Calls(path[..|path| - 1]) + (if i.call then 1 else 0) - (if i.ret then 1 else 0)
  }

  /** The mode after a path of instructions at none of which it stops. */
  function Decided(r: Run, path: seq<Inst>): Option<Run> {
    if path == [] then Some(r) else
      var before := Decided(r, path[..|path| - 1]);
      if before.None? then None else
        var d := Decide(before.value, path[|path| - 1]);
        if d.0 then None else Some(d.1)
  }

  predicate Plausible(path: seq<Inst>) {
    forall i :: 0 <= i < |path| ==> !(path[i].call && path[i].ret)
  }

  /**
   * The command that traces until the matching return goes on exactly while no return closes the call it started in,
   * and no return from a trap is met.
   */
  lemma {:induction false} MatchingReturn(r: Run, path: seq<Inst>)
    requires r.mode == StepReturn && r.callDepth == 1 && Plausible(path)
    ensures Decided(r, path).Some? <==>
            forall k :: 0 <= k < |path| ==> !path[k].trapReturn && (path[k].ret ==> 1 + Calls(path[..k + 1]) != 0)
    ensures Decided(r, path).Some? ==> Decided(r, path).value == r.(callDepth := 1 + Calls(path))
  {
    if path != [] {
      var n := |path| - 1;
      var before := path[..n];
      MatchingReturn(r, before);
      assert path[..n + 1] == path;
      assert forall k :: 0 <= k < n ==> before[k] == path[k] && before[..k + 1] == path[..k + 1];
    }
  }

  /** The single-step command with a count stops after exactly that many instructions, or at a breakpoint due before. */
  lemma {:induction false} StepsExactly(r: Run, path: seq<Inst>)
    requires r.mode == StepOnce
    ensures Decided(r, path).Some? <==> path == [] || |path| < r.loopCount
    ensures Decided(r, path).Some? ==> Decided(r, path).value == r.(loopCount := r.loopCount - |path|)
  {
    if path != [] {
      StepsExactly(r, path[..|path| - 1]);
    }
  }

  /** Tracing until a call or a return goes on exactly while there is none. */
  lemma {:induction false} UntilCallOrReturn(r: Run, path: seq<Inst>)
    requires r.mode == StepCallT
    ensures Decided(r, path).Some? <==>
            forall k :: 0 <= k < |path| ==> !path[k].call && !path[k].ret && !path[k].trapReturn
    ensures Decided(r, path).Some? ==> Decided(r, path).value == r
  {
    if path != [] {
      var before := path[..|path| - 1];
      UntilCallOrReturn(r, before);
      assert forall k :: 0 <= k < |before| ==> before[k] == path[k];
    }
  }
}
