/**
 * The filter checker and the filter interpreter of the network code. The interpreter keeps its stack in an array
 * that grows downwards; it trusts the checker for every bound.
 */
module FilterMachine {

  import opened FilterCode
  import opened FilterProgress

  /** The first switch of the checker: is the operand good, and does it push? */
  method CheckOperand(filter: seq<Word>, fp: nat) returns (ok: bool, next: nat, pushes: bool)
    requires fp < |filter|
    ensures ok <==> OperandOf(filter[fp..]).Some?
    ensures ok ==> next == fp + Width(filter[fp]) <= |filter|
    ensures ok ==> (pushes <==> OperandOf(filter[fp..]).value != Pop)
  {
    var arg := Arg(filter[fp]);
    ok, next, pushes := true, fp + 1, arg != NETF_NOPUSH;
    if arg == NETF_PUSHLIT {
      ok := next < |filter|;         // the literal must be in the filter
      next := next + 1;
    } else if arg != NETF_NOPUSH && arg != NETF_PUSHZERO {
      ok := arg >= NETF_PUSHWORD;    // the packet is not there to check its bounds
    }
  }

  /** One turn of the checker's loop, with its count of free cells. */
  method CheckInstr(filter: seq<Word>, fp: nat, free: int, ghost done: seq<Instr>)
    returns (ok: bool, next: nat, sp: int)
    requires fp < |filter| && free == NET_MAX_FILTER - Items(done)
    ensures ok <==> InstrOf(filter[fp..]).Some? && Fits(Items(done), InstrOf(filter[fp..]).value)
    ensures ok ==> next == fp + Width(filter[fp]) <= |filter|
    ensures ok ==> sp == NET_MAX_FILTER - Items(done + [InstrOf(filter[fp..]).value])
  {
    var pushes;
    ok, next, pushes := CheckOperand(filter, fp);
    sp := free - if pushes then 1 else 0;
    if !ok || sp < 2 {
      return false, next, sp;
    }
    var op := Op(filter[fp]);
    if op != 0 {
      if sp > NET_MAX_FILTER - 2 || OperatorOf(op).None? {
        return false, next, sp;
      }
      sp := sp + 1;
    }
    ItemsMore(done, InstrOf(filter[fp..]).value);
  }

  /** parse_net_filter: accepts exactly the programs whose every instruction fits. */
  method ParseNetFilter(filter: seq<Word>) returns (ok: bool)
    ensures ok <==> Admitted(filter)
  {
    var sp := NET_MAX_FILTER;
    var fp: nat := 0;
    ghost var done: seq<Instr> := [];
    SplitStart(filter);
    while fp < |filter|
      invariant Split(filter, fp, done) && AllFit(done)
      invariant sp == NET_MAX_FILTER - Items(done)
    {
      SplitNext(filter, fp, done);
      ghost var i := InstrOf(filter[fp..]);
      ghost var after := fp + Width(filter[fp]);
      ok, fp, sp := CheckInstr(filter, fp, sp, done);
      if !ok {
        Spoilt(filter, after, done, i);
        return;
      }
      FitNext(done, i.value);
      done := done + [i.value];
    }
    WholeFits(filter, done);
    return true;
  }

  // ---------------------------------------------------------------- the interpreter

  /** The list held by a stack array whose top is at sp. */
  ghost function Listed(stack: array<Value>, sp: nat): seq<Value>
    requires stack.Length == BOTTOM + 1 && sp <= BOTTOM + 1
    reads stack
  {
    stack[sp..]
  }

  /** The cases that may decide at once. */
  method Compare(op: nat, top: Value, arg: Value) returns (verdict: Option<Verdict>)
    requires OperatorOf(op).Some? && ShortCircuit(OperatorOf(op).value)
    ensures verdict == Decides(OperatorOf(op).value, top, arg)
  {
    verdict := None;
    match op {
      case 9 => if top == arg { verdict := Some(Accept); }
      case 10 => if top != arg { verdict := Some(Reject); }
      case 11 => if top == arg { verdict := Some(Reject); }
      case _ => if top != arg { verdict := Some(Accept); }
    }
  }

  /** The second switch of the loop: the operator, on its argument and the stack. */
  method Perform(alu: Alu, stack: array<Value>, at: nat, op: nat, arg: Value)
    returns (sp: nat, verdict: Option<Verdict>)
    requires stack.Length == BOTTOM + 1 && at <= BOTTOM + 1
    requires OperatorOf(op).Some? && (op == 0 ==> at > 0)
    modifies stack
    ensures sp <= BOTTOM + 1
    ensures verdict.Some? ==> Operate(alu, OperatorOf(op).value, arg, old(Listed(stack, at))) == Done(verdict.value)
    ensures verdict.None? ==>
      Operate(alu, OperatorOf(op).value, arg, old(Listed(stack, at))) == Going(Listed(stack, sp))
  {
    sp, verdict := at, None;
    if op == 0 {
      sp := sp - 1;
      stack[sp] := arg;
      assert stack[sp..] == [arg] + old(stack[at..]);
    } else if sp > BOTTOM {
      verdict := Some(Fault);
    } else if 9 <= op <= 12 {
      sp := sp + 1;
      verdict := Compare(op, stack[sp - 1], arg);
      assert stack[sp..] == old(stack[at..])[1..];
    } else {
      var r := alu(OperatorOf(op).value, stack[sp], arg);
      stack[sp] := r;
      assert stack[sp..] == [r] + old(stack[at..])[1..];
    }
  }

  /** The first switch: the argument of the instruction at fp, as an operand of the decoded instruction. */
  method Fetch(alu: Alu, filter: seq<Word>, packet: seq<Word>, at: nat, stack: array<Value>, top: nat)
    returns (fp: nat, sp: nat, arg: Value, verdict: Option<Verdict>)
    requires at < |filter| && InstrOf(filter[at..]).Some? && at + Width(filter[at]) <= |filter|
    requires stack.Length == BOTTOM + 1 && top <= BOTTOM + 1
    ensures fp == at + Width(filter[at])
    ensures top <= sp <= BOTTOM + 1
    ensures sp == top || InstrOf(filter[at..]).value.operand == Pop
    ensures var i := InstrOf(filter[at..]).value;
            && (verdict.Some? ==> Exec(alu, i, packet, Listed(stack, top)) == Done(verdict.value))
            && (verdict.None?
                ==> Exec(alu, i, packet, Listed(stack, top)) == Operate(alu, i.operator, arg, Listed(stack, sp)))
  {
    fp, sp, verdict := at + 1, top, None;
    arg := 0;
    var a := Arg(filter[at]);
    if a == NETF_PUSHLIT {
      arg := filter[fp];
      fp := fp + 1;
    } else if a == NETF_PUSHZERO {
      arg := 0;
    } else if a == NETF_NOPUSH {
      if sp > BOTTOM {
        verdict := Some(Fault);
      } else {
        arg := stack[sp];
        sp := sp + 1;
        assert stack[top..][1..] == stack[sp..];
      }
    } else if a - NETF_PUSHWORD < |packet| {
      arg := packet[a - NETF_PUSHWORD];
    } else {
      verdict := Some(Reject);
    }
  }

  /** One turn of the loop. */
  method Advance(alu: Alu, filter: seq<Word>, packet: seq<Word>, at: nat, stack: array<Value>, top: nat,
                 ghost done: seq<Instr>)
    returns (fp: nat, sp: nat, verdict: Option<Verdict>, ghost more: seq<Instr>)
    requires stack.Length == BOTTOM + 1 && top <= BOTTOM + 1 && at < |filter|
    requires Midway(alu, filter, packet, at, done, Listed(stack, top))
    modifies stack
    ensures at < fp <= |filter| && sp <= BOTTOM + 1 && |more| == |done| + 1
    ensures verdict.Some? ==> verdict.value == Eval(alu, Decode(filter).value, packet, [1])
    ensures verdict.Some? ==> ReachesExactly(alu, Decode(filter).value, packet, |done| + 1)
    ensures verdict.None? ==> Midway(alu, filter, packet, fp, more, Listed(stack, sp))
  {
    Onward(alu, filter, packet, at, done, Listed(stack, top));
    more := done + [InstrOf(filter[at..]).value];
    var arg;
    fp, sp, arg, verdict := Fetch(alu, filter, packet, at, stack, top);
    if verdict.None? {
      sp, verdict := Perform(alu, stack, sp, Op(filter[at]), arg);
    }
  }

  /**
   * The loop of net_do_filter on an admitted filter: it stays inside the filter, its verdict is the list machine's,
   * and its stack index at every instruction boundary is the checker's count plus the short-circuit operators passed.
   */
  method Interpret(alu: Alu, filter: seq<Word>, packet: seq<Word>) returns (verdict: Verdict, indices: seq<int>)
    requires Admitted(filter)
    ensures verdict == Eval(alu, Decode(filter).value, packet, [1])
    ensures Indices(Decode(filter).value, indices)
    ensures ReachesExactly(alu, Decode(filter).value, packet, |indices|)
  {
    var stack := new Value[BOTTOM + 1];
    var sp: nat := BOTTOM;
    var fp := 0;
    stack[sp] := 1;
    ghost var done: seq<Instr> := [];
    ghost var code := Decode(filter).value;
    indices := [sp];
    assert Listed(stack, sp) == [1];
    Outset(alu, filter, packet);
    AtBoundary(alu, filter, packet, 0, [], [1]);
    while fp < |filter|
      invariant sp <= BOTTOM + 1
      invariant Midway(alu, filter, packet, fp, done, Listed(stack, sp))
      invariant |indices| == |done| + 1 && Indices(code, indices)
    {
      var decided;
      fp, sp, decided, done := Advance(alu, filter, packet, fp, stack, sp, done);
      if decided.Some? {
        return decided.value, indices;
      }
      AtBoundary(alu, filter, packet, fp, done, Listed(stack, sp));
      IndicesNext(code, indices, sp);
      indices := indices + [sp];
    }
    AtEnd(alu, filter, packet, done, Listed(stack, sp));
    verdict := if sp > BOTTOM then Fault else if stack[sp] != 0 then Accept else Reject;
  }
}
