/**
 * Packet filters: short programs for a stack machine, sent by a client in 16-bit words and applied to every packet
 * that arrives. This module gives the words their meaning as instructions and says what a program computes on a
 * plain list stack.
 */
module FilterCode {

  type Word = x: nat | x < 0x1_0000

  datatype Option<T> = None | Some(value: T)

  // The stack machine has this many cells besides the one that holds the initial TRUE.
  const NET_MAX_FILTER := 40

  const NETF_NOPUSH := 0
  const NETF_PUSHLIT := 1
  const NETF_PUSHZERO := 2
  const NETF_PUSHWORD := 16

  /** NETF_ARG: the low ten bits of a word. */
  function Arg(w: Word): nat {
    w % 0x400
  }

  /** NETF_OP: the high six bits. */
  function Op(w: Word): nat {
    w / 0x400
  }

  datatype Operand = Pop | Literal(value: Word) | Zero | PacketWord(n: nat)

  datatype Operator =
    | Nop | Eq | Lt | Le | Gt | Ge | And | Or | Xor | Cor | Cand | Cnor | Cnand | Neq | Lsh | Rsh | Add | Sub

  datatype Instr = Instr(operand: Operand, operator: Operator)

  function OperatorOf(op: nat): Option<Operator> {
    match op
    case 0 => Some(Nop)
    case 1 => Some(Eq)
    case 2 => Some(Lt)
    case 3 => Some(Le)
    case 4 => Some(Gt)
    case 5 => Some(Ge)
    case 6 => Some(And)
    case 7 => Some(Or)
    case 8 => Some(Xor)
    case 9 => Some(Cor)
    case 10 => Some(Cand)
    case 11 => Some(Cnor)
    case 12 => Some(Cnand)
    case 13 => Some(Neq)
    case 14 => Some(Lsh)
    case 15 => Some(Rsh)
    case 16 => Some(Add)
    case 17 => Some(Sub)
    case _ => None
  }

  /** How many words the instruction at the head of f takes. */
  function Width(w: Word): nat {
    if Arg(w) == NETF_PUSHLIT then 2 else 1
  }

  function OperandOf(f: seq<Word>): Option<Operand>
    requires f != []
  {
    var arg := Arg(f[0]);
    if arg == NETF_NOPUSH then Some(Pop)
    else if arg == NETF_PUSHLIT then (if |f| < 2 then None else Some(Literal(f[1])))
    else if arg == NETF_PUSHZERO then Some(Zero)
    else if arg < NETF_PUSHWORD then None
    else Some(PacketWord(arg - NETF_PUSHWORD))
  }

  function InstrOf(f: seq<Word>): Option<Instr>
    requires f != []
  {
    var operand := OperandOf(f);
    var operator := OperatorOf(Op(f[0]));
    if operand.None? || operator.None? then None else Some(Instr(operand.value, operator.value))
  }

  /** The program the words spell, if they spell one. */
  function Decode(f: seq<Word>): Option<seq<Instr>>
    decreases |f|
  {
    if f == [] then Some([])
    else if InstrOf(f).None? then None
    else
      var rest := Decode(f[Width(f[0])..]);
      if rest.None? then None else Some([InstrOf(f).value] + rest.value)
  }

  // ---------------------------------------------------------------- stack heights

  predicate Pushes(i: Instr) {
    i.operand != Pop
  }

  /** The operators that compare, drop their left operand too, and may end the program. */
  predicate ShortCircuit(op: Operator) {
    op == Cor || op == Cand || op == Cnor || op == Cnand
  }

  /** Values on the stack above the initial TRUE, taking each operator to leave one result. */
  function Items(code: seq<Instr>): int {
    if code == [] then 0 else
      var i := code[|code| - 1];
      Items(code[..|code| - 1]) + (if Pushes(i) then 1 else 0) - (if i.operator == Nop then 0 else 1)
  }

  function Shorts(code: seq<Instr>): nat {
    if code == [] then 0 else
      Shorts(code[..|code| - 1]) + (if ShortCircuit(code[|code| - 1].operator) then 1 else 0)
  }

  /** There is room for what the instruction pushes, and an operator finds two values that the program pushed. */
  predicate Fits(items: int, i: Instr) {
    var n := items + if Pushes(i) then 1 else 0;
    n <= NET_MAX_FILTER - 2 && (i.operator != Nop ==> n >= 2)
  }

  predicate AllFit(code: seq<Instr>) {
    forall k :: 0 <= k < |code| ==> Fits(Items(code[..k]), code[k])
  }

  predicate Admitted(f: seq<Word>) {
    Decode(f).Some? && AllFit(Decode(f).value)
  }

  lemma ItemsNext(code: seq<Instr>, k: nat)
    requires k < |code|
    ensures Items(code[..k + 1]) == Items(code[..k]) + (if Pushes(code[k]) then 1 else 0)
                                    - (if code[k].operator == Nop then 0 else 1)
    ensures Shorts(code[..k + 1]) == Shorts(code[..k]) + (if ShortCircuit(code[k].operator) then 1 else 0)
  {
    assert code[..k + 1][..k] == code[..k];
  }

  /** An admitted program never takes back more than it pushed. */
  lemma {:induction false} ItemsBounded(code: seq<Instr>, k: nat)
    requires AllFit(code) && k <= |code|
    ensures 0 <= Items(code[..k]) <= NET_MAX_FILTER - 2
  {
    if k == 0 {
      assert code[..0] == [];
    } else {
      ItemsBounded(code, k - 1);
      ItemsNext(code, k - 1);
      assert Fits(Items(code[..k - 1]), code[k - 1]);
    }
  }

  // ---------------------------------------------------------------- what a program computes

  /** A stack cell: 32 bits, read as unsigned. */
  type Value = x: nat | x < 0x1_0000_0000

  /** What the operators that leave a result compute; FilterAlu has the real one. */
  type Alu = (Operator, Value, Value) -> Value

  datatype Verdict = Accept | Reject | Fault

  /** The verdict a short-circuit operator gives at once, if it gives one. */
  function Decides(op: Operator, left: Value, arg: Value): Option<Verdict> {
    if op == Cor && left == arg then Some(Accept)
    else if op == Cand && left != arg then Some(Reject)
    else if op == Cnor && left == arg then Some(Reject)
    else if op == Cnand && left != arg then Some(Accept)
    else None
  }

  datatype Outcome = Going(stack: seq<Value>) | Done(verdict: Verdict)

  /** An operator on its argument and the stack, top first. */
  function Operate(alu: Alu, op: Operator, arg: Value, stack: seq<Value>): Outcome {
    if op == Nop then Going([arg] + stack)
    else if stack == [] then Done(Fault)
    else if ShortCircuit(op) then
      var v := Decides(op, stack[0], arg);
      if v.Some? then Done(v.value) else Going(stack[1..])
    else Going([alu(op, stack[0], arg)] + stack[1..])
  }

  function Exec(alu: Alu, i: Instr, packet: seq<Word>, stack: seq<Value>): Outcome {
    match i.operand
    case Pop => if stack == [] then Done(Fault) else Operate(alu, i.operator, stack[0], stack[1..])
    case Literal(v) => Operate(alu, i.operator, v, stack)
    case Zero => Operate(alu, i.operator, 0, stack)
    case PacketWord(n) =>
      if n < |packet| then Operate(alu, i.operator, packet[n], stack) else Done(Reject)
  }

  function Final(stack: seq<Value>): Verdict {
    if stack == [] then Fault else if stack[0] != 0 then Accept else Reject
  }

  /** Run a program on a list for a stack; Fault means it reached below the bottom. */
  function Eval(alu: Alu, code: seq<Instr>, packet: seq<Word>, stack: seq<Value>): Verdict
    decreases |code|
  {
    if code == [] then Final(stack) else
      var o := Exec(alu, code[0], packet, stack);
      if o.Done? then o.verdict else Eval(alu, code[1..], packet, o.stack)
  }
}
