/**
 * What each word of a filter does, by its number: the operands it pushes, the result each operator leaves, and which
 * comparisons decide at once. The laws are about numbers, bits and verdicts, for all 32-bit cells.
 */
module FilterMeaning {

  import opened Arithmetic
  import opened FilterAlu
  import opened FilterBits
  import opened FilterCode
  import opened FilterSafety

  /** One word, or a word and its literal, executed on a stack. */
  function Does(words: seq<Word>, packet: seq<Word>, stack: seq<Value>): Option<Outcome>
    requires words != []
  {
    var i := InstrOf(words);
    if i.None? then None else Some(Exec(Apply, i.value, packet, stack))
  }

  /** The word with an operator's number and an argument's. */
  function WordOf(op: nat, arg: nat): Word
    requires op < 64 && arg < 0x400
  {
    0x400 * op + arg
  }

  lemma WordParts(op: nat, arg: nat)
    requires op < 64 && arg < 0x400
    ensures Op(WordOf(op, arg)) == op && Arg(WordOf(op, arg)) == arg
  {
  }

  /** The operator with a number, applied to the two values on top of the stack, leaves one value in their place. */
  ghost predicate Leaves(op: nat, x: Value, y: Value, r: Value) {
    op < 64 &&
    forall packet: seq<Word>, rest: seq<Value> ::
      Does([WordOf(op, 0)], packet, [y, x] + rest) == Some(Going([r] + rest))
  }

  /** It ends the program at once, or goes on without the two values. */
  ghost predicate Ends(op: nat, x: Value, y: Value, v: Verdict) {
    op < 64 &&
    forall packet: seq<Word>, rest: seq<Value> :: Does([WordOf(op, 0)], packet, [y, x] + rest) == Some(Done(v))
  }

  ghost predicate GoesOn(op: nat, x: Value, y: Value) {
    op < 64 &&
    forall packet: seq<Word>, rest: seq<Value> :: Does([WordOf(op, 0)], packet, [y, x] + rest) == Some(Going(rest))
  }

  lemma OnTop(x: Value, y: Value, rest: seq<Value>)
    ensures ([y, x] + rest)[0] == y && ([y, x] + rest)[1..] == [x] + rest
    ensures ([x] + rest)[0] == x && ([x] + rest)[1..] == rest
  {
  }

  lemma LeavesResult(op: nat, x: Value, y: Value)
    requires op < 64 && OperatorOf(op).Some? && !ShortCircuit(OperatorOf(op).value) && OperatorOf(op) != Some(Nop)
    ensures Leaves(op, x, y, Apply(OperatorOf(op).value, x, y))
  {
    WordParts(op, 0);
    forall packet: seq<Word>, rest: seq<Value>
      ensures Does([WordOf(op, 0)], packet, [y, x] + rest) == Some(Going([Apply(OperatorOf(op).value, x, y)] + rest))
    {
      OnTop(x, y, rest);
    }
  }

  // ---------------------------------------------------------------- comparisons

  /** The six comparisons, by their numbers. */
  predicate Compares(op: nat, x: Value, y: Value) {
    match op
    case 1 => x == y
    case 2 => x < y
    case 3 => x <= y
    case 4 => x > y
    case 5 => x >= y
    case _ => x != y
  }

  predicate IsComparison(op: nat) {
    1 <= op <= 5 || op == 13
  }

  lemma ComparisonLeaves(op: nat, x: Value, y: Value)
    requires IsComparison(op)
    ensures Leaves(op, x, y, if Compares(op, x, y) then 1 else 0)
  {
    LeavesResult(op, x, y);
  }

  // ---------------------------------------------------------------- bits, sums and shifts

  lemma BitwiseApplied(x: Value, y: Value, i: nat)
    requires i < 32
    ensures Bit(Apply(And, x, y), i) <==> Bit(x, i) && Bit(y, i)
    ensures Bit(Apply(Or, x, y), i) <==> Bit(x, i) || Bit(y, i)
    ensures Bit(Apply(Xor, x, y), i) <==> Bit(x, i) != Bit(y, i)
  {
    BitwiseBits((a, b) => a && b, x, y, 32, i);
    BitwiseBits((a, b) => a || b, x, y, 32, i);
    BitwiseBits((a, b) => a != b, x, y, 32, i);
  }

  /** And, or, exclusive or: bit by bit. */
  lemma BitwiseLeaves(x: Value, y: Value) returns (and: Value, or: Value, xor: Value)
    ensures Leaves(6, x, y, and) && Leaves(7, x, y, or) && Leaves(8, x, y, xor)
    ensures forall i: nat :: i < 32 ==> (Bit(and, i) <==> Bit(x, i) && Bit(y, i))
    ensures forall i: nat :: i < 32 ==> (Bit(or, i) <==> Bit(x, i) || Bit(y, i))
    ensures forall i: nat :: i < 32 ==> (Bit(xor, i) <==> Bit(x, i) != Bit(y, i))
  {
    and, or, xor := Apply(And, x, y), Apply(Or, x, y), Apply(Xor, x, y);
    LeavesResult(6, x, y);
    LeavesResult(7, x, y);
    LeavesResult(8, x, y);
    forall i: nat | i < 32
      ensures Bit(and, i) <==> Bit(x, i) && Bit(y, i)
      ensures Bit(or, i) <==> Bit(x, i) || Bit(y, i)
      ensures Bit(xor, i) <==> Bit(x, i) != Bit(y, i)
    {
      BitwiseApplied(x, y, i);
    }
  }

  /** Sums in 32 bits, and differences that undo them. */
  lemma SumLeaves(x: Value, y: Value) returns (sum: Value)
    ensures sum == x + y || sum == x + y - WORD
    ensures Leaves(16, x, y, sum) && Leaves(17, sum, y, x)
  {
    sum := Apply(Add, x, y);
    LeavesResult(16, x, y);
    LeavesResult(17, sum, y);
  }

  /** Shifts by the count modulo 32: zeros come in from the right, and copies of the sign from the left. */
  lemma ShiftLeaves(x: Value, y: Value) returns (left: Value, right: Value)
    ensures Leaves(14, x, y, left) && Leaves(15, x, y, right)
    ensures forall i: nat :: i < 32 ==> (Bit(left, i) <==> i >= y % 32 && Bit(x, i - y % 32))
    ensures forall i: nat :: i < 32 ==> (Bit(right, i) <==> Bit(x, if i + y % 32 < 32 then i + y % 32 else 31))
  {
    left, right := Apply(Lsh, x, y), Apply(Rsh, x, y);
    LeavesResult(14, x, y);
    LeavesResult(15, x, y);
    forall i: nat | i < 32
      ensures Bit(left, i) <==> i >= y % 32 && Bit(x, i - y % 32)
      ensures Bit(right, i) <==> Bit(x, if i + y % 32 < 32 then i + y % 32 else 31)
    {
      ShiftUpBits(x, y % 32, i);
      ShiftSignedBits(x, y % 32, i);
    }
  }

  // ---------------------------------------------------------------- operators that may decide at once

  /** Two of them end the program on equal values and two on different ones; two accept and two reject. */
  lemma ShortCircuitsDecide(x: Value, y: Value)
    ensures if x == y then Ends(9, x, y, Accept) else GoesOn(9, x, y)
    ensures if x == y then GoesOn(10, x, y) else Ends(10, x, y, Reject)
    ensures if x == y then Ends(11, x, y, Reject) else GoesOn(11, x, y)
    ensures if x == y then GoesOn(12, x, y) else Ends(12, x, y, Accept)
  {
    forall op: nat, packet: seq<Word>, rest: seq<Value> | 9 <= op <= 12
      ensures Does([WordOf(op, 0)], packet, [y, x] + rest) ==
        var v := Decides(OperatorOf(op).value, x, y); if v.Some? then Some(Done(v.value)) else Some(Going(rest))
    {
      WordParts(op, 0);
      OnTop(x, y, rest);
    }
  }

  // ---------------------------------------------------------------- operands

  /** What is pushed: a literal, zero, or a word of the packet, without which the packet is rejected; or nothing. */
  lemma Operands(v: Word, n: nat, packet: seq<Word>, stack: seq<Value>)
    requires n < 0x3f0
    ensures Does([1, v], packet, stack) == Some(Going([v] + stack))
    ensures Does([2], packet, stack) == Some(Going([0] + stack))
    ensures Does([16 + n], packet, stack) ==
      if n < |packet| then Some(Going([packet[n]] + stack)) else Some(Done(Reject))
    ensures stack != [] ==> Does([0], packet, stack) == Some(Going(stack))
  {
    WordParts(0, 16 + n);
    assert InstrOf([1, v]) == Some(Instr(Literal(v), Nop)) && InstrOf([2]) == Some(Instr(Zero, Nop));
    assert InstrOf([16 + n]) == Some(Instr(PacketWord(n), Nop)) && InstrOf([0]) == Some(Instr(Pop, Nop));
    if stack != [] {
      assert [stack[0]] + stack[1..] == stack;
    }
  }

  /** A word with an operator's number and an argument's decodes to the two. */
  lemma Decoded(op: nat, arg: nat, more: seq<Word>)
    requires op < 18 && arg < 0x400
    ensures var own, plain := InstrOf([WordOf(op, arg)] + more), InstrOf([WordOf(0, arg)] + more);
      && own.Some? == plain.Some?
      && (own.Some? ==> OperatorOf(op).Some? && own.value == Instr(plain.value.operand, OperatorOf(op).value))
      && (plain.Some? ==> plain.value.operator == Nop)
  {
    WordParts(op, arg);
    WordParts(0, arg);
    DecodedAs(WordOf(op, arg), WordOf(0, arg), op, more);
  }

  lemma DecodedAs(v: Word, w: Word, op: nat, more: seq<Word>)
    requires Op(v) == op < 18 && Op(w) == 0 && Arg(v) == Arg(w)
    ensures var own, plain := InstrOf([v] + more), InstrOf([w] + more);
      && own.Some? == plain.Some?
      && (own.Some? ==> OperatorOf(op).Some? && own.value == Instr(plain.value.operand, OperatorOf(op).value))
      && (plain.Some? ==> plain.value.operator == Nop)
  {
    OperandSame(v, w, more);
    OperatorKnown(op);
    assert ([v] + more)[0] == v && ([w] + more)[0] == w;
  }

  lemma OperandSame(v: Word, w: Word, more: seq<Word>)
    requires Arg(v) == Arg(w)
    ensures OperandOf([v] + more) == OperandOf([w] + more)
  {
  }

  lemma OperatorKnown(op: nat)
    ensures OperatorOf(op).Some? <==> op < 18
  {
  }

  /** What an operand other than the stack's top comes to. */
  function Fetched(o: Operand, packet: seq<Word>): Option<Value> {
    match o
    case Pop => None
    case Literal(v) => Some(v)
    case Zero => Some(0)
    case PacketWord(n) => if n < |packet| then Some(packet[n]) else None
  }

  lemma ExecFetched(o: Operand, op: Operator, packet: seq<Word>, stack: seq<Value>)
    requires Fetched(o, packet).Some?
    ensures Exec(Apply, Instr(o, op), packet, stack) == Operate(Apply, op, Fetched(o, packet).value, stack)
    ensures Exec(Apply, Instr(Pop, op), packet, [Fetched(o, packet).value] + stack) ==
      Operate(Apply, op, Fetched(o, packet).value, stack)
  {
    assert ([Fetched(o, packet).value] + stack)[1..] == stack;
  }

  /** An operator with an operand of its own is the operand pushed and then the operator. */
  lemma OwnOperand(op: nat, arg: nat, more: seq<Word>, packet: seq<Word>, stack: seq<Value>)
    requires 0 < op < 18 && 0 < arg < 0x400
    ensures var pushed := Does([WordOf(0, arg)] + more, packet, stack);
      && (pushed.Some? && pushed.value.Going? ==>
            Does([WordOf(op, arg)] + more, packet, stack) == Does([WordOf(op, 0)], packet, pushed.value.stack))
      && (pushed.Some? && pushed.value.Done? ==> Does([WordOf(op, arg)] + more, packet, stack) == pushed)
  {
    Decoded(op, arg, more);
    Decoded(op, 0, []);
    WordParts(0, arg);
    assert [WordOf(op, 0)] + [] == [WordOf(op, 0)];
    var plain := InstrOf([WordOf(0, arg)] + more);
    if plain.Some? && Fetched(plain.value.operand, packet).Some? {
      ExecFetched(plain.value.operand, Nop, packet, stack);
      ExecFetched(plain.value.operand, OperatorOf(op).value, packet, stack);
    }
  }

  /** Numbers that are no operators and no operands. */
  lemma Unassigned(op: nat, arg: nat, more: seq<Word>, packet: seq<Word>, stack: seq<Value>)
    requires op < 64 && arg < 0x400
    ensures Does([WordOf(op, arg)] + more, packet, stack) == None <==>
      op >= 18 || 2 < arg < 16 || (arg == 1 && more == [])
  {
    WordParts(op, arg);
    NoInstr(WordOf(op, arg), more);
  }

  lemma NoInstr(w: Word, more: seq<Word>)
    ensures InstrOf([w] + more) == None <==> Op(w) >= 18 || 2 < Arg(w) < 16 || (Arg(w) == 1 && more == [])
  {
    OperatorKnown(Op(w));
    NoOperand(w, more);
    assert ([w] + more)[0] == w;
  }

  lemma NoOperand(w: Word, more: seq<Word>)
    ensures OperandOf([w] + more) == None <==> 2 < Arg(w) < 16 || (Arg(w) == 1 && more == [])
  {
    assert ([w] + more)[0] == w && |[w] + more| == 1 + |more|;
  }

  // ---------------------------------------------------------------- whole filters

  /** The verdict of a filter on a packet, as net_do_filter gives it. */
  function Says(filter: seq<Word>, packet: seq<Word>): Verdict
    requires Decode(filter).Some?
  {
    Eval(Apply, Decode(filter).value, packet, [1])
  }

  /** A filter of one push and one operator with a literal decodes to the two. */
  lemma TwoInstructions(first: Word, second: Word, op: nat, y: Word)
    requires Op(second) == op < 18 && Arg(second) == 1 && Op(first) == 0 && Arg(first) >= 16
    ensures Decode([first, second, y]) ==
      Some([Instr(PacketWord(Arg(first) - 16), Nop), Instr(Literal(y), OperatorOf(op).value)])
  {
    OperatorKnown(op);
    var f, rest: seq<Word> := [first, second, y], [second, y];
    assert f[1..] == rest && rest[2..] == [];
    assert OperandOf(rest) == Some(Literal(y)) && OperandOf(f) == Some(PacketWord(Arg(first) - 16));
    var last := Instr(Literal(y), OperatorOf(op).value);
    assert InstrOf(rest) == Some(last) && [last] + [] == [last];
    assert Decode(rest[2..]) == Some([]) && Decode(rest) == Some([last]);
    var push := Instr(PacketWord(Arg(first) - 16), Nop);
    assert InstrOf(f) == Some(push) && [push] + [last] == [push, last];
  }

  /** A push and an operator with an operand of its own fit the stack. */
  lemma TwoFit(a: Instr, b: Instr)
    requires a.operator == Nop && Pushes(a) && b.operator != Nop && Pushes(b)
    ensures AllFit([a, b])
  {
    var code := [a, b];
    assert code[..0] == [];
    ItemsNext(code, 0);
  }

  lemma TwoEvaluated(a: Instr, b: Instr, packet: seq<Word>, x: Value, r: Value)
    requires Exec(Apply, a, packet, [1]) == Going([x, 1]) && Exec(Apply, b, packet, [x, 1]) == Going([r, 1])
    ensures Eval(Apply, [a, b], packet, [1]) == if r != 0 then Accept else Reject
  {
    var code := [a, b];
    assert code[0..] == code && code[2..] == [];
    EvalStep(Apply, code, packet, 0, [1]);
    EvalStep(Apply, code, packet, 1, [x, 1]);
  }

  lemma TwoOutcome(n: nat, op: nat, y: Word, packet: seq<Word>)
    requires IsComparison(op) && n < |packet|
    ensures Exec(Apply, Instr(PacketWord(n), Nop), packet, [1]) == Going([packet[n], 1])
    ensures Exec(Apply, Instr(Literal(y), OperatorOf(op).value), packet, [packet[n], 1]) ==
      Going([if Compares(op, packet[n], y) then 1 else 0, 1])
  {
    assert [packet[n]] + [1] == [packet[n], 1] && [packet[n], 1][1..] == [1];
  }

  /** A filter of two words and a literal, by what the words are made of. */
  lemma ComparisonWords(first: Word, second: Word, op: nat, n: nat, y: Word, packet: seq<Word>)
    requires IsComparison(op) && n < |packet|
    requires Op(first) == 0 && Arg(first) == 16 + n && Op(second) == op && Arg(second) == 1
    ensures Admitted([first, second, y])
    ensures Says([first, second, y], packet) == if Compares(op, packet[n], y) then Accept else Reject
  {
    TwoInstructions(first, second, op, y);
    var a, b := Instr(PacketWord(n), Nop), Instr(Literal(y), OperatorOf(op).value);
    TwoFit(a, b);
    TwoOutcome(n, op, y, packet);
    TwoEvaluated(a, b, packet, packet[n], if Compares(op, packet[n], y) then 1 else 0);
  }

  /**
   * Filters that compare a word of the packet with a literal, as clients write them: each is accepted by the checker,
   * and accepts exactly the packets in which the numbers compare so.
   */
  lemma ComparisonFilters(op: nat, n: nat, y: Word, packet: seq<Word>)
    requires IsComparison(op) && n < |packet| && n < 0x3f0
    ensures Admitted([16 + n, WordOf(op, 1), y])
    ensures Says([16 + n, WordOf(op, 1), y], packet) == if Compares(op, packet[n], y) then Accept else Reject
  {
    WordParts(op, 1);
    WordParts(0, 16 + n);
    ComparisonWords(16 + n, WordOf(op, 1), op, n, y, packet);
  }

  // ---------------------------------------------------------------- how much a filter may push

  lemma {:induction false} ZerosPushed(n: nat)
    ensures Items(seq(n, _ => Instr(Zero, Nop))) == n
  {
    if n > 0 {
      ZerosPushed(n - 1);
      assert seq(n, _ => Instr(Zero, Nop))[..n - 1] == seq(n - 1, _ => Instr(Zero, Nop));
    }
  }

  /** A program of pushes alone fits if and only if there are at most 38 of them. */
  lemma PushesFitIff(n: nat)
    ensures AllFit(seq(n, _ => Instr(Zero, Nop))) <==> n <= 38
  {
    var code := seq(n, _ => Instr(Zero, Nop));
    forall k | 0 <= k < n ensures Items(code[..k]) == k {
      ZerosPushed(k);
      assert code[..k] == seq(k, _ => Instr(Zero, Nop));
    }
    if n > 38 {
      assert !Fits(Items(code[..38]), code[38]);
    }
  }

  /** An operator fits at the start of a program in no case, and after one push only with an operand of its own. */
  lemma OperatorsNeedTwo(a: Instr, b: Instr)
    requires a.operator == Nop && Pushes(a) && b.operator != Nop
    ensures !AllFit([b]) && (AllFit([a, b]) <==> Pushes(b))
  {
    var code, alone := [a, b], [b];
    assert code[..0] == [] && alone[..0] == [];
    ItemsNext(code, 0);
    assert Fits(Items(code[..1]), code[1]) <==> Pushes(b);
    assert !Fits(Items(alone[..0]), alone[0]);
  }
}
