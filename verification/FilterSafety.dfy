/** When an admitted filter keeps inside its stack. */
module FilterSafety {

  import opened FilterCode
  import opened FilterProgress

  lemma EvalStep(alu: Alu, code: seq<Instr>, packet: seq<Word>, k: nat, list: seq<Value>)
    requires k < |code|
    ensures var o := Exec(alu, code[k], packet, list);
            Eval(alu, code[k..], packet, list) ==
              if o.Done? then o.verdict else Eval(alu, code[k + 1..], packet, o.stack)
  {
    assert code[k..][1..] == code[k + 1..];
  }

  /** The run from the k-th boundary gives the verdict of the whole run. */
  lemma {:induction false} EvalFrom(alu: Alu, code: seq<Instr>, packet: seq<Word>, k: nat)
    requires k <= |code| && StackAfter(alu, code, packet, k).Some?
    ensures Eval(alu, code, packet, [1]) == Eval(alu, code[k..], packet, StackAfter(alu, code, packet, k).value)
  {
    if k == 0 {
      assert code[0..] == code;
    } else {
      EvalFrom(alu, code, packet, k - 1);
      EvalStep(alu, code, packet, k - 1, StackAfter(alu, code, packet, k - 1).value);
    }
  }

  /** The height of the stack at a boundary, whatever the packet: the index of the interpreter seen from the bottom. */
  lemma {:induction false} HeightAt(alu: Alu, code: seq<Instr>, packet: seq<Word>, k: nat)
    requires k <= |code| && StackAfter(alu, code, packet, k).Some?
    ensures |StackAfter(alu, code, packet, k).value| == BOTTOM + 1 - IndexAt(code, k)
  {
    if k == 0 {
      assert code[..0] == [];
    } else {
      HeightAt(alu, code, packet, k - 1);
      ItemsNext(code, k - 1);
      OutcomeHeight(alu, code[k - 1], packet, StackAfter(alu, code, packet, k - 1).value);
    }
  }

  /** The cells the k-th instruction, or the final test, reads: from the index upwards. */
  function Reads(code: seq<Instr>, k: nat): nat
    requires k <= |code|
  {
    if k == |code| then 1 else
      (if code[k].operand == Pop then 1 else 0) + (if code[k].operator == Nop then 0 else 1)
  }

  /** The instruction at k reads no cell above the one that holds the initial TRUE. */
  predicate Deep(code: seq<Instr>, k: nat)
    requires k <= |code|
  {
    IndexAt(code, k) + Reads(code, k) <= BOTTOM + 1
  }

  /** The packet has the word that the k-th instruction names, if it names one. */
  predicate Present(code: seq<Instr>, packet: seq<Word>, k: nat)
    requires k <= |code|
  {
    k < |code| && code[k].operand.PacketWord? ==> code[k].operand.n < |packet|
  }

  /** One instruction leaves the stack exactly when it is not deep enough. */
  lemma FaultAt(alu: Alu, code: seq<Instr>, packet: seq<Word>, k: nat)
    requires k <= |code| && StackAfter(alu, code, packet, k).Some?
    ensures k < |code|
            ==> (Exec(alu, code[k], packet, StackAfter(alu, code, packet, k).value) == Done(Fault)
                 <==> !Deep(code, k) && Present(code, packet, k))
    ensures k == |code| ==> (Final(StackAfter(alu, code, packet, k).value) == Fault <==> !Deep(code, k))
  {
    HeightAt(alu, code, packet, k);
  }

  /** The run leaves the stack exactly when it reaches an instruction for which the stack is not deep enough. */
  ghost predicate Overruns(alu: Alu, code: seq<Instr>, packet: seq<Word>) {
    exists k :: 0 <= k <= |code| && StackAfter(alu, code, packet, k).Some? && !Deep(code, k) && Present(code, packet, k)
  }

  lemma {:induction false} FaultFrom(alu: Alu, code: seq<Instr>, packet: seq<Word>, k: nat)
    requires k <= |code| && StackAfter(alu, code, packet, k).Some?
    requires Eval(alu, code[k..], packet, StackAfter(alu, code, packet, k).value) == Fault
    ensures Overruns(alu, code, packet)
    decreases |code| - k
  {
    FaultAt(alu, code, packet, k);
    if k < |code| && StackAfter(alu, code, packet, k + 1).Some? {
      EvalStep(alu, code, packet, k, StackAfter(alu, code, packet, k).value);
      FaultFrom(alu, code, packet, k + 1);
    }
  }

  lemma FaultIffOverruns(alu: Alu, code: seq<Instr>, packet: seq<Word>)
    ensures Eval(alu, code, packet, [1]) == Fault <==> Overruns(alu, code, packet)
  {
    if Eval(alu, code, packet, [1]) == Fault {
      assert code[0..] == code;
      FaultFrom(alu, code, packet, 0);
    }
    if Overruns(alu, code, packet) {
      var k :| 0 <= k <= |code| && StackAfter(alu, code, packet, k).Some? && !Deep(code, k) && Present(code, packet, k);
      EvalFrom(alu, code, packet, k);
      FaultAt(alu, code, packet, k);
    }
  }

  /** A filter deep enough everywhere is safe on every packet. */
  lemma DeepIsSafe(alu: Alu, filter: seq<Word>, packet: seq<Word>)
    requires Admitted(filter)
    requires forall k :: 0 <= k <= |Decode(filter).value| ==> Deep(Decode(filter).value, k)
    ensures Eval(alu, Decode(filter).value, packet, [1]) != Fault
  {
    FaultIffOverruns(alu, Decode(filter).value, packet);
  }

  lemma {:induction false} NoShorts(code: seq<Instr>, k: nat)
    requires k <= |code| && Shorts(code) == 0
    ensures Shorts(code[..k]) == 0
    decreases |code| - k
  {
    if k == |code| {
      assert code[..k] == code;
    } else {
      NoShorts(code, k + 1);
      ItemsNext(code, k);
    }
  }

  /**
   * Without short-circuit operators the check is enough: the index stays in 2..40, and the program reaches its
   * verdict inside the stack on every packet.
   */
  lemma PlainFiltersAreSafe(alu: Alu, filter: seq<Word>, packet: seq<Word>)
    requires Admitted(filter) && Shorts(Decode(filter).value) == 0
    ensures forall k :: 0 <= k <= |Decode(filter).value| ==> 2 <= IndexAt(Decode(filter).value, k) <= BOTTOM
    ensures Eval(alu, Decode(filter).value, packet, [1]) != Fault
  {
    var code := Decode(filter).value;
    forall k | 0 <= k <= |code|
      ensures 2 <= IndexAt(code, k) <= BOTTOM && Deep(code, k)
    {
      NoShorts(code, k);
      ItemsBounded(code, k);
      assert k < |code| ==> Fits(Items(code[..k]), code[k]);
    }
    DeepIsSafe(alu, filter, packet);
  }

  // push zero; compare it with zero, and go on if equal; compare with one, and go on if equal
  const PUSH := Instr(Zero, Nop)
  const CAND_ZERO := Instr(Zero, Cand)
  const CAND_ONE := Instr(Literal(1), Cand)
  const ESCAPING: seq<Word> := [2, 10242, 10241, 1]

  lemma EscapingDecoded()
    ensures Decode(ESCAPING) == Some([PUSH, CAND_ZERO, CAND_ONE])
  {
    var one: seq<Word> := [10241, 1];
    assert one[2..] == [] && Width(one[0]) == 2;
    assert InstrOf(one) == Some(CAND_ONE);
    assert Decode(one).value == [CAND_ONE];
    var two: seq<Word> := [10242, 10241, 1];
    assert two[1..] == one && Width(two[0]) == 1;
    assert InstrOf(two) == Some(CAND_ZERO);
    assert Decode(two).value == [CAND_ZERO, CAND_ONE];
    assert ESCAPING[1..] == two && Width(ESCAPING[0]) == 1;
    assert InstrOf(ESCAPING) == Some(PUSH);
    assert Decode(ESCAPING).value == [PUSH, CAND_ZERO, CAND_ONE];
  }

  /** With short-circuit operators it is not: this filter is admitted, and leaves the stack on the empty packet. */
  lemma ShortCircuitsEscape(alu: Alu)
    ensures Admitted(ESCAPING) && Eval(alu, Decode(ESCAPING).value, [], [1]) == Fault
  {
    EscapingDecoded();
    var code := [PUSH, CAND_ZERO, CAND_ONE];
    assert code[..0] == [];
    ItemsNext(code, 0);
    ItemsNext(code, 1);
    assert Fits(Items(code[..0]), code[0]) && Fits(Items(code[..1]), code[1]) && Fits(Items(code[..2]), code[2]);
    assert code[0..] == code && code[3..] == [];
    EvalStep(alu, code, [], 0, [1]);
    EvalStep(alu, code, [], 1, [0, 1]);
    EvalStep(alu, code, [], 2, [1]);
  }
}
