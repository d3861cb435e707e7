/** How far the checker and the interpreter have come in a filter, and what each step keeps. */
module FilterProgress {

  import opened FilterCode

  // ---------------------------------------------------------------- decoding

  /** What is decoded so far, and what is left, make up the whole program. */
  ghost predicate Split(filter: seq<Word>, fp: nat, done: seq<Instr>) {
    && fp <= |filter|
    && (Decode(filter[fp..]).None? ==> Decode(filter).None?)
    && (Decode(filter[fp..]).Some? ==> Decode(filter) == Some(done + Decode(filter[fp..]).value))
  }

  lemma SplitStart(filter: seq<Word>)
    ensures Split(filter, 0, [])
  {
    assert filter[0..] == filter;
    if Decode(filter).Some? {
      assert [] + Decode(filter).value == Decode(filter).value;
    }
  }

  lemma SplitNext(filter: seq<Word>, fp: nat, done: seq<Instr>)
    requires Split(filter, fp, done) && fp < |filter|
    ensures InstrOf(filter[fp..]).None? ==> Decode(filter).None?
    ensures InstrOf(filter[fp..]).Some?
            ==> Split(filter, fp + Width(filter[fp]), done + [InstrOf(filter[fp..]).value])
  {
    var f := filter[fp..];
    if InstrOf(f).Some? {
      var width := Width(f[0]);
      assert f[width..] == filter[fp + width..];
      OneMore(Decode(filter), Decode(f), Decode(f[width..]), done, InstrOf(f).value);
    }
  }

  lemma OneMore(whole: Option<seq<Instr>>, part: Option<seq<Instr>>, rest: Option<seq<Instr>>,
                done: seq<Instr>, i: Instr)
    requires part.None? ==> whole.None?
    requires part.Some? ==> whole == Some(done + part.value)
    requires rest.None? ==> part.None?
    requires rest.Some? ==> part == Some([i] + rest.value)
    ensures rest.None? ==> whole.None?
    ensures rest.Some? ==> whole == Some(done + [i] + rest.value)
  {
    if rest.Some? {
      assert done + ([i] + rest.value) == done + [i] + rest.value;
    }
  }

  /** An instruction that cannot be read or does not fit, met after a prefix of the program, spoils the program. */
  lemma Spoilt(filter: seq<Word>, after: nat, done: seq<Instr>, i: Option<Instr>)
    requires i.None? ==> Decode(filter).None?
    requires i.Some? ==> Split(filter, after, done + [i.value]) && !Fits(Items(done), i.value)
    ensures !Admitted(filter)
  {
    if Decode(filter).Some? {
      var code := Decode(filter).value;
      assert code[..|done|] == done && code[|done|] == i.value;
    }
  }

  lemma WholeFits(filter: seq<Word>, done: seq<Instr>)
    requires Split(filter, |filter|, done) && AllFit(done)
    ensures Admitted(filter)
  {
    assert filter[|filter|..] == [];
    assert done + [] == done;
  }

  lemma ItemsMore(done: seq<Instr>, i: Instr)
    ensures Items(done + [i]) == Items(done) + (if Pushes(i) then 1 else 0) - (if i.operator == Nop then 0 else 1)
  {
    assert (done + [i])[..|done|] == done;
  }

  lemma FitNext(done: seq<Instr>, i: Instr)
    requires AllFit(done) && Fits(Items(done), i)
    ensures AllFit(done + [i])
  {
    var code := done + [i];
    forall k | 0 <= k < |code| ensures Fits(Items(code[..k]), code[k]) {
      assert code[..k] == if k < |done| then done[..k] else done;
    }
  }

  // ---------------------------------------------------------------- running

  const BOTTOM := NET_MAX_FILTER   // the cell that holds the initial TRUE

  /** The index the checker's count and the short-circuit operators passed give for a boundary. */
  function IndexAt(code: seq<Instr>, k: nat): int
    requires k <= |code|
  {
    NET_MAX_FILTER - Items(code[..k]) + Shorts(code[..k])
  }

  /** The index at every boundary before the n-th is the one the count gives. */
  ghost predicate Indices(code: seq<Instr>, indices: seq<int>) {
    |indices| <= |code| + 1 && forall k :: 0 <= k < |indices| ==> indices[k] == IndexAt(code, k)
  }

  lemma IndicesNext(code: seq<Instr>, indices: seq<int>, sp: int)
    requires Indices(code, indices) && |indices| <= |code| && sp == IndexAt(code, |indices|)
    ensures Indices(code, indices + [sp])
  {
  }

  /** The boundaries a run comes to are the first n. */
  ghost predicate ReachesExactly(alu: Alu, code: seq<Instr>, packet: seq<Word>, n: nat) {
    forall k :: 0 <= k <= |code| ==> (k < n <==> StackAfter(alu, code, packet, k).Some?)
  }

  /** A run that is at a boundary has been at all before; one that ends behind it comes to none after. */
  lemma {:induction false} ReachedBefore(alu: Alu, code: seq<Instr>, packet: seq<Word>, n: nat, k: nat)
    requires k <= n <= |code| && StackAfter(alu, code, packet, n).Some?
    ensures StackAfter(alu, code, packet, k).Some?
    decreases n
  {
    if k < n {
      ReachedBefore(alu, code, packet, n - 1, k);
    }
  }

  lemma {:induction false} EndedStays(alu: Alu, code: seq<Instr>, packet: seq<Word>, n: nat, k: nat)
    requires n <= k <= |code| && StackAfter(alu, code, packet, n).None?
    ensures StackAfter(alu, code, packet, k).None?
    decreases k
  {
    if n < k {
      EndedStays(alu, code, packet, n, k - 1);
    }
  }

  lemma EndsAt(alu: Alu, code: seq<Instr>, packet: seq<Word>, n: nat, k: nat)
    requires n <= |code| && StackAfter(alu, code, packet, n).Some? && k <= |code|
    requires n == |code| || StackAfter(alu, code, packet, n + 1).None?
    ensures k < n + 1 <==> StackAfter(alu, code, packet, k).Some?
  {
    if k <= n {
      ReachedBefore(alu, code, packet, n, k);
    } else {
      EndedStays(alu, code, packet, n + 1, k);
    }
  }

  lemma EndsAfter(alu: Alu, code: seq<Instr>, packet: seq<Word>, n: nat)
    requires n <= |code| && StackAfter(alu, code, packet, n).Some?
    requires n == |code| || StackAfter(alu, code, packet, n + 1).None?
    ensures ReachesExactly(alu, code, packet, n + 1)
  {
    forall k | 0 <= k <= |code| ensures k < n + 1 <==> StackAfter(alu, code, packet, k).Some? {
      EndsAt(alu, code, packet, n, k);
    }
  }

  /** The stack after the first k instructions of a run that gets so far. */
  function StackAfter(alu: Alu, code: seq<Instr>, packet: seq<Word>, k: nat): Option<seq<Value>>
    requires k <= |code|
  {
    if k == 0 then Some([1]) else
      var s := StackAfter(alu, code, packet, k - 1);
      if s.None? then None else
        var o := Exec(alu, code[k - 1], packet, s.value);
        if o.Done? then None else Some(o.stack)
  }

  /** What an instruction that goes on does to the height of the stack. */
  lemma OutcomeHeight(alu: Alu, i: Instr, packet: seq<Word>, list: seq<Value>)
    requires Exec(alu, i, packet, list).Going?
    ensures |Exec(alu, i, packet, list).stack| == |list| + (if Pushes(i) then 1 else 0)
                                                  - (if i.operator == Nop then 0 else 1)
                                                  - (if ShortCircuit(i.operator) then 1 else 0)
  {
  }

  /** The height of the stack is right for what has been run. */
  ghost predicate Height(done: seq<Instr>, list: seq<Value>) {
    BOTTOM + 1 - |list| == BOTTOM - Items(done) + Shorts(done)
  }

  lemma HeightNext(alu: Alu, done: seq<Instr>, i: Instr, packet: seq<Word>, list: seq<Value>)
    requires Height(done, list) && Exec(alu, i, packet, list).Going?
    ensures Height(done + [i], Exec(alu, i, packet, list).stack)
  {
    assert (done + [i])[..|done|] == done;
    OutcomeHeight(alu, i, packet, list);
  }

  /** Running the rest of the program on the list gives the verdict of the whole program. */
  ghost predicate Agrees(alu: Alu, filter: seq<Word>, packet: seq<Word>, fp: nat, list: seq<Value>) {
    && fp <= |filter|
    && Decode(filter).Some? && Decode(filter[fp..]).Some?
    && Eval(alu, Decode(filter).value, packet, [1]) == Eval(alu, Decode(filter[fp..]).value, packet, list)
  }

  lemma AgreesNext(alu: Alu, filter: seq<Word>, packet: seq<Word>, fp: nat, list: seq<Value>)
    requires Agrees(alu, filter, packet, fp, list) && fp < |filter|
    ensures InstrOf(filter[fp..]).Some? && fp + Width(filter[fp]) <= |filter|
    ensures var o := Exec(alu, InstrOf(filter[fp..]).value, packet, list);
            && (o.Done? ==> Eval(alu, Decode(filter).value, packet, [1]) == o.verdict)
            && (o.Going? ==> Agrees(alu, filter, packet, fp + Width(filter[fp]), o.stack))
  {
    var f := filter[fp..];
    var width := Width(f[0]);
    assert f[width..] == filter[fp + width..];
    var i := InstrOf(f).value;
    var rest := Decode(f[width..]).value;
    assert ([i] + rest)[1..] == rest;
  }

  /** In an admitted filter the next instruction fits. */
  lemma NextFits(filter: seq<Word>, fp: nat, done: seq<Instr>)
    requires Admitted(filter) && Split(filter, fp, done) && fp < |filter|
    ensures InstrOf(filter[fp..]).Some? && Fits(Items(done), InstrOf(filter[fp..]).value)
  {
    var code := Decode(filter).value;
    assert code[..|done|] == done;
    assert Fits(Items(code[..|done|]), code[|done|]);
  }

  /** The next instruction is the one behind what has been run. */
  lemma NextIs(filter: seq<Word>, fp: nat, done: seq<Instr>)
    requires Decode(filter).Some? && Split(filter, fp, done) && fp < |filter|
    ensures InstrOf(filter[fp..]).Some?
    ensures |done| < |Decode(filter).value| && Decode(filter).value[|done|] == InstrOf(filter[fp..]).value
  {
  }

  /** Where the interpreter stands. */
  ghost predicate Midway(alu: Alu, filter: seq<Word>, packet: seq<Word>, fp: nat, done: seq<Instr>, list: seq<Value>) {
    && Admitted(filter)
    && Split(filter, fp, done)
    && Height(done, list)
    && Agrees(alu, filter, packet, fp, list)
    && |done| <= |Decode(filter).value|
    && StackAfter(alu, Decode(filter).value, packet, |done|) == Some(list)
  }

  lemma Outset(alu: Alu, filter: seq<Word>, packet: seq<Word>)
    requires Admitted(filter)
    ensures Midway(alu, filter, packet, 0, [], [1])
  {
    SplitStart(filter);
    assert filter[0..] == filter;
  }

  /** Before each instruction: it can be fetched whole, it fits, and its outcome leads to the verdict. */
  lemma Onward(alu: Alu, filter: seq<Word>, packet: seq<Word>, fp: nat, done: seq<Instr>, list: seq<Value>)
    requires Midway(alu, filter, packet, fp, done, list) && fp < |filter|
    ensures InstrOf(filter[fp..]).Some? && fp + Width(filter[fp]) <= |filter|
    ensures Fits(Items(done), InstrOf(filter[fp..]).value)
    ensures var i := InstrOf(filter[fp..]).value;
            var o := Exec(alu, i, packet, list);
            && (o.Done? ==> Eval(alu, Decode(filter).value, packet, [1]) == o.verdict)
            && (o.Done? ==> ReachesExactly(alu, Decode(filter).value, packet, |done| + 1))
            && (o.Going? ==> Midway(alu, filter, packet, fp + Width(filter[fp]), done + [i], o.stack))
  {
    NextFits(filter, fp, done);
    SplitNext(filter, fp, done);
    AgreesNext(alu, filter, packet, fp, list);
    var i, code := InstrOf(filter[fp..]).value, Decode(filter).value;
    NextIs(filter, fp, done);
    if Exec(alu, i, packet, list).Going? {
      HeightNext(alu, done, i, packet, list);
    } else {
      EndsAfter(alu, code, packet, |done|);
    }
  }

  /** What has been run is a prefix of the program, and the stack gives the index of its boundary. */
  lemma AtBoundary(alu: Alu, filter: seq<Word>, packet: seq<Word>, fp: nat, done: seq<Instr>, list: seq<Value>)
    requires Midway(alu, filter, packet, fp, done, list)
    ensures |done| <= |Decode(filter).value|
    ensures BOTTOM + 1 - |list| == IndexAt(Decode(filter).value, |done|)
  {
    assert Decode(filter).value[..|done|] == done;
  }

  lemma AtEnd(alu: Alu, filter: seq<Word>, packet: seq<Word>, done: seq<Instr>, list: seq<Value>)
    requires Midway(alu, filter, packet, |filter|, done, list)
    ensures Eval(alu, Decode(filter).value, packet, [1]) == Final(list)
    ensures ReachesExactly(alu, Decode(filter).value, packet, |done| + 1)
  {
    assert filter[|filter|..] == [] && done + [] == done;
    EndsAfter(alu, Decode(filter).value, packet, |done|);
  }
}
