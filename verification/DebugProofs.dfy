/** How the breakpoint list and its planted bytes follow the ideal debugger. */
module DebugProofs {

  import opened BreakSpec
  import opened DebugSpec

  /** The list without the bytes saved in it. */
  function Plain(list: seq<Bkpt>): (r: seq<Bkpt>)
    ensures |r| == |list|
  {
    seq(|list|, i requires 0 <= i < |list| => list[i].(inst := 0))
  }

  lemma FindPlain(c: Context, list: seq<Bkpt>, m: Map, a: Addr)
    ensures Find(c, Plain(list), m, a) == Find(c, list, m, a)
  {
    var k := Find(c, list, m, a);
    forall i | 0 <= i < |list| ensures At(c, Plain(list)[i], m, a) <==> At(c, list[i], m, a) {}
    FindIs(c, Plain(list), m, a, k);
  }

  lemma TickPlain(c: Context, list: seq<Bkpt>, pc: Addr)
    ensures Plain(Tick(c, list, pc)) == Tick(c, Plain(list), pc)
    ensures Present(c, Plain(list), pc) == Present(c, list, pc) && Due(c, Plain(list), pc) == Due(c, list, pc)
  {
    FindPlain(c, list, MapAddr(c, pc), pc);
  }

  lemma AddPlain(c: Context, list: seq<Bkpt>, a: Addr, count: int)
    ensures Plain(Add(c, list, a, count)) == Add(c, Plain(list), a, count)
  {
    FindPlain(c, list, MapAddr(c, a), a);
  }

  lemma DeletePlain(c: Context, list: seq<Bkpt>, a: Addr)
    ensures Plain(Delete(c, list, a)) == Delete(c, Plain(list), a)
  {
    FindPlain(c, list, MapAddr(c, a), a);
  }

  // ---------------------------------------------------------------- where breakpoints stand

  lemma AddKeeps(c: Context, list: seq<Bkpt>, a: Addr, count: int)
    requires Distinct(c, list) && a < c.size
    ensures Distinct(c, Add(c, list, a, count))
  {
    var list' := Add(c, list, a, count);
    if list' != list {
      forall i, j | 0 <= i < j < |list'| ensures !At(c, list'[i], list'[j].map_, list'[j].address) {
        if i == 0 {
          assert !At(c, list[j - 1], MapAddr(c, a), a);
        } else {
          assert !At(c, list[i - 1], list[j - 1].map_, list[j - 1].address);
        }
      }
    }
  }

  lemma DeleteKeeps(c: Context, list: seq<Bkpt>, a: Addr)
    requires Distinct(c, list)
    ensures Distinct(c, Delete(c, list, a))
  {
    var k, list' := FindHere(c, list, a), Delete(c, list, a);
    if k < |list| {
      forall i, j | 0 <= i < j < |list'| ensures !At(c, list'[i], list'[j].map_, list'[j].address) {
        var i', j' := if i < k then i else i + 1, if j < k then j else j + 1;
        assert !At(c, list[i'], list[j'].map_, list[j'].address);
      }
      forall i | 0 <= i < |list'| && Here(c, list'[i])
        ensures MapEqual(c, list'[i].map_, MapAddr(c, list'[i].address)) && list'[i].address < c.size
      {
        assert list'[i] == list[if i < k then i else i + 1];
      }
    }
  }

  lemma TickKeeps(c: Context, list: seq<Bkpt>, pc: Addr)
    requires Distinct(c, list)
    ensures Distinct(c, Tick(c, list, pc))
  {
    var list' := Tick(c, list, pc);
    forall i, j | 0 <= i < j < |list'| ensures !At(c, list'[i], list'[j].map_, list'[j].address) {
      assert !At(c, list[i], list[j].map_, list[j].address);
    }
  }

  /** A breakpoint is found at an address exactly when one of the current map stands there. */
  lemma PresentIff(c: Context, list: seq<Bkpt>, a: Addr)
    requires Distinct(c, list)
    ensures Present(c, list, a) <==> Covered(c, list, 0, |list|, a)
  {
    var k := FindHere(c, list, a);
    if k < |list| {
      assert Here(c, list[k]) && list[k].address == a;
    }
    if Covered(c, list, 0, |list|, a) {
      var i :| 0 <= i < |list| && Here(c, list[i]) && list[i].address == a;
      assert At(c, list[i], MapAddr(c, a), a);
    }
  }

  /** In free running the processor meets a breakpoint instruction exactly where the ideal debugger would look. */
  lemma MeetsInt3(c: Context, list: seq<Bkpt>, program: seq<Byte>, mem: seq<Byte>, pc: Addr)
    requires Distinct(c, list) && Planted(c, list, 0, |list|, program, mem) && pc < |mem|
    ensures mem[pc] == BKPT_INST <==> Present(c, list, pc) || program[pc] == BKPT_INST
  {
    PresentIff(c, list, pc);
  }

  /** The program's own stores, away from breakpoints, are not disturbed by the planted bytes. */
  lemma StoreKeeps(c: Context, list: seq<Bkpt>, program: seq<Byte>, mem: seq<Byte>, a: Addr, value: Byte)
    requires Distinct(c, list) && Planted(c, list, 0, |list|, program, mem)
    requires a < |mem| && !Present(c, list, a)
    ensures Planted(c, list, 0, |list|, program[a := value], mem[a := value])
  {
    forall i | 0 <= i < |list| && Here(c, list[i]) ensures list[i].address == a ==> Covered(c, list, 0, |list|, a) {}
    PresentIff(c, list, a);
  }

  // ---------------------------------------------------------------- stores over planted breakpoints

  /** Memory when the saved bytes of the current map's breakpoints have been put back. */
  function Cleared(c: Context, list: seq<Bkpt>, mem: seq<Byte>): (r: seq<Byte>)
    ensures |r| == |mem|
    decreases |list|
  {
    if list == [] then mem
    else
      var b := list[0];
      Cleared(c, list[1..], if Here(c, b) && b.address < |mem| then mem[b.address := b.inst] else mem)
  }

  /** A byte under a breakpoint is the saved one, any other stays. */
  lemma {:induction false} ClearedAt(c: Context, list: seq<Bkpt>, mem: seq<Byte>, a: Addr)
    requires Distinct(c, list) && a < |mem|
    ensures forall i :: 0 <= i < |list| && Here(c, list[i]) && list[i].address == a ==>
                          Cleared(c, list, mem)[a] == list[i].inst
    ensures !Covered(c, list, 0, |list|, a) ==> Cleared(c, list, mem)[a] == mem[a]
    decreases |list|
  {
    if list != [] {
      var b, rest := list[0], list[1..];
      var mem' := if Here(c, b) && b.address < |mem| then mem[b.address := b.inst] else mem;
      TailDistinct(c, list);
      ClearedAt(c, rest, mem', a);
      if Covered(c, rest, 0, |rest|, a) {
        var i :| 0 <= i < |rest| && Here(c, rest[i]) && rest[i].address == a;
        assert Here(c, list[i + 1]) && list[i + 1].address == a;
        if Here(c, b) {
          NoTwoHere(c, list, 0, i + 1);
        }
      }
      forall i | 0 <= i < |list| && Here(c, list[i]) && list[i].address == a
        ensures Cleared(c, list, mem)[a] == list[i].inst
      {
        if i > 0 {
          assert rest[i - 1] == list[i];
        }
      }
    }
  }

  lemma TailDistinct(c: Context, list: seq<Bkpt>)
    requires Distinct(c, list) && list != []
    ensures Distinct(c, list[1..])
  {
    var rest := list[1..];
    forall i, j | 0 <= i < j < |rest| ensures !At(c, rest[i], rest[j].map_, rest[j].address) {
      assert !At(c, list[i + 1], list[j + 1].map_, list[j + 1].address);
    }
  }

  /**
   * A store of the running program while breakpoints are in survives their removal exactly when it does not change
   * a byte under a breakpoint.
   */
  lemma StoreSurvivesIff(c: Context, list: seq<Bkpt>, program: seq<Byte>, mem: seq<Byte>, a: Addr, value: Byte)
    requires Distinct(c, list) && Planted(c, list, 0, |list|, program, mem) && a < |mem|
    ensures Cleared(c, list, mem) == program
    ensures Cleared(c, list, mem[a := value])[a] == value <==> !Present(c, list, a) || program[a] == value
    ensures Present(c, list, a) ==> Cleared(c, list, mem[a := value]) == program
  {
    PresentIff(c, list, a);
    forall b | 0 <= b < |mem|
      ensures Cleared(c, list, mem)[b] == program[b]
      ensures Covered(c, list, 0, |list|, b) || b != a ==> Cleared(c, list, mem[a := value])[b] == program[b]
      ensures !Covered(c, list, 0, |list|, a) ==> Cleared(c, list, mem[a := value])[a] == value
    {
      ClearedAt(c, list, mem, b);
      ClearedAt(c, list, mem[a := value], b);
      ClearedAt(c, list, mem[a := value], a);
    }
  }
}
