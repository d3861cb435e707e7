/** Breakpoints of the kernel debugger: the list, the bytes they stand on, and when the debugger stops. */
module BreakSpec {

  type Addr = nat
  type Byte = x: nat | x < 256
  type Map = nat

  const VM_MAP_NULL: Map := 0
  const BKPT_INST: Byte := 0xcc
  const NBREAKPOINTS := 100

  datatype Option<T> = None | Some(value: T)

  // ---------------------------------------------------------------- maps

  /** The kernel's map, the current task's map if a thread runs, the range of user addresses, and the memory's size. */
  datatype Context = Context(kernel: Map, task: Option<Map>, low: Addr, high: Addr, size: nat)

  predicate MapEqual(c: Context, a: Map, b: Map) {
    a == b || (a == VM_MAP_NULL && b == c.kernel) || (a == c.kernel && b == VM_MAP_NULL)
  }

  predicate MapCurrent(c: Context, m: Map) {
    m == VM_MAP_NULL || m == c.kernel || c.task == Some(m)
  }

  function MapAddr(c: Context, a: Addr): Map {
    if c.low <= a < c.high && c.task.Some? then c.task.value else c.kernel
  }

  // ---------------------------------------------------------------- the list

  datatype Bkpt = Bkpt(map_: Map, address: Addr, initCount: int, count: int, inst: Byte)

  predicate At(c: Context, b: Bkpt, m: Map, a: Addr) {
    MapEqual(c, b.map_, m) && b.address == a
  }

  predicate Here(c: Context, b: Bkpt) {
    MapCurrent(c, b.map_)
  }

  /** No breakpoint twice, and those of the current map are in memory, where commands would have put them. */
  predicate Distinct(c: Context, list: seq<Bkpt>) {
    && (forall i, j :: 0 <= i < j < |list| ==> !At(c, list[i], list[j].map_, list[j].address))
    && (forall i :: 0 <= i < |list| && Here(c, list[i]) ==>
          MapEqual(c, list[i].map_, MapAddr(c, list[i].address)) && list[i].address < c.size)
  }

  /** So the breakpoints of the current map stand at different addresses. */
  lemma NoTwoHere(c: Context, list: seq<Bkpt>, i: nat, j: nat)
    requires Distinct(c, list) && i < j < |list| && Here(c, list[i]) && Here(c, list[j])
    ensures list[i].address != list[j].address
  {
    assert !At(c, list[i], list[j].map_, list[j].address);
  }

  // ---------------------------------------------------------------- memory

  ghost predicate Covered(c: Context, list: seq<Bkpt>, lo: nat, hi: nat, a: Addr) {
    exists i :: lo <= i < hi <= |list| && Here(c, list[i]) && list[i].address == a
  }

  /** The bytes as the program has them, but for the breakpoints from lo to hi that are of the current map. */
  ghost predicate Planted(c: Context, list: seq<Bkpt>, lo: nat, hi: nat, program: seq<Byte>, mem: seq<Byte>) {
    && |mem| == |program| && lo <= hi <= |list|
    && (forall i :: lo <= i < hi && Here(c, list[i]) ==>
          list[i].address < |mem| && mem[list[i].address] == BKPT_INST && list[i].inst == program[list[i].address])
    && (forall a :: 0 <= a < |mem| ==> mem[a] == program[a] || Covered(c, list, lo, hi, a))
  }

  /** Marked inserted, the planted bytes are in memory; marked not inserted, none is. */
  ghost predicate InStep(c: Context, list: seq<Bkpt>, inserted: bool, program: seq<Byte>, mem: seq<Byte>) {
    if inserted then Planted(c, list, 0, |list|, program, mem) else mem == program
  }

  function Saved(list: seq<Bkpt>, k: nat, inst: Byte): seq<Bkpt>
    requires k < |list|
  {
    list[k := list[k].(inst := inst)]
  }

  /** The saved byte of one breakpoint does not matter to where it is. */
  lemma SavedKeeps(c: Context, list: seq<Bkpt>, k: nat, inst: Byte)
    requires Distinct(c, list) && k < |list|
    ensures Distinct(c, Saved(list, k, inst))
  {
    var list' := Saved(list, k, inst);
    forall i, j | 0 <= i < j < |list'| ensures !At(c, list'[i], list'[j].map_, list'[j].address) {
      assert !At(c, list[i], list[j].map_, list[j].address);
    }
  }

  /** Nothing below k stands where the breakpoint at k does, so its byte is still the program's. */
  lemma StillTrue(c: Context, list: seq<Bkpt>, k: nat, program: seq<Byte>, mem: seq<Byte>)
    requires Distinct(c, list) && Planted(c, list, 0, k, program, mem)
    requires k < |list| && Here(c, list[k]) && list[k].address < |mem|
    ensures mem[list[k].address] == program[list[k].address]
  {
    if Covered(c, list, 0, k, list[k].address) {
      var i :| 0 <= i < k && Here(c, list[i]) && list[i].address == list[k].address;
      NoTwoHere(c, list, i, k);
      assert false;
    }
  }

  /** Planting one more. */
  lemma PlantNext(c: Context, list: seq<Bkpt>, k: nat, program: seq<Byte>, mem: seq<Byte>)
    requires Distinct(c, list) && Planted(c, list, 0, k, program, mem)
    requires k < |list| && Here(c, list[k]) && list[k].address < |mem|
    ensures var a := list[k].address;
            Planted(c, Saved(list, k, mem[a]), 0, k + 1, program, mem[a := BKPT_INST])
  {
    StillTrue(c, list, k, program, mem);
    var a := list[k].address;
    var list', mem' := Saved(list, k, mem[a]), mem[a := BKPT_INST];
    forall b | 0 <= b < |mem'| ensures mem'[b] == program[b] || Covered(c, list', 0, k + 1, b) {
      if b == a {
        assert Here(c, list'[k]) && list'[k].address == b;
      } else if Covered(c, list, 0, k, b) {
        var i :| 0 <= i < k && Here(c, list[i]) && list[i].address == b;
        assert Here(c, list'[i]) && list'[i].address == b;
      }
    }
    forall i | 0 <= i < k + 1 && Here(c, list'[i])
      ensures list'[i].address < |mem'| && mem'[list'[i].address] == BKPT_INST
      ensures list'[i].inst == program[list'[i].address]
    {
      assert i < k ==> list'[i] == list[i];
    }
  }

  /** Passing one that is not of the current map. */
  lemma PlantSkip(c: Context, list: seq<Bkpt>, k: nat, program: seq<Byte>, mem: seq<Byte>)
    requires Planted(c, list, 0, k, program, mem) && k < |list| && !Here(c, list[k])
    ensures Planted(c, list, 0, k + 1, program, mem)
  {
    forall b | 0 <= b < |mem| ensures mem[b] == program[b] || Covered(c, list, 0, k + 1, b) {
      if Covered(c, list, 0, k, b) {
        var i :| 0 <= i < k && Here(c, list[i]) && list[i].address == b;
        assert 0 <= i < k + 1 && Here(c, list[i]) && list[i].address == b;
      }
    }
  }

  /** Taking one out. */
  lemma ClearNext(c: Context, list: seq<Bkpt>, k: nat, program: seq<Byte>, mem: seq<Byte>)
    requires Distinct(c, list) && Planted(c, list, k, |list|, program, mem) && k < |list|
    ensures Here(c, list[k]) ==>
              && list[k].address < |mem|
              && Planted(c, list, k + 1, |list|, program, mem[list[k].address := list[k].inst])
    ensures !Here(c, list[k]) ==> Planted(c, list, k + 1, |list|, program, mem)
  {
    var a := list[k].address;
    var mem' := if Here(c, list[k]) then mem[a := list[k].inst] else mem;
    forall b | 0 <= b < |mem'| ensures mem'[b] == program[b] || Covered(c, list, k + 1, |list|, b) {
      if mem'[b] != program[b] {
        var i :| k <= i < |list| && Here(c, list[i]) && list[i].address == b;
        assert i != k;
      }
    }
    forall i | k + 1 <= i < |list| && Here(c, list[i]) && Here(c, list[k]) ensures list[i].address != a {
      NoTwoHere(c, list, k, i);
    }
  }

  lemma NothingPlanted(c: Context, list: seq<Bkpt>, k: nat, program: seq<Byte>, mem: seq<Byte>)
    requires k <= |list|
    ensures Planted(c, list, k, k, program, mem) <==> mem == program
  {
    if Planted(c, list, k, k, program, mem) {
      forall a | 0 <= a < |mem| ensures mem[a] == program[a] {
        assert !Covered(c, list, k, k, a);
      }
    }
  }
}
