/** The operators of the filter machine that leave a result, as the i386 computes them, and the interpreter on them. */
module FilterAlu {

  import opened Arithmetic
  import opened FilterBits
  import opened FilterCode
  import opened FilterMachine
  import opened FilterSafety

  function Truth(b: bool): Value {
    if b then 1 else 0
  }

  function Word32(f: (bool, bool) -> bool, x: Value, y: Value): Value {
    BitwiseBits(f, x, y, 32, 0);
    WordIsPower();
    Bitwise(f, x, y, 32)
  }

  /** The shift count is taken modulo 32. */
  function ShiftLeft(x: Value, n: Value): Value {
    ShiftUp(x, n % 32)
  }

  /** Cells are signed when shifted right: the sign is copied. */
  function ShiftRight(x: Value, n: Value): Value {
    ShiftSigned(x, n % 32)
  }

  /** Comparisons are unsigned, since the argument is. */
  function Apply(op: Operator, left: Value, arg: Value): Value {
    match op
    case And => Word32((a, b) => a && b, left, arg)
    case Or => Word32((a, b) => a || b, left, arg)
    case Xor => Word32((a, b) => a != b, left, arg)
    case Lsh => ShiftLeft(left, arg)
    case Rsh => ShiftRight(left, arg)
    case Add => (left + arg) % WORD
    case Sub => (left - arg) % WORD
    case Eq => Truth(left == arg)
    case Neq => Truth(left != arg)
    case Lt => Truth(left < arg)
    case Le => Truth(left <= arg)
    case Gt => Truth(left > arg)
    case Ge => Truth(left >= arg)
    case _ => left
  }

  /** net_do_filter, as called for a filter that parse_net_filter let through. */
  method NetDoFilter(filter: seq<Word>, packet: seq<Word>) returns (verdict: Verdict)
    requires Admitted(filter)
    ensures verdict == Eval(Apply, Decode(filter).value, packet, [1])
    ensures verdict == Fault <==> Overruns(Apply, Decode(filter).value, packet)
    ensures Shorts(Decode(filter).value) == 0 ==> verdict != Fault
  {
    var indices;
    verdict, indices := Interpret(Apply, filter, packet);
    FaultIffOverruns(Apply, Decode(filter).value, packet);
    if Shorts(Decode(filter).value) == 0 {
      PlainFiltersAreSafe(Apply, filter, packet);
    }
  }
}
