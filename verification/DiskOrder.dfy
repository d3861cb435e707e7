/** The disk request chain: where disksort puts a new request, and the shape it keeps. */
module DiskOrder {

  /** The tests that carry the insertion loops from one pair of neighbours to the next. */
  datatype Rule =
    | Level                        // same cylinder
    | RisingTo(cylinder: int)      // still rising, and not beyond the cylinder
    | FallingTo(cylinder: int)
    | Rising
    | Falling
    | Above(cylinder: int)         // not below the cylinder
    | Under(cylinder: int)         // not above the cylinder

  predicate Passes(rule: Rule, prev: int, next: int) {
    match rule
    case Level => prev == next
    case RisingTo(c) => next <= c && prev <= next
    case FallingTo(c) => next >= c && prev >= next
    case Rising => prev <= next
    case Falling => prev >= next
    case Above(c) => next >= c
    case Under(c) => next <= c
  }

  /** The first place from k on where the rule stops, or the end of the chain. */
  function Advance(c: seq<int>, k: nat, rule: Rule): (r: nat)
    requires 1 <= k <= |c|
    ensures k <= r <= |c|
    decreases |c| - k
  {
    if k < |c| && Passes(rule, c[k - 1], c[k]) then Advance(c, k + 1, rule) else k
  }

  /** The place in a chain whose cylinders first change at k: upwards, or downwards. */
  function RisingPlace(c: seq<int>, k: nat, cylinder: int): (r: nat)
    requires 1 <= k < |c|
    ensures 1 <= r <= |c|
  {
    if c[k - 1] <= cylinder then Advance(c, k, RisingTo(cylinder))
    else Advance(c, Advance(c, k + 1, Rising), Above(cylinder))
  }

  function FallingPlace(c: seq<int>, k: nat, cylinder: int): (r: nat)
    requires 1 <= k < |c|
    ensures 1 <= r <= |c|
  {
    if c[k - 1] >= cylinder then Advance(c, k, FallingTo(cylinder))
    else Advance(c, Advance(c, k + 1, Falling), Under(cylinder))
  }

  /** Where a request for a cylinder is inserted in a chain with the given cylinders. */
  function Position(c: seq<int>, cylinder: int): (r: nat)
    ensures r <= |c|
    ensures c != [] ==> r >= 1
  {
    if c == [] then 0 else
    var k := Advance(c, 1, Level);
    if k == |c| then k
    else if c[k - 1] < c[k] then RisingPlace(c, k, cylinder)
    else FallingPlace(c, k, cylinder)
  }

  function Insert<T>(s: seq<T>, k: nat, x: T): seq<T>
    requires k <= |s|
  {
    s[..k] + [x] + s[k..]
  }

  ghost predicate Up(c: seq<int>, lo: int, hi: int) {
    forall i, j :: 0 <= lo <= i < j < hi <= |c| ==> c[i] <= c[j]
  }

  ghost predicate Down(c: seq<int>, lo: int, hi: int) {
    forall i, j :: 0 <= lo <= i < j < hi <= |c| ==> c[i] >= c[j]
  }

  /** A rising run, then a falling run that lies strictly below the head. */
  ghost predicate UpThenDown(c: seq<int>, k: int) {
    && 1 <= k <= |c|
    && Up(c, 0, k)
    && Down(c, k, |c|)
    && forall i :: k <= i < |c| ==> c[i] < c[0]
  }

  /** A falling run, then a rising run that lies strictly above the head. */
  ghost predicate DownThenUp(c: seq<int>, k: int) {
    && 1 <= k <= |c|
    && Down(c, 0, k)
    && Up(c, k, |c|)
    && forall i :: k <= i < |c| ==> c[i] > c[0]
  }

  ghost predicate Sweep(c: seq<int>) {
    c == [] || exists k :: UpThenDown(c, k) || DownThenUp(c, k)
  }

  /** Inserting at p keeps the shape, and nothing behind p waits for the same cylinder. */
  ghost predicate Fits(c: seq<int>, p: nat, x: int)
    requires p <= |c|
  {
    Sweep(Insert(c, p, x)) && forall j :: p <= j < |c| ==> c[j] != x
  }
}
