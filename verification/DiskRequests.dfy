/** What a hard-disk request asks for: its sectors, and the block each of them is kept in. */
module DiskRequests {
  import opened Arithmetic
  import opened DiskOrder

  const PART_DISK: nat := 2
  const NDRIVES: nat := 2
  const SECSIZE: nat := 512

  /** A table of alternates: entry n stands in for the n-th bad track or sector. */
  datatype AltTable = AltTable(base: nat, bad: seq<int>)

  datatype Slice = Slice(start: nat, size: nat, valid: bool, readOnly: bool)

  datatype Drive = Drive(nsecpertrack: nat, nheads: nat, tracks: AltTable, sectors: AltTable, slices: seq<Slice>)

  type Unit = d: Drive | d.nsecpertrack > 0 && d.nheads > 0 && |d.slices| == 16
    witness Drive(1, 1, AltTable(0, []), AltTable(0, []), seq(16, _ => Slice(0, 0, false, false)))

  datatype Request = Request(id: nat, unit: nat, slice: nat, blkno: nat, bcount: nat, read: bool)

  /** The place of the first entry equal to a value, or the length of the table. */
  function IndexOf(bad: seq<int>, v: int): (n: nat)
    ensures n <= |bad|
    ensures n < |bad| ==> bad[n] == v
    ensures forall i :: 0 <= i < n ==> bad[i] != v
  {
    if bad == [] then 0 else if bad[0] == v then 0 else 1 + IndexOf(bad[1..], v)
  }

  /** The block that stands in for a block of a slice: bad tracks first, then bad sectors. */
  function Mapped(d: Unit, domapping: bool, slice: nat, block: nat): nat {
    if !domapping || slice == PART_DISK then block else
    var t := IndexOf(d.tracks.bad, block / d.nsecpertrack);
    if t < |d.tracks.bad| then d.tracks.base + d.nsecpertrack * t + block % d.nsecpertrack else
    var s := IndexOf(d.sectors.bad, block);
    if s < |d.sectors.bad| then d.sectors.base + s else block
  }

  /** Some bad track or bad sector lies among the given blocks. */
  predicate Touched(d: Unit, block: nat, count: nat)
    requires count > 0
  {
    || (exists n :: 0 <= n < |d.tracks.bad| &&
          block / d.nsecpertrack <= d.tracks.bad[n] <= (block + count - 1) / d.nsecpertrack)
    || (exists n :: 0 <= n < |d.sectors.bad| && block <= d.sectors.bad[n] <= block + count - 1)
  }

  /** The fast path is safe: a range that touches nothing bad maps to itself, block by block. */
  lemma UntouchedMapsToItself(d: Unit, domapping: bool, slice: nat, block: nat, count: nat, j: nat)
    requires count > 0 && j < count && (domapping ==> !Touched(d, block, count))
    ensures Mapped(d, domapping, slice, block + j) == block + j
  {
    if domapping {
      var track := (block + j) / d.nsecpertrack;
      DivMonotone(block, block + j, d.nsecpertrack);
      DivMonotone(block + j, block + count - 1, d.nsecpertrack);
      var t, s := IndexOf(d.tracks.bad, track), IndexOf(d.sectors.bad, block + j);
      assert t == |d.tracks.bad| && s == |d.sectors.bad|;
    }
  }

  lemma DivMonotone(a: nat, b: nat, n: nat)
    requires a <= b && n > 0
    ensures a / n <= b / n
  {
    MulOrder(n, a / n, b / n + 1);
    assert n * (b / n + 1) == n * (b / n) + n;
  }

  lemma MulOrder(n: nat, x: nat, z: nat)
    ensures x >= z ==> n * x >= n * z
  {
    assert n * x == n * z + n * (x - z);
  }

  /** Sectors that hold a request's bytes. */
  function Sectors(r: Request): nat {
    (r.bcount + 511) / 512
  }

  /** Sectors the driver transfers: all of them, or what its clamp at the end of the slice leaves. */
  function Total(s: Slice, r: Request): nat
    requires r.blkno <= s.size
  {
    if r.blkno + Sectors(r) > s.size then s.size - r.blkno + 1 else Sectors(r)
  }

  /** The clamp keeps a transfer inside its slice exactly when it was not needed: otherwise it is one sector long. */
  lemma ClampIsOneTooMany(s: Slice, r: Request)
    requires r.blkno < s.size && r.bcount > 0
    ensures 1 <= Total(s, r) <= Sectors(r)
    ensures r.blkno + Total(s, r) <= s.size <==> r.blkno + Sectors(r) <= s.size
    ensures r.blkno + Total(s, r) <= s.size + 1
  {
  }

  /** Five sectors from the eighth of a slice of ten: the driver transfers three, the last of them outside the slice. */
  lemma ClampRunsOver()
    ensures var s, r := Slice(0, 10, true, false), Request(0, 0, 0, 8, 5 * SECSIZE, true);
            Sectors(r) == 5 && Total(s, r) == 3 && r.blkno + Total(s, r) == s.size + 1
  {
  }

  /** One sector moved between a place in the request's buffer and a block of the disk. */
  datatype Move = Move(offset: nat, block: nat)

  /** The moves that make up the first n sectors of a request. */
  function Moves(d: Unit, domapping: bool, r: Request, n: nat): (m: seq<Move>)
    requires r.slice < 16
    ensures |m| == n
    ensures forall i :: 0 <= i < n ==>
      m[i] == Move(SECSIZE * i, Mapped(d, domapping, r.slice, d.slices[r.slice].start + r.blkno + i))
  {
    if n == 0 then [] else
    Moves(d, domapping, r, n - 1) +
    [Move(SECSIZE * (n - 1), Mapped(d, domapping, r.slice, d.slices[r.slice].start + r.blkno + n - 1))]
  }

  /** The cylinder of a block; requests are sorted by it. */
  function CylinderOf(d: Unit, block: nat): nat {
    assert d.nsecpertrack * d.nheads > 0;
    block / (d.nsecpertrack * d.nheads)
  }

  /** Sector, head and cylinder registers; sectors are numbered from 1. */
  datatype Address = Address(sector: nat, head: nat, cylinder: nat)

  function Encode(d: Unit, block: nat): Address {
    var track := Quotient(block, d.nsecpertrack);
    Address(Remainder(block, d.nsecpertrack) + 1, Remainder(track, d.nheads), Quotient(track, d.nheads))
  }

  /** The block the controller finds at an address. */
  function Decode(d: Unit, a: Address): int {
    (a.cylinder * d.nheads + a.head) * d.nsecpertrack + a.sector - 1
  }

  lemma DecodeEncode(d: Unit, block: nat)
    ensures Decode(d, Encode(d, block)) == block
  {
    Parts(block, d.nsecpertrack);
    Parts(Quotient(block, d.nsecpertrack), d.nheads);
  }

  // ---------------------------------------------------------------- queues and completions

  /** A queued request, with the cylinder it is sorted by. */
  datatype Queued = Queued(request: Request, cylinder: int)

  datatype Outcome = Done | Failed | Rejected | Empty | EndOfFile

  /** A request given back, with the sectors moved for it, the recalibrations, and the interrupts it got, by error. */
  datatype Completion =
    Completion(request: Request, outcome: Outcome, moves: seq<Move>, recalibrations: nat, heard: seq<bool>)

  /** Interrupts that told of an error. */
  function Errors(heard: seq<bool>): nat {
    if heard == [] then 0 else
    var n := |heard| - 1;
    Errors(heard[..n]) + if heard[n] then 1 else 0
  }

  /** The interrupt before this one told of an error, so that this one ends a recalibration. */
  predicate AfterError(heard: seq<bool>) {
    heard != [] && heard[|heard| - 1]
  }

  /** Interrupts that told of a sector moved: no error, and not the end of a recalibration. */
  function Goods(heard: seq<bool>): nat {
    if heard == [] then 0 else
    var n := |heard| - 1;
    Goods(heard[..n]) + if !heard[n] && !AfterError(heard[..n]) then 1 else 0
  }

  lemma HeardMore(heard: seq<bool>, error: bool)
    ensures Errors(heard + [error]) == Errors(heard) + if error then 1 else 0
    ensures Goods(heard + [error]) == Goods(heard) + if !error && !AfterError(heard) then 1 else 0
    ensures AfterError(heard + [error]) == error
  {
    assert (heard + [error])[..|heard|] == heard;
  }

  /** Errors are among the interrupts. */
  lemma {:induction false} ErrorHeard(heard: seq<bool>)
    ensures Errors(heard) > 0 <==> true in heard
  {
    if heard != [] {
      ErrorHeard(heard[..|heard| - 1]);
      assert heard == heard[..|heard| - 1] + [heard[|heard| - 1]];
    }
  }

  function Pending(q: seq<Queued>): multiset<Request> {
    if q == [] then multiset{} else multiset{q[0].request} + Pending(q[1..])
  }

  function Completed(f: seq<Completion>): multiset<Request> {
    if f == [] then multiset{} else Completed(f[..|f| - 1]) + multiset{f[|f| - 1].request}
  }

  lemma CompletedAppend(f: seq<Completion>, c: Completion)
    ensures Completed(f + [c]) == Completed(f) + multiset{c.request}
  {
    assert (f + [c])[..|f|] == f;
  }

  function CylindersOf(q: seq<Queued>): (c: seq<int>)
    ensures |c| == |q|
  {
    seq(|q|, i requires 0 <= i < |q| => q[i].cylinder)
  }

  /** disksort on a drive's queue. */
  function Enqueue(q: seq<Queued>, x: Queued): seq<Queued> {
    Insert(q, Position(CylindersOf(q), x.cylinder), x)
  }

  lemma {:induction false} PendingInsert(q: seq<Queued>, k: nat, x: Queued)
    requires k <= |q|
    ensures Pending(Insert(q, k, x)) == Pending(q) + multiset{x.request}
  {
    var r := Insert(q, k, x);
    if k == 0 {
      assert r[1..] == q;
    } else {
      assert r[0] == q[0] && r[1..] == Insert(q[1..], k - 1, x);
      PendingInsert(q[1..], k - 1, x);
    }
  }

  /** A request in a queue was admitted: it is for that drive, for a valid slice, and starts inside it. */
  predicate Admitted(units: seq<Unit>, r: Request) {
    && r.unit < |units|
    && r.slice < 16
    && r.bcount > 0
    && units[r.unit].slices[r.slice].valid
    && (r.read || !units[r.unit].slices[r.slice].readOnly)
    && r.blkno < units[r.unit].slices[r.slice].size
  }

  /** The answer to a request that needs no transfer; Done stands for those that need one. */
  function Screen(units: seq<Unit>, r: Request): Outcome
    requires r.unit < |units| && r.slice < 16
  {
    var s := units[r.unit].slices[r.slice];
    if r.bcount == 0 then Empty
    else if !s.valid || (!r.read && s.readOnly) then Rejected
    else if r.blkno > s.size || (r.blkno == s.size && !r.read) then Rejected
    else if r.blkno == s.size then EndOfFile
    else Done
  }

  /**
   * What a completion owes its request. A transfer that ends well has moved sector i of the request between
   * offset 512i of the buffer and exactly the block that stands in for it; one that fails has done so for
   * the sectors before the failure, and has been recalibrated three times. Each sector moved is an interrupt
   * without error outside a recalibration, each recalibration, and the failure, is one with an error, and neither
   * takes more than six interrupts beyond one for each sector.
   */
  ghost predicate Owed(units: seq<Unit>, domapping: bool, c: Completion) {
    var r := c.request;
    && r.unit < |units| && r.slice < 16
    && match c.outcome
       case Done =>
         && Admitted(units, r)
         && var total := Total(units[r.unit].slices[r.slice], r);
            && c.moves == Moves(units[r.unit], domapping, r, total)
            && c.recalibrations == Errors(c.heard) <= 3
            && |c.moves| == Goods(c.heard)
            && |c.heard| <= total + 6
       case Failed =>
         && Admitted(units, r)
         && var total := Total(units[r.unit].slices[r.slice], r);
            && (exists n: nat :: n < total && c.moves == Moves(units[r.unit], domapping, r, n))
            && c.recalibrations == 3 && Errors(c.heard) == 4
            && |c.moves| == Goods(c.heard)
            && |c.heard| <= total + 6
       case _ => c.outcome == Screen(units, r) && c.moves == [] && c.recalibrations == 0 && c.heard == []
  }

  /** A transfer in progress has moved the first count sectors of its request, and is at the next one. */
  ghost predicate InStep(d: Unit, domapping: bool, r: Request, total: nat, count: nat, block: nat, offset: nat,
                         moved: seq<Move>)
    requires r.slice < 16 && r.blkno <= d.slices[r.slice].size
  {
    && total == Total(d.slices[r.slice], r)
    && count < total
    && block == d.slices[r.slice].start + r.blkno + count
    && offset == SECSIZE * count
    && moved == Moves(d, domapping, r, count)
  }

  /** A command for count sectors from a block on transfers what the request's next left sectors are kept in. */
  ghost predicate Serves(d: Unit, domapping: bool, slice: nat, block: nat, single: bool, left: nat,
                         target: nat, count: nat)
  {
    if single then target == Mapped(d, domapping, slice, block) && count == 1
    else
      && target == block && count == left
      && forall b: nat :: block <= b < block + left ==> Mapped(d, domapping, slice, b) == b
  }

  /** The choice of one sector at a time or of the whole range is right either way. */
  lemma ChoiceServes(d: Unit, domapping: bool, slice: nat, block: nat, total: nat, single: bool, left: nat,
                     target: nat, count: nat)
    requires 0 < left <= total && (single <==> domapping && Touched(d, block, total))
    requires single ==> target == Mapped(d, domapping, slice, block) && count == 1
    requires !single ==> target == block && count == left
    ensures Serves(d, domapping, slice, block, single, left, target, count)
  {
    if !single {
      forall b: nat | block <= b < block + left ensures Mapped(d, domapping, slice, b) == b {
        UntouchedMapsToItself(d, domapping, slice, block, total, b - block);
      }
    }
  }

  /** After one sector of a transfer that does not stop there. */
  lemma NextInStep(d: Unit, domapping: bool, r: Request, total: nat, count: nat, block: nat, offset: nat,
                   moved: seq<Move>, single: bool, target: nat, n: nat)
    requires r.slice < 16 && r.blkno <= d.slices[r.slice].size
    requires InStep(d, domapping, r, total, count, block, offset, moved)
    requires Serves(d, domapping, r.slice, block, single, total - count, target, n)
    ensures moved + [Move(offset, target)] == Moves(d, domapping, r, count + 1)
    ensures count + 1 < total ==>
      InStep(d, domapping, r, total, count + 1, block + 1, offset + SECSIZE, moved + [Move(offset, target)])
    ensures count + 1 < total && !single ==>
      Serves(d, domapping, r.slice, block + 1, single, total - count - 1, target + 1, n - 1)
  {
    assert target == Mapped(d, domapping, r.slice, block);
  }
}
