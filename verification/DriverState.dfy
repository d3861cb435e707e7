/** The state of the hard-disk driver between interrupts, as plain values. */
module DriverState {
  import opened DiskOrder
  import opened DiskRequests
  import DiskSort

  /** struct hh. The buffer address is relative to the request's buffer. */
  datatype Hh = Hh(
    controllerBusy: bool,
    curdrive: nat,
    blocktotal: nat,
    blockcount: nat,
    physblock: nat,
    rwAddr: nat,
    retryCount: nat,
    restoreRequest: bool,
    singleMode: bool,
    blockIsBad: bool,
    substituteBlock: nat)

  datatype Command = Idle | Transfer(block: nat, left: nat) | Restore

  /** The controller, and what has happened to the request it is working on. */
  datatype Controller = Controller(
    command: Command,
    loaded: nat,
    moved: seq<Move>,
    recalibrations: nat,
    heard: seq<bool>)

  type QueueTable = seq<seq<Queued>>

  /** Each queue is one sweep of the arm and the way back. */
  ghost predicate Swept(queues: QueueTable) {
    forall d :: 0 <= d < |queues| ==> Sweep(CylindersOf(queues[d]))
  }

  /** The queues hold admitted requests of their own drive, in the order of a sweep. */
  ghost predicate Queues(units: seq<Unit>, queues: QueueTable) {
    && |units| == NDRIVES && |queues| == NDRIVES && Swept(queues)
    && forall d, i :: 0 <= d < NDRIVES && 0 <= i < |queues[d]| ==>
         Admitted(units, queues[d][i].request) && queues[d][i].request.unit == d
  }

  /** A request is being worked on: it is the head of its queue, and the first blockcount sectors have been moved. */
  ghost predicate Working(units: seq<Unit>, domapping: bool, queues: QueueTable, hh: Hh, ctl: Controller) {
    && Queues(units, queues)
    && hh.controllerBusy
    && hh.curdrive < NDRIVES
    && queues[hh.curdrive] != []
    && var r := queues[hh.curdrive][0].request;
    && Admitted(units, r) && r.unit == hh.curdrive
    && InStep(units[r.unit], domapping, r, hh.blocktotal, hh.blockcount, hh.physblock, hh.rwAddr, ctl.moved)
    && ctl.recalibrations == hh.retryCount <= 3
    // one interrupt for each sector, and at most two for each error: its own, and the end of the recalibration
    && |ctl.heard| + (if AfterError(ctl.heard) then 1 else 0) <= hh.blockcount + 2 * hh.retryCount
    && Errors(ctl.heard) == hh.retryCount && Goods(ctl.heard) == hh.blockcount
  }

  /** The controller has been told to do the right thing next. */
  ghost predicate Commanded(units: seq<Unit>, domapping: bool, queues: QueueTable, hh: Hh, ctl: Controller)
    requires Working(units, domapping, queues, hh, ctl)
  {
    var r := queues[hh.curdrive][0].request;
    && hh.restoreRequest == AfterError(ctl.heard)
    && if hh.restoreRequest then ctl.command == Restore
    else
      && ctl.command.Transfer?
      && Serves(units[r.unit], domapping, r.slice, hh.physblock, hh.singleMode, hh.blocktotal - hh.blockcount,
                ctl.command.block, ctl.command.left)
      && (!r.read ==> ctl.loaded == hh.rwAddr)
  }

  /** Between interrupts: either a request is in progress, or nothing waits. */
  ghost predicate Consistent(units: seq<Unit>, domapping: bool, queues: QueueTable, hh: Hh, ctl: Controller) {
    if hh.controllerBusy
    then Working(units, domapping, queues, hh, ctl) && Commanded(units, domapping, queues, hh, ctl)
    else
      && Queues(units, queues) && hh.curdrive < NDRIVES && !hh.restoreRequest
      && forall d :: 0 <= d < NDRIVES ==> queues[d] == []
  }

  ghost predicate Settled(units: seq<Unit>, domapping: bool, finished: seq<Completion>) {
    forall i :: 0 <= i < |finished| ==> Owed(units, domapping, finished[i])
  }

  function Everything(queues: QueueTable, finished: seq<Completion>): multiset<Request>
    requires |queues| == NDRIVES
  {
    Pending(queues[0]) + Pending(queues[1]) + Completed(finished)
  }

  function Report(queues: QueueTable, hh: Hh, ctl: Controller, outcome: Outcome): Completion
    requires hh.curdrive < |queues| && queues[hh.curdrive] != []
  {
    Completion(queues[hh.curdrive][0].request, outcome, ctl.moved, ctl.recalibrations, ctl.heard)
  }

  /** What an interrupt that does not end the request does: one more sector, or one more recalibration, or neither. */
  predicate Responds(restoring: bool, error: bool, ctl: Controller, after: Controller) {
    && after.heard == ctl.heard + [error]
    && if error then after.moved == ctl.moved && after.recalibrations == ctl.recalibrations + 1
       else
         && after.recalibrations == ctl.recalibrations
         && if restoring then after.moved == ctl.moved
            else |after.moved| == |ctl.moved| + 1 && ctl.moved <= after.moved
  }

  /** What one that ends the request does: an error gives it up, and else the last sector has been moved. */
  predicate EndsBy(restoring: bool, error: bool, ctl: Controller, c: Completion) {
    && c.heard == ctl.heard + [error] && c.recalibrations == ctl.recalibrations
    && if error then c.outcome == Failed && c.moves == ctl.moved
       else c.outcome == Done && !restoring && |c.moves| == |ctl.moved| + 1 && ctl.moved <= c.moves
  }

  /** The drive that comes next in turn: the first behind the current one that has a request, or that one again. */
  predicate InTurn(current: nat, queues: QueueTable, next: nat) {
    && current < |queues| && next < |queues| && queues[next] != []
    && forall d :: 0 <= d < |queues| && queues[d] != [] ==>
         Distance(current, next, |queues|) <= Distance(current, d, |queues|)
  }

  /** Steps from one drive to another, around the ring of them; back to the same one it is the whole ring. */
  function Distance(from: nat, d: nat, n: nat): int {
    if d > from then d - from else n + d - from
  }

  datatype Snapshot = Snapshot(queues: QueueTable, finished: seq<Completion>, hh: Hh, ctl: Controller)

  /** The next in turn has been started, and has heard nothing yet; or the controller is idle. */
  predicate MovedOn(was: nat, s: Snapshot) {
    s.hh.controllerBusy ==> s.ctl.heard == [] && InTurn(was, s.queues, s.hh.curdrive)
  }

  /** One interrupt: the request in progress goes on, or is given back and the next one started. */
  predicate Heeds(error: bool, s: Snapshot, after: Snapshot) {
    if after.finished == s.finished then
      && after.queues == s.queues && after.hh.controllerBusy && after.hh.curdrive == s.hh.curdrive
      && Responds(s.hh.restoreRequest, error, s.ctl, after.ctl)
    else
      && |after.finished| == |s.finished| + 1 && s.finished <= after.finished
      && var c := after.finished[|s.finished|];
      && s.hh.curdrive < |s.queues| && s.queues[s.hh.curdrive] != []
      && c.request == s.queues[s.hh.curdrive][0].request
      && EndsBy(s.hh.restoreRequest, error, s.ctl, c)
      && MovedOn(s.hh.curdrive, after)
  }

  /** The cylinder a request is sorted by. It is found with the current drive's geometry, whichever drive it is for. */
  function Sought(units: seq<Unit>, drive: nat, r: Request): nat
    requires drive < |units| && r.unit < |units| && r.slice < 16
  {
    CylinderOf(units[drive], units[r.unit].slices[r.slice].start + r.blkno)
  }

  /** One request: it is answered at once, or waits; and an idle controller is started on it. */
  predicate Enlists(units: seq<Unit>, r: Request, s: Snapshot, after: Snapshot) {
    && r.unit < |units| == |s.queues| && r.slice < 16 && s.hh.curdrive < |units|
    && if Screen(units, r) != Done
       then after == s.(finished := s.finished + [Completion(r, Screen(units, r), [], 0, [])])
       else
         && after.finished == s.finished
         && after.queues == Queueing(s.queues, Queued(r, Sought(units, s.hh.curdrive, r)))
         && if s.hh.controllerBusy then after.hh == s.hh && after.ctl == s.ctl
            else after.hh.controllerBusy && after.hh.curdrive == r.unit && after.ctl.heard == []
  }

  /** Taking the finished request off its queue accounts for it once more, and only once. */
  lemma FinishAccounts(units: seq<Unit>, queues: QueueTable, d: nat, finished: seq<Completion>, c: Completion)
    requires Queues(units, queues) && d < NDRIVES && queues[d] != [] && c.request == queues[d][0].request
    ensures var after := queues[d := queues[d][1..]];
      Queues(units, after) && Everything(after, finished + [c]) == Everything(queues, finished)
  {
    CompletedAppend(finished, c);
    var after := queues[d := queues[d][1..]];
    LosesOne(queues, after, d);
    Balance(Pending(queues[0]) + Pending(queues[1]), Pending(after[0]) + Pending(after[1]), Completed(finished),
            multiset{c.request});
    TailQueues(units, queues, d);
  }

  lemma TailQueues(units: seq<Unit>, queues: QueueTable, d: nat)
    requires Queues(units, queues) && d < NDRIVES && queues[d] != []
    ensures Queues(units, queues[d := queues[d][1..]])
  {
    TailSwept(queues, d);
  }

  lemma TailSwept(queues: QueueTable, d: nat)
    requires Swept(queues) && d < |queues| && queues[d] != []
    ensures Swept(queues[d := queues[d][1..]])
  {
    DiskSort.ServeKeepsSweep(CylindersOf(queues[d]));
    assert CylindersOf(queues[d][1..]) == CylindersOf(queues[d])[1..];
  }

  lemma Balance(all: multiset<Request>, rest: multiset<Request>, c: multiset<Request>, x: multiset<Request>)
    requires all == rest + x
    ensures rest + (c + x) == all + c
  {
  }

  lemma LosesOne(queues: QueueTable, after: QueueTable, d: nat)
    requires |queues| == NDRIVES && d < NDRIVES && queues[d] != [] && after == queues[d := queues[d][1..]]
    ensures Pending(queues[0]) + Pending(queues[1]) ==
      Pending(after[0]) + Pending(after[1]) + multiset{queues[d][0].request}
  {
    assert Pending(queues[d]) == Pending(after[d]) + multiset{queues[d][0].request};
  }

  /** The controller after a data interrupt. A sector read goes to the buffer now; one written was loaded before. */
  function AfterSector(queues: QueueTable, hh: Hh, ctl: Controller): Controller
    requires hh.curdrive < |queues| && queues[hh.curdrive] != []
    requires ctl.command.Transfer? && ctl.command.left > 0
  {
    var offset := if queues[hh.curdrive][0].request.read then hh.rwAddr else ctl.loaded;
    ctl.(moved := ctl.moved + [Move(offset, ctl.command.block)],
         heard := ctl.heard + [false],
         command := Transfer(ctl.command.block + 1, ctl.command.left - 1))
  }

  function AtNext(hh: Hh): Hh {
    hh.(blockcount := hh.blockcount + 1, rwAddr := hh.rwAddr + SECSIZE, physblock := hh.physblock + 1)
  }

  /** The sector moved was the request's next one. */
  lemma OneSector(units: seq<Unit>, domapping: bool, queues: QueueTable, hh: Hh, ctl: Controller)
    requires Working(units, domapping, queues, hh, ctl) && Commanded(units, domapping, queues, hh, ctl)
    requires !hh.restoreRequest
    ensures ctl.command.left > 0
    ensures var r, after := queues[hh.curdrive][0].request, AfterSector(queues, hh, ctl);
      && after.moved == Moves(units[r.unit], domapping, r, hh.blockcount + 1)
      && (hh.blockcount + 1 < hh.blocktotal ==>
            InStep(units[r.unit], domapping, r, hh.blocktotal, hh.blockcount + 1, hh.physblock + 1,
                   hh.rwAddr + SECSIZE, after.moved))
      && (hh.blockcount + 1 < hh.blocktotal && !hh.singleMode ==>
            Serves(units[r.unit], domapping, r.slice, hh.physblock + 1, false, hh.blocktotal - hh.blockcount - 1,
                   after.command.block, after.command.left))
  {
    var r := queues[hh.curdrive][0].request;
    NextInStep(units[r.unit], domapping, r, hh.blocktotal, hh.blockcount, hh.physblock, hh.rwAddr, ctl.moved,
               hh.singleMode, ctl.command.block, ctl.command.left);
  }

  /** After the last sector the request has been moved whole. */
  lemma LastSector(units: seq<Unit>, domapping: bool, queues: QueueTable, hh: Hh, ctl: Controller)
    requires Working(units, domapping, queues, hh, ctl) && Commanded(units, domapping, queues, hh, ctl)
    requires !hh.restoreRequest && hh.blockcount + 1 == hh.blocktotal
    ensures ctl.command.left > 0
    ensures Owed(units, domapping, Report(queues, hh, AfterSector(queues, hh, ctl), Done))
  {
    OneSector(units, domapping, queues, hh, ctl);
    HeardMore(ctl.heard, false);
    var r := queues[hh.curdrive][0].request;
    WholeOwed(units, domapping, r, hh.blocktotal, ctl.recalibrations,
              Report(queues, hh, AfterSector(queues, hh, ctl), Done));
  }

  lemma WholeOwed(units: seq<Unit>, domapping: bool, r: Request, total: nat, recalibrations: nat, c: Completion)
    requires Admitted(units, r) && total == Total(units[r.unit].slices[r.slice], r) == Goods(c.heard)
    requires c.request == r && c.outcome == Done && c.moves == Moves(units[r.unit], domapping, r, total)
    requires c.recalibrations == recalibrations == Errors(c.heard) <= 3 && |c.heard| <= total + 2 * recalibrations
    ensures Owed(units, domapping, c)
  {
  }

  /** After any other sector the transfer is at the next one. */
  lemma NextSector(units: seq<Unit>, domapping: bool, queues: QueueTable, hh: Hh, ctl: Controller)
    requires Working(units, domapping, queues, hh, ctl) && Commanded(units, domapping, queues, hh, ctl)
    requires !hh.restoreRequest && hh.blockcount + 1 < hh.blocktotal
    ensures ctl.command.left > 0
    ensures Working(units, domapping, queues, AtNext(hh), AfterSector(queues, hh, ctl))
  {
    OneSector(units, domapping, queues, hh, ctl);
    HeardMore(ctl.heard, false);
  }

  /** In a transfer of several sectors the controller goes on by itself, once a sector to write has been loaded. */
  lemma NextCommanded(units: seq<Unit>, domapping: bool, queues: QueueTable, hh: Hh, ctl: Controller, loaded: nat)
    requires Working(units, domapping, queues, hh, ctl) && Commanded(units, domapping, queues, hh, ctl)
    requires !hh.restoreRequest && hh.blockcount + 1 < hh.blocktotal && !hh.singleMode
    requires ctl.command.left > 0 && Working(units, domapping, queues, AtNext(hh), AfterSector(queues, hh, ctl))
    requires !queues[hh.curdrive][0].request.read ==> loaded == AtNext(hh).rwAddr
    ensures Commanded(units, domapping, queues, AtNext(hh), AfterSector(queues, hh, ctl).(loaded := loaded))
  {
    OneSector(units, domapping, queues, hh, ctl);
    HeardMore(ctl.heard, false);
  }

  /** A request given up after its fourth error. */
  lemma GivenUp(units: seq<Unit>, domapping: bool, queues: QueueTable, hh: Hh, ctl: Controller)
    requires Working(units, domapping, queues, hh, ctl) && hh.retryCount == 3
    ensures Owed(units, domapping, Report(queues, hh, ctl.(heard := ctl.heard + [true]), Failed))
  {
    HeardMore(ctl.heard, true);
    var r := queues[hh.curdrive][0].request;
    assert hh.blockcount < Total(units[r.unit].slices[r.slice], r) &&
           ctl.moved == Moves(units[r.unit], domapping, r, hh.blockcount);
  }

  /** An error that is not the fourth: the request stays where it is, and the drive is recalibrated. */
  lemma Recalibrated(units: seq<Unit>, domapping: bool, queues: QueueTable, hh: Hh, ctl: Controller)
    requires Working(units, domapping, queues, hh, ctl) && hh.retryCount < 3
    ensures Consistent(units, domapping, queues, hh.(retryCount := hh.retryCount + 1, restoreRequest := true),
                       AfterFailure(ctl))
    ensures Responds(hh.restoreRequest, true, ctl, AfterFailure(ctl))
  {
    HeardMore(ctl.heard, true);
  }

  function AfterFailure(ctl: Controller): Controller {
    ctl.(heard := ctl.heard + [true], command := Restore, recalibrations := ctl.recalibrations + 1)
  }

  function Queueing(queues: QueueTable, x: Queued): QueueTable
    requires x.request.unit < |queues|
  {
    queues[x.request.unit := Enqueue(queues[x.request.unit], x)]
  }

  /** A queue gains one request, and keeps its head if it had one. */
  lemma EnqueueKeeps(q: seq<Queued>, x: Queued)
    ensures Pending(Enqueue(q, x)) == Pending(q) + multiset{x.request}
    ensures forall i :: 0 <= i < |Enqueue(q, x)| ==> Enqueue(q, x)[i] == x || Enqueue(q, x)[i] in q
    ensures q != [] ==> Enqueue(q, x) != [] && Enqueue(q, x)[0] == q[0]
  {
    PendingInsert(q, Position(CylindersOf(q), x.cylinder), x);
  }

  lemma ArrivalSwept(queues: QueueTable, x: Queued)
    requires Swept(queues) && x.request.unit < |queues|
    ensures Swept(Queueing(queues, x))
  {
    var q := queues[x.request.unit];
    var c := CylindersOf(q);
    DiskSort.SortKeepsSweep(c, x.cylinder);
    assert CylindersOf(Enqueue(q, x)) == Insert(c, Position(c, x.cylinder), x.cylinder);
  }

  lemma ArrivalQueues(units: seq<Unit>, queues: QueueTable, x: Queued)
    requires Queues(units, queues) && Admitted(units, x.request)
    ensures Queues(units, Queueing(queues, x))
    ensures forall d :: 0 <= d < NDRIVES && queues[d] != [] ==>
      Queueing(queues, x)[d] != [] && Queueing(queues, x)[d][0] == queues[d][0]
  {
    var q := queues[x.request.unit];
    var after: seq<seq<Queued>> := Queueing(queues, x);
    EnqueueKeeps(q, x);
    ArrivalSwept(queues, x);
    forall d, i | 0 <= d < NDRIVES && 0 <= i < |after[d]|
      ensures Admitted(units, after[d][i].request) && after[d][i].request.unit == d
    {
      if d == x.request.unit && after[d][i] != x {
        assert after[d][i] in q;
        var j :| 0 <= j < |q| && q[j] == after[d][i];
        assert Admitted(units, queues[d][j].request);
      }
    }
  }

  /** With nothing else waiting, only the new request's drive has one. */
  lemma OnlyArrival(queues: QueueTable, x: Queued)
    requires x.request.unit < |queues| && forall d :: 0 <= d < |queues| ==> queues[d] == []
    ensures forall d :: 0 <= d < |queues| ==> (Queueing(queues, x)[d] != [] <==> d == x.request.unit)
  {
    EnqueueKeeps(queues[x.request.unit], x);
    assert x.request in Pending(Enqueue(queues[x.request.unit], x));
  }

  lemma ArrivalAccounts(queues: QueueTable, finished: seq<Completion>, x: Queued)
    requires |queues| == NDRIVES && x.request.unit < NDRIVES
    ensures Everything(Queueing(queues, x), finished) == Everything(queues, finished) + multiset{x.request}
  {
    var after := Queueing(queues, x);
    GainsOne(queues, after, x);
    Shuffle(Pending(queues[0]), Pending(queues[1]), Completed(finished), multiset{x.request});
  }

  lemma GainsOne(queues: QueueTable, after: QueueTable, x: Queued)
    requires |queues| == NDRIVES && x.request.unit < NDRIVES && after == Queueing(queues, x)
    ensures x.request.unit == 0 ==>
      Pending(after[0]) == Pending(queues[0]) + multiset{x.request} && Pending(after[1]) == Pending(queues[1])
    ensures x.request.unit == 1 ==>
      Pending(after[1]) == Pending(queues[1]) + multiset{x.request} && Pending(after[0]) == Pending(queues[0])
  {
    EnqueueKeeps(queues[x.request.unit], x);
  }

  lemma Shuffle(a: multiset<Request>, b: multiset<Request>, c: multiset<Request>, x: multiset<Request>)
    ensures (a + x) + b + c == a + b + c + x
    ensures a + (b + x) + c == a + b + c + x
  {
  }

  /** The work in progress depends on its queue only through the head. */
  lemma HeadDecides(units: seq<Unit>, domapping: bool, queues: QueueTable, after: QueueTable, hh: Hh, ctl: Controller)
    requires Consistent(units, domapping, queues, hh, ctl) && hh.controllerBusy
    requires Queues(units, after) && after[hh.curdrive] != [] && after[hh.curdrive][0] == queues[hh.curdrive][0]
    ensures Consistent(units, domapping, after, hh, ctl)
  {
  }
}
