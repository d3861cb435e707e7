/**
 * The hard-disk driver: one controller shared by the drives, advanced by its interrupts.
 * The controller is told a block and a count; each data interrupt moves the next sector,
 * and an error or a finished recalibration comes as an interrupt too.
 */
module HardDisk {
  import opened DiskRequests
  import opened DriverState
  import opened DriverRuns

  class Driver {
    const units: seq<Unit>
    const domapping: bool
    var queues: QueueTable
    var finished: seq<Completion>
    var hh: Hh
    var ctl: Controller
    var resetRequested: bool

    ghost predicate Valid()
      reads this
    {
      Consistent(units, domapping, queues, hh, ctl) && Settled(units, domapping, finished)
    }

    ghost predicate InProgress()
      reads this
    {
      Working(units, domapping, queues, hh, ctl) && Settled(units, domapping, finished)
    }

    /** The request at the head of the current drive's queue. */
    function Current(): Request
      requires hh.curdrive < |queues| && queues[hh.curdrive] != []
      reads this
    {
      queues[hh.curdrive][0].request
    }

    constructor (drives: seq<Unit>, mapping: bool)
      requires |drives| == NDRIVES
      ensures Valid() && units == drives && domapping == mapping
      ensures queues == [[], []] && finished == []
    {
      units := drives;
      domapping := mapping;
      queues := [[], []];
      finished := [];
      hh := Hh(false, 0, 0, 0, 0, 0, 0, false, false, false, 0);
      ctl := Controller(Idle, 0, [], 0, []);
      resetRequested := false;
    }

    /** Whether to go one sector at a time: a bad track or sector may be among the blocks. */
    method XferMode() returns (single: bool)
      requires hh.curdrive < |units| && hh.blocktotal > 0
      ensures single <==> domapping && Touched(units[hh.curdrive], hh.physblock, hh.blocktotal)
    {
      if !domapping {
        return false;
      }
      var d := units[hh.curdrive];
      var bblk, eblk := hh.physblock, hh.physblock + hh.blocktotal - 1;
      var btrk, etrk := bblk / d.nsecpertrack, eblk / d.nsecpertrack;
      for n := 0 to |d.tracks.bad|
        invariant forall i :: 0 <= i < n ==> !(btrk <= d.tracks.bad[i] <= etrk)
      {
        if btrk <= d.tracks.bad[n] && etrk >= d.tracks.bad[n] {
          return true;
        }
      }
      for n := 0 to |d.sectors.bad|
        invariant forall i :: 0 <= i < n ==> !(bblk <= d.sectors.bad[i] <= eblk)
      {
        if bblk <= d.sectors.bad[n] && eblk >= d.sectors.bad[n] {
          return true;
        }
      }
      return false;
    }

    /** Whether the current block is bad, and the block that stands in for it. */
    method BadblockMapping() returns (bad: bool, substitute: nat)
      requires hh.curdrive < |units| && hh.curdrive < |queues| && queues[hh.curdrive] != []
      ensures (if bad then substitute else hh.physblock) ==
        Mapped(units[hh.curdrive], domapping, Current().slice, hh.physblock)
    {
      bad, substitute := false, 0;
      if !domapping || Current().slice == PART_DISK {
        return;
      }
      var d, block := units[hh.curdrive], hh.physblock;
      var track := block / d.nsecpertrack;
      for n := 0 to |d.tracks.bad|
        invariant forall i :: 0 <= i < n ==> d.tracks.bad[i] != track
      {
        if track == d.tracks.bad[n] {
          assert IndexOf(d.tracks.bad, track) == n;
          return true, d.tracks.base + d.nsecpertrack * n + block % d.nsecpertrack;
        }
      }
      for n := 0 to |d.sectors.bad|
        invariant forall i :: 0 <= i < n ==> d.sectors.bad[i] != block
      {
        if block == d.sectors.bad[n] {
          assert IndexOf(d.sectors.bad, block) == n;
          return true, d.sectors.base + n;
        }
      }
    }

    /** Starts the transfer of the current block, and of those behind it if none of them is bad. */
    method StartRw(read: bool)
      requires InProgress() && !hh.restoreRequest && !AfterError(ctl.heard) && read == Current().read
      modifies this`hh, this`ctl
      ensures Valid() && hh.controllerBusy && hh.curdrive == old(hh.curdrive) && hh.blockcount == old(hh.blockcount)
      ensures ctl == old(ctl).(command := ctl.command, loaded := ctl.loaded)
    {
      var d := units[hh.curdrive];
      var diskBlock, xblk := hh.physblock, hh.blocktotal - hh.blockcount;
      var single := XferMode();
      hh := hh.(singleMode := single);
      if single {
        xblk := 1;
        var bad, substitute := BadblockMapping();
        hh := hh.(blockIsBad := bad, substituteBlock := substitute);
        if bad {
          diskBlock := substitute;
        }
      }
      ChoiceServes(d, domapping, Current().slice, hh.physblock, hh.blocktotal, single,
                   hh.blocktotal - hh.blockcount, diskBlock, xblk);
      DecodeEncode(d, diskBlock);
      ctl := ctl.(command := Transfer(Decode(d, Encode(d, diskBlock)), xblk));
      if !read {
        ctl := ctl.(loaded := hh.rwAddr);
      }
    }

    /** The scan of hdstart: the next drive, in turn, that has a request. */
    method NextDrive() returns (drive: nat, found: bool)
      requires Queues(units, queues) && hh.curdrive < NDRIVES
      ensures drive < NDRIVES
      ensures found ==> InTurn(hh.curdrive, queues, drive)
      ensures !found ==> forall d :: 0 <= d < NDRIVES ==> queues[d] == []
    {
      drive := hh.curdrive;
      var drivecount := 0;
      while drivecount < NDRIVES
        invariant 0 <= drivecount <= NDRIVES && drive < NDRIVES
        invariant drivecount == 0 ==> drive == hh.curdrive
        invariant drivecount > 0 ==> Distance(hh.curdrive, drive, NDRIVES) == drivecount
        invariant forall d :: 0 <= d < NDRIVES && Distance(hh.curdrive, d, NDRIVES) <= drivecount ==> queues[d] == []
      {
        drive := if drive < NDRIVES - 1 then drive + 1 else 0;
        if queues[drive] != [] {
          return drive, true;
        }
        drivecount := drivecount + 1;
      }
      found := false;
    }

    /** Takes the next drive that has a request and starts it. */
    method HdStart()
      requires Queues(units, queues) && Settled(units, domapping, finished)
      requires hh.curdrive < NDRIVES && !hh.controllerBusy && !hh.restoreRequest
      modifies this`hh, this`ctl, this`resetRequested
      ensures Valid()
      ensures hh.controllerBusy ==> ctl.heard == [] && InTurn(old(hh.curdrive), queues, hh.curdrive)
      ensures !hh.controllerBusy ==> forall d :: 0 <= d < NDRIVES ==> queues[d] == []
    {
      resetRequested := false;
      var drive, found := NextDrive();
      hh := hh.(curdrive := drive);
      if !found {
        return;
      }
      var r := Current();
      assert Admitted(units, r);
      var s := units[drive].slices[r.slice];
      ClampIsOneTooMany(s, r);
      var total := (r.bcount + 511) / 512;
      if r.blkno + total > s.size {
        total := s.size - r.blkno + 1;
      }
      hh := hh.(controllerBusy := true, blocktotal := total, physblock := s.start + r.blkno,
                blockcount := 0, rwAddr := 0, retryCount := 0);
      ctl := Controller(Idle, 0, [], 0, []);
      StartRw(r.read);
    }

    /** Gives the current request back. */
    method GiveBack(c: Completion)
      requires Queues(units, queues) && Settled(units, domapping, finished)
      requires hh.curdrive < NDRIVES && queues[hh.curdrive] != [] && c.request == Current()
      requires Owed(units, domapping, c)
      modifies this`queues, this`finished
      ensures Queues(units, queues) && Settled(units, domapping, finished)
      ensures Everything(queues, finished) == old(Everything(queues, finished))
      ensures finished == old(finished) + [c]
    {
      FinishAccounts(units, queues, hh.curdrive, finished, c);
      queues := queues[hh.curdrive := queues[hh.curdrive][1..]];
      finished := finished + [c];
    }

    ghost function Snap(): Snapshot
      reads this
    {
      Snapshot(queues, finished, hh, ctl)
    }

    /** Gives the current request back, and starts the next one. */
    method Finish(outcome: Outcome)
      requires Queues(units, queues) && Settled(units, domapping, finished)
      requires hh.curdrive < NDRIVES && queues[hh.curdrive] != [] && !hh.restoreRequest
      requires Owed(units, domapping, Report(queues, hh, ctl, outcome))
      modifies this
      ensures Valid() && Everything(queues, finished) == old(Everything(queues, finished))
      ensures finished == old(finished + [Report(queues, hh, ctl, outcome)]) && MovedOn(old(hh.curdrive), Snap())
    {
      GiveBack(Report(queues, hh, ctl, outcome));
      hh := hh.(controllerBusy := false);
      HdStart();
    }

    /** The fourth error: the request is given up. */
    method GiveUp()
      requires InProgress() && !hh.restoreRequest && hh.retryCount == 3
      modifies this
      ensures Valid() && Everything(queues, finished) == old(Everything(queues, finished))
      ensures finished != old(finished) && Heeds(true, old(Snap()), Snap())
    {
      GivenUp(units, domapping, queues, hh, ctl);
      ctl := ctl.(heard := ctl.heard + [true]);
      hh := hh.(retryCount := hh.retryCount + 1);
      resetRequested := true;
      Finish(Failed);
    }

    method Recalibrate()
      requires InProgress() && hh.retryCount < 3
      modifies this`hh, this`ctl
      ensures Valid() && hh.controllerBusy && hh.restoreRequest && hh.curdrive == old(hh.curdrive)
      ensures Responds(old(hh.restoreRequest), true, old(ctl), ctl)
    {
      Recalibrated(units, domapping, queues, hh, ctl);
      hh := hh.(retryCount := hh.retryCount + 1, restoreRequest := true);
      ctl := AfterFailure(ctl);
    }

    /** A failed step: recalibrate, or after three of those give the request up. */
    method HdError()
      requires InProgress() && !hh.restoreRequest
      modifies this
      ensures Valid() && Everything(queues, finished) == old(Everything(queues, finished))
      ensures Heeds(true, old(Snap()), Snap())
      ensures finished == old(finished) <==> old(hh.retryCount) < 3
      ensures finished == old(finished) ==> hh.restoreRequest
    {
      if hh.retryCount == 3 {
        GiveUp();
      } else {
        Recalibrate();
      }
    }

    /** The last sector of a request has been moved. */
    method RequestDone()
      requires InProgress() && Valid() && !hh.restoreRequest && hh.blockcount + 1 == hh.blocktotal
      modifies this
      ensures Valid() && Everything(queues, finished) == old(Everything(queues, finished))
      ensures finished != old(finished) && Heeds(false, old(Snap()), Snap())
    {
      LastSector(units, domapping, queues, hh, ctl);
      ctl := AfterSector(queues, hh, ctl);
      hh := hh.(blockcount := hh.blockcount + 1);
      Finish(Done);
    }

    /** Another sector has been moved: on to the next. */
    method SectorMoved()
      requires InProgress() && Valid() && !hh.restoreRequest && hh.blockcount + 1 < hh.blocktotal
      modifies this`hh, this`ctl
      ensures Valid() && hh.controllerBusy && hh.curdrive == old(hh.curdrive)
      ensures Responds(false, false, old(ctl), ctl)
    {
      NextSector(units, domapping, queues, hh, ctl);
      HeardMore(ctl.heard, false);
      if !hh.singleMode {
        NextCommanded(units, domapping, queues, hh, ctl, if Current().read then ctl.loaded else AtNext(hh).rwAddr);
      }
      ctl := AfterSector(queues, hh, ctl);
      hh := AtNext(hh);
      if hh.singleMode {
        StartRw(Current().read);
      } else if !Current().read {
        ctl := ctl.(loaded := hh.rwAddr);
      }
    }

    /** One sector has been moved between the buffer and the disk. */
    method SectorDone()
      requires InProgress() && Valid() && !hh.restoreRequest
      modifies this
      ensures Valid() && Everything(queues, finished) == old(Everything(queues, finished))
      ensures Heeds(false, old(Snap()), Snap())
      ensures finished == old(finished) <==> old(hh.blockcount) + 1 < old(hh.blocktotal)
    {
      if hh.blockcount + 1 == hh.blocktotal {
        RequestDone();
      } else {
        SectorMoved();
      }
    }

    /** The end of a recalibration: the transfer is started again where it stopped. */
    method RestoreDone()
      requires Valid() && hh.controllerBusy && hh.restoreRequest
      modifies this`hh, this`ctl
      ensures Valid() && Heeds(false, old(Snap()), Snap())
    {
      HeardMore(ctl.heard, false);
      hh := hh.(restoreRequest := false);
      ctl := ctl.(heard := ctl.heard + [false]);
      StartRw(Current().read);
    }

    /**
     * hdintr: the end of a recalibration, an error, or a sector done. The request acted on is the one started. Outside
     * a recalibration an interrupt without error is one sector moved; one with an error is none, and one recalibration
     * more or the end of the request.
     */
    method HdIntr(error: bool)
      requires Valid()
      modifies this
      ensures Valid() && Everything(queues, finished) == old(Everything(queues, finished))
      ensures if old(hh.controllerBusy) then Heeds(error, old(Snap()), Snap()) else Snap() == old(Snap())
    {
      if !hh.controllerBusy {
        return;
      }
      if hh.restoreRequest {
        if error {
          hh := hh.(restoreRequest := false);
          HdError();
        } else {
          RestoreDone();
        }
      } else if error {
        HdError();
      } else {
        SectorDone();
      }
    }

    /** hdstrat2: answers at once what needs no transfer, and queues the rest. */
    method HdStrategy(r: Request)
      requires Valid() && r.unit < NDRIVES && r.slice < 16
      modifies this
      ensures Valid() && Everything(queues, finished) == old(Everything(queues, finished)) + multiset{r}
      ensures Enlists(units, r, old(Snap()), Snap())
    {
      var outcome := Screen(units, r);
      if outcome != Done {
        Answer(r, outcome);
      } else {
        Join(Queued(r, Sought(units, hh.curdrive, r)));
      }
    }

    method Step(e: Event)
      requires Valid() && (e.Submit? ==> e.request.unit < NDRIVES && e.request.slice < 16)
      modifies this
      ensures Valid() && Everything(queues, finished) == old(Everything(queues, finished)) + Added(e)
      ensures Stepped(units, e, old(Snap()), Snap())
    {
      match e
      case Submit(r) => HdStrategy(r);
      case Interrupt(error) => HdIntr(error);
    }

    /** Gives back a request that needs no transfer. */
    method Answer(r: Request, outcome: Outcome)
      requires Valid() && r.unit < NDRIVES && r.slice < 16 && outcome == Screen(units, r) && outcome != Done
      modifies this`finished
      ensures Valid() && Everything(queues, finished) == old(Everything(queues, finished)) + multiset{r}
      ensures finished == old(finished) + [Completion(r, outcome, [], 0, [])]
    {
      var c := Completion(r, outcome, [], 0, []);
      CompletedAppend(finished, c);
      assert Owed(units, domapping, c);
      finished := finished + [c];
    }

    /** disksort on the queue of the request's drive, and hdstart if the controller is idle. */
    method Join(x: Queued)
      requires Valid() && Admitted(units, x.request)
      modifies this`queues, this`hh, this`ctl, this`resetRequested
      ensures Valid() && Everything(queues, finished) == old(Everything(queues, finished)) + multiset{x.request}
      ensures queues == Queueing(old(queues), x)
      ensures if old(hh.controllerBusy) then hh == old(hh) && ctl == old(ctl)
              else hh.controllerBusy && hh.curdrive == x.request.unit && ctl.heard == []
    {
      ArrivalAccounts(queues, finished, x);
      if hh.controllerBusy {
        Behind(x);
      } else {
        First(x);
      }
    }

    /** The work in progress is not disturbed. */
    method Behind(x: Queued)
      requires Valid() && Admitted(units, x.request) && hh.controllerBusy
      modifies this`queues
      ensures Valid() && queues == Queueing(old(queues), x)
    {
      ArrivalQueues(units, queues, x);
      HeadDecides(units, domapping, queues, Queueing(queues, x), hh, ctl);
      queues := Queueing(queues, x);
    }

    method First(x: Queued)
      requires Valid() && Admitted(units, x.request) && !hh.controllerBusy
      modifies this`queues, this`hh, this`ctl, this`resetRequested
      ensures Valid() && queues == Queueing(old(queues), x)
      ensures hh.controllerBusy && hh.curdrive == x.request.unit && ctl.heard == []
    {
      ArrivalQueues(units, queues, x);
      OnlyArrival(queues, x);
      queues := Queueing(queues, x);
      assert queues[x.request.unit] != [];
      HdStart();
    }
  }

  /** The request in progress has had fewer interrupts than end any request: one for each sector, and six for errors. */
  ghost predicate NearItsEnd(drives: seq<Unit>, waiting: QueueTable, drive: nat, heard: seq<bool>) {
    && drive < |waiting| && waiting[drive] != []
    && var r := waiting[drive][0].request;
       && Admitted(drives, r)
       && |heard| < Total(drives[r.unit].slices[r.slice], r) + 6
  }

  /**
   * Any run of arrivals and interrupts, with any pattern of errors. Every request submitted is either
   * finished, once, with what it is owed, or waits; and requests wait only while the controller works. Each
   * interrupt that finds the controller working is heard by one request, the one in progress, which is finished
   * within one for each sector and six more; and without an error among them no request fails.
   */
  method Run(drives: seq<Unit>, domapping: bool, events: seq<Event>)
    returns (finished: seq<Completion>, waiting: QueueTable, busy: bool, drive: nat, heard: seq<bool>, done: seq<nat>)
    requires |drives| == NDRIVES
    requires forall i :: 0 <= i < |events| && events[i].Submit? ==>
      events[i].request.unit < NDRIVES && events[i].request.slice < 16
    ensures |waiting| == NDRIVES && Swept(waiting)
    ensures Submitted(events) == Everything(waiting, finished)
    ensures forall i :: 0 <= i < |finished| ==> Owed(drives, domapping, finished[i])
    ensures !busy ==> waiting == [[], []] && heard == []
    ensures busy ==> NearItsEnd(drives, waiting, drive, heard)
    ensures |done| == |events| + 1 && done[|events|] == |finished| && Turns(drives, events, finished, done)
    ensures HeardBy(finished) + heard == Flags(events, done, |events|)
    ensures Interrupt(true) !in events ==> NoErrors(finished)
  {
    var driver := new Driver(drives, domapping);
    done := RunEvents(driver, events);
    finished, waiting, busy := driver.finished, driver.queues, driver.hh.controllerBusy;
    drive, heard := driver.hh.curdrive, if busy then driver.ctl.heard else [];
    RunEnds(drives, domapping, events, done, driver.Snap());
  }

  lemma StillNear(drives: seq<Unit>, domapping: bool, queues: QueueTable, hh: Hh, ctl: Controller)
    requires Working(drives, domapping, queues, hh, ctl)
    ensures NearItsEnd(drives, queues, hh.curdrive, ctl.heard)
  {
  }

  /** The controller works exactly while a request waits. */
  lemma BusyIff(units: seq<Unit>, domapping: bool, s: Snapshot)
    requires Consistent(units, domapping, s.queues, s.hh, s.ctl)
    ensures |s.queues| == NDRIVES && (s.hh.controllerBusy <==> s.queues[0] != [] || s.queues[1] != [])
  {
  }

  /** Everything that came with the first k events waits or has been given back. */
  ghost predicate Accounted(events: seq<Event>, k: nat, s: Snapshot) {
    && k <= |events| && |s.queues| == NDRIVES
    && Submitted(events[..k]) == Everything(s.queues, s.finished)
  }

  /** The state after some events: everything that came is accounted for, and each of them had its turn. */
  ghost predicate Reached(units: seq<Unit>, events: seq<Event>, done: seq<nat>, s: Snapshot) {
    |done| > 0 && Accounted(events, |done| - 1, s) && Follows(units, events, done, s)
  }

  lemma AccountedNext(events: seq<Event>, k: nat, s: Snapshot, after: Snapshot)
    requires Accounted(events, k, s) && k < |events| && |after.queues| == NDRIVES
    requires Everything(after.queues, after.finished) == Everything(s.queues, s.finished) + Added(events[k])
    requires after.hh.controllerBusy <==> after.queues[0] != [] || after.queues[1] != []
    ensures Accounted(events, k + 1, after)
    ensures after.hh.controllerBusy <==> Works(events, k + 1, |after.finished|)
  {
    SubmittedNext(events, k);
    WorksIff(events, k + 1, after.queues, after.finished);
  }

  lemma ReachedFirst(units: seq<Unit>, domapping: bool, events: seq<Event>, s: Snapshot)
    requires Consistent(units, domapping, s.queues, s.hh, s.ctl) && s.queues == [[], []] && s.finished == []
    ensures Reached(units, events, [0], s)
  {
    BusyIff(units, domapping, s);
    assert events[..0] == [];
  }

  /** What the state after all events says of the run. */
  lemma RunEnds(drives: seq<Unit>, domapping: bool, events: seq<Event>, done: seq<nat>, s: Snapshot)
    requires Consistent(drives, domapping, s.queues, s.hh, s.ctl) && Settled(drives, domapping, s.finished)
    requires Reached(drives, events, done, s) && |done| == |events| + 1
    ensures |s.queues| == NDRIVES && Swept(s.queues) && Submitted(events) == Everything(s.queues, s.finished)
    ensures if s.hh.controllerBusy then NearItsEnd(drives, s.queues, s.hh.curdrive, s.ctl.heard)
            else s.queues == [[], []]
    ensures Interrupt(true) !in events ==> NoErrors(s.finished)
  {
    assert events[..|events|] == events;
    if Interrupt(true) !in events {
      forall i | 0 <= i < |s.finished| ensures s.finished[i].outcome != Failed && s.finished[i].recalibrations == 0 {
        ErrorsComeFromEvents(drives, domapping, events, done, s, i);
      }
    }
    if s.hh.controllerBusy {
      StillNear(drives, domapping, s.queues, s.hh, s.ctl);
    } else {
      assert s.queues == [s.queues[0], s.queues[1]];
    }
  }

  method RunEvents(driver: Driver, events: seq<Event>) returns (done: seq<nat>)
    requires driver.Valid() && driver.queues == [[], []] && driver.finished == []
    requires forall i :: 0 <= i < |events| && events[i].Submit? ==>
      events[i].request.unit < NDRIVES && events[i].request.slice < 16
    modifies driver
    ensures driver.Valid() && |done| == |events| + 1 && Reached(driver.units, events, done, driver.Snap())
  {
    done := [0];
    ReachedFirst(driver.units, driver.domapping, events, driver.Snap());
    for i := 0 to |events|
      invariant |done| == i + 1 && driver.Valid() && Reached(driver.units, events, done, driver.Snap())
    {
      done := OneEvent(driver, events, done);
    }
  }

  method OneEvent(driver: Driver, events: seq<Event>, done: seq<nat>) returns (more: seq<nat>)
    requires driver.Valid() && Reached(driver.units, events, done, driver.Snap()) && |done| <= |events|
    requires var e := events[|done| - 1]; e.Submit? ==> e.request.unit < NDRIVES && e.request.slice < 16
    modifies driver
    ensures driver.Valid() && |more| == |done| + 1 && Reached(driver.units, events, more, driver.Snap())
  {
    ghost var s := driver.Snap();
    driver.Step(events[|done| - 1]);
    BusyIff(driver.units, driver.domapping, driver.Snap());
    AccountedNext(events, |done| - 1, s, driver.Snap());
    FollowsOn(driver.units, events, done, s, driver.Snap());
    more := done + [|driver.finished|];
  }
}
