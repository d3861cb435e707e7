/** Runs of the hard-disk driver: requests and interrupts in any order, and what each request got to hear. */
module DriverRuns {
  import opened DiskRequests
  import opened DriverState

  datatype Event = Submit(request: Request) | Interrupt(error: bool)

  function Added(e: Event): multiset<Request> {
    if e.Submit? then multiset{e.request} else multiset{}
  }

  function Submitted(events: seq<Event>): multiset<Request> {
    if events == [] then multiset{} else Submitted(events[..|events| - 1]) + Added(events[|events| - 1])
  }

  lemma SubmittedNext(events: seq<Event>, i: nat)
    requires i < |events|
    ensures Submitted(events[..i + 1]) == Submitted(events[..i]) + Added(events[i])
  {
    assert events[..i + 1][..i] == events[..i];
  }

  /** One event of a run. An interrupt of an idle controller is ignored. */
  predicate Stepped(units: seq<Unit>, e: Event, s: Snapshot, after: Snapshot) {
    match e
    case Submit(r) => Enlists(units, r, s, after)
    case Interrupt(error) => if s.hh.controllerBusy then Heeds(error, s, after) else after == s
  }

  // ---------------------------------------------------------------- who heard what

  /** The interrupts the requests given back have heard, in order. */
  function HeardBy(finished: seq<Completion>): seq<bool> {
    if finished == [] then [] else HeardBy(finished[..|finished| - 1]) + finished[|finished| - 1].heard
  }

  lemma HeardByMore(finished: seq<Completion>, c: Completion)
    ensures HeardBy(finished + [c]) == HeardBy(finished) + c.heard
  {
    assert (finished + [c])[..|finished|] == finished;
  }

  /** What the request in progress has heard, if there is one. */
  function HeardNow(s: Snapshot): seq<bool> {
    if s.hh.controllerBusy then s.ctl.heard else []
  }

  /** What one event makes the requests hear: an interrupt, unless the controller is idle. */
  function Hears(e: Event, busy: bool): seq<bool> {
    if e.Interrupt? && busy then [e.error] else []
  }

  /** Every interrupt is heard by one request, the one in progress; a new one starts having heard nothing. */
  lemma StepHeard(units: seq<Unit>, e: Event, s: Snapshot, after: Snapshot)
    requires Stepped(units, e, s, after)
    ensures HeardBy(after.finished) + HeardNow(after) ==
      HeardBy(s.finished) + HeardNow(s) + Hears(e, s.hh.controllerBusy)
  {
    if after.finished != s.finished {
      var c := after.finished[|s.finished|];
      assert after.finished == s.finished + [c];
      HeardByMore(s.finished, c);
    }
  }

  // ---------------------------------------------------------------- the time line

  /** After k events more requests have come than have been given back: the controller works. */
  predicate Works(events: seq<Event>, k: nat, done: nat)
    requires k <= |events|
  {
    done < |Submitted(events[..k])|
  }

  /**
   * What event k does when it finds before requests given back, and leaves after of them. A request is given back as
   * it comes when it needs no transfer, and else by an interrupt: with an error if it fails, without if it does not.
   */
  predicate Turn(units: seq<Unit>, events: seq<Event>, finished: seq<Completion>, k: nat, before: nat, after: nat)
    requires k < |events|
  {
    && before <= after <= |finished|
    && match events[k]
       case Submit(r) =>
         && r.unit < |units| && r.slice < 16
         && if Screen(units, r) == Done then after == before
            else
              && after == before + 1
              && finished[before].request == r && finished[before].outcome == Screen(units, r)
       case Interrupt(error) =>
         after != before ==>
           && after == before + 1 && Works(events, k, before)
           && finished[before].outcome == if error then Failed else Done
  }

  /** The interrupts that come while the controller works, in order. */
  function Flags(events: seq<Event>, done: seq<nat>, k: nat): seq<bool>
    requires k <= |events| && k < |done|
  {
    if k == 0 then [] else Flags(events, done, k - 1) + Hears(events[k - 1], Works(events, k - 1, done[k - 1]))
  }

  lemma {:induction false} FlagsStay(events: seq<Event>, done: seq<nat>, more: seq<nat>, k: nat)
    requires k <= |events| && k < |done| && done <= more
    ensures Flags(events, more, k) == Flags(events, done, k)
  {
    if k > 0 {
      FlagsStay(events, done, more, k - 1);
    }
  }

  /** What is not an error event is not heard as one. */
  lemma {:induction false} FlagsFromEvents(events: seq<Event>, done: seq<nat>, k: nat)
    requires k <= |events| && k < |done|
    ensures true in Flags(events, done, k) ==> Interrupt(true) in events
  {
    if k > 0 {
      FlagsFromEvents(events, done, k - 1);
      assert events[k - 1] in events;
    }
  }

  /** Each event had its turn. */
  ghost predicate Turns(units: seq<Unit>, events: seq<Event>, finished: seq<Completion>, done: seq<nat>) {
    && 0 < |done| <= |events| + 1 && done[0] == 0
    && forall k :: 0 <= k < |done| - 1 ==> Turn(units, events, finished, k, done[k], done[k + 1])
  }

  /** The state after the first events: done says how many requests had been given back at each of them. */
  ghost predicate Follows(units: seq<Unit>, events: seq<Event>, done: seq<nat>, s: Snapshot) {
    && Turns(units, events, s.finished, done)
    && var k := |done| - 1;
    && done[k] == |s.finished|
    && (s.hh.controllerBusy <==> Works(events, k, done[k]))
    && HeardBy(s.finished) + HeardNow(s) == Flags(events, done, k)
  }

  /** Nothing waits exactly when all that came has been given back. */
  lemma WorksIff(events: seq<Event>, k: nat, queues: QueueTable, finished: seq<Completion>)
    requires k <= |events| && |queues| == NDRIVES && Submitted(events[..k]) == Everything(queues, finished)
    ensures Works(events, k, |finished|) <==> queues[0] != [] || queues[1] != []
  {
    PendingSize(queues[0]);
    PendingSize(queues[1]);
    CompletedSize(finished);
  }

  lemma {:induction false} PendingSize(q: seq<Queued>)
    ensures |Pending(q)| == |q|
  {
    if q != [] {
      PendingSize(q[1..]);
    }
  }

  lemma {:induction false} CompletedSize(f: seq<Completion>)
    ensures |Completed(f)| == |f|
  {
    if f != [] {
      CompletedSize(f[..|f| - 1]);
    }
  }

  /** One more event. */
  lemma FollowsOn(units: seq<Unit>, events: seq<Event>, done: seq<nat>, s: Snapshot, after: Snapshot)
    requires Follows(units, events, done, s) && |done| <= |events|
    requires Stepped(units, events[|done| - 1], s, after)
    requires after.hh.controllerBusy <==> Works(events, |done|, |after.finished|)
    ensures Follows(units, events, done + [|after.finished|], after)
  {
    var k, more := |done| - 1, done + [|after.finished|];
    StepHeard(units, events[k], s, after);
    FlagsStay(events, done, more, k);
    StepTurn(units, events, k, s, after);
    TurnsMore(units, events, s.finished, after.finished, done);
  }

  lemma TurnsMore(units: seq<Unit>, events: seq<Event>, finished: seq<Completion>, after: seq<Completion>,
                  done: seq<nat>)
    requires Turns(units, events, finished, done) && finished <= after && |done| <= |events|
    requires Turn(units, events, after, |done| - 1, done[|done| - 1], |after|)
    ensures Turns(units, events, after, done + [|after|])
  {
    var more := done + [|after|];
    TurnsStay(units, events, finished, after, done);
    forall i | 0 <= i < |done| ensures Turn(units, events, after, i, more[i], more[i + 1]) {
      if i < |done| - 1 {
        assert Turn(units, events, after, i, done[i], done[i + 1]);
      }
    }
  }

  lemma StepTurn(units: seq<Unit>, events: seq<Event>, k: nat, s: Snapshot, after: Snapshot)
    requires k < |events| && Stepped(units, events[k], s, after)
    requires s.hh.controllerBusy ==> Works(events, k, |s.finished|)
    ensures Turn(units, events, after.finished, k, |s.finished|, |after.finished|)
    ensures s.finished <= after.finished
  {
  }

  lemma TurnsStay(units: seq<Unit>, events: seq<Event>, finished: seq<Completion>, more: seq<Completion>,
                  done: seq<nat>)
    requires Turns(units, events, finished, done) && finished <= more
    ensures Turns(units, events, more, done)
  {
    forall k | 0 <= k < |done| - 1 ensures Turn(units, events, more, k, done[k], done[k + 1]) {
      assert Turn(units, events, finished, k, done[k], done[k + 1]);
    }
  }

  // ---------------------------------------------------------------- errors

  lemma {:induction false} HeardByOne(finished: seq<Completion>, i: nat)
    requires i < |finished|
    ensures forall e :: e in finished[i].heard ==> e in HeardBy(finished)
  {
    var n := |finished| - 1;
    if i < n {
      HeardByOne(finished[..n], i);
    }
  }

  /** No request has failed or been recalibrated. */
  predicate NoErrors(finished: seq<Completion>) {
    forall i :: 0 <= i < |finished| ==> finished[i].outcome != Failed && finished[i].recalibrations == 0
  }

  /** A request that fails, or needs a recalibration, has heard an error; so there was one. */
  lemma ErrorsComeFromEvents(units: seq<Unit>, domapping: bool, events: seq<Event>, done: seq<nat>, s: Snapshot,
                             i: nat)
    requires Follows(units, events, done, s) && Settled(units, domapping, s.finished) && i < |s.finished|
    requires Interrupt(true) !in events
    ensures s.finished[i].outcome != Failed && s.finished[i].recalibrations == 0
  {
    var c := s.finished[i];
    ErrorHeard(c.heard);
    HeardByOne(s.finished, i);
    FlagsFromEvents(events, done, |done| - 1);
    assert Owed(units, domapping, c);
  }
}
