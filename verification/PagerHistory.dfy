/**
 * What the default pager owes its clients, stated on the log of its actions alone: which pages were
 * written, with what result, and what each page request was answered with.
 */
module PagerHistory {
  import opened PagingPartition

  type Port = nat
  type Byte = bv8
  datatype Option<T> = None | Some(value: T)

  datatype Entry =
    | Created(port: Port, residue: int)
    | Wrote(port: Port, page: nat, data: seq<Byte>, initial: bool, ok: bool)
    | Kept(port: Port, page: nat)
    | Supplied(port: Port, page: nat, data: seq<Byte>)
    | Absent(port: Port, page: nat)
    | Refused(port: Port, page: nat)
    | ReadFailed(port: Port, page: nat)
    | Terminated(port: Port)

  type Log = seq<Entry>

  function Live(log: Log): set<Port> {
    if log == [] then {} else
    var before := Live(log[..|log| - 1]);
    match log[|log| - 1]
    case Created(p, _) => before + {p}
    case Terminated(p) => before - {p}
    case _ => before
  }

  /** The error count the object had when it was created. */
  function Residue(log: Log, port: Port): int {
    if log == [] then 0 else
    match log[|log| - 1]
    case Created(p, r) => if p == port then r else Residue(log[..|log| - 1], port)
    case _ => Residue(log[..|log| - 1], port)
  }

  /** Writes to the object that have failed since it was created. */
  function Failures(log: Log, port: Port): nat {
    if log == [] then 0 else
    var before := Failures(log[..|log| - 1], port);
    match log[|log| - 1]
    case Created(p, _) => if p == port then 0 else before
    case Wrote(p, _, _, _, ok) => if p == port && !ok then before + 1 else before
    case _ => before
  }

  /** The data of the last successful write to a page since the object was created. */
  function Stored(log: Log, port: Port, page: nat): Option<seq<Byte>> {
    if log == [] then None else
    var before := Stored(log[..|log| - 1], port, page);
    match log[|log| - 1]
    case Created(p, _) => if p == port then None else before
    case Wrote(p, pg, data, _, ok) => if p == port && pg == page && ok then Some(data) else before
    case _ => before
  }

  /** Some write to the page, successful or not, has been made since the object was created. */
  predicate Attempted(log: Log, port: Port, page: nat) {
    if log == [] then false else
    var before := Attempted(log[..|log| - 1], port, page);
    match log[|log| - 1]
    case Created(p, _) => p != port && before
    case Wrote(p, pg, _, _, _) => (p == port && pg == page) || before
    case _ => before
  }

  /** The last write to the page since the object was created has failed, so that its block may hold anything. */
  predicate Doubtful(log: Log, port: Port, page: nat) {
    if log == [] then false else
    var before := Doubtful(log[..|log| - 1], port, page);
    match log[|log| - 1]
    case Created(p, _) => p != port && before
    case Wrote(p, pg, _, _, ok) => if p == port && pg == page then !ok else before
    case _ => before
  }

  /** Where no write to the object has failed, no page of it is in doubt. */
  lemma {:induction false} NoneDoubtful(log: Log, port: Port, page: nat)
    ensures Failures(log, port) == 0 ==> !Doubtful(log, port, page)
  {
    if log != [] {
      NoneDoubtful(log[..|log| - 1], port, page);
    }
  }

  /** The error count of an object: writes that fail add to whatever was there at creation. */
  function Errors(log: Log, port: Port): int {
    Residue(log, port) + Failures(log, port)
  }

  /** Actions that failed. */
  function Lapses(log: Log): nat {
    if log == [] then 0 else Lapses(log[..|log| - 1]) + Lapse(log[|log| - 1])
  }

  function Lapse(e: Entry): nat {
    if (e.Wrote? && !e.ok) || e.ReadFailed? then 1 else 0
  }

  lemma LapsesNext(log: Log, e: Entry)
    ensures Lapses(log + [e]) == Lapses(log) + Lapse(e)
  {
    assert (log + [e])[..|log|] == log;
  }

  lemma {:induction false} LapsesJoin(log: Log, added: Log)
    ensures Lapses(log + added) == Lapses(log) + Lapses(added)
  {
    if added == [] {
      assert log + added == log;
    } else {
      var n := |added| - 1;
      LapsesJoin(log, added[..n]);
      assert (log + added)[..|log| + n] == log + added[..n];
    }
  }

  /** Where nothing failed, every write succeeded and no read was given up. */
  lemma {:induction false} NoLapse(log: Log, i: nat)
    requires i < |log| && Lapses(log) == 0
    ensures (log[i].Wrote? ==> log[i].ok) && !log[i].ReadFailed?
  {
    if i < |log| - 1 {
      NoLapse(log[..|log| - 1], i);
    }
  }

  /** When an entry is the right thing to do after a given log. */
  ghost predicate Correct(before: Log, e: Entry) {
    match e
    case Created(p, _) => p !in Live(before)
    case Terminated(p) => p in Live(before)
    // initializing never overwrites a page that holds data, and leaves alone only pages written before
    case Wrote(p, pg, _, initial, _) => p in Live(before) && (initial ==> Stored(before, p, pg) == None)
    case Kept(p, pg) => p in Live(before) && Attempted(before, p, pg)
    // the latch is open, and the data is that of the last write to the page, unless that write has failed
    case Supplied(p, pg, data) =>
      && p in Live(before)
      && Errors(before, p) == 0
      && Attempted(before, p, pg)
      && (!Doubtful(before, p, pg) ==> Stored(before, p, pg) == Some(data))
    case Absent(p, pg) => p in Live(before) && Errors(before, p) == 0 && Stored(before, p, pg) == None
    case ReadFailed(p, pg) => p in Live(before) && Errors(before, p) == 0 && Attempted(before, p, pg)
    case Refused(p, pg) => p in Live(before) && Errors(before, p) != 0
  }

  ghost predicate Faithful(log: Log) {
    forall i {:trigger Correct(log[..i], log[i])} :: 0 <= i < |log| ==> Correct(log[..i], log[i])
  }

  lemma FaithfulAppend(log: Log, e: Entry)
    requires Faithful(log) && Correct(log, e)
    ensures Faithful(log + [e])
  {
    var longer := log + [e];
    forall i | 0 <= i < |longer| ensures Correct(longer[..i], longer[i]) {
      if i < |log| {
        assert longer[..i] == log[..i];
      } else {
        assert longer[..i] == log;
      }
    }
  }

  /**
   * The promise to clients: for an object whose error count was not negative at creation, every page
   * supplied is the last one written, and no write to the object has failed.
   */
  lemma SuppliedIsLastWritten(log: Log, i: nat)
    requires Faithful(log) && i < |log| && log[i].Supplied?
    requires Residue(log[..i], log[i].port) >= 0
    ensures Stored(log[..i], log[i].port, log[i].page) == Some(log[i].data)
    ensures Failures(log[..i], log[i].port) == 0
  {
    assert Correct(log[..i], log[i]);
    NoneDoubtful(log[..i], log[i].port, log[i].page);
  }

  /** Whatever the count was, a page supplied is wrong only where the last write to that very page has failed. */
  lemma WrongOnlyInDoubt(log: Log, i: nat)
    requires Faithful(log) && i < |log| && log[i].Supplied?
    ensures Stored(log[..i], log[i].port, log[i].page) == Some(log[i].data)
            || Doubtful(log[..i], log[i].port, log[i].page)
  {
    assert Correct(log[..i], log[i]);
  }

  /** After a failed write no page of such an object is supplied until the object is created anew. */
  lemma LatchStaysClosed(log: Log, i: nat, j: nat)
    requires Faithful(log) && i < j < |log| && log[i].Wrote? && !log[i].ok
    requires Residue(log[..i], log[i].port) >= 0
    requires forall k :: i < k < j ==> !(log[k].Created? && log[k].port == log[i].port)
    ensures !(log[j].Supplied? && log[j].port == log[i].port)
  {
    FailureRemembered(log, i, j);
    assert Correct(log[..j], log[j]);
  }

  lemma {:induction false} FailureRemembered(log: Log, i: nat, j: nat)
    requires i < j <= |log| && log[i].Wrote? && !log[i].ok
    requires forall k :: i < k < j ==> !(log[k].Created? && log[k].port == log[i].port)
    ensures Failures(log[..j], log[i].port) > 0
    ensures Residue(log[..j], log[i].port) == Residue(log[..i], log[i].port)
    decreases j
  {
    assert log[..j][..j - 1] == log[..j - 1];
    assert log[..j][j - 1] == log[j - 1];
    if j > i + 1 {
      FailureRemembered(log, i, j - 1);
    }
  }

  /** What the latch is for: a page supplied after any history is the last one written, and no write has failed. */
  ghost predicate Trusted(log: Log, i: nat)
    requires i < |log|
  {
    log[i].Supplied? ==>
      && Failures(log[..i], log[i].port) == 0
      && Stored(log[..i], log[i].port, log[i].page) == Some(log[i].data)
  }

  /** Entry i supplies a page of an object that was created with a certain count. */
  predicate SuppliesAfter(log: Log, i: nat, port: Port, residue: int) {
    i < |log| && log[i].Supplied? && log[i].port == port && Residue(log[..i], port) == residue
  }

  /**
   * Clients can trust every page they are supplied with, in every faithful log, exactly when the error count was not
   * negative at creation: an object left with a negative count reopens after that many failures.
   */
  lemma LatchExact(port: Port, residue: int)
    ensures residue >= 0 <==>
            forall log: Log, i: nat :: Faithful(log) && SuppliesAfter(log, i, port, residue) ==> Trusted(log, i)
  {
    if residue >= 0 {
      forall log: Log, i: nat | Faithful(log) && SuppliesAfter(log, i, port, residue) ensures Trusted(log, i)
      {
        SuppliedIsLastWritten(log, i);
      }
    } else {
      var log, i := WrongSupply(port, residue);
      assert SuppliesAfter(log, i, port, residue) && !Trusted(log, i);
    }
  }

  /** A page of one byte value. */
  function Page(b: Byte): (s: seq<Byte>)
    ensures |s| == PAGE_SIZE
  {
    seq(PAGE_SIZE, _ => b)
  }

  /** An object created with some count, a page written, and n writes of that page that fail. */
  function FailingLog(port: Port, residue: int, n: nat): Log {
    if n == 0 then [Created(port, residue), Wrote(port, 0, Page(1), false, true)]
    else FailingLog(port, residue, n - 1) + [Wrote(port, 0, Page(2), false, false)]
  }

  lemma {:induction false} FailingLogCounts(port: Port, residue: int, n: nat)
    ensures var log := FailingLog(port, residue, n);
            && Residue(log, port) == residue && Failures(log, port) == n
            && port in Live(log) && Stored(log, port, 0) == Some(Page(1)) && Faithful(log)
            && Attempted(log, port, 0) && (Doubtful(log, port, 0) <==> n > 0)
  {
    var log := FailingLog(port, residue, n);
    if n == 0 {
      var first := [Created(port, residue)];
      assert first[..0] == [] && log[..1] == first && log == first + [log[1]];
      assert Live([]) == {} && Correct([], first[0]) && Faithful(first);
      FaithfulAppend(first, log[1]);
    } else {
      FailingLogCounts(port, residue, n - 1);
      var before := FailingLog(port, residue, n - 1);
      assert log[..|log| - 1] == before;
      FaithfulAppend(before, log[|log| - 1]);
    }
  }

  /** After as many failures as the count was below zero, the page supplied is not the one written. */
  lemma WrongSupply(port: Port, residue: int) returns (log: Log, i: nat)
    requires residue < 0
    ensures Faithful(log) && i < |log| && log[i].Supplied? && log[i].port == port
    ensures Residue(log[..i], port) == residue
    ensures Failures(log[..i], port) == -residue && Stored(log[..i], port, log[i].page) == Some(Page(1))
    ensures log[i].data == Page(2) && log[i].data != Page(1)
  {
    var before := FailingLog(port, residue, -residue);
    var e := Supplied(port, 0, Page(2));
    FailingLogCounts(port, residue, -residue);
    FaithfulAppend(before, e);
    log, i := before + [e], |before|;
    assert log[..i] == before;
    assert Page(2)[0] != Page(1)[0];
  }
}
