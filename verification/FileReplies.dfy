/** A call on an open file fails only where one of the requests it made for memory or for a device read was refused. */
module FileReplies {
  import opened BootFs
  import opened FileCache
  import opened FileSession

  /** The n-th request was refused: it failed, or was answered with no place, or with one given before. */
  predicate Refused(e: Env, n: nat) {
    e.reply(n) == Fails || e.reply(n) == At(NULL) || exists i: nat :: i < n && e.reply(i) == e.reply(n)
  }

  /** No request is ever refused. */
  ghost predicate Generous(e: Env) {
    forall n: nat :: !Refused(e, n)
  }

  /** Every buffer is where some earlier reply put it. */
  ghost predicate Placed(e: Env, c: Caches) {
    forall p :: p in c.space ==> exists i: nat :: i < c.time && e.reply(i) == At(p)
  }

  /** From one state of the caches to another: if it failed, one of the requests on the way was refused. */
  ghost predicate Blamed(e: Env, c: Caches, after: Caches, failed: bool) {
    && c.time <= after.time && Placed(e, after)
    && (failed ==> exists n: nat :: c.time <= n < after.time && Refused(e, n))
  }

  lemma BlamedThen(e: Env, c: Caches, mid: Caches, after: Caches, failed: bool)
    requires Blamed(e, c, mid, false) && Blamed(e, mid, after, failed)
    ensures Blamed(e, c, after, failed)
  {
  }

  /** A request that is not refused is met. */
  lemma ReplaceBlamed(e: Env, c: Caches, was: Ptr, bytes: seq<Byte>, after: Caches)
    requires Placed(e, c) && after.time == c.time + 1 && after.space == Replace(e, c, was, bytes).space
    ensures Blamed(e, c, after, !Replace(e, c, was, bytes).ok)
  {
    var t := Replace(e, c, was, bytes);
    forall p | p in after.space ensures exists i: nat :: i < after.time && e.reply(i) == At(p) {
      if p in c.space {
        var i: nat :| i < c.time && e.reply(i) == At(p);
        assert i < after.time;
      } else {
        assert c.time < after.time && e.reply(c.time) == At(p);
      }
    }
    if !t.ok {
      RefusedNow(e, c, was, bytes);
      assert c.time <= c.time < after.time && Refused(e, c.time);
    }
  }

  lemma RefusedNow(e: Env, c: Caches, was: Ptr, bytes: seq<Byte>)
    requires Placed(e, c) && !Replace(e, c, was, bytes).ok
    ensures Refused(e, c.time)
  {
    if e.reply(c.time).At? && e.reply(c.time) != At(NULL) {
      assert e.reply(c.time).place in c.space;
    }
  }

  lemma LoadBlamed(e: Env, c: Caches, level: nat, block: nat)
    requires Placed(e, c) && level < NIADDR
    ensures var (after, ok) := Load(e, c, level, block); Blamed(e, c, after, !ok)
  {
    if c.blkno[level] != block {
      ReplaceBlamed(e, c, c.blk[level], ReadDisk(e.disk, Address(e.fs, block), e.fs.bsize),
                    Load(e, c, level, block).0);
    }
  }

  lemma {:induction false} DescendBlamed(e: Env, c: Caches, block: nat, level: nat, index: nat)
    requires Placed(e, c) && level < NIADDR && index < Span(e.fs, level + 1)
    ensures var (after, m) := Descend(e, c, block, level, index); Blamed(e, c, after, m == DeviceError)
    decreases level
  {
    if block != 0 {
      LoadBlamed(e, c, level, block);
      var (mid, ok) := Load(e, c, level, block);
      if ok {
        var idx, bytes := EntryFor(e.fs, level, index), Bytes(mid, mid.blk[level]);
        if |bytes| >= 4 * idx + 4 && level > 0 {
          DescendBlamed(e, mid, Word(bytes, idx), level - 1, IndexBelow(e.fs, level, index));
        }
      }
    }
  }

  lemma MapBlamed(e: Env, c: Caches, inode: Inode, fileBlock: nat)
    requires Placed(e, c)
    ensures var (after, m) := Map(e, c, inode, fileBlock); Blamed(e, c, after, m == DeviceError)
  {
    if fileBlock >= NDADDR {
      var (level, index) := Top(e.fs, fileBlock);
      if level < NIADDR {
        DescendBlamed(e, c, inode.ib[level], level, index);
      }
    }
  }

  predicate Failing(s: Status) {
    s == Fault || s == Starved
  }

  lemma RefillBlamed(e: Env, c: Caches, inode: Inode, fileBlock: nat, n: nat)
    requires Placed(e, c)
    ensures var (after, r) := Refill(e, c, inode, fileBlock, n); Blamed(e, c, after, Failing(r))
  {
    ReplaceBlamed(e, c, c.buf, Fetched(e.disk, e.fs, n, BlockSize(e.fs, inode, fileBlock)),
                  Refill(e, c, inode, fileBlock, n).0);
  }

  lemma FillBlamed(e: Env, c: Caches, inode: Inode, fileBlock: nat)
    requires Placed(e, c)
    ensures var (after, r) := Fill(e, c, inode, fileBlock); Blamed(e, c, after, Failing(r))
  {
    MapBlamed(e, c, inode, fileBlock);
    var (mid, m) := Map(e, c, inode, fileBlock);
    if m.Block? {
      RefillBlamed(e, mid, inode, fileBlock, m.number);
      BlamedThen(e, c, mid, Fill(e, c, inode, fileBlock).0, Failing(Fill(e, c, inode, fileBlock).1));
    }
  }

  lemma ReadAtBlamed(e: Env, c: Caches, inode: Inode, offset: nat)
    requires Placed(e, c)
    ensures var r := ReadAt(e, c, inode, offset); Blamed(e, c, r.caches, Failing(r.status))
  {
    if offset < inode.size {
      FillBlamed(e, c, inode, BlockNo(e.fs, offset));
    }
  }

  ghost predicate Blaming(e: Env, read: Reader) {
    forall c, offset {:trigger read(c, offset)} ::
      Placed(e, c) ==> Blamed(e, c, read(c, offset).caches, Failing(read(c, offset).status))
  }

  lemma {:induction false} RangeBlamed(e: Env, read: Reader, limit: nat, c: Caches, offset: nat, size: nat)
    requires Blaming(e, read) && Placed(e, c)
    ensures var r := Range(read, limit, c, offset, size); Blamed(e, c, r.caches, Failing(r.status))
    decreases size
  {
    if size > 0 {
      var r := read(c, offset);
      if r.status == Success {
        var n := FileSession.Taken(limit, offset, size, r.data);
        if n > 0 {
          RangeBlamed(e, read, limit, r.caches, offset + n, size - n);
          var rest := Range(read, limit, r.caches, offset + n, size - n);
          BlamedThen(e, c, r.caches, rest.caches, Failing(rest.status));
        }
      }
    }
  }

  lemma NewInodeBlamed(e: Env, c: Caches)
    requires Placed(e, c)
    ensures var (after, ok) := NewInode(e, c); Blamed(e, c, after, !ok)
  {
    var (after, ok) := NewInode(e, c);
    forall p | p in after.space ensures exists i: nat :: i < after.time && e.reply(i) == At(p) {
      assert p in c.space;
    }
    if !ok {
      assert c.time < after.time && Refused(e, c.time);
    }
  }

  predicate FailedAnswer(a: Answer) {
    a == Failed || a == Unfilled
  }

  lemma AnswerBlamed(e: Env, s: State, call: Call)
    requires Placed(e, s.caches)
    ensures var t := AnswerTo(e, s, call); Blamed(e, s.caches, t.state.caches, FailedAnswer(t.answer))
  {
    match call
    case ReadInode(_) => NewInodeBlamed(e, s.caches);
    case MapBlock(b) => MapBlamed(e, s.caches, s.inode, b);
    case ReadBytes(offset, size) =>
      forall c: Caches, at: nat | Placed(e, c)
        ensures Blamed(e, c, ReadAt(e, c, s.inode, at).caches, Failing(ReadAt(e, c, s.inode, at).status))
      {
        ReadAtBlamed(e, c, s.inode, at);
      }
      RangeBlamed(e, Reads(e, s.inode), s.inode.size, s.caches, offset, size);
  }

  lemma {:induction false} PlacedAt(e: Env, first: Inode, calls: seq<Call>, k: nat)
    requires k <= |calls|
    ensures Placed(e, StateAt(Answering(e), Start(first), calls, k).caches)
  {
    if k > 0 {
      PlacedAt(e, first, calls, k - 1);
      AnswerBlamed(e, StateAt(Answering(e), Start(first), calls, k - 1), calls[k - 1]);
    }
  }

  /** In any session, at any time: a call answers that it failed only if a request was refused while it was served. */
  lemma EveryFailureRefused(e: Env, first: Inode, calls: seq<Call>, k: nat)
    requires k < |calls| && FailedAnswer(AnswerAt(Answering(e), Start(first), calls, k))
    ensures exists n: nat ::
      && StateAt(Answering(e), Start(first), calls, k).caches.time <= n
      && n < StateAt(Answering(e), Start(first), calls, k + 1).caches.time
      && Refused(e, n)
  {
    PlacedAt(e, first, calls, k);
    AnswerBlamed(e, StateAt(Answering(e), Start(first), calls, k), calls[k]);
  }

  lemma NeverFails(e: Env, first: Inode, calls: seq<Call>, k: nat)
    requires Generous(e) && k < |calls|
    ensures !FailedAnswer(AnswerAt(Answering(e), Start(first), calls, k))
  {
    if FailedAnswer(AnswerAt(Answering(e), Start(first), calls, k)) {
      EveryFailureRefused(e, first, calls, k);
    }
  }

  lemma OnlyRight(e: Env, s: State, call: Call, a: Answer)
    requires Fits(e, s, call, a) && !FailedAnswer(a) && !MeetsNoneIn(e.disk, e.fs, s.inode, call)
    ensures Right(e.disk, e.fs, s.inode, call, a) && !Trouble(call, a)
  {
  }

  lemma RightNow(e: Env, first: Inode, calls: seq<Call>, k: nat)
    requires Generous(e) && k < |calls| && Calm(Answering(e), Start(first), calls, k)
    requires !MeetsNoneIn(e.disk, e.fs, StateAt(Answering(e), Start(first), calls, k).inode, calls[k])
    ensures Right(e.disk, e.fs, StateAt(Answering(e), Start(first), calls, k).inode, calls[k],
                  AnswerAt(Answering(e), Start(first), calls, k))
    ensures !Trouble(calls[k], AnswerAt(Answering(e), Start(first), calls, k))
  {
    NeverFails(e, first, calls, k);
    EverySession(e, first, calls, k);
    OnlyRight(e, StateAt(Answering(e), Start(first), calls, k), calls[k],
              AnswerAt(Answering(e), Start(first), calls, k));
  }

  /** No walk of a session meets the number that stands for no block. */
  ghost predicate MeetsNoneNowhere(e: Env, first: Inode, calls: seq<Call>) {
    forall i :: 0 <= i < |calls| ==>
      !MeetsNoneIn(e.disk, e.fs, StateAt(Answering(e), Start(first), calls, i).inode, calls[i])
  }

  /** One calm call after another. */
  ghost predicate StaysCalm(m: Machine, first: State, calls: seq<Call>) {
    forall i :: 0 <= i < |calls| && Calm(m, first, calls, i) ==> !Trouble(calls[i], AnswerAt(m, first, calls, i))
  }

  lemma {:induction false} AlwaysCalm(m: Machine, first: State, calls: seq<Call>, k: nat)
    requires StaysCalm(m, first, calls) && k <= |calls|
    ensures Calm(m, first, calls, k)
  {
    if k > 0 {
      AlwaysCalm(m, first, calls, k - 1);
    }
  }

  lemma GenerousStaysCalm(e: Env, first: Inode, calls: seq<Call>)
    requires Generous(e) && MeetsNoneNowhere(e, first, calls)
    ensures StaysCalm(Answering(e), Start(first), calls)
  {
    forall i | 0 <= i < |calls| && Calm(Answering(e), Start(first), calls, i)
      ensures !Trouble(calls[i], AnswerAt(Answering(e), Start(first), calls, i))
    {
      RightNow(e, first, calls, i);
    }
  }

  /** Where no request is ever refused, and no walk meets the number that stands for no block, every answer is right. */
  lemma NothingRefused(e: Env, first: Inode, calls: seq<Call>, k: nat)
    requires Generous(e) && MeetsNoneNowhere(e, first, calls) && k < |calls|
    ensures Right(e.disk, e.fs, StateAt(Answering(e), Start(first), calls, k).inode, calls[k],
                  AnswerAt(Answering(e), Start(first), calls, k))
  {
    GenerousStaysCalm(e, first, calls);
    AlwaysCalm(Answering(e), Start(first), calls, k);
    RightNow(e, first, calls, k);
  }
}
