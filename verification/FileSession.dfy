/** Runs of calls on an open file: what each answers, and when the answers are right. */
module FileSession {
  import opened BootFs
  import opened FileCache

  // ---------------------------------------------------------------- read_file

  /** What a piece of the file at an offset is read by. */
  type Reader = (Caches, nat) -> Reading

  /** How much of a piece of a block a range takes, in a file of some size. */
  function Taken(limit: nat, offset: nat, size: nat, piece: seq<Byte>): (n: nat)
    ensures n <= size && n <= |piece|
  {
    var n := Min(size, Min(|piece|, limit - offset));
    if n < 0 then 0 else n
  }

  function After(piece: seq<Byte>, r: Reading): Reading {
    r.(data := piece + r.data)
  }

  /** Pieces, one after another, until the range is done. */
  function Range(read: Reader, limit: nat, c: Caches, offset: nat, size: nat): Reading
    decreases size
  {
    if size == 0 then Reading(c, Success, []) else
    var r := read(c, offset);
    if r.status != Success then r.(data := []) else
    var n := Taken(limit, offset, size, r.data);
    if n == 0 then r.(data := []) else
    After(r.data[..n], Range(read, limit, r.caches, offset + n, size - n))
  }

  function Reads(e: Env, inode: Inode): Reader {
    (c: Caches, at: nat) => ReadAt(e, c, inode, at)
  }

  function ReadRange(e: Env, c: Caches, inode: Inode, offset: nat, size: nat): Reading {
    Range(Reads(e, inode), inode.size, c, offset, size)
  }

  /** What there is to be read, and what may happen on the way. */
  datatype Truth = Truth(limit: nat, contents: nat -> Byte, good: Caches -> bool, astray: nat -> bool)

  ghost predicate PieceFits(t: Truth, offset: nat, r: Reading) {
    && (r.status == OutOfFile <==> offset >= t.limit)
    && (r.status == Success ==> r.data != [] && IsData(t.contents, offset, r.data))
    && (r.status == Wild ==> offset < t.limit && t.astray(offset))
    && (r.status != Fault && r.status != Starved ==> t.good(r.caches))
  }

  ghost predicate Tells(t: Truth, read: Reader) {
    forall c, offset :: t.good(c) ==> PieceFits(t, offset, read(c, offset))
  }

  /** For a range in the file exactly its bytes; for others an error, unless they are empty. */
  ghost predicate RangeFits(t: Truth, offset: nat, size: nat, r: Reading) {
    && (r.status == Success ==> |r.data| == size && IsData(t.contents, offset, r.data))
    && (r.status == Success || r.status == OutOfFile ==>
          (r.status == Success <==> size == 0 || offset + size <= t.limit))
    && (r.status == Wild ==> exists at :: offset <= at < t.limit && t.astray(at))
    && (r.status != Fault && r.status != Starved ==> t.good(r.caches))
  }

  lemma RangeJoin(t: Truth, offset: nat, size: nat, piece: seq<Byte>, r: Reading)
    requires 0 < |piece| <= size && offset + |piece| <= t.limit && IsData(t.contents, offset, piece)
    requires RangeFits(t, offset + |piece|, size - |piece|, r)
    ensures RangeFits(t, offset, size, After(piece, r))
  {
    if r.status == Success {
      DataJoin(t.contents, offset, piece, r.data);
    }
  }

  lemma {:induction false} RangeRight(t: Truth, read: Reader, c: Caches, offset: nat, size: nat)
    requires Tells(t, read) && t.good(c)
    ensures RangeFits(t, offset, size, Range(read, t.limit, c, offset, size))
    decreases size
  {
    if size > 0 {
      var r := read(c, offset);
      assert PieceFits(t, offset, r);
      if r.status == Success {
        var n := Taken(t.limit, offset, size, r.data);
        RangeRight(t, read, r.caches, offset + n, size - n);
        DataSlice(t.contents, offset, r.data, 0, n, offset);
        RangeJoin(t, offset, size, r.data[..n], Range(read, t.limit, r.caches, offset + n, size - n));
      }
    }
  }

  ghost function TruthOf(e: Env, inode: Inode): Truth {
    Truth(inode.size, Contents(e.disk, e.fs, inode), (c: Caches) => Sound(e.disk, e.fs, inode, c),
          (at: nat) => LookupMeetsNone(e.disk, e.fs, inode, BlockNo(e.fs, at)))
  }

  lemma PieceRight(e: Env, c: Caches, inode: Inode, offset: nat)
    requires Sound(e.disk, e.fs, inode, c)
    ensures var r := ReadAt(e, c, inode, offset);
      && PieceFits(TruthOf(e, inode), offset, r)
      && (r.status == Success || r.status == Wild ==>
            (r.status == Wild <==> ReadAstray(e.disk, e.fs, inode, offset, c)))
  {
    ReadRight(e, c, inode, offset);
    AstrayMeetsNone(e.disk, e.fs, inode, BlockNo(e.fs, offset), c);
  }

  lemma ReadsRight(e: Env, inode: Inode)
    ensures Tells(TruthOf(e, inode), Reads(e, inode))
  {
    forall c: Caches, offset: nat | Sound(e.disk, e.fs, inode, c)
      ensures PieceFits(TruthOf(e, inode), offset, ReadAt(e, c, inode, offset))
    {
      PieceRight(e, c, inode, offset);
    }
  }

  // ---------------------------------------------------------------- calls

  datatype Call = ReadInode(inode: Inode) | MapBlock(fileBlock: nat) | ReadBytes(offset: nat, size: nat)

  /** Garbage: read where no buffer is. Unfilled: no memory for a hole, and what is read is not known. */
  datatype Answer = Loaded | Mapped(mapping: Mapping) | Got(data: seq<Byte>) | Outside | Failed | Garbage | Unfilled

  datatype State = State(caches: Caches, inode: Inode)

  datatype Turn = Turn(state: State, answer: Answer)

  function AnswerTo(e: Env, s: State, call: Call): Turn {
    match call
    case ReadInode(i) =>
      var (c, ok) := NewInode(e, s.caches);
      if ok then Turn(State(c, i), Loaded) else Turn(State(c, s.inode), Failed)
    case MapBlock(b) =>
      var (c, m) := Map(e, s.caches, s.inode, b);
      Turn(State(c, s.inode), if m == DeviceError then Failed else if m == Astray then Garbage else Mapped(m))
    case ReadBytes(offset, size) =>
      var r := ReadRange(e, s.caches, s.inode, offset, size);
      Turn(State(r.caches, s.inode), Said(r))
  }

  function Said(r: Reading): Answer {
    match r.status
    case Success => Got(r.data)
    case OutOfFile => Outside
    case Fault => Failed
    case Wild => Garbage
    case Starved => Unfilled
  }

  /** The answer that the disk and the inode alone determine. */
  ghost predicate Right(d: Disk, fs: Fs, inode: Inode, call: Call, answer: Answer) {
    match call
    case ReadInode(_) => answer == Loaded
    case MapBlock(b) => answer == Mapped(Resolve(d, fs, inode, b))
    case ReadBytes(offset, size) =>
      if size == 0 || offset + size <= inode.size
      then answer.Got? && |answer.data| == size && IsFileData(d, fs, inode, offset, answer.data)
      else answer == Outside
  }

  /** A call that needs a block whose tree has the number that stands for no block. */
  ghost predicate MeetsNoneIn(d: Disk, fs: Fs, inode: Inode, call: Call) {
    match call
    case ReadInode(_) => false
    case MapBlock(b) => LookupMeetsNone(d, fs, inode, b)
    case ReadBytes(offset, _) => MeetsNoneFrom(d, fs, inode, offset)
  }

  ghost predicate StateSound(e: Env, s: State) {
    Sound(e.disk, e.fs, s.inode, s.caches)
  }

  /** What an answer may be while no buffer has been lost. */
  ghost predicate Fits(e: Env, s: State, call: Call, a: Answer) {
    || Right(e.disk, e.fs, s.inode, call, a) || a == Failed || a == Unfilled
    || (a == Garbage && MeetsNoneIn(e.disk, e.fs, s.inode, call))
  }

  /** An answer after which a buffer may be lost. */
  predicate Trouble(call: Call, answer: Answer) {
    !call.ReadInode? && (answer == Failed || answer == Garbage || answer == Unfilled)
  }

  /** What fits a range, said of an answer. */
  lemma RangeSaid(e: Env, s: State, offset: nat, size: nat, r: Reading)
    requires RangeFits(TruthOf(e, s.inode), offset, size, r)
    ensures Fits(e, s, ReadBytes(offset, size), Said(r))
    ensures r.status != Fault && r.status != Starved ==> Sound(e.disk, e.fs, s.inode, r.caches)
  {
  }

  lemma RangeAnswerRight(e: Env, s: State, offset: nat, size: nat)
    requires StateSound(e, s)
    ensures RangeFits(TruthOf(e, s.inode), offset, size, ReadRange(e, s.caches, s.inode, offset, size))
  {
    ReadsRight(e, s.inode);
    RangeRight(TruthOf(e, s.inode), Reads(e, s.inode), s.caches, offset, size);
  }

  /** One call, while no buffer has been lost. */
  lemma AnswerRight(e: Env, s: State, call: Call)
    requires StateSound(e, s)
    ensures Fits(e, s, call, AnswerTo(e, s, call).answer)
    ensures !Trouble(call, AnswerTo(e, s, call).answer) ==> StateSound(e, AnswerTo(e, s, call).state)
  {
    match call
    case ReadInode(i) => NewInodeSound(e, s.caches, s.inode, i);
    case MapBlock(b) =>
      MapRight(e, s.caches, s.inode, b);
      AstrayMeetsNone(e.disk, e.fs, s.inode, b, s.caches);
    case ReadBytes(offset, size) =>
      RangeAnswerRight(e, s, offset, size);
      RangeSaid(e, s, offset, size, ReadRange(e, s.caches, s.inode, offset, size));
  }

  /** A new inode, whatever has been lost. */
  lemma LoadedSound(e: Env, s: State, call: Call)
    requires AnswerTo(e, s, call).answer == Loaded
    ensures StateSound(e, AnswerTo(e, s, call).state)
  {
    NewInodeSound(e, s.caches, s.inode, call.inode);
  }

  // ---------------------------------------------------------------- runs

  type Machine = (State, Call) -> Turn

  function StateAt(m: Machine, first: State, calls: seq<Call>, k: nat): State
    requires k <= |calls|
  {
    if k == 0 then first else m(StateAt(m, first, calls, k - 1), calls[k - 1]).state
  }

  function AnswerAt(m: Machine, first: State, calls: seq<Call>, k: nat): Answer
    requires k < |calls|
  {
    m(StateAt(m, first, calls, k), calls[k]).answer
  }

  /** No trouble since the inode in force was read. */
  predicate Calm(m: Machine, first: State, calls: seq<Call>, k: nat)
    requires k <= |calls|
  {
    k == 0
    || AnswerAt(m, first, calls, k - 1) == Loaded
    || (Calm(m, first, calls, k - 1) && !Trouble(calls[k - 1], AnswerAt(m, first, calls, k - 1)))
  }

  /** What a machine keeps while there is no trouble, and has again with every new inode. */
  ghost predicate Keeps(m: Machine, good: State -> bool) {
    forall s, call {:trigger m(s, call)} ::
      m(s, call).answer == Loaded || (good(s) && !Trouble(call, m(s, call).answer)) ==> good(m(s, call).state)
  }

  lemma {:induction false} CalmKeeps(m: Machine, good: State -> bool, first: State, calls: seq<Call>, k: nat)
    requires Keeps(m, good) && good(first) && k <= |calls| && Calm(m, first, calls, k)
    ensures good(StateAt(m, first, calls, k))
  {
    if k > 0 && AnswerAt(m, first, calls, k - 1) != Loaded {
      CalmKeeps(m, good, first, calls, k - 1);
    }
  }

  function Answering(e: Env): Machine {
    (s, call) => AnswerTo(e, s, call)
  }

  ghost function SoundFor(e: Env): State -> bool {
    s => StateSound(e, s)
  }

  lemma AnsweringKeeps(e: Env)
    ensures Keeps(Answering(e), SoundFor(e))
  {
    forall s, call | AnswerTo(e, s, call).answer == Loaded
                     || (StateSound(e, s) && !Trouble(call, AnswerTo(e, s, call).answer))
      ensures StateSound(e, AnswerTo(e, s, call).state)
    {
      if AnswerTo(e, s, call).answer == Loaded {
        LoadedSound(e, s, call);
      } else {
        AnswerRight(e, s, call);
      }
    }
  }

  function Start(first: Inode): State {
    State(EMPTY, first)
  }

  lemma StartSound(e: Env, first: Inode)
    ensures SoundFor(e)(Start(first))
  {
  }

  lemma CalmIsSound(e: Env, first: Inode, calls: seq<Call>, k: nat)
    requires k <= |calls| && Calm(Answering(e), Start(first), calls, k)
    ensures StateSound(e, StateAt(Answering(e), Start(first), calls, k))
  {
    AnsweringKeeps(e);
    StartSound(e, first);
    CalmKeeps(Answering(e), SoundFor(e), Start(first), calls, k);
  }

  /**
   * Any sequence of calls and new inodes on an open file, with failures anywhere and memory given out anyhow: while
   * there has been no trouble since the inode was read, each answer is the one an uncached walk of the inode's tree
   * gives, or says that the device or the memory failed, or meets the number that stands for no block.
   */
  lemma EverySession(e: Env, first: Inode, calls: seq<Call>, k: nat)
    requires k < |calls| && Calm(Answering(e), Start(first), calls, k)
    ensures Fits(e, StateAt(Answering(e), Start(first), calls, k), calls[k],
                 AnswerAt(Answering(e), Start(first), calls, k))
  {
    CalmIsSound(e, first, calls, k);
    AnswerRight(e, StateAt(Answering(e), Start(first), calls, k), calls[k]);
  }
}
