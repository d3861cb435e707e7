/** An open file: the inode, and the caches of indirect blocks and of one data block that reading keeps. */
module OpenFile {
  import opened BootFs
  import opened FileCache
  import opened FileSession

  /** The last part of mount_fs, in 32-bit arithmetic. */
  method LevelTable(fs: Fs) returns (table: seq<nat>)
    ensures Mounted(fs, table)
  {
    var mult: nat := 1;
    table := [];
    for level := 0 to NIADDR
      invariant |table| == level
      invariant forall l :: 0 <= l < level ==> table[l] == Reach(fs, l)
      invariant mult == if level == 0 then 1 else Reach(fs, level - 1)
    {
      mult := Wrap32(mult * Nindir(fs));
      table := table + [mult];
    }
  }

  /** Each method does to the fields what its function of the same purpose in FileCache does to the values. */
  class File {
    const env: Env            // the disk, its superblock, and what requests for memory will meet
    var inode: Inode
    var nindir: seq<nat>
    var space: Space          // the buffers in the address space
    var time: nat             // requests so far
    var blkno: seq<nat>
    var blk: seq<Ptr>
    var bufBlkno: nat
    var buf: Ptr

    ghost predicate Valid()
      reads this
    {
      Mounted(env.fs, nindir) && |blkno| == NIADDR && |blk| == NIADDR && NULL !in space
    }

    ghost function Cached(): Caches
      requires Valid()
      reads this
    {
      Cache(space, time, blkno, blk, bufBlkno, buf)
    }

    /** No buffer has been lost since the inode was read. */
    ghost predicate Intact()
      requires Valid()
      reads this
    {
      Sound(env.disk, env.fs, inode, Cached())
    }

    /** mount_fs and read_inode, on a superblock and an inode that have been read. */
    constructor (e: Env, i: Inode)
      ensures Valid() && env == e && State(Cached(), inode) == Start(i)
    {
      env := e;
      inode := i;
      var table := LevelTable(e.fs);
      nindir := table;
      space := map[];
      time := 0;
      blkno := [NONE, NONE, NONE];
      blk := [NULL, NULL, NULL];
      bufBlkno := NONE;
      buf := NULL;
    }

    /**
     * vm_deallocate of a buffer, if there is a pointer to one; then device_read or vm_allocate into the pointer: a new
     * buffer somewhere, or the pointer as it was.
     */
    method Renew(p: Ptr, bytes: seq<Byte>) returns (place: Ptr, ok: bool)
      requires Valid()
      modifies this`space, this`time
      ensures Valid() && time == old(time) + 1
      ensures Taken(space, place, ok) == Replace(env, old(Cached()), p, bytes)
    {
      if p != NULL {
        space := space - {p};
      }
      place, ok := p, false;
      match env.reply(time) {
        case Fails =>
        case At(at) =>
          if at != NULL && at !in space {
            space := space[at := bytes];
            place, ok := at, true;
          }
      }
      time := time + 1;
    }

    /** The level of the indirect block that leads to a block of the file, and the index below it. */
    method FindLevel(fileBlock: nat) returns (level: nat, rest: nat)
      requires Mounted(env.fs, nindir) && fileBlock >= NDADDR
      ensures level == Top(env.fs, fileBlock).0
      ensures level < NIADDR ==> rest == Top(env.fs, fileBlock).1
    {
      level, rest := 0, fileBlock - NDADDR;
      while level < NIADDR && rest >= nindir[level]
        invariant level <= NIADDR
        invariant level == 0 ==> rest == fileBlock - NDADDR
        invariant level == 1 ==> rest == fileBlock - NDADDR - Reach(env.fs, 0)
        invariant level == 2 ==> rest == fileBlock - NDADDR - Reach(env.fs, 0) - Reach(env.fs, 1)
        invariant level == 3 ==> fileBlock - NDADDR - Reach(env.fs, 0) - Reach(env.fs, 1) >= Reach(env.fs, 2)
      {
        rest := rest - nindir[level];
        level := level + 1;
      }
    }

    /** Brings an indirect block into the cache of its level, unless its number is there. */
    method LoadBlock(level: nat, block: nat) returns (ok: bool)
      requires Valid() && level < NIADDR
      modifies this`space, this`time, this`blkno, this`blk
      ensures Valid() && (Cached(), ok) == Load(env, old(Cached()), level, block)
    {
      ok := true;
      if blkno[level] != block {
        var place;
        place, ok := Renew(blk[level], ReadDisk(env.disk, Address(env.fs, block), env.fs.bsize));
        blk := blk[level := place];
        if ok {
          blkno := blkno[level := block];
        }
      }
    }

    /** The bytes at a pointer, as far as a buffer is there. */
    method Peek(p: Ptr) returns (bytes: seq<Byte>)
      requires Valid()
      ensures bytes == Bytes(Cached(), p)
    {
      bytes := if p in space then space[p] else [];
    }

    /** The walk down from an indirect block, through the caches. */
    method WalkDown(start: nat, top: nat, index: nat) returns (r: Mapping)
      requires Valid() && top < NIADDR && index < Span(env.fs, top + 1)
      modifies this`space, this`time, this`blkno, this`blk
      ensures Valid() && (Cached(), r) == Descend(env, old(Cached()), start, top, index)
    {
      ReachIsSpan(env.fs);
      ghost var goal := Descend(env, Cached(), start, top, index);
      var current: nat, rest: nat, level: int := start, index, top;
      while level >= 0
        invariant -1 <= level <= top && Valid()
        invariant level >= 0 ==> rest < Span(env.fs, level + 1)
        invariant level >= 0 ==> goal == Descend(env, Cached(), current, level, rest)
        invariant level < 0 ==> goal == (Cached(), Block(current))
      {
        if current == 0 {
          return Block(0);
        }
        var ok := LoadBlock(level, current);
        if !ok {
          return DeviceError;
        }
        var idx, below := rest, 0;
        if level > 0 {
          idx, below := rest / nindir[level - 1], rest % nindir[level - 1];
        }
        assert idx == EntryFor(env.fs, level, rest) && below == IndexBelow(env.fs, level, rest);
        var bytes := Peek(blk[level]);
        if |bytes| < 4 * idx + 4 {
          return Astray;
        }
        current, rest, level := Word(bytes, idx), below, level - 1;
      }
      return Block(current);
    }

    /**
     * block_map. While no buffer has been lost: the same block as an uncached walk of the tree, or an error from the
     * device, or an answer read where no buffer is; the caches decide beforehand whether that will happen.
     */
    method BlockMap(fileBlock: nat) returns (r: Mapping)
      requires Valid()
      modifies this`space, this`time, this`blkno, this`blk
      ensures Valid() && (Cached(), r) == Map(env, old(Cached()), inode, fileBlock)
      ensures old(Intact()) ==> r == DeviceError || r == Astray || r == Resolve(env.disk, env.fs, inode, fileBlock)
      ensures old(Intact()) && r != DeviceError ==>
        Intact() && (r == Astray <==> LookupAstray(env.disk, env.fs, inode, fileBlock, old(Cached())))
    {
      if Intact() {
        MapRight(env, Cached(), inode, fileBlock);
      }
      if fileBlock < NDADDR {
        return Block(inode.db[fileBlock]);
      }
      var level, index := FindLevel(fileBlock);
      if level == NIADDR {
        return NotInFile;
      }
      r := WalkDown(inode.ib[level], level, index);
    }

    /** The first half of buf_read_file: fills the buffer with a block of the file. */
    method FillBuffer(fileBlock: nat) returns (r: Status)
      requires Valid()
      modifies this`space, this`time, this`blkno, this`blk, this`bufBlkno, this`buf
      ensures Valid() && (Cached(), r) == Fill(env, old(Cached()), inode, fileBlock)
    {
      var m := BlockMap(fileBlock);
      match m
      case DeviceError => r := Fault;
      case NotInFile => r := OutOfFile;
      case Astray => r := Wild;
      case Block(n) => r := RefillBuffer(fileBlock, n);
    }

    method RefillBuffer(fileBlock: nat, n: nat) returns (r: Status)
      requires Valid()
      modifies this`space, this`time, this`bufBlkno, this`buf
      ensures Valid() && (Cached(), r) == Refill(env, old(Cached()), inode, fileBlock, n)
    {
      var ok;
      buf, ok := Renew(buf, Fetched(env.disk, env.fs, n, BlockSize(env.fs, inode, fileBlock)));
      if ok || n == 0 {
        bufBlkno := fileBlock;
      }
      r := if ok then Success else if n == 0 then Starved else Fault;
    }

    /**
     * buf_read_file: what the buffer holds from an offset on. The caller takes no more of it than the file has. While
     * no buffer has been lost these are the file's bytes, unless the lookup of the block reads where no buffer is.
     */
    method BufRead(offset: nat) returns (r: Status, data: seq<Byte>)
      requires Valid()
      modifies this`space, this`time, this`blkno, this`blk, this`bufBlkno, this`buf
      ensures Valid() && Reading(Cached(), r, data) == ReadAt(env, old(Cached()), inode, offset)
      ensures old(Intact()) ==> PieceFits(TruthOf(env, inode), offset, Reading(Cached(), r, data))
      ensures old(Intact()) && (r == Success || r == Wild) ==>
        (r == Wild <==> ReadAstray(env.disk, env.fs, inode, offset, old(Cached())))
    {
      if Intact() {
        PieceRight(env, Cached(), inode, offset);
      }
      data := [];
      if offset >= inode.size {
        return OutOfFile, data;
      }
      var fileBlock := BlockNo(env.fs, offset);
      if fileBlock != bufBlkno {
        r := FillBuffer(fileBlock);
        if r != Success {
          return;
        }
      }
      var off, size := BlockOff(env.fs, offset), BlockSize(env.fs, inode, fileBlock);
      var bytes := Peek(buf);
      if off <= size <= |bytes| {
        return Success, bytes[off..size];
      }
      return Wild, data;
    }

    /** What read_file reads by. */
    ghost predicate Simulates(read: Reader)
      reads this`inode
    {
      forall c: Caches, at: nat {:trigger ReadAt(env, c, inode, at)} :: read(c, at) == ReadAt(env, c, inode, at)
    }

    method ReadPiece(offset: nat, ghost read: Reader) returns (r: Status, data: seq<Byte>)
      requires Valid() && Simulates(read)
      modifies this`space, this`time, this`blkno, this`blk, this`bufBlkno, this`buf
      ensures Valid() && Reading(Cached(), r, data) == read(old(Cached()), offset)
    {
      r, data := BufRead(offset);
    }

    /** read_file: pieces of blocks, until the range is done or there is no more. */
    method ReadFile(offset: nat, size: nat) returns (r: Status, data: seq<Byte>, resid: nat)
      requires Valid()
      modifies this`space, this`time, this`blkno, this`blk, this`bufBlkno, this`buf
      ensures Valid() && Reading(Cached(), r, data) == ReadRange(env, old(Cached()), inode, offset, size)
      ensures resid == size - |data|
      ensures old(Intact()) ==> RangeFits(TruthOf(env, inode), offset, size, Reading(Cached(), r, data))
    {
      if Intact() {
        RangeAnswerRight(env, State(Cached(), inode), offset, size);
      }
      r, data, resid := ReadPieces(offset, size, Reads(env, inode));
    }

    /** One turn of the loop of read_file: how much more there is, or no more. */
    method ReadTurn(done: seq<Byte>, at: nat, limit: nat, left: nat, ghost read: Reader, ghost goal: Reading)
      returns (r: Status, n: nat, data: seq<Byte>)
      requires Valid() && Simulates(read) && left > 0
      requires goal == After(done, Range(read, limit, Cached(), at, left))
      modifies this`space, this`time, this`blkno, this`blk, this`bufBlkno, this`buf
      ensures Valid() && n <= left && |data| == |done| + n
      ensures n == 0 ==> goal == Reading(Cached(), r, data)
      ensures n > 0 ==> goal == After(data, Range(read, limit, Cached(), at + n, left - n))
    {
      ghost var c := Cached();
      var rest;
      r, rest := ReadPiece(at, read);
      RangeTurn(read, limit, c, at, left, done, Reading(Cached(), r, rest));
      n, data := 0, done;
      if r == Success {
        n := FileSession.Taken(limit, at, left, rest);
        data := done + rest[..n];
      }
    }

    method ReadPieces(offset: nat, size: nat, ghost read: Reader) returns (r: Status, data: seq<Byte>, resid: nat)
      requires Valid() && Simulates(read)
      modifies this`space, this`time, this`blkno, this`blk, this`bufBlkno, this`buf
      ensures Valid() && Reading(Cached(), r, data) == Range(read, inode.size, old(Cached()), offset, size)
      ensures resid == size - |data|
    {
      data, resid := [], size;
      var at, limit := offset, inode.size;
      ghost var goal := Range(read, limit, Cached(), at, size);
      while resid != 0
        invariant Valid() && |data| + resid == size
        invariant goal == After(data, Range(read, limit, Cached(), at, resid))
        decreases resid
      {
        var n;
        r, n, data := ReadTurn(data, at, limit, resid, read, goal);
        at, resid := at + n, resid - n;
        if n == 0 {
          return;
        }
      }
      r := Success;
    }

    /** read_inode: a new inode and empty caches, or, when the device read fails, everything as it was. */
    method ReadInode(i: Inode) returns (ok: bool)
      requires Valid()
      modifies this`inode, this`space, this`time, this`blkno, this`blk, this`bufBlkno, this`buf
      ensures Valid() && (Cached(), ok) == NewInode(env, old(Cached()))
      ensures inode == if ok then i else old(inode)
      ensures ok || old(Intact()) ==> Intact()
    {
      NewInodeSound(env, Cached(), inode, i);
      var reply := env.reply(time);
      ok := reply.At? && reply.place != NULL && reply.place !in space;
      time := time + 1;
      if ok {
        inode := i;
        space := Release(Release(Release(Release(space, blk[0]), blk[1]), blk[2]), buf);
        blkno := [NONE, NONE, NONE];
        blk := [NULL, NULL, NULL];
        bufBlkno := NONE;
        buf := NULL;
      }
    }

    /** One call. */
    method Answer(call: Call) returns (answer: Answer)
      requires Valid()
      modifies this
      ensures Valid() && Turn(State(Cached(), inode), answer) == AnswerTo(env, old(State(Cached(), inode)), call)
    {
      match call
      case ReadInode(i) =>
        var ok := ReadInode(i);
        answer := if ok then Loaded else Failed;
      case MapBlock(b) =>
        var m := BlockMap(b);
        answer := if m == DeviceError then Failed else if m == Astray then Garbage else Mapped(m);
      case ReadBytes(offset, size) =>
        var r, data, resid := ReadFile(offset, size);
        answer := match r
          case Success => Got(data)
          case OutOfFile => Outside
          case Fault => Failed
          case Wild => Garbage
          case Starved => Unfilled;
    }
  }

  lemma RangeTurn(read: Reader, limit: nat, c: Caches, at: nat, left: nat, done: seq<Byte>, r: Reading)
    requires r == read(c, at) && left > 0
    ensures var goal, n := After(done, Range(read, limit, c, at, left)), FileSession.Taken(limit, at, left, r.data);
      && (r.status != Success || n == 0 ==> goal == r.(data := done))
      && (r.status == Success && n > 0 ==>
            goal == After(done + r.data[..n], Range(read, limit, r.caches, at + n, left - n)))
  {
    if r.status == Success {
      var n := FileSession.Taken(limit, at, left, r.data);
      var more := Range(read, limit, r.caches, at + n, left - n).data;
      assert done + (r.data[..n] + more) == done + r.data[..n] + more;
    }
    assert done + [] == done;
  }

  /**
   * Any sequence of calls and new inodes on an open file, with failures anywhere and memory given out anyhow: while
   * there has been no trouble since the inode was read, each answer is the one an uncached walk of the inode's tree
   * gives, or says that the device or the memory failed, or meets the number that stands for no block.
   */
  method Session(e: Env, first: Inode, calls: seq<Call>) returns (answers: seq<Answer>)
    ensures |answers| == |calls|
    ensures forall k :: 0 <= k < |calls| ==> answers[k] == AnswerAt(Answering(e), Start(first), calls, k)
    ensures forall k :: 0 <= k < |calls| && Calm(Answering(e), Start(first), calls, k) ==>
      Fits(e, StateAt(Answering(e), Start(first), calls, k), calls[k], answers[k])
  {
    var file := new File(e, first);
    answers := Run(file, calls, Answering(e), Start(first));
    forall k | 0 <= k < |calls| && Calm(Answering(e), Start(first), calls, k)
      ensures Fits(e, StateAt(Answering(e), Start(first), calls, k), calls[k], answers[k])
    {
      EverySession(e, first, calls, k);
    }
  }

  /** The machine that answers as the file does. */
  ghost predicate Acts(m: Machine, e: Env) {
    forall s: State, call: Call {:trigger AnswerTo(e, s, call)} :: m(s, call) == AnswerTo(e, s, call)
  }

  method AnswerBy(file: File, call: Call, ghost m: Machine) returns (answer: Answer)
    requires file.Valid() && Acts(m, file.env)
    modifies file
    ensures file.Valid()
    ensures Turn(State(file.Cached(), file.inode), answer) == m(old(State(file.Cached(), file.inode)), call)
  {
    answer := file.Answer(call);
  }

  method Run(file: File, calls: seq<Call>, ghost m: Machine, ghost first: State) returns (answers: seq<Answer>)
    requires file.Valid() && Acts(m, file.env) && State(file.Cached(), file.inode) == first
    modifies file
    ensures |answers| == |calls|
    ensures forall k :: 0 <= k < |calls| ==> answers[k] == AnswerAt(m, first, calls, k)
  {
    answers := [];
    for i := 0 to |calls|
      invariant file.Valid() && |answers| == i
      invariant State(file.Cached(), file.inode) == StateAt(m, first, calls, i)
      invariant forall k :: 0 <= k < i ==> answers[k] == AnswerAt(m, first, calls, k)
    {
      var answer := AnswerBy(file, calls[i], m);
      answers := answers + [answer];
    }
  }
}
