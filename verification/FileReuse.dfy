/**
 * How a lost buffer spoils an answer: the address of a buffer that a failed read left behind is released a second
 * time, when it has become the data buffer's, and the next indirect block is read to it.
 */
module FileReuse {
  import opened BootFs
  import opened FileCache
  import opened FileSession

  /** Where memory is given out: the third request, for an indirect block, fails, and those after it get its place. */
  function Schedule(n: nat): Reply {
    if n == 0 || n == 3 || n == 4 then At(1) else if n == 1 then At(2) else Fails
  }

  /** A file with a single indirect block, and below its double indirect block another one. */
  ghost predicate Suits(e: Env, inode: Inode) {
    && e.reply == Schedule && inode.size > 0
    && 0 < inode.ib[0] < NONE && 0 < inode.ib[1] < NONE && 0 < Second(e, inode) != inode.ib[0]
  }

  /** The first indirect block below the double one. */
  function Second(e: Env, inode: Inode): nat {
    Entry(e.disk, e.fs, inode.ib[1], 0)
  }

  /** A block of the file under the double indirect block. */
  function Far(fs: Fs): nat {
    NDADDR + Reach(fs, 0)
  }

  function Whole(e: Env, block: nat): seq<Byte> {
    ReadDisk(e.disk, Address(e.fs, block), e.fs.bsize)
  }

  lemma Tops(fs: Fs)
    ensures Top(fs, NDADDR) == (0, 0) && Top(fs, Far(fs)) == (1, 0)
  {
    ReachIsSpan(fs);
  }

  /** A level-0 block is cached at address 1. */
  function First(e: Env, inode: Inode): Caches {
    Cache(map[1 := Whole(e, inode.ib[0])], 1, [inode.ib[0], NONE, NONE], [1, NULL, NULL], NONE, NULL)
  }

  lemma FirstLookup(e: Env, inode: Inode)
    requires Suits(e, inode)
    ensures Map(e, EMPTY, inode, NDADDR).0 == First(e, inode)
  {
    Tops(e.fs);
  }

  /** Another lookup releases it, and fails; the address stays. */
  function Lost(e: Env, inode: Inode): Caches {
    Cache(map[2 := Whole(e, inode.ib[1])], 3, [inode.ib[0], inode.ib[1], NONE], [1, 2, NULL], NONE, NULL)
  }

  lemma FailingLookup(e: Env, inode: Inode)
    requires Suits(e, inode)
    ensures Map(e, First(e, inode), inode, Far(e.fs)) == (Lost(e, inode), DeviceError)
  {
    Tops(e.fs);
    var c1 := Load(e, First(e, inode), 1, inode.ib[1]).0;
    assert c1.blkno == [inode.ib[0], inode.ib[1], NONE] && c1.blk == [1, 2, NULL];
    var (c2, ok) := Load(e, c1, 0, Second(e, inode));
    assert !ok && c2.space == Lost(e, inode).space && c2.blk == Lost(e, inode).blk;
  }

  /** The data buffer comes to the same address. */
  function Buffered(e: Env, inode: Inode): Caches {
    Lost(e, inode).(space := map[2 := Whole(e, inode.ib[1]), 1 := Data(e, inode)], time := 4, bufBlkno := 0, buf := 1)
  }

  function Data(e: Env, inode: Inode): seq<Byte> {
    Fetched(e.disk, e.fs, inode.db[0], BlockSize(e.fs, inode, 0))
  }

  lemma BlockZero(e: Env, inode: Inode)
    requires inode.size > 0
    ensures BlockNo(e.fs, 0) == 0 && BlockOff(e.fs, 0) == 0 && 0 < BlockSize(e.fs, inode, 0) <= e.fs.bsize
  {
    BlockSizeCovers(e.fs, inode, 0);
  }

  lemma FirstRead(e: Env, inode: Inode)
    requires Suits(e, inode)
    ensures ReadAt(e, Lost(e, inode), inode, 0) == Reading(Buffered(e, inode), Success, Data(e, inode))
  {
    BlockZero(e, inode);
    assert Fill(e, Lost(e, inode), inode, 0).0.space == Buffered(e, inode).space;
  }

  /** The lookup again: the address is released once more, and the other indirect block is read to it. */
  function Spoilt(e: Env, inode: Inode): Caches {
    Buffered(e, inode).(space := map[2 := Whole(e, inode.ib[1]), 1 := Whole(e, Second(e, inode))], time := 5,
                        blkno := [Second(e, inode), inode.ib[1], NONE])
  }

  lemma SecondLookup(e: Env, inode: Inode)
    requires Suits(e, inode)
    ensures Map(e, Buffered(e, inode), inode, Far(e.fs)) ==
      (Spoilt(e, inode), Resolve(e.disk, e.fs, inode, Far(e.fs)))
  {
    Tops(e.fs);
    ResolveTop(e.disk, e.fs, inode, Far(e.fs));
    var c := Load(e, Buffered(e, inode), 0, Second(e, inode)).0;
    assert c.space == Spoilt(e, inode).space && c.blkno == Spoilt(e, inode).blkno && c.blk == Spoilt(e, inode).blk;
  }

  lemma SecondRead(e: Env, inode: Inode)
    requires Suits(e, inode)
    ensures var size := BlockSize(e.fs, inode, 0);
      && size <= e.fs.bsize
      && ReadAt(e, Spoilt(e, inode), inode, 0) == Reading(Spoilt(e, inode), Success, Whole(e, Second(e, inode))[..size])
  {
    BlockZero(e, inode);
  }

  lemma OneByte(e: Env, c: Caches, inode: Inode, r: Reading)
    requires r == ReadAt(e, c, inode, 0) && r.status == Success && r.data != [] && inode.size > 0
    ensures ReadRange(e, c, inode, 0, 1) == Reading(r.caches, Success, [r.data[0]])
  {
    assert r.data[..1] + [] == [r.data[0]];
  }

  lemma LookupTurns(e: Env, inode: Inode)
    requires Suits(e, inode)
    ensures AnswerTo(e, Start(inode), MapBlock(NDADDR)).state == State(First(e, inode), inode)
    ensures AnswerTo(e, State(First(e, inode), inode), MapBlock(Far(e.fs))) ==
      Turn(State(Lost(e, inode), inode), Failed)
  {
    FirstLookup(e, inode);
    FailingLookup(e, inode);
  }

  lemma FirstByte(e: Env, inode: Inode)
    requires inode.size > 0
    ensures Data(e, inode) != [] && Data(e, inode)[0] == FileByte(e.disk, e.fs, inode, 0)
  {
    BlockZero(e, inode);
  }

  lemma FirstReadTurn(e: Env, inode: Inode)
    requires Suits(e, inode)
    ensures AnswerTo(e, State(Lost(e, inode), inode), ReadBytes(0, 1)) ==
      Turn(State(Buffered(e, inode), inode), Got([FileByte(e.disk, e.fs, inode, 0)]))
  {
    FirstRead(e, inode);
    FirstByte(e, inode);
    OneByte(e, Lost(e, inode), inode, Reading(Buffered(e, inode), Success, Data(e, inode)));
  }

  lemma SecondLookupTurn(e: Env, inode: Inode)
    requires Suits(e, inode)
    ensures AnswerTo(e, State(Buffered(e, inode), inode), MapBlock(Far(e.fs))) ==
      Turn(State(Spoilt(e, inode), inode), Mapped(Resolve(e.disk, e.fs, inode, Far(e.fs))))
  {
    SecondLookup(e, inode);
    Tops(e.fs);
    ResolveTop(e.disk, e.fs, inode, Far(e.fs));
  }

  lemma SecondReadTurn(e: Env, inode: Inode)
    requires Suits(e, inode)
    ensures AnswerTo(e, State(Spoilt(e, inode), inode), ReadBytes(0, 1)) ==
      Turn(State(Spoilt(e, inode), inode), Got([e.disk.bytes(Address(e.fs, Second(e, inode)))]))
  {
    SecondRead(e, inode);
    BlockZero(e, inode);
    var data := Whole(e, Second(e, inode))[..BlockSize(e.fs, inode, 0)];
    OneByte(e, Spoilt(e, inode), inode, Reading(Spoilt(e, inode), Success, data));
  }

  /** A lookup, a second one that fails, a read, the second lookup again, and the same read again. */
  function Calls(fs: Fs): seq<Call> {
    [MapBlock(NDADDR), MapBlock(Far(fs)), ReadBytes(0, 1), MapBlock(Far(fs)), ReadBytes(0, 1)]
  }

  /**
   * In every such file: the second call fails, the third reads the first byte of the file, the fourth gives the right
   * block, and the fifth, which reads the same byte as the third, gives the first byte of an indirect block.
   */
  lemma ReusedAddress(e: Env, inode: Inode)
    requires Suits(e, inode)
    ensures var m, s, calls := Answering(e), Start(inode), Calls(e.fs);
      && AnswerAt(m, s, calls, 1) == Failed
      && AnswerAt(m, s, calls, 2) == Got([FileByte(e.disk, e.fs, inode, 0)])
      && AnswerAt(m, s, calls, 3) == Mapped(Resolve(e.disk, e.fs, inode, Far(e.fs)))
      && AnswerAt(m, s, calls, 4) == Got([e.disk.bytes(Address(e.fs, Second(e, inode)))])
  {
    var m, s, calls := Answering(e), Start(inode), Calls(e.fs);
    LookupTurns(e, inode);
    FirstReadTurn(e, inode);
    SecondLookupTurn(e, inode);
    SecondReadTurn(e, inode);
    assert StateAt(m, s, calls, 1) == State(First(e, inode), inode);
    assert StateAt(m, s, calls, 2) == State(Lost(e, inode), inode);
    assert StateAt(m, s, calls, 3) == State(Buffered(e, inode), inode);
    assert StateAt(m, s, calls, 4) == State(Spoilt(e, inode), inode);
  }

  /** A disk of zeros, but for one entry of block 24, which is block 32, and the bytes from there on. */
  const DISK := Disk(k => if k == 512 * 24 then 32 else if k >= 512 * 32 then 1 else 0)
  const FS: Fs := Super(4096, 8)
  const FILE: Inode := Inode(1, seq(NDADDR, _ => 8), [16, 24, 0])

  /** There the byte is 0, and the second read of it gives 1. */
  lemma WrongByte()
    ensures var e := Env(DISK, FS, Schedule);
      && FileByte(DISK, FS, FILE, 0) == 0
      && AnswerAt(Answering(e), Start(FILE), Calls(FS), 2) == Got([0])
      && AnswerAt(Answering(e), Start(FILE), Calls(FS), 4) == Got([1])
  {
    var e := Env(DISK, FS, Schedule);
    assert Address(FS, 24) == 512 * 24 && Address(FS, 32) == 512 * 32 && Address(FS, 8) == 512 * 8;
    assert Second(e, FILE) == 32;
    ReusedAddress(e, FILE);
  }
}
