/**
 * The caches of an open file as values: where the buffers of indirect blocks and of one data block are, what the
 * address space holds there, and what each step does to them. A buffer is released before its successor is read, and
 * when that read fails its address stays behind.
 */
module FileCache {
  import opened BootFs

  type Ptr = nat
  const NULL: Ptr := 0

  /** The buffers in the address space. */
  type Space = map<Ptr, seq<Byte>>

  /** What the n-th request for memory meets: a place for a device_read or a vm_allocate, or a failure. */
  datatype Reply = At(place: Ptr) | Fails

  datatype Env = Env(disk: Disk, fs: Fs, reply: nat -> Reply)

  datatype Cache = Cache(space: Space, time: nat, blkno: seq<nat>, blk: seq<Ptr>, bufBlkno: nat, buf: Ptr)

  const EMPTY := Cache(map[], 0, [NONE, NONE, NONE], [NULL, NULL, NULL], NONE, NULL)

  type Caches = c: Cache | |c.blkno| == NIADDR && |c.blk| == NIADDR && NULL !in c.space witness EMPTY

  // ---------------------------------------------------------------- memory

  function Release(s: Space, p: Ptr): Space {
    if p == NULL then s else s - {p}
  }

  datatype Taken = Taken(space: Space, place: Ptr, ok: bool)

  /**
   * A pointer's buffer is released, and some bytes are put where the reply says. The kernel puts nothing where
   * something is; after a failure the pointer is as it was.
   */
  function Replace(e: Env, c: Caches, was: Ptr, bytes: seq<Byte>): (t: Taken)
    ensures NULL !in t.space
    ensures t.ok ==> t.place in t.space && t.space[t.place] == bytes
    ensures t.ok ==> forall p :: p in c.space && p != was ==> p != t.place && p in t.space && t.space[p] == c.space[p]
    ensures !t.ok ==> t.place == was && t.space == Release(c.space, was)
  {
    var s := Release(c.space, was);
    match e.reply(c.time)
    case At(p) => if p != NULL && p !in s then Taken(s[p := bytes], p, true) else Taken(s, was, false)
    case Fails => Taken(s, was, false)
  }

  // ---------------------------------------------------------------- block_map

  /** Brings an indirect block into the cache of its level, unless its number is there. */
  function Load(e: Env, c: Caches, level: nat, block: nat): (Caches, bool)
    requires level < NIADDR
  {
    if c.blkno[level] == block then (c, true) else
    var t := Replace(e, c, c.blk[level], ReadDisk(e.disk, Address(e.fs, block), e.fs.bsize));
    (c.(space := t.space, time := c.time + 1, blk := c.blk[level := t.place],
        blkno := if t.ok then c.blkno[level := block] else c.blkno), t.ok)
  }

  /** The bytes at a pointer, as far as a buffer is there. */
  function Bytes(c: Caches, p: Ptr): seq<Byte> {
    if p in c.space then c.space[p] else []
  }

  /** The walk down from an indirect block, through the caches. */
  function Descend(e: Env, c: Caches, block: nat, level: nat, index: nat): (Caches, Mapping)
    requires level < NIADDR && index < Span(e.fs, level + 1)
    decreases level
  {
    if block == 0 then (c, Block(0)) else
    var (c, ok) := Load(e, c, level, block);
    if !ok then (c, DeviceError) else
    var idx, bytes := EntryFor(e.fs, level, index), Bytes(c, c.blk[level]);
    if |bytes| < 4 * idx + 4 then (c, Astray)
    else if level == 0 then (c, Block(Word(bytes, idx)))
    else Descend(e, c, Word(bytes, idx), level - 1, IndexBelow(e.fs, level, index))
  }

  function Map(e: Env, c: Caches, inode: Inode, fileBlock: nat): (Caches, Mapping) {
    if fileBlock < NDADDR then (c, Block(inode.db[fileBlock])) else
    var (level, index) := Top(e.fs, fileBlock);
    if level == NIADDR then (c, NotInFile) else Descend(e, c, inode.ib[level], level, index)
  }

  // ---------------------------------------------------------------- buf_read_file

  /** Wild: the answer is read where no buffer is. Starved: no memory for a hole, which the code does not notice. */
  datatype Status = Success | OutOfFile | Fault | Wild | Starved

  /** Fills the data buffer with a block of the file. */
  function Fill(e: Env, c: Caches, inode: Inode, fileBlock: nat): (Caches, Status) {
    var (c, m) := Map(e, c, inode, fileBlock);
    match m
    case DeviceError => (c, Fault)
    case NotInFile => (c, OutOfFile)
    case Astray => (c, Wild)
    case Block(n) => Refill(e, c, inode, fileBlock, n)
  }

  /** The buffer of one block of the file gives way to that of another, which is block n of the disk, or a hole. */
  function Refill(e: Env, c: Caches, inode: Inode, fileBlock: nat, n: nat): (Caches, Status) {
    var t := Replace(e, c, c.buf, Fetched(e.disk, e.fs, n, BlockSize(e.fs, inode, fileBlock)));
    var c := c.(space := t.space, time := c.time + 1, buf := t.place);
    if t.ok then (c.(bufBlkno := fileBlock), Success)
    else if n == 0 then (c.(bufBlkno := fileBlock), Starved)
    else (c, Fault)
  }

  /** The caches after a read, how it went, and what was read. */
  datatype Reading = Reading(caches: Caches, status: Status, data: seq<Byte>)

  /** What the buffer shows from an offset on, up to the end of what is read of a block. */
  function ReadAt(e: Env, c: Caches, inode: Inode, offset: nat): Reading {
    if offset >= inode.size then Reading(c, OutOfFile, []) else
    var block := BlockNo(e.fs, offset);
    var (c, r) := if block == c.bufBlkno then (c, Success) else Fill(e, c, inode, block);
    if r != Success then Reading(c, r, []) else
    var off, size, bytes := BlockOff(e.fs, offset), BlockSize(e.fs, inode, block), Bytes(c, c.buf);
    if off <= size <= |bytes| then Reading(c, Success, bytes[off..size]) else Reading(c, Wild, [])
  }

  // ---------------------------------------------------------------- what holds while no buffer has been lost

  /** A level has no buffer and no number, or a number and a buffer with that block. */
  ghost predicate LevelSound(d: Disk, fs: Fs, c: Caches, l: nat)
    requires l < NIADDR
  {
    if c.blk[l] == NULL then c.blkno[l] == NONE
    else
      && c.blkno[l] > 0 && c.blk[l] in c.space
      && c.space[c.blk[l]] == ReadDisk(d, Address(fs, c.blkno[l]), fs.bsize)
  }

  ghost predicate BufferSound(d: Disk, fs: Fs, inode: Inode, c: Caches) {
    if c.buf == NULL then c.bufBlkno == NONE
    else c.buf in c.space && HoldsBlock(d, fs, inode, c.bufBlkno, c.space[c.buf])
  }

  /** No two pointers name the same buffer. */
  ghost predicate Apart(c: Caches) {
    && (forall l, m :: 0 <= l < NIADDR && 0 <= m < NIADDR && l != m && c.blk[l] != NULL ==> c.blk[l] != c.blk[m])
    && (forall l :: 0 <= l < NIADDR && c.blk[l] != NULL ==> c.blk[l] != c.buf)
  }

  ghost predicate Sound(d: Disk, fs: Fs, inode: Inode, c: Caches) {
    && (forall l: nat :: l < NIADDR ==> LevelSound(d, fs, c, l))
    && BufferSound(d, fs, inode, c)
    && Apart(c)
  }

  lemma LoadKeeps(e: Env, c: Caches, inode: Inode, level: nat, block: nat)
    requires Sound(e.disk, e.fs, inode, c) && level < NIADDR && block > 0
    requires Load(e, c, level, block).1
    ensures var c' := Load(e, c, level, block).0;
      && Sound(e.disk, e.fs, inode, c') && c'.blkno[level] == block
      && (c'.blk[level] == NULL <==> Missing(block, c.blkno[level], c.blk[level]))
      && (forall l :: 0 <= l < NIADDR && l != level ==> c'.blkno[l] == c.blkno[l] && c'.blk[l] == c.blk[l])
  {
    var c' := Load(e, c, level, block).0;
    if c.blkno[level] != block {
      forall l: nat | l < NIADDR
        ensures LevelSound(e.disk, e.fs, c', l) && (l != level && c'.blk[l] != NULL ==> c'.blk[l] != c'.blk[level])
      {
        assert LevelSound(e.disk, e.fs, c, l);
      }
    }
  }

  /**
   * A failed read at a level: nothing is lost exactly when nothing was cached there. If a block was, the next walk
   * that comes to it at that level, whatever it looks for below, reads where no buffer is.
   */
  lemma FailedLoad(e: Env, c: Caches, inode: Inode, level: nat, block: nat, index: nat)
    requires Sound(e.disk, e.fs, inode, c) && level < NIADDR && block > 0 && index < Span(e.fs, level + 1)
    requires !Load(e, c, level, block).1
    ensures var c' := Load(e, c, level, block).0;
      && (Sound(e.disk, e.fs, inode, c') <==> c.blk[level] == NULL)
      && (c.blk[level] != NULL ==> Descend(e, c', c.blkno[level], level, index) == (c', Astray))
  {
    var c' := Load(e, c, level, block).0;
    assert LevelSound(e.disk, e.fs, c, level);
    if c.blk[level] == NULL {
      assert c'.space == c.space;
      forall l: nat | l < NIADDR ensures LevelSound(e.disk, e.fs, c', l) {
        assert LevelSound(e.disk, e.fs, c, l);
      }
    } else {
      assert !LevelSound(e.disk, e.fs, c', level);
    }
  }

  // ---------------------------------------------------------------- the number that stands for no block

  /** The number of an indirect block is taken for that of a cached one, of which there is no buffer. */
  predicate Missing(block: nat, blkno: nat, blk: Ptr) {
    blkno == block && blk == NULL
  }

  /** A walk from an indirect block comes to such a number. */
  predicate Hazard(d: Disk, fs: Fs, block: nat, level: nat, index: nat, c: Caches)
    requires level < NIADDR && index < Span(fs, level + 1)
    decreases level
  {
    && block > 0
    && (|| Missing(block, c.blkno[level], c.blk[level])
        || (level > 0 &&
            Hazard(d, fs, Entry(d, fs, block, EntryFor(fs, level, index)), level - 1, IndexBelow(fs, level, index), c)))
  }

  /** Only the caches at or below a level matter to a walk from there. */
  lemma {:induction false} HazardFrame(d: Disk, fs: Fs, block: nat, level: nat, index: nat, c: Caches, c': Caches)
    requires level < NIADDR && index < Span(fs, level + 1)
    requires forall l :: 0 <= l <= level ==> c.blkno[l] == c'.blkno[l] && c.blk[l] == c'.blk[l]
    ensures Hazard(d, fs, block, level, index, c) == Hazard(d, fs, block, level, index, c')
    decreases level
  {
    if level > 0 {
      HazardFrame(d, fs, Entry(d, fs, block, EntryFor(fs, level, index)), level - 1, IndexBelow(fs, level, index),
                  c, c');
    }
  }

  /** While no buffer has been lost only that number is a hazard; with nothing cached it always is. */
  lemma {:induction false} SoundHazard(d: Disk, fs: Fs, inode: Inode, block: nat, level: nat, index: nat, c: Caches)
    requires Sound(d, fs, inode, c) && level < NIADDR && index < Span(fs, level + 1)
    ensures Hazard(d, fs, block, level, index, c) ==> MeetsNone(d, fs, block, level, index)
    ensures c.blk == [NULL, NULL, NULL] ==>
              (Hazard(d, fs, block, level, index, c) <==> MeetsNone(d, fs, block, level, index))
    decreases level
  {
    assert LevelSound(d, fs, c, level);
    if level > 0 {
      SoundHazard(d, fs, inode, Entry(d, fs, block, EntryFor(fs, level, index)), level - 1,
                  IndexBelow(fs, level, index), c);
    }
  }

  /** Looking a block of the file up reads where no buffer is. */
  predicate LookupAstray(d: Disk, fs: Fs, inode: Inode, fileBlock: nat, c: Caches) {
    fileBlock >= NDADDR &&
    var (level, index) := Top(fs, fileBlock);
    level < NIADDR && Hazard(d, fs, inode.ib[level], level, index, c)
  }

  /** Until a buffer is lost a lookup goes astray only where its walk meets that number; at first, exactly there. */
  lemma AstrayMeetsNone(d: Disk, fs: Fs, inode: Inode, fileBlock: nat, c: Caches)
    requires Sound(d, fs, inode, c)
    ensures LookupAstray(d, fs, inode, fileBlock, c) ==> LookupMeetsNone(d, fs, inode, fileBlock)
    ensures c.blk == [NULL, NULL, NULL] ==>
              (LookupAstray(d, fs, inode, fileBlock, c) <==> LookupMeetsNone(d, fs, inode, fileBlock))
  {
    if fileBlock >= NDADDR {
      var (level, index) := Top(fs, fileBlock);
      if level < NIADDR {
        SoundHazard(d, fs, inode, inode.ib[level], level, index, c);
      }
    }
  }

  /** An inode whose single indirect block has that number: its first lookup goes astray. */
  lemma MarkerInodeAstray(e: Env)
    ensures Map(e, EMPTY, Inode(0, seq(NDADDR, _ => 0), [NONE, 0, 0]), NDADDR) == (EMPTY, Astray)
  {
    ReachIsSpan(e.fs);
  }

  // ---------------------------------------------------------------- right answers

  /** The walk through the caches comes to the block of an uncached walk, or to a device error, or goes astray. */
  lemma {:induction false} DescendRight(e: Env, c: Caches, inode: Inode, block: nat, level: nat, index: nat)
    requires Sound(e.disk, e.fs, inode, c) && level < NIADDR && index < Span(e.fs, level + 1)
    ensures var (c', r) := Descend(e, c, block, level, index);
      && c'.buf == c.buf && c'.bufBlkno == c.bufBlkno
      && (r == DeviceError || r == Astray || r == Block(Walk(e.disk, e.fs, block, level, index)))
      && (r != DeviceError ==>
            Sound(e.disk, e.fs, inode, c') && (r == Astray <==> Hazard(e.disk, e.fs, block, level, index, c)))
    decreases level
  {
    if block != 0 {
      var (c', ok) := Load(e, c, level, block);
      if ok {
        LoadKeeps(e, c, inode, level, block);
        assert LevelSound(e.disk, e.fs, c', level);
        if level > 0 && c'.blk[level] != NULL {
          var child, rest := Entry(e.disk, e.fs, block, EntryFor(e.fs, level, index)), IndexBelow(e.fs, level, index);
          DescendRight(e, c', inode, child, level - 1, rest);
          HazardFrame(e.disk, e.fs, child, level - 1, rest, c, c');
        }
      }
    }
  }

  /** block_map: the block of an uncached walk, or a device error, or astray exactly where the caches lead astray. */
  lemma MapRight(e: Env, c: Caches, inode: Inode, fileBlock: nat)
    requires Sound(e.disk, e.fs, inode, c)
    ensures var (c', r) := Map(e, c, inode, fileBlock);
      && c'.buf == c.buf && c'.bufBlkno == c.bufBlkno
      && (r == DeviceError || r == Astray || r == Resolve(e.disk, e.fs, inode, fileBlock))
      && (r != DeviceError ==>
            Sound(e.disk, e.fs, inode, c') && (r == Astray <==> LookupAstray(e.disk, e.fs, inode, fileBlock, c)))
  {
    if fileBlock >= NDADDR {
      ResolveTop(e.disk, e.fs, inode, fileBlock);
      var (level, index) := Top(e.fs, fileBlock);
      if level < NIADDR {
        DescendRight(e, c, inode, inode.ib[level], level, index);
      }
    }
  }

  lemma FillRight(e: Env, c: Caches, inode: Inode, fileBlock: nat)
    requires Sound(e.disk, e.fs, inode, c) && TwoLevels(e.fs, fileBlock)
    requires 0 < BlockSize(e.fs, inode, fileBlock) <= e.fs.bsize
    ensures var (c', r) := Fill(e, c, inode, fileBlock);
      && r != OutOfFile
      && (r == Success ==> Sound(e.disk, e.fs, inode, c') && c'.bufBlkno == fileBlock && c'.buf != NULL)
      && (r == Success || r == Wild ==>
            Sound(e.disk, e.fs, inode, c') && (r == Wild <==> LookupAstray(e.disk, e.fs, inode, fileBlock, c)))
  {
    MapRight(e, c, inode, fileBlock);
    TwoLevelsResolve(e.disk, e.fs, inode, fileBlock);
    var (c1, m) := Map(e, c, inode, fileBlock);
    var (c', r) := Fill(e, c, inode, fileBlock);
    if r == Success {
      FetchedHolds(e.disk, e.fs, inode, fileBlock, m.number);
      forall l: nat | l < NIADDR
        ensures LevelSound(e.disk, e.fs, c', l) && (c'.blk[l] != NULL ==> c'.blk[l] != c'.buf)
      {
        assert LevelSound(e.disk, e.fs, c1, l);
      }
    }
  }

  /** A read goes where no buffer is: only on the way to a block that is not in the buffer. */
  predicate ReadAstray(d: Disk, fs: Fs, inode: Inode, offset: nat, c: Caches) {
    BlockNo(fs, offset) != c.bufBlkno && LookupAstray(d, fs, inode, BlockNo(fs, offset), c)
  }

  /** buf_read_file: the file's own bytes from the offset on, or a device error, or no memory, or a read astray. */
  lemma ReadRight(e: Env, c: Caches, inode: Inode, offset: nat)
    requires Sound(e.disk, e.fs, inode, c)
    ensures var Reading(c', r, data) := ReadAt(e, c, inode, offset);
      && (r == OutOfFile <==> offset >= inode.size)
      && (r == Success ==>
            && |data| == BlockSize(e.fs, inode, BlockNo(e.fs, offset)) - BlockOff(e.fs, offset) > 0
            && Min(|data|, inode.size - offset) == Min(e.fs.bsize - BlockOff(e.fs, offset), inode.size - offset)
            && IsFileData(e.disk, e.fs, inode, offset, data))
      && (r == Success || r == Wild ==> (r == Wild <==> ReadAstray(e.disk, e.fs, inode, offset, c)))
      && (r != Fault && r != Starved ==> Sound(e.disk, e.fs, inode, c'))
  {
    if offset < inode.size {
      OffsetsReached(e.fs, offset);
      BlockSizeCovers(e.fs, inode, offset);
      var Reading(c', r, data) := ReadAt(e, c, inode, offset);
      if BlockNo(e.fs, offset) != c.bufBlkno {
        FillRight(e, c, inode, BlockNo(e.fs, offset));
      }
      if r == Success {
        SliceData(e.disk, e.fs, inode, offset, c'.space[c'.buf], BlockOff(e.fs, offset), data);
      }
    }
  }

  /**
   * A failed read of a data block: nothing is lost exactly when no block was buffered. If one was, every read of it
   * that comes next goes where no buffer is.
   */
  lemma FailedFill(e: Env, c: Caches, inode: Inode, fileBlock: nat, offset: nat)
    requires Sound(e.disk, e.fs, inode, c) && Map(e, c, inode, fileBlock).1.Block?
    requires Fill(e, c, inode, fileBlock).1 == Fault
    ensures var c' := Fill(e, c, inode, fileBlock).0;
      && (Sound(e.disk, e.fs, inode, c') <==> c.buf == NULL)
      && (c.buf != NULL && offset < inode.size && BlockNo(e.fs, offset) == c.bufBlkno ==>
            ReadAt(e, c', inode, offset) == Reading(c', Wild, []))
  {
    MapRight(e, c, inode, fileBlock);
    var c1, c' := Map(e, c, inode, fileBlock).0, Fill(e, c, inode, fileBlock).0;
    if offset < inode.size {
      BlockSizeCovers(e.fs, inode, offset);
    }
    if c.buf == NULL {
      assert c'.space == c1.space;
      forall l: nat | l < NIADDR ensures LevelSound(e.disk, e.fs, c', l) {
        assert LevelSound(e.disk, e.fs, c1, l);
      }
    }
  }

  /** No memory for a hole: the code takes the block for buffered, and whatever was buffered is lost. */
  lemma StarvedFill(e: Env, c: Caches, inode: Inode, fileBlock: nat)
    requires Sound(e.disk, e.fs, inode, c) && Fill(e, c, inode, fileBlock).1 == Starved && fileBlock != NONE
    ensures var c' := Fill(e, c, inode, fileBlock).0;
      c'.bufBlkno == fileBlock && c'.buf == c.buf && c'.buf !in c'.space && !Sound(e.disk, e.fs, inode, c')
  {
    MapRight(e, c, inode, fileBlock);
  }

  // ---------------------------------------------------------------- read_inode

  /** A new inode is read into memory that is given back at once; then every buffer is released, and forgotten. */
  function NewInode(e: Env, c: Caches): (Caches, bool) {
    match e.reply(c.time)
    case Fails => (c.(time := c.time + 1), false)
    case At(p) =>
      if p == NULL || p in c.space then (c.(time := c.time + 1), false)
      else
        var space := Release(Release(Release(Release(c.space, c.blk[0]), c.blk[1]), c.blk[2]), c.buf);
        (EMPTY.(space := space, time := c.time + 1), true)
  }

  /** Whatever has been lost before, a new inode starts well; and a failed read of one changes nothing. */
  lemma NewInodeSound(e: Env, c: Caches, inode: Inode, next: Inode)
    ensures var (c', ok) := NewInode(e, c);
      && (ok ==> Sound(e.disk, e.fs, next, c'))
      && (!ok && Sound(e.disk, e.fs, inode, c) ==> Sound(e.disk, e.fs, inode, c'))
  {
    var (c', ok) := NewInode(e, c);
    if !ok && Sound(e.disk, e.fs, inode, c) {
      forall l: nat | l < NIADDR ensures LevelSound(e.disk, e.fs, c', l) {
        assert LevelSound(e.disk, e.fs, c, l);
      }
    }
  }
}
