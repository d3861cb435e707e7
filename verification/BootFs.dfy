/** The boot file system on disk: blocks, inodes, and what each byte of a file is. */
module BootFs {

  type Byte = b: int | 0 <= b < 256

  const NDADDR: nat := 12
  const NIADDR: nat := 3

  /** A device, read through its block numbers; reads past a block run into the next one. */
  datatype Disk = Disk(bytes: nat -> Byte)

  function ReadDisk(d: Disk, at: nat, count: nat): (s: seq<Byte>)
    ensures |s| == count
    ensures forall i :: 0 <= i < count ==> s[i] == d.bytes(at + i)
  {
    seq<Byte>(count, i requires 0 <= i < count => d.bytes(at + i))
  }

  /** Block size, and fragments to a block; disk addresses count fragments. */
  datatype Super = Super(bsize: nat, frag: nat)

  predicate Mountable(fs: Super) {
    (fs.bsize == 4096 || fs.bsize == 8192) && (fs.frag == 1 || fs.frag == 2 || fs.frag == 4 || fs.frag == 8)
  }

  type Fs = fs: Super | Mountable(fs) witness Super(4096, 8)

  /** Bytes in a fragment. */
  function Fsize(fs: Fs): nat {
    match fs.frag
    case 1 => fs.bsize
    case 2 => fs.bsize / 2
    case 4 => fs.bsize / 4
    case _ => fs.bsize / 8
  }

  /** fsbtodb: the record of 512 bytes at which a disk address begins, in 32 bits. */
  function Record(fs: Fs, block: nat): nat {
    match Fsize(fs)
    case 512 => Wrap32(block)
    case 1024 => Wrap32(2 * block)
    case 2048 => Wrap32(4 * block)
    case 4096 => Wrap32(8 * block)
    case _ => Wrap32(16 * block)
  }

  function Address(fs: Fs, block: nat): nat {
    512 * Record(fs, block)
  }

  /** The block of a file that an offset falls in, its place there, and where a block begins. */
  function BlockNo(fs: Fs, offset: nat): nat {
    if fs.bsize == 4096 then offset / 4096 else offset / 8192
  }

  function BlockOff(fs: Fs, offset: nat): nat {
    if fs.bsize == 4096 then offset % 4096 else offset % 8192
  }

  function BlockStart(fs: Fs, fileBlock: nat): nat {
    if fs.bsize == 4096 then fileBlock * 4096 else fileBlock * 8192
  }

  lemma BlockParts(fs: Fs, offset: nat)
    ensures offset == BlockStart(fs, BlockNo(fs, offset)) + BlockOff(fs, offset)
    ensures BlockOff(fs, offset) < fs.bsize
  {
  }

  /** Block numbers held in one indirect block. */
  function Nindir(fs: Fs): nat {
    fs.bsize / 4
  }

  datatype RawInode = Inode(size: nat, db: seq<nat>, ib: seq<nat>)

  predicate AllWords(s: seq<nat>) {
    forall k :: 0 <= k < |s| ==> s[k] < 0x1_0000_0000
  }

  /** The size of a file and its block numbers are kept in 32 bits. */
  type Inode = i: RawInode |
    i.size < 0x1_0000_0000 && |i.db| == NDADDR && |i.ib| == NIADDR && AllWords(i.db) && AllWords(i.ib)
    witness Inode(0, seq(NDADDR, _ => 0), seq(NIADDR, _ => 0))

  /** Entry i of a block of block numbers, lowest byte first. */
  function Word(s: seq<Byte>, i: nat): (n: nat)
    requires 4 * i + 4 <= |s|
    ensures n < 0x1_0000_0000
  {
    s[4 * i] as int + 0x100 * (s[4 * i + 1] as int) +
    0x1_0000 * (s[4 * i + 2] as int) + 0x100_0000 * (s[4 * i + 3] as int)
  }

  function Wrap32(n: nat): nat {
    n % 0x1_0000_0000
  }

  /** Blocks reached through an indirect block of each level, as mount_fs computes them in 32 bits. */
  function Reach(fs: Fs, level: nat): nat
    requires level < NIADDR
  {
    var n := Nindir(fs);
    if level == 0 then n else if level == 1 then Wrap32(n * n) else Wrap32(Wrap32(n * n) * n)
  }

  /** Astray: the block number was read where no buffer is. */
  datatype Mapping = Block(number: nat) | NotInFile | DeviceError | Astray

  /** The entry of an indirect block that leads to a block of the file. */
  function Entry(d: Disk, fs: Fs, block: nat, i: nat): nat
    requires i < Nindir(fs)
  {
    Word(ReadDisk(d, Address(fs, block), fs.bsize), i)
  }

  /** Blocks below one entry of an indirect block of a level: a power of the block numbers in a block. */
  function Span(fs: Fs, level: nat): (n: nat)
    requires level <= NIADDR
    ensures n > 0
  {
    match level
    case 0 => 1
    case 1 => if fs.bsize == 4096 then 1024 else 2048
    case 2 => if fs.bsize == 4096 then 1024 * 1024 else 2048 * 2048
    case _ => if fs.bsize == 4096 then 1024 * 1024 * 1024 else 2048 * 2048 * 2048
  }

  /** The entry of an indirect block that leads to an index below it, and the index below that entry. */
  function EntryFor(fs: Fs, level: nat, index: nat): (i: nat)
    requires level < NIADDR && index < Span(fs, level + 1)
    ensures i == index / Span(fs, level) && i < Nindir(fs)
  {
    match level
    case 0 => index
    case 1 => if fs.bsize == 4096 then index / 1024 else index / 2048
    case _ => if fs.bsize == 4096 then index / 1_048_576 else index / 4_194_304
  }

  function IndexBelow(fs: Fs, level: nat, index: nat): (i: nat)
    requires level < NIADDR && index < Span(fs, level + 1)
    ensures i == index % Span(fs, level) && i < Span(fs, level)
  {
    match level
    case 0 => 0
    case 1 => if fs.bsize == 4096 then index % 1024 else index % 2048
    case _ => if fs.bsize == 4096 then index % 1_048_576 else index % 4_194_304
  }

  /** The disk block at an index below an indirect block, walking the tree without a cache. */
  function Walk(d: Disk, fs: Fs, block: nat, level: nat, index: nat): nat
    requires level < NIADDR && index < Span(fs, level + 1)
    decreases level
  {
    if block == 0 then 0 else
    var child := Entry(d, fs, block, EntryFor(fs, level, index));
    if level == 0 then child else Walk(d, fs, child, level - 1, IndexBelow(fs, level, index))
  }

  /** The 32-bit products are the true ones, except the third for 8192-byte blocks, which wraps to zero. */
  lemma ReachIsSpan(fs: Fs)
    ensures Reach(fs, 0) == Span(fs, 1) && Reach(fs, 1) == Span(fs, 2)
    ensures Reach(fs, 2) == if fs.bsize == 4096 then Span(fs, 3) else 0
    ensures Reach(fs, 2) == Span(fs, 3) <==> fs.bsize == 4096
  {
    if fs.bsize == 4096 {
      assert Nindir(fs) == 1024;
    } else {
      assert Nindir(fs) == 2048;
    }
  }

  /** The block of the disk that holds a block of the file; 0 stands for a hole. */
  function Resolve(d: Disk, fs: Fs, inode: Inode, fileBlock: nat): Mapping {
    ReachIsSpan(fs);
    if fileBlock < NDADDR then Block(inode.db[fileBlock]) else
    var i0 := fileBlock - NDADDR;
    if i0 < Reach(fs, 0) then Block(Walk(d, fs, inode.ib[0], 0, i0)) else
    var i1 := i0 - Reach(fs, 0);
    if i1 < Reach(fs, 1) then Block(Walk(d, fs, inode.ib[1], 1, i1)) else
    var i2 := i1 - Reach(fs, 1);
    if i2 < Reach(fs, 2) then Block(Walk(d, fs, inode.ib[2], 2, i2)) else
    NotInFile
  }

  /** A block of a file that is reached through at most two levels of indirect blocks. */
  predicate TwoLevels(fs: Fs, fileBlock: nat) {
    fileBlock < NDADDR + Reach(fs, 0) + Reach(fs, 1)
  }

  /** The table of levels that mount_fs leaves. */
  ghost predicate Mounted(fs: Fs, nindir: seq<nat>) {
    |nindir| == NIADDR && forall l :: 0 <= l < NIADDR ==> nindir[l] == Reach(fs, l)
  }

  lemma TwoLevelsResolve(d: Disk, fs: Fs, inode: Inode, fileBlock: nat)
    requires TwoLevels(fs, fileBlock)
    ensures Resolve(d, fs, inode, fileBlock).Block?
  {
  }

  /** Every 32-bit offset is reached with at most two levels, so the product that can wrap is never consulted. */
  lemma OffsetsReached(fs: Fs, offset: nat)
    requires offset < 0x1_0000_0000
    ensures TwoLevels(fs, BlockNo(fs, offset))
  {
    if fs.bsize == 4096 {
      assert Nindir(fs) == 1024 && Reach(fs, 1) == 1024 * 1024;
      assert offset / 4096 < 1024 * 1024;
    } else {
      assert Nindir(fs) == 2048 && Reach(fs, 1) == 2048 * 2048;
      assert offset / 8192 < 2048 * 2048;
    }
  }

  /** What a byte of a file is: zero in a hole, and otherwise a byte of the block it is mapped to. */
  function FileByte(d: Disk, fs: Fs, inode: Inode, offset: nat): Byte {
    match Resolve(d, fs, inode, BlockNo(fs, offset))
    case Block(b) => if b == 0 then 0 else d.bytes(Address(fs, b) + BlockOff(fs, offset))
    case _ => 0
  }

  /** Bytes of a block of the file that are read: a whole block, or the fragments the end of a small file needs. */
  function BlockSize(fs: Fs, inode: Inode, fileBlock: nat): nat {
    if fileBlock >= NDADDR || inode.size >= BlockStart(fs, fileBlock + 1) then fs.bsize
    else RoundUp(BlockOff(fs, inode.size), Fsize(fs))
  }

  /** The least multiple of a unit that is not below n. */
  function RoundUp(n: nat, unit: nat): nat
    requires unit > 0
  {
    if n == 0 then 0 else if n <= unit then unit else unit + RoundUp(n - unit, unit)
  }

  lemma {:induction false} RoundUpBounds(n: nat, unit: nat, k: nat)
    requires unit > 0 && n <= k * unit
    ensures n <= RoundUp(n, unit) <= k * unit
    decreases k
  {
    if n > 0 {
      assert k > 0 && k * unit == (k - 1) * unit + unit;
      if n > unit {
        RoundUpBounds(n - unit, unit, k - 1);
      }
    }
  }

  lemma InBlock(fs: Fs, fileBlock: nat, i: nat)
    requires i < fs.bsize
    ensures BlockNo(fs, BlockStart(fs, fileBlock) + i) == fileBlock
    ensures BlockOff(fs, BlockStart(fs, fileBlock) + i) == i
  {
  }

  /** What is read of a block covers the file's bytes in it, also at a last block kept in fragments. */
  lemma BlockSizeCovers(fs: Fs, inode: Inode, offset: nat)
    requires offset < inode.size
    ensures var off, size := BlockOff(fs, offset), BlockSize(fs, inode, BlockNo(fs, offset));
      && off < size <= fs.bsize
      && Min(size - off, inode.size - offset) == Min(fs.bsize - off, inode.size - offset)
  {
    var fileBlock := BlockNo(fs, offset);
    BlockParts(fs, offset);
    if fileBlock < NDADDR && inode.size < BlockStart(fs, fileBlock + 1) {
      var tail := inode.size - BlockStart(fs, fileBlock);
      InBlock(fs, fileBlock, tail);
      assert inode.size == BlockStart(fs, fileBlock) + tail && BlockOff(fs, inode.size) == tail;
      RoundUpBounds(tail, Fsize(fs), fs.frag);
    }
  }

  function Min(a: int, b: int): int {
    if a <= b then a else b
  }

  /** The contents of a file, and zeros behind its end. */
  function Contents(d: Disk, fs: Fs, inode: Inode): nat -> Byte {
    offset => FileByte(d, fs, inode, offset)
  }

  /** A stretch of some contents, byte by byte. */
  ghost predicate IsData(contents: nat -> Byte, offset: nat, data: seq<Byte>) {
    forall i :: 0 <= i < |data| ==> data[i] == contents(offset + i)
  }

  ghost predicate IsFileData(d: Disk, fs: Fs, inode: Inode, offset: nat, data: seq<Byte>) {
    IsData(Contents(d, fs, inode), offset, data)
  }

  lemma DataSlice(contents: nat -> Byte, offset: nat, data: seq<Byte>, from: nat, to: nat, at: nat)
    requires IsData(contents, offset, data) && from <= to <= |data| && at == offset + from
    ensures IsData(contents, at, data[from..to])
  {
    var slice := data[from..to];
    forall i | 0 <= i < |slice| ensures slice[i] == contents(at + i) {
      assert data[from + i] == contents(offset + (from + i));
    }
  }

  lemma DataJoin(contents: nat -> Byte, offset: nat, a: seq<Byte>, b: seq<Byte>)
    requires IsData(contents, offset, a) && IsData(contents, offset + |a|, b)
    ensures IsData(contents, offset, a + b)
  {
    var all := a + b;
    forall i | 0 <= i < |all| ensures all[i] == contents(offset + i) {
      if i >= |a| {
        assert b[i - |a|] == contents(offset + |a| + (i - |a|));
      }
    }
  }

  // ---------------------------------------------------------------- the number that stands for no block

  // -1 in an unsigned block number
  const NONE: nat := 0xffff_ffff

  /** A walk from an indirect block comes to the number that stands for no block. */
  predicate MeetsNone(d: Disk, fs: Fs, block: nat, level: nat, index: nat)
    requires level < NIADDR && index < Span(fs, level + 1)
    decreases level
  {
    && block > 0
    && (|| block == NONE
        || (level > 0 &&
            MeetsNone(d, fs, Entry(d, fs, block, EntryFor(fs, level, index)), level - 1, IndexBelow(fs, level, index))))
  }

  /** The level and the index at which the walk to a block of the file begins; level 3 lies outside. */
  function Top(fs: Fs, fileBlock: nat): (r: (nat, nat))
    requires fileBlock >= NDADDR
    ensures r.0 <= NIADDR && (r.0 < NIADDR ==> r.1 < Span(fs, r.0 + 1))
  {
    ReachIsSpan(fs);
    var i0: nat := fileBlock - NDADDR;
    if i0 < Reach(fs, 0) then (0, i0)
    else if i0 - Reach(fs, 0) < Reach(fs, 1) then (1, i0 - Reach(fs, 0))
    else if i0 - Reach(fs, 0) - Reach(fs, 1) < Reach(fs, 2) then (2, i0 - Reach(fs, 0) - Reach(fs, 1))
    else (NIADDR, 0)
  }

  /** The block of the disk by where the walk begins. */
  lemma ResolveTop(d: Disk, fs: Fs, inode: Inode, fileBlock: nat)
    requires fileBlock >= NDADDR
    ensures var (level, index) := Top(fs, fileBlock);
            Resolve(d, fs, inode, fileBlock) ==
            if level < NIADDR then Block(Walk(d, fs, inode.ib[level], level, index)) else NotInFile
  {
  }

  /** The tree above a block of the file has the number that stands for no block. */
  predicate LookupMeetsNone(d: Disk, fs: Fs, inode: Inode, fileBlock: nat) {
    fileBlock >= NDADDR &&
    var (level, index) := Top(fs, fileBlock);
    level < NIADDR && MeetsNone(d, fs, inode.ib[level], level, index)
  }

  /** The same of some block of the file from an offset on. */
  ghost predicate MeetsNoneFrom(d: Disk, fs: Fs, inode: Inode, offset: nat) {
    exists at :: offset <= at < inode.size && LookupMeetsNone(d, fs, inode, BlockNo(fs, at))
  }

  /** The bytes of a block of the file, as many as are read at once. */
  ghost predicate HoldsBlock(d: Disk, fs: Fs, inode: Inode, fileBlock: nat, buf: seq<Byte>) {
    |buf| == BlockSize(fs, inode, fileBlock) && IsFileData(d, fs, inode, BlockStart(fs, fileBlock), buf)
  }

  /** What is put in the buffer for a block of the file: zeros for a hole, and otherwise what the disk holds. */
  function Fetched(d: Disk, fs: Fs, block: nat, size: nat): seq<Byte> {
    if block == 0 then seq(size, _ => 0) else ReadDisk(d, Address(fs, block), size)
  }

  lemma ByteOfBlock(d: Disk, fs: Fs, inode: Inode, fileBlock: nat, block: nat, i: nat)
    requires Resolve(d, fs, inode, fileBlock) == Block(block) && i < fs.bsize
    ensures FileByte(d, fs, inode, BlockStart(fs, fileBlock) + i) ==
            if block == 0 then 0 else d.bytes(Address(fs, block) + i)
  {
    InBlock(fs, fileBlock, i);
  }

  lemma FetchedHolds(d: Disk, fs: Fs, inode: Inode, fileBlock: nat, block: nat)
    requires Resolve(d, fs, inode, fileBlock) == Block(block) && BlockSize(fs, inode, fileBlock) <= fs.bsize
    ensures HoldsBlock(d, fs, inode, fileBlock, Fetched(d, fs, block, BlockSize(fs, inode, fileBlock)))
  {
    var contents, start := Contents(d, fs, inode), BlockStart(fs, fileBlock);
    var buf := Fetched(d, fs, block, BlockSize(fs, inode, fileBlock));
    forall i | 0 <= i < |buf| ensures buf[i] == contents(start + i) {
      ByteOfBlock(d, fs, inode, fileBlock, block, i);
    }
  }

  lemma SliceData(d: Disk, fs: Fs, inode: Inode, offset: nat, buf: seq<Byte>, off: nat, data: seq<Byte>)
    requires HoldsBlock(d, fs, inode, BlockNo(fs, offset), buf) && off == BlockOff(fs, offset)
    requires off + |data| <= |buf| && data == buf[off..off + |data|]
    ensures IsFileData(d, fs, inode, offset, data)
  {
    BlockParts(fs, offset);
    var contents, start := Contents(d, fs, inode), BlockStart(fs, BlockNo(fs, offset));
    assert IsData(contents, start, buf);
    DataSlice(contents, start, buf, off, off + |data|, offset);
  }
}
