/** Where the blocks of a file are kept, entry by entry of its indirect blocks. */
module FileLayout {
  import opened Arithmetic
  import opened BootFs

  /** Entry i of an indirect block, read from the disk lowest byte first; below a hole there are only holes. */
  function Number(d: Disk, fs: Fs, block: nat, i: nat): nat {
    if block == 0 then 0 else
    var at := Address(fs, block) + 4 * i;
    d.bytes(at) + 0x100 * d.bytes(at + 1) + 0x1_0000 * d.bytes(at + 2) + 0x100_0000 * d.bytes(at + 3)
  }

  lemma EntryIsNumber(d: Disk, fs: Fs, block: nat, i: nat)
    requires block != 0 && i < Nindir(fs)
    ensures Entry(d, fs, block, i) == Number(d, fs, block, i)
  {
    var at, s := Address(fs, block), ReadDisk(d, Address(fs, block), fs.bsize);
    assert s[4 * i] == d.bytes(at + 4 * i) && s[4 * i + 1] == d.bytes(at + 4 * i + 1);
    assert s[4 * i + 2] == d.bytes(at + 4 * i + 2) && s[4 * i + 3] == d.bytes(at + 4 * i + 3);
  }

  /** A disk address counts fragments from the start of the disk, exactly while its record number fits in 32 bits. */
  lemma AddressIs(fs: Fs, block: nat)
    ensures Address(fs, block) == block * Fsize(fs) <==> block * Fsize(fs) < 512 * 0x1_0000_0000
  {
    match Fsize(fs)
    case 512 => WrapIs(block);
    case 1024 => WrapIs(2 * block);
    case 2048 => WrapIs(4 * block);
    case 4096 => WrapIs(8 * block);
    case _ => WrapIs(16 * block);
  }

  lemma WrapIs(n: nat)
    ensures Wrap32(n) == n <==> n < 0x1_0000_0000
  {
  }

  lemma WalkOne(d: Disk, fs: Fs, block: nat, i: nat)
    requires i < Nindir(fs) && Span(fs, 1) == Nindir(fs)
    ensures Walk(d, fs, block, 0, i) == Number(d, fs, block, i)
  {
    if block != 0 {
      EntryIsNumber(d, fs, block, i);
    }
  }

  /** The first twelve blocks are named in the inode. */
  lemma DirectBlock(d: Disk, fs: Fs, inode: Inode, i: nat)
    requires i < NDADDR
    ensures Resolve(d, fs, inode, i) == Block(inode.db[i])
  {
  }

  /** The next are named in the single indirect block. */
  lemma SingleBlock(d: Disk, fs: Fs, inode: Inode, i: nat)
    requires i < Nindir(fs)
    ensures Resolve(d, fs, inode, NDADDR + i) == Block(Number(d, fs, inode.ib[0], i))
  {
    ReachIsSpan(fs);
    WalkOne(d, fs, inode.ib[0], i);
  }

  lemma Below(fs: Fs, level: nat, i: nat, rest: nat)
    requires level < NIADDR && i < Nindir(fs) && rest < Span(fs, level)
    ensures i * Span(fs, level) + rest < Span(fs, level + 1)
    ensures EntryFor(fs, level, i * Span(fs, level) + rest) == i
    ensures IndexBelow(fs, level, i * Span(fs, level) + rest) == rest
  {
    var s := Span(fs, level);
    SpanNext(fs, level);
    Apart(s, Nindir(fs), i);
    Division(i * s + rest, s, i, rest);
  }

  lemma SpanNext(fs: Fs, level: nat)
    requires level < NIADDR
    ensures Span(fs, level + 1) == Span(fs, level) * Nindir(fs)
  {
    assert Nindir(fs) == if fs.bsize == 4096 then 1024 else 2048;
  }

  lemma WalkDown(d: Disk, fs: Fs, block: nat, level: nat, i: nat, rest: nat)
    requires 0 < level < NIADDR && i < Nindir(fs) && rest < Span(fs, level)
    requires i * Span(fs, level) + rest < Span(fs, level + 1)
    ensures Walk(d, fs, block, level, i * Span(fs, level) + rest) ==
      Walk(d, fs, Number(d, fs, block, i), level - 1, rest)
  {
    Below(fs, level, i, rest);
    if block != 0 {
      EntryIsNumber(d, fs, block, i);
    }
  }

  lemma TwoDown(d: Disk, fs: Fs, block: nat, j: nat, k: nat, below: nat)
    requires j < Nindir(fs) && k < Nindir(fs) && Span(fs, 1) == Nindir(fs) && below == Number(d, fs, block, j)
    requires j * Span(fs, 1) + k < Span(fs, 2)
    ensures Walk(d, fs, block, 1, j * Span(fs, 1) + k) == Number(d, fs, below, k)
  {
    WalkDown(d, fs, block, 1, j, k);
    WalkOne(d, fs, below, k);
  }

  /** Then each entry of the double indirect block names a block of them. */
  lemma DoubleBlock(d: Disk, fs: Fs, inode: Inode, i: nat, j: nat)
    requires i < Nindir(fs) && j < Nindir(fs)
    ensures Resolve(d, fs, inode, NDADDR + Nindir(fs) + i * Nindir(fs) + j) ==
      Block(Number(d, fs, Number(d, fs, inode.ib[1], i), j))
  {
    ReachIsSpan(fs);
    Below(fs, 1, i, j);
    TwoDown(d, fs, inode.ib[1], i, j, Number(d, fs, inode.ib[1], i));
  }

  lemma ThirdRange(d: Disk, fs: Fs, inode: Inode, x: nat)
    requires x < Span(fs, 3)
    ensures Resolve(d, fs, inode, NDADDR + Span(fs, 1) + Span(fs, 2) + x) ==
      if fs.bsize == 4096 then Block(Walk(d, fs, inode.ib[2], 2, x)) else NotInFile
  {
    ReachIsSpan(fs);
  }

  lemma ThreeDown(d: Disk, fs: Fs, block: nat, i: nat, rest: nat, j: nat, k: nat, x: nat, second: nat, third: nat)
    requires i < Nindir(fs) && j < Nindir(fs) && k < Nindir(fs) && Span(fs, 1) == Nindir(fs)
    requires second == Number(d, fs, block, i) && third == Number(d, fs, second, j)
    requires rest == j * Span(fs, 1) + k < Span(fs, 2) && x == i * Span(fs, 2) + rest < Span(fs, 3)
    ensures Walk(d, fs, block, 2, x) == Number(d, fs, third, k)
  {
    WalkDown(d, fs, block, 2, i, rest);
    TwoDown(d, fs, second, j, k, third);
  }

  /** The spans are the powers of the numbers held in a block. */
  lemma SpansArePowers(fs: Fs)
    ensures Span(fs, 1) == Nindir(fs) && Span(fs, 2) == Nindir(fs) * Nindir(fs)
    ensures Span(fs, 3) == Nindir(fs) * Nindir(fs) * Nindir(fs)
  {
    SpanNext(fs, 0);
    SpanNext(fs, 1);
    SpanNext(fs, 2);
  }

  lemma TripleIndex(fs: Fs, i: nat, j: nat, k: nat)
    requires i < Nindir(fs) && j < Nindir(fs) && k < Nindir(fs)
    ensures Span(fs, 1) == Nindir(fs) && j * Span(fs, 1) + k < Span(fs, 2)
    ensures i * Span(fs, 2) + (j * Span(fs, 1) + k) < Span(fs, 3)
  {
    SpanNext(fs, 0);
    Below(fs, 1, j, k);
    Below(fs, 2, i, j * Span(fs, 1) + k);
  }

  /** And the triple one names those: with blocks of 4096 bytes, since with others its reach has wrapped to nothing. */
  lemma TripleBlock(d: Disk, fs: Fs, inode: Inode, i: nat, j: nat, k: nat, second: nat, third: nat, x: nat)
    requires i < Nindir(fs) && j < Nindir(fs) && k < Nindir(fs)
    requires second == Number(d, fs, inode.ib[2], i) && third == Number(d, fs, second, j)
    requires x == i * Span(fs, 2) + (j * Span(fs, 1) + k)
    ensures Resolve(d, fs, inode, NDADDR + Span(fs, 1) + Span(fs, 2) + x) ==
      if fs.bsize == 4096 then Block(Number(d, fs, third, k)) else NotInFile
  {
    TripleIndex(fs, i, j, k);
    ThreeDown(d, fs, inode.ib[2], i, j * Span(fs, 1) + k, j, k, x, second, third);
    ThirdRange(d, fs, inode, x);
  }
}
