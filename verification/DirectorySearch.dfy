/** search_directory: the records of a directory, each found by the length of the one before. */
module DirectorySearch {
  import opened Arithmetic
  import opened BootFs
  import opened FileCache
  import opened OpenFile

  type Name = s: seq<Byte> | 0 !in s

  /** A directory file: its size, and what buf_read_file shows at an offset. */
  datatype Dir = Dir(size: nat, piece: nat -> seq<Byte>)

  /** What a record comes to: the name, a step to the next record, or a byte behind the end of the piece. */
  datatype Look = Hit(ino: nat) | Pass(length: nat) | Beyond

  /** How a search ends: Endless for the same record again and again, Wrapped where the offset passes 32 bits. */
  datatype Outcome = Found(ino: nat) | NoEntry | Endless | Wrapped | Overrun

  function Half(s: seq<Byte>, i: nat): nat
    requires i + 2 <= |s|
  {
    s[i] as int + 0x100 * (s[i + 1] as int)
  }

  /** The record at the front of a piece: its inode number, its length, its name's length, and the name up to a NUL. */
  function LookAt(piece: seq<Byte>, name: Name): (l: Look)
    ensures l.Pass? ==> l.length < 0x1_0000
  {
    if |piece| < 6 then Beyond
    else if Half(piece, 0) == 0 && Half(piece, 2) == 0 then Pass(Half(piece, 4))
    else if |piece| < 8 then Beyond
    else if Half(piece, 6) != |name| then Pass(Half(piece, 4))
    else if name + [0] <= piece[8..] then Hit(Half(piece, 0) + 0x1_0000 * Half(piece, 2))
    else if piece[8..] < name + [0] then Beyond
    else Pass(Half(piece, 4))
  }

  /** Where a search goes from a record, or how it ends there. */
  datatype Move = Ends(outcome: Outcome) | On(offset: nat)

  function MoveBy(look: Look, offset: nat): (m: Move)
    ensures m.On? ==> m.offset > offset
  {
    match look
    case Hit(ino) => Ends(Found(ino))
    case Beyond => Ends(Overrun)
    case Pass(n) => if n == 0 then Ends(Endless) else if offset + n >= WORD then Ends(Wrapped) else On(offset + n)
  }

  /** What a search from an offset on comes to. */
  function Search(d: Dir, name: Name, offset: nat): Outcome
    decreases d.size - offset
  {
    if offset >= d.size then NoEntry else
    match MoveBy(LookAt(d.piece(offset), name), offset)
    case Ends(o) => o
    case On(next) => Search(d, name, next)
  }

  /** What the buffer shows from an offset on: the rest of the block as far as it is read, also behind the file. */
  function Shown(d: Disk, fs: Fs, inode: Inode, offset: nat): seq<Byte> {
    var n := BlockSize(fs, inode, BlockNo(fs, offset)) - BlockOff(fs, offset);
    seq<Byte>(if n < 0 then 0 else n, i requires 0 <= i => FileByte(d, fs, inode, offset + i))
  }

  /** The file as a directory. */
  function DirOf(d: Disk, fs: Fs, inode: Inode): Dir {
    Dir(inode.size, (offset: nat) => Shown(d, fs, inode, offset))
  }

  lemma ShownIs(d: Disk, fs: Fs, inode: Inode, offset: nat, piece: seq<Byte>)
    requires |piece| == BlockSize(fs, inode, BlockNo(fs, offset)) - BlockOff(fs, offset)
    requires IsFileData(d, fs, inode, offset, piece)
    ensures DirOf(d, fs, inode).piece(offset) == piece
  {
    assert Shown(d, fs, inode, offset) == piece;
  }

  /** The record at an offset, read through the caches, and where it leads. */
  method ReadRecord(file: File, name: Name, offset: nat, ghost d: Dir) returns (r: Status, m: Move)
    requires file.Valid() && file.Intact() && offset < file.inode.size
    requires d == DirOf(file.env.disk, file.env.fs, file.inode)
    modifies file`space, file`time, file`blkno, file`blk, file`bufBlkno, file`buf
    ensures file.Valid() && r != OutOfFile && (r != Fault && r != Starved ==> file.Intact())
    ensures r == Success ==> m == MoveBy(LookAt(d.piece(offset), name), offset)
    ensures r == Wild ==> MeetsNoneFrom(file.env.disk, file.env.fs, file.inode, 0)
  {
    ReadRight(file.env, file.Cached(), file.inode, offset);
    AstrayMeetsNone(file.env.disk, file.env.fs, file.inode, BlockNo(file.env.fs, offset), file.Cached());
    var piece;
    r, piece := file.BufRead(offset);
    m := Ends(NoEntry);
    if r == Success {
      ShownIs(file.env.disk, file.env.fs, file.inode, offset, piece);
      m := MoveBy(LookAt(piece, name), offset);
    }
  }

  lemma SearchFrom(d: Dir, name: Name, offset: nat, m: Move)
    requires offset < d.size && m == MoveBy(LookAt(d.piece(offset), name), offset)
    ensures Search(d, name, offset) == if m.Ends? then m.outcome else Search(d, name, m.offset)
  {
  }

  /** One turn of the loop of a search that comes to the goal. */
  method Turn(file: File, name: Name, offset: nat, ghost d: Dir, ghost goal: Outcome) returns (r: Status, m: Move)
    requires file.Valid() && file.Intact() && offset < file.inode.size
    requires d == DirOf(file.env.disk, file.env.fs, file.inode) && Search(d, name, offset) == goal
    modifies file`space, file`time, file`blkno, file`blk, file`bufBlkno, file`buf
    ensures file.Valid() && r != OutOfFile && (r != Fault && r != Starved ==> file.Intact())
    ensures r == Success && m.Ends? ==> m.outcome == goal
    ensures r == Success && m.On? ==> m.offset > offset && Search(d, name, m.offset) == goal
    ensures r == Wild ==> MeetsNoneFrom(file.env.disk, file.env.fs, file.inode, 0)
  {
    r, m := ReadRecord(file, name, offset, d);
    if r == Success {
      SearchFrom(d, name, offset, m);
    }
  }

  /**
   * search_directory, through the caches, of a directory whose inode has just been read: the outcome of a search of
   * the file's own bytes, unless the device or the memory fails, or the tree has the number that stands for no block.
   * Where the code would not come back, the outcome says so.
   */
  method SearchDirectory(file: File, name: Name) returns (r: Status, o: Outcome)
    requires file.Valid() && file.Intact()
    modifies file`space, file`time, file`blkno, file`blk, file`bufBlkno, file`buf
    ensures file.Valid() && r != OutOfFile && (r != Fault && r != Starved ==> file.Intact())
    ensures r == Success ==> o == Search(DirOf(file.env.disk, file.env.fs, file.inode), name, 0)
    ensures r == Wild ==> MeetsNoneFrom(file.env.disk, file.env.fs, file.inode, 0)
  {
    ghost var d := DirOf(file.env.disk, file.env.fs, file.inode);
    ghost var goal := Search(d, name, 0);
    var offset := 0;
    while offset < file.inode.size
      invariant file.Valid() && file.Intact() && Search(d, name, offset) == goal
      decreases file.inode.size - offset
    {
      var m;
      r, m := Turn(file, name, offset, d, goal);
      if r != Success {
        return r, NoEntry;
      }
      if m.Ends? {
        return r, m.outcome;
      }
      offset := m.offset;
    }
    return Success, NoEntry;
  }

  // ---------------------------------------------------------------- directories that hold a list of records

  datatype Record = Record(ino: nat, length: nat, name: Name)

  predicate Sized(r: Record) {
    r.ino < WORD && 0 < r.length < 0x1_0000 && |r.name| < 0x1_0000
  }

  function HalfBytes(n: nat): seq<Byte>
    requires n < 0x1_0000
  {
    [n % 0x100, n / 0x100]
  }

  /** A record as it stands on the disk. */
  function Encoded(r: Record): seq<Byte>
    requires Sized(r)
  {
    HalfBytes(r.ino % 0x1_0000) + HalfBytes(r.ino / 0x1_0000) + HalfBytes(r.length) + HalfBytes(|r.name|) +
    (r.name + [0])
  }

  predicate Names(r: Record, name: Name) {
    r.ino != 0 && r.name == name
  }

  lemma EncodedFields(r: Record, piece: seq<Byte>)
    requires Sized(r) && Encoded(r) <= piece
    ensures |piece| >= 8 + |r.name| + 1
    ensures Half(piece, 0) == r.ino % 0x1_0000 && Half(piece, 2) == r.ino / 0x1_0000
    ensures Half(piece, 4) == r.length && Half(piece, 6) == |r.name|
    ensures r.name + [0] <= piece[8..]
  {
    var e := Encoded(r);
    assert e[0..2] == HalfBytes(r.ino % 0x1_0000) && e[2..4] == HalfBytes(r.ino / 0x1_0000);
    assert e[4..6] == HalfBytes(r.length) && e[6..8] == HalfBytes(|r.name|);
    assert e[8..] == r.name + [0] && e[8..] == piece[8..][..|r.name| + 1];
  }

  /** Two names of the same length, each ended by a NUL, at the front of the same bytes are the same. */
  lemma SameName(a: Name, b: Name, bytes: seq<Byte>)
    requires |a| == |b| && a + [0] <= bytes
    ensures b + [0] <= bytes <==> a == b
    ensures !(bytes < b + [0])
  {
    assert bytes[..|a|] == a;
    if b + [0] <= bytes {
      assert bytes[..|b|] == b;
    }
  }

  /** Reading back what was written. */
  lemma LooksEncoded(r: Record, piece: seq<Byte>, name: Name)
    requires Sized(r) && Encoded(r) <= piece
    ensures LookAt(piece, name) == if Names(r, name) then Hit(r.ino) else Pass(r.length)
  {
    EncodedFields(r, piece);
    if |name| == |r.name| {
      SameName(r.name, name, piece[8..]);
    }
  }

  /** The records stand one behind the other from an offset on, and fill the directory. */
  ghost predicate Holds(d: Dir, records: seq<Record>, offset: nat)
    decreases |records|
  {
    if records == [] then offset == d.size
    else
      && offset < d.size && Sized(records[0]) && Encoded(records[0]) <= d.piece(offset)
      && Holds(d, records[1..], offset + records[0].length)
  }

  lemma HoldsWithin(d: Dir, records: seq<Record>, offset: nat)
    requires Holds(d, records, offset)
    ensures offset <= d.size
  {
  }

  /** The first record that names a file. */
  function First(records: seq<Record>, name: Name): Outcome {
    if records == [] then NoEntry
    else if Names(records[0], name) then Found(records[0].ino)
    else First(records[1..], name)
  }

  /** In a well-formed directory the search comes to the first record with the name, or says that there is none. */
  lemma {:induction false} FindsFirst(d: Dir, records: seq<Record>, name: Name, offset: nat)
    requires Holds(d, records, offset) && d.size < WORD
    ensures Search(d, name, offset) == First(records, name)
    decreases |records|
  {
    if records != [] {
      LooksEncoded(records[0], d.piece(offset), name);
      HoldsWithin(d, records[1..], offset + records[0].length);
      FindsFirst(d, records[1..], name, offset + records[0].length);
    }
  }

  /** Record i names a file, and none before it does. */
  ghost predicate IsFirst(records: seq<Record>, name: Name, i: int) {
    0 <= i < |records| && Names(records[i], name) && forall j :: 0 <= j < i ==> !Names(records[j], name)
  }

  /** What the first record with a name is: a used record with that name, and none before it has it. */
  lemma {:induction false} FirstIs(records: seq<Record>, name: Name)
    ensures First(records, name).Found? ==>
      exists i :: IsFirst(records, name, i) && records[i].ino == First(records, name).ino
    ensures !First(records, name).Found? ==>
      First(records, name) == NoEntry && forall i :: 0 <= i < |records| ==> !Names(records[i], name)
    decreases |records|
  {
    if records != [] {
      if Names(records[0], name) {
        assert IsFirst(records, name, 0);
      } else {
        var rest := records[1..];
        FirstIs(rest, name);
        if First(rest, name).Found? {
          var i :| IsFirst(rest, name, i) && rest[i].ino == First(rest, name).ino;
          FirstOfRest(records, name, i);
        }
      }
    }
  }

  lemma FirstOfRest(records: seq<Record>, name: Name, i: int)
    requires records != [] && !Names(records[0], name) && IsFirst(records[1..], name, i)
    ensures IsFirst(records, name, i + 1) && records[i + 1] == records[1..][i]
  {
    forall j | 0 <= j < i + 1 ensures !Names(records[j], name) {
      assert j > 0 ==> records[j] == records[1..][j - 1];
    }
  }

  // ---------------------------------------------------------------- searches without an end

  /** A search for a name goes past the record at an offset. */
  predicate Passes(d: Dir, name: Name, offset: nat) {
    offset < d.size && MoveBy(LookAt(d.piece(offset), name), offset).On?
  }

  /** A search that is at one offset comes to another. */
  ghost predicate ComesTo(d: Dir, name: Name, from: nat, end: nat)
    decreases d.size - from
  {
    from == end
    || (Passes(d, name, from) && ComesTo(d, name, MoveBy(LookAt(d.piece(from), name), from).offset, end))
  }

  /** A record of length zero that does not have the name. */
  predicate Stuck(d: Dir, name: Name, offset: nat) {
    offset < d.size && LookAt(d.piece(offset), name) == Pass(0)
  }

  /**
   * A search stays at one record for ever exactly when it comes to such a record. It starts over, with an offset beyond
   * 32 bits, only in a directory that ends within one record of 2^32 bytes.
   */
  lemma {:induction false} EndlessIff(d: Dir, name: Name, from: nat)
    ensures Search(d, name, from) == Endless <==> exists end :: ComesTo(d, name, from, end) && Stuck(d, name, end)
    ensures d.size + 0xffff <= WORD ==> Search(d, name, from) != Wrapped
    decreases d.size - from
  {
    if Passes(d, name, from) {
      EndlessIff(d, name, MoveBy(LookAt(d.piece(from), name), from).offset);
    } else if Stuck(d, name, from) {
      assert ComesTo(d, name, from, from);
    }
  }

  /** A directory of zeros, as a hole in the file gives: a search for any name never ends. */
  lemma HoleNeverEnds(name: Name)
    ensures Search(Dir(512, _ => seq<Byte>(512, _ => 0)), name, 0) == Endless
  {
  }
}
