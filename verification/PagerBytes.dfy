/**
 * What the default pager does for a client, byte by byte: what is written at an address is what is read at that
 * address, until something else is written there, and nothing else is ever read.
 */
module PagerBytes {
  import opened PagingPartition
  import opened PagerHistory
  import opened PagerState

  const SPAN: nat := 0x1_0000_0000

  // ---------------------------------------------------------------- where a byte goes

  /** The page of byte j of a request's data. Addresses are 32 bits wide. */
  function PageOfByte(offset: nat, j: nat): nat {
    (offset + j) % SPAN / PAGE_SIZE
  }

  lemma Wraps(w: nat, t: nat)
    requires t < PAGE_SIZE
    ensures (w * PAGE_SIZE + t) % SPAN / PAGE_SIZE == w % 0x10_0000
  {
    var q, s := w / 0x10_0000, w % 0x10_0000;
    assert w == 0x10_0000 * q + s;
    assert w * PAGE_SIZE + t == SPAN * q + (s * PAGE_SIZE + t);
  }

  lemma PageAtIs(u: nat, k: nat)
    ensures PageAt(u * PAGE_SIZE, k) == (u + k) % 0x10_0000
  {
    Wraps(u + k, 0);
    assert u * PAGE_SIZE + k * PAGE_SIZE == (u + k) * PAGE_SIZE;
  }

  lemma PageOfByteIs(u: nat, k: nat, t: nat)
    requires t < PAGE_SIZE
    ensures PageOfByte(u * PAGE_SIZE, k * PAGE_SIZE + t) == (u + k) % 0x10_0000
  {
    Wraps(u + k, t);
    assert u * PAGE_SIZE + (k * PAGE_SIZE + t) == (u + k) * PAGE_SIZE + t;
  }

  lemma SamePage(offset: nat, j: nat)
    requires offset % PAGE_SIZE == 0
    ensures PageAt(offset, j / PAGE_SIZE) == PageOfByte(offset, j)
  {
    var u, k, t := offset / PAGE_SIZE, j / PAGE_SIZE, j % PAGE_SIZE;
    assert offset == u * PAGE_SIZE && j == k * PAGE_SIZE + t;
    PageAtIs(u, k);
    PageOfByteIs(u, k, t);
  }

  lemma SamePlace(offset: nat, j: nat)
    requires offset % PAGE_SIZE == 0
    ensures (offset + j) % PAGE_SIZE == j % PAGE_SIZE
  {
  }

  lemma FirstByte(offset: nat, k: nat)
    ensures PageAt(offset, k) == PageOfByte(offset, k * PAGE_SIZE)
  {
  }

  /** The pages of one request are different, unless it goes all the way round. */
  lemma PagesDiffer(offset: nat, k: nat, m: nat)
    requires offset % PAGE_SIZE == 0 && k < m && (m + 1) * PAGE_SIZE <= SPAN
    ensures PageAt(offset, k) != PageAt(offset, m)
  {
    var u := offset / PAGE_SIZE;
    assert offset == u * PAGE_SIZE && k < m < 0x10_0000;
    PageAtIs(u, k);
    PageAtIs(u, m);
    RingsApart(u + k, u + m, 0x10_0000);
  }

  lemma RingsApart(x: nat, y: nat, n: nat)
    requires x < y < x + n
    ensures x % n != y % n
  {
    if x % n == y % n {
      var p, q := x / n, y / n;
      assert x == n * p + x % n && y == n * q + y % n;
      assert n * (q - p) == y - x;
      Multiple(n, q - p);
    }
  }

  lemma Multiple(n: nat, d: int)
    ensures d <= 0 ==> n * d <= 0
    ensures d >= 1 ==> n * d >= n
  {
  }

  /** Byte j is in the entry of its page, at the place of its address in that page. */
  ghost predicate ByteIn(port: Port, offset: nat, data: seq<Byte>, added: Log, j: nat)
    requires j < |data|
  {
    && j / PAGE_SIZE < |added|
    && var e := added[j / PAGE_SIZE];
    && (e.Wrote? || e.Kept?) && e.port == port && e.page == (offset + j) % SPAN / PAGE_SIZE
    && (e.Wrote? ==> |e.data| == PAGE_SIZE && e.data[(offset + j) % PAGE_SIZE] == data[j])
  }

  lemma WritesBytes(port: Port, offset: nat, data: seq<Byte>, added: Log, j: nat)
    requires Writes(port, offset, data, added) || Initializes(port, offset, data, added)
    requires |added| * PAGE_SIZE == |data| && offset % PAGE_SIZE == 0 && j < |data|
    ensures ByteIn(port, offset, data, added, j)
  {
    var k := j / PAGE_SIZE;
    assert j == k * PAGE_SIZE + j % PAGE_SIZE && k < |added| && (k + 1) * PAGE_SIZE <= |data|;
    SamePage(offset, j);
    SamePlace(offset, j);
    assert IsWrite(port, offset, data, k, added[k]) || IsInitialize(port, offset, data, k, added[k]);
    assert PageData(data, k)[j % PAGE_SIZE] == data[j];
  }

  ghost predicate BytesIn(port: Port, offset: nat, data: seq<Byte>, added: Log) {
    forall j: nat :: j < |data| ==> ByteIn(port, offset, data, added, j)
  }

  lemma EveryByteIn(port: Port, offset: nat, data: seq<Byte>, added: Log)
    requires Writes(port, offset, data, added) || Initializes(port, offset, data, added)
    requires |added| * PAGE_SIZE == |data|
    ensures offset % PAGE_SIZE == 0 ==> BytesIn(port, offset, data, added)
  {
    if offset % PAGE_SIZE == 0 {
      forall j: nat | j < |data| ensures ByteIn(port, offset, data, added, j) {
        WritesBytes(port, offset, data, added, j);
      }
    }
  }

  // ---------------------------------------------------------------- what the log keeps

  /** What has been stored stays until something else is stored, or the object is created anew. */
  lemma {:induction false} StaysStored(log: Log, x: nat, y: nat)
    requires Faithful(log) && x < y <= |log| && log[x].Wrote? && log[x].ok
    requires forall z :: x < z < y ==> !Displaces(log[z], log[x].port, log[x].page)
    ensures Stored(log[..y], log[x].port, log[x].page) == Some(log[x].data)
    ensures !Doubtful(log[..y], log[x].port, log[x].page)
    decreases y
  {
    var z := y - 1;
    assert log[..y][..z] == log[..z] && log[..y][z] == log[z];
    if x < z {
      StaysStored(log, x, z);
      assert Correct(log[..z], log[z]);
    }
  }

  /** The entries that can change what is stored on a page: initializing cannot, where something is stored. */
  predicate Displaces(e: Entry, port: Port, page: nat) {
    || (e.Created? && e.port == port)
    || (e.Wrote? && e.port == port && e.page == page && !e.initial)
  }

  /** Where nothing has been written since an object was created, nothing counts as written. */
  lemma {:induction false} NotAttempted(log: Log, x: nat, y: nat, page: nat)
    requires x < y <= |log| && log[x].Created?
    requires forall z :: x < z < y ==> !(log[z].Wrote? && log[z].port == log[x].port && log[z].page == page)
    ensures !Attempted(log[..y], log[x].port, page)
    decreases y
  {
    var z := y - 1;
    assert log[..y][..z] == log[..z] && log[..y][z] == log[z];
    if x < z {
      NotAttempted(log, x, z, page);
    }
  }

  lemma {:induction false} ResidueFrom(log: Log, port: Port)
    requires forall z :: 0 <= z < |log| && log[z].Created? && log[z].port == port ==> log[z].residue >= 0
    ensures Residue(log, port) >= 0
  {
    if log != [] {
      ResidueFrom(log[..|log| - 1], port);
    }
  }

  /** A page written well, or of an object that had no negative count at creation, is answered for with the truth. */
  lemma Answered(log: Log, x: nat, y: nat)
    requires Faithful(log) && x < y < |log| && log[x].Wrote?
    requires forall z :: x < z < y ==> !Displaces(log[z], log[x].port, log[x].page)
    requires log[x].ok || Residue(log[..y], log[x].port) >= 0
    requires (log[y].Supplied? || log[y].Absent?) && log[y].port == log[x].port && log[y].page == log[x].page
    ensures log[y].Supplied? && log[y].data == log[x].data
  {
    assert Correct(log[..y], log[y]);
    if !log[x].ok {
      FailureRemembered(log, x, y);
      assert false;
    } else {
      StaysStored(log, x, y);
    }
  }

  // ---------------------------------------------------------------- where a request's entries lie

  /** The place in the log where the entries of request m begin. */
  function Start(stretches: seq<Log>, m: nat): nat
    requires m <= |stretches|
  {
    if m == 0 then 0 else Start(stretches, m - 1) + |stretches[m - 1]|
  }

  lemma {:induction false} StartUpTo(stretches: seq<Log>, n: nat, m: nat)
    requires m <= n <= |stretches|
    ensures Start(stretches[..n], m) == Start(stretches, m)
  {
    if m > 0 {
      StartUpTo(stretches, n, m - 1);
    }
  }

  lemma {:induction false} EntryAt(stretches: seq<Log>, m: nat, k: nat)
    requires m < |stretches| && k < |stretches[m]|
    ensures Start(stretches, |stretches|) == |Flatten(stretches)|
    ensures Start(stretches, m) + k < |Flatten(stretches)|
    ensures Flatten(stretches)[Start(stretches, m) + k] == stretches[m][k]
  {
    FlattenSize(stretches);
    var n := |stretches| - 1;
    var before := stretches[..n];
    FlattenSize(before);
    StartUpTo(stretches, n, n);
    if m < n {
      EntryAt(before, m, k);
      StartUpTo(stretches, n, m);
    }
  }

  lemma {:induction false} FlattenSize(stretches: seq<Log>)
    ensures |Flatten(stretches)| == Start(stretches, |stretches|)
  {
    if stretches != [] {
      var n := |stretches| - 1;
      FlattenSize(stretches[..n]);
      StartUpTo(stretches, n, n);
    }
  }

  /** The request an entry was made for. */
  lemma {:induction false} Origin(stretches: seq<Log>, x: nat, n: nat) returns (m: nat, k: nat)
    requires n <= |stretches| && x < Start(stretches, n)
    ensures m < n && k < |stretches[m]| && x == Start(stretches, m) + k
  {
    if x < Start(stretches, n - 1) {
      m, k := Origin(stretches, x, n - 1);
    } else {
      m, k := n - 1, x - Start(stretches, n - 1);
    }
  }

  lemma {:induction false} StartOrder(stretches: seq<Log>, m: nat, n: nat)
    requires m <= n <= |stretches|
    ensures Start(stretches, m) <= Start(stretches, n)
  {
    if m < n {
      StartOrder(stretches, m, n - 1);
    }
  }

  /** An entry after another, and before the entries of request b, belongs to a request in between, or to the same. */
  lemma Between(stretches: seq<Log>, a: nat, k: nat, b: nat, z: nat) returns (m: nat, n: nat)
    requires a < b <= |stretches| && k < |stretches[a]|
    requires Start(stretches, a) + k < z < Start(stretches, b)
    ensures a <= m < b && n < |stretches[m]| && z == Start(stretches, m) + n && (m == a ==> n > k)
  {
    m, n := Origin(stretches, z, b);
    if m < a {
      StartOrder(stretches, m + 1, a);
    }
  }

  /** From some entry on, nothing changes what is stored on the page. */
  ghost predicate Clean(added: Log, from: nat, port: Port, page: nat) {
    forall n :: from <= n < |added| ==> !Displaces(added[n], port, page)
  }

  /** Up to some entry, nothing is written to the page. */
  ghost predicate Bare(added: Log, upto: nat, port: Port, page: nat) {
    forall n :: 0 <= n < upto && n < |added| ==> !Writing(added[n], port, page)
  }

  predicate Writing(e: Entry, port: Port, page: nat) {
    e.Wrote? && e.port == port && e.page == page
  }

  lemma CleanBetween(stretches: seq<Log>, a: nat, k: nat, b: nat, port: Port, page: nat, z: nat)
    requires a < b < |stretches| && k < |stretches[a]| && Clean(stretches[a], k + 1, port, page)
    requires forall m :: a < m < b ==> Clean(stretches[m], 0, port, page)
    requires Start(stretches, a) + k < z < Start(stretches, b)
    ensures z < |Flatten(stretches)| && !Displaces(Flatten(stretches)[z], port, page)
  {
    var m, n := Between(stretches, a, k, b, z);
    EntryAt(stretches, m, n);
  }

  /** A page written, left alone, and asked for is answered with what was written. */
  lemma AnsweredLater(stretches: seq<Log>, a: nat, k: nat, b: nat, port: Port, page: nat)
    requires Faithful(Flatten(stretches))
    requires a < b < |stretches| && k < |stretches[a]| && Writing(stretches[a][k], port, page)
    requires Clean(stretches[a], k + 1, port, page) && forall m :: a < m < b ==> Clean(stretches[m], 0, port, page)
    requires |stretches[b]| == 1 && (stretches[b][0].Supplied? || stretches[b][0].Absent?)
    requires stretches[b][0].port == port && stretches[b][0].page == page
    requires stretches[a][k].ok ||
             forall y :: 0 <= y <= |Flatten(stretches)| ==> Residue(Flatten(stretches)[..y], port) >= 0
    ensures stretches[b][0].Supplied? && stretches[b][0].data == stretches[a][k].data
  {
    var x, y := Start(stretches, a) + k, Start(stretches, b);
    EntryAt(stretches, a, k);
    EntryAt(stretches, b, 0);
    StartOrder(stretches, a + 1, b);
    forall z | x < z < y ensures !Displaces(Flatten(stretches)[z], port, page) {
      CleanBetween(stretches, a, k, b, port, page, z);
    }
    Answered(Flatten(stretches), x, y);
  }

  lemma BareBetween(stretches: seq<Log>, c: nat, b: nat, k: nat, port: Port, page: nat, z: nat)
    requires c < b < |stretches| && |stretches[c]| == 1 && k < |stretches[b]|
    requires forall m :: c < m < b ==> Bare(stretches[m], |stretches[m]|, port, page)
    requires Bare(stretches[b], k, port, page)
    requires Start(stretches, c) < z < Start(stretches, b) + k
    ensures z < |Flatten(stretches)| && !Writing(Flatten(stretches)[z], port, page)
  {
    if z < Start(stretches, b) {
      var m, n := Between(stretches, c, 0, b, z);
      EntryAt(stretches, m, n);
    } else {
      EntryAt(stretches, b, z - Start(stretches, b));
    }
  }

  /** An object created, and a page of it never written to, up to entry k of request b. */
  lemma NeverAttempted(stretches: seq<Log>, c: nat, b: nat, k: nat, port: Port, page: nat)
    requires Faithful(Flatten(stretches))
    requires c < b < |stretches| && k < |stretches[b]|
    requires |stretches[c]| == 1 && stretches[c][0].Created? && stretches[c][0].port == port
    requires forall m :: c < m < b ==> Bare(stretches[m], |stretches[m]|, port, page)
    requires Bare(stretches[b], k, port, page)
    ensures exists before: Log :: !Attempted(before, port, page) && Correct(before, stretches[b][k])
  {
    var log, x, y := Flatten(stretches), Start(stretches, c), Start(stretches, b) + k;
    EntryAt(stretches, c, 0);
    EntryAt(stretches, b, k);
    StartOrder(stretches, c + 1, b);
    forall z | x < z < y ensures !Writing(log[z], port, page) {
      BareBetween(stretches, c, b, k, port, page, z);
    }
    NotAttempted(log, x, y, page);
    assert Correct(log[..y], log[y]);
  }

  // ---------------------------------------------------------------- the promise, on requests and answers

  predicate Creates(r: Request, port: Port) {
    r.CreateObject? && r.port == port
  }

  /** A request writes, or offers as the first contents, some byte of a page. */
  ghost predicate Covers(r: Request, port: Port, page: nat) {
    && (r.WriteData? || r.InitializeData?) && r.port == port
    && exists j: nat :: j < |r.data| && PageOfByte(r.offset, j) == page
  }

  /** Nothing is written to the page by the requests in between, and the object stays. */
  ghost predicate Quiet(script: seq<Request>, a: nat, b: nat, port: Port, page: nat)
    requires b <= |script|
  {
    forall m :: a < m < b ==> !Creates(script[m], port) && !(script[m].WriteData? && Covers(script[m], port, page))
  }

  /** The object is created by request c, and up to request b nothing is written or offered for the page. */
  ghost predicate Untouched(script: seq<Request>, c: nat, b: nat, port: Port, page: nat)
    requires b <= |script|
  {
    && c < b && Creates(script[c], port)
    && forall m :: c < m < b ==> !Creates(script[m], port) && !Covers(script[m], port, page)
  }

  /** The object never starts with a negative error count. */
  ghost predicate Sound(script: seq<Request>, port: Port) {
    forall m :: 0 <= m < |script| && Creates(script[m], port) ==> script[m].residue >= 0
  }

  /** Request b asks for the page that byte j of request a lies on, and nothing has been written there since. */
  ghost predicate Rereads(script: seq<Request>, a: nat, b: nat, j: nat) {
    && a < b < |script| && script[b].RequestPage?
    && (script[a].WriteData? || script[a].InitializeData?)
    && script[a].offset % PAGE_SIZE == 0 && j < |script[a].data| <= SPAN
    && script[b].port == script[a].port
    && script[b].offset / PAGE_SIZE == (script[a].offset + j) % SPAN / PAGE_SIZE
    && Quiet(script, a, b, script[a].port, script[b].offset / PAGE_SIZE)
  }

  /** The answer has a byte at a place; or there is none, because of an error. */
  predicate Tells(answer: Log, place: nat, byte: Byte) {
    && |answer| == 1
    && (answer[0].Refused? || answer[0].ReadFailed? ||
        (answer[0].Supplied? && place < |answer[0].data| && answer[0].data[place] == byte))
  }

  /** No write of a request has failed. */
  predicate WentWell(added: Log) {
    forall k :: 0 <= k < |added| && added[k].Wrote? ==> added[k].ok
  }

  /**
   * What is written is what is read; and so is what a page is initialized with, if it was untouched. It takes that
   * the writing went well, or that the object never starts with a negative error count.
   */
  ghost predicate ReadsBack(script: seq<Request>, stretches: seq<Log>, a: nat, b: nat, j: nat)
    requires |stretches| == |script|
  {
    Rereads(script, a, b, j) && (WentWell(stretches[a]) || Sound(script, script[a].port)) ==>
      && (script[a].WriteData? ==> Tells(stretches[b], (script[a].offset + j) % PAGE_SIZE, script[a].data[j]))
      && (script[a].InitializeData? && Fresh(script, a, script[b].offset / PAGE_SIZE) ==>
            Tells(stretches[b], (script[a].offset + j) % PAGE_SIZE, script[a].data[j]))
  }

  /** Nothing has been written to or offered for the page when request a comes. */
  ghost predicate Fresh(script: seq<Request>, a: nat, page: nat)
    requires a < |script| && !script[a].CreateObject?
  {
    exists c: nat :: Untouched(script, c, a, script[a].port, page)
  }

  /** A page that nothing has been written to or offered for is never supplied, nor even looked for on the disk. */
  ghost predicate NothingInvented(script: seq<Request>, stretches: seq<Log>, c: nat, b: nat)
    requires |stretches| == |script|
  {
    b < |script| && script[b].RequestPage? && Untouched(script, c, b, script[b].port, script[b].offset / PAGE_SIZE) ==>
      |stretches[b]| == 1 && (stretches[b][0].Absent? || stretches[b][0].Refused?)
  }

  /** Only a request that writes to the page, or creates the object, can change what is stored there. */
  lemma DisplacedBy(live: set<Port>, r: Request, added: Log, k: nat, port: Port, page: nat)
    requires Serves(live, r, added) && k < |added|
    ensures added[k].Created? && added[k].port == port ==>
      Creates(r, port) && added[k].residue == r.residue
    ensures added[k].Wrote? && added[k].port == port && added[k].page == page ==>
      Covers(r, port, page) && (!added[k].initial ==> r.WriteData?)
  {
    if r.WriteData? || r.InitializeData? {
      assert (k + 1) * PAGE_SIZE <= |added| * PAGE_SIZE <= |r.data|;
      FirstByte(r.offset, k);
      assert k * PAGE_SIZE < |r.data|;
      assert r.WriteData? ==> IsWrite(r.port, r.offset, r.data, k, added[k]);
      assert r.InitializeData? ==> IsInitialize(r.port, r.offset, r.data, k, added[k]);
    }
  }

  /** Counts that are not negative in the requests are not negative in the log. */
  lemma SoundResidue(script: seq<Request>, stretches: seq<Log>, port: Port, y: nat)
    requires Transcript(script, stretches) && Sound(script, port) && y <= |Flatten(stretches)|
    ensures Residue(Flatten(stretches)[..y], port) >= 0
  {
    var log := Flatten(stretches);
    FlattenSize(stretches);
    forall z | 0 <= z < y && log[z].Created? && log[z].port == port ensures log[z].residue >= 0 {
      var m, k := Origin(stretches, z, |stretches|);
      EntryAt(stretches, m, k);
      DisplacedBy(LiveAt(script, m), script[m], stretches[m], k, port, 0);
    }
    ResidueFrom(log[..y], port);
  }

  /** The other pages of the same request. */
  lemma OwnPages(live: set<Port>, r: Request, added: Log, j: nat, page: nat)
    requires Allowed(live, r) && Serves(live, r, added) && (r.WriteData? || r.InitializeData?)
    requires r.offset % PAGE_SIZE == 0 && j < |r.data| <= SPAN && page == PageOfByte(r.offset, j)
    ensures Clean(added, j / PAGE_SIZE + 1, r.port, page) && Bare(added, j / PAGE_SIZE, r.port, page)
  {
    var k := j / PAGE_SIZE;
    SamePage(r.offset, j);
    forall n | 0 <= n < |added| && n != k
      ensures !Displaces(added[n], r.port, page) && !Writing(added[n], r.port, page)
    {
      OtherPage(live, r, added, k, n, page);
    }
  }

  lemma OtherPage(live: set<Port>, r: Request, added: Log, k: nat, n: nat, page: nat)
    requires Allowed(live, r) && Serves(live, r, added) && (r.WriteData? || r.InitializeData?)
    requires r.offset % PAGE_SIZE == 0 && |r.data| <= SPAN
    requires k < |added| && n < |added| && n != k && page == PageAt(r.offset, k)
    ensures !Displaces(added[n], r.port, page) && !Writing(added[n], r.port, page)
  {
    if k < n {
      PagesDiffer(r.offset, k, n);
    } else {
      PagesDiffer(r.offset, n, k);
    }
    assert r.WriteData? ==> IsWrite(r.port, r.offset, r.data, n, added[n]);
    assert r.InitializeData? ==> IsInitialize(r.port, r.offset, r.data, n, added[n]);
  }

  lemma QuietClean(script: seq<Request>, stretches: seq<Log>, a: nat, b: nat, port: Port, page: nat, m: nat)
    requires Transcript(script, stretches) && b <= |stretches| && Quiet(script, a, b, port, page) && a < m < b
    ensures Clean(stretches[m], 0, port, page)
  {
    forall n | 0 <= n < |stretches[m]| ensures !Displaces(stretches[m][n], port, page) {
      DisplacedBy(LiveAt(script, m), script[m], stretches[m], n, port, page);
    }
  }

  lemma UntouchedBare(script: seq<Request>, stretches: seq<Log>, c: nat, b: nat, port: Port, page: nat, m: nat)
    requires Transcript(script, stretches) && b <= |stretches| && Untouched(script, c, b, port, page) && c < m < b
    ensures Bare(stretches[m], |stretches[m]|, port, page)
  {
    forall n | 0 <= n < |stretches[m]| ensures !Writing(stretches[m][n], port, page) {
      DisplacedBy(LiveAt(script, m), script[m], stretches[m], n, port, page);
    }
  }

  /** The entry of request a that holds byte j. */
  lemma HoldsByte(script: seq<Request>, stretches: seq<Log>, a: nat, j: nat)
    requires Legal(script) && |stretches| == |script| && Transcript(script, stretches) && a < |script|
    requires (script[a].WriteData? || script[a].InitializeData?) && script[a].offset % PAGE_SIZE == 0
    requires j < |script[a].data|
    ensures ByteIn(script[a].port, script[a].offset, script[a].data, stretches[a], j)
    ensures script[a].WriteData? ==> stretches[a][j / PAGE_SIZE].Wrote?
  {
    var r := script[a];
    assert Allowed(LiveAt(script, a), r) && Serves(LiveAt(script, a), r, stretches[a]);
    WritesBytes(r.port, r.offset, r.data, stretches[a], j);
    if r.WriteData? {
      assert IsWrite(r.port, r.offset, r.data, j / PAGE_SIZE, stretches[a][j / PAGE_SIZE]);
    }
  }

  /** Once written, a page is told. */
  lemma WrittenTold(script: seq<Request>, stretches: seq<Log>, a: nat, b: nat, j: nat, k: nat, page: nat)
    requires Legal(script) && |stretches| == |script| && Transcript(script, stretches)
    requires Faithful(Flatten(stretches)) && Rereads(script, a, b, j)
    requires k == j / PAGE_SIZE < |stretches[a]| && page == script[b].offset / PAGE_SIZE
    requires Writing(stretches[a][k], script[a].port, page)
    requires stretches[a][k].ok || Sound(script, script[a].port)
    ensures |stretches[b]| == 1
    ensures var e := stretches[b][0];
      e.Refused? || e.ReadFailed? || (e.Supplied? && e.data == stretches[a][k].data)
  {
    var port := script[a].port;
    assert Serves(LiveAt(script, b), script[b], stretches[b]);
    OwnPages(LiveAt(script, a), script[a], stretches[a], j, page);
    forall m | a < m < b ensures Clean(stretches[m], 0, port, page) {
      QuietClean(script, stretches, a, b, port, page, m);
    }
    if Sound(script, port) {
      forall y | 0 <= y <= |Flatten(stretches)| ensures Residue(Flatten(stretches)[..y], port) >= 0 {
        SoundResidue(script, stretches, port, y);
      }
    }
    if stretches[b][0].Supplied? || stretches[b][0].Absent? {
      AnsweredLater(stretches, a, k, b, port, page);
    }
  }

  /** The first contents offered for an untouched page are written. */
  lemma FirstOffer(script: seq<Request>, stretches: seq<Log>, c: nat, a: nat, j: nat, page: nat)
    requires Legal(script) && |stretches| == |script| && Transcript(script, stretches)
    requires Faithful(Flatten(stretches)) && a < |script| && script[a].InitializeData?
    requires script[a].offset % PAGE_SIZE == 0 && j < |script[a].data| <= SPAN
    requires page == PageOfByte(script[a].offset, j) && Untouched(script, c, a, script[a].port, page)
    requires j / PAGE_SIZE < |stretches[a]|
    requires var e := stretches[a][j / PAGE_SIZE]; e.port == script[a].port && e.page == page
    ensures !stretches[a][j / PAGE_SIZE].Kept?
  {
    var port := script[a].port;
    assert Serves(LiveAt(script, c), script[c], stretches[c]);
    OwnPages(LiveAt(script, a), script[a], stretches[a], j, page);
    forall m | c < m < a ensures Bare(stretches[m], |stretches[m]|, port, page) {
      UntouchedBare(script, stretches, c, a, port, page, m);
    }
    NeverAttempted(stretches, c, a, j / PAGE_SIZE, port, page);
  }

  /** Every byte of every request in every run: what is written is what is read. */
  lemma EveryByteReadsBack(script: seq<Request>, stretches: seq<Log>, a: nat, b: nat, j: nat)
    requires Legal(script) && |stretches| == |script| && Transcript(script, stretches)
    requires Faithful(Flatten(stretches))
    ensures ReadsBack(script, stretches, a, b, j)
  {
    if Rereads(script, a, b, j) && (WentWell(stretches[a]) || Sound(script, script[a].port)) {
      var page, k := script[b].offset / PAGE_SIZE, j / PAGE_SIZE;
      HoldsByte(script, stretches, a, j);
      if script[a].InitializeData? && Fresh(script, a, page) {
        var c: nat :| Untouched(script, c, a, script[a].port, page);
        FirstOffer(script, stretches, c, a, j, page);
      }
      if stretches[a][k].Wrote? {
        WrittenTold(script, stretches, a, b, j, k, page);
      }
    }
  }

  /** And nothing else is ever read. */
  lemma NothingIsInvented(script: seq<Request>, stretches: seq<Log>, c: nat, b: nat)
    requires |stretches| == |script| && Transcript(script, stretches) && Faithful(Flatten(stretches))
    ensures NothingInvented(script, stretches, c, b)
  {
    if b < |script| && script[b].RequestPage? {
      var port, page := script[b].port, script[b].offset / PAGE_SIZE;
      assert Serves(LiveAt(script, b), script[b], stretches[b]);
      if Untouched(script, c, b, port, page) {
        assert Serves(LiveAt(script, c), script[c], stretches[c]);
        forall m | c < m < b ensures Bare(stretches[m], |stretches[m]|, port, page) {
          UntouchedBare(script, stretches, c, b, port, page, m);
        }
        NeverAttempted(stretches, c, b, 0, port, page);
      }
    }
  }
}
