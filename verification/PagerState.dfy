/**
 * The state of the default pager as plain values: which object owns which block, what each block
 * holds, and how both follow from the log.
 */
module PagerState {
  import opened PagingPartition
  import opened PageMaps
  import opened PagerHistory

  /** For each object, the blocks assigned to its pages. */
  type PageTable = map<Port, map<nat, nat>>

  ghost predicate Owns(table: PageTable, port: Port, page: nat, block: nat) {
    port in table && page in table[port] && table[port][page] == block
  }

  /** The allocated blocks are exactly those named in the maps, and each is named once over all objects. */
  ghost predicate Partitioned(table: PageTable, used: set<nat>) {
    && (forall p, pg, b: nat :: Owns(table, p, pg, b) ==> b in used)
    && (forall b: nat :: b in used ==> exists p, pg :: Owns(table, p, pg, b))
    && (forall p, pg, q, qg, b: nat :: Owns(table, p, pg, b) && Owns(table, q, qg, b) ==> p == q && pg == qg)
  }

  ghost predicate SoleOwner(table: PageTable, port: Port, page: nat, block: nat) {
    forall p, pg :: Owns(table, p, pg, block) ==> p == port && pg == page
  }

  function Assign(table: PageTable, port: Port, page: nat, block: nat): PageTable
    requires port in table
  {
    var v: map<nat, nat> := table[port][page := block];
    table[port := v]
  }

  function BlockData(bytes: seq<Byte>, block: nat): seq<Byte>
    requires (block + 1) * PAGE_SIZE <= |bytes|
  {
    bytes[block * PAGE_SIZE..(block + 1) * PAGE_SIZE]
  }

  /** Only the contents of one block may differ. */
  ghost predicate SameElsewhere(bytes: seq<Byte>, bytes': seq<Byte>, block: nat) {
    && |bytes'| == |bytes|
    && forall b: nat :: b != block && (b + 1) * PAGE_SIZE <= |bytes| ==> BlockData(bytes', b) == BlockData(bytes, b)
  }

  /** How a page's block and its contents follow from the log. */
  ghost predicate PageReflects(table: PageTable, bytes: seq<Byte>, log: Log, port: Port, page: nat) {
    port in table ==>
      && (Stored(log, port, page) != None ==> page in table[port])
      && (page in table[port] ==>
            && Attempted(log, port, page)
            && (table[port][page] + 1) * PAGE_SIZE <= |bytes|
            && (!Doubtful(log, port, page) ==> Stored(log, port, page) == Some(BlockData(bytes, table[port][page]))))
  }

  ghost predicate Reflects(table: PageTable, bytes: seq<Byte>, log: Log) {
    && table.Keys == Live(log)
    && forall p, pg :: PageReflects(table, bytes, log, p, pg)
  }

  lemma PartitionedAfterAssign(table: PageTable, used: set<nat>, port: Port, page: nat, block: nat)
    requires Partitioned(table, used)
    requires port in table && page !in table[port] && block !in used
    ensures Partitioned(Assign(table, port, page, block), used + {block})
  {
    var after := Assign(table, port, page, block);
    forall p, pg, b: nat
      ensures Owns(after, p, pg, b) <==> Owns(table, p, pg, b) || (p == port && pg == page && b == block)
    {
    }
    forall b | b in used + {block} ensures exists p, pg :: Owns(after, p, pg, b) {
      if b == block {
        assert Owns(after, port, page, block);
      } else {
        var p, pg :| Owns(table, p, pg, b);
        assert Owns(after, p, pg, b);
      }
    }
  }

  lemma AssignSame(table: PageTable, port: Port, page: nat)
    requires port in table && page in table[port]
    ensures Assign(table, port, page, table[port][page]) == table
  {
    var v: map<nat, nat> := table[port][page := table[port][page]];
    assert v == table[port];
  }

  /** The block a page has, or the new one it is given, is its own. */
  lemma BlockGiven(table: PageTable, used: set<nat>, port: Port, page: nat, block: nat, after: PageTable,
                   usedAfter: set<nat>)
    requires Partitioned(table, used) && port in table
    requires if page in table[port] then block == table[port][page] && after == table && usedAfter == used
             else block !in used && after == Assign(table, port, page, block) && usedAfter == used + {block}
    ensures after == Assign(table, port, page, block) && Partitioned(after, usedAfter)
    ensures SoleOwner(after, port, page, block) && block in usedAfter
  {
    if page in table[port] {
      AssignSame(table, port, page);
    } else {
      PartitionedAfterAssign(table, used, port, page, block);
    }
    assert Owns(after, port, page, block);
  }

  lemma PartitionedAfterCreate(table: PageTable, used: set<nat>, port: Port)
    requires Partitioned(table, used) && port !in table
    ensures Partitioned(table[port := map[]], used)
  {
    var after := table[port := map[]];
    assert forall p, pg, b: nat :: Owns(after, p, pg, b) <==> Owns(table, p, pg, b);
    forall b | b in used ensures exists p, pg :: Owns(after, p, pg, b) {
      var p, pg :| Owns(table, p, pg, b);
      assert Owns(after, p, pg, b);
    }
  }

  lemma PartitionedAfterTerminate(table: PageTable, used: set<nat>, port: Port)
    requires Partitioned(table, used) && port in table
    ensures Injective(table[port]) && table[port].Values <= used
    ensures Partitioned(table - {port}, used - table[port].Values)
  {
    var v, after := table[port], table - {port};
    assert forall p, pg, b: nat :: Owns(after, p, pg, b) <==> (p != port && Owns(table, p, pg, b));
    forall p, q | p in v && q in v && p != q ensures v[p] != v[q] {
      assert Owns(table, port, p, v[p]) && Owns(table, port, q, v[q]);
    }
    forall b | b in v.Values ensures b in used {
      var pg :| pg in v && v[pg] == b;
      assert Owns(table, port, pg, b);
    }
    forall p, pg, b: nat | Owns(after, p, pg, b) ensures b in used - v.Values {
      assert Owns(table, p, pg, b);
      forall q | q in v ensures v[q] != b {
        assert Owns(table, port, q, v[q]);
      }
    }
    forall b | b in used - v.Values ensures exists p, pg :: Owns(after, p, pg, b) {
      var p, pg :| Owns(table, p, pg, b);
      assert p != port;
      assert Owns(after, p, pg, b);
    }
  }

  lemma LastEntry(log: Log, e: Entry)
    ensures (log + [e])[..|log + [e]| - 1] == log && (log + [e])[|log + [e]| - 1] == e
  {
  }

  lemma ErrorsAfter(log: Log, e: Entry, port: Port)
    ensures Errors(log + [e], port) ==
      if e.Created? && e.port == port then e.residue
      else Errors(log, port) + if e.Wrote? && e.port == port && !e.ok then 1 else 0
  {
    LastEntry(log, e);
  }

  /** A write that reached its block: every other block is as it was, and the block has the data if it succeeded. */
  lemma ReflectsAfterWrite(table: PageTable, bytes: seq<Byte>, log: Log, e: Entry,
                           block: nat, bytes': seq<Byte>)
    requires Reflects(table, bytes, log) && e.Wrote? && e.port in table
    requires SoleOwner(Assign(table, e.port, e.page, block), e.port, e.page, block)
    requires SameElsewhere(bytes, bytes', block) && (block + 1) * PAGE_SIZE <= |bytes|
    requires e.ok ==> BlockData(bytes', block) == e.data
    requires e.page in table[e.port] ==> table[e.port][e.page] == block
    ensures Reflects(Assign(table, e.port, e.page, block), bytes', log + [e])
  {
    var after := Assign(table, e.port, e.page, block);
    LastEntry(log, e);
    assert Owns(after, e.port, e.page, block);
    forall p, pg ensures PageReflects(after, bytes', log + [e], p, pg) {
      assert PageReflects(table, bytes, log, p, pg);
      if p in table && pg in table[p] && (p != e.port || pg != e.page) {
        assert Owns(after, p, pg, table[p][pg]);
      }
    }
  }

  /** An entry that writes nothing to the partition leaves everything reflected. */
  lemma ReflectsAfterQuiet(table: PageTable, bytes: seq<Byte>, log: Log, e: Entry)
    requires Reflects(table, bytes, log)
    requires !e.Created? && !e.Terminated? && (e.Wrote? ==> !e.ok && e.port in table)
    ensures Reflects(table, bytes, log + [e])
  {
    LastEntry(log, e);
    forall p, pg ensures PageReflects(table, bytes, log + [e], p, pg) {
      assert PageReflects(table, bytes, log, p, pg);
    }
  }

  /** Writing is right for a live object; as the first contents it is right for a page that has no block. */
  lemma WriteCorrect(table: PageTable, bytes: seq<Byte>, log: Log, port: Port, page: nat, initial: bool)
    requires Reflects(table, bytes, log) && port in table && (initial ==> page !in table[port])
    ensures port in Live(log) && (initial ==> Stored(log, port, page) == None)
  {
    assert PageReflects(table, bytes, log, port, page);
  }

  lemma ReflectsAfterCreate(table: PageTable, bytes: seq<Byte>, log: Log, port: Port, residue: int)
    requires Reflects(table, bytes, log) && port !in table
    ensures Reflects(table[port := map[]], bytes, log + [Created(port, residue)])
  {
    var e, after := Created(port, residue), table[port := map[]];
    LastEntry(log, e);
    forall p, pg ensures PageReflects(after, bytes, log + [e], p, pg) {
      assert PageReflects(table, bytes, log, p, pg);
    }
  }

  lemma ReflectsAfterTerminate(table: PageTable, bytes: seq<Byte>, log: Log, port: Port)
    requires Reflects(table, bytes, log) && port in table
    ensures Reflects(table - {port}, bytes, log + [Terminated(port)])
  {
    var e := Terminated(port);
    LastEntry(log, e);
    forall p, pg ensures PageReflects(table - {port}, bytes, log + [e], p, pg) {
      assert PageReflects(table, bytes, log, p, pg);
    }
  }

  lemma SliceBelow(s: seq<Byte>, hi: nat, i: nat, j: nat)
    requires i <= j <= hi <= |s|
    ensures s[..hi][i..j] == s[i..j]
  {
  }

  lemma SliceAbove(s: seq<Byte>, lo: nat, i: nat, j: nat)
    requires lo <= i <= j <= |s|
    ensures s[lo..][i - lo..j - lo] == s[i..j]
  {
  }

  lemma SameBelow(s: seq<Byte>, was: seq<Byte>, hi: nat, lo: nat)
    requires lo <= hi <= |s| && hi <= |was| && s[..hi] == was[..hi]
    ensures s[..lo] == was[..lo]
  {
    assert s[..lo] == s[..hi][..lo] && was[..lo] == was[..hi][..lo];
  }

  /** A transfer goes on where the one before it stopped. */
  lemma PieceWritten(s: seq<Byte>, was: seq<Byte>, base: nat, data: seq<Byte>, done: nat, count: nat)
    requires done + count <= |data| && base + done + count <= |s| && base + done <= |was|
    requires s[..base + done] == was[..base + done] && was[base..base + done] == data[..done]
    requires s[base + done..base + done + count] == data[done..][..count]
    ensures s[base..base + done + count] == data[..done + count]
  {
    var at := base + done;
    assert s[base..at] == s[..at][base..] && was[base..at] == was[..at][base..];
    assert s[base..at + count] == s[base..at] + s[at..at + count];
    assert data[..done + count] == data[..done] + data[done..][..count];
  }

  lemma OtherBlocks(bytes: seq<Byte>, bytes': seq<Byte>, block: nat)
    requires |bytes'| == |bytes| && (block + 1) * PAGE_SIZE <= |bytes|
    requires bytes'[..block * PAGE_SIZE] == bytes[..block * PAGE_SIZE]
    requires bytes'[(block + 1) * PAGE_SIZE..] == bytes[(block + 1) * PAGE_SIZE..]
    ensures SameElsewhere(bytes, bytes', block)
  {
    var lo, hi := (block + 1) * PAGE_SIZE, block * PAGE_SIZE;
    forall b: nat | b != block && (b + 1) * PAGE_SIZE <= |bytes| ensures BlockData(bytes', b) == BlockData(bytes, b) {
      var i, j := b * PAGE_SIZE, (b + 1) * PAGE_SIZE;
      if b < block {
        SliceBelow(bytes, hi, i, j);
        SliceBelow(bytes', hi, i, j);
      } else {
        SliceAbove(bytes, lo, i, j);
        SliceAbove(bytes', lo, i, j);
      }
    }
  }

  /** The page that the k-th page of a request at an offset falls on, in 32-bit arithmetic. */
  function PageAt(offset: nat, k: nat): nat {
    (offset + k * PAGE_SIZE) % 0x1_0000_0000 / PAGE_SIZE
  }

  function PageData(data: seq<Byte>, k: nat): seq<Byte>
    requires (k + 1) * PAGE_SIZE <= |data|
  {
    data[k * PAGE_SIZE..(k + 1) * PAGE_SIZE]
  }

  predicate IsWrite(port: Port, offset: nat, data: seq<Byte>, k: nat, e: Entry)
    requires (k + 1) * PAGE_SIZE <= |data|
  {
    e.Wrote? && e == Wrote(port, PageAt(offset, k), PageData(data, k), false, e.ok)
  }

  predicate IsInitialize(port: Port, offset: nat, data: seq<Byte>, k: nat, e: Entry)
    requires (k + 1) * PAGE_SIZE <= |data|
  {
    || e == Kept(port, PageAt(offset, k))
    || (e.Wrote? && e == Wrote(port, PageAt(offset, k), PageData(data, k), true, e.ok))
  }

  /** The entries a write request adds to the log: every page of it, in order. */
  ghost predicate Writes(port: Port, offset: nat, data: seq<Byte>, added: Log) {
    && |added| * PAGE_SIZE <= |data|
    && forall k: nat :: k < |added| ==> IsWrite(port, offset, data, k, added[k])
  }

  ghost predicate Initializes(port: Port, offset: nat, data: seq<Byte>, added: Log) {
    && |added| * PAGE_SIZE <= |data|
    && forall k: nat :: k < |added| ==> IsInitialize(port, offset, data, k, added[k])
  }

  /** The possible answers to a request for the page at an offset. */
  predicate AnswersRequest(port: Port, offset: nat, e: Entry) {
    || e == Refused(port, offset / PAGE_SIZE)
    || e == Absent(port, offset / PAGE_SIZE)
    || e == ReadFailed(port, offset / PAGE_SIZE)
    || (e.Supplied? && e == Supplied(port, offset / PAGE_SIZE, e.data))
  }

  datatype Request =
    | CreateObject(port: Port, bytes: nat, residue: int)
    | WriteData(port: Port, offset: nat, count: nat, data: seq<Byte>)
    | InitializeData(port: Port, offset: nat, count: nat, data: seq<Byte>)
    | RequestPage(port: Port, offset: nat)
    | TerminateObject(port: Port)

  function LiveAfter(live: set<Port>, r: Request): set<Port> {
    match r
    case CreateObject(p, _, _) => live + {p}
    case TerminateObject(p) => live - {p}
    case _ => live
  }

  function LiveAt(script: seq<Request>, k: nat): set<Port>
    requires k <= |script|
  {
    if k == 0 then {} else LiveAfter(LiveAt(script, k - 1), script[k - 1])
  }

  /** round_page */
  function RoundPage(count: nat): (n: nat)
    ensures count <= n < count + PAGE_SIZE
  {
    (count + PAGE_SIZE - 1) / PAGE_SIZE * PAGE_SIZE
  }

  /** So many pages do not go beyond what covers the bytes. */
  predicate Within(count: nat, pages: nat) {
    pages > 0 ==> (pages - 1) * PAGE_SIZE < count
  }

  /** The pages that a count of bytes takes up. */
  lemma PagesOf(count: nat, k: nat)
    ensures k * PAGE_SIZE < count <==> (k + 1) * PAGE_SIZE <= RoundPage(count)
    ensures k * PAGE_SIZE >= count && Within(count, k) ==> k * PAGE_SIZE == RoundPage(count)
  {
  }

  /**
   * What the kernel promises of its requests: new ports are new, others name live objects. A count of bytes need not
   * be whole pages; the memory it comes in is.
   */
  predicate Allowed(live: set<Port>, r: Request) {
    match r
    case CreateObject(p, bytes, _) => p !in live && bytes < 0x1_0000_0000
    case WriteData(p, _, count, data) => p in live && |data| == RoundPage(count)
    case InitializeData(p, _, count, data) => p in live && |data| == RoundPage(count)
    case RequestPage(p, _) => p in live
    case TerminateObject(p) => true
  }

  ghost predicate Legal(script: seq<Request>) {
    forall i :: 0 <= i < |script| ==> Allowed(LiveAt(script, i), script[i])
  }

  /** The entries that serving a request adds to the log. */
  ghost predicate Serves(live: set<Port>, r: Request, added: Log) {
    match r
    case CreateObject(p, _, residue) => added == [Created(p, residue)]
    case WriteData(p, offset, count, data) => Writes(p, offset, data, added) && |added| * PAGE_SIZE == RoundPage(count)
    case InitializeData(p, offset, count, data) =>
      Initializes(p, offset, data, added) && |added| * PAGE_SIZE == RoundPage(count)
    case RequestPage(p, offset) => |added| == 1 && AnswersRequest(p, offset, added[0])
    case TerminateObject(p) => added == if p in live then [Terminated(p)] else []
  }

  /** Creating and ending an object moves no data. */
  lemma NoTransfer(live: set<Port>, r: Request, added: Log)
    requires Serves(live, r, added) && (r.CreateObject? || r.TerminateObject?)
    ensures Lapses(added) == 0
  {
  }

  /** One stretch of the log for each request, each serving its request. */
  ghost predicate Transcript(script: seq<Request>, stretches: seq<Log>) {
    && |stretches| <= |script|
    && forall i :: 0 <= i < |stretches| ==> Serves(LiveAt(script, i), script[i], stretches[i])
  }

  function Flatten(stretches: seq<Log>): Log {
    if stretches == [] then [] else Flatten(stretches[..|stretches| - 1]) + stretches[|stretches| - 1]
  }

  /** The first requests of a script have been served: this is the log, and these are the objects. */
  ghost predicate ServedSoFar(script: seq<Request>, stretches: seq<Log>, live: set<Port>, log: Log) {
    Transcript(script, stretches) && live == LiveAt(script, |stretches|) && log == Flatten(stretches)
  }

  lemma ServedNext(script: seq<Request>, stretches: seq<Log>, live: set<Port>, log: Log, added: Log)
    requires ServedSoFar(script, stretches, live, log) && |stretches| < |script|
    requires Serves(live, script[|stretches|], added)
    ensures ServedSoFar(script, stretches + [added], LiveAfter(live, script[|stretches|]), log + added)
  {
    assert (stretches + [added])[..|stretches|] == stretches;
  }

  /** The page tables as the maps themselves give them. */
  function TableOf(maps: map<Port, (PageMap, nat)>): PageTable {
    map p | p in maps :: View(maps[p].0, maps[p].1)
  }

  lemma Joined(before: Log, added: Log, e: Entry)
    ensures before + added + [e] == before + (added + [e])
  {
  }

  lemma WritesAppend(port: Port, offset: nat, data: seq<Byte>, added: Log, e: Entry)
    requires Writes(port, offset, data, added) && (|added| + 1) * PAGE_SIZE <= |data|
    requires IsWrite(port, offset, data, |added|, e)
    ensures Writes(port, offset, data, added + [e])
  {
  }

  lemma InitializesAppend(port: Port, offset: nat, data: seq<Byte>, added: Log, e: Entry)
    requires Initializes(port, offset, data, added) && (|added| + 1) * PAGE_SIZE <= |data|
    requires IsInitialize(port, offset, data, |added|, e)
    ensures Initializes(port, offset, data, added + [e])
  {
  }
}
