/**
 * The default pager: paging objects that share one partition, and the requests it serves.
 * Each request is a method; Serve runs any sequence of them from an empty partition.
 */
module DefaultPager {
  import opened PagingPartition
  import opened PageMaps
  import opened PagerHistory
  import opened PagerState
  import opened PagerBytes

  /**
   * The file behind the partition. A transfer moves at least one byte and may stop short;
   * it may fail, and a failed write may leave anything in the range it was given.
   */
  class Store {
    var bytes: seq<Byte>
    var faults: nat  // transfers that have failed

    constructor (size: nat)
      ensures |bytes| == size && faults == 0
    {
      bytes := seq(size, _ => 0);
      faults := 0;
    }

    method Read(offset: nat, size: nat) returns (rc: int, data: seq<Byte>)
      requires 0 < size && offset + size <= |bytes|
      modifies this`faults
      ensures rc == 0 ==> 0 < |data| <= size && data == bytes[offset..offset + |data|]
      ensures faults == old(faults) + if rc == 0 then 0 else 1
    {
      if * {
        faults := faults + 1;
        return 1, [];
      }
      var n :| 0 < n <= size;
      return 0, bytes[offset..offset + n];
    }

    method Write(offset: nat, data: seq<Byte>) returns (rc: int, count: nat)
      requires |data| > 0 && offset + |data| <= |bytes|
      modifies this
      ensures |bytes| == |old(bytes)|
      ensures bytes[..offset] == old(bytes)[..offset]
      ensures bytes[offset + |data|..] == old(bytes)[offset + |data|..]
      ensures rc == 0 ==> 0 < count <= |data| && bytes[offset..offset + count] == data[..count]
      ensures faults == old(faults) + if rc == 0 then 0 else 1
    {
      var junk: seq<Byte> := *;
      if |junk| != |data| {
        junk := data;
      }
      count :| 0 < count <= |data|;
      if * {
        bytes := bytes[..offset] + junk + bytes[offset + |data|..];
        faults := faults + 1;
        return 1, 0;
      }
      bytes := bytes[..offset] + data[..count] + bytes[offset + count..];
      rc := 0;
    }
  }

  /** The transfer loop of default_read: the whole page, in as many pieces as it takes, unless one of them fails. */
  method ReadPage(store: Store, block: nat) returns (ok: bool, data: seq<Byte>)
    requires (block + 1) * PAGE_SIZE <= |store.bytes|
    modifies store`faults
    ensures ok ==> data == BlockData(store.bytes, block)
    ensures store.faults == old(store.faults) + if ok then 0 else 1
  {
    var offset: nat, size: nat := block * PAGE_SIZE, PAGE_SIZE;
    data := [];
    while size != 0
      invariant offset + size == (block + 1) * PAGE_SIZE && size <= PAGE_SIZE
      invariant data == store.bytes[block * PAGE_SIZE..offset] && store.faults == old(store.faults)
      decreases size
    {
      var rc, piece := store.Read(offset, size);
      if rc != 0 {
        return false, [];
      }
      data := data + piece;
      offset := offset + |piece|;
      size := size - |piece|;
    }
    ok := true;
  }

  /** The transfer loop of default_write. */
  method WriteBlock(store: Store, block: nat, data: seq<Byte>) returns (ok: bool)
    requires (block + 1) * PAGE_SIZE <= |store.bytes| && |data| == PAGE_SIZE
    modifies store
    ensures SameElsewhere(old(store.bytes), store.bytes, block)
    ensures ok ==> BlockData(store.bytes, block) == data
    ensures store.faults == old(store.faults) + if ok then 0 else 1
  {
    ghost var base, limit := block * PAGE_SIZE, (block + 1) * PAGE_SIZE;
    ghost var before := store.bytes;
    var done := 0;
    ok := true;
    while done != PAGE_SIZE && ok
      invariant done <= PAGE_SIZE
      invariant |store.bytes| == |before|
      invariant store.faults == old(store.faults) + if ok then 0 else 1
      invariant store.bytes[..base] == before[..base]
      invariant store.bytes[limit..] == before[limit..]
      invariant ok ==> store.bytes[base..base + done] == data[..done]
      decreases ok, PAGE_SIZE - done
    {
      ghost var was, at := store.bytes, base + done;
      var rc, count := store.Write(block * PAGE_SIZE + done, data[done..]);
      SameBelow(store.bytes, was, at, base);
      if rc != 0 {
        ok := false;
      } else {
        PieceWritten(store.bytes, was, base, data, done, count);
        done := done + count;
      }
    }
    OtherBlocks(before, store.bytes, block);
    assert data[..PAGE_SIZE] == data;
  }

  class Server {
    const partition: Partition
    const store: Store
    var objects: map<Port, PagingObject>
    var log: Log
    var shortages: nat  // pages that no block was found for
    ghost var table: PageTable

    /** Every object is in order, is reached by one port only, and has the map that table says. */
    ghost predicate Separate()
      reads this`objects, this`table, objects.Values`pages, objects.Values`pageMap, objects.Values`size
    {
      && table.Keys == objects.Keys
      && (forall p :: p in objects ==>
            && objects[p].port == p
            && objects[p].partition == partition
            && objects[p].Valid()
            && objects[p].pages == table[p])
    }

    /** The partition and the objects, without what the log says about them. */
    ghost predicate Structure()
      reads this`objects, this`table, objects.Values`pages, objects.Values`pageMap, objects.Values`size
      reads partition, partition.bitmap, store`bytes
    {
      && partition.Valid()
      && |store.bytes| == partition.totalSize * PAGE_SIZE
      && Separate()
      && Partitioned(table, partition.used)
    }

    ghost predicate Counts(log: Log)
      reads this`objects, objects.Values`errors
    {
      forall p :: p in objects ==> objects[p].errors == Errors(log, p)
    }

    ghost predicate Valid()
      reads this`objects, this`table, this`log, partition, partition.bitmap, store`bytes, objects.Values
    {
      && Structure()
      && Counts(log)
      && Reflects(table, store.bytes, log)
      && Faithful(log)
    }

    constructor (bytes: nat)
      requires bytes < 0x1_0000_0000
      ensures Valid() && log == [] && objects == map[] && store.faults + shortages == 0
      ensures fresh(partition) && fresh(partition.bitmap) && fresh(store)
      ensures partition.totalSize == bytes / PAGE_SIZE
    {
      var part := new Partition(bytes);
      var file := new Store(part.totalSize * PAGE_SIZE);
      partition := part;
      store := file;
      objects := map[];
      log := [];
      shortages := 0;
      table := map[];
    }

    /** pager_write_offset for an object of the server: its effect on the maps of all objects. */
    method MapPage(port: Port, ds: PagingObject, offset: nat) returns (block: nat, tableMemory: bool)
      requires Separate() && partition.Valid() && port in objects && objects[port] == ds
      modifies ds`pages, ds`pageMap, ds`size, partition, partition.bitmap, this`table
      ensures Separate() && partition.Valid()
      ensures block == NO_BLOCK || offset / PAGE_SIZE in old(table)[port] ==>
        table == old(table) && partition.used == old(partition.used)
      ensures block == NO_BLOCK ==>
        offset / PAGE_SIZE !in old(table)[port] && (old(partition.free) == 0 || !tableMemory)
      ensures offset / PAGE_SIZE in old(table)[port] ==> block == old(table)[port][offset / PAGE_SIZE]
      ensures block != NO_BLOCK && offset / PAGE_SIZE !in old(table)[port] ==>
        && block !in old(partition.used)
        && table == Assign(old(table), port, offset / PAGE_SIZE, block)
        && partition.used == old(partition.used) + {block}
    {
      tableMemory := *;
      ghost var page := offset / PAGE_SIZE;
      block := ds.WriteOffset(offset, tableMemory);
      if block != NO_BLOCK && page !in table[port] {
        table := Assign(table, port, page, block);
      }
    }

    /** Gives a page its block; the blocks stay divided among the objects. */
    method GetBlock(port: Port, ds: PagingObject, offset: nat) returns (block: nat, tableMemory: bool)
      requires Structure() && Counts(log) && port in objects && objects[port] == ds
      modifies ds`pages, ds`pageMap, ds`size, partition, partition.bitmap, this`table
      ensures Structure() && Counts(log)
      ensures block == NO_BLOCK ==>
        && table == old(table) && offset / PAGE_SIZE !in table[port]
        && (old(partition.free) == 0 || !tableMemory)
      ensures block != NO_BLOCK ==>
        && table == Assign(old(table), port, offset / PAGE_SIZE, block)
        && SoleOwner(table, port, offset / PAGE_SIZE, block)
        && (block + 1) * PAGE_SIZE <= |store.bytes|
        && (offset / PAGE_SIZE in old(table)[port] ==> old(table)[port][offset / PAGE_SIZE] == block)
    {
      ghost var before, used := table, partition.used;
      block, tableMemory := MapPage(port, ds, offset);
      assert Counts(log);
      if block != NO_BLOCK {
        BlockGiven(before, used, port, offset / PAGE_SIZE, block, table, partition.used);
      }
    }

    /** Records an entry that the state already reflects. */
    method Record(e: Entry)
      requires Structure() && Counts(log + [e]) && Reflects(table, store.bytes, log + [e])
      requires Faithful(log) && Correct(log, e)
      modifies this`log
      ensures Valid() && log == old(log) + [e]
    {
      FaithfulAppend(log, e);
      log := log + [e];
    }

    /** Moves a page to its block, which no other page has. */
    method FillBlock(port: Port, ghost page: nat, block: nat, data: seq<Byte>, ghost initial: bool,
                     ghost before: PageTable)
      returns (ok: bool)
      requires Structure() && Counts(log)
      requires Reflects(before, store.bytes, log) && port in before && |data| == PAGE_SIZE
      requires table == Assign(before, port, page, block) && SoleOwner(table, port, page, block)
      requires (block + 1) * PAGE_SIZE <= |store.bytes| && (page in before[port] ==> before[port][page] == block)
      modifies store
      ensures Structure() && Counts(log) && store.faults == old(store.faults) + if ok then 0 else 1
      ensures Reflects(table, store.bytes, log + [Wrote(port, page, data, initial, ok)])
    {
      ghost var bytes := store.bytes;
      ok := WriteBlock(store, block, data);
      ReflectsAfterWrite(before, bytes, log, Wrote(port, page, data, initial, ok), block, store.bytes);
    }

    /** default_write: finds the block and moves the data; it is short when there is no block. */
    method DefaultWrite(port: Port, ds: PagingObject, offset: nat, data: seq<Byte>, ghost initial: bool)
      returns (ok: bool, short: bool, tableMemory: bool)
      requires Structure() && port in objects && objects[port] == ds && |data| == PAGE_SIZE
      requires Reflects(table, store.bytes, log) && Counts(log)
      modifies ds`pages, ds`pageMap, ds`size, this`table, store, partition, partition.bitmap
      ensures Structure() && Counts(log) && (short ==> !ok)
      ensures store.faults == old(store.faults) + if ok || short then 0 else 1
      ensures short ==> offset / PAGE_SIZE !in old(table)[port] && (old(partition.free) == 0 || !tableMemory)
      ensures Reflects(table, store.bytes, log + [Wrote(port, offset / PAGE_SIZE, data, initial, ok)])
    {
      ghost var before := table;
      var block;
      block, tableMemory := GetBlock(port, ds, offset);
      short := block == NO_BLOCK;
      if short {
        ReflectsAfterQuiet(before, store.bytes, log, Wrote(port, offset / PAGE_SIZE, data, initial, false));
        return false, true, tableMemory;
      }
      ok := FillBlock(port, offset / PAGE_SIZE, block, data, initial, before);
    }

    /** One page of a write or initialize request, before it is recorded. */
    method Attempt(port: Port, ds: PagingObject, offset: nat, data: seq<Byte>, initial: bool)
      returns (e: Entry, short: bool)
      requires Valid() && port in objects && objects[port] == ds && |data| == PAGE_SIZE
      requires initial ==> offset / PAGE_SIZE !in table[port]
      modifies ds`pages, ds`pageMap, ds`size, this`table, store, partition, partition.bitmap
      ensures Structure() && Counts(log) && Reflects(table, store.bytes, log + [e])
      ensures Faithful(log) && Correct(log, e)
      ensures e.Wrote? && e == Wrote(port, offset / PAGE_SIZE, data, initial, e.ok) && (short ==> !e.ok)
      ensures store.faults + shortages == old(store.faults + shortages) + if e.ok || short then 0 else 1
    {
      WriteCorrect(table, store.bytes, log, port, offset / PAGE_SIZE, initial);
      var ok, tableMemory;
      ok, short, tableMemory := DefaultWrite(port, ds, offset, data, initial);
      assert Counts(log) && Faithful(log);
      e := Wrote(port, offset / PAGE_SIZE, data, initial, ok);
    }

    /** One page of a write or initialize request: a failure is counted, and the entry recorded. */
    method WritePage(port: Port, offset: nat, data: seq<Byte>, initial: bool) returns (e: Entry)
      requires Valid() && port in objects && |data| == PAGE_SIZE
      requires initial ==> offset / PAGE_SIZE !in table[port]
      modifies this`log, this`table, this`shortages, store, partition, partition.bitmap, objects.Values
      ensures Valid() && log == old(log) + [e]
      ensures e.Wrote? && e == Wrote(port, offset / PAGE_SIZE, data, initial, e.ok)
      ensures store.faults + shortages == old(store.faults + shortages) + Lapse(e)
    {
      var short;
      e, short := Attempt(port, objects[port], offset, data, initial);
      Settle(e, short, objects[port]);
    }

    /** The failure is counted, if it is one, and the entry recorded. */
    method Settle(e: Entry, short: bool, ds: PagingObject)
      requires e.Wrote? && e.port in objects && objects[e.port] == ds
      requires Structure() && Counts(log) && Reflects(table, store.bytes, log + [e])
      requires Faithful(log) && Correct(log, e)
      modifies ds`errors, this`log, this`shortages
      ensures Valid() && log == old(log) + [e]
      ensures store.faults + shortages == old(store.faults + shortages) + if short then 1 else 0
    {
      CountFailure(e, short, ds);
      Record(e);
    }

    /** The object's error count goes up when a write fails. */
    method CountFailure(e: Entry, short: bool, ds: PagingObject)
      requires e.Wrote? && e.port in objects && objects[e.port] == ds
      requires Structure() && Counts(log)
      modifies ds`errors, this`shortages
      ensures Structure() && Counts(log + [e])
      ensures store.faults + shortages == old(store.faults + shortages) + if short then 1 else 0
    {
      shortages := if short then shortages + 1 else shortages;
      if !e.ok {
        ds.errors := ds.errors + 1;
      }
      forall p | p in objects ensures objects[p].errors == Errors(log + [e], p) {
        assert objects[p].errors == Errors(log, p) + if p == e.port && !e.ok then 1 else 0;
        ErrorsAfter(log, e, p);
      }
    }

    /** memory_object_data_write: one write for each page of the data. */
    method DataWrite(port: Port, offset: nat, count: nat, data: seq<Byte>) returns (added: Log)
      requires Valid() && port in objects && |data| == RoundPage(count)
      modifies this`log, this`table, this`shortages, store, partition, partition.bitmap, objects.Values
      ensures Valid() && log == old(log) + added
      ensures Writes(port, offset, data, added) && |added| * PAGE_SIZE == RoundPage(count)
      ensures offset % PAGE_SIZE == 0 ==> BytesIn(port, offset, data, added)
      ensures store.faults + shortages == old(store.faults + shortages) + Lapses(added)
    {
      added := [];
      while |added| * PAGE_SIZE < count
        invariant Valid() && log == old(log) + added
        invariant Writes(port, offset, data, added) && Within(count, |added|)
        invariant store.faults + shortages == old(store.faults + shortages) + Lapses(added)
        decreases count - |added| * PAGE_SIZE
      {
        added := WriteTurn(port, offset, count, data, added, old(log));
      }
      PagesOf(count, |added|);
      EveryByteIn(port, offset, data, added);
    }

    method WriteTurn(port: Port, offset: nat, count: nat, data: seq<Byte>, done: Log, ghost start: Log)
      returns (added: Log)
      requires Valid() && port in objects && |data| == RoundPage(count) && |done| * PAGE_SIZE < count
      requires log == start + done && Writes(port, offset, data, done)
      modifies this`log, this`table, this`shortages, store, partition, partition.bitmap, objects.Values
      ensures Valid() && log == start + added && |added| == |done| + 1
      ensures Writes(port, offset, data, added) && Within(count, |added|)
      ensures store.faults + shortages - Lapses(added) == old(store.faults + shortages) - Lapses(done)
    {
      PagesOf(count, |done|);
      var e := WriteNth(port, offset, data, |done|);
      WritesAppend(port, offset, data, done, e);
      LapsesNext(done, e);
      Joined(start, done, e);
      added := done + [e];
    }

    /** memory_object_data_initialize: a page that has a block is left alone, any other is written. */
    method DataInitialize(port: Port, offset: nat, count: nat, data: seq<Byte>) returns (added: Log)
      requires Valid() && port in objects && |data| == RoundPage(count)
      modifies this`log, this`table, this`shortages, store, partition, partition.bitmap, objects.Values
      ensures Valid() && log == old(log) + added
      ensures Initializes(port, offset, data, added) && |added| * PAGE_SIZE == RoundPage(count)
      ensures offset % PAGE_SIZE == 0 ==> BytesIn(port, offset, data, added)
      ensures store.faults + shortages == old(store.faults + shortages) + Lapses(added)
    {
      added := [];
      while |added| * PAGE_SIZE < count
        invariant Valid() && log == old(log) + added
        invariant Initializes(port, offset, data, added) && Within(count, |added|)
        invariant store.faults + shortages == old(store.faults + shortages) + Lapses(added)
        decreases count - |added| * PAGE_SIZE
      {
        added := InitializeTurn(port, offset, count, data, added, old(log));
      }
      PagesOf(count, |added|);
      EveryByteIn(port, offset, data, added);
    }

    method InitializeTurn(port: Port, offset: nat, count: nat, data: seq<Byte>, done: Log, ghost start: Log)
      returns (added: Log)
      requires Valid() && port in objects && |data| == RoundPage(count) && |done| * PAGE_SIZE < count
      requires log == start + done && Initializes(port, offset, data, done)
      modifies this`log, this`table, this`shortages, store, partition, partition.bitmap, objects.Values
      ensures Valid() && log == start + added && |added| == |done| + 1
      ensures Initializes(port, offset, data, added) && Within(count, |added|)
      ensures store.faults + shortages - Lapses(added) == old(store.faults + shortages) - Lapses(done)
    {
      PagesOf(count, |done|);
      var e := InitializeNth(port, offset, data, |done|);
      InitializesAppend(port, offset, data, done, e);
      LapsesNext(done, e);
      Joined(start, done, e);
      added := done + [e];
    }

    method WriteNth(port: Port, offset: nat, data: seq<Byte>, k: nat) returns (e: Entry)
      requires Valid() && port in objects && (k + 1) * PAGE_SIZE <= |data|
      modifies this`log, this`table, this`shortages, store, partition, partition.bitmap, objects.Values
      ensures Valid() && log == old(log) + [e]
      ensures IsWrite(port, offset, data, k, e) && store.faults + shortages == old(store.faults + shortages) + Lapse(e)
    {
      e := WritePage(port, (offset + k * PAGE_SIZE) % 0x1_0000_0000, PageData(data, k), false);
    }

    method InitializeNth(port: Port, offset: nat, data: seq<Byte>, k: nat) returns (e: Entry)
      requires Valid() && port in objects && (k + 1) * PAGE_SIZE <= |data|
      modifies this`log, this`table, this`shortages, store, partition, partition.bitmap, objects.Values
      ensures Valid() && log == old(log) + [e]
      ensures IsInitialize(port, offset, data, k, e)
      ensures store.faults + shortages == old(store.faults + shortages) + Lapse(e)
    {
      var at := (offset + k * PAGE_SIZE) % 0x1_0000_0000;
      var block := objects[port].ReadOffset(at);
      assert PageReflects(table, store.bytes, log, port, at / PAGE_SIZE);
      if block == NO_BLOCK {
        e := WritePage(port, at, PageData(data, k), true);
      } else {
        e := Kept(port, at / PAGE_SIZE);
        Note(e);
      }
    }

    /** Records an entry that changes nothing. */
    method Note(e: Entry)
      requires Valid() && (e.Kept? || e.Supplied? || e.Absent? || e.ReadFailed? || e.Refused?) && Correct(log, e)
      modifies this`log
      ensures Valid() && log == old(log) + [e]
    {
      ReflectsAfterQuiet(table, store.bytes, log, e);
      forall p | p in objects ensures objects[p].errors == Errors(log + [e], p) {
        ErrorsAfter(log, e, p);
      }
      Record(e);
    }

    /** memory_object_data_request. */
    method DataRequest(port: Port, offset: nat) returns (e: Entry)
      requires Valid() && port in objects
      modifies this`log, store`faults
      ensures Valid() && log == old(log) + [e]
      ensures AnswersRequest(port, offset, e) && store.faults + shortages == old(store.faults + shortages) + Lapse(e)
    {
      var ds, page := objects[port], offset / PAGE_SIZE;
      assert PageReflects(table, store.bytes, log, port, page);
      if ds.errors != 0 {
        e := Refused(port, page);
      } else {
        var block := ds.ReadOffset(offset);
        if block == NO_BLOCK {
          e := Absent(port, page);
        } else {
          var ok, data := ReadPage(store, block);
          e := if ok then Supplied(port, page, data) else ReadFailed(port, page);
        }
      }
      Note(e);
    }

    /** memory_object_create, for a port that is not in use; residue is what the zone left in the error count. */
    method Create(port: Port, bytes: nat, residue: int)
      requires Valid() && port !in objects && bytes < 0x1_0000_0000
      modifies this`objects, this`table, this`log
      ensures Valid() && log == old(log) + [Created(port, residue)]
      ensures objects.Keys == old(objects.Keys) + {port}
      ensures forall p :: p in old(objects) ==> objects[p] == old(objects)[p]
      ensures fresh(objects[port])
    {
      var ds := new PagingObject(port, partition, bytes, residue);
      ReflectsAfterCreate(table, store.bytes, log, port, residue);
      Attach(port, ds);
      Record(Created(port, residue));
    }

    /** Enters a new object in the port table. */
    method Attach(port: Port, ds: PagingObject)
      requires Structure() && Counts(log) && port !in objects
      requires ds.Valid() && ds.port == port && ds.partition == partition && ds.pages == map[]
      modifies this`objects, this`table
      ensures Structure() && Counts(log + [Created(port, ds.errors)])
      ensures objects == old(objects)[port := ds] && table == old(table)[port := map[]]
    {
      PartitionedAfterCreate(table, partition.used, port);
      objects := objects[port := ds];
      table := table[port := map[]];
      forall p | p in objects ensures objects[p].errors == Errors(log + [Created(port, ds.errors)], p) {
        ErrorsAfter(log, Created(port, ds.errors), p);
      }
    }

    /** Takes an object whose blocks have been freed out of the port table. */
    method Detach(port: Port)
      requires Separate() && Counts(log) && port in objects
      requires partition.Valid() && |store.bytes| == partition.totalSize * PAGE_SIZE
      requires Partitioned(table - {port}, partition.used)
      modifies this`objects, this`table
      ensures Structure() && Counts(log + [Terminated(port)])
      ensures objects == old(objects) - {port} && table == old(table) - {port}
    {
      objects := objects - {port};
      table := table - {port};
      forall p | p in objects ensures objects[p].errors == Errors(log + [Terminated(port)], p) {
        ErrorsAfter(log, Terminated(port), p);
      }
    }

    /** An object's blocks go back to the partition. */
    method FreeBlocksOf(port: Port, ds: PagingObject)
      requires Structure() && Counts(log) && port in objects && objects[port] == ds
      modifies partition, partition.bitmap
      ensures Separate() && Counts(log) && partition.Valid() && Partitioned(table - {port}, partition.used)
      ensures |store.bytes| == partition.totalSize * PAGE_SIZE
      ensures partition.used == old(partition.used) - table[port].Values
    {
      PartitionedAfterTerminate(table, partition.used, port);
      var ok := ds.Dealloc();
    }

    /** The same, and the object goes out of the port table. */
    method Release(port: Port)
      requires Structure() && Counts(log) && port in objects
      modifies this`objects, this`table, partition, partition.bitmap
      ensures Structure() && Counts(log + [Terminated(port)])
      ensures objects == old(objects) - {port} && table == old(table) - {port}
      ensures partition.used == old(partition.used) - old(table)[port].Values
    {
      FreeBlocksOf(port, objects[port]);
      Detach(port);
    }

    /** memory_object_terminate: the object's blocks go back to the partition, and no others. */
    method Terminate(port: Port)
      requires Valid()
      modifies this`objects, this`table, this`log, partition, partition.bitmap
      ensures Valid()
      ensures port !in old(objects) ==> log == old(log) && objects == old(objects)
      ensures port in old(objects) ==> log == old(log) + [Terminated(port)] && objects == old(objects) - {port}
      ensures port in old(objects) ==> partition.used == old(partition.used) - old(table)[port].Values
      ensures objects.Keys == old(objects.Keys) - {port}
    {
      if port in objects {
        ReflectsAfterTerminate(table, store.bytes, log, port);
        Release(port);
        Record(Terminated(port));
      }
    }

    /** Dispatches a request to an object. */
    method HandleData(r: Request) returns (added: Log)
      requires Valid() && Allowed(objects.Keys, r) && !r.CreateObject? && !r.TerminateObject?
      modifies this`table, this`log, this`shortages, store, partition, partition.bitmap, objects.Values
      ensures Valid() && log == old(log) + added
      ensures Serves(objects.Keys, r, added)
      ensures store.faults + shortages == old(store.faults + shortages) + Lapses(added)
    {
      match r
      case WriteData(p, offset, count, data) =>
        added := DataWrite(p, offset, count, data);
      case InitializeData(p, offset, count, data) =>
        added := DataInitialize(p, offset, count, data);
      case RequestPage(p, offset) =>
        var e := DataRequest(p, offset);
        added := [e];
        LapsesNext([], e);
        assert [] + [e] == added;
    }

    /** Dispatches a request that creates or ends an object. */
    method HandleObject(r: Request) returns (added: Log)
      requires Valid() && Allowed(objects.Keys, r) && (r.CreateObject? || r.TerminateObject?)
      modifies this`objects, this`table, this`log, partition, partition.bitmap
      ensures Valid() && log == old(log) + added
      ensures Serves(old(objects.Keys), r, added)
      ensures objects.Keys == LiveAfter(old(objects.Keys), r)
      ensures forall p :: p in objects ==> fresh(objects[p]) || (p in old(objects) && objects[p] == old(objects)[p])
    {
      if r.CreateObject? {
        Create(r.port, r.bytes, r.residue);
        added := [Created(r.port, r.residue)];
      } else {
        added := if r.port in objects then [Terminated(r.port)] else [];
        Terminate(r.port);
      }
    }

    /** Dispatches one request. */
    method Handle(r: Request) returns (added: Log)
      requires Valid() && Allowed(objects.Keys, r)
      modifies this`objects, this`table, this`log, this`shortages
      modifies store, partition, partition.bitmap, objects.Values
      ensures Valid() && log == old(log) + added
      ensures Serves(old(objects.Keys), r, added)
      ensures store.faults + shortages == old(store.faults + shortages) + Lapses(added)
      ensures objects.Keys == LiveAfter(old(objects.Keys), r)
      ensures forall p :: p in objects ==> fresh(objects[p]) || (p in old(objects) && objects[p] == old(objects)[p])
    {
      if r.CreateObject? || r.TerminateObject? {
        added := HandleObject(r);
        NoTransfer(old(objects.Keys), r, added);
        assert store.faults + shortages == old(store.faults + shortages) + Lapses(added);
      } else {
        added := HandleData(r);
      }
    }
  }

  /** The bitmap, the free count and the maps of a server, as plain values. */
  method Inspect(server: Server) returns (bits: seq<bv8>, free: nat, maps: map<Port, (PageMap, nat)>)
    requires server.Structure()
    ensures maps.Keys == server.objects.Keys
    ensures forall p :: p in maps ==> WellFormed(maps[p].0, maps[p].1)
    ensures Partitioned(TableOf(maps), SetBits(bits))
    ensures forall k :: k in SetBits(bits) ==> k < server.partition.totalSize
    ensures free + |SetBits(bits)| == server.partition.totalSize
  {
    bits := server.partition.bitmap[..];
    free := server.partition.free;
    maps := map p | p in server.objects :: (server.objects[p].pageMap, server.objects[p].size);
    MarksSetBits(server.partition.used, bits);
    forall p | p in maps ensures View(maps[p].0, maps[p].1) == server.table[p] {
      DescribesView(server.objects[p].pages, server.objects[p].pageMap, server.objects[p].size);
    }
    assert TableOf(maps) == server.table;
  }

  /**
   * Any run of the pager on a partition of a given size. Whatever the transfers do, the requests are
   * served in order by one correct action after another: a byte written is the byte read at its address, and
   * nothing else is read. As many actions fail as transfers have failed and pages found no block. At the end of every
   * run the set bits are exactly the blocks named in the maps, each named once, all below the partition's size and
   * counted exactly.
   */
  method Serve(size: nat, script: seq<Request>)
    returns (stretches: seq<Log>, trouble: nat, bits: seq<bv8>, free: nat, maps: map<Port, (PageMap, nat)>)
    requires size < 0x1_0000_0000 && Legal(script)
    ensures |stretches| == |script| && Transcript(script, stretches) && Faithful(Flatten(stretches))
    ensures forall a: nat, b: nat, j: nat :: ReadsBack(script, stretches, a, b, j)
    ensures forall c: nat, b: nat :: NothingInvented(script, stretches, c, b)
    ensures Lapses(Flatten(stretches)) == trouble
    ensures maps.Keys == LiveAt(script, |script|)
    ensures forall p :: p in maps ==> WellFormed(maps[p].0, maps[p].1)
    ensures Partitioned(TableOf(maps), SetBits(bits))
    ensures forall k :: k in SetBits(bits) ==> k < size / PAGE_SIZE
    ensures free + |SetBits(bits)| == size / PAGE_SIZE
  {
    var server := new Server(size);
    stretches := Run(server, script);
    trouble := server.store.faults + server.shortages;
    bits, free, maps := Inspect(server);
    forall a: nat, b: nat, j: nat ensures ReadsBack(script, stretches, a, b, j) {
      EveryByteReadsBack(script, stretches, a, b, j);
    }
    forall c: nat, b: nat ensures NothingInvented(script, stretches, c, b) {
      NothingIsInvented(script, stretches, c, b);
    }
  }

  /** The requests of a script, one after another, on a server that has no objects yet. */
  method Run(server: Server, script: seq<Request>) returns (stretches: seq<Log>)
    requires server.Valid() && server.objects == map[] && server.log == []
    requires server.store.faults + server.shortages == 0 && Legal(script)
    modifies server, server.partition, server.partition.bitmap, server.store
    ensures server.Valid() && |stretches| == |script|
    ensures ServedSoFar(script, stretches, server.objects.Keys, server.log)
    ensures Lapses(server.log) == server.store.faults + server.shortages
  {
    stretches := [];
    while |stretches| < |script|
      invariant server.Valid()
      invariant forall p :: p in server.objects ==> fresh(server.objects[p])
      invariant |stretches| <= |script| && ServedSoFar(script, stretches, server.objects.Keys, server.log)
      invariant Lapses(server.log) == server.store.faults + server.shortages
      decreases |script| - |stretches|
    {
      ghost var live, log := server.objects.Keys, server.log;
      var added := server.Handle(script[|stretches|]);
      ServedNext(script, stretches, live, log, added);
      LapsesJoin(log, added);
      stretches := stretches + [added];
    }
  }
}
