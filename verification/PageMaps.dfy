/**
 * A paging object's map from its pages to blocks of the partition. Up to 128 pages the map is one
 * array; beyond that it is an array of second-level maps of 128 entries, each allocated on demand.
 */
module PageMaps {
  import opened PagingPartition

  /** A second-level map, or the null pointer. */
  datatype Table = Null | Table(blocks: seq<nat>)

  datatype PageMap = Direct(blocks: seq<nat>) | Indirect(tables: seq<Table>)

  /** Number of second-level maps that cover npgs pages. */
  function TableCount(npgs: nat): nat
    requires npgs > 0
  {
    (npgs - 1) / 128 + 1
  }

  predicate PowerOfTwo(n: nat) {
    n == 1 || (n > 1 && n % 2 == 0 && PowerOfTwo(n / 2))
  }

  predicate WellFormed(m: PageMap, size: nat) {
    && PowerOfTwo(size)
    && if size > 128
       then m.Indirect? && |m.tables| == TableCount(size) && forall t :: t in m.tables && t.Table? ==> |t.blocks| == 128
       else m.Direct? && |m.blocks| == size
  }

  /** The block a map assigns to a page, whichever of the two forms it has. */
  function BlockOf(m: PageMap, page: nat): nat {
    match m
    case Direct(blocks) =>
      if page < |blocks| then blocks[page] else NO_BLOCK
    case Indirect(tables) =>
      if page / 128 < |tables| && tables[page / 128].Table? && page % 128 < |tables[page / 128].blocks|
      then tables[page / 128].blocks[page % 128]
      else NO_BLOCK
  }

  /** The map as a partial function from pages to blocks. */
  function View(m: PageMap, size: nat): map<nat, nat> {
    map p: nat | p < size && BlockOf(m, p) != NO_BLOCK :: BlockOf(m, p)
  }

  /** pages is the view of the map. */
  ghost predicate Describes(pages: map<nat, nat>, m: PageMap, size: nat) {
    && (forall p :: p in pages ==> p < size)
    && (forall p: nat {:trigger BlockOf(m, p)} :: p < size ==>
          BlockOf(m, p) == if p in pages then pages[p] else NO_BLOCK)
    && NO_BLOCK !in pages.Values
  }

  lemma DescribesView(pages: map<nat, nat>, m: PageMap, size: nat)
    requires Describes(pages, m, size)
    ensures pages == View(m, size)
  {
    var v := View(m, size);
    forall p: nat | p < size ensures p in pages <==> p in v {
      assert BlockOf(m, p) == if p in pages then pages[p] else NO_BLOCK;
      if p in pages {
        assert pages[p] in pages.Values;
      }
    }
  }

  lemma NoEntry(pages: map<nat, nat>, m: PageMap, size: nat, page: nat)
    requires Describes(pages, m, size) && BlockOf(m, page) == NO_BLOCK
    ensures page !in pages
  {
    DescribesView(pages, m, size);
  }

  /** Maps that assign the same blocks below the smaller size and none above it have the same view. */
  lemma SameView(pages: map<nat, nat>, m: PageMap, size: nat, m': PageMap, size': nat)
    requires Describes(pages, m, size) && size <= size'
    requires forall p: nat :: p < size ==> BlockOf(m', p) == BlockOf(m, p)
    requires forall p: nat :: size <= p < size' ==> BlockOf(m', p) == NO_BLOCK
    ensures Describes(pages, m', size')
  {
    forall p: nat | p < size' ensures BlockOf(m', p) == if p in pages then pages[p] else NO_BLOCK {
      if p < size {
        assert BlockOf(m, p) == if p in pages then pages[p] else NO_BLOCK;
      }
    }
  }

  /** The second-level maps of a two-level map cover its pages exactly. */
  lemma TableCover(size: nat)
    requires PowerOfTwo(size) && size > 128
    ensures TableCount(size) * 128 == size
  {
    Half(size);
    var a := size / 2;
    Half(a);
    var b := a / 2;
    Half(b);
    var c := b / 2;
    Half(c);
    var d := c / 2;
    Half(d);
    var e := d / 2;
    Half(e);
    var f := e / 2;
    Half(f);
    assert size == 128 * (f / 2);
  }

  lemma Half(n: nat)
    requires PowerOfTwo(n) && n > 1
    ensures n == 2 * (n / 2) && PowerOfTwo(n / 2)
  {
  }

  /** Doubles a size until it covers the request. */
  method Grow(start: nat, request: nat) returns (n: nat)
    requires PowerOfTwo(start)
    ensures PowerOfTwo(n) && n >= request && n >= start
    ensures n > start ==> n / 2 < request
  {
    n := start;
    while n < request
      invariant PowerOfTwo(n) && n >= start
      invariant n > start ==> n / 2 < request
      decreases request - n
    {
      n := n * 2;
    }
  }

  /** Copies a map and pads it with a filler, as the two loops of each growing case do. */
  method CopyPadded<T(==)>(s: seq<T>, length: nat, filler: T) returns (r: seq<T>)
    requires |s| <= length
    ensures |r| == length
    ensures r[..|s|] == s
    ensures forall i :: |s| <= i < length ==> r[i] == filler
  {
    r := [];
    var i := 0;
    while i < |s|
      invariant i == |r| <= |s|
      invariant r == s[..i]
    {
      r := r + [s[i]];
      i := i + 1;
    }
    while i < length
      invariant i == |r| <= length && |s| <= i
      invariant r[..|s|] == s
      invariant forall j :: |s| <= j < i ==> r[j] == filler
    {
      r := r + [filler];
      i := i + 1;
    }
  }

  /** The blocks named in a one-level map. */
  function Named(blocks: seq<nat>): set<nat> {
    set i | 0 <= i < |blocks| && blocks[i] != NO_BLOCK :: blocks[i]
  }

  predicate Distinct(blocks: seq<nat>) {
    forall i, j :: 0 <= i < j < |blocks| && blocks[i] != NO_BLOCK ==> blocks[i] != blocks[j]
  }

  ghost predicate Injective(v: map<nat, nat>) {
    forall p, q :: p in v && q in v && p != q ==> v[p] != v[q]
  }

  /** The blocks a map assigns to the pages lo, ..., hi - 1. */
  function Assigned(m: PageMap, lo: nat, hi: nat): set<nat> {
    set p: nat | lo <= p < hi && BlockOf(m, p) != NO_BLOCK :: BlockOf(m, p)
  }

  lemma AssignedIsValues(m: PageMap, size: nat)
    ensures Assigned(m, 0, size) == View(m, size).Values
  {
    var v := View(m, size);
    forall b | b in Assigned(m, 0, size) ensures b in v.Values {
      var p: nat :| p < size && BlockOf(m, p) != NO_BLOCK && BlockOf(m, p) == b;
      assert p in v && v[p] == b;
    }
  }

  /** Second-level map t names exactly the blocks of pages 128t, ..., 128t + 127, and names none twice. */
  lemma TableNames(m: PageMap, size: nat, t: nat)
    requires WellFormed(m, size) && size > 128 && t < |m.tables|
    requires Injective(View(m, size))
    ensures m.tables[t].Null? ==> Assigned(m, 128 * t, 128 * (t + 1)) == {}
    ensures m.tables[t].Table? ==>
      && Named(m.tables[t].blocks) == Assigned(m, 128 * t, 128 * (t + 1))
      && Distinct(m.tables[t].blocks)
  {
    TableCover(size);
    if m.tables[t].Table? {
      var blocks := m.tables[t].blocks;
      assert m.tables[t] in m.tables;
      forall i: nat | i < 128
        ensures BlockOf(m, 128 * t + i) == blocks[i]
        ensures 128 * t + i < size
      {
        assert (128 * t + i) / 128 == t && (128 * t + i) % 128 == i;
      }
      forall b | b in Assigned(m, 128 * t, 128 * (t + 1)) ensures b in Named(blocks) {
        var p: nat :| 128 * t <= p < 128 * (t + 1) && BlockOf(m, p) != NO_BLOCK && BlockOf(m, p) == b;
        assert BlockOf(m, 128 * t + (p - 128 * t)) == blocks[p - 128 * t];
      }
      forall i, j | 0 <= i < j < |blocks| && blocks[i] != NO_BLOCK ensures blocks[i] != blocks[j] {
        var v := View(m, size);
        assert BlockOf(m, 128 * t + i) == blocks[i] && BlockOf(m, 128 * t + j) == blocks[j];
        assert 128 * t + i in v;
        if blocks[j] != NO_BLOCK {
          assert 128 * t + j in v;
        }
      }
    }
  }

  /** Different second-level maps name different blocks. */
  lemma AssignedDisjoint(m: PageMap, size: nat, lo: nat, mid: nat, hi: nat)
    requires lo <= mid <= hi <= size && Injective(View(m, size))
    ensures Assigned(m, lo, mid) !! Assigned(m, mid, hi)
    ensures Assigned(m, lo, hi) == Assigned(m, lo, mid) + Assigned(m, mid, hi)
  {
    var v := View(m, size);
    forall p: nat, q: nat | lo <= p < mid <= q < hi && BlockOf(m, p) != NO_BLOCK && BlockOf(m, q) != NO_BLOCK
      ensures BlockOf(m, p) != BlockOf(m, q)
    {
      assert p in v && q in v;
    }
  }

  /** Frees every block named in a one-level map. */
  method FreeBlocks(part: Partition, blocks: seq<nat>) returns (ok: bool)
    requires part.Valid() && Distinct(blocks) && Named(blocks) <= part.used
    modifies part, part.bitmap
    ensures ok && part.Valid()
    ensures part.used == old(part.used) - Named(blocks)
  {
    ok := true;
    var i := 0;
    while i < |blocks|
      invariant 0 <= i <= |blocks|
      invariant ok && part.Valid()
      invariant part.used == old(part.used) - Named(blocks[..i])
    {
      NamedPrefix(blocks, i);
      if blocks[i] != NO_BLOCK {
        var freed := part.DeallocPage(blocks[i]);
        ok := ok && freed;
      }
      i := i + 1;
    }
    assert blocks[..i] == blocks;
  }

  lemma NamedPrefix(blocks: seq<nat>, i: nat)
    requires i < |blocks| && Distinct(blocks)
    ensures blocks[i] == NO_BLOCK ==> Named(blocks[..i + 1]) == Named(blocks[..i])
    ensures blocks[i] != NO_BLOCK ==>
      && Named(blocks[..i + 1]) == Named(blocks[..i]) + {blocks[i]}
      && blocks[i] in Named(blocks)
      && blocks[i] !in Named(blocks[..i])
  {
    var s, t := blocks[..i + 1], blocks[..i];
    forall x | x in Named(t) ensures x in Named(s) {
      var j :| 0 <= j < |t| && t[j] != NO_BLOCK && t[j] == x;
      assert s[j] == x;
    }
    if blocks[i] != NO_BLOCK {
      assert s[i] == blocks[i];
    }
  }

  /** Frees every block of a two-level map, last second-level map first. */
  method FreeTables(part: Partition, m: PageMap, size: nat) returns (ok: bool)
    requires part.Valid() && WellFormed(m, size) && size > 128
    requires Injective(View(m, size)) && Assigned(m, 0, size) <= part.used
    modifies part, part.bitmap
    ensures ok && part.Valid()
    ensures part.used == old(part.used) - Assigned(m, 0, size)
  {
    TableCover(size);
    ok := true;
    var i := |m.tables|;
    while i > 0
      invariant 0 <= i <= |m.tables|
      invariant ok && part.Valid()
      invariant part.used == old(part.used) - Assigned(m, 128 * i, size)
    {
      i := i - 1;
      NextTable(m, size, i);
      if m.tables[i].Table? {
        var freed := FreeBlocks(part, m.tables[i].blocks);
        ok := ok && freed;
      }
    }
  }

  /** A two-level map has no second-level map for a page. */
  predicate LacksTable(m: PageMap, page: nat) {
    m.Indirect? && page / 128 < |m.tables| && m.tables[page / 128].Null?
  }

  /** struct dstruct with its embedded struct dpager. */
  class PagingObject {
    const port: nat
    const partition: Partition
    var pageMap: PageMap
    var size: nat
    var errors: int
    /** The block of each page that has one. */
    ghost var pages: map<nat, nat>

    ghost predicate Valid()
      reads this`pages, this`pageMap, this`size
    {
      WellFormed(pageMap, size) && Describes(pages, pageMap, size)
    }

    /** pager_alloc. The error count is whatever the zone left in the structure: the source does not set it. */
    constructor (name: nat, part: Partition, bytes: nat, residue: int)
      requires bytes < 0x1_0000_0000
      ensures Valid() && port == name && partition == part && errors == residue
      ensures pages == map[]
      ensures size >= bytes / PAGE_SIZE && (size > 1 ==> size / 2 < bytes / PAGE_SIZE)
    {
      port := name;
      partition := part;
      errors := residue;
      var n := Grow(1, bytes / PAGE_SIZE);
      if n > 128 {
        var tables := CopyPadded([], TableCount(n), Null);
        pageMap := Indirect(tables);
      } else {
        var blocks := CopyPadded([], n, NO_BLOCK);
        pageMap := Direct(blocks);
      }
      size := n;
      pages := map[];
    }

    /** Grows the map, in each of the three cases without changing what it assigns. */
    method Extend(request: nat)
      requires Valid() && request > size
      modifies this`pages, this`pageMap, this`size
      ensures Valid()
      ensures size >= request && size / 2 < request
      ensures pages == old(pages)
    {
      var newSize := Grow(size, request);
      ghost var before := pageMap;
      if size > 128 {
        TableCover(size);
        TableCover(newSize);
        var tables := CopyPadded(pageMap.tables, TableCount(newSize), Null);
        pageMap := Indirect(tables);
        assert forall t :: t in tables ==> t == Null || t in before.tables;
      } else if newSize > 128 {
        TableCover(newSize);
        var table := CopyPadded(pageMap.blocks, 128, NO_BLOCK);
        var tables := CopyPadded([Table(table)], TableCount(newSize), Null);
        assert tables[0] == tables[..1][0];
        pageMap := Indirect(tables);
      } else {
        var blocks := CopyPadded(pageMap.blocks, newSize, NO_BLOCK);
        pageMap := Direct(blocks);
      }
      SameView(pages, before, size, pageMap, newSize);
      size := newSize;
    }

    /** The block of the page an offset falls in, or NO_BLOCK if it has none or lies outside the object. */
    method ReadOffset(offset: nat) returns (block: nat)
      requires Valid()
      ensures block == if offset / PAGE_SIZE in pages then pages[offset / PAGE_SIZE] else NO_BLOCK
    {
      var page := offset / PAGE_SIZE;
      if page >= size {
        return NO_BLOCK;
      }
      if size > 128 {
        TableCover(size);
        var table := pageMap.tables[page / 128];
        assert BlockOf(pageMap, page) == if page in pages then pages[page] else NO_BLOCK;
        if table.Null? {
          return NO_BLOCK;
        }
        return table.blocks[page % 128];
      } else {
        assert BlockOf(pageMap, page) == if page in pages then pages[page] else NO_BLOCK;
        return pageMap.blocks[page];
      }
    }

    /**
     * Finds the block of the page an offset falls in, extending the object and allocating a block as needed.
     * tableMemory says whether the kernel has memory for a second-level map, should one be needed.
     * A page that has a block keeps it; otherwise the lowest free block is added to the map, or nothing is: there is
     * no block when the partition is full or the memory is missing, and that is where the source panics.
     */
    method WriteOffset(offset: nat, tableMemory: bool) returns (block: nat)
      requires Valid() && partition.Valid()
      modifies this`pages, this`pageMap, this`size, partition, partition.bitmap
      ensures Valid() && partition.Valid()
      ensures size == old(size) || (offset / PAGE_SIZE >= old(size) && size > offset / PAGE_SIZE)
      ensures offset / PAGE_SIZE in old(pages) ==> block == old(pages)[offset / PAGE_SIZE]
      ensures block == NO_BLOCK || offset / PAGE_SIZE in old(pages) ==>
        pages == old(pages) && partition.used == old(partition.used)
      ensures block != NO_BLOCK && offset / PAGE_SIZE !in old(pages) ==>
        && block < partition.totalSize
        && block !in old(partition.used)
        && partition.used == old(partition.used) + {block}
        && pages == old(pages)[offset / PAGE_SIZE := block]
      ensures block == NO_BLOCK <==>
        && offset / PAGE_SIZE !in old(pages)
        && (old(partition.free) == 0 || (!tableMemory && LacksTable(pageMap, offset / PAGE_SIZE)))
    {
      var page := offset / PAGE_SIZE;
      if page >= size {
        Extend(page + 1);
      }
      if size > 128 {
        TableCover(size);
        if pageMap.tables[page / 128].Null? {
          NoEntry(pages, pageMap, size, page);
          if !tableMemory {
            return NO_BLOCK;
          }
          AddTable(page / 128);
        }
      }
      block := BlockOf(pageMap, page);
      if block == NO_BLOCK {
        block := partition.AllocPage();
        if block == NO_BLOCK {
          return NO_BLOCK;
        }
        SetEntry(page, block);
      }
    }

    /** Fills in a missing second-level map, with no block assigned. */
    method AddTable(t: nat)
      requires Valid() && size > 128 && t < |pageMap.tables| && pageMap.tables[t].Null?
      modifies this`pages, this`pageMap
      ensures Valid() && pageMap.Indirect? && t < |pageMap.tables| && pageMap.tables[t].Table?
      ensures pages == old(pages)
    {
      var table := CopyPadded([], 128, NO_BLOCK);
      ghost var before := pageMap;
      pageMap := Indirect(pageMap.tables[t := Table(table)]);
      SameView(pages, before, size, pageMap, size);
    }

    /** Stores a block number in the entry of a page whose map entry exists. */
    method SetEntry(page: nat, block: nat)
      requires Valid() && page < size && block != NO_BLOCK
      requires pageMap.Indirect? && page / 128 < |pageMap.tables| ==> pageMap.tables[page / 128].Table?
      modifies this`pages, this`pageMap
      ensures Valid()
      ensures pages == old(pages)[page := block] && !LacksTable(pageMap, page)
    {
      ghost var before := pageMap;
      if size > 128 {
        TableCover(size);
        var table := pageMap.tables[page / 128].blocks[page % 128 := block];
        pageMap := Indirect(pageMap.tables[page / 128 := Table(table)]);
        assert forall p: nat :: p < size && p / 128 == page / 128 && p % 128 == page % 128 ==> p == page;
      } else {
        pageMap := Direct(pageMap.blocks[page := block]);
      }
      pages := pages[page := block];
      assert forall p: nat :: p < size ==> BlockOf(pageMap, p) == if p == page then block else BlockOf(before, p);
    }

    /** Frees every block of the object, and no other; none of the calls panics. */
    method Dealloc() returns (ok: bool)
      requires Valid() && partition.Valid()
      requires Injective(pages) && pages.Values <= partition.used
      modifies partition, partition.bitmap
      ensures ok && partition.Valid()
      ensures partition.used == old(partition.used) - pages.Values
    {
      DescribesView(pages, pageMap, size);
      AssignedIsValues(pageMap, size);
      if size > 128 {
        ok := FreeTables(partition, pageMap, size);
      } else {
        DirectNames(pageMap, size);
        ok := FreeBlocks(partition, pageMap.blocks);
      }
    }
  }

  /** What remains to be freed after second-level map t is freed too. */
  lemma NextTable(m: PageMap, size: nat, t: nat)
    requires WellFormed(m, size) && size > 128 && t < |m.tables| && Injective(View(m, size))
    ensures 128 * (t + 1) <= size
    ensures m.tables[t].Null? ==> Assigned(m, 128 * t, size) == Assigned(m, 128 * (t + 1), size)
    ensures m.tables[t].Table? ==>
      && Distinct(m.tables[t].blocks)
      && Assigned(m, 128 * t, size) == Assigned(m, 128 * (t + 1), size) + Named(m.tables[t].blocks)
      && Named(m.tables[t].blocks) <= Assigned(m, 0, size) - Assigned(m, 128 * (t + 1), size)
  {
    TableCover(size);
    TableNames(m, size, t);
    AssignedDisjoint(m, size, 128 * t, 128 * (t + 1), size);
    AssignedDisjoint(m, size, 0, 128 * t, size);
  }

  lemma DirectNames(m: PageMap, size: nat)
    requires WellFormed(m, size) && size <= 128 && Injective(View(m, size))
    ensures Named(m.blocks) == Assigned(m, 0, size) && Distinct(m.blocks)
  {
    forall i, j | 0 <= i < j < |m.blocks| && m.blocks[i] != NO_BLOCK ensures m.blocks[i] != m.blocks[j] {
      var v := View(m, size);
      assert i in v;
      if m.blocks[j] != NO_BLOCK {
        assert j in v;
      }
    }
    forall b | b in Assigned(m, 0, size) ensures b in Named(m.blocks) {
      var p: nat :| p < size && BlockOf(m, p) != NO_BLOCK && BlockOf(m, p) == b;
      assert m.blocks[p] == b;
    }
    forall b | b in Named(m.blocks) ensures b in Assigned(m, 0, size) {
      var i :| 0 <= i < |m.blocks| && m.blocks[i] != NO_BLOCK && m.blocks[i] == b;
      assert BlockOf(m, i) == b;
    }
  }
}
