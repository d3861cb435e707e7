/** The paging partition: a bitmap of blocks with a count of the free ones. */
module PagingPartition {

  const BYTEMASK: bv8 := 0xff
  /** The 32-bit value that stands for "no block assigned". */
  const NO_BLOCK: nat := 0xffff_ffff
  const PAGE_SIZE: nat := 4096

  function HowMany(a: nat, b: nat): nat
    requires b > 0
  {
    (a + b - 1) / b
  }

  /** 1 << bit. */
  function Mask(bit: nat): bv8
    requires bit < 8
  {
    match bit
    case 0 => 0x01
    case 1 => 0x02
    case 2 => 0x04
    case 3 => 0x08
    case 4 => 0x10
    case 5 => 0x20
    case 6 => 0x40
    case _ => 0x80
  }

  predicate Bit(bytes: seq<bv8>, k: nat)
    requires k < 8 * |bytes|
  {
    bytes[k / 8] & Mask(k % 8) != 0
  }

  /** A set of blocks is the set of those whose bit is set. */
  ghost predicate Marks(used: set<nat>, bytes: seq<bv8>) {
    && (forall k: nat {:trigger Bit(bytes, k)} :: k < 8 * |bytes| ==> (k in used <==> Bit(bytes, k)))
    && (forall k :: k in used ==> k < 8 * |bytes|)
  }

  /** The blocks whose bit is set. */
  function SetBits(bytes: seq<bv8>): set<nat> {
    set k: nat | k < 8 * |bytes| && Bit(bytes, k)
  }

  lemma MarksSetBits(used: set<nat>, bytes: seq<bv8>)
    requires Marks(used, bytes)
    ensures used == SetBits(bytes)
  {
  }

  lemma MaskValues()
    ensures Mask(0) == 1 && Mask(1) == 2 && Mask(2) == 4 && Mask(3) == 8
    ensures Mask(4) == 16 && Mask(5) == 32 && Mask(6) == 64 && Mask(7) == 128
  {
  }

  /** Or-ing in one bit sets that bit and no other; and-ing with its complement clears that bit and no other. */
  lemma MaskUpdate(b: bv8, i: nat, j: nat)
    requires i < 8 && j < 8
    ensures ((b | Mask(i)) & Mask(j) != 0) <==> (i == j || b & Mask(j) != 0)
    ensures ((b & !Mask(i)) & Mask(j) != 0) <==> (i != j && b & Mask(j) != 0)
  {
    MaskValues();
  }

  lemma FullByte(b: bv8)
    ensures b == BYTEMASK <==> forall j: nat | j < 8 :: b & Mask(j) != 0
  {
    MaskValues();
    if forall j: nat | j < 8 :: b & Mask(j) != 0 {
      assert b & Mask(0) != 0 && b & Mask(1) != 0 && b & Mask(2) != 0 && b & Mask(3) != 0;
      assert b & Mask(4) != 0 && b & Mask(5) != 0 && b & Mask(6) != 0 && b & Mask(7) != 0;
    }
  }

  lemma MarksAfterSet(used: set<nat>, bytes: seq<bv8>, k: nat)
    requires k < 8 * |bytes| && Marks(used, bytes)
    ensures Marks(used + {k}, bytes[k / 8 := bytes[k / 8] | Mask(k % 8)])
  {
    var after := bytes[k / 8 := bytes[k / 8] | Mask(k % 8)];
    forall j: nat | j < 8 * |bytes| ensures j in used + {k} <==> Bit(after, j) {
      assert j in used <==> Bit(bytes, j);
      if j / 8 == k / 8 {
        MaskUpdate(bytes[k / 8], k % 8, j % 8);
      }
    }
  }

  lemma MarksAfterClear(used: set<nat>, bytes: seq<bv8>, k: nat)
    requires k < 8 * |bytes| && Marks(used, bytes)
    ensures Marks(used - {k}, bytes[k / 8 := bytes[k / 8] & !Mask(k % 8)])
  {
    var after := bytes[k / 8 := bytes[k / 8] & !Mask(k % 8)];
    forall j: nat | j < 8 * |bytes| ensures j in used - {k} <==> Bit(after, j) {
      assert j in used <==> Bit(bytes, j);
      if j / 8 == k / 8 {
        MaskUpdate(bytes[k / 8], k % 8, j % 8);
      }
    }
  }

  lemma BitSet(used: set<nat>, bytes: seq<bv8>, byte: nat, bit: nat)
    requires byte < |bytes| && bit < 8 && Marks(used, bytes)
    ensures Marks(used + {byte * 8 + bit}, bytes[byte := bytes[byte] | Mask(bit)])
  {
    var k := byte * 8 + bit;
    assert k / 8 == byte && k % 8 == bit;
    MarksAfterSet(used, bytes, k);
  }

  lemma BitCleared(used: set<nat>, bytes: seq<bv8>, byte: nat, bit: nat)
    requires byte < |bytes| && bit < 8 && Marks(used, bytes)
    ensures Marks(used - {byte * 8 + bit}, bytes[byte := bytes[byte] & !Mask(bit)])
  {
    var k := byte * 8 + bit;
    assert k / 8 == byte && k % 8 == bit;
    MarksAfterClear(used, bytes, k);
  }

  function Below(n: nat): (s: set<nat>)
    ensures |s| == n
    ensures forall k: nat :: k in s <==> k < n
  {
    if n == 0 then {} else Below(n - 1) + {n - 1}
  }

  lemma {:induction false} SubsetSize<T>(a: set<T>, b: set<T>)
    requires a <= b
    ensures |a| <= |b|
  {
    if a != {} {
      var x :| x in a;
      SubsetSize(a - {x}, b - {x});
    }
  }

  /** A set of fewer than n elements misses some number below n. */
  lemma SomeMissing(s: set<nat>, n: nat)
    requires |s| < n
    ensures exists k: nat :: k < n && k !in s
  {
    if forall k: nat :: k < n ==> k in s {
      assert Below(n) <= s;
      SubsetSize(Below(n), s);
    }
  }

  class Partition {
    const totalSize: nat
    var free: nat
    const bitmap: array<bv8>

    /** The allocated blocks. */
    ghost var used: set<nat>

    /** The set bits are exactly the allocated blocks, lie below totalSize, and are counted exactly. */
    ghost predicate Valid()
      reads this, bitmap
    {
      && totalSize < NO_BLOCK
      && bitmap.Length == HowMany(totalSize, 8)
      && Marks(used, bitmap[..])
      && (forall k :: k in used ==> k < totalSize)
      && free + |used| == totalSize
    }

    constructor (size: nat)
      requires size < 0x1_0000_0000
      ensures Valid() && fresh(bitmap)
      ensures totalSize == size / PAGE_SIZE && free == totalSize && used == {}
    {
      var pages := size / PAGE_SIZE;
      totalSize := pages;
      free := pages;
      used := {};
      bitmap := new bv8[HowMany(pages, 8)](_ => 0);
      new;
      assert forall k: nat | k < 8 * |bitmap[..]| :: !Bit(bitmap[..], k);
    }

    /** First scan of the allocator: the first byte that is not full. Its panic, byte == limit, cannot happen. */
    method FindByte() returns (byte: nat)
      requires Valid() && free != 0
      ensures byte < bitmap.Length && bitmap[byte] != BYTEMASK
      ensures forall b: nat :: b < byte ==> bitmap[b] == BYTEMASK
    {
      SomeMissing(used, totalSize);
      ghost var hole: nat :| hole < totalSize && hole !in used;
      assert !Bit(bitmap[..], hole);
      FullByte(bitmap[hole / 8]);

      var limit := HowMany(totalSize, 8);
      byte := 0;
      while byte < limit && bitmap[byte] == BYTEMASK
        invariant byte <= limit
        invariant forall b: nat :: b < byte ==> bitmap[b] == BYTEMASK
      {
        byte := byte + 1;
      }
    }

    /** Second scan: the first clear bit of that byte. Its panic, bit == 8, cannot happen. */
    method FindBit(byte: nat) returns (bit: nat)
      requires byte < bitmap.Length && bitmap[byte] != BYTEMASK
      ensures bit < 8 && bitmap[byte] & Mask(bit) == 0
      ensures forall j: nat :: j < bit ==> bitmap[byte] & Mask(j) != 0
    {
      FullByte(bitmap[byte]);
      bit := 0;
      while bit < 8 && bitmap[byte] & Mask(bit) != 0
        invariant bit <= 8
        invariant forall j: nat :: j < bit ==> bitmap[byte] & Mask(j) != 0
      {
        bit := bit + 1;
      }
    }

    /** First fit: the lowest clear bit is taken, and the call fails only when no block is free. */
    method AllocPage() returns (r: nat)
      requires Valid()
      modifies this, bitmap
      ensures Valid()
      ensures r == NO_BLOCK <==> old(free) == 0
      ensures r == NO_BLOCK ==> free == old(free) && used == old(used)
      ensures r != NO_BLOCK ==>
        && r < totalSize
        && r !in old(used)
        && (forall k: nat :: k < r ==> k in old(used))
        && free == old(free) - 1
        && used == old(used) + {r}
    {
      if free == 0 {
        return NO_BLOCK;
      }
      var byte := FindByte();
      var bit := FindBit(byte);
      r := byte * 8 + bit;
      FirstClear(used, bitmap[..], byte, bit);
      SomeMissing(used, totalSize);
      Mark(byte, bit);
      used := used + {r};
      free := free - 1;
    }

    method Mark(byte: nat, bit: nat)
      requires byte < bitmap.Length && bit < 8 && Marks(used, bitmap[..])
      modifies bitmap
      ensures Marks(used + {byte * 8 + bit}, bitmap[..])
    {
      ghost var before := bitmap[..];
      var marked := bitmap[byte] | Mask(bit);
      bitmap[byte] := marked;
      assert bitmap[..] == before[byte := marked];
      BitSet(used, before, byte, bit);
    }

    method Clear(byte: nat, bit: nat)
      requires byte < bitmap.Length && bit < 8 && Marks(used, bitmap[..])
      modifies bitmap
      ensures Marks(used - {byte * 8 + bit}, bitmap[..])
    {
      ghost var before := bitmap[..];
      var cleared := bitmap[byte] & !Mask(bit);
      bitmap[byte] := cleared;
      assert bitmap[..] == before[byte := cleared];
      BitCleared(used, before, byte, bit);
    }

    /** Returns false where the source panics. The free count stays exact if and only if the block was allocated. */
    method DeallocPage(page: nat) returns (ok: bool)
      requires bitmap.Length == HowMany(totalSize, 8) && Marks(used, bitmap[..])
      modifies this, bitmap
      ensures ok <==> page < totalSize
      ensures Marks(used, bitmap[..])
      ensures !ok ==> free == old(free) && used == old(used)
      ensures ok ==> free == old(free) + 1 && used == old(used) - {page}
      ensures ok && old(Valid()) ==> (Valid() <==> page in old(used))
    {
      if page >= totalSize {
        return false;
      }
      Clear(page / 8, page % 8);
      used := used - {page};
      free := free + 1;
      return true;
    }
  }

  /** The first clear bit of the first byte that is not full is the lowest block not in use. */
  lemma FirstClear(used: set<nat>, bytes: seq<bv8>, byte: nat, bit: nat)
    requires Marks(used, bytes) && byte < |bytes| && bit < 8
    requires forall b: nat :: b < byte ==> bytes[b] == BYTEMASK
    requires forall j: nat :: j < bit ==> bytes[byte] & Mask(j) != 0
    requires bytes[byte] & Mask(bit) == 0
    ensures byte * 8 + bit !in used
    ensures forall k: nat :: k < byte * 8 + bit ==> k in used
  {
    var first := byte * 8 + bit;
    assert first / 8 == byte && first % 8 == bit;
    assert !Bit(bytes, first);
    forall k: nat | k < first ensures k in used {
      if k / 8 < byte {
        FullByte(bytes[k / 8]);
      } else {
        assert k / 8 == byte && k % 8 < bit;
      }
      assert Bit(bytes, k);
    }
  }
}
