/** The shifts and masks of fs.h, and the divisions they stand for. */
module BlockMacros {
  import opened Arithmetic
  import opened BootFs

  /** The bits that two numbers have in common. */
  function BitAnd(a: nat, b: nat): nat {
    if a == 0 || b == 0 then 0 else 2 * BitAnd(a / 2, b / 2) + (a % 2) * (b % 2)
  }

  function ShiftRight(a: nat, k: nat): nat
    decreases k
  {
    if k == 0 then a else ShiftRight(a / 2, k - 1)
  }

  /** The fields of a superblock as newfs writes them: a power of two, its exponent, and the mask of what lies above. */
  predicate Agree(bsize: nat, bshift: nat, bmask: nat) {
    bshift < 32 && bsize == Pow2(bshift) && bmask == WORD - bsize
  }

  /** blkoff: and with the complement of the mask. */
  function BlkOff(bmask: nat, loc: nat): nat
    requires bmask < WORD
  {
    BitAnd(loc, WORD - 1 - bmask)
  }

  /** lblkno */
  function LblkNo(bshift: nat, loc: nat): nat {
    ShiftRight(loc, bshift)
  }

  /** blkroundup and fragroundup, in 32 bits. */
  function MacroRoundUp(bsize: nat, bmask: nat, size: nat): nat
    requires bsize > 0
  {
    BitAnd((size + bsize - 1) % WORD, bmask)
  }

  lemma {:induction false} LowBits(a: nat, k: nat)
    ensures BitAnd(a, Pow2(k) - 1) == Remainder(a, Pow2(k))
    decreases k
  {
    if a == 0 {
      Division(a, Pow2(k), 0, 0);
    } else if k > 0 {
      LowBits(a / 2, k - 1);
      Halves(a, Pow2(k - 1));
      LowMask(k);
    }
  }

  lemma LowMask(k: nat)
    requires k > 0
    ensures (Pow2(k) - 1) / 2 == Pow2(k - 1) - 1 && (Pow2(k) - 1) % 2 == 1
  {
  }

  /** A mask of the bits from k up to n takes off the remainder. */
  lemma {:induction false} HighBits(a: nat, k: nat, n: nat)
    requires k <= n && a < Pow2(n)
    ensures Pow2(k) <= Pow2(n)
    ensures BitAnd(a, Pow2(n) - Pow2(k)) == a - Remainder(a, Pow2(k))
    decreases n
  {
    if k == 0 {
      AllBits(a, n);
    } else {
      HighBits(a / 2, k - 1, n - 1);
      Halves(a, Pow2(k - 1));
      var mask := Pow2(n) - Pow2(k);
      assert mask / 2 == Pow2(n - 1) - Pow2(k - 1) && mask % 2 == 0;
      if a == 0 {
        Division(a, Pow2(k), 0, 0);
      }
    }
  }

  lemma AllBits(a: nat, n: nat)
    requires a < Pow2(n)
    ensures BitAnd(a, Pow2(n) - 1) == a
  {
    LowBits(a, n);
    Division(a, Pow2(n), 0, a);
  }

  lemma {:induction false} ShiftDivides(a: nat, k: nat)
    ensures ShiftRight(a, k) == Quotient(a, Pow2(k))
    decreases k
  {
    if k > 0 {
      ShiftDivides(a / 2, k - 1);
      Halves(a, Pow2(k - 1));
    }
  }

  /** On every 32-bit offset the macros are the remainder and the quotient by the block size. */
  lemma MacrosDivide(fs: Fs, bshift: nat, bmask: nat, loc: nat)
    requires Agree(fs.bsize, bshift, bmask) && loc < WORD
    ensures BlkOff(bmask, loc) == BlockOff(fs, loc)
    ensures LblkNo(bshift, loc) == BlockNo(fs, loc)
  {
    LowBits(loc, bshift);
    ShiftDivides(loc, bshift);
  }

  lemma {:induction false} RoundUpIs(n: nat, unit: nat)
    requires unit > 0
    ensures RoundUp(n, unit) == unit * Quotient(n + unit - 1, unit)
    decreases n
  {
    if n == 0 {
      Division(unit - 1, unit, 0, unit - 1);
    } else if n <= unit {
      Division(n + unit - 1, unit, 1, n - 1);
    } else {
      RoundUpIs(n - unit, unit);
      Parts(n - 1, unit);
      Division(n + unit - 1, unit, Quotient(n - 1, unit) + 1, Remainder(n - 1, unit));
    }
  }

  lemma Rounded(sum: nat, size: nat, bsize: nat)
    requires 0 < bsize <= WORD && size < WORD && sum == (size + bsize - 1) % WORD
    ensures sum - Remainder(sum, bsize) == bsize * Quotient(size + bsize - 1, bsize) <==> size + bsize - 1 < WORD
    ensures size + bsize - 1 >= WORD ==> sum - Remainder(sum, bsize) == 0
  {
    Parts(size + bsize - 1, bsize);
    if size + bsize - 1 >= WORD {
      Division(sum, bsize, 0, sum);
    }
  }

  /** Rounding up is right exactly while it stays below 2^32; beyond that the result is zero. */
  lemma RoundsUpIff(bsize: nat, bshift: nat, bmask: nat, size: nat)
    requires Agree(bsize, bshift, bmask) && size < WORD
    ensures MacroRoundUp(bsize, bmask, size) == RoundUp(size, bsize) <==> size + bsize - 1 < WORD
    ensures size + bsize - 1 >= WORD ==> MacroRoundUp(bsize, bmask, size) == 0
  {
    WordIsPower();
    var sum := (size + bsize - 1) % WORD;
    HighBits(sum, bshift, 32);
    RoundUpIs(size, bsize);
    Rounded(sum, size, bsize);
  }
}
