/** The bits of 32-bit values: what shifts and the bitwise operators do to each of them. */
module FilterBits {

  import opened Arithmetic
  import opened FilterCode

  predicate Bit(x: nat, i: nat) {
    if i == 0 then x % 2 == 1 else Bit(x / 2, i - 1)
  }

  /** A boolean operator applied to each of the low bits of two numbers. */
  function Bitwise(f: (bool, bool) -> bool, x: nat, y: nat, width: nat): nat {
    if width == 0 then 0
    else 2 * Bitwise(f, x / 2, y / 2, width - 1) + (if f(x % 2 == 1, y % 2 == 1) then 1 else 0)
  }

  /** The result stays in its bits, and each of them is the operator of the two bits there. */
  lemma {:induction false} BitwiseBits(f: (bool, bool) -> bool, x: nat, y: nat, width: nat, i: nat)
    requires i < width
    ensures Bitwise(f, x, y, width) < Pow2(width)
    ensures Bit(Bitwise(f, x, y, width), i) == f(Bit(x, i), Bit(y, i))
    decreases width
  {
    if width > 1 {
      BitwiseBits(f, x / 2, y / 2, width - 1, if i > 0 then i - 1 else 0);
    }
    var b := if f(x % 2 == 1, y % 2 == 1) then 1 else 0;
    assert Bitwise(f, x, y, width) == 2 * Bitwise(f, x / 2, y / 2, width - 1) + b;
  }

  /** Numbers with the same bits are the same. */
  lemma {:induction false} BitsDecide(x: nat, y: nat, width: nat)
    requires x < Pow2(width) && y < Pow2(width)
    requires forall i: nat :: i < width ==> Bit(x, i) == Bit(y, i)
    ensures x == y
    decreases width
  {
    if width > 0 {
      assert Bit(x, 0) == Bit(y, 0);
      forall i: nat | i < width - 1 ensures Bit(x / 2, i) == Bit(y / 2, i) {
        assert Bit(x, i + 1) == Bit(y, i + 1);
      }
      BitsDecide(x / 2, y / 2, width - 1);
    }
  }

  lemma {:induction false} ModBits(z: nat, width: nat, i: nat)
    requires i < width
    ensures Bit(Remainder(z, Pow2(width)), i) == Bit(z, i)
    decreases width
  {
    Halves(z, Pow2(width - 1));
    if i > 0 {
      ModBits(z / 2, width - 1, i - 1);
    }
  }

  lemma {:induction false} TimesBits(x: nat, n: nat, i: nat)
    ensures Bit(x * Pow2(n), i) <==> i >= n && Bit(x, i - n)
    decreases n
  {
    if n > 0 {
      Doubled(x, n);
      if i > 0 {
        TimesBits(x, n - 1, i - 1);
      }
    }
  }

  lemma Doubled(x: nat, n: nat)
    requires n > 0
    ensures x * Pow2(n) == 2 * (x * Pow2(n - 1))
    ensures x * Pow2(n) / 2 == x * Pow2(n - 1) && x * Pow2(n) % 2 == 0
  {
    assert x * Pow2(n) == x * (2 * Pow2(n - 1)) == 2 * (x * Pow2(n - 1));
  }

  /** A bit above a number. */
  lemma {:induction false} BitAbove(a: nat, k: nat, i: nat)
    requires a < Pow2(k)
    ensures Bit(a + Pow2(k), i) <==> i == k || Bit(a, i)
    ensures i >= k ==> !Bit(a, i)
    decreases k
  {
    if k == 0 {
      NoBits(i);
      if i > 0 {
        NoBits(i - 1);
      }
    } else if i > 0 {
      BitAbove(a / 2, k - 1, i - 1);
      assert (a + Pow2(k)) / 2 == a / 2 + Pow2(k - 1);
    }
  }

  lemma {:induction false} NoBits(i: nat)
    ensures !Bit(0, i)
  {
    if i > 0 {
      NoBits(i - 1);
    }
  }

  // ---------------------------------------------------------------- shifts of 32-bit values

  /** The value as a signed number, and back. */
  function Signed(x: Value): int {
    if x < 0x8000_0000 then x else x - WORD
  }

  function Unsigned(v: int): Value {
    v % WORD
  }

  /** One place to the right, with a copy of the sign. */
  function HalfSigned(x: Value): Value {
    x / 2 + if x < 0x8000_0000 then 0 else 0x8000_0000
  }

  lemma HalfSignedBits(x: Value, i: nat)
    requires i < 32
    ensures Bit(HalfSigned(x), i) == Bit(x, if i < 31 then i + 1 else 31)
  {
    HalfPower();
    BitAbove(x / 2, 31, i);
    if x >= 0x8000_0000 {
      BitAbove(x - 0x8000_0000, 31, 31);
    } else {
      BitAbove(x, 31, 31);
    }
  }

  lemma HalfPower()
    ensures Pow2(31) == 0x8000_0000
  {
    WordIsPower();
  }

  /** The greatest number of times that a power of two goes into a number. */
  function Floor(v: int, n: nat): int {
    v / Pow2(n)
  }

  lemma {:induction false} ShiftTurn(v: int, n: nat)
    requires n > 0
    ensures Floor(v, n) == Floor(v, n - 1) / 2
  {
    var p, q := Pow2(n - 1), v / Pow2(n - 1);
    var r := v % p;
    assert v == p * q + r;
    var h, b := q / 2, q % 2;
    Rebuild(v, p, q, r, h, b);
  }

  lemma Rebuild(v: int, p: nat, q: int, r: int, h: int, b: int)
    requires p > 0 && v == p * q + r && 0 <= r < p && q == 2 * h + b && 0 <= b < 2
    ensures v / (2 * p) == h
  {
    assert p * q == p * (2 * h + b) == (2 * p) * h + p * b;
    assert 0 <= p * b + r < 2 * p;
    FloorIs(v, 2 * p, h, p * b + r);
  }

  lemma FloorIs(v: int, d: nat, h: int, r: int)
    requires d > 0 && v == d * h + r && 0 <= r < d
    ensures v / d == h
  {
    var h', r' := v / d, v % d;
    assert v == d * h' + r';
    Further(d, h, h');
    Further(d, h', h);
  }

  lemma Further(d: nat, p: int, q: int)
    ensures p > q ==> d * p >= d * q + d
  {
    if p > q {
      var k: nat := p - q - 1;
      assert d * (q + 1 + k) == d * q + d + d * k;
    }
  }

  /** The signed value divided by a power of two. */
  function ShiftSigned(x: Value, n: nat): Value {
    Unsigned(Floor(Signed(x), n))
  }

  lemma {:induction false} ShiftIsHalving(x: Value, n: nat)
    ensures -0x8000_0000 <= Floor(Signed(x), n) < 0x8000_0000
    ensures ShiftSigned(x, n) == if n == 0 then x else HalfSigned(ShiftSigned(x, n - 1))
  {
    if n == 0 {
      assert Floor(Signed(x), 0) == Signed(x);
      UnsignedSigned(x);
    } else {
      ShiftIsHalving(x, n - 1);
      ShiftTurn(Signed(x), n);
      HalfOf(Floor(Signed(x), n - 1));
    }
  }

  lemma UnsignedSigned(x: Value)
    ensures Unsigned(Signed(x)) == x
  {
  }

  lemma HalfOf(w: int)
    requires -0x8000_0000 <= w < 0x8000_0000
    ensures Unsigned(w / 2) == HalfSigned(Unsigned(w))
  {
    assert Unsigned(w) == if w >= 0 then w else w + WORD;
  }

  /** Each bit comes from n places to the left, and the sign from beyond the last. */
  lemma {:induction false} ShiftSignedBits(x: Value, n: nat, i: nat)
    requires i < 32
    ensures Bit(ShiftSigned(x, n), i) == Bit(x, if i + n < 32 then i + n else 31)
    decreases n
  {
    ShiftIsHalving(x, n);
    if n > 0 {
      HalfSignedBits(ShiftSigned(x, n - 1), i);
      ShiftSignedBits(x, n - 1, if i < 31 then i + 1 else 31);
    }
  }

  /** A product in 32 bits. */
  function ShiftUp(x: Value, n: nat): Value {
    Remainder(x * Pow2(n), WORD)
  }

  /** Each bit comes from n places to the right, and zeros from beyond the first. */
  lemma ShiftUpBits(x: Value, n: nat, i: nat)
    requires i < 32
    ensures Bit(ShiftUp(x, n), i) <==> i >= n && Bit(x, i - n)
  {
    WordIsPower();
    ModBits(x * Pow2(n), 32, i);
    TimesBits(x, n, i);
  }
}
