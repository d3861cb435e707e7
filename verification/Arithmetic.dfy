/** Division and powers of two, by names that keep the nonlinear arithmetic in one place. */
module Arithmetic {

  const WORD: nat := 0x1_0000_0000

  function Pow2(k: nat): (r: nat)
    ensures r > 0
  {
    if k == 0 then 1 else 2 * Pow2(k - 1)
  }

  lemma WordIsPower()
    ensures Pow2(32) == WORD
  {
    assert Pow2(8) == 0x100;
    assert Pow2(16) == 0x1_0000;
    assert Pow2(24) == 0x100_0000;
  }

  function Quotient(a: nat, d: nat): nat
    requires d > 0
  {
    a / d
  }

  function Remainder(a: nat, d: nat): nat
    requires d > 0
  {
    a % d
  }

  lemma Parts(a: nat, d: nat)
    requires d > 0
    ensures a == d * Quotient(a, d) + Remainder(a, d) && Remainder(a, d) < d
  {
  }

  lemma Division(a: nat, d: nat, q: nat, r: nat)
    requires r < d && a == d * q + r
    ensures Quotient(a, d) == q && Remainder(a, d) == r
  {
    Parts(a, d);
    if Quotient(a, d) != q {
      Apart(d, Quotient(a, d), q);
      Apart(d, q, Quotient(a, d));
    }
  }

  lemma Apart(d: nat, p: nat, q: nat)
    ensures p > q ==> d * p >= d * q + d
  {
    if p > q {
      var k: nat := p - q - 1;
      assert p == q + 1 + k;
      assert d * (q + 1 + k) == d * q + d + d * k;
    }
  }

  lemma Halves(a: nat, n: nat)
    requires n > 0
    ensures Quotient(a / 2, n) == Quotient(a, 2 * n)
    ensures Remainder(a, 2 * n) == 2 * Remainder(a / 2, n) + a % 2
  {
    var q, r := Quotient(a / 2, n), Remainder(a / 2, n);
    Parts(a / 2, n);
    assert 2 * (n * q) == (2 * n) * q;
    Division(a, 2 * n, q, 2 * r + a % 2);
  }
}
