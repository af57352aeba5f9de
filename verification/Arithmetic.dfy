/** Remainders by an unknown divisor, and the minimum. */
module Arithmetic {

  function Min(a: nat, b: nat): nat {
    if a <= b then a else b
  }

  /** A quotient and a small enough rest determine the remainder. */
  lemma RemainderUnique(x: int, d: nat, q: int, r: nat)
    requires r < d && x == q * d + r
    ensures x % d == r
  {
    var k := x / d - q;
    assert k * d == r - x % d;
  }

  /** One more or one less moves the remainder round the divisor. */
  lemma NextRemainder(x: int, d: nat)
    requires d > 0
    ensures (x + 1) % d == if x % d + 1 == d then 0 else x % d + 1
    ensures (x - 1) % d == if x % d == 0 then d - 1 else x % d - 1
  {
    var q, r := x / d, x % d;
    assert x == q * d + r;
    if r + 1 == d {
      assert (q + 1) * d == q * d + d;
      RemainderUnique(x + 1, d, q + 1, 0);
    } else {
      RemainderUnique(x + 1, d, q, r + 1);
    }
    if r == 0 {
      assert (q - 1) * d == q * d - d;
      RemainderUnique(x - 1, d, q - 1, d - 1);
    } else {
      RemainderUnique(x - 1, d, q, r - 1);
    }
  }
}
