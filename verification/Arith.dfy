/** Multiples, quotients and remainders by a variable divisor, and powers of two. */
module Arith {
  lemma MulMonotone(a: int, b: int, n: nat)
    requires a <= b
    ensures a * n <= b * n
  {
  }

  lemma Distribute(a: int, b: int, n: nat)
    ensures (a + b) * n == a * n + b * n
  {
  }

  /** The quotient and remainder of a number written as k * n + r. */
  lemma DivModUnique(k: int, n: nat, r: nat)
    requires r < n
    ensures (k * n + r) / n == k
    ensures (k * n + r) % n == r
  {
    var x := k * n + r;
    var d := k - x / n;
    assert x == x / n * n + x % n;
    assert d * n == x % n - r by {
      assert (k - x / n) * n == k * n - x / n * n;
    }
    if d >= 1 {
      MulMonotone(1, d, n);
    } else if d <= -1 {
      MulMonotone(d, -1, n);
    }
  }

  function P2(n: nat): (p: nat)
    ensures p > 0
  {
    if n == 0 then 1 else 2 * P2(n - 1)
  }

  lemma {:induction false} P2Sum(a: nat, b: nat)
    ensures P2(a + b) == P2(a) * P2(b)
    decreases b
  {
    if b == 0 {
    } else {
      P2Sum(a, b - 1);
      assert P2(a) * (2 * P2(b - 1)) == 2 * (P2(a) * P2(b - 1));
    }
  }

  lemma TinyPowers()
    ensures P2(1) == 2 && P2(2) == 4
  {
    assert P2(0) == 1;
  }

  lemma SmallPowers()
    ensures P2(1) == 2 && P2(2) == 4 && P2(4) == 16 && P2(8) == 256
    ensures P2(16) == 0x1_0000 && P2(32) == 0x1_0000_0000 && P2(64) == 0x1_0000_0000_0000_0000
  {
    hide P2;
    TinyPowers();
    P2Sum(2, 2);
    P2Sum(4, 4);
    P2Sum(8, 8);
    P2Sum(16, 16);
    P2Sum(32, 32);
  }
}
