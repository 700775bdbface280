/** Facts about products, quotients and powers that the proofs need. */
module Arith {

  lemma Product(a: nat, b: nat)
    ensures 0 <= a * b
  {
  }

  lemma AtLeastOnce(d: int, n: int)
    requires d != 0 && 0 < n
    ensures n <= d * n || d * n <= -n
  {
    if 0 < d {
      Product(d - 1, n);
      assert d * n == (d - 1) * n + n;
    } else {
      Product(-d - 1, n);
      assert -(d * n) == (-d - 1) * n + n;
    }
  }

  /** Quotient and remainder are what they have to be. */
  lemma DivModIs(x: nat, n: nat, q: nat, r: nat)
    requires r < n && x == q * n + r
    ensures x / n == q && x % n == r
  {
    var d := x / n - q;
    assert d * n == r - x % n;
    if d != 0 {
      AtLeastOnce(d, n);
    }
  }

  lemma NextRemainder(t: nat, n: nat)
    requires 0 < n
    ensures (t + 1) % n == if t % n + 1 == n then 0 else t % n + 1
  {
    var q, r := t / n, t % n;
    assert t == q * n + r;
    if r + 1 == n {
      assert t + 1 == (q + 1) * n;
      DivModIs(t + 1, n, q + 1, 0);
    } else {
      DivModIs(t + 1, n, q, r + 1);
    }
  }

  function Pow(b: nat, k: nat): nat {
    if k == 0 then 1 else b * Pow(b, k - 1)
  }

  lemma {:induction false} PowSum(b: nat, i: nat, j: nat)
    ensures Pow(b, i + j) == Pow(b, i) * Pow(b, j)
  {
    if i != 0 {
      PowSum(b, i - 1, j);
      assert b * (Pow(b, i - 1) * Pow(b, j)) == b * Pow(b, i - 1) * Pow(b, j);
    }
  }

  lemma {:induction false} PowPositive(b: nat, k: nat)
    requires 0 < b
    ensures 0 < Pow(b, k)
  {
    if k != 0 {
      PowPositive(b, k - 1);
      Product(b - 1, Pow(b, k - 1));
      assert b * Pow(b, k - 1) == (b - 1) * Pow(b, k - 1) + Pow(b, k - 1);
    }
  }
}
