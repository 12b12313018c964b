/** Division facts shared by the modules that reduce numbers modulo something. */
module Modular {

  lemma MulAtLeast(n: nat, x: int, y: int)
    requires x < y
    ensures n * x + n <= n * y
  {
    var d: nat := y - x - 1;
    assert n * d >= 0;
    assert n * y == n * x + n + n * d;
  }

  /** Quotient and remainder are unique. */
  lemma ModUnique(a: nat, q: nat, r: nat, n: nat)
    requires r < n && a == n * q + r
    ensures a % n == r && a / n == q
  {
    assert a == n * (a / n) + a % n;
    if a / n < q {
      MulAtLeast(n, a / n, q);
    } else if q < a / n {
      MulAtLeast(n, q, a / n);
    }
  }

  /** Stepping less than once round a circle of n places wraps at most once. */
  lemma AddMod(e: nat, d: nat, n: nat)
    requires d < n
    ensures (e + d) % n == if e % n + d < n then e % n + d else e % n + d - n
  {
    var q := e / n;
    assert e == n * q + e % n;
    if e % n + d < n {
      ModUnique(e + d, q, e % n + d, n);
    } else {
      assert n * (q + 1) == n * q + n;
      ModUnique(e + d, q + 1, e % n + d - n, n);
    }
  }
}
