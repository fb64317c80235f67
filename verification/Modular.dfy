/** Remainders, as every fixed-width counter and ring index of the system takes them. */
module Modular {

  lemma Multiples(k: int, n: int)
    requires n > 0
    ensures (k >= 1 ==> k * n >= n) && (k <= -1 ==> k * n <= -n)
  {
  }

  /** The remainder is the one number below `n` that differs from `x` by a multiple of it. */
  lemma Remainder(x: int, q: int, r: int, n: int)
    requires 0 <= r < n && x == q * n + r
    ensures x % n == r
  {
    Multiples(x / n - q, n);
    assert (x / n - q) * n == x / n * n - q * n;
    assert x == x / n * n + x % n;
  }

  /** Adding to a wrapped counter is wrapping the sum. */
  lemma Wraps(x: nat, y: nat, m: nat)
    requires m > 0
    ensures (x % m + y) % m == (x + y) % m
  {
    var q := x / m;
    assert x == q * m + x % m;
    var s := (x % m + y) / m;
    assert x % m + y == s * m + (x % m + y) % m;
    assert x + y == (q + s) * m + (x % m + y) % m;
    Remainder(x + y, q + s, (x % m + y) % m, m);
  }
}
