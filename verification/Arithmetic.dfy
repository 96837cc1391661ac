/** What several of the models need of products, remainders and truncation. */
module Arithmetic {
  /** The value of an `int8_t`. */
  function Int8(n: int): (r: int)
    ensures -128 <= r <= 127
    ensures -128 <= n <= 127 ==> r == n
  {
    (n + 128) % 256 - 128
  }

  lemma MulMono(p: nat, x: int, y: int)
    ensures x <= y ==> p * x <= p * y
  {
    if x <= y { assert p * y - p * x == p * (y - x); }
  }

  lemma MulAtLeast(t: int, d: int)
    requires d > 0
    ensures t >= 1 ==> t * d >= d
  {
    if t >= 1 { assert t * d - d == (t - 1) * d; }
  }

  lemma ModUnique(n: nat, p: nat, q: nat, k: nat)
    requires p > 0 && k < p && n == p * q + k
    ensures n % p == k && n / p == q
  {
    var q', k' := n / p, n % p;
    assert p * q + k == p * q' + k';
    MulMono(p, q + 1, q');
    MulMono(p, q' + 1, q);
  }

  lemma Quotient(a: int, r: int, rest: int)
    requires r > 0 && 0 <= rest < r
    ensures (a * r + rest) / r == a
  {
    var n := a * r + rest;
    assert (a - n / r) * r == n % r - rest by {
      assert n == n / r * r + n % r;
    }
    MulAtLeast(a - n / r, r);
    MulAtLeast(n / r - a, r);
    assert (n / r - a) * r == -((a - n / r) * r);
  }

  lemma SmallMod(a: nat, m: nat)
    requires a < m
    ensures a % m == a
  {
  }

  /** A counter that wraps at every step is the sum modulo its width. */
  lemma AddMod(a: nat, b: nat, m: nat)
    requires m > 0
    ensures (a % m + b) % m == (a + b) % m
  {
    DivMod(a, m);
    DivMod(a % m + b, m);
    AddModParts(a, b, m, a / m, a % m, (a % m + b) / m, (a % m + b) % m);
  }

  lemma DivMod(a: nat, m: nat)
    requires m > 0
    ensures a / m >= 0 && 0 <= a % m < m && a == m * (a / m) + a % m
  {
  }

  lemma AddModParts(a: nat, b: nat, m: nat, q: nat, x: nat, k: nat, r: nat)
    requires a == m * q + x && x + b == m * k + r && r < m
    ensures (a + b) % m == r
  {
    assert m * (q + k) == m * q + m * k;
    ModUnique(a + b, m, q + k, r);
  }
}
