/** Quotients and remainders by a divisor that is not a constant. */
module Quotients {
  lemma Split(n: nat, b: nat)
    requires 0 < b
    ensures n == n / b * b + n % b
  {
  }

  lemma Product(x: nat, y: nat, z: nat)
    ensures x * (y * z) == x * y * z
  {
  }

  lemma Monotone(x: nat, y: nat, b: nat)
    requires x <= y
    ensures x * b <= y * b
  {
  }

  lemma InOrder(x: nat, y: nat, b: nat)
    requires x * b < y * b + b
    ensures x <= y
  {
    assert (y + 1) * b == y * b + b;
    if x > y { Monotone(y + 1, x, b); }
  }

  lemma Unique(q: nat, b: nat, s: nat)
    requires q * b <= s < q * b + b
    ensures s / b == q && s % b == s - q * b
  {
    var d := s / b;
    assert s == d * b + s % b;
    InOrder(q, d, b);
    InOrder(d, q, b);
  }

  lemma AddOne(x: nat, n: nat)
    requires n > 0
    ensures (x + n) % n == x % n
  {
    var q := x / n;
    assert x == q * n + x % n;
    assert (q + 1) * n == q * n + n;
    Unique(q + 1, n, x + n);
  }

  lemma {:induction false} AddMultiple(r: nat, m: nat, n: nat)
    requires n > 0
    ensures (m * n + r) % n == r % n
  {
    if m > 0 {
      AddMultiple(r, m - 1, n);
      assert m * n + r == ((m - 1) * n + r) + n;
      AddOne((m - 1) * n + r, n);
    }
  }

  /** Two numbers less than `n` apart have different remainders. */
  lemma DifferentRemainders(j: nat, k: nat, n: nat)
    requires j < k < j + n
    ensures j % n != k % n
  {
    var a, b := j / n, k / n;
    assert j == a * n + j % n;
    assert k == b * n + k % n;
    if j % n == k % n {
      InOrder(b, a, n);
      Monotone(b, a, n);
    }
  }

  function Power256(n: nat): (p: nat)
    ensures p > 0
  {
    if n == 0 then 1 else 256 * Power256(n - 1)
  }

  lemma DivTwice(n: nat, p: nat)
    requires p > 0
    ensures n / 256 / p == n / (256 * p)
  {
    var q, r := n / 256 / p, n / 256 % p;
    assert n / 256 == q * p + r;
    assert n == 256 * (q * p + r) + n % 256;
    assert n == (256 * p) * q + (256 * r + n % 256);
    Unique(q, 256 * p, n);
  }
}
