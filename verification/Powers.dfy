/** Powers of two: `Pow2` on naturals for words and masks, `P2` on reals for exponents of either sign. */
module Powers {

  function Pow2(n: nat): (r: nat)
    ensures r > 0
  {
    if n == 0 then 1 else 2 * Pow2(n - 1)
  }

  ghost function P2(e: int): (r: real)
    ensures r > 0.0
    decreases if e < 0 then -e else e
  {
    if e == 0 then 1.0 else if e > 0 then 2.0 * P2(e - 1) else P2(e + 1) / 2.0
  }

  lemma {:induction false} Pow2Add(a: nat, b: nat)
    ensures Pow2(a + b) == Pow2(a) * Pow2(b)
  {
    if a > 0 {
      Pow2Add(a - 1, b);
      assert Pow2(a) == 2 * Pow2(a - 1);
      assert 2 * (Pow2(a - 1) * Pow2(b)) == (2 * Pow2(a - 1)) * Pow2(b);
    }
  }

  lemma Pow2Even(n: nat)
    requires n > 0
    ensures Pow2(n) % 2 == 0
  {
  }

  lemma Pow2Double(n: nat)
    ensures Pow2(n + 1) == 2 * Pow2(n)
  {
  }

  lemma Pow2Split(a: nat, b: nat)
    requires b <= a
    ensures Pow2(a) == Pow2(b) * Pow2(a - b)
  {
    Pow2Add(b, a - b);
  }

  lemma {:induction false} Pow2Mono(a: nat, b: nat)
    requires a <= b
    ensures Pow2(a) <= Pow2(b)
  {
    if a < b { Pow2Mono(a, b - 1); }
  }

  lemma P2Succ(e: int)
    ensures P2(e + 1) == 2.0 * P2(e)
  {
  }

  /** `u` is the product of `p` and `s`; named so that the solver sees the product only on demand. */
  ghost predicate IsProduct(u: real, p: real, s: real) {
    u == p * s
  }

  lemma Doubled(u: real, u': real, p: real, s: real, s': real)
    requires IsProduct(u, p, s) && u' == 2.0 * u && s' == 2.0 * s
    ensures IsProduct(u', p, s')
  {
  }

  lemma {:induction false} P2AddNat(a: int, n: int)
    requires n >= 0
    ensures IsProduct(P2(a + n), P2(a), P2(n))
    decreases n
  {
    if n > 0 {
      P2AddNat(a, n - 1);
      P2Succ(a + (n - 1));
      assert a + n == a + (n - 1) + 1;
      Doubled(P2(a + (n - 1)), P2(a + n), P2(a), P2(n - 1), P2(n));
    }
  }

  lemma {:induction false} P2Nat(n: nat)
    ensures P2(n) == Pow2(n) as real
  {
    if n > 0 { P2Nat(n - 1); }
  }

  lemma RealAssoc(a: real, b: real, c: real)
    ensures (a * b) * c == a * (b * c)
  {
  }

  lemma Quotient(p: real, u: real, v: real, w: real)
    requires IsProduct(p, u, v) && IsProduct(1.0, w, v)
    ensures IsProduct(u, p, w)
  {
    RealAssoc(u, v, w);
  }

  lemma P2Product(a: int, b: int)
    ensures IsProduct(P2(a + b), P2(a), P2(b))
  {
    if b >= 0 {
      P2AddNat(a, b);
    } else {
      P2AddNat(a + b, -b);
      P2AddNat(b, -b);
      assert a + b + -b == a && b + -b == 0;
      Quotient(P2(a), P2(a + b), P2(-b), P2(b));
    }
  }

  /** Scaling by 2^a and then by 2^b scales by 2^(a + b). */
  lemma ScaleChain(x: real, y: real, z: real, a: int, b: int)
    requires IsProduct(y, x, P2(a)) && IsProduct(z, y, P2(b))
    ensures IsProduct(z, x, P2(a + b))
  {
    P2Product(a, b);
    RealAssoc(x, P2(a), P2(b));
  }

  lemma ScaleSplit(x: real, y: real, z: real, a: int, c: int)
    requires IsProduct(y, x, P2(a)) && IsProduct(z, x, P2(c))
    ensures IsProduct(z, y, P2(c - a))
  {
    hide P2;
    var w := y * P2(c - a);
    assert IsProduct(w, y, P2(c - a));
    hide IsProduct;
    ScaleChain(x, y, w, a, c - a);
    assert a + (c - a) == c;
    ProductFunctional(w, z, x, P2(c));
  }

  lemma ScaleBack(x: real, y: real, a: int)
    requires IsProduct(y, x, P2(a))
    ensures IsProduct(x, y, P2(-a))
  {
    assert IsProduct(x, x, P2(0));
    ScaleSplit(x, y, x, a, 0);
  }

  lemma MulMonotone(a: real, b: real, c: real)
    requires a >= 0.0 && b <= c
    ensures a * b <= a * c
  {
    assert a * c - a * b == a * (c - b);
  }

  lemma MulPositive(a: real, c: real)
    requires a > 0.0 && c > 0.0
    ensures a * c > 0.0
  {
  }

  /** Products with the same positive factor are ordered like the other factors. */
  lemma ProductOrder(x: real, a: real, y: real, b: real, q: real)
    requires q > 0.0 && IsProduct(x, a, q) && IsProduct(y, b, q)
    ensures a < b <==> x < y
    ensures a == b <==> x == y
  {
    assert (b - a) * q == y - x;
    if a < b { MulPositive(b - a, q); }
    if b < a { MulPositive(a - b, q); assert (a - b) * q == x - y; }
  }

  lemma ProductAssoc(x: real, t: real, u: real, s: real, q: real)
    requires IsProduct(x, t, u) && IsProduct(u, s, q)
    ensures IsProduct(x, t * s, q)
  {
    RealAssoc(t, s, q);
  }

  lemma ProductFunctional(u: real, v: real, p: real, s: real)
    requires IsProduct(u, p, s) && IsProduct(v, p, s)
    ensures u == v
  {
  }

  lemma ProductAdd(x: real, a: real, y: real, b: real, q: real)
    requires IsProduct(x, a, q) && IsProduct(y, b, q)
    ensures IsProduct(x + y, a + b, q)
    ensures IsProduct(x - y, a - b, q)
  {
  }

  /** `n` shifted left by `k`. */
  function Shl(n: nat, k: nat): nat {
    n * Pow2(k)
  }

  lemma ShlSucc(n: nat, k: nat)
    ensures Shl(n + 1, k) == Shl(n, k) + Pow2(k)
  {
  }

  /** `a` shifted right by `k`, and the bits that the shift drops. */
  function Shr(a: nat, k: nat): nat {
    Quot(a, Pow2(k))
  }

  function Low(a: nat, k: nat): nat {
    Rem(a, Pow2(k))
  }

  function Quot(a: nat, p: nat): nat
    requires p > 0
  { a / p }

  function Rem(a: nat, p: nat): nat
    requires p > 0
  { a % p }

  lemma ShrLow(a: nat, k: nat)
    ensures a == Shl(Shr(a, k), k) + Low(a, k) && Low(a, k) < Pow2(k)
  {
  }

  lemma ShrLowUnique(a: nat, k: nat, q: nat, r: nat)
    requires a == Shl(q, k) + r && r < Pow2(k)
    ensures Shr(a, k) == q && Low(a, k) == r
  {
    DivModUnique(a, Pow2(k), q, r);
  }

  lemma ShlOne(k: nat)
    ensures Shl(1, k) == Pow2(k) && Shl(0, k) == 0
  {
  }

  lemma ShlZero(a: nat)
    ensures Shl(a, 0) == a
  {
  }

  lemma ShlSum(a: nat, b: nat, k: nat)
    ensures Shl(a + b, k) == Shl(a, k) + Shl(b, k)
  {
  }

  lemma ShlMono(a: nat, b: nat, k: nat)
    ensures a <= b <==> Shl(a, k) <= Shl(b, k)
    ensures a < b <==> Shl(a, k) < Shl(b, k)
  {
    if a < b { MulAtLeast(b - a, Pow2(k)); assert (b - a) * Pow2(k) == Shl(b, k) - Shl(a, k); }
    if b < a { MulAtLeast(a - b, Pow2(k)); assert (a - b) * Pow2(k) == Shl(a, k) - Shl(b, k); }
  }

  lemma ShlTwice(n: nat, a: nat, b: nat)
    ensures Shl(Shl(n, a), b) == Shl(n, a + b)
  {
    Pow2Add(a, b);
    var p, q := Pow2(a), Pow2(b);
    assert (n * p) * q == n * (p * q);
  }

  lemma ShlPow(a: nat, b: nat)
    ensures Shl(Pow2(a), b) == Pow2(a + b)
  {
    Pow2Add(a, b);
  }

  lemma MulAtLeast(k: int, q: nat)
    requires k >= 1
    ensures k * q >= q
  {
  }

  lemma DivModUnique(a: nat, q: nat, d: nat, r: nat)
    requires q > 0 && a == d * q + r && r < q
    ensures a / q == d && a % q == r
  {
    var d', r' := a / q, a % q;
    assert a == q * d' + r';
    if d > d' {
      assert (d - d') * q == d * q - d' * q;
      MulAtLeast(d - d', q);
    }
    if d < d' {
      assert (d' - d) * q == d' * q - d * q;
      MulAtLeast(d' - d, q);
    }
  }

  lemma ShlOnce(a: nat)
    ensures Shl(a, 1) == 2 * a
  {
  }
}
