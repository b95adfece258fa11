/** Why a sticky bit is enough: an integer that compares with every multiple of a grid unit as the exact
    value does rounds like it, and a right shift that jams the lost bits into bit 0 keeps this so. */
module Jamming {
  import opened Powers

  function Times(k: nat, q: nat): nat {
    k * q
  }

  ghost predicate SameSide(g: nat, m: nat, y: real) {
    && (g < m <==> g as real < y)
    && (g == m <==> g as real == y)
  }

  /** Every multiple of `q` compares with `m` as it does with `y`: on the grid they are equal,
      off it they lie strictly between the same two neighbours. */
  ghost predicate SameCell(q: nat, m: nat, y: real) {
    forall k: nat :: SameSide(Times(k, q), m, y)
  }

  /** The bits lost by a right shift, jammed into bit 0 (rshift_rnd). */
  function Jam(n: nat, sticky: bool): nat {
    if sticky && n % 2 == 0 then n + 1 else n
  }

  function JamDiv(m: nat, c: nat): nat
    requires c > 0
  {
    Jam(m / c, m % c != 0)
  }

  function JamShift(m: nat, d: nat): nat {
    JamDiv(m, Pow2(d))
  }

  lemma SameCellExact(q: nat, m: nat)
    ensures SameCell(q, m, m as real)
  {
  }

  lemma TimesAssoc(a: nat, b: nat, c: nat)
    ensures Times(a, Times(b, c)) == Times(Times(a, b), c)
    ensures Times(a, Times(b, c)) == Times(b, Times(a, c))
  {
    assert a * (b * c) == (a * b) * c == b * (a * c);
  }

  /** A coarser grid has larger cells. */
  lemma SameCellCoarser(q: nat, c: nat, m: nat, y: real)
    requires SameCell(q, m, y)
    ensures SameCell(Times(c, q), m, y)
  {
    hide Times;
    forall k: nat ensures SameSide(Times(k, Times(c, q)), m, y) {
      TimesAssoc(k, c, q);
    }
  }

  lemma TimesOrder(c: nat, a: nat, b: nat)
    requires c > 0
    ensures a < b <==> Times(c, a) < Times(c, b)
    ensures a == b <==> Times(c, a) == Times(c, b)
  {
    if a < b { MulAtLeast(b - a, c); assert (b - a) * c == c * b - c * a; }
    if b < a { MulAtLeast(a - b, c); assert (a - b) * c == c * a - c * b; }
  }

  lemma TimesReal(c: nat, a: nat)
    ensures IsProduct(Times(c, a) as real, a as real, c as real)
  {
  }

  /** Scaling both sides and the grid. */
  lemma SameCellScaled(q: nat, c: nat, m: nat, y: real, y': real)
    requires c > 0 && SameCell(q, m, y) && IsProduct(y', y, c as real)
    ensures SameCell(Times(c, q), Times(c, m), y')
  {
    hide Times, IsProduct;
    forall k: nat ensures SameSide(Times(k, Times(c, q)), Times(c, m), y') {
      var g := Times(k, q);
      TimesAssoc(k, c, q);
      TimesOrder(c, g, m);
      TimesReal(c, g);
      ProductOrder(Times(c, g) as real, g as real, y', y, c as real);
    }
  }

  /** An even number compares with the jammed quotient as its multiple does with the dividend. */
  lemma JamSides(g: nat, c: nat, m: nat)
    requires g % 2 == 0 && c > 0
    ensures var m' := JamDiv(m, c);
      (g < m' <==> Times(c, g) < m) && (g == m' <==> Times(c, g) == m)
  {
    var a, r := m / c, m % c;
    assert m == Times(c, a) + r;
    assert Times(c, a + 1) == Times(c, a) + c;
    TimesOrder(c, g, a);
    TimesOrder(c, g, a + 1);
  }

  lemma TimesEven(k: nat, q: nat)
    requires q % 2 == 0
    ensures Times(k, q) % 2 == 0
  {
    TimesAssoc(k, 2, q / 2);
    assert Times(2, q / 2) == q;
    assert Times(k, q) == 2 * Times(k, q / 2);
  }

  /** The key fact: division by `c` (a right shift by log2 c) with the remainder jammed into bit 0 compares
      with every multiple of an even unit as the exact quotient `y'` does. */
  lemma JamKeepsCell(q: nat, c: nat, m: nat, y: real, y': real)
    requires q % 2 == 0 && c > 0 && SameCell(Times(c, q), m, y) && IsProduct(y, y', c as real)
    ensures SameCell(q, JamDiv(m, c), y')
  {
    hide Times, IsProduct, JamDiv;
    forall k: nat ensures SameSide(Times(k, q), JamDiv(m, c), y') {
      var g := Times(k, q);
      TimesEven(k, q);
      JamSides(g, c, m);
      TimesAssoc(k, c, q);
      assert Times(k, Times(c, q)) == Times(c, g);
      TimesReal(c, g);
      ProductOrder(Times(c, g) as real, g as real, y, y', c as real);
    }
  }

  /** Adding a multiple of the unit moves whole cells. */
  lemma SameCellPlus(q: nat, a: nat, m: nat, y: real)
    requires SameCell(q, m, y) && y >= 0.0
    ensures SameCell(q, Times(a, q) + m, Times(a, q) as real + y)
  {
    forall k: nat ensures SameSide(Times(k, q), Times(a, q) + m, Times(a, q) as real + y) {
      if k >= a {
        assert Times(k, q) == Times(a, q) + Times(k - a, q);
      } else {
        TimesMono(k, a, q);
        assert SameSide(Times(0, q), m, y);
      }
    }
  }

  lemma TimesMono(a: nat, b: nat, q: nat)
    requires a <= b
    ensures Times(a, q) <= Times(b, q)
    ensures Times(b - a, q) == Times(b, q) - Times(a, q)
  {
    assert (b - a) * q == b * q - a * q;
  }

  /** Subtracting from a multiple of the unit mirrors the cells. */
  lemma SameCellMinus(q: nat, a: nat, m: nat, y: real)
    requires SameCell(q, m, y) && m <= Times(a, q) && y >= 0.0
    ensures SameCell(q, Times(a, q) - m, Times(a, q) as real - y)
  {
    hide Times;
    forall k: nat ensures SameSide(Times(k, q), Times(a, q) - m, Times(a, q) as real - y) {
      if k <= a {
        TimesMono(k, a, q);
        assert SameSide(Times(a - k, q), m, y);
      } else {
        TimesMono(a, k, q);
        TimesMono(0, k, q);
        if Times(a, q) == Times(k, q) { assert SameSide(Times(0, q), m, y); TimesZero(q); }
      }
    }
  }

  lemma TimesZero(q: nat)
    ensures Times(0, q) == 0
  {
  }

  lemma JamDivRange(n: nat, c: nat, top: nat)
    requires c > 0 && n / c < top && top % 2 == 0
    ensures n / c <= JamDiv(n, c) < top
  {
  }
}
