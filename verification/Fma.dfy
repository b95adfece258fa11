/** Fused multiply and add (softfp_template.h: normalize2_sf, fma_sf). */
module Fma {
  import opened Powers
  import opened IeeeFormat
  import opened Rounding
  import opened Jamming
  import opened RoundPack
  import opened Normalize
  import opened Addition
  import opened Multiplication
  import opened DoubleWord

  // ----- normalize2_sf

  /** The double word `M` is exact for `z`, or large enough that two more left shifts leave it on a fine enough grid. */
  ghost predicate WideStandsFor(f: Format, M: nat, z: real) {
    || M as real == z
    || (Pow2(2 * f.Size() - 4) <= M && SameCell(Pow2(f.Size() + f.exp - 4), M, z))
  }

  lemma SmallShift(M: nat, n: nat, s: nat)
    requires Pow2(n) <= M && Shl(M, s) < Pow2(n + 3)
    ensures s <= 2
  {
    if s > 2 {
      ShlMono(Pow2(n), M, s);
      ShlPow(n, s);
      Pow2Mono(n + 3, n + s);
    }
  }

  /** After the normalizing shift the double word lies in the cell of the exact value on the grid of half a last
      place. */
  lemma ShiftedWideCell(f: Format, M: nat, z: real, s: nat, z': real)
    requires WideStandsFor(f, M, z) && Shl(M, s) < Pow2(2 * f.Size() - 1) && IsProduct(z', z, P2(s))
    ensures SameCell(Times(Pow2(f.Size()), Pow2(f.exp - 2)), Shl(M, s), z')
  {
    var size := f.Size();
    P2Nat(s);
    TimesIsShl(M, s);
    if M as real == z {
      ShlReal(M, s);
      ProductFunctional(z', Shl(M, s) as real, z, Pow2(s) as real);
      SameCellExact(Times(Pow2(size), Pow2(f.exp - 2)), Shl(M, s));
    } else {
      hide Pow2, P2, IsProduct, SameCell, Shl, Times;
      assert 2 * size - 4 + 3 == 2 * size - 1;
      SmallShift(M, 2 * size - 4, s);
      SameCellScaled(Pow2(size + f.exp - 4), Pow2(s), M, z, z');
      SameCellCoarser(Times(Pow2(s), Pow2(size + f.exp - 4)), Pow2(2 - s), Times(Pow2(s), M), z');
      TimesPow(s, size + f.exp - 4);
      TimesPow(2 - s, s + (size + f.exp - 4));
      TimesPow(size, f.exp - 2);
    }
  }

  lemma TimesIsShl(M: nat, s: nat)
    ensures Times(Pow2(s), M) == Shl(M, s)
  {
  }

  lemma TimesPow(a: nat, b: nat)
    ensures Times(Pow2(a), Pow2(b)) == Pow2(a + b)
  {
    Pow2Add(a, b);
  }

  lemma HighWordCell(f: Format, M: nat, z: real, y: real)
    requires SameCell(Times(Pow2(f.Size()), Pow2(f.exp - 2)), M, z) && IsProduct(y, z, P2(-(f.Size() as int)))
    ensures SameCell(Pow2(f.exp - 2), JamShift(M, f.Size()), y)
  {
    ScaleBack(z, y, -(f.Size() as int));
    P2Nat(f.Size());
    Pow2Even(f.exp - 2);
    hide Pow2, P2, IsProduct, SameCell;
    JamKeepsCell(Pow2(f.exp - 2), Pow2(f.Size()), M, z, y);
  }

  /** The shifted high word with the rest jammed in. */
  method ShiftToHigh(f: Format, hi: nat, lo: nat, shift: nat) returns (m: nat)
    requires hi < Pow2(f.Size()) && lo < Pow2(f.Size())
    requires Shl(Wide(f.Size(), hi, lo), shift) < Pow2(2 * f.Size() - 1)
    requires shift >= f.Size() ==> hi == 0
    ensures m == JamShift(Shl(Wide(f.Size(), hi, lo), shift), f.Size())
  {
    var size := f.Size();
    hide Shl, Pow2, Shr, Low, Jam, JamShift, Wide;
    Pow2Mono(2 * size - 1, size + size);
    if shift == 0 {
      m := Jam(hi, lo != 0);
      HighJam(size, hi, lo);
      ShlZero(Wide(size, hi, lo));
    } else if shift < size {
      var hi', lo' := ShiftLeft(size, hi, lo, shift);
      m := Jam(hi', lo' != 0);
      HighJam(size, hi', lo');
    } else {
      m := Shl(lo, shift - size);
      LowOnly(size, lo, shift);
    }
  }

  lemma HighJam(size: nat, hi: nat, lo: nat)
    requires lo < Pow2(size)
    ensures JamShift(Wide(size, hi, lo), size) == Jam(hi, lo != 0)
  {
    ShrLowUnique(Wide(size, hi, lo), size, hi, lo);
    JamShiftIs(Wide(size, hi, lo), size);
  }

  lemma LowOnly(size: nat, lo: nat, shift: nat)
    requires shift >= size
    ensures JamShift(Shl(Wide(size, 0, lo), shift), size) == Shl(lo, shift - size)
  {
    ShlOne(size);
    ShlTwice(lo, shift - size, size);
    var m := Shl(lo, shift - size);
    ShrLowUnique(Shl(m, size), size, m, 0);
    JamShiftIs(Shl(m, size), size);
  }

  function WideClz(size: nat, hi: nat, lo: nat): int {
    if hi == 0 then size + Clz(size, lo) else Clz(size, hi)
  }

  /** The normalizing shift puts the leading bit of the double word just below its top bit. */
  lemma WideShift(f: Format, hi: nat, lo: nat)
    requires hi < Pow2(f.Size()) && lo < Pow2(f.Size()) && 0 < Wide(f.Size(), hi, lo) < Pow2(2 * f.Size() - 1)
    ensures var s := WideClz(f.Size(), hi, lo) - 1;
      && s >= 0 && (s >= f.Size() ==> hi == 0)
      && Pow2(2 * f.Size() - 2) <= Shl(Wide(f.Size(), hi, lo), s) < Pow2(2 * f.Size() - 1)
  {
    var size := f.Size();
    WideLen(size, hi, lo);
    var M := Wide(size, hi, lo);
    BitLenAtMost(hi, size);
    BitLenAtMost(lo, size);
    if hi > 0 { BitLenBounds(hi); }
    hide Wide, Shl, Pow2, BitLen;
    LeadingBitTo(M, 2 * size - 2);
  }

  lemma WideLen(size: nat, hi: nat, lo: nat)
    requires lo < Pow2(size) && Wide(size, hi, lo) > 0
    ensures BitLen(Wide(size, hi, lo)) == if hi == 0 then BitLen(lo) else size + BitLen(hi)
  {
    var M := Wide(size, hi, lo);
    ShlOne(size);
    if hi > 0 {
      BitLenBounds(hi);
      var l := BitLen(hi);
      hide BitLen;
      WideBounds(size, hi, lo, l);
      WideBounds(size, hi, lo, l - 1);
      BitLenAtMost(M, size + l);
      BitLenAtLeast(M, size + l - 1);
    }
  }

  /** normalize2_sf: the double word stands for `z`; the exact magnitude `x` is `z` * 2^(exp0 - 1 - RND_SIZE -
      F_SIZE). */
  method Normalize2Sf(f: Format, neg: bool, exp0: int, hi: nat, lo: nat, rm: RoundingMode, before: Flags,
                      ghost z: real, ghost x: real)
    returns (r: nat, after: Flags)
    requires hi < Pow2(f.Size()) && lo < Pow2(f.Size()) && Wide(f.Size(), hi, lo) < Pow2(2 * f.Size() - 1)
    requires WideStandsFor(f, Wide(f.Size(), hi, lo), z)
    requires IsProduct(x, z, P2(exp0 - f.exp - f.Size()))
    ensures Delivers(f, rm, Signed(neg, x), neg, before, r, after)
  {
    hide IsProduct, P2, Delivers, Pow2, Shl, Wide, JamShift, SameCell, WideStandsFor, BitLen;
    var shift := WideClz(f.Size(), hi, lo) - 1;
    ghost var M := Wide(f.Size(), hi, lo);
    ghost var y;
    if hi == 0 && lo == 0 {
      y := ZeroWide(f, z, x, exp0, shift);
    } else {
      WideNonzero(f.Size(), hi, lo);
      WideShift(f, hi, lo);
      y := WideReading(f, M, z, x, exp0, shift);
    }
    var m := ShiftToHigh(f, hi, lo, shift);
    r, after := RoundPackSf(f, neg, exp0 - shift, m, rm, before);
    assert Reads(f, exp0 - shift, m, y, x);
  }

  lemma WideNonzero(size: nat, hi: nat, lo: nat)
    requires hi > 0 || lo > 0
    ensures Wide(size, hi, lo) > 0
  {
    ShlOne(size);
    ShlMono(0, hi, size);
  }

  lemma ZeroWide(f: Format, z: real, x: real, exp0: int, shift: int) returns (y: real)
    requires WideStandsFor(f, Wide(f.Size(), 0, 0), z) && IsProduct(x, z, P2(exp0 - f.exp - f.Size()))
    requires shift == WideClz(f.Size(), 0, 0) - 1
    ensures shift >= f.Size() && Shl(Wide(f.Size(), 0, 0), shift) < Pow2(2 * f.Size() - 1)
    ensures JamShift(Shl(Wide(f.Size(), 0, 0), shift), f.Size()) == 0
    ensures SameCell(Pow2(f.exp - 2), 0, y) && IsProduct(x, y, P2(exp0 - shift - f.exp))
  {
    ShlOne(f.Size());
    ShlOne(shift);
    assert z == 0.0 && BitLen(0) == 0;
    y := 0.0;
    SameCellExact(Pow2(f.exp - 2), 0);
    ShrToZero(0, f.Size());
    JamShiftIs(0, f.Size());
  }

  lemma WideReading(f: Format, M: nat, z: real, x: real, exp0: int, s: nat) returns (y: real)
    requires WideStandsFor(f, M, z) && Pow2(2 * f.Size() - 2) <= Shl(M, s) < Pow2(2 * f.Size() - 1)
    requires IsProduct(x, z, P2(exp0 - f.exp - f.Size()))
    ensures var m := JamShift(Shl(M, s), f.Size());
      Pow2(f.mant + f.exp - 1) <= m < Pow2(f.mant + f.exp) && SameCell(Pow2(f.exp - 2), m, y)
    ensures IsProduct(x, y, P2(exp0 - s - f.exp))
  {
    hide IsProduct, P2, Pow2, Shl, JamShift, SameCell, WideStandsFor;
    var size := f.Size();
    var z' := ScaledValue(z, s);
    ShiftedWideCell(f, M, z, s, z');
    y := ScaledValue(z', -(size as int));
    HighWordCell(f, Shl(M, s), z', y);
    ScaleChain(z, z', y, s, -(size as int));
    ScaleSplit(z, y, x, s + -(size as int), exp0 - f.exp - size);
    assert exp0 - f.exp - size - (s + -(size as int)) == exp0 - s - f.exp;
    HighRange(f, Shl(M, s));
  }

  lemma HighRange(f: Format, M: nat)
    requires Pow2(2 * f.Size() - 2) <= M < Pow2(2 * f.Size() - 1)
    ensures Pow2(f.mant + f.exp - 1) <= JamShift(M, f.Size()) < Pow2(f.mant + f.exp)
  {
    assert f.Size() + (f.mant + f.exp - 1) == 2 * f.Size() - 2;
    assert f.Size() + (f.mant + f.exp) == 2 * f.Size() - 1;
    hide Pow2;
    HighBounds(M, f.Size(), f.mant + f.exp - 1, f.mant + f.exp);
    Pow2Even(f.mant + f.exp);
    JamRange(M, f.Size(), Pow2(f.mant + f.exp));
  }

  lemma JamRange(M: nat, d: nat, top: nat)
    requires M / Pow2(d) < top && top % 2 == 0
    ensures M / Pow2(d) <= JamShift(M, d) < top
  {
  }

  // ----- the aligned sum

  lemma FourIsMultiple(m: nat, d: nat)
    requires m % 4 == 0 && d <= 2
    ensures Low(m, d) == 0
  {
    SmallPowers();
    hide Pow2;
    var k := m / 4;
    if d == 0 { DivModUnique(m, 1, m, 0); }
    else if d == 1 { DivModUnique(m, 2, 2 * k, 0); }
  }

  lemma ExactShift(m: nat, d: nat, y: real)
    requires Low(m, d) == 0 && IsProduct(y, m as real, P2(-(d as int)))
    ensures JamShift(m, d) as real == y
  {
    JamShiftIs(m, d);
    ExactQuotient(m, d, y);
  }

  lemma ShiftedCellOf(m: nat, d: nat, y: real)
    requires IsProduct(y, m as real, P2(-(d as int)))
    ensures SameCell(2, JamShift(m, d), y)
  {
    ScaleBack(m as real, y, -(d as int));
    P2Nat(d);
    SameCellExact(Times(Pow2(d), 2), m);
    hide Pow2, P2, IsProduct, SameCell;
    JamKeepsCell(2, Pow2(d), m, m as real, y);
  }

  lemma ShiftedBelow(m: nat, d: nat, n: nat, top: nat)
    requires m < Pow2(n) && n <= top + d && top > 0
    ensures JamShift(m, d) < Pow2(top)
  {
    Pow2Mono(n, top + d);
    JamSize(m, d, top);
  }

  /** A sum with a multiple of the grid unit stands for the exact sum when the other term is inexact but small. */
  lemma InexactSum(f: Format, q: nat, c: nat, a: nat, S: nat, y: real, plus: bool)
    requires SameCell(q, S, y) && Times(c, q) == Pow2(f.Size() + f.exp - 4)
    requires Pow2(2 * f.Size() - 3) <= Times(a, q) < Pow2(2 * f.Size() - 2) && S < Pow2(2 * f.Size() - 4)
    ensures var R := Times(a, q);
      S <= R && WideStandsFor(f, if plus then R + S else R - S, if plus then R as real + y else R as real - y)
  {
    hide Times, SameCell;
    Pow2Double(2 * f.Size() - 4);
    CellPositive(q, S, y);
    hide Pow2;
    if plus {
      SameCellPlus(q, a, S, y);
      SameCellCoarser(q, c, Times(a, q) + S, Times(a, q) as real + y);
    } else {
      SameCellMinus(q, a, S, y);
      SameCellCoarser(q, c, Times(a, q) - S, Times(a, q) as real - y);
    }
  }

  /** Both in the first cell of a coarse grid. */
  lemma FirstCell(q: nat, m: nat, y: real)
    requires 0 < m < q && 0.0 < y < q as real
    ensures SameCell(q, m, y)
  {
    forall k: nat ensures SameSide(Times(k, q), m, y) {
      if k > 0 { TimesMono(1, k, q); assert Times(1, q) == q; } else { TimesZero(q); }
    }
  }

  lemma FarValue(f: Format, S: nat, d: nat, y: real)
    requires 0 < S < Pow2(2 * f.Size() - 2) && d > f.Size() && IsProduct(y, S as real, P2(-(d as int)))
    ensures 0.0 < y < Pow2(f.Size()) as real
  {
    var size := f.Size();
    ScaleBack(S as real, y, -(d as int));
    P2Nat(d);
    Pow2Add(size, d);
    Pow2Mono(2 * size - 2, size + d);
    var p, n := Pow2(d), Pow2(size);
    assert IsProduct((n * p) as real, n as real, p as real);
    ZeroProduct(p as real);
    hide Pow2, P2;
    ProductOrder(S as real, y, (n * p) as real, n as real, p as real);
    ProductOrder(0.0, 0.0, S as real, y, p as real);
  }

  /** How ShiftRightJam leaves the smaller term `S`, with low word `lo`, shifted by `d`. */
  ghost predicate IsAligned(f: Format, S: nat, lo: nat, d: nat, S': nat) {
    && (d <= f.Size() || lo == 0 ==> S' == JamShift(S, d))
    && (d > f.Size() ==> 0 < S' < Pow2(f.Size()))
  }

  lemma AlignedSum(f: Format, R: nat, S: nat, lo: nat, d: nat, S': nat, y: real, plus: bool)
    requires Pow2(2 * f.Size() - 3) <= R < Pow2(2 * f.Size() - 2) && R % 4 == 0
    requires Pow2(2 * f.Size() - 3) <= S < Pow2(2 * f.Size() - 2) && S % 4 == 0
    requires (d == 0 ==> S <= R) && (lo != 0 ==> Low(R, f.Size()) == 0)
    requires IsAligned(f, S, lo, d, S') && IsProduct(y, S as real, P2(-(d as int)))
    ensures S' <= R
    ensures WideStandsFor(f, if plus then R + S' else R - S', if plus then R as real + y else R as real - y)
  {
    hide Pow2, P2, IsProduct, SameCell, JamShift, Low, WideStandsFor;
    if d <= f.Size() || lo == 0 {
      if d <= 2 {
        FourIsMultiple(S, d);
        ExactShift(S, d, y);
        AlignedExact(f, R, S, d, S', y, plus);
      } else {
        AlignedNear(f, R, S, d, S', y, plus);
      }
    } else {
      AlignedFar(f, R, S, d, S', y, plus);
    }
  }

  lemma AlignedNear(f: Format, R: nat, S: nat, d: nat, S': nat, y: real, plus: bool)
    requires Pow2(2 * f.Size() - 3) <= R < Pow2(2 * f.Size() - 2) && R % 4 == 0
    requires S < Pow2(2 * f.Size() - 2) && d > 2
    requires S' == JamShift(S, d) && IsProduct(y, S as real, P2(-(d as int)))
    ensures S' <= R
    ensures WideStandsFor(f, if plus then R + S' else R - S', if plus then R as real + y else R as real - y)
  {
    hide P2, IsProduct, SameCell, JamShift, WideStandsFor, Times;
    var size := f.Size();
    SmallPowers();
    hide Pow2;
    ShiftedBelow(S, d, 2 * size - 2, 2 * size - 4);
    ShiftedCellOf(S, d, y);
    FourthIsHalf(R);
    TimesPow(size + f.exp - 5, 1);
    InexactSum(f, 2, Pow2(size + f.exp - 5), R / 2, S', y, plus);
  }

  lemma FourthIsHalf(R: nat)
    requires R % 4 == 0
    ensures R == Times(R / 2, 2)
  {
  }

  lemma AlignedFar(f: Format, R: nat, S: nat, d: nat, S': nat, y: real, plus: bool)
    requires Pow2(2 * f.Size() - 3) <= R < Pow2(2 * f.Size() - 2) && Low(R, f.Size()) == 0
    requires 0 < S < Pow2(2 * f.Size() - 2) && d > f.Size()
    requires 0 < S' < Pow2(f.Size()) && IsProduct(y, S as real, P2(-(d as int)))
    ensures S' <= R
    ensures WideStandsFor(f, if plus then R + S' else R - S', if plus then R as real + y else R as real - y)
  {
    hide P2, IsProduct, SameCell, WideStandsFor, Times, Pow2, Shr, Low;
    var size := f.Size();
    FarValue(f, S, d, y);
    FirstCell(Pow2(size), S', y);
    ShrLow(R, size);
    ShlTimes(Shr(R, size), size);
    TimesPow(f.exp - 4, size);
    Pow2Mono(size, 2 * size - 4);
    InexactSum(f, Pow2(size), Pow2(f.exp - 4), Shr(R, size), S', y, plus);
  }

  lemma ShlTimes(a: nat, k: nat)
    ensures Shl(a, k) == Times(a, Pow2(k))
  {
  }

  lemma AlignedExact(f: Format, R: nat, S: nat, d: nat, S': nat, y: real, plus: bool)
    requires Pow2(2 * f.Size() - 3) <= R && S < Pow2(2 * f.Size() - 2) && (d == 0 ==> S <= R)
    requires S' == JamShift(S, d) && S' as real == y
    ensures S' <= R
    ensures WideStandsFor(f, if plus then R + S' else R - S', if plus then R as real + y else R as real - y)
  {
    NoJam(S);
    if d > 0 { ShiftedBelow(S, d, 2 * f.Size() - 2, 2 * f.Size() - 3); }
  }

  // ----- fma_sf

  /** A term of the sum: the double word hi:lo, normalized to F_SIZE - 3, with its exponent and exact magnitude `x`. */
  ghost predicate IsTerm(f: Format, exp: int, hi: nat, lo: nat, x: real) {
    var W := Wide(f.Size(), hi, lo);
    && hi < Pow2(f.Size()) && lo < Pow2(f.Size())
    && Pow2(2 * f.Size() - 3) <= W < Pow2(2 * f.Size() - 2) && W % 4 == 0
    && IsProduct(x, W as real, P2(exp - f.exp - f.Size()))
  }

  lemma ShlFour(a: nat, k: nat)
    requires k >= 2
    ensures Shl(a, k) % 4 == 0
  {
    ShlTwice(a, k - 2, 2);
    SmallPowers();
    hide Pow2;
    assert Shl(Shl(a, k - 2), 2) == 4 * Shl(a, k - 2);
  }

  lemma TimesFour(a: nat, b: nat)
    requires a % 4 == 0
    ensures Times(a, b) % 4 == 0
  {
    assert a * b == 4 * (a / 4 * b);
  }

  /** The exact double-width product of the aligned mantissas. */
  lemma FmaProductReading(f: Format, a: nat, b: nat, aExp: int, aMant: nat, bExp: int, bMant: nat)
    returns (C: real, x: real)
    requires IsProduct(Mag(f, f.MagBits(a)) as real, aMant as real, P2(aExp - 1))
    requires IsProduct(Mag(f, f.MagBits(b)) as real, bMant as real, P2(bExp - 1))
    ensures IsProduct(C, Mag(f, f.MagBits(a)) as real, Mag(f, f.MagBits(b)) as real)
    ensures IsProduct(x, C, P2(QuantumExp(f)))
    ensures IsProduct(x, Times(Shl(aMant, f.exp - 1), Shl(bMant, f.exp - 1)) as real,
                      P2(aExp + bExp - Pow2(f.exp - 1) + 3 - f.exp - f.Size()))
  {
    var A, B := Mag(f, f.MagBits(a)) as real, Mag(f, f.MagBits(b)) as real;
    hide IsProduct, P2, Shl, Mag, Pow2, Times;
    C := RealProduct(A, B);
    x := ScaledValue(C, QuantumExp(f));
    var full := Times(Shl(aMant, f.exp - 1), Shl(bMant, f.exp - 1));
    var y := ScaledValue(full as real, 0);
    ExactProduct(A, aMant, aExp - 1, B, bMant, bExp - 1, f.exp - 1, f.exp - 1, 0, QuantumExp(f), full, y, C, x);
    var e := aExp + bExp - Pow2(f.exp - 1) + 3 - f.exp - f.Size();
    assert aExp - 1 + (bExp - 1) + QuantumExp(f) - (f.exp - 1) - (f.exp - 1) + 0 == e;
    ScaleChain(full as real, y, x, 0, e);
  }

  lemma FmaProductBounds(f: Format, aMant: nat, bMant: nat)
    requires Pow2(f.mant) <= aMant < Pow2(f.mant + 1) && Pow2(f.mant) <= bMant < Pow2(f.mant + 1)
    ensures var W := Times(Shl(aMant, f.exp - 1), Shl(bMant, f.exp - 1));
      Pow2(2 * f.Size() - 4) <= W < Pow2(2 * f.Size() - 2) && W % 4 == 0
  {
    hide Pow2, Shl, Times;
    ShlBounds(aMant, f.mant, f.exp - 1);
    ShlBounds(bMant, f.mant, f.exp - 1);
    ProductBounds(Shl(aMant, f.exp - 1), f.mant + f.exp - 1, Shl(bMant, f.exp - 1), f.mant + f.exp - 1);
    ShlFour(aMant, f.exp - 1);
    TimesFour(Shl(aMant, f.exp - 1), Shl(bMant, f.exp - 1));
  }

  lemma MulWideIs(size: nat, W: nat, hi: nat, lo: nat)
    requires hi == W / Pow2(size) && lo == W % Pow2(size)
    ensures Wide(size, hi, lo) == W && lo < Pow2(size)
  {
  }

  /** Doubling a term that is one bit short of normalized. */
  lemma DoubledTerm(f: Format, W: nat, x: real, e: int)
    requires Pow2(2 * f.Size() - 4) <= W < Pow2(2 * f.Size() - 3) && W % 4 == 0 && IsProduct(x, W as real, P2(e))
    ensures Pow2(2 * f.Size() - 3) <= Shl(W, 1) < Pow2(2 * f.Size() - 2) && Shl(W, 1) % 4 == 0
    ensures IsProduct(x, Shl(W, 1) as real, P2(e - 1))
  {
    hide Pow2, Shl, IsProduct, P2;
    Pow2Double(2 * f.Size() - 4);
    Pow2Double(2 * f.Size() - 3);
    ShlOnce(W);
    ShlScales(W, 1);
    ScaleSplit(W as real, Shl(W, 1) as real, x, 1, e);
  }

  /** The product term: the double-width product, normalized to F_SIZE - 3. */
  method FmaProduct(f: Format, a: nat, b: nat) returns (exp: int, hi: nat, lo: nat, ghost x: real)
    requires f.Finite(a) && f.Finite(b) && !IsZero(f, a) && !IsZero(f, b)
    ensures IsTerm(f, exp, hi, lo, x)
    ensures ExactMul(f, a, b) == Signed(f.Negative(a) != f.Negative(b), x)
  {
    hide Mag, ExactMul, Pow2, P2, IsProduct, Shl, Times, Wide, Jam, JamDiv,
         FormatSizes.Negative, FormatSizes.MagBits, FormatSizes.Finite;
    var size := f.Size();
    var aExp, aMant := UnpackNormal(f, a);
    var bExp, bMant := UnpackNormal(f, b);
    exp := aExp + bExp - Pow2(f.exp - 1) + 3;
    hi, lo := MulWide(f, Shl(aMant, f.exp - 1), Shl(bMant, f.exp - 1));
    ghost var W := Times(Shl(aMant, f.exp - 1), Shl(bMant, f.exp - 1));
    ghost var C;
    C, x := FmaProductReading(f, a, b, aExp, aMant, bExp, bMant);
    FmaProductBounds(f, aMant, bMant);
    MulWideIs(size, W, hi, lo);
    ValueProduct(f, a, b, C, x);
    WideBounds(size, hi, lo, size - 3);
    WideBounds(size, hi, lo, size - 2);
    Pow2Mono(size - 2, size);
    if hi < Pow2(size - 3) {
      DoubledTerm(f, W, x, exp - f.exp - size);
      Pow2Mono(2 * size - 2, size + size);
      hi, lo := ShiftLeft(size, hi, lo, 1);
      exp := exp - 1;
    }
  }

  /** The addend term. */
  method FmaAddend(f: Format, c: nat) returns (exp: int, hi: nat, ghost x: real)
    requires f.Finite(c) && !IsZero(f, c)
    ensures IsTerm(f, exp, hi, 0, x) && x == Mag(f, f.MagBits(c)) as real
  {
    hide Mag, Pow2, P2, IsProduct, Shl, Wide, FormatSizes.MagBits, FormatSizes.Finite;
    var cExp, cMant := UnpackNormal(f, c);
    exp, hi := cExp + 1, Shl(cMant, f.exp - 2);
    x := Mag(f, f.MagBits(c)) as real;
    AddendTerm(f, cExp, cMant, x);
  }

  lemma AddendTerm(f: Format, cExp: int, cMant: nat, x: real)
    requires Pow2(f.mant) <= cMant < Pow2(f.mant + 1) && IsProduct(x, cMant as real, P2(cExp - 1))
    ensures IsTerm(f, cExp + 1, Shl(cMant, f.exp - 2), 0, x)
  {
    var size := f.Size();
    var k := f.exp - 2 + size;
    ShlTwice(cMant, f.exp - 2, size);
    hide Pow2, P2, Shl, IsProduct;
    ShlBounds(cMant, f.mant, f.exp - 2);
    ShlBounds(cMant, f.mant, k);
    ShlFour(cMant, k);
    Pow2Mono(f.mant + f.exp - 1, size);
    ShlScales(cMant, k);
    ScaleSplit(cMant as real, Shl(cMant, k) as real, x, k, cExp - 1);
    assert cExp - 1 - k == cExp + 1 - f.exp - size;
  }

  lemma TermWords(f: Format, exp: int, hi: nat, lo: nat, x: real)
    requires IsTerm(f, exp, hi, lo, x)
    ensures 0 < hi < Pow2(f.Size()) && lo < Pow2(f.Size())
  {
    var size := f.Size();
    Pow2Mono(size, 2 * size - 3);
    ShlOne(size);
  }

  /** The aligned terms add up to a double word that stands for the exact sum. */
  lemma TermSum(f: Format, rExp: int, r1: nat, r0: nat, xr: real, cExp: int, c1: nat, c0: nat, xc: real,
                d1: nat, d0: nat, plus: bool) returns (z: real, x: real)
    requires IsTerm(f, rExp, r1, r0, xr) && IsTerm(f, cExp, c1, c0, xc)
    requires rExp > cExp || (rExp == cExp && Wide(f.Size(), c1, c0) <= Wide(f.Size(), r1, r0))
    requires r0 == 0 || c0 == 0
    requires d0 < Pow2(f.Size()) && c1 > 0
    requires var shift := rExp - cExp;
      && (shift <= f.Size() || c0 == 0 ==> Wide(f.Size(), d1, d0) == JamShift(Wide(f.Size(), c1, c0), shift))
      && (shift > f.Size() ==> d1 == 0 && (c1 > 0 ==> d0 > 0))
    ensures var R, S' := Wide(f.Size(), r1, r0), Wide(f.Size(), d1, d0);
      && S' <= R && R + S' < Pow2(2 * f.Size() - 1)
      && WideStandsFor(f, if plus then R + S' else R - S', z)
    ensures IsProduct(x, z, P2(rExp - f.exp - f.Size()))
    ensures x == if plus then xr + xc else xr - xc
  {
    hide P2, Pow2, IsProduct, Wide, JamShift, WideStandsFor, Low;
    var size := f.Size();
    var R, S, S' := Wide(size, r1, r0), Wide(size, c1, c0), Wide(size, d1, d0);
    var d := rExp - cExp;
    var e := rExp - f.exp - size;
    var y := ScaledValue(S as real, -d);
    ScaleSplit(S as real, y, xc, -d, cExp - f.exp - size);
    assert cExp - f.exp - size - (-d) == e;
    if d > size { WideLow(size, d0); }
    if c0 != 0 { WideLowZero(size, r1); }
    AlignedSum(f, R, S, c0, d, S', y, plus);
    Pow2Double(2 * size - 2);
    ProductAdd(xr, R as real, xc, y, P2(e));
    z := if plus then R as real + y else R as real - y;
    x := if plus then xr + xc else xr - xc;
  }

  lemma WideLow(size: nat, lo: nat)
    ensures Wide(size, 0, lo) == lo
  {
    ShlOne(size);
  }

  lemma WideLowZero(size: nat, hi: nat)
    ensures Low(Wide(size, hi, 0), size) == 0
  {
    ShrLowUnique(Wide(size, hi, 0), size, hi, 0);
  }

  lemma WideSign(f: Format, M: nat, z: real, x: real, e: int)
    requires WideStandsFor(f, M, z) && IsProduct(x, z, P2(e))
    ensures M == 0 <==> x == 0.0
    ensures x >= 0.0
  {
    if M as real != z { CellPositive(Pow2(f.Size() + f.exp - 4), M, z); }
    ZeroProduct(P2(e));
    hide IsProduct, P2;
    ProductOrder(0.0, 0.0, x, z, P2(e));
  }

  lemma SumSigns(s: bool, t: bool, xr: real, xc: real, x: real)
    requires x == if s == t then xr + xc else xr - xc
    ensures Signed(s, xr) + Signed(t, xc) == Signed(s, x)
  {
  }

  /** The sum of two terms with the larger one first. */
  method FmaSum(f: Format, rm: RoundingMode, before: Flags, s0: bool, rExp: int, r1: nat, r0: nat, ghost xr: real,
                cNeg: bool, cExp: int, c1: nat, c0: nat, ghost xc: real) returns (r: nat, after: Flags)
    requires IsTerm(f, rExp, r1, r0, xr) && IsTerm(f, cExp, c1, c0, xc)
    requires rExp > cExp || (rExp == cExp && Wide(f.Size(), c1, c0) <= Wide(f.Size(), r1, r0))
    requires r0 == 0 || c0 == 0
    ensures Delivers(f, rm, Signed(s0, xr) + Signed(cNeg, xc), if s0 == cNeg then s0 else rm == RDN, before, r, after)
  {
    hide Delivers, P2, Pow2, IsProduct, Wide, JamShift, IsTerm, WideStandsFor, Signed;
    var size := f.Size();
    var neg := s0;
    TermWords(f, rExp, r1, r0, xr);
    TermWords(f, cExp, c1, c0, xc);
    var d1, d0 := ShiftRightJam(f, c1, c0, rExp - cExp);
    ghost var z, x := TermSum(f, rExp, r1, r0, xr, cExp, c1, c0, xc, d1, d0, neg == cNeg);
    Pow2Mono(2 * size - 1, size + size);
    var hi, lo;
    if neg == cNeg {
      hi, lo := AddWide(size, r1, r0, d1, d0);
    } else {
      hi, lo := SubWide(size, r1, r0, d1, d0);
      if lo == 0 && hi == 0 {
        // zero result: the sign needs a specific handling
        neg := rm == RDN;
        WideLow(size, 0);
      }
    }
    if hi != 0 || lo != 0 { WideNonzero(size, hi, lo); }
    WideSign(f, Wide(size, hi, lo), z, x, rExp - f.exp - size);
    r, after := Normalize2Sf(f, neg, rExp, hi, lo, rm, before, z, x);
    SumSigns(s0, cNeg, xr, xc, x);
    SignedZero(neg, s0, x);
    ZeroSignFree(f, rm, Signed(neg, x), neg, if s0 == cNeg then s0 else rm == RDN, before, r, after);
  }

  /** What fma_sf returns for an infinite or NaN operand. */
  ghost predicate FmaSpecial(f: Format, a: nat, b: nat, c: nat, before: Flags, r: nat, after: Flags) {
    var pNeg := f.Negative(a) != f.Negative(b);
    if IsNan(f, a) || IsNan(f, b) || IsNan(f, c) then
      r == QuietNan(f) &&
      after == before.(invalid := before.invalid || IsSignalingNan(f, a) || IsSignalingNan(f, b) ||
                       IsSignalingNan(f, c))
    else if IsInf(f, a) || IsInf(f, b) then
      if IsZero(f, a) || IsZero(f, b) || (IsInf(f, c) && pNeg != f.Negative(c)) then
        InvalidResult(f, before, r, after)
      else
        r == Pack(f, pNeg, f.ExpMask(), 0) && after == before
    else
      r == Pack(f, f.Negative(c), f.ExpMask(), 0) && after == before
  }

  /** The branch of fma_sf for an infinite or NaN operand. */
  method FmaNonFinite(f: Format, a: nat, b: nat, c: nat, before: Flags) returns (r: nat, after: Flags)
    requires f.Word(a) && f.Word(b) && f.Word(c)
    requires ExpField(f, a) == f.ExpMask() || ExpField(f, b) == f.ExpMask() || ExpField(f, c) == f.ExpMask()
    ensures FmaSpecial(f, a, b, c, before, r, after)
  {
    after := before;
    ZeroByFields(f, a);
    ZeroByFields(f, b);
    ExpMaskPositive(f);
    var neg, cNeg := f.Negative(a) != f.Negative(b), f.Negative(c);
    hide QuietNan, IsSignalingNan, ExpField, MantField, Pack, IsZero, FormatSizes.ExpMask, FormatSizes.Negative;
    if IsNan(f, a) || IsNan(f, b) || IsNan(f, c) {
      if IsSignalingNan(f, a) || IsSignalingNan(f, b) || IsSignalingNan(f, c) {
        after := after.(invalid := true);
      }
      r := QuietNan(f);
    } else if (ExpField(f, a) == f.ExpMask() && ExpField(f, b) == 0 && MantField(f, b) == 0) ||
              (ExpField(f, b) == f.ExpMask() && ExpField(f, a) == 0 && MantField(f, a) == 0) ||
              ((ExpField(f, a) == f.ExpMask() || ExpField(f, b) == f.ExpMask()) &&
               ExpField(f, c) == f.ExpMask() && neg != cNeg) {
      r, after := QuietNan(f), after.(invalid := true);
    } else if ExpField(f, c) == f.ExpMask() {
      r := Pack(f, cNeg, f.ExpMask(), 0);
    } else {
      r := Pack(f, neg, f.ExpMask(), 0);
    }
  }

  /** A representable value is delivered unchanged and raises nothing. */
  lemma ExactDelivers(f: Format, rm: RoundingMode, c: nat, zeroSign: bool, before: Flags)
    requires f.Finite(c) && (IsZero(f, c) ==> zeroSign == f.Negative(c))
    ensures Delivers(f, rm, Value(f, c), zeroSign, before, c, before)
  {
    var e, neg := f.MagBits(c), f.Negative(c);
    var x := Mag(f, e) as real;
    WordOf(f, c);
    SelfRounded(f, rm, neg, e);
    if x == 0.0 { OnlyZero(f, e); }
    hide Mag, FormatSizes.Inf, FormatSizes.MagBits, FormatSizes.Negative, RoundedMag;
    SignedAbs(neg, x);
    RoundedMagIsCorrect(f, rm, Signed(neg, x), neg, e, c);
    hide Exact, Overflows, CorrectlyRounded, Tiny;
    OutcomeDelivers(f, rm, neg, x, before, c, before);
    ZeroSignFree(f, rm, Signed(neg, x), neg, zeroSign, before, c, before);
  }

  lemma SelfRounded(f: Format, rm: RoundingMode, neg: bool, e: nat)
    ensures RoundedMag(f, rm, neg, Mag(f, e) as real, e)
  {
    hide Mag;
    MagSucc(f, e);
    if e > 0 { MagSucc(f, e - 1); }
  }

  lemma OnlyZero(f: Format, e: nat)
    requires Mag(f, e) == 0
    ensures e == 0
  {
    hide Mag;
    MagZero(f);
    if e > 0 { MagMono(f, 0, e); }
  }

  lemma ZeroAddend(f: Format, c: nat)
    requires IsZero(f, c)
    ensures Value(f, c) == 0.0
  {
    MagZero(f);
    hide Mag, FormatSizes.MagBits;
  }

  /** A product term with nothing added, jammed into one word. */
  method FmaAddZero(f: Format, rm: RoundingMode, before: Flags, neg: bool, exp: int, hi: nat, lo: nat, ghost x: real,
                    ghost zeroSign: bool)
    returns (r: nat, after: Flags)
    requires IsTerm(f, exp, hi, lo, x)
    ensures Delivers(f, rm, Signed(neg, x), zeroSign, before, r, after)
  {
    hide Delivers, StandsFor, Jam, Signed, IsTerm;
    var m := Jam(hi, lo != 0);
    ghost var y := JammedTerm(f, exp, hi, lo, x);
    r, after := NormalizeSf(f, neg, exp, m, rm, before);
    assert ReadsUpTo(f, 1, exp, m, y, x);
    SignedZero(neg, neg, x);
    ZeroSignFree(f, rm, Signed(neg, x), neg, zeroSign, before, r, after);
  }

  lemma JammedTerm(f: Format, exp: int, hi: nat, lo: nat, x: real) returns (y: real)
    requires IsTerm(f, exp, hi, lo, x)
    ensures Jam(hi, lo != 0) < Pow2(f.mant + f.exp) && StandsFor(f, 1, Jam(hi, lo != 0), y)
    ensures IsProduct(x, y, P2(exp - f.exp)) && x != 0.0
  {
    var size := f.Size();
    var W := Wide(size, hi, lo);
    hide P2, Pow2, IsProduct, StandsFor, Jam, Wide;
    y := ScaledValue(W as real, -(size as int));
    ScaleSplit(W as real, y, x, -(size as int), exp - f.exp - size);
    assert exp - f.exp - size - (-(size as int)) == exp - f.exp;
    Pow2Mono(2 * size - 2, 2 * size - 1);
    JammedWord(f, W, y);
    HighJam(size, hi, lo);
    ZeroProduct(P2(exp - f.exp - size));
    ProductOrder(0.0, 0.0, x, W as real, P2(exp - f.exp - size));
  }

  /** fma_sf: a * b + c rounded once. */
  method FmaSf(f: Format, a: nat, b: nat, c: nat, rm: RoundingMode, before: Flags) returns (r: nat, after: Flags)
    requires f.Word(a) && f.Word(b) && f.Word(c)
    ensures f.Finite(a) && f.Finite(b) && f.Finite(c) ==>
      Delivers(f, rm, ExactMul(f, a, b) + Value(f, c),
               if (f.Negative(a) != f.Negative(b)) == f.Negative(c) then f.Negative(c) else rm == RDN, before, r, after)
    ensures !f.Finite(a) || !f.Finite(b) || !f.Finite(c) ==> FmaSpecial(f, a, b, c, before, r, after)
    ensures NanRule(f, IsNan(f, a) || IsNan(f, b) || IsNan(f, c),
                    IsSignalingNan(f, a) || IsSignalingNan(f, b) || IsSignalingNan(f, c), FmaInvalid(f, a, b, c),
                    before, r, after)
  {
    FieldsOf(f, a); FieldsOf(f, b); FieldsOf(f, c);
    ZeroByFields(f, a); ZeroByFields(f, b); ZeroByFields(f, c);
    hide ExpField, MantField, Delivers, ExactMul, Value, Pow2, P2, IsZero, IsTerm, Signed, Pack, FmaSpecial,
         FormatSizes.ExpMask, FormatSizes.Finite, FormatSizes.Negative;
    if ExpField(f, a) == f.ExpMask() || ExpField(f, b) == f.ExpMask() || ExpField(f, c) == f.ExpMask() {
      r, after := FmaNonFinite(f, a, b, c, before);
    } else if (ExpField(f, a) == 0 && MantField(f, a) == 0) || (ExpField(f, b) == 0 && MantField(f, b) == 0) {
      r, after := FmaMulZero(f, a, b, c, rm, before);
    } else {
      r, after := FmaFinite(f, a, b, c, rm, before);
    }
    hide NanRule, IsNan, FmaInvalid;
    FmaNans(f, a, b, c, rm, before, r, after);
  }

  /** Zero times infinity, and an infinite product less an infinity. */
  predicate FmaInvalid(f: Format, a: nat, b: nat, c: nat) {
    || MulInvalid(f, a, b)
    || ((IsInf(f, a) || IsInf(f, b)) && IsInf(f, c) && (f.Negative(a) != f.Negative(b)) != f.Negative(c))
  }

  lemma FmaNans(f: Format, a: nat, b: nat, c: nat, rm: RoundingMode, before: Flags, r: nat, after: Flags)
    requires f.Word(a) && f.Word(b) && f.Word(c)
    requires f.Finite(a) && f.Finite(b) && f.Finite(c) ==>
      Delivers(f, rm, ExactMul(f, a, b) + Value(f, c),
               if (f.Negative(a) != f.Negative(b)) == f.Negative(c) then f.Negative(c) else rm == RDN, before, r, after)
    requires !f.Finite(a) || !f.Finite(b) || !f.Finite(c) ==> FmaSpecial(f, a, b, c, before, r, after)
    ensures NanRule(f, IsNan(f, a) || IsNan(f, b) || IsNan(f, c),
                    IsSignalingNan(f, a) || IsSignalingNan(f, b) || IsSignalingNan(f, c), FmaInvalid(f, a, b, c),
                    before, r, after)
  {
    Classes(f, a);
    Classes(f, b);
    Classes(f, c);
    QuietNanIs(f);
    var neg := f.Negative(a) != f.Negative(b);
    hide Delivers, ExactMul, Value, QuietNan, Pack, IsSignalingNan, IsNan, IsInf, FormatSizes.MagBits,
         FormatSizes.Negative, FormatSizes.ExpMask;
    InfinityWord(f, neg, Pack(f, neg, f.ExpMask(), 0));
    InfinityWord(f, f.Negative(c), Pack(f, f.Negative(c), f.ExpMask(), 0));
    if f.Finite(a) && f.Finite(b) && f.Finite(c) {
      DeliversNoNan(f, rm, ExactMul(f, a, b) + Value(f, c),
                    if neg == f.Negative(c) then f.Negative(c) else rm == RDN, before, r, after);
    }
  }

  /** The product is zero. */
  method FmaMulZero(f: Format, a: nat, b: nat, c: nat, rm: RoundingMode, before: Flags) returns (r: nat, after: Flags)
    requires f.Finite(a) && f.Finite(b) && f.Finite(c) && (IsZero(f, a) || IsZero(f, b))
    ensures Delivers(f, rm, ExactMul(f, a, b) + Value(f, c),
      if (f.Negative(a) != f.Negative(b)) == f.Negative(c) then f.Negative(c) else rm == RDN, before, r, after)
  {
    ZeroByFields(f, c);
    ZeroFactor(f, a, b);
    hide ExpField, MantField, Delivers, ExactMul, Pack, IsZero;
    after := before;
    if ExpField(f, c) == 0 && MantField(f, c) == 0 {
      var neg := f.Negative(a) != f.Negative(b);
      if f.Negative(c) != neg {
        neg := rm == RDN;
      }
      r := Pack(f, neg, 0, 0);
      ZeroAddend(f, c);
      ZeroDelivers(f, rm, neg, before);
    } else {
      r := c;
      ExactDelivers(f, rm, c, if (f.Negative(a) != f.Negative(b)) == f.Negative(c) then f.Negative(c)
                    else rm == RDN, before);
    }
  }

  /** All operands finite, the product nonzero. */
  method FmaFinite(f: Format, a: nat, b: nat, c: nat, rm: RoundingMode, before: Flags) returns (r: nat, after: Flags)
    requires f.Finite(a) && f.Finite(b) && f.Finite(c) && !IsZero(f, a) && !IsZero(f, b)
    ensures Delivers(f, rm, ExactMul(f, a, b) + Value(f, c),
      if (f.Negative(a) != f.Negative(b)) == f.Negative(c) then f.Negative(c) else rm == RDN, before, r, after)
  {
    ZeroByFields(f, c);
    ValueOf(f, c);
    hide ExpField, MantField, Delivers, ExactMul, Value, Pow2, P2, IsZero, IsTerm, Signed, Wide,
         FormatSizes.Finite, FormatSizes.Negative;
    var neg, cNeg := f.Negative(a) != f.Negative(b), f.Negative(c);
    var rExp, r1, r0;
    ghost var xr, xc;
    rExp, r1, r0, xr := FmaProduct(f, a, b);
    if ExpField(f, c) == 0 && MantField(f, c) == 0 {
      ZeroAddend(f, c);
      r, after := FmaAddZero(f, rm, before, neg, rExp, r1, r0, xr, if neg == cNeg then cNeg else rm == RDN);
    } else {
      var cExp, c1, c0 := 0, 0, 0;
      cExp, c1, xc := FmaAddend(f, c);
      TermWords(f, rExp, r1, r0, xr);
      TermWords(f, cExp, c1, 0, xc);
      WideOrder(f.Size(), c1, 0, r1, r0);
      WideOrder(f.Size(), r1, r0, c1, 0);
      // ensure that abs(r) >= abs(c)
      if !(rExp > cExp || (rExp == cExp && r1 >= c1)) {
        rExp, cExp := cExp, rExp;
        r1, c1 := c1, r1;
        r0, c0 := c0, r0;
        neg, cNeg := cNeg, neg;
        xr, xc := xc, xr;
      }
      r, after := FmaSum(f, rm, before, neg, rExp, r1, r0, xr, cNeg, cExp, c1, c0, xc);
    }
  }

  lemma ValueOf(f: Format, c: nat)
    ensures Value(f, c) == Signed(f.Negative(c), Mag(f, f.MagBits(c)) as real)
  {
  }
}
