/** Square root (softfp_template.h: sqrt_sf). */
module SquareRoot {
  import opened Powers
  import opened IeeeFormat
  import opened Rounding
  import opened Jamming
  import opened RoundPack
  import opened Normalize
  import opened Addition
  import opened Multiplication
  import opened IntegerLoops
  import opened RootWords
  import opened Division

  /** `x` is the exact square root in quanta. */
  ghost predicate IsSquareRoot(f: Format, a: nat, x: real) {
    x >= 0.0 && TimesQuanta(f, x, x) == Value(f, a)
  }

  lemma RealOrder(a: real, b: real)
    requires a >= 0.0 && b >= 0.0
    ensures a < b <==> a * a < b * b
    ensures a == b <==> a * a == b * b
  {
    if a < b { MulMonotone(a, a, b); MulMonotone(b, a, b); if a * a == b * b { StrictSquares(a, b); } }
    if b < a { MulMonotone(b, b, a); MulMonotone(a, b, a); if a * a == b * b { StrictSquares(b, a); } }
  }

  lemma StrictSquares(a: real, b: real)
    requires 0.0 <= a < b
    ensures a * a < b * b
  {
    assert b * b - a * a == (b - a) * (b + a);
    MulPositive(b - a, b + a);
  }

  /** The integer root with the inexactness jammed in compares with even numbers as the real root does. */
  lemma RootSide(N: nat, s: nat, y: real, g: nat)
    requires IsRoot(N, s) && y >= 0.0 && y * y == N as real && g % 2 == 0
    ensures SameSide(g, Jam(s, Sq(s) != N), y)
  {
    hide Sq, IsRoot;
    RootBetween(N, s, y);
  }

  lemma RootBetween(N: nat, s: nat, y: real)
    requires IsRoot(N, s) && y >= 0.0 && y * y == N as real
    ensures s as real <= y < s as real + 1.0 && (y == s as real <==> Sq(s) == N)
  {
    RealOrder(s as real, y);
    RealOrder(y, (s + 1) as real);
    SqReal(s);
    SqReal(s + 1);
  }

  lemma SqReal(s: nat)
    ensures Sq(s) as real == s as real * s as real
  {
  }

  lemma RootCell(q: nat, N: nat, s: nat, y: real)
    requires IsRoot(N, s) && y >= 0.0 && y * y == N as real && q % 2 == 0
    ensures SameCell(q, Jam(s, Sq(s) != N), y)
  {
    hide Times, Sq;
    forall k: nat ensures SameSide(Times(k, q), Jam(s, Sq(s) != N), y) {
      TimesEven(k, q);
      RootSide(N, s, y, Times(k, q));
    }
  }

  lemma RootRange(f: Format, N: nat, s: nat)
    requires IsRoot(N, s) && Pow2(2 * f.Size() - 4) <= N < Pow2(2 * f.Size() - 2)
    ensures Pow2(f.mant + f.exp - 1) <= s < Pow2(f.mant + f.exp)
  {
    SqPow(f.mant + f.exp - 1);
    SqPow(f.mant + f.exp);
    assert f.mant + f.exp + (f.mant + f.exp) == 2 * f.Size() - 2;
    assert f.mant + f.exp - 1 + (f.mant + f.exp - 1) == 2 * f.Size() - 4;
    hide Pow2, Sq;
    SqMono(s + 1, Pow2(f.mant + f.exp - 1));
    SqMono(Pow2(f.mant + f.exp), s);
  }

  /** The exact root in the scale of the integer root of the aligned mantissa. */
  lemma RootReading(f: Format, A: real, am: nat, ea: int, t: nat, e: int, x: real, y: real)
    requires x >= 0.0 && TimesQuanta(f, x, x) == A && IsProduct(A, am as real, P2(ea - 1))
    requires IsProduct(x, y, P2(e)) && t == ea - 1 - 2 * e - QuantumExp(f)
    ensures y >= 0.0 && y * y == Shl(am, t) as real
  {
    var X, Y := x * x, y * y;
    assert IsProduct(X, x, x) && IsProduct(Y, y, y) && IsProduct(A, X, P2(QuantumExp(f)));
    hide P2;
    ZeroProduct(P2(e));
    ProductOrder(x, y, 0.0, 0.0, P2(e));
    hide IsProduct, Shl;
    ScaleMul(x, y, e, x, y, e, X, Y);
    ScaleChain(Y, X, A, e + e, QuantumExp(f));
    ShlScales(am, t);
    ScaleSplit(am as real, Shl(am, t) as real, A, t, ea - 1);
    assert ea - 1 - t == e + e + QuantumExp(f);
    SameScale(Y, Shl(am, t) as real, A, P2(e + e + QuantumExp(f)));
  }

  lemma SameScale(u: real, v: real, A: real, p: real)
    requires p > 0.0 && IsProduct(A, u, p) && IsProduct(A, v, p)
    ensures u == v
  {
    hide IsProduct;
    ProductOrder(A, u, A, v, p);
  }

  /** sqrt_sf on a positive finite operand. */
  method SqrtFinite(f: Format, a: nat, rm: RoundingMode, before: Flags, wide: bool) returns (r: nat, after: Flags)
    requires f.Finite(a) && !IsZero(f, a) && !f.Negative(a)
    ensures forall x: real :: IsSquareRoot(f, a, x) ==> Delivers(f, rm, x, false, before, r, after)
    ensures NanRule(f, false, false, false, before, r, after)
  {
    hide Mag, Delivers, Pow2, P2, IsProduct, StandsFor, Shl, Jam, Sq, IsSquareRoot, ReadsUpTo, IsRoot,
         FormatSizes.MagBits, FormatSizes.Finite, FormatSizes.Bias;
    var aExp, aMant := UnpackNormal(f, a);
    ghost var am := aMant;
    var exp := aExp - f.Bias();
    // simpler to handle an even exponent
    if exp % 2 != 0 {
      exp := exp - 1;
      aMant := Shl(aMant, 1);
    }
    ghost var odd := if exp == aExp - f.Bias() then 0 else 1;
    exp := exp / 2 + f.Bias();
    AlignedRadicand(f, am, aMant, odd);
    aMant := Shl(aMant, f.exp - 3);
    var s, inexact := Root(f, aMant, wide);
    RootRange(f, Shl(aMant, f.Size()), s);
    Pow2Even(f.mant + f.exp);
    JamTop(s, inexact, Pow2(f.mant + f.exp));
    var m := Jam(s, inexact);
    r, after := NormalizeSf(f, false, exp, m, rm, before);
    forall x: real | IsSquareRoot(f, a, x)
      ensures Delivers(f, rm, x, false, before, r, after)
    {
      var y := RootStands(f, a, aExp, am, odd, exp, aMant, s, m, x);
      assert ReadsUpTo(f, 0, exp, m, y, x);
    }
    ghost var y, x := SomeReading(f, exp, m);
    DeliversNoNan(f, rm, Signed(false, x), false, before, r, after);
  }

  /** A mantissa stands for itself, too. */
  lemma SomeReading(f: Format, exp: int, m: nat) returns (y: real, x: real)
    ensures ReadsUpTo(f, 0, exp, m, y, x)
  {
    y := m as real;
    hide P2;
    x := RealProduct(y, P2(exp - f.exp));
  }

  /** sqrtrem_u with a wider type, or in single words. */
  method Root(f: Format, aMant: nat, wide: bool) returns (s: nat, inexact: bool)
    requires Shl(aMant, f.Size()) < Pow2(2 * f.Size() - 2) && aMant < Pow2(f.Size())
    ensures IsRoot(Shl(aMant, f.Size()), s) && (inexact <==> Sq(s) != Shl(aMant, f.Size()))
  {
    InitialRootIsHigh(f.Size(), aMant, 0);
    if wide {
      hide Pow2, Shl, Sq, IsRoot, InitialRoot;
      s, inexact := SqrtRemU(f.Size(), aMant, 0);
    } else {
      QuarterWord(f, aMant);
      hide Pow2, Shl, Sq, IsRoot, InitialRoot;
      var wraps;
      s, inexact, wraps := SqrtRemWords(f.Size(), aMant, 0);
    }
  }

  lemma QuarterWord(f: Format, aMant: nat)
    requires Shl(aMant, f.Size()) < Pow2(2 * f.Size() - 2)
    ensures aMant < Pow2(f.Size() - 2) && f.Size() >= 4 && Shl(aMant, f.Size()) + 1 != Pow2(2 * f.Size() - 2)
    ensures 0 < Pow2(f.Size())
  {
    var n := f.Size();
    ShlPow(n - 2, n);
    ShlMono(Pow2(n - 2), aMant, n);
    ShlEven(aMant, n);
    Pow2Even(2 * n - 2);
    hide Pow2, Shl;
  }

  lemma JamTop(s: nat, sticky: bool, top: nat)
    requires s < top && top % 2 == 0
    ensures s <= Jam(s, sticky) < top
  {
  }

  lemma AlignedRadicand(f: Format, am: nat, aMant: nat, odd: nat)
    requires Pow2(f.mant) <= am < Pow2(f.mant + 1) && odd <= 1 && aMant == (if odd == 1 then Shl(am, 1) else am)
    ensures Shl(Shl(aMant, f.exp - 3), f.Size()) == Shl(am, f.mant + 2 * f.exp - 2 + odd)
    ensures Pow2(2 * f.Size() - 4) <= Shl(Shl(aMant, f.exp - 3), f.Size()) < Pow2(2 * f.Size() - 2)
    ensures Shl(aMant, f.exp - 3) < Pow2(f.Size())
  {
    hide Shl, Pow2;
    ShlZero(am);
    ShlTwice(am, odd, f.exp - 3);
    ShlTwice(am, odd + f.exp - 3, f.Size());
    ShlBounds(am, f.mant, odd + f.exp - 3);
    ShlBounds(am, f.mant, f.mant + 2 * f.exp - 2 + odd);
    Pow2Mono(f.mant + (odd + f.exp - 3) + 1, f.Size());
    Pow2Mono(2 * f.Size() - 4, f.mant + (f.mant + 2 * f.exp - 2 + odd));
    Pow2Mono(f.mant + (f.mant + 2 * f.exp - 2 + odd) + 1, 2 * f.Size() - 2);
  }

  lemma RootStands(f: Format, a: nat, aExp: int, am: nat, odd: nat, exp: int, aMant: nat, s: nat, m: nat, x: real)
    returns (y: real)
    requires !f.Negative(a) && IsSquareRoot(f, a, x)
    requires IsProduct(Mag(f, f.MagBits(a)) as real, am as real, P2(aExp - 1))
    requires odd <= 1 && (aExp - f.Bias() - odd) % 2 == 0 && exp == (aExp - f.Bias() - odd) / 2 + f.Bias()
    requires Shl(aMant, f.Size()) == Shl(am, f.mant + 2 * f.exp - 2 + odd)
    requires IsRoot(Shl(aMant, f.Size()), s) && m == Jam(s, Sq(s) != Shl(aMant, f.Size()))
    requires Pow2(f.mant + f.exp - 1) <= m
    ensures ReadsUpTo(f, 0, exp, m, y, x)
  {
    var N := Shl(aMant, f.Size());
    y := ScaledValue(x, -(exp - f.exp));
    ScaleBack(x, y, -(exp - f.exp));
    hide Mag, Pow2, P2, IsProduct, Shl, Jam, Sq, IsRoot, FormatSizes.MagBits, FormatSizes.Negative, FormatSizes.Bias;
    var t := f.mant + 2 * f.exp - 2 + odd;
    assert t == aExp - 1 - 2 * (exp - f.exp) - QuantumExp(f);
    RootReading(f, Value(f, a), am, aExp, t, exp - f.exp, x, y);
    Pow2Even(f.exp - 2);
    RootCell(Pow2(f.exp - 2), N, s, y);
  }

  lemma ZeroSquare(x: real, s: real, t: real, p: real)
    requires IsProduct(s, x, x) && IsProduct(t, s, p) && p > 0.0 && x >= 0.0 && t == 0.0
    ensures x == 0.0
  {
    if x > 0.0 {
      ZeroProduct(x);
      ZeroProduct(p);
      hide IsProduct;
      ProductOrder(0.0, 0.0, s, x, x);
      ProductOrder(0.0, 0.0, t, s, p);
    }
  }

  lemma ZeroRoot(f: Format, a: nat, x: real)
    requires IsZero(f, a) && IsSquareRoot(f, a, x)
    ensures x == 0.0
  {
    NonzeroValue(f, a);
    var p := P2(QuantumExp(f));
    hide P2, Value, IsZero;
    ZeroSquare(x, x * x, x * x * p, p);
  }

  lemma ZeroWord(f: Format, a: nat)
    requires f.Word(a) && IsZero(f, a)
    ensures a == Pack(f, f.Negative(a), 0, 0)
  {
    WordOf(f, a);
    PackIs(f, f.Negative(a), 0, 0, 0);
  }

  /** What sqrt_sf returns for a NaN, an infinity or a negative nonzero operand. */
  ghost predicate SqrtSpecial(f: Format, a: nat, before: Flags, r: nat, after: Flags) {
    if IsNan(f, a) then
      r == QuietNan(f) && after == before.(invalid := before.invalid || IsSignalingNan(f, a))
    else if f.Negative(a) then
      InvalidResult(f, before, r, after)
    else
      r == a && after == before
  }

  /** sqrt_sf; `wide` tells whether there is a type of twice the width. */
  method SqrtSf(f: Format, a: nat, rm: RoundingMode, before: Flags, wide: bool) returns (r: nat, after: Flags)
    requires f.Word(a)
    ensures f.Finite(a) && (IsZero(f, a) || !f.Negative(a)) ==>
      forall x: real :: IsSquareRoot(f, a, x) ==> Delivers(f, rm, x, f.Negative(a), before, r, after)
    ensures !f.Finite(a) || (f.Negative(a) && !IsZero(f, a)) ==> SqrtSpecial(f, a, before, r, after)
    ensures NanRule(f, IsNan(f, a), IsSignalingNan(f, a), f.Negative(a) && f.MagBits(a) != 0, before, r, after)
  {
    Classes(f, a);
    ZeroByFields(f, a);
    hide ExpField, MantField, Delivers, Pow2, IsSignalingNan, QuietNan, IsSquareRoot, IsZero, Pack, NanRule,
         FormatSizes.ExpMask, FormatSizes.Inf, FormatSizes.Finite, FormatSizes.Negative, FormatSizes.MagBits;
    var neg := f.Negative(a);
    after := before;
    if ExpField(f, a) == f.ExpMask() {
      if MantField(f, a) != 0 {
        if IsSignalingNan(f, a) {
          after := after.(invalid := true);
        }
        r := QuietNan(f);
      } else if neg {
        r, after := QuietNan(f), after.(invalid := true);
      } else {
        r := a;
      }
    } else if ExpField(f, a) == 0 && MantField(f, a) == 0 {
      // -0 is its own root
      r := if neg then a else Pack(f, false, 0, 0);
      ZeroWord(f, a);
      ZeroDelivers(f, rm, neg, before);
      DeliversNoNan(f, rm, 0.0, neg, before, r, after);
      forall x: real | IsSquareRoot(f, a, x) ensures x == 0.0 {
        ZeroRoot(f, a, x);
      }
    } else if neg {
      r, after := QuietNan(f), after.(invalid := true);
    } else {
      r, after := SqrtFinite(f, a, rm, before, wide);
    }
    hide NanRule, IsNan, SqrtSpecial;
    SqrtNans(f, a, rm, before, r, after);
  }

  lemma SqrtNans(f: Format, a: nat, rm: RoundingMode, before: Flags, r: nat, after: Flags)
    requires f.Word(a)
    requires f.Finite(a) && (IsZero(f, a) || !f.Negative(a)) ==>
      NanRule(f, false, false, false, before, r, after)
    requires !f.Finite(a) || (f.Negative(a) && !IsZero(f, a)) ==> SqrtSpecial(f, a, before, r, after)
    ensures NanRule(f, IsNan(f, a), IsSignalingNan(f, a), f.Negative(a) && f.MagBits(a) != 0, before, r, after)
  {
    Classes(f, a);
    QuietNanIs(f);
    hide QuietNan, IsSignalingNan, IsNan, FormatSizes.MagBits, FormatSizes.Negative, FormatSizes.Inf;
  }
}
