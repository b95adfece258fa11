/** Multiplication (softfp_template.h: mul_sf). Products of two values counted in quanta are scaled by one quantum. */
module Multiplication {
  import opened Powers
  import opened IeeeFormat
  import opened Rounding
  import opened Jamming
  import opened RoundPack
  import opened Normalize
  import opened Addition

  /** log2 of the quantum, the least positive number of the format. */
  function QuantumExp(f: Format): int {
    1 - f.Bias() - f.mant
  }

  lemma ProductOfProducts(A: real, a: real, p: real, B: real, b: real, q: real)
    requires IsProduct(A, a, p) && IsProduct(B, b, q)
    ensures IsProduct(A * B, a * b, p * q)
  {
    RealAssoc(a, p, b * q);
    RealAssoc(p, b, q);
    RealAssoc(b, p, q);
    RealAssoc(a, b, p * q);
  }

  /** `C` = `A` * `B` scales `c` = `a` * `b` by the product of the scales. */
  lemma ScaleMul(A: real, a: real, m: int, B: real, b: real, n: int, C: real, c: real)
    requires IsProduct(A, a, P2(m)) && IsProduct(B, b, P2(n))
    requires IsProduct(C, A, B) && IsProduct(c, a, b)
    ensures IsProduct(C, c, P2(m + n))
  {
    P2Product(m, n);
    hide P2;
    ProductOfProducts(A, a, P2(m), B, b, P2(n));
  }

  lemma ShlScales(a: nat, k: nat)
    ensures IsProduct(Shl(a, k) as real, a as real, P2(k))
  {
    ShlReal(a, k);
    P2Nat(k);
  }

  lemma IntProduct(a: nat, b: nat)
    ensures IsProduct((a * b) as real, a as real, b as real) && Times(a, b) == a * b
  {
  }

  /** The exact product `x`, in quanta, is the double word `full` of the aligned mantissas scaled by the word radix. */
  lemma ExactProduct(A: real, am: nat, ea: int, B: real, bm: nat, eb: int, i: nat, j: nat, size: nat, q: int,
                     full: nat, y: real, C: real, x: real)
    requires IsProduct(A, am as real, P2(ea)) && IsProduct(B, bm as real, P2(eb))
    requires full == Times(Shl(am, i), Shl(bm, j)) && IsProduct(y, full as real, P2(-(size as int)))
    requires IsProduct(C, A, B) && IsProduct(x, C, P2(q))
    ensures IsProduct(x, y, P2(ea + eb + q - i - j + size))
  {
    var p := (am * bm) as real;
    IntProduct(am, bm);
    IntProduct(Shl(am, i), Shl(bm, j));
    hide IsProduct, P2, Shl, Times;
    ScaleMul(A, am as real, ea, B, bm as real, eb, C, p);
    ShlScales(am, i);
    ShlScales(bm, j);
    ScaleMul(Shl(am, i) as real, am as real, i, Shl(bm, j) as real, bm as real, j, full as real, p);
    ScaleChain(p, C, x, ea + eb, q);
    ScaleChain(p, full as real, y, i + j, -(size as int));
    ScaleSplit(p, y, x, i + j + -(size as int), ea + eb + q);
    assert ea + eb + q - (i + j + -(size as int)) == ea + eb + q - i - j + size;
  }

  lemma ProductBounds(a: nat, x: nat, b: nat, y: nat)
    requires Pow2(x) <= a < Pow2(x + 1) && Pow2(y) <= b < Pow2(y + 1)
    ensures Pow2(x + y) <= Times(a, b) < Pow2(x + y + 2)
  {
    Pow2Add(x, y);
    Pow2Add(x + 1, y + 1);
    assert x + 1 + (y + 1) == x + y + 2;
    var p, q, p', q' := Pow2(x), Pow2(y), Pow2(x + 1), Pow2(y + 1);
    hide Pow2;
    ProductMono(p, a, q, b);
    ProductStrict(a, p', b, q');
  }

  lemma ProductMono(p: nat, a: nat, q: nat, b: nat)
    requires p <= a && q <= b
    ensures p * q <= a * b
  {
    assert a * b - p * q == a * (b - q) + (a - p) * q;
  }

  lemma ProductStrict(a: nat, p: nat, b: nat, q: nat)
    requires 0 < a < p && 0 < b < q
    ensures a * b < p * q
  {
    assert p * q - a * b == p * (q - b) + (p - a) * b;
    MulAtLeast(q - b, p);
  }

  lemma ShlBounds(a: nat, x: nat, k: nat)
    requires Pow2(x) <= a < Pow2(x + 1)
    ensures Pow2(x + k) <= Shl(a, k) < Pow2(x + k + 1)
  {
    ShlPow(x, k);
    ShlPow(x + 1, k);
    ShlMono(Pow2(x), a, k);
    ShlMono(a, Pow2(x + 1), k);
  }

  /** The high word of a double word between powers of two. */
  lemma HighBounds(full: nat, size: nat, lo: nat, hi: nat)
    requires Pow2(size + lo) <= full < Pow2(size + hi)
    ensures Pow2(lo) <= full / Pow2(size) < Pow2(hi)
  {
    Pow2Add(lo, size);
    Pow2Add(hi, size);
    QuotientBelow(full, Pow2(size), Pow2(hi));
    QuotientBelow(full, Pow2(size), Pow2(lo));
  }

  /** The high word with the low word jammed in stands for the exact quotient. */
  lemma JammedWord(f: Format, full: nat, y: real)
    requires Pow2(2 * f.mant + 2 * f.exp - 1) <= full < Pow2(2 * f.mant + 2 * f.exp + 1)
    requires IsProduct(y, full as real, P2(-(f.Size() as int)))
    ensures var m := JamDiv(full, Pow2(f.Size())); m < Pow2(f.mant + f.exp) && StandsFor(f, 1, m, y)
  {
    var size, c := f.Size(), Pow2(f.Size());
    HighBounds(full, size, f.mant + f.exp - 2, f.mant + f.exp);
    Pow2Even(f.mant + f.exp);
    Pow2Even(f.exp - 3);
    SameCellExact(Times(c, Pow2(f.exp - 3)), full);
    ScaleBack(full as real, y, -(size as int));
    P2Nat(size);
    hide P2, Pow2, IsProduct, SameCell;
    JamKeepsCell(Pow2(f.exp - 3), c, full, full as real, y);
  }

  /** Exact zeros need no rounding. */
  lemma ZeroDelivers(f: Format, rm: RoundingMode, neg: bool, before: Flags)
    ensures Delivers(f, rm, 0.0, neg, before, Pack(f, neg, 0, 0), before)
  {
    var half := Pow2(f.exp - 2);
    DivModUnique(AddendNat(rm, neg, half), 2 * half, 0, AddendNat(rm, neg, half));
    assert Dropped(f, rm, neg, 0) == 0;
    assert Packed(f, rm, neg, 1, 0) == Pack(f, neg, 0, 0);
    hide Pack, Packed, Dropped, Delivers;
    ZeroOutcome(f, rm, neg, 0, 0, 0.0, 1, Pack(f, neg, 0, 0));
    assert Signed(neg, 0.0) == 0.0;
    OutcomeDelivers(f, rm, neg, 0.0, before, Pack(f, neg, 0, 0), before);
  }

  ghost predicate IsZero(f: Format, a: nat) {
    f.MagBits(a) == 0
  }

  /** What mul_sf returns for an infinite or NaN operand. */
  ghost predicate MulSpecial(f: Format, a: nat, b: nat, before: Flags, r: nat, after: Flags) {
    if IsNan(f, a) || IsNan(f, b) then
      r == QuietNan(f) &&
      after == before.(invalid := before.invalid || IsSignalingNan(f, a) || IsSignalingNan(f, b))
    else if IsZero(f, a) || IsZero(f, b) then
      InvalidResult(f, before, r, after)
    else
      r == Pack(f, f.Negative(a) != f.Negative(b), f.ExpMask(), 0) && after == before
  }

  lemma ZeroByFields(f: Format, a: nat)
    requires f.Word(a)
    ensures IsZero(f, a) <==> ExpField(f, a) == 0 && MantField(f, a) == 0
  {
    FieldsOf(f, a);
    ShlOne(f.mant);
    hide Shl, ExpField, MantField, FormatSizes.MagBits;
    if ExpField(f, a) > 0 { ShlMono(1, ExpField(f, a), f.mant); }
  }

  /** The branch of mul_sf for an infinite or NaN operand. */
  method MulNonFinite(f: Format, a: nat, b: nat, before: Flags) returns (r: nat, after: Flags)
    requires f.Word(a) && f.Word(b) && (ExpField(f, a) == f.ExpMask() || ExpField(f, b) == f.ExpMask())
    ensures MulSpecial(f, a, b, before, r, after)
  {
    after := before;
    ZeroByFields(f, a);
    ZeroByFields(f, b);
    ExpMaskPositive(f);
    hide QuietNan, IsSignalingNan, ExpField, MantField, Pack, IsZero, FormatSizes.ExpMask;
    if IsNan(f, a) || IsNan(f, b) {
      if IsSignalingNan(f, a) || IsSignalingNan(f, b) {
        after := after.(invalid := true);
      }
      r := QuietNan(f);
    } else if (ExpField(f, a) == f.ExpMask() && ExpField(f, b) == 0 && MantField(f, b) == 0) ||
              (ExpField(f, b) == f.ExpMask() && ExpField(f, a) == 0 && MantField(f, a) == 0) {
      r, after := QuietNan(f), after.(invalid := true);
    } else {
      r := Pack(f, f.Negative(a) != f.Negative(b), f.ExpMask(), 0);
    }
  }

  lemma ExpMaskPositive(f: Format)
    ensures f.ExpMask() > 0
  {
    Pow2AtLeast(f.exp);
  }

  /** The exact product in quanta: both factors count quanta, so the product of the counts is scaled by one. */
  ghost function ExactMul(f: Format, a: nat, b: nat): real {
    Value(f, a) * Value(f, b) * P2(QuantumExp(f))
  }

  lemma ValueProduct(f: Format, a: nat, b: nat, C: real, x: real)
    requires IsProduct(C, Mag(f, f.MagBits(a)) as real, Mag(f, f.MagBits(b)) as real)
    requires IsProduct(x, C, P2(QuantumExp(f)))
    ensures ExactMul(f, a, b) == Signed(f.Negative(a) != f.Negative(b), x)
  {
    var A, B := Mag(f, f.MagBits(a)) as real, Mag(f, f.MagBits(b)) as real;
    hide Mag, FormatSizes.MagBits, FormatSizes.Negative, P2;
    SignsMultiply(A, B, P2(QuantumExp(f)), f.Negative(a), f.Negative(b));
  }

  lemma SignsMultiply(A: real, B: real, q: real, s: bool, t: bool)
    ensures Signed(s, A) * Signed(t, B) * q == Signed(s != t, A * B * q)
  {
    assert (-A) * B == -(A * B) && A * (-B) == -(A * B) && (-A) * (-B) == A * B;
    assert (-(A * B)) * q == -(A * B * q);
  }

  /** mul_u with a double-width type. */
  method MulWide(f: Format, a: nat, b: nat) returns (high: nat, low: nat)
    ensures Jam(high, low != 0) == JamDiv(Times(a, b), Pow2(f.Size()))
    ensures high == Times(a, b) / Pow2(f.Size()) && low == Times(a, b) % Pow2(f.Size())
  {
    hide Pow2;
    var full := Times(a, b);
    high, low := full / Pow2(f.Size()), full % Pow2(f.Size());
  }

  /** mul_sf on finite nonzero operands. */
  method MulFinite(f: Format, a: nat, b: nat, rm: RoundingMode, before: Flags) returns (r: nat, after: Flags)
    requires f.Finite(a) && f.Finite(b) && !IsZero(f, a) && !IsZero(f, b)
    ensures Delivers(f, rm, ExactMul(f, a, b), f.Negative(a) != f.Negative(b), before, r, after)
  {
    hide Mag, ExactMul, Delivers, Pow2, P2, IsProduct, StandsFor, Shl, Times, Jam, JamDiv,
         FormatSizes.Negative, FormatSizes.MagBits, FormatSizes.Finite;
    var neg := f.Negative(a) != f.Negative(b);
    var aExp, aMant := UnpackNormal(f, a);
    var bExp, bMant := UnpackNormal(f, b);
    var exp := aExp + bExp - Pow2(f.exp - 1) + 2;
    // the high word of the product, with the low word jammed in
    var high, low := MulWide(f, Shl(aMant, f.exp - 1), Shl(bMant, f.exp));
    var mant := Jam(high, low != 0);
    ghost var y, C, x := MulReading(f, a, b, aExp, aMant, bExp, bMant);
    MulStands(f, aMant, bMant, y);
    r, after := NormalizeSf(f, neg, exp, mant, rm, before);
    assert ReadsUpTo(f, 1, exp, mant, y, x);
    ValueProduct(f, a, b, C, x);
  }

  lemma MulStands(f: Format, aMant: nat, bMant: nat, y: real)
    requires Pow2(f.mant) <= aMant < Pow2(f.mant + 1) && Pow2(f.mant) <= bMant < Pow2(f.mant + 1)
    requires IsProduct(y, Times(Shl(aMant, f.exp - 1), Shl(bMant, f.exp)) as real, P2(-(f.Size() as int)))
    ensures var m := JamDiv(Times(Shl(aMant, f.exp - 1), Shl(bMant, f.exp)), Pow2(f.Size()));
      m < Pow2(f.mant + f.exp) && StandsFor(f, 1, m, y)
  {
    hide Pow2, P2, IsProduct, StandsFor, Shl, Times, JamDiv;
    ShlBounds(aMant, f.mant, f.exp - 1);
    ShlBounds(bMant, f.mant, f.exp);
    ProductBounds(Shl(aMant, f.exp - 1), f.mant + f.exp - 1, Shl(bMant, f.exp), f.mant + f.exp);
    JammedWord(f, Times(Shl(aMant, f.exp - 1), Shl(bMant, f.exp)), y);
  }

  lemma MulReading(f: Format, a: nat, b: nat, aExp: int, aMant: nat, bExp: int, bMant: nat)
    returns (y: real, C: real, x: real)
    requires IsProduct(Mag(f, f.MagBits(a)) as real, aMant as real, P2(aExp - 1))
    requires IsProduct(Mag(f, f.MagBits(b)) as real, bMant as real, P2(bExp - 1))
    ensures IsProduct(y, Times(Shl(aMant, f.exp - 1), Shl(bMant, f.exp)) as real, P2(-(f.Size() as int)))
    ensures IsProduct(C, Mag(f, f.MagBits(a)) as real, Mag(f, f.MagBits(b)) as real)
    ensures IsProduct(x, C, P2(QuantumExp(f)))
    ensures IsProduct(x, y, P2(aExp + bExp - Pow2(f.exp - 1) + 2 - f.exp))
  {
    var A, B := Mag(f, f.MagBits(a)) as real, Mag(f, f.MagBits(b)) as real;
    hide IsProduct, P2, Shl, Mag, Pow2, Times;
    C := RealProduct(A, B);
    x := ScaledValue(C, QuantumExp(f));
    var full := Times(Shl(aMant, f.exp - 1), Shl(bMant, f.exp));
    y := ScaledValue(full as real, -(f.Size() as int));
    ExactProduct(A, aMant, aExp - 1, B, bMant, bExp - 1, f.exp - 1, f.exp, f.Size(), QuantumExp(f), full, y, C, x);
    assert aExp - 1 + (bExp - 1) + QuantumExp(f) - (f.exp - 1) - f.exp + f.Size()
        == aExp + bExp - Pow2(f.exp - 1) + 2 - f.exp;
  }

  lemma RealProduct(A: real, B: real) returns (C: real)
    ensures IsProduct(C, A, B)
  {
    C := A * B;
  }

  /** mul_sf */
  method MulSf(f: Format, a: nat, b: nat, rm: RoundingMode, before: Flags) returns (r: nat, after: Flags)
    requires f.Word(a) && f.Word(b)
    ensures f.Finite(a) && f.Finite(b) ==>
      Delivers(f, rm, ExactMul(f, a, b), f.Negative(a) != f.Negative(b), before, r, after)
    ensures !f.Finite(a) || !f.Finite(b) ==> MulSpecial(f, a, b, before, r, after)
    ensures NanRule(f, IsNan(f, a) || IsNan(f, b), IsSignalingNan(f, a) || IsSignalingNan(f, b), MulInvalid(f, a, b),
                    before, r, after)
  {
    FieldsOf(f, a);
    FieldsOf(f, b);
    ZeroByFields(f, a);
    ZeroByFields(f, b);
    hide ExpField, MantField, Delivers, ExactMul, Pow2, FormatSizes.ExpMask, FormatSizes.Finite, MulSpecial;
    if ExpField(f, a) == f.ExpMask() || ExpField(f, b) == f.ExpMask() {
      r, after := MulNonFinite(f, a, b, before);
    } else if (ExpField(f, a) == 0 && MantField(f, a) == 0) || (ExpField(f, b) == 0 && MantField(f, b) == 0) {
      r, after := Pack(f, f.Negative(a) != f.Negative(b), 0, 0), before;
      ZeroDelivers(f, rm, f.Negative(a) != f.Negative(b), before);
      ZeroFactor(f, a, b);
    } else {
      r, after := MulFinite(f, a, b, rm, before);
    }
    hide NanRule, IsNan, MulInvalid;
    MulNans(f, a, b, rm, before, r, after);
  }

  /** Zero times infinity. */
  predicate MulInvalid(f: Format, a: nat, b: nat) {
    (f.MagBits(a) == 0 && IsInf(f, b)) || (IsInf(f, a) && f.MagBits(b) == 0)
  }

  lemma MulNans(f: Format, a: nat, b: nat, rm: RoundingMode, before: Flags, r: nat, after: Flags)
    requires f.Word(a) && f.Word(b)
    requires f.Finite(a) && f.Finite(b) ==>
      Delivers(f, rm, ExactMul(f, a, b), f.Negative(a) != f.Negative(b), before, r, after)
    requires !f.Finite(a) || !f.Finite(b) ==> MulSpecial(f, a, b, before, r, after)
    ensures NanRule(f, IsNan(f, a) || IsNan(f, b), IsSignalingNan(f, a) || IsSignalingNan(f, b), MulInvalid(f, a, b),
                    before, r, after)
  {
    Classes(f, a);
    Classes(f, b);
    QuietNanIs(f);
    hide Delivers, ExactMul, QuietNan, Pack, IsSignalingNan, IsNan, IsInf, FormatSizes.MagBits, FormatSizes.Negative,
         FormatSizes.ExpMask;
    InfinityWord(f, f.Negative(a) != f.Negative(b), Pack(f, f.Negative(a) != f.Negative(b), f.ExpMask(), 0));
    if f.Finite(a) && f.Finite(b) {
      DeliversNoNan(f, rm, ExactMul(f, a, b), f.Negative(a) != f.Negative(b), before, r, after);
    }
  }

  lemma ZeroFactor(f: Format, a: nat, b: nat)
    requires IsZero(f, a) || IsZero(f, b)
    ensures ExactMul(f, a, b) == 0.0
  {
    MagZero(f);
    hide P2, Mag, FormatSizes.MagBits;
    var u, v := Value(f, a), Value(f, b);
    assert u == 0.0 || v == 0.0;
  }
}
