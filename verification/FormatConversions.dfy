/** Conversions between float formats (softfp_template.h: cvt_sf32_sf, cvt_sf_sf32) and the round trips. */
module FormatConversions {
  import opened Powers
  import opened IeeeFormat
  import opened Rounding
  import opened Jamming
  import opened RoundPack
  import opened Normalize
  import opened Addition
  import opened Multiplication
  import opened IntegerLoops
  import opened Uniqueness
  import opened Fma
  import opened Conversions

  /** The narrow format's numbers, subnormal ones included, are normal in the wide format `g`. */
  predicate Widens(f: Format, g: Format) {
    f.mant + f.exp - 1 <= g.mant && f.Bias() + f.mant < g.Bias()
  }

  /** log2 of the narrow quantum counted in wide ones. */
  function QuantumRatio(f: Format, g: Format): int {
    QuantumExp(f) - QuantumExp(g)
  }

  /** `y` wide quanta are `x` narrow ones. */
  ghost predicate SameReal(f: Format, x: real, g: Format, y: real) {
    IsProduct(y, x, P2(QuantumRatio(f, g)))
  }

  lemma WideMagnitude(f: Format, g: Format, A: real, exp: int, mant: nat, e: nat, m: nat)
    requires Widens(f, g) && Pow2(f.mant) <= mant < Pow2(f.mant + 1)
    requires IsProduct(A, mant as real, P2(exp - 1))
    requires e as int == exp - f.Bias() + g.Bias() && m == Shl(mant, g.mant - f.mant)
    requires 1 <= e < g.ExpMask()
    ensures Pow2(g.mant) <= m < Pow2(g.mant + 1)
    ensures var z := Shl(e - 1, g.mant) + m; z < g.Inf() && SameReal(f, A, g, Mag(g, z) as real)
  {
    hide P2, IsProduct, FormatSizes.Bias;
    ShlBounds(mant, f.mant, g.mant - f.mant);
    MagOf(g, e, m);
    FieldBounds(g, e, m);
    CarriedFields(g, false, e, m);
    ShlScales(m, e - 1);
    ShlScales(mant, g.mant - f.mant);
    hide Pow2, Shl, Mag;
    ScaleChain(mant as real, m as real, Shl(m, e - 1) as real, g.mant - f.mant, e - 1);
    ScaleSplit(mant as real, A, Shl(m, e - 1) as real, exp - 1, g.mant - f.mant + (e - 1));
    assert g.mant - f.mant + (e - 1) - (exp - 1) == QuantumRatio(f, g);
  }

  lemma PackedWord(g: Format, neg: bool, e: nat, m: nat)
    requires 1 <= e && Pow2(g.mant) <= m < Pow2(g.mant + 1) && Shl(e - 1, g.mant) + m < g.Inf()
    ensures var z := Shl(e - 1, g.mant) + m; var r := Pack(g, neg, e, m);
      g.Finite(r) && g.MagBits(r) == z && g.Negative(r) == neg && Value(g, r) == Signed(neg, Mag(g, z) as real)
  {
    CarriedFields(g, neg, e, m);
    Pow2Double(g.mant);
    DivModUnique(m, Pow2(g.mant + 1), 0, m);
    EncodeFields(g, neg, Shl(e - 1, g.mant) + m);
  }

  lemma SameRealSigned(f: Format, x: real, g: Format, y: real, neg: bool)
    requires SameReal(f, x, g, y)
    ensures SameReal(f, Signed(neg, x), g, Signed(neg, y))
  {
    var p := P2(QuantumRatio(f, g));
    assert (-x) * p == -(x * p);
  }

  /** What a conversion to the format `g` returns for an infinite or NaN operand of `f`. */
  ghost predicate CvtSpecial(f: Format, g: Format, a: nat, before: Flags, r: nat, after: Flags) {
    if IsNan(f, a) then
      r == QuietNan(g) && after == before.(invalid := before.invalid || IsSignalingNan(f, a))
    else
      r == Pack(g, f.Negative(a), g.ExpMask(), 0) && after == before
  }

  lemma ExpRange(f: Format, g: Format)
    requires Widens(f, g)
    ensures 1 - f.mant - f.Bias() + g.Bias() >= 1
    ensures f.ExpMask() - f.Bias() + g.Bias() < g.ExpMask()
  {
    Pow2Double(f.exp - 1);
    Pow2Double(g.exp - 1);
  }

  lemma WidenNormal(f: Format, g: Format, a: nat, exp: int, mant: nat, e: nat)
    requires f.Finite(a) && Widens(f, g) && Pow2(f.mant) <= mant < Pow2(f.mant + 1)
    requires IsProduct(Mag(f, f.MagBits(a)) as real, mant as real, P2(exp - 1))
    requires e as int == exp - f.Bias() + g.Bias() && 1 <= e < g.ExpMask()
    ensures var r := Pack(g, f.Negative(a), e, Shl(mant, g.mant - f.mant));
      g.Finite(r) && g.Negative(r) == f.Negative(a) && SameReal(f, Value(f, a), g, Value(g, r))
  {
    ValueOf(f, a);
    hide P2, Pow2, Mag, Value, SameReal, IsProduct, Shl, Pack, Signed,
      FormatSizes.Finite, FormatSizes.Negative, FormatSizes.MagBits, FormatSizes.Bias, FormatSizes.ExpMask;
    var A, m := Mag(f, f.MagBits(a)) as real, Shl(mant, g.mant - f.mant);
    WideMagnitude(f, g, A, exp, mant, e, m);
    PackedWord(g, f.Negative(a), e, m);
    SameRealSigned(f, A, g, Mag(g, Shl(e - 1, g.mant) + m) as real, f.Negative(a));
  }

  lemma WidenZero(f: Format, g: Format, a: nat)
    requires f.Word(a) && IsZero(f, a)
    ensures var r := Pack(g, f.Negative(a), 0, 0);
      g.Finite(r) && g.Negative(r) == f.Negative(a) && SameReal(f, Value(f, a), g, Value(g, r))
  {
    PackIs(g, f.Negative(a), 0, 0, 0);
    EncodeFields(g, f.Negative(a), 0);
    MagZero(g);
    ZeroAddend(f, a);
    hide Mag, Pack, P2;
    ZeroProduct(P2(QuantumRatio(f, g)));
  }

  /** Widening is exact: same sign, same value, no flag. */
  ghost predicate WidenOutcome(f: Format, g: Format, a: nat, before: Flags, r: nat, after: Flags) {
    if f.Finite(a) then
      g.Finite(r) && g.Negative(r) == f.Negative(a) && SameReal(f, Value(f, a), g, Value(g, r)) && after == before
    else
      CvtSpecial(f, g, a, before, r, after)
  }

  /** cvt_sf32_sf: every finite value of the narrow format is converted without rounding. */
  method Widen(f: Format, g: Format, a: nat, before: Flags) returns (r: nat, after: Flags)
    requires f.Word(a) && Widens(f, g)
    ensures WidenOutcome(f, g, a, before, r, after)
    ensures NanRule(g, IsNan(f, a), IsSignalingNan(f, a), false, before, r, after)
  {
    Classes(f, a);
    ZeroByFields(f, a);
    ExpRange(f, g);
    hide ExpField, MantField, Pow2, P2, Mag, IsSignalingNan, QuietNan, Pack, IsZero, SameReal, Shl,
         FormatSizes.ExpMask, FormatSizes.Inf, FormatSizes.Finite, FormatSizes.Negative, FormatSizes.MagBits,
         FormatSizes.Bias;
    var neg := f.Negative(a);
    after := before;
    if ExpField(f, a) == f.ExpMask() {
      if MantField(f, a) != 0 {
        if IsSignalingNan(f, a) {
          after := after.(invalid := true);
        }
        r := QuietNan(g);
      } else {
        r := Pack(g, neg, g.ExpMask(), 0);
      }
    } else if ExpField(f, a) == 0 && MantField(f, a) == 0 {
      r := Pack(g, neg, 0, 0);
      WidenZero(f, g, a);
    } else {
      // the leading bit of the mantissa, left out by the source when the operand is normal, is dropped by Pack
      var exp, mant := UnpackNormal(f, a);
      var e: nat := exp - f.Bias() + g.Bias();
      r := Pack(g, neg, e, Shl(mant, g.mant - f.mant));
      WidenNormal(f, g, a, exp, mant, e);
    }
    hide NanRule, IsNan, WidenOutcome;
    WidenNans(f, g, a, before, r, after);
  }

  lemma WidenNans(f: Format, g: Format, a: nat, before: Flags, r: nat, after: Flags)
    requires f.Word(a) && WidenOutcome(f, g, a, before, r, after)
    ensures NanRule(g, IsNan(f, a), IsSignalingNan(f, a), false, before, r, after)
  {
    Classes(f, a);
    QuietNanIs(g);
    hide SameReal, Value, QuietNan, Pack, IsSignalingNan, IsNan, IsInf, FormatSizes.MagBits, FormatSizes.Negative,
         FormatSizes.ExpMask;
    InfinityWord(g, f.Negative(a), Pack(g, f.Negative(a), g.ExpMask(), 0));
    if f.Finite(a) { Classes(g, r); }
  }

  // ----- to a narrower format

  /** A positive whole number of units, normalized. */
  lemma Normalized(f: Format, M: nat) returns (t: real, e: int)
    requires M > 0
    ensures IsProduct(M as real, t, P2(e)) && Pow2(f.mant) as real <= t < Pow2(f.mant + 1) as real
    ensures e == BitLen(M) - 1 - f.mant
  {
    BitLenBounds(M);
    var l := BitLen(M) - 1;
    e := l - f.mant;
    t := ScaledValue(M as real, -e);
    P2Nat(l); P2Nat(l + 1); P2Nat(f.mant); P2Nat(f.mant + 1);
    P2Product(f.mant, e);
    P2Product(f.mant + 1, e);
    ScaleBack(M as real, t, -e);
    hide P2, Pow2, IsProduct, BitLen;
    ProductOrder(M as real, t, P2(l), P2(f.mant), P2(e));
    ProductOrder(M as real, t, P2(l + 1), P2(f.mant + 1), P2(e));
  }

  /** Any magnitude below half a quantum is rounded to zero or to one quantum, inexactly and tiny. */
  lemma BelowHalf(f: Format, rm: RoundingMode, neg: bool, x: real, M: nat, k: int, n: nat, before: Flags)
    requires 0 < M < Pow2(n) && n + k <= -1 && IsProduct(x, M as real, P2(k))
    ensures Delivers(f, rm, Signed(neg, x), neg, before, Encode(f, neg, if Away(rm, neg) then 1 else 0),
                     before.(inexact := true, underflow := true))
  {
    var t, e := Normalized(f, M);
    BitLenAtMost(M, n);
    BelowHalfSize(x, M, k, n);
    hide P2, Pow2, IsProduct, BitLen;
    ScaleChain(t, M as real, x, e, k);
    TinyIff(f, rm, neg, x, e + k, t);
    BelowHalfRounds(f, rm, neg, x);
    BelowHalfOutcome(f, rm, neg, x, before);
  }

  lemma BelowHalfSize(x: real, M: nat, k: int, n: nat)
    requires 0 < M < Pow2(n) && n + k <= -1 && IsProduct(x, M as real, P2(k))
    ensures 0.0 < x < 0.5
  {
    P2Nat(n);
    P2Product(n, k);
    P2AtMostHalf(n + k);
    ZeroProduct(P2(k));
    hide P2, Pow2, IsProduct;
    ProductOrder(x, M as real, P2(n + k), P2(n), P2(k));
    ProductOrder(0.0, 0.0, x, M as real, P2(k));
  }

  lemma {:induction false} P2AtMostHalf(n: int)
    requires n <= -1
    ensures P2(n) <= 0.5
    decreases -n
  {
    if n < -1 { P2AtMostHalf(n + 1); }
  }

  lemma BelowHalfRounds(f: Format, rm: RoundingMode, neg: bool, x: real)
    requires 0.0 < x < 0.5
    ensures RoundedMag(f, rm, neg, x, if Away(rm, neg) then 1 else 0)
    ensures Mag(f, 0) == 0 && Mag(f, 1) == 1 && 1 < f.Inf()
  {
    Pow2AtLeast(f.mant);
    Pow2AtLeast(f.exp);
    MulAtLeast(f.ExpMask(), Pow2(f.mant));
    MagOf(f, 1, 0);
    MagOf(f, 1, 1);
    MagSucc(f, 1);
  }

  lemma BelowHalfOutcome(f: Format, rm: RoundingMode, neg: bool, x: real, before: Flags)
    requires 0.0 < x < 0.5 && Tiny(f, rm, neg, x)
    requires Mag(f, 0) == 0 && Mag(f, 1) == 1 && 1 < f.Inf()
    requires RoundedMag(f, rm, neg, x, if Away(rm, neg) then 1 else 0)
    ensures Delivers(f, rm, Signed(neg, x), neg, before, Encode(f, neg, if Away(rm, neg) then 1 else 0),
                     before.(inexact := true, underflow := true))
  {
    var e := if Away(rm, neg) then 1 else 0;
    var r := Encode(f, neg, e);
    hide Mag, RoundedMag, Tiny, FormatSizes.Inf;
    SignedAbs(neg, x);
    RoundedMagIsCorrect(f, rm, Signed(neg, x), neg, e, r);
    hide Exact, Overflows, CorrectlyRounded, Encode;
    OutcomeDelivers(f, rm, neg, x, before, r, before.(inexact := true, underflow := true));
  }

  /** The mantissa brought to the narrow word by a jamming shift stands for the exact one. */
  lemma NarrowedMantissa(f: Format, g: Format, mant: nat) returns (y: real)
    requires Widens(f, g) && Pow2(g.mant) <= mant < Pow2(g.mant + 1)
    ensures var m := RshiftRnd(g, mant, g.mant - (f.Size() - 2)); m < Pow2(f.mant + f.exp) && StandsFor(f, 0, m, y)
    ensures IsProduct(y, mant as real, P2(-(g.mant - (f.Size() - 2))))
  {
    var d, t := g.mant - (f.Size() - 2), f.Size() - 2;
    Pow2Mono(g.mant + 1, g.Size());
    RshiftIsJam(g, mant, d);
    Pow2Even(f.exp - 2);
    Pow2Even(t + 1);
    P2Nat(d);
    y := ScaledValue(mant as real, -d);
    hide Pow2, P2, IsProduct, SameCell, RshiftRnd;
    HighBounds(mant, d, t, t + 1);
    ScaleBack(mant as real, y, -d);
    SameCellExact(Times(Pow2(d), Pow2(f.exp - 2)), mant);
    JamKeepsCell(Pow2(f.exp - 2), Pow2(d), mant, mant as real, y);
    JamDivRange(mant, Pow2(d), Pow2(t + 1));
  }

  lemma NarrowReading(f: Format, g: Format, A: real, exp: int, mant: nat, y: real, x: real)
    requires IsProduct(A, mant as real, P2(exp - 1)) && SameReal(f, x, g, A)
    requires IsProduct(y, mant as real, P2(-(g.mant - (f.Size() - 2))))
    ensures IsProduct(x, y, P2(exp - g.Bias() + f.Bias() - f.exp))
  {
    hide P2, IsProduct, FormatSizes.Bias;
    ScaleBack(x, A, QuantumRatio(f, g));
    ScaleChain(mant as real, A, x, exp - 1, -QuantumRatio(f, g));
    ScaleSplit(mant as real, y, x, -(g.mant - (f.Size() - 2)), exp - 1 + -QuantumRatio(f, g));
    assert exp - 1 + -QuantumRatio(f, g) - -(g.mant - (f.Size() - 2)) == exp - g.Bias() + f.Bias() - f.exp;
  }

  /** cvt_sf_sf32 on a normal operand. */
  method NarrowNormal(f: Format, g: Format, a: nat, rm: RoundingMode, before: Flags) returns (r: nat, after: Flags)
    requires g.Finite(a) && Widens(f, g) && ExpField(g, a) != 0
    ensures forall x: real :: SameReal(f, x, g, Value(g, a)) ==> Delivers(f, rm, x, g.Negative(a), before, r, after)
  {
    IntMantissa(g, a);
    ValueOf(g, a);
    ShlScales(IntMant(g, a), AddExp(g, a) - 1);
    Pow2AtLeast(g.mant);
    NormalMant(g, a);
    var neg, exp, mant := g.Negative(a), ExpField(g, a), IntMant(g, a);
    ghost var A := Mag(g, g.MagBits(a)) as real;
    hide Pow2, P2, IsProduct, SameReal, Mag, Delivers, ExpField, IntMant, RshiftRnd, Value, Signed, StandsFor, Shl,
         FormatSizes.Bias, FormatSizes.Negative, FormatSizes.MagBits, FormatSizes.Finite;
    ghost var y := NarrowedMantissa(f, g, mant);
    var m := RshiftRnd(g, mant, g.mant - (f.Size() - 2));
    r, after := NormalizeSf(f, neg, exp - g.Bias() + f.Bias(), m, rm, before);
    forall x: real | SameReal(f, x, g, Value(g, a))
      ensures Delivers(f, rm, x, neg, before, r, after)
    {
      UnsignedReal(f, x, g, neg, A);
      NarrowReading(f, g, A, exp, mant, y, Signed(neg, x));
      assert ReadsUpTo(f, 0, exp - g.Bias() + f.Bias(), m, y, Signed(neg, x));
    }
  }

  lemma NormalMant(g: Format, a: nat)
    requires ExpField(g, a) != 0
    ensures Pow2(g.mant) <= IntMant(g, a) && AddExp(g, a) == ExpField(g, a)
  {
  }

  lemma UnsignedReal(f: Format, x: real, g: Format, neg: bool, A: real)
    requires SameReal(f, x, g, Signed(neg, A))
    ensures SameReal(f, Signed(neg, x), g, A)
    ensures Signed(neg, Signed(neg, x)) == x
  {
    SameRealSigned(f, x, g, Signed(neg, A), neg);
  }

  lemma JamPositive(f: Format, m: nat, d: nat, top: nat)
    requires 0 < m < Pow2(top + d) && top > 0 && m < Pow2(f.Size())
    ensures 0 < RshiftRnd(f, m, d) < Pow2(top)
  {
    RshiftIsJam(f, m, d);
    JamSize(m, d, top);
    hide Pow2, RshiftRnd;
    JamNonzero(m, Pow2(d));
  }

  lemma JamNonzero(m: nat, c: nat)
    requires m > 0 && c > 0
    ensures JamDiv(m, c) > 0
  {
    assert m == c * (m / c) + m % c;
    if m / c == 0 { assert c * (m / c) == 0; }
  }

  lemma SubnormalMag(g: Format, a: nat)
    requires g.Finite(a) && ExpField(g, a) == 0
    ensures Mag(g, g.MagBits(a)) == MantField(g, a) && MantField(g, a) < Pow2(g.mant)
  {
    MagOfFields(g, a);
    FieldsOf(g, a);
  }

  /** A subnormal wide operand is below half a narrow quantum. */
  lemma SubnormalBelowHalf(f: Format, g: Format, a: nat, rm: RoundingMode, x: real, before: Flags)
    requires g.Finite(a) && Widens(f, g) && ExpField(g, a) == 0 && MantField(g, a) != 0
    requires SameReal(f, x, g, Value(g, a))
    ensures var neg := g.Negative(a);
      Delivers(f, rm, x, neg, before, Encode(f, neg, if Away(rm, neg) then 1 else 0),
               before.(inexact := true, underflow := true))
  {
    SubnormalMag(g, a);
    ValueOf(g, a);
    hide P2, Pow2, IsProduct, Mag, Delivers, Encode, ExpField, MantField, Value, Signed,
         FormatSizes.Bias, FormatSizes.Negative, FormatSizes.MagBits, FormatSizes.Finite;
    var neg, M := g.Negative(a), MantField(g, a);
    UnsignedReal(f, x, g, neg, M as real);
    ScaleBack(Signed(neg, x), M as real, QuantumRatio(f, g));
    BelowHalf(f, rm, neg, Signed(neg, x), M, -QuantumRatio(f, g), g.mant, before);
  }

  /** cvt_sf_sf32 on a subnormal operand: the exponent is that of the normalized mantissa but the mantissa is not
      shifted. What is packed is a smaller number, which is rounded as the operand is: both lie below half a quantum. */
  method NarrowSubnormal(f: Format, g: Format, a: nat, rm: RoundingMode, before: Flags) returns (r: nat, after: Flags)
    requires g.Finite(a) && Widens(f, g) && ExpField(g, a) == 0 && MantField(g, a) != 0
    ensures forall x: real :: SameReal(f, x, g, Value(g, a)) ==> Delivers(f, rm, x, g.Negative(a), before, r, after)
  {
    SubnormalMag(g, a);
    var neg, mant := g.Negative(a), MantField(g, a);
    var shift := g.mant - (g.Size() - 1 - Clz(g.Size(), mant));
    BitLenAtMost(mant, g.mant);
    Pow2Mono(g.mant, g.Size());
    Pow2Double(f.mant + f.exp - 1);
    hide Pow2, P2, IsProduct, SameReal, Mag, Delivers, ExpField, MantField, RshiftRnd, Value, Signed, Clz, BitLen,
         Encode, FormatSizes.Bias, FormatSizes.Negative, FormatSizes.MagBits, FormatSizes.Finite;
    assert shift >= 0;
    var exp := 1 - shift;
    var m := RshiftRnd(g, mant, g.mant - (f.Size() - 2));
    JamPositive(g, mant, g.mant - (f.Size() - 2), f.Size() - 2);
    exp := exp - g.Bias() + f.Bias();
    r, after := NormalizeSf(f, neg, exp, m, rm, before);
    ghost var x' := ScaledValue(m as real, exp - f.exp);
    assert ReadsUpTo(f, 0, exp, m, m as real, x');
    BelowHalf(f, rm, neg, x', m, exp - f.exp, f.Size() - 2, before);
    DeliversUnique(f, rm, Signed(neg, x'), neg, before, r, after,
                   Encode(f, neg, if Away(rm, neg) then 1 else 0), before.(inexact := true, underflow := true));
    forall x: real | SameReal(f, x, g, Value(g, a))
      ensures Delivers(f, rm, x, neg, before, r, after)
    {
      SubnormalBelowHalf(f, g, a, rm, x, before);
    }
  }

  lemma NarrowZero(f: Format, g: Format, a: nat, x: real)
    requires IsZero(g, a) && SameReal(f, x, g, Value(g, a))
    ensures x == 0.0
  {
    ZeroAddend(g, a);
    var p := P2(QuantumRatio(f, g));
    hide P2, Value, QuantumRatio;
    ZeroProduct(p);
    ProductOrder(0.0, 0.0, Value(g, a), x, p);
  }

  /** Narrowing delivers the wide value rounded to the narrow format. */
  ghost predicate NarrowOutcome(f: Format, g: Format, a: nat, rm: RoundingMode, before: Flags, r: nat, after: Flags) {
    if g.Finite(a) then
      forall x: real :: SameReal(f, x, g, Value(g, a)) ==> Delivers(f, rm, x, g.Negative(a), before, r, after)
    else
      CvtSpecial(g, f, a, before, r, after)
  }

  /** cvt_sf_sf32: the wide value rounded to the narrow format. */
  method Narrow(f: Format, g: Format, a: nat, rm: RoundingMode, before: Flags) returns (r: nat, after: Flags)
    requires g.Word(a) && Widens(f, g)
    ensures NarrowOutcome(f, g, a, rm, before, r, after)
    ensures NanRule(f, IsNan(g, a), IsSignalingNan(g, a), false, before, r, after)
  {
    Classes(g, a);
    ZeroByFields(g, a);
    hide ExpField, MantField, Pow2, P2, Value, IsSignalingNan, QuietNan, Pack, IsZero, SameReal, Delivers,
         FormatSizes.ExpMask, FormatSizes.Inf, FormatSizes.Finite, FormatSizes.Negative, FormatSizes.MagBits,
         FormatSizes.Bias;
    var neg := g.Negative(a);
    after := before;
    if ExpField(g, a) == g.ExpMask() {
      if MantField(g, a) != 0 {
        if IsSignalingNan(g, a) {
          after := after.(invalid := true);
        }
        r := QuietNan(f);
      } else {
        r := Pack(f, neg, f.ExpMask(), 0);
      }
    } else if ExpField(g, a) == 0 {
      if MantField(g, a) == 0 {
        r := Pack(f, neg, 0, 0);
        ZeroDelivers(f, rm, neg, before);
        forall x: real | SameReal(f, x, g, Value(g, a)) ensures x == 0.0 {
          NarrowZero(f, g, a, x);
        }
      } else {
        r, after := NarrowSubnormal(f, g, a, rm, before);
      }
    } else {
      r, after := NarrowNormal(f, g, a, rm, before);
    }
    hide NanRule, IsNan, NarrowOutcome;
    NarrowNans(f, g, a, rm, before, r, after);
  }

  /** The value in quanta of the narrow format. */
  lemma SomeReal(f: Format, g: Format, y: real) returns (x: real)
    ensures SameReal(f, x, g, y)
  {
    hide P2;
    var p := P2(QuantumRatio(f, g));
    x := y / p;
    assert x * p == y;
  }

  lemma NarrowNans(f: Format, g: Format, a: nat, rm: RoundingMode, before: Flags, r: nat, after: Flags)
    requires g.Word(a) && Widens(f, g) && NarrowOutcome(f, g, a, rm, before, r, after)
    ensures NanRule(f, IsNan(g, a), IsSignalingNan(g, a), false, before, r, after)
  {
    Classes(g, a);
    QuietNanIs(f);
    hide Delivers, SameReal, Value, QuietNan, Pack, IsSignalingNan, IsNan, IsInf, FormatSizes.MagBits,
         FormatSizes.Negative, FormatSizes.ExpMask;
    InfinityWord(f, g.Negative(a), Pack(f, g.Negative(a), f.ExpMask(), 0));
    if g.Finite(a) {
      var x := SomeReal(f, g, Value(g, a));
      DeliversNoNan(f, rm, x, g.Negative(a), before, r, after);
    }
  }

  // ----- round trips

  /** Every number and infinity of the narrow format survives widening and narrowing, in any mode, and raises
      nothing. `w` and `mid` are what cvt_sf32_sf leaves, `r` and `after` what cvt_sf_sf32 makes of them. */
  lemma WidenNarrow(f: Format, g: Format, a: nat, rm: RoundingMode, before: Flags, w: nat, mid: Flags, r: nat,
                    after: Flags)
    requires f.Word(a) && !IsNan(f, a) && Widens(f, g)
    requires WidenOutcome(f, g, a, before, w, mid) && NarrowOutcome(f, g, w, rm, mid, r, after)
    ensures r == a && after == before
  {
    Classes(f, a);
    hide Value, Delivers, SameReal, ExpField, MantField, Pack, FormatSizes.Negative, FormatSizes.Finite,
         FormatSizes.MagBits, FormatSizes.Inf;
    if f.Finite(a) {
      ExactDelivers(f, rm, a, f.Negative(a), before);
      DeliversUnique(f, rm, Value(f, a), f.Negative(a), before, r, after, a, before);
    } else {
      InfinityWord(g, f.Negative(a), w);
      InfinityWord(f, f.Negative(a), r);
      InfByBits(f, a, r);
    }
  }

  /** The format pairs the source converts between. */
  lemma SourceWidens()
    ensures Widens(FORMAT32, FORMAT64) && Widens(FORMAT32, FORMAT128) && Widens(FORMAT64, FORMAT128)
  {
    Pow2Mono(10, 14);
    assert FORMAT32.Bias() == Pow2(7) - 1 && Pow2(7) == 128;
    assert FORMAT64.Bias() == Pow2(10) - 1 && FORMAT128.Bias() == Pow2(14) - 1;
    Pow2Add(7, 3);
    SmallPowers();
  }
}
