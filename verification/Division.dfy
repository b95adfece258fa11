/** Division (softfp_template.h: div_sf). */
module Division {
  import opened Powers
  import opened IeeeFormat
  import opened Rounding
  import opened Jamming
  import opened RoundPack
  import opened Normalize
  import opened Addition
  import opened Multiplication
  import opened IntegerLoops

  /** The product of two values given in quanta, in quanta. */
  ghost function TimesQuanta(f: Format, u: real, v: real): real {
    u * v * P2(QuantumExp(f))
  }

  /** `x` is the exact quotient in quanta: times the value of `b` it is the value of `a`. */
  ghost predicate IsQuotient(f: Format, a: nat, b: nat, x: real) {
    TimesQuanta(f, x, Value(f, b)) == Value(f, a)
  }

  /** The exact quotient of nonzero magnitudes, in the scale of the integer quotient of aligned mantissas. */
  lemma QuotientReading(f: Format, A: real, am: nat, ea: int, B: real, bm: nat, eb: int, y: real, x: real, D: real)
    requires IsProduct(A, am as real, P2(ea - 1)) && IsProduct(B, bm as real, P2(eb - 1))
    requires IsProduct(Shl(am, f.Size()) as real, y, (4 * bm) as real)
    requires IsProduct(x, y, P2(ea - eb + f.Bias() - f.exp))
    requires IsProduct(D, x, B)
    ensures IsProduct(A, D, P2(QuantumExp(f)))
  {
    var s, size := ea - eb + f.Bias() - f.exp, f.Size();
    var d := FourthPart(am, size, y, bm);
    hide IsProduct, P2, Shl, FormatSizes.Bias;
    ScaleMul(x, y, s, B, bm as real, eb - 1, D, d);
    ScaleChain(am as real, d, D, size - 2, s + (eb - 1));
    var A' := ScaledValue(D, QuantumExp(f));
    ScaleChain(am as real, D, A', size - 2 + (s + (eb - 1)), QuantumExp(f));
    assert size - 2 + (s + (eb - 1)) + QuantumExp(f) == ea - 1;
    ProductFunctional(A, A', am as real, P2(ea - 1));
  }

  lemma FourthPart(am: nat, size: nat, y: real, bm: nat) returns (d: real)
    requires size >= 2 && IsProduct(Shl(am, size) as real, y, (4 * bm) as real)
    ensures IsProduct(d, y, bm as real) && IsProduct(d, am as real, P2(size - 2))
  {
    d := y * bm as real;
    ShlTwice(am, size - 2, 2);
    SmallPowers();
    assert Shl(Shl(am, size - 2), 2) == 4 * Shl(am, size - 2);
    hide Shl, Pow2;
    ShlScales(am, size - 2);
    hide P2;
    FourTimes(y, bm as real, d);
  }

  lemma FourTimes(y: real, b: real, d: real)
    requires d == y * b
    ensures y * (4.0 * b) == 4.0 * d
  {
  }

  /** The integer quotient with the remainder jammed in stands for the exact one. */
  lemma DivStands(f: Format, am: nat, bm: nat, y: real)
    requires Pow2(f.mant) <= am < Pow2(f.mant + 1) && Pow2(f.mant) <= bm < Pow2(f.mant + 1)
    requires IsProduct(Shl(am, f.Size()) as real, y, (4 * bm) as real)
    ensures var m := JamDiv(Shl(am, f.Size()), 4 * bm); m < Pow2(f.mant + f.exp) && StandsFor(f, 1, m, y)
  {
    var n, c, q := Shl(am, f.Size()), 4 * bm, Pow2(f.exp - 3);
    Pow2Even(f.exp - 3);
    Pow2Even(f.mant + f.exp);
    SameCellExact(Times(c, q), n);
    QuotientRange(f, am, bm);
    hide Pow2, IsProduct, SameCell, Shl;
    JamKeepsCell(q, c, n, n as real, y);
    JamDivRange(n, c, Pow2(f.mant + f.exp));
  }

  lemma QuotientRange(f: Format, am: nat, bm: nat)
    requires Pow2(f.mant) <= am < Pow2(f.mant + 1) && Pow2(f.mant) <= bm < Pow2(f.mant + 1)
    ensures Pow2(f.mant + f.exp - 2) <= Shl(am, f.Size()) / (4 * bm) < Pow2(f.mant + f.exp)
  {
    var size := f.Size();
    // am / bm lies between 1/2 and 2
    Pow2Double(f.mant);
    ShlTwice(am, 1, size - 1);
    ShlOnce(am);
    ShlOnce(bm);
    ShlMono(bm, Shl(am, 1), size - 1);
    ShlMono(am, Shl(bm, 1), size);
    ShlTwice(bm, 1, size);
    hide Pow2;
    FourShl(bm, size - 3);
    FourShl(bm, size - 1);
    ShlTimes(4 * bm, size - 3);
    ShlTimes(4 * bm, size - 1);
    hide Shl;
    QuotientAtLeast(Shl(am, size), 4 * bm, Pow2(size - 3));
    QuotientLess(Shl(am, size), 4 * bm, Pow2(size - 1));
  }

  lemma FourShl(a: nat, k: nat)
    ensures Shl(4 * a, k) == Shl(a, k + 2)
  {
    ShlTwice(a, 2, k);
    SmallPowers();
  }

  lemma ShlTimes(a: nat, k: nat)
    ensures Shl(a, k) == Times(Pow2(k), a)
  {
  }

  lemma QuotientAtLeast(n: nat, c: nat, p: nat)
    requires c > 0 && Times(p, c) <= n
    ensures p <= n / c
  {
    QuotientBelow(n, c, p);
  }

  lemma QuotientLess(n: nat, c: nat, p: nat)
    requires c > 0 && n < Times(p, c)
    ensures n / c < p
  {
    QuotientBelow(n, c, p);
  }

  /** Signs of a quotient. */
  lemma QuotientSigns(f: Format, a: nat, b: nat, x: real, D: real)
    requires IsProduct(D, x, Mag(f, f.MagBits(b)) as real)
    requires IsProduct(Mag(f, f.MagBits(a)) as real, D, P2(QuantumExp(f)))
    ensures IsQuotient(f, a, b, Signed(f.Negative(a) != f.Negative(b), x))
  {
    hide P2, Mag, FormatSizes.MagBits, FormatSizes.Negative;
    var B, s, t := Mag(f, f.MagBits(b)) as real, f.Negative(a) != f.Negative(b), f.Negative(b);
    SignsMultiply(x, B, P2(QuantumExp(f)), s, t);
  }

  /** div_sf on finite nonzero operands. */
  method DivFinite(f: Format, a: nat, b: nat, rm: RoundingMode, before: Flags)
    returns (r: nat, after: Flags, ghost x: real)
    requires f.Finite(a) && f.Finite(b) && !IsZero(f, a) && !IsZero(f, b)
    ensures IsQuotient(f, a, b, x) && Delivers(f, rm, x, f.Negative(a) != f.Negative(b), before, r, after)
  {
    hide Mag, Delivers, Pow2, P2, IsProduct, StandsFor, Shl, Jam, JamDiv, IsQuotient, Signed,
         FormatSizes.Negative, FormatSizes.MagBits, FormatSizes.Finite, FormatSizes.Bias;
    var neg := f.Negative(a) != f.Negative(b);
    var bExp, bMant := UnpackNormal(f, b);
    var aExp, aMant := UnpackNormal(f, a);
    BiasIs(f);
    var exp := aExp - bExp + Pow2(f.exp - 1) - 1;
    DivisorFits(f, aMant, bMant);
    var mant, rem := DivRemU(f.Size(), aMant, 0, 4 * bMant);
    DivRemIs(f.Size(), aMant, bMant, mant, rem);
    mant := Jam(mant, rem != 0);
    ghost var y, x0, D := DivReading(f, a, b, aExp, aMant, bExp, bMant);
    DivStands(f, aMant, bMant, y);
    r, after := NormalizeSf(f, neg, exp, mant, rm, before);
    assert ReadsUpTo(f, 1, exp, mant, y, x0);
    QuotientSigns(f, a, b, x0, D);
    x := Signed(neg, x0);
  }

  lemma BiasIs(f: Format)
    ensures f.Bias() == Pow2(f.exp - 1) - 1
  {
  }

  lemma DivisorFits(f: Format, aMant: nat, bMant: nat)
    requires aMant < Pow2(f.mant + 1) && Pow2(f.mant) <= bMant < Pow2(f.mant + 1)
    ensures aMant < 4 * bMant <= Pow2(f.Size())
  {
    Pow2Double(f.mant);
    Pow2Double(f.mant + 1);
    Pow2Double(f.mant + 2);
    Pow2Mono(f.mant + 3, f.Size());
  }

  lemma DivRemIs(size: nat, am: nat, bm: nat, q: nat, r: nat)
    requires bm > 0 && r < 4 * bm && Shl(am, size) + 0 == q * (4 * bm) + r
    ensures Jam(q, r != 0) == JamDiv(Shl(am, size), 4 * bm)
  {
    DivModUnique(Shl(am, size), 4 * bm, q, r);
  }

  lemma RealQuotient(n: real, c: real) returns (y: real)
    requires c > 0.0
    ensures IsProduct(n, y, c)
  {
    y := n / c;
  }

  lemma DivReading(f: Format, a: nat, b: nat, aExp: int, aMant: nat, bExp: int, bMant: nat)
    returns (y: real, x: real, D: real)
    requires bMant > 0
    requires IsProduct(Mag(f, f.MagBits(a)) as real, aMant as real, P2(aExp - 1))
    requires IsProduct(Mag(f, f.MagBits(b)) as real, bMant as real, P2(bExp - 1))
    ensures IsProduct(Shl(aMant, f.Size()) as real, y, (4 * bMant) as real)
    ensures IsProduct(x, y, P2(aExp - bExp + f.Bias() - f.exp))
    ensures IsProduct(D, x, Mag(f, f.MagBits(b)) as real)
    ensures IsProduct(Mag(f, f.MagBits(a)) as real, D, P2(QuantumExp(f)))
  {
    var A, B := Mag(f, f.MagBits(a)) as real, Mag(f, f.MagBits(b)) as real;
    hide IsProduct, P2, Shl, Mag, Pow2, FormatSizes.Bias;
    y := RealQuotient(Shl(aMant, f.Size()) as real, (4 * bMant) as real);
    x := ScaledValue(y, aExp - bExp + f.Bias() - f.exp);
    D := RealProduct(x, B);
    QuotientReading(f, A, aMant, aExp, B, bMant, bExp, y, x, D);
  }

  /** The exact quotient in quanta. */
  ghost function ExactDiv(f: Format, a: nat, b: nat): real
    requires Value(f, b) != 0.0
  {
    Value(f, a) / (Value(f, b) * P2(QuantumExp(f)))
  }

  lemma QuotientIsExactDiv(f: Format, a: nat, b: nat, x: real)
    requires IsQuotient(f, a, b, x) && Value(f, b) != 0.0
    ensures x == ExactDiv(f, a, b)
  {
    RealAssoc(x, Value(f, b), P2(QuantumExp(f)));
    hide P2, Value;
    QuotientOf(x, Value(f, b) * P2(QuantumExp(f)), Value(f, a));
  }

  lemma QuotientOf(x: real, d: real, n: real)
    requires x * d == n && d != 0.0
    ensures x == n / d
  {
  }

  lemma NonzeroValue(f: Format, b: nat)
    ensures Value(f, b) == 0.0 <==> IsZero(f, b)
  {
    if Mag(f, f.MagBits(b)) == 0 { PositiveMag(f, f.MagBits(b)); }
    MagZero(f);
    hide Mag, FormatSizes.MagBits;
  }

  lemma PositiveMag(f: Format, e: nat)
    ensures Mag(f, e) == 0 <==> e == 0
  {
    MagZero(f);
    if e > 0 { MagMono(f, 0, e); }
  }

  /** What div_sf returns for an infinite or NaN operand. */
  ghost predicate DivSpecial(f: Format, a: nat, b: nat, before: Flags, r: nat, after: Flags) {
    var neg := f.Negative(a) != f.Negative(b);
    if IsNan(f, a) || IsNan(f, b) then
      r == QuietNan(f) &&
      after == before.(invalid := before.invalid || IsSignalingNan(f, a) || IsSignalingNan(f, b))
    else if IsInf(f, a) then
      if IsInf(f, b) then InvalidResult(f, before, r, after)
      else r == Pack(f, neg, f.ExpMask(), 0) && after == before
    else
      r == Pack(f, neg, 0, 0) && after == before
  }

  /** The branches of div_sf for an infinite or NaN operand. */
  method DivNonFinite(f: Format, a: nat, b: nat, before: Flags) returns (r: nat, after: Flags)
    requires ExpField(f, a) == f.ExpMask() || ExpField(f, b) == f.ExpMask()
    ensures DivSpecial(f, a, b, before, r, after)
  {
    after := before;
    var neg := f.Negative(a) != f.Negative(b);
    hide QuietNan, IsSignalingNan, ExpField, MantField, Pack, FormatSizes.ExpMask, FormatSizes.Negative;
    if ExpField(f, a) == f.ExpMask() {
      if MantField(f, a) != 0 || IsNan(f, b) {
        if IsSignalingNan(f, a) || IsSignalingNan(f, b) {
          after := after.(invalid := true);
        }
        r := QuietNan(f);
      } else if ExpField(f, b) == f.ExpMask() {
        r, after := QuietNan(f), after.(invalid := true);
      } else {
        r := Pack(f, neg, f.ExpMask(), 0);
      }
    } else if MantField(f, b) != 0 {
      if IsSignalingNan(f, a) || IsSignalingNan(f, b) {
        after := after.(invalid := true);
      }
      r := QuietNan(f);
    } else {
      r := Pack(f, neg, 0, 0);
    }
  }

  /** div_sf */
  method DivSf(f: Format, a: nat, b: nat, rm: RoundingMode, before: Flags) returns (r: nat, after: Flags)
    requires f.Word(a) && f.Word(b)
    ensures f.Finite(a) && f.Finite(b) && Value(f, b) != 0.0 ==>
      Delivers(f, rm, ExactDiv(f, a, b), f.Negative(a) != f.Negative(b), before, r, after)
    ensures f.Finite(a) && f.Finite(b) && Value(f, b) == 0.0 ==>
      if Value(f, a) == 0.0 then InvalidResult(f, before, r, after)
      else r == Pack(f, f.Negative(a) != f.Negative(b), f.ExpMask(), 0) && after == before.(divideByZero := true)
    ensures !f.Finite(a) || !f.Finite(b) ==> DivSpecial(f, a, b, before, r, after)
    ensures NanRule(f, IsNan(f, a) || IsNan(f, b), IsSignalingNan(f, a) || IsSignalingNan(f, b), DivInvalid(f, a, b),
                    before, r, after)
  {
    FieldsOf(f, a); FieldsOf(f, b);
    ZeroByFields(f, a); ZeroByFields(f, b);
    NonzeroValue(f, a); NonzeroValue(f, b);
    hide ExpField, MantField, Delivers, ExactDiv, IsQuotient, Value, Pow2, IsZero, Pack, DivSpecial, QuietNan,
         FormatSizes.ExpMask, FormatSizes.Finite, FormatSizes.Negative;
    var neg := f.Negative(a) != f.Negative(b);
    after := before;
    if ExpField(f, a) == f.ExpMask() || ExpField(f, b) == f.ExpMask() {
      r, after := DivNonFinite(f, a, b, before);
    } else if ExpField(f, b) == 0 && MantField(f, b) == 0 {
      if ExpField(f, a) == 0 && MantField(f, a) == 0 {
        r, after := QuietNan(f), after.(invalid := true);
      } else {
        r, after := Pack(f, neg, f.ExpMask(), 0), after.(divideByZero := true);
      }
    } else if ExpField(f, a) == 0 && MantField(f, a) == 0 {
      r := Pack(f, neg, 0, 0);
      ZeroDelivers(f, rm, neg, before);
      ZeroQuotient(f, a, b);
    } else {
      ghost var x;
      r, after, x := DivFinite(f, a, b, rm, before);
      QuotientIsExactDiv(f, a, b, x);
    }
    hide NanRule, IsNan, DivInvalid, InvalidResult;
    DivNans(f, a, b, rm, before, r, after);
  }

  /** Zero by zero and infinity by infinity. */
  predicate DivInvalid(f: Format, a: nat, b: nat) {
    (f.MagBits(a) == 0 && f.MagBits(b) == 0) || (IsInf(f, a) && IsInf(f, b))
  }

  lemma DivNans(f: Format, a: nat, b: nat, rm: RoundingMode, before: Flags, r: nat, after: Flags)
    requires f.Word(a) && f.Word(b)
    requires f.Finite(a) && f.Finite(b) && Value(f, b) != 0.0 ==>
      Delivers(f, rm, ExactDiv(f, a, b), f.Negative(a) != f.Negative(b), before, r, after)
    requires f.Finite(a) && f.Finite(b) && Value(f, b) == 0.0 ==>
      if Value(f, a) == 0.0 then InvalidResult(f, before, r, after)
      else r == Pack(f, f.Negative(a) != f.Negative(b), f.ExpMask(), 0) && after == before.(divideByZero := true)
    requires !f.Finite(a) || !f.Finite(b) ==> DivSpecial(f, a, b, before, r, after)
    ensures NanRule(f, IsNan(f, a) || IsNan(f, b), IsSignalingNan(f, a) || IsSignalingNan(f, b), DivInvalid(f, a, b),
                    before, r, after)
  {
    Classes(f, a); Classes(f, b);
    QuietNanIs(f);
    NonzeroValue(f, a); NonzeroValue(f, b);
    var neg := f.Negative(a) != f.Negative(b);
    PackedZero(f, neg);
    hide Delivers, ExactDiv, Value, QuietNan, Pack, IsSignalingNan, IsNan, IsInf, FormatSizes.MagBits,
         FormatSizes.Negative, FormatSizes.ExpMask;
    InfinityWord(f, neg, Pack(f, neg, f.ExpMask(), 0));
    if f.Finite(a) && f.Finite(b) && Value(f, b) != 0.0 {
      DeliversNoNan(f, rm, ExactDiv(f, a, b), neg, before, r, after);
    }
  }

  lemma PackedZero(f: Format, neg: bool)
    ensures var r := Pack(f, neg, 0, 0); f.Word(r) && !IsNan(f, r)
  {
    PackIs(f, neg, 0, 0, 0);
    EncodeFields(f, neg, 0);
    Classes(f, Pack(f, neg, 0, 0));
    hide Pack, IsNan;
  }

  lemma ZeroQuotient(f: Format, a: nat, b: nat)
    requires Value(f, a) == 0.0 && Value(f, b) != 0.0
    ensures ExactDiv(f, a, b) == 0.0
  {
    hide Value;
    assert TimesQuanta(f, 0.0, Value(f, b)) == 0.0;
    hide P2;
    QuotientIsExactDiv(f, a, b, 0.0);
  }
}
