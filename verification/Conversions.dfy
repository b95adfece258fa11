/** Conversions between floats and integers (softfp_template_icvt.h) and between float formats
    (softfp_template.h: cvt_sf32_sf, cvt_sf_sf32). */
module Conversions {
  import opened Powers
  import opened IeeeFormat
  import opened Rounding
  import opened Jamming
  import opened RoundPack
  import opened Normalize
  import opened Addition
  import opened Multiplication
  import opened IntegerLoops
  import opened Uniqueness
  import opened Fma

  /** The value itself, not counted in quanta. */
  ghost function RealValue(f: Format, a: nat): real {
    Signed(f.Negative(a), Mag(f, f.MagBits(a)) as real * P2(QuantumExp(f)))
  }

  // ----- float to integer

  function MinInt(bits: nat, unsigned: bool): int
    requires bits > 0
  {
    if unsigned then 0 else -(Pow2(bits - 1) as int)
  }

  function MaxInt(bits: nat, unsigned: bool): int
    requires bits > 0
  {
    if unsigned then Pow2(bits) - 1 else Pow2(bits - 1) - 1
  }

  /** Section 5.8: `n` is `x` rounded to an integral value in mode `rm`. */
  ghost predicate RoundedToInteger(rm: RoundingMode, x: real, n: int) {
    match rm
    case RNE => 2.0 * Abs(n as real - x) <= 1.0 && (2.0 * Abs(n as real - x) == 1.0 ==> n % 2 == 0)
    case RMM => 2.0 * Abs(n as real - x) <= 1.0 && (2.0 * Abs(n as real - x) == 1.0 ==> Abs(x) < Abs(n as real))
    case RTZ => Abs(n as real) <= Abs(x) < Abs(n as real) + 1.0 && (n > 0 ==> x > 0.0) && (n < 0 ==> x < 0.0)
    case RDN => n as real <= x < n as real + 1.0
    case RUP => n as real - 1.0 < x <= n as real
  }

  lemma RoundedToIntegerUnique(rm: RoundingMode, x: real, n: int, n': int)
    requires RoundedToInteger(rm, x, n) && RoundedToInteger(rm, x, n')
    ensures n == n'
  {
  }

  function SignedInt(neg: bool, n: int): int {
    if neg then -n else n
  }

  /** Rounding the magnitude and putting the sign back is rounding the signed value. */
  lemma MagnitudeRounds(rm: RoundingMode, neg: bool, t: real)
    requires t >= 0.0
    ensures RoundToInt(rm, neg, t) >= 0
    ensures RoundedToInteger(rm, Signed(neg, t), SignedInt(neg, RoundToInt(rm, neg, t)))
    ensures RoundToInt(rm, neg, t) as real == t <==> t == t.Floor as real
  {
  }

  /** What a conversion of a value that rounds to `n` leaves: the integer if it fits, otherwise the
      nearest bound and the invalid flag alone (section 7.2). */
  ghost predicate IntOutcome(bits: nat, unsigned: bool, x: real, n: int, before: Flags, r: nat, after: Flags)
    requires bits > 0
  {
    if MinInt(bits, unsigned) <= n <= MaxInt(bits, unsigned) then
      r == ToWord(Pow2(bits), n) && after == before.(inexact := before.inexact || n as real != x)
    else
      r == ToWord(Pow2(bits), if x < 0.0 then MinInt(bits, unsigned) else MaxInt(bits, unsigned))
      && after == before.(invalid := true)
  }

  /** The largest magnitude that fits, as a word (r_max). */
  function MaxMagnitude(bits: nat, unsigned: bool, neg: bool): (m: nat)
    requires bits > 0
    ensures m as int == if neg then -MinInt(bits, unsigned) else MaxInt(bits, unsigned)
    ensures m < Pow2(bits)
  {
    if unsigned then (if neg then 0 else Pow2(bits) - 1)
    else Pow2(bits - 1) - (if neg then 0 else 1)
  }

  /** Negation of a word. */
  function NegateWord(bits: nat, r: nat): nat {
    ToWord(Pow2(bits), -(r as int))
  }

  /** Fits or saturates: the last steps of internal_cvt_sf_i. */
  lemma Settles(bits: nat, unsigned: bool, neg: bool, N: nat, X: real, before: Flags)
    requires bits > 0 && X >= 0.0 && (N > 0 ==> X > 0.0)
    ensures var M := MaxMagnitude(bits, unsigned, neg);
      var n := SignedInt(neg, N);
      && (N <= M ==> IntOutcome(bits, unsigned, Signed(neg, X), n, before,
                       if neg then NegateWord(bits, N) else N, before.(inexact := before.inexact || N as real != X)))
      && (N > M ==> IntOutcome(bits, unsigned, Signed(neg, X), n, before, M, before.(invalid := true)))
  {
    var W, M := Pow2(bits), MaxMagnitude(bits, unsigned, neg);
    hide Pow2;
    QuotientUnique(M, W, 0, M);
    if neg && M > 0 { QuotientUnique(-(M as int), W, -1, W - M); }
    if N <= M { QuotientUnique(N, W, 0, N); }
  }

  /** The mantissa with its leading bit, as internal_cvt_sf_i reads it. */
  function IntMant(f: Format, a: nat): nat {
    MantField(f, a) + if ExpField(f, a) == 0 then 0 else Pow2(f.mant)
  }

  lemma IntMantissa(f: Format, a: nat)
    requires f.Finite(a)
    ensures IntMant(f, a) < Pow2(f.mant + 1) && (AddExp(f, a) > 1 ==> Pow2(f.mant) <= IntMant(f, a))
    ensures Mag(f, f.MagBits(a)) == Shl(IntMant(f, a), AddExp(f, a) - 1)
  {
    FieldsOf(f, a);
    MagOfFields(f, a);
    ShlZero(MantField(f, a));
    hide Mag, ExpField, Shl, MantField, FormatSizes.MagBits, FormatSizes.Inf;
    Pow2Double(f.mant);
  }

  /** The value is the mantissa scaled by the exponent less the bias and MANT_SIZE. */
  lemma IntReading(f: Format, a: nat)
    requires f.Finite(a)
    ensures IsProduct(Mag(f, f.MagBits(a)) as real * P2(QuantumExp(f)), IntMant(f, a) as real,
                      P2(AddExp(f, a) - f.Bias() - f.mant))
  {
    hide P2, IsProduct, Mag, IntMant, AddExp, Shl, FormatSizes.MagBits, FormatSizes.Inf, FormatSizes.Bias;
    IntMantissa(f, a);
    var exp: int := AddExp(f, a);
    var A := Mag(f, f.MagBits(a)) as real;
    ShlScales(IntMant(f, a), exp - 1);
    var X := ScaledValue(A, QuantumExp(f));
    ScaleChain(IntMant(f, a) as real, A, X, exp - 1, QuantumExp(f));
    assert exp - 1 + QuantumExp(f) == exp - f.Bias() - f.mant;
    ProductIs(X, A, P2(QuantumExp(f)));
    assert X == Mag(f, f.MagBits(a)) as real * P2(QuantumExp(f));
  }

  lemma ProductIs(x: real, a: real, p: real)
    requires IsProduct(x, a, p)
    ensures x == a * p
  {
  }

  /** The mantissa shifted down past the point, with RND_SIZE fraction bits and the lost bits jammed in. */
  lemma FractionReading(f: Format, mant: nat, e: int, X: real) returns (y: real)
    requires e < 0 && mant < Pow2(f.mant + 1) && IsProduct(X, mant as real, P2(e))
    ensures SameCell(Pow2(f.exp - 2), RshiftRnd(f, Shl(mant, f.exp - 1), -e), y)
    ensures IsProduct(y, X, (2 * Pow2(f.exp - 2)) as real)
  {
    PowHalf(f);
    Pow2Even(f.exp - 2);
    P2Nat(f.exp - 1);
    hide P2, IsProduct, Shl, Pow2, RshiftRnd, SameCell;
    var q, m := Pow2(f.exp - 2), Shl(mant, f.exp - 1);
    y := ScaledValue(X, f.exp - 1);
    ShlScales(mant, f.exp - 1);
    ScaleChain(mant as real, X, y, e, f.exp - 1);
    ScaleSplit(mant as real, m as real, y, f.exp - 1, e + (f.exp - 1));
    assert e + (f.exp - 1) - (f.exp - 1) == e == -(-e);
    ShlBelow(mant, f.mant + 1, f.exp - 1);
    Pow2Mono(f.mant + 1 + (f.exp - 1), f.Size());
    SameCellExact(q, m);
    RshiftKeepsCell(f, q, m, -e, m as real, y);
  }

  lemma ShlBelow(a: nat, n: nat, k: nat)
    requires a < Pow2(n)
    ensures Shl(a, k) < Pow2(n + k)
  {
    ShlPow(n, k);
    ShlMono(a, Pow2(n), k);
  }

  lemma DroppedRounds(f: Format, rm: RoundingMode, neg: bool, m: nat, y: real, t: real)
    requires SameCell(Pow2(f.exp - 2), m, y) && IsProduct(y, t, (2 * Pow2(f.exp - 2)) as real)
    ensures RoundToInt(rm, neg, t) == Dropped(f, rm, neg, m)
    ensures RndBits(f, m) == 0 <==> t == t.Floor as real
  {
    PowHalf(f);
    hide SameCell, IsProduct, RoundToInt, Addend;
    DropBits(rm, neg, m, Pow2(f.exp - 2), y, t);
  }

  /** The rounding of internal_cvt_sf_i below the point. */
  method DropFraction(f: Format, rm: RoundingMode, neg: bool, mant: nat, e: int, ghost X: real)
    returns (N: nat, inexact: bool)
    requires e < 0 && mant < Pow2(f.mant + 1) && IsProduct(X, mant as real, P2(e))
    ensures X >= 0.0 && N == RoundToInt(rm, neg, X) && (inexact <==> X != X.Floor as real)
  {
    PowHalf(f);
    ghost var y := FractionReading(f, mant, e, X);
    NonnegativeProduct(X, mant as real, P2(e));
    var m := RshiftRnd(f, Shl(mant, f.exp - 1), -e);
    DroppedRounds(f, rm, neg, m, y, X);
    hide Pow2, P2, IsProduct, SameCell, RshiftRnd, RoundToInt, Shl;
    var half := Pow2(f.exp - 2);
    var rndBits := RndBits(f, m);
    N := (m + Addend(rm, neg, half)) / Pow2(f.exp - 1);
    // half way: select the even result
    if rm == RNE && rndBits == half {
      N := N - N % 2;
    }
    inexact := rndBits != 0;
    assert N == Dropped(f, rm, neg, m);
  }

  lemma WholePart(mant: nat, e: nat, X: real, rm: RoundingMode, neg: bool)
    requires IsProduct(X, mant as real, P2(e))
    ensures X == Shl(mant, e) as real && RoundToInt(rm, neg, X) == Shl(mant, e)
  {
    ShlScales(mant, e);
    hide IsProduct, P2, Shl;
    ProductFunctional(X, Shl(mant, e) as real, mant as real, P2(e));
    WholeRounds(rm, neg, Shl(mant, e));
  }

  lemma WholeRounds(rm: RoundingMode, neg: bool, n: nat)
    ensures RoundToInt(rm, neg, n as real) == n
  {
  }

  lemma TooLarge(f: Format, mant: nat, e: nat, bits: nat)
    requires Pow2(f.mant) <= mant && bits <= e + f.mant
    ensures Pow2(bits) <= Shl(mant, e)
  {
    ShlPow(f.mant, e);
    ShlMono(Pow2(f.mant), mant, e);
    Pow2Mono(bits, f.mant + e);
  }

  /** The sizes the conversion relies on; every pair of the source's float and integer sizes has them. */
  predicate IntSizes(f: Format, bits: nat) {
    0 < bits <= f.Bias() + 1 && f.mant <= f.Bias() + 1
  }

  /** The mantissa brought to the integer scale: whole, too large, or rounded. */
  method ToIntegerScale(f: Format, bits: nat, neg: bool, mant: nat, e: int, rm: RoundingMode, ghost X: real)
    returns (fits: bool, N: nat, inexact: bool)
    requires bits > 0 && mant < Pow2(f.mant + 1) && (e >= 0 ==> Pow2(f.mant) <= mant) &&
             IsProduct(X, mant as real, P2(e))
    ensures X >= 0.0 && fits == (e < 0 || e <= bits - 1 - f.mant)
    ensures fits ==> N == RoundToInt(rm, neg, X) && (inexact <==> X != X.Floor as real)
    ensures !fits ==> Pow2(bits) <= RoundToInt(rm, neg, X)
  {
    hide Pow2, P2, IsProduct, RoundToInt, Shl;
    fits, N, inexact := true, 0, false;
    if e >= 0 {
      WholePart(mant, e, X, rm, neg);
      if e <= bits - 1 - f.mant {
        N := Shl(mant, e);
      } else {
        TooLarge(f, mant, e, bits);
        fits := false;
      }
    } else {
      N, inexact := DropFraction(f, rm, neg, mant, e, X);
    }
  }

  /** internal_cvt_sf_i after unpacking: the magnitude is `mant` * 2^`e`. */
  method MagnitudeToInt(f: Format, bits: nat, unsigned: bool, neg: bool, mant: nat, e: int, rm: RoundingMode,
                        before: Flags,
                        ghost X: real)
    returns (r: nat, after: Flags, ghost n: int)
    requires bits > 0 && mant < Pow2(f.mant + 1) && (e >= 0 ==> Pow2(f.mant) <= mant) &&
             IsProduct(X, mant as real, P2(e))
    ensures RoundedToInteger(rm, Signed(neg, X), n) && IntOutcome(bits, unsigned, Signed(neg, X), n, before, r, after)
    ensures e >= 0 && e > bits - 1 - f.mant ==>
              r == MaxMagnitude(bits, unsigned, neg) && after == before.(invalid := true)
  {
    hide Pow2, P2, IsProduct, RoundToInt, Shl, RoundedToInteger, IntOutcome, Signed, NegateWord, MaxMagnitude;
    var rMax := MaxMagnitude(bits, unsigned, neg);
    var fits, N, inexact := ToIntegerScale(f, bits, neg, mant, e, rm, X);
    MagnitudeRounds(rm, neg, X);
    ghost var M: nat := RoundToInt(rm, neg, X);
    n := SignedInt(neg, M);
    PositiveWhenRounded(rm, neg, X);
    Settles(bits, unsigned, neg, M, X, before);
    if !fits || N > rMax {
      r, after := rMax, before.(invalid := true);
    } else {
      r, after := N, before.(inexact := before.inexact || inexact);
      if neg {
        r := NegateWord(bits, r);
      }
    }
  }

  lemma PositiveWhenRounded(rm: RoundingMode, neg: bool, t: real)
    requires t >= 0.0
    ensures RoundToInt(rm, neg, t) > 0 ==> t > 0.0
  {
  }

  /** What a conversion of a NaN or an infinity leaves: a NaN is taken as +infinity. */
  ghost predicate IntSpecial(f: Format, bits: nat, unsigned: bool, a: nat, before: Flags, r: nat, after: Flags)
    requires bits > 0
  {
    r == ToWord(Pow2(bits), if f.Negative(a) && !IsNan(f, a) then MinInt(bits, unsigned) else MaxInt(bits, unsigned))
    && after == before.(invalid := true)
  }

  lemma SpecialExp(f: Format, bits: nat, a: nat)
    requires f.Word(a) && !f.Finite(a) && IntSizes(f, bits)
    ensures Pow2(f.mant) <= IntMant(f, a) < Pow2(f.mant + 1)
    ensures AddExp(f, a) - f.Bias() - f.mant >= 0 && AddExp(f, a) - f.Bias() - f.mant > bits - 1 - f.mant
  {
    FieldsOf(f, a);
    Pow2Double(f.mant);
    Pow2Double(f.exp - 1);
    Pow2AtLeast(f.exp - 1);
  }

  lemma MaxMagnitudeWord(bits: nat, unsigned: bool, neg: bool)
    requires bits > 0
    ensures MaxMagnitude(bits, unsigned, neg)
         == ToWord(Pow2(bits), if neg then MinInt(bits, unsigned) else MaxInt(bits, unsigned))
  {
    var W, M := Pow2(bits), MaxMagnitude(bits, unsigned, neg);
    assert neg ==> M == 0 || W == 2 * M;
    hide Pow2, MaxMagnitude, MinInt, MaxInt;
    NegatedHalf(M, W, neg);
  }

  lemma NegatedHalf(M: nat, W: nat, neg: bool)
    requires M < W && (neg ==> M == 0 || W == 2 * M)
    ensures M == ToWord(W, if neg then -(M as int) else M)
  {
    QuotientUnique(M, W, 0, M);
    if neg && M > 0 { QuotientUnique(-(M as int), W, -1, W - M); }
  }

  /** The exponent of the mantissa's unit. */
  function IntExp(f: Format, a: nat): int {
    AddExp(f, a) - f.Bias() - f.mant
  }

  lemma Unpacked(f: Format, bits: nat, a: nat) returns (X: real)
    requires f.Word(a) && IntSizes(f, bits)
    ensures IntMant(f, a) < Pow2(f.mant + 1) && (IntExp(f, a) >= 0 ==> Pow2(f.mant) <= IntMant(f, a))
    ensures IsProduct(X, IntMant(f, a) as real, P2(IntExp(f, a)))
    ensures f.Finite(a) ==> Signed(f.Negative(a), X) == RealValue(f, a)
    ensures !f.Finite(a) ==> IntExp(f, a) >= 0 && IntExp(f, a) > bits - 1 - f.mant
  {
    hide IntMant, Mag, P2, Pow2, AddExp, IsProduct, FormatSizes.Bias, FormatSizes.MagBits, FormatSizes.Negative,
         FormatSizes.Finite;
    if f.Finite(a) {
      IntMantissa(f, a);
      IntReading(f, a);
      LargeExp(f, a);
      X := Mag(f, f.MagBits(a)) as real * P2(QuantumExp(f));
    } else {
      SpecialExp(f, bits, a);
      X := ScaledValue(IntMant(f, a) as real, IntExp(f, a));
    }
  }

  /** internal_cvt_sf_i: the word of the rounded integer, or the nearest bound with the invalid flag. */
  method CvtSfToInt(f: Format, bits: nat, unsigned: bool, a: nat, rm: RoundingMode, before: Flags)
    returns (r: nat, after: Flags, ghost n: int)
    requires f.Word(a) && IntSizes(f, bits)
    ensures f.Finite(a) ==>
      RoundedToInteger(rm, RealValue(f, a), n) && IntOutcome(bits, unsigned, RealValue(f, a), n, before, r, after)
    ensures !f.Finite(a) ==> IntSpecial(f, bits, unsigned, a, before, r, after)
  {
    Classes(f, a);
    hide Pow2, P2, RealValue, Signed, ExpField, MantField, IntExp, IntMant, IntOutcome, RoundedToInteger, IsProduct,
         MaxMagnitude, MinInt, MaxInt, ToWord, FormatSizes.Inf, FormatSizes.Negative, FormatSizes.MagBits,
         FormatSizes.ExpMask, FormatSizes.Finite;
    var neg := f.Negative(a);
    if IsNan(f, a) {
      neg := false;
    }
    ghost var X := Unpacked(f, bits, a);
    MaxMagnitudeWord(bits, unsigned, neg);
    r, after, n := MagnitudeToInt(f, bits, unsigned, neg, IntMant(f, a), IntExp(f, a), rm, before, X);
  }

  /** Only a normal number has its point right of the mantissa. */
  lemma LargeExp(f: Format, a: nat)
    ensures AddExp(f, a) - f.Bias() - f.mant >= 0 ==> AddExp(f, a) > 1
  {
    Pow2AtLeast(f.exp - 1);
  }

  // ----- integer to float

  /** `x` is the integer `a` counted in quanta. */
  ghost predicate InQuanta(f: Format, a: int, x: real) {
    IsProduct(a as real, x, P2(QuantumExp(f)))
  }

  function AbsInt(a: int): nat {
    if a < 0 then -a else a
  }

  lemma SignedQuanta(f: Format, a: int, x: real)
    requires InQuanta(f, AbsInt(a), x)
    ensures InQuanta(f, a, Signed(a < 0, x))
  {
    var p := P2(QuantumExp(f));
    hide P2, QuantumExp;
    assert (-x) * p == -(x * p);
  }

  lemma QuantaUnique(f: Format, a: int, x: real, x': real)
    requires InQuanta(f, a, x) && InQuanta(f, a, x')
    ensures x == x'
  {
    var p := P2(QuantumExp(f));
    hide P2, IsProduct, QuantumExp;
    ProductOrder(a as real, x, a as real, x', p);
  }

  /** The integer reduced to F_SIZE - 1 bits by a jamming shift still stands for itself. */
  lemma ReducedReading(f: Format, n: nat, l: nat, m: nat, x: real) returns (y: real)
    requires InQuanta(f, n, x)
    requires l == (if BitLen(n) > f.Size() - 1 then BitLen(n) - (f.Size() - 1) else 0)
    requires m == if l > 0 then JamShift(n, l) else n
    ensures m < Pow2(f.mant + f.exp)
    ensures ReadsUpTo(f, 0, f.Bias() + f.Size() - 2 + l, m, y, x)
  {
    hide Pow2, P2, IsProduct, JamShift, StandsFor, FormatSizes.Bias;
    if l == 0 {
      y := n as real;
      ExactStands(f, n);
    } else {
      y := ScaledValue(n as real, -(l as int));
      JamStands(f, n, l, y);
    }
    ReducedScale(f, n, l, x, y);
    assert f.Bias() + f.Size() - 2 + l - f.exp == -QuantumExp(f) + l;
  }

  lemma ExactStands(f: Format, n: nat)
    requires BitLen(n) <= f.Size() - 1
    ensures n < Pow2(f.mant + f.exp) && StandsFor(f, 0, n, n as real)
  {
    if n > 0 { BitLenBounds(n); Pow2Mono(BitLen(n), f.mant + f.exp); }
  }

  lemma ReducedScale(f: Format, n: nat, l: nat, x: real, y: real)
    requires IsProduct(n as real, x, P2(QuantumExp(f))) && (l == 0 ==> y == n as real)
    requires l > 0 ==> IsProduct(y, n as real, P2(-(l as int)))
    ensures IsProduct(x, y, P2(-QuantumExp(f) + l))
  {
    hide IsProduct, QuantumExp;
    ScaleBack(x, n as real, QuantumExp(f));
    hide P2;
    if l > 0 {
      ScaleSplit(n as real, y, x, -(l as int), -QuantumExp(f));
      assert -QuantumExp(f) - -(l as int) == -QuantumExp(f) + l;
    }
  }

  lemma JamStands(f: Format, n: nat, l: nat, y: real)
    requires l > 0 && BitLen(n) == f.Size() - 1 + l && IsProduct(y, n as real, P2(-(l as int)))
    ensures JamShift(n, l) < Pow2(f.mant + f.exp) && StandsFor(f, 0, JamShift(n, l), y)
  {
    BitLenBounds(n);
    var t := f.mant + f.exp - 1;
    assert BitLen(n) == l + (t + 1);
    Pow2Even(f.exp - 2);
    Pow2Even(t + 1);
    P2Nat(l);
    hide Pow2, P2, IsProduct, SameCell, BitLen, StandsFor, JamDiv;
    HighBounds(n, l, t, t + 1);
    ScaleBack(n as real, y, -(l as int));
    SameCellExact(Times(Pow2(l), Pow2(f.exp - 2)), n);
    JamKeepsCell(Pow2(f.exp - 2), Pow2(l), n, n as real, y);
    JamDivRange(n, Pow2(l), Pow2(t + 1));
    StandsOnGrid(f, JamDiv(n, Pow2(l)), y);
  }

  lemma StandsOnGrid(f: Format, m: nat, y: real)
    requires Pow2(f.mant + f.exp - 1) <= m && SameCell(Pow2(f.exp - 2), m, y)
    ensures StandsFor(f, 0, m, y)
  {
  }

  /** The integer rounded to the format; an exact zero is positive. */
  ghost predicate FloatOutcome(f: Format, a: int, rm: RoundingMode, before: Flags, w: nat, mid: Flags) {
    forall x: real :: InQuanta(f, a, x) ==> Delivers(f, rm, x, false, before, w, mid)
  }

  /** internal_cvt_i_sf: the integer rounded to the format. */
  method CvtIntToSf(f: Format, bits: nat, unsigned: bool, a: int, rm: RoundingMode, before: Flags)
    returns (r: nat, after: Flags)
    requires bits > 0 && MinInt(bits, unsigned) <= a <= MaxInt(bits, unsigned)
    ensures FloatOutcome(f, a, rm, before, r, after)
  {
    hide Delivers, InQuanta, Pow2, Signed, JamShift, ReadsUpTo, FormatSizes.Bias;
    var neg := !unsigned && a < 0;
    var n := AbsInt(a);
    var exp := f.Bias() + f.Size() - 2;
    var mant := n;
    // need to reduce the range before the float normalization
    var l := bits - Clz(bits, n) - (f.Size() - 1);
    if l > 0 {
      mant := JamShift(n, l);
      exp := exp + l;
    }
    ghost var x0 := QuantaOf(f, n);
    ghost var y := ReducedReading(f, n, if l > 0 then l else 0, mant, x0);
    r, after := NormalizeSf(f, neg, exp, mant, rm, before);
    assert ReadsUpTo(f, 0, exp, mant, y, x0);
    SignedQuanta(f, a, x0);
    ZeroQuanta(f, n, x0);
    SignedZero(neg, neg, x0);
    ZeroSignFree(f, rm, Signed(neg, x0), neg, false, before, r, after);
    forall x: real | InQuanta(f, a, x) ensures x == Signed(neg, x0) {
      QuantaUnique(f, a, x, Signed(neg, x0));
    }
  }

  lemma QuantaOf(f: Format, a: int) returns (x: real)
    ensures InQuanta(f, a, x)
  {
    var p := P2(QuantumExp(f));
    x := a as real / p;
  }

  lemma ZeroQuanta(f: Format, n: nat, x: real)
    requires InQuanta(f, n, x)
    ensures n == 0 <==> x == 0.0
  {
    var p := P2(QuantumExp(f));
    hide P2, QuantumExp;
    ProductOrder(0.0, 0.0, n as real, x, p);
  }

  // ----- round trip

  /** A magnitude of at most MANT_SIZE + 1 bits is representable. */
  lemma IntegerWord(f: Format, n: nat, x: real) returns (e: nat)
    requires n <= Pow2(f.mant + 1) && f.mant < f.Bias() && InQuanta(f, n, x)
    ensures e < f.Inf() && Mag(f, e) as real == x
  {
    hide Mag, IsProduct, P2, FormatSizes.Inf, FormatSizes.Bias;
    ZeroQuanta(f, n, x);
    MagZero(f);
    if n == 0 {
      e := 0;
    } else {
      var s := NormalShift(f, n);
      var E := f.Bias() + f.mant - s;
      e := Shl(E - 1, f.mant) + Shl(n, s);
      MagOf(f, E, Shl(n, s));
      BelowInf(f, E, Shl(n, s));
      ShlTwice(n, s, E - 1);
      ShlScales(n, s + (E - 1));
      ScaleBack(x, n as real, QuantumExp(f));
      assert -QuantumExp(f) == s + (E - 1);
      ProductFunctional(x, Shl(n, s + (E - 1)) as real, n as real, P2(s + (E - 1)));
    }
  }

  lemma NormalShift(f: Format, n: nat) returns (s: nat)
    requires 0 < n <= Pow2(f.mant + 1)
    ensures s <= f.mant && Pow2(f.mant) <= Shl(n, s) <= Pow2(f.mant + 1)
  {
    Pow2Double(f.mant);
    if n == Pow2(f.mant + 1) {
      s := 0;
      ShlZero(n);
    } else {
      LeadingBitTo(n, f.mant);
      BitLenBounds(n);
      s := f.mant + 1 - BitLen(n);
    }
  }

  lemma BelowInf(f: Format, E: nat, n: nat)
    requires 1 <= E <= f.Bias() + f.mant && f.mant < f.Bias() && Pow2(f.mant) <= n <= Pow2(f.mant + 1)
    ensures Shl(E - 1, f.mant) + n < f.Inf()
  {
    Pow2Double(f.exp - 1);
    FieldBounds(f, E, n);
    CarriedFields(f, false, E, n);
  }

  /** The word of a representable integer. */
  lemma WordForInteger(f: Format, a: int) returns (z: nat, x: real)
    requires AbsInt(a) <= Pow2(f.mant + 1) && f.mant < f.Bias()
    ensures f.Finite(z) && InQuanta(f, a, x) && Value(f, z) == x && RealValue(f, z) == a as real
    ensures IsZero(f, z) ==> !f.Negative(z)
  {
    hide InQuanta, Pow2, P2, Mag, Value, RealValue, FormatSizes.MagBits, FormatSizes.Inf, FormatSizes.Negative,
         FormatSizes.SignBit;
    var m := QuantaOf(f, AbsInt(a));
    var e := IntegerWord(f, AbsInt(a), m);
    z := Encode(f, a < 0, e);
    x := Signed(a < 0, m);
    EncodeFields(f, a < 0, e);
    SignedQuanta(f, a, m);
    ZeroQuanta(f, AbsInt(a), m);
    MagOfZero(f, e);
    ValueOf(f, z);
    RealOfWord(f, a, e, m, z);
  }

  lemma RealOfWord(f: Format, a: int, e: nat, m: real, z: nat)
    requires InQuanta(f, AbsInt(a), m) && Mag(f, e) as real == m && f.MagBits(z) == e && f.Negative(z) == (a < 0)
    ensures RealValue(f, z) == a as real
  {
    hide P2, Mag, FormatSizes.MagBits, FormatSizes.Negative;
    assert Mag(f, f.MagBits(z)) as real * P2(QuantumExp(f)) == AbsInt(a) as real;
  }

  /** The converted integer is the word whose value it is. */
  lemma ExactInteger(f: Format, a: int, rm: RoundingMode, before: Flags, w: nat, mid: Flags)
    requires AbsInt(a) <= Pow2(f.mant + 1) && f.mant < f.Bias()
    requires FloatOutcome(f, a, rm, before, w, mid)
    ensures f.Finite(w) && RealValue(f, w) == a as real && mid == before
  {
    hide Delivers, InQuanta, Value, RealValue, FormatSizes.Negative, FormatSizes.Finite, FormatSizes.Bias;
    var z, x := WordForInteger(f, a);
    ExactDelivers(f, rm, z, false, before);
    DeliversUnique(f, rm, x, false, before, w, mid, z, before);
  }

  lemma MagOfZero(f: Format, e: nat)
    ensures Mag(f, e) == 0 <==> e == 0
  {
    MagZero(f);
    if e > 0 { MagMono(f, 0, e); }
  }

  /** An integer that fits the mantissa survives conversion to float and back, in any two modes, and raises nothing:
      `w` and `mid` are what internal_cvt_i_sf leaves, `n`, `r` and `after` what internal_cvt_sf_i makes of them. */
  lemma IntFloatInt(f: Format, bits: nat, unsigned: bool, a: int, rm: RoundingMode, rm': RoundingMode, before: Flags,
                    w: nat, mid: Flags, n: int, r: nat, after: Flags)
    requires bits > 0 && MinInt(bits, unsigned) <= a <= MaxInt(bits, unsigned)
    requires AbsInt(a) <= Pow2(f.mant + 1) && f.mant < f.Bias()
    requires FloatOutcome(f, a, rm, before, w, mid)
    requires RoundedToInteger(rm', RealValue(f, w), n) && IntOutcome(bits, unsigned, RealValue(f, w), n, mid, r, after)
    ensures r == ToWord(Pow2(bits), a) && after == before
  {
    ExactInteger(f, a, rm, before, w, mid);
    hide RealValue, Pow2;
    RoundedToIntegerUnique(rm', a as real, n, a);
  }

  /** Every 32-bit integer fits the 64-bit format, and the sizes of all the source's conversions are covered. */
  lemma SourceSizes(a: int)
    ensures MinInt(32, false) <= a <= MaxInt(32, false) ==> AbsInt(a) <= Pow2(FORMAT64.mant + 1)
    ensures FORMAT64.mant < FORMAT64.Bias()
    ensures IntSizes(FORMAT32, 32) && IntSizes(FORMAT32, 64) && IntSizes(FORMAT32, 128)
    ensures IntSizes(FORMAT64, 32) && IntSizes(FORMAT64, 64) && IntSizes(FORMAT64, 128)
    ensures IntSizes(FORMAT128, 32) && IntSizes(FORMAT128, 64) && IntSizes(FORMAT128, 128)
  {
    Pow2Mono(31, 53);
    SmallPowers();
    Pow2Add(3, 3);
    Pow2Add(6, 1);
    Pow2Mono(7, 10);
    Pow2Mono(10, 14);
    hide Pow2;
  }
}
