/** Addition and subtraction (softfp_template.h: add_sf, sub_sf, issignan_sf, isnan_sf). */
module Addition {
  import opened Powers
  import opened IeeeFormat
  import opened Rounding
  import opened Jamming
  import opened RoundPack
  import opened Normalize

  // ----- operands that are not finite

  predicate IsNan(f: Format, a: nat) {
    ExpField(f, a) == f.ExpMask() && MantField(f, a) != 0
  }

  /** issignan_sf: the exponent field and the quiet bit together read 2 * EXP_MASK. */
  predicate IsSignalingNan(f: Format, a: nat) {
    (a / Pow2(f.mant - 1)) % Pow2(f.exp + 1) == 2 * f.ExpMask() && MantField(f, a) != 0
  }

  predicate IsInf(f: Format, a: nat) {
    ExpField(f, a) == f.ExpMask() && MantField(f, a) == 0
  }

  /** F_QNAN */
  function QuietNan(f: Format): nat {
    Shl(f.ExpMask(), f.mant) + Pow2(f.mant - 1)
  }

  ghost predicate InvalidResult(f: Format, before: Flags, r: nat, after: Flags) {
    r == QuietNan(f) && after == before.(invalid := true)
  }

  // ----- the aligned mantissas

  /** The field pair of a finite operand with three guard bits; a subnormal one has the least exponent. */
  function AddExp(f: Format, a: nat): (e: nat)
    ensures e >= 1
  {
    if ExpField(f, a) == 0 then 1 else ExpField(f, a)
  }

  function AddMant(f: Format, a: nat): nat {
    Shl(MantField(f, a) + (if ExpField(f, a) == 0 then 0 else Pow2(f.mant)), 3)
  }

  lemma AddOperand(f: Format, a: nat)
    requires f.Finite(a)
    ensures AddMant(f, a) < Pow2(f.mant + 4) && AddMant(f, a) % 8 == 0 && AddMant(f, a) % 2 == 0
    ensures AddExp(f, a) > 1 ==> Pow2(f.mant + 3) <= AddMant(f, a)
    ensures IsProduct(Mag(f, f.MagBits(a)) as real, AddMant(f, a) as real, P2(AddExp(f, a) - 4))
  {
    FieldsOf(f, a);
    MagOfFields(f, a);
    var m := MantField(f, a) + if ExpField(f, a) == 0 then 0 else Pow2(f.mant);
    ShlOne(f.mant);
    assert Shl(m, 0) == m;
    hide Mag, Shl, ExpField, MantField;
    Pow2Double(f.mant);
    GuardBits(f, m);
    hide Pow2;
    ScaledMantissa(m, AddExp(f, a) - 1);
  }

  lemma GuardBits(f: Format, m: nat)
    requires m < Pow2(f.mant + 1)
    ensures Shl(m, 3) < Pow2(f.mant + 4) && Shl(m, 3) % 8 == 0 && Shl(m, 3) % 2 == 0
    ensures Pow2(f.mant) <= m ==> Pow2(f.mant + 3) <= Shl(m, 3)
  {
    TimesEight(m);
    hide Pow2, Shl;
    ShlMono(m, Pow2(f.mant + 1), 3);
    ShlPow(f.mant + 1, 3);
    ShlPow(f.mant, 3);
    ShlMono(Pow2(f.mant), m, 3);
  }

  lemma TimesEight(m: nat)
    ensures Shl(m, 3) % 8 == 0 && Shl(m, 3) % 2 == 0
  {
    SmallPowers();
    hide Pow2;
    assert Shl(m, 3) == 8 * m;
  }

  lemma ScaledMantissa(m: nat, e: nat)
    ensures IsProduct(Shl(m, e) as real, Shl(m, 3) as real, P2(e - 3))
  {
    hide Shl, IsProduct;
    ShlReal(m, e);
    P2Nat(e);
    ShlReal(m, 3);
    P2Nat(3);
    hide P2;
    ScaleSplit(m as real, Shl(m, 3) as real, Shl(m, e) as real, 3, e);
  }

  lemma QuotientAtMost(m: nat, d: nat, top: nat)
    requires m < Pow2(top + d)
    ensures m / Pow2(d) < Pow2(top)
  {
    Pow2Add(top, d);
    QuotientBelow(m, Pow2(d), Pow2(top));
  }

  lemma EightIsMultiple(m: nat, d: nat)
    requires m % 8 == 0 && d <= 3
    ensures m % Pow2(d) == 0
  {
    SmallPowers();
    hide Pow2;
    var k := m / 8;
    if d == 0 { DivModUnique(m, 1, m, 0); }
    else if d == 1 { DivModUnique(m, 2, 4 * k, 0); }
    else if d == 2 { DivModUnique(m, 4, 2 * k, 0); }
  }

  lemma SmallPowers()
    ensures Pow2(0) == 1 && Pow2(1) == 2 && Pow2(2) == 4 && Pow2(3) == 8
  {
  }

  lemma ExactQuotient(m: nat, d: nat, y: real)
    requires m % Pow2(d) == 0 && IsProduct(y, m as real, P2(-(d as int)))
    ensures y == (m / Pow2(d)) as real
  {
    var n := m / Pow2(d);
    assert m == Shl(n, d);
    ShiftedMantissa(n, d);
    hide IsProduct;
    ProductFunctional(y, n as real, m as real, P2(-(d as int)));
  }

  lemma JamSize(m: nat, d: nat, top: nat)
    requires m < Pow2(top + d) && top > 0
    ensures JamShift(m, d) < Pow2(top)
  {
    QuotientAtMost(m, d, top);
    Pow2Even(top);
  }

  lemma AlignedSize(f: Format, m: nat, d: nat)
    requires m < Pow2(f.mant + 4)
    ensures var m' := JamShift(m, d);
      && m' < Pow2(f.mant + 4)
      && (d >= 1 ==> m' < Pow2(f.mant + 3))
      && (d >= 4 ==> m' < Pow2(f.mant + 2))
  {
    hide Pow2, JamShift;
    Pow2Mono(f.mant + 4, f.mant + 4 + d);
    JamSize(m, d, f.mant + 4);
    if d >= 1 {
      Pow2Mono(f.mant + 4, f.mant + 3 + d);
      JamSize(m, d, f.mant + 3);
    }
    if d >= 4 {
      Pow2Mono(f.mant + 4, f.mant + 2 + d);
      JamSize(m, d, f.mant + 2);
    }
  }

  lemma JamExact(m: nat, d: nat, y: real)
    requires m % 8 == 0 && d <= 3 && IsProduct(y, m as real, P2(-(d as int)))
    ensures JamShift(m, d) as real == y
  {
    EightIsMultiple(m, d);
    hide IsProduct, P2, Pow2;
    ExactQuotient(m, d, y);
  }

  /** The smaller operand after alignment by `d`: exact, or shifted so far that only its size matters. */
  lemma AlignedOperand(f: Format, m: nat, d: nat, y: real)
    requires m < Pow2(f.mant + 4) && m % 8 == 0 && IsProduct(y, m as real, P2(-(d as int)))
    ensures var m' := RshiftRnd(f, m, d);
      && m' < Pow2(f.mant + 4)
      && (d >= 1 ==> m' < Pow2(f.mant + 3))
      && y >= 0.0 && SameCell(2, m', y)
      && (m' as real == y || (d >= 4 && m' < Pow2(f.mant + 2)))
  {
    hide P2, IsProduct, RshiftRnd, Pow2, JamShift, SameCell;
    Pow2Mono(f.mant + 4, f.Size());
    RshiftIsJam(f, m, d);
    SameCellExact(2, m);
    RshiftKeepsCell(f, 2, m, d, m as real, y);
    AlignedSize(f, m, d);
    CellPositive(2, RshiftRnd(f, m, d), y);
    if d <= 3 { JamExact(m, d, y); }
  }

  /** The sum or difference still stands for the exact one: three guard bits are enough. */
  lemma SumStands(f: Format, am: nat, bm: nat, y: real, plus: bool)
    requires am < Pow2(f.mant + 4) && bm < Pow2(f.mant + 4) && am % 2 == 0
    requires y >= 0.0 && SameCell(2, bm, y) && bm <= am
    requires bm as real == y || (Pow2(f.mant + 3) <= am && bm < Pow2(f.mant + 2))
    ensures var m, z := if plus then am + bm else am - bm, if plus then am as real + y else am as real - y;
      && m < Pow2(f.mant + f.exp)
      && StandsFor(f, f.exp - 3, m, z)
      && z >= 0.0 && (m == 0 <==> z == 0.0)
  {
    Pow2Double(f.mant + 4);
    Pow2Mono(f.mant + 5, f.mant + f.exp);
    Pow2Double(f.mant + 2);
    SmallPowers();
    assert f.mant + f.exp - 1 - (f.exp - 3) == f.mant + 2 && f.exp - 2 - (f.exp - 3) == 1;
    hide Pow2, SameCell;
    if bm as real != y {
      HalfTimes(am);
      hide Times;
      if plus {
        SameCellPlus(2, am / 2, bm, y);
      } else {
        SameCellMinus(2, am / 2, bm, y);
        CellPositive(2, am - bm, am as real - y);
      }
    }
  }

  lemma HalfTimes(a: nat)
    requires a % 2 == 0
    ensures a == Times(a / 2, 2)
  {
  }

  lemma CellPositive(q: nat, m: nat, y: real)
    requires SameCell(q, m, y)
    ensures m == 0 <==> y == 0.0
    ensures y >= 0.0
  {
    assert SameSide(Times(0, q), m, y);
  }

  /** The quiet bit of the mantissa field. */
  function QuietBit(f: Format, a: nat): nat {
    (a / Pow2(f.mant - 1)) % 2
  }

  lemma SignalingByQuietBit(f: Format, a: nat)
    ensures IsSignalingNan(f, a) <==> IsNan(f, a) && QuietBit(f, a) == 0
  {
    TopBits(a, Pow2(f.mant - 1), Pow2(f.mant), Pow2(f.exp), Pow2(f.exp + 1));
  }

  lemma TopBits(a: nat, p: nat, pp: nat, x: nat, xx: nat)
    requires p > 0 && x > 0 && pp == 2 * p && xx == 2 * x
    ensures (a / p) % xx == 2 * ((a / pp) % x) + (a / p) % 2
  {
    var bit := HalfRadix(a, p, pp);
    WholeRadix(x, xx, a / pp, bit);
  }

  lemma HalfRadix(a: nat, p: nat, pp: nat) returns (bit: nat)
    requires p > 0 && pp == 2 * p
    ensures bit <= 1 && a / p == 2 * (a / pp) + bit
  {
    var t, r := Divide(a, p);
    bit := t % 2;
    DoubleTimes(t / 2, p, pp);
    hide Times;
    DivModTimes(a, pp, t / 2, if bit == 0 then r else p + r);
  }

  lemma DivModTimes(a: nat, q: nat, d: nat, r: nat)
    requires q > 0 && a == Times(d, q) + r && r < q
    ensures a / q == d
  {
    DivModUnique(a, q, d, r);
  }

  lemma DoubleTimes(h: nat, p: nat, pp: nat)
    requires pp == 2 * p
    ensures Times(h, pp) == Times(2 * h, p) && Times(2 * h + 1, p) == Times(2 * h, p) + p
  {
  }

  lemma WholeRadix(x: nat, xx: nat, h: nat, bit: nat)
    requires x > 0 && xx == 2 * x && bit <= 1
    ensures (2 * h + bit) % xx == 2 * (h % x) + bit && (2 * h + bit) % 2 == bit
  {
    var S, E := h / x, h % x;
    assert h == S * x + E && S * xx == 2 * (S * x);
    DivModUnique(2 * h + bit, xx, S, 2 * E + bit);
  }

  /** Infinities and NaNs by magnitude bits. */
  lemma Classes(f: Format, a: nat)
    requires f.Word(a)
    ensures IsNan(f, a) <==> f.MagBits(a) > f.Inf()
    ensures IsInf(f, a) <==> f.MagBits(a) == f.Inf()
    ensures f.Finite(a) <==> !IsNan(f, a) && !IsInf(f, a)
  {
    FieldsOf(f, a);
  }

  lemma InfinityWord(f: Format, neg: bool, r: nat)
    requires r == Pack(f, neg, f.ExpMask(), 0)
    ensures f.Word(r) && IsInf(f, r) && !IsNan(f, r) && !f.Finite(r) && f.Negative(r) == neg && f.MagBits(r) == f.Inf()
  {
    PackIs(f, neg, f.ExpMask(), 0, 0);
    EncodeFields(f, neg, f.Inf());
    Classes(f, r);
  }

  // ----- NaNs

  /** The one NaN that operations deliver: positive, quiet, and without any other bit. */
  ghost predicate IsDefaultNan(f: Format, r: nat) {
    && f.Word(r) && IsNan(f, r) && !IsSignalingNan(f, r) && !f.Negative(r)
    && ExpField(f, r) == Pow2(f.exp) - 1 && MantField(f, r) == Pow2(f.mant - 1)
  }

  /** Sections 6.2 and 7.2: the result is a NaN exactly for a NaN operand and an invalid operation, and then it is the
      default one; the invalid flag is raised exactly by a signaling operand and an invalid operation. */
  ghost predicate NanRule(f: Format, nan: bool, signaling: bool, invalid: bool, before: Flags, r: nat, after: Flags) {
    && f.Word(r) && (IsNan(f, r) <==> nan || invalid) && (IsNan(f, r) ==> IsDefaultNan(f, r))
    && after.invalid == (before.invalid || if nan then signaling else invalid)
  }

  /** The classes of words by their sign, exponent and mantissa. */
  lemma WordClasses(f: Format, S: nat, E: nat, M: nat)
    requires S < 2 && E < Pow2(f.exp) && M < Pow2(f.mant)
    ensures var a := Shl(Shl(S, f.exp) + E, f.mant) + M;
      && f.Word(a) && (f.Negative(a) <==> S == 1) && ExpField(f, a) == E && MantField(f, a) == M
      && (IsNan(f, a) <==> E == Pow2(f.exp) - 1 && M != 0)
      && (IsSignalingNan(f, a) <==> E == Pow2(f.exp) - 1 && 0 < M < Pow2(f.mant - 1))
      && (IsInf(f, a) <==> E == Pow2(f.exp) - 1 && M == 0)
  {
    var a, hi := Shl(Shl(S, f.exp) + E, f.mant) + M, Shl(S, f.exp) + E;
    SignalingByQuietBit(f, a);
    DivModUnique(a, Pow2(f.mant), hi, M);
    DivModUnique(hi, Pow2(f.exp), S, E);
    QuietBitOf(f, a, hi, M);
    WordSign(f, S, E, M);
    hide Pow2, Shl, IsSignalingNan;
  }

  lemma QuietBitOf(f: Format, a: nat, hi: nat, M: nat)
    requires a == Shl(hi, f.mant) + M && M < Pow2(f.mant)
    ensures QuietBit(f, a) == if M < Pow2(f.mant - 1) then 0 else 1
  {
    var h := Pow2(f.mant - 1);
    assert Pow2(f.mant) == 2 * h;
    hide Pow2;
    assert Shl(hi, f.mant) == (2 * hi) * h;
    if M < h {
      DivModUnique(a, h, 2 * hi, M);
    } else {
      assert (2 * hi + 1) * h == (2 * hi) * h + h;
      DivModUnique(a, h, 2 * hi + 1, M - h);
    }
  }

  lemma WordSign(f: Format, S: nat, E: nat, M: nat)
    requires S < 2 && E < Pow2(f.exp) && M < Pow2(f.mant)
    ensures var a := Shl(Shl(S, f.exp) + E, f.mant) + M; f.Word(a) && (f.Negative(a) <==> S == 1)
  {
    var s, low := f.SignBit(), Shl(E, f.mant) + M;
    ShlPow(f.exp, f.mant);
    ShlTwice(S, f.exp, f.mant);
    ShlSum(Shl(S, f.exp), E, f.mant);
    ShlMono(E + 1, Pow2(f.exp), f.mant);
    ShlSucc(E, f.mant);
    assert low < s;
    assert Shl(S, f.exp + f.mant) == S * s;
    hide Pow2, Shl;
    DivModUnique(S * s + low, s, S, low);
  }

  lemma QuietNanIs(f: Format)
    ensures IsDefaultNan(f, QuietNan(f))
  {
    var h := Pow2(f.mant - 1);
    assert Pow2(f.mant) == 2 * h;
    assert Shl(0, f.exp) == 0;
    WordClasses(f, 0, f.ExpMask(), h);
    hide Pow2, Shl, IsSignalingNan, IsNan, ExpField, MantField, FormatSizes.Negative;
  }

  /** A result that is not a NaN, with or without flags. */
  lemma DeliversNoNan(f: Format, rm: RoundingMode, x: real, s: bool, before: Flags, r: nat, after: Flags)
    requires Delivers(f, rm, x, s, before, r, after)
    ensures NanRule(f, false, false, false, before, r, after)
  {
    Classes(f, r);
    hide Value, Exact, Tiny, Overflows, IsNan, IsSignalingNan, ExpField, MantField;
  }

  lemma ZeroSignFree(f: Format, rm: RoundingMode, x: real, s: bool, s': bool, before: Flags, r: nat, after: Flags)
    requires Delivers(f, rm, x, s, before, r, after) && (x == 0.0 ==> s == s')
    ensures Delivers(f, rm, x, s', before, r, after)
  {
  }

  /** The larger operand dominates the aligned smaller one. */
  lemma Dominates(f: Format, a: nat, b: nat, m': nat)
    requires f.Finite(a) && f.Finite(b) && f.MagBits(b) <= f.MagBits(a)
    requires AddExp(f, b) <= AddExp(f, a)
    requires m' == AddMant(f, b) || AddExp(f, b) < AddExp(f, a)
    requires AddExp(f, b) < AddExp(f, a) ==> m' < Pow2(f.mant + 3)
    ensures m' <= AddMant(f, a)
  {
    AddOperand(f, a);
    AddOperand(f, b);
    if AddExp(f, b) == AddExp(f, a) {
      FieldsOf(f, a);
      FieldsOf(f, b);
      SameExpOrder(f, a, b);
    }
  }

  lemma SameExpOrder(f: Format, a: nat, b: nat)
    requires f.Word(a) && f.Word(b) && f.MagBits(b) <= f.MagBits(a) && AddExp(f, b) == AddExp(f, a)
    requires f.MagBits(a) == Shl(ExpField(f, a), f.mant) + MantField(f, a) && MantField(f, a) < Pow2(f.mant)
    requires f.MagBits(b) == Shl(ExpField(f, b), f.mant) + MantField(f, b) && MantField(f, b) < Pow2(f.mant)
    ensures AddMant(f, b) <= AddMant(f, a)
  {
    ShlOne(f.mant);
    var u, v := MantField(f, b) + (if ExpField(f, b) == 0 then 0 else Pow2(f.mant)),
                MantField(f, a) + (if ExpField(f, a) == 0 then 0 else Pow2(f.mant));
    hide Shl, Pow2, ExpField, MantField, FormatSizes.MagBits;
    assert u <= v;
    ShlMono(u, v, 3);
  }

  lemma ExpOrder(f: Format, a: nat, b: nat)
    requires f.Word(a) && f.Word(b) && f.MagBits(b) <= f.MagBits(a)
    ensures ExpField(f, b) <= ExpField(f, a)
  {
    FieldsOf(f, a);
    FieldsOf(f, b);
    var x, y := ExpField(f, a), ExpField(f, b);
    hide ExpField, MantField, Shl, Pow2, FormatSizes.MagBits;
    if x < y {
      ShlMono(x + 1, y, f.mant);
      ShlSucc(x, f.mant);
    }
  }

  /** The finite sum, from operands with |a| >= |b|: the aligned mantissas add up to a mantissa that stands for it. */
  lemma SumOfAligned(f: Format, a: nat, b: nat, d: nat, m': nat, plus: bool) returns (y: real, x: real)
    requires f.Finite(a) && f.Finite(b) && f.MagBits(b) <= f.MagBits(a)
    requires AddExp(f, b) <= AddExp(f, a) && d == AddExp(f, a) - AddExp(f, b)
    requires m' == RshiftRnd(f, AddMant(f, b), d)
    ensures m' <= AddMant(f, a)
    ensures var m := if plus then AddMant(f, a) + m' else AddMant(f, a) - m';
      m < Pow2(f.mant + f.exp) && StandsFor(f, f.exp - 3, m, y) && (m == 0 <==> x == 0.0)
    ensures IsProduct(x, y, P2(AddExp(f, a) - 4)) && x >= 0.0
    ensures var A, B := Mag(f, f.MagBits(a)) as real, Mag(f, f.MagBits(b)) as real;
      x == if plus then A + B else A - B
  {
    hide P2, IsProduct, RshiftRnd, Pow2, SameCell, Mag, AddMant, AddExp, StandsFor;
    var am, bm := AddMant(f, a), AddMant(f, b);
    var e: int := AddExp(f, a);
    var A, B := Mag(f, f.MagBits(a)) as real, Mag(f, f.MagBits(b)) as real;
    AddOperand(f, a);
    var yb := AlignedValue(f, b, d, e);
    AlignedOperand(f, bm, d, yb);
    NoShift(f, bm);
    Dominates(f, a, b, m');
    SumStands(f, am, m', yb, plus);
    ProductAdd(A, am as real, B, yb, P2(e - 4));
    y := if plus then am as real + yb else am as real - yb;
    x := if plus then A + B else A - B;
    ZeroProduct(P2(e - 4));
    ProductOrder(0.0, 0.0, x, y, P2(e - 4));
  }

  /** The smaller operand in the scale of the larger exponent `e`. */
  lemma AlignedValue(f: Format, b: nat, d: nat, e: int) returns (yb: real)
    requires f.Finite(b) && d == e - AddExp(f, b)
    ensures AddMant(f, b) < Pow2(f.mant + 4) && AddMant(f, b) % 8 == 0
    ensures IsProduct(yb, AddMant(f, b) as real, P2(-(d as int)))
    ensures IsProduct(Mag(f, f.MagBits(b)) as real, yb, P2(e - 4))
  {
    hide P2, IsProduct, Pow2, Mag, AddMant, AddExp;
    AddOperand(f, b);
    yb := ScaledValue(AddMant(f, b) as real, -(d as int));
    ScaleSplit(AddMant(f, b) as real, yb, Mag(f, f.MagBits(b)) as real, -(d as int), AddExp(f, b) - 4);
    assert AddExp(f, b) - 4 - (-(d as int)) == e - 4;
  }

  lemma ZeroProduct(q: real)
    ensures IsProduct(0.0, 0.0, q)
  {
  }

  lemma ScaledValue(a: real, n: int) returns (y: real)
    ensures IsProduct(y, a, P2(n))
  {
    y := a * P2(n);
  }

  /** The sum of the values is the signed sum or difference of the magnitudes. */
  lemma ValueSum(f: Format, a: nat, b: nat, x: real)
    requires var A, B := Mag(f, f.MagBits(a)) as real, Mag(f, f.MagBits(b)) as real;
      x == if f.Negative(a) == f.Negative(b) then A + B else A - B
    ensures Value(f, a) + Value(f, b) == Signed(f.Negative(a), x)
  {
    hide Mag, FormatSizes.MagBits, FormatSizes.Negative;
  }

  lemma SignedZero(s: bool, s': bool, x: real)
    requires s == s' || x == 0.0
    ensures Signed(s, x) == Signed(s', x)
    ensures Signed(s, x) == 0.0 <==> x == 0.0
  {
  }

  /** add_sf on finite operands with |a| >= |b|. */
  method AddFinite(f: Format, a: nat, b: nat, rm: RoundingMode, before: Flags) returns (r: nat, after: Flags)
    requires f.Finite(a) && f.Finite(b) && f.MagBits(b) <= f.MagBits(a)
    ensures Delivers(f, rm, Value(f, a) + Value(f, b),
                     if f.Negative(a) == f.Negative(b) then f.Negative(a) else rm == RDN, before, r, after)
  {
    ExpOrder(f, a, b);
    hide Mag, Value, Delivers, Pow2, P2, IsProduct, StandsFor, RshiftRnd, AddMant,
         FormatSizes.Negative, FormatSizes.MagBits, FormatSizes.Finite, Signed;
    var neg, bNeg := f.Negative(a), f.Negative(b);
    var mant := AddMant(f, a);
    var bMant := RshiftRnd(f, AddMant(f, b), AddExp(f, a) - AddExp(f, b));
    ghost var y, x := SumOfAligned(f, a, b, AddExp(f, a) - AddExp(f, b), bMant, neg == bNeg);
    if neg == bNeg {
      mant := mant + bMant;
    } else {
      mant := mant - bMant;
      if mant == 0 {
        // zero result: the sign needs a specific handling
        neg := rm == RDN;
      }
    }
    r, after := NormalizeSf(f, neg, AddExp(f, a) + (f.exp - 1 - 3), mant, rm, before);
    assert ReadsUpTo(f, f.exp - 3, AddExp(f, a) + (f.exp - 1 - 3), mant, y, x);
    ValueSum(f, a, b, x);
    SignedZero(neg, f.Negative(a), x);
    ZeroSignFree(f, rm, Signed(neg, x), neg, if f.Negative(a) == f.Negative(b) then f.Negative(a) else rm == RDN,
                 before, r, after);
  }

  /** What add_sf returns for an infinite or NaN operand. */
  ghost predicate AddSpecial(f: Format, a: nat, b: nat, before: Flags, r: nat, after: Flags) {
    if IsNan(f, a) || IsNan(f, b) then
      r == QuietNan(f) &&
      after == before.(invalid := before.invalid || IsSignalingNan(f, a) || IsSignalingNan(f, b))
    else if IsInf(f, a) && IsInf(f, b) && f.Negative(a) != f.Negative(b) then
      InvalidResult(f, before, r, after)
    else
      (if IsInf(f, a) then r == a else r == b) && after == before
  }

  /** The branch of add_sf for an infinite or NaN operand, with |a| >= |b|. */
  method AddNonFinite(f: Format, a: nat, b: nat, before: Flags) returns (r: nat, after: Flags)
    requires f.Word(a) && f.Word(b) && f.MagBits(b) <= f.MagBits(a) && ExpField(f, a) == f.ExpMask()
    ensures AddSpecial(f, a, b, before, r, after)
  {
    Classes(f, a);
    Classes(f, b);
    SignalingByQuietBit(f, a);
    hide Pow2, IsSignalingNan, QuietBit, QuietNan, FormatSizes.Inf, FormatSizes.MagBits;
    if MantField(f, a) != 0 {
      r := QuietNan(f);
      after := if QuietBit(f, a) == 0 || IsSignalingNan(f, b) then before.(invalid := true) else before;
    } else if ExpField(f, b) == f.ExpMask() && f.Negative(a) != f.Negative(b) {
      r, after := QuietNan(f), before.(invalid := true);
    } else {
      r, after := a, before;
    }
  }

  lemma InfByBits(f: Format, a: nat, b: nat)
    requires f.Word(a) && f.Word(b) && IsInf(f, a) && IsInf(f, b) && f.Negative(a) == f.Negative(b)
    ensures a == b
  {
    Classes(f, a);
    Classes(f, b);
    WordOf(f, a);
    WordOf(f, b);
  }

  lemma WordOf(f: Format, a: nat)
    requires f.Word(a)
    ensures a == Encode(f, f.Negative(a), f.MagBits(a))
  {
    FieldsOf(f, a);
    var s := f.SignBit();
    hide FormatSizes.SignBit;
    assert a == s * (a / s) + a % s;
  }

  /** add_sf. The sign of an exact zero follows section 6.3 of IEEE 754-2008. */
  method AddSf(f: Format, a0: nat, b0: nat, rm: RoundingMode, before: Flags) returns (r: nat, after: Flags)
    requires f.Word(a0) && f.Word(b0)
    ensures f.Finite(a0) && f.Finite(b0) ==>
      Delivers(f, rm, Value(f, a0) + Value(f, b0),
               if f.Negative(a0) == f.Negative(b0) then f.Negative(a0) else rm == RDN, before, r, after)
    ensures !f.Finite(a0) || !f.Finite(b0) ==> AddSpecial(f, a0, b0, before, r, after)
    ensures NanRule(f, IsNan(f, a0) || IsNan(f, b0), IsSignalingNan(f, a0) || IsSignalingNan(f, b0),
                    IsInf(f, a0) && IsInf(f, b0) && f.Negative(a0) != f.Negative(b0), before, r, after)
  {
    Classes(f, a0);
    Classes(f, b0);
    if IsInf(f, a0) && IsInf(f, b0) && f.Negative(a0) == f.Negative(b0) { InfByBits(f, a0, b0); }
    hide ExpField, MantField, Pow2, Mag, Delivers, IsSignalingNan, QuietNan, Value,
         FormatSizes.Negative, FormatSizes.MagBits, FormatSizes.Inf, FormatSizes.Finite;
    // swap so that |a| >= |b|
    var a, b := a0, b0;
    if f.MagBits(a) < f.MagBits(b) {
      a, b := b, a;
    }
    if ExpField(f, a) == f.ExpMask() {
      r, after := AddNonFinite(f, a, b, before);
    } else {
      r, after := AddFinite(f, a, b, rm, before);
    }
    hide AddSpecial, NanRule, IsNan, IsInf;
    AddNans(f, a0, b0, rm, before, r, after);
  }

  lemma AddNans(f: Format, a: nat, b: nat, rm: RoundingMode, before: Flags, r: nat, after: Flags)
    requires f.Word(a) && f.Word(b)
    requires f.Finite(a) && f.Finite(b) ==>
      Delivers(f, rm, Value(f, a) + Value(f, b),
               if f.Negative(a) == f.Negative(b) then f.Negative(a) else rm == RDN, before, r, after)
    requires !f.Finite(a) || !f.Finite(b) ==> AddSpecial(f, a, b, before, r, after)
    ensures NanRule(f, IsNan(f, a) || IsNan(f, b), IsSignalingNan(f, a) || IsSignalingNan(f, b),
                    IsInf(f, a) && IsInf(f, b) && f.Negative(a) != f.Negative(b), before, r, after)
  {
    Classes(f, a);
    Classes(f, b);
    QuietNanIs(f);
    hide Delivers, Value, QuietNan, IsSignalingNan, ExpField, MantField, FormatSizes.Inf, FormatSizes.MagBits,
         FormatSizes.Negative;
    if f.Finite(a) && f.Finite(b) {
      DeliversNoNan(f, rm, Value(f, a) + Value(f, b),
                    if f.Negative(a) == f.Negative(b) then f.Negative(a) else rm == RDN, before, r, after);
    }
  }

  /** The sign bit flipped. */
  function Negated(f: Format, b: nat): nat {
    if f.Negative(b) then f.MagBits(b) else f.SignBit() + f.MagBits(b)
  }

  lemma NegatedFields(f: Format, b: nat)
    requires f.Word(b)
    ensures var n := Negated(f, b);
      && f.Word(n) && f.MagBits(n) == f.MagBits(b) && f.Negative(n) == !f.Negative(b)
      && (f.Finite(n) <==> f.Finite(b)) && Value(f, n) == -Value(f, b)
  {
    hide Mag, FormatSizes.Inf;
    var s := f.SignBit();
    hide FormatSizes.SignBit;
    DivModUnique(Negated(f, b), s, if f.Negative(b) then 0 else 1, f.MagBits(b));
  }

  lemma NegatedSpecial(f: Format, b: nat)
    requires f.Word(b)
    ensures var n := Negated(f, b);
      && (IsNan(f, n) <==> IsNan(f, b)) && (IsSignalingNan(f, n) <==> IsSignalingNan(f, b)) &&
         (IsInf(f, n) <==> IsInf(f, b))
    ensures IsInf(f, b) ==> Negated(f, b) == Encode(f, !f.Negative(b), f.Inf())
  {
    NegatedFields(f, b);
    Classes(f, b);
    Classes(f, Negated(f, b));
    SignalingByQuietBit(f, b);
    SignalingByQuietBit(f, Negated(f, b));
    WordOf(f, Negated(f, b));
    NegatedQuietBit(f, b);
    hide Negated, Value, IsNan, IsInf, IsSignalingNan, QuietBit, FormatSizes.Inf, FormatSizes.MagBits,
         FormatSizes.SignBit, Pow2;
  }

  lemma NegatedQuietBit(f: Format, b: nat)
    requires f.Word(b)
    ensures QuietBit(f, Negated(f, b)) == QuietBit(f, b)
  {
    WordOf(f, b);
    var p, q := Pow2(f.mant - 1), Pow2(f.exp);
    assert Pow2(f.exp + 1) == 2 * q;
    Pow2Add(f.mant - 1, f.exp + 1);
    hide Pow2;
    EvenTop(f.MagBits(b), p, q, f.SignBit());
  }

  lemma EvenTop(m: nat, p: nat, q: nat, s: nat)
    requires p > 0 && s == p * (2 * q)
    ensures (s + m) / p % 2 == m / p % 2
  {
    DivModUnique(s + m, p, 2 * q + m / p, m % p) by {
      assert m == p * (m / p) + m % p;
      assert p * (2 * q + m / p) == p * (2 * q) + p * (m / p);
    }
  }

  /** What sub_sf returns for an infinite or NaN operand. */
  ghost predicate SubSpecial(f: Format, a: nat, b: nat, before: Flags, r: nat, after: Flags) {
    if IsNan(f, a) || IsNan(f, b) then
      r == QuietNan(f) &&
      after == before.(invalid := before.invalid || IsSignalingNan(f, a) || IsSignalingNan(f, b))
    else if IsInf(f, a) && IsInf(f, b) && f.Negative(a) == f.Negative(b) then
      InvalidResult(f, before, r, after)
    else
      (if IsInf(f, a) then r == a else r == Encode(f, !f.Negative(b), f.Inf())) && after == before
  }

  /** sub_sf */
  method SubSf(f: Format, a: nat, b: nat, rm: RoundingMode, before: Flags) returns (r: nat, after: Flags)
    requires f.Word(a) && f.Word(b)
    ensures f.Finite(a) && f.Finite(b) ==>
      Delivers(f, rm, Value(f, a) - Value(f, b),
               if f.Negative(a) != f.Negative(b) then f.Negative(a) else rm == RDN, before, r, after)
    ensures !f.Finite(a) || !f.Finite(b) ==> SubSpecial(f, a, b, before, r, after)
    ensures NanRule(f, IsNan(f, a) || IsNan(f, b), IsSignalingNan(f, a) || IsSignalingNan(f, b),
                    IsInf(f, a) && IsInf(f, b) && f.Negative(a) == f.Negative(b), before, r, after)
  {
    hide *;
    NegatedFields(f, b);
    NegatedSpecial(f, b);
    r, after := AddSf(f, a, Negated(f, b), rm, before);
    if !f.Finite(a) || !f.Finite(b) {
      SubOfAdd(f, a, b, before, r, after);
    }
  }

  lemma SubOfAdd(f: Format, a: nat, b: nat, before: Flags, r: nat, after: Flags)
    requires f.Word(a) && f.Word(b) && AddSpecial(f, a, Negated(f, b), before, r, after)
    requires !f.Finite(a) || !f.Finite(b)
    ensures SubSpecial(f, a, b, before, r, after)
  {
    hide Negated, Value, IsNan, IsInf, IsSignalingNan, QuietNan, FormatSizes.Finite, FormatSizes.Negative,
         FormatSizes.Inf, FormatSizes.Word, FormatSizes.MagBits, Encode;
    Classes(f, a);
    Classes(f, b);
    NegatedFields(f, b);
    NegatedSpecial(f, b);
  }
}
