/** Binary interchange formats and correct rounding, after IEEE 754-2008 sections 3.4, 4.3 and 7.4 to 7.6.
    Values are counted in quanta: one quantum is the least positive number of the format,
    2^(1 - bias - MANT_SIZE), so that every finite number is a whole number of quanta. */
module IeeeFormat {
  import opened Powers

  datatype RoundingMode = RNE | RTZ | RDN | RUP | RMM

  /** The accrued exception flags. */
  datatype Flags = Flags(invalid: bool, divideByZero: bool, overflow: bool, underflow: bool, inexact: bool)

  /** MANT_SIZE and EXP_SIZE; the other sizes follow. */
  datatype FormatSizes = FormatSizes(mant: nat, exp: nat) {
    function Size(): nat { mant + exp + 1 }

    function ExpMask(): nat { Pow2(exp) - 1 }

    function Bias(): int
      requires exp > 0
    { Pow2(exp - 1) - 1 }

    /** The least magnitude encoding that is not finite: infinity. */
    function Inf(): (r: nat)
      requires exp > 0
      ensures r > 0
    {
      assert Pow2(exp) == 2 * Pow2(exp - 1);
      MulAtLeast(ExpMask(), Pow2(mant));
      Shl(ExpMask(), mant)
    }

    function SignBit(): nat { Pow2(mant + exp) }

    predicate Word(b: nat) { b < 2 * SignBit() }

    function MagBits(b: nat): nat { b % SignBit() }

    predicate Negative(b: nat) { b / SignBit() == 1 }

    predicate Finite(b: nat)
      requires exp > 0
    {
      Word(b) && MagBits(b) < Inf()
    }
  }

  type Format = f: FormatSizes | 5 <= f.exp && 2 <= f.mant witness FormatSizes(23, 8)

  const FORMAT32: Format := FormatSizes(23, 8)
  const FORMAT64: Format := FormatSizes(52, 11)
  const FORMAT128: Format := FormatSizes(112, 15)

  /** The magnitude with encoding `e`, in quanta; also defined past the largest exponent,
      which gives the rounding with an exponent range unbounded above. */
  ghost function Mag(f: Format, e: nat): nat {
    var E, M := e / Pow2(f.mant), e % Pow2(f.mant);
    if E == 0 then M else Shl(Pow2(f.mant) + M, E - 1)
  }

  ghost function Signed(neg: bool, v: real): real {
    if neg then -v else v
  }

  /** The value of a finite encoding, in quanta. */
  ghost function Value(f: Format, b: nat): real {
    Signed(f.Negative(b), Mag(f, f.MagBits(b)) as real)
  }

  ghost function Abs(x: real): real {
    if x < 0.0 then -x else x
  }

  ghost predicate Away(rm: RoundingMode, neg: bool) {
    (rm == RDN && neg) || (rm == RUP && !neg)
  }

  /** `e` encodes the magnitude `x` rounded with an exponent range unbounded above. */
  ghost predicate RoundedMag(f: Format, rm: RoundingMode, neg: bool, x: real, e: nat) {
    var below := if e == 0 then -1.0 else Mag(f, e - 1) as real;
    var at, above := Mag(f, e) as real, Mag(f, e + 1) as real;
    if rm == RNE || rm == RMM then
      && (e == 0 || below + at <= 2.0 * x)
      && 2.0 * x <= at + above
      && (rm == RNE && (2.0 * x == at + above || (e > 0 && 2.0 * x == below + at)) ==> e % 2 == 0)
      && (rm == RMM ==> 2.0 * x < at + above)
    else if Away(rm, neg) then
      below < x <= at
    else
      at <= x < above
  }

  /** Twice the value half a unit in the last place above the largest finite number. */
  ghost function OverflowThreshold(f: Format): real {
    Mag(f, f.Inf() - 1) as real + Mag(f, f.Inf()) as real
  }

  /** Section 4.3: `r` is `x` (in quanta) rounded to the format in mode `rm`. Only signs of zero are left open. */
  ghost predicate CorrectlyRounded(f: Format, rm: RoundingMode, x: real, r: nat) {
    && f.Word(r)
    && f.MagBits(r) <= f.Inf()
    && (x > 0.0 ==> !f.Negative(r))
    && (x < 0.0 ==> f.Negative(r))
    && match rm {
      case RTZ =>
        f.Finite(r) && Abs(Value(f, r)) <= Abs(x) &&
        forall z :: f.Finite(z) && Abs(Value(f, z)) <= Abs(x) ==> Abs(Value(f, z)) <= Abs(Value(f, r))
      case RDN =>
        if f.Finite(r) then
          Value(f, r) <= x && forall z :: f.Finite(z) && Value(f, z) <= x ==> Value(f, z) <= Value(f, r)
        else
          f.Negative(r) && forall z :: f.Finite(z) ==> x < Value(f, z)
      case RUP =>
        if f.Finite(r) then
          x <= Value(f, r) && forall z :: f.Finite(z) && x <= Value(f, z) ==> Value(f, r) <= Value(f, z)
        else
          !f.Negative(r) && forall z :: f.Finite(z) ==> Value(f, z) < x
      case _ =>
        // at least half a unit in the last place above the largest finite number: infinity
        if OverflowThreshold(f) <= 2.0 * Abs(x) then
          !f.Finite(r)
        else
          f.Finite(r) && forall z :: f.Finite(z) ==> NoCloser(f, rm, x, r, z)
    }
  }

  /** `z` is no better an approximation of `x` than `r`; ties go to even (RNE) or to the larger magnitude (RMM). */
  ghost predicate NoCloser(f: Format, rm: RoundingMode, x: real, r: nat, z: nat) {
    && Abs(Value(f, r) - x) <= Abs(Value(f, z) - x)
    && (Abs(Value(f, r) - x) == Abs(Value(f, z) - x) && Value(f, r) != Value(f, z) ==>
          if rm == RNE then r % 2 == 0 else Abs(Value(f, z)) < Abs(Value(f, r)))
  }

  // ----- rounding to a whole number of units

  ghost function RoundToInt(rm: RoundingMode, neg: bool, t: real): int {
    var n := t.Floor;
    var frac := t - n as real;
    match rm
    case RNE => if frac < 0.5 || (frac == 0.5 && n % 2 == 0) then n else n + 1
    case RMM => if frac < 0.5 then n else n + 1
    case _ => if Away(rm, neg) && frac > 0.0 then n + 1 else n
  }

  /** `y` is the magnitude `x` rounded to MANT_SIZE + 1 digits with no bound on the exponent. */
  ghost predicate RoundedUnbounded(f: Format, rm: RoundingMode, neg: bool, x: real, e: int, t: real, y: real) {
    && IsProduct(x, t, P2(e))
    && Pow2(f.mant) as real <= t < Pow2(f.mant + 1) as real
    && IsProduct(y, RoundToInt(rm, neg, t) as real, P2(e))
  }

  /** Section 7.5, tininess after rounding: rounded with no bound on the exponent, `x` is
      below the least normal number. */
  ghost predicate Tiny(f: Format, rm: RoundingMode, neg: bool, x: real) {
    exists e: int, t: real, y: real :: RoundedUnbounded(f, rm, neg, x, e, t, y) && y < Pow2(f.mant) as real
  }

  /** Section 7.4: the magnitude rounded with no bound on the exponent exceeds the largest finite number. */
  ghost predicate Overflows(f: Format, rm: RoundingMode, neg: bool, x: real) {
    exists e: nat :: RoundedMag(f, rm, neg, x, e) && f.Inf() <= e
  }

  ghost predicate Exact(f: Format, x: real, r: nat) {
    f.Finite(r) && Value(f, r) == x
  }

  /** The whole outcome of an operation with exact result `x`: the rounded result,
      the sign `zeroSign` of an exact zero, and the flags raised on top of `before`. */
  ghost predicate Delivers(f: Format, rm: RoundingMode, x: real, zeroSign: bool, before: Flags, r: nat, after: Flags) {
    var neg := if x == 0.0 then zeroSign else x < 0.0;
    && CorrectlyRounded(f, rm, x, r)
    && f.Negative(r) == neg
    && after == before.(
         inexact := before.inexact || !Exact(f, x, r),
         underflow := before.underflow || (Tiny(f, rm, neg, Abs(x)) && !Exact(f, x, r)),
         overflow := before.overflow || Overflows(f, rm, neg, Abs(x)))
  }

  // ----- magnitudes

  lemma MagOf(f: Format, E: nat, n: nat)
    requires E >= 1 && n <= Pow2(f.mant + 1)
    requires E > 1 ==> Pow2(f.mant) <= n
    ensures Mag(f, Shl(E - 1, f.mant) + n) == Shl(n, E - 1)
  {
    var p := Pow2(f.mant);
    var e := Shl(E - 1, f.mant) + n;
    ShlSucc(E - 1, f.mant);
    ShlSucc(E, f.mant);
    if n < p {
      DivModUnique(e, p, E - 1, n);
    } else if n < 2 * p {
      DivModUnique(e, p, E, n - p);
    } else {
      DivModUnique(e, p, E + 1, 0);
      ShlTwice(p, 1, E - 1);
    }
  }

  /** Every encoding is of the form used in MagOf. */
  lemma Decompose(f: Format, e: nat) returns (E: nat, n: nat)
    ensures E >= 1 && n < Pow2(f.mant + 1) && (E > 1 ==> Pow2(f.mant) <= n)
    ensures e == Shl(E - 1, f.mant) + n
    ensures Mag(f, e) == Shl(n, E - 1)
    ensures E == if e < Pow2(f.mant) then 1 else e / Pow2(f.mant)
  {
    var p := Pow2(f.mant);
    E, n := e / p, e % p;
    assert e == Shl(E, f.mant) + n;
    if E == 0 {
      E := 1;
      assert e < p;
    } else {
      ShlSucc(E - 1, f.mant);
      n := n + p;
      MulAtLeast(E, p);
    }
    MagOf(f, E, n);
  }

  lemma MagSucc(f: Format, e: nat)
    ensures Mag(f, e) < Mag(f, e + 1)
  {
    var E, n := Decompose(f, e);
    MagOf(f, E, n + 1);
    ShlSucc(n, E - 1);
  }

  lemma {:induction false} MagMono(f: Format, a: nat, b: nat)
    requires a < b
    ensures Mag(f, a) < Mag(f, b)
  {
    MagSucc(f, b - 1);
    if a < b - 1 { MagMono(f, a, b - 1); }
  }
}
