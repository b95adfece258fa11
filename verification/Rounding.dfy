/** Rounding to a whole number of last-place units is correct rounding, and correct rounding is unique. */
module Rounding {
  import opened Powers
  import opened IeeeFormat

  /** `x` lies between neighbours `lo` and `lo + q`, and its fraction of the unit `q` is that of `t`. */
  lemma Fraction(x: real, t: real, q: real, lo: real)
    requires q > 0.0 && IsProduct(x, t, q) && IsProduct(lo, t.Floor as real, q)
    ensures lo <= x < lo + q
    ensures var frac := t - t.Floor as real;
      && (frac < 0.5 <==> 2.0 * x < lo + lo + q)
      && (frac == 0.5 <==> 2.0 * x == lo + lo + q)
      && (frac > 0.0 <==> x > lo)
  {
    var n := t.Floor as real;
    ProductAdd(lo, n, q, 1.0, q);
    ProductAdd(lo, n, q / 2.0, 0.5, q);
    ProductOrder(lo, n, x, t, q);
    ProductOrder(x, t, lo + q, n + 1.0, q);
    ProductOrder(x, t, lo + q / 2.0, n + 0.5, q);
  }

  lemma ShlEven(a: nat, k: nat)
    requires k > 0
    ensures Shl(a, k) % 2 == 0
  {
    ShlTwice(a, k - 1, 1);
  }

  lemma ShlReal(n: nat, k: nat)
    ensures IsProduct(Shl(n, k) as real, n as real, Pow2(k) as real)
  {
  }

  /** Rounding between neighbouring magnitudes `lo` = Mag(e0) and `lo + q` = Mag(e0 + 1). */
  lemma RoundBetween(f: Format, rm: RoundingMode, neg: bool, x: real, t: real, e0: nat, q: real)
    requires q > 0.0 && IsProduct(x, t, q) && IsProduct(Mag(f, e0) as real, t.Floor as real, q)
    requires Mag(f, e0 + 1) as real == Mag(f, e0) as real + q
    requires e0 % 2 == t.Floor % 2
    ensures var d := RoundToInt(rm, neg, t) - t.Floor; (d == 0 || d == 1) && RoundedMag(f, rm, neg, x, e0 + d)
    ensures x == Mag(f, e0 + RoundToInt(rm, neg, t) - t.Floor) as real <==> t == t.Floor as real
  {
    hide Mag, IsProduct;
    Fraction(x, t, q, Mag(f, e0) as real);
    MagSucc(f, e0 + 1);
    if e0 > 0 { MagSucc(f, e0 - 1); }
    var d := RoundToInt(rm, neg, t) - t.Floor;
    if rm == RNE || rm == RMM {
      NearestBetween(f, rm, neg, x, e0, q, t.Floor % 2 == 0, d);
    } else {
      DirectedBetween(f, rm, neg, x, e0, q, d);
    }
  }

  lemma NearestBetween(f: Format, rm: RoundingMode, neg: bool, x: real, e0: nat, q: real, even: bool, d: int)
    requires (rm == RNE || rm == RMM) && even == (e0 % 2 == 0)
    requires var lo := Mag(f, e0) as real; lo <= x < lo + q && Mag(f, e0 + 1) as real == lo + q
    requires Mag(f, e0 + 1) < Mag(f, e0 + 2) && (e0 > 0 ==> Mag(f, e0 - 1) < Mag(f, e0))
    requires var mid := Mag(f, e0) as real + Mag(f, e0) as real + q;
      d == if 2.0 * x < mid || (2.0 * x == mid && rm == RNE && even) then 0 else 1
    ensures RoundedMag(f, rm, neg, x, e0 + d)
    ensures x == Mag(f, e0 + d) as real <==> x == Mag(f, e0) as real
  {
    hide Mag;
    assert (e0 + 1) % 2 == if even then 1 else 0;
  }

  lemma DirectedBetween(f: Format, rm: RoundingMode, neg: bool, x: real, e0: nat, q: real, d: int)
    requires rm != RNE && rm != RMM
    requires var lo := Mag(f, e0) as real; lo <= x < lo + q && Mag(f, e0 + 1) as real == lo + q
    requires e0 > 0 ==> Mag(f, e0 - 1) < Mag(f, e0)
    requires d == if Away(rm, neg) && x > Mag(f, e0) as real then 1 else 0
    ensures RoundedMag(f, rm, neg, x, e0 + d)
    ensures x == Mag(f, e0 + d) as real <==> x == Mag(f, e0) as real
  {
    hide Mag;
  }

  /** A magnitude of `t` units in the binade with exponent `E`, rounded to whole units, is rounded correctly. */
  lemma RoundToIntRounds(f: Format, rm: RoundingMode, neg: bool, x: real, t: real, E: nat) returns (e: nat)
    requires E >= 1 && IsProduct(x, t, Pow2(E - 1) as real)
    requires 0.0 <= t < Pow2(f.mant + 1) as real
    requires E > 1 ==> Pow2(f.mant) as real <= t
    ensures 0 <= RoundToInt(rm, neg, t) <= Pow2(f.mant + 1)
    ensures E > 1 ==> Pow2(f.mant) <= RoundToInt(rm, neg, t)
    ensures e == Shl(E - 1, f.mant) + RoundToInt(rm, neg, t)
    ensures RoundedMag(f, rm, neg, x, e)
    ensures Mag(f, e) == Shl(RoundToInt(rm, neg, t), E - 1)
    ensures x == Mag(f, e) as real <==> t == t.Floor as real
  {
    hide RoundToInt, RoundedMag, Mag;
    var n := t.Floor;
    var e0 := BinadeNeighbours(f, t, E);
    RoundBetween(f, rm, neg, x, t, e0, Pow2(E - 1) as real);
    RoundToIntBounds(rm, neg, t, n, n + 1);
    hide IsProduct, Shl;
    Pow2Double(f.mant);
    hide Pow2;
    e := Shl(E - 1, f.mant) + RoundToInt(rm, neg, t);
    MagOf(f, E, RoundToInt(rm, neg, t));
  }

  /** The encodings on either side of `t` units of the binade `E`. */
  lemma BinadeNeighbours(f: Format, t: real, E: nat) returns (e0: nat)
    requires E >= 1 && 0.0 <= t < Pow2(f.mant + 1) as real
    requires E > 1 ==> Pow2(f.mant) as real <= t
    ensures e0 == Shl(E - 1, f.mant) + t.Floor && e0 % 2 == t.Floor % 2
    ensures IsProduct(Mag(f, e0) as real, t.Floor as real, Pow2(E - 1) as real)
    ensures Mag(f, e0 + 1) as real == Mag(f, e0) as real + Pow2(E - 1) as real
  {
    hide Mag, Shl, Pow2;
    var n := t.Floor;
    e0 := Shl(E - 1, f.mant) + n;
    MagOf(f, E, n);
    MagOf(f, E, n + 1);
    ShlSucc(n, E - 1);
    ShlReal(n, E - 1);
    ShlEven(E - 1, f.mant);
  }

  lemma NoTwoRoundings(f: Format, rm: RoundingMode, neg: bool, x: real, a: nat, b: nat)
    requires a < b && RoundedMag(f, rm, neg, x, a)
    ensures !RoundedMag(f, rm, neg, x, b)
  {
    hide Mag;
    MagSucc(f, a);
    MagSucc(f, b - 1);
    if a + 1 < b {
      MagMono(f, a, b - 1);
      MagMono(f, a + 1, b);
    }
  }

  lemma RoundedMagUnique(f: Format, rm: RoundingMode, neg: bool, x: real, a: nat, b: nat)
    requires RoundedMag(f, rm, neg, x, a) && RoundedMag(f, rm, neg, x, b)
    ensures a == b
  {
    if a < b { NoTwoRoundings(f, rm, neg, x, a, b); }
    if b < a { NoTwoRoundings(f, rm, neg, x, b, a); }
  }

  // ----- from rounded magnitudes to the words of section 4.3

  /** The word with sign `neg` and magnitude bits `e`. */
  function Encode(f: Format, neg: bool, e: nat): nat {
    (if neg then f.SignBit() else 0) + e
  }

  lemma InfEven(f: Format)
    ensures f.Inf() % 2 == 0 && f.SignBit() % 2 == 0
    ensures f.Inf() + Pow2(f.mant) == f.SignBit()
  {
    hide Shl;
    ShlEven(f.ExpMask(), f.mant);
    ShlSucc(f.ExpMask(), f.mant);
    ShlPow(f.exp, f.mant);
    ShlPow(f.exp, f.mant);
    assert f.exp + f.mant == f.mant + f.exp;
    Pow2Even(f.mant + f.exp);
  }

  lemma EncodeFields(f: Format, neg: bool, e: nat)
    requires e <= f.Inf()
    ensures var r := Encode(f, neg, e);
      f.Word(r) && f.MagBits(r) == e && f.Negative(r) == neg && r % 2 == e % 2
  {
    InfEven(f);
    hide FormatSizes.Inf, FormatSizes.SignBit;
    DivModUnique(Encode(f, neg, e), f.SignBit(), if neg then 1 else 0, e);
  }

  /** What is returned for the rounded magnitude `e`: past the largest finite number the mode decides. */
  function Saturated(f: Format, rm: RoundingMode, neg: bool, e: nat): nat {
    if e < f.Inf() then e
    else if rm == RTZ || (rm == RDN && !neg) || (rm == RUP && neg) then f.Inf() - 1
    else f.Inf()
  }

  lemma MagZero(f: Format)
    ensures Mag(f, 0) == 0
  {
    MagOf(f, 1, 0);
  }

  lemma Ordered(f: Format, e: nat, z: nat)
    ensures z <= e ==> Mag(f, z) <= Mag(f, e)
    ensures z < e ==> Mag(f, z) <= Mag(f, e - 1) < Mag(f, e)
    ensures e <= z ==> Mag(f, e) <= Mag(f, z)
    ensures e < z ==> Mag(f, e + 1) <= Mag(f, z)
  {
    if z < e { MagMono(f, z, e); MagSucc(f, e - 1); }
    if e < z { MagMono(f, e, z); }
    if z < e - 1 { MagMono(f, z, e - 1); }
    if e + 1 < z { MagMono(f, e + 1, z); }
  }

  /** Rounded towards zero, `e` gives the largest finite magnitude not above `x`. */
  lemma TowardFacts(f: Format, rm: RoundingMode, neg: bool, x: real, e: nat, z: nat)
    requires rm != RNE && rm != RMM && !Away(rm, neg) && RoundedMag(f, rm, neg, x, e)
    ensures var e' := Saturated(f, rm, neg, e);
      && e' < f.Inf() && Mag(f, e') as real <= x
      && (z < f.Inf() && Mag(f, z) as real <= x ==> Mag(f, z) <= Mag(f, e'))
  {
    var e' := Saturated(f, rm, neg, e);
    Ordered(f, e, e');
    Ordered(f, e, z);
    Ordered(f, e', z);
  }

  /** Rounded away from zero, `e` gives the least magnitude not below `x`, or infinity when no finite one is. */
  lemma AwayFacts(f: Format, rm: RoundingMode, neg: bool, x: real, e: nat, z: nat)
    requires Away(rm, neg) && RoundedMag(f, rm, neg, x, e)
    ensures var e' := Saturated(f, rm, neg, e);
      && (e < f.Inf() ==> e' == e)
      && (z < f.Inf() <= e ==> e' == f.Inf() && Mag(f, z) as real < x)
      && (x <= Mag(f, z) as real ==> Mag(f, e) <= Mag(f, z))
  {
    hide Mag, FormatSizes.Inf;
    Ordered(f, e, z);
  }

  lemma TowardIsCorrect(f: Format, rm: RoundingMode, x: real, neg: bool, e: nat, r: nat)
    requires rm != RNE && rm != RMM && !Away(rm, neg)
    requires (x > 0.0 ==> !neg) && (x < 0.0 ==> neg)
    requires RoundedMag(f, rm, neg, Abs(x), e)
    requires r == Encode(f, neg, Saturated(f, rm, neg, e))
    ensures CorrectlyRounded(f, rm, x, r)
  {
    var e' := Saturated(f, rm, neg, e);
    TowardFacts(f, rm, neg, Abs(x), e, 0);
    EncodeFields(f, neg, e');
    forall z | f.Finite(z)
      ensures Abs(Value(f, z)) <= Abs(x) ==> Abs(Value(f, z)) <= Abs(Value(f, r))
      ensures !neg && Value(f, z) <= x ==> Value(f, z) <= Value(f, r)
      ensures neg && x <= Value(f, z) ==> Value(f, r) <= Value(f, z)
    {
      TowardFacts(f, rm, neg, Abs(x), e, f.MagBits(z));
    }
  }

  lemma AwayIsCorrect(f: Format, rm: RoundingMode, x: real, neg: bool, e: nat, r: nat)
    requires Away(rm, neg)
    requires (x > 0.0 ==> !neg) && (x < 0.0 ==> neg)
    requires RoundedMag(f, rm, neg, Abs(x), e)
    requires r == Encode(f, neg, Saturated(f, rm, neg, e))
    ensures CorrectlyRounded(f, rm, x, r)
  {
    EncodeFields(f, neg, Saturated(f, rm, neg, e));
    forall z | f.Finite(z)
      ensures neg && e < f.Inf() && Value(f, z) <= x ==> Value(f, z) <= Value(f, r)
      ensures !neg && e < f.Inf() && x <= Value(f, z) ==> Value(f, r) <= Value(f, z)
      ensures neg && f.Inf() <= e ==> x < Value(f, z)
      ensures !neg && f.Inf() <= e ==> Value(f, z) < x
    {
      AwayFacts(f, rm, neg, Abs(x), e, f.MagBits(z));
    }
  }

  lemma NearestFacts(f: Format, rm: RoundingMode, neg: bool, x: real, e: nat, z: nat)
    requires (rm == RNE || rm == RMM) && x >= 0.0 && RoundedMag(f, rm, neg, x, e)
    ensures var d, d' := Abs(Mag(f, e) as real - x), Abs(Mag(f, z) as real - x);
      && d <= d' && d <= Mag(f, z) as real + x
      && (d == d' && z != e ==> if rm == RNE then e % 2 == 0 else z < e)
      && (d == Mag(f, z) as real + x ==> Mag(f, z) == 0 || x == 0.0)
  {
    hide Mag, FormatSizes.Inf;
    Ordered(f, e, z);
    Ordered(f, e, 0);
    MagZero(f);
    MagSucc(f, e);
    if e > 0 { MagSucc(f, e - 1); }
  }

  lemma NearestOverflow(f: Format, rm: RoundingMode, neg: bool, x: real, e: nat)
    requires (rm == RNE || rm == RMM) && RoundedMag(f, rm, neg, x, e)
    ensures f.Inf() <= e <==> OverflowThreshold(f) <= 2.0 * x
  {
    InfEven(f);
    hide Mag, FormatSizes.Inf;
    if e < f.Inf() {
      Ordered(f, f.Inf() - 1, e);
      Ordered(f, f.Inf(), e + 1);
    } else {
      Ordered(f, e - 1, f.Inf() - 1);
      Ordered(f, e, f.Inf());
    }
  }

  lemma NearestBeats(f: Format, rm: RoundingMode, x: real, neg: bool, e: nat, r: nat, z: nat)
    requires rm == RNE || rm == RMM
    requires (x > 0.0 ==> !neg) && (x < 0.0 ==> neg)
    requires RoundedMag(f, rm, neg, Abs(x), e)
    requires f.MagBits(r) == e && f.Negative(r) == neg && r % 2 == e % 2
    ensures NoCloser(f, rm, x, r, z)
  {
    hide Mag, RoundedMag, FormatSizes.MagBits, FormatSizes.Negative;
    var Z := f.MagBits(z);
    NearestFacts(f, rm, neg, Abs(x), e, Z);
    NearestFacts(f, rm, neg, Abs(x), e, 0);
    MagZero(f);
    Ordered(f, e, Z);
    var d := Abs(Mag(f, e) as real - Abs(x));
    assert Abs(Value(f, r) - x) == d;
    if f.Negative(z) == neg {
      assert Abs(Value(f, z) - x) == Abs(Mag(f, Z) as real - Abs(x));
    } else {
      assert Abs(Value(f, z) - x) == Mag(f, Z) as real + Abs(x);
    }
  }

  lemma NearestIsCorrect(f: Format, rm: RoundingMode, x: real, neg: bool, e: nat, r: nat)
    requires rm == RNE || rm == RMM
    requires (x > 0.0 ==> !neg) && (x < 0.0 ==> neg)
    requires RoundedMag(f, rm, neg, Abs(x), e)
    requires r == Encode(f, neg, Saturated(f, rm, neg, e))
    ensures CorrectlyRounded(f, rm, x, r)
  {
    EncodeFields(f, neg, Saturated(f, rm, neg, e));
    NearestOverflow(f, rm, neg, Abs(x), e);
    hide Mag, FormatSizes.Inf, FormatSizes.SignBit, OverflowThreshold, RoundedMag, NoCloser;
    if e < f.Inf() {
      forall z | f.Finite(z) ensures NoCloser(f, rm, x, r, z) {
        NearestBeats(f, rm, x, neg, e, r, z);
      }
    }
  }

  /** Section 4.3 for every mode. */
  lemma RoundedMagIsCorrect(f: Format, rm: RoundingMode, x: real, neg: bool, e: nat, r: nat)
    requires x > 0.0 ==> !neg
    requires x < 0.0 ==> neg
    requires RoundedMag(f, rm, neg, Abs(x), e)
    requires r == Encode(f, neg, Saturated(f, rm, neg, e))
    ensures CorrectlyRounded(f, rm, x, r) && f.Negative(r) == neg
    ensures Exact(f, x, r) <==> e < f.Inf() && Mag(f, e) as real == Abs(x)
    ensures Overflows(f, rm, neg, Abs(x)) <==> f.Inf() <= e
  {
    hide Mag, FormatSizes.Inf, CorrectlyRounded;
    if rm == RNE || rm == RMM {
      NearestIsCorrect(f, rm, x, neg, e, r);
    } else if Away(rm, neg) {
      AwayIsCorrect(f, rm, x, neg, e, r);
    } else {
      TowardIsCorrect(f, rm, x, neg, e, r);
    }
    var e' := Saturated(f, rm, neg, e);
    EncodeFields(f, neg, e');
    if f.Inf() <= e && e' < f.Inf() { TowardFacts(f, rm, neg, Abs(x), e, 0); Ordered(f, e, e'); }
    forall k | RoundedMag(f, rm, neg, Abs(x), k) ensures k == e {
      RoundedMagUnique(f, rm, neg, Abs(x), e, k);
    }
  }

  // ----- tininess

  lemma RoundToIntBounds(rm: RoundingMode, neg: bool, t: real, lo: int, hi: int)
    requires lo as real <= t < hi as real
    ensures lo <= RoundToInt(rm, neg, t) <= hi
  {
  }

  lemma BinadeUnique(f: Format, x: real, e: int, t: real, e': int, t': real)
    requires IsProduct(x, t, P2(e)) && Pow2(f.mant) as real <= t < Pow2(f.mant + 1) as real
    requires IsProduct(x, t', P2(e')) && Pow2(f.mant) as real <= t' < Pow2(f.mant + 1) as real
    ensures e == e' && t == t'
  {
    hide IsProduct, P2, Pow2;
    HigherBinade(f, x, e, t, e', t');
    HigherBinade(f, x, e', t', e, t);
    ProductOrder(x, t, x, t', P2(e));
  }

  lemma HigherBinade(f: Format, x: real, e: int, t: real, e': int, t': real)
    requires IsProduct(x, t, P2(e)) && t < Pow2(f.mant + 1) as real
    requires IsProduct(x, t', P2(e')) && Pow2(f.mant) as real <= t'
    ensures e' <= e
  {
    if e < e' {
      var s := P2(e' - e);
      P2Product(e' - e, e);
      P2AtLeastTwo(e' - e);
      Pow2Double(f.mant);
      hide Pow2, P2, IsProduct;
      assert e' - e + e == e';
      ProductAssoc(x, t', P2(e'), s, P2(e));
      ProductOrder(x, t, x, t' * s, P2(e));
      MulMonotone(t', 2.0, s);
    }
  }

  lemma {:induction false} P2AtLeastTwo(n: int)
    requires n >= 1
    ensures P2(n) >= 2.0
  {
    if n > 1 { P2AtLeastTwo(n - 1); }
  }

  lemma {:induction false} P2AtMostQuarter(n: int)
    requires n <= -2
    ensures P2(n) <= 0.25
    decreases -n
  {
    if n < -2 { P2AtMostQuarter(n + 1); }
  }

  lemma UnboundedUnique(f: Format, rm: RoundingMode, neg: bool, x: real,
                        e: int, t: real, y: real, e': int, t': real, y': real)
    requires RoundedUnbounded(f, rm, neg, x, e, t, y) && RoundedUnbounded(f, rm, neg, x, e', t', y')
    ensures y == y'
  {
    hide IsProduct, P2, Pow2, RoundToInt;
    BinadeUnique(f, x, e, t, e', t');
    ProductFunctional(y, y', RoundToInt(rm, neg, t) as real, P2(e));
  }

  lemma TinyMeans(f: Format, rm: RoundingMode, neg: bool, x: real, e: int, t: real, y: real)
    requires RoundedUnbounded(f, rm, neg, x, e, t, y)
    ensures Tiny(f, rm, neg, x) <==> y < Pow2(f.mant) as real
  {
    hide RoundedUnbounded, Pow2;
    forall e': int, t': real, y': real | RoundedUnbounded(f, rm, neg, x, e', t', y') ensures y' == y {
      UnboundedUnique(f, rm, neg, x, e, t, y, e', t', y');
    }
  }

  /** Tininess read off a normalized magnitude `t` * 2^`e`. */
  lemma TinyIff(f: Format, rm: RoundingMode, neg: bool, x: real, e: int, t: real)
    requires IsProduct(x, t, P2(e)) && Pow2(f.mant) as real <= t < Pow2(f.mant + 1) as real
    ensures Tiny(f, rm, neg, x) <==> e < -1 || (e == -1 && RoundToInt(rm, neg, t) < Pow2(f.mant + 1))
  {
    hide RoundToInt, P2, Pow2;
    var n := RoundToInt(rm, neg, t);
    RoundToIntBounds(rm, neg, t, Pow2(f.mant), Pow2(f.mant + 1));
    var y := n as real * P2(e);
    assert IsProduct(y, n as real, P2(e));
    TinyMeans(f, rm, neg, x, e, t, y);
    Pow2Double(f.mant);
    hide IsProduct;
    UnboundedSize(n, Pow2(f.mant), e, y);
  }

  lemma UnboundedSize(n: nat, b: nat, e: int, y: real)
    requires 0 < b <= n <= 2 * b && IsProduct(y, n as real, P2(e))
    ensures y < b as real <==> e < -1 || (e == -1 && n < 2 * b)
  {
    hide IsProduct;
    P2Range(e);
    hide P2;
    if e >= 0 {
      ScaledUp(y, n as real, P2(e));
    } else if e == -1 {
      Halved(y, n as real, P2(e));
    } else {
      ScaledDown(y, n as real, P2(e));
    }
  }

  lemma P2Range(e: int)
    ensures e >= 0 ==> P2(e) >= 1.0
    ensures e == -1 ==> P2(e) == 0.5
    ensures e < -1 ==> P2(e) <= 0.25
  {
    if e >= 1 { P2AtLeastTwo(e); }
    if e <= -2 { P2AtMostQuarter(e); }
  }

  lemma ScaledUp(y: real, a: real, u: real)
    requires a >= 0.0 && u >= 1.0 && IsProduct(y, a, u)
    ensures y >= a
  {
    MulMonotone(a, 1.0, u);
  }

  lemma Halved(y: real, a: real, u: real)
    requires u == 0.5 && IsProduct(y, a, u)
    ensures y == a / 2.0
  {
  }

  lemma ScaledDown(y: real, a: real, u: real)
    requires a >= 0.0 && u <= 0.25 && IsProduct(y, a, u)
    ensures y <= a / 4.0
  {
    MulMonotone(a, u, 0.25);
  }
}
