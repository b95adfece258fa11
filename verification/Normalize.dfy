/** Unpacking finite operands and normalizing exact or jammed mantissas before packing
    (softfp_template.h: unpack_sf, normalize_subnormal_sf, normalize_sf, normalize2_sf). */
module Normalize {
  import opened Powers
  import opened IeeeFormat
  import opened Rounding
  import opened Jamming
  import opened RoundPack

  // ----- fields

  function ExpField(f: Format, a: nat): nat {
    (a / Pow2(f.mant)) % Pow2(f.exp)
  }

  function MantField(f: Format, a: nat): nat {
    a % Pow2(f.mant)
  }

  lemma FieldsOf(f: Format, a: nat)
    requires f.Word(a)
    ensures ExpField(f, a) < Pow2(f.exp) && MantField(f, a) < Pow2(f.mant)
    ensures f.MagBits(a) == Shl(ExpField(f, a), f.mant) + MantField(f, a)
    ensures f.Finite(a) <==> ExpField(f, a) != f.ExpMask()
    ensures f.MagBits(a) == f.Inf() <==> ExpField(f, a) == f.ExpMask() && MantField(f, a) == 0
    ensures f.Negative(a) || a == f.MagBits(a)
  {
    var p, x, s := Pow2(f.mant), Pow2(f.exp), f.SignBit();
    var hi, M := a / p, a % p;
    var S, E := hi / x, hi % x;
    ShlPow(f.exp, f.mant);
    assert f.exp + f.mant == f.mant + f.exp;
    SplitWord(f, a, hi, M, S, E);
    hide Shl, Pow2;
    ShlSucc(E, f.mant);
    ShlSucc(f.ExpMask(), f.mant);
    ShlMono(E + 1, f.ExpMask(), f.mant);
    ShlMono(f.ExpMask(), E, f.mant);
    ShlMono(E + 1, x, f.mant);
    SignOf(a, s, S, Shl(E, f.mant) + M);
  }

  lemma SignOf(a: nat, s: nat, S: nat, m: nat)
    requires a == Times(S, s) + m && m < s && a < 2 * s
    ensures a / s == S && a % s == m && (S == 0 || S == 1)
  {
    DivModUnique(a, s, S, m);
    if S >= 2 { TimesMono(2, S, s); }
  }

  lemma SplitWord(f: Format, a: nat, hi: nat, M: nat, S: nat, E: nat)
    requires hi == a / Pow2(f.mant) && M == a % Pow2(f.mant) && S == hi / Pow2(f.exp) && E == hi % Pow2(f.exp)
    ensures a == Times(S, Shl(Pow2(f.exp), f.mant)) + (Shl(E, f.mant) + M)
  {
    var p, x := Pow2(f.mant), Pow2(f.exp);
    hide Pow2;
    assert a == hi * p + M && hi == S * x + E;
    assert (S * x + E) * p == S * (x * p) + E * p;
  }

  /** A finite magnitude read off its fields. */
  lemma MagOfFields(f: Format, a: nat)
    requires f.Finite(a)
    ensures Mag(f, f.MagBits(a)) == if ExpField(f, a) == 0 then MantField(f, a)
                                    else Shl(Pow2(f.mant) + MantField(f, a), ExpField(f, a) - 1)
  {
    FieldsOf(f, a);
    DivModUnique(f.MagBits(a), Pow2(f.mant), ExpField(f, a), MantField(f, a));
  }

  // ----- leading zeros

  function BitLen(a: nat): nat {
    if a == 0 then 0 else 1 + BitLen(a / 2)
  }

  /** The count of leading zeros of a word of `size` bits; `size` for zero, as in softfp.c. */
  function Clz(size: nat, a: nat): int {
    size - BitLen(a)
  }

  lemma {:induction false} BitLenBounds(a: nat)
    requires a > 0
    ensures BitLen(a) >= 1 && Pow2(BitLen(a) - 1) <= a < Pow2(BitLen(a))
  {
    if a > 1 { BitLenBounds(a / 2); }
  }

  lemma BitLenAtMost(a: nat, n: nat)
    requires a < Pow2(n)
    ensures BitLen(a) <= n
  {
    if a > 0 {
      BitLenBounds(a);
      var l := BitLen(a) - 1;
      if n <= l { Pow2Mono(n, l); }
    }
  }

  lemma BitLenAtLeast(a: nat, n: nat)
    requires Pow2(n) <= a
    ensures BitLen(a) > n
  {
    BitLenBounds(a);
    if BitLen(a) <= n { Pow2Mono(BitLen(a), n); }
  }

  /** Shifting the leading bit of a nonzero `a` up to bit `top`. */
  lemma LeadingBitTo(a: nat, top: nat)
    requires 0 < a < Pow2(top + 1)
    ensures BitLen(a) <= top + 1
    ensures Pow2(top) <= Shl(a, top + 1 - BitLen(a)) < Pow2(top + 1)
  {
    BitLenAtMost(a, top + 1);
    BitLenBounds(a);
    var l := BitLen(a);
    var s := top + 1 - l;
    ShlPow(l - 1, s);
    ShlPow(l, s);
    ShlMono(Pow2(l - 1), a, s);
    ShlMono(a, Pow2(l), s);
  }

  // ----- unpacking

  /** The sign, exponent and mantissa with the leading bit at MANT_SIZE of a finite nonzero operand; a subnormal
      one is normalized (normalize_subnormal_sf). */
  method UnpackNormal(f: Format, a: nat) returns (exp: int, mant: nat)
    requires f.Finite(a) && f.MagBits(a) != 0
    ensures Pow2(f.mant) <= mant < Pow2(f.mant + 1)
    ensures 1 - f.mant <= exp < f.ExpMask()
    ensures IsProduct(Mag(f, f.MagBits(a)) as real, mant as real, P2(exp - 1))
  {
    FieldsOf(f, a);
    MagOfFields(f, a);
    exp, mant := ExpField(f, a), MantField(f, a);
    if exp == 0 {
      assert Shl(0, f.mant) == 0;
      var shift := f.mant - (f.Size() - 1 - Clz(f.Size(), mant));
      LeadingBitTo(mant, f.mant);
      BitLenBounds(mant);
      Pow2AtLeast(f.exp);
      exp := 1 - shift;
      ShiftedMantissa(mant, shift);
      mant := Shl(mant, shift);
    } else {
      mant := mant + Pow2(f.mant);
      ShlReal(mant, exp - 1);
      P2Nat(exp - 1);
    }
  }

  lemma ShiftedMantissa(m: nat, s: nat)
    ensures IsProduct(m as real, Shl(m, s) as real, P2(-(s as int)))
  {
    ShlReal(m, s);
    P2Nat(s);
    ScaleBack(m as real, Shl(m, s) as real, s);
  }

  // ----- normalize_sf

  /** `mant` is exact for `y`, or agrees with it on a grid fine enough to shift left by `k` bits before rounding. */
  ghost predicate StandsFor(f: Format, k: nat, mant: nat, y: real) {
    || mant as real == y
    || (k + 2 <= f.exp && Pow2(f.mant + f.exp - 1 - k) <= mant && SameCell(Pow2(f.exp - 2 - k), mant, y))
  }

  lemma ShiftStandsFor(f: Format, k: nat, mant: nat, y: real, s: nat, y': real)
    requires StandsFor(f, k, mant, y) && IsProduct(y', y, P2(s))
    requires 0 < mant && Shl(mant, s) < Pow2(f.mant + f.exp)
    ensures SameCell(Pow2(f.exp - 2), Shl(mant, s), y')
  {
    P2Nat(s);
    var c := Pow2(s);
    assert Shl(mant, s) == Times(c, mant);
    if mant as real == y {
      ShlReal(mant, s);
      ProductFunctional(y', Shl(mant, s) as real, y, c as real);
      SameCellExact(Pow2(f.exp - 2), Shl(mant, s));
    } else {
      var q := Pow2(f.exp - 2 - k);
      ShiftAtMost(f, k, mant, s);
      SameCellScaled(q, c, mant, y, y');
      Pow2Split(f.exp - 2, k - s);
      Pow2Add(s, f.exp - 2 - k);
      Pow2Add(k - s, f.exp - 2 - k + s);
      SameCellCoarser(Times(c, q), Pow2(k - s), Times(c, mant), y');
    }
  }

  lemma ShiftAtMost(f: Format, k: nat, mant: nat, s: nat)
    requires k + 2 <= f.exp && Pow2(f.mant + f.exp - 1 - k) <= mant && Shl(mant, s) < Pow2(f.mant + f.exp)
    ensures s <= k
  {
    if s > k {
      var t := f.mant + f.exp - 1 - k;
      ShlMono(Pow2(t), mant, s);
      ShlPow(t, s);
      Pow2Mono(f.mant + f.exp, t + s);
    }
  }

  /** Reads, for a mantissa still to be normalized. */
  ghost predicate ReadsUpTo(f: Format, k: nat, exp: int, mant: nat, y: real, x: real) {
    StandsFor(f, k, mant, y) && IsProduct(x, y, P2(exp - f.exp))
  }

  /** normalize_sf: `mant0` has at most F_SIZE - 1 bits. The outcome is the one for every exact magnitude that it stands
      for. */
  method NormalizeSf(f: Format, neg: bool, exp0: int, mant0: nat, rm: RoundingMode, before: Flags)
    returns (r: nat, after: Flags)
    requires mant0 < Pow2(f.mant + f.exp)
    ensures forall k: nat, y: real, x: real :: ReadsUpTo(f, k, exp0, mant0, y, x) ==>
      Delivers(f, rm, Signed(neg, x), neg, before, r, after)
  {
    hide Delivers, Pow2, Reads, ReadsUpTo, Signed;
    var shift := Clz(f.Size(), mant0) - 1;
    BitLenAtMost(mant0, f.mant + f.exp);
    if mant0 != 0 {
      LeadingBitTo(mant0, f.mant + f.exp - 1);
    } else {
      ShlOne(shift);
    }
    var exp, mant := exp0 - shift, Shl(mant0, shift);
    r, after := RoundPackSf(f, neg, exp, mant, rm, before);
    forall k: nat, y: real, x: real | ReadsUpTo(f, k, exp0, mant0, y, x)
      ensures Delivers(f, rm, Signed(neg, x), neg, before, r, after)
    {
      var y' := ShiftedReading(f, k, mant0, y, x, exp0, shift);
      assert Reads(f, exp, mant, y', x);
    }
  }

  lemma ShiftedReading(f: Format, k: nat, mant0: nat, y: real, x: real, exp0: int, shift: nat) returns (y': real)
    requires ReadsUpTo(f, k, exp0, mant0, y, x) && Shl(mant0, shift) < Pow2(f.mant + f.exp)
    ensures Reads(f, exp0 - shift, Shl(mant0, shift), y', x)
  {
    y' := y * P2(shift);
    assert IsProduct(y', y, P2(shift));
    hide IsProduct, P2, Pow2;
    ScaleSplit(y, y', x, shift, exp0 - f.exp);
    assert exp0 - shift - f.exp == exp0 - f.exp - shift;
    if mant0 == 0 {
      ZeroStands(f, k, y, y', shift);
    } else {
      ShiftStandsFor(f, k, mant0, y, shift, y');
    }
  }

  lemma ZeroStands(f: Format, k: nat, y: real, y': real, s: nat)
    requires StandsFor(f, k, 0, y) && IsProduct(y', y, P2(s))
    ensures Shl(0, s) == 0 && SameCell(Pow2(f.exp - 2), 0, y')
  {
  }
}
