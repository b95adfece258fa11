/** Packing a normalized mantissa with rounding (softfp_template.h: rshift_rnd, round_pack_sf,
    normalize_sf, normalize2_sf). Words are naturals; sizes stay symbolic. */
module RoundPack {
  import opened Powers
  import opened IeeeFormat
  import opened Rounding
  import opened Jamming

  /** What is added below the last place before the low bits are dropped; `half` is half a unit. */
  function Addend(rm: RoundingMode, neg: bool, half: nat): int {
    match rm
    case RNE => half
    case RMM => half
    case RTZ => 0
    case RDN => if neg then 2 * half - 1 else 0
    case RUP => if neg then 0 else 2 * half - 1
  }

  lemma AddendRange(rm: RoundingMode, neg: bool, half: nat)
    requires half > 0
    ensures 0 <= Addend(rm, neg, half) < 2 * half
  {
  }

  /** Adding, dropping and the fix for ties round the exact value `t` that the jammed `m` stands for. */
  lemma DropBits(rm: RoundingMode, neg: bool, m: nat, half: nat, y: real, t: real)
    requires half > 0 && SameCell(half, m, y) && IsProduct(y, t, (2 * half) as real)
    ensures m % (2 * half) == 0 <==> t == t.Floor as real
    ensures var n := (m + Addend(rm, neg, half)) / (2 * half);
      && n >= 0
      && RoundToInt(rm, neg, t) == if rm == RNE && m % (2 * half) == half then n - n % 2 else n
  {
    hide SameCell, IsProduct, RoundToInt, Addend;
    AddendRange(rm, neg, half);
    var k, r := Divide(m, 2 * half);
    HalfPlaces(m, k, r, half, y, t);
    AddAndDrop(m, k, r, 2 * half, Addend(rm, neg, half));
    RoundPlaces(rm, neg, k, r, half, t);
  }

  lemma Divide(m: nat, unit: nat) returns (k: nat, r: nat)
    requires unit > 0
    ensures k == m / unit && r == m % unit && r < unit && m == Times(k, unit) + r
  {
    k, r := m / unit, m % unit;
  }

  lemma RoundPlaces(rm: RoundingMode, neg: bool, k: nat, r: nat, half: nat, t: real)
    requires half > 0 && r < 2 * half && t.Floor == k
    requires t == k as real <==> r == 0
    requires t < k as real + 0.5 <==> r < half
    requires t == k as real + 0.5 <==> r == half
    ensures var n := if r + Addend(rm, neg, half) < 2 * half then k else k + 1;
      RoundToInt(rm, neg, t) == if rm == RNE && r == half then n - n % 2 else n
  {
  }

  lemma AddAndDrop(m: nat, k: nat, r: nat, unit: nat, addend: int)
    requires m == Times(k, unit) + r && r < unit && 0 <= addend < unit
    ensures (m + addend) / unit == if r + addend < unit then k else k + 1
  {
    if r + addend < unit {
      DivModUnique(m + addend, unit, k, r + addend);
    } else {
      assert (k + 1) * unit == k * unit + unit;
      DivModUnique(m + addend, unit, k + 1, r + addend - unit);
    }
  }

  /** Where `t` lies between the whole number `k`, the half above it, and `k` + 1. */
  lemma HalfPlaces(m: nat, k: nat, r: nat, half: nat, y: real, t: real)
    requires half > 0 && SameCell(half, m, y) && IsProduct(y, t, (2 * half) as real)
    requires m == Times(k, 2 * half) + r && r < 2 * half
    ensures t.Floor == k
    ensures t == k as real <==> r == 0
    ensures t < k as real + 0.5 <==> r < half
    ensures t == k as real + 0.5 <==> r == half
  {
    var q := (2 * half) as real;
    var a, b, c := Times(2 * k, half), Times(2 * k + 1, half), Times(2 * k + 2, half);
    assert a == k * (2 * half) && b == a + half && c == a + 2 * half;
    assert SameSide(a, m, y) && SameSide(b, m, y) && SameSide(c, m, y);
    assert IsProduct(a as real, k as real, q);
    ProductAdd(a as real, k as real, half as real, 0.5, q);
    ProductAdd(a as real, k as real, q, 1.0, q);
    hide IsProduct, SameCell, Times;
    ProductOrder(a as real, k as real, y, t, q);
    ProductOrder(y, t, b as real, k as real + 0.5, q);
    ProductOrder(y, t, c as real, k as real + 1.0, q);
  }

  // ----- round_pack_sf

  /** Fields to word (pack_sf); the mantissa is masked. */
  function Pack(f: Format, neg: bool, exp: nat, mant: nat): nat {
    (if neg then f.SignBit() else 0) + Shl(exp, f.mant) + mant % Pow2(f.mant)
  }

  /** Right shift with the lost bits jammed into bit 0 (rshift_rnd). */
  function RshiftRnd(f: Format, a: nat, d: nat): nat {
    if d == 0 then a
    else if d >= f.Size() then (if a != 0 then 1 else 0)
    else JamShift(a, d)
  }

  lemma RshiftIsJam(f: Format, a: nat, d: nat)
    requires a < Pow2(f.Size())
    ensures RshiftRnd(f, a, d) == JamShift(a, d)
  {
    if d >= f.Size() {
      Pow2Mono(f.Size(), d);
      DivModUnique(a, Pow2(d), 0, a);
    }
  }

  lemma RshiftKeepsCell(f: Format, q: nat, a: nat, d: nat, y: real, y': real)
    requires a < Pow2(f.Size()) && q % 2 == 0 && SameCell(q, a, y) && IsProduct(y', y, P2(-(d as int)))
    ensures SameCell(q, RshiftRnd(f, a, d), y')
  {
    RshiftIsJam(f, a, d);
    P2Nat(d);
    P2Product(-(d as int), d);
    hide P2, Pow2, RshiftRnd;
    ProductAssocLeft(y', y, P2(-(d as int)), P2(d));
    SameCellCoarser(q, Pow2(d), a, y);
    JamKeepsCell(q, Pow2(d), a, y, y');
  }

  /** Undoing a division by a power of two. */
  lemma ProductAssocLeft(y': real, y: real, u: real, v: real)
    requires IsProduct(y', y, u) && IsProduct(1.0, u, v)
    ensures IsProduct(y, y', v)
  {
    RealAssoc(y, u, v);
  }

  lemma NormalizedRange(f: Format, m: nat, y: real)
    requires SameCell(Pow2(f.exp - 2), m, y)
    requires Pow2(f.mant + f.exp - 1) <= m < Pow2(f.mant + f.exp)
    ensures Pow2(f.mant + f.exp - 1) as real <= y < Pow2(f.mant + f.exp) as real
  {
    var q := Pow2(f.exp - 2);
    Pow2Add(f.mant + 1, f.exp - 2);
    Pow2Add(f.mant + 2, f.exp - 2);
    assert SameSide(Times(Pow2(f.mant + 1), q), m, y);
    assert SameSide(Times(Pow2(f.mant + 2), q), m, y);
  }

  /** The exponent field after a carry out of the rounded mantissa. */
  function CarriedExp(f: Format, E: nat, n: nat): nat {
    E + n / Pow2(f.mant + 1)
  }

  ghost predicate Saturates(f: Format, E: nat, n: nat) {
    n >= Pow2(f.mant) && CarriedExp(f, E, n) >= f.ExpMask()
  }

  /** The word round_pack_sf ends with, from the rounded mantissa `n` in the binade `E`. */
  ghost function Packed(f: Format, rm: RoundingMode, neg: bool, E: nat, n: nat): nat {
    if n < Pow2(f.mant) then Pack(f, neg, 0, n)
    else if !Saturates(f, E, n) then Pack(f, neg, CarriedExp(f, E, n), n)
    else if Addend(rm, neg, Pow2(f.exp - 2)) == 0 then Pack(f, neg, Pow2(f.exp) - 2, Pow2(f.mant) - 1)
    else Pack(f, neg, f.ExpMask(), 0)
  }

  /** The fields chosen after rounding spell the encoding Shl(E - 1, MANT_SIZE) + n, saturated. */
  lemma PackFields(f: Format, rm: RoundingMode, neg: bool, E: nat, n: nat)
    requires E >= 1 && n <= Pow2(f.mant + 1) && (E > 1 ==> Pow2(f.mant) <= n)
    ensures var e := Shl(E - 1, f.mant) + n;
      && (e >= f.Inf() <==> Saturates(f, E, n))
      && Packed(f, rm, neg, E, n) == Encode(f, neg, Saturated(f, rm, neg, e))
  {
    var e := Shl(E - 1, f.mant) + n;
    FieldBounds(f, E, n);
    if n < Pow2(f.mant) {
      PackIs(f, neg, 0, n, n);
    } else if !Saturates(f, E, n) {
      CarriedFields(f, neg, E, n);
    } else if Addend(rm, neg, Pow2(f.exp - 2)) == 0 {
      LargestFinite(f, neg);
    } else {
      PackIs(f, neg, f.ExpMask(), 0, 0);
    }
  }

  lemma PackIs(f: Format, neg: bool, exp: nat, mant: nat, rest: nat)
    requires mant < Pow2(f.mant) && rest == mant
    ensures Pack(f, neg, exp, mant) == Encode(f, neg, Shl(exp, f.mant) + rest)
    ensures Shl(0, f.mant) == 0
  {
    hide Pow2;
    DivModUnique(mant, Pow2(f.mant), 0, mant);
  }

  lemma LargestFinite(f: Format, neg: bool)
    ensures Pow2(f.exp) >= 32
    ensures Pack(f, neg, Pow2(f.exp) - 2, Pow2(f.mant) - 1) == Encode(f, neg, f.Inf() - 1)
  {
    Pow2Mono(5, f.exp);
    var M := Pow2(f.exp) - 1;
    hide Pow2;
    PackIs(f, neg, M - 1, Pow2(f.mant) - 1, Pow2(f.mant) - 1);
    ShlSucc(M - 1, f.mant);
  }

  /** The rounded mantissa carries into the exponent when it reaches the next binade. */
  lemma CarriedFields(f: Format, neg: bool, E: nat, n: nat)
    requires E >= 1 && Pow2(f.mant) <= n <= Pow2(f.mant + 1)
    ensures CarriedExp(f, E, n) == if n == Pow2(f.mant + 1) then E + 1 else E
    ensures Pack(f, neg, CarriedExp(f, E, n), n) == Encode(f, neg, Shl(E - 1, f.mant) + n)
  {
    var p := Pow2(f.mant);
    Pow2Double(f.mant);
    hide Pow2, Shl;
    ShlSucc(E - 1, f.mant);
    ShlSucc(E, f.mant);
    if n < 2 * p {
      DivModUnique(n, p, 1, n - p);
      DivModUnique(n, 2 * p, 0, n);
    } else {
      DivModUnique(n, p, 2, 0);
      DivModUnique(n, 2 * p, 1, 0);
    }
  }

  lemma FieldBounds(f: Format, E: nat, n: nat)
    requires E >= 1 && n <= Pow2(f.mant + 1) && (E > 1 ==> Pow2(f.mant) <= n)
    ensures Shl(E - 1, f.mant) + n >= f.Inf() <==> Saturates(f, E, n)
  {
    Pow2Mono(5, f.exp);
    Pow2Double(f.mant);
    var M := f.ExpMask();
    hide Pow2, Shl, FormatSizes.ExpMask;
    ShlSucc(E - 1, f.mant);
    ShlSucc(E, f.mant);
    ShlMono(E, M, f.mant);
    ShlMono(E + 1, M, f.mant);
    ShlMono(1, M, f.mant);
    ShlOne(f.mant);
    if Pow2(f.mant) <= n {
      CarriedFields(f, false, E, n);
    }
  }

  lemma Pow2AtLeast(n: nat)
    requires n >= 2
    ensures Pow2(n) >= 4
  {
    Pow2Mono(2, n);
  }

  /** Signs and magnitudes. */
  lemma SignedAbs(neg: bool, x: real)
    requires x >= 0.0
    ensures Abs(Signed(neg, x)) == x
    ensures Signed(neg, x) == 0.0 <==> x == 0.0
    ensures Signed(neg, x) < 0.0 <==> neg && x > 0.0
  {
  }

  /** Rounding `t` units of the binade `E` and packing delivers the rounded result. */
  lemma PackedIsDelivered(f: Format, rm: RoundingMode, neg: bool, E: nat, x: real, t: real, r: nat)
    requires E >= 1 && IsProduct(x, t, Pow2(E - 1) as real) && x >= 0.0
    requires 0.0 <= t < Pow2(f.mant + 1) as real
    requires E > 1 ==> Pow2(f.mant) as real <= t
    ensures 0 <= RoundToInt(rm, neg, t) <= Pow2(f.mant + 1)
    ensures E > 1 ==> Pow2(f.mant) <= RoundToInt(rm, neg, t)
    ensures var e := Shl(E - 1, f.mant) + RoundToInt(rm, neg, t);
      r == Encode(f, neg, Saturated(f, rm, neg, e)) ==>
        && CorrectlyRounded(f, rm, Signed(neg, x), r)
        && f.Negative(r) == neg
        && (Exact(f, Signed(neg, x), r) <==> e < f.Inf() && t == t.Floor as real)
        && (Overflows(f, rm, neg, x) <==> e >= f.Inf())
  {
    var e := RoundToIntRounds(f, rm, neg, x, t, E);
    SignedAbs(neg, x);
    if r == Encode(f, neg, Saturated(f, rm, neg, e)) {
      RoundedMagIsCorrect(f, rm, Signed(neg, x), neg, e, r);
    }
  }

  lemma UnitsBelowRadix(f: Format, y: real, t: real)
    requires IsProduct(t, y, P2(1 - f.exp))
    ensures IsProduct(y, t, Pow2(f.exp - 1) as real)
    ensures y < Pow2(f.mant + f.exp) as real <==> t < Pow2(f.mant + 1) as real
    ensures Pow2(f.mant + f.exp - 1) as real <= y <==> Pow2(f.mant) as real <= t
    ensures y >= 0.0 <==> t >= 0.0
  {
    var q := Pow2(f.exp - 1);
    P2Nat(f.exp - 1);
    P2Product(1 - f.exp, f.exp - 1);
    ProductAssocLeft(t, y, P2(1 - f.exp), P2(f.exp - 1));
    Pow2Add(f.mant + 1, f.exp - 1);
    Pow2Add(f.mant, f.exp - 1);
    ProductOrder(y, t, Pow2(f.mant + f.exp) as real, Pow2(f.mant + 1) as real, q as real);
    ProductOrder(y, t, Pow2(f.mant + f.exp - 1) as real, Pow2(f.mant) as real, q as real);
    ProductOrder(y, t, 0.0, 0.0, q as real);
  }

  /** The exact value `y` * 2^(exp - EXP_SIZE) in the three readings the proof needs: as whole and part units of the
      binade `E` after the subnormal shift `d`, and normalized. */
  lemma Readings(f: Format, exp: int, y: real, d: nat, E: nat, y1: real, t: real, x: real, t0: real)
    requires IsProduct(x, y, P2(exp - f.exp)) && IsProduct(y1, y, P2(-(d as int)))
    requires IsProduct(t, y1, P2(1 - f.exp)) && IsProduct(t0, y, P2(1 - f.exp))
    requires E >= 1 && exp + d == E
    ensures IsProduct(x, t, Pow2(E - 1) as real)
    ensures IsProduct(y1, t, Pow2(f.exp - 1) as real)
    ensures IsProduct(x, t0, P2(exp - 1))
  {
    hide IsProduct;
    P2Nat(E - 1);
    P2Nat(f.exp - 1);
    hide P2;
    ScaleChain(y, y1, t, -(d as int), 1 - f.exp);
    ScaleSplit(y, t, x, -(d as int) + (1 - f.exp), exp - f.exp);
    ScaleSplit(y, t0, x, 1 - f.exp, exp - f.exp);
    ScaleBack(y1, t, 1 - f.exp);
    assert -(1 - f.exp) == f.exp - 1;
    assert exp - f.exp - (-(d as int) + (1 - f.exp)) == E - 1;
    assert exp - f.exp - (1 - f.exp) == exp - 1;
  }

  /** The RND_SIZE low bits, which rounding drops. */
  function RndBits(f: Format, m: nat): nat {
    m % Pow2(f.exp - 1)
  }

  /** The mantissa after the low bits are dropped, as round_pack_sf computes it. */
  ghost function Dropped(f: Format, rm: RoundingMode, neg: bool, m: nat): nat {
    var half := Pow2(f.exp - 2);
    var n := (m + AddendNat(rm, neg, half)) / (2 * half);
    if rm == RNE && m % (2 * half) == half then n - n % 2 else n
  }

  ghost function AddendNat(rm: RoundingMode, neg: bool, half: nat): nat
    requires half > 0
  {
    Addend(rm, neg, half)
  }

  lemma PowHalf(f: Format)
    ensures 2 * Pow2(f.exp - 2) == Pow2(f.exp - 1)
  {
  }

  lemma ShiftedCell(f: Format, mant: nat, y: real, d: nat, y1: real)
    requires mant < Pow2(f.mant + f.exp) && SameCell(Pow2(f.exp - 2), mant, y) && IsProduct(y1, y, P2(-(d as int)))
    ensures SameCell(Pow2(f.exp - 2), RshiftRnd(f, mant, d), y1)
  {
    Pow2Even(f.exp - 2);
    Pow2Mono(f.mant + f.exp, f.Size());
    RshiftKeepsCell(f, Pow2(f.exp - 2), mant, d, y, y1);
  }

  lemma ZeroCell(q: nat, y: real)
    requires SameCell(q, 0, y)
    ensures y == 0.0
  {
    assert SameSide(Times(0, q), 0, y);
  }

  /** The sum of a normalized mantissa and the addend reaches the next binade exactly when rounding does. */
  lemma ReachesNextBinade(f: Format, rm: RoundingMode, neg: bool, mant: nat)
    requires Pow2(f.mant + f.exp - 1) <= mant < Pow2(f.mant + f.exp)
    ensures Dropped(f, rm, neg, mant) < Pow2(f.mant + 1) <==>
            mant + Addend(rm, neg, Pow2(f.exp - 2)) < Pow2(f.mant + f.exp)
  {
    var unit := 2 * Pow2(f.exp - 2);
    var s := mant + AddendNat(rm, neg, Pow2(f.exp - 2));
    PowHalf(f);
    Pow2Add(f.mant + 1, f.exp - 1);
    Pow2Even(f.mant + 1);
    QuotientBelow(s, unit, Pow2(f.mant + 1));
  }

  lemma QuotientBelow(s: nat, unit: nat, p: nat)
    requires unit > 0
    ensures s / unit < p <==> s < p * unit
  {
    var k := s / unit;
    assert s == k * unit + s % unit;
    if k < p { assert (p - k) * unit == p * unit - k * unit; MulAtLeast(p - k, unit); }
    if k > p { assert (k - p) * unit == k * unit - p * unit; MulAtLeast(k - p, unit); }
  }

  /** Tininess after rounding, as the code tests it before the subnormal shift. */
  lemma TinyTest(f: Format, rm: RoundingMode, neg: bool, exp: int, mant: nat, y: real, x: real, t0: real)
    requires Pow2(f.mant + f.exp - 1) <= mant < Pow2(f.mant + f.exp)
    requires SameCell(Pow2(f.exp - 2), mant, y)
    requires IsProduct(t0, y, P2(1 - f.exp)) && IsProduct(x, t0, P2(exp - 1))
    ensures Tiny(f, rm, neg, x) <==>
            exp < 0 || (exp == 0 && mant + Addend(rm, neg, Pow2(f.exp - 2)) < Pow2(f.mant + f.exp))
    ensures Pow2(f.mant) as real <= t0 < Pow2(f.mant + 1) as real
  {
    NormalizedRange(f, mant, y);
    UnitsBelowRadix(f, y, t0);
    PowHalf(f);
    DropBits(rm, neg, mant, Pow2(f.exp - 2), y, t0);
    assert Dropped(f, rm, neg, mant) == RoundToInt(rm, neg, t0);
    ReachesNextBinade(f, rm, neg, mant);
    TinyIff(f, rm, neg, x, exp - 1, t0);
  }

  /** The range of the units after a subnormal shift. */
  lemma ShiftedRange(f: Format, d: nat, y: real, y1: real, t: real, t0: real)
    requires IsProduct(y1, y, P2(-(d as int)))
    requires IsProduct(t, y1, P2(1 - f.exp)) && IsProduct(t0, y, P2(1 - f.exp))
    requires Pow2(f.mant) as real <= t0 < Pow2(f.mant + 1) as real
    ensures 0.0 <= t < Pow2(f.mant + 1) as real
    ensures d == 0 ==> t == t0
  {
    var n := -(d as int);
    P2AtMostOne(n);
    ScaleChain(y, y1, t, n, 1 - f.exp);
    ScaleSplit(y, t0, t, 1 - f.exp, n + (1 - f.exp));
    assert n + (1 - f.exp) - (1 - f.exp) == n;
    assert IsProduct(t, t0, P2(n));
    hide P2, Pow2;
    NonnegativeProduct(t, t0, P2(n));
    AtMostOneTimes(t, t0, P2(n));
  }

  lemma AtMostOneTimes(t: real, t0: real, u: real)
    requires IsProduct(t, t0, u) && t0 >= 0.0 && u <= 1.0
    ensures t <= t0 && (u == 1.0 ==> t == t0)
  {
    MulMonotone(t0, u, 1.0);
  }

  lemma {:induction false} P2AtMostOne(n: int)
    requires n <= 0
    ensures P2(n) <= 1.0 && (n == 0 ==> P2(n) == 1.0)
    decreases -n
  {
    if n < 0 { P2AtMostOne(n + 1); }
  }

  /** The exact value as `t` units of the binade `E` = exp + d, after a subnormal shift by `d`. */
  lemma PackReading(f: Format, rm: RoundingMode, neg: bool, exp: int, mant: nat, y: real, d: nat, x: real)
    returns (t: real)
    requires mant == 0 || Pow2(f.mant + f.exp - 1) <= mant < Pow2(f.mant + f.exp)
    requires SameCell(Pow2(f.exp - 2), mant, y) && IsProduct(x, y, P2(exp - f.exp))
    requires d == if exp <= 0 then 1 - exp else 0
    ensures IsProduct(x, t, Pow2(exp + d - 1) as real)
    ensures RoundToInt(rm, neg, t) == Dropped(f, rm, neg, RshiftRnd(f, mant, d))
    ensures RshiftRnd(f, mant, d) % Pow2(f.exp - 1) == 0 <==> t == t.Floor as real
    ensures mant != 0 ==> 0.0 <= t < Pow2(f.mant + 1) as real
    ensures mant != 0 && exp > 0 ==> Pow2(f.mant) as real <= t
    ensures mant != 0 ==> (Tiny(f, rm, neg, x) <==>
              exp < 0 || (exp == 0 && mant + Addend(rm, neg, Pow2(f.exp - 2)) < Pow2(f.mant + f.exp)))
  {
    var y1, t0 := y * P2(-(d as int)), y * P2(1 - f.exp);
    t := y1 * P2(1 - f.exp);
    assert IsProduct(y1, y, P2(-(d as int))) && IsProduct(t0, y, P2(1 - f.exp)) && IsProduct(t, y1, P2(1 - f.exp));
    hide IsProduct, SameCell, RoundToInt, RshiftRnd, Tiny, P2, Pow2;
    PowHalf(f);
    ShiftedCell(f, mant, y, d, y1);
    Readings(f, exp, y, d, exp + d, y1, t, x, t0);
    DropBits(rm, neg, RshiftRnd(f, mant, d), Pow2(f.exp - 2), y1, t);
    if mant != 0 {
      TinyTest(f, rm, neg, exp, mant, y, x, t0);
      ShiftedRange(f, d, y, y1, t, t0);
    }
  }

  /** When round_pack_sf raises underflow; `m` is the mantissa after the subnormal shift. */
  ghost predicate Underflows(f: Format, rm: RoundingMode, neg: bool, exp: int, mant: nat, m: nat) {
    RndBits(f, m) != 0 && exp <= 0 &&
    (exp < 0 || mant + Addend(rm, neg, Pow2(f.exp - 2)) < Pow2(f.mant + f.exp))
  }

  /** Where the values round_pack_sf ends with meet the specification: `d` is the subnormal shift, `m` the shifted
      mantissa. */
  lemma PackOutcome(f: Format, rm: RoundingMode, neg: bool, exp: int, mant: nat, y: real, d: nat,
                    m: nat, n: nat, E: nat, x: real, r: nat)
    requires mant == 0 || Pow2(f.mant + f.exp - 1) <= mant < Pow2(f.mant + f.exp)
    requires SameCell(Pow2(f.exp - 2), mant, y) && IsProduct(x, y, P2(exp - f.exp))
    requires d == (if exp <= 0 then 1 - exp else 0) && E == exp + d
    requires m == RshiftRnd(f, mant, d) && n == Dropped(f, rm, neg, m)
    requires r == Packed(f, rm, neg, E, n)
    ensures x >= 0.0 && CorrectlyRounded(f, rm, Signed(neg, x), r) && f.Negative(r) == neg
    ensures Exact(f, Signed(neg, x), r) <==> !Saturates(f, E, n) && RndBits(f, m) == 0
    ensures Overflows(f, rm, neg, x) <==> Saturates(f, E, n)
    ensures Underflows(f, rm, neg, exp, mant, m) <==> Tiny(f, rm, neg, x) && !Exact(f, Signed(neg, x), r)
  {
    if mant == 0 {
      ZeroCell(Pow2(f.exp - 2), y);
      RshiftOfZero(f, d);
      assert x == 0.0;
      hide IsProduct, SameCell, RoundToInt, RshiftRnd, Tiny, P2, CorrectlyRounded, Exact, Encode, Dropped, Packed, Pow2;
      ZeroOutcome(f, rm, neg, m, n, x, E, r);
      DivModUnique(0, Pow2(f.exp - 1), 0, 0);
    } else {
      var t := PackReading(f, rm, neg, exp, mant, y, d, x);
      hide IsProduct, SameCell, Dropped, RoundToInt, RshiftRnd, Tiny, P2, Pow2, CorrectlyRounded, Exact, Packed,
           Saturates;
      NonnegativeProduct(x, t, Pow2(E - 1) as real);
      PackedIsDelivered(f, rm, neg, E, x, t, r);
      PackFields(f, rm, neg, E, n);
      LowestBinade(f, n);
    }
  }

  lemma LowestBinade(f: Format, n: nat)
    requires n <= Pow2(f.mant + 1)
    ensures !Saturates(f, 1, n)
  {
    Pow2AtLeast(f.exp);
    Pow2Mono(5, f.exp);
    var p := Pow2(f.mant + 1);
    hide Pow2;
    if n < p { DivModUnique(n, p, 0, n); } else { DivModUnique(n, p, 1, 0); }
  }

  lemma NoShift(f: Format, a: nat)
    ensures RshiftRnd(f, a, 0) == a
  {
  }

  lemma RshiftOfZero(f: Format, d: nat)
    ensures RshiftRnd(f, 0, d) == 0
  {
    DivModUnique(0, Pow2(d), 0, 0);
  }

  lemma NonnegativeProduct(x: real, t: real, q: real)
    requires IsProduct(x, t, q) && t >= 0.0 && q > 0.0
    ensures x >= 0.0
  {
    ProductOrder(x, t, 0.0, 0.0, q);
  }

  lemma ZeroOutcome(f: Format, rm: RoundingMode, neg: bool, m: nat, n: nat, x: real, E: nat, r: nat)
    requires m == 0 && n == Dropped(f, rm, neg, m) && x == 0.0 && r == Packed(f, rm, neg, E, n)
    ensures n == 0 && CorrectlyRounded(f, rm, Signed(neg, x), r) && f.Negative(r) == neg
    ensures Exact(f, Signed(neg, x), r) && !Overflows(f, rm, neg, x) && !Saturates(f, E, n)
  {
    var half := Pow2(f.exp - 2);
    DivModUnique(AddendNat(rm, neg, half), 2 * half, 0, AddendNat(rm, neg, half));
    assert n == 0;
    assert RoundToInt(rm, neg, 0.0) == 0;
    assert r == Packed(f, rm, neg, 1, 0);
    PackFields(f, rm, neg, 1, 0);
    hide CorrectlyRounded, Exact, Encode, Dropped, Packed, Pow2, Overflows;
    PackedIsDelivered(f, rm, neg, 1, x, 0.0, r);
  }

  lemma PackDelivers(f: Format, rm: RoundingMode, neg: bool, exp: int, mant: nat, y: real, x: real,
                     m: nat, n: nat, E: nat, before: Flags, r: nat, after: Flags)
    requires mant == 0 || Pow2(f.mant + f.exp - 1) <= mant < Pow2(f.mant + f.exp)
    requires SameCell(Pow2(f.exp - 2), mant, y) && IsProduct(x, y, P2(exp - f.exp))
    requires E == if exp <= 0 then 1 else exp
    requires m == RshiftRnd(f, mant, E - exp) && n == Dropped(f, rm, neg, m)
    requires r == Packed(f, rm, neg, E, n)
    requires after == before.(
      inexact := before.inexact || RndBits(f, m) != 0 || Saturates(f, E, n),
      underflow := before.underflow || Underflows(f, rm, neg, exp, mant, m),
      overflow := before.overflow || Saturates(f, E, n))
    ensures Delivers(f, rm, Signed(neg, x), neg, before, r, after)
  {
    hide Packed, Dropped, RshiftRnd, Pow2, Saturates, Overflows, Tiny, Exact, CorrectlyRounded, SameCell, IsProduct, P2,
         Underflows, FormatSizes.Negative, RndBits, Delivers;
    PackOutcome(f, rm, neg, exp, mant, y, E - exp, m, n, E, x, r);
    OutcomeDelivers(f, rm, neg, x, before, r, after);
  }

  lemma OutcomeDelivers(f: Format, rm: RoundingMode, neg: bool, x: real, before: Flags, r: nat, after: Flags)
    requires x >= 0.0 && CorrectlyRounded(f, rm, Signed(neg, x), r) && f.Negative(r) == neg
    requires after == before.(
      inexact := before.inexact || !Exact(f, Signed(neg, x), r),
      underflow := before.underflow || (Tiny(f, rm, neg, x) && !Exact(f, Signed(neg, x), r)),
      overflow := before.overflow || Overflows(f, rm, neg, x))
    ensures Delivers(f, rm, Signed(neg, x), neg, before, r, after)
  {
    hide CorrectlyRounded, Exact, Tiny, Overflows, FormatSizes.Negative;
    SignedAbs(neg, x);
    hide Signed, Abs;
  }

  /** The end of round_pack_sf: the carry into the exponent, overflow, and the fields. */
  method PackRounded(f: Format, rm: RoundingMode, neg: bool, E: nat, n: nat, addend: nat, before: Flags)
    returns (r: nat, after: Flags)
    requires addend == Addend(rm, neg, Pow2(f.exp - 2))
    ensures r == Packed(f, rm, neg, E, n)
    ensures after == before.(overflow := before.overflow || Saturates(f, E, n),
                             inexact := before.inexact || Saturates(f, E, n))
  {
    after := before;
    var mant := n;
    var exp := CarriedExp(f, E, n);
    if mant <= Pow2(f.mant) - 1 {
      // subnormal or zero
      exp := 0;
    } else if exp >= f.ExpMask() {
      if addend == 0 {
        exp, mant := f.ExpMask() - 1, Pow2(f.mant) - 1;
      } else {
        exp, mant := f.ExpMask(), 0;
      }
      after := after.(overflow := true, inexact := true);
    }
    r := Pack(f, neg, exp, mant);
  }

  /** The start of round_pack_sf: below the normal range the mantissa is shifted to the least exponent. */
  method ShiftSubnormal(f: Format, rm: RoundingMode, neg: bool, exp0: int, mant0: nat, addend: nat, before: Flags)
    returns (exp: nat, mant: nat, after: Flags)
    requires addend == Addend(rm, neg, Pow2(f.exp - 2))
    ensures exp == if exp0 <= 0 then 1 else exp0
    ensures mant == RshiftRnd(f, mant0, exp - exp0)
    ensures after == before.(underflow := before.underflow || Underflows(f, rm, neg, exp0, mant0, mant))
  {
    after := before;
    if exp0 <= 0 {
      var isSubnormal := exp0 < 0 || mant0 + addend < Pow2(f.mant + f.exp);
      mant := RshiftRnd(f, mant0, 1 - exp0);
      if isSubnormal && RndBits(f, mant) != 0 {
        after := after.(underflow := true);
      }
      exp := 1;
    } else {
      exp, mant := exp0, mant0;
    }
  }

  /** `mant` with the exponent `exp` stands for the exact magnitude `x`, which is `y` * 2^(exp - 1 - RND_SIZE)
      quanta. */
  ghost predicate Reads(f: Format, exp: int, mant: nat, y: real, x: real) {
    SameCell(Pow2(f.exp - 2), mant, y) && IsProduct(x, y, P2(exp - f.exp))
  }

  /** round_pack_sf: `mant0` is zero or has its leading bit at F_SIZE - 2. The outcome is
      the one for every exact magnitude that it stands for. */
  method RoundPackSf(f: Format, neg: bool, exp0: int, mant0: nat, rm: RoundingMode, before: Flags)
    returns (r: nat, after: Flags)
    requires mant0 == 0 || Pow2(f.mant + f.exp - 1) <= mant0 < Pow2(f.mant + f.exp)
    ensures forall y: real, x: real :: Reads(f, exp0, mant0, y, x) ==>
      Delivers(f, rm, Signed(neg, x), neg, before, r, after)
  {
    PowHalf(f);
    hide SameCell, IsProduct, P2, Pow2, Delivers, RshiftRnd, Underflows, Packed, Saturates;
    var half := Pow2(f.exp - 2);
    var addend := Addend(rm, neg, half);
    var exp, m;
    exp, m, after := ShiftSubnormal(f, rm, neg, exp0, mant0, addend, before);
    var rndBits := RndBits(f, m);
    if rndBits != 0 {
      after := after.(inexact := true);
    }
    var n := (m + addend) / Pow2(f.exp - 1);
    // half way: select the even result
    if rm == RNE && rndBits == half {
      n := n - n % 2;
    }
    assert n == Dropped(f, rm, neg, m);
    hide Dropped;
    r, after := PackRounded(f, rm, neg, exp, n, addend, after);
    forall y: real, x: real | Reads(f, exp0, mant0, y, x)
      ensures Delivers(f, rm, Signed(neg, x), neg, before, r, after)
    {
      PackDelivers(f, rm, neg, exp0, mant0, y, x, m, n, exp, before, r, after);
    }
  }
}
