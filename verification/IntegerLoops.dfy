/** The integer loops behind division and square root (softfp_template.h: mul_u, divrem_u, sqrtrem_u;
    riscv_cpu_template.h: mulhu, mulh, mulhsu). */
module IntegerLoops {
  import opened Powers
  import opened Jamming
  import opened Normalize

  // ----- double-width product from half words

  /** The value of base-`H` digits, least significant first. */
  ghost function Horner(H: nat, d0: int, d1: int, d2: int, d3: int): int {
    d0 + H * (d1 + H * (d2 + H * d3))
  }

  lemma HornerProduct(H: nat, a1: nat, a0: nat, b1: nat, b0: nat)
    ensures (a1 * H + a0) * (b1 * H + b0) == Horner(H, a0 * b0, a1 * b0 + a0 * b1, a1 * b1, 0)
  {
    assert (a1 * H + a0) * (b1 * H + b0) == H * (a1 * (b1 * H + b0)) + a0 * (b1 * H + b0);
    assert a1 * (b1 * H + b0) == H * (a1 * b1) + a1 * b0;
    assert a0 * (b1 * H + b0) == H * (a0 * b1) + a0 * b0;
    Distribute(H, H * (a1 * b1) + a1 * b0, a0 * b1);
  }

  lemma Distribute(H: int, x: int, y: int)
    ensures H * x + H * y == H * (x + y)
  {
  }

  lemma TimesSum(H: nat, x: nat, y: nat)
    ensures Times(H, x) + Times(H, y) == Times(H, x + y)
  {
  }

  /** A digit's multiples of `H` carry into the next digit. */
  lemma Carry0(H: nat, d0: nat, d1: nat, d2: nat, d3: nat, c: nat)
    ensures Horner(H, d0 + Times(H, c), d1, d2, d3) == Horner(H, d0, d1 + c, d2, d3)
  {
    Distribute(H, c, d1 + H * (d2 + H * d3));
  }

  lemma Carry1(H: nat, d0: nat, d1: nat, d2: nat, d3: nat, c: nat)
    ensures Horner(H, d0, d1 + Times(H, c), d2, d3) == Horner(H, d0, d1, d2 + c, d3)
  {
    Distribute(H, c, d2 + H * d3);
  }

  lemma Carry2(H: nat, d0: nat, d1: nat, d2: nat, d3: nat, c: nat)
    ensures Horner(H, d0, d1, d2 + Times(H, c), d3) == Horner(H, d0, d1, d2, d3 + c)
  {
    Distribute(H, c, d3);
  }

  /** The carries of mul_u add up the four partial products, each given as low digit `m` and high digit `q`. */
  lemma Carries(H: nat, m00: nat, q00: nat, m01: nat, q01: nat, m10: nat, q10: nat, m11: nat, q11: nat,
                r1: nat, k1: nat, r2: nat, k2: nat)
    requires q00 + m01 + m10 == r1 + Times(H, k1)
    requires k1 + q01 + q10 + m11 == r2 + Times(H, k2)
    ensures Horner(H, m00 + Times(H, q00), m10 + Times(H, q10) + (m01 + Times(H, q01)), m11 + Times(H, q11), 0)
         == Horner(H, m00, r1, r2, k2 + q11)
  {
    hide Horner, Times;
    var d1, d2 := m10 + Times(H, q10) + (m01 + Times(H, q01)), m11 + Times(H, q11);
    Carry0(H, m00, d1, d2, 0, q00);
    TimesSum(H, q10, q01);
    TimesSum(H, q10 + q01, k1);
    assert d1 + q00 == r1 + Times(H, q10 + q01 + k1);
    Carry1(H, m00, r1, d2, 0, q10 + q01 + k1);
    TimesSum(H, q11, k2);
    assert d2 + (q10 + q01 + k1) == r2 + Times(H, q11 + k2);
    Carry2(H, m00, r1, r2, 0, q11 + k2);
  }

  lemma Digit(r: nat, H: nat) returns (q: nat, m: nat)
    requires H > 0
    ensures q == r / H && m == r % H && r == m + Times(H, q) && m < H
  {
    q, m := r / H, r % H;
  }

  lemma TopDigit(H: nat, d0: nat, d1: nat, d2: nat, d3: nat)
    requires H > 0 && Horner(H, d0, d1, d2, d3) < H * H * (H * H)
    ensures d3 < H
  {
    if d3 >= H {
      var t := d2 + H * d3;
      assert H * (H * (H * H)) == H * H * (H * H);
      MulLe(H, H, d3);
      MulLe(H, H * H, t);
      MulLe(H, H * (H * H), d1 + H * t);
    }
  }

  lemma MulLe(c: nat, a: nat, b: nat)
    requires a <= b
    ensures c * a <= c * b
  {
    assert c * b - c * a == c * (b - a);
  }

  lemma ProductBelow(a: nat, b: nat, m: nat)
    requires a < m && b < m
    ensures a * b < m * m
  {
    MulLe(a, b, m);
    MulAtLeast(m - a, m);
    assert m * m - a * m == (m - a) * m;
  }

  lemma HornerSplit(H: nat, d0: nat, d1: nat, d2: nat, d3: nat)
    requires d0 < H && d1 < H && d2 < H && d3 < H
    ensures Horner(H, d0, d1, d2, d3) == (d3 * H + d2) * (H * H) + (d1 * H + d0)
    ensures d3 * H + d2 < H * H && d1 * H + d0 < H * H
  {
    var t := d2 + H * d3;
    assert H * (d1 + H * t) == H * d1 + H * (H * t);
    assert H * (H * t) == t * (H * H);
    TwoDigits(H, d3, d2);
    TwoDigits(H, d1, d0);
  }

  lemma TwoDigits(H: nat, x: nat, y: nat)
    requires x < H && y < H
    ensures x * H + y < H * H
  {
    MulLe(H, x + 1, H);
    Distribute(H, x, 1);
  }

  /** The half words of a word: a right shift by the half size, and the truncating cast. */
  function Hi(H: nat, a: nat): nat
    requires H > 0
  { a / H }

  function Lo(H: nat, a: nat): nat
    requires H > 0
  { a % H }

  /** mul_u and mulhu: the high and low words of the product of two words, `H` being the half-word radix. */
  method MulU(H: nat, a: nat, b: nat) returns (high: nat, low: nat)
    requires H > 0 && a < H * H && b < H * H
    ensures high * (H * H) + low == a * b && low < H * H && high < H * H
  {
    hide Hi, Lo;
    var a0, a1, b0, b1 := Lo(H, a), Hi(H, a), Lo(H, b), Hi(H, b);
    var r00, r01, r10, r11 := a0 * b0, a0 * b1, a1 * b0, a1 * b1;
    var r0 := Lo(H, r00);
    var c := Hi(H, r00) + Lo(H, r01) + Lo(H, r10);
    var r1 := Lo(H, c);
    var c' := Hi(H, c) + Hi(H, r01) + Hi(H, r10) + Lo(H, r11);
    var r2 := Lo(H, c');
    var r3 := Lo(H, Hi(H, c') + Hi(H, r11));
    MulUTotal(H, a, b, a0, a1, b0, b1, r00, r01, r10, r11, c, c', r0, r1, r2, r3);
    low := r1 * H + r0;
    high := r3 * H + r2;
  }

  lemma MulUTotal(H: nat, a: nat, b: nat, a0: nat, a1: nat, b0: nat, b1: nat,
                  r00: nat, r01: nat, r10: nat, r11: nat, c: nat, c': nat, r0: nat, r1: nat, r2: nat, r3: nat)
    requires H > 0 && a < H * H && b < H * H
    requires a0 == Lo(H, a) && a1 == Hi(H, a) && b0 == Lo(H, b) && b1 == Hi(H, b)
    requires r00 == a0 * b0 && r01 == a0 * b1 && r10 == a1 * b0 && r11 == a1 * b1
    requires c == Hi(H, r00) + Lo(H, r01) + Lo(H, r10)
    requires c' == Hi(H, c) + Hi(H, r01) + Hi(H, r10) + Lo(H, r11)
    requires r0 == Lo(H, r00) && r1 == Lo(H, c) && r2 == Lo(H, c') && r3 == Lo(H, Hi(H, c') + Hi(H, r11))
    ensures r3 * H + r2 < H * H && r1 * H + r0 < H * H
    ensures (r3 * H + r2) * (H * H) + (r1 * H + r0) == a * b
  {
    hide Horner, Times;
    var q00, m00 := Digit(r00, H);
    var q01, m01 := Digit(r01, H);
    var q10, m10 := Digit(r10, H);
    var q11, m11 := Digit(r11, H);
    var k1, _ := Digit(c, H);
    var k2, _ := Digit(c', H);
    Carries(H, m00, q00, m01, q01, m10, q10, m11, q11, r1, k1, r2, k2);
    HornerProduct(H, a1, a0, b1, b0);
    ProductBelow(a, b, H * H);
    Reassemble(a, H);
    Reassemble(b, H);
    TopDigit(H, r0, r1, r2, k2 + q11);
    SmallMod(k2 + q11, H);
    HornerSplit(H, r0, r1, r2, r3);
  }

  lemma SmallMod(t: nat, H: nat)
    requires t < H
    ensures t % H == t
  {
    DivModUnique(t, H, 0, t);
  }

  lemma Reassemble(a: nat, H: nat)
    requires H > 0
    ensures a / H * H + a % H == a
  {
  }

  // ----- the signed high products built on mulhu

  /** The word of an integer in two's complement, `W` being the word radix. */
  function ToWord(W: nat, a: int): nat
    requires W > 0
  {
    a % W
  }

  predicate IsSigned(W: nat, a: int) {
    0 <= 2 * a + W < 2 * W
  }

  lemma Congruent(W: nat, x: int, k: int)
    requires W > 0
    ensures (x + W * k) % W == x % W
    ensures (x + W * k) / W == x / W + k
  {
    var q, r := x / W, x % W;
    assert x == W * q + r;
    Distribute(W, q, k);
    QuotientUnique(x + W * k, W, q + k, r);
  }

  lemma QuotientUnique(a: int, q: nat, d: int, r: nat)
    requires q > 0 && a == q * d + r && r < q
    ensures a / q == d && a % q == r
  {
    var d', r' := a / q, a % q;
    assert a == q * d' + r';
    if d > d' { Distribute(q, d', d - d'); MulLe(q, 1, d - d'); }
    if d < d' { Distribute(q, d, d' - d); MulLe(q, 1, d' - d); }
  }

  lemma SmallDifference(W: nat, x: int, y: int)
    requires W > 0 && 0 < y - x < W
    ensures x % W != y % W
  {
    if x % W == y % W {
      assert x == W * (x / W) + x % W && y == W * (y / W) + y % W;
      var k := y / W - x / W;
      Distribute(W, x / W, k);
      if k >= 1 { MulLe(W, 1, k); }
      if k <= 0 { MulLe(W, k, 0); }
    }
  }

  /** The unsigned high word of the two's complement words, in terms of the signed product. */
  lemma UnsignedHigh(W: nat, a: int, b: int, ua: nat, ub: nat)
    requires W > 0 && ua == (if a < 0 then a + W else a) && ub == (if b < 0 then b + W else b)
    ensures (ua * ub) / W % W == (a * b / W + (if a < 0 then b else 0) + (if b < 0 then a else 0)) % W
  {
    var s := (if a < 0 then b else 0) + (if b < 0 then a else 0);
    var one := if a < 0 && b < 0 then 1 else 0;
    OffsetProduct(W, a, b, if a < 0 then 1 else 0, if b < 0 then 1 else 0);
    HighOf(W, a * b, s, one, ua * ub);
  }

  lemma HighOf(W: nat, p: int, s: int, one: int, u: int)
    requires W > 0 && u == p + W * (s + W * one)
    ensures u / W % W == (p / W + s) % W
  {
    Congruent(W, p, s + W * one);
    Congruent(W, p / W + s, one);
  }

  lemma OffsetProduct(W: int, a: int, b: int, i: int, j: int)
    requires 0 <= i <= 1 && 0 <= j <= 1
    ensures (if i == 1 then a + W else a) * (if j == 1 then b + W else b)
         == a * b + W * ((if i == 1 then b else 0) + (if j == 1 then a else 0) +
                         W * (if i == 1 && j == 1 then 1 else 0))
  {
  }

  lemma SignedWord(W: nat, a: int)
    requires IsSigned(W, a) && W > 0
    ensures ToWord(W, a) == if a < 0 then a + W else a
  {
    QuotientUnique(a, W, if a < 0 then -1 else 0, if a < 0 then a + W else a);
  }

  lemma ModPlus(W: nat, x: int, y: int, d: int)
    requires W > 0 && x % W == y % W
    ensures (x + d) % W == (y + d) % W
  {
    assert x == W * (x / W) + x % W && y == W * (y / W) + y % W;
    Distribute(W, x / W, -(y / W));
    Congruent(W, y + d, x / W - y / W);
  }

  /** By how much mulh is off: the operand that is negative is subtracted, not the other one. */
  function Skew(a: int, b: int): nat {
    if a < 0 <= b then b - a else if b < 0 <= a then a - b else 0
  }

  /** mulh as the code has it: the operand whose own sign is negative is the one subtracted, where the signed high
      product needs the other one. It is right exactly when the signs agree. */
  method Mulh(H: nat, a: int, b: int) returns (r: nat)
    requires H > 0 && IsSigned(H * H, a) && IsSigned(H * H, b)
    ensures r == ToWord(H * H, a * b / (H * H)) <==> (a < 0) == (b < 0)
    ensures r == ToWord(H * H, a * b / (H * H) + Skew(a, b))
  {
    var W := H * H;
    SignedWord(W, a);
    SignedWord(W, b);
    var high, low := MulU(H, ToWord(W, a), ToWord(W, b));
    QuotientUnique(ToWord(W, a) * ToWord(W, b), W, high, low);
    UnsignedHigh(W, a, b, ToWord(W, a), ToWord(W, b));
    SmallMod(high, W);
    var r1: int := high;
    if a < 0 { r1 := r1 - a; }
    if b < 0 { r1 := r1 - b; }
    r := r1 % W;
    MulhWhen(W, a, b, high, r1, a * b / W);
  }

  lemma MulhWhen(W: nat, a: int, b: int, high: int, r1: int, want: int)
    requires W > 0 && IsSigned(W, a) && IsSigned(W, b)
    requires high % W == (want + (if a < 0 then b else 0) + (if b < 0 then a else 0)) % W
    requires r1 == high - (if a < 0 then a else 0) - (if b < 0 then b else 0)
    ensures r1 % W == want % W <==> (a < 0) == (b < 0)
    ensures r1 % W == (want + Skew(a, b)) % W
  {
    var d := (if a < 0 then b else 0) + (if b < 0 then a else 0);
    ModPlus(W, high, want + d, r1 - high);
    if a < 0 <= b { SmallDifference(W, want, want + d + (r1 - high)); }
    if b < 0 <= a { SmallDifference(W, want, want + d + (r1 - high)); }
  }

  /** mulhsu: right exactly when the signed operand is not negative, or its word is the other operand. */
  method Mulhsu(H: nat, a: int, b: nat) returns (r: nat)
    requires H > 0 && IsSigned(H * H, a) && b < H * H
    ensures r == ToWord(H * H, a * b / (H * H)) <==> a >= 0 || b == a + H * H
    ensures r == ToWord(H * H, a * b / (H * H) + if a < 0 then b - a else 0)
  {
    var W := H * H;
    SignedWord(W, a);
    var high, low := MulU(H, ToWord(W, a), b);
    QuotientUnique(ToWord(W, a) * b, W, high, low);
    UnsignedHigh(W, a, b, ToWord(W, a), b);
    SmallMod(high, W);
    var r1: int := high;
    if a < 0 { r1 := r1 - a; }
    r := r1 % W;
    MulhsuWhen(W, a, b, high, r1, a * b / W);
  }

  lemma MulhsuWhen(W: nat, a: int, b: nat, high: int, r1: int, want: int)
    requires IsSigned(W, a) && 0 <= b < W
    requires high % W == (want + if a < 0 then b else 0) % W && r1 == high - if a < 0 then a else 0
    ensures r1 % W == want % W <==> a >= 0 || b == a + W
    ensures r1 % W == (want + if a < 0 then b - a else 0) % W
  {
    if a < 0 {
      ModPlus(W, high, want + b, -a);
      Congruent(W, want, 1);
      if b < a + W { SmallDifference(W, want, want + b - a); }
      if b > a + W { SmallDifference(W, want + W, want + b - a); }
    }
  }

  /** The 64-bit product of -1 and 1 has the high word -1; mulh and mulhsu deliver 1. */
  lemma HighOfMinusOne()
    ensures var W := 0x1_0000_0000 * 0x1_0000_0000;
            && IsSigned(W, -1) && IsSigned(W, 1) && ToWord(W, -1 * 1 / W) == 0xffff_ffff_ffff_ffff
            && ToWord(W, -1 * 1 / W + Skew(-1, 1)) == 1 && ToWord(W, -1 * 1 / W + (1 - (-1))) == 1
  {
  }

  // ----- shift-subtract division

  /** One step: the remainder takes in the next dividend bit, and the divisor is subtracted if it fits.
      The lost top bit `ab` of the shifted word counts. */
  method DivStep(size: nat, a1: nat, a0: nat, b: nat) returns (r: nat, rest: nat)
    requires size > 0 && a1 < b <= Pow2(size) && a0 < Pow2(size)
    ensures var bit := a0 / Pow2(size - 1);
      && r < b
      && (2 * a1 + bit == r || 2 * a1 + bit == r + b)
      && rest == 2 * (a0 % Pow2(size - 1)) + (if 2 * a1 + bit == r then 0 else 1)
      && rest < Pow2(size)
  {
    var word, top := Pow2(size), Pow2(size - 1);
    assert word == 2 * top;
    hide Pow2;
    TopBit(a1, top);
    TopBit(a0, top);
    var ab := a1 / top;
    var t := 2 * a1 + a0 / top;
    var a1' := t % word;
    WrapOnce(t, word, ab);
    var qb := 0;
    if ab == 1 || a1' >= b {
      a1' := (a1' + word - b) % word;
      Wrapped(t, word, b, a1');
      qb := 1;
    }
    r := a1';
    rest := (2 * a0) % word + qb;
    Doubled2(a0, top, word);
  }

  lemma TopBit(a: nat, top: nat)
    requires a < 2 * top
    ensures a / top == (if a < top then 0 else 1) && a % top == (if a < top then a else a - top)
  {
    DivModUnique(a, top, if a < top then 0 else 1, if a < top then a else a - top);
  }

  lemma WrapOnce(t: nat, word: nat, ab: nat)
    requires word > 0 && t < 2 * word
    ensures t % word == if t < word then t else t - word
  {
    DivModUnique(t, word, if t < word then 0 else 1, if t < word then t else t - word);
  }

  lemma Wrapped(t: nat, word: nat, b: nat, r: nat)
    requires b <= word && b <= t < 2 * b
    requires r == ((if t < word then t else t - word) + word - b) % word
    ensures r == t - b
  {
    var u := (if t < word then t else t - word) + word - b;
    DivModUnique(u, word, if u < word then 0 else 1, if u < word then u else u - word);
  }

  lemma Doubled2(a: nat, top: nat, word: nat)
    requires a < word && word == 2 * top
    ensures (2 * a) % word == 2 * (if a < top then a else a - top)
  {
    DivModUnique(2 * a, word, if a < top then 0 else 1, 2 * (if a < top then a else a - top));
  }

  /** After some steps `n` dividend bits remain: `low` below the quotient bits `q` found so far. */
  ghost predicate DivState(A: nat, b: nat, size: nat, n: nat, a1: nat, a0: nat, low: nat, q: nat) {
    && n <= size && a1 < b
    && low < Pow2(n) && q < Pow2(size - n)
    && a0 == Shl(low, size - n) + q
    && A == Shl(q * b + a1, n) + low
  }

  lemma DivStateStep(A: nat, b: nat, size: nat, n: nat, a1: nat, a0: nat, low: nat, q: nat, r: nat, rest: nat)
    returns (low': nat, q': nat)
    requires n > 0 && DivState(A, b, size, n, a1, a0, low, q) && b <= Pow2(size)
    requires var bit := a0 / Pow2(size - 1);
      && r < b
      && (2 * a1 + bit == r || 2 * a1 + bit == r + b)
      && rest == 2 * (a0 % Pow2(size - 1)) + (if 2 * a1 + bit == r then 0 else 1)
    ensures DivState(A, b, size, n - 1, r, rest, low', q')
  {
    var half := Pow2(n - 1);
    var bit := if low < half then 0 else 1;
    var qb := if 2 * a1 + bit == r then 0 else 1;
    assert Pow2(n) == 2 * half;
    low' := if low < half then low else low - half;
    q' := 2 * q + qb;
    TopOfRest(size, n, low, q, bit, low');
    DoubledShl(low', size - n);
    assert Pow2(size - n + 1) == 2 * Pow2(size - n);
    QuotientBits(A, b, n, a1, low, q, r, bit, qb, low', q');
  }

  lemma TopOfRest(size: nat, n: nat, low: nat, q: nat, bit: nat, low': nat)
    requires 0 < n <= size && low' < Pow2(n - 1) && q < Pow2(size - n) && (bit == 0 || bit == 1)
    requires low == (if bit == 0 then low' else low' + Pow2(n - 1))
    ensures (Shl(low, size - n) + q) / Pow2(size - 1) == bit
    ensures (Shl(low, size - n) + q) % Pow2(size - 1) == Shl(low', size - n) + q
  {
    var k := size - n;
    ShlPow(n - 1, k);
    ShlMono(low' + 1, Pow2(n - 1), k);
    ShlSucc(low', k);
    ShlSum(low', Pow2(n - 1), k);
    hide Shl, Pow2;
    DivModUnique(Shl(low, k) + q, Pow2(size - 1), bit, Shl(low', k) + q);
  }

  lemma DoubledShl(a: nat, k: nat)
    ensures Shl(a, k + 1) == 2 * Shl(a, k)
  {
  }

  lemma QuotientBits(A: nat, b: nat, n: nat, a1: nat, low: nat, q: nat, r: nat, bit: nat, qb: nat, low': nat, q': nat)
    requires n > 0 && A == Shl(q * b + a1, n) + low && q' == 2 * q + qb
    requires low == low' + (if bit == 0 then 0 else Pow2(n - 1)) && bit <= 1
    requires 2 * a1 + bit == r + (if qb == 0 then 0 else b) && qb <= 1
    ensures A == Shl(q' * b + r, n - 1) + low'
  {
    var x := q * b + a1;
    DoubledShl(x, n - 1);
    ShlSum(x, x, n - 1);
    ShlOne(n - 1);
    ShlSum(2 * x, bit, n - 1);
    assert q' * b + r == 2 * x + bit by { assert (2 * q + qb) * b == 2 * (q * b) + qb * b; }
  }

  /** divrem_u: quotient and remainder of the double word by a divisor above its high word. */
  method DivRemU(size: nat, a1: nat, a0: nat, b: nat) returns (q: nat, r: nat)
    requires a1 < b <= Pow2(size) && a0 < Pow2(size)
    ensures r < b && Shl(a1, size) + a0 == q * b + r && q < Pow2(size)
  {
    ghost var A := Shl(a1, size) + a0;
    ghost var low, bits := a0, 0;
    ShlZero(a0);
    var n: nat := size;
    r, q := a1, a0;
    StartDivision(size, a1, a0, b);
    hide DivState, Pow2, Shl;
    while n > 0
      invariant DivState(A, b, size, n, r, q, low, bits) && q < Pow2(size)
    {
      var r', q' := DivStep(size, r, q, b);
      low, bits := DivStateStep(A, b, size, n, r, q, low, bits, r', q');
      r, q := r', q';
      n := n - 1;
    }
    EndDivision(A, size, b, r, q, low, bits);
  }

  lemma StartDivision(size: nat, a1: nat, a0: nat, b: nat)
    requires a1 < b && a0 < Pow2(size)
    ensures DivState(Shl(a1, size) + a0, b, size, size, a1, a0, a0, 0)
  {
    assert 0 * b + a1 == a1;
  }

  lemma EndDivision(A: nat, size: nat, b: nat, r: nat, q: nat, low: nat, bits: nat)
    requires DivState(A, b, size, 0, r, q, low, bits)
    ensures A == q * b + r && r < b
  {
    ShlZero(bits * b + r);
    assert low == 0;
    assert Shl(0, size) == 0;
  }

  // ----- Newton square root

  function Sq(x: nat): nat {
    x * x
  }

  /** `s` is the floor of the square root of `a`. */
  ghost predicate IsRoot(a: nat, s: nat) {
    Sq(s) <= a < Sq(s + 1)
  }

  function Newton(a: nat, s: nat): nat
    requires s > 0
  {
    (a / s + s) / 2
  }

  lemma SqMono(a: nat, b: nat)
    ensures a <= b <==> Sq(a) <= Sq(b)
  {
    if a <= b { MulLe(a, a, b); MulLe(b, a, b); }
    if b < a { MulLe(b, b, a); MulLe(a, b + 1, a); assert a * b + a == a * (b + 1); }
  }

  /** The iteration never falls below the root, and does not decrease only when it has arrived. */
  lemma NewtonStep(a: nat, s: nat)
    requires s > 0
    ensures a < Sq(Newton(a, s) + 1)
    ensures Newton(a, s) >= s ==> Sq(s) <= a
    ensures Sq(s + 1) <= a ==> Newton(a, s) >= s
  {
    var q, m := Digit(a, s);
    var u := Newton(a, s);
    assert u == (q + s) / 2;
    hide Newton;
    NewtonFrom(a, q, m, s, u);
  }

  lemma NewtonFrom(a: nat, q: nat, m: nat, s: nat, u: nat)
    requires m < s && a == m + Times(s, q) && u == (q + s) / 2
    ensures a < Sq(u + 1)
    ensures u >= s ==> Sq(s) <= a
    ensures Sq(s + 1) <= a ==> u >= s
  {
    Means(a, q, s, u);
    SqTimes(s);
    SqMono(s, s + 1);
    hide Times, Sq;
    if s <= q {
      TimesOrder(s, s, q);
    } else {
      TimesOrder(s, q + 1, s);
      TimesSum(s, q, 1);
      TimesOne(s);
    }
  }

  lemma SqTimes(s: nat)
    ensures Sq(s) == Times(s, s)
  {
  }

  lemma TimesOne(s: nat)
    ensures Times(s, 1) == s
  {
  }

  /** Twice u + 1 is at least the sum of q + 1 and s, whose product exceeds a. */
  lemma Means(a: nat, q: nat, s: nat, u: nat)
    requires a < Times(s, q) + s && q + s + 1 <= 2 * (u + 1)
    ensures a < Sq(u + 1)
  {
    var m, d := q + 1 + s, q + 1 - s;
    assert m * m == d * d + 4 * ((q + 1) * s);
    assert (q + 1) * s == Times(s, q) + s;
    NonNegative(d);
    SqMono(m, 2 * (u + 1));
  }

  lemma NonNegative(d: int)
    ensures d * d >= 0
  {
  }

  /** The exponent of a power of two meant to be no less than a (the bits of a1 - 1, or of a0 - 1). */
  function RootBits(size: nat, a1: nat, a0: nat): nat
    requires a1 != 0 || a0 != 0
  {
    if a1 != 0 then 2 * size - Clz(size, a1 - 1) else size - Clz(size, a0 - 1)
  }

  /** Where the iteration starts; zero for zero. */
  function InitialRoot(size: nat, a1: nat, a0: nat): nat {
    if a1 == 0 && a0 == 0 then 0 else Pow2((RootBits(size, a1, a0) + 1) / 2)
  }

  /** sqrtrem_u on the double word a1:a0. The start is too low for some double words with both halves nonzero and a1 a
      power of two; the result is the floor of the square root exactly when the start is not below it. */
  method SqrtRemU(size: nat, a1: nat, a0: nat) returns (s: nat, inexact: bool)
    requires a1 < Pow2(size) && a0 < Pow2(size)
    ensures IsRoot(Shl(a1, size) + a0, s) <==> Shl(a1, size) + a0 < Sq(InitialRoot(size, a1, a0) + 1)
    ensures inexact <==> Sq(s) != Shl(a1, size) + a0
  {
    if a1 == 0 && a0 == 0 {
      ShlOne(size);
      return 0, false;
    }
    var a := Shl(a1, size) + a0;
    var u := Pow2((RootBits(size, a1, a0) + 1) / 2);
    hide RootBits, Shl, Sq, Newton, Pow2;
    s := u;
    u := Newton(a, s);
    ghost var ok := a < Sq(s + 1);
    NewtonStep(a, s);
    while u < s
      invariant s > 0 && u == Newton(a, s)
      invariant ok <==> a < Sq(s + 1)
      decreases s
    {
      NewtonStep(a, s);
      s := u;
      assert s > 0 by { RootPositive(a, s, a1, a0, size); }
      u := Newton(a, s);
    }
    NewtonStep(a, s);
    inexact := a != Sq(s);
  }

  lemma RootPositive(a: nat, s: nat, a1: nat, a0: nat, size: nat)
    requires a == Shl(a1, size) + a0 && (a1 != 0 || a0 != 0) && a < Sq(s + 1)
    ensures s > 0
  {
    if a1 > 0 { ShlMono(1, a1, size); ShlOne(size); }
    assert Sq(1) == 1;
  }

  /** With a zero low word, as sqrt_sf passes, or a zero high word, the start is high enough. */
  lemma InitialRootIsHigh(size: nat, a1: nat, a0: nat)
    requires a1 < Pow2(size) && a0 < Pow2(size) && (a0 == 0 || a1 == 0)
    ensures Shl(a1, size) + a0 < Sq(InitialRoot(size, a1, a0) + 1)
  {
    hide Pow2, RootBits, Shl, Sq;
    if a1 != 0 || a0 != 0 {
      RootBitsBound(size, a1, a0);
      RootHigh(Shl(a1, size) + a0, RootBits(size, a1, a0));
    } else {
      ShlOne(size);
      SqPow(0);
      SqMono(1, 0);
    }
  }

  lemma RootHigh(a: nat, l: nat)
    requires a <= Pow2(l)
    ensures a < Sq(Pow2((l + 1) / 2) + 1)
  {
    var h := (l + 1) / 2;
    Pow2Mono(l, h + h);
    SqPow(h);
    hide Pow2, Sq;
    SqMono(Pow2(h) + 1, Pow2(h));
  }

  lemma SqPow(h: nat)
    ensures Sq(Pow2(h)) == Pow2(h + h)
  {
    Pow2Add(h, h);
  }

  lemma RootBitsBound(size: nat, a1: nat, a0: nat)
    requires (a0 == 0 && a1 != 0) || (a1 == 0 && a0 != 0)
    ensures Shl(a1, size) + a0 <= Pow2(RootBits(size, a1, a0))
  {
    var a := if a1 != 0 then a1 - 1 else a0 - 1;
    if a > 0 { BitLenBounds(a); }
    assert a + 1 <= Pow2(BitLen(a));
    ShlOne(size);
    if a1 != 0 {
      ShlMono(a1, Pow2(BitLen(a)), size);
      ShlPow(BitLen(a), size);
    }
  }

  /** A double word whose root the iteration misses: for 8-bit words, 511 gives 16 where the root is 22. */
  lemma SqrtRemMisses()
    ensures InitialRoot(8, 1, 255) == 16 && Shl(1, 8) + 255 == 511
    ensures !(Shl(1, 8) + 255 < Sq(InitialRoot(8, 1, 255) + 1)) && IsRoot(511, 22)
  {
    SmallPowers8();
    hide Pow2;
    assert BitLen(0) == 0;
    assert RootBits(8, 1, 255) == 8;
    hide BitLen;
    ShlOne(8);
    assert Sq(17) == 289 && Sq(22) == 484 && Sq(23) == 529;
  }

  lemma SmallPowers8()
    ensures Pow2(4) == 16 && Pow2(8) == 256
  {
    Pow2Add(4, 4);
  }
}
